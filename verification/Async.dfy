/** Asynchronous processes: which always @(...) processes behave as combinational logic. */
module Async {
  import opened FourState
  import opened Wrappers

  // ---- Statements ----

  /** An expression: a function of the nexuses it reads. */
  datatype Expr = Expr(args: seq<nat>, f: seq<Vec> -> Vec)

  /** Null stands for a statement that is not there. The guard of a default item is absent. */
  datatype Stmt =
    | Null
    | Assign(target: nat, rhs: Expr)
    | Block(stmts: seq<Stmt>)
    | If(cond: Expr, thn: Stmt, els: Stmt)
    | Case(sel: Expr, items: seq<Item>)

  datatype Item = Guarded(guard: Expr, body: Stmt) | Default(body: Stmt)

  /** The values of all nexuses. */
  type State = seq<Vec>

  function At(st: State, n: nat): Vec {
    if n < |st| then st[n] else []
  }

  function Put(st: State, n: nat, v: Vec): (r: State)
    ensures |r| == |st|
    ensures forall m: nat :: At(r, m) == if m == n && n < |st| then v else At(st, m)
  {
    if n < |st| then st[n := v] else st
  }

  function Args(e: Expr): set<nat> {
    set n | n in e.args
  }

  function Eval(e: Expr, st: State): Vec {
    e.f(seq(|e.args|, i requires 0 <= i < |e.args| => At(st, e.args[i])))
  }

  /** The item a selector value chooses among the items from the k-th on: the first with an
      equal guard. */
  function Match(items: seq<Item>, v: Vec, st: State, k: nat): (r: nat)
    requires k <= |items|
    ensures k <= r <= |items|
    decreases |items| - k
  {
    if k == |items| then k
    else if items[k].Guarded? && Eval(items[k].guard, st) == v then k
    else Match(items, v, st, k + 1)
  }

  function DefaultOf(items: seq<Item>, k: nat): (r: nat)
    requires k <= |items|
    ensures k <= r <= |items|
    decreases |items| - k
  {
    if k == |items| || items[k].Default? then k else DefaultOf(items, k + 1)
  }

  /** The item executed, or |items| for none. */
  function Chosen(c: Stmt, st: State): (r: nat)
    requires c.Case?
    ensures r <= |c.items|
  {
    var m := Match(c.items, Eval(c.sel, st), st, 0);
    if m < |c.items| then m else DefaultOf(c.items, 0)
  }

  /** Execution of a statement without delay. */
  function Exec(s: Stmt, st: State): (r: State)
    decreases s
  {
    match s
    case Null => st
    case Assign(target, rhs) => Put(st, target, Eval(rhs, st))
    case Block(stmts) => ExecAll(stmts, st)
    case If(cond, thn, els) => if V1 in Eval(cond, st) then Exec(thn, st) else Exec(els, st)
    case Case(_, items) => var k := Chosen(s, st); if k < |items| then Exec(items[k].body, st) else st
  }

  function ExecAll(stmts: seq<Stmt>, st: State): State
    decreases stmts
  {
    if stmts == [] then st else ExecAll(stmts[1..], Exec(stmts[0], st))
  }

  /** The nexuses that an execution assigns. */
  function Writes(s: Stmt, st: State): set<nat>
    decreases s
  {
    match s
    case Null => {}
    case Assign(target, _) => {target}
    case Block(stmts) => WritesAll(stmts, st)
    case If(cond, thn, els) => if V1 in Eval(cond, st) then Writes(thn, st) else Writes(els, st)
    case Case(_, items) => var k := Chosen(s, st); if k < |items| then Writes(items[k].body, st) else {}
  }

  function WritesAll(stmts: seq<Stmt>, st: State): set<nat>
    decreases stmts
  {
    if stmts == [] then {} else Writes(stmts[0], st) + WritesAll(stmts[1..], Exec(stmts[0], st))
  }

  // ---- Inputs and outputs of a statement ----

  function NexOutput(s: Stmt): set<nat> {
    match s
    case Null => {}
    case Assign(target, _) => {target}
    case Block(stmts) => set k, n | 0 <= k < |stmts| && n in NexOutput(stmts[k]) :: n
    case If(_, thn, els) => NexOutput(thn) + NexOutput(els)
    case Case(_, items) => set k, n | 0 <= k < |items| && n in NexOutput(items[k].body) :: n
  }

  /** What a statement is taken to read: a block's outputs are removed as intermediate values,
      and case items without a statement are skipped with their guards. */
  function NexInput(s: Stmt): set<nat> {
    match s
    case Null => {}
    case Assign(_, rhs) => Args(rhs)
    case Block(stmts) => (set k, n | 0 <= k < |stmts| && n in NexInput(stmts[k]) :: n) - NexOutput(s)
    case If(cond, thn, els) => Args(cond) + NexInput(thn) + NexInput(els)
    case Case(sel, items) =>
      Args(sel) + set k, n | 0 <= k < |items| && n in ItemInput(items[k]) :: n
  }

  function ItemInput(item: Item): set<nat> {
    if item.body.Null? then {}
    else NexInput(item.body) + if item.Guarded? then Args(item.guard) else {}
  }

  /** Everything the statement mentions on a right hand side, as a condition or as a guard. */
  function Reads(s: Stmt): set<nat> {
    match s
    case Null => {}
    case Assign(_, rhs) => Args(rhs)
    case Block(stmts) => set k, n | 0 <= k < |stmts| && n in Reads(stmts[k]) :: n
    case If(cond, thn, els) => Args(cond) + Reads(thn) + Reads(els)
    case Case(sel, items) => Args(sel) + set k, n | 0 <= k < |items| && n in ItemReads(items[k]) :: n
  }

  function ItemReads(item: Item): set<nat> {
    Reads(item.body) + if item.Guarded? then Args(item.guard) else {}
  }

  /** What the guards of case items without a statement read. */
  function HiddenGuards(s: Stmt): set<nat> {
    match s
    case Null => {}
    case Assign(_, _) => {}
    case Block(stmts) => set k, n | 0 <= k < |stmts| && n in HiddenGuards(stmts[k]) :: n
    case If(_, thn, els) => HiddenGuards(thn) + HiddenGuards(els)
    case Case(_, items) => set k, n | 0 <= k < |items| && n in ItemHidden(items[k]) :: n
  }

  function ItemHidden(item: Item): set<nat> {
    if item.body.Null? then if item.Guarded? then Args(item.guard) else {} else HiddenGuards(item.body)
  }

  /** The inputs miss nothing but outputs and hidden guards, and add nothing to what is read. */
  lemma {:induction false} InputsCoverReads(s: Stmt)
    ensures Reads(s) - NexOutput(s) <= NexInput(s) + HiddenGuards(s) <= Reads(s)
  {
    match s
    case Null =>
    case Assign(_, _) =>
    case Block(stmts) =>
      forall k | 0 <= k < |stmts|
        ensures Reads(stmts[k]) - NexOutput(stmts[k]) <= NexInput(stmts[k]) + HiddenGuards(stmts[k]) <= Reads(stmts[k])
      {
        InputsCoverReads(stmts[k]);
      }
      forall n | n in Reads(s) - NexOutput(s) ensures n in NexInput(s) + HiddenGuards(s) {
        var k :| 0 <= k < |stmts| && n in Reads(stmts[k]);
        assert n in NexInput(stmts[k]) + HiddenGuards(stmts[k]);
      }
    case If(cond, thn, els) =>
      InputsCoverReads(thn);
      InputsCoverReads(els);
      forall n | n in Reads(s) - NexOutput(s) ensures n in NexInput(s) + HiddenGuards(s) {
        assert n in Reads(thn) - NexOutput(thn) || n in Reads(els) - NexOutput(els) || n in Args(cond);
      }
    case Case(sel, items) =>
      forall k | 0 <= k < |items|
        ensures ItemReads(items[k]) - NexOutput(items[k].body) <= ItemInput(items[k]) + ItemHidden(items[k]) <= ItemReads(items[k])
      {
        InputsCoverReads(items[k].body);
        ItemCovered(items[k]);
      }
      forall n | n in Reads(s) - NexOutput(s) ensures n in NexInput(s) + HiddenGuards(s) {
        if n !in Args(sel) {
          var k :| 0 <= k < |items| && n in ItemReads(items[k]);
          assert n in ItemInput(items[k]) + ItemHidden(items[k]);
        }
      }
  }

  lemma ItemCovered(item: Item)
    requires Reads(item.body) - NexOutput(item.body) <= NexInput(item.body) + HiddenGuards(item.body) <= Reads(item.body)
    ensures ItemReads(item) - NexOutput(item.body) <= ItemInput(item) + ItemHidden(item) <= ItemReads(item)
  {
    forall n | n in ItemReads(item) - NexOutput(item.body) ensures n in ItemInput(item) + ItemHidden(item) {
      if n in Reads(item.body) {
        assert n in NexInput(item.body) + HiddenGuards(item.body);
      }
    }
  }

  // ---- Where a statement reads and assigns ----

  /** The statements directly inside. */
  function Child(s: Stmt, k: nat): Option<Stmt> {
    match s
    case Null => None
    case Assign(_, _) => None
    case Block(stmts) => if k < |stmts| then Some(stmts[k]) else None
    case If(_, thn, els) => if k == 0 then Some(thn) else if k == 1 then Some(els) else None
    case Case(_, items) => if k < |items| then Some(items[k].body) else None
  }

  function StmtAt(s: Stmt, path: seq<nat>): Option<Stmt>
    decreases |path|
  {
    if path == [] then Some(s)
    else
      var c := Child(s, path[0]);
      if c.None? then None else StmtAt(c.value, path[1..])
  }

  /** The expressions of a statement itself: a case statement has its selector first, and
      then the guards of its items. */
  function OwnExpr(s: Stmt, j: nat): Option<Expr> {
    match s
    case Null => None
    case Assign(_, rhs) => if j == 0 then Some(rhs) else None
    case Block(_) => None
    case If(cond, _, _) => if j == 0 then Some(cond) else None
    case Case(sel, items) =>
      if j == 0 then Some(sel)
      else if j <= |items| && items[j - 1].Guarded? then Some(items[j - 1].guard)
      else None
  }

  predicate ReadsAt(s: Stmt, path: seq<nat>, j: nat, n: nat) {
    var t := StmtAt(s, path);
    t.Some? && OwnExpr(t.value, j).Some? && n in Args(OwnExpr(t.value, j).value)
  }

  predicate AssignsAt(s: Stmt, path: seq<nat>, n: nat) {
    var t := StmtAt(s, path);
    t.Some? && t.value.Assign? && t.value.target == n
  }

  ghost predicate Assigns(s: Stmt, n: nat) {
    exists path :: AssignsAt(s, path, n)
  }

  /** The expression is the guard of an item without a statement. */
  predicate EmptyAt(s: Stmt, path: seq<nat>, j: nat) {
    var t := StmtAt(s, path);
    t.Some? && t.value.Case? && 0 < j <= |t.value.items| && t.value.items[j - 1].body.Null?
  }

  /** The place is inside a block that assigns the nexus. */
  ghost predicate Shadowed(s: Stmt, path: seq<nat>, n: nat)
    decreases |path|
  {
    path != [] && ((s.Block? && Assigns(s, n)) || (Child(s, path[0]).Some? && Shadowed(Child(s, path[0]).value, path[1..], n)))
  }

  /** A read that counts. */
  ghost predicate CountsAt(s: Stmt, path: seq<nat>, j: nat, n: nat) {
    ReadsAt(s, path, j, n) && !EmptyAt(s, path, j) && !Shadowed(s, path, n)
  }

  lemma Inside(s: Stmt, k: nat, path: seq<nat>)
    requires Child(s, k).Some?
    ensures StmtAt(s, [k] + path) == StmtAt(Child(s, k).value, path)
    ensures forall n :: Shadowed(s, [k] + path, n) <==> (s.Block? && Assigns(s, n)) || Shadowed(Child(s, k).value, path, n)
  {
    assert ([k] + path)[1..] == path;
  }

  /** What is read at a place is read by the statement itself or inside one of its parts. */
  lemma ReadInside(s: Stmt, path: seq<nat>, j: nat, n: nat)
    requires ReadsAt(s, path, j, n) && path != []
    ensures Child(s, path[0]).Some? && ReadsAt(Child(s, path[0]).value, path[1..], j, n)
    ensures EmptyAt(s, path, j) <==> EmptyAt(Child(s, path[0]).value, path[1..], j)
    ensures CountsAt(s, path, j, n) <==>
            CountsAt(Child(s, path[0]).value, path[1..], j, n) && !(s.Block? && Assigns(s, n))
  {
  }

  lemma CountOutside(s: Stmt, k: nat, path: seq<nat>, j: nat, n: nat)
    requires Child(s, k).Some? && CountsAt(Child(s, k).value, path, j, n) && !(s.Block? && Assigns(s, n))
    ensures CountsAt(s, [k] + path, j, n)
  {
    Inside(s, k, path);
  }

  /** The outputs are what is assigned anywhere. */
  lemma {:induction false} OutputsExactly(s: Stmt, n: nat)
    ensures n in NexOutput(s) <==> Assigns(s, n)
  {
    forall k | Child(s, k).Some?
      ensures n in NexOutput(Child(s, k).value) <==> Assigns(Child(s, k).value, n)
    {
      OutputsExactly(Child(s, k).value, n);
    }
    if n in NexOutput(s) {
      if s.Assign? {
        assert AssignsAt(s, [], n);
      } else {
        var k := OutputFrom(s, n);
        var path :| AssignsAt(Child(s, k).value, path, n);
        Inside(s, k, path);
        assert AssignsAt(s, [k] + path, n);
      }
    }
    if path :| AssignsAt(s, path, n) {
      if path != [] {
        assert AssignsAt(Child(s, path[0]).value, path[1..], n);
      }
    }
  }

  lemma OutputFrom(s: Stmt, n: nat) returns (k: nat)
    requires n in NexOutput(s) && !s.Assign?
    ensures Child(s, k).Some? && n in NexOutput(Child(s, k).value)
  {
    match s
    case Block(stmts) =>
      k :| 0 <= k < |stmts| && n in NexOutput(stmts[k]);
    case If(_, thn, _) =>
      k := if n in NexOutput(thn) then 0 else 1;
    case Case(_, items) =>
      k :| 0 <= k < |items| && n in NexOutput(items[k].body);
  }

  /** The inputs are the reads that count: those neither inside a block that assigns the
      nexus nor in the guard of an item without a statement. */
  lemma {:induction false} InputsExactly(s: Stmt, n: nat)
    ensures n in NexInput(s) <==> exists path, j :: CountsAt(s, path, j, n)
  {
    if n in NexInput(s) {
      InputCounts(s, n);
    }
    if path, j :| CountsAt(s, path, j, n) {
      CountIsInput(s, n, path, j);
    }
  }

  lemma {:induction false} InputCounts(s: Stmt, n: nat)
    requires n in NexInput(s)
    ensures exists path, j :: CountsAt(s, path, j, n)
  {
    OutputsExactly(s, n);
    if s.Assign? {
      assert CountsAt(s, [], 0, n);
    } else if j: nat :| ReadsAt(s, [], j, n) && !EmptyAt(s, [], j) {
      assert CountsAt(s, [], j, n);
    } else {
      var k := InputFrom(s, n);
      InputCounts(Child(s, k).value, n);
      var path, j :| CountsAt(Child(s, k).value, path, j, n);
      CountOutside(s, k, path, j, n);
    }
  }

  /** An input that is not an own one is one of a part. */
  lemma InputFrom(s: Stmt, n: nat) returns (k: nat)
    requires n in NexInput(s) && !s.Assign? && forall j: nat :: !(ReadsAt(s, [], j, n) && !EmptyAt(s, [], j))
    ensures Child(s, k).Some? && n in NexInput(Child(s, k).value) && Child(s, k).value < s
  {
    match s
    case Block(stmts) =>
      k :| 0 <= k < |stmts| && n in NexInput(stmts[k]);
    case If(_, thn, _) =>
      assert !ReadsAt(s, [], 0, n);
      k := if n in NexInput(thn) then 0 else 1;
    case Case(_, items) =>
      assert !ReadsAt(s, [], 0, n);
      k :| 0 <= k < |items| && n in ItemInput(items[k]);
      assert !ReadsAt(s, [], k + 1, n) || EmptyAt(s, [], k + 1);
  }

  lemma {:induction false} CountIsInput(s: Stmt, n: nat, path: seq<nat>, j: nat)
    requires CountsAt(s, path, j, n)
    ensures n in NexInput(s)
    decreases |path|
  {
    if path == [] {
      if s.Case? && j > 0 {
        assert n in ItemInput(s.items[j - 1]);
      }
    } else {
      ReadInside(s, path, j, n);
      OutputsExactly(s, n);
      CountIsInput(Child(s, path[0]).value, n, path[1..], j);
      if s.Case? {
        assert n in ItemInput(s.items[path[0]]);
      }
    }
  }

  /** All reads, counted or not. */
  lemma {:induction false} ReadsExactly(s: Stmt, n: nat)
    ensures n in Reads(s) <==> exists path, j :: ReadsAt(s, path, j, n)
  {
    forall k | Child(s, k).Some?
      ensures n in Reads(Child(s, k).value) <==> exists path, j :: ReadsAt(Child(s, k).value, path, j, n)
    {
      ReadsExactly(Child(s, k).value, n);
    }
    if n in Reads(s) {
      ReadIsAt(s, n);
    }
    if path, j :| ReadsAt(s, path, j, n) {
      if path == [] {
        if s.Case? && j > 0 {
          assert n in ItemReads(s.items[j - 1]);
        }
      } else {
        assert ReadsAt(Child(s, path[0]).value, path[1..], j, n);
        if s.Case? {
          assert n in ItemReads(s.items[path[0]]);
        }
      }
    }
  }

  lemma ReadIsAt(s: Stmt, n: nat)
    requires n in Reads(s)
    requires forall k | Child(s, k).Some? && n in Reads(Child(s, k).value) ::
               exists path, j :: ReadsAt(Child(s, k).value, path, j, n)
    ensures exists path, j :: ReadsAt(s, path, j, n)
  {
    if s.Assign? {
      assert ReadsAt(s, [], 0, n);
    } else if j: nat :| ReadsAt(s, [], j, n) {
    } else {
      var k := ReadFrom(s, n);
      var path, j :| ReadsAt(Child(s, k).value, path, j, n);
      Inside(s, k, path);
      assert ReadsAt(s, [k] + path, j, n);
    }
  }

  lemma ReadFrom(s: Stmt, n: nat) returns (k: nat)
    requires n in Reads(s) && !s.Assign? && forall j: nat :: !ReadsAt(s, [], j, n)
    ensures Child(s, k).Some? && n in Reads(Child(s, k).value)
  {
    match s
    case Block(stmts) =>
      k :| 0 <= k < |stmts| && n in Reads(stmts[k]);
    case If(_, thn, _) =>
      assert !ReadsAt(s, [], 0, n);
      k := if n in Reads(thn) then 0 else 1;
    case Case(_, items) =>
      assert !ReadsAt(s, [], 0, n);
      k :| 0 <= k < |items| && n in ItemReads(items[k]);
      assert !ReadsAt(s, [], k + 1, n);
  }

  /** The hidden guards are the reads in guards of items without a statement. */
  lemma {:induction false} HiddenExactly(s: Stmt, n: nat)
    ensures n in HiddenGuards(s) <==> exists path, j :: ReadsAt(s, path, j, n) && EmptyAt(s, path, j)
  {
    forall k | Child(s, k).Some?
      ensures n in HiddenGuards(Child(s, k).value) <==>
              exists path, j :: ReadsAt(Child(s, k).value, path, j, n) && EmptyAt(Child(s, k).value, path, j)
    {
      HiddenExactly(Child(s, k).value, n);
    }
    if n in HiddenGuards(s) {
      HiddenIsAt(s, n);
    }
    if path, j :| ReadsAt(s, path, j, n) && EmptyAt(s, path, j) {
      if path == [] {
        assert n in ItemHidden(s.items[j - 1]);
      } else {
        ReadInside(s, path, j, n);
        if s.Case? {
          assert n in ItemHidden(s.items[path[0]]);
        }
      }
    }
  }

  lemma HiddenIsAt(s: Stmt, n: nat)
    requires n in HiddenGuards(s)
    requires forall k | Child(s, k).Some? && n in HiddenGuards(Child(s, k).value) ::
               exists path, j :: ReadsAt(Child(s, k).value, path, j, n) && EmptyAt(Child(s, k).value, path, j)
    ensures exists path, j :: ReadsAt(s, path, j, n) && EmptyAt(s, path, j)
  {
    if j: nat :| ReadsAt(s, [], j, n) && EmptyAt(s, [], j) {
    } else {
      var k := HiddenFrom(s, n);
      var path, j :| ReadsAt(Child(s, k).value, path, j, n) && EmptyAt(Child(s, k).value, path, j);
      Inside(s, k, path);
      assert ReadsAt(s, [k] + path, j, n) && EmptyAt(s, [k] + path, j);
    }
  }

  lemma HiddenFrom(s: Stmt, n: nat) returns (k: nat)
    requires n in HiddenGuards(s) && forall j: nat :: !(ReadsAt(s, [], j, n) && EmptyAt(s, [], j))
    ensures Child(s, k).Some? && n in HiddenGuards(Child(s, k).value)
  {
    match s
    case Block(stmts) =>
      k :| 0 <= k < |stmts| && n in HiddenGuards(stmts[k]);
    case If(_, thn, _) =>
      k := if n in HiddenGuards(thn) then 0 else 1;
    case Case(_, items) =>
      k :| 0 <= k < |items| && n in ItemHidden(items[k]);
      assert !ReadsAt(s, [], k + 1, n) || !EmptyAt(s, [], k + 1);
  }

  // ---- Execution depends on the inputs only ----

  /** Nexuses assigned whichever way the statement is executed. */
  function Definite(s: Stmt): set<nat>
    decreases s
  {
    match s
    case Null => {}
    case Assign(target, _) => {target}
    case Block(stmts) => DefiniteAll(stmts)
    case If(_, thn, els) => Definite(thn) * Definite(els)
    case Case(_, items) =>
      if DefaultOf(items, 0) < |items|
      then set n | n in Definite(items[0].body) && forall k | 0 <= k < |items| :: n in Definite(items[k].body)
      else {}
  }

  function DefiniteAll(stmts: seq<Stmt>): set<nat>
    decreases stmts
  {
    if stmts == [] then {} else Definite(stmts[0]) + DefiniteAll(stmts[1..])
  }

  /** The statement reads a nexus of `outs` only after it, or those before it, assigned it. */
  predicate Disciplined(s: Stmt, outs: set<nat>, done: set<nat>)
    decreases s
  {
    match s
    case Null => true
    case Assign(_, rhs) => Args(rhs) * outs <= done
    case Block(stmts) => DisciplinedAll(stmts, outs, done)
    case If(cond, thn, els) =>
      Args(cond) * outs <= done && Disciplined(thn, outs, done) && Disciplined(els, outs, done)
    case Case(sel, items) =>
      && Args(sel) * outs <= done
      && forall k | 0 <= k < |items| ::
           && (items[k].Guarded? ==> Args(items[k].guard) * outs <= done)
           && Disciplined(items[k].body, outs, done)
  }

  predicate DisciplinedAll(stmts: seq<Stmt>, outs: set<nat>, done: set<nat>)
    decreases stmts
  {
    stmts == [] || (Disciplined(stmts[0], outs, done) && DisciplinedAll(stmts[1..], outs, done + Definite(stmts[0])))
  }

  ghost predicate Agree(a: State, b: State, on: set<nat>) {
    |a| == |b| && forall n | n in on :: At(a, n) == At(b, n)
  }

  lemma EvalAgrees(e: Expr, a: State, b: State)
    requires Agree(a, b, Args(e))
    ensures Eval(e, a) == Eval(e, b)
  {
    assert seq(|e.args|, i requires 0 <= i < |e.args| => At(a, e.args[i]))
        == seq(|e.args|, i requires 0 <= i < |e.args| => At(b, e.args[i])) by {
      assert forall i | 0 <= i < |e.args| :: e.args[i] in Args(e);
    }
  }

  lemma {:induction false} MatchAgrees(items: seq<Item>, v: Vec, a: State, b: State, k: nat)
    requires k <= |items|
    requires forall j | 0 <= j < |items| && items[j].Guarded? :: Agree(a, b, Args(items[j].guard))
    ensures Match(items, v, a, k) == Match(items, v, b, k)
    decreases |items| - k
  {
    if k < |items| {
      if items[k].Guarded? {
        EvalAgrees(items[k].guard, a, b);
      }
      MatchAgrees(items, v, a, b, k + 1);
    }
  }

  /** Only what is assigned changes, only outputs are assigned, and what is assigned on every
      path is. */
  lemma {:induction false} ExecFrame(s: Stmt, st: State)
    ensures |Exec(s, st)| == |st|
    ensures forall n: nat | n !in Writes(s, st) :: At(Exec(s, st), n) == At(st, n)
    ensures Definite(s) <= Writes(s, st) <= NexOutput(s)
    decreases s
  {
    match s
    case Null =>
    case Assign(_, _) =>
    case Block(stmts) =>
      ExecFrameAll(stmts, st);
    case If(cond, thn, els) =>
      ExecFrame(thn, st);
      ExecFrame(els, st);
    case Case(_, items) =>
      var k := Chosen(s, st);
      if k < |items| {
        ExecFrame(items[k].body, st);
      }
  }

  lemma {:induction false} ExecFrameAll(stmts: seq<Stmt>, st: State)
    ensures |ExecAll(stmts, st)| == |st|
    ensures forall n: nat | n !in WritesAll(stmts, st) :: At(ExecAll(stmts, st), n) == At(st, n)
    ensures DefiniteAll(stmts) <= WritesAll(stmts, st)
    ensures forall n | n in WritesAll(stmts, st) :: exists k :: 0 <= k < |stmts| && n in NexOutput(stmts[k])
    decreases stmts
  {
    if stmts != [] {
      ExecFrame(stmts[0], st);
      ExecFrameAll(stmts[1..], Exec(stmts[0], st));
      forall n | n in WritesAll(stmts, st) ensures exists k :: 0 <= k < |stmts| && n in NexOutput(stmts[k]) {
        if n in Writes(stmts[0], st) {
        } else {
          var k :| 0 <= k < |stmts| - 1 && n in NexOutput(stmts[1..][k]);
          assert stmts[1..][k] == stmts[k + 1];
        }
      }
    }
  }

  /** From states that agree on what is read, apart from outputs, and on the outputs assigned
      before, the same nexuses are assigned the same values. */
  lemma {:induction false} ExecDepends(s: Stmt, outs: set<nat>, done: set<nat>, a: State, b: State)
    requires Disciplined(s, outs, done) && Agree(a, b, (Reads(s) - outs) + done)
    ensures Writes(s, a) == Writes(s, b)
    ensures Agree(Exec(s, a), Exec(s, b), Writes(s, a) + done)
    decreases s
  {
    ExecFrame(s, a);
    ExecFrame(s, b);
    match s
    case Null =>
    case Assign(_, rhs) => EvalAgrees(rhs, a, b);
    case Block(stmts) =>
      assert forall k, n | 0 <= k < |stmts| && n in Reads(stmts[k]) :: n in Reads(s);
      ExecDependsAll(stmts, outs, done, a, b);
    case If(cond, thn, els) =>
      EvalAgrees(cond, a, b);
      if V1 in Eval(cond, a) {
        ExecDepends(thn, outs, done, a, b);
      } else {
        ExecDepends(els, outs, done, a, b);
      }
    case Case(sel, items) =>
      CaseAgrees(s, outs, done, a, b);
      var k := Chosen(s, a);
      if k < |items| {
        assert forall n | n in Reads(items[k].body) :: n in ItemReads(items[k]) && n in Reads(s);
        ExecDepends(items[k].body, outs, done, a, b);
      }
  }

  lemma GuardIsRead(s: Stmt, j: nat)
    requires s.Case? && j < |s.items| && s.items[j].Guarded?
    ensures Args(s.items[j].guard) <= Reads(s)
  {
    assert Args(s.items[j].guard) <= ItemReads(s.items[j]);
  }

  lemma CaseAgrees(s: Stmt, outs: set<nat>, done: set<nat>, a: State, b: State)
    requires s.Case? && Disciplined(s, outs, done) && Agree(a, b, (Reads(s) - outs) + done)
    ensures Chosen(s, a) == Chosen(s, b)
  {
    EvalAgrees(s.sel, a, b);
    forall j | 0 <= j < |s.items| && s.items[j].Guarded? ensures Agree(a, b, Args(s.items[j].guard)) {
      GuardIsRead(s, j);
    }
    MatchAgrees(s.items, Eval(s.sel, a), a, b, 0);
  }

  lemma {:induction false} ExecDependsAll(stmts: seq<Stmt>, outs: set<nat>, done: set<nat>, a: State, b: State)
    requires DisciplinedAll(stmts, outs, done) && |a| == |b|
    requires forall k, n | 0 <= k < |stmts| && n in Reads(stmts[k]) && n !in outs :: At(a, n) == At(b, n)
    requires forall n | n in done :: At(a, n) == At(b, n)
    ensures WritesAll(stmts, a) == WritesAll(stmts, b)
    ensures Agree(ExecAll(stmts, a), ExecAll(stmts, b), WritesAll(stmts, a) + done)
    decreases stmts
  {
    if stmts != [] {
      var s, a', b' := stmts[0], Exec(stmts[0], a), Exec(stmts[0], b);
      ExecDepends(s, outs, done, a, b);
      ExecFrame(s, a);
      ExecFrame(s, b);
      forall k, n | 0 <= k < |stmts[1..]| && n in Reads(stmts[1..][k]) && n !in outs ensures At(a', n) == At(b', n) {
        assert stmts[1..][k] == stmts[k + 1];
        if n in Writes(s, a) {
        } else {
          assert At(a', n) == At(a, n) && At(b', n) == At(b, n);
        }
      }
      ExecDependsAll(stmts[1..], outs, done + Definite(s), a', b');
      KeepsEarlierWrites(stmts, done, a, b);
    }
  }

  lemma KeepsEarlierWrites(stmts: seq<Stmt>, done: set<nat>, a: State, b: State)
    requires stmts != []
    requires Agree(Exec(stmts[0], a), Exec(stmts[0], b), Writes(stmts[0], a) + done)
    requires Writes(stmts[0], a) == Writes(stmts[0], b)
    requires WritesAll(stmts[1..], Exec(stmts[0], a)) == WritesAll(stmts[1..], Exec(stmts[0], b))
    requires Agree(ExecAll(stmts, a), ExecAll(stmts, b), WritesAll(stmts[1..], Exec(stmts[0], a)))
    ensures Agree(ExecAll(stmts, a), ExecAll(stmts, b), WritesAll(stmts, a) + done)
  {
    ExecFrameAll(stmts[1..], Exec(stmts[0], a));
    ExecFrameAll(stmts[1..], Exec(stmts[0], b));
  }

  /** Executing the body again at once changes nothing. */
  lemma ExecIsIdempotent(body: Stmt, st: State)
    requires Disciplined(body, NexOutput(body), {})
    ensures Exec(body, Exec(body, st)) == Exec(body, st)
  {
    ReexecutionAfter(body, st, Exec(body, st));
  }

  /** Nor does it after changes to nexuses that are neither inputs nor outputs. */
  lemma ReexecutionAfter(body: Stmt, st: State, st': State)
    requires Disciplined(body, NexOutput(body), {})
    requires Agree(Exec(body, st), st', (Reads(body) - NexOutput(body)) + NexOutput(body))
    ensures Exec(body, st') == st'
  {
    ExecFrame(body, st);
    ExecDepends(body, NexOutput(body), {}, st, st');
    ExecFrame(body, st');
    var again := Exec(body, st');
    assert |again| == |st'|;
    forall n | 0 <= n < |again| ensures again[n] == st'[n] {
      assert At(again, n) == again[n] && At(st', n) == st'[n];
      if n in Writes(body, st') {
        assert At(again, n) == At(Exec(body, st), n);
      }
    }
  }

  // ---- Events and sets of nexuses ----

  datatype Edge = AnyEdge | PosEdge | NegEdge

  datatype Probe = Probe(edge: Edge, pins: seq<nat>)

  datatype Event = Event(triggered: bool, probes: seq<Probe>)

  /** Some bits of a nexus. */
  datatype Elem = Elem(nexus: nat, base: nat, wid: nat)

  predicate Contains(e: Elem, that: Elem) {
    e.nexus == that.nexus && that.base >= e.base && that.base + that.wid <= e.base + e.wid
  }

  predicate HasBit(e: Elem, b: nat) {
    e.base <= b < e.base + e.wid
  }

  /** The bits of the one are among those of the other. */
  lemma ContainsExactly(e: Elem, that: Elem)
    requires that.wid > 0
    ensures Contains(e, that) <==> e.nexus == that.nexus && forall b: nat | HasBit(that, b) :: HasBit(e, b)
  {
    assert HasBit(that, that.base) && HasBit(that, that.base + that.wid - 1);
  }

  class NexusSet {
    var items: seq<Elem>

    constructor ()
      ensures items == []
    {
      items := [];
    }

    method Add(nexus: nat, base: nat, wid: nat)
      modifies this
      ensures items == if Elem(nexus, base, wid) in old(items) then old(items) else old(items) + [Elem(nexus, base, wid)]
    {
      var cur := Elem(nexus, base, wid);
      var ptr := 0;
      while ptr < |items| && items[ptr] != cur
        invariant 0 <= ptr <= |items| && cur !in items[..ptr]
      {
        ptr := ptr + 1;
      }
      if ptr == |items| {
        assert items[..ptr] == items;
        items := items + [cur];
      }
    }

    method AddSet(that: NexusSet)
      requires that != this
      modifies this
      ensures forall e :: e in items <==> e in old(items) || e in that.items
    {
      var idx := 0;
      while idx < |that.items|
        invariant 0 <= idx <= |that.items|
        invariant forall e :: e in items <==> e in old(items) || e in that.items[..idx]
      {
        var e := that.items[idx];
        assert that.items[..idx + 1] == that.items[..idx] + [e];
        Add(e.nexus, e.base, e.wid);
        idx := idx + 1;
      }
      assert that.items[..idx] == that.items;
    }

    method ContainsElem(that: Elem) returns (r: bool)
      ensures r <==> exists e :: e in items && Contains(e, that)
    {
      var idx := 0;
      while idx < |items|
        invariant 0 <= idx <= |items|
        invariant forall k | 0 <= k < idx :: !Contains(items[k], that)
      {
        if Contains(items[idx], that) {
          return true;
        }
        idx := idx + 1;
      }
      return false;
    }

    method ContainsSet(that: NexusSet) returns (r: bool)
      ensures r <==> forall t | t in that.items :: exists e :: e in items && Contains(e, t)
    {
      var idx := 0;
      while idx < |that.items|
        invariant 0 <= idx <= |that.items|
        invariant forall k | 0 <= k < idx :: exists e :: e in items && Contains(e, that.items[k])
      {
        var found := ContainsElem(that.items[idx]);
        if !found {
          assert that.items[idx] in that.items;
          return false;
        }
        idx := idx + 1;
      }
      return true;
    }
  }

  // ---- The classification ----

  predicate Sensed(ev: Event, n: nat) {
    exists p :: p in ev.probes && n in p.pins
  }

  /** Every change of a probed nexus is an event, and nothing else is. */
  predicate LevelSensitive(ev: Event) {
    !ev.triggered && forall p | p in ev.probes :: p.edge.AnyEdge?
  }

  function Width(widths: seq<nat>, n: nat): nat {
    if n < |widths| then widths[n] else 0
  }

  /** The nexuses an event is sensitive to, if it is level sensitive. */
  method NexAsync(ev: Event, widths: seq<nat>) returns (r: NexusSet?)
    ensures r != null ==> fresh(r)
    ensures r != null <==> LevelSensitive(ev)
    ensures r != null ==> forall e :: e in r.items <==> Sensed(ev, e.nexus) && e == Elem(e.nexus, 0, Width(widths, e.nexus))
  {
    if ev.triggered {
      return null;
    }
    r := new NexusSet();
    var cur := 0;
    while cur < |ev.probes|
      invariant 0 <= cur <= |ev.probes| && fresh(r)
      invariant forall k | 0 <= k < cur :: ev.probes[k].edge.AnyEdge?
      invariant forall e :: e in r.items <==>
                  (exists k :: 0 <= k < cur && e.nexus in ev.probes[k].pins) && e == Elem(e.nexus, 0, Width(widths, e.nexus))
    {
      if !ev.probes[cur].edge.AnyEdge? {
        assert ev.probes[cur] in ev.probes;
        return null;
      }
      AddPins(r, ev.probes[cur].pins, widths);
      cur := cur + 1;
    }
  }

  method AddPins(r: NexusSet, pins: seq<nat>, widths: seq<nat>)
    modifies r
    ensures forall e :: e in r.items <==>
              e in old(r.items) || (e.nexus in pins && e == Elem(e.nexus, 0, Width(widths, e.nexus)))
  {
    var idx := 0;
    while idx < |pins|
      invariant 0 <= idx <= |pins|
      invariant forall e :: e in r.items <==>
                  e in old(r.items) || (e.nexus in pins[..idx] && e == Elem(e.nexus, 0, Width(widths, e.nexus)))
    {
      assert pins[..idx + 1] == pins[..idx] + [pins[idx]];
      r.Add(pins[idx], 0, Width(widths, pins[idx]));
      idx := idx + 1;
    }
    assert pins[..idx] == pins;
  }

  method InputSet(body: Stmt, widths: seq<nat>) returns (r: NexusSet)
    ensures fresh(r)
    ensures forall e :: e in r.items <==> e.nexus in NexInput(body) && e == Elem(e.nexus, 0, Width(widths, e.nexus))
  {
    r := new NexusSet();
    var left := NexInput(body);
    while left != {}
      invariant fresh(r) && left <= NexInput(body)
      invariant forall e :: e in r.items <==>
                  e.nexus in NexInput(body) - left && e == Elem(e.nexus, 0, Width(widths, e.nexus))
      decreases |left|
    {
      var n :| n in left;
      r.Add(n, 0, Width(widths, n));
      left := left - {n};
    }
  }

  /** All events are level sensitive, and together they sense every input. */
  predicate IsCombinational(events: seq<Event>, body: Stmt) {
    && (forall k | 0 <= k < |events| :: LevelSensitive(events[k]))
    && forall n | n in NexInput(body) :: exists k :: 0 <= k < |events| && Sensed(events[k], n)
  }

  /** The events sense whatever the body reads and does not assign. */
  predicate SensesReads(events: seq<Event>, body: Stmt) {
    forall n | n in Reads(body) - NexOutput(body) :: exists k :: 0 <= k < |events| && Sensed(events[k], n)
  }

  /** The reads that such a process does not sense are precisely the hidden guards it does
      not: it senses all if and only if it senses those. */
  lemma SensesReadsExactly(events: seq<Event>, body: Stmt)
    requires IsCombinational(events, body)
    ensures SensesReads(events, body) <==>
            forall n | n in HiddenGuards(body) - NexOutput(body) :: exists k :: 0 <= k < |events| && Sensed(events[k], n)
  {
    InputsCoverReads(body);
    forall n | n in Reads(body) - NexOutput(body) ensures n in NexInput(body) || n in HiddenGuards(body) - NexOutput(body) {
      assert n in NexInput(body) + HiddenGuards(body);
    }
    forall n | n in HiddenGuards(body) - NexOutput(body) ensures n in Reads(body) - NexOutput(body) {
      assert n in NexInput(body) + HiddenGuards(body);
    }
  }

  method IsAsynchronous(events: seq<Event>, body: Stmt, widths: seq<nat>) returns (r: bool)
    ensures r <==> IsCombinational(events, body)
  {
    var sense := new NexusSet();
    var idx := 0;
    while idx < |events|
      invariant 0 <= idx <= |events| && fresh(sense)
      invariant forall k | 0 <= k < idx :: LevelSensitive(events[k])
      invariant forall e :: e in sense.items <==>
                  (exists k :: 0 <= k < idx && Sensed(events[k], e.nexus)) && e == Elem(e.nexus, 0, Width(widths, e.nexus))
    {
      var tmp := NexAsync(events[idx], widths);
      if tmp == null {
        return false;
      }
      sense.AddSet(tmp);
      idx := idx + 1;
    }
    var inputs := InputSet(body, widths);
    if IsCombinational(events, body) {
      forall t | t in inputs.items ensures exists e :: e in sense.items && Contains(e, t) {
        assert t in sense.items && Contains(t, t);
      }
    }
    r := sense.ContainsSet(inputs);
    if r {
      forall n | n in NexInput(body) ensures exists k :: 0 <= k < |events| && Sensed(events[k], n) {
        var t := Elem(n, 0, Width(widths, n));
        assert t in inputs.items;
        var e :| e in sense.items && Contains(e, t);
      }
    }
  }

  // ---- Runs ----

  /** The process in a simulation: the values, whether an event has occurred that it has not
      yet answered, and whether its body has been executed at all. */
  datatype Proc = Proc(st: State, pending: bool, executed: bool)

  /** A change of value that a probe reports: an edge is one of bit 0 (section 9.7.2 of IEEE
      1364-2005). */
  predicate Fires(edge: Edge, a: Vec, b: Vec) {
    match edge
    case AnyEdge => a != b
    case PosEdge => var (u, v) := (BitAt(a, 0), BitAt(b, 0)); u != v && u != V1 && (u == V0 || v == V1)
    case NegEdge => var (u, v) := (BitAt(a, 0), BitAt(b, 0)); u != v && u != V0 && (u == V1 || v == V0)
  }

  ghost predicate Fired(ev: Event, a: State, b: State) {
    exists p, n :: p in ev.probes && n in p.pins && Fires(p.edge, At(a, n), At(b, n))
  }

  /** An event is level sensitive if and only if its probes report every change, and nothing
      else triggers it. */
  lemma LevelSensitiveExactly(ev: Event)
    ensures LevelSensitive(ev) <==>
            !ev.triggered && forall p, a, b | p in ev.probes && a != b :: Fires(p.edge, a, b)
  {
    if p :| p in ev.probes && !p.edge.AnyEdge? {
      assert Fires(PosEdge, [V0], [V1]) && !Fires(PosEdge, [V1], [V0]) && !Fires(NegEdge, [V0], [V1]);
      assert !Fires(p.edge, [V1], [V0]) || !Fires(p.edge, [V0], [V1]);
    }
  }

  /** Then it occurs exactly when a nexus that it senses changes. */
  lemma FiresWhenSensed(ev: Event, a: State, b: State)
    requires LevelSensitive(ev)
    ensures Fired(ev, a, b) <==> exists n :: Sensed(ev, n) && At(a, n) != At(b, n)
  {
    if p, n :| p in ev.probes && n in p.pins && Fires(p.edge, At(a, n), At(b, n)) {
      assert Sensed(ev, n);
    }
    if n :| Sensed(ev, n) && At(a, n) != At(b, n) {
      var p :| p in ev.probes && n in p.pins;
      assert Fires(p.edge, At(a, n), At(b, n));
    }
  }

  /** Somebody else changes nexuses or triggers events; the process notices the events that
      occur. */
  ghost predicate Change(events: seq<Event>, body: Stmt, p: Proc, q: Proc) {
    && Agree(p.st, q.st, NexOutput(body))
    && q.executed == p.executed
    && (p.pending || (exists ev :: ev in events && Fired(ev, p.st, q.st)) ==> q.pending)
    && (q.pending ==> p.pending || exists ev :: ev in events && (Fired(ev, p.st, q.st) || ev.triggered))
  }

  ghost predicate Execute(body: Stmt, p: Proc, q: Proc) {
    p.pending && q == Proc(Exec(body, p.st), false, true)
  }

  ghost predicate IsRun(events: seq<Event>, body: Stmt, run: seq<Proc>) {
    && run != [] && !run[0].executed && !run[0].pending
    && forall i | 0 <= i < |run| - 1 :: Change(events, body, run[i], run[i + 1]) || Execute(body, run[i], run[i + 1])
  }

  /** In every run of a process that is classified asynchronous and senses what it reads, once
      its body has been executed and no event is pending, executing it again changes
      nothing. */
  lemma {:induction false} AsynchronousSettles(events: seq<Event>, body: Stmt, run: seq<Proc>, i: nat)
    requires IsCombinational(events, body) && SensesReads(events, body) && Disciplined(body, NexOutput(body), {})
    requires IsRun(events, body, run) && i < |run|
    ensures run[i].executed && !run[i].pending ==> Exec(body, run[i].st) == run[i].st
  {
    if i > 0 {
      var p, q := run[i - 1], run[i];
      AsynchronousSettles(events, body, run, i - 1);
      assert Change(events, body, run[i - 1], run[i - 1 + 1]) || Execute(body, run[i - 1], run[i - 1 + 1]);
      if Execute(body, p, q) {
        ExecIsIdempotent(body, p.st);
      } else if q.executed && !q.pending {
        forall n | n in Reads(body) - NexOutput(body) ensures At(p.st, n) == At(q.st, n) {
          var k :| 0 <= k < |events| && Sensed(events[k], n);
          assert events[k] in events;
          FiresWhenSensed(events[k], p.st, q.st);
        }
        ReexecutionAfter(body, p.st, q.st);
      }
    }
  }

  // ---- Where the conditions are needed ----

  function Constant(v: Vec): Expr {
    Expr([], _ => v)
  }

  function Signal(n: nat): Expr {
    Expr([n], vals => if |vals| == 1 then vals[0] else [])
  }

  lemma SignalValue(n: nat, st: State)
    ensures Eval(Signal(n), st) == At(st, n)
  {
    assert Signal(n).args == [n];
  }

  /** case (1'b1) with nexus 0 as the guard of an empty item and a default that copies nexus 1
      to nexus 2. */
  function EmptyItem(): Stmt {
    Case(Constant([V1]), [Guarded(Signal(0), Null), Default(Assign(2, Signal(1)))])
  }

  lemma EmptyItemInputs()
    ensures NexInput(EmptyItem()) == {1} && NexOutput(EmptyItem()) == {2}
    ensures Disciplined(EmptyItem(), NexOutput(EmptyItem()), {})
  {
    var items := EmptyItem().items;
    assert ItemInput(items[0]) == {} && ItemInput(items[1]) == {1};
    assert 1 in ItemInput(items[1]);
    assert NexOutput(items[0].body) == {} && 2 in NexOutput(items[1].body);
  }

  lemma EmptyItemExec(g: Vec, v: Vec, w: Vec)
    ensures Exec(EmptyItem(), [g, v, w]) == if g == [V1] then [g, v, w] else [g, v, v]
  {
    var st, s := [g, v, w], EmptyItem();
    SignalValue(0, st);
    SignalValue(1, st);
    assert Eval(s.sel, st) == [V1];
    assert Match(s.items, [V1], st, 1) == 2 && DefaultOf(s.items, 0) == 1;
  }

  function EmptyItemEvent(): Event {
    Event(false, [Probe(AnyEdge, [1])])
  }

  /** Nexus 1 changes, the body is executed, and then nexus 0 changes. */
  function EmptyItemRun(): seq<Proc> {
    [Proc([[V1], [V0], [V0]], false, false), Proc([[V1], [V1], [V0]], true, false),
     Proc([[V1], [V1], [V0]], false, true), Proc([[V0], [V1], [V0]], false, true)]
  }

  lemma EmptyItemSense(n: nat)
    ensures Sensed(EmptyItemEvent(), n) <==> n == 1
  {
    assert EmptyItemEvent().probes[0].pins == [1];
    assert EmptyItemEvent().probes[0] in EmptyItemEvent().probes;
  }

  lemma EmptyItemFires(a: State, b: State)
    ensures Fired(EmptyItemEvent(), a, b) <==> At(a, 1) != At(b, 1)
  {
    FiresWhenSensed(EmptyItemEvent(), a, b);
    EmptyItemSense(1);
    if n :| Sensed(EmptyItemEvent(), n) && At(a, n) != At(b, n) {
      EmptyItemSense(n);
    }
  }

  /** A change of nexuses 0 and 1. */
  lemma EmptyItemChange(g: Vec, v: Vec, g': Vec, v': Vec, w: Vec, executed: bool)
    ensures Change([EmptyItemEvent()], EmptyItem(), Proc([g, v, w], false, executed), Proc([g', v', w], v != v', executed))
  {
    EmptyItemInputs();
    EmptyItemFires([g, v, w], [g', v', w]);
    assert EmptyItemEvent() in [EmptyItemEvent()];
  }

  /** A guard over an empty statement is not sensed. Sensitive to nexus 1 alone, the process
      is classified asynchronous, and a change of nexus 0 leaves it unsettled. */
  lemma EmptyItemHidesGuard()
    ensures IsCombinational([EmptyItemEvent()], EmptyItem())
    ensures Disciplined(EmptyItem(), NexOutput(EmptyItem()), {})
    ensures IsRun([EmptyItemEvent()], EmptyItem(), EmptyItemRun())
    ensures var p := EmptyItemRun()[3];
            p.executed && !p.pending && Exec(EmptyItem(), p.st) != p.st
  {
    var run := EmptyItemRun();
    EmptyItemInputs();
    EmptyItemSense(1);
    assert Sensed([EmptyItemEvent()][0], 1);
    EmptyItemExec([V1], [V1], [V0]);
    EmptyItemExec([V0], [V1], [V0]);
    EmptyItemChange([V1], [V0], [V1], [V1], [V0], false);
    EmptyItemChange([V1], [V1], [V0], [V1], [V0], true);
    assert Execute(EmptyItem(), run[1], run[2]);
    assert |run| == 4;
  }

  /** A block's outputs are not sensed even where they are read first: nexus 1 is copied to
      nexus 2 and then assigned nexus 0, sensitive to nexus 0. */
  lemma EarlyReadIsNotSensed()
    ensures var body := Block([Assign(2, Signal(1)), Assign(1, Signal(0))]);
            var events := [Event(false, [Probe(AnyEdge, [0])])];
            && IsCombinational(events, body) && HiddenGuards(body) == {} && SensesReads(events, body)
            && exists st :: Exec(body, Exec(body, st)) != Exec(body, st)
  {
    var body := Block([Assign(2, Signal(1)), Assign(1, Signal(0))]);
    var events := [Event(false, [Probe(AnyEdge, [0])])];
    assert NexOutput(body.stmts[0]) == {2} && 1 in NexOutput(body.stmts[1]);
    assert NexInput(body.stmts[0]) == {1} && NexInput(body.stmts[1]) == {0};
    assert forall n | n in NexInput(body) :: n == 0;
    assert events[0].probes[0].pins == [0] && Sensed(events[0], 0);
    var a, b, c: State := [[V1], [V0], [V0]], [[V1], [V1], [V0]], [[V1], [V1], [V1]];
    SignalValue(0, a);
    SignalValue(1, a);
    SignalValue(0, b);
    SignalValue(1, b);
    SignalValue(0, c);
    assert body.stmts[1..] == [Assign(1, Signal(0))] && body.stmts[1..][1..] == [];
    assert Put(a, 2, [V0]) == a && Put(a, 1, [V1]) == b;
    assert Put(b, 2, [V1]) == c && Put(c, 1, [V1]) == c;
    assert Exec(body, a) == b && Exec(body, b) == c;
  }
}
