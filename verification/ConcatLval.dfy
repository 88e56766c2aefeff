/** Concatenations as l-values: what each leaf of a nested concatenation is given. */
module ConcatLval {
  import opened FourState

  /** The bits of a signal from `base` on. */
  datatype Slice = Slice(sig: nat, base: nat, width: nat)

  /** An l-value: an empty place in a concatenation, an operand whose elaboration gives nothing
      and counts so many errors, a slice of a signal, or a concatenation written most
      significant part first. An expression that is neither a name, a number nor a
      concatenation counts none, and no kind but a name is asked to count in a net. */
  datatype LVal =
    | Absent
    | Failing(counted: nat)
    | Leaf(at: Slice, isReal: bool, signed: bool)
    | Concat(repeated: bool, parts: seq<LVal>)

  function Width(e: LVal): nat {
    match e
    case Absent => 0
    case Failing(_) => 0
    case Leaf(at, _, _) => at.width
    case Concat(_, parts) => WidthAll(parts)
  }

  function WidthAll(parts: seq<LVal>): nat {
    if parts == [] then 0 else WidthAll(parts[..|parts| - 1]) + Width(parts[|parts| - 1])
  }

  predicate Usable(e: LVal) {
    !e.Absent? && !e.Failing? && !(e.Leaf? && e.isReal)
  }

  /** Nothing in the l-value is at fault. */
  predicate Clean(e: LVal) {
    match e
    case Absent => false
    case Failing(_) => false
    case Leaf(_, _, _) => true
    case Concat(repeated, parts) => !repeated && AllClean(parts)
  }

  predicate AllClean(parts: seq<LVal>) {
    forall i | 0 <= i < |parts| :: Usable(parts[i]) && Clean(parts[i])
  }

  lemma WholePrefix<T>(s: seq<T>)
    ensures s[..|s|] == s
  {
  }

  lemma PrefixStep<T>(s: seq<T>, k: nat)
    requires k < |s|
    ensures s[..k] + [s[k]] == s[..k + 1]
  {
  }

  /** The standard's rule: the first part of a concatenation takes the most significant bits.
      Lists each leaf with its bits, least significant leaf first. */
  function Shares(e: LVal, v: Vec): seq<(Slice, Vec)>
    requires |v| == Width(e)
  {
    match e
    case Absent => []
    case Failing(_) => []
    case Leaf(at, _, _) => [(at, v)]
    case Concat(_, parts) => SharesAll(parts, v)
  }

  function SharesAll(parts: seq<LVal>, v: Vec): seq<(Slice, Vec)>
    requires |v| == WidthAll(parts)
  {
    if parts == [] then []
    else
      var last := parts[|parts| - 1];
      var w := Width(last);
      Shares(last, v[..w]) + SharesAll(parts[..|parts| - 1], v[w..])
  }

  /** The value of the same concatenation as an operand. */
  ghost function Read(e: LVal, bits: Slice -> Vec): Vec {
    match e
    case Absent => []
    case Failing(_) => []
    case Leaf(at, _, _) => bits(at)
    case Concat(_, parts) => ReadAll(parts, bits)
  }

  ghost function ReadAll(parts: seq<LVal>, bits: Slice -> Vec): Vec {
    if parts == [] then []
    else Read(parts[|parts| - 1], bits) + ReadAll(parts[..|parts| - 1], bits)
  }

  /** Giving every leaf its share makes the concatenation read as the value: the shares tile
      the value with no gap and no overlap. */
  lemma {:induction false} SharesTile(e: LVal, v: Vec, bits: Slice -> Vec)
    requires |v| == Width(e)
    requires forall s | s in Shares(e, v) :: bits(s.0) == s.1
    ensures Read(e, bits) == v
  {
    match e
    case Absent =>
    case Failing(_) =>
    case Leaf(at, _, _) => assert (at, v) in Shares(e, v);
    case Concat(_, parts) => SharesTileAll(parts, v, bits);
  }

  lemma {:induction false} SharesTileAll(parts: seq<LVal>, v: Vec, bits: Slice -> Vec)
    requires |v| == WidthAll(parts)
    requires forall s | s in SharesAll(parts, v) :: bits(s.0) == s.1
    ensures ReadAll(parts, bits) == v
  {
    if parts != [] {
      var last, w := parts[|parts| - 1], Width(parts[|parts| - 1]);
      SharesTile(last, v[..w], bits);
      SharesTileAll(parts[..|parts| - 1], v[w..], bits);
      assert v == v[..w] + v[w..];
    }
  }

  // ---- The procedural l-value: a chain of leaves ----

  /** The leaves that end up in the chain, least significant first: an operand that is
      missing, fails or is real is skipped. */
  function Leaves(e: LVal): seq<Slice> {
    match e
    case Absent => []
    case Failing(_) => []
    case Leaf(at, _, _) => [at]
    case Concat(repeated, parts) => if repeated then [] else LeavesAll(parts)
  }

  function LeavesAll(parts: seq<LVal>): seq<Slice> {
    if parts == [] then []
    else
      var last := parts[|parts| - 1];
      (if Usable(last) then Leaves(last) else []) + LeavesAll(parts[..|parts| - 1])
  }

  /** The errors counted in elaborating the l-value. */
  function Errors(e: LVal): nat
    decreases e, 0
  {
    match e
    case Absent => 0
    case Failing(counted) => counted
    case Leaf(_, _, _) => 0
    case Concat(repeated, parts) => if repeated then 1 else ErrorsAll(parts)
  }

  /** An operand that is missing or real is an error; one that gives nothing is not. */
  function OperandErrors(part: LVal): nat
    decreases part, 1
  {
    if part.Absent? || (part.Leaf? && part.isReal) then 1 else Errors(part)
  }

  function ErrorsAll(parts: seq<LVal>): nat {
    if parts == [] then 0 else ErrorsAll(parts[..|parts| - 1]) + OperandErrors(parts[|parts| - 1])
  }

  // ---- Faults that count no error ----

  /** At most operands that fail without an error are at fault. */
  predicate Quiet(e: LVal)
    decreases e, 0
  {
    match e
    case Absent => false
    case Failing(counted) => counted == 0
    case Leaf(_, _, _) => true
    case Concat(repeated, parts) => !repeated && forall i | 0 <= i < |parts| :: QuietOperand(parts[i])
  }

  predicate QuietOperand(part: LVal)
    decreases part, 1
  {
    !(part.Leaf? && part.isReal) && Quiet(part)
  }

  predicate HasFailing(e: LVal) {
    e.Failing? || (e.Concat? && exists i | 0 <= i < |e.parts| :: HasFailing(e.parts[i]))
  }

  lemma {:induction false} QuietCountsNothing(e: LVal)
    requires !e.Absent?
    ensures Errors(e) == 0 <==> Quiet(e)
  {
    if e.Concat? && !e.repeated {
      QuietOperands(e.parts);
    }
  }

  lemma {:induction false} QuietOperands(parts: seq<LVal>)
    ensures ErrorsAll(parts) == 0 <==> forall i | 0 <= i < |parts| :: QuietOperand(parts[i])
  {
    if parts != [] {
      var init, last := parts[..|parts| - 1], parts[|parts| - 1];
      QuietOperands(init);
      if !last.Absent? {
        QuietCountsNothing(last);
      }
      assert forall i | 0 <= i < |init| :: parts[i] == init[i];
    }
  }

  lemma {:induction false} CleanIsQuiet(e: LVal)
    ensures Clean(e) <==> Quiet(e) && !HasFailing(e)
  {
    if e.Concat? {
      forall i | 0 <= i < |e.parts|
        ensures Usable(e.parts[i]) && Clean(e.parts[i]) <==> QuietOperand(e.parts[i]) && !HasFailing(e.parts[i])
      {
        CleanIsQuiet(e.parts[i]);
      }
    }
  }

  /** Something is at fault and no error is counted exactly if operands fail without one and
      nothing else is at fault. */
  lemma UncountedExactly(e: LVal)
    requires !e.Absent?
    ensures Errors(e) == 0 && !Clean(e) <==> Quiet(e) && HasFailing(e)
  {
    QuietCountsNothing(e);
    CleanIsQuiet(e);
  }

  /** The l-value without its failing operands. */
  function Pruned(e: LVal): LVal {
    if e.Concat? then Concat(e.repeated, PrunedAll(e.parts)) else e
  }

  function PrunedAll(parts: seq<LVal>): seq<LVal> {
    if parts == [] then []
    else
      var last := parts[|parts| - 1];
      PrunedAll(parts[..|parts| - 1]) + if last.Failing? then [] else [Pruned(last)]
  }

  /** Such an l-value assigns as if those operands had not been written. */
  lemma {:induction false} UncountedIsPruned(e: LVal)
    requires Quiet(e) && e.Concat?
    ensures Clean(Pruned(e)) && Leaves(Pruned(e)) == Leaves(e)
    decreases e
  {
    PrunedOperands(e.parts);
  }

  lemma {:induction false} PrunedOperands(parts: seq<LVal>)
    requires forall p | p in parts :: QuietOperand(p)
    ensures AllClean(PrunedAll(parts)) && LeavesAll(PrunedAll(parts)) == LeavesAll(parts)
    decreases parts
  {
    if parts != [] {
      var init, last := parts[..|parts| - 1], parts[|parts| - 1];
      assert parts == init + [last] && last in parts;
      PrunedOperands(init);
      if last.Concat? {
        UncountedIsPruned(last);
      }
      PrunedLast(init, last);
    }
  }

  lemma PrunedLast(init: seq<LVal>, last: LVal)
    requires AllClean(PrunedAll(init)) && LeavesAll(PrunedAll(init)) == LeavesAll(init) && QuietOperand(last)
    requires last.Concat? ==> Clean(Pruned(last)) && Leaves(Pruned(last)) == Leaves(last)
    ensures AllClean(PrunedAll(init + [last])) && LeavesAll(PrunedAll(init + [last])) == LeavesAll(init + [last])
  {
    AppendPruned(init, last);
    AppendLeaves(init, last);
    if !last.Failing? {
      AppendLeaves(PrunedAll(init), Pruned(last));
      AppendClean(PrunedAll(init), Pruned(last));
    } else {
      assert PrunedAll(init) + [] == PrunedAll(init) && [] + LeavesAll(init) == LeavesAll(init);
    }
  }

  lemma AppendPruned(parts: seq<LVal>, part: LVal)
    ensures PrunedAll(parts + [part]) == PrunedAll(parts) + if part.Failing? then [] else [Pruned(part)]
  {
    assert (parts + [part])[..|parts|] == parts;
  }

  lemma AppendLeaves(parts: seq<LVal>, part: LVal)
    ensures LeavesAll(parts + [part]) == (if Usable(part) then Leaves(part) else []) + LeavesAll(parts)
    ensures ErrorsAll(parts + [part]) == ErrorsAll(parts) + OperandErrors(part)
  {
    assert (parts + [part])[..|parts|] == parts;
  }

  lemma AppendClean(parts: seq<LVal>, part: LVal)
    ensures AllClean(parts + [part]) <==> AllClean(parts) && Usable(part) && Clean(part)
  {
    if AllClean(parts + [part]) {
      assert (parts + [part])[|parts|] == part;
      assert forall i | 0 <= i < |parts| :: parts[i] == (parts + [part])[i];
    }
  }

  /** `{a, b + c} = x`: no error is counted, and a gets the low bits of x. */
  lemma SumIsSkipped()
    ensures var a := Slice(0, 0, 4);
            var e := Concat(false, [Leaf(a, false, false), Failing(0)]);
            Errors(e) == 0 && !Clean(e) && Leaves(e) == [a]
  {
    var a := Leaf(Slice(0, 0, 4), false, false);
    var e := Concat(false, [a, Failing(0)]);
    AppendLeaves([], a);
    AppendLeaves([a], Failing(0));
    assert [] + [a] == [a] && [a] + [Failing(0)] == e.parts;
    assert !Usable(e.parts[1]);
  }

  /** One l-value of a procedural assignment; `more` is the next most significant one. */
  class NetAssign {
    const at: Slice
    const isReal: bool
    var signed: bool
    var more: NetAssign?

    constructor (at: Slice, isReal: bool, signed: bool)
      ensures this.at == at && this.isReal == isReal && this.signed == signed && more == null
    {
      this.at, this.isReal, this.signed, this.more := at, isReal, signed, null;
    }
  }

  /** `cells` are the l-values reached from `head`, in order. */
  ghost predicate Linked(head: NetAssign?, cells: seq<NetAssign>)
    reads cells
  {
    && (head == null <==> cells == [])
    && (head != null ==> cells[0] == head)
    && (forall i, j | 0 <= i < j < |cells| :: cells[i] != cells[j])
    && forall i | 0 <= i < |cells| :: cells[i].more == After(cells, i)
  }

  ghost function After(cells: seq<NetAssign>, i: nat): NetAssign? {
    if i + 1 < |cells| then cells[i + 1] else null
  }

  ghost function Targets(cells: seq<NetAssign>): (r: seq<Slice>)
    ensures |r| == |cells| && forall i | 0 <= i < |r| :: r[i] == cells[i].at
  {
    seq(|cells|, i requires 0 <= i < |cells| => cells[i].at)
  }

  /** As a concatenation leaves its operands: unsigned, and none of them real. */
  ghost predicate Plain(cells: seq<NetAssign>)
    reads cells
  {
    forall i | 0 <= i < |cells| :: !cells[i].signed && !cells[i].isReal
  }

  lemma TargetsOfAppend(a: seq<NetAssign>, b: seq<NetAssign>)
    ensures Targets(a + b) == Targets(a) + Targets(b)
  {
  }

  lemma PlainAppend(a: seq<NetAssign>, b: seq<NetAssign>)
    requires Plain(a) && Plain(b)
    ensures Plain(a + b)
  {
  }

  lemma ChainStep(parts: seq<LVal>, part: LVal, chain: seq<NetAssign>, others: seq<NetAssign>)
    requires Targets(others) == LeavesAll(parts)
    requires Targets(chain) == if Usable(part) then Leaves(part) else []
    ensures Targets(chain + others) == LeavesAll(parts + [part])
    ensures ErrorsAll(parts + [part]) == ErrorsAll(parts) + OperandErrors(part)
  {
    AppendLeaves(parts, part);
    TargetsOfAppend(chain, others);
  }

  class LvalElaborator {
    var errors: nat

    constructor ()
      ensures errors == 0
    {
      errors := 0;
    }

    /** Elaborate an l-value into a chain. */
    method ElaborateLval(e: LVal) returns (res: NetAssign?, ghost cells: seq<NetAssign>)
      modifies this
      ensures fresh(cells) && Linked(res, cells)
      ensures Targets(cells) == Leaves(e)
      ensures e.Concat? ==> Plain(cells)
      ensures e.Leaf? ==> |cells| == 1 && cells[0].isReal == e.isReal && cells[0].signed == e.signed
      ensures errors == old(errors) + Errors(e)
      decreases e, 2
    {
      match e
      case Absent => res, cells := null, [];
      case Failing(counted) =>
        errors := errors + counted;
        res, cells := null, [];
      case Leaf(at, isReal, signed) =>
        res := new NetAssign(at, isReal, signed);
        cells := [res];
      case Concat(_, _) => res, cells := ElaborateConcat(e);
    }

    method ElaborateConcat(e: LVal) returns (res: NetAssign?, ghost cells: seq<NetAssign>)
      requires e.Concat?
      modifies this
      ensures fresh(cells) && Linked(res, cells)
      ensures Targets(cells) == Leaves(e)
      ensures Plain(cells)
      ensures errors == old(errors) + Errors(e)
      decreases e, 1
    {
      if e.repeated {
        errors := errors + 1;
        return null, [];
      }
      res, cells := ElaborateOperands(e.parts);
    }

    method ElaborateOperands(parts: seq<LVal>) returns (res: NetAssign?, ghost cells: seq<NetAssign>)
      modifies this
      ensures fresh(cells) && Linked(res, cells) && Plain(cells) && Targets(cells) == LeavesAll(parts)
      ensures errors == old(errors) + ErrorsAll(parts)
      decreases parts
    {
      res, cells := null, [];
      var idx := 0;
      ghost var done := [];
      while idx < |parts|
        invariant 0 <= idx <= |parts| && done == parts[..idx]
        invariant fresh(cells) && Linked(res, cells) && Plain(cells) && Targets(cells) == LeavesAll(done)
        invariant errors == old(errors) + ErrorsAll(done)
      {
        ghost var chain, others := [], cells;
        res, chain := Prepend(parts[idx], res, others);
        PrefixStep(parts, idx);
        PlainAppend(chain, others);
        ChainStep(done, parts[idx], chain, others);
        cells, done := chain + others, done + [parts[idx]];
        idx := idx + 1;
      }
      WholePrefix(parts);
    }

    /** Elaborate one operand and put its chain, if it gives any, before the chain so far. */
    method Prepend(part: LVal, before: NetAssign?, ghost others: seq<NetAssign>)
      returns (res: NetAssign?, ghost chain: seq<NetAssign>)
      requires Linked(before, others)
      modifies this
      ensures Linked(res, chain + others) && Plain(chain) && fresh(chain)
      ensures Targets(chain) == if Usable(part) then Leaves(part) else []
      ensures errors == old(errors) + OperandErrors(part)
      decreases part, 3
    {
      chain := [];
      res := before;
      if part.Absent? {
        errors := errors + 1;
        assert Linked(before, others) && chain + others == others;
        return;
      }
      var tmp;
      tmp, chain := ElaborateLval(part);
      assert Linked(before, others);
      if tmp == null {
        assert Linked(before, others) && chain + others == others;
        return;
      }
      assert tmp == chain[0];
      res, chain := Take(tmp, chain, before, others);
    }

    /** A real operand is an error; any other chain is linked to the one so far. */
    method Take(tmp: NetAssign, ghost chain: seq<NetAssign>, before: NetAssign?, ghost others: seq<NetAssign>)
      returns (res: NetAssign?, ghost taken: seq<NetAssign>)
      requires Linked(tmp, chain) && Linked(before, others) && Plain(chain[1..])
      requires forall i, j | 0 <= i < |chain| && 0 <= j < |others| :: chain[i] != others[j]
      modifies this, chain
      ensures taken == if tmp.isReal then [] else chain
      ensures Linked(res, taken + others) && Plain(taken)
      ensures errors == old(errors) + if tmp.isReal then 1 else 0
    {
      if tmp.isReal {
        errors := errors + 1;
        assert Linked(before, others) && [] + others == others;
        return before, [];
      }
      assert tmp == chain[0];
      Join(tmp, chain, before, others);
      res, taken := tmp, chain;
    }

    /** A concatenation is always unsigned; link the chain so far behind the new one. */
    method Join(tmp: NetAssign, ghost chain: seq<NetAssign>, before: NetAssign?, ghost others: seq<NetAssign>)
      requires Linked(tmp, chain) && Linked(before, others)
      requires forall i, j | 0 <= i < |chain| && 0 <= j < |others| :: chain[i] != others[j]
      modifies chain
      ensures Linked(tmp, chain + others) && !tmp.signed
      ensures old(Plain(chain[1..])) && !tmp.isReal ==> Plain(chain)
    {
      assert tmp == chain[0];
      tmp.signed := false;
      assert forall i | 0 <= i < |chain| - 1 :: chain[1..][i] == chain[i + 1];
      Append(tmp, chain, before, others);
    }

    /** Link the chain so far behind the last l-value of the new one. */
    method Append(tmp: NetAssign, ghost chain: seq<NetAssign>, res: NetAssign?, ghost cells: seq<NetAssign>)
      requires Linked(tmp, chain) && Linked(res, cells)
      requires forall i, j | 0 <= i < |chain| && 0 <= j < |cells| :: chain[i] != cells[j]
      modifies chain`more
      ensures Linked(tmp, chain + cells)
    {
      var last := tmp;
      ghost var at := 0;
      while last.more != null
        invariant 0 <= at < |chain| && last == chain[at]
        decreases |chain| - at
      {
        assert chain[at].more == After(chain, at);
        last := last.more;
        at := at + 1;
      }
      assert chain[at].more == After(chain, at);
      last.more := res;
      ghost var all := chain + cells;
      forall i | 0 <= i < |all|
        ensures all[i].more == After(all, i)
      {
        if i > at {
          assert all[i] == cells[i - |chain|];
        }
      }
    }
  }

  /** The bits a chain consumes, the first l-value taking the least significant ones. */
  function Taken(chain: seq<Slice>, v: Vec): seq<(Slice, Vec)>
    requires |v| == ChainWidth(chain)
  {
    if chain == [] then []
    else [(chain[0], v[..chain[0].width])] + Taken(chain[1..], v[chain[0].width..])
  }

  function ChainWidth(chain: seq<Slice>): nat {
    if chain == [] then 0 else chain[0].width + ChainWidth(chain[1..])
  }

  /** The first l-values of a chain take the low bits, the rest what is left. */
  lemma {:induction false} TakenOfAppend(a: seq<Slice>, b: seq<Slice>, u: Vec, v: Vec)
    requires |u| == ChainWidth(a) && |v| == ChainWidth(b)
    ensures ChainWidth(a + b) == |u + v| && Taken(a + b, u + v) == Taken(a, u) + Taken(b, v)
  {
    if a == [] {
      assert a + b == b && u + v == v;
    } else {
      var w := a[0].width;
      TakenOfAppend(a[1..], b, u[w..], v);
      TakenStep(a[0], a[1..], b, u[..w], u[w..], v);
      Regroup(a, 1, b);
      assert a[..1] == [a[0]];
      Regroup(u, w, v);
    }
  }

  lemma Regroup<T>(p: seq<T>, k: nat, q: seq<T>)
    requires k <= |p|
    ensures p == p[..k] + p[k..] && p + q == p[..k] + (p[k..] + q)
  {
  }

  lemma TakenStep(at: Slice, a: seq<Slice>, b: seq<Slice>, low: Vec, u: Vec, v: Vec)
    requires |low| == at.width && |u| == ChainWidth(a) && |v| == ChainWidth(b)
    requires ChainWidth(a + b) == |u + v| && Taken(a + b, u + v) == Taken(a, u) + Taken(b, v)
    ensures ChainWidth([at] + (a + b)) == |low + (u + v)| && ChainWidth([at] + a) == |low + u|
    ensures Taken([at] + (a + b), low + (u + v)) == Taken([at] + a, low + u) + Taken(b, v)
  {
    TakenFirst(at, a + b, low, u + v);
    TakenFirst(at, a, low, u);
    Associates((at, low), Taken(a, u), Taken(b, v));
  }

  lemma TakenFirst(at: Slice, chain: seq<Slice>, u: Vec, v: Vec)
    requires |u| == at.width && |v| == ChainWidth(chain)
    ensures ChainWidth([at] + chain) == |u + v| && Taken([at] + chain, u + v) == [(at, u)] + Taken(chain, v)
  {
    assert ([at] + chain)[1..] == chain && (u + v)[..at.width] == u && (u + v)[at.width..] == v;
  }

  lemma Associates<T>(first: T, p: seq<T>, q: seq<T>)
    ensures [first] + (p + q) == ([first] + p) + q
  {
  }

  /** The chain of an error-free l-value gives every leaf the share the standard gives it. */
  lemma {:induction false} ChainGivesShares(e: LVal, v: Vec)
    requires Clean(e) && |v| == Width(e)
    ensures ChainWidth(Leaves(e)) == |v| && Taken(Leaves(e), v) == Shares(e, v)
  {
    match e
    case Leaf(at, _, _) => assert v[..at.width] == v;
    case Concat(_, parts) => ChainGivesSharesAll(parts, v);
  }

  lemma {:induction false} ChainGivesSharesAll(parts: seq<LVal>, v: Vec)
    requires AllClean(parts)
    requires |v| == WidthAll(parts)
    ensures ChainWidth(LeavesAll(parts)) == |v| && Taken(LeavesAll(parts), v) == SharesAll(parts, v)
  {
    if parts != [] {
      var last, init := parts[|parts| - 1], parts[..|parts| - 1];
      var w := Width(last);
      ChainGivesShares(last, v[..w]);
      ChainGivesSharesAll(init, v[w..]);
      TakenOfAppend(Leaves(last), LeavesAll(init), v[..w], v[w..]);
      assert v[..w] + v[w..] == v;
    }
  }

  // ---- Writing through the chain and reading back ----

  type Store = map<nat, Vec>

  predicate Holds(st: Store, at: Slice) {
    at.sig in st && at.base + at.width <= |st[at.sig]|
  }

  function BitsOf(st: Store, at: Slice): Vec {
    if Holds(st, at) then st[at.sig][at.base..at.base + at.width] else []
  }

  predicate Apart(a: Slice, b: Slice) {
    a.sig != b.sig || a.base + a.width <= b.base || b.base + b.width <= a.base
  }

  predicate Writable(st: Store, taken: seq<(Slice, Vec)>) {
    forall i | 0 <= i < |taken| :: Holds(st, taken[i].0) && |taken[i].1| == taken[i].0.width
  }

  /** The assignment: every l-value of the chain in turn. */
  function Write(st: Store, taken: seq<(Slice, Vec)>): (r: Store)
    requires Writable(st, taken)
    ensures r.Keys == st.Keys && forall s | s in st :: |r[s]| == |st[s]|
  {
    if taken == [] then st
    else
      var at := taken[0].0;
      assert Holds(st, taken[0].0);
      Write(st[at.sig := Overlay(st[at.sig], at.base, taken[0].1)], taken[1..])
  }

  lemma {:induction false} WriteKeepsOthers(st: Store, taken: seq<(Slice, Vec)>, at: Slice)
    requires Writable(st, taken)
    requires Holds(st, at) && forall t | t in taken :: Apart(t.0, at)
    ensures BitsOf(Write(st, taken), at) == BitsOf(st, at)
  {
    if taken != [] {
      var to := taken[0].0;
      var st' := st[to.sig := Overlay(st[to.sig], to.base, taken[0].1)];
      WriteKeepsOthers(st', taken[1..], at);
      assert taken[0] in taken;
      assert BitsOf(st', at) == BitsOf(st, at);
    }
  }

  lemma {:induction false} WriteSets(st: Store, taken: seq<(Slice, Vec)>, k: nat)
    requires k < |taken|
    requires Writable(st, taken)
    requires forall i, j | 0 <= i < j < |taken| :: Apart(taken[i].0, taken[j].0)
    ensures BitsOf(Write(st, taken), taken[k].0) == taken[k].1
  {
    var to := taken[0].0;
    var st' := st[to.sig := Overlay(st[to.sig], to.base, taken[0].1)];
    if k == 0 {
      forall t | t in taken[1..] ensures Apart(t.0, to) {
        var j :| 1 <= j < |taken| && taken[j] == t;
        assert Apart(taken[0].0, taken[j].0);
      }
      WriteKeepsOthers(st', taken[1..], to);
      assert BitsOf(st', to) == taken[0].1;
    } else {
      WriteSets(st', taken[1..], k - 1);
    }
  }

  lemma {:induction false} TakenShape(chain: seq<Slice>, v: Vec)
    requires |v| == ChainWidth(chain)
    ensures |Taken(chain, v)| == |chain|
    ensures forall i | 0 <= i < |chain| :: Taken(chain, v)[i].0 == chain[i] && |Taken(chain, v)[i].1| == chain[i].width
  {
    if chain != [] {
      TakenShape(chain[1..], v[chain[0].width..]);
      assert forall i | 1 <= i < |chain| :: chain[i] == chain[1..][i - 1];
    }
  }

  /** Assigning v to a concatenation whose leaves do not overlap and then reading the
      concatenation gives v, however deeply it is nested. */
  lemma WriteThenRead(st: Store, e: LVal, v: Vec)
    requires Clean(e) && |v| == Width(e)
    requires forall at | at in Leaves(e) :: Holds(st, at)
    requires forall i, j | 0 <= i < j < |Leaves(e)| :: Apart(Leaves(e)[i], Leaves(e)[j])
    ensures |v| == ChainWidth(Leaves(e))
    ensures Writable(st, Taken(Leaves(e), v))
    ensures Read(e, at => BitsOf(Write(st, Taken(Leaves(e), v)), at)) == v
  {
    ChainGivesShares(e, v);
    TakenShape(Leaves(e), v);
    var taken := Taken(Leaves(e), v);
    var st' := Write(st, taken);
    forall s | s in Shares(e, v) ensures BitsOf(st', s.0) == s.1 {
      var k :| 0 <= k < |taken| && taken[k] == s;
      WriteSets(st, taken, k);
    }
    SharesTile(e, v, at => BitsOf(st', at));
  }

  // ---- The continuous l-value: part selects of one signal ----

  datatype Direction = VP | PV | Tran

  /** A part select node between the bits of a whole signal from `off` on and a part. */
  datatype PartSelect = PartSelect(dir: Direction, whole: nat, off: nat, width: nat, part: nat)

  /** The signals' values agree with the part selects, each the only driver of its bits. */
  ghost predicate Obeys(selects: seq<PartSelect>, widths: seq<nat>, val: seq<Vec>) {
    && |widths| <= |val|
    && (forall s | 0 <= s < |widths| :: |val[s]| == widths[s])
    && forall p | p in selects ::
         p.whole < |val| && p.part < |val| && p.off + p.width <= |val[p.whole]| && val[p.part] == val[p.whole][p.off..p.off + p.width]
  }

  /** Every leaf carries its share. */
  ghost predicate Delivered(shares: seq<(Slice, Vec)>, val: seq<Vec>) {
    forall s | s in shares ::
      s.0.sig < |val| && s.0.base + s.0.width <= |val[s.0.sig]| && val[s.0.sig][s.0.base..s.0.base + s.0.width] == s.1
  }

  /** The leaves are slices of declared signals, and no concatenation is empty. */
  predicate Fits(e: LVal, widths: seq<nat>) {
    match e
    case Absent => true
    case Failing(_) => true
    case Leaf(at, _, _) => at.sig < |widths| && at.base + at.width <= widths[at.sig]
    case Concat(_, parts) => parts != [] && forall p | p in parts :: Fits(p, widths)
  }

  lemma {:induction false} FitsMore(e: LVal, widths: seq<nat>, more: seq<nat>)
    requires Fits(e, widths) && widths <= more
    ensures Fits(e, more)
  {
    if e.Concat? {
      forall p | p in e.parts ensures Fits(p, more) {
        FitsMore(p, widths, more);
      }
    }
  }

  /** The part select for operand i: its bits lie above those of all later operands. */
  function SelectOf(dir: Direction, parts: seq<LVal>, nets: seq<nat>, whole: nat, i: nat): PartSelect
    requires i < |parts| == |nets|
  {
    var upTo := WidthAll(parts[..i + 1]);
    PartSelect(dir, whole, if upTo <= WidthAll(parts) then WidthAll(parts) - upTo else 0, Width(parts[i]), nets[i])
  }

  /** The part selects made for the first k operands of a concatenation. */
  predicate Selected(selects: seq<PartSelect>, dir: Direction, parts: seq<LVal>, nets: seq<nat>, whole: nat, k: nat)
    requires k <= |parts| == |nets|
  {
    forall i | 0 <= i < k :: SelectOf(dir, parts, nets, whole, i) in selects
  }

  function Dir(bidirectional: bool, forward: Direction): Direction {
    if bidirectional then Tran else forward
  }

  /** Part selects lead from the net to every leaf: to a slice of a signal by one from it, and
      to the operands of a concatenation by one from each operand's bits. */
  ghost predicate Wired(e: LVal, net: nat, selects: seq<PartSelect>, widths: seq<nat>, bidirectional: bool)
    requires Fits(e, widths)
    decreases e
  {
    match e
    case Absent => false
    case Failing(_) => false
    case Leaf(at, _, _) =>
      if at.width == widths[at.sig] then net == at.sig
      else PartSelect(Dir(bidirectional, PV), at.sig, at.base, at.width, net) in selects
    case Concat(_, parts) => exists nets :: WiredAll(e, nets, net, selects, widths, bidirectional)
  }

  ghost predicate WiredAll(e: LVal, nets: seq<nat>, net: nat, selects: seq<PartSelect>, widths: seq<nat>, bidirectional: bool)
    requires e.Concat? && Fits(e, widths)
    decreases e, 0
  {
    && |nets| == |e.parts| && Selected(selects, Dir(bidirectional, VP), e.parts, nets, net, |e.parts|)
    && forall i | 0 <= i < |e.parts| :: Wired(e.parts[i], nets[i], selects, widths, bidirectional)
  }

  lemma {:induction false} WiredMore(e: LVal, net: nat, selects: seq<PartSelect>, widths: seq<nat>,
                                     selects': seq<PartSelect>, widths': seq<nat>, bidirectional: bool)
    requires Fits(e, widths) && Fits(e, widths') && selects <= selects' && (widths <= widths' || widths' <= widths)
    requires Wired(e, net, selects, widths, bidirectional)
    ensures Wired(e, net, selects', widths', bidirectional)
  {
    assert forall p | p in selects :: p in selects';
    if e.Concat? {
      var nets :| WiredAll(e, nets, net, selects, widths, bidirectional);
      forall i | 0 <= i < |e.parts| ensures Wired(e.parts[i], nets[i], selects', widths', bidirectional) {
        WiredMore(e.parts[i], nets[i], selects, widths, selects', widths', bidirectional);
      }
      assert WiredAll(e, nets, net, selects', widths', bidirectional);
    }
  }

  /** The number of part selects that takes. */
  function SelectCount(e: LVal, widths: seq<nat>): nat
    requires Fits(e, widths)
  {
    match e
    case Absent => 0
    case Failing(_) => 0
    case Leaf(at, _, _) => if at.width == widths[at.sig] then 0 else 1
    case Concat(_, parts) => |parts| + SelectCountAll(parts, widths)
  }

  function SelectCountAll(parts: seq<LVal>, widths: seq<nat>): nat
    requires forall p | p in parts :: Fits(p, widths)
  {
    if parts == [] then 0
    else SelectCountAll(parts[..|parts| - 1], widths) + SelectCount(parts[|parts| - 1], widths)
  }

  lemma {:induction false} SelectCountMore(e: LVal, widths: seq<nat>, widths': seq<nat>)
    requires Fits(e, widths) && Fits(e, widths') && widths <= widths'
    ensures SelectCount(e, widths') == SelectCount(e, widths)
  {
    if e.Concat? {
      SelectCountMoreAll(e.parts, widths, widths');
    }
  }

  lemma {:induction false} SelectCountMoreAll(parts: seq<LVal>, widths: seq<nat>, widths': seq<nat>)
    requires forall p | p in parts :: Fits(p, widths) && Fits(p, widths')
    requires widths <= widths'
    ensures SelectCountAll(parts, widths') == SelectCountAll(parts, widths)
  {
    if parts != [] {
      SelectCountMoreAll(parts[..|parts| - 1], widths, widths');
      SelectCountMore(parts[|parts| - 1], widths, widths');
    }
  }

  /** What every operand's net passes on to its leaves. */
  ghost predicate Passes(e: LVal, net: nat, selects: seq<PartSelect>, widths: seq<nat>) {
    forall val | Obeys(selects, widths, val) :: Conveys(e, net, val)
  }

  ghost predicate Conveys(e: LVal, net: nat, val: seq<Vec>) {
    net < |val| && |val[net]| == Width(e) && Delivered(Shares(e, val[net]), val)
  }

  lemma PassesMore(e: LVal, net: nat, selects: seq<PartSelect>, widths: seq<nat>,
                   selects': seq<PartSelect>, widths': seq<nat>)
    requires Passes(e, net, selects, widths) && selects <= selects' && widths <= widths'
    ensures Passes(e, net, selects', widths')
  {
    forall val | Obeys(selects', widths', val) ensures Conveys(e, net, val) {
      assert Obeys(selects, widths, val) by {
        assert forall p | p in selects :: p in selects';
        assert forall s | 0 <= s < |widths| :: widths[s] == widths'[s];
      }
    }
  }

  lemma SharesStep(parts: seq<LVal>, k: nat, v: Vec, off: nat)
    requires 0 < k <= |parts| && off <= |v| && |v| - off == WidthAll(parts[..k])
    ensures |v| - off - Width(parts[k - 1]) == WidthAll(parts[..k - 1])
    ensures var mid := off + Width(parts[k - 1]);
            SharesAll(parts[..k], v[off..]) == Shares(parts[k - 1], v[off..mid]) + SharesAll(parts[..k - 1], v[mid..])
  {
    assert parts[..k][..k - 1] == parts[..k - 1] && parts[..k][k - 1] == parts[k - 1];
    SliceOfRest(v, off, Width(parts[k - 1]));
  }

  lemma SliceOfRest(v: Vec, off: nat, w: nat)
    requires off + w <= |v|
    ensures v[off..][..w] == v[off..off + w] && v[off..][w..] == v[off + w..]
  {
  }

  lemma DeliveredBoth(a: seq<(Slice, Vec)>, b: seq<(Slice, Vec)>, val: seq<Vec>)
    requires Delivered(a, val) && Delivered(b, val)
    ensures Delivered(a + b, val)
  {
  }

  /** Operand i has its leaves' shares of the bits of v that are its own. */
  ghost predicate HasShares(parts: seq<LVal>, v: Vec, val: seq<Vec>, i: nat)
    requires i < |parts|
  {
    var upTo := WidthAll(parts[..i + 1]);
    && upTo <= |v|
    && var off := |v| - upTo; off + Width(parts[i]) <= |v| && Delivered(Shares(parts[i], v[off..off + Width(parts[i])]), val)
  }

  lemma {:induction false} AllHaveShares(parts: seq<LVal>, v: Vec, val: seq<Vec>, k: nat)
    requires k <= |parts| && WidthAll(parts[..k]) <= |v|
    requires forall i | 0 <= i < k :: HasShares(parts, v, val, i)
    ensures Delivered(SharesAll(parts[..k], v[|v| - WidthAll(parts[..k])..]), val)
  {
    if k > 0 {
      assert parts[..k][..k - 1] == parts[..k - 1];
      AllHaveShares(parts, v, val, k - 1);
      var off := |v| - WidthAll(parts[..k]);
      assert HasShares(parts, v, val, k - 1);
      SharesStep(parts, k, v, off);
      DeliveredBoth(Shares(parts[k - 1], v[off..off + Width(parts[k - 1])]),
                    SharesAll(parts[..k - 1], v[off + Width(parts[k - 1])..]), val);
    }
  }

  lemma PartConveys(parts: seq<LVal>, nets: seq<nat>, whole: nat, dir: Direction,
                    selects: seq<PartSelect>, widths: seq<nat>, val: seq<Vec>, i: nat)
    requires i < |parts| == |nets| && Obeys(selects, widths, val) && whole < |val| && |val[whole]| == WidthAll(parts)
    requires SelectOf(dir, parts, nets, whole, i) in selects && Passes(parts[i], nets[i], selects, widths)
    ensures HasShares(parts, val[whole], val, i)
  {
    WidthOfPrefix(parts, i + 1, |parts|);
    assert parts[..|parts|] == parts;
    var off := WidthAll(parts) - WidthAll(parts[..i + 1]);
    assert SelectOf(dir, parts, nets, whole, i) == PartSelect(dir, whole, off, Width(parts[i]), nets[i]);
    assert Conveys(parts[i], nets[i], val);
  }

  lemma ConcatPasses(e: LVal, nets: seq<nat>, net: nat, dir: Direction, selects: seq<PartSelect>, widths: seq<nat>)
    requires e.Concat? && |nets| == |e.parts| && net < |widths| && widths[net] == Width(e)
    requires Selected(selects, dir, e.parts, nets, net, |e.parts|)
    requires forall i | 0 <= i < |e.parts| :: Passes(e.parts[i], nets[i], selects, widths)
    ensures Passes(e, net, selects, widths)
  {
    forall val | Obeys(selects, widths, val) ensures Conveys(e, net, val) {
      forall i | 0 <= i < |nets| ensures HasShares(e.parts, val[net], val, i) {
        PartConveys(e.parts, nets, net, dir, selects, widths, val, i);
      }
      assert e.parts[..|e.parts|] == e.parts && val[net][0..] == val[net];
      AllHaveShares(e.parts, val[net], val, |e.parts|);
    }
  }

  lemma WidthOfPrefix(parts: seq<LVal>, i: nat, k: nat)
    requires i <= k <= |parts|
    ensures WidthAll(parts[..i]) <= WidthAll(parts[..k])
    decreases k
  {
    if i < k {
      assert parts[..k][..k - 1] == parts[..k - 1];
      WidthOfPrefix(parts, i, k - 1);
    }
  }

  lemma LeafPasses(e: LVal, net: nat, dir: Direction, selects: seq<PartSelect>, widths: seq<nat>)
    requires e.Leaf? && Fits(e, widths)
    requires if e.at.width == widths[e.at.sig] then net == e.at.sig
             else net < |widths| && widths[net] == e.at.width
                  && PartSelect(dir, e.at.sig, e.at.base, e.at.width, net) in selects
    ensures Passes(e, net, selects, widths)
  {
    var at := e.at;
    forall val | Obeys(selects, widths, val) ensures Conveys(e, net, val) {
      assert widths[at.sig] == |val[at.sig]| && widths[net] == |val[net]|;
      if at.width == widths[at.sig] {
        assert val[at.sig][at.base..at.base + at.width] == val[at.sig];
      }
    }
  }

  /** The errors counted in elaborating a net: an operand without a net is one, whatever has
      been counted for it before. */
  function LnetErrors(e: LVal): nat {
    match e
    case Absent => 0
    case Failing(counted) => counted
    case Leaf(_, _, _) => 0
    case Concat(repeated, parts) => if repeated then 0 else LnetErrorsAll(parts)
  }

  function LnetErrorsAll(parts: seq<LVal>): nat {
    if parts == [] then 0
    else
      var last := parts[|parts| - 1];
      LnetErrorsAll(parts[..|parts| - 1]) + LnetErrors(last) + if Usable(last) && Clean(last) then 0 else 1
  }

  /** No error is counted exactly for nets that can be built, for a repeated concatenation,
      and for an expression that counts none itself; inside a concatenation, neither of the
      two goes unnoticed. */
  lemma {:induction false} LnetUncountedExactly(e: LVal)
    requires !e.Absent?
    ensures LnetErrors(e) == 0 <==> Clean(e) || e == Failing(0) || (e.Concat? && e.repeated)
  {
    if e.Concat? {
      OperandsCounted(e.parts);
    }
  }

  lemma {:induction false} OperandsCounted(parts: seq<LVal>)
    ensures LnetErrorsAll(parts) == 0 <==> AllClean(parts)
  {
    if parts != [] {
      var init, last := parts[..|parts| - 1], parts[|parts| - 1];
      OperandsCounted(init);
      AppendClean(init, last);
      assert parts == init + [last];
      if !last.Absent? {
        LnetUncountedExactly(last);
      }
    }
  }

  /** A gate with the output `{2{a}}` gets no net, and no error is counted. */
  lemma RepeatIsDropped(a: Slice)
    ensures var e := Concat(true, [Leaf(a, false, false)]);
            LnetErrors(e) == 0 && !Clean(e)
  {
  }

  /** Each of the operands has a net that passes its value to its leaves. */
  ghost predicate Built(parts: seq<LVal>, nets: seq<nat>, selects: seq<PartSelect>, widths: seq<nat>,
                        first: seq<nat>, bidirectional: bool)
    requires forall p | p in parts :: Fits(p, first)
  {
    && |nets| == |parts|
    && (forall i | 0 <= i < |nets| :: Wired(parts[i], nets[i], selects, first, bidirectional))
    && forall i | 0 <= i < |nets| ::
         nets[i] < |widths| && widths[nets[i]] == Width(parts[i]) && Passes(parts[i], nets[i], selects, widths)
  }

  lemma BuiltMore(parts: seq<LVal>, nets: seq<nat>, selects: seq<PartSelect>, widths: seq<nat>,
                  selects': seq<PartSelect>, widths': seq<nat>, first: seq<nat>, bidirectional: bool)
    requires forall p | p in parts :: Fits(p, first)
    requires Built(parts, nets, selects, widths, first, bidirectional) && selects <= selects' && widths <= widths'
    ensures Built(parts, nets, selects', widths', first, bidirectional)
  {
    forall i | 0 <= i < |nets|
      ensures Wired(parts[i], nets[i], selects', first, bidirectional) && Passes(parts[i], nets[i], selects', widths')
    {
      WiredMore(parts[i], nets[i], selects, first, selects', first, bidirectional);
      PassesMore(parts[i], nets[i], selects, widths, selects', widths');
    }
  }

  lemma BuiltStep(parts: seq<LVal>, nets: seq<nat>, part: LVal, net: nat, selects: seq<PartSelect>, widths: seq<nat>,
                  selects': seq<PartSelect>, widths': seq<nat>, first: seq<nat>, bidirectional: bool)
    requires (forall p | p in parts :: Fits(p, first)) && Fits(part, first) && Fits(part, widths)
    requires Built(parts, nets, selects, widths, first, bidirectional) && selects <= selects' && widths <= widths'
    requires first <= widths && Wired(part, net, selects', widths, bidirectional)
    requires net < |widths'| && widths'[net] == Width(part) && Passes(part, net, selects', widths')
    ensures Built(parts + [part], nets + [net], selects', widths', first, bidirectional)
  {
    BuiltMore(parts, nets, selects, widths, selects', widths', first, bidirectional);
    WiredMore(part, net, selects', widths, selects', first, bidirectional);
  }

  /** And no more part selects than that takes have been added to the `count` before. */
  ghost predicate Collected(parts: seq<LVal>, nets: seq<nat>, width: nat, selects: seq<PartSelect>, count: nat,
                            widths: seq<nat>, first: seq<nat>, bidirectional: bool)
    requires forall p | p in parts :: Fits(p, first)
  {
    && Built(parts, nets, selects, widths, first, bidirectional)
    && width == WidthAll(parts)
    && |selects| == count + SelectCountAll(parts, first)
  }

  lemma CollectedStep(parts: seq<LVal>, nets: seq<nat>, width: nat, part: LVal, net: nat,
                      selects: seq<PartSelect>, count: nat, widths: seq<nat>,
                      selects': seq<PartSelect>, widths': seq<nat>, first: seq<nat>, bidirectional: bool)
    requires (forall p | p in parts :: Fits(p, first)) && Fits(part, first) && Fits(part, widths)
    requires Collected(parts, nets, width, selects, count, widths, first, bidirectional)
    requires first <= widths <= widths' && selects <= selects'
    requires Wired(part, net, selects', widths, bidirectional) && |selects'| == |selects| + SelectCount(part, widths)
    requires net < |widths'| && widths'[net] == Width(part) && Passes(part, net, selects', widths')
    ensures Collected(parts + [part], nets + [net], width + Width(part), selects', count, widths', first, bidirectional)
  {
    BuiltStep(parts, nets, part, net, selects, widths, selects', widths', first, bidirectional);
    SelectCountMore(part, first, widths);
    assert (parts + [part])[..|parts|] == parts;
  }

  lemma OperandStep(parts: seq<LVal>, part: LVal)
    ensures AllClean(parts + [part]) <==> AllClean(parts) && Usable(part) && Clean(part)
    ensures LnetErrorsAll(parts + [part]) ==
            LnetErrorsAll(parts) + LnetErrors(part) + if Usable(part) && Clean(part) then 0 else 1
  {
    AppendClean(parts, part);
    assert (parts + [part])[..|parts|] == parts;
  }

  // ---- What the part selects drive ----

  /** The bits that a one-way part select drives: the slice of the whole with PV, else the part. */
  function Driven(p: PartSelect): Slice {
    if p.dir.PV? then Slice(p.whole, p.off, p.width) else Slice(p.part, 0, p.width)
  }

  function AllDriven(selects: seq<PartSelect>): seq<Slice> {
    seq(|selects|, i requires 0 <= i < |selects| => Driven(selects[i]))
  }

  function WholeSignals(nets: seq<nat>, widths: seq<nat>): seq<Slice>
    requires forall i | 0 <= i < |nets| :: nets[i] < |widths|
  {
    seq(|nets|, i requires 0 <= i < |nets| => Slice(nets[i], 0, widths[nets[i]]))
  }

  function NewSignals(from: nat, widths: seq<nat>): seq<Slice>
    requires from <= |widths|
  {
    seq(|widths| - from, i requires 0 <= i < |widths| - from => Slice(from + i, 0, widths[from + i]))
  }

  /** The part selects drive every leaf and every new signal once, the net itself excepted, and
      nothing else. */
  ghost predicate Supplies(e: LVal, net: nat, added: seq<PartSelect>, from: nat, widths: seq<nat>) {
    && net < |widths| && from <= |widths|
    && multiset(AllDriven(added)) + multiset{Slice(net, 0, widths[net])} == multiset(Leaves(e)) + multiset(NewSignals(from, widths))
  }

  /** So do those for some operands, each operand's net excepted. */
  ghost predicate SuppliesAll(parts: seq<LVal>, nets: seq<nat>, added: seq<PartSelect>, from: nat, widths: seq<nat>) {
    && from <= |widths| && (forall i | 0 <= i < |nets| :: nets[i] < |widths|)
    && multiset(AllDriven(added)) + multiset(WholeSignals(nets, widths)) ==
       multiset(LeavesAll(parts)) + multiset(NewSignals(from, widths))
  }

  lemma DrivenAppend(a: seq<PartSelect>, b: seq<PartSelect>)
    ensures multiset(AllDriven(a + b)) == multiset(AllDriven(a)) + multiset(AllDriven(b))
  {
    assert AllDriven(a + b) == AllDriven(a) + AllDriven(b);
  }

  lemma WholeAppend(nets: seq<nat>, net: nat, widths: seq<nat>, widths': seq<nat>)
    requires (forall i | 0 <= i < |nets| :: nets[i] < |widths|) && net < |widths'| && widths <= widths'
    ensures multiset(WholeSignals(nets + [net], widths')) ==
            multiset(WholeSignals(nets, widths)) + multiset{Slice(net, 0, widths'[net])}
  {
    assert WholeSignals(nets + [net], widths') == WholeSignals(nets, widths) + [Slice(net, 0, widths'[net])];
  }

  lemma NewAppend(from: nat, widths: seq<nat>, widths': seq<nat>)
    requires from <= |widths| && widths <= widths'
    ensures multiset(NewSignals(from, widths')) == multiset(NewSignals(from, widths)) + multiset(NewSignals(|widths|, widths'))
  {
    assert NewSignals(from, widths') == NewSignals(from, widths) + NewSignals(|widths|, widths');
  }

  lemma LeavesAppend(parts: seq<LVal>, part: LVal)
    requires Usable(part)
    ensures multiset(LeavesAll(parts + [part])) == multiset(LeavesAll(parts)) + multiset(Leaves(part))
  {
    assert (parts + [part])[..|parts|] == parts;
  }

  lemma SuppliesStep(parts: seq<LVal>, nets: seq<nat>, added: seq<PartSelect>, from: nat, widths: seq<nat>,
                     part: LVal, net: nat, more: seq<PartSelect>, widths': seq<nat>)
    requires SuppliesAll(parts, nets, added, from, widths) && Supplies(part, net, more, |widths|, widths')
    requires widths <= widths' && Usable(part)
    ensures SuppliesAll(parts + [part], nets + [net], added + more, from, widths')
  {
    DrivenAppend(added, more);
    WholeAppend(nets, net, widths, widths');
    NewAppend(from, widths, widths');
    LeavesAppend(parts, part);
    SumBalances(multiset(AllDriven(added)), multiset(WholeSignals(nets, widths)), multiset(LeavesAll(parts)),
                multiset(NewSignals(from, widths)), multiset(AllDriven(more)), multiset{Slice(net, 0, widths'[net])},
                multiset(Leaves(part)), multiset(NewSignals(|widths|, widths')));
  }

  lemma SumBalances<T>(a: multiset<T>, b: multiset<T>, c: multiset<T>, d: multiset<T>,
                       a': multiset<T>, b': multiset<T>, c': multiset<T>, d': multiset<T>)
    requires a + b == c + d && a' + b' == c' + d'
    ensures (a + a') + (b + b') == (c + c') + (d + d')
  {
    assert (a + a') + (b + b') == (a + b) + (a' + b') && (c + c') + (d + d') == (c + d) + (c' + d');
  }

  /** The part selects from a new net for the whole concatenation drive the operands' nets. */
  lemma ConcatSupplies(e: LVal, nets: seq<nat>, added: seq<PartSelect>, from: nat, widths: seq<nat>,
                       width: nat, more: seq<PartSelect>)
    requires e.Concat? && !e.repeated && SuppliesAll(e.parts, nets, added, from, widths)
    requires AllDriven(more) == WholeSignals(nets, widths)
    ensures Supplies(e, |widths|, added + more, from, widths + [width])
  {
    DrivenAppend(added, more);
    NewAppend(from, widths, widths + [width]);
    assert NewSignals(|widths|, widths + [width]) == [Slice(|widths|, 0, width)];
  }

  lemma LeafSupplies(e: LVal, widths: seq<nat>)
    requires e.Leaf? && Fits(e, widths)
    ensures e.at.width == widths[e.at.sig] ==> Supplies(e, e.at.sig, [], |widths|, widths)
    ensures Supplies(e, |widths|, [PartSelect(PV, e.at.sig, e.at.base, e.at.width, |widths|)], |widths|, widths + [e.at.width])
  {
    var more := [PartSelect(PV, e.at.sig, e.at.base, e.at.width, |widths|)];
    assert AllDriven([]) == [] && NewSignals(|widths|, widths) == [];
    assert AllDriven(more) == [e.at];
    assert NewSignals(|widths|, widths + [e.at.width]) == [Slice(|widths|, 0, e.at.width)];
  }

  predicate DrivesNet(p: PartSelect, dir: Direction, net: nat, widths: seq<nat>) {
    p.dir == dir && net < |widths| && p.part == net && p.width == widths[net]
  }

  /** One part select for each of the first k nets. */
  predicate Connects(added: seq<PartSelect>, dir: Direction, nets: seq<nat>, widths: seq<nat>, k: nat) {
    |added| == k <= |nets| && forall i | 0 <= i < k :: DrivesNet(added[i], dir, nets[i], widths)
  }

  lemma OffsetStep(parts: seq<LVal>, k: nat)
    requires k < |parts|
    ensures WidthAll(parts[..k + 1]) == WidthAll(parts[..k]) + Width(parts[k]) <= WidthAll(parts)
  {
    assert parts[..k + 1][..k] == parts[..k];
    WidthOfPrefix(parts, k + 1, |parts|);
    WholePrefix(parts);
  }

  lemma SelectStep(selects: seq<PartSelect>, dir: Direction, parts: seq<LVal>, nets: seq<nat>, whole: nat, k: nat, p: PartSelect)
    requires k < |parts| == |nets| && Selected(selects, dir, parts, nets, whole, k)
    requires WidthAll(parts[..k + 1]) <= WidthAll(parts)
    requires p == PartSelect(dir, whole, WidthAll(parts) - WidthAll(parts[..k + 1]), Width(parts[k]), nets[k])
    ensures Selected(selects + [p], dir, parts, nets, whole, k + 1)
  {
    assert SelectOf(dir, parts, nets, whole, k) == p;
    assert forall q | q in selects :: q in selects + [p];
  }

  lemma WholeKept(nets: seq<nat>, widths: seq<nat>, widths': seq<nat>)
    requires (forall i | 0 <= i < |nets| :: nets[i] < |widths|) && widths <= widths'
    ensures WholeSignals(nets, widths) == WholeSignals(nets, widths')
  {
  }

  /** The net is a new signal, or the leaf itself with nothing added. The part selects added
      are switches if and only if the connection is to be bidirectional; otherwise each drives
      its own bits. */
  ghost predicate Directed(e: LVal, net: nat, added: seq<PartSelect>, from: nat, widths: seq<nat>, bidirectional: bool) {
    && (net >= from || (e.Leaf? && net == e.at.sig && added == []))
    && (forall p | p in added :: p.dir.Tran? <==> bidirectional)
    && (!bidirectional ==> Supplies(e, net, added, from, widths))
  }

  ghost predicate DirectedAll(parts: seq<LVal>, nets: seq<nat>, added: seq<PartSelect>, from: nat, widths: seq<nat>,
                              bidirectional: bool) {
    && (forall p | p in added :: p.dir.Tran? <==> bidirectional)
    && (!bidirectional ==> SuppliesAll(parts, nets, added, from, widths))
  }

  lemma DirectedStep(parts: seq<LVal>, nets: seq<nat>, selects: seq<PartSelect>, from: nat, widths: seq<nat>,
                     part: LVal, net: nat, selects': seq<PartSelect>, widths': seq<nat>, bidirectional: bool, count: nat)
    requires count <= |selects| && selects <= selects' && widths <= widths' && Usable(part)
    requires DirectedAll(parts, nets, selects[count..], from, widths, bidirectional)
    requires Directed(part, net, selects'[|selects|..], |widths|, widths', bidirectional)
    ensures DirectedAll(parts + [part], nets + [net], selects'[count..], from, widths', bidirectional)
  {
    var more := selects'[|selects|..];
    assert selects'[count..] == selects[count..] + more;
    if !bidirectional {
      SuppliesStep(parts, nets, selects[count..], from, widths, part, net, more, widths');
    }
  }

  /** The operands so far have nets that pass on and are supplied by the part selects added. */
  ghost predicate Gathered(parts: seq<LVal>, nets: seq<nat>, width: nat, selects: seq<PartSelect>, count: nat,
                           widths: seq<nat>, first: seq<nat>, bidirectional: bool)
    requires forall p | p in parts :: Fits(p, first)
  {
    && count <= |selects|
    && Collected(parts, nets, width, selects, count, widths, first, bidirectional)
    && DirectedAll(parts, nets, selects[count..], |first|, widths, bidirectional)
  }

  /** An operand has been elaborated into a net. */
  ghost predicate HasNet(part: LVal, net: nat, selects: seq<PartSelect>, widths: seq<nat>,
                         selects': seq<PartSelect>, widths': seq<nat>, bidirectional: bool)
    requires Fits(part, widths)
  {
    && widths <= widths' && selects <= selects'
    && Wired(part, net, selects', widths, bidirectional) && |selects'| == |selects| + SelectCount(part, widths)
    && net < |widths'| && widths'[net] == Width(part) && Passes(part, net, selects', widths')
    && Directed(part, net, selects'[|selects|..], |widths|, widths', bidirectional)
  }

  lemma GatheredStep(parts: seq<LVal>, nets: seq<nat>, width: nat, part: LVal, net: nat,
                     selects: seq<PartSelect>, count: nat, widths: seq<nat>,
                     selects': seq<PartSelect>, widths': seq<nat>, first: seq<nat>, bidirectional: bool)
    requires (forall p | p in parts :: Fits(p, first)) && Fits(part, first) && Fits(part, widths)
    requires Gathered(parts, nets, width, selects, count, widths, first, bidirectional) && first <= widths
    requires Usable(part) && HasNet(part, net, selects, widths, selects', widths', bidirectional)
    ensures Gathered(parts + [part], nets + [net], width + widths'[net], selects', count, widths', first, bidirectional)
  {
    CollectedStep(parts, nets, width, part, net, selects, count, widths, selects', widths', first, bidirectional);
    DirectedStep(parts, nets, selects, |first|, widths, part, net, selects', widths', bidirectional, count);
  }

  lemma ConcatDirected(e: LVal, nets: seq<nat>, selects: seq<PartSelect>, from: nat, widths: seq<nat>,
                       width: nat, selects': seq<PartSelect>, bidirectional: bool, count: nat)
    requires e.Concat? && !e.repeated && count <= |selects| && selects <= selects' && from <= |widths|
    requires DirectedAll(e.parts, nets, selects[count..], from, widths, bidirectional)
    requires forall p | p in selects'[|selects|..] :: p.dir == Dir(bidirectional, VP)
    requires (forall i | 0 <= i < |nets| :: nets[i] < |widths|) && AllDriven(selects'[|selects|..]) == WholeSignals(nets, widths)
    ensures Directed(e, |widths|, selects'[count..], from, widths + [width], bidirectional)
  {
    var more := selects'[|selects|..];
    assert selects'[count..] == selects[count..] + more;
    if !bidirectional {
      ConcatSupplies(e, nets, selects[count..], from, widths, width, more);
    }
  }

  class LnetElaborator {
    var widths: seq<nat>
    var selects: seq<PartSelect>
    var errors: nat

    constructor (widths: seq<nat>)
      ensures this.widths == widths && selects == [] && errors == 0
    {
      this.widths, this.selects, this.errors := widths, [], 0;
    }

    method AddSignal(width: nat) returns (net: nat)
      modifies this`widths
      ensures net == |old(widths)| && widths == old(widths) + [width]
    {
      net := |widths|;
      widths := widths + [width];
    }

    /** Elaborate an l-value into the net that feeds it. The net of an error-free l-value
        passes to every leaf, whatever its value, exactly the leaf's share. */
    method ElaborateLnet(e: LVal, bidirectional: bool) returns (ok: bool, net: nat)
      requires Fits(e, widths) && !e.Absent?
      modifies this
      ensures old(widths) <= widths && old(selects) <= selects
      ensures ok <==> Clean(e)
      ensures errors == old(errors) + LnetErrors(e)
      ensures ok ==> Wired(e, net, selects, old(widths), bidirectional)
                     && |selects| == |old(selects)| + SelectCount(e, old(widths))
      ensures ok ==> net < |widths| && widths[net] == Width(e) && Passes(e, net, selects, widths)
      ensures ok ==> Directed(e, net, selects[|old(selects)|..], |old(widths)|, widths, bidirectional)
      decreases e, 2
    {
      net := 0;
      match e
      case Failing(counted) =>
        ok, errors := false, errors + counted;
      case Leaf(at, _, _) =>
        ok := true;
        net := at.sig;
        ghost var before := widths;
        if at.width != widths[at.sig] {
          net := AddSignal(at.width);
          selects := selects + [PartSelect(Dir(bidirectional, PV), at.sig, at.base, at.width, net)];
        }
        LeafPasses(e, net, Dir(bidirectional, PV), selects, widths);
        LeafSupplies(e, before);
      case Concat(_, _) => ok, net := ElaborateConcat(e, bidirectional);
    }

    method ElaborateConcat(e: LVal, bidirectional: bool) returns (ok: bool, net: nat)
      requires e.Concat? && Fits(e, widths)
      modifies this
      ensures old(widths) <= widths && old(selects) <= selects
      ensures ok <==> Clean(e)
      ensures errors == old(errors) + LnetErrors(e)
      ensures ok ==> Wired(e, net, selects, old(widths), bidirectional)
                     && |selects| == |old(selects)| + SelectCount(e, old(widths))
      ensures ok ==> net < |widths| && widths[net] == Width(e) && Passes(e, net, selects, widths)
      ensures ok ==> Directed(e, net, selects[|old(selects)|..], |old(widths)|, widths, bidirectional)
      decreases e, 1
    {
      net := 0;
      if e.repeated {
        return false, 0;
      }
      var nets, width, bad := ElaborateOperands(e, bidirectional);
      if bad > 0 {
        errors := errors + bad;
        return false, 0;
      }
      net := AddSignal(width);
      ghost var before, first := selects, widths[..net];
      ConnectParts(e.parts, nets, net, width, Dir(bidirectional, VP));
      ok := true;
      ghost var dir := Dir(bidirectional, VP);
      BuiltMore(e.parts, nets, before, widths[..net], selects, widths, old(widths), bidirectional);
      ConcatPasses(e, nets, net, dir, selects, widths);
      assert WiredAll(e, nets, net, selects, old(widths), bidirectional);
      WholeKept(nets, first, widths);
      ConcatDirected(e, nets, before, |old(widths)|, first, width, selects, bidirectional, |old(selects)|);
    }

    /** An operand has no net if it is missing or real, or if its own elaboration gives none. */
    method ElaborateOperand(part: LVal, bidirectional: bool) returns (ok: bool, net: nat)
      requires Fits(part, widths)
      modifies this
      ensures old(widths) <= widths && old(selects) <= selects
      ensures ok <==> Usable(part) && Clean(part)
      ensures errors == old(errors) + LnetErrors(part)
      ensures ok ==> HasNet(part, net, old(selects), old(widths), selects, widths, bidirectional)
      decreases part, 3
    {
      if part.Absent? {
        return false, 0;
      }
      ok, net := ElaborateLnet(part, bidirectional);
      ok := ok && !(part.Leaf? && part.isReal);
    }

    /** Count the width up over the operands. */
    method ElaborateOperands(e: LVal, bidirectional: bool) returns (nets: seq<nat>, width: nat, bad: nat)
      requires e.Concat? && Fits(e, widths) && !e.repeated
      modifies this
      ensures old(widths) <= widths && old(selects) <= selects
      ensures bad == 0 <==> AllClean(e.parts)
      ensures errors + bad == old(errors) + LnetErrorsAll(e.parts)
      ensures bad == 0 ==> Gathered(e.parts, nets, width, selects, |old(selects)|, widths, old(widths), bidirectional)
      decreases e, 0
    {
      nets, width, bad := [], 0, 0;
      var idx := 0;
      ghost var done, first, count := [], widths, |selects|;
      while idx < |e.parts|
        invariant 0 <= idx <= |e.parts| && done == e.parts[..idx]
        invariant first <= widths && old(selects) <= selects
        invariant bad == 0 <==> AllClean(done)
        invariant errors + bad == old(errors) + LnetErrorsAll(done)
        invariant forall p | p in done :: Fits(p, first)
        invariant bad == 0 ==> Gathered(done, nets, width, selects, count, widths, first, bidirectional)
      {
        var part := e.parts[idx];
        assert part in e.parts;
        OperandStep(done, part);
        FitsMore(part, first, widths);
        ghost var w, s, before := widths, selects, done;
        var ok, net := ElaborateOperand(part, bidirectional);
        done, idx := done + [part], idx + 1;
        if !ok {
          bad := bad + 1;
          continue;
        }
        if bad == 0 {
          GatheredStep(before, nets, width, part, net, s, count, w, selects, widths, first, bidirectional);
        }
        nets, width := nets + [net], width + widths[net];
      }
      WholePrefix(e.parts);
    }

    /** Count the width down again: the first operand is connected to the top bits. */
    method ConnectParts(parts: seq<LVal>, nets: seq<nat>, whole: nat, total: nat, dir: Direction)
      requires |nets| == |parts| && total == WidthAll(parts)
      requires forall i | 0 <= i < |nets| :: nets[i] < |widths| && widths[nets[i]] == Width(parts[i])
      modifies this`selects
      ensures old(selects) <= selects && |selects| == |old(selects)| + |parts|
      ensures Selected(selects, dir, parts, nets, whole, |parts|)
      ensures forall p | p in selects[|old(selects)|..] :: p.dir == dir
      ensures !dir.PV? ==> AllDriven(selects[|old(selects)|..]) == WholeSignals(nets, widths)
    {
      var width := total;
      var idx := 0;
      ghost var added := [];
      assert parts[..0] == [];
      while idx < |nets|
        invariant 0 <= idx <= |nets| && selects == old(selects) + added
        invariant width == total - WidthAll(parts[..idx])
        invariant Selected(selects, dir, parts, nets, whole, idx)
        invariant Connects(added, dir, nets, widths, idx)
      {
        var wid := widths[nets[idx]];
        OffsetStep(parts, idx);
        var off := width - wid;
        ghost var p := PartSelect(dir, whole, off, wid, nets[idx]);
        SelectStep(selects, dir, parts, nets, whole, idx, p);
        assert old(selects) + (added + [p]) == (old(selects) + added) + [p];
        added := added + [p];
        selects := selects + [PartSelect(dir, whole, off, wid, nets[idx])];
        width := width - wid;
        idx := idx + 1;
      }
      WholePrefix(parts);
      assert selects[|old(selects)|..] == added;
      assert width == 0;
    }
  }
}
