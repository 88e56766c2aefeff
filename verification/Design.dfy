/** The netlist as the optimizer holds it: devices, the link list of every nexus, and the
    guess about its value that each nexus caches. */
module Designs {
  import opened FourState
  import opened Netlists
  import opened Rewrites
  import opened LinkConst

  /** The cached guess about the value of a nexus. */
  datatype Guess = NoGuess | Known(v: V) | Var

  predicate NoDup<T(==)>(s: seq<T>) {
    forall i, j | 0 <= i < j < |s| :: s[i] != s[j]
  }

  function Without<T(==)>(s: seq<T>, x: T): seq<T> {
    if s == [] then []
    else if s[0] == x then Without(s[1..], x)
    else [s[0]] + Without(s[1..], x)
  }

  lemma {:induction false} WithoutIn<T(!new)>(s: seq<T>, x: T)
    ensures forall y :: y in Without(s, x) <==> y in s && y != x
  {
    if s != [] {
      WithoutIn(s[1..], x);
    }
  }

  lemma {:induction false} WithoutNoDup<T(!new)>(s: seq<T>, x: T)
    requires NoDup(s)
    ensures NoDup(Without(s, x))
  {
    if s != [] {
      WithoutNoDup(s[1..], x);
      WithoutIn(s[1..], x);
      assert s[0] !in s[1..];
      assert s[0] !in Without(s[1..], x);
    }
  }

  /** The link lists hold exactly the pins on each nexus, once each. */
  ghost predicate LinksOk(net: Netlist, links: map<NexusId, seq<Link>>) {
    && links.Keys == net.width.Keys
    && (forall n, l | n in links :: l in links[n] <==> IsLink(net, l, n))
    && forall n | n in links :: NoDup(links[n])
  }

  /** A well-formed netlist with its link lists and name counters. */
  ghost predicate GoodShape(net: Netlist, links: map<NexusId, seq<Link>>, nextNode: NodeId, nextNexus: NexusId,
                            rank: NexusId -> nat)
  {
    && WellFormed(net) && Ranked(net, rank) && LinksOk(net, links)
    && (forall n | n in net.width :: net.width[n] > 0)
    && (forall id | id in net.nodes :: id < nextNode)
    && (forall n | n in net.width :: n < nextNexus)
  }

  /** A known value is right: the nexus is constant, and the value is bit 0 of its vector,
      or z. (A guess of Var promises nothing.) */
  ghost predicate GuessOk(net: Netlist, rank: NexusId -> nat, n: NexusId, g: Guess)
    requires WellFormed(net) && Ranked(net, rank)
  {
    g.Known? ==>
      n in net.width && ConstantNexus(net, rank, n) && (g.v == Vz || g.v == BitAt(DrivenVector(net, rank, n), 0))
  }

  /** A known value is exactly bit 0 of the vector. */
  ghost predicate GuessRight(net: Netlist, rank: NexusId -> nat, n: NexusId, g: Guess)
    requires WellFormed(net) && Ranked(net, rank)
  {
    g.Known? ==> n in net.width && ConstantNexus(net, rank, n) && g.v == BitAt(DrivenVector(net, rank, n), 0)
  }

  ghost predicate AllSound(net: Netlist, rank: NexusId -> nat, d: map<NexusId, Guess>)
    requires WellFormed(net) && Ranked(net, rank)
  {
    forall n | n in d :: GuessOk(net, rank, n, d[n])
  }

  /** The guesses at nexuses up to a rank, n aside, are sound ... */
  ghost predicate SoundBut(net: Netlist, rank: NexusId -> nat, d: map<NexusId, Guess>, k: nat, n: NexusId)
    requires WellFormed(net) && Ranked(net, rank)
  {
    forall m | m in d && rank(m) <= k && m != n :: GuessOk(net, rank, m, d[m])
  }

  ghost predicate GuessExact(net: Netlist, rank: NexusId -> nat, n: NexusId, g: Guess)
    requires Ranked(net, rank)
  {
    g.Var? ==> !ConstantNexus(net, rank, n)
  }

  /** ... and take no constant nexus for a variable one. */
  ghost predicate ExactBut(net: Netlist, rank: NexusId -> nat, d: map<NexusId, Guess>, k: nat, n: NexusId)
    requires Ranked(net, rank)
  {
    forall m | m in d && rank(m) <= k && m != n :: GuessExact(net, rank, m, d[m])
  }

  /** Only guesses at n and below its rank change. */
  ghost predicate CacheKept(rank: NexusId -> nat, n: NexusId, d: map<NexusId, Guess>, d': map<NexusId, Guess>) {
    d'.Keys == d.Keys && forall m | m in d && rank(m) >= rank(n) && m != n :: d'[m] == d[m]
  }

  ghost predicate NoSubstitutes(net: Netlist) {
    forall id | id in net.nodes :: !net.nodes[id].kind.Substitute?
  }

  /** Without substitutions only the guess at n changes. */
  ghost predicate CacheLocal(net: Netlist, n: NexusId, d: map<NexusId, Guess>, d': map<NexusId, Guess>) {
    NoSubstitutes(net) ==> forall m | m in d && m in d' && m != n :: d'[m] == d[m]
  }

  /** A scan of n so far: sound, and exact if it started so. */
  ghost predicate Scanning(net: Netlist, rank: NexusId -> nat, n: NexusId,
                           d: map<NexusId, Guess>, d': map<NexusId, Guess>)
    requires WellFormed(net) && Ranked(net, rank)
  {
    && CacheKept(rank, n, d, d') && SoundBut(net, rank, d', rank(n), n) && CacheLocal(net, n, d, d')
    && (ExactBut(net, rank, d, rank(n), n) ==> ExactBut(net, rank, d', rank(n), n))
  }

  /** The outcome of a query of n. */
  ghost predicate Answered(net: Netlist, rank: NexusId -> nat, n: NexusId,
                           d: map<NexusId, Guess>, d': map<NexusId, Guess>, r: bool)
    requires WellFormed(net) && Ranked(net, rank)
  {
    && Scanning(net, rank, n, d, d') && n in d
    && GuessOk(net, rank, n, d'[n])
    && (r ==> ConstantNexus(net, rank, n))
    && (r <==> !d'[n].Var?)
    && (ExactBut(net, rank, d, rank(n), n) && GuessExact(net, rank, n, d[n]) ==> (r <==> ConstantNexus(net, rank, n)))
    && (if d[n].NoGuess? then GuessRight(net, rank, n, d'[n]) else d' == d)
  }

  /** What a query of the lower-ranked nexus p leaves for the scan of n. */
  lemma QueryBelow(net: Netlist, rank: NexusId -> nat, d: map<NexusId, Guess>, d': map<NexusId, Guess>,
                   p: NexusId, n: NexusId, r: bool)
    requires WellFormed(net) && Ranked(net, rank) && rank(p) < rank(n) && n in d
    requires SoundBut(net, rank, d, rank(n), n) && Answered(net, rank, p, d, d', r) && !NoSubstitutes(net)
    ensures Scanning(net, rank, n, d, d') && d'[n] == d[n]
    ensures ExactBut(net, rank, d, rank(n), n) ==> (r <==> ConstantNexus(net, rank, p))
  {
    if ExactBut(net, rank, d, rank(n), n) {
      assert ExactBut(net, rank, d, rank(p), p) && GuessExact(net, rank, p, d[p]);
    }
  }

  lemma BelowSound(net: Netlist, rank: NexusId -> nat, d: map<NexusId, Guess>, p: NexusId, n: NexusId)
    requires WellFormed(net) && Ranked(net, rank) && rank(p) < rank(n) && p in d
    requires SoundBut(net, rank, d, rank(n), n)
    ensures SoundBut(net, rank, d, rank(p), p) && GuessOk(net, rank, p, d[p])
  {
  }

  lemma ScanningTransitive(net: Netlist, rank: NexusId -> nat, n: NexusId,
                           d: map<NexusId, Guess>, d': map<NexusId, Guess>, d'': map<NexusId, Guess>)
    requires WellFormed(net) && Ranked(net, rank)
    requires Scanning(net, rank, n, d, d') && Scanning(net, rank, n, d', d'')
    ensures Scanning(net, rank, n, d, d'')
  {
  }

  lemma ScanningStart(net: Netlist, rank: NexusId -> nat, n: NexusId, d: map<NexusId, Guess>)
    requires WellFormed(net) && Ranked(net, rank)
    requires SoundBut(net, rank, d, rank(n), n)
    ensures Scanning(net, rank, n, d, d)
  {
  }

  /** The scan may set the guess at n itself. */
  lemma ScanningSet(net: Netlist, rank: NexusId -> nat, n: NexusId,
                    d: map<NexusId, Guess>, d': map<NexusId, Guess>, g: Guess)
    requires WellFormed(net) && Ranked(net, rank) && n in d
    requires Scanning(net, rank, n, d, d')
    ensures Scanning(net, rank, n, d, d'[n := g])
  {
    forall m | m in d && rank(m) <= rank(n) && m != n
      ensures GuessOk(net, rank, m, d'[n := g][m])
    {
    }
  }

  /** Queries keep all guesses sound. */
  lemma AnsweredSound(net: Netlist, rank: NexusId -> nat, n: NexusId,
                      d: map<NexusId, Guess>, d': map<NexusId, Guess>, r: bool)
    requires WellFormed(net) && Ranked(net, rank)
    requires AllSound(net, rank, d) && Answered(net, rank, n, d, d', r)
    ensures AllSound(net, rank, d')
  {
  }

  /** No constant nexus is taken for a variable one. */
  ghost predicate AllExact(net: Netlist, rank: NexusId -> nat, d: map<NexusId, Guess>)
    requires Ranked(net, rank)
  {
    forall n | n in d :: GuessExact(net, rank, n, d[n])
  }

  /** With no outdated guess a query is exact, and leaves none. */
  lemma AnsweredExact(net: Netlist, rank: NexusId -> nat, n: NexusId,
                      d: map<NexusId, Guess>, d': map<NexusId, Guess>, r: bool)
    requires WellFormed(net) && Ranked(net, rank)
    requires AllExact(net, rank, d) && Answered(net, rank, n, d, d', r)
    ensures (r <==> ConstantNexus(net, rank, n)) && AllExact(net, rank, d')
  {
    assert ExactBut(net, rank, d, rank(n), n) && GuessExact(net, rank, n, d[n]);
  }

  /** Every guess is what a scan would find now, and there are no substitutions, through which
      a change elsewhere could make it outdated. */
  ghost predicate Current(net: Netlist, rank: NexusId -> nat, d: map<NexusId, Guess>)
    requires WellFormed(net) && Ranked(net, rank)
  {
    NoSubstitutes(net) && AllExact(net, rank, d) && forall n | n in d :: GuessRight(net, rank, n, d[n])
  }

  lemma AnsweredCurrent(net: Netlist, rank: NexusId -> nat, n: NexusId,
                        d: map<NexusId, Guess>, d': map<NexusId, Guess>, r: bool)
    requires WellFormed(net) && Ranked(net, rank)
    requires Current(net, rank, d) && Answered(net, rank, n, d, d', r)
    ensures Current(net, rank, d')
  {
    AnsweredExact(net, rank, n, d, d', r);
    forall m | m in d' ensures GuessRight(net, rank, m, d'[m]) {
      if m != n {
        assert d'[m] == d[m];
      }
    }
  }

  /** A nexus with the same drivers is constant, with the same vector, before and after. */
  lemma SameDriversSameConstant(net: Netlist, net': Netlist, rank: NexusId -> nat, n: NexusId)
    requires WellFormed(net) && WellFormed(net') && Ranked(net, rank) && Ranked(net', rank)
    requires NoSubstitutes(net) && NoSubstitutes(net') && SameDriversAt(net, net', n)
    ensures ConstantNexus(net', rank, n) <==> ConstantNexus(net, rank, n)
    ensures n in net.width && n in net'.width && net.width[n] == net'.width[n] && ConstantNexus(net, rank, n) ==>
              DrivenVector(net', rank, n) == DrivenVector(net, rank, n)
  {
    SameRolesSameConstant(net, net', rank, n);
    if n in net.width && n in net'.width && net.width[n] == net'.width[n] && ConstantNexus(net, rank, n) {
      SameSoleDriver(net, net', rank, n);
    }
  }

  lemma SameRolesSameConstant(net: Netlist, net': Netlist, rank: NexusId -> nat, n: NexusId)
    requires Ranked(net, rank) && Ranked(net', rank)
    requires NoSubstitutes(net) && NoSubstitutes(net') && SameDriversAt(net, net', n)
    ensures ConstantNexus(net', rank, n) <==> ConstantNexus(net, rank, n)
  {
    assert forall l :: LinkRole(net, l, n, Variable) <==> LinkRole(net', l, n, Variable);
    assert forall l :: LinkRole(net, l, n, Constant) <==> LinkRole(net', l, n, Constant);
  }

  lemma SameSoleDriver(net: Netlist, net': Netlist, rank: NexusId -> nat, n: NexusId)
    requires WellFormed(net) && WellFormed(net') && Ranked(net, rank) && Ranked(net', rank)
    requires NoSubstitutes(net) && SameDriversAt(net, net', n)
    requires n in net.width && n in net'.width && net.width[n] == net'.width[n]
    requires ConstantNexus(net, rank, n) && ConstantNexus(net', rank, n)
    ensures DrivenVector(net', rank, n) == DrivenVector(net, rank, n)
  {
    if l :| SoleDriver(net, l, n) {
      assert LinkRole(net, l, n, Constant) && LinkRole(net', l, n, Constant);
      assert SoleDriver(net', l, n);
      SoleDriverVector(net, rank, l, n);
      SoleDriverVector(net', rank, l, n);
    } else {
      forall l ensures !SoleDriver(net', l, n) {
        assert !SoleDriver(net, l, n);
        assert !LinkRole(net, l, n, Constant);
      }
    }
  }

  /** Guesses that are kept stay current where the drivers are kept. */
  lemma RewrittenCurrent(net: Netlist, net': Netlist, rank: NexusId -> nat, d: map<NexusId, Guess>, d': map<NexusId, Guess>)
    requires WellFormed(net) && WellFormed(net') && Ranked(net, rank) && Ranked(net', rank)
    requires forall m | m in net.width :: m in net'.width && net.width[m] == net'.width[m]
    requires Current(net, rank, d) && NoSubstitutes(net')
    requires forall n | n in d' && !d'[n].NoGuess? :: n in d && d'[n] == d[n] && SameDriversAt(net, net', n)
    ensures Current(net', rank, d')
  {
    forall n | n in d'
      ensures GuessExact(net', rank, n, d'[n]) && GuessRight(net', rank, n, d'[n])
    {
      if !d'[n].NoGuess? {
        assert GuessExact(net, rank, n, d[n]) && GuessRight(net, rank, n, d[n]);
        SameDriversSameConstant(net, net', rank, n);
      }
    }
  }

  /** So do rewrites: guesses at the touched nexuses are forgotten, and the others still
      hold if no constant nexus changes its drivers. */
  lemma RewrittenSound(net: Netlist, net': Netlist, rank: NexusId -> nat, d: map<NexusId, Guess>, d': map<NexusId, Guess>)
    requires WellFormed(net) && WellFormed(net') && Ranked(net, rank) && Ranked(net', rank)
    requires forall m | m in net.width :: m in net'.width && net.width[m] == net'.width[m]
    requires KeepsConstants(net, net', rank)
    requires AllSound(net, rank, d)
    requires forall n | n in d' :: d'[n].NoGuess? || (n in d && d'[n] == d[n])
    ensures AllSound(net', rank, d')
  {
    forall n | n in d'
      ensures GuessOk(net', rank, n, d'[n])
    {
      if d'[n].Known? {
        assert GuessOk(net, rank, n, d[n]);
        DrivenVectorFrame(net, net', rank, n);
      }
    }
  }

  class Design {
    var nodes: map<NodeId, Node>
    var width: map<NexusId, nat>
    var links: map<NexusId, seq<Link>>
    var driven: map<NexusId, Guess>
    var nextNode: NodeId
    var nextNexus: NexusId
    ghost var rank: NexusId -> nat

    ghost function Net(): Netlist
      reads this`nodes, this`width
    {
      Netlist(nodes, width)
    }

    /** Everything but the cache. */
    ghost predicate Shaped()
      reads this`nodes, this`width, this`links, this`nextNode, this`nextNexus, this`rank
    {
      GoodShape(Net(), links, nextNode, nextNexus, rank)
    }

    ghost predicate Valid()
      reads this
    {
      Shaped() && driven.Keys == width.Keys
    }

    /** All guesses are sound. */
    ghost predicate CacheSound()
      reads this
      requires Valid()
    {
      AllSound(Net(), rank, driven)
    }

    /** A netlist as elaboration leaves it: nothing is cached yet. */
    constructor (nodes: map<NodeId, Node>, width: map<NexusId, nat>, links: map<NexusId, seq<Link>>,
                 nextNode: NodeId, nextNexus: NexusId, ghost rank: NexusId -> nat)
      requires GoodShape(Netlist(nodes, width), links, nextNode, nextNexus, rank)
      ensures Valid() && CacheSound() && AllExact(Net(), this.rank, driven)
      ensures Net() == Netlist(nodes, width) && this.rank == rank && forall n | n in driven :: driven[n].NoGuess?
      ensures NoSubstitutes(Net()) ==> Current(Net(), this.rank, driven)
    {
      this.nodes, this.width, this.links := nodes, width, links;
      this.nextNode, this.nextNexus, this.rank := nextNode, nextNexus, rank;
      driven := map n | n in width :: NoGuess;
    }

    // ---- Queries ----

    /** True only for constant nexuses. The answer is cached: a Var stays, and is exact as
        long as the cache holds no outdated one. */
    method DriversConstant(n: NexusId) returns (r: bool)
      requires Shaped() && n in driven && driven.Keys == width.Keys
      requires SoundBut(Net(), rank, driven, rank(n), n) && GuessOk(Net(), rank, n, driven[n])
      modifies this`driven
      ensures Answered(Net(), rank, n, old(driven), driven, r)
      decreases rank(n), 2
    {
      ghost var net, d := Net(), driven;
      ScanningStart(net, rank, n, d);
      if driven[n].Var? {
        return false;
      }
      if !driven[n].NoGuess? {
        return true;
      }
      var varies, constantDrivers := ScanLinks(n);
      if varies {
        ScanningSet(net, rank, n, d, driven, Var);
        driven := driven[n := Var];
        return false;
      }
      if constantDrivers > 1 {
        TooManyDrivers(net, rank, n, links[n]);
        ScanningSet(net, rank, n, d, driven, Var);
        driven := driven[n := Var];
        return false;
      }
      ScanProves(net, rank, n, links[n], driven[n]);
      return true;
    }

    /** The loop of the scan: whether it met a variable driver, and how many constant
        ones. Pulls leave their value in the cache. */
    method ScanLinks(n: NexusId) returns (varies: bool, constantDrivers: nat)
      requires Shaped() && n in driven && driven.Keys == width.Keys && driven[n].NoGuess?
      requires SoundBut(Net(), rank, driven, rank(n), n)
      modifies this`driven
      ensures Scanning(Net(), rank, n, old(driven), driven)
      ensures !varies ==> ScannedOk(Net(), rank, n, links[n]) && constantDrivers == Constants(Net(), links[n])
                          && PullOk(Net(), links[n], driven[n])
      ensures varies && ExactBut(Net(), rank, old(driven), rank(n), n) ==> !ConstantNexus(Net(), rank, n)
      decreases rank(n), 1
    {
      ghost var net, d := Net(), driven;
      ScanningStart(net, rank, n, d);
      varies, constantDrivers := false, 0;
      var i := 0;
      while i < |links[n]|
        invariant 0 <= i <= |links[n]|
        invariant Scanning(net, rank, n, d, driven)
        invariant ScannedOk(net, rank, n, links[n][..i])
        invariant constantDrivers == Constants(net, links[n][..i])
        invariant PullOk(net, links[n][..i], driven[n])
      {
        var l := links[n][i];
        assert IsLink(net, l, n);
        ghost var before := driven;
        var step := ScanLink(n, l);
        ScanningTransitive(net, rank, n, d, before, driven);
        if step.Varies? {
          return true, constantDrivers;
        }
        ScanStep(net, rank, n, links[n], i, step);
        if step.Counts? {
          constantDrivers := constantDrivers + 1;
          if step.pull.Known? {
            ScanningSet(net, rank, n, d, driven, step.pull);
            driven := driven[n := step.pull];
          }
        }
        i := i + 1;
      }
      assert links[n][..i] == links[n];
    }

    /** The body of the loop: what one link of n counts as. */
    method ScanLink(n: NexusId, l: Link) returns (step: Step)
      requires Shaped() && n in driven && driven.Keys == width.Keys && IsLink(Net(), l, n)
      requires SoundBut(Net(), rank, driven, rank(n), n)
      modifies this`driven
      ensures Scanning(Net(), rank, n, old(driven), driven) && driven[n] == old(driven[n])
      ensures !step.Operands?
      ensures !step.Varies? ==> StepOk(Net(), rank, n, l, step)
      ensures step.Varies? && ExactBut(Net(), rank, old(driven), rank(n), n) ==> !ConstantNexus(Net(), rank, n)
      decreases rank(n), 0
    {
      ghost var net, d := Net(), driven;
      ScanningStart(net, rank, n, d);
      var node := nodes[l.node];
      step := Classify(node.kind, l.pin);
      ClassifyOk(net, rank, n, l);
      if step.Operands? {
        assert NodeOk(net.width, node);
        var base, part := node.pins[1], node.pins[2];
        BelowSound(net, rank, d, base, n);
        var both := DriversConstant(base);
        QueryBelow(net, rank, d, driven, base, n, both);
        if both {
          ghost var d' := driven;
          BelowSound(net, rank, d', part, n);
          both := DriversConstant(part);
          QueryBelow(net, rank, d', driven, part, n, both);
          ScanningTransitive(net, rank, n, d, d', driven);
        }
        step := if both then Counts(NoGuess) else Varies;
      }
    }

    /** Bit 0 of the driven vector of a constant nexus, or z: substitutions are not looked
        through. The test that no second driver is met never fails. */
    method DrivenValue(n: NexusId) returns (val: V)
      requires Shaped() && n in driven && n in width
      requires ConstantNexus(Net(), rank, n) && GuessOk(Net(), rank, n, driven[n]) && !driven[n].Var?
      modifies this`driven
      ensures driven == old(driven)[n := Known(val)] && GuessOk(Net(), rank, n, driven[n])
      ensures old(driven[n]).Known? ==> val == old(driven[n]).v
      ensures old(driven[n]).NoGuess? ==>
                val == if SubstituteDriven(Net(), n) then Vz else BitAt(DrivenVector(Net(), rank, n), 0)
    {
      ghost var net := Net();
      if driven[n].Known? {
        val := driven[n].v;
        assert driven == driven[n := Known(val)];
        return;
      }
      val := Vz;
      var i := 0;
      while i < |links[n]|
        invariant 0 <= i <= |links[n]|
        invariant driven == old(driven)
        invariant val == DirectValue(net, links[n][..i])
      {
        var l := links[n][i];
        assert IsLink(net, l, n) && NodeOk(net.width, net.nodes[l.node]);
        var k := nodes[l.node].kind;
        assert links[n][..i + 1][..i] == links[n][..i] && links[n][..i + 1][i] == l;
        if k.Const? {
          FirstDirect(net, rank, n, links[n], i);
          assert val == Vz;
          val := k.value[l.pin];
        } else if k.Signal? {
          if k.sig.ty.Supply0? || k.sig.ty.Tri0? {
            FirstDirect(net, rank, n, links[n], i);
            assert val == Vz;
            val := V0;
          }
          if k.sig.ty.Supply1? || k.sig.ty.Tri1? {
            FirstDirect(net, rank, n, links[n], i);
            assert val == Vz;
            val := V1;
          }
        }
        i := i + 1;
      }
      assert links[n][..i] == links[n];
      DirectValueRight(net, rank, n, links[n]);
      driven := driven[n := Known(val)];
    }

    /** The driven vector of a constant nexus. The tests that no second driver is met never
        fail. */
    method DrivenVectorOf(n: NexusId) returns (val: Vec)
      requires Shaped() && n in width && ConstantNexus(Net(), rank, n)
      ensures val == DrivenVector(Net(), rank, n)
      decreases rank(n)
    {
      ghost var net := Net();
      val := [];
      var w, i := 0, 0;
      while i < |links[n]|
        invariant 0 <= i <= |links[n]|
        invariant VectorSoFar(net, rank, n, links[n][..i], val)
        invariant w == 0 || w == net.width[n]
        invariant forall l | l in links[n][..i] && IsLink(net, l, n) && net.nodes[l.node].kind.Signal? :: w == net.width[n]
      {
        var l := links[n][i];
        assert IsLink(net, l, n) && NodeOk(net.width, net.nodes[l.node]);
        var node := nodes[l.node];
        assert links[n][..i + 1] == links[n][..i] + [l];
        if node.kind.Const? {
          FirstDriver(net, rank, n, links[n], i, val);
          assert |val| == 0;
          assert l.pin == 0;
          val := node.kind.value;
          w := |val|;
        } else if node.kind.Substitute? {
          if l.pin == 0 {
            FirstDriver(net, rank, n, links[n], i, val);
            assert |val| == 0;
            assert SubstituteAt(net, l, n);
            val := DrivenVectorOf(node.pins[1]);
            var pval := DrivenVectorOf(node.pins[2]);
            val := Overlay(val, node.kind.subBase, pval);
            w := |val|;
          }
        } else if node.kind.Signal? {
          w := node.kind.sig.width;
          if node.kind.sig.ty.Supply0? || node.kind.sig.ty.Tri0? {
            FirstDriver(net, rank, n, links[n], i, val);
            assert |val| == 0;
            val := Fill(V0, w);
          }
          if node.kind.sig.ty.Supply1? || node.kind.sig.ty.Tri1? {
            FirstDriver(net, rank, n, links[n], i, val);
            assert |val| == 0;
            val := Fill(V1, w);
          }
        }
        VectorStep(net, rank, n, links[n], i, val);
        i := i + 1;
      }
      assert links[n][..i] == links[n];
      assert HasSignal(net, n);
      VectorDone(net, rank, n, links[n], val);
      if |val| != w {
        val := Fill(Vz, w);
      }
    }

    /** The width of a nexus, taken from the first signal on it. */
    method VectorWidth(n: NexusId) returns (w: nat)
      requires Shaped() && n in width
      ensures w == width[n]
    {
      ghost var net := Net();
      assert HasSignal(net, n);
      for i := 0 to |links[n]|
        invariant forall l | l in links[n][..i] && IsLink(net, l, n) :: !net.nodes[l.node].kind.Signal?
      {
        var l := links[n][i];
        assert IsLink(net, l, n) && NodeOk(net.width, net.nodes[l.node]);
        if nodes[l.node].kind.Signal? {
          return nodes[l.node].kind.sig.width;
        }
        assert links[n][..i + 1] == links[n][..i] + [l];
      }
      assert false;
    }

    // ---- Edits ----

    /** A new device. A nexus that gains a pin which is not an input forgets its guess. */
    method AddNode(node: Node) returns (id: NodeId)
      requires Valid() && NodeOk(width, node) && RankFits(rank, node)
      modifies this`nodes, this`links, this`driven, this`nextNode
      ensures Valid()
      ensures id == old(nextNode) && id !in old(nodes) && nodes == old(nodes)[id := node]
      ensures driven == Forget(old(driven), node, |node.pins|)
    {
      ghost var net := Net();
      id := nextNode;
      ConnectPins(id, node);
      nodes := nodes[id := node];
      nextNode := id + 1;
      AddedGood(net, Net(), links, id, node, nextNexus, rank);
    }

    /** The pins of a new device are appended to the link lists, one by one. */
    method ConnectPins(id: NodeId, node: Node)
      requires LinksOk(Net(), links) && id !in nodes && driven.Keys == width.Keys
      requires forall p | 0 <= p < |node.pins| :: node.pins[p] in width
      modifies this`links, this`driven
      ensures LinksWith(Net(), links, id, node, |node.pins|)
      ensures driven == Forget(old(driven), node, |node.pins|)
    {
      ghost var d := driven;
      var p := 0;
      while p < |node.pins|
        invariant 0 <= p <= |node.pins|
        invariant LinksWith(Net(), links, id, node, p)
        invariant driven == Forget(d, node, p)
      {
        ForgetStep(d, node, p);
        Connect(id, node, p);
        p := p + 1;
      }
    }

    method Connect(id: NodeId, node: Node, p: nat)
      requires p < |node.pins| && node.pins[p] in width && id !in nodes
      requires LinksWith(Net(), links, id, node, p)
      modifies this`links, this`driven
      ensures LinksWith(Net(), links, id, node, p + 1)
      ensures driven == if PinDir(node.kind, p).Input? then old(driven) else old(driven)[node.pins[p] := NoGuess]
    {
      var n := node.pins[p];
      LinksConnect(Net(), links, id, node, p);
      links := links[n := links[n] + [Link(id, p)]];
      if !PinDir(node.kind, p).Input? {
        driven := driven[n := NoGuess];
      }
    }

    /** The device is unlinked and deleted. */
    method DeleteNode(id: NodeId)
      requires Valid() && id in nodes && LeavesSignals(Net(), id)
      modifies this`nodes, this`links, this`driven
      ensures Valid()
      ensures nodes == old(nodes) - {id}
      ensures driven == Forget(old(driven), old(nodes)[id], |old(nodes)[id].pins|)
    {
      ghost var net := Net();
      assert forall p | 0 <= p < |nodes[id].pins| :: nodes[id].pins[p] in width by {
        assert NodeOk(net.width, net.nodes[id]);
      }
      UnlinkPins(id);
      nodes := nodes - {id};
      DeletedShape(net, Net(), id, rank);
      DeletedLinks(net, Net(), links, id);
    }

    /** The pins of a device are taken off the link lists, one by one. A nexus that loses a
        pin which is not an input forgets its guess. */
    method UnlinkPins(id: NodeId)
      requires LinksOk(Net(), links) && id in nodes && driven.Keys == width.Keys
      requires forall p | 0 <= p < |nodes[id].pins| :: nodes[id].pins[p] in width
      modifies this`links, this`driven
      ensures LinksWithout(Net(), links, id, |nodes[id].pins|)
      ensures driven == Forget(old(driven), nodes[id], |nodes[id].pins|)
    {
      ghost var d := driven;
      var node, p := nodes[id], 0;
      while p < |node.pins|
        invariant 0 <= p <= |node.pins|
        invariant LinksWithout(Net(), links, id, p)
        invariant driven == Forget(d, node, p)
      {
        ForgetStep(d, node, p);
        Disconnect(id, node, p);
        p := p + 1;
      }
    }

    method Disconnect(id: NodeId, node: Node, p: nat)
      requires id in nodes && nodes[id] == node && p < |node.pins| && node.pins[p] in width
      requires LinksWithout(Net(), links, id, p)
      modifies this`links, this`driven
      ensures LinksWithout(Net(), links, id, p + 1)
      ensures driven == if PinDir(node.kind, p).Input? then old(driven) else old(driven)[node.pins[p] := NoGuess]
    {
      var n := node.pins[p];
      LinksDisconnect(Net(), links, id, p);
      links := links[n := Without(links[n], Link(id, p))];
      if !PinDir(node.kind, p).Input? {
        driven := driven[n := NoGuess];
      }
    }

    /** A new nexus with a local signal and a constant z on it. */
    method MakeConstZ(w: nat) returns (n: NexusId)
      requires Valid() && w > 0
      modifies this`nodes, this`width, this`links, this`driven, this`nextNode, this`nextNexus
      ensures Valid()
      ensures n == old(nextNexus) && nextNexus == n + 1 && n !in old(width) && nextNode == old(nextNode) + 2
      ensures Net() == AddFloating(old(Net()), n, old(nextNode), old(nextNode) + 1, w)
      ensures driven == old(driven)[n := NoGuess]
    {
      ghost var net := Net();
      n := nextNexus;
      var id := nextNode;
      FloatingShape(net, links, n, id, w, rank);
      nodes := nodes[id := Node(Signal(FloatingSig(w)), [n])][id + 1 := Node(Const(Fill(Vz, w)), [n])];
      width := width[n := w];
      links := links[n := [Link(id, 0), Link(id + 1, 0)]];
      driven := driven[n := NoGuess];
      nextNexus := n + 1;
      nextNode := id + 2;
      assert Net() == AddFloating(net, n, id, id + 1, w);
      assert Shaped();
    }
  }

  // ---- Link lists under edits ----

  /** The guesses after the first p pins of a device were connected or disconnected. */
  function Forget(d: map<NexusId, Guess>, node: Node, p: nat): map<NexusId, Guess>
    requires p <= |node.pins|
  {
    map n | n in d :: if exists q :: 0 <= q < p && node.pins[q] == n && !PinDir(node.kind, q).Input? then NoGuess else d[n]
  }

  lemma ForgetStep(d: map<NexusId, Guess>, node: Node, p: nat)
    requires p < |node.pins| && node.pins[p] in d
    ensures Forget(d, node, p + 1)
         == if PinDir(node.kind, p).Input? then Forget(d, node, p) else Forget(d, node, p)[node.pins[p] := NoGuess]
  {
  }

  /** The link lists hold the netlist's links and the first p pins of a new device. */
  ghost predicate LinksWith(net: Netlist, links: map<NexusId, seq<Link>>, id: NodeId, node: Node, p: nat)
    requires p <= |node.pins|
  {
    && links.Keys == net.width.Keys
    && (forall n, l | n in links ::
          l in links[n] <==> IsLink(net, l, n) || (l.node == id && l.pin < p && node.pins[l.pin] == n))
    && forall n | n in links :: NoDup(links[n])
  }

  lemma LinksConnect(net: Netlist, links: map<NexusId, seq<Link>>, id: NodeId, node: Node, p: nat)
    requires p < |node.pins| && node.pins[p] in net.width && id !in net.nodes
    requires LinksWith(net, links, id, node, p)
    ensures var n := node.pins[p];
            LinksWith(net, links[n := links[n] + [Link(id, p)]], id, node, p + 1)
  {
    var n := node.pins[p];
    assert Link(id, p) !in links[n];
  }

  /** The link lists hold the netlist's links without the first p pins of a device. */
  ghost predicate LinksWithout(net: Netlist, links: map<NexusId, seq<Link>>, id: NodeId, p: nat) {
    && links.Keys == net.width.Keys
    && (forall n, l | n in links :: l in links[n] <==> IsLink(net, l, n) && !(l.node == id && l.pin < p))
    && forall n | n in links :: NoDup(links[n])
  }

  lemma LinksDisconnect(net: Netlist, links: map<NexusId, seq<Link>>, id: NodeId, p: nat)
    requires id in net.nodes && p < |net.nodes[id].pins| && net.nodes[id].pins[p] in net.width
    requires LinksWithout(net, links, id, p)
    ensures var n := net.nodes[id].pins[p];
            LinksWithout(net, links[n := Without(links[n], Link(id, p))], id, p + 1)
  {
    var n := net.nodes[id].pins[p];
    WithoutIn(links[n], Link(id, p));
    WithoutNoDup(links[n], Link(id, p));
  }

  lemma AddedLinks(net: Netlist, net': Netlist, links: map<NexusId, seq<Link>>, id: NodeId, node: Node)
    requires id !in net.nodes && net' == Netlist(net.nodes[id := node], net.width)
    requires LinksWith(net, links, id, node, |node.pins|)
    ensures LinksOk(net', links)
  {
    forall n, l | n in links
      ensures l in links[n] <==> IsLink(net', l, n)
    {
    }
  }

  /** A substitution reads nexuses of a lower rank. */
  predicate RankFits(rank: NexusId -> nat, node: Node) {
    node.kind.Substitute? ==>
      |node.pins| == 3 && rank(node.pins[1]) < rank(node.pins[0]) && rank(node.pins[2]) < rank(node.pins[0])
  }

  /** If the device is a signal, every nexus has another one. */
  ghost predicate LeavesSignals(net: Netlist, id: NodeId)
    requires id in net.nodes
  {
    net.nodes[id].kind.Signal? ==>
      forall n | n in net.width :: exists l: Link :: l.node != id && IsLink(net, l, n) && net.nodes[l.node].kind.Signal?
  }

  lemma AddedShape(net: Netlist, net': Netlist, id: NodeId, node: Node, rank: NexusId -> nat)
    requires WellFormed(net) && Ranked(net, rank) && id !in net.nodes && NodeOk(net.width, node) && RankFits(rank, node)
    requires net' == Netlist(net.nodes[id := node], net.width)
    ensures WellFormed(net') && Ranked(net', rank)
  {
    forall n | n in net'.width
      ensures HasSignal(net', n)
    {
      SignalStays(net, net', id, node, n);
    }
    assert forall k | k in net.nodes && k != id :: NodeOk(net.width, net.nodes[k]) && net'.nodes[k] == net.nodes[k];
  }

  lemma AddedGood(net: Netlist, net': Netlist, links: map<NexusId, seq<Link>>, id: NodeId, node: Node,
                  nextNexus: NexusId, rank: NexusId -> nat)
    requires WellFormed(net) && Ranked(net, rank) && NodeOk(net.width, node) && RankFits(rank, node)
    requires forall n | n in net.width :: net.width[n] > 0 && n < nextNexus
    requires forall k | k in net.nodes :: k < id
    requires net' == Netlist(net.nodes[id := node], net.width) && LinksWith(net, links, id, node, |node.pins|)
    ensures GoodShape(net', links, id + 1, nextNexus, rank)
  {
    AddedShape(net, net', id, node, rank);
    AddedLinks(net, net', links, id, node);
  }

  lemma SignalStays(net: Netlist, net': Netlist, id: NodeId, node: Node, n: NexusId)
    requires HasSignal(net, n) && id !in net.nodes && net' == Netlist(net.nodes[id := node], net.width)
    ensures HasSignal(net', n)
  {
    var l :| IsLink(net, l, n) && net.nodes[l.node].kind.Signal?;
    assert IsLink(net', l, n);
  }

  lemma DeletedLinks(net: Netlist, net': Netlist, links: map<NexusId, seq<Link>>, id: NodeId)
    requires id in net.nodes && net' == Netlist(net.nodes - {id}, net.width)
    requires LinksWithout(net, links, id, |net.nodes[id].pins|)
    ensures LinksOk(net', links)
  {
    forall n, l | n in links
      ensures l in links[n] <==> IsLink(net', l, n)
    {
    }
  }

  lemma DeletedShape(net: Netlist, net': Netlist, id: NodeId, rank: NexusId -> nat)
    requires WellFormed(net) && Ranked(net, rank) && id in net.nodes && LeavesSignals(net, id)
    requires net' == Netlist(net.nodes - {id}, net.width)
    ensures WellFormed(net') && Ranked(net', rank)
  {
    forall n | n in net'.width
      ensures HasSignal(net', n)
    {
      assert HasSignal(net, n);
      var l: Link :| l.node != id && IsLink(net, l, n) && net.nodes[l.node].kind.Signal?;
      assert IsLink(net', l, n);
    }
    assert forall k | k in net.nodes && k != id :: NodeOk(net.width, net.nodes[k]) && net'.nodes[k] == net.nodes[k];
  }

  lemma FloatingShape(net: Netlist, links: map<NexusId, seq<Link>>, n: NexusId, id: NodeId, w: nat,
                      rank: NexusId -> nat)
    requires GoodShape(net, links, id, n, rank) && w > 0
    ensures GoodShape(AddFloating(net, n, id, id + 1, w), links[n := [Link(id, 0), Link(id + 1, 0)]], id + 2, n + 1, rank)
  {
    var sid, cid := id, id + 1;
    var net', links' := AddFloating(net, n, sid, cid, w), links[n := [Link(sid, 0), Link(cid, 0)]];
    FloatingSurface(net, n, sid, cid, w);
    forall m, l | m in links'
      ensures l in links'[m] <==> IsLink(net', l, m)
    {
      FloatingLink(net, n, sid, cid, w, l, m);
    }
  }

  // ---- The scan of DrivenVectorOf ----

  /** A link that drives, in a constant nexus. */
  ghost predicate IsDriver(net: Netlist, n: NexusId, l: Link) {
    LinkRole(net, l, n, Constant)
  }

  /** The vector of the driver met, if one was met. */
  ghost predicate VectorSoFar(net: Netlist, rank: NexusId -> nat, n: NexusId, ls: seq<Link>, val: Vec)
    requires WellFormed(net) && Ranked(net, rank) && n in net.width && ConstantNexus(net, rank, n)
  {
    && (forall l | l in ls && IsDriver(net, n, l) :: val == DrivenVector(net, rank, n))
    && ((forall l | l in ls :: !IsDriver(net, n, l)) ==> val == [])
  }

  lemma OnlyOneDriver(net: Netlist, rank: NexusId -> nat, n: NexusId, ls: seq<Link>, i: nat)
    requires Ranked(net, rank) && ConstantNexus(net, rank, n)
    requires NoDup(ls) && i < |ls| && IsDriver(net, n, ls[i])
    ensures forall l | l in ls[..i] :: !IsDriver(net, n, l)
  {
    forall j | 0 <= j < i
      ensures !IsDriver(net, n, ls[j])
    {
      assert ls[j] != ls[i];
    }
  }

  lemma FirstDriver(net: Netlist, rank: NexusId -> nat, n: NexusId, ls: seq<Link>, i: nat, val: Vec)
    requires WellFormed(net) && Ranked(net, rank) && n in net.width && ConstantNexus(net, rank, n)
    requires ListsLinks(net, n, ls) && i < |ls| && (IsDirect(net, ls[i]) || SubstituteAt(net, ls[i], n))
    requires VectorSoFar(net, rank, n, ls[..i], val)
    ensures val == [] && IsDriver(net, n, ls[i])
    ensures DrivenVector(net, rank, n) == VectorOf(net, rank, ls[i], n)
  {
    assert ls[i] in ls;
    if IsDirect(net, ls[i]) {
      DirectIsConstant(net, rank, n, ls[i]);
    }
    SoleDriverVector(net, rank, ls[i], n);
    OnlyOneDriver(net, rank, n, ls, i);
  }

  lemma VectorStep(net: Netlist, rank: NexusId -> nat, n: NexusId, ls: seq<Link>, i: nat, val: Vec)
    requires WellFormed(net) && Ranked(net, rank) && n in net.width && ConstantNexus(net, rank, n)
    requires i < |ls|
    requires if IsDriver(net, n, ls[i]) then val == DrivenVector(net, rank, n)
             else VectorSoFar(net, rank, n, ls[..i], val)
    ensures VectorSoFar(net, rank, n, ls[..i + 1], val)
  {
    var next := ls[..i + 1];
    assert next == ls[..i] + [ls[i]];
    assert ls[i] in next;
  }

  lemma VectorDone(net: Netlist, rank: NexusId -> nat, n: NexusId, ls: seq<Link>, val: Vec)
    requires WellFormed(net) && Ranked(net, rank) && n in net.width && net.width[n] > 0
    requires ConstantNexus(net, rank, n) && ListsLinks(net, n, ls) && VectorSoFar(net, rank, n, ls, val)
    ensures DrivenVector(net, rank, n) == if val == [] then Fill(Vz, net.width[n]) else val
    ensures val == [] || |val| == net.width[n]
  {
    if l :| SoleDriver(net, l, n) {
      assert l in ls && IsDriver(net, n, l);
    } else {
      forall l | l in ls
        ensures !IsDriver(net, n, l)
      {
        assert !SoleDriver(net, l, n);
      }
    }
  }

  // ---- The scan of DrivenValue ----

  /** A constant or a pull. */
  predicate IsDirect(net: Netlist, l: Link) {
    l.node in net.nodes && (net.nodes[l.node].kind.Const? || (net.nodes[l.node].kind.Signal? && IsPull(net.nodes[l.node].kind.sig)))
  }

  function DirectOf(net: Netlist, l: Link): V
    requires IsDirect(net, l)
  {
    match net.nodes[l.node].kind
    case Const(v) => BitAt(v, 0)
    case Signal(s) => PullValue(s)
    case _ => Vz
  }

  /** The value of the last constant or pull among the links. */
  function DirectValue(net: Netlist, ls: seq<Link>): V {
    if ls == [] then Vz
    else if IsDirect(net, ls[|ls| - 1]) then DirectOf(net, ls[|ls| - 1])
    else DirectValue(net, ls[..|ls| - 1])
  }

  ghost predicate SubstituteDriven(net: Netlist, n: NexusId) {
    exists l :: SubstituteAt(net, l, n)
  }

  lemma {:induction false} NoDirectIsZ(net: Netlist, ls: seq<Link>)
    requires forall l | l in ls :: !IsDirect(net, l)
    ensures DirectValue(net, ls) == Vz
  {
    if ls != [] {
      NoDirectIsZ(net, ls[..|ls| - 1]);
    }
  }

  lemma {:induction false} OneDirect(net: Netlist, ls: seq<Link>, l: Link)
    requires l in ls && IsDirect(net, l) && forall l' | l' in ls && IsDirect(net, l') :: l' == l
    ensures DirectValue(net, ls) == DirectOf(net, l)
  {
    if !IsDirect(net, ls[|ls| - 1]) {
      var init := ls[..|ls| - 1];
      var i :| 0 <= i < |ls| && ls[i] == l;
      assert init[i] == l;
      OneDirect(net, init, l);
    }
  }

  /** In a constant nexus no constant or pull comes before another. */
  lemma FirstDirect(net: Netlist, rank: NexusId -> nat, n: NexusId, ls: seq<Link>, i: nat)
    requires WellFormed(net) && Ranked(net, rank) && ConstantNexus(net, rank, n) && ListsLinks(net, n, ls)
    requires i < |ls| && IsDirect(net, ls[i])
    ensures DirectValue(net, ls[..i]) == Vz
  {
    forall l | l in ls[..i]
      ensures !IsDirect(net, l)
    {
      if IsDirect(net, l) {
        var j :| 0 <= j < i && ls[j] == l;
        assert ls[j] in ls && ls[i] in ls;
        DirectIsConstant(net, rank, n, ls[j]);
        DirectIsConstant(net, rank, n, ls[i]);
      }
    }
    NoDirectIsZ(net, ls[..i]);
  }

  lemma DirectIsConstant(net: Netlist, rank: NexusId -> nat, n: NexusId, l: Link)
    requires Ranked(net, rank) && ConstantNexus(net, rank, n) && IsLink(net, l, n) && IsDirect(net, l)
    ensures LinkRole(net, l, n, Constant)
  {
    assert !LinkRole(net, l, n, Variable);
  }

  lemma DirectValueRight(net: Netlist, rank: NexusId -> nat, n: NexusId, ls: seq<Link>)
    requires WellFormed(net) && Ranked(net, rank) && n in net.width && net.width[n] > 0
    requires ConstantNexus(net, rank, n) && ListsLinks(net, n, ls)
    ensures DirectValue(net, ls)
         == if SubstituteDriven(net, n) then Vz else BitAt(DrivenVector(net, rank, n), 0)
  {
    if l :| SoleDriver(net, l, n) {
      assert l in ls && LinkRole(net, l, n, Constant);
      SoleDriverVector(net, rank, l, n);
      forall l' | l' in ls && (IsDirect(net, l') || SubstituteAt(net, l', n))
        ensures l' == l
      {
        if IsDirect(net, l') {
          DirectIsConstant(net, rank, n, l');
        } else {
          assert LinkRole(net, l', n, Constant);
        }
      }
      if net.nodes[l.node].kind.Substitute? {
        assert SubstituteAt(net, l, n);
        NoDirectIsZ(net, ls);
      } else {
        OneDirect(net, ls, l);
      }
    } else {
      forall l | l in ls
        ensures !IsDirect(net, l) && !SubstituteAt(net, l, n)
      {
        assert !SoleDriver(net, l, n);
        if IsDirect(net, l) {
          DirectIsConstant(net, rank, n, l);
        }
      }
      NoDirectIsZ(net, ls);
    }
  }

  // ---- The scan of DriversConstant ----

  ghost predicate RoleIn(net: Netlist, l: Link, r: Role) {
    l.node in net.nodes && RoleOf(net.nodes[l.node].kind, l.pin) == r
  }

  /** Nothing variable was met, and the substitutions met read constant nexuses. */
  ghost predicate ScannedOk(net: Netlist, rank: NexusId -> nat, n: NexusId, ls: seq<Link>)
    requires Ranked(net, rank)
  {
    && (forall l | l in ls :: !RoleIn(net, l, Variable))
    && forall l | l in ls && SubstituteAt(net, l, n) ::
         && ConstantNexus(net, rank, net.nodes[l.node].pins[1])
         && ConstantNexus(net, rank, net.nodes[l.node].pins[2])
  }

  function Constants(net: Netlist, ls: seq<Link>): nat {
    if ls == [] then 0
    else Constants(net, ls[..|ls| - 1])
         + var l := ls[|ls| - 1];
           if l.node in net.nodes && RoleOf(net.nodes[l.node].kind, l.pin).Constant? then 1 else 0
  }

  /** What the scan makes of one link: nothing, a variable driver, or a constant one that
      may be a pull. */
  datatype Step = Skips | Varies | Counts(pull: Guess) | Operands

  /** The tests on one link, in the order of the scan; a substitution is left to be
      decided by its operands. */
  function Classify(k: Kind, pin: nat): Step {
    if k.Signal? && k.sig.lref > 0 then Varies
    else if k.Tran? then Varies
    else if PinDir(k, pin).Input? then Skips
    else if PinDir(k, pin).Passive? then
      if !k.Signal? || !k.sig.root then Skips
      else if k.sig.port.NotAPort? then Skips
      else if k.sig.port.POutput? then Skips
      else Varies
    else if k.Signal? && (k.sig.ty.Supply0? || k.sig.ty.Tri0?) then Counts(Known(V0))
    else if k.Signal? && (k.sig.ty.Supply1? || k.sig.ty.Tri1?) then Counts(Known(V1))
    else if k.Substitute? then Operands
    else if !k.Const? then Varies
    else Counts(NoGuess)
  }

  lemma ClassifyOk(net: Netlist, rank: NexusId -> nat, n: NexusId, l: Link)
    requires WellFormed(net) && Ranked(net, rank) && IsLink(net, l, n)
    ensures var step := Classify(net.nodes[l.node].kind, l.pin);
            && (step.Varies? ==> !ConstantNexus(net, rank, n))
            && (step.Skips? || step.Counts? ==> StepOk(net, rank, n, l, step))
            && (step.Operands? <==> SubstituteAt(net, l, n))
  {
    assert NodeOk(net.width, net.nodes[l.node]);
    if RoleIn(net, l, Variable) {
      assert LinkRole(net, l, n, Variable);
    }
  }

  ghost predicate StepOk(net: Netlist, rank: NexusId -> nat, n: NexusId, l: Link, step: Step)
    requires Ranked(net, rank)
  {
    && !RoleIn(net, l, Variable)
    && (step.Counts? <==> RoleIn(net, l, Constant))
    && (step.Counts? && step.pull.Known? ==> PullsTo(net, l, step.pull.v))
    && (step.Counts? ==> !step.pull.Var?)
    && (SubstituteAt(net, l, n) ==>
          && ConstantNexus(net, rank, net.nodes[l.node].pins[1])
          && ConstantNexus(net, rank, net.nodes[l.node].pins[2]))
  }

  lemma ScanStep(net: Netlist, rank: NexusId -> nat, n: NexusId, ls: seq<Link>, i: nat, step: Step)
    requires Ranked(net, rank) && i < |ls| && StepOk(net, rank, n, ls[i], step)
    requires ScannedOk(net, rank, n, ls[..i])
    ensures ScannedOk(net, rank, n, ls[..i + 1])
    ensures Constants(net, ls[..i + 1]) == Constants(net, ls[..i]) + if step.Counts? then 1 else 0
    ensures forall g | PullOk(net, ls[..i], g) :: PullOk(net, ls[..i + 1], g)
    ensures step.Counts? && step.pull.Known? ==> PullOk(net, ls[..i + 1], step.pull)
  {
    var next := ls[..i + 1];
    assert next[..i] == ls[..i] && next[i] == ls[i];
    forall l | l in next
      ensures l in ls[..i] || l == ls[i]
    {
      var j :| 0 <= j < |next| && next[j] == l;
      if j < i {
        assert l == ls[..i][j];
      }
    }
    forall l | l in ls[..i]
      ensures l in next
    {
      var j :| 0 <= j < i && ls[..i][j] == l;
      assert next[j] == l;
    }
  }

  /** Only a pull met in the scan sets a value. */
  ghost predicate PullOk(net: Netlist, ls: seq<Link>, g: Guess) {
    && !g.Var?
    && (g.Known? ==> exists l :: l in ls && PullsTo(net, l, g.v))
  }

  predicate PullsTo(net: Netlist, l: Link, v: V) {
    l.node in net.nodes && net.nodes[l.node].kind.Signal? && RoleOf(net.nodes[l.node].kind, l.pin).Constant?
    && PullValue(net.nodes[l.node].kind.sig) == v
  }

  lemma {:induction false} ConstantsApart(net: Netlist, ls: seq<Link>) returns (i: nat, j: nat)
    requires Constants(net, ls) > 1
    ensures i < j < |ls| && RoleIn(net, ls[i], Constant) && RoleIn(net, ls[j], Constant)
  {
    var init, last := ls[..|ls| - 1], ls[|ls| - 1];
    if Constants(net, init) > 1 {
      i, j := ConstantsApart(net, init);
    } else {
      i := SomeConstant(net, init);
      j := |ls| - 1;
    }
  }

  lemma {:induction false} SomeConstant(net: Netlist, ls: seq<Link>) returns (i: nat)
    requires Constants(net, ls) > 0
    ensures i < |ls| && RoleIn(net, ls[i], Constant)
  {
    if RoleIn(net, ls[|ls| - 1], Constant) {
      i := |ls| - 1;
    } else {
      i := SomeConstant(net, ls[..|ls| - 1]);
    }
  }

  lemma {:induction false} ConstantsBound(net: Netlist, ls: seq<Link>, i: nat, j: nat)
    requires i <= j < |ls| && RoleIn(net, ls[i], Constant) && RoleIn(net, ls[j], Constant)
    ensures Constants(net, ls) >= if i < j then 2 else 1
  {
    var init := ls[..|ls| - 1];
    if j < |ls| - 1 {
      ConstantsBound(net, init, i, j);
    } else if i < j {
      ConstantsBound(net, init, i, i);
    }
  }

  /** All links of n, each once. */
  ghost predicate ListsLinks(net: Netlist, n: NexusId, ls: seq<Link>) {
    NoDup(ls) && forall l :: l in ls <==> IsLink(net, l, n)
  }

  lemma TooManyDrivers(net: Netlist, rank: NexusId -> nat, n: NexusId, ls: seq<Link>)
    requires Ranked(net, rank) && ListsLinks(net, n, ls) && Constants(net, ls) > 1
    ensures !ConstantNexus(net, rank, n)
  {
    var i, j := ConstantsApart(net, ls);
    assert ls[i] in ls && ls[j] in ls;
    assert LinkRole(net, ls[i], n, Constant) && LinkRole(net, ls[j], n, Constant);
  }

  lemma ScanProves(net: Netlist, rank: NexusId -> nat, n: NexusId, ls: seq<Link>, g: Guess)
    requires WellFormed(net) && Ranked(net, rank) && ListsLinks(net, n, ls)
    requires n in net.width && net.width[n] > 0
    requires ScannedOk(net, rank, n, ls) && Constants(net, ls) <= 1 && PullOk(net, ls, g)
    ensures ConstantNexus(net, rank, n) && GuessRight(net, rank, n, g)
  {
    ScanConstant(net, rank, n, ls);
    if g.Known? {
      PullProves(net, rank, n, ls, g.v);
    }
  }

  lemma ScanConstant(net: Netlist, rank: NexusId -> nat, n: NexusId, ls: seq<Link>)
    requires Ranked(net, rank) && ListsLinks(net, n, ls)
    requires ScannedOk(net, rank, n, ls) && Constants(net, ls) <= 1
    ensures ConstantNexus(net, rank, n)
  {
    forall l
      ensures !LinkRole(net, l, n, Variable)
    {
      if IsLink(net, l, n) {
        assert l in ls;
        assert !RoleIn(net, l, Variable);
      }
    }
    forall l, l' | LinkRole(net, l, n, Constant) && LinkRole(net, l', n, Constant)
      ensures l == l'
    {
      assert l in ls && l' in ls;
      var i, j :| 0 <= i < |ls| && 0 <= j < |ls| && ls[i] == l && ls[j] == l';
      if i < j {
        ConstantsBound(net, ls, i, j);
      } else if j < i {
        ConstantsBound(net, ls, j, i);
      }
    }
    forall l | SubstituteAt(net, l, n)
      ensures ConstantNexus(net, rank, net.nodes[l.node].pins[1]) && ConstantNexus(net, rank, net.nodes[l.node].pins[2])
    {
      assert l in ls;
    }
  }

  lemma PullProves(net: Netlist, rank: NexusId -> nat, n: NexusId, ls: seq<Link>, v: V)
    requires WellFormed(net) && Ranked(net, rank) && n in net.width && net.width[n] > 0
    requires ListsLinks(net, n, ls) && ConstantNexus(net, rank, n)
    requires exists l :: l in ls && PullsTo(net, l, v)
    ensures BitAt(DrivenVector(net, rank, n), 0) == v
  {
    var l :| l in ls && PullsTo(net, l, v);
    assert LinkRole(net, l, n, Constant) && SoleDriver(net, l, n);
    SoleDriverVector(net, rank, l, n);
  }
}
