/** Which way the part selects of a continuous l-value lead, and that no bit has two drivers. */
module LvalFlow {
  import opened FourState
  import opened ConcatLval

  /** A bit of a signal. */
  datatype Bit = Bit(sig: nat, at: nat)

  /** A part select hands the bit on: VP from the whole to the part, PV from the part to the
      whole, and a switch both ways. */
  predicate Moves(p: PartSelect, a: Bit, b: Bit) {
    || (!p.dir.PV? && a.sig == p.whole && b.sig == p.part && b.at < p.width && a.at == p.off + b.at)
    || (!p.dir.VP? && a.sig == p.part && b.sig == p.whole && a.at < p.width && b.at == p.off + a.at)
  }

  ghost predicate Flows(selects: seq<PartSelect>, a: Bit, b: Bit, steps: nat)
    decreases steps
  {
    if steps == 0 then a == b
    else exists p, c :: p in selects && Moves(p, a, c) && Flows(selects, c, b, steps - 1)
  }

  ghost predicate Reaches(selects: seq<PartSelect>, a: Bit, b: Bit) {
    exists steps :: Flows(selects, a, b, steps)
  }

  lemma {:induction false} FlowsOn(selects: seq<PartSelect>, a: Bit, b: Bit, c: Bit, m: nat, n: nat)
    requires Flows(selects, a, b, m) && Flows(selects, b, c, n)
    ensures Flows(selects, a, c, m + n)
    decreases m
  {
    if m > 0 {
      var p, d :| p in selects && Moves(p, a, d) && Flows(selects, d, b, m - 1);
      FlowsOn(selects, d, b, c, m - 1, n);
    }
  }

  lemma ReachesOn(selects: seq<PartSelect>, a: Bit, b: Bit, c: Bit)
    requires Reaches(selects, a, b) && Reaches(selects, b, c)
    ensures Reaches(selects, a, c)
  {
    var m :| Flows(selects, a, b, m);
    var n :| Flows(selects, b, c, n);
    FlowsOn(selects, a, b, c, m, n);
  }

  lemma MoveReaches(selects: seq<PartSelect>, p: PartSelect, a: Bit, b: Bit)
    requires p in selects && Moves(p, a, b)
    ensures Reaches(selects, a, b)
  {
    assert Flows(selects, b, b, 0);
    assert Flows(selects, a, b, 1);
  }

  /** From a to b, or back. */
  ghost predicate Leads(selects: seq<PartSelect>, a: Bit, b: Bit, back: bool) {
    if back then Reaches(selects, b, a) else Reaches(selects, a, b)
  }

  lemma LeadsOn(selects: seq<PartSelect>, a: Bit, b: Bit, c: Bit, back: bool)
    requires Leads(selects, a, b, back) && Leads(selects, b, c, back)
    ensures Leads(selects, a, c, back)
  {
    if back {
      ReachesOn(selects, c, b, a);
    } else {
      ReachesOn(selects, a, b, c);
    }
  }

  /** Each leaf of a concatenation with the offset of its share in the value from `off` on, the
      least significant leaf first. */
  function Places(e: LVal, off: nat): seq<(Slice, nat)> {
    match e
    case Absent => []
    case Failing(_) => []
    case Leaf(at, _, _) => [(at, off)]
    case Concat(_, parts) => PlacesAll(parts, off)
  }

  function PlacesAll(parts: seq<LVal>, off: nat): seq<(Slice, nat)> {
    if parts == [] then []
    else
      var last := parts[|parts| - 1];
      Places(last, off) + PlacesAll(parts[..|parts| - 1], off + Width(last))
  }

  /** The share that begins at an offset of v. */
  function ShareAt(v: Vec, place: (Slice, nat)): (Slice, Vec) {
    (place.0, if place.1 + place.0.width <= |v| then v[place.1..place.1 + place.0.width] else [])
  }

  predicate SharesOf(shares: seq<(Slice, Vec)>, places: seq<(Slice, nat)>, v: Vec) {
    |shares| == |places| && forall k | 0 <= k < |shares| :: shares[k] == ShareAt(v, places[k])
  }

  /** The places are those of the standard's shares. */
  lemma {:induction false} PlacesAreShares(e: LVal, v: Vec, off: nat)
    requires off + Width(e) <= |v|
    ensures SharesOf(Shares(e, v[off..off + Width(e)]), Places(e, off), v)
  {
    match e
    case Absent =>
    case Failing(_) =>
    case Leaf(_, _, _) =>
    case Concat(_, parts) => PlacesAreSharesAll(parts, v, off);
  }

  lemma {:induction false} PlacesAreSharesAll(parts: seq<LVal>, v: Vec, off: nat)
    requires off + WidthAll(parts) <= |v|
    ensures SharesOf(SharesAll(parts, v[off..off + WidthAll(parts)]), PlacesAll(parts, off), v)
  {
    if parts != [] {
      var last, init := parts[|parts| - 1], parts[..|parts| - 1];
      PlacesAreShares(last, v, off);
      PlacesAreSharesAll(init, v, off + Width(last));
      var mid, end := off + Width(last), off + WidthAll(parts);
      SliceJoin(v, off, mid, end);
      PlacesOfParts(parts, v[off..mid], v[mid..end], v, off);
    }
  }

  lemma SliceJoin(v: Vec, a: nat, b: nat, c: nat)
    requires a <= b <= c <= |v|
    ensures v[a..c] == v[a..b] + v[b..c] && |v[a..b]| == b - a && |v[b..c]| == c - b
  {
  }

  lemma PlacesOfParts(parts: seq<LVal>, x: Vec, y: Vec, v: Vec, off: nat)
    requires parts != []
    requires var last, init := parts[|parts| - 1], parts[..|parts| - 1];
             && |x| == Width(last) && |y| == WidthAll(init)
             && SharesOf(Shares(last, x), Places(last, off), v) && SharesOf(SharesAll(init, y), PlacesAll(init, off + |x|), v)
    ensures |x + y| == WidthAll(parts) && SharesOf(SharesAll(parts, x + y), PlacesAll(parts, off), v)
  {
    var last, init := parts[|parts| - 1], parts[..|parts| - 1];
    SharesOfParts(parts, x, y);
    SharesAppend(Shares(last, x), Places(last, off), SharesAll(init, y), PlacesAll(init, off + |x|), v);
  }

  lemma SharesOfParts(parts: seq<LVal>, x: Vec, y: Vec)
    requires parts != [] && |x| == Width(parts[|parts| - 1]) && |y| == WidthAll(parts[..|parts| - 1])
    ensures |x + y| == WidthAll(parts)
    ensures SharesAll(parts, x + y) == Shares(parts[|parts| - 1], x) + SharesAll(parts[..|parts| - 1], y)
  {
    assert (x + y)[..|x|] == x && (x + y)[|x|..] == y;
  }

  lemma SharesAppend(a: seq<(Slice, Vec)>, p: seq<(Slice, nat)>, b: seq<(Slice, Vec)>, q: seq<(Slice, nat)>, v: Vec)
    requires SharesOf(a, p, v) && SharesOf(b, q, v)
    ensures SharesOf(a + b, p + q, v)
  {
  }

  // ---- Delivery ----

  function BitOf(at: Slice, j: nat): Bit {
    Bit(at.sig, at.base + j)
  }

  /** The bits of one slice lead to those of another, or back. */
  ghost predicate SliceLeads(selects: seq<PartSelect>, from: Slice, to: Slice, back: bool) {
    from.width == to.width && forall j: nat | j < to.width :: Leads(selects, BitOf(from, j), BitOf(to, j), back)
  }

  /** The bits of a net lead to the leaf at its place. */
  ghost predicate LeadsTo(selects: seq<PartSelect>, net: nat, place: (Slice, nat), back: bool) {
    SliceLeads(selects, Slice(net, place.1, place.0.width), place.0, back)
  }

  /** The w bits of `root` from `off` on lead to those of `net`. */
  ghost predicate Feeds(selects: seq<PartSelect>, root: nat, off: nat, net: nat, w: nat, back: bool) {
    SliceLeads(selects, Slice(root, off, w), Slice(net, 0, w), back)
  }

  lemma SelfFeeds(selects: seq<PartSelect>, net: nat, w: nat, back: bool)
    ensures Feeds(selects, net, 0, net, w, back)
  {
    var at := Slice(net, 0, w);
    forall j: nat | j < w ensures Leads(selects, BitOf(at, j), BitOf(at, j), back) {
      assert Flows(selects, BitOf(at, j), BitOf(at, j), 0);
    }
  }

  /** A part select leads from some bits of a net on to its part. */
  lemma PartFeeds(selects: seq<PartSelect>, root: nat, off: nat, net: nat, w: nat, p: PartSelect, back: bool)
    requires Feeds(selects, root, off, net, w, back) && p in selects && p.whole == net && p.off + p.width <= w
    requires p.dir.VP? || p.dir.Tran?
    requires back ==> p.dir.Tran?
    ensures Feeds(selects, root, off + p.off, p.part, p.width, back)
  {
    var from, mid, to := Slice(root, off, w), Slice(net, 0, w), Slice(p.part, 0, p.width);
    forall j: nat | j < p.width ensures Leads(selects, BitOf(Slice(root, off + p.off, p.width), j), BitOf(to, j), back) {
      var a, b, c := BitOf(from, p.off + j), BitOf(mid, p.off + j), BitOf(to, j);
      if back {
        MoveReaches(selects, p, c, b);
      } else {
        MoveReaches(selects, p, b, c);
      }
      LeadsOn(selects, a, b, c, back);
    }
  }

  ghost predicate AllLed(selects: seq<PartSelect>, net: nat, places: seq<(Slice, nat)>, back: bool) {
    forall k | 0 <= k < |places| :: LeadsTo(selects, net, places[k], back)
  }

  lemma AllLedAppend(selects: seq<PartSelect>, net: nat, a: seq<(Slice, nat)>, b: seq<(Slice, nat)>, back: bool)
    requires AllLed(selects, net, a, back) && AllLed(selects, net, b, back)
    ensures AllLed(selects, net, a + b, back)
  {
  }

  lemma LeafFed(e: LVal, net: nat, root: nat, off: nat, selects: seq<PartSelect>, widths: seq<nat>,
                bidirectional: bool, back: bool)
    requires e.Leaf? && Fits(e, widths) && Wired(e, net, selects, widths, bidirectional) && (back ==> bidirectional)
    requires Feeds(selects, root, off, net, e.at.width, back)
    ensures LeadsTo(selects, root, (e.at, off), back)
  {
    var at := e.at;
    if at.width < widths[at.sig] {
      var p := PartSelect(Dir(bidirectional, PV), at.sig, at.base, at.width, net);
      var from, mid := Slice(root, off, at.width), Slice(net, 0, at.width);
      forall j: nat | j < at.width ensures Leads(selects, BitOf(from, j), BitOf(at, j), back) {
        var b, c := BitOf(mid, j), BitOf(at, j);
        if back {
          MoveReaches(selects, p, c, b);
        } else {
          MoveReaches(selects, p, b, c);
        }
        LeadsOn(selects, BitOf(from, j), b, c, back);
      }
    }
  }

  /** The part selects lead every bit of the net to the bit of the leaf whose share it is in;
      switches lead back as well. */
  lemma {:induction false} NetLeads(e: LVal, net: nat, root: nat, off: nat, selects: seq<PartSelect>, widths: seq<nat>,
                                    bidirectional: bool, back: bool)
    requires Fits(e, widths) && Wired(e, net, selects, widths, bidirectional) && (back ==> bidirectional)
    requires Feeds(selects, root, off, net, Width(e), back)
    ensures AllLed(selects, root, Places(e, off), back)
    decreases e, 0
  {
    if e.Leaf? {
      LeafFed(e, net, root, off, selects, widths, bidirectional, back);
    } else {
      var nets :| WiredAll(e, nets, net, selects, widths, bidirectional);
      WholePrefix(e.parts);
      PartsLead(e, nets, net, root, off, selects, widths, bidirectional, back, |e.parts|);
      assert OffsetOf(e.parts, |e.parts|) == 0;
    }
  }

  /** The offset of operand k - 1: the width of all later ones. */
  function OffsetOf(parts: seq<LVal>, k: nat): nat
    requires k <= |parts|
  {
    if WidthAll(parts[..k]) <= WidthAll(parts) then WidthAll(parts) - WidthAll(parts[..k]) else 0
  }

  lemma OffsetsOf(parts: seq<LVal>, k: nat)
    requires k < |parts|
    ensures OffsetOf(parts, k) == OffsetOf(parts, k + 1) + Width(parts[k]) <= WidthAll(parts)
  {
    OffsetStep(parts, k);
  }

  lemma {:induction false} PartsLead(e: LVal, nets: seq<nat>, net: nat, root: nat, off: nat,
                                     selects: seq<PartSelect>, widths: seq<nat>, bidirectional: bool, back: bool, k: nat)
    requires e.Concat? && Fits(e, widths) && WiredAll(e, nets, net, selects, widths, bidirectional) && (back ==> bidirectional)
    requires Feeds(selects, root, off, net, Width(e), back) && k <= |e.parts|
    ensures AllLed(selects, root, PlacesAll(e.parts[..k], off + OffsetOf(e.parts, k)), back)
    decreases e, 0, k
  {
    if k > 0 {
      var part, from := e.parts[k - 1], off + OffsetOf(e.parts, k);
      OffsetsOf(e.parts, k - 1);
      OperandFed(e, nets, net, root, off, selects, widths, bidirectional, back, k - 1);
      NetLeads(part, nets[k - 1], root, from, selects, widths, bidirectional, back);
      PartsLead(e, nets, net, root, off, selects, widths, bidirectional, back, k - 1);
      PlacesOfPrefix(e.parts, k, from);
      AllLedAppend(selects, root, Places(part, from), PlacesAll(e.parts[..k - 1], from + Width(part)), back);
    }
  }

  lemma OperandFed(e: LVal, nets: seq<nat>, net: nat, root: nat, off: nat,
                   selects: seq<PartSelect>, widths: seq<nat>, bidirectional: bool, back: bool, k: nat)
    requires e.Concat? && Fits(e, widths) && WiredAll(e, nets, net, selects, widths, bidirectional) && (back ==> bidirectional)
    requires Feeds(selects, root, off, net, Width(e), back) && k < |e.parts|
    ensures Feeds(selects, root, off + OffsetOf(e.parts, k + 1), nets[k], Width(e.parts[k]), back)
    ensures Wired(e.parts[k], nets[k], selects, widths, bidirectional)
  {
    OffsetsOf(e.parts, k);
    var p := SelectOf(Dir(bidirectional, VP), e.parts, nets, net, k);
    PartFeeds(selects, root, off, net, Width(e), p, back);
  }

  lemma PlacesOfPrefix(parts: seq<LVal>, k: nat, off: nat)
    requires 0 < k <= |parts|
    ensures PlacesAll(parts[..k], off) == Places(parts[k - 1], off) + PlacesAll(parts[..k - 1], off + Width(parts[k - 1]))
  {
    assert parts[..k][..k - 1] == parts[..k - 1];
  }

  /** What elaboration gives: every bit of the net leads to its leaf, whatever the nesting, and
      in a bidirectional connection every bit of a leaf back to the net. */
  lemma LnetDelivers(e: LVal, net: nat, selects: seq<PartSelect>, widths: seq<nat>, bidirectional: bool)
    requires Fits(e, widths) && Wired(e, net, selects, widths, bidirectional)
    ensures AllLed(selects, net, Places(e, 0), false)
    ensures bidirectional ==> AllLed(selects, net, Places(e, 0), true)
  {
    SelfFeeds(selects, net, Width(e), false);
    NetLeads(e, net, net, 0, selects, widths, bidirectional, false);
    if bidirectional {
      SelfFeeds(selects, net, Width(e), true);
      NetLeads(e, net, net, 0, selects, widths, bidirectional, true);
    }
  }

  // ---- Single drivers ----

  predicate PairwiseApart(slices: seq<Slice>) {
    forall i, j | 0 <= i < j < |slices| :: Apart(slices[i], slices[j])
  }

  lemma TwiceMeansTwo<T>(s: seq<T>, x: T)
    requires multiset(s)[x] >= 2
    ensures exists i, j :: 0 <= i < j < |s| && s[i] == x && s[j] == x
  {
    var n := |s| - 1;
    assert s == s[..n] + [s[n]];
    if s[n] == x {
      assert x in multiset(s[..n]);
      var i :| 0 <= i < n && s[..n][i] == x;
      assert s[i] == x;
    } else {
      assert multiset(s[..n])[x] >= 2;
      TwiceMeansTwo(s[..n], x);
      var i, j :| 0 <= i < j < n && s[..n][i] == x && s[..n][j] == x;
      assert s[i] == x && s[j] == x;
    }
  }

  /** What is among slices that are apart, no more often than there, is apart. */
  lemma SomeApart(some: seq<Slice>, all: seq<Slice>)
    requires PairwiseApart(all) && multiset(some) <= multiset(all)
    ensures PairwiseApart(some)
  {
    forall i, j | 0 <= i < j < |some| ensures Apart(some[i], some[j]) {
      TwoApart(some, all, i, j);
    }
  }

  lemma TwoApart(some: seq<Slice>, all: seq<Slice>, i: nat, j: nat)
    requires PairwiseApart(all) && multiset(some) <= multiset(all) && i < j < |some|
    ensures Apart(some[i], some[j])
  {
    if some[i] == some[j] {
      TwoMeansTwice(some, i, j);
      TwiceMeansTwo(all, some[i]);
      var k, l :| 0 <= k < l < |all| && all[k] == some[i] && all[l] == some[i];
      assert Apart(all[k], all[l]);
    } else {
      assert some[i] in multiset(some) && some[j] in multiset(some);
      assert some[i] in multiset(all) && some[j] in multiset(all);
      var k :| 0 <= k < |all| && all[k] == some[i];
      var l :| 0 <= l < |all| && all[l] == some[j];
      if k < l {
        assert Apart(all[k], all[l]);
      } else {
        assert Apart(all[l], all[k]);
      }
    }
  }

  lemma TwoMeansTwice<T>(s: seq<T>, i: nat, j: nat)
    requires i < j < |s| && s[i] == s[j]
    ensures multiset(s)[s[i]] >= 2
  {
    assert s == s[..j] + s[j..] && s[..j][i] == s[i] && s[j..][0] == s[j];
    assert s[i] in multiset(s[..j]) && s[i] in multiset(s[j..]);
  }

  /** The leaves are slices of signals below `from`. */
  predicate LeavesBelow(e: LVal, from: nat) {
    forall at | at in Leaves(e) :: at.sig < from
  }

  lemma {:induction false} FitsBelow(e: LVal, widths: seq<nat>)
    requires Fits(e, widths)
    ensures LeavesBelow(e, |widths|)
  {
    match e
    case Absent =>
    case Failing(_) =>
    case Leaf(_, _, _) =>
    case Concat(_, parts) => FitsBelowAll(parts, widths);
  }

  lemma {:induction false} FitsBelowAll(parts: seq<LVal>, widths: seq<nat>)
    requires forall p | p in parts :: Fits(p, widths)
    ensures forall at | at in LeavesAll(parts) :: at.sig < |widths|
  {
    if parts != [] {
      FitsBelow(parts[|parts| - 1], widths);
      FitsBelowAll(parts[..|parts| - 1], widths);
    }
  }

  lemma NewApart(from: nat, widths: seq<nat>, leaves: seq<Slice>)
    requires from <= |widths| && PairwiseApart(leaves) && forall at | at in leaves :: at.sig < from
    ensures PairwiseApart(leaves + NewSignals(from, widths))
  {
    var all := leaves + NewSignals(from, widths);
    forall i, j | 0 <= i < j < |all| ensures Apart(all[i], all[j]) {
      if i < |leaves| {
        assert all[i] in leaves;
      }
      if j < |leaves| {
        assert Apart(leaves[i], leaves[j]);
      } else {
        assert all[j].sig == from + (j - |leaves|);
      }
    }
  }

  /** In one direction, no part select drives the net, every leaf is driven as often as it is
      listed, and no bit has two drivers unless the leaves overlap. */
  lemma SingleDrivers(e: LVal, net: nat, added: seq<PartSelect>, widths: seq<nat>, widths': seq<nat>)
    requires Fits(e, widths) && Directed(e, net, added, |widths|, widths', false) && net >= |widths|
    ensures forall p | p in added :: !p.dir.Tran? && Driven(p).sig != net
    ensures forall at | at in Leaves(e) :: multiset(AllDriven(added))[at] == multiset(Leaves(e))[at]
    ensures PairwiseApart(Leaves(e)) ==> PairwiseApart(AllDriven(added))
  {
    FitsBelow(e, widths);
    var leaves, new_, drv := Leaves(e), NewSignals(|widths|, widths'), AllDriven(added);
    assert multiset(leaves + new_) == multiset(leaves) + multiset(new_);
    if PairwiseApart(leaves) {
      NewApart(|widths|, widths', leaves);
      SomeApart(drv, leaves + new_);
    }
    forall at | at in leaves ensures multiset(drv)[at] == multiset(leaves)[at] {
      LeafDriven(e, net, added, |widths|, widths', at);
    }
    forall p | p in added ensures Driven(p).sig != net {
      NetNotDriven(e, net, added, widths, widths', p);
    }
  }

  lemma LeafDriven(e: LVal, net: nat, added: seq<PartSelect>, from: nat, widths: seq<nat>, at: Slice)
    requires LeavesBelow(e, from) && Supplies(e, net, added, from, widths) && net >= from && at in Leaves(e)
    ensures multiset(AllDriven(added))[at] == multiset(Leaves(e))[at]
  {
    var new_ := NewSignals(from, widths);
    assert at !in new_;
    assert multiset(new_)[at] == 0 && multiset{Slice(net, 0, widths[net])}[at] == 0;
    assert (multiset(AllDriven(added)) + multiset{Slice(net, 0, widths[net])})[at] == multiset(AllDriven(added))[at];
  }

  lemma NetNotDriven(e: LVal, net: nat, added: seq<PartSelect>, widths: seq<nat>, widths': seq<nat>, p: PartSelect)
    requires LeavesBelow(e, |widths|) && Supplies(e, net, added, |widths|, widths') && net >= |widths| && p in added
    ensures Driven(p).sig != net
  {
    var leaves, new_, d := Leaves(e), NewSignals(|widths|, widths'), Driven(p);
    var k :| 0 <= k < |added| && added[k] == p;
    assert AllDriven(added)[k] == d;
    if d.sig == net {
      assert d !in leaves;
      assert d in multiset(leaves) + multiset(new_);
      assert d in new_;
      assert d == Slice(net, 0, widths'[net]);
      assert multiset(new_)[d] >= 2;
      TwiceMeansTwo(new_, d);
    }
  }
}
