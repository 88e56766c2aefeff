/** Merging the part-select drivers of one nexus into a single concatenation. */
module PartMerge {
  import opened FourState
  import opened Netlists
  import opened Rewrites
  import opened LinkConst

  predicate IsPart(net: Netlist, id: NodeId, target: NexusId) {
    && id in net.nodes && net.nodes[id].kind.PartPV? && |net.nodes[id].pins| == 2
    && net.nodes[id].pins[1] == target
  }

  predicate AllParts(net: Netlist, parts: seq<NodeId>, target: NexusId) {
    forall i | 0 <= i < |parts| :: IsPart(net, parts[i], target)
  }

  function Base(net: Netlist, id: NodeId): nat
    requires id in net.nodes && net.nodes[id].kind.PartPV?
  {
    net.nodes[id].kind.base
  }

  function Top(net: Netlist, id: NodeId): nat
    requires id in net.nodes && net.nodes[id].kind.PartPV?
  {
    net.nodes[id].kind.base + net.nodes[id].kind.pvWidth
  }

  function Source(net: Netlist, id: NodeId): NexusId
    requires id in net.nodes && |net.nodes[id].pins| == 2
  {
    net.nodes[id].pins[0]
  }

  // ---- The checks: adjacent order implies disjointness ----

  predicate NoAdjacentOverlap(net: Netlist, parts: seq<NodeId>, target: NexusId)
    requires AllParts(net, parts, target)
  {
    forall i | 0 < i < |parts| :: Top(net, parts[i - 1]) <= Base(net, parts[i])
  }

  /** Parts that do not overlap their neighbours do not overlap at all: an earlier part
      ends before a later one begins ... */
  lemma {:induction false} AdjacentImpliesDisjoint(net: Netlist, parts: seq<NodeId>, target: NexusId, i: nat, j: nat)
    requires AllParts(net, parts, target) && NoAdjacentOverlap(net, parts, target)
    requires i < j < |parts|
    ensures Top(net, parts[i]) <= Base(net, parts[j])
    decreases j
  {
    if i < j - 1 {
      AdjacentImpliesDisjoint(net, parts, target, i, j - 1);
    }
  }

  /** ... and if the last one fits the target, so do all. */
  lemma TailBoundsAll(net: Netlist, parts: seq<NodeId>, target: NexusId, width: nat)
    requires AllParts(net, parts, target) && NoAdjacentOverlap(net, parts, target)
    requires |parts| > 0 && Top(net, parts[|parts| - 1]) <= width
    ensures forall i | 0 <= i < |parts| :: Top(net, parts[i]) <= width
  {
    forall i | 0 <= i < |parts|
      ensures Top(net, parts[i]) <= width
    {
      if i < |parts| - 1 {
        AdjacentImpliesDisjoint(net, parts, target, i, |parts| - 1);
      }
    }
  }

  // ---- The concatenation that covers the target ----

  /** A nexus that nothing drives but a constant z. */
  ghost predicate FloatsAt(net: Netlist, rank: NexusId -> nat, n: NexusId, width: nat)
    requires WellFormed(net) && Ranked(net, rank)
  {
    && n in net.width && net.width[n] == width && ConstantNexus(net, rank, n)
    && DrivenVector(net, rank, n) == Fill(Vz, width)
  }

  /** `pins` lists, from bit `off` to bit `width`, the sources of the parts in order, with a
      floating nexus for each stretch that no part drives. */
  ghost predicate Covers(net: Netlist, rank: NexusId -> nat, parts: seq<NodeId>, target: NexusId,
                         pins: seq<NexusId>, off: nat, width: nat)
    requires WellFormed(net) && Ranked(net, rank) && AllParts(net, parts, target)
    decreases |pins|
  {
    if pins == [] then
      parts == [] && off == width
    else if parts == [] then
      off < width && FloatsAt(net, rank, pins[0], width - off) && Covers(net, rank, parts, target, pins[1..], width, width)
    else if Base(net, parts[0]) > off then
      && FloatsAt(net, rank, pins[0], Base(net, parts[0]) - off)
      && Covers(net, rank, parts, target, pins[1..], Base(net, parts[0]), width)
    else
      && Base(net, parts[0]) == off
      && pins[0] == Source(net, parts[0])
      && Covers(net, rank, parts[1..], target, pins[1..], Top(net, parts[0]), width)
  }

  lemma {:induction false} CoversWidth(net: Netlist, rank: NexusId -> nat, parts: seq<NodeId>, target: NexusId,
                                       pins: seq<NexusId>, off: nat, width: nat)
    requires WellFormed(net) && Ranked(net, rank) && AllParts(net, parts, target)
    requires Covers(net, rank, parts, target, pins, off, width)
    ensures forall i | 0 <= i < |pins| :: pins[i] in net.width
    ensures off + SumWidths(net.width, pins) == width
    ensures off <= width
    decreases |pins|
  {
    if pins == [] {
    } else if parts == [] {
      CoversWidth(net, rank, parts, target, pins[1..], width, width);
    } else if Base(net, parts[0]) > off {
      CoversWidth(net, rank, parts, target, pins[1..], Base(net, parts[0]), width);
    } else {
      assert NodeOk(net.width, net.nodes[parts[0]]);
      CoversWidth(net, rank, parts[1..], target, pins[1..], Top(net, parts[0]), width);
    }
  }

  /** Part `id` drives bit b of the target, with the value v. */
  predicate PartDrives(net: Netlist, val: Valuation, id: NodeId, b: nat, v: V) {
    && id in net.nodes && net.nodes[id].kind.PartPV? && |net.nodes[id].pins| == 2
    && Base(net, id) <= b < Top(net, id)
    && Source(net, id) in val && b - Base(net, id) < |val[Source(net, id)]|
    && val[Source(net, id)][b - Base(net, id)] == v
  }

  /** The value of the floating pins in a settled state. */
  ghost predicate FloatsRead(net: Netlist, rank: NexusId -> nat, val: Valuation)
    requires WellFormed(net) && Ranked(net, rank)
  {
    forall n, w: nat {:trigger FloatsAt(net, rank, n, w)} | FloatsAt(net, rank, n, w) :: n in val && val[n] == Fill(Vz, w)
  }

  /** Bit b of the concatenation is what the part that covers b drives there ... */
  lemma {:induction false} CoversPart(net: Netlist, rank: NexusId -> nat, parts: seq<NodeId>, target: NexusId,
                                      pins: seq<NexusId>, off: nat, width: nat, val: Valuation, i: nat, b: nat, v: V)
    requires WellFormed(net) && Ranked(net, rank) && AllParts(net, parts, target)
    requires Fits(net.width, val) && FloatsRead(net, rank, val)
    requires Covers(net, rank, parts, target, pins, off, width)
    requires i < |parts| && PartDrives(net, val, parts[i], b, v)
    ensures forall i | 0 <= i < |pins| :: pins[i] in val
    ensures off <= b < off + |ConcatVec(val, pins)| && ConcatVec(val, pins)[b - off] == v
    decreases |pins|
  {
    CoversWidth(net, rank, parts, target, pins, off, width);
    if Base(net, parts[0]) > off {
      CoversPart(net, rank, parts, target, pins[1..], Base(net, parts[0]), width, val, i, b, v);
      assert |val[pins[0]]| == Base(net, parts[0]) - off;
    } else {
      SourceWidth(net, parts, target, val);
      if i > 0 {
        CoversPart(net, rank, parts[1..], target, pins[1..], Top(net, parts[0]), width, val, i - 1, b, v);
      }
    }
  }

  lemma SourceWidth(net: Netlist, parts: seq<NodeId>, target: NexusId, val: Valuation)
    requires WellFormed(net) && AllParts(net, parts, target) && parts != [] && Fits(net.width, val)
    ensures Source(net, parts[0]) in val && |val[Source(net, parts[0])]| == Top(net, parts[0]) - Base(net, parts[0])
  {
    assert NodeOk(net.width, net.nodes[parts[0]]);
  }

  /** ... and z where no part does. */
  lemma {:induction false} CoversGap(net: Netlist, rank: NexusId -> nat, parts: seq<NodeId>, target: NexusId,
                                     pins: seq<NexusId>, off: nat, width: nat, val: Valuation, b: nat)
      returns (i: nat)
    requires WellFormed(net) && Ranked(net, rank) && AllParts(net, parts, target)
    requires Fits(net.width, val) && FloatsRead(net, rank, val)
    requires Covers(net, rank, parts, target, pins, off, width)
    requires forall i | 0 <= i < |pins| :: pins[i] in val
    requires off <= b < off + |ConcatVec(val, pins)| && ConcatVec(val, pins)[b - off] != Vz
    ensures i < |parts| && PartDrives(net, val, parts[i], b, ConcatVec(val, pins)[b - off])
    decreases |pins|
  {
    i := 0;
    if parts == [] {
      assert false;
    } else if Base(net, parts[0]) > off {
      assert |val[pins[0]]| == Base(net, parts[0]) - off;
      i := CoversGap(net, rank, parts, target, pins[1..], Base(net, parts[0]), width, val, b);
    } else {
      assert NodeOk(net.width, net.nodes[parts[0]]);
      if b >= Top(net, parts[0]) {
        i := CoversGap(net, rank, parts[1..], target, pins[1..], Top(net, parts[0]), width, val, b);
        i := i + 1;
      }
    }
  }

  // ---- Laying out the pins ----

  /** The pins of the concatenation, from bit `off` on; the floating nexuses are numbered
      from `next`. */
  function LayoutPins(net: Netlist, parts: seq<NodeId>, target: NexusId, off: nat, width: nat, next: NexusId): seq<NexusId>
    requires AllParts(net, parts, target)
  {
    if parts == [] then
      if off < width then [next] else []
    else if Base(net, parts[0]) > off then
      [next, Source(net, parts[0])]
      + LayoutPins(net, parts[1..], target, Top(net, parts[0]), width, next + 1)
    else
      [Source(net, parts[0])]
      + LayoutPins(net, parts[1..], target, off + net.nodes[parts[0]].kind.pvWidth, width, next)
  }

  /** The widths of the floating nexuses, in order. */
  function LayoutGaps(net: Netlist, parts: seq<NodeId>, target: NexusId, off: nat, width: nat): seq<nat>
    requires AllParts(net, parts, target)
  {
    if parts == [] then
      if off < width then [width - off] else []
    else if Base(net, parts[0]) > off then
      [Base(net, parts[0]) - off] + LayoutGaps(net, parts[1..], target, Top(net, parts[0]), width)
    else
      LayoutGaps(net, parts[1..], target, off + net.nodes[parts[0]].kind.pvWidth, width)
  }

  /** The numbering of the floating nexuses does not change the number of pins. */
  lemma {:induction false} LayoutCount(net: Netlist, parts: seq<NodeId>, target: NexusId, off: nat, width: nat,
                                       next: NexusId, next': NexusId)
    requires AllParts(net, parts, target)
    ensures |LayoutPins(net, parts, target, off, width, next)| == |LayoutPins(net, parts, target, off, width, next')|
  {
    if parts != [] {
      if Base(net, parts[0]) > off {
        LayoutCount(net, parts[1..], target, Top(net, parts[0]), width, next + 1, next' + 1);
      } else {
        LayoutCount(net, parts[1..], target, off + net.nodes[parts[0]].kind.pvWidth, width, next, next');
      }
    }
  }

  ghost predicate AllFloat(net: Netlist, rank: NexusId -> nat, next: NexusId, gaps: seq<nat>)
    requires WellFormed(net) && Ranked(net, rank)
  {
    forall k: nat | k < |gaps| :: FloatsAt(net, rank, next + k, gaps[k])
  }

  lemma AllFloatTail(net: Netlist, rank: NexusId -> nat, next: NexusId, gaps: seq<nat>)
    requires WellFormed(net) && Ranked(net, rank)
    requires |gaps| > 0 && AllFloat(net, rank, next, gaps)
    ensures FloatsAt(net, rank, next, gaps[0]) && AllFloat(net, rank, next + 1, gaps[1..])
  {
    assert FloatsAt(net, rank, next + 0, gaps[0]);
    forall k: nat | k < |gaps[1..]|
      ensures FloatsAt(net, rank, next + 1 + k, gaps[1..][k])
    {
      assert FloatsAt(net, rank, next + (k + 1), gaps[k + 1]);
    }
  }

  /** Ordered parts that fit, from bit `off` on. */
  predicate InOrder(net: Netlist, parts: seq<NodeId>, target: NexusId, off: nat, width: nat)
    requires AllParts(net, parts, target)
  {
    if parts == [] then off <= width
    else off <= Base(net, parts[0]) && InOrder(net, parts[1..], target, Top(net, parts[0]), width)
  }

  /** The checks on neighbours and on the last part put the parts in order. */
  lemma {:induction false} ChecksOrder(net: Netlist, parts: seq<NodeId>, target: NexusId, off: nat, width: nat)
    requires AllParts(net, parts, target) && NoAdjacentOverlap(net, parts, target)
    requires |parts| > 0 && off <= Base(net, parts[0]) && Top(net, parts[|parts| - 1]) <= width
    ensures InOrder(net, parts, target, off, width)
  {
    if |parts| > 1 {
      assert Top(net, parts[0]) <= Base(net, parts[1]);
      ChecksOrder(net, parts[1..], target, Top(net, parts[0]), width);
    }
  }

  /** The laid out pins cover the target. */
  lemma {:induction false} LayoutCovers(net: Netlist, rank: NexusId -> nat, parts: seq<NodeId>, target: NexusId,
                                        off: nat, width: nat, next: NexusId)
    requires WellFormed(net) && Ranked(net, rank) && AllParts(net, parts, target)
    requires InOrder(net, parts, target, off, width)
    requires AllFloat(net, rank, next, LayoutGaps(net, parts, target, off, width))
    ensures Covers(net, rank, parts, target, LayoutPins(net, parts, target, off, width, next), off, width)
  {
    var pins, gaps := LayoutPins(net, parts, target, off, width, next), LayoutGaps(net, parts, target, off, width);
    if parts == [] {
      if off < width {
        AllFloatTail(net, rank, next, gaps);
        assert pins[1..] == [];
      }
    } else if Base(net, parts[0]) > off {
      AllFloatTail(net, rank, next, gaps);
      assert gaps[1..] == LayoutGaps(net, parts[1..], target, Top(net, parts[0]), width);
      LayoutCovers(net, rank, parts[1..], target, Top(net, parts[0]), width, next + 1);
      CoverGap(net, rank, parts, target, LayoutPins(net, parts[1..], target, Top(net, parts[0]), width, next + 1), off,
                width, next);
    } else {
      LayoutCovers(net, rank, parts[1..], target, Top(net, parts[0]), width, next);
      CoverPart(net, rank, parts, target, LayoutPins(net, parts[1..], target, Top(net, parts[0]), width, next), width);
    }
  }

  lemma CoverPart(net: Netlist, rank: NexusId -> nat, parts: seq<NodeId>, target: NexusId, rest: seq<NexusId>, width: nat)
    requires WellFormed(net) && Ranked(net, rank) && AllParts(net, parts, target) && parts != []
    requires Covers(net, rank, parts[1..], target, rest, Top(net, parts[0]), width)
    ensures Covers(net, rank, parts, target, [Source(net, parts[0])] + rest, Base(net, parts[0]), width)
  {
    assert ([Source(net, parts[0])] + rest)[1..] == rest;
  }

  lemma CoverGap(net: Netlist, rank: NexusId -> nat, parts: seq<NodeId>, target: NexusId, rest: seq<NexusId>,
                  off: nat, width: nat, n: NexusId)
    requires WellFormed(net) && Ranked(net, rank) && AllParts(net, parts, target) && parts != []
    requires Base(net, parts[0]) > off && FloatsAt(net, rank, n, Base(net, parts[0]) - off)
    requires Covers(net, rank, parts[1..], target, rest, Top(net, parts[0]), width)
    ensures Covers(net, rank, parts, target, [n, Source(net, parts[0])] + rest, off, width)
  {
    CoverPart(net, rank, parts, target, rest, width);
    assert ([n, Source(net, parts[0])] + rest)[1..] == [Source(net, parts[0])] + rest;
  }

  // ---- Adding the floating nexuses ----

  lemma FloatingKeepsConstants(net: Netlist, rank: NexusId -> nat, n: NexusId, sid: NodeId, cid: NodeId, width: nat)
    requires CanAddFloating(net, n, sid, cid) && Ranked(net, rank)
    ensures Ranked(AddFloating(net, n, sid, cid, width), rank)
    ensures KeepsConstants(net, AddFloating(net, n, sid, cid, width), rank)
  {
    var net' := AddFloating(net, n, sid, cid, width);
    forall m, l, r | m in net.width
      ensures LinkRole(net, l, m, r) <==> LinkRole(net', l, m, r)
      ensures LinkRole(net, l, m, r) ==> net.nodes[l.node] == net'.nodes[l.node]
    {
      FloatingLink(net, n, sid, cid, width, l, m);
    }
  }

  lemma FloatingFloats(net: Netlist, rank: NexusId -> nat, n: NexusId, sid: NodeId, cid: NodeId, width: nat)
    requires CanAddFloating(net, n, sid, cid)
    requires WellFormed(AddFloating(net, n, sid, cid, width)) && Ranked(AddFloating(net, n, sid, cid, width), rank)
    ensures FloatsAt(AddFloating(net, n, sid, cid, width), rank, n, width)
  {
    var net', c := AddFloating(net, n, sid, cid, width), Link(cid, 0);
    forall l | IsLink(net', l, n)
      ensures l == Link(sid, 0) || l == c
    {
      FloatingLink(net, n, sid, cid, width, l, n);
    }
    forall l
      ensures !LinkRole(net', l, n, Variable) && !SubstituteAt(net', l, n)
      ensures LinkRole(net', l, n, Constant) ==> l == c
    {
    }
    assert SoleDriver(net', c, n);
    SoleDriverVector(net', rank, c, n);
  }

  ghost predicate KeepsWidths(net: Netlist, net': Netlist) {
    forall m | m in net.width :: m in net'.width && net.width[m] == net'.width[m]
  }

  lemma FloatKept(net: Netlist, net': Netlist, rank: NexusId -> nat, n: NexusId, gap: nat)
    requires WellFormed(net) && WellFormed(net') && Ranked(net, rank) && Ranked(net', rank)
    requires KeepsWidths(net, net') && KeepsConstants(net, net', rank) && FloatsAt(net, rank, n, gap)
    ensures FloatsAt(net', rank, n, gap)
  {
    DrivenVectorFrame(net, net', rank, n);
  }

  lemma AllFloatKept(net: Netlist, net': Netlist, rank: NexusId -> nat, next: NexusId, gaps: seq<nat>)
    requires WellFormed(net) && WellFormed(net') && Ranked(net, rank) && Ranked(net', rank)
    requires KeepsWidths(net, net') && KeepsConstants(net, net', rank) && AllFloat(net, rank, next, gaps)
    ensures AllFloat(net', rank, next, gaps)
  {
    forall k: nat | k < |gaps|
      ensures FloatsAt(net', rank, next + k, gaps[k])
    {
      FloatAtKept(net, net', rank, next, gaps, k);
    }
  }

  lemma FloatAtKept(net: Netlist, net': Netlist, rank: NexusId -> nat, next: NexusId, gaps: seq<nat>, k: nat)
    requires WellFormed(net) && WellFormed(net') && Ranked(net, rank) && Ranked(net', rank)
    requires KeepsWidths(net, net') && KeepsConstants(net, net', rank) && AllFloat(net, rank, next, gaps) && k < |gaps|
    ensures FloatsAt(net', rank, next + k, gaps[k])
  {
    FloatKept(net, net', rank, next + k, gaps[k]);
  }

  lemma FloatingKeepsApart(net: Netlist, rank: NexusId -> nat, n: NexusId, sid: NodeId, cid: NodeId, width: nat)
    requires CanAddFloating(net, n, sid, cid) && Ranked(net, rank)
    requires Ranked(AddFloating(net, n, sid, cid, width), rank) && PortsApart(net, rank)
    ensures PortsApart(AddFloating(net, n, sid, cid, width), rank)
  {
    var net' := AddFloating(net, n, sid, cid, width);
    forall l, m | m in net.width
      ensures IsLink(net, l, m) <==> IsLink(net', l, m)
      ensures IsLink(net, l, m) ==> net.nodes[l.node] == net'.nodes[l.node]
    {
      FloatingLink(net, n, sid, cid, width, l, m);
    }
    forall l, m | TakenAt(net', l, m)
      ensures Unexposed(net, rank, m)
    {
      FloatingLink(net, n, sid, cid, width, l, m);
      assert TakenAt(net, l, m);
    }
    ApartKept(net, net', rank);
  }

  // ---- The merge ----

  function IdsOf(parts: seq<NodeId>): set<NodeId> {
    set id | id in parts
  }

  ghost predicate CanMerge(net: Netlist, rank: NexusId -> nat, parts: seq<NodeId>, target: NexusId,
                           pins: seq<NexusId>, added: NodeId) {
    && WellFormed(net) && Ranked(net, rank) && added !in net.nodes && target in net.width
    && |parts| > 0 && AllParts(net, parts, target)
    && Covers(net, rank, parts, target, pins, 0, net.width[target])
  }

  function MergedNode(target: NexusId, pins: seq<NexusId>): Node {
    Node(Concat(false), [target] + pins)
  }

  function Merged(net: Netlist, parts: seq<NodeId>, target: NexusId, pins: seq<NexusId>, added: NodeId): Netlist {
    Replace(net, IdsOf(parts), added, MergedNode(target, pins))
  }

  lemma MergeCanReplace(net: Netlist, rank: NexusId -> nat, parts: seq<NodeId>, target: NexusId,
                        pins: seq<NexusId>, added: NodeId)
    requires CanMerge(net, rank, parts, target, pins, added)
    ensures CanReplace(net, IdsOf(parts), added, MergedNode(target, pins))
  {
    CoversWidth(net, rank, parts, target, pins, 0, net.width[target]);
    assert MergedNode(target, pins).pins[1..] == pins;
  }

  lemma MergedOut(net: Netlist, rank: NexusId -> nat, parts: seq<NodeId>, target: NexusId,
                  pins: seq<NexusId>, added: NodeId, env: Env, val: Valuation)
    requires CanMerge(net, rank, parts, target, pins, added) && Fits(net.width, val)
    ensures forall i | 0 <= i < |pins| :: pins[i] in val
    ensures Out(net.width, env, val)(added, MergedNode(target, pins), 0) == ConcatVec(val, pins)
    ensures forall p: nat | 0 < p < 1 + |pins| :: Out(net.width, env, val)(added, MergedNode(target, pins), p) == []
  {
    CoversWidth(net, rank, parts, target, pins, 0, net.width[target]);
    assert MergedNode(target, pins).pins[1..] == pins;
  }

  lemma PartOut(net: Netlist, id: NodeId, target: NexusId, env: Env, val: Valuation, b: nat, v: V)
    requires WellFormed(net) && Fits(net.width, val) && IsPart(net, id, target) && v != Vz
    ensures Out(net.width, env, val)(id, net.nodes[id], 0) == []
    ensures BitAt(Out(net.width, env, val)(id, net.nodes[id], 1), b) == v <==> PartDrives(net, val, id, b, v)
  {
    assert NodeOk(net.width, net.nodes[id]);
  }

  lemma MergeDrivesOn(net: Netlist, rank: NexusId -> nat, parts: seq<NodeId>, target: NexusId,
                      pins: seq<NexusId>, added: NodeId, env: Env, val: Valuation, l: Link, n: NexusId, b: nat, v: V)
    requires CanMerge(net, rank, parts, target, pins, added)
    requires Fits(net.width, val) && FloatsRead(net, rank, val) && v != Vz
    requires l.node in IdsOf(parts) && LinkDrives(net, Out(net.width, env, val), l, n, b, v)
    ensures LinkDrives(Merged(net, parts, target, pins, added), Out(net.width, env, val), Link(added, 0), n, b, v)
  {
    var i :| 0 <= i < |parts| && parts[i] == l.node;
    assert IsPart(net, parts[i], target);
    PartOut(net, l.node, target, env, val, b, v);
    MergedOut(net, rank, parts, target, pins, added, env, val);
    CoversPart(net, rank, parts, target, pins, 0, net.width[target], val, i, b, v);
  }

  lemma MergeDrivesBack(net: Netlist, rank: NexusId -> nat, parts: seq<NodeId>, target: NexusId,
                        pins: seq<NexusId>, added: NodeId, env: Env, val: Valuation, l: Link, n: NexusId, b: nat, v: V)
      returns (l': Link)
    requires CanMerge(net, rank, parts, target, pins, added)
    requires Fits(net.width, val) && FloatsRead(net, rank, val) && v != Vz
    requires l.node == added && LinkDrives(Merged(net, parts, target, pins, added), Out(net.width, env, val), l, n, b, v)
    ensures l'.node in IdsOf(parts) && LinkDrives(net, Out(net.width, env, val), l', n, b, v)
  {
    MergedOut(net, rank, parts, target, pins, added, env, val);
    assert l.pin == 0 && n == target;
    var i := CoversGap(net, rank, parts, target, pins, 0, net.width[target], val, b);
    assert IsPart(net, parts[i], target);
    PartOut(net, parts[i], target, env, val, b, v);
    l' := Link(parts[i], 1);
  }

  lemma MergeSameDrive(net: Netlist, rank: NexusId -> nat, parts: seq<NodeId>, target: NexusId,
                       pins: seq<NexusId>, added: NodeId, env: Env, val: Valuation)
    requires CanMerge(net, rank, parts, target, pins, added)
    requires Fits(net.width, val) && FloatsRead(net, rank, val)
    ensures SameDrive(net, Merged(net, parts, target, pins, added), Out(net.width, env, val), IdsOf(parts), added)
  {
    var net', out, ids := Merged(net, parts, target, pins, added), Out(net.width, env, val), IdsOf(parts);
    forall n, b: nat, v | n in net.width && b < net.width[n] && v != Vz
      ensures AmongDrives(net, out, ids, n, b, v) <==> AmongDrives(net', out, {added}, n, b, v)
    {
      if AmongDrives(net, out, ids, n, b, v) {
        var l: Link :| l.node in ids && LinkDrives(net, out, l, n, b, v);
        MergeDrivesOn(net, rank, parts, target, pins, added, env, val, l, n, b, v);
        assert Link(added, 0).node in {added};
      }
      if AmongDrives(net', out, {added}, n, b, v) {
        var l: Link :| l.node in {added} && LinkDrives(net', out, l, n, b, v);
        var l' := MergeDrivesBack(net, rank, parts, target, pins, added, env, val, l, n, b, v);
        assert l'.node in ids;
      }
    }
  }

  lemma MergeKeepsConstants(net: Netlist, rank: NexusId -> nat, parts: seq<NodeId>, target: NexusId,
                            pins: seq<NexusId>, added: NodeId)
    requires CanMerge(net, rank, parts, target, pins, added)
    ensures Ranked(Merged(net, parts, target, pins, added), rank)
    ensures KeepsConstants(net, Merged(net, parts, target, pins, added), rank)
  {
    var net', ids := Merged(net, parts, target, pins, added), IdsOf(parts);
    MergeCanReplace(net, rank, parts, target, pins, added);
    forall m | m in net.width && ConstantNexus(net, rank, m)
      ensures SameDriversAt(net, net', m)
    {
      assert IsPart(net, parts[0], target);
      assert LinkRole(net, Link(parts[0], 1), target, Variable);
      assert m != target;
      forall l, r | r != Silent
        ensures LinkRole(net, l, m, r) <==> LinkRole(net', l, m, r)
        ensures LinkRole(net, l, m, r) ==> net.nodes[l.node] == net'.nodes[l.node]
      {
        if l.node in ids {
          var i :| 0 <= i < |parts| && parts[i] == l.node;
          assert IsPart(net, parts[i], target);
        } else if l.node != added {
          ReplaceLink(net, ids, added, MergedNode(target, pins), l, m);
        }
      }
    }
  }

  /** A nexus driven by z alone is not read from a pulled port. */
  lemma FloatsUnexposed(net: Netlist, rank: NexusId -> nat, n: NexusId, w: nat)
    requires WellFormed(net) && Ranked(net, rank) && FloatsAt(net, rank, n, w)
    ensures Unexposed(net, rank, n)
  {
    forall b: nat | b < w
      ensures !Exposed(net, rank, n, b)
    {
      if Exposed(net, rank, n, b) {
        ExposedIsPulled(net, rank, n, b);
      }
    }
  }

  lemma FloatsReadSound(net: Netlist, rank: NexusId -> nat, env: Env, val: Valuation)
    requires WellFormed(net) && Ranked(net, rank) && Solution(net, env, val)
    ensures FloatsRead(net, rank, val)
  {
    forall n, w: nat | FloatsAt(net, rank, n, w)
      ensures n in val && val[n] == Fill(Vz, w)
    {
      FloatsUnexposed(net, rank, n, w);
      ConstantSound(net, rank, env, val, n);
    }
  }

  lemma FloatsReadBack(net: Netlist, net': Netlist, rank: NexusId -> nat, env: Env, val: Valuation)
    requires WellFormed(net) && Ranked(net, rank) && WellFormed(net') && Ranked(net', rank)
    requires net'.width == net.width && Solution(net', env, val)
    requires KeepsConstants(net, net', rank)
    ensures FloatsRead(net, rank, val)
  {
    forall n, w: nat | FloatsAt(net, rank, n, w)
      ensures n in val && val[n] == Fill(Vz, w)
    {
      DrivenVectorFrame(net, net', rank, n);
      FloatsUnexposed(net', rank, n, w);
      ConstantSound(net', rank, env, val, n);
    }
  }

  /** The inputs of the concatenation are sources of parts and floating nexuses. */
  lemma {:induction false} CoversUnexposed(net: Netlist, rank: NexusId -> nat, parts: seq<NodeId>, target: NexusId,
                                           pins: seq<NexusId>, off: nat, width: nat)
    requires WellFormed(net) && Ranked(net, rank) && AllParts(net, parts, target) && PortsApart(net, rank)
    requires Covers(net, rank, parts, target, pins, off, width)
    ensures forall i | 0 <= i < |pins| :: Unexposed(net, rank, pins[i])
    decreases |pins|
  {
    if pins == [] {
    } else if parts == [] {
      FloatsUnexposed(net, rank, pins[0], width - off);
      CoversUnexposed(net, rank, parts, target, pins[1..], width, width);
    } else if Base(net, parts[0]) > off {
      FloatsUnexposed(net, rank, pins[0], Base(net, parts[0]) - off);
      CoversUnexposed(net, rank, parts, target, pins[1..], Base(net, parts[0]), width);
    } else {
      assert TakenAt(net, Link(parts[0], 0), pins[0]);
      CoversUnexposed(net, rank, parts[1..], target, pins[1..], Top(net, parts[0]), width);
    }
  }

  /** The parts, and the concatenation in their place, drive the target. */
  lemma MergeKeepsVoices(net: Netlist, parts: seq<NodeId>, target: NexusId, pins: seq<NexusId>)
    requires AllParts(net, parts, target) && |parts| > 0
    ensures forall m :: AnyVoices(net, IdsOf(parts), m) <==> Voices(MergedNode(target, pins), m)
  {
    var node := MergedNode(target, pins);
    assert IsPart(net, parts[0], target);
    assert VoicesAt(net.nodes[parts[0]], 1, target) && VoicesAt(node, 0, target);
    assert Voices(net.nodes[parts[0]], target) && AnyVoices(net, IdsOf(parts), target);
    forall m, p: nat, id | id in IdsOf(parts)
      ensures id in net.nodes && (VoicesAt(net.nodes[id], p, m) ==> m == target)
    {
      var i :| 0 <= i < |parts| && parts[i] == id;
      assert IsPart(net, parts[i], target);
    }
    assert forall m, p: nat :: VoicesAt(node, p, m) ==> m == target;
  }

  lemma MergeKeepsApart(net: Netlist, rank: NexusId -> nat, parts: seq<NodeId>, target: NexusId,
                        pins: seq<NexusId>, added: NodeId)
    requires CanMerge(net, rank, parts, target, pins, added) && PortsApart(net, rank)
    requires Ranked(Merged(net, parts, target, pins, added), rank)
    ensures PortsApart(Merged(net, parts, target, pins, added), rank)
  {
    var net', ids, node := Merged(net, parts, target, pins, added), IdsOf(parts), MergedNode(target, pins);
    MergeCanReplace(net, rank, parts, target, pins, added);
    forall id | id in ids
      ensures !net.nodes[id].kind.Substitute?
    {
      var i :| 0 <= i < |parts| && parts[i] == id;
      assert IsPart(net, parts[i], target);
    }
    MergeKeepsVoices(net, parts, target, pins);
    ReplaceKeepsExposure(net, ids, added, node);
    CoversUnexposed(net, rank, parts, target, pins, 0, net.width[target]);
    forall l, n | TakenAt(net', l, n)
      ensures Unexposed(net, rank, n)
    {
      if l.node == added {
        assert n == pins[l.pin - 1];
      } else {
        ReplaceLink(net, ids, added, node, l, n);
        assert TakenAt(net, l, n);
      }
    }
    ApartKept(net, net', rank);
  }

  /** Part selects that neither overlap nor leave the target may be replaced by one
      concatenation, with z wherever none of them drives. */
  lemma MergeEquivalent(net: Netlist, rank: NexusId -> nat, parts: seq<NodeId>, target: NexusId,
                        pins: seq<NexusId>, added: NodeId)
    requires CanMerge(net, rank, parts, target, pins, added)
    ensures WellFormed(Merged(net, parts, target, pins, added))
    ensures Ranked(Merged(net, parts, target, pins, added), rank)
    ensures Equivalent(net, Merged(net, parts, target, pins, added))
  {
    var net', node := Merged(net, parts, target, pins, added), MergedNode(target, pins);
    MergeCanReplace(net, rank, parts, target, pins, added);
    ReplaceSurface(net, IdsOf(parts), added, node);
    MergeKeepsConstants(net, rank, parts, target, pins, added);
    forall env, val
      ensures Solution(net, env, val) <==> Solution(net', env, val)
    {
      if Solution(net, env, val) || Solution(net', env, val) {
        if Solution(net, env, val) {
          FloatsReadSound(net, rank, env, val);
        } else {
          FloatsReadBack(net, net', rank, env, val);
        }
        MergeSameDrive(net, rank, parts, target, pins, added, env, val);
        ReplaceSettled(net, IdsOf(parts), added, node, Out(net.width, env, val), val);
      }
    }
    SameSolutionsEquivalent(net, net');
  }
}
