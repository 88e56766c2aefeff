/** The constant propagation pass over a design. */
module Cprop {
  import opened FourState
  import opened Netlists
  import opened Rewrites
  import opened LinkConst
  import opened Folding
  import opened PartMerge
  import opened Dangling
  import opened Designs

  /** The devices that the pass may still rewrite. */
  function Candidates(net: Netlist): set<NodeId> {
    set id | id in net.nodes && IsCandidate(net.nodes[id].kind)
  }

  predicate IsCandidate(k: Kind) {
    k.Concat? || k.Mux? || k.PartPV?
  }

  /** The meaning is kept if no rewrite takes a pulled port of the root module for a
      constant; and neither that nor the shielding of switches is lost. */
  ghost predicate Keeps(net: Netlist, net': Netlist, rank: NexusId -> nat) {
    && Ranked(net, rank) && Ranked(net', rank)
    && (PortsApart(net, rank) ==> Equivalent(net, net') && PortsApart(net', rank))
    && (Shielded(net) ==> Shielded(net'))
  }

  lemma KeepsTransitive(a: Netlist, b: Netlist, c: Netlist, rank: NexusId -> nat)
    requires Keeps(a, b, rank) && Keeps(b, c, rank)
    ensures Keeps(a, c, rank)
  {
    if PortsApart(a, rank) {
      EquivalentTransitive(a, b, c);
    }
  }

  /** What one rewrite, or none, makes of the design. */
  ghost predicate Rewritten(net: Netlist, net': Netlist, rank: NexusId -> nat, rewritten: bool) {
    && Keeps(net, net', rank)
    && (rewritten ==> |Candidates(net')| < |Candidates(net)|)
    && (!rewritten ==> net' == net)
  }

  lemma NoRewrite(net: Netlist, rank: NexusId -> nat)
    requires WellFormed(net) && Ranked(net, rank)
    ensures Rewritten(net, net, rank, false)
  {
    EquivalentReflexive(net);
  }

  lemma SwapShrinks(net: Netlist, id: NodeId, added: NodeId, node: Node)
    requires id in net.nodes && IsCandidate(net.nodes[id].kind) && added !in net.nodes && !IsCandidate(node.kind)
    ensures |Candidates(Replace(net, {id}, added, node))| < |Candidates(net)|
  {
    assert Candidates(Replace(net, {id}, added, node)) == Candidates(net) - {id};
  }

  // ---- Running concatenation of driven vectors ----

  lemma {:induction false} SumWidthsSnoc(width: map<NexusId, nat>, pins: seq<NexusId>, n: NexusId)
    requires n in width && forall i | 0 <= i < |pins| :: pins[i] in width
    ensures SumWidths(width, pins + [n]) == SumWidths(width, pins) + width[n]
  {
    if pins != [] {
      assert (pins + [n])[1..] == pins[1..] + [n];
      SumWidthsSnoc(width, pins[1..], n);
    }
  }

  lemma {:induction false} SumWidthsPrefix(width: map<NexusId, nat>, pins: seq<NexusId>, i: nat)
    requires i <= |pins| && forall i | 0 <= i < |pins| :: pins[i] in width
    ensures SumWidths(width, pins[..i]) <= SumWidths(width, pins)
  {
    if i > 0 {
      assert pins[..i][1..] == pins[1..][..i - 1];
      SumWidthsPrefix(width, pins[1..], i - 1);
    }
  }

  lemma {:induction false} DrivenConcatSnoc(net: Netlist, rank: NexusId -> nat, pins: seq<NexusId>, n: NexusId)
    requires WellFormed(net) && Ranked(net, rank) && AllConstant(net, rank, pins)
    requires n in net.width && ConstantNexus(net, rank, n)
    ensures AllConstant(net, rank, pins + [n])
    ensures DrivenConcat(net, rank, pins + [n]) == DrivenConcat(net, rank, pins) + DrivenVector(net, rank, n)
  {
    if pins == [] {
      assert [n][1..] == [];
    } else {
      assert (pins + [n])[1..] == pins[1..] + [n];
      DrivenConcatSnoc(net, rank, pins[1..], n);
    }
  }

  predicate AllIn(width: map<NexusId, nat>, pins: seq<NexusId>) {
    forall i | 0 <= i < |pins| :: pins[i] in width
  }

  /** The vectors of the first i pins, all constant, fill the result up to `off`. */
  ghost predicate Filled(net: Netlist, rank: NexusId -> nat, pins: seq<NexusId>, i: nat, result: Vec, off: nat)
    requires WellFormed(net) && Ranked(net, rank) && i <= |pins|
    requires forall j | 0 <= j < |pins| :: pins[j] in net.width
  {
    && AllConstant(net, rank, pins[..i])
    && |result| == SumWidths(net.width, pins)
    && off == SumWidths(net.width, pins[..i]) <= |result|
    && result[..off] == DrivenConcat(net, rank, pins[..i])
  }

  lemma FilledStart(net: Netlist, rank: NexusId -> nat, pins: seq<NexusId>, result: Vec)
    requires WellFormed(net) && Ranked(net, rank) && AllIn(net.width, pins) && |result| == SumWidths(net.width, pins)
    ensures Filled(net, rank, pins, 0, result, 0)
  {
  }

  lemma FilledEnd(net: Netlist, rank: NexusId -> nat, pins: seq<NexusId>, i: nat, result: Vec, off: nat)
    requires WellFormed(net) && Ranked(net, rank) && AllIn(net.width, pins)
    requires i == |pins| && Filled(net, rank, pins, i, result, off)
    ensures AllConstant(net, rank, pins) && result == DrivenConcat(net, rank, pins)
  {
    assert pins[..i] == pins;
  }

  /** One turn of the loop that fills in the result. */
  lemma ConcatTurn(net: Netlist, rank: NexusId -> nat, pins: seq<NexusId>, i: nat, result: Vec, off: nat, vec: Vec)
    requires WellFormed(net) && Ranked(net, rank) && i < |pins|
    requires forall j | 0 <= j < |pins| :: pins[j] in net.width
    requires Filled(net, rank, pins, i, result, off)
    requires ConstantNexus(net, rank, pins[i]) && vec == DrivenVector(net, rank, pins[i])
    ensures off + |vec| <= |result| && Filled(net, rank, pins, i + 1, Overlay(result, off, vec), off + |vec|)
  {
    assert pins[..i + 1] == pins[..i] + [pins[i]];
    SumWidthsSnoc(net.width, pins[..i], pins[i]);
    SumWidthsPrefix(net.width, pins, i + 1);
    DrivenConcatSnoc(net, rank, pins[..i], pins[i]);
  }

  // ---- What the rewrites leave ----

  /** Guesses were forgotten or kept. */
  ghost predicate Forgotten(d: map<NexusId, Guess>, d': map<NexusId, Guess>) {
    forall n | n in d' :: d'[n].NoGuess? || (n in d && d'[n] == d[n])
  }

  lemma ForgottenTransitive(d: map<NexusId, Guess>, d': map<NexusId, Guess>, d'': map<NexusId, Guess>)
    requires Forgotten(d, d') && Forgotten(d', d'')
    ensures Forgotten(d, d'')
  {
  }

  lemma ForgetForgets(d: map<NexusId, Guess>, node: Node, p: nat)
    requires p <= |node.pins|
    ensures Forgotten(d, Forget(d, node, p))
  {
  }

  lemma SwapShape(net: Netlist, id: NodeId, added: NodeId, node: Node)
    requires added !in net.nodes && id in net.nodes
    ensures Netlist(net.nodes[added := node] - {id}, net.width) == Replace(net, {id}, added, node)
  {
  }

  lemma FoldFits(net: Netlist, rank: NexusId -> nat, id: NodeId, added: NodeId)
    requires CanFoldConcat(net, rank, id, added)
    ensures NodeOk(net.width, Node(Const(DrivenConcat(net, rank, net.nodes[id].pins[1..])), [net.nodes[id].pins[0]]))
  {
    assert NodeOk(net.width, net.nodes[id]);
  }

  lemma FoldRewritten(net: Netlist, rank: NexusId -> nat, id: NodeId, added: NodeId,
                      d: map<NexusId, Guess>, d': map<NexusId, Guess>)
    requires CanFoldConcat(net, rank, id, added) && AllSound(net, rank, d) && Forgotten(d, d')
    ensures var net' := FoldedConcat(net, rank, id, added);
            WellFormed(net') && Ranked(net', rank) && Rewritten(net, net', rank, true) && AllSound(net', rank, d')
  {
    var node := Node(Const(DrivenConcat(net, rank, net.nodes[id].pins[1..])), [net.nodes[id].pins[0]]);
    FoldFits(net, rank, id, added);
    FoldConcatEquivalent(net, rank, id, added);
    SwapShrinks(net, id, added, node);
    SwapKeepsConstants(net, rank, id, added, node);
    if PortsApart(net, rank) {
      InputsUnexposed(net, rank, id);
    }
    if Shielded(net) {
      assert IsLink(net, Link(id, 0), node.pins[0]);
      ReplaceShielded(net, {id}, added, node);
    }
    RewrittenSound(net, FoldedConcat(net, rank, id, added), rank, d, d');
  }

  lemma BypassFits(net: Netlist, rank: NexusId -> nat, id: NodeId, added: NodeId, sel: V)
    requires CanBypassMux(net, rank, id, added, sel)
    ensures NodeOk(net.width, Bypass(net.nodes[id].pins, sel))
  {
    assert NodeOk(net.width, net.nodes[id]);
  }

  lemma BypassRewritten(net: Netlist, rank: NexusId -> nat, id: NodeId, added: NodeId, sel: V,
                        d: map<NexusId, Guess>, d': map<NexusId, Guess>)
    requires CanBypassMux(net, rank, id, added, sel) && AllSound(net, rank, d) && Forgotten(d, d')
    ensures var net' := BypassedMux(net, id, added, sel);
            WellFormed(net') && Ranked(net', rank) && Rewritten(net, net', rank, true) && AllSound(net', rank, d')
  {
    var node := Bypass(net.nodes[id].pins, sel);
    BypassFits(net, rank, id, added, sel);
    BypassMuxEquivalent(net, rank, id, added, sel);
    SwapShrinks(net, id, added, node);
    SwapKeepsConstants(net, rank, id, added, node);
    if PortsApart(net, rank) {
      assert TakenAt(net, Link(id, 1), net.nodes[id].pins[1]);
    }
    if Shielded(net) {
      ReplaceShielded(net, {id}, added, node);
    }
    RewrittenSound(net, BypassedMux(net, id, added, sel), rank, d, d');
  }

  // ---- Merging part selects ----

  /** The design while the pins of the merged concatenation are prepared: the part selects
      are still there, and the floating nexuses so far have the given widths. */
  ghost predicate Building(net0: Netlist, net: Netlist, rank: NexusId -> nat, parts: seq<NodeId>, target: NexusId,
                           next: NexusId, gaps: seq<nat>)
  {
    && WellFormed(net) && Keeps(net0, net, rank)
    && Candidates(net) == Candidates(net0)
    && AllParts(net0, parts, target)
    && (forall i | 0 <= i < |parts| :: parts[i] in net.nodes && net.nodes[parts[i]] == net0.nodes[parts[i]])
    && target in net0.width && target in net.width && net.width[target] == net0.width[target]
    && AllFloat(net, rank, next, gaps)
  }

  lemma BuildStart(net: Netlist, rank: NexusId -> nat, parts: seq<NodeId>, target: NexusId, next: NexusId)
    requires WellFormed(net) && Ranked(net, rank) && AllParts(net, parts, target) && target in net.width
    ensures Building(net, net, rank, parts, target, next, [])
  {
    EquivalentReflexive(net);
    forall i | 0 <= i < |parts|
      ensures parts[i] in net.nodes
    {
      assert IsPart(net, parts[i], target);
    }
  }

  lemma FloatingKeeps(net: Netlist, rank: NexusId -> nat, n: NexusId, sid: NodeId, cid: NodeId, width: nat)
    requires CanAddFloating(net, n, sid, cid) && Ranked(net, rank)
    ensures Keeps(net, AddFloating(net, n, sid, cid, width), rank)
  {
    FloatingKeepsConstants(net, rank, n, sid, cid, width);
    if PortsApart(net, rank) {
      FloatingEquivalent(net, n, sid, cid, width);
      FloatingKeepsApart(net, rank, n, sid, cid, width);
    }
    if Shielded(net) {
      FloatingShielded(net, n, sid, cid, width);
    }
  }

  lemma BuildStep(net0: Netlist, net: Netlist, rank: NexusId -> nat, parts: seq<NodeId>, target: NexusId,
                  next: NexusId, gaps: seq<nat>, sid: NodeId, cid: NodeId, width: nat,
                  d: map<NexusId, Guess>, d': map<NexusId, Guess>)
    requires Building(net0, net, rank, parts, target, next, gaps)
    requires CanAddFloating(net, next + |gaps|, sid, cid)
    requires AllSound(net, rank, d) && Forgotten(d, d')
    ensures var net' := AddFloating(net, next + |gaps|, sid, cid, width);
            Building(net0, net', rank, parts, target, next, gaps + [width]) && AllSound(net', rank, d')
  {
    var n := next + |gaps|;
    var net' := AddFloating(net, n, sid, cid, width);
    FloatingSurface(net, n, sid, cid, width);
    FloatingKeepsConstants(net, rank, n, sid, cid, width);
    FloatingKeeps(net, rank, n, sid, cid, width);
    KeepsTransitive(net0, net, net', rank);
    RewrittenSound(net, net', rank, d, d');
    BuildFloats(net, rank, next, gaps, sid, cid, width);
    FloatingCandidates(net, n, sid, cid, width);
  }

  lemma FloatingCandidates(net: Netlist, n: NexusId, sid: NodeId, cid: NodeId, width: nat)
    requires CanAddFloating(net, n, sid, cid)
    ensures Candidates(AddFloating(net, n, sid, cid, width)) == Candidates(net)
  {
  }

  lemma BuildFloats(net: Netlist, rank: NexusId -> nat, next: NexusId, gaps: seq<nat>, sid: NodeId, cid: NodeId, width: nat)
    requires CanAddFloating(net, next + |gaps|, sid, cid) && Ranked(net, rank) && AllFloat(net, rank, next, gaps)
    requires WellFormed(AddFloating(net, next + |gaps|, sid, cid, width))
    requires Ranked(AddFloating(net, next + |gaps|, sid, cid, width), rank)
    ensures AllFloat(AddFloating(net, next + |gaps|, sid, cid, width), rank, next, gaps + [width])
  {
    var n := next + |gaps|;
    var net' := AddFloating(net, n, sid, cid, width);
    FloatingKeepsConstants(net, rank, n, sid, cid, width);
    FloatingFloats(net, rank, n, sid, cid, width);
    AllFloatKept(net, net', rank, next, gaps);
    AllFloatMore(net', rank, next, gaps, width);
  }

  lemma AllFloatMore(net: Netlist, rank: NexusId -> nat, next: NexusId, gaps: seq<nat>, width: nat)
    requires WellFormed(net) && Ranked(net, rank)
    requires AllFloat(net, rank, next, gaps) && FloatsAt(net, rank, next + |gaps|, width)
    ensures AllFloat(net, rank, next, gaps + [width])
  {
    forall k: nat | k < |gaps + [width]| ensures FloatsAt(net, rank, next + k, (gaps + [width])[k]) {
      if k < |gaps| {
        assert FloatsAt(net, rank, next + k, gaps[k]);
      }
    }
  }

  /** The netlist with one floating nexus for every gap, numbered from `next`, with devices
      numbered from `id`. */
  function Floated(net: Netlist, gaps: seq<nat>, next: NexusId, id: NodeId): Netlist {
    if gaps == [] then net
    else
      var k := |gaps| - 1;
      AddFloating(Floated(net, gaps[..k], next, id), next + k, id + 2 * k, id + 2 * k + 1, gaps[k])
  }

  /** All names in the netlist are below these. */
  ghost predicate Below(net: Netlist, id: NodeId, n: NexusId) {
    (forall k | k in net.nodes :: k < id) && (forall m | m in net.width :: m < n)
  }

  ghost predicate Gapped(net0: Netlist, net: Netlist, gaps: seq<nat>, next: NexusId, id: NodeId,
                         nextNexus: NexusId, nextNode: NodeId)
  {
    && net == Floated(net0, gaps, next, id)
    && nextNexus == next + |gaps| && nextNode == id + 2 * |gaps|
    && Below(net0, id, next)
  }

  lemma {:induction false} FloatedKeeps(net0: Netlist, gaps: seq<nat>, next: NexusId, id: NodeId)
    requires Below(net0, id, next)
    ensures var net := Floated(net0, gaps, next, id);
            && (forall k | k in net0.nodes :: k in net.nodes && net.nodes[k] == net0.nodes[k])
            && (forall n | n in net0.width :: n in net.width && net.width[n] == net0.width[n])
            && Below(net, id + 2 * |gaps|, next + |gaps|)
  {
    if gaps != [] {
      var k := |gaps| - 1;
      FloatedKeeps(net0, gaps[..k], next, id);
      var init, net := Floated(net0, gaps[..k], next, id), Floated(net0, gaps, next, id);
      assert |gaps[..k]| == k;
      assert Below(init, id + 2 * k, next + k);
      assert net == AddFloating(init, next + k, id + 2 * k, id + 2 * k + 1, gaps[k]);
    }
  }

  /** The pins and gaps so far, and the bits they cover. */
  datatype Layout = Layout(pins: seq<NexusId>, gaps: seq<nat>, off: nat)

  /** The layout with a gap before bit `base`, if there is room for one. */
  function AfterGap(lay: Layout, base: nat, next: NexusId): Layout {
    if base > lay.off then Layout(lay.pins + [next + |lay.gaps|], lay.gaps + [base - lay.off], base) else lay
  }

  function AfterPart(lay: Layout, part: Node, next: NexusId): Layout
    requires part.kind.PartPV? && |part.pins| == 2
  {
    var mid := AfterGap(lay, part.kind.base, next);
    Layout(mid.pins + [part.pins[0]], mid.gaps, mid.off + part.kind.pvWidth)
  }

  /** The pins and gaps of the parts before `idx` are done. */
  ghost predicate LaidOut(net: Netlist, parts: seq<NodeId>, target: NexusId, idx: nat, width: nat,
                          lay: Layout, next: NexusId)
    requires AllParts(net, parts, target) && idx <= |parts|
  {
    && lay.pins + LayoutPins(net, parts[idx..], target, lay.off, width, next + |lay.gaps|)
       == LayoutPins(net, parts, target, 0, width, next)
    && lay.gaps + LayoutGaps(net, parts[idx..], target, lay.off, width) == LayoutGaps(net, parts, target, 0, width)
  }

  lemma LaidOutStep(net: Netlist, parts: seq<NodeId>, target: NexusId, idx: nat, width: nat, lay: Layout, next: NexusId)
    requires AllParts(net, parts, target) && idx < |parts| && IsPart(net, parts[idx], target)
    requires LaidOut(net, parts, target, idx, width, lay, next)
    ensures LaidOut(net, parts, target, idx + 1, width, AfterPart(lay, net.nodes[parts[idx]], next), next)
  {
    assert parts[idx..][0] == parts[idx] && parts[idx..][1..] == parts[idx + 1..];
    var base, w, src := Base(net, parts[idx]), net.nodes[parts[idx]].kind.pvWidth, Source(net, parts[idx]);
    if base > lay.off {
      var n := next + |lay.gaps|;
      var rest := LayoutPins(net, parts[idx + 1..], target, base + w, width, n + 1);
      assert lay.pins + ([n, src] + rest) == lay.pins + [n] + [src] + rest;
      var gs := LayoutGaps(net, parts[idx + 1..], target, base + w, width);
      assert lay.gaps + ([base - lay.off] + gs) == lay.gaps + [base - lay.off] + gs;
    } else {
      var rest := LayoutPins(net, parts[idx + 1..], target, lay.off + w, width, next + |lay.gaps|);
      assert lay.pins + ([src] + rest) == lay.pins + [src] + rest;
    }
  }

  lemma LaidOutEnd(net: Netlist, parts: seq<NodeId>, target: NexusId, width: nat, lay: Layout, next: NexusId)
    requires AllParts(net, parts, target) && LaidOut(net, parts, target, |parts|, width, lay, next)
    ensures LayoutPins(net, parts, target, 0, width, next) == AfterGap(lay, width, next).pins
    ensures LayoutGaps(net, parts, target, 0, width) == AfterGap(lay, width, next).gaps
  {
    assert parts[|parts|..] == [];
  }

  lemma GappedPart(net0: Netlist, net: Netlist, gaps: seq<nat>, next: NexusId, id: NodeId,
                   nextNexus: NexusId, nextNode: NodeId, parts: seq<NodeId>, target: NexusId, idx: nat)
    requires Gapped(net0, net, gaps, next, id, nextNexus, nextNode)
    requires AllParts(net0, parts, target) && idx < |parts|
    ensures IsPart(net0, parts[idx], target) && parts[idx] in net.nodes && net.nodes[parts[idx]] == net0.nodes[parts[idx]]
    ensures parts[idx..][0] == parts[idx] && parts[idx..][1..] == parts[idx + 1..]
  {
    assert IsPart(net0, parts[idx], target);
    FloatedKeeps(net0, gaps, next, id);
  }

  lemma FloatedStep(net0: Netlist, init: Netlist, net: Netlist, rank: NexusId -> nat, parts: seq<NodeId>, target: NexusId,
                    next: NexusId, id: NodeId, gaps: seq<nat>, k: nat, d: map<NexusId, Guess>)
    requires |gaps| == k + 1
    requires Building(net0, init, rank, parts, target, next, gaps[..k]) && AllSound(init, rank, d)
    requires Below(init, id, next + k)
    requires net == AddFloating(init, next + k, id, id + 1, gaps[k])
    ensures Building(net0, net, rank, parts, target, next, gaps) && AllSound(net, rank, d)
  {
    assert |gaps[..k]| == k && gaps[..k] + [gaps[k]] == gaps;
    assert CanAddFloating(init, next + k, id, id + 1);
    BuildStep(net0, init, rank, parts, target, next, gaps[..k], id, id + 1, gaps[k], d, d);
  }

  lemma {:induction false} FloatedBuilding(net0: Netlist, net: Netlist, rank: NexusId -> nat, parts: seq<NodeId>,
                                           target: NexusId, next: NexusId, id: NodeId, gaps: seq<nat>,
                                           d: map<NexusId, Guess>, d': map<NexusId, Guess>)
    requires WellFormed(net0) && Ranked(net0, rank) && AllParts(net0, parts, target) && target in net0.width
    requires Below(net0, id, next)
    requires AllSound(net0, rank, d) && Forgotten(d, d')
    requires net == Floated(net0, gaps, next, id)
    ensures Building(net0, net, rank, parts, target, next, gaps) && AllSound(net, rank, d')
    decreases |gaps|
  {
    if gaps == [] {
      BuildStart(net0, rank, parts, target, next);
      StillSound(net0, rank, d, d');
    } else {
      var k := |gaps| - 1;
      var init := Floated(net0, gaps[..k], next, id);
      FloatedBuilding(net0, init, rank, parts, target, next, id, gaps[..k], d, d');
      FloatedUnfold(net0, gaps, next, id, k);
      FloatedStep(net0, init, net, rank, parts, target, next, id + 2 * k, gaps, k, d');
    }
  }

  lemma FloatedUnfold(net0: Netlist, gaps: seq<nat>, next: NexusId, id: NodeId, k: nat)
    requires |gaps| == k + 1 && Below(net0, id, next)
    ensures var init := Floated(net0, gaps[..k], next, id);
            && Below(init, id + 2 * k, next + k)
            && Floated(net0, gaps, next, id) == AddFloating(init, next + k, id + 2 * k, id + 2 * k + 1, gaps[k])
  {
    FloatedKeeps(net0, gaps[..k], next, id);
    assert |gaps[..k]| == k;
  }

  lemma StillSound(net: Netlist, rank: NexusId -> nat, d: map<NexusId, Guess>, d': map<NexusId, Guess>)
    requires WellFormed(net) && Ranked(net, rank) && AllSound(net, rank, d) && Forgotten(d, d')
    ensures AllSound(net, rank, d')
  {
    forall n | n in d'
      ensures GuessOk(net, rank, n, d'[n])
    {
    }
  }

  lemma MergeFits(net0: Netlist, net: Netlist, rank: NexusId -> nat, parts: seq<NodeId>, target: NexusId,
                  next: NexusId, gaps: seq<nat>, pins: seq<NexusId>, added: NodeId)
    requires Building(net0, net, rank, parts, target, next, gaps) && added !in net.nodes && |parts| > 0
    requires InOrder(net0, parts, target, 0, net0.width[target])
    requires pins == LayoutPins(net0, parts, target, 0, net0.width[target], next)
    requires gaps == LayoutGaps(net0, parts, target, 0, net0.width[target])
    ensures CanMerge(net, rank, parts, target, pins, added)
    ensures NodeOk(net.width, MergedNode(target, pins))
  {
    assert AllParts(net, parts, target) by {
      forall i | 0 <= i < |parts|
        ensures IsPart(net, parts[i], target)
      {
        assert IsPart(net0, parts[i], target);
      }
    }
    LayoutFrame(net0, net, parts, target, 0, net0.width[target], next);
    LayoutCovers(net, rank, parts, target, 0, net0.width[target], next);
    MergeCanReplace(net, rank, parts, target, pins, added);
  }

  lemma {:induction false} LayoutFrame(net0: Netlist, net: Netlist, parts: seq<NodeId>, target: NexusId,
                                       off: nat, width: nat, next: NexusId)
    requires AllParts(net0, parts, target) && AllParts(net, parts, target)
    requires forall i | 0 <= i < |parts| :: net.nodes[parts[i]] == net0.nodes[parts[i]]
    ensures LayoutPins(net, parts, target, off, width, next) == LayoutPins(net0, parts, target, off, width, next)
    ensures LayoutGaps(net, parts, target, off, width) == LayoutGaps(net0, parts, target, off, width)
    ensures InOrder(net, parts, target, off, width) <==> InOrder(net0, parts, target, off, width)
  {
    if parts != [] {
      assert IsPart(net0, parts[0], target);
      LayoutFrame(net0, net, parts[1..], target, Top(net0, parts[0]), width, next + 1);
      LayoutFrame(net0, net, parts[1..], target, off + net0.nodes[parts[0]].kind.pvWidth, width, next);
    }
  }

  lemma MergeShrinks(net: Netlist, parts: seq<NodeId>, target: NexusId, pins: seq<NexusId>, added: NodeId)
    requires AllParts(net, parts, target) && added !in net.nodes && |IdsOf(parts)| >= 2
    ensures |Candidates(Merged(net, parts, target, pins, added))| < |Candidates(net)|
  {
    var net', ids := Merged(net, parts, target, pins, added), IdsOf(parts);
    assert ids <= Candidates(net) by {
      forall id | id in ids
        ensures id in Candidates(net)
      {
        var i :| 0 <= i < |parts| && parts[i] == id;
        assert IsPart(net, parts[i], target);
      }
    }
    assert Candidates(net') == (Candidates(net) - ids) + {added};
  }

  lemma MergeKeeps(net: Netlist, rank: NexusId -> nat, parts: seq<NodeId>, target: NexusId, pins: seq<NexusId>, added: NodeId)
    requires CanMerge(net, rank, parts, target, pins, added)
    ensures WellFormed(Merged(net, parts, target, pins, added)) && Keeps(net, Merged(net, parts, target, pins, added), rank)
  {
    MergeEquivalent(net, rank, parts, target, pins, added);
    MergeCanReplace(net, rank, parts, target, pins, added);
    if PortsApart(net, rank) {
      MergeKeepsApart(net, rank, parts, target, pins, added);
    }
    if Shielded(net) {
      assert IsPart(net, parts[0], target);
      assert IsLink(net, Link(parts[0], 1), target);
      ReplaceShielded(net, IdsOf(parts), added, MergedNode(target, pins));
    }
  }

  lemma MergeRewritten(net0: Netlist, net: Netlist, rank: NexusId -> nat, parts: seq<NodeId>, target: NexusId,
                       next: NexusId, gaps: seq<nat>, pins: seq<NexusId>, added: NodeId,
                       d: map<NexusId, Guess>, d': map<NexusId, Guess>)
    requires Building(net0, net, rank, parts, target, next, gaps)
    requires CanMerge(net, rank, parts, target, pins, added) && |IdsOf(parts)| >= 2
    requires AllSound(net, rank, d) && Forgotten(d, d')
    ensures var net' := Merged(net, parts, target, pins, added);
            WellFormed(net') && Ranked(net', rank) && Rewritten(net0, net', rank, true) && AllSound(net', rank, d')
  {
    var net' := Merged(net, parts, target, pins, added);
    MergeKeeps(net, rank, parts, target, pins, added);
    KeepsTransitive(net0, net, net', rank);
    MergeShrinks(net, parts, target, pins, added);
    MergeKeepsConstants(net, rank, parts, target, pins, added);
    RewrittenSound(net, net', rank, d, d');
  }

  lemma {:induction false} NoDupSize(parts: seq<NodeId>)
    requires NoDup(parts)
    ensures |IdsOf(parts)| == |parts|
  {
    if parts != [] {
      var init, last := parts[..|parts| - 1], parts[|parts| - 1];
      NoDupSize(init);
      assert last !in init;
      assert IdsOf(parts) == IdsOf(init) + {last};
    }
  }

  lemma IdsSnoc(parts: seq<NodeId>, i: nat)
    requires i < |parts|
    ensures IdsOf(parts[..i + 1]) == IdsOf(parts[..i]) + {parts[i]}
  {
    assert parts[..i + 1] == parts[..i] + [parts[i]];
  }

  lemma IdsInsert(parts: seq<NodeId>, i: nat, id: NodeId)
    requires i <= |parts|
    ensures IdsOf(parts[..i] + [id] + parts[i..]) == IdsOf(parts) + {id}
  {
    assert parts == parts[..i] + parts[i..];
  }

  lemma DeleteAfterAdd(nodes: map<NodeId, Node>, ids: set<NodeId>, added: NodeId, node: Node)
    requires added !in ids
    ensures nodes[added := node] - ids == (nodes - ids)[added := node]
  {
  }

  /** Adding a device under a new name leaves the part selects. */
  lemma PartsStay(net: Netlist, parts: seq<NodeId>, target: NexusId, added: NodeId, node: Node)
    requires AllParts(net, parts, target) && added !in net.nodes
    ensures AllParts(Netlist(net.nodes[added := node], net.width), parts, target)
    ensures added !in IdsOf(parts)
  {
    forall i | 0 <= i < |parts|
      ensures IsPart(Netlist(net.nodes[added := node], net.width), parts[i], target) && parts[i] != added
    {
      assert IsPart(net, parts[i], target);
    }
  }

  /** In the order of their base. */
  predicate Sorted(net: Netlist, parts: seq<NodeId>, target: NexusId)
    requires AllParts(net, parts, target)
  {
    forall i, j | 0 <= i < j < |parts| :: Base(net, parts[i]) <= Base(net, parts[j])
  }

  lemma NoDupInsert(parts: seq<NodeId>, i: nat, id: NodeId)
    requires i <= |parts| && NoDup(parts) && id !in parts
    ensures NoDup(parts[..i] + [id] + parts[i..])
  {
    var longer := parts[..i] + [id] + parts[i..];
    assert forall k | 0 <= k < |longer| :: longer[k] == if k < i then parts[k] else if k == i then id else parts[k - 1];
  }

  lemma SortedInsert(net: Netlist, parts: seq<NodeId>, i: nat, id: NodeId, target: NexusId)
    requires i <= |parts| && AllParts(net, parts, target) && Sorted(net, parts, target) && IsPart(net, id, target)
    requires i > 0 ==> Base(net, parts[i - 1]) <= Base(net, id)
    requires forall k | i <= k < |parts| :: Base(net, id) <= Base(net, parts[k])
    ensures AllParts(net, parts[..i] + [id] + parts[i..], target) && Sorted(net, parts[..i] + [id] + parts[i..], target)
  {
    var longer := parts[..i] + [id] + parts[i..];
    assert forall k | 0 <= k < |longer| :: longer[k] == if k < i then parts[k] else if k == i then id else parts[k - 1];
    assert forall k | 0 <= k < i :: Base(net, parts[k]) <= Base(net, id);
  }

  // ---- What stays current ----

  /** A swap changes the drivers of one nexus only, and forgets the guess there. */
  lemma SwapCurrent(net: Netlist, rank: NexusId -> nat, id: NodeId, added: NodeId, node: Node,
                    d: map<NexusId, Guess>, d': map<NexusId, Guess>)
    requires CanSwap(net, id, added, node) && WellFormed(Replace(net, {id}, added, node))
    requires Ranked(net, rank) && Ranked(Replace(net, {id}, added, node), rank)
    requires Current(net, rank, d) && Forgotten(d, d') && NoGuessAt(d', node.pins[0])
    ensures Current(Replace(net, {id}, added, node), rank, d')
  {
    var net' := Replace(net, {id}, added, node);
    forall n | n in d' && !d'[n].NoGuess? ensures SameDriversAt(net, net', n) {
      SwapSameDrivers(net, id, added, node, n);
    }
    RewrittenCurrent(net, net', rank, d, d');
  }

  predicate NoGuessAt(d: map<NexusId, Guess>, n: NexusId) {
    n in d ==> d[n].NoGuess?
  }

  /** The devices that the gaps add are on new nexuses. */
  lemma {:induction false} FloatedNew(net0: Netlist, gaps: seq<nat>, next: NexusId, id: NodeId, k: NodeId, p: nat)
    requires Below(net0, id, next)
    requires var net := Floated(net0, gaps, next, id); k in net.nodes && k !in net0.nodes && p < |net.nodes[k].pins|
    ensures Floated(net0, gaps, next, id).nodes[k].pins[p] >= next
    decreases |gaps|
  {
    if gaps != [] {
      var i := |gaps| - 1;
      FloatedUnfold(net0, gaps, next, id, i);
      if k in Floated(net0, gaps[..i], next, id).nodes {
        FloatedNew(net0, gaps[..i], next, id, k, p);
      }
    }
  }

  /** A merge changes the drivers of the target, and of no other nexus that was there. */
  lemma MergeSameDrivers(net0: Netlist, parts: seq<NodeId>, target: NexusId, next: NexusId, id: NodeId, gaps: seq<nat>,
                         pins: seq<NexusId>, added: NodeId, n: NexusId)
    requires Below(net0, id, next) && AllParts(net0, parts, target) && n in net0.width && n != target
    requires added !in Floated(net0, gaps, next, id).nodes
    ensures SameDriversAt(net0, Merged(Floated(net0, gaps, next, id), parts, target, pins, added), n)
  {
    var net, net' := Floated(net0, gaps, next, id), Merged(Floated(net0, gaps, next, id), parts, target, pins, added);
    FloatedKeeps(net0, gaps, next, id);
    forall l, r | r != Silent
      ensures LinkRole(net0, l, n, r) <==> LinkRole(net', l, n, r)
      ensures LinkRole(net0, l, n, r) ==> net0.nodes[l.node] == net'.nodes[l.node]
    {
      MergeSameRole(net0, parts, target, next, id, gaps, pins, added, n, l, r);
    }
  }

  lemma MergeSameRole(net0: Netlist, parts: seq<NodeId>, target: NexusId, next: NexusId, id: NodeId, gaps: seq<nat>,
                      pins: seq<NexusId>, added: NodeId, n: NexusId, l: Link, r: Role)
    requires Below(net0, id, next) && AllParts(net0, parts, target) && n in net0.width && n != target && r != Silent
    requires added !in Floated(net0, gaps, next, id).nodes
    ensures var net' := Merged(Floated(net0, gaps, next, id), parts, target, pins, added);
            && (LinkRole(net0, l, n, r) <==> LinkRole(net', l, n, r))
            && (LinkRole(net0, l, n, r) ==> net0.nodes[l.node] == net'.nodes[l.node])
  {
    var net := Floated(net0, gaps, next, id);
    FloatedKeeps(net0, gaps, next, id);
    if l.node in parts {
      var i :| 0 <= i < |parts| && parts[i] == l.node;
      assert IsPart(net0, parts[i], target);
    } else if l.node in net.nodes && l.node !in net0.nodes && l.pin < |net.nodes[l.node].pins| {
      FloatedNew(net0, gaps, next, id, l.node, l.pin);
    }
  }

  lemma MergeCurrent(net0: Netlist, rank: NexusId -> nat, parts: seq<NodeId>, target: NexusId, next: NexusId, id: NodeId,
                     gaps: seq<nat>, pins: seq<NexusId>, added: NodeId, d: map<NexusId, Guess>, d': map<NexusId, Guess>)
    requires WellFormed(net0) && Ranked(net0, rank) && Below(net0, id, next) && AllParts(net0, parts, target)
    requires added !in Floated(net0, gaps, next, id).nodes && d.Keys == net0.width.Keys
    requires var net' := Merged(Floated(net0, gaps, next, id), parts, target, pins, added);
             WellFormed(net') && Ranked(net', rank)
    requires Current(net0, rank, d) && Forgotten(d, d') && NoGuessAt(d', target)
    ensures Current(Merged(Floated(net0, gaps, next, id), parts, target, pins, added), rank, d')
  {
    var net' := Merged(Floated(net0, gaps, next, id), parts, target, pins, added);
    FloatedKeeps(net0, gaps, next, id);
    MergeNoSubstitutes(net0, parts, target, next, id, gaps, pins, added);
    forall n | n in d' && !d'[n].NoGuess? ensures SameDriversAt(net0, net', n) {
      MergeSameDrivers(net0, parts, target, next, id, gaps, pins, added, n);
    }
    RewrittenCurrent(net0, net', rank, d, d');
  }

  lemma MergeNoSubstitutes(net0: Netlist, parts: seq<NodeId>, target: NexusId, next: NexusId, id: NodeId,
                           gaps: seq<nat>, pins: seq<NexusId>, added: NodeId)
    requires NoSubstitutes(net0) && Below(net0, id, next)
    ensures NoSubstitutes(Merged(Floated(net0, gaps, next, id), parts, target, pins, added))
  {
    FloatedKeeps(net0, gaps, next, id);
    FloatedNoSubstitutes(net0, gaps, next, id);
  }

  lemma {:induction false} FloatedNoSubstitutes(net0: Netlist, gaps: seq<nat>, next: NexusId, id: NodeId)
    requires NoSubstitutes(net0) && Below(net0, id, next)
    ensures NoSubstitutes(Floated(net0, gaps, next, id))
    decreases |gaps|
  {
    if gaps != [] {
      var i := |gaps| - 1;
      FloatedUnfold(net0, gaps, next, id, i);
      FloatedNoSubstitutes(net0, gaps[..i], next, id);
    }
  }

  // ---- When part selects are merged ----

  /** Nothing drives the target but part selects, at least two of them, which do not overlap
      and end inside it. */
  ghost predicate Mergeable(net: Netlist, target: NexusId) {
    && target in net.width && OnlyParts(net, target)
    && (exists a, b :: a != b && IsPart(net, a, target) && IsPart(net, b, target))
    && (forall a | IsPart(net, a, target) :: Top(net, a) <= net.width[target])
    && forall a, b | a != b && IsPart(net, a, target) && IsPart(net, b, target) :: Disjoint(net, a, b)
  }

  ghost predicate OnlyParts(net: Netlist, target: NexusId) {
    forall l | IsLink(net, l, target) && PinDir(net.nodes[l.node].kind, l.pin).Output? ::
      net.nodes[l.node].kind.PartPV? && l.pin == 1
  }

  predicate Disjoint(net: Netlist, a: NodeId, b: NodeId)
    requires a in net.nodes && net.nodes[a].kind.PartPV? && b in net.nodes && net.nodes[b].kind.PartPV?
  {
    Top(net, a) <= Base(net, b) || Top(net, b) <= Base(net, a)
  }

  predicate HasBit(net: Netlist, id: NodeId, b: nat)
    requires id in net.nodes && net.nodes[id].kind.PartPV?
  {
    Base(net, id) <= b < Top(net, id)
  }

  /** No two part selects have a bit in common, and none has a bit beyond the target. */
  ghost predicate BitsApart(net: Netlist, target: NexusId)
    requires target in net.width
  {
    && (forall a, b: nat | IsPart(net, a, target) && HasBit(net, a, b) :: b < net.width[target])
    && forall a, a', b: nat | a != a' && IsPart(net, a, target) && IsPart(net, a', target) :: !(HasBit(net, a, b) && HasBit(net, a', b))
  }

  /** For parts of some width that is what the comparison of their ends finds out. */
  lemma MergeableExactly(net: Netlist, target: NexusId)
    requires target in net.width && forall a | IsPart(net, a, target) :: Base(net, a) < Top(net, a)
    ensures Mergeable(net, target) <==>
      && OnlyParts(net, target) && (exists a, b :: a != b && IsPart(net, a, target) && IsPart(net, b, target))
      && BitsApart(net, target)
  {
    if BitsApart(net, target) {
      forall a | IsPart(net, a, target) ensures Top(net, a) <= net.width[target] {
        assert HasBit(net, a, Top(net, a) - 1);
      }
      forall a, b | a != b && IsPart(net, a, target) && IsPart(net, b, target) ensures Disjoint(net, a, b) {
        assert !(HasBit(net, a, Base(net, b)) && HasBit(net, b, Base(net, b)));
        assert !(HasBit(net, a, Base(net, a)) && HasBit(net, b, Base(net, a)));
      }
    }
  }

  /** The sequence lists the part selects on the target, once each. */
  ghost predicate ListsParts(net: Netlist, parts: seq<NodeId>, target: NexusId) {
    AllParts(net, parts, target) && NoDup(parts) && forall id | IsPart(net, id, target) :: id in parts
  }

  lemma ListsTwo(net: Netlist, parts: seq<NodeId>, target: NexusId)
    requires ListsParts(net, parts, target)
    ensures |parts| >= 2 <==> exists a, b :: a != b && IsPart(net, a, target) && IsPart(net, b, target)
  {
    if |parts| >= 2 {
      assert IsPart(net, parts[0], target) && IsPart(net, parts[1], target) && parts[0] != parts[1];
    }
    if a, b :| a != b && IsPart(net, a, target) && IsPart(net, b, target) {
      assert a in parts && b in parts;
    }
  }

  /** For sorted parts of some width the checks on neighbours and on the last part decide. */
  lemma ChecksDecide(net: Netlist, parts: seq<NodeId>, target: NexusId)
    requires ListsParts(net, parts, target) && Sorted(net, parts, target) && |parts| >= 2
    requires target in net.width && OnlyParts(net, target)
    requires forall i | 0 <= i < |parts| :: Base(net, parts[i]) < Top(net, parts[i])
    ensures NoAdjacentOverlap(net, parts, target) && Top(net, parts[|parts| - 1]) <= net.width[target]
            <==> Mergeable(net, target)
  {
    ListsTwo(net, parts, target);
    if NoAdjacentOverlap(net, parts, target) && Top(net, parts[|parts| - 1]) <= net.width[target] {
      TailBoundsAll(net, parts, target, net.width[target]);
      forall a, b | a != b && IsPart(net, a, target) && IsPart(net, b, target) ensures Disjoint(net, a, b) {
        var i, j :| 0 <= i < |parts| && 0 <= j < |parts| && parts[i] == a && parts[j] == b;
        if i < j {
          AdjacentImpliesDisjoint(net, parts, target, i, j);
        } else {
          AdjacentImpliesDisjoint(net, parts, target, j, i);
        }
      }
    }
    if Mergeable(net, target) {
      assert IsPart(net, parts[|parts| - 1], target);
      forall i | 0 < i < |parts| ensures Top(net, parts[i - 1]) <= Base(net, parts[i]) {
        assert IsPart(net, parts[i - 1], target) && IsPart(net, parts[i], target);
        assert Disjoint(net, parts[i - 1], parts[i]);
      }
    }
  }

  /** The part selects on the target, in order, give way to one concatenation of their sources
      and of a new floating nexus for every gap. */
  ghost predicate MergedAll(net: Netlist, net': Netlist, target: NexusId, next: NexusId, id: NodeId) {
    exists parts :: MergedInto(net, net', parts, target, next, id)
  }

  ghost predicate MergedInto(net: Netlist, net': Netlist, parts: seq<NodeId>, target: NexusId, next: NexusId, id: NodeId) {
    && ListsParts(net, parts, target) && Sorted(net, parts, target) && target in net.width
    && var gaps := LayoutGaps(net, parts, target, 0, net.width[target]);
       net' == Merged(Floated(net, gaps, next, id), parts, target,
                      LayoutPins(net, parts, target, 0, net.width[target], next), id + 2 * |gaps|)
  }

  lemma MergedIntoBy(net: Netlist, floated: Netlist, net': Netlist, parts: seq<NodeId>, target: NexusId,
                     next: NexusId, id: NodeId, gaps: seq<nat>, pins: seq<NexusId>, added: NodeId)
    requires ListsParts(net, parts, target) && Sorted(net, parts, target) && target in net.width
    requires gaps == LayoutGaps(net, parts, target, 0, net.width[target])
    requires pins == LayoutPins(net, parts, target, 0, net.width[target], next)
    requires floated == Floated(net, gaps, next, id) && added == id + 2 * |gaps|
    requires net' == Merged(floated, parts, target, pins, added)
    ensures MergedAll(net, net', target, next, id)
  {
    assert MergedInto(net, net', parts, target, next, id);
  }

  /** The device is a concatenation of constants, but not a transparent one. */
  ghost predicate CanBeFolded(net: Netlist, rank: NexusId -> nat, id: NodeId) {
    id in net.nodes && net.nodes[id].kind == Concat(false) && exists added :: CanFoldConcat(net, rank, id, added)
  }

  /** The device is a two-way multiplexer with a defined constant select. */
  ghost predicate CanBeBypassed(net: Netlist, rank: NexusId -> nat, id: NodeId) {
    exists added, sel :: CanBypassMux(net, rank, id, added, sel)
  }

  class CpropFunctor {
    var count: nat

    constructor ()
      ensures count == 0
    {
      count := 0;
    }

    /** Fold a concatenation of constants into a constant. If the cache holds no outdated
        guess, no such concatenation is missed. */
    method LpmConcat(des: Design, id: NodeId)
      requires des.Valid() && des.CacheSound() && id in des.nodes && des.nodes[id].kind.Concat?
      modifies this`count, des
      ensures count > old(count) ==>
                CanFoldConcat(old(des.Net()), old(des.rank), id, old(des.nextNode))
                && des.Net() == FoldedConcat(old(des.Net()), old(des.rank), id, old(des.nextNode))
      ensures AllExact(old(des.Net()), old(des.rank), old(des.driven)) ==>
                (count > old(count) <==> CanFoldConcat(old(des.Net()), old(des.rank), id, old(des.nextNode))
                                         && !old(des.nodes)[id].kind.transparent)
      ensures des.Valid() && des.CacheSound() && des.rank == old(des.rank)
      ensures old(Current(des.Net(), des.rank, des.driven)) ==> Current(des.Net(), des.rank, des.driven)
      ensures old(count) <= count <= old(count) + 1
      ensures Rewritten(old(des.Net()), des.Net(), des.rank, count > old(count))
    {
      NoRewrite(des.Net(), des.rank);
      if des.nodes[id].kind.transparent {
        return;
      }
      assert NodeOk(des.Net().width, des.Net().nodes[id]);
      var constant, result := DrivenInputs(des, id);
      if !constant {
        return;
      }
      FoldIt(des, id, result);
      count := count + 1;
    }

    /** Ask whether a nexus is constant. */
    method Query(des: Design, n: NexusId) returns (constant: bool)
      requires des.Valid() && des.CacheSound() && n in des.width
      modifies des`driven
      ensures des.Valid() && des.CacheSound() && n in des.driven
      ensures constant ==> ConstantNexus(des.Net(), des.rank, n) && !des.driven[n].Var?
      ensures GuessRight(des.Net(), des.rank, n, old(des.driven)[n]) ==> GuessRight(des.Net(), des.rank, n, des.driven[n])
      ensures Current(des.Net(), des.rank, old(des.driven)) ==> Current(des.Net(), des.rank, des.driven)
      ensures AllExact(des.Net(), des.rank, old(des.driven)) ==>
                (constant <==> ConstantNexus(des.Net(), des.rank, n)) && AllExact(des.Net(), des.rank, des.driven)
    {
      ghost var net, rank, d := des.Net(), des.rank, des.driven;
      assert GuessOk(net, rank, n, d[n]);
      constant := des.DriversConstant(n);
      AnsweredSound(net, rank, n, d, des.driven, constant);
      if AllExact(net, rank, d) {
        AnsweredExact(net, rank, n, d, des.driven, constant);
      }
      if Current(net, rank, d) {
        AnsweredCurrent(net, rank, n, d, des.driven, constant);
      }
    }

    /** Whether an input is constant, and its vector if so. */
    method InputVector(des: Design, n: NexusId) returns (constant: bool, vec: Vec)
      requires des.Valid() && des.CacheSound() && n in des.width
      modifies des`driven
      ensures des.Valid() && des.CacheSound()
      ensures Current(des.Net(), des.rank, old(des.driven)) ==> Current(des.Net(), des.rank, des.driven)
      ensures constant ==> ConstantNexus(des.Net(), des.rank, n) && vec == DrivenVector(des.Net(), des.rank, n)
      ensures AllExact(des.Net(), des.rank, old(des.driven)) ==>
                (constant <==> ConstantNexus(des.Net(), des.rank, n)) && AllExact(des.Net(), des.rank, des.driven)
    {
      vec := [];
      constant := Query(des, n);
      if constant {
        vec := des.DrivenVectorOf(n);
      }
    }

    /** The loop over the inputs: whether all are constant, and the result if so. */
    method DrivenInputs(des: Design, id: NodeId) returns (constant: bool, result: Vec)
      requires des.Valid() && des.CacheSound() && id in des.nodes && des.nodes[id].kind.Concat?
      requires NodeOk(des.width, des.nodes[id])
      modifies des`driven
      ensures des.Valid() && des.CacheSound()
      ensures Current(des.Net(), des.rank, old(des.driven)) ==> Current(des.Net(), des.rank, des.driven)
      ensures !constant && AllExact(des.Net(), des.rank, old(des.driven)) ==>
                !AllConstant(des.Net(), des.rank, des.nodes[id].pins[1..])
      ensures constant ==> AllConstant(des.Net(), des.rank, des.nodes[id].pins[1..])
                           && result == DrivenConcat(des.Net(), des.rank, des.nodes[id].pins[1..])
    {
      var pins := des.nodes[id].pins;
      constant, result := FillIn(des, pins, des.width[pins[0]]);
    }

    /** Fill in the vectors of all pins after the first one, from bit 0 on. */
    method FillIn(des: Design, pins: seq<NexusId>, wid: nat) returns (constant: bool, result: Vec)
      requires des.Valid() && des.CacheSound() && |pins| >= 1 && AllIn(des.width, pins)
      requires wid == SumWidths(des.width, pins[1..])
      modifies des`driven
      ensures des.Valid() && des.CacheSound()
      ensures Current(des.Net(), des.rank, old(des.driven)) ==> Current(des.Net(), des.rank, des.driven)
      ensures !constant && AllExact(des.Net(), des.rank, old(des.driven)) ==> !AllConstant(des.Net(), des.rank, pins[1..])
      ensures constant ==> AllConstant(des.Net(), des.rank, pins[1..])
                           && result == DrivenConcat(des.Net(), des.rank, pins[1..])
    {
      ghost var net, rank, exact, ins := des.Net(), des.rank, AllExact(des.Net(), des.rank, des.driven), pins[1..];
      ghost var current := Current(net, rank, des.driven);
      result := Fill(Vz, wid);
      FilledStart(net, rank, ins, result);
      var off: nat := 0;
      var idx := 1;
      while idx < |pins|
        invariant 1 <= idx <= |pins|
        invariant des.Valid() && des.CacheSound()
        invariant exact ==> AllExact(net, rank, des.driven)
        invariant current ==> Current(net, rank, des.driven)
        invariant Filled(net, rank, ins, idx - 1, result, off)
      {
        constant, result, off := FillOne(des, ins, idx - 1, pins[idx], result, off);
        if !constant {
          return;
        }
        idx := idx + 1;
      }
      FilledEnd(net, rank, ins, idx - 1, result, off);
      return true, result;
    }

    method FillOne(des: Design, ghost ins: seq<NexusId>, ghost i: nat, n: NexusId, before: Vec, off: nat)
      returns (constant: bool, result: Vec, off': nat)
      requires des.Valid() && des.CacheSound() && AllIn(des.width, ins) && i < |ins| && n == ins[i]
      requires Filled(des.Net(), des.rank, ins, i, before, off)
      modifies des`driven
      ensures des.Valid() && des.CacheSound()
      ensures Current(des.Net(), des.rank, old(des.driven)) ==> Current(des.Net(), des.rank, des.driven)
      ensures constant ==> Filled(des.Net(), des.rank, ins, i + 1, result, off')
      ensures AllExact(des.Net(), des.rank, old(des.driven)) ==>
                (constant <==> ConstantNexus(des.Net(), des.rank, n)) && AllExact(des.Net(), des.rank, des.driven)
    {
      var tmp;
      constant, tmp := InputVector(des, n);
      if !constant {
        return false, before, off;
      }
      ConcatTurn(des.Net(), des.rank, ins, i, before, off, tmp);
      result := Overlay(before, off, tmp);
      off' := off + |tmp|;
    }

    method FoldIt(des: Design, id: NodeId, result: Vec)
      requires des.Valid() && des.CacheSound() && CanFoldConcat(des.Net(), des.rank, id, des.nextNode)
      requires result == DrivenConcat(des.Net(), des.rank, des.nodes[id].pins[1..])
      modifies des
      ensures des.Valid() && des.CacheSound() && des.rank == old(des.rank)
      ensures Rewritten(old(des.Net()), des.Net(), des.rank, true)
      ensures old(Current(des.Net(), des.rank, des.driven)) ==> Current(des.Net(), des.rank, des.driven)
      ensures des.Net() == FoldedConcat(old(des.Net()), old(des.rank), id, old(des.nextNode))
    {
      ghost var net, rank, d := des.Net(), des.rank, des.driven;
      var node := Node(Const(result), [des.nodes[id].pins[0]]);
      FoldFits(net, rank, id, des.nextNode);
      var added := SwapNode(des, id, node);
      FoldRewritten(net, rank, id, added, d, des.driven);
      if Current(net, rank, d) {
        FoldSwaps(net, rank, id, added, result);
        SwapCurrent(net, rank, id, added, node, d, des.driven);
      }
    }

    /** The new device takes the place of the old one. */
    method SwapNode(des: Design, id: NodeId, node: Node) returns (added: NodeId)
      requires des.Valid() && id in des.nodes && !des.nodes[id].kind.Signal?
      requires NodeOk(des.width, node) && !node.kind.Substitute? && !node.kind.Signal?
      modifies des
      ensures des.Valid() && des.rank == old(des.rank)
      ensures added == old(des.nextNode) && added !in old(des.nodes)
      ensures des.Net() == Replace(old(des.Net()), {id}, added, node)
      ensures Forgotten(old(des.driven), des.driven)
      ensures |node.pins| > 0 && !PinDir(node.kind, 0).Input? ==> NoGuessAt(des.driven, node.pins[0])
    {
      ghost var net, d := des.Net(), des.driven;
      added := des.AddNode(node);
      ForgetForgets(d, node, |node.pins|);
      ghost var d' := des.driven;
      assert |node.pins| > 0 && !PinDir(node.kind, 0).Input? ==> NoGuessAt(d', node.pins[0]);
      ghost var gone := des.nodes[id];
      des.DeleteNode(id);
      ForgetForgets(d', gone, |gone.pins|);
      SwapShape(net, id, added, node);
    }

    /** Replace a two-way multiplexer whose select is a defined constant by a buffer. If the
        cache holds no outdated guess and no wrong one about the select, only multiplexers whose
        select comes through a substitution are missed. */
    method LpmMux(des: Design, id: NodeId)
      requires des.Valid() && des.CacheSound() && id in des.nodes && des.nodes[id].kind.Mux?
      modifies this`count, des
      ensures count > old(count) ==>
                exists sel :: CanBypassMux(old(des.Net()), old(des.rank), id, old(des.nextNode), sel)
                              && des.Net() == BypassedMux(old(des.Net()), id, old(des.nextNode), sel)
      ensures old(MustBypass(des, id)) ==> count > old(count)
      ensures des.Valid() && des.CacheSound() && des.rank == old(des.rank)
      ensures old(Current(des.Net(), des.rank, des.driven)) ==> Current(des.Net(), des.rank, des.driven)
      ensures old(count) <= count <= old(count) + 1
      ensures Rewritten(old(des.Net()), des.Net(), des.rank, count > old(count))
    {
      NoRewrite(des.Net(), des.rank);
      var selVal := SelectOf(des, id);
      if selVal == Vz || selVal == Vx {
        return;
      }
      BypassIt(des, id, selVal);
      count := count + 1;
    }

    /** The value of the select if the multiplexer can be replaced, and otherwise x or z. */
    method SelectOf(des: Design, id: NodeId) returns (selVal: V)
      requires des.Valid() && des.CacheSound() && id in des.nodes && des.nodes[id].kind.Mux?
      modifies des`driven
      ensures des.Valid() && des.CacheSound()
      ensures Current(des.Net(), des.rank, old(des.driven)) ==> Current(des.Net(), des.rank, des.driven)
      ensures selVal == V0 || selVal == V1 ==> CanBypassMux(des.Net(), des.rank, id, des.nextNode, selVal)
      ensures old(MustBypass(des, id)) ==> selVal == V0 || selVal == V1
    {
      assert NodeOk(des.Net().width, des.Net().nodes[id]);
      if des.nodes[id].kind.size != 2 {
        return Vz;
      }
      if des.nodes[id].kind.selWidth != 1 {
        return Vz;
      }
      var selNexus := des.nodes[id].pins[1];
      var constant := Query(des, selNexus);
      if !constant {
        return Vz;
      }
      selVal := Select(des, selNexus);
    }

    ghost predicate MustBypass(des: Design, id: NodeId)
      requires des.Valid()
      reads des
    {
      && Bypassable(des.Net(), des.rank, id, des.nextNode)
      && Noticed(des.Net(), des.rank, des.driven, des.nodes[id].pins[1])
    }

    ghost predicate Bypassable(net: Netlist, rank: NexusId -> nat, id: NodeId, added: NodeId) {
      exists sel :: CanBypassMux(net, rank, id, added, sel)
    }

    lemma CurrentMustBypass(des: Design, id: NodeId)
      requires des.Valid() && Current(des.Net(), des.rank, des.driven) && CanBeBypassed(des.Net(), des.rank, id)
      ensures MustBypass(des, id)
    {
      var added, sel :| CanBypassMux(des.Net(), des.rank, id, added, sel);
      assert CanBypassMux(des.Net(), des.rank, id, des.nextNode, sel);
    }

    /** The value of a constant select: right unless it is z. */
    method Select(des: Design, n: NexusId) returns (val: V)
      requires des.Valid() && des.CacheSound() && n in des.width && des.width[n] == 1
      requires ConstantNexus(des.Net(), des.rank, n) && n in des.driven && !des.driven[n].Var?
      modifies des`driven
      ensures des.Valid() && des.CacheSound()
      ensures Current(des.Net(), des.rank, old(des.driven)) ==> Current(des.Net(), des.rank, des.driven)
      ensures val != Vz ==> DrivenVector(des.Net(), des.rank, n) == [val]
      ensures GuessRight(des.Net(), des.rank, n, old(des.driven)[n]) && !SubstituteDriven(des.Net(), n) ==>
                DrivenVector(des.Net(), des.rank, n) == [val]
    {
      assert GuessOk(des.Net(), des.rank, n, des.driven[n]);
      val := des.DrivenValue(n);
    }

    /** Nothing wrong about the nexus is cached, nothing cached is outdated, and no
        substitution drives it. */
    ghost predicate Noticed(net: Netlist, rank: NexusId -> nat, d: map<NexusId, Guess>, n: NexusId)
      requires WellFormed(net) && Ranked(net, rank)
    {
      n in d && GuessRight(net, rank, n, d[n]) && AllExact(net, rank, d) && !SubstituteDriven(net, n)
    }

    method BypassIt(des: Design, id: NodeId, selVal: V)
      requires des.Valid() && des.CacheSound()
      requires CanBypassMux(des.Net(), des.rank, id, des.nextNode, selVal)
      modifies des
      ensures des.Valid() && des.CacheSound() && des.rank == old(des.rank)
      ensures Rewritten(old(des.Net()), des.Net(), des.rank, true)
      ensures old(Current(des.Net(), des.rank, des.driven)) ==> Current(des.Net(), des.rank, des.driven)
      ensures des.Net() == BypassedMux(old(des.Net()), id, old(des.nextNode), selVal)
    {
      ghost var net, rank, d := des.Net(), des.rank, des.driven;
      var pins := des.nodes[id].pins;
      var node := Node(BufZ, [pins[0], if selVal == V1 then pins[3] else pins[2]]);
      BypassFits(net, rank, id, des.nextNode, selVal);
      var added := SwapNode(des, id, node);
      BypassRewritten(net, rank, id, added, selVal, d, des.driven);
      if Current(net, rank, d) {
        BypassSwaps(net, rank, id, added, selVal);
        SwapCurrent(net, rank, id, added, node, d, des.driven);
      }
    }

    /** Merge the part selects that drive the target of one of them into a concatenation,
        exactly if they can be. */
    method LpmPartSelect(des: Design, id: NodeId)
      requires des.Valid() && des.CacheSound() && id in des.nodes
      requires des.nodes[id].kind.PartPV? || des.nodes[id].kind.PartVP?
      requires |des.nodes[id].pins| == 2
      modifies this`count, des
      ensures count > old(count) <==>
              old(des.nodes[id].kind.PartPV? && Mergeable(des.Net(), des.nodes[id].pins[1]))
      ensures count > old(count) ==>
                MergedAll(old(des.Net()), des.Net(), old(des.nodes[id].pins[1]), old(des.nextNexus), old(des.nextNode))
      ensures des.Valid() && des.CacheSound() && des.rank == old(des.rank)
      ensures old(Current(des.Net(), des.rank, des.driven)) ==> Current(des.Net(), des.rank, des.driven)
      ensures old(count) <= count <= old(count) + 1
      ensures Rewritten(old(des.Net()), des.Net(), des.rank, count > old(count))
    {
      NoRewrite(des.Net(), des.rank);
      if !des.nodes[id].kind.PartPV? {
        return;
      }
      assert NodeOk(des.Net().width, des.Net().nodes[id]);
      var nex := des.nodes[id].pins[1];
      var objSet := FindParts(des, nex);
      if |objSet| < 2 {
        return;
      }
      var sigWidth := des.VectorWidth(nex);
      var partCount := CountParts(des, objSet, nex, sigWidth);
      MergeThem(des, objSet, nex, sigWidth, partCount);
      count := count + 1;
    }

    /** The part selects to be merged, in order, or none. */
    method FindParts(des: Design, nex: NexusId) returns (objSet: seq<NodeId>)
      requires des.Valid() && nex in des.width
      ensures |objSet| >= 2 <==> Mergeable(des.Net(), nex)
      ensures |objSet| >= 2 ==> ListsParts(des.Net(), objSet, nex) && Sorted(des.Net(), objSet, nex)
                                && InOrder(des.Net(), objSet, nex, 0, des.width[nex])
    {
      var found;
      found, objSet := CollectParts(des, nex);
      if !found {
        return [];
      }
      ListsTwo(des.Net(), objSet, nex);
      if |objSet| < 2 {
        return;
      }
      ghost var ids := IdsOf(objSet);
      objSet := SortByBase(des, objSet, nex);
      assert forall id | IsPart(des.Net(), id, nex) :: id in ids;
      PartsHaveWidth(des, objSet, nex);
      ChecksDecide(des.Net(), objSet, nex);
      var sigWidth := des.VectorWidth(nex);
      var fits := CheckParts(des, objSet, nex, sigWidth);
      if !fits {
        return [];
      }
    }

    lemma PartsHaveWidth(des: Design, parts: seq<NodeId>, target: NexusId)
      requires des.Valid() && AllParts(des.Net(), parts, target)
      ensures forall i | 0 <= i < |parts| :: Base(des.Net(), parts[i]) < Top(des.Net(), parts[i])
    {
      forall i | 0 <= i < |parts| ensures Base(des.Net(), parts[i]) < Top(des.Net(), parts[i]) {
        assert IsPart(des.Net(), parts[i], target) && NodeOk(des.Net().width, des.Net().nodes[parts[i]]);
      }
    }

    /** The part selects driving the nexus, if nothing else that is an output is on it. */
    method CollectParts(des: Design, nex: NexusId) returns (found: bool, parts: seq<NodeId>)
      requires des.Valid() && nex in des.width
      ensures found <==> OnlyParts(des.Net(), nex)
      ensures found ==> ListsParts(des.Net(), parts, nex)
    {
      ghost var net := des.Net();
      parts := [];
      for i := 0 to |des.links[nex]|
        invariant AllParts(net, parts, nex) && NoDup(parts)
        invariant forall id | id in parts :: Link(id, 1) in des.links[nex][..i]
        invariant forall l | l in des.links[nex][..i] && IsLink(net, l, nex) && PinDir(net.nodes[l.node].kind, l.pin).Output? ::
                    l.node in parts && l.pin == 1
      {
        var l := des.links[nex][i];
        assert IsLink(net, l, nex) && NodeOk(net.width, net.nodes[l.node]);
        assert des.links[nex][..i + 1] == des.links[nex][..i] + [l];
        var k := des.nodes[l.node].kind;
        if PinDir(k, l.pin).Output? {
          if !k.PartPV? {
            return false, [];
          }
          if l.pin != 1 {
            return false, [];
          }
          assert l.node !in parts;
          parts := parts + [l.node];
        }
      }
      assert des.links[nex][..|des.links[nex]|] == des.links[nex];
      forall id | IsPart(net, id, nex) ensures id in parts {
        assert IsLink(net, Link(id, 1), nex) && Link(id, 1) in des.links[nex];
      }
      return true, parts;
    }

    /** Sorting by increasing base. */
    method SortByBase(des: Design, parts: seq<NodeId>, target: NexusId) returns (sorted: seq<NodeId>)
      requires AllParts(des.Net(), parts, target) && NoDup(parts)
      ensures AllParts(des.Net(), sorted, target) && Sorted(des.Net(), sorted, target) && NoDup(sorted)
      ensures |sorted| == |parts| && IdsOf(sorted) == IdsOf(parts)
    {
      sorted := [];
      for i := 0 to |parts|
        invariant |sorted| == i && IdsOf(sorted) == IdsOf(parts[..i]) && NoDup(sorted)
        invariant AllParts(des.Net(), sorted, target) && Sorted(des.Net(), sorted, target)
      {
        assert IsPart(des.Net(), parts[i], target);
        IdsSnoc(parts, i);
        assert parts[i] !in IdsOf(parts[..i]);
        sorted := Insert(des, sorted, parts[i], target);
      }
      assert parts[..|parts|] == parts;
    }

    method Insert(des: Design, sorted: seq<NodeId>, id: NodeId, target: NexusId) returns (longer: seq<NodeId>)
      requires AllParts(des.Net(), sorted, target) && Sorted(des.Net(), sorted, target) && IsPart(des.Net(), id, target)
      requires NoDup(sorted) && id !in IdsOf(sorted)
      ensures AllParts(des.Net(), longer, target) && Sorted(des.Net(), longer, target) && NoDup(longer)
      ensures |longer| == |sorted| + 1 && IdsOf(longer) == IdsOf(sorted) + {id}
    {
      var j := |sorted|;
      while j > 0 && des.nodes[id].kind.base < des.nodes[sorted[j - 1]].kind.base
        invariant 0 <= j <= |sorted|
        invariant forall k | j <= k < |sorted| :: Base(des.Net(), id) <= Base(des.Net(), sorted[k])
      {
        j := j - 1;
      }
      longer := sorted[..j] + [id] + sorted[j..];
      IdsInsert(sorted, j, id);
      NoDupInsert(sorted, j, id);
      SortedInsert(des.Net(), sorted, j, id, target);
    }

    /** No part overlaps the next one, and the last one ends inside the target. */
    method CheckParts(des: Design, parts: seq<NodeId>, target: NexusId, sigWidth: nat) returns (fits: bool)
      requires AllParts(des.Net(), parts, target) && |parts| > 0
      ensures fits ==> InOrder(des.Net(), parts, target, 0, sigWidth)
      ensures fits <==> NoAdjacentOverlap(des.Net(), parts, target)
                        && Top(des.Net(), parts[|parts| - 1]) <= sigWidth
    {
      var idx := 1;
      while idx < |parts|
        invariant 1 <= idx <= |parts|
        invariant forall i | 0 < i < idx :: Top(des.Net(), parts[i - 1]) <= Base(des.Net(), parts[i])
      {
        assert IsPart(des.Net(), parts[idx - 1], target) && IsPart(des.Net(), parts[idx], target);
        var prev := des.nodes[parts[idx - 1]].kind;
        if prev.base + prev.pvWidth > des.nodes[parts[idx]].kind.base {
          return false;
        }
        idx := idx + 1;
      }
      assert IsPart(des.Net(), parts[|parts| - 1], target);
      var last := des.nodes[parts[|parts| - 1]].kind;
      if last.base + last.pvWidth > sigWidth {
        return false;
      }
      ChecksOrder(des.Net(), parts, target, 0, sigWidth);
      return true;
    }

    /** How many inputs the concatenation needs. */
    method CountParts(des: Design, parts: seq<NodeId>, target: NexusId, sigWidth: nat) returns (partCount: nat)
      requires AllParts(des.Net(), parts, target)
      ensures partCount == |LayoutPins(des.Net(), parts, target, 0, sigWidth, 0)|
    {
      ghost var net := des.Net();
      partCount := 0;
      var off: nat := 0;
      for idx := 0 to |parts|
        invariant partCount + |LayoutPins(net, parts[idx..], target, off, sigWidth, 0)|
               == |LayoutPins(net, parts, target, 0, sigWidth, 0)|
      {
        assert IsPart(net, parts[idx], target);
        assert parts[idx..][0] == parts[idx] && parts[idx..][1..] == parts[idx + 1..];
        var part := des.nodes[parts[idx]].kind;
        if part.base > off {
          LayoutCount(net, parts[idx + 1..], target, Top(net, parts[idx]), sigWidth, 0, 1);
          off := part.base;
          partCount := partCount + 1;
        }
        off := off + part.pvWidth;
        partCount := partCount + 1;
      }
      if off < sigWidth {
        partCount := partCount + 1;
      }
    }

    /** Connect the inputs of the concatenation and put it in place of the part selects. */
    method MergeThem(des: Design, parts: seq<NodeId>, target: NexusId, sigWidth: nat, partCount: nat)
      requires des.Valid() && des.CacheSound() && target in des.width && sigWidth == des.width[target]
      requires AllParts(des.Net(), parts, target) && InOrder(des.Net(), parts, target, 0, sigWidth)
      requires |parts| >= 2 && ListsParts(des.Net(), parts, target) && Sorted(des.Net(), parts, target)
      requires partCount == |LayoutPins(des.Net(), parts, target, 0, sigWidth, 0)|
      modifies des
      ensures des.Valid() && des.CacheSound() && des.rank == old(des.rank)
      ensures old(Current(des.Net(), des.rank, des.driven)) ==> Current(des.Net(), des.rank, des.driven)
      ensures Rewritten(old(des.Net()), des.Net(), des.rank, true)
      ensures MergedAll(old(des.Net()), des.Net(), target, old(des.nextNexus), old(des.nextNode))
    {
      NoDupSize(parts);
      ghost var net0, rank, next, id, d := des.Net(), des.rank, des.nextNexus, des.nextNode, des.driven;
      ghost var gaps := LayoutGaps(net0, parts, target, 0, sigWidth);
      var pins := ConnectParts(des, parts, target, sigWidth);
      LayoutCount(net0, parts, target, 0, sigWidth, 0, next);
      assert |pins| == partCount;
      ghost var net, d' := des.Net(), des.driven;
      FloatedBuilding(net0, net, rank, parts, target, next, id, gaps, d, d');
      MergeFits(net0, net, rank, parts, target, next, gaps, pins, des.nextNode);
      var added := ReplaceParts(des, parts, target, pins);
      MergeRewritten(net0, net, rank, parts, target, next, gaps, pins, added, d', des.driven);
      MergedIntoBy(net0, net, des.Net(), parts, target, next, id, gaps, pins, added);
      if Current(net0, rank, d) {
        ForgottenTransitive(d, d', des.driven);
        MergeCurrent(net0, rank, parts, target, next, id, gaps, pins, added, d, des.driven);
      }
    }

    /** The inputs, least significant first, with a new floating nexus for every gap. */
    method ConnectParts(des: Design, parts: seq<NodeId>, target: NexusId, sigWidth: nat) returns (pins: seq<NexusId>)
      requires des.Valid() && AllParts(des.Net(), parts, target)
      modifies des
      ensures des.Valid() && des.rank == old(des.rank)
      ensures pins == LayoutPins(old(des.Net()), parts, target, 0, sigWidth, old(des.nextNexus))
      ensures des.Net() == Floated(old(des.Net()), LayoutGaps(old(des.Net()), parts, target, 0, sigWidth),
                                   old(des.nextNexus), old(des.nextNode))
      ensures des.nextNode == old(des.nextNode) + 2 * |LayoutGaps(old(des.Net()), parts, target, 0, sigWidth)|
      ensures Forgotten(old(des.driven), des.driven)
    {
      ghost var net0, d, next, id := des.Net(), des.driven, des.nextNexus, des.nextNode;
      ghost var lay := Layout([], [], 0);
      pins := [];
      var off: nat := 0;
      for idx := 0 to |parts|
        invariant des.Valid() && des.rank == old(des.rank)
        invariant Gapped(net0, des.Net(), lay.gaps, next, id, des.nextNexus, des.nextNode)
        invariant Forgotten(d, des.driven)
        invariant LaidOut(net0, parts, target, idx, sigWidth, lay, next) && pins == lay.pins && off == lay.off
      {
        GappedPart(net0, des.Net(), lay.gaps, next, id, des.nextNexus, des.nextNode, parts, target, idx);
        LaidOutStep(net0, parts, target, idx, sigWidth, lay, next);
        var part := des.nodes[parts[idx]];
        pins, off := FillGap(des, net0, next, id, lay, pins, off, part.kind.base, d);
        pins := pins + [part.pins[0]];
        off := off + part.kind.pvWidth;
        lay := AfterPart(lay, part, next);
      }
      LaidOutEnd(net0, parts, target, sigWidth, lay, next);
      pins, off := FillGap(des, net0, next, id, lay, pins, off, sigWidth, d);
    }

    /** A floating nexus for the bits up to `base`, if any are left undriven. */
    method FillGap(des: Design, ghost net0: Netlist, ghost next: NexusId, ghost id: NodeId, ghost lay: Layout,
                   pins: seq<NexusId>, off: nat, base: nat, ghost d: map<NexusId, Guess>)
      returns (pins': seq<NexusId>, off': nat)
      requires des.Valid() && pins == lay.pins && off == lay.off && Forgotten(d, des.driven)
      requires Gapped(net0, des.Net(), lay.gaps, next, id, des.nextNexus, des.nextNode)
      modifies des
      ensures des.Valid() && des.rank == old(des.rank) && Forgotten(d, des.driven)
      ensures Gapped(net0, des.Net(), AfterGap(lay, base, next).gaps, next, id, des.nextNexus, des.nextNode)
      ensures pins' == AfterGap(lay, base, next).pins && off' == AfterGap(lay, base, next).off
    {
      pins', off' := pins, off;
      if base > off {
        ghost var d' := des.driven;
        var zzz := AddGap(des, net0, next, id, lay.gaps, base - off);
        ForgottenTransitive(d, d', des.driven);
        pins' := pins + [zzz];
        off' := base;
      }
    }

    method AddGap(des: Design, ghost net0: Netlist, ghost next: NexusId, ghost id: NodeId, ghost gaps: seq<nat>, w: nat)
      returns (zzz: NexusId)
      requires des.Valid() && w > 0
      requires Gapped(net0, des.Net(), gaps, next, id, des.nextNexus, des.nextNode)
      modifies des
      ensures des.Valid() && des.rank == old(des.rank)
      ensures zzz == next + |gaps|
      ensures Gapped(net0, des.Net(), gaps + [w], next, id, des.nextNexus, des.nextNode)
      ensures Forgotten(old(des.driven), des.driven)
    {
      zzz := des.MakeConstZ(w);
      assert (gaps + [w])[..|gaps|] == gaps;
    }

    /** The concatenation is added and the part selects are deleted. */
    method ReplaceParts(des: Design, parts: seq<NodeId>, target: NexusId, pins: seq<NexusId>) returns (added: NodeId)
      requires des.Valid() && AllParts(des.Net(), parts, target) && NodeOk(des.width, MergedNode(target, pins))
      modifies des
      ensures des.Valid() && des.rank == old(des.rank)
      ensures added == old(des.nextNode) && added !in old(des.nodes)
      ensures des.Net() == Merged(old(des.Net()), parts, target, pins, added)
      ensures Forgotten(old(des.driven), des.driven)
      ensures NoGuessAt(des.driven, target)
    {
      ghost var net, d := des.Net(), des.driven;
      var node := MergedNode(target, pins);
      added := des.AddNode(node);
      ForgetForgets(d, node, |node.pins|);
      assert PinDir(node.kind, 0).Output? && node.pins[0] == target && NoGuessAt(des.driven, target);
      PartsStay(net, parts, target, added, node);
      DeleteParts(des, parts, target);
      DeleteAfterAdd(net.nodes, IdsOf(parts), added, node);
    }

    method DeleteParts(des: Design, parts: seq<NodeId>, target: NexusId)
      requires des.Valid() && AllParts(des.Net(), parts, target)
      modifies des`nodes, des`links, des`driven
      ensures des.Valid()
      ensures des.nodes == old(des.nodes) - IdsOf(parts)
      ensures Forgotten(old(des.driven), des.driven)
    {
      ghost var nodes, d := des.nodes, des.driven;
      for idx := 0 to |parts|
        invariant des.Valid()
        invariant des.nodes == nodes - IdsOf(parts[..idx])
        invariant Forgotten(d, des.driven)
      {
        assert IsPart(Netlist(nodes, des.width), parts[idx], target);
        IdsSnoc(parts, idx);
        if parts[idx] in des.nodes {
          DeletePart(des, parts[idx]);
        }
      }
      assert parts[..|parts|] == parts;
    }

    method DeletePart(des: Design, id: NodeId)
      requires des.Valid() && id in des.nodes && des.nodes[id].kind.PartPV?
      modifies des`nodes, des`links, des`driven
      ensures des.Valid()
      ensures des.nodes == old(des.nodes) - {id}
      ensures Forgotten(old(des.driven), des.driven)
    {
      ghost var d, gone := des.driven, des.nodes[id];
      des.DeleteNode(id);
      ForgetForgets(d, gone, |gone.pins|);
    }
  }

  class CpropDcFunctor {

    constructor () {
    }

    /** Delete a constant that is z on all bits, or whose nexus nothing takes input from and
        shows to no one. */
    method LpmConst(des: Design, id: NodeId) returns (dropped: bool)
      requires des.Valid() && id in des.nodes && des.nodes[id].kind.Const? && |des.nodes[id].pins| == 1
      modifies des
      ensures des.Valid()
      ensures dropped <==> AllZ(old(des.nodes)[id].kind.value) || NoReason(old(des.Net()), old(des.nodes)[id].pins[0])
      ensures des.Net() == if dropped then Drop(old(des.Net()), id) else old(des.Net())
    {
      ghost var net := des.Net();
      assert NodeOk(net.width, net.nodes[id]);
      var obj := des.nodes[id];
      var tmp := 0;
      for idx := 0 to |obj.kind.value|
        invariant tmp <= idx && (tmp == idx <==> AllZ(obj.kind.value[..idx]))
      {
        assert obj.kind.value[..idx + 1] == obj.kind.value[..idx] + [obj.kind.value[idx]];
        if obj.kind.value[idx] == Vz {
          tmp := tmp + 1;
        }
      }
      assert obj.kind.value[..|obj.kind.value|] == obj.kind.value;
      if tmp == |obj.kind.value| {
        des.DeleteNode(id);
        return true;
      }
      var nex := obj.pins[0];
      var inputs := CountInputs(des, nex);
      if inputs > 0 {
        return false;
      }
      var seen := ShowsSignal(des, nex);
      if seen {
        return false;
      }
      des.DeleteNode(id);
      return true;
    }

    method CountInputs(des: Design, n: NexusId) returns (inp: nat)
      requires des.Valid() && n in des.width
      ensures inp > 0 <==> exists l :: IsLink(des.Net(), l, n) && PinDir(des.nodes[l.node].kind, l.pin).Input?
    {
      ghost var net := des.Net();
      inp := 0;
      for i := 0 to |des.links[n]|
        invariant inp > 0 <==> exists l :: l in des.links[n][..i] && IsLink(net, l, n) && PinDir(net.nodes[l.node].kind, l.pin).Input?
      {
        var l := des.links[n][i];
        assert IsLink(net, l, n);
        assert des.links[n][..i + 1] == des.links[n][..i] + [l];
        if PinDir(des.nodes[l.node].kind, l.pin).Input? {
          inp := inp + 1;
        }
      }
      assert des.links[n][..|des.links[n]|] == des.links[n];
    }

    /** Some signal on the nexus is named in the source, read by an expression, or a port of
        a root module. */
    method ShowsSignal(des: Design, n: NexusId) returns (seen: bool)
      requires des.Valid() && n in des.width
      ensures seen <==> exists l :: IsLink(des.Net(), l, n) && des.nodes[l.node].kind.Signal?
                                    && SigSeen(des.nodes[l.node].kind.sig)
    {
      ghost var net := des.Net();
      for i := 0 to |des.links[n]|
        invariant forall l | l in des.links[n][..i] && IsLink(net, l, n) && net.nodes[l.node].kind.Signal? ::
                    !SigSeen(net.nodes[l.node].kind.sig)
      {
        var l := des.links[n][i];
        assert IsLink(net, l, n);
        assert des.links[n][..i + 1] == des.links[n][..i] + [l];
        var k := des.nodes[l.node].kind;
        if k.Signal? {
          if !k.sig.local {
            return true;
          }
          if k.sig.eref > 0 {
            return true;
          }
          if !k.sig.port.NotAPort? && k.sig.root {
            return true;
          }
        }
      }
      assert des.links[n][..|des.links[n]|] == des.links[n];
      return false;
    }
  }

  // ---- The pass ----

  /** Rewrites in a row: they keep the meaning, and each uses up a candidate. */
  ghost predicate Progress(net: Netlist, net': Netlist, rank: NexusId -> nat, count: nat) {
    && Keeps(net, net', rank)
    && count + |Candidates(net')| <= |Candidates(net)|
  }

  lemma ProgressTransitive(a: Netlist, b: Netlist, c: Netlist, rank: NexusId -> nat, i: nat, j: nat)
    requires Progress(a, b, rank, i) && Progress(b, c, rank, j)
    ensures Progress(a, c, rank, i + j)
  {
    KeepsTransitive(a, b, c, rank);
  }

  /** The part select is on a nexus whose part selects can be merged. */
  ghost predicate CanBeMerged(net: Netlist, id: NodeId) {
    id in net.nodes && net.nodes[id].kind.PartPV? && |net.nodes[id].pins| == 2 && Mergeable(net, net.nodes[id].pins[1])
  }

  /** No device is left to rewrite. */
  ghost predicate Finished(net: Netlist, rank: NexusId -> nat) {
    forall id :: !CanBeFolded(net, rank, id) && !CanBeBypassed(net, rank, id) && !CanBeMerged(net, id)
  }

  /** One scan over the devices present at its start, in any order. If it rewrites nothing
      then there are no part selects left to merge, and, while all guesses are current,
      nothing at all. */
  method Scan(prop: CpropFunctor, des: Design)
    requires des.Valid() && des.CacheSound()
    modifies prop, des
    ensures des.Valid() && des.CacheSound()
    ensures prop.count >= old(prop.count)
    ensures prop.count == old(prop.count) ==> forall id :: !CanBeMerged(des.Net(), id)
    ensures old(Current(des.Net(), des.rank, des.driven)) ==> Current(des.Net(), des.rank, des.driven)
    ensures old(Current(des.Net(), des.rank, des.driven)) && prop.count == old(prop.count) ==> Finished(des.Net(), des.rank)
    ensures des.rank == old(des.rank) && Progress(old(des.Net()), des.Net(), des.rank, prop.count - old(prop.count))
  {
    ghost var net0, rank, start, current := des.Net(), des.rank, prop.count, Current(des.Net(), des.rank, des.driven);
    EquivalentReflexive(net0);
    var todo := des.nodes.Keys;
    while todo != {}
      invariant des.Valid() && des.CacheSound() && prop.count >= start
      invariant des.rank == rank && Progress(net0, des.Net(), rank, prop.count - start)
      invariant prop.count == start ==> des.Net() == net0 && forall id | id !in todo :: !CanBeMerged(net0, id)
      invariant current ==> Current(des.Net(), rank, des.driven)
      invariant current && prop.count == start ==>
        forall id | id !in todo :: !CanBeFolded(net0, rank, id) && !CanBeBypassed(net0, rank, id)
      decreases todo
    {
      var id :| id in todo;
      todo := todo - {id};
      if id in des.nodes {
        ghost var net, before := des.Net(), prop.count;
        Visit(prop, des, id);
        ProgressTransitive(net0, net, des.Net(), rank, before - start, prop.count - before);
      }
    }
  }

  method Visit(prop: CpropFunctor, des: Design, id: NodeId)
    requires des.Valid() && des.CacheSound() && id in des.nodes
    modifies prop, des
    ensures des.Valid() && des.CacheSound()
    ensures prop.count >= old(prop.count)
    ensures des.rank == old(des.rank) && Progress(old(des.Net()), des.Net(), des.rank, prop.count - old(prop.count))
    ensures prop.count == old(prop.count) ==> des.Net() == old(des.Net()) && !CanBeMerged(des.Net(), id)
    ensures old(Current(des.Net(), des.rank, des.driven)) ==> Current(des.Net(), des.rank, des.driven)
    ensures old(Current(des.Net(), des.rank, des.driven)) && prop.count == old(prop.count) ==>
              !CanBeFolded(des.Net(), des.rank, id) && !CanBeBypassed(des.Net(), des.rank, id)
  {
    EquivalentReflexive(des.Net());
    assert NodeOk(des.Net().width, des.Net().nodes[id]);
    match des.nodes[id].kind
    case Concat(_) => prop.LpmConcat(des, id);
    case Mux(_, _) =>
      if Current(des.Net(), des.rank, des.driven) && CanBeBypassed(des.Net(), des.rank, id) {
        prop.CurrentMustBypass(des, id);
      }
      prop.LpmMux(des, id);
    case PartPV(_, _) => prop.LpmPartSelect(des, id);
    case PartVP(_, _) => prop.LpmPartSelect(des, id);
    case _ =>
  }

  /** Scans until one finds nothing to do. */
  method Rewrite(des: Design) returns (total: nat)
    requires des.Valid() && des.CacheSound()
    modifies des
    ensures des.Valid() && des.CacheSound()
    ensures des.rank == old(des.rank) && Progress(old(des.Net()), des.Net(), des.rank, total)
    ensures forall id :: !CanBeMerged(des.Net(), id)
    ensures old(Current(des.Net(), des.rank, des.driven)) ==> Finished(des.Net(), des.rank)
  {
    ghost var net0, rank, current := des.Net(), des.rank, Current(des.Net(), des.rank, des.driven);
    EquivalentReflexive(net0);
    var prop := new CpropFunctor();
    total := 0;
    var again := true;
    while again
      invariant des.Valid() && des.CacheSound()
      invariant des.rank == rank && Progress(net0, des.Net(), rank, total)
      invariant !again ==> forall id :: !CanBeMerged(des.Net(), id)
      invariant current ==> Current(des.Net(), rank, des.driven) && (!again ==> Finished(des.Net(), rank))
      decreases |Candidates(des.Net())|, again
    {
      ghost var net := des.Net();
      prop.count := 0;
      Scan(prop, des);
      ProgressTransitive(net0, net, des.Net(), rank, total, prop.count);
      total := total + prop.count;
      again := prop.count > 0;
    }
  }

  /** The pass: rewrites, and then a scan that deletes dangling constants. The number of
      rewrites is at most the number of candidates, no settled state shows a different value
      anywhere it can be observed, and no constant is left that has no reason to be. */
  method CpropPass(des: Design) returns (total: nat)
    requires des.Valid() && des.CacheSound()
    modifies des
    ensures des.Valid()
    ensures total <= |Candidates(old(des.Net()))|
    ensures old(Shielded(des.Net()) && PortsApart(des.Net(), des.rank)) ==> Equivalent(old(des.Net()), des.Net())
    ensures forall id :: !Dangles(des.Net(), id)
  {
    ghost var net0, apart := des.Net(), PortsApart(des.Net(), des.rank);
    total := Rewrite(des);
    ghost var net := des.Net();
    DropDangling(des);
    if Shielded(net0) && apart {
      EquivalentTransitive(net0, net, des.Net());
    }
  }

  ghost predicate Dangles(net: Netlist, id: NodeId) {
    id in net.nodes && net.nodes[id].kind.Const? && |net.nodes[id].pins| == 1
    && (AllZ(net.nodes[id].kind.value) || NoReason(net, net.nodes[id].pins[0]))
  }

  /** Deleting a constant gives no other one a reason. */
  lemma DropKeepsReasons(net: Netlist, id: NodeId)
    requires id in net.nodes && net.nodes[id].kind.Const?
    ensures forall k | k != id :: Dangles(Drop(net, id), k) <==> Dangles(net, k)
  {
    forall n ensures NoReason(Drop(net, id), n) <==> NoReason(net, n) {
      assert forall l | IsLink(Drop(net, id), l, n) :: IsLink(net, l, n);
      assert forall l | IsLink(net, l, n) && l.node != id :: IsLink(Drop(net, id), l, n);
    }
  }

  method DropDangling(des: Design)
    requires des.Valid()
    modifies des
    ensures des.Valid()
    ensures Shielded(old(des.Net())) ==> Equivalent(old(des.Net()), des.Net())
    ensures forall id :: !Dangles(des.Net(), id)
  {
    ghost var net0 := des.Net();
    EquivalentReflexive(net0);
    var dc := new CpropDcFunctor();
    var todo := des.nodes.Keys;
    while todo != {}
      invariant des.Valid()
      invariant Shielded(net0) ==> Shielded(des.Net()) && Equivalent(net0, des.Net())
      invariant forall id | id !in todo :: !Dangles(des.Net(), id)
      decreases todo
    {
      var id :| id in todo;
      todo := todo - {id};
      if id in des.nodes && des.nodes[id].kind.Const? {
        ghost var net := des.Net();
        assert NodeOk(net.width, net.nodes[id]);
        DropKeepsReasons(net, id);
        var dropped := dc.LpmConst(des, id);
        if Shielded(net0) && dropped {
          DropEquivalent(net, id);
          EquivalentTransitive(net0, net, des.Net());
        }
      }
    }
  }
}
