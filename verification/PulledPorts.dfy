/** Ports of the root module that are pulled: where a constant nexus is not constant. */
module PulledPorts {
  import opened FourState
  import opened Netlists
  import opened LinkConst
  import opened Rewrites
  import opened Acyclic
  import opened Folding

  function Flip(v: V): V {
    if v == V0 then V1 else if v == V1 then V0 else v
  }

  /** Whatever the root module's ports connect to works against their pulls; all other
      variable drivers are silent. */
  function AgainstPulls(net: Netlist): Env {
    Env((id, pin, vals) =>
          if id in net.nodes && net.nodes[id].kind.Signal? && IsPull(net.nodes[id].kind.sig)
          then Fill(Flip(PullValue(net.nodes[id].kind.sig)), net.nodes[id].kind.sig.width)
          else [])
  }

  lemma SolePortResolves(net: Netlist, val: Valuation, l: Link, n: NexusId, b: nat)
    requires WellFormed(net) && Fits(net.width, val) && n in net.width && b < net.width[n]
    requires OnlyDriver(net, l, n) && IsPulledPort(net.nodes[l.node].kind)
    ensures ResolvedBit(net, Out(net.width, AgainstPulls(net), val), n, b) == Flip(PullValue(net.nodes[l.node].kind.sig))
  {
    var env, s := AgainstPulls(net), net.nodes[l.node].kind.sig;
    assert NodeOk(net.width, net.nodes[l.node]);
    assert Out(net.width, env, val)(l.node, net.nodes[l.node], l.pin) == Fill(Flip(PullValue(s)), s.width);
    OnlyDrives(net, env, val, l, n, b, V0);
    OnlyDrives(net, env, val, l, n, b, V1);
    OnlyDrives(net, env, val, l, n, b, Vx);
    SolePullTypes(net, l, n);
  }

  /** Against the pulls every bit that is read from a pulled port settles at the opposite of
      the driven vector. */
  lemma {:induction false} ExposedFlips(net: Netlist, rank: NexusId -> nat, val: Valuation, n: NexusId, b: nat)
    requires WellFormed(net) && Ranked(net, rank) && n in net.width && b < net.width[n]
    requires ConstantNexus(net, rank, n) && Exposed(net, rank, n, b)
    requires Solution(net, AgainstPulls(net), val)
    ensures val[n][b] == Flip(DrivenVector(net, rank, n)[b])
    decreases rank(n)
  {
    var env := AgainstPulls(net);
    var l := ExposedDriver(net, rank, n, b);
    var node := net.nodes[l.node];
    if node.kind.Substitute? {
      SubstituteBit(net, rank, env, val, l, n, b);
      ExposedThrough(net, rank, l, n, b);
      var (m, c) := SourceOf(net, node, b);
      ExposedFlips(net, rank, val, m, c);
    } else {
      PortFlips(net, rank, val, l, n, b);
    }
  }

  lemma PortFlips(net: Netlist, rank: NexusId -> nat, val: Valuation, l: Link, n: NexusId, b: nat)
    requires WellFormed(net) && Ranked(net, rank) && n in net.width && b < net.width[n]
    requires ConstantNexus(net, rank, n) && SoleDriver(net, l, n) && IsPulledPort(net.nodes[l.node].kind)
    requires Solution(net, AgainstPulls(net), val)
    ensures val[n][b] == Flip(DrivenVector(net, rank, n)[b])
  {
    SoleDriverVector(net, rank, l, n);
    SoleIsOnly(net, rank, l, n);
    SolePortResolves(net, val, l, n, b);
    assert val[n][b] == ResolvedBit(net, Out(net.width, AgainstPulls(net), val), n, b);
  }

  /** The nexus carries its driven vector in all settled states. */
  ghost predicate AlwaysDriven(net: Netlist, rank: NexusId -> nat, n: NexusId)
    requires WellFormed(net) && Ranked(net, rank) && n in net.width && ConstantNexus(net, rank, n)
  {
    forall env, val | Solution(net, env, val) :: val[n] == DrivenVector(net, rank, n)
  }

  /** In a netlist without loops, a nexus that the scan finds constant is constant, with the
      driven vector, exactly if none of its bits is read from a pulled port of the root
      module. */
  lemma ConstantExactly(net: Netlist, rank: NexusId -> nat, level: NexusId -> nat, n: NexusId)
    requires WellFormed(net) && Ranked(net, rank) && IsAcyclic(net, AgainstPulls(net), level)
    requires n in net.width && ConstantNexus(net, rank, n)
    ensures AlwaysDriven(net, rank, n) <==> Unexposed(net, rank, n)
  {
    if Unexposed(net, rank, n) {
      forall env, val | Solution(net, env, val)
        ensures val[n] == DrivenVector(net, rank, n)
      {
        ConstantSound(net, rank, env, val, n);
      }
    } else {
      var b: nat :| b < net.width[n] && Exposed(net, rank, n, b);
      var env := AgainstPulls(net);
      var val := AtLeastOneState(net, level, env);
      ExposedFlips(net, rank, val, n, b);
      ExposedIsPulled(net, rank, n, b);
      assert Solution(net, env, val) && val[n] != DrivenVector(net, rank, n);
    }
  }

  // ---- What becomes of the rewrites ----

  /** A nexus with one driver carries the vector that the device puts on it. */
  lemma SoleDeviceShows(net: Netlist, env: Env, val: Valuation, l: Link, n: NexusId)
    requires WellFormed(net) && Solution(net, env, val) && n in net.width && OnlyDriver(net, l, n)
    requires !net.nodes[l.node].kind.Signal?
    requires |Out(net.width, env, val)(l.node, net.nodes[l.node], l.pin)| == net.width[n]
    ensures val[n] == Out(net.width, env, val)(l.node, net.nodes[l.node], l.pin)
  {
    forall b: nat | b < net.width[n]
      ensures val[n][b] == Out(net.width, env, val)(l.node, net.nodes[l.node], l.pin)[b]
    {
      SoleDeviceResolves(net, env, val, l, n, b);
      assert val[n][b] == ResolvedBit(net, Out(net.width, env, val), n, b);
    }
  }

  /** A device that takes the place of the one driver is the one driver. */
  lemma SoleAfterSwap(net: Netlist, id: NodeId, added: NodeId, node: Node)
    requires CanSwap(net, id, added, node) && OnlyDriver(net, Link(id, 0), node.pins[0])
    ensures OnlyDriver(Replace(net, {id}, added, node), Link(added, 0), node.pins[0])
  {
    var net', n := Replace(net, {id}, added, node), node.pins[0];
    forall l | IsLink(net', l, n) && l != Link(added, 0)
      ensures LinkRole(net', l, n, Silent)
    {
      if l.node != added {
        ReplaceLink(net, {id}, added, node, l, n);
        assert LinkRole(net, l, n, Silent);
      }
    }
  }

  /** What the replacement of a device by `node` shows, in some state that matches one of the
      netlist before. */
  lemma MatchShows(net: Netlist, id: NodeId, added: NodeId, node: Node, env: Env, val: Valuation) returns (val': Valuation)
    requires CanSwap(net, id, added, node) && OnlyDriver(net, Link(id, 0), node.pins[0]) && Observable(net, node.pins[0])
    requires WellFormed(Replace(net, {id}, added, node)) && Equivalent(net, Replace(net, {id}, added, node))
    requires Solution(net, env, val) && (node.kind.Const? || node.kind.BufZ?)
    ensures Solution(Replace(net, {id}, added, node), env, val')
    ensures val[node.pins[0]] == Out(net.width, env, val')(added, node, 0)
  {
    var net', n := Replace(net, {id}, added, node), node.pins[0];
    assert HasMatch(net, net', env, val);
    val' :| Solution(net', env, val') && AgreeOnObservables(net, val, val');
    SoleAfterSwap(net, id, added, node);
    assert NodeOk(net.width, node);
    SoleDeviceShows(net', env, val', Link(added, 0), n);
  }

  lemma {:induction false} ConcatDiffers(net: Netlist, rank: NexusId -> nat, pins: seq<NexusId>, val: Valuation, i: nat)
    requires WellFormed(net) && Ranked(net, rank) && AllConstant(net, rank, pins) && Fits(net.width, val)
    requires i < |pins| && val[pins[i]] != DrivenVector(net, rank, pins[i])
    ensures ConcatVec(val, pins) != DrivenConcat(net, rank, pins)
  {
    var k := net.width[pins[0]];
    var a, b := ConcatVec(val, pins), DrivenConcat(net, rank, pins);
    assert a[..k] == val[pins[0]] && a[k..] == ConcatVec(val, pins[1..]);
    assert b[..k] == DrivenVector(net, rank, pins[0]) && b[k..] == DrivenConcat(net, rank, pins[1..]);
    if i > 0 {
      ConcatDiffers(net, rank, pins[1..], val, i - 1);
    }
  }

  /** Against the pulls, a nexus that is exposed does not carry its driven vector. */
  lemma ExposedDiffers(net: Netlist, rank: NexusId -> nat, val: Valuation, n: NexusId)
    requires WellFormed(net) && Ranked(net, rank) && n in net.width && ConstantNexus(net, rank, n)
    requires !Unexposed(net, rank, n) && Solution(net, AgainstPulls(net), val)
    ensures val[n] != DrivenVector(net, rank, n)
  {
    var b: nat :| b < net.width[n] && Exposed(net, rank, n, b);
    ExposedFlips(net, rank, val, n, b);
    ExposedIsPulled(net, rank, n, b);
  }

  /** Where a concatenation alone drives a nexus that can be seen, folding it preserves
      observable values exactly if it reads nothing from a pulled port. */
  lemma FoldExactly(net: Netlist, rank: NexusId -> nat, level: NexusId -> nat, id: NodeId, added: NodeId)
    requires CanFoldConcat(net, rank, id, added) && IsAcyclic(net, AgainstPulls(net), level)
    requires var n := net.nodes[id].pins[0]; OnlyDriver(net, Link(id, 0), n) && Observable(net, n)
    ensures Equivalent(net, FoldedConcat(net, rank, id, added)) <==> AllUnexposed(net, rank, net.nodes[id].pins[1..])
  {
    var pins := net.nodes[id].pins;
    FoldConcatEquivalent(net, rank, id, added);
    if Equivalent(net, FoldedConcat(net, rank, id, added)) {
      forall i | 0 <= i < |pins[1..]|
        ensures Unexposed(net, rank, pins[1..][i])
      {
        FoldNeeds(net, rank, level, id, added, i);
      }
    }
  }

  lemma FoldNeeds(net: Netlist, rank: NexusId -> nat, level: NexusId -> nat, id: NodeId, added: NodeId, i: nat)
    requires CanFoldConcat(net, rank, id, added) && IsAcyclic(net, AgainstPulls(net), level)
    requires var n := net.nodes[id].pins[0]; OnlyDriver(net, Link(id, 0), n) && Observable(net, n)
    requires WellFormed(FoldedConcat(net, rank, id, added)) && Equivalent(net, FoldedConcat(net, rank, id, added))
    requires i < |net.nodes[id].pins[1..]|
    ensures Unexposed(net, rank, net.nodes[id].pins[1..][i])
  {
    var pins := net.nodes[id].pins;
    var val := AtLeastOneState(net, level, AgainstPulls(net));
    FoldShows(net, rank, id, added, AgainstPulls(net), val);
    if !Unexposed(net, rank, pins[1..][i]) {
      ExposedDiffers(net, rank, val, pins[1..][i]);
      ConcatDiffers(net, rank, pins[1..], val, i);
    }
  }

  /** If the fold preserves observable values, the concatenation carries what it is folded to. */
  lemma FoldShows(net: Netlist, rank: NexusId -> nat, id: NodeId, added: NodeId, env: Env, val: Valuation)
    requires CanFoldConcat(net, rank, id, added) && Solution(net, env, val)
    requires var n := net.nodes[id].pins[0]; OnlyDriver(net, Link(id, 0), n) && Observable(net, n)
    requires WellFormed(FoldedConcat(net, rank, id, added)) && Equivalent(net, FoldedConcat(net, rank, id, added))
    ensures ConcatVec(val, net.nodes[id].pins[1..]) == DrivenConcat(net, rank, net.nodes[id].pins[1..])
  {
    var pins := net.nodes[id].pins;
    var node := Node(Const(DrivenConcat(net, rank, pins[1..])), [pins[0]]);
    assert NodeOk(net.width, net.nodes[id]);
    FoldSwaps(net, rank, id, added, DrivenConcat(net, rank, pins[1..]));
    var val' := MatchShows(net, id, added, node, env, val);
    ConcatShows(net, env, val, id);
  }

  /** A concatenation that alone drives its nexus shows its inputs. */
  lemma ConcatShows(net: Netlist, env: Env, val: Valuation, id: NodeId)
    requires WellFormed(net) && Solution(net, env, val) && id in net.nodes && net.nodes[id].kind.Concat?
    requires NodeOk(net.width, net.nodes[id]) && OnlyDriver(net, Link(id, 0), net.nodes[id].pins[0])
    ensures val[net.nodes[id].pins[0]] == ConcatVec(val, net.nodes[id].pins[1..])
  {
    ConcatVecWidth(net.width, val, net.nodes[id].pins[1..]);
    SoleDeviceShows(net, env, val, Link(id, 0), net.nodes[id].pins[0]);
  }

  lemma {:induction false} ConcatVecWidth(width: map<NexusId, nat>, val: Valuation, pins: seq<NexusId>)
    requires Fits(width, val) && forall i | 0 <= i < |pins| :: pins[i] in width
    ensures |ConcatVec(val, pins)| == SumWidths(width, pins)
  {
    if pins != [] {
      ConcatVecWidth(width, val, pins[1..]);
    }
  }

  /** The nexuses carry different vectors in all settled states. */
  ghost predicate DataDiffer(net: Netlist, rank: NexusId -> nat, a: NexusId, b: NexusId)
    requires WellFormed(net) && Ranked(net, rank)
  {
    && a in net.width && b in net.width && ConstantNexus(net, rank, a) && ConstantNexus(net, rank, b)
    && Unexposed(net, rank, a) && Unexposed(net, rank, b)
    && DrivenVector(net, rank, a) != DrivenVector(net, rank, b)
  }

  /** Where a multiplexer of different constants alone drives a nexus that can be seen, the
      buffer preserves observable values exactly if the select is not read from a pulled
      port. */
  lemma BypassExactly(net: Netlist, rank: NexusId -> nat, level: NexusId -> nat, id: NodeId, added: NodeId, sel: V)
    requires CanBypassMux(net, rank, id, added, sel) && IsAcyclic(net, AgainstPulls(net), level)
    requires var pins := net.nodes[id].pins;
             OnlyDriver(net, Link(id, 0), pins[0]) && Observable(net, pins[0]) && DataDiffer(net, rank, pins[2], pins[3])
    ensures Equivalent(net, BypassedMux(net, id, added, sel)) <==> Unexposed(net, rank, net.nodes[id].pins[1])
  {
    BypassMuxEquivalent(net, rank, id, added, sel);
    if Equivalent(net, BypassedMux(net, id, added, sel)) {
      BypassNeeds(net, rank, level, id, added, sel);
    }
  }

  lemma BypassNeeds(net: Netlist, rank: NexusId -> nat, level: NexusId -> nat, id: NodeId, added: NodeId, sel: V)
    requires CanBypassMux(net, rank, id, added, sel) && IsAcyclic(net, AgainstPulls(net), level)
    requires var pins := net.nodes[id].pins;
             OnlyDriver(net, Link(id, 0), pins[0]) && Observable(net, pins[0]) && DataDiffer(net, rank, pins[2], pins[3])
    requires WellFormed(BypassedMux(net, id, added, sel)) && Ranked(BypassedMux(net, id, added, sel), rank)
    requires Equivalent(net, BypassedMux(net, id, added, sel))
    ensures Unexposed(net, rank, net.nodes[id].pins[1])
  {
    var pins := net.nodes[id].pins;
    var val := AtLeastOneState(net, level, AgainstPulls(net));
    BypassShows(net, rank, id, added, sel, AgainstPulls(net), val);
    if !Unexposed(net, rank, pins[1]) {
      SelectFlips(net, rank, val, pins[1], sel);
      assert NodeOk(net.width, net.nodes[id]);
      MuxShows(net, AgainstPulls(net), val, id, Flip(sel));
    }
  }

  /** If the buffer preserves observable values, the multiplexer carries the input it selects. */
  lemma BypassShows(net: Netlist, rank: NexusId -> nat, id: NodeId, added: NodeId, sel: V, env: Env, val: Valuation)
    requires CanBypassMux(net, rank, id, added, sel) && Solution(net, env, val)
    requires var pins := net.nodes[id].pins;
             OnlyDriver(net, Link(id, 0), pins[0]) && Observable(net, pins[0]) && DataDiffer(net, rank, pins[2], pins[3])
    requires WellFormed(BypassedMux(net, id, added, sel)) && Ranked(BypassedMux(net, id, added, sel), rank)
    requires Equivalent(net, BypassedMux(net, id, added, sel))
    ensures var pins := net.nodes[id].pins;
            && pins[0] in val && pins[2] in val && pins[3] in val
            && val[pins[0]] == val[if sel == V1 then pins[3] else pins[2]] && val[pins[2]] != val[pins[3]]
  {
    var pins, net' := net.nodes[id].pins, BypassedMux(net, id, added, sel);
    var node := Bypass(pins, sel);
    BypassSwaps(net, rank, id, added, sel);
    var val' := MatchShows(net, id, added, node, env, val);
    BufferOut(net, env, val', added, node);
    assert pins[0] in val;
    BypassSettles(net, net', rank, id, added, node, env, val, val');
  }

  lemma BypassSettles(net: Netlist, net': Netlist, rank: NexusId -> nat, id: NodeId, added: NodeId, node: Node,
                      env: Env, val: Valuation, val': Valuation)
    requires CanSwap(net, id, added, node) && node.kind.BufZ? && |net.nodes[id].pins| == 4
    requires net' == Replace(net, {id}, added, node) && WellFormed(net') && Ranked(net, rank) && Ranked(net', rank)
    requires var pins := net.nodes[id].pins; DataDiffer(net, rank, pins[2], pins[3])
    requires Solution(net, env, val) && Solution(net', env, val')
    ensures var pins := net.nodes[id].pins;
            && pins[2] in val && pins[3] in val && pins[2] in val' && pins[3] in val'
            && val[pins[2]] == val'[pins[2]] && val[pins[3]] == val'[pins[3]] && val[pins[2]] != val[pins[3]]
  {
    var pins := net.nodes[id].pins;
    SwapKeepsConstants(net, rank, id, added, node);
    SwapKeepsApart(net, rank, id, added, node);
    DataSettle(net, net', rank, env, val, val', pins[2]);
    DataSettle(net, net', rank, env, val, val', pins[3]);
  }

  lemma SelectFlips(net: Netlist, rank: NexusId -> nat, val: Valuation, n: NexusId, sel: V)
    requires WellFormed(net) && Ranked(net, rank) && n in net.width && ConstantNexus(net, rank, n)
    requires DrivenVector(net, rank, n) == [sel] && !Unexposed(net, rank, n) && Solution(net, AgainstPulls(net), val)
    ensures val[n] == [Flip(sel)]
  {
    var b: nat :| b < net.width[n] && Exposed(net, rank, n, b);
    ExposedFlips(net, rank, val, n, b);
  }

  lemma DataSettle(net: Netlist, net': Netlist, rank: NexusId -> nat, env: Env, val: Valuation, val': Valuation, n: NexusId)
    requires WellFormed(net) && Ranked(net, rank) && WellFormed(net') && Ranked(net', rank)
    requires KeepsExposure(net, net') && KeepsConstants(net, net', rank)
    requires n in net.width && ConstantNexus(net, rank, n) && Unexposed(net, rank, n)
    requires Solution(net, env, val) && Solution(net', env, val')
    ensures n in val' && val[n] == val'[n] == DrivenVector(net, rank, n)
  {
    SelectSettles(net, net', rank, n, env, val);
    SelectSettles(net, net', rank, n, env, val');
  }

  /** A multiplexer that alone drives its nexus shows the input that a defined select selects. */
  lemma MuxShows(net: Netlist, env: Env, val: Valuation, id: NodeId, sel: V)
    requires WellFormed(net) && Solution(net, env, val) && (sel == V0 || sel == V1)
    requires id in net.nodes && net.nodes[id].kind == Mux(2, 1) && |net.nodes[id].pins| == 4
    requires NodeOk(net.width, net.nodes[id]) && OnlyDriver(net, Link(id, 0), net.nodes[id].pins[0])
    requires val[net.nodes[id].pins[1]] == [sel]
    ensures var pins := net.nodes[id].pins;
            val[pins[0]] == val[if sel == V1 then pins[3] else pins[2]]
  {
    MuxSelects(net, env, val, id, id, sel);
    BufferOut(net, env, val, id, Bypass(net.nodes[id].pins, sel));
    SoleDeviceShows(net, env, val, Link(id, 0), net.nodes[id].pins[0]);
  }

  lemma BufferOut(net: Netlist, env: Env, val: Valuation, id: NodeId, node: Node)
    requires Fits(net.width, val) && node.kind.BufZ? && NodeOk(net.width, node)
    ensures Out(net.width, env, val)(id, node, 0) == val[node.pins[1]]
  {
  }

  // ---- The smallest cases ----

  /** One nexus with one bit, on an input of the root module that is declared tri0. */
  function PulledPort(): Netlist {
    Netlist(map[0 := Node(Signal(Sig(Tri0, 1, 0, 0, false, PInput, true)), [0])], map[0 := 1])
  }

  lemma PulledPortFacts(rank: NexusId -> nat)
    ensures WellFormed(PulledPort()) && Ranked(PulledPort(), rank) && ConstantNexus(PulledPort(), rank, 0)
    ensures SoleDriver(PulledPort(), Link(0, 0), 0) && Exposed(PulledPort(), rank, 0, 0)
  {
    var net, l := PulledPort(), Link(0, 0);
    assert IsLink(net, l, 0) && HasSignal(net, 0);
    assert LinkRole(net, l, 0, Constant);
    assert ExposedBy(net, rank, l, 0, 0);
  }

  /** The scan takes the pull for a driver of its own and does not look at the port, so the
      nexus counts as constant, but what the port connects to overrules the pull. */
  lemma PulledPortIsNotConstant(rank: NexusId -> nat)
    ensures WellFormed(PulledPort()) && Ranked(PulledPort(), rank) && ConstantNexus(PulledPort(), rank, 0)
    ensures DrivenVector(PulledPort(), rank, 0) == [V0]
    ensures !AlwaysDriven(PulledPort(), rank, 0)
  {
    var net := PulledPort();
    PulledPortFacts(rank);
    SoleDriverVector(net, rank, Link(0, 0), 0);
    ConstantExactly(net, rank, n => 0, 0);
  }

  function NamedWire(): Kind {
    Signal(Sig(Wire, 1, 0, 0, false, NotAPort, false))
  }

  function Supply(ty: NetType): Kind {
    Signal(Sig(ty, 1, 0, 0, false, NotAPort, false))
  }

  /** The port in a concatenation of its own, assigned to a named wire. */
  function PortInConcat(): Netlist {
    Netlist(map[0 := Node(PulledPort().nodes[0].kind, [0]), 1 := Node(Concat(false), [1, 0]), 2 := Node(NamedWire(), [1])],
            map[0 := 1, 1 := 1])
  }

  lemma PortInConcatLinks(l: Link, n: NexusId)
    requires IsLink(PortInConcat(), l, n)
    ensures n == 0 ==> l == Link(0, 0) || l == Link(1, 1)
    ensures n == 1 ==> l == Link(1, 0) || l == Link(2, 0)
    ensures n < 2
  {
  }

  lemma PortInConcatNode(id: NodeId)
    requires id in PortInConcat().nodes
    ensures NodeOk(PortInConcat().width, PortInConcat().nodes[id]) && !PortInConcat().nodes[id].kind.Substitute?
  {
    assert id == 0 || id == 1 || id == 2;
    assert [1, 0][1..] == [0] && SumWidths(PortInConcat().width, [0]) == 1;
  }

  lemma PortInConcatWellFormed(rank: NexusId -> nat)
    ensures WellFormed(PortInConcat()) && Ranked(PortInConcat(), rank) && Observable(PortInConcat(), 1)
  {
    var net := PortInConcat();
    assert IsLink(net, Link(0, 0), 0) && IsLink(net, Link(2, 0), 1) && LinkSees(net, Link(2, 0));
    assert HasSignal(net, 0) && HasSignal(net, 1);
    forall id | id in net.nodes ensures NodeOk(net.width, net.nodes[id]) && !net.nodes[id].kind.Substitute? {
      PortInConcatNode(id);
    }
  }

  lemma PortInConcatAcyclic(env: Env)
    ensures IsAcyclic(PortInConcat(), env, n => n)
  {
    forall id, p: nat, i: nat
      | id in PortInConcat().nodes && MayDrive(PortInConcat().nodes[id], p) && IsRead(PortInConcat().nodes[id], i)
      ensures PortInConcat().nodes[id].pins[i] < PortInConcat().nodes[id].pins[p]
    {
      assert id == 0 || id == 1 || id == 2;
    }
  }

  lemma PortInConcatDrivers(rank: NexusId -> nat)
    requires Ranked(PortInConcat(), rank)
    ensures SoleDriver(PortInConcat(), Link(0, 0), 0) && ConstantNexus(PortInConcat(), rank, 0)
    ensures Exposed(PortInConcat(), rank, 0, 0) && OnlyDriver(PortInConcat(), Link(1, 0), 1)
  {
    forall l, n | IsLink(PortInConcat(), l, n)
      ensures n == 0 ==> l == Link(0, 0) || l == Link(1, 1)
      ensures n == 1 ==> l == Link(1, 0) || l == Link(2, 0)
    {
      PortInConcatLinks(l, n);
    }
    assert OnlyDriver(PortInConcat(), Link(0, 0), 0) && ExposedBy(PortInConcat(), rank, Link(0, 0), 0, 0);
  }

  lemma PortInConcatFits(rank: NexusId -> nat)
    ensures CanFoldConcat(PortInConcat(), rank, 1, 3)
    ensures OnlyDriver(PortInConcat(), Link(1, 0), PortInConcat().nodes[1].pins[0])
    ensures !AllUnexposed(PortInConcat(), rank, PortInConcat().nodes[1].pins[1..])
  {
    PortInConcatWellFormed(rank);
    PortInConcatDrivers(rank);
    assert PortInConcat().nodes[1].pins[1..] == [0];
    assert !Unexposed(PortInConcat(), rank, 0);
  }

  /** Folding makes the wire a constant 0, whatever the port connects to. */
  lemma FoldLosesPort(rank: NexusId -> nat)
    ensures CanFoldConcat(PortInConcat(), rank, 1, 3)
    ensures !Equivalent(PortInConcat(), FoldedConcat(PortInConcat(), rank, 1, 3))
  {
    PortInConcatWellFormed(rank);
    PortInConcatAcyclic(AgainstPulls(PortInConcat()));
    PortInConcatFits(rank);
    FoldExactly(PortInConcat(), rank, n => n, 1, 3);
  }

  /** The port as the select of a multiplexer of two supplies, assigned to a named wire. */
  function PortInMux(): Netlist {
    Netlist(map[0 := Node(PulledPort().nodes[0].kind, [0]), 1 := Node(Supply(Supply0), [1]), 2 := Node(Supply(Supply1), [2]),
                3 := Node(Mux(2, 1), [3, 0, 1, 2]), 4 := Node(NamedWire(), [3])],
            map[0 := 1, 1 := 1, 2 := 1, 3 := 1])
  }

  lemma PortInMuxLinks(l: Link, n: NexusId)
    requires IsLink(PortInMux(), l, n)
    ensures n < 3 ==> l == Link(n, 0) || l == Link(3, n + 1)
    ensures n == 3 ==> l == Link(3, 0) || l == Link(4, 0)
    ensures n < 4
  {
  }

  lemma PortInMuxAt(n: NexusId)
    requires n < 3
    ensures IsLink(PortInMux(), Link(n, 0), n) && IsLink(PortInMux(), Link(3, n + 1), n) && HasSignal(PortInMux(), n)
    ensures RoleOf(PortInMux().nodes[n].kind, 0) == Constant && RoleOf(PortInMux().nodes[3].kind, n + 1) == Silent
    ensures PortInMux().nodes[n].kind.Signal? && PortInMux().nodes[3].kind.Mux?
  {
    assert IsLink(PortInMux(), Link(n, 0), n);
  }

  lemma PortInMuxNode(id: NodeId)
    requires id in PortInMux().nodes
    ensures NodeOk(PortInMux().width, PortInMux().nodes[id]) && !PortInMux().nodes[id].kind.Substitute?
  {
    assert id == 0 || id == 1 || id == 2 || id == 3 || id == 4;
  }

  lemma PortInMuxWellFormed(rank: NexusId -> nat)
    ensures WellFormed(PortInMux()) && Ranked(PortInMux(), rank)
  {
    var net := PortInMux();
    forall n | n in net.width ensures HasSignal(net, n) {
      if n < 3 {
        PortInMuxAt(n);
      } else {
        assert IsLink(net, Link(4, 0), n);
      }
    }
    forall id | id in net.nodes ensures NodeOk(net.width, net.nodes[id]) && !net.nodes[id].kind.Substitute? {
      PortInMuxNode(id);
    }
  }

  lemma PortInMuxAcyclic(env: Env)
    ensures IsAcyclic(PortInMux(), env, n => n)
  {
    forall id, p: nat, i: nat
      | id in PortInMux().nodes && MayDrive(PortInMux().nodes[id], p) && IsRead(PortInMux().nodes[id], i)
      ensures PortInMux().nodes[id].pins[i] < PortInMux().nodes[id].pins[p]
    {
      PortInMuxPins(id, p, i);
    }
  }

  lemma PortInMuxPins(id: NodeId, p: nat, i: nat)
    requires id in PortInMux().nodes && MayDrive(PortInMux().nodes[id], p) && IsRead(PortInMux().nodes[id], i)
    ensures id == 3 && p == 0 && 0 < i < 4
  {
    assert id == 0 || id == 1 || id == 2 || id == 3 || id == 4;
  }

  /** Each of the first three nexuses is driven by its signal alone, and constant. */
  lemma PortInMuxDriver(rank: NexusId -> nat, n: NexusId)
    requires n < 3 && WellFormed(PortInMux()) && Ranked(PortInMux(), rank)
    ensures SoleDriver(PortInMux(), Link(n, 0), n) && OnlyDriver(PortInMux(), Link(n, 0), n)
    ensures ConstantNexus(PortInMux(), rank, n) && DrivenVector(PortInMux(), rank, n) == if n == 2 then [V1] else [V0]
  {
    PortInMuxAt(n);
    forall l | IsLink(PortInMux(), l, n)
      ensures l == Link(n, 0) || l == Link(3, n + 1)
    {
      PortInMuxLinks(l, n);
    }
    PortInMuxVector(rank, n);
  }

  lemma PortInMuxVector(rank: NexusId -> nat, n: NexusId)
    requires n < 3 && WellFormed(PortInMux()) && Ranked(PortInMux(), rank)
    requires SoleDriver(PortInMux(), Link(n, 0), n) && ConstantNexus(PortInMux(), rank, n)
    ensures DrivenVector(PortInMux(), rank, n) == if n == 2 then [V1] else [V0]
  {
    SoleDriverVector(PortInMux(), rank, Link(n, 0), n);
  }

  lemma PortInMuxExposure(rank: NexusId -> nat, n: NexusId)
    requires n < 3 && WellFormed(PortInMux()) && Ranked(PortInMux(), rank)
    ensures Unexposed(PortInMux(), rank, n) <==> n > 0
  {
    var net := PortInMux();
    PortInMuxDriver(rank, n);
    if n == 0 {
      assert ExposedBy(net, rank, Link(0, 0), 0, 0) && Exposed(net, rank, 0, 0);
    } else {
      forall b: nat, l | OnlyDriver(net, l, n)
        ensures !ExposedBy(net, rank, l, n, b)
      {
        PortInMuxOnly(n, l);
      }
      assert n in net.width;
      assert forall b: nat :: !Exposed(net, rank, n, b);
    }
  }

  lemma PortInMuxOnly(n: NexusId, l: Link)
    requires n < 3 && OnlyDriver(PortInMux(), l, n)
    ensures l == Link(n, 0)
  {
    PortInMuxAt(n);
    assert RoleOf(PortInMux().nodes[n].kind, 0) == Constant;
    assert LinkRole(PortInMux(), Link(n, 0), n, Constant);
  }

  /** The buffer makes the wire a constant 0, although the port may select the 1. */
  lemma BypassLosesPort(rank: NexusId -> nat)
    ensures CanBypassMux(PortInMux(), rank, 3, 5, V0)
    ensures !Equivalent(PortInMux(), BypassedMux(PortInMux(), 3, 5, V0))
  {
    PortInMuxWellFormed(rank);
    PortInMuxAcyclic(AgainstPulls(PortInMux()));
    PortInMuxFits(rank);
    PortInMuxOutput();
    BypassExactly(PortInMux(), rank, n => n, 3, 5, V0);
  }

  lemma PortInMuxSettles(rank: NexusId -> nat, n: NexusId)
    requires n < 3 && WellFormed(PortInMux()) && Ranked(PortInMux(), rank)
    ensures ConstantNexus(PortInMux(), rank, n) && DrivenVector(PortInMux(), rank, n) == if n == 2 then [V1] else [V0]
    ensures Unexposed(PortInMux(), rank, n) <==> n > 0
  {
    PortInMuxDriver(rank, n);
    PortInMuxExposure(rank, n);
  }

  lemma PortInMuxFits(rank: NexusId -> nat)
    requires WellFormed(PortInMux()) && Ranked(PortInMux(), rank)
    ensures CanBypassMux(PortInMux(), rank, 3, 5, V0)
    ensures var pins := PortInMux().nodes[3].pins;
            DataDiffer(PortInMux(), rank, pins[2], pins[3]) && !Unexposed(PortInMux(), rank, pins[1])
  {
    PortInMuxSettles(rank, 0);
    PortInMuxSettles(rank, 1);
    PortInMuxSettles(rank, 2);
  }

  lemma PortInMuxOutput()
    ensures var n := PortInMux().nodes[3].pins[0];
            OnlyDriver(PortInMux(), Link(3, 0), n) && Observable(PortInMux(), n)
  {
    assert IsLink(PortInMux(), Link(4, 0), 3) && LinkSees(PortInMux(), Link(4, 0));
    forall l | IsLink(PortInMux(), l, 3) ensures l == Link(3, 0) || l == Link(4, 0) {
      PortInMuxLinks(l, 3);
    }
  }
}
