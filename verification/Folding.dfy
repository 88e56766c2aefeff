/** Replacing one device by a simpler one: constant concatenations and multiplexers
    with a constant select. */
module Folding {
  import opened FourState
  import N = Numbers
  import opened Netlists
  import opened Rewrites
  import opened LinkConst

  // ---- One device for another ----

  /** Device `id` is replaced by one that drives the same nexus, pin 0, and no other;
      the old one makes that nexus variable. */
  ghost predicate CanSwap(net: Netlist, id: NodeId, added: NodeId, node: Node) {
    && CanReplace(net, {id}, added, node) && !node.kind.Substitute?
    && |node.pins| > 0 && |net.nodes[id].pins| > 0 && net.nodes[id].pins[0] == node.pins[0]
    && RoleOf(net.nodes[id].kind, 0).Variable? && !PinDir(node.kind, 0).Input?
    && (forall p: nat | 0 < p < |net.nodes[id].pins| :: PinDir(net.nodes[id].kind, p).Input?)
    && (forall p: nat | 0 < p < |node.pins| :: PinDir(node.kind, p).Input?)
  }

  lemma InputDrivesNothing(width: map<NexusId, nat>, env: Env, val: Valuation, id: NodeId, node: Node, p: nat)
    requires Fits(width, val) && p < |node.pins| && Rewritable(node.kind) && PinDir(node.kind, p).Input?
    ensures Out(width, env, val)(id, node, p) == []
  {
  }

  lemma SwapSameDrive(net: Netlist, id: NodeId, added: NodeId, node: Node, out: Drive)
    requires CanSwap(net, id, added, node)
    requires forall p: nat | 0 < p < |net.nodes[id].pins| :: out(id, net.nodes[id], p) == []
    requires forall p: nat | 0 < p < |node.pins| :: out(added, node, p) == []
    requires out(id, net.nodes[id], 0) == out(added, node, 0)
    ensures SameDrive(net, Replace(net, {id}, added, node), out, {id}, added)
  {
    var net' := Replace(net, {id}, added, node);
    forall n, b: nat, v | n in net.width && b < net.width[n] && v != Vz
      ensures AmongDrives(net, out, {id}, n, b, v) <==> AmongDrives(net', out, {added}, n, b, v)
    {
      if AmongDrives(net, out, {id}, n, b, v) {
        var l: Link :| l.node in {id} && LinkDrives(net, out, l, n, b, v);
        assert l.pin == 0;
        assert Link(added, 0).node in {added} && LinkDrives(net', out, Link(added, 0), n, b, v);
      }
      if AmongDrives(net', out, {added}, n, b, v) {
        var l: Link :| l.node in {added} && LinkDrives(net', out, l, n, b, v);
        assert l.pin == 0;
        assert Link(id, 0).node in {id} && LinkDrives(net, out, Link(id, 0), n, b, v);
      }
    }
  }

  lemma SwapSettled(net: Netlist, id: NodeId, added: NodeId, node: Node, env: Env, val: Valuation)
    requires CanSwap(net, id, added, node) && Fits(net.width, val)
    requires Out(net.width, env, val)(id, net.nodes[id], 0) == Out(net.width, env, val)(added, node, 0)
    ensures Solution(net, env, val) <==> Solution(Replace(net, {id}, added, node), env, val)
  {
    var out := Out(net.width, env, val);
    forall p: nat | 0 < p < |net.nodes[id].pins|
      ensures out(id, net.nodes[id], p) == []
    {
      InputDrivesNothing(net.width, env, val, id, net.nodes[id], p);
    }
    forall p: nat | 0 < p < |node.pins|
      ensures out(added, node, p) == []
    {
      InputDrivesNothing(net.width, env, val, added, node, p);
    }
    SwapSameDrive(net, id, added, node, out);
    ReplaceSettled(net, {id}, added, node, out, val);
  }

  /** A swap changes the drivers of one nexus only. */
  lemma SwapSameDrivers(net: Netlist, id: NodeId, added: NodeId, node: Node, m: NexusId)
    requires CanSwap(net, id, added, node) && m != node.pins[0]
    ensures SameDriversAt(net, Replace(net, {id}, added, node), m)
  {
    var net' := Replace(net, {id}, added, node);
    forall l, r | r != Silent
      ensures LinkRole(net, l, m, r) <==> LinkRole(net', l, m, r)
      ensures LinkRole(net, l, m, r) ==> net.nodes[l.node] == net'.nodes[l.node]
    {
      if l.node != id && l.node != added {
        ReplaceLink(net, {id}, added, node, l, m);
      }
    }
  }

  /** That nexus was not a constant one. */
  lemma SwapKeepsConstants(net: Netlist, rank: NexusId -> nat, id: NodeId, added: NodeId, node: Node)
    requires CanSwap(net, id, added, node) && Ranked(net, rank)
    ensures Ranked(Replace(net, {id}, added, node), rank)
    ensures KeepsConstants(net, Replace(net, {id}, added, node), rank)
  {
    forall m | m in net.width && ConstantNexus(net, rank, m)
      ensures SameDriversAt(net, Replace(net, {id}, added, node), m)
    {
      assert LinkRole(net, Link(id, 0), node.pins[0], Variable);
      SwapSameDrivers(net, id, added, node, m);
    }
  }

  /** Devices that drive the same vector in all settled states can be swapped. */
  lemma SwapEquivalent(net: Netlist, id: NodeId, added: NodeId, node: Node)
    requires CanSwap(net, id, added, node)
    requires forall env, val | Solution(net, env, val) || Solution(Replace(net, {id}, added, node), env, val) ::
               Out(net.width, env, val)(id, net.nodes[id], 0) == Out(net.width, env, val)(added, node, 0)
    ensures WellFormed(Replace(net, {id}, added, node))
    ensures Equivalent(net, Replace(net, {id}, added, node))
  {
    var net' := Replace(net, {id}, added, node);
    ReplaceSurface(net, {id}, added, node);
    forall env, val
      ensures Solution(net, env, val) <==> Solution(net', env, val)
    {
      if Solution(net, env, val) || Solution(net', env, val) {
        SwapSettled(net, id, added, node, env, val);
      }
    }
    SameSolutionsEquivalent(net, net');
  }

  /** Both devices drive the nexus at their first pin. */
  lemma SwapKeepsVoices(net: Netlist, id: NodeId, added: NodeId, node: Node)
    requires CanSwap(net, id, added, node)
    ensures forall m :: AnyVoices(net, {id}, m) <==> Voices(node, m)
  {
    var n := node.pins[0];
    assert VoicesAt(net.nodes[id], 0, n) && VoicesAt(node, 0, n);
    assert Voices(net.nodes[id], n) && AnyVoices(net, {id}, n);
    forall m, p: nat ensures VoicesAt(net.nodes[id], p, m) ==> m == n
      ensures VoicesAt(node, p, m) ==> m == n
    {
    }
  }

  /** A swap that takes no other pins for constants keeps the pulled ports apart. */
  lemma SwapKeepsApart(net: Netlist, rank: NexusId -> nat, id: NodeId, added: NodeId, node: Node)
    requires CanSwap(net, id, added, node) && Ranked(net, rank) && Ranked(Replace(net, {id}, added, node), rank)
    requires !node.kind.Concat? && !node.kind.Mux? && !node.kind.PartPV?
    ensures KeepsExposure(net, Replace(net, {id}, added, node))
    ensures PortsApart(net, rank) ==> PortsApart(Replace(net, {id}, added, node), rank)
  {
    var net' := Replace(net, {id}, added, node);
    SwapKeepsVoices(net, id, added, node);
    ReplaceKeepsExposure(net, {id}, added, node);
    if PortsApart(net, rank) {
      forall l, n | TakenAt(net', l, n)
        ensures Unexposed(net, rank, n)
      {
        ReplaceLink(net, {id}, added, node, l, n);
        assert TakenAt(net, l, n);
      }
      ApartKept(net, net', rank);
    }
  }

  // ---- Constant concatenations ----

  /** All pins are on constant nexuses. */
  ghost predicate AllConstant(net: Netlist, rank: NexusId -> nat, pins: seq<NexusId>)
    requires Ranked(net, rank)
  {
    forall i | 0 <= i < |pins| :: pins[i] in net.width && ConstantNexus(net, rank, pins[i])
  }

  /** No pin reads from a pulled port of the root module. */
  ghost predicate AllUnexposed(net: Netlist, rank: NexusId -> nat, pins: seq<NexusId>)
    requires Ranked(net, rank)
  {
    forall i | 0 <= i < |pins| :: Unexposed(net, rank, pins[i])
  }

  lemma InputsUnexposed(net: Netlist, rank: NexusId -> nat, id: NodeId)
    requires WellFormed(net) && Ranked(net, rank) && PortsApart(net, rank)
    requires id in net.nodes && net.nodes[id].kind.Concat? && |net.nodes[id].pins| > 0
    ensures AllUnexposed(net, rank, net.nodes[id].pins[1..])
  {
    var pins := net.nodes[id].pins;
    forall i | 0 <= i < |pins[1..]|
      ensures Unexposed(net, rank, pins[1..][i])
    {
      assert TakenAt(net, Link(id, i + 1), pins[i + 1]);
    }
  }

  /** The driven vectors of the pins, first pin in the low bits. */
  ghost function DrivenConcat(net: Netlist, rank: NexusId -> nat, pins: seq<NexusId>): (r: Vec)
    requires WellFormed(net) && Ranked(net, rank) && AllConstant(net, rank, pins)
    ensures |r| == SumWidths(net.width, pins)
  {
    if pins == [] then [] else DrivenVector(net, rank, pins[0]) + DrivenConcat(net, rank, pins[1..])
  }

  lemma {:induction false} DrivenConcatSound(net: Netlist, rank: NexusId -> nat, pins: seq<NexusId>, env: Env, val: Valuation)
    requires WellFormed(net) && Ranked(net, rank) && AllConstant(net, rank, pins) && AllUnexposed(net, rank, pins)
    requires Solution(net, env, val)
    ensures ConcatVec(val, pins) == DrivenConcat(net, rank, pins)
  {
    if pins != [] {
      ConstantSound(net, rank, env, val, pins[0]);
      DrivenConcatSound(net, rank, pins[1..], env, val);
    }
  }

  lemma {:induction false} DrivenConcatFrame(net: Netlist, net': Netlist, rank: NexusId -> nat, pins: seq<NexusId>)
    requires WellFormed(net) && WellFormed(net') && Ranked(net, rank) && Ranked(net', rank)
    requires net.width == net'.width && AllConstant(net, rank, pins)
    requires KeepsConstants(net, net', rank)
    ensures AllConstant(net', rank, pins)
    ensures DrivenConcat(net', rank, pins) == DrivenConcat(net, rank, pins)
  {
    if pins != [] {
      DrivenVectorFrame(net, net', rank, pins[0]);
      DrivenConcatFrame(net, net', rank, pins[1..]);
      forall i | 0 <= i < |pins|
        ensures ConstantNexus(net', rank, pins[i])
      {
        ConstantFrame(net, net', rank, pins[i]);
      }
    }
  }

  ghost predicate CanFoldConcat(net: Netlist, rank: NexusId -> nat, id: NodeId, added: NodeId) {
    && WellFormed(net) && Ranked(net, rank) && added !in net.nodes
    && id in net.nodes && net.nodes[id].kind.Concat? && |net.nodes[id].pins| >= 1
    && AllConstant(net, rank, net.nodes[id].pins[1..])
  }

  ghost function FoldedConcat(net: Netlist, rank: NexusId -> nat, id: NodeId, added: NodeId): Netlist
    requires CanFoldConcat(net, rank, id, added)
  {
    var pins := net.nodes[id].pins;
    Replace(net, {id}, added, Node(Const(DrivenConcat(net, rank, pins[1..])), [pins[0]]))
  }

  lemma FoldSwaps(net: Netlist, rank: NexusId -> nat, id: NodeId, added: NodeId, result: Vec)
    requires CanFoldConcat(net, rank, id, added) && result == DrivenConcat(net, rank, net.nodes[id].pins[1..])
    ensures CanSwap(net, id, added, Node(Const(result), [net.nodes[id].pins[0]]))
  {
    assert NodeOk(net.width, net.nodes[id]);
  }

  lemma FoldedDrivesSame(net: Netlist, net': Netlist, rank: NexusId -> nat, id: NodeId, added: NodeId, env: Env, val: Valuation)
    requires CanFoldConcat(net, rank, id, added) && net' == FoldedConcat(net, rank, id, added)
    requires WellFormed(net') && Ranked(net', rank) && KeepsConstants(net, net', rank) && net'.width == net.width
    requires KeepsExposure(net, net') && AllUnexposed(net, rank, net.nodes[id].pins[1..])
    requires Solution(net, env, val) || Solution(net', env, val)
    ensures Fits(net.width, val)
    ensures var pins := net.nodes[id].pins;
            Out(net.width, env, val)(id, net.nodes[id], 0) ==
            Out(net.width, env, val)(added, Node(Const(DrivenConcat(net, rank, pins[1..])), [pins[0]]), 0)
  {
    var pins := net.nodes[id].pins;
    DrivenConcatFrame(net, net', rank, pins[1..]);
    if Solution(net, env, val) {
      DrivenConcatSound(net, rank, pins[1..], env, val);
    } else {
      forall i | 0 <= i < |pins[1..]|
        ensures Unexposed(net', rank, pins[1..][i])
      {
        UnexposedFrame(net, net', rank, pins[1..][i]);
      }
      DrivenConcatSound(net', rank, pins[1..], env, val);
    }
  }

  /** A concatenation of constants, none read from a pulled port, may be replaced by the
      constant. */
  lemma FoldConcatEquivalent(net: Netlist, rank: NexusId -> nat, id: NodeId, added: NodeId)
    requires CanFoldConcat(net, rank, id, added)
    ensures WellFormed(FoldedConcat(net, rank, id, added)) && Ranked(FoldedConcat(net, rank, id, added), rank)
    ensures AllUnexposed(net, rank, net.nodes[id].pins[1..]) ==> Equivalent(net, FoldedConcat(net, rank, id, added))
    ensures PortsApart(net, rank) ==> PortsApart(FoldedConcat(net, rank, id, added), rank)
  {
    var pins, net' := net.nodes[id].pins, FoldedConcat(net, rank, id, added);
    var node := Node(Const(DrivenConcat(net, rank, pins[1..])), [pins[0]]);
    assert NodeOk(net.width, net.nodes[id]);
    assert CanSwap(net, id, added, node);
    ReplaceSurface(net, {id}, added, node);
    SwapKeepsConstants(net, rank, id, added, node);
    SwapKeepsApart(net, rank, id, added, node);
    if AllUnexposed(net, rank, pins[1..]) {
      forall env, val | Solution(net, env, val) || Solution(net', env, val)
        ensures Out(net.width, env, val)(id, net.nodes[id], 0) == Out(net.width, env, val)(added, node, 0)
      {
        FoldedDrivesSame(net, net', rank, id, added, env, val);
      }
      SwapEquivalent(net, id, added, node);
    }
  }

  // ---- Multiplexers with a constant select ----

  ghost predicate CanBypassMux(net: Netlist, rank: NexusId -> nat, id: NodeId, added: NodeId, sel: V) {
    && WellFormed(net) && Ranked(net, rank) && added !in net.nodes
    && id in net.nodes && net.nodes[id].kind == Mux(2, 1) && |net.nodes[id].pins| == 4
    && var s := net.nodes[id].pins[1];
       s in net.width
       && ConstantNexus(net, rank, s) && DrivenVector(net, rank, s) == [sel]
       && (sel == V0 || sel == V1)
  }

  function Bypass(pins: seq<NexusId>, sel: V): Node
    requires |pins| == 4
  {
    Node(BufZ, [pins[0], if sel == V1 then pins[3] else pins[2]])
  }

  function BypassedMux(net: Netlist, id: NodeId, added: NodeId, sel: V): Netlist
    requires id in net.nodes && |net.nodes[id].pins| == 4
  {
    Replace(net, {id}, added, Bypass(net.nodes[id].pins, sel))
  }

  lemma MuxSelects(net: Netlist, env: Env, val: Valuation, id: NodeId, added: NodeId, sel: V)
    requires Fits(net.width, val) && id in net.nodes && NodeOk(net.width, net.nodes[id])
    requires net.nodes[id].kind == Mux(2, 1) && |net.nodes[id].pins| == 4
    requires val[net.nodes[id].pins[1]] == [sel] && (sel == V0 || sel == V1)
    ensures Out(net.width, env, val)(id, net.nodes[id], 0)
         == Out(net.width, env, val)(added, Bypass(net.nodes[id].pins, sel), 0)
  {
    var pins := net.nodes[id].pins;
    assert N.Unsigned([sel]) == if sel == V1 then 1 else 0 by {
      assert [sel][1..] == [];
    }
    assert IsDefined([sel]);
    var data := seq(2, i requires 0 <= i < 2 => val[pins[2 + i]]);
    assert MuxVec([sel], data, net.width[pins[0]]) == data[N.Unsigned([sel])];
  }

  lemma SelectSettles(net: Netlist, net': Netlist, rank: NexusId -> nat, n: NexusId, env: Env, val: Valuation)
    requires WellFormed(net) && Ranked(net, rank) && WellFormed(net') && Ranked(net', rank)
    requires KeepsExposure(net, net') && KeepsConstants(net, net', rank)
    requires ConstantNexus(net, rank, n) && Unexposed(net, rank, n)
    requires Solution(net, env, val) || Solution(net', env, val)
    ensures n in val && val[n] == DrivenVector(net, rank, n)
  {
    DrivenVectorFrame(net, net', rank, n);
    UnexposedFrame(net, net', rank, n);
    if Solution(net, env, val) {
      ConstantSound(net, rank, env, val, n);
    } else {
      ConstantSound(net', rank, env, val, n);
    }
  }

  lemma BypassSwaps(net: Netlist, rank: NexusId -> nat, id: NodeId, added: NodeId, sel: V)
    requires CanBypassMux(net, rank, id, added, sel)
    ensures CanSwap(net, id, added, Bypass(net.nodes[id].pins, sel))
    ensures NodeOk(net.width, Bypass(net.nodes[id].pins, sel))
  {
    assert NodeOk(net.width, net.nodes[id]);
  }

  /** A two-way multiplexer whose select is constant, and not read from a pulled port, may
      be replaced by a buffer of the selected input. */
  lemma BypassMuxEquivalent(net: Netlist, rank: NexusId -> nat, id: NodeId, added: NodeId, sel: V)
    requires CanBypassMux(net, rank, id, added, sel)
    ensures WellFormed(BypassedMux(net, id, added, sel)) && Ranked(BypassedMux(net, id, added, sel), rank)
    ensures Unexposed(net, rank, net.nodes[id].pins[1]) ==> Equivalent(net, BypassedMux(net, id, added, sel))
    ensures PortsApart(net, rank) ==> PortsApart(BypassedMux(net, id, added, sel), rank)
  {
    var pins, net' := net.nodes[id].pins, BypassedMux(net, id, added, sel);
    var node := Bypass(pins, sel);
    assert NodeOk(net.width, net.nodes[id]);
    assert CanSwap(net, id, added, node);
    ReplaceSurface(net, {id}, added, node);
    SwapKeepsConstants(net, rank, id, added, node);
    SwapKeepsApart(net, rank, id, added, node);
    if Unexposed(net, rank, pins[1]) {
      forall env, val | Solution(net, env, val) || Solution(net', env, val)
        ensures Out(net.width, env, val)(id, net.nodes[id], 0) == Out(net.width, env, val)(added, node, 0)
      {
        SelectSettles(net, net', rank, pins[1], env, val);
        MuxSelects(net, env, val, id, added, sel);
      }
      SwapEquivalent(net, id, added, node);
    }
  }
}
