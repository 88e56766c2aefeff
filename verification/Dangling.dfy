/** Deleting constants that drive nothing, or that nothing reads. */
module Dangling {
  import opened FourState
  import opened Netlists
  import opened Rewrites

  function Drop(net: Netlist, id: NodeId): Netlist {
    Netlist(net.nodes - {id}, net.width)
  }

  ghost predicate IsConst(net: Netlist, id: NodeId) {
    WellFormed(net) && id in net.nodes && net.nodes[id].kind.Const? && |net.nodes[id].pins| == 1
  }

  predicate AllZ(v: Vec) {
    forall i | 0 <= i < |v| :: v[i] == Vz
  }

  /** The two scans of the nexus: no pin takes input from it, no signal of it is seen. */
  ghost predicate NoReason(net: Netlist, n: NexusId) {
    && (forall l | IsLink(net, l, n) :: !PinDir(net.nodes[l.node].kind, l.pin).Input?)
    && (forall l | IsLink(net, l, n) && net.nodes[l.node].kind.Signal? :: !SigSeen(net.nodes[l.node].kind.sig))
  }

  ghost predicate HasTran(net: Netlist, n: NexusId) {
    exists l :: IsLink(net, l, n) && net.nodes[l.node].kind.Tran?
  }

  /** No device takes its behaviour from the value of n. */
  ghost predicate Unread(net: Netlist, n: NexusId) {
    forall l | IsLink(net, l, n) :: !Reads(net.nodes[l.node].kind, l.pin)
  }

  /** What the scans establish: a nexus that passes them is unread exactly when no
      bidirectional switch is on it. */
  lemma NoReasonMeansUnread(net: Netlist, n: NexusId)
    requires NoReason(net, n)
    ensures Unread(net, n) <==> !HasTran(net, n)
  {
    if HasTran(net, n) {
      var l :| IsLink(net, l, n) && net.nodes[l.node].kind.Tran?;
      assert Reads(net.nodes[l.node].kind, l.pin);
    }
  }

  /** They ask for no more than they must: a nexus fails them only if it is observable, or a
      device other than a bidirectional switch reads it, or it enables a switch. */
  lemma NoReasonExactly(net: Netlist, n: NexusId)
    requires WellFormed(net)
    ensures NoReason(net, n) <==>
            && !Observable(net, n)
            && forall l | IsLink(net, l, n) && Reads(net.nodes[l.node].kind, l.pin) ::
                 net.nodes[l.node].kind.Tran? && l.pin < 2
  {
    forall l | IsLink(net, l, n) && net.nodes[l.node].kind.Gate? && LinkSees(net, l)
      ensures PinDir(net.nodes[l.node].kind, l.pin).Input?
    {
      assert NodeOk(net.width, net.nodes[l.node]);
    }
    if NoReason(net, n) {
      forall l | IsLink(net, l, n) ensures !LinkSees(net, l) {
      }
    }
    if !Observable(net, n) {
      forall l | IsLink(net, l, n) ensures !LinkSees(net, l) {
      }
    }
    forall l | IsLink(net, l, n) && PinDir(net.nodes[l.node].kind, l.pin).Input?
      ensures Reads(net.nodes[l.node].kind, l.pin) && !net.nodes[l.node].kind.Signal?
    {
    }
  }

  lemma DropLink(net: Netlist, id: NodeId, l: Link, n: NexusId)
    requires l.node != id
    ensures IsLink(net, l, n) <==> IsLink(Drop(net, id), l, n)
    ensures l.node in net.nodes ==> l.node in Drop(net, id).nodes && Drop(net, id).nodes[l.node] == net.nodes[l.node]
  {
  }

  lemma DropSurface(net: Netlist, id: NodeId)
    requires IsConst(net, id)
    ensures WellFormed(Drop(net, id))
    ensures forall n, t :: HasType(net, n, t) <==> HasType(Drop(net, id), n, t)
    ensures forall n :: Observable(net, n) <==> Observable(Drop(net, id), n)
  {
    var net' := Drop(net, id);
    forall k | k in net'.nodes
      ensures NodeOk(net'.width, net'.nodes[k])
    {
      assert NodeOk(net.width, net.nodes[k]);
    }
    forall n | n in net'.width
      ensures HasSignal(net', n)
    {
      assert HasSignal(net, n);
      var l :| IsLink(net, l, n) && net.nodes[l.node].kind.Signal?;
      DropLink(net, id, l, n);
    }
    forall n, t
      ensures HasType(net, n, t) <==> HasType(net', n, t)
    {
      if HasType(net, n, t) {
        var l :| IsSignalOf(net, l, n, t);
        DropLink(net, id, l, n);
        assert IsSignalOf(net', l, n, t);
      }
      if HasType(net', n, t) {
        var l :| IsSignalOf(net', l, n, t);
        DropLink(net, id, l, n);
        assert IsSignalOf(net, l, n, t);
      }
    }
    forall n
      ensures Observable(net, n) <==> Observable(net', n)
    {
      if Observable(net, n) {
        var l :| IsLink(net, l, n) && LinkSees(net, l);
        DropLink(net, id, l, n);
        assert IsLink(net', l, n) && LinkSees(net', l);
      }
      if Observable(net', n) {
        var l :| IsLink(net', l, n) && LinkSees(net', l);
        DropLink(net, id, l, n);
        assert IsLink(net, l, n) && LinkSees(net, l);
      }
    }
  }

  /** Nexus m resolves alike without the constant, if the constant puts nothing on it and
      its other drivers act alike. */
  lemma DropResolved(net: Netlist, id: NodeId, out: Drive, out': Drive, m: NexusId, b: nat)
    requires IsConst(net, id)
    requires net.nodes[id].pins[0] == m ==> BitAt(out(id, net.nodes[id], 0), b) == Vz
    requires forall l | IsLink(net, l, m) && l.node != id ::
               out(l.node, net.nodes[l.node], l.pin) == out'(l.node, net.nodes[l.node], l.pin)
    ensures ResolvedBit(net, out, m, b) == ResolvedBit(Drop(net, id), out', m, b)
  {
    var net' := Drop(net, id);
    DropSurface(net, id);
    forall v | v != Vz
      ensures Drives(net, out, m, b, v) <==> Drives(net', out', m, b, v)
    {
      if Drives(net, out, m, b, v) {
        var l :| LinkDrives(net, out, l, m, b, v);
        assert l.node != id;
        DropLink(net, id, l, m);
        assert LinkDrives(net', out', l, m, b, v);
      }
      if Drives(net', out', m, b, v) {
        var l :| LinkDrives(net', out', l, m, b, v);
        DropLink(net, id, l, m);
        assert LinkDrives(net, out, l, m, b, v);
      }
    }
    ResolvedFrame(net, net', out, out', m, b);
  }

  // ---- All-z constants ----

  lemma DropZSolution(net: Netlist, id: NodeId, env: Env, val: Valuation)
    requires IsConst(net, id) && AllZ(net.nodes[id].kind.value)
    ensures Solution(net, env, val) <==> Solution(Drop(net, id), env, val)
  {
    if Fits(net.width, val) {
      var out := Out(net.width, env, val);
      assert NodeOk(net.width, net.nodes[id]);
      assert out(id, net.nodes[id], 0) == net.nodes[id].kind.value;
      forall n, b: nat | n in net.width && b < net.width[n]
        ensures ResolvedBit(net, out, n, b) == ResolvedBit(Drop(net, id), out, n, b)
      {
        DropResolved(net, id, out, out, n, b);
      }
    }
  }

  /** A constant that is z on every bit drives nothing. */
  lemma DropZEquivalent(net: Netlist, id: NodeId)
    requires IsConst(net, id) && AllZ(net.nodes[id].kind.value)
    ensures Equivalent(net, Drop(net, id))
  {
    DropSurface(net, id);
    forall env, val
      ensures Solution(net, env, val) <==> Solution(Drop(net, id), env, val)
    {
      DropZSolution(net, id, env, val);
    }
    SameSolutionsEquivalent(net, Drop(net, id));
  }

  // ---- Constants that nothing reads ----

  /** The state changed at n alone, to what n resolves to in netlist `net`. */
  ghost function Resettle(net: Netlist, env: Env, val: Valuation, n: NexusId): Valuation
    requires n in net.width && Fits(net.width, val)
  {
    val[n := seq(net.width[n], b requires 0 <= b < net.width[n] => ResolvedBit(net, Out(net.width, env, val), n, b))]
  }

  lemma UnreadFrame(net: Netlist, n: NexusId, env: Env, val: Valuation, val': Valuation, l: Link, m: NexusId)
    requires WellFormed(net) && Unread(net, n) && IsLink(net, l, m)
    requires Fits(net.width, val) && Fits(net.width, val')
    requires forall k | k in net.width && k != n :: val[k] == val'[k]
    ensures Out(net.width, env, val)(l.node, net.nodes[l.node], l.pin)
         == Out(net.width, env, val')(l.node, net.nodes[l.node], l.pin)
  {
    var node := net.nodes[l.node];
    assert NodeOk(net.width, node);
    forall i | 0 <= i < |node.pins| && Reads(node.kind, i)
      ensures node.pins[i] != n
    {
      assert IsLink(net, Link(l.node, i), node.pins[i]);
    }
    OutVecFrame(net.width, net.width, env, val, val', l.node, node, l.pin);
  }

  lemma SameOut(net: Netlist, out: Drive, out': Drive, m: NexusId, b: nat)
    requires forall l | IsLink(net, l, m) ::
               out(l.node, net.nodes[l.node], l.pin) == out'(l.node, net.nodes[l.node], l.pin)
    ensures ResolvedBit(net, out, m, b) == ResolvedBit(net, out', m, b)
  {
    forall v
      ensures Drives(net, out, m, b, v) <==> Drives(net, out', m, b, v)
    {
      if Drives(net, out, m, b, v) {
        var l :| LinkDrives(net, out, l, m, b, v);
        assert LinkDrives(net, out', l, m, b, v);
      }
      if Drives(net, out', m, b, v) {
        var l :| LinkDrives(net, out', l, m, b, v);
        assert LinkDrives(net, out, l, m, b, v);
      }
    }
    ResolvedFrame(net, net, out, out', m, b);
  }

  /** Without an unread constant, every nexus but its own settles as before ... */
  lemma DropUnreadSolution(net: Netlist, id: NodeId, env: Env, val: Valuation) returns (val': Valuation)
    requires IsConst(net, id) && Unread(net, net.nodes[id].pins[0])
    requires Solution(net, env, val)
    ensures Solution(Drop(net, id), env, val')
    ensures forall m | m in net.width && m != net.nodes[id].pins[0] :: val'[m] == val[m]
  {
    var net', n := Drop(net, id), net.nodes[id].pins[0];
    assert NodeOk(net.width, net.nodes[id]);
    val' := Resettle(net', env, val, n);
    var out, out' := Out(net.width, env, val), Out(net.width, env, val');
    forall m, b: nat | m in net.width && b < net.width[m]
      ensures val'[m][b] == ResolvedBit(net', out', m, b)
    {
      forall l | IsLink(net, l, m)
        ensures out(l.node, net.nodes[l.node], l.pin) == out'(l.node, net.nodes[l.node], l.pin)
      {
        UnreadFrame(net, n, env, val, val', l, m);
      }
      if m == n {
        SameOut(net', out, out', m, b);
      } else {
        DropResolved(net, id, out, out', m, b);
      }
    }
  }

  /** ... and the other way round. */
  lemma DropUnreadSolutionBack(net: Netlist, id: NodeId, env: Env, val': Valuation) returns (val: Valuation)
    requires IsConst(net, id) && Unread(net, net.nodes[id].pins[0])
    requires Solution(Drop(net, id), env, val')
    ensures Solution(net, env, val)
    ensures forall m | m in net.width && m != net.nodes[id].pins[0] :: val'[m] == val[m]
  {
    var net', n := Drop(net, id), net.nodes[id].pins[0];
    assert NodeOk(net.width, net.nodes[id]);
    val := Resettle(net, env, val', n);
    var out, out' := Out(net.width, env, val), Out(net.width, env, val');
    forall m, b: nat | m in net.width && b < net.width[m]
      ensures val[m][b] == ResolvedBit(net, out, m, b)
    {
      forall l | IsLink(net, l, m)
        ensures out(l.node, net.nodes[l.node], l.pin) == out'(l.node, net.nodes[l.node], l.pin)
      {
        UnreadFrame(net, n, env, val, val', l, m);
      }
      if m == n {
        SameOut(net, out, out', m, b);
      } else {
        DropResolved(net, id, out, out', m, b);
      }
    }
  }

  lemma AgreeOff(net: Netlist, n: NexusId, val: Valuation, val': Valuation)
    requires WellFormed(net) && !Observable(net, n)
    requires forall m | m in net.width :: m in val && m in val' && (m != n ==> val[m] == val'[m])
    ensures AgreeOnObservables(net, val, val')
  {
    forall m | Observable(net, m)
      ensures m in val && m in val' && val[m] == val'[m]
    {
      ObservableHasWidth(net, m);
    }
  }

  lemma DropUnreadMatch(net: Netlist, id: NodeId, env: Env, val: Valuation)
    requires IsConst(net, id) && Unread(net, net.nodes[id].pins[0]) && !Observable(net, net.nodes[id].pins[0])
    requires Solution(net, env, val)
    ensures HasMatch(net, Drop(net, id), env, val)
  {
    var val' := DropUnreadSolution(net, id, env, val);
    AgreeOff(net, net.nodes[id].pins[0], val, val');
  }

  lemma DropUnreadMatchBack(net: Netlist, id: NodeId, env: Env, val': Valuation)
    requires IsConst(net, id) && Unread(net, net.nodes[id].pins[0]) && !Observable(net, net.nodes[id].pins[0])
    requires Solution(Drop(net, id), env, val')
    ensures HasMatchBack(net, Drop(net, id), env, val')
  {
    var val := DropUnreadSolutionBack(net, id, env, val');
    AgreeOff(net, net.nodes[id].pins[0], val, val');
  }

  /** A constant on an unread, unobservable nexus may go. */
  lemma DropUnreadEquivalent(net: Netlist, id: NodeId)
    requires IsConst(net, id) && NoReason(net, net.nodes[id].pins[0]) && !HasTran(net, net.nodes[id].pins[0])
    ensures Equivalent(net, Drop(net, id))
  {
    var net' := Drop(net, id);
    NoReasonMeansUnread(net, net.nodes[id].pins[0]);
    assert !Observable(net, net.nodes[id].pins[0]);
    assert forall n | Observable(net, n) :: Observable(net', n) by {
      DropSurface(net, id);
    }
    forall env, val | Solution(net, env, val)
      ensures HasMatch(net, net', env, val)
    {
      DropUnreadMatch(net, id, env, val);
    }
    forall env, val | Solution(net', env, val)
      ensures HasMatchBack(net, net', env, val)
    {
      DropUnreadMatchBack(net, id, env, val);
    }
  }

  /** Pins from which a constant may come to drive a nexus: those of constants, and of the
      devices that are folded into one. */
  predicate MayBeConst(k: Kind, pin: nat) {
    k.Const? || (k.Concat? && pin == 0) || (k.PartPV? && pin == 1)
  }

  ghost predicate HasConst(net: Netlist, n: NexusId) {
    exists l :: IsLink(net, l, n) && MayBeConst(net.nodes[l.node].kind, l.pin)
  }

  /** A constant meets a switch only at observable nexuses. */
  ghost predicate Shielded(net: Netlist) {
    forall n | HasTran(net, n) && HasConst(net, n) :: Observable(net, n)
  }

  /** Then a constant that passes the scans may always go. */
  lemma DropEquivalent(net: Netlist, id: NodeId)
    requires IsConst(net, id) && Shielded(net)
    requires AllZ(net.nodes[id].kind.value) || NoReason(net, net.nodes[id].pins[0])
    ensures WellFormed(Drop(net, id)) && Equivalent(net, Drop(net, id)) && Shielded(Drop(net, id))
  {
    var net', n := Drop(net, id), net.nodes[id].pins[0];
    DropSurface(net, id);
    forall m | HasTran(net', m) && HasConst(net', m)
      ensures Observable(net', m)
    {
      var l :| IsLink(net', l, m) && net'.nodes[l.node].kind.Tran?;
      var k :| IsLink(net', k, m) && MayBeConst(net'.nodes[k.node].kind, k.pin);
      assert IsLink(net, l, m) && IsLink(net, k, m);
      assert HasTran(net, m) && HasConst(net, m);
    }
    if AllZ(net.nodes[id].kind.value) {
      DropZEquivalent(net, id);
    } else {
      NoReasonMeansUnread(net, n);
      assert !Observable(net, n);
      assert IsLink(net, Link(id, 0), n);
      assert HasConst(net, n);
      DropUnreadEquivalent(net, id);
    }
  }

  /** Replacing devices keeps the switches shielded if a constant may only come to drive
      nexuses that it might have driven before. */
  lemma ReplaceShielded(net: Netlist, ids: set<NodeId>, added: NodeId, node: Node)
    requires CanReplace(net, ids, added, node) && Shielded(net)
    requires forall p: nat | p < |node.pins| && MayBeConst(node.kind, p) :: HasConst(net, node.pins[p])
    ensures Shielded(Replace(net, ids, added, node))
  {
    var net' := Replace(net, ids, added, node);
    ReplaceSurface(net, ids, added, node);
    forall n | HasTran(net', n) && HasConst(net', n)
      ensures Observable(net', n)
    {
      var l :| IsLink(net', l, n) && net'.nodes[l.node].kind.Tran?;
      ReplaceLink(net, ids, added, node, l, n);
      assert HasTran(net, n);
      var k :| IsLink(net', k, n) && MayBeConst(net'.nodes[k.node].kind, k.pin);
      if k.node != added {
        ReplaceLink(net, ids, added, node, k, n);
        assert HasConst(net, n);
      }
    }
  }

  lemma FloatingShielded(net: Netlist, n: NexusId, sid: NodeId, cid: NodeId, width: nat)
    requires CanAddFloating(net, n, sid, cid) && Shielded(net)
    ensures Shielded(AddFloating(net, n, sid, cid, width))
  {
    var net' := AddFloating(net, n, sid, cid, width);
    FloatingSurface(net, n, sid, cid, width);
    forall m | HasTran(net', m) && HasConst(net', m)
      ensures Observable(net', m)
    {
      var l :| IsLink(net', l, m) && net'.nodes[l.node].kind.Tran?;
      FloatingLink(net, n, sid, cid, width, l, m);
      assert m != n && HasTran(net, m);
      var k :| IsLink(net', k, m) && MayBeConst(net'.nodes[k.node].kind, k.pin);
      FloatingLink(net, n, sid, cid, width, k, m);
      assert HasConst(net, m);
    }
  }
}
