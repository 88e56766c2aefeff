/** The netlist edits that the optimizer makes, and when they keep all settled states. */
module Rewrites {
  import opened FourState
  import opened Netlists

  // ---- Frames ----

  predicate AgreeOnReads(node: Node, val: Valuation, val': Valuation) {
    forall i | 0 <= i < |node.pins| && Reads(node.kind, i) ::
      node.pins[i] in val && node.pins[i] in val' && val[node.pins[i]] == val'[node.pins[i]]
  }

  predicate AgreeOnWidths(node: Node, width: map<NexusId, nat>, width': map<NexusId, nat>) {
    forall i | 0 <= i < |node.pins| ::
      node.pins[i] in width && node.pins[i] in width' && width[node.pins[i]] == width'[node.pins[i]]
  }

  lemma {:induction false} ConcatVecFrame(val: Valuation, val': Valuation, pins: seq<NexusId>)
    requires forall i | 0 <= i < |pins| :: pins[i] in val && pins[i] in val' && val[pins[i]] == val'[pins[i]]
    ensures ConcatVec(val, pins) == ConcatVec(val', pins)
  {
    if pins != [] {
      ConcatVecFrame(val, val', pins[1..]);
    }
  }

  lemma {:induction false} SumWidthsFrame(width: map<NexusId, nat>, width': map<NexusId, nat>, pins: seq<NexusId>)
    requires forall i | 0 <= i < |pins| :: pins[i] in width && pins[i] in width' && width[pins[i]] == width'[pins[i]]
    ensures SumWidths(width, pins) == SumWidths(width', pins)
  {
    if pins != [] {
      SumWidthsFrame(width, width', pins[1..]);
    }
  }

  /** What a device drives depends only on the nexuses that it reads. */
  lemma OutVecFrame(width: map<NexusId, nat>, width': map<NexusId, nat>, env: Env,
                    val: Valuation, val': Valuation, id: NodeId, node: Node, pin: nat)
    requires NodeOk(width, node) && NodeOk(width', node) && Fits(width, val) && Fits(width', val')
    requires pin < |node.pins|
    requires AgreeOnReads(node, val, val') && AgreeOnWidths(node, width, width')
    ensures OutVec(width, env, val, id, node, pin) == OutVec(width', env, val', id, node, pin)
  {
    var pins := node.pins;
    match node.kind
    case Concat(_) =>
      ConcatVecFrame(val, val', pins[1..]);
    case Mux(size, _) =>
      assert seq(size, i requires 0 <= i < size => val[pins[2 + i]])
          == seq(size, i requires 0 <= i < size => val'[pins[2 + i]]);
    case Tran =>
      assert seq(|pins|, i requires 0 <= i < |pins| => val[pins[i]])
          == seq(|pins|, i requires 0 <= i < |pins| => val'[pins[i]]);
    case Gate(dirs) =>
      assert seq(|pins|, i requires 0 <= i < |pins| => if dirs[i].Input? then val[pins[i]] else [])
          == seq(|pins|, i requires 0 <= i < |pins| => if dirs[i].Input? then val'[pins[i]] else []);
    case _ =>
  }

  // ---- Replacing devices by one other device ----

  /** Devices that a rewrite may remove or add: neither signals nor opaque devices. */
  predicate Rewritable(k: Kind) {
    !k.Signal? && !k.Gate? && !k.Tran?
  }

  function Replace(net: Netlist, ids: set<NodeId>, added: NodeId, node: Node): Netlist {
    Netlist((net.nodes - ids)[added := node], net.width)
  }

  ghost predicate CanReplace(net: Netlist, ids: set<NodeId>, added: NodeId, node: Node) {
    && WellFormed(net) && added !in net.nodes && NodeOk(net.width, node)
    && Rewritable(node.kind)
    && forall id | id in ids :: id in net.nodes && Rewritable(net.nodes[id].kind)
  }

  lemma ReplaceLink(net: Netlist, ids: set<NodeId>, added: NodeId, node: Node, l: Link, n: NexusId)
    requires CanReplace(net, ids, added, node)
    requires l.node !in ids && l.node != added
    ensures IsLink(net, l, n) <==> IsLink(Replace(net, ids, added, node), l, n)
    ensures l.node in net.nodes ==>
              l.node in Replace(net, ids, added, node).nodes
              && Replace(net, ids, added, node).nodes[l.node] == net.nodes[l.node]
  {
  }

  /** Replacing keeps the signals of every nexus, so also its kind and its observers. */
  lemma ReplaceSurface(net: Netlist, ids: set<NodeId>, added: NodeId, node: Node)
    requires CanReplace(net, ids, added, node)
    ensures WellFormed(Replace(net, ids, added, node))
    ensures forall n, t :: HasType(net, n, t) <==> HasType(Replace(net, ids, added, node), n, t)
    ensures forall n :: Observable(net, n) <==> Observable(Replace(net, ids, added, node), n)
  {
    var net' := Replace(net, ids, added, node);
    forall n | n in net'.width
      ensures HasSignal(net', n)
    {
      assert HasSignal(net, n);
      var l :| IsLink(net, l, n) && net.nodes[l.node].kind.Signal?;
      ReplaceLink(net, ids, added, node, l, n);
    }
    forall n, t
      ensures HasType(net, n, t) <==> HasType(net', n, t)
    {
      if HasType(net, n, t) {
        var l :| IsSignalOf(net, l, n, t);
        ReplaceLink(net, ids, added, node, l, n);
        assert IsSignalOf(net', l, n, t);
      }
      if HasType(net', n, t) {
        var l :| IsSignalOf(net', l, n, t);
        ReplaceLink(net, ids, added, node, l, n);
        assert IsSignalOf(net, l, n, t);
      }
    }
    forall n
      ensures Observable(net, n) <==> Observable(net', n)
    {
      if Observable(net, n) {
        var l :| IsLink(net, l, n) && LinkSees(net, l);
        ReplaceLink(net, ids, added, node, l, n);
        assert IsLink(net', l, n) && LinkSees(net', l);
      }
      if Observable(net', n) {
        var l :| IsLink(net', l, n) && LinkSees(net', l);
        ReplaceLink(net, ids, added, node, l, n);
        assert IsLink(net, l, n) && LinkSees(net, l);
      }
    }
  }

  /** Some device among `ids` puts v on bit b of n. */
  ghost predicate AmongDrives(net: Netlist, out: Drive, ids: set<NodeId>, n: NexusId, b: nat, v: V) {
    exists l: Link :: l.node in ids && LinkDrives(net, out, l, n, b, v)
  }

  /** The new device drives, on every bit, exactly what the removed ones drove. */
  ghost predicate SameDrive(net: Netlist, net': Netlist, out: Drive, ids: set<NodeId>, added: NodeId) {
    forall n, b: nat, v | n in net.width && b < net.width[n] && v != Vz ::
      AmongDrives(net, out, ids, n, b, v) <==> AmongDrives(net', out, {added}, n, b, v)
  }

  lemma ReplaceDrives(net: Netlist, ids: set<NodeId>, added: NodeId, node: Node, out: Drive, n: NexusId, b: nat, v: V)
    requires CanReplace(net, ids, added, node)
    requires n in net.width && b < net.width[n] && v != Vz
    requires SameDrive(net, Replace(net, ids, added, node), out, ids, added)
    ensures Drives(net, out, n, b, v) <==> Drives(Replace(net, ids, added, node), out, n, b, v)
  {
    var net' := Replace(net, ids, added, node);
    assert AmongDrives(net, out, ids, n, b, v) <==> AmongDrives(net', out, {added}, n, b, v);
    if Drives(net, out, n, b, v) {
      var l :| LinkDrives(net, out, l, n, b, v);
      if l.node in ids {
        var l': Link :| l'.node in {added} && LinkDrives(net', out, l', n, b, v);
      } else {
        ReplaceLink(net, ids, added, node, l, n);
        assert LinkDrives(net', out, l, n, b, v);
      }
    }
    if Drives(net', out, n, b, v) {
      var l :| LinkDrives(net', out, l, n, b, v);
      if l.node == added {
        assert l.node in {added};
        var l': Link :| l'.node in ids && LinkDrives(net, out, l', n, b, v);
      } else {
        assert l.node !in ids;
        ReplaceLink(net, ids, added, node, l, n);
        assert LinkDrives(net, out, l, n, b, v);
      }
    }
  }

  /** Resolution sees only the types of the signals and which values are driven. */
  lemma ResolvedFrame(net: Netlist, net': Netlist, out: Drive, out': Drive, n: NexusId, b: nat)
    requires forall t :: HasType(net, n, t) <==> HasType(net', n, t)
    requires forall v | v != Vz :: Drives(net, out, n, b, v) <==> Drives(net', out', n, b, v)
    ensures ResolvedBit(net, out, n, b) == ResolvedBit(net', out', n, b)
  {
  }

  lemma ReplaceSettled(net: Netlist, ids: set<NodeId>, added: NodeId, node: Node, out: Drive, val: Valuation)
    requires CanReplace(net, ids, added, node)
    requires Fits(net.width, val)
    requires SameDrive(net, Replace(net, ids, added, node), out, ids, added)
    ensures Settled(net, out, val) <==> Settled(Replace(net, ids, added, node), out, val)
  {
    var net' := Replace(net, ids, added, node);
    ReplaceSurface(net, ids, added, node);
    forall n, b: nat | n in net.width && b < net.width[n]
      ensures ResolvedBit(net, out, n, b) == ResolvedBit(net', out, n, b)
    {
      forall v | v != Vz
        ensures Drives(net, out, n, b, v) <==> Drives(net', out, n, b, v)
      {
        ReplaceDrives(net, ids, added, node, out, n, b, v);
      }
      ResolvedFrame(net, net', out, out, n, b);
    }
  }

  /** Observable nexuses carry a value in every settled state. */
  lemma ObservableHasWidth(net: Netlist, n: NexusId)
    requires WellFormed(net) && Observable(net, n)
    ensures n in net.width
  {
    var l :| IsLink(net, l, n) && LinkSees(net, l);
    assert NodeOk(net.width, net.nodes[l.node]);
  }

  lemma AgreeSame(net: Netlist, val: Valuation, val': Valuation)
    requires WellFormed(net)
    requires forall n | n in net.width :: n in val && n in val' && val[n] == val'[n]
    ensures AgreeOnObservables(net, val, val')
  {
    forall n | Observable(net, n)
      ensures n in val && n in val' && val[n] == val'[n]
    {
      ObservableHasWidth(net, n);
    }
  }

  lemma MatchBySelf(net: Netlist, net': Netlist, env: Env, val: Valuation)
    requires WellFormed(net) && net.width == net'.width
    requires Solution(net, env, val) && Solution(net', env, val)
    ensures HasMatch(net, net', env, val) && HasMatchBack(net, net', env, val)
  {
    AgreeSame(net, val, val);
  }

  /** Two netlists over the same nexuses with the same settled states are equivalent. */
  lemma SameSolutionsEquivalent(net: Netlist, net': Netlist)
    requires WellFormed(net) && net.width == net'.width
    requires forall n | Observable(net, n) :: Observable(net', n)
    requires forall env, val :: Solution(net, env, val) <==> Solution(net', env, val)
    ensures Equivalent(net, net')
  {
    forall env, val | Solution(net, env, val)
      ensures HasMatch(net, net', env, val)
    {
      MatchBySelf(net, net', env, val);
    }
    forall env, val | Solution(net', env, val)
      ensures HasMatchBack(net, net', env, val)
    {
      MatchBySelf(net, net', env, val);
    }
  }

  // ---- A floating net: the part that make_const_z adds ----

  function FloatingSig(width: nat): Sig {
    Sig(Wire, width, 0, 0, true, NotAPort, false)
  }

  function AddFloating(net: Netlist, n: NexusId, sid: NodeId, cid: NodeId, width: nat): Netlist {
    Netlist(net.nodes[sid := Node(Signal(FloatingSig(width)), [n])][cid := Node(Const(Fill(Vz, width)), [n])],
            net.width[n := width])
  }

  ghost predicate CanAddFloating(net: Netlist, n: NexusId, sid: NodeId, cid: NodeId) {
    WellFormed(net) && n !in net.width && sid !in net.nodes && cid !in net.nodes && sid != cid
  }

  lemma NodeOkFrame(width: map<NexusId, nat>, width': map<NexusId, nat>, node: Node)
    requires NodeOk(width, node) && AgreeOnWidths(node, width, width')
    ensures NodeOk(width', node)
  {
    if node.kind.Concat? {
      SumWidthsFrame(width, width', node.pins[1..]);
    }
  }

  lemma FloatingLink(net: Netlist, n: NexusId, sid: NodeId, cid: NodeId, width: nat, l: Link, m: NexusId)
    requires CanAddFloating(net, n, sid, cid)
    ensures m != n ==> (IsLink(net, l, m) <==> IsLink(AddFloating(net, n, sid, cid, width), l, m))
    ensures m != n && IsLink(net, l, m) ==>
              net.nodes[l.node] == AddFloating(net, n, sid, cid, width).nodes[l.node]
    ensures !IsLink(net, l, n)
    ensures IsLink(AddFloating(net, n, sid, cid, width), l, n) ==> l == Link(sid, 0) || l == Link(cid, 0)
  {
    if l.node in net.nodes {
      assert NodeOk(net.width, net.nodes[l.node]);
    }
  }

  lemma FloatingSurface(net: Netlist, n: NexusId, sid: NodeId, cid: NodeId, width: nat)
    requires CanAddFloating(net, n, sid, cid)
    ensures WellFormed(AddFloating(net, n, sid, cid, width))
    ensures forall m, t | m != n :: HasType(net, m, t) <==> HasType(AddFloating(net, n, sid, cid, width), m, t)
    ensures forall t :: HasType(AddFloating(net, n, sid, cid, width), n, t) ==> t == Wire
    ensures forall m :: Observable(net, m) <==> Observable(AddFloating(net, n, sid, cid, width), m)
  {
    var net' := AddFloating(net, n, sid, cid, width);
    forall id | id in net'.nodes
      ensures NodeOk(net'.width, net'.nodes[id])
    {
      if id in net.nodes {
        assert NodeOk(net.width, net.nodes[id]);
        NodeOkFrame(net.width, net'.width, net.nodes[id]);
      }
    }
    forall m | m in net'.width
      ensures HasSignal(net', m)
    {
      if m == n {
        assert IsLink(net', Link(sid, 0), n);
      } else {
        assert HasSignal(net, m);
        var l :| IsLink(net, l, m) && net.nodes[l.node].kind.Signal?;
        FloatingLink(net, n, sid, cid, width, l, m);
      }
    }
    forall m, t | m != n
      ensures HasType(net, m, t) <==> HasType(net', m, t)
    {
      if HasType(net, m, t) {
        var l :| IsSignalOf(net, l, m, t);
        FloatingLink(net, n, sid, cid, width, l, m);
        assert IsSignalOf(net', l, m, t);
      }
      if HasType(net', m, t) {
        var l :| IsSignalOf(net', l, m, t);
        FloatingLink(net, n, sid, cid, width, l, m);
        assert IsSignalOf(net, l, m, t);
      }
    }
    forall t | HasType(net', n, t)
      ensures t == Wire
    {
      var l :| IsSignalOf(net', l, n, t);
      FloatingLink(net, n, sid, cid, width, l, n);
    }
    forall m
      ensures Observable(net, m) <==> Observable(net', m)
    {
      if Observable(net, m) {
        var l :| IsLink(net, l, m) && LinkSees(net, l);
        FloatingLink(net, n, sid, cid, width, l, m);
        assert IsLink(net', l, m) && LinkSees(net', l);
      }
      if Observable(net', m) {
        var l :| IsLink(net', l, m) && LinkSees(net', l);
        FloatingLink(net, n, sid, cid, width, l, m);
        assert IsLink(net, l, m) && LinkSees(net, l);
      }
    }
  }

  lemma FloatingDrives(net: Netlist, n: NexusId, sid: NodeId, cid: NodeId, width: nat,
                       out: Drive, out': Drive, m: NexusId, b: nat, v: V)
    requires CanAddFloating(net, n, sid, cid) && m != n
    requires forall l | IsLink(net, l, m) ::
               out(l.node, net.nodes[l.node], l.pin) == out'(l.node, net.nodes[l.node], l.pin)
    ensures Drives(net, out, m, b, v) <==> Drives(AddFloating(net, n, sid, cid, width), out', m, b, v)
  {
    var net' := AddFloating(net, n, sid, cid, width);
    if Drives(net, out, m, b, v) {
      var l :| LinkDrives(net, out, l, m, b, v);
      FloatingLink(net, n, sid, cid, width, l, m);
      assert LinkDrives(net', out', l, m, b, v);
    }
    if Drives(net', out', m, b, v) {
      var l :| LinkDrives(net', out', l, m, b, v);
      FloatingLink(net, n, sid, cid, width, l, m);
      assert LinkDrives(net, out, l, m, b, v);
    }
  }

  lemma FloatingFrame(net: Netlist, n: NexusId, sid: NodeId, cid: NodeId, width: nat,
                      env: Env, val: Valuation, val': Valuation, l: Link, m: NexusId)
    requires CanAddFloating(net, n, sid, cid)
    requires Fits(net.width, val) && Fits(net.width[n := width], val')
    requires forall m | m in val :: val'[m] == val[m]
    requires IsLink(net, l, m)
    ensures Out(net.width, env, val)(l.node, net.nodes[l.node], l.pin)
         == Out(net.width[n := width], env, val')(l.node, net.nodes[l.node], l.pin)
  {
    var node, width' := net.nodes[l.node], net.width[n := width];
    assert NodeOk(net.width, node);
    NodeOkFrame(net.width, width', node);
    OutVecFrame(net.width, width', env, val, val', l.node, node, l.pin);
  }

  lemma FloatingIsZ(net: Netlist, n: NexusId, sid: NodeId, cid: NodeId, width: nat,
                    env: Env, val': Valuation, b: nat)
    requires CanAddFloating(net, n, sid, cid)
    requires Fits(net.width[n := width], val')
    ensures ResolvedBit(AddFloating(net, n, sid, cid, width), Out(net.width[n := width], env, val'), n, b) == Vz
  {
    var net', out' := AddFloating(net, n, sid, cid, width), Out(net.width[n := width], env, val');
    FloatingSurface(net, n, sid, cid, width);
    forall v | Drives(net', out', n, b, v)
      ensures v == Vz
    {
      var l :| LinkDrives(net', out', l, n, b, v);
      FloatingLink(net, n, sid, cid, width, l, n);
    }
    assert !Drives(net', out', n, b, V0) && !Drives(net', out', n, b, V1) && !Drives(net', out', n, b, Vx);
  }

  /** The new nexus settles at z, and the others settle exactly as before. */
  lemma FloatingSolution(net: Netlist, n: NexusId, sid: NodeId, cid: NodeId, width: nat,
                         env: Env, val: Valuation, val': Valuation)
    requires CanAddFloating(net, n, sid, cid)
    requires Fits(net.width, val) && Fits(net.width[n := width], val')
    requires forall m | m in val :: val'[m] == val[m]
    ensures Solution(AddFloating(net, n, sid, cid, width), env, val')
       <==> Solution(net, env, val) && val'[n] == Fill(Vz, width)
  {
    var net' := AddFloating(net, n, sid, cid, width);
    var out, out' := Out(net.width, env, val), Out(net'.width, env, val');
    FloatingSurface(net, n, sid, cid, width);
    forall m, b: nat | m in net.width
      ensures ResolvedBit(net, out, m, b) == ResolvedBit(net', out', m, b)
    {
      forall l | IsLink(net, l, m)
        ensures out(l.node, net.nodes[l.node], l.pin) == out'(l.node, net.nodes[l.node], l.pin)
      {
        FloatingFrame(net, n, sid, cid, width, env, val, val', l, m);
      }
      forall v | v != Vz
        ensures Drives(net, out, m, b, v) <==> Drives(net', out', m, b, v)
      {
        FloatingDrives(net, n, sid, cid, width, out, out', m, b, v);
      }
      ResolvedFrame(net, net', out, out', m, b);
    }
    forall b: nat
      ensures ResolvedBit(net', out', n, b) == Vz
    {
      FloatingIsZ(net, n, sid, cid, width, env, val', b);
    }
    FloatingSettled(net, net', n, width, out, out', val, val');
  }

  lemma FloatingSettled(net: Netlist, net': Netlist, n: NexusId, width: nat,
                        out: Drive, out': Drive, val: Valuation, val': Valuation)
    requires n !in net.width && net'.width == net.width[n := width]
    requires Fits(net.width, val) && Fits(net'.width, val')
    requires forall m | m in val :: val'[m] == val[m]
    requires forall m, b: nat | m in net.width :: ResolvedBit(net, out, m, b) == ResolvedBit(net', out', m, b)
    requires forall b: nat :: ResolvedBit(net', out', n, b) == Vz
    ensures Settled(net', out', val') <==> Settled(net, out, val) && val'[n] == Fill(Vz, width)
  {
    if Settled(net', out', val') {
      assert val'[n] == Fill(Vz, width);
    }
  }

  lemma FloatingMatch(net: Netlist, n: NexusId, sid: NodeId, cid: NodeId, width: nat, env: Env, val: Valuation)
    requires CanAddFloating(net, n, sid, cid)
    requires Solution(net, env, val)
    ensures HasMatch(net, AddFloating(net, n, sid, cid, width), env, val)
  {
    var val' := val[n := Fill(Vz, width)];
    FloatingSolution(net, n, sid, cid, width, env, val, val');
    AgreeSame(net, val, val');
  }

  lemma FloatingMatchBack(net: Netlist, n: NexusId, sid: NodeId, cid: NodeId, width: nat, env: Env, val': Valuation)
    requires CanAddFloating(net, n, sid, cid)
    requires Solution(AddFloating(net, n, sid, cid, width), env, val')
    ensures HasMatchBack(net, AddFloating(net, n, sid, cid, width), env, val')
  {
    var val := val' - {n};
    assert Fits(net.width, val);
    FloatingSolution(net, n, sid, cid, width, env, val, val');
    AgreeSame(net, val, val');
  }

  lemma FloatingEquivalent(net: Netlist, n: NexusId, sid: NodeId, cid: NodeId, width: nat)
    requires CanAddFloating(net, n, sid, cid)
    ensures Equivalent(net, AddFloating(net, n, sid, cid, width))
  {
    var net' := AddFloating(net, n, sid, cid, width);
    assert forall m | Observable(net, m) :: Observable(net', m) by {
      FloatingSurface(net, n, sid, cid, width);
    }
    forall env, val | Solution(net, env, val)
      ensures HasMatch(net, net', env, val)
    {
      FloatingMatch(net, n, sid, cid, width, env, val);
    }
    forall env, val' | Solution(net', env, val')
      ensures HasMatchBack(net, net', env, val')
    {
      FloatingMatchBack(net, n, sid, cid, width, env, val');
    }
  }
}
