/** Bidirectional switches: what the deletion of a constant that only a switch reads costs. */
module Switches {
  import opened FourState
  import opened Netlists
  import opened Dangling
  import opened Acyclic

  /** Switch t puts 1 on every bit at its pin q if its pin p shows w, and 0 otherwise; every
      other variable driver is silent. */
  function Watching(t: NodeId, p: nat, q: nat, w: Vec, width: nat): Env {
    Env((id, pin, vals: seq<Vec>) =>
          if id == t && pin == q then Fill(if p < |vals| && vals[p] == w then V1 else V0, width) else [])
  }

  /** The same, as if it always saw w. */
  function Steady(t: NodeId, q: nat, width: nat): Env {
    Env((id, pin, vals) => if id == t && pin == q then Fill(V1, width) else [])
  }

  /** Devices other than switches read only nexuses of a lower level than those they drive. */
  ghost predicate IsLoopless(net: Netlist, level: NexusId -> nat) {
    forall id, p: nat, i: nat
      | id in net.nodes && !net.nodes[id].kind.Tran? && MayDrive(net.nodes[id], p) && IsRead(net.nodes[id], i) ::
      level(net.nodes[id].pins[i]) < level(net.nodes[id].pins[p])
  }

  ghost predicate HasSupply(net: Netlist, n: NexusId) {
    HasType(net, n, Supply0) || HasType(net, n, Supply1)
  }

  /** The constant is the only output on its nexus, the scans find no reason to keep it, and
      switch t leads from there, pin p, to an observable nexus, pin q, which apart from
      switches is driven by nothing but signals, other than supplies, and gates. */
  ghost predicate LeadsOut(net: Netlist, id: NodeId, t: NodeId, p: nat, q: nat) {
    && IsConst(net, id) && !AllZ(net.nodes[id].kind.value) && NoReason(net, net.nodes[id].pins[0])
    && t in net.nodes && net.nodes[t].kind.Tran? && p < 2 && q < 2 && p != q && |net.nodes[t].pins| >= 2
    && var n, m := net.nodes[id].pins[0], net.nodes[t].pins[q];
       && n in net.width && net.nodes[t].pins[p] == n && Observable(net, m) && m in net.width && net.width[m] > 0
       && (forall l | IsLink(net, l, n) && l.node != id :: !PinDir(net.nodes[l.node].kind, l.pin).Output?)
       && (forall l | IsLink(net, l, m) && PinDir(net.nodes[l.node].kind, l.pin).Output? ::
             net.nodes[l.node].kind.Signal? || net.nodes[l.node].kind.Gate?)
       && !HasSupply(net, m)
  }

  // ---- Nexuses with one voice ----

  lemma OneVoice(net: Netlist, out: Drive, l: Link, n: NexusId, b: nat, v: V)
    requires LinkDrives(net, out, l, n, b, v) && v != Vz && !HasSupply(net, n)
    requires forall l' | IsLink(net, l', n) && l' != l :: out(l'.node, net.nodes[l'.node], l'.pin) == []
    ensures ResolvedBit(net, out, n, b) == v
  {
    assert Drives(net, out, n, b, v);
    forall w | Drives(net, out, n, b, w) && w != Vz
      ensures w == v
    {
      var l' :| LinkDrives(net, out, l', n, b, w);
    }
  }

  lemma NoVoice(net: Netlist, out: Drive, n: NexusId, b: nat)
    requires forall l | IsLink(net, l, n) :: BitAt(out(l.node, net.nodes[l.node], l.pin), b) == Vz
    requires forall l | IsLink(net, l, n) :: !PinDir(net.nodes[l.node].kind, l.pin).Output? || !net.nodes[l.node].kind.Signal?
    ensures ResolvedBit(net, out, n, b) == Vz
  {
    forall t | HasType(net, n, t)
      ensures t == Wire || t == Wand || t == Wor
    {
      var l :| IsSignalOf(net, l, n, t);
    }
    forall v | Drives(net, out, n, b, v)
      ensures v == Vz
    {
      var l :| LinkDrives(net, out, l, n, b, v);
    }
  }

  /** With the constant, and every other variable driver but t silent, its nexus shows the
      constant. */
  lemma SourceShows(net: Netlist, id: NodeId, t: NodeId, p: nat, q: nat, env: Env, val: Valuation)
    requires LeadsOut(net, id, t, p, q) && Solution(net, env, val)
    requires forall k, pin, vals | k != t || pin != q :: env.drive(k, pin, vals) == []
    ensures val[net.nodes[id].pins[0]] == net.nodes[id].kind.value
  {
    var n, v, out, c := net.nodes[id].pins[0], net.nodes[id].kind.value, Out(net.width, env, val), Link(id, 0);
    assert NodeOk(net.width, net.nodes[id]) && IsLink(net, c, n);
    SourceSilent(net, id, t, p, q, env, val);
    forall b: nat | b < |v|
      ensures val[n][b] == v[b]
    {
      if v[b] == Vz {
        SourceNoPull(net, id, t, p, q);
        NoVoice(net, out, n, b);
      } else {
        SourceNoSupply(net, id, t, p, q);
        assert LinkDrives(net, out, c, n, b, v[b]);
        OneVoice(net, out, c, n, b, v[b]);
      }
    }
  }

  lemma SourceNoPull(net: Netlist, id: NodeId, t: NodeId, p: nat, q: nat)
    requires LeadsOut(net, id, t, p, q)
    ensures forall l | IsLink(net, l, net.nodes[id].pins[0]) ::
              !PinDir(net.nodes[l.node].kind, l.pin).Output? || !net.nodes[l.node].kind.Signal?
  {
  }

  lemma SourceNoSupply(net: Netlist, id: NodeId, t: NodeId, p: nat, q: nat)
    requires LeadsOut(net, id, t, p, q)
    ensures !HasSupply(net, net.nodes[id].pins[0])
  {
    assert forall l, s | IsSignalOf(net, l, net.nodes[id].pins[0], s) :: SigDir(net.nodes[l.node].kind.sig).Passive?;
  }

  lemma SourceSilent(net: Netlist, id: NodeId, t: NodeId, p: nat, q: nat, env: Env, val: Valuation)
    requires LeadsOut(net, id, t, p, q) && Fits(net.width, val)
    requires forall k, pin, vals | k != t || pin != q :: env.drive(k, pin, vals) == []
    ensures forall l | IsLink(net, l, net.nodes[id].pins[0]) && l != Link(id, 0) ::
              Out(net.width, env, val)(l.node, net.nodes[l.node], l.pin) == []
  {
    var n := net.nodes[id].pins[0];
    forall l | IsLink(net, l, n) && l != Link(id, 0)
      ensures Out(net.width, env, val)(l.node, net.nodes[l.node], l.pin) == []
    {
      var node := net.nodes[l.node];
      assert NodeOk(net.width, node) && l.node != id;
      assert !PinDir(node.kind, l.pin).Input? && !PinDir(node.kind, l.pin).Output?;
      assert !Observable(net, n);
    }
  }

  /** Without it the nexus floats. */
  lemma SourceFloats(net: Netlist, id: NodeId, t: NodeId, p: nat, q: nat, env: Env, val: Valuation)
    requires LeadsOut(net, id, t, p, q) && Solution(Drop(net, id), env, val)
    requires forall k, pin, vals | k != t || pin != q :: env.drive(k, pin, vals) == []
    ensures val[net.nodes[id].pins[0]] != net.nodes[id].kind.value
  {
    var net', n, v := Drop(net, id), net.nodes[id].pins[0], net.nodes[id].kind.value;
    var out := Out(net.width, env, val);
    assert NodeOk(net.width, net.nodes[id]);
    SourceSilent(net, id, t, p, q, env, val);
    SourceNoPull(net, id, t, p, q);
    var b: nat :| b < |v| && v[b] != Vz;
    forall l | IsLink(net', l, n)
      ensures IsLink(net, l, n) && l != Link(id, 0) && net'.nodes[l.node] == net.nodes[l.node]
    {
      DropLink(net, id, l, n);
    }
    NoVoice(net', out, n, b);
    assert val[n][b] == ResolvedBit(net', out, n, b);
  }

  // ---- The far side of the switch ----

  lemma SwitchSays(net: Netlist, t: NodeId, p: nat, q: nat, w: Vec, width: nat, val: Valuation)
    requires Fits(net.width, val) && t in net.nodes && NodeOk(net.width, net.nodes[t])
    requires net.nodes[t].kind.Tran? && p < 2 && q < 2
    ensures Out(net.width, Watching(t, p, q, w, width), val)(t, net.nodes[t], q)
         == Fill(if val[net.nodes[t].pins[p]] == w then V1 else V0, width)
  {
    var node := net.nodes[t];
    var vals := seq(|node.pins|, i requires 0 <= i < |node.pins| => val[node.pins[i]]);
    assert vals[p] == val[node.pins[p]];
  }

  lemma DropSupply(net: Netlist, id: NodeId, n: NexusId)
    requires HasSupply(Drop(net, id), n)
    ensures HasSupply(net, n)
  {
    var s := if HasType(Drop(net, id), n, Supply0) then Supply0 else Supply1;
    var l :| IsSignalOf(Drop(net, id), l, n, s);
    assert IsSignalOf(net, l, n, s);
  }

  /** The switch alone decides the nexus it leads to. */
  lemma TargetShows(net: Netlist, net': Netlist, id: NodeId, t: NodeId, p: nat, q: nat, w: Vec, width: nat, val: Valuation)
    requires LeadsOut(net, id, t, p, q) && (net' == net || net' == Drop(net, id))
    requires width == net.width[net.nodes[t].pins[q]] && Solution(net', Watching(t, p, q, w, width), val)
    ensures val[net.nodes[t].pins[q]] == Fill(if val[net.nodes[id].pins[0]] == w then V1 else V0, width)
  {
    var m, v := net.nodes[t].pins[q], if val[net.nodes[id].pins[0]] == w then V1 else V0;
    forall b: nat | b < width
      ensures val[m][b] == v
    {
      TargetBit(net, net', id, t, p, q, w, width, val, b);
    }
  }

  lemma TargetBit(net: Netlist, net': Netlist, id: NodeId, t: NodeId, p: nat, q: nat, w: Vec, width: nat, val: Valuation, b: nat)
    requires LeadsOut(net, id, t, p, q) && (net' == net || net' == Drop(net, id))
    requires width == net.width[net.nodes[t].pins[q]] && Solution(net', Watching(t, p, q, w, width), val) && b < width
    ensures val[net.nodes[t].pins[q]][b] == if val[net.nodes[id].pins[0]] == w then V1 else V0
  {
    var env, m := Watching(t, p, q, w, width), net.nodes[t].pins[q];
    var out, s := Out(net.width, env, val), Link(t, q);
    assert NodeOk(net.width, net.nodes[t]) && t != id && net'.nodes[t] == net.nodes[t];
    SwitchSays(net, t, p, q, w, width, val);
    assert LinkDrives(net', out, s, m, b, if val[net.nodes[id].pins[0]] == w then V1 else V0);
    TargetSilent(net, id, t, p, q, env, val);
    forall l | IsLink(net', l, m) && l != s
      ensures out(l.node, net'.nodes[l.node], l.pin) == []
    {
      assert IsLink(net, l, m) && net'.nodes[l.node] == net.nodes[l.node];
    }
    if HasSupply(net', m) && net' != net {
      DropSupply(net, id, m);
    }
    OneVoice(net', out, s, m, b, if val[net.nodes[id].pins[0]] == w then V1 else V0);
    assert val[m][b] == ResolvedBit(net', out, m, b);
  }

  lemma TargetSilent(net: Netlist, id: NodeId, t: NodeId, p: nat, q: nat, env: Env, val: Valuation)
    requires LeadsOut(net, id, t, p, q) && Fits(net.width, val)
    requires forall k, pin, vals | k != t || pin != q :: env.drive(k, pin, vals) == []
    ensures forall l | IsLink(net, l, net.nodes[t].pins[q]) && l != Link(t, q) ::
              Out(net.width, env, val)(l.node, net.nodes[l.node], l.pin) == []
  {
    var m := net.nodes[t].pins[q];
    forall l | IsLink(net, l, m) && l != Link(t, q)
      ensures Out(net.width, env, val)(l.node, net.nodes[l.node], l.pin) == []
    {
      var node := net.nodes[l.node];
      assert NodeOk(net.width, node);
      if PinDir(node.kind, l.pin).Output? {
        assert node.kind.Signal? || node.kind.Gate?;
      }
    }
  }

  // ---- The loss ----

  lemma SteadyIsAcyclic(net: Netlist, level: NexusId -> nat, t: NodeId, q: nat, width: nat)
    requires IsLoopless(net, level)
    ensures IsAcyclic(net, Steady(t, q, width), level)
  {
    var env := Steady(t, q, width);
    forall id | id in net.nodes && net.nodes[id].kind.Tran?
      ensures IdleSwitch(net, env, id)
    {
    }
  }

  /** A state in which the switch sees the constant settles alike if it always sees it. */
  lemma SteadyIsWatching(net: Netlist, id: NodeId, t: NodeId, p: nat, q: nat, width: nat, val: Valuation)
    requires LeadsOut(net, id, t, p, q) && Solution(net, Steady(t, q, width), val)
    ensures Solution(net, Watching(t, p, q, net.nodes[id].kind.value, width), val)
  {
    var w, n := net.nodes[id].kind.value, net.nodes[id].pins[0];
    var out, out' := Out(net.width, Steady(t, q, width), val), Out(net.width, Watching(t, p, q, w, width), val);
    SourceShows(net, id, t, p, q, Steady(t, q, width), val);
    forall l, m | IsLink(net, l, m)
      ensures out(l.node, net.nodes[l.node], l.pin) == out'(l.node, net.nodes[l.node], l.pin)
    {
      SameVoice(net, id, t, p, q, width, val, l);
    }
    forall m, b: nat | m in net.width && b < net.width[m]
      ensures val[m][b] == ResolvedBit(net, out', m, b)
    {
      SameOut(net, out, out', m, b);
    }
  }

  lemma SameVoice(net: Netlist, id: NodeId, t: NodeId, p: nat, q: nat, width: nat, val: Valuation, l: Link)
    requires LeadsOut(net, id, t, p, q) && Fits(net.width, val) && l.node in net.nodes && l.pin < |net.nodes[l.node].pins|
    requires val[net.nodes[id].pins[0]] == net.nodes[id].kind.value
    ensures Out(net.width, Steady(t, q, width), val)(l.node, net.nodes[l.node], l.pin)
         == Out(net.width, Watching(t, p, q, net.nodes[id].kind.value, width), val)(l.node, net.nodes[l.node], l.pin)
  {
    var node := net.nodes[l.node];
    assert NodeOk(net.width, node);
    if l.node == t {
      var vals := seq(|node.pins|, i requires 0 <= i < |node.pins| => val[node.pins[i]]);
      assert vals[p] == val[net.nodes[id].pins[0]];
    }
  }

  lemma FillsDiffer(width: nat)
    requires width > 0
    ensures Fill(V1, width) != Fill(V0, width)
  {
    assert Fill(V1, width)[0] != Fill(V0, width)[0];
  }

  /** A constant that a switch leads out cannot go: under some behaviour of the switch the
      deletion shows. */
  lemma SwitchNeedsConstant(net: Netlist, level: NexusId -> nat, id: NodeId, t: NodeId, p: nat, q: nat)
    requires LeadsOut(net, id, t, p, q) && IsLoopless(net, level)
    ensures !Equivalent(net, Drop(net, id))
  {
    var m, w := net.nodes[t].pins[q], net.nodes[id].kind.value;
    var width := net.width[m];
    SteadyIsAcyclic(net, level, t, q, width);
    var val := AtLeastOneState(net, level, Steady(t, q, width));
    SourceShows(net, id, t, p, q, Steady(t, q, width), val);
    SteadyIsWatching(net, id, t, p, q, width, val);
    TargetShows(net, net, id, t, p, q, w, width, val);
    var env, net' := Watching(t, p, q, w, width), Drop(net, id);
    FillsDiffer(width);
    if HasMatch(net, net', env, val) {
      var val' :| Solution(net', env, val') && AgreeOnObservables(net, val, val');
      SourceFloats(net, id, t, p, q, env, val');
      TargetShows(net, net', id, t, p, q, w, width, val');
    }
  }

  /** If every switch on the nexus leads out, a constant that passes the scans can go exactly
      if no switch is there. */
  lemma DeletionExactly(net: Netlist, level: NexusId -> nat, id: NodeId)
    requires IsConst(net, id) && !AllZ(net.nodes[id].kind.value) && NoReason(net, net.nodes[id].pins[0])
    requires IsLoopless(net, level)
    requires forall l | IsLink(net, l, net.nodes[id].pins[0]) && net.nodes[l.node].kind.Tran? ::
               exists p, q :: LeadsOut(net, id, l.node, p, q)
    ensures Equivalent(net, Drop(net, id)) <==> !HasTran(net, net.nodes[id].pins[0])
  {
    if HasTran(net, net.nodes[id].pins[0]) {
      var l :| IsLink(net, l, net.nodes[id].pins[0]) && net.nodes[l.node].kind.Tran?;
      var p, q :| LeadsOut(net, id, l.node, p, q);
      SwitchNeedsConstant(net, level, id, l.node, p, q);
    } else {
      DropUnreadEquivalent(net, id);
    }
  }

  // ---- The smallest case ----

  function LocalWire(): Sig {
    Sig(Wire, 1, 0, 0, true, NotAPort, false)
  }

  /** A constant 1 on a local net, joined by a switch to a net named in the source. */
  function SwitchedConstant(): Netlist {
    Netlist(map[0 := Node(Const([V1]), [0]),
                1 := Node(Signal(LocalWire()), [0]),
                2 := Node(Tran, [0, 1]),
                3 := Node(Signal(LocalWire().(local := false)), [1])],
            map[0 := 1, 1 := 1])
  }

  /** The scans ignore bidirectional switches: they let a constant go that a net named in
      the source receives through one. */
  lemma SwitchLosesConstant()
    ensures IsConst(SwitchedConstant(), 0) && NoReason(SwitchedConstant(), 0) && HasTran(SwitchedConstant(), 0)
    ensures !Equivalent(SwitchedConstant(), Drop(SwitchedConstant(), 0))
  {
    var net := SwitchedConstant();
    SwitchedLeadsOut();
    SwitchNeedsConstant(net, n => 0, 0, 2, 0, 1);
  }

  lemma SwitchedLinks(l: Link, n: NexusId)
    requires IsLink(SwitchedConstant(), l, n)
    ensures n == 0 ==> l == Link(0, 0) || l == Link(1, 0) || l == Link(2, 0)
    ensures n == 1 ==> l == Link(2, 1) || l == Link(3, 0)
    ensures n < 2
  {
  }

  lemma SwitchedWellFormed()
    ensures WellFormed(SwitchedConstant()) && HasTran(SwitchedConstant(), 0) && Observable(SwitchedConstant(), 1)
  {
    var net := SwitchedConstant();
    assert IsLink(net, Link(0, 0), 0) && IsLink(net, Link(1, 0), 0) && IsLink(net, Link(2, 0), 0);
    assert IsLink(net, Link(2, 1), 1) && IsLink(net, Link(3, 0), 1) && LinkSees(net, Link(3, 0));
    assert HasSignal(net, 0) && HasSignal(net, 1);
    forall id | id in net.nodes
      ensures NodeOk(net.width, net.nodes[id])
    {
      assert id == 0 || id == 1 || id == 2 || id == 3;
    }
  }

  lemma SwitchedLeadsOut()
    ensures LeadsOut(SwitchedConstant(), 0, 2, 0, 1) && HasTran(SwitchedConstant(), 0)
  {
    var net := SwitchedConstant();
    SwitchedWellFormed();
    SwitchedNoSupply();
    forall l, n | IsLink(net, l, n)
      ensures n == 0 ==> l == Link(0, 0) || l == Link(1, 0) || l == Link(2, 0)
      ensures n == 1 ==> l == Link(2, 1) || l == Link(3, 0)
    {
      SwitchedLinks(l, n);
    }
    assert net.nodes[0].kind.value[0] == V1;
  }

  lemma SwitchedNoSupply()
    ensures !HasSupply(SwitchedConstant(), 1)
  {
    forall l, s | IsSignalOf(SwitchedConstant(), l, 1, s) ensures s == Wire {
      SwitchedLinks(l, 1);
    }
  }
}
