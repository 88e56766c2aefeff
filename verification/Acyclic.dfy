/** Acyclic netlists settle in exactly one way. */
module Acyclic {
  import opened FourState
  import opened Netlists
  import opened Rewrites

  /** Every device reads only nexuses of a lower level than those it may drive, save switches
      that do not act on what they read. */
  ghost predicate IsAcyclic(net: Netlist, env: Env, level: NexusId -> nat) {
    forall id, p: nat, i: nat
      | id in net.nodes && !IdleSwitch(net, env, id) && MayDrive(net.nodes[id], p) && IsRead(net.nodes[id], i) ::
      level(net.nodes[id].pins[i]) < level(net.nodes[id].pins[p])
  }

  ghost predicate IdleSwitch(net: Netlist, env: Env, id: NodeId) {
    id in net.nodes && net.nodes[id].kind.Tran? && forall pin, vals :: env.drive(id, pin, vals) == env.drive(id, pin, [])
  }

  predicate MayDrive(node: Node, p: nat) {
    p < |node.pins| && !PinDir(node.kind, p).Input?
  }

  predicate IsRead(node: Node, i: nat) {
    i < |node.pins| && Reads(node.kind, i)
  }

  /** The states agree on all nexuses below the given level. */
  ghost predicate AgreeBelow(net: Netlist, level: NexusId -> nat, k: nat, val: Valuation, val': Valuation)
    requires Fits(net.width, val) && Fits(net.width, val')
  {
    forall n | n in net.width && level(n) < k :: val[n] == val'[n]
  }

  lemma ActsAlike(net: Netlist, level: NexusId -> nat, env: Env, val: Valuation, val': Valuation, l: Link, n: NexusId)
    requires WellFormed(net) && IsAcyclic(net, env, level)
    requires Fits(net.width, val) && Fits(net.width, val')
    requires IsLink(net, l, n) && AgreeBelow(net, level, level(n), val, val')
    ensures Out(net.width, env, val)(l.node, net.nodes[l.node], l.pin)
         == Out(net.width, env, val')(l.node, net.nodes[l.node], l.pin)
  {
    var node := net.nodes[l.node];
    assert NodeOk(net.width, node);
    if MayDrive(node, l.pin) && !IdleSwitch(net, env, l.node) {
      forall i: nat | i < |node.pins| && Reads(node.kind, i)
        ensures val[node.pins[i]] == val'[node.pins[i]]
      {
        assert IsRead(node, i);
      }
      OutVecFrame(net.width, net.width, env, val, val', l.node, node, l.pin);
    }
  }

  /** A nexus resolves alike in states that agree below it. */
  lemma ResolvesAlike(net: Netlist, level: NexusId -> nat, env: Env, val: Valuation, val': Valuation, n: NexusId, b: nat)
    requires WellFormed(net) && IsAcyclic(net, env, level)
    requires Fits(net.width, val) && Fits(net.width, val')
    requires AgreeBelow(net, level, level(n), val, val')
    ensures ResolvedBit(net, Out(net.width, env, val), n, b) == ResolvedBit(net, Out(net.width, env, val'), n, b)
  {
    var out, out' := Out(net.width, env, val), Out(net.width, env, val');
    forall v
      ensures Drives(net, out, n, b, v) <==> Drives(net, out', n, b, v)
    {
      if Drives(net, out, n, b, v) {
        var l :| LinkDrives(net, out, l, n, b, v);
        ActsAlike(net, level, env, val, val', l, n);
        assert LinkDrives(net, out', l, n, b, v);
      }
      if Drives(net, out', n, b, v) {
        var l :| LinkDrives(net, out', l, n, b, v);
        ActsAlike(net, level, env, val, val', l, n);
        assert LinkDrives(net, out, l, n, b, v);
      }
    }
    ResolvedFrame(net, net, out, out', n, b);
  }

  // ---- At most one settled state ----

  lemma {:induction false} SettledAlike(net: Netlist, level: NexusId -> nat, env: Env, val: Valuation, val': Valuation, k: nat)
    requires WellFormed(net) && IsAcyclic(net, env, level)
    requires Solution(net, env, val) && Solution(net, env, val')
    ensures AgreeBelow(net, level, k, val, val')
  {
    if k > 0 {
      SettledAlike(net, level, env, val, val', k - 1);
      forall n | n in net.width && level(n) < k
        ensures val[n] == val'[n]
      {
        forall b | 0 <= b < net.width[n]
          ensures val[n][b] == val'[n][b]
        {
          ResolvesAlike(net, level, env, val, val', n, b);
        }
      }
    }
  }

  lemma AtMostOneState(net: Netlist, level: NexusId -> nat, env: Env, val: Valuation, val': Valuation)
    requires WellFormed(net) && IsAcyclic(net, env, level)
    requires Solution(net, env, val) && Solution(net, env, val')
    ensures val == val'
  {
    forall n | n in net.width
      ensures val[n] == val'[n]
    {
      SettledAlike(net, level, env, val, val', level(n) + 1);
    }
  }

  // ---- At least one settled state ----

  /** All nexuses resolved at once from the given state. */
  ghost function Relax(net: Netlist, env: Env, val: Valuation): (r: Valuation)
    requires Fits(net.width, val)
    ensures Fits(net.width, r)
  {
    map n | n in net.width ::
      seq(net.width[n], b requires 0 <= b < net.width[n] => ResolvedBit(net, Out(net.width, env, val), n, b))
  }

  ghost function Relaxed(net: Netlist, env: Env, k: nat): (r: Valuation)
    ensures Fits(net.width, r)
  {
    if k == 0 then map n | n in net.width :: Fill(Vz, net.width[n]) else Relax(net, env, Relaxed(net, env, k - 1))
  }

  lemma RelaxAlike(net: Netlist, level: NexusId -> nat, env: Env, val: Valuation, val': Valuation, k: nat)
    requires WellFormed(net) && IsAcyclic(net, env, level)
    requires Fits(net.width, val) && Fits(net.width, val') && AgreeBelow(net, level, k, val, val')
    ensures AgreeBelow(net, level, k + 1, Relax(net, env, val), Relax(net, env, val'))
  {
    forall n | n in net.width && level(n) < k + 1
      ensures Relax(net, env, val)[n] == Relax(net, env, val')[n]
    {
      forall b | 0 <= b < net.width[n]
        ensures Relax(net, env, val)[n][b] == Relax(net, env, val')[n][b]
      {
        ResolvesAlike(net, level, env, val, val', n, b);
      }
    }
  }

  /** After k rounds everything below level k is stable. */
  lemma {:induction false} RelaxedStable(net: Netlist, level: NexusId -> nat, env: Env, k: nat)
    requires WellFormed(net) && IsAcyclic(net, env, level)
    ensures AgreeBelow(net, level, k, Relaxed(net, env, k), Relaxed(net, env, k + 1))
  {
    if k > 0 {
      RelaxedStable(net, level, env, k - 1);
      var a, b := Relaxed(net, env, k - 1), Relaxed(net, env, k);
      RelaxAlike(net, level, env, a, b, k - 1);
      assert Relax(net, env, a) == b && Relax(net, env, b) == Relaxed(net, env, k + 1);
    }
  }

  lemma {:induction false} LevelBound(ns: set<NexusId>, level: NexusId -> nat) returns (k: nat)
    ensures forall n | n in ns :: level(n) < k
  {
    if ns == {} {
      k := 0;
    } else {
      var n :| n in ns;
      k := LevelBound(ns - {n}, level);
      k := if k <= level(n) then level(n) + 1 else k;
    }
  }

  lemma AtLeastOneState(net: Netlist, level: NexusId -> nat, env: Env) returns (val: Valuation)
    requires WellFormed(net) && IsAcyclic(net, env, level)
    ensures Solution(net, env, val)
  {
    var k := LevelBound(net.width.Keys, level);
    RelaxedStable(net, level, env, k);
    val := Relaxed(net, env, k);
    assert Relaxed(net, env, k + 1) == Relax(net, env, val);
    forall n, b | n in net.width && 0 <= b < net.width[n]
      ensures val[n][b] == ResolvedBit(net, Out(net.width, env, val), n, b)
    {
      assert val[n] == Relax(net, env, val)[n];
    }
  }

  // ---- What equivalence means for acyclic netlists ----

  /** Under every behaviour of the variable drivers an acyclic netlist settles in one way,
      an equivalent netlist settles too, and always shows the same observable values. */
  lemma EquivalentShowsTheSame(net: Netlist, level: NexusId -> nat, net': Netlist, env: Env)
      returns (val: Valuation, val': Valuation)
    requires WellFormed(net) && IsAcyclic(net, env, level) && Equivalent(net, net')
    ensures Solution(net, env, val) && forall v | Solution(net, env, v) :: v == val
    ensures Solution(net', env, val')
    ensures forall v | Solution(net', env, v) :: AgreeOnObservables(net, val, v)
  {
    val := AtLeastOneState(net, level, env);
    forall v | Solution(net, env, v)
      ensures v == val
    {
      AtMostOneState(net, level, env, v, val);
    }
    assert HasMatch(net, net', env, val);
    val' :| Solution(net', env, val') && AgreeOnObservables(net, val, val');
    forall v | Solution(net', env, v)
      ensures AgreeOnObservables(net, val, v)
    {
      assert HasMatchBack(net, net', env, v);
    }
  }
}
