/** Why a nexus is not constant: what a driver must be able to do to count as variable. */
module VariableDrivers {
  import opened FourState
  import opened Netlists
  import opened LinkConst

  /** The device puts a value other than z on the nexus at its pin. */
  predicate PutsOn(width: map<NexusId, nat>, env: Env, val: Valuation, id: NodeId, node: Node, pin: nat, b: nat) {
    && NodeOk(width, node) && pin < |node.pins| && Fits(width, val)
    && BitAt(OutVec(width, env, val, id, node, pin), b) != Vz
  }

  /** Some behaviour of the variable drivers, with some values at its inputs, makes it do so. */
  ghost predicate MayPut(width: map<NexusId, nat>, id: NodeId, node: Node, pin: nat) {
    exists env, val, b: nat :: PutsOn(width, env, val, id, node, pin, b)
  }

  /** What drives a fixed value: constants, substitutions as far as their operands are
      constant, and pulls, which are taken for constants without a look at the port. */
  predicate Fixed(k: Kind) {
    k.Const? || k.Substitute? || (k.Signal? && IsPull(k.sig) && k.sig.lref == 0)
  }

  predicate PositiveWidths(width: map<NexusId, nat>) {
    forall n | n in width :: width[n] > 0
  }

  function Ones(width: map<NexusId, nat>): (r: Valuation)
    ensures Fits(width, r)
  {
    map n | n in width :: Fill(V1, width[n])
  }

  function DriveOne(): Env {
    Env((_, _, _) => [V1])
  }

  lemma {:induction false} ConcatOnes(width: map<NexusId, nat>, pins: seq<NexusId>)
    requires forall i | 0 <= i < |pins| :: pins[i] in width
    ensures ConcatVec(Ones(width), pins) == Fill(V1, SumWidths(width, pins))
  {
    if pins != [] {
      ConcatOnes(width, pins[1..]);
    }
  }

  /** With ones at all inputs and from all variable drivers, every pin that counts as
      variable shows it. */
  lemma VariableShows(width: map<NexusId, nat>, id: NodeId, node: Node, pin: nat)
    requires NodeOk(width, node) && pin < |node.pins| && PositiveWidths(width)
    requires RoleOf(node.kind, pin) == Variable && !node.kind.Tran?
    ensures PutsOn(width, DriveOne(), Ones(width), id, node, pin, if node.kind.PartPV? then node.kind.base else 0)
  {
    assert width[node.pins[pin]] > 0 && width[node.pins[0]] > 0;
    match node.kind
    case Concat(_) =>
      ConcatOnes(width, node.pins[1..]);
    case _ =>
  }

  /** A pin counts as variable if and only if it is that of a switch, or its device may put a
      value there that is not fixed. */
  lemma VariableExactly(width: map<NexusId, nat>, id: NodeId, node: Node, pin: nat)
    requires NodeOk(width, node) && pin < |node.pins| && PositiveWidths(width)
    ensures RoleOf(node.kind, pin) == Variable <==> node.kind.Tran? || (MayPut(width, id, node, pin) && !Fixed(node.kind))
  {
    if RoleOf(node.kind, pin) == Variable && !node.kind.Tran? {
      VariableShows(width, id, node, pin);
    }
  }

  /** The link drives a fixed value. */
  ghost predicate FixedAt(net: Netlist, l: Link, n: NexusId) {
    IsLink(net, l, n) && Fixed(net.nodes[l.node].kind) && (net.nodes[l.node].kind.Substitute? ==> l.pin == 0)
  }

  ghost predicate VariesAt(net: Netlist, l: Link, n: NexusId) {
    && IsLink(net, l, n)
    && (net.nodes[l.node].kind.Tran?
        || (MayPut(net.width, l.node, net.nodes[l.node], l.pin) && !Fixed(net.nodes[l.node].kind)))
  }

  /** A reason for a nexus not to be constant: a switch, a device that may put a value there
      that is not fixed, two fixed values, or such a reason at an operand of a substitution. */
  ghost predicate Unsteady(net: Netlist, rank: NexusId -> nat, n: NexusId)
    requires Ranked(net, rank)
    decreases rank(n)
  {
    || (exists l :: VariesAt(net, l, n))
    || (exists l, l' :: l != l' && FixedAt(net, l, n) && FixedAt(net, l', n))
    || exists l :: SubstituteAt(net, l, n)
         && (Unsteady(net, rank, net.nodes[l.node].pins[1]) || Unsteady(net, rank, net.nodes[l.node].pins[2]))
  }

  lemma RolesExactly(net: Netlist, l: Link, n: NexusId)
    requires WellFormed(net) && PositiveWidths(net.width)
    ensures LinkRole(net, l, n, Variable) <==> VariesAt(net, l, n)
    ensures LinkRole(net, l, n, Constant) <==> FixedAt(net, l, n)
  {
    if IsLink(net, l, n) {
      assert NodeOk(net.width, net.nodes[l.node]);
      VariableExactly(net.width, l.node, net.nodes[l.node], l.pin);
    }
  }

  /** A nexus is constant if and only if there is no such reason. */
  lemma {:induction false} ConstantUnlessUnsteady(net: Netlist, rank: NexusId -> nat, n: NexusId)
    requires WellFormed(net) && Ranked(net, rank) && PositiveWidths(net.width)
    ensures ConstantNexus(net, rank, n) <==> !Unsteady(net, rank, n)
    decreases rank(n)
  {
    forall l
      ensures LinkRole(net, l, n, Variable) <==> VariesAt(net, l, n)
      ensures LinkRole(net, l, n, Constant) <==> FixedAt(net, l, n)
    {
      RolesExactly(net, l, n);
    }
    forall l | SubstituteAt(net, l, n)
      ensures var pins := net.nodes[l.node].pins;
              && (ConstantNexus(net, rank, pins[1]) <==> !Unsteady(net, rank, pins[1]))
              && (ConstantNexus(net, rank, pins[2]) <==> !Unsteady(net, rank, pins[2]))
    {
      ConstantUnlessUnsteady(net, rank, net.nodes[l.node].pins[1]);
      ConstantUnlessUnsteady(net, rank, net.nodes[l.node].pins[2]);
    }
  }
}
