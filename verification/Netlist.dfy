/** A netlist of devices whose pins meet in nexuses, and what it means: the four-state
    value that each nexus settles at, for every behaviour of the variable drivers. */
module Netlists {
  import opened FourState
  import N = Numbers

  type NodeId = nat
  type NexusId = nat

  datatype Dir = Passive | Input | Output

  datatype NetType = Wire | Wand | Wor | Reg | Tri0 | Tri1 | Supply0 | Supply1

  datatype PortType = NotAPort | PInput | POutput | PInout

  /** A NetNet: `root` says that its scope has no parent, `lref` and `eref` count the
      procedural l-values and the expressions that refer to it. */
  datatype Sig = Sig(ty: NetType, width: nat, lref: nat, eref: nat, local: bool, port: PortType, root: bool)

  datatype Kind =
    | Signal(sig: Sig)
    | Const(value: Vec)
    | Concat(transparent: bool)
    | Mux(size: nat, selWidth: nat)
    | PartPV(base: nat, pvWidth: nat)
    | PartVP(vpBase: nat, vpWidth: nat)
    | BufZ
    | Substitute(subBase: nat)
    | Tran
    | Gate(dirs: seq<Dir>)

  datatype Node = Node(kind: Kind, pins: seq<NexusId>)

  /** A pin of a device. */
  datatype Link = Link(node: NodeId, pin: nat)

  datatype Netlist = Netlist(nodes: map<NodeId, Node>, width: map<NexusId, nat>)

  // ---- Structure ----

  function SigDir(s: Sig): Dir {
    match s.ty
    case Reg | Tri0 | Tri1 | Supply0 | Supply1 => Output
    case Wire | Wand | Wor => Passive
  }

  function PinDir(k: Kind, pin: nat): Dir {
    match k
    case Signal(s) => SigDir(s)
    case Const(_) => Output
    case Concat(_) | Mux(_, _) | PartVP(_, _) | BufZ | Substitute(_) => if pin == 0 then Output else Input
    case PartPV(_, _) => if pin == 1 then Output else Input
    case Tran => if pin < 2 then Passive else Input
    case Gate(dirs) => if pin < |dirs| then dirs[pin] else Input
  }

  predicate IsLink(net: Netlist, l: Link, n: NexusId) {
    l.node in net.nodes && l.pin < |net.nodes[l.node].pins| && net.nodes[l.node].pins[l.pin] == n
  }

  predicate IsPull(s: Sig) {
    s.ty.Tri0? || s.ty.Tri1? || s.ty.Supply0? || s.ty.Supply1?
  }

  /** Driven by a process, a force, or whatever the root module's ports connect to. */
  predicate SigVaries(s: Sig) {
    s.lref > 0 || s.ty.Reg? || (s.root && (s.port.PInput? || s.port.PInout?))
  }

  function SumWidths(width: map<NexusId, nat>, pins: seq<NexusId>): nat
    requires forall i | 0 <= i < |pins| :: pins[i] in width
  {
    if pins == [] then 0 else width[pins[0]] + SumWidths(width, pins[1..])
  }

  /** Pin counts and vector widths of one device, as its constructor sets them up. */
  predicate NodeOk(width: map<NexusId, nat>, node: Node) {
    && (forall i | 0 <= i < |node.pins| :: node.pins[i] in width)
    && match node.kind
       case Signal(s) =>
         forall i | 0 <= i < |node.pins| :: width[node.pins[i]] == s.width
       case Const(v) => |node.pins| == 1 && |v| == width[node.pins[0]]
       case Concat(_) => |node.pins| >= 1 && width[node.pins[0]] == SumWidths(width, node.pins[1..])
       case Mux(size, selWidth) =>
         |node.pins| == 2 + size && width[node.pins[1]] == selWidth
         && forall i | 2 <= i < |node.pins| :: width[node.pins[i]] == width[node.pins[0]]
       case PartPV(_, w) => |node.pins| == 2 && width[node.pins[0]] == w
       case PartVP(_, w) => |node.pins| == 2 && width[node.pins[0]] == w
       case BufZ => |node.pins| == 2 && width[node.pins[1]] == width[node.pins[0]]
       case Substitute(base) =>
         |node.pins| == 3 && width[node.pins[1]] == width[node.pins[0]]
         && base + width[node.pins[2]] <= width[node.pins[0]]
       case Tran => 2 <= |node.pins| <= 3
       case Gate(dirs) => |dirs| == |node.pins| && forall i | 0 <= i < |dirs| :: !dirs[i].Passive?
  }

  /** A port of the root module, other than an output, that is pulled. */
  predicate IsPulledPort(k: Kind) {
    k.Signal? && (k.sig.ty.Tri0? || k.sig.ty.Tri1?) && k.sig.root && (k.sig.port.PInput? || k.sig.port.PInout?)
  }

  ghost predicate HasSignal(net: Netlist, n: NexusId) {
    exists l :: IsLink(net, l, n) && net.nodes[l.node].kind.Signal?
  }

  ghost predicate WellFormed(net: Netlist) {
    && (forall id {:trigger NodeOk(net.width, net.nodes[id])} | id in net.nodes :: NodeOk(net.width, net.nodes[id]))
    && (forall n {:trigger HasSignal(net, n)} | n in net.width :: HasSignal(net, n))
  }

  // ---- Meaning ----

  /** What every variable driver does: the vector it puts on a pin of a device, given
      the vectors that the device reads. */
  datatype Env = Env(drive: (NodeId, nat, seq<Vec>) -> Vec)

  type Valuation = map<NexusId, Vec>

  predicate Fits(width: map<NexusId, nat>, val: Valuation) {
    val.Keys == width.Keys && forall n | n in width :: |val[n]| == width[n]
  }

  function ConcatVec(val: Valuation, pins: seq<NexusId>): Vec
    requires forall i | 0 <= i < |pins| :: pins[i] in val
  {
    if pins == [] then [] else val[pins[0]] + ConcatVec(val, pins[1..])
  }

  /** The selected input; with an undefined select, the bits on which all inputs agree. */
  function MuxVec(sel: Vec, data: seq<Vec>, width: nat): Vec
    requires forall i | 0 <= i < |data| :: |data[i]| == width
  {
    if IsDefined(sel) && N.Unsigned(sel) < |data| then
      data[N.Unsigned(sel)]
    else
      seq(width, b requires 0 <= b < width =>
        if forall i | 0 <= i < |data| :: data[i][b] == V0 then V0
        else if forall i | 0 <= i < |data| :: data[i][b] == V1 then V1
        else Vx)
  }

  predicate Reads(k: Kind, pin: nat) {
    PinDir(k, pin).Input? || k.Tran?
  }

  /** The vector that a device drives on the nexus at its pin; [] when it drives nothing. */
  function OutVec(width: map<NexusId, nat>, env: Env, val: Valuation, id: NodeId, node: Node, pin: nat): Vec
    requires NodeOk(width, node) && Fits(width, val)
    requires pin < |node.pins|
  {
    var pins := node.pins;
    match node.kind
    case Signal(s) => if SigVaries(s) then env.drive(id, pin, []) else []
    case Const(v) => v
    case Concat(_) => if pin == 0 then ConcatVec(val, pins[1..]) else []
    case Mux(size, _) =>
      if pin == 0 then
        MuxVec(val[pins[1]], seq(size, i requires 0 <= i < size => val[pins[2 + i]]), width[pins[0]])
      else []
    case PartPV(base, _) => if pin == 1 then Fill(Vz, base) + val[pins[0]] else []
    case PartVP(base, w) =>
      if pin == 0 then
        var whole := val[pins[1]];
        seq(w, b requires 0 <= b < w => if base + b < |whole| then whole[base + b] else Vx)
      else []
    case BufZ => if pin == 0 then val[pins[1]] else []
    case Substitute(base) => if pin == 0 then Overlay(val[pins[1]], base, val[pins[2]]) else []
    case Tran =>
      if pin < 2 then env.drive(id, pin, seq(|pins|, i requires 0 <= i < |pins| => val[pins[i]])) else []
    case Gate(dirs) =>
      if dirs[pin].Input? then []
      else env.drive(id, pin, seq(|pins|, i requires 0 <= i < |pins| => if dirs[i].Input? then val[pins[i]] else []))
  }

  /** What each device drives at each of its pins. */
  type Drive = (NodeId, Node, nat) -> Vec

  function Out(width: map<NexusId, nat>, env: Env, val: Valuation): Drive
    requires Fits(width, val)
  {
    (id: NodeId, node: Node, pin: nat) =>
      if NodeOk(width, node) && pin < |node.pins| then OutVec(width, env, val, id, node, pin) else []
  }

  ghost predicate LinkDrives(net: Netlist, out: Drive, l: Link, n: NexusId, b: nat, v: V) {
    IsLink(net, l, n) && BitAt(out(l.node, net.nodes[l.node], l.pin), b) == v
  }

  /** Some device puts v on bit b of nexus n. */
  ghost predicate Drives(net: Netlist, out: Drive, n: NexusId, b: nat, v: V) {
    exists l :: LinkDrives(net, out, l, n, b, v)
  }

  ghost predicate HasType(net: Netlist, n: NexusId, t: NetType) {
    exists l :: IsSignalOf(net, l, n, t)
  }

  ghost predicate IsSignalOf(net: Netlist, l: Link, n: NexusId, t: NetType) {
    IsLink(net, l, n) && net.nodes[l.node].kind.Signal? && net.nodes[l.node].kind.sig.ty == t
  }

  /** Wired resolution of equally strong drivers. Only which values are driven matters:
      z is the identity, and the order and number of drivers are irrelevant. */
  function Wired(isAnd: bool, isOr: bool, d0: bool, d1: bool, dx: bool): V {
    if isAnd && d0 then V0
    else if isOr && d1 then V1
    else if dx || (d0 && d1) then Vx
    else if d0 then V0
    else if d1 then V1
    else Vz
  }

  /** Supplies overrule drivers, and drivers overrule the pulls of tri0 and tri1. */
  ghost function ResolvedBit(net: Netlist, out: Drive, n: NexusId, b: nat): V {
    if HasType(net, n, Supply0) || HasType(net, n, Supply1) then
      Wired(false, false, HasType(net, n, Supply0), HasType(net, n, Supply1), false)
    else
      var strong := Wired(HasType(net, n, Wand), HasType(net, n, Wor),
                          Drives(net, out, n, b, V0), Drives(net, out, n, b, V1), Drives(net, out, n, b, Vx));
      if strong != Vz then strong
      else Wired(false, false, HasType(net, n, Tri0), HasType(net, n, Tri1), false)
  }

  /** Every nexus carries what its drivers resolve to. */
  ghost predicate Settled(net: Netlist, out: Drive, val: Valuation)
    requires Fits(net.width, val)
  {
    forall n, b | n in net.width && 0 <= b < net.width[n] :: val[n][b] == ResolvedBit(net, out, n, b)
  }

  ghost predicate Solution(net: Netlist, env: Env, val: Valuation) {
    Fits(net.width, val) && Settled(net, Out(net.width, env, val), val)
  }

  /** What is seen from outside the netlist: a signal named in the source, read by an
      expression, or a port of the root module. */
  predicate SigSeen(s: Sig) {
    !s.local || s.eref > 0 || (!s.port.NotAPort? && s.root)
  }

  predicate LinkSees(net: Netlist, l: Link)
    requires l.node in net.nodes
  {
    match net.nodes[l.node].kind
    case Signal(s) => SigSeen(s)
    case Gate(dirs) => l.pin < |dirs| && dirs[l.pin].Input?
    case _ => false
  }

  /** A nexus at which a seen signal, or an input of a device that no rewrite
      touches, is connected. */
  ghost predicate Observable(net: Netlist, n: NexusId) {
    exists l :: IsLink(net, l, n) && LinkSees(net, l)
  }

  ghost predicate AgreeOnObservables(net: Netlist, val: Valuation, val': Valuation) {
    forall n | Observable(net, n) :: n in val && n in val' && val[n] == val'[n]
  }

  /** A settled state of `net` shows, at all observable nexuses of `net`, the values
      of some settled state of `net'` under the same behaviour of the variable drivers. */
  ghost predicate HasMatch(net: Netlist, net': Netlist, env: Env, val: Valuation) {
    exists val' :: Solution(net', env, val') && AgreeOnObservables(net, val, val')
  }

  ghost predicate HasMatchBack(net: Netlist, net': Netlist, env: Env, val': Valuation) {
    exists val :: Solution(net, env, val) && AgreeOnObservables(net, val, val')
  }

  /** Settled states match both ways, and nothing observable is lost. */
  ghost predicate Equivalent(net: Netlist, net': Netlist) {
    && (forall n | Observable(net, n) :: Observable(net', n))
    && (forall env, val {:trigger HasMatch(net, net', env, val)} | Solution(net, env, val) :: HasMatch(net, net', env, val))
    && (forall env, val' {:trigger HasMatchBack(net, net', env, val')} | Solution(net', env, val') ::
          HasMatchBack(net, net', env, val'))
  }

  lemma AgreeTransitive(a: Netlist, b: Netlist, va: Valuation, vb: Valuation, vc: Valuation)
    requires forall n | Observable(a, n) :: Observable(b, n)
    requires AgreeOnObservables(a, va, vb) && AgreeOnObservables(b, vb, vc)
    ensures AgreeOnObservables(a, va, vc)
  {
  }

  lemma MatchTransitive(a: Netlist, b: Netlist, c: Netlist, env: Env, val: Valuation)
    requires Equivalent(a, b) && Equivalent(b, c)
    requires Solution(a, env, val)
    ensures HasMatch(a, c, env, val)
  {
    assert HasMatch(a, b, env, val);
    var v1 :| Solution(b, env, v1) && AgreeOnObservables(a, val, v1);
    assert HasMatch(b, c, env, v1);
    var v2 :| Solution(c, env, v2) && AgreeOnObservables(b, v1, v2);
    AgreeTransitive(a, b, val, v1, v2);
  }

  lemma MatchBackTransitive(a: Netlist, b: Netlist, c: Netlist, env: Env, val: Valuation)
    requires Equivalent(a, b) && Equivalent(b, c)
    requires Solution(c, env, val)
    ensures HasMatchBack(a, c, env, val)
  {
    assert HasMatchBack(b, c, env, val);
    var v1 :| Solution(b, env, v1) && AgreeOnObservables(b, v1, val);
    assert HasMatchBack(a, b, env, v1);
    var v2 :| Solution(a, env, v2) && AgreeOnObservables(a, v2, v1);
    AgreeTransitive(a, b, v2, v1, val);
  }

  lemma EquivalentTransitive(a: Netlist, b: Netlist, c: Netlist)
    requires Equivalent(a, b) && Equivalent(b, c)
    ensures Equivalent(a, c)
  {
    forall env, val | Solution(a, env, val)
      ensures HasMatch(a, c, env, val)
    {
      MatchTransitive(a, b, c, env, val);
    }
    forall env, val | Solution(c, env, val)
      ensures HasMatchBack(a, c, env, val)
    {
      MatchBackTransitive(a, b, c, env, val);
    }
  }

  lemma AgreeReflexive(a: Netlist, env: Env, val: Valuation)
    requires WellFormed(a) && Solution(a, env, val)
    ensures AgreeOnObservables(a, val, val)
  {
    forall n | Observable(a, n)
      ensures n in val
    {
      var l :| IsLink(a, l, n) && LinkSees(a, l);
      assert NodeOk(a.width, a.nodes[l.node]);
    }
  }

  lemma MatchesItself(a: Netlist, env: Env, val: Valuation)
    requires WellFormed(a) && Solution(a, env, val)
    ensures HasMatch(a, a, env, val)
  {
    AgreeReflexive(a, env, val);
  }

  lemma MatchesItselfBack(a: Netlist, env: Env, val: Valuation)
    requires WellFormed(a) && Solution(a, env, val)
    ensures HasMatchBack(a, a, env, val)
  {
    AgreeReflexive(a, env, val);
  }

  lemma EquivalentReflexive(a: Netlist)
    requires WellFormed(a)
    ensures Equivalent(a, a)
  {
    forall env, val | Solution(a, env, val) ensures HasMatch(a, a, env, val) {
      MatchesItself(a, env, val);
    }
    forall env, val | Solution(a, env, val) ensures HasMatchBack(a, a, env, val) {
      MatchesItselfBack(a, env, val);
    }
  }
}
