/** Which nexuses are driven by constants alone, and with what vector. */
module LinkConst {
  import opened FourState
  import opened Netlists
  import opened Rewrites

  /** How a link counts when the drivers of a nexus are scanned. */
  datatype Role = Silent | Variable | Constant

  function RoleOf(k: Kind, pin: nat): Role {
    match k
    case Signal(s) =>
      if s.lref > 0 then Variable
      else if IsPull(s) then Constant
      else if s.ty.Reg? then Variable
      else if s.root && !s.port.NotAPort? && !s.port.POutput? then Variable
      else Silent
    case Tran => Variable
    case _ =>
      if PinDir(k, pin).Input? then Silent
      else if k.Const? || k.Substitute? then Constant
      else Variable
  }

  ghost predicate LinkRole(net: Netlist, l: Link, n: NexusId, r: Role) {
    IsLink(net, l, n) && RoleOf(net.nodes[l.node].kind, l.pin) == r
  }

  /** Substitutions are not circular: each reads nexuses of a lower rank. */
  ghost predicate Ranked(net: Netlist, rank: NexusId -> nat) {
    forall id | id in net.nodes && net.nodes[id].kind.Substitute? ::
      var pins := net.nodes[id].pins;
      |pins| == 3 && rank(pins[1]) < rank(pins[0]) && rank(pins[2]) < rank(pins[0])
  }

  ghost predicate SubstituteAt(net: Netlist, l: Link, n: NexusId) {
    IsLink(net, l, n) && net.nodes[l.node].kind.Substitute? && l.pin == 0
  }

  /** Nothing variable drives the nexus, at most one constant does, and if that one is a
      substitution then both nexuses it reads are constant too. */
  ghost predicate ConstantNexus(net: Netlist, rank: NexusId -> nat, n: NexusId)
    requires Ranked(net, rank)
    decreases rank(n)
  {
    && (forall l :: !LinkRole(net, l, n, Variable))
    && (forall l, l' | LinkRole(net, l, n, Constant) && LinkRole(net, l', n, Constant) :: l == l')
    && forall l | SubstituteAt(net, l, n) ::
         && ConstantNexus(net, rank, net.nodes[l.node].pins[1])
         && ConstantNexus(net, rank, net.nodes[l.node].pins[2])
  }

  function PullValue(s: Sig): V {
    if s.ty.Tri1? || s.ty.Supply1? then V1 else V0
  }

  /** The one constant driver of a constant nexus. */
  ghost predicate SoleDriver(net: Netlist, l: Link, n: NexusId) {
    LinkRole(net, l, n, Constant)
  }

  /** The vector that the constant drivers of a constant nexus put on it. */
  ghost function DrivenVector(net: Netlist, rank: NexusId -> nat, n: NexusId): (r: Vec)
    requires WellFormed(net) && Ranked(net, rank) && n in net.width
    requires ConstantNexus(net, rank, n)
    ensures |r| == net.width[n]
    decreases rank(n), 1
  {
    if l :| SoleDriver(net, l, n) then VectorOf(net, rank, l, n) else Fill(Vz, net.width[n])
  }

  /** The vector that one constant driver puts on the nexus. */
  ghost function VectorOf(net: Netlist, rank: NexusId -> nat, l: Link, n: NexusId): (r: Vec)
    requires WellFormed(net) && Ranked(net, rank) && n in net.width
    requires ConstantNexus(net, rank, n) && SoleDriver(net, l, n)
    ensures |r| == net.width[n]
    decreases rank(n), 0
  {
    var node := net.nodes[l.node];
    assert NodeOk(net.width, node);
    if node.kind.Signal? then Fill(PullValue(node.kind.sig), net.width[n])
    else if node.kind.Const? then node.kind.value
    else
      assert SubstituteAt(net, l, n);
      Overlay(DrivenVector(net, rank, node.pins[1]), node.kind.subBase, DrivenVector(net, rank, node.pins[2]))
  }

  lemma SoleDriverVector(net: Netlist, rank: NexusId -> nat, l: Link, n: NexusId)
    requires WellFormed(net) && Ranked(net, rank) && n in net.width
    requires ConstantNexus(net, rank, n) && SoleDriver(net, l, n)
    ensures DrivenVector(net, rank, n) == VectorOf(net, rank, l, n)
  {
    forall l' | SoleDriver(net, l', n)
      ensures l' == l
    {
      assert LinkRole(net, l', n, Constant) && LinkRole(net, l, n, Constant);
    }
  }

  /** All links of n other than l are silent. */
  ghost predicate OnlyDriver(net: Netlist, l: Link, n: NexusId) {
    IsLink(net, l, n) && forall l' | IsLink(net, l', n) && l' != l :: LinkRole(net, l', n, Silent)
  }

  lemma SoleIsOnly(net: Netlist, rank: NexusId -> nat, l: Link, n: NexusId)
    requires Ranked(net, rank) && ConstantNexus(net, rank, n) && SoleDriver(net, l, n)
    ensures OnlyDriver(net, l, n)
  {
    forall l' | IsLink(net, l', n) && l' != l
      ensures LinkRole(net, l', n, Silent)
    {
      assert !LinkRole(net, l', n, Variable);
      assert LinkRole(net, l, n, Constant);
      assert !LinkRole(net, l', n, Constant);
    }
  }

  // ---- Soundness: constant nexuses settle at their driven vector ----

  lemma SilentDrivesNothing(net: Netlist, env: Env, val: Valuation, l: Link, n: NexusId)
    requires WellFormed(net) && Fits(net.width, val) && LinkRole(net, l, n, Silent)
    ensures Out(net.width, env, val)(l.node, net.nodes[l.node], l.pin) == []
  {
    var node := net.nodes[l.node];
    assert NodeOk(net.width, node);
  }

  lemma PullsAreConstant(net: Netlist, n: NexusId, l: Link, t: NetType)
    requires IsSignalOf(net, l, n, t)
    requires t.Tri0? || t.Tri1? || t.Supply0? || t.Supply1?
    ensures !LinkRole(net, l, n, Silent)
  {
  }

  lemma NoPulls(net: Netlist, n: NexusId)
    requires forall l | IsLink(net, l, n) && net.nodes[l.node].kind.Signal? :: LinkRole(net, l, n, Silent)
    ensures !HasType(net, n, Tri0) && !HasType(net, n, Tri1) && !HasType(net, n, Supply0) && !HasType(net, n, Supply1)
  {
    forall t | HasType(net, n, t)
      ensures !t.Tri0? && !t.Tri1? && !t.Supply0? && !t.Supply1?
    {
      var l :| IsSignalOf(net, l, n, t);
    }
  }

  lemma UndrivenIsZ(net: Netlist, env: Env, val: Valuation, n: NexusId, b: nat)
    requires WellFormed(net) && Fits(net.width, val)
    requires forall l | IsLink(net, l, n) :: LinkRole(net, l, n, Silent)
    ensures ResolvedBit(net, Out(net.width, env, val), n, b) == Vz
  {
    var out := Out(net.width, env, val);
    NoPulls(net, n);
    forall v | Drives(net, out, n, b, v)
      ensures v == Vz
    {
      var l :| LinkDrives(net, out, l, n, b, v);
      SilentDrivesNothing(net, env, val, l, n);
    }
    assert !Drives(net, out, n, b, V0) && !Drives(net, out, n, b, V1) && !Drives(net, out, n, b, Vx);
  }

  lemma OnlyDrives(net: Netlist, env: Env, val: Valuation, l: Link, n: NexusId, b: nat, v: V)
    requires WellFormed(net) && Fits(net.width, val) && OnlyDriver(net, l, n) && v != Vz
    ensures Drives(net, Out(net.width, env, val), n, b, v)
       <==> BitAt(Out(net.width, env, val)(l.node, net.nodes[l.node], l.pin), b) == v
  {
    var out := Out(net.width, env, val);
    if Drives(net, out, n, b, v) {
      var l' :| LinkDrives(net, out, l', n, b, v);
      if l' != l {
        SilentDrivesNothing(net, env, val, l', n);
      }
    }
    if BitAt(out(l.node, net.nodes[l.node], l.pin), b) == v {
      assert LinkDrives(net, out, l, n, b, v);
    }
  }

  lemma SoleDeviceResolves(net: Netlist, env: Env, val: Valuation, l: Link, n: NexusId, b: nat)
    requires WellFormed(net) && Fits(net.width, val) && OnlyDriver(net, l, n)
    requires !net.nodes[l.node].kind.Signal?
    ensures ResolvedBit(net, Out(net.width, env, val), n, b)
         == BitAt(Out(net.width, env, val)(l.node, net.nodes[l.node], l.pin), b)
  {
    NoPulls(net, n);
    OnlyDrives(net, env, val, l, n, b, V0);
    OnlyDrives(net, env, val, l, n, b, V1);
    OnlyDrives(net, env, val, l, n, b, Vx);
  }

  lemma SolePullResolves(net: Netlist, env: Env, val: Valuation, l: Link, n: NexusId, b: nat)
    requires WellFormed(net) && Fits(net.width, val) && OnlyDriver(net, l, n)
    requires net.nodes[l.node].kind.Signal? && LinkRole(net, l, n, Constant) && !IsPulledPort(net.nodes[l.node].kind)
    ensures ResolvedBit(net, Out(net.width, env, val), n, b) == PullValue(net.nodes[l.node].kind.sig)
  {
    var out, s := Out(net.width, env, val), net.nodes[l.node].kind.sig;
    assert NodeOk(net.width, net.nodes[l.node]);
    assert s.ty.Tri0? || s.ty.Tri1? ==> out(l.node, net.nodes[l.node], l.pin) == [];
    OnlyDrives(net, env, val, l, n, b, V0);
    OnlyDrives(net, env, val, l, n, b, V1);
    OnlyDrives(net, env, val, l, n, b, Vx);
    SolePullTypes(net, l, n);
  }

  /** The only driver of a nexus is the only pull on it. */
  lemma SolePullTypes(net: Netlist, l: Link, n: NexusId)
    requires OnlyDriver(net, l, n) && net.nodes[l.node].kind.Signal?
    ensures forall t | HasType(net, n, t) && (t.Tri0? || t.Tri1? || t.Supply0? || t.Supply1?) ::
              t == net.nodes[l.node].kind.sig.ty
    ensures HasType(net, n, net.nodes[l.node].kind.sig.ty)
  {
    forall t | HasType(net, n, t) && (t.Tri0? || t.Tri1? || t.Supply0? || t.Supply1?)
      ensures t == net.nodes[l.node].kind.sig.ty
    {
      var l' :| IsSignalOf(net, l', n, t);
      if l' != l {
        PullsAreConstant(net, n, l', t);
      }
    }
    assert IsSignalOf(net, l, n, net.nodes[l.node].kind.sig.ty);
  }

  /** Bit b of the nexus has no driver but a pulled port of the root module, directly or
      through substitutions. */
  ghost predicate Exposed(net: Netlist, rank: NexusId -> nat, n: NexusId, b: nat)
    requires Ranked(net, rank)
    decreases rank(n), 1
  {
    exists l :: OnlyDriver(net, l, n) && ExposedBy(net, rank, l, n, b)
  }

  ghost predicate ExposedBy(net: Netlist, rank: NexusId -> nat, l: Link, n: NexusId, b: nat)
    requires Ranked(net, rank) && IsLink(net, l, n)
    decreases rank(n), 0
  {
    var node := net.nodes[l.node];
    || IsPulledPort(node.kind)
    || (SubstituteAt(net, l, n)
        && var base, part := node.pins[1], node.pins[2];
           if part in net.width && node.kind.subBase <= b < node.kind.subBase + net.width[part]
           then Exposed(net, rank, part, b - node.kind.subBase)
           else Exposed(net, rank, base, b))
  }

  ghost predicate Unexposed(net: Netlist, rank: NexusId -> nat, n: NexusId)
    requires Ranked(net, rank)
  {
    n in net.width && forall b: nat | b < net.width[n] :: !Exposed(net, rank, n, b)
  }

  /** The nexus and the bit that a substitution passes on. */
  function SourceOf(net: Netlist, node: Node, b: nat): (NexusId, nat)
    requires node.kind.Substitute? && NodeOk(net.width, node)
  {
    var off := node.kind.subBase;
    if off <= b < off + net.width[node.pins[2]] then (node.pins[2], b - off) else (node.pins[1], b)
  }

  /** A bit of the vector that a substitution drives. */
  lemma SubstituteBit(net: Netlist, rank: NexusId -> nat, env: Env, val: Valuation, l: Link, n: NexusId, b: nat)
    requires WellFormed(net) && Ranked(net, rank) && n in net.width && b < net.width[n]
    requires ConstantNexus(net, rank, n) && SoleDriver(net, l, n) && net.nodes[l.node].kind.Substitute?
    requires Solution(net, env, val)
    ensures SubstituteAt(net, l, n) && NodeOk(net.width, net.nodes[l.node])
    ensures var (m, c) := SourceOf(net, net.nodes[l.node], b);
            && m in net.width && c < net.width[m] && ConstantNexus(net, rank, m)
            && val[n][b] == val[m][c] && DrivenVector(net, rank, n)[b] == DrivenVector(net, rank, m)[c]
  {
    assert SubstituteAt(net, l, n) && NodeOk(net.width, net.nodes[l.node]);
    SoleIsOnly(net, rank, l, n);
    SubstituteVectorBit(net, rank, l, n, b);
    SubstituteDrives(net, env, val, l, n, b);
  }

  lemma SubstituteVectorBit(net: Netlist, rank: NexusId -> nat, l: Link, n: NexusId, b: nat)
    requires WellFormed(net) && Ranked(net, rank) && n in net.width && b < net.width[n]
    requires ConstantNexus(net, rank, n) && SoleDriver(net, l, n) && SubstituteAt(net, l, n)
    requires NodeOk(net.width, net.nodes[l.node])
    ensures var (m, c) := SourceOf(net, net.nodes[l.node], b);
            && m in net.width && c < net.width[m] && ConstantNexus(net, rank, m)
            && DrivenVector(net, rank, n)[b] == DrivenVector(net, rank, m)[c]
  {
    var node := net.nodes[l.node];
    SubstituteVector(net, rank, l, n);
    OverlayBit(DrivenVector(net, rank, node.pins[1]), node.kind.subBase, DrivenVector(net, rank, node.pins[2]), b);
  }

  lemma OverlayBit(whole: Vec, off: nat, part: Vec, b: nat)
    requires off + |part| <= |whole| && b < |whole|
    ensures BitAt(Overlay(whole, off, part), b) == if off <= b < off + |part| then part[b - off] else whole[b]
    ensures Overlay(whole, off, part)[b] == if off <= b < off + |part| then part[b - off] else whole[b]
  {
  }

  lemma SubstituteVector(net: Netlist, rank: NexusId -> nat, l: Link, n: NexusId)
    requires WellFormed(net) && Ranked(net, rank) && n in net.width
    requires ConstantNexus(net, rank, n) && SoleDriver(net, l, n) && SubstituteAt(net, l, n)
    ensures var node := net.nodes[l.node];
            var base, part, off := node.pins[1], node.pins[2], node.kind.subBase;
            && base in net.width && part in net.width && net.width[base] == net.width[n] && off + net.width[part] <= net.width[n]
            && ConstantNexus(net, rank, base) && ConstantNexus(net, rank, part)
            && DrivenVector(net, rank, n) == Overlay(DrivenVector(net, rank, base), off, DrivenVector(net, rank, part))
  {
    assert NodeOk(net.width, net.nodes[l.node]);
    SoleDriverVector(net, rank, l, n);
  }

  lemma SubstituteDrives(net: Netlist, env: Env, val: Valuation, l: Link, n: NexusId, b: nat)
    requires WellFormed(net) && n in net.width && b < net.width[n] && OnlyDriver(net, l, n) && SubstituteAt(net, l, n)
    requires NodeOk(net.width, net.nodes[l.node]) && Solution(net, env, val)
    ensures var (m, c) := SourceOf(net, net.nodes[l.node], b);
            m in net.width && c < net.width[m] && val[n][b] == val[m][c]
  {
    SoleDeviceResolves(net, env, val, l, n, b);
    SubstituteOut(net, env, val, l, n, b);
    assert val[n][b] == ResolvedBit(net, Out(net.width, env, val), n, b);
  }

  lemma SubstituteOut(net: Netlist, env: Env, val: Valuation, l: Link, n: NexusId, b: nat)
    requires n in net.width && b < net.width[n] && SubstituteAt(net, l, n)
    requires NodeOk(net.width, net.nodes[l.node]) && Fits(net.width, val)
    ensures var node := net.nodes[l.node];
            var (m, c) := SourceOf(net, node, b);
            m in net.width && c < net.width[m] && BitAt(Out(net.width, env, val)(l.node, node, l.pin), b) == val[m][c]
  {
    var node := net.nodes[l.node];
    OverlayBit(val[node.pins[1]], node.kind.subBase, val[node.pins[2]], b);
    assert Out(net.width, env, val)(l.node, node, l.pin) == Overlay(val[node.pins[1]], node.kind.subBase, val[node.pins[2]]);
  }

  lemma DirectBit(net: Netlist, rank: NexusId -> nat, env: Env, val: Valuation, l: Link, n: NexusId, b: nat)
    requires WellFormed(net) && Ranked(net, rank) && n in net.width && b < net.width[n]
    requires ConstantNexus(net, rank, n) && SoleDriver(net, l, n) && !IsPulledPort(net.nodes[l.node].kind)
    requires !net.nodes[l.node].kind.Substitute?
    requires Solution(net, env, val)
    ensures val[n][b] == DrivenVector(net, rank, n)[b]
  {
    SoleDriverVector(net, rank, l, n);
    SoleIsOnly(net, rank, l, n);
    assert NodeOk(net.width, net.nodes[l.node]);
    assert val[n][b] == ResolvedBit(net, Out(net.width, env, val), n, b);
    if net.nodes[l.node].kind.Signal? {
      SolePullResolves(net, env, val, l, n, b);
    } else {
      SoleDeviceResolves(net, env, val, l, n, b);
    }
  }

  /** In every settled state, whatever the variable drivers do, a bit of a constant nexus
      that is not read from a pulled port is that of the driven vector. */
  lemma {:induction false} ConstantBit(net: Netlist, rank: NexusId -> nat, env: Env, val: Valuation, n: NexusId, b: nat)
    requires WellFormed(net) && Ranked(net, rank) && n in net.width && b < net.width[n]
    requires ConstantNexus(net, rank, n) && !Exposed(net, rank, n, b)
    requires Solution(net, env, val)
    ensures val[n][b] == DrivenVector(net, rank, n)[b]
    decreases rank(n)
  {
    if l :| SoleDriver(net, l, n) {
      var node := net.nodes[l.node];
      SoleIsOnly(net, rank, l, n);
      assert !ExposedBy(net, rank, l, n, b);
      if node.kind.Substitute? {
        SubstituteBit(net, rank, env, val, l, n, b);
        ExposedThrough(net, rank, l, n, b);
        var (m, c) := SourceOf(net, node, b);
        ConstantBit(net, rank, env, val, m, c);
      } else {
        DirectBit(net, rank, env, val, l, n, b);
      }
    } else {
      UndrivenBit(net, rank, env, val, n, b);
    }
  }

  /** That bit is exposed exactly if the one passed on is, and of a lower rank. */
  lemma ExposedThrough(net: Netlist, rank: NexusId -> nat, l: Link, n: NexusId, b: nat)
    requires Ranked(net, rank) && SubstituteAt(net, l, n) && NodeOk(net.width, net.nodes[l.node])
    ensures var (m, c) := SourceOf(net, net.nodes[l.node], b);
            rank(m) < rank(n) && (ExposedBy(net, rank, l, n, b) <==> Exposed(net, rank, m, c))
  {
  }

  lemma UndrivenBit(net: Netlist, rank: NexusId -> nat, env: Env, val: Valuation, n: NexusId, b: nat)
    requires WellFormed(net) && Ranked(net, rank) && n in net.width && b < net.width[n]
    requires ConstantNexus(net, rank, n) && forall l: Link :: !SoleDriver(net, l, n)
    requires Solution(net, env, val)
    ensures val[n][b] == DrivenVector(net, rank, n)[b]
  {
    assert val[n][b] == ResolvedBit(net, Out(net.width, env, val), n, b);
    forall l | IsLink(net, l, n)
      ensures LinkRole(net, l, n, Silent)
    {
      assert !LinkRole(net, l, n, Variable) && !SoleDriver(net, l, n);
    }
    UndrivenIsZ(net, env, val, n, b);
  }

  /** So a constant nexus settles at its driven vector if no bit is read from a pulled port. */
  lemma ConstantSound(net: Netlist, rank: NexusId -> nat, env: Env, val: Valuation, n: NexusId)
    requires WellFormed(net) && Ranked(net, rank) && Unexposed(net, rank, n)
    requires ConstantNexus(net, rank, n)
    requires Solution(net, env, val)
    ensures val[n] == DrivenVector(net, rank, n)
  {
    forall b: nat | b < net.width[n]
      ensures val[n][b] == DrivenVector(net, rank, n)[b]
    {
      ConstantBit(net, rank, env, val, n, b);
    }
  }

  /** Bits read from pulled ports are those of a pull. */
  lemma {:induction false} ExposedIsPulled(net: Netlist, rank: NexusId -> nat, n: NexusId, b: nat)
    requires WellFormed(net) && Ranked(net, rank) && n in net.width && b < net.width[n]
    requires ConstantNexus(net, rank, n) && Exposed(net, rank, n, b)
    ensures DrivenVector(net, rank, n)[b] == V0 || DrivenVector(net, rank, n)[b] == V1
    decreases rank(n)
  {
    var l := ExposedDriver(net, rank, n, b);
    SoleDriverVector(net, rank, l, n);
    var node := net.nodes[l.node];
    assert NodeOk(net.width, node);
    if node.kind.Substitute? {
      if node.kind.subBase <= b < node.kind.subBase + net.width[node.pins[2]] {
        ExposedIsPulled(net, rank, node.pins[2], b - node.kind.subBase);
      } else {
        ExposedIsPulled(net, rank, node.pins[1], b);
      }
    }
  }

  /** The one driver of a constant nexus is what exposes it. */
  lemma ExposedDriver(net: Netlist, rank: NexusId -> nat, n: NexusId, b: nat) returns (l: Link)
    requires WellFormed(net) && Ranked(net, rank) && n in net.width
    requires ConstantNexus(net, rank, n) && Exposed(net, rank, n, b)
    ensures SoleDriver(net, l, n) && ExposedBy(net, rank, l, n, b)
    ensures IsPulledPort(net.nodes[l.node].kind) || SubstituteAt(net, l, n)
  {
    l :| OnlyDriver(net, l, n) && ExposedBy(net, rank, l, n, b);
    assert !LinkRole(net, l, n, Variable);
  }

  // ---- Exposure under rewriting ----

  /** The same signals and substitutions are on every nexus of `net` in `net'`, and the same
      ones are alone there. */
  ghost predicate KeepsExposure(net: Netlist, net': Netlist) {
    && (forall m | m in net.width :: m in net'.width && net.width[m] == net'.width[m])
    && forall l, m | m in net.width ::
         && (Carries(net, l, m) <==> Carries(net', l, m))
         && (Carries(net, l, m) ==>
               net.nodes[l.node] == net'.nodes[l.node] && (OnlyDriver(net, l, m) <==> OnlyDriver(net', l, m)))
  }

  ghost predicate Carries(net: Netlist, l: Link, m: NexusId) {
    IsLink(net, l, m) && (net.nodes[l.node].kind.Signal? || net.nodes[l.node].kind.Substitute?)
  }

  lemma {:induction false} ExposedByFrame(net: Netlist, net': Netlist, rank: NexusId -> nat, l: Link, n: NexusId, b: nat)
    requires WellFormed(net) && Ranked(net, rank) && Ranked(net', rank) && KeepsExposure(net, net') && n in net.width
    requires Carries(net, l, n) && IsLink(net', l, n)
    ensures ExposedBy(net, rank, l, n, b) <==> ExposedBy(net', rank, l, n, b)
    decreases rank(n), 0
  {
    assert Carries(net', l, n) && net.nodes[l.node] == net'.nodes[l.node];
    if SubstituteAt(net, l, n) {
      var node := net.nodes[l.node];
      assert NodeOk(net.width, node);
      SameSource(net, net', node, b);
      ExposedThrough(net, rank, l, n, b);
      ExposedThrough(net', rank, l, n, b);
      var (m, c) := SourceOf(net, node, b);
      ExposedFrame(net, net', rank, m, c);
    }
  }

  lemma SameSource(net: Netlist, net': Netlist, node: Node, b: nat)
    requires KeepsExposure(net, net') && node.kind.Substitute? && NodeOk(net.width, node)
    ensures NodeOk(net'.width, node) && SourceOf(net', node, b) == SourceOf(net, node, b)
    ensures SourceOf(net, node, b).0 in net.width
  {
  }

  lemma {:induction false} ExposedFrame(net: Netlist, net': Netlist, rank: NexusId -> nat, n: NexusId, b: nat)
    requires WellFormed(net) && Ranked(net, rank) && Ranked(net', rank) && KeepsExposure(net, net') && n in net.width
    ensures Exposed(net, rank, n, b) <==> Exposed(net', rank, n, b)
    decreases rank(n), 1
  {
    if l :| OnlyDriver(net, l, n) && ExposedBy(net, rank, l, n, b) {
      assert Carries(net, l, n) && Carries(net', l, n);
      ExposedByFrame(net, net', rank, l, n, b);
    }
    if l :| OnlyDriver(net', l, n) && ExposedBy(net', rank, l, n, b) {
      assert Carries(net', l, n) && Carries(net, l, n);
      ExposedByFrame(net, net', rank, l, n, b);
    }
  }

  /** A pin of the device may drive the nexus. */
  ghost predicate Voices(node: Node, m: NexusId) {
    exists p: nat :: VoicesAt(node, p, m)
  }

  predicate VoicesAt(node: Node, p: nat, m: NexusId) {
    p < |node.pins| && node.pins[p] == m && RoleOf(node.kind, p) != Silent
  }

  ghost predicate AnyVoices(net: Netlist, ids: set<NodeId>, m: NexusId) {
    exists id :: id in ids && id in net.nodes && Voices(net.nodes[id], m)
  }

  /** Replacing devices other than substitutions by one that drives the same nexuses keeps
      what is exposed. */
  lemma ReplaceKeepsExposure(net: Netlist, ids: set<NodeId>, added: NodeId, node: Node)
    requires CanReplace(net, ids, added, node) && !node.kind.Substitute?
    requires forall id | id in ids :: !net.nodes[id].kind.Substitute?
    requires forall m :: AnyVoices(net, ids, m) <==> Voices(node, m)
    ensures KeepsExposure(net, Replace(net, ids, added, node))
  {
    var net' := Replace(net, ids, added, node);
    forall l: Link, m | l.node !in ids && l.node != added
      ensures IsLink(net, l, m) <==> IsLink(net', l, m)
    {
      ReplaceLink(net, ids, added, node, l, m);
    }
    forall l, m | Carries(net, l, m) && l.node !in ids
      ensures OnlyDriver(net, l, m) <==> OnlyDriver(net', l, m)
    {
      if OnlyDriver(net, l, m) {
        AloneAfterReplace(net, ids, added, node, l, m);
      }
      if OnlyDriver(net', l, m) {
        AloneBeforeReplace(net, ids, added, node, l, m);
      }
    }
  }

  lemma AloneAfterReplace(net: Netlist, ids: set<NodeId>, added: NodeId, node: Node, l: Link, m: NexusId)
    requires CanReplace(net, ids, added, node) && (AnyVoices(net, ids, m) <==> Voices(node, m))
    requires Carries(net, l, m) && l.node !in ids && OnlyDriver(net, l, m)
    ensures OnlyDriver(Replace(net, ids, added, node), l, m)
  {
    var net' := Replace(net, ids, added, node);
    ReplaceLink(net, ids, added, node, l, m);
    forall l' | IsLink(net', l', m) && l' != l ensures LinkRole(net', l', m, Silent) {
      if l'.node == added {
        NoneVoices(net, ids, l, m);
        assert !VoicesAt(node, l'.pin, m);
      } else {
        ReplaceLink(net, ids, added, node, l', m);
        assert LinkRole(net, l', m, Silent);
      }
    }
  }

  lemma NoneVoices(net: Netlist, ids: set<NodeId>, l: Link, m: NexusId)
    requires OnlyDriver(net, l, m) && l.node !in ids
    ensures !AnyVoices(net, ids, m)
  {
    forall id, p: nat | id in ids && id in net.nodes
      ensures !VoicesAt(net.nodes[id], p, m)
    {
      assert IsLink(net, Link(id, p), m) ==> LinkRole(net, Link(id, p), m, Silent);
    }
  }

  lemma AloneBeforeReplace(net: Netlist, ids: set<NodeId>, added: NodeId, node: Node, l: Link, m: NexusId)
    requires CanReplace(net, ids, added, node) && (AnyVoices(net, ids, m) <==> Voices(node, m))
    requires Carries(net, l, m) && l.node !in ids && OnlyDriver(Replace(net, ids, added, node), l, m)
    ensures OnlyDriver(net, l, m)
  {
    var net' := Replace(net, ids, added, node);
    NoneVoices(net', {added}, l, m);
    assert !Voices(net'.nodes[added], m);
    forall l' | IsLink(net, l', m) && l' != l ensures LinkRole(net, l', m, Silent) {
      if l'.node in ids {
        assert !Voices(net.nodes[l'.node], m);
        assert !VoicesAt(net.nodes[l'.node], l'.pin, m);
      } else {
        ReplaceLink(net, ids, added, node, l', m);
        assert LinkRole(net', l', m, Silent);
      }
    }
  }

  /** The pins whose values the rewrites take for constants: the inputs of concatenations, the
      selects of multiplexers, and the inputs of the part selects that are merged. */
  predicate Takes(k: Kind, pin: nat) {
    (k.Concat? && pin > 0) || (k.Mux? && pin == 1) || (k.PartPV? && pin == 0)
  }

  ghost predicate TakenAt(net: Netlist, l: Link, n: NexusId) {
    IsLink(net, l, n) && Takes(net.nodes[l.node].kind, l.pin)
  }

  /** No such pin reads from a pulled port of the root module. */
  ghost predicate PortsApart(net: Netlist, rank: NexusId -> nat)
    requires Ranked(net, rank)
  {
    forall l, n | TakenAt(net, l, n) :: Unexposed(net, rank, n)
  }

  lemma UnexposedFrame(net: Netlist, net': Netlist, rank: NexusId -> nat, n: NexusId)
    requires WellFormed(net) && Ranked(net, rank) && Ranked(net', rank) && KeepsExposure(net, net')
    requires Unexposed(net, rank, n)
    ensures Unexposed(net', rank, n)
  {
    forall b: nat | b < net.width[n]
      ensures !Exposed(net', rank, n, b)
    {
      ExposedFrame(net, net', rank, n, b);
    }
  }

  /** Pins that read what was read before, or nexuses not exposed, keep the ports apart. */
  lemma ApartKept(net: Netlist, net': Netlist, rank: NexusId -> nat)
    requires WellFormed(net) && Ranked(net, rank) && Ranked(net', rank) && KeepsExposure(net, net')
    requires PortsApart(net, rank)
    requires forall l', n | TakenAt(net', l', n) :: Unexposed(net, rank, n)
    ensures PortsApart(net', rank)
  {
    forall l', n | TakenAt(net', l', n)
      ensures Unexposed(net', rank, n)
    {
      UnexposedFrame(net, net', rank, n);
    }
  }

  // ---- Constant nexuses under rewriting ----

  /** The same links, of the same devices, count as drivers of n in both netlists. */
  ghost predicate SameDriversAt(net: Netlist, net': Netlist, n: NexusId) {
    forall l, r | r != Silent ::
      && (LinkRole(net, l, n, r) <==> LinkRole(net', l, n, r))
      && (LinkRole(net, l, n, r) ==> net.nodes[l.node] == net'.nodes[l.node])
  }

  /** No constant nexus gains or loses a driver. */
  ghost predicate KeepsConstants(net: Netlist, net': Netlist, rank: NexusId -> nat)
    requires Ranked(net, rank)
  {
    forall m | m in net.width && ConstantNexus(net, rank, m) :: SameDriversAt(net, net', m)
  }

  /** Then constant nexuses stay constant ... */
  lemma {:induction false} ConstantFrame(net: Netlist, net': Netlist, rank: NexusId -> nat, n: NexusId)
    requires WellFormed(net) && Ranked(net, rank) && Ranked(net', rank)
    requires KeepsConstants(net, net', rank)
    requires n in net.width && ConstantNexus(net, rank, n)
    ensures ConstantNexus(net', rank, n)
    decreases rank(n)
  {
    assert SameDriversAt(net, net', n);
    forall l
      ensures !LinkRole(net', l, n, Variable)
    {
      assert !LinkRole(net, l, n, Variable);
    }
    forall l, l' | LinkRole(net', l, n, Constant) && LinkRole(net', l', n, Constant)
      ensures l == l'
    {
      assert LinkRole(net, l, n, Constant) && LinkRole(net, l', n, Constant);
    }
    forall l | SubstituteAt(net', l, n)
      ensures ConstantNexus(net', rank, net'.nodes[l.node].pins[1])
      ensures ConstantNexus(net', rank, net'.nodes[l.node].pins[2])
    {
      assert LinkRole(net', l, n, Constant) && LinkRole(net, l, n, Constant);
      assert SubstituteAt(net, l, n) && NodeOk(net.width, net.nodes[l.node]);
      ConstantFrame(net, net', rank, net.nodes[l.node].pins[1]);
      ConstantFrame(net, net', rank, net.nodes[l.node].pins[2]);
    }
  }

  /** ... and keep their vector. */
  lemma {:induction false} DrivenVectorFrame(net: Netlist, net': Netlist, rank: NexusId -> nat, n: NexusId)
    requires WellFormed(net) && WellFormed(net') && Ranked(net, rank) && Ranked(net', rank)
    requires forall m | m in net.width :: m in net'.width && net.width[m] == net'.width[m]
    requires KeepsConstants(net, net', rank)
    requires n in net.width && ConstantNexus(net, rank, n)
    ensures ConstantNexus(net', rank, n) && DrivenVector(net', rank, n) == DrivenVector(net, rank, n)
    decreases rank(n)
  {
    ConstantFrame(net, net', rank, n);
    assert SameDriversAt(net, net', n);
    if l :| SoleDriver(net, l, n) {
      assert LinkRole(net, l, n, Constant) && LinkRole(net', l, n, Constant);
      assert SoleDriver(net', l, n);
      SoleDriverVector(net, rank, l, n);
      SoleDriverVector(net', rank, l, n);
      var node := net.nodes[l.node];
      assert NodeOk(net.width, node);
      if node.kind.Substitute? {
        assert SubstituteAt(net, l, n);
        DrivenVectorFrame(net, net', rank, node.pins[1]);
        DrivenVectorFrame(net, net', rank, node.pins[2]);
      }
    } else {
      forall l
        ensures !SoleDriver(net', l, n)
      {
        assert !SoleDriver(net, l, n);
        assert !LinkRole(net, l, n, Constant);
      }
    }
  }
}
