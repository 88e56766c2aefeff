/** The tree of scopes that elaboration builds, and the bound on recursive instantiation. */
module ScopeTree {

  import opened Wrappers

  /** Other stands for tasks, functions, classes, packages and procedural blocks. */
  datatype Kind = Module(name: string) | Genblock | Other

  /** A scope and the index of its parent, which is an older one. */
  datatype Scope = Scope(kind: Kind, parent: Option<nat>)

  predicate WellFormed(scopes: seq<Scope>) {
    forall i | 0 <= i < |scopes| :: scopes[i].parent.Some? ==> scopes[i].parent.value < i
  }

  /** The kinds of the scopes from one up to its root. */
  function Path(scopes: seq<Scope>, i: nat): seq<Kind>
    requires WellFormed(scopes) && i < |scopes|
  {
    [scopes[i].kind] + if scopes[i].parent.Some? then Path(scopes, scopes[i].parent.value) else []
  }

  function Count(path: seq<Kind>, m: string): nat {
    if path == [] then 0 else (if path[0] == Module(m) then 1 else 0) + Count(path[1..], m)
  }

  /** A generate block lies below place p of the path. */
  predicate BlockBelow(path: seq<Kind>, p: nat) {
    exists c :: 0 <= c < p && c < |path| && path[c] == Genblock
  }

  /** The module may be instantiated in the scope with this path: it is not nested too deep,
      and there is a generate block below every one of its instances. */
  predicate MayNest(path: seq<Kind>, m: string, limit: nat) {
    Count(path, m) <= limit && forall p | 0 <= p < |path| && path[p] == Module(m) :: BlockBelow(path, p)
  }

  /** Between two instances of a module on the path there is a generate block. */
  predicate Separated(path: seq<Kind>) {
    forall p, q | 0 <= p < q < |path| && path[p].Module? && path[q] == path[p] ::
      exists c :: p < c < q && path[c] == Genblock
  }

  ghost predicate Limited(path: seq<Kind>, limit: nat) {
    forall m :: Count(path, m) <= limit + 1
  }

  function Names(path: seq<Kind>): set<string> {
    set k | k in path && k.Module? :: k.name
  }

  function Modules(path: seq<Kind>): nat {
    if path == [] then 0 else (if path[0].Module? then 1 else 0) + Modules(path[1..])
  }

  // ---- The bound on a path ----

  lemma {:induction false} CountInFront(front: Kind, path: seq<Kind>, m: string)
    ensures Count([front] + path, m) == Count(path, m) + if front == Module(m) then 1 else 0
  {
    assert ([front] + path)[1..] == path;
  }

  /** A scope that may be added keeps instances apart and within the limit. */
  lemma ChildIsSafe(front: Kind, path: seq<Kind>, limit: nat)
    requires Separated(path) && Limited(path, limit)
    requires front.Module? ==> MayNest(path, front.name, limit)
    ensures Separated([front] + path) && Limited([front] + path, limit)
  {
    var all := [front] + path;
    forall p, q | 0 <= p < q < |all| && all[p].Module? && all[q] == all[p]
      ensures exists c :: p < c < q && all[c] == Genblock
    {
      if p == 0 {
        assert path[q - 1] == Module(front.name);
        var c :| 0 <= c < q - 1 && path[c] == Genblock;
        assert all[c + 1] == Genblock;
      } else {
        assert path[p - 1] == all[p] && path[q - 1] == all[q];
        var c :| p - 1 < c < q - 1 && path[c] == Genblock;
        assert all[c + 1] == Genblock;
      }
    }
    ChildIsLimited(front, path, limit);
  }

  /** And one that may not be added would break one of the two: the condition refuses nothing
      else. */
  lemma NestsExactly(path: seq<Kind>, m: string, limit: nat)
    requires Separated(path) && Limited(path, limit)
    ensures MayNest(path, m, limit) <==> Separated([Module(m)] + path) && Limited([Module(m)] + path, limit)
  {
    if MayNest(path, m, limit) {
      ChildIsSafe(Module(m), path, limit);
    }
    if Separated([Module(m)] + path) && Limited([Module(m)] + path, limit) {
      SafeMayNest(path, m, limit);
    }
  }

  lemma SafeMayNest(path: seq<Kind>, m: string, limit: nat)
    requires Separated([Module(m)] + path) && Limited([Module(m)] + path, limit)
    ensures MayNest(path, m, limit)
  {
    var all := [Module(m)] + path;
    CountInFront(Module(m), path, m);
    forall p | 0 <= p < |path| && path[p] == Module(m) ensures BlockBelow(path, p) {
      assert all[0] == Module(m) == all[p + 1];
      var c :| 0 < c < p + 1 && all[c] == Genblock;
      assert path[c - 1] == Genblock;
    }
  }

  lemma ChildIsLimited(front: Kind, path: seq<Kind>, limit: nat)
    requires Limited(path, limit)
    requires front.Module? ==> Count(path, front.name) <= limit
    ensures Limited([front] + path, limit)
  {
    forall m ensures Count([front] + path, m) <= limit + 1 {
      CountInFront(front, path, m);
      assert front == Module(m) ==> Count(path, front.name) <= limit;
    }
  }

  lemma RootIsSafe(k: Kind, limit: nat)
    ensures Separated([k]) && Limited([k], limit)
  {
    assert [k][1..] == [];
  }

  lemma NamesInFront(k: Kind, path: seq<Kind>)
    ensures Names([k] + path) == Names(path) + if k.Module? then {k.name} else {}
  {
    var all := [k] + path;
    assert all[0] == k;
    forall x | x in path ensures x in all {
      var i :| 0 <= i < |path| && path[i] == x;
      assert all[i + 1] == x;
    }
    assert forall x | x in all :: x == k || x in path;
    forall n | n in Names(path) + if k.Module? then {k.name} else {} ensures n in Names(all) {
      assert Module(n) in all;
    }
  }

  /** The path without the instances of one module. */
  function Without(path: seq<Kind>, m: string): (r: seq<Kind>)
    ensures Names(r) == Names(path) - {m}
  {
    if path == [] then []
    else
      NamesInFront(path[0], path[1..]);
      NamesInFront(path[0], Without(path[1..], m));
      assert path == [path[0]] + path[1..];
      if path[0] == Module(m) then Without(path[1..], m) else [path[0]] + Without(path[1..], m)
  }

  lemma {:induction false} WithoutCounts(path: seq<Kind>, m: string)
    ensures Modules(path) == Modules(Without(path, m)) + Count(path, m)
    ensures forall n | n != m :: Count(Without(path, m), n) == Count(path, n)
  {
    if path != [] {
      WithoutCounts(path[1..], m);
      var rest := Without(path[1..], m);
      assert ([path[0]] + rest)[1..] == rest;
    }
  }

  /** A path whose modules are all among `names` has at most limit + 1 of each. */
  lemma {:induction false} ModulesBounded(path: seq<Kind>, names: set<string>, limit: nat)
    requires Names(path) <= names && forall m | m in names :: Count(path, m) <= limit + 1
    ensures Modules(path) <= |names| * (limit + 1)
    decreases |names|
  {
    if names == {} {
      NoModules(path);
    } else {
      var m :| m in names;
      WithoutCounts(path, m);
      ModulesBounded(Without(path, m), names - {m}, limit);
      assert (|names| - 1) * (limit + 1) + (limit + 1) == |names| * (limit + 1);
    }
  }

  lemma {:induction false} NoModules(path: seq<Kind>)
    requires Names(path) == {}
    ensures Modules(path) == 0
  {
    if path != [] {
      assert path == [path[0]] + path[1..];
      NamesInFront(path[0], path[1..]);
      NoModules(path[1..]);
    }
  }

  // ---- Growing the tree ----

  lemma {:induction false} PathStays(scopes: seq<Scope>, more: seq<Scope>, i: nat)
    requires WellFormed(scopes) && WellFormed(more) && scopes <= more && i < |scopes|
    ensures Path(more, i) == Path(scopes, i)
  {
    assert more[i] == scopes[i];
    if scopes[i].parent.Some? {
      PathStays(scopes, more, scopes[i].parent.value);
    }
  }

  class Design {
    const limit: nat
    var scopes: seq<Scope>
    var errors: nat

    /** Every path of the tree is within the bounds. */
    ghost predicate Valid()
      reads this
    {
      WellFormed(scopes) && forall i | 0 <= i < |scopes| :: Safe(Path(scopes, i))
    }

    ghost predicate Safe(path: seq<Kind>) {
      Separated(path) && Limited(path, limit)
    }

    constructor (limit: nat)
      ensures Valid() && scopes == [] && this.limit == limit && errors == 0
    {
      this.limit, scopes, errors := limit, [], 0;
    }

    method AddRoot(name: string) returns (i: nat)
      requires Valid()
      modifies this`scopes
      ensures Valid() && i == |old(scopes)| && scopes == old(scopes) + [Scope(Module(name), None)]
    {
      i := |scopes|;
      RootIsSafe(Module(name), limit);
      AddScope(Module(name), None, [Module(name)]);
    }

    /** A generate block, a task, a function or the like. */
    method AddBlock(kind: Kind, sc: nat) returns (i: nat)
      requires Valid() && sc < |scopes| && !kind.Module?
      modifies this`scopes
      ensures Valid() && i == |old(scopes)| && scopes == old(scopes) + [Scope(kind, Some(sc))]
    {
      i := |scopes|;
      ChildIsSafe(kind, Path(scopes, sc), limit);
      AddScope(kind, Some(sc), [kind] + Path(scopes, sc));
    }

    /** An instance of a module, unless the scopes around it rule it out. */
    method Instantiate(mod: string, sc: nat) returns (ok: bool)
      requires Valid() && sc < |scopes|
      modifies this
      ensures Valid()
      ensures ok <==> Safe([Module(mod)] + old(Path(scopes, sc)))
      ensures ok <==> MayNest(old(Path(scopes, sc)), mod, limit)
      ensures scopes == old(scopes) + if ok then [Scope(Module(mod), Some(sc))] else []
      ensures errors == old(errors) + if ok then 0 else 1
    {
      NestsExactly(Path(scopes, sc), mod, limit);
      ok := CheckRecursion(mod, sc);
      if !ok {
        errors := errors + 1;
        return;
      }
      ChildIsSafe(Module(mod), Path(scopes, sc), limit);
      AddScope(Module(mod), Some(sc), [Module(mod)] + Path(scopes, sc));
    }

    method AddScope(kind: Kind, parent: Option<nat>, ghost path: seq<Kind>)
      requires Valid() && Safe(path)
      requires parent.Some? ==> parent.value < |scopes|
      requires path == [kind] + if parent.Some? then Path(scopes, parent.value) else []
      modifies this`scopes
      ensures Valid() && scopes == old(scopes) + [Scope(kind, parent)]
    {
      ghost var before := scopes;
      scopes := scopes + [Scope(kind, parent)];
      forall i | 0 <= i < |scopes| ensures Safe(Path(scopes, i)) {
        if i < |before| {
          PathStays(before, scopes, i);
        } else if parent.Some? {
          PathStays(before, scopes, parent.value);
        }
      }
    }

    /** Walk up from the scope, looking for instances of the module. */
    method CheckRecursion(mod: string, sc: nat) returns (ok: bool)
      requires WellFormed(scopes) && sc < |scopes|
      ensures ok <==> MayNest(Path(scopes, sc), mod, limit)
    {
      var rlCount := 0;
      var inGenblk := false;
      var scn: Option<nat> := Some(sc);
      ghost var path := Path(scopes, sc);
      ghost var k := 0;
      while scn.Some?
        invariant 0 <= k <= |path| && (scn.Some? ==> scn.value < |scopes|)
        invariant path[k..] == if scn.Some? then Path(scopes, scn.value) else []
        invariant inGenblk <==> BlockBelow(path, k)
        invariant rlCount <= limit && rlCount + Count(path[k..], mod) == Count(path, mod)
        invariant forall p | 0 <= p < k && path[p] == Module(mod) :: BlockBelow(path, p)
        decreases if scn.Some? then scn.value + 1 else 0
      {
        var kind, parent := scopes[scn.value].kind, scopes[scn.value].parent;
        assert path[k] == kind && path[k..][1..] == path[k + 1..];
        BlockStep(path, k);
        scn := parent;
        k := k + 1;
        if kind.Genblock? {
          inGenblk := true;
          continue;
        }
        if !kind.Module? || kind.name != mod {
          continue;
        }
        if inGenblk {
          rlCount := rlCount + 1;
          if rlCount > limit {
            return false;
          }
          continue;
        }
        assert path[k - 1] == Module(mod);
        return false;
      }
      assert path[k..] == [];
      return true;
    }

    lemma BlockStep(path: seq<Kind>, k: nat)
      requires k < |path|
      ensures BlockBelow(path, k + 1) <==> BlockBelow(path, k) || path[k] == Genblock
    {
    }

    /** On the path from any scope to its root there are at most limit + 1 instances of each
        module, generate blocks keep them apart, and so the path is bounded by the number of
        modules. */
    lemma PathsAreBounded(i: nat, names: set<string>)
      requires Valid() && i < |scopes| && Names(Path(scopes, i)) <= names
      ensures Separated(Path(scopes, i))
      ensures forall m :: Count(Path(scopes, i), m) <= limit + 1
      ensures Modules(Path(scopes, i)) <= |names| * (limit + 1)
    {
      ModulesBounded(Path(scopes, i), names, limit);
    }
  }
}
