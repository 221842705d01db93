/** The `ModuleTree` class of src/extension.ts (lines 4-30) as an immutable
    rose tree.  A node is addressed by the labels on the way down from the
    node it is asked of; as in the source, each step takes the FIRST child
    with the wanted label (`Array.prototype.find`). */
module Trees {
  import opened Strings

  /** `name` is the source's `label` field (`label` is reserved in Dafny). */
  datatype ModuleTree = ModuleTree(name: string, dependencies: seq<string>, children: seq<ModuleTree>)

  /** `new ModuleTree(label)`. */
  function Leaf(name: string): ModuleTree {
    ModuleTree(name, [], [])
  }

  /** `cs.find(module => module.label === l)`, as an index: the first child
      at or after `from` with label `l`. */
  function FindChildFrom(cs: seq<ModuleTree>, l: string, from: nat): (r: Option<nat>)
    decreases |cs| - from
    ensures r.Some? ==> from <= r.value < |cs| && cs[r.value].name == l
    ensures forall k :: from <= k < |cs| && (r.None? || k < r.value) ==> cs[k].name != l
  {
    if from >= |cs| then None
    else if cs[from].name == l then Some(from)
    else FindChildFrom(cs, l, from + 1)
  }

  function FindChild(cs: seq<ModuleTree>, l: string): Option<nat> {
    FindChildFrom(cs, l, 0)
  }

  /** The search result is fixed by the labels alone. */
  lemma FindChildIs(cs: seq<ModuleTree>, l: string, r: Option<nat>)
    requires r.Some? ==> r.value < |cs| && cs[r.value].name == l
    requires forall k :: 0 <= k < |cs| && (r.None? || k < r.value) ==> cs[k].name != l
    ensures FindChild(cs, l) == r
  {
  }

  /** `children.push(c)` leaves earlier answers alone. */
  lemma FindChildAppend(cs: seq<ModuleTree>, c: ModuleTree, l: string)
    ensures FindChild(cs + [c], l)
         == if FindChild(cs, l).Some? then FindChild(cs, l)
            else if c.name == l then Some(|cs|) else None
  {
    var cs' := cs + [c];
    var r := if FindChild(cs, l).Some? then FindChild(cs, l)
             else if c.name == l then Some(|cs|) else None;
    forall k | 0 <= k < |cs'| && (r.None? || k < r.value) ensures cs'[k].name != l {
      if k < |cs| { assert cs'[k] == cs[k]; }
    }
    FindChildIs(cs', l, r);
  }

  /** Replacing a child by one with the same label leaves every answer alone. */
  lemma FindChildUpdate(cs: seq<ModuleTree>, k: nat, c: ModuleTree, l: string)
    requires k < |cs| && c.name == cs[k].name
    ensures FindChild(cs[k := c], l) == FindChild(cs, l)
  {
    var cs' := cs[k := c];
    var r := FindChild(cs, l);
    forall j | 0 <= j < |cs'| && (r.None? || j < r.value) ensures cs'[j].name != l {
    }
    FindChildIs(cs', l, r);
  }

  /** The node reached from `t` by following `path`, if there is one. */
  function NodeAt(t: ModuleTree, path: seq<string>): Option<ModuleTree>
    decreases |path|
  {
    if |path| == 0 then Some(t)
    else match FindChild(t.children, path[0])
      case None => None
      case Some(k) => NodeAt(t.children[k], path[1..])
  }

  /** The dependency list of the node at `path`; `None` when there is no
      such node. */
  function DepsAt(t: ModuleTree, path: seq<string>): Option<seq<string>> {
    match NodeAt(t, path)
    case None => None
    case Some(n) => Some(n.dependencies)
  }

  predicate HasNode(t: ModuleTree, path: seq<string>) {
    NodeAt(t, path).Some?
  }

  /** Sibling labels are distinct, at every level. */
  predicate UniqueLabels(t: ModuleTree)
    decreases t
  {
    && (forall i, j :: 0 <= i < j < |t.children| ==> t.children[i].name != t.children[j].name)
    && (forall i :: 0 <= i < |t.children| ==> UniqueLabels(t.children[i]))
  }

  /** Same labels and same child lists everywhere; dependencies may differ. */
  predicate SameShape(a: ModuleTree, b: ModuleTree)
    decreases a
  {
    && a.name == b.name
    && |a.children| == |b.children|
    && (forall i :: 0 <= i < |a.children| ==> SameShape(a.children[i], b.children[i]))
  }

  /** `addModule(path)`: create-if-absent, then descend.  Only child lists
      change; the receiver keeps its label and dependencies. */
  function AddModule(t: ModuleTree, path: seq<string>): (r: ModuleTree)
    decreases |path|
    ensures r.name == t.name && r.dependencies == t.dependencies
  {
    if |path| == 0 then t
    else match FindChild(t.children, path[0])
      case None => t.(children := t.children + [AddModule(Leaf(path[0]), path[1..])])
      case Some(k) => t.(children := t.children[k := AddModule(t.children[k], path[1..])])
  }

  /** `addDependencies(path, dep)`: appends `dep` at the node at `path`; on a
      missing path the optional chain `?.` makes it do nothing. */
  function AddDependency(t: ModuleTree, path: seq<string>, dep: string): (r: ModuleTree)
    decreases |path|
    ensures SameShape(r, t)
    ensures |path| > 0 ==> r.dependencies == t.dependencies
  {
    if |path| == 0 then
      SameShapeReflexive(t);
      t.(dependencies := t.dependencies + [dep])
    else match FindChild(t.children, path[0])
      case None =>
        SameShapeReflexive(t);
        t
      case Some(k) =>
        var c := AddDependency(t.children[k], path[1..], dep);
        var r := t.(children := t.children[k := c]);
        assert forall i :: 0 <= i < |t.children| && i != k ==> SameShape(r.children[i], t.children[i]) by {
          forall i | 0 <= i < |t.children| && i != k ensures SameShape(r.children[i], t.children[i]) {
            SameShapeReflexive(t.children[i]);
          }
        }
        r
  }

  lemma {:induction false} SameShapeReflexive(t: ModuleTree)
    decreases t
    ensures SameShape(t, t)
  {
    forall i | 0 <= i < |t.children| ensures SameShape(t.children[i], t.children[i]) {
      SameShapeReflexive(t.children[i]);
    }
  }

  /** Inserting the same path twice gives the tree inserting it once gives. */
  lemma {:induction false} AddModuleIdempotent(t: ModuleTree, path: seq<string>)
    decreases |path|
    ensures AddModule(AddModule(t, path), path) == AddModule(t, path)
  {
    if |path| > 0 {
      var t1 := AddModule(t, path);
      match FindChild(t.children, path[0])
      case None =>
        var c := AddModule(Leaf(path[0]), path[1..]);
        FindChildAppend(t.children, c, path[0]);
        AddModuleIdempotent(Leaf(path[0]), path[1..]);
        assert t1.children[|t.children| := c] == t1.children;
      case Some(k) =>
        var c := AddModule(t.children[k], path[1..]);
        FindChildUpdate(t.children, k, c, path[0]);
        AddModuleIdempotent(t.children[k], path[1..]);
        assert t1.children[k := c] == t1.children;
    }
  }

  /** Because `find` runs before `push`, inserting keeps sibling labels
      distinct. */
  lemma {:induction false} AddModuleUniqueLabels(t: ModuleTree, path: seq<string>)
    requires UniqueLabels(t)
    decreases |path|
    ensures UniqueLabels(AddModule(t, path))
  {
    if |path| > 0 {
      var t1 := AddModule(t, path);
      match FindChild(t.children, path[0])
      case None =>
        var c := AddModule(Leaf(path[0]), path[1..]);
        AddModuleUniqueLabels(Leaf(path[0]), path[1..]);
        assert t1.children == t.children + [c];
        forall i | 0 <= i < |t1.children| ensures UniqueLabels(t1.children[i]) {
          if i < |t.children| { assert t1.children[i] == t.children[i]; }
        }
      case Some(k) =>
        AddModuleUniqueLabels(t.children[k], path[1..]);
    }
  }

  /** Which nodes exist after `addModule(path)`, and what they depend on:
      every old node keeps its list, every prefix of `path` that had no node
      gains one with an empty list, and nothing else appears. */
  lemma {:induction false} AddModuleDeps(t: ModuleTree, path: seq<string>, q: seq<string>)
    decreases |path|
    ensures DepsAt(AddModule(t, path), q)
         == if DepsAt(t, q).Some? then DepsAt(t, q)
            else if q <= path then Some([]) else None
  {
    var t1 := AddModule(t, path);
    if |path| > 0 && |q| > 0 {
      var k := if FindChild(t.children, path[0]).None? then |t.children|
               else FindChild(t.children, path[0]).value;
      var c := if FindChild(t.children, path[0]).None? then AddModule(Leaf(path[0]), path[1..])
               else AddModule(t.children[k], path[1..]);
      if FindChild(t.children, path[0]).None? {
        FindChildAppend(t.children, c, q[0]);
      } else {
        FindChildUpdate(t.children, k, c, q[0]);
      }
      assert t1.children[k] == c;
      if q[0] != path[0] {
        assert FindChild(t1.children, q[0]) == FindChild(t.children, q[0]);
        if FindChild(t.children, q[0]).Some? {
          var j := FindChild(t.children, q[0]).value;
          assert t1.children[j] == t.children[j];
        }
      } else {
        assert FindChild(t1.children, q[0]) == Some(k);
        assert (q <= path) == (q[1..] <= path[1..]);
        if FindChild(t.children, path[0]).None? {
          AddModuleDeps(Leaf(path[0]), path[1..], q[1..]);
          if |q| > 1 {
            assert DepsAt(Leaf(path[0]), q[1..]) == None;
          }
        } else {
          AddModuleDeps(t.children[k], path[1..], q[1..]);
        }
      }
    }
  }

  /** What `addDependencies(path, dep)` changes: the list at `path` gains
      `dep` at its end when that node exists; every other list, and every
      list when it does not, stays as it was. */
  lemma {:induction false} AddDependencyDeps(t: ModuleTree, path: seq<string>, dep: string, q: seq<string>)
    decreases |path|
    ensures DepsAt(AddDependency(t, path, dep), q)
         == if q == path && DepsAt(t, path).Some? then Some(DepsAt(t, path).value + [dep])
            else DepsAt(t, q)
  {
    var t1 := AddDependency(t, path, dep);
    if |path| > 0 && |q| > 0 {
      match FindChild(t.children, path[0])
      case None =>
      case Some(k) =>
        var c := AddDependency(t.children[k], path[1..], dep);
        FindChildUpdate(t.children, k, c, q[0]);
        if q[0] != path[0] {
          if FindChild(t.children, q[0]).Some? {
            var j := FindChild(t.children, q[0]).value;
            assert t1.children[j] == t.children[j];
          }
        } else {
          AddDependencyDeps(t.children[k], path[1..], dep, q[1..]);
          assert (q == path) == (q[1..] == path[1..]);
        }
    }
  }

  /** On a path with no node, `addDependencies` returns the very same tree. */
  lemma {:induction false} AddDependencyMissingPath(t: ModuleTree, path: seq<string>, dep: string)
    requires !HasNode(t, path)
    decreases |path|
    ensures AddDependency(t, path, dep) == t
  {
    if |path| > 0 {
      match FindChild(t.children, path[0])
      case None =>
      case Some(k) =>
        AddDependencyMissingPath(t.children[k], path[1..], dep);
        assert t.children[k := t.children[k]] == t.children;
    }
  }

  /** Trees of the same shape agree on sibling-label uniqueness. */
  lemma {:induction false} SameShapeUniqueLabels(a: ModuleTree, b: ModuleTree)
    requires SameShape(a, b) && UniqueLabels(b)
    decreases a
    ensures UniqueLabels(a)
  {
    forall i | 0 <= i < |a.children| ensures UniqueLabels(a.children[i]) {
      SameShapeUniqueLabels(a.children[i], b.children[i]);
    }
  }
}
