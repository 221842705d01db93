/** The two directory walks and the command handler of src/extension.ts:
    `inDirModules` (lines 56-76), `makeModuleTree` (lines 78-108) and the
    body of `drawGraph` (lines 135-150).  The file system is replaced by the
    decoded contents of the `.purs` files, in the order both walks visit
    them (files of a folder first, then its sub-folders); the configured
    regular expression is a predicate `sel` on names. */
module Pipeline {
  import opened Strings
  import opened Sanitizer
  import opened Extract
  import opened Trees
  import opened Render

  const RootLabel: string := "ModulesRoot"

  /** What the walks read from one file's comment-stripped text: the module
      name as `inDirModules` reads it (split at spaces, line 67), the name as
      `makeModuleTree` reads it (split at space, `|` and `(`, line 87), and
      the imported names (line 93). */
  datatype ParsedFile = ParsedFile(listedName: Option<string>, name: Option<string>, imports: seq<string>)

  /** Both walks find a declaration in the same files; the name
      `makeModuleTree` reads is the one `inDirModules` reads, cut at the
      first `|` or `(`; every name read lies on one line and holds none of
      the separators it was split at. */
  function Parse(src: string): (r: ParsedFile)
    ensures r.name.Some? <==> r.listedName.Some?
    ensures r.name.Some? ==> r.name.value <= r.listedName.value
    ensures r.name.Some? ==> IsToken(r.name.value, SpacePipeParen) && IsToken(r.listedName.value, SpaceOnly)
    ensures forall i :: 0 <= i < |r.imports| ==> IsToken(r.imports[i], SpacePipeParen)
  {
    var s := Sanitize(src);
    assert FindFrom(s, ModuleKeyword, 0).Some? ==>
             ModuleName(s, SpacePipeParen).value <= ModuleName(s, SpaceOnly).value by {
      if FindFrom(s, ModuleKeyword, 0).Some? {
        var j := FindFrom(s, ModuleKeyword, 0).value + 7;
        TakeUntilNarrower(s[j..LineEnd(s, j)], Separator(SpaceOnly), Separator(SpacePipeParen));
      }
    }
    ParsedFile(ModuleName(s, SpaceOnly), ModuleName(s, SpacePipeParen), Imports(s))
  }

  function ParseAll(files: seq<string>): (ps: seq<ParsedFile>)
    ensures |ps| == |files|
    ensures forall i :: 0 <= i < |files| ==> ps[i] == Parse(files[i])
  {
    if |files| == 0 then [] else [Parse(files[0])] + ParseAll(files[1..])
  }

  /** The name a walk reads, by the tokenizer it splits with. */
  function NameBy(p: ParsedFile, tk: Tokenizer): Option<string> {
    match tk
    case SpaceOnly => p.listedName
    case SpacePipeParen => p.name
  }

  /** The names a walk collects, file by file, skipping files without a
      declaration. */
  function NamesWith(ps: seq<ParsedFile>, tk: Tokenizer): (r: seq<string>)
    ensures |r| <= |ps|
    ensures forall m :: m in r <==> exists i :: 0 <= i < |ps| && NameBy(ps[i], tk) == Some(m)
  {
    if |ps| == 0 then []
    else
      var init := ps[..|ps| - 1];
      var last := ps[|ps| - 1];
      var r := NamesWith(init, tk) + (match NameBy(last, tk) case None => [] case Some(m) => [m]);
      assert forall i :: 0 <= i < |init| ==> init[i] == ps[i];
      r
  }

  /** `inDirModules` as written: names split at spaces only (line 67). */
  function AllModulesAsWritten(ps: seq<ParsedFile>): (r: seq<string>)
    ensures forall m :: m in r <==> exists i :: 0 <= i < |ps| && ps[i].listedName == Some(m)
  {
    NamesWith(ps, SpaceOnly)
  }

  /** `inDirModules` reading names the way `makeModuleTree` does (line 87). */
  function AllModules(ps: seq<ParsedFile>): (r: seq<string>)
    ensures forall m :: m in r <==> exists i :: 0 <= i < |ps| && ps[i].name == Some(m)
  {
    NamesWith(ps, SpacePipeParen)
  }

  /** The two walks skip the same files, and position by position the name
      `makeModuleTree` files is a prefix of the name `inDirModules` lists. */
  lemma NamesAlign(files: seq<string>)
    ensures |AllModules(ParseAll(files))| == |AllModulesAsWritten(ParseAll(files))|
    ensures forall k :: 0 <= k < |AllModules(ParseAll(files))| ==>
              AllModules(ParseAll(files))[k] <= AllModulesAsWritten(ParseAll(files))[k]
  {
    NamesAlignParsed(ParseAll(files));
  }

  predicate NamesAgree(p: ParsedFile) {
    && (p.name.Some? <==> p.listedName.Some?)
    && (p.name.Some? ==> p.name.value <= p.listedName.value)
  }

  lemma {:induction false} NamesAlignParsed(ps: seq<ParsedFile>)
    requires forall i :: 0 <= i < |ps| ==> NamesAgree(ps[i])
    ensures |AllModules(ps)| == |AllModulesAsWritten(ps)|
    ensures forall k :: 0 <= k < |AllModules(ps)| ==> AllModules(ps)[k] <= AllModulesAsWritten(ps)[k]
  {
    if |ps| > 0 {
      var init := ps[..|ps| - 1];
      var last := ps[|ps| - 1];
      assert forall i :: 0 <= i < |init| ==> init[i] == ps[i];
      NamesAlignParsed(init);
      assert NamesAgree(last);
      NamesWithLast(ps, SpacePipeParen);
      NamesWithLast(ps, SpaceOnly);
      if last.name.Some? {
        PrefixesSnoc(AllModules(init), AllModulesAsWritten(init), last.name.value, last.listedName.value);
      }
    }
  }

  lemma NamesWithLast(ps: seq<ParsedFile>, tk: Tokenizer)
    requires |ps| > 0
    ensures NamesWith(ps, tk) == NamesWith(ps[..|ps| - 1], tk)
              + (if NameBy(ps[|ps| - 1], tk).Some? then [NameBy(ps[|ps| - 1], tk).value] else [])
  {
  }

  lemma PrefixesSnoc(a: seq<string>, b: seq<string>, x: string, y: string)
    requires |a| == |b| && forall k :: 0 <= k < |a| ==> a[k] <= b[k]
    requires x <= y
    ensures |a + [x]| == |b + [y]|
    ensures forall k :: 0 <= k < |a + [x]| ==> (a + [x])[k] <= (b + [y])[k]
  {
  }

  function Selected(p: ParsedFile, sel: string -> bool): (r: Option<string>)
    ensures r.Some? <==> p.name.Some? && sel(p.name.value)
    ensures r.Some? ==> r == p.name
  {
    match p.name
    case None => None
    case Some(m) => if sel(m) then Some(m) else None
  }

  /** `moduleName.split('.')`: a non-empty path that joins back to the name. */
  function ModulePath(m: string): (path: seq<string>)
    ensures |path| > 0 && JoinDots(path) == m
  {
    JoinSplitDots(m);
    Split(m, IsDot)
  }

  /** The entries of `ds` the filter of line 98 lets through, in order. */
  function Kept(ds: seq<string>, sel: string -> bool, all: seq<string>): (r: seq<string>)
    ensures forall x :: x in r <==> x in ds && sel(x) && x in all
  {
    if |ds| == 0 then []
    else
      var init := ds[..|ds| - 1];
      var x := ds[|ds| - 1];
      assert ds == init + [x];
      if sel(x) && x in all then Kept(init, sel, all) + [x] else Kept(init, sel, all)
  }

  /** The filter keeps distinct entries distinct and in their order. */
  lemma {:induction false} KeptInOrder(ds: seq<string>, sel: string -> bool, all: seq<string>)
    requires NoDuplicates(ds)
    ensures NoDuplicates(Kept(ds, sel, all))
    ensures forall i, j :: 0 <= i < j < |Kept(ds, sel, all)| ==>
              FirstIndex(ds, Kept(ds, sel, all)[i]) < FirstIndex(ds, Kept(ds, sel, all)[j])
  {
    if |ds| > 0 {
      var init := ds[..|ds| - 1];
      var x := ds[|ds| - 1];
      var p := Kept(init, sel, all);
      assert ds == init + [x];
      LastOfDistinct(init, x);
      KeptInOrder(init, sel, all);
      if sel(x) && x in all {
        KeptSnocInOrder(init, x, p);
      } else {
        forall i, j | 0 <= i < j < |p| ensures FirstIndex(ds, p[i]) < FirstIndex(ds, p[j]) {
          FirstIndexOfPrefix(init, [x], p[i]);
          FirstIndexOfPrefix(init, [x], p[j]);
        }
      }
    }
  }

  /** The last element of a duplicate-free sequence is new, and is found
      last. */
  lemma LastOfDistinct(init: seq<string>, x: string)
    requires NoDuplicates(init + [x])
    ensures NoDuplicates(init) && x !in init
    ensures FirstIndex(init + [x], x) == |init|
  {
    var ds := init + [x];
    assert forall k :: 0 <= k < |init| ==> ds[k] == init[k];
    assert ds[|init|] == x;
  }

  /** Appending a new last element to an ordered selection of the others
      keeps the selection ordered and duplicate-free. */
  lemma KeptSnocInOrder(init: seq<string>, x: string, p: seq<string>)
    requires NoDuplicates(init + [x])
    requires forall i :: 0 <= i < |p| ==> p[i] in init
    requires NoDuplicates(p)
    requires forall i, j :: 0 <= i < j < |p| ==> FirstIndex(init, p[i]) < FirstIndex(init, p[j])
    ensures NoDuplicates(p + [x])
    ensures forall i, j :: 0 <= i < j < |p + [x]| ==>
              FirstIndex(init + [x], (p + [x])[i]) < FirstIndex(init + [x], (p + [x])[j])
  {
    var r := p + [x];
    LastOfDistinct(init, x);
    forall i | 0 <= i < |p| ensures FirstIndex(init + [x], p[i]) == FirstIndex(init, p[i]) < |init| {
      FirstIndexOfPrefix(init, [x], p[i]);
    }
    forall i, j | 0 <= i < j < |r| ensures r[i] in init + [x] && r[j] in init + [x] && FirstIndex(init + [x], r[i]) < FirstIndex(init + [x], r[j]) && r[i] != r[j] {
      assert r[i] == p[i];
      if j < |p| { assert r[j] == p[j]; } else { assert r[j] == x; }
    }
  }

  /** What a file adds to its module's dependency list: its imports, once
      each, when the selection accepts them and the walk of `inDirModules`
      listed them (lines 93-101). */
  function FileDeps(p: ParsedFile, sel: string -> bool, all: seq<string>): (r: seq<string>)
    ensures forall d :: d in r <==> d in p.imports && sel(d) && d in all
  {
    Kept(Dedup(p.imports), sel, all)
  }

  /** ... each once, in the order of their first import. */
  lemma FileDepsInOrder(p: ParsedFile, sel: string -> bool, all: seq<string>)
    ensures NoDuplicates(FileDeps(p, sel, all))
    ensures forall i, j :: 0 <= i < j < |FileDeps(p, sel, all)| ==>
              FirstIndex(p.imports, FileDeps(p, sel, all)[i]) < FirstIndex(p.imports, FileDeps(p, sel, all)[j])
  {
    var dd := Dedup(p.imports);
    var r := FileDeps(p, sel, all);
    KeptInOrder(dd, sel, all);
    forall i, j | 0 <= i < j < |r| ensures FirstIndex(p.imports, r[i]) < FirstIndex(p.imports, r[j]) {
      var a := FirstIndex(dd, r[i]);
      var b := FirstIndex(dd, r[j]);
      assert dd[a] == r[i] && dd[b] == r[j];
    }
  }

  /** The loop of lines 96-101 over `ds`: each dependency the filter keeps
      is added at `path`, in order. */
  function AttachImports(t: ModuleTree, path: seq<string>, ds: seq<string>, sel: string -> bool, all: seq<string>): (r: ModuleTree)
    ensures r.name == t.name
    ensures |path| > 0 ==> r.dependencies == t.dependencies
    ensures UniqueLabels(t) ==> UniqueLabels(r)
  {
    if |ds| == 0 then t
    else
      var t0 := AttachImports(t, path, ds[..|ds| - 1], sel, all);
      var d := ds[|ds| - 1];
      if sel(d) && d in all then
        var r := AddDependency(t0, path, d);
        assert UniqueLabels(t0) ==> UniqueLabels(r) by {
          if UniqueLabels(t0) { SameShapeUniqueLabels(r, t0); }
        }
        r
      else t0
  }

  /** One pass of the file loop of `makeModuleTree` (lines 83-102). */
  function ProcessFile(t: ModuleTree, p: ParsedFile, sel: string -> bool, all: seq<string>): (r: ModuleTree)
    ensures r.name == t.name && r.dependencies == t.dependencies
    ensures UniqueLabels(t) ==> UniqueLabels(r)
  {
    match Selected(p, sel)
    case None => t
    case Some(m) =>
      var path := ModulePath(m);
      var t1 := AddModule(t, path);
      assert UniqueLabels(t) ==> UniqueLabels(t1) by {
        if UniqueLabels(t) { AddModuleUniqueLabels(t, path); }
      }
      AttachImports(t1, path, Dedup(p.imports), sel, all)
  }

  /** The tree once `makeModuleTree` has read the files, starting from
      `new ModuleTree("ModulesRoot")` (line 135). */
  function BuildTree(ps: seq<ParsedFile>, sel: string -> bool, all: seq<string>): (r: ModuleTree)
    ensures r.name == RootLabel && r.dependencies == []
    ensures UniqueLabels(r)
  {
    if |ps| == 0 then Leaf(RootLabel)
    else ProcessFile(BuildTree(ps[..|ps| - 1], sel, all), ps[|ps| - 1], sel, all)
  }

  /** The corrected pipeline: the text of lines 144-150 with the names of
      `inDirModules` read as `makeModuleTree` reads them (line 87). This is
      not what the handler writes; that is `DrawGraphAsWritten`. */
  function DrawGraph(files: seq<string>, sel: string -> bool): (r: string)
    ensures Header <= r && r[|r| - |Footer|..] == Footer
  {
    var ps := ParseAll(files);
    MakeGraph(BuildTree(ps, sel, AllModules(ps)))
  }

  /** The handler's own text: `inDirModules` as written (line 67). It is what
      the handler would write once past the check of line 127, which as
      written compares a constant code with itself and so always returns. */
  function DrawGraphAsWritten(files: seq<string>, sel: string -> bool): (r: string)
    ensures Header <= r && r[|r| - |Footer|..] == Footer
  {
    var ps := ParseAll(files);
    MakeGraph(BuildTree(ps, sel, AllModulesAsWritten(ps)))
  }

  // A reference description of the tree.

  /** `q` is a prefix of the path of the module `p` declares, and the
      selection accepts that module. */
  predicate InNamespaceOf(p: ParsedFile, sel: string -> bool, q: seq<string>) {
    Selected(p, sel).Some? && q <= ModulePath(Selected(p, sel).value)
  }

  predicate Covered(ps: seq<ParsedFile>, sel: string -> bool, q: seq<string>) {
    exists i :: 0 <= i < |ps| && InNamespaceOf(ps[i], sel, q)
  }

  /** What file `p` should add at `q`. */
  function Contribution(p: ParsedFile, sel: string -> bool, all: seq<string>, q: seq<string>): seq<string> {
    if Selected(p, sel).Some? && ModulePath(Selected(p, sel).value) == q
    then FileDeps(p, sel, all) else []
  }

  /** The dependency list the node at `q` should carry: the contributions of
      the files declaring the module at `q`, in file order. */
  function ExpectedDeps(ps: seq<ParsedFile>, sel: string -> bool, all: seq<string>, q: seq<string>): seq<string> {
    if |ps| == 0 then []
    else ExpectedDeps(ps[..|ps| - 1], sel, all, q) + Contribution(ps[|ps| - 1], sel, all, q)
  }

  lemma CoveredSnoc(ps: seq<ParsedFile>, sel: string -> bool, q: seq<string>)
    requires |ps| > 0
    ensures Covered(ps, sel, q)
        <==> Covered(ps[..|ps| - 1], sel, q) || InNamespaceOf(ps[|ps| - 1], sel, q)
  {
    var init := ps[..|ps| - 1];
    if Covered(ps, sel, q) && !InNamespaceOf(ps[|ps| - 1], sel, q) {
      var i :| 0 <= i < |ps| && InNamespaceOf(ps[i], sel, q);
      assert init[i] == ps[i];
    }
    if Covered(init, sel, q) {
      var i :| 0 <= i < |init| && InNamespaceOf(init[i], sel, q);
      assert init[i] == ps[i];
    }
  }

  /** One file, on its own: when it declares a selected module at path
      `path`, the node there (created if need be, with the prefixes above
      it) gains that file's kept imports; nothing else changes. */
  lemma ProcessFileDeps(t: ModuleTree, p: ParsedFile, sel: string -> bool, all: seq<string>, q: seq<string>)
    ensures Selected(p, sel).None? ==> ProcessFile(t, p, sel, all) == t
    ensures Selected(p, sel).Some? ==>
      var path := ModulePath(Selected(p, sel).value);
      DepsAt(ProcessFile(t, p, sel, all), q)
        == if q == path then Some((if HasNode(t, path) then DepsAt(t, path).value else []) + FileDeps(p, sel, all))
           else if HasNode(t, q) then DepsAt(t, q)
           else if q <= path then Some([]) else None
  {
    if Selected(p, sel).Some? {
      var path := ModulePath(Selected(p, sel).value);
      var t2 := AddModule(t, path);
      AddModuleDeps(t, path, q);
      AddModuleDeps(t, path, path);
      AttachImportsDeps(t2, path, Dedup(p.imports), sel, all, q);
    }
  }

  /** The loop of lines 96-101 appends exactly the kept dependencies at
      `path` when that node exists, and touches nothing else. */
  lemma {:induction false} AttachImportsDeps(t: ModuleTree, path: seq<string>, ds: seq<string>,
                                             sel: string -> bool, all: seq<string>, q: seq<string>)
    decreases |ds|
    ensures DepsAt(AttachImports(t, path, ds, sel, all), q)
         == if q == path && HasNode(t, path) then Some(DepsAt(t, path).value + Kept(ds, sel, all))
            else DepsAt(t, q)
  {
    if |ds| == 0 {
      if q == path && HasNode(t, path) {
        assert DepsAt(t, path).value + [] == DepsAt(t, path).value;
      }
    } else {
      var init := ds[..|ds| - 1];
      var d := ds[|ds| - 1];
      var t0 := AttachImports(t, path, init, sel, all);
      AttachImportsDeps(t, path, init, sel, all, q);
      AttachImportsDeps(t, path, init, sel, all, path);
      if sel(d) && d in all {
        AddDependencyDeps(t0, path, d, q);
        if q == path && HasNode(t, path) {
          assert DepsAt(t, path).value + Kept(init, sel, all) + [d]
              == DepsAt(t, path).value + (Kept(init, sel, all) + [d]);
        }
      }
    }
  }

  /** The induction step of `BuildTreeNodes` for a file declaring a selected
      module; `eq` and `ep` stand for the reference lists, before the file,
      of `q` and of that module's path. */
  lemma BuildStep(t: ModuleTree, p: ParsedFile, sel: string -> bool, all: seq<string>, q: seq<string>,
                  eq: seq<string>, ep: seq<string>)
    requires Selected(p, sel).Some?
    requires DepsAt(t, q) == if HasNode(t, q) then Some(eq) else None
    requires eq != [] ==> HasNode(t, q)
    requires DepsAt(t, ModulePath(Selected(p, sel).value))
          == if HasNode(t, ModulePath(Selected(p, sel).value)) then Some(ep) else None
    requires ep != [] ==> HasNode(t, ModulePath(Selected(p, sel).value))
    requires q == ModulePath(Selected(p, sel).value) ==> eq == ep
    ensures HasNode(ProcessFile(t, p, sel, all), q) <==> HasNode(t, q) || q <= ModulePath(Selected(p, sel).value)
    ensures DepsAt(ProcessFile(t, p, sel, all), q)
         == if HasNode(ProcessFile(t, p, sel, all), q) then Some(eq + Contribution(p, sel, all, q)) else None
    ensures eq + Contribution(p, sel, all, q) != [] ==> HasNode(ProcessFile(t, p, sel, all), q)
  {
    var path := ModulePath(Selected(p, sel).value);
    ProcessFileDeps(t, p, sel, all, q);
    if q != path {
      assert Contribution(p, sel, all, q) == [];
      assert eq + [] == eq;
    } else {
      assert Contribution(p, sel, all, q) == FileDeps(p, sel, all);
    }
  }

  /** The nodes of the tree are the root and the prefixes of the paths of
      the selected declared modules; each carries the dependencies the
      reference assigns it. */
  lemma {:induction false} BuildTreeNodes(ps: seq<ParsedFile>, sel: string -> bool, all: seq<string>, q: seq<string>)
    decreases |ps|
    ensures HasNode(BuildTree(ps, sel, all), q) <==> q == [] || Covered(ps, sel, q)
    ensures DepsAt(BuildTree(ps, sel, all), q)
         == if HasNode(BuildTree(ps, sel, all), q) then Some(ExpectedDeps(ps, sel, all, q)) else None
    ensures ExpectedDeps(ps, sel, all, q) != [] ==> HasNode(BuildTree(ps, sel, all), q)
  {
    if |ps| > 0 {
      var init := ps[..|ps| - 1];
      var last := ps[|ps| - 1];
      var t0 := BuildTree(init, sel, all);
      BuildTreeNodes(init, sel, all, q);
      CoveredSnoc(ps, sel, q);
      assert BuildTree(ps, sel, all) == ProcessFile(t0, last, sel, all);
      assert ExpectedDeps(ps, sel, all, q) == ExpectedDeps(init, sel, all, q) + Contribution(last, sel, all, q);
      if Selected(last, sel).None? {
        ProcessFileDeps(t0, last, sel, all, q);
        assert Contribution(last, sel, all, q) == [];
        assert ExpectedDeps(ps, sel, all, q) == ExpectedDeps(init, sel, all, q);
      } else {
        var path := ModulePath(Selected(last, sel).value);
        BuildTreeNodes(init, sel, all, path);
        BuildStep(t0, last, sel, all, q, ExpectedDeps(init, sel, all, q), ExpectedDeps(init, sel, all, path));
      }
    }
  }

  /** File `p` declares the selected module at path `q` and contributes `d`
      to it. */
  predicate Contributes(p: ParsedFile, sel: string -> bool, all: seq<string>, q: seq<string>, d: string) {
    d in Contribution(p, sel, all, q)
  }

  /** Every entry of the reference list of `q` comes from some file. */
  lemma {:induction false} ContributorOf(ps: seq<ParsedFile>, sel: string -> bool, all: seq<string>, q: seq<string>, d: string)
    returns (i: nat)
    requires d in ExpectedDeps(ps, sel, all, q)
    decreases |ps|
    ensures i < |ps| && Contributes(ps[i], sel, all, q, d)
  {
    var init := ps[..|ps| - 1];
    var before := ExpectedDeps(init, sel, all, q);
    var c := Contribution(ps[|ps| - 1], sel, all, q);
    assert ExpectedDeps(ps, sel, all, q) == before + c;
    if d in before {
      i := ContributorOf(init, sel, all, q, d);
      assert ps[i] == init[i];
    } else {
      assert d in c;
      i := |ps| - 1;
    }
  }

  /** Every file's contribution to `q` is in the reference list of `q`. */
  lemma {:induction false} ContributionKept(ps: seq<ParsedFile>, sel: string -> bool, all: seq<string>, q: seq<string>, d: string, i: nat)
    requires i < |ps| && Contributes(ps[i], sel, all, q, d)
    decreases |ps|
    ensures d in ExpectedDeps(ps, sel, all, q)
  {
    var init := ps[..|ps| - 1];
    if i < |init| {
      assert init[i] == ps[i];
      ContributionKept(init, sel, all, q, d, i);
    }
  }

  /** End to end: the graph has an edge from `s` to `d` exactly when some
      file declares the selected module `s` and imports `d`, which the
      selection accepts and `all` lists. */
  lemma GraphEdgesAreImports(ps: seq<ParsedFile>, sel: string -> bool, all: seq<string>, s: string, d: string)
    ensures Edge(s, d) in GraphLines(BuildTree(ps, sel, all))
        <==> exists i :: 0 <= i < |ps| && Selected(ps[i], sel) == Some(s)
                         && d in ps[i].imports && sel(d) && d in all
  {
    if Edge(s, d) in GraphLines(BuildTree(ps, sel, all)) {
      var i := EdgeImporter(ps, sel, all, s, d);
    }
    if exists i :: 0 <= i < |ps| && Selected(ps[i], sel) == Some(s) && d in ps[i].imports && sel(d) && d in all {
      var i :| 0 <= i < |ps| && Selected(ps[i], sel) == Some(s) && d in ps[i].imports && sel(d) && d in all;
      ImporterEdge(ps, sel, all, i, d);
    }
  }

  /** An edge names a file that declares its source and imports its target. */
  lemma EdgeImporter(ps: seq<ParsedFile>, sel: string -> bool, all: seq<string>, s: string, d: string)
      returns (i: nat)
    requires Edge(s, d) in GraphLines(BuildTree(ps, sel, all))
    ensures i < |ps| && Selected(ps[i], sel) == Some(s) && d in ps[i].imports && sel(d) && d in all
  {
    var t := BuildTree(ps, sel, all);
    var q := EdgeNode(t, s, d);
    BuildTreeNodes(ps, sel, all, q);
    i := ContributorOf(ps, sel, all, q, d);
  }

  /** A selected file's accepted imports are drawn as edges from its module. */
  lemma ImporterEdge(ps: seq<ParsedFile>, sel: string -> bool, all: seq<string>, i: nat, d: string)
    requires i < |ps| && Selected(ps[i], sel).Some? && d in ps[i].imports && sel(d) && d in all
    ensures Edge(Selected(ps[i], sel).value, d) in GraphLines(BuildTree(ps, sel, all))
  {
    var t := BuildTree(ps, sel, all);
    var q := ModulePath(Selected(ps[i], sel).value);
    assert InNamespaceOf(ps[i], sel, q);
    BuildTreeNodes(ps, sel, all, q);
    assert Contributes(ps[i], sel, all, q, d);
    ContributionKept(ps, sel, all, q, d, i);
    GraphShowsEveryEdge(t, q, d);
  }

  /** Every selected declared module is drawn, as a box whose id is its
      name. */
  lemma EveryModuleDrawn(ps: seq<ParsedFile>, sel: string -> bool, all: seq<string>, i: nat)
    requires i < |ps| && Selected(ps[i], sel).Some?
    ensures HasNode(BuildTree(ps, sel, all), ModulePath(Selected(ps[i], sel).value))
    ensures BoxOf(Selected(ps[i], sel).value,
                  NodeAt(BuildTree(ps, sel, all), ModulePath(Selected(ps[i], sel).value)).value)
            in GraphLines(BuildTree(ps, sel, all))
  {
    var q := ModulePath(Selected(ps[i], sel).value);
    assert InNamespaceOf(ps[i], sel, q);
    BuildTreeNodes(ps, sel, all, q);
    GraphShowsEveryNode(BuildTree(ps, sel, all), q);
  }

  /** Every box drawn stands for a prefix of the path of some selected
      declared module. */
  lemma BoxesAreNamespaces(ps: seq<ParsedFile>, sel: string -> bool, all: seq<string>, l: Line)
    requires IsBox(l) && l in GraphLines(BuildTree(ps, sel, all))
    ensures exists q :: |q| > 0 && Covered(ps, sel, q) && l.id == JoinDots(q)
  {
    var t := BuildTree(ps, sel, all);
    GraphBoxesAreNodes(t, l);
    var q :| |q| > 0 && HasNode(t, q) && l == BoxOf(JoinDots(q), NodeAt(t, q).value);
    BuildTreeNodes(ps, sel, all, q);
  }

  /** With both walks reading names alike, an import of any declared and
      selected module is drawn. */
  lemma ImportsOfDeclaredModulesDrawn(ps: seq<ParsedFile>, sel: string -> bool, i: nat, j: nat, d: string)
    requires i < |ps| && j < |ps|
    requires Selected(ps[i], sel).Some?
    requires ps[j].name == Some(d) && sel(d)
    requires d in ps[i].imports
    ensures Edge(Selected(ps[i], sel).value, d) in GraphLines(BuildTree(ps, sel, AllModules(ps)))
  {
    var all := AllModules(ps);
    assert NameBy(ps[j], SpacePipeParen) == Some(d);
    assert d in all;
    GraphEdgesAreImports(ps, sel, all, Selected(ps[i], sel).value, d);
  }

  /** End to end, for the corrected pipeline: when a selected file imports a
      module another file declares and the selection accepts, the Markdown
      text holds the line `<importer> --> <import>`, at the returned position.
      As written this fails (`AsWrittenDropsImport`). */
  lemma DrawGraphShowsImport(files: seq<string>, sel: string -> bool, i: nat, j: nat, d: string) returns (at: nat)
    requires i < |files| && j < |files|
    requires Selected(Parse(files[i]), sel).Some?
    requires Parse(files[j]).name == Some(d) && sel(d)
    requires d in Parse(files[i]).imports
    ensures OccursAt(DrawGraph(files, sel), Text(Edge(Selected(Parse(files[i]), sel).value, d)), at)
  {
    var ps := ParseAll(files);
    var root := BuildTree(ps, sel, AllModules(ps));
    ImportsOfDeclaredModulesDrawn(ps, sel, i, j, d);
    at := LinePosition(root, Edge(Selected(ps[i], sel).value, d));
  }

  // The tokenizer mismatch between the two walks, on an example.

  function Everything(s: string): bool {
    true
  }

  /** Two files: `A`, whose export list follows its name without a space,
      and `B`, which imports `A`. */
  const Example: seq<string> := ["module A(x) where", "module B where\nimport A"]

  /** What the two walks read from `Example`. */
  const ExampleParsed: seq<ParsedFile> :=
    [ParsedFile(Some("A(x)"), Some("A"), []), ParsedFile(Some("B"), Some("B"), ["A"])]

  lemma PlainText(s: string)
    requires forall k :: 0 <= k < |s| ==> s[k] != '-' && s[k] != '{'
    ensures Plain(s)
  {
  }

  lemma NotFoundWithoutFirstChar(s: string, w: string)
    requires |w| > 0 && forall k :: 0 <= k < |s| ==> s[k] != w[0]
    ensures FindFrom(s, w, 0).None?
  {
    forall k | 0 <= k ensures !OccursAt(s, w, k) {
      if k + |w| <= |s| {
        assert s[k..k + |w|][0] == s[k];
      }
    }
    FindFromNoneIs(s, w, 0);
  }

  /** A comment-free file whose first line declares a module: each walk
      reads the name up to its own separators. */
  lemma DeclarationNames(f: string, n1: string, t1: string, n2: string, t2: string)
    requires Plain(f)
    requires f == ModuleKeyword + n1 + t1 && f == ModuleKeyword + n2 + t2
    requires OneLine(n1) && forall k :: 0 <= k < |n1| ==> !Separator(SpaceOnly)(n1[k])
    requires |t1| == 0 || Separator(SpaceOnly)(t1[0]) || IsLineTerminator(t1[0])
    requires OneLine(n2) && forall k :: 0 <= k < |n2| ==> !Separator(SpacePipeParen)(n2[k])
    requires |t2| == 0 || Separator(SpacePipeParen)(t2[0]) || IsLineTerminator(t2[0])
    ensures Parse(f).listedName == Some(n1) && Parse(f).name == Some(n2)
  {
    SanitizePlain(f);
    ModuleNameOfDeclaration(n1, t1, SpaceOnly);
    ModuleNameOfDeclaration(n2, t2, SpacePipeParen);
  }

  /** A line without the letter `i` imports nothing. */
  lemma LineWithoutImport(l: string)
    requires forall k :: 0 <= k < |l| ==> l[k] != 'i'
    ensures LineImport(l) == []
  {
    NotFoundWithoutFirstChar(l, ImportKeyword);
  }

  /** `import m` imports `m`. */
  lemma LineOfImport(m: string)
    requires forall k :: 0 <= k < |m| ==> !IsNameSeparator(m[k])
    ensures LineImport(ImportKeyword + m) == [m]
  {
    var l := ImportKeyword + m;
    FindFromIs(l, ImportKeyword, 0, 0);
    assert l[7..] == m;
    TakeUntilIs(m, m, IsNameSeparator);
  }

  lemma FirstExampleNames()
    ensures Parse(Example[0]).listedName == Some("A(x)") && Parse(Example[0]).name == Some("A")
  {
    var f := Example[0];
    PlainText(f);
    DeclarationNames(f, "A(x)", " where", "A", "(x) where");
  }

  /** A comment-free one-line file without the letter `i` imports nothing. */
  lemma NoImports(f: string)
    requires Plain(f) && OneLine(f)
    requires forall k :: 0 <= k < |f| ==> f[k] != 'i'
    ensures Parse(f).imports == []
  {
    SanitizePlain(f);
    ImportsOfOneLine(f);
    LineWithoutImport(f);
  }

  /** A comment-free file whose second and last line is `import m`. */
  lemma ImportOnSecondLine(f: string, l0: string, m: string)
    requires Plain(f) && f == l0 + ['\n'] + (ImportKeyword + m)
    requires OneLine(l0) && forall k :: 0 <= k < |l0| ==> l0[k] != 'i'
    requires OneLine(m) && forall k :: 0 <= k < |m| ==> !IsNameSeparator(m[k])
    ensures Parse(f).imports == [m]
  {
    SanitizePlain(f);
    ImportsAfterBreak(l0, '\n', ImportKeyword + m);
    LineWithoutImport(l0);
    ImportsOfOneLine(ImportKeyword + m);
    LineOfImport(m);
  }

  lemma FirstExampleImports()
    ensures Parse(Example[0]).imports == []
  {
    var f := Example[0];
    PlainText(f);
    NoImports(f);
  }

  lemma SecondExampleNames()
    ensures Parse(Example[1]).listedName == Some("B") && Parse(Example[1]).name == Some("B")
  {
    var f := Example[1];
    PlainText(f);
    DeclarationNames(f, "B", " where\nimport A", "B", " where\nimport A");
  }

  lemma SecondExampleImports()
    ensures Parse(Example[1]).imports == ["A"]
  {
    var f := Example[1];
    PlainText(f);
    assert f == "module B where" + ['\n'] + (ImportKeyword + "A");
    ImportOnSecondLine(f, "module B where", "A");
  }

  /** The first file reads as "A(x)" to `inDirModules` and as "A" to
      `makeModuleTree`; the second declares `B` and imports `A`. */
  lemma ParseExample()
    ensures ParseAll(Example) == ExampleParsed
  {
    FirstExampleNames();
    FirstExampleImports();
    SecondExampleNames();
    SecondExampleImports();
  }

  /** What the example files declare, list and import. */
  lemma ExampleSelections(ps: seq<ParsedFile>)
    requires ps == ExampleParsed
    ensures |ps| == 2 && Selected(ps[0], Everything) == Some("A") && Selected(ps[1], Everything) == Some("B")
    ensures "A" in ps[1].imports
  {
  }

  lemma AsWrittenDropsParsed(ps: seq<ParsedFile>)
    requires ps == ExampleParsed
    ensures AllModulesAsWritten(ps) == ["A(x)", "B"]
    ensures Edge("B", "A") !in GraphLines(BuildTree(ps, Everything, AllModulesAsWritten(ps)))
  {
    var all := AllModulesAsWritten(ps);
    assert ps[..1] == [ps[0]];
    assert ps[..1][..0] == [];
    assert all == ["A(x)", "B"];
    assert "A" != "A(x)" && "A" != "B";
    GraphEdgesAreImports(ps, Everything, all, "B", "A");
  }

  /** As the source stands, `B`'s import of `A` is not drawn: `inDirModules`
      lists `A` as "A(x)", so the check of line 98 rejects "A", although
      `makeModuleTree` files the first module as `A` and `B` imports it.
      The Markdown text holds the two boxes and no edge. */
  lemma AsWrittenDropsImport()
    ensures Selected(ParseAll(Example)[0], Everything) == Some("A")
    ensures Selected(ParseAll(Example)[1], Everything) == Some("B")
    ensures "A" in ParseAll(Example)[1].imports
    ensures AllModulesAsWritten(ParseAll(Example)) == ["A(x)", "B"]
    ensures Edge("B", "A") !in GraphLines(BuildTree(ParseAll(Example), Everything, AllModulesAsWritten(ParseAll(Example))))
    ensures DrawGraphAsWritten(Example, Everything) == Header + "A[A]\nB[B]\n" + Footer
  {
    ParseExample();
    ExampleSelections(ParseAll(Example));
    AsWrittenDropsParsed(ParseAll(Example));
    AsWrittenTextParsed(ParseAll(Example));
  }

  lemma AsWrittenTextParsed(ps: seq<ParsedFile>)
    requires ps == ExampleParsed
    ensures MakeGraph(BuildTree(ps, Everything, AllModulesAsWritten(ps)))
         == Header + "A[A]\nB[B]\n" + Footer
  {
    var all := AllModulesAsWritten(ps);
    AsWrittenDropsParsed(ps);
    assert "A" !in all;
    ExampleBuilt(ps, all);
    ExampleGraphWithout();
  }

  /** The tree `Example` yields: `A` and `B` under the root, `B` depending
      on `ds`. */
  function ExampleTree(ds: seq<string>): ModuleTree {
    ModuleTree(RootLabel, [], [Leaf("A"), ModuleTree("B", ds, [])])
  }

  lemma PathOfPlainName(m: string)
    requires forall k :: 0 <= k < |m| ==> !IsDot(m[k])
    ensures ModulePath(m) == [m]
  {
    SplitWithoutSeparator(m, IsDot);
  }

  lemma FirstFileBuilt(ps: seq<ParsedFile>, all: seq<string>)
    requires ps == ExampleParsed
    ensures BuildTree(ps[..1], Everything, all) == ModuleTree(RootLabel, [], [Leaf("A")])
  {
    var t0 := Leaf(RootLabel);
    assert ps[..1][..0] == [];
    assert BuildTree(ps[..1][..0], Everything, all) == t0;
    PathOfPlainName("A");
    assert Selected(ps[0], Everything) == Some("A");
    assert FindChild(t0.children, "A") == None;
    assert ["A"][1..] == [];
    assert AddModule(t0, ["A"]) == ModuleTree(RootLabel, [], [Leaf("A")]);
    assert Dedup(ps[0].imports) == [];
  }

  /** `B` joins `A` under the root, and gets `A` as its dependency exactly
      when the listed names hold "A". */
  lemma ExampleBuilt(ps: seq<ParsedFile>, all: seq<string>)
    requires ps == ExampleParsed
    ensures BuildTree(ps, Everything, all) == ExampleTree(if "A" in all then ["A"] else [])
  {
    var t1 := ModuleTree(RootLabel, [], [Leaf("A")]);
    FirstFileBuilt(ps, all);
    assert ps[..|ps| - 1] == ps[..1];
    PathOfPlainName("B");
    assert Selected(ps[1], Everything) == Some("B");
    assert FindChildFrom(t1.children, "B", 1) == None;
    assert FindChild(t1.children, "B") == None;
    assert ["B"][1..] == [];
    assert AddModule(t1, ["B"]) == ExampleTree([]);
    DedupOfOne("A");
    ImportOfBAttached(all);
  }

  lemma DedupOfOne(x: string)
    ensures Dedup([x]) == [x]
  {
    assert [x][..0] == [];
  }

  lemma ImportOfBAttached(all: seq<string>)
    ensures AttachImports(ExampleTree([]), ["B"], ["A"], Everything, all)
         == ExampleTree(if "A" in all then ["A"] else [])
  {
    var t2 := ExampleTree([]);
    assert ["A"][..0] == [];
    assert AttachImports(t2, ["B"], [], Everything, all) == t2;
    if "A" in all {
      assert FindChildFrom(t2.children, "B", 1) == Some(1);
      assert FindChild(t2.children, "B") == Some(1);
      assert ["B"][1..] == [];
      assert AddDependency(t2.children[1], [], "A") == ModuleTree("B", ["A"], []);
      assert t2.children[1 := ModuleTree("B", ["A"], [])] == [Leaf("A"), ModuleTree("B", ["A"], [])];
    }
  }

  lemma ExampleGraphWithout()
    ensures MakeGraph(ExampleTree([])) == Header + "A[A]\nB[B]\n" + Footer
  {
    assert Serialize(DepEdges("B", [])) == "";
    ExampleGraphText([], "");
    assert "A[A]\nB[B]\n" + "" == "A[A]\nB[B]\n";
  }

  lemma ExampleGraphWith()
    ensures MakeGraph(ExampleTree(["A"])) == Header + ("A[A]\nB[B]\n" + "B --> A\n") + Footer
  {
    EdgeOfB();
    ExampleGraphText(["A"], "B --> A\n");
  }

  lemma EdgeOfB()
    ensures Serialize(DepEdges("B", ["A"])) == "B --> A\n"
  {
    var e := Edge("B", "A");
    assert DepEdges("B", ["A"]) == [e];
    SerializeCons(e, []);
    assert [e] + [] == [e];
    EdgeText("B", "A");
    assert "B" + " --> " + "A" + "\n" == "B --> A\n";
  }

  lemma ExampleGraphText(ds: seq<string>, es: string)
    requires Serialize(DepEdges("B", ds)) == es
    ensures MakeGraph(ExampleTree(ds)) == Header + ("A[A]\nB[B]\n" + es) + Footer
  {
    TwoLeavesText(ExampleTree(ds), "A", "B", ds);
    ExampleBoxes(es);
  }

  /** The boxes of `A` and `B`, followed by the edge text `es`. */
  lemma ExampleBoxes(es: string)
    ensures Text(LeafBox("A", "A")) + (Text(LeafBox("B", "B")) + es) == "A[A]\nB[B]\n" + es
  {
    assert Text(LeafBox("A", "A")) == "A[A]\n";
    assert Text(LeafBox("B", "B")) == "B[B]\n";
    assert "A[A]\n" + ("B[B]\n" + es) == ("A[A]\n" + "B[B]\n") + es;
    assert "A[A]\n" + "B[B]\n" == "A[A]\nB[B]\n";
  }

  lemma CorrectedKeepsParsed(ps: seq<ParsedFile>)
    requires ps == ExampleParsed
    ensures Edge("B", "A") in GraphLines(BuildTree(ps, Everything, AllModules(ps)))
  {
    ImportsOfDeclaredModulesDrawn(ps, Everything, 1, 0, "A");
  }

  /** On the same files, reading names alike keeps the edge from `B` to `A`,
      and the Markdown text ends with it. */
  lemma CorrectedKeepsImport()
    ensures Edge("B", "A") in GraphLines(BuildTree(ParseAll(Example), Everything, AllModules(ParseAll(Example))))
    ensures DrawGraph(Example, Everything) == Header + ("A[A]\nB[B]\n" + "B --> A\n") + Footer
  {
    ParseExample();
    CorrectedKeepsParsed(ParseAll(Example));
    CorrectedTextParsed(ParseAll(Example));
  }

  lemma CorrectedTextParsed(ps: seq<ParsedFile>)
    requires ps == ExampleParsed
    ensures MakeGraph(BuildTree(ps, Everything, AllModules(ps)))
         == Header + ("A[A]\nB[B]\n" + "B --> A\n") + Footer
  {
    var all := AllModules(ps);
    assert ps[0].name == Some("A");
    assert "A" in all;
    ExampleBuilt(ps, all);
    ExampleGraphWith();
  }
}
