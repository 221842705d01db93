/** `makeGraph` of src/extension.ts (lines 32-54): the Mermaid flowchart text
    for a module tree.  The two accumulators of the source, `subgraphs` and
    `dependencies`, become two line lists; `Text` gives each line's exact
    characters. */
module Render {
  import opened Strings
  import opened Trees

  /** One output line.  `id` is the dotted path of a node (`currentDir` plus
      its label); `caption` is the label shown. */
  datatype Line =
    | SubgraphOpen(id: string, caption: string)
    | NamespaceBox(id: string, caption: string)
    | LeafBox(id: string, caption: string)
    | End
    | Edge(src: string, dst: string)

  /** The characters of one line; every line is terminated by `\n`. */
  function Text(l: Line): (r: string)
    ensures |r| > 0 && r[|r| - 1] == '\n'
  {
    match l
    case SubgraphOpen(id, c) => "subgraph " + id + "_subgraph [" + c + "]\n"
    case NamespaceBox(id, c) => id + "[/" + c + "/]\n"
    case LeafBox(id, c) => id + "[" + c + "]\n"
    case End => "end\n"
    case Edge(s, d) => s + " --> " + d + "\n"
  }

  /** The lines' texts one after the other; a non-empty text ends a line. */
  function Serialize(ls: seq<Line>): (r: string)
    ensures |r| >= |ls|
    ensures |ls| > 0 ==> |r| > 0 && r[|r| - 1] == '\n'
  {
    if |ls| == 0 then "" else Text(ls[0]) + Serialize(ls[1..])
  }

  lemma SerializeCons(l: Line, ls: seq<Line>)
    ensures Serialize([l] + ls) == Text(l) + Serialize(ls)
  {
    assert ([l] + ls)[0] == l;
    assert ([l] + ls)[1..] == ls;
  }

  /** Where line `k` of `ls` starts in `Serialize(ls)`. */
  function Offset(ls: seq<Line>, k: nat): nat
    requires k <= |ls|
  {
    |Serialize(ls[..k])|
  }

  lemma SerializeAround(ls: seq<Line>, k: nat)
    requires k < |ls|
    ensures Serialize(ls) == Serialize(ls[..k]) + Text(ls[k]) + Serialize(ls[k + 1..])
  {
    SplitAt(ls, k);
    SerializeOfParts(ls[..k], ls[k], ls[k + 1..]);
  }

  lemma SplitAt<T>(s: seq<T>, k: nat)
    requires k < |s|
    ensures s == s[..k] + [s[k]] + s[k + 1..]
  {
  }

  lemma SerializeOfParts(a: seq<Line>, l: Line, b: seq<Line>)
    ensures Serialize(a + [l] + b) == Serialize(a) + Text(l) + Serialize(b)
  {
    assert a + [l] + b == a + ([l] + b);
    SerializeAppend(a, [l] + b);
    SerializeCons(l, b);
    ConcatAssoc(Serialize(a), Text(l), Serialize(b));
  }

  lemma OffsetNext(ls: seq<Line>, k: nat)
    requires k < |ls|
    ensures Offset(ls, k + 1) == Offset(ls, k) + |Text(ls[k])|
  {
    assert ls[..k + 1] == ls[..k] + [ls[k]];
    SerializeAppend(ls[..k], [ls[k]]);
    SerializeCons(ls[k], []);
    assert [ls[k]] + [] == [ls[k]];
  }

  lemma OccursBetween(a: string, b: string, c: string)
    ensures OccursAt(a + b + c, b, |a|)
  {
    var s := a + b + c;
    assert s[|a|..|a| + |b|] == b;
  }

  /** The text of a line list holds each line's text at that line's offset,
      and the next line starts where it ends: the lines are written in list
      order, none overlapping another. */
  lemma SerializeShowsLines(ls: seq<Line>)
    ensures Offset(ls, 0) == 0 && Offset(ls, |ls|) == |Serialize(ls)|
    ensures forall k :: 0 <= k < |ls| ==>
              OccursAt(Serialize(ls), Text(ls[k]), Offset(ls, k))
              && Offset(ls, k + 1) == Offset(ls, k) + |Text(ls[k])|
  {
    assert ls[..|ls|] == ls;
    assert ls[..0] == [];
    forall k | 0 <= k < |ls|
      ensures OccursAt(Serialize(ls), Text(ls[k]), Offset(ls, k))
      ensures Offset(ls, k + 1) == Offset(ls, k) + |Text(ls[k])|
    {
      SerializeAround(ls, k);
      OccursBetween(Serialize(ls[..k]), Text(ls[k]), Serialize(ls[k + 1..]));
      OffsetNext(ls, k);
    }
  }

  lemma {:induction false} OffsetsIncrease(ls: seq<Line>, j: nat, k: nat)
    requires j <= k <= |ls|
    decreases k - j
    ensures Offset(ls, j) <= Offset(ls, k)
  {
    if j < k {
      OffsetNext(ls, j);
      OffsetsIncrease(ls, j + 1, k);
    }
  }

  /** Only the `end` line reads `end`: every other line holds a `[` or a `>`. */
  lemma EndText(l: Line)
    ensures Text(l) == "end\n" <==> l.End?
  {
    var t := Text(l);
    assert '[' !in "end\n" && '>' !in "end\n";
    match l
    case SubgraphOpen(id, c) =>
      assert t[0] == 's';
    case NamespaceBox(id, c) =>
      assert t[|id|] == '[';
    case LeafBox(id, c) =>
      assert t[|id|] == '[';
    case End =>
    case Edge(a, d) =>
      assert t[|a| + 3] == '>';
  }

  lemma {:induction false} SerializeAppend(a: seq<Line>, b: seq<Line>)
    ensures Serialize(a + b) == Serialize(a) + Serialize(b)
  {
    if |a| == 0 {
      assert a + b == b;
    } else {
      assert (a + b)[0] == a[0];
      assert (a + b)[1..] == a[1..] + b;
      SerializeAppend(a[1..], b);
    }
  }

  predicate IsBox(l: Line) {
    l.LeafBox? || l.NamespaceBox?
  }

  /** The box drawn for node `n` under the id `id`: a namespace (trapezoid)
      box when it has children, a plain box otherwise. */
  function BoxOf(id: string, n: ModuleTree): Line {
    if |n.children| == 0 then LeafBox(id, n.name) else NamespaceBox(id, n.name)
  }

  /** Open subgraphs minus `end` lines. */
  function Depth(ls: seq<Line>): int {
    if |ls| == 0 then 0
    else (if ls[0].SubgraphOpen? then 1 else if ls[0].End? then -1 else 0) + Depth(ls[1..])
  }

  /** Every `end` closes an open subgraph and every subgraph is closed. */
  predicate Nested(ls: seq<Line>) {
    Depth(ls) == 0 && forall k :: 0 <= k <= |ls| ==> Depth(ls[..k]) >= 0
  }

  /** Each `subgraph` line is followed by the namespace box of the same node,
      and each namespace box follows the `subgraph` line of its node. */
  predicate Paired(ls: seq<Line>) {
    && (forall k :: 0 <= k < |ls| && ls[k].SubgraphOpen? ==>
          k + 1 < |ls| && ls[k + 1] == NamespaceBox(ls[k].id, ls[k].caption))
    && (forall k :: 0 <= k < |ls| && ls[k].NamespaceBox? ==>
          0 < k && ls[k - 1] == SubgraphOpen(ls[k].id, ls[k].caption))
  }

  lemma {:induction false} DepthAppend(a: seq<Line>, b: seq<Line>)
    ensures Depth(a + b) == Depth(a) + Depth(b)
  {
    if |a| == 0 {
      assert a + b == b;
    } else {
      assert (a + b)[0] == a[0];
      assert (a + b)[1..] == a[1..] + b;
      DepthAppend(a[1..], b);
    }
  }

  lemma NestedAppend(a: seq<Line>, b: seq<Line>)
    requires Nested(a) && Nested(b)
    ensures Nested(a + b)
  {
    DepthAppend(a, b);
    forall k | 0 <= k <= |a + b| ensures Depth((a + b)[..k]) >= 0 {
      if k <= |a| {
        assert (a + b)[..k] == a[..k];
      } else {
        assert (a + b)[..k] == a + b[..k - |a|];
        DepthAppend(a, b[..k - |a|]);
        assert a[..|a|] == a;
      }
    }
  }

  lemma NestedWrap(o: Line, x: Line, body: seq<Line>)
    requires o.SubgraphOpen? && x.NamespaceBox? && Nested(body)
    ensures Nested([o, x] + body + [End])
  {
    var ls := [o, x] + body + [End];
    DepthAppend([o, x] + body, [End]);
    DepthAppend([o, x], body);
    forall k | 0 <= k <= |ls| ensures Depth(ls[..k]) >= 0 {
      if 2 <= k <= |body| + 2 {
        assert ls[..k] == [o, x] + body[..k - 2];
        DepthAppend([o, x], body[..k - 2]);
      } else if k == |ls| {
        assert ls[..k] == ls;
      } else if k == 1 {
        assert ls[..k] == [o];
      } else {
        assert k == 0;
      }
    }
  }

  lemma PairedAppend(a: seq<Line>, b: seq<Line>)
    requires Paired(a) && Paired(b)
    ensures Paired(a + b)
  {
    var ls := a + b;
    forall k | 0 <= k < |ls| && ls[k].NamespaceBox?
      ensures 0 < k && ls[k - 1] == SubgraphOpen(ls[k].id, ls[k].caption)
    {
      if k >= |a| { assert ls[k] == b[k - |a|]; }
    }
  }

  lemma PairedWrap(id: string, c: string, body: seq<Line>)
    requires Paired(body)
    ensures Paired([SubgraphOpen(id, c), NamespaceBox(id, c)] + body + [End])
  {
    var ls := [SubgraphOpen(id, c), NamespaceBox(id, c)] + body + [End];
    forall k | 0 <= k < |ls| && ls[k].SubgraphOpen?
      ensures k + 1 < |ls| && ls[k + 1] == NamespaceBox(ls[k].id, ls[k].caption)
    {
      if 2 <= k < |ls| - 1 { assert ls[k] == body[k - 2]; }
    }
    forall k | 0 <= k < |ls| && ls[k].NamespaceBox?
      ensures 0 < k && ls[k - 1] == SubgraphOpen(ls[k].id, ls[k].caption)
    {
      if 2 <= k < |ls| - 1 { assert ls[k] == body[k - 2]; }
    }
  }

  /** The `subgraphs` text `loopFunc(t, dir)` adds: pre-order, one box per
      node, each node with children wrapped in its own subgraph. */
  function Boxes(t: ModuleTree, dir: string): (r: seq<Line>)
    decreases t, 1
    ensures forall l :: l in r ==> !l.Edge?
    ensures Nested(r) && Paired(r)
  {
    var id := dir + t.name;
    if |t.children| == 0 then
      assert [LeafBox(id, t.name)][..1] == [LeafBox(id, t.name)];
      [LeafBox(id, t.name)]
    else
      var body := ChildBoxes(t, id + ".", 0);
      NestedWrap(SubgraphOpen(id, t.name), NamespaceBox(id, t.name), body);
      PairedWrap(id, t.name, body);
      [SubgraphOpen(id, t.name), NamespaceBox(id, t.name)] + body + [End]
  }

  /** The `subgraphs` text of children `i..` of `t`, each drawn under `dir`. */
  function ChildBoxes(t: ModuleTree, dir: string, i: nat): (r: seq<Line>)
    requires i <= |t.children|
    decreases t, 0, |t.children| - i
    ensures forall l :: l in r ==> !l.Edge?
    ensures Nested(r) && Paired(r)
  {
    if i == |t.children| then []
    else
      var a := Boxes(t.children[i], dir);
      var b := ChildBoxes(t, dir, i + 1);
      NestedAppend(a, b);
      PairedAppend(a, b);
      a + b
  }

  /** One edge per dependency of the node with id `id`, in list order. */
  function DepEdges(id: string, deps: seq<string>): (r: seq<Line>)
    ensures |r| == |deps|
    ensures forall k :: 0 <= k < |deps| ==> r[k] == Edge(id, deps[k])
  {
    if |deps| == 0 then [] else [Edge(id, deps[0])] + DepEdges(id, deps[1..])
  }

  /** The `dependencies` text `loopFunc(t, dir)` adds: the children's edges
      first, then the node's own. */
  function Edges(t: ModuleTree, dir: string): (r: seq<Line>)
    decreases t, 1
    ensures forall l :: l in r ==> l.Edge?
  {
    var id := dir + t.name;
    ChildEdges(t, id + ".", 0) + DepEdges(id, t.dependencies)
  }

  function ChildEdges(t: ModuleTree, dir: string, i: nat): (r: seq<Line>)
    requires i <= |t.children|
    decreases t, 0, |t.children| - i
    ensures forall l :: l in r ==> l.Edge?
  {
    if i == |t.children| then []
    else Edges(t.children[i], dir) + ChildEdges(t, dir, i + 1)
  }

  /** All lines of the graph of `root`: its children are drawn with an empty
      `currentDir`; the root itself is never drawn. */
  function GraphLines(root: ModuleTree): (r: seq<Line>)
    ensures forall k :: 0 <= k < |r| ==> (r[k].Edge? <==> k >= |ChildBoxes(root, "", 0)|)
  {
    BoxesThenEdges(ChildBoxes(root, "", 0), ChildEdges(root, "", 0));
    ChildBoxes(root, "", 0) + ChildEdges(root, "", 0)
  }

  const Header := "```mermaid\nflowchart LR\n"
  const Footer := "```"

  /** `makeGraph(moduleTree)`: the Mermaid code fence opens the text and
      closes it, and between them lies exactly the text of the graph's lines
      (`MakeGraphShowsLine` says where each one sits). */
  function MakeGraph(root: ModuleTree): (r: string)
    ensures |r| >= |Header| + |Footer|
    ensures Header <= r && r[|r| - |Footer|..] == Footer
    ensures |r| == |Header| + |Serialize(GraphLines(root))| + |Footer|
  {
    var r := Header + Serialize(GraphLines(root)) + Footer;
    assert r[|r| - |Footer|..] == Footer;
    r
  }

  /** Every line of the graph appears in `makeGraph`'s text after the
      header, at `|Header|` plus its offset `i`; `LinesInOrder` puts the
      lines in list order without overlap, and `GraphLines` puts every box
      before every edge, so all box text comes before all edge text. */
  lemma MakeGraphShowsLine(root: ModuleTree, k: nat, i: nat)
    requires k < |GraphLines(root)| && i == Offset(GraphLines(root), k)
    ensures OccursAt(MakeGraph(root), Text(GraphLines(root)[k]), |Header| + i)
    ensures |Header| + i + |Text(GraphLines(root)[k])| <= |MakeGraph(root)| - |Footer|
  {
    var ls := GraphLines(root);
    assert MakeGraph(root) == Header + Serialize(ls) + Footer;
    LineOccurs(ls, k, i);
    OccursLifted(Header, Serialize(ls), Footer, Text(ls[k]), i);
  }

  lemma LineOccurs(ls: seq<Line>, k: nat, i: nat)
    requires k < |ls| && i == Offset(ls, k)
    ensures OccursAt(Serialize(ls), Text(ls[k]), i)
  {
    SerializeAround(ls, k);
    OccursBetween(Serialize(ls[..k]), Text(ls[k]), Serialize(ls[k + 1..]));
  }

  /** Where a line of the graph sits in `makeGraph`'s text. */
  lemma LinePosition(root: ModuleTree, l: Line) returns (at: nat)
    requires l in GraphLines(root)
    ensures OccursAt(MakeGraph(root), Text(l), at)
  {
    var ls := GraphLines(root);
    var k :| 0 <= k < |ls| && ls[k] == l;
    MakeGraphShowsLine(root, k, Offset(ls, k));
    at := |Header| + Offset(ls, k);
  }

  lemma LinesInOrder(ls: seq<Line>)
    ensures forall j, k :: 0 <= j < k < |ls| ==> Offset(ls, j) + |Text(ls[j])| <= Offset(ls, k)
  {
    forall j, k | 0 <= j < k < |ls|
      ensures Offset(ls, j) + |Text(ls[j])| <= Offset(ls, k)
    {
      OffsetNext(ls, j);
      OffsetsIncrease(ls, j + 1, k);
    }
  }

  /** An occurrence inside `s` is one inside `p + s + q`, shifted by `|p|`. */
  lemma OccursLifted(p: string, s: string, q: string, w: string, i: nat)
    requires OccursAt(s, w, i)
    ensures OccursAt(p + s + q, w, |p| + i)
  {
    var t := p + s + q;
    assert t[|p| + i..|p| + i + |w|] == s[i..i + |w|];
  }

  /** Every node of `t`, paired with the id it is drawn under. */
  function Listing(t: ModuleTree, dir: string): set<(string, ModuleTree)>
    decreases t, 1
  {
    {(dir + t.name, t)} + ChildListing(t, dir + t.name + ".", 0)
  }

  function ChildListing(t: ModuleTree, dir: string, i: nat): set<(string, ModuleTree)>
    requires i <= |t.children|
    decreases t, 0, |t.children| - i
  {
    if i == |t.children| then {} else Listing(t.children[i], dir) + ChildListing(t, dir, i + 1)
  }

  lemma JoinDotsCons(a: string, q: seq<string>)
    requires |q| > 0
    ensures JoinDots([a] + q) == a + "." + JoinDots(q)
  {
    assert ([a] + q)[1..] == q;
  }

  /** The id of a node below `a`, drawn under `dir`. */
  lemma IdOfChild(dir: string, a: string, q: seq<string>)
    requires |q| > 0
    ensures dir + a + "." + JoinDots(q) == dir + JoinDots([a] + q)
  {
    JoinDotsCons(a, q);
    var j := JoinDots(q);
    ConcatAssoc(dir + a, ".", j);
    ConcatAssoc(dir, a, "." + j);
    ConcatAssoc(a, ".", j);
  }

  lemma {:induction false} ChildListingHas(t: ModuleTree, dir: string, i: nat, j: nat)
    requires i <= j < |t.children|
    decreases j - i
    ensures Listing(t.children[j], dir) <= ChildListing(t, dir, i)
  {
    if i < j { ChildListingHas(t, dir, i + 1, j); }
  }

  lemma {:induction false} ChildListingFrom(t: ModuleTree, dir: string, i: nat, x: (string, ModuleTree))
    requires i <= |t.children| && x in ChildListing(t, dir, i)
    decreases |t.children| - i
    ensures exists j :: i <= j < |t.children| && x in Listing(t.children[j], dir)
  {
    if x !in Listing(t.children[i], dir) { ChildListingFrom(t, dir, i + 1, x); }
  }

  /** Every node reachable by a path of labels is listed, under the id made of
      that path. */
  lemma {:induction false} ListingComplete(t: ModuleTree, dir: string, q: seq<string>)
    requires HasNode(t, q)
    decreases |q|, 1
    ensures (dir + JoinDots([t.name] + q), NodeAt(t, q).value) in Listing(t, dir)
  {
    if |q| > 0 {
      ChildListingComplete(t, dir + t.name + ".", q);
      IdOfChild(dir, t.name, q);
    }
  }

  lemma {:induction false} ChildListingComplete(t: ModuleTree, dir: string, q: seq<string>)
    requires |q| > 0 && HasNode(t, q)
    decreases |q|, 0
    ensures (dir + JoinDots(q), NodeAt(t, q).value) in ChildListing(t, dir, 0)
  {
    var k := FindChild(t.children, q[0]).value;
    ListingComplete(t.children[k], dir, q[1..]);
    assert [t.children[k].name] + q[1..] == q;
    ChildListingHas(t, dir, 0, k);
  }

  /** With distinct sibling labels, every listed node is the one its id's
      path leads to. */
  lemma {:induction false} ListingSound(t: ModuleTree, dir: string, x: (string, ModuleTree))
    requires UniqueLabels(t) && x in Listing(t, dir)
    decreases t, 1
    ensures exists q :: NodeAt(t, q) == Some(x.1) && x.0 == dir + JoinDots([t.name] + q)
  {
    if x == (dir + t.name, t) {
      assert NodeAt(t, []) == Some(x.1) && x.0 == dir + JoinDots([t.name] + []);
    } else {
      ChildListingSound(t, dir + t.name + ".", x);
      var q :| |q| > 0 && NodeAt(t, q) == Some(x.1) && x.0 == dir + t.name + "." + JoinDots(q);
      IdOfChild(dir, t.name, q);
    }
  }

  lemma {:induction false} ChildListingSound(t: ModuleTree, dir: string, x: (string, ModuleTree))
    requires UniqueLabels(t) && x in ChildListing(t, dir, 0)
    decreases t, 0
    ensures exists q :: |q| > 0 && NodeAt(t, q) == Some(x.1) && x.0 == dir + JoinDots(q)
  {
    ChildListingFrom(t, dir, 0, x);
    var j :| 0 <= j < |t.children| && x in Listing(t.children[j], dir);
    var c := t.children[j];
    ListingSound(c, dir, x);
    var q' :| NodeAt(c, q') == Some(x.1) && x.0 == dir + JoinDots([c.name] + q');
    var q := [c.name] + q';
    FindChildIs(t.children, c.name, Some(j));
    assert q[1..] == q';
    assert NodeAt(t, q) == NodeAt(c, q');
  }

  /** The boxes of `loopFunc(t, dir)` are exactly the boxes of the listed
      nodes. */
  lemma {:induction false} BoxesShowListing(t: ModuleTree, dir: string, l: Line)
    requires IsBox(l)
    decreases t, 1
    ensures l in Boxes(t, dir) <==> exists x :: x in Listing(t, dir) && l == BoxOf(x.0, x.1)
  {
    var id := dir + t.name;
    var own := (id, t);
    var rest := ChildListing(t, id + ".", 0);
    assert Listing(t, dir) == {own} + rest;
    ChildBoxesShowListing(t, id + ".", 0, l);
    if |t.children| == 0 {
      assert rest == {};
      assert Boxes(t, dir) == [BoxOf(id, t)];
    } else {
      var body := ChildBoxes(t, id + ".", 0);
      assert Boxes(t, dir) == [SubgraphOpen(id, t.name), BoxOf(id, t)] + body + [End];
      assert l in Boxes(t, dir) <==> l == BoxOf(id, t) || l in body;
    }
    if l == BoxOf(id, t) {
      assert own in Listing(t, dir) && l == BoxOf(own.0, own.1);
    }
    if l in Boxes(t, dir) && l != BoxOf(id, t) {
      var x :| x in rest && l == BoxOf(x.0, x.1);
      assert x in Listing(t, dir);
    }
  }

  lemma {:induction false} ChildBoxesShowListing(t: ModuleTree, dir: string, i: nat, l: Line)
    requires IsBox(l) && i <= |t.children|
    decreases t, 0, |t.children| - i
    ensures l in ChildBoxes(t, dir, i) <==> exists x :: x in ChildListing(t, dir, i) && l == BoxOf(x.0, x.1)
  {
    if i < |t.children| {
      BoxesShowListing(t.children[i], dir, l);
      ChildBoxesShowListing(t, dir, i + 1, l);
    }
  }

  lemma {:induction false} EdgesShowListing(t: ModuleTree, dir: string, s: string, d: string)
    decreases t, 1
    ensures Edge(s, d) in Edges(t, dir) <==> exists x :: x in Listing(t, dir) && x.0 == s && d in x.1.dependencies
  {
    var id := dir + t.name;
    var rest := ChildListing(t, id + ".", 0);
    assert Listing(t, dir) == {(id, t)} + rest;
    ChildEdgesShowListing(t, id + ".", 0, s, d);
    var own := DepEdges(id, t.dependencies);
    assert Edge(s, d) in own <==> s == id && d in t.dependencies by {
      if Edge(s, d) in own {
        var k :| 0 <= k < |own| && own[k] == Edge(s, d);
      }
      if s == id && d in t.dependencies {
        var k :| 0 <= k < |t.dependencies| && t.dependencies[k] == d;
        assert own[k] == Edge(s, d);
      }
    }
    assert Edge(s, d) in Edges(t, dir) <==> Edge(s, d) in ChildEdges(t, id + ".", 0) || Edge(s, d) in own;
    if s == id && d in t.dependencies {
      assert (id, t) in Listing(t, dir);
    }
    if Edge(s, d) in ChildEdges(t, id + ".", 0) {
      var x :| x in rest && x.0 == s && d in x.1.dependencies;
      assert x in Listing(t, dir);
    }
  }

  lemma {:induction false} ChildEdgesShowListing(t: ModuleTree, dir: string, i: nat, s: string, d: string)
    requires i <= |t.children|
    decreases t, 0, |t.children| - i
    ensures Edge(s, d) in ChildEdges(t, dir, i) <==> exists x :: x in ChildListing(t, dir, i) && x.0 == s && d in x.1.dependencies
  {
    if i < |t.children| {
      EdgesShowListing(t.children[i], dir, s, d);
      ChildEdgesShowListing(t, dir, i + 1, s, d);
    }
  }

  /** Every dependency recorded at a node below the root is drawn as an edge
      from the node's dotted path. */
  lemma GraphShowsEveryEdge(root: ModuleTree, q: seq<string>, d: string)
    requires |q| > 0 && HasNode(root, q) && d in DepsAt(root, q).value
    ensures Edge(JoinDots(q), d) in GraphLines(root)
  {
    ChildListingComplete(root, "", q);
    ChildEdgesShowListing(root, "", 0, JoinDots(q), d);
    assert "" + JoinDots(q) == JoinDots(q);
  }

  /** With distinct sibling labels, every edge drawn is a recorded dependency
      of the node its source names. */
  lemma GraphEdgesAreDependencies(root: ModuleTree, s: string, d: string)
    requires UniqueLabels(root) && Edge(s, d) in GraphLines(root)
    ensures exists q :: |q| > 0 && HasNode(root, q) && d in DepsAt(root, q).value && s == JoinDots(q)
  {
    var q := EdgeNode(root, s, d);
  }

  /** The node an edge is drawn from, given by its path. */
  lemma EdgeNode(root: ModuleTree, s: string, d: string) returns (q: seq<string>)
    requires UniqueLabels(root) && Edge(s, d) in GraphLines(root)
    ensures |q| > 0 && HasNode(root, q) && d in DepsAt(root, q).value && s == JoinDots(q)
  {
    assert Edge(s, d) in ChildEdges(root, "", 0);
    ChildEdgesShowListing(root, "", 0, s, d);
    var x :| x in ChildListing(root, "", 0) && x.0 == s && d in x.1.dependencies;
    ChildListingSound(root, "", x);
    q :| |q| > 0 && NodeAt(root, q) == Some(x.1) && x.0 == "" + JoinDots(q);
    assert "" + JoinDots(q) == JoinDots(q);
  }

  /** Every node below the root gets its box, under its dotted path. */
  lemma GraphShowsEveryNode(root: ModuleTree, q: seq<string>)
    requires |q| > 0 && HasNode(root, q)
    ensures BoxOf(JoinDots(q), NodeAt(root, q).value) in GraphLines(root)
  {
    ChildListingComplete(root, "", q);
    ChildBoxesShowListing(root, "", 0, BoxOf(JoinDots(q), NodeAt(root, q).value));
    assert "" + JoinDots(q) == JoinDots(q);
  }

  /** With distinct sibling labels, every box drawn is the box of the node its
      id leads to. */
  lemma GraphBoxesAreNodes(root: ModuleTree, l: Line)
    requires UniqueLabels(root) && IsBox(l) && l in GraphLines(root)
    ensures exists q :: |q| > 0 && HasNode(root, q) && l == BoxOf(JoinDots(q), NodeAt(root, q).value)
  {
    assert l in ChildBoxes(root, "", 0);
    ChildBoxesShowListing(root, "", 0, l);
    var x :| x in ChildListing(root, "", 0) && l == BoxOf(x.0, x.1);
    ChildListingSound(root, "", x);
    var q :| |q| > 0 && NodeAt(root, q) == Some(x.1) && x.0 == "" + JoinDots(q);
    assert "" + JoinDots(q) == JoinDots(q);
  }

  // Counting the output lines.

  /** The number of `end` lines in `ls`. */
  function Ends(ls: seq<Line>): nat {
    if |ls| == 0 then 0 else (if ls[0].End? then 1 else 0) + Ends(ls[1..])
  }

  lemma {:induction false} EndsAppend(a: seq<Line>, b: seq<Line>)
    ensures Ends(a + b) == Ends(a) + Ends(b)
  {
    if |a| == 0 {
      assert a + b == b;
    } else {
      assert (a + b)[0] == a[0];
      assert (a + b)[1..] == a[1..] + b;
      EndsAppend(a[1..], b);
    }
  }

  /** The nodes of `t` (itself included) that have children. */
  function InnerNodes(t: ModuleTree): nat
    decreases t, 1
  {
    (if |t.children| == 0 then 0 else 1) + InnerNodesFrom(t, 0)
  }

  function InnerNodesFrom(t: ModuleTree, i: nat): nat
    requires i <= |t.children|
    decreases t, 0, |t.children| - i
  {
    if i == |t.children| then 0 else InnerNodes(t.children[i]) + InnerNodesFrom(t, i + 1)
  }

  /** The dependency entries of all nodes of `t`, itself included. */
  function DepEntries(t: ModuleTree): nat
    decreases t, 1
  {
    |t.dependencies| + DepEntriesFrom(t, 0)
  }

  function DepEntriesFrom(t: ModuleTree, i: nat): nat
    requires i <= |t.children|
    decreases t, 0, |t.children| - i
  {
    if i == |t.children| then 0 else DepEntries(t.children[i]) + DepEntriesFrom(t, i + 1)
  }

  /** One `end` line per node with children. */
  lemma {:induction false} EndsOfBoxes(t: ModuleTree, dir: string)
    decreases t, 1
    ensures Ends(Boxes(t, dir)) == InnerNodes(t)
  {
    var id := dir + t.name;
    if |t.children| == 0 {
      assert Boxes(t, dir) == [LeafBox(id, t.name)];
      assert InnerNodesFrom(t, 0) == 0;
    } else {
      var body := ChildBoxes(t, id + ".", 0);
      EndsOfChildBoxes(t, id + ".", 0);
      EndsAppend([SubgraphOpen(id, t.name), NamespaceBox(id, t.name)], body);
      EndsAppend([SubgraphOpen(id, t.name), NamespaceBox(id, t.name)] + body, [End]);
    }
  }

  lemma {:induction false} EndsOfChildBoxes(t: ModuleTree, dir: string, i: nat)
    requires i <= |t.children|
    decreases t, 0, |t.children| - i
    ensures Ends(ChildBoxes(t, dir, i)) == InnerNodesFrom(t, i)
  {
    if i < |t.children| {
      EndsOfBoxes(t.children[i], dir);
      EndsOfChildBoxes(t, dir, i + 1);
      EndsAppend(Boxes(t.children[i], dir), ChildBoxes(t, dir, i + 1));
    }
  }

  /** One edge line per dependency entry. */
  lemma {:induction false} EdgeCount(t: ModuleTree, dir: string)
    decreases t, 1
    ensures |Edges(t, dir)| == DepEntries(t)
  {
    EdgeCountFrom(t, dir + t.name + ".", 0);
  }

  lemma {:induction false} EdgeCountFrom(t: ModuleTree, dir: string, i: nat)
    requires i <= |t.children|
    decreases t, 0, |t.children| - i
    ensures |ChildEdges(t, dir, i)| == DepEntriesFrom(t, i)
  {
    if i < |t.children| {
      EdgeCount(t.children[i], dir);
      EdgeCountFrom(t, dir, i + 1);
    }
  }

  /** The graph has one `end` line per node below the root that has
      children, and one edge line per dependency entry of a node below the
      root. */
  lemma GraphCounts(root: ModuleTree)
    ensures Ends(GraphLines(root)) == InnerNodesFrom(root, 0)
    ensures |ChildEdges(root, "", 0)| == DepEntriesFrom(root, 0)
  {
    var bs := ChildBoxes(root, "", 0);
    var es := ChildEdges(root, "", 0);
    EndsOfChildBoxes(root, "", 0);
    EndsAppend(bs, es);
    NoEnds(es);
    EdgeCountFrom(root, "", 0);
  }

  lemma {:induction false} NoEnds(es: seq<Line>)
    requires forall l :: l in es ==> l.Edge?
    ensures Ends(es) == 0
  {
    if |es| > 0 {
      assert es[0] in es;
      assert forall l :: l in es[1..] ==> l in es;
      NoEnds(es[1..]);
    }
  }

  /** The graph's `subgraph`/`end` lines nest properly and each subgraph
      opens with its namespace box. */
  lemma GraphWellFormed(root: ModuleTree)
    ensures Nested(ChildBoxes(root, "", 0)) && Paired(ChildBoxes(root, "", 0))
    ensures forall k :: 0 <= k < |GraphLines(root)| ==>
              (GraphLines(root)[k].Edge? <==> k >= |ChildBoxes(root, "", 0)|)
  {
    BoxesThenEdges(ChildBoxes(root, "", 0), ChildEdges(root, "", 0));
  }

  /** Boxes followed by edges: a line is an edge exactly when it comes after
      the last box. */
  lemma BoxesThenEdges(bs: seq<Line>, es: seq<Line>)
    requires forall l :: l in bs ==> !l.Edge?
    requires forall l :: l in es ==> l.Edge?
    ensures forall k :: 0 <= k < |bs + es| ==> ((bs + es)[k].Edge? <==> k >= |bs|)
  {
    forall k | 0 <= k < |bs + es| ensures (bs + es)[k].Edge? <==> k >= |bs| {
      if k < |bs| { assert (bs + es)[k] == bs[k] && bs[k] in bs; }
      else { assert (bs + es)[k] == es[k - |bs|] && es[k - |bs|] in es; }
    }
  }

  lemma {:induction false} ChildrenDecide(r1: ModuleTree, r2: ModuleTree, i: nat)
    requires r1.children == r2.children && i <= |r1.children|
    decreases |r1.children| - i
    ensures ChildBoxes(r1, "", i) == ChildBoxes(r2, "", i)
    ensures ChildEdges(r1, "", i) == ChildEdges(r2, "", i)
  {
    if i < |r1.children| {
      ChildrenDecide(r1, r2, i + 1);
      var c := r1.children[i];
      assert r2.children[i] == c;
      assert ChildBoxes(r1, "", i) == Boxes(c, "") + ChildBoxes(r1, "", i + 1);
      assert ChildBoxes(r2, "", i) == Boxes(c, "") + ChildBoxes(r2, "", i + 1);
      assert ChildEdges(r1, "", i) == Edges(c, "") + ChildEdges(r1, "", i + 1);
      assert ChildEdges(r2, "", i) == Edges(c, "") + ChildEdges(r2, "", i + 1);
    }
  }

  /** The root's own label and dependencies never reach the output. */
  lemma GraphIgnoresRoot(r1: ModuleTree, r2: ModuleTree)
    requires r1.children == r2.children
    ensures MakeGraph(r1) == MakeGraph(r2)
  {
    ChildrenDecide(r1, r2, 0);
  }

  /** Two leaves `a` and `b` under the root, `b` depending on `ds`: two
      plain boxes, then `b`'s edges. */
  lemma TwoLeavesLines(root: ModuleTree, a: string, b: string, ds: seq<string>)
    requires root.children == [Leaf(a), ModuleTree(b, ds, [])]
    ensures GraphLines(root) == [LeafBox(a, a), LeafBox(b, b)] + DepEdges(b, ds)
  {
    var la := Leaf(a);
    var lb := ModuleTree(b, ds, []);
    assert "" + a == a && "" + b == b;
    assert Boxes(la, "") == [LeafBox(a, a)];
    assert Boxes(lb, "") == [LeafBox(b, b)];
    assert ChildBoxes(root, "", 2) == [];
    assert ChildBoxes(root, "", 1) == [LeafBox(b, b)];
    assert ChildBoxes(root, "", 0) == [LeafBox(a, a), LeafBox(b, b)];
    assert ChildEdges(la, a + ".", 0) == [] && DepEdges(a, []) == [];
    assert Edges(la, "") == [];
    assert ChildEdges(lb, b + ".", 0) == [];
    assert Edges(lb, "") == DepEdges(b, ds);
    assert ChildEdges(root, "", 2) == [];
    assert ChildEdges(root, "", 0) == DepEdges(b, ds);
  }

  lemma TwoLeavesText(root: ModuleTree, a: string, b: string, ds: seq<string>)
    requires root.children == [Leaf(a), ModuleTree(b, ds, [])]
    ensures MakeGraph(root) == Header + (Text(LeafBox(a, a)) + (Text(LeafBox(b, b)) + Serialize(DepEdges(b, ds)))) + Footer
  {
    TwoLeavesLines(root, a, b, ds);
    SerializeTwo(LeafBox(a, a), LeafBox(b, b), DepEdges(b, ds));
  }

  lemma EdgeText(a: string, d: string)
    ensures Serialize([]) == "" && Text(Edge(a, d)) + "" == a + " --> " + d + "\n"
  {
  }

  lemma SerializeTwo(x: Line, y: Line, es: seq<Line>)
    ensures Serialize([x, y] + es) == Text(x) + (Text(y) + Serialize(es))
  {
    assert [x, y] + es == [x] + ([y] + es);
    SerializeCons(x, [y] + es);
    SerializeCons(y, es);
  }
}
