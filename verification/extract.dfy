/** Reading a file's declared module name and its imported module names out
    of sanitized text (src/extension.ts lines 67, 87, 93 and 96).  The keyword
    is found anywhere in the text, not only at the start of a line; the match
    runs to the end of that line; the name is token 1 of the match split on a
    separator class. */
module Extract {
  import opened Strings

  /** The two ways the source splits a matched line into tokens. */
  datatype Tokenizer =
    | SpaceOnly       // `.split(/ /g)`, line 67
    | SpacePipeParen  // `.split(/[ |\(]/g)`, lines 87 and 93

  predicate IsSpace(c: char) {
    c == ' '
  }

  predicate IsNameSeparator(c: char) {
    c == ' ' || c == '|' || c == '('
  }

  function Separator(tk: Tokenizer): char -> bool {
    match tk
    case SpaceOnly => IsSpace
    case SpacePipeParen => IsNameSeparator
  }

  const ModuleKeyword: string := "module "
  const ImportKeyword: string := "import "

  predicate IsKeyword(w: string) {
    w == ModuleKeyword || w == ImportKeyword
  }

  lemma KeywordFacts(w: string)
    requires IsKeyword(w)
    ensures |w| == 7 && w[6] == ' ' && OneLine(w) && !IsLineTerminator(w[0])
  {
  }

  lemma KeywordHasNoSeparator(w: string, tk: Tokenizer)
    requires IsKeyword(w)
    ensures forall k :: 0 <= k < 6 ==> !Separator(tk)(w[k])
  {
  }

  /** `text.match(/<keyword>.*?($|(?=(\n|\r|\r\n)))/g)`: each match runs from
      an occurrence of the keyword to the end of its line, and the search for
      the next match resumes there, so a line yields at most one match. */
  function KeywordLines(s: string, w: string): (r: seq<string>)
    requires IsKeyword(w)
    decreases |s|
    ensures forall i :: 0 <= i < |r| ==> w <= r[i] && OneLine(r[i])
  {
    match FindFrom(s, w, 0)
    case None => []
    case Some(i) =>
      var e := LineEnd(s, i + |w|);
      KeywordFacts(w);
      assert OneLine(s[i..e]) by {
        forall k | 0 <= k < e - i ensures !IsLineTerminator(s[i..e][k]) {
          if k < |w| { assert s[i..e][k] == w[k]; }
        }
      }
      [s[i..e]] + KeywordLines(s[e..], w)
  }

  /** Token 1 of a matched line: the keyword (which holds no separator before
      its closing space) is token 0, so token 1 always exists and is the
      separator-free run right after the keyword. */
  function SecondToken(line: string, tk: Tokenizer): (r: string)
    requires ModuleKeyword <= line || ImportKeyword <= line
    ensures r == TakeUntil(line[7..], Separator(tk))
    ensures OneLine(line) ==> IsToken(r, tk)
  {
    KeywordSplit(line, tk);
    var r := Split(line, Separator(tk))[1];
    assert forall k :: 0 <= k < |r| ==> r[k] == line[7 + k];
    r
  }

  /** A name as the walks read it: on one line and free of the separators
      it was split at. */
  predicate IsToken(m: string, tk: Tokenizer) {
    OneLine(m) && forall k :: 0 <= k < |m| ==> !Separator(tk)(m[k])
  }

  /** Splitting at more separators reads a prefix of the name read with
      fewer: `A` rather than `A(x)`. */
  lemma {:induction false} TakeUntilNarrower(s: string, few: char -> bool, more: char -> bool)
    requires forall c :: few(c) ==> more(c)
    ensures TakeUntil(s, more) <= TakeUntil(s, few)
  {
    if |s| > 0 && !more(s[0]) {
      TakeUntilNarrower(s[1..], few, more);
    }
  }

  lemma KeywordSplit(line: string, tk: Tokenizer)
    requires ModuleKeyword <= line || ImportKeyword <= line
    ensures |Split(line, Separator(tk))| >= 2
    ensures Split(line, Separator(tk))[1] == TakeUntil(line[7..], Separator(tk))
  {
    var w := line[..7];
    KeywordFacts(w);
    KeywordHasNoSeparator(w, tk);
    assert line == line[..6] + [line[6]] + line[7..];
    SplitAfterSeparator(line[..6], line[6], line[7..], Separator(tk));
  }

  /** The name a declaration starting at `j` gives: the longest run of
      non-separators from `j` that stays on `j`'s line. */
  function TokenAt(s: string, j: nat, tk: Tokenizer): (r: string)
    requires j <= |s|
    ensures IsToken(r, tk)
  {
    var line := s[j..LineEnd(s, j)];
    var r := TakeUntil(line, Separator(tk));
    assert forall k :: 0 <= k < |r| ==> r[k] == s[j + k];
    r
  }

  /** `text.match(/module .*?(...)/g)?.[0].split(...)[1]`: absent exactly when
      `module ` occurs nowhere; otherwise the token after the FIRST
      occurrence, whatever precedes it. */
  function ModuleName(s: string, tk: Tokenizer): (r: Option<string>)
    ensures FindFrom(s, ModuleKeyword, 0).None? ==> r.None?
    ensures FindFrom(s, ModuleKeyword, 0).Some? ==>
      r == Some(TokenAt(s, FindFrom(s, ModuleKeyword, 0).value + 7, tk))
  {
    var ms := KeywordLines(s, ModuleKeyword);
    if |ms| == 0 then None
    else
      assert FindFrom(s, ModuleKeyword, 0).Some?;
      var i := FindFrom(s, ModuleKeyword, 0).value;
      var e := LineEnd(s, i + 7);
      assert ms[0] == s[i..e];
      assert s[i..e][7..] == s[i + 7..e];
      Some(SecondToken(ms[0], tk))
  }

  /** A first line `module <n><tail>` declares `n`, when `n` holds no
      separator and the tail starts with a separator or a line break (or is
      empty): `module A.B.C where` declares `A.B.C`, and so does
      `module A.B.C(x) where` under the separator class of line 87. */
  lemma ModuleNameOfDeclaration(n: string, tail: string, tk: Tokenizer)
    requires OneLine(n)
    requires forall k :: 0 <= k < |n| ==> !Separator(tk)(n[k])
    requires |tail| == 0 || Separator(tk)(tail[0]) || IsLineTerminator(tail[0])
    ensures ModuleName(ModuleKeyword + n + tail, tk) == Some(n)
  {
    var r := n + tail;
    ConcatAssoc(ModuleKeyword, n, tail);
    var s := ModuleKeyword + r;
    assert OccursAt(s, ModuleKeyword, 0) by {
      assert s[0..7] == ModuleKeyword;
    }
    FindFromIs(s, ModuleKeyword, 0, 0);
    DeclaredToken(n, tail, tk);
    TokenShift(ModuleKeyword, r, 0, tk);
  }

  /** The token at the start of `n + tail` is `n`. */
  lemma DeclaredToken(n: string, tail: string, tk: Tokenizer)
    requires OneLine(n)
    requires forall k :: 0 <= k < |n| ==> !Separator(tk)(n[k])
    requires |tail| == 0 || Separator(tk)(tail[0]) || IsLineTerminator(tail[0])
    ensures TokenAt(n + tail, 0, tk) == n
  {
    var r := n + tail;
    forall k | 0 <= k < |n| ensures !IsLineTerminator(r[k]) {
      assert r[k] == n[k];
    }
    var e := LineEnd(r, 0);
    var line := r[0..e];
    assert line[..|n|] == n;
    if |line| > |n| {
      assert line[|n|] == tail[0];
    }
    TakeUntilIs(line, n, Separator(tk));
  }

  /** A token is read the same after any prefix. */
  lemma TokenShift(p: string, rest: string, j: nat, tk: Tokenizer)
    requires j <= |rest|
    ensures TokenAt(p + rest, |p| + j, tk) == TokenAt(rest, j, tk)
  {
    var e := LineEnd(rest, j);
    LineEndShift(p, rest, j);
    SliceShift(p, rest, j, e);
  }

  /** Every match of `import .*?(...)`, split as on line 93. */
  function Imports(s: string): (r: seq<string>)
    ensures forall i :: 0 <= i < |r| ==> IsToken(r[i], SpacePipeParen)
  {
    SecondTokens(KeywordLines(s, ImportKeyword))
  }

  function SecondTokens(ms: seq<string>): (r: seq<string>)
    requires forall i :: 0 <= i < |ms| ==> ImportKeyword <= ms[i]
    ensures |r| == |ms|
    ensures forall i :: 0 <= i < |r| && OneLine(ms[i]) ==> IsToken(r[i], SpacePipeParen)
  {
    if |ms| == 0 then []
    else [SecondToken(ms[0], SpacePipeParen)] + SecondTokens(ms[1..])
  }

  /** The import a single line contributes: the token after the first
      `import ` on it, if any. */
  function LineImport(line: string): seq<string> {
    match FindFrom(line, ImportKeyword, 0)
    case None => []
    case Some(i) => [TakeUntil(line[i + 7..], IsNameSeparator)]
  }

  function ImportsPerLine(lines: seq<string>): seq<string> {
    if |lines| == 0 then []
    else LineImport(lines[0]) + ImportsPerLine(lines[1..])
  }

  /** Matches that begin after a stretch holding no match are the matches of
      what follows the stretch. */
  lemma KeywordLinesSkip(p: string, rest: string, w: string)
    requires IsKeyword(w)
    requires forall j :: 0 <= j < |p| ==> !OccursAt(p + rest, w, j)
    ensures KeywordLines(p + rest, w) == KeywordLines(rest, w)
  {
    if FindFrom(rest, w, 0).Some? {
      var i := FindFrom(rest, w, 0).value;
      FirstMatchShift(p, rest, w, i);
      KeywordLinesSkipMatch(p, rest, w, i);
    } else {
      NoMatchShift(p, rest, w);
    }
  }

  lemma FirstMatchShift(p: string, rest: string, w: string, i: nat)
    requires forall j :: 0 <= j < |p| ==> !OccursAt(p + rest, w, j)
    requires FindFrom(rest, w, 0) == Some(i)
    ensures FindFrom(p + rest, w, 0) == Some(|p| + i)
  {
    var s := p + rest;
    OccursShift(p, rest, w, i);
    forall k | |p| <= k < |p| + i ensures !OccursAt(s, w, k) {
      OccursShift(p, rest, w, k - |p|);
    }
    FindFromIs(s, w, 0, |p| + i);
  }

  lemma NoMatchShift(p: string, rest: string, w: string)
    requires forall j :: 0 <= j < |p| ==> !OccursAt(p + rest, w, j)
    requires FindFrom(rest, w, 0).None?
    ensures FindFrom(p + rest, w, 0).None?
  {
    var s := p + rest;
    forall k | |p| <= k ensures !OccursAt(s, w, k) {
      OccursShift(p, rest, w, k - |p|);
    }
    FindFromNoneIs(s, w, 0);
  }

  /** `w` occurs in `p + rest` past `p` exactly where it occurs in `rest`. */
  lemma OccursShift(p: string, rest: string, w: string, k: nat)
    ensures OccursAt(p + rest, w, |p| + k) <==> OccursAt(rest, w, k)
  {
    if k + |w| <= |rest| {
      assert (p + rest)[|p| + k..|p| + k + |w|] == rest[k..k + |w|];
    }
  }

  lemma FindFromNoneIs(s: string, w: string, from: nat)
    requires forall k :: from <= k ==> !OccursAt(s, w, k)
    ensures FindFrom(s, w, from).None?
  {
  }

  lemma KeywordLinesSkipMatch(p: string, rest: string, w: string, i: nat)
    requires IsKeyword(w)
    requires FindFrom(rest, w, 0) == Some(i)
    requires FindFrom(p + rest, w, 0) == Some(|p| + i)
    ensures KeywordLines(p + rest, w) == KeywordLines(rest, w)
  {
    KeywordFacts(w);
    var e := LineEnd(rest, i + 7);
    LineEndShift(p, rest, i + 7);
    SliceShift(p, rest, i, e);
    SameFirstMatch(p + rest, rest, |p|, w, i, e);
  }

  /** Two texts whose first matches are the same line, followed by the same
      remainder, have the same matches. */
  lemma SameFirstMatch(s: string, r: string, n: nat, w: string, i: nat, e: nat)
    requires IsKeyword(w)
    requires FindFrom(r, w, 0) == Some(i)
    requires i + 7 <= |r| && e == LineEnd(r, i + 7)
    requires FindFrom(s, w, 0) == Some(n + i)
    requires n + (i + 7) <= |s| && n + e == LineEnd(s, n + (i + 7))
    requires s[n + i..n + e] == r[i..e] && s[n + e..] == r[e..]
    ensures KeywordLines(s, w) == KeywordLines(r, w)
  {
    KeywordLinesUnfold(r, w, i, e);
    KeywordLinesUnfoldAs(s, w, n + i, n + (i + 7), n + e, r[i..e], r[e..]);
  }

  /** `KeywordLinesUnfold` with the line and the remainder named. */
  lemma KeywordLinesUnfoldAs(s: string, w: string, i: nat, k: nat, e: nat, line: string, after: string)
    requires IsKeyword(w)
    requires FindFrom(s, w, 0) == Some(i)
    requires k == i + 7 <= |s| && e == LineEnd(s, k)
    requires s[i..e] == line && s[e..] == after
    ensures KeywordLines(s, w) == [line] + KeywordLines(after, w)
  {
    KeywordLinesUnfold(s, w, i, e);
  }

  /** One step of the global match: the line of the first occurrence, then
      the matches after that line. */
  lemma KeywordLinesUnfold(s: string, w: string, i: nat, e: nat)
    requires IsKeyword(w)
    requires FindFrom(s, w, 0) == Some(i)
    requires i + 7 <= |s| && e == LineEnd(s, i + 7)
    ensures KeywordLines(s, w) == [s[i..e]] + KeywordLines(s[e..], w)
  {
    KeywordFacts(w);
  }

  lemma SliceShift(p: string, rest: string, i: nat, e: nat)
    requires i <= e <= |rest|
    ensures (p + rest)[|p| + i..|p| + e] == rest[i..e]
    ensures (p + rest)[|p| + e..] == rest[e..]
  {
  }

  /** No keyword occurrence can straddle a line break. */
  lemma NoOccurrenceAcrossBreak(s: string, n: nat, w: string, j: nat)
    requires IsKeyword(w)
    requires n < |s| && IsLineTerminator(s[n])
    requires j <= n < j + |w|
    ensures !OccursAt(s, w, j)
  {
    KeywordFacts(w);
    if j + |w| <= |s| {
      assert s[j..j + |w|][n - j] == s[n];
    }
  }

  /** The global match finds exactly the first `import ` of every line:
      reading the sanitized text line by line gives the same imports. */
  lemma {:induction false} ImportsLineByLine(s: string)
    decreases |s|
    ensures Imports(s) == ImportsPerLine(Split(s, IsLineTerminator))
  {
    var l0 := TakeUntil(s, IsLineTerminator);
    if |l0| == |s| {
      assert l0 == s;
      SplitWithoutSeparator(s, IsLineTerminator);
      assert ImportsPerLine([s]) == LineImport(s);
      ImportsOfOneLine(s);
    } else {
      var n := |l0|;
      var rest := s[n + 1..];
      assert s == l0 + [s[n]] + rest;
      SplitAfterSeparator(l0, s[n], rest, IsLineTerminator);
      assert ImportsPerLine([l0] + Split(rest, IsLineTerminator))
          == LineImport(l0) + ImportsPerLine(Split(rest, IsLineTerminator)) by {
        assert ([l0] + Split(rest, IsLineTerminator))[1..] == Split(rest, IsLineTerminator);
      }
      ImportsLineByLine(rest);
      ImportsAfterBreak(l0, s[n], rest);
    }
  }

  lemma ImportsOfOneLine(s: string)
    requires OneLine(s)
    ensures Imports(s) == LineImport(s)
  {
    var w := ImportKeyword;
    KeywordFacts(w);
    match FindFrom(s, w, 0)
    case None =>
    case Some(i) =>
      LineEndIs(s, i + 7, |s|);
      assert s[|s|..] == [];
      assert KeywordLines([], w) == [];
      assert s[i..|s|] == s[i..];
      assert KeywordLines(s, w) == [s[i..]];
      assert s[i..][7..] == s[i + 7..];
  }

  /** A line break ends the first line's contribution. */
  lemma ImportsAfterBreak(l0: string, t: char, rest: string)
    requires OneLine(l0) && IsLineTerminator(t)
    ensures Imports(l0 + [t] + rest) == LineImport(l0) + Imports(rest)
  {
    var w := ImportKeyword;
    KeywordFacts(w);
    var s := l0 + [t] + rest;
    var n := |l0|;
    assert s[n] == t;
    forall j | 0 <= j && j + 7 <= n ensures OccursAt(s, w, j) <==> OccursAt(l0, w, j) {
      assert s[j..j + 7] == l0[j..j + 7];
    }
    forall j | 0 <= j <= n < j + 7 ensures !OccursAt(s, w, j) {
      NoOccurrenceAcrossBreak(s, n, w, j);
    }
    if FindFrom(l0, w, 0).None? {
      assert s == (l0 + [t]) + rest;
      KeywordLinesSkip(l0 + [t], rest, w);
    } else {
      var i := FindFrom(l0, w, 0).value;
      FindFromIs(s, w, 0, i);
      ImportOnFirstLine(l0, t, rest, i);
    }
  }

  lemma ImportOnFirstLine(l0: string, t: char, rest: string, i: nat)
    requires OneLine(l0) && IsLineTerminator(t)
    requires FindFrom(l0, ImportKeyword, 0) == Some(i)
    requires FindFrom(l0 + [t] + rest, ImportKeyword, 0) == Some(i)
    ensures Imports(l0 + [t] + rest) == LineImport(l0) + Imports(rest)
  {
    var w := ImportKeyword;
    var s := l0 + [t] + rest;
    var n := |l0|;
    BreakAfterLine(l0, t, rest, i, i + 7);
    KeywordLinesUnfold(s, w, i, n);
    KeywordLinesAfterBreak(t, rest, w);
    SecondTokensCons(l0[i..], KeywordLines(rest, w));
    assert l0[i..][7..] == l0[i + 7..];
  }

  /** Within the first line of `l0 + [t] + rest`, from `j` on. */
  lemma BreakAfterLine(l0: string, t: char, rest: string, i: nat, j: nat)
    requires OneLine(l0) && IsLineTerminator(t) && i <= j <= |l0|
    ensures LineEnd(l0 + [t] + rest, j) == |l0|
    ensures (l0 + [t] + rest)[|l0|..] == [t] + rest
    ensures (l0 + [t] + rest)[i..|l0|] == l0[i..]
  {
    var s := l0 + [t] + rest;
    forall k | j <= k < |l0| ensures !IsLineTerminator(s[k]) {
      assert s[k] == l0[k];
    }
    assert s[|l0|] == t;
    LineEndIs(s, j, |l0|);
    assert s[|l0|..] == [t] + rest;
    assert s[i..|l0|] == l0[i..];
  }

  /** No match starts at a line terminator. */
  lemma KeywordLinesAfterBreak(t: char, rest: string, w: string)
    requires IsLineTerminator(t) && IsKeyword(w)
    ensures KeywordLines([t] + rest, w) == KeywordLines(rest, w)
  {
    KeywordFacts(w);
    assert !OccursAt([t] + rest, w, 0) by {
      if |w| <= |[t] + rest| { assert ([t] + rest)[0..|w|][0] == t; }
    }
    KeywordLinesSkip([t], rest, w);
  }

  lemma SecondTokensCons(m: string, ms: seq<string>)
    requires ImportKeyword <= m
    requires forall i :: 0 <= i < |ms| ==> ImportKeyword <= ms[i]
    ensures SecondTokens([m] + ms) == [SecondToken(m, SpacePipeParen)] + SecondTokens(ms)
  {
    assert ([m] + ms)[1..] == ms;
  }

  /** The position of the first occurrence of `x` in `xs`. */
  function FirstIndex<T(==)>(xs: seq<T>, x: T): (r: nat)
    requires x in xs
    ensures r < |xs| && xs[r] == x
    ensures forall k :: 0 <= k < r ==> xs[k] != x
  {
    if xs[0] == x then 0 else 1 + FirstIndex(xs[1..], x)
  }

  predicate NoDuplicates<T(==)>(xs: seq<T>) {
    forall i, j :: 0 <= i < j < |xs| ==> xs[i] != xs[j]
  }

  /** `Array.from(new Set(xs))`: every element once, in the order of its
      first occurrence. */
  function Dedup(xs: seq<string>): (r: seq<string>)
    ensures forall x :: x in r <==> x in xs
    ensures NoDuplicates(r)
    ensures forall i, j :: 0 <= i < j < |r| ==> FirstIndex(xs, r[i]) < FirstIndex(xs, r[j])
  {
    if |xs| == 0 then []
    else
      var init := xs[..|xs| - 1];
      var p := Dedup(init);
      var x := xs[|xs| - 1];
      assert xs == init + [x];
      forall y | y in init ensures FirstIndex(xs, y) == FirstIndex(init, y) {
        FirstIndexOfPrefix(init, [x], y);
      }
      if x in p then p
      else
        assert FirstIndex(xs, x) == |xs| - 1;
        p + [x]
  }

  lemma FirstIndexOfPrefix<T>(a: seq<T>, b: seq<T>, y: T)
    requires y in a
    ensures FirstIndex(a + b, y) == FirstIndex(a, y)
  {
    var i := FirstIndex(a, y);
    var j := FirstIndex(a + b, y);
    assert (a + b)[i] == y;
  }
}
