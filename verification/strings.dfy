/** Character- and sequence-level helpers shared by the comment stripper, the
    declaration extractor, the tree builder and the renderer.  Strings are
    `seq<char>`; only '\n' and '\r' count as line terminators. */
module Strings {

  datatype Option<+T> = None | Some(value: T)

  predicate IsLineTerminator(c: char) {
    c == '\n' || c == '\r'
  }

  predicate IsDot(c: char) {
    c == '.'
  }

  /** `s` holds no line terminator: it lies within one line. */
  predicate OneLine(s: string) {
    forall k :: 0 <= k < |s| ==> !IsLineTerminator(s[k])
  }

  /** The line terminators of `s`, in order: what the comment strippers must
      not disturb. */
  function LineBreaks(s: string): string {
    if |s| == 0 then []
    else (if IsLineTerminator(s[0]) then [s[0]] else []) + LineBreaks(s[1..])
  }

  lemma {:induction false} LineBreaksOfOneLine(s: string)
    ensures OneLine(s) <==> LineBreaks(s) == []
  {
    if |s| > 0 {
      LineBreaksOfOneLine(s[1..]);
      if !IsLineTerminator(s[0]) {
        assert OneLine(s) <==> OneLine(s[1..]) by {
          if OneLine(s[1..]) {
            forall k | 0 <= k < |s| ensures !IsLineTerminator(s[k]) {
              if k > 0 { assert s[k] == s[1..][k - 1]; }
            }
          }
        }
      }
    }
  }

  /** Dropping a prefix that lies within one line keeps the line breaks. */
  lemma {:induction false} LineBreaksDropOneLine(s: string, n: nat)
    requires n <= |s| && OneLine(s[..n])
    ensures LineBreaks(s) == LineBreaks(s[n..])
  {
    if n > 0 {
      assert s[..n][0] == s[0];
      assert s[1..][..n - 1] == s[..n][1..];
      LineBreaksDropOneLine(s[1..], n - 1);
      assert s[1..][n - 1..] == s[n..];
    }
  }

  lemma ConcatAssoc<T>(a: seq<T>, b: seq<T>, c: seq<T>)
    ensures a + b + c == a + (b + c)
  {
  }

  lemma DropOfConcat<T>(a: seq<T>, b: seq<T>, n: nat)
    requires n <= |a|
    ensures (a + b)[n..] == a[n..] + b
  {
  }

  /** `w` occurs in `s` at index `i`. */
  predicate OccursAt(s: string, w: string, i: nat) {
    i + |w| <= |s| && s[i..i + |w|] == w
  }

  /** The first index at or after `from` where `w` occurs in `s`. */
  function FindFrom(s: string, w: string, from: nat): (r: Option<nat>)
    decreases |s| - from
    ensures r.Some? ==> from <= r.value && OccursAt(s, w, r.value)
    ensures forall k :: from <= k && (r.None? || k < r.value) ==> !OccursAt(s, w, k)
  {
    if from + |w| > |s| then None
    else if s[from..from + |w|] == w then Some(from)
    else FindFrom(s, w, from + 1)
  }

  /** The first occurrence is determined by where `w` occurs: a position that
      is an occurrence with none before it is the answer. */
  lemma FindFromIs(s: string, w: string, from: nat, i: nat)
    requires from <= i && OccursAt(s, w, i)
    requires forall k :: from <= k < i ==> !OccursAt(s, w, k)
    ensures FindFrom(s, w, from) == Some(i)
  {
  }

  /** The index of the first line terminator at or after `from`, or `|s|`:
      where a match of `.*?($|(?=\n|\r))` starting at `from` stops. */
  function LineEnd(s: string, from: nat): (e: nat)
    requires from <= |s|
    decreases |s| - from
    ensures from <= e <= |s|
    ensures e < |s| ==> IsLineTerminator(s[e])
    ensures forall k :: from <= k < e ==> !IsLineTerminator(s[k])
  {
    if from == |s| || IsLineTerminator(s[from]) then from
    else LineEnd(s, from + 1)
  }

  /** The line end is determined by where the terminators are. */
  lemma LineEndIs(s: string, from: nat, e: nat)
    requires from <= e <= |s|
    requires e < |s| ==> IsLineTerminator(s[e])
    requires forall k :: from <= k < e ==> !IsLineTerminator(s[k])
    ensures LineEnd(s, from) == e
  {
  }

  lemma LineEndShift(p: string, rest: string, j: nat)
    requires j <= |rest|
    ensures LineEnd(p + rest, |p| + j) == |p| + LineEnd(rest, j)
  {
    var s := p + rest;
    var e := LineEnd(rest, j);
    forall k | |p| + j <= k < |p| + e ensures !IsLineTerminator(s[k]) {
      assert s[k] == rest[k - |p|];
    }
    if |p| + e < |s| {
      assert s[|p| + e] == rest[e];
    }
    LineEndIs(s, |p| + j, |p| + e);
  }

  /** The longest prefix of `s` holding no character satisfying `stop`. */
  function TakeUntil(s: string, stop: char -> bool): (r: string)
    ensures |r| <= |s| && r == s[..|r|]
    ensures forall k :: 0 <= k < |r| ==> !stop(r[k])
    ensures |r| < |s| ==> stop(s[|r|])
  {
    if |s| == 0 || stop(s[0]) then []
    else [s[0]] + TakeUntil(s[1..], stop)
  }

  /** The longest stop-free prefix is determined by where the first stop
      character is. */
  lemma {:induction false} TakeUntilIs(s: string, p: string, stop: char -> bool)
    requires |p| <= |s| && s[..|p|] == p
    requires forall k :: 0 <= k < |p| ==> !stop(p[k])
    requires |p| < |s| ==> stop(s[|p|])
    ensures TakeUntil(s, stop) == p
  {
    if |p| > 0 {
      assert s[0] == p[0] && !stop(s[0]);
      var s', p' := s[1..], p[1..];
      assert s'[..|p'|] == p' by {
        forall k | 0 <= k < |p'| ensures s'[k] == p'[k] {
          assert s'[k] == s[k + 1] && p'[k] == p[k + 1];
        }
      }
      assert forall k :: 0 <= k < |p'| ==> !stop(p'[k]) by {
        forall k | 0 <= k < |p'| ensures !stop(p'[k]) { assert p'[k] == p[k + 1]; }
      }
      assert |p'| < |s'| ==> s'[|p'|] == s[|p|];
      TakeUntilIs(s', p', stop);
      assert [p[0]] + p' == p;
    }
  }

  /** JavaScript's `String.prototype.split` with a one-character separator
      class: every separator ends a piece, empty pieces are kept, and there is
      always at least one piece. */
  function Split(s: string, isSep: char -> bool): (r: seq<string>)
    ensures |r| >= 1
    ensures r[0] == TakeUntil(s, isSep)
    ensures forall i, k :: 0 <= i < |r| && 0 <= k < |r[i]| ==> !isSep(r[i][k])
  {
    if |s| == 0 then [""]
    else
      var rest := Split(s[1..], isSep);
      if isSep(s[0]) then [""] + rest
      else [[s[0]] + rest[0]] + rest[1..]
  }

  /** A piece free of separators, then a separator: the piece is the first
      element of the split and the rest is split on its own. */
  lemma {:induction false} SplitAfterSeparator(a: string, c: char, z: string, isSep: char -> bool)
    requires forall k :: 0 <= k < |a| ==> !isSep(a[k])
    requires isSep(c)
    ensures Split(a + [c] + z, isSep) == [a] + Split(z, isSep)
  {
    if |a| == 0 {
      assert a + [c] + z == [c] + z;
      assert ([c] + z)[1..] == z;
    } else {
      var s := a + [c] + z;
      assert s[0] == a[0];
      assert s[1..] == a[1..] + [c] + z;
      SplitAfterSeparator(a[1..], c, z, isSep);
      assert [a[0]] + a[1..] == a;
    }
  }

  /** A string with no separator splits into itself alone. */
  lemma {:induction false} SplitWithoutSeparator(s: string, isSep: char -> bool)
    requires forall k :: 0 <= k < |s| ==> !isSep(s[k])
    ensures Split(s, isSep) == [s]
  {
    if |s| > 0 {
      SplitWithoutSeparator(s[1..], isSep);
      assert [s[0]] + s[1..] == s;
    }
  }

  /** `Array.prototype.join('.')`. */
  function JoinDots(ps: seq<string>): string {
    if |ps| == 0 then ""
    else if |ps| == 1 then ps[0]
    else ps[0] + "." + JoinDots(ps[1..])
  }

  /** Extending the first piece extends the joined text at its front. */
  lemma JoinDotsConsFirst(c: char, ps: seq<string>)
    requires |ps| >= 1
    ensures JoinDots([[c] + ps[0]] + ps[1..]) == [c] + JoinDots(ps)
  {
    var qs := [[c] + ps[0]] + ps[1..];
    assert qs[0] == [c] + ps[0] && qs[1..] == ps[1..];
    if |ps| >= 2 {
      var j := JoinDots(ps[1..]);
      ConcatAssoc([c], ps[0], "." + j);
      ConcatAssoc([c] + ps[0], ".", j);
      ConcatAssoc(ps[0], ".", j);
    }
  }

  /** An empty first piece puts a dot in front of the rest. */
  lemma JoinDotsEmptyFirst(ps: seq<string>)
    requires |ps| >= 1
    ensures JoinDots([""] + ps) == "." + JoinDots(ps)
  {
    assert ([""] + ps)[1..] == ps;
  }

  /** The first step of `Split`. */
  lemma SplitFirst(s: string, isSep: char -> bool)
    requires |s| > 0
    ensures isSep(s[0]) ==> Split(s, isSep) == [""] + Split(s[1..], isSep)
    ensures !isSep(s[0]) ==> Split(s, isSep) == [[s[0]] + Split(s[1..], isSep)[0]] + Split(s[1..], isSep)[1..]
  {
  }

  /** `name.split('.').join('.')` gives `name` back: a module name and the
      tree path it is inserted at determine each other. */
  lemma {:induction false} JoinSplitDots(s: string)
    ensures JoinDots(Split(s, IsDot)) == s
  {
    if |s| > 0 {
      var t := s[1..];
      var rest := Split(t, IsDot);
      JoinSplitDots(t);
      SplitFirst(s, IsDot);
      if IsDot(s[0]) {
        JoinDotsEmptyFirst(rest);
        assert "." == [s[0]];
      } else {
        JoinDotsConsFirst(s[0], rest);
      }
      assert [s[0]] + t == s;
    }
  }

  /** Two module names with the same tree path are the same name. */
  lemma SplitDotsInjective(m: string, n: string)
    requires Split(m, IsDot) == Split(n, IsDot)
    ensures m == n
  {
    JoinSplitDots(m);
    JoinSplitDots(n);
  }
}
