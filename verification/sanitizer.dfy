/** The two comment-removing replacements applied to every file before any
    declaration is looked for (src/extension.ts lines 65 and 85):
    `.replace(/{-.*?-}/g, '')` and then `.replace(/--.*?($|(?=(\n|\r|\r\n)))/g, '')`.
    Both are global, left-to-right, non-overlapping scans of the ORIGINAL
    text: text joined up by one removal is not rescanned. */
module Sanitizer {
  import opened Strings

  /** `s` has a `-}` at index `k`. */
  predicate ClosesAt(s: string, k: nat) {
    k + 1 < |s| && s[k] == '-' && s[k + 1] == '}'
  }

  /** `s` contains no `-}`. */
  predicate NoBlockClose(s: string) {
    forall k :: 0 <= k < |s| ==> !ClosesAt(s, k)
  }

  /** `s` contains no `--`. */
  predicate NoLineComment(s: string) {
    forall k :: 0 <= k < |s| ==> !StartsLineComment(s[k..])
  }

  predicate StartsBlockComment(s: string) {
    |s| >= 2 && s[0] == '{' && s[1] == '-'
  }

  predicate StartsLineComment(s: string) {
    |s| >= 2 && s[0] == '-' && s[1] == '-'
  }

  /** Where the lazy `.*?-}` that follows a `{-` ends: the first `-}` at or
      after `j`, provided it lies on the same line (JavaScript's `.` matches
      no line terminator). */
  function BlockClose(s: string, j: nat): (r: Option<nat>)
    requires j <= |s|
    decreases |s| - j
    ensures r.Some? ==> j <= r.value && r.value + 1 < LineEnd(s, j) && ClosesAt(s, r.value)
    ensures r.Some? ==> forall k :: j <= k < r.value ==> !ClosesAt(s, k)
    ensures r.None? ==> forall k :: j <= k && k + 1 < LineEnd(s, j) ==> !ClosesAt(s, k)
  {
    if j + 1 >= |s| || IsLineTerminator(s[j]) then None
    else if ClosesAt(s, j) then Some(j)
    else BlockClose(s, j + 1)
  }

  /** Removes every one-line `{- ... -}` block comment. */
  function StripBlockComments(s: string): (r: string)
    decreases |s|
    ensures |r| <= |s|
    ensures LineBreaks(r) == LineBreaks(s)
  {
    if |s| == 0 then []
    else if StartsBlockComment(s) && BlockClose(s, 2).Some? then
      var k := BlockClose(s, 2).value;
      LineBreaksDropOneLine(s, k + 2);
      StripBlockComments(s[k + 2..])
    else [s[0]] + StripBlockComments(s[1..])
  }

  /** Removes every `--` line comment up to (not including) its line
      terminator. */
  function StripLineComments(s: string): (r: string)
    decreases |s|
    ensures |r| <= |s|
    ensures LineBreaks(r) == LineBreaks(s)
    ensures |r| > 0 ==> if StartsLineComment(s) then IsLineTerminator(r[0]) else r[0] == s[0]
    ensures NoLineComment(r)
  {
    if |s| == 0 then []
    else if StartsLineComment(s) then
      var e := LineEnd(s, 2);
      LineBreaksDropOneLine(s, e);
      StripLineComments(s[e..])
    else
      var rest := StripLineComments(s[1..]);
      assert NoLineComment([s[0]] + rest) by {
        forall k | 0 <= k < |[s[0]] + rest|
          ensures !StartsLineComment(([s[0]] + rest)[k..])
        {
          if k > 0 {
            assert ([s[0]] + rest)[k..] == rest[k - 1..];
          }
        }
      }
      [s[0]] + rest
  }

  /** The text the declaration extractor reads. */
  function Sanitize(s: string): (r: string)
    ensures |r| <= |s|
    ensures LineBreaks(r) == LineBreaks(s)
    ensures NoLineComment(r)
  {
    StripLineComments(StripBlockComments(s))
  }

  /** Text without a `--` passes the line-comment stripper unchanged; in
      particular that stripper is idempotent. */
  lemma {:induction false} StripLineCommentsIdentity(s: string)
    requires NoLineComment(s)
    ensures StripLineComments(s) == s
  {
    if |s| > 0 {
      assert !StartsLineComment(s[0..]);
      assert NoLineComment(s[1..]) by {
        forall k | 0 <= k < |s[1..]| ensures !StartsLineComment(s[1..][k..]) {
          assert s[1..][k..] == s[k + 1..];
        }
      }
      StripLineCommentsIdentity(s[1..]);
      assert [s[0]] + s[1..] == s;
    }
  }

  lemma StripLineCommentsIdempotent(s: string)
    ensures StripLineComments(StripLineComments(s)) == StripLineComments(s)
  {
    StripLineCommentsIdentity(StripLineComments(s));
  }

  /** Text that no comment marker can start in: no `-` at all, and not ending
      in `{` (which a following `-` would turn into `{-`). */
  predicate Plain(x: string) {
    && (forall k :: 0 <= k < |x| ==> x[k] != '-')
    && (|x| == 0 || x[|x| - 1] != '{')
  }

  /** Text of which the first character starts no comment. */
  lemma StripBlockCommentsStep(s: string)
    requires |s| > 0 && !StartsBlockComment(s)
    ensures StripBlockComments(s) == [s[0]] + StripBlockComments(s[1..])
  {
  }

  lemma StripLineCommentsStep(s: string)
    requires |s| > 0 && !StartsLineComment(s)
    ensures StripLineComments(s) == [s[0]] + StripLineComments(s[1..])
  {
  }

  /** Splitting off the first character of a non-empty `Plain` prefix. */
  lemma PlainTail(x: string, z: string)
    requires Plain(x) && |x| > 0
    ensures Plain(x[1..])
    ensures (x + z)[0] == x[0] && (x + z)[1..] == x[1..] + z
    ensures !StartsBlockComment(x + z) && !StartsLineComment(x + z)
  {
    var s := x + z;
    assert s[0] == x[0];
    if |x| > 1 { assert s[1] == x[1]; }
    assert s[1..] == x[1..] + z;
  }

  lemma ConsConcat(x: string, w: string)
    requires |x| > 0
    ensures [x[0]] + (x[1..] + w) == x + w
  {
    ConcatAssoc([x[0]], x[1..], w);
    assert [x[0]] + x[1..] == x;
  }

  lemma {:induction false} StripBlockCommentsPlainPrefix(x: string, z: string)
    requires Plain(x)
    ensures StripBlockComments(x + z) == x + StripBlockComments(z)
  {
    if |x| > 0 {
      PlainTail(x, z);
      StripBlockCommentsStep(x + z);
      StripBlockCommentsPlainPrefix(x[1..], z);
      ConsConcat(x, StripBlockComments(z));
    } else {
      assert x + z == z;
    }
  }

  lemma {:induction false} StripLineCommentsPlainPrefix(x: string, z: string)
    requires Plain(x)
    ensures StripLineComments(x + z) == x + StripLineComments(z)
  {
    if |x| > 0 {
      PlainTail(x, z);
      StripLineCommentsStep(x + z);
      StripLineCommentsPlainPrefix(x[1..], z);
      ConsConcat(x, StripLineComments(z));
    } else {
      assert x + z == z;
    }
  }

  /** Text in which no comment can start passes through unchanged. */
  lemma SanitizePlain(x: string)
    requires Plain(x)
    ensures Sanitize(x) == x
  {
    StripBlockCommentsPlainPrefix(x, []);
    assert x + [] == x;
    StripLineCommentsPlainPrefix(x, []);
  }

  /** A one-line block comment whose body holds no `-}` is removed whole. */
  lemma BlockCommentRemoved(c: string, y: string)
    requires OneLine(c) && NoBlockClose(c)
    ensures StripBlockComments("{-" + c + "-}" + y) == StripBlockComments(y)
  {
    var s := "{-" + c + "-}" + y;
    var k := |c| + 2;
    assert ClosesAt(s, k);
    assert LineEnd(s, 2) > k + 1 by {
      forall i | 2 <= i <= k + 1 ensures !IsLineTerminator(s[i]) {
        if i < k { assert s[i] == c[i - 2]; }
      }
    }
    forall i | 2 <= i < k ensures !ClosesAt(s, i) {
      if i + 1 < k {
        assert s[i] == c[i - 2] && s[i + 1] == c[i - 1];
        assert !ClosesAt(c, i - 2);
      } else {
        assert s[i + 1] == '-';
      }
    }
    assert BlockClose(s, 2) == Some(k);
    assert s[k + 2..] == y;
  }

  /** A `--` comment runs to the end of its line and no further. */
  lemma LineCommentRemoved(c: string, y: string)
    requires OneLine(c)
    requires |y| == 0 || IsLineTerminator(y[0])
    ensures StripLineComments("--" + c + y) == StripLineComments(y)
  {
    var s := "--" + c + y;
    forall i | 2 <= i < |c| + 2 ensures !IsLineTerminator(s[i]) {
      assert s[i] == c[i - 2];
    }
    LineEndIs(s, 2, |c| + 2);
    assert s[|c| + 2..] == y;
  }

  /** The block-comment scan never crosses a line terminator, so the text
      before a line break is scanned on its own. */
  lemma {:induction false} BlockCloseBeforeBreak(c: string, y: string, j: nat)
    requires j <= |c|
    requires |y| == 0 || IsLineTerminator(y[0])
    decreases |c| - j
    ensures BlockClose(c + y, j) == BlockClose(c, j)
  {
    var s := c + y;
    if j + 1 < |c| {
      assert s[j] == c[j] && s[j + 1] == c[j + 1];
      if !IsLineTerminator(c[j]) && !ClosesAt(c, j) {
        BlockCloseBeforeBreak(c, y, j + 1);
      }
    } else if j + 1 == |c| && |y| > 0 {
      assert s[j] == c[j] && s[j + 1] == y[0];
      if !IsLineTerminator(c[j]) {
        assert !ClosesAt(s, j);
        BlockCloseBeforeBreak(c, y, j + 1);
      }
    } else if j == |c| && |y| > 0 {
      assert s[j] == y[0];
    }
  }

  lemma {:induction false} StripBlockCommentsBeforeBreak(c: string, y: string)
    requires |y| == 0 || IsLineTerminator(y[0])
    decreases |c|
    ensures StripBlockComments(c + y) == StripBlockComments(c) + StripBlockComments(y)
  {
    if |c| == 0 {
      assert c + y == y;
    } else if |c| == 1 {
      ShortBeforeBreak(c, y);
    } else {
      BlockCloseBeforeBreak(c, y, 2);
      if StartsBlockComment(c) && BlockClose(c, 2).Some? {
        var k := BlockClose(c, 2).value;
        StripBlockCommentsBeforeBreak(c[k + 2..], y);
        SkipCommentBeforeBreak(c, y, k);
      } else {
        StripBlockCommentsBeforeBreak(c[1..], y);
        KeepFirstBeforeBreak(c, y);
      }
    }
  }

  lemma ShortBeforeBreak(c: string, y: string)
    requires |c| == 1
    requires |y| == 0 || IsLineTerminator(y[0])
    ensures StripBlockComments(c + y) == StripBlockComments(c) + StripBlockComments(y)
  {
    var s := c + y;
    assert s[0] == c[0];
    assert !StartsBlockComment(s) by {
      if |y| > 0 { assert s[1] == y[0]; }
    }
    assert s[1..] == y;
    assert StripBlockComments(s) == [c[0]] + StripBlockComments(y);
    assert c[1..] == [];
    assert StripBlockComments(c) == [c[0]];
  }

  lemma SkipCommentBeforeBreak(c: string, y: string, k: nat)
    requires |c| >= 2 && StartsBlockComment(c)
    requires BlockClose(c + y, 2) == BlockClose(c, 2) == Some(k)
    requires StripBlockComments(c[k + 2..] + y)
          == StripBlockComments(c[k + 2..]) + StripBlockComments(y)
    ensures StripBlockComments(c + y) == StripBlockComments(c) + StripBlockComments(y)
  {
    var s := c + y;
    assert k + 2 <= |c|;
    SameOpening(c, y);
    DropOfConcat(c, y, k + 2);
    StripBlockCommentsSkip(s);
    assert StripBlockComments(s) == StripBlockComments(c[k + 2..] + y);
    StripBlockCommentsSkip(c);
    assert StripBlockComments(c) == StripBlockComments(c[k + 2..]);
  }

  lemma KeepFirstBeforeBreak(c: string, y: string)
    requires |c| >= 2
    requires BlockClose(c + y, 2) == BlockClose(c, 2)
    requires !(StartsBlockComment(c) && BlockClose(c, 2).Some?)
    requires StripBlockComments(c[1..] + y)
          == StripBlockComments(c[1..]) + StripBlockComments(y)
    ensures StripBlockComments(c + y) == StripBlockComments(c) + StripBlockComments(y)
  {
    var s := c + y;
    SameOpening(c, y);
    DropOfConcat(c, y, 1);
    StripBlockCommentsKeep(s);
    StripBlockCommentsKeep(c);
    ConcatAssoc([c[0]], StripBlockComments(c[1..]), StripBlockComments(y));
  }

  lemma SameOpening(c: string, y: string)
    requires |c| >= 2
    ensures (c + y)[0] == c[0] && StartsBlockComment(c + y) == StartsBlockComment(c)
  {
    assert (c + y)[1] == c[1];
  }

  /** The block pass at a `{-` with a closing `-}` on its line. */
  lemma StripBlockCommentsSkip(s: string)
    requires StartsBlockComment(s) && BlockClose(s, 2).Some?
    ensures StripBlockComments(s) == StripBlockComments(s[BlockClose(s, 2).value + 2..])
  {
  }

  /** The block pass anywhere else. */
  lemma StripBlockCommentsKeep(s: string)
    requires |s| > 0 && !(StartsBlockComment(s) && BlockClose(s, 2).Some?)
    ensures StripBlockComments(s) == [s[0]] + StripBlockComments(s[1..])
  {
  }

  /** A one-line block comment is invisible to everything downstream: after
      sanitizing, the text reads as if the comment had never been written.
      `pre` is everything up to the comment's line (empty, or ending in a line
      terminator) and may hold anything; `x` is the part of the comment's own
      line in front of it. */
  lemma BlockCommentInvisible(pre: string, x: string, c: string, y: string)
    requires |pre| == 0 || IsLineTerminator(pre[|pre| - 1])
    requires Plain(x) && OneLine(c) && NoBlockClose(c)
    ensures Sanitize(pre + x + "{-" + c + "-}" + y) == Sanitize(pre + x + y)
  {
    var m := x + "{-" + c + "-}" + y;
    assert pre + x + "{-" + c + "-}" + y == pre + m;
    assert pre + x + y == pre + (x + y);
    BlockCommentInvisibleFromLineStart(x, c, y);
    SanitizeAfterPrefix(pre, m, x + y);
  }

  /** Likewise for a `--` comment running to the end of its line. */
  lemma LineCommentInvisible(pre: string, x: string, c: string, y: string)
    requires |pre| == 0 || IsLineTerminator(pre[|pre| - 1])
    requires Plain(x) && OneLine(c)
    requires |y| == 0 || IsLineTerminator(y[0])
    ensures Sanitize(pre + x + "--" + c + y) == Sanitize(pre + x + y)
  {
    var m := x + "--" + c + y;
    assert pre + x + "--" + c + y == pre + m;
    assert pre + x + y == pre + (x + y);
    LineCommentInvisibleFromLineStart(x, c, y);
    SanitizeAfterPrefix(pre, m, x + y);
  }

  /** Two texts that sanitize alike still do after the same earlier lines. */
  lemma SanitizeAfterPrefix(pre: string, m: string, n: string)
    requires |pre| == 0 || IsLineTerminator(pre[|pre| - 1])
    requires Sanitize(m) == Sanitize(n)
    ensures Sanitize(pre + m) == Sanitize(pre + n)
  {
    if |pre| == 0 {
      assert pre + m == m && pre + n == n;
    } else {
      var a := pre[..|pre| - 1];
      var t := pre[|pre| - 1];
      assert pre == a + [t];
      SanitizeAroundBreak(a, t, m);
      SanitizeAroundBreak(a, t, n);
    }
  }

  /** Neither pass looks across a line terminator: the text on either side of
      one is sanitized on its own. */
  lemma SanitizeAroundBreak(a: string, t: char, b: string)
    requires IsLineTerminator(t)
    ensures Sanitize(a + [t] + b) == Sanitize(a) + [t] + Sanitize(b)
  {
    assert a + [t] + b == a + ([t] + b);
    StripBlockCommentsBeforeBreak(a, [t] + b);
    StripBlockCommentsCons(t, b);
    assert StripBlockComments(a + [t] + b)
        == StripBlockComments(a) + [t] + StripBlockComments(b);
    StripLineCommentsAroundBreak(StripBlockComments(a), t, StripBlockComments(b));
  }

  lemma {:induction false} StripLineCommentsAroundBreak(a: string, t: char, b: string)
    requires IsLineTerminator(t)
    decreases |a|
    ensures StripLineComments(a + [t] + b) == StripLineComments(a) + [t] + StripLineComments(b)
  {
    var s := a + [t] + b;
    if |a| == 0 {
      assert s == [t] + b;
      StripLineCommentsStep(s);
      assert s[1..] == b;
    } else if StartsLineComment(a) {
      var e := LineEnd(a, 2);
      LineCommentBeforeBreak(a, t, b);
      StripLineCommentsAroundBreak(a[e..], t, b);
    } else {
      LineCommentLaterBeforeBreak(a, t, b);
      StripLineCommentsAroundBreak(a[1..], t, b);
      ConcatAssoc([a[0]], StripLineComments(a[1..]) + [t], StripLineComments(b));
      ConcatAssoc([a[0]], StripLineComments(a[1..]), [t]);
    }
  }

  /** A `--` at the front of `a` is cut at the same place with or without the
      text after the break. */
  lemma LineCommentBeforeBreak(a: string, t: char, b: string)
    requires IsLineTerminator(t) && StartsLineComment(a)
    ensures 2 <= LineEnd(a, 2) <= |a|
    ensures StripLineComments(a) == StripLineComments(a[LineEnd(a, 2)..])
    ensures StripLineComments(a + [t] + b)
         == StripLineComments(a[LineEnd(a, 2)..] + [t] + b)
  {
    var s := a + [t] + b;
    var e := LineEnd(a, 2);
    assert s[0] == a[0] && s[1] == a[1];
    forall k | 2 <= k < e ensures !IsLineTerminator(s[k]) {
      assert s[k] == a[k];
    }
    assert s[e] == if e < |a| then a[e] else t;
    LineEndIs(s, 2, e);
    assert s[e..] == a[e..] + [t] + b;
  }

  /** Anywhere else the first character of `a` is kept either way. */
  lemma LineCommentLaterBeforeBreak(a: string, t: char, b: string)
    requires IsLineTerminator(t) && |a| > 0 && !StartsLineComment(a)
    ensures StripLineComments(a) == [a[0]] + StripLineComments(a[1..])
    ensures StripLineComments(a + [t] + b)
         == [a[0]] + StripLineComments(a[1..] + [t] + b)
  {
    var s := a + [t] + b;
    assert s[0] == a[0];
    assert s[1] == if |a| > 1 then a[1] else t;
    StripLineCommentsStep(s);
    StripLineCommentsStep(a);
    assert s[1..] == a[1..] + [t] + b;
  }

  /** The same, for a comment on the first line of the text. */
  lemma BlockCommentInvisibleFromLineStart(x: string, c: string, y: string)
    requires Plain(x) && OneLine(c) && NoBlockClose(c)
    ensures Sanitize(x + "{-" + c + "-}" + y) == Sanitize(x + y)
  {
    var w := "{-" + c + "-}" + y;
    assert x + "{-" + c + "-}" + y == x + w;
    StripBlockCommentsPlainPrefix(x, w);
    BlockCommentRemoved(c, y);
    StripBlockCommentsPlainPrefix(x, y);
    assert StripBlockComments(x + w) == StripBlockComments(x + y);
  }

  lemma LineCommentInvisibleFromLineStart(x: string, c: string, y: string)
    requires Plain(x) && OneLine(c)
    requires |y| == 0 || IsLineTerminator(y[0])
    ensures Sanitize(x + "--" + c + y) == Sanitize(x + y)
  {
    var b := StripBlockComments(y);
    var c' := StripBlockComments(c);
    DashesRegroup(x, c, y);
    BlockPassAroundLineComment(x, c, y);
    assert |b| == 0 || IsLineTerminator(b[0]) by {
      if |y| > 0 {
        assert !StartsBlockComment(y);
        assert b == [y[0]] + StripBlockComments(y[1..]);
      }
    }
    LineBreaksOfOneLine(c);
    LineBreaksOfOneLine(c');
    LinePassAroundLineComment(x, c', b);
    StripBlockCommentsPlainPrefix(x, y);
    StripLineCommentsPlainPrefix(x, b);
  }

  lemma DashesRegroup(x: string, c: string, y: string)
    ensures x + "--" + c + y == x + (['-'] + (['-'] + (c + y)))
  {
  }

  /** The block pass keeps `x` and the `--`, and treats `c` on its own. */
  lemma BlockPassAroundLineComment(x: string, c: string, y: string)
    requires Plain(x)
    requires |y| == 0 || IsLineTerminator(y[0])
    ensures StripBlockComments(x + (['-'] + (['-'] + (c + y))))
         == x + (['-'] + (['-'] + (StripBlockComments(c) + StripBlockComments(y))))
  {
    var z := c + y;
    StripBlockCommentsPlainPrefix(x, ['-'] + (['-'] + z));
    StripBlockCommentsCons('-', ['-'] + z);
    StripBlockCommentsCons('-', z);
    StripBlockCommentsBeforeBreak(c, y);
  }

  /** The line pass keeps `x` and drops the comment up to the line break. */
  lemma LinePassAroundLineComment(x: string, c: string, b: string)
    requires Plain(x) && OneLine(c)
    requires |b| == 0 || IsLineTerminator(b[0])
    ensures StripLineComments(x + (['-'] + (['-'] + (c + b)))) == x + StripLineComments(b)
  {
    StripLineCommentsPlainPrefix(x, ['-'] + (['-'] + (c + b)));
    DashesNest(c, b);
    LineCommentRemoved(c, b);
  }

  lemma DashesNest(c: string, b: string)
    ensures "--" + c + b == ['-'] + (['-'] + (c + b))
  {
  }

  lemma StripBlockCommentsCons(ch: char, z: string)
    requires ch != '{'
    ensures StripBlockComments([ch] + z) == [ch] + StripBlockComments(z)
  {
    assert ([ch] + z)[1..] == z;
  }
}
