/**
 * The .NET string operations the SQL renderer relies on:
 * String.Split(params char[]), StringBuilder.Replace(string, string),
 * StringBuilder.Replace(char, char) and String.StartsWith with an
 * ignore-case comparison.
 */
module Text {

  /** No character of s is one of cs. */
  predicate NoneIn(s: string, cs: set<char>)
  {
    forall k :: 0 <= k < |s| ==> s[k] !in cs
  }

  function Last<T>(xs: seq<T>): T
    requires |xs| > 0
  {
    xs[|xs| - 1]
  }

  lemma LastConcat<T>(xs: seq<T>, ys: seq<T>)
    requires |ys| > 0
    ensures Last(xs + ys) == Last(ys)
  {
  }

  // ---------------------------------------------------------------------
  // String.Split(params char[] separator)
  // ---------------------------------------------------------------------

  /**
   * The pieces of s between separator characters, left to right. Empty
   * pieces are kept, so there is always one piece more than there are
   * separators in s (String.Split with no options).
   */
  function SplitOn(s: string, seps: set<char>): (pieces: seq<string>)
    ensures |pieces| >= 1
    ensures forall i :: 0 <= i < |pieces| ==> NoneIn(pieces[i], seps)
  {
    if s == [] then [[]]
    else
      var rest := SplitOn(s[1..], seps);
      if s[0] in seps then [[]] + rest
      else [[s[0]] + rest[0]] + rest[1..]
  }

  /** The separator characters of s, in the order they occur. */
  function SeparatorsOf(s: string, seps: set<char>): string
  {
    if s == [] then []
    else (if s[0] in seps then [s[0]] else []) + SeparatorsOf(s[1..], seps)
  }

  /** Joins the pieces back, with glue[i] between pieces[i] and pieces[i + 1]. */
  function Weave(pieces: seq<string>, glue: string): string
    requires |pieces| == |glue| + 1
  {
    if glue == [] then pieces[0]
    else pieces[0] + [glue[0]] + Weave(pieces[1..], glue[1..])
  }

  /**
   * Splitting loses nothing: putting the separators back between the
   * pieces gives the original text, and there is one piece per separator
   * plus one.
   */
  lemma {:induction false} SplitOnWeave(s: string, seps: set<char>)
    ensures |SplitOn(s, seps)| == |SeparatorsOf(s, seps)| + 1
    ensures Weave(SplitOn(s, seps), SeparatorsOf(s, seps)) == s
  {
    if s != [] {
      SplitOnWeave(s[1..], seps);
      var rest := SplitOn(s[1..], seps);
      var g := SeparatorsOf(s[1..], seps);
      var pieces := SplitOn(s, seps);
      if s[0] in seps {
        assert pieces == [[]] + rest;
        assert SeparatorsOf(s, seps) == [s[0]] + g;
        assert pieces[1..] == rest;
        assert ([s[0]] + g)[1..] == g;
        calc {
          Weave(pieces, [s[0]] + g);
          [] + [s[0]] + Weave(rest, g);
          [s[0]] + s[1..];
          s;
        }
      } else {
        assert pieces == [[s[0]] + rest[0]] + rest[1..];
        assert SeparatorsOf(s, seps) == g;
        if g == [] {
          assert Weave(rest, g) == rest[0];
          assert [s[0]] + s[1..] == s;
        } else {
          assert pieces[1..] == rest[1..];
          calc {
            Weave(pieces, g);
            ([s[0]] + rest[0]) + [g[0]] + Weave(rest[1..], g[1..]);
            [s[0]] + (rest[0] + [g[0]] + Weave(rest[1..], g[1..]));
            [s[0]] + Weave(rest, g);
            [s[0]] + s[1..];
            s;
          }
        }
      }
    }
  }

  /** A text splits into one piece exactly when it has no separator; that piece is the text. */
  lemma {:induction false} SplitOnSingle(s: string, seps: set<char>)
    ensures |SplitOn(s, seps)| == 1 <==> NoneIn(s, seps)
    ensures NoneIn(s, seps) ==> SplitOn(s, seps) == [s]
  {
    if s != [] {
      SplitOnSingle(s[1..], seps);
      var rest := SplitOn(s[1..], seps);
      if s[0] !in seps {
        assert NoneIn(s, seps) <==> NoneIn(s[1..], seps) by {
          if NoneIn(s[1..], seps) {
            forall k | 0 <= k < |s| ensures s[k] !in seps {
              if k > 0 { assert s[k] == s[1..][k - 1]; }
            }
          }
          if NoneIn(s, seps) {
            forall k | 0 <= k < |s[1..]| ensures s[1..][k] !in seps {
              assert s[1..][k] == s[k + 1];
            }
          }
        }
        if NoneIn(s, seps) {
          assert [s[0]] + s[1..] == s;
        }
      }
    }
  }

  /**
   * The first piece is the prefix of s up to its first separator; there is
   * a second piece exactly when that separator exists.
   */
  lemma {:induction false} FirstPieceIsPrefix(s: string, seps: set<char>)
    ensures exists k :: 0 <= k <= |s| && SplitOn(s, seps)[0] == s[..k]
                        && (k < |s| <==> |SplitOn(s, seps)| > 1)
                        && (k < |s| ==> s[k] in seps)
  {
    if s == [] {
      assert SplitOn(s, seps)[0] == s[..0];
    } else if s[0] in seps {
      assert SplitOn(s, seps)[0] == s[..0];
    } else {
      FirstPieceIsPrefix(s[1..], seps);
      var k :| 0 <= k <= |s[1..]| && SplitOn(s[1..], seps)[0] == s[1..][..k]
               && (k < |s[1..]| <==> |SplitOn(s[1..], seps)| > 1)
               && (k < |s[1..]| ==> s[1..][k] in seps);
      assert SplitOn(s, seps)[0] == [s[0]] + s[1..][..k];
      assert [s[0]] + s[1..][..k] == s[..k + 1];
      assert k + 1 < |s| ==> s[k + 1] == s[1..][k];
    }
  }

  /**
   * The last piece is the suffix of s after its last separator; it is
   * preceded by a separator exactly when there is more than one piece.
   */
  lemma {:induction false} LastPieceIsSuffix(s: string, seps: set<char>)
    ensures exists k :: 0 <= k <= |s| && Last(SplitOn(s, seps)) == s[k..]
                        && (k > 0 <==> |SplitOn(s, seps)| > 1)
                        && (k > 0 ==> s[k - 1] in seps)
  {
    if s == [] {
      assert Last(SplitOn(s, seps)) == s[0..];
    } else {
      var t := s[1..];
      LastPieceIsSuffix(t, seps);
      var rest := SplitOn(t, seps);
      var k :| 0 <= k <= |t| && Last(rest) == t[k..]
               && (k > 0 <==> |rest| > 1)
               && (k > 0 ==> t[k - 1] in seps);
      if s[0] !in seps && |rest| == 1 {
        SplitOnSingle(t, seps);
        assert SplitOn(s, seps) == [[s[0]] + t];
        assert [s[0]] + t == s[0..];
      } else {
        assert |SplitOn(s, seps)| == |rest| + 1 || |SplitOn(s, seps)| == |rest|;
        assert Last(SplitOn(s, seps)) == Last(rest);
        assert t[k..] == s[k + 1..];
        if k > 0 { assert s[k] == t[k - 1]; }
        assert 0 <= k + 1 <= |s| && Last(SplitOn(s, seps)) == s[k + 1..] && s[k] in seps ==> |SplitOn(s, seps)| > 1;
      }
    }
  }

  /** SplitOn of a text that starts with a separator: an empty first piece. */
  lemma SplitOnConsSeparator(x: char, t: string, seps: set<char>)
    requires x in seps
    ensures SplitOn([x] + t, seps) == [[]] + SplitOn(t, seps)
  {
    assert ([x] + t)[1..] == t;
  }

  /** SplitOn of a text that starts with another character: it joins the first piece. */
  lemma SplitOnConsOther(x: char, t: string, seps: set<char>)
    requires x !in seps
    ensures SplitOn([x] + t, seps) == [[x] + SplitOn(t, seps)[0]] + SplitOn(t, seps)[1..]
  {
    assert ([x] + t)[1..] == t;
  }

  lemma JoinFirst<T>(x: T, left: seq<seq<T>>, right: seq<seq<T>>)
    requires |left| > 0
    ensures [[x] + (left + right)[0]] + (left + right)[1..] == ([[x] + left[0]] + left[1..]) + right
  {
    assert (left + right)[0] == left[0];
    assert (left + right)[1..] == left[1..] + right;
  }

  /** A separator splits the text in two: the pieces of each side, one after the other. */
  lemma {:induction false} SplitOnAtSeparator(a: string, c: char, b: string, seps: set<char>)
    requires c in seps
    ensures SplitOn(a + [c] + b, seps) == SplitOn(a, seps) + SplitOn(b, seps)
    decreases |a|
  {
    if a == [] {
      assert a + [c] + b == [c] + b;
      SplitOnConsSeparator(c, b, seps);
    } else {
      var x, t := a[0], a[1..];
      var tb := t + [c] + b;
      assert a + [c] + b == [x] + tb by { assert a == [x] + t; }
      assert a == [x] + t;
      SplitOnAtSeparator(t, c, b, seps);
      if x in seps {
        SplitOnConsSeparator(x, tb, seps);
        SplitOnConsSeparator(x, t, seps);
      } else {
        SplitOnConsOther(x, tb, seps);
        SplitOnConsOther(x, t, seps);
        JoinFirst(x, SplitOn(t, seps), SplitOn(b, seps));
      }
    }
  }

  // ---------------------------------------------------------------------
  // StringBuilder.Replace(string oldValue, string newValue)
  // ---------------------------------------------------------------------

  /** p starts at index i of s. */
  predicate OccursAt(s: string, p: string, i: int)
  {
    0 <= i && i + |p| <= |s| && s[i..i + |p|] == p
  }

  /**
   * Every non-overlapping occurrence of p in s, found left to right,
   * replaced by r; text produced by a replacement is not searched again.
   */
  function ReplaceAll(s: string, p: string, r: string): string
    requires |p| > 0
    decreases |s|
  {
    if |s| < |p| then s
    else if s[..|p|] == p then r + ReplaceAll(s[|p|..], p, r)
    else [s[0]] + ReplaceAll(s[1..], p, r)
  }

  /** Text without an occurrence of p is left as it is. */
  lemma {:induction false} ReplaceAllAbsent(s: string, p: string, r: string)
    requires |p| > 0
    requires forall i :: !OccursAt(s, p, i)
    ensures ReplaceAll(s, p, r) == s
    decreases |s|
  {
    if |s| >= |p| {
      assert !OccursAt(s, p, 0);
      assert s[..|p|] != p;
      forall i ensures !OccursAt(s[1..], p, i) {
        if OccursAt(s[1..], p, i) {
          assert s[1..][i..i + |p|] == s[i + 1..i + 1 + |p|];
          assert OccursAt(s, p, i + 1);
        }
      }
      ReplaceAllAbsent(s[1..], p, r);
      assert [s[0]] + s[1..] == s;
    }
  }

  /** A text without the character c is left as it is by replacing c. */
  lemma ReplaceAllCharAbsent(s: string, c: char, r: string)
    requires c !in s
    ensures forall i :: !OccursAt(s, [c], i)
    ensures ReplaceAll(s, [c], r) == s
  {
    forall i | 0 <= i < |s| ensures !OccursAt(s, [c], i) {
      assert s[i..i + 1] == [s[i]];
    }
    ReplaceAllAbsent(s, [c], r);
  }

  /** Where p does not start at index 0, the first character is kept. */
  lemma ReplaceAllSkip(s: string, p: string, r: string)
    requires |p| > 0 && |s| > 0 && !OccursAt(s, p, 0)
    ensures ReplaceAll(s, p, r) == [s[0]] + ReplaceAll(s[1..], p, r)
  {
  }

  /**
   * Text that holds no first character of p is kept as it is: no
   * occurrence can start inside it.
   */
  lemma {:induction false} ReplaceAllKeepsPrefix(a: string, b: string, p: string, r: string)
    requires |p| > 0 && p[0] !in a
    ensures ReplaceAll(a + b, p, r) == a + ReplaceAll(b, p, r)
    decreases |a|
  {
    if a != [] {
      var s := a + b;
      assert s[0] == a[0];
      assert !OccursAt(s, p, 0) by {
        if |s| >= |p| {
          assert s[..|p|][0] == s[0];
        }
      }
      ReplaceAllSkip(s, p, r);
      assert s[1..] == a[1..] + b;
      ReplaceAllKeepsPrefix(a[1..], b, p, r);
      assert [a[0]] + a[1..] == a;
    } else {
      assert a + b == b;
    }
  }

  /**
   * The text before the first occurrence of p is kept, that occurrence is
   * replaced, and replacement resumes right after it.
   */
  lemma {:induction false} ReplaceAllFirst(a: string, p: string, b: string, r: string)
    requires |p| > 0
    requires forall j :: 0 <= j < |a| ==> !OccursAt(a + p + b, p, j)
    ensures ReplaceAll(a + p + b, p, r) == a + r + ReplaceAll(b, p, r)
    decreases |a|
  {
    var s := a + p + b;
    if a == [] {
      assert s == p + b;
      assert s[..|p|] == p;
      assert s[|p|..] == b;
    } else {
      NoEarlierOccurrenceInTail(a, p, b);
      ReplaceAllFirst(a[1..], p, b, r);
      ReplaceAllSkipConcat(a, p, b, r);
      ReplaceAllFirstStep(a, p, b, r);
    }
  }

  lemma NoEarlierOccurrenceInTail(a: string, p: string, b: string)
    requires |p| > 0 && a != []
    requires forall j :: 0 <= j < |a| ==> !OccursAt(a + p + b, p, j)
    ensures forall j :: 0 <= j < |a| - 1 ==> !OccursAt(a[1..] + p + b, p, j)
  {
    var s := a + p + b;
    var t := a[1..] + p + b;
    assert s[1..] == t;
    forall j | 0 <= j < |a| - 1 ensures !OccursAt(t, p, j) {
      if OccursAt(t, p, j) {
        assert t[j..j + |p|] == s[j + 1..j + 1 + |p|];
        assert OccursAt(s, p, j + 1);
      }
    }
  }

  lemma ReplaceAllSkipConcat(a: string, p: string, b: string, r: string)
    requires |p| > 0 && a != [] && !OccursAt(a + p + b, p, 0)
    ensures ReplaceAll(a + p + b, p, r) == [a[0]] + ReplaceAll(a[1..] + p + b, p, r)
  {
    var s := a + p + b;
    ReplaceAllSkip(s, p, r);
    assert s[1..] == a[1..] + p + b;
  }

  lemma ReplaceAllFirstStep(a: string, p: string, b: string, r: string)
    requires |p| > 0 && a != []
    requires ReplaceAll(a + p + b, p, r) == [a[0]] + ReplaceAll(a[1..] + p + b, p, r)
    requires ReplaceAll(a[1..] + p + b, p, r) == a[1..] + r + ReplaceAll(b, p, r)
    ensures ReplaceAll(a + p + b, p, r) == a + r + ReplaceAll(b, p, r)
  {
    assert [a[0]] + a[1..] == a;
  }

  /** For a one-character pattern, replacement works piecewise on a concatenation. */
  lemma {:induction false} ReplaceAllCharConcat(a: string, b: string, c: char, r: string)
    ensures ReplaceAll(a + b, [c], r) == ReplaceAll(a, [c], r) + ReplaceAll(b, [c], r)
    decreases |a|
  {
    if a != [] {
      assert (a + b)[1..] == a[1..] + b;
      assert (a + b)[..1] == a[..1];
      ReplaceAllCharConcat(a[1..], b, c, r);
    } else {
      assert a + b == b;
    }
  }

  /** Replacing a character by text that does not hold it leaves none of it behind. */
  lemma {:induction false} ReplaceAllCharRemoves(s: string, c: char, r: string)
    requires c !in r
    ensures c !in ReplaceAll(s, [c], r)
    decreases |s|
  {
    if s != [] {
      ReplaceAllCharRemoves(s[1..], c, r);
    }
  }

  // ---------------------------------------------------------------------
  // StringBuilder.Replace(char oldChar, char newChar)
  // ---------------------------------------------------------------------

  /** Every occurrence of the character c replaced by d. */
  function ReplaceChar(s: string, c: char, d: char): string
  {
    seq(|s|, i requires 0 <= i < |s| => if s[i] == c then d else s[i])
  }

  /** Replacing characters works on each part of a text separately. */
  lemma ReplaceCharConcat(a: string, b: string, c: char, d: char)
    ensures ReplaceChar(a + b, c, d) == ReplaceChar(a, c, d) + ReplaceChar(b, c, d)
  {
    assert forall i :: 0 <= i < |a| ==> (a + b)[i] == a[i];
    assert forall i :: |a| <= i < |a| + |b| ==> (a + b)[i] == b[i - |a|];
  }

  /** A text without the character is left as it is. */
  lemma ReplaceCharAbsent(s: string, c: char, d: char)
    requires c !in s
    ensures ReplaceChar(s, c, d) == s
  {
  }

  /**
   * Rewriting the opening and then the closing delimiter of a text whose
   * body contains neither swaps exactly the two delimiters.
   */
  lemma Rebracket(body: string, open: char, close: char, open2: char, close2: char)
    requires open !in body && close !in body && open != close && open2 != close
    ensures ReplaceChar(ReplaceChar([open] + body + [close], open, open2), close, close2) == [open2] + body + [close2]
  {
    ReplaceCharConcat([open] + body, [close], open, open2);
    ReplaceCharConcat([open], body, open, open2);
    ReplaceCharAbsent(body, open, open2);
    assert ReplaceChar([open] + body + [close], open, open2) == [open2] + body + [close];
    ReplaceCharConcat([open2] + body, [close], close, close2);
    ReplaceCharConcat([open2], body, close, close2);
    ReplaceCharAbsent(body, close, close2);
  }

  /**
   * Replacing one character is the one-character case of replacing a
   * pattern: the two .NET overloads agree.
   */
  lemma {:induction false} ReplaceCharIsReplaceAll(s: string, c: char, d: char)
    ensures ReplaceChar(s, c, d) == ReplaceAll(s, [c], [d])
    decreases |s|
  {
    if s != [] {
      ReplaceCharIsReplaceAll(s[1..], c, d);
      assert ReplaceChar(s, c, d) == [if s[0] == c then d else s[0]] + ReplaceChar(s[1..], c, d);
      if s[..1] == [c] {
        assert s[0] == c;
      } else {
        assert s[0] != c;
      }
    }
  }

  // ---------------------------------------------------------------------
  // String.StartsWith(value, StringComparison.InvariantCultureIgnoreCase)
  // ---------------------------------------------------------------------

  /** ASCII lower-casing; other characters are returned unchanged. */
  function LowerAscii(c: char): char
  {
    if 'A' <= c <= 'Z' then (c as int + 32) as char else c
  }

  /** s begins with p, letters compared without regard to case. */
  predicate StartsWithIgnoreCase(s: string, p: string)
  {
    |p| <= |s| && forall i :: 0 <= i < |p| ==> LowerAscii(s[i]) == LowerAscii(p[i])
  }
}
