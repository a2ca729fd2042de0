/** JavaScript's `String.prototype.split`, for the two kinds of separator the
    extraction code uses: a single character out of a set (`/[.!?]/`, `' '`) and a
    run of two or more line feeds (`/\n\n+/`). Splitting an empty string yields one
    empty piece, and a separator at either end yields an empty piece there. */
module Split {
  import opened Text

  /** `s.split(/[...]/)` for a character class: the pieces between separator characters. */
  function SplitOn(s: string, delims: set<char>): (r: seq<string>)
    ensures |r| == Count(s, delims) + 1
    ensures forall k :: 0 <= k < |r| ==> NoneIn(r[k], delims)
  {
    if s == [] then [[]]
    else
      var rest := SplitOn(s[1..], delims);
      if s[0] in delims then [[]] + rest
      else [[s[0]] + rest[0]] + rest[1..]
  }

  /** The pieces hold every character of `s` except the separators, in order. */
  lemma {:induction false} ConcatSplitOn(s: string, delims: set<char>)
    ensures Concat(SplitOn(s, delims)) == Remove(s, delims)
  {
    if s != [] {
      var rest := SplitOn(s[1..], delims);
      ConcatSplitOn(s[1..], delims);
      if s[0] in delims {
        assert ([[]] + rest)[1..] == rest;
      } else {
        ConcatPrepend([s[0]], rest);
      }
    }
  }

  /** Splitting on one character and joining with it gives back the string. */
  lemma {:induction false} JoinSplitOn(s: string, c: char)
    ensures JoinWith(SplitOn(s, {c}), [c]) == s
  {
    if s != [] {
      var rest := SplitOn(s[1..], {c});
      JoinSplitOn(s[1..], c);
      if s[0] == c {
        assert ([[]] + rest)[1..] == rest;
      } else {
        JoinWithPrepend([s[0]], rest, [c]);
      }
    }
  }

  /** A string without separators is a single piece: itself. */
  lemma {:induction false} SplitOnNoneIn(s: string, delims: set<char>)
    requires NoneIn(s, delims)
    ensures SplitOn(s, delims) == [s]
  {
    if s != [] {
      assert forall i :: 0 <= i < |s| - 1 ==> s[1..][i] == s[i + 1];
      SplitOnNoneIn(s[1..], delims);
      assert [s[0]] + s[1..] == s;
    }
  }

  /** Every separator cuts: the pieces of `a`, a separator and `b` are the pieces of
      `a` followed by the pieces of `b`. With `SplitOnNoneIn` this fixes every cut. */
  lemma {:induction false} SplitOnAt(a: string, c: char, b: string, delims: set<char>)
    requires c in delims
    ensures SplitOn(a + [c] + b, delims) == SplitOn(a, delims) + SplitOn(b, delims)
  {
    var s := a + [c] + b;
    if a == [] {
      assert s[1..] == b;
    } else {
      assert s[1..] == a[1..] + [c] + b;
      SplitOnAt(a[1..], c, b, delims);
      var x, y := SplitOn(a[1..], delims), SplitOn(b, delims);
      HeadOfAppend(x, y);
      ConsAppend([], x, y);
      ConsAppend([a[0]] + x[0], x[1..], y);
    }
  }

  /** The first piece is the text before the first separator: a prefix of `s` without
      separators, followed in `s` by a separator unless it is all of `s`. */
  lemma {:induction false} SplitOnHead(s: string, delims: set<char>)
    ensures SplitOn(s, delims)[0] <= s
    ensures var h := SplitOn(s, delims)[0];
            |h| < |s| ==> s[|h|] in delims
  {
    if s != [] {
      SplitOnHead(s[1..], delims);
    }
  }

  /** `w` is the prefix of `s` that stops just before the `(n + 1)`-th occurrence of
      `c`, or all of `s` when `c` occurs at most `n` times. */
  predicate PrefixBeforeOccurrence(s: string, c: char, n: nat, w: string) {
    && w <= s
    && Count(w, {c}) <= n
    && (|w| < |s| ==> s[|w|] == c && Count(w, {c}) == n)
  }

  /** `s.split(c).slice(0, k).join(c)` for `k >= 1` is the prefix of `s` that stops
      before the `k`-th occurrence of `c`, or all of `s` when there are fewer. */
  lemma {:induction false} JoinTakeSplitOn(s: string, c: char, k: nat)
    requires k >= 1
    ensures PrefixBeforeOccurrence(s, c, k - 1, JoinWith(Take(SplitOn(s, {c}), k), [c]))
  {
    if s != [] {
      var parts := SplitOn(s, {c});
      var rest := SplitOn(s[1..], {c});
      if s[0] == c {
        assert parts == [[]] + rest;
        if k == 1 {
          assert Take(parts, k) == [[]];
        } else {
          JoinTakeSplitOn(s[1..], c, k - 1);
          JoinTakeSeparatorFirst(s, c, k, rest);
        }
      } else {
        JoinTakeSplitOn(s[1..], c, k);
        JoinTakeOtherFirst(s, c, k, rest);
      }
    }
  }

  /** Putting a character in front of both the string and its prefix keeps the prefix
      relation, with one more occurrence to stop before when the character is `c`. */
  lemma PrefixBeforeCons(x: char, t: string, c: char, n: nat, w: string)
    requires PrefixBeforeOccurrence(t, c, n, w)
    ensures PrefixBeforeOccurrence([x] + t, c, if x == c then n + 1 else n, [x] + w)
  {
    CountAppend([x], w, {c});
    if |w| < |t| {
      assert ([x] + t)[|w| + 1] == t[|w|];
    }
  }

  /** A leading separator makes an empty first piece. */
  lemma TakeSplitOnSeparator(s: string, c: char, k: nat)
    requires k >= 1 && s != [] && s[0] == c
    ensures Take(SplitOn(s, {c}), k) == [[]] + Take(SplitOn(s[1..], {c}), k - 1)
  {
  }

  /** A leading character other than the separator starts the first piece. */
  lemma TakeSplitOnOther(s: string, c: char, k: nat)
    requires k >= 1 && s != [] && s[0] != c
    ensures var tail := Take(SplitOn(s[1..], {c}), k);
            Take(SplitOn(s, {c}), k) == [[s[0]] + tail[0]] + tail[1..]
  {
  }

  /** Joining after an empty first piece starts with the separator. */
  lemma JoinWithEmptyFirst(tail: seq<string>, sep: string)
    requires tail != []
    ensures JoinWith([[]] + tail, sep) == sep + JoinWith(tail, sep)
  {
    assert ([[]] + tail)[1..] == tail;
  }

  /** The step of `JoinTakeSplitOn` for a string that starts with the separator. */
  lemma JoinTakeSeparatorFirst(s: string, c: char, k: nat, rest: seq<string>)
    requires k >= 2 && s != [] && s[0] == c
    requires rest == SplitOn(s[1..], {c})
    requires PrefixBeforeOccurrence(s[1..], c, k - 2, JoinWith(Take(rest, k - 1), [c]))
    ensures PrefixBeforeOccurrence(s, c, k - 1, JoinWith(Take(SplitOn(s, {c}), k), [c]))
  {
    var tail := Take(rest, k - 1);
    TakeSplitOnSeparator(s, c, k);
    JoinWithEmptyFirst(tail, [c]);
    PrefixBeforeCons(c, s[1..], c, k - 2, JoinWith(tail, [c]));
    assert [c] + s[1..] == s;
  }

  /** The step of `JoinTakeSplitOn` for a string that starts with another character. */
  lemma JoinTakeOtherFirst(s: string, c: char, k: nat, rest: seq<string>)
    requires k >= 1 && s != [] && s[0] != c
    requires rest == SplitOn(s[1..], {c})
    requires PrefixBeforeOccurrence(s[1..], c, k - 1, JoinWith(Take(rest, k), [c]))
    ensures PrefixBeforeOccurrence(s, c, k - 1, JoinWith(Take(SplitOn(s, {c}), k), [c]))
  {
    var tail := Take(rest, k);
    TakeSplitOnOther(s, c, k);
    JoinWithPrepend([s[0]], tail, [c]);
    var w' := JoinWith(tail, [c]);
    PrefixBeforeCons(s[0], s[1..], c, k - 1, w');
    assert [s[0]] + s[1..] == s;
  }

  /** `s` starts with two line feeds in a row. */
  predicate StartsBlankLine(s: string) {
    |s| >= 2 && s[0] == '\n' && s[1] == '\n'
  }

  /** Positions `i` and `i + 1` of `s` both hold a line feed. */
  predicate BlankLineAt(s: string, i: nat)
    requires i + 1 < |s|
  {
    s[i] == '\n' && s[i + 1] == '\n'
  }

  /** No line feed of `s` is directly followed by another: `s` holds no `"\n\n"`. */
  predicate NoBlankLine(s: string) {
    forall i: nat :: i + 1 < |s| ==> !BlankLineAt(s, i)
  }

  /** Any slice of text without blank lines is without them too. */
  lemma NoBlankLineSlice(s: string, i: nat, j: nat)
    requires NoBlankLine(s) && i <= j <= |s|
    ensures NoBlankLine(s[i..j])
  {
    var t := s[i..j];
    forall k: nat | k + 1 < |t|
      ensures !BlankLineAt(t, k)
    {
      assert t[k] == s[i + k] && t[k + 1] == s[i + k + 1];
      assert !BlankLineAt(s, i + k);
    }
  }


  /** Drops the leading line feeds of `s`. */
  function DropNewlines(s: string): (r: string)
    ensures |r| <= |s| && r == s[|s| - |r|..]
    ensures r == [] || r[0] != '\n'
    ensures Remove(r, {'\n'}) == Remove(s, {'\n'})
  {
    if s == [] || s[0] != '\n' then s else DropNewlines(s[1..])
  }

  /** `s` is made of line feeds only. */
  predicate AllNewlines(s: string) {
    forall i :: 0 <= i < |s| ==> s[i] == '\n'
  }

  /** Dropping the leading line feeds of text that does not end in one keeps its end:
      whatever follows it is carried along. */
  lemma {:induction false} DropNewlinesAppend(a: string, t: string)
    requires a != [] && a[|a| - 1] != '\n'
    ensures DropNewlines(a + t) == DropNewlines(a) + t
    ensures var d := DropNewlines(a); d != [] && d[|d| - 1] == a[|a| - 1]
    ensures a[0] == '\n' ==> |DropNewlines(a)| < |a|
    decreases |a|
  {
    if a[0] == '\n' {
      assert (a + t)[1..] == a[1..] + t;
      DropNewlinesAppend(a[1..], t);
    }
  }

  /** Dropping a run of line feeds in front of text that does not start with one
      leaves that text. */
  lemma {:induction false} DropNewlinesRun(w: string, b: string)
    requires AllNewlines(w)
    requires b == [] || b[0] != '\n'
    ensures DropNewlines(w + b) == b
    decreases |w|
  {
    if w == [] {
      assert w + b == b;
    } else {
      assert (w + b)[1..] == w[1..] + b;
      DropNewlinesRun(w[1..], b);
    }
  }

  /** `s.split(/\n\n+/)`: the pieces between runs of two or more line feeds. */
  function SplitBlankLines(s: string): (r: seq<string>)
    ensures |r| >= 1
    ensures forall k :: 0 <= k < |r| ==> NoBlankLine(r[k])
    ensures s != [] && !StartsBlankLine(s) ==> r[0] != [] && r[0][0] == s[0]
    decreases |s|
  {
    if s == [] then [[]]
    else if StartsBlankLine(s) then [[]] + SplitBlankLines(DropNewlines(s))
    else
      var rest := SplitBlankLines(s[1..]);
      NoBlankLinePrepend(s[0], rest[0]);
      [[s[0]] + rest[0]] + rest[1..]
  }

  /** Putting a character in front of text without blank lines creates none, unless
      the character is a line feed and the text starts with one. */
  lemma NoBlankLinePrepend(c: char, t: string)
    requires NoBlankLine(t)
    requires c == '\n' ==> t == [] || t[0] != '\n'
    ensures NoBlankLine([c] + t)
  {
    var s := [c] + t;
    forall i: nat | i + 1 < |s|
      ensures !BlankLineAt(s, i)
    {
      if i > 0 {
        assert !BlankLineAt(t, i - 1);
      }
    }
  }

  /** The pieces hold every character of `s` other than line feeds, in order. */
  lemma {:induction false} ConcatSplitBlankLines(s: string)
    ensures Remove(Concat(SplitBlankLines(s)), {'\n'}) == Remove(s, {'\n'})
    decreases |s|
  {
    if s != [] {
      if StartsBlankLine(s) {
        ConcatSplitBlankLines(DropNewlines(s));
        ConcatSkipBlankLine(s);
      } else {
        ConcatSplitBlankLines(s[1..]);
        ConcatKeepFirst(s);
      }
    }
  }

  /** The step of `ConcatSplitBlankLines` for a string that starts with a blank line. */
  lemma ConcatSkipBlankLine(s: string)
    requires StartsBlankLine(s)
    requires Remove(Concat(SplitBlankLines(DropNewlines(s))), {'\n'}) == Remove(DropNewlines(s), {'\n'})
    ensures Remove(Concat(SplitBlankLines(s)), {'\n'}) == Remove(s, {'\n'})
  {
    var rest := SplitBlankLines(DropNewlines(s));
    assert ([[]] + rest)[1..] == rest;
    assert Concat(SplitBlankLines(s)) == Concat(rest);
  }

  /** The step of `ConcatSplitBlankLines` for a string whose first character stays. */
  lemma ConcatKeepFirst(s: string)
    requires s != [] && !StartsBlankLine(s)
    requires Remove(Concat(SplitBlankLines(s[1..])), {'\n'}) == Remove(s[1..], {'\n'})
    ensures Remove(Concat(SplitBlankLines(s)), {'\n'}) == Remove(s, {'\n'})
  {
    ConcatFirstKept(s);
    RemovePrepend([s[0]], Concat(SplitBlankLines(s[1..])), s[1..], {'\n'});
    assert s == [s[0]] + s[1..];
  }

  /** When the first character of `s` stays, it heads the written-out pieces. */
  lemma ConcatFirstKept(s: string)
    requires s != [] && !StartsBlankLine(s)
    ensures Concat(SplitBlankLines(s)) == [s[0]] + Concat(SplitBlankLines(s[1..]))
  {
    var rest := SplitBlankLines(s[1..]);
    assert SplitBlankLines(s) == [[s[0]] + rest[0]] + rest[1..];
    ConcatPrepend([s[0]], rest);
  }

  /** `s.split(/\n\n+/)` leaves `s` whole exactly when `s` holds no blank line. */
  lemma {:induction false} SplitBlankLinesWhole(s: string)
    ensures SplitBlankLines(s) == [s] <==> NoBlankLine(s)
    decreases |s|
  {
    if NoBlankLine(s) && s != [] {
      assert NoBlankLine(s[1..]) by {
        forall i: nat | i + 1 < |s[1..]|
          ensures !BlankLineAt(s[1..], i)
        {
          assert !BlankLineAt(s, i + 1);
        }
      }
      SplitBlankLinesWhole(s[1..]);
      assert |s| >= 2 ==> !BlankLineAt(s, 0);
      assert SplitBlankLines(s) == [[s[0]] + s[1..]];
      assert [s[0]] + s[1..] == s;
    }
  }

  /** Every maximal run of two or more line feeds cuts: the pieces of `a`, the run and
      `b` are the pieces of `a` followed by the pieces of `b`. With
      `SplitBlankLinesWhole` this fixes every cut. */
  lemma {:induction false} SplitBlankLinesAt(a: string, w: string, b: string)
    requires |w| >= 2 && AllNewlines(w)
    requires a == [] || a[|a| - 1] != '\n'
    requires b == [] || b[0] != '\n'
    ensures SplitBlankLines(a + w + b) == SplitBlankLines(a) + SplitBlankLines(b)
    decreases |a|
  {
    AppendAssoc(a, w, b);
    if a == [] {
      assert a + (w + b) == w + b;
      DropNewlinesRun(w, b);
    } else if StartsBlankLine(a) {
      DropNewlinesAppend(a, w + b);
      var d := DropNewlines(a);
      SplitBlankLinesAt(d, w, b);
      AppendAssoc(d, w, b);
      BlankLineFirstStep(a, w + b, SplitBlankLines(b));
    } else {
      SplitBlankLinesAt(a[1..], w, b);
      AppendAssoc(a[1..], w, b);
      KeptFirstStep(a, w + b, SplitBlankLines(b));
    }
  }

  /** The step of `SplitBlankLinesAt` for `a` starting with a blank line. */
  lemma BlankLineFirstStep(a: string, t: string, y: seq<string>)
    requires StartsBlankLine(a) && a[|a| - 1] != '\n'
    requires DropNewlines(a + t) == DropNewlines(a) + t
    requires SplitBlankLines(DropNewlines(a) + t) == SplitBlankLines(DropNewlines(a)) + y
    ensures SplitBlankLines(a + t) == SplitBlankLines(a) + y
  {
    assert (a + t)[0] == a[0] && (a + t)[1] == a[1];
    var x := SplitBlankLines(DropNewlines(a));
    assert SplitBlankLines(a) == [[]] + x;
    assert SplitBlankLines(a + t) == [[]] + SplitBlankLines(DropNewlines(a) + t);
    ConsAppend([], x, y);
  }

  /** The step of `SplitBlankLinesAt` for `a` whose first character stays. */
  lemma KeptFirstStep(a: string, t: string, y: seq<string>)
    requires a != [] && !StartsBlankLine(a) && a[|a| - 1] != '\n'
    requires SplitBlankLines(a[1..] + t) == SplitBlankLines(a[1..]) + y
    ensures SplitBlankLines(a + t) == SplitBlankLines(a) + y
  {
    assert !StartsBlankLine(a + t) by {
      if |a| >= 2 {
        assert (a + t)[1] == a[1];
      }
    }
    HeadOfAppend(a, t);
    var x := SplitBlankLines(a[1..]);
    HeadOfAppend(x, y);
    ConsAppend([a[0]] + x[0], x[1..], y);
  }
}
