/** JavaScript whitespace handling: the `\s` character class, `String.prototype.trim`
    and the global replacement `replace(/\s+/g, ' ')`. */
module Whitespace {
  import opened Text

  /** The code points matched by `\s` and removed by `trim`: ECMAScript's WhiteSpace
      (tab, vertical tab, form feed, space, no-break space, byte order mark and the
      Unicode space separators) and LineTerminator (line feed, carriage return, line
      and paragraph separators). */
  const WsChars: set<char> := {
    '\t', '\n', '\U{000B}', '\U{000C}', '\r', ' ', '\U{00A0}', '\U{1680}',
    '\U{2000}', '\U{2001}', '\U{2002}', '\U{2003}', '\U{2004}', '\U{2005}',
    '\U{2006}', '\U{2007}', '\U{2008}', '\U{2009}', '\U{200A}',
    '\U{2028}', '\U{2029}', '\U{202F}', '\U{205F}', '\U{3000}', '\U{FEFF}'
  }

  predicate IsWs(c: char) {
    c in WsChars
  }

  predicate AllWs(s: string) {
    forall i :: 0 <= i < |s| ==> IsWs(s[i])
  }

  /** Neither end of `s` is whitespace. */
  predicate IsTrimmed(s: string) {
    s == [] || (!IsWs(s[0]) && !IsWs(s[|s| - 1]))
  }

  /** If position `i` of `s` is whitespace, it is a plain space and the next is not whitespace. */
  predicate SingleSpaceAt(s: string, i: nat)
    requires i < |s|
  {
    IsWs(s[i]) ==> s[i] == ' ' && (i + 1 < |s| ==> !IsWs(s[i + 1]))
  }

  /** Every whitespace character of `s` is a plain space and none is followed by another. */
  predicate Collapsed(s: string) {
    forall i: nat :: i < |s| ==> SingleSpaceAt(s, i)
  }

  /** What `text.replace(/\s+/g, ' ').trim()` produces. */
  predicate Normalised(s: string) {
    IsTrimmed(s) && Collapsed(s)
  }

  /** Normalised text holds no line feed: every whitespace character in it is a space. */
  lemma NormalisedNoLineFeed(s: string)
    requires Normalised(s)
    ensures forall i :: 0 <= i < |s| ==> s[i] != '\n'
  {
    forall i | 0 <= i < |s|
      ensures s[i] != '\n'
    {
      assert SingleSpaceAt(s, i);
    }
  }

  lemma AllWsCons(c: char, s: string)
    requires IsWs(c) && AllWs(s)
    ensures AllWs([c] + s)
  {
  }

  /** Text whose parts before and after `i` are all whitespace is all whitespace. */
  lemma AllWsSplit(s: string, i: nat)
    requires i <= |s| && AllWs(s[..i]) && AllWs(s[i..])
    ensures AllWs(s)
  {
    forall k | 0 <= k < |s|
      ensures IsWs(s[k])
    {
      if k < i {
        assert s[..i][k] == s[k];
      } else {
        assert s[i..][k - i] == s[k];
      }
    }
  }

  lemma AllWsSnoc(s: string, c: char)
    requires AllWs(s) && IsWs(c)
    ensures AllWs(s + [c])
  {
  }

  /** The length of the whitespace run at the start of `s`. */
  function LeadingWs(s: string): (n: nat)
    ensures n <= |s| && AllWs(s[..n])
    ensures n < |s| ==> !IsWs(s[n])
  {
    if s == [] || !IsWs(s[0]) then 0
    else
      var n := 1 + LeadingWs(s[1..]);
      PrefixCons(s, n);
      AllWsCons(s[0], s[1..][..n - 1]);
      n
  }

  /** The length of the whitespace run at the end of `s`. */
  function TrailingWs(s: string): (n: nat)
    ensures n <= |s| && AllWs(s[|s| - n..])
    ensures n < |s| ==> !IsWs(s[|s| - 1 - n])
  {
    if s == [] || !IsWs(s[|s| - 1]) then 0
    else
      var init := s[..|s| - 1];
      var n := 1 + TrailingWs(init);
      SuffixSnoc(s, n);
      AllWsSnoc(init[|init| - (n - 1)..], s[|s| - 1]);
      n
  }

  /** Drops the leading whitespace of `s`. */
  function TrimStart(s: string): (r: string)
    ensures |r| <= |s|
    ensures r == [] || !IsWs(r[0])
    ensures AllWs(s[..|s| - |r|])
    ensures s != [] && IsWs(s[0]) ==> |r| < |s|
  {
    s[LeadingWs(s)..]
  }

  /** Drops the trailing whitespace of `s`. */
  function TrimEnd(s: string): (r: string)
    ensures |r| <= |s|
    ensures r == [] || !IsWs(r[|r| - 1])
    ensures AllWs(s[|r|..])
  {
    s[..|s| - TrailingWs(s)]
  }

  /** Cutting trailing whitespace from a suffix that starts with non-whitespace leaves
      a trimmed slice of `s` with only whitespace after it. */
  lemma TrimmedSlice(s: string, i: nat, t: string, r: string)
    requires i <= |s| && t == s[i..]
    requires t == [] || !IsWs(t[0])
    requires |r| <= |t| && r == t[..|r|]
    requires r == [] || !IsWs(r[|r| - 1])
    requires AllWs(t[|r|..])
    ensures IsTrimmed(r) && i + |r| <= |s|
    ensures r == s[i..i + |r|] && AllWs(s[i + |r|..])
  {
    SliceOfSuffix(s, i, |r|);
    if r != [] {
      assert r[0] == t[0];
    }
  }

  /** `s.trim()`: the slice of `s` left once whitespace is cut from both ends. */
  function Trim(s: string): (r: string)
    ensures IsTrimmed(r)
    ensures LeadingWs(s) + |r| <= |s|
    ensures AllWs(s[LeadingWs(s) + |r|..])
  {
    var t := TrimStart(s);
    var r := TrimEnd(t);
    TrimmedSlice(s, LeadingWs(s), t, r);
    r
  }

  /** What `trim` keeps is the slice of `s` that starts after the leading whitespace. */
  lemma TrimIsSlice(s: string)
    ensures var i := LeadingWs(s);
            i + |Trim(s)| <= |s| && Trim(s) == s[i..i + |Trim(s)|]
  {
    var i := LeadingWs(s);
    var t := TrimStart(s);
    var r := TrimEnd(t);
    assert Trim(s) == r;
    PrefixOfSuffix(s, i, t, r);
  }

  /** Trimming changes exactly the strings that are not already trimmed. */
  lemma TrimFixesTrimmed(s: string)
    ensures Trim(s) == s <==> IsTrimmed(s)
  {
    if IsTrimmed(s) && s != [] {
      assert TrimStart(s) == s;
      assert TrimEnd(s) == s;
    }
  }

  /** Trimming leaves nothing exactly when the string is all whitespace. */
  lemma TrimEmpty(s: string)
    ensures Trim(s) == [] <==> AllWs(s)
  {
    var i, r := LeadingWs(s), Trim(s);
    if r == [] {
      AllWsSplit(s, i);
    } else {
      TrimIsSlice(s);
      assert r[0] == s[i];
    }
  }

  /** `s.replace(/\s+/g, ' ')`: every maximal run of whitespace becomes one space. */
  function CollapseWs(s: string): (r: string)
    ensures Collapsed(r)
    ensures |r| <= |s|
    ensures r == [] <==> s == []
    ensures s != [] && IsWs(s[0]) ==> r[0] == ' '
    ensures s != [] && !IsWs(s[0]) ==> r[0] == s[0]
    decreases |s|
  {
    if s == [] then []
    else if IsWs(s[0]) then
      var rest := CollapseWs(TrimStart(s));
      CollapsedPrepend(' ', rest);
      [' '] + rest
    else
      var rest := CollapseWs(s[1..]);
      CollapsedPrepend(s[0], rest);
      [s[0]] + rest
  }

  /** Putting a character in front of collapsed text keeps it collapsed, unless the
      character is whitespace other than a space or is followed by whitespace. */
  lemma CollapsedPrepend(c: char, t: string)
    requires Collapsed(t)
    requires IsWs(c) ==> c == ' ' && (t == [] || !IsWs(t[0]))
    ensures Collapsed([c] + t)
  {
    var s := [c] + t;
    forall i: nat | i < |s|
      ensures SingleSpaceAt(s, i)
    {
      if i > 0 {
        assert SingleSpaceAt(t, i - 1);
      }
    }
  }

  /** Collapsing is the identity on text that is already collapsed. */
  lemma {:induction false} CollapseFixesCollapsed(s: string)
    requires Collapsed(s)
    ensures CollapseWs(s) == s
    decreases |s|
  {
    if s != [] {
      CollapsedSlice(s, 1, |s|);
      assert s[1..|s|] == s[1..];
      CollapseFixesCollapsed(s[1..]);
      if IsWs(s[0]) {
        assert SingleSpaceAt(s, 0);
        assert LeadingWs(s[1..]) == 0;
        assert LeadingWs(s) == 1;
      }
    }
  }

  /** Any slice of collapsed text is collapsed. */
  lemma CollapsedSlice(s: string, i: nat, j: nat)
    requires Collapsed(s) && i <= j <= |s|
    ensures Collapsed(s[i..j])
  {
    forall k: nat | k < j - i
      ensures SingleSpaceAt(s[i..j], k)
    {
      assert SingleSpaceAt(s, i + k);
    }
  }

  /** Trimming keeps text collapsed. */
  lemma CollapsedTrim(s: string)
    requires Collapsed(s)
    ensures Collapsed(Trim(s))
  {
    TrimIsSlice(s);
    var i, t := LeadingWs(s), Trim(s);
    assert t == s[i..i + |t|];
    CollapsedSlice(s, i, i + |t|);
  }

  /** Whitespace-only text contributes nothing once whitespace is removed. */
  lemma {:induction false} RemoveAllWs(s: string)
    requires AllWs(s)
    ensures Remove(s, WsChars) == []
  {
    if s != [] {
      RemoveAllWs(s[1..]);
    }
  }

  /** Trimming loses no character other than whitespace. */
  lemma RemoveWsTrim(s: string)
    ensures Remove(Trim(s), WsChars) == Remove(s, WsChars)
  {
    TrimIsSlice(s);
    var t := Trim(s);
    var i := LeadingWs(s);
    var pre, post := s[..i], s[i + |t|..];
    SliceSplit(s, i, i + |t|);
    RemoveAllWs(pre);
    RemoveAllWs(post);
    RemoveBetween(pre, t, post, WsChars);
  }

  /** Dropping leading whitespace loses no other character. */
  lemma RemoveWsTrimStart(s: string)
    ensures Remove(TrimStart(s), WsChars) == Remove(s, WsChars)
  {
    var t := TrimStart(s);
    assert s == s[..|s| - |t|] + t;
    RemoveAppend(s[..|s| - |t|], t, WsChars);
    RemoveAllWs(s[..|s| - |t|]);
  }

  /** Collapsing whitespace runs loses no character other than whitespace. */
  lemma {:induction false} RemoveWsCollapse(s: string)
    ensures Remove(CollapseWs(s), WsChars) == Remove(s, WsChars)
    decreases |s|
  {
    if s != [] {
      if IsWs(s[0]) {
        var t := TrimStart(s);
        RemoveWsCollapse(t);
        RemoveWsTrimStart(s);
        RemoveAppend([' '], CollapseWs(t), WsChars);
      } else {
        RemoveWsCollapse(s[1..]);
        RemoveAppend([s[0]], CollapseWs(s[1..]), WsChars);
      }
    }
  }

  // ---------------------------------------------------------------------------
  // Where the whitespace runs go

  /** The leading whitespace run of `p + t`: the run of `p` when it stops inside `p`,
      otherwise all of `p` and then the run of `t`. */
  lemma {:induction false} LeadingWsAppend(p: string, t: string)
    ensures LeadingWs(p + t) == if LeadingWs(p) < |p| then LeadingWs(p) else |p| + LeadingWs(t)
  {
    if p == [] {
      assert p + t == t;
    } else {
      HeadOfAppend(p, t);
      if IsWs(p[0]) {
        LeadingWsAppend(p[1..], t);
      }
    }
  }

  /** Text that is all whitespace is one leading whitespace run. */
  lemma LeadingWsAll(w: string)
    requires AllWs(w)
    ensures LeadingWs(w) == |w|
  {
  }

  /** When the leading whitespace of `p` stops inside `p`, dropping it from `p + t`
      leaves `t` untouched. */
  lemma TrimStartAppend(p: string, t: string)
    requires LeadingWs(p) < |p|
    ensures TrimStart(p + t) == TrimStart(p) + t
  {
    LeadingWsAppend(p, t);
    SliceOfAppend(p, t, LeadingWs(p));
  }

  /** Dropping the leading whitespace of a whitespace run followed by text that does
      not start with whitespace leaves that text. */
  lemma TrimStartRun(w: string, b: string)
    requires AllWs(w)
    requires b == [] || !IsWs(b[0])
    ensures TrimStart(w + b) == b
  {
    LeadingWsAll(w);
    LeadingWsAppend(w, b);
    assert LeadingWs(b) == 0;
    assert (w + b)[|w|..] == b;
  }

  /** A whitespace character in front changes nothing once leading whitespace is dropped. */
  lemma TrimStartWsHead(c: char, s: string)
    requires IsWs(c)
    ensures TrimStart([c] + s) == TrimStart(s)
  {
    LeadingWsAppend([c], s);
    assert LeadingWs([c]) == 1;
    var n := LeadingWs(s);
    assert ([c] + s)[1 + n..] == s[n..];
  }

  /** A whitespace character in front changes nothing once the text is trimmed. */
  lemma TrimWsHead(c: char, s: string)
    requires IsWs(c)
    ensures Trim([c] + s) == Trim(s)
  {
    TrimStartWsHead(c, s);
  }

  /** A character that is not whitespace lies before any all-whitespace suffix. */
  lemma NotWsBefore(s: string, i: nat, j: nat)
    requires i <= |s| && AllWs(s[i..])
    requires j < |s| && !IsWs(s[j])
    ensures j < i
  {
    forall k | i <= k < |s|
      ensures IsWs(s[k])
    {
      assert s[i..][k - i] == s[k];
    }
  }

  /** Text that does not end in whitespace has a leading whitespace run that stops
      inside it. */
  lemma LeadingWsBeforeLast(a: string)
    requires a != [] && !IsWs(a[|a| - 1])
    ensures LeadingWs(a) < |a|
  {
    var n := LeadingWs(a);
    forall k | 0 <= k < n
      ensures IsWs(a[k])
    {
      assert a[..n][k] == a[k];
    }
  }

  /** Trimming a trimmed, non-empty text followed by whitespace gives back that text:
      only whitespace after the last other character is cut. */
  lemma TrimUnique(r: string, q: string)
    requires AllWs(q)
    requires r != [] && IsTrimmed(r)
    ensures Trim(r + q) == r
  {
    var s := r + q;
    PartsOfAppend(r, q);
    assert LeadingWs(s) == 0;
    TrimIsSlice(s);
    var t := Trim(s);
    NotWsBefore(s, |t|, |r| - 1);
    assert t[|t| - 1] == s[|t| - 1];
    NotWsBefore(s, |r|, |t| - 1);
    assert s[0..|r|] == r;
  }

  /** Text without whitespace is left as it is by the replacement, and so is anything
      after it: `CollapseWs` works on `t` alone. */
  lemma {:induction false} CollapseNoWsPrefix(a: string, t: string)
    requires NoneIn(a, WsChars)
    ensures CollapseWs(a + t) == a + CollapseWs(t)
  {
    if a == [] {
      assert a + t == t;
    } else {
      HeadOfAppend(a, t);
      assert a[0] !in WsChars;
      assert forall i :: 0 <= i < |a| - 1 ==> a[1..][i] == a[i + 1];
      CollapseNoWsPrefix(a[1..], t);
      AppendAssoc([a[0]], a[1..], CollapseWs(t));
      assert [a[0]] + a[1..] == a;
    }
  }

  /** Text without whitespace is already collapsed. */
  lemma CollapseNoWs(a: string)
    requires NoneIn(a, WsChars)
    ensures CollapseWs(a) == a
  {
    CollapseNoWsPrefix(a, []);
    assert a + [] == a;
  }

  /** A whitespace character starts a run that becomes one space; the text after the
      run is collapsed on its own. */
  lemma CollapseWsHead(c: char, b: string)
    requires IsWs(c)
    ensures CollapseWs([c] + b) == " " + CollapseWs(TrimStart(b))
  {
    TrimStartWsHead(c, b);
  }

  /** Every maximal whitespace run becomes exactly one space in place: the text before
      the run and the text after it are collapsed independently. With `CollapseNoWs`
      this fixes the result of the replacement. */
  lemma {:induction false} CollapseWsRun(a: string, w: string, b: string)
    requires w != [] && AllWs(w)
    requires a == [] || !IsWs(a[|a| - 1])
    requires b == [] || !IsWs(b[0])
    ensures CollapseWs(a + w + b) == CollapseWs(a) + " " + CollapseWs(b)
    decreases |a|
  {
    AppendAssoc(a, w, b);
    AppendAssoc(CollapseWs(a), " ", CollapseWs(b));
    if a == [] {
      assert a + (w + b) == w + b;
      HeadOfAppend(w, b);
      TrimStartRun(w, b);
    } else if IsWs(a[0]) {
      LeadingWsBeforeLast(a);
      TrimStartAppend(a, w + b);
      var a' := TrimStart(a);
      CollapseWsRun(a', w, b);
      AppendAssoc(a', w, b);
      AppendAssoc(CollapseWs(a'), " ", CollapseWs(b));
      CollapseWsSpaceStep(a, w + b, " " + CollapseWs(b));
    } else {
      CollapseWsRun(a[1..], w, b);
      AppendAssoc(a[1..], w, b);
      AppendAssoc(CollapseWs(a[1..]), " ", CollapseWs(b));
      CollapseWsKeepStep(a, w + b, " " + CollapseWs(b));
    }
  }

  /** The step of `CollapseWsRun` for text starting with whitespace. */
  lemma CollapseWsSpaceStep(a: string, t: string, z: string)
    requires a != [] && IsWs(a[0])
    requires TrimStart(a + t) == TrimStart(a) + t
    requires CollapseWs(TrimStart(a) + t) == CollapseWs(TrimStart(a)) + z
    ensures CollapseWs(a + t) == CollapseWs(a) + z
  {
    HeadOfAppend(a, t);
    AppendAssoc([' '], CollapseWs(TrimStart(a)), z);
  }

  /** The step of `CollapseWsRun` for text starting with another character. */
  lemma CollapseWsKeepStep(a: string, t: string, z: string)
    requires a != [] && !IsWs(a[0])
    requires CollapseWs(a[1..] + t) == CollapseWs(a[1..]) + z
    ensures CollapseWs(a + t) == CollapseWs(a) + z
  {
    HeadOfAppend(a, t);
    AppendAssoc([a[0]], CollapseWs(a[1..]), z);
  }

  /** Collapsing keeps the trimmed text the same whether or not leading whitespace was
      dropped first. */
  lemma TrimCollapseStart(b: string)
    ensures Trim(CollapseWs(b)) == Trim(CollapseWs(TrimStart(b)))
  {
    if b != [] && IsWs(b[0]) {
      TrimWsHead(' ', CollapseWs(TrimStart(b)));
    } else {
      assert LeadingWs(b) == 0;
      assert b[0..] == b;
    }
  }

  /** Trimming a word, a space and collapsed text that does not start with whitespace:
      the word, a space and the trimmed rest, where an empty word or an empty rest
      brings its space along. */
  lemma TrimAfterWord(a: string, y: string)
    requires NoneIn(a, WsChars)
    requires y == [] || !IsWs(y[0])
    ensures Trim(a + " " + y) ==
              if a == [] then Trim(y)
              else if Trim(y) == [] then a
              else a + " " + Trim(y)
  {
    if a == [] {
      EmptyAppend(a, " ");
      TrimNoWord(y);
    } else {
      TrimmedWord(a);
      if Trim(y) == [] {
        TrimEmptyStart(y);
        TrimWordSpace(a);
        AppendEmpty(a + " ", y);
      } else {
        TrimWordRest(a, y);
      }
    }
  }

  /** An empty word and its space vanish when trimmed. */
  lemma TrimNoWord(y: string)
    ensures Trim(" " + y) == Trim(y)
  {
    assert " " + y == [' '] + y;
    TrimWsHead(' ', y);
  }

  /** A non-empty word is trimmed. */
  lemma TrimmedWord(a: string)
    requires a != [] && NoneIn(a, WsChars)
    ensures IsTrimmed(a)
  {
    assert a[0] !in WsChars && a[|a| - 1] !in WsChars;
  }

  /** Text that does not start with whitespace trims to nothing only when it is empty. */
  lemma TrimEmptyStart(y: string)
    requires y == [] || !IsWs(y[0])
    ensures Trim(y) == [] <==> y == []
  {
    TrimEmpty(y);
  }

  /** A word followed by one space trims to the word. */
  lemma TrimWordSpace(a: string)
    requires a != [] && IsTrimmed(a)
    ensures Trim(a + " ") == a
  {
    assert AllWs(" ");
    TrimUnique(a, " ");
  }

  /** A word, a space and text that starts with something other than whitespace and
      is not blank: trimming cuts only the end of that text. */
  lemma TrimWordRest(a: string, y: string)
    requires a != [] && IsTrimmed(a)
    requires y != [] && !IsWs(y[0]) && Trim(y) != []
    ensures Trim(a + " " + y) == a + " " + Trim(y)
  {
    var t := Trim(y);
    TrimKeepsStart(y);
    WordSpaceTrimmed(a, t);
    TrimUnique(a + " " + t, y[|t|..]);
    AppendAssoc(a + " ", t, y[|t|..]);
  }

  /** Text that does not start with whitespace is its trimmed text followed by
      whitespace only. */
  lemma TrimKeepsStart(y: string)
    requires y == [] || !IsWs(y[0])
    ensures |Trim(y)| <= |y|
    ensures y == Trim(y) + y[|Trim(y)|..] && AllWs(y[|Trim(y)|..])
  {
    TrimIsSlice(y);
    assert LeadingWs(y) == 0;
    SliceSplit(y, 0, |Trim(y)|);
  }

  /** A word, a space and a non-empty trimmed text form a trimmed text. */
  lemma WordSpaceTrimmed(a: string, t: string)
    requires a != [] && IsTrimmed(a)
    requires t != [] && IsTrimmed(t)
    ensures IsTrimmed(a + " " + t)
  {
    PartsOfAppend(a + " ", t);
    PartsOfAppend(a, " ");
  }
}
