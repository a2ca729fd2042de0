/** Character and sequence helpers shared by the models: filtering and counting
    characters, concatenation, and JavaScript's `Array.prototype.join` and `slice(0, k)`. */
module Text {

  /** No character of `s` belongs to `chars`. */
  predicate NoneIn(s: string, chars: set<char>) {
    forall i :: 0 <= i < |s| ==> s[i] !in chars
  }

  /** The number of positions of `s` holding a character of `chars`. */
  function Count(s: string, chars: set<char>): (n: nat)
    ensures n <= |s|
    ensures n == 0 <==> NoneIn(s, chars)
  {
    if s == [] then 0 else (if s[0] in chars then 1 else 0) + Count(s[1..], chars)
  }

  /** The characters of `s` that are not in `drop`, in their original order. */
  function Remove(s: string, drop: set<char>): (r: string)
    ensures NoneIn(r, drop)
    ensures |r| == |s| - Count(s, drop)
  {
    if s == [] then [] else (if s[0] in drop then [] else [s[0]]) + Remove(s[1..], drop)
  }

  lemma {:induction false} CountAppend(a: string, b: string, chars: set<char>)
    ensures Count(a + b, chars) == Count(a, chars) + Count(b, chars)
  {
    if a == [] {
      EmptyAppend(a, b);
    } else {
      HeadOfAppend(a, b);
      CountAppend(a[1..], b, chars);
    }
  }

  lemma {:induction false} RemoveAppend(a: string, b: string, drop: set<char>)
    ensures Remove(a + b, drop) == Remove(a, drop) + Remove(b, drop)
  {
    if a == [] {
      EmptyAppend(a, b);
    } else {
      HeadOfAppend(a, b);
      RemoveAppend(a[1..], b, drop);
    }
  }

  /** Strings that agree once `drop` is removed still agree after a common prefix. */
  lemma RemovePrepend(pre: string, a: string, b: string, drop: set<char>)
    requires Remove(a, drop) == Remove(b, drop)
    ensures Remove(pre + a, drop) == Remove(pre + b, drop)
  {
    RemoveAppend(pre, a, drop);
    RemoveAppend(pre, b, drop);
  }

  /** A string is its parts before `i`, between `i` and `j`, and from `j` on. */
  lemma SliceSplit(s: string, i: nat, j: nat)
    requires i <= j <= |s|
    ensures s == s[..i] + s[i..j] + s[j..]
  {
  }

  /** Slicing the tail of `s` from `i` again is slicing `s`. */
  lemma SliceOfSuffix(s: string, i: nat, n: nat)
    requires i + n <= |s|
    ensures s[i..][..n] == s[i..i + n]
    ensures s[i..][n..] == s[i + n..]
  {
  }

  lemma AppendAssoc<T>(x: seq<T>, y: seq<T>, z: seq<T>)
    ensures x + y + z == x + (y + z)
  {
  }

  /** Indexing and slicing the two parts of a concatenation. */
  lemma PartsOfAppend<T>(r: seq<T>, q: seq<T>)
    ensures forall k :: 0 <= k < |r| ==> (r + q)[k] == r[k]
    ensures forall k :: 0 <= k < |q| ==> (r + q)[|r| + k] == q[k]
    ensures (r + q)[..|r|] == r && (r + q)[|r|..] == q
  {
  }

  /** The outer parts of a three-part concatenation. */
  lemma OuterParts<T>(a: seq<T>, m: seq<T>, b: seq<T>)
    ensures (a + m + b)[..|a|] == a && (a + m + b)[|a| + |m|..] == b
  {
  }

  /** A prefix of a suffix of `s` is a slice of `s`. */
  lemma PrefixOfSuffix<T>(s: seq<T>, i: nat, t: seq<T>, r: seq<T>)
    requires i <= |s| && t == s[i..]
    requires |r| <= |t| && r == t[..|r|]
    ensures i + |r| <= |s| && r == s[i..i + |r|]
  {
  }

  /** Slicing a concatenation from inside its first part. */
  lemma SliceOfAppend<T>(p: seq<T>, t: seq<T>, n: nat)
    requires n <= |p|
    ensures (p + t)[n..] == p[n..] + t
  {
  }

  /** A sequence is what comes before position `i`, the element there, and the rest. */
  lemma AroundIndex<T>(s: seq<T>, i: nat)
    requires i < |s|
    ensures s == s[..i] + [s[i]] + s[i + 1..]
  {
  }

  lemma EmptyAppend<T>(a: seq<T>, b: seq<T>)
    requires a == []
    ensures a + b == b
  {
  }

  lemma AppendEmpty<T>(a: seq<T>, b: seq<T>)
    requires b == []
    ensures a + b == a
  {
  }

  /** Putting an element in front of a concatenation. */
  lemma ConsAppend<T>(h: T, x: seq<T>, y: seq<T>)
    ensures [h] + (x + y) == ([h] + x) + y
  {
  }

  /** The head and tail of a concatenation whose first part is not empty. */
  lemma HeadOfAppend<T>(x: seq<T>, y: seq<T>)
    requires x != []
    ensures (x + y)[0] == x[0] && (x + y)[1..] == x[1..] + y
  {
  }

  /** A non-empty prefix is the first element followed by a prefix of the rest. */
  lemma PrefixCons(s: string, n: nat)
    requires 1 <= n <= |s|
    ensures s[..n] == [s[0]] + s[1..][..n - 1]
  {
  }

  /** A non-empty suffix is a suffix of all but the last element, then the last element. */
  lemma SuffixSnoc(s: string, n: nat)
    requires 1 <= n <= |s|
    ensures s[|s| - n..] == s[..|s| - 1][|s| - n..] + [s[|s| - 1]]
  {
  }

  /** Text that vanishes under `Remove` on both sides of `t` leaves only what `t` keeps. */
  lemma RemoveBetween(pre: string, t: string, post: string, drop: set<char>)
    requires Remove(pre, drop) == [] && Remove(post, drop) == []
    ensures Remove(pre + t + post, drop) == Remove(t, drop)
  {
    RemoveAppend(pre, t, drop);
    RemoveAppend(pre + t, post, drop);
  }

  /** Removing one set of characters and then another removes their union. */
  lemma {:induction false} RemoveTwice(s: string, d1: set<char>, d2: set<char>)
    ensures Remove(Remove(s, d1), d2) == Remove(s, d1 + d2)
  {
    if s != [] {
      RemoveTwice(s[1..], d1, d2);
      var head := if s[0] in d1 then [] else [s[0]];
      RemoveAppend(head, Remove(s[1..], d1), d2);
    }
  }

  /** Removing some characters first changes nothing when a larger set is removed after. */
  lemma {:induction false} RemoveSubsumed(s: string, d1: set<char>, d2: set<char>)
    requires d1 <= d2
    ensures Remove(Remove(s, d1), d2) == Remove(s, d2)
  {
    if s != [] {
      RemoveSubsumed(s[1..], d1, d2);
      var head := if s[0] in d1 then [] else [s[0]];
      RemoveAppend(head, Remove(s[1..], d1), d2);
    }
  }

  /** The pieces of `parts` written one after another. */
  function Concat(parts: seq<string>): string
  {
    if parts == [] then [] else parts[0] + Concat(parts[1..])
  }

  /** Putting text in front of the first piece puts it in front of the whole. */
  lemma ConcatPrepend(pre: string, parts: seq<string>)
    requires |parts| >= 1
    ensures Concat([pre + parts[0]] + parts[1..]) == pre + Concat(parts)
  {
    var ps := [pre + parts[0]] + parts[1..];
    assert ps[1..] == parts[1..];
  }

  /** `parts.join(sep)`: the pieces with `sep` written between neighbours. */
  function JoinWith(parts: seq<string>, sep: string): (r: string)
    ensures parts == [] ==> r == []
    ensures |parts| == 1 ==> r == parts[0]
    ensures |parts| >= 2 ==> parts[0] + sep <= r
    ensures |parts| >= 2 ==> |r| >= (|parts| - 1) * |sep|
  {
    if parts == [] then []
    else if |parts| == 1 then parts[0]
    else parts[0] + sep + JoinWith(parts[1..], sep)
  }

  /** Putting text in front of the first piece puts it in front of the joined string. */
  lemma JoinWithPrepend(pre: string, parts: seq<string>, sep: string)
    requires |parts| >= 1
    ensures JoinWith([pre + parts[0]] + parts[1..], sep) == pre + JoinWith(parts, sep)
  {
    var ps := [pre + parts[0]] + parts[1..];
    assert ps[1..] == parts[1..];
  }

  /** Joining two non-empty lists one after the other puts one separator between the
      two joined strings. With the one-piece case this fixes `join` for every input. */
  lemma {:induction false} JoinWithAppend(a: seq<string>, b: seq<string>, sep: string)
    requires a != [] && b != []
    ensures JoinWith(a + b, sep) == JoinWith(a, sep) + sep + JoinWith(b, sep)
  {
    var ab := a + b;
    if |a| == 1 {
      assert ab[1..] == b;
    } else {
      assert ab[1..] == a[1..] + b;
      JoinWithAppend(a[1..], b, sep);
      AppendAssoc(a[0] + sep, JoinWith(a[1..], sep) + sep, JoinWith(b, sep));
      AppendAssoc(a[0] + sep, JoinWith(a[1..], sep), sep);
    }
  }

  /** `xs.slice(0, k)`: the first `k` elements, or all of them when there are fewer. */
  function Take<T>(xs: seq<T>, k: nat): (r: seq<T>)
    ensures |r| == if |xs| <= k then |xs| else k
    ensures r <= xs
  {
    if |xs| <= k then xs else xs[..k]
  }
}
