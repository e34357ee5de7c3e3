/** The string primitives of Qt's QString and of std::string that the
    boundary layer is built from, over `seq<char>`.  Positions are character
    indices; "not found" is -1, as in the C++ APIs. */
module Text {

  /** Position of the first `c` in `s`, or -1 when `s` holds none
      (QString::indexOf(QChar), std::string::find). */
  function IndexOf(s: string, c: char): (r: int)
    ensures -1 <= r < |s|
    ensures r < 0 <==> c !in s
    ensures r >= 0 ==> s[r] == c && c !in s[..r]
  {
    if |s| == 0 then -1
    else if s[0] == c then 0
    else
      var k := IndexOf(s[1..], c);
      if k < 0 then -1
      else
        assert s[..k + 1] == [s[0]] + s[1..][..k];
        k + 1
  }

  /** Position of the last `c` in `s`, or -1 when `s` holds none
      (QString::lastIndexOf). */
  function LastIndexOf(s: string, c: char): (r: int)
    ensures -1 <= r < |s|
    ensures r < 0 <==> c !in s
    ensures r >= 0 ==> s[r] == c && c !in s[r + 1..]
  {
    if |s| == 0 then -1
    else if s[|s| - 1] == c then |s| - 1
    else
      var k := LastIndexOf(s[..|s| - 1], c);
      assert k >= 0 ==> s[k + 1..] == s[..|s| - 1][k + 1..] + [s[|s| - 1]];
      assert k < 0 ==> s == s[..|s| - 1] + [s[|s| - 1]];
      k
  }

  /** Any position holding `c` with no `c` before it is the first one. */
  lemma IndexOfUnique(s: string, c: char, k: int)
    requires 0 <= k < |s| && s[k] == c && c !in s[..k]
    ensures IndexOf(s, c) == k
  {
  }

  /** Splitting just after a `c`-free first part. */
  lemma SplitAtFirst(p: string, tail: string, c: char)
    requires c !in p
    ensures Split(p + [c] + tail, c) == [p] + Split(tail, c)
  {
    var s := p + [c] + tail;
    assert s[..|p|] == p;
    IndexOfUnique(s, c, |p|);
    assert s[|p| + 1..] == tail;
  }

  /** A prefix free of `c` shifts the first `c` by its length. */
  lemma IndexOfAfterPrefix(p: string, s: string, c: char)
    requires c !in p
    ensures IndexOf(p + s, c) == (if IndexOf(s, c) < 0 then -1 else |p| + IndexOf(s, c))
  {
    var k := IndexOf(s, c);
    if k < 0 {
      assert forall i :: 0 <= i < |p + s| ==> (p + s)[i] != c by {
        forall i | 0 <= i < |p + s|
          ensures (p + s)[i] != c
        {
          if i < |p| { assert (p + s)[i] == p[i]; } else { assert (p + s)[i] == s[i - |p|]; }
        }
      }
    } else {
      assert (p + s)[..|p| + k] == p + s[..k];
      IndexOfUnique(p + s, c, |p| + k);
    }
  }

  /** QString::mid(position, n): `n` characters from `position`; a negative
      `n`, or one reaching past the end, takes everything to the end, and a
      position past the end gives the empty string. */
  function Mid(s: string, pos: int, n: int): (r: string)
    ensures |r| <= |s|
    ensures 0 <= pos <= |s| ==> r <= s[pos..]
    ensures 0 <= pos <= |s| && (n < 0 || pos + n >= |s|) ==> r == s[pos..]
  {
    if pos > |s| then ""
    else if pos < 0 then
      if n < 0 || n + pos >= |s| then s
      else if n + pos <= 0 then ""
      else s[..n + pos]
    else if n < 0 || n > |s| - pos then s[pos..]
    else s[pos..pos + n]
  }

  /** QString::left(n): the first `n` characters, or all of them when `n`
      is negative or reaches past the end. */
  function Left(s: string, n: int): (r: string)
    ensures r <= s
    ensures 0 <= n <= |s| ==> |r| == n
  {
    if n < 0 || n >= |s| then s else s[..n]
  }

  lemma LeftPrefix(s: string, n: int)
    requires 0 <= n <= |s|
    ensures Left(s, n) == s[..n]
  {
  }

  /** QString::split(QChar) with empty parts kept: the pieces between the
      occurrences of `c`, in order; there is always at least one. */
  function Split(s: string, c: char): (parts: seq<string>)
    ensures |parts| >= 1
    ensures forall i :: 0 <= i < |parts| ==> c !in parts[i]
    decreases |s|
  {
    var i := IndexOf(s, c);
    if i < 0 then [s]
    else
      var rest := Split(s[i + 1..], c);
      PartsFree(s[..i], rest, c);
      [s[..i]] + rest
  }

  /** Prepending a `c`-free part to `c`-free parts keeps every part free. */
  lemma PartsFree(head: string, rest: seq<string>, c: char)
    requires c !in head
    requires forall i :: 0 <= i < |rest| ==> c !in rest[i]
    ensures forall i :: 0 <= i < |[head] + rest| ==> c !in ([head] + rest)[i]
  {
    forall i | 0 <= i < |[head] + rest|
      ensures c !in ([head] + rest)[i]
    {
      if i > 0 {
        assert ([head] + rest)[i] == rest[i - 1];
      }
    }
  }

  /** QStringList::join(sep). */
  function Join(parts: seq<string>, sep: string): (joined: string)
  {
    if |parts| == 0 then ""
    else if |parts| == 1 then parts[0]
    else parts[0] + sep + Join(parts[1..], sep)
  }

  /** QString::replace(c, rep) for a single-character pattern: every `c`
      is replaced, scanning left to right. */
  function ReplaceAll(s: string, c: char, rep: string): (r: string)
  {
    if |s| == 0 then ""
    else (if s[0] == c then rep else [s[0]]) + ReplaceAll(s[1..], c, rep)
  }

  /** Number of occurrences of `c` in `s`. */
  function Count(s: string, c: char): nat
  {
    multiset(s)[c]
  }

  /** std::tolower in the C locale, character by character: only `A`-`Z`
      change. */
  function LowerChar(ch: char): (lower: char)
  {
    if 'A' <= ch <= 'Z' then (ch as int + 32) as char else ch
  }

  function AsciiLower(s: string): (r: string)
    ensures |r| == |s|
    ensures forall i :: 0 <= i < |s| ==> r[i] == LowerChar(s[i])
  {
    if |s| == 0 then "" else [LowerChar(s[0])] + AsciiLower(s[1..])
  }

  predicate IsLowerCase(s: string)
  {
    forall i :: 0 <= i < |s| ==> !('A' <= s[i] <= 'Z')
  }

  // ---------------------------------------------------------------------
  // Split, join and replace compose

  /** Every character of a part of a split occurs in the string split. */
  lemma {:induction false} SplitPartsFrom(s: string, c: char)
    ensures forall i, ch :: 0 <= i < |Split(s, c)| && ch in Split(s, c)[i] ==> ch in s
    decreases |s|
  {
    var i := IndexOf(s, c);
    if i >= 0 {
      SplitPartsFrom(s[i + 1..], c);
      var rest := Split(s[i + 1..], c);
      assert Split(s, c) == [s[..i]] + rest;
      forall k, ch | 0 <= k < |Split(s, c)| && ch in Split(s, c)[k]
        ensures ch in s
      {
        if k == 0 {
          assert ch in s[..i];
        } else {
          assert Split(s, c)[k] == rest[k - 1];
          assert ch in s[i + 1..];
        }
      }
    }
  }

  /** Joining the parts of a split with the separator gives the string back. */
  lemma {:induction false} JoinSplit(s: string, c: char)
    ensures Join(Split(s, c), [c]) == s
    decreases |s|
  {
    if c in s {
      var i := IndexOf(s, c);
      var p, tail := s[..i], s[i + 1..];
      AroundFirst(s, c);
      JoinSplitStep(p, tail, c);
      JoinSplit(tail, c);
    }
  }

  lemma JoinSplitStep(p: string, tail: string, c: char)
    requires c !in p
    ensures Join(Split(p + [c] + tail, c), [c]) == p + [c] + Join(Split(tail, c), [c])
  {
    SplitAtFirst(p, tail, c);
    JoinCons(p, Split(tail, c), [c]);
  }

  /** A string around its first `c`. */
  lemma AroundFirst(s: string, c: char)
    requires c in s
    ensures s == s[..IndexOf(s, c)] + [c] + s[IndexOf(s, c) + 1..]
    ensures c !in s[..IndexOf(s, c)]
  {
    assert s == s[..IndexOf(s, c)] + [s[IndexOf(s, c)]] + s[IndexOf(s, c) + 1..];
  }

  lemma JoinCons(head: string, rest: seq<string>, sep: string)
    requires |rest| >= 1
    ensures Join([head] + rest, sep) == head + sep + Join(rest, sep)
  {
    assert ([head] + rest)[1..] == rest;
  }

  /** Splitting a join of `c`-free parts on `c` recovers the parts. */
  lemma {:induction false} SplitJoin(parts: seq<string>, c: char)
    requires |parts| >= 1
    requires forall i :: 0 <= i < |parts| ==> c !in parts[i]
    ensures Split(Join(parts, [c]), c) == parts
    decreases |parts|
  {
    if |parts| > 1 {
      var tail := Join(parts[1..], [c]);
      assert Join(parts, [c]) == parts[0] + [c] + tail;
      SplitAtFirst(parts[0], tail, c);
      SplitJoin(parts[1..], c);
      assert parts == [parts[0]] + parts[1..];
    } else {
      assert Join(parts, [c]) == parts[0];
      assert IndexOf(parts[0], c) < 0;
    }
  }

  /** Replacement works piece by piece: it distributes over concatenation. */
  lemma {:induction false} ReplaceAllConcat(x: string, y: string, c: char, rep: string)
    ensures ReplaceAll(x + y, c, rep) == ReplaceAll(x, c, rep) + ReplaceAll(y, c, rep)
    decreases |x|
  {
    if |x| > 0 {
      assert (x + y)[1..] == x[1..] + y;
      ReplaceAllConcat(x[1..], y, c, rep);
    } else {
      assert x + y == y;
    }
  }

  /** A `c`-free string is left as it is. */
  lemma {:induction false} ReplaceAllNoMatch(s: string, c: char, rep: string)
    requires c !in s
    ensures ReplaceAll(s, c, rep) == s
    decreases |s|
  {
    if |s| > 0 {
      assert s == [s[0]] + s[1..];
      ReplaceAllNoMatch(s[1..], c, rep);
    }
  }

  /** Replacing around the first occurrence of `c`. */
  lemma ReplaceAtFirst(a: string, b: string, c: char, rep: string)
    requires c !in a
    ensures ReplaceAll(a + [c] + b, c, rep) == a + rep + ReplaceAll(b, c, rep)
  {
    ReplaceAllConcat(a + [c], b, c, rep);
    ReplaceAllConcat(a, [c], c, rep);
    ReplaceAllNoMatch(a, c, rep);
    assert ReplaceAll([c], c, rep) == rep + ReplaceAll([], c, rep);
  }

  /** Replacing every `c` by `rep` is joining the `c`-split with `rep`. */
  lemma {:induction false} ReplaceAllIsJoinOfSplit(s: string, c: char, rep: string)
    ensures ReplaceAll(s, c, rep) == Join(Split(s, c), rep)
    decreases |s|
  {
    if c in s {
      var i := IndexOf(s, c);
      var p, tail := s[..i], s[i + 1..];
      AroundFirst(s, c);
      ReplaceAtFirst(p, tail, c, rep);
      ReplaceAllIsJoinOfSplit(tail, c, rep);
      SplitAtFirst(p, tail, c);
      JoinCons(p, Split(tail, c), rep);
    } else {
      ReplaceAllNoMatch(s, c, rep);
    }
  }

  /** After replacing every `c` by a `c`-free text, no `c` is left. */
  lemma {:induction false} ReplaceAllRemoves(s: string, c: char, rep: string)
    requires c !in rep
    ensures c !in ReplaceAll(s, c, rep)
    decreases |s|
  {
    if |s| > 0 {
      ReplaceAllRemoves(s[1..], c, rep);
    }
  }

  /** Counting splits around the first occurrence. */
  lemma CountAround(s: string, c: char)
    requires c in s
    ensures Count(s, c) == 1 + Count(s[IndexOf(s, c) + 1..], c)
  {
    AroundFirst(s, c);
    CountAt(s[..IndexOf(s, c)], s[IndexOf(s, c) + 1..], c);
  }

  lemma CountAt(p: string, tail: string, c: char)
    requires c !in p
    ensures Count(p + [c] + tail, c) == 1 + Count(tail, c)
  {
    assert multiset(p + [c] + tail) == multiset(p) + multiset([c]) + multiset(tail);
    assert multiset(p)[c] == 0;
  }

  /** A split on `c` has one more part than `s` has occurrences of `c`. */
  lemma {:induction false} SplitLength(s: string, c: char)
    ensures |Split(s, c)| == Count(s, c) + 1
    decreases |s|
  {
    if c in s {
      var i := IndexOf(s, c);
      var p, tail := s[..i], s[i + 1..];
      AroundFirst(s, c);
      SplitAtFirst(p, tail, c);
      CountAt(p, tail, c);
      SplitLength(tail, c);
    } else {
      CountZeroIffAbsent(s, c);
    }
  }

  /** Lower-casing keeps every character that is not an upper-case letter,
      so it keeps the count of such a character. */
  lemma {:induction false} AsciiLowerKeepsCount(s: string, c: char)
    requires !('A' <= c <= 'Z') && !('a' <= c <= 'z')
    ensures Count(AsciiLower(s), c) == Count(s, c)
    decreases |s|
  {
    if |s| > 0 {
      var x, t := s[0], s[1..];
      calc {
        Count(AsciiLower(s), c);
        { assert AsciiLower(s) == [LowerChar(x)] + AsciiLower(t); }
        Count([LowerChar(x)] + AsciiLower(t), c);
        { CountCons(LowerChar(x), AsciiLower(t), c); }
        Count(AsciiLower(t), c) + (if LowerChar(x) == c then 1 else 0);
        { AsciiLowerKeepsCount(t, c); }
        Count(t, c) + (if x == c then 1 else 0);
        { CountCons(x, t, c); }
        Count([x] + t, c);
        { assert s == [x] + t; }
        Count(s, c);
      }
    }
  }

  lemma CountCons(x: char, t: string, c: char)
    ensures Count([x] + t, c) == Count(t, c) + (if x == c then 1 else 0)
  {
    assert multiset([x] + t) == multiset([x]) + multiset(t);
  }

  lemma CountZeroIffAbsent(s: string, c: char)
    ensures Count(s, c) == 0 <==> c !in s
  {
    if c in s {
      var i := IndexOf(s, c);
      assert s == s[..i] + [c] + s[i + 1..];
      assert multiset(s) == multiset(s[..i]) + multiset([c]) + multiset(s[i + 1..]);
    }
  }
}
