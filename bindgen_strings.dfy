/** The Python string operations the binding generator's helpers rely on,
    over ASCII text: `str.split` and `str.join` with a one-character
    separator, `str * n`, `str.strip(c)`, `str.startswith`, and the ASCII part
    of `upper`, `lower`, `isdigit` and "is cased". */
module BindgenStrings {

  /* ---------- ASCII character classes ---------- */

  predicate IsLower(c: char) { 'a' <= c <= 'z' }

  predicate IsUpper(c: char) { 'A' <= c <= 'Z' }

  /** A character whose upper and lower case differ. */
  predicate IsCased(c: char) { IsLower(c) || IsUpper(c) }

  predicate IsDigit(c: char) { '0' <= c <= '9' }

  function Upper(c: char): (r: char)
    ensures IsLower(c) ==> IsUpper(r)
    ensures !IsLower(c) ==> r == c
  {
    if IsLower(c) then (c as int - 32) as char else c
  }

  function Lower(c: char): (r: char)
    ensures IsUpper(c) ==> IsLower(r)
    ensures !IsUpper(c) ==> r == c
  {
    if IsUpper(c) then (c as int + 32) as char else c
  }

  /** `s.lower()`. */
  function LowerString(s: string): (r: string)
    ensures |r| == |s|
    ensures forall k :: 0 <= k < |s| ==> r[k] == Lower(s[k])
  {
    if s == [] then [] else [Lower(s[0])] + LowerString(s[1..])
  }

  /* ---------- split and join ---------- */

  /** `s.split(sep)`: the pieces between separators, empty ones included. */
  function Split(s: string, sep: char): (r: seq<string>)
    ensures |r| >= 1
    ensures forall k :: 0 <= k < |r| ==> sep !in r[k]
  {
    if s == [] then [""]
    else
      var rest := Split(s[1..], sep);
      if s[0] == sep then [""] + rest
      else [[s[0]] + rest[0]] + rest[1..]
  }

  /** `sep.join(parts)`. */
  function Join(parts: seq<string>, sep: char): string
    requires |parts| >= 1
  {
    if |parts| == 1 then parts[0]
    else parts[0] + [sep] + Join(parts[1..], sep)
  }

  /** Joining the pieces of a split restores the text. */
  lemma {:induction false} JoinSplit(s: string, sep: char)
    ensures Join(Split(s, sep), sep) == s
  {
    if s != [] {
      JoinSplit(s[1..], sep);
      var rest := Split(s[1..], sep);
      if s[0] != sep {
        if |rest| == 1 {
          assert Join(Split(s, sep), sep) == [s[0]] + rest[0];
        } else {
          var parts := Split(s, sep);
          assert parts[1..] == rest[1..];
          assert Join(rest, sep) == rest[0] + [sep] + Join(rest[1..], sep);
          assert s == [s[0]] + s[1..];
        }
      }
    }
  }

  /** Splitting joined pieces that contain no separator gives the pieces back. */
  lemma {:induction false} SplitJoin(parts: seq<string>, sep: char)
    requires |parts| >= 1
    requires forall k :: 0 <= k < |parts| ==> sep !in parts[k]
    ensures Split(Join(parts, sep), sep) == parts
  {
    if |parts| == 1 {
      SplitNoSeparator(parts[0], sep);
    } else {
      SplitJoin(parts[1..], sep);
      SplitPrefix(parts[0], sep, Join(parts[1..], sep));
      assert Join(parts, sep) == parts[0] + ([sep] + Join(parts[1..], sep));
    }
  }

  /** A text without the separator is one piece. */
  lemma {:induction false} SplitNoSeparator(s: string, sep: char)
    requires sep !in s
    ensures Split(s, sep) == [s]
  {
    if s != [] {
      SplitNoSeparator(s[1..], sep);
      assert [s[0]] + s[1..] == s;
    }
  }

  /** A separator-free head followed by a separator starts a new piece. */
  lemma {:induction false} SplitPrefix(head: string, sep: char, tail: string)
    requires sep !in head
    ensures Split(head + [sep] + tail, sep) == [head] + Split(tail, sep)
  {
    if head == [] {
      assert head + [sep] + tail == [sep] + tail;
      assert ([sep] + tail)[1..] == tail;
    } else {
      var s := head + [sep] + tail;
      assert s[1..] == head[1..] + [sep] + tail;
      SplitPrefix(head[1..], sep, tail);
      assert [head[0]] + head[1..] == head;
    }
  }

  /** There is one more piece than there are separators. */
  lemma {:induction false} SplitCount(s: string, sep: char)
    ensures |Split(s, sep)| == multiset(s)[sep] + 1
  {
    if s != [] {
      SplitCount(s[1..], sep);
      assert s == [s[0]] + s[1..];
      assert multiset(s) == multiset([s[0]]) + multiset(s[1..]);
    }
  }

  /** `"".join(parts)`. */
  function Concat(parts: seq<string>): (r: string)
    ensures |parts| == 0 ==> r == []
  {
    if parts == [] then [] else parts[0] + Concat(parts[1..])
  }

  lemma {:induction false} ConcatAppend(a: seq<string>, b: seq<string>)
    ensures Concat(a + b) == Concat(a) + Concat(b)
  {
    if a == [] {
      assert a + b == b;
    } else {
      var ab := a + b;
      assert ab[0] == a[0] && ab[1..] == a[1..] + b;
      ConcatAppend(a[1..], b);
      var head, middle, last := a[0], Concat(a[1..]), Concat(b);
      assert head + (middle + last) == (head + middle) + last;
    }
  }

  /** `s * n`. */
  function Repeat(s: string, n: nat): (r: string)
    ensures |r| == n * |s|
    ensures forall c :: c in r ==> c in s
  {
    if n == 0 then [] else s + Repeat(s, n - 1)
  }

  /* ---------- prefixes and stripping ---------- */

  /** `s.startswith(prefix)`. */
  predicate StartsWith(s: string, prefix: string) {
    |prefix| <= |s| && s[..|prefix|] == prefix
  }

  function StripStart(s: string, c: char): (r: string)
    ensures |r| <= |s| && r == s[|s| - |r|..]
    ensures r == [] || r[0] != c
    ensures forall k :: 0 <= k < |s| - |r| ==> s[k] == c
  {
    if s != [] && s[0] == c then StripStart(s[1..], c) else s
  }

  function StripEnd(s: string, c: char): (r: string)
    ensures |r| <= |s| && r == s[..|r|]
    ensures r == [] || r[|r| - 1] != c
    ensures forall k :: |r| <= k < |s| ==> s[k] == c
  {
    if s != [] && s[|s| - 1] == c then StripEnd(s[..|s| - 1], c) else s
  }

  /** `s.strip(c)`: the text with every leading and trailing `c` removed. */
  function Strip(s: string, c: char): (r: string)
    ensures |r| <= |s|
    ensures r == [] || (r[0] != c && r[|r| - 1] != c)
  {
    StripEnd(StripStart(s, c), c)
  }

  /** A prefix of the suffix from `i` is the slice starting at `i`. */
  lemma PrefixOfSuffix(s: string, i: nat, r: string)
    requires i <= |s| && |r| <= |s| - i && r == s[i..][..|r|]
    ensures r == s[i..i + |r|]
  {
  }

  /** What strip removes: the result is a slice of the text, and everything
      outside the slice is `c`. */
  lemma StripIsSlice(s: string, c: char) returns (i: nat, j: nat)
    ensures i <= j <= |s| && Strip(s, c) == s[i..j]
    ensures forall k :: 0 <= k < i ==> s[k] == c
    ensures forall k :: j <= k < |s| ==> s[k] == c
  {
    var front := StripStart(s, c);
    var r := StripEnd(front, c);
    i := |s| - |front|;
    j := i + |r|;
    PrefixOfSuffix(s, i, r);
    forall k | j <= k < |s|
      ensures s[k] == c
    {
      assert s[k] == front[k - i];
    }
  }
}
