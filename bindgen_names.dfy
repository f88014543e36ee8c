/** The binding generator's naming helpers (bindgen/utils.py): which classes
    are skipped, indented appends to a generated source, snake_case to
    PascalCase and camelCase, enum names and enum value names. */
module BindgenNames {
  import opened Wrappers
  import opened BindgenStrings

  /* ---------- should_skip_class ---------- */

  /** The builtin classes bound by hand rather than generated. */
  const SkippedClasses: seq<string> := ["Nil", "bool", "int", "float", "String"]

  predicate ShouldSkipClass(className: string) {
    className in SkippedClasses
  }

  lemma ShouldSkipClassExactly(className: string)
    ensures ShouldSkipClass(className) <==>
      className == "Nil" || className == "bool" || className == "int" ||
      className == "float" || className == "String"
  {
  }

  /* ---------- append ---------- */

  /** One line of an appended block: non-empty lines get the indentation,
      empty lines stay empty. */
  function IndentLine(indent: string, level: nat, l: string): string {
    if |l| > 0 then Repeat(indent, level) + l else ""
  }

  function IndentLines(indent: string, level: nat, lines: seq<string>): (r: seq<string>)
    ensures |r| == |lines|
    ensures forall k :: 0 <= k < |lines| ==> r[k] == IndentLine(indent, level, lines[k])
  {
    seq(|lines|, k requires 0 <= k < |lines| => IndentLine(indent, level, lines[k]))
  }

  /** The element `append` adds: the text split at newlines, each line
      indented, joined again with newlines. */
  function IndentBlock(indent: string, level: nat, line: string): string {
    var lines := IndentLines(indent, level, Split(line, '\n'));
    Join(lines, '\n')
  }

  /** With a one-line indentation unit, the block has exactly the lines of
      the text, each non-empty one behind `indent * level` and each empty one
      still empty. */
  lemma IndentBlockLines(indent: string, level: nat, line: string)
    requires '\n' !in indent
    ensures Split(IndentBlock(indent, level, line), '\n') == IndentLines(indent, level, Split(line, '\n'))
    ensures |Split(IndentBlock(indent, level, line), '\n')| == |Split(line, '\n')|
    ensures forall k :: 0 <= k < |Split(line, '\n')| ==>
      var l := Split(line, '\n')[k];
      var out := Split(IndentBlock(indent, level, line), '\n')[k];
      (|l| > 0 ==> out == Repeat(indent, level) + l) && (|l| == 0 ==> out == "")
  {
    var lines := IndentLines(indent, level, Split(line, '\n'));
    forall k | 0 <= k < |lines|
      ensures '\n' !in lines[k]
    {
      assert '\n' !in Split(line, '\n')[k];
    }
    SplitJoin(lines, '\n');
  }

  /** A generated source file under construction: the list `append` extends. */
  class SourceLines {
    var lines: seq<string>

    constructor ()
      ensures lines == []
    {
      lines := [];
    }

    /** append(source, indent_level, line): exactly one element is added. */
    method Append(indent: string, level: nat, line: string)
      modifies this
      ensures lines == old(lines) + [IndentBlock(indent, level, line)]
    {
      lines := lines + [IndentBlock(indent, level, line)];
    }
  }

  /* ---------- snake_to_pascal ---------- */

  /** `s[0].upper() + s[1:]`. */
  function Capitalize(s: string): (r: string)
    requires |s| > 0
    ensures |r| == |s| && r[0] == Upper(s[0]) && r[1..] == s[1..]
  {
    [Upper(s[0])] + s[1..]
  }

  /** The non-empty pieces, capitalised. */
  function CapitalizedSegments(parts: seq<string>): seq<string> {
    if parts == [] then []
    else (if |parts[0]| > 0 then [Capitalize(parts[0])] else []) + CapitalizedSegments(parts[1..])
  }

  /** `s.replace(a + b, a + b2)`: left to right, non-overlapping. */
  function ReplacePair(s: string, a: char, b: char, b2: char): string {
    if |s| < 2 then s
    else if s[0] == a && s[1] == b then [a, b2] + ReplacePair(s[2..], a, b, b2)
    else [s[0]] + ReplacePair(s[1..], a, b, b2)
  }

  /** Every `b` right behind an `a` becomes `b2`; nothing else changes. */
  lemma {:induction false} ReplacePairPointwise(s: string, a: char, b: char, b2: char)
    requires a != b
    ensures |ReplacePair(s, a, b, b2)| == |s|
    ensures forall k :: 0 <= k < |s| ==>
      ReplacePair(s, a, b, b2)[k] == if k > 0 && s[k - 1] == a && s[k] == b then b2 else s[k]
  {
    if |s| >= 2 {
      var r := ReplacePair(s, a, b, b2);
      if s[0] == a && s[1] == b {
        var rest := ReplacePair(s[2..], a, b, b2);
        ReplacePairPointwise(s[2..], a, b, b2);
        assert r == [a, b2] + rest;
        forall k | 0 <= k < |s|
          ensures r[k] == if k > 0 && s[k - 1] == a && s[k] == b then b2 else s[k]
        {
          if k >= 2 {
            assert r[k] == rest[k - 2] && s[2..][k - 2] == s[k];
            if k > 2 {
              assert s[2..][k - 3] == s[k - 1];
            }
          }
        }
      } else {
        var rest := ReplacePair(s[1..], a, b, b2);
        ReplacePairPointwise(s[1..], a, b, b2);
        assert r == [s[0]] + rest;
        forall k | 0 <= k < |s|
          ensures r[k] == if k > 0 && s[k - 1] == a && s[k] == b then b2 else s[k]
        {
          if k >= 1 {
            assert r[k] == rest[k - 1] && s[1..][k - 1] == s[k];
            if k > 1 {
              assert s[1..][k - 2] == s[k - 1];
            }
          }
        }
      }
    }
  }

  /** The PascalCase text before the "2d"/"3d" rewrite. */
  function PascalJoined(snake: string): string {
    var joined := Concat(CapitalizedSegments(Split(snake, '_')));
    if |snake| > 0 && snake[0] == '_' then "_" + joined else joined
  }

  /** snake_to_pascal. */
  function SnakeToPascal(snake: string): string {
    ReplacePair(ReplacePair(PascalJoined(snake), '2', 'd', 'D'), '3', 'd', 'D')
  }

  /** No capitalised segment contains an underscore. */
  lemma {:induction false} SegmentsHaveNoUnderscore(parts: seq<string>)
    requires forall k :: 0 <= k < |parts| ==> '_' !in parts[k]
    ensures '_' !in Concat(CapitalizedSegments(parts))
  {
    if parts != [] {
      SegmentsHaveNoUnderscore(parts[1..]);
      var head := if |parts[0]| > 0 then [Capitalize(parts[0])] else [];
      ConcatAppend(head, CapitalizedSegments(parts[1..]));
      if |parts[0]| > 0 {
        var c := Capitalize(parts[0]);
        assert c == [c[0]] + parts[0][1..];
        assert parts[0][0] in parts[0];
        assert Concat(head) == c;
      }
    }
  }

  /** The output holds an underscore only at its start, and holds one there
      exactly when the input starts with one. */
  lemma SnakeToPascalUnderscores(snake: string)
    ensures var r := SnakeToPascal(snake);
      (forall k :: 0 < k < |r| ==> r[k] != '_') &&
      (|r| > 0 && r[0] == '_' <==> |snake| > 0 && snake[0] == '_')
  {
    var parts := Split(snake, '_');
    SegmentsHaveNoUnderscore(parts);
    var p := PascalJoined(snake);
    var r1 := ReplacePair(p, '2', 'd', 'D');
    var r := ReplacePair(r1, '3', 'd', 'D');
    ReplacePairPointwise(p, '2', 'd', 'D');
    ReplacePairPointwise(r1, '3', 'd', 'D');
    var joined := Concat(CapitalizedSegments(parts));
    var underscored := |snake| > 0 && snake[0] == '_';
    forall k | 0 <= k < |p|
      ensures p[k] == '_' <==> k == 0 && underscored
    {
      if underscored {
        assert p == "_" + joined;
        if k > 0 {
          assert p[k] == joined[k - 1];
        }
      } else {
        assert p == joined;
        assert p[k] in joined;
      }
    }
    forall k | 0 <= k < |r|
      ensures r[k] == '_' <==> p[k] == '_'
    {
      assert r[k] == if k > 0 && r1[k - 1] == '3' && r1[k] == 'd' then 'D' else r1[k];
      assert r1[k] == if k > 0 && p[k - 1] == '2' && p[k] == 'd' then 'D' else p[k];
    }
    if underscored {
      assert |p| > 0;
    }
  }

  /** No "2d" or "3d" survives the rewrite. */
  lemma SnakeToPascalDimensions(snake: string)
    ensures var r := SnakeToPascal(snake);
      forall k :: 0 <= k < |r| - 1 ==> !((r[k] == '2' || r[k] == '3') && r[k + 1] == 'd')
  {
    var p := PascalJoined(snake);
    var r1 := ReplacePair(p, '2', 'd', 'D');
    var r := ReplacePair(r1, '3', 'd', 'D');
    ReplacePairPointwise(p, '2', 'd', 'D');
    ReplacePairPointwise(r1, '3', 'd', 'D');
    forall k | 0 <= k < |r| - 1
      ensures !((r[k] == '2' || r[k] == '3') && r[k + 1] == 'd')
    {
      assert r[k] == if k > 0 && r1[k - 1] == '3' && r1[k] == 'd' then 'D' else r1[k];
      assert r1[k] == if k > 0 && p[k - 1] == '2' && p[k] == 'd' then 'D' else p[k];
      assert r[k + 1] == if r1[k] == '3' && r1[k + 1] == 'd' then 'D' else r1[k + 1];
      assert r1[k + 1] == if p[k] == '2' && p[k + 1] == 'd' then 'D' else p[k + 1];
    }
  }

  /** The joined segments, character by character: every `_` is dropped, and
      a character is upper-cased exactly when it starts a segment, that is when
      it comes first (`atStart`) or right after a `_`. */
  function CapitalizeSegmentStarts(s: string, atStart: bool): (r: string)
    ensures |r| <= |s|
  {
    if s == [] then []
    else if s[0] == '_' then CapitalizeSegmentStarts(s[1..], true)
    else [if atStart then Upper(s[0]) else s[0]] + CapitalizeSegmentStarts(s[1..], false)
  }

  /** The walk keeps exactly the characters that are not `_`. */
  lemma {:induction false} CapitalizeSegmentStartsLength(s: string, atStart: bool)
    ensures |CapitalizeSegmentStarts(s, atStart)| == |RemoveChar(s, '_')|
  {
    if s != [] {
      CapitalizeSegmentStartsLength(s[1..], s[0] == '_');
    }
  }

  /** The character walk yields the first piece of the split (capitalised
      when it starts a segment, dropped when empty) followed by the joined
      later segments. */
  lemma {:induction false} CapitalizeSegmentStartsSplit(s: string, atStart: bool)
    ensures var parts := Split(s, '_');
      CapitalizeSegmentStarts(s, atStart) ==
        (if parts[0] == [] then [] else if atStart then Capitalize(parts[0]) else parts[0]) +
        Concat(CapitalizedSegments(parts[1..]))
  {
    if s != [] {
      var rest := Split(s[1..], '_');
      var walked := CapitalizeSegmentStarts(s[1..], s[0] == '_');
      CapitalizeSegmentStartsSplit(s[1..], s[0] == '_');
      if s[0] == '_' {
        var parts := [""] + rest;
        assert Split(s, '_') == parts && parts[1..] == rest;
        assert CapitalizedSegments(rest) ==
          (if |rest[0]| > 0 then [Capitalize(rest[0])] else []) + CapitalizedSegments(rest[1..]);
        ConcatAppend(if |rest[0]| > 0 then [Capitalize(rest[0])] else [], CapitalizedSegments(rest[1..]));
        if |rest[0]| > 0 {
          assert Concat([Capitalize(rest[0])]) == Capitalize(rest[0]);
        }
      } else {
        var first := [s[0]] + rest[0];
        var parts := [first] + rest[1..];
        assert Split(s, '_') == parts && parts[1..] == rest[1..];
        assert walked == rest[0] + Concat(CapitalizedSegments(rest[1..]));
        if atStart {
          assert Capitalize(first) == [Upper(s[0])] + rest[0];
        }
      }
    }
  }

  /** The joined capitalised segments are the character walk from a segment
      start. */
  lemma JoinedSegmentsCharacterwise(s: string)
    ensures Concat(CapitalizedSegments(Split(s, '_'))) == CapitalizeSegmentStarts(s, true)
  {
    var parts := Split(s, '_');
    CapitalizeSegmentStartsSplit(s, true);
    var head := if |parts[0]| > 0 then [Capitalize(parts[0])] else [];
    assert parts == [parts[0]] + parts[1..];
    assert CapitalizedSegments(parts) == head + CapitalizedSegments(parts[1..]);
    ConcatAppend(head, CapitalizedSegments(parts[1..]));
    if |parts[0]| > 0 {
      assert Concat(head) == Capitalize(parts[0]);
    }
  }

  /** Removing `_` from a non-empty prefix: the first character, unless it
      is `_`, then the rest of the prefix with `_` removed. */
  lemma RemoveUnderscorePrefixStep(s: string, i: nat)
    requires 0 < i <= |s|
    ensures RemoveChar(s[..i], '_') ==
      (if s[0] == '_' then [] else [s[0]]) + RemoveChar(s[1..][..i - 1], '_')
  {
    assert s[..i][0] == s[0] && s[..i][1..] == s[1..][..i - 1];
  }

  /** One index of the walk, one character further on. */
  lemma CapitalizeSegmentStartsShift(s: string, atStart: bool, k: nat)
    requires s != [] && s[0] != '_' && k < |CapitalizeSegmentStarts(s[1..], false)|
    ensures CapitalizeSegmentStarts(s, atStart)[k + 1] == CapitalizeSegmentStarts(s[1..], false)[k]
  {
  }

  /** Position by position: the `i`-th input character, when it is not `_`,
      lands after the non-underscore characters before it, upper-cased exactly
      when it starts a segment. */
  lemma {:induction false} CapitalizeSegmentStartsAt(s: string, atStart: bool, i: nat)
    requires i < |s| && s[i] != '_'
    ensures |RemoveChar(s[..i], '_')| < |CapitalizeSegmentStarts(s, atStart)|
    ensures CapitalizeSegmentStarts(s, atStart)[|RemoveChar(s[..i], '_')|] ==
      if (i == 0 && atStart) || (i > 0 && s[i - 1] == '_') then Upper(s[i]) else s[i]
  {
    if i == 0 {
      assert s[..i] == [];
    } else {
      var tail := CapitalizeSegmentStarts(s[1..], s[0] == '_');
      var k := |RemoveChar(s[1..][..i - 1], '_')|;
      CapitalizeSegmentStartsAt(s[1..], s[0] == '_', i - 1);
      RemoveUnderscorePrefixStep(s, i);
      assert s[1..][i - 1] == s[i];
      assert i > 1 ==> s[1..][i - 2] == s[i - 1];
      assert tail[k] == if s[i - 1] == '_' then Upper(s[i]) else s[i];
      if s[0] != '_' {
        CapitalizeSegmentStartsShift(s, atStart, k);
      }
    }
  }

  /** `s.replace(c, "")`. */
  function RemoveChar(s: string, c: char): (r: string)
    ensures c !in r
    ensures |r| == |s| - multiset(s)[c]
  {
    if s == [] then []
    else
      assert s == [s[0]] + s[1..];
      assert multiset(s) == multiset([s[0]]) + multiset(s[1..]);
      (if s[0] == c then [] else [s[0]]) + RemoveChar(s[1..], c)
  }

  /** Removing a character keeps every other character as often as it
      occurred. */
  lemma {:induction false} RemoveCharKeepsOthers(s: string, c: char)
    ensures multiset(RemoveChar(s, c)) == multiset(s)[c := 0]
  {
    if s != [] {
      RemoveCharKeepsOthers(s[1..], c);
      assert s == [s[0]] + s[1..];
      assert multiset(s) == multiset([s[0]]) + multiset(s[1..]);
    }
  }

  /** Removing a character is joining the pieces between its occurrences
      with nothing. */
  lemma {:induction false} RemoveCharIsConcatOfSplit(s: string, c: char)
    ensures RemoveChar(s, c) == Concat(Split(s, c))
  {
    if s != [] {
      RemoveCharIsConcatOfSplit(s[1..], c);
      var rest := Split(s[1..], c);
      var tail := RemoveChar(s[1..], c);
      assert Concat(rest) == rest[0] + Concat(rest[1..]);
      if s[0] == c {
        assert RemoveChar(s, c) == tail;
        var parts := [""] + rest;
        assert Split(s, c) == parts;
        assert parts[1..] == rest;
        assert Concat(parts) == "" + Concat(rest);
      } else {
        assert RemoveChar(s, c) == [s[0]] + tail;
        var parts := [[s[0]] + rest[0]] + rest[1..];
        assert Split(s, c) == parts;
        assert parts[1..] == rest[1..];
        assert Concat(parts) == ([s[0]] + rest[0]) + Concat(rest[1..]);
      }
    }
  }

  /** Apart from the leading underscore and the `2D`/`3D` rewrite, the
      PascalCase text is the input without underscores, in which exactly the
      first character of each non-empty segment is upper-cased. The `i`-th
      input character lands at the number of non-underscore characters
      before it. */
  lemma SnakeToPascalLetters(snake: string)
    ensures var joined := Concat(CapitalizedSegments(Split(snake, '_')));
      |joined| == |snake| - multiset(snake)['_'] &&
      forall i :: 0 <= i < |snake| && snake[i] != '_' ==>
        |RemoveChar(snake[..i], '_')| < |joined| &&
        joined[|RemoveChar(snake[..i], '_')|] ==
          if i == 0 || snake[i - 1] == '_' then Upper(snake[i]) else snake[i]
  {
    JoinedSegmentsCharacterwise(snake);
    CapitalizeSegmentStartsLength(snake, true);
    forall i | 0 <= i < |snake| && snake[i] != '_'
      ensures |RemoveChar(snake[..i], '_')| < |CapitalizeSegmentStarts(snake, true)|
      ensures CapitalizeSegmentStarts(snake, true)[|RemoveChar(snake[..i], '_')|] ==
        if i == 0 || snake[i - 1] == '_' then Upper(snake[i]) else snake[i]
    {
      CapitalizeSegmentStartsAt(snake, true, i);
    }
  }

  /* ---------- snake_to_camel ---------- */

  /** The index of the first cased character, if any. */
  function FirstCased(s: string): (r: Option<nat>)
    ensures r.None? <==> forall k :: 0 <= k < |s| ==> !IsCased(s[k])
    ensures r.Some? ==> r.value < |s| && IsCased(s[r.value])
    ensures r.Some? ==> forall k :: 0 <= k < r.value ==> !IsCased(s[k])
  {
    if s == [] then None
    else if IsCased(s[0]) then Some(0)
    else match FirstCased(s[1..])
      case None => None
      case Some(i) => Some(i + 1)
  }

  /** The text lower-cased up to and including its first cased character;
      None when it has none. */
  function LowerFirstCased(p: string): (r: Option<string>)
    ensures r.None? <==> forall k :: 0 <= k < |p| ==> !IsCased(p[k])
    ensures r.Some? ==> |r.value| == |p|
    ensures r.Some? ==> exists b :: (0 <= b < |p| && IsCased(p[b]) &&
      (forall k :: 0 <= k < b ==> !IsCased(p[k])) &&
      r.value[b] == Lower(p[b]) &&
      forall k :: 0 <= k < |p| && k != b ==> r.value[k] == p[k])
  {
    match FirstCased(p)
    case None => None
    case Some(b) =>
      var low := LowerString(p[..b + 1]);
      var r := low + p[b + 1..];
      assert forall k :: 0 <= k < b ==> r[k] == low[k] == Lower(p[k]);
      assert forall k :: b < k < |p| ==> r[k] == p[k];
      Some(r)
  }

  /** Lower-casing one cased character changes nothing a full lower-casing
      would not. */
  lemma LowerFirstCasedKeepsLowercase(p: string)
    ensures LowerFirstCased(p).Some? ==> LowerString(LowerFirstCased(p).value) == LowerString(p)
  {
    var r := LowerFirstCased(p);
    if r.Some? {
      var x := r.value;
      var b :| 0 <= b < |p| && IsCased(p[b]) && x[b] == Lower(p[b]) &&
        forall k :: 0 <= k < |p| && k != b ==> x[k] == p[k];
      var lx, lp := LowerString(x), LowerString(p);
      forall k | 0 <= k < |p|
        ensures lx[k] == lp[k]
      {
        if k == b {
          assert lx[k] == Lower(Lower(p[b])) == Lower(p[b]);
        } else {
          assert x[k] == p[k];
        }
      }
      assert lx == lp;
    }
  }

  /** snake_to_camel; None where the comprehension's `[0]` finds no cased
      character. The result differs from snake_to_pascal's only in the case
      of that first cased character. */
  function SnakeToCamel(snake: string): (r: Option<string>)
    ensures r.None? <==> forall k :: 0 <= k < |SnakeToPascal(snake)| ==> !IsCased(SnakeToPascal(snake)[k])
    ensures r.Some? ==> LowerString(r.value) == LowerString(SnakeToPascal(snake))
  {
    var pascal := SnakeToPascal(snake);
    LowerFirstCasedKeepsLowercase(pascal);
    LowerFirstCased(pascal)
  }

  /* ---------- get_enum_name ---------- */

  /** get_enum_name: the qualified name with its dots removed. */
  function GetEnumName(enumName: string): (r: string)
    ensures '.' !in r
    ensures '.' !in enumName ==> r == enumName
  {
    assert '.' !in enumName ==> RemoveChar(enumName, '.') == enumName by {
      if '.' !in enumName {
        NoDotUnchanged(enumName);
      }
    }
    RemoveChar(enumName, '.')
  }

  lemma {:induction false} NoDotUnchanged(s: string)
    requires '.' !in s
    ensures RemoveChar(s, '.') == s
  {
    if s != [] {
      NoDotUnchanged(s[1..]);
      assert s == [s[0]] + s[1..];
    }
  }

  /** The pieces between the dots, run together: "Node.ProcessMode" gives
      "NodeProcessMode". */
  lemma GetEnumNameJoinsPieces(enumName: string)
    ensures GetEnumName(enumName) == Concat(Split(enumName, '.'))
  {
    RemoveCharIsConcatOfSplit(enumName, '.');
  }

  /* ---------- get_enum_value_name ---------- */

  /** How many of the values do not have `c` at index `i` (too short, or a
      different character there). */
  function Disagreements(values: seq<string>, i: nat, c: char): (r: nat)
    ensures r <= |values|
  {
    if values == [] then 0
    else
      var last := values[|values| - 1];
      Disagreements(values[..|values| - 1], i, c) + (if i >= |last| || last[i] != c then 1 else 0)
  }

  /** Where the prefix scan over the first value's characters stops,
      starting at `i`: at the end of the first value or at the first index
      where more than one value disagrees. */
  function AcceptedLength(values: seq<string>, first: string, i: nat): (n: nat)
    requires i <= |first|
    ensures i <= n <= |first|
    ensures forall k :: i <= k < n ==> Disagreements(values, k, first[k]) <= 1
    ensures n == |first| || Disagreements(values, n, first[n]) > 1
    decreases |first| - i
  {
    if i >= |first| || Disagreements(values, i, first[i]) > 1 then i
    else AcceptedLength(values, first, i + 1)
  }

  /** Cutting back to the last underscore (or to nothing). */
  function TrimToUnderscore(p: string): (r: string)
    ensures |r| <= |p| && r == p[..|r|]
    ensures r == [] || r[|r| - 1] == '_'
    ensures forall k :: |r| <= k < |p| ==> p[k] != '_'
  {
    if p == [] || p[|p| - 1] == '_' then p else TrimToUnderscore(p[..|p| - 1])
  }

  /** The common prefix of an enum's value names: the characters of the first
      name on which at most one value disagrees, cut back to an underscore.
      None when the enum has no values. */
  function EnumPrefix(values: seq<string>): (r: Option<string>)
    ensures r.None? <==> values == []
    ensures r.Some? ==> StartsWith(values[0], r.value) && (r.value == [] || r.value[|r.value| - 1] == '_')
    ensures r.Some? ==> forall k :: 0 <= k < |r.value| ==> Disagreements(values, k, values[0][k]) <= 1
  {
    if values == [] then None
    else
      var first := values[0];
      var n := AcceptedLength(values, first, 0);
      var p := TrimToUnderscore(first[..n]);
      assert first[..|p|] == p;
      Some(p)
  }

  /** The value name with the prefix removed, when it starts with it. */
  function StripPrefix(valueName: string, prefix: string): string {
    if StartsWith(valueName, prefix) then valueName[|prefix|..] else valueName
  }

  /** get_enum_value_name; None where Python raises IndexError (no values, or
      nothing left after the prefix). */
  function EnumValueName(values: seq<string>, valueName: string): (r: Option<string>)
    ensures r.None? <==> values == [] || StripPrefix(valueName, EnumPrefix(values).value) == []
    ensures r.Some? ==>
      var stripped := StripPrefix(valueName, EnumPrefix(values).value);
      (IsDigit(stripped[0]) ==> r.value == "N" + stripped) &&
      (!IsDigit(stripped[0]) ==> r.value == stripped)
  {
    var prefix :- EnumPrefix(values);
    var stripped := StripPrefix(valueName, prefix);
    if stripped == [] then None
    else if IsDigit(stripped[0]) then Some("N" + stripped)
    else Some(stripped)
  }

  /** The outer loop of get_enum_value_name: extend the prefix one character
      of the first name at a time while at most one value disagrees, then cut
      back to an underscore. */
  method ComputeEnumPrefix(values: seq<string>) returns (prefix: string)
    requires values != []
    ensures Some(prefix) == EnumPrefix(values)
  {
    var first := values[0];
    prefix := "";
    var i := 0;
    while i < |first|
      invariant 0 <= i <= |first|
      invariant prefix == first[..i]
      invariant AcceptedLength(values, first, i) == AcceptedLength(values, first, 0)
    {
      var candidate := first[i];
      var invalidCount := 0;
      var j := 0;
      while j < |values|
        invariant 0 <= j <= |values|
        invariant invalidCount == Disagreements(values[..j], i, candidate)
      {
        assert values[..j + 1][..j] == values[..j];
        if i >= |values[j]| || values[j][i] != candidate {
          invalidCount := invalidCount + 1;
        }
        j := j + 1;
      }
      assert values[..j] == values;
      if invalidCount > 1 {
        break;
      }
      prefix := prefix + [candidate];
      i := i + 1;
    }
    assert i == AcceptedLength(values, first, i);
    while |prefix| > 0 && prefix[|prefix| - 1] != '_'
      invariant TrimToUnderscore(prefix) == TrimToUnderscore(first[..i])
      decreases |prefix|
    {
      prefix := prefix[..|prefix| - 1];
    }
  }

  /** get_enum_value_name. */
  method GetEnumValueName(values: seq<string>, valueName: string) returns (r: Option<string>)
    ensures r == EnumValueName(values, valueName)
  {
    if values == [] {
      return None;
    }
    var prefix := ComputeEnumPrefix(values);
    var name := valueName;
    if StartsWith(name, prefix) {
      name := name[|prefix|..];
    }
    if name == [] {
      return None;
    }
    if IsDigit(name[0]) {
      name := "N" + name;
    }
    return Some(name);
  }

  /** The prefix is removed only from names that start with it; an "N" is
      prepended exactly when what is left starts with a digit, so the result
      never starts with one. */
  lemma EnumValueNameShape(values: seq<string>, valueName: string)
    requires EnumValueName(values, valueName).Some?
    ensures var prefix := EnumPrefix(values).value;
      var stripped := StripPrefix(valueName, prefix);
      var r := EnumValueName(values, valueName).value;
      (StartsWith(valueName, prefix) ==> stripped == valueName[|prefix|..]) &&
      (!StartsWith(valueName, prefix) ==> stripped == valueName) &&
      (r == "N" + stripped <==> IsDigit(stripped[0])) &&
      (r == stripped <==> !IsDigit(stripped[0])) &&
      !IsDigit(r[0])
  {
    var stripped := StripPrefix(valueName, EnumPrefix(values).value);
    assert |"N" + stripped| != |stripped|;
  }
}
