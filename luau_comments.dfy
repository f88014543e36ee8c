/** Step 1 of the analysis: turning the lexer's comment tokens into classified
    comments with their text, using a table of line start offsets. Text is a
    sequence of characters, one per byte of the script. */
module LuauComments {
  import opened Wrappers
  import opened LuauAst

  /** The script as the NUL-terminated string the analysis receives: the
      terminator is the first NUL, so the text holds none. */
  type CString = s: seq<char> | '\0' !in s

  /** `*ptr` for `ptr` at `i` characters into the text: past the text it
      reads the terminator. */
  function CharAt(src: string, i: nat): char {
    if i < |src| then src[i] else '\0'
  }

  /* ---------- line offsets ---------- */

  /** The offsets just past each newline among the first `n` characters. */
  function NewlineEnds(src: string, n: nat): (r: seq<nat>)
    requires n <= |src|
    ensures forall k :: 0 <= k < |r| ==> 0 < r[k] <= n && src[r[k] - 1] == '\n'
    ensures forall j, k :: 0 <= j < k < |r| ==> r[j] < r[k]
  {
    if n == 0 then []
    else NewlineEnds(src, n - 1) + (if src[n - 1] == '\n' then [n] else [])
  }

  /** One entry per newline. */
  lemma {:induction false} NewlineEndsCount(src: string, n: nat)
    requires n <= |src|
    ensures |NewlineEnds(src, n)| == multiset(src[..n])['\n']
  {
    if n > 0 {
      NewlineEndsCount(src, n - 1);
      assert src[..n] == src[..n - 1] + [src[n - 1]];
    }
  }

  /** No newline is missed. */
  lemma {:induction false} NewlineEndsComplete(src: string, n: nat, i: nat)
    requires i < n <= |src| && src[i] == '\n'
    ensures i + 1 in NewlineEnds(src, n)
  {
    if i < n - 1 {
      NewlineEndsComplete(src, n - 1, i);
    }
  }

  /** The start offset of every line: line 0 starts at 0, each newline starts
      one more line just past it, and the offsets increase. */
  function LineOffsets(src: string): (r: seq<nat>)
    ensures |r| == 1 + multiset(src)['\n'] && r[0] == 0
    ensures forall k :: 0 < k < |r| ==> 0 < r[k] <= |src| && src[r[k] - 1] == '\n'
    ensures forall i :: 0 <= i < |src| && src[i] == '\n' ==> i + 1 in r
    ensures forall j, k :: 0 <= j < k < |r| ==> r[j] < r[k]
  {
    NewlineEndsCount(src, |src|);
    assert src[..|src|] == src;
    forall i | 0 <= i < |src| && src[i] == '\n'
      ensures i + 1 in NewlineEnds(src, |src|)
    {
      NewlineEndsComplete(src, |src|, i);
    }
    [0] + NewlineEnds(src, |src|)
  }

  /** The table the analysis builds by walking the text up to its terminator. */
  method BuildLineOffsets(src: CString) returns (offsets: seq<nat>)
    ensures offsets == LineOffsets(src)
  {
    offsets := [0];
    var i := 0;
    while CharAt(src, i) != '\0'
      invariant 0 <= i <= |src|
      invariant offsets == [0] + NewlineEnds(src, i)
      decreases |src| - i
    {
      if src[i] == '\n' {
        offsets := offsets + [i + 1];
      }
      i := i + 1;
    }
    assert src[..i] == src;
  }

  /* ---------- classification ---------- */

  /** Tab, space, vertical tab and form feed. */
  predicate IsBlank(c: char) {
    c == '\t' || c == ' ' || c == '\U{B}' || c == '\U{C}'
  }

  datatype CommentKind = Block | SingleLineExcl | SingleLine

  /** The scan from a line start: the first "--" makes the comment exclusive,
      the first other non-blank character makes it trailing, and reaching the
      terminator decides nothing. The scan does not stop at a newline. */
  function ScanLine(src: string, p: nat): Option<CommentKind>
    decreases |src| - p
  {
    if p >= |src| then None
    else if src[p] == '-' && CharAt(src, p + 1) == '-' then Some(SingleLineExcl)
    else if !IsBlank(src[p]) then Some(SingleLine)
    else ScanLine(src, p + 1)
  }

  /** The backward-looking classification loop, run from the comment's line start. */
  method ClassifyFromLineStart(src: CString, lineStart: nat) returns (kind: Option<CommentKind>)
    ensures kind == ScanLine(src, lineStart)
  {
    var p := lineStart;
    while CharAt(src, p) != '\0'
      invariant lineStart <= p
      invariant ScanLine(src, p) == ScanLine(src, lineStart)
      decreases |src| - p
    {
      if src[p] == '-' && CharAt(src, p + 1) == '-' {
        return Some(SingleLineExcl);
      } else if !IsBlank(src[p]) {
        return Some(SingleLine);
      }
      p := p + 1;
    }
    return None;
  }

  /** A "--" at `k`, with nothing but blanks from `p` up to it. */
  predicate DashesAfterBlanks(src: string, p: nat, k: nat) {
    p <= k && k + 1 < |src| && src[k] == '-' && src[k + 1] == '-' &&
    forall j :: p <= j < k ==> IsBlank(src[j])
  }

  lemma {:induction false} ScanExclusiveSound(src: string, p: nat) returns (k: nat)
    requires ScanLine(src, p) == Some(SingleLineExcl)
    ensures DashesAfterBlanks(src, p, k)
    decreases |src| - p
  {
    if src[p] == '-' && CharAt(src, p + 1) == '-' {
      k := p;
    } else {
      k := ScanExclusiveSound(src, p + 1);
    }
  }

  lemma {:induction false} ScanExclusiveComplete(src: string, p: nat, k: nat)
    requires DashesAfterBlanks(src, p, k)
    ensures ScanLine(src, p) == Some(SingleLineExcl)
    decreases k - p
  {
    if p < k {
      assert IsBlank(src[p]);
      ScanExclusiveComplete(src, p + 1, k);
    }
  }

  /** A comment is exclusive exactly when a "--" follows its line start with
      nothing but blanks before it. */
  lemma ScanExclusiveIff(src: string, p: nat)
    ensures ScanLine(src, p) == Some(SingleLineExcl) <==> exists k :: DashesAfterBlanks(src, p, k)
  {
    if ScanLine(src, p) == Some(SingleLineExcl) {
      var k := ScanExclusiveSound(src, p);
    }
    if exists k :: DashesAfterBlanks(src, p, k) {
      var k :| DashesAfterBlanks(src, p, k);
      ScanExclusiveComplete(src, p, k);
    }
  }

  /** Started at or before a "--", the scan always decides. */
  lemma {:induction false} ScanDecides(src: string, p: nat, c: nat)
    requires p <= c && c + 1 < |src| && src[c] == '-' && src[c + 1] == '-'
    ensures ScanLine(src, p).Some?
    decreases c - p
  {
    if p < c && !(src[p] == '-' && CharAt(src, p + 1) == '-') && IsBlank(src[p]) {
      ScanDecides(src, p + 1, c);
    }
  }

  /* ---------- extraction ---------- */

  /** LuauComment: kind, the token's location and the text it covers. */
  datatype SourceComment = SourceComment(kind: CommentKind, location: Location, contents: string)

  /** Where a location's position lands in the text. */
  function Offset(offsets: seq<nat>, pos: Position): nat
    requires pos.line < |offsets|
  {
    offsets[pos.line] + pos.column
  }

  /** What the lexer guarantees of a comment token it did not mark broken:
      both lines exist, the span lies inside the text, and a line comment
      starts with its "--". */
  predicate ValidToken(src: string, offsets: seq<nat>, t: CommentToken) {
    t.lexeme.BrokenComment? ||
    (t.location.begin.line < |offsets| && t.location.end.line < |offsets| &&
     Offset(offsets, t.location.begin) <= Offset(offsets, t.location.end) <= |src| &&
     (t.lexeme.LineComment? ==>
        var b := Offset(offsets, t.location.begin);
        b + 1 < |src| && src[b] == '-' && src[b + 1] == '-'))
  }

  /** The kind the scan gives a line comment whose "--" is at `start`. */
  function LineCommentKind(src: string, lineStart: nat, start: nat): (k: CommentKind)
    requires lineStart <= start && start + 1 < |src| && src[start] == '-' && src[start + 1] == '-'
    ensures ScanLine(src, lineStart) == Some(k)
  {
    ScanDecides(src, lineStart, start);
    ScanLine(src, lineStart).value
  }

  /** The comment a token that is not broken yields. */
  function CommentOf(src: string, offsets: seq<nat>, t: CommentToken): (c: SourceComment)
    requires !t.lexeme.BrokenComment? && ValidToken(src, offsets, t)
    ensures c.location == t.location
    ensures t.lexeme.BlockComment? ==> c.kind == Block
    ensures c.contents == src[Offset(offsets, t.location.begin)..Offset(offsets, t.location.end)]
    ensures t.lexeme.LineComment? ==>
      (c.kind == SingleLineExcl <==> ScanLine(src, offsets[t.location.begin.line]) == Some(SingleLineExcl))
    ensures t.lexeme.LineComment? ==> ScanLine(src, offsets[t.location.begin.line]) == Some(c.kind)
  {
    var kind :=
      if t.lexeme.BlockComment? then Block
      else LineCommentKind(src, offsets[t.location.begin.line], Offset(offsets, t.location.begin));
    SourceComment(kind, t.location, src[Offset(offsets, t.location.begin)..Offset(offsets, t.location.end)])
  }

  /** The tokens that are not broken, in order. */
  function Unbroken(tokens: seq<CommentToken>): (r: seq<CommentToken>)
    ensures forall t :: t in r <==> t in tokens && !t.lexeme.BrokenComment?
  {
    if tokens == [] then []
    else
      var last := tokens[|tokens| - 1];
      assert tokens == tokens[..|tokens| - 1] + [last];
      Unbroken(tokens[..|tokens| - 1]) + (if last.lexeme.BrokenComment? then [] else [last])
  }

  /** Each unbroken token is kept exactly as often as it occurs; broken ones
      never. */
  lemma {:induction false} UnbrokenCounts(tokens: seq<CommentToken>)
    ensures forall t :: multiset(Unbroken(tokens))[t] ==
                        if t.lexeme.BrokenComment? then 0 else multiset(tokens)[t]
  {
    if tokens != [] {
      var init := tokens[..|tokens| - 1];
      var last := tokens[|tokens| - 1];
      var kept := if last.lexeme.BrokenComment? then [] else [last];
      UnbrokenCounts(init);
      assert tokens == init + [last];
      assert multiset(tokens) == multiset(init) + multiset([last]);
      assert Unbroken(tokens) == Unbroken(init) + kept;
      assert multiset(Unbroken(tokens)) == multiset(Unbroken(init)) + multiset(kept);
    }
  }

  /** Concatenation regrouped, kept apart from the token lemmas so that the
      solver sees only sequences. */
  lemma Regroup(x: seq<CommentToken>, y: seq<CommentToken>, z: seq<CommentToken>, w: seq<CommentToken>)
    requires w == y + z
    ensures (x + y) + z == x + w
  {
  }

  /** One more token at the end is kept at the end, unless it is broken. */
  lemma UnbrokenSnoc(init: seq<CommentToken>, last: CommentToken)
    ensures Unbroken(init + [last]) ==
      Unbroken(init) + (if last.lexeme.BrokenComment? then [] else [last])
  {
    var tokens := init + [last];
    assert tokens[..|tokens| - 1] == init && tokens[|tokens| - 1] == last;
  }

  /** Filtering a token stream piece by piece keeps the order of the pieces. */
  lemma {:induction false} UnbrokenAppend(a: seq<CommentToken>, b: seq<CommentToken>)
    ensures Unbroken(a + b) == Unbroken(a) + Unbroken(b)
  {
    if b == [] {
      assert a + b == a;
    } else {
      var init := b[..|b| - 1];
      var last := b[|b| - 1];
      assert b == init + [last];
      assert a + b == (a + init) + [last];
      UnbrokenSnoc(a + init, last);
      UnbrokenSnoc(init, last);
      UnbrokenAppend(a, init);
      Regroup(Unbroken(a), Unbroken(init), if last.lexeme.BrokenComment? then [] else [last], Unbroken(b));
    }
  }

  /** The comments extracted from `tokens`, in the order the loop pushes them:
      one per unbroken token, in token order. */
  function ExtractComments(src: string, offsets: seq<nat>, tokens: seq<CommentToken>): (r: seq<SourceComment>)
    requires forall t :: t in tokens ==> ValidToken(src, offsets, t)
    ensures |r| == |Unbroken(tokens)|
    ensures forall k :: 0 <= k < |r| ==> r[k] == CommentOf(src, offsets, Unbroken(tokens)[k])
  {
    if tokens == [] then []
    else
      var last := tokens[|tokens| - 1];
      var init := tokens[..|tokens| - 1];
      assert forall t :: t in init ==> t in tokens;
      ExtractComments(src, offsets, init) +
        (if last.lexeme.BrokenComment? then [] else [CommentOf(src, offsets, last)])
  }

  /** The body of the comment loop for one unbroken token: the line's kind is
      scanned from the start of the token's line, and the contents are the
      token's span. */
  method CommentFromToken(src: CString, offsets: seq<nat>, token: CommentToken) returns (c: SourceComment)
    requires !token.lexeme.BrokenComment? && ValidToken(src, offsets, token)
    ensures c == CommentOf(src, offsets, token)
  {
    var loc := token.location;
    var lineStart := offsets[loc.begin.line];
    var kind: CommentKind;
    if token.lexeme.BlockComment? {
      kind := Block;
    } else {
      var scanned := ClassifyFromLineStart(src, lineStart);
      ScanDecides(src, lineStart, Offset(offsets, loc.begin));
      kind := scanned.value;
    }
    var start := lineStart + loc.begin.column;
    var end := offsets[loc.end.line] + loc.end.column;
    c := SourceComment(kind, loc, src[start..end]);
  }
}
