/** The string operations the text rewriters are built from, with their defining properties. */
module Text {
  import opened Outcomes

  predicate OccursAt(text: string, pattern: string, i: nat) {
    i + |pattern| <= |text| && text[i..i + |pattern|] == pattern
  }

  /** The position of the first occurrence. */
  function Find(text: string, pattern: string): Option<nat> {
    if pattern <= text then Some(0)
    else if text == [] then None
    else
      match Find(text[1..], pattern)
      case Some(i) => Some(i + 1)
      case None => None
  }

  lemma OccursInTail(text: string, pattern: string, j: nat)
    requires text != []
    ensures OccursAt(text, pattern, j + 1) <==> OccursAt(text[1..], pattern, j)
  {
    if j + 1 + |pattern| <= |text| {
      assert text[j + 1..j + 1 + |pattern|] == text[1..][j..j + |pattern|];
    }
  }

  lemma {:induction false} FindIsFirst(text: string, pattern: string)
    ensures match Find(text, pattern)
            case Some(i) => OccursAt(text, pattern, i) && forall j: nat :: j < i ==> !OccursAt(text, pattern, j)
            case None => forall j: nat :: !OccursAt(text, pattern, j)
  {
    assert OccursAt(text, pattern, 0) <==> pattern <= text;
    if !(pattern <= text) && text != [] {
      FindIsFirst(text[1..], pattern);
      forall j: nat | j > 0 ensures OccursAt(text, pattern, j) <==> OccursAt(text[1..], pattern, j - 1) {
        OccursInTail(text, pattern, j - 1);
      }
    }
  }

  lemma FindIs(text: string, pattern: string, i: nat)
    requires OccursAt(text, pattern, i) && forall j: nat :: j < i ==> !OccursAt(text, pattern, j)
    ensures Find(text, pattern) == Some(i)
  {
    FindIsFirst(text, pattern);
  }

  /** What is found in the front of a text is found in the text. */
  lemma {:induction false} FindConcat(front: string, rest: string, pattern: string)
    requires Find(front, pattern).Some?
    ensures Find(front + rest, pattern) == Find(front, pattern)
  {
    FindIsFirst(front, pattern);
    if !(pattern <= front) {
      FindConcat(front[1..], rest, pattern);
      assert (front + rest)[1..] == front[1..] + rest;
      PrefixOfFront(front, rest, pattern);
    }
  }

  lemma PrefixOfFront(front: string, rest: string, pattern: string)
    requires |pattern| <= |front|
    ensures pattern <= front <==> pattern <= front + rest
  {
    assert (front + rest)[..|pattern|] == front[..|pattern|];
  }

  lemma ConsConcat(c: char, a: string, b: string, d: string)
    ensures ([c] + a) + b + d == [c] + (a + b + d)
    ensures (([c] + a) + b)[1..] == a + b
  {
  }

  /** A text with an occurrence, cut at the first one, which is first in the front alone too. */
  lemma {:induction false} FindSplits(text: string, pattern: string) returns (head: string, tail: string)
    requires Find(text, pattern).Some?
    ensures text == head + pattern + tail && Find(text, pattern) == Some(|head|)
    ensures Find(head + pattern, pattern) == Some(|head|)
  {
    if pattern <= text {
      head, tail := [], text[|pattern|..];
      assert [] + pattern == pattern;
    } else {
      var rest;
      rest, tail := FindSplits(text[1..], pattern);
      head := [text[0]] + rest;
      ConsConcat(text[0], rest, pattern, tail);
      assert text == [text[0]] + text[1..];
      PrefixOfFront(head + pattern, tail, pattern);
    }
  }

  /** A pattern not found in a text is not found in the front of it. */
  lemma NotInFront(front: string, rest: string, pattern: string)
    requires Find(front + rest, pattern).None?
    ensures Find(front, pattern).None?
  {
    if Find(front, pattern).Some? {
      FindConcat(front, rest, pattern);
    }
  }

  lemma DropFront(front: string, rest: string)
    ensures (front + rest)[|front|..] == rest
  {
  }

  // ----- one character -----

  /** Everything before the first `c`, or all of it. */
  function Before(text: string, c: char): (front: string)
    ensures |front| <= |text|
  {
    if text == [] || text[0] == c then [] else [text[0]] + Before(text[1..], c)
  }

  lemma {:induction false} BeforeAppend(head: string, tail: string, c: char)
    requires c !in head
    ensures Before(head + tail, c) == head + Before(tail, c)
  {
    if head == [] {
      assert head + tail == tail;
    } else {
      assert (head + tail)[1..] == head[1..] + tail;
      BeforeAppend(head[1..], tail, c);
    }
  }

  lemma BeforeConcat(head: string, tail: string, c: char)
    requires c !in head && (tail == [] || tail[0] == c)
    ensures Before(head + tail, c) == head
  {
    BeforeAppend(head, tail, c);
  }

  /** A text is what comes before the first `c`, and the rest, which starts with `c` if there is one. */
  lemma {:induction false} BeforeSplits(text: string, c: char) returns (rest: string)
    ensures text == Before(text, c) + rest && c !in Before(text, c)
    ensures if c in text then rest != [] && rest[0] == c else rest == []
  {
    if text == [] || text[0] == c {
      rest := text;
    } else {
      rest := BeforeSplits(text[1..], c);
    }
  }

  // ----- whitespace -----

  /** `char::is_whitespace`. */
  predicate IsWhitespace(c: char) {
    '\t' <= c <= '\r' || c == ' ' || c == '\U{85}' || c == '\U{A0}' || c == '\U{1680}' ||
    '\U{2000}' <= c <= '\U{200A}' || c == '\U{2028}' || c == '\U{2029}' || c == '\U{202F}' ||
    c == '\U{205F}' || c == '\U{3000}'
  }

  /** The code points with Unicode's White_Space property. */
  lemma WhitespaceIsExact(c: char)
    ensures var point := c as int;
            IsWhitespace(c) <==>
            9 <= point <= 13 || 0x2000 <= point <= 0x200A ||
            point in {0x20, 0x85, 0xA0, 0x1680, 0x2028, 0x2029, 0x202F, 0x205F, 0x3000}
  {
  }

  predicate AllWhitespace(text: string) {
    forall i :: 0 <= i < |text| ==> IsWhitespace(text[i])
  }

  function TrimStart(text: string): string {
    if text != [] && IsWhitespace(text[0]) then TrimStart(text[1..]) else text
  }

  function TrimEnd(text: string): string {
    if text != [] && IsWhitespace(text[|text| - 1]) then TrimEnd(text[..|text| - 1]) else text
  }

  function Trim(text: string): string {
    TrimEnd(TrimStart(text))
  }

  lemma {:induction false} TrimStartSplits(text: string) returns (ws: string)
    ensures text == ws + TrimStart(text) && AllWhitespace(ws)
    ensures TrimStart(text) != [] ==> !IsWhitespace(TrimStart(text)[0])
  {
    if text != [] && IsWhitespace(text[0]) {
      var rest := TrimStartSplits(text[1..]);
      ws := [text[0]] + rest;
    } else {
      ws := [];
    }
  }

  lemma {:induction false} TrimEndSplits(text: string) returns (ws: string)
    ensures text == TrimEnd(text) + ws && AllWhitespace(ws)
    ensures TrimEnd(text) != [] ==> !IsWhitespace(TrimEnd(text)[|TrimEnd(text)| - 1])
  {
    if text != [] && IsWhitespace(text[|text| - 1]) {
      var rest := TrimEndSplits(text[..|text| - 1]);
      ws := rest + [text[|text| - 1]];
      assert text == text[..|text| - 1] + [text[|text| - 1]];
    } else {
      ws := [];
    }
  }

  lemma {:induction false} TrimStartOf(ws: string, text: string)
    requires AllWhitespace(ws)
    ensures TrimStart(ws + text) == TrimStart(text)
  {
    if ws == [] {
      assert ws + text == text;
    } else {
      assert (ws + text)[1..] == ws[1..] + text;
      TrimStartOf(ws[1..], text);
    }
  }

  lemma {:induction false} TrimEndOf(text: string, ws: string)
    requires AllWhitespace(ws)
    ensures TrimEnd(text + ws) == TrimEnd(text)
  {
    if ws == [] {
      assert text + ws == text;
    } else {
      assert (text + ws)[..|text + ws| - 1] == text + ws[..|ws| - 1];
      TrimEndOf(text, ws[..|ws| - 1]);
    }
  }

  /** Trimming strips the whitespace around a core that neither starts nor ends with any. */
  lemma TrimCore(before: string, core: string, after: string)
    requires AllWhitespace(before) && AllWhitespace(after)
    requires core != [] && !IsWhitespace(core[0]) && !IsWhitespace(core[|core| - 1])
    ensures Trim(before + core + after) == core
  {
    assert before + core + after == before + (core + after);
    TrimStartOf(before, core + after);
    assert TrimStart(core + after) == core + after;
    TrimEndOf(core, after);
  }

  /** Whitespace at the end of a line does not show once it is trimmed. */
  lemma TrimIgnoresEnd(text: string, after: string)
    requires AllWhitespace(after)
    ensures Trim(text + after) == Trim(text)
  {
    var ws := TrimStartSplits(text);
    var core := TrimStart(text);
    TrimStartOf(ws, core + after);
    assert text + after == ws + (core + after);
    if core == [] {
      TrimStartOf(after, []);
      assert after + [] == after && core + after == after;
      TrimEndOf([], []);
    } else {
      assert TrimStart(core + after) == core + after;
      TrimEndOf(core, after);
    }
  }

  // ----- splitting -----

  function Split(text: string, c: char): seq<string>
    decreases |text|
  {
    var piece := Before(text, c);
    if |piece| < |text| then [piece] + Split(text[|piece| + 1..], c) else [piece]
  }

  lemma SplitOne(piece: string, c: char)
    requires c !in piece
    ensures Split(piece, c) == [piece]
  {
    BeforeConcat(piece, [], c);
    assert piece + [] == piece;
  }

  lemma SplitFirst(piece: string, c: char, rest: string)
    requires c !in piece
    ensures Split(piece + [c] + rest, c) == [piece] + Split(rest, c)
  {
    var text := piece + [c] + rest;
    assert text == piece + ([c] + rest);
    BeforeConcat(piece, [c] + rest, c);
    assert text[|piece| + 1..] == rest;
  }

  /** A separator and one more piece at the end add exactly that piece. */
  lemma {:induction false} SplitAppend(text: string, c: char, piece: string)
    requires c !in piece
    ensures Split(text + [c] + piece, c) == Split(text, c) + [piece]
    decreases |text|
  {
    var first := Before(text, c);
    var rest := BeforeSplits(text, c);
    if rest == [] {
      assert text == first;
      SplitFirst(text, c, piece);
      SplitOne(text, c);
      SplitOne(piece, c);
    } else {
      var more := rest[1..];
      assert text == first + [c] + more;
      assert text + [c] + piece == first + [c] + (more + [c] + piece);
      SplitFirst(first, c, more + [c] + piece);
      SplitFirst(first, c, more);
      SplitAppend(more, c, piece);
    }
  }

  function Quoted(text: string): string {
    "\"" + text + "\""
  }

  /** `trim_matches('"')`. */
  function TrimQuotes(text: string): string {
    if text != [] && text[0] == '"' then TrimQuotes(text[1..])
    else if text != [] && text[|text| - 1] == '"' then TrimQuotes(text[..|text| - 1])
    else text
  }

  lemma QuotedTrims(name: string)
    requires '"' !in name
    ensures TrimQuotes(Quoted(name)) == name
  {
    var quoted := Quoted(name);
    assert quoted[1..] == name + "\"";
    if name == [] {
      assert TrimQuotes(name + "\"") == TrimQuotes([]) by { assert (name + "\"")[1..] == []; }
    } else {
      assert (name + "\"")[0] == name[0] && name[0] in name;
      assert (name + "\"")[..|name|] == name;
      assert name[|name| - 1] in name;
      assert TrimQuotes(name) == name;
    }
  }
}
