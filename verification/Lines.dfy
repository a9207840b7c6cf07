/** Splitting a text into lines and putting it back together, as the line rewriters do. */
module Lines {
  import opened Text

  function StripCr(line: string): string {
    if line != [] && line[|line| - 1] == '\r' then line[..|line| - 1] else line
  }

  /** `str::lines`: a line ending is a newline with at most one carriage return before it. */
  function LinesOf(text: string): seq<string>
    decreases |text|
  {
    if text == [] then []
    else
      var line := Before(text, '\n');
      if |line| < |text| then [StripCr(line)] + LinesOf(text[|line| + 1..]) else [line]
  }

  predicate EndsWithNewline(text: string) {
    text != [] && text[|text| - 1] == '\n'
  }

  /** `join("\n")`. */
  function Join(lines: seq<string>): string {
    if lines == [] then []
    else if |lines| == 1 then lines[0]
    else lines[0] + ['\n'] + Join(lines[1..])
  }

  /** Rewritten lines joined again, with a final newline where the original had one. */
  function Rejoin(contents: string, lines: seq<string>): string {
    Join(lines) + if EndsWithNewline(contents) then ['\n'] else []
  }

  /** Lines that could have come out of `LinesOf` for a text that ends in a newline or not. */
  ghost predicate AreLines(lines: seq<string>, closed: bool) {
    lines != [] && (forall i :: 0 <= i < |lines| ==> '\n' !in lines[i]) && (!closed ==> lines[|lines| - 1] != [])
  }

  lemma {:induction false} LinesOfAreLines(text: string)
    ensures text != [] ==> AreLines(LinesOf(text), EndsWithNewline(text))
    decreases |text|
  {
    if text != [] {
      var line := Before(text, '\n');
      var rest := BeforeSplits(text, '\n');
      if rest != [] {
        assert text[|line| + 1..] == rest[1..];
        LinesOfAreLines(rest[1..]);
      } else {
        assert text == line;
      }
    }
  }

  /** What survives reading back: each line that a newline follows loses one carriage return. */
  function ReadBack(lines: seq<string>, closed: bool): seq<string> {
    if lines == [] then []
    else if |lines| == 1 then [if closed then StripCr(lines[0]) else lines[0]]
    else [StripCr(lines[0])] + ReadBack(lines[1..], closed)
  }

  lemma LinesOfFirst(line: string, rest: string)
    requires '\n' !in line
    ensures LinesOf(line + ['\n'] + rest) == [StripCr(line)] + LinesOf(rest)
  {
    var text := line + ['\n'] + rest;
    assert text == line + (['\n'] + rest);
    BeforeConcat(line, ['\n'] + rest, '\n');
    assert text[|line| + 1..] == rest;
  }

  lemma {:induction false} LinesOfJoin(lines: seq<string>, closed: bool)
    requires AreLines(lines, closed)
    ensures LinesOf(Join(lines) + if closed then ['\n'] else []) == ReadBack(lines, closed)
  {
    var ending := if closed then ['\n'] else [];
    if |lines| == 1 {
      if closed {
        LinesOfFirst(lines[0], []);
        assert lines[0] + ['\n'] + [] == lines[0] + ['\n'];
      } else {
        BeforeConcat(lines[0], [], '\n');
        assert lines[0] + [] == lines[0];
      }
    } else {
      LinesOfJoin(lines[1..], closed);
      LinesOfFirst(lines[0], Join(lines[1..]) + ending);
      assert Join(lines) + ending == lines[0] + ['\n'] + (Join(lines[1..]) + ending);
    }
  }

  /** No line that a newline follows ends in a carriage return of its own. */
  ghost predicate NoStrayCr(lines: seq<string>, closed: bool) {
    forall i :: 0 <= i < |lines| && (i < |lines| - 1 || closed) ==> StripCr(lines[i]) == lines[i]
  }

  lemma {:induction false} ReadBackIsPointwise(lines: seq<string>, closed: bool)
    ensures |ReadBack(lines, closed)| == |lines|
    ensures forall i :: 0 <= i < |lines| ==>
            ReadBack(lines, closed)[i] == if i < |lines| - 1 || closed then StripCr(lines[i]) else lines[i]
  {
    if |lines| > 1 {
      ReadBackIsPointwise(lines[1..], closed);
    }
  }

  /** Reading the rejoined text gives the rewritten lines exactly when none has a stray carriage return. */
  lemma RejoinKeepsLinesExactly(contents: string, lines: seq<string>)
    requires AreLines(lines, EndsWithNewline(contents))
    ensures LinesOf(Rejoin(contents, lines)) == ReadBack(lines, EndsWithNewline(contents))
    ensures LinesOf(Rejoin(contents, lines)) == lines <==> NoStrayCr(lines, EndsWithNewline(contents))
  {
    var closed := EndsWithNewline(contents);
    LinesOfJoin(lines, closed);
    ReadBackIsPointwise(lines, closed);
    if NoStrayCr(lines, closed) {
      assert ReadBack(lines, closed) == lines;
    }
  }

  /** A text with Windows line endings and a doubled carriage return does lose one. */
  lemma ADoubledCarriageReturnIsLost()
    ensures LinesOf("a\r\r\n") == ["a\r"] && LinesOf(Rejoin("a\r\r\n", LinesOf("a\r\r\n"))) == ["a"]
  {
    LinesOfFirst("a\r\r", []);
    assert "a\r\r" + ['\n'] + [] == "a\r\r\n";
    assert LinesOf([]) == [] && StripCr("a\r\r") == "a\r" && StripCr("a\r") == "a";
    assert LinesOf("a\r\r\n") == ["a\r"];
    LinesOfFirst("a\r", []);
    assert "a\r" + ['\n'] + [] == Rejoin("a\r\r\n", ["a\r"]);
  }

  // ----- the text itself -----

  /** What ends each line of the text: a newline, one with a carriage return before it, or nothing. */
  function Endings(text: string): seq<string>
    decreases |text|
  {
    if text == [] then []
    else
      var line := Before(text, '\n');
      if |line| < |text| then [EndingOf(line)] + Endings(text[|line| + 1..]) else [[]]
  }

  function EndingOf(line: string): string {
    if StripCr(line) == line then ['\n'] else CRLF
  }

  const CRLF := ['\r', '\n']

  function Weave(lines: seq<string>, endings: seq<string>): string
    requires |lines| == |endings|
  {
    if lines == [] then [] else lines[0] + endings[0] + Weave(lines[1..], endings[1..])
  }

  /** The endings as joining with newlines makes them. */
  function PlainEndings(endings: seq<string>): seq<string> {
    seq(|endings|, i requires 0 <= i < |endings| => if endings[i] == CRLF then ['\n'] else endings[i])
  }

  /** A text cut after its first line. */
  lemma FirstLineCut(text: string) returns (line: string, below: string)
    requires '\n' in text
    ensures '\n' !in line && text == line + (['\n'] + below)
    ensures LinesOf(text) == [StripCr(line)] + LinesOf(below)
    ensures Endings(text) == [EndingOf(line)] + Endings(below)
  {
    line := Before(text, '\n');
    var rest := BeforeSplits(text, '\n');
    below := rest[1..];
    assert rest == ['\n'] + below;
    assert text[|line| + 1..] == below;
  }

  lemma OneOpenLine(text: string)
    requires text != [] && '\n' !in text
    ensures LinesOf(text) == [text] && Endings(text) == [[]]
  {
    BeforeConcat(text, [], '\n');
    assert text + [] == text;
  }

  lemma WeaveCons(line: string, ending: string, lines: seq<string>, endings: seq<string>)
    requires |lines| == |endings|
    ensures Weave([line] + lines, [ending] + endings) == line + ending + Weave(lines, endings)
  {
    assert ([line] + lines)[1..] == lines && ([ending] + endings)[1..] == endings;
  }

  /** A text is its lines and their endings. */
  lemma {:induction false} TextIsWoven(text: string)
    ensures |Endings(text)| == |LinesOf(text)|
    ensures text == Weave(LinesOf(text), Endings(text))
    decreases |text|
  {
    if '\n' in text {
      hide LinesOf, Endings, Weave, StripCr;
      var line, below := FirstLineCut(text);
      TextIsWoven(below);
      WeaveCons(StripCr(line), EndingOf(line), LinesOf(below), Endings(below));
      EndingCompletes(line);
      RegroupFront(line, below);
    } else if text != [] {
      OneOpenLine(text);
    }
  }

  lemma EndingCompletes(line: string)
    ensures StripCr(line) + EndingOf(line) == line + ['\n']
  {
  }

  lemma RegroupFront(line: string, below: string)
    ensures line + (['\n'] + below) == line + ['\n'] + below
  {
  }

  /** The text with other lines in the place of its own, every ending kept. */
  function WithLines(text: string, lines: seq<string>): string
    requires |lines| == |LinesOf(text)|
  {
    TextIsWoven(text);
    Weave(lines, Endings(text))
  }

  lemma PlainCons(ending: string, endings: seq<string>)
    ensures PlainEndings([ending] + endings) == [if ending == CRLF then ['\n'] else ending] + PlainEndings(endings)
  {
  }

  lemma RejoinAbove(line: string, below: string, first: string, rest: seq<string>)
    requires '\n' !in line && |rest| == |LinesOf(below)|
    ensures Rejoin(line + (['\n'] + below), [first] + rest) == first + ['\n'] + Rejoin(below, rest)
  {
    var text := line + (['\n'] + below);
    assert ([first] + rest)[1..] == rest;
    assert text[|text| - 1] == if below == [] then '\n' else below[|below| - 1];
    if below != [] {
      LinesOfAreLines(below);
    }
  }

  lemma {:induction false} RejoinIsWoven(text: string, lines: seq<string>)
    requires |lines| == |LinesOf(text)|
    ensures |Endings(text)| == |lines| && Rejoin(text, lines) == Weave(lines, PlainEndings(Endings(text)))
    decreases |text|
  {
    TextIsWoven(text);
    if '\n' in text {
      hide LinesOf, Endings, Weave, Rejoin, PlainEndings;
      var line, below := FirstLineCut(text);
      var first, rest := lines[0], lines[1..];
      assert lines == [first] + rest;
      RejoinIsWoven(below, rest);
      RejoinAbove(line, below, first, rest);
      PlainCons(EndingOf(line), Endings(below));
      WeaveCons(first, ['\n'], rest, PlainEndings(Endings(below)));
    } else if text != [] {
      OneOpenLine(text);
      assert PlainEndings([[]]) == [[]];
      assert lines == [lines[0]] && lines[1..] == [];
    }
  }

  /** No carriage return stands before a newline. */
  ghost predicate HasNoCrLf(text: string) {
    forall i :: 0 <= i < |text| - 1 ==> !(text[i] == '\r' && text[i + 1] == '\n')
  }

  ghost predicate NoneIsCrLf(endings: seq<string>) {
    forall i :: 0 <= i < |endings| ==> endings[i] != CRLF
  }

  lemma CrLfAtFirstEnding(line: string, rest: string)
    requires '\n' !in line
    ensures HasNoCrLf(line + (['\n'] + rest)) <==> StripCr(line) == line && HasNoCrLf(rest)
  {
    var text := line + (['\n'] + rest);
    if HasNoCrLf(text) {
      if line != [] {
        assert text[|line| - 1] == line[|line| - 1] && text[|line| - 1 + 1] == '\n';
      }
      forall i | 0 <= i < |rest| - 1 ensures !(rest[i] == '\r' && rest[i + 1] == '\n') {
        assert text[|line| + 1 + i] == rest[i] && text[|line| + 1 + i + 1] == rest[i + 1];
      }
    }
    if StripCr(line) == line && HasNoCrLf(rest) {
      forall i | 0 <= i < |text| - 1 ensures !(text[i] == '\r' && text[i + 1] == '\n') {
        if i > |line| {
          assert text[i] == rest[i - |line| - 1] && text[i + 1] == rest[i - |line|];
        } else if i + 1 < |line| {
          assert text[i + 1] == line[i + 1];
        } else if i + 1 == |line| {
          assert text[i] == line[|line| - 1] != '\r';
        }
      }
    }
  }

  lemma NoneIsCrLfCons(ending: string, endings: seq<string>)
    ensures NoneIsCrLf([ending] + endings) <==> ending != CRLF && NoneIsCrLf(endings)
  {
    var all := [ending] + endings;
    assert all[0] == ending && forall i :: 0 <= i < |endings| ==> all[i + 1] == endings[i];
  }

  lemma {:induction false} CrLfIsAnEnding(text: string)
    ensures HasNoCrLf(text) <==> NoneIsCrLf(Endings(text))
    decreases |text|
  {
    if '\n' in text {
      hide HasNoCrLf, NoneIsCrLf, Endings, LinesOf;
      var line, below := FirstLineCut(text);
      CrLfIsAnEnding(below);
      CrLfAtFirstEnding(line, below);
      NoneIsCrLfCons(EndingOf(line), Endings(below));
    } else if text != [] {
      OneOpenLine(text);
    }
  }

  lemma {:induction false} PlainWeave(lines: seq<string>, endings: seq<string>)
    requires |lines| == |endings|
    ensures |Weave(lines, PlainEndings(endings))| <= |Weave(lines, endings)|
    ensures Weave(lines, PlainEndings(endings)) == Weave(lines, endings) <==> NoneIsCrLf(endings)
  {
    if lines != [] {
      PlainWeave(lines[1..], endings[1..]);
      assert PlainEndings(endings)[1..] == PlainEndings(endings[1..]);
      assert forall i :: 0 < i < |endings| ==> endings[i] == endings[1..][i - 1];
      if endings[0] != CRLF {
        SameFront(lines[0] + endings[0],
                  Weave(lines[1..], PlainEndings(endings[1..])), Weave(lines[1..], endings[1..]));
      }
    }
  }

  lemma SameFront(front: string, a: string, b: string)
    ensures front + a == front + b <==> a == b
  {
    DropFront(front, a);
    DropFront(front, b);
  }

  /**
   * Rewriting the lines of a text and joining them changes the lines and nothing else exactly
   * when no carriage return stands before a newline; otherwise every such one is dropped.
   */
  lemma RewriteKeepsEndingsExactly(text: string, lines: seq<string>)
    requires |lines| == |LinesOf(text)|
    ensures Rejoin(text, lines) == WithLines(text, lines) <==> HasNoCrLf(text)
  {
    TextIsWoven(text);
    RejoinIsWoven(text, lines);
    CrLfIsAnEnding(text);
    PlainWeave(lines, Endings(text));
  }

  /** In particular splitting and joining is the identity exactly then. */
  lemma RejoinIsIdentityExactly(text: string)
    ensures Rejoin(text, LinesOf(text)) == text <==> HasNoCrLf(text)
  {
    TextIsWoven(text);
    RewriteKeepsEndingsExactly(text, LinesOf(text));
  }

  /** An ordinary Windows text shows the loss. */
  lemma AWindowsEndingIsLost()
    ensures Rejoin("a\r\nb", LinesOf("a\r\nb")) == "a\nb"
  {
    LinesOfFirst("a\r", "b");
    assert "a\r" + ['\n'] + "b" == "a\r\nb" && StripCr("a\r") == "a";
    BeforeConcat("b", [], '\n');
    assert "b" + [] == "b" && LinesOf("b") == ["b"];
    assert LinesOf("a\r\nb") == ["a", "b"] && ["a", "b"][1..] == ["b"];
  }

  /** Everything before line `k`. */
  function TextBefore(text: string, k: nat): string
    requires k <= |LinesOf(text)|
  {
    TextIsWoven(text);
    Weave(LinesOf(text)[..k], Endings(text)[..k])
  }

  lemma {:induction false} WeaveSplits(lines: seq<string>, endings: seq<string>, k: nat)
    requires |lines| == |endings| && k <= |lines|
    ensures Weave(lines, endings) == Weave(lines[..k], endings[..k]) + Weave(lines[k..], endings[k..])
  {
    if k == 0 {
      assert lines[0..] == lines && endings[0..] == endings;
    } else {
      WeaveSplits(lines[1..], endings[1..], k - 1);
      assert lines[1..][..k - 1] == lines[..k][1..] && endings[1..][..k - 1] == endings[..k][1..];
      assert lines[1..][k - 1..] == lines[k..] && endings[1..][k - 1..] == endings[k..];
    }
  }

  /** Replacing line `k` leaves the text before and after it as it was. */
  lemma OneLineReplaced(text: string, k: nat, line: string) returns (after: string)
    requires k < |LinesOf(text)|
    ensures text == TextBefore(text, k) + LinesOf(text)[k] + after
    ensures WithLines(text, LinesOf(text)[k := line]) == TextBefore(text, k) + line + after
  {
    TextIsWoven(text);
    hide LinesOf, Endings;
    var lines, endings := LinesOf(text), Endings(text);
    after := endings[k] + Weave(lines[k + 1..], endings[k + 1..]);
    WeaveAt(lines, endings, k);
    WeaveAt(lines[k := line], endings, k);
    assert lines[k := line][..k] == lines[..k] && lines[k := line][k + 1..] == lines[k + 1..];
  }

  lemma Regroup(a: string, b: string, c: string, d: string)
    ensures a + (b + c + d) == a + b + (c + d)
  {
  }

  lemma WeaveAt(lines: seq<string>, endings: seq<string>, k: nat)
    requires |lines| == |endings| && k < |lines|
    ensures Weave(lines, endings) ==
            Weave(lines[..k], endings[..k]) + lines[k] + (endings[k] + Weave(lines[k + 1..], endings[k + 1..]))
  {
    WeaveSplits(lines, endings, k);
    WeaveFrom(lines, endings, k);
    hide Weave;
    Regroup(Weave(lines[..k], endings[..k]), lines[k], endings[k], Weave(lines[k + 1..], endings[k + 1..]));
  }

  lemma WeaveFrom(lines: seq<string>, endings: seq<string>, k: nat)
    requires |lines| == |endings| && k < |lines|
    ensures Weave(lines[k..], endings[k..]) == lines[k] + endings[k] + Weave(lines[k + 1..], endings[k + 1..])
  {
    assert lines[k..][1..] == lines[k + 1..] && endings[k..][1..] == endings[k + 1..];
  }
}
