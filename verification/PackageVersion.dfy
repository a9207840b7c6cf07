/** Reading, rewriting and bumping the version in a Cargo manifest. */
module PackageVersion {
  import opened Outcomes
  import opened Text
  import opened Lines
  import opened Decimals

  const VERSION := "version"

  /** A trimmed line that assigns the key `version`. */
  predicate IsVersionKey(trimmed: string) {
    VERSION <= trimmed && var rest := TrimStart(trimmed[|VERSION|..]); rest != [] && rest[0] == '='
  }

  predicate IsPackageHeader(trimmed: string) {
    trimmed == "[package]" || trimmed == "[workspace.package]"
  }

  predicate IsHeader(trimmed: string) {
    trimmed != [] && trimmed[0] == '['
  }

  /** The index of the version line, given whether the text so far ends in the package section. */
  function VersionIndex(lines: seq<string>, inSection: bool): Option<nat>
    decreases |lines|
  {
    if lines == [] then None
    else
      var trimmed := Trim(lines[0]);
      if !IsHeader(trimmed) && inSection && IsVersionKey(trimmed) then Some(0)
      else
        match VersionIndex(lines[1..], if IsHeader(trimmed) then IsPackageHeader(trimmed) else inSection)
        case Some(i) => Some(i + 1)
        case None => None
  }

  /** The scan as it runs, one flag carried over the lines. */
  method PackageVersionLineIndex(contents: string) returns (index: Option<nat>)
    ensures index == VersionIndex(LinesOf(contents), false)
  {
    var lines := LinesOf(contents);
    var inSection := false;
    for i := 0 to |lines|
      invariant match VersionIndex(lines[i..], inSection)
                case None => VersionIndex(lines, false) == None
                case Some(k) => VersionIndex(lines, false) == Some(i + k)
    {
      var trimmed := Trim(lines[i]);
      assert lines[i..][1..] == lines[i + 1..] && lines[i..][0] == lines[i];
      if IsHeader(trimmed) {
        inSection := IsPackageHeader(trimmed);
        continue;
      }
      if inSection && IsVersionKey(trimmed) {
        return Some(i);
      }
    }
    index := None;
  }

  /** The text between the quotes that surround everything after the first `=`. */
  function ExtractQuotedValue(line: string): Option<string> {
    var key := Before(line, '=');
    if |key| == |line| then None
    else
      var value := Trim(line[|key| + 1..]);
      if |value| < 2 || value[0] != '"' || value[|value| - 1] != '"' then None
      else Some(value[1..|value| - 1])
  }

  function ReadPackageVersion(contents: string): Option<string> {
    var lines := LinesOf(contents);
    match VersionIndex(lines, false)
    case None => None
    case Some(i) => if i < |lines| then ExtractQuotedValue(lines[i]) else None
  }

  function ReplaceFirst(line: string, sought: string, given: string): string {
    match Find(line, sought)
    case None => line
    case Some(i) =>
      FindIsFirst(line, sought);
      line[..i] + given + line[i + |sought|..]
  }

  function SetPackageVersion(contents: string, oldVersion: string, newVersion: string): Option<string> {
    var lines := LinesOf(contents);
    match VersionIndex(lines, false)
    case None => None
    case Some(i) =>
      VersionIndexIsInside(lines, false);
      Some(Rejoin(contents, lines[i := ReplaceFirst(lines[i], Quoted(oldVersion), Quoted(newVersion))]))
  }

  lemma {:induction false} VersionIndexIsInside(lines: seq<string>, inSection: bool)
    ensures VersionIndex(lines, inSection).Some? ==>
            VersionIndex(lines, inSection).value < |lines| &&
            IsVersionKey(Trim(lines[VersionIndex(lines, inSection).value]))
    decreases |lines|
  {
    if lines != [] {
      var trimmed := Trim(lines[0]);
      VersionIndexIsInside(lines[1..], if IsHeader(trimmed) then IsPackageHeader(trimmed) else inSection);
    }
  }

  /** The nearest header above line `k` opens the package section. */
  ghost predicate InPackage(lines: seq<string>, k: nat) {
    exists h :: 0 <= h < k <= |lines| && IsHeader(Trim(lines[h])) && IsPackageHeader(Trim(lines[h])) &&
                NoHeaderIn(lines, h + 1, k)
  }

  ghost predicate NoHeaderIn(lines: seq<string>, from: nat, to: nat)
    requires to <= |lines|
  {
    forall j :: from <= j < to ==> !IsHeader(Trim(lines[j]))
  }

  ghost predicate IsVersionAt(lines: seq<string>, inSection: bool, k: nat) {
    k < |lines| && !IsHeader(Trim(lines[k])) && IsVersionKey(Trim(lines[k])) &&
    (InPackage(lines, k) || (inSection && NoHeaderIn(lines, 0, k)))
  }

  function SectionBelow(lines: seq<string>, inSection: bool): bool
    requires lines != []
  {
    if IsHeader(Trim(lines[0])) then IsPackageHeader(Trim(lines[0])) else inSection
  }

  lemma NoHeaderBelow(lines: seq<string>, from: nat, to: nat)
    requires to < |lines|
    ensures NoHeaderIn(lines, from + 1, to + 1) <==> NoHeaderIn(lines[1..], from, to)
  {
    var rest := lines[1..];
    if NoHeaderIn(lines, from + 1, to + 1) {
      forall j | from <= j < to ensures !IsHeader(Trim(rest[j])) {
        assert rest[j] == lines[j + 1];
      }
    }
    if NoHeaderIn(rest, from, to) {
      forall j | from + 1 <= j < to + 1 ensures !IsHeader(Trim(lines[j])) {
        assert rest[j - 1] == lines[j];
      }
    }
  }

  lemma NoHeaderFromTop(lines: seq<string>, k: nat)
    requires k < |lines|
    ensures NoHeaderIn(lines, 0, k + 1) <==> NoHeaderIn(lines, 1, k + 1) && !IsHeader(Trim(lines[0]))
  {
  }

  lemma InPackageBelow(lines: seq<string>, inSection: bool, k: nat)
    requires lines != [] && k < |lines| - 1
    ensures IsVersionAt(lines, inSection, k + 1) <==> IsVersionAt(lines[1..], SectionBelow(lines, inSection), k)
  {
    hide Trim, IsVersionKey, NoHeaderIn;
    NoHeaderFromTop(lines, k);
    var rest := lines[1..];
    NoHeaderBelow(lines, 0, k);
    if InPackage(lines, k + 1) {
      var h :| 0 <= h < k + 1 && IsHeader(Trim(lines[h])) && IsPackageHeader(Trim(lines[h])) &&
               NoHeaderIn(lines, h + 1, k + 1);
      if h > 0 {
        NoHeaderBelow(lines, h, k);
        assert rest[h - 1] == lines[h];
      }
    }
    if InPackage(rest, k) {
      var h :| 0 <= h < k && IsHeader(Trim(rest[h])) && IsPackageHeader(Trim(rest[h])) && NoHeaderIn(rest, h + 1, k);
      NoHeaderBelow(lines, h + 1, k);
      assert rest[h] == lines[h + 1];
    }
  }

  lemma IsVersionAtTop(lines: seq<string>, inSection: bool)
    requires lines != []
    ensures IsVersionAt(lines, inSection, 0) <==>
            !IsHeader(Trim(lines[0])) && IsVersionKey(Trim(lines[0])) && inSection
  {
  }

  lemma IsVersionInside(lines: seq<string>, inSection: bool)
    ensures forall k: nat :: IsVersionAt(lines, inSection, k) ==> k < |lines|
  {
  }

  lemma VersionIndexAbove(lines: seq<string>, inSection: bool)
    requires lines != []
    ensures VersionIndex(lines, inSection) ==
            if IsVersionAt(lines, inSection, 0) then Some(0)
            else match VersionIndex(lines[1..], SectionBelow(lines, inSection))
                 case Some(k) => Some(k + 1)
                 case None => None
  {
    IsVersionAtTop(lines, inSection);
    hide IsVersionAt, Trim, IsVersionKey, IsPackageHeader;
  }

  ghost predicate IsFirstVersion(lines: seq<string>, inSection: bool, index: Option<nat>) {
    match index
    case Some(k) => IsVersionAt(lines, inSection, k) && forall j: nat :: j < k ==> !IsVersionAt(lines, inSection, j)
    case None => forall j: nat :: !IsVersionAt(lines, inSection, j)
  }

  lemma FirstVersionAbove(lines: seq<string>, inSection: bool, below: Option<nat>)
    requires lines != [] && IsFirstVersion(lines[1..], SectionBelow(lines, inSection), below)
    ensures IsFirstVersion(lines, inSection,
              if IsVersionAt(lines, inSection, 0) then Some(0)
              else match below case Some(k) => Some(k + 1) case None => None)
  {
    hide IsVersionAt, SectionBelow;
    IsVersionInside(lines, inSection);
    forall j: nat | 0 < j < |lines|
      ensures IsVersionAt(lines, inSection, j) <==> IsVersionAt(lines[1..], SectionBelow(lines, inSection), j - 1)
    {
      InPackageBelow(lines, inSection, j - 1);
    }
    IsVersionInside(lines[1..], SectionBelow(lines, inSection));
  }

  /** The scan finds the first line in a package section that assigns `version`. */
  lemma {:induction false} VersionIndexIsFirst(lines: seq<string>, inSection: bool)
    ensures IsFirstVersion(lines, inSection, VersionIndex(lines, inSection))
    decreases |lines|
  {
    if lines != [] {
      hide VersionIndex, IsFirstVersion, IsVersionAt, SectionBelow;
      VersionIndexAbove(lines, inSection);
      VersionIndexIsFirst(lines[1..], SectionBelow(lines, inSection));
      FirstVersionAbove(lines, inSection, VersionIndex(lines[1..], SectionBelow(lines, inSection)));
    }
  }

  /** A trimmed line that assigns `version`: the word, any space, an equals sign, anything. */
  ghost predicate AssignsVersion(trimmed: string) {
    exists space, rest :: AllWhitespace(space) && trimmed == "version" + space + "=" + rest
  }

  lemma VersionKeyIsExact(trimmed: string)
    ensures IsVersionKey(trimmed) <==> AssignsVersion(trimmed)
  {
    if IsVersionKey(trimmed) {
      var after := trimmed[7..];
      var space := TrimStartSplits(after);
      var found := TrimStart(after);
      assert found == "=" + found[1..] && trimmed == "version" + after;
      assert trimmed == "version" + space + "=" + found[1..];
    }
    if space, rest :| AllWhitespace(space) && trimmed == "version" + space + "=" + rest {
      assert trimmed[7..] == space + ("=" + rest);
      TrimStartOf(space, "=" + rest);
      assert TrimStart("=" + rest) == "=" + rest;
    }
  }

  /** Line `h` opens the package section of a crate or of a workspace, and no section starts after it up to `k`. */
  ghost predicate IsUnderPackage(lines: seq<string>, h: nat, k: nat) {
    h < k < |lines| && (Trim(lines[h]) == "[package]" || Trim(lines[h]) == "[workspace.package]") &&
    forall j :: h < j <= k ==> Trim(lines[j]) == [] || Trim(lines[j])[0] != '['
  }

  ghost predicate IsPackageVersionLine(lines: seq<string>, k: nat) {
    k < |lines| && AssignsVersion(Trim(lines[k])) && exists h: nat :: IsUnderPackage(lines, h, k)
  }

  lemma VersionAtIsExact(lines: seq<string>, k: nat)
    ensures IsVersionAt(lines, false, k) <==> IsPackageVersionLine(lines, k)
  {
    if k < |lines| {
      VersionKeyIsExact(Trim(lines[k]));
      hide Trim, IsVersionKey, AssignsVersion;
      if InPackage(lines, k) && !IsHeader(Trim(lines[k])) {
        var h :| 0 <= h < k && IsHeader(Trim(lines[h])) && IsPackageHeader(Trim(lines[h])) &&
                 NoHeaderIn(lines, h + 1, k);
        assert IsUnderPackage(lines, h, k);
      }
      if h: nat :| IsUnderPackage(lines, h, k) {
        assert IsHeader(Trim(lines[h])) && IsPackageHeader(Trim(lines[h])) && NoHeaderIn(lines, h + 1, k);
      }
    }
  }

  /** The line that is read and written is the first such line of the text; without one there is nothing to write. */
  lemma VersionLineIsExact(contents: string)
    ensures match VersionIndex(LinesOf(contents), false)
            case Some(k) =>
              IsPackageVersionLine(LinesOf(contents), k) &&
              forall j: nat :: j < k ==> !IsPackageVersionLine(LinesOf(contents), j)
            case None => forall j: nat :: !IsPackageVersionLine(LinesOf(contents), j)
    ensures forall oldVersion, newVersion :: SetPackageVersion(contents, oldVersion, newVersion).None? <==>
            VersionIndex(LinesOf(contents), false).None?
  {
    VersionIndexIsFirst(LinesOf(contents), false);
    forall j: nat ensures IsVersionAt(LinesOf(contents), false, j) <==> IsPackageVersionLine(LinesOf(contents), j) {
      VersionAtIsExact(LinesOf(contents), j);
    }
  }

  /** The scan only looks at trimmed lines, and stops at the first version line of the section. */
  lemma {:induction false} VersionIndexDepends(lines: seq<string>, others: seq<string>, inSection: bool, k: nat)
    requires VersionIndex(lines, inSection) == Some(k) && k < |lines| && k < |others|
    requires forall i :: 0 <= i < k ==> Trim(others[i]) == Trim(lines[i])
    requires IsVersionKey(Trim(others[k]))
    ensures VersionIndex(others, inSection) == Some(k)
    decreases |lines|
  {
    assert VERSION[0] == 'v';
    if k > 0 {
      assert Trim(others[0]) == Trim(lines[0]);
      var trimmed := Trim(lines[0]);
      VersionIndexDepends(lines[1..], others[1..],
                          if IsHeader(trimmed) then IsPackageHeader(trimmed) else inSection, k - 1);
    }
  }

  // ----- the version line -----

  /** A version line in pieces: `key = "value"` with white space anywhere around its parts. */
  ghost predicate IsVersionLine(line: string, w1: string, w2: string, w3: string, value: string, w4: string) {
    AllWhitespace(w1) && AllWhitespace(w2) && AllWhitespace(w3) && AllWhitespace(w4) &&
    line == w1 + VERSION + w2 + ['='] + w3 + Quoted(value) + w4
  }

  lemma TrimSplits(text: string) returns (before: string, after: string)
    ensures text == before + Trim(text) + after && AllWhitespace(before) && AllWhitespace(after)
  {
    before := TrimStartSplits(text);
    after := TrimEndSplits(TrimStart(text));
  }

  lemma KeyEndsAtEquals(w1: string, w2: string, rest: string)
    requires AllWhitespace(w1) && AllWhitespace(w2)
    ensures Before(w1 + VERSION + w2 + (['='] + rest), '=') == w1 + VERSION + w2
  {
    BeforeConcat(w1 + VERSION + w2, ['='] + rest, '=');
  }

  lemma KeySplits(line: string) returns (w1: string, w2: string, rest: string)
    requires IsVersionKey(Trim(line))
    ensures AllWhitespace(w1) && AllWhitespace(w2) && line == w1 + VERSION + w2 + (['='] + rest)
  {
    hide Trim, TrimStart;
    var w5;
    w1, w5 := TrimSplits(line);
    var afterKey := Trim(line)[|VERSION|..];
    w2 := TrimStartSplits(afterKey);
    var value := TrimStart(afterKey)[1..];
    rest := value + w5;
    assert Trim(line) == VERSION + (w2 + (['='] + value));
    KeyReassociates(w1, w2, value, w5);
  }

  lemma KeyReassociates(w1: string, w2: string, value: string, w5: string)
    ensures w1 + (VERSION + (w2 + (['='] + value))) + w5 == w1 + VERSION + w2 + (['='] + (value + w5))
  {
  }

  lemma ValueIsTrimmed(line: string, key: string, rest: string, value: string)
    requires line == key + (['='] + rest) && Before(line, '=') == key && ExtractQuotedValue(line) == Some(value)
    ensures Trim(rest) == Quoted(value)
  {
    assert line[|key| + 1..] == rest;
  }

  /** A line that is recognised and has a value is of that form. */
  lemma VersionLineHasPieces(line: string, value: string) returns (w1: string, w2: string, w3: string, w4: string)
    requires IsVersionKey(Trim(line)) && ExtractQuotedValue(line) == Some(value)
    ensures IsVersionLine(line, w1, w2, w3, value, w4)
  {
    hide ExtractQuotedValue, IsVersionKey;
    var rest;
    w1, w2, rest := KeySplits(line);
    KeyEndsAtEquals(w1, w2, rest);
    ValueIsTrimmed(line, w1 + VERSION + w2, rest, value);
    w3, w4 := TrimSplits(rest);
  }

  lemma QuoteIsNoSpace()
    ensures !IsWhitespace('"')
  {
  }

  /** And a line of that form is recognised and has that value. */
  lemma PiecesAreVersionLine(line: string, w1: string, w2: string, w3: string, value: string, w4: string)
    requires IsVersionLine(line, w1, w2, w3, value, w4)
    ensures IsVersionKey(Trim(line)) && ExtractQuotedValue(line) == Some(value)
  {
    hide IsVersionKey, Trim, Before, IsWhitespace;
    var rest, key := w3 + Quoted(value) + w4, w1 + VERSION + w2;
    assert line == key + (['='] + rest);
    KeyEndsAtEquals(w1, w2, rest);
    assert line[|key| + 1..] == rest;
    QuoteIsNoSpace();
    TrimCore(w3, Quoted(value), w4);
    PiecesHaveKey(line, w1, w2, w3, value, w4);
    assert Quoted(value)[1..|Quoted(value)| - 1] == value;
  }

  lemma PiecesHaveKey(line: string, w1: string, w2: string, w3: string, value: string, w4: string)
    requires IsVersionLine(line, w1, w2, w3, value, w4)
    ensures IsVersionKey(Trim(line))
  {
    hide Trim, TrimStart, IsWhitespace;
    var assignment := ['='] + w3 + Quoted(value);
    var core := VERSION + w2 + assignment;
    assert line == w1 + core + w4;
    assert core[0] == 'v' && core[|core| - 1] == '"';
    TheseAreNoSpace();
    TrimCore(w1, core, w4);
    assert core[|VERSION|..] == w2 + assignment;
    TrimStartOf(w2, assignment);
    StartsWithInk(assignment);
  }

  lemma TheseAreNoSpace()
    ensures !IsWhitespace('v') && !IsWhitespace('"') && !IsWhitespace('=')
  {
  }

  lemma StartsWithInk(text: string)
    requires text != [] && !IsWhitespace(text[0])
    ensures TrimStart(text) == text
  {
  }

  lemma FindByFirst(head: string, pattern: string, tail: string)
    requires pattern != [] && pattern[0] !in head
    ensures Find(head + pattern + tail, pattern) == Some(|head|)
  {
    var text := head + pattern + tail;
    assert text[|head|..|head| + |pattern|] == pattern;
    forall j: nat | j < |head| ensures !OccursAt(text, pattern, j) {
      assert j + |pattern| <= |text| ==> text[j..j + |pattern|][0] == head[j];
    }
    FindIs(text, pattern, |head|);
  }

  /** Replacing the quoted version replaces just the value. */
  lemma ReplacingKeepsPieces(line: string, w1: string, w2: string, w3: string,
      oldVersion: string, newVersion: string, w4: string)
    requires IsVersionLine(line, w1, w2, w3, oldVersion, w4)
    ensures IsVersionLine(ReplaceFirst(line, Quoted(oldVersion), Quoted(newVersion)), w1, w2, w3, newVersion, w4)
  {
    var head := w1 + VERSION + w2 + ['='] + w3;
    assert line == head + Quoted(oldVersion) + w4;
    assert '"' !in head;
    FindByFirst(head, Quoted(oldVersion), w4);
    assert line[..|head|] == head && line[|head| + |Quoted(oldVersion)|..] == w4;
  }

  lemma StrippedPieces(line: string, w1: string, w2: string, w3: string, value: string, w4: string)
    requires IsVersionLine(line, w1, w2, w3, value, w4)
    ensures IsVersionLine(StripCr(line), w1, w2, w3, value, StripCr(w4))
  {
    var head := w1 + VERSION + w2 + ['='] + w3 + Quoted(value);
    assert line == head + w4;
    if w4 == [] {
      assert line == head && head[|head| - 1] == '"';
    } else {
      assert line[|line| - 1] == w4[|w4| - 1];
      assert line[..|line| - 1] == head + w4[..|w4| - 1];
    }
  }

  lemma StripCrKeepsTrim(line: string)
    ensures Trim(StripCr(line)) == Trim(line)
  {
    if StripCr(line) != line {
      assert line == StripCr(line) + ['\r'];
      TrimIgnoresEnd(StripCr(line), ['\r']);
    }
  }

  /** A version is read exactly from such a line with a quoted value, and is that value. */
  lemma ReadIsExact(contents: string, value: string)
    ensures ReadPackageVersion(contents) == Some(value) <==>
            match VersionIndex(LinesOf(contents), false)
            case Some(k) => k < |LinesOf(contents)| && HasValue(LinesOf(contents)[k], value)
            case None => false
  {
    hide LinesOf, VersionIndex, ExtractQuotedValue, IsVersionKey, IsVersionLine;
    var lines := LinesOf(contents);
    VersionIndexIsInside(lines, false);
    if VersionIndex(lines, false).Some? {
      var line := lines[VersionIndex(lines, false).value];
      if ExtractQuotedValue(line) == Some(value) {
        var w1, w2, w3, w4 := VersionLineHasPieces(line, value);
        assert HasValue(line, value);
      }
      if w1, w2, w3, w4 :| IsVersionLine(line, w1, w2, w3, value, w4) {
        PiecesAreVersionLine(line, w1, w2, w3, value, w4);
      }
    }
  }

  ghost predicate HasValue(line: string, value: string) {
    exists w1, w2, w3, w4 :: IsVersionLine(line, w1, w2, w3, value, w4)
  }

  // ----- read after write -----

  /** The lines as they are meant to be after the rewrite. */
  function RewrittenLines(contents: string, oldVersion: string, newVersion: string): seq<string>
    requires VersionIndex(LinesOf(contents), false).Some?
  {
    var lines := LinesOf(contents);
    VersionIndexIsInside(lines, false);
    var i := VersionIndex(lines, false).value;
    lines[i := ReplaceFirst(lines[i], Quoted(oldVersion), Quoted(newVersion))]
  }

  lemma RewrittenAreLines(contents: string, oldVersion: string, newVersion: string)
    requires ReadPackageVersion(contents) == Some(oldVersion) && '\n' !in newVersion
    ensures AreLines(RewrittenLines(contents, oldVersion, newVersion), EndsWithNewline(contents))
  {
    hide LinesOf, VersionIndex, ExtractQuotedValue, IsVersionKey, ReplaceFirst, Trim, IsVersionLine;
    var lines := LinesOf(contents);
    VersionIndexIsInside(lines, false);
    AVersionNeedsText(contents);
    LinesOfAreLines(contents);
    var i := VersionIndex(lines, false).value;
    var w1, w2, w3, w4 := VersionLineHasPieces(lines[i], oldVersion);
    ReplacingKeepsPieces(lines[i], w1, w2, w3, oldVersion, newVersion, w4);
    PiecesAreOneLine(lines[i], RewrittenLines(contents, oldVersion, newVersion)[i], w1, w2, w3,
                     oldVersion, newVersion, w4);
  }

  lemma AVersionNeedsText(contents: string)
    requires VersionIndex(LinesOf(contents), false).Some?
    ensures contents != []
  {
  }

  lemma PiecesAreOneLine(line: string, line': string, w1: string, w2: string, w3: string,
                         oldVersion: string, newVersion: string, w4: string)
    requires IsVersionLine(line, w1, w2, w3, oldVersion, w4) && IsVersionLine(line', w1, w2, w3, newVersion, w4)
    requires '\n' !in line && '\n' !in newVersion
    ensures '\n' !in line' && line' != []
  {
    var head := w1 + VERSION + w2 + ['='] + w3;
    assert line == head + Quoted(oldVersion) + w4 && line' == head + Quoted(newVersion) + w4;
    assert forall k :: 0 <= k < |head| ==> head[k] == line[k];
    assert forall k :: 0 <= k < |w4| ==> w4[k] == line[|head + Quoted(oldVersion)| + k];
  }

  /**
   * Setting the version that was read makes the new one read. Every other line stays
   * what it was exactly when no line that a newline follows ends in a carriage return
   * of its own; where one does, that carriage return is dropped.
   */
  lemma ReadAfterSet(contents: string, oldVersion: string, newVersion: string)
    requires ReadPackageVersion(contents) == Some(oldVersion) && '\n' !in newVersion
    ensures SetPackageVersion(contents, oldVersion, newVersion).Some?
    ensures var updated := SetPackageVersion(contents, oldVersion, newVersion).value;
            var lines := RewrittenLines(contents, oldVersion, newVersion);
            ReadPackageVersion(updated) == Some(newVersion) &&
            LinesOf(updated) == ReadBack(lines, EndsWithNewline(contents)) &&
            (LinesOf(updated) == lines <==> NoStrayCr(lines, EndsWithNewline(contents)))
  {
    var before, lines := LinesOf(contents), RewrittenLines(contents, oldVersion, newVersion);
    VersionIndexIsInside(before, false);
    var i := VersionIndex(before, false).value;
    RewrittenAreLines(contents, oldVersion, newVersion);
    RejoinKeepsLinesExactly(contents, lines);
    var closed := EndsWithNewline(contents);
    var after := ReadBack(lines, closed);
    ReadBackIsPointwise(lines, closed);
    var w1, w2, w3, w4 := VersionLineHasPieces(before[i], oldVersion);
    ReplacingKeepsPieces(before[i], w1, w2, w3, oldVersion, newVersion, w4);
    StrippedPieces(lines[i], w1, w2, w3, newVersion, w4);
    PiecesAreVersionLine(after[i], w1, w2, w3, newVersion, if after[i] == StripCr(lines[i]) then StripCr(w4) else w4);
    forall k | 0 <= k < i ensures Trim(after[k]) == Trim(before[k]) {
      StripCrKeepsTrim(before[k]);
    }
    VersionIndexDepends(before, after, false, i);
  }

  /** The pieces of the text around the value of its version line. */
  ghost predicate IsAroundValue(contents: string, value: string, before: string, after: string) {
    VersionIndex(LinesOf(contents), false).Some? &&
    VersionIndex(LinesOf(contents), false).value < |LinesOf(contents)| &&
    var k := VersionIndex(LinesOf(contents), false).value;
    contents == before + Quoted(value) + after &&
    TextBefore(contents, k) <= before && |before + Quoted(value)| <= |TextBefore(contents, k) + LinesOf(contents)[k]|
  }

  /**
   * Setting the version replaces the quoted value on the version line and leaves every other
   * character of the text alone exactly when no carriage return stands before a newline.
   */
  lemma SetReplacesTheValueExactly(contents: string, oldVersion: string, newVersion: string)
      returns (before: string, after: string)
    requires ReadPackageVersion(contents) == Some(oldVersion)
    ensures IsAroundValue(contents, oldVersion, before, after)
    ensures SetPackageVersion(contents, oldVersion, newVersion) == Some(before + Quoted(newVersion) + after) <==>
            HasNoCrLf(contents)
  {
    hide LinesOf, VersionIndex, ExtractQuotedValue, IsVersionKey, ReplaceFirst, Trim;
    hide Rejoin, WithLines, HasNoCrLf, TextBefore;
    var lines := LinesOf(contents);
    VersionIndexIsInside(lines, false);
    var k := VersionIndex(lines, false).value;
    var w1, w2, w3, w4 := VersionLineHasPieces(lines[k], oldVersion);
    ReplacingKeepsPieces(lines[k], w1, w2, w3, oldVersion, newVersion, w4);
    var line := ReplaceFirst(lines[k], Quoted(oldVersion), Quoted(newVersion));
    var rest := OneLineReplaced(contents, k, line);
    RewriteKeepsEndingsExactly(contents, lines[k := line]);
    var head := w1 + VERSION + w2 + ['='] + w3;
    before, after := TextBefore(contents, k) + head, w4 + rest;
    RegroupLine(TextBefore(contents, k), head, Quoted(oldVersion), w4, rest);
    RegroupLine(TextBefore(contents, k), head, Quoted(newVersion), w4, rest);
  }

  lemma RegroupLine(a: string, b: string, c: string, d: string, e: string)
    ensures a + (b + c + d) + e == (a + b) + c + (d + e)
  {
  }

  // ----- internal dependencies -----

  /** Only a `larust-*` line that holds the old requirement is touched. */
  function RewriteDependency(line: string, oldQuoted: string, newQuoted: string): string {
    if "larust-" <= TrimStart(line) then ReplaceFirst(line, oldQuoted, newQuoted) else line
  }

  function RewriteDependencies(lines: seq<string>, oldQuoted: string, newQuoted: string): seq<string> {
    seq(|lines|, i requires 0 <= i < |lines| => RewriteDependency(lines[i], oldQuoted, newQuoted))
  }

  function RewriteInternalDependencyVersions(contents: string, oldQuoted: string, newQuoted: string): string {
    Rejoin(contents, RewriteDependencies(LinesOf(contents), oldQuoted, newQuoted))
  }

  predicate IsFirstOccurrence(line: string, sought: string, i: nat) {
    OccursAt(line, sought, i) && forall j: nat :: j < i ==> !OccursAt(line, sought, j)
  }

  lemma ReplacingChanges(line: string, sought: string, given: string, i: nat)
    requires OccursAt(line, sought, i) && sought != given
    ensures line[..i] + given + line[i + |sought|..] != line
  {
    var updated := line[..i] + given + line[i + |sought|..];
    assert updated[i..i + |given|] == given;
    assert |given| == |sought| ==> updated[i..i + |sought|] != line[i..i + |sought|];
  }

  /**
   * A line changes only if it is a `larust-*` one that holds the requirement, and then
   * only where it holds it first.
   */
  lemma DependencyLineIsExact(line: string, oldQuoted: string, newQuoted: string)
    requires oldQuoted != newQuoted
    ensures RewriteDependency(line, oldQuoted, newQuoted) != line <==>
            "larust-" <= TrimStart(line) && exists i: nat :: OccursAt(line, oldQuoted, i)
    ensures forall i: nat :: "larust-" <= TrimStart(line) && IsFirstOccurrence(line, oldQuoted, i) ==>
            RewriteDependency(line, oldQuoted, newQuoted) == line[..i] + newQuoted + line[i + |oldQuoted|..]
  {
    hide TrimStart, Find, OccursAt;
    FindIsFirst(line, oldQuoted);
    match Find(line, oldQuoted)
    case None =>
    case Some(first) =>
      OccurrenceIsInside(line, oldQuoted, first);
      ReplacingChanges(line, oldQuoted, newQuoted, first);
      forall i: nat | IsFirstOccurrence(line, oldQuoted, i) ensures i == first {
        assert i < first || first < i || i == first;
      }
  }

  lemma OccurrenceIsInside(line: string, sought: string, i: nat)
    requires OccursAt(line, sought, i)
    ensures i + |sought| <= |line|
  {
  }

  lemma ReplaceFirstIsOneLine(line: string, sought: string, given: string)
    requires '\n' !in line && '\n' !in given && given != []
    ensures '\n' !in ReplaceFirst(line, sought, given) && (line != [] ==> ReplaceFirst(line, sought, given) != [])
  {
    FindIsFirst(line, sought);
  }

  /** Line by line, a rewrite with stray carriage returns dropped, and with nothing else changed. */
  lemma DependencyRewriteIsExact(contents: string, oldQuoted: string, newQuoted: string)
    requires contents != [] && '\n' !in newQuoted && newQuoted != []
    ensures var lines := RewriteDependencies(LinesOf(contents), oldQuoted, newQuoted);
            var updated := RewriteInternalDependencyVersions(contents, oldQuoted, newQuoted);
            LinesOf(updated) == ReadBack(lines, EndsWithNewline(contents)) &&
            (LinesOf(updated) == lines <==> NoStrayCr(lines, EndsWithNewline(contents)))
  {
    LinesOfAreLines(contents);
    var lines := LinesOf(contents);
    forall i | 0 <= i < |lines|
      ensures '\n' !in RewriteDependency(lines[i], oldQuoted, newQuoted)
      ensures lines[i] != [] ==> RewriteDependency(lines[i], oldQuoted, newQuoted) != []
    {
      ReplaceFirstIsOneLine(lines[i], oldQuoted, newQuoted);
    }
    RejoinKeepsLinesExactly(contents, RewriteDependencies(lines, oldQuoted, newQuoted));
  }

  /** On the text: the rewritten lines with every line ending kept, exactly when no ending has a carriage return. */
  lemma DependencyRewriteKeepsEndingsExactly(contents: string, oldQuoted: string, newQuoted: string)
    ensures var lines := RewriteDependencies(LinesOf(contents), oldQuoted, newQuoted);
            RewriteInternalDependencyVersions(contents, oldQuoted, newQuoted) == WithLines(contents, lines) <==>
            HasNoCrLf(contents)
  {
    RewriteKeepsEndingsExactly(contents, RewriteDependencies(LinesOf(contents), oldQuoted, newQuoted));
  }

  // ----- bumping -----

  datatype Bump = Major | Minor | Patch

  type Triple = (nat, nat, nat)

  /** Exactly three dot-separated 64-bit numbers. */
  function ParseTriple(text: string): Option<Triple> {
    var parts := Split(text, '.');
    if |parts| != 3 then None
    else
      match (ParseU64(parts[0]), ParseU64(parts[1]), ParseU64(parts[2]))
      case (Some(major), Some(minor), Some(patch)) => Some((major, minor, patch))
      case _ => None
  }

  function Format(t: Triple): string {
    Digits(t.0) + "." + Digits(t.1) + "." + Digits(t.2)
  }

  /** 64-bit addition as a release build performs it. */
  function Increment(n: nat): nat {
    (n + 1) % U64_LIMIT
  }

  function BumpVersion(current: string, bump: Bump): Option<string> {
    match ParseTriple(current)
    case None => None
    case Some((major, minor, patch)) =>
      Some(match bump
           case Major => Format((Increment(major), 0, 0))
           case Minor => Format((major, Increment(minor), 0))
           case Patch => Format((major, minor, Increment(patch))))
  }

  /** What parses: three numbers and two dots between them, nothing else. */
  ghost predicate IsTripleText(text: string, a: string, b: string, c: string, t: Triple) {
    text == a + "." + b + "." + c && '.' !in a && '.' !in b && '.' !in c &&
    ParseU64(a) == Some(t.0) && ParseU64(b) == Some(t.1) && ParseU64(c) == Some(t.2)
  }

  lemma {:induction false} SplitHasPieces(text: string, c: char)
    ensures |Split(text, c)| == 1 ==> text == Split(text, c)[0]
    ensures |Split(text, c)| > 1 ==>
            exists rest :: text == Split(text, c)[0] + [c] + rest && Split(text, c)[1..] == Split(rest, c)
    ensures c !in Split(text, c)[0]
  {
    var first := Before(text, c);
    var rest := BeforeSplits(text, c);
    if rest != [] {
      assert text == first + [c] + rest[1..] && text[|first| + 1..] == rest[1..];
    }
  }

  lemma ParseTripleExactly(text: string, t: Triple)
    ensures ParseTriple(text) == Some(t) <==> exists a, b, c :: IsTripleText(text, a, b, c, t)
  {
    if ParseTriple(text) == Some(t) {
      TripleHasPieces(text, t);
    }
    if a, b, c :| IsTripleText(text, a, b, c, t) {
      PiecesMakeTriple(text, a, b, c, t);
    }
  }

  lemma PiecesMakeTriple(text: string, a: string, b: string, c: string, t: Triple)
    requires IsTripleText(text, a, b, c, t)
    ensures ParseTriple(text) == Some(t)
  {
    hide ParseU64, Split;
    assert text == a + ['.'] + (b + ['.'] + c);
    SplitFirst(a, '.', b + ['.'] + c);
    SplitFirst(b, '.', c);
    SplitOne(c, '.');
    assert Split(text, '.') == [a, b, c];
  }

  lemma TripleHasPieces(text: string, t: Triple)
    requires ParseTriple(text) == Some(t)
    ensures exists a, b, c :: IsTripleText(text, a, b, c, t)
  {
    hide ParseU64, Split;
    var parts := Split(text, '.');
    SplitHasPieces(text, '.');
    var rest :| text == parts[0] + ['.'] + rest && parts[1..] == Split(rest, '.');
    SplitHasPieces(rest, '.');
    var last :| rest == parts[1..][0] + ['.'] + last && parts[1..][1..] == Split(last, '.');
    SplitHasPieces(last, '.');
    assert parts[1..][0] == parts[1] && parts[1..][1..][0] == parts[2];
    assert IsTripleText(text, parts[0], parts[1], parts[2], t);
  }

  /** The text a bump prints: plain decimal numbers; it fails on what is not a plain triple and on nothing else. */
  lemma BumpIsExact(current: string, bump: Bump)
    ensures match ParseTriple(current)
            case None => BumpVersion(current, bump) == None
            case Some((major, minor, patch)) =>
              BumpVersion(current, bump) == Some(
                match bump
                case Major => Digits((major + 1) % 0x1_0000_0000_0000_0000) + ".0.0"
                case Minor => Digits(major) + "." + Digits((minor + 1) % 0x1_0000_0000_0000_0000) + ".0"
                case Patch => Digits(major) + "." + Digits(minor) + "." +
                              Digits((patch + 1) % 0x1_0000_0000_0000_0000))
  {
    ZeroText();
    hide ParseTriple, Digits;
    if ParseTriple(current).Some? {
      var (major, minor, patch) := ParseTriple(current).value;
      TwoZeros(Digits(Increment(major)));
      OneZero(Digits(major) + "." + Digits(Increment(minor)));
    }
  }

  lemma ZeroText()
    ensures Digits(0) == "0"
  {
  }

  lemma TwoZeros(front: string)
    ensures front + "." + "0" + "." + "0" == front + ".0.0"
  {
  }

  lemma OneZero(front: string)
    ensures front + "." + "0" == front + ".0"
  {
  }

  /** Precedence of plain versions: numeric, field by field from the left. */
  predicate Precedes(a: Triple, b: Triple) {
    a.0 < b.0 || (a.0 == b.0 && (a.1 < b.1 || (a.1 == b.1 && a.2 < b.2)))
  }

  function Component(t: Triple, bump: Bump): nat {
    match bump
    case Major => t.0
    case Minor => t.1
    case Patch => t.2
  }

  lemma ParseFormat(t: Triple)
    requires t.0 < U64_LIMIT && t.1 < U64_LIMIT && t.2 < U64_LIMIT
    ensures ParseTriple(Format(t)) == Some(t)
  {
    hide ParseU64, Before;
    var a, b, c := Digits(t.0), Digits(t.1), Digits(t.2);
    ParseDigits(t.0);
    ParseDigits(t.1);
    ParseDigits(t.2);
    assert a + "." + b + "." + c == a + ['.'] + (b + ['.'] + c);
    SplitFirst(a, '.', b + ['.'] + c);
    SplitFirst(b, '.', c);
    SplitOne(c, '.');
  }

  lemma ParsedTripleFits(text: string)
    ensures match ParseTriple(text)
            case Some(t) => t.0 < U64_LIMIT && t.1 < U64_LIMIT && t.2 < U64_LIMIT
            case None => true
  {
  }

  /**
   * A bumped version is again three plain numbers, the lower fields reset and the
   * higher kept (items 6 to 8 of Semantic Versioning 2.0.0). It has higher precedence
   * (item 11) exactly when the bumped number is not the last 64-bit one.
   */
  lemma BumpIsHigherExactly(current: string, bump: Bump)
    requires ParseTriple(current).Some?
    ensures BumpVersion(current, bump).Some? && ParseTriple(BumpVersion(current, bump).value).Some?
    ensures var before, after := ParseTriple(current).value, ParseTriple(BumpVersion(current, bump).value).value;
            (Precedes(before, after) <==> Component(before, bump) < U64_LIMIT - 1) &&
            (Component(before, bump) < U64_LIMIT - 1 ==> Component(after, bump) == Component(before, bump) + 1) &&
            (!bump.Major? ==> after.0 == before.0) && (bump.Patch? ==> after.1 == before.1) &&
            (bump.Major? ==> after.1 == 0) && (!bump.Patch? ==> after.2 == 0)
  {
    hide ParseTriple, Format;
    ParsedTripleFits(current);
    var t := ParseTriple(current).value;
    match bump
    case Major => ParseFormat((Increment(t.0), 0, 0));
    case Minor => ParseFormat((t.0, Increment(t.1), 0));
    case Patch => ParseFormat((t.0, t.1, Increment(t.2)));
  }

  /** The last 64-bit number does wrap, and the version goes back. */
  lemma TheLastPatchGoesBack()
    ensures BumpVersion(Format((0, 0, U64_LIMIT - 1)), Patch) == Some(Format((0, 0, 0)))
  {
    ParseFormat((0, 0, U64_LIMIT - 1));
  }
}
