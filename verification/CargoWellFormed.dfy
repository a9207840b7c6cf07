/**
 * Whether the manifest is still well-formed after a feature has been enabled: the array it
 * was added to, or the inline table a new array was written into.
 */
module CargoWellFormed {
  import opened Outcomes
  import opened Text
  import opened TomlShape
  import opened CargoFeature

  // ----- the array -----

  /** A name that can be quoted without escapes, as Cargo's feature names can. */
  predicate IsFeatureName(feature: string) {
    IsPlain(feature) && '\\' !in feature
  }

  lemma NamesAreQuotable(feature: string)
    requires IsFeatureName(feature)
    ensures IsQuotable(feature)
  {
    assert forall i :: 0 <= i < |feature| ==> !IsWhitespace(feature[i]);
  }

  /** One more quoted name: one more entry, if the list is not cut inside a comment or a string. */
  lemma ListAppend(inside: string, feature: string)
    requires IsFeatureName(feature)
    ensures IsClosed(inside + (", " + Quoted(feature))) <==> IsClosed(inside)
    ensures IsClosed(inside) ==>
            Parts(inside + (", " + Quoted(feature))) == Parts(inside) + [Quoted(Blanked(feature))]
  {
    NamesAreQuotable(feature);
    QuotedShape(feature);
    if !IsClosed(inside) {
      OpenStaysOpen(inside, feature);
    }
    ShapeConcat(inside, ", " + Quoted(feature), Code);
    ShapeConcat(", ", Quoted(feature), Code);
    BareShape(", ", Code);
    if IsClosed(inside) {
      PartsAppend(inside, Quoted(feature));
      TrimCore(" ", Quoted(Blanked(feature)), "");
      assert " " + Quoted(Blanked(feature)) + "" == " " + Quoted(Blanked(feature));
    }
  }

  lemma OpenStaysOpen(inside: string, feature: string)
    requires IsFeatureName(feature) && !IsClosed(inside)
    ensures IsOpen(ModeAfter(inside + (", " + Quoted(feature)), Code))
  {
    NamesAreQuotable(feature);
    var mode := ModeAfter(inside, Code);
    ShapeConcat(inside, ", " + Quoted(feature), Code);
    ShapeConcat(", ", Quoted(feature), mode);
    CommaStaysOpen(mode);
    QuotedStaysOpen(feature, ModeAfter(", ", mode));
  }

  lemma CommaStaysOpen(mode: Mode)
    requires !mode.Code?
    ensures IsOpen(ModeAfter(", ", mode))
  {
    assert ", "[1..] == " " && " "[1..] == [];
  }

  /**
   * After adding to an array its separators are in order, comments and strings left aside,
   * exactly when they were before and the array was neither empty nor ended in a comma.
   */
  lemma CommasStayExactly(contents: string, feature: string)
    requires IsFeatureName(feature) && Locate(contents).Array? && !AlreadyLists(contents, feature)
    ensures AddFeature(contents, feature).Some? && Locate(AddFeature(contents, feature).value.0).Array?
    ensures IsList(Locate(AddFeature(contents, feature).value.0).inside) <==>
            IsList(Locate(contents).inside) && !EndsBlank(Locate(contents).inside)
  {
    hide LocateBy, PatternsFit, Parts, IsClosed, Names;
    KnownPatternsFit();
    NoBracketIn(feature);
    var inside := Locate(contents).inside;
    AddingToAnArray(contents, DEPENDENCY, FEATURES, ", " + Quoted(feature));
    assert inside + (", " + Quoted(feature)) == inside + ", " + Quoted(feature);
    ListAppendFits(inside, feature);
  }

  lemma ListAppendFits(inside: string, feature: string)
    requires IsFeatureName(feature)
    ensures IsList(inside + (", " + Quoted(feature))) <==> IsList(inside) && !EndsBlank(inside)
  {
    hide Parts, IsClosed;
    PartsAreSome(inside);
    ListAppend(inside, feature);
    if IsClosed(inside) {
      var before, after := Parts(inside), Parts(inside + (", " + Quoted(feature)));
      assert forall i :: 0 <= i < |before| ==> after[i] == before[i];
    }
  }

  /** A list the edit makes itself is in order. */
  lemma NewArrayCommasFit(feature: string)
    requires IsFeatureName(feature)
    ensures IsList(NewArray(feature)) && !EndsBlank(NewArray(feature))
  {
    hide Parts, IsClosed;
    SqliteIsPlain();
    assert NewArray(feature) == Quoted("sqlite") + (", " + Quoted(feature));
    OneName("sqlite");
    ListAppendFits(Quoted("sqlite"), feature);
    ListAppend(Quoted("sqlite"), feature);
  }

  lemma OneName(name: string)
    requires IsFeatureName(name)
    ensures IsClosed(Quoted(name)) && Parts(Quoted(name)) == [Quoted(Blanked(name))]
    ensures IsList(Quoted(name)) && !EndsBlank(Quoted(name))
  {
    NamesAreQuotable(name);
    QuotedShape(name);
    var quoted := Quoted(Blanked(name));
    SplitOne(quoted, ',');
    TrimCore("", quoted, "");
    assert "" + quoted + "" == quoted;
  }

  /** An empty array shows it: it becomes one that starts with a comma. */
  lemma AnEmptyArrayGetsAComma(contents: string, feature: string)
    requires IsFeatureName(feature) && feature != [] && Locate(contents).Array? && Locate(contents).inside == []
    ensures AddFeature(contents, feature).Some?
    ensures Locate(AddFeature(contents, feature).value.0) == Array(Locate(contents).start, ", " + Quoted(feature))
    ensures IsList([]) && !IsList(", " + Quoted(feature))
  {
    hide LocateBy, PatternsFit;
    KnownPatternsFit();
    SplitOne([], ',');
    NoBracketIn(feature);
    AddingToAnArray(contents, DEPENDENCY, FEATURES, ", " + Quoted(feature));
    ListAppendFits([], feature);
    assert [] + (", " + Quoted(feature)) == ", " + Quoted(feature);
  }

  function CommentLine(text: string): string {
    "#" + text + "\n"
  }

  /** So does an array whose last comma is followed by a comment only: the edit adds a second comma. */
  lemma ACommentHidesTheLastComma(comment: string, feature: string)
    requires IsFeatureName(feature) && '\n' !in comment
    ensures var inside := Quoted("sqlite") + (", " + CommentLine(comment));
            IsList(inside) && !IsList(inside + (", " + Quoted(feature)))
  {
    SqliteIsPlain();
    OneName("sqlite");
    CommentLineShape(comment);
    BlankIsTrimmed();
    hide IsList, Parts, Skeleton, ModeAfter, Trim, CommentLine, IsClosed, EndsBlank, Quoted, Blanked;
    EndsInNothing(Quoted("sqlite"), CommentLine(comment), Quoted(Blanked("sqlite")));
    ListAppendFits(Quoted("sqlite") + (", " + CommentLine(comment)), feature);
  }

  lemma EndsInNothing(text: string, note: string, part: string)
    requires IsClosed(text) && Parts(text) == [part] && part != [] && ModeAfter(", " + note, Code).Code?
    requires ',' !in Skeleton(note, Code) && Trim(" " + Skeleton(note, Code)) == []
    ensures IsList(text + (", " + note)) && EndsBlank(text + (", " + note))
  {
    PartsAppend(text, note);
    ShapeConcat(text, ", " + note, Code);
    hide Parts, Skeleton, ModeAfter, Trim;
    var all := text + (", " + note);
    assert |Parts(all)| == 2;
  }

  lemma BlankIsTrimmed()
    ensures Trim(" " + "\n") == []
  {
    TrimIgnoresEnd("", " " + "\n");
    assert "" + (" " + "\n") == " " + "\n";
  }

  lemma CommentLineShape(comment: string)
    requires '\n' !in comment
    ensures ModeAfter(", " + CommentLine(comment), Code).Code? && Skeleton(CommentLine(comment), Code) == "\n"
  {
    HashAndNewline();
    CommentShape(comment);
    BareShape(", ", Code);
    hide ModeAfter, Skeleton;
    ShapeConcat(", ", CommentLine(comment), Code);
    ShapeConcat("#" + comment, "\n", Code);
    ShapeConcat("#", comment, Code);
    assert [] + "\n" == "\n";
  }

  lemma HashAndNewline()
    ensures ModeAfter("#", Code) == Comment && Skeleton("#", Code) == []
    ensures ModeAfter("\n", Comment) == Code && Skeleton("\n", Comment) == "\n"
  {
    assert "#"[1..] == [] && "\n"[1..] == [];
  }

  lemma {:induction false} CommentShape(text: string)
    requires '\n' !in text
    ensures ModeAfter(text, Comment) == Comment && Skeleton(text, Comment) == []
  {
    if text != [] {
      CommentShape(text[1..]);
    }
  }

  // ----- names behind comments -----

  /** The text without its comments. */
  function NoComments(text: string, mode: Mode): string {
    if text == [] then []
    else (if Kept(mode, text[0]) == [] then [] else [text[0]]) + NoComments(text[1..], Turn(mode, text[0]))
  }

  lemma {:induction false} NothingToStrip(text: string, mode: Mode)
    requires '#' !in text && !mode.Comment?
    ensures NoComments(text, mode) == text
  {
    if text != [] {
      NothingToStrip(text[1..], Turn(mode, text[0]));
    }
  }

  lemma {:induction false} TrimStartKeeps(text: string, c: char)
    requires c in text && !IsWhitespace(c)
    ensures c in TrimStart(text)
  {
    if IsWhitespace(text[0]) {
      assert text == [text[0]] + text[1..];
      TrimStartKeeps(text[1..], c);
    }
  }

  lemma {:induction false} TrimEndKeeps(text: string, c: char)
    requires c in text && !IsWhitespace(c)
    ensures c in TrimEnd(text)
  {
    var last := |text| - 1;
    if IsWhitespace(text[last]) {
      assert text == text[..last] + [text[last]];
      TrimEndKeeps(text[..last], c);
    }
  }

  lemma TrimKeeps(text: string, c: char)
    requires c in text && !IsWhitespace(c)
    ensures c in Trim(text)
  {
    TrimStartKeeps(text, c);
    TrimEndKeeps(TrimStart(text), c);
  }

  lemma {:induction false} TrimQuotesKeeps(text: string, c: char)
    requires c in text && c != '"'
    ensures c in TrimQuotes(text)
    decreases |text|
  {
    var i :| 0 <= i < |text| && text[i] == c;
    if text[0] == '"' {
      assert text[1..][i - 1] == c;
      TrimQuotesKeeps(text[1..], c);
    } else if text[|text| - 1] == '"' {
      assert text[..|text| - 1][i] == c;
      TrimQuotesKeeps(text[..|text| - 1], c);
    }
  }

  /** The name the edit reads off an entry. */
  function NameOf(entry: string): string {
    TrimQuotes(Trim(entry))
  }

  /** An entry that means a feature is recognised as that feature exactly when there is no comment in it. */
  lemma EntryIsSeenExactly(entry: string, feature: string)
    requires IsFeatureName(feature) && '#' !in feature && Trim(NoComments(entry, Code)) == Quoted(feature)
    ensures NameOf(entry) == feature <==> '#' !in entry
  {
    if '#' in entry {
      TrimKeeps(entry, '#');
      TrimQuotesKeeps(Trim(entry), '#');
    } else {
      NothingToStrip(entry, Code);
      QuotedTrims(feature);
    }
  }

  lemma {:induction false} CommentIsStripped(comment: string, rest: string)
    requires '\n' !in comment
    ensures NoComments(comment + ("\n" + rest), Comment) == "\n" + NoComments(rest, Code)
  {
    if comment == [] {
      assert comment + ("\n" + rest) == "\n" + rest && ("\n" + rest)[1..] == rest;
    } else {
      assert (comment + ("\n" + rest))[1..] == comment[1..] + ("\n" + rest);
      CommentIsStripped(comment[1..], rest);
    }
  }

  /** A feature on the line after a comment shows it: the array has it, and the edit adds it again. */
  lemma ACommentHidesAName(contents: string, comment: string, feature: string)
    requires IsFeatureName(feature) && '#' !in feature && feature != "sqlite" && '\n' !in comment && ',' !in comment
    requires Locate(contents).Array?
    requires Locate(contents).inside == Quoted("sqlite") + [','] + (CommentLine(comment) + Quoted(feature))
    ensures Trim(NoComments(CommentLine(comment) + Quoted(feature), Code)) == Quoted(feature)
    ensures AddFeature(contents, feature).Some? && !AddFeature(contents, feature).value.1
  {
    var entry := CommentLine(comment) + Quoted(feature);
    assert entry[0] == '#';
    EntryMeans(comment, feature);
    SqliteIsPlain();
    hide LocateBy, Names, NameOf, Quoted, CommentLine, Trim, NoComments, AddFeature, IsFeatureName;
    EntryIsSeenExactly(entry, feature);
    TwoNames(Quoted("sqlite"), entry);
    NamesOfOne("sqlite");
    UnseenIsAdded(contents, feature);
  }

  lemma UnseenIsAdded(contents: string, feature: string)
    requires Locate(contents).Array? && feature !in Names(Locate(contents).inside)
    ensures AddFeature(contents, feature).Some? && !AddFeature(contents, feature).value.1
  {
    hide LocateBy, Names;
    PlaceIsInside(contents, DEPENDENCY, FEATURES);
  }

  lemma TwoNames(first: string, second: string)
    requires ',' !in second
    ensures Names(first + [','] + second) == Names(first) + [NameOf(second)]
  {
    SplitAppend(first, ',', second);
  }

  lemma EntryMeans(comment: string, feature: string)
    requires IsFeatureName(feature) && '#' !in feature && '\n' !in comment && ',' !in comment
    ensures Trim(NoComments(CommentLine(comment) + Quoted(feature), Code)) == Quoted(feature)
    ensures ',' !in CommentLine(comment) + Quoted(feature)
  {
    QuotedHasNone(feature);
    NewlineIsTrimmed(feature);
    hide NoComments, Trim, Quoted, IsFeatureName, Skeleton;
    NothingToStrip(Quoted(feature), Code);
    CommentLineIsStripped(comment, Quoted(feature));
    assert ',' !in CommentLine(comment);
  }

  lemma QuotedHasNone(feature: string)
    requires IsFeatureName(feature) && '#' !in feature
    ensures '#' !in Quoted(feature) && ',' !in Quoted(feature)
  {
  }

  lemma NewlineIsTrimmed(feature: string)
    ensures Trim("\n" + Quoted(feature)) == Quoted(feature)
  {
    var quoted := Quoted(feature);
    QuoteAndNewline();
    hide Trim, IsWhitespace;
    TrimCore("\n", quoted, "");
    assert "\n" + quoted + "" == "\n" + quoted;
  }

  lemma QuoteAndNewline()
    ensures !IsWhitespace('"') && AllWhitespace("\n")
  {
  }

  lemma CommentLineIsStripped(comment: string, rest: string)
    requires '\n' !in comment
    ensures NoComments(CommentLine(comment) + rest, Code) == "\n" + NoComments(rest, Code)
  {
    var text := CommentLine(comment) + rest;
    assert text[0] == '#' && text[1..] == comment + ("\n" + rest);
    CommentIsStripped(comment, rest);
  }

  // ----- the inline table -----

  /** What stands between the brace of the dependency line and the last brace on that line. */
  function TableBy(contents: string, key: string): Option<string> {
    match Find(contents, key)
    case None => None
    case Some(start) =>
      FindIsFirst(contents, key);
      var line := Before(contents[start..], '\n');
      match RFind(line, '}')
      case None => None
      case Some(brace) =>
        RFindIsThere(line, '}');
        if |key| <= brace then Some(line[|key|..brace]) else None
  }

  function DependencyTable(contents: string): Option<string> {
    TableBy(contents, DEPENDENCY)
  }

  lemma {:induction false} RFindLast(front: string, tail: string, c: char)
    requires tail != [] && tail[0] == c && c !in tail[1..]
    ensures RFind(front + tail, c) == Some(|front|)
    decreases |tail|
  {
    if |tail| > 1 {
      assert tail[|tail| - 1] == tail[1..][|tail| - 2];
      assert (front + tail)[..|front + tail| - 1] == front + tail[..|tail| - 1];
      RFindLast(front, tail[..|tail| - 1], c);
    }
  }

  lemma {:induction false} RFindSplits(text: string, c: char) returns (tail: string)
    requires RFind(text, c).Some?
    ensures RFind(text, c).value <= |text| && text == text[..RFind(text, c).value] + tail
    ensures tail != [] && tail[0] == c && c !in tail[1..]
  {
    var last := |text| - 1;
    if text[last] == c {
      tail := [c];
    } else {
      var shorter := RFindSplits(text[..last], c);
      tail := shorter + [text[last]];
      assert text == text[..last] + [text[last]];
    }
  }

  /** The table of a line given in pieces. */
  lemma TableOfPieces(pre: string, key: string, body: string, tail: string, lineTail: string)
    requires Find(pre + key, key) == Some(|pre|) && '\n' !in key + body + tail
    requires lineTail == [] || lineTail[0] == '\n'
    requires tail != [] && tail[0] == '}' && '}' !in tail[1..]
    ensures TableBy(pre + (key + body + tail + lineTail), key) == Some(body)
  {
    hide Find, RFind;
    var line := key + body + tail;
    var text := pre + (line + lineTail);
    assert text == (pre + key) + (body + tail + lineTail);
    FindConcat(pre + key, body + tail + lineTail, key);
    DropFront(pre, line + lineTail);
    BeforeConcat(line, lineTail, '\n');
    RFindLast(key + body, tail, '}');
    assert line[|key|..|key + body|] == body;
  }

  lemma TableHasPieces(contents: string, key: string)
      returns (pre: string, body: string, tail: string, lineTail: string)
    requires TableBy(contents, key).Some?
    ensures contents == pre + (key + body + tail + lineTail) && TableBy(contents, key) == Some(body)
    ensures Find(pre + key, key) == Some(|pre|) && '\n' !in key + body + tail
    ensures lineTail == [] || lineTail[0] == '\n'
    ensures tail != [] && tail[0] == '}' && '}' !in tail[1..]
    ensures Find(contents, key) == Some(|pre|) && Before(contents[|pre|..], '\n') == key + body + tail
    ensures RFind(key + body + tail, '}') == Some(|key + body|)
  {
    hide RFind;
    var afterKey;
    pre, afterKey := FindSplits(contents, key);
    var rest := key + afterKey;
    assert contents == pre + rest;
    DropFront(pre, rest);
    var line := Before(rest, '\n');
    lineTail := BeforeSplits(rest, '\n');
    var brace := RFind(line, '}').value;
    tail := RFindSplits(line, '}');
    body := line[|key|..brace];
    FrontOf(rest, line, lineTail, key, brace);
  }

  lemma FrontOf(rest: string, line: string, lineTail: string, key: string, brace: nat)
    requires rest == line + lineTail && key <= rest && |key| <= brace <= |line|
    ensures line[..brace] == key + line[|key|..brace]
  {
    assert line[..|key|] == rest[..|key|] == key;
    assert line[..brace] == line[..|key|] + line[|key|..brace];
  }

  /** Inserting before the last brace adds to the table. */
  lemma TableGrows(contents: string, key: string, insertion: string)
    requires TableBy(contents, key).Some? && '\n' !in insertion
    ensures Find(contents, key).Some? && Find(contents, key).value <= |contents|
    ensures var start := Find(contents, key).value;
            var brace := RFind(Before(contents[start..], '\n'), '}');
            brace.Some? && start + brace.value <= |contents| &&
            TableBy(Insert(contents, start + brace.value, insertion), key) ==
            Some(TableBy(contents, key).value + insertion)
  {
    hide Find, RFind, TableBy, Insert, Before;
    var pre, body, tail, lineTail := TableHasPieces(contents, key);
    var left, right := pre + (key + body), tail + lineTail;
    assert contents == left + right;
    InsertBetween(left, insertion, right);
    assert left + insertion + right == pre + (key + (body + insertion) + tail + lineTail);
    NoNewlineBetween(key, body, insertion, tail);
    TableOfPieces(pre, key, body + insertion, tail, lineTail);
  }

  lemma NoNewlineBetween(key: string, body: string, insertion: string, tail: string)
    requires '\n' !in key + body + tail && '\n' !in insertion
    ensures '\n' !in key + (body + insertion) + tail
  {
    var line := key + body + tail;
    assert forall i :: 0 <= i < |key| ==> key[i] == line[i];
    assert forall i :: 0 <= i < |body| ==> body[i] == line[|key| + i];
    assert forall i :: 0 <= i < |tail| ==> tail[i] == line[|key + body| + i];
  }

  /** What the edit writes into a table without a list. */
  function NewKeys(feature: string): string {
    NO_DEFAULTS + FEATURES + NewArray(feature) + "] "
  }

  const DEFAULT_FEATURES := "default-features"
  const FEATURES_KEY := "features"

  /** The parts it adds are two keys and the rest of the list. */
  lemma NewKeysAppend(body: string, feature: string)
    requires IsFeatureName(feature)
    ensures IsClosed(body + NewKeys(feature)) <==> IsClosed(body)
    ensures IsClosed(body) ==> Parts(body + NewKeys(feature)) == Parts(body) + NewParts(feature)
  {
    NewKeysText(body, feature);
    NewPartShapes(feature);
    hide Parts, IsWhole, IsClosed, Skeleton, Trim, Quoted, Blanked, NewKeys;
    ThreeMoreParts(body, "default-features = false", FEATURES + Quoted("sqlite"), Quoted(feature) + "] ");
  }

  lemma ThreeMoreParts(body: string, first: string, second: string, third: string)
    requires IsWhole(first) && IsWhole(second) && IsWhole(third)
    requires ',' !in Skeleton(first, Code) && ',' !in Skeleton(second, Code) && ',' !in Skeleton(third, Code)
    ensures var all := body + (", " + first) + (", " + second) + (", " + third);
            (IsClosed(all) <==> IsClosed(body)) &&
            (IsClosed(body) ==>
               Parts(all) == Parts(body) + [Trim(" " + Skeleton(first, Code)), Trim(" " + Skeleton(second, Code)),
                                            Trim(" " + Skeleton(third, Code))])
  {
    hide Parts, IsWhole, IsClosed, Skeleton, Trim;
    var one, two := body + (", " + first), body + (", " + first) + (", " + second);
    if IsClosed(body) {
      PartsAppend(body, first);
      StaysClosed(body, first);
      PartsAppend(one, second);
      StaysClosed(one, second);
      PartsAppend(two, third);
      StaysClosed(two, third);
    } else {
      StaysOpen(body, first);
      StaysOpen(one, second);
      StaysOpen(two, third);
    }
  }

  lemma NewKeysText(body: string, feature: string)
    ensures body + NewKeys(feature) ==
            body + (", " + "default-features = false") + (", " + (FEATURES + Quoted("sqlite"))) +
            (", " + (Quoted(feature) + "] "))
  {
    assert NO_DEFAULTS == (", " + "default-features = false") + ", ";
  }

  function NewParts(feature: string): seq<string> {
    [Trim(" default-features = false"), Trim(" " + (FEATURES + Quoted(Blanked("sqlite")))),
     Trim(" " + (Quoted(Blanked(feature)) + "] "))]
  }

  /** A piece that opens nothing it does not close, and closes nothing that was open. */
  predicate IsWhole(piece: string) {
    ModeAfter(piece, Code).Code? && forall mode :: IsOpen(mode) ==> IsOpen(ModeAfter(piece, mode))
  }

  lemma StaysClosed(text: string, piece: string)
    requires IsClosed(text) && IsWhole(piece)
    ensures IsClosed(text + (", " + piece))
  {
    ShapeConcat(text, ", " + piece, Code);
    ShapeConcat(", ", piece, Code);
    BareShape(", ", Code);
  }

  lemma StaysOpen(text: string, piece: string)
    requires !IsClosed(text) && IsWhole(piece)
    ensures !IsClosed(text + (", " + piece))
  {
    var mode := ModeAfter(text, Code);
    ShapeConcat(text, ", " + piece, Code);
    ShapeConcat(", ", piece, mode);
    CommaStaysOpen(mode);
  }

  lemma BareIsWhole(text: string)
    requires IsBare(text)
    ensures IsWhole(text) && Skeleton(text, Code) == text
  {
    BareShape(text, Code);
    forall mode | IsOpen(mode) ensures IsOpen(ModeAfter(text, mode)) {
      BareShape(text, mode);
    }
  }

  lemma QuotedIsWhole(name: string)
    requires IsQuotable(name)
    ensures IsWhole(Quoted(name)) && Skeleton(Quoted(name), Code) == Quoted(Blanked(name))
  {
    QuotedShape(name);
    forall mode | IsOpen(mode) ensures IsOpen(ModeAfter(Quoted(name), mode)) {
      QuotedStaysOpen(name, mode);
    }
  }

  lemma WholeConcat(a: string, b: string)
    requires IsWhole(a) && IsWhole(b)
    ensures IsWhole(a + b) && Skeleton(a + b, Code) == Skeleton(a, Code) + Skeleton(b, Code)
  {
    ShapeConcat(a, b, Code);
    forall mode | IsOpen(mode) ensures IsOpen(ModeAfter(a + b, mode)) {
      ShapeConcat(a, b, mode);
    }
  }

  lemma NewPartShapes(feature: string)
    requires IsFeatureName(feature)
    ensures IsWhole("default-features = false") &&
            Skeleton("default-features = false", Code) == "default-features = false"
    ensures IsWhole(FEATURES + Quoted("sqlite")) &&
            Skeleton(FEATURES + Quoted("sqlite"), Code) == FEATURES + Quoted(Blanked("sqlite"))
    ensures IsWhole(Quoted(feature) + "] ") &&
            Skeleton(Quoted(feature) + "] ", Code) == Quoted(Blanked(feature)) + "] "
    ensures ',' !in "default-features = false" && ',' !in FEATURES + Quoted(Blanked("sqlite")) &&
            ',' !in Quoted(Blanked(feature)) + "] "
  {
    hide IsWhole, Skeleton;
    NamesAreQuotable(feature);
    BareIsWhole("default-features = false");
    BareIsWhole(FEATURES);
    BareIsWhole("] ");
    QuotedIsWhole("sqlite");
    QuotedIsWhole(feature);
    WholeConcat(FEATURES, Quoted("sqlite"));
    WholeConcat(Quoted(feature), "] ");
  }

  lemma NewPartKeys(feature: string)
    ensures NoneBlank(NewParts(feature))
    ensures Keys(NewParts(feature)) == [DEFAULT_FEATURES, FEATURES_KEY]
  {
    NewPartText(feature);
    hide NewParts, Quoted, Blanked, Keys, Trim, Before, NoneBlank;
    KeyBefore(DEFAULT_FEATURES, " = false");
    KeyBefore(FEATURES_KEY, " = [" + Quoted(Blanked("sqlite")));
    TwoKeysOfThree(DEFAULT_FEATURES + " = false", FEATURES_KEY + (" = [" + Quoted(Blanked("sqlite"))),
                   Quoted(Blanked(feature)) + "]", DEFAULT_FEATURES, FEATURES_KEY);
  }

  lemma TwoKeysOfThree(a: string, b: string, c: string, keyA: string, keyB: string)
    requires '=' in a && Trim(Before(a, '=')) == keyA && '=' in b && Trim(Before(b, '=')) == keyB
    requires c != [] && '=' !in c
    ensures NoneBlank([a, b, c]) && Keys([a, b, c]) == [keyA, keyB]
  {
    hide Trim, Before, Keys;
    KeysOfThree(a, b, c);
  }

  function KeyOf(part: string): seq<string> {
    if '=' in part then [Trim(Before(part, '='))] else []
  }

  lemma KeysOfThree(a: string, b: string, c: string)
    ensures Keys([a, b, c]) == KeyOf(a) + KeyOf(b) + KeyOf(c)
  {
    hide Trim, Before, Keys;
    KeysOfOne(a);
    KeysMore([a], b);
    KeysMore([a, b], c);
    assert [a] + [b] == [a, b] && [a, b] + [c] == [a, b, c];
  }

  lemma NewPartText(feature: string)
    ensures NewParts(feature) == [DEFAULT_FEATURES + " = false", FEATURES_KEY + (" = [" + Quoted(Blanked("sqlite"))),
                                  Quoted(Blanked(feature)) + "]"]
    ensures '=' !in Quoted(Blanked(feature)) + "]"
  {
    var first := DEFAULT_FEATURES + " = false";
    var second := FEATURES_KEY + (" = [" + Quoted(Blanked("sqlite")));
    var third := Quoted(Blanked(feature)) + "]";
    assert " " + first + "" == " default-features = false";
    assert " " + second + "" == " " + (FEATURES + Quoted(Blanked("sqlite")));
    assert " " + third + " " == " " + (Quoted(Blanked(feature)) + "] ");
    InkFacts();
    hide Trim, IsWhitespace;
    TrimCore(" ", first, "");
    TrimCore(" ", second, "");
    TrimCore(" ", third, " ");
  }

  lemma InkFacts()
    ensures !IsWhitespace('d') && !IsWhitespace('e') && !IsWhitespace('f') && !IsWhitespace('s')
    ensures !IsWhitespace('"') && !IsWhitespace(']') && AllWhitespace(" ") && AllWhitespace("")
  {
  }

  lemma KeyBefore(key: string, rest: string)
    requires key == DEFAULT_FEATURES || key == FEATURES_KEY
    requires |rest| > 1 && rest[0] == ' ' && rest[1] == '='
    ensures '=' in key + rest && Trim(Before(key + rest, '=')) == key
  {
    assert rest == " " + rest[1..];
    assert key + rest == (key + " ") + rest[1..];
    assert (key + rest)[|key| + 1] == '=';
    BeforeConcat(key + " ", rest[1..], '=');
    TrimCore("", key, " ");
    assert "" + key + " " == key + " ";
  }

  lemma {:induction false} KeysConcat(a: seq<string>, b: seq<string>)
    ensures Keys(a + b) == Keys(a) + Keys(b)
    decreases |b|
  {
    if b == [] {
      assert a + b == a;
    } else {
      assert (a + b)[..|a + b| - 1] == a + b[..|b| - 1];
      KeysConcat(a, b[..|b| - 1]);
    }
  }

  /** A table that has room for both keys: no part of it is blank and it has neither. */
  predicate HasRoomForKeys(body: string) {
    IsClosed(body) && NoneBlank(Parts(body)) && AllDifferent(Keys(Parts(body))) &&
    DEFAULT_FEATURES !in Keys(Parts(body)) && FEATURES_KEY !in Keys(Parts(body))
  }

  lemma TwoMoreKeys(names: seq<string>)
    ensures AllDifferent(names + [DEFAULT_FEATURES, FEATURES_KEY]) <==>
            AllDifferent(names) && DEFAULT_FEATURES !in names && FEATURES_KEY !in names
  {
    var all := names + [DEFAULT_FEATURES, FEATURES_KEY];
    assert DEFAULT_FEATURES[0] != FEATURES_KEY[0];
    assert all[|names|] == DEFAULT_FEATURES && all[|names| + 1] == FEATURES_KEY;
    if AllDifferent(all) {
      forall i | 0 <= i < |names| ensures names[i] != DEFAULT_FEATURES && names[i] != FEATURES_KEY {
        assert all[i] == names[i];
      }
      assert forall i :: 0 <= i < |names| ==> all[i] == names[i];
    }
  }

  lemma TableTakesKeysExactly(body: string, feature: string)
    requires IsFeatureName(feature)
    ensures IsTable(body + NewKeys(feature)) <==> HasRoomForKeys(body)
  {
    hide Parts, IsClosed, Keys, NewKeys, NewParts, AllDifferent;
    NewKeysAppend(body, feature);
    NewPartKeys(feature);
    if IsClosed(body) {
      var before, added := Parts(body), NewParts(feature);
      ThreeParts(feature);
      KeysConcat(before, added);
      TwoMoreKeys(Keys(before));
      assert NoneBlank(before + added) <==> NoneBlank(before) by {
        assert forall i :: 0 <= i < |before| ==> (before + added)[i] == before[i];
        assert forall i :: 0 <= i < |added| ==> (before + added)[|before| + i] == added[i];
      }
    }
  }

  lemma ThreeParts(feature: string)
    ensures |NewParts(feature)| == 3
  {
  }

  /**
   * Where the dependency line has no list, the edited inline table is in order, each key
   * once and no comma leading, exactly when the table had no blank part, so was not empty,
   * had each key once, and had neither of the two keys that are added.
   */
  lemma TableStaysExactly(contents: string, feature: string)
    requires IsFeatureName(feature) && Locate(contents).NoArray? && AddFeature(contents, feature).Some?
    ensures DependencyTable(contents).Some?
    ensures DependencyTable(AddFeature(contents, feature).value.0) ==
            Some(DependencyTable(contents).value + NewKeys(feature))
    ensures IsTable(DependencyTable(AddFeature(contents, feature).value.0).value) <==>
            HasRoomForKeys(DependencyTable(contents).value)
  {
    hide AddFeature, LocateBy, LocateFrom, TableBy, RFind, IsTable, HasRoomForKeys, Find, Before, Insert, NewKeys;
    NoArrayIsOnTheLine(contents, DEPENDENCY, FEATURES);
    NewKeysAreOneLine(feature);
    TheEditWritesTheKeys(contents, feature);
    BraceIsAfterKey(contents);
    TableGrows(contents, DEPENDENCY, NewKeys(feature));
    TableTakesKeysExactly(DependencyTable(contents).value, feature);
  }

  lemma TheEditWritesTheKeys(contents: string, feature: string)
    requires Locate(contents).NoArray? && AddFeature(contents, feature).Some?
    ensures var NoArray(lineStart, line) := Locate(contents);
            RFind(line, '}').Some? && lineStart + RFind(line, '}').value <= |contents| &&
            AddFeature(contents, feature).value.0 ==
            Insert(contents, lineStart + RFind(line, '}').value, NewKeys(feature))
  {
    hide LocateBy, RFind, Insert;
    PlaceIsInside(contents, DEPENDENCY, FEATURES);
    RFindIsThere(Locate(contents).line, '}');
  }

  /** The last brace of the line cannot be part of the pattern that starts it. */
  lemma BraceIsAfterKey(contents: string)
    requires Locate(contents).NoArray? && RFind(Locate(contents).line, '}').Some?
    ensures DependencyTable(contents).Some?
  {
    hide RFind, Find;
    var pre, afterKey := FindSplits(contents, DEPENDENCY);
    var rest := DEPENDENCY + afterKey;
    assert contents == pre + rest;
    DropFront(pre, rest);
    var line := Before(rest, '\n');
    var lineTail := BeforeSplits(rest, '\n');
    RFindIsThere(line, '}');
    var brace := RFind(line, '}').value;
    assert brace < |DEPENDENCY| ==> rest[brace] == DEPENDENCY[brace] && line[brace] == rest[brace];
    KnownPatternsFit();
  }

  lemma NoArrayIsOnTheLine(contents: string, key: string, opening: string)
    requires LocateBy(contents, key, opening).NoArray?
    ensures var NoArray(lineStart, line) := LocateBy(contents, key, opening);
            Find(contents, key) == Some(lineStart) && lineStart <= |contents| &&
            line == Before(contents[lineStart..], '\n')
  {
    hide Find, Before;
    FindIsFirst(contents, key);
  }

  lemma NewKeysAreOneLine(feature: string)
    requires IsFeatureName(feature)
    ensures '\n' !in NewKeys(feature)
  {
    NamesAreQuotable(feature);
  }

  const DEFAULTS_OFF := DEFAULT_FEATURES + " = false"

  /** Both ways to fail, on tables that were in order: an empty one, and one that has a key already. */
  lemma TwoTablesBreak(feature: string)
    requires IsFeatureName(feature)
    ensures IsTable([]) && !IsTable([] + NewKeys(feature))
    ensures IsTable(DEFAULTS_OFF) && !IsTable(DEFAULTS_OFF + NewKeys(feature))
  {
    OneKeyTable();
    EmptyTableBreaks(feature);
    hide IsTable, NewKeys, Parts, Keys, IsClosed, IsFeatureName;
    FullTableBreaks(DEFAULTS_OFF, feature);
  }

  lemma EmptyTableBreaks(feature: string)
    requires IsFeatureName(feature)
    ensures IsTable([]) && !IsTable([] + NewKeys(feature))
  {
    TableTakesKeysExactly([], feature);
    hide IsFeatureName, NewKeys;
    SplitOne([], ',');
    var blank: seq<string> := [[]];
    assert Parts([]) == blank;
    KeysMore([], []);
    assert [] + blank == blank;
  }

  lemma FullTableBreaks(body: string, feature: string)
    requires IsFeatureName(feature) && IsClosed(body) && Parts(body) == [body] && body != []
    requires Keys(Parts(body)) == [DEFAULT_FEATURES]
    ensures IsTable(body) && !IsTable(body + NewKeys(feature))
  {
    TableTakesKeysExactly(body, feature);
    hide IsFeatureName, NewKeys, Parts, Keys, IsClosed;
    assert DEFAULT_FEATURES in Keys(Parts(body));
  }

  lemma OneKeyTable()
    ensures IsClosed(DEFAULTS_OFF) && Parts(DEFAULTS_OFF) == [DEFAULTS_OFF] && DEFAULTS_OFF != []
    ensures Keys(Parts(DEFAULTS_OFF)) == [DEFAULT_FEATURES]
  {
    DefaultsOffIsBare();
    DefaultsOffHasInk();
    KeyBefore(DEFAULT_FEATURES, " = false");
    hide IsWhole, Skeleton, Parts, Keys, Trim, Before, IsWhitespace, ModeAfter;
    OneKeyPart(DEFAULTS_OFF, DEFAULT_FEATURES);
  }

  lemma DefaultsOffHasInk()
    ensures DEFAULTS_OFF != [] && !IsWhitespace(DEFAULTS_OFF[0]) && !IsWhitespace(DEFAULTS_OFF[|DEFAULTS_OFF| - 1])
  {
  }

  lemma DefaultsOffIsBare()
    ensures IsWhole(DEFAULTS_OFF) && ',' !in DEFAULTS_OFF && Skeleton(DEFAULTS_OFF, Code) == DEFAULTS_OFF
  {
    hide IsWhole, Skeleton;
    BareIsWhole(DEFAULTS_OFF);
  }

  lemma OneKeyPart(body: string, key: string)
    requires IsWhole(body) && Skeleton(body, Code) == body && ',' !in body
    requires body != [] && !IsWhitespace(body[0]) && !IsWhitespace(body[|body| - 1])
    requires '=' in body && Trim(Before(body, '=')) == key
    ensures IsClosed(body) && Parts(body) == [body] && Keys(Parts(body)) == [key]
  {
    OnePart(body);
    hide Parts, Skeleton, ModeAfter, Trim, Before, IsWhitespace;
    KeysOfOne(body);
  }

  lemma KeysOfOne(part: string)
    ensures Keys([part]) == KeyOf(part)
  {
    KeysMore([], part);
    var none: seq<string> := [];
    assert none + [part] == [part];
  }

  lemma OnePart(text: string)
    requires IsWhole(text) && Skeleton(text, Code) == text && ',' !in text
    requires text != [] && !IsWhitespace(text[0]) && !IsWhitespace(text[|text| - 1])
    ensures IsClosed(text) && Parts(text) == [text]
  {
    SplitOne(text, ',');
    TrimCore("", text, "");
    assert "" + text + "" == text;
  }
}
