/** Enabling a feature in the `larust-support` dependency line of a Cargo manifest. */
module CargoFeature {
  import opened Outcomes
  import opened Text

  const DEPENDENCY := "larust-support = {"
  const FEATURES := "features = ["
  const NO_DEFAULTS := ", default-features = false, "

  /** The last position of a character. */
  function RFind(text: string, c: char): Option<nat> {
    if text == [] then None
    else if text[|text| - 1] == c then Some(|text| - 1)
    else RFind(text[..|text| - 1], c)
  }

  /** What stands between the brackets, cut at commas, without surrounding space. */
  function Entries(inside: string): seq<string> {
    var pieces := Split(inside, ',');
    seq(|pieces|, i requires 0 <= i < |pieces| => Trim(pieces[i]))
  }

  /** The names in it, without their quotes. */
  function Names(inside: string): seq<string> {
    var entries := Entries(inside);
    seq(|entries|, i requires 0 <= i < |entries| => TrimQuotes(entries[i]))
  }

  // ----- finding the feature array -----

  /** Where the feature array of the dependency line starts and what it holds, if there is one. */
  datatype Place =
    | NoDependency
    | NoArray(lineStart: nat, line: string)
    | Unclosed
    | Array(start: nat, inside: string)

  /** Looks for `opening` in the first line that `key` starts; the array may close on a later line. */
  function LocateBy(contents: string, key: string, opening: string): Place {
    match Find(contents, key)
    case None => NoDependency
    case Some(lineStart) =>
      FindIsFirst(contents, key);
      LocateFrom(lineStart, contents[lineStart..], opening)
  }

  function LocateFrom(lineStart: nat, rest: string, opening: string): Place {
    var line := Before(rest, '\n');
    match Find(line, opening)
    case None => NoArray(lineStart, line)
    case Some(i) =>
      FindIsFirst(line, opening);
      var after := rest[i + |opening|..];
      if ']' in after then Array(lineStart + i + |opening|, Before(after, ']')) else Unclosed
  }

  function Locate(contents: string): Place {
    LocateBy(contents, DEPENDENCY, FEATURES)
  }

  /** The opening bracket ends the pattern and occurs nowhere else in it, nor in the key. */
  predicate PatternsFit(key: string, opening: string) {
    key != [] && '\n' !in key && '[' !in key && '}' !in key &&
    opening != [] && '\n' !in opening && opening[|opening| - 1] == '[' && '[' !in opening[..|opening| - 1]
  }

  /** From the key on, only the rest of the text matters. */
  lemma LocateAtKey(pre: string, rest: string, key: string, opening: string)
    requires Find(pre + key, key) == Some(|pre|) && key <= rest
    ensures LocateBy(pre + rest, key, opening) == LocateFrom(|pre|, rest, opening)
  {
    hide LocateFrom, Find, OccursAt;
    var more := rest[|key|..];
    assert pre + rest == (pre + key) + more;
    FindConcat(pre + key, more, key);
    DropFront(pre, rest);
  }

  lemma KeySplits(contents: string, key: string, opening: string) returns (pre: string, rest: string)
    requires !LocateBy(contents, key, opening).NoDependency?
    ensures contents == pre + rest && Find(pre + key, key) == Some(|pre|) && key <= rest
    ensures LocateBy(contents, key, opening) == LocateFrom(|pre|, rest, opening)
  {
    var tail;
    pre, tail := FindSplits(contents, key);
    rest := key + tail;
    assert contents == pre + rest;
    LocateAtKey(pre, rest, key, opening);
  }

  /** A line that opens an array which is closed later on. */
  lemma PiecesAreLocated(lineStart: nat, front: string, inside: string, tail: string, opening: string)
    requires '\n' !in front && Find(front, opening).Some? && Find(front, opening).value + |opening| == |front|
    requires ']' !in inside
    ensures LocateFrom(lineStart, front + (inside + ([']'] + tail)), opening) == Array(lineStart + |front|, inside)
  {
    var after := inside + ([']'] + tail);
    BeforeAppend(front, after, '\n');
    FindConcat(front, Before(after, '\n'), opening);
    assert (front + after)[|front|..] == after;
    BeforeConcat(inside, [']'] + tail, ']');
    assert after[|inside|] == ']';
  }

  /** A line that holds the opening, cut right after its first one. */
  lemma OpeningSplits(rest: string, opening: string) returns (front: string, after: string)
    requires opening != [] && Find(Before(rest, '\n'), opening).Some?
    ensures rest == front + after && '\n' !in front && front != [] && front[|front| - 1] == opening[|opening| - 1]
    ensures Find(front, opening) == Find(Before(rest, '\n'), opening)
    ensures Find(front, opening).value + |opening| == |front|
  {
    var line := Before(rest, '\n');
    var lineTail := BeforeSplits(rest, '\n');
    var head, headTail := FindSplits(line, opening);
    front, after := head + opening, headTail + lineTail;
  }

  lemma LocatedHasPieces(lineStart: nat, rest: string, opening: string) returns (front: string, tail: string)
    requires opening != [] && LocateFrom(lineStart, rest, opening).Array?
    ensures rest == front + (LocateFrom(lineStart, rest, opening).inside + ([']'] + tail))
    ensures LocateFrom(lineStart, rest, opening).start == lineStart + |front|
    ensures '\n' !in front && Find(front, opening).Some? && Find(front, opening).value + |opening| == |front|
    ensures ']' !in LocateFrom(lineStart, rest, opening).inside
    ensures front[|front| - 1] == opening[|opening| - 1]
  {
    var after;
    front, after := OpeningSplits(rest, opening);
    assert rest[|front|..] == after;
    var closing := BeforeSplits(after, ']');
    tail := closing[1..];
    assert closing == [']'] + tail;
  }

  /** A common text's two fronts: the one without the other's last character is the shorter. */
  lemma ShorterFront(text: string, a: string, b: string)
    requires a <= text && b <= text && b != [] && b[|b| - 1] !in a
    ensures |a| < |b| && a <= b
  {
  }

  lemma NoArrayHasPieces(lineStart: nat, rest: string, opening: string, brace: nat) returns (head: string, tail: string)
    requires LocateFrom(lineStart, rest, opening).NoArray?
    requires brace < |LocateFrom(lineStart, rest, opening).line| &&
             LocateFrom(lineStart, rest, opening).line[brace] == '}'
    ensures LocateFrom(lineStart, rest, opening).lineStart == lineStart
    ensures rest == head + tail && |head| == brace && tail != [] && tail[0] == '}'
    ensures '\n' !in head && Find(head, opening).None?
  {
    hide Find, Before;
    var line := Before(rest, '\n');
    var lineTail := BeforeSplits(rest, '\n');
    head, tail := line[..brace], line[brace..] + lineTail;
    assert line == head + line[brace..];
    NotInFront(head, line[brace..], opening);
  }

  lemma NoBracketNoMatch(text: string, opening: string, j: nat)
    requires opening != [] && opening[|opening| - 1] == '['
    requires j + |opening| <= |text| && text[j + |opening| - 1] != '['
    ensures !OccursAt(text, opening, j)
  {
  }

  lemma OccursInFront(head: string, tail: string, pattern: string, j: nat)
    requires j + |pattern| <= |head|
    ensures OccursAt(head + tail, pattern, j) <==> OccursAt(head, pattern, j)
  {
  }

  lemma OccursAtEnd(head: string, pattern: string)
    ensures OccursAt(head + pattern, pattern, |head|)
  {
  }

  lemma AddedBracketIsLast(before: string, opening: string, k: nat)
    requires '[' !in before && opening != [] && '[' !in opening[..|opening| - 1] && k < |before| + |opening| - 1
    ensures (before + opening)[k] != '['
  {
  }

  lemma NoEarlierOpening(head: string, before: string, opening: string, j: nat)
    requires Find(head, opening).None? && '[' !in before && j < |head| + |before|
    requires opening != [] && opening[|opening| - 1] == '[' && '[' !in opening[..|opening| - 1]
    ensures !OccursAt(head + before + opening, opening, j)
  {
    var added, last := before + opening, j + |opening| - 1;
    assert head + before + opening == head + added;
    if last < |head| {
      FindIsFirst(head, opening);
      OccursInFront(head, added, opening, j);
    } else {
      AddedBracketIsLast(before, opening, last - |head|);
      NoBracketNoMatch(head + added, opening, j);
    }
  }

  /** Appended to text without it, the opening is found where it was appended. */
  lemma NewOpeningIsFirst(head: string, before: string, opening: string)
    requires Find(head, opening).None? && '[' !in before
    requires opening != [] && opening[|opening| - 1] == '[' && '[' !in opening[..|opening| - 1]
    ensures Find(head + before + opening, opening) == Some(|head + before|)
  {
    hide Find, OccursAt;
    OccursAtEnd(head + before, opening);
    forall j: nat | j < |head + before| ensures !OccursAt(head + before + opening, opening, j) {
      NoEarlierOpening(head, before, opening, j);
    }
    FindIs(head + before + opening, opening, |head + before|);
  }

  // ----- the edit -----

  /** One contiguous insertion. */
  function Insert(contents: string, at: nat, insertion: string): string
    requires at <= |contents|
  {
    contents[..at] + insertion + contents[at..]
  }

  lemma {:induction false} RFindIsThere(text: string, c: char)
    ensures RFind(text, c).Some? ==> RFind(text, c).value < |text| && text[RFind(text, c).value] == c
  {
    if text != [] && text[|text| - 1] != c {
      RFindIsThere(text[..|text| - 1], c);
    }
  }

  lemma PlaceIsInside(contents: string, key: string, opening: string)
    ensures match LocateBy(contents, key, opening)
            case Array(start, inside) => start + |inside| <= |contents|
            case NoArray(lineStart, line) => lineStart + |line| <= |contents|
            case _ => true
  {
    FindIsFirst(contents, key);
    if Find(contents, key).Some? {
      FindIsFirst(Before(contents[Find(contents, key).value..], '\n'), opening);
    }
  }

  /** Without an array only SQLite can have been in use, so it is listed too. */
  function NewArray(feature: string): string {
    Quoted("sqlite") + ", " + Quoted(feature)
  }

  /** `Some((text, true))` when the feature is there already, `None` when the line is not as expected. */
  function AddFeature(contents: string, feature: string): Option<(string, bool)> {
    PlaceIsInside(contents, DEPENDENCY, FEATURES);
    match Locate(contents)
    case NoDependency => None
    case Unclosed => None
    case NoArray(lineStart, line) =>
      (match RFind(line, '}')
       case None => None
       case Some(brace) =>
         RFindIsThere(line, '}');
         Some((Insert(contents, lineStart + brace, NO_DEFAULTS + FEATURES + NewArray(feature) + "] "), false)))
    case Array(start, inside) =>
      if feature in Names(inside) then Some((contents, true))
      else Some((Insert(contents, start + |inside|, ", " + Quoted(feature)), false))
  }

  // ----- what the edit does to the list of names -----

  /** The feature names the framework uses: no quote, comma, bracket or white space. */
  predicate IsPlain(feature: string) {
    forall i :: 0 <= i < |feature| ==>
      feature[i] != '"' && feature[i] != ',' && feature[i] != ']' && feature[i] != '[' && !IsWhitespace(feature[i])
  }

  lemma EntriesAppend(before: string, feature: string)
    requires IsPlain(feature)
    ensures Entries(before + ", " + Quoted(feature)) == Entries(before) + [Quoted(feature)]
  {
    var piece := " " + Quoted(feature);
    assert before + ", " + Quoted(feature) == before + [','] + piece;
    SplitAppend(before, ',', piece);
    TrimCore(" ", Quoted(feature), "");
    assert " " + Quoted(feature) + "" == piece;
  }

  lemma NamesAppend(before: string, feature: string)
    requires IsPlain(feature)
    ensures Names(before + ", " + Quoted(feature)) == Names(before) + [feature]
  {
    hide Entries, Quoted;
    EntriesAppend(before, feature);
    QuotedTrims(feature);
  }

  lemma NamesOfOne(feature: string)
    requires IsPlain(feature)
    ensures Names(Quoted(feature)) == [feature]
  {
    var quoted := Quoted(feature);
    SplitOne(quoted, ',');
    QuotedTrims(feature);
    TrimCore("", quoted, "");
    assert "" + quoted + "" == quoted;
  }

  lemma NoBracketIn(feature: string)
    requires IsPlain(feature)
    ensures ']' !in ", " + Quoted(feature)
  {
  }

  lemma SqliteIsPlain()
    ensures IsPlain("sqlite")
  {
  }

  lemma NamesOfNewArray(feature: string)
    requires IsPlain(feature)
    ensures Names(NewArray(feature)) == ["sqlite", feature] && ']' !in NewArray(feature)
  {
    hide Names;
    SqliteIsPlain();
    NamesOfOne("sqlite");
    NamesAppend(Quoted("sqlite"), feature);
    NoBracketIn(feature);
    NoBracketIn("sqlite");
    assert NewArray(feature) == (", " + Quoted("sqlite"))[2..] + (", " + Quoted(feature));
  }

  /** The names the manifest lists, if its dependency line has a list. */
  function ListedNames(contents: string): Option<seq<string>> {
    match Locate(contents)
    case Array(_, inside) => Some(Names(inside))
    case _ => None
  }

  predicate AlreadyLists(contents: string, feature: string) {
    ListedNames(contents).Some? && feature in ListedNames(contents).value
  }

  /** The features in effect before the edit: those listed, or the default one. */
  function NamesBefore(contents: string): seq<string> {
    if ListedNames(contents).Some? then ListedNames(contents).value else ["sqlite"]
  }

  lemma KnownPatternsFit()
    ensures PatternsFit(DEPENDENCY, FEATURES)
    ensures '\n' !in NO_DEFAULTS && '[' !in NO_DEFAULTS
  {
  }

  lemma InsertBetween(left: string, insertion: string, right: string)
    ensures Insert(left + right, |left|, insertion) == left + insertion + right
  {
    assert (left + right)[..|left|] == left && (left + right)[|left|..] == right;
  }

  lemma AddingToAnArray(contents: string, key: string, opening: string, insertion: string)
    requires PatternsFit(key, opening) && LocateBy(contents, key, opening).Array? && ']' !in insertion
    ensures var Array(start, inside) := LocateBy(contents, key, opening);
            start + |inside| <= |contents| &&
            LocateBy(Insert(contents, start + |inside|, insertion), key, opening) == Array(start, inside + insertion)
  {
    hide LocateBy, LocateFrom, Insert;
    var inside := LocateBy(contents, key, opening).inside;
    var pre, rest := KeySplits(contents, key, opening);
    var front, tail := LocatedHasPieces(|pre|, rest, opening);
    ShorterFront(rest, key, front);
    var closing := [']'] + tail;
    assert contents == (pre + front + inside) + closing;
    InsertBetween(pre + front + inside, insertion, closing);
    var rest' := front + ((inside + insertion) + closing);
    assert (pre + front + inside) + insertion + closing == pre + rest';
    PiecesAreLocated(|pre|, front, inside + insertion, tail, opening);
    LocateAtKey(pre, rest', key, opening);
  }

  lemma AddingAnArray(contents: string, key: string, opening: string, brace: nat, before: string, inside: string)
    requires PatternsFit(key, opening) && LocateBy(contents, key, opening).NoArray?
    requires brace < |LocateBy(contents, key, opening).line| && LocateBy(contents, key, opening).line[brace] == '}'
    requires '\n' !in before && '[' !in before && ']' !in inside
    ensures var lineStart := LocateBy(contents, key, opening).lineStart;
            lineStart + brace <= |contents| &&
            LocateBy(Insert(contents, lineStart + brace, before + opening + inside + "] "), key, opening)
            == Array(lineStart + brace + |before| + |opening|, inside)
  {
    hide LocateBy, LocateFrom, Insert;
    var pre, rest := KeySplits(contents, key, opening);
    var head, tail := NoArrayHasPieces(|pre|, rest, opening, brace);
    ShorterFront(rest, key, head + ['}']);
    assert key <= head;
    assert contents == (pre + head) + tail;
    InsertBetween(pre + head, before + opening + inside + "] ", tail);
    var front := head + before + opening;
    var rest' := front + (inside + ([']'] + (" " + tail)));
    assert (pre + head) + (before + opening + inside + "] ") + tail == pre + rest';
    NewOpeningIsFirst(head, before, opening);
    PiecesAreLocated(|pre|, front, inside, " " + tail, opening);
    LocateAtKey(pre, rest', key, opening);
  }

  /**
   * A successful edit lists what the manifest listed before, in order, and then the
   * feature, with SQLite made explicit where there was no list. Doing it again finds
   * the feature and changes nothing.
   */
  lemma AddFeatureIsIdempotent(contents: string, feature: string)
    requires IsPlain(feature) && AddFeature(contents, feature).Some?
    ensures var (updated, already) := AddFeature(contents, feature).value;
            AddFeature(updated, feature) == Some((updated, true)) &&
            (already <==> AlreadyLists(contents, feature)) &&
            ListedNames(updated) == Some(if already then ListedNames(contents).value
                                         else NamesBefore(contents) + [feature])
  {
    hide LocateBy, LocateFrom, Insert, Names, NewArray, Quoted, PatternsFit, RFind;
    var (updated, already) := AddFeature(contents, feature).value;
    KnownPatternsFit();
    match Locate(contents)
    case NoArray(_, line) =>
      RFindIsThere(line, '}');
      NamesOfNewArray(feature);
      AddingAnArray(contents, DEPENDENCY, FEATURES, RFind(line, '}').value, NO_DEFAULTS, NewArray(feature));
      assert ["sqlite"] + [feature] == ["sqlite", feature];
    case Array(_, inside) =>
      if !already {
        var insertion := ", " + Quoted(feature);
        NoBracketIn(feature);
        AddingToAnArray(contents, DEPENDENCY, FEATURES, insertion);
        assert inside + insertion == inside + ", " + Quoted(feature);
        NamesAppend(inside, feature);
      }
  }

  // ----- the edited text, spelled out -----

  /** `pattern` first occurs at `i`. */
  predicate IsFirstAt(text: string, pattern: string, i: nat) {
    OccursAt(text, pattern, i) && forall j: nat :: j < i ==> !OccursAt(text, pattern, j)
  }

  /** A manifest without the dependency line is not edited. */
  lemma NoLineNoEdit(contents: string, feature: string)
    requires forall i: nat :: !OccursAt(contents, "larust-support = {", i)
    ensures AddFeature(contents, feature) == None
  {
    FindIsFirst(contents, "larust-support = {");
  }

  /** `start` is where the first array of the first dependency line begins. */
  ghost predicate ArrayStartsAt(contents: string, start: nat) {
    exists i: nat, j: nat :: i <= |contents| && IsFirstAt(contents, "larust-support = {", i) &&
      IsFirstAt(Before(contents[i..], '\n'), "features = [", j) && start == i + j + 12
  }

  lemma ArrayIsLocated(contents: string, start: nat)
    requires ArrayStartsAt(contents, start)
    ensures start <= |contents|
    ensures Locate(contents) ==
            if ']' in contents[start..] then Array(start, Before(contents[start..], ']')) else Unclosed
  {
    hide Find, Before, OccursAt;
    var i: nat, j: nat :| i <= |contents| && IsFirstAt(contents, "larust-support = {", i) &&
      IsFirstAt(Before(contents[i..], '\n'), "features = [", j) && start == i + j + 12;
    FindIs(contents, "larust-support = {", i);
    FindIs(Before(contents[i..], '\n'), "features = [", j);
    OccursInside(Before(contents[i..], '\n'), "features = [", j);
    assert contents[i..][j + 12..] == contents[start..];
  }

  lemma OccursInside(text: string, pattern: string, j: nat)
    requires OccursAt(text, pattern, j)
    ensures j + |pattern| <= |text|
  {
  }

  /** With an array: unless the feature is in it, it is written before the first bracket that closes it. */
  lemma ArrayEditIsExact(contents: string, feature: string, start: nat)
    requires ArrayStartsAt(contents, start)
    ensures start <= |contents|
    ensures ']' !in contents[start..] ==> AddFeature(contents, feature) == None
    ensures ']' in contents[start..] ==>
            var inside := Before(contents[start..], ']');
            start + |inside| <= |contents| &&
            AddFeature(contents, feature) ==
            Some(if feature in Names(inside) then (contents, true)
                 else (contents[..start + |inside|] + ", \"" + feature + "\"" + contents[start + |inside|..], false))
  {
    hide Locate, LocateBy, Names, ArrayStartsAt, Before, AddFeature, Insert, Quoted, OccursAt, IsFirstAt, Find;
    ArrayIsLocated(contents, start);
    if ']' in contents[start..] {
      var inside := Before(contents[start..], ']');
      AddsToArray(contents, feature, start, inside);
      ArrayInsertion(contents, start + |inside|, feature);
    } else {
      UnclosedIsNoEdit(contents, feature);
    }
  }

  lemma AddsToArray(contents: string, feature: string, start: nat, inside: string)
    requires Locate(contents) == Array(start, inside)
    ensures start + |inside| <= |contents|
    ensures AddFeature(contents, feature) ==
            Some(if feature in Names(inside) then (contents, true)
                 else (Insert(contents, start + |inside|, ", " + Quoted(feature)), false))
  {
    hide LocateBy, Names, Insert, Quoted;
    PlaceIsInside(contents, DEPENDENCY, FEATURES);
  }

  lemma UnclosedIsNoEdit(contents: string, feature: string)
    requires Locate(contents) == Unclosed
    ensures AddFeature(contents, feature) == None
  {
    hide LocateBy;
  }

  lemma ArrayInsertion(contents: string, at: nat, feature: string)
    requires at <= |contents|
    ensures Insert(contents, at, ", " + Quoted(feature)) ==
            contents[..at] + ", \"" + feature + "\"" + contents[at..]
  {
    assert ", " + Quoted(feature) == ", \"" + feature + "\"";
  }

  /** `line` is the first dependency line, from its start at `i`, and has no array. */
  ghost predicate LineHasNoArray(contents: string, i: nat, line: string) {
    i <= |contents| && IsFirstAt(contents, "larust-support = {", i) && line == Before(contents[i..], '\n') &&
    forall j: nat :: !OccursAt(line, "features = [", j)
  }

  /** Without one, and without a brace on the line either, nothing is edited. */
  lemma NoBraceNoEdit(contents: string, feature: string, i: nat, line: string)
    requires LineHasNoArray(contents, i, line) && '}' !in line
    ensures AddFeature(contents, feature) == None
  {
    hide Locate, LocateBy, RFind, LineHasNoArray, AddFeature, Insert;
    TableIsLocated(contents, i, line);
    AddsToTable(contents, feature, i, line);
    RFindIsThere(line, '}');
  }

  /** With one: a list of SQLite and the feature, and no defaults, before the last brace of the line. */
  lemma TableEditIsExact(contents: string, feature: string, i: nat, line: string, b: nat)
    requires LineHasNoArray(contents, i, line) && b < |line| && line[b] == '}' && '}' !in line[b + 1..]
    ensures i + b <= |contents|
    ensures AddFeature(contents, feature) ==
            Some((contents[..i + b] + ", default-features = false, features = [\"sqlite\", \"" + feature + "\"] " +
                  contents[i + b..], false))
  {
    hide Locate, LocateBy, RFind, LineHasNoArray, AddFeature, Insert, NewArray;
    TableIsLocated(contents, i, line);
    AddsToTable(contents, feature, i, line);
    RFindIs(line, '}', b);
    TableInsertion(contents, i + b, feature);
  }

  lemma AddsToTable(contents: string, feature: string, i: nat, line: string)
    requires Locate(contents) == NoArray(i, line)
    ensures match RFind(line, '}')
            case None => AddFeature(contents, feature) == None
            case Some(b) =>
              i + b <= |contents| &&
              AddFeature(contents, feature) ==
              Some((Insert(contents, i + b, NO_DEFAULTS + FEATURES + NewArray(feature) + "] "), false))
  {
    hide LocateBy, RFind, Insert, NewArray;
    PlaceIsInside(contents, DEPENDENCY, FEATURES);
    RFindIsThere(line, '}');
  }

  lemma TableIsLocated(contents: string, i: nat, line: string)
    requires LineHasNoArray(contents, i, line)
    ensures Locate(contents) == NoArray(i, line) && i + |line| <= |contents|
  {
    hide Find, Before, OccursAt;
    FindIs(contents, "larust-support = {", i);
    FindIsFirst(line, "features = [");
  }

  lemma TableInsertion(contents: string, at: nat, feature: string)
    requires at <= |contents|
    ensures Insert(contents, at, NO_DEFAULTS + FEATURES + NewArray(feature) + "] ") ==
            contents[..at] + ", default-features = false, features = [\"sqlite\", \"" + feature + "\"] " +
            contents[at..]
  {
    var opening := ", default-features = false, features = [\"sqlite\", \"";
    OpeningText(feature);
    assert NO_DEFAULTS + FEATURES + NewArray(feature) + "] " == opening + feature + "\"] ";
    Regrouped(contents[..at], opening, feature, "\"] ", contents[at..]);
  }

  lemma OpeningText(feature: string)
    ensures NO_DEFAULTS + FEATURES + NewArray(feature) ==
            ", default-features = false, features = [\"sqlite\", \"" + feature + "\""
  {
    assert NewArray(feature) == "\"sqlite\", \"" + feature + "\"";
  }

  lemma Regrouped(a: string, b: string, c: string, d: string, e: string)
    ensures a + (b + c + d) + e == a + b + c + d + e
  {
  }

  lemma {:induction false} RFindIs(text: string, c: char, b: nat)
    requires b < |text| && text[b] == c && c !in text[b + 1..]
    ensures RFind(text, c) == Some(b)
    decreases |text|
  {
    var last := |text| - 1;
    if b < last {
      assert text[last] == text[b + 1..][last - b - 1];
      assert text[..last][b + 1..] == text[b + 1..][..last - b - 1];
      RFindIs(text[..last], c, b);
    }
  }

  /** The text changes by at most one contiguous insertion. */
  lemma AddFeatureInserts(contents: string, feature: string)
    requires AddFeature(contents, feature).Some?
    ensures exists at, insertion ::
              0 <= at <= |contents| &&
              AddFeature(contents, feature).value.0 == Insert(contents, at, insertion) &&
              (insertion == [] <==> AddFeature(contents, feature).value.1)
  {
    hide LocateBy, Names, Quoted, RFind;
    PlaceIsInside(contents, DEPENDENCY, FEATURES);
    match Locate(contents)
    case NoArray(lineStart, line) =>
      RFindIsThere(line, '}');
      var insertion := NO_DEFAULTS + FEATURES + NewArray(feature) + "] ";
      assert insertion != [] && AddFeature(contents, feature).value.0 ==
             Insert(contents, lineStart + RFind(line, '}').value, insertion);
    case Array(start, inside) =>
      if feature in Names(inside) {
        assert contents == Insert(contents, 0, []);
      } else {
        assert AddFeature(contents, feature).value.0 ==
               Insert(contents, start + |inside|, ", " + Quoted(feature));
      }
  }
}
