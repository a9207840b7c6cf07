/** Grouping commit subjects into release notes. */
module ReleaseNotes {
  import opened Text
  import opened Lines

  /** Commit types and the headings they are printed under; everything else goes under the last. */
  const SECTIONS: seq<(string, string)> := [
    ("feat", "Features"), ("fix", "Fixes"), ("refactor", "Refactoring"), ("perf", "Performance"),
    ("docs", "Docs"), ("test", "Tests"), ("ci", "CI"), ("chore", "Chores")]
  const OTHER := "Other"

  /** The first section whose type, followed by a colon, starts the subject; `|sections|` if none does. */
  function Classify(subject: string, sections: seq<(string, string)>): (i: nat)
    ensures i <= |sections|
    ensures i < |sections| ==> sections[i].0 + ":" <= subject
  {
    if sections == [] || sections[0].0 + ":" <= subject then 0
    else 1 + Classify(subject, sections[1..])
  }

  /** What is printed for the subject: the text after the colon, or all of it. */
  function Item(subject: string, sections: seq<(string, string)>): string {
    var i := Classify(subject, sections);
    if i < |sections| then Trim(subject[|sections[i].0| + 1..]) else subject
  }

  /** The non-blank lines of the log, trimmed. */
  function Subjects(lines: seq<string>): seq<string> {
    if lines == [] then []
    else (if Trim(lines[0]) == [] then [] else [Trim(lines[0])]) + Subjects(lines[1..])
  }

  /** The items of bucket `i`, in log order. */
  function Bucket(subjects: seq<string>, sections: seq<(string, string)>, i: nat): seq<string> {
    if subjects == [] then []
    else
      var last := subjects[|subjects| - 1];
      Bucket(subjects[..|subjects| - 1], sections, i) +
      if Classify(last, sections) == i then [Item(last, sections)] else []
  }

  function Buckets(subjects: seq<string>, sections: seq<(string, string)>): seq<seq<string>> {
    seq(|sections| + 1, i requires 0 <= i => Bucket(subjects, sections, i))
  }

  function Labels(sections: seq<(string, string)>): seq<string> {
    seq(|sections| + 1, i requires 0 <= i => if i < |sections| then sections[i].1 else OTHER)
  }

  // ----- which bucket -----

  /** Types without a colon, none twice, as the table has them. */
  ghost predicate AreTypes(sections: seq<(string, string)>) {
    (forall i :: 0 <= i < |sections| ==> ':' !in sections[i].0) &&
    forall i, j :: 0 <= i < j < |sections| ==> sections[i].0 != sections[j].0
  }

  lemma StartsWithType(subject: string, kind: string)
    requires ':' !in kind
    ensures kind + ":" <= subject <==> ':' in subject && Before(subject, ':') == kind
  {
    if kind + ":" <= subject {
      var rest := subject[|kind|..];
      assert subject == kind + rest;
      assert rest[0] == (kind + ":")[|kind|] == ':';
      BeforeConcat(kind, rest, ':');
      assert subject[|kind|] == ':';
    }
    if ':' in subject && Before(subject, ':') == kind {
      var rest := BeforeSplits(subject, ':');
      assert subject == (kind + ":") + rest[1..];
    }
  }

  /** The bucket is decided by the word before the subject's first colon. */
  lemma {:induction false} BucketIsByFirstWord(subject: string, sections: seq<(string, string)>, i: nat)
    requires AreTypes(sections) && i < |sections|
    ensures Classify(subject, sections) == i <==> ':' in subject && Before(subject, ':') == sections[i].0
  {
    StartsWithType(subject, sections[0].0);
    if i > 0 {
      BucketIsByFirstWord(subject, sections[1..], i - 1);
    }
  }

  lemma KnownTypes()
    ensures AreTypes(SECTIONS)
  {
    forall i, j | 0 <= i < j < |SECTIONS| ensures SECTIONS[i].0 != SECTIONS[j].0 {
      assert |SECTIONS[i].0| != |SECTIONS[j].0| || SECTIONS[i].0[0] != SECTIONS[j].0[0];
    }
  }

  predicate HasType(subject: string, kind: string) {
    ':' in subject && Before(subject, ':') == kind
  }

  /** So for the known types: one of the eight by its word, and every other subject under the last heading. */
  lemma KnownTypesDecide(subject: string)
    ensures forall i :: 0 <= i < |SECTIONS| ==> (Classify(subject, SECTIONS) == i <==> HasType(subject, SECTIONS[i].0))
    ensures Classify(subject, SECTIONS) == |SECTIONS| <==>
            forall i :: 0 <= i < |SECTIONS| ==> !HasType(subject, SECTIONS[i].0)
  {
    hide Classify, AreTypes;
    KnownTypes();
    forall i | 0 <= i < |SECTIONS| ensures Classify(subject, SECTIONS) == i <==> HasType(subject, SECTIONS[i].0) {
      BucketIsByFirstWord(subject, SECTIONS, i);
    }
  }

  /** The headings in the order they are printed. */
  lemma HeadingsAreExact()
    ensures Labels(SECTIONS) ==
            ["Features", "Fixes", "Refactoring", "Performance", "Docs", "Tests", "CI", "Chores", "Other"]
  {
  }

  /** Which heading a subject goes under, by the word before its first colon. */
  function Heading(subject: string): string {
    if HasType(subject, "feat") then "Features"
    else if HasType(subject, "fix") then "Fixes"
    else if HasType(subject, "refactor") then "Refactoring"
    else if HasType(subject, "perf") then "Performance"
    else if HasType(subject, "docs") then "Docs"
    else if HasType(subject, "test") then "Tests"
    else if HasType(subject, "ci") then "CI"
    else if HasType(subject, "chore") then "Chores"
    else "Other"
  }

  lemma HeadingIsExact(subject: string)
    ensures Labels(SECTIONS)[Classify(subject, SECTIONS)] == Heading(subject)
  {
    hide Classify, HasType;
    KnownTypesDecide(subject);
    assert SECTIONS[0].0 == "feat" && SECTIONS[1].0 == "fix" && SECTIONS[2].0 == "refactor" && SECTIONS[3].0 == "perf";
    assert SECTIONS[4].0 == "docs" && SECTIONS[5].0 == "test" && SECTIONS[6].0 == "ci" && SECTIONS[7].0 == "chore";
  }

  /** And what is printed there: the trimmed text after that colon, or under Other the whole subject. */
  lemma ItemIsExact(subject: string)
    ensures Heading(subject) == "Other" ==> Item(subject, SECTIONS) == subject
    ensures Heading(subject) != "Other" ==>
            |Before(subject, ':')| < |subject| &&
            Item(subject, SECTIONS) == Trim(subject[|Before(subject, ':')| + 1..])
  {
    KnownTypesDecide(subject);
    HeadingIsExact(subject);
    HeadingsAreExact();
    hide Classify, Trim, Heading, Labels;
    var i := Classify(subject, SECTIONS);
    if i < |SECTIONS| {
      assert HasType(subject, SECTIONS[i].0);
      BeforeEnds(subject, ':');
    }
  }

  lemma BeforeEnds(subject: string, c: char)
    requires c in subject
    ensures |Before(subject, c)| < |subject|
  {
    var rest := BeforeSplits(subject, c);
  }

  /** How many lines are not blank. */
  function NonBlank(lines: seq<string>): nat {
    if lines == [] then 0
    else NonBlank(lines[..|lines| - 1]) + if Trim(lines[|lines| - 1]) == [] then 0 else 1
  }

  lemma {:induction false} SubjectsConcat(a: seq<string>, b: seq<string>)
    ensures Subjects(a + b) == Subjects(a) + Subjects(b)
  {
    if a == [] {
      assert a + b == b;
    } else {
      assert (a + b)[1..] == a[1..] + b;
      SubjectsConcat(a[1..], b);
    }
  }

  lemma {:induction false} SubjectsAreCounted(lines: seq<string>)
    ensures |Subjects(lines)| == NonBlank(lines)
  {
    if lines != [] {
      var front, last := lines[..|lines| - 1], lines[|lines| - 1];
      SubjectsAreCounted(front);
      SubjectsConcat(front, [last]);
      assert lines == front + [last] && [last][1..] == [];
    }
  }

  /** The subjects are the trimmed non-blank lines in order: line `i` stands after those that precede it. */
  lemma SubjectsAreTheLines(lines: seq<string>, i: nat)
    requires i < |lines| && Trim(lines[i]) != []
    ensures |Subjects(lines)| == NonBlank(lines) && NonBlank(lines[..i]) < NonBlank(lines)
    ensures Subjects(lines)[NonBlank(lines[..i])] == Trim(lines[i])
  {
    SubjectsAreCounted(lines);
    SubjectsAreCounted(lines[..i]);
    assert lines == lines[..i] + ([lines[i]] + lines[i + 1..]);
    SubjectsConcat(lines[..i], [lines[i]] + lines[i + 1..]);
    assert ([lines[i]] + lines[i + 1..])[1..] == lines[i + 1..];
  }

  // ----- conservation -----

  /** One more subject goes to the end of its bucket and touches no other. */
  lemma BucketsGrow(subjects: seq<string>, sections: seq<(string, string)>)
    requires subjects != []
    ensures var front, last := subjects[..|subjects| - 1], subjects[|subjects| - 1];
            var k, before := Classify(last, sections), Buckets(front, sections);
            Buckets(subjects, sections) == before[k := before[k] + [Item(last, sections)]]
  {
    var front, last := subjects[..|subjects| - 1], subjects[|subjects| - 1];
    var k, before := Classify(last, sections), Buckets(front, sections);
    var after := before[k := before[k] + [Item(last, sections)]];
    forall i | 0 <= i <= |sections| ensures Buckets(subjects, sections)[i] == after[i] {
      assert Bucket(front, sections, i) + [] == Bucket(front, sections, i);
    }
  }

  function Pairs(subjects: seq<string>, sections: seq<(string, string)>): seq<(nat, string)> {
    if subjects == [] then []
    else
      var last := subjects[|subjects| - 1];
      Pairs(subjects[..|subjects| - 1], sections) + [(Classify(last, sections), Item(last, sections))]
  }

  function TagAll(i: nat, items: seq<string>): seq<(nat, string)> {
    if items == [] then [] else TagAll(i, items[..|items| - 1]) + [(i, items[|items| - 1])]
  }

  /** All buckets' items, each with the number of its bucket. */
  function Tagged(buckets: seq<seq<string>>): seq<(nat, string)> {
    if buckets == [] then []
    else Tagged(buckets[..|buckets| - 1]) + TagAll(|buckets| - 1, buckets[|buckets| - 1])
  }

  lemma TagAllAppend(i: nat, items: seq<string>, item: string)
    ensures TagAll(i, items + [item]) == TagAll(i, items) + [(i, item)]
  {
    assert (items + [item])[..|items|] == items;
  }

  lemma {:induction false} TaggedAppend(buckets: seq<seq<string>>, k: nat, item: string)
    requires k < |buckets|
    ensures multiset(Tagged(buckets[k := buckets[k] + [item]])) == multiset(Tagged(buckets)) + multiset{(k, item)}
  {
    hide TagAll;
    var last := |buckets| - 1;
    var front, buckets' := buckets[..last], buckets[k := buckets[k] + [item]];
    if k == last {
      TagAllAppend(last, buckets[last], item);
      assert buckets'[..last] == front;
      assert Tagged(buckets') == Tagged(buckets) + [(k, item)];
    } else {
      TaggedAppend(front, k, item);
      assert buckets'[..last] == front[k := front[k] + [item]];
    }
  }

  lemma {:induction false} EmptyBuckets(n: nat)
    ensures Tagged(seq(n, i requires 0 <= i => [])) == []
  {
    if n > 0 {
      var buckets: seq<seq<string>> := seq(n, i requires 0 <= i => []);
      assert buckets[..n - 1] == seq(n - 1, i requires 0 <= i => []);
      EmptyBuckets(n - 1);
    }
  }

  /** Every subject is in exactly one bucket, once: nothing is dropped, duplicated or moved. */
  lemma {:induction false} CommitsAreConserved(subjects: seq<string>, sections: seq<(string, string)>)
    ensures multiset(Tagged(Buckets(subjects, sections))) == multiset(Pairs(subjects, sections))
  {
    if subjects == [] {
      EmptyBuckets(|sections| + 1);
      assert Buckets(subjects, sections) == seq(|sections| + 1, i requires 0 <= i => []);
    } else {
      var front, last := subjects[..|subjects| - 1], subjects[|subjects| - 1];
      CommitsAreConserved(front, sections);
      var k, before := Classify(last, sections), Buckets(front, sections);
      BucketsGrow(subjects, sections);
      TaggedAppend(before, k, Item(last, sections));
    }
  }

  // ----- printing, and reading back -----

  function ItemLines(items: seq<string>): seq<string> {
    if items == [] then [] else ItemLines(items[..|items| - 1]) + ["- " + items[|items| - 1]]
  }

  function SectionLines(title: string, items: seq<string>): seq<string> {
    if items == [] then [] else [title + ":"] + ItemLines(items) + [""]
  }

  function PrintedLines(labels: seq<string>, buckets: seq<seq<string>>): seq<string>
    requires |labels| == |buckets|
  {
    if labels == [] then []
    else
      PrintedLines(labels[..|labels| - 1], buckets[..|labels| - 1]) +
      SectionLines(labels[|labels| - 1], buckets[|labels| - 1])
  }

  function Unlines(lines: seq<string>): string {
    if lines == [] then [] else Unlines(lines[..|lines| - 1]) + lines[|lines| - 1] + ['\n']
  }

  lemma {:induction false} UnlinesConcat(a: seq<string>, b: seq<string>)
    ensures Unlines(a + b) == Unlines(a) + Unlines(b)
  {
    if b == [] {
      assert a + b == a;
    } else {
      assert (a + b)[..|a + b| - 1] == a + b[..|b| - 1];
      UnlinesConcat(a, b[..|b| - 1]);
    }
  }

  method ReleaseNotes(log: string) returns (notes: string)
    ensures notes == TrimEnd(Unlines(PrintedLines(Labels(SECTIONS), Buckets(Subjects(LinesOf(log)), SECTIONS))))
  {
    var subjects := Subjects(LinesOf(log));
    var buckets := Group(subjects, SECTIONS);
    var out := PrintAll(Labels(SECTIONS), buckets);
    notes := TrimEnd(out);
  }

  /** Pushes each subject into its bucket, in log order. */
  method Group(subjects: seq<string>, sections: seq<(string, string)>) returns (buckets: seq<seq<string>>)
    ensures buckets == Buckets(subjects, sections)
  {
    buckets := seq(|sections| + 1, i requires 0 <= i => []);
    for n := 0 to |subjects|
      invariant buckets == Buckets(subjects[..n], sections)
    {
      assert subjects[..n + 1][..n] == subjects[..n];
      BucketsGrow(subjects[..n + 1], sections);
      var k := Classify(subjects[n], sections);
      buckets := buckets[k := buckets[k] + [Item(subjects[n], sections)]];
    }
    assert subjects[..|subjects|] == subjects;
  }

  method PrintAll(labels: seq<string>, buckets: seq<seq<string>>) returns (out: string)
    requires |labels| == |buckets|
    ensures out == Unlines(PrintedLines(labels, buckets))
  {
    out := [];
    for i := 0 to |labels|
      invariant out == Unlines(PrintedLines(labels[..i], buckets[..i]))
    {
      assert labels[..i + 1][..i] == labels[..i] && buckets[..i + 1][..i] == buckets[..i];
      UnlinesConcat(PrintedLines(labels[..i], buckets[..i]), SectionLines(labels[i], buckets[i]));
      if buckets[i] != [] {
        var section := PrintSection(labels[i], buckets[i]);
        out := out + section;
      }
    }
    assert labels[..|labels|] == labels && buckets[..|buckets|] == buckets;
  }

  method PrintSection(title: string, items: seq<string>) returns (out: string)
    requires items != []
    ensures out == Unlines(SectionLines(title, items))
  {
    out := title + ":\n";
    var heading := [title + ":"];
    assert Unlines(heading) == [] + (title + ":") + ['\n'] == out;
    for k := 0 to |items|
      invariant out == Unlines(heading + ItemLines(items[..k]))
    {
      assert items[..k + 1][..k] == items[..k];
      var lines := heading + ItemLines(items[..k]);
      assert heading + ItemLines(items[..k + 1]) == lines + ["- " + items[k]];
      assert (lines + ["- " + items[k]])[..|lines|] == lines;
      out := out + ("- " + items[k]) + ['\n'];
    }
    assert items[..|items|] == items;
    var lines := heading + ItemLines(items);
    assert (lines + [""])[..|lines|] == lines;
    assert Unlines(lines + [""]) == out + "" + ['\n'];
    out := out + ['\n'];
  }

  /** Reads printed notes: an item belongs to the heading last seen. */
  function ReadItems(lines: seq<string>): seq<(string, string)> {
    if lines == [] then []
    else
      var last := lines[|lines| - 1];
      var before := ReadItems(lines[..|lines| - 1]);
      if "- " <= last then before + [(LastHeading(lines[..|lines| - 1]), last[2..])] else before
  }

  function LastHeading(lines: seq<string>): string {
    if lines == [] then []
    else
      var last := lines[|lines| - 1];
      if last != [] && !("- " <= last) then last[..|last| - 1] else LastHeading(lines[..|lines| - 1])
  }

  function Labelled(labels: seq<string>, buckets: seq<seq<string>>): seq<(string, string)>
    requires |labels| == |buckets|
  {
    if labels == [] then []
    else Labelled(labels[..|labels| - 1], buckets[..|labels| - 1]) + Label(labels[|labels| - 1], buckets[|labels| - 1])
  }

  function Label(title: string, items: seq<string>): seq<(string, string)> {
    if items == [] then [] else Label(title, items[..|items| - 1]) + [(title, items[|items| - 1])]
  }

  lemma HeadingReads(before: seq<string>, title: string)
    requires title != [] && title[0] != '-'
    ensures var lines := before + [title + ":"]; ReadItems(lines) == ReadItems(before) && LastHeading(lines) == title
  {
    var lines := before + [title + ":"];
    assert lines[..|lines| - 1] == before;
    assert (title + ":")[0] == title[0] && (title + ":")[..|title|] == title;
  }

  lemma ItemReads(before: seq<string>, item: string)
    ensures var lines := before + ["- " + item];
            ReadItems(lines) == ReadItems(before) + [(LastHeading(before), item)] &&
            LastHeading(lines) == LastHeading(before)
  {
    var lines := before + ["- " + item];
    assert lines[..|lines| - 1] == before && ("- " + item)[2..] == item;
  }

  lemma {:induction false} ReadSection(before: seq<string>, title: string, items: seq<string>)
    requires title != [] && title[0] != '-'
    ensures var lines := before + [title + ":"] + ItemLines(items);
            ReadItems(lines) == ReadItems(before) + Label(title, items) && LastHeading(lines) == title
  {
    hide ReadItems, LastHeading;
    var headed := before + [title + ":"];
    if items == [] {
      HeadingReads(before, title);
      assert headed + [] == headed;
    } else {
      var front, last := items[..|items| - 1], items[|items| - 1];
      ReadSection(before, title, front);
      ItemReads(headed + ItemLines(front), last);
      assert headed + ItemLines(items) == headed + ItemLines(front) + ["- " + last];
    }
  }

  lemma BlankLineReadsNothing(lines: seq<string>)
    ensures ReadItems(lines + [""]) == ReadItems(lines)
  {
    assert (lines + [""])[..|lines|] == lines;
  }

  lemma ReadMore(before: seq<string>, title: string, items: seq<string>)
    requires title != [] && title[0] != '-'
    ensures ReadItems(before + SectionLines(title, items)) == ReadItems(before) + Label(title, items)
  {
    hide ReadItems, LastHeading, ItemLines;
    if items == [] {
      assert before + [] == before;
    } else {
      ReadSection(before, title, items);
      BlankLineReadsNothing(before + [title + ":"] + ItemLines(items));
      assert before + SectionLines(title, items) == before + [title + ":"] + ItemLines(items) + [""];
    }
  }

  /** What is printed reads back as the buckets, under their headings, each item once and in order. */
  lemma {:induction false} PrintedReadsBack(labels: seq<string>, buckets: seq<seq<string>>)
    requires |labels| == |buckets|
    requires forall i :: 0 <= i < |labels| ==> IsLabel(labels[i])
    ensures ReadItems(PrintedLines(labels, buckets)) == Labelled(labels, buckets)
  {
    if labels != [] {
      var n := |labels| - 1;
      PrintedReadsBack(labels[..n], buckets[..n]);
      ReadMore(PrintedLines(labels[..n], buckets[..n]), labels[n], buckets[n]);
    }
  }

  // ----- the text itself -----

  /** Lines that a newline ends and a carriage return does not. */
  predicate IsCleanLine(line: string) {
    '\n' !in line && StripCr(line) == line
  }

  lemma {:induction false} LinesOfConcat(front: seq<string>, rest: string)
    requires AreClean(front)
    ensures LinesOf(Unlines(front) + rest) == front + LinesOf(rest)
  {
    if front == [] {
      assert Unlines(front) + rest == rest;
    } else {
      var n := |front| - 1;
      assert Unlines(front) + rest == Unlines(front[..n]) + (front[n] + ['\n'] + rest);
      LinesOfConcat(front[..n], front[n] + ['\n'] + rest);
      LinesOfFirst(front[n], rest);
      assert front == front[..n] + [front[n]];
    }
  }

  lemma TrimIsClean(line: string)
    requires '\n' !in line
    ensures IsCleanLine(Trim(line)) && IsCleanItem(Trim(line))
  {
    hide TrimStart, TrimEnd;
    var before := TrimStartSplits(line);
    var after := TrimEndSplits(TrimStart(line));
    var core := Trim(line);
    assert line == before + core + after;
    assert forall k :: 0 <= k < |core| ==> core[k] == line[|before| + k];
    InkIsClean(core);
  }

  lemma InkIsClean(text: string)
    requires '\n' !in text && EndsInInk(text)
    ensures IsCleanLine(text) && IsCleanItem(text)
  {
    assert ("- " + text)[|text| + 1] == if text == [] then ' ' else text[|text| - 1];
  }

  lemma {:induction false} SubjectsAreLines(lines: seq<string>)
    requires forall i :: 0 <= i < |lines| ==> '\n' !in lines[i]
    ensures forall i :: 0 <= i < |Subjects(lines)| ==>
            '\n' !in Subjects(lines)[i] && Trim(Subjects(lines)[i]) == Subjects(lines)[i]
  {
    if lines != [] {
      SubjectsAreLines(lines[1..]);
      TrimIsClean(lines[0]);
      TrimTwice(lines[0]);
    }
  }

  lemma TrimTwice(text: string)
    ensures Trim(Trim(text)) == Trim(text)
  {
    var before := TrimStartSplits(text);
    var after := TrimEndSplits(TrimStart(text));
    var core := Trim(text);
    if core != [] {
      assert TrimStart(text) == core + after;
      assert core[0] == TrimStart(text)[0];
      TrimCore([], core, []);
      assert [] + core + [] == core;
    }
  }

  ghost predicate AreClean(lines: seq<string>) {
    forall k :: 0 <= k < |lines| ==> IsCleanLine(lines[k])
  }

  predicate EndsInInk(text: string) {
    text != [] ==> !IsWhitespace(text[|text| - 1])
  }

  /** An item as it is printed: one line, with nothing at its end that trimming could take. */
  predicate IsCleanItem(item: string) {
    IsCleanLine("- " + item) && EndsInInk(item) && '\n' !in item
  }

  ghost predicate AreCleanItems(items: seq<string>) {
    forall k :: 0 <= k < |items| ==> IsCleanItem(items[k])
  }

  lemma {:induction false} BucketItemsAreClean(subjects: seq<string>, sections: seq<(string, string)>, i: nat)
    requires forall k :: 0 <= k < |subjects| ==> '\n' !in subjects[k] && Trim(subjects[k]) == subjects[k]
    ensures AreCleanItems(Bucket(subjects, sections, i))
  {
    if subjects != [] {
      var last := subjects[|subjects| - 1];
      BucketItemsAreClean(subjects[..|subjects| - 1], sections, i);
      var k := Classify(last, sections);
      TrimIsClean(last);
      if k < |sections| {
        TrimIsClean(last[|sections[k].0| + 1..]);
      }
    }
  }

  lemma {:induction false} ItemLinesAreClean(items: seq<string>)
    requires AreCleanItems(items)
    ensures AreClean(ItemLines(items))
  {
    if items != [] {
      ItemLinesAreClean(items[..|items| - 1]);
    }
  }

  lemma SectionLinesAreClean(title: string, items: seq<string>)
    requires IsLabel(title) && AreCleanItems(items)
    ensures AreClean(SectionLines(title, items))
  {
    ItemLinesAreClean(items);
    assert IsCleanLine("");
  }

  lemma {:induction false} PrintedLinesAreClean(labels: seq<string>, buckets: seq<seq<string>>)
    requires |labels| == |buckets|
    requires forall i :: 0 <= i < |labels| ==> IsLabel(labels[i])
    requires forall i :: 0 <= i < |buckets| ==> AreCleanItems(buckets[i])
    ensures AreClean(PrintedLines(labels, buckets))
  {
    hide IsLabel, AreCleanItems, SectionLines;
    if labels != [] {
      var n := |labels| - 1;
      PrintedLinesAreClean(labels[..n], buckets[..n]);
      SectionLinesAreClean(labels[n], buckets[n]);
    }
  }

  lemma KnownLabels()
    ensures forall i :: 0 <= i < |Labels(SECTIONS)| ==> IsLabel(Labels(SECTIONS)[i])
  {
    forall i | 0 <= i < |SECTIONS| ensures IsLabel(SECTIONS[i].1) {
    }
    assert IsLabel(OTHER);
  }

  predicate IsLabel(title: string) {
    title != [] && title[0] != '-' && IsCleanLine(title + ":")
  }

  ghost predicate ReadsAs(text: string, items: seq<(string, string)>) {
    ReadItems(LinesOf(text)) == items
  }

  // ----- and its trimmed end -----

  /** The lines that are printed, but for the blank one after the last section. */
  function Body(labels: seq<string>, buckets: seq<seq<string>>): seq<string>
    requires |labels| == |buckets|
  {
    if labels == [] then []
    else
      var n := |labels| - 1;
      if buckets[n] == [] then Body(labels[..n], buckets[..n])
      else PrintedLines(labels[..n], buckets[..n]) + [labels[n] + ":"] + ItemLines(buckets[n])
  }

  lemma SectionEnds(title: string, items: seq<string>)
    requires items != []
    ensures var lines, labelled := [title + ":"] + ItemLines(items), Label(title, items);
            labelled != [] && labelled[|labelled| - 1].1 == items[|items| - 1] &&
            lines[|lines| - 1] == "- " + items[|items| - 1]
  {
  }

  lemma SkipsAnEmptySection(labels: seq<string>, buckets: seq<seq<string>>)
    requires |labels| == |buckets| && labels != [] && buckets[|labels| - 1] == []
    ensures var n := |labels| - 1;
            Body(labels, buckets) == Body(labels[..n], buckets[..n]) &&
            PrintedLines(labels, buckets) == PrintedLines(labels[..n], buckets[..n]) &&
            Labelled(labels, buckets) == Labelled(labels[..n], buckets[..n])
  {
    var n := |labels| - 1;
    assert PrintedLines(labels, buckets) == PrintedLines(labels[..n], buckets[..n]) + [];
    assert Labelled(labels, buckets) == Labelled(labels[..n], buckets[..n]) + [];
  }

  lemma LastOfConcat<T>(front: seq<T>, rest: seq<T>)
    requires rest != []
    ensures (front + rest)[|front + rest| - 1] == rest[|rest| - 1]
  {
  }

  lemma EndsInASection(labels: seq<string>, buckets: seq<seq<string>>)
    requires |labels| == |buckets| && labels != [] && buckets[|labels| - 1] != []
    ensures IsBodyOf(labels, buckets)
  {
    var n := |labels| - 1;
    var before, items := PrintedLines(labels[..n], buckets[..n]), Labelled(labels[..n], buckets[..n]);
    var section, more := [labels[n] + ":"] + ItemLines(buckets[n]), Label(labels[n], buckets[n]);
    SectionEnds(labels[n], buckets[n]);
    var printed, labelled := PrintedLines(labels, buckets), Labelled(labels, buckets);
    assert printed == before + (section + [""]) && labelled == items + more &&
           Body(labels, buckets) == before + section by {
      hide ItemLines, Label;
      assert before + (section + [""]) == before + ([labels[n] + ":"] + ItemLines(buckets[n]) + [""]);
      assert before + section == before + [labels[n] + ":"] + ItemLines(buckets[n]);
    }
    hide PrintedLines, Labelled, Body, ItemLines, Label;
    assert before + (section + [""]) == before + section + [""];
    LastOfConcat(before, section);
    LastOfConcat(items, more);
  }

  /** The printed lines are the body and a blank line, and the body's last line is the last item. */
  ghost predicate IsBodyOf(labels: seq<string>, buckets: seq<seq<string>>)
    requires |labels| == |buckets|
  {
    var items, body := Labelled(labels, buckets), Body(labels, buckets);
    if items == [] then PrintedLines(labels, buckets) == []
    else PrintedLines(labels, buckets) == body + [""] &&
         body != [] && body[|body| - 1] == "- " + items[|items| - 1].1
  }

  lemma {:induction false} BodyIsPrinted(labels: seq<string>, buckets: seq<seq<string>>)
    requires |labels| == |buckets|
    ensures IsBodyOf(labels, buckets)
  {
    if labels != [] {
      hide Body, PrintedLines, Labelled;
      var n := |labels| - 1;
      if buckets[n] != [] {
        EndsInASection(labels, buckets);
      } else {
        BodyIsPrinted(labels[..n], buckets[..n]);
        SkipsAnEmptySection(labels, buckets);
      }
    }
  }

  lemma {:induction false} LastItemIsClean(labels: seq<string>, buckets: seq<seq<string>>)
    requires |labels| == |buckets|
    requires forall i :: 0 <= i < |buckets| ==> AreCleanItems(buckets[i])
    ensures var items := Labelled(labels, buckets); items != [] ==> IsCleanItem(items[|items| - 1].1)
  {
    if labels != [] {
      var n := |labels| - 1;
      LastItemIsClean(labels[..n], buckets[..n]);
      if buckets[n] == [] {
        assert Labelled(labels, buckets) == Labelled(labels[..n], buckets[..n]) + [];
      } else {
        assert AreCleanItems(buckets[n]) && IsCleanItem(buckets[n][|buckets[n]| - 1]);
      }
    }
  }

  /** Trimming a text that ends in an item line takes the line endings, and a bare dash's space. */
  lemma TrimmedEnd(front: string, item: string)
    requires IsCleanItem(item)
    ensures TrimEnd(front + ("- " + item) + ['\n'] + "" + ['\n']) == front + if item == [] then "-" else "- " + item
  {
    var text := front + if item == [] then "-" else "- " + item;
    var ending := if item == [] then [' ', '\n', '\n'] else ['\n', '\n'];
    assert front + ("- " + item) + ['\n'] + "" + ['\n'] == text + ending;
    TrimEndOf(text, ending);
    assert text[|text| - 1] == if item == [] then '-' else item[|item| - 1];
  }

  lemma LastLineReads(front: seq<string>, item: string, items: seq<(string, string)>)
    requires AreClean(front) && IsCleanItem(item) && items != []
    requires ReadItems(front + ["- " + item]) == items
    ensures ReadsAs(Unlines(front) + if item == [] then "-" else "- " + item, items) <==> item != []
  {
    var line := if item == [] then "-" else "- " + item;
    LinesOfConcat(front, line);
    BeforeConcat(line, [], '\n');
    assert line + [] == line && LinesOf(line) == [line];
    assert (front + [line])[..|front|] == front && (front + ["- " + item])[..|front|] == front;
  }

  lemma TrimmedTextReadsBack(labels: seq<string>, buckets: seq<seq<string>>)
    requires |labels| == |buckets|
    requires forall i :: 0 <= i < |labels| ==> IsLabel(labels[i])
    requires forall i :: 0 <= i < |buckets| ==> AreCleanItems(buckets[i])
    requires AreClean(PrintedLines(labels, buckets))
    ensures var items := Labelled(labels, buckets);
            ReadsAs(TrimEnd(Unlines(PrintedLines(labels, buckets))), items) <==>
            items == [] || items[|items| - 1].1 != []
  {
    hide PrintedLines, Labelled, Body, IsLabel, IsCleanItem, AreCleanItems, IsCleanLine, ReadItems, TrimEnd, LinesOf;
    var lines, items := PrintedLines(labels, buckets), Labelled(labels, buckets);
    PrintedReadsBack(labels, buckets);
    BodyIsPrinted(labels, buckets);
    if items == [] {
      NothingReadsBack();
    } else {
      LastItemIsClean(labels, buckets);
      var body, item := Body(labels, buckets), items[|items| - 1].1;
      var front := body[..|body| - 1];
      assert body == front + ["- " + item];
      assert lines[..|lines| - 1] == body;
      assert forall k :: 0 <= k < |front| ==> front[k] == lines[k];
      BlankLineReadsNothing(body);
      TrimmedEnd(Unlines(front), item);
      LastLineReads(front, item, items);
    }
  }

  lemma NothingReadsBack()
    ensures ReadsAs(TrimEnd(Unlines([])), [])
  {
  }

  lemma NotesAreClean(log: string)
    ensures forall i :: 0 <= i <= |SECTIONS| ==> AreCleanItems(Buckets(Subjects(LinesOf(log)), SECTIONS)[i])
    ensures AreClean(PrintedLines(Labels(SECTIONS), Buckets(Subjects(LinesOf(log)), SECTIONS)))
  {
    var subjects := Subjects(LinesOf(log));
    var buckets := Buckets(subjects, SECTIONS);
    LinesOfAreLines(log);
    SubjectsAreLines(LinesOf(log));
    forall i | 0 <= i < |buckets| ensures AreCleanItems(buckets[i]) {
      BucketItemsAreClean(subjects, SECTIONS, i);
    }
    KnownLabels();
    PrintedLinesAreClean(Labels(SECTIONS), buckets);
  }

  /**
   * The notes for a log read back, line by line, as exactly the buckets of its subjects
   * under their headings, each in log order, except when the last item printed is empty:
   * trimming the text then turns its line into a bare dash.
   */
  lemma NotesReadBackExactly(log: string)
    ensures var buckets := Buckets(Subjects(LinesOf(log)), SECTIONS);
            var items := Labelled(Labels(SECTIONS), buckets);
            ReadsAs(TrimEnd(Unlines(PrintedLines(Labels(SECTIONS), buckets))), items) <==>
            items == [] || items[|items| - 1].1 != []
  {
    hide LinesOf, Subjects, Bucket, PrintedLines, Labelled, ReadsAs, TrimEnd, Unlines, IsLabel, AreCleanItems;
    KnownLabels();
    NotesAreClean(log);
    TrimmedTextReadsBack(Labels(SECTIONS), Buckets(Subjects(LinesOf(log)), SECTIONS));
  }

  // ----- an empty last item -----

  lemma {:induction false} NothingLabelled(labels: seq<string>, buckets: seq<seq<string>>)
    requires |labels| == |buckets| && forall i :: 0 <= i < |buckets| ==> buckets[i] == []
    ensures Labelled(labels, buckets) == []
  {
    if labels != [] {
      NothingLabelled(labels[..|labels| - 1], buckets[..|labels| - 1]);
    }
  }

  lemma {:induction false} OneLabelled(labels: seq<string>, buckets: seq<seq<string>>, k: nat, item: string)
    requires |labels| == |buckets| && k < |buckets| && buckets[k] == [item]
    requires forall i :: 0 <= i < |buckets| && i != k ==> buckets[i] == []
    ensures Labelled(labels, buckets) == [(labels[k], item)]
  {
    var n := |labels| - 1;
    if k == n {
      NothingLabelled(labels[..n], buckets[..n]);
      assert [item][..0] == [] && Label(labels[n], []) == [];
      assert Label(labels[n], buckets[n]) == [(labels[n], item)];
    } else {
      OneLabelled(labels[..n], buckets[..n], k, item);
    }
  }

  /** A log of one commit without a description shows that it happens. */
  lemma ALoneTypeIsLost()
    ensures Labelled(Labels(SECTIONS), Buckets(Subjects(LinesOf("feat:")), SECTIONS)) == [("Features", "")]
    ensures !ReadsAs(TrimEnd(Unlines(PrintedLines(Labels(SECTIONS), Buckets(Subjects(LinesOf("feat:")), SECTIONS)))),
                     [("Features", "")])
  {
    hide *;
    OneSubject();
    FeatHasNoText();
    BucketsOfOne("feat:", SECTIONS);
    LabelsFit();
    OneLabelled(Labels(SECTIONS), Buckets(["feat:"], SECTIONS), 0, "");
    NotesReadBackExactly("feat:");
  }

  lemma LabelsFit()
    ensures |Labels(SECTIONS)| == |SECTIONS| + 1 && Labels(SECTIONS)[0] == "Features"
  {
  }

  lemma FeatHasNoText()
    ensures Classify("feat:", SECTIONS) == 0 && Item("feat:", SECTIONS) == ""
  {
    assert SECTIONS[0].0 + ":" == "feat:" && "feat:"[5..] == [];
  }

  lemma BucketsOfOne(subject: string, sections: seq<(string, string)>)
    ensures |Buckets([subject], sections)| == |sections| + 1
    ensures forall i :: 0 <= i <= |sections| ==>
            Buckets([subject], sections)[i] ==
              if i == Classify(subject, sections) then [Item(subject, sections)] else []
  {
    assert [subject][..0] == [];
    forall i | 0 <= i <= |sections|
      ensures Bucket([subject], sections, i) ==
              if i == Classify(subject, sections) then [Item(subject, sections)] else []
    {
      assert Bucket([], sections, i) == [];
    }
  }

  lemma OneSubject()
    ensures Subjects(LinesOf("feat:")) == ["feat:"]
  {
    OneLine("feat:");
    TrimCore([], "feat:", []);
    assert [] + "feat:" + [] == "feat:";
    hide LinesOf, Trim;
    assert ["feat:"][1..] == [];
  }

  lemma OneLine(line: string)
    requires line != [] && '\n' !in line
    ensures LinesOf(line) == [line]
  {
    BeforeConcat(line, [], '\n');
    assert line + [] == line;
  }
}
