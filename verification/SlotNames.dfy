/** Names of release slots, how they are numbered and how they are found again. */
module SlotNames {
  import opened Outcomes
  import opened Decimals
  import opened Text

  /** `{prefix}-{generation}`, with the source's extension if it has one. */
  function SlotName(prefix: string, generation: nat, extension: Option<string>): string {
    prefix + "-" + Digits(generation) + if extension.Some? then "." + extension.value else ""
  }

  function StripPrefix(text: string, prefix: string): Option<string> {
    if prefix <= text then Some(text[|prefix|..]) else None
  }

  /** The generation a directory entry counts for under `prefix`, if it is a slot at all. */
  function ParseSlot(prefix: string, name: string): Option<nat> {
    match StripPrefix(name, prefix)
    case None => None
    case Some(dashed) =>
      match StripPrefix(dashed, "-")
      case None => None
      case Some(rest) => ParseU64(Before(rest, '.'))
  }

  /** A slot's name parses back to its generation, whatever its extension. */
  lemma ParseSlotName(prefix: string, generation: nat, extension: Option<string>)
    requires generation < U64_LIMIT
    ensures ParseSlot(prefix, SlotName(prefix, generation, extension)) == Some(generation)
  {
    var digits := Digits(generation);
    var tail := if extension.Some? then "." + extension.value else "";
    var name := SlotName(prefix, generation, extension);
    assert name[|prefix|..] == "-" + (digits + tail);
    assert name[|prefix|..][1..] == digits + tail;
    assert prefix <= name;
    BeforeConcat(digits, tail, '.');
    assert digits + [] == digits;
    ParseDigits(generation);
  }

  /** The file name in pieces: prefix, dash, number, and nothing or a dot and anything. */
  ghost predicate IsSlotNamed(prefix: string, name: string, number: string, tail: string) {
    name == prefix + "-" + number + tail && '.' !in number && (tail == [] || tail[0] == '.')
  }

  /** A name is a slot exactly when it is made of those pieces and the number parses. */
  lemma ParseSlotExactly(prefix: string, name: string, generation: nat)
    ensures ParseSlot(prefix, name) == Some(generation) <==>
            exists number, tail :: IsSlotNamed(prefix, name, number, tail) && ParseU64(number) == Some(generation)
  {
    if ParseSlot(prefix, name) == Some(generation) {
      SlotHasPieces(prefix, name);
    }
    if number, tail :| IsSlotNamed(prefix, name, number, tail) && ParseU64(number) == Some(generation) {
      PiecesParse(prefix, name, number, tail);
    }
  }

  lemma SlotHasPieces(prefix: string, name: string)
    requires ParseSlot(prefix, name).Some?
    ensures exists number, tail :: IsSlotNamed(prefix, name, number, tail) &&
                                   ParseU64(number) == ParseSlot(prefix, name)
  {
    hide ParseU64;
    var rest := name[|prefix|..][1..];
    var tail := BeforeSplits(rest, '.');
    assert name == prefix + name[|prefix|..] && name[|prefix|..] == "-" + rest;
    assert IsSlotNamed(prefix, name, Before(rest, '.'), tail);
  }

  lemma PiecesParse(prefix: string, name: string, number: string, tail: string)
    requires IsSlotNamed(prefix, name, number, tail)
    ensures ParseSlot(prefix, name) == ParseU64(number)
  {
    hide ParseU64;
    assert name == prefix + ("-" + (number + tail));
    assert prefix <= name && name[|prefix|..] == "-" + (number + tail);
    assert name[|prefix|..][1..] == number + tail;
    BeforeConcat(number, tail, '.');
  }

  /** A slot is named by its number without leading zeros. */
  lemma SlotNameIsCanonical(prefix: string, generation: nat, extension: Option<string>)
    requires generation < U64_LIMIT
    ensures exists digits :: SlotName(prefix, generation, extension) ==
              prefix + "-" + digits + (match extension case Some(e) => "." + e case None => "") &&
              AllDigits(digits) && Value(digits) == generation && (|digits| > 1 ==> digits[0] != '0')
  {
    ValueOfDigits(generation);
    DigitsAreCanonical(generation);
    var digits := Digits(generation);
    assert SlotName(prefix, generation, extension) ==
           prefix + "-" + digits + (match extension case Some(e) => "." + e case None => "");
  }

  /** The two prefixes in use never claim each other's files. */
  lemma PrefixesAreSeparate(name: string)
    ensures ParseSlot("dev", name).None? || ParseSlot("release", name).None?
  {
    assert "dev" <= name ==> name[0] == 'd';
    assert "release" <= name ==> name[0] == 'r';
  }

  // ----- the listing, sorted by generation -----

  type Slot = (nat, string)

  function SlotsOf(names: seq<string>, prefix: string): seq<Slot> {
    if names == [] then []
    else
      (match ParseSlot(prefix, names[0])
       case Some(generation) => [(generation, names[0])]
       case None => []) + SlotsOf(names[1..], prefix)
  }

  function InsertDescending(slot: Slot, sorted: seq<Slot>): seq<Slot> {
    if sorted == [] || sorted[0].0 <= slot.0 then [slot] + sorted
    else [sorted[0]] + InsertDescending(slot, sorted[1..])
  }

  /** A stable sort, highest generation first. */
  function SortDescending(slots: seq<Slot>): seq<Slot> {
    if slots == [] then [] else InsertDescending(slots[0], SortDescending(slots[1..]))
  }

  /** Every slot among `names`, the entries of the directory in whatever order it lists them. */
  function ExistingGenerations(names: seq<string>, prefix: string): seq<Slot> {
    SortDescending(SlotsOf(names, prefix))
  }

  predicate Descending(slots: seq<Slot>) {
    forall i, j :: 0 <= i < j < |slots| ==> slots[i].0 >= slots[j].0
  }

  lemma {:induction false} InsertIsPermutation(slot: Slot, sorted: seq<Slot>)
    ensures multiset(InsertDescending(slot, sorted)) == multiset{slot} + multiset(sorted)
  {
    if !(sorted == [] || sorted[0].0 <= slot.0) {
      InsertIsPermutation(slot, sorted[1..]);
      assert sorted == [sorted[0]] + sorted[1..];
    }
  }

  lemma {:induction false} InsertKeepsDescending(slot: Slot, sorted: seq<Slot>)
    requires Descending(sorted)
    ensures Descending(InsertDescending(slot, sorted))
  {
    if !(sorted == [] || sorted[0].0 <= slot.0) {
      InsertKeepsDescending(slot, sorted[1..]);
      InsertIsPermutation(slot, sorted[1..]);
      var rest := InsertDescending(slot, sorted[1..]);
      forall j | 0 <= j < |rest| ensures sorted[0].0 >= rest[j].0 {
        assert rest[j] in multiset(rest);
        assert rest[j] == slot || rest[j] in sorted[1..];
      }
    }
  }

  lemma {:induction false} SortSorts(slots: seq<Slot>)
    ensures Descending(SortDescending(slots))
    ensures multiset(SortDescending(slots)) == multiset(slots)
  {
    if slots != [] {
      SortSorts(slots[1..]);
      InsertKeepsDescending(slots[0], SortDescending(slots[1..]));
      InsertIsPermutation(slots[0], SortDescending(slots[1..]));
      assert slots == [slots[0]] + slots[1..];
    }
  }

  lemma {:induction false} SlotsOfIsComplete(names: seq<string>, prefix: string, slot: Slot)
    ensures slot in SlotsOf(names, prefix) <==> slot.1 in names && ParseSlot(prefix, slot.1) == Some(slot.0)
  {
    if names != [] {
      SlotsOfIsComplete(names[1..], prefix, slot);
    }
  }

  /** The result is in descending order and holds exactly the slots on disk. */
  lemma ExistingGenerationsIsExact(names: seq<string>, prefix: string)
    ensures Descending(ExistingGenerations(names, prefix))
    ensures forall slot :: slot in ExistingGenerations(names, prefix) <==>
            slot.1 in names && ParseSlot(prefix, slot.1) == Some(slot.0)
  {
    var slots := SlotsOf(names, prefix);
    SortSorts(slots);
    forall slot: Slot
      ensures slot in ExistingGenerations(names, prefix) <==>
              slot.1 in names && ParseSlot(prefix, slot.1) == Some(slot.0)
    {
      SlotsOfIsComplete(names, prefix, slot);
      assert slot in slots <==> slot in multiset(slots);
      assert slot in SortDescending(slots) <==> slot in multiset(SortDescending(slots));
    }
  }

  // ----- numbering -----

  /** One past the highest generation on disk, as a release build's 64-bit addition computes it. */
  function NextGeneration(names: seq<string>, prefix: string): nat {
    var existing := ExistingGenerations(names, prefix);
    if existing == [] then 1 else (existing[0].0 + 1) % U64_LIMIT
  }

  function SaturatingSub(x: nat, y: nat): nat {
    if x < y then 0 else x - y
  }

  /** Where a new `xr dev` session starts counting. */
  function StartingGeneration(names: seq<string>): nat {
    SaturatingSub(NextGeneration(names, "dev"), 1)
  }

  /** No slot of the prefix has used up the last 64-bit number. */
  ghost predicate HasRoom(names: seq<string>, prefix: string) {
    forall name :: name in names ==> ParseSlot(prefix, name) != Some(U64_LIMIT - 1)
  }

  lemma ParsedGenerationsFit(prefix: string, name: string)
    ensures ParseSlot(prefix, name).Some? ==> ParseSlot(prefix, name).value < U64_LIMIT
  {
  }

  /** The next number is above every slot on disk exactly when the last number is unused. */
  lemma NextGenerationIsFreshExactly(names: seq<string>, prefix: string)
    ensures (forall name :: name in names && ParseSlot(prefix, name).Some? ==>
               ParseSlot(prefix, name).value < NextGeneration(names, prefix))
            <==> HasRoom(names, prefix)
  {
    ExistingGenerationsIsExact(names, prefix);
    var existing := ExistingGenerations(names, prefix);
    forall name | name in names && ParseSlot(prefix, name).Some?
      ensures existing != [] && ParseSlot(prefix, name).value <= existing[0].0
    {
      var slot := (ParseSlot(prefix, name).value, name);
      assert slot in existing;
      var i :| 0 <= i < |existing| && existing[i] == slot;
    }
    if existing != [] {
      assert existing[0] in existing;
      ParsedGenerationsFit(prefix, existing[0].1);
    }
  }

  /** When it is used, numbering starts again from zero. */
  lemma TheLastNumberWraps(prefix: string)
    ensures NextGeneration([SlotName(prefix, U64_LIMIT - 1, None)], prefix) == 0
  {
    var name := SlotName(prefix, U64_LIMIT - 1, None);
    ParseSlotName(prefix, U64_LIMIT - 1, None);
    ExistingGenerationsIsExact([name], prefix);
    var existing := ExistingGenerations([name], prefix);
    assert (U64_LIMIT - 1, name) in existing;
    assert existing[0] in existing;
  }

  lemma FullNumberingWraps(names: seq<string>, prefix: string)
    requires !HasRoom(names, prefix)
    ensures NextGeneration(names, prefix) == 0
  {
    hide ParseSlot, ExistingGenerations;
    ExistingGenerationsIsExact(names, prefix);
    var existing := ExistingGenerations(names, prefix);
    var name :| name in names && ParseSlot(prefix, name) == Some(U64_LIMIT - 1);
    assert (U64_LIMIT - 1, name) in existing;
    var i :| 0 <= i < |existing| && existing[i] == (U64_LIMIT - 1, name);
    assert existing[0] in existing;
    ParsedGenerationsFit(prefix, existing[0].1);
  }

  lemma NextGenerationHasPredecessor(names: seq<string>, prefix: string)
    ensures NextGeneration(names, prefix) > 1 ==>
            exists name :: name in names && ParseSlot(prefix, name) == Some(NextGeneration(names, prefix) - 1)
  {
    hide ParseSlot, ExistingGenerations;
    ExistingGenerationsIsExact(names, prefix);
    var existing := ExistingGenerations(names, prefix);
    if existing != [] {
      assert existing[0] in existing;
      ParsedGenerationsFit(prefix, existing[0].1);
    }
  }

  /**
   * A session starts at the highest `dev` slot on disk, so that its next slot is above them
   * all, exactly when the last 64-bit number is unused.
   */
  lemma SessionStartsAtTheMaximum(names: seq<string>)
    ensures (forall name :: name in names && ParseSlot("dev", name).Some? ==>
               ParseSlot("dev", name).value <= StartingGeneration(names))
            <==> HasRoom(names, "dev")
    ensures StartingGeneration(names) > 0 ==>
            exists name :: name in names && ParseSlot("dev", name) == Some(StartingGeneration(names))
  {
    hide ParseSlot, ExistingGenerations;
    NextGenerationIsFreshExactly(names, "dev");
    if !HasRoom(names, "dev") {
      FullNumberingWraps(names, "dev");
      assert StartingGeneration(names) == 0;
    }
    NextGenerationHasPredecessor(names, "dev");
  }
}
