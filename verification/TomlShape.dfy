/**
 * As much of TOML as it takes to tell separators from the text of comments and strings:
 * the entries of an array and the keys of an inline table.
 */
module TomlShape {
  import opened Text

  /** What a character is part of, given the characters before it. */
  datatype Mode = Code | Comment | Basic | Escape | Literal

  function Turn(mode: Mode, c: char): Mode {
    match mode
    case Code => if c == '#' then Comment else if c == '"' then Basic else if c == '\'' then Literal else Code
    case Comment => if c == '\n' then Code else Comment
    case Basic => if c == '\\' then Escape else if c == '"' then Code else Basic
    case Escape => Basic
    case Literal => if c == '\'' then Code else Literal
  }

  function ModeAfter(text: string, mode: Mode): Mode {
    if text == [] then mode else ModeAfter(text[1..], Turn(mode, text[0]))
  }

  /** A character of the skeleton: none for a comment, an `x` for one inside a string. */
  function Kept(mode: Mode, c: char): string {
    match mode
    case Code => if c == '#' then [] else [c]
    case Comment => if c == '\n' then [c] else []
    case _ => if Turn(mode, c).Code? then [c] else ['x']
  }

  /** The text without its comments and with the strings in it blanked out. */
  function Skeleton(text: string, mode: Mode): string {
    if text == [] then [] else Kept(mode, text[0]) + Skeleton(text[1..], Turn(mode, text[0]))
  }

  lemma {:induction false} ShapeConcat(a: string, b: string, mode: Mode)
    ensures ModeAfter(a + b, mode) == ModeAfter(b, ModeAfter(a, mode))
    ensures Skeleton(a + b, mode) == Skeleton(a, mode) + Skeleton(b, ModeAfter(a, mode))
  {
    if a == [] {
      assert a + b == b;
    } else {
      assert (a + b)[1..] == a[1..] + b;
      ShapeConcat(a[1..], b, Turn(mode, a[0]));
    }
  }

  // ----- names and quotes -----

  /** Text that opens no string and no comment and ends no line. */
  predicate IsBare(text: string) {
    forall i :: 0 <= i < |text| ==>
      text[i] != '"' && text[i] != '\'' && text[i] != '#' && text[i] != '\\' && text[i] != '\n'
  }

  /** Text that can stand between double quotes as it is. */
  predicate IsQuotable(text: string) {
    forall i :: 0 <= i < |text| ==> text[i] != '"' && text[i] != '\\' && text[i] != '\n'
  }

  function Blanked(text: string): string {
    seq(|text|, i requires 0 <= i < |text| => 'x')
  }

  lemma {:induction false} BareShape(text: string, mode: Mode)
    requires IsBare(text) && !mode.Escape?
    ensures ModeAfter(text, mode) == mode
    ensures mode.Code? ==> Skeleton(text, mode) == text
  {
    if text != [] {
      BareShape(text[1..], mode);
    }
  }

  lemma {:induction false} InsideQuotes(text: string)
    requires IsQuotable(text)
    ensures ModeAfter(text, Basic) == Basic && Skeleton(text, Basic) == Blanked(text)
  {
    if text != [] {
      InsideQuotes(text[1..]);
      assert Blanked(text) == ['x'] + Blanked(text[1..]);
    }
  }

  lemma OneQuote(mode: Mode)
    ensures ModeAfter("\"", mode) == Turn(mode, '"') && Skeleton("\"", mode) == Kept(mode, '"')
  {
    assert "\""[1..] == [];
  }

  /** A quoted name in code is a string and nothing else. */
  lemma QuotedShape(name: string)
    requires IsQuotable(name)
    ensures ModeAfter(Quoted(name), Code) == Code && Skeleton(Quoted(name), Code) == Quoted(Blanked(name))
  {
    InsideQuotes(name);
    ShapeConcat("\"", name + "\"", Code);
    ShapeConcat(name, "\"", Basic);
    OneQuote(Code);
    OneQuote(Basic);
    assert Quoted(name) == "\"" + (name + "\"");
    assert Quoted(Blanked(name)) == "\"" + (Blanked(name) + "\"");
  }

  /** Where a string or a comment is still open. */
  predicate IsOpen(mode: Mode) {
    mode.Comment? || mode.Basic? || mode.Literal?
  }

  lemma {:induction false} NoQuoteNoBasic(text: string, mode: Mode)
    requires IsQuotable(text) && !mode.Basic? && !mode.Escape?
    ensures !ModeAfter(text, mode).Basic? && !ModeAfter(text, mode).Escape?
    ensures mode.Comment? ==> ModeAfter(text, mode).Comment?
  {
    if text != [] {
      NoQuoteNoBasic(text[1..], Turn(mode, text[0]));
    }
  }

  /** Inside a comment or a string, a quoted name leaves one open. */
  lemma QuotedStaysOpen(name: string, mode: Mode)
    requires IsQuotable(name) && IsOpen(mode)
    ensures IsOpen(ModeAfter(Quoted(name), mode))
  {
    ShapeConcat("\"", name + "\"", mode);
    OneQuote(mode);
    ShapeConcat(name, "\"", Turn(mode, '"'));
    NoQuoteNoBasic(name, Turn(mode, '"'));
    OneQuote(ModeAfter(name, Turn(mode, '"')));
    assert Quoted(name) == "\"" + (name + "\"");
  }

  // ----- separators -----

  /** What stands between the commas, without surrounding space. */
  function Parts(text: string): seq<string> {
    var pieces := Split(Skeleton(text, Code), ',');
    seq(|pieces|, i requires 0 <= i < |pieces| => Trim(pieces[i]))
  }

  predicate IsClosed(text: string) {
    ModeAfter(text, Code).Code?
  }

  lemma PartsAreSome(text: string)
    ensures Parts(text) != []
  {
  }

  /** A comma and a piece without one add that piece. */
  lemma PartsAppend(text: string, piece: string)
    requires IsClosed(text) && ',' !in Skeleton(piece, Code)
    ensures Parts(text + (", " + piece)) == Parts(text) + [Trim(" " + Skeleton(piece, Code))]
  {
    SkeletonAppend(text, piece);
    hide Skeleton, Split, Trim, ModeAfter;
    SplitAppend(Skeleton(text, Code), ',', " " + Skeleton(piece, Code));
  }

  lemma SkeletonAppend(text: string, piece: string)
    requires IsClosed(text)
    ensures Skeleton(text + (", " + piece), Code) == Skeleton(text, Code) + [','] + (" " + Skeleton(piece, Code))
  {
    ShapeConcat(text, ", " + piece, Code);
    ShapeConcat(", ", piece, Code);
    BareShape(", ", Code);
    hide Skeleton, ModeAfter;
    var front, after := Skeleton(text, Code), Skeleton(piece, Code);
    assert front + (", " + after) == front + [','] + (" " + after);
  }

  /**
   * The inside of an array whose separators are in order: no comma follows another or the
   * bracket, the last one may be followed by nothing, and the bracket that closes the array
   * is not part of a comment or a string.
   */
  predicate IsList(inside: string) {
    IsClosed(inside) && forall i :: 0 <= i < |Parts(inside)| - 1 ==> Parts(inside)[i] != []
  }

  /** Nothing but comments stands where the last entry would: the array is empty or ends in a comma. */
  predicate EndsBlank(inside: string) {
    PartsAreSome(inside);
    Parts(inside)[|Parts(inside)| - 1] == []
  }

  /** The keys of an inline table, up to the first equals sign of each part. */
  function Keys(parts: seq<string>): seq<string> {
    if parts == [] then []
    else
      var last := parts[|parts| - 1];
      Keys(parts[..|parts| - 1]) + if '=' in last then [Trim(Before(last, '='))] else []
  }

  lemma KeysMore(parts: seq<string>, part: string)
    ensures Keys(parts + [part]) == Keys(parts) + if '=' in part then [Trim(Before(part, '='))] else []
  {
    assert (parts + [part])[..|parts|] == parts;
  }

  predicate NoneBlank(parts: seq<string>) {
    forall i :: 0 <= i < |parts| ==> parts[i] != []
  }

  predicate AllDifferent(names: seq<string>) {
    forall i, j :: 0 <= i < j < |names| ==> names[i] != names[j]
  }

  /** The inside of an inline table whose separators are in order, none leading or trailing, and no key twice. */
  predicate IsTable(body: string) {
    IsClosed(body) && (Parts(body) == [[]] || NoneBlank(Parts(body))) && AllDifferent(Keys(Parts(body)))
  }
}
