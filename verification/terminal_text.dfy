/** What text means on an endless terminal: rows that only grow, a column, two colours and a mode. */
module TerminalText {
  import opened Wrappers
  import opened TerminalColors
  import opened TerminalFont

  const BLANK: ScreenChar := ScreenChar(' ', 0xFFFFFF, 0x000000)
  const ESCAPE: char := 27 as char

  /** The arguments read so far; in `Argument` the last of them is still being read. */
  datatype Mode = Text | Escape1 | Escape2 | Argument(args: seq<nat>) | ArgumentEnd(args: seq<nat>)

  // ----- one character -----

  predicate IsDigit(c: char) {
    '0' <= c <= '9'
  }

  function DigitOf(c: char): nat
    requires IsDigit(c)
  {
    c as nat - 48
  }

  /** One past the greatest argument; digits that pass it are lost from the top. */
  const ARGUMENTS: nat := 0x1_0000_0000

  function WithDigit(arg: nat, d: nat): nat {
    (arg * 10 + d) % ARGUMENTS
  }

  /** The sum that takes in the digit passes 32 bits, which a build with overflow checks does not survive. */
  predicate Overflows(mode: Mode, c: char) {
    mode.Argument? && mode.args != [] && IsDigit(c) && mode.args[|mode.args| - 1] * 10 + c as nat >= ARGUMENTS
  }

  /** One character inside an escape sequence. */
  function InEscape(mode: Mode, attr: Attributes, c: char): (Mode, Attributes)
    requires !mode.Text? && (mode.Argument? || mode.ArgumentEnd? ==> mode.args != [])
  {
    match mode
    case Escape1 => (if c == '[' then Escape2 else Text, attr)
    case Escape2 =>
      if IsDigit(c) then (Argument([DigitOf(c)]), attr)
      else if c == ';' then (ArgumentEnd([0]), attr)
      else if c == 'm' then (Text, Effect([], attr))
      else (Text, attr)
    case Argument(args) =>
      var last := |args| - 1;
      if IsDigit(c) then (Argument(args[..last] + [WithDigit(args[last], DigitOf(c))]), attr)
      else if c == ';' && |args| < 5 then (ArgumentEnd(args), attr)
      else if c == 'm' then (Text, Effect(args, attr))
      else (Text, attr)
    case ArgumentEnd(args) =>
      if IsDigit(c) then (Argument(args + [DigitOf(c)]), attr)
      else if c == ';' && |args| < 4 then (ArgumentEnd(args + [0]), attr)
      else (Text, attr)
  }

  /**
   * Everything written so far, wrapped to the width of the screen. The last row is the current one.
   * `overflow` records that some argument has passed 32 bits, `shown` the rows as of the last rendering.
   */
  datatype Output = Output(rows: seq<Row>, x: nat, attr: Attributes, mode: Mode, overflow: bool, shown: seq<Row>)

  type Row = seq<ScreenChar>

  function Blanks(n: nat): (r: seq<ScreenChar>)
    ensures |r| == n
  {
    if n == 0 then [] else Blanks(n - 1) + [BLANK]
  }

  function BlankRow(width: nat): (r: seq<ScreenChar>)
    ensures |r| == width
  {
    Blanks(width)
  }

  function Start(width: nat): Output {
    Output([BlankRow(width)], 0, DEFAULT, Text, false, [BlankRow(width)])
  }

  ghost predicate Wide(rows: seq<Row>, width: nat) {
    forall i | 0 <= i < |rows| :: |rows[i]| == width
  }

  ghost predicate Formed(o: Output, width: nat) {
    && o.rows != [] && Wide(o.rows, width) && Wide(o.shown, width) && o.x < width
    && (o.mode.Argument? || o.mode.ArgumentEnd? ==> o.mode.args != [])
  }

  ghost function NextRow(o: Output, width: nat): Output {
    o.(rows := o.rows + [BlankRow(width)], x := 0, shown := o.rows + [BlankRow(width)])
  }

  ghost function PutOnly(o: Output, c: char): Output
    requires o.rows != [] && o.x < |o.rows[|o.rows| - 1]|
  {
    var last := |o.rows| - 1;
    o.(rows := o.rows[last := o.rows[last][o.x := ScreenChar(c, o.attr.foreground, o.attr.background)]])
  }

  /** A character is put at the current place; the row is wrapped when it is full. */
  ghost function Put(o: Output, c: char, width: nat): Output
    requires Formed(o, width)
  {
    if o.x + 1 >= width then NextRow(PutOnly(o, c), width) else PutOnly(o, c).(x := o.x + 1)
  }

  ghost function Feed(o: Output, c: char, width: nat): Output
    requires Formed(o, width)
  {
    if !o.mode.Text? then
      var (mode, attr) := InEscape(o.mode, o.attr, c);
      o.(mode := mode, attr := attr, overflow := o.overflow || Overflows(o.mode, c))
    else if c == ESCAPE then o.(mode := Escape1)
    else if c == '\n' then NextRow(o, width)
    else if c == '\r' then o.(x := 0)
    else if c == '\t' then o.(x := (o.x % 8 + 1) * 8)
    else Put(o, c, width)
  }

  lemma {:induction false} BlankAt(n: nat, i: nat)
    requires i < n
    ensures Blanks(n)[i] == ScreenChar(' ', 0xFFFFFF, 0x000000)
  {
    if i < n - 1 {
      BlankAt(n - 1, i);
    }
  }

  /** The last row is a new one of blanks, the rows above are as they were, and the screen was rendered. */
  ghost predicate RowAdded(rows: seq<Row>, o: Output, width: nat) {
    && |o.rows| == |rows| + 1 && o.rows[..|rows|] == rows && o.x == 0 && o.shown == o.rows
    && |o.rows[|rows|]| == width && forall k | 0 <= k < width :: o.rows[|rows|][k] == ScreenChar(' ', 0xFFFFFF, 0x000000)
  }

  /** A new terminal: one row of blanks, white on black. */
  lemma StartText(width: nat)
    ensures var o := Start(width);
      RowAdded([], o, width) && o.attr.foreground == 0xFFFFFF && o.attr.background == 0x000000 && o.mode == Text && !o.overflow
  {
    forall k | 0 <= k < width
      ensures BlankRow(width)[k] == ScreenChar(' ', 0xFFFFFF, 0x000000)
    {
      BlankAt(width, k);
    }
  }

  /** The rows with `c` at column `x` of the last, in these colours. */
  ghost predicate CharAdded(before: seq<Row>, x: nat, c: char, attr: Attributes, after: seq<Row>)
    requires before != [] && x < |before[|before| - 1]|
  {
    var last := |before| - 1;
    && |after| == |before| && after[..last] == before[..last] && |after[last]| == |before[last]|
    && after[last][x].character == c && after[last][x].foreground == attr.foreground && after[last][x].background == attr.background
    && forall k | 0 <= k < |before[last]| && k != x :: after[last][k] == before[last][k]
  }

  /** The rows with the character, and the cursor behind it, in a new row if this one is full. */
  ghost predicate Typed(o: Output, c: char, rows: seq<Row>, o': Output, width: nat)
    requires o.rows != [] && o.x < |o.rows[|o.rows| - 1]|
  {
    && CharAdded(o.rows, o.x, c, o.attr, rows)
    && if o.x == width - 1 then RowAdded(rows, o', width) else o' == o.(rows := rows, x := o.x + 1)
  }

  /** What a character of text does: it is put at the cursor, or it moves the cursor. */
  lemma FeedText(o: Output, c: char, width: nat)
    requires Formed(o, width) && o.mode.Text? && c != ESCAPE
    ensures var o' := Feed(o, c, width);
      && o'.attr == o.attr && o'.mode == Text && o'.overflow == o.overflow
      && (c == '\n' ==> RowAdded(o.rows, o', width))
      && (c == '\r' ==> o' == o.(x := 0))
      && (c == '\t' ==> o' == o.(x := 8 * (o.x % 8) + 8))
      && (Shown(c) ==> exists rows :: Typed(o, c, rows, o', width))
  {
    forall k | 0 <= k < width
      ensures BlankRow(width)[k] == ScreenChar(' ', 0xFFFFFF, 0x000000)
    {
      BlankAt(width, k);
    }
    if Shown(c) {
      assert Typed(o, c, PutOnly(o, c).rows, Feed(o, c, width), width);
    }
  }

  lemma FeedFormed(o: Output, c: char, width: nat)
    requires Formed(o, width) && (c == '\t' ==> width > 64)
    ensures Formed(Feed(o, c, width), width)
  {
  }

  ghost predicate Printable(text: string, width: nat) {
    '\t' in text ==> width > 64
  }

  ghost function FeedAll(o: Output, text: string, width: nat): (r: Output)
    requires Formed(o, width) && Printable(text, width)
    ensures Formed(r, width)
  {
    if text == [] then o
    else
      var init, c := text[..|text| - 1], text[|text| - 1];
      assert forall d | d in init :: d in text;
      FeedFormed(FeedAll(o, init, width), c, width);
      Feed(FeedAll(o, init, width), c, width)
  }

  lemma NextPrefix(o: Output, text: string, i: nat, width: nat)
    requires Formed(o, width) && Printable(text, width) && i < |text|
    ensures Printable(text[..i], width) && Printable(text[..i + 1], width) && (text[i] == '\t' ==> width > 64)
    ensures FeedAll(o, text[..i + 1], width) == Feed(FeedAll(o, text[..i], width), text[i], width)
  {
    assert forall d | d in text[..i + 1] :: d in text;
    assert text[..i + 1][..i] == text[..i] && text[..i + 1][i] == text[i];
  }

  lemma {:induction false} FeedMore(o: Output, s: string, t: string, width: nat)
    requires Formed(o, width) && Printable(s, width) && Printable(t, width)
    ensures Printable(s + t, width) && FeedAll(o, s + t, width) == FeedAll(FeedAll(o, s, width), t, width)
  {
    if t == [] {
      assert s + t == s;
    } else {
      var init := t[..|t| - 1];
      assert forall d | d in init :: d in t;
      FeedMore(o, s, init, width);
      assert (s + t)[..|s + t| - 1] == s + init;
    }
  }

  // ----- texts with a known meaning -----

  datatype Item = Glyph(c: char) | NewLine | Return | Sgr(args: seq<nat>)

  /** A character that is shown. */
  predicate Shown(c: char) {
    c != ESCAPE && c != '\n' && c != '\r' && c != '\t'
  }

  /** The greatest argument that is read without an overflow on the way. */
  const ARGUMENT_LIMIT: nat := 4294967247

  /** What stands between two semicolons: a number, or nothing. */
  type Field = Option<nat>

  predicate Small(fields: seq<Field>) {
    forall i | 0 <= i < |fields| :: fields[i].Some? ==> fields[i].value <= ARGUMENT_LIMIT
  }

  /** The fields as 32 bits hold them; an empty one reads as 0. */
  function Held(fields: seq<Field>): (r: seq<nat>)
    ensures |r| == |fields|
  {
    seq(|fields|, i requires 0 <= i < |fields| => if fields[i].Some? then fields[i].value % ARGUMENTS else 0)
  }

  /** Arguments as fields. */
  function Fields(args: seq<nat>): (r: seq<Field>)
    ensures r != []
  {
    if args == [] then [None] else seq(|args|, i requires 0 <= i < |args| => Some(args[i]))
  }

  ghost predicate WellFormed(item: Item) {
    (item.Glyph? ==> Shown(item.c)) && (item.Sgr? ==> |item.args| <= 5 && Small(Fields(item.args)))
  }

  function DigitChar(d: nat): (c: char)
    requires d < 10
    ensures IsDigit(c) && DigitOf(c) == d && c == "0123456789"[d]
  {
    (d + 48) as char
  }

  function Decimal(n: nat): string {
    if n < 10 then [DigitChar(n)] else Decimal(n / 10) + [DigitChar(n % 10)]
  }

  function FieldText(f: Field): string {
    if f.Some? then Decimal(f.value) else []
  }

  /** The fields with semicolons between them. */
  function FieldsText(fields: seq<Field>): string {
    if fields == [] then [] else if |fields| == 1 then FieldText(fields[0])
    else FieldsText(fields[..|fields| - 1]) + [';'] + FieldText(fields[|fields| - 1])
  }

  /** An escape sequence that ends with `c`. */
  function Sequence(fields: seq<Field>, c: char): string {
    [ESCAPE, '['] + (FieldsText(fields) + [c])
  }

  function EncodeItem(item: Item): string {
    match item
    case Glyph(c) => [c]
    case NewLine => ['\n']
    case Return => ['\r']
    case Sgr(args) => Sequence(Fields(args), 'm')
  }

  ghost function EncodeItems(items: seq<Item>): string {
    if items == [] then [] else EncodeItems(items[..|items| - 1]) + EncodeItem(items[|items| - 1])
  }

  /** What an item does to the output, with no parsing. */
  ghost function Apply(o: Output, item: Item, width: nat): Output
    requires Formed(o, width)
  {
    match item
    case Glyph(c) => Put(o, c, width)
    case NewLine => NextRow(o, width)
    case Return => o.(x := 0)
    case Sgr(args) => o.(attr := Effect(args, o.attr))
  }

  ghost function ApplyAll(o: Output, items: seq<Item>, width: nat): (r: Output)
    requires Formed(o, width)
    ensures Formed(r, width) && r.overflow == o.overflow
  {
    if items == [] then o else Apply(ApplyAll(o, items[..|items| - 1], width), items[|items| - 1], width)
  }

  ghost predicate Plain(s: string) {
    forall c | c in s :: c != '\t'
  }

  lemma FeedOne(o: Output, c: char, width: nat)
    requires Formed(o, width) && Printable([c], width)
    ensures FeedAll(o, [c], width) == Feed(o, c, width)
  {
    assert [c][..0] == [] && FeedAll(o, [], width) == o;
  }

  lemma DigitsWrap(n: nat)
    ensures WithDigit(n / 10 % ARGUMENTS, n % 10) == n % ARGUMENTS
  {
    var q, d := n / 10, n % 10;
    WholeWraps(q % ARGUMENTS * 10 + d, q / ARGUMENTS * 10);
  }

  lemma WholeWraps(x: nat, k: nat)
    ensures (x + k * ARGUMENTS) % ARGUMENTS == x % ARGUMENTS
  {
  }

  lemma DigitsLimit(n: nat)
    ensures n <= ARGUMENT_LIMIT <==> n / 10 <= ARGUMENT_LIMIT && n / 10 % ARGUMENTS * 10 + (n % 10 + 48) < ARGUMENTS
  {
  }

  ghost function WithArgument(o: Output, args: seq<nat>, n: nat): Output {
    o.(mode := Argument(args + [n % ARGUMENTS]), overflow := o.overflow || n > ARGUMENT_LIMIT)
  }

  /** An argument is read modulo 2^32, and without an overflow if and only if it is within the limit. */
  lemma {:induction false} DecimalRead(o: Output, n: nat, args: seq<nat>, width: nat)
    requires Formed(o, width) && |args| <= 4
    requires o.mode == (if args == [] then Escape2 else ArgumentEnd(args))
    ensures Plain(Decimal(n))
    ensures FeedAll(o, Decimal(n), width) == WithArgument(o, args, n)
  {
    if n < 10 {
      FeedOne(o, DigitChar(n), width);
      assert Decimal(n) == [DigitChar(n)];
      assert [] + [n] == [n];
    } else {
      DecimalRead(o, n / 10, args, width);
      var c := DigitChar(n % 10);
      var o1 := FeedAll(o, Decimal(n / 10), width);
      FeedMore(o, Decimal(n / 10), [c], width);
      FeedOne(o1, c, width);
      DigitRead(o1, args, n / 10 % ARGUMENTS, n % 10, width);
      DigitsWrap(n);
      DigitsLimit(n);
    }
  }

  lemma DigitRead(o: Output, args: seq<nat>, a: nat, d: nat, width: nat)
    requires Formed(o, width) && o.mode == Argument(args + [a]) && d < 10
    ensures Feed(o, DigitChar(d), width)
      == o.(mode := Argument(args + [WithDigit(a, d)]), overflow := o.overflow || a * 10 + (d + 48) >= ARGUMENTS)
  {
    assert (args + [a])[..|args|] == args;
  }

  // ----- a whole sequence -----

  /** Where the parser is after the fields. */
  ghost function AfterFields(fields: seq<Field>): Mode
    requires fields != []
  {
    var last := |fields| - 1;
    if fields == [None] then Escape2
    else if fields[last].Some? then Argument(Held(fields))
    else ArgumentEnd(Held(fields[..last]))
  }

  lemma {:induction false} FieldsRead(o: Output, fields: seq<Field>, width: nat)
    requires Formed(o, width) && 1 <= |fields| <= 5 && o.mode == Escape2
    ensures Plain(FieldsText(fields))
    ensures FeedAll(o, FieldsText(fields), width) == o.(mode := AfterFields(fields), overflow := o.overflow || !Small(fields))
  {
    var last := |fields| - 1;
    if last == 0 {
      FieldRead(o, [], fields[0], width);
      assert fields == [fields[0]] && (fields[0].Some? ==> Held(fields) == [] + [fields[0].value % ARGUMENTS]);
    } else {
      var init := fields[..last];
      FieldsRead(o, init, width);
      NextField(o, FieldsText(init), FeedAll(o, FieldsText(init), width), init, fields[last], width);
      LastHeld(fields);
    }
  }

  ghost function WithField(o: Output, args: seq<nat>, f: Field): Output {
    if f.Some? then WithArgument(o, args, f.value) else o
  }

  lemma FieldRead(o: Output, args: seq<nat>, f: Field, width: nat)
    requires Formed(o, width) && |args| <= 4
    requires o.mode == (if args == [] then Escape2 else ArgumentEnd(args))
    ensures Plain(FieldText(f))
    ensures FeedAll(o, FieldText(f), width) == WithField(o, args, f)
  {
    if f.Some? {
      DecimalRead(o, f.value, args, width);
    }
  }

  lemma LastHeld(fields: seq<Field>)
    requires fields != []
    ensures var last := |fields| - 1;
      && Held(fields) == Held(fields[..last]) + [if fields[last].Some? then fields[last].value % ARGUMENTS else 0]
      && (Small(fields) <==> Small(fields[..last]) && (fields[last].Some? ==> fields[last].value <= ARGUMENT_LIMIT))
  {
    var last := |fields| - 1;
    assert forall i | 0 <= i < last :: fields[..last][i] == fields[i];
  }

  lemma NextField(o: Output, text: string, o1: Output, init: seq<Field>, f: Field, width: nat)
    requires Formed(o, width) && Plain(text) && FeedAll(o, text, width) == o1 && 1 <= |init| <= 4 && o1.mode == AfterFields(init)
    ensures Plain(text + [';'] + FieldText(f))
    ensures FeedAll(o, text + [';'] + FieldText(f), width) == WithField(o1.(mode := ArgumentEnd(Held(init))), Held(init), f)
  {
    Separated(o, text, o1, init, width);
    FieldRead(o1.(mode := ArgumentEnd(Held(init))), Held(init), f, width);
    PlainJoin(text + [';'], FieldText(f));
    FeedMore(o, text + [';'], FieldText(f), width);
  }

  lemma Separated(o: Output, text: string, o1: Output, init: seq<Field>, width: nat)
    requires Formed(o, width) && Plain(text) && FeedAll(o, text, width) == o1 && 1 <= |init| <= 4 && o1.mode == AfterFields(init)
    ensures Plain(text + [';']) && FeedAll(o, text + [';'], width) == o1.(mode := ArgumentEnd(Held(init)))
  {
    SemicolonRead(o1, init, width);
    PlainJoin(text, [';']);
    FeedMore(o, text, [';'], width);
  }

  lemma SemicolonRead(o: Output, fields: seq<Field>, width: nat)
    requires Formed(o, width) && 1 <= |fields| <= 4 && o.mode == AfterFields(fields)
    ensures Plain([';']) && FeedAll(o, [';'], width) == o.(mode := ArgumentEnd(Held(fields)))
  {
    FeedOne(o, ';', width);
    LastHeld(fields);
    assert fields == [None] ==> Held(fields) == [0];
  }

  lemma PlainJoin(s: string, t: string)
    requires Plain(s) && Plain(t)
    ensures Plain(s + t)
  {
  }

  /** There is no argument, or the last one is not empty. */
  ghost predicate Ended(fields: seq<Field>)
    requires fields != []
  {
    fields == [None] || fields[|fields| - 1].Some?
  }

  ghost function ArgumentsOf(fields: seq<Field>): seq<nat> {
    if fields == [None] then [] else Held(fields)
  }

  /** The character can end a sequence: a sixth field is not read. */
  ghost predicate Ends(fields: seq<Field>, c: char) {
    !IsDigit(c) && (c == ';' ==> |fields| == 5)
  }

  /**
   * A sequence of up to five fields that is ended by any character. If that is 'm' and the last field is
   * not the empty one of several, the colours change as the arguments say, as far as 32 bits hold them;
   * nothing else changes. A sum overflows if and only if a field is above the limit.
   */
  lemma SequenceRead(o: Output, fields: seq<Field>, c: char, width: nat)
    requires Formed(o, width) && 1 <= |fields| <= 5 && o.mode.Text? && Ends(fields, c) && Printable([c], width)
    ensures Printable(Sequence(fields, c), width)
    ensures var o' := FeedAll(o, Sequence(fields, c), width);
      && o' == o.(attr := o'.attr, overflow := o.overflow || !Small(fields))
      && (if c == 'm' && Ended(fields) then Recolors(ArgumentsOf(fields), o.attr, o'.attr) else o'.attr == o.attr)
  {
    SequenceEffect(o, fields, c, width);
    EffectRecolors(ArgumentsOf(fields), o.attr);
  }

  lemma SequenceEffect(o: Output, fields: seq<Field>, c: char, width: nat)
    requires Formed(o, width) && 1 <= |fields| <= 5 && o.mode.Text? && Ends(fields, c) && Printable([c], width)
    ensures Printable(Sequence(fields, c), width) && (c != '\t' ==> Plain(Sequence(fields, c)))
    ensures FeedAll(o, Sequence(fields, c), width)
      == o.(attr := if c == 'm' && Ended(fields) then Effect(ArgumentsOf(fields), o.attr) else o.attr,
            overflow := o.overflow || !Small(fields))
  {
    var o1 := o.(mode := Escape2);
    var o2 := o1.(mode := AfterFields(fields), overflow := o.overflow || !Small(fields));
    OpeningRead(o, width);
    FieldsRead(o1, fields, width);
    FeedMore(o1, FieldsText(fields), [c], width);
    EndRead(o2, fields, c, width);
    FeedMore(o, [ESCAPE, '['], FieldsText(fields) + [c], width);
  }

  lemma OpeningRead(o: Output, width: nat)
    requires Formed(o, width) && o.mode.Text?
    ensures FeedAll(o, [ESCAPE, '['], width) == o.(mode := Escape2)
  {
    assert [ESCAPE, '['] == [ESCAPE] + ['['];
    FeedMore(o, [ESCAPE], ['['], width);
    FeedOne(o, ESCAPE, width);
    FeedOne(o.(mode := Escape1), '[', width);
  }

  lemma EndRead(o: Output, fields: seq<Field>, c: char, width: nat)
    requires Formed(o, width) && 1 <= |fields| <= 5 && o.mode == AfterFields(fields) && Ends(fields, c) && Printable([c], width)
    ensures FeedAll(o, [c], width)
      == o.(mode := Text, attr := if c == 'm' && Ended(fields) then Effect(ArgumentsOf(fields), o.attr) else o.attr)
  {
    FeedOne(o, c, width);
  }

  /** Any other character after an escape is dropped with it. */
  lemma EscapeDropped(o: Output, c: char, width: nat)
    requires Formed(o, width) && o.mode.Text? && c != '[' && Printable([c], width)
    ensures Printable([ESCAPE, c], width) && FeedAll(o, [ESCAPE, c], width) == o
  {
    assert [ESCAPE, c] == [ESCAPE] + [c];
    FeedMore(o, [ESCAPE], [c], width);
    FeedOne(o, ESCAPE, width);
    FeedOne(o.(mode := Escape1), c, width);
  }

  lemma FieldsHeld(args: seq<nat>)
    ensures ArgumentsOf(Fields(args)) == seq(|args|, i requires 0 <= i < |args| => args[i] % ARGUMENTS) && Ended(Fields(args))
    ensures Small(Fields(args)) ==> ArgumentsOf(Fields(args)) == args
  {
    var fields := Fields(args);
    assert forall i | 0 <= i < |args| :: fields[i] == Some(args[i]);
    if args != [] {
      assert fields[0].Some?;
      assert Small(fields) ==> forall i | 0 <= i < |args| :: Held(fields)[i] == args[i];
    }
  }

  lemma RedHeld(attr: Attributes)
    ensures var fields := Fields([4294967327]);
      Ended(fields) && Effect(ArgumentsOf(fields), attr) == attr.(foreground := 0xAA0000) && !Small(fields)
  {
    var fields := Fields([4294967327]);
    assert fields[0] == Some(4294967327);
    assert Held(fields) == [31];
  }

  /** An argument past 32 bits reads as a colour, here red; with overflow checks the kernel stops instead. */
  lemma OverflowReadsAsRed(o: Output, width: nat)
    requires Formed(o, width) && o.mode.Text?
    ensures Plain(EncodeItem(Sgr([4294967327])))
    ensures FeedAll(o, EncodeItem(Sgr([4294967327])), width)
      == o.(attr := o.attr.(foreground := 0xAA0000), overflow := true)
  {
    SequenceEffect(o, Fields([4294967327]), 'm', width);
    RedHeld(o.attr);
  }

  lemma ItemRead(o: Output, item: Item, width: nat)
    requires Formed(o, width) && o.mode.Text? && WellFormed(item)
    ensures Plain(EncodeItem(item))
    ensures FeedAll(o, EncodeItem(item), width) == Apply(o, item, width) && Apply(o, item, width).mode.Text?
  {
    match item
    case Glyph(c) => FeedOne(o, c, width);
    case NewLine => FeedOne(o, '\n', width);
    case Return => FeedOne(o, '\r', width);
    case Sgr(args) => SequenceEffect(o, Fields(args), 'm', width); FieldsHeld(args);
  }

  /** Parsing a text gives what its items mean one by one, and nothing overflows. */
  lemma {:induction false} ItemsRead(o: Output, items: seq<Item>, width: nat)
    requires Formed(o, width) && o.mode.Text? && forall i | i in items :: WellFormed(i)
    ensures Plain(EncodeItems(items))
    ensures FeedAll(o, EncodeItems(items), width) == ApplyAll(o, items, width) && ApplyAll(o, items, width).mode.Text?
  {
    if items != [] {
      var init, item := items[..|items| - 1], items[|items| - 1];
      assert forall i | i in init :: i in items;
      assert item in items;
      ItemsRead(o, init, width);
      ItemRead(ApplyAll(o, init, width), item, width);
      FeedMore(o, EncodeItems(init), EncodeItem(item), width);
    }
  }
}
