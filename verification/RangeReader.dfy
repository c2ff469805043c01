/**
 Reading a range from its text, through the field parser that composite values share, and the
 round trip through `RangeText`: which ranges survive it.
 */
module RangeReader {
  import opened Wrappers
  import opened Scanners
  import opened StringTraits
  import opened Ranges
  import opened RangeLaws
  import opened RangeText
  import Decimal

  datatype ReadError =
    | BadInput | NoGlyph | MissingQuote | BadValue
    | CommaExpected | TooManyFields | NotClosed | TextAfterEnd | BoundsCross

  // ----- One field -----

  /** The field at `pos` and where it ends; an empty field is null. */
  function FieldAt<T(!new)>(tr: Traits<T>, input: string, pos: nat): (r: Result<(Option<T>, nat), ReadError>)
    requires pos < |input|
    ensures r.Success? ==> pos <= r.value.1
  {
    if input[pos] in STOPS then Success((None, pos))
    else if input[pos] == '"' then
      var end := QuotedEnd(input, pos + 1);
      if end.None? then Failure(MissingQuote)
      else
        QuotedEndBound(input, pos + 1);
        var value := tr.parse(Unescaped(input, end.value, pos + 1));
        if value.None? then Failure(BadValue) else Success((value, end.value))
    else
      var end := UnquotedEnd(input, pos, STOPS);
      var value := tr.parse(input[pos..end]);
      if value.None? then Failure(BadValue) else Success((value, end))
  }

  /** A field and the character after it: a comma, or the closing bracket that ends the text. */
  function CompositeField<T(!new)>(tr: Traits<T>, input: string, pos: nat, isLast: bool)
    : (r: Result<(Option<T>, nat), ReadError>)
    ensures r.Success? ==> pos < r.value.1 <= |input|
    ensures r.Success? && isLast ==> r.value.1 == |input| && input[|input| - 1] in {')', ']'}
  {
    if pos >= |input| then Failure(NoGlyph)
    else
      var field :- FieldAt(tr, input, pos);
      var end := field.1;
      if end >= |input| then Failure(NoGlyph)
      else if !isLast then
        if input[end] != ',' then Failure(CommaExpected) else Success((field.0, end + 1))
      else if input[end] == ',' then Failure(TooManyFields)
      else if input[end] != ')' && input[end] != ']' then Failure(NotClosed)
      else if end + 1 != |input| then Failure(TextAfterEnd)
      else Success((field.0, end + 1))
  }

  method ParseCompositeField<T(!new)>(tr: Traits<T>, index: nat, input: string, pos: nat, last: nat)
    returns (r: Result<(Option<T>, nat, nat), ReadError>)
    requires index <= last && |input| < NPOS
    ensures r.Success? <==> CompositeField(tr, input, pos, index == last).Success?
    ensures r.Failure? ==> CompositeField(tr, input, pos, index == last) == Failure(r.error)
    ensures r.Success? ==>
              && CompositeField(tr, input, pos, index == last) == Success((r.value.0, r.value.1))
              && r.value.2 == index + 1
  {
    var next := NextGlyph(|input|, pos);
    if pos >= |input| {
      return Failure(NoGlyph);
    }
    var field: Option<T> := None;
    var here := pos;
    if input[pos] == ',' || input[pos] == ')' || input[pos] == ']' {
    } else if input[pos] == '"' {
      var stop := ScanDoubleQuotedString(input, pos);
      if stop.None? {
        return Failure(MissingQuote);
      }
      QuotedEndBound(input, pos + 1);
      var text := ParseDoubleQuotedString(input, stop.value, pos);
      field := tr.parse(text);
      if field.None? {
        return Failure(BadValue);
      }
      here := stop.value;
    } else {
      var stop := ScanUnquotedString(input, pos, STOPS);
      field := tr.parse(input[pos..stop]);
      if field.None? {
        return Failure(BadValue);
      }
      here := stop;
    }
    next := NextGlyph(|input|, here);
    if next - here != 1 || here >= |input| {
      return Failure(NoGlyph);
    }
    if index < last {
      if input[here] != ',' {
        return Failure(CommaExpected);
      }
    } else {
      if input[here] == ',' {
        return Failure(TooManyFields);
      }
      if input[here] != ')' && input[here] != ']' {
        return Failure(NotClosed);
      }
      if next != |input| {
        return Failure(TextAfterEnd);
      }
    }
    return Success((field, next, index + 1));
  }

  // ----- The whole text -----

  /** The word `empty`, in either case. */
  predicate IsEmptyWord(text: string) {
    && |text| == 5
    && text[0] in {'e', 'E'} && text[1] in {'m', 'M'} && text[2] in {'p', 'P'}
    && text[3] in {'t', 'T'} && text[4] in {'y', 'Y'}
  }

  function LowerCase(text: string): string {
    seq(|text|, i requires 0 <= i < |text| =>
      if 'A' <= text[i] <= 'Z' then (text[i] as int - 'A' as int + 'a' as int) as char else text[i])
  }

  lemma EmptyWordIs(text: string)
    ensures IsEmptyWord(text) <==> LowerCase(text) == "empty"
  {
    if LowerCase(text) == "empty" {
      assert |text| == |LowerCase(text)| == 5;
      assert LowerCase(text)[0] == 'e' && LowerCase(text)[1] == 'm' && LowerCase(text)[2] == 'p';
      assert LowerCase(text)[3] == 't' && LowerCase(text)[4] == 'y';
    }
  }

  function BoundOf<T>(value: Option<T>, inclusive: bool): Bound<T> {
    if value.None? then NoBound else if inclusive then Inclusive(value.value) else Exclusive(value.value)
  }

  function FromText<T(!new)>(tr: Traits<T>, o: Order<T>, text: string): (r: Result<Range<T>, ReadError>)
    ensures r.Success? && o.Strict() ==> Valid(o, r.value)
  {
    if |text| < 3 then Failure(BadInput)
    else if text[0] in {'e', 'E'} then
      if IsEmptyWord(text) then Success(EmptyRange(o)) else Failure(BadInput)
    else if text[0] !in {'[', '('} then Failure(BadInput)
    else
      var lower :- CompositeField(tr, text, 1, false);
      var upper :- CompositeField(tr, text, lower.1, true);
      var made := MakeRange(o, BoundOf(lower.0, text[0] == '['), BoundOf(upper.0, text[|text| - 1] == ']'));
      if made.Failure? then Failure(BoundsCross) else Success(made.value)
  }

  method FromString<T(!new)>(tr: Traits<T>, o: Order<T>, text: string) returns (r: Result<Range<T>, ReadError>)
    requires |text| < NPOS
    ensures r == FromText(tr, o, text)
  {
    if |text| < 3 {
      return Failure(BadInput);
    }
    var leftInclusive := false;
    match text[0] {
      case '[' => leftInclusive := true;
      case '(' =>
      case c =>
        if c != 'e' && c != 'E' {
          return Failure(BadInput);
        }
        if |text| != |EMPTY_TEXT| || (text[1] != 'm' && text[1] != 'M') || (text[2] != 'p' && text[2] != 'P')
           || (text[3] != 't' && text[3] != 'T') || (text[4] != 'y' && text[4] != 'Y') {
          return Failure(BadInput);
        }
        return Success(EmptyRange(o));
    }
    var index, pos := 0, 1;
    var lower :- ParseCompositeField(tr, index, text, pos, 1);
    pos, index := lower.1, lower.2;
    var upper :- ParseCompositeField(tr, index, text, pos, 1);
    pos, index := upper.1, upper.2;
    if pos != |text| {
      return Failure(BadInput);
    }
    var closing := text[pos - 1];
    if closing != ')' && closing != ']' {
      return Failure(BadInput);
    }
    var lowerBound: Bound<T>, upperBound: Bound<T> := NoBound, NoBound;
    if lower.0.Some? {
      lowerBound := if leftInclusive then Inclusive(lower.0.value) else Exclusive(lower.0.value);
    }
    if upper.0.Some? {
      upperBound := if closing == ']' then Inclusive(upper.0.value) else Exclusive(upper.0.value);
    }
    var made := MakeRange(o, lowerBound, upperBound);
    if made.Failure? {
      return Failure(BoundsCross);
    }
    return Success(made.value);
  }

  // ----- Which texts are read -----

  /** Text that the field parser reads back as itself. */
  predicate Safe(text: string) {
    text != "" && text[0] != '"' && forall i | 0 <= i < |text| :: text[i] != ',' && text[i] != ')' && text[i] != ']'
  }

  /** One side of a range as written: nothing, bare text, or the units of a double-quoted string. */
  datatype Side = Absent | Bare(text: string) | Quoted(units: seq<Unit>) {
    ghost predicate Legal() {
      match this
      case Absent => true
      case Bare(text) => Safe(text)
      case Quoted(units) => LegalUnits(units)
    }

    function Text(): string {
      match this
      case Absent => ""
      case Bare(text) => text
      case Quoted(units) => "\"" + UnitsText(units) + "\""
    }

    function Says(): string {
      match this
      case Absent => ""
      case Bare(text) => text
      case Quoted(units) => UnitsValue(units)
    }
  }

  /** Nothing written is no bound; anything else must convert. */
  predicate Converts<T(!new)>(tr: Traits<T>, side: Side) {
    side.Absent? || tr.parse(side.Says()).Some?
  }

  function Meaning<T(!new)>(tr: Traits<T>, side: Side): Option<T> {
    if side.Absent? then None else tr.parse(side.Says())
  }

  /** A range as written, but for the word `empty`. */
  datatype Form = Form(opening: char, lower: Side, upper: Side, closing: char) {
    ghost predicate Legal() {
      opening in {'[', '('} && closing in {']', ')'} && lower.Legal() && upper.Legal()
    }

    function Text(): string {
      [opening] + lower.Text() + "," + upper.Text() + [closing]
    }
  }

  function FormRange<T(!new)>(tr: Traits<T>, form: Form): Range<T> {
    Range(BoundOf(Meaning(tr, form.lower), form.opening == '['), BoundOf(Meaning(tr, form.upper), form.closing == ']'))
  }

  /** `text` is a legal form whose sides convert. */
  ghost predicate Spells<T(!new)>(tr: Traits<T>, form: Form, text: string) {
    form.Legal() && text == form.Text() && Converts(tr, form.lower) && Converts(tr, form.upper)
  }

  /** Its sides convert to values of which the upper is below the lower. */
  predicate Crosses<T(!new)>(tr: Traits<T>, o: Order<T>, form: Form) {
    var lower, upper := Meaning(tr, form.lower), Meaning(tr, form.upper);
    lower.Some? && upper.Some? && o.less(upper.value, lower.value)
  }

  /** The side is what stands at `pos`: it is all there, and ends where it must. */
  ghost predicate StandsAt(input: string, pos: nat, side: Side) {
    && side.Legal() && OccursAt(input, pos, side.Text())
    && var end := pos + |side.Text()|;
       match side
       case Absent => end < |input| && input[end] in {',', ')', ']'}
       case Bare(_) => end < |input| ==> input[end] in {',', ')', ']'}
       case Quoted(_) => end < |input| ==> input[end] != '"'
  }

  /** What stands there is read whole, and converted. */
  lemma SideRead<T(!new)>(tr: Traits<T>, input: string, pos: nat, side: Side)
    requires StandsAt(input, pos, side)
    ensures pos < |input|
    ensures FieldAt(tr, input, pos) ==
            if Converts(tr, side) then Success((Meaning(tr, side), pos + |side.Text()|)) else Failure(BadValue)
  {
    hide UnitsText, UnitsValue, Unescaped, QuotedEnd;
    var text := side.Text();
    OccursChars(input, pos, text);
    match side
    case Absent =>
    case Bare(t) =>
      UnquotedEndUnique(input, pos, pos + |t|, STOPS);
    case Quoted(units) =>
      assert text == "\"" + (UnitsText(units) + "\"");
      OccursSplit(input, pos, "\"", UnitsText(units) + "\"");
      QuotedEndOfUnits(input, pos + 1, units);
      UnescapedOfUnits(input, pos + 1, units);
  }

  /** A side followed by a stop character stands there. */
  lemma SideStands(input: string, pos: nat, side: Side, stop: char)
    requires side.Legal() && stop in STOPS && OccursAt(input, pos, side.Text() + [stop])
    ensures StandsAt(input, pos, side)
    ensures pos + |side.Text()| < |input| && input[pos + |side.Text()|] == stop
  {
    OccursSplit(input, pos, side.Text(), [stop]);
    OccursFirst(input, pos + |side.Text()|, [stop]);
  }

  lemma QuotedStands(input: string, pos: nat) returns (side: Side)
    requires pos < |input| && input[pos] == '"' && QuotedEnd(input, pos + 1).Some?
    ensures StandsAt(input, pos, side)
  {
    hide UnitsText, QuotedEnd, LegalUnits;
    var units := QuotedEndIsUnits(input, pos + 1);
    side := Quoted(units);
    assert side.Text() == "\"" + (UnitsText(units) + "\"");
    assert OccursAt(input, pos, "\"");
    OccursSplit(input, pos, "\"", UnitsText(units) + "\"");
  }

  /** At every position before the end something stands, unless quotes are opened and never closed. */
  lemma SomethingStands(input: string, pos: nat) returns (side: Side)
    requires pos < |input|
    ensures NeverClosed(input, pos) || StandsAt(input, pos, side)
    ensures NeverClosed(input, pos) <==> input[pos] == '"' && QuotedEnd(input, pos + 1).None?
  {
    hide QuotedEnd, LegalUnits;
    side := Absent;
    if input[pos] in STOPS {
    } else if input[pos] == '"' {
      NeverClosedExactly(input, pos);
      if QuotedEnd(input, pos + 1).Some? {
        side := QuotedStands(input, pos);
      }
    } else {
      var end := UnquotedEnd(input, pos, STOPS);
      side := Bare(input[pos..end]);
      assert side.text[0] == input[pos];
    }
  }

  /** Whatever is read as a field is a side. */
  lemma SideOfField<T(!new)>(tr: Traits<T>, input: string, pos: nat) returns (side: Side)
    requires pos < |input| && FieldAt(tr, input, pos).Success?
    ensures StandsAt(input, pos, side) && Converts(tr, side)
    ensures FieldAt(tr, input, pos) == Success((Meaning(tr, side), pos + |side.Text()|))
  {
    side := SomethingStands(input, pos);
    SideRead(tr, input, pos, side);
  }

  /** The text of a range, cut where its sides begin. */
  lemma Parts(text: string, opening: char, lower: string, upper: string, closing: char)
    requires text == [opening] + lower + "," + upper + [closing]
    ensures |text| == |lower| + |upper| + 3
    ensures text[0] == opening && text[|text| - 1] == closing
    ensures OccursAt(text, 1, lower + [',']) && OccursAt(text, |lower| + 2, upper + [closing])
  {
    assert text[1..1 + |lower + [',']|] == lower + [','];
    assert text[|lower| + 2..|lower| + 2 + |upper + [closing]|] == upper + [closing];
  }

  /** The fields of a legal form whose sides convert. */
  lemma FormFields<T(!new)>(tr: Traits<T>, form: Form)
    requires Spells(tr, form, form.Text())
    ensures var text, middle := form.Text(), |form.lower.Text()| + 2;
            && |text| >= 3 && text[0] == form.opening && text[|text| - 1] == form.closing
            && CompositeField(tr, text, 1, false) == Success((Meaning(tr, form.lower), middle))
            && CompositeField(tr, text, middle, true) == Success((Meaning(tr, form.upper), |text|))
  {
    hide FieldAt, Side.Text, Side.Legal, StandsAt, OccursAt, Meaning, Converts;
    var text := form.Text();
    var middle := |form.lower.Text()| + 2;
    Parts(text, form.opening, form.lower.Text(), form.upper.Text(), form.closing);
    SideStands(text, 1, form.lower, ',');
    SideRead(tr, text, 1, form.lower);
    SideStands(text, middle, form.upper, form.closing);
    SideRead(tr, text, middle, form.upper);
  }

  /** The reader takes every legal form whose sides convert, unless they cross. */
  lemma FormRead<T(!new)>(tr: Traits<T>, o: Order<T>, form: Form)
    requires Spells(tr, form, form.Text())
    ensures FromText(tr, o, form.Text()) ==
            if Crosses(tr, o, form) then Failure(BoundsCross) else Success(FormRange(tr, form))
  {
    hide CompositeField, Form.Text, Side.Legal, Meaning, Converts, IsEmptyWord;
    FormFields(tr, form);
  }

  /** And it converts nothing else, but for the word `empty`. */
  lemma FormOfRead<T(!new)>(tr: Traits<T>, o: Order<T>, text: string) returns (form: Form)
    requires (FromText(tr, o, text).Success? && !IsEmptyWord(text)) || FromText(tr, o, text) == Failure(BoundsCross)
    ensures Spells(tr, form, text)
  {
    hide FieldAt, Side.Text, Side.Legal, OccursAt, Converts, Meaning, StandsAt, Form.Text;
    FieldErrors(tr, text);
    var lower := FieldAt(tr, text, 1).value;
    var left := SideOfField(tr, text, 1);
    var right := SideOfField(tr, text, lower.1 + 1);
    form := Form(text[0], left, right, text[|text| - 1]);
    StandsLegally(text, 1, left);
    StandsLegally(text, lower.1 + 1, right);
    Assembled(text, left, right);
  }

  /** Some errors are not those of a side. */
  lemma FieldErrors<T(!new)>(tr: Traits<T>, text: string)
    ensures CompositeField(tr, text, 1, false) !in {Failure(BadInput), Failure(BoundsCross)}
    ensures CompositeField(tr, text, 1, false).Success? ==>
              CompositeField(tr, text, CompositeField(tr, text, 1, false).value.1, true)
              !in {Failure(BadInput), Failure(BoundsCross)}
  {
  }

  lemma StandsLegally(input: string, pos: nat, side: Side)
    requires StandsAt(input, pos, side)
    ensures side.Legal() && OccursAt(input, pos, side.Text())
  {
  }

  lemma Assembled(text: string, left: Side, right: Side)
    requires |text| == |left.Text()| + |right.Text()| + 3
    requires OccursAt(text, 1, left.Text()) && text[1 + |left.Text()|] == ','
    requires OccursAt(text, |left.Text()| + 2, right.Text())
    ensures text == Form(text[0], left, right, text[|text| - 1]).Text()
  {
    hide Side.Text;
  }

  /**
   Exactly which texts are read as a range, and as which: the word `empty` in any case, and the
   legal forms whose sides convert to bounds that do not cross.
   */
  lemma ExactReading<T(!new)>(tr: Traits<T>, o: Order<T>, text: string)
    ensures FromText(tr, o, text).Success? <==>
            LowerCase(text) == "empty" || exists form :: Spells(tr, form, text) && !Crosses(tr, o, form)
    ensures LowerCase(text) == "empty" ==>
              FromText(tr, o, text) == Success(Range(Exclusive(o.initial), Exclusive(o.initial)))
    ensures forall form | Spells(tr, form, text) && !Crosses(tr, o, form) ::
              FromText(tr, o, text) == Success(FormRange(tr, form))
  {
    hide Spells, FormRange, Crosses;
    EmptyWordIs(text);
    forall form | Spells(tr, form, text)
      ensures FromText(tr, o, text) ==
              if Crosses(tr, o, form) then Failure(BoundsCross) else Success(FormRange(tr, form))
    {
      FormText(tr, form, text);
      FormRead(tr, o, form);
    }
    if FromText(tr, o, text).Success? && !IsEmptyWord(text) {
      var form := FormOfRead(tr, o, text);
    }
  }

  lemma FormText<T(!new)>(tr: Traits<T>, form: Form, text: string)
    requires Spells(tr, form, text)
    ensures text == form.Text()
  {
  }

  // ----- Why a text is not read -----

  /** What is wrong with the side at `pos`, or with what follows it. */
  ghost predicate SideFails<T(!new)>(tr: Traits<T>, input: string, pos: nat, isLast: bool, e: ReadError) {
    match e
    case NoGlyph => pos >= |input| || SideEnds(tr, input, pos, |input|)
    case MissingQuote => NeverClosed(input, pos)
    case BadValue => SideWrong(tr, input, pos)
    case CommaExpected =>
      !isLast && exists end: nat :: end < |input| && SideEnds(tr, input, pos, end) && input[end] != ','
    case TooManyFields =>
      isLast && exists end: nat :: end < |input| && SideEnds(tr, input, pos, end) && input[end] == ','
    case NotClosed =>
      isLast && exists end: nat :: end < |input| && SideEnds(tr, input, pos, end) && input[end] !in {',', ')', ']'}
    case TextAfterEnd =>
      isLast && exists end: nat :: end + 1 < |input| && SideEnds(tr, input, pos, end) && input[end] in {')', ']'}
    case _ => false
  }

  /** A side that converts stands at `pos` and ends at `end`. */
  ghost predicate SideEnds<T(!new)>(tr: Traits<T>, input: string, pos: nat, end: nat) {
    exists side :: StandsAt(input, pos, side) && Converts(tr, side) && end == pos + |side.Text()|
  }

  ghost predicate SideWrong<T(!new)>(tr: Traits<T>, input: string, pos: nat) {
    exists side :: StandsAt(input, pos, side) && !Converts(tr, side)
  }

  /** What is read as a field, and where it ends, told by what stands there. */
  lemma FieldTold<T(!new)>(tr: Traits<T>, input: string, pos: nat)
    ensures pos >= |input| ==> !NeverClosed(input, pos) && !SideWrong(tr, input, pos)
    ensures forall end: nat :: SideEnds(tr, input, pos, end) <==>
              pos < |input| && FieldAt(tr, input, pos).Success? && FieldAt(tr, input, pos).value.1 == end
    ensures forall end: nat :: SideEnds(tr, input, pos, end) ==> end <= |input|
    ensures pos < |input| ==>
              && (FieldAt(tr, input, pos) == Failure(MissingQuote) <==> NeverClosed(input, pos))
              && (FieldAt(tr, input, pos) == Failure(BadValue) <==> SideWrong(tr, input, pos))
              && (FieldAt(tr, input, pos).Failure? ==> FieldAt(tr, input, pos).error in {MissingQuote, BadValue})
  {
    hide FieldAt, StandsAt, NeverClosed, Converts, Meaning;
    if pos >= |input| {
      NothingBeyond(input, pos);
    } else {
      var side := SomethingStands(input, pos);
      if NeverClosed(input, pos) {
        NothingStands(tr, input, pos);
      } else {
        SideRead(tr, input, pos, side);
        StandsWithin(input, pos, side);
        forall other | StandsAt(input, pos, other)
          ensures |other.Text()| == |side.Text()| && Converts(tr, other) == Converts(tr, side)
        {
          SameStands(tr, input, pos, side, other);
        }
      }
    }
  }

  lemma SideFailsExactly<T(!new)>(tr: Traits<T>, input: string, pos: nat, isLast: bool, e: ReadError)
    ensures CompositeField(tr, input, pos, isLast) == Failure(e) <==> SideFails(tr, input, pos, isLast, e)
  {
    hide FieldAt, SideEnds, SideWrong, NeverClosed;
    FieldTold(tr, input, pos);
    if pos < |input| && FieldAt(tr, input, pos).Success? {
      assert SideEnds(tr, input, pos, FieldAt(tr, input, pos).value.1);
    }
  }

  lemma NothingBeyond(input: string, pos: nat)
    requires pos >= |input|
    ensures !NeverClosed(input, pos) && forall side :: !StandsAt(input, pos, side)
  {
    forall side | StandsAt(input, pos, side)
      ensures false
    {
      SideRead(StringConversions(), input, pos, side);
    }
  }

  lemma StandsWithin(input: string, pos: nat, side: Side)
    requires StandsAt(input, pos, side)
    ensures pos + |side.Text()| <= |input|
  {
  }

  lemma NothingStands<T(!new)>(tr: Traits<T>, input: string, pos: nat)
    requires NeverClosed(input, pos)
    ensures FieldAt(tr, input, pos) == Failure(MissingQuote)
    ensures forall side :: !StandsAt(input, pos, side)
  {
    var none := SomethingStands(input, pos);
    forall side | StandsAt(input, pos, side)
      ensures false
    {
      SideRead(StringConversions(), input, pos, side);
      StringMeaning(side);
    }
  }

  /** All that can stand at a position is as long and says the same. */
  lemma SameStands<T(!new)>(tr: Traits<T>, input: string, pos: nat, a: Side, b: Side)
    requires StandsAt(input, pos, a) && StandsAt(input, pos, b)
    ensures |a.Text()| == |b.Text()| && Converts(tr, a) == Converts(tr, b)
  {
    hide FieldAt, StandsAt;
    SideRead(StringConversions(), input, pos, a);
    SideRead(StringConversions(), input, pos, b);
    StringMeaning(a);
    StringMeaning(b);
  }

  /** Over strings everything converts, to what it says. */
  lemma StringMeaning(side: Side)
    ensures Converts(StringConversions(), side)
    ensures Meaning(StringConversions(), side) == if side.Absent? then None else Some(side.Says())
  {
  }

  /** What is wrong with a text that is not read. */
  ghost predicate ReadingFails<T(!new)>(tr: Traits<T>, o: Order<T>, text: string, e: ReadError) {
    match e
    case BadInput =>
      |text| < 3 || text[0] !in {'e', 'E', '[', '('} || (text[0] in {'e', 'E'} && LowerCase(text) != "empty")
    case BoundsCross => exists form :: Spells(tr, form, text) && Crosses(tr, o, form)
    case _ =>
      |text| >= 3 && text[0] in {'[', '('} &&
      (|| SideFails(tr, text, 1, false, e)
       || exists end: nat :: end < |text| && SideEnds(tr, text, 1, end) && text[end] == ',' &&
                             SideFails(tr, text, end + 1, true, e))
  }

  /** The failures of the reader that are not for crossing bounds, from its fields. */
  lemma FromTextFails<T(!new)>(tr: Traits<T>, o: Order<T>, text: string, e: ReadError)
    ensures FromText(tr, o, text) == Failure(BadInput) <==>
            |text| < 3 || text[0] !in {'e', 'E', '[', '('} || (text[0] in {'e', 'E'} && LowerCase(text) != "empty")
    ensures e != BadInput && e != BoundsCross ==>
              (FromText(tr, o, text) == Failure(e) <==>
               && |text| >= 3 && text[0] in {'[', '('}
               && var first := CompositeField(tr, text, 1, false);
                  || first == Failure(e)
                  || (first.Success? && CompositeField(tr, text, first.value.1, true) == Failure(e)))
  {
    hide CompositeField, LowerCase;
    EmptyWordIs(text);
    FieldErrors(tr, text);
  }

  /** Exactly when reading a text fails, and why. */
  lemma FailsExactly<T(!new)>(tr: Traits<T>, o: Order<T>, text: string, e: ReadError)
    ensures FromText(tr, o, text) == Failure(e) <==> ReadingFails(tr, o, text, e)
  {
    hide FromText, CompositeField, SideFails, Spells, Crosses, SideEnds, FormRange, LowerCase;
    FromTextFails(tr, o, text, e);
    SideFailsExactly(tr, text, 1, false, e);
    if FromText(tr, o, text) == Failure(BoundsCross) {
      var form := FormOfRead(tr, o, text);
      FormText(tr, form, text);
      FormRead(tr, o, form);
    }
    forall form | Spells(tr, form, text) && Crosses(tr, o, form)
      ensures FromText(tr, o, text) == Failure(BoundsCross)
    {
      FormText(tr, form, text);
      FormRead(tr, o, form);
    }
    if |text| >= 3 && text[0] in {'[', '('} && e != BadInput && e != BoundsCross {
      SecondSide(tr, text, e);
    }
  }

  /** The second side is looked at exactly where the first one, read well, is followed by a comma. */
  lemma SecondSide<T(!new)>(tr: Traits<T>, text: string, e: ReadError)
    requires |text| >= 3
    ensures (exists end: nat :: end < |text| && SideEnds(tr, text, 1, end) && text[end] == ',' &&
                                SideFails(tr, text, end + 1, true, e)) <==>
            CompositeField(tr, text, 1, false).Success? &&
            CompositeField(tr, text, CompositeField(tr, text, 1, false).value.1, true) == Failure(e)
  {
    hide FieldAt, SideFails, SideEnds;
    FieldTold(tr, text, 1);
    var first := CompositeField(tr, text, 1, false);
    if first.Success? {
      assert SideEnds(tr, text, 1, first.value.1 - 1);
      SideFailsExactly(tr, text, first.value.1, true, e);
    }
  }

  // ----- The round trip -----

  predicate BoundSafe<T(!new)>(tr: Traits<T>, b: Bound<T>) {
    b.IsLimited() ==> Safe(tr.textOf(b.value))
  }

  /** The value of a bound, if it has one. */
  function ValueOf<T>(b: Bound<T>): Option<T> {
    if b.IsLimited() then Some(b.value) else None
  }

  /** How a bound is written, which is never quoted. */
  function SideOf<T(!new)>(tr: Traits<T>, b: Bound<T>): Side {
    if b.IsLimited() then Bare(tr.textOf(b.value)) else Absent
  }

  /** The text of a range that is not clearly empty is that of a form, legal or not. */
  function FormOf<T(!new)>(tr: Traits<T>, r: Range<T>): (form: Form)
    ensures form.lower.Text() == BoundText(tr, r.lower) && form.upper.Text() == BoundText(tr, r.upper)
  {
    Form(if r.lower.Inclusive? then '[' else '(', SideOf(tr, r.lower),
         SideOf(tr, r.upper), if r.upper.Inclusive? then ']' else ')')
  }

  /** A range whose bounds are safe to write unquoted reads back as itself, up to equality. */
  lemma RoundTrip<T(!new)>(tr: Traits<T>, o: Order<T>, r: Range<T>)
    requires tr.Contract() && o.Strict() && Valid(o, r)
    requires Empty(o, r) || (BoundSafe(tr, r.lower) && BoundSafe(tr, r.upper))
    ensures FromText(tr, o, Text(tr, o, r)).Success?
    ensures Equal(o, FromText(tr, o, Text(tr, o, r)).value, r)
  {
    if !Empty(o, r) {
      RoundTripBounds(tr, o, r);
    }
  }

  lemma RoundTripBounds<T(!new)>(tr: Traits<T>, o: Order<T>, r: Range<T>)
    requires tr.Contract() && Valid(o, r) && !Empty(o, r)
    requires BoundSafe(tr, r.lower) && BoundSafe(tr, r.upper)
    ensures FromText(tr, o, Text(tr, o, r)) == Success(r)
  {
    assert Text(tr, o, r) == FormOf(tr, r).Text();
    assert FormRange(tr, FormOf(tr, r)) == r;
    assert Spells(tr, FormOf(tr, r), FormOf(tr, r).Text());
    FormRead(tr, o, FormOf(tr, r));
  }

  /** Every range over `int` survives: the written digits never need quoting. */
  lemma IntRoundTrip(o: Order<Int32>, r: Range<Int32>)
    requires o.Strict() && Valid(o, r)
    ensures FromText(IntConversions(), o, Text(IntConversions(), o, r)).Success?
    ensures Equal(o, FromText(IntConversions(), o, Text(IntConversions(), o, r)).value, r)
  {
    IntContract();
    forall i: Int32
      ensures Safe(IntConversions().textOf(i))
    {
      IntSafe(i);
    }
    RoundTrip(IntConversions(), o, r);
  }

  lemma IntSafe(i: Int32)
    ensures Safe(Decimal.Print(i))
  {
    Decimal.ParsePrint(i);
    var s := Decimal.Print(i);
    assert forall k | 0 <= k < |s| :: s[k] in s;
  }

  // ----- Exactly which ranges survive -----

  /** A value is the only one with its text, and its text the only one it is read from. */
  ghost predicate Canonical<T(!new)>(tr: Traits<T>) {
    tr.Contract() && forall s, v :: tr.parse(s) == Some(v) ==> tr.textOf(v) == s
  }

  /**
   A bound whose text starts with a double-quote is not read back: were it, every character
   of the text would be part of an escape, and so would the character that follows it.
   */
  lemma QuotedIsOther(input: string, pos: nat, text: string, stop: char, units: seq<Unit>)
    requires text != "" && text[0] == '"' && stop !in ESCAPES
    requires OccursAt(input, pos, text + [stop])
    requires LegalUnits(units) && OccursAt(input, pos + 1, UnitsText(units) + "\"")
    ensures UnitsValue(units) != text
  {
    if UnitsValue(units) == text {
      var s := text + [stop];
      OccursChars(input, pos, s);
      assert input[pos + |text|] == s[|text|] == stop;
      assert text[0..] == text;
      NoEscapeEnds(input, pos, text, 0, units);
    }
  }

  const ESCAPES: set<char> := {'"', '\\'}

  /**
   Reading on from unit `j`: each unit so far took two characters, so it starts `2 * j + 1`
   characters in, while the character it stands for is that of index `j`, long passed.
   */
  lemma {:induction false} NoEscapeEnds(input: string, pos: nat, text: string, j: nat, rest: seq<Unit>)
    requires pos + |text| < |input| && 2 * j < |text|
    requires forall i | pos <= i < pos + |text| :: input[i] == text[i - pos]
    requires input[pos + |text|] !in ESCAPES
    requires forall i | pos <= i <= pos + 2 * j :: input[i] in ESCAPES
    requires LegalUnits(rest) && UnitsValue(rest) == text[j..]
    requires OccursAt(input, pos + 1 + 2 * j, UnitsText(rest) + "\"")
    ensures false
    decreases |text| - j
  {
    hide UnitsText, OccursAt, Unit.Value, Unit.Text, Unit.Legal;
    var unit, at := rest[0], pos + 1 + 2 * j;
    assert unit.Value() == text[j] == input[pos + j];
    assert unit.Legal();
    EscapeUnit(unit);
    UnitsHead(input, at, rest);
    if 2 * j + 2 < |text| {
      assert UnitsValue(rest)[1..] == text[j + 1..];
      NoEscapeEnds(input, pos, text, j + 1, rest[1..]);
    }
  }

  /** A unit that stands for a quote or a backslash is an escape, and two of those characters. */
  lemma EscapeUnit(unit: Unit)
    requires unit.Legal() && unit.Value() in ESCAPES
    ensures |unit.Text()| == 2 && unit.Text()[0] in ESCAPES && unit.Text()[1] in ESCAPES
  {
  }

  /** Only safe text is read back as the bound it came from. */
  lemma FieldExact<T(!new)>(tr: Traits<T>, input: string, pos: nat, b: Bound<T>, stop: char)
    requires Canonical(tr) && stop in STOPS
    requires OccursAt(input, pos, BoundText(tr, b) + [stop])
    ensures FieldAt(tr, input, pos).Success? && FieldAt(tr, input, pos).value.0 == ValueOf(b) ==> BoundSafe(tr, b)
  {
    var text := BoundText(tr, b);
    var s := text + [stop];
    OccursChars(input, pos, s);
    var field := FieldAt(tr, input, pos);
    if b.IsLimited() && field.Success? && field.value.0 == Some(b.value) {
      assert input[pos] == s[0];
      if input[pos] == '"' {
        var units := QuotedEndIsUnits(input, pos + 1);
        UnescapedOfUnits(input, pos + 1, units);
        assert UnitsValue(units) == text;
        QuotedIsOther(input, pos, text, stop, units);
        assert false;
      } else {
        var end := UnquotedEnd(input, pos, STOPS);
        assert input[pos..end] == text;
        assert forall i | 0 <= i < |text| :: text[i] == input[pos..end][i];
      }
    }
  }

  /**
   For a type whose values and texts match one to one, a range survives the trip exactly when
   it is clearly empty or its bounds are safe to write unquoted.
   */
  lemma RoundTripExact<T(!new)>(tr: Traits<T>, o: Order<T>, r: Range<T>)
    requires Canonical(tr) && o.Strict() && Valid(o, r)
    ensures (FromText(tr, o, Text(tr, o, r)).Success? && Equal(o, FromText(tr, o, Text(tr, o, r)).value, r)) <==>
            Empty(o, r) || (BoundSafe(tr, r.lower) && BoundSafe(tr, r.upper))
  {
    hide Text, FromText, Valid, BoundSafe;
    if Empty(o, r) || (BoundSafe(tr, r.lower) && BoundSafe(tr, r.upper)) {
      RoundTrip(tr, o, r);
    } else if FromText(tr, o, Text(tr, o, r)) == Success(r) {
      OnlySafeReadsBack(tr, o, r);
    } else {
      EqualIsRaw(o, r, r);
    }
  }

  lemma OnlySafeReadsBack<T(!new)>(tr: Traits<T>, o: Order<T>, r: Range<T>)
    requires Canonical(tr) && !Empty(o, r)
    requires FromText(tr, o, Text(tr, o, r)) == Success(r)
    ensures BoundSafe(tr, r.lower) && BoundSafe(tr, r.upper)
  {
    hide FieldAt, FromText;
    var text, form := Text(tr, o, r), FormOf(tr, r);
    assert text == form.Text();
    Parts(text, form.opening, form.lower.Text(), form.upper.Text(), form.closing);
    var lower, upper := ReadFields(tr, o, text);
    FieldExact(tr, text, 1, r.lower, ',');
    SideStands(text, 1, form.lower, ',');
    SideRead(tr, text, 1, form.lower);
    FieldExact(tr, text, |form.lower.Text()| + 2, r.upper, form.closing);
  }

  /** The two fields of a text that is read as a range. */
  lemma ReadFields<T(!new)>(tr: Traits<T>, o: Order<T>, text: string)
    returns (lower: (Option<T>, nat), upper: (Option<T>, nat))
    requires FromText(tr, o, text).Success? && !IsEmptyWord(text)
    ensures |text| >= 3 && text[0] in {'[', '('}
    ensures FieldAt(tr, text, 1) == Success(lower) && lower.1 + 1 < |text|
    ensures FieldAt(tr, text, lower.1 + 1) == Success(upper)
    ensures text[lower.1] == ',' && upper.1 + 1 == |text| && text[upper.1] in {')', ']'}
    ensures FromText(tr, o, text).value ==
            Range(BoundOf(lower.0, text[0] == '['), BoundOf(upper.0, text[upper.1] == ']'))
    ensures Valid(o, FromText(tr, o, text).value)
    ensures ValueOf(FromText(tr, o, text).value.lower) == lower.0
    ensures ValueOf(FromText(tr, o, text).value.upper) == upper.0
  {
    hide FieldAt;
    lower := FieldAt(tr, text, 1).value;
    upper := FieldAt(tr, text, lower.1 + 1).value;
  }

  /** Ranges over `std::string` are of that kind, and not all of them survive. */
  lemma StringRoundTripFails(o: Order<string>)
    requires o.Strict()
    ensures Canonical(StringConversions())
    ensures var r := Range(Inclusive("a,b"), NoBound);
            && Valid(o, r)
            && !(FromText(StringConversions(), o, Text(StringConversions(), o, r)).Success? &&
                 Equal(o, FromText(StringConversions(), o, Text(StringConversions(), o, r)).value, r))
  {
    StringContract();
    var s := "a,b";
    assert s[1] in STOPS;
    RoundTripExact(StringConversions(), o, Range(Inclusive("a,b"), NoBound));
  }
}
