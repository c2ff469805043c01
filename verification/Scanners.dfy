/**
 The field scanners that array and composite parsing share, for a single-byte encoding:
 where a field ends, and what a double-quoted field says once its quotes and escapes are gone.
 */
module Scanners {
  import opened Wrappers

  // ----- What a quoted field is -----

  /** One unit between the quotes: a character that needs no escape, a backslash and the
      character it protects, or a doubled double-quote. */
  datatype Unit = Plain(c: char) | Escaped(c: char) | DoubledQuote {
    predicate Legal() {
      Plain? ==> c != '\\' && c != '"'
    }

    function Text(): string {
      match this
      case Plain(c) => [c]
      case Escaped(c) => ['\\', c]
      case DoubledQuote => "\"\""
    }

    /** The last character of its text. */
    function Value(): (value: char)
      ensures value == Text()[|Text()| - 1]
    {
      if DoubledQuote? then '"' else c
    }
  }

  ghost predicate LegalUnits(units: seq<Unit>) {
    forall u <- units :: u.Legal()
  }

  function UnitsText(units: seq<Unit>): string {
    if units == [] then "" else units[0].Text() + UnitsText(units[1..])
  }

  function UnitsValue(units: seq<Unit>): (s: string)
    ensures |s| == |units|
  {
    if units == [] then "" else [units[0].Value()] + UnitsValue(units[1..])
  }

  /** `text` occurs in `input` from position `pos` on. */
  predicate OccursAt(input: string, pos: nat, text: string) {
    pos + |text| <= |input| && input[pos..pos + |text|] == text
  }

  lemma OccursSplit(input: string, pos: nat, a: string, b: string)
    ensures OccursAt(input, pos, a + b) <==> OccursAt(input, pos, a) && OccursAt(input, pos + |a|, b)
  {
    if pos + |a| + |b| <= |input| {
      var s := input[pos..pos + |a + b|];
      assert s[..|a|] == input[pos..pos + |a|];
      assert s[|a|..] == input[pos + |a|..pos + |a| + |b|];
      assert s == s[..|a|] + s[|a|..];
      assert (a + b)[..|a|] == a && (a + b)[|a|..] == b;
    }
  }

  lemma OccursChars(input: string, pos: nat, text: string)
    requires OccursAt(input, pos, text)
    ensures forall i | pos <= i < pos + |text| :: input[i] == text[i - pos]
  {
    assert forall i | pos <= i < pos + |text| :: input[i] == input[pos..pos + |text|][i - pos];
  }

  lemma OccursFirst(input: string, pos: nat, text: string)
    requires OccursAt(input, pos, text) && text != ""
    ensures pos + |text| <= |input| && input[pos] == text[0]
  {
    OccursChars(input, pos, text);
  }

  /** Reading off the first unit of a quoted field. */
  lemma UnitsHead(input: string, pos: nat, units: seq<Unit>)
    requires units != [] && OccursAt(input, pos, UnitsText(units) + "\"")
    ensures var first := units[0].Text();
            && pos + |first| < |input|
            && input[pos] == first[0] && (|first| == 2 ==> input[pos + 1] == first[1])
            && OccursAt(input, pos + |first|, UnitsText(units[1..]) + "\"")
            && |UnitsText(units)| == |first| + |UnitsText(units[1..])|
  {
    var first, rest := units[0].Text(), UnitsText(units[1..]) + "\"";
    assert UnitsText(units) + "\"" == first + rest;
    OccursSplit(input, pos, first, rest);
    OccursChars(input, pos, first);
  }

  /** Putting a unit before the rest of a quoted field. */
  lemma UnitsCons(input: string, pos: nat, unit: Unit, rest: seq<Unit>)
    requires OccursAt(input, pos, unit.Text())
    requires OccursAt(input, pos + |unit.Text()|, UnitsText(rest) + "\"")
    ensures OccursAt(input, pos, UnitsText([unit] + rest) + "\"")
    ensures |UnitsText([unit] + rest)| == |unit.Text()| + |UnitsText(rest)|
  {
    assert ([unit] + rest)[1..] == rest;
    assert UnitsText([unit] + rest) + "\"" == unit.Text() + (UnitsText(rest) + "\"");
    OccursSplit(input, pos, unit.Text(), UnitsText(rest) + "\"");
  }

  // ----- Where a quoted field ends -----

  /** The position just past the closing quote, scanning from `pos` inside the quotes. */
  function QuotedEnd(input: string, pos: nat): Option<nat>
    decreases |input| - pos
  {
    if pos >= |input| then None
    else if input[pos] == '\\' then QuotedEnd(input, pos + 2)
    else if input[pos] != '"' then QuotedEnd(input, pos + 1)
    else if pos + 1 < |input| && input[pos + 1] == '"' then QuotedEnd(input, pos + 2)
    else Some(pos + 1)
  }

  lemma {:induction false} QuotedEndBound(input: string, pos: nat)
    ensures QuotedEnd(input, pos).Some? ==> pos < QuotedEnd(input, pos).value <= |input|
    decreases |input| - pos
  {
    if pos < |input| {
      QuotedEndBound(input, pos + 1);
      QuotedEndBound(input, pos + 2);
    }
  }

  /** `glyph_scanner<MONOBYTE>::call`. */
  function NextGlyph(size: nat, pos: nat): nat {
    if pos >= size then NPOS else pos + 1
  }

  method ScanDoubleQuotedString(input: string, start: nat) returns (end: Option<nat>)
    requires |input| < NPOS
    requires start < |input|
    ensures end == QuotedEnd(input, start + 1)
  {
    var size := |input|;
    var next := NextGlyph(size, start);
    var atQuote := false;
    var pos := next;
    next := NextGlyph(size, pos);
    while pos < size
      invariant next == NextGlyph(size, pos)
      invariant atQuote ==> pos <= size
      invariant QuotedEnd(input, start + 1) ==
                if !atQuote then QuotedEnd(input, pos)
                else if pos < size && input[pos] == '"' then QuotedEnd(input, pos + 1)
                else Some(pos)
      decreases size - pos
    {
      if atQuote {
        if next - pos == 1 && input[pos] == '"' {
          atQuote := false;
        } else {
          return Some(pos);
        }
      } else if next - pos == 1 {
        if input[pos] == '\\' {
          pos := next;
          next := NextGlyph(size, pos);
        } else if input[pos] == '"' {
          atQuote := true;
        }
      }
      pos := next;
      next := NextGlyph(size, pos);
    }
    if !atQuote {
      return None;
    }
    return Some(pos);
  }

  /** A quoted field is found whole: the scan stops at its own closing quote and nowhere else. */
  lemma {:induction false} QuotedEndOfUnits(input: string, pos: nat, units: seq<Unit>)
    requires LegalUnits(units)
    requires OccursAt(input, pos, UnitsText(units) + "\"")
    requires pos + |UnitsText(units)| + 1 < |input| ==> input[pos + |UnitsText(units)| + 1] != '"'
    ensures QuotedEnd(input, pos) == Some(pos + |UnitsText(units)| + 1)
    decreases units
  {
    hide UnitsValue;
    if units == [] {
      assert input[pos] == input[pos..pos + 1][0];
    } else {
      UnitsHead(input, pos, units);
      assert units[0].Legal();
      QuotedEndOfUnits(input, pos + |units[0].Text()|, units[1..]);
    }
  }

  /** What the scan accepts is a quoted field, followed by no further quote. */
  lemma {:induction false} QuotedEndIsUnits(input: string, pos: nat) returns (units: seq<Unit>)
    requires QuotedEnd(input, pos).Some?
    ensures LegalUnits(units)
    ensures OccursAt(input, pos, UnitsText(units) + "\"")
    ensures QuotedEnd(input, pos) == Some(pos + |UnitsText(units)| + 1)
    ensures pos + |UnitsText(units)| + 1 < |input| ==> input[pos + |UnitsText(units)| + 1] != '"'
    decreases |input| - pos
  {
    if input[pos] == '"' && !(pos + 1 < |input| && input[pos + 1] == '"') {
      units := [];
    } else {
      var unit := UnitAt(input, pos);
      hide QuotedEnd;
      var rest := QuotedEndIsUnits(input, pos + |unit.Text()|);
      units := [unit] + rest;
      UnitsCons(input, pos, unit, rest);
    }
  }

  /** The unit that the scan passes over at `pos`. */
  lemma UnitAt(input: string, pos: nat) returns (unit: Unit)
    requires QuotedEnd(input, pos).Some?
    requires input[pos] == '"' ==> pos + 1 < |input| && input[pos + 1] == '"'
    ensures unit.Legal() && OccursAt(input, pos, unit.Text())
    ensures QuotedEnd(input, pos) == QuotedEnd(input, pos + |unit.Text()|)
  {
    if input[pos] == '\\' {
      unit := Escaped(input[pos + 1]);
      assert input[pos..pos + 2] == unit.Text();
    } else if input[pos] == '"' {
      unit := DoubledQuote;
      assert input[pos..pos + 2] == unit.Text();
    } else {
      unit := Plain(input[pos]);
      assert input[pos..pos + 1] == unit.Text();
    }
  }

  /** An opening quote that no legal units bring to a closing one. */
  ghost predicate NeverClosed(input: string, pos: nat) {
    && pos < |input| && input[pos] == '"'
    && forall units | LegalUnits(units) && OccursAt(input, pos + 1, UnitsText(units) + "\"") ::
         var end := pos + 1 + |UnitsText(units)| + 1;
         end < |input| && input[end] == '"'
  }

  lemma NeverClosedExactly(input: string, pos: nat)
    requires pos < |input| && input[pos] == '"'
    ensures NeverClosed(input, pos) <==> QuotedEnd(input, pos + 1).None?
  {
    hide UnitsText, QuotedEnd, LegalUnits, OccursAt;
    if QuotedEnd(input, pos + 1).None? {
      forall units | LegalUnits(units) && OccursAt(input, pos + 1, UnitsText(units) + "\"")
        ensures var end := pos + 1 + |UnitsText(units)| + 1; end < |input| && input[end] == '"'
      {
        if !(pos + 1 + |UnitsText(units)| + 1 < |input| && input[pos + 1 + |UnitsText(units)| + 1] == '"') {
          QuotedEndOfUnits(input, pos + 1, units);
        }
      }
    } else {
      var units := QuotedEndIsUnits(input, pos + 1);
    }
  }

  // ----- What a quoted field says -----

  /** The text from `here` up to the closing quote at `end - 1`, without its escapes. */
  function Unescaped(input: string, end: nat, here: nat): string
    requires end <= |input|
    decreases end - here
  {
    if here + 1 >= end then ""
    else if input[here] == '\\' || input[here] == '"' then [input[here + 1]] + Unescaped(input, end, here + 2)
    else [input[here]] + Unescaped(input, end, here + 1)
  }

  method ParseDoubleQuotedString(input: string, end: nat, start: nat) returns (output: string)
    requires start + 1 < end <= |input| < NPOS
    ensures output == Unescaped(input, end, start + 1)
  {
    output := "";
    var here := NextGlyph(end, start);
    var next := NextGlyph(end, here);
    while here < end - 1
      invariant here <= end && next == NextGlyph(end, here)
      invariant Unescaped(input, end, start + 1) == output + Unescaped(input, end, here)
      decreases end - here
    {
      if next - here == 1 && (input[here] == '\\' || input[here] == '"') {
        here := next;
        next := NextGlyph(end, here);
      }
      UnescapedOne(input, end, here, output);
      output := output + input[here..next];
      here := next;
      next := NextGlyph(end, here);
    }
  }

  /** One character more of the output, one less to read. */
  lemma UnescapedOne(input: string, end: nat, here: nat, output: string)
    requires here < end <= |input|
    ensures output + ([input[here]] + Unescaped(input, end, here + 1)) ==
            (output + input[here..here + 1]) + Unescaped(input, end, here + 1)
  {
    var rest := Unescaped(input, end, here + 1);
    assert |input[here..here + 1]| == 1 && input[here..here + 1][0] == input[here];
    assert input[here..here + 1] == [input[here]];
    assert output + ([input[here]] + rest) == (output + [input[here]]) + rest;
  }

  lemma {:induction false} UnescapedOfUnits(input: string, pos: nat, units: seq<Unit>)
    requires LegalUnits(units)
    requires OccursAt(input, pos, UnitsText(units) + "\"")
    ensures Unescaped(input, pos + |UnitsText(units)| + 1, pos) == UnitsValue(units)
    decreases units
  {
    hide OccursAt;
    if units == [] {
    } else {
      UnitsHead(input, pos, units);
      assert units[0].Legal();
      UnescapedOfUnits(input, pos + |units[0].Text()|, units[1..]);
    }
  }

  // ----- Unquoted fields -----

  /** The first position from `pos` on that holds a stop character, or the end of the input. */
  function UnquotedEnd(input: string, pos: nat, stops: set<char>): (end: nat)
    requires pos <= |input|
    ensures pos <= end <= |input|
    ensures forall i | pos <= i < end :: input[i] !in stops
    ensures end < |input| ==> input[end] in stops
    decreases |input| - pos
  {
    if pos < |input| && input[pos] !in stops then UnquotedEnd(input, pos + 1, stops) else pos
  }

  method ScanUnquotedString(input: string, start: nat, stops: set<char>) returns (pos: nat)
    requires start <= |input| < NPOS
    ensures pos == UnquotedEnd(input, start, stops)
  {
    pos := start;
    var next := NextGlyph(|input|, pos);
    while pos < |input| && (next - pos > 1 || input[pos] !in stops)
      invariant start <= pos <= |input| && next == NextGlyph(|input|, pos)
      invariant UnquotedEnd(input, start, stops) == UnquotedEnd(input, pos, stops)
      decreases |input| - pos
    {
      pos := next;
      next := NextGlyph(|input|, pos);
    }
  }

  /** A stretch of text with no stop character in it, ended by one, is scanned exactly. */
  lemma {:induction false} UnquotedEndUnique(input: string, pos: nat, end: nat, stops: set<char>)
    requires pos <= end <= |input|
    requires forall i | pos <= i < end :: input[i] !in stops
    requires end < |input| ==> input[end] in stops
    ensures UnquotedEnd(input, pos, stops) == end
    decreases end - pos
  {
    if pos < end {
      UnquotedEndUnique(input, pos + 1, end, stops);
    }
  }
}
