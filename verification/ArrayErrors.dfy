/**
 Why a text is not an array: for each of the parser's errors, what the text then has, said of the
 text and the rows it has opened, and proved to be the reason exactly.
 */
module ArrayErrors {
  import opened Wrappers
  import opened Scanners
  import opened ArrayGrammar
  import opened ArrayMachine
  import opened ArrayRoundTrip
  import opened ArrayAcceptance

  /** What the text is so far: some rows still open, or a whole array. */
  datatype Progress = Inside(rows: Stack) | Done(whole: Tree)

  /** The innermost open dimension, counted from one; zero outside all braces. */
  function Depth(p: Progress): nat {
    if p.Inside? then |p.rows| else 0
  }

  /** The text up to `here` is what `p` says, with the items read so far of sizes `shape`. */
  ghost predicate Stands(f: Format, dims: nat, data: string, here: nat, p: Progress, shape: seq<nat>) {
    && here <= |data| && |shape| == dims && OnlyRowsEmpty(shape)
    && match p
       case Inside(rows) =>
         && |rows| <= dims && TextRead(f, data, here, rows) && RowsLegal(f, dims, rows)
         && forall d | 0 <= d < |rows| :: RowShape(rows[d], shape[d + 1..])
       case Done(whole) =>
         && Rectangular(f, whole, shape)
         && (|| (data[..here] == Render(f, whole) && (here < |data| ==> data[here] == '}'))
             || (data[..here] == Render(f, whole) + [f.sep] && here < |data| && data[here] !in {f.sep, '}'}))
  }

  /** The row about to close has as many items as the rows before it on its level, if there are any. */
  ghost predicate SizeFits(rows: Stack, shape: seq<nat>)
    requires 0 < |rows| <= |shape|
  {
    (exists d :: 0 <= d < |rows| - 1 && rows[d] != []) ==> |rows[|rows| - 1]| == shape[|rows| - 1]
  }

  /** What is wrong before the text is looked at in order. */
  predicate StartFails(dims: nat, data: string, e: ParseError)
    requires dims >= 1
  {
    match e
    case TooShort => |data| < 2 * dims
    case NoOpeningBrace => |data| >= 2 * dims && data[0] != '{'
    case TooFewDimensions => |data| >= 2 * dims && data[0] == '{' && exists i | 0 <= i < dims :: data[i] != '{'
    case TooManyDimensions => |data| >= 2 * dims && (forall i | 0 <= i < dims :: data[i] == '{') && data[dims] == '{'
    case BadClosingBraces =>
      && |data| >= 2 * dims && (forall i | 0 <= i < dims :: data[i] == '{') && data[dims] != '{'
      && exists i | |data| - dims <= i < |data| :: data[i] != '}'
    case _ => false
  }

  /** What is wrong with the field at `here`. */
  ghost predicate FieldFails(f: Format, data: string, here: nat, e: ParseError)
    requires here < |data|
  {
    match e
    case ZeroByte => data[here] == '\0'
    case EmptyField => data[here] == ','
    case MissingQuote => NeverClosed(data, here)
    case UnexpectedNull => FieldStands(f, data, here, Bare("NULL")) && !f.accepts(None)
    case BadElement =>
      exists token :: FieldStands(f, data, here, token) && token != Bare("NULL") && !f.accepts(token.Value())
    case _ => false
  }

  /** What is wrong after an item that ends at `end`. */
  predicate EndFails(f: Format, data: string, end: nat, e: ParseError) {
    match e
    case UnexpectedCharacter(c) => end < |data| && data[end] == c && c != f.sep && c != '}'
    case Truncated => end + 1 == |data| && data[end] == f.sep
    case DoubleSeparator => end + 1 < |data| && data[end] == f.sep && data[end + 1] == f.sep
    case TrailingSeparator => end + 1 < |data| && data[end] == f.sep && data[end + 1] == '}'
    case _ => false
  }

  /** A field that is taken ends at `end`. */
  ghost predicate FieldEnds(f: Format, data: string, here: nat, end: nat) {
    exists token :: FieldStands(f, data, here, token) && f.accepts(token.Value()) && end == here + |token.Text()|
  }

  /** An item that is fine in itself ends at `end`: a field, or the row whose closing brace is at `here`. */
  ghost predicate ItemEnds(f: Format, dims: nat, data: string, here: nat, p: Progress, shape: seq<nat>, end: nat)
    requires |shape| == dims && Depth(p) <= dims && here < |data|
  {
    if data[here] == '}' then p.Inside? && p.rows != [] && SizeFits(p.rows, shape) && end == here + 1
    else
      data[here] != '{' && Depth(p) == dims && FieldEnds(f, data, here, end)
  }

  /** What is wrong at `here`, where the text stands as `p` says. */
  ghost predicate FailsAt(f: Format, dims: nat, data: string, here: nat, p: Progress, shape: seq<nat>, e: ParseError)
    requires |shape| == dims && Depth(p) <= dims && here <= |data|
  {
    match e
    case Unfinished => here == |data| && p.Inside? && p.rows != []
    case Reopened => here < |data| && data[here] == '{' && p.Done?
    case SpuriousClose => here < |data| && data[here] == '}' && p.Done?
    case InconsistentDepth => here < |data| && data[here] == '{' && p.Inside? && |p.rows| == dims
    case InconsistentSizes =>
      here < |data| && data[here] == '}' && p.Inside? && p.rows != [] && !SizeFits(p.rows, shape)
    case MisplacedElement => here < |data| && data[here] !in {'{', '}'} && Depth(p) < dims
    case UnexpectedCharacter(_) | Truncated | DoubleSeparator | TrailingSeparator =>
      here < |data| && exists end: nat :: ItemEnds(f, dims, data, here, p, shape, end) && EndFails(f, data, end, e)
    case ZeroByte | EmptyField | MissingQuote | UnexpectedNull | BadElement =>
      here < |data| && data[here] !in {'{', '}'} && Depth(p) == dims && FieldFails(f, data, here, e)
    case _ => false
  }

  // ----- One step -----

  lemma FieldEndFails(f: Format, data: string, end: nat, e: ParseError)
    requires f.Valid() && end <= |data|
    ensures FieldEnd(f, data, end) == Failure(e) <==> EndFails(f, data, end, e)
  {
  }

  lemma QuotedFieldStands(f: Format, data: string, here: nat) returns (token: Token)
    requires here < |data| && data[here] == '"' && QuotedEnd(data, here + 1).Some?
    ensures FieldStands(f, data, here, token)
  {
    hide QuotedEnd, UnitsText, LegalUnits;
    var units := QuotedEndIsUnits(data, here + 1);
    token := Quoted(units);
    assert token.Text() == "\"" + (UnitsText(units) + "\"");
    assert OccursAt(data, here, "\"");
    OccursSplit(data, here, "\"", UnitsText(units) + "\"");
  }

  /** What a field at `here` can be, where the parser looks for one. */
  lemma SomeField(f: Format, data: string, here: nat) returns (token: Token)
    requires f.Valid() && here < |data| && data[here] !in {'{', '}', '\0', ','}
    ensures NeverClosed(data, here) || FieldStands(f, data, here, token)
    ensures NeverClosed(data, here) <==> data[here] == '"' && QuotedEnd(data, here + 1).None?
  {
    hide QuotedEnd, UnitsText, LegalUnits, NeverClosed;
    token := GAP.token;
    if data[here] == '"' {
      NeverClosedExactly(data, here);
      if QuotedEnd(data, here + 1).Some? {
        token := QuotedFieldStands(f, data, here);
      }
    } else {
      NotClosedIsQuote(data, here);
      var end := UnquotedEnd(data, here, FieldStops(f));
      token := Bare(data[here..end]);
      assert end > here ==> token.text[0] == data[here];
    }
  }

  lemma ScanFieldFails(f: Format, data: string, here: nat, e: ParseError)
    requires f.Valid() && here < |data| && data[here] !in {'{', '}'}
    ensures ScanField(f, data, here) == Failure(e) <==> FieldFails(f, data, here, e)
  {
    hide FieldStands, QuotedEnd, Unescaped, UnquotedEnd, NeverClosed;
    forall token | FieldStands(f, data, here, token)
      ensures data[here] !in {',', '\0'}
      ensures ScanField(f, data, here) == Converted(f, here + |token.Text()|, token.Value())
    {
      FieldScanned(f, data, here, token);
    }
    if data[here] !in {'\0', ','} {
      var token := SomeField(f, data, here);
      if !NeverClosed(data, here) {
        OnlyBareNull(token);
      }
    } else {
      NotClosedIsQuote(data, here);
    }
    forall token: Token
      ensures token.Value() == None <==> token == Bare("NULL")
    {
      OnlyBareNull(token);
    }
  }

  lemma NotClosedIsQuote(data: string, here: nat)
    ensures NeverClosed(data, here) ==> here < |data| && data[here] == '"'
  {
  }

  lemma OnlyBareNull(token: Token)
    ensures token.Value() == None <==> token == Bare("NULL")
  {
  }

  /** Where a state agrees with what the text is so far. */
  ghost predicate Matches(dims: nat, s: State, p: Progress, shape: seq<nat>)
    requires |shape| == |s.extents| == |s.counts| == dims && -1 <= s.level < dims
  {
    && s.level == Depth(p) - 1
    && Agrees(dims, s, shape)
    && match p
       case Done(_) => s.known == 0
       case Inside(rows) =>
         && 1 <= s.known
         && (rows != [] ==> s.counts[s.level] == |rows[|rows| - 1]|)
         && (forall d | 0 <= d < |rows| && rows[d] != [] :: s.known <= d + 1)
         && (s.known < dims ==> s.known <= |rows| && rows[s.known - 1] != [])
  }

  /** The row about to close is compared exactly if a row before it on its level has closed. */
  lemma ComparedExactly(dims: nat, data: string, s: State, rows: Stack, shape: seq<nat>)
    requires Inv(dims, data, s) && |shape| == dims && rows != [] && Matches(dims, s, Inside(rows), shape)
    ensures SizeFits(rows, shape) <==> s.known <= s.level ==> s.counts[s.level] == s.extents[s.level].value
  {
  }

  lemma OpenFailsExactly(f: Format, dims: nat, data: string, s: State, p: Progress, shape: seq<nat>, e: ParseError)
    requires f.Valid() && Inv(dims, data, s) && |shape| == dims && Matches(dims, s, p, shape)
    requires s.here < |data| && data[s.here] == '{'
    ensures Step(f, dims, data, s) == Failure(e) <==> FailsAt(f, dims, data, s.here, p, shape, e)
  {
    hide FieldEnd, ScanField, SizeFits, FieldFails, EndFails;
    assert forall end :: !ItemEnds(f, dims, data, s.here, p, shape, end);
  }

  lemma CloseFailsExactly(f: Format, dims: nat, data: string, s: State, p: Progress, shape: seq<nat>, e: ParseError)
    requires f.Valid() && Inv(dims, data, s) && |shape| == dims && Matches(dims, s, p, shape)
    requires s.here < |data| && data[s.here] == '}' && p != Inside([])
    ensures Step(f, dims, data, s) == Failure(e) <==> FailsAt(f, dims, data, s.here, p, shape, e)
  {
    hide FieldEnd, ScanField, FieldFails, EndFails, SizeFits;
    if p.Inside? {
      ComparedExactly(dims, data, s, p.rows, shape);
    }
    FieldEndFails(f, data, s.here + 1, e);
    EndErrors(f, data, s.here + 1, e);
    assert forall end :: ItemEnds(f, dims, data, s.here, p, shape, end) <==>
                         p.Inside? && SizeFits(p.rows, shape) && end == s.here + 1;
  }

  lemma FieldFailsExactly(f: Format, dims: nat, data: string, s: State, p: Progress, shape: seq<nat>, e: ParseError)
    requires f.Valid() && Inv(dims, data, s) && |shape| == dims && Matches(dims, s, p, shape)
    requires s.here < |data| && data[s.here] !in {'{', '}'}
    ensures Step(f, dims, data, s) == Failure(e) <==> FailsAt(f, dims, data, s.here, p, shape, e)
  {
    hide Step, FieldEnd, ScanField, FieldFails, EndFails, FieldEnds, SizeFits, Matches, Inv;
    LevelIsDepth(dims, data, s, p, shape);
    StepFieldFails(f, dims, data, s, e);
    if Depth(p) == dims {
      ScanFieldFails(f, data, s.here, e);
      FieldErrors(f, data, s.here, e);
      AcceptedExactly(f, data, s.here);
      if ScanField(f, data, s.here).Success? {
        var end := ScanField(f, data, s.here).value.0;
        FieldEndFails(f, data, end, e);
        EndErrors(f, data, end, e);
      }
    }
  }

  lemma LevelIsDepth(dims: nat, data: string, s: State, p: Progress, shape: seq<nat>)
    requires |shape| == dims && Inv(dims, data, s) && Matches(dims, s, p, shape)
    ensures s.level == Depth(p) - 1 && Depth(p) <= dims
  {
  }

  lemma StepFieldFails(f: Format, dims: nat, data: string, s: State, e: ParseError)
    requires Inv(dims, data, s) && s.here < |data| && data[s.here] !in {'{', '}'}
    ensures Step(f, dims, data, s) == Failure(e) <==>
            if s.level != dims - 1 then e == MisplacedElement
            else
              var field := ScanField(f, data, s.here);
              field == Failure(e) || (field.Success? && FieldEnd(f, data, field.value.0) == Failure(e))
  {
    hide FieldEnd, ScanField;
  }

  /** The errors after an item, and those of a field. */
  lemma EndErrors(f: Format, data: string, end: nat, e: ParseError)
    ensures EndFails(f, data, end, e) ==>
              e.UnexpectedCharacter? || e.Truncated? || e.DoubleSeparator? || e.TrailingSeparator?
  {
  }

  lemma FieldErrors(f: Format, data: string, here: nat, e: ParseError)
    requires here < |data|
    ensures FieldFails(f, data, here, e) ==>
              e.ZeroByte? || e.EmptyField? || e.MissingQuote? || e.UnexpectedNull? || e.BadElement?
  {
  }

  /** Where a field that is taken ends. */
  lemma AcceptedExactly(f: Format, data: string, here: nat)
    requires f.Valid() && here < |data| && data[here] !in {'{', '}'}
    ensures forall end: nat :: FieldEnds(f, data, here, end) <==>
                               ScanField(f, data, here).Success? && ScanField(f, data, here).value.0 == end
  {
    hide FieldStands, QuotedEnd, Unescaped, UnquotedEnd, NeverClosed;
    forall token | FieldStands(f, data, here, token)
      ensures ScanField(f, data, here) == Converted(f, here + |token.Text()|, token.Value())
    {
      FieldScanned(f, data, here, token);
    }
    if ScanField(f, data, here).Success? {
      var token := SomeField(f, data, here);
      assert FieldStands(f, data, here, token);
    }
  }

  /** A step fails exactly as the text says it does. */
  lemma StepFailsExactly(f: Format, dims: nat, data: string, s: State, p: Progress, shape: seq<nat>, e: ParseError)
    requires f.Valid() && Inv(dims, data, s) && |shape| == dims && Matches(dims, s, p, shape)
    requires s.here < |data| && (p == Inside([]) ==> data[s.here] == '{')
    ensures Step(f, dims, data, s) == Failure(e) <==> FailsAt(f, dims, data, s.here, p, shape, e)
  {
    hide Step, FailsAt, Matches;
    if data[s.here] == '{' {
      OpenFailsExactly(f, dims, data, s, p, shape, e);
    } else if data[s.here] == '}' {
      CloseFailsExactly(f, dims, data, s, p, shape, e);
    } else {
      FieldFailsExactly(f, dims, data, s, p, shape, e);
    }
  }

  // ----- Every failure has its reason -----

  /** The sizes that a state has settled; of the others nothing is known. */
  function Settled(dims: nat, s: State): (shape: seq<nat>)
    requires |s.extents| == dims && forall d | s.known <= d < dims :: s.extents[d].Some?
    ensures |shape| == dims
  {
    seq(dims, d requires 0 <= d < dims => if s.known <= d then s.extents[d].value else 1)
  }

  /** The state is the one to be in where the text stands as `p` says. */
  ghost predicate Tracks(f: Format, dims: nat, data: string, s: State, p: Progress) {
    && dims >= 1 && Inv(dims, data, s)
    && match p
       case Inside(rows) => Read(f, dims, data, s, rows) && 1 <= s.known && (rows == [] ==> s.known == dims)
       case Done(_) => s.level == -1 && s.known == 0 && Stands(f, dims, data, s.here, p, Sizes(s.extents, 0))
  }

  lemma TracksMatches(f: Format, dims: nat, data: string, s: State, p: Progress)
    requires Tracks(f, dims, data, s, p)
    ensures Matches(dims, s, p, Settled(dims, s))
  {
    hide Stands, TextRead, RowsLegal, RowShape, Stored;
  }

  lemma TracksStands(f: Format, dims: nat, data: string, s: State, p: Progress)
    requires Tracks(f, dims, data, s, p)
    ensures Stands(f, dims, data, s.here, p, Settled(dims, s))
    ensures p == Inside([]) && s.here < |data| ==> data[s.here] == '{'
  {
    hide TextRead, RowsLegal, RowShape, Stored, Rectangular;
    var shape := Settled(dims, s);
    if p.Inside? {
      forall d | 0 <= d < |p.rows|
        ensures RowShape(p.rows[d], shape[d + 1..])
      {
        if p.rows[d] == [] {
          NoItems(shape[d + 1..]);
        } else {
          assert shape[d + 1..] == Sizes(s.extents, d + 1);
        }
      }
      if p.rows == [] {
        NoRows(f, data, s.here);
      }
    } else {
      assert shape == Sizes(s.extents, 0);
    }
  }

  lemma NoItems(shape: seq<nat>)
    ensures RowShape([], shape)
  {
  }

  lemma NoRows(f: Format, data: string, here: nat)
    requires TextRead(f, data, here, [])
    ensures here == 0
  {
    assert data[..here] == "";
  }

  /** The outermost row closes: the text so far is a whole array. */
  lemma CloseLast(f: Format, dims: nat, data: string, s: State, rows: Stack)
    requires f.Valid() && Inv(dims, data, s) && Read(f, dims, data, s, rows) && |rows| == 1
    requires s.here < |data| && data[s.here] == '}' && Step(f, dims, data, s).Success?
    ensures Tracks(f, dims, data, Step(f, dims, data, s).value, Done(Node(rows[0])))
  {
    hide Step, Run, TextRead, ItemsLegal, LegalTree, HasShape, RowShape, Render, SizesRead;
    StepClose(f, dims, data, s);
    TextClosed(f, data, s.here, rows);
    TopLegal(f, dims, rows);
    SizesClosed(f, dims, data, s, rows);
    var next := Step(f, dims, data, s).value;
    assert rows[..0] == [] && Written(f, []) == "";
    if next.here != s.here + 1 {
      assert data[..next.here] == data[..s.here + 1] + [f.sep];
    }
  }

  /** Every step that does not fail leads to where the text stands next. */
  lemma StepTracks(f: Format, dims: nat, data: string, s: State, p: Progress) returns (q: Progress)
    requires f.Valid() && Tracks(f, dims, data, s, p)
    requires s.here < |data| && Step(f, dims, data, s).Success?
    ensures Tracks(f, dims, data, Step(f, dims, data, s).value, q)
  {
    hide Step, Read, Stands;
    if data[s.here] == '{' {
      StepOpen(f, dims, data, s);
      ReadOpen(f, dims, data, s, p.rows);
      q := Inside(p.rows + [[]]);
    } else if data[s.here] != '}' {
      StepField(f, dims, data, s);
      RowsAreLevels(f, dims, data, s, p.rows);
      var item := ReadField(f, dims, data, s, p.rows);
      q := Inside(Push(p.rows, item));
    } else {
      StepClose(f, dims, data, s);
      RowsAreLevels(f, dims, data, s, p.rows);
      if |p.rows| >= 2 {
        ReadClose(f, dims, data, s, p.rows);
        q := Inside(Push(p.rows[..|p.rows| - 1], Node(p.rows[|p.rows| - 1])));
      } else {
        CloseLast(f, dims, data, s, p.rows);
        q := Done(Node(p.rows[0]));
      }
    }
  }

  lemma RowsAreLevels(f: Format, dims: nat, data: string, s: State, rows: Stack)
    requires Inv(dims, data, s) && Read(f, dims, data, s, rows)
    ensures |rows| == s.level + 1
  {
  }

  /** The error with which a scan from `s` ends, if it does not end well. */
  function Verdict(f: Format, dims: nat, data: string, s: State): Option<ParseError>
    requires Inv(dims, data, s)
  {
    var end := Run(f, dims, data, s);
    if end.Failure? then Some(end.error) else if end.value.level != -1 then Some(Unfinished) else None
  }

  lemma {:induction false} FailureExplained(f: Format, dims: nat, data: string, s: State, p: Progress)
    returns (here: nat, q: Progress, shape: seq<nat>)
    requires f.Valid() && Tracks(f, dims, data, s, p) && Verdict(f, dims, data, s).Some?
    ensures Stands(f, dims, data, here, q, shape)
    ensures |shape| == dims && Depth(q) <= dims && here <= |data|
    ensures FailsAt(f, dims, data, here, q, shape, Verdict(f, dims, data, s).value)
    decreases |data| - s.here
  {
    hide Step, Run, Read, Stands, Matches;
    RunStep(f, dims, data, s);
    TracksStands(f, dims, data, s, p);
    TracksMatches(f, dims, data, s, p);
    here, q, shape := s.here, p, Settled(dims, s);
    LevelIsDepth(dims, data, s, p, shape);
    if s.here < |data| {
      var step := Step(f, dims, data, s);
      if step.Failure? {
        StepFailsExactly(f, dims, data, s, p, shape, step.error);
      } else {
        var next := StepTracks(f, dims, data, s, p);
        here, q, shape := FailureExplained(f, dims, data, step.value, next);
      }
    }
  }

  // ----- Wherever the text may stand, the scan gets there -----

  /** The scan from the start comes to `s`, and `s` is where the text stands. */
  ghost predicate Comes(f: Format, dims: nat, data: string, s: State, here: nat, p: Progress, shape: seq<nat>)
    requires |shape| == dims
  {
    && Opens(dims, data) && Inv(dims, data, s) && s.here == here
    && Run(f, dims, data, Start(dims)) == Run(f, dims, data, s)
    && Matches(dims, s, p, shape)
  }

  function Weight(rows: Stack): nat {
    if rows == [] then 0 else Weight(rows[..|rows| - 1]) + |rows[|rows| - 1]| + 1
  }

  lemma {:induction false} ScanComes(f: Format, dims: nat, data: string, here: nat, rows: Stack, shape: seq<nat>)
    returns (s: State)
    requires f.Valid() && Opens(dims, data) && Stands(f, dims, data, here, Inside(rows), shape)
    ensures Comes(f, dims, data, s, here, Inside(rows), shape)
    decreases Weight(rows)
  {
    hide Inv, Run, Step, TextRead, RowsLegal, Agrees, Render, Matches;
    if rows == [] {
      NoRows(f, data, here);
      s := Start(dims);
      StartComes(f, dims, data, shape);
    } else if rows[|rows| - 1] == [] {
      RowOpened(f, dims, data, here, rows, shape);
      var before := ScanComes(f, dims, data, here - 1, rows[..|rows| - 1], shape);
      s := OpenComes(f, dims, data, before, rows, shape);
    } else {
      var start := ItemAdded(f, dims, data, here, rows, shape);
      var before := ScanComes(f, dims, data, start, Popped(rows), shape);
      s := ItemComes(f, dims, data, before, here, rows, shape);
    }
  }

  /** The rows before the last item was added. */
  function Popped(rows: Stack): Stack
    requires rows != [] && rows[|rows| - 1] != []
    ensures Weight(Popped(rows)) < Weight(rows)
  {
    var front, top := rows[..|rows| - 1], rows[|rows| - 1];
    var popped := front + [top[..|top| - 1]];
    assert popped[..|popped| - 1] == front;
    popped
  }

  function LastItem(rows: Stack): Tree
    requires rows != [] && rows[|rows| - 1] != []
  {
    var top := rows[|rows| - 1];
    top[|top| - 1]
  }

  lemma StartComes(f: Format, dims: nat, data: string, shape: seq<nat>)
    requires Opens(dims, data) && |shape| == dims
    ensures Comes(f, dims, data, Start(dims), 0, Inside([]), shape)
  {
  }

  /** A row that has no items yet was opened by the brace before. */
  lemma RowOpened(f: Format, dims: nat, data: string, here: nat, rows: Stack, shape: seq<nat>)
    requires f.Valid() && Stands(f, dims, data, here, Inside(rows), shape) && rows != [] && rows[|rows| - 1] == []
    ensures here >= 1 && data[here - 1] == '{'
    ensures Stands(f, dims, data, here - 1, Inside(rows[..|rows| - 1]), shape)
  {
    hide ItemsLegal, RowShape, Render, Join;
    var front := rows[..|rows| - 1];
    WrittenTop(f, rows);
    assert Terminated(f, []) == "";
    assert data[..here] == Written(f, front) + "{";
    assert data[here - 1] == data[..here][here - 1] == '{';
    assert data[..here - 1] == data[..here][..here - 1] == Written(f, front);
    assert forall d | 0 <= d < |front| :: front[d] == rows[d];
  }

  lemma OpenComes(f: Format, dims: nat, data: string, before: State, rows: Stack, shape: seq<nat>)
    returns (s: State)
    requires rows != [] && rows[|rows| - 1] == [] && |rows| <= dims == |shape|
    requires Comes(f, dims, data, before, before.here, Inside(rows[..|rows| - 1]), shape)
    requires before.here < |data| && data[before.here] == '{'
    ensures Comes(f, dims, data, s, before.here + 1, Inside(rows), shape)
  {
    hide Run, Step;
    s := OpenRow(f, dims, data, before, shape, |rows| - 1);
  }

  lemma PushPopped(rows: Stack)
    requires rows != [] && rows[|rows| - 1] != []
    ensures var popped := Popped(rows);
            && |popped| == |rows| && (forall d | 0 <= d < |rows| - 1 :: popped[d] == rows[d])
            && popped[|rows| - 1] == rows[|rows| - 1][..|rows[|rows| - 1]| - 1]
            && rows[|rows| - 1] == popped[|rows| - 1] + [LastItem(rows)]
            && Push(popped, LastItem(rows)) == rows
  {
  }

  lemma PoppedLegal(f: Format, dims: nat, rows: Stack)
    requires rows != [] && rows[|rows| - 1] != [] && |rows| <= dims && RowsLegal(f, dims, rows)
    ensures RowsLegal(f, dims, Popped(rows))
    ensures LegalTree(f, LastItem(rows)) ||
            (&& LastItem(rows) == GAP && |rows| == dims && Popped(rows)[|rows| - 1] == []
             && f.sep != ',' && f.accepts(Some("")))
  {
    hide LegalTree;
    PushPopped(rows);
    var top, init, item := rows[|rows| - 1], Popped(rows)[|rows| - 1], LastItem(rows);
    if LegalRow(f, top) {
      LegalInit(f, init, item);
    } else if init != [] {
      assert top[1..] == init[1..] + [item];
      LegalInit(f, init[1..], item);
    }
  }

  lemma LegalInit(f: Format, init: seq<Tree>, item: Tree)
    requires LegalRow(f, init + [item])
    ensures LegalRow(f, init) && LegalTree(f, item)
  {
    LegalRowEach(f, init);
    LegalRowEach(f, init + [item]);
    assert forall k <- init :: k in init + [item];
    assert item in init + [item];
  }

  lemma PoppedShape(rows: Stack, shape: seq<nat>)
    requires rows != [] && rows[|rows| - 1] != [] && |rows| <= |shape|
    requires forall d | 0 <= d < |rows| :: RowShape(rows[d], shape[d + 1..])
    ensures forall d | 0 <= d < |rows| :: RowShape(Popped(rows)[d], shape[d + 1..])
    ensures HasShape(LastItem(rows), shape[|rows|..])
  {
    hide HasShape;
    PushPopped(rows);
    var top, init := rows[|rows| - 1], Popped(rows)[|rows| - 1];
    RowShapeEach(top, shape[|rows|..]);
    RowShapeEach(init, shape[|rows|..]);
    assert forall k <- init :: k in top;
    assert LastItem(rows) in top;
  }

  /** The text of the last item, and what follows it. */
  lemma LastText(f: Format, data: string, here: nat, popped: Stack, item: Tree) returns (start: nat)
    requires f.Valid() && popped != [] && TextRead(f, data, here, Push(popped, item))
    ensures start + |Render(f, item)| <= |data| && data[..start] == Written(f, popped)
    ensures OccursAt(data, start, Render(f, item))
    ensures FieldEnd(f, data, start + |Render(f, item)|) == Success(here)
    ensures Push(popped, item)[|popped| - 1] == [GAP] ==>
              start + |Render(f, item)| < |data| && data[start + |Render(f, item)|] == f.sep
  {
    hide Written, Render;
    WrittenPush(f, popped, item);
    var before, text := Written(f, popped), Render(f, item);
    start := |before|;
    var end := start + |text|;
    if data[..here] == before + text + [f.sep] {
      assert here == end + 1 && data[end] == data[..here][end] == f.sep;
      assert data[..end] == data[..here][..end] == before + text;
    } else {
      StripLast(data[..here], before + text, f.sep);
    }
    assert data[..start] == data[..end][..start] == before;
    assert data[start..end] == data[..end][start..] == text;
  }

  /** Where the last item starts, and that the text stands there without it. */
  lemma ItemAdded(f: Format, dims: nat, data: string, here: nat, rows: Stack, shape: seq<nat>) returns (start: nat)
    requires f.Valid() && Stands(f, dims, data, here, Inside(rows), shape) && rows != [] && rows[|rows| - 1] != []
    ensures Stands(f, dims, data, start, Inside(Popped(rows)), shape)
    ensures OccursAt(data, start, Render(f, LastItem(rows)))
    ensures FieldEnd(f, data, start + |Render(f, LastItem(rows))|) == Success(here)
    ensures rows[|rows| - 1] == [GAP] ==> start < |data| && data[start] == f.sep
  {
    hide Written, Render, LegalTree, RowShape, RowsLegal, Join, FieldEnd;
    GapText(f);
    PushPopped(rows);
    PoppedLegal(f, dims, rows);
    PoppedShape(rows, shape);
    start := LastText(f, data, here, Popped(rows), LastItem(rows));
    if Popped(rows)[|rows| - 1] != [] {
      RenderStart(f, LastItem(rows));
      OccursFirst(data, start, Render(f, LastItem(rows)));
    }
  }

  lemma ItemComes(f: Format, dims: nat, data: string, before: State, here: nat, rows: Stack, shape: seq<nat>)
    returns (s: State)
    requires f.Valid() && Stands(f, dims, data, here, Inside(rows), shape) && rows != [] && rows[|rows| - 1] != []
    requires Comes(f, dims, data, before, before.here, Inside(Popped(rows)), shape)
    requires OccursAt(data, before.here, Render(f, LastItem(rows)))
    requires FieldEnd(f, data, before.here + |Render(f, LastItem(rows))|) == Success(here)
    requires rows[|rows| - 1] == [GAP] ==> before.here < |data| && data[before.here] == f.sep
    ensures Comes(f, dims, data, s, here, Inside(rows), shape)
  {
    hide Run, Step, Inv, TextRead, Render, LegalTree, RowsLegal, FieldEnd, Elements, HasShape, RowShape, Popped;
    KnownBound(dims, data, before, Popped(rows), shape);
    PushPopped(rows);
    PoppedLegal(f, dims, rows);
    PoppedShape(rows, shape);
    if LegalTree(f, LastItem(rows)) {
      s := ScanTree(f, dims, data, before, LastItem(rows), shape, |rows|);
    } else {
      GapText(f);
      s := ScanGap(f, dims, data, before, shape);
    }
  }

  lemma KnownBound(dims: nat, data: string, s: State, rows: Stack, shape: seq<nat>)
    requires |shape| == dims && Inv(dims, data, s) && Matches(dims, s, Inside(rows), shape)
    ensures s.known == dims || 1 <= s.known <= |rows|
  {
  }

  /** A gap has no text. */
  lemma GapText(f: Format)
    ensures Render(f, GAP) == ""
  {
    assert GAP.token.Text() == "" && Render(f, GAP) == GAP.token.Text();
  }

  lemma DoneComes(f: Format, dims: nat, data: string, here: nat, whole: Tree, shape: seq<nat>) returns (s: State)
    requires f.Valid() && Opens(dims, data) && Stands(f, dims, data, here, Done(whole), shape)
    ensures Comes(f, dims, data, s, here, Done(whole), shape)
  {
    hide Run, Step, Render, Elements, LegalTree, HasShape, RowsLegal, TextRead, FieldEnd;
    assert shape[0..] == shape;
    assert OccursAt(data, 0, Render(f, whole));
    s := ScanTree(f, dims, data, Start(dims), whole, shape, 0);
  }

  // ----- Exactly why a text is not an array -----

  /** Nothing is wrong with the braces that the text begins and ends with. */
  predicate StartsWell(dims: nat, data: string)
    requires dims >= 1
  {
    && |data| >= 2 * dims
    && (forall i | 0 <= i < dims :: data[i] == '{') && data[dims] != '{'
    && (forall i | |data| - dims <= i < |data| :: data[i] == '}')
  }

  lemma StartFailsExactly(dims: nat, data: string, e: ParseError)
    requires dims >= 1
    ensures CheckDims(dims, data) == Failure(e) <==> StartFails(dims, data, e)
    ensures CheckDims(dims, data).Success? <==> StartsWell(dims, data)
  {
  }

  /** Where the text stands, and what is wrong there. */
  ghost predicate Reason(f: Format, dims: nat, data: string, here: nat, p: Progress, shape: seq<nat>, e: ParseError) {
    Stands(f, dims, data, here, p, shape) && FailsAt(f, dims, data, here, p, shape, e)
  }

  lemma ReasonEnds(f: Format, dims: nat, data: string, here: nat, p: Progress, shape: seq<nat>, e: ParseError)
    requires f.Valid() && dims >= 1 && StartsWell(dims, data) && Reason(f, dims, data, here, p, shape, e)
    ensures Verdict(f, dims, data, Start(dims)) == Some(e)
  {
    hide Run, Step, Stands, Matches, StartsWell;
    StartOpens(dims, data);
    StandsBound(f, dims, data, here, p, shape);
    var s: State;
    if p.Inside? {
      s := ScanComes(f, dims, data, here, p.rows, shape);
      if p.rows == [] {
        StandsAtStart(f, dims, data, here, shape);
      }
    } else {
      s := DoneComes(f, dims, data, here, p.whole, shape);
    }
    LevelIsDepth(dims, data, s, p, shape);
    RunStep(f, dims, data, s);
    if here < |data| {
      StepFailsExactly(f, dims, data, s, p, shape, e);
    }
  }

  lemma StandsBound(f: Format, dims: nat, data: string, here: nat, p: Progress, shape: seq<nat>)
    requires Stands(f, dims, data, here, p, shape)
    ensures |shape| == dims && Depth(p) <= dims && here <= |data|
  {
  }

  lemma StartOpens(dims: nat, data: string)
    requires dims >= 1 && StartsWell(dims, data)
    ensures Opens(dims, data)
  {
  }

  lemma StandsAtStart(f: Format, dims: nat, data: string, here: nat, shape: seq<nat>)
    requires Stands(f, dims, data, here, Inside([]), shape)
    ensures here == 0
  {
    NoRows(f, data, here);
  }

  /** The text has what the error says: at its ends, or at a place up to which it is the text of some
      open rows, or of a whole array. */
  ghost predicate Faulty(f: Format, dims: nat, data: string, e: ParseError)
    requires dims >= 1
  {
    || StartFails(dims, data, e)
    || (StartsWell(dims, data) && exists here, p, shape :: Reason(f, dims, data, here, p, shape, e))
  }

  /**
   Parsing fails with an error exactly when the text has what that error says. So no text has what
   two errors say, and one that has none is the text of an array.
   */
  lemma FailsExactly(f: Format, dims: nat, data: string, e: ParseError)
    requires f.Valid() && dims >= 1
    ensures ParseText(f, dims, data) == Failure(e) <==> Faulty(f, dims, data, e)
  {
    hide Run, Stands, FailsAt, StartFails, StartsWell, Read;
    StartFailsExactly(dims, data, e);
    if CheckDims(dims, data).Success? {
      StartOpens(dims, data);
      forall here, p, shape | Reason(f, dims, data, here, p, shape, e)
        ensures Verdict(f, dims, data, Start(dims)) == Some(e)
      {
        ReasonEnds(f, dims, data, here, p, shape, e);
      }
      if Verdict(f, dims, data, Start(dims)) == Some(e) {
        StartTracks(f, dims, data);
        var here, p, shape := FailureExplained(f, dims, data, Start(dims), Inside([]));
        assert Reason(f, dims, data, here, p, shape, e);
      }
    }
  }

  lemma StartTracks(f: Format, dims: nat, data: string)
    requires dims >= 1 && Opens(dims, data)
    ensures Tracks(f, dims, data, Start(dims), Inside([]))
  {
    assert data[..0] == "" == Written(f, []);
  }

  /** A null where the element type has none is an error of its own. */
  lemma NullRefused(f: Format)
    requires f.Valid() && f.sep !in "NULL" && !f.accepts(None)
    ensures ParseText(f, 1, "{NULL}") == Failure(UnexpectedNull)
  {
    var data, rows: Stack := "{NULL}", [[]];
    assert rows[..0] == [] && Written(f, []) == "" && Terminated(f, []) == "";
    assert Written(f, rows) == "{" == data[..1];
    assert Stands(f, 1, data, 1, Inside(rows), [1]) by {
      assert ItemsLegal(f, true, []) && RowShape([], []);
    }
    assert OccursAt(data, 1, "NULL") && data[5] == '}';
    assert FieldStands(f, data, 1, Bare("NULL"));
    assert Reason(f, 1, data, 1, Inside(rows), [1], UnexpectedNull);
    FailsExactly(f, 1, data, UnexpectedNull);
  }
}
