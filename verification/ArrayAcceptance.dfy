/**
 What the machine reads without error is the text of a rectangular array: at every step the
 input so far is the text of a stack of open rows, and a scan that ends outside all braces
 has closed that stack into one tree.
 */
module ArrayAcceptance {
  import opened Wrappers
  import opened Scanners
  import opened ArrayGrammar
  import opened ArrayMachine
  import opened ArrayRoundTrip

  /** For each open row, outermost first, the items it has so far. */
  type Stack = seq<seq<Tree>>

  // ----- The text and the elements of open rows -----

  /** The text of a row's items, with a separator after each. */
  function Terminated(f: Format, kids: seq<Tree>): string {
    if kids == [] then "" else Join(f, kids) + [f.sep]
  }

  /** The text of the open rows, with a separator after every item they have. */
  function Written(f: Format, rows: Stack): string {
    if rows == [] then "" else Written(f, rows[..|rows| - 1]) + "{" + Terminated(f, rows[|rows| - 1])
  }

  function Stored(rows: Stack): seq<Element> {
    if rows == [] then [] else Stored(rows[..|rows| - 1]) + AllElements(rows[|rows| - 1])
  }

  function Push(rows: Stack, item: Tree): Stack
    requires rows != []
  {
    rows[..|rows| - 1] + [rows[|rows| - 1] + [item]]
  }

  lemma WrittenPush(f: Format, rows: Stack, item: Tree)
    requires rows != []
    ensures Written(f, Push(rows, item)) == Written(f, rows) + Render(f, item) + [f.sep]
  {
    hide Render, Join;
    var front, top := rows[..|rows| - 1], rows[|rows| - 1];
    var pushed := Push(rows, item);
    assert pushed[..|rows| - 1] == front;
    JoinSnoc(f, top, item);
    var before := Written(f, front) + "{";
    assert Written(f, rows) == before + Terminated(f, top);
    if top == [] {
      assert before + "" == before;
    } else {
      assert before + (Terminated(f, top) + Render(f, item) + [f.sep]) ==
             (before + Terminated(f, top)) + Render(f, item) + [f.sep];
    }
  }

  lemma StoredPush(rows: Stack, item: Tree)
    requires rows != []
    ensures Stored(Push(rows, item)) == Stored(rows) + Elements(item)
  {
    var front, top := rows[..|rows| - 1], rows[|rows| - 1];
    var pushed := Push(rows, item);
    assert pushed[..|rows| - 1] == front;
    AllElementsSplit(top, [item]);
    assert AllElements([item]) == Elements(item) + AllElements([item][1..]);
  }

  // ----- The invariant -----

  /**
   The input up to `here` is the text of `rows`, or that text but for its last separator. A gap
   always has its separator: without one a row with just a gap would look like an empty row.
   */
  predicate TextRead(f: Format, data: string, here: nat, rows: Stack) {
    && here <= |data|
    && (|| (&& data[..here] == Written(f, rows)
            && (rows != [] && rows[|rows| - 1] != [] ==> here < |data| && data[here] !in {f.sep, '}'}))
        || (&& data[..here] + [f.sep] == Written(f, rows)
            && rows != [] && rows[|rows| - 1] !in {[], [GAP]}
            && (here < |data| ==> data[here] == '}')))
  }

  /** The items of an open row can be written and are accepted; only an innermost row may start with a gap. */
  ghost predicate ItemsLegal(f: Format, innermost: bool, kids: seq<Tree>) {
    LegalRow(f, kids)
    || (innermost && f.sep != ',' && f.accepts(Some("")) && kids != [] && kids[0] == GAP && LegalRow(f, kids[1..]))
  }

  ghost predicate RowsLegal(f: Format, dims: nat, rows: Stack) {
    forall d | 0 <= d < |rows| :: ItemsLegal(f, d == dims - 1, rows[d])
  }

  /** The sizes settled so far are those of the items in `rows`. */
  ghost predicate SizesRead(dims: nat, s: State, rows: Stack)
    requires |s.extents| == |s.counts| == dims && |rows| <= dims
    requires forall d | 0 <= d < dims :: s.extents[d].Some? <==> s.known <= d
  {
    && (forall d | 0 <= d < |rows| :: s.counts[d] == |rows[d]| + if d < |rows| - 1 then 1 else 0)
    && (forall d | 0 <= d < |rows| && rows[d] != [] ::
          s.known <= d + 1 && RowShape(rows[d], Sizes(s.extents, d + 1)))
    && (1 <= s.known < dims ==> s.known <= |rows| && rows[s.known - 1] != [])
    && (forall d | s.known <= d < dims - 1 :: s.extents[d].value >= 1)
  }

  ghost predicate Read(f: Format, dims: nat, data: string, s: State, rows: Stack)
    requires Inv(dims, data, s)
  {
    && |rows| == s.level + 1
    && s.elements == Stored(rows)
    && TextRead(f, data, s.here, rows)
    && RowsLegal(f, dims, rows)
    && SizesRead(dims, s, rows)
  }

  // ----- Each step keeps it -----

  lemma ItemRead(f: Format, data: string, rows: Stack, item: Tree, end: nat)
    requires rows != [] && end <= |data|
    requires data[..end] == Written(f, rows) + Render(f, item)
    requires FieldEnd(f, data, end).Success?
    requires item == GAP ==> FieldEnd(f, data, end).value != end
    ensures TextRead(f, data, FieldEnd(f, data, end).value, Push(rows, item))
  {
    hide Written, Render;
    WrittenPush(f, rows, item);
    var next := FieldEnd(f, data, end).value;
    assert Push(rows, item)[|rows| - 1][|rows[|rows| - 1]|] == item;
    if next != end {
      assert data[..next] == data[..end] + [f.sep];
    }
  }

  lemma TokenOfField(f: Format, data: string, here: nat) returns (token: Token)
    requires f.Valid() && here < |data| && data[here] !in {'{', '}'}
    requires ScanField(f, data, here).Success?
    ensures if token == GAP.token
            then data[here] == f.sep != ',' && f.accepts(Some(""))
            else token.Legal(f)
    ensures here + |token.Text()| == ScanField(f, data, here).value.0
    ensures OccursAt(data, here, token.Text())
    ensures token.Value() == ScanField(f, data, here).value.1
  {
    hide Unescaped, QuotedEnd, UnquotedEnd, UnitsValue;
    if data[here] == '"' {
      var units := QuotedEndIsUnits(data, here + 1);
      token := Quoted(units);
      assert token.Text() == "\"" + (UnitsText(units) + "\"");
      assert OccursAt(data, here, "\"");
      OccursSplit(data, here, "\"", UnitsText(units) + "\"");
      UnescapedOfUnits(data, here + 1, units);
    } else {
      var end := UnquotedEnd(data, here, FieldStops(f));
      token := Bare(data[here..end]);
      assert end > here ==> token.text[0] == data[here];
    }
  }

  /** Adding an item to the innermost open row. */
  lemma LegalPush(f: Format, dims: nat, rows: Stack, item: Tree)
    requires rows != [] && |rows| <= dims && RowsLegal(f, dims, rows)
    requires LegalTree(f, item) ||
             (item == GAP && |rows| == dims && rows[|rows| - 1] == [] && f.sep != ',' && f.accepts(Some("")))
    ensures RowsLegal(f, dims, Push(rows, item))
  {
    hide LegalTree;
    var top, pushed := rows[|rows| - 1], Push(rows, item);
    if LegalTree(f, item) {
      if LegalRow(f, top) {
        LegalSnoc(f, top, item);
      } else {
        LegalSnoc(f, top[1..], item);
        assert (top + [item])[1..] == top[1..] + [item];
      }
    } else {
      assert (top + [item])[1..] == [];
    }
    assert forall d | 0 <= d < |rows| - 1 :: pushed[d] == rows[d];
  }

  lemma LegalSnoc(f: Format, kids: seq<Tree>, item: Tree)
    requires LegalRow(f, kids) && LegalTree(f, item)
    ensures LegalRow(f, kids + [item])
  {
    LegalRowEach(f, kids);
    LegalRowEach(f, kids + [item]);
  }

  lemma OpenTextRead(f: Format, data: string, here: nat, rows: Stack)
    requires TextRead(f, data, here, rows) && here < |data| && data[here] == '{'
    ensures TextRead(f, data, here + 1, rows + [[]]) && Stored(rows + [[]]) == Stored(rows)
  {
    hide LegalTree;
    var deeper := rows + [[]];
    assert deeper[..|rows|] == rows && deeper[|rows|] == [];
    assert AllElements([]) == [] && Terminated(f, []) == "";
    assert data[..here + 1] == data[..here] + "{";
  }

  lemma OpenLegal(f: Format, dims: nat, rows: Stack)
    requires RowsLegal(f, dims, rows)
    ensures RowsLegal(f, dims, rows + [[]])
  {
  }

  lemma ReadOpen(f: Format, dims: nat, data: string, s: State, rows: Stack)
    requires Inv(dims, data, s) && Read(f, dims, data, s, rows)
    requires s.here < |data| && data[s.here] == '{' && Step(f, dims, data, s).Success?
    ensures Read(f, dims, data, Step(f, dims, data, s).value, rows + [[]])
  {
    hide Step, Run, SizesRead, LegalTree, FieldEnd, TextRead, Written, Stored, RowsLegal;
    StepOpen(f, dims, data, s);
    OpenTextRead(f, data, s.here, rows);
    OpenLegal(f, dims, rows);
    OpenSizesRead(f, dims, data, s, rows);
  }

  lemma OpenSizesRead(f: Format, dims: nat, data: string, s: State, rows: Stack)
    requires Inv(dims, data, s) && |rows| == s.level + 1 && SizesRead(dims, s, rows)
    requires s.here < |data| && data[s.here] == '{' && Step(f, dims, data, s).Success?
    ensures SizesRead(dims, Step(f, dims, data, s).value, rows + [[]])
  {
    hide Step, Run, RowShape;
    StepOpen(f, dims, data, s);
  }

  /** The field that starts where the input read so far ends. */
  lemma FieldItem(f: Format, data: string, here: nat, rows: Stack) returns (item: Tree)
    requires f.Valid() && rows != [] && TextRead(f, data, here, rows)
    requires here < |data| && data[here] !in {'{', '}'} && ScanField(f, data, here).Success?
    ensures HasShape(item, []) && Elements(item) == [ScanField(f, data, here).value.1]
    ensures data[..ScanField(f, data, here).value.0] == Written(f, rows) + Render(f, item)
    ensures item == GAP ==> data[here] == f.sep && ScanField(f, data, here).value.0 == here
    ensures LegalTree(f, item) || (item == GAP && rows[|rows| - 1] == [] && f.sep != ',' && f.accepts(Some("")))
  {
    hide ScanField, Written;
    var token := TokenOfField(f, data, here);
    item := Leaf(token);
    assert data[..here] == Written(f, rows);
    assert data[..here + |token.Text()|] == data[..here] + token.Text();
  }

  lemma ReadField(f: Format, dims: nat, data: string, s: State, rows: Stack) returns (item: Tree)
    requires f.Valid() && Inv(dims, data, s) && Read(f, dims, data, s, rows) && rows != []
    requires s.here < |data| && data[s.here] !in {'{', '}'} && Step(f, dims, data, s).Success?
    ensures Read(f, dims, data, Step(f, dims, data, s).value, Push(rows, item))
  {
    hide Step, Run, ScanField, SizesRead, TextRead, RowsLegal, Written, LegalTree, Render, HasShape, Elements;
    StepField(f, dims, data, s);
    item := FieldItem(f, data, s.here, rows);
    ItemRead(f, data, rows, item, ScanField(f, data, s.here).value.0);
    LegalPush(f, dims, rows, item);
    StoredPush(rows, item);
    FieldSizesRead(f, dims, data, s, rows, item);
  }

  lemma FieldSizesRead(f: Format, dims: nat, data: string, s: State, rows: Stack, item: Tree)
    requires Inv(dims, data, s) && rows != [] && |rows| == s.level + 1 && SizesRead(dims, s, rows)
    requires s.here < |data| && data[s.here] !in {'{', '}'} && Step(f, dims, data, s).Success?
    requires HasShape(item, [])
    ensures SizesRead(dims, Step(f, dims, data, s).value, Push(rows, item))
  {
    hide Step, Run, ScanField;
    StepField(f, dims, data, s);
    var next, top, pushed := Step(f, dims, data, s).value, rows[|rows| - 1], Push(rows, item);
    assert Sizes(next.extents, dims) == [];
    RowShapeSnoc(top, item, []);
    assert forall d | 0 <= d < |rows| - 1 :: pushed[d] == rows[d];
  }

  lemma RowShapeSnoc(kids: seq<Tree>, item: Tree, shape: seq<nat>)
    requires RowShape(kids, shape) && HasShape(item, shape)
    ensures RowShape(kids + [item], shape)
  {
    RowShapeEach(kids, shape);
    RowShapeEach(kids + [item], shape);
  }

  /** The text of a row as it closes, and of the rows around it. */
  lemma TextClosed(f: Format, data: string, here: nat, rows: Stack)
    requires rows != [] && TextRead(f, data, here, rows)
    requires here < |data| && data[here] == '}'
    ensures data[..here + 1] == Written(f, rows[..|rows| - 1]) + Render(f, Node(rows[|rows| - 1]))
    ensures rows[|rows| - 1] != [GAP]
  {
    hide Join, Written;
    var outer, top := rows[..|rows| - 1], rows[|rows| - 1];
    WrittenTop(f, rows);
    var before, inner := Written(f, outer) + "{", Join(f, top);
    assert data[..here + 1] == data[..here] + "}";
    if top == [] {
      EmptyJoin(f);
      assert data[..here] == before + inner;
    } else {
      assert data[..here] + [f.sep] == (before + inner) + [f.sep];
      StripLast(data[..here], before + inner, f.sep);
    }
    assert (before + inner) + "}" == Written(f, outer) + ("{" + inner + "}");
  }

  lemma TopLegal(f: Format, dims: nat, rows: Stack)
    requires rows != [] && RowsLegal(f, dims, rows) && rows[|rows| - 1] != [GAP]
    ensures LegalTree(f, Node(rows[|rows| - 1]))
  {
    var top := rows[|rows| - 1];
    assert |top| == 1 ==> top == [top[0]];
  }

  lemma WrittenTop(f: Format, rows: Stack)
    requires rows != []
    ensures Written(f, rows) == Written(f, rows[..|rows| - 1]) + "{" + Terminated(f, rows[|rows| - 1])
  {
  }

  lemma EmptyJoin(f: Format)
    ensures Join(f, []) == ""
  {
  }

  lemma StripLast(a: string, b: string, c: char)
    requires a + [c] == b + [c]
    ensures a == b
  {
    assert a == (a + [c])[..|a|] && b == (b + [c])[..|b|];
    assert |a + [c]| == |b + [c]|;
  }

  /** The sizes of a row as it closes: its own count, and the sizes of its items. */
  lemma SizesClosed(f: Format, dims: nat, data: string, s: State, rows: Stack)
    requires Inv(dims, data, s) && rows != [] && |rows| == s.level + 1 && SizesRead(dims, s, rows)
    requires s.here < |data| && data[s.here] == '}' && Step(f, dims, data, s).Success?
    ensures var next := Step(f, dims, data, s).value;
            && next.known <= s.level
            && HasShape(Node(rows[s.level]), Sizes(next.extents, s.level))
            && (forall d | next.known <= d < dims - 1 :: next.extents[d].value >= 1)
            && (s.known <= s.level ==> next.extents == s.extents && next.known == s.known)
  {
    hide Step, Run;
    StepClose(f, dims, data, s);
    var next, top := Step(f, dims, data, s).value, rows[s.level];
    var shape := Sizes(next.extents, s.level);
    assert shape[0] == |top|;
    if top != [] {
      assert shape[1..] == Sizes(s.extents, s.level + 1);
    }
  }

  lemma ReadClose(f: Format, dims: nat, data: string, s: State, rows: Stack)
    requires Inv(dims, data, s) && Read(f, dims, data, s, rows) && |rows| >= 2
    requires s.here < |data| && data[s.here] == '}' && Step(f, dims, data, s).Success?
    ensures Read(f, dims, data, Step(f, dims, data, s).value, Push(rows[..|rows| - 1], Node(rows[|rows| - 1])))
  {
    hide Step, Run, TextRead, SizesRead, Written, Render, ItemsLegal;
    StepClose(f, dims, data, s);
    var next := Step(f, dims, data, s).value;
    var outer, item := rows[..|rows| - 1], Node(rows[|rows| - 1]);
    TextClosed(f, data, s.here, rows);
    TopLegal(f, dims, rows);
    ItemRead(f, data, outer, item, s.here + 1);
    LegalPush(f, dims, outer, item);
    StoredPush(outer, item);
    CloseSizesRead(f, dims, data, s, rows);
  }

  lemma CloseSizesRead(f: Format, dims: nat, data: string, s: State, rows: Stack)
    requires Inv(dims, data, s) && |rows| >= 2 && |rows| == s.level + 1 && SizesRead(dims, s, rows)
    requires s.here < |data| && data[s.here] == '}' && Step(f, dims, data, s).Success?
    ensures SizesRead(dims, Step(f, dims, data, s).value, Push(rows[..|rows| - 1], Node(rows[|rows| - 1])))
  {
    hide Step, Run, RowShape, HasShape;
    StepClose(f, dims, data, s);
    var next := Step(f, dims, data, s).value;
    var outer, item := rows[..|rows| - 1], Node(rows[|rows| - 1]);
    var around, pushed := outer[|outer| - 1], Push(outer, item);
    SizesClosed(f, dims, data, s, rows);
    if around != [] {
      assert Sizes(next.extents, s.level) == Sizes(s.extents, s.level);
    }
    RowShapeSnoc(around, item, Sizes(next.extents, s.level));
    forall d | 0 <= d < |pushed| && pushed[d] != []
      ensures next.known <= d + 1 && RowShape(pushed[d], Sizes(next.extents, d + 1))
    {
      if d < |pushed| - 1 {
        assert pushed[d] == rows[d] && s.known <= d + 1;
        assert next.known == s.known;
        assert Sizes(next.extents, d + 1) == Sizes(s.extents, d + 1);
      }
    }
  }

  // ----- The whole input -----

  lemma {:induction false} AcceptFrom(f: Format, dims: nat, data: string, s: State, rows: Stack) returns (t: Tree)
    requires f.Valid() && Inv(dims, data, s) && Read(f, dims, data, s, rows) && s.here < |data|
    requires Run(f, dims, data, s).Success? && Run(f, dims, data, s).value.level == -1
    ensures var end := Run(f, dims, data, s).value;
            && end.known == 0
            && Rectangular(f, t, Sizes(end.extents, 0))
            && data == Render(f, t)
            && end.elements == Elements(t)
    decreases |data| - s.here
  {
    var next := Step(f, dims, data, s).value;
    var after: Stack;
    if data[s.here] == '{' {
      ReadOpen(f, dims, data, s, rows);
      after := rows + [[]];
    } else if data[s.here] != '}' {
      var item := ReadField(f, dims, data, s, rows);
      after := Push(rows, item);
    } else if |rows| >= 2 {
      ReadClose(f, dims, data, s, rows);
      after := Push(rows[..|rows| - 1], Node(rows[|rows| - 1]));
    } else {
      t := AcceptLast(f, dims, data, s, rows);
      return;
    }
    UnclosedGoesOn(f, dims, data, next);
    t := AcceptFrom(f, dims, data, next, after);
  }

  /** A scan that ends outside all braces does not end inside one. */
  lemma UnclosedGoesOn(f: Format, dims: nat, data: string, s: State)
    requires Inv(dims, data, s) && s.level >= 0
    requires Run(f, dims, data, s).Success? && Run(f, dims, data, s).value.level == -1
    ensures s.here < |data|
  {
  }

  /** Once the outermost braces close, nothing may follow. */
  lemma AcceptLast(f: Format, dims: nat, data: string, s: State, rows: Stack) returns (t: Tree)
    requires Inv(dims, data, s) && Read(f, dims, data, s, rows) && |rows| == 1
    requires s.here < |data| && data[s.here] == '}'
    requires Run(f, dims, data, s).Success?
    ensures var end := Run(f, dims, data, s).value;
            && end.known == 0
            && Rectangular(f, t, Sizes(end.extents, 0))
            && data == Render(f, t)
            && end.elements == Elements(t)
  {
    hide Step, Run, TextRead, ItemsLegal, LegalTree, HasShape, RowShape, Render, SizesRead, FieldEnd;
    RunStep(f, dims, data, s);
    StepClose(f, dims, data, s);
    TextClosed(f, data, s.here, rows);
    TopLegal(f, dims, rows);
    SizesClosed(f, dims, data, s, rows);
    t := Node(rows[0]);
    var end := Step(f, dims, data, s).value;
    NothingFollows(f, dims, data, end);
    RunStep(f, dims, data, end);
    assert data[..s.here + 1] == data;
    assert rows[..0] == [] && Stored(rows) == [] + AllElements(rows[0]);
  }

  lemma NothingFollows(f: Format, dims: nat, data: string, s: State)
    requires Inv(dims, data, s) && s.level == -1 && s.known < dims
    requires Run(f, dims, data, s).Success?
    ensures s.here == |data|
  {
  }

  /**
   Exact acceptance: parsing succeeds on the texts of the rectangular arrays with that many
   dimensions, and on no other input; and what it then returns is the array written there.
   */
  lemma ExactAcceptance(f: Format, dims: nat, data: string)
    requires f.Valid() && dims >= 1
    ensures ParseText(f, dims, data).Success? <==>
            exists t, shape :: |shape| == dims && Rectangular(f, t, shape) && data == Render(f, t)
    ensures forall t, shape | |shape| == dims && Rectangular(f, t, shape) && data == Render(f, t) ::
              ParseText(f, dims, data) == Success(Parsed(shape, Elements(t)))
  {
    if ParseText(f, dims, data).Success? {
      var t := AcceptText(f, dims, data);
    }
    forall t, shape | |shape| == dims && Rectangular(f, t, shape) && data == Render(f, t)
      ensures ParseText(f, dims, data) == Success(Parsed(shape, Elements(t)))
    {
      RoundTrip(f, t, shape);
    }
  }

  lemma AcceptText(f: Format, dims: nat, data: string) returns (t: Tree)
    requires f.Valid() && dims >= 1 && ParseText(f, dims, data).Success?
    ensures Rectangular(f, t, ParseText(f, dims, data).value.shape)
    ensures |ParseText(f, dims, data).value.shape| == dims
    ensures data == Render(f, t)
    ensures ParseText(f, dims, data).value.elements == Elements(t)
  {
    var s := Start(dims);
    assert data[..0] == "" == Written(f, []);
    assert Read(f, dims, data, s, []);
    t := AcceptFrom(f, dims, data, s, []);
  }

  // ----- Consequences -----

  /**
   The documented size of an array: the number of elements stored is the product of its sizes,
   which no dimension but the last brings to zero; and it is at most one more than the number
   of separators in the text, so the space reserved for elements always suffices.
   */
  lemma ParsedSize(f: Format, dims: nat, data: string)
    requires f.Valid() && dims >= 1 && ParseText(f, dims, data).Success?
    ensures var p := ParseText(f, dims, data).value;
            && |p.shape| == dims && OnlyRowsEmpty(p.shape)
            && |p.elements| == Product(p.shape)
            && |p.elements| <= Count(f.sep, data) + 1
  {
    var t := AcceptText(f, dims, data);
    SizeLaw(t, ParseText(f, dims, data).value.shape);
    SeparatorsBoundElements(f, t);
  }

  // ----- Empty fields -----

  /** No field is bare and empty. */
  predicate GapFree(t: Tree)
    decreases t, 1
  {
    match t
    case Leaf(token) => token != GAP.token
    case Node(kids) => RowGapFree(kids)
  }

  predicate RowGapFree(kids: seq<Tree>)
    decreases kids, 0
  {
    kids == [] || (GapFree(kids[0]) && RowGapFree(kids[1..]))
  }

  lemma {:induction false} LegalGapFree(f: Format, t: Tree)
    requires LegalTree(f, t) && (f.sep == ',' || !f.accepts(Some("")))
    ensures GapFree(t)
    decreases t, 1
  {
    if t.Node? {
      LegalRowGapFree(f, t.kids);
    }
  }

  lemma {:induction false} LegalRowGapFree(f: Format, kids: seq<Tree>)
    requires LegalRow(f, kids) && (f.sep == ',' || !f.accepts(Some("")))
    ensures RowGapFree(kids)
    decreases kids, 0
  {
    if kids == [] {
    } else {
      LegalGapFree(f, kids[0]);
      LegalRowGapFree(f, kids[1..]);
    }
  }

  lemma GapExample(f: Format) returns (t: Tree)
    requires f.Valid() && f.sep != ',' && f.accepts(Some(""))
    ensures Rectangular(f, t, [2]) && !GapFree(t)
    ensures Render(f, t) == "{" + [f.sep] + "\"\"}" && Elements(t) == [Some(""), Some("")]
  {
    var quotes := Leaf(Quoted([]));
    var kids := [GAP, quotes];
    t := Node(kids);
    assert kids[1..] == [quotes] && [quotes][1..] == [];
    assert UnitsText([]) == "" && UnitsValue([]) == "";
    assert quotes.token.Text() == "\"\"" && quotes.token.Value() == Some("");
    assert LegalTree(f, quotes) && LegalRow(f, []);
    assert LegalRow(f, [quotes]) && LeadingGap(f, kids);
    assert HasShape(quotes, []) && HasShape(GAP, []);
    assert RowShape([quotes], []) && RowShape(kids, []);
    assert [2 as nat][1..] == [];
    assert !GapFree(GAP) && !RowGapFree(kids);
    assert GAP.token.Text() == "" && Render(f, GAP) == GAP.token.Text();
    assert Join(f, [quotes]) == "\"\"";
    assert Join(f, kids) == "" + [f.sep] + Join(f, kids[1..]);
    assert AllElements([quotes]) == [Some("")] + AllElements([]);
    assert AllElements(kids) == [Some("")] + AllElements([quotes]);
  }

  /**
   The parser means to refuse every empty field, but looks for one by a comma. It succeeds
   exactly when the separator is the comma or the element type has no empty text; otherwise
   a text like `{;""}` is read as two elements.
   */
  lemma EmptyFieldsRefused(f: Format)
    requires f.Valid()
    ensures (f.sep == ',' || !f.accepts(Some(""))) <==>
            forall t, shape | shape != [] && Rectangular(f, t, shape) :: GapFree(t)
    ensures f.sep != ',' && f.accepts(Some("")) ==>
              ParseText(f, 1, "{" + [f.sep] + "\"\"}") == Success(Parsed([2], [Some(""), Some("")]))
  {
    if f.sep == ',' || !f.accepts(Some("")) {
      forall t, shape | shape != [] && Rectangular(f, t, shape)
        ensures GapFree(t)
      {
        LegalGapFree(f, t);
      }
    } else {
      var t := GapExample(f);
      RoundTrip(f, t, [2]);
    }
  }
}
