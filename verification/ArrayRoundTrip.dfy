/**
 Everything the grammar can write, the machine reads back: the scan of a rendered array ends
 without error, and yields exactly the array's shape and elements.
 */
module ArrayRoundTrip {
  import opened Wrappers
  import opened Scanners
  import opened ArrayGrammar
  import opened ArrayMachine

  /** Every size the scan has settled is the right one. */
  ghost predicate Agrees(dims: nat, s: State, shape: seq<nat>)
    requires |shape| == |s.extents| == dims
  {
    forall d | s.known <= d < dims :: s.extents[d] == Some(shape[d])
  }

  // ----- One field -----

  /** The field is what stands at `here`: it is all there, and ends where it must. The one empty
      field is one that the check for a comma lets through. */
  ghost predicate FieldStands(f: Format, data: string, here: nat, token: Token) {
    && OccursAt(data, here, token.Text())
    && var end := here + |token.Text()|;
       match token
       case Bare(text) =>
         if text == "" then end < |data| && data[end] == f.sep != ','
         else token.WellFormed(f) && (end < |data| ==> data[end] in {f.sep, '}'})
       case Quoted(units) => LegalUnits(units) && (end < |data| ==> data[end] != '"')
  }

  /** What stands there is scanned whole, and then converted. */
  lemma FieldScanned(f: Format, data: string, here: nat, token: Token)
    requires f.Valid() && FieldStands(f, data, here, token)
    ensures here < |data| && data[here] !in {'{', '}', ',', '\0'}
    ensures ScanField(f, data, here) == Converted(f, here + |token.Text()|, token.Value())
  {
    hide UnitsValue, UnitsText, QuotedEnd, Unescaped, UnquotedEnd;
    var text := token.Text();
    OccursChars(data, here, text);
    match token
    case Bare(t) =>
      forall i | here <= i < here + |t|
        ensures data[i] !in FieldStops(f)
      {
        assert t[i - here] in t;
      }
      assert data[here..here + |t|] == t;
      UnquotedEndUnique(data, here, here + |t|, FieldStops(f));
    case Quoted(units) =>
      assert text == "\"" + (UnitsText(units) + "\"");
      OccursSplit(data, here, "\"", UnitsText(units) + "\"");
      QuotedEndOfUnits(data, here + 1, units);
      UnescapedOfUnits(data, here + 1, units);
  }

  lemma FieldOfToken(f: Format, data: string, here: nat, token: Token)
    requires f.Valid() && token.Legal(f)
    requires OccursAt(data, here, token.Text())
    requires here + |token.Text()| < |data| ==> data[here + |token.Text()|] in FieldStops(f)
    ensures here < |data| && data[here] !in {'{', '}', ',', '\0'}
    ensures ScanField(f, data, here) == Success((here + |token.Text()|, token.Value()))
  {
    FieldScanned(f, data, here, token);
  }

  /** What stands there but is not taken by the element type is refused for what it says. */
  lemma FieldRefused(f: Format, data: string, here: nat, token: Token)
    requires f.Valid() && FieldStands(f, data, here, token) && !f.accepts(token.Value())
    ensures here < |data| && data[here] !in {'{', '}'}
    ensures ScanField(f, data, here) == Failure(if token == Bare("NULL") then UnexpectedNull else BadElement)
  {
    FieldScanned(f, data, here, token);
  }

  // ----- One item -----

  /** What the scan of an item at level `j` does to the state. */
  ghost predicate ItemScanned(f: Format, dims: nat, data: string, s: State, r: State, shape: seq<nat>, j: nat,
                              text: string, found: seq<Element>)
    requires |shape| == dims && j <= dims
    requires Inv(dims, data, s)
  {
    && Inv(dims, data, r)
    && Run(f, dims, data, s) == Run(f, dims, data, r)
    && s.here + |text| <= |data|
    && FieldEnd(f, data, s.here + |text|) == Success(r.here)
    && r.level == s.level
    && r.known == (if j < s.known then j else s.known)
    && Agrees(dims, r, shape)
    && r.elements == s.elements + found
    && (forall i | 0 <= i < j :: r.counts[i] == s.counts[i] + if i == j - 1 then 1 else 0)
  }

  lemma {:induction false} ScanTree(f: Format, dims: nat, data: string, s: State, t: Tree, shape: seq<nat>, j: nat)
    returns (r: State)
    requires |shape| == dims && OnlyRowsEmpty(shape) && f.Valid()
    requires j <= dims && HasShape(t, shape[j..]) && LegalTree(f, t)
    requires Inv(dims, data, s) && s.level == j - 1 && Agrees(dims, s, shape)
    requires s.known == dims || 1 <= s.known <= j
    requires OccursAt(data, s.here, Render(f, t))
    requires FieldEnd(f, data, s.here + |Render(f, t)|).Success?
    ensures ItemScanned(f, dims, data, s, r, shape, j, Render(f, t), Elements(t))
    decreases dims - j, 2
  {
    hide Step, Run, Inv, Render, HasShape, LegalTree, FieldEnd, Elements, OccursAt;
    if j == dims {
      LeafText(f, t);
      r := ScanLeaf(f, dims, data, s, t.token, shape);
    } else {
      NodeText(f, data, s.here, t, shape[j..]);
      assert shape[j..][1..] == shape[j + 1..];
      var inside := OpenRow(f, dims, data, s, shape, j);
      var last := ScanKids(f, dims, data, inside, t.kids, shape, j);
      r := CloseRow(f, dims, data, last, shape, j);
    }
  }

  lemma LeafText(f: Format, t: Tree)
    requires HasShape(t, []) && LegalTree(f, t)
    ensures t.Leaf? && t.token.Legal(f) && Render(f, t) == t.token.Text() && Elements(t) == [t.token.Value()]
  {
  }

  lemma NodeText(f: Format, data: string, here: nat, t: Tree, shape: seq<nat>)
    requires shape != [] && HasShape(t, shape) && LegalTree(f, t) && OccursAt(data, here, Render(f, t))
    ensures t.Node? && |t.kids| == shape[0] && RowShape(t.kids, shape[1..])
    ensures LegalRow(f, t.kids) || (LeadingGap(f, t.kids) && LegalRow(f, t.kids[1..]))
    ensures data[here] == '{' && OccursAt(data, here + 1, Join(f, t.kids) + "}")
    ensures |Render(f, t)| == |Join(f, t.kids)| + 2 && Elements(t) == AllElements(t.kids)
  {
    assert Render(f, t) == "{" + (Join(f, t.kids) + "}");
    OccursSplit(data, here, "{", Join(f, t.kids) + "}");
    assert data[here] == data[here..here + 1][0];
  }

  lemma ScanLeaf(f: Format, dims: nat, data: string, s: State, token: Token, shape: seq<nat>) returns (r: State)
    requires |shape| == dims && f.Valid() && token.Legal(f)
    requires Inv(dims, data, s) && s.level == dims - 1 && Agrees(dims, s, shape)
    requires OccursAt(data, s.here, token.Text())
    requires FieldEnd(f, data, s.here + |token.Text()|).Success?
    ensures ItemScanned(f, dims, data, s, r, shape, dims, token.Text(), [token.Value()])
  {
    FieldOfToken(f, data, s.here, token);
    r := Step(f, dims, data, s).value;
  }

  /** An empty field at the start of a row, where the separator is not the comma. */
  lemma ScanGap(f: Format, dims: nat, data: string, s: State, shape: seq<nat>) returns (r: State)
    requires |shape| == dims && f.Valid() && f.sep != ',' && f.accepts(Some(""))
    requires Inv(dims, data, s) && s.level == dims - 1 && Agrees(dims, s, shape)
    requires s.here < |data| && data[s.here] == f.sep && FieldEnd(f, data, s.here).Success?
    ensures ItemScanned(f, dims, data, s, r, shape, dims, "", [Some("")])
  {
    UnquotedEndUnique(data, s.here, s.here, FieldStops(f));
    assert data[s.here..s.here] == "";
    r := Step(f, dims, data, s).value;
  }

  lemma OpenRow(f: Format, dims: nat, data: string, s: State, shape: seq<nat>, j: nat) returns (r: State)
    requires |shape| == dims && j < dims
    requires Inv(dims, data, s) && s.level == j - 1 && Agrees(dims, s, shape)
    requires s.known == dims || 1 <= s.known <= j
    requires s.here < |data| && data[s.here] == '{'
    ensures Inv(dims, data, r) && Run(f, dims, data, s) == Run(f, dims, data, r)
    ensures r.here == s.here + 1 && r.level == j && r.counts[j] == 0
    ensures r.known == s.known && r.extents == s.extents && r.elements == s.elements
    ensures forall i | 0 <= i < j :: r.counts[i] == s.counts[i] + if i == j - 1 then 1 else 0
  {
    r := Step(f, dims, data, s).value;
  }

  lemma CloseRow(f: Format, dims: nat, data: string, s: State, shape: seq<nat>, j: nat) returns (r: State)
    requires |shape| == dims && j < dims
    requires Inv(dims, data, s) && s.level == j && Agrees(dims, s, shape)
    requires s.counts[j] == shape[j]
    requires s.here < |data| && data[s.here] == '}'
    requires FieldEnd(f, data, s.here + 1).Success?
    ensures Inv(dims, data, r) && Run(f, dims, data, s) == Run(f, dims, data, r)
    ensures r.here == FieldEnd(f, data, s.here + 1).value && r.level == j - 1
    ensures r.known == (if j < s.known then j else s.known)
    ensures Agrees(dims, r, shape)
    ensures r.elements == s.elements && r.counts == s.counts
  {
    r := Step(f, dims, data, s).value;
  }

  /** All the items of a row. */
  lemma {:induction false} ScanKids(f: Format, dims: nat, data: string, s: State, kids: seq<Tree>,
                                    shape: seq<nat>, j: nat)
    returns (r: State)
    requires |shape| == dims && OnlyRowsEmpty(shape) && j < dims && f.Valid()
    requires RowShape(kids, shape[j + 1..])
    requires LegalRow(f, kids) || (LeadingGap(f, kids) && LegalRow(f, kids[1..]))
    requires Inv(dims, data, s) && s.level == j && Agrees(dims, s, shape)
    requires s.known == dims || 1 <= s.known <= j + 1
    requires OccursAt(data, s.here, Join(f, kids) + "}")
    ensures RowScanned(f, dims, data, s, r, shape, j, kids)
    decreases dims - j, 1
  {
    hide Step, Run, Inv;
    if LegalRow(f, kids) {
      r := ScanRow(f, dims, data, s, kids, shape, j);
    } else {
      RowStep(f, data, s.here, kids, shape[j + 1..]);
      GapStart(f, data, s.here, kids);
      var next := ScanGap(f, dims, data, s, shape);
      r := ScanRow(f, dims, data, next, kids[1..], shape, j);
      RowCompose(f, dims, data, s, next, r, shape, j, kids);
    }
  }

  lemma GapStart(f: Format, data: string, here: nat, kids: seq<Tree>)
    requires LeadingGap(f, kids) && OccursAt(data, here, Join(f, kids) + "}")
    ensures here < |data| && data[here] == f.sep
    ensures Render(f, kids[0]) == "" && Elements(kids[0]) == [Some("")]
  {
    assert Join(f, kids)[0] == f.sep;
    OccursFirst(data, here, Join(f, kids) + "}");
  }

  /** The items left in a row, up to the row's closing brace. */
  lemma {:induction false} ScanRow(f: Format, dims: nat, data: string, s: State, left: seq<Tree>,
                                   shape: seq<nat>, j: nat)
    returns (r: State)
    requires |shape| == dims && OnlyRowsEmpty(shape) && j < dims && f.Valid()
    requires RowShape(left, shape[j + 1..]) && LegalRow(f, left)
    requires Inv(dims, data, s) && s.level == j && Agrees(dims, s, shape)
    requires s.known == dims || 1 <= s.known <= j + 1
    requires OccursAt(data, s.here, Join(f, left) + "}")
    ensures RowScanned(f, dims, data, s, r, shape, j, left)
    decreases dims - j, 0, left
  {
    hide Step, Run, Inv, Render, LegalTree, HasShape, Elements;
    if left == [] {
      r := s;
      assert data[s.here] == data[s.here..s.here + 1][0];
    } else {
      RowStep(f, data, s.here, left, shape[j + 1..]);
      var next := ScanTree(f, dims, data, s, left[0], shape, j + 1);
      r := ScanRow(f, dims, data, next, left[1..], shape, j);
      RowCompose(f, dims, data, s, next, r, shape, j, left);
    }
  }

  /** What the scan of the items left in a row does to the state. */
  ghost predicate RowScanned(f: Format, dims: nat, data: string, s: State, r: State, shape: seq<nat>, j: nat,
                             left: seq<Tree>)
    requires |shape| == dims && j < dims
    requires Inv(dims, data, s)
  {
    && Inv(dims, data, r)
    && Run(f, dims, data, s) == Run(f, dims, data, r)
    && r.here == s.here + |Join(f, left)| && r.here < |data| && data[r.here] == '}'
    && r.level == j
    && r.known == (if left != [] && j + 1 < s.known then j + 1 else s.known)
    && Agrees(dims, r, shape)
    && r.elements == s.elements + AllElements(left)
    && r.counts[j] == s.counts[j] + |left|
    && (forall d | 0 <= d < j :: r.counts[d] == s.counts[d])
  }

  lemma RowCompose(f: Format, dims: nat, data: string, s: State, next: State, r: State, shape: seq<nat>, j: nat,
                   left: seq<Tree>)
    requires |shape| == dims && j < dims && left != []
    requires Inv(dims, data, s) && s.level == j
    requires ItemScanned(f, dims, data, s, next, shape, j + 1, Render(f, left[0]), Elements(left[0]))
    requires RowScanned(f, dims, data, next, r, shape, j, left[1..])
    requires next.here + |Join(f, left[1..])| == s.here + |Join(f, left)|
    ensures RowScanned(f, dims, data, s, r, shape, j, left)
  {
    hide Step, Run, Inv, Render, Join, FieldEnd, Elements;
    assert s.elements + (Elements(left[0]) + AllElements(left[1..])) ==
           (s.elements + Elements(left[0])) + AllElements(left[1..]);
  }

  /** Between two items of a row: the first is followed by a separator and the rest, or by the closing brace. */
  lemma RowStep(f: Format, data: string, here: nat, left: seq<Tree>, shape: seq<nat>)
    requires left != [] && RowShape(left, shape) && LegalRow(f, left[1..]) && f.Valid()
    requires OccursAt(data, here, Join(f, left) + "}")
    ensures OccursAt(data, here, Render(f, left[0]))
    ensures FieldEnd(f, data, here + |Render(f, left[0])|).Success?
    ensures var next := FieldEnd(f, data, here + |Render(f, left[0])|).value;
            && OccursAt(data, next, Join(f, left[1..]) + "}")
            && next + |Join(f, left[1..])| == here + |Join(f, left)|
  {
    hide Render, HasShape, LegalTree, OccursAt;
    var text, rest := Render(f, left[0]), Join(f, left[1..]) + "}";
    if |left| == 1 {
      OccursSplit(data, here, text, "}");
      OccursFirst(data, here + |text|, "}");
      assert left[1..] == [] && rest == "}";
    } else {
      assert Join(f, left) + "}" == text + ([f.sep] + rest);
      OccursSplit(data, here, text, [f.sep] + rest);
      OccursSplit(data, here + |text|, [f.sep], rest);
      OccursFirst(data, here + |text|, [f.sep]);
      OccursFirst(data, here + |text| + 1, rest);
      assert left[1] == left[1..][0];
      RenderStart(f, left[1]);
      assert rest[0] == Render(f, left[1])[0];
    }
  }

  // ----- The whole array -----

  /** A rendered array passes the checks on its opening and closing braces. */
  lemma {:induction false} RenderEnds(f: Format, t: Tree, shape: seq<nat>)
    requires f.Valid() && Rectangular(f, t, shape)
    ensures |Render(f, t)| >= 2 * |shape| && |Render(f, t)| > |shape|
    ensures forall i | 0 <= i < |shape| :: Render(f, t)[i] == '{'
    ensures Render(f, t)[|shape|] != '{'
    ensures forall i | |Render(f, t)| - |shape| <= i < |Render(f, t)| :: Render(f, t)[i] == '}'
    decreases shape
  {
    hide RowShape, Join;
    RenderStart(f, t);
    if |shape| == 1 {
      assert shape[1..] == [];
      RowBegins(f, t.kids);
    } else if shape != [] {
      var rest := shape[1..];
      assert forall i | 0 <= i < |rest| :: rest[i] == shape[i + 1];
      var first, last := t.kids[0], t.kids[|t.kids| - 1];
      RowShapeEach(t.kids, rest);
      LegalRowEach(f, t.kids);
      assert first in t.kids && last in t.kids;
      RenderEnds(f, first, rest);
      RenderEnds(f, last, rest);
      var before, after := RowEnds(f, t.kids);
      var text := Render(f, t);
      assert text == "{" + Render(f, first) + after && text == before + Render(f, last) + "}";
      assert forall i | 1 <= i <= |Render(f, first)| :: text[i] == Render(f, first)[i - 1];
      assert forall i | |before| <= i < |text| - 1 :: text[i] == Render(f, last)[i - |before|];
    }
  }

  /** An innermost row has no brace after its opening one. */
  lemma RowBegins(f: Format, kids: seq<Tree>)
    requires f.Valid() && RowShape(kids, []) && LegalTree(f, Node(kids))
    ensures (Join(f, kids) + "}")[0] != '{'
  {
    if kids != [] && LegalRow(f, kids) {
      RenderStart(f, kids[0]);
    }
  }

  /** A row's text starts with its first item and ends with its last. */
  lemma RowEnds(f: Format, kids: seq<Tree>) returns (before: string, after: string)
    requires kids != []
    ensures Render(f, Node(kids)) == "{" + Render(f, kids[0]) + after
    ensures Render(f, Node(kids)) == before + Render(f, kids[|kids| - 1]) + "}"
    ensures |before| >= 1 && |after| >= 1
  {
    var front, last := kids[..|kids| - 1], kids[|kids| - 1];
    assert kids == front + [last];
    JoinSnoc(f, front, last);
    before := if front == [] then "{" else "{" + Join(f, front) + [f.sep];
    after := if |kids| == 1 then "}" else [f.sep] + Join(f, kids[1..]) + "}";
  }

  /**
   Parsing the text of any rectangular array succeeds, and gives back its sizes and, in
   row-major order, what its fields say.
   */
  lemma RoundTrip(f: Format, t: Tree, shape: seq<nat>)
    requires f.Valid() && shape != [] && Rectangular(f, t, shape)
    ensures ParseText(f, |shape|, Render(f, t)) == Success(Parsed(shape, Elements(t)))
  {
    var dims, data := |shape|, Render(f, t);
    RenderEnds(f, t, shape);
    assert shape[0..] == shape && data[0..0 + |data|] == data;
    var end := ScanTree(f, dims, data, Start(dims), t, shape, 0);
    RunStep(f, dims, data, end);
    assert Sizes(end.extents, 0) == shape;
    assert [] + Elements(t) == Elements(t);
  }
}
