/**
 The text form of an SQL array as a grammar: a tree of fields whose rows all have the same
 sizes, how the tree is written, and what its fields say. Nothing here refers to a parser.
 */
module ArrayGrammar {
  import opened Wrappers
  import opened Scanners

  /** An element as a field says it: null, or the text to convert. */
  type Element = Option<string>

  /** What the array class takes as template parameters: the separator, and which fields convert
      to its element type. A type without nulls accepts no `None`. */
  datatype Format = Format(sep: char, accepts: Element -> bool) {
    predicate Valid() {
      sep !in {'{', '}', '"', '\0'}
    }
  }

  /** The characters that end a bare field. */
  function FieldStops(f: Format): set<char> {
    {f.sep, '}'}
  }

  /** A field as written: bare text, or the units of a double-quoted string. */
  datatype Token = Bare(text: string) | Quoted(units: seq<Unit>) {
    /** Reads as one field where `f.sep` separates fields. */
    ghost predicate WellFormed(f: Format) {
      match this
      case Bare(text) => text != "" && text[0] !in {'{', '"', '\0', ','} && forall c <- text :: c != f.sep && c != '}'
      case Quoted(units) => LegalUnits(units)
    }

    ghost predicate Legal(f: Format) {
      WellFormed(f) && f.accepts(Value())
    }

    function Text(): string {
      match this
      case Bare(text) => text
      case Quoted(units) => "\"" + UnitsText(units) + "\""
    }

    /** Only a bare `NULL` is a null. */
    function Value(): Element {
      match this
      case Bare(text) => if text == "NULL" then None else Some(text)
      case Quoted(units) => Some(UnitsValue(units))
    }
  }

  /** A field, or a row of sub-arrays (of fields, at the innermost level). */
  datatype Tree = Leaf(token: Token) | Node(kids: seq<Tree>)

  // ----- Writing -----

  function Render(f: Format, t: Tree): string
    decreases t, 1
  {
    match t
    case Leaf(token) => token.Text()
    case Node(kids) => "{" + Join(f, kids) + "}"
  }

  function Join(f: Format, kids: seq<Tree>): string
    decreases kids, 0
  {
    if |kids| == 0 then ""
    else if |kids| == 1 then Render(f, kids[0])
    else Render(f, kids[0]) + [f.sep] + Join(f, kids[1..])
  }

  /** The one empty field that an array can have, and only where `LeadingGap` says. */
  const GAP: Tree := Leaf(Bare(""))

  /**
   A row that starts with an empty field. The parser refuses empty fields by looking for a
   comma, so with another separator it lets one through at the start of a row.
   */
  predicate LeadingGap(f: Format, kids: seq<Tree>) {
    f.sep != ',' && f.accepts(Some("")) && |kids| >= 2 && kids[0] == GAP
  }

  /** Every field can be written as it is and is accepted. */
  ghost predicate LegalTree(f: Format, t: Tree)
    decreases t, 1
  {
    match t
    case Leaf(token) => token.Legal(f)
    case Node(kids) => LegalRow(f, kids) || (LeadingGap(f, kids) && LegalRow(f, kids[1..]))
  }

  ghost predicate LegalRow(f: Format, kids: seq<Tree>)
    decreases kids, 0
  {
    kids == [] || (LegalTree(f, kids[0]) && LegalRow(f, kids[1..]))
  }

  // ----- Shape and contents -----

  /** `t` is a full rectangular array whose sizes, outermost first, are `shape`. */
  predicate HasShape(t: Tree, shape: seq<nat>)
    decreases shape, 0
  {
    if shape == [] then t.Leaf?
    else t.Node? && |t.kids| == shape[0] && RowShape(t.kids, shape[1..])
  }

  /** Every item of a row has the shape `shape`. */
  predicate RowShape(kids: seq<Tree>, shape: seq<nat>)
    decreases shape, 1, kids
  {
    kids == [] || (HasShape(kids[0], shape) && RowShape(kids[1..], shape))
  }

  lemma {:induction false} RowShapeEach(kids: seq<Tree>, shape: seq<nat>)
    ensures RowShape(kids, shape) <==> forall k <- kids :: HasShape(k, shape)
  {
    if kids == [] {
    } else {
      RowShapeEach(kids[1..], shape);
      assert kids[0] in kids && forall k <- kids :: k == kids[0] || k in kids[1..];
      assert forall k <- kids[1..] :: k in kids;
    }
  }

  lemma {:induction false} LegalRowEach(f: Format, kids: seq<Tree>)
    ensures LegalRow(f, kids) <==> forall k <- kids :: LegalTree(f, k)
  {
    if kids == [] {
    } else {
      LegalRowEach(f, kids[1..]);
      assert kids[0] in kids && forall k <- kids :: k == kids[0] || k in kids[1..];
      assert forall k <- kids[1..] :: k in kids;
    }
  }

  /** Only the innermost rows may be empty: an empty row of sub-arrays has no text form. */
  predicate OnlyRowsEmpty(shape: seq<nat>) {
    forall i | 0 <= i < |shape| - 1 :: shape[i] >= 1
  }

  /** `t` is an array of sizes `shape` that has a text form. */
  ghost predicate Rectangular(f: Format, t: Tree, shape: seq<nat>) {
    HasShape(t, shape) && OnlyRowsEmpty(shape) && LegalTree(f, t)
  }

  function Elements(t: Tree): seq<Element>
    decreases t, 1
  {
    match t
    case Leaf(token) => [token.Value()]
    case Node(kids) => AllElements(kids)
  }

  function AllElements(kids: seq<Tree>): seq<Element>
    decreases kids, 0
  {
    if kids == [] then [] else Elements(kids[0]) + AllElements(kids[1..])
  }

  /** `index` names a position in an array of sizes `shape`. */
  predicate InBounds(shape: seq<nat>, index: seq<int>) {
    |index| == |shape| && forall i | 0 <= i < |index| :: 0 <= index[i] < shape[i]
  }

  /** The field reached by following `index` down the tree. */
  ghost function ElementAt(t: Tree, shape: seq<nat>, index: seq<int>): Element
    requires HasShape(t, shape) && InBounds(shape, index)
    decreases shape
  {
    if shape == [] then t.token.Value()
    else
      RowShapeEach(t.kids, shape[1..]);
      assert t.kids[index[0]] in t.kids;
      assert InBounds(shape[1..], index[1..]);
      ElementAt(t.kids[index[0]], shape[1..], index[1..])
  }

  function Product(shape: seq<nat>): nat {
    if shape == [] then 1 else shape[0] * Product(shape[1..])
  }

  // ----- Facts about rendered text -----

  /** A legal item never starts with a character that ends or separates items. */
  lemma RenderStart(f: Format, t: Tree)
    requires f.Valid() && LegalTree(f, t)
    ensures Render(f, t) != "" && Render(f, t)[0] !in {f.sep, '}', '\0'}
    ensures Render(f, t)[0] == '{' <==> t.Node?
  {
    if t.Leaf? {
      match t.token
      case Bare(text) => assert text[0] in text;
      case Quoted(units) =>
    }
  }

  lemma {:induction false} JoinSnoc(f: Format, kids: seq<Tree>, last: Tree)
    ensures Join(f, kids + [last]) ==
            if kids == [] then Render(f, last) else Join(f, kids) + [f.sep] + Render(f, last)
  {
    if |kids| >= 1 {
      assert (kids + [last])[1..] == kids[1..] + [last];
      JoinSnoc(f, kids[1..], last);
    }
  }

  lemma {:induction false} AllElementsSplit(a: seq<Tree>, b: seq<Tree>)
    ensures AllElements(a + b) == AllElements(a) + AllElements(b)
  {
    if a == [] {
      assert a + b == b;
    } else {
      assert (a + b)[1..] == a[1..] + b;
      AllElementsSplit(a[1..], b);
    }
  }

  // ----- The size law -----

  /** Every item in a row of a rectangular array holds the same number of elements. */
  lemma {:induction false} RowSize(kids: seq<Tree>, shape: seq<nat>)
    requires RowShape(kids, shape)
    ensures |AllElements(kids)| == |kids| * Product(shape)
    decreases shape, 1, kids
  {
    if kids == [] {
    } else {
      SizeLaw(kids[0], shape);
      RowSize(kids[1..], shape);
      assert |kids| * Product(shape) == Product(shape) + (|kids| - 1) * Product(shape);
    }
  }

  lemma {:induction false} SizeLaw(t: Tree, shape: seq<nat>)
    requires HasShape(t, shape)
    ensures |Elements(t)| == Product(shape)
    decreases shape, 0
  {
    if shape == [] {
    } else {
      RowSize(t.kids, shape[1..]);
    }
  }

  // ----- At most one more element than there are separators -----

  function Count(c: char, text: string): nat {
    if text == "" then 0 else (if text[0] == c then 1 else 0) + Count(c, text[1..])
  }

  lemma {:induction false} CountSplit(c: char, a: string, b: string)
    ensures Count(c, a + b) == Count(c, a) + Count(c, b)
  {
    if a == "" {
      assert a + b == b;
    } else {
      assert (a + b)[1..] == a[1..] + b;
      CountSplit(c, a[1..], b);
    }
  }

  lemma {:induction false} CountIsMultiplicity(c: char, text: string)
    ensures Count(c, text) == multiset(text)[c]
  {
    if text == "" {
    } else {
      CountIsMultiplicity(c, text[1..]);
      assert text == [text[0]] + text[1..];
    }
  }

  lemma {:induction false} SeparatorsBoundElements(f: Format, t: Tree)
    ensures |Elements(t)| <= Count(f.sep, Render(f, t)) + 1
    decreases t, 1
  {
    if t.Node? {
      SeparatorsBoundRow(f, t.kids);
      CountSplit(f.sep, "{", Join(f, t.kids) + "}");
      CountSplit(f.sep, Join(f, t.kids), "}");
      assert Render(f, t) == "{" + (Join(f, t.kids) + "}");
    }
  }

  lemma {:induction false} SeparatorsBoundRow(f: Format, kids: seq<Tree>)
    ensures |AllElements(kids)| <= Count(f.sep, Join(f, kids)) + 1
    decreases kids, 0
  {
    if kids == [] {
    } else {
      SeparatorsBoundElements(f, kids[0]);
      SeparatorsBoundRow(f, kids[1..]);
      if |kids| > 1 {
        CountSplit(f.sep, Render(f, kids[0]) + [f.sep], Join(f, kids[1..]));
        CountSplit(f.sep, Render(f, kids[0]), [f.sep]);
        assert Count(f.sep, [f.sep]) == 1 + Count(f.sep, [f.sep][1..]);
      }
    }
  }
}
