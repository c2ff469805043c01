/**
 Reading back what the writer wrote. The reader wants one separator at every level; the writer
 puts the elements' separator only between elements.
 */
module ArrayReadBack {
  import opened Wrappers
  import opened ArrayGrammar
  import opened ArrayMachine
  import opened ArrayRoundTrip
  import opened ArrayAcceptance
  import opened ArrayUnambiguous
  import opened ArrayWriter

  /** A reader and a writer that agree on the elements' separator, which no null contains. */
  ghost predicate Agree<T(!new)>(f: Format, t: ElementType<T>) {
    f.Valid() && t.Valid() && f.sep == t.separator && f.sep !in "NULL"
  }

  function ToTree<T(!new)>(t: ElementType<T>, v: Nested<T>): Tree
    decreases v, 1
  {
    match v
    case Value(element) => Leaf(TokenOf(t, element))
    case Container(items) => Node(ToTrees(t, items))
  }

  function ToTrees<T(!new)>(t: ElementType<T>, items: seq<Nested<T>>): (r: seq<Tree>)
    ensures |r| == |items|
    ensures forall i | 0 <= i < |items| :: r[i] == ToTree(t, items[i])
    decreases items, 0
  {
    if items == [] then [] else [ToTree(t, items[0])] + ToTrees(t, items[1..])
  }

  /** The containers at each level all have the same size, those in `shape`. */
  predicate IsRectangular<T>(v: Nested<T>, shape: seq<nat>)
    decreases shape
  {
    if shape == [] then v.Value?
    else v.Container? && |v.items| == shape[0] && forall i | 0 <= i < |v.items| :: IsRectangular(v.items[i], shape[1..])
  }

  /** What an element's field says: null, or the element's text. */
  function FieldOf<T(!new)>(t: ElementType<T>, element: Option<T>): Element {
    if element.None? then None else Some(t.traits.textOf(element.value))
  }

  /** The fields of the elements, innermost containers first, in order. */
  function Flatten<T(!new)>(t: ElementType<T>, v: Nested<T>): seq<Element>
    decreases v, 1
  {
    match v
    case Value(element) => [FieldOf(t, element)]
    case Container(items) => FlattenAll(t, items)
  }

  function FlattenAll<T(!new)>(t: ElementType<T>, items: seq<Nested<T>>): seq<Element>
    decreases items, 0
  {
    if items == [] then [] else Flatten(t, items[0]) + FlattenAll(t, items[1..])
  }

  lemma {:induction false} TreeShape<T(!new)>(t: ElementType<T>, v: Nested<T>, shape: seq<nat>)
    ensures HasShape(ToTree(t, v), shape) <==> IsRectangular(v, shape)
    decreases shape
  {
    if shape != [] && v.Container? {
      RowShapeEach(ToTrees(t, v.items), shape[1..]);
      forall i | 0 <= i < |v.items|
        ensures HasShape(ToTree(t, v.items[i]), shape[1..]) <==> IsRectangular(v.items[i], shape[1..])
      {
        TreeShape(t, v.items[i], shape[1..]);
      }
      assert forall i | 0 <= i < |v.items| :: ToTrees(t, v.items)[i] in ToTrees(t, v.items);
    }
  }

  lemma {:induction false} TreeElements<T(!new)>(t: ElementType<T>, v: Nested<T>)
    requires t.Valid()
    ensures Elements(ToTree(t, v)) == Flatten(t, v)
    decreases v, 1
  {
    match v
    case Value(element) => TokenSays(t, element);
    case Container(items) => TreeElementsAll(t, items);
  }

  lemma TokenSays<T(!new)>(t: ElementType<T>, element: Option<T>)
    requires t.Valid()
    ensures TokenOf(t, element).Value() == FieldOf(t, element)
  {
  }

  lemma {:induction false} TreeElementsAll<T(!new)>(t: ElementType<T>, items: seq<Nested<T>>)
    requires t.Valid()
    ensures AllElements(ToTrees(t, items)) == FlattenAll(t, items)
    decreases items, 0
  {
    if items == [] {
    } else {
      TreeElements(t, items[0]);
      TreeElementsAll(t, items[1..]);
      assert ToTrees(t, items)[1..] == ToTrees(t, items[1..]);
    }
  }

  ghost predicate AllAccepted(f: Format, elements: seq<Element>) {
    forall e <- elements :: f.accepts(e)
  }

  lemma AcceptedSplit(f: Format, a: seq<Element>, b: seq<Element>)
    ensures AllAccepted(f, a + b) <==> AllAccepted(f, a) && AllAccepted(f, b)
  {
    if AllAccepted(f, a + b) {
      assert forall e <- a :: e in a + b;
      assert forall e <- b :: e in a + b;
    }
  }

  /** What is written can be read when the element type takes every element back. */
  lemma {:induction false} TreeLegal<T(!new)>(f: Format, t: ElementType<T>, v: Nested<T>)
    requires Agree(f, t)
    ensures LegalTree(f, ToTree(t, v)) <==> AllAccepted(f, Flatten(t, v))
    decreases v, 1
  {
    hide PlainText;
    match v
    case Value(element) => TokenLegal(f, t, element);
    case Container(items) => TreesLegal(f, t, items);
  }

  lemma TokenLegal<T(!new)>(f: Format, t: ElementType<T>, element: Option<T>)
    requires Agree(f, t)
    ensures TokenOf(t, element).WellFormed(f) && TokenOf(t, element).Value() == FieldOf(t, element)
    ensures TokenOf(t, element) != Bare("")
  {
    if element.Some? && t.unquoted {
      assert PlainText(t.separator, t.traits.textOf(element.value));
    }
  }

  lemma {:induction false} TreesLegal<T(!new)>(f: Format, t: ElementType<T>, items: seq<Nested<T>>)
    requires Agree(f, t)
    ensures LegalRow(f, ToTrees(t, items)) <==> AllAccepted(f, FlattenAll(t, items))
    ensures items != [] ==> ToTrees(t, items)[0] != GAP
    decreases items, 0
  {
    hide PlainText, TokenOf;
    if items == [] {
    } else {
      TreeLegal(f, t, items[0]);
      TreesLegal(f, t, items[1..]);
      if items[0].Value? {
        TokenLegal(f, t, items[0].element);
      }
      assert ToTrees(t, items)[1..] == ToTrees(t, items[1..]);
      AcceptedSplit(f, Flatten(t, items[0]), FlattenAll(t, items[1..]));
    }
  }

  // ----- One separator -----

  /** Everywhere that the writer puts a separator, it is the reader's. */
  predicate OneSeparator<T(!new)>(f: Format, t: ElementType<T>, v: Nested<T>)
    decreases v, 1
  {
    v.Container? ==> RowOneSeparator(f, t, v.items)
  }

  predicate RowOneSeparator<T(!new)>(f: Format, t: ElementType<T>, items: seq<Nested<T>>)
    decreases items, 0
  {
    items == [] ||
    (&& OneSeparator(f, t, items[0])
     && (|items| > 1 ==> SeparatorAfter(t, items[0]) == f.sep)
     && RowOneSeparator(f, t, items[1..]))
  }

  lemma {:induction false} SameText<T(!new)>(f: Format, t: ElementType<T>, v: Nested<T>)
    requires OneSeparator(f, t, v)
    ensures ItemText(t, v) == Render(f, ToTree(t, v))
    decreases v, 1
  {
    if v.Container? {
      RowSameText(f, t, v.items);
    }
  }

  lemma {:induction false} RowSameText<T(!new)>(f: Format, t: ElementType<T>, items: seq<Nested<T>>)
    requires RowOneSeparator(f, t, items)
    ensures ItemsText(t, items) == Join(f, ToTrees(t, items))
    decreases items, 0
  {
    if items == [] {
    } else {
      SameText(f, t, items[0]);
      RowSameText(f, t, items[1..]);
      assert ToTrees(t, items)[1..] == ToTrees(t, items[1..]);
    }
  }

  // ----- Read as nothing else -----

  /** An item's text, where it reads as a tree's, is that tree's own. */
  lemma {:induction false} ItemUnique<T(!new)>(f: Format, t: ElementType<T>, tree: Tree, v: Nested<T>,
                                               x: string, y: string)
    requires Agree(f, t) && LegalTree(f, tree)
    requires Ends(f, x) && (v.Value? ==> Ends(f, y))
    requires Render(f, tree) + x == ItemText(t, v) + y
    ensures tree == ToTree(t, v) && x == y && OneSeparator(f, t, v)
    decreases v, 1
  {
    hide PlainText;
    RenderStart(f, tree);
    ItemStart(f, t, v);
    assert (Render(f, tree) + x)[0] == Render(f, tree)[0] && (ItemText(t, v) + y)[0] == ItemText(t, v)[0];
    match v
    case Value(element) =>
      TokenLegal(f, t, element);
      TokenUnique(f, tree.token, TokenOf(t, element), x, y);
    case Container(items) =>
      assert Render(f, tree) + x == "{" + (Join(f, tree.kids) + "}" + x);
      assert ItemText(t, v) + y == "{" + (ItemsText(t, items) + "}" + y);
      Strip("{", Join(f, tree.kids) + "}" + x, ItemsText(t, items) + "}" + y);
      NoGap(f, t, tree.kids, items, x, y);
      RowUniqueText(f, t, tree.kids, items, x, y);
  }

  lemma ItemStart<T(!new)>(f: Format, t: ElementType<T>, v: Nested<T>)
    requires Agree(f, t)
    ensures ItemText(t, v) != "" && ItemText(t, v)[0] !in {f.sep, '}'}
    ensures ItemText(t, v)[0] == '{' <==> v.Container?
  {
    if v.Value? && v.element.None? {
      assert 'N' in "NULL";
    } else if v.Value? && t.unquoted {
      assert PlainText(t.separator, t.traits.textOf(v.element.value));
    }
  }

  /** What follows a row's first item. */
  function AfterItem<T(!new)>(t: ElementType<T>, items: seq<Nested<T>>, y: string): string
    requires items != []
  {
    if |items| == 1 then "}" + y else [SeparatorAfter(t, items[0])] + (ItemsText(t, items[1..]) + "}" + y)
  }

  lemma ItemsFirst<T(!new)>(t: ElementType<T>, items: seq<Nested<T>>, y: string)
    requires items != []
    ensures ItemsText(t, items) + "}" + y == ItemText(t, items[0]) + AfterItem(t, items, y)
  {
    hide ItemText, ItemsText;
    ItemsHead(t, items);
    if |items| == 1 {
      Regroup(ItemText(t, items[0]), "", "", y);
    } else {
      Regroup(ItemText(t, items[0]), [SeparatorAfter(t, items[0])], ItemsText(t, items[1..]), y);
    }
  }

  lemma ItemsHead<T(!new)>(t: ElementType<T>, items: seq<Nested<T>>)
    requires items != []
    ensures ItemsText(t, items) ==
            if |items| == 1 then ItemText(t, items[0])
            else ItemText(t, items[0]) + [SeparatorAfter(t, items[0])] + ItemsText(t, items[1..])
  {
  }

  lemma ItemsStart<T(!new)>(f: Format, t: ElementType<T>, items: seq<Nested<T>>, y: string)
    requires Agree(f, t)
    ensures var s := ItemsText(t, items) + "}" + y; s[0] != f.sep && (s[0] == '}' <==> items == [])
    ensures items == [] ==> ItemsText(t, items) + "}" + y == "}" + y
  {
    hide PlainText, ItemText;
    if items != [] {
      ItemStart(f, t, items[0]);
      ItemsFirst(t, items, y);
    }
  }

  /** The writer leaves no field empty. */
  lemma NoGap<T(!new)>(f: Format, t: ElementType<T>, kids: seq<Tree>, items: seq<Nested<T>>, x: string, y: string)
    requires Agree(f, t) && LegalTree(f, Node(kids))
    requires Join(f, kids) + "}" + x == ItemsText(t, items) + "}" + y
    ensures LegalRow(f, kids)
  {
    hide Join, ItemsText, LegalTree;
    KidsStart(f, kids, x);
    ItemsStart(f, t, items, y);
  }

  lemma {:induction false} RowUniqueText<T(!new)>(f: Format, t: ElementType<T>, kids: seq<Tree>, items: seq<Nested<T>>,
                                                  x: string, y: string)
    requires Agree(f, t) && LegalRow(f, kids)
    requires Join(f, kids) + "}" + x == ItemsText(t, items) + "}" + y
    ensures kids == ToTrees(t, items) && x == y && RowOneSeparator(f, t, items)
    decreases items, 0
  {
    hide Render, Join, ItemText, ItemsText, LegalTree, PlainText;
    RowStarts(f, kids, x);
    ItemsStart(f, t, items, y);
    if items == [] || kids == [] {
      Strip("}", x, y);
    } else {
      RowFirst(f, kids, x);
      ItemsFirst(t, items, y);
      var a, b := AfterFirst(f, kids, x), AfterItem(t, items, y);
      assert b[0] == if |items| == 1 then '}' else SeparatorAfter(t, items[0]);
      assert a[0] == if |kids| == 1 then '}' else f.sep;
      ItemUnique(f, t, kids[0], items[0], a, b);
      if |kids| == 1 {
        Strip("}", x, y);
      } else {
        Strip([f.sep], Join(f, kids[1..]) + "}" + x, ItemsText(t, items[1..]) + "}" + y);
        RowUniqueText(f, t, kids[1..], items[1..], x, y);
        assert kids == [kids[0]] + kids[1..];
      }
    }
  }

  // ----- Writing, then reading -----

  /** The containers make up a rectangular array of sizes `shape` whose elements can be read
      back, and whose text has the same separator at every level. */
  ghost predicate Readable<T(!new)>(f: Format, t: ElementType<T>, items: seq<Nested<T>>, shape: seq<nat>) {
    && IsRectangular(Container(items), shape) && OnlyRowsEmpty(shape)
    && AllAccepted(f, FlattenAll(t, items))
    && RowOneSeparator(f, t, items)
  }

  /**
   Writing and reading are inverse: the text of a container is read, as an array of so many
   dimensions, exactly when the containers are nested that deep, all those at one level have
   the same size, only innermost ones are empty, the type read into takes every element, and
   no two containers stand side by side unless the elements too are separated by commas. What
   is read are those sizes and the texts of the elements that were written, from which, by
   their contract, the type's conversions give back the elements.
   */
  lemma WriteThenParse<T(!new)>(f: Format, t: ElementType<T>, items: seq<Nested<T>>, dims: nat)
    requires Agree(f, t) && dims >= 1
    ensures ParseText(f, dims, Text(t, items)).Success? <==>
            exists shape :: |shape| == dims && Readable(f, t, items, shape)
    ensures forall shape | |shape| == dims && Readable(f, t, items, shape) ::
              ParseText(f, dims, Text(t, items)) == Success(Parsed(shape, FlattenAll(t, items)))
  {
    hide PlainText, ElementType.Valid;
    var v := Container(items);
    TreeLegal(f, t, v);
    TreeElements(t, v);
    forall shape | |shape| == dims && Readable(f, t, items, shape)
      ensures ParseText(f, dims, Text(t, items)) == Success(Parsed(shape, FlattenAll(t, items)))
    {
      TreeShape(t, v, shape);
      SameText(f, t, v);
      RoundTrip(f, ToTree(t, v), shape);
    }
    if ParseText(f, dims, Text(t, items)).Success? {
      var tree := AcceptText(f, dims, Text(t, items));
      var shape := ParseText(f, dims, Text(t, items)).value.shape;
      assert Render(f, tree) + "" == ItemText(t, v) + "";
      ItemUnique(f, t, tree, v, "", "");
      TreeShape(t, v, shape);
    }
  }

  lemma {:induction false} RowOneSeparatorEach<T(!new)>(f: Format, t: ElementType<T>, items: seq<Nested<T>>)
    ensures RowOneSeparator(f, t, items) <==>
            && (forall i | 0 <= i < |items| :: OneSeparator(f, t, items[i]))
            && (forall i | 0 <= i < |items| - 1 :: SeparatorAfter(t, items[i]) == f.sep)
  {
    if items == [] {
    } else {
      RowOneSeparatorEach(f, t, items[1..]);
      assert forall i | 1 <= i < |items| :: items[i] == items[1..][i - 1];
    }
  }

  /** Told by the sizes: the separator is the same at every level exactly when it is the comma or
      no container holds two others. */
  lemma {:induction false} OneSeparatorBySize<T(!new)>(f: Format, t: ElementType<T>, v: Nested<T>, shape: seq<nat>)
    requires f.sep == t.separator && IsRectangular(v, shape) && OnlyRowsEmpty(shape)
    ensures OneSeparator(f, t, v) <==> f.sep == ',' || forall d | 0 <= d < |shape| - 1 :: shape[d] == 1
    decreases shape
  {
    if shape == [] {
    } else {
      var inner := shape[1..];
      RowOneSeparatorEach(f, t, v.items);
      assert forall d | 0 <= d < |inner| :: inner[d] == shape[d + 1];
      forall i | 0 <= i < |v.items|
        ensures OneSeparator(f, t, v.items[i]) <==> f.sep == ',' || forall d | 0 <= d < |inner| - 1 :: inner[d] == 1
      {
        OneSeparatorBySize(f, t, v.items[i], inner);
      }
      if |shape| > 1 {
        assert IsRectangular(v.items[0], inner);
        assert forall d | 1 <= d < |shape| - 1 :: shape[d] == inner[d - 1];
      }
    }
  }
}
