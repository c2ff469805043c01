/** A text is the rendering of at most one tree: the grammar of arrays is unambiguous. */
module ArrayUnambiguous {
  import opened Scanners
  import opened ArrayGrammar

  /** What can follow an item: nothing, the separator before the next item, or a closing brace. */
  predicate Ends(f: Format, rest: string) {
    rest == "" || rest[0] in FieldStops(f)
  }

  lemma Strip(prefix: string, a: string, b: string)
    requires prefix + a == prefix + b
    ensures a == b
  {
    assert a == (prefix + a)[|prefix|..] && b == (prefix + b)[|prefix|..];
  }

  lemma {:induction false} UnitsUnique(f: Format, a: seq<Unit>, b: seq<Unit>, x: string, y: string)
    requires f.Valid() && LegalUnits(a) && LegalUnits(b) && Ends(f, x) && Ends(f, y)
    requires UnitsText(a) + "\"" + x == UnitsText(b) + "\"" + y
    ensures a == b && x == y
    decreases |a|
  {
    var s, t := UnitsText(a) + "\"" + x, UnitsText(b) + "\"" + y;
    if a == [] || b == [] {
      UnitsEnd(f, a, x);
      UnitsEnd(f, b, y);
      Strip("\"", x, y);
    } else {
      UnitsFirst(a, x);
      UnitsFirst(b, y);
      assert a[0].Legal() && b[0].Legal();
      assert a[0] == b[0];
      Strip(a[0].Text(), UnitsText(a[1..]) + "\"" + x, UnitsText(b[1..]) + "\"" + y);
      UnitsUnique(f, a[1..], b[1..], x, y);
    }
  }

  /** A quoted field ends at a quote that is not doubled; no unit looks like that. */
  lemma UnitsEnd(f: Format, a: seq<Unit>, x: string)
    requires f.Valid() && LegalUnits(a) && Ends(f, x)
    ensures var s := UnitsText(a) + "\"" + x;
            a == [] <==> s[0] == '"' && (|s| == 1 || s[1] != '"')
    ensures a == [] ==> UnitsText(a) + "\"" + x == "\"" + x
  {
    if a != [] {
      UnitsFirst(a, x);
      assert a[0].Legal();
    }
  }

  lemma UnitsFirst(a: seq<Unit>, x: string)
    requires a != []
    ensures var s, first := UnitsText(a) + "\"" + x, a[0].Text();
            && s == first + (UnitsText(a[1..]) + "\"" + x)
            && s[0] == first[0] && (|first| == 2 ==> |s| > 1 && s[1] == first[1])
  {
    var s, first := UnitsText(a) + "\"" + x, a[0].Text();
    assert s == first + (UnitsText(a[1..]) + "\"" + x);
  }

  lemma TokenUnique(f: Format, a: Token, b: Token, x: string, y: string)
    requires f.Valid() && a.WellFormed(f) && b.WellFormed(f) && Ends(f, x) && Ends(f, y)
    requires a.Text() + x == b.Text() + y
    ensures a == b && x == y
  {
    assert (a.Text() + x)[0] == a.Text()[0] && (b.Text() + y)[0] == b.Text()[0];
    match (a, b) {
      case (Bare(s), Bare(t)) => BareUnique(f, s, t, x, y);
      case (Quoted(u), Quoted(v)) => QuotedUnique(f, u, v, x, y);
      case _ =>
    }
  }

  lemma QuotedUnique(f: Format, u: seq<Unit>, v: seq<Unit>, x: string, y: string)
    requires f.Valid() && LegalUnits(u) && LegalUnits(v) && Ends(f, x) && Ends(f, y)
    requires Quoted(u).Text() + x == Quoted(v).Text() + y
    ensures u == v && x == y
  {
    hide UnitsText, LegalUnits, Token.Text;
    QuotedText(u, x);
    QuotedText(v, y);
    Strip("\"", UnitsText(u) + "\"" + x, UnitsText(v) + "\"" + y);
    UnitsUnique(f, u, v, x, y);
  }

  lemma QuotedText(u: seq<Unit>, x: string)
    ensures Quoted(u).Text() + x == "\"" + (UnitsText(u) + "\"" + x)
  {
    hide UnitsText;
  }

  lemma BareUnique(f: Format, s: string, t: string, x: string, y: string)
    requires (forall c <- s :: c !in FieldStops(f)) && (forall c <- t :: c !in FieldStops(f))
    requires Ends(f, x) && Ends(f, y) && s + x == t + y
    ensures s == t && x == y
  {
    BareStops(f, s, x);
    BareStops(f, t, y);
    assert s == (s + x)[..|s|] && t == (t + y)[..|t|];
    Strip(s, x, y);
  }

  lemma BareStops(f: Format, s: string, x: string)
    requires (forall c <- s :: c !in FieldStops(f)) && Ends(f, x)
    ensures forall i | 0 <= i < |s| :: (s + x)[i] !in FieldStops(f)
    ensures x != "" ==> (s + x)[|s|] in FieldStops(f)
  {
    forall i | 0 <= i < |s|
      ensures (s + x)[i] !in FieldStops(f)
    {
      assert s[i] in s;
    }
  }

  lemma {:induction false} TreeUnique(f: Format, a: Tree, b: Tree, x: string, y: string)
    requires f.Valid() && LegalTree(f, a) && LegalTree(f, b) && Ends(f, x) && Ends(f, y)
    requires Render(f, a) + x == Render(f, b) + y
    ensures a == b && x == y
    decreases a, 1
  {
    RenderStart(f, a);
    RenderStart(f, b);
    assert (Render(f, a) + x)[0] == Render(f, a)[0] && (Render(f, b) + y)[0] == Render(f, b)[0];
    if a.Leaf? {
      TokenUnique(f, a.token, b.token, x, y);
    } else {
      assert Render(f, a) + x == "{" + (Join(f, a.kids) + "}" + x);
      assert Render(f, b) + y == "{" + (Join(f, b.kids) + "}" + y);
      Strip("{", Join(f, a.kids) + "}" + x, Join(f, b.kids) + "}" + y);
      KidsUnique(f, a.kids, b.kids, x, y);
    }
  }

  /** The items of two rows, either of which may start with a gap. */
  lemma {:induction false} KidsUnique(f: Format, a: seq<Tree>, b: seq<Tree>, x: string, y: string)
    requires f.Valid() && Ends(f, x) && Ends(f, y)
    requires LegalTree(f, Node(a)) && LegalTree(f, Node(b))
    requires Join(f, a) + "}" + x == Join(f, b) + "}" + y
    ensures a == b && x == y
    decreases a, 1
  {
    KidsStart(f, a, x);
    KidsStart(f, b, y);
    if LegalRow(f, a) {
      RowUnique(f, a, b, x, y);
    } else {
      Strip([f.sep], Join(f, a[1..]) + "}" + x, Join(f, b[1..]) + "}" + y);
      RowUnique(f, a[1..], b[1..], x, y);
      assert a == [GAP] + a[1..] && b == [GAP] + b[1..];
    }
  }

  lemma KidsStart(f: Format, kids: seq<Tree>, x: string)
    requires f.Valid() && LegalTree(f, Node(kids))
    ensures LegalRow(f, kids) <==> (Join(f, kids) + "}" + x)[0] != f.sep
    ensures !LegalRow(f, kids) ==>
              && LeadingGap(f, kids) && LegalRow(f, kids[1..])
              && Join(f, kids) + "}" + x == [f.sep] + (Join(f, kids[1..]) + "}" + x)
  {
    if LegalRow(f, kids) {
      if kids != [] {
        RenderStart(f, kids[0]);
        RowFirst(f, kids, x);
      }
    } else {
      assert Join(f, kids) == "" + [f.sep] + Join(f, kids[1..]);
      assert Join(f, kids) + "}" + x == [f.sep] + (Join(f, kids[1..]) + "}" + x);
    }
  }

  /** What follows a row's first item. */
  function AfterFirst(f: Format, kids: seq<Tree>, x: string): string
    requires kids != []
  {
    if |kids| == 1 then "}" + x else [f.sep] + (Join(f, kids[1..]) + "}" + x)
  }

  lemma RowFirst(f: Format, kids: seq<Tree>, x: string)
    requires kids != []
    ensures Join(f, kids) + "}" + x == Render(f, kids[0]) + AfterFirst(f, kids, x)
    ensures Ends(f, AfterFirst(f, kids, x)) && AfterFirst(f, kids, x) != ""
  {
    hide Render, Join;
    JoinHead(f, kids);
    if |kids| == 1 {
      Regroup(Render(f, kids[0]), "", "", x);
    } else {
      Regroup(Render(f, kids[0]), [f.sep], Join(f, kids[1..]), x);
    }
  }

  lemma Regroup(first: string, sep: string, rest: string, x: string)
    ensures first + "}" + x == first + ("}" + x)
    ensures first + sep + rest + "}" + x == first + (sep + (rest + "}" + x))
  {
    assert (first + sep) + rest == first + (sep + rest);
    assert (first + (sep + rest)) + ("}" + x) == first + ((sep + rest) + ("}" + x));
    assert (sep + rest) + ("}" + x) == sep + (rest + ("}" + x));
  }

  lemma JoinHead(f: Format, kids: seq<Tree>)
    requires kids != []
    ensures Join(f, kids) ==
            if |kids| == 1 then Render(f, kids[0]) else Render(f, kids[0]) + [f.sep] + Join(f, kids[1..])
  {
  }

  lemma {:induction false} RowUnique(f: Format, a: seq<Tree>, b: seq<Tree>, x: string, y: string)
    requires f.Valid() && LegalRow(f, a) && LegalRow(f, b) && Ends(f, x) && Ends(f, y)
    requires Join(f, a) + "}" + x == Join(f, b) + "}" + y
    ensures a == b && x == y
    decreases a, 0
  {
    hide Render, Join, LegalTree;
    if a == [] || b == [] {
      RowStarts(f, a, x);
      RowStarts(f, b, y);
      Strip("}", x, y);
    } else {
      RowFirst(f, a, x);
      RowFirst(f, b, y);
      TreeUnique(f, a[0], b[0], AfterFirst(f, a, x), AfterFirst(f, b, y));
      assert AfterFirst(f, a, x)[0] == if |a| == 1 then '}' else f.sep;
      assert AfterFirst(f, b, y)[0] == if |b| == 1 then '}' else f.sep;
      if |a| == 1 {
        Strip("}", x, y);
      } else {
        Strip([f.sep], Join(f, a[1..]) + "}" + x, Join(f, b[1..]) + "}" + y);
        RowUnique(f, a[1..], b[1..], x, y);
        assert a == [a[0]] + a[1..] && b == [b[0]] + b[1..];
      }
    }
  }

  lemma RowStarts(f: Format, kids: seq<Tree>, x: string)
    requires f.Valid() && LegalRow(f, kids)
    ensures (Join(f, kids) + "}" + x)[0] == '}' <==> kids == []
    ensures kids == [] ==> Join(f, kids) + "}" + x == "}" + x
  {
    if kids != [] {
      RenderStart(f, kids[0]);
      RowFirst(f, kids, x);
    }
  }

  lemma RenderInjective(f: Format, a: Tree, b: Tree)
    requires f.Valid() && LegalTree(f, a) && LegalTree(f, b) && Render(f, a) == Render(f, b)
    ensures a == b
  {
    assert Render(f, a) + "" == Render(f, a) && Render(f, b) + "" == Render(f, b);
    TreeUnique(f, a, b, "", "");
  }
}
