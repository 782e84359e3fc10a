/**
 * The element tree of `SingleTag` and `DoubleTag` as values, and its rendering:
 * `opening_tag`, `closing_tag`, `to_a` (one string per output line) and `to_s`.
 *
 * No node stores its depth: a `DoubleTag` prefixes every line its children
 * produce with one indent, so a line `d` levels down carries `d` indents.
 */
module Markup {
  import opened RubyStrings
  import opened AttributeScan
  import opened HtmlAttributes

  /** A `SingleTag` (self-closing) or a `DoubleTag` with its content. */
  datatype Tag =
    | Single(element: string, attributes: AttrMap)
    | Double(element: string, attributes: AttrMap, content: seq<Item>, oneline: bool)

  /** A content item: text (anything rendered with `to_s`) or a tag. */
  datatype Item = Text(text: string) | Node(tag: Tag)

  /** `n` spaces. */
  function Blank(n: nat): (r: string)
    ensures |r| == n && forall i :: 0 <= i < n ==> r[i] == ' '
  {
    seq(n, _ => ' ')
  }

  /** `indent`: two spaces. */
  function Indent(): (r: string)
    ensures r == Blank(2)
  {
    "  "
  }

  /** `opening_tag`: `<el>`, or `<el attrs>` when there are attributes. */
  function OpeningTag(element: string, attributes: AttrMap): (r: string)
    ensures |r| >= |element| + 2 && r[..|element| + 1] == "<" + element && r[|r| - 1] == '>'
    ensures attributes == [] <==> r == "<" + element + ">"
    ensures attributes != [] ==> r[|element| + 1] == ' ' && r[|element| + 2..|r| - 1] == Render(attributes)
  {
    var head := "<" + element;
    if attributes == [] then head + ">"
    else
      var a := Render(attributes);
      var r := head + " " + a + ">";
      assert r[..|head|] == head && r[|head|] == ' ' && r[|head| + 1..|r| - 1] == a;
      r
  }

  /** `closing_tag`: the attribute-free opening tag with a `/` after the `<`. */
  function ClosingTag(element: string): (r: string)
    ensures r == "</" + OpeningTag(element, [])[1..]
  {
    "</" + element + ">"
  }

  /** Every line of `xs` with `p` in front (`l.prepend p`). */
  function Prefixed(xs: seq<string>, p: string): (r: seq<string>)
    ensures |r| == |xs| && forall i :: 0 <= i < |xs| ==> r[i] == p + xs[i]
  {
    seq(|xs|, i requires 0 <= i < |xs| => p + xs[i])
  }

  /** `to_a`: the opening tag, then every child line (indented unless
      `oneline`), then the closing tag; a `SingleTag` is its opening tag alone. */
  function ToA(t: Tag): (r: seq<string>)
    ensures |r| >= 1 && r[0] == OpeningTag(t.element, t.attributes)
    ensures t.Single? ==> |r| == 1
    ensures t.Double? ==> |r| >= 2 && r[|r| - 1] == ClosingTag(t.element)
    decreases t, 1
  {
    match t
    case Single(el, attrs) => [OpeningTag(el, attrs)]
    case Double(el, attrs, cs, ol) =>
      [OpeningTag(el, attrs)] + Prefixed(ContentLines(cs), if ol then "" else Indent()) + [ClosingTag(el)]
  }

  /** The lines one content item contributes: a tag its `to_a`, text its `to_s`. */
  function ItemLines(c: Item): (r: seq<string>)
    ensures |r| >= 1
    decreases c, 0
  {
    match c
    case Text(s) => [s]
    case Node(t) => ToA(t)
  }

  /** `content.map { ... }.flatten`. */
  function ContentLines(cs: seq<Item>): (r: seq<string>)
    ensures |r| >= |cs|
    decreases cs
  {
    if cs == [] then [] else ItemLines(cs[0]) + ContentLines(cs[1..])
  }

  /** `to_s`: the opening tag and a newline for a `SingleTag`; for a
      `DoubleTag`, the lines of `to_a` joined by newlines (by nothing when
      `oneline`) and one final newline. */
  function ToS(t: Tag): (r: string)
    ensures |r| > 0 && r[|r| - 1] == '\n'
  {
    var lines := ToA(t);
    match t
    case Single(el, attrs) => OpeningTag(el, attrs) + "\n"
    case Double(_, _, _, ol) => Join(lines, if ol then "" else "\n") + "\n"
  }

  /** A `DoubleTag` without content renders as its two tags, on two lines or
      on one. */
  lemma EmptyDouble(el: string, attrs: AttrMap, oneline: bool)
    ensures ToA(Double(el, attrs, [], oneline)) == [OpeningTag(el, attrs), ClosingTag(el)]
    ensures ToS(Double(el, attrs, [], oneline)) ==
      OpeningTag(el, attrs) + (if oneline then "" else "\n") + ClosingTag(el) + "\n"
  {
    var t := Double(el, attrs, [], oneline);
    var o, c := OpeningTag(el, attrs), ClosingTag(el);
    var p := if oneline then "" else Indent();
    assert Prefixed(ContentLines([]), p) == [];
    assert ToA(t) == [o] + [] + [c] == [o, c];
    var sep := if oneline then "" else "\n";
    assert [o, c][1..] == [c];
    assert Join([o, c], sep) == o + sep + c;
  }

  /** `DoubleTag.new('p', attributes: { class: 'awesome' })` renders as
      `<p class="awesome">` and `</p>` on two lines, or on one when `oneline`. */
  lemma AwesomeParagraph(oneline: bool)
    ensures ToS(Double("p", [("class", ["awesome"])], [], oneline)) ==
      if oneline then "<p class=\"awesome\"></p>\n" else "<p class=\"awesome\">\n</p>\n"
  {
    if oneline {
      AwesomeOneline();
    } else {
      AwesomeExpanded();
    }
  }

  lemma AwesomeExpanded()
    ensures ToS(Double("p", [("class", ["awesome"])], [], false)) == "<p class=\"awesome\">\n</p>\n"
  {
    AwesomeOpening();
    EmptyDoubleIs("p", [("class", ["awesome"])], false, "<p class=\"awesome\">", "</p>");
    AwesomeLines();
  }

  lemma AwesomeOneline()
    ensures ToS(Double("p", [("class", ["awesome"])], [], true)) == "<p class=\"awesome\"></p>\n"
  {
    AwesomeOpening();
    EmptyDoubleIs("p", [("class", ["awesome"])], true, "<p class=\"awesome\">", "</p>");
    AwesomeLines();
  }

  lemma AwesomeLines()
    ensures "<p class=\"awesome\">" + "\n" + "</p>" + "\n" == "<p class=\"awesome\">\n</p>\n"
    ensures "<p class=\"awesome\">" + "" + "</p>" + "\n" == "<p class=\"awesome\"></p>\n"
  {
  }

  /** `EmptyDouble` with the two tags already known. */
  lemma EmptyDoubleIs(el: string, attrs: AttrMap, oneline: bool, o: string, c: string)
    requires OpeningTag(el, attrs) == o && "</" + el + ">" == c
    ensures ToS(Double(el, attrs, [], oneline)) == o + (if oneline then "" else "\n") + c + "\n"
  {
    EmptyDouble(el, attrs, oneline);
  }

  lemma AwesomeOpening()
    ensures OpeningTag("p", [("class", ["awesome"])]) == "<p class=\"awesome\">"
  {
    AwesomeRender();
    OpeningWith("p", [("class", ["awesome"])], "class=\"awesome\"");
    AwesomeText();
  }

  /** The opening tag of an element with attributes rendering as `x`. */
  lemma OpeningWith(el: string, attrs: AttrMap, x: string)
    requires attrs != [] && Render(attrs) == x
    ensures OpeningTag(el, attrs) == "<" + el + (" " + x) + ">"
  {
    assert "<" + el + " " + x + ">" == "<" + el + (" " + x) + ">";
  }

  lemma AwesomeText()
    ensures "<" + "p" + (" " + "class=\"awesome\"") + ">" == "<p class=\"awesome\">"
  {
  }

  lemma AwesomeRender()
    ensures Render([("class", ["awesome"])]) == "class=\"awesome\""
  {
    var attrs: AttrMap := [("class", ["awesome"])];
    var t := "class=\"awesome\"";
    assert Join(["awesome"], " ") == "awesome";
    assert PairText(attrs[0]) == t;
    assert attrs[..0] == [];
    assert Pairs(attrs) == t + " ";
    StripPadded(t, " ");
  }

  /** A `p`, an `hr` and a text inside a `div` inside a `main`: each level
      adds one indent. */
  lemma NestedIndent()
    ensures ToA(Double("main", [], [Node(NestedDiv())], false)) ==
      ["<main>", Indent() + "<div>",
       Indent() + Indent() + "<p>", Indent() + Indent() + "</p>",
       Indent() + Indent() + "<hr>", Indent() + Indent() + "example text",
       Indent() + "</div>", "</main>"]
  {
    MainLines();
  }

  lemma MainLines()
    ensures ToA(Double("main", [], [Node(NestedDiv())], false)) ==
      ["<main>", Indent() + "<div>"] + Prefixed(["<p>", "</p>", "<hr>", "example text"], Indent() + Indent()) +
      [Indent() + "</div>", "</main>"]
  {
    DivLines();
    NestOnce("main", NestedDiv(), "<div>", ["<p>", "</p>", "<hr>", "example text"], "</div>");
    assert "<" + "main" + ">" == "<main>" && "</" + "main" + ">" == "</main>";
  }

  /** A tag whose lines are `a`, indented `xs` and `b`, placed alone inside
      another: its lines gain one more indent, its children's lines two. */
  lemma NestOnce(el: string, child: Tag, a: string, xs: seq<string>, b: string)
    requires ToA(child) == [a] + Prefixed(xs, Indent()) + [b]
    ensures ToA(Double(el, [], [Node(child)], false)) ==
      ["<" + el + ">", Indent() + a] + Prefixed(xs, Indent() + Indent()) + [Indent() + b, "</" + el + ">"]
  {
    OnlyChild(el, child);
    NestShape("<" + el + ">", "</" + el + ">", Indent(), a, xs, b, ToA(child));
  }

  /** The line arithmetic of `NestOnce`. */
  lemma NestShape(o: string, c: string, i: string, a: string, xs: seq<string>, b: string, ls: seq<string>)
    requires ls == [a] + Prefixed(xs, i) + [b]
    ensures [o] + Prefixed(ls, i) + [c] == [o, i + a] + Prefixed(xs, i + i) + [i + b, c]
  {
    Reindent(a, Prefixed(xs, i), b, i);
    PrefixedTwice(xs, i, i);
    var p := Prefixed(xs, i + i);
    assert Prefixed(ls, i) == [i + a] + p + [i + b];
    assert [o] + ([i + a] + p + [i + b]) + [c] == [o, i + a] + p + [i + b, c];
  }

  /** Indenting a tag's lines indents its two tags and its child lines. */
  lemma Reindent(a: string, xs: seq<string>, b: string, p: string)
    ensures Prefixed([a] + xs + [b], p) == [p + a] + Prefixed(xs, p) + [p + b]
  {
    PrefixedAppend([a] + xs, [b], p);
    PrefixedAppend([a], xs, p);
  }

  /** A tag with one tag inside and no attributes: the child's lines,
      indented, between the parent's two tags. */
  lemma OnlyChild(el: string, child: Tag)
    ensures ToA(Double(el, [], [Node(child)], false)) ==
      ["<" + el + ">"] + Prefixed(ToA(child), Indent()) + ["</" + el + ">"]
  {
    var cs := [Node(child)];
    assert ContentLines(cs) == ToA(child) by {
      assert cs[1..] == [];
      assert ContentLines(cs) == ItemLines(cs[0]) + ContentLines([]);
    }
    assert ToA(Double(el, [], cs, false)) ==
      [OpeningTag(el, [])] + Prefixed(ContentLines(cs), Indent()) + [ClosingTag(el)];
  }

  /** The `div` of `NestedIndent`. */
  function NestedDiv(): Tag
  {
    Double("div", [], [Node(Double("p", [], [], false)), Node(Single("hr", [])), Text("example text")], false)
  }

  /** The `div` alone: its children's lines, indented once. */
  lemma NestedDivLines()
    ensures ToA(NestedDiv()) ==
      ["<div>", Indent() + "<p>", Indent() + "</p>", Indent() + "<hr>", Indent() + "example text", "</div>"]
  {
    DivLines();
  }

  lemma DivLines()
    ensures ToA(NestedDiv()) == ["<div>"] + Prefixed(["<p>", "</p>", "<hr>", "example text"], Indent()) + ["</div>"]
  {
    DivContentLines();
    assert OpeningTag("div", []) == "<div>";
    assert ClosingTag("div") == "</div>";
  }

  lemma DivContentLines()
    ensures ContentLines(NestedDiv().content) == ["<p>", "</p>", "<hr>", "example text"]
  {
    var cs := NestedDiv().content;
    DivTailLines();
    EmptyDouble("p", [], false);
    assert OpeningTag("p", []) == "<p>";
    assert ClosingTag("p") == "</p>";
    assert ContentLines(cs) == ItemLines(cs[0]) + ContentLines(cs[1..]);
  }

  lemma DivTailLines()
    ensures ContentLines(NestedDiv().content[1..]) == ["<hr>", "example text"]
  {
    var cs := NestedDiv().content[1..];
    assert OpeningTag("hr", []) == "<hr>";
    assert cs[1..][1..] == [];
    assert ContentLines(cs[1..]) == ItemLines(cs[1]) + ContentLines([]);
    assert ContentLines(cs) == ItemLines(cs[0]) + ContentLines(cs[1..]);
  }

  /** Each line followed by `sep`. */
  function Terminated(xs: seq<string>, sep: string): string
  {
    if xs == [] then "" else xs[0] + sep + Terminated(xs[1..], sep)
  }

  /** Lines joined by a separator, plus one more separator, is every line
      followed by the separator. */
  lemma {:induction false} JoinTerminated(xs: seq<string>, sep: string)
    requires xs != []
    ensures Join(xs, sep) + sep == Terminated(xs, sep)
    decreases |xs|
  {
    if |xs| == 1 {
      assert xs[1..] == [];
    } else {
      JoinTerminated(xs[1..], sep);
    }
  }

  /** `to_s` of a tag that is not `oneline` is every line of `to_a` followed
      by a newline; of a `oneline` tag, the lines run together and end in one
      newline. */
  lemma ExpandedLines(t: Tag)
    ensures t.Single? || !t.oneline ==> ToS(t) == Terminated(ToA(t), "\n")
    ensures t.Double? && t.oneline ==> ToS(t) == Terminated(ToA(t), "") + "\n"
  {
    JoinTerminated(ToA(t), if t.Double? && t.oneline then "" else "\n");
    if t.Single? {
      assert ToA(t)[1..] == [];
    } else if t.oneline {
      assert Join(ToA(t), "") + "" == Join(ToA(t), "");
    }
  }

  /** A `oneline` tag puts its child lines in without indentation. */
  lemma OnelineUnindented(t: Tag)
    requires t.Double? && t.oneline
    ensures ToA(t) == [OpeningTag(t.element, t.attributes)] + ContentLines(t.content) + [ClosingTag(t.element)]
  {
    var cl := ContentLines(t.content);
    assert forall i :: 0 <= i < |cl| ==> "" + cl[i] == cl[i];
    assert Prefixed(cl, "") == cl;
  }

  /** No `oneline` anywhere in the tree. */
  predicate Expanded(t: Tag)
    decreases t, 1
  {
    match t
    case Single(_, _) => true
    case Double(_, _, cs, ol) => !ol && ExpandedItems(cs)
  }

  predicate ExpandedItem(c: Item)
    decreases c, 0
  {
    match c
    case Text(_) => true
    case Node(t) => Expanded(t)
  }

  predicate ExpandedItems(cs: seq<Item>)
    decreases cs
  {
    cs == [] || (ExpandedItem(cs[0]) && ExpandedItems(cs[1..]))
  }

  /** Reference layout: every output line of `t` (placed `d` levels down)
      paired with the nesting level it belongs to. A tag's own tags sit at its
      level, its text children one level further down. */
  function Levels(t: Tag, d: nat): seq<(nat, string)>
    decreases t, 1
  {
    match t
    case Single(el, attrs) => [(d, OpeningTag(el, attrs))]
    case Double(el, attrs, cs, _) =>
      [(d, OpeningTag(el, attrs))] + ItemsLevels(cs, d + 1) + [(d, ClosingTag(el))]
  }

  function ItemLevels(c: Item, d: nat): seq<(nat, string)>
    decreases c, 0
  {
    match c
    case Text(s) => [(d, s)]
    case Node(t) => Levels(t, d)
  }

  function ItemsLevels(cs: seq<Item>, d: nat): seq<(nat, string)>
    decreases cs
  {
    if cs == [] then [] else ItemLevels(cs[0], d) + ItemsLevels(cs[1..], d)
  }

  /** Each line indented by two spaces per level. */
  function Indented(ls: seq<(nat, string)>): (r: seq<string>)
    ensures |r| == |ls| && forall i :: 0 <= i < |ls| ==> r[i] == Blank(2 * ls[i].0) + ls[i].1
  {
    seq(|ls|, i requires 0 <= i < |ls| => Blank(2 * ls[i].0) + ls[i].1)
  }

  /** With no `oneline` anywhere, every line of `to_a` carries exactly two
      spaces per level of nesting. */
  lemma DepthIndent(t: Tag)
    requires Expanded(t)
    ensures ToA(t) == Indented(Levels(t, 0))
  {
    TagIndent(t, 0);
    var ls := ToA(t);
    assert Blank(0) == "";
    assert forall i :: 0 <= i < |ls| ==> "" + ls[i] == ls[i];
    assert Prefixed(ls, Blank(0)) == ls;
  }

  /** `to_a` of a tree placed `d` levels down, with the `2 * d` spaces its
      ancestors prepend, is its reference layout. */
  lemma {:induction false} TagIndent(t: Tag, d: nat)
    requires Expanded(t)
    ensures Prefixed(ToA(t), Blank(2 * d)) == Indented(Levels(t, d))
    decreases t, 1
  {
    match t
    case Single(el, attrs) =>
    case Double(el, attrs, cs, _) =>
      ItemsIndent(cs, d + 1);
      BetweenTags(OpeningTag(el, attrs), ContentLines(cs), ClosingTag(el), ItemsLevels(cs, d + 1), d);
  }

  /** The step of `TagIndent` for one `DoubleTag`: its child lines, indented
      once and then by `2 * d` spaces, between its two tags. */
  lemma BetweenTags(o: string, cl: seq<string>, c: string, ls: seq<(nat, string)>, d: nat)
    requires Prefixed(cl, Blank(2 * (d + 1))) == Indented(ls)
    ensures Prefixed([o] + Prefixed(cl, Indent()) + [c], Blank(2 * d)) == Indented([(d, o)] + ls + [(d, c)])
  {
    var b := Blank(2 * d);
    assert b + Indent() == Blank(2 * (d + 1));
    PrefixedTwice(cl, Indent(), b);
    var inner := Prefixed(cl, Indent());
    PrefixedAppend([o] + inner, [c], b);
    PrefixedAppend([o], inner, b);
    IndentedAppend([(d, o)] + ls, [(d, c)]);
    IndentedAppend([(d, o)], ls);
  }

  lemma {:induction false} ItemIndent(c: Item, d: nat)
    requires ExpandedItem(c)
    ensures Prefixed(ItemLines(c), Blank(2 * d)) == Indented(ItemLevels(c, d))
    decreases c, 0
  {
    match c
    case Text(s) =>
    case Node(t) => TagIndent(t, d);
  }

  lemma {:induction false} ItemsIndent(cs: seq<Item>, d: nat)
    requires ExpandedItems(cs)
    ensures Prefixed(ContentLines(cs), Blank(2 * d)) == Indented(ItemsLevels(cs, d))
    decreases cs
  {
    if cs != [] {
      ItemIndent(cs[0], d);
      ItemsIndent(cs[1..], d);
      PrefixedAppend(ItemLines(cs[0]), ContentLines(cs[1..]), Blank(2 * d));
      IndentedAppend(ItemLevels(cs[0], d), ItemsLevels(cs[1..], d));
    }
  }

  lemma PrefixedAppend(xs: seq<string>, ys: seq<string>, p: string)
    ensures Prefixed(xs + ys, p) == Prefixed(xs, p) + Prefixed(ys, p)
  {
  }

  lemma PrefixedTwice(xs: seq<string>, a: string, b: string)
    ensures Prefixed(Prefixed(xs, a), b) == Prefixed(xs, b + a)
  {
    forall i | 0 <= i < |xs| ensures b + (a + xs[i]) == (b + a) + xs[i] {
    }
  }

  lemma IndentedAppend(ls: seq<(nat, string)>, ms: seq<(nat, string)>)
    ensures Indented(ls + ms) == Indented(ls) + Indented(ms)
  {
  }
}
