/**
 * The earlier element builder (`Tag` and `TagPair`) as values, and its
 * rendering. `to_s` returns a string ending in a newline when the tag's
 * `newline` holds and `nil` otherwise; a `TagPair` lays its content out on
 * separate lines ("multiline") when some item's text contains a newline or
 * the items' texts together are longer than 60 characters, and such a pair
 * always ends in a newline.
 *
 * `None` stands for a result that is not a well-formed string: `nil` for the
 * tag itself, and for a pair any child whose `to_s` is `nil`.
 */
module LegacyMarkup {
  import opened Wrappers
  import opened RubyStrings
  import opened HtmlAttributes
  import M = Markup

  /** A `Tag` (no content) or a `TagPair`; `newline` is the flag given at
      construction. */
  datatype Element =
    | Tag(element: string, attributes: AttrMap, newline: bool)
    | TagPair(element: string, attributes: AttrMap, newline: bool, content: seq<Item>)

  /** A content item: text or a tag. */
  datatype Item = Text(text: string) | Node(tag: Element)

  /** The longest content text a `TagPair` keeps on one line. */
  const Compact: nat := 60

  /** `Tag#to_s` with its block hook: the opening tag, the block's output, and
      a newline; `nil` when `newline` does not hold. */
  function Wrap(element: string, attributes: AttrMap, inner: string, newline: bool): (r: Option<string>)
    ensures r.Some? <==> newline
    ensures r.Some? ==> |r.value| > 0 && r.value[|r.value| - 1] == '\n'
  {
    if newline then Some(M.OpeningTag(element, attributes) + inner + "\n") else None
  }

  /** `multiline`: some text contains a newline, or the texts together are
      longer than 60 characters. */
  predicate Multiline(texts: seq<string>) {
    (exists i :: 0 <= i < |texts| && '\n' in texts[i]) || |Join(texts, "")| > Compact
  }

  /** `stringify_content`. Only the first line of each text gets the indent. */
  function Stringify(texts: seq<string>): (r: string)
    ensures Multiline(texts) ==> |r| >= 4 && r[..3] == "\n  " && r[|r| - 1] == '\n'
    ensures !Multiline(texts) ==> |r| <= Compact && '\n' !in r
  {
    JoinedWithout(texts, '\n');
    if Multiline(texts) then "\n  " + Join(texts, "\n  ") + "\n" else Join(texts, "")
  }

  /** A character none of the texts holds is not in their concatenation. */
  lemma {:induction false} JoinedWithout(texts: seq<string>, c: char)
    ensures (forall i :: 0 <= i < |texts| ==> c !in texts[i]) ==> c !in Join(texts, "")
    decreases |texts|
  {
    if |texts| > 1 {
      JoinedWithout(texts[1..], c);
      assert Join(texts, "") == texts[0] + "" + Join(texts[1..], "");
    }
  }

  /** `TagPair#newline`: the flag, or forced by multiline content. */
  predicate PairNewline(flag: bool, texts: seq<string>) {
    flag || Multiline(texts)
  }

  /** `to_s`. */
  function ToS(t: Element): (r: Option<string>)
    ensures r.Some? ==> |r.value| > 0 && r.value[|r.value| - 1] == '\n'
    ensures t.Tag? ==> (r.Some? <==> t.newline)
    ensures t.TagPair? ==>
      (r.Some? <==> Texts(t.content).Some? && PairNewline(t.newline, Texts(t.content).value))
    decreases t, 1
  {
    match t
    case Tag(el, attrs, nl) => Wrap(el, attrs, "", nl)
    case TagPair(el, attrs, nl, cs) =>
      match Texts(cs)
      case None => None
      case Some(ts) => Wrap(el, attrs, Stringify(ts) + M.ClosingTag(el), PairNewline(nl, ts))
  }

  /** `c.to_s` of one content item. */
  function ItemText(c: Item): (r: Option<string>)
    ensures c.Text? ==> r.Some?
    ensures c.Node? && r.Some? ==> |r.value| > 0 && r.value[|r.value| - 1] == '\n'
    decreases c, 0
  {
    match c
    case Text(s) => Some(s)
    case Node(t) => ToS(t)
  }

  /** The texts of all items, or `None` if some item has none. */
  function Texts(cs: seq<Item>): (r: Option<seq<string>>)
    ensures r.Some? ==> |r.value| == |cs| && forall i :: 0 <= i < |cs| ==> ItemText(cs[i]) == Some(r.value[i])
    ensures r.None? ==> exists i :: 0 <= i < |cs| && ItemText(cs[i]).None?
    decreases cs
  {
    if cs == [] then Some([])
    else
      match ItemText(cs[0])
      case None => None
      case Some(x) =>
        match Texts(cs[1..])
        case None => None
        case Some(xs) => Some([x] + xs)
  }

  /** A tag child that renders at all ends in a newline, so its parent is
      multiline and therefore ends in a newline too. */
  lemma TagChildForcesMultiline(t: Element, i: nat)
    requires t.TagPair? && i < |t.content| && t.content[i].Node?
    requires Texts(t.content).Some?
    ensures Multiline(Texts(t.content).value)
    ensures ToS(t).Some?
  {
    var ts := Texts(t.content).value;
    var s := ts[i];
    assert ItemText(t.content[i]) == Some(s);
    assert s[|s| - 1] == '\n';
    assert '\n' in ts[i];
  }

  /** Content without newlines stays on the tag's line up to 60 characters and
      is laid out on its own lines from 61 on. */
  lemma CompactLimit(text: string)
    requires forall i :: 0 <= i < |text| ==> text[i] != '\n'
    ensures Multiline([text]) <==> |text| > 60
    ensures Stringify([text]) == if |text| > 60 then "\n  " + text + "\n" else text
  {
    assert Join([text], "") == text;
    assert Join([text], "\n  ") == text;
  }

  /** With the flag off, a `TagPair` holding 60 characters of text renders as
      `nil`; one holding 61 renders, on three lines. */
  lemma CompactBoundary()
    ensures ToS(TagPair("p", [], false, [Text(M.Blank(60))])).None?
    ensures ToS(TagPair("p", [], false, [Text(M.Blank(61))])) ==
      Some("<p>\n  " + M.Blank(61) + "\n</p>\n")
  {
    CompactLimit(M.Blank(60));
    CompactLimit(M.Blank(61));
    OneText(M.Blank(60));
    OneText(M.Blank(61));
    assert M.OpeningTag("p", []) == "<p>";
    assert M.ClosingTag("p") == "</p>";
    var b := M.Blank(61);
    assert Stringify([b]) == "\n  " + b + "\n";
    assert "<p>" + ("\n  " + b + "\n" + "</p>") + "\n" == "<p>\n  " + b + "\n</p>\n";
  }

  /** Multiline content indents only the first line of each text. */
  lemma FirstLineIndented()
    ensures ToS(TagPair("div", [], true, [Text("a\nb")])) == Some("<div>\n  a\nb\n</div>\n")
  {
    OneText("a\nb");
    FirstLineStringify();
    DivWrap();
  }

  lemma DivWrap()
    ensures Wrap("div", [], "\n  a\nb\n" + M.ClosingTag("div"), true) == Some("<div>\n  a\nb\n</div>\n")
  {
    assert M.OpeningTag("div", []) == "<div>";
    assert M.ClosingTag("div") == "</div>";
    assert "<div>" + ("\n  a\nb\n" + "</div>") + "\n" == "<div>\n  a\nb\n</div>\n";
  }

  lemma FirstLineStringify()
    ensures Multiline(["a\nb"]) && Stringify(["a\nb"]) == "\n  a\nb\n"
  {
    var ts := ["a\nb"];
    assert '\n' in ts[0];
    assert Join(ts, "\n  ") == "a\nb";
  }

  lemma OneText(s: string)
    ensures Texts([Text(s)]) == Some([s])
  {
    var cs := [Text(s)];
    assert cs[1..] == [];
    assert ItemText(cs[0]) == Some(s);
    assert [s] + [] == [s];
  }

  /** The string `Tag#to_s` evidently means to build: the opening tag, the
      block's output, and a newline only when `newline` holds. */
  function Finish(element: string, attributes: AttrMap, inner: string, newline: bool): string
  {
    M.OpeningTag(element, attributes) + inner + (if newline then "\n" else "")
  }

  /** Corrected `to_s`: every element renders, and ends in a newline exactly
      when its (effective) `newline` holds. */
  function Rendered(t: Element): (r: string)
    ensures |r| > 0
    ensures t.Tag? ==> (r[|r| - 1] == '\n' <==> t.newline)
    ensures t.TagPair? ==> (r[|r| - 1] == '\n' <==> PairNewline(t.newline, RenderedTexts(t.content)))
    decreases t, 1
  {
    match t
    case Tag(el, attrs, nl) => Finish(el, attrs, "", nl)
    case TagPair(el, attrs, nl, cs) =>
      var ts := RenderedTexts(cs);
      Finish(el, attrs, Stringify(ts) + M.ClosingTag(el), PairNewline(nl, ts))
  }

  function RenderedItem(c: Item): string
    decreases c, 0
  {
    match c
    case Text(s) => s
    case Node(t) => Rendered(t)
  }

  function RenderedTexts(cs: seq<Item>): (r: seq<string>)
    ensures |r| == |cs| && forall i :: 0 <= i < |cs| ==> r[i] == RenderedItem(cs[i])
    decreases cs
  {
    if cs == [] then [] else [RenderedItem(cs[0])] + RenderedTexts(cs[1..])
  }

  /** Wherever the code as written yields a string, the corrected rendering
      yields the same one. */
  lemma {:induction false} RenderedAgrees(t: Element)
    ensures ToS(t).Some? ==> ToS(t) == Some(Rendered(t))
    decreases t, 1
  {
    match t
    case Tag(_, _, _) =>
    case TagPair(el, attrs, nl, cs) =>
      TextsAgree(cs);
  }

  lemma {:induction false} ItemAgrees(c: Item)
    ensures ItemText(c).Some? ==> ItemText(c) == Some(RenderedItem(c))
    decreases c, 0
  {
    match c
    case Text(_) =>
    case Node(t) => RenderedAgrees(t);
  }

  lemma {:induction false} TextsAgree(cs: seq<Item>)
    ensures Texts(cs).Some? ==> Texts(cs) == Some(RenderedTexts(cs))
    decreases cs
  {
    if cs != [] {
      ItemAgrees(cs[0]);
      TextsAgree(cs[1..]);
    }
  }

  /** `Tag.new('hr', newline: false).to_s` is `nil` as written; the corrected
      rendering is `<hr>`. */
  lemma NilWithoutNewline()
    ensures ToS(Tag("hr", [], false)) == None
    ensures Rendered(Tag("hr", [], false)) == "<hr>"
  {
    assert M.OpeningTag("hr", []) == "<hr>";
  }
}
