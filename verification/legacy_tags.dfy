/**
 * The earlier `Tag` and `TagPair` classes. A `Tag` keeps its attributes in a
 * plain Hash that its methods replace or merge into; a `TagPair` adds a content
 * list. `TagPair` inherits every `Tag` method in the source, so its class
 * repeats them here. Rendering is `LegacyMarkup.ToS` of `Snapshot` as the code
 * is written, and `LegacyMarkup.Rendered` of `Snapshot` as it is meant.
 */
module LegacyTags {
  import opened Wrappers
  import opened OrderedHash
  import opened HtmlAttributes
  import opened ContentList
  import L = LegacyMarkup
  import RubyStrings

  /** The attribute Hash `reset_attributes(input)` leaves: empty for `nil`,
      otherwise the input merged into an empty Hash. */
  function AttributesFrom(input: Option<Hash<Value>>): (r: AttrMap)
    ensures DistinctKeys(r)
  {
    match input
    case None => []
    case Some(h) => Merge([], Format(h))
  }

  class Tag {
    var element: string
    var attributes: AttrMap
    var newline: bool

    ghost predicate Valid()
      reads this
    {
      DistinctKeys(attributes)
    }

    /** The tree this object currently describes. */
    function Snapshot(): L.Element
      reads this
    {
      L.Tag(element, attributes, newline)
    }

    /** `Tag.new(element, attributes:, newline:)`; by default no attributes
        and `newline` true. */
    constructor (element: string, attributes: Option<Hash<Value>> := None, newline: bool := true)
      ensures Valid()
      ensures this.element == element && this.newline == newline
      ensures this.attributes == AttributesFrom(attributes)
    {
      this.element := element;
      this.attributes := [];
      this.newline := newline;
      new;
      ResetAttributes(attributes);
    }

    /** `reset_attributes(input)`: empty the Hash, then add the input unless
        it is `nil`, which is also the default. */
    method ResetAttributes(input: Option<Hash<Value>> := None)
      modifies this
      ensures Valid() && attributes == AttributesFrom(input)
      ensures element == old(element) && newline == old(newline)
    {
      attributes := [];
      if input.Some? {
        AddAttributes(input.value);
      }
    }

    /** `add_attributes(h)` (alias `add_attribute`): string values split on
        whitespace, values for a name already there appended. */
    method AddAttributes(h: Hash<Value>)
      requires Valid()
      modifies this
      ensures Valid() && attributes == Merge(old(attributes), Format(h))
      ensures element == old(element) && newline == old(newline)
    {
      var formatted := FormatLoop(h);
      attributes := MergeInto(attributes, formatted);
    }

    /** `render_attributes`. */
    method RenderAttributes() returns (s: string)
      ensures s == Render(attributes)
      ensures s == "" <==> attributes == []
    {
      s := RenderLoop(attributes);
    }

    /** `add_parent(parent)`: this tag becomes the last item of `parent`, which
        is returned. */
    method AddParent(parent: TagPair) returns (r: TagPair)
      modifies parent
      ensures r == parent
      ensures parent.content == old(parent.content) + [L.Node(old(Snapshot()))]
      ensures parent.element == old(parent.element) && parent.attributes == old(parent.attributes)
      ensures parent.newline == old(parent.newline)
    {
      var me := Snapshot();
      r := parent.AddContent(Piece(L.Node(me)));
    }
  }

  class TagPair {
    var element: string
    var attributes: AttrMap
    var newline: bool
    var content: seq<L.Item>

    ghost predicate Valid()
      reads this
    {
      DistinctKeys(attributes)
    }

    /** The tree this object currently describes. */
    function Snapshot(): L.Element
      reads this
    {
      L.TagPair(element, attributes, newline, content)
    }

    /** `TagPair.new(element, attributes:, newline:, content:)`; by default no
        attributes, `newline` true and the content `[]` (`Group([])`). A `nil`
        content becomes one empty item. */
    constructor (element: string, attributes: Option<Hash<Value>> := None, newline: bool := true, content: Addition<L.Item> := Group([]))
      ensures Valid()
      ensures this.element == element && this.newline == newline
      ensures this.attributes == AttributesFrom(attributes)
      ensures this.content == Flatten(content, L.Text(""))
    {
      this.content := [];
      this.element := element;
      this.attributes := [];
      this.newline := newline;
      new;
      ResetContent(content);
      ResetAttributes(attributes);
    }

    /** `reset_content(addition)`: the content becomes the flattened addition,
        `nil` included. */
    method ResetContent(addition: Addition<L.Item>)
      modifies this
      ensures content == Flatten(addition, L.Text(""))
      ensures element == old(element) && attributes == old(attributes) && newline == old(newline)
    {
      content := [];
      var _ := AddContent(addition);
    }

    /** `add_content(addition)`: the flattened addition goes at the end.
        Returns the pair itself. */
    method AddContent(addition: Addition<L.Item>) returns (r: TagPair)
      modifies this
      ensures r == this
      ensures content == old(content) + Flatten(addition, L.Text(""))
      ensures element == old(element) && attributes == old(attributes) && newline == old(newline)
    {
      content := content + Flatten(addition, L.Text(""));
      r := this;
    }

    /** `reset_attributes(input)`, inherited from `Tag`. */
    method ResetAttributes(input: Option<Hash<Value>> := None)
      modifies this
      ensures Valid() && attributes == AttributesFrom(input)
      ensures element == old(element) && newline == old(newline) && content == old(content)
    {
      attributes := [];
      if input.Some? {
        AddAttributes(input.value);
      }
    }

    /** `add_attributes(h)`, inherited from `Tag`. */
    method AddAttributes(h: Hash<Value>)
      requires Valid()
      modifies this
      ensures Valid() && attributes == Merge(old(attributes), Format(h))
      ensures element == old(element) && newline == old(newline) && content == old(content)
    {
      var formatted := FormatLoop(h);
      attributes := MergeInto(attributes, formatted);
    }

    /** `render_attributes`, inherited from `Tag`. */
    method RenderAttributes() returns (s: string)
      ensures s == Render(attributes)
      ensures s == "" <==> attributes == []
    {
      s := RenderLoop(attributes);
    }

    /** `add_parent(parent)`, inherited from `Tag`. */
    method AddParent(parent: TagPair) returns (r: TagPair)
      modifies parent
      ensures r == parent
      ensures parent.content == old(parent.content) + [L.Node(old(Snapshot()))]
      ensures parent.element == old(parent.element) && parent.attributes == old(parent.attributes)
      ensures parent.newline == old(parent.newline)
    {
      var me := Snapshot();
      r := parent.AddContent(Piece(L.Node(me)));
    }
  }

  /** `Tag.new(element)`: no attributes, and a line break after the tag. */
  method NewDefaultTag(element: string) returns (t: Tag)
    ensures t.element == element && t.newline && t.attributes == []
    ensures L.ToS(t.Snapshot()) == Some("<" + element + ">\n")
  {
    t := new Tag(element);
    var o := L.M.OpeningTag(element, []);
    assert o == "<" + element + ">";
    assert o + "" + "\n" == "<" + element + ">\n";
  }

  /** `TagPair.new(element)`: no attributes, no content, and a line break
      after the closing tag. */
  method NewDefaultPair(element: string) returns (t: TagPair)
    ensures t.element == element && t.newline && t.attributes == [] && t.content == []
    ensures L.ToS(t.Snapshot()) == Some("<" + element + ">" + "</" + element + ">\n")
  {
    t := new TagPair(element);
    assert L.Texts([]) == Some([]);
    assert !L.Multiline([]) by {
      assert RubyStrings.Join([], "") == "";
    }
    var o := L.M.OpeningTag(element, []);
    assert o == "<" + element + ">";
    assert L.Stringify([]) == "";
    assert o + ("" + L.M.ClosingTag(element)) + "\n" == "<" + element + ">" + "</" + element + ">\n";
  }
}
