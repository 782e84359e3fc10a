/**
 * `DoubleTag`: a tag with content. Its element, attribute set, content list and
 * `oneline` flag are fields the methods below update; rendering is `Markup.ToA`
 * and `Markup.ToS` of the tree the object describes (`Snapshot`).
 */
module DoubleTags {
  import opened Wrappers
  import opened HtmlAttributes
  import opened ContentList
  import opened Markup

  /** The content `reset_content(addition)` leaves: nothing for `nil`, otherwise
      the flattened addition. */
  function ResetTo(addition: Addition<Item>): seq<Item>
  {
    if addition.Nil? then [] else Flatten(addition, Text(""))
  }

  class DoubleTag {
    var element: string
    var attributes: HTMLAttributes
    var content: seq<Item>
    var oneline: bool

    ghost predicate Valid()
      reads this, attributes
    {
      attributes.Valid()
    }

    /** The tree this object currently describes. */
    function Snapshot(): Tag
      reads this, attributes
    {
      Double(element, attributes.content, content, oneline)
    }

    /** `DoubleTag.new(element, attributes:, content:, oneline:)`, with the
        source's defaults: no attributes, the content `[]` (`Group([])`), and
        `oneline` false. */
    constructor (element: string, attributes: Option<Input> := None, content: Addition<Item> := Group([]), oneline: bool := false)
      ensures Valid() && fresh(this.attributes)
      ensures this.element == element && this.oneline == oneline
      ensures this.attributes.content == Added([], attributes)
      ensures this.content == ResetTo(content)
    {
      this.oneline := oneline;
      this.content := [];
      this.element := element;
      this.attributes := new HTMLAttributes(attributes);
      new;
      ResetContent(content);
    }

    /** `add_content(addition)`: the flattened addition goes at the end. Returns
        the tag itself. */
    method AddContent(addition: Addition<Item>) returns (r: DoubleTag)
      requires Valid()
      modifies this
      ensures Valid() && r == this
      ensures content == old(content) + Flatten(addition, Text(""))
      ensures element == old(element) && attributes == old(attributes) && oneline == old(oneline)
    {
      content := content + Flatten(addition, Text(""));
      r := this;
    }

    /** `reset_content(addition)`: empty the content, then add the addition
        unless it is `nil`, which is also the default. */
    method ResetContent(addition: Addition<Item> := Nil)
      requires Valid()
      modifies this
      ensures Valid() && content == ResetTo(addition)
      ensures element == old(element) && attributes == old(attributes) && oneline == old(oneline)
    {
      content := [];
      if !addition.Nil? {
        var _ := AddContent(addition);
      }
    }

    /** `attributes = input`: a new attribute set built from the input. */
    method SetAttributes(input: Option<Input>)
      modifies this
      ensures Valid() && fresh(attributes) && attributes.content == Added([], input)
      ensures element == old(element) && content == old(content) && oneline == old(oneline)
    {
      attributes := new HTMLAttributes(input);
    }

    /** `reset_attributes`: a new, empty attribute set. */
    method ResetAttributes()
      modifies this
      ensures Valid() && fresh(attributes) && attributes.content == []
      ensures element == old(element) && content == old(content) && oneline == old(oneline)
    {
      attributes := new HTMLAttributes(None);
    }

    /** `add_parent(parent)`: this tag becomes the last item of `parent`, which
        is returned. */
    method AddParent(parent: DoubleTag) returns (r: DoubleTag)
      requires parent.Valid()
      modifies parent
      ensures parent.Valid() && r == parent
      ensures parent.content == old(parent.content) + [Node(old(Snapshot()))]
      ensures parent.element == old(parent.element) && parent.attributes == old(parent.attributes)
      ensures parent.oneline == old(parent.oneline)
    {
      var me := Snapshot();
      r := parent.AddContent(Piece(Node(me)));
    }
  }

  /** `DoubleTag.new(element)` with every keyword left out: no attributes, no
      content, and laid out on several lines. */
  method NewDefault(element: string) returns (t: DoubleTag)
    ensures t.element == element && !t.oneline
    ensures t.attributes.content == [] && t.content == []
    ensures ToS(t.Snapshot()) == OpeningTag(element, []) + "\n" + ClosingTag(element) + "\n"
  {
    t := new DoubleTag(element);
    EmptyDouble(element, [], false);
  }
}
