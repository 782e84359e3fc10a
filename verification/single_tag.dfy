/**
 * `SingleTag`: a self-closing tag, with an element name and an attribute set
 * that the methods below replace; rendering is `Markup.ToA` and `Markup.ToS`
 * of the tree the object describes (`Snapshot`).
 */
module SingleTags {
  import opened Wrappers
  import opened HtmlAttributes
  import opened ContentList
  import opened Markup
  import opened DoubleTags

  class SingleTag {
    var element: string
    var attributes: HTMLAttributes

    ghost predicate Valid()
      reads this, attributes
    {
      attributes.Valid()
    }

    /** The tree this object currently describes. */
    function Snapshot(): Tag
      reads this, attributes
    {
      Single(element, attributes.content)
    }

    /** `SingleTag.new(element, attributes:)`. */
    constructor (element: string, attributes: Option<Input> := None)
      ensures Valid() && fresh(this.attributes)
      ensures this.element == element && this.attributes.content == Added([], attributes)
    {
      this.element := element;
      this.attributes := new HTMLAttributes(attributes);
    }

    /** `attributes = input`: a new attribute set built from the input. */
    method SetAttributes(input: Option<Input>)
      modifies this
      ensures Valid() && fresh(attributes) && attributes.content == Added([], input)
      ensures element == old(element)
    {
      attributes := new HTMLAttributes(input);
    }

    /** `reset_attributes`: a new, empty attribute set; the tag then renders as
        `<el>` and a newline. */
    method ResetAttributes()
      modifies this
      ensures Valid() && fresh(attributes) && attributes.content == []
      ensures element == old(element)
      ensures ToS(Snapshot()) == "<" + element + ">\n"
    {
      attributes := new HTMLAttributes(None);
    }

    /** `add_parent(parent)`: this tag becomes the last item of `parent`, which
        is returned. */
    method AddParent(parent: DoubleTag) returns (r: DoubleTag)
      requires parent.Valid()
      modifies parent
      ensures parent.Valid() && r == parent
      ensures parent.content == old(parent.content) + [Node(old(Snapshot()))]
      ensures parent.element == old(parent.element) && parent.attributes == old(parent.attributes)
      ensures parent.oneline == old(parent.oneline)
    {
      var me := Snapshot();
      r := parent.AddContent(Piece(Node(me)));
    }
  }
}
