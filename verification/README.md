# objective_elements, modelled in Dafny

objective_elements builds HTML from Ruby objects. This project models two
generations of its core.

**The converged classes**

- `HTMLAttributes` is an insertion-ordered Hash from attribute names to lists
  of value words. It offers:
  - `<<`, which adds attributes from a `name="value"` string or from a Hash;
  - `delete`, `replace` and `empty?`;
  - reading one name back, and assigning one name;
  - `to_s`, which renders `name="w1 w2"` pairs.
- `SingleTag` is a self-closing tag: an element name and an `HTMLAttributes`.
- `DoubleTag` is a tag with a content list and a `oneline` flag.
  - `to_a` gives one string per output line. Each child line is indented by
    two spaces, unless the tag is `oneline`.
  - `to_s` joins those lines.

**The earlier classes**

- `Tag` keeps its attributes in a plain Hash and renders it with a `newline`
  flag.
- `TagPair` adds content. Its layout becomes multiline when a child text holds
  a newline or when the texts together exceed 60 characters.

**Where each part lives**

- `RubyStrings` gives the Ruby string operations the code relies on, as
  functions:
  - `split ' '`, which splits on runs of ASCII whitespace and drops empty
    words;
  - `strip`, which also removes NUL;
  - `Array#join`.
- `OrderedHash` gives the Ruby Hash as an insertion-ordered sequence of pairs.
  - `[]=` keeps an existing key's position.
  - `delete` removes one key.
- `AttributeScan` is the `name="value"` scanner of `hashify_input`.
  - It is a deterministic matcher for the regular expression
    ` ?([^="]+)="([^"]+)"`.
  - It also does the accumulation of repeated names.
- `HtmlAttributes` holds:
  - the specification functions of the attribute set (`Format`, `Merge`,
    `Removed`, `Replaced`, `Render`, ...);
  - the loop methods that compute them;
  - the `HTMLAttributes` class, whose methods update its `content` field.
- `AttributeRoundTrip` proves that parsing a rendered attribute set gives it
  back.
- `ContentList` models `flatten!` on content additions: a single item, `nil`,
  or a (nested) array.
- `Markup` holds the converged tag tree as a value and its rendering
  (`opening_tag`, `closing_tag`, `to_a`, `to_s`).
  - `DoubleTags.DoubleTag` and `SingleTags.SingleTag` are the classes.
  - Each class renders the tree its fields describe (`Snapshot`).
- `LegacyMarkup` and `LegacyTags` are the same two layers for `Tag` and
  `TagPair`.

**Where the code and its specification differ, the model follows the code**

- No method raises a validation or format error. Malformed attribute text is
  skipped by the scanner.
- A Hash value of `""` or `"  "` splits to an empty list. The name is then
  kept with no words, and renders as `name=""`.
- `spec/html_attributes_spec.rb:86-90` expects `alt=""` to be kept. The
  scanner needs at least one value character, so the code adds nothing
  (`AttributeScan.EmptyValueSkipped`).
- `spec/double_tag_spec.rb` loads the earlier library and names `TagPair`,
  but what it expects (`oneline`, indented `to_a`) is `DoubleTag`'s
  behaviour. The examples below are stated for `DoubleTag`.
- A `oneline` tag nested inside an expanded one still spans several lines.
  Its parent indents every line the child gives.

## Model

| member | source | states |
|---|---|---|
| RubyStrings.Split | lib/objective_elements/html_attributes.rb:92 | every word `split ' '` returns is non-empty and free of whitespace |
| RubyStrings.SplitOneWord | lib/objective_elements/html_attributes.rb:92 | a string that is one word splits to exactly that word |
| RubyStrings.Strip | lib/objective_elements/html_attributes.rb:19 | the result neither starts nor ends with whitespace or NUL |
| RubyStrings.LStrip | lib/objective_elements/html_attributes.rb:19 | removes exactly the leading whitespace/NUL run: a suffix of the input, everything cut is strippable, and the result starts with a non-strippable character |
| RubyStrings.RStrip | lib/objective_elements/html_attributes.rb:19 | the mirror image for the trailing run |
| RubyStrings.StripPadded | lib/objective_elements/html_attributes.rb:16-19 | stripping a trailing pad of whitespace from a string with non-blank ends gives the string back |
| RubyStrings.SplitJoin | lib/objective_elements/html_attributes.rb:16 | splitting space-joined words gives the words back |
| RubyStrings.Join | lib/objective_elements/html_attributes.rb:16 | `join(sep)`: the elements with `sep` between neighbours; its laws are `JoinSnoc`, `JoinEnds` and `SplitJoin` |
| RubyStrings.SplitOfJoin | lib/objective_elements/html_attributes.rb:92 | splitting a space-joined list of strings is splitting each string and concatenating the words |
| RubyStrings.SplitAtSpace | lib/objective_elements/html_attributes.rb:92 | a single space is a word boundary: `split(a + " " + b) == split(a) + split(b)` |
| RubyStrings.SplitWord | lib/objective_elements/html_attributes.rb:92 | a word followed by whitespace or nothing is the first result of `split` |
| RubyStrings.WordEnd | lib/objective_elements/html_attributes.rb:92 | the first word ends at the first whitespace character or at the end |
| RubyStrings.SplitAllWords | lib/objective_elements/html_attributes.rb:92 | splitting a list of words yields the same list |
| RubyStrings.JoinSnoc | lib/objective_elements/html_attributes.rb:16 | joining a list with one more element appends the separator and that element |
| RubyStrings.JoinEnds | lib/objective_elements/double_tag.rb:47 | a join starts with the first element and ends with the last |
| RubyStrings.StripToEmpty | lib/objective_elements/html_attributes.rb:19 | a string that strips to empty consists of whitespace and NUL only |
| OrderedHash.Keys | lib/objective_elements/html_attributes.rb:54 | `keys` lists the keys in insertion order |
| OrderedHash.IndexOf | lib/objective_elements/html_attributes.rb:10 | the position of the first pair with the key, or -1 exactly when the key is absent |
| OrderedHash.Get | lib/objective_elements/html_attributes.rb:9-11 | `hash[key]` is present exactly when the key is |
| OrderedHash.Put | lib/objective_elements/html_attributes.rb:93 | `[]=` overwrites an existing key in place, else appends the pair at the end |
| OrderedHash.Delete | lib/objective_elements/html_attributes.rb:42 | `delete k` leaves the Hash without `k`, other pairs in order |
| OrderedHash.PutLookup | lib/objective_elements/html_attributes.rb:93 | after `[]=` the key reads the new value, every other key its old one, and keys stay distinct |
| OrderedHash.PutKeys | lib/objective_elements/html_attributes.rb:93 | after `[]=` the keys are the old keys plus the new one |
| OrderedHash.PutOrder | lib/objective_elements/html_attributes.rb:93 | `[]=` keeps the key order: an existing key stays where it was, a new key goes last |
| OrderedHash.GetConcat | lib/objective_elements/html_attributes.rb:54-56 | a lookup in two Hashes laid end to end finds the first one's entry if it has one, the second one's otherwise |
| OrderedHash.PutFresh | lib/objective_elements/html_attributes.rb:114 | storing a new key appends it at the end |
| OrderedHash.WithoutNothing | lib/objective_elements/html_attributes.rb:42 | deleting names not present changes nothing |
| OrderedHash.WithoutOne | lib/objective_elements/html_attributes.rb:42 | deleting a present key removes exactly its pair |
| OrderedHash.WithoutTwice | lib/objective_elements/html_attributes.rb:40-42 | deleting one set of names then another is deleting their union |
| OrderedHash.WithoutKeepsDistinct | lib/objective_elements/html_attributes.rb:42 | deletion keeps keys distinct; a key remains exactly when it was present and not deleted |
| OrderedHash.GetWithout | lib/objective_elements/html_attributes.rb:42 | deleting other names leaves a key's value unchanged |
| OrderedHash.WithoutSnoc | lib/objective_elements/html_attributes.rb:42 | deletion distributes over an appended pair |
| OrderedHash.HasKeyConcat | lib/objective_elements/html_attributes.rb:96 | the keys of two Hashes concatenated are the union of their keys |
| OrderedHash.HasKeySnoc | lib/objective_elements/html_attributes.rb:93 | appending a pair adds exactly its key |
| OrderedHash.IndexOfSameKeys | lib/objective_elements/html_attributes.rb:91-94 | two Hashes with the same keys in the same order find a key at the same position |
| AttributeScan.NameEnd | lib/objective_elements/html_attributes.rb:106 | `[^="]+` runs to the first `=` or `"` |
| AttributeScan.ValueEnd | lib/objective_elements/html_attributes.rb:106 | `[^"]+` runs to the first `"` |
| AttributeScan.MatchAt | lib/objective_elements/html_attributes.rb:106 | a match at the start has a non-empty name without `=`/`"`, a non-empty value without `"`, and the text consumed is ` ?name="value"` |
| AttributeScan.TokenAt | lib/objective_elements/html_attributes.rb:106 | the text a match consumes is the optional space followed by `name="value"` for the captured name and value |
| AttributeScan.Scan | lib/objective_elements/html_attributes.rb:106 | every pair `scan` returns has a valid name and value capture |
| AttributeScan.Gather | lib/objective_elements/html_attributes.rb:109-115 | one step of the `each`: the name then reads its previous string plus a space and the value, or the value alone if it was new; every other name reads as before; keys stay distinct |
| AttributeScan.GatherOrder | lib/objective_elements/html_attributes.rb:111-115 | one step keeps the names' order: a name seen before stays where it was, a new name goes last |
| AttributeScan.Collect | lib/objective_elements/html_attributes.rb:105-117 | the fold of those steps over the matches has distinct keys and no more entries than matches |
| AttributeScan.CollectOrder | lib/objective_elements/html_attributes.rb:105-117 | the fold holds the matched names in the order they were first matched |
| AttributeScan.Hashify | lib/objective_elements/html_attributes.rb:102-118 | `hashify_input` has distinct keys, and each name reads all its matched values joined by single spaces, or nothing if it never matched |
| AttributeScan.HashifyOrder | lib/objective_elements/html_attributes.rb:102-118 | `hashify_input` holds the names in the order of their first match |
| AttributeScan.CollectJoinsRepeats | lib/objective_elements/html_attributes.rb:105-117 | `hashify_input` has distinct keys, and each name maps to all its values in order, joined by single spaces |
| AttributeScan.CollectDistinct | lib/objective_elements/html_attributes.rb:105-117 | with no repeated names, the Hash is the scanned pairs themselves |
| AttributeScan.MatchToken | lib/objective_elements/html_attributes.rb:106 | a rendered `name="value"`, with or without a leading space, matches with exactly that name and value |
| AttributeScan.TokenLayout | lib/objective_elements/html_attributes.rb:106 | the layout of a rendered token: where the `=`, the quotes and the value sit |
| AttributeScan.NameEndIs | lib/objective_elements/html_attributes.rb:106 | a name run followed by `=` ends at that `=` |
| AttributeScan.ValueEndIs | lib/objective_elements/html_attributes.rb:106 | a value run followed by `"` ends at that quote |
| AttributeScan.ScanSpaced | lib/objective_elements/html_attributes.rb:106 | scanning space-separated rendered tokens gives the pairs back |
| AttributeScan.ScanTokens | lib/objective_elements/html_attributes.rb:106 | the same when the first token has no leading space |
| AttributeScan.ScanLead | lib/objective_elements/html_attributes.rb:106 | a rendered token at the start, with or without one space before it, is the first pair `scan` finds, and scanning resumes right after it |
| AttributeScan.ScanFirst | lib/objective_elements/html_attributes.rb:106 | the same for a token with no space before it |
| AttributeScan.EmptyValueSkipped | lib/objective_elements/html_attributes.rb:106 | `alt=""` adds nothing: the value pattern needs a character |
| HtmlAttributes.Format | lib/objective_elements/html_attributes.rb:89-95 | `formatted_new` has distinct keys, exactly the input's keys (which value each key ends up with: `FormatRekey`, `FormatLookup`) |
| HtmlAttributes.Normalize | lib/objective_elements/html_attributes.rb:92 | a String value becomes non-empty, whitespace-free words, and a String that is already one word stays that one word |
| HtmlAttributes.NormalizedPut | lib/objective_elements/html_attributes.rb:91-94 | splitting string values commutes with storing a pair under its key |
| HtmlAttributes.FormatRekey | lib/objective_elements/html_attributes.rb:90-95 | `formatted_new` is the input with keys collapsed as `to_sym` collapses them (first position, last value) and string values split |
| HtmlAttributes.FormatLookup | lib/objective_elements/html_attributes.rb:90-95 | in `formatted_new` a key reads the words of the last value the input gave it under any spelling that `to_sym` collapses |
| HtmlAttributes.FormatDistinct | lib/objective_elements/html_attributes.rb:90-95 | when input keys are distinct, formatting only splits string values, keeping keys and order |
| HtmlAttributes.FormatLoop | lib/objective_elements/html_attributes.rb:90-95 | the `each_pair` loop computes `Format`, with distinct keys, the input's keys |
| HtmlAttributes.Rekey | lib/objective_elements/html_attributes.rb:51 | `transform_keys` yields distinct keys, exactly the input's keys |
| HtmlAttributes.RekeyOrder | lib/objective_elements/html_attributes.rb:51 | keys that collapse together keep the position of their first occurrence and hold the value of their last |
| HtmlAttributes.RekeyDistinct | lib/objective_elements/html_attributes.rb:51 | a Hash whose keys are already distinct comes through `transform_keys` unchanged |
| HtmlAttributes.MergeOne | lib/objective_elements/html_attributes.rb:96-98 | `merge!` of one pair: an existing name gets the new words appended in place, a new name goes at the end; keys stay distinct |
| HtmlAttributes.Merge | lib/objective_elements/html_attributes.rb:96-98 | `merge!` with the concatenating block keeps keys distinct |
| HtmlAttributes.MergeLookup | lib/objective_elements/html_attributes.rb:96-98 | after `merge!` every name reads the old words followed by the new ones, or whichever side has it |
| HtmlAttributes.MergeFresh | lib/objective_elements/html_attributes.rb:96-98 | merging only new names appends them in order |
| HtmlAttributes.MergeInto | lib/objective_elements/html_attributes.rb:96-98 | the merge loop computes `Merge`, with the per-name lookup law |
| HtmlAttributes.Removed | lib/objective_elements/html_attributes.rb:38-45 | `delete` of a name list removes exactly those names, others in order, keys distinct |
| HtmlAttributes.NamesOf | lib/objective_elements/html_attributes.rb:40 | `[trash].flatten` holds exactly the names mentioned anywhere in `trash`, at any depth |
| HtmlAttributes.NamesOfListed | lib/objective_elements/html_attributes.rb:54 | the flat key array `replace` passes to `delete` flattens to the keys themselves, in order |
| HtmlAttributes.RemovedSnoc | lib/objective_elements/html_attributes.rb:40-42 | deleting one more name is one more `Hash#delete` on the result |
| HtmlAttributes.RemovedLookup | lib/objective_elements/html_attributes.rb:38-45 | after `delete`, a deleted name is absent and every other name reads as before |
| HtmlAttributes.Added | lib/objective_elements/html_attributes.rb:25-36 | `<<` keeps keys distinct |
| HtmlAttributes.AddHashLookup | lib/objective_elements/html_attributes.rb:89-100 | `<<` of any Hash, keys that collapse under `to_sym` included: each name reads its old words followed by the words of the last value the Hash gives it, or its old words alone |
| HtmlAttributes.FormatParsedLookup | lib/objective_elements/html_attributes.rb:85-87 | formatting the parsed string Hash: each name reads the split of its joined values, or nothing |
| HtmlAttributes.AddStringLookup | lib/objective_elements/html_attributes.rb:85-87 | `<<` of a string: each name reads its old words followed by the words of all its scanned values; a name with no scanned value is left as before, and a name whose scanned values hold no word is present with no words |
| HtmlAttributes.HashifyInput | lib/objective_elements/html_attributes.rb:102-118 | the scan loop computes `Hashify`, with distinct keys and each name's values joined by spaces |
| HtmlAttributes.CollectLoop | lib/objective_elements/html_attributes.rb:106-116 | the `each` over the matches computes the fold `Collect` (whose keys are distinct and in order of first match, see `CollectOrder`) |
| HtmlAttributes.Replacement | lib/objective_elements/html_attributes.rb:48-52 | the Hash `replace` works from has distinct keys |
| HtmlAttributes.Replaced | lib/objective_elements/html_attributes.rb:47-59 | `replace` keeps keys distinct |
| HtmlAttributes.ReplaceShape | lib/objective_elements/html_attributes.rb:47-59 | `replace` is: drop the replaced names, keep the rest in order, append the new pairs |
| HtmlAttributes.ReplaceLookup | lib/objective_elements/html_attributes.rb:47-59 | after `replace` a name the input holds reads only its new words, and every other name reads as before |
| HtmlAttributes.ReplaceHashLookup | lib/objective_elements/html_attributes.rb:47-59 | `replace` with a Hash: a name it holds reads the words of its last value there, whatever it held before; other names read as before |
| HtmlAttributes.ReplaceStringLookup | lib/objective_elements/html_attributes.rb:47-59 | `replace` with a string: a name it matches reads the words of all its matched values, whatever it held before; other names read as before |
| HtmlAttributes.ReadValue | lib/objective_elements/html_attributes.rb:70-71 | the getter answers exactly for present names |
| HtmlAttributes.AssignReadsBack | lib/objective_elements/html_attributes.rb:66-71 | after the setter, the getter reads the new value's words joined by spaces, and every other name reads as before |
| HtmlAttributes.SingleReplacement | lib/objective_elements/html_attributes.rb:69 | the setter's one-pair Hash passes through `transform_keys` and formatting unchanged except for splitting |
| HtmlAttributes.PairsJoin | lib/objective_elements/html_attributes.rb:14-17 | the accumulated string is the tokens joined by spaces plus one trailing space |
| HtmlAttributes.Pairs | lib/objective_elements/html_attributes.rb:14-17 | the accumulated string is empty exactly for no attributes, and otherwise ends in the space after the last pair |
| HtmlAttributes.Render | lib/objective_elements/html_attributes.rb:13-20 | `to_s` is empty exactly when there are no attributes |
| HtmlAttributes.RenderJoin | lib/objective_elements/html_attributes.rb:13-20 | `to_s` is the tokens joined by single spaces, unless the first name starts with whitespace (which `strip` would remove) |
| HtmlAttributes.RenderLoop | lib/objective_elements/html_attributes.rb:13-20 | the `each_pair` loop computes `Render`; the result is empty exactly for no attributes |
| HtmlAttributes.HTMLAttributes.constructor | lib/objective_elements/html_attributes.rb:4-7 | a new set is `<<` of the argument into an empty Hash |
| HtmlAttributes.HTMLAttributes.Lookup | lib/objective_elements/html_attributes.rb:9-11 | `[]` answers exactly for present names, with the words the getter joins |
| HtmlAttributes.HTMLAttributes.Read | lib/objective_elements/html_attributes.rb:70-71 | the getter answers exactly for present names |
| HtmlAttributes.HTMLAttributes.ToS | lib/objective_elements/html_attributes.rb:13-20 | `to_s` renders the content; empty exactly when there is none |
| HtmlAttributes.HTMLAttributes.Add | lib/objective_elements/html_attributes.rb:25-36 | `<<` sets the content to `Added`; `nil` leaves it unchanged; keys stay distinct |
| HtmlAttributes.HTMLAttributes.AddString | lib/objective_elements/html_attributes.rb:85-87 | `add_string` is `<<` of the string |
| HtmlAttributes.HTMLAttributes.AddHash | lib/objective_elements/html_attributes.rb:89-100 | `add_hash` merges the formatted Hash into the content |
| HtmlAttributes.HTMLAttributes.Delete | lib/objective_elements/html_attributes.rb:38-45 | `delete` of one name or of an array nested to any depth leaves the content without every name it mentions, others in order |
| HtmlAttributes.HTMLAttributes.Replace | lib/objective_elements/html_attributes.rb:47-59 | `replace` sets the content to `Replaced` of the old content |
| HtmlAttributes.HTMLAttributes.IsEmpty | lib/objective_elements/html_attributes.rb:61-63 | `empty?` holds exactly when `to_s` is empty |
| HtmlAttributes.HTMLAttributes.Assign | lib/objective_elements/html_attributes.rb:66-69 | the setter replaces the name, which then reads back as the new value's words joined by spaces |
| AttributeRoundTrip.JoinedWordsAreValue | lib/objective_elements/html_attributes.rb:16 | words without quotes, joined, are a valid value capture |
| AttributeRoundTrip.SpacedJoin | lib/objective_elements/html_attributes.rb:13-20 | a space before the joined tokens is the space-separated token layout |
| AttributeRoundTrip.RenderedTokens | lib/objective_elements/html_attributes.rb:13-20 | a rendered canonical set is its first token followed by space-led tokens |
| AttributeRoundTrip.ParseRender | lib/objective_elements/html_attributes.rb:102-118 | `hashify_input(to_s)` gives each name with its joined words, for sets whose names and words contain no quote, `=` or whitespace |
| AttributeRoundTrip.RoundTrip | lib/objective_elements/html_attributes.rb:4-20 | `HTMLAttributes.new(a.to_s)` has the same content as `a`, for such sets |
| ContentList.FlattenAllAppend | lib/objective_elements/double_tag.rb:24-27 | flattening two additions in sequence is concatenating their flattenings |
| ContentList.Flatten | lib/objective_elements/double_tag.rb:24-27 | `flatten!` of one addition: an item is itself, `nil` one blank item, an array the flattening of its parts in order (laws in `FlattenAllAppend` and `FlattenPieces`) |
| ContentList.FlattenPieces | lib/objective_elements/double_tag.rb:24-27 | flattening an array of plain items gives the items |
| Markup.Indent | lib/objective_elements/double_tag.rb:30-32 | `indent` is two spaces |
| Markup.OpeningTag | lib/objective_elements/single_tag.rb:42-46 | `<el` first and `>` last; with no attributes exactly `<el>`; otherwise a space after the element, and everything between that space and the final `>` is the rendered attribute set |
| Markup.ClosingTag | lib/objective_elements/double_tag.rb:13-15 | the attribute-free opening tag with `/` after `<` |
| Markup.ToA | lib/objective_elements/double_tag.rb:34-44 | `to_a` starts with the opening tag; a single tag is that one line; a double tag has at least two lines and ends with the closing tag |
| Markup.ItemLines | lib/objective_elements/double_tag.rb:35-41 | every content item gives at least one line: a tag its `to_a`, anything else its `to_s` |
| Markup.ContentLines | lib/objective_elements/double_tag.rb:35-42 | the flattened child lines are at least as many as the children |
| Markup.ToS | lib/objective_elements/double_tag.rb:46-48 | `to_s` always ends in a newline |
| Markup.EmptyDouble | lib/objective_elements/double_tag.rb:34-48 | an empty double tag is its two tags, joined by a newline or by nothing when `oneline` |
| Markup.AwesomeParagraph | spec/double_tag_spec.rb:8-19 | `<p class="awesome">` and `</p>` on two lines, or on one when `oneline` |
| Markup.AwesomeExpanded | spec/double_tag_spec.rb:8-12 | the expanded rendering of the `awesome` paragraph |
| Markup.AwesomeOneline | spec/double_tag_spec.rb:14-19 | the `oneline` rendering of the `awesome` paragraph |
| Markup.AwesomeOpening | lib/objective_elements/single_tag.rb:42-46 | the opening tag of `p` with `class: 'awesome'` is `<p class="awesome">` |
| Markup.NestedDivLines | spec/double_tag_spec.rb:51-55 | the `div` holding a `p`, an `hr` and a text gives its six lines, children indented once |
| Markup.NestedIndent | spec/double_tag_spec.rb:81-89 | inside a `main`, the same lines are indented once more and the `p`'s lines twice |
| Markup.OnlyChild | lib/objective_elements/double_tag.rb:34-44 | a tag with a single tag child is the child's lines indented once between its two tags |
| Markup.Reindent | lib/objective_elements/double_tag.rb:42-43 | indenting a tag's lines indents its opening tag, each child line and its closing tag |
| Markup.NestOnce | lib/objective_elements/double_tag.rb:34-44 | placed alone inside another tag, a tag's own lines gain one indent and its children's lines two |
| Markup.MainLines | spec/double_tag_spec.rb:81-89 | the `main` of the nested example as tags around the `div` lines indented once and its content lines indented twice |
| Markup.DivLines | spec/double_tag_spec.rb:51-55 | the `div` of the example is its tags around its content lines indented once |
| Markup.DivContentLines | lib/objective_elements/double_tag.rb:35-42 | the `div`'s content gives the `p`'s two lines, the `hr` line and the text |
| Markup.JoinTerminated | lib/objective_elements/double_tag.rb:47 | lines joined by a separator, plus one more separator, is each line followed by the separator |
| Markup.ExpandedLines | lib/objective_elements/double_tag.rb:46-48 | `to_s` is each line of `to_a` followed by a newline; for `oneline`, the lines run together and end in one newline |
| Markup.OnelineUnindented | lib/objective_elements/double_tag.rb:42 | a `oneline` tag puts its children's lines in without indentation |
| Markup.DepthIndent | lib/objective_elements/double_tag.rb:34-44 | with no `oneline` in the tree, every line of `to_a` carries exactly two spaces per level of nesting |
| Markup.TagIndent | lib/objective_elements/double_tag.rb:34-44 | a subtree `d` levels down, with its ancestors' `2d` spaces, is its reference layout |
| Markup.BetweenTags | lib/objective_elements/double_tag.rb:42-43 | one tag's step of that induction: child lines indented once and then by `2d` spaces sit at depth `d + 1` between the tag's two lines at depth `d` |
| Markup.ItemIndent | lib/objective_elements/double_tag.rb:35-41 | the same for one content item |
| Markup.ItemsIndent | lib/objective_elements/double_tag.rb:35-42 | the same for a content list |
| Markup.PrefixedAppend | lib/objective_elements/double_tag.rb:42 | prefixing distributes over concatenated lines |
| Markup.PrefixedTwice | lib/objective_elements/double_tag.rb:42 | prefixing twice is prefixing once with the outer prefix before the inner |
| Markup.IndentedAppend | lib/objective_elements/double_tag.rb:42 | the reference layout distributes over concatenation |
| DoubleTags.DoubleTag.constructor | lib/objective_elements/double_tag.rb:7-11 | a new tag holds the element, flag, attributes built from the argument, and the content `reset_content` leaves |
| DoubleTags.NewDefault | lib/objective_elements/double_tag.rb:7-11 | `DoubleTag.new(el)` with the defaults: no attributes, no content, `oneline` false, rendering as `<el>`, newline, `</el>`, newline |
| DoubleTags.ResetTo | lib/objective_elements/double_tag.rb:18-22 | the content `reset_content` leaves: empty for `nil`, otherwise the flattened argument |
| DoubleTags.DoubleTag.AddContent | lib/objective_elements/double_tag.rb:24-28 | the flattened addition goes at the end, `nil` as an empty text; returns the tag; nothing else changes; the attribute set stays valid |
| DoubleTags.DoubleTag.ResetContent | lib/objective_elements/double_tag.rb:18-22 | the content becomes the flattened argument, or empty for `nil`; the attribute set stays valid |
| DoubleTags.DoubleTag.SetAttributes | lib/objective_elements/single_tag.rb:17-19 | a fresh attribute set built from the input |
| DoubleTags.DoubleTag.ResetAttributes | lib/objective_elements/single_tag.rb:22-24 | a fresh, empty attribute set |
| DoubleTags.DoubleTag.AddParent | lib/objective_elements/single_tag.rb:27-29 | the tag becomes the parent's last content item; the parent is returned |
| SingleTags.SingleTag.constructor | lib/objective_elements/single_tag.rb:12-15 | a new tag holds the element and attributes built from the argument |
| SingleTags.SingleTag.SetAttributes | lib/objective_elements/single_tag.rb:17-19 | a fresh attribute set built from the input |
| SingleTags.SingleTag.ResetAttributes | lib/objective_elements/single_tag.rb:22-24 | a fresh, empty attribute set, after which the tag renders as `<el>` and a newline |
| SingleTags.SingleTag.AddParent | lib/objective_elements/single_tag.rb:27-29 | the tag becomes the parent's last content item; the parent is returned |
| LegacyMarkup.Wrap | lib/elements/tag.rb:58-64 | `to_s` yields a string exactly when `newline` holds, and that string ends in a newline |
| LegacyMarkup.ToS | lib/elements/tag_pair.rb:41-43 | a `Tag` renders exactly when its flag holds; a `TagPair` exactly when all children render and the flag or multiline holds; every rendering ends in a newline |
| LegacyMarkup.PairNewline | lib/elements/tag_pair.rb:28-30 | the effective flag: the given one, or multiline content |
| LegacyMarkup.Multiline | lib/elements/tag_pair.rb:24-26 | `multiline`: some child text holds a newline, or the texts together exceed 60 characters |
| LegacyMarkup.Stringify | lib/elements/tag_pair.rb:32-39 | multiline content starts with a newline and the indent and ends in a newline; otherwise it is at most 60 characters with no newline |
| LegacyMarkup.JoinedWithout | lib/elements/tag_pair.rb:38 | a character no text holds is not in their concatenation |
| LegacyMarkup.Texts | lib/elements/tag_pair.rb:25 | the children's `to_s`, one per child, or nothing when some child gives `nil` |
| LegacyMarkup.ItemText | lib/elements/tag_pair.rb:25 | a text child always gives its text; a tag child that renders gives a string ending in a newline |
| LegacyMarkup.TagChildForcesMultiline | lib/elements/tag_pair.rb:24-30 | a child tag that renders ends in a newline, so its parent is multiline and renders |
| LegacyMarkup.CompactLimit | lib/elements/tag_pair.rb:24-39 | one text without newlines stays inline up to 60 characters and goes on its own indented line from 61 |
| LegacyMarkup.CompactBoundary | lib/elements/tag_pair.rb:24-43 | with the flag off, 60 characters of text render as `nil`, and 61 render on three lines |
| LegacyMarkup.FirstLineIndented | lib/elements/tag_pair.rb:32-39 | multiline content indents only the first line of each text |
| LegacyMarkup.Rendered | lib/elements/tag.rb:58-64 | corrected `to_s`: every element renders, ending in a newline exactly when its effective flag holds |
| LegacyMarkup.RenderedTexts | lib/elements/tag_pair.rb:25 | corrected child texts, one per child |
| LegacyMarkup.RenderedAgrees | lib/elements/tag.rb:58-64 | wherever the code as written yields a string, the corrected rendering yields the same one |
| LegacyMarkup.ItemAgrees | lib/elements/tag_pair.rb:25 | the same for one child |
| LegacyMarkup.TextsAgree | lib/elements/tag_pair.rb:25 | the same for a content list |
| LegacyMarkup.NilWithoutNewline | lib/elements/tag.rb:63 | `Tag.new('hr', newline: false).to_s` is `nil` as written; corrected, it is `<hr>` |
| LegacyTags.AttributesFrom | lib/elements/tag.rb:22-25 | the Hash `reset_attributes` leaves has distinct keys |
| LegacyTags.Tag.constructor | lib/elements/tag.rb:15-19 | a new tag holds the element, flag and the attributes `reset_attributes` leaves |
| LegacyTags.Tag.ResetAttributes | lib/elements/tag.rb:22-25 | empty, then the input added unless `nil` |
| LegacyTags.Tag.AddAttributes | lib/elements/tag.rb:30-40 | the formatted input merged into the Hash, values of existing names appended (per name, the law of `HtmlAttributes.AddHashLookup`) |
| LegacyTags.Tag.RenderAttributes | lib/elements/tag.rb:44-50 | `render_attributes` renders the Hash; empty exactly when it is |
| LegacyTags.Tag.AddParent | lib/elements/tag.rb:53-55 | the tag becomes the parent's last content item; the parent is returned |
| LegacyTags.TagPair.constructor | lib/elements/tag_pair.rb:7-10 | content is the flattened argument (`nil` as one empty text), then attributes as for `Tag` |
| LegacyTags.TagPair.ResetContent | lib/elements/tag_pair.rb:13-16 | the content becomes the flattened argument, `nil` included |
| LegacyTags.TagPair.AddContent | lib/elements/tag_pair.rb:18-22 | the flattened addition goes at the end; returns the pair |
| LegacyTags.TagPair.ResetAttributes | lib/elements/tag.rb:22-25 | as for `Tag`; the content is untouched |
| LegacyTags.TagPair.AddAttributes | lib/elements/tag.rb:30-40 | as for `Tag`; the content is untouched |
| LegacyTags.TagPair.RenderAttributes | lib/elements/tag.rb:44-50 | as for `Tag` |
| LegacyTags.TagPair.AddParent | lib/elements/tag.rb:53-55 | as for `Tag` |
| LegacyTags.NewDefaultTag | lib/elements/tag.rb:15-19 | `Tag.new(el)` with the defaults: no attributes, `newline` true, rendering as `<el>` and a newline |
| LegacyTags.NewDefaultPair | lib/elements/tag_pair.rb:7-10 | `TagPair.new(el)` with the defaults: no attributes, no content, `newline` true, rendering as `<el></el>` and a newline |

## Left out

- Object identity and aliasing. A child added with `add_parent` or
  `add_content` is stored as a snapshot of its value. A later change to the
  child object is not seen by the parent, as it would be in Ruby.
- `method_missing` and `respond_to_missing?` dispatch by method name. The
  model has their explicit equivalents instead: `HTMLAttributes.Read` is the
  getter and `HTMLAttributes.Assign` is the setter.
- HtmlAttributes.HTMLAttributes.Assign: does not model the
  `must supply new value` error, because the value parameter cannot be `nil`.
- HtmlAttributes.HTMLAttributes.Add: does not return `self`, because the
  receiver is the result. The same holds for `Delete`, `Replace` and
  `DoubleTag.ResetContent`.
- HtmlAttributes.HTMLAttributes.Replace: does not model the `NoMethodError`
  that `replace(nil)` raises when it calls `transform_keys` on `nil`
  (lib/objective_elements/html_attributes.rb:51); its argument type `Input`
  holds only a String or a Hash.
- HtmlAttributes.HTMLAttributes.Delete: does not model the `NoMethodError`
  that `delete(nil)`, or a `nil` inside the names, raises at `to_sym`
  (lib/objective_elements/html_attributes.rb:41); `Names` holds only strings.
- LegacyTags.Tag.AddAttributes: does not model the `NoMethodError` that
  `add_attributes(nil)` raises at `each_pair` (lib/elements/tag.rb:32); its
  argument is always a Hash. The same holds for `TagPair.AddAttributes`.
- Value arrays shared with the caller. `add_hash` stores the caller's Array
  itself when a value is an Array (lib/objective_elements/html_attributes.rb:93),
  a later `concat` then changes that Array in place (:97), and `[]` hands out
  the stored Array (:10). The model stores word sequences as values, so
  `HTMLAttributes.AddHash`, `HTMLAttributes.Lookup` and `Merge` never change
  an Array the caller still holds.
- LegacyTags.TagPair.ResetContent: does not return `self` as
  `reset_content` does through `add_content` (lib/elements/tag_pair.rb:15),
  because the receiver is the result.
- Content items are text or tags (`Text | Node`). The source accepts any
  object and calls `to_s` on it; such an object is modelled as its text.
  A `nil` item renders as the empty text.
- Ruby symbols and strings are both attribute names, as strings; `to_sym` is
  the identity.
- The reflective fallbacks to `super` in `method_missing`, which raise
  `NoMethodError`.
- LegacyMarkup.ToS: reports `None` where Ruby would raise `NoMethodError` or
  embed an object's default description. This happens when a legacy child's
  `to_s` is `nil`.
- `to_s` and `to_a` of the classes are the functions `Markup.ToS`,
  `Markup.ToA` and `LegacyMarkup.ToS` applied to `Snapshot()`. They are not
  separate methods.
- `attr_accessor` setters for `element`, `content`, `oneline` and `newline`
  are plain field assignments.
- Setting an attribute Hash key to a non-String, non-Array value is not
  modelled. Such a value is not split in the source.
- `lib/elements.rb` and `lib/elements/parent_tag.rb` are not part of this
  model. Neither is `ShelfTag`.

## Findings

| source | as written | input that shows it | evidently intended | confidence | as-written member | corrected member |
|---|---|---|---|---|---|---|
| lib/elements/tag.rb:63 | the last statement `output << "\n" if newline` makes `to_s` return `nil` when `newline` is false | `Tag.new('hr', newline: false).to_s` | the opening tag without a trailing newline, `<hr>` | high; not executed | LegacyMarkup.NilWithoutNewline | LegacyMarkup.RenderedAgrees |
