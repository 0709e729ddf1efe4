/** The markup fragments the extractors walk, in place of a parsed HTML
    tree: a node is a text node or an element with a name, attributes and
    children. The functions here stand for the parser-library queries the
    extraction code calls: `.text`, `.children`, `find_all`, `find`,
    `tag[attr]` and `str(tag)`. */
module Markup {
  import opened Wrappers
  import opened Strings

  datatype Node =
    | Text(s: string)
    | Tag(name: string, attrs: map<string, string>, children: seq<Node>)

  /** A tag (an element), as opposed to a text node. */
  type Element = n: Node | n.Tag? witness Tag("", map[], [])

  /** `.text`: the concatenated text of every text node below, in document
      order. */
  function TextOf(n: Node): string
    decreases n, 1
  {
    match n
    case Text(s) => s
    case Tag(_, _, cs) => TextOfAll(cs)
  }

  function TextOfAll(cs: seq<Node>): string
    decreases cs, 0
  {
    if cs == [] then "" else TextOf(cs[0]) + TextOfAll(cs[1..])
  }

  /** Every node strictly below the given children, in document (pre-)order:
      the order in which `find_all` visits them. */
  function Descendants(cs: seq<Node>): seq<Node>
    decreases cs
  {
    if cs == [] then []
    else [cs[0]] + (if cs[0].Tag? then Descendants(cs[0].children) else []) + Descendants(cs[1..])
  }

  /** `is_tag(tag, name)`: a tag, and of the given name when a non-empty
      name is given. */
  predicate IsTag(n: Node, name: Option<string>) {
    n.Tag? && (if name.Some? && name.value != "" then n.name == name.value else true)
  }

  /** `filter(tag_filter(name), cs)`: the tags among `cs` with that name, in
      their original order. */
  function FilterTags(cs: seq<Node>, name: string): (r: seq<Element>)
    ensures |r| <= |cs|
    ensures forall k :: 0 <= k < |r| ==> IsTag(r[k], Some(name)) && r[k] in cs
    ensures forall x :: x in cs && IsTag(x, Some(name)) ==> x in r
  {
    if cs == [] then []
    else
      var rest := FilterTags(cs[1..], name);
      if IsTag(cs[0], Some(name)) then
        var e: Element := cs[0];
        [e] + rest
      else
        rest
  }

  /** Filtering distributes over concatenation, so it keeps document order. */
  lemma {:induction false} FilterTagsAppend(a: seq<Node>, b: seq<Node>, name: string)
    ensures FilterTags(a + b, name) == FilterTags(a, name) + FilterTags(b, name)
    decreases |a|
  {
    if a == [] {
      assert a + b == b;
    } else {
      assert (a + b)[1..] == a[1..] + b;
      FilterTagsAppend(a[1..], b, name);
    }
  }

  /** `el.find_all(name)`: the descendants of `el` that are tags of that
      name, in document order. */
  function FindAll(el: Element, name: string): seq<Element> {
    FilterTags(Descendants(el.children), name)
  }

  /** `el.find(name)`: the first of `find_all`, or `None`. */
  function Find(el: Element, name: string): (r: Option<Element>)
    ensures r.None? <==> FindAll(el, name) == []
    ensures r.Some? ==> r.value == FindAll(el, name)[0]
  {
    var all := FindAll(el, name);
    if all == [] then None else Some(all[0])
  }

  /** `el[key]`: the attribute's value, or `KeyError`. */
  function GetAttr(el: Element, key: string): (r: Result<string>)
    ensures r.Ok? <==> key in el.attrs
    ensures r.Ok? ==> r.value == el.attrs[key]
    ensures r.Err? ==> r.error == KeyError
  {
    if key in el.attrs then Ok(el.attrs[key]) else Err(KeyError)
  }

  /** The class attribute holds `c` among its whitespace-separated values,
      which is how a `{"class": c}` filter of `find_all` matches. */
  predicate HasClass(el: Element, c: string) {
    "class" in el.attrs && c in Split(el.attrs["class"])
  }

  /** The tags the parser writes as `<name/>` when they have no content. */
  const VoidTags: set<string> := {
    "area", "base", "br", "col", "embed", "hr", "img", "input", "keygen",
    "link", "menuitem", "meta", "param", "source", "track", "wbr"}

  /** `str(node)`: the markup of a node, children included. */
  function Render(n: Node): string
    decreases n, 1
  {
    match n
    case Text(s) => s
    case Tag(name, _, cs) =>
      if cs == [] && name in VoidTags then "<" + name + "/>"
      else "<" + name + ">" + RenderAll(cs) + "</" + name + ">"
  }

  function RenderAll(cs: seq<Node>): string
    decreases cs, 0
  {
    if cs == [] then "" else Render(cs[0]) + RenderAll(cs[1..])
  }
}
