/**
 * The parsed XML tree: an element has a name, an ordered attribute list and
 * ordered children, each of which is raw text or a nested element.
 */
module Xml {
  import opened Wrappers

  datatype Node =
    | Text(text: string)
    | Elem(name: string, attrs: seq<(string, string)>, children: seq<Node>)

  /** The text of an element whose only child is text; anything else is an error. */
  function SoleText(n: Node): (r: Result<string>)
    ensures r.Success? <==> n.Elem? && |n.children| == 1 && n.children[0].Text?
    ensures r.Success? ==> r.value == n.children[0].text
  {
    if n.Elem? && |n.children| == 1 && n.children[0].Text? then Success(n.children[0].text)
    else Failure("Expected a node with exactly one text child")
  }

  /** The value of the first attribute with the given key, if any. */
  function GetAttr(n: Node, key: string): (r: Option<string>)
  {
    if n.Text? then None else AttrValue(n.attrs, key)
  }

  function AttrValue(attrs: seq<(string, string)>, key: string): (r: Option<string>)
    ensures r.Some? ==> (key, r.value) in attrs
    ensures r.None? ==> forall i :: 0 <= i < |attrs| ==> attrs[i].0 != key
    decreases |attrs|
  {
    if attrs == [] then None
    else if attrs[0].0 == key then Some(attrs[0].1)
    else AttrValue(attrs[1..], key)
  }
}
