/** The parsed page as cheerio exposes it to the link rewriter: the
    elements of the tree in document order, each with its tag name and its
    attributes, and the two selector forms and the attribute update the
    rewriter uses. */
module Dom {

  /** One element of the page. */
  datatype Element = Element(tag: string, attrs: map<string, string>)

  /** The selector `tag[attr]`: an element of that tag carrying the attribute. */
  predicate HasAttr(e: Element, tag: string, attr: string) {
    e.tag == tag && attr in e.attrs
  }

  /** The selector `[attr^='p']`: the attribute is present and its value
      starts with `p`. An empty `p` represents nothing (section 6.3.2 of the
      W3C Selectors Level 3 recommendation), so it matches no element. */
  predicate AttrStartsWith(e: Element, attr: string, p: string) {
    attr in e.attrs && p != [] && p <= e.attrs[attr]
  }

  /** The selector `tag[attr^='p']`. */
  predicate Selected(e: Element, tag: string, attr: string, p: string) {
    e.tag == tag && AttrStartsWith(e, attr, p)
  }

  /** One element after `$(tag[attr^='p']).attr(attr, value)`. */
  function Rewritten(e: Element, tag: string, attr: string, p: string, value: string): Element {
    if Selected(e, tag, attr, p) then e.(attrs := e.attrs[attr := value]) else e
  }

  /** The whole page after `$(tag[attr^='p']).attr(attr, value)`: every
      selected element gets `value` for `attr`; every other element, and
      every other attribute, is left as it was. */
  function SetAttrOnMatches(doc: seq<Element>, tag: string, attr: string, p: string, value: string)
    : (r: seq<Element>)
    ensures |r| == |doc|
    ensures forall i :: 0 <= i < |doc| ==>
      r[i].tag == doc[i].tag && r[i].attrs.Keys == doc[i].attrs.Keys
    ensures forall i :: 0 <= i < |doc| && Selected(doc[i], tag, attr, p) ==> r[i].attrs[attr] == value
    ensures forall i :: 0 <= i < |doc| && !Selected(doc[i], tag, attr, p) ==> r[i] == doc[i]
    ensures forall i, b :: 0 <= i < |doc| && b in doc[i].attrs && b != attr ==>
      r[i].attrs[b] == doc[i].attrs[b]
  {
    seq(|doc|, i requires 0 <= i < |doc| => Rewritten(doc[i], tag, attr, p, value))
  }

  /** `$(tag[attr^='p']).attr(attr, value)` on the loaded page, in place. */
  method SetAttrOnMatchesInPlace(dom: array<Element>, tag: string, attr: string, p: string, value: string)
    modifies dom
    ensures dom[..] == SetAttrOnMatches(old(dom[..]), tag, attr, p, value)
  {
    for i := 0 to dom.Length
      invariant forall k :: 0 <= k < i ==> dom[k] == Rewritten(old(dom[k]), tag, attr, p, value)
      invariant forall k :: i <= k < dom.Length ==> dom[k] == old(dom[k])
    {
      if Selected(dom[i], tag, attr, p) {
        dom[i] := dom[i].(attrs := dom[i].attrs[attr := value]);
      }
    }
  }
}
