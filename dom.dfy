/**
 * The page as the extraction callback sees it. A CSS selector is a name; what it
 * selects is part of the page value, so `querySelectorAll`, `querySelector`,
 * `closest('a')`, `getAttribute` and `textContent` become look-ups.
 */
module Dom {
  import opened Wrappers

  /** A node a query returned inside (or, for `closest`, around) a candidate: its `textContent` and attributes. */
  datatype Node = Node(text: string, attributes: map<string, string>)

  /**
   * A candidate element: its `textContent`, the nodes `element.querySelectorAll(selector)`
   * returns for each selector it is asked about (in document order), and
   * `element.closest('a')`.
   */
  datatype Element = Element(text: string, queries: map<string, seq<Node>>, closestAnchor: Option<Node>)

  /** The document: what `document.querySelectorAll(selector)` returns for each selector. */
  datatype Document = Document(queries: map<string, seq<Element>>)

  /**
   * `span, p, div` and `span, div, p` select the same nodes in the same (document)
   * order, so both are this one query.
   */
  const TEXT_BEARING := "span, p, div"

  /** `element.querySelectorAll(selector)`. */
  function QueryAll(e: Element, selector: string): seq<Node> {
    if selector in e.queries then e.queries[selector] else []
  }

  /** `element.querySelector(selector)`: the first node `QueryAll` returns. */
  function Query(e: Element, selector: string): (r: Option<Node>)
    ensures r.None? <==> QueryAll(e, selector) == []
    ensures r.Some? ==> r.value == QueryAll(e, selector)[0]
  {
    var all := QueryAll(e, selector);
    if all == [] then None else Some(all[0])
  }

  /** `node.getAttribute(name)`, `None` standing for `null`. */
  function GetAttribute(n: Node, name: string): Option<string> {
    if name in n.attributes then Some(n.attributes[name]) else None
  }

  /** `document.querySelectorAll(selector)`. */
  function Select(d: Document, selector: string): seq<Element> {
    if selector in d.queries then d.queries[selector] else []
  }

  /** The texts of the text-bearing descendants of an element, in document order. */
  function Texts(e: Element): (ts: seq<string>)
    ensures |ts| == |QueryAll(e, TEXT_BEARING)|
    ensures forall k | 0 <= k < |ts| :: ts[k] == QueryAll(e, TEXT_BEARING)[k].text
  {
    var nodes := QueryAll(e, TEXT_BEARING);
    seq(|nodes|, k requires 0 <= k < |nodes| => nodes[k].text)
  }
}
