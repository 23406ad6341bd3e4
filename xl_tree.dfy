/** The parsed XML of one package part, as ElementTree presents it: an element
    has a tag (namespaced tags in `{uri}local` form), attributes, optional
    text and children. Two traversals are modelled: `ET.parse(...).iter()`,
    a pre-order walk, and `ET.iterparse(...)` with its default "end" events,
    a post-order walk in which the loop body may call `clear()` on the element
    it has just been handed; the clearing is visible to every ancestor whose
    own end event comes later. */
module XLTree {
  import opened Wrappers

  datatype Element = Element(tag: string, attrs: map<string, string>, text: Option<string>, children: seq<Element>)

  /** `elem.get(name)`. */
  function Attr(e: Element, name: string): (r: Option<string>)
    ensures r.Some? <==> name in e.attrs
    ensures r.Some? ==> r.value == e.attrs[name]
  {
    if name in e.attrs then Some(e.attrs[name]) else None
  }

  /** `elem.clear()`: attributes, text and children are dropped, the tag stays. */
  function Cleared(e: Element): (c: Element)
    ensures c.tag == e.tag && c.attrs == map[] && c.text.None? && c.children == []
  {
    Element(e.tag, map[], None, [])
  }

  /** `elem.iter()`: the element, then the pre-order walks of its children. */
  function PreOrder(e: Element): (es: seq<Element>)
    ensures |es| >= 1 && es[0] == e
    decreases e
  {
    [e] + PreOrderList(e.children)
  }

  function PreOrderList(es: seq<Element>): seq<Element>
    decreases es
  {
    if es == [] then [] else PreOrder(es[0]) + PreOrderList(es[1..])
  }

  /** The elements tagged `tag`, in order. */
  function Filter(es: seq<Element>, tag: string): (r: seq<Element>)
    ensures |r| <= |es|
    ensures forall i :: 0 <= i < |r| ==> r[i].tag == tag
  {
    if es == [] then []
    else if es[0].tag == tag then [es[0]] + Filter(es[1..], tag)
    else Filter(es[1..], tag)
  }

  lemma {:induction false} FilterAppend(a: seq<Element>, b: seq<Element>, tag: string)
    ensures Filter(a + b, tag) == Filter(a, tag) + Filter(b, tag)
  {
    if a == [] {
      assert a + b == b;
    } else {
      assert (a + b)[0] == a[0];
      assert (a + b)[1..] == a[1..] + b;
      FilterAppend(a[1..], b, tag);
    }
  }

  /** `ET.iterparse` with a loop that clears every `target` element once it has
      handled it: the elements as the loop sees them at their end events, in
      post-order, and the element as its parent sees it afterwards. */
  function EndEvents(e: Element, target: string): (r: (seq<Element>, Element))
    ensures |r.0| >= 1 && r.0[|r.0| - 1].tag == e.tag
    ensures r.1.tag == e.tag
    decreases e
  {
    var (evs, kids) := EndEventsList(e.children, target);
    var seen := e.(children := kids);
    (evs + [seen], if e.tag == target then Cleared(e) else seen)
  }

  function EndEventsList(es: seq<Element>, target: string): (r: (seq<Element>, seq<Element>))
    ensures |r.1| == |es|
    decreases es
  {
    if es == [] then ([], [])
    else
      var (evs0, e0) := EndEvents(es[0], target);
      var (evs1, rest) := EndEventsList(es[1..], target);
      (evs0 + evs1, [e0] + rest)
  }

  /** Some element of the subtree (the root included) is tagged `tag`. */
  predicate HasTag(e: Element, tag: string)
    decreases e
  {
    e.tag == tag || HasTagList(e.children, tag)
  }

  predicate HasTagList(es: seq<Element>, tag: string)
    decreases es
  {
    es != [] && (HasTag(es[0], tag) || HasTagList(es[1..], tag))
  }

  /** No `tag` element lies inside another one. */
  predicate NotNested(e: Element, tag: string)
    decreases e
  {
    if e.tag == tag then !HasTagList(e.children, tag) else NotNestedList(e.children, tag)
  }

  predicate NotNestedList(es: seq<Element>, tag: string)
    decreases es
  {
    es != [] ==> NotNested(es[0], tag) && NotNestedList(es[1..], tag)
  }

  /** The outermost `tag` elements of the tree, in document order. */
  function Outermost(e: Element, tag: string): seq<Element>
    decreases e
  {
    if e.tag == tag then [e] else OutermostList(e.children, tag)
  }

  function OutermostList(es: seq<Element>, tag: string): seq<Element>
    decreases es
  {
    if es == [] then [] else Outermost(es[0], tag) + OutermostList(es[1..], tag)
  }

  /** A subtree without `target` elements is walked unchanged, and none of
      its events is a `target` element. */
  lemma {:induction false} EndEventsUntouched(e: Element, target: string)
    requires !HasTag(e, target)
    ensures EndEvents(e, target).1 == e
    ensures Filter(EndEvents(e, target).0, target) == []
    decreases e
  {
    EndEventsListUntouched(e.children, target);
    var (evs, kids) := EndEventsList(e.children, target);
    FilterAppend(evs, [e.(children := kids)], target);
  }

  lemma {:induction false} EndEventsListUntouched(es: seq<Element>, target: string)
    requires !HasTagList(es, target)
    ensures EndEventsList(es, target).1 == es
    ensures Filter(EndEventsList(es, target).0, target) == []
    decreases es
  {
    if es != [] {
      EndEventsUntouched(es[0], target);
      EndEventsListUntouched(es[1..], target);
      var (evs0, e0) := EndEvents(es[0], target);
      var (evs1, rest) := EndEventsList(es[1..], target);
      FilterAppend(evs0, evs1, target);
      assert EndEventsList(es, target) == (evs0 + evs1, [e0] + rest);
      assert [es[0]] + es[1..] == es;
    }
  }

  /** When `target` elements do not nest, the clearing loop is handed each of
      them exactly as parsed, in document order. */
  lemma {:induction false} EndEventsSeesOriginals(e: Element, target: string)
    requires NotNested(e, target)
    ensures Filter(EndEvents(e, target).0, target) == Outermost(e, target)
    decreases e
  {
    var (evs, kids) := EndEventsList(e.children, target);
    FilterAppend(evs, [e.(children := kids)], target);
    if e.tag == target {
      EndEventsListUntouched(e.children, target);
      assert e.(children := kids) == e;
    } else {
      EndEventsListSeesOriginals(e.children, target);
    }
  }

  lemma {:induction false} EndEventsListSeesOriginals(es: seq<Element>, target: string)
    requires NotNestedList(es, target)
    ensures Filter(EndEventsList(es, target).0, target) == OutermostList(es, target)
    decreases es
  {
    if es != [] {
      EndEventsSeesOriginals(es[0], target);
      EndEventsListSeesOriginals(es[1..], target);
      FilterAppend(EndEvents(es[0], target).0, EndEventsList(es[1..], target).0, target);
    }
  }
}
