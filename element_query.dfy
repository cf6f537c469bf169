/**
 * The element selection rule `EditableElement.query` (identical to
 * `EditableStore.scan`), over an abstract page: each element has an identity,
 * possibly a `data-directus` marker attribute, and its children in document order.
 */
module ElementQuery {
  import opened Base

  type ElemId = nat

  /** A DOM element: its identity, its `data-directus` attribute if present, and its children. */
  datatype Element = Element(id: ElemId, marker: Option<string>, children: seq<Element>)

  /** An element that carries the edit marker (`[data-directus]`). */
  predicate Marked(e: Element)
  {
    e.marker.Some?
  }

  /** A value passed in `elements`: an `HTMLElement`, or anything else (null included). */
  datatype Candidate = HtmlElement(e: Element) | NotAnElement

  /** The elements of a forest in document order (pre-order). */
  function Flatten(es: seq<Element>): (r: seq<Element>)
    ensures |es| <= |r|
    decreases es
  {
    if es == [] then [] else [es[0]] + Flatten(es[0].children) + Flatten(es[1..])
  }

  /** The descendants of `e` in document order, which `e.querySelector` searches. */
  function Descendants(e: Element): seq<Element>
  {
    Flatten(e.children)
  }

  /** The marked elements of `es`, in their order. */
  function MarkedOf(es: seq<Element>): (r: seq<Element>)
    ensures |r| <= |es|
    ensures forall k :: 0 <= k < |r| ==> Marked(r[k])
    ensures forall x :: x in r <==> x in es && Marked(x)
  {
    if es == [] then []
    else (if Marked(es[0]) then [es[0]] else []) + MarkedOf(es[1..])
  }

  /** Position of the first marked element of `es`: what `querySelector('[data-directus]')` finds. */
  function FirstMarkedIndex(es: seq<Element>): (r: Option<nat>)
    ensures r.None? <==> forall k :: 0 <= k < |es| ==> !Marked(es[k])
    ensures r.Some? ==> r.value < |es| && Marked(es[r.value])
    ensures r.Some? ==> forall k :: 0 <= k < r.value ==> !Marked(es[k])
  {
    if es == [] then None
    else if Marked(es[0]) then Some(0)
    else match FirstMarkedIndex(es[1..])
      case None => None
      case Some(i) => Some(i + 1)
  }

  /** The `map` step for one candidate: the element itself if marked, else its first marked descendant. */
  function Pick(c: Candidate): (r: Option<Element>)
    ensures r.Some? ==> Marked(r.value)
    ensures c.NotAnElement? ==> r.None?
    ensures c.HtmlElement? && Marked(c.e) ==> r == Some(c.e)
    ensures c.HtmlElement? && !Marked(c.e) ==>
      (r.None? <==> forall d :: d in Descendants(c.e) ==> !Marked(d))
    ensures c.HtmlElement? && !Marked(c.e) && r.Some? ==>
      var ds := Descendants(c.e);
      exists i :: 0 <= i < |ds| && ds[i] == r.value && forall j :: 0 <= j < i ==> !Marked(ds[j])
  {
    match c
    case NotAnElement => None
    case HtmlElement(e) =>
      if Marked(e) then Some(e)
      else match FirstMarkedIndex(Descendants(e))
        case None => None
        case Some(i) => Some(Descendants(e)[i])
  }

  /** The candidates' picks, dropping those that found nothing. */
  function PickAll(cs: seq<Candidate>): (r: seq<Element>)
    ensures |r| <= |cs|
    ensures forall k :: 0 <= k < |r| ==> Marked(r[k])
  {
    if cs == [] then []
    else (match Pick(cs[0]) case None => [] case Some(e) => [e]) + PickAll(cs[1..])
  }

  /**
   * `query(elements)` on a page whose top-level elements are `page`: with no argument
   * every marked element of the page in document order, otherwise one pick per
   * candidate that finds one.
   */
  function Query(page: seq<Element>, elements: Option<seq<Candidate>>): (r: seq<Element>)
    ensures forall k :: 0 <= k < |r| ==> Marked(r[k])
    ensures elements.Some? ==> |r| <= |elements.value|
  {
    match elements
    case None => MarkedOf(Flatten(page))
    case Some(cs) => PickAll(cs)
  }

  /** With no argument, query returns exactly the marked elements of the page. */
  lemma QueryAllIsMarkedOfPage(page: seq<Element>, x: Element)
    ensures x in Query(page, None) <==> x in Flatten(page) && Marked(x)
  {
  }

  /** Candidates that are all marked elements come back as they are, in order. */
  lemma {:induction false} QueryMarkedIsIdentity(page: seq<Element>, cs: seq<Candidate>)
    requires forall k :: 0 <= k < |cs| ==> cs[k].HtmlElement? && Marked(cs[k].e)
    ensures |Query(page, Some(cs))| == |cs|
    ensures forall k :: 0 <= k < |cs| ==> Query(page, Some(cs))[k] == cs[k].e
  {
    if cs != [] {
      QueryMarkedIsIdentity(page, cs[1..]);
    }
  }

  /** Non-elements (null, text, anything else) are dropped without affecting the rest. */
  lemma {:induction false} NonElementsDropped(pre: seq<Candidate>, post: seq<Candidate>)
    ensures PickAll(pre + [NotAnElement] + post) == PickAll(pre + post)
    decreases |pre|
  {
    if pre == [] {
      assert pre + [NotAnElement] + post == [NotAnElement] + post && pre + post == post;
      assert ([NotAnElement] + post)[1..] == post;
    } else {
      assert (pre + [NotAnElement] + post)[1..] == pre[1..] + [NotAnElement] + post;
      assert (pre + post)[1..] == pre[1..] + post;
      NonElementsDropped(pre[1..], post);
    }
  }

  /** Picking distributes over a concatenation of candidate lists. */
  lemma {:induction false} PickAllAppend(a: seq<Candidate>, b: seq<Candidate>)
    ensures PickAll(a + b) == PickAll(a) + PickAll(b)
    decreases |a|
  {
    if a == [] {
      assert a + b == b;
    } else {
      assert (a + b)[1..] == a[1..] + b;
      PickAllAppend(a[1..], b);
    }
  }

  /** One candidate contributes exactly its pick, if it has one. */
  lemma PickAllOne(c: Candidate)
    ensures PickAll([c]) == if Pick(c).Some? then [Pick(c).value] else []
  {
    assert [c][1..] == [];
  }

  /**
   * `query(elements)` with an argument, candidate by candidate: the result for
   * `pre + [c] + post` is the result for `pre`, then `c`'s pick if it has one,
   * then the result for `post`.
   */
  lemma QueryPicksEach(page: seq<Element>, pre: seq<Candidate>, c: Candidate, post: seq<Candidate>)
    ensures Query(page, Some(pre + [c] + post)) ==
      Query(page, Some(pre)) + (if Pick(c).Some? then [Pick(c).value] else []) + Query(page, Some(post))
  {
    PickAllAppend(pre + [c], post);
    PickAllAppend(pre, [c]);
    PickAllOne(c);
  }

  /** The marked elements of a concatenation are those of each part, in order and with repeats. */
  lemma {:induction false} MarkedOfAppend(a: seq<Element>, b: seq<Element>)
    ensures MarkedOf(a + b) == MarkedOf(a) + MarkedOf(b)
    decreases |a|
  {
    if a == [] {
      assert a + b == b;
    } else {
      assert (a + b)[1..] == a[1..] + b;
      MarkedOfAppend(a[1..], b);
    }
  }

  /** One element is kept exactly when it is marked. */
  lemma MarkedOfOne(x: Element)
    ensures MarkedOf([x]) == if Marked(x) then [x] else []
  {
    assert [x][1..] == [];
  }

  /**
   * With no argument, the page's elements in document order, each kept exactly
   * when marked: the result for `pre + [x] + post` (a flattened page) is the
   * result for `pre`, then `x` if marked, then the result for `post`.
   */
  lemma MarkedInDocumentOrder(pre: seq<Element>, x: Element, post: seq<Element>)
    ensures MarkedOf(pre + [x] + post) == MarkedOf(pre) + (if Marked(x) then [x] else []) + MarkedOf(post)
  {
    MarkedOfAppend(pre + [x], post);
    MarkedOfAppend(pre, [x]);
    MarkedOfOne(x);
  }
}
