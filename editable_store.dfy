/**
 * `EditableStore` (src/lib/editable-store.ts): the registry of editable items,
 * in registration order, with lookup, append and bulk enable, disable and
 * remove. A missing selection (`undefined`) is `None`.
 */
module Store {
  import opened Base
  import opened ElementQuery
  import opened Overlay
  import opened Editable

  /** No two items share an overlay; each item creates its own. */
  predicate DistinctOverlays(xs: seq<EditableElement>)
  {
    forall i, j :: 0 <= i < |xs| && 0 <= j < |xs| && xs[i].overlay == xs[j].overlay ==> xs[i] == xs[j]
  }

  /** No element is registered twice. */
  predicate UniqueElements(xs: seq<EditableElement>)
  {
    forall i, j :: 0 <= i < |xs| && 0 <= j < |xs| && xs[i].element == xs[j].element ==> i == j
  }

  /** The position of the first item registered for `e`. */
  function FindIndex(xs: seq<EditableElement>, e: ElemId): (r: Option<nat>)
    ensures r.None? <==> forall k :: 0 <= k < |xs| ==> xs[k].element != e
    ensures r.Some? ==> (r.value < |xs| && xs[r.value].element == e &&
      forall k :: 0 <= k < r.value ==> xs[k].element != e)
  {
    if |xs| == 0 then None
    else if xs[0].element == e then Some(0)
    else match FindIndex(xs[1..], e)
      case None => None
      case Some(k) => Some(k + 1)
  }

  /** `items.filter(item => !selected.includes(item))`. */
  function Without(xs: seq<EditableElement>, selected: seq<EditableElement>): (r: seq<EditableElement>)
    ensures forall k :: 0 <= k < |r| ==> r[k] in xs && r[k] !in selected
    ensures forall k :: 0 <= k < |xs| && xs[k] !in selected ==> xs[k] in r
    ensures |r| <= |xs|
  {
    if |xs| == 0 then []
    else (if xs[0] in selected then [] else [xs[0]]) + Without(xs[1..], selected)
  }

  /** `items.filter(item => !item.disabled)`. */
  function NotDisabled(xs: seq<EditableElement>): (r: seq<EditableElement>)
    reads xs
    ensures forall k :: 0 <= k < |r| ==> r[k] in xs && !r[k].disabled
    ensures forall k :: 0 <= k < |xs| && !xs[k].disabled ==> xs[k] in r
    ensures |r| <= |xs|
  {
    if |xs| == 0 then []
    else (if xs[0].disabled then [] else [xs[0]]) + NotDisabled(xs[1..])
  }

  /** An item that `enableItems` has processed. */
  twostate predicate Enabled(t: EditableElement)
    reads t, t.overlay
  {
    !t.disabled && t.observing &&
    t.hover == old(t.hover) && t.rect == old(t.rect) && t.onSaved == old(t.onSaved) &&
    t.hoverListening == old(t.hoverListening) &&
    t.overlay.State() == old(t.overlay.State()).(hidden := false)
  }

  /** An item that `disableItems` has processed. */
  twostate predicate Disabled(t: EditableElement)
    reads t, t.overlay
  {
    t.disabled && !t.hover && !t.observing &&
    t.rect == old(t.rect) && t.onSaved == old(t.onSaved) &&
    t.hoverListening == old(t.hoverListening) &&
    t.overlay.State() == old(t.overlay.State()).(hidden := true)
  }

  /** An item that `removeItems` has processed; its hover listeners stay attached. */
  twostate predicate Removed(t: EditableElement)
    reads t, t.overlay
  {
    !t.observing &&
    t.disabled == old(t.disabled) && t.hover == old(t.hover) && t.rect == old(t.rect) &&
    t.onSaved == old(t.onSaved) && t.hoverListening == old(t.hoverListening) &&
    t.overlay.State() == old(t.overlay.State()).(attached := false)
  }

  /** Distinct overlays stay distinct in any sequence drawn from the same items. */
  lemma DistinctOverlaysWithin(xs: seq<EditableElement>, ys: seq<EditableElement>)
    requires DistinctOverlays(xs)
    requires forall j :: 0 <= j < |ys| ==> ys[j] in xs
    ensures DistinctOverlays(ys)
  {
  }

  /** Within a selection whose overlays are distinct, an overlay belongs to one item only. */
  lemma OthersKeepTheirOverlays(items: seq<EditableElement>, targets: seq<EditableElement>, k: nat)
    requires k < |targets| && DistinctOverlays(items + targets)
    ensures forall j :: 0 <= j < |targets| && targets[j] != targets[k] ==> targets[j].overlay != targets[k].overlay
    ensures forall j :: k < j < |targets| && targets[j] !in targets[..k] && targets[j] != targets[k] ==>
      targets[j] !in targets[..k + 1]
  {
    var all := items + targets;
    forall j | 0 <= j < |targets| && targets[j] != targets[k]
      ensures targets[j].overlay != targets[k].overlay
    {
      assert all[|items| + j] == targets[j] && all[|items| + k] == targets[k];
    }
    assert targets[..k + 1] == targets[..k] + [targets[k]];
  }

  /** The overlay of an item outside the selection belongs to no selected item. */
  lemma OutsideOverlays(items: seq<EditableElement>, targets: seq<EditableElement>)
    requires DistinctOverlays(items + targets)
    ensures forall u :: u in items && u !in targets ==> u.overlay !in set t | t in targets :: t.overlay
  {
    forall u | u in items && u !in targets ensures u.overlay !in set t | t in targets :: t.overlay {
      OverlayOwner(items + targets, u);
    }
  }

  /** Within items whose overlays are distinct, no other item shares `t`'s overlay. */
  lemma OverlayOwner(xs: seq<EditableElement>, t: EditableElement)
    requires DistinctOverlays(xs) && t in xs
    ensures forall u :: u in xs && u != t ==> u.overlay != t.overlay
  {
  }

  /** The `forEach` callback of `enableItems`, on one item. */
  method EnableItem(t: EditableElement)
    modifies t, t.overlay
    ensures Enabled(t)
  {
    t.disabled := false;
    t.observing := true;
    t.overlay.Enable();
  }

  /** The `forEach` callback of `disableItems`, on one item. */
  method DisableItem(t: EditableElement)
    modifies t, t.overlay
    ensures Disabled(t)
  {
    t.disabled := true;
    t.hover := false;
    t.observing := false;
    t.overlay.Disable();
  }

  /**
   * The `forEach` callback of `removeItems`, on one item: `removeHoverListener()`
   * detaches nothing (see `EditableElement.RemoveHoverListener`).
   */
  method RemoveItem(t: EditableElement)
    modifies t, t.overlay
    ensures Removed(t)
  {
    t.observing := false;
    t.overlay.Remove();
    t.RemoveHoverListener();
  }

  /** An item, and its overlay, that an operation left alone. */
  twostate predicate Untouched(t: EditableElement)
    reads t, t.overlay
  {
    t.disabled == old(t.disabled) && t.hover == old(t.hover) && t.observing == old(t.observing) &&
    t.rect == old(t.rect) && t.onSaved == old(t.onSaved) && t.hoverListening == old(t.hoverListening) &&
    t.overlay.State() == old(t.overlay.State())
  }

  class EditableStore {
    var items: seq<EditableElement>

    constructor ()
      ensures items == []
    {
      items := [];
    }

    /** The items a selection names: the selection itself, or every item. */
    function Selection(selected: Option<seq<EditableElement>>): seq<EditableElement>
      reads this
    {
      if selected.Some? then selected.value else items
    }

    /** `getItem`: the first item registered for the element, if any. */
    function GetItem(e: ElemId): (r: Option<EditableElement>)
      reads this
      ensures r.None? <==> forall k :: 0 <= k < |items| ==> items[k].element != e
      ensures r.Some? ==> (r.value.element == e &&
        exists k :: 0 <= k < |items| && items[k] == r.value && forall j :: 0 <= j < k ==> items[j].element != e)
    {
      match FindIndex(items, e)
      case None => None
      case Some(k) => Some(items[k])
    }

    /** `addItem`: appends, without looking for an earlier entry. */
    method AddItem(item: EditableElement)
      modifies this
      ensures items == old(items) + [item]
    {
      items := items + [item];
    }

    /**
     * `enableItems`: every selected item is re-enabled, observed again and its
     * overlay shown; nothing else changes, membership included.
     */
    method EnableItems(selected: Option<seq<EditableElement>>)
      requires DistinctOverlays(items + Selection(selected))
      modifies Selection(selected), set t | t in Selection(selected) :: t.overlay
      ensures items == old(items)
      ensures forall t :: t in old(Selection(selected)) ==> Enabled(t)
      ensures forall t :: t in items && t !in old(Selection(selected)) ==> Untouched(t)
    {
      var targets := Selection(selected);
      OutsideOverlays(items, targets);
      var k := 0;
      while k < |targets|
        invariant 0 <= k <= |targets|
        invariant forall j :: 0 <= j < k ==> Enabled(targets[j])
        invariant forall j :: k <= j < |targets| && targets[j] !in targets[..k] ==> Untouched(targets[j])
      {
        var t := targets[k];
        OthersKeepTheirOverlays(items, targets, k);
        EnableItem(t);
        assert Enabled(t);
        k := k + 1;
      }
    }

    /**
     * `disableItems`: without a selection, the items not yet disabled, in
     * registration order. Each is disabled, loses hover, stops being observed
     * and has its overlay hidden; a copy of the selection is returned.
     */
    method DisableItems(selected: Option<seq<EditableElement>>) returns (affected: seq<EditableElement>)
      requires DistinctOverlays(items + Selection(selected))
      modifies Selection(selected), set t | t in Selection(selected) :: t.overlay
      ensures items == old(items)
      ensures affected == old(if selected.Some? then selected.value else NotDisabled(items))
      ensures forall t :: t in affected ==> Disabled(t)
      ensures forall t :: t in items && t !in affected ==> Untouched(t)
    {
      var targets := if selected.Some? then selected.value else NotDisabled(items);
      DistinctOverlaysWithin(items + Selection(selected), items + targets);
      DisableEach(targets);
      affected := targets;
    }

    /** The `forEach` of `disableItems` over the chosen items. */
    method DisableEach(targets: seq<EditableElement>)
      requires DistinctOverlays(items + targets)
      modifies targets, set t | t in targets :: t.overlay
      ensures forall t :: t in targets ==> Disabled(t)
      ensures forall t :: t in items && t !in targets ==> Untouched(t)
    {
      OutsideOverlays(items, targets);
      var k := 0;
      while k < |targets|
        invariant 0 <= k <= |targets|
        invariant forall j :: 0 <= j < k ==> Disabled(targets[j])
        invariant forall j :: k <= j < |targets| && targets[j] !in targets[..k] ==> Untouched(targets[j])
      {
        var t := targets[k];
        OthersKeepTheirOverlays(items, targets, k);
        DisableItem(t);
        assert Disabled(t);
        k := k + 1;
      }
    }

    /**
     * `removeItems`: every selected item stops being observed and has its
     * overlay detached; the store keeps, in order, the items not selected.
     */
    method RemoveItems(selected: Option<seq<EditableElement>>)
      requires DistinctOverlays(items + Selection(selected))
      modifies this, Selection(selected), set t | t in Selection(selected) :: t.overlay
      ensures items == Without(old(items), old(Selection(selected)))
      ensures forall t :: t in old(Selection(selected)) ==> Removed(t)
      ensures forall t :: t in old(items) && t !in old(Selection(selected)) ==> Untouched(t)
      ensures old(UniqueElements(items)) ==> UniqueElements(items)
      ensures old(DistinctOverlays(items)) ==> DistinctOverlays(items)
    {
      var targets := Selection(selected);
      RemoveEach(targets);
      WithoutKeepsRegistry(items, targets);
      items := Without(items, targets);
    }

    /** The `forEach` of `removeItems` over the chosen items. */
    method RemoveEach(targets: seq<EditableElement>)
      requires DistinctOverlays(items + targets)
      modifies targets, set t | t in targets :: t.overlay
      ensures forall t :: t in targets ==> Removed(t)
      ensures forall t :: t in items && t !in targets ==> Untouched(t)
    {
      OutsideOverlays(items, targets);
      var k := 0;
      while k < |targets|
        invariant 0 <= k <= |targets|
        invariant forall j :: 0 <= j < k ==> Removed(targets[j])
        invariant forall j :: k <= j < |targets| && targets[j] !in targets[..k] ==> Untouched(targets[j])
      {
        var t := targets[k];
        OthersKeepTheirOverlays(items, targets, k);
        RemoveItem(t);
        assert Removed(t);
        k := k + 1;
      }
    }
  }

  // ---------------------------------------------------------------------------
  // Properties of the registry operations

  /** Removal keeps the relative order: it distributes over concatenation. */
  lemma {:induction false} WithoutAppend(a: seq<EditableElement>, b: seq<EditableElement>, selected: seq<EditableElement>)
    ensures Without(a + b, selected) == Without(a, selected) + Without(b, selected)
  {
    if |a| == 0 {
      assert a + b == b;
    } else {
      assert (a + b)[1..] == a[1..] + b;
      WithoutAppend(a[1..], b, selected);
    }
  }

  /**
   * The default selection of `disableItems` keeps store order: it distributes
   * over concatenation, so each item not disabled appears once per occurrence
   * in the store, in place.
   */
  lemma {:induction false} NotDisabledAppend(a: seq<EditableElement>, b: seq<EditableElement>)
    ensures NotDisabled(a + b) == NotDisabled(a) + NotDisabled(b)
  {
    if |a| == 0 {
      assert a + b == b;
    } else {
      assert (a + b)[0] == a[0];
      assert (a + b)[1..] == a[1..] + b;
      NotDisabledAppend(a[1..], b);
    }
  }

  /**
   * Removal keeps the registry's invariants, so a later `apply` may rely on
   * them after `remove`.
   */
  lemma {:induction false} WithoutKeepsRegistry(xs: seq<EditableElement>, selected: seq<EditableElement>)
    ensures UniqueElements(xs) ==> UniqueElements(Without(xs, selected))
    ensures DistinctOverlays(xs) ==> DistinctOverlays(Without(xs, selected))
  {
    if |xs| > 0 {
      WithoutKeepsRegistry(xs[1..], selected);
      var rest := Without(xs[1..], selected);
      if UniqueElements(xs) {
        assert UniqueElements(xs[1..]) by {
          forall i, j | 0 <= i < |xs| - 1 && 0 <= j < |xs| - 1 && xs[1..][i].element == xs[1..][j].element
            ensures i == j
          {
            assert xs[i + 1].element == xs[j + 1].element;
          }
        }
        forall k | 0 <= k < |rest|
          ensures rest[k].element != xs[0].element
        {
          var m :| 0 <= m < |xs| - 1 && xs[1..][m] == rest[k];
          assert xs[m + 1] == rest[k];
        }
      }
    }
  }

  /** On a single item, removal keeps it exactly when it is not selected. */
  lemma WithoutSingle(x: EditableElement, selected: seq<EditableElement>)
    ensures Without([x], selected) == if x in selected then [] else [x]
  {
    assert [x][1..] == [];
  }

  /** Removing the same selection twice leaves the store as the first removal did. */
  lemma {:induction false} WithoutIdempotent(xs: seq<EditableElement>, selected: seq<EditableElement>)
    ensures Without(Without(xs, selected), selected) == Without(xs, selected)
  {
    if |xs| > 0 {
      WithoutIdempotent(xs[1..], selected);
      var rest := Without(xs[1..], selected);
      if xs[0] in selected {
        assert Without(xs, selected) == rest;
      } else {
        var r := Without(xs, selected);
        assert r == [xs[0]] + rest;
        assert r[0] == xs[0] && r[1..] == rest;
        assert Without(r, selected) == [xs[0]] + Without(rest, selected);
      }
    }
  }

  /** Every item of `xs` being selected leaves nothing behind. */
  lemma {:induction false} WithoutSubset(xs: seq<EditableElement>, selected: seq<EditableElement>)
    requires forall k :: 0 <= k < |xs| ==> xs[k] in selected
    ensures Without(xs, selected) == []
  {
    if |xs| > 0 {
      WithoutSubset(xs[1..], selected);
    }
  }

  /** Removing everything empties the store; removing nothing keeps it. */
  lemma {:induction false} WithoutAllOrNothing(xs: seq<EditableElement>)
    ensures Without(xs, xs) == []
    ensures Without(xs, []) == xs
  {
    WithoutSubset(xs, xs);
    if |xs| > 0 {
      WithoutAllOrNothing(xs[1..]);
      assert Without(xs, []) == [xs[0]] + xs[1..];
    }
  }
}
