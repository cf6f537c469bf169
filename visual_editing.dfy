/**
 * The entry points of the library (src/index.ts): `apply` connects to the
 * parent frame, registers the queried elements and returns a handle scoped to
 * them; `remove` and `disable` act on the whole registry; `setAttr` builds a
 * marker. The registry and the frame are passed explicitly; the handshake's
 * later confirmation, the UUID supply and element rectangles are inputs.
 */
module VisualEditing {
  import opened Base
  import opened EditAttr
  import opened EditAttrProperties
  import opened ElementQuery
  import opened Overlay
  import opened Frame
  import opened Editable
  import opened Store

  /** The `checkFieldAccess` record of a new item; missing `fields` become `[]`. */
  function AccessRecord(item: EditableElement): FieldAccess
  {
    FieldAccess(item.key, item.editConfig.collection, item.editConfig.item,
                if item.editConfig.fields.Some? then item.editConfig.fields.value else [])
  }

  function AccessRecords(items: seq<EditableElement>): (r: seq<FieldAccess>)
    ensures |r| == |items|
    ensures forall k :: 0 <= k < |items| ==> r[k] == AccessRecord(items[k])
  {
    seq(|items|, k requires 0 <= k < |items| => AccessRecord(items[k]))
  }

  /** The object `apply` returns: `remove`, `enable` and `disable` on its own items only. */
  class Handle {
    const store: EditableStore
    const scoped: seq<EditableElement>

    constructor (store: EditableStore, scoped: seq<EditableElement>)
      ensures this.store == store && this.scoped == scoped
    {
      this.store := store;
      this.scoped := scoped;
    }

    method Remove()
      requires DistinctOverlays(store.items + scoped)
      modifies store, scoped, set t | t in scoped :: t.overlay
      ensures store.items == Without(old(store.items), scoped)
      ensures forall t :: t in scoped ==> Removed(t)
      ensures forall t :: t in old(store.items) && t !in scoped ==> Untouched(t)
      ensures old(UniqueElements(store.items)) ==> UniqueElements(store.items)
      ensures old(DistinctOverlays(store.items)) ==> DistinctOverlays(store.items)
    {
      store.RemoveItems(Some(scoped));
    }

    method Enable()
      requires DistinctOverlays(store.items + scoped)
      modifies scoped, set t | t in scoped :: t.overlay
      ensures store.items == old(store.items)
      ensures forall t :: t in scoped ==> Enabled(t)
      ensures forall t :: t in store.items && t !in scoped ==> Untouched(t)
    {
      store.EnableItems(Some(scoped));
    }

    method Disable()
      requires DistinctOverlays(store.items + scoped)
      modifies scoped, set t | t in scoped :: t.overlay
      ensures store.items == old(store.items)
      ensures forall t :: t in scoped ==> Disabled(t)
      ensures forall t :: t in store.items && t !in scoped ==> Untouched(t)
    {
      var _ := store.DisableItems(Some(scoped));
    }
  }

  /** The object module `disable()` returns: its `enable` acts on exactly the items that call disabled. */
  class Reenabler {
    const store: EditableStore
    const items: seq<EditableElement>

    constructor (store: EditableStore, items: seq<EditableElement>)
      ensures this.store == store && this.items == items
    {
      this.store := store;
      this.items := items;
    }

    method Enable()
      requires DistinctOverlays(store.items + items)
      modifies items, set t | t in items :: t.overlay
      ensures store.items == old(store.items)
      ensures forall t :: t in items ==> Enabled(t)
      ensures forall t :: t in store.items && t !in items ==> Untouched(t)
    {
      store.EnableItems(Some(items));
    }
  }

  /**
   * What a successful `apply` leaves behind: a handle on this store whose
   * scoped items are those `Merged` describes. That the handle and the
   * created items are new is stated by `Apply` and `Attach` beside it.
   */
  predicate Applied(store: EditableStore, h: Handle, before: seq<EditableElement>, queried: seq<Element>,
                    customClass: Option<string>, onSaved: Option<CallbackId>,
                    freshKey: nat -> string, rectOf: ElemId -> Rect)
    reads store, h, store.items, set t | t in store.items :: t.overlay, h.scoped, set t | t in h.scoped :: t.overlay
  {
    h.store == store && Merged(store, h.scoped, before, queried, customClass, onSaved, freshKey, rectOf)
  }

  /**
   * The registry after `apply`'s loop, relative to the registry `before` it:
   * the registry only grows, by the created items at its end; each queried
   * element's lookup finds the scoped item at the same position, which is
   * the item registered before if there was one; every scoped item carries
   * the options; each created item has the next key of `freshKey`, was not
   * registered before, and is the scoped item of a queried element in the
   * state `CreatedFrom` describes (configuration parsed from the marker,
   * rectangle `rectOf` of the element, enabled, observed, overlay placed
   * there).
   */
  predicate Merged(store: EditableStore, scoped: seq<EditableElement>, before: seq<EditableElement>,
                   queried: seq<Element>, customClass: Option<string>, onSaved: Option<CallbackId>,
                   freshKey: nat -> string, rectOf: ElemId -> Rect)
    reads store, store.items, set t | t in store.items :: t.overlay, scoped, set t | t in scoped :: t.overlay
  {
    && |store.items| >= |before|
    && store.items[..|before|] == before
    && |scoped| == |queried|
    && (forall k :: 0 <= k < |queried| ==>
          && scoped[k].element == queried[k].id
          && store.GetItem(queried[k].id) == Some(scoped[k])
          && (FindIndex(before, queried[k].id).Some? ==> scoped[k] == before[FindIndex(before, queried[k].id).value])
          && HasOptions(scoped[k], customClass, onSaved))
    && (var created := store.items[|before|..];
        forall k :: 0 <= k < |created| ==>
          && created[k].key == freshKey(k)
          && FindIndex(before, created[k].element).None?
          && CreatedForQueried(created[k], queried, scoped, rectOf, customClass, onSaved))
  }

  /** The `checkFieldAccess` message `apply` posts for the items it created, if any. */
  function AccessReport(created: seq<EditableElement>, directusUrl: string): (r: seq<Posted>)
    ensures |r| <= 1
    ensures r == [] <==> created == []
    ensures r != [] ==>
      (r[0].targetOrigin == directusUrl && r[0].message.CheckFieldAccessMessage? && |r[0].message.items| == |created|)
  {
    if |created| > 0 then [Posted(CheckFieldAccessMessage(AccessRecords(created)), directusUrl)] else []
  }

  /**
   * `apply`. Returns no handle, and leaves the registry alone, when `connect`
   * fails or the confirmation does not arrive within the ten checks
   * (`observed(i)` is the `confirmed` flag at the i-th check). A frame that
   * is already confirmed, as after an earlier `apply`, passes at the first
   * check; otherwise the parent's `confirm` message (with `confirmData`)
   * confirms the frame and sets its AI flag. Otherwise each
   * queried element reuses its registered item or gets a new one, appended to
   * the registry with the next key of `freshKey`; every scoped item gets the
   * options; the new items are reported in one `checkFieldAccess` message.
   */
  method Apply(store: EditableStore, frame: DirectusFrame, directusUrl: string,
               page: seq<Element>, elements: Option<seq<Candidate>>,
               customClass: Option<string>, onSaved: Option<CallbackId>,
               observed: nat -> bool, confirmData: Json, freshKey: nat -> string, rectOf: ElemId -> Rect)
    returns (handle: Option<Handle>)
    requires observed(0) == frame.confirmed
    requires UniqueElements(store.items) && DistinctOverlays(store.items)
    modifies store, frame`origin, frame`posted, frame`confirmed, frame`aiEnabled, store.items, set t | t in store.items :: t.overlay
    ensures frame.origin == Some(directusUrl)
    ensures handle.None? ==> store.items == old(store.items)
    ensures handle.None? ==> forall t :: t in old(store.items) ==> Untouched(t)
    ensures handle.None? ==> frame.confirmed == old(frame.confirmed) && frame.aiEnabled == old(frame.aiEnabled)
    ensures handle.Some? ==> frame.confirmed
    ensures handle.Some? && !old(frame.confirmed) ==> frame.aiEnabled == AiEnabledIn(confirmData)
    ensures old(frame.confirmed) ==> frame.aiEnabled == old(frame.aiEnabled)
    ensures old(frame.confirmed) && frame.AcceptsTarget(directusUrl) ==> handle.Some?
    ensures !frame.AcceptsTarget(directusUrl) ==> handle.None? && frame.posted == old(frame.posted)
    ensures frame.AcceptsTarget(directusUrl) && !(exists i :: 0 <= i < MaxAttempts && observed(i)) ==>
      handle.None? && frame.posted == old(frame.posted) + [Posted(ConnectMessage, directusUrl)]
    ensures frame.AcceptsTarget(directusUrl) && (exists i :: 0 <= i < MaxAttempts && observed(i)) ==>
      handle.Some?
    ensures UniqueElements(store.items) && DistinctOverlays(store.items)
    ensures handle.Some? ==>
      && fresh(handle.value)
      && (forall k :: |old(store.items)| <= k < |store.items| ==> fresh(store.items[k]))
      && Applied(store, handle.value, old(store.items), Query(page, elements), customClass, onSaved, freshKey, rectOf)
      && frame.posted == old(frame.posted) + [Posted(ConnectMessage, directusUrl)] +
           AccessReport(store.items[|old(store.items)|..], directusUrl)
  {
    var connected := frame.Connect(directusUrl);
    if !connected {
      return None;
    }
    var confirmed, _ := frame.ReceiveConfirm(observed, confirmData);
    if !confirmed {
      return None;
    }
    var h := Attach(store, frame, directusUrl, Query(page, elements), customClass, onSaved, freshKey, rectOf);
    handle := Some(h);
  }

  /**
   * The part of `apply` after the handshake: register the queried elements,
   * report the new items to the editor, and scope a handle to the queried ones.
   */
  method Attach(store: EditableStore, frame: DirectusFrame, directusUrl: string, queried: seq<Element>,
                customClass: Option<string>, onSaved: Option<CallbackId>, freshKey: nat -> string, rectOf: ElemId -> Rect)
    returns (h: Handle)
    requires forall k :: 0 <= k < |queried| ==> Marked(queried[k])
    requires frame.origin == Some(directusUrl) && frame.AcceptsTarget(directusUrl)
    requires UniqueElements(store.items) && DistinctOverlays(store.items)
    modifies store, frame`posted, store.items, set t | t in store.items :: t.overlay
    ensures UniqueElements(store.items) && DistinctOverlays(store.items)
    ensures fresh(h) && forall k :: |old(store.items)| <= k < |store.items| ==> fresh(store.items[k])
    ensures Applied(store, h, old(store.items), queried, customClass, onSaved, freshKey, rectOf)
    ensures frame.posted == old(frame.posted) + AccessReport(store.items[|old(store.items)|..], directusUrl)
  {
    var scoped, created := Register(store, queried, customClass, onSaved, freshKey, rectOf);
    h := new Handle(store, scoped);
    if |created| > 0 {
      var _ := frame.Send(CheckFieldAccessMessage(AccessRecords(created)));
    }
  }

  /** An item carries the options `apply` was given: the `onSaved` callback if any, the custom class if valid. */
  predicate HasOptions(t: EditableElement, customClass: Option<string>, onSaved: Option<CallbackId>)
    reads t, t.overlay
  {
    && (onSaved.Some? ==> t.onSaved == onSaved)
    && (customClass.Some? && ValidClassName(customClass.value) ==> customClass.value in t.overlay.classes)
  }

  /**
   * The state of an item `apply` created for `el` and then gave the options:
   * its configuration parsed from the marker, the element's rectangle, not
   * hovered, enabled, observed and listening for hover, with the given
   * `onSaved` (or none), and an overlay placed at the rectangle carrying the
   * custom class when it is valid.
   */
  predicate CreatedFrom(t: EditableElement, el: Element, rect: Rect,
                        customClass: Option<string>, onSaved: Option<CallbackId>)
    reads t, t.overlay
  {
    && Marked(el)
    && t.element == el.id
    && t.editConfig == ParseEditAttr(el.marker.value)
    && t.rect == rect && !t.hover && !t.disabled
    && t.observing && t.hoverListening
    && t.onSaved == onSaved
    && t.overlay.State() == AfterSetCustomClass(AfterUpdateRect(FreshOverlay, rect), customClass)
  }

  /** Every item of `xs` carries the options. */
  predicate AllHaveOptions(xs: seq<EditableElement>, customClass: Option<string>, onSaved: Option<CallbackId>)
    reads xs, set t | t in xs :: t.overlay
  {
    forall k :: 0 <= k < |xs| ==> HasOptions(xs[k], customClass, onSaved)
  }

  /** The objects an item owns: itself and its overlay. */
  function Footprint(item: Option<EditableElement>): set<object>
  {
    if item.Some? then {item.value, item.value.overlay} else {}
  }

  /**
   * One step of `apply`'s loop: reuse the element's item or create and append
   * one, then apply the options. The ghost `scoped` and `created` are the
   * items earlier steps of the same `apply` scoped and created; the scoped
   * keep their options and the created their state, since an item given the
   * same options twice is as if given them once.
   */
  method RegisterOne(store: EditableStore, el: Element, customClass: Option<string>, onSaved: Option<CallbackId>,
                     key: string, rect: Rect,
                     ghost scoped: seq<EditableElement>, ghost created: seq<EditableElement>,
                     ghost firstAt: seq<nat>, ghost queried: seq<Element>, rectOf: ElemId -> Rect)
    returns (item: EditableElement, isNew: bool)
    requires Marked(el)
    requires UniqueElements(store.items) && DistinctOverlays(store.items)
    requires forall k :: 0 <= k < |scoped| ==> scoped[k] in store.items
    requires forall k :: 0 <= k < |created| ==> created[k] in store.items
    requires AllHaveOptions(scoped, customClass, onSaved)
    requires CreatedStates(created, firstAt, queried, rectOf, customClass, onSaved)
    modifies store, Footprint(store.GetItem(el.id))
    ensures isNew <==> old(store.GetItem(el.id)).None?
    ensures !isNew ==> item == old(store.GetItem(el.id)).value && store.items == old(store.items)
    ensures isNew ==> fresh(item) && fresh(item.overlay) && item.key == key && store.items == old(store.items) + [item]
    ensures isNew ==> CreatedFrom(item, el, rect, customClass, onSaved)
    ensures !isNew ==>
      && item.rect == old(item.rect) && item.hover == old(item.hover) && item.disabled == old(item.disabled)
      && item.observing == old(item.observing) && item.hoverListening == old(item.hoverListening)
      && item.onSaved == (if onSaved.Some? then onSaved else old(item.onSaved))
      && item.overlay.State() == AfterSetCustomClass(old(item.overlay.State()), customClass)
    ensures item.element == el.id && item in store.items
    ensures !isNew ==> FindIndex(store.items, el.id).Some? && store.items[FindIndex(store.items, el.id).value] == item
    ensures UniqueElements(store.items) && DistinctOverlays(store.items)
    ensures AllHaveOptions(scoped + [item], customClass, onSaved)
    ensures forall j :: 0 <= j < |old(store.items)| && old(store.items)[j] != item ==> Untouched(old(store.items)[j])
    ensures CreatedStates(created, firstAt, queried, rectOf, customClass, onSaved)
  {
    var existing := store.GetItem(el.id);
    if existing.Some? {
      item := existing.value;
      isNew := false;
    } else {
      item := new EditableElement(el, key, rect);
      NewItemKeepsInvariants(store.items, item);
      store.AddItem(item);
      isNew := true;
    }
    ApplyOptionsAmong(item, customClass, onSaved, store.items, scoped, created, firstAt, queried, rectOf);
  }

  /**
   * `item.applyOptions(options)` inside `apply`'s loop, among the registry's
   * `items`: the other items are left alone, the items scoped so far keep
   * their options, and the items created so far keep their state, the
   * visited item included when it is one of them.
   */
  method ApplyOptionsAmong(item: EditableElement, customClass: Option<string>, onSaved: Option<CallbackId>,
                           ghost items: seq<EditableElement>, ghost scoped: seq<EditableElement>,
                           ghost created: seq<EditableElement>, ghost firstAt: seq<nat>, ghost queried: seq<Element>,
                           rectOf: ElemId -> Rect)
    requires item in items && DistinctOverlays(items)
    requires forall k :: 0 <= k < |scoped| ==> scoped[k] in items
    requires forall k :: 0 <= k < |created| ==> created[k] in items
    requires AllHaveOptions(scoped, customClass, onSaved)
    requires CreatedStates(created, firstAt, queried, rectOf, customClass, onSaved)
    modifies item`onSaved, item.overlay
    ensures item.onSaved == (if onSaved.Some? then onSaved else old(item.onSaved))
    ensures item.overlay.State() == AfterSetCustomClass(old(item.overlay.State()), customClass)
    ensures AllHaveOptions(scoped + [item], customClass, onSaved)
    ensures CreatedStates(created, firstAt, queried, rectOf, customClass, onSaved)
    ensures forall j :: 0 <= j < |items| && items[j] != item ==> Untouched(items[j])
  {
    OverlayOwner(items, item);
    item.ApplyOptions(customClass, onSaved);
    forall k | 0 <= k < |created| && created[k] == item
      ensures CreatedFrom(created[k], queried[firstAt[k]], rectOf(queried[firstAt[k]].id), customClass, onSaved)
    {
      CustomClassIdempotent(AfterUpdateRect(FreshOverlay, rectOf(queried[firstAt[k]].id)), customClass);
    }
  }

  /**
   * What `apply`'s loop has established after `i` elements, stated on values:
   * the registry `items` is the registry `before` the loop followed by the
   * `created` items, which carry consecutive keys of `freshKey` and are all
   * scoped; the `k`-th scoped item is the `k`-th queried element's and sits
   * at `pos[k]` in the registry.
   */
  ghost predicate Progress(items: seq<EditableElement>, queried: seq<Element>, i: nat,
                           scoped: seq<EditableElement>, created: seq<EditableElement>, pos: seq<nat>,
                           before: seq<EditableElement>, freshKey: nat -> string)
  {
    && i <= |queried| && |scoped| == i && |pos| == i
    && items == before + created
    && (forall k :: 0 <= k < i ==>
          && pos[k] < |items| && items[pos[k]] == scoped[k]
          && scoped[k].element == queried[k].id)
    && (forall k :: 0 <= k < |created| ==> created[k].key == freshKey(k) && created[k] in scoped)
  }

  /** One more element processed keeps `Progress`. */
  lemma ProgressStep(items: seq<EditableElement>, items': seq<EditableElement>,
                     queried: seq<Element>, i: nat, scoped: seq<EditableElement>, created: seq<EditableElement>,
                     pos: seq<nat>, before: seq<EditableElement>, freshKey: nat -> string,
                     item: EditableElement, isNew: bool, p: nat)
    requires Progress(items, queried, i, scoped, created, pos, before, freshKey)
    requires i < |queried| && item.element == queried[i].id
    requires isNew ==> items' == items + [item] && item.key == freshKey(|created|) && p == |items|
    requires !isNew ==> items' == items && p < |items| && items[p] == item
    ensures Progress(items', queried, i + 1, scoped + [item], if isNew then created + [item] else created,
                     pos + [p], before, freshKey)
  {
    var scoped' := scoped + [item];
    var created' := if isNew then created + [item] else created;
    forall k | 0 <= k < |created'|
      ensures created'[k].key == freshKey(k) && created'[k] in scoped'
    {
      if k < |created| {
        assert created'[k] == created[k];
      }
    }
    forall k | 0 <= k < i + 1
      ensures (pos + [p])[k] < |items'| && items'[(pos + [p])[k]] == scoped'[k]
    {
      if k < i {
        assert items'[pos[k]] == items[pos[k]];
      }
    }
  }

  /** `Progress` on the registry as it is now, which keeps its invariants. */
  ghost predicate Registered(store: EditableStore, queried: seq<Element>, i: nat,
                             scoped: seq<EditableElement>, created: seq<EditableElement>, pos: seq<nat>,
                             before: seq<EditableElement>,
                             customClass: Option<string>, onSaved: Option<CallbackId>, freshKey: nat -> string)
    reads store, store.items, set t | t in store.items :: t.overlay
  {
    && UniqueElements(store.items) && DistinctOverlays(store.items)
    && Progress(store.items, queried, i, scoped, created, pos, before, freshKey)
  }

  /** Every item the loop created is the one scoped for the element at `firstAt`, where it was created. */
  ghost predicate FirstSeen(created: seq<EditableElement>, firstAt: seq<nat>, scoped: seq<EditableElement>)
  {
    && |firstAt| == |created|
    && forall k :: 0 <= k < |created| ==> firstAt[k] < |scoped| && scoped[firstAt[k]] == created[k]
  }

  /** Every item the loop created is in the state `CreatedFrom` the element at `firstAt` describes. */
  ghost predicate CreatedStates(created: seq<EditableElement>, firstAt: seq<nat>, queried: seq<Element>,
                                rectOf: ElemId -> Rect, customClass: Option<string>, onSaved: Option<CallbackId>)
    reads created, set t | t in created :: t.overlay
  {
    && |firstAt| == |created|
    && forall k :: 0 <= k < |created| ==>
         firstAt[k] < |queried| &&
         CreatedFrom(created[k], queried[firstAt[k]], rectOf(queried[firstAt[k]].id), customClass, onSaved)
  }

  /**
   * `t` is the item scoped for some queried element, and is in the state
   * `CreatedFrom` that element describes.
   */
  predicate CreatedForQueried(t: EditableElement, queried: seq<Element>, scoped: seq<EditableElement>,
                              rectOf: ElemId -> Rect, customClass: Option<string>, onSaved: Option<CallbackId>)
    reads t, t.overlay
  {
    exists j :: 0 <= j < |queried| && j < |scoped| && scoped[j] == t &&
                CreatedFrom(t, queried[j], rectOf(queried[j].id), customClass, onSaved)
  }

  /** Each created item is scoped for some queried element and is in the state that element describes. */
  lemma CreatedWhereScoped(created: seq<EditableElement>, firstAt: seq<nat>, scoped: seq<EditableElement>,
                           queried: seq<Element>, rectOf: ElemId -> Rect,
                           customClass: Option<string>, onSaved: Option<CallbackId>)
    requires FirstSeen(created, firstAt, scoped) && |scoped| == |queried|
    requires CreatedStates(created, firstAt, queried, rectOf, customClass, onSaved)
    ensures forall k :: 0 <= k < |created| ==>
      CreatedForQueried(created[k], queried, scoped, rectOf, customClass, onSaved)
  {
    forall k | 0 <= k < |created|
      ensures CreatedForQueried(created[k], queried, scoped, rectOf, customClass, onSaved)
    {
      var j := firstAt[k];
      assert 0 <= j < |queried| && scoped[j] == created[k];
    }
  }

  /** Recording the `i`-th element's new item keeps `FirstSeen`. */
  lemma FirstSeenStep(created: seq<EditableElement>, firstAt: seq<nat>, scoped: seq<EditableElement>,
                      item: EditableElement, isNew: bool)
    requires FirstSeen(created, firstAt, scoped)
    ensures FirstSeen(if isNew then created + [item] else created, if isNew then firstAt + [|scoped|] else firstAt,
                      scoped + [item])
  {
    var created' := if isNew then created + [item] else created;
    var firstAt' := if isNew then firstAt + [|scoped|] else firstAt;
    forall k | 0 <= k < |created'|
      ensures firstAt'[k] < |scoped| + 1 && (scoped + [item])[firstAt'[k]] == created'[k]
    {
      if k < |created| {
        assert created'[k] == created[k] && firstAt'[k] == firstAt[k];
      }
    }
  }

  /** Recording the `i`-th element's new item, in the state that element describes, keeps `CreatedStates`. */
  lemma CreatedStatesStep(created: seq<EditableElement>, firstAt: seq<nat>, queried: seq<Element>, i: nat,
                          rectOf: ElemId -> Rect, customClass: Option<string>, onSaved: Option<CallbackId>,
                          item: EditableElement, isNew: bool)
    requires CreatedStates(created, firstAt, queried, rectOf, customClass, onSaved)
    requires i < |queried|
    requires isNew ==> CreatedFrom(item, queried[i], rectOf(queried[i].id), customClass, onSaved)
    ensures CreatedStates(if isNew then created + [item] else created, if isNew then firstAt + [i] else firstAt,
                          queried, rectOf, customClass, onSaved)
  {
    var created' := if isNew then created + [item] else created;
    var firstAt' := if isNew then firstAt + [i] else firstAt;
    forall k | 0 <= k < |created'|
      ensures firstAt'[k] < |queried|
      ensures CreatedFrom(created'[k], queried[firstAt'[k]], rectOf(queried[firstAt'[k]].id), customClass, onSaved)
    {
      if k < |created| {
        assert created'[k] == created[k] && firstAt'[k] == firstAt[k];
      }
    }
  }

  /**
   * One pass of `apply`'s loop: `RegisterOne` on the `i`-th queried element,
   * with what the loop has established carried over to the next element.
   */
  method Step(store: EditableStore, queried: seq<Element>, i: nat,
              customClass: Option<string>, onSaved: Option<CallbackId>, freshKey: nat -> string, rectOf: ElemId -> Rect,
              ghost scoped: seq<EditableElement>, created: seq<EditableElement>, ghost pos: seq<nat>,
              ghost before: seq<EditableElement>, ghost firstAt: seq<nat>)
    returns (item: EditableElement, isNew: bool, ghost p: nat, created': seq<EditableElement>, ghost firstAt': seq<nat>)
    requires i < |queried| && Marked(queried[i])
    requires Registered(store, queried, i, scoped, created, pos, before, customClass, onSaved, freshKey)
    requires FirstSeen(created, firstAt, scoped)
    requires AllHaveOptions(scoped, customClass, onSaved)
    requires CreatedStates(created, firstAt, queried, rectOf, customClass, onSaved)
    modifies store, Footprint(store.GetItem(queried[i].id))
    ensures created' == if isNew then created + [item] else created
    ensures isNew ==> fresh(item) && fresh(item.overlay)
    ensures Registered(store, queried, i + 1, scoped + [item], created', pos + [p], before, customClass, onSaved, freshKey)
    ensures FirstSeen(created', firstAt', scoped + [item])
    ensures AllHaveOptions(scoped + [item], customClass, onSaved)
    ensures CreatedStates(created', firstAt', queried, rectOf, customClass, onSaved)
  {
    ghost var items := store.items;
    CreatedAreRegistered(items, before, created);
    ScopedAreRegistered(items, queried, i, scoped, created, pos, before, freshKey);
    item, isNew := RegisterOne(store, queried[i], customClass, onSaved, freshKey(|created|), rectOf(queried[i].id),
                               scoped, created, firstAt, queried, rectOf);
    assert isNew ==> CreatedFrom(item, queried[i], rectOf(queried[i].id), customClass, onSaved);
    FirstSeenStep(created, firstAt, scoped, item, isNew);
    CreatedStatesStep(created, firstAt, queried, i, rectOf, customClass, onSaved, item, isNew);
    p := if isNew then |items| else FindIndex(store.items, queried[i].id).value;
    ProgressStep(items, store.items, queried, i, scoped, created, pos, before, freshKey, item, isNew, p);
    created' := if isNew then created + [item] else created;
    firstAt' := if isNew then firstAt + [i] else firstAt;
  }

  /**
   * The loop of `apply` over the queried elements: look the element up, create
   * and append an item only when the lookup misses, apply the options, and
   * collect the scoped and the new items.
   */
  method Register(store: EditableStore, queried: seq<Element>,
                  customClass: Option<string>, onSaved: Option<CallbackId>,
                  freshKey: nat -> string, rectOf: ElemId -> Rect)
    returns (scoped: seq<EditableElement>, created: seq<EditableElement>)
    requires forall k :: 0 <= k < |queried| ==> Marked(queried[k])
    requires UniqueElements(store.items) && DistinctOverlays(store.items)
    modifies store, store.items, set t | t in store.items :: t.overlay
    ensures store.items == old(store.items) + created
    ensures UniqueElements(store.items) && DistinctOverlays(store.items)
    ensures forall k :: 0 <= k < |created| ==> fresh(created[k])
    ensures Merged(store, scoped, old(store.items), queried, customClass, onSaved, freshKey, rectOf)
  {
    ghost var before := store.items;
    ghost var pos, firstAt;
    scoped, created, pos, firstAt := RegisterLoop(store, queried, customClass, onSaved, freshKey, rectOf);
    Lookups(store.items, queried, scoped, created, pos, before, freshKey);
    CreatedWhereScoped(created, firstAt, scoped, queried, rectOf, customClass, onSaved);
  }

  /**
   * After the loop, in a registry without duplicate elements: each queried
   * element's lookup finds its scoped item, an element registered before
   * keeps its item, and no created item's element was registered before.
   */
  lemma Lookups(items: seq<EditableElement>, queried: seq<Element>, scoped: seq<EditableElement>,
                created: seq<EditableElement>, pos: seq<nat>, before: seq<EditableElement>, freshKey: nat -> string)
    requires Progress(items, queried, |queried|, scoped, created, pos, before, freshKey)
    requires UniqueElements(items)
    ensures forall k :: 0 <= k < |queried| ==> FindIndex(items, queried[k].id) == Some(pos[k])
    ensures forall k :: 0 <= k < |queried| && FindIndex(before, queried[k].id).Some? ==>
      scoped[k] == before[FindIndex(before, queried[k].id).value]
    ensures forall k :: 0 <= k < |created| ==> FindIndex(before, created[k].element).None?
  {
    forall k | 0 <= k < |queried|
      ensures FindIndex(items, queried[k].id) == Some(pos[k])
    {
      LookupUnique(items, pos[k]);
    }
    forall k | 0 <= k < |queried| && FindIndex(before, queried[k].id).Some?
      ensures scoped[k] == before[FindIndex(before, queried[k].id).value]
    {
      KeptItem(items, before, queried[k].id, pos[k]);
    }
    forall k | 0 <= k < |created|
      ensures FindIndex(before, created[k].element).None?
    {
      CreatedWasNew(items, before, |before| + k);
    }
  }

  /** An element found in a prefix of a registry without duplicates is found at the same item in the whole. */
  lemma KeptItem(items: seq<EditableElement>, before: seq<EditableElement>, e: ElemId, p: nat)
    requires UniqueElements(items) && |before| <= |items| && items[..|before|] == before
    requires p < |items| && items[p].element == e
    ensures FindIndex(before, e).Some? ==> FindIndex(before, e).value == p
  {
    if FindIndex(before, e).Some? {
      var j := FindIndex(before, e).value;
      assert items[j] == before[j];
    }
  }

  /** An item past a prefix of a registry without duplicates has an element the prefix lacks. */
  lemma CreatedWasNew(items: seq<EditableElement>, before: seq<EditableElement>, p: nat)
    requires UniqueElements(items) && |before| <= p < |items| && items[..|before|] == before
    ensures FindIndex(before, items[p].element).None?
  {
    forall j | 0 <= j < |before|
      ensures before[j].element != items[p].element
    {
      assert items[j] == before[j];
    }
  }

  /** The items the loop scoped are in the registry. */
  lemma ScopedAreRegistered(items: seq<EditableElement>, queried: seq<Element>, i: nat,
                            scoped: seq<EditableElement>, created: seq<EditableElement>, pos: seq<nat>,
                            before: seq<EditableElement>, freshKey: nat -> string)
    requires Progress(items, queried, i, scoped, created, pos, before, freshKey)
    ensures forall k :: 0 <= k < |scoped| ==> scoped[k] in items
  {
    forall k | 0 <= k < |scoped|
      ensures scoped[k] in items
    {
      assert items[pos[k]] == scoped[k];
    }
  }

  /** The items the loop created are in the registry it appended them to. */
  lemma CreatedAreRegistered(items: seq<EditableElement>, before: seq<EditableElement>, created: seq<EditableElement>)
    requires items == before + created
    ensures forall k :: 0 <= k < |created| ==> created[k] in items
  {
    forall k | 0 <= k < |created|
      ensures created[k] in items
    {
      assert created[k] == items[|before| + k];
    }
  }

  /** In a registry without duplicate elements, the lookup of an item's element finds that item. */
  lemma LookupUnique(xs: seq<EditableElement>, j: nat)
    requires UniqueElements(xs) && j < |xs|
    ensures FindIndex(xs, xs[j].element) == Some(j)
  {
  }

  /** The loop of `Register`, from an empty `Progress` to a complete one. */
  method RegisterLoop(store: EditableStore, queried: seq<Element>,
                      customClass: Option<string>, onSaved: Option<CallbackId>,
                      freshKey: nat -> string, rectOf: ElemId -> Rect)
    returns (scoped: seq<EditableElement>, created: seq<EditableElement>, ghost pos: seq<nat>, ghost firstAt: seq<nat>)
    requires forall k :: 0 <= k < |queried| ==> Marked(queried[k])
    requires Registered(store, queried, 0, [], [], [], store.items, customClass, onSaved, freshKey)
    modifies store, store.items, set t | t in store.items :: t.overlay
    ensures forall k :: 0 <= k < |created| ==> fresh(created[k]) && fresh(created[k].overlay)
    ensures Registered(store, queried, |queried|, scoped, created, pos, old(store.items),
                       customClass, onSaved, freshKey)
    ensures FirstSeen(created, firstAt, scoped)
    ensures AllHaveOptions(scoped, customClass, onSaved)
    ensures CreatedStates(created, firstAt, queried, rectOf, customClass, onSaved)
  {
    scoped := [];
    created := [];
    pos := [];
    firstAt := [];
    ghost var before := store.items;
    var i := 0;
    while i < |queried|
      invariant 0 <= i <= |queried|
      invariant forall k :: 0 <= k < |created| ==> fresh(created[k]) && fresh(created[k].overlay)
      invariant Registered(store, queried, i, scoped, created, pos, before, customClass, onSaved, freshKey)
      invariant FirstSeen(created, firstAt, scoped)
      invariant AllHaveOptions(scoped, customClass, onSaved)
      invariant CreatedStates(created, firstAt, queried, rectOf, customClass, onSaved)
    {
      ghost var previous := created;
      var item, isNew;
      ghost var p;
      item, isNew, p, created, firstAt := Step(store, queried, i, customClass, onSaved, freshKey, rectOf,
                                               scoped, created, pos, before, firstAt);
      forall k | 0 <= k < |created|
        ensures fresh(created[k]) && fresh(created[k].overlay)
      {
        if k < |previous| {
          assert created[k] == previous[k];
        } else {
          assert isNew && created[k] == item;
        }
      }
      pos := pos + [p];
      scoped := scoped + [item];
      i := i + 1;
    }
  }

  /** Module `remove()`: every item is cleaned up and the registry is emptied. */
  method RemoveAll(store: EditableStore)
    requires DistinctOverlays(store.items + store.items)
    modifies store, store.items, set t | t in store.items :: t.overlay
    ensures store.items == []
    ensures forall t :: t in old(store.items) ==> Removed(t)
  {
    WithoutAllOrNothing(store.items);
    store.RemoveItems(None);
  }

  /**
   * Module `disable()`: disables the items not yet disabled and returns an
   * object whose `enable` re-enables exactly those.
   */
  method DisableAll(store: EditableStore) returns (r: Reenabler)
    requires DistinctOverlays(store.items + store.items)
    modifies store.items, set t | t in store.items :: t.overlay
    ensures fresh(r) && r.store == store
    ensures r.items == old(NotDisabled(store.items))
    ensures store.items == old(store.items)
    ensures forall t :: t in r.items ==> Disabled(t)
    ensures forall t :: t in store.items && t !in r.items ==> Untouched(t)
  {
    var items := store.DisableItems(None);
    r := new Reenabler(store, items);
  }

  /**
   * Module `disable()` followed by its `enable()`: every item ends up with the
   * `disabled` flag it had before.
   */
  method DisableThenEnable(store: EditableStore)
    requires DistinctOverlays(store.items + store.items)
    modifies store.items, set t | t in store.items :: t.overlay
    ensures store.items == old(store.items)
    ensures forall k :: 0 <= k < |store.items| ==> store.items[k].disabled == old(store.items[k].disabled)
  {
    var r := DisableAll(store);
    label disabled:
    DistinctOverlaysWithin(store.items + store.items, store.items + r.items);
    r.Enable();
    forall k | 0 <= k < |store.items|
      ensures store.items[k].disabled == old(store.items[k].disabled)
    {
      var t := store.items[k];
      if t in r.items {
        assert !old(t.disabled);
      } else {
        assert old(t.disabled);
        assert old@disabled(t.disabled) == old(t.disabled);
      }
    }
  }

  /**
   * `setAttr`: the marker for the configuration's entries, in whatever order
   * the object holds its properties and with `fields` as a list or a string;
   * when the entries are those of a configuration with clean tokens, written
   * in declaration order, the marker parses back to that configuration.
   */
  method SetAttr(entries: seq<Entry>) returns (attr: string)
    ensures attr == EditAttrOf(entries)
    ensures forall cfg :: entries == Entries(cfg) && WellFormed(cfg) ==> ParseEditAttr(attr) == Expected(cfg)
  {
    attr := ObjectToEditAttr(entries);
    forall cfg | entries == Entries(cfg) && WellFormed(cfg)
      ensures ParseEditAttr(attr) == Expected(cfg)
    {
      RoundTrip(cfg);
    }
  }

  // ---------------------------------------------------------------------------
  // Registry facts used by `apply`

  /** Appending an item for an unregistered element, with its own new overlay, keeps both registry invariants. */
  lemma NewItemKeepsInvariants(xs: seq<EditableElement>, item: EditableElement)
    requires UniqueElements(xs) && DistinctOverlays(xs)
    requires forall k :: 0 <= k < |xs| ==> xs[k].element != item.element && xs[k].overlay != item.overlay
    ensures UniqueElements(xs + [item]) && DistinctOverlays(xs + [item])
  {
  }
}
