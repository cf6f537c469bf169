/**
 * `EditableElement` (src/lib/editable-element.ts): one marked element of the
 * page, its parsed edit configuration, its overlay and its per-element state.
 * The element is named by its identity; its bounding rectangle and its UUID key
 * are supplied by the caller; the rectangle observer is the `observing` flag.
 */
module Editable {
  import opened Base
  import opened EditAttr
  import opened ElementQuery
  import opened Overlay
  import opened Frame

  class EditableElement {
    const element: ElemId
    /** A unique key of this registration, not the item's primary key. */
    const key: string
    const editConfig: Parsed
    const overlay: OverlayElement

    var rect: Rect
    var hover: bool
    var disabled: bool
    var onSaved: Option<CallbackId>
    /** Whether the rectangle observer is running. */
    var observing: bool
    /** Whether the `mouseover`/`mouseleave` listeners are attached. */
    var hoverListening: bool

    /**
     * Registers a marked element: parses its marker, places a new overlay on
     * its rectangle and starts observing the rectangle.
     */
    constructor (el: Element, uuid: string, initialRect: Rect)
      requires Marked(el)
      ensures element == el.id && key == uuid
      ensures editConfig == ParseEditAttr(el.marker.value)
      ensures rect == initialRect && !hover && !disabled && onSaved.None?
      ensures observing && hoverListening
      ensures fresh(overlay)
      ensures overlay.State() == AfterUpdateRect(FreshOverlay, initialRect)
    {
      element := el.id;
      key := uuid;
      var parsed := EditAttrToObject(el.marker.value);
      editConfig := parsed;
      rect := initialRect;
      hover := false;
      disabled := false;
      onSaved := None;
      hoverListening := true;
      var o := new OverlayElement();
      o.UpdateRect(initialRect);
      overlay := o;
      observing := true;
    }

    /** `applyOptions`: sets the overlay's custom class and, when one is given, replaces `onSaved`. */
    method ApplyOptions(customClass: Option<string>, newOnSaved: Option<CallbackId>)
      modifies this`onSaved, overlay
      ensures overlay.State() == AfterSetCustomClass(old(overlay.State()), customClass)
      ensures onSaved == if newOnSaved.Some? then newOnSaved else old(onSaved)
    {
      overlay.SetCustomClass(customClass);
      if newOnSaved.Some? {
        onSaved := newOnSaved;
      }
    }

    /**
     * `removeHoverListener`: the listeners it passes were never added (fresh
     * bindings, and `mouseenter` where `mouseover` was added), so nothing is
     * detached.
     */
    method RemoveHoverListener()
      ensures hoverListening == old(hoverListening)
    {
    }

    /** `onClickEdit`: asks the parent frame to open the editor for this item. */
    method OnClickEdit(frame: DirectusFrame) returns (ok: bool)
      modifies frame`posted
      ensures ok <==> frame.origin.Some? && frame.AcceptsTarget(frame.origin.value)
      ensures frame.posted == if ok then old(frame.posted) + [Posted(EditMessage(key, editConfig, rect), frame.origin.value)]
                              else old(frame.posted)
    {
      ok := frame.Send(EditMessage(key, editConfig, rect));
    }

    /**
     * `toggleItemHover`: a hover event changes the flag and the overlay's hover
     * class only when it is this element's own event and the value is new.
     */
    method ToggleItemHover(newHover: bool, currentTarget: ElemId)
      modifies this`hover, overlay
      ensures currentTarget != element || old(hover) == newHover ==>
        hover == old(hover) && overlay.State() == old(overlay.State())
      ensures currentTarget == element && old(hover) != newHover ==>
        hover == newHover && overlay.State() == AfterToggleHover(old(overlay.State()), newHover)
    {
      if currentTarget != element || hover == newHover {
        return;
      }
      hover := newHover;
      overlay.ToggleHover(newHover);
    }

    /** `onObserveRect`: ignored while disabled; otherwise stores the rectangle and moves the overlay. */
    method OnObserveRect(r: Rect)
      modifies this`rect, overlay
      ensures disabled ==> rect == old(rect) && overlay.State() == old(overlay.State())
      ensures !disabled ==> rect == r && overlay.State() == AfterUpdateRect(old(overlay.State()), r)
    {
      if disabled {
        return;
      }
      rect := r;
      overlay.UpdateRect(r);
    }
  }
}
