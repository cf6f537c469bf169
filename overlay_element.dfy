/**
 * `OverlayElement` (src/lib/overlay-element.ts): the box drawn over an editable
 * element. Its style is abstracted to whether it is hidden (`display: none`) and
 * the rectangle whose width, height and `translate(left, top)` were last written;
 * its class list is a set of names; `remove()` detaches it from the document.
 */
module Overlay {
  import opened Base
  import opened JsString

  /** A `DOMRect` as far as the overlay uses it; coordinates are abstracted to integers. */
  datatype Rect = Rect(left: int, top: int, width: int, height: int)

  /** `rect.width !== 0 && rect.height !== 0`. */
  predicate HasDimensions(r: Rect)
  {
    r.width != 0 && r.height != 0
  }

  const HoverClassName: string := "directus-visual-editing-rect-hover"

  /** Everything an overlay method can change. */
  datatype OverlayState = OverlayState(
    noDimensions: bool,
    hidden: bool,        // style.display is 'none'
    placed: Option<Rect>, // the rectangle whose width/height/translate are in the style
    classes: set<string>,
    attached: bool)

  const FreshOverlay := OverlayState(false, false, None, {}, true)

  /** The state `updateRect(rect)` leaves behind. */
  function AfterUpdateRect(s: OverlayState, rect: Rect): OverlayState
  {
    if !s.noDimensions && !HasDimensions(rect) then s.(noDimensions := true, hidden := true)
    else if s.noDimensions && HasDimensions(rect) then s.(noDimensions := false, hidden := false, placed := Some(rect))
    else s.(placed := Some(rect))
  }

  predicate IsAsciiLetter(c: char)
  {
    'a' <= c <= 'z' || 'A' <= c <= 'Z'
  }

  /** A character of the regular-expression class `[\w-]`. */
  predicate IsNameChar(c: char)
  {
    IsAsciiLetter(c) || '0' <= c <= '9' || c == '_' || c == '-'
  }

  /**
   * `/^[a-zA-Z_][\w-]*$/.test(name)`. A name that passes is a single class
   * token (`ValidClassNameIsToken`).
   */
  predicate ValidClassName(name: string)
  {
    |name| >= 1 && (IsAsciiLetter(name[0]) || name[0] == '_') &&
    forall k :: 1 <= k < |name| ==> IsNameChar(name[k])
  }

  /** The state `setCustomClass(customClass)` leaves behind. */
  function AfterSetCustomClass(s: OverlayState, customClass: Option<string>): OverlayState
  {
    if customClass.Some? && ValidClassName(customClass.value) then s.(classes := s.classes + {customClass.value})
    else s
  }

  /** The state `toggleHover(hover)` leaves behind. */
  function AfterToggleHover(s: OverlayState, hover: bool): OverlayState
  {
    if hover then s.(classes := s.classes + {HoverClassName}) else s.(classes := s.classes - {HoverClassName})
  }

  class OverlayElement {
    var noDimensions: bool
    var hidden: bool
    var placed: Option<Rect>
    var classes: set<string>
    var attached: bool

    function State(): OverlayState
      reads this
    {
      OverlayState(noDimensions, hidden, placed, classes, attached)
    }

    /** A new overlay: shown, attached, with no geometry written and no classes. */
    constructor ()
      ensures State() == FreshOverlay
    {
      noDimensions := false;
      hidden := false;
      placed := None;
      classes := {};
      attached := true;
    }

    method UpdateRect(rect: Rect)
      modifies this
      ensures State() == AfterUpdateRect(old(State()), rect)
    {
      var hasDimensions := rect.width != 0 && rect.height != 0;
      if !noDimensions && !hasDimensions {
        noDimensions := true;
        Disable();
        return;
      }
      if noDimensions && hasDimensions {
        noDimensions := false;
        Enable();
      }
      placed := Some(rect);
    }

    method SetCustomClass(customClass: Option<string>)
      modifies this
      ensures State() == AfterSetCustomClass(old(State()), customClass)
    {
      if customClass.None? {
        return;
      }
      var isValidClassName := ValidClassName(customClass.value);
      if isValidClassName {
        classes := classes + {customClass.value};
      }
    }

    method ToggleHover(hover: bool)
      modifies this
      ensures State() == AfterToggleHover(old(State()), hover)
    {
      if hover {
        classes := classes + {HoverClassName};
      } else {
        classes := classes - {HoverClassName};
      }
    }

    /** `display: none`, whatever the dimension state. */
    method Disable()
      modifies this
      ensures State() == old(State()).(hidden := true)
    {
      hidden := true;
    }

    /** Removes the `display` property, whatever the dimension state. */
    method Enable()
      modifies this
      ensures State() == old(State()).(hidden := false)
    {
      hidden := false;
    }

    /** Detaches the overlay from the document. */
    method Remove()
      modifies this
      ensures State() == old(State()).(attached := false)
    {
      attached := false;
    }
  }

  // ---------------------------------------------------------------------------
  // Properties of the transitions

  /** After any update, `noDimensions` records exactly whether that rectangle lacked dimensions. */
  lemma NoDimensionsTracksLastRect(s: OverlayState, rect: Rect)
    ensures AfterUpdateRect(s, rect).noDimensions == !HasDimensions(rect)
  {
  }

  /**
   * Display is toggled only on an edge: hiding when a dimensioned overlay gets a
   * zero-dimension rectangle, showing when a zero-dimension overlay gets a dimensioned one.
   */
  lemma DisplayTogglesOnlyOnEdges(s: OverlayState, rect: Rect)
    ensures AfterUpdateRect(s, rect).hidden != s.hidden ==>
      (!s.noDimensions && !HasDimensions(rect) && !s.hidden) || (s.noDimensions && HasDimensions(rect) && s.hidden)
    ensures s.noDimensions == !HasDimensions(rect) ==> AfterUpdateRect(s, rect).hidden == s.hidden
  {
  }

  /** Losing dimensions hides the overlay and keeps the last written geometry. */
  lemma LosingDimensionsKeepsGeometry(s: OverlayState, rect: Rect)
    requires !s.noDimensions && !HasDimensions(rect)
    ensures AfterUpdateRect(s, rect) == s.(noDimensions := true, hidden := true)
  {
  }

  /** Regaining dimensions shows the overlay and writes width, height and translation. */
  lemma RegainingDimensionsShowsAndPlaces(s: OverlayState, rect: Rect)
    requires s.noDimensions && HasDimensions(rect)
    ensures AfterUpdateRect(s, rect) == s.(noDimensions := false, hidden := false, placed := Some(rect))
  {
  }

  /** The updates `updateRect` receives over time, applied in order. */
  function AfterUpdates(s: OverlayState, rects: seq<Rect>): OverlayState
    decreases |rects|
  {
    if rects == [] then s else AfterUpdates(AfterUpdateRect(s, rects[0]), rects[1..])
  }

  /** Updates never change the class list or attachment. */
  lemma {:induction false} UpdatesKeepClassesAndAttachment(s: OverlayState, rects: seq<Rect>)
    ensures AfterUpdates(s, rects).classes == s.classes
    ensures AfterUpdates(s, rects).attached == s.attached
    decreases |rects|
  {
    if rects != [] {
      UpdatesKeepClassesAndAttachment(AfterUpdateRect(s, rects[0]), rects[1..]);
    }
  }

  /** A hidden zero-dimension overlay stays hidden through any run of zero-dimension updates. */
  lemma {:induction false} ZeroUpdatesStayHidden(s: OverlayState, rects: seq<Rect>)
    requires s.noDimensions && s.hidden
    requires forall k :: 0 <= k < |rects| ==> !HasDimensions(rects[k])
    ensures AfterUpdates(s, rects).hidden && AfterUpdates(s, rects).noDimensions
    decreases |rects|
  {
    if rects != [] {
      ZeroUpdatesStayHidden(AfterUpdateRect(s, rects[0]), rects[1..]);
    }
  }

  /** A run of dimensioned updates never changes the display of a dimensioned overlay. */
  lemma {:induction false} DimensionedUpdatesNeverToggle(s: OverlayState, rects: seq<Rect>)
    requires !s.noDimensions
    requires forall k :: 0 <= k < |rects| ==> HasDimensions(rects[k])
    ensures AfterUpdates(s, rects).hidden == s.hidden
    ensures rects != [] ==> AfterUpdates(s, rects).placed == Some(rects[|rects| - 1])
    decreases |rects|
  {
    if rects != [] {
      DimensionedUpdatesNeverToggle(AfterUpdateRect(s, rects[0]), rects[1..]);
      if |rects| > 1 {
        assert rects[1..][|rects| - 2] == rects[|rects| - 1];
      }
    }
  }

  /** An overlay without dimensions is hidden. */
  predicate HiddenWhenDimensionless(s: OverlayState)
  {
    s.noDimensions ==> s.hidden
  }

  /** Updates, hover and class changes keep a dimensionless overlay hidden. */
  lemma HiddenWhenDimensionlessPreserved(s: OverlayState, rect: Rect, hover: bool, customClass: Option<string>)
    requires HiddenWhenDimensionless(s)
    ensures HiddenWhenDimensionless(AfterUpdateRect(s, rect))
    ensures HiddenWhenDimensionless(AfterToggleHover(s, hover))
    ensures HiddenWhenDimensionless(AfterSetCustomClass(s, customClass))
    ensures HiddenWhenDimensionless(s.(hidden := true))
  {
  }

  /**
   * `enable()` ignores the dimension state: it shows an overlay that has no
   * dimensions, and a further zero-dimension update leaves it shown.
   */
  lemma EnableShowsDimensionlessOverlay(s: OverlayState, zero: Rect)
    requires s.noDimensions && !HasDimensions(zero)
    ensures !HiddenWhenDimensionless(s.(hidden := false))
    ensures !AfterUpdateRect(s.(hidden := false), zero).hidden
  {
  }

  /** A valid class name is added; `undefined` and invalid names leave the classes alone. */
  lemma CustomClassAddsOnlyValidNames(s: OverlayState, customClass: Option<string>)
    ensures AfterSetCustomClass(s, customClass).classes ==
      if customClass.Some? && ValidClassName(customClass.value) then s.classes + {customClass.value} else s.classes
    ensures AfterSetCustomClass(s, customClass).(classes := s.classes) == s
  {
  }

  /** Setting the same custom class twice is the same as setting it once. */
  lemma CustomClassIdempotent(s: OverlayState, customClass: Option<string>)
    ensures AfterSetCustomClass(AfterSetCustomClass(s, customClass), customClass) == AfterSetCustomClass(s, customClass)
  {
  }

  /** After `toggleHover(hover)` the hover class is present iff `hover`; no other class changes. */
  lemma ToggleHoverOnlyTouchesHoverClass(s: OverlayState, hover: bool)
    ensures HoverClassName in AfterToggleHover(s, hover).classes <==> hover
    ensures AfterToggleHover(s, hover).classes - {HoverClassName} == s.classes - {HoverClassName}
    ensures AfterToggleHover(s, hover).(classes := s.classes) == s
  {
  }

  /**
   * A name `setCustomClass` accepts is a single class token: non-empty, not
   * starting with a digit or `-`, and without whitespace.
   */
  lemma ValidClassNameIsToken(name: string)
    requires ValidClassName(name)
    ensures |name| >= 1 && !('0' <= name[0] <= '9') && name[0] != '-'
    ensures forall k :: 0 <= k < |name| ==> !IsWhitespace(name[k])
  {
  }

  /** Some names the pattern accepts and rejects. */
  lemma ClassNameExamples()
    ensures ValidClassName("my-class") && ValidClassName("_private") && ValidClassName("a1")
    ensures !ValidClassName("") && !ValidClassName("1abc") && !ValidClassName("has space") && !ValidClassName("-x")
  {
    assert " " == [' '];
    assert "has space"[3] == ' ';
  }
}
