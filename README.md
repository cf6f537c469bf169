# Directus visual editing, modelled in Dafny

This project models the runtime a website loads so that Directus, open in a
parent frame, can edit its content in place. Elements carry an edit marker:
a `data-directus` attribute such as `collection:articles;item:1;fields:title,body`.
`apply` does the following:

- It connects to the parent frame and waits for its confirmation.
- It finds the marked elements.
- It registers one editable item per element. Each item has a positioned
  overlay with an edit button.
- It tells the parent which new items need a field-access check.
- It returns a handle that removes, enables or disables just those items.

The parent frame answers with messages. These confirm the handshake, show or
highlight items, or report a save.

The model follows the source module by module:

| Dafny file | module(s) | source |
|---|---|---|
| `js_string.dfy` | `JsString` | the `String.prototype` operations the codec uses: `split`, `join`, `trim`, number formatting |
| `edit_attr.dfy` | `EditAttr`, `EditAttrProperties` | the marker codec of `src/lib/editable-element.ts` |
| `element_query.dfy` | `ElementQuery` | `EditableElement.query` (and `EditableStore.scan`, its copy) |
| `overlay_element.dfy` | `Overlay` | `src/lib/overlay-element.ts` |
| `editable_element.dfy` | `Editable` | the per-element state of `src/lib/editable-element.ts` |
| `editable_store.dfy` | `Store` | `src/lib/editable-store.ts` |
| `directus_frame.dfy` | `Frame` | `src/lib/directus-frame.ts` |
| `visual_editing.dfy` | `VisualEditing` | `src/index.ts` |

`base.dfy` holds the `Option` type.

Objects the source updates in place are classes, with `modifies` frames on
their methods: `OverlayElement`, `EditableElement`, `EditableStore` and
`DirectusFrame`, plus the handle `apply` returns and the object module
`disable()` returns. Each method's postcondition states the object's whole new
state. Where the source computes a value, the model uses a function.

- **Overlay.** `OverlayElement.State()` is a value of type `OverlayState`.
  Each method is proved to move it by a pure transition (`AfterUpdateRect`,
  `AfterSetCustomClass`, `AfterToggleHover`). The lemmas about those
  transitions state the dimension-edge rules.
- **Marker codec.** The loops of `objectToEditAttr` and `editAttrToObject` are
  methods proved equal to the functions `EditAttrOf` and `ParseEditAttr`. The
  lemmas in `EditAttrProperties` state what those functions do, ending with a
  round trip.
- **Store loops.** The `forEach` loops of the store are loop methods. Each
  one's per-item body is a small method with its own postcondition (`Enabled`,
  `Disabled`, `Removed`). Items outside the selection are proved `Untouched`.
- **Aliasing.** The store's operations require `DistinctOverlays`: no two
  items share an overlay, which holds because each item creates its own.
  `apply` keeps that invariant and `UniqueElements`, so no element is
  registered twice.
- **Frame effects.** The frame's effects are data. `posted` is the log of
  messages delivered to the parent, tagged with their target origin. What
  `receive` does besides updating `confirmed` and `aiEnabled` is a `Reaction`
  value, one of:
  - a `StoreCommand` (highlight items, highlight one element, activate keys);
  - a call of an item's `onSaved`;
  - a page reload;
  - an exception.

Where the code and its own tests differ, or the code does less than its names say, the model follows the code:

- `removeHoverListener` removes freshly bound functions. It also removes
  `mouseenter`, while the constructor added `mouseover`. So it detaches
  nothing, although src/lib/editable-element.test.ts:149-173 expects it to
  stop hover events.
  `RemoveHoverListener` leaves `hoverListening` as it was, and `Removed`
  states that the hover listeners stay attached.
- `disableItems` clears the item's `hover` flag but does not remove the
  overlay's hover class. `Disabled` states exactly that.
- `enableItems` shows the overlay even when it has no dimensions.
  `EnableShowsDimensionlessOverlay` shows that a later zero-size update then
  does not hide it again.
- `query` with an argument takes the first marked descendant only
  (`querySelector`), not every marked descendant.
- `removeItems` has no guard against running its cleanup twice.
  Only the store sequence is idempotent (`WithoutIdempotent`).

## Model

| member | source | states |
|---|---|---|
| JsString.Split | src/lib/editable-element.ts:87 | `split(c)` yields at least one piece and no piece contains `c` |
| JsString.SplitJoin | src/lib/editable-element.ts:83-87 | splitting the `join` of pieces that do not contain the separator gives the pieces back |
| JsString.JoinSplit | src/lib/editable-element.ts:83-87 | joining the pieces of a split restores the text |
| JsString.Trim | src/lib/editable-element.ts:94 | `trim` leaves no whitespace at either end, and the result is the input with only whitespace cut from its two ends |
| JsString.TrimTrimmed | src/lib/editable-element.ts:104 | `trim` leaves text without surrounding whitespace unchanged |
| JsString.TrimEach | src/lib/editable-element.ts:100 | `map(trim)` trims every element and keeps the length |
| JsString.NumberText | src/lib/editable-element.ts:79 | a number's text is non-empty, has no surrounding whitespace, and holds only digits and `-` |
| JsString.NatTextValue | src/lib/editable-element.ts:79 | the decimal text of a natural number reads back as that number and has no leading zero |
| JsString.NumberTextValue | src/lib/editable-element.ts:79 | a number's text starts with `-` iff the number is negative, and its digits read back as its absolute value |
| EditAttr.ValidEditConfigKey | src/lib/editable-element.ts:110-112 | a key is valid iff it is one of `collection`, `item`, `fields`, `mode`; each of these has no `:` or `;` and no surrounding whitespace |
| EditAttr.Entries | src/lib/editable-element.ts:5-10 | a configuration has one entry per present key, every key is one of the four valid keys and no key occurs twice |
| EditAttr.ObjectToEditAttr | src/lib/editable-element.ts:70-84 | the loop over the entries builds exactly `EditAttrOf(entries)`: valid-key segments `key:value` joined by `;` |
| EditAttr.EditAttrToObject | src/lib/editable-element.ts:86-108 | the loop over the `;`-pieces builds exactly `ParseEditAttr(str)` |
| EditAttrProperties.SegmentsAppend | src/lib/editable-element.ts:73-81 | segments of concatenated entry lists are the concatenated segments, in order |
| EditAttrProperties.SegmentsFilterValidKeys | src/lib/editable-element.ts:73-74 | serialising emits exactly one segment per entry with a valid key, in entry order, and nothing for the others |
| EditAttrProperties.SetAttrCollectionItem | src/index.ts:78-80 | `{collection: 'articles', item: 123}` serialises to `collection:articles;item:123` |
| EditAttrProperties.SetAttrWithFields | src/lib/editable-element.ts:76-77 | `fields` is comma-joined: `collection:articles;item:1;fields:title,body` |
| EditAttrProperties.NoColonIsSkipped | src/lib/editable-element.ts:91-92 | a segment without `:` is skipped |
| EditAttrProperties.SkippedLeavesRecord | src/lib/editable-element.ts:92-95 | a skipped segment (no `:`, or a trimmed key that is not valid) leaves the result record unchanged |
| EditAttrProperties.ApplyPairsAppend | src/lib/editable-element.ts:90-105 | the `forEach` over segments folds left: two runs of segments apply one after the other |
| EditAttrProperties.SkippedPairIgnored | src/lib/editable-element.ts:90-105 | removing a skipped segment from anywhere in the list does not change the result |
| EditAttrProperties.SkippedSegmentHasNoEffect | src/lib/editable-element.ts:86-107 | a marker with a skipped segment parses as the marker without it |
| EditAttrProperties.ParseJoined | src/lib/editable-element.ts:87-90 | parsing a `;`-join of segments free of `;` applies exactly those segments in order |
| EditAttrProperties.ParseEmpty | src/lib/editable-element.ts:86-107 | the empty marker parses to the empty record |
| EditAttrProperties.ValueEndsAtSecondColon | src/lib/editable-element.ts:97 | the value is only the text between the first and second `:`; the rest of the segment is ignored |
| EditAttrProperties.RepeatedKeyOverwrites | src/lib/editable-element.ts:104 | a later segment with the same key overwrites the earlier one |
| EditAttrProperties.KeyValuePair | src/lib/editable-element.ts:91-104 | a `key:value` segment without further `:` stores the value under the key with its surrounding whitespace trimmed |
| EditAttrProperties.DistinctKeysCommute | src/lib/editable-element.ts:90-105 | two segments whose trimmed keys differ give the same record in either order |
| EditAttrProperties.SetKeyCommute | src/lib/editable-element.ts:102-104 | storing under two different keys gives the same record in either order |
| EditAttrProperties.ItemTextIsToken | src/lib/editable-element.ts:79 | the text of an `item` number or `null` has no `;`, no `:` and no surrounding whitespace |
| EditAttrProperties.ReadCollection | src/lib/editable-element.ts:104 | a `collection` segment stores its trimmed value |
| EditAttrProperties.ReadItem | src/lib/editable-element.ts:104 | an `item` segment stores its trimmed value as a string |
| EditAttrProperties.ReadFieldList | src/lib/editable-element.ts:99-101 | a `fields` segment stores its value split on `,` with every field trimmed |
| EditAttrProperties.ReadModeName | src/lib/editable-element.ts:104 | a `mode` segment stores its trimmed value |
| EditAttrProperties.RoundTrip | src/lib/editable-element.ts:70-108 | parsing the serialisation of a configuration gives it back when no token holds `;`, `:` or `,` or surrounding whitespace and `fields` is absent or non-empty; `item` comes back as its text |
| ElementQuery.MarkedOf | src/lib/editable-element.ts:57 | `querySelectorAll('[data-directus]')` yields only marked elements, and an element is in the result iff it is among the inputs and marked |
| ElementQuery.MarkedOfOne | src/lib/editable-element.ts:57 | one element is selected iff it is marked |
| ElementQuery.MarkedOfAppend | src/lib/editable-element.ts:57 | the selection of concatenated element lists is the concatenation of their selections |
| ElementQuery.MarkedInDocumentOrder | src/lib/editable-element.ts:57 | the result is in document order: the marked elements before an element, then it when marked, then the marked ones after it |
| ElementQuery.FirstMarkedIndex | src/lib/editable-element.ts:64 | `querySelector` finds the first marked descendant, or nothing when none is marked |
| ElementQuery.Pick | src/lib/editable-element.ts:61-66 | a marked element picks itself, an unmarked one its first marked descendant, a non-element nothing |
| ElementQuery.PickAll | src/lib/editable-element.ts:59-67 | every picked element is marked and there are at most as many as candidates |
| ElementQuery.PickAllOne | src/lib/editable-element.ts:59-67 | one candidate contributes exactly what `Pick` finds for it, or nothing |
| ElementQuery.Query | src/lib/editable-element.ts:55-68 | every queried element is marked; with an argument there are at most as many as candidates |
| ElementQuery.QueryPicksEach | src/lib/editable-element.ts:59-67 | with an argument, each candidate contributes what `Pick` finds for it, in candidate order |
| ElementQuery.QueryAllIsMarkedOfPage | src/lib/editable-element.ts:56-57 | with no argument an element is returned iff it is on the page and marked |
| ElementQuery.QueryMarkedIsIdentity | src/lib/editable-element.ts:59-67 | candidates that are all marked elements come back unchanged and in order |
| ElementQuery.NonElementsDropped | src/lib/editable-element.ts:61 | a non-element candidate is dropped without affecting the others |
| ElementQuery.PickAllAppend | src/lib/editable-element.ts:60-67 | the selection of concatenated candidate lists is the concatenation of their selections |
| Overlay.OverlayElement.constructor | src/lib/overlay-element.ts:4-9 | a new overlay is attached, shown, unplaced, with no classes and `noDimensions` false |
| Overlay.OverlayElement.UpdateRect | src/lib/overlay-element.ts:11-28 | `updateRect` moves the state by the dimension-edge transition |
| Overlay.OverlayElement.SetCustomClass | src/lib/overlay-element.ts:30-35 | `setCustomClass` moves the state by the class-validation transition |
| Overlay.OverlayElement.ToggleHover | src/lib/overlay-element.ts:37-40 | `toggleHover` adds or removes the hover class |
| Overlay.OverlayElement.Disable | src/lib/overlay-element.ts:42-44 | `disable` hides the overlay whatever `noDimensions` is, and changes nothing else |
| Overlay.OverlayElement.Enable | src/lib/overlay-element.ts:46-48 | `enable` shows the overlay whatever `noDimensions` is, and changes nothing else |
| Overlay.OverlayElement.Remove | src/lib/overlay-element.ts:50-53 | `remove` detaches the overlay and changes nothing else |
| Overlay.NoDimensionsTracksLastRect | src/lib/overlay-element.ts:12-23 | after an update, `noDimensions` holds iff that rectangle has zero width or height |
| Overlay.DisplayTogglesOnlyOnEdges | src/lib/overlay-element.ts:14-23 | display changes only on a dimensioned/zero edge; an update in the same dimension state never toggles it |
| Overlay.LosingDimensionsKeepsGeometry | src/lib/overlay-element.ts:14-18 | going to zero size sets `noDimensions`, hides, and keeps the last width, height and transform |
| Overlay.RegainingDimensionsShowsAndPlaces | src/lib/overlay-element.ts:20-27 | going back to a size clears `noDimensions`, shows, and writes the new geometry |
| Overlay.UpdatesKeepClassesAndAttachment | src/lib/overlay-element.ts:11-28 | no run of updates changes the classes or the attachment |
| Overlay.ZeroUpdatesStayHidden | src/lib/overlay-element.ts:14-18 | a hidden zero-size overlay stays hidden through any run of zero-size updates |
| Overlay.DimensionedUpdatesNeverToggle | src/lib/overlay-element.ts:20-27 | a run of sized updates keeps the display of a sized overlay and leaves it at the last rectangle |
| Overlay.HiddenWhenDimensionlessPreserved | src/lib/overlay-element.ts:11-44 | updates, hover, custom classes and `disable` keep a zero-size overlay hidden |
| Overlay.EnableShowsDimensionlessOverlay | src/lib/overlay-element.ts:46-48 | `enable` shows a zero-size overlay, and a later zero-size update leaves it shown |
| Overlay.ValidClassNameIsToken | src/lib/overlay-element.ts:33-34 | a name that passes `/^[a-zA-Z_][\w-]*$/` (`ValidClassName`) is non-empty, does not start with a digit or `-`, and holds no whitespace, so `classList.add` receives a single class token |
| Overlay.CustomClassAddsOnlyValidNames | src/lib/overlay-element.ts:30-35 | only a defined name matching `^[a-zA-Z_][\w-]*$` is added, and nothing but the classes changes |
| Overlay.CustomClassIdempotent | src/lib/overlay-element.ts:30-35 | setting the same custom class twice equals setting it once |
| Overlay.ToggleHoverOnlyTouchesHoverClass | src/lib/overlay-element.ts:37-40 | after `toggleHover(b)` the hover class is present iff `b`, no other class changes, and nothing else changes |
| Overlay.ClassNameExamples | src/lib/overlay-element.ts:33 | names like `my-class` and `_private` are accepted; `1abc`, `-x`, names with spaces and the empty name are rejected |
| Editable.EditableElement.constructor | src/lib/editable-element.ts:37-53 | a new item has the given key, the parsed marker as its configuration, the initial rectangle passed to a fresh overlay, is not hovered or disabled, and observes and listens |
| Editable.EditableElement.ApplyOptions | src/lib/editable-element.ts:114-117 | the custom class goes to the overlay; `onSaved` is replaced only when one is given |
| Editable.EditableElement.RemoveHoverListener | src/lib/editable-element.ts:119-122 | the hover listeners stay attached |
| Editable.EditableElement.OnClickEdit | src/lib/editable-element.ts:124-126 | the click sends `edit` with key, configuration and rectangle, and succeeds iff the frame has an origin and the parent accepts |
| Editable.EditableElement.ToggleItemHover | src/lib/editable-element.ts:136-140 | `hover` and the hover class change only for this element's own event with a new value |
| Editable.EditableElement.OnObserveRect | src/lib/editable-element.ts:142-146 | an observed rectangle is ignored while disabled, otherwise stored and passed to the overlay |
| Store.FindIndex | src/lib/editable-store.ts:22 | `find` returns the position of the first item for the element, or nothing iff no item has it |
| Store.Without | src/lib/editable-store.ts:61 | the filter keeps exactly the items not selected |
| Store.NotDisabled | src/lib/editable-store.ts:40 | the default selection of `disableItems` is exactly the items not disabled |
| Store.NotDisabledAppend | src/lib/editable-store.ts:40 | the default selection of `disableItems` keeps store order: it distributes over concatenation |
| Store.EnableItem | src/lib/editable-store.ts:32-36 | one item becomes enabled and observed, with its overlay shown |
| Store.DisableItem | src/lib/editable-store.ts:42-47 | one item becomes disabled, not hovered, unobserved, with its overlay hidden |
| Store.RemoveItem | src/lib/editable-store.ts:55-59 | one item becomes unobserved, with its overlay detached |
| Store.EditableStore.constructor | src/lib/editable-store.ts:4 | a new store is empty |
| Store.EditableStore.GetItem | src/lib/editable-store.ts:21-23 | `getItem` returns the first item registered for the element, or nothing iff there is none |
| Store.EditableStore.AddItem | src/lib/editable-store.ts:25-27 | `addItem` appends at the end, without deduplicating |
| Store.EditableStore.EnableItems | src/lib/editable-store.ts:29-37 | every selected item (all by default) is enabled; membership is unchanged and other items are untouched |
| Store.EditableStore.DisableItems | src/lib/editable-store.ts:39-50 | returns the selection, or by default `NotDisabled` of the old store (the items not disabled, in store order by `NotDisabledAppend`); those are disabled and the others untouched |
| Store.EditableStore.DisableEach | src/lib/editable-store.ts:42-47 | the `forEach` disables every target and leaves other items untouched |
| Store.EditableStore.RemoveItems | src/lib/editable-store.ts:52-62 | the store becomes the old store filtered to the unselected items; selected items are removed, others untouched; both registry invariants are kept |
| Store.EditableStore.RemoveEach | src/lib/editable-store.ts:55-59 | the `forEach` removes every target and leaves other items untouched |
| Store.WithoutAppend | src/lib/editable-store.ts:61 | the filter keeps relative order: it distributes over concatenation |
| Store.WithoutSingle | src/lib/editable-store.ts:61 | a single item is kept iff it is not selected |
| Store.WithoutKeepsRegistry | src/lib/editable-store.ts:61 | filtering keeps a store free of duplicate elements and of shared overlays |
| Store.WithoutIdempotent | src/lib/editable-store.ts:61 | removing the same selection again leaves the store sequence unchanged |
| Store.WithoutSubset | src/lib/editable-store.ts:61 | selecting every item leaves nothing |
| Store.WithoutAllOrNothing | src/lib/editable-store.ts:52-61 | removing with the default selection empties the store; an empty selection keeps it |
| Frame.SavedReaction | src/lib/directus-frame.ts:91-102 | `saved` calls the item's `onSaved` with `{collection, item, payload}` iff the key resolves to a callback and `collection` is truthy; otherwise it reloads, never both; `null` or `undefined` data throws |
| Frame.SavedForMissingKeyReloads | src/lib/directus-frame.ts:94-101 | a `saved` message for an unknown key reloads the page |
| Frame.HighlightCommand | src/lib/directus-frame.ts:104-123 | `receiveHighlightElement` issues only highlight commands, and none exactly for object data whose `key` is neither `null` nor a string and that names no configuration |
| Frame.HighlightClears | src/lib/directus-frame.ts:104-114 | falsy or non-object data, or `key === null`, clears the highlight |
| Frame.HighlightConfigTakesPriority | src/lib/directus-frame.ts:115-118 | a truthy `collection` with a defined `item` looks up by configuration, with `fields` only when truthy, even when a string `key` is present |
| Frame.HighlightByKeyOrNothing | src/lib/directus-frame.ts:119-122 | otherwise a string `key` looks up by key, and anything else issues no command |
| Frame.ShowAndActivateCommands | src/lib/directus-frame.ts:81-89 | `showEditableElements` highlights iff its data is truthy; `activateElements` activates the array's keys, or none for a non-array |
| Frame.SameOrigin | src/lib/directus-frame.ts:125-131 | an origin matches only a URL that parses, and a URL an event's origin matches is also a valid `postMessage` target |
| Frame.Dispatch | src/lib/directus-frame.ts:50-55 | store commands come only from `activateElements`, `showEditableElements` and `highlightElement`; `onSaved` calls, reloads and throws only from `saved`, which is `receiveSaved`; any other action has no effect |
| Frame.DirectusFrame.constructor | src/lib/directus-frame.ts:12-21 | a new channel has no origin, is not confirmed, has AI disabled and has posted nothing |
| Frame.DirectusFrame.Send | src/lib/directus-frame.ts:27-37 | `send` posts exactly the message to the stored origin and returns true iff there is a non-empty origin that `postMessage` accepts as a target (`*`, `/` or a URL that parses) and the parent does not throw; otherwise nothing is posted |
| Frame.DirectusFrame.Connect | src/lib/directus-frame.ts:39-42 | `connect(o)` stores `o`, and posts `connect` to `o` and returns true iff `o` is a non-empty valid target the parent accepts |
| Frame.DirectusFrame.Receive | src/lib/directus-frame.ts:44-56 | nothing happens unless an origin is set and the event comes from its parsed origin; then `confirm` updates the flags and every other action yields its reaction without changing them |
| Frame.DirectusFrame.ReceiveConfirmAction | src/lib/directus-frame.ts:76-79 | `confirm` sets `confirmed` and sets `aiEnabled` to the truthiness of `data.aiEnabled` |
| Frame.DirectusFrame.ReceiveConfirm | src/lib/directus-frame.ts:58-79 | at most 10 checks; true iff `confirmed` is seen at one of them, stopping at the first; when the flag was clear, the parent's `confirm` message that set it has left `confirmed` true and `aiEnabled` as it reports; on failure the flags are unchanged |
| VisualEditing.AccessRecords | src/index.ts:41-46 | one `checkFieldAccess` record per new item, with `fields` defaulting to `[]` |
| VisualEditing.AccessReport | src/index.ts:50 | `checkFieldAccess` is sent iff at least one item was created, once, with their records |
| VisualEditing.RegisterOne | src/index.ts:32-47 | an element's existing item is reused and keeps its rectangle and flags; only when `getItem` misses is a new item created, with a fresh key and overlay, the parsed marker, the element's rectangle, enabled and observed, and appended; the options are applied; every other registered item is untouched |
| VisualEditing.ApplyOptionsAmong | src/index.ts:35 | `applyOptions` on one registered item changes only that item and its overlay, and keeps every item already carrying the options and every created item in its created state |
| VisualEditing.Step | src/index.ts:31-48 | one loop pass keeps the registry invariants and the loop's progress, records a created item with the element it came from, and keeps every scoped item carrying the options |
| VisualEditing.FirstSeenStep | src/index.ts:36-39 | a created item is recorded at the position it was pushed to `scopedItems` |
| VisualEditing.CreatedStatesStep | src/index.ts:33-39 | recording an item created from the `i`-th element keeps every created item in the state its element describes |
| VisualEditing.CreatedWhereScoped | src/index.ts:33-39 | after the loop, each created item is the scoped item of a queried element and in the state that element describes |
| VisualEditing.ScopedAreRegistered | src/index.ts:32-36 | every item the loop scoped is in the registry |
| VisualEditing.CreatedAreRegistered | src/index.ts:38-39 | every item the loop created is in the registry it was appended to |
| VisualEditing.RegisterLoop | src/index.ts:31-48 | the loop ends with one scoped item per queried element and the created items appended |
| VisualEditing.Register | src/index.ts:31-48 | one scoped item per queried element in query order, each found by `getItem` and carrying the options; earlier items are reused; created items are new, keyed in order, appended, and each is the scoped item of a queried element built from it (parsed marker, its rectangle, enabled, observed, overlay placed and classed); no element is registered twice |
| VisualEditing.Lookups | src/index.ts:32-39 | after the loop each queried element finds its scoped item, earlier items are kept, and no created item's element was registered before |
| VisualEditing.NewItemKeepsInvariants | src/index.ts:38-39 | appending an item for an unregistered element with its own overlay keeps both registry invariants |
| VisualEditing.Attach | src/index.ts:27-62 | after the handshake: registers the queried elements as `Register` states (created items in the state their element describes), sends `checkFieldAccess` only for created items, and returns a handle on the scoped items |
| VisualEditing.Apply | src/index.ts:8-63 | a failed `connect` or confirmation returns no handle, leaves the store's items as they were, every item and overlay untouched and the frame's flags as they were; a frame confirmed by an earlier `apply` passes the handshake whenever `connect` succeeds; otherwise the registry merge (with created items in the state their element describes) and the access report take place, a handle is returned, and the frame ends confirmed, with `aiEnabled` as the confirmation reported it or as it was when already confirmed |
| VisualEditing.Handle.constructor | src/index.ts:52-62 | the handle holds the store and the scoped items |
| VisualEditing.Handle.Remove | src/index.ts:53-55 | the handle's `remove` removes only the scoped items; other items are untouched; both registry invariants are kept |
| VisualEditing.Handle.Enable | src/index.ts:56-58 | the handle's `enable` enables only the scoped items; other items are untouched |
| VisualEditing.Handle.Disable | src/index.ts:59-61 | the handle's `disable` disables only the scoped items; other items are untouched |
| VisualEditing.Reenabler.constructor | src/index.ts:70-75 | the returned object holds the items `disable()` disabled |
| VisualEditing.Reenabler.Enable | src/index.ts:72-74 | its `enable` re-enables exactly those items and leaves the others untouched |
| VisualEditing.RemoveAll | src/index.ts:65-67 | module `remove()` empties the store and removes every item |
| VisualEditing.DisableAll | src/index.ts:69-76 | module `disable()` disables exactly the items not yet disabled and returns them |
| VisualEditing.DisableThenEnable | src/index.ts:69-76 | `disable()` then its `enable()` restores every item's `disabled` flag |
| VisualEditing.SetAttr | src/index.ts:78-80 | `setAttr` serialises any list of entries; entries that are a well-formed configuration parse back to it |

## Left out

- Page navigation (`PageManager`) and overlay styles (`OverlayManager`): these files are not part of this model. `apply`'s navigation subscription and `addStyles` call are left out.
- DOM specifics are abstracted. Style strings and `classList` become a class set plus hidden, placed and attached state. `DOMRect` is four integers. Only the zero test and pass-through of the floating-point geometry matter.
- The rectangle observer (`@reach/observe-rect`) is the `observing` flag.
- The listeners are the `hoverListening` flag. Mouse events reach the model as direct calls of `ToggleItemHover` with the event target.
- The edit button's click listener is left out; `OnClickEdit` models its handler.
- `crypto.randomUUID` is an injected `freshKey` supply. `getBoundingClientRect` is an injected `rectOf`.
- `new URL(url).origin` is an injected `originOf`. A URL that does not parse is `None`.
- The singletons (`new DirectusFrame()` returning the one instance, and the static store calls in `src/index.ts`) are modelled as one explicit frame and one explicit store passed around.
- `window.parent.postMessage` is the `posted` log. It throws on a target origin other than `*`, `/` or a URL that parses (the injected `originOf`), and otherwise when `parentAccepts` is false. `console.error` is left out.
- `window.location.reload` is the `Reload` reaction.
- The timers and the `Promise` of `receiveConfirm` become a bounded loop over `observed(i)`, the value of `confirmed` at the `i`-th check. The awaited result is a returned value. The `confirm` message that arrives while waiting is the `confirmData` parameter; a second `confirm` during the wait, or one arriving after the last check, is not modelled.
- The store operations that `receive` triggers (`activateItems`, `highlightItems`, `highlightElement`, `getItemByKey`) are not defined in `src/lib/editable-store.ts`. They are returned as `StoreCommand` values. `getItemByKey` becomes a map from keys to the registered `onSaved` callbacks.
- `applyOptions`'s second argument at src/index.ts:35 is ignored by the method, so it is not modelled.
- `EditableStore.scan` is identical to `EditableElement.query` and is modelled once, by `ElementQuery.Query`.
- `DirectusFrame.isAiEnabled` is a getter of the `aiEnabled` field.
- `receive` on data that cannot be destructured throws. The model returns `Thrown` and leaves the state unchanged.
- The `onSaved` callback is an identity (`CallbackId`). What it does is outside the model.
- VisualEditing.Apply: does not state that registered items outside the query keep their state; `RegisterOne` states it for one step.
- JsString.NumberText: JavaScript numbers are doubles, and the model's numbers (`item` values, JSON numbers in messages) are integers. Exponent notation, fractions, `NaN`, infinities and precision loss are not modelled; `NumberTextValue` proves an integer's text reads back exactly.
- EditAttr.Entries: lists the properties in declaration order only. An object literal may list them in another order, and `fields` may be a single string. `SetAttr` accepts any entry list, and `DistinctKeysCommute` shows that segments with distinct keys parse the same in either order; a round trip for every property order is not proved.
- The overlay constructor at src/lib/overlay-element.ts:7 takes the element it belongs to, but src/lib/editable-element.ts:46 calls it without one. As written, `element` is then undefined, so the `updateRect` call at src/lib/editable-element.ts:47 throws when it touches the element (src/lib/overlay-element.ts:25, or :43 through `disable`), and so does the `editButton` access at src/lib/editable-element.ts:48. The model follows the constructor's declared signature: the overlay owns an abstract element of its own, and constructing an item does not throw.
