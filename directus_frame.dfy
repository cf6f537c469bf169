/**
 * `DirectusFrame` (src/lib/directus-frame.ts): the channel to the Directus app in
 * the parent frame. It remembers the trusted origin, posts `{action, data}`
 * messages to it, and reacts to the messages it accepts from it. The effects of
 * an inbound message on the editable store and the page are returned as values.
 */
module Frame {
  import opened Base
  import opened EditAttr
  import opened Overlay

  /** Identity of an `onSaved` callback a page registered. */
  type CallbackId = nat

  /** A structured-clone message value. */
  datatype Json =
    | JNull
    | JUndefined
    | JBool(b: bool)
    | JNum(n: int)
    | JStr(s: string)
    | JArr(items: seq<Json>)
    | JObj(props: map<string, Json>)

  /** JavaScript truthiness, `!!value` (numbers are integers here, so NaN does not arise). */
  predicate Truthy(j: Json)
  {
    match j
    case JNull => false
    case JUndefined => false
    case JBool(b) => b
    case JNum(n) => n != 0
    case JStr(s) => s != ""
    case JArr(_) => true
    case JObj(_) => true
  }

  /** `value?.name`: a property of an object, `undefined` for anything else or a missing property. */
  function Prop(j: Json, name: string): Json
  {
    if j.JObj? && name in j.props then j.props[name] else JUndefined
  }

  /** Destructuring `const {...} = value` throws for `null` and `undefined` only. */
  predicate Destructurable(j: Json)
  {
    !j.JNull? && !j.JUndefined?
  }

  /** A destructured property with a default, applied when the property is `undefined`. */
  function PropOr(j: Json, name: string, default: Json): Json
  {
    var v := Prop(j, name);
    if v.JUndefined? then default else v
  }

  // ---------------------------------------------------------------------------
  // Outbound messages

  /** One record of the `checkFieldAccess` batch. */
  datatype FieldAccess = FieldAccess(key: string, collection: Option<string>, item: Option<string>, fields: seq<string>)

  /** The `{action, data}` messages the page posts to the parent frame. */
  datatype Message =
    | ConnectMessage
    | EditMessage(key: string, editConfig: Parsed, rect: Rect)
    | CheckFieldAccessMessage(items: seq<FieldAccess>)

  function ActionName(m: Message): string
  {
    match m
    case ConnectMessage => "connect"
    case EditMessage(_, _, _) => "edit"
    case CheckFieldAccessMessage(_) => "checkFieldAccess"
  }

  /** A message as the parent frame receives it, with the target origin it was posted to. */
  datatype Posted = Posted(message: Message, targetOrigin: string)

  // ---------------------------------------------------------------------------
  // Inbound messages and their effects

  /** A `MessageEvent`: the sender's origin and the posted value. */
  datatype MessageEvent = MessageEvent(origin: string, data: Json)

  /** What `highlightElement` asks the store to highlight. */
  datatype HighlightTarget =
    | ByKey(key: string)
    | ByConfig(collection: Json, item: Json, fields: Option<Json>)

  /** A call into the editable store. */
  datatype StoreCommand =
    | HighlightItems(show: bool)
    | HighlightElement(target: Option<HighlightTarget>)
    | ActivateItems(keys: seq<Json>)

  /** The argument `onSaved` receives. */
  datatype SavedArgs = SavedArgs(collection: Json, item: Json, payload: Json)

  /** What handling one inbound message does besides updating the channel's own flags. */
  datatype Reaction =
    | NoReaction
    | Command(command: StoreCommand)
    | CallOnSaved(callback: CallbackId, args: SavedArgs)
    | Reload
    | Thrown

  /** `sameOrigin(origin, url)`: equal to the origin `new URL(url)` parses; a URL that does not parse never matches. */
  predicate SameOrigin(origin: string, url: string, originOf: string -> Option<string>)
    ensures SameOrigin(origin, url, originOf) ==> ValidTargetOrigin(url, originOf)
    ensures originOf(url).None? ==> !SameOrigin(origin, url, originOf)
  {
    originOf(url).Some? && origin == originOf(url).value
  }

  /**
   * A target origin `postMessage` accepts without a `SyntaxError`: `*`, `/`, or a
   * URL that parses.
   */
  predicate ValidTargetOrigin(o: string, originOf: string -> Option<string>)
  {
    o == "*" || o == "/" || originOf(o).Some?
  }

  /** `!!data?.aiEnabled`. */
  predicate AiEnabledIn(data: Json)
  {
    Truthy(Prop(data, "aiEnabled"))
  }

  /**
   * `receiveSaved`: calls the item's `onSaved` when `key` names a registered item
   * that has one and `collection` is truthy, and reloads the page otherwise.
   * `handlers` maps the key of each registered item to its `onSaved`, if any.
   */
  function SavedReaction(data: Json, handlers: map<string, Option<CallbackId>>): (r: Reaction)
    ensures !Destructurable(data) <==> r.Thrown?
    ensures r.CallOnSaved? <==>
      Destructurable(data) && Truthy(PropOr(data, "collection", JStr(""))) &&
      PropOr(data, "key", JStr("")).JStr? && PropOr(data, "key", JStr("")).s in handlers &&
      handlers[PropOr(data, "key", JStr("")).s].Some?
    ensures Destructurable(data) && !r.CallOnSaved? ==> r.Reload?
    ensures r.CallOnSaved? ==>
      r.args == SavedArgs(Prop(data, "collection"), PropOr(data, "item", JNull), PropOr(data, "payload", JObj(map[])))
  {
    if !Destructurable(data) then Thrown
    else
      var key := PropOr(data, "key", JStr(""));
      var collection := PropOr(data, "collection", JStr(""));
      var item := PropOr(data, "item", JNull);
      var payload := PropOr(data, "payload", JObj(map[]));
      if key.JStr? && key.s in handlers && Truthy(collection) && handlers[key.s].Some? then
        CallOnSaved(handlers[key.s].value, SavedArgs(collection, item, payload))
      else Reload
  }

  /**
   * `receiveHighlightElement`: the target to highlight, `None` to clear, or no
   * command at all. Every command it issues is a highlight, and it issues none
   * only for object data whose `key` is neither `null` nor a string and that
   * names no configuration.
   */
  function HighlightCommand(data: Json): (r: Option<StoreCommand>)
    ensures r.Some? ==> r.value.HighlightElement?
    ensures r.None? <==>
      Truthy(data) && (data.JObj? || data.JArr?) && !Prop(data, "key").JNull? && !Prop(data, "key").JStr? &&
      !(Truthy(Prop(data, "collection")) && !Prop(data, "item").JUndefined?)
  {
    if !Truthy(data) || !(data.JObj? || data.JArr?) then Some(HighlightElement(None))
    else
      var key := Prop(data, "key");
      var collection := Prop(data, "collection");
      var item := Prop(data, "item");
      var fields := Prop(data, "fields");
      if key.JNull? then Some(HighlightElement(None))
      else if Truthy(collection) && !item.JUndefined? then
        Some(HighlightElement(Some(ByConfig(collection, item, if Truthy(fields) then Some(fields) else None))))
      else if key.JStr? then Some(HighlightElement(Some(ByKey(key.s))))
      else None
  }

  /** `receiveActivateElements`: the listed keys, or none when `data` is not an array. */
  function ActivateCommand(data: Json): StoreCommand
  {
    ActivateItems(if data.JArr? then data.items else [])
  }

  /**
   * The effect of an accepted message other than `confirm`'s flag updates:
   * store commands come only from `activateElements`, `showEditableElements`
   * and `highlightElement`; calls of `onSaved`, reloads and throws only from
   * `saved`; any other action, `confirm` included, has no effect here.
   */
  function Dispatch(action: Json, data: Json, handlers: map<string, Option<CallbackId>>): (r: Reaction)
    ensures r.Command? ==>
      action in [JStr("activateElements"), JStr("showEditableElements"), JStr("highlightElement")]
    ensures r.CallOnSaved? || r.Reload? || r.Thrown? ==> action == JStr("saved")
    ensures action == JStr("saved") ==> r == SavedReaction(data, handlers)
    ensures !(action in [JStr("activateElements"), JStr("showEditableElements"), JStr("saved"), JStr("highlightElement")])
      ==> r.NoReaction?
  {
    if action == JStr("activateElements") then Command(ActivateCommand(data))
    else if action == JStr("showEditableElements") then Command(HighlightItems(Truthy(data)))
    else if action == JStr("saved") then SavedReaction(data, handlers)
    else if action == JStr("highlightElement") then
      (match HighlightCommand(data) case None => NoReaction case Some(c) => Command(c))
    else NoReaction
  }

  const MaxAttempts: nat := 10

  class DirectusFrame {
    var origin: Option<string>
    var confirmed: bool
    var aiEnabled: bool
    /**
     * Messages `postMessage` took without throwing, oldest first, each with its
     * target origin (the browser hands one to the parent only when the
     * parent's origin matches it).
     */
    var posted: seq<Posted>
    /** Whether `window.parent.postMessage` can be called in this page at all. */
    const parentAccepts: bool
    /** The origin `new URL(url)` parses, `None` when it throws. */
    const originOf: string -> Option<string>

    /** `!this.origin`: no origin, or the empty string. */
    predicate HasOrigin()
      reads this
    {
      origin.Some? && origin.value != ""
    }

    /** Whether `send` to origin `o` succeeds: a non-empty origin, and `postMessage` does not throw for it. */
    predicate AcceptsTarget(o: string)
    {
      o != "" && parentAccepts && ValidTargetOrigin(o, originOf)
    }

    constructor (parentAccepts: bool, originOf: string -> Option<string>)
      ensures origin.None? && !confirmed && !aiEnabled && posted == []
      ensures this.parentAccepts == parentAccepts && this.originOf == originOf
    {
      this.parentAccepts := parentAccepts;
      this.originOf := originOf;
      origin := None;
      confirmed := false;
      aiEnabled := false;
      posted := [];
    }

    /**
     * `send`: posts the message to the stored origin; fails without an origin,
     * for a target origin `postMessage` rejects, or when there is no parent to post to.
     */
    method Send(message: Message) returns (ok: bool)
      modifies this`posted
      ensures ok <==> origin.Some? && AcceptsTarget(origin.value)
      ensures posted == if ok then old(posted) + [Posted(message, origin.value)] else old(posted)
    {
      if !HasOrigin() {
        return false;
      }
      if !ValidTargetOrigin(origin.value, originOf) {
        return false;
      }
      if !parentAccepts {
        return false;
      }
      posted := posted + [Posted(message, origin.value)];
      return true;
    }

    /** `connect`: stores the origin, then sends `connect`. */
    method Connect(o: string) returns (ok: bool)
      modifies this`origin, this`posted
      ensures origin == Some(o)
      ensures ok <==> AcceptsTarget(o)
      ensures posted == if ok then old(posted) + [Posted(ConnectMessage, o)] else old(posted)
    {
      origin := Some(o);
      ok := Send(ConnectMessage);
    }

    /**
     * `receive`: ignores the event unless an origin is set and the event comes
     * from it; otherwise dispatches on `action`. Only `confirm` changes the
     * channel; every other effect is returned.
     */
    method Receive(event: MessageEvent, handlers: map<string, Option<CallbackId>>)
      returns (reaction: Reaction)
      modifies this`confirmed, this`aiEnabled
      ensures !HasOrigin() || !SameOrigin(event.origin, origin.value, originOf) ==>
        reaction == NoReaction && confirmed == old(confirmed) && aiEnabled == old(aiEnabled)
      ensures HasOrigin() && SameOrigin(event.origin, origin.value, originOf) ==>
        if !Destructurable(event.data) then
          reaction == Thrown && confirmed == old(confirmed) && aiEnabled == old(aiEnabled)
        else if Prop(event.data, "action") == JStr("confirm") then
          reaction == NoReaction && confirmed && aiEnabled == AiEnabledIn(Prop(event.data, "data"))
        else
          reaction == Dispatch(Prop(event.data, "action"), Prop(event.data, "data"), handlers) &&
          confirmed == old(confirmed) && aiEnabled == old(aiEnabled)
    {
      if !HasOrigin() || !SameOrigin(event.origin, origin.value, originOf) {
        return NoReaction;
      }
      if !Destructurable(event.data) {
        return Thrown;
      }
      var action := Prop(event.data, "action");
      var data := Prop(event.data, "data");
      if action == JStr("confirm") {
        ReceiveConfirmAction(data);
        reaction := NoReaction;
      } else {
        reaction := Dispatch(action, data, handlers);
      }
    }

    /** `receiveConfirmAction`: the handshake is confirmed; AI support is as the parent reports it. */
    method ReceiveConfirmAction(data: Json)
      modifies this`confirmed, this`aiEnabled
      ensures confirmed && aiEnabled == AiEnabledIn(data)
    {
      confirmed := true;
      aiEnabled := Truthy(Prop(data, "aiEnabled"));
    }

    /**
     * `receiveConfirm`: checks the `confirmed` flag up to ten times (every 100 ms in
     * the page); `observed(i)` is the flag's value at the i-th check, the first
     * being now. Yields true as soon as a check sees it set, false after ten
     * checks that did not. A flag that was clear and is seen set was set by the
     * parent's `confirm` message, received between two checks; `confirmData`
     * is that message's `data`, and `receiveConfirmAction` has applied it by
     * the time the check sees the flag.
     */
    method ReceiveConfirm(observed: nat -> bool, confirmData: Json) returns (ok: bool, checks: nat)
      requires observed(0) == confirmed
      modifies this`confirmed, this`aiEnabled
      ensures 1 <= checks <= MaxAttempts
      ensures ok <==> exists i :: 0 <= i < MaxAttempts && observed(i)
      ensures ok ==> observed(checks - 1)
      ensures forall i :: 0 <= i < checks - 1 ==> !observed(i)
      ensures !ok ==> checks == MaxAttempts
      ensures ok ==> confirmed
      ensures ok && !old(confirmed) ==> aiEnabled == AiEnabledIn(confirmData)
      ensures !(ok && !old(confirmed)) ==> confirmed == old(confirmed) && aiEnabled == old(aiEnabled)
    {
      var attempts := 0;
      ok := false;
      while true
        invariant 0 <= attempts <= MaxAttempts
        invariant forall i :: 0 <= i < attempts ==> !observed(i)
        invariant confirmed == old(confirmed) && aiEnabled == old(aiEnabled)
        decreases MaxAttempts - attempts
      {
        if attempts >= MaxAttempts {
          ok := false;
          checks := attempts;
          return;
        }
        attempts := attempts + 1;
        if observed(attempts - 1) {
          if !confirmed {
            ReceiveConfirmAction(confirmData);
          }
          ok := true;
          checks := attempts;
          return;
        }
      }
    }
  }

  // ---------------------------------------------------------------------------
  // Properties of the inbound handlers

  /** A `saved` message for a key no registered item has reloads the page. */
  lemma SavedForMissingKeyReloads(handlers: map<string, Option<CallbackId>>)
    requires "missing-key" !in handlers
    ensures SavedReaction(JObj(map["key" := JStr("missing-key"), "collection" := JStr("articles"),
                                   "item" := JNum(1), "payload" := JObj(map[])]), handlers) == Reload
  {
  }

  /**
   * `highlightElement` with null or non-object data, or with `key: null`, clears
   * the highlight.
   */
  lemma HighlightClears(data: Json)
    requires !Truthy(data) || !(data.JObj? || data.JArr?) || Prop(data, "key").JNull?
    ensures HighlightCommand(data) == Some(HighlightElement(None))
  {
  }

  /**
   * A truthy `collection` with a defined `item` looks up by configuration, even
   * when a string `key` is present too; `fields` is passed only when truthy.
   */
  lemma HighlightConfigTakesPriority(data: Json)
    requires data.JObj?
    requires !Prop(data, "key").JNull?
    requires Truthy(Prop(data, "collection")) && !Prop(data, "item").JUndefined?
    ensures HighlightCommand(data) == Some(HighlightElement(Some(ByConfig(
      Prop(data, "collection"), Prop(data, "item"),
      if Truthy(Prop(data, "fields")) then Some(Prop(data, "fields")) else None))))
  {
  }

  /** Otherwise a string `key` looks up by key, and anything else issues no command. */
  lemma HighlightByKeyOrNothing(data: Json)
    requires data.JObj? || data.JArr?
    requires !Prop(data, "key").JNull?
    requires !(Truthy(Prop(data, "collection")) && !Prop(data, "item").JUndefined?)
    ensures Prop(data, "key").JStr? ==> HighlightCommand(data) == Some(HighlightElement(Some(ByKey(Prop(data, "key").s))))
    ensures !Prop(data, "key").JStr? ==> HighlightCommand(data).None?
  {
  }

  /** `showEditableElements` highlights all items iff its data is truthy; `activateElements` takes an array or nothing. */
  lemma ShowAndActivateCommands(data: Json, handlers: map<string, Option<CallbackId>>)
    ensures Dispatch(JStr("showEditableElements"), data, handlers) == Command(HighlightItems(Truthy(data)))
    ensures Dispatch(JStr("activateElements"), data, handlers) ==
      Command(ActivateItems(if data.JArr? then data.items else []))
  {
  }
}
