/**
 * The edit-marker attribute codec of `EditableElement` (src/lib/editable-element.ts):
 * `objectToEditAttr` writes an edit configuration as `key:value;key:value`, and
 * `editAttrToObject` reads such a string back, leniently.
 */
module EditAttr {
  import opened Base
  import opened JsString

  /** The keys of an edit configuration, in declaration order. */
  const ValidKeys: seq<string> := ["collection", "item", "fields", "mode"]

  /**
   * `validEditConfigKey`: whether `key` is one of the four configuration keys.
   * Each is a token the marker syntax can carry: no `:`, no `;`, no
   * surrounding whitespace.
   */
  predicate ValidEditConfigKey(key: string)
    ensures ValidEditConfigKey(key) ==> |key| >= 4 && ':' !in key && ';' !in key && Trimmed(key)
  {
    key in ValidKeys
  }

  /** A property value of the configuration object, as JavaScript could hold it. */
  datatype Value =
    | Str(s: string)
    | Num(n: int)
    | Null
    | Undefined
    | Strings(items: seq<string>)

  /** One `[key, value]` pair of `Object.entries(editConfig)`. */
  datatype Entry = Entry(key: string, value: Value)

  /** The template literal `${value}`; an array renders as its elements joined by commas. */
  function ValueText(v: Value): string
  {
    match v
    case Str(s) => s
    case Num(n) => NumberText(n)
    case Null => "null"
    case Undefined => "undefined"
    case Strings(xs) => Join(xs, ',')
  }

  /** The segment one entry contributes: `fields` arrays are comma-joined, other values rendered. */
  function Segment(e: Entry): string
  {
    if e.key == "fields" && e.value.Strings? then e.key + ":" + Join(e.value.items, ',')
    else e.key + ":" + ValueText(e.value)
  }

  /** The `dataAttr` list: one segment per entry with a valid key, in entry order. */
  function Segments(entries: seq<Entry>): (r: seq<string>)
    ensures |r| <= |entries|
  {
    if entries == [] then []
    else
      var last := entries[|entries| - 1];
      Segments(entries[..|entries| - 1]) + (if ValidEditConfigKey(last.key) then [Segment(last)] else [])
  }

  /** The attribute `objectToEditAttr` produces: the segments joined by `;`. */
  function EditAttrOf(entries: seq<Entry>): string
  {
    Join(Segments(entries), ';')
  }

  /**
   * `objectToEditAttr`: walks the entries, pushes `key:value` for every valid key
   * and joins the collected segments with `;`.
   */
  method ObjectToEditAttr(entries: seq<Entry>) returns (attr: string)
    ensures attr == EditAttrOf(entries)
  {
    var dataAttr: seq<string> := [];
    var i := 0;
    while i < |entries|
      invariant 0 <= i <= |entries|
      invariant dataAttr == Segments(entries[..i])
    {
      var e := entries[i];
      assert entries[..i + 1][..i] == entries[..i];
      if ValidEditConfigKey(e.key) {
        if e.key == "fields" && e.value.Strings? {
          dataAttr := dataAttr + [e.key + ":" + Join(e.value.items, ',')];
        } else {
          dataAttr := dataAttr + [e.key + ":" + ValueText(e.value)];
        }
      }
      i := i + 1;
    }
    assert entries[..i] == entries;
    attr := Join(dataAttr, ';');
  }

  // ---------------------------------------------------------------------------
  // The typed configuration (`EditConfig`) and its entries

  /** `item`: a string or numeric primary key, or null. */
  datatype Item = ItemString(s: string) | ItemNumber(n: int) | ItemNull

  datatype Mode = Drawer | Modal | Popover

  /** `EditConfig` with its two optional properties absent or present. */
  datatype EditConfig = EditConfig(collection: string, item: Item, fields: Option<seq<string>>, mode: Option<Mode>)

  function ModeName(m: Mode): string
  {
    match m
    case Drawer => "drawer"
    case Modal => "modal"
    case Popover => "popover"
  }

  function ItemValue(item: Item): Value
  {
    match item
    case ItemString(s) => Str(s)
    case ItemNumber(n) => Num(n)
    case ItemNull => Null
  }

  /** The text `item` takes in the attribute, and so the string it is read back as. */
  function ItemText(item: Item): string
  {
    ValueText(ItemValue(item))
  }

  /** `Object.entries` of a configuration written as an object literal in declaration order. */
  function Entries(cfg: EditConfig): (r: seq<Entry>)
    ensures |r| == 2 + (if cfg.fields.Some? then 1 else 0) + (if cfg.mode.Some? then 1 else 0)
    ensures forall k :: 0 <= k < |r| ==> ValidEditConfigKey(r[k].key)
    ensures forall i, j :: 0 <= i < j < |r| ==> r[i].key != r[j].key
  {
    [Entry("collection", Str(cfg.collection)), Entry("item", ItemValue(cfg.item))]
    + (if cfg.fields.Some? then [Entry("fields", Strings(cfg.fields.value))] else [])
    + (if cfg.mode.Some? then [Entry("mode", Str(ModeName(cfg.mode.value)))] else [])
  }

  // ---------------------------------------------------------------------------
  // Parsing

  /**
   * The record `editAttrToObject` returns: only the four known keys can be set,
   * `fields` as a list and every other value as a string.
   */
  datatype Parsed = Parsed(collection: Option<string>, item: Option<string>, fields: Option<seq<string>>, mode: Option<string>)

  const NothingParsed := Parsed(None, None, None, None)

  /** What one `;`-separated segment does to the record being built. */
  function ApplyPair(acc: Parsed, pair: string): Parsed
  {
    ApplyKeyValue(acc, Split(pair, ':'))
  }

  /** A segment split on `:`: with fewer than two pieces it is skipped; the value is the second piece. */
  function ApplyKeyValue(acc: Parsed, keyValue: seq<string>): Parsed
  {
    if |keyValue| < 2 then acc else SetKey(acc, Trim(keyValue[0]), keyValue[1])
  }

  /** Stores a raw value under a trimmed key; unknown keys are dropped. */
  function SetKey(acc: Parsed, key: string, value: string): Parsed
  {
    if !ValidEditConfigKey(key) then acc
    else if key == "fields" then acc.(fields := Some(TrimEach(Split(value, ','))))
    else if key == "collection" then acc.(collection := Some(Trim(value)))
    else if key == "item" then acc.(item := Some(Trim(value)))
    else acc.(mode := Some(Trim(value)))
  }

  /** The segments applied in order, left to right. */
  function ApplyPairs(acc: Parsed, pairs: seq<string>): Parsed
    decreases |pairs|
  {
    if pairs == [] then acc else ApplyPairs(ApplyPair(acc, pairs[0]), pairs[1..])
  }

  /** The configuration read from an attribute string. */
  function ParseEditAttr(str: string): Parsed
  {
    ApplyPairs(NothingParsed, Split(str, ';'))
  }

  /** `editAttrToObject`: splits on `;` and folds each segment into the result record. */
  method EditAttrToObject(str: string) returns (result: Parsed)
    ensures result == ParseEditAttr(str)
  {
    var pairs := Split(str, ';');
    result := NothingParsed;
    var i := 0;
    while i < |pairs|
      invariant 0 <= i <= |pairs|
      invariant ApplyPairs(result, pairs[i..]) == ParseEditAttr(str)
    {
      var pair := pairs[i];
      assert pairs[i..][1..] == pairs[i + 1..];
      var keyValue := Split(pair, ':');
      if |keyValue| >= 2 {
        var key := Trim(keyValue[0]);
        if ValidEditConfigKey(key) {
          var value := keyValue[1];
          if key == "fields" {
            result := result.(fields := Some(TrimEach(Split(value, ','))));
          } else if key == "collection" {
            result := result.(collection := Some(Trim(value)));
          } else if key == "item" {
            result := result.(item := Some(Trim(value)));
          } else {
            result := result.(mode := Some(Trim(value)));
          }
        }
      }
      i := i + 1;
    }
  }
}

module EditAttrProperties {
  import opened Base
  import opened JsString
  import opened EditAttr

  // ---------------------------------------------------------------------------
  // Serialising

  /** Serialising a concatenation of entries concatenates their segments. */
  lemma {:induction false} SegmentsAppend(a: seq<Entry>, b: seq<Entry>)
    ensures Segments(a + b) == Segments(a) + Segments(b)
    decreases |b|
  {
    if b == [] {
      assert a + b == a;
    } else {
      var b' := b[..|b| - 1];
      assert (a + b)[..|a + b| - 1] == a + b';
      assert (a + b)[|a + b| - 1] == b[|b| - 1];
      SegmentsAppend(a, b');
    }
  }

  /**
   * Serialising emits exactly one `key:value` segment per entry whose key is
   * `collection`, `item`, `fields` or `mode`, in entry order, and nothing for any
   * other key.
   */
  lemma {:induction false} SegmentsFilterValidKeys(entries: seq<Entry>)
    ensures |Segments(entries)| == |ValidOnly(entries)|
    ensures forall k :: 0 <= k < |ValidOnly(entries)| ==> Segments(entries)[k] == Segment(ValidOnly(entries)[k])
    decreases |entries|
  {
    if entries != [] {
      var e, rest := entries[0], entries[1..];
      assert entries == [e] + rest;
      SegmentsCons(e, rest);
      SegmentsFilterValidKeys(rest);
      var segs, valid := Segments(entries), ValidOnly(entries);
      if ValidEditConfigKey(e.key) {
        assert segs == [Segment(e)] + Segments(rest);
        assert valid == [e] + ValidOnly(rest);
        forall k | 0 <= k < |valid| ensures segs[k] == Segment(valid[k]) {
          if k > 0 { assert segs[k] == Segments(rest)[k - 1] && valid[k] == ValidOnly(rest)[k - 1]; }
        }
      } else {
        assert segs == Segments(rest) && valid == ValidOnly(rest);
      }
    }
  }

  /** The segments of entries led by `e` are `e`'s own segment, if any, then the rest's. */
  lemma SegmentsCons(e: Entry, rest: seq<Entry>)
    ensures Segments([e] + rest) == (if ValidEditConfigKey(e.key) then [Segment(e)] else []) + Segments(rest)
  {
    SegmentsAppend([e], rest);
    assert [e][..0] == [];
  }

  /** The entries with a valid key, in their original order. */
  function ValidOnly(entries: seq<Entry>): (r: seq<Entry>)
    ensures forall k :: 0 <= k < |r| ==> ValidEditConfigKey(r[k].key)
    ensures |r| <= |entries|
  {
    if entries == [] then []
    else (if ValidEditConfigKey(entries[0].key) then [entries[0]] else []) + ValidOnly(entries[1..])
  }

  /** `setAttr({collection: 'articles', item: 123})` is `collection:articles;item:123`. */
  lemma SetAttrCollectionItem()
    ensures EditAttrOf(Entries(EditConfig("articles", ItemNumber(123), None, None))) == "collection:articles;item:123"
  {
    var cfg := EditConfig("articles", ItemNumber(123), None, None);
    EntriesSegments(cfg);
    CollectionItemSegments(cfg);
    JoinTwo("collection:articles", "item:123", ';');
  }

  lemma CollectionItemSegments(cfg: EditConfig)
    requires cfg == EditConfig("articles", ItemNumber(123), None, None)
    ensures ConfigSegments(cfg) == ["collection:articles", "item:123"]
  {
    var segs := ConfigSegments(cfg);
    assert ItemText(cfg.item) == "123";
    assert |segs| == 2 && segs[0] == "collection:articles" && segs[1] == "item:123";
  }

  lemma JoinTwo(a: string, b: string, sep: char)
    ensures Join([a, b], sep) == a + [sep] + b
  {
    assert [a, b][1..] == [b];
  }

  /** `setAttr({collection: 'articles', item: 1, fields: ['title', 'body']})`. */
  lemma SetAttrWithFields(cfg: EditConfig)
    requires cfg == EditConfig("articles", ItemNumber(1), Some(["title", "body"]), None)
    ensures EditAttrOf(Entries(cfg)) == "collection:articles;item:1;fields:title,body"
  {
    FieldsExampleSegments(cfg);
    EntriesSegments(cfg);
    JoinThree("collection:articles", "item:1", "fields:title,body", ';');
  }

  lemma JoinThree(a: string, b: string, c: string, sep: char)
    ensures Join([a, b, c], sep) == a + [sep] + b + [sep] + c
  {
    var t := [a, b, c];
    assert t[1..] == [b, c] && t[1..][1..] == [c];
    assert Join([c], sep) == c;
    assert Join([b, c], sep) == b + [sep] + c;
  }

  lemma FieldsExampleSegments(cfg: EditConfig)
    requires cfg == EditConfig("articles", ItemNumber(1), Some(["title", "body"]), None)
    ensures ConfigSegments(cfg) == ["collection:articles", "item:1", "fields:title,body"]
  {
    var segs := ConfigSegments(cfg);
    assert Join(["title", "body"], ',') == "title" + "," + Join(["body"], ',');
    assert ItemText(cfg.item) == "1";
    var t := ["collection:articles", "item:1", "fields:title,body"];
    assert |segs| == 3 && segs[0] == t[0] && segs[1] == t[1] && segs[2] == t[2];
  }

  // ---------------------------------------------------------------------------
  // Parsing

  /** A segment that leaves the record unchanged: no `:` at all, or an unknown trimmed key. */
  predicate Skipped(pair: string)
  {
    var keyValue := Split(pair, ':');
    |keyValue| < 2 || !ValidEditConfigKey(Trim(keyValue[0]))
  }

  /** A segment without `:` is skipped. */
  lemma NoColonIsSkipped(pair: string)
    requires ':' !in pair
    ensures Skipped(pair)
  {
    assert Split(pair, ':') == [pair];
  }

  /** Skipped segments leave the record as it was. */
  lemma SkippedLeavesRecord(acc: Parsed, pair: string)
    requires Skipped(pair)
    ensures ApplyPair(acc, pair) == acc
  {
  }

  /** Folding segments over a concatenation is folding the first part, then the second. */
  lemma {:induction false} ApplyPairsAppend(acc: Parsed, a: seq<string>, b: seq<string>)
    ensures ApplyPairs(acc, a + b) == ApplyPairs(ApplyPairs(acc, a), b)
    decreases |a|
  {
    if a == [] {
      assert a + b == b;
    } else {
      var next := ApplyPair(acc, a[0]);
      assert (a + b)[0] == a[0];
      assert (a + b)[1..] == a[1..] + b;
      assert ApplyPairs(acc, a + b) == ApplyPairs(next, a[1..] + b);
      assert ApplyPairs(acc, a) == ApplyPairs(next, a[1..]);
      ApplyPairsAppend(next, a[1..], b);
    }
  }

  /** Dropping a skipped segment from the list being folded changes nothing. */
  lemma SkippedPairIgnored(acc: Parsed, pre: seq<string>, bad: string, post: seq<string>)
    requires Skipped(bad)
    ensures ApplyPairs(acc, pre + [bad] + post) == ApplyPairs(acc, pre + post)
  {
    ApplyPairsAppend(acc, pre + [bad], post);
    ApplyPairsAppend(acc, pre, [bad]);
    ApplyPairsAppend(acc, pre, post);
    SkippedAlone(ApplyPairs(acc, pre), bad);
  }

  /** Folding a lone skipped segment gives back the record. */
  lemma SkippedAlone(acc: Parsed, bad: string)
    requires Skipped(bad)
    ensures ApplyPairs(acc, [bad]) == acc
  {
    assert [bad][1..] == [];
    SkippedLeavesRecord(acc, bad);
  }

  /**
   * A malformed or unknown segment, wherever it stands in the attribute, has no
   * effect on what the other segments contribute.
   */
  lemma SkippedSegmentHasNoEffect(pre: seq<string>, bad: string, post: seq<string>)
    requires Skipped(bad) && ';' !in bad
    requires forall k :: 0 <= k < |pre| ==> ';' !in pre[k]
    requires forall k :: 0 <= k < |post| ==> ';' !in post[k]
    ensures ParseEditAttr(Join(pre + [bad] + post, ';')) == ParseEditAttr(Join(pre + post, ';'))
  {
    var all := pre + [bad] + post;
    forall k | 0 <= k < |all| ensures ';' !in all[k] {
      if k < |pre| { assert all[k] == pre[k]; }
      else if k > |pre| { assert all[k] == post[k - |pre| - 1]; }
    }
    ParseJoined(all);
    SkippedPairIgnored(NothingParsed, pre, bad, post);
    var rest := pre + post;
    if rest == [] {
      ParseEmpty();
    } else {
      forall k | 0 <= k < |rest| ensures ';' !in rest[k] {
        if k < |pre| { assert rest[k] == pre[k]; } else { assert rest[k] == post[k - |pre|]; }
      }
      ParseJoined(rest);
    }
  }

  /** Parsing segments joined by `;` folds exactly those segments. */
  lemma ParseJoined(parts: seq<string>)
    requires |parts| >= 1
    requires forall k :: 0 <= k < |parts| ==> ';' !in parts[k]
    ensures ParseEditAttr(Join(parts, ';')) == ApplyPairs(NothingParsed, parts)
  {
    SplitJoin(parts, ';');
  }

  /** The empty attribute, like `collection:articles;;item:1;`'s empty segments, sets nothing. */
  lemma ParseEmpty()
    ensures ParseEditAttr("") == NothingParsed
    ensures ApplyPairs(NothingParsed, []) == NothingParsed
  {
    assert Split("", ';') == [""];
    NoColonIsSkipped("");
    assert ApplyPairs(NothingParsed, [""]) == ApplyPairs(ApplyPair(NothingParsed, ""), []);
  }

  /** `k:v` with neither part holding `:` splits into exactly `[k, v]`. */
  lemma PairSplit(k: string, v: string)
    requires ':' !in k && ':' !in v
    ensures Split(k + ":" + v, ':') == [k, v]
  {
    assert Join([k, v], ':') == k + ":" + v;
    SplitJoin([k, v], ':');
  }

  /**
   * The value of a segment is only the text between its first and second `:`;
   * anything after a second `:` is dropped.
   */
  lemma ValueEndsAtSecondColon(acc: Parsed, k: string, v: string, rest: string)
    requires ':' !in k && ':' !in v
    ensures ApplyPair(acc, k + ":" + v + ":" + rest) == ApplyPair(acc, k + ":" + v)
  {
    SplitTwoColons(k, v, rest);
    PairSplit(k, v);
    var pieces := [k, v] + Split(rest, ':');
    assert pieces[0] == k && pieces[1] == v;
    assert ApplyKeyValue(acc, pieces) == ApplyKeyValue(acc, [k, v]);
  }

  /** `k:v:rest` splits into `k`, `v` and the pieces of `rest`. */
  lemma SplitTwoColons(k: string, v: string, rest: string)
    requires ':' !in k && ':' !in v
    ensures Split(k + ":" + v + ":" + rest, ':') == [k, v] + Split(rest, ':')
  {
    var tail := v + [':'] + rest;
    ColonsRegroup(k, v, rest);
    SplitAfter(k, tail, ':');
    SplitAfter(v, rest, ':');
    ConsTwo(k, v, Split(rest, ':'));
  }

  lemma ColonsRegroup(k: string, v: string, rest: string)
    ensures k + ":" + v + ":" + rest == k + [':'] + (v + [':'] + rest)
  {
  }

  lemma ConsTwo<T>(a: T, b: T, xs: seq<T>)
    ensures [a] + ([b] + xs) == [a, b] + xs
  {
  }

  /** A later segment with the same key overwrites what an earlier one set. */
  lemma RepeatedKeyOverwrites(acc: Parsed, first: string, second: string)
    requires !Skipped(first) && !Skipped(second)
    requires Trim(Split(first, ':')[0]) == Trim(Split(second, ':')[0])
    ensures ApplyPair(ApplyPair(acc, first), second) == ApplyPair(acc, second)
  {
    var a, b := Split(first, ':'), Split(second, ':');
    assert ApplyPair(acc, first) == SetKey(acc, Trim(a[0]), a[1]);
    SetKeyTwice(acc, Trim(a[0]), a[1], b[1]);
  }

  /** Storing under the same key twice keeps only the second value. */
  lemma SetKeyTwice(acc: Parsed, key: string, v1: string, v2: string)
    ensures SetKey(SetKey(acc, key, v1), key, v2) == SetKey(acc, key, v2)
  {
    if ValidEditConfigKey(key) {
      if key == "fields" {
      } else if key == "collection" {
      } else if key == "item" {
      }
    }
  }

  /**
   * Segments with different trimmed keys can be read in either order, so the
   * record does not depend on the order of the configuration's properties.
   */
  lemma DistinctKeysCommute(acc: Parsed, first: string, second: string)
    requires Trim(Split(first, ':')[0]) != Trim(Split(second, ':')[0])
    ensures ApplyPair(ApplyPair(acc, first), second) == ApplyPair(ApplyPair(acc, second), first)
  {
    var a, b := Split(first, ':'), Split(second, ':');
    if |a| >= 2 && |b| >= 2 {
      SetKeyCommute(acc, Trim(a[0]), a[1], Trim(b[0]), b[1]);
    }
  }

  /** Storing under two different keys gives the same record in either order. */
  lemma SetKeyCommute(acc: Parsed, k1: string, v1: string, k2: string, v2: string)
    requires k1 != k2
    ensures SetKey(SetKey(acc, k1, v1), k2, v2) == SetKey(SetKey(acc, k2, v2), k1, v1)
  {
    if ValidEditConfigKey(k1) && ValidEditConfigKey(k2) {
      assert "item" != "mode" by { assert "item"[0] != "mode"[0]; }
      if k1 == "collection" {
      } else if k1 == "item" {
      } else if k1 == "fields" {
      } else {
        assert k1 == "mode";
      }
    }
  }

  /** A segment `key:value` stores `value` under the key with its surrounding whitespace trimmed. */
  lemma KeyValuePair(acc: Parsed, key: string, v: string)
    requires ':' !in key && ':' !in v
    ensures ApplyPair(acc, key + ":" + v) == SetKey(acc, Trim(key), v)
  {
    PairSplit(key, v);
  }

  /** The text `item` becomes in the attribute. */
  lemma ItemTextIsToken(item: Item)
    requires item.ItemString? ==> ';' !in item.s && ':' !in item.s && Trimmed(item.s)
    ensures ';' !in ItemText(item) && ':' !in ItemText(item) && Trimmed(ItemText(item))
  {
    if item.ItemNumber? {
      var t := NumberText(item.n);
      assert forall c :: c in t ==> c == '-' || IsDigit(c);
    }
  }

  /** Joining parts that all avoid `x` with a separator other than `x` avoids `x`. */
  lemma {:induction false} JoinAvoids(parts: seq<string>, sep: char, x: char)
    requires sep != x
    requires forall k :: 0 <= k < |parts| ==> x !in parts[k]
    ensures x !in Join(parts, sep)
  {
    if |parts| > 1 {
      JoinAvoids(parts[1..], sep, x);
    }
  }

  /** Every item of a list is already trimmed, so trimming each changes nothing. */
  lemma TrimEachTrimmed(xs: seq<string>)
    requires forall k :: 0 <= k < |xs| ==> Trimmed(xs[k])
    ensures TrimEach(xs) == xs
  {
    forall k | 0 <= k < |xs| ensures TrimEach(xs)[k] == xs[k] {
      TrimTrimmed(xs[k]);
    }
  }

  /**
   * The configurations that survive a round trip: no token contains `;` or `:`,
   * no field name contains `,`, no token has surrounding whitespace, and a
   * present `fields` list is not empty.
   */
  predicate WellFormed(cfg: EditConfig)
  {
    && ';' !in cfg.collection && ':' !in cfg.collection && Trimmed(cfg.collection)
    && (cfg.item.ItemString? ==> ';' !in cfg.item.s && ':' !in cfg.item.s && Trimmed(cfg.item.s))
    && (cfg.fields.Some? ==>
          && |cfg.fields.value| > 0
          && forall k :: 0 <= k < |cfg.fields.value| ==>
               var f := cfg.fields.value[k]; ';' !in f && ':' !in f && ',' !in f && Trimmed(f))
  }

  /** What reading back a serialised configuration yields: `item` always as a string. */
  function Expected(cfg: EditConfig): Parsed
  {
    Parsed(Some(cfg.collection), Some(ItemText(cfg.item)), cfg.fields,
           if cfg.mode.Some? then Some(ModeName(cfg.mode.value)) else None)
  }

  /** The segments written for a configuration: collection, item, then the optional fields and mode. */
  function ConfigSegments(cfg: EditConfig): seq<string>
  {
    ["collection" + ":" + cfg.collection, "item" + ":" + ItemText(cfg.item)]
    + (if cfg.fields.Some? then ["fields" + ":" + Join(cfg.fields.value, ',')] else [])
    + (if cfg.mode.Some? then ["mode" + ":" + ModeName(cfg.mode.value)] else [])
  }

  /** Every key of a typed configuration is valid, so each of its entries yields a segment. */
  lemma EntriesSegments(cfg: EditConfig)
    ensures Segments(Entries(cfg)) == ConfigSegments(cfg)
  {
    var es := Entries(cfg);
    var base := [Entry("collection", Str(cfg.collection)), Entry("item", ItemValue(cfg.item))];
    var f := if cfg.fields.Some? then [Entry("fields", Strings(cfg.fields.value))] else [];
    var m := if cfg.mode.Some? then [Entry("mode", Str(ModeName(cfg.mode.value)))] else [];
    assert es == base + f + m;
    SegmentsAppend(base + f, m);
    SegmentsAppend(base, f);
    assert base[..1] == [base[0]] && base[..1][..0] == [];
    assert Segments(base) == ["collection" + ":" + cfg.collection, "item" + ":" + ItemText(cfg.item)];
    if cfg.fields.Some? {
      assert f[..0] == [];
    }
    if cfg.mode.Some? {
      assert m[..0] == [];
    }
  }

  /** No segment of a well-formed configuration contains `;`. */
  lemma SegmentsAvoidSemicolon(cfg: EditConfig)
    requires WellFormed(cfg)
    ensures forall k :: 0 <= k < |ConfigSegments(cfg)| ==> ';' !in ConfigSegments(cfg)[k]
  {
    ItemTextIsToken(cfg.item);
    if cfg.fields.Some? {
      JoinAvoids(cfg.fields.value, ',', ';');
    }
  }

  /** A `collection` segment stores its trimmed value. */
  lemma ReadCollection(acc: Parsed, v: string)
    requires ':' !in v
    ensures ApplyPair(acc, "collection" + ":" + v) == acc.(collection := Some(Trim(v)))
  {
    assert Trimmed("collection");
    TrimTrimmed("collection");
    KeyValuePair(acc, "collection", v);
  }

  /** An `item` segment stores its trimmed value, as a string. */
  lemma ReadItem(acc: Parsed, v: string)
    requires ':' !in v
    ensures ApplyPair(acc, "item" + ":" + v) == acc.(item := Some(Trim(v)))
  {
    assert Trimmed("item");
    TrimTrimmed("item");
    KeyValuePair(acc, "item", v);
  }

  /** A `fields` segment stores its comma-separated pieces, each trimmed. */
  lemma ReadFieldList(acc: Parsed, v: string)
    requires ':' !in v
    ensures ApplyPair(acc, "fields" + ":" + v) == acc.(fields := Some(TrimEach(Split(v, ','))))
  {
    assert Trimmed("fields");
    TrimTrimmed("fields");
    KeyValuePair(acc, "fields", v);
  }

  /** A `mode` segment stores its trimmed value. */
  lemma ReadModeName(acc: Parsed, v: string)
    requires ':' !in v
    ensures ApplyPair(acc, "mode" + ":" + v) == acc.(mode := Some(Trim(v)))
  {
    assert Trimmed("mode");
    TrimTrimmed("mode");
    KeyValuePair(acc, "mode", v);
  }

  /** Folding one segment is applying it. */
  lemma ApplyOne(acc: Parsed, pair: string)
    ensures ApplyPairs(acc, [pair]) == ApplyPair(acc, pair)
  {
    assert ApplyPairs(acc, [pair]) == ApplyPairs(ApplyPair(acc, pair), []);
  }

  /** Reading the `collection` and `item` segments. */
  lemma ReadHead(cfg: EditConfig)
    requires WellFormed(cfg)
    ensures ApplyPairs(NothingParsed, ["collection" + ":" + cfg.collection, "item" + ":" + ItemText(cfg.item)])
      == NothingParsed.(collection := Some(cfg.collection), item := Some(ItemText(cfg.item)))
  {
    var it := ItemText(cfg.item);
    ItemTextIsToken(cfg.item);
    ApplyTwo(NothingParsed, "collection" + ":" + cfg.collection, "item" + ":" + it);
    ReadCollection(NothingParsed, cfg.collection);
    TrimTrimmed(cfg.collection);
    ReadItem(NothingParsed.(collection := Some(cfg.collection)), it);
    TrimTrimmed(it);
  }

  /** Folding two segments applies the first, then the second. */
  lemma ApplyTwo(acc: Parsed, first: string, second: string)
    ensures ApplyPairs(acc, [first, second]) == ApplyPair(ApplyPair(acc, first), second)
  {
    assert [first, second][1..] == [second];
    ApplyOne(ApplyPair(acc, first), second);
  }

  /** Reading the optional `fields` segment gives back the field list. */
  lemma ReadFields(acc: Parsed, cfg: EditConfig)
    requires WellFormed(cfg) && acc.fields.None?
    ensures ApplyPairs(acc, if cfg.fields.Some? then ["fields" + ":" + Join(cfg.fields.value, ',')] else [])
      == acc.(fields := cfg.fields)
  {
    if cfg.fields.Some? {
      var names := cfg.fields.value;
      assert forall k :: 0 <= k < |names| ==> ',' !in names[k] && ':' !in names[k] && Trimmed(names[k]);
      JoinAvoids(names, ',', ':');
      ApplyOne(acc, "fields" + ":" + Join(names, ','));
      ReadFieldList(acc, Join(names, ','));
      SplitJoin(names, ',');
      TrimEachTrimmed(names);
      assert TrimEach(Split(Join(names, ','), ',')) == names;
      assert ApplyPair(acc, "fields" + ":" + Join(names, ',')) == acc.(fields := Some(names));
    }
  }

  /** Reading the optional `mode` segment gives back the mode's name. */
  lemma ReadMode(acc: Parsed, cfg: EditConfig)
    requires acc.mode.None?
    ensures ApplyPairs(acc, if cfg.mode.Some? then ["mode" + ":" + ModeName(cfg.mode.value)] else [])
      == acc.(mode := if cfg.mode.Some? then Some(ModeName(cfg.mode.value)) else None)
  {
    if cfg.mode.Some? {
      var name := ModeName(cfg.mode.value);
      assert ':' !in name && Trimmed(name) by {
        match cfg.mode.value
        case Drawer =>
        case Modal =>
        case Popover =>
      }
      ApplyOne(acc, "mode" + ":" + name);
      ReadModeName(acc, name);
      TrimTrimmed(name);
    }
  }

  /** Round trip: parsing the attribute written for a well-formed configuration gives it back. */
  lemma RoundTrip(cfg: EditConfig)
    requires WellFormed(cfg)
    ensures ParseEditAttr(EditAttrOf(Entries(cfg))) == Expected(cfg)
  {
    EntriesSegments(cfg);
    SegmentsAvoidSemicolon(cfg);
    var segs := ConfigSegments(cfg);
    ParseJoined(segs);
    var head := ["collection" + ":" + cfg.collection, "item" + ":" + ItemText(cfg.item)];
    var f := if cfg.fields.Some? then ["fields" + ":" + Join(cfg.fields.value, ',')] else [];
    var m := if cfg.mode.Some? then ["mode" + ":" + ModeName(cfg.mode.value)] else [];
    assert segs == head + f + m;
    ApplyPairsAppend(NothingParsed, head + f, m);
    ApplyPairsAppend(NothingParsed, head, f);
    ReadHead(cfg);
    var p2 := NothingParsed.(collection := Some(cfg.collection), item := Some(ItemText(cfg.item)));
    ReadFields(p2, cfg);
    ReadMode(p2.(fields := cfg.fields), cfg);
  }
}
