/**
 * The JavaScript string operations the runtime relies on, stated on `seq<char>`:
 * `String.prototype.split` with a one-character separator, `Array.prototype.join`,
 * `String.prototype.trim`, and the decimal text of an integer as a template
 * literal renders it.
 */
module JsString {
  import opened Base

  /** The characters `trim` removes: ECMAScript WhiteSpace and LineTerminator. */
  predicate IsWhitespace(c: char)
  {
    c == '\U{9}' || c == '\U{B}' || c == '\U{C}' || c == '\U{20}' || c == '\U{A0}' || c == '\U{FEFF}' ||
    c == '\U{1680}' || ('\U{2000}' <= c <= '\U{200A}') || c == '\U{202F}' || c == '\U{205F}' || c == '\U{3000}' ||
    c == '\U{A}' || c == '\U{D}' || c == '\U{2028}' || c == '\U{2029}'
  }

  /** `s` neither starts nor ends with whitespace, so `trim` leaves it alone. */
  predicate Trimmed(s: string)
  {
    |s| > 0 ==> !IsWhitespace(s[0]) && !IsWhitespace(s[|s| - 1])
  }

  /** Index of the first occurrence of `c` in `s`. */
  function IndexOf(s: string, c: char): (r: Option<nat>)
    ensures r.None? <==> c !in s
    ensures r.Some? ==> r.value < |s| && s[r.value] == c && c !in s[..r.value]
  {
    if |s| == 0 then None
    else if s[0] == c then Some(0)
    else match IndexOf(s[1..], c)
      case None => None
      case Some(i) => assert s[1..][..i] == s[1..i + 1]; Some(i + 1)
  }

  /** `s.split(c)`: the maximal pieces of `s` between occurrences of `c`. */
  function Split(s: string, c: char): (r: seq<string>)
    ensures |r| >= 1
    ensures forall k :: 0 <= k < |r| ==> c !in r[k]
    decreases |s|
  {
    match IndexOf(s, c)
    case None => [s]
    case Some(i) => [s[..i]] + Split(s[i + 1..], c)
  }

  /** `parts.join(c)`. */
  function Join(parts: seq<string>, c: char): string
  {
    if |parts| == 0 then ""
    else if |parts| == 1 then parts[0]
    else parts[0] + [c] + Join(parts[1..], c)
  }

  /** Splitting a joined list gives the list back when no part contains the separator. */
  lemma {:induction false} SplitJoin(parts: seq<string>, c: char)
    requires |parts| >= 1
    requires forall k :: 0 <= k < |parts| ==> c !in parts[k]
    ensures Split(Join(parts, c), c) == parts
  {
    if |parts| == 1 {
      assert IndexOf(parts[0], c).None?;
    } else {
      var s := Join(parts, c);
      var rest := Join(parts[1..], c);
      assert s == parts[0] + [c] + rest;
      var i := |parts[0]|;
      assert s[..i] == parts[0];
      assert s[i] == c;
      IndexOfAt(s, c, i);
      assert s[i + 1..] == rest;
      SplitJoin(parts[1..], c);
    }
  }

  /** A piece without the separator, then the separator: the split starts with that piece. */
  lemma SplitAfter(head: string, tail: string, c: char)
    requires c !in head
    ensures Split(head + [c] + tail, c) == [head] + Split(tail, c)
  {
    var s := head + [c] + tail;
    assert s[..|head|] == head;
    IndexOfAt(s, c, |head|);
    assert s[|head| + 1..] == tail;
  }

  /** The separator at `i`, with none before it, is what IndexOf finds. */
  lemma {:induction false} IndexOfAt(s: string, c: char, i: nat)
    requires i < |s| && s[i] == c && c !in s[..i]
    ensures IndexOf(s, c) == Some(i)
  {
    if i > 0 {
      assert s[0] in s[..i];
      assert s[1..][..i - 1] == s[1..i];
      assert forall x :: x in s[1..i] ==> x in s[..i];
      IndexOfAt(s[1..], c, i - 1);
    }
  }

  /** Joining the pieces of a split restores the original text. */
  lemma {:induction false} JoinSplit(s: string, c: char)
    ensures Join(Split(s, c), c) == s
    decreases |s|
  {
    match IndexOf(s, c)
    case None =>
    case Some(i) =>
      var tail := Split(s[i + 1..], c);
      assert Split(s, c) == [s[..i]] + tail;
      JoinCons(s[..i], tail, c);
      JoinSplit(s[i + 1..], c);
      assert s == s[..i] + [c] + s[i + 1..];
  }

  /** Joining one more part in front puts it and the separator before the rest. */
  lemma JoinCons(head: string, tail: seq<string>, c: char)
    requires |tail| >= 1
    ensures Join([head] + tail, c) == head + [c] + Join(tail, c)
  {
    assert ([head] + tail)[1..] == tail;
  }

  /** `s` without its leading whitespace: a suffix of `s`, and all it dropped was whitespace. */
  function TrimStart(s: string): (r: string)
    ensures |r| <= |s| && r == s[|s| - |r|..]
    ensures |r| > 0 ==> !IsWhitespace(r[0])
    ensures forall k :: 0 <= k < |s| - |r| ==> IsWhitespace(s[k])
  {
    if |s| > 0 && IsWhitespace(s[0]) then TrimStart(s[1..]) else s
  }

  /** `s` without its trailing whitespace: a prefix of `s`, and all it dropped was whitespace. */
  function TrimEnd(s: string): (r: string)
    ensures |r| <= |s| && r == s[..|r|]
    ensures |r| > 0 ==> !IsWhitespace(r[|r| - 1])
    ensures forall k :: |r| <= k < |s| ==> IsWhitespace(s[k])
  {
    if |s| > 0 && IsWhitespace(s[|s| - 1]) then TrimEnd(s[..|s| - 1]) else s
  }

  /**
   * `s.trim()`: `s` without its leading and trailing whitespace. The result is a
   * contiguous piece of `s` with no surrounding whitespace, and every character
   * of `s` around it is whitespace.
   */
  function Trim(s: string): (r: string)
    ensures Trimmed(r)
    ensures exists lo :: Around(s, lo, r)
  {
    var a := TrimStart(s);
    var r := TrimEnd(a);
    TrimmedAround(s, a, r);
    r
  }

  /** Cutting leading whitespace off `s`, then trailing whitespace off the rest. */
  lemma TrimmedAround(s: string, a: string, r: string)
    requires |a| <= |s| && a == s[|s| - |a|..] && (forall k :: 0 <= k < |s| - |a| ==> IsWhitespace(s[k]))
    requires |a| > 0 ==> !IsWhitespace(a[0])
    requires |r| <= |a| && r == a[..|r|] && (forall k :: |r| <= k < |a| ==> IsWhitespace(a[k]))
    requires |r| > 0 ==> !IsWhitespace(r[|r| - 1])
    ensures Trimmed(r) && Around(s, |s| - |a|, r)
  {
    var lo := |s| - |a|;
    forall k | lo + |r| <= k < |s| ensures IsWhitespace(s[k]) {
      assert s[k] == a[k - lo];
    }
  }

  /** `r` is `s[lo..lo + |r|]`, and every character of `s` outside that range is whitespace. */
  predicate Around(s: string, lo: nat, r: string)
  {
    && lo + |r| <= |s| && r == s[lo..lo + |r|]
    && (forall k :: 0 <= k < lo ==> IsWhitespace(s[k]))
    && (forall k :: lo + |r| <= k < |s| ==> IsWhitespace(s[k]))
  }

  /** Text without surrounding whitespace is left as it is by `trim`. */
  lemma TrimTrimmed(s: string)
    requires Trimmed(s)
    ensures Trim(s) == s
  {
  }

  /** `xs.map((x) => x.trim())`. */
  function TrimEach(xs: seq<string>): (r: seq<string>)
    ensures |r| == |xs| && forall k :: 0 <= k < |xs| ==> r[k] == Trim(xs[k])
  {
    seq(|xs|, k requires 0 <= k < |xs| => Trim(xs[k]))
  }

  /** The decimal digits `0` to `9`. */
  predicate IsDigit(c: char)
  {
    '0' <= c <= '9'
  }

  /** The digit character of `d`. */
  function Digit(d: nat): (c: char)
    requires d < 10
    ensures IsDigit(c) && c as int - '0' as int == d
  {
    ('0' as int + d) as char
  }

  /** Decimal text of a natural number, most significant digit first. */
  function NatText(n: nat): (r: string)
    ensures |r| >= 1
    ensures forall k :: 0 <= k < |r| ==> IsDigit(r[k])
  {
    if n < 10 then [Digit(n)] else NatText(n / 10) + [Digit(n % 10)]
  }

  /** `${n}` for an integer `n`: an optional minus sign and its decimal digits. */
  function NumberText(n: int): (r: string)
    ensures |r| >= 1 && Trimmed(r)
    ensures forall k :: 0 <= k < |r| ==> r[k] == '-' || IsDigit(r[k])
  {
    if n < 0 then "-" + NatText(-n) else NatText(n)
  }

  /** The number a text of decimal digits denotes, most significant digit first. */
  function DecimalValue(s: string): nat
    requires forall k :: 0 <= k < |s| ==> IsDigit(s[k])
  {
    if s == [] then 0
    else assert IsDigit(s[|s| - 1]); 10 * DecimalValue(s[..|s| - 1]) + (s[|s| - 1] as int - '0' as int)
  }

  /** The digits of `NatText(n)` read back to `n`, and only `0` starts with the digit `0`. */
  lemma {:induction false} NatTextValue(n: nat)
    ensures DecimalValue(NatText(n)) == n
    ensures NatText(n)[0] == '0' ==> n == 0
  {
    if n >= 10 {
      NatTextValue(n / 10);
      var r := NatText(n);
      assert r[..|r| - 1] == NatText(n / 10);
      assert r[0] == NatText(n / 10)[0];
    }
  }

  /** `${n}` reads back to `n`: a minus sign exactly when `n` is negative, then the digits of `|n|`. */
  lemma NumberTextValue(n: int)
    ensures n < 0 <==> NumberText(n)[0] == '-'
    ensures n < 0 ==> NumberText(n)[1..] == NatText(-n) && DecimalValue(NumberText(n)[1..]) == -n
    ensures n >= 0 ==> DecimalValue(NumberText(n)) == n
  {
    if n < 0 {
      NatTextValue(-n);
      assert NumberText(n)[1..] == NatText(-n);
    } else {
      NatTextValue(n);
    }
  }
}
