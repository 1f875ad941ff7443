/**
 * JavaScript values as the route handlers see them: strings are sequences of
 * UTF-16 code units, a form field that was not sent is `undefined`, and
 * `String.prototype.trim` strips white space and line terminators from both ends.
 */
module Js {

  /** One UTF-16 code unit; a JavaScript string is a sequence of these. */
  newtype CodeUnit = c: int | 0 <= c < 0x1_0000

  type JsString = seq<CodeUnit>

  /** A value that may be `undefined` (a missing form field, a missing session key). */
  datatype Option<+T> = None | Some(value: T) {
    function GetOr(default: T): T {
      match this
      case Some(v) => v
      case None => default
    }
  }

  /** The code units of an ASCII literal such as a fixed message (long ones are written in short pieces). */
  function Lit(s: string): JsString {
    seq(|s|, i requires 0 <= i < |s| => (s[i] as int % 0x1_0000) as CodeUnit)
  }

  /** JavaScript truthiness of a value that is a string or undefined. */
  predicate Truthy(o: Option<JsString>) {
    o.Some? && o.value != []
  }

  /** `(x || "")` for a string-or-undefined `x`. */
  function OrEmpty(o: Option<JsString>): (r: JsString)
    ensures Truthy(o) ==> r == o.value
    ensures !Truthy(o) ==> r == []
  {
    match o
    case Some(s) => s
    case None => []
  }

  /** `String(x)` for a string-or-undefined `x`: `undefined` becomes "undefined". */
  function Stringify(o: Option<JsString>): JsString {
    match o
    case Some(s) => s
    case None => Lit("undefined")
  }

  /** LineTerminator of ECMAScript: LF, CR, LINE SEPARATOR, PARAGRAPH SEPARATOR. */
  predicate IsLineTerminator(c: CodeUnit) {
    c == 0x0A || c == 0x0D || c == 0x2028 || c == 0x2029
  }

  /** WhiteSpace of ECMAScript: TAB, VT, FF, ZWNBSP and the space separators. */
  predicate IsWhiteSpace(c: CodeUnit) {
    c == 0x09 || c == 0x0B || c == 0x0C || c == 0x20 || c == 0xA0 || c == 0x1680
    || (0x2000 <= c <= 0x200A) || c == 0x202F || c == 0x205F || c == 0x3000 || c == 0xFEFF
  }

  /** The code units that `trim` removes. */
  predicate IsTrimmable(c: CodeUnit) {
    IsWhiteSpace(c) || IsLineTerminator(c)
  }

  /** `r` is `s` with the first `k` code units and some tail removed, all of them trimmable. */
  predicate StripsTo(s: JsString, k: int, r: JsString) {
    0 <= k <= |s| - |r| && r == s[k..k + |r|]
    && (forall i :: 0 <= i < k ==> IsTrimmable(s[i]))
    && (forall i :: k + |r| <= i < |s| ==> IsTrimmable(s[i]))
  }

  /** `s.trim()`: trimmable code units removed from both ends, one at a time. */
  function Trim(s: JsString): (r: JsString)
    ensures |r| <= |s|
    ensures r != [] ==> !IsTrimmable(r[0]) && !IsTrimmable(r[|r| - 1])
    decreases |s|
  {
    if s == [] then []
    else if IsTrimmable(s[0]) then Trim(s[1..])
    else if IsTrimmable(s[|s| - 1]) then Trim(s[..|s| - 1])
    else s
  }

  /**
   * What `trim` removes: the result is the part of `s` between a prefix and a
   * suffix made only of trimmable code units.
   */
  lemma {:induction false} TrimStrips(s: JsString)
    ensures exists k :: StripsTo(s, k, Trim(s))
    decreases |s|
  {
    var r := Trim(s);
    if s == [] {
      assert StripsTo(s, 0, r);
    } else if IsTrimmable(s[0]) {
      TrimStrips(s[1..]);
      var k :| StripsTo(s[1..], k, r);
      StripsOneMoreInFront(s, k, r);
    } else if IsTrimmable(s[|s| - 1]) {
      TrimStrips(s[..|s| - 1]);
      var k :| StripsTo(s[..|s| - 1], k, r);
      StripsOneMoreBehind(s, k, r);
    } else {
      assert StripsTo(s, 0, r);
    }
  }

  lemma StripsOneMoreInFront(s: JsString, k: int, r: JsString)
    requires s != [] && IsTrimmable(s[0]) && StripsTo(s[1..], k, r)
    ensures StripsTo(s, k + 1, r)
  {
    var t := s[1..];
    forall i | 0 <= i < k + 1 ensures IsTrimmable(s[i]) {
      if i > 0 { assert s[i] == t[i - 1]; }
    }
    forall i | k + 1 + |r| <= i < |s| ensures IsTrimmable(s[i]) {
      assert s[i] == t[i - 1];
    }
    assert r == s[k + 1..k + 1 + |r|];
  }

  lemma StripsOneMoreBehind(s: JsString, k: int, r: JsString)
    requires s != [] && IsTrimmable(s[|s| - 1]) && StripsTo(s[..|s| - 1], k, r)
    ensures StripsTo(s, k, r)
  {
    var t := s[..|s| - 1];
    forall i | 0 <= i < k ensures IsTrimmable(s[i]) {
      assert s[i] == t[i];
    }
    forall i | k + |r| <= i < |s| ensures IsTrimmable(s[i]) {
      if i < |s| - 1 { assert s[i] == t[i]; }
    }
    assert r == s[k..k + |r|];
  }

  /** Trimming twice is trimming once. */
  lemma TrimIdempotent(s: JsString)
    ensures Trim(Trim(s)) == Trim(s)
  {
  }

  /** A string trims to the empty string exactly when it is blank. */
  lemma {:induction false} TrimEmptyIffBlank(s: JsString)
    ensures Trim(s) == [] <==> forall i :: 0 <= i < |s| ==> IsTrimmable(s[i])
  {
    TrimStrips(s);
    var r := Trim(s);
    var k :| StripsTo(s, k, r);
    if r != [] {
      assert s[k] == r[0];
    } else {
      forall i | 0 <= i < |s| ensures IsTrimmable(s[i]) {
        if i >= k { assert k + |r| <= i; }
      }
    }
  }

  /** A value that is truthy after `?.trim()`: present and not blank. */
  lemma {:induction false} TrimmedTruthy(o: Option<JsString>)
    ensures o.Some? ==> (Trim(o.value) != [] <==> exists i :: 0 <= i < |o.value| && !IsTrimmable(o.value[i]))
  {
    if o.Some? {
      TrimEmptyIffBlank(o.value);
    }
  }

  // ---------------------------------------------------------------- surrogates

  predicate IsHighSurrogate(c: CodeUnit) { 0xD800 <= c as int <= 0xDBFF }
  predicate IsLowSurrogate(c: CodeUnit) { 0xDC00 <= c as int <= 0xDFFF }

  /**
   * Whether `encodeURIComponent(s)` gets through `s` without a URIError: read
   * from the left, every high surrogate is followed by a low one and no low
   * surrogate stands alone.
   */
  predicate WellFormedUnicode(s: JsString)
    decreases |s|
  {
    if s == [] then true
    else if IsHighSurrogate(s[0]) then |s| >= 2 && IsLowSurrogate(s[1]) && WellFormedUnicode(s[2..])
    else !IsLowSurrogate(s[0]) && WellFormedUnicode(s[1..])
  }

  /** The same condition stated position by position: no surrogate without its partner. */
  predicate SurrogatesPaired(s: JsString) {
    && (forall i :: 0 <= i < |s| && IsHighSurrogate(s[i]) ==> i + 1 < |s| && IsLowSurrogate(s[i + 1]))
    && (forall i :: 0 <= i < |s| && IsLowSurrogate(s[i]) ==> 0 < i && IsHighSurrogate(s[i - 1]))
  }

  /** Scanning from the left and checking each position agree on every string. */
  lemma {:induction false} WellFormedIffPaired(s: JsString)
    ensures WellFormedUnicode(s) <==> SurrogatesPaired(s)
    decreases |s|
  {
    if s == [] {
    } else if IsHighSurrogate(s[0]) {
      if |s| >= 2 && IsLowSurrogate(s[1]) {
        WellFormedIffPaired(s[2..]);
        PairedAfter(s, 2);
      }
    } else if !IsLowSurrogate(s[0]) {
      WellFormedIffPaired(s[1..]);
      PairedAfter(s, 1);
    }
  }

  /** Dropping a prefix that ends just after a non-high code unit, or after a pair, keeps or restores the pairing. */
  lemma PairedAfter(s: JsString, k: nat)
    requires 0 < k <= |s| && !IsHighSurrogate(s[k - 1])
    requires k == 1 ==> !IsLowSurrogate(s[0])
    requires k == 2 ==> IsHighSurrogate(s[0]) && IsLowSurrogate(s[1])
    requires k <= 2
    ensures SurrogatesPaired(s) <==> SurrogatesPaired(s[k..])
  {
    var t := s[k..];
    if SurrogatesPaired(t) {
      forall i | 0 <= i < |s| && IsLowSurrogate(s[i])
        ensures 0 < i && IsHighSurrogate(s[i - 1])
      {
        if i >= k {
          assert t[i - k] == s[i];
        }
      }
      forall i | 0 <= i < |s| && IsHighSurrogate(s[i])
        ensures i + 1 < |s| && IsLowSurrogate(s[i + 1])
      {
        if i >= k {
          assert t[i - k] == s[i];
        }
      }
    }
    if SurrogatesPaired(s) {
      forall j | 0 <= j < |t| && IsLowSurrogate(t[j])
        ensures 0 < j && IsHighSurrogate(t[j - 1])
      {
        assert s[j + k] == t[j];
      }
      forall j | 0 <= j < |t| && IsHighSurrogate(t[j])
        ensures j + 1 < |t| && IsLowSurrogate(t[j + 1])
      {
        assert s[j + k] == t[j];
      }
    }
  }
}
