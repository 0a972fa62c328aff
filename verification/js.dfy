/**
 The slice of JavaScript semantics the text envelope relies on: strings as
 UTF-16 code units, `undefined`, `Uint8Array` construction, `slice` and `set`,
 `String.fromCharCode` and `String.prototype.trim`.
 */
module Js {

  /** One UTF-16 code unit; a JavaScript string's `.length` counts these. */
  type CodeUnit = c: int | 0 <= c < 0x1_0000

  /** A JavaScript string value. */
  type JsString = seq<CodeUnit>

  /** One element of a `Uint8Array`. */
  type byte = bv8

  /** A value or `undefined` (also what a caught exception turns into). */
  datatype Option<+T> = None | Some(value: T)

  function Min(a: int, b: int): int { if a <= b then a else b }

  function Max(a: int, b: int): int { if a <= b then b else a }

  /** ToUint8: the conversion applied when a number is stored into a `Uint8Array`. */
  function ToUint8(n: int): (b: byte)
    ensures 0 <= n < 256 ==> b as int == n
    ensures b as int == n % 256
  {
    (n % 256) as byte
  }

  /** `String.fromCharCode(b)` for a byte: ToUint16 leaves 0..255 unchanged. */
  function FromCharCode(b: byte): (c: CodeUnit)
    ensures c < 256
    ensures ToUint8(c) == b
  {
    b as int
  }

  /** A "binary string": every code unit fits in a byte (the strings `btoa` accepts). */
  predicate IsBinary(s: JsString)
  {
    forall i :: 0 <= i < |s| ==> s[i] < 256
  }

  predicate IsHighSurrogate(c: CodeUnit) { 0xD800 <= c <= 0xDBFF }

  predicate IsLowSurrogate(c: CodeUnit) { 0xDC00 <= c <= 0xDFFF }

  /** No lone surrogates: every high surrogate is followed by a low one and every low one is preceded by a high one. */
  predicate IsWellFormed(s: JsString)
  {
    && (forall i :: 0 <= i < |s| && IsHighSurrogate(s[i]) ==> i + 1 < |s| && IsLowSurrogate(s[i + 1]))
    && (forall i :: 0 < i < |s| && IsLowSurrogate(s[i]) ==> IsHighSurrogate(s[i - 1]))
    && (|s| > 0 ==> !IsLowSurrogate(s[0]))
  }

  /** `new Uint8Array(n)`: n zero bytes. */
  function Zeros(n: nat): (r: seq<byte>)
    ensures |r| == n
    ensures forall i :: 0 <= i < n ==> r[i] == 0
  {
    seq(n, _ => 0)
  }

  /**
   The index a relative `slice` bound designates on a sequence of the given
   length: negative values count from the end, and the result is clamped to
   [0, length].
   */
  function ClampIndex(relative: int, length: nat): (k: nat)
    ensures k <= length
  {
    if relative < 0 then Max(length + relative, 0) else Min(relative, length)
  }

  /** `TypedArray.prototype.slice(start, end)`; an absent `end` means the length. */
  function Slice<T>(s: seq<T>, start: int, end: Option<int>): (r: seq<T>)
    ensures |r| <= |s|
    ensures |r| == Max(0, ClampIndex(if end.Some? then end.value else |s|, |s|) - ClampIndex(start, |s|))
    ensures ClampIndex(start, |s|) + |r| <= |s|
    ensures r == s[ClampIndex(start, |s|)..ClampIndex(start, |s|) + |r|]
  {
    var from := ClampIndex(start, |s|);
    var to := ClampIndex(if end.Some? then end.value else |s|, |s|);
    if from < to then s[from..to] else []
  }

  /** Within bounds, `slice` is the plain subsequence. */
  lemma SliceInBounds<T>(s: seq<T>, start: nat, end: nat)
    requires start <= end <= |s|
    ensures Slice(s, start, Some(end)) == s[start..end]
    ensures Slice(s, start, None) == s[start..]
  {
  }

  /** With non-negative bounds, `slice` clamps both to the length and never fails. */
  lemma SliceClamps<T>(s: seq<T>, start: nat, end: Option<nat>)
    ensures var to := if end.Some? then Min(end.value, |s|) else |s|;
            |Slice(s, start, if end.Some? then Some(end.value as int) else None)| == Max(to - Min(start, |s|), 0)
  {
  }

  /**
   `target.set(source, offset)` on a `Uint8Array`: copies `source` element by
   element into `target` from `offset` on; a source that does not fit throws
   a RangeError (`None`).
   */
  function TypedArraySet(target: seq<byte>, source: seq<byte>, offset: nat): (r: Option<seq<byte>>)
    ensures r.Some? <==> offset + |source| <= |target|
    ensures r.Some? ==> |r.value| == |target|
    ensures r.Some? ==> r.value[offset..offset + |source|] == source
    ensures r.Some? ==> r.value[..offset] == target[..offset]
    ensures r.Some? ==> r.value[offset + |source|..] == target[offset + |source|..]
  {
    if offset + |source| <= |target| then
      Some(seq(|target|, i requires 0 <= i < |target| =>
        if offset <= i < offset + |source| then source[i - offset] else target[i]))
    else
      None
  }

  /** The units `trim` removes: ECMAScript WhiteSpace and LineTerminator. */
  predicate IsTrimmable(c: CodeUnit)
  {
    || c == 0x09 || c == 0x0B || c == 0x0C || c == 0x20 || c == 0xA0 || c == 0xFEFF
    || c == 0x1680 || (0x2000 <= c <= 0x200A) || c == 0x202F || c == 0x205F || c == 0x3000
    || c == 0x0A || c == 0x0D || c == 0x2028 || c == 0x2029
  }

  /** Neither end of the string is trimmable. */
  predicate IsTrimmed(s: JsString)
  {
    |s| > 0 ==> !IsTrimmable(s[0]) && !IsTrimmable(s[|s| - 1])
  }

  /** How many trimmable units the string starts with. */
  function LeadingTrimmable(s: JsString): (n: nat)
    ensures n <= |s|
    ensures forall i :: 0 <= i < n ==> IsTrimmable(s[i])
    ensures n < |s| ==> !IsTrimmable(s[n])
  {
    if |s| == 0 || !IsTrimmable(s[0]) then 0 else 1 + LeadingTrimmable(s[1..])
  }

  /** How many trimmable units the string ends with. */
  function TrailingTrimmable(s: JsString): (n: nat)
    ensures n <= |s|
    ensures forall i :: |s| - n <= i < |s| ==> IsTrimmable(s[i])
    ensures n < |s| ==> !IsTrimmable(s[|s| - n - 1])
  {
    if |s| == 0 || !IsTrimmable(s[|s| - 1]) then 0 else 1 + TrailingTrimmable(s[..|s| - 1])
  }

  /** `String.prototype.trim`. */
  function Trim(s: JsString): (r: JsString)
    ensures IsTrimmed(r)
    ensures LeadingTrimmable(s) + |r| <= |s|
    ensures r == s[LeadingTrimmable(s)..LeadingTrimmable(s) + |r|]
    ensures forall i :: 0 <= i < LeadingTrimmable(s) ==> IsTrimmable(s[i])
    ensures forall i :: LeadingTrimmable(s) + |r| <= i < |s| ==> IsTrimmable(s[i])
  {
    var a := LeadingTrimmable(s);
    var rest := s[a..];
    rest[..|rest| - TrailingTrimmable(rest)]
  }

  /** A string whose ends are not trimmable is left alone by `trim`. */
  lemma TrimKeepsTrimmed(s: JsString)
    requires IsTrimmed(s)
    ensures Trim(s) == s
  {
  }

  /** Trimming twice is trimming once. */
  lemma TrimIdempotent(s: JsString)
    ensures Trim(Trim(s)) == Trim(s)
  {
    TrimKeepsTrimmed(Trim(s));
  }

  /** Only non-surrogate units are cut away, so no surrogate pair is split. */
  lemma TrimKeepsWellFormed(s: JsString)
    requires IsWellFormed(s)
    ensures IsWellFormed(Trim(s))
  {
    var a, r := LeadingTrimmable(s), Trim(s);
    forall i | 0 <= i < |r| && IsHighSurrogate(r[i])
      ensures i + 1 < |r| && IsLowSurrogate(r[i + 1])
    {
      assert r[i] == s[a + i];
      assert IsLowSurrogate(s[a + i + 1]);
    }
    if |r| > 0 && a > 0 {
      assert r[0] == s[a];
      assert IsTrimmable(s[a - 1]);
    }
    forall i | 0 < i < |r| && IsLowSurrogate(r[i])
      ensures IsHighSurrogate(r[i - 1])
    {
      assert r[i] == s[a + i] && r[i - 1] == s[a + i - 1];
    }
  }
}
