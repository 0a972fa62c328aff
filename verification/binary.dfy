/**
 The conversions around `btoa`/`atob`: an `ArrayBuffer` becomes a "binary
 string" with one code unit per byte before base64 encoding, and a decoded
 binary string is copied back into a `Uint8Array` one char code at a time.
 */
module BinaryString {
  import opened Js
  import opened Primitives

  /**
   The string the byte loop of `arrayBufferToBase64` appends to, one
   `fromCharCode` per byte: one unit per byte, each unit the byte's value.
   */
  function FromBytes(bytes: seq<byte>): (binary: JsString)
    ensures |binary| == |bytes|
    ensures forall i :: 0 <= i < |bytes| ==> binary[i] == bytes[i] as int
    ensures IsBinary(binary)
  {
    if |bytes| == 0 then [] else FromBytes(bytes[..|bytes| - 1]) + [FromCharCode(bytes[|bytes| - 1])]
  }

  /**
   The `for` loop that stores `binary.charCodeAt(i)` into `bytes[i]` for
   every `i` from `i` on, over an array as long as the string.
   */
  function StoreCharCodes(binary: JsString, bytes: seq<byte>, i: nat): (r: seq<byte>)
    requires |bytes| == |binary| && i <= |binary|
    ensures |r| == |binary|
    ensures forall j :: 0 <= j < i ==> r[j] == bytes[j]
    ensures forall j :: i <= j < |binary| ==> r[j] == ToUint8(binary[j])
    decreases |binary| - i
  {
    if i == |binary| then bytes else StoreCharCodes(binary, bytes[i := ToUint8(binary[i])], i + 1)
  }

  /** `new Uint8Array(binary.length)` filled by the loop above. */
  function ToBytes(binary: JsString): (bytes: seq<byte>)
    ensures |bytes| == |binary|
    ensures forall i :: 0 <= i < |binary| ==> bytes[i] as int == binary[i] % 256
  {
    StoreCharCodes(binary, Zeros(|binary|), 0)
  }

  /** `arrayBufferToBase64`. */
  function ArrayBufferToBase64(p: Platform, buffer: seq<byte>): (r: Option<JsString>)
    ensures Base64RoundTrips(p) ==> r.Some? && (|r.value| == 0 <==> |buffer| == 0)
  {
    p.btoa(FromBytes(buffer))
  }

  /** `base64ToArrayBuffer`: fails exactly when `atob` throws. */
  function Base64ToArrayBuffer(p: Platform, text: JsString): (r: Option<seq<byte>>)
    ensures r.Some? <==> p.atob(text).Some?
    ensures r.Some? ==> |r.value| == |p.atob(text).value|
    ensures Base64RoundTrips(p) && r.Some? ==>
      forall i :: 0 <= i < |r.value| ==> r.value[i] as int == p.atob(text).value[i]
  {
    match p.atob(text)
    case None => None
    case Some(binary) => Some(ToBytes(binary))
  }

  /** Reading the char codes back recovers the bytes. */
  lemma ToBytesFromBytes(bytes: seq<byte>)
    ensures ToBytes(FromBytes(bytes)) == bytes
  {
    var back := ToBytes(FromBytes(bytes));
    forall i | 0 <= i < |bytes|
      ensures back[i] == bytes[i]
    {
      assert back[i] as int == bytes[i] as int;
    }
  }

  /** Conversely, a binary string survives the trip through bytes, and only a binary string does. */
  lemma FromBytesToBytes(binary: JsString)
    ensures FromBytes(ToBytes(binary)) == binary <==> IsBinary(binary)
  {
    var back := FromBytes(ToBytes(binary));
    if IsBinary(binary) {
      forall i | 0 <= i < |binary|
        ensures back[i] == binary[i]
      {
      }
    }
  }

  /** `base64ToArrayBuffer(arrayBufferToBase64(b))` is `b`. */
  lemma Base64BufferRoundTrip(p: Platform, buffer: seq<byte>)
    requires Base64RoundTrips(p)
    ensures ArrayBufferToBase64(p, buffer).Some?
    ensures Base64ToArrayBuffer(p, ArrayBufferToBase64(p, buffer).value) == Some(buffer)
  {
    ToBytesFromBytes(buffer);
  }

  /** Base64 text starts and ends with alphabet units, so `trim` leaves it alone. */
  lemma Base64TextIsTrimmed(p: Platform, buffer: seq<byte>)
    requires Base64RoundTrips(p)
    ensures IsTrimmed(ArrayBufferToBase64(p, buffer).value)
  {
    var text := ArrayBufferToBase64(p, buffer).value;
    if |text| > 0 {
      assert IsBase64Unit(text[0]) && IsBase64Unit(text[|text| - 1]);
    }
  }
}
