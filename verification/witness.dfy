/**
 A toy platform that meets every assumption in `Primitives` at once, so the
 lemmas that take those assumptions do not rest on a contradiction. It has
 no cryptographic value: UTF-8 is replaced by two bytes per unit, base64 by
 two letters per byte, PBKDF2 by zeros and AES-GCM by appending a zero tag.
 */
module Witness {
  import opened Js
  import opened Primitives

  /** Each code unit as its high and low byte. */
  function UnitsToBytes(s: JsString): (b: seq<byte>)
    ensures |b| == 2 * |s|
  {
    if |s| == 0 then [] else [ToUint8(s[0] / 256), ToUint8(s[0] % 256)] + UnitsToBytes(s[1..])
  }

  function Join(high: byte, low: byte): (u: CodeUnit)
    ensures u == high as int * 256 + low as int
  {
    high as int * 256 + low as int
  }

  /** Pairs of bytes back into code units; a trailing odd byte is dropped. */
  function BytesToUnits(b: seq<byte>): (s: JsString)
    ensures |s| == |b| / 2
  {
    if |b| < 2 then [] else [Join(b[0], b[1])] + BytesToUnits(b[2..])
  }

  lemma {:induction false} UnitsRoundTrip(s: JsString)
    ensures BytesToUnits(UnitsToBytes(s)) == s
  {
    if |s| > 0 {
      var b := UnitsToBytes(s);
      UnitsToBytesHead(s);
      UnitsRoundTrip(s[1..]);
      assert BytesToUnits(b) == [Join(b[0], b[1])] + BytesToUnits(b[2..]);
      assert Join(b[0], b[1]) == s[0];
      assert s == [s[0]] + s[1..];
    }
  }

  lemma UnitsToBytesHead(s: JsString)
    requires |s| > 0
    ensures UnitsToBytes(s)[2..] == UnitsToBytes(s[1..])
    ensures UnitsToBytes(s)[0] as int * 256 + UnitsToBytes(s)[1] as int == s[0]
  {
    var high, low := ToUint8(s[0] / 256), ToUint8(s[0] % 256);
    assert UnitsToBytes(s) == [high, low] + UnitsToBytes(s[1..]);
    assert high as int == s[0] / 256 && low as int == s[0] % 256;
  }

  /** A letter in 'A'..'P' standing for a four-bit value. */
  predicate IsNibbleLetter(c: CodeUnit) { 65 <= c < 81 }

  /** Each byte-sized unit as two letters in 'A'..'P'. */
  function Letters(s: JsString): (t: JsString)
    requires IsBinary(s)
    ensures |t| == 2 * |s|
    ensures forall i :: 0 <= i < |t| ==> IsNibbleLetter(t[i])
  {
    if |s| == 0 then [] else [65 + s[0] / 16, 65 + s[0] % 16] + Letters(s[1..])
  }

  /** Pairs of letters back into units, defined only on even runs of 'A'..'P'. */
  function Unletters(t: JsString): (s: JsString)
    requires |t| % 2 == 0
    requires forall i :: 0 <= i < |t| ==> IsNibbleLetter(t[i])
    ensures |s| == |t| / 2
    ensures IsBinary(s)
  {
    if |t| == 0 then []
    else
      assert IsNibbleLetter(t[0]) && IsNibbleLetter(t[1]);
      var unit: CodeUnit := (t[0] - 65) * 16 + (t[1] - 65);
      [unit] + Unletters(t[2..])
  }

  lemma {:induction false} LettersRoundTrip(s: JsString)
    requires IsBinary(s)
    ensures Unletters(Letters(s)) == s
  {
    if |s| > 0 {
      LettersRoundTrip(s[1..]);
      assert Letters(s)[2..] == Letters(s[1..]);
    }
  }

  function ToyBtoa(s: JsString): Option<JsString>
  {
    if IsBinary(s) then Some(Letters(s)) else None
  }

  function ToyAtob(t: JsString): Option<JsString>
  {
    if |t| % 2 == 0 && forall i :: 0 <= i < |t| ==> IsNibbleLetter(t[i]) then Some(Unletters(t)) else None
  }

  function ToyDerive(password: seq<byte>, salt: seq<byte>, iterations: nat, bits: nat): Option<seq<byte>>
  {
    if bits % 8 == 0 then Some(Zeros(bits / 8)) else None
  }

  function ToySeal(key: AesKey, iv: seq<byte>, plain: seq<byte>): Option<seq<byte>>
  {
    Some(plain + Zeros(TagBytes))
  }

  function ToyOpen(key: AesKey, iv: seq<byte>, sealed: seq<byte>): Option<seq<byte>>
  {
    if |sealed| < TagBytes then None else Some(sealed[..|sealed| - TagBytes])
  }

  function Toy(): Platform
  {
    Platform(UnitsToBytes, BytesToUnits, ToyBtoa, ToyAtob, ToyDerive, ToySeal, ToyOpen)
  }

  lemma ToyUtf8RoundTrips()
    ensures Utf8RoundTrips(Toy())
  {
    forall s: JsString | SurvivesUtf8(s)
      ensures Toy().decodeUtf8(Toy().encodeUtf8(s)) == s
    {
      UnitsRoundTrip(s);
    }
  }

  lemma ToyBase64RoundTrips()
    ensures Base64RoundTrips(Toy())
  {
    var p := Toy();
    forall s: JsString | p.btoa(s).Some?
      ensures p.atob(p.btoa(s).value) == Some(s)
    {
      LettersRoundTrip(s);
    }
    forall s: JsString, i | p.btoa(s).Some? && 0 <= i < |p.btoa(s).value|
      ensures IsBase64Unit(p.btoa(s).value[i])
    {
      assert IsNibbleLetter(Letters(s)[i]);
    }
    forall t: JsString | p.atob(t).Some?
      ensures IsBinary(p.atob(t).value)
    {
    }
  }

  lemma ToyAeadInverts()
    ensures AeadInverts(Toy())
  {
    var p := Toy();
    forall key, iv, plain | p.aesGcmEncrypt(key, iv, plain).Some?
      ensures p.aesGcmDecrypt(key, iv, p.aesGcmEncrypt(key, iv, plain).value) == Some(plain)
    {
      assert (plain + Zeros(TagBytes))[..|plain|] == plain;
    }
  }

  /** The toy platform satisfies all five assumptions together. */
  lemma ToySatisfiesAssumptions()
    ensures Utf8RoundTrips(Toy()) && Base64RoundTrips(Toy()) && Pbkdf2Sized(Toy())
    ensures AeadInverts(Toy()) && AeadRejectsTagless(Toy())
  {
    ToyUtf8RoundTrips();
    ToyBase64RoundTrips();
    ToyAeadInverts();
  }
}
