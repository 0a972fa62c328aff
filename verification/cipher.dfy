/**
 `deriveKey`, `encryptText`, `decryptText` and the validation the encrypt and
 decrypt buttons perform before calling them. Each call is one sequential
 transaction: the values `getRandomValues` hands back are parameters, every
 primitive comes from the `Platform`, and a thrown exception ends the call
 with `undefined` and an alert.
 */
module TextCipher {
  import opened Js
  import opened Primitives
  import opened BinaryString
  import opened Envelope

  /** The alerts the core and its two buttons can raise. */
  datatype Alert =
    | EnterTextToEncrypt   // the encrypt button got no text
    | EnterTextToDecrypt   // the decrypt button got no text
    | KeywordLength        // the keyword is outside 4..32 units
    | EncryptionError      // generic failure of encryption
    | DecryptionError      // generic failure of decryption, hinting at a wrong password

  /** The primitives a call reached, in order. */
  datatype Effect =
    | RandomValues(count: nat)
    | KeyDerivation
    | Encryption
    | Decryption

  /** What a call produced (`undefined` as `None`), the alert it raised, and the primitives it reached. */
  datatype Run = Run(value: Option<JsString>, alert: Option<Alert>, effects: seq<Effect>)

  /** Shortest accepted keyword, in UTF-16 code units. */
  const MinKeywordLength: nat := 4

  /** Longest accepted keyword, in UTF-16 code units. */
  const MaxKeywordLength: nat := 32

  /** The keyword gate shared by `encryptText` and both buttons. */
  function KeywordAccepted(password: JsString): (accepted: bool)
    ensures accepted <==> 4 <= |password| <= 32
  {
    !(|password| < MinKeywordLength || |password| > MaxKeywordLength)
  }

  /**
   `deriveKey`: the UTF-8 password imported as raw PBKDF2 key material and
   stretched with the salt into an AES-GCM-256 key.
   */
  function DeriveKey(p: Platform, password: JsString, salt: seq<byte>): (key: Option<AesKey>)
    ensures key.Some? <==> p.pbkdf2Sha256(p.encodeUtf8(password), salt, Pbkdf2Iterations, KeyBits).Some?
    ensures key.Some? ==> key.value.bits == p.pbkdf2Sha256(p.encodeUtf8(password), salt, Pbkdf2Iterations, KeyBits).value
    ensures Pbkdf2Sized(p) && key.Some? ==> |key.value.bits| * 8 == KeyBits
  {
    match p.pbkdf2Sha256(p.encodeUtf8(password), salt, Pbkdf2Iterations, KeyBits)
    case None => None
    case Some(bits) => Some(AesKey(bits))
  }

  /**
   `encryptText`: reject a bad keyword, draw salt and iv, derive the key,
   encrypt the UTF-8 plaintext, frame salt ‖ iv ‖ ciphertext and base64 it.
   */
  function EncryptText(p: Platform, plaintext: JsString, password: JsString, salt: seq<byte>, iv: seq<byte>): (r: Run)
    requires |salt| == SaltBytes && |iv| == IvBytes
    ensures !KeywordAccepted(password) ==> r == Run(None, Some(KeywordLength), [])
    ensures KeywordAccepted(password) ==>
      |r.effects| >= 3 && r.effects[..3] == [RandomValues(SaltBytes), RandomValues(IvBytes), KeyDerivation]
    ensures r.value.Some? <==> r.alert.None?
    ensures r.value.Some? ==> KeywordAccepted(password) && r.effects[|r.effects| - 1] == Encryption
    ensures KeywordAccepted(password) && r.value.None? ==> r.alert == Some(EncryptionError)
  {
    if |password| < MinKeywordLength || |password| > MaxKeywordLength then
      Run(None, Some(KeywordLength), [])
    else
      var drawn := [RandomValues(SaltBytes), RandomValues(IvBytes), KeyDerivation];
      match DeriveKey(p, password, salt)
      case None => Run(None, Some(EncryptionError), drawn)
      case Some(key) =>
        match p.aesGcmEncrypt(key, iv, p.encodeUtf8(plaintext))
        case None => Run(None, Some(EncryptionError), drawn + [Encryption])
        case Some(ciphertext) =>
          match ArrayBufferToBase64(p, Combine(salt, iv, ciphertext))
          case None => Run(None, Some(EncryptionError), drawn + [Encryption])
          case Some(text) => Run(Some(text), None, drawn + [Encryption])
  }

  /**
   `decryptText`: base64-decode, cut at offsets 16 and 28, derive the key
   from the cut-out salt, decrypt and UTF-8-decode. It checks no keyword
   length of its own.
   */
  function DecryptText(p: Platform, text: JsString, password: JsString): (r: Run)
    ensures r.value.Some? <==> r.alert.None?
    ensures r.value.None? ==> r.alert == Some(DecryptionError)
    ensures r.value.Some? <==>
      && Base64ToArrayBuffer(p, text).Some?
      && var parts := Split(Base64ToArrayBuffer(p, text).value);
         && DeriveKey(p, password, parts.salt).Some?
         && p.aesGcmDecrypt(DeriveKey(p, password, parts.salt).value, parts.iv, parts.ciphertext).Some?
    ensures r.value.Some? ==>
      var parts := Split(Base64ToArrayBuffer(p, text).value);
      var key := DeriveKey(p, password, parts.salt).value;
      r.value.value == p.decodeUtf8(p.aesGcmDecrypt(key, parts.iv, parts.ciphertext).value)
    ensures Base64ToArrayBuffer(p, text).Some? <==> KeyDerivation in r.effects
    ensures forall e :: e in r.effects ==> !e.RandomValues? && !e.Encryption?
  {
    match Base64ToArrayBuffer(p, text)
    case None => Run(None, Some(DecryptionError), [])
    case Some(combined) =>
      var parts := Split(combined);
      match DeriveKey(p, password, parts.salt)
      case None => Run(None, Some(DecryptionError), [KeyDerivation])
      case Some(key) =>
        match p.aesGcmDecrypt(key, parts.iv, parts.ciphertext)
        case None => Run(None, Some(DecryptionError), [KeyDerivation, Decryption])
        case Some(plain) => Run(Some(p.decodeUtf8(plain)), None, [KeyDerivation, Decryption])
  }

  /** JavaScript truthiness of what `encryptText` resolves to. */
  function Truthy(v: Option<JsString>): (truthy: bool)
    ensures v == None ==> !truthy
    ensures v == Some([]) ==> !truthy
    ensures v.Some? && v.value != [] ==> truthy
  {
    v.Some? && |v.value| > 0
  }

  /**
   The encrypt button: trim the input, refuse empty text, refuse a bad
   keyword, then show what `encryptText` resolves to if it is truthy.
   */
  function EncryptClick(p: Platform, input: JsString, password: JsString, salt: seq<byte>, iv: seq<byte>): (r: Run)
    requires |salt| == SaltBytes && |iv| == IvBytes
    ensures |Trim(input)| == 0 ==> r == Run(None, Some(EnterTextToEncrypt), [])
    ensures |Trim(input)| > 0 && !KeywordAccepted(password) ==> r == Run(None, Some(KeywordLength), [])
    ensures |Trim(input)| > 0 && KeywordAccepted(password) ==>
      var encrypted := EncryptText(p, Trim(input), password, salt, iv);
      && r.alert == encrypted.alert && r.effects == encrypted.effects
      && (r.value.Some? <==> Truthy(encrypted.value))
    ensures r.value.Some? ==> |r.value.value| > 0
    ensures r.value.Some? ==> r.value == EncryptText(p, Trim(input), password, salt, iv).value
  {
    var plaintext := Trim(input);
    if |plaintext| == 0 then
      Run(None, Some(EnterTextToEncrypt), [])
    else if |password| < MinKeywordLength || |password| > MaxKeywordLength then
      Run(None, Some(KeywordLength), [])
    else
      var encrypted := EncryptText(p, plaintext, password, salt, iv);
      Run(if Truthy(encrypted.value) then encrypted.value else None, encrypted.alert, encrypted.effects)
  }

  /**
   The decrypt button: trim the input, refuse empty text, refuse a bad
   keyword, then show whatever `decryptText` resolves to unless it is
   `undefined` (an empty plaintext is shown).
   */
  function DecryptClick(p: Platform, input: JsString, password: JsString): (r: Run)
    ensures |Trim(input)| == 0 ==> r == Run(None, Some(EnterTextToDecrypt), [])
    ensures |Trim(input)| > 0 && !KeywordAccepted(password) ==> r == Run(None, Some(KeywordLength), [])
    ensures |Trim(input)| > 0 && KeywordAccepted(password) ==> r == DecryptText(p, Trim(input), password)
  {
    var text := Trim(input);
    if |text| == 0 then
      Run(None, Some(EnterTextToDecrypt), [])
    else if |password| < MinKeywordLength || |password| > MaxKeywordLength then
      Run(None, Some(KeywordLength), [])
    else
      DecryptText(p, text, password)
  }

  /** The envelope `encryptText` emits decodes to salt ‖ iv ‖ ciphertext, 28 bytes plus the ciphertext. */
  lemma EncryptedEnvelope(p: Platform, plaintext: JsString, password: JsString, salt: seq<byte>, iv: seq<byte>)
    requires |salt| == SaltBytes && |iv| == IvBytes
    requires Base64RoundTrips(p)
    ensures EncryptText(p, plaintext, password, salt, iv).value.Some? ==>
            var key := DeriveKey(p, password, salt).value;
            var ciphertext := p.aesGcmEncrypt(key, iv, p.encodeUtf8(plaintext)).value;
            var combined := Base64ToArrayBuffer(p, EncryptText(p, plaintext, password, salt, iv).value.value);
            && combined == Some(salt + iv + ciphertext)
            && |combined.value| == SaltBytes + IvBytes + |ciphertext|
  {
    if EncryptText(p, plaintext, password, salt, iv).value.Some? {
      var key := DeriveKey(p, password, salt).value;
      var ciphertext := p.aesGcmEncrypt(key, iv, p.encodeUtf8(plaintext)).value;
      Base64BufferRoundTrip(p, Combine(salt, iv, ciphertext));
    }
  }

  /**
   Decryption of an envelope `encryptText` emitted derives the very key
   encryption used: the salt it cuts out is the salt that was drawn, and
   derivation depends only on password and salt.
   */
  lemma DecryptDerivesEncryptKey(p: Platform, plaintext: JsString, password: JsString, salt: seq<byte>, iv: seq<byte>)
    requires |salt| == SaltBytes && |iv| == IvBytes
    requires Base64RoundTrips(p)
    ensures var sealed := EncryptText(p, plaintext, password, salt, iv).value;
            sealed.Some? ==>
              && Base64ToArrayBuffer(p, sealed.value).Some?
              && DeriveKey(p, password, Split(Base64ToArrayBuffer(p, sealed.value).value).salt) == DeriveKey(p, password, salt)
              && DeriveKey(p, password, salt).Some?
  {
    var sealed := EncryptText(p, plaintext, password, salt, iv).value;
    if sealed.Some? {
      var key := DeriveKey(p, password, salt).value;
      var ciphertext := p.aesGcmEncrypt(key, iv, p.encodeUtf8(plaintext)).value;
      EncryptedEnvelope(p, plaintext, password, salt, iv);
      SplitCombine(salt, iv, ciphertext);
    }
  }

  /**
   The button's truthiness test never hides a successful encryption: the
   envelope is at least 28 bytes, so its base64 text is never empty.
   */
  lemma EncryptClickShowsResult(p: Platform, input: JsString, password: JsString, salt: seq<byte>, iv: seq<byte>)
    requires |salt| == SaltBytes && |iv| == IvBytes
    requires Base64RoundTrips(p)
    requires |Trim(input)| > 0
    ensures EncryptClick(p, input, password, salt, iv).value == EncryptText(p, Trim(input), password, salt, iv).value
  {
  }

  /** With sound primitives `encryptText` only fails when the keyword is bad, derivation fails or AES-GCM fails. */
  lemma EncryptFailsOnlyInCrypto(p: Platform, plaintext: JsString, password: JsString, salt: seq<byte>, iv: seq<byte>)
    requires |salt| == SaltBytes && |iv| == IvBytes
    requires Base64RoundTrips(p)
    ensures EncryptText(p, plaintext, password, salt, iv).value.None? <==>
      || !KeywordAccepted(password)
      || DeriveKey(p, password, salt).None?
      || p.aesGcmEncrypt(DeriveKey(p, password, salt).value, iv, p.encodeUtf8(plaintext)).None?
  {
    if KeywordAccepted(password) && DeriveKey(p, password, salt).Some? {
      var key := DeriveKey(p, password, salt).value;
      var sealed := p.aesGcmEncrypt(key, iv, p.encodeUtf8(plaintext));
      if sealed.Some? {
        Base64BufferRoundTrip(p, Combine(salt, iv, sealed.value));
      }
    }
  }

  /**
   Round trip: whatever `encryptText` emits, `decryptText` with the same
   password turns back into the plaintext, given deterministic derivation
   (free here), AES-GCM correctness, base64 and UTF-8 round trips.
   */
  lemma EncryptDecryptRoundTrip(p: Platform, plaintext: JsString, password: JsString, salt: seq<byte>, iv: seq<byte>)
    requires |salt| == SaltBytes && |iv| == IvBytes
    requires Base64RoundTrips(p) && Utf8RoundTrips(p) && AeadInverts(p)
    requires SurvivesUtf8(plaintext)
    ensures var sealed := EncryptText(p, plaintext, password, salt, iv).value;
            sealed.Some? ==> DecryptText(p, sealed.value, password).value == Some(plaintext)
  {
    if EncryptText(p, plaintext, password, salt, iv).value.Some? {
      var key := DeriveKey(p, password, salt).value;
      var ciphertext := p.aesGcmEncrypt(key, iv, p.encodeUtf8(plaintext)).value;
      Base64BufferRoundTrip(p, Combine(salt, iv, ciphertext));
      SplitCombine(salt, iv, ciphertext);
    }
  }

  /**
   Two encryptions that drew different salts or ivs emit different texts,
   even for the same plaintext and password.
   */
  lemma DistinctDrawsDistinctTexts(p: Platform, plaintext: JsString, password: JsString,
                                   salt1: seq<byte>, iv1: seq<byte>, salt2: seq<byte>, iv2: seq<byte>)
    requires |salt1| == SaltBytes && |iv1| == IvBytes && |salt2| == SaltBytes && |iv2| == IvBytes
    requires Base64RoundTrips(p)
    requires salt1 != salt2 || iv1 != iv2
    ensures var first := EncryptText(p, plaintext, password, salt1, iv1).value;
            var second := EncryptText(p, plaintext, password, salt2, iv2).value;
            first.Some? && second.Some? ==> first != second
  {
    var first := EncryptText(p, plaintext, password, salt1, iv1).value;
    var second := EncryptText(p, plaintext, password, salt2, iv2).value;
    if first.Some? && second.Some? {
      EncryptedEnvelope(p, plaintext, password, salt1, iv1);
      EncryptedEnvelope(p, plaintext, password, salt2, iv2);
      var c1 := Base64ToArrayBuffer(p, first.value).value;
      var c2 := Base64ToArrayBuffer(p, second.value).value;
      assert c1[..SaltBytes] == salt1 && c1[SaltBytes..SaltBytes + IvBytes] == iv1;
      assert c2[..SaltBytes] == salt2 && c2[SaltBytes..SaltBytes + IvBytes] == iv2;
    }
  }

  /**
   A text that decodes to fewer than 28 + 16 bytes always fails to decrypt:
   the split leaves a ciphertext shorter than the AES-GCM tag, which the
   decrypt primitive rejects. The core itself never checks the length.
   */
  lemma ShortEnvelopeFails(p: Platform, text: JsString, password: JsString)
    requires AeadRejectsTagless(p)
    requires Base64ToArrayBuffer(p, text).Some?
    requires |Base64ToArrayBuffer(p, text).value| < CiphertextOffset + TagBytes
    ensures DecryptText(p, text, password).value == None
    ensures DecryptText(p, text, password).alert == Some(DecryptionError)
  {
  }

  /**
   End to end through both buttons: the text the encrypt button shows,
   pasted into the decrypt button with the same keyword, shows the trimmed
   input again.
   */
  lemma ClickRoundTrip(p: Platform, input: JsString, password: JsString, salt: seq<byte>, iv: seq<byte>)
    requires |salt| == SaltBytes && |iv| == IvBytes
    requires Base64RoundTrips(p) && Utf8RoundTrips(p) && AeadInverts(p)
    requires IsWellFormed(input)
    ensures var shown := EncryptClick(p, input, password, salt, iv).value;
            shown.Some? ==> DecryptClick(p, shown.value, password).value == Some(Trim(input))
  {
    if EncryptClick(p, input, password, salt, iv).value.None? {
      return;
    }
    var plaintext := Trim(input);
    var key := DeriveKey(p, password, salt).value;
    var ciphertext := p.aesGcmEncrypt(key, iv, p.encodeUtf8(plaintext)).value;
    var shown := ArrayBufferToBase64(p, Combine(salt, iv, ciphertext)).value;
    assert EncryptClick(p, input, password, salt, iv).value == Some(shown);
    Base64TextIsTrimmed(p, Combine(salt, iv, ciphertext));
    TrimKeepsTrimmed(shown);
    TrimKeepsWellFormed(input);
    assert IsTrimmed(plaintext);
    EncryptDecryptRoundTrip(p, plaintext, password, salt, iv);
  }
}
