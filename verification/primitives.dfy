/**
 The browser built-ins the text envelope calls but does not implement:
 `TextEncoder`/`TextDecoder`, `btoa`/`atob`, PBKDF2-SHA-256 (section 5.2 of
 RFC 8018) and AES-GCM (NIST SP 800-38D), reached through `crypto.subtle`.
 They are carried as function values, so every one is deterministic; the
 facts the envelope's guarantees rest on are the predicates below, which the
 lemmas that need them take as preconditions.
 */
module Primitives {
  import opened Js

  /** Bytes of salt drawn per encryption. */
  const SaltBytes: nat := 16

  /** Bytes of AES-GCM initialisation vector drawn per encryption. */
  const IvBytes: nat := 12

  /** PBKDF2 iteration count. */
  const Pbkdf2Iterations: nat := 100000

  /** AES-GCM key length in bits. */
  const KeyBits: nat := 256

  /** The AES-GCM authentication tag WebCrypto appends by default, in bytes. */
  const TagBytes: nat := 16

  /** A non-extractable AES-GCM `CryptoKey`; its raw bits are never exposed by the core. */
  datatype AesKey = AesKey(bits: seq<byte>)

  /** Everything the core borrows from the browser, each failure as `None`. */
  datatype Platform = Platform(
    /** `new TextEncoder().encode(s)`: UTF-8. */
    encodeUtf8: JsString -> seq<byte>,
    /** `new TextDecoder().decode(b)`: non-fatal, so it never throws. */
    decodeUtf8: seq<byte> -> JsString,
    /** `window.btoa(s)`: throws on a unit above 0xFF. */
    btoa: JsString -> Option<JsString>,
    /** `window.atob(s)`: throws on text that is not base64. */
    atob: JsString -> Option<JsString>,
    /** Raw-key import followed by PBKDF2-SHA-256 (password, salt, iterations, length in bits). */
    pbkdf2Sha256: (seq<byte>, seq<byte>, nat, nat) -> Option<seq<byte>>,
    /** `crypto.subtle.encrypt` with AES-GCM (key, iv, plaintext): ciphertext with the tag appended. */
    aesGcmEncrypt: (AesKey, seq<byte>, seq<byte>) -> Option<seq<byte>>,
    /** `crypto.subtle.decrypt` with AES-GCM (key, iv, ciphertext with tag): fails when the tag does not verify. */
    aesGcmDecrypt: (AesKey, seq<byte>, seq<byte>) -> Option<seq<byte>>)

  /**
   The strings a UTF-8 encode followed by a default `TextDecoder` decode gives
   back unchanged: no lone surrogates (the encoder replaces them with U+FFFD)
   and no leading U+FEFF (the decoder drops it as a byte order mark).
   */
  predicate SurvivesUtf8(s: JsString)
  {
    IsWellFormed(s) && (|s| == 0 || s[0] != 0xFEFF)
  }

  /** TextDecoder undoes TextEncoder on the strings above. */
  ghost predicate Utf8RoundTrips(p: Platform)
  {
    forall s :: SurvivesUtf8(s) ==> p.decodeUtf8(p.encodeUtf8(s)) == s
  }

  /** The base64 alphabet of section 4 of RFC 4648, with `=` padding. */
  predicate IsBase64Unit(c: CodeUnit)
  {
    || 'A' as int <= c <= 'Z' as int
    || 'a' as int <= c <= 'z' as int
    || '0' as int <= c <= '9' as int
    || c == '+' as int || c == '/' as int || c == '=' as int
  }

  /**
   `btoa` accepts exactly the binary strings and emits base64 text, empty
   only for the empty string; `atob` undoes it and only ever yields binary
   strings.
   */
  ghost predicate Base64RoundTrips(p: Platform)
  {
    && (forall s :: p.btoa(s).Some? <==> IsBinary(s))
    && (forall s :: p.btoa(s).Some? ==> p.atob(p.btoa(s).value) == Some(s))
    && (forall s :: p.btoa(s).Some? ==> (|p.btoa(s).value| == 0 <==> |s| == 0))
    && (forall s, i :: p.btoa(s).Some? && 0 <= i < |p.btoa(s).value| ==> IsBase64Unit(p.btoa(s).value[i]))
    && (forall t :: p.atob(t).Some? ==> IsBinary(p.atob(t).value))
  }

  /** PBKDF2 returns exactly as many bits as asked for. */
  ghost predicate Pbkdf2Sized(p: Platform)
  {
    forall password, salt, iterations, bits ::
      p.pbkdf2Sha256(password, salt, iterations, bits).Some? ==>
        |p.pbkdf2Sha256(password, salt, iterations, bits).value| * 8 == bits
  }

  /** AES-GCM decryption under the same key and iv undoes encryption. */
  ghost predicate AeadInverts(p: Platform)
  {
    forall key, iv, plain ::
      p.aesGcmEncrypt(key, iv, plain).Some? ==>
        p.aesGcmDecrypt(key, iv, p.aesGcmEncrypt(key, iv, plain).value) == Some(plain)
  }

  /** AES-GCM decryption rejects input too short to hold the tag. */
  ghost predicate AeadRejectsTagless(p: Platform)
  {
    forall key, iv, sealed :: |sealed| < TagBytes ==> p.aesGcmDecrypt(key, iv, sealed) == None
  }
}
