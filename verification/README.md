# EasyGraphy text envelope, modelled in Dafny

EasyGraphy is a one-page browser tool. A user pastes some text and types a
keyword, and the page returns a base64 blob of the text encrypted under that
keyword. Pasting the blob back with the same keyword recovers the text. This
project models the part of `docs/script.js` with real logic:

- the keyword-length gate;
- the byte ↔ "binary string" conversions around `btoa`/`atob`;
- the envelope layout: salt (16 bytes) ‖ iv (12 bytes) ‖ AES-GCM ciphertext with its tag;
- `encryptText` and `decryptText`, with every thrown error turned into `undefined`;
- the validation the encrypt and decrypt buttons do before calling them.

Modules, one per concern:

- `Js` (`js.dfy`): the JavaScript semantics the code relies on. A string is a
  sequence of UTF-16 code units, so `.length` is `|s|`. A `Uint8Array` store
  wraps modulo 256. The file also models `slice` with clamping, `set`,
  `String.fromCharCode` and `String.prototype.trim`.
- `Primitives` (`primitives.dfy`): the browser built-ins, carried as function
  values in a `Platform` record. These are TextEncoder/TextDecoder,
  `btoa`/`atob`, PBKDF2-SHA-256 (section 5.2 of RFC 8018) and AES-GCM (NIST
  SP 800-38D). Because they are Dafny functions they are deterministic. The
  properties assumed of them are named predicates. A lemma takes a predicate
  as a precondition only when the lemma needs it: `Utf8RoundTrips`,
  `Base64RoundTrips`, `Pbkdf2Sized`, `AeadInverts`, `AeadRejectsTagless`.
  `Utf8RoundTrips` is claimed only for text that `SurvivesUtf8`: no lone
  surrogates, and no leading U+FEFF, which the default TextDecoder drops as a
  byte order mark.
- `BinaryString` (`binary.dfy`): `arrayBufferToBase64` and `base64ToArrayBuffer`.
- `Envelope` (`envelope.dfy`): framing the three fields into one buffer, and
  cutting a buffer at offsets 16 and 28.
- `TextCipher` (`cipher.dfy`): `deriveKey`, `encryptText`, `decryptText`, the
  two button handlers, and the round-trip results.
- `Witness` (`witness.dfy`): a toy `Platform` that meets all five assumed
  predicates at once (`ToySatisfiesAssumptions`). It shows the assumptions do
  not contradict each other, so the lemmas that take them are not vacuous.
  It has no cryptographic value and models nothing in the source.

Each call returns a `Run` with three parts:

- the value, where `None` stands for `undefined`;
- the alert raised, if any;
- the primitives the call reached, in order (random draws, key derivation,
  encryption, decryption).

The effect list is what lets the model say that a rejected keyword leads to
no random draw and no key derivation. The bytes `crypto.getRandomValues`
returns are passed in as the `salt` and `iv` parameters.

The model follows the code as written:

- `decryptText` has no keyword-length check of its own. Only the decrypt
  button checks the keyword (`DecryptText`, `DecryptClick`).
- No explicit check rejects a decoded envelope shorter than 28 bytes. `slice`
  clamps, so such an envelope yields a short salt, a short iv and an empty
  ciphertext. The failure comes from AES-GCM refusing a ciphertext shorter
  than its 16-byte tag (`ShortBufferParts`, `ShortEnvelopeFails`). In effect,
  any envelope shorter than 44 bytes fails.
- Both buttons trim their input before using it. The encrypt button therefore
  encrypts the trimmed text, and the round trip through the page gives back
  `Trim(input)`, not `input` (`ClickRoundTrip`).
- `encryptText` repeats the button's keyword check. When called through the
  button, its own check never fires.

## Model

| member | source | states |
|---|---|---|
| Js.ToUint8 | docs/script.js:41 | storing a number into a `Uint8Array` keeps its value modulo 256, and keeps values 0..255 unchanged |
| Js.FromCharCode | docs/script.js:33 | the unit made from a byte is below 256, and storing it back into a `Uint8Array` returns the same byte |
| Js.Zeros | docs/script.js:39 | a fresh `Uint8Array` of length n holds n zero bytes |
| Js.Slice | docs/script.js:105-107 | the slice starts at the clamped start, is a contiguous run of the input that stays inside it, and is max(0, clamped end − clamped start) long, an omitted end meaning the length |
| Js.SliceInBounds | docs/script.js:105-107 | a `slice` within bounds is the plain subsequence, and an omitted end means "to the end" |
| Js.SliceClamps | docs/script.js:105-107 | with non-negative bounds, `slice` clamps both bounds to the length, so its length is max(0, min(end, n) − min(start, n)) |
| Js.TypedArraySet | docs/script.js:89-91 | `set` succeeds exactly when the source fits at the offset; it writes the source there and leaves the bytes before and after untouched |
| Js.Trim | docs/script.js:136 | the trimmed text has no whitespace or line terminator at either end; it is a contiguous piece of the input, and everything cut off is whitespace |
| Js.TrimIdempotent | docs/script.js:153 | trimming an already trimmed input changes nothing |
| Js.TrimKeepsWellFormed | docs/script.js:136 | trimming never splits a surrogate pair, so text without lone surrogates keeps that property |
| BinaryString.FromBytes | docs/script.js:31-33 | the binary string has one unit per byte, each unit equal to its byte, so every unit is in 0..255 as `btoa` requires |
| BinaryString.StoreCharCodes | docs/script.js:40-42 | the loop from index i on stores the char code of each unit modulo 256 at the same index, and leaves the elements before i as they were |
| BinaryString.ToBytes | docs/script.js:39-42 | the array is as long as the string, and element i is the char code of unit i modulo 256 |
| BinaryString.ArrayBufferToBase64 | docs/script.js:30-35 | when `btoa` behaves as specified, it never throws here, and its text is empty only for an empty buffer |
| BinaryString.Base64ToArrayBuffer | docs/script.js:37-44 | fails exactly when `atob` throws; otherwise the buffer is as long as the decoded string, and byte i equals `charCodeAt(i)` |
| BinaryString.ToBytesFromBytes | docs/script.js:30-44 | reading the char codes back from a binary string recovers the original bytes |
| BinaryString.FromBytesToBytes | docs/script.js:37-44 | the bytes-to-string-to-bytes trip returns the same string if and only if every unit is at most 0xFF |
| BinaryString.Base64BufferRoundTrip | docs/script.js:30-44 | `base64ToArrayBuffer(arrayBufferToBase64(b))` is `b`, assuming `atob` undoes `btoa` |
| BinaryString.Base64TextIsTrimmed | docs/script.js:153 | base64 text has no whitespace at either end, so the decrypt button's `trim` leaves a produced envelope alone |
| Envelope.Combine | docs/script.js:88-91 | the framed array is exactly salt ‖ iv ‖ ciphertext: its length is the sum of the three lengths, and nothing else is written |
| Envelope.Split | docs/script.js:105-107 | the three slices have lengths min(n,16), max(0, min(n,28) − 16) and max(0, n − 28) |
| Envelope.SplitCombine | docs/script.js:105-107 | splitting a framed 16-byte salt and 12-byte iv with any ciphertext recovers exactly those three fields |
| Envelope.CombineSplit | docs/script.js:105-107 | for a buffer of any length, putting the three slices back together gives the buffer, so no byte is lost or duplicated |
| Envelope.ShortBufferParts | docs/script.js:105-107 | for a buffer shorter than 28 bytes, the salt is its first min(n,16) bytes, the iv is shorter than 12 bytes and the ciphertext is empty; nothing rejects it |
| TextCipher.DeriveKey | docs/script.js:46-67 | the key exists exactly when PBKDF2 (100000 iterations, 256 bits) succeeds on the UTF-8 password and the salt; it is 256 bits long and its bits are exactly PBKDF2's output |
| TextCipher.KeywordAccepted | docs/script.js:71 | a keyword passes the length gate if and only if it has 4 to 32 UTF-16 code units |
| TextCipher.EncryptText | docs/script.js:69-98 | a keyword outside 4..32 code units gives `undefined` with the keyword alert, and no random draw or derivation happens; otherwise salt, iv and derivation come first; a value is returned exactly when no alert is raised, and every other failure raises the generic encryption alert |
| TextCipher.DecryptText | docs/script.js:100-125 | a value is returned exactly when no alert is raised, and every failure raises the one generic decryption alert; a value is returned if and only if the base64 decodes, the key is derived from the cut-out salt and AES-GCM opens the cut-out iv and ciphertext, and the value is then the UTF-8 decoding of that plaintext; the key is derived whenever the base64 decodes, whatever the keyword's length; nothing is drawn at random or encrypted |
| TextCipher.DecryptDerivesEncryptKey | docs/script.js:76-107 | the salt `decryptText` cuts out of an emitted envelope is the one `encryptText` drew, so both derive the same key from the same keyword |
| TextCipher.Truthy | docs/script.js:147 | `undefined` and the empty string are falsy, and every other string is truthy |
| TextCipher.EncryptClick | docs/script.js:135-150 | empty trimmed input and a bad keyword are rejected, in that order, before any work is done; otherwise the alert and the effects are those of `encryptText` on the trimmed input, a value is shown if and only if its result is truthy, and the value shown is that result |
| TextCipher.DecryptClick | docs/script.js:152-167 | empty trimmed input and a bad keyword are rejected, in that order, before any work is done; otherwise the outcome is `decryptText` on the trimmed input, with an empty plaintext still shown |
| TextCipher.EncryptClickShowsResult | docs/script.js:146-149 | the button's truthiness test never hides a successful encryption |
| TextCipher.EncryptedEnvelope | docs/script.js:88-93 | the text `encryptText` emits decodes to salt ‖ iv ‖ ciphertext, which is 16 + 12 + the ciphertext length bytes |
| TextCipher.EncryptFailsOnlyInCrypto | docs/script.js:69-98 | with `btoa` as specified, encryption fails if and only if the keyword is bad, derivation fails or AES-GCM encryption fails |
| TextCipher.EncryptDecryptRoundTrip | docs/script.js:69-125 | `decryptText(encryptText(p, w), w)` is `p` for text without lone surrogates and without a leading U+FEFF, given AES-GCM correctness and the base64 and UTF-8 round trips |
| TextCipher.DistinctDrawsDistinctTexts | docs/script.js:76-93 | two encryptions of the same text under the same keyword, with different salts or ivs, emit different texts |
| TextCipher.ShortEnvelopeFails | docs/script.js:105-117 | text that decodes to fewer than 28 + 16 bytes always fails to decrypt with the generic alert, given that AES-GCM rejects input shorter than its tag |
| TextCipher.ClickRoundTrip | docs/script.js:135-167 | the text the encrypt button shows, decrypted through the decrypt button with the same keyword, shows the trimmed input again |

## Left out

- Theme toggle and `localStorage` (docs/script.js:1-24): UI state, no logic.
- DOM lookups, `alert` and `console.error` calls, and writes to the output
  field: the alert is recorded as a value in `Run`, and nothing is displayed.
- Clipboard copy and file save (docs/script.js:169-196): browser I/O.
- The real PBKDF2-SHA-256, AES-GCM, UTF-8 and base64 algorithms. They are
  opaque functions of `Platform`. Only the predicates named above are assumed
  of them, and only by the lemmas that list them.
- Tag forgery resistance: there is no model of AES-GCM security. So
  "decrypting with the wrong keyword fails" and "a flipped byte is detected"
  are not stated.
- `crypto.getRandomValues`: the drawn salt and iv are parameters of the
  required lengths. That each call draws fresh values cannot be verified.
  `DistinctDrawsDistinctTexts` states what follows when the draws differ.
- `async`/`await` scheduling: each call is one sequential transaction, with
  no state shared between calls.
- A `Uint8Array` cannot hold more than 2^53 − 1 elements; lengths here are
  unbounded.
- TextCipher.EncryptDecryptRoundTrip: assumes the plaintext has no lone
  surrogates and does not start with U+FEFF. TextEncoder replaces a lone
  surrogate with U+FFFD, and the default TextDecoder drops a leading U+FEFF as
  a byte order mark, so the source's round trip does not hold for such text
  either.
- TextCipher.ClickRoundTrip: assumes the input has no lone surrogates, for the
  same reason. It needs no assumption about U+FEFF, because `trim` removes a
  leading U+FEFF before encryption.
