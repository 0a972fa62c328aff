/**
 The envelope: salt (16 bytes) then iv (12 bytes) then AES-GCM ciphertext
 with its tag. Encryption writes the three fields into one `Uint8Array`;
 decryption cuts a decoded buffer at the fixed offsets 16 and 28 with
 `slice`, which clamps instead of failing on a short buffer.
 */
module Envelope {
  import opened Js
  import opened Primitives

  /** Offset where the iv starts. */
  const IvOffset: nat := SaltBytes

  /** Offset where the ciphertext starts. */
  const CiphertextOffset: nat := SaltBytes + IvBytes

  /** The three fields a buffer is cut into. */
  datatype Parts = Parts(salt: seq<byte>, iv: seq<byte>, ciphertext: seq<byte>)

  /**
   A zeroed array of the combined length, with `set` writing the salt at 0,
   the iv after the salt and the ciphertext after both. Nothing else is
   written: the result is exactly the three fields back to back.
   */
  function Combine(salt: seq<byte>, iv: seq<byte>, ciphertext: seq<byte>): (combined: seq<byte>)
    ensures |combined| == |salt| + |iv| + |ciphertext|
    ensures combined == salt + iv + ciphertext
  {
    var zeroed := Zeros(|salt| + |iv| + |ciphertext|);
    var withSalt := TypedArraySet(zeroed, salt, 0).value;
    var withIv := TypedArraySet(withSalt, iv, |salt|).value;
    var full := TypedArraySet(withIv, ciphertext, |salt| + |iv|).value;
    assert full[..|salt|] == salt by {
      assert full[..|salt| + |iv|][..|salt|] == full[..|salt|];
      assert withIv[..|salt| + |iv|][..|salt|] == withIv[..|salt|];
    }
    assert full[|salt|..|salt| + |iv|] == iv by {
      assert full[..|salt| + |iv|][|salt|..] == full[|salt|..|salt| + |iv|];
      assert withIv[..|salt| + |iv|][|salt|..] == withIv[|salt|..|salt| + |iv|];
    }
    assert full == full[..|salt|] + full[|salt|..|salt| + |iv|] + full[|salt| + |iv|..];
    full
  }

  /** `slice(0, 16)`, `slice(16, 28)` and `slice(28)` of a decoded buffer. */
  function Split(combined: seq<byte>): (parts: Parts)
    ensures |parts.salt| == Min(|combined|, SaltBytes)
    ensures |parts.iv| == Max(0, Min(|combined|, CiphertextOffset) - IvOffset)
    ensures |parts.ciphertext| == Max(0, |combined| - CiphertextOffset)
  {
    SliceClamps(combined, 0, Some(IvOffset));
    SliceClamps(combined, IvOffset, Some(CiphertextOffset));
    SliceClamps(combined, CiphertextOffset, None);
    Parts(Slice(combined, 0, Some(IvOffset)),
          Slice(combined, IvOffset, Some(CiphertextOffset)),
          Slice(combined, CiphertextOffset, None))
  }

  /** Splitting a framed envelope gives back exactly the fields that were framed. */
  lemma SplitCombine(salt: seq<byte>, iv: seq<byte>, ciphertext: seq<byte>)
    requires |salt| == SaltBytes && |iv| == IvBytes
    ensures Split(Combine(salt, iv, ciphertext)) == Parts(salt, iv, ciphertext)
  {
    var combined := Combine(salt, iv, ciphertext);
    SliceInBounds(combined, 0, IvOffset);
    SliceInBounds(combined, IvOffset, CiphertextOffset);
    SliceInBounds(combined, CiphertextOffset, |combined|);
    assert combined[..IvOffset] == salt;
    assert combined[IvOffset..CiphertextOffset] == iv;
    assert combined[CiphertextOffset..] == ciphertext;
  }

  /**
   Every byte of any buffer, short or long, lands in exactly one field:
   putting the fields back together gives the buffer.
   */
  lemma CombineSplit(combined: seq<byte>)
    ensures var parts := Split(combined); Combine(parts.salt, parts.iv, parts.ciphertext) == combined
  {
    var parts := Split(combined);
    var n := |combined|;
    if n >= CiphertextOffset {
      SliceInBounds(combined, 0, IvOffset);
      SliceInBounds(combined, IvOffset, CiphertextOffset);
      SliceInBounds(combined, CiphertextOffset, n);
      assert combined == combined[..IvOffset] + combined[IvOffset..CiphertextOffset] + combined[CiphertextOffset..];
    } else if n >= IvOffset {
      SliceInBounds(combined, 0, IvOffset);
      assert parts.iv == combined[IvOffset..];
      assert combined == combined[..IvOffset] + combined[IvOffset..];
    } else {
      assert parts.salt == combined;
    }
  }

  /**
   A buffer shorter than 28 bytes is not refused by the split: it yields a
   salt of min(n, 16) bytes, an iv shorter than 12 bytes and no ciphertext.
   */
  lemma ShortBufferParts(combined: seq<byte>)
    requires |combined| < CiphertextOffset
    ensures Split(combined).salt == combined[..Min(|combined|, SaltBytes)]
    ensures |Split(combined).iv| < IvBytes
    ensures Split(combined).ciphertext == []
  {
    if |combined| >= IvOffset {
      SliceInBounds(combined, 0, IvOffset);
    }
  }
}
