/** What the packet wrapper of experiments/spu-sha256/spu_sha256_hybrid.c has to compute: CBC encryption
    then a tag of the first 128 bits of HMAC-SHA-256 (section 2.3 of RFC 4868) over header, initial
    value and ciphertext, the parts of an ESP packet (section 2 of RFC 4303). */
module HybridSpec {
  import opened Bytes
  import opened CbcSpec

  type Digest = d: seq<byte> | |d| == 32 witness seq(32, _ => 0)
  type Header = h: seq<byte> | |h| == 8 witness seq(8, _ => 0)

  /** The keyed functions in use: the cipher, HMAC-SHA-256 and the private framing hash. */
  datatype Suite = Suite(cipher: Cipher, sha256: seq<byte> -> Digest, sha1: seq<byte> -> Digest)

  function Tag128(s: Suite, h: Header, iv: Block, ct: seq<byte>): (t: seq<byte>)
    ensures |t| == 16
  {
    s.sha256(h + iv + ct)[..16]
  }

  function Seal(s: Suite, k: Key, h: Header, iv: Block, p: seq<byte>): seq<byte> {
    var ct := CbcEnc(s.cipher, k, iv, p);
    ct + Tag128(s, h, iv, ct)
  }

  datatype Opened = Rejected | Plain(text: seq<byte>)

  function Open(s: Suite, k: Key, h: Header, iv: Block, sealed: seq<byte>): Opened {
    if |sealed| < 16 then Rejected
    else
      var n := |sealed| - 16;
      if sealed[n..] == Tag128(s, h, iv, sealed[..n]) then Plain(CbcDec(s.cipher, k, iv, sealed[..n]))
      else Rejected
  }

  /** Opening what was sealed gives the packet back. */
  lemma {:induction false} OpenSeal(s: Suite, k: Key, h: Header, iv: Block, p: seq<byte>)
    requires s.cipher.Invertible() && Blocks(|p|)
    ensures Open(s, k, h, iv, Seal(s, k, h, iv, p)) == Plain(p)
    ensures |Seal(s, k, h, iv, p)| == |p| + 16
  {
    var ct := CbcEnc(s.cipher, k, iv, p);
    var sealed := ct + Tag128(s, h, iv, ct);
    assert sealed[..|sealed| - 16] == ct && sealed[|sealed| - 16..] == Tag128(s, h, iv, ct);
    CbcEncLength(s.cipher, k, iv, p);
    DecryptInvertsEncrypt(s.cipher, k, iv, p);
  }

  /** Behind the ciphertext, byte by byte, the first half of the digest of header, initial value and ciphertext. */
  lemma {:induction false} SealBytes(s: Suite, k: Key, h: Header, iv: Block, p: seq<byte>)
    requires Blocks(|p|)
    ensures var n, out := |p|, Seal(s, k, h, iv, p);
            && |out| == n + 16 && out[..n] == CbcEnc(s.cipher, k, iv, p)
            && forall i | 0 <= i < 16 :: out[n + i] == s.sha256(h + iv + out[..n])[i]
  {
    CbcEncLength(s.cipher, k, iv, p);
    assert Seal(s, k, h, iv, p)[..|p|] == CbcEnc(s.cipher, k, iv, p);
  }

  /** A packet opens exactly if its last 16 bytes are those, and then to the decryption of what is before them. */
  lemma {:induction false} OpenBytes(s: Suite, k: Key, h: Header, iv: Block, sealed: seq<byte>)
    requires |sealed| >= 16
    ensures var n, o := |sealed| - 16, Open(s, k, h, iv, sealed);
            && (o.Plain? <==> forall i | 0 <= i < 16 :: sealed[n + i] == s.sha256(h + iv + sealed[..n])[i])
            && (o.Plain? ==> o.text == CbcDec(s.cipher, k, iv, sealed[..n]))
  {
    var n := |sealed| - 16;
    var tag := Tag128(s, h, iv, sealed[..n]);
    assert forall i | 0 <= i < 16 :: sealed[n..][i] == sealed[n + i] && tag[i] == s.sha256(h + iv + sealed[..n])[i];
    assert sealed[n..] == tag <==> forall i | 0 <= i < 16 :: sealed[n..][i] == tag[i];
  }

  lemma {:induction false} SealLength(s: Suite, k: Key, h: Header, iv: Block, p: seq<byte>)
    requires Blocks(|p|)
    ensures |Seal(s, k, h, iv, p)| == |p| + 16
  {
    CbcEncLength(s.cipher, k, iv, p);
  }

  /** And nothing else opens: an accepted packet is the sealing of what it opens to. */
  lemma {:induction false} SealOpen(s: Suite, k: Key, h: Header, iv: Block, sealed: seq<byte>)
    requires s.cipher.Invertible() && Blocks(|sealed|) && Open(s, k, h, iv, sealed).Plain?
    ensures Seal(s, k, h, iv, Open(s, k, h, iv, sealed).text) == sealed
  {
    var n := |sealed| - 16;
    EncryptInvertsDecrypt(s.cipher, k, iv, sealed[..n]);
    assert sealed[..n] + sealed[n..] == sealed;
  }
}
