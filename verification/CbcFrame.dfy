/** The private frame built around each chunk, and the contract of one hardware request on it. */
module CbcFrame {
  import opened Bytes
  import opened CbcSpec

  type Tag = t: seq<byte> | |t| == 12 witness seq(12, _ => 0)

  const HEADER: nat := 24
  const TAG: nat := 12
  const ASSOC: seq<byte> := [0, 0, 0, 1, 0, 0, 0, 1]
  const ZEROS: Block := seq(16, _ => 0)
  const NO_TAG: Tag := seq(12, _ => 0)

  /** The self-describing padding behind the payload, ending in pad length 14 and next header 4. */
  const TRAILER: Block := [1, 2, 3, 4, 5, 6, 7, 8, 9, 10, 11, 12, 13, 14, 14, 4]

  /** The device: its mode (4 is native, otherwise 2), its cipher and its keyed framing hash. */
  datatype Device = Device(native: bool, cipher: Cipher, mac: seq<byte> -> Tag)

  function BodyBytes(d: Device, chunk: nat): nat {
    HEADER + chunk + if d.native then 0 else 16
  }

  /** A correct tag wherever the engine checks one, and a trailer that is, or deciphers to, the
      well-known padding wherever it parses one. */
  ghost predicate Accepts(d: Device, encrypt: bool, k: Key, chunk: nat, f: seq<byte>) {
    var n := BodyBytes(d, chunk);
    && |f| == n + TAG
    && f[..8] == ASSOC
    && (d.native || !encrypt ==> f[n..] == d.mac(f[..n]))
    && (!d.native && encrypt ==> chunk == 16 && f[HEADER + chunk..n] == TRAILER)
    && (!d.native && !encrypt ==> d.cipher.dec(k, f[HEADER + chunk..n]) == TRAILER)
  }

  /** Mode 4 chains from the initial value in the frame; mode 2 ciphers independent blocks. */
  function Ciphered(d: Device, encrypt: bool, k: Key, iv: Block, payload: seq<byte>): seq<byte> {
    if d.native then Transform(d.cipher, encrypt, k, iv, payload)
    else if !encrypt then EcbDec(d.cipher, k, payload)
    else if |payload| == 16 then d.cipher.enc(k, payload)
    else payload
  }

  /** A body with the framing hash behind it. */
  function Tagged(d: Device, body: seq<byte>): seq<byte> {
    body + d.mac(body)
  }

  /** The frame software builds for the next piece of the source. */
  function Frame(d: Device, encrypt: bool, k: Key, chain: Block, piece: seq<byte>): seq<byte>
    requires |piece| >= 16
  {
    if d.native then
      Tagged(d, ASSOC + chain + piece)
    else if encrypt then
      ASSOC + ZEROS + Xor(piece[..16], chain) + TRAILER + NO_TAG
    else
      Tagged(d, ASSOC + ZEROS + piece + d.cipher.enc(k, TRAILER))
  }

  /** The hardware accepts every frame built under the key it holds itself. */
  lemma {:induction false} FrameAccepted(d: Device, encrypt: bool, k: Key, chain: Block, piece: seq<byte>)
    requires d.cipher.Invertible() && |piece| >= 16 && (!d.native && encrypt ==> |piece| == 16)
    ensures Accepts(d, encrypt, k, |piece|, Frame(d, encrypt, k, chain, piece))
  {
    var f, n := Frame(d, encrypt, k, chain, piece), BodyBytes(d, |piece|);
    if d.native {
      assert f[..n] == ASSOC + chain + piece;
    } else if !encrypt {
      assert f[..n] == ASSOC + ZEROS + piece + d.cipher.enc(k, TRAILER);
      assert f[HEADER + |piece|..n] == d.cipher.enc(k, TRAILER);
      assert d.cipher.dec(k, d.cipher.enc(k, TRAILER)) == TRAILER;
    } else {
      assert f[HEADER + |piece|..n] == TRAILER;
    }
  }

  /** And its mode-2 decryption contract tells the keys apart: if the padding was enciphered under
      another key, the request is accepted only when that key enciphers the trailer to the same block. */
  lemma {:induction false} TrailerBindsKey(d: Device, k: Key, other: Key, chain: Block, piece: seq<byte>)
    requires d.cipher.Invertible() && |piece| >= 16 && !d.native
    ensures Accepts(d, false, k, |piece|, Frame(d, false, other, chain, piece))
       <==> d.cipher.enc(k, TRAILER) == d.cipher.enc(other, TRAILER)
  {
    var f, n := Frame(d, false, other, chain, piece), BodyBytes(d, |piece|);
    assert f[..n] == ASSOC + ZEROS + piece + d.cipher.enc(other, TRAILER);
    assert f[HEADER + |piece|..n] == d.cipher.enc(other, TRAILER);
    var x := d.cipher.enc(other, TRAILER);
    assert d.cipher.dec(k, d.cipher.enc(k, TRAILER)) == TRAILER;
    assert d.cipher.enc(k, d.cipher.dec(k, x)) == x;
  }

  /** What the hardware makes of such a frame, in terms of the whole request. */
  function ChunkResult(d: Device, w: Work, out: seq<byte>, n: nat, chunk: nat): seq<byte>
    requires n + chunk <= |out| && n + chunk <= |w.input|
  {
    if d.native || w.encrypt then out[n..n + chunk]
    else EcbDec(d.cipher, w.key, w.input[n..n + chunk])
  }

  /** What is in a frame, byte by byte, in each mode. */
  lemma {:induction false} FrameBytes(d: Device, encrypt: bool, k: Key, chain: Block, piece: seq<byte>)
    requires |piece| >= 16 && (!d.native && encrypt ==> |piece| == 16)
    ensures var f, n := Frame(d, encrypt, k, chain, piece), |piece|;
      && |f| == 24 + n + (if d.native then 0 else 16) + 12
      && f[..8] == [0, 0, 0, 1, 0, 0, 0, 1]
      && (forall i | 0 <= i < 16 :: f[8 + i] == if d.native then chain[i] else 0)
      && (forall i | 0 <= i < n :: f[24 + i] == if !d.native && encrypt then piece[i] ^ chain[i] else piece[i])
      && (!d.native ==> f[24 + n..40 + n] == var t := [1, 2, 3, 4, 5, 6, 7, 8, 9, 10, 11, 12, 13, 14, 14, 4];
                                             if encrypt then t else d.cipher.enc(k, t))
      && (if !d.native && encrypt then forall i | 40 + n <= i < |f| :: f[i] == 0
          else f[|f| - 12..] == d.mac(f[..|f| - 12]))
  {
    var f, n := Frame(d, encrypt, k, chain, piece), |piece|;
    if d.native {
      assert f[..24 + n] == ASSOC + chain + piece;
    } else if !encrypt {
      assert f[..40 + n] == ASSOC + ZEROS + piece + d.cipher.enc(k, TRAILER);
    } else {
      assert piece[..16] == piece;
    }
  }

  lemma FrameFields(d: Device, encrypt: bool, k: Key, chain: Block, piece: seq<byte>)
    requires |piece| >= 16 && (!d.native && encrypt ==> |piece| == 16)
    ensures var f := Frame(d, encrypt, k, chain, piece);
            && |f| >= HEADER + |piece|
            && (d.native ==> f[8..24] == chain)
            && f[HEADER..HEADER + |piece|] == if !d.native && encrypt then Xor(piece, chain) else piece
  {
    if !d.native && encrypt {
      assert piece[..16] == piece;
    }
  }

  lemma {:induction false} FrameResult(d: Device, w: Work, n: nat, chunk: nat)
    requires Blocks(|w.input|) && Blocks(n) && Blocks(chunk) && chunk > 0 && n + chunk <= |w.input|
    requires !d.native && w.encrypt ==> chunk == 16
    ensures |Output(d.cipher, w)| == |w.input|
    ensures var f := Frame(d, w.encrypt, w.key, ChainAt(d.cipher, w, n), w.input[n..n + chunk]);
            && |f| >= HEADER + chunk
            && Ciphered(d, w.encrypt, w.key, f[8..24], f[HEADER..HEADER + chunk])
              == ChunkResult(d, w, Output(d.cipher, w), n, chunk)
  {
    OutputLength(d.cipher, w);
    var chain, piece := ChainAt(d.cipher, w, n), w.input[n..n + chunk];
    FrameFields(d, w.encrypt, w.key, chain, piece);
    ChunkLaw(d.cipher, w, n, chunk);
    if !d.native && w.encrypt {
      OneBlock(d.cipher, w.key, chain, piece);
    }
  }

  lemma OneBlock(c: Cipher, k: Key, iv: Block, p: Block)
    ensures CbcEnc(c, k, iv, p) == c.enc(k, Xor(p, iv))
  {
    assert p[..16] == p && p[16..] == [];
    assert CbcEnc(c, k, c.enc(k, Xor(p, iv)), p[16..]) == [];
  }
}
