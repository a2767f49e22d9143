/** Cipher block chaining as section 6.2 of NIST SP 800-38A defines it, over an abstract
    invertible block cipher, and the laws that let an engine work chunk by chunk. */
module CbcSpec {
  import opened Bytes

  /** A block cipher is a family of permutations of the blocks, one for each key. */
  datatype Cipher = Cipher(enc: (Key, Block) -> Block, dec: (Key, Block) -> Block) {
    ghost predicate Invertible() {
      forall k: Key, b: Block :: dec(k, enc(k, b)) == b && enc(k, dec(k, b)) == b
    }
  }

  function CbcEnc(c: Cipher, k: Key, iv: Block, p: seq<byte>): seq<byte>
    decreases |p|
  {
    if |p| < 16 then []
    else
      var x := c.enc(k, Xor(p[..16], iv));
      x + CbcEnc(c, k, x, p[16..])
  }

  function CbcDec(c: Cipher, k: Key, iv: Block, q: seq<byte>): seq<byte>
    decreases |q|
  {
    if |q| < 16 then [] else Xor(c.dec(k, q[..16]), iv) + CbcDec(c, k, q[..16], q[16..])
  }

  /** Independent blocks: what the engine does in mode 2. */
  function EcbDec(c: Cipher, k: Key, q: seq<byte>): seq<byte> {
    if |q| < 16 then [] else c.dec(k, q[..16]) + EcbDec(c, k, q[16..])
  }

  /** The chaining value left after processing ciphertext `q`. */
  function LastBlock(iv: Block, q: seq<byte>): Block {
    if |q| < 16 then iv else q[|q| - 16..]
  }

  lemma CbcEncLength(c: Cipher, k: Key, iv: Block, p: seq<byte>)
    requires Blocks(|p|)
    ensures |CbcEnc(c, k, iv, p)| == |p|
    decreases |p|
  {
  }

  lemma CbcDecLength(c: Cipher, k: Key, iv: Block, q: seq<byte>)
    requires Blocks(|q|)
    ensures |CbcDec(c, k, iv, q)| == |q|
    decreases |q|
  {
  }

  lemma EcbDecLength(c: Cipher, k: Key, q: seq<byte>)
    requires Blocks(|q|)
    ensures |EcbDec(c, k, q)| == |q|
  {
  }

  /** A later block of a sequence that starts with block `x`. */
  lemma BehindFirst(x: Block, rest: seq<byte>, n: nat)
    requires 16 <= n <= |rest|
    ensures (x + rest)[n..n + 16] == rest[n - 16..n]
  {
  }

  /** The chaining value at block `n` of a sequence that starts with block `x`. */
  lemma LastBehindFirst(iv: Block, x: Block, rest: seq<byte>, n: nat)
    requires Blocks(n) && 16 <= n <= |x| + |rest|
    ensures LastBlock(iv, (x + rest)[..n]) == LastBlock(x, rest[..n - 16])
  {
    var before, after := (x + rest)[..n], rest[..n - 16];
    assert before == x + after;
    if n > 16 {
      assert before[n - 16..] == after[n - 32..];
    }
  }

  /** The chaining equations of the standard, block by block: C[j] = E(P[j] xor C[j-1]), C[-1] = IV. */
  lemma {:induction false} CbcEncEquation(c: Cipher, k: Key, iv: Block, p: seq<byte>, n: nat)
    requires Blocks(|p|) && Blocks(n) && n + 16 <= |p|
    ensures |CbcEnc(c, k, iv, p)| == |p|
    ensures CbcEnc(c, k, iv, p)[n..n + 16]
         == c.enc(k, Xor(p[n..n + 16], LastBlock(iv, CbcEnc(c, k, iv, p)[..n])))
    decreases n
  {
    CbcEncLength(c, k, iv, p);
    var q := CbcEnc(c, k, iv, p);
    var x := c.enc(k, Xor(p[..16], iv));
    var rest := CbcEnc(c, k, x, p[16..]);
    assert q == x + rest;
    if n == 0 {
      assert q[..16] == x;
    } else {
      CbcEncEquation(c, k, x, p[16..], n - 16);
      BehindFirst(x, rest, n);
      BehindFirst(p[..16], p[16..], n);
      assert p == p[..16] + p[16..];
      LastBehindFirst(iv, x, rest, n);
    }
  }

  /** P[j] = D(C[j]) xor C[j-1], C[-1] = IV. */
  lemma {:induction false} CbcDecEquation(c: Cipher, k: Key, iv: Block, q: seq<byte>, n: nat)
    requires Blocks(|q|) && Blocks(n) && n + 16 <= |q|
    ensures |CbcDec(c, k, iv, q)| == |q|
    ensures CbcDec(c, k, iv, q)[n..n + 16] == Xor(c.dec(k, q[n..n + 16]), LastBlock(iv, q[..n]))
    decreases n
  {
    CbcDecLength(c, k, iv, q);
    var first, more := q[..16], q[16..];
    var x, rest := Xor(c.dec(k, first), iv), CbcDec(c, k, first, more);
    assert q == first + more && CbcDec(c, k, iv, q) == x + rest;
    if n > 0 {
      CbcDecEquation(c, k, first, more, n - 16);
      BehindFirst(x, rest, n);
      BehindFirst(first, more, n);
      LastBehindFirst(iv, first, more, n);
      assert rest[n - 16..n] == Xor(c.dec(k, more[n - 16..n]), LastBlock(first, more[..n - 16]));
    }
  }

  /** Byte by byte: plaintext is the deciphered byte xor the ciphertext byte one block before, or that of the
      initial value. */
  lemma {:induction false} DecBytes(c: Cipher, k: Key, iv: Block, q: seq<byte>, n: nat, i: nat)
    requires Blocks(|q|) && Blocks(n) && n + 16 <= |q| && i < 16
    ensures |CbcDec(c, k, iv, q)| == |q| && (n > 0 ==> n >= 16)
    ensures CbcDec(c, k, iv, q)[n + i]
         == c.dec(k, q[n..n + 16])[i] ^ (if n == 0 then iv[i] else q[n - 16 + i])
  {
    CbcDecEquation(c, k, iv, q, n);
    PreviousByte(iv, q, n, i);
    assert CbcDec(c, k, iv, q)[n..n + 16][i] == CbcDec(c, k, iv, q)[n + i];
  }

  /** Ciphertext is the enciphered block `x` whose bytes are those of the plaintext xor those of the ciphertext
      one block before, or of the initial value. */
  lemma {:induction false} EncBytes(c: Cipher, k: Key, iv: Block, p: seq<byte>, n: nat) returns (x: Block)
    requires Blocks(|p|) && Blocks(n) && n + 16 <= |p|
    ensures |CbcEnc(c, k, iv, p)| == |p| && (n > 0 ==> n >= 16)
    ensures forall i | 0 <= i < 16 :: x[i] == p[n + i] ^ (if n == 0 then iv[i] else CbcEnc(c, k, iv, p)[n - 16 + i])
    ensures CbcEnc(c, k, iv, p)[n..n + 16] == c.enc(k, x)
  {
    CbcEncEquation(c, k, iv, p, n);
    var q := CbcEnc(c, k, iv, p);
    var last := LastBlock(iv, q[..n]);
    x := Xor(p[n..n + 16], last);
    PreviousByte(iv, q, n, 0);
    forall i | 0 <= i < 16 ensures x[i] == p[n + i] ^ (if n == 0 then iv[i] else q[n - 16 + i]) {
      PreviousByte(iv, q, n, i);
    }
  }

  lemma {:induction false} PreviousByte(iv: Block, q: seq<byte>, n: nat, i: nat)
    requires Blocks(n) && n <= |q| && i < 16
    ensures n > 0 ==> n >= 16
    ensures LastBlock(iv, q[..n])[i] == if n == 0 then iv[i] else q[n - 16 + i]
  {
  }

  lemma {:induction false} EcbDecAt(c: Cipher, k: Key, q: seq<byte>, n: nat)
    requires Blocks(|q|) && Blocks(n) && n + 16 <= |q|
    ensures |EcbDec(c, k, q)| == |q|
    ensures EcbDec(c, k, q)[n..n + 16] == c.dec(k, q[n..n + 16])
  {
    EcbDecLength(c, k, q);
    var rest := EcbDec(c, k, q[16..]);
    assert EcbDec(c, k, q) == c.dec(k, q[..16]) + rest;
    if n > 0 {
      EcbDecAt(c, k, q[16..], n - 16);
      BehindFirst(c.dec(k, q[..16]), rest, n);
      BehindFirst(q[..16], q[16..], n);
      assert q == q[..16] + q[16..];
    }
  }

  /** Deciphering a piece block by block and chaining it gives the piece's part of the decryption. */
  lemma {:induction false} BlockOfPiece(c: Cipher, k: Key, iv: Block, q: seq<byte>, at: nat, n: nat, data: seq<byte>,
                                        out: seq<byte>)
    requires Blocks(|q|) && Blocks(at + n) && Blocks(|data|) && Blocks(n)
    requires n + 16 <= |data| && at + |data| <= |q| == |out|
    requires data == EcbDec(c, k, q[at..at + |data|]) && out == CbcDec(c, k, iv, q)
    ensures Xor(data[n..n + 16], LastBlock(iv, q[..at + n])) == out[at + n..at + n + 16]
  {
    var m := |data|;
    EcbDecAt(c, k, q[at..at + m], n);
    SliceOfSlice(q, at, at + m, n, 16);
    assert data[n..n + 16] == c.dec(k, q[at + n..at + n + 16]);
    CbcDecEquation(c, k, iv, q, at + n);
  }

  /** Encryption can be cut at any block boundary when the chaining value is carried over. */
  lemma {:induction false} CbcEncSplit(c: Cipher, k: Key, iv: Block, a: seq<byte>, b: seq<byte>)
    requires Blocks(|a|)
    ensures CbcEnc(c, k, iv, a + b)
         == CbcEnc(c, k, iv, a) + CbcEnc(c, k, LastBlock(iv, CbcEnc(c, k, iv, a)), b)
    decreases |a|
  {
    if |a| == 0 {
      assert a + b == b;
    } else {
      var x := c.enc(k, Xor(a[..16], iv));
      var rest := CbcEnc(c, k, x, a[16..]);
      assert (a + b)[..16] == a[..16];
      assert (a + b)[16..] == a[16..] + b;
      CbcEncSplit(c, k, x, a[16..], b);
      CbcEncLength(c, k, x, a[16..]);
      assert LastBlock(iv, x + rest) == LastBlock(x, rest);
    }
  }

  /** Decryption likewise; its chaining value is the last ciphertext block that was consumed. */
  lemma {:induction false} CbcDecSplit(c: Cipher, k: Key, iv: Block, a: seq<byte>, b: seq<byte>)
    requires Blocks(|a|)
    ensures CbcDec(c, k, iv, a + b) == CbcDec(c, k, iv, a) + CbcDec(c, k, LastBlock(iv, a), b)
    decreases |a|
  {
    if |a| == 0 {
      assert a + b == b;
    } else {
      assert (a + b)[..16] == a[..16];
      assert (a + b)[16..] == a[16..] + b;
      CbcDecSplit(c, k, a[..16], a[16..], b);
      assert LastBlock(iv, a) == LastBlock(a[..16], a[16..]);
    }
  }

  /** Decrypting undoes encrypting, for every key, initial value and whole number of blocks. */
  lemma {:induction false} DecryptInvertsEncrypt(c: Cipher, k: Key, iv: Block, p: seq<byte>)
    requires c.Invertible() && Blocks(|p|)
    ensures CbcDec(c, k, iv, CbcEnc(c, k, iv, p)) == p
    decreases |p|
  {
    if |p| > 0 {
      var m := Xor(p[..16], iv);
      var x := c.enc(k, m);
      var q := x + CbcEnc(c, k, x, p[16..]);
      assert q[..16] == x && q[16..] == CbcEnc(c, k, x, p[16..]);
      assert c.dec(k, x) == m;
      XorCancels(p[..16], iv);
      DecryptInvertsEncrypt(c, k, x, p[16..]);
    }
  }

  lemma {:induction false} EncryptInvertsDecrypt(c: Cipher, k: Key, iv: Block, q: seq<byte>)
    requires c.Invertible() && Blocks(|q|)
    ensures CbcEnc(c, k, iv, CbcDec(c, k, iv, q)) == q
    decreases |q|
  {
    if |q| > 0 {
      var d := c.dec(k, q[..16]);
      var x := Xor(d, iv);
      var p := x + CbcDec(c, k, q[..16], q[16..]);
      assert p[..16] == x && p[16..] == CbcDec(c, k, q[..16], q[16..]);
      XorCancels(d, iv);
      assert c.enc(k, d) == q[..16];
      EncryptInvertsDecrypt(c, k, q[..16], q[16..]);
    }
  }

  // ---------------------------------------------------------------- one whole request

  /** What one request asks for. */
  datatype Work = Work(encrypt: bool, key: Key, iv: Block, input: seq<byte>)

  function Transform(c: Cipher, encrypt: bool, k: Key, iv: Block, input: seq<byte>): seq<byte> {
    if encrypt then CbcEnc(c, k, iv, input) else CbcDec(c, k, iv, input)
  }

  function Output(c: Cipher, w: Work): seq<byte> {
    Transform(c, w.encrypt, w.key, w.iv, w.input)
  }

  /** The ciphertext side of the request, which feeds the chain in both directions. */
  function Ciphertext(c: Cipher, w: Work): seq<byte> {
    if w.encrypt then Output(c, w) else w.input
  }

  /** The chaining value once the first `n` bytes are done. */
  function ChainAt(c: Cipher, w: Work, n: nat): Block {
    if n <= |Ciphertext(c, w)| then LastBlock(w.iv, Ciphertext(c, w)[..n]) else w.iv
  }

  lemma OutputLength(c: Cipher, w: Work)
    requires Blocks(|w.input|)
    ensures |Output(c, w)| == |Ciphertext(c, w)| == |w.input|
  {
    CbcEncLength(c, w.key, w.iv, w.input);
    CbcDecLength(c, w.key, w.iv, w.input);
  }

  lemma {:induction false} TransformSplit(c: Cipher, encrypt: bool, k: Key, iv: Block, a: seq<byte>, b: seq<byte>)
    requires Blocks(|a|)
    ensures |Transform(c, encrypt, k, iv, a)| == |a|
    ensures Transform(c, encrypt, k, iv, a + b)
         == Transform(c, encrypt, k, iv, a)
          + Transform(c, encrypt, k, LastBlock(iv, if encrypt then Transform(c, encrypt, k, iv, a) else a), b)
  {
    if encrypt {
      CbcEncSplit(c, k, iv, a, b);
      CbcEncLength(c, k, iv, a);
    } else {
      CbcDecSplit(c, k, iv, a, b);
      CbcDecLength(c, k, iv, a);
    }
  }

  /** The chaining value at a block boundary is what the part before it leaves. */
  lemma {:induction false} ChainIs(c: Cipher, w: Work, n: nat)
    requires Blocks(|w.input|) && Blocks(n) && n <= |w.input|
    ensures |Output(c, w)| == |Ciphertext(c, w)| == |w.input|
    ensures var head := Transform(c, w.encrypt, w.key, w.iv, w.input[..n]);
            ChainAt(c, w, n) == LastBlock(w.iv, if w.encrypt then head else w.input[..n])
  {
    var a, b := w.input[..n], w.input[n..];
    assert w.input == a + b;
    OutputLength(c, w);
    TransformSplit(c, w.encrypt, w.key, w.iv, a, b);
    assert Output(c, w)[..n] == Transform(c, w.encrypt, w.key, w.iv, a);
  }

  /** The law the chunked engine rests on: a chunk processed from the chaining value of its start is
      exactly its slice of the whole result, and it ends with the chaining value of its end. */
  lemma {:induction false} ChunkLaw(c: Cipher, w: Work, n: nat, len: nat)
    requires Blocks(|w.input|) && Blocks(n) && Blocks(len) && n + len <= |w.input|
    ensures |Output(c, w)| == |w.input|
    ensures Transform(c, w.encrypt, w.key, ChainAt(c, w, n), w.input[n..n + len]) == Output(c, w)[n..n + len]
    ensures len > 0 ==> ChainAt(c, w, n + len) == Ciphertext(c, w)[n + len - 16..n + len]
  {
    BlocksAdd(n, len);
    PieceOfOutput(c, w, n, len);
    OutputLength(c, w);
    ChainEnds(w.iv, Ciphertext(c, w), n + len);
  }

  lemma {:induction false} PieceOfOutput(c: Cipher, w: Work, n: nat, len: nat)
    requires Blocks(|w.input|) && Blocks(n) && Blocks(len) && n + len <= |w.input|
    ensures |Output(c, w)| == |w.input|
    ensures Transform(c, w.encrypt, w.key, ChainAt(c, w, n), w.input[n..n + len]) == Output(c, w)[n..n + len]
  {
    var a, b, z, chain := w.input[..n], w.input[n..n + len], w.input[n + len..], ChainAt(c, w, n);
    assert w.input == a + (b + z);
    ChainIs(c, w, n);
    TransformSplit(c, w.encrypt, w.key, w.iv, a, b + z);
    TransformSplit(c, w.encrypt, w.key, chain, b, z);
    var head, mid := Transform(c, w.encrypt, w.key, w.iv, a), Transform(c, w.encrypt, w.key, chain, b);
    var last := Transform(c, w.encrypt, w.key, LastBlock(chain, if w.encrypt then mid else b), z);
    Middle(head, mid, last);
  }

  lemma Middle(head: seq<byte>, mid: seq<byte>, last: seq<byte>)
    ensures (head + (mid + last))[|head|..|head| + |mid|] == mid
  {
  }

  lemma {:induction false} ChainEnds(iv: Block, q: seq<byte>, n: nat)
    requires Blocks(n) && n <= |q|
    ensures n > 0 ==> n >= 16 && LastBlock(iv, q[..n]) == q[n - 16..n]
  {
  }

  /** Cutting a message into two requests, the second started from the chaining value the first
      left behind, gives the same bytes as one request: no result depends on chunk boundaries. */
  lemma {:induction false} RequestsCompose(c: Cipher, w: Work, n: nat)
    requires Blocks(|w.input|) && Blocks(n) && n <= |w.input|
    ensures Output(c, w)
         == Output(c, w.(input := w.input[..n]))
          + Output(c, w.(iv := ChainAt(c, w, n), input := w.input[n..]))
  {
    OutputLength(c, w);
    assert w.input == w.input[..n] + w.input[n..];
    if w.encrypt {
      CbcEncSplit(c, w.key, w.iv, w.input[..n], w.input[n..]);
      CbcEncLength(c, w.key, w.iv, w.input[..n]);
      assert Output(c, w)[..n] == CbcEnc(c, w.key, w.iv, w.input[..n]);
    } else {
      CbcDecSplit(c, w.key, w.iv, w.input[..n], w.input[n..]);
    }
  }
}
