/** Bytes, 16-byte cipher blocks and the byte-wise exclusive or that chaining modes use. */
module Bytes {

  type byte = bv8

  /** One AES block. */
  type Block = b: seq<byte> | |b| == 16 witness seq(16, _ => 0)

  /** A whole number of blocks. */
  predicate Blocks(n: nat) {
    if n < 16 then n == 0 else Blocks(n - 16)
  }

  lemma {:induction false} BlocksIff(n: nat)
    ensures Blocks(n) <==> n % 16 == 0
  {
    if n >= 16 {
      BlocksIff(n - 16);
    }
  }

  lemma {:induction false} BlocksAdd(a: nat, b: nat)
    requires Blocks(a)
    ensures Blocks(a + b) <==> Blocks(b)
  {
    if a > 0 {
      BlocksAdd(a - 16, b);
    }
  }

  /** From one block boundary to the next one. */
  lemma {:induction false} BlocksNext(n: nat, m: nat)
    requires Blocks(n) && Blocks(m) && n < m
    ensures n + 16 <= m && Blocks(n + 16)
  {
    BlocksAdd(n, m - n);
    BlocksAdd(n, 16);
  }

  /** A cipher key as the caller hands it over. */
  type Key = seq<byte>

  function Xor(a: Block, b: Block): Block {
    seq(16, i requires 0 <= i < 16 => a[i] ^ b[i])
  }

  lemma XorByte(a: byte, b: byte)
    ensures (a ^ b) ^ b == a
  {
  }

  lemma {:induction false} XorCancels(a: Block, b: Block)
    ensures Xor(Xor(a, b), b) == a
  {
    forall i | 0 <= i < 16
      ensures Xor(Xor(a, b), b)[i] == a[i]
    {
      XorByte(a[i], b[i]);
    }
  }

  lemma SliceOfSlice(s: seq<byte>, from: nat, to: nat, i: nat, n: nat)
    requires i + n <= to - from && to <= |s|
    ensures s[from..to][i..i + n] == s[from + i..from + i + n]
  {
    var part := s[from..to][i..i + n];
    assert forall k | 0 <= k < n :: part[k] == s[from + i + k];
  }
}
