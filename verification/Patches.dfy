/** Bytes written into memory one after the other, and what that leaves where. */
module Patches {
  import opened Bytes

  /** Memory `m` with `d` written from `at` on, as far as it goes. */
  function Patch(m: seq<byte>, at: nat, d: seq<byte>): seq<byte>
    decreases |d|
  {
    if d == [] || |m| <= at then m else Patch(m[at := d[0]], at + 1, d[1..])
  }

  lemma {:induction false} PatchLength(m: seq<byte>, at: nat, d: seq<byte>)
    ensures |Patch(m, at, d)| == |m|
    decreases |d|
  {
    if d != [] && at < |m| {
      PatchLength(m[at := d[0]], at + 1, d[1..]);
    }
  }

  lemma {:induction false} PatchAt(m: seq<byte>, at: nat, d: seq<byte>, i: nat)
    requires at + |d| <= |m| && i < |m|
    ensures |Patch(m, at, d)| == |m|
    ensures Patch(m, at, d)[i] == if at <= i < at + |d| then d[i - at] else m[i]
    decreases |d|
  {
    if d != [] {
      PatchAt(m[at := d[0]], at + 1, d[1..], i);
    }
  }

  /** The only memory with those bytes. */
  lemma PatchIs(m: seq<byte>, at: nat, d: seq<byte>, p: seq<byte>)
    requires at + |d| <= |m| == |p|
    requires forall i | 0 <= i < |m| :: p[i] == if at <= i < at + |d| then d[i - at] else m[i]
    ensures p == Patch(m, at, d)
  {
    PatchLength(m, at, d);
    var q := Patch(m, at, d);
    forall i | 0 <= i < |m| ensures p[i] == q[i] {
      PatchAt(m, at, d, i);
    }
    SameBytes(p, q);
  }

  lemma SameBytes(p: seq<byte>, q: seq<byte>)
    requires |p| == |q| && forall i | 0 <= i < |p| :: p[i] == q[i]
    ensures p == q
  {
  }

  lemma SameSlice(x: seq<byte>, i: nat, y: seq<byte>, j: nat, n: nat)
    requires i + n <= |x| && j + n <= |y| && forall k | i <= k < i + n :: x[k] == y[j + (k - i)]
    ensures x[i..i + n] == y[j..j + n]
  {
  }

  lemma PatchApart(m: seq<byte>, at: nat, d: seq<byte>, from: nat, n: nat)
    requires at + |d| <= |m| && from + n <= |m| && (from + n <= at || at + |d| <= from)
    ensures |Patch(m, at, d)| == |m| && Patch(m, at, d)[from..from + n] == m[from..from + n]
  {
    var whole := Patch(m, at, d);
    PatchLength(m, at, d);
    forall k | from <= k < from + n ensures whole[k] == m[from + (k - from)] {
      PatchAt(m, at, d, k);
    }
    SameSlice(whole, from, m, from, n);
  }

  lemma PatchInside(m: seq<byte>, at: nat, d: seq<byte>, from: nat, n: nat)
    requires at + |d| <= |m| && from + n <= |d|
    ensures |Patch(m, at, d)| == |m| && Patch(m, at, d)[at + from..at + from + n] == d[from..from + n]
  {
    var whole := Patch(m, at, d);
    PatchLength(m, at, d);
    forall k | at + from <= k < at + from + n ensures whole[k] == d[from + (k - (at + from))] {
      PatchAt(m, at, d, k);
    }
    SameSlice(whole, at + from, d, from, n);
  }

  /** All of what was written. */
  lemma PatchWhole(m: seq<byte>, at: nat, d: seq<byte>)
    requires at + |d| <= |m|
    ensures |Patch(m, at, d)| == |m| && Patch(m, at, d)[at..at + |d|] == d
  {
    PatchInside(m, at, d, 0, |d|);
    assert d[0..|d|] == d;
  }

  /** Writing back the very bytes that are there changes nothing. */
  lemma PatchSame(m: seq<byte>, at: nat, n: nat)
    requires at + n <= |m|
    ensures Patch(m, at, m[at..at + n]) == m
  {
    PatchIs(m, at, m[at..at + n], m);
  }

  /** `m'` may differ from `m` only in the `n` bytes from `at` on. */
  ghost predicate OnlyChanged(m: seq<byte>, m': seq<byte>, at: nat, n: nat) {
    at + n <= |m| == |m'| && m'[..at] == m[..at] && m'[at + n..] == m[at + n..]
  }

  lemma PatchOnlyChanges(m: seq<byte>, at: nat, d: seq<byte>, n: nat)
    requires |d| <= n && at + n <= |m|
    ensures OnlyChanged(m, Patch(m, at, d), at, n)
  {
    PatchApart(m, at, d, 0, at);
    PatchApart(m, at, d, at + n, |m| - (at + n));
  }

  method Write(data: seq<byte>, dst: array<byte>, to: nat)
    requires to + |data| <= dst.Length
    modifies dst
    ensures dst[..] == Patch(old(dst[..]), to, data)
  {
    forall i | 0 <= i < |data| {
      dst[to + i] := data[i];
    }
    PatchIs(old(dst[..]), to, data, dst[..]);
  }
}
