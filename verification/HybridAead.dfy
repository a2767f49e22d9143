/** The packet wrapper of experiments/spu-sha256/spu_sha256_hybrid.c. A request is worked on in a copy, or,
    when the caller's packet has exactly the right shape, in the caller's own memory. */
module HybridAead {
  import opened Wrappers
  import opened Bytes
  import opened CbcSpec
  import opened HybridSpec
  import opened Patches

  datatype Code =
    | Success | EINPROGRESS | EBUSY | ENOBUFS | ENOMEM | EINVAL | EBADMSG | Failed(errno: nat)

  /** A stretch of caller memory that a scatterlist describes. */
  datatype Seg = Seg(mem: array<byte>, at: nat, len: nat) {
    ghost predicate Within() { at + len <= mem.Length }

    ghost function Read(n: nat): seq<byte>
      requires Within() && n <= len
      reads mem
    {
      mem[..][at..at + n]
    }
  }

  predicate Apart(a: Seg, b: Seg) {
    a.mem != b.mem || a.at + a.len <= b.at || b.at + b.len <= a.at
  }

  class Skb {
    const mem: array<byte>
    var len: nat
    const linear: bool
    const cloned: bool
    const users: nat

    constructor (mem: array<byte>, len: nat)
      ensures this.mem == mem && this.len == len
    {
      this.mem, this.len, this.linear, this.cloned, this.users := mem, len, true, false, 1;
    }
  }

  class Request {
    const assoc: Seg
    const src: Seg
    const dst: Seg
    const iv: Seg            // where the initial value is found, or is to be put
    const chained: bool      // some list has a second entry
    const skb: Skb?
    const dataOffset: nat
    const cryptlen: nat
    const assoclen: nat
    const authsize: nat

    constructor (assoc: Seg, src: Seg, dst: Seg, iv: Seg, chained: bool, skb: Skb?, dataOffset: nat,
                 cryptlen: nat, assoclen: nat, authsize: nat)
      ensures this.assoc == assoc && this.src == src && this.dst == dst && this.iv == iv
      ensures this.chained == chained && this.skb == skb && this.dataOffset == dataOffset
      ensures this.cryptlen == cryptlen && this.assoclen == assoclen && this.authsize == authsize
    {
      this.assoc, this.src, this.dst, this.iv := assoc, src, dst, iv;
      this.chained, this.skb, this.dataOffset := chained, skb, dataOffset;
      this.cryptlen, this.assoclen, this.authsize := cryptlen, assoclen, authsize;
    }

    predicate Invalid(enc: bool) {
      || authsize != 16 || assoclen != 8 || (!enc && cryptlen < 16)
      || Plen(enc) == 0 || Plen(enc) % 16 != 0 || Plen(enc) > 16000
    }

    function Plen(enc: bool): nat {
      if enc then cryptlen else if cryptlen < 16 then 0 else cryptlen - 16
    }

    /** What the crypto interface promises: lists long enough, and either one buffer or two. */
    ghost predicate WellFormed(enc: bool) {
      && assoc.Within() && src.Within() && dst.Within() && iv.Within()
      && assoc.len >= 8 && iv.len == 16
      && src.len >= cryptlen && dst.len >= Plen(enc) + (if enc then 16 else 0)
      && (src == dst || Apart(src, dst)) && Apart(assoc, dst) && Apart(iv, dst)
      && Apart(assoc, iv) && Apart(iv, src)
    }

    /** The packet can be worked on where it lies. */
    predicate Borrowable(enc: bool)
      reads skb
    {
      && src == dst && !chained && assoc.len == 8 && src.len >= Plen(enc) + 16
      && skb != null && skb.linear && !skb.cloned && skb.users == 1
      && dataOffset <= skb.len && skb.len - dataOffset == 24 + Plen(enc) + 16
      && assoc.mem == src.mem == iv.mem == skb.mem
      && assoc.at == dataOffset && src.at == assoc.at + 24 && iv.at == assoc.at + 8
    }
  }

  class Job {
    const outer: Request
    const encrypt: bool
    const plen: nat
    const skb: Skb
    const esp: array<byte>     // the packet being worked on starts at esp[at]
    const at: nat
    const borrowed: bool
    const savedLen: nat
    ghost const header: Header
    ghost const input: seq<byte>
    ghost const iv0: Block         // decryption: the packet's initial value
    ghost const tag0: seq<byte>    // decryption: the tag that came with it

    constructor (outer: Request, encrypt: bool, plen: nat, skb: Skb, at: nat, borrowed: bool, savedLen: nat,
                 ghost header: Header, ghost input: seq<byte>, ghost iv0: Block, ghost tag0: seq<byte>)
      ensures this.outer == outer && this.encrypt == encrypt && this.plen == plen && this.skb == skb
      ensures this.esp == skb.mem && this.at == at && this.borrowed == borrowed && this.savedLen == savedLen
      ensures this.header == header && this.input == input && this.iv0 == iv0 && this.tag0 == tag0
    {
      this.outer, this.encrypt, this.plen, this.skb := outer, encrypt, plen, skb;
      this.esp, this.at, this.borrowed, this.savedLen := skb.mem, at, borrowed, savedLen;
      this.header, this.input, this.iv0, this.tag0 := header, input, iv0, tag0;
    }

    ghost function Part(from: nat, n: nat): seq<byte>
      requires at + from + n <= esp.Length
      reads esp
    {
      esp[at + from..at + from + n]
    }

    /** The job's fixed shape. */
    ghost predicate Posed() {
      && outer.WellFormed(encrypt) && !outer.Invalid(encrypt) && plen == outer.Plen(encrypt)
      && esp == skb.mem && at + 24 + plen + 16 <= esp.Length
      && |input| == plen
      && (borrowed ==>
            && outer.assoc == Seg(esp, at, 8) && outer.src == outer.dst && outer.skb == skb
            && outer.src.mem == outer.iv.mem == esp && outer.src.at == at + 24 && outer.iv.at == at + 8)
      && (!borrowed ==> esp !in {outer.assoc.mem, outer.src.mem, outer.dst.mem, outer.iv.mem} && outer.skb != skb)
    }
  }

  type Short = t: seq<byte> | |t| == 12 witness seq(12, _ => 0)

  /** What the hardware contributes: on sealing an initial value and its 96-bit tag; on a failure,
      whatever it may have left in the packet. */
  datatype Reply = Reply(giv: Block, tag: Short, junk: seq<byte>)

  /** The surroundings of one submission: memory, hash results, and the hardware's return code. */
  datatype Fate = Fate(job: bool, skb: bool, hash: Option<nat>, sha1: Option<nat>, hardware: Code)

  /** The borrowed packet after sealing: the engine's initial value, ciphertext and short tag, then the
      long tag, then the initial value once more, amount to the two writes of the copying path. */
  lemma SealedInPlace(m: seq<byte>, at: nat, iv: Block, ct: seq<byte>, short: seq<byte>, tag: seq<byte>)
    requires |short| <= |tag| && at + 24 + |ct| + |tag| <= |m|
    ensures Patch(Patch(Patch(m, at + 8, iv + ct + short), at + 24 + |ct|, tag), at + 8, iv)
         == Patch(Patch(m, at + 8, iv), at + 24, ct + tag)
  {
    var s, c := iv + ct + short, ct + tag;
    var a := Patch(Patch(Patch(m, at + 8, s), at + 24 + |ct|, tag), at + 8, iv);
    var b := Patch(Patch(m, at + 8, iv), at + 24, c);
    PatchLength(m, at + 8, s);
    PatchLength(Patch(m, at + 8, s), at + 24 + |ct|, tag);
    PatchLength(Patch(Patch(m, at + 8, s), at + 24 + |ct|, tag), at + 8, iv);
    PatchLength(m, at + 8, iv);
    PatchLength(Patch(m, at + 8, iv), at + 24, c);
    forall i | 0 <= i < |m| ensures a[i] == b[i] {
      SealedByte(m, at, iv, ct, short, tag, i);
    }
    SameBytes(a, b);
  }

  lemma SealedByte(m: seq<byte>, at: nat, iv: Block, ct: seq<byte>, short: seq<byte>, tag: seq<byte>, i: nat)
    requires |short| <= |tag| && at + 24 + |ct| + |tag| <= |m| && i < |m|
    ensures var a := Patch(Patch(Patch(m, at + 8, iv + ct + short), at + 24 + |ct|, tag), at + 8, iv);
            var b := Patch(Patch(m, at + 8, iv), at + 24, ct + tag);
            |a| == |b| == |m| && a[i] == b[i]
  {
    var s, c := iv + ct + short, ct + tag;
    PatchAt(m, at + 8, s, i);
    PatchAt(Patch(m, at + 8, s), at + 24 + |ct|, tag, i);
    PatchAt(Patch(Patch(m, at + 8, s), at + 24 + |ct|, tag), at + 8, iv, i);
    PatchAt(m, at + 8, iv, i);
    PatchAt(Patch(m, at + 8, iv), at + 24, c, i);
  }

  /** What a successful request does to the caller's memory, whichever way it was worked on:
      `dm`, `vm` are the memories of destination and initial value before, `dm'`, `vm'` after. */
  ghost predicate Delivered(req: Request, enc: bool, dm: seq<byte>, vm: seq<byte>, dm': seq<byte>, vm': seq<byte>,
                            giv: Block, out: seq<byte>) {
    if !enc then dm' == Patch(dm, req.dst.at, out)
    else if req.dst.mem == req.iv.mem then dm' == Patch(Patch(dm, req.iv.at, giv), req.dst.at, out)
    else dm' == Patch(dm, req.dst.at, out) && vm' == Patch(vm, req.iv.at, giv)
  }

  /** The opening request finds the sealed packet where the sealing request left it. */
  ghost predicate Matches(sealing: Request, opening: Request) {
    && opening.assoc == sealing.assoc && opening.iv == sealing.iv
    && opening.src.mem == sealing.dst.mem && opening.src.at == sealing.dst.at
    && opening.cryptlen == sealing.cryptlen + 16 && opening.src.len >= opening.cryptlen
  }

  /** Destination and initial value, as memories with what they held before and hold after a request. */
  ghost predicate Layout(req: Request, n: nat, m: seq<byte>, v: seq<byte>, m1: seq<byte>, v1: seq<byte>) {
    && req.dst.at + n <= |m| && req.iv.at + 16 <= |v|
    && (req.dst.mem == req.iv.mem ==>
          && m == v && m1 == v1
          && (req.iv.at + 16 <= req.dst.at || req.dst.at + n <= req.iv.at))
  }

  /** After a sealing that was delivered, with the initial value in the packet's memory or elsewhere: the
      sealed packet and its initial value. */
  lemma SealedPacket(req: Request, m: seq<byte>, v: seq<byte>, m1: seq<byte>, v1: seq<byte>, giv: Block, out: seq<byte>)
    requires Layout(req, |out|, m, v, m1, v1) && Delivered(req, true, m, v, m1, v1, giv, out)
    ensures |m1| == |m| && |v1| == |v|
    ensures m1[req.dst.at..req.dst.at + |out|] == out && v1[req.iv.at..req.iv.at + 16] == giv
  {
    var a := Patch(v, req.iv.at, giv);
    PatchInside(v, req.iv.at, giv, 0, 16);
    if req.dst.mem == req.iv.mem {
      PatchInside(a, req.dst.at, out, 0, |out|);
      PatchApart(a, req.dst.at, out, req.iv.at, 16);
    } else {
      PatchInside(m, req.dst.at, out, 0, |out|);
    }
  }

  /** Whatever lies apart from both, like the header, is as before. */
  lemma SealedApart(req: Request, m: seq<byte>, v: seq<byte>, m1: seq<byte>, v1: seq<byte>, giv: Block,
                    out: seq<byte>, from: nat, n: nat)
    requires Layout(req, |out|, m, v, m1, v1) && Delivered(req, true, m, v, m1, v1, giv, out)
    ensures |m1| == |m| && |v1| == |v|
    ensures from + n <= |m| && (from + n <= req.dst.at || req.dst.at + |out| <= from)
            && (req.dst.mem == req.iv.mem ==> from + n <= req.iv.at || req.iv.at + 16 <= from)
        ==> m1[from..from + n] == m[from..from + n]
    ensures from + n <= |v| && (from + n <= req.iv.at || req.iv.at + 16 <= from)
            && (req.dst.mem == req.iv.mem ==> from + n <= req.dst.at || req.dst.at + |out| <= from)
        ==> v1[from..from + n] == v[from..from + n]
  {
    var a := if req.dst.mem == req.iv.mem then Patch(m, req.iv.at, giv) else m;
    PatchLength(v, req.iv.at, giv);
    PatchLength(a, req.dst.at, out);
    if from + n <= |m| && (from + n <= req.dst.at || req.dst.at + |out| <= from) {
      PatchApart(a, req.dst.at, out, from, n);
    }
    if from + n <= |v| && (from + n <= req.iv.at || req.iv.at + 16 <= from) {
      PatchApart(v, req.iv.at, giv, from, n);
    }
  }

  lemma {:induction false} SealedBytes(s: Suite, k: Key, req: Request, h: Header, p: seq<byte>, m: seq<byte>,
                                       v: seq<byte>, m1: seq<byte>, v1: seq<byte>, giv: Block)
    requires Blocks(|p|) && Layout(req, |p| + 16, m, v, m1, v1)
    requires Delivered(req, true, m, v, m1, v1, giv, Seal(s, k, h, giv, p))
    ensures var n, d := |p|, req.dst.at;
            && |m1| == |m| && |v1| == |v| && m1[d..d + n] == CbcEnc(s.cipher, k, giv, p)
            && m1[d + n..d + n + 16] == s.sha256(h + giv + m1[d..d + n])[..16]
            && v1[req.iv.at..req.iv.at + 16] == giv
  {
    var n, d, out := |p|, req.dst.at, Seal(s, k, h, giv, p);
    SealBytes(s, k, h, giv, p);
    SealedPacket(req, m, v, m1, v1, giv, out);
    SliceOfSlice(m1, d, d + n + 16, 0, n);
    SliceOfSlice(m1, d, d + n + 16, n, 16);
    assert out[n..n + 16] == s.sha256(h + giv + out[0..n])[..16] by {
      assert out[0..n] == out[..n];
      assert forall i | 0 <= i < 16 :: out[n..n + 16][i] == s.sha256(h + giv + out[..n])[..16][i];
    }
  }

  lemma {:induction false} OpenedBytes(s: Suite, k: Key, req: Request, iv: Block, ct: seq<byte>, m: seq<byte>,
                                       m1: seq<byte>)
    requires Blocks(|ct|) && req.dst.at + |ct| <= |m|
    requires m1 == Patch(m, req.dst.at, CbcDec(s.cipher, k, iv, ct))
    ensures m1 == m[..req.dst.at] + CbcDec(s.cipher, k, iv, ct) + m[req.dst.at + |ct|..]
  {
    var out := CbcDec(s.cipher, k, iv, ct);
    CbcDecLength(s.cipher, k, iv, ct);
    PatchIs(m, req.dst.at, out, m[..req.dst.at] + out + m[req.dst.at + |ct|..]);
  }

  /** What is delivered leaves every other byte of the destination's memory as it was. */
  lemma {:induction false} RestBytes(req: Request, enc: bool, m: seq<byte>, v: seq<byte>, m1: seq<byte>, v1: seq<byte>,
                                     giv: Block, out: seq<byte>)
    requires Layout(req, |out|, m, v, m1, v1) && Delivered(req, enc, m, v, m1, v1, giv, out)
    ensures |m1| == |m|
    ensures forall k | 0 <= k < |m| ::
      && (k < req.dst.at || req.dst.at + |out| <= k)
      && (!enc || req.dst.mem != req.iv.mem || k < req.iv.at || req.iv.at + 16 <= k)
      ==> m1[k] == m[k]
  {
    var a := if enc && req.dst.mem == req.iv.mem then Patch(m, req.iv.at, giv) else m;
    PatchLength(m, req.iv.at, giv);
    PatchLength(a, req.dst.at, out);
    forall k | 0 <= k < |m| && (k < req.dst.at || req.dst.at + |out| <= k)
               && (!enc || req.dst.mem != req.iv.mem || k < req.iv.at || req.iv.at + 16 <= k)
      ensures m1[k] == m[k]
    {
      PatchAt(a, req.dst.at, out, k);
      if enc && req.dst.mem == req.iv.mem {
        PatchAt(m, req.iv.at, giv, k);
      }
    }
  }

  /** A packet that was sealed, in place or by copy, opens to its payload: with the initial value read
      from where it was put, the tag is right and the engine's decryption gives the payload. */
  lemma {:induction false} PacketRoundTrip(s: Suite, k: Key, sealing: Request, opening: Request, m: seq<byte>,
                                           v: seq<byte>, m1: seq<byte>, v1: seq<byte>, giv: Block, h: Header,
                                           p: seq<byte>)
    requires s.cipher.Invertible() && Blocks(|p|) && Matches(sealing, opening) && sealing.cryptlen == |p|
    requires Layout(sealing, |p| + 16, m, v, m1, v1)
    requires Delivered(sealing, true, m, v, m1, v1, giv, Seal(s, k, h, giv, p))
    ensures |m1| == |m| && |v1| == |v|
    ensures v1[opening.iv.at..opening.iv.at + 16] == giv
    ensures Open(s, k, h, giv, m1[opening.src.at..opening.src.at + opening.cryptlen]) == Plain(p)
    ensures CbcDec(s.cipher, k, giv, m1[opening.src.at..opening.src.at + |p|]) == p
  {
    PacketOpens(s, k, sealing, opening, m, v, m1, v1, giv, h, p);
    SealedPart(s, k, h, giv, p);
    SealedPacket(sealing, m, v, m1, v1, giv, Seal(s, k, h, giv, p));
    SliceOfSlice(m1, opening.src.at, opening.src.at + opening.cryptlen, 0, |p|);
  }

  lemma {:induction false} PacketOpens(s: Suite, k: Key, sealing: Request, opening: Request, m: seq<byte>,
                                       v: seq<byte>, m1: seq<byte>, v1: seq<byte>, giv: Block, h: Header, p: seq<byte>)
    requires s.cipher.Invertible() && Blocks(|p|) && Matches(sealing, opening) && sealing.cryptlen == |p|
    requires Layout(sealing, |p| + 16, m, v, m1, v1)
    requires Delivered(sealing, true, m, v, m1, v1, giv, Seal(s, k, h, giv, p))
    ensures |m1| == |m| && |v1| == |v|
    ensures v1[opening.iv.at..opening.iv.at + 16] == giv
    ensures Open(s, k, h, giv, m1[opening.src.at..opening.src.at + opening.cryptlen]) == Plain(p)
  {
    OpenSeal(s, k, h, giv, p);
    SealedPacket(sealing, m, v, m1, v1, giv, Seal(s, k, h, giv, p));
  }

  lemma {:induction false} SealedPart(s: Suite, k: Key, h: Header, iv: Block, p: seq<byte>)
    requires s.cipher.Invertible() && Blocks(|p|)
    ensures |Seal(s, k, h, iv, p)| == |p| + 16
    ensures CbcDec(s.cipher, k, iv, Seal(s, k, h, iv, p)[..|p|]) == p
  {
    CbcEncLength(s.cipher, k, iv, p);
    DecryptInvertsEncrypt(s.cipher, k, iv, p);
    assert Seal(s, k, h, iv, p)[..|p|] == CbcEnc(s.cipher, k, iv, p);
  }

  /** Where the header is in memory, before and after. */
  ghost predicate HeaderIn(req: Request, n: nat, m: seq<byte>, v: seq<byte>, hm: seq<byte>, m1: seq<byte>,
                           v1: seq<byte>, hm1: seq<byte>) {
    && req.assoc.at + 8 <= |hm|
    && (req.assoc.mem == req.dst.mem ==>
          hm == m && hm1 == m1 && (req.assoc.at + 8 <= req.dst.at || req.dst.at + n <= req.assoc.at))
    && (req.assoc.mem == req.iv.mem ==>
          hm == v && hm1 == v1 && (req.assoc.at + 8 <= req.iv.at || req.iv.at + 16 <= req.assoc.at))
    && (req.assoc.mem != req.dst.mem && req.assoc.mem != req.iv.mem ==> hm1 == hm)
  }

  lemma {:induction false} HeaderStays(req: Request, m: seq<byte>, v: seq<byte>, hm: seq<byte>, m1: seq<byte>,
                                       v1: seq<byte>, hm1: seq<byte>, giv: Block, out: seq<byte>)
    requires Layout(req, |out|, m, v, m1, v1) && HeaderIn(req, |out|, m, v, hm, m1, v1, hm1)
    requires Delivered(req, true, m, v, m1, v1, giv, out)
    ensures |hm1| == |hm| && hm1[req.assoc.at..req.assoc.at + 8] == hm[req.assoc.at..req.assoc.at + 8]
  {
    SealedApart(req, m, v, m1, v1, giv, out, req.assoc.at, 8);
  }

  /** Reading header, initial value and packet back from the memories gives something that opens. */
  lemma {:induction false} OpensAfterSealing(s: Suite, k: Key, sealing: Request, opening: Request, m: seq<byte>,
                                             v: seq<byte>, hm: seq<byte>, m1: seq<byte>, v1: seq<byte>,
                                             hm1: seq<byte>, giv: Block, h: Header, p: seq<byte>)
    requires s.cipher.Invertible() && Blocks(|p|) && Matches(sealing, opening) && sealing.cryptlen == |p|
    requires Layout(sealing, |p| + 16, m, v, m1, v1) && HeaderIn(sealing, |p| + 16, m, v, hm, m1, v1, hm1)
    requires hm[sealing.assoc.at..sealing.assoc.at + 8] == h
    requires Delivered(sealing, true, m, v, m1, v1, giv, Seal(s, k, h, giv, p))
    ensures |m1| == |m| && |v1| == |v| && |hm1| == |hm|
    ensures hm1[opening.assoc.at..opening.assoc.at + 8] == h
    ensures v1[opening.iv.at..opening.iv.at + 16] == giv
    ensures Open(s, k, h, giv, m1[opening.src.at..opening.src.at + opening.cryptlen]) == Plain(p)
  {
    SealLength(s, k, h, giv, p);
    PacketOpens(s, k, sealing, opening, m, v, m1, v1, giv, h, p);
    HeaderStays(sealing, m, v, hm, m1, v1, hm1, giv, Seal(s, k, h, giv, p));
  }

  /** Sealing and opening in the same memory: no other byte changes but the initial value and the tag.
      `m2` is the packet's memory after the opening. */
  lemma {:induction false} PacketRoundTripInPlace(s: Suite, k: Key, sealing: Request, opening: Request, m: seq<byte>,
                                                  v: seq<byte>, m1: seq<byte>, v1: seq<byte>, m2: seq<byte>,
                                                  w: seq<byte>, w': seq<byte>, giv: Block, any: Block, h: Header,
                                                  p: seq<byte>)
    requires s.cipher.Invertible() && Blocks(|p|) && Matches(sealing, opening) && sealing.cryptlen == |p|
    requires Layout(sealing, |p| + 16, m, v, m1, v1)
    requires m[sealing.dst.at..sealing.dst.at + |p|] == p && opening.dst.at == sealing.dst.at
    requires Delivered(sealing, true, m, v, m1, v1, giv, Seal(s, k, h, giv, p))
    requires |m1| == |m| ==> Delivered(opening, false, m1, w, m2, w', any,
                                       CbcDec(s.cipher, k, giv, m1[opening.src.at..opening.src.at + |p|]))
    ensures var a := if sealing.dst.mem == sealing.iv.mem then Patch(m, sealing.iv.at, giv) else m;
            m2 == Patch(a, sealing.dst.at + |p|, Tag128(s, h, giv, CbcEnc(s.cipher, k, giv, p)))
  {
    PacketRoundTrip(s, k, sealing, opening, m, v, m1, v1, giv, h, p);
    var ct := CbcEnc(s.cipher, k, giv, p);
    CbcEncLength(s.cipher, k, giv, p);
    var a := if sealing.dst.mem == sealing.iv.mem then Patch(m, sealing.iv.at, giv) else m;
    if sealing.dst.mem == sealing.iv.mem {
      PatchApart(m, sealing.iv.at, giv, sealing.dst.at, |p|);
    }
    OpenedInPlace(a, sealing.dst.at, ct, Tag128(s, h, giv, ct), p);
  }

  lemma OpenedInPlace(a: seq<byte>, at: nat, ct: seq<byte>, tag: Block, p: seq<byte>)
    requires |ct| == |p| && at + |p| + 16 <= |a| && a[at..at + |p|] == p
    ensures Patch(Patch(a, at, ct + tag), at, p) == Patch(a, at + |p|, tag)
  {
    var c := ct + tag;
    var x := Patch(a, at, c);
    var y := Patch(x, at, p);
    PatchLength(a, at, c);
    PatchLength(x, at, p);
    forall i | 0 <= i < |a| ensures y[i] == if at + |p| <= i < at + |p| + 16 then tag[i - (at + |p|)] else a[i] {
      PatchAt(a, at, c, i);
      PatchAt(x, at, p, i);
      assert at <= i < at + |p| ==> a[i] == a[at..at + |p|][i - at];
    }
    PatchIs(a, at + |p|, tag, y);
  }

  class Hybrid {
    const suite: Suite
    const key: Key
    const inPlace: bool
    const privateSha1: bool
    var encPackets: nat
    var decPackets: nat
    var badTags: nat
    var borrowedPackets: nat
    ghost var liveJobs: set<Job>
    ghost var liveSkbs: set<Skb>

    // ------------------------------------------------------------ contents of the packet

    /** The 96-bit tag the hardware checks. */
    function ShortTag(h: Header, iv: Block, ct: seq<byte>): Short {
      (if privateSha1 then suite.sha1(h + iv + ct) else suite.sha256(h + iv + ct))[..12]
    }

    ghost predicate Loaded(j: Job)
      requires j.Posed()
      reads j.esp
    {
      && j.Part(0, 8) == j.header && j.Part(24, j.plen) == j.input
      && (!j.encrypt ==> j.Part(8, 16) == j.iv0 && j.Part(24 + j.plen, 12) == ShortTag(j.header, j.iv0, j.input))
    }

    /** The packet's own 128-bit tag is right: the condition for any hardware decryption. */
    ghost predicate Authentic(j: Job) {
      j.encrypt || j.tag0 == Tag128(suite, j.header, j.iv0, j.input)
    }

    /** A job left with the hardware. */
    ghost predicate Pending(j: Job)
      reads this, j.esp, j.skb
    {
      && j.Posed() && Loaded(j) && Authentic(j) && Owns(j)
      && (j.borrowed ==> j.skb.len + 4 == j.savedLen)
    }

    ghost predicate Owns(j: Job)
      reads `liveJobs, `liveSkbs
    {
      j in liveJobs && (!j.borrowed ==> j.skb in liveSkbs)
    }

    /** Another job's packet lies in memory that this job does not write to. */
    ghost predicate Separate(other: Job, j: Job) {
      other != j && other.skb != j.skb && other.esp !in {j.esp, j.outer.dst.mem, j.outer.iv.mem}
    }

    /** The bytes of the packet the hardware may touch: from where on, and how many. */
    function Room(j: Job): (nat, nat) {
      if j.encrypt then (j.at + 8, 28 + j.plen) else (j.at + 24, j.plen)
    }

    // ------------------------------------------------------------ return codes

    /** The engine's short tag is the beginning of the full one (not looked at under private framing). */
    ghost predicate TagRight(h: Header, p: seq<byte>, reply: Reply) {
      privateSha1 || reply.tag == suite.sha256(h + reply.giv + CbcEnc(suite.cipher, key, reply.giv, p))[..12]
    }

    /** The code of a verification. */
    function VerifyCode(fate: Fate, authentic: bool): Code {
      if fate.hash.Some? then Failed(fate.hash.value)
      else if !authentic then EBADMSG
      else if privateSha1 && fate.sha1.Some? then Failed(fate.sha1.value)
      else Success
    }

    /** The code of a job the hardware is done with. */
    function DoneCode(enc: bool, hardware: Code, hash: Option<nat>, tagRight: bool): Code {
      if hardware != Success || !enc then hardware
      else if hash.Some? then Failed(hash.value)
      else if tagRight then Success
      else EBADMSG
    }

    /** The code of a submission for which there is memory. It does not depend on where the packet lies. */
    function SubmitCode(enc: bool, fate: Fate, authentic: bool, hash: Option<nat>, tagRight: bool): Code {
      var verified := if enc then Success else VerifyCode(fate, authentic);
      if verified != Success then verified
      else if fate.hardware == EINPROGRESS then EINPROGRESS
      else DoneCode(enc, if fate.hardware == EBUSY then ENOBUFS else fate.hardware, hash, tagRight)
    }

    // ------------------------------------------------------------ hardware

    /** One hardware request that succeeds. */
    method Hardware(j: Job, reply: Reply)
      requires j.Posed() && Loaded(j) && Authentic(j)
      modifies j.esp
      ensures j.encrypt ==> j.esp[..] == Patch(old(j.esp[..]), j.at + 8,
                                               reply.giv + CbcEnc(suite.cipher, key, reply.giv, j.input) + reply.tag)
      ensures !j.encrypt ==> j.esp[..] == Patch(old(j.esp[..]), j.at + 24, CbcDec(suite.cipher, key, j.iv0, j.input))
      ensures |CbcEnc(suite.cipher, key, reply.giv, j.input)| == j.plen
      ensures |CbcDec(suite.cipher, key, j.iv0, j.input)| == j.plen
    {
      BlocksIff(j.plen);
      CbcEncLength(suite.cipher, key, reply.giv, j.input);
      CbcDecLength(suite.cipher, key, j.iv0, j.input);
      var payload := j.esp[j.at + 24..j.at + 24 + j.plen];
      if j.encrypt {
        Write(reply.giv + CbcEnc(suite.cipher, key, reply.giv, payload) + reply.tag, j.esp, j.at + 8);
      } else {
        Write(CbcDec(suite.cipher, key, j.esp[j.at + 8..j.at + 24], payload), j.esp, j.at + 24);
      }
    }

    /** One that fails, perhaps half way. */
    method HardwareFails(j: Job, reply: Reply)
      requires j.Posed()
      modifies j.esp
      ensures OnlyChanged(old(j.esp[..]), j.esp[..], Room(j).0, Room(j).1)
    {
      if |reply.junk| <= Room(j).1 {
        PatchOnlyChanges(j.esp[..], Room(j).0, reply.junk, Room(j).1);
        Write(reply.junk, j.esp, Room(j).0);
      }
    }

    // ------------------------------------------------------------ finishing

    /** The software half of sealing: the full tag replaces the short one, and the copy is handed out. */
    method FinishSealed(j: Job, reply: Reply, ghost m: seq<byte>, hash: Option<nat>) returns (err: Code)
      requires j.Posed() && j.encrypt && |m| == j.esp.Length
      requires m[j.at..j.at + 8] == j.header && |CbcEnc(suite.cipher, key, reply.giv, j.input)| == j.plen
      requires j.esp[..] == Patch(m, j.at + 8, reply.giv + CbcEnc(suite.cipher, key, reply.giv, j.input) + reply.tag)
      modifies `encPackets, j.esp, j.outer.dst.mem, j.outer.iv.mem
      ensures err == DoneCode(true, Success, hash, TagRight(j.header, j.input, reply))
      ensures err != Success && !j.borrowed ==>
        j.outer.dst.mem[..] == old(j.outer.dst.mem[..]) && j.outer.iv.mem[..] == old(j.outer.iv.mem[..])
      ensures err != Success && j.borrowed ==> j.esp[..] == old(j.esp[..])
      ensures err == Success ==>
        Delivered(j.outer, true, if j.borrowed then m else old(j.outer.dst.mem[..]), old(j.outer.iv.mem[..]),
                  j.outer.dst.mem[..], j.outer.iv.mem[..], reply.giv, Seal(suite, key, j.header, reply.giv, j.input))
      ensures encPackets == old(encPackets) + if err == Success then 1 else 0
    {
      if hash.Some? {
        return Failed(hash.value);
      }
      ghost var ct := CbcEnc(suite.cipher, key, reply.giv, j.input);
      AfterHardware(m, j.at, j.plen, j.header, reply.giv, ct, reply.tag, j.esp[..]);
      var digest := suite.sha256(j.esp[..][j.at..j.at + 24 + j.plen]);
      if !privateSha1 && j.esp[..][j.at + 24 + j.plen..j.at + 36 + j.plen] != digest[..12] {
        return EBADMSG;
      }
      HandOutSealed(j, m, reply.giv, ct, reply.tag, digest[..16]);
      encPackets := encPackets + 1;
      return Success;
    }

    /** The full tag goes over the short one, and the packet to the caller. */
    method HandOutSealed(j: Job, ghost m: seq<byte>, ghost iv: Block, ghost ct: seq<byte>, ghost short: Short,
                         tag: Block)
      requires j.Posed() && j.encrypt && |m| == j.esp.Length && |ct| == j.plen
      requires j.esp[..] == Patch(m, j.at + 8, iv + ct + short)
      modifies j.esp, j.outer.dst.mem, j.outer.iv.mem
      ensures Delivered(j.outer, true, if j.borrowed then m else old(j.outer.dst.mem[..]), old(j.outer.iv.mem[..]),
                        j.outer.dst.mem[..], j.outer.iv.mem[..], iv, ct + tag)
    {
      Write(tag, j.esp, j.at + 24 + j.plen);
      AfterTag(m, j.at, j.plen, iv, ct, short, tag, j.esp[..]);
      var giv := j.esp[..][j.at + 8..j.at + 24];
      if j.borrowed {
        PutBackIv(j, m, giv, ct, short, tag);
      } else {
        var out := j.esp[..][j.at + 24..j.at + 40 + j.plen];
        CopyOutSealed(j.outer, giv, out);
      }
    }

    /** In a borrowed packet only the initial value is written once more. */
    method PutBackIv(j: Job, ghost m: seq<byte>, iv: Block, ghost ct: seq<byte>, ghost short: Short, ghost tag: Block)
      requires j.Posed() && j.encrypt && j.borrowed && |m| == j.esp.Length && |ct| == j.plen
      requires j.esp[..] == Patch(Patch(m, j.at + 8, iv + ct + short), j.at + 24 + j.plen, tag)
      modifies j.esp
      ensures Delivered(j.outer, true, m, old(j.esp[..]), j.esp[..], j.esp[..], iv, ct + tag)
    {
      ghost var before := j.esp[..];
      DeliveredInPlace(j.outer, j.at, m, iv, ct, short, tag, before);
      Write(iv, j.esp, j.at + 8);
    }

    static lemma {:induction false} DeliveredInPlace(req: Request, at: nat, m: seq<byte>, iv: Block, ct: seq<byte>,
                                                     short: Short, tag: Block, before: seq<byte>)
      requires req.dst.mem == req.iv.mem && req.iv.at == at + 8 && req.dst.at == at + 24 && at + 40 + |ct| <= |m|
      requires before == Patch(Patch(m, at + 8, iv + ct + short), at + 24 + |ct|, tag)
      ensures var after := Patch(before, at + 8, iv);
              Delivered(req, true, m, before, after, after, iv, ct + tag)
    {
      SealedInPlace(m, at, iv, ct, short, tag);
    }

    method CopyOutSealed(req: Request, giv: Block, out: seq<byte>)
      requires req.WellFormed(true) && |out| == req.cryptlen + 16
      modifies req.dst.mem, req.iv.mem
      ensures Delivered(req, true, old(req.dst.mem[..]), old(req.iv.mem[..]), req.dst.mem[..], req.iv.mem[..], giv, out)
    {
      Write(giv, req.iv.mem, req.iv.at);
      Write(out, req.dst.mem, req.dst.at);
    }

    static lemma {:induction false} AfterTag(m: seq<byte>, at: nat, n: nat, iv: Block, ct: seq<byte>, short: Short,
                                             tag: Block, e: seq<byte>)
      requires |ct| == n && at + 40 + n <= |m|
      requires e == Patch(Patch(m, at + 8, iv + ct + short), at + 24 + n, tag)
      ensures |e| == |m| && e[at + 8..at + 24] == iv && e[at + 24..at + 40 + n] == ct + tag
    {
      var s := iv + ct + short;
      assert s[0..16] == iv && s[16..16 + n] == ct;
      var m1 := Patch(m, at + 8, s);
      PatchLength(m, at + 8, s);
      PatchLength(m1, at + 24 + n, tag);
      PatchInside(m, at + 8, s, 0, 16);
      PatchInside(m, at + 8, s, 16, n);
      PatchApart(m1, at + 24 + n, tag, at + 8, 16);
      PatchApart(m1, at + 24 + n, tag, at + 24, n);
      PatchInside(m1, at + 24 + n, tag, 0, 16);
      Adjacent(e, at + 24, at + 24 + n, at + 40 + n);
    }

    static lemma Adjacent(e: seq<byte>, a: nat, b: nat, c: nat)
      requires a <= b <= c <= |e|
      ensures e[a..c] == e[a..b] + e[b..c]
    {
    }

    method FinishOpened(j: Job, ghost m: seq<byte>)
      requires j.Posed() && !j.encrypt && |m| == j.esp.Length
      requires |CbcDec(suite.cipher, key, j.iv0, j.input)| == j.plen
      requires j.esp[..] == Patch(m, j.at + 24, CbcDec(suite.cipher, key, j.iv0, j.input))
      modifies `decPackets, j.outer.dst.mem
      ensures Delivered(j.outer, false, if j.borrowed then m else old(j.outer.dst.mem[..]), [],
                        j.outer.dst.mem[..], [], j.iv0, CbcDec(suite.cipher, key, j.iv0, j.input))
      ensures decPackets == old(decPackets) + 1
    {
      if !j.borrowed {
        PatchWhole(m, j.at + 24, CbcDec(suite.cipher, key, j.iv0, j.input));
        Write(j.esp[..][j.at + 24..j.at + 24 + j.plen], j.outer.dst.mem, j.outer.dst.at);
      }
      decPackets := decPackets + 1;
    }

    /** Every finished job dies here: a borrowed packet gets its length back, an own copy is freed. */
    method Release(j: Job, err: Code)
      requires Owns(j)
      modifies `borrowedPackets, `liveJobs, `liveSkbs, j.skb
      ensures liveJobs == old(liveJobs) - {j} && liveSkbs == old(liveSkbs) - (if j.borrowed then {} else {j.skb})
      ensures j.borrowed ==> j.skb.len == j.savedLen
      ensures borrowedPackets == old(borrowedPackets) + if j.borrowed && err == Success then 1 else 0
    {
      if j.borrowed {
        j.skb.len := j.savedLen;
        if err == Success {
          borrowedPackets := borrowedPackets + 1;
        }
      } else {
        liveSkbs := liveSkbs - {j.skb};
      }
      liveJobs := liveJobs - {j};
    }

    static lemma {:induction false} AfterHardware(m: seq<byte>, at: nat, n: nat, h: Header, iv: Block, ct: seq<byte>,
                                                  tag: Short, e: seq<byte>)
      requires |ct| == n && at + 36 + n <= |m| && m[at..at + 8] == h && e == Patch(m, at + 8, iv + ct + tag)
      ensures |e| == |m| && e[at..at + 24 + n] == h + iv + ct && e[at + 24 + n..at + 36 + n] == tag
    {
      var s := iv + ct + tag;
      assert s[0..16] == iv && s[16..16 + n] == ct && s[16 + n..28 + n] == tag;
      PatchLength(m, at + 8, s);
      PatchApart(m, at + 8, s, at, 8);
      PatchInside(m, at + 8, s, 0, 16);
      PatchInside(m, at + 8, s, 16, n);
      PatchInside(m, at + 8, s, 16 + n, 12);
      Adjacent(e, at, at + 8, at + 24);
      Adjacent(e, at, at + 24, at + 24 + n);
    }

    // ------------------------------------------------------------ completion

    ghost function Result(j: Job, reply: Reply): seq<byte> {
      if j.encrypt then Seal(suite, key, j.header, reply.giv, j.input)
      else CbcDec(suite.cipher, key, j.iv0, j.input)
    }

    /** The hardware's verdict on a loaded job, then everything software does to finish it. */
    method Complete(j: Job, hardware: Code, reply: Reply, hash: Option<nat>) returns (r: Code)
      requires j.Posed() && Loaded(j) && Authentic(j) && Owns(j) && hardware != EINPROGRESS
      modifies this, j.skb, j.esp, j.outer.dst.mem, j.outer.iv.mem
      ensures liveJobs == old(liveJobs) - {j} && liveSkbs == old(liveSkbs) - (if j.borrowed then {} else {j.skb})
      ensures j.borrowed ==> j.skb.len == j.savedLen
      ensures r == DoneCode(j.encrypt, hardware, hash, TagRight(j.header, j.input, reply))
      ensures r != EINPROGRESS && badTags == old(badTags)
      ensures r == Success ==>
        Delivered(j.outer, j.encrypt, old(j.outer.dst.mem[..]), old(j.outer.iv.mem[..]),
                  j.outer.dst.mem[..], j.outer.iv.mem[..], reply.giv, Result(j, reply))
      ensures r != Success && !j.borrowed ==>
        j.outer.dst.mem[..] == old(j.outer.dst.mem[..]) && j.outer.iv.mem[..] == old(j.outer.iv.mem[..])
      ensures r != Success && j.borrowed ==> OnlyChanged(old(j.esp[..]), j.esp[..], Room(j).0, Room(j).1)
    {
      ghost var m := j.esp[..];
      if hardware == Success {
        Hardware(j, reply);
        if j.encrypt {
          PatchOnlyChanges(m, j.at + 8, reply.giv + CbcEnc(suite.cipher, key, reply.giv, j.input) + reply.tag,
                           28 + j.plen);
          r := FinishSealed(j, reply, m, hash);
        } else {
          FinishOpened(j, m);
          r := Success;
        }
      } else {
        HardwareFails(j, reply);
        r := hardware;
      }
      Release(j, r);
    }

    /** The hardware's completion callback for a pending job. */
    method HybridDone(j: Job, err: Code, reply: Reply, hash: Option<nat>) returns (r: Code)
      requires Pending(j)
      modifies this, j.skb, j.esp, j.outer.dst.mem, j.outer.iv.mem
      ensures err == EINPROGRESS ==> r == EINPROGRESS && Pending(j) && liveJobs == old(liveJobs)
      ensures err != EINPROGRESS ==>
        && r == (if err != Success || !j.encrypt then err
                 else if hash.Some? then Failed(hash.value)
                 else if privateSha1 || reply.tag == suite.sha256(
                        j.header + reply.giv + CbcEnc(suite.cipher, key, reply.giv, j.input))[..12] then Success
                 else EBADMSG)
        && liveJobs == old(liveJobs) - {j} && liveSkbs == old(liveSkbs) - (if j.borrowed then {} else {j.skb})
        && (j.borrowed ==> j.skb.len == j.savedLen)
        && (r == Success ==>
              Delivered(j.outer, j.encrypt, old(j.outer.dst.mem[..]), old(j.outer.iv.mem[..]),
                        j.outer.dst.mem[..], j.outer.iv.mem[..], reply.giv,
                        if j.encrypt then Seal(suite, key, j.header, reply.giv, j.input)
                        else CbcDec(suite.cipher, key, j.iv0, j.input)))
        && (r != Success && !j.borrowed ==>
              j.outer.dst.mem[..] == old(j.outer.dst.mem[..]) && j.outer.iv.mem[..] == old(j.outer.iv.mem[..]))
        && (r != Success && j.borrowed ==> OnlyChanged(old(j.esp[..]), j.esp[..], Room(j).0, Room(j).1))
      // Jobs the hardware still has in other memory stay as they are: there may be any number of them.
      ensures forall k <- old(liveJobs) | old(Pending(k)) && Separate(k, j) :: Pending(k)
    {
      if err == EINPROGRESS {
        return EINPROGRESS;
      }
      r := Complete(j, err, reply, hash);
    }

    // ------------------------------------------------------------ submission

    /** A private copy of the packet, 64 bytes of room to spare left out. */
    method MakeCopy(req: Request, enc: bool, plen: nat) returns (skb: Skb)
      requires req.WellFormed(enc) && plen == req.Plen(enc) && plen <= req.cryptlen
      ensures fresh(skb) && fresh(skb.mem) && skb.mem.Length == 24 + plen + 32
      ensures skb.mem[..8] == req.assoc.Read(8)
      ensures skb.mem[24..24 + plen] == req.src.Read(plen)
    {
      var mem := new byte[24 + plen + 32](_ => 0);
      skb := new Skb(mem, 24 + plen + 12);
      ghost var m0 := mem[..];
      var h := req.assoc.mem[..][req.assoc.at..req.assoc.at + 8];
      var p := req.src.mem[..][req.src.at..req.src.at + plen];
      Write(h, mem, 0);
      PatchInside(m0, 0, h, 0, 8);
      ghost var m1 := mem[..];
      Write(p, mem, 24);
      PatchInside(m1, 24, p, 0, plen);
      PatchApart(m1, 24, p, 0, 8);
    }

    /** Before any decryption: the full tag is checked, and only then is the frame for the hardware made. */
    method Verify(j: Job, fate: Fate) returns (err: Code)
      requires j.Posed() && !j.encrypt && |j.tag0| == 16
      requires j.Part(0, 8) == j.header && j.Part(24, j.plen) == j.input
      requires j.outer.iv.Read(16) == j.iv0
      requires j.outer.src.mem[..][j.outer.src.at + j.plen..j.outer.src.at + j.plen + 16] == j.tag0
      requires j.borrowed ==> !privateSha1 && j.Part(24 + j.plen, 16) == j.tag0
      modifies `badTags, j.esp
      ensures err == VerifyCode(fate, Authentic(j))
      ensures j.borrowed ==> j.esp[..] == old(j.esp[..])
      ensures err == Success ==> Loaded(j) && Authentic(j)
      ensures badTags == old(badTags) + if err == EBADMSG then 1 else 0
    {
      CopyIv(j);
      if fate.hash.Some? {
        return Failed(fate.hash.value);
      }
      var frame := j.esp[..][j.at..j.at + 24 + j.plen];
      var digest := suite.sha256(frame);
      var received := j.outer.src.mem[..][j.outer.src.at + j.plen..j.outer.src.at + j.plen + 16];
      if digest[..16] != received {
        badTags := badTags + 1;
        return EBADMSG;
      }
      var short := digest[..12];
      if privateSha1 {
        if fate.sha1.Some? {
          return Failed(fate.sha1.value);
        }
        short := suite.sha1(frame)[..12];
      }
      if j.borrowed {
        FirstTwelve(j.esp[..], j.at + 24 + j.plen, digest);
      }
      PutShortTag(j, short);
      return Success;
    }

    static lemma FirstTwelve(m: seq<byte>, at: nat, digest: seq<byte>)
      requires at + 16 <= |m| && 16 <= |digest| && m[at..at + 16] == digest[..16]
      ensures m[at..at + 12] == digest[..12]
    {
      assert m[at..at + 12] == m[at..at + 16][..12];
    }

    /** The packet's initial value goes where the engine expects it; in a borrowed packet it is there. */
    method CopyIv(j: Job)
      requires j.Posed() && j.Part(0, 8) == j.header && j.Part(24, j.plen) == j.input
      requires j.outer.iv.Read(16) == j.iv0
      modifies j.esp
      ensures j.Part(0, 8) == j.header && j.Part(8, 16) == j.iv0 && j.Part(24, j.plen) == j.input
      ensures j.esp[..][j.at..j.at + 24 + j.plen] == j.header + j.iv0 + j.input
      ensures j.borrowed ==> j.esp[..] == old(j.esp[..])
    {
      var iv := j.outer.iv.mem[..][j.outer.iv.at..j.outer.iv.at + 16];
      ghost var m := j.esp[..];
      LoadIv(m, j.at, j.header, iv, j.input);
      if j.borrowed {
        PatchSame(m, j.at + 8, 16);
      }
      Write(iv, j.esp, j.at + 8);
    }

    method PutShortTag(j: Job, short: Short)
      requires j.Posed() && j.Part(0, 8) == j.header && j.Part(8, 16) == j.iv0 && j.Part(24, j.plen) == j.input
      requires j.borrowed ==> j.Part(24 + j.plen, 12) == short
      modifies j.esp
      ensures j.Part(0, 8) == j.header && j.Part(8, 16) == j.iv0 && j.Part(24, j.plen) == j.input
      ensures j.Part(24 + j.plen, 12) == short
      ensures j.borrowed ==> j.esp[..] == old(j.esp[..])
    {
      ghost var m := j.esp[..];
      LoadTag(m, j.at, j.plen, short);
      if j.borrowed {
        PatchSame(m, j.at + 24 + j.plen, 12);
      }
      Write(short, j.esp, j.at + 24 + j.plen);
    }

    static lemma {:induction false} LoadIv(m: seq<byte>, at: nat, h: Header, iv: Block, p: seq<byte>)
      requires at + 24 + |p| <= |m| && m[at..at + 8] == h && m[at + 24..at + 24 + |p|] == p
      ensures var m' := Patch(m, at + 8, iv);
              |m'| == |m| && m'[at..at + 24 + |p|] == h + iv + p
              && m'[at..at + 8] == h && m'[at + 8..at + 24] == iv && m'[at + 24..at + 24 + |p|] == p
    {
      PatchApart(m, at + 8, iv, at, 8);
      PatchInside(m, at + 8, iv, 0, 16);
      PatchApart(m, at + 8, iv, at + 24, |p|);
      var m' := Patch(m, at + 8, iv);
      assert m'[at..at + 24 + |p|] == m'[at..at + 8] + m'[at + 8..at + 24] + m'[at + 24..at + 24 + |p|];
    }

    static lemma {:induction false} LoadTag(m: seq<byte>, at: nat, plen: nat, short: Short)
      requires at + 36 + plen <= |m|
      ensures var m' := Patch(m, at + 24 + plen, short);
              |m'| == |m| && m'[at + 24 + plen..at + 36 + plen] == short && m'[at..at + 8] == m[at..at + 8]
              && m'[at + 8..at + 24] == m[at + 8..at + 24] && m'[at + 24..at + 24 + plen] == m[at + 24..at + 24 + plen]
    {
      var n := at + 24 + plen;
      PatchInside(m, n, short, 0, 12);
      PatchApart(m, n, short, at, 8);
      PatchApart(m, n, short, at + 8, 16);
      PatchApart(m, n, short, at + 24, plen);
    }

    /** A job made for a request: whichever packet it works on holds the caller's header and input. */
    ghost predicate Made(j: Job, req: Request, enc: bool)
      requires req.WellFormed(enc) && !req.Invalid(enc)
      reads j.esp, req.assoc.mem, req.src.mem, req.iv.mem
    {
      && j.Posed() && j.outer == req && j.encrypt == enc && j.plen == req.Plen(enc)
      && j.header == req.assoc.Read(8) && j.input == req.src.Read(j.plen) && j.iv0 == req.iv.Read(16)
      && (!enc ==> |j.tag0| == 16 && j.tag0 == req.src.mem[..][req.src.at + j.plen..req.src.at + j.plen + 16])
      && j.Part(0, 8) == j.header && j.Part(24, j.plen) == j.input
    }

    /** The packet will be worked on where it lies. */
    predicate Borrows(req: Request, enc: bool)
      reads req.skb
    {
      inPlace && !privateSha1 && req.Borrowable(enc)
    }

    /** The part of a borrowed packet that a failing request may have spoilt. */
    function Touchable(req: Request, enc: bool): (int, int) {
      if enc then (req.iv.at, 28 + req.Plen(enc)) else (req.dst.at, req.Plen(enc))
    }

    ghost function TagOf(req: Request, enc: bool): seq<byte>
      requires req.WellFormed(enc) && !req.Invalid(enc)
      reads req.src.mem
    {
      if enc then [] else req.src.mem[..][req.src.at + req.Plen(enc)..req.src.at + req.Plen(enc) + 16]
    }

    method BorrowPacket(req: Request, enc: bool) returns (j: Job)
      requires req.WellFormed(enc) && !req.Invalid(enc) && req.Borrowable(enc)
      ensures fresh(j) && Made(j, req, enc) && j.borrowed && j.savedLen == req.skb.len
    {
      var plen := req.Plen(enc);
      j := new Job(req, enc, plen, req.skb, req.assoc.at, true, req.skb.len,
                   req.assoc.Read(8), req.src.Read(plen), req.iv.Read(16), TagOf(req, enc));
    }

    method CopyPacket(req: Request, enc: bool) returns (j: Job)
      requires req.WellFormed(enc) && !req.Invalid(enc)
      ensures fresh(j) && fresh(j.skb) && fresh(j.esp) && Made(j, req, enc) && !j.borrowed
    {
      var plen := req.Plen(enc);
      var skb := MakeCopy(req, enc, plen);
      j := new Job(req, enc, plen, skb, 0, false, 0,
                   req.assoc.Read(8), req.src.Read(plen), req.iv.Read(16), TagOf(req, enc));
    }

    /** Makes the job: it borrows the caller's packet or owns a copy. */
    method Prepare(req: Request, enc: bool, fate: Fate) returns (j: Job?)
      requires req.WellFormed(enc) && !req.Invalid(enc)
      modifies `liveJobs, `liveSkbs
      ensures j == null <==> !Borrows(req, enc) && !fate.skb
      // The packet is borrowed exactly if it has this very shape.
      ensures var n := if enc then req.cryptlen else req.cryptlen - 16;
              Borrows(req, enc) <==>
                && inPlace && !privateSha1 && req.src == req.dst && !req.chained && req.assoc.len == 8
                && req.src.len >= n + 16 && req.skb != null && req.skb.linear && !req.skb.cloned
                && req.skb.users == 1 && req.dataOffset <= req.skb.len && req.skb.len - req.dataOffset == n + 40
                && req.assoc.mem == req.src.mem == req.iv.mem == req.skb.mem && req.assoc.at == req.dataOffset
                && req.src.at == req.dataOffset + 24 && req.iv.at == req.dataOffset + 8
      ensures j == null ==> liveJobs == old(liveJobs) && liveSkbs == old(liveSkbs)
      ensures j != null ==>
        && fresh(j) && Made(j, req, enc)
        && j.borrowed == Borrows(req, enc)
        && (j.borrowed ==> j.savedLen == req.skb.len) && (!j.borrowed ==> fresh(j.skb) && fresh(j.esp))
        && liveJobs - {j} == old(liveJobs) && liveSkbs - (if j.borrowed then {} else {j.skb}) == old(liveSkbs)
        && liveJobs == old(liveJobs) + {j} && liveSkbs == old(liveSkbs) + (if j.borrowed then {} else {j.skb})
    {
      if Borrows(req, enc) {
        j := BorrowPacket(req, enc);
      } else {
        if !fate.skb {
          return null;
        }
        j := CopyPacket(req, enc);
        liveSkbs := liveSkbs + {j.skb};
      }
      liveJobs := liveJobs + {j};
    }

    /** What opening the request's packet should give. */
    ghost function Opens(req: Request): Opened
      requires req.assoc.Within() && req.iv.Within() && req.src.Within()
      requires 8 <= req.assoc.len && req.iv.len == 16 && req.cryptlen <= req.src.len
      reads req.assoc.mem, req.iv.mem, req.src.mem
    {
      Open(suite, key, req.assoc.Read(8), req.iv.Read(16), req.src.Read(req.cryptlen))
    }

    /** What a request should deliver: the sealed packet, or the payload. */
    ghost function Wanted(req: Request, enc: bool, giv: Block): seq<byte>
      requires req.WellFormed(enc) && !req.Invalid(enc)
      reads req.assoc.mem, req.iv.mem, req.src.mem
    {
      var p := req.src.Read(req.Plen(enc));
      if enc then Seal(suite, key, req.assoc.Read(8), giv, p) else CbcDec(suite.cipher, key, req.iv.Read(16), p)
    }

    /** The code a request should give. */
    ghost function CodeOf(req: Request, enc: bool, fate: Fate, reply: Reply, hash: Option<nat>): Code
      requires req.WellFormed(enc) && !req.Invalid(enc)
      reads req.assoc.mem, req.iv.mem, req.src.mem
    {
      SubmitCode(enc, fate, enc || Opens(req) != Rejected, hash,
                 TagRight(req.assoc.Read(8), req.src.Read(req.Plen(enc)), reply))
    }

    lemma TagOfPacket(req: Request, j: Job)
      requires req.WellFormed(false) && !req.Invalid(false) && Made(j, req, false)
      ensures req.src.Read(req.cryptlen)[j.plen..] == j.tag0
      ensures Opens(req) == (if Authentic(j) then Plain(CbcDec(suite.cipher, key, j.iv0, j.input)) else Rejected)
    {
      var s := req.src.Read(req.cryptlen);
      assert s[..j.plen] == j.input && s[j.plen..] == j.tag0;
    }

    /** A made job goes through verification and the hardware. */
    method Proceed(j: Job, fate: Fate, reply: Reply, hash: Option<nat>) returns (r: Code)
      requires j.Posed() && Owns(j) && j.Part(0, 8) == j.header && j.Part(24, j.plen) == j.input
      requires j.iv0 == j.outer.iv.Read(16)
      requires !j.encrypt ==>
        |j.tag0| == 16 && j.tag0 == j.outer.src.mem[..][j.outer.src.at + j.plen..j.outer.src.at + j.plen + 16]
      requires j.borrowed ==>
        && !privateSha1 && j.savedLen == j.skb.len && 4 <= j.skb.len
        && (!j.encrypt ==> j.Part(24 + j.plen, 16) == j.tag0)
      modifies this, j.skb, j.esp, j.outer.dst.mem, j.outer.iv.mem
      ensures r != EINPROGRESS ==>
        && liveJobs == old(liveJobs) - {j} && liveSkbs == old(liveSkbs) - (if j.borrowed then {} else {j.skb})
        && (j.borrowed ==> j.skb.len == j.savedLen)
      ensures r == Success ==>
        && Authentic(j)
        && Delivered(j.outer, j.encrypt, old(j.outer.dst.mem[..]), old(j.outer.iv.mem[..]),
                     j.outer.dst.mem[..], j.outer.iv.mem[..], reply.giv, Result(j, reply))
      ensures r == SubmitCode(j.encrypt, fate, Authentic(j), hash, TagRight(j.header, j.input, reply))
      ensures r != Success && !j.borrowed ==>
        j.outer.dst.mem[..] == old(j.outer.dst.mem[..]) && j.outer.iv.mem[..] == old(j.outer.iv.mem[..])
      ensures r != Success && j.borrowed ==> OnlyChanged(old(j.esp[..]), j.esp[..], Room(j).0, Room(j).1)
      ensures !Authentic(j) ==>
        j.outer.dst.mem[..] == old(j.outer.dst.mem[..]) && j.outer.iv.mem[..] == old(j.outer.iv.mem[..])
      ensures r == EINPROGRESS ==>
        && Pending(j) && liveJobs == old(liveJobs) && liveSkbs == old(liveSkbs)
        && j.outer.dst.mem[..] == old(j.outer.dst.mem[..]) && j.outer.iv.mem[..] == old(j.outer.iv.mem[..])
    {
      if !j.encrypt {
        r := Verify(j, fate);
        if r != Success {
          Release(j, r);
          return r;
        }
      }
      if j.borrowed {
        j.skb.len := j.savedLen - 4;
      }
      if fate.hardware == EINPROGRESS {
        return EINPROGRESS;
      }
      r := Complete(j, if fate.hardware == EBUSY then ENOBUFS else fate.hardware, reply, hash);
    }

    /** A made job carried out: what that means for the request. */
    method CarryOut(req: Request, enc: bool, job: Job, fate: Fate, reply: Reply, hash: Option<nat>) returns (r: Code)
      requires req.WellFormed(enc) && !req.Invalid(enc) && Made(job, req, enc) && Owns(job)
      requires job.borrowed ==> !privateSha1 && req.Borrowable(enc) && job.savedLen == req.skb.len
      modifies this, job.skb, job.esp, req.dst.mem, req.iv.mem
      ensures r != EINPROGRESS ==>
        && liveJobs == old(liveJobs) - {job} && liveSkbs == old(liveSkbs) - (if job.borrowed then {} else {job.skb})
        && (job.borrowed ==> job.skb.len == job.savedLen)
      ensures r == Success ==>
        && Delivered(req, enc, old(req.dst.mem[..]), old(req.iv.mem[..]), req.dst.mem[..], req.iv.mem[..], reply.giv,
                     old(Wanted(req, enc, reply.giv)))
        && (!enc ==> old(Opens(req)) == Plain(old(Wanted(req, enc, reply.giv))))
      ensures r == old(CodeOf(req, enc, fate, reply, hash))
      ensures r != Success && !job.borrowed ==>
        req.dst.mem[..] == old(req.dst.mem[..]) && req.iv.mem[..] == old(req.iv.mem[..])
      ensures r != Success && job.borrowed ==>
        OnlyChanged(old(req.dst.mem[..]), req.dst.mem[..], Touchable(req, enc).0, Touchable(req, enc).1)
      ensures !enc && old(Opens(req)) == Rejected ==>
        && req.dst.mem[..] == old(req.dst.mem[..]) && req.iv.mem[..] == old(req.iv.mem[..])
      ensures r == EINPROGRESS ==>
        && Pending(job) && liveJobs == old(liveJobs) && liveSkbs == old(liveSkbs)
        && req.dst.mem[..] == old(req.dst.mem[..]) && req.iv.mem[..] == old(req.iv.mem[..])
    {
      if !enc {
        TagOfPacket(req, job);
      }
      r := Proceed(job, fate, reply, hash);
    }

    /** A valid request for which there is a job: prepared, verified and handed to the hardware. */
    method SubmitWhole(req: Request, enc: bool, fate: Fate, reply: Reply, hash: Option<nat>) returns (r: Code, j: Job?)
      requires req.WellFormed(enc) && !req.Invalid(enc)
      modifies this, req.skb, req.dst.mem, req.iv.mem
      ensures r == EINPROGRESS <==> j != null
      // The code is the same function of the surroundings and the packet, borrowed or copied.
      ensures (fate.skb || old(Borrows(req, enc))) ==>
        r == old(CodeOf(req, enc, fate, reply, hash))
      ensures !fate.skb && !old(Borrows(req, enc)) ==> r == ENOMEM
      // Answered now: nothing is kept, the packet has its length, and success means delivery.
      ensures r != EINPROGRESS ==> liveJobs == old(liveJobs) && liveSkbs == old(liveSkbs)
      ensures r != EINPROGRESS && req.skb != null ==> req.skb.len == old(req.skb.len)
      ensures r == Success ==>
        && Delivered(req, enc, old(req.dst.mem[..]), old(req.iv.mem[..]), req.dst.mem[..], req.iv.mem[..], reply.giv,
                     old(Wanted(req, enc, reply.giv)))
        && (!enc ==> old(Opens(req)) == Plain(old(Wanted(req, enc, reply.giv))))
      ensures r != Success && !old(Borrows(req, enc)) ==>
        req.dst.mem[..] == old(req.dst.mem[..]) && req.iv.mem[..] == old(req.iv.mem[..])
      ensures r != Success && old(Borrows(req, enc)) ==>
        OnlyChanged(old(req.dst.mem[..]), req.dst.mem[..], Touchable(req, enc).0, Touchable(req, enc).1)
      ensures !enc && old(Opens(req)) == Rejected ==>
        && req.dst.mem[..] == old(req.dst.mem[..]) && req.iv.mem[..] == old(req.iv.mem[..])
      // Left with the hardware: nothing of the caller's has changed yet.
      ensures r == EINPROGRESS ==>
        && fresh(j) && Pending(j) && j.outer == req && j.encrypt == enc
        && j.borrowed == old(Borrows(req, enc))
        && req.dst.mem[..] == old(req.dst.mem[..]) && req.iv.mem[..] == old(req.iv.mem[..])
        && j.header == old(req.assoc.Read(8)) && j.iv0 == old(req.iv.Read(16))
        && j.input == old(req.src.Read(req.Plen(enc)))
        && liveJobs == old(liveJobs) + {j} && liveSkbs == old(liveSkbs) + (if j.borrowed then {} else {j.skb})
    {
      j := null;
      var job := Prepare(req, enc, fate);
      if job == null {
        return ENOMEM, null;
      }
      r := CarryOut(req, enc, job, fate, reply, hash);
      j := if r == EINPROGRESS then job else null;
    }

    /** hybrid_submit. A sealing or opening that succeeds has the same effect on the caller's memory
        whether the packet was borrowed or copied; a packet whose tag is wrong never reaches the
        hardware and is left exactly as it came. */
    method HybridSubmit(req: Request, enc: bool, fate: Fate, reply: Reply, hash: Option<nat>) returns (r: Code, j: Job?)
      requires req.WellFormed(enc)
      modifies this, req.skb, req.dst.mem, req.iv.mem
      ensures req.Invalid(enc) ==> r == EINVAL
      ensures !req.Invalid(enc) && !fate.job ==> r == ENOMEM
      ensures r == EINPROGRESS <==> j != null
      // The code is the same function of the surroundings and the packet, borrowed or copied.
      ensures !req.Invalid(enc) && fate.job && (fate.skb || old(Borrows(req, enc))) ==>
        r == old(CodeOf(req, enc, fate, reply, hash))
      ensures !req.Invalid(enc) && fate.job && !fate.skb && !old(Borrows(req, enc)) ==> r == ENOMEM
      // Answered now: nothing is kept, the packet has its length, and success means delivery.
      ensures r != EINPROGRESS ==> liveJobs == old(liveJobs) && liveSkbs == old(liveSkbs)
      ensures r != EINPROGRESS && req.skb != null ==> req.skb.len == old(req.skb.len)
      ensures r == Success ==>
        && !req.Invalid(enc)
        && Delivered(req, enc, old(req.dst.mem[..]), old(req.iv.mem[..]), req.dst.mem[..], req.iv.mem[..], reply.giv,
                     old(Wanted(req, enc, reply.giv)))
        && (!enc ==> old(Opens(req)) == Plain(old(Wanted(req, enc, reply.giv))))
      ensures r != Success && !old(Borrows(req, enc)) ==>
        req.dst.mem[..] == old(req.dst.mem[..]) && req.iv.mem[..] == old(req.iv.mem[..])
      ensures r != Success && !req.Invalid(enc) && old(Borrows(req, enc)) ==>
        OnlyChanged(old(req.dst.mem[..]), req.dst.mem[..], Touchable(req, enc).0, Touchable(req, enc).1)
      ensures !enc && !req.Invalid(enc) && old(Opens(req)) == Rejected ==>
        && req.dst.mem[..] == old(req.dst.mem[..]) && req.iv.mem[..] == old(req.iv.mem[..])
      // Jobs the hardware already has in other memory stay as they are.
      ensures forall k <- old(liveJobs)
        | old(Pending(k)) && k.skb != req.skb && k.esp !in {req.dst.mem, req.iv.mem} :: Pending(k)
      // Left with the hardware: nothing of the caller's has changed yet.
      ensures r == EINPROGRESS ==>
        && fresh(j) && Pending(j) && j.outer == req && j.encrypt == enc
        && j.borrowed == old(Borrows(req, enc))
        && req.dst.mem[..] == old(req.dst.mem[..]) && req.iv.mem[..] == old(req.iv.mem[..])
        && j.header == old(req.assoc.Read(8)) && j.iv0 == old(req.iv.Read(16))
        && j.input == old(req.src.Read(req.Plen(enc)))
        && liveJobs == old(liveJobs) + {j} && liveSkbs == old(liveSkbs) + (if j.borrowed then {} else {j.skb})
    {
      j := null;
      if req.Invalid(enc) {
        return EINVAL, null;
      }
      if !fate.job {
        return ENOMEM, null;
      }
      r, j := SubmitWhole(req, enc, fate, reply, hash);
    }

    // ------------------------------------------------------------ the two operations, byte by byte

    /** What the two operations need to know of a submission. */
    method Submitted(req: Request, enc: bool, fate: Fate, reply: Reply, hash: Option<nat>) returns (r: Code, j: Job?)
      requires req.WellFormed(enc)
      modifies this, req.skb, req.dst.mem, req.iv.mem
      ensures r == if req.Invalid(enc) then EINVAL
                   else if !fate.job || (!fate.skb && !old(Borrows(req, enc))) then ENOMEM
                   else old(CodeOf(req, enc, fate, reply, hash))
      ensures r == Success ==>
        && !req.Invalid(enc)
        && Delivered(req, enc, old(req.dst.mem[..]), old(req.iv.mem[..]), req.dst.mem[..], req.iv.mem[..], reply.giv,
                     old(Wanted(req, enc, reply.giv)))
      ensures r == EINPROGRESS ==>
        && !req.Invalid(enc) && j != null && j.Posed() && Loaded(j) && j.encrypt == enc && j.plen == req.Plen(enc)
        && j.header == old(req.assoc.Read(8)) && j.iv0 == old(req.iv.Read(16))
        && j.input == old(req.src.Read(req.Plen(enc)))
    {
      r, j := HybridSubmit(req, enc, fate, reply, hash);
    }

    method EncSubmitted(req: Request, fate: Fate, reply: Reply, hash: Option<nat>) returns (r: Code, j: Job?)
      requires req.WellFormed(true)
      modifies this, req.skb, req.dst.mem, req.iv.mem
      ensures var n, h := req.cryptlen, old(req.assoc.Read(8));
              var ct := CbcEnc(suite.cipher, key, reply.giv, old(req.src.Read(n)));
              r == if req.authsize != 16 || req.assoclen != 8 || n == 0 || n % 16 != 0 || n > 16000 then EINVAL
                   else if !fate.job || (!fate.skb && !old(Borrows(req, true))) then ENOMEM
                   else if fate.hardware == EBUSY then ENOBUFS
                   else if fate.hardware != Success then fate.hardware
                   else if hash.Some? then Failed(hash.value)
                   else if privateSha1 || reply.tag == suite.sha256(h + reply.giv + ct)[..12] then Success
                   else EBADMSG
      ensures r == Success ==>
        && Blocks(req.cryptlen)
        && Delivered(req, true, old(req.dst.mem[..]), old(req.iv.mem[..]), req.dst.mem[..], req.iv.mem[..], reply.giv,
                     Seal(suite, key, old(req.assoc.Read(8)), reply.giv, old(req.src.Read(req.cryptlen))))
      ensures r == EINPROGRESS ==>
        && j != null && j.at + 36 + req.cryptlen <= j.esp.Length
        && j.esp[..][j.at..j.at + 8] == old(req.assoc.Read(8))
        && j.esp[..][j.at + 24..j.at + 24 + req.cryptlen] == old(req.src.Read(req.cryptlen))
    {
      if !req.Invalid(true) {
        EncCode(req, fate, reply, hash);
        BlocksIff(req.cryptlen);
      }
      r, j := Submitted(req, true, fate, reply, hash);
    }

    /** hybrid_enc: every code and every byte, in terms of the caller's memory, the surroundings and the hash. */
    method HybridEnc(req: Request, fate: Fate, reply: Reply, hash: Option<nat>) returns (r: Code, j: Job?)
      requires req.WellFormed(true)
      modifies this, req.skb, req.dst.mem, req.iv.mem
      ensures var n, h := req.cryptlen, old(req.assoc.Read(8));
              var ct := CbcEnc(suite.cipher, key, reply.giv, old(req.src.Read(n)));
              r == if req.authsize != 16 || req.assoclen != 8 || n == 0 || n % 16 != 0 || n > 16000 then EINVAL
                   else if !fate.job || (!fate.skb && !old(Borrows(req, true))) then ENOMEM
                   else if fate.hardware == EBUSY then ENOBUFS
                   else if fate.hardware != Success then fate.hardware
                   else if hash.Some? then Failed(hash.value)
                   else if privateSha1 || reply.tag == suite.sha256(h + reply.giv + ct)[..12] then Success
                   else EBADMSG
      // Success: initial value, ciphertext and the first 16 bytes of the digest.
      ensures r == Success ==>
        var n, h := req.cryptlen, old(req.assoc.Read(8));
        var m, v, d := req.dst.mem[..], req.iv.mem[..], req.dst.at;
        && m[d..d + n] == CbcEnc(suite.cipher, key, reply.giv, old(req.src.Read(n)))
        && m[d + n..d + n + 16] == suite.sha256(h + reply.giv + m[d..d + n])[..16]
        && v[req.iv.at..req.iv.at + 16] == reply.giv
      // Pending: the hardware has header and payload.
      ensures r == EINPROGRESS ==>
        && j != null && j.at + 36 + req.cryptlen <= j.esp.Length
        && j.esp[..][j.at..j.at + 8] == old(req.assoc.Read(8))
        && j.esp[..][j.at + 24..j.at + 24 + req.cryptlen] == old(req.src.Read(req.cryptlen))
    {
      ghost var m, v := req.dst.mem[..], req.iv.mem[..];
      ghost var h, p := req.assoc.Read(8), req.src.Read(req.cryptlen);
      r, j := EncSubmitted(req, fate, reply, hash);
      if r == Success {
        SealedBytes(suite, key, req, h, p, m, v, req.dst.mem[..], req.iv.mem[..], reply.giv);
      }
    }

    lemma EncCode(req: Request, fate: Fate, reply: Reply, hash: Option<nat>)
      requires req.WellFormed(true) && !req.Invalid(true)
      ensures var n, h := req.cryptlen, req.assoc.mem[..][req.assoc.at..req.assoc.at + 8];
              var ct := CbcEnc(suite.cipher, key, reply.giv, req.src.mem[..][req.src.at..req.src.at + n]);
              CodeOf(req, true, fate, reply, hash)
                == if fate.hardware == EBUSY then ENOBUFS
                   else if fate.hardware != Success then fate.hardware
                   else if hash.Some? then Failed(hash.value)
                   else if privateSha1 || reply.tag == suite.sha256(h + reply.giv + ct)[..12] then Success
                   else EBADMSG
    {
    }

    method DecSubmitted(req: Request, fate: Fate, reply: Reply, hash: Option<nat>) returns (r: Code, j: Job?)
      requires req.WellFormed(false)
      modifies this, req.skb, req.dst.mem, req.iv.mem
      ensures var n := req.cryptlen - 16;
              (req.authsize != 16 || req.assoclen != 8 || n <= 0 || n % 16 != 0 || n > 16000) ==> r == EINVAL
      ensures (req.authsize == 16 && req.assoclen == 8
               && 0 < req.cryptlen - 16 <= 16000 && (req.cryptlen - 16) % 16 == 0) ==>
        var n, h := req.cryptlen - 16, old(req.assoc.Read(8));
        var iv, s := old(req.iv.Read(16)), old(req.src.Read(req.cryptlen));
        r == if !fate.job || (!fate.skb && !old(Borrows(req, false))) then ENOMEM
             else if fate.hash.Some? then Failed(fate.hash.value)
             else if s[n..] != suite.sha256(h + iv + s[..n])[..16] then EBADMSG
             else if privateSha1 && fate.sha1.Some? then Failed(fate.sha1.value)
             else if fate.hardware == EBUSY then ENOBUFS
             else fate.hardware
      ensures r == Success ==>
        var n := req.cryptlen - 16;
        && n > 0 && Blocks(n)
        && req.dst.mem[..] == Patch(old(req.dst.mem[..]), req.dst.at,
                                    CbcDec(suite.cipher, key, old(req.iv.Read(16)), old(req.src.Read(n))))
      ensures r == EINPROGRESS ==>
        && req.cryptlen > 16 && j != null && j.Posed() && Loaded(j) && !j.encrypt && j.plen == req.cryptlen - 16
        && j.header == old(req.assoc.Read(8)) && j.iv0 == old(req.iv.Read(16))
        && j.input == old(req.src.Read(req.cryptlen - 16))
    {
      if !req.Invalid(false) {
        DecCode(req, fate, reply, hash);
        BlocksIff(req.cryptlen - 16);
      }
      r, j := Submitted(req, false, fate, reply, hash);
    }

    /** hybrid_dec likewise. The packet is authentic exactly if the 16 bytes behind the ciphertext are the first
        half of the digest of header, initial value and ciphertext. */
    method HybridDec(req: Request, fate: Fate, reply: Reply, hash: Option<nat>) returns (r: Code, j: Job?)
      requires req.WellFormed(false)
      modifies this, req.skb, req.dst.mem, req.iv.mem
      ensures var n := req.cryptlen - 16;
              (req.authsize != 16 || req.assoclen != 8 || n <= 0 || n % 16 != 0 || n > 16000) ==> r == EINVAL
      ensures (req.authsize == 16 && req.assoclen == 8
               && 0 < req.cryptlen - 16 <= 16000 && (req.cryptlen - 16) % 16 == 0) ==>
        var n, h := req.cryptlen - 16, old(req.assoc.Read(8));
        var iv, s := old(req.iv.Read(16)), old(req.src.Read(req.cryptlen));
        r == if !fate.job || (!fate.skb && !old(Borrows(req, false))) then ENOMEM
             else if fate.hash.Some? then Failed(fate.hash.value)
             else if s[n..] != suite.sha256(h + iv + s[..n])[..16] then EBADMSG
             else if privateSha1 && fate.sha1.Some? then Failed(fate.sha1.value)
             else if fate.hardware == EBUSY then ENOBUFS
             else fate.hardware
      ensures r == Success ==>
        var n := req.cryptlen - 16;
        && n > 0
        && req.dst.mem[..] == old(req.dst.mem[..])[..req.dst.at]
             + CbcDec(suite.cipher, key, old(req.iv.Read(16)), old(req.src.Read(n)))
             + old(req.dst.mem[..])[req.dst.at + n..]
      // Pending: the hardware has header, initial value, ciphertext and the short tag of its own hash.
      ensures r == EINPROGRESS ==>
        var n, h := req.cryptlen - 16, old(req.assoc.Read(8));
        var iv := old(req.iv.Read(16));
        n > 0 && j != null && FrameOf(j, h + iv + old(req.src.Read(n)))
    {
      ghost var m, h, iv := req.dst.mem[..], req.assoc.Read(8), req.iv.Read(16);
      ghost var ct := if req.cryptlen < 16 then [] else req.src.Read(req.cryptlen - 16);
      r, j := DecSubmitted(req, fate, reply, hash);
      if r == Success {
        ghost var m1 := req.dst.mem[..];
        OpenedBytes(suite, key, req, iv, ct, m, m1);
      } else if r == EINPROGRESS {
        Framed(j, h + iv + ct);
      }
    }

    lemma DecCode(req: Request, fate: Fate, reply: Reply, hash: Option<nat>)
      requires req.WellFormed(false) && !req.Invalid(false)
      ensures var n, h := req.cryptlen - 16, req.assoc.mem[..][req.assoc.at..req.assoc.at + 8];
              var iv := req.iv.mem[..][req.iv.at..req.iv.at + 16];
              var s := req.src.mem[..][req.src.at..req.src.at + req.cryptlen];
              CodeOf(req, false, fate, reply, hash)
                == if fate.hash.Some? then Failed(fate.hash.value)
                   else if s[n..] != suite.sha256(h + iv + s[..n])[..16] then EBADMSG
                   else if privateSha1 && fate.sha1.Some? then Failed(fate.sha1.value)
                   else if fate.hardware == EBUSY then ENOBUFS
                   else fate.hardware
    {
      var s := req.src.Read(req.cryptlen);
      OpenBytes(suite, key, req.assoc.Read(8), req.iv.Read(16), s);
    }

    /** The job's packet starts with this frame, and the first 12 bytes of its hash are behind it. */
    ghost predicate FrameOf(j: Job, frame: seq<byte>)
      reads j.esp
    {
      var e, n := j.esp[..], |frame|;
      && j.at + n + 12 <= |e| && e[j.at..j.at + n] == frame
      && e[j.at + n..j.at + n + 12] == (if privateSha1 then suite.sha1(frame) else suite.sha256(frame))[..12]
    }

    lemma Framed(j: Job, frame: seq<byte>)
      requires j.Posed() && Loaded(j) && !j.encrypt && frame == j.header + j.iv0 + j.input
      ensures FrameOf(j, frame)
    {
      Adjacent(j.esp[..], j.at, j.at + 8, j.at + 24);
      Adjacent(j.esp[..], j.at, j.at + 24, j.at + 24 + j.plen);
    }
  }

  /** A successful sealing leaves a packet that opens to what was sealed, for whoever opens it. */
  method SealForOpening(hybrid: Hybrid, sealing: Request, opening: Request, fate: Fate, reply: Reply, hash: Option<nat>)
      returns (r: Code)
    requires sealing.WellFormed(true) && opening.WellFormed(false) && Matches(sealing, opening)
    requires hybrid.suite.cipher.Invertible()
    modifies hybrid, sealing.skb, sealing.dst.mem, sealing.iv.mem
    ensures r == Success ==> !sealing.Invalid(true)
    ensures r == Success ==> hybrid.Opens(opening) == Plain(old(sealing.src.Read(sealing.cryptlen)))
  {
    ghost var m, v, hm := sealing.dst.mem[..], sealing.iv.mem[..], sealing.assoc.mem[..];
    ghost var p, h := sealing.src.Read(sealing.cryptlen), sealing.assoc.Read(8);
    r := SealPacket(hybrid, sealing, fate, reply, hash);
    if r == Success {
      BlocksIff(|p|);
      SealedOpens(hybrid, sealing, opening, m, v, hm, reply.giv, h, p);
    }
  }

  /** The same of the requests as they lie in memory. */
  lemma SealedOpens(hybrid: Hybrid, sealing: Request, opening: Request, m: seq<byte>, v: seq<byte>, hm: seq<byte>,
                    giv: Block, h: Header, p: seq<byte>)
    requires opening.WellFormed(false) && Matches(sealing, opening) && hybrid.suite.cipher.Invertible()
    requires sealing.cryptlen == |p| && Blocks(|p|)
    requires Layout(sealing, |p| + 16, m, v, sealing.dst.mem[..], sealing.iv.mem[..])
    requires HeaderIn(sealing, |p| + 16, m, v, hm, sealing.dst.mem[..], sealing.iv.mem[..], sealing.assoc.mem[..])
    requires hm[sealing.assoc.at..sealing.assoc.at + 8] == h
    requires Delivered(sealing, true, m, v, sealing.dst.mem[..], sealing.iv.mem[..], giv,
                       Seal(hybrid.suite, hybrid.key, h, giv, p))
    ensures hybrid.Opens(opening) == Plain(p)
  {
    OpensAfterSealing(hybrid.suite, hybrid.key, sealing, opening, m, v, hm,
                      sealing.dst.mem[..], sealing.iv.mem[..], sealing.assoc.mem[..], giv, h, p);
  }

  method SealPacket(hybrid: Hybrid, req: Request, fate: Fate, reply: Reply, hash: Option<nat>) returns (r: Code)
    requires req.WellFormed(true)
    modifies hybrid, req.skb, req.dst.mem, req.iv.mem
    ensures r == Success ==> !req.Invalid(true)
    ensures r == Success ==>
      && Layout(req, req.cryptlen + 16, old(req.dst.mem[..]), old(req.iv.mem[..]), req.dst.mem[..], req.iv.mem[..])
      && HeaderIn(req, req.cryptlen + 16, old(req.dst.mem[..]), old(req.iv.mem[..]), old(req.assoc.mem[..]),
                  req.dst.mem[..], req.iv.mem[..], req.assoc.mem[..])
    ensures r == Success ==>
      Delivered(req, true, old(req.dst.mem[..]), old(req.iv.mem[..]), req.dst.mem[..], req.iv.mem[..], reply.giv,
                Seal(hybrid.suite, hybrid.key, old(req.assoc.Read(8)), reply.giv, old(req.src.Read(req.cryptlen))))
  {
    ghost var job;
    r, job := hybrid.HybridSubmit(req, true, fate, reply, hash);
  }

  /** Two calls on one packet. What the first sealed the second opens, each in place or by copy: it gives
      the code of any authentic packet, and on success the payload. */
  method SealThenOpen(hybrid: Hybrid, sealing: Request, opening: Request, fate: Fate, reply: Reply, hash: Option<nat>,
                      fate': Fate, reply': Reply, hash': Option<nat>) returns (r: Code, r': Code)
    requires sealing.WellFormed(true) && opening.WellFormed(false) && Matches(sealing, opening)
    requires hybrid.suite.cipher.Invertible() && opening.authsize == sealing.authsize
    requires opening.assoclen == sealing.assoclen
    modifies hybrid, sealing.skb, sealing.dst.mem, sealing.iv.mem, opening.skb, opening.dst.mem, opening.iv.mem
    ensures r != Success ==> r' == r
    ensures r == Success && fate'.job && fate'.skb
        ==> r' == hybrid.SubmitCode(false, fate', true, hash', true)
    ensures r == Success && r' == Success
        ==> opening.dst.Read(sealing.cryptlen) == old(sealing.src.Read(sealing.cryptlen))
  {
    ghost var p := sealing.src.Read(sealing.cryptlen);
    r := SealForOpening(hybrid, sealing, opening, fate, reply, hash);
    if r != Success {
      return r, r;
    }
    r' := OpenPacket(hybrid, opening, fate', reply', hash', p);
  }

  method OpenPacket(hybrid: Hybrid, opening: Request, fate: Fate, reply: Reply, hash: Option<nat>, ghost p: seq<byte>)
      returns (r: Code)
    requires opening.WellFormed(false) && !opening.Invalid(false) && hybrid.Opens(opening) == Plain(p)
    requires |p| == opening.Plen(false)
    modifies hybrid, opening.skb, opening.dst.mem, opening.iv.mem
    ensures fate.job && fate.skb ==> r == hybrid.SubmitCode(false, fate, true, hash, true)
    ensures r == Success ==> opening.dst.Read(|p|) == p
  {
    ghost var d, job := opening.dst.mem[..], null;
    r, job := hybrid.HybridSubmit(opening, false, fate, reply, hash);
    if r == Success {
      PatchWhole(d, opening.dst.at, p);
    }
  }
}
