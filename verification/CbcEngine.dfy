/** The chunked CBC provider of experiments/spu-cbc/spu_cbc_lab.c: one transform context, the jobs
    it hands to the hardware engine, and the completion callback that submits further chunks. */
module CbcEngine {
  import opened Wrappers
  import opened Bytes
  import opened CbcSpec
  import opened CbcFrame

  datatype Code =
    | Success | EINPROGRESS | EBUSY | ENOBUFS | ENOMEM | ENOKEY | EINVAL
    | Failed(errno: nat)

  /** What the surroundings do to one chunk: is there memory for its frame, does the framing hash
      fail, and what does the hardware request return. EINPROGRESS means: accepted, answer later. */
  datatype Outcome = Outcome(skb: bool, hmac: Option<nat>, hardware: Code)

  const MAX_CHUNK: nat := 16000

  // ------------------------------------------------------------ the course of a request

  /** The code of the hardware's answer. */
  function HardwareCode(hardware: Code): Code {
    if hardware == EBUSY then ENOBUFS else hardware
  }

  /** The code of building a frame: one block is sent without a framing hash. */
  function FrameCode(native: bool, encrypt: bool, hmac: Option<nat>): Code {
    if (native || !encrypt) && hmac.Some? then Failed(hmac.value) else Success
  }

  /** The code of the `t`-th chunk submission. */
  function CodeAt(native: bool, world: nat -> Outcome, encrypt: bool, t: nat): Code {
    var o := world(t);
    if !o.skb then ENOMEM
    else if FrameCode(native, encrypt, o.hmac) != Success then FrameCode(native, encrypt, o.hmac)
    else HardwareCode(o.hardware)
  }

  /** One block for mode-2 encryption, otherwise as much as the engine takes. */
  function NextChunk(native: bool, encrypt: bool, rest: nat): nat {
    if encrypt && !native then 16 else if MAX_CHUNK < rest then MAX_CHUNK else rest
  }

  /** How far a request has come: its code if it is over (EINPROGRESS if a chunk is with the hardware), the
      bytes done, and the number of the next chunk submission. */
  datatype Course = Course(code: Code, offset: nat, tick: nat)

  /** From `at` on, submitting chunk after chunk: the first one that does not succeed at once decides. */
  function Going(native: bool, world: nat -> Outcome, encrypt: bool, n: nat, at: nat, t: nat): Course
    decreases if at < n then n - at else 0
  {
    if n <= at then Course(Success, at, t)
    else
      var code := CodeAt(native, world, encrypt, t);
      if code != Success then Course(code, at, t + 1)
      else Going(native, world, encrypt, n, at + NextChunk(native, encrypt, n - at), t + 1)
  }

  lemma GoingStep(native: bool, world: nat -> Outcome, encrypt: bool, n: nat, at: nat, t: nat)
    requires at < n
    ensures Going(native, world, encrypt, n, at, t)
         == GoingOn(native, world, encrypt, n, at, t + 1, CodeAt(native, world, encrypt, t))
  {
  }

  /** The same when the chunk at `at` has just ended with `err`. */
  function GoingOn(native: bool, world: nat -> Outcome, encrypt: bool, n: nat, at: nat, t: nat, err: Code): Course
    requires at < n
  {
    if err != Success then Course(err, at, t)
    else Going(native, world, encrypt, n, at + NextChunk(native, encrypt, n - at), t)
  }

  /** A caller's request. Source and destination are the same object for in-place work. */
  class Request {
    const src: array<byte>
    const dst: array<byte>
    const info: array<byte>
    const nbytes: nat

    constructor (src: array<byte>, dst: array<byte>, info: array<byte>, nbytes: nat)
      ensures this.src == src && this.dst == dst && this.info == info && this.nbytes == nbytes
    {
      this.src, this.dst, this.info, this.nbytes := src, dst, info, nbytes;
    }

    ghost predicate WellFormed() {
      nbytes <= src.Length && nbytes <= dst.Length && info.Length == 16 && info != src && info != dst
    }
  }

  class Job {
    const outer: Request
    const encrypt: bool
    var skb: array?<byte>
    var offset: nat
    var chunk: nat
    var chain: Block
    var nextIv: Block
    ghost const id: nat
    ghost const work: Work        // the request as it was when it was accepted
    ghost const dst0: seq<byte>   // the destination as it was then
    ghost const out: seq<byte>    // the CBC result it asks for
    ghost const cts: seq<byte>    // its ciphertext side

    constructor (outer: Request, encrypt: bool, ghost id: nat, ghost key: Key, ghost cipher: Cipher)
      requires outer.WellFormed() && Blocks(outer.nbytes) && 0 < outer.nbytes
      ensures this.outer == outer && this.encrypt == encrypt && this.id == id
      ensures offset == 0 && skb == null && chain == outer.info[..]
      ensures work == Work(encrypt, key, outer.info[..], outer.src[..outer.nbytes]) && dst0 == outer.dst[..]
      ensures Posed(cipher)
    {
      this.outer, this.encrypt, this.skb := outer, encrypt, null;
      this.offset, this.chunk := 0, 0;
      this.chain, this.nextIv := outer.info[..], ZEROS;
      this.id := id;
      ghost var w := Work(encrypt, key, outer.info[..], outer.src[..outer.nbytes]);
      this.work, this.dst0 := w, outer.dst[..];
      this.out, this.cts := Output(cipher, w), Ciphertext(cipher, w);
      OutputLength(cipher, w);
    }

    /** What the job is for; fixed for its whole life. */
    ghost predicate Posed(cipher: Cipher) {
      && outer.WellFormed() && Blocks(outer.nbytes) && 0 < outer.nbytes
      && out == Output(cipher, work) && cts == Ciphertext(cipher, work)
      && |work.input| == |out| == |cts| == outer.nbytes && |dst0| == outer.dst.Length
      && work.encrypt == encrypt
    }

    ghost function ChainAfter(n: nat): Block
      requires n <= |cts|
    {
      LastBlock(work.iv, cts[..n])
    }
  }

  /** The answer to one accepted request, with the caller's memory at the moment it was given. */
  datatype Answer = Answer(byCallback: bool, code: Code, work: Work, dst0: seq<byte>,
                           dst: seq<byte>, info: seq<byte>, done: nat)

  /** Success means the whole CBC result and its last ciphertext block; failure means the correct
      result on the first `done` bytes, nothing beyond them, and an untouched initial value. */
  ghost predicate Truthful(c: Cipher, a: Answer) {
    var n, out := |a.work.input|, Output(c, a.work);
    && a.code != EINPROGRESS
    && |out| == n <= |a.dst0|
    && Blocks(n) && Blocks(a.done)
    && (if a.code == Success then
          && a.done == n
          && a.dst == out + a.dst0[n..]
          && a.info == LastBlock(a.work.iv, Ciphertext(c, a.work))
        else
          && a.done < n
          && a.dst == out[..a.done] + a.dst0[a.done..]
          && a.info == a.work.iv)
  }

  /** The answer of a job: what is written is the result, as far as the job got. */
  lemma AnswerIsTrue(c: Cipher, a: Answer, out: seq<byte>, cts: seq<byte>)
    requires out == Output(c, a.work) && cts == Ciphertext(c, a.work)
    requires |a.work.input| == |out| == |cts| <= |a.dst0| && a.code != EINPROGRESS
    requires Blocks(|out|) && Blocks(a.done) && a.done <= |out| && (a.code == Success <==> a.done == |out|)
    requires Mixed(a.dst, out, a.dst0, a.done)
    requires a.info == if a.code == Success then LastBlock(a.work.iv, cts[..a.done]) else a.work.iv
    ensures Truthful(c, a)
  {
    assert a.done == |out| ==> out[..a.done] == out && cts[..a.done] == cts;
  }

  /** Every accepted request except the open one has exactly one answer, and that one is true. */
  ghost predicate AccountedFor(c: Cipher, nextId: nat, answers: map<nat, Answer>, deferred: set<nat>,
                               open: Option<nat>) {
    && (open.Some? ==> open.value < nextId)
    && (forall id: nat :: id in answers <==> id < nextId && open != Some(id))
    && (forall id <- answers :: Truthful(c, answers[id]))
    && (forall id <- answers :: answers[id].byCallback == (id in deferred))
    && (forall id <- deferred :: id < nextId)
  }

  lemma AccountedOpens(c: Cipher, nextId: nat, answers: map<nat, Answer>, deferred: set<nat>)
    requires AccountedFor(c, nextId, answers, deferred, None)
    ensures AccountedFor(c, nextId + 1, answers, deferred, Some(nextId))
  {
  }

  lemma AccountedDefers(c: Cipher, nextId: nat, answers: map<nat, Answer>, deferred: set<nat>, id: nat)
    requires AccountedFor(c, nextId, answers, deferred, Some(id))
    ensures AccountedFor(c, nextId, answers, deferred + {id}, Some(id))
  {
  }

  lemma AccountedCloses(c: Cipher, nextId: nat, answers: map<nat, Answer>, deferred: set<nat>, id: nat, a: Answer)
    requires AccountedFor(c, nextId, answers, deferred, Some(id))
    requires Truthful(c, a) && a.byCallback == (id in deferred)
    ensures id !in answers && AccountedFor(c, nextId, answers[id := a], deferred, None)
  {
  }

  method WriteBytes(data: seq<byte>, dst: array<byte>, to: nat)
    requires to + |data| <= dst.Length
    modifies dst
    ensures dst[..] == old(dst[..])[..to] + data + old(dst[..])[to + |data|..]
  {
    forall i | 0 <= i < |data| {
      dst[to + i] := data[i];
    }
  }

  /** `d` holds `out` up to `n` and `rest` from there on. */
  ghost predicate Mixed(d: seq<byte>, out: seq<byte>, rest: seq<byte>, n: nat) {
    n <= |out| <= |rest| && d == out[..n] + rest[n..]
  }

  lemma MixedStep(d: seq<byte>, d': seq<byte>, out: seq<byte>, rest: seq<byte>, n: nat, data: seq<byte>)
    requires Mixed(d, out, rest, n) && n + |data| <= |out| && data == out[n..n + |data|]
    requires d' == d[..n] + data + d[n + |data|..]
    ensures Mixed(d', out, rest, n + |data|)
  {
    var m := n + |data|;
    assert out[..m] == out[..n] + out[n..m];
    assert d[m..] == rest[m..];
  }

  class CbcContext {
    const device: Device
    const world: nat -> Outcome        // outcome of the n-th chunk submission
    var tick: nat
    var busy: bool
    var keyed: bool
    var encKey: Option<Key>            // runner[0]
    var decKey: Option<Key>            // runner[1]
    var padKey: Option<Key>            // pad_aes
    var inFlight: Job?                 // the job whose chunk the hardware holds
    ghost var liveJobs: set<Job>
    ghost var liveSkbs: set<array<byte>>
    ghost var answers: map<nat, Answer>
    ghost var nextId: nat
    ghost var deferred: set<nat>       // requests whose submission returned EINPROGRESS
    ghost var foot: set<object>        // the context and the memory of the open request

    constructor (device: Device, world: nat -> Outcome)
      requires device.cipher.Invertible()
      ensures Valid() && this.device == device && !busy && !keyed
      ensures nextId == 0 && answers == map[] && deferred == {} && inFlight == null && foot == {this}
    {
      this.device, this.world := device, world;
      tick, busy, keyed := 0, false, false;
      encKey, decKey, padKey := None, None, None;
      liveJobs, liveSkbs, inFlight := {}, {}, null;
      answers, nextId, deferred, foot := map[], 0, {}, {this};
    }

    // ------------------------------------------------------------ invariants

    /** What a job and its request occupy. */
    ghost function Memory(j: Job): set<object>
      reads j`skb
    {
      {j, j.outer.src, j.outer.dst, j.outer.info} + if j.skb == null then {} else {j.skb}
    }

    ghost predicate OneKey(k: Key)
      reads `keyed, `encKey, `decKey, `padKey
    {
      keyed && encKey == decKey == padKey == Some(k)
    }

    /** Everything already written is the CBC result, everything else is as the caller left it. */
    ghost predicate Progress(j: Job)
      reads j`offset, j`chain, j.outer.src, j.outer.dst, j.outer.info
    {
      var r := j.outer;
      && j.Posed(device.cipher)
      && Blocks(j.offset) && j.offset <= r.nbytes
      && j.chain == j.ChainAfter(j.offset)
      && r.info[..] == j.work.iv
      && Unconsumed(j, j.offset)
    }

    ghost predicate NextIvSaved(j: Job)
      requires j.Posed(device.cipher)
      reads j`nextIv, j`chunk, j`offset
    {
      device.native && !j.encrypt && 16 <= j.chunk && j.offset + j.chunk <= j.outer.nbytes
      ==> j.nextIv == j.work.input[j.offset + j.chunk - 16..j.offset + j.chunk]
    }

    /** The job's frame is its own memory, of the size the current chunk asks for. */
    ghost predicate FrameSized(j: Job)
      reads j`skb, j`chunk, j`offset
    {
      && j.skb != null && j.skb !in {j.outer.src, j.outer.dst, j.outer.info}
      && 16 <= j.chunk && Blocks(j.chunk) && j.offset + j.chunk <= j.outer.nbytes
      && Blocks(j.offset + j.chunk)
      && j.chunk == NextChunk(device.native, j.encrypt, j.outer.nbytes - j.offset)
      && j.skb.Length == BodyBytes(device, j.chunk) + TAG
    }

    /** The hardware holds, or is about to get, exactly the frame for the current chunk. */
    ghost predicate Sent(j: Job)
      requires j.Posed(device.cipher)
      reads j, j.skb
    {
      && FrameSized(j) && NextIvSaved(j)
      && j.skb[..] == ChunkFrame(j)
    }

    ghost function ChunkFrame(j: Job): seq<byte>
      requires j.Posed(device.cipher) && 16 <= j.chunk && j.offset + j.chunk <= j.outer.nbytes
      reads j`chunk, j`offset
    {
      Frame(device, j.encrypt, j.work.key, j.ChainAfter(j.offset), j.work.input[j.offset..j.offset + j.chunk])
    }

    ghost predicate Processed(j: Job)
      requires j.Posed(device.cipher)
      reads j, j.skb
    {
      && FrameSized(j) && NextIvSaved(j)
      && j.skb[HEADER..HEADER + j.chunk] == ChunkResult(device, j.work, j.out, j.offset, j.chunk)
    }

    /** Software is working on job `j`: it alone is live, with its own frame at most. */
    ghost predicate Running(j: Job)
      reads `busy, `inFlight, `liveJobs, `liveSkbs, `keyed, `encKey, `decKey, `padKey, j`skb
    {
      && busy && inFlight == null && liveJobs == {j}
      && liveSkbs == (if j.skb == null then {} else {j.skb})
      && j.skb !in {j.outer.src, j.outer.dst, j.outer.info}
      && OneKey(j.work.key)
    }

    ghost predicate Accounted(open: Option<nat>)
      reads `nextId, `answers, `deferred
    {
      AccountedFor(device.cipher, nextId, answers, deferred, open)
    }

    /** Holds between any two calls from outside. */
    ghost predicate Valid()
      reads this, foot
    {
      && this in foot && (inFlight != null ==> inFlight in foot && Memory(inFlight) <= foot)
      && device.cipher.Invertible()
      && (keyed ==> encKey.Some? && OneKey(encKey.value))
      && busy == (inFlight != null)
      && Accounted(if inFlight == null then None else Some(inFlight.id))
      && (inFlight == null ==> liveJobs == {} && liveSkbs == {})
      && (inFlight != null ==> Pending(inFlight))
    }

    ghost predicate Pending(j: Job)
      reads this, j, j.outer.src, j.outer.dst, j.outer.info, j.skb
    {
      && j.id in deferred && OneKey(j.work.key) && liveJobs == {j}
      && Progress(j) && AtHardware(j)
    }

    /** The hardware has the job, with the frame for its current chunk. */
    ghost predicate AtHardware(j: Job)
      requires j.Posed(device.cipher)
      reads `inFlight, `liveSkbs, j, j.skb
    {
      inFlight == j && j.skb != null && liveSkbs == {j.skb} && Sent(j)
    }

    // ------------------------------------------------------------ memory and hardware

    ghost method FreeSkb(skb: array?<byte>)
      requires skb != null ==> skb in liveSkbs
      modifies `liveSkbs
      ensures liveSkbs == old(liveSkbs) - (if skb == null then {} else {skb})
    {
      if skb != null {
        liveSkbs := liveSkbs - {skb};
      }
    }

    ghost method FreeJob(j: Job)
      requires j in liveJobs
      modifies `liveJobs
      ensures liveJobs == old(liveJobs) - {j}
    {
      liveJobs := liveJobs - {j};
    }

    /** The engine sees the frame and the key loaded into its own transform, nothing else. */
    method Hardware(skb: array<byte>, encrypt: bool, k: Key, chunk: nat)
      requires Blocks(chunk)
      requires Accepts(device, encrypt, k, chunk, skb[..])
      modifies skb
      ensures skb[HEADER..HEADER + chunk]
           == Ciphered(device, encrypt, k, old(skb[..])[8..24], old(skb[..])[HEADER..HEADER + chunk])
    {
      var result := Ciphered(device, encrypt, k, skb[..][8..24], skb[..][HEADER..HEADER + chunk]);
      CbcEncLength(device.cipher, k, skb[..][8..24], skb[..][HEADER..HEADER + chunk]);
      CbcDecLength(device.cipher, k, skb[..][8..24], skb[..][HEADER..HEADER + chunk]);
      EcbDecLength(device.cipher, k, skb[..][HEADER..HEADER + chunk]);
      WriteBytes(result, skb, HEADER);
      assert skb[..][HEADER..HEADER + chunk] == result;
    }

    /** A frame built for the job's chunk is accepted, and gives the chunk's part of the result. */
    lemma FrameServes(j: Job)
      requires device.cipher.Invertible() && j.Posed(device.cipher) && Sent(j) && Blocks(j.offset)
      ensures Accepts(device, j.encrypt, j.work.key, j.chunk, j.skb[..])
      ensures Ciphered(device, j.encrypt, j.work.key, j.skb[..][8..24], j.skb[..][HEADER..HEADER + j.chunk])
           == ChunkResult(device, j.work, j.out, j.offset, j.chunk)
    {
      FrameAccepted(device, j.encrypt, j.work.key, j.ChainAfter(j.offset), j.work.input[j.offset..j.offset + j.chunk]);
      FrameResult(device, j.work, j.offset, j.chunk);
    }

    method Serve(j: Job, key: Key)
      requires device.cipher.Invertible() && j.Posed(device.cipher) && Sent(j) && Blocks(j.offset)
      requires key == j.work.key
      modifies j.skb
      ensures Processed(j)
    {
      FrameServes(j);
      Hardware(j.skb, j.encrypt, key, j.chunk);
    }

    // ------------------------------------------------------------ one chunk

    method SubmitChunk(j: Job) returns (err: Code)
      requires Running(j) && Progress(j) && j.offset < j.outer.nbytes
      requires device.cipher.Invertible()
      modifies `tick, `liveSkbs, `inFlight, j`skb, j`chunk, j`nextIv
      ensures Progress(j) && (j.skb != null ==> fresh(j.skb))
      ensures err == EINPROGRESS ==> AtHardware(j)
      ensures err != EINPROGRESS ==> Running(j)
      ensures err == Success ==> Processed(j)
      ensures err == CodeAt(device.native, world, j.encrypt, old(tick)) && tick == old(tick) + 1
      ensures j.chunk == NextChunk(device.native, j.encrypt, j.outer.nbytes - j.offset)
      // The same in numbers, and outcome by outcome.
      ensures var rest := j.outer.nbytes - j.offset;
              j.chunk == if j.encrypt && !device.native then 16 else if rest <= 16000 then rest else 16000
      ensures var o := world(old(tick));
              err == if !o.skb then ENOMEM
                     else if o.hmac.Some? && (device.native || !j.encrypt) then Failed(o.hmac.value)
                     else if o.hardware == EBUSY then ENOBUFS
                     else o.hardware
    {
      StartChunk(j);
      var outcome := world(tick);
      tick := tick + 1;
      if !outcome.skb {
        return ENOMEM;
      }
      err := Send(j, outcome);
    }

    /** The frame is built and, unless that fails, handed over. */
    method Send(j: Job, outcome: Outcome) returns (err: Code)
      requires Running(j) && Progress(j) && j.skb == null && device.cipher.Invertible()
      requires j.chunk == NextChunk(device.native, j.encrypt, j.outer.nbytes - j.offset)
      requires 16 <= j.chunk && Blocks(j.chunk)
      requires j.offset + j.chunk <= j.outer.nbytes && Blocks(j.offset + j.chunk)
      modifies `liveSkbs, `inFlight, j`skb, j`nextIv
      ensures Progress(j) && j.skb != null && fresh(j.skb)
      ensures err == EINPROGRESS ==> AtHardware(j)
      ensures err != EINPROGRESS ==> Running(j)
      ensures err == Success ==> Processed(j)
      ensures var built := FrameCode(device.native, j.encrypt, outcome.hmac);
              err == if built != Success then built else HardwareCode(outcome.hardware)
    {
      err := Build(j, outcome.hmac);
      if err == Success {
        err := Dispatch(j, outcome.hardware);
      }
    }

    /** The old frame is freed, and the next chunk chosen. */
    method StartChunk(j: Job)
      requires Running(j) && Progress(j) && j.offset < j.outer.nbytes
      modifies `liveSkbs, j`skb, j`chunk
      ensures Running(j) && Progress(j) && j.skb == null
      ensures j.chunk == NextChunk(device.native, j.encrypt, j.outer.nbytes - j.offset)
      ensures 16 <= j.chunk && Blocks(j.chunk)
      ensures j.offset + j.chunk <= j.outer.nbytes && Blocks(j.offset + j.chunk)
    {
      FreeSkb(j.skb);
      j.skb := null;
      j.chunk := NextChunk(device.native, j.encrypt, j.outer.nbytes - j.offset);
      NextChunkFits(device.native, j.encrypt, j.outer.nbytes, j.offset);
    }

    method Build(j: Job, hmac: Option<nat>) returns (err: Code)
      requires Running(j) && Progress(j) && j.skb == null
      requires j.chunk == NextChunk(device.native, j.encrypt, j.outer.nbytes - j.offset)
      requires 16 <= j.chunk && Blocks(j.chunk)
      requires j.offset + j.chunk <= j.outer.nbytes && Blocks(j.offset + j.chunk)
      modifies `liveSkbs, j`skb, j`nextIv
      ensures Running(j) && Progress(j) && j.skb != null && fresh(j.skb)
      ensures err == FrameCode(device.native, j.encrypt, hmac)
      ensures err == Success ==> Sent(j)
    {
      j.skb := NewFrame(BodyBytes(device, j.chunk) + TAG);
      liveSkbs := liveSkbs + {j.skb};
      err := Fill(j, hmac);
    }

    static lemma {:induction false} NextChunkFits(native: bool, encrypt: bool, nbytes: nat, offset: nat)
      requires Blocks(nbytes) && Blocks(offset) && offset < nbytes
      ensures var n := NextChunk(native, encrypt, nbytes - offset);
              16 <= n && Blocks(n) && offset + n <= nbytes && Blocks(offset + n)
    {
      var n := NextChunk(native, encrypt, nbytes - offset);
      BlocksNext(offset, nbytes);
      BlocksAdd(offset, nbytes - offset);
      BlocksIff(MAX_CHUNK);
      BlocksAdd(offset, n);
    }

    method NewFrame(n: nat) returns (frame: array<byte>)
      requires HEADER <= n
      ensures fresh(frame) && frame.Length == n
      ensures frame[..] == ASSOC + ZEROS + seq(n - HEADER, _ => 0)
    {
      frame := new byte[n](_ => 0);
      frame[3], frame[7] := 1, 1;
    }

    /** Hands the frame over. The vendor never queues on EBUSY, so nobody is told to wait for it. */
    method Dispatch(j: Job, hardware: Code) returns (err: Code)
      requires Running(j) && Progress(j) && Sent(j) && device.cipher.Invertible()
      modifies `inFlight, j.skb
      ensures err == EINPROGRESS ==> inFlight == j && Sent(j)
      ensures err != EINPROGRESS ==> inFlight == null
      ensures err == Success ==> Processed(j)
      ensures err == HardwareCode(hardware)
    {
      match hardware {
        case EINPROGRESS =>
          inFlight := j;
          return EINPROGRESS;
        case Success =>
          Serve(j, if j.encrypt then encKey.value else decKey.value);
          return Success;
        case EBUSY =>
          return ENOBUFS;
        case e =>
          return e;
      }
    }

    /** Builds the frame around the next chunk of the source. */
    method Fill(j: Job, hmac: Option<nat>) returns (err: Code)
      requires Running(j) && Progress(j) && FrameSized(j)
      requires j.skb[..] == ASSOC + ZEROS + seq(j.skb.Length - HEADER, _ => 0)
      modifies j.skb, j`nextIv
      ensures err == FrameCode(device.native, j.encrypt, hmac)
      ensures err == Success ==> Sent(j)
    {
      var piece := NextPiece(j);
      LoadPayload(j, piece);
      err := FillFrame(j, piece, hmac);
    }

    method NextPiece(j: Job) returns (piece: seq<byte>)
      requires Progress(j) && j.offset + j.chunk <= j.outer.nbytes
      ensures piece == j.work.input[j.offset..j.offset + j.chunk] && |piece| == j.chunk
    {
      piece := j.outer.src[..][j.offset..j.offset + j.chunk];
      StillThere(j.outer.src[..], j.dst0, j.work.input, j.out, j.offset, j.chunk, j.outer.src == j.outer.dst);
    }

    /** What is added around the payload depends on mode and direction. */
    method FillFrame(j: Job, piece: seq<byte>, hmac: Option<nat>) returns (err: Code)
      requires j.Posed(device.cipher) && FrameSized(j) && OneKey(j.work.key)
      requires piece == j.work.input[j.offset..j.offset + j.chunk]
      requires |j.skb[..]| == BodyBytes(device, j.chunk) + TAG
      requires j.skb[..][..HEADER + j.chunk] == ASSOC + ZEROS + piece
      requires !device.native && j.encrypt ==> j.skb[..] == ASSOC + ZEROS + piece + ZEROS + NO_TAG
      modifies j.skb, j`nextIv
      ensures err == FrameCode(device.native, j.encrypt, hmac)
      ensures err == Success ==>
        j.skb[..] == Frame(device, j.encrypt, j.work.key, j.chain, piece) && NextIvSaved(j)
    {
      if device.native {
        err := FillNative(j, piece, hmac);
      } else if j.encrypt {
        FillBlock(j, piece);
        err := Success;
      } else {
        err := FillBlocks(j, piece, hmac);
      }
    }

    method LoadPayload(j: Job, piece: seq<byte>)
      requires FrameSized(j) && |piece| == j.chunk
      requires j.skb[..] == ASSOC + ZEROS + seq(j.skb.Length - HEADER, _ => 0)
      modifies j.skb
      ensures |j.skb[..]| == BodyBytes(device, j.chunk) + TAG
      ensures j.skb[..][..HEADER + j.chunk] == ASSOC + ZEROS + piece
      ensures !device.native && j.encrypt ==> j.skb[..] == ASSOC + ZEROS + piece + ZEROS + NO_TAG
    {
      ghost var before := j.skb[..];
      WriteBytes(piece, j.skb, HEADER);
      PayloadLoaded(before, j.skb.Length - HEADER, piece, j.skb[..]);
    }

    static lemma PayloadLoaded(f: seq<byte>, room: nat, piece: seq<byte>, f': seq<byte>)
      requires f == ASSOC + ZEROS + seq(room, _ => 0) && |piece| <= room
      requires f' == f[..HEADER] + piece + f[HEADER + |piece|..]
      ensures f'[..HEADER + |piece|] == ASSOC + ZEROS + piece
      ensures room == |piece| + 28 ==> f' == ASSOC + ZEROS + piece + ZEROS + NO_TAG
    {
      assert f[..HEADER] == ASSOC + ZEROS;
      assert room == |piece| + 28 ==> f[HEADER + |piece|..] == ZEROS + NO_TAG;
    }

    method FillNative(j: Job, piece: seq<byte>, hmac: Option<nat>) returns (err: Code)
      requires j.Posed(device.cipher) && FrameSized(j) && device.native
      requires piece == j.work.input[j.offset..j.offset + j.chunk]
      requires |j.skb[..]| == HEADER + j.chunk + TAG
      requires j.skb[..][..HEADER + j.chunk] == ASSOC + ZEROS + piece
      modifies j.skb, j`nextIv
      ensures err == if hmac.Some? then Failed(hmac.value) else Success
      ensures err == Success ==> j.skb[..] == Tagged(device, ASSOC + j.chain + piece) && NextIvSaved(j)
    {
      var frame, n := j.skb, HEADER + j.chunk;
      LoadIv(frame, j.chain, piece);
      if !j.encrypt {
        j.nextIv := frame[..][n - 16..n];
        SliceOfSlice(j.work.input, j.offset, j.offset + j.chunk, j.chunk - 16, 16);
      }
      if hmac.Some? {
        return Failed(hmac.value);
      }
      AppendMac(frame, n);
      return Success;
    }

    static method LoadIv(frame: array<byte>, iv: Block, ghost piece: seq<byte>)
      requires 16 <= |piece| && HEADER + |piece| <= frame.Length
      requires frame[..][..HEADER + |piece|] == ASSOC + ZEROS + piece
      modifies frame
      ensures frame[..][..HEADER + |piece|] == ASSOC + iv + piece
      ensures frame[..][HEADER + |piece| - 16..HEADER + |piece|] == piece[|piece| - 16..|piece|]
    {
      ghost var before := frame[..];
      WriteBytes(iv, frame, 8);
      IvLoaded(before, iv, piece, frame[..]);
    }

    static lemma IvLoaded(f: seq<byte>, iv: Block, piece: seq<byte>, f': seq<byte>)
      requires HEADER + |piece| <= |f| && f[..HEADER + |piece|] == ASSOC + ZEROS + piece && 16 <= |piece|
      requires f' == f[..8] + iv + f[24..]
      ensures f'[..HEADER + |piece|] == ASSOC + iv + piece
      ensures f'[HEADER + |piece| - 16..HEADER + |piece|] == piece[|piece| - 16..|piece|]
    {
      var n := HEADER + |piece|;
      assert f[..8] == f[..n][..8] == ASSOC;
      assert f[24..n] == f[..n][24..] == piece;
      assert f'[..n] == f[..8] + iv + f[24..n];
      assert f'[n - 16..n] == f'[..n][n - 16..];
    }

    /** The framing hash over everything before it. */
    method AppendMac(frame: array<byte>, n: nat)
      requires frame.Length == n + TAG
      modifies frame
      ensures frame[..] == Tagged(device, old(frame[..])[..n])
    {
      WriteBytes(device.mac(frame[..][..n]), frame, n);
    }

    method FillBlock(j: Job, piece: seq<byte>)
      requires j.Posed(device.cipher) && FrameSized(j) && !device.native && j.encrypt
      requires piece == j.work.input[j.offset..j.offset + j.chunk]
      requires j.skb[..] == ASSOC + ZEROS + piece + ZEROS + NO_TAG
      modifies j.skb
      ensures j.skb[..] == ASSOC + ZEROS + Xor(piece[..16], j.chain) + TRAILER + NO_TAG
    {
      assert piece[..16] == piece;
      WriteBytes(Xor(piece, j.chain), j.skb, HEADER);
      assert j.skb[..] == ASSOC + ZEROS + Xor(piece, j.chain) + ZEROS + NO_TAG;
      WriteBytes(TRAILER, j.skb, HEADER + 16);
      assert j.skb[..] == ASSOC + ZEROS + Xor(piece, j.chain) + TRAILER + NO_TAG;
    }

    method FillBlocks(j: Job, piece: seq<byte>, hmac: Option<nat>) returns (err: Code)
      requires j.Posed(device.cipher) && FrameSized(j) && !device.native && !j.encrypt
      requires OneKey(j.work.key)
      requires piece == j.work.input[j.offset..j.offset + j.chunk]
      requires j.skb[..][..HEADER + j.chunk] == ASSOC + ZEROS + piece
      modifies j.skb
      ensures err == if hmac.Some? then Failed(hmac.value) else Success
      ensures err == Success ==>
        j.skb[..] == Tagged(device, ASSOC + ZEROS + piece + device.cipher.enc(j.work.key, TRAILER))
    {
      var frame, n := j.skb, HEADER + j.chunk + 16;
      LoadTrailer(frame, n - 16, device.cipher.enc(padKey.value, TRAILER));
      if hmac.Some? {
        return Failed(hmac.value);
      }
      AppendMac(frame, n);
      return Success;
    }

    /** The padding, enciphered where it stands. */
    static method LoadTrailer(frame: array<byte>, at: nat, sealed: Block)
      requires at + 16 <= frame.Length
      modifies frame
      ensures frame[..][..at + 16] == old(frame[..])[..at] + sealed
    {
      WriteBytes(TRAILER, frame, at);
      WriteBytes(sealed, frame, at);
    }

    /** The part of the source not yet consumed is still the caller's input, in place or not. */
    static lemma StillThere(src: seq<byte>, rest: seq<byte>, input: seq<byte>, out: seq<byte>, at: nat, n: nat,
                            same: bool)
      requires at + n <= |input| <= |src|
      requires same ==> Mixed(src, out, rest, at) && |input| <= |rest| && rest[..|input|] == input
      requires !same ==> src[..|input|] == input
      ensures src[at..at + n] == input[at..at + n]
    {
      assert same ==> forall i | at <= i < at + n :: src[i] == rest[i] == rest[..|input|][i];
      assert !same ==> forall i | at <= i < at + n :: src[i] == src[..|input|][i];
    }

    method ConsumeChunk(j: Job, err: Code) returns (r: Code)
      requires Progress(j)
      requires err == Success ==> Processed(j)
      modifies j`chain, j`offset, j.outer.dst
      ensures r == err && Progress(j)
      ensures err != Success ==> j.offset == old(j.offset)
      ensures err == Success ==> j.offset == old(j.offset) + j.chunk
    {
      if err != Success {
        return err;
      }
      var data := j.skb[HEADER..HEADER + j.chunk];
      WriteChunk(j, data);
      j.offset := j.offset + j.chunk;
      return Success;
    }

    method WriteChunk(j: Job, data: seq<byte>)
      requires j.Posed(device.cipher) && 16 <= |data| && Blocks(|data|)
      requires Blocks(j.offset) && j.offset + |data| <= |j.out|
      requires data == ChunkResult(device, j.work, j.out, j.offset, |data|)
      requires device.native && !j.encrypt ==> j.nextIv == j.cts[j.offset + |data| - 16..j.offset + |data|]
      requires j.chain == j.ChainAfter(j.offset) && Unconsumed(j, j.offset)
      modifies j`chain, j.outer.dst
      ensures j.chain == j.ChainAfter(j.offset + |data|) && Unconsumed(j, j.offset + |data|)
    {
      if device.native || j.encrypt {
        // The same copy serves the native path and the single block of mode 2.
        CopyOut(j, data);
      } else {
        Unchain(j, data);
      }
    }

    /** Writes one more piece of the result behind what is already there. */
    method WriteResult(j: Job, data: seq<byte>, at: nat)
      requires at + |data| <= |j.out| && data == j.out[at..at + |data|]
      requires Mixed(j.outer.dst[..], j.out, j.dst0, at)
      modifies j.outer.dst
      ensures Mixed(j.outer.dst[..], j.out, j.dst0, at + |data|)
    {
      ghost var before := j.outer.dst[..];
      WriteBytes(data, j.outer.dst, at);
      MixedStep(before, j.outer.dst[..], j.out, j.dst0, at, data);
    }

    method CopyOut(j: Job, data: seq<byte>)
      requires 16 <= |data| && j.offset + |data| <= |j.out| == |j.cts| && |j.out| <= |j.dst0|
      requires data == j.out[j.offset..j.offset + |data|]
      requires j.encrypt ==> j.cts == j.out
      requires !j.encrypt ==> j.nextIv == j.cts[j.offset + |data| - 16..j.offset + |data|]
      requires Unconsumed(j, j.offset)
      modifies j`chain, j.outer.dst
      ensures j.chain == j.ChainAfter(j.offset + |data|) && Unconsumed(j, j.offset + |data|)
    {
      LastOfPrefix(j.work.iv, j.cts, j.offset, |data|);
      j.chain := if j.encrypt then data[|data| - 16..] else j.nextIv;
      WriteResult(j, data, j.offset);
    }

    static lemma LastOfPrefix(iv: Block, q: seq<byte>, at: nat, n: nat)
      requires n >= 16 && at + n <= |q|
      ensures LastBlock(iv, q[..at + n]) == q[at + n - 16..at + n] == q[at..at + n][n - 16..]
    {
    }

    /** Mode 2 decryption: software applies the chain, block by block. */
    method Unchain(j: Job, data: seq<byte>)
      requires j.Posed(device.cipher) && !j.encrypt
      requires Blocks(j.offset) && Blocks(|data|) && j.offset + |data| <= |j.out|
      requires data == EcbDec(device.cipher, j.work.key, j.work.input[j.offset..j.offset + |data|])
      requires j.chain == j.ChainAfter(j.offset) && Unconsumed(j, j.offset)
      modifies j`chain, j.outer.dst
      ensures j.chain == j.ChainAfter(j.offset + |data|) && Unconsumed(j, j.offset + |data|)
    {
      var n := 0;
      while n < |data|
        invariant Blocks(n) && n <= |data|
        invariant j.chain == j.ChainAfter(j.offset + n) && Unconsumed(j, j.offset + n)
      {
        UnchainNext(j, data, n);
        BlocksNext(n, |data|);
        n := n + 16;
      }
    }

    method UnchainNext(j: Job, data: seq<byte>, n: nat)
      requires j.Posed(device.cipher) && !j.encrypt && Blocks(j.offset)
      requires Blocks(|data|) && j.offset + |data| <= |j.out| && Blocks(n) && n < |data|
      requires data == EcbDec(device.cipher, j.work.key, j.work.input[j.offset..j.offset + |data|])
      requires j.chain == j.ChainAfter(j.offset + n) && Unconsumed(j, j.offset + n)
      modifies j`chain, j.outer.dst
      ensures n + 16 <= |data|
      ensures j.chain == j.ChainAfter(j.offset + n + 16) && Unconsumed(j, j.offset + n + 16)
    {
      BlockUnchained(j, data, n);
      UnchainBlock(j, data[n..n + 16], j.offset + n);
    }

    /** Memory while the first `n` bytes are done: the rest of the source is still to be read. */
    ghost predicate Unconsumed(j: Job, n: nat)
      reads j.outer.src, j.outer.dst
    {
      && |j.work.input| <= j.outer.src.Length
      && Mixed(j.outer.dst[..], j.out, j.dst0, n)
      && (if j.outer.src == j.outer.dst then |j.work.input| <= |j.dst0| && j.dst0[..|j.work.input|] == j.work.input
          else j.outer.src[..|j.work.input|] == j.work.input)
    }

    /** The ciphertext block is read before the plaintext block is written, because the two may
        share memory. */
    method UnchainBlock(j: Job, deciphered: Block, at: nat)
      requires at + 16 <= |j.out| == |j.cts| && j.cts == j.work.input
      requires j.chain == j.ChainAfter(at) && Unconsumed(j, at)
      requires Xor(deciphered, j.chain) == j.out[at..at + 16]
      modifies j`chain, j.outer.dst
      ensures j.chain == j.ChainAfter(at + 16) && Unconsumed(j, at + 16)
    {
      var req := j.outer;
      StillThere(req.src[..], j.dst0, j.work.input, j.out, at, 16, req.src == req.dst);
      var original := req.src[at..at + 16];
      var block := Xor(deciphered, j.chain);
      j.chain := original;
      LastOfPrefix(j.work.iv, j.cts, at, 16);
      WriteResult(j, block, at);
    }

    lemma {:induction false} BlockUnchained(j: Job, data: seq<byte>, n: nat)
      requires j.Posed(device.cipher) && !j.encrypt && Blocks(j.offset)
      requires Blocks(|data|) && j.offset + |data| <= |j.out| && Blocks(n) && n < |data|
      requires data == EcbDec(device.cipher, j.work.key, j.work.input[j.offset..j.offset + |data|])
      ensures n + 16 <= |data|
      ensures Xor(data[n..n + 16], j.ChainAfter(j.offset + n)) == j.out[j.offset + n..j.offset + n + 16]
    {
      var w := j.work;
      BlocksNext(n, |data|);
      BlocksAdd(j.offset, n);
      BlockOfPiece(device.cipher, w.key, w.iv, w.input, j.offset, n, data, j.out);
    }

    // ------------------------------------------------------------ whole requests

    /** Consumes a finished chunk and goes on until the request is done, fails, or a chunk is left
        with the hardware. Both the submission and the completion callback run this loop. */
    method Continue(j: Job, err: Code) returns (e: Code)
      requires Running(j) && Progress(j) && device.cipher.Invertible()
      requires err != EINPROGRESS && (err == Success ==> Processed(j))
      requires j.offset < j.outer.nbytes
      modifies `tick, `liveSkbs, `inFlight, j, j.outer.dst
      ensures Course(e, j.offset, tick) == old(AfterChunk(j, err))
      ensures Progress(j) && (j.skb == old(j.skb) || j.skb == null || fresh(j.skb))
      ensures e == EINPROGRESS ==> AtHardware(j)
      ensures e != EINPROGRESS ==> Running(j) && (e == Success <==> j.offset == j.outer.nbytes)
      ensures err == Success ==> old(j.offset) < j.offset
    {
      e := ConsumeChunk(j, err);
      while e == Success && j.offset < j.outer.nbytes
        invariant e != EINPROGRESS && Running(j) && Progress(j)
        invariant From(j, e) == old(AfterChunk(j, err))
        invariant err == Success ==> old(j.offset) < j.offset
        invariant e == Success || j.offset < j.outer.nbytes
        invariant j.skb == old(j.skb) || j.skb == null || fresh(j.skb)
        decreases j.outer.nbytes - j.offset, e == Success
      {
        e := OneMore(j);
        if e == EINPROGRESS {
          return;
        }
      }
    }

    /** The body of that loop, as a step of the request's course. */
    method OneMore(j: Job) returns (e: Code)
      requires Running(j) && Progress(j) && device.cipher.Invertible() && j.offset < j.outer.nbytes
      modifies `tick, `liveSkbs, `inFlight, j, j.outer.dst
      ensures Progress(j) && (j.skb == null || fresh(j.skb)) && From(j, e) == old(Ahead(j))
      ensures e == EINPROGRESS ==> AtHardware(j)
      ensures e != EINPROGRESS ==> Running(j)
      ensures if e == Success then old(j.offset) < j.offset else j.offset == old(j.offset)
    {
      GoingStep(device.native, world, j.encrypt, j.outer.nbytes, j.offset, tick);
      e := SubmitAndConsume(j);
    }

    method SubmitAndConsume(j: Job) returns (e: Code)
      requires Running(j) && Progress(j) && device.cipher.Invertible() && j.offset < j.outer.nbytes
      modifies `tick, `liveSkbs, `inFlight, j, j.outer.dst
      ensures Progress(j) && (j.skb == null || fresh(j.skb))
      ensures e == EINPROGRESS ==> AtHardware(j)
      ensures e != EINPROGRESS ==> Running(j)
      ensures tick == old(tick) + 1 && e == CodeAt(device.native, world, j.encrypt, old(tick))
      ensures var n := NextChunk(device.native, j.encrypt, j.outer.nbytes - old(j.offset));
              j.offset == old(j.offset) + if e == Success then n else 0
    {
      e := SubmitChunk(j);
      if e != EINPROGRESS {
        e := ConsumeChunk(j, e);
      }
    }

    ghost function From(j: Job, e: Code): Course
      reads `tick, j`offset
    {
      if e == Success then Ahead(j) else Course(e, j.offset, tick)
    }

    /** What is to come of the job if nothing is under way, and if the chunk under way has just ended. */
    ghost function Ahead(j: Job): Course
      reads `tick, j`offset
    {
      Going(device.native, world, j.encrypt, j.outer.nbytes, j.offset, tick)
    }

    ghost function AfterChunk(j: Job, err: Code): Course
      requires j.offset < j.outer.nbytes
      reads `tick, j`offset
    {
      GoingOn(device.native, world, j.encrypt, j.outer.nbytes, j.offset, tick, err)
    }

    /** A fresh job's chunks, up to the first one that is left with the hardware. */
    method Run(j: Job) returns (e: Code)
      requires Running(j) && Progress(j) && device.cipher.Invertible() && j.offset < j.outer.nbytes
      modifies `tick, `liveSkbs, `inFlight, j, j.outer.dst
      ensures Progress(j) && (j.skb == null || fresh(j.skb))
      ensures e == EINPROGRESS ==> AtHardware(j)
      ensures e != EINPROGRESS ==> Running(j) && (e == Success <==> j.offset == j.outer.nbytes)
      ensures Course(e, j.offset, tick) == old(Ahead(j))
    {
      ghost var course := Ahead(j);
      e := SubmitChunk(j);
      assert AfterChunk(j, e) == course;
      if e != EINPROGRESS {
        e := Continue(j, e);
      }
    }

    ghost function AnswerTo(j: Job, err: Code, byCallback: bool): Answer
      reads j, j.outer.dst, j.outer.info
    {
      Answer(byCallback, err, j.work, j.dst0, j.outer.dst[..], j.outer.info[..], j.offset)
    }

    /** Answers the open request: the only place where a job dies and the context becomes free. */
    method Release(j: Job, err: Code, ghost byCallback: bool)
      requires Running(j) && Progress(j) && Accounted(Some(j.id)) && device.cipher.Invertible()
      requires err != EINPROGRESS
      requires err == Success <==> j.offset == j.outer.nbytes
      requires byCallback == (j.id in deferred) && this in foot
      modifies `busy, `liveJobs, `liveSkbs, `answers, j.outer.info
      ensures Valid() && !busy
      ensures old(j.id !in answers)
      ensures answers == old(answers)[j.id := AnswerTo(j, err, byCallback)]
    {
      if err == Success {
        GiveInfo(j);
      }
      ghost var a := AnswerTo(j, err, byCallback);
      AnswerIsTrue(device.cipher, a, j.out, j.cts);
      Close(j, a);
    }

    /** The job and its frame die, the answer is recorded, and the context is free. */
    method Close(j: Job, ghost a: Answer)
      requires Running(j) && Accounted(Some(j.id)) && device.cipher.Invertible() && this in foot
      requires Truthful(device.cipher, a) && a.byCallback == (j.id in deferred)
      modifies `busy, `liveJobs, `liveSkbs, `answers
      ensures Valid() && !busy
      ensures old(j.id !in answers) && answers == old(answers)[j.id := a]
    {
      FreeSkb(j.skb);
      FreeJob(j);
      busy := false;
      AccountedCloses(device.cipher, nextId, answers, deferred, j.id, a);
      answers := answers[j.id := a];
    }

    /** The last ciphertext block becomes the caller's initial value. */
    method GiveInfo(j: Job)
      requires j.outer.WellFormed()
      modifies j.outer.info
      ensures j.outer.info[..] == j.chain
    {
      WriteBytes(j.chain, j.outer.info, 0);
    }

    ghost method Defer(j: Job)
      requires Progress(j) && busy && liveJobs == {j} && OneKey(j.work.key) && AtHardware(j)
      requires Accounted(Some(j.id)) && device.cipher.Invertible() && this in foot
      modifies `deferred, `foot
      ensures Valid() && deferred == old(deferred) + {j.id} && foot == old(foot) + Memory(j)
      ensures Memory(j) == {j, j.skb, j.outer.src, j.outer.dst, j.outer.info}
    {
      AccountedDefers(device.cipher, nextId, answers, deferred, j.id);
      deferred, foot := deferred + {j.id}, foot + Memory(j);
    }

    /** The job is left with the hardware, or its request is answered. */
    method Conclude(j: Job, e: Code, ghost byCallback: bool)
      requires Progress(j) && Accounted(Some(j.id)) && device.cipher.Invertible() && this in foot
      requires e == EINPROGRESS ==>
        && busy && liveJobs == {j} && OneKey(j.work.key) && AtHardware(j)
      requires e != EINPROGRESS ==> Running(j) && (e == Success <==> j.offset == j.outer.nbytes)
      requires byCallback == (j.id in deferred)
      modifies `busy, `liveJobs, `liveSkbs, `answers, `deferred, `foot, j.outer.info
      ensures Valid()
      ensures e == EINPROGRESS ==>
        && inFlight == j && answers == old(answers) && deferred == old(deferred) + {j.id}
        && foot == old(foot) + {j, j.skb, j.outer.src, j.outer.dst, j.outer.info}
      ensures e != EINPROGRESS ==>
        && inFlight == null && !busy && deferred == old(deferred) && foot == old(foot) && old(j.id !in answers)
        && answers == old(answers)[j.id := AnswerTo(j, e, byCallback)]
    {
      if e == EINPROGRESS {
        Defer(j);
      } else {
        Release(j, e, byCallback);
      }
    }

    method CbcSubmit(req: Request, encrypt: bool, memory: bool) returns (r: Code)
      requires Valid() && req.WellFormed()
      modifies this, req.dst, req.info
      ensures Valid()
      ensures keyed == old(keyed) && encKey == old(encKey) && decKey == old(decKey) && padKey == old(padKey)
      // A request is accepted exactly when it is whole, non-empty, keyed, alone and there is memory.
      ensures Accepted(req, old(keyed), old(busy), memory)
         <==> req.nbytes % 16 == 0 && old(keyed) && 0 < req.nbytes && !old(busy) && memory
      ensures nextId == old(nextId) + if Accepted(req, old(keyed), old(busy), memory) then 1 else 0
      ensures !Accepted(req, old(keyed), old(busy), memory) ==>
        && r == (if req.nbytes % 16 != 0 then EINVAL else if !old(keyed) then ENOKEY
                 else if req.nbytes == 0 then Success else if old(busy) then ENOBUFS else ENOMEM)
        && busy == old(busy) && inFlight == old(inFlight) && answers == old(answers) && deferred == old(deferred)
        && tick == old(tick) && (inFlight != null ==> inFlight.offset == old(inFlight.offset))
        && req.dst[..] == old(req.dst[..]) && req.info[..] == old(req.info[..])
      // An accepted one goes on until a chunk is left with the hardware or fails, or all went well.
      ensures Accepted(req, old(keyed), old(busy), memory) ==>
        && r == Whole(req, encrypt, old(tick)).code && tick == Whole(req, encrypt, old(tick)).tick
      // It is answered now, or left with the hardware and answered later, never both.
      ensures Accepted(req, old(keyed), old(busy), memory) && r != EINPROGRESS ==>
        && !busy && deferred == old(deferred) && old(nextId !in answers)
        && answers == old(answers)[
             old(nextId) := Answer(false, r, old(TheWork(req, encrypt)), old(req.dst[..]), req.dst[..], req.info[..],
                                   Whole(req, encrypt, old(tick)).offset)]
      ensures Accepted(req, old(keyed), old(busy), memory) && r == EINPROGRESS ==>
        && inFlight != null && fresh(inFlight) && answers == old(answers)
        && deferred == old(deferred) + {old(nextId)}
        && inFlight.outer == req && inFlight.id == old(nextId)
        && inFlight.work == old(TheWork(req, encrypt))
        && inFlight.dst0 == old(req.dst[..])
        && inFlight.offset == Whole(req, encrypt, old(tick)).offset
      ensures fresh(foot - old(foot) - {req.src, req.dst, req.info})
    {
      if req.nbytes % 16 != 0 {
        return EINVAL;
      }
      if !keyed {
        return ENOKEY;
      }
      if req.nbytes == 0 {
        return Success;
      }
      if busy {
        return ENOBUFS;
      }
      busy := true;
      if !memory {
        busy := false;
        return ENOMEM;
      }
      r := Begin(req, encrypt);
    }

    /** The course of a request whose first chunk submission is the `t`-th. */
    ghost function Whole(req: Request, encrypt: bool, t: nat): Course {
      Going(device.native, world, encrypt, req.nbytes, 0, t)
    }

    /** What a request asks for, with the key in force. */
    ghost function TheWork(req: Request, encrypt: bool): Work
      requires req.WellFormed() && encKey.Some?
      reads `encKey, req.info, req.src
    {
      Work(encrypt, encKey.value, req.info[..], req.src[..req.nbytes])
    }

    /** The rest of a submission, once the busy flag is taken and the job's memory is there. */
    method Begin(req: Request, encrypt: bool) returns (r: Code)
      requires req.WellFormed() && req.nbytes % 16 == 0 && 0 < req.nbytes
      requires device.cipher.Invertible() && encKey.Some? && OneKey(encKey.value)
      requires busy && inFlight == null && liveJobs == {} && liveSkbs == {} && Accounted(None)
      requires this in foot
      modifies `tick, `busy, `inFlight, `liveJobs, `liveSkbs, `answers, `nextId, `deferred, `foot, req.dst, req.info
      ensures Valid() && nextId == old(nextId) + 1
      ensures r == Whole(req, encrypt, old(tick)).code && tick == Whole(req, encrypt, old(tick)).tick
      ensures r != EINPROGRESS ==>
        && !busy && deferred == old(deferred) && foot == old(foot) && old(nextId !in answers)
        && answers == old(answers)[
             old(nextId) := Answer(false, r, old(TheWork(req, encrypt)), old(req.dst[..]), req.dst[..], req.info[..],
                                   Whole(req, encrypt, old(tick)).offset)]
      ensures r == EINPROGRESS ==>
        && inFlight != null && fresh(inFlight) && inFlight.skb != null && fresh(inFlight.skb)
        && foot == old(foot) + {inFlight, inFlight.skb, req.src, req.dst, req.info}
        && answers == old(answers) && deferred == old(deferred) + {old(nextId)}
        && inFlight.outer == req && inFlight.id == old(nextId)
        && inFlight.work == old(TheWork(req, encrypt))
        && inFlight.dst0 == old(req.dst[..])
        && inFlight.offset == Whole(req, encrypt, old(tick)).offset
    {
      var j;
      BlocksIff(req.nbytes);
      j, r := Start(req, encrypt);
      Conclude(j, r, false);
    }

    /** A new job, up to the first chunk left with the hardware or to the end of the request. */
    method Start(req: Request, encrypt: bool) returns (j: Job, e: Code)
      requires req.WellFormed() && Blocks(req.nbytes) && 0 < req.nbytes
      requires device.cipher.Invertible() && encKey.Some? && OneKey(encKey.value)
      requires busy && inFlight == null && liveJobs == {} && liveSkbs == {} && Accounted(None)
      modifies `tick, `inFlight, `liveJobs, `liveSkbs, `nextId, req.dst
      ensures fresh(j) && j.outer == req && j.id == old(nextId) && nextId == old(nextId) + 1
      ensures Progress(j) && Accounted(Some(j.id)) && OneKey(j.work.key) && (j.skb == null || fresh(j.skb))
      ensures j.work == old(TheWork(req, encrypt))
      ensures j.dst0 == old(req.dst[..])
      ensures e == EINPROGRESS ==>
        busy && liveJobs == {j} && AtHardware(j)
      ensures e != EINPROGRESS ==> Running(j) && (e == Success <==> j.offset == j.outer.nbytes)
      ensures Course(e, j.offset, tick) == Whole(req, encrypt, old(tick))
    {
      j := Open(req, encrypt);
      e := Run(j);
    }

    /** A new job for the request, and its number among all that were accepted. */
    method Open(req: Request, encrypt: bool) returns (j: Job)
      requires req.WellFormed() && Blocks(req.nbytes) && 0 < req.nbytes
      requires encKey.Some? && OneKey(encKey.value)
      requires busy && inFlight == null && liveJobs == {} && liveSkbs == {} && Accounted(None)
      modifies `liveJobs, `nextId
      ensures fresh(j) && j.outer == req && j.encrypt == encrypt && j.id == old(nextId) && nextId == old(nextId) + 1
      ensures Running(j) && Progress(j) && j.offset == 0 && j.skb == null && Accounted(Some(j.id))
      ensures j.work == TheWork(req, encrypt) && j.dst0 == req.dst[..]
    {
      AccountedOpens(device.cipher, nextId, answers, deferred);
      j := new Job(req, encrypt, nextId, encKey.value, device.cipher);
      liveJobs := {j};
      nextId := nextId + 1;
    }

    static predicate Accepted(req: Request, keyed: bool, busy: bool, memory: bool) {
      req.nbytes % 16 == 0 && keyed && 0 < req.nbytes && !busy && memory
    }

    /** The hardware gives the job back to software, its frame processed unless it failed. */
    method TakeBack(err: Code) returns (j: Job)
      requires Valid() && inFlight != null
      modifies `inFlight, inFlight.skb
      ensures j == old(inFlight)
      ensures Running(j) && Progress(j) && Accounted(Some(j.id)) && j.offset < j.outer.nbytes
      ensures err == Success ==> Processed(j)
    {
      j := inFlight;
      inFlight := null;
      if err == Success {
        Serve(j, if j.encrypt then encKey.value else decKey.value);
      }
    }

    /** From a completion to the next chunk left with the hardware, or to the end of the request. */
    method Resume(err: Code) returns (j: Job, e: Code)
      requires Valid() && inFlight != null && err != EINPROGRESS
      modifies `tick, `liveSkbs, `inFlight, inFlight, inFlight.skb, inFlight.outer.dst
      ensures j == old(inFlight) && Progress(j) && Accounted(Some(j.id)) && OneKey(j.work.key)
      ensures j.skb == old(inFlight.skb) || j.skb == null || fresh(j.skb)
      ensures old(inFlight.offset < inFlight.outer.nbytes)
      ensures Course(e, j.offset, tick) == old(AfterChunk(inFlight, err))
      ensures err == Success ==> old(inFlight.offset) < j.offset
      ensures e == EINPROGRESS ==> AtHardware(j)
      ensures e != EINPROGRESS ==> Running(j) && (e == Success <==> j.offset == j.outer.nbytes)
    {
      j := TakeBack(err);
      e := Continue(j, err);
    }

    /** A chunk is done or has failed. Either the same job is back at the hardware, further on, or its
        request has been answered. */
    method Advance(err: Code)
      requires Valid() && inFlight != null && err != EINPROGRESS
      modifies `tick, `busy, `inFlight, `liveJobs, `liveSkbs, `answers, `deferred, `foot
      modifies inFlight, inFlight.skb, inFlight.outer.dst, inFlight.outer.info
      ensures Valid() && deferred == old(deferred)
      ensures inFlight != null ==>
        inFlight == old(inFlight) && answers == old(answers) && old(inFlight.offset) < inFlight.offset
      ensures old(inFlight.offset < inFlight.outer.nbytes)
      ensures inFlight != null ==> Course(EINPROGRESS, inFlight.offset, tick) == old(AfterChunk(inFlight, err))
      ensures inFlight == null ==> !busy && AnsweredLast(old(inFlight), old(AfterChunk(inFlight, err)), old(answers))
      ensures fresh(foot - old(foot))
    {
      ghost var memory := Memory(inFlight);
      var j, e := Resume(err);
      assert forall o <- Memory(j) :: o in memory || o == j.skb;
      Conclude(j, e, true);
    }

    /** The job's request has just been answered by callback, with what is in the caller's memory now. */
    ghost predicate AnsweredLast(j: Job, course: Course, before: map<nat, Answer>)
      reads `answers, `tick, j.outer.dst, j.outer.info
    {
      && j.id !in before && tick == course.tick && course.code != EINPROGRESS
      && answers == before[j.id := Answer(true, course.code, j.work, j.dst0, j.outer.dst[..], j.outer.info[..],
                                          course.offset)]
    }

    /** The completion callback of the chunk the hardware holds. EINPROGRESS is only a notice. */
    method InnerDone(err: Code)
      requires Valid() && inFlight != null
      modifies `tick, `busy, `inFlight, `liveJobs, `liveSkbs, `answers, `deferred, `foot
      modifies inFlight, inFlight.skb, inFlight.outer.dst, inFlight.outer.info
      ensures Valid() && deferred == old(deferred)
      ensures err == EINPROGRESS ==>
        && inFlight == old(inFlight) && inFlight.offset == old(inFlight.offset) && answers == old(answers)
        && tick == old(tick)
      // The job goes on until a chunk is left with the hardware or fails, or all went well: either it is back
      // at the hardware, further on, or its request has been answered.
      ensures err != EINPROGRESS && inFlight != null ==>
        inFlight == old(inFlight) && answers == old(answers) && old(inFlight.offset) < inFlight.offset
      ensures old(inFlight.offset < inFlight.outer.nbytes)
      ensures err != EINPROGRESS && inFlight != null ==>
        Course(EINPROGRESS, inFlight.offset, tick) == old(AfterChunk(inFlight, err))
      ensures inFlight == null ==> !busy && AnsweredLast(old(inFlight), old(AfterChunk(inFlight, err)), old(answers))
      ensures fresh(foot - old(foot))
    {
      if err != EINPROGRESS {
        Advance(err);
      }
    }

    /** Rekeying takes the same busy flag as a request, so it is refused while one is open. */
    method SetKey(key: Key, first: Code, second: Code, third: Code) returns (r: Code)
      requires Valid()
      modifies `busy, `keyed, `encKey, `decKey, `padKey
      ensures Valid()
      ensures busy == old(busy)
      ensures |key| !in {16, 24, 32} ==> r == EINVAL
      ensures |key| in {16, 24, 32} && old(busy) ==> r == ENOBUFS
      ensures |key| !in {16, 24, 32} || old(busy) ==>
        keyed == old(keyed) && encKey == old(encKey) && decKey == old(decKey) && padKey == old(padKey)
      ensures |key| in {16, 24, 32} && !old(busy) ==>
        && keyed == (first == second == third == Success)
        && encKey == (if first == Success then Some(key) else old(encKey))
        && decKey == (if first == second == Success then Some(key) else old(decKey))
        && padKey == (if first == second == third == Success then Some(key) else old(padKey))
        && (keyed ==> r == Success && OneKey(key))
        && (!keyed ==> r == if first != Success then first else if second != Success then second else third)
    {
      if |key| != 16 && |key| != 24 && |key| != 32 {
        return EINVAL;
      }
      if busy {
        return ENOBUFS;
      }
      busy, keyed := true, false;
      r := first;
      if r == Success {
        encKey := Some(key);
        r := second;
      }
      if r == Success {
        decKey := Some(key);
        r := third;
      }
      if r == Success {
        padKey := Some(key);
        keyed := true;
      }
      busy := false;
    }
  }
}
