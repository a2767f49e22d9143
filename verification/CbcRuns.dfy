/** Whole runs of one CBC context: any sequence of rekeying, submissions and completions, with any
    outcome of every allocation, hash and hardware request. */
module CbcRuns {
  import opened Wrappers
  import opened Bytes
  import opened CbcSpec
  import opened CbcFrame
  import opened CbcEngine

  datatype Event =
    | Rekey(key: Key, first: Code, second: Code, third: Code)
    | Submit(encrypt: bool, src: seq<byte>, dst: seq<byte>, inPlace: bool, info: Block, n: nat, memory: bool)
    | Complete(err: Code)

  /** A caller's request in memory of its own, with one buffer or two. */
  method Place(src: seq<byte>, dst: seq<byte>, inPlace: bool, info: Block, n: nat) returns (req: Request)
    requires n <= |src| && n <= |dst|
    ensures req.WellFormed() && req.nbytes == n && (inPlace <==> req.src == req.dst)
    ensures fresh(req) && fresh(req.src) && fresh(req.dst) && fresh(req.info)
    ensures req.dst[..] == dst && req.info[..] == info && (!inPlace ==> req.src[..] == src)
  {
    var d := new byte[|dst|](i requires 0 <= i < |dst| => dst[i]);
    var s := d;
    if !inPlace {
      s := new byte[|src|](i requires 0 <= i < |src| => src[i]);
    }
    var v := new byte[16](i requires 0 <= i < 16 => info[i]);
    req := new Request(s, d, v, n);
  }

  /** No answer is ever changed or withdrawn. */
  ghost predicate Extends(before: map<nat, Answer>, after: map<nat, Answer>) {
    forall id <- before :: id in after && after[id] == before[id]
  }

  // ---------------------------------------------------------------- what an event does

  /** The request that is open: its number, its work, the destination as it was, and the bytes done. */
  datatype Open = Open(id: nat, work: Work, dst0: seq<byte>, offset: nat)

  /** A context between two events, as values; `tick` is the number of the next chunk submission. */
  datatype Snapshot = Snapshot(keyed: bool, key: Option<Key>, nextId: nat, answers: map<nat, Answer>,
                               deferred: set<nat>, open: Option<Open>, tick: nat)

  /** The engine's mode, and what the surroundings do to each chunk submission. */
  datatype Setup = Setup(native: bool, world: nat -> Outcome)

  function SetupOf(ctx: CbcContext): Setup {
    Setup(ctx.device.native, ctx.world)
  }

  ghost function Snap(ctx: CbcContext): Snapshot
    reads ctx, ctx.inFlight
  {
    var j := ctx.inFlight;
    Snapshot(ctx.keyed, ctx.encKey, ctx.nextId, ctx.answers, ctx.deferred,
             if j == null then None else Some(Open(j.id, j.work, j.dst0, j.offset)), ctx.tick)
  }

  /** The request of an event is whole, non-empty, keyed, alone, and there is memory for its job. */
  ghost predicate Accepts(a: Snapshot, e: Event) {
    && e.Submit? && e.n <= |e.src| && e.n <= |e.dst|
    && e.n % 16 == 0 && 0 < e.n && a.keyed && a.key.Some? && a.open.None? && e.memory
  }

  ghost function WorkOf(a: Snapshot, e: Event): Work
    requires Accepts(a, e)
  {
    Work(e.encrypt, a.key.value, e.info, if e.inPlace then e.dst[..e.n] else e.src[..e.n])
  }

  /** How far a submission comes, and a request whose current chunk ends with `err`. */
  function CourseOf(u: Setup, a: Snapshot, e: Event): Course
    requires e.Submit?
  {
    Going(u.native, u.world, e.encrypt, e.n, 0, a.tick)
  }

  function CourseOn(u: Setup, o: Open, err: Code, tick: nat): Course
    requires o.offset < |o.work.input|
  {
    GoingOn(u.native, u.world, o.work.encrypt, |o.work.input|, o.offset, tick, err)
  }

  /** An answer recorded for an open request. */
  ghost predicate Answered(o: Open, code: Code, before: map<nat, Answer>, after: map<nat, Answer>, byCallback: bool) {
    && o.id !in before && o.id in after && after == before[o.id := after[o.id]]
    && after[o.id].work == o.work && after[o.id].dst0 == o.dst0 && after[o.id].byCallback == byCallback
    && after[o.id].code == code && after[o.id].done == o.offset
  }

  /** One submission: an accepted request gets the next number, and goes on until a chunk is left with the
      hardware or it is answered. */
  ghost predicate Submits(u: Setup, a: Snapshot, e: Event, b: Snapshot) {
    if Accepts(a, e) then
      var c := CourseOf(u, a, e);
      var o := Open(a.nextId, WorkOf(a, e), e.dst, c.offset);
      && b.nextId == a.nextId + 1 && b.keyed == a.keyed && b.key == a.key && b.tick == c.tick
      && (if c.code == EINPROGRESS then
            b.open == Some(o) && b.answers == a.answers && b.deferred == a.deferred + {o.id}
          else b.open == None && Answered(o, c.code, a.answers, b.answers, false) && b.deferred == a.deferred)
    else b == a
  }

  /** One completion: the open request goes on likewise, and is answered by callback. */
  ghost predicate Completes(u: Setup, a: Snapshot, err: Code, b: Snapshot) {
    if a.open.None? || err == EINPROGRESS then b == a
    else
      var o := a.open.value;
      && o.offset < |o.work.input|
      && var c := CourseOn(u, o, err, a.tick);
      && b.nextId == a.nextId && b.keyed == a.keyed && b.key == a.key && b.deferred == a.deferred && b.tick == c.tick
      && (if c.code == EINPROGRESS then b.open == Some(o.(offset := c.offset)) && b.answers == a.answers
          else b.open == None && Answered(o.(offset := c.offset), c.code, a.answers, b.answers, true))
  }

  /** One rekeying: refused while a request is open, else it decides whether there is a key. */
  ghost predicate Rekeys(a: Snapshot, e: Event, b: Snapshot)
    requires e.Rekey?
  {
    if |e.key| !in {16, 24, 32} || a.open.Some? then b == a
    else
      && b == a.(keyed := b.keyed, key := b.key)
      && b.keyed == (e.first == e.second == e.third == Success)
      && b.key == if e.first == Success then Some(e.key) else a.key
  }

  ghost predicate Follows(u: Setup, a: Snapshot, e: Event, b: Snapshot) {
    match e
    case Rekey(_, _, _, _) => Rekeys(a, e, b)
    case Submit(_, _, _, _, _, _, _) => Submits(u, a, e, b)
    case Complete(err) => Completes(u, a, err, b)
  }

  method PerformSubmit(ctx: CbcContext, e: Event)
    requires ctx.Valid() && e.Submit? && e.n <= |e.src| && e.n <= |e.dst|
    modifies ctx
    ensures ctx.Valid()
    ensures fresh(ctx.foot - old(ctx.foot))
    ensures Submits(SetupOf(ctx), old(Snap(ctx)), e, Snap(ctx))
    ensures ctx.encKey == old(ctx.encKey) && ctx.decKey == old(ctx.decKey) && ctx.padKey == old(ctx.padKey)
  {
    var req := Place(e.src, e.dst, e.inPlace, e.info, e.n);
    ghost var before := ctx.foot;
    assert req.src[..e.n] == if e.inPlace then e.dst[..e.n] else e.src[..e.n];
    var _ := ctx.CbcSubmit(req, e.encrypt, e.memory);
    assert forall o <- ctx.foot - before :: o in {req.src, req.dst, req.info} || fresh(o);
  }

  /** One event. A completion can only come for a chunk the hardware holds. */
  method Perform(ctx: CbcContext, e: Event)
    requires ctx.Valid()
    modifies ctx.foot
    ensures ctx.Valid()
    ensures fresh(ctx.foot - old(ctx.foot))
    ensures Follows(SetupOf(ctx), old(Snap(ctx)), e, Snap(ctx))
    // Keys never change under an open request.
    ensures old(ctx.busy) ==>
      ctx.encKey == old(ctx.encKey) && ctx.decKey == old(ctx.decKey) && ctx.padKey == old(ctx.padKey)
  {
    match e {
      case Rekey(key, first, second, third) =>
        var _ := ctx.SetKey(key, first, second, third);
      case Submit(_, _, _, _, _, _, _) =>
        if e.n <= |e.src| && e.n <= |e.dst| {
          PerformSubmit(ctx, e);
        }
      case Complete(err) =>
        if ctx.inFlight != null {
          ctx.InnerDone(err);
        }
    }
  }

  /** What a valid context says about every request it ever accepted. */
  ghost predicate Settled(ctx: CbcContext)
    reads ctx, ctx.inFlight
  {
    && (forall id: nat | id < ctx.nextId ::
          (id in ctx.answers) != (ctx.inFlight != null && ctx.inFlight.id == id))
    && (forall id <- ctx.answers :: id < ctx.nextId && Truthful(ctx.device.cipher, ctx.answers[id]))
    && (forall id <- ctx.answers :: ctx.answers[id].byCallback == (id in ctx.deferred))
    && (!ctx.busy ==> ctx.inFlight == null && ctx.liveJobs == {} && ctx.liveSkbs == {})
    && (ctx.busy ==> ctx.inFlight != null && ctx.OneKey(ctx.inFlight.work.key))
  }

  lemma ValidIsSettled(ctx: CbcContext)
    requires ctx.Valid()
    ensures Settled(ctx)
  {
  }

  /** A run as the states between its events. */
  ghost predicate IsTrace(u: Setup, events: seq<Event>, trace: seq<Snapshot>) {
    && |trace| == |events| + 1
    && forall i | 0 <= i < |events| :: Follows(u, trace[i], events[i], trace[i + 1])
  }

  lemma TraceCons(u: Setup, events: seq<Event>, first: Snapshot, rest: seq<Snapshot>)
    requires events != [] && IsTrace(u, events[1..], rest) && Follows(u, first, events[0], rest[0])
    ensures IsTrace(u, events, [first] + rest)
  {
    var trace := [first] + rest;
    forall i | 0 <= i < |events| ensures Follows(u, trace[i], events[i], trace[i + 1]) {
      if i > 0 {
        assert trace[i] == rest[i - 1] && events[i] == events[1..][i - 1] && trace[i + 1] == rest[i];
      }
    }
  }

  method PerformAll(ctx: CbcContext, events: seq<Event>) returns (ghost trace: seq<Snapshot>)
    requires ctx.Valid()
    modifies ctx.foot
    ensures ctx.Valid() && fresh(ctx.foot - old(ctx.foot))
    ensures IsTrace(SetupOf(ctx), events, trace) && trace[0] == old(Snap(ctx)) && trace[|events|] == Snap(ctx)
    decreases |events|
  {
    ghost var first := Snap(ctx);
    if events == [] {
      trace := [first];
    } else {
      Perform(ctx, events[0]);
      trace := PerformAll(ctx, events[1..]);
      TraceCons(SetupOf(ctx), events, first, trace);
      trace := [first] + trace;
    }
  }

  /** Over every run: each accepted request is open or has exactly one answer, which is true and came
      by callback exactly if its submission said EINPROGRESS; an idle context owns no memory; and
      the open request's key is the one key of both transforms and of the padding cipher. The trace says
      what each event did. */
  method Drive(ctx: CbcContext, events: seq<Event>) returns (ghost trace: seq<Snapshot>)
    requires ctx.Valid()
    modifies ctx.foot
    ensures ctx.Valid() && Settled(ctx)
    ensures IsTrace(SetupOf(ctx), events, trace) && trace[0] == old(Snap(ctx)) && trace[|events|] == Snap(ctx)
    ensures Numbered(trace[0])
  {
    trace := PerformAll(ctx, events);
    ValidIsSettled(ctx);
  }

  /** Numbers are given once. */
  ghost predicate Numbered(s: Snapshot) {
    && (forall id <- s.answers :: id < s.nextId)
    && (s.open.Some? ==> s.open.value.id < s.nextId)
  }

  lemma {:induction false} StaysNumbered(u: Setup, events: seq<Event>, trace: seq<Snapshot>, i: nat)
    requires IsTrace(u, events, trace) && i <= |events| && Numbered(trace[0])
    ensures Numbered(trace[i])
  {
    if i > 0 {
      StaysNumbered(u, events, trace, i - 1);
      assert Follows(u, trace[i - 1], events[i - 1], trace[i]);
    }
  }

  /** The request is open, or answered for its own work. */
  ghost predicate Handled(id: nat, work: Work, dst0: seq<byte>, s: Snapshot) {
    if id in s.answers then s.answers[id].work == work && s.answers[id].dst0 == dst0
    else s.open.Some? && s.open.value.id == id && s.open.value.work == work && s.open.value.dst0 == dst0
  }

  lemma {:induction false} StaysHandled(u: Setup, events: seq<Event>, trace: seq<Snapshot>, id: nat, work: Work,
                                        dst0: seq<byte>, i: nat)
    requires IsTrace(u, events, trace) && i <= |events| && Handled(id, work, dst0, trace[i]) && id < trace[i].nextId
    ensures Handled(id, work, dst0, trace[|events|]) && Extends(trace[i].answers, trace[|events|].answers)
    decreases |events| - i
  {
    if i < |events| {
      assert Follows(u, trace[i], events[i], trace[i + 1]);
      NextHandled(u, trace[i], events[i], trace[i + 1], id, work, dst0);
      StaysHandled(u, events, trace, id, work, dst0, i + 1);
    }
  }

  lemma NextHandled(u: Setup, a: Snapshot, e: Event, b: Snapshot, id: nat, work: Work, dst0: seq<byte>)
    requires Follows(u, a, e, b) && Handled(id, work, dst0, a) && id < a.nextId
    ensures Handled(id, work, dst0, b) && id < b.nextId && Extends(a.answers, b.answers)
  {
  }

  /** Each submission that is accepted gets the next number, and from then on is open or answered for
      exactly what that submission asked, with the key in force then. */
  lemma {:induction false} AcceptedIsAnswered(u: Setup, events: seq<Event>, trace: seq<Snapshot>, i: nat)
    requires IsTrace(u, events, trace) && i < |events| && Accepts(trace[i], events[i]) && Numbered(trace[0])
    ensures trace[i + 1].nextId == trace[i].nextId + 1 && trace[i].nextId !in trace[i].answers
    ensures Handled(trace[i].nextId, WorkOf(trace[i], events[i]), events[i].dst, trace[|events|])
  {
    StaysNumbered(u, events, trace, i);
    assert Follows(u, trace[i], events[i], trace[i + 1]);
    StaysHandled(u, events, trace, trace[i].nextId, WorkOf(trace[i], events[i]), events[i].dst, i + 1);
  }

  /** Nothing else is numbered, and only rekeying changes whether there is a key. */
  lemma OnlyAcceptedCount(u: Setup, events: seq<Event>, trace: seq<Snapshot>, i: nat)
    requires IsTrace(u, events, trace) && i < |events|
    ensures trace[i + 1].nextId == trace[i].nextId + if Accepts(trace[i], events[i]) then 1 else 0
    ensures !events[i].Rekey? ==> trace[i + 1].keyed == trace[i].keyed && trace[i + 1].key == trace[i].key
    ensures events[i].Rekey? && trace[i].open.Some? ==> trace[i + 1] == trace[i]
  {
    assert Follows(u, trace[i], events[i], trace[i + 1]);
  }

  // ---------------------------------------------------------------- which code an answer has

  /** The bytes that the first `m` chunks of a request cover. */
  function Covered(native: bool, encrypt: bool, n: nat, m: nat): nat {
    if m == 0 then 0
    else
      var at := Covered(native, encrypt, n, m - 1);
      if at < n then at + NextChunk(native, encrypt, n - at) else at
  }

  /** Blocks of 16 bytes in mode-2 encryption, else pieces of 16000 bytes, as far as the request goes. */
  lemma {:induction false} CoveredIs(native: bool, encrypt: bool, n: nat, m: nat)
    requires n % 16 == 0
    ensures var all := if encrypt && !native then 16 * m else 16000 * m;
            Covered(native, encrypt, n, m) == if all < n then all else n
  {
    if m > 0 {
      CoveredIs(native, encrypt, n, m - 1);
    }
  }

  predicate AllGood(log: seq<Code>) {
    forall c <- log :: c == Success
  }

  /** What the results of a request's chunks, in order, say about its code and the bytes done: no chunk is
      submitted after one that failed or after the last one. */
  ghost predicate Tells(native: bool, encrypt: bool, n: nat, log: seq<Code>, code: Code, done: nat) {
    if code == Success then
      AllGood(log) && log != [] && Covered(native, encrypt, n, |log| - 1) < n <= Covered(native, encrypt, n, |log|)
      && done == Covered(native, encrypt, n, |log|)
    else if code == EINPROGRESS then
      AllGood(log) && done == Covered(native, encrypt, n, |log|) < n
    else
      log != [] && log[|log| - 1] == code && AllGood(log[..|log| - 1])
      && done == Covered(native, encrypt, n, |log| - 1) < n
  }

  /** The results of the chunks from `at` on that end at once. */
  function Results(u: Setup, encrypt: bool, n: nat, at: nat, t: nat): seq<Code>
    decreases if at < n then n - at else 0
  {
    if n <= at then []
    else
      var code := CodeAt(u.native, u.world, encrypt, t);
      if code == EINPROGRESS then []
      else if code != Success then [code]
      else [code] + Results(u, encrypt, n, at + NextChunk(u.native, encrypt, n - at), t + 1)
  }

  /** Going on from `at` after the results in `log`: what all results say about where that ends. */
  ghost predicate ToldFrom(u: Setup, encrypt: bool, n: nat, log: seq<Code>, at: nat, t: nat) {
    var c := Going(u.native, u.world, encrypt, n, at, t);
    Tells(u.native, encrypt, n, log + Results(u, encrypt, n, at, t), c.code, c.offset)
  }

  lemma {:induction false} GoingTells(u: Setup, encrypt: bool, n: nat, log: seq<Code>, t: nat)
    requires AllGood(log)
    requires if log == [] then 0 < n else Covered(u.native, encrypt, n, |log| - 1) < n
    ensures ToldFrom(u, encrypt, n, log, Covered(u.native, encrypt, n, |log|), t)
    decreases var at := Covered(u.native, encrypt, n, |log|); if at < n then n - at else 0
  {
    var at := Covered(u.native, encrypt, n, |log|);
    if n <= at || CodeAt(u.native, u.world, encrypt, t) != Success {
      Stopped(u, encrypt, n, log, t);
    } else {
      GoingTells(u, encrypt, n, log + [Success], t + 1);
      OneBack(u, encrypt, n, log, at, t);
    }
  }

  lemma {:induction false} Stopped(u: Setup, encrypt: bool, n: nat, log: seq<Code>, t: nat)
    requires AllGood(log) && if log == [] then 0 < n else Covered(u.native, encrypt, n, |log| - 1) < n
    requires n <= Covered(u.native, encrypt, n, |log|) || CodeAt(u.native, u.world, encrypt, t) != Success
    ensures ToldFrom(u, encrypt, n, log, Covered(u.native, encrypt, n, |log|), t)
  {
    var code := CodeAt(u.native, u.world, encrypt, t);
    assert log + [] == log && (log + [code])[..|log|] == log;
  }

  lemma {:induction false} OneBack(u: Setup, encrypt: bool, n: nat, log: seq<Code>, at: nat, t: nat)
    requires at < n && CodeAt(u.native, u.world, encrypt, t) == Success
    requires ToldFrom(u, encrypt, n, log + [Success], at + NextChunk(u.native, encrypt, n - at), t + 1)
    ensures ToldFrom(u, encrypt, n, log, at, t)
  {
    var more := Results(u, encrypt, n, at + NextChunk(u.native, encrypt, n - at), t + 1);
    assert log + ([Success] + more) == log + [Success] + more;
  }

  /** The result of a chunk that was left with the hardware, and of those submitted after it. */
  function Completion(u: Setup, encrypt: bool, n: nat, at: nat, t: nat, err: Code): seq<Code>
    requires at < n
  {
    [err] + if err == Success then Results(u, encrypt, n, at + NextChunk(u.native, encrypt, n - at), t) else []
  }

  ghost predicate ToldAfter(u: Setup, encrypt: bool, n: nat, log: seq<Code>, at: nat, t: nat, err: Code)
    requires at < n
  {
    var c := GoingOn(u.native, u.world, encrypt, n, at, t, err);
    Tells(u.native, encrypt, n, log + Completion(u, encrypt, n, at, t, err), c.code, c.offset)
  }

  lemma {:induction false} CompletionTells(u: Setup, encrypt: bool, n: nat, log: seq<Code>, at: nat, t: nat, err: Code)
    requires Tells(u.native, encrypt, n, log, EINPROGRESS, at) && err != EINPROGRESS
    ensures ToldAfter(u, encrypt, n, log, at, t, err)
  {
    if err == Success {
      GoingTells(u, encrypt, n, log + [Success], t);
      ChunkDone(u, encrypt, n, log, at, t);
    } else {
      ChunkFailed(u, encrypt, n, log, at, t, err);
    }
  }

  lemma {:induction false} ChunkDone(u: Setup, encrypt: bool, n: nat, log: seq<Code>, at: nat, t: nat)
    requires at < n && ToldFrom(u, encrypt, n, log + [Success], at + NextChunk(u.native, encrypt, n - at), t)
    ensures ToldAfter(u, encrypt, n, log, at, t, Success)
  {
    var more := Results(u, encrypt, n, at + NextChunk(u.native, encrypt, n - at), t);
    assert log + ([Success] + more) == log + [Success] + more;
  }

  lemma {:induction false} ChunkFailed(u: Setup, encrypt: bool, n: nat, log: seq<Code>, at: nat, t: nat, err: Code)
    requires Tells(u.native, encrypt, n, log, EINPROGRESS, at) && err != EINPROGRESS && err != Success
    ensures ToldAfter(u, encrypt, n, log, at, t, err)
  {
    assert log + ([err] + []) == log + [err] && (log + [err])[..|log|] == log;
  }

  /** The results that one event brings to the request which is open, or which it submits. */
  function ResultsOf(u: Setup, a: Snapshot, e: Event): seq<Code> {
    match e
    case Rekey(_, _, _, _) => []
    case Submit(_, _, _, _, _, _, _) => Results(u, e.encrypt, e.n, 0, a.tick)
    case Complete(err) =>
      if a.open.None? || err == EINPROGRESS then []
      else
        var o, n := a.open.value, |a.open.value.work.input|;
        if o.offset < n then Completion(u, o.work.encrypt, n, o.offset, a.tick, err) else []
  }

  /** All results for the request that event `i` submitted, up to state `k`. */
  function Log(u: Setup, events: seq<Event>, trace: seq<Snapshot>, i: nat, k: nat): seq<Code>
    requires i < k <= |events| && |trace| == |events| + 1
  {
    if k == i + 1 then ResultsOf(u, trace[i], events[i])
    else
      Log(u, events, trace, i, k - 1)
        + if events[k - 1].Complete? then ResultsOf(u, trace[k - 1], events[k - 1]) else []
  }

  /** Request `id` is still open with this log, or has just been answered as the log tells. */
  ghost predicate AsTold(u: Setup, encrypt: bool, n: nat, log: seq<Code>, id: nat, s: Snapshot) {
    if s.open.Some? then
      var o := s.open.value;
      o.id == id && |o.work.input| == n && o.work.encrypt == encrypt
      && Tells(u.native, encrypt, n, log, EINPROGRESS, o.offset)
    else
      id in s.answers && s.answers[id].code != EINPROGRESS
      && Tells(u.native, encrypt, n, log, s.answers[id].code, s.answers[id].done)
  }

  /** A request is answered with Success if and only if every chunk of it went well, at once or by callback,
      and then with exactly the chunks that cover it; else with the code of its first failing chunk, which
      is its last. `k` is the state with the answer, or any before it. */
  lemma {:induction false} AnswerSays(u: Setup, events: seq<Event>, trace: seq<Snapshot>, i: nat, k: nat)
    requires IsTrace(u, events, trace) && i < k <= |events| && Accepts(trace[i], events[i])
    requires forall m | i < m < k :: trace[m].open.Some?
    ensures AsTold(u, events[i].encrypt, events[i].n, Log(u, events, trace, i, k), trace[i].nextId, trace[k])
  {
    var e, n := events[i], events[i].n;
    assert Follows(u, trace[k - 1], events[k - 1], trace[k]);
    if k == i + 1 {
      SubmissionTold(u, trace[i], e, trace[k]);
    } else {
      AnswerSays(u, events, trace, i, k - 1);
      ToldOn(u, e.encrypt, n, Log(u, events, trace, i, k - 1), trace[i].nextId, trace[k - 1], events[k - 1], trace[k]);
    }
  }

  lemma {:induction false} SubmissionTold(u: Setup, a: Snapshot, e: Event, b: Snapshot)
    requires Accepts(a, e) && Submits(u, a, e, b)
    ensures AsTold(u, e.encrypt, e.n, ResultsOf(u, a, e), a.nextId, b)
  {
    GoingTells(u, e.encrypt, e.n, [], a.tick);
    assert [] + Results(u, e.encrypt, e.n, 0, a.tick) == ResultsOf(u, a, e);
    assert |WorkOf(a, e).input| == e.n;
  }

  /** One event under an open request. */
  lemma {:induction false} ToldOn(u: Setup, encrypt: bool, n: nat, log: seq<Code>, id: nat, a: Snapshot, e: Event,
                                  b: Snapshot)
    requires AsTold(u, encrypt, n, log, id, a) && a.open.Some? && Follows(u, a, e, b)
    ensures AsTold(u, encrypt, n, log + if e.Complete? then ResultsOf(u, a, e) else [], id, b)
  {
    if e.Complete? && e.err != EINPROGRESS {
      CompletionTells(u, encrypt, n, log, a.open.value.offset, a.tick, e.err);
    } else {
      assert log + [] == log;
    }
  }

  /** With memory for every chunk, no failing hash and a hardware that is done at once, every accepted request
      is answered with Success by its own submission. */
  lemma {:induction false} SmoothSuccess(u: Setup, events: seq<Event>, trace: seq<Snapshot>, i: nat)
    requires IsTrace(u, events, trace) && i < |events| && Accepts(trace[i], events[i])
    requires forall t: nat :: u.world(t).skb && u.world(t).hmac == None && u.world(t).hardware == Success
    ensures trace[i].nextId in trace[i + 1].answers && trace[i + 1].open == None
    ensures trace[i + 1].answers[trace[i].nextId].code == Success
    ensures trace[i + 1].answers[trace[i].nextId].done == events[i].n
    ensures !trace[i + 1].answers[trace[i].nextId].byCallback
  {
    assert Follows(u, trace[i], events[i], trace[i + 1]);
    var e := events[i];
    SmoothCourse(u, e.encrypt, e.n, 0, trace[i].tick);
    AnswerSays(u, events, trace, i, i + 1);
    CoveredIs(u.native, e.encrypt, e.n, |Log(u, events, trace, i, i + 1)|);
  }

  lemma {:induction false} SmoothCourse(u: Setup, encrypt: bool, n: nat, at: nat, t: nat)
    requires forall t: nat :: u.world(t).skb && u.world(t).hmac == None && u.world(t).hardware == Success
    ensures Going(u.native, u.world, encrypt, n, at, t).code == Success
    decreases if at < n then n - at else 0
  {
    if at < n {
      assert CodeAt(u.native, u.world, encrypt, t) == Success;
      SmoothCourse(u, encrypt, n, at + NextChunk(u.native, encrypt, n - at), t + 1);
    }
  }

  /** As long as the hardware keeps completing chunks, the open request is answered: the part not
      yet processed shrinks with every completion. */
  method Settle(ctx: CbcContext, completion: nat -> Code)
    requires ctx.Valid()
    requires forall i :: completion(i) != EINPROGRESS
    modifies ctx.foot
    ensures ctx.Valid() && !ctx.busy && ctx.nextId == old(ctx.nextId)
    ensures forall id: nat :: id in ctx.answers <==> id < ctx.nextId
  {
    ghost var j := ctx.inFlight;
    var i := 0;
    while ctx.inFlight != null
      invariant ctx.Valid() && ctx.nextId == old(ctx.nextId)
      invariant fresh(ctx.foot - old(ctx.foot))
      invariant ctx.inFlight == null || ctx.inFlight == j
      decreases ctx.inFlight != null,
                if ctx.inFlight == null then 0 else ctx.inFlight.outer.nbytes - ctx.inFlight.offset
    {
      ctx.InnerDone(completion(i));
      i := i + 1;
    }
  }

  // ---------------------------------------------------------------- what true answers mean

  /** Byte by byte, on everything that was done: plaintext is the deciphered byte xor the ciphertext byte one
      block before, and ciphertext deciphers to the plaintext byte xor the ciphertext byte one block before; for
      the first block the byte of the initial value. */
  lemma {:induction false} AnswerBytes(c: Cipher, a: Answer, n: nat, i: nat)
    requires Truthful(c, a) && Blocks(n) && n + 16 <= a.done && i < 16
    ensures a.done <= |a.work.input| <= |a.dst| == |a.dst0| && (n > 0 ==> n >= 16)
    ensures !a.work.encrypt ==>
      a.dst[n + i] == c.dec(a.work.key, a.work.input[n..n + 16])[i]
                      ^ (if n == 0 then a.work.iv[i] else a.work.input[n - 16 + i])
    ensures a.work.encrypt && c.Invertible() ==>
      c.dec(a.work.key, a.dst[n..n + 16])[i] == a.work.input[n + i]
                                                ^ (if n == 0 then a.work.iv[i] else a.dst[n - 16 + i])
  {
    var w := a.work;
    if w.encrypt {
      var x := EncBytes(c, w.key, w.iv, w.input, n);
      assert a.dst[n..n + 16] == CbcEnc(c, w.key, w.iv, w.input)[n..n + 16];
    } else {
      DecBytes(c, w.key, w.iv, w.input, n, i);
    }
  }

  /** What is left: nothing is written beyond what was done, and the initial value is replaced by the last
      ciphertext block exactly on success. */
  lemma {:induction false} AnswerRest(c: Cipher, a: Answer)
    requires Truthful(c, a)
    ensures a.code != EINPROGRESS && a.done % 16 == 0 && (a.code == Success <==> a.done == |a.work.input|)
    ensures |a.dst| == |a.dst0| && a.done <= |a.dst| && a.dst[a.done..] == a.dst0[a.done..]
    ensures a.code != Success ==> a.info == a.work.iv
    ensures a.code == Success && a.work.input != [] ==>
      var n := |a.work.input|;
      n >= 16 && a.info == if a.work.encrypt then a.dst[n - 16..n] else a.work.input[n - 16..n]
  {
    BlocksIff(a.done);
  }

  /** Mode, chunk boundaries, completion order and sharing of buffers leave no trace: two successful
      answers to the same work agree on every byte. */
  lemma AnswersAgree(c: Cipher, a: Answer, b: Answer)
    requires Truthful(c, a) && Truthful(c, b) && a.code == Success && b.code == Success
    requires a.work == b.work
    ensures a.dst[..|a.work.input|] == b.dst[..|a.work.input|] && a.info == b.info
  {
  }

  /** Whatever was encrypted, in either mode and in place or not, is decrypted back by either mode. */
  lemma {:induction false} RoundTrip(c: Cipher, e: Answer, d: Answer)
    requires c.Invertible()
    requires Truthful(c, e) && Truthful(c, d) && e.code == Success && d.code == Success
    requires e.work.encrypt && !d.work.encrypt && e.work.key == d.work.key && e.work.iv == d.work.iv
    requires d.work.input == e.dst[..|e.work.input|]
    ensures d.dst[..|d.work.input|] == e.work.input
    ensures d.info == e.info
  {
    OutputLength(c, e.work);
    DecryptInvertsEncrypt(c, e.work.key, e.work.iv, e.work.input);
  }

  /** The initial value a request leaves behind lets the next one carry on as if both were one. */
  lemma {:induction false} InfoChains(c: Cipher, a: Answer, b: Answer)
    requires Truthful(c, a) && Truthful(c, b) && a.code == Success && b.code == Success
    requires a.work.encrypt == b.work.encrypt && a.work.key == b.work.key && b.work.iv == a.info
    ensures a.dst[..|a.work.input|] + b.dst[..|b.work.input|]
         == Output(c, a.work.(input := a.work.input + b.work.input))
  {
    var k, iv, p, q := a.work.key, a.work.iv, a.work.input, b.work.input;
    OutputLength(c, a.work);
    OutputLength(c, b.work);
    if a.work.encrypt {
      CbcEncSplit(c, k, iv, p, q);
    } else {
      CbcDecSplit(c, k, iv, p, q);
    }
  }
}
