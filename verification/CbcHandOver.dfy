/** Who may touch a job of experiments/spu-cbc/spu_cbc_lab.c, step by step: the submitting thread, the
    completion callbacks, which may run before the submission has returned, and the hardware. */
module CbcHandOver {
  import opened Wrappers
  import opened CbcEngine

  type Thread = nat

  /** Where a thread is in the loop that submission and callback share. */
  datatype Pc =
    | Submitting              // about to build and hand over the next chunk
    | Checking(err: Code)     // looks at what that returned
    | Consuming(err: Code)    // about to consume a finished chunk
    | Testing                 // is there more to do?
    | Finishing(err: Code)    // about to answer the request and free the job
    | Gone(err: Code)         // has returned

  datatype Holder = Software(thread: Thread) | Hardware | Freed

  /** Thread 0 submits; the others are callbacks, numbered as they come. */
  datatype State = State(holder: Holder, threads: seq<Pc>, answeredBy: Option<Thread>)

  datatype Action =
    | HandOver(i: Thread, err: Code)    // one chunk submission and its code
    | Check(i: Thread)                  // EINPROGRESS: return at once
    | Consume(i: Thread)
    | Test(i: Thread, more: bool)
    | Finish(i: Thread)
    | Completion(err: Code)             // the hardware calls back, done with the chunk
    | Notice                            // or only to say that it has started on it

  const INIT := State(Software(0), [Submitting], None)

  predicate Enabled(s: State, a: Action) {
    match a
    case HandOver(i, err) => i < |s.threads| && s.threads[i].Submitting?
    case Check(i) => i < |s.threads| && s.threads[i].Checking?
    case Consume(i) => i < |s.threads| && s.threads[i].Consuming?
    case Test(i, _) => i < |s.threads| && s.threads[i].Testing?
    case Finish(i) => i < |s.threads| && s.threads[i].Finishing?
    case Completion(err) => s.holder.Hardware? && err != EINPROGRESS
    case Notice => s.holder.Hardware?
  }

  function Apply(s: State, a: Action): State
    requires Enabled(s, a)
  {
    match a
    case HandOver(i, err) =>
      s.(threads := s.threads[i := Checking(err)], holder := if err == EINPROGRESS then Hardware else s.holder)
    case Check(i) =>
      var err := s.threads[i].err;
      s.(threads := s.threads[i := if err == EINPROGRESS then Gone(err) else Consuming(err)])
    case Consume(i) =>
      var err := s.threads[i].err;
      s.(threads := s.threads[i := if err == Success then Testing else Finishing(err)])
    case Test(i, more) => s.(threads := s.threads[i := if more then Submitting else Finishing(Success)])
    case Finish(i) =>
      s.(threads := s.threads[i := Gone(s.threads[i].err)], holder := Freed, answeredBy := Some(i))
    case Completion(err) =>
      s.(threads := s.threads + [Consuming(err)], holder := Software(|s.threads|))
    case Notice => s.(threads := s.threads + [Gone(EINPROGRESS)])
  }

  ghost predicate Steps(trace: seq<State>, run: seq<Action>) {
    && |trace| == |run| + 1 && trace[0] == INIT
    && forall k | 0 <= k < |run| :: Enabled(trace[k], run[k]) && trace[k + 1] == Apply(trace[k], run[k])
  }

  /** A thread that will still touch the job. */
  predicate Working(pc: Pc) {
    !pc.Gone? && pc != Checking(EINPROGRESS)
  }

  /** The thread that works is the holder; the submission says EINPROGRESS unless it answers itself. */
  ghost predicate Inv(s: State) {
    && |s.threads| > 0
    && (s.holder.Software? ==> s.holder.thread < |s.threads|)
    && (forall i | 0 <= i < |s.threads| :: Working(s.threads[i]) <==> s.holder == Software(i))
    && (forall i | 0 <= i < |s.threads| ::
          s.threads[i] != Consuming(EINPROGRESS) && s.threads[i] != Finishing(EINPROGRESS))
    && (s.holder.Freed? <==> s.answeredBy.Some?)
    && (s.answeredBy.Some? ==> s.answeredBy.value < |s.threads| && s.threads[s.answeredBy.value].Gone?
                               && s.threads[s.answeredBy.value].err != EINPROGRESS)
    && (forall i | 0 <= i < |s.threads| && s.threads[i].Gone? && s.threads[i].err != EINPROGRESS ::
          s.answeredBy == Some(i))
  }

  lemma InvStep(s: State, a: Action)
    requires Inv(s) && Enabled(s, a)
    ensures Inv(Apply(s, a))
  {
    var t := Apply(s, a);
    match a
    case HandOver(i, _) => assert s.holder == Software(i);
    case Check(i) => assert s.threads[i].err != EINPROGRESS ==> s.holder == Software(i);
    case Consume(i) => assert s.holder == Software(i);
    case Test(i, _) => assert s.holder == Software(i);
    case Finish(i) => assert s.holder == Software(i);
    case Completion(_) => assert forall i | 0 <= i < |s.threads| :: t.threads[i] == s.threads[i];
    case Notice => assert forall i | 0 <= i < |s.threads| :: t.threads[i] == s.threads[i];
  }

  lemma {:induction false} InvHolds(trace: seq<State>, run: seq<Action>, k: nat)
    requires Steps(trace, run) && k <= |run|
    ensures Inv(trace[k])
  {
    if k > 0 {
      InvHolds(trace, run, k - 1);
      InvStep(trace[k - 1], run[k - 1]);
    }
  }

  /** In every run whoever reads or writes the job or its frame holds it at that moment: no thread while the
      hardware has it, one thread at most at any time, and nobody after it was freed. (A check looks at a local
      variable only, and an error is passed on without a look at the job.) */
  lemma OnlyHolderTouches(trace: seq<State>, run: seq<Action>, k: nat)
    requires Steps(trace, run) && k < |run|
    ensures match run[k]
            case HandOver(i, _) => trace[k].holder == Software(i)
            case Consume(i) => trace[k].threads[i].err == Success ==> trace[k].holder == Software(i)
            case Test(i, _) => trace[k].holder == Software(i)
            case Finish(i) => trace[k].holder == Software(i)
            case Completion(_) => trace[k].holder == Hardware
            case Check(_) => true
            case Notice => true
  {
    InvHolds(trace, run, k);
  }

  /** The job is freed once, with the answer. */
  lemma AnsweredOnce(trace: seq<State>, run: seq<Action>, j: nat, k: nat)
    requires Steps(trace, run) && j < k < |run| && run[j].Finish?
    ensures !run[k].Finish?
    ensures trace[k].holder.Freed? && trace[k].answeredBy == Some(run[j].i)
    decreases k - j
  {
    if k > j + 1 {
      AnsweredOnce(trace, run, j, k - 1);
      InvHolds(trace, run, k - 1);
    }
    InvHolds(trace, run, k);
  }

  /** When no thread has anything left to do and the hardware does not have the job, it was answered. */
  lemma NothingLeaks(trace: seq<State>, run: seq<Action>, k: nat)
    requires Steps(trace, run) && k <= |run| && !trace[k].holder.Hardware?
    requires forall pc <- trace[k].threads :: pc.Gone?
    ensures trace[k].holder.Freed? && trace[k].answeredBy.Some?
  {
    InvHolds(trace, run, k);
    assert forall i | 0 <= i < |trace[k].threads| :: trace[k].threads[i] in trace[k].threads;
  }

  /** The caller of a submission that has returned is answered by callback exactly if it said EINPROGRESS. */
  lemma ByCallbackIff(trace: seq<State>, run: seq<Action>, k: nat)
    requires Steps(trace, run) && k <= |run| && trace[k].answeredBy.Some?
    ensures |trace[k].threads| > 0
    ensures trace[k].answeredBy == Some(0)
       <==> trace[k].threads[0].Gone? && trace[k].threads[0].err != EINPROGRESS
    ensures trace[k].answeredBy != Some(0)
       <==> trace[k].threads[0] == Checking(EINPROGRESS) || trace[k].threads[0] == Gone(EINPROGRESS)
  {
    InvHolds(trace, run, k);
  }

  /** The check must come first: a callback can answer the request and free the job while the submission is
      still looking at its EINPROGRESS. */
  lemma CallbackCanBeFaster() returns (trace: seq<State>, run: seq<Action>)
    ensures Steps(trace, run) && |trace[|run|].threads| > 0
    ensures trace[|run|].threads[0] == Checking(EINPROGRESS) && trace[|run|].holder.Freed?
  {
    run := [HandOver(0, EINPROGRESS), Completion(Success), Consume(1), Test(1, false), Finish(1)];
    trace := [
      INIT,
      State(Hardware, [Checking(EINPROGRESS)], None),
      State(Software(1), [Checking(EINPROGRESS), Consuming(Success)], None),
      State(Software(1), [Checking(EINPROGRESS), Testing], None),
      State(Software(1), [Checking(EINPROGRESS), Finishing(Success)], None),
      State(Freed, [Checking(EINPROGRESS), Gone(Success)], Some(1))
    ];
  }
}
