/** The order of two tests in a submission: experiments/spu-cbc/spu_cbc_lab.c reads `keyed` before it
    takes the busy flag, while rekeying clears `keyed` after taking it. Any number of submitters and of
    rekeyings, step by step. */
module CbcKeyRace {
  import opened Wrappers

  type Key = nat
  type Id = nat

  datatype State = State(busy: bool, keyed: bool, enc: Key, dec: Key, pad: Key,
                         tested: set<Id>, owner: Option<Id>, rekey: Option<Attempt>)

  /** A rekeying that has the busy flag: its key, and how many of the three transforms have taken it. */
  datatype Attempt = Attempt(key: Key, loaded: nat)

  datatype Action =
    | Test(id: Id)          // a submitter finds `keyed` set
    | Acquire(id: Id)       // and later takes the busy flag
    | GiveUp(id: Id)        // or finds it taken
    | TestAcquire(id: Id)   // both tests as one step, which the code does not have
    | Finish                // the request that has the flag is done
    | Start(key: Key)       // a rekeying takes the flag
    | Load                  // the next transform takes the key, the third publishes it
    | Fail                  // the next transform refuses it

  const INIT := State(false, false, 0, 0, 0, {}, None, None)

  predicate Enabled(s: State, a: Action) {
    match a
    case Test(i) => s.keyed
    case Acquire(i) => i in s.tested && !s.busy
    case GiveUp(i) => i in s.tested && s.busy
    case TestAcquire(i) => s.keyed && !s.busy
    case Finish => s.owner.Some?
    case Start(_) => !s.busy
    case Load => s.rekey.Some?
    case Fail => s.rekey.Some?
  }

  function Apply(s: State, a: Action): State {
    match a
    case Test(i) => s.(tested := s.tested + {i})
    case Acquire(i) => s.(busy := true, tested := s.tested - {i}, owner := Some(i))
    case GiveUp(i) => s.(tested := s.tested - {i})
    case TestAcquire(i) => s.(busy := true, owner := Some(i))
    case Finish => s.(busy := false, owner := None)
    case Start(k) => s.(busy := true, keyed := false, rekey := Some(Attempt(k, 0)))
    case Load =>
      if s.rekey.None? then s
      else
        var k, n := s.rekey.value.key, s.rekey.value.loaded;
        if n == 0 then s.(enc := k, rekey := Some(Attempt(k, 1)))
        else if n == 1 then s.(dec := k, rekey := Some(Attempt(k, 2)))
        else s.(pad := k, keyed := true, busy := false, rekey := None)
    case Fail => s.(busy := false, rekey := None)
  }

  function After(run: seq<Action>): State {
    if run == [] then INIT else Apply(After(run[..|run| - 1]), run[|run| - 1])
  }

  ghost predicate Possible(run: seq<Action>) {
    run == [] || (Possible(run[..|run| - 1]) && Enabled(After(run[..|run| - 1]), run[|run| - 1]))
  }

  /** The rekeyings that are over, with what each had loaded; three is a success. */
  function History(run: seq<Action>): seq<Attempt> {
    if run == [] then []
    else
      var front, s := History(run[..|run| - 1]), After(run[..|run| - 1]);
      match run[|run| - 1]
      case Load => if s.rekey.Some? && s.rekey.value.loaded >= 2 then front + [Attempt(s.rekey.value.key, 3)] else front
      case Fail => if s.rekey.Some? then front + [s.rekey.value] else front
      case _ => front
  }

  /** The key of the last rekeying that got as far as transform `n`. */
  function LastKey(h: seq<Attempt>, n: nat): Key {
    if h == [] then 0
    else if h[|h| - 1].loaded >= n then h[|h| - 1].key
    else LastKey(h[..|h| - 1], n)
  }

  function WithOpen(run: seq<Action>): seq<Attempt> {
    History(run) + if After(run).rekey.Some? then [After(run).rekey.value] else []
  }

  ghost predicate Succeeded(h: seq<Attempt>) {
    h != [] && h[|h| - 1].loaded == 3
  }

  /** What the chunks of a request see: the two runner transforms and the padding cipher. */
  predicate SameKey(s: State) {
    s.enc == s.dec == s.pad
  }

  ghost predicate Inv(run: seq<Action>) {
    var s, h := After(run), WithOpen(run);
    && s.enc == LastKey(h, 1) && s.dec == LastKey(h, 2) && s.pad == LastKey(h, 3)
    && (s.keyed <==> s.rekey.None? && Succeeded(History(run)))
    && (s.rekey.Some? ==> s.busy && s.owner.None? && s.rekey.value.loaded <= 2)
    && (s.owner.Some? ==> s.busy)
    && (s.busy ==> s.owner.Some? || s.rekey.Some?)
  }

  lemma LastKeyAppend(h: seq<Attempt>, a: Attempt)
    ensures forall n: nat :: LastKey(h + [a], n) == if a.loaded >= n then a.key else LastKey(h, n)
  {
    assert (h + [a])[..|h|] == h;
  }

  lemma {:induction false} InvHolds(run: seq<Action>)
    requires Possible(run)
    ensures Inv(run)
  {
    if run != [] {
      var front, a := run[..|run| - 1], run[|run| - 1];
      InvHolds(front);
      var s, h := After(front), History(front);
      if s.rekey.Some? {
        LastKeyAppend(h, s.rekey.value);
        LastKeyAppend(h, Attempt(s.rekey.value.key, s.rekey.value.loaded + 1));
      }
      if a.Start? {
        LastKeyAppend(h, Attempt(a.key, 0));
      }
      assert h + [] == h && History(run) + [] == History(run);
    }
  }

  /** When `keyed` holds: no rekeying is under way and the last one was a success. */
  lemma KeyedIff(run: seq<Action>)
    requires Possible(run)
    ensures After(run).keyed <==> After(run).rekey.None? && Succeeded(History(run))
  {
    InvHolds(run);
  }

  /** `keyed`, read again under the flag, is enough: one key, the one last published. */
  lemma KeyedIsShared(run: seq<Action>)
    requires Possible(run) && After(run).keyed
    ensures SameKey(After(run)) && Succeeded(History(run))
    ensures After(run).enc == History(run)[|History(run)| - 1].key
  {
    InvHolds(run);
    assert History(run) + [] == History(run);
  }

  /** While a request is open no step changes a key, so all its chunks see the same three keys. */
  lemma KeysStayWhileOwned(run: seq<Action>, a: Action)
    requires Possible(run) && Enabled(After(run), a) && After(run).owner.Some?
    ensures var s, t := After(run), Apply(After(run), a);
            t.enc == s.enc && t.dec == s.dec && t.pad == s.pad && (t.owner == s.owner || a.Finish?)
  {
    InvHolds(run);
  }

  /** In any run, an open request sees one key exactly if the last rekeying that loaded the encrypting
      transform, the last that loaded the decrypting one too and the last that succeeded had one key. */
  lemma SharedIff(run: seq<Action>)
    requires Possible(run) && After(run).owner.Some?
    ensures var h := History(run);
            SameKey(After(run)) <==> LastKey(h, 1) == LastKey(h, 2) == LastKey(h, 3)
  {
    InvHolds(run);
    assert History(run) + [] == History(run);
  }

  /** The last rekeying that changed any transform. */
  function LastEffective(h: seq<Attempt>): Option<Attempt> {
    if h == [] then None
    else if h[|h| - 1].loaded > 0 then Some(h[|h| - 1])
    else LastEffective(h[..|h| - 1])
  }

  ghost predicate FreshKeys(h: seq<Attempt>) {
    && (forall i, j | 0 <= i < j < |h| :: h[i].key != h[j].key)
    && (forall i | 0 <= i < |h| :: h[i].key != 0 && h[i].loaded <= 3)
  }

  /** If no key is used twice: exactly if the last rekeying that changed any transform went through. */
  lemma {:induction false} SharedIffFresh(run: seq<Action>)
    requires Possible(run) && After(run).owner.Some? && FreshKeys(History(run))
    ensures SameKey(After(run))
       <==> LastEffective(History(run)) == None || LastEffective(History(run)).value.loaded == 3
  {
    SharedIff(run);
    FreshLast(History(run));
  }

  lemma {:induction false} FreshLast(h: seq<Attempt>)
    requires FreshKeys(h)
    ensures LastKey(h, 1) == LastKey(h, 2) == LastKey(h, 3)
       <==> LastEffective(h) == None || LastEffective(h).value.loaded == 3
    ensures forall n: nat | n > 0 :: LastKey(h, n) == 0 || exists i :: 0 <= i < |h| && h[i].key == LastKey(h, n)
  {
    if h != [] {
      var front := h[..|h| - 1];
      FreshLast(front);
      assert forall i | 0 <= i < |front| :: front[i] == h[i];
      forall n: nat | n > 0
        ensures LastKey(h, n) == 0 || exists i :: 0 <= i < |h| && h[i].key == LastKey(h, n) {
        if h[|h| - 1].loaded >= n {
          assert h[|h| - 1].key == LastKey(h, n);
        } else if LastKey(front, n) != 0 {
          var i :| 0 <= i < |front| && front[i].key == LastKey(front, n);
          assert h[i].key == LastKey(h, n);
        }
      }
    }
  }

  ghost predicate TestsAtomic(run: seq<Action>) {
    forall a <- run :: !a.Acquire?
  }

  /** With both tests in one step, every open request runs under the one published key. */
  lemma {:induction false} AtomicTestsAreSafe(run: seq<Action>)
    requires Possible(run) && TestsAtomic(run) && After(run).owner.Some?
    ensures After(run).keyed && SameKey(After(run))
  {
    var front, a := run[..|run| - 1], run[|run| - 1];
    assert run == front + [a] && a in run;
    InvHolds(front);
    if After(front).owner.Some? {
      AtomicTestsAreSafe(front);
    }
    KeyedIsShared(run);
  }

  /** As written: two submitters have passed the test when a rekeying loads one transform and fails;
      both of them, one after the other, run under two different keys. */
  lemma SplitTestsCanFail() returns (run: seq<Action>)
    ensures Possible(run) && After(run).owner == Some(1) && run[|run| - 2] == Finish
    ensures After(run).enc != After(run).dec
    ensures After(run[..|run| - 2]).owner == Some(0) && After(run[..|run| - 2]).enc != After(run[..|run| - 2]).dec
  {
    var a := [Start(7), Load, Load, Load];
    var b := a + [Test(0), Test(1)];
    var c := b + [Start(8), Load, Fail];
    var d := c + [Acquire(0)];
    run := d + [Finish, Acquire(1)];
    assert Published(a) by { FourSteps(); }
    Extend(a, Test(0)); Extend(a + [Test(0)], Test(1));
    assert b == a + [Test(0)] + [Test(1)];
    Extend(b, Start(8)); Extend(b + [Start(8)], Load); Extend(b + [Start(8)] + [Load], Fail);
    assert c == b + [Start(8)] + [Load] + [Fail];
    Extend(c, Acquire(0));
    Extend(d, Finish); Extend(d + [Finish], Acquire(1));
    assert run == d + [Finish] + [Acquire(1)];
    assert run[..|run| - 2] == d;
  }

  /** And a failure before the first transform does no harm, although `keyed` is gone. */
  lemma EarlyFailureIsHarmless() returns (run: seq<Action>)
    ensures Possible(run) && After(run).owner == Some(0) && !After(run).keyed && SameKey(After(run))
  {
    var a := [Start(7), Load, Load, Load];
    FourSteps();
    Extend(a, Test(0));
    Extend(a + [Test(0)], Start(8)); Extend(a + [Test(0)] + [Start(8)], Fail);
    run := a + [Test(0)] + [Start(8)] + [Fail] + [Acquire(0)];
    Extend(a + [Test(0)] + [Start(8)] + [Fail], Acquire(0));
  }

  ghost predicate Published(run: seq<Action>) {
    Possible(run) && After(run) == State(false, true, 7, 7, 7, {}, None, None)
  }

  lemma FourSteps()
    ensures Published([Start(7), Load, Load, Load])
  {
    Extend([], Start(7));
    Extend([Start(7)], Load);
    Extend([Start(7)] + [Load], Load);
    Extend([Start(7)] + [Load] + [Load], Load);
    assert [] + [Start(7)] == [Start(7)];
    assert [Start(7)] + [Load] + [Load] + [Load] == [Start(7), Load, Load, Load];
  }

  lemma Extend(run: seq<Action>, a: Action)
    requires Possible(run) && Enabled(After(run), a)
    ensures Possible(run + [a]) && After(run + [a]) == Apply(After(run), a)
  {
    assert (run + [a])[..|run|] == run;
  }
}
