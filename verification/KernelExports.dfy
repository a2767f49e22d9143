/** kernel_exports in scripts/kernel_firmware.py: from the bytes of a kernel image find its load address
    and the names in its export tables. */
module KernelExports {
  import opened Wrappers
  import opened Bytes

  type Name = seq<byte>

  datatype Result = Exports(base: int, names: set<Name>, lengths: seq<nat>) | AmbiguousBase | AnchorsMissing

  const LOW := 0x8000_0000
  const HIGH := 0xffff_0000
  const PAGE := 4096
  const SLACK := 64 * 1024 * 1024
  const LONG := 128

  // ---------------------------------------------------------------- long runs of a table

  /** The stretch [a, b) of valid entries cannot be extended. */
  ghost predicate Maximal(entries: seq<Option<Name>>, a: int, b: int) {
    && 0 <= a < b <= |entries|
    && (forall i | a <= i < b :: entries[i].Some?)
    && (a == 0 || entries[a - 1].None?)
    && (b == |entries| || entries[b].None?)
  }

  ghost predicate LongRun(entries: seq<Option<Name>>, a: int, b: int) {
    Maximal(entries, a, b) && b - a >= LONG
  }

  ghost predicate NamesOf(entries: seq<Option<Name>>, a: int, b: int, run: seq<Name>) {
    0 <= a <= b <= |entries| && |run| == b - a && forall i | 0 <= i < |run| :: entries[a + i] == Some(run[i])
  }

  /** The runs, in order, and the spans they have. */
  ghost predicate AreRuns(entries: seq<Option<Name>>, runs: seq<seq<Name>>, spans: seq<(nat, nat)>) {
    && |runs| == |spans|
    && (forall k | 0 <= k < |spans| ::
          LongRun(entries, spans[k].0, spans[k].1) && NamesOf(entries, spans[k].0, spans[k].1, runs[k]))
    && (forall j, k | 0 <= j < k < |spans| :: spans[j].1 < spans[k].0)
  }

  /** Collects every stretch of at least 128 valid entries that cannot be extended. */
  method CollectRuns(entries: seq<Option<Name>>) returns (runs: seq<seq<Name>>, ghost spans: seq<(nat, nat)>)
    ensures AreRuns(entries, runs, spans)
    ensures forall a, b | LongRun(entries, a, b) :: (a, b) in spans
  {
    runs, spans := [], [];
    var run: seq<Name> := [];
    for i := 0 to |entries|
      invariant |run| <= i && NamesOf(entries, i - |run|, i, run)
      invariant i == |run| || entries[i - |run| - 1].None?
      invariant AreRuns(entries, runs, spans) && forall s <- spans :: s.1 < i - |run|
      invariant forall a, b | LongRun(entries, a, b) && b < i - |run| :: (a, b) in spans
    {
      if entries[i].Some? {
        run := run + [entries[i].value];
      } else {
        RunEnds(entries, i, run);
        if |run| >= LONG {
          runs, spans := runs + [run], spans + [(i - |run|, i)];
        }
        run := [];
      }
    }
    RunEnds(entries, |entries|, run);
    if |run| >= LONG {
      runs, spans := runs + [run], spans + [(|entries| - |run|, |entries|)];
    }
  }

  /** With the names that are in them. */
  method ScanRuns(entries: seq<Option<Name>>) returns (runs: seq<seq<Name>>, ghost spans: seq<(nat, nat)>)
    ensures AreRuns(entries, runs, spans)
    ensures forall a, b | LongRun(entries, a, b) :: (a, b) in spans
    ensures forall run <- runs :: |run| >= LONG
    ensures forall name :: (exists k :: 0 <= k < |runs| && name in runs[k]) <==> InLongStretch(entries, name)
  {
    runs, spans := CollectRuns(entries);
    forall name ensures (exists k :: 0 <= k < |runs| && name in runs[k]) <==> InLongStretch(entries, name) {
      CollectedIff(entries, runs, spans, name);
    }
  }

  /** What ends where the current run ends is the current run. */
  lemma RunEnds(entries: seq<Option<Name>>, i: nat, run: seq<Name>)
    requires |run| <= i <= |entries| && NamesOf(entries, i - |run|, i, run)
    requires (i == |run| || entries[i - |run| - 1].None?) && (i == |entries| || entries[i].None?)
    ensures |run| >= LONG ==> LongRun(entries, i - |run|, i)
    ensures forall a, b | LongRun(entries, a, b) && i - |run| <= b <= i :: |run| >= LONG && a == i - |run| && b == i
  {
    var start := i - |run|;
    forall k | start <= k < i ensures entries[k].Some? {
      assert entries[start + (k - start)] == Some(run[k - start]);
    }
    forall a, b | LongRun(entries, a, b) && start <= b <= i ensures |run| >= LONG && a == start && b == i {
    }
  }

  /** A name lies in some stretch of 128 consecutive valid entries. */
  ghost predicate InLongStretch(entries: seq<Option<Name>>, name: Name) {
    exists a :: 0 <= a && a + LONG <= |entries| && AllValid(entries, a, a + LONG) && Occurs(entries, a, name)
  }

  ghost predicate Occurs(entries: seq<Option<Name>>, a: int, name: Name)
    requires 0 <= a && a + LONG <= |entries|
  {
    exists j :: a <= j < a + LONG && entries[j] == Some(name)
  }

  ghost predicate AllValid(entries: seq<Option<Name>>, a: int, b: int)
    requires 0 <= a <= b <= |entries|
  {
    forall i | a <= i < b :: entries[i].Some?
  }

  /** Every valid stretch lies in one that cannot be extended. */
  lemma {:induction false} Extend(entries: seq<Option<Name>>, a: nat, b: nat) returns (c: nat, d: nat)
    requires a < b <= |entries| && AllValid(entries, a, b)
    ensures c <= a && b <= d && Maximal(entries, c, d)
    decreases a + |entries| - b
  {
    if a > 0 && entries[a - 1].Some? {
      c, d := Extend(entries, a - 1, b);
    } else if b < |entries| && entries[b].Some? {
      c, d := Extend(entries, a, b + 1);
    } else {
      c, d := a, b;
    }
  }

  lemma CollectedIff(entries: seq<Option<Name>>, runs: seq<seq<Name>>, spans: seq<(nat, nat)>, name: Name)
    requires AreRuns(entries, runs, spans) && forall a, b | LongRun(entries, a, b) :: (a, b) in spans
    ensures (exists k :: 0 <= k < |runs| && name in runs[k]) <==> InLongStretch(entries, name)
  {
    if k :| 0 <= k < |runs| && name in runs[k] {
      RunIsStretch(entries, runs[k], spans[k].0, spans[k].1, name);
    }
    if InLongStretch(entries, name) {
      var a :| 0 <= a && a + LONG <= |entries| && AllValid(entries, a, a + LONG) && Occurs(entries, a, name);
      var j :| a <= j < a + LONG && entries[j] == Some(name);
      var c, d := Extend(entries, a, a + LONG);
      assert LongRun(entries, c, d);
      var k :| 0 <= k < |spans| && spans[k] == (c, d);
      assert entries[c + (j - c)] == Some(runs[k][j - c]);
      assert name in runs[k];
    }
  }

  lemma RunIsStretch(entries: seq<Option<Name>>, run: seq<Name>, a: int, b: int, name: Name)
    requires LongRun(entries, a, b) && NamesOf(entries, a, b, run) && name in run
    ensures InLongStretch(entries, name)
  {
    var i :| 0 <= i < |run| && run[i] == name;
    assert entries[a + i] == Some(name);
    var from := if a + i + LONG <= b then a + i else b - LONG;
    assert AllValid(entries, from, from + LONG) && Occurs(entries, from, name);
  }

  // ---------------------------------------------------------------- searching the image

  type Data = seq<byte>

  ghost predicate OccursAt(data: Data, pattern: Data, i: int) {
    0 <= i && i + |pattern| <= |data| && data[i..i + |pattern|] == pattern
  }

  /** The first occurrence at or after `from`, or -1. */
  function Find(data: Data, pattern: Data, from: nat): (i: int)
    ensures i == -1 || (from <= i && i + |pattern| <= |data|)
    decreases |data| - from
  {
    if |data| < from + |pattern| then -1
    else if data[from..from + |pattern|] == pattern then from
    else Find(data, pattern, from + 1)
  }

  lemma {:induction false} FindIsFirst(data: Data, pattern: Data, from: nat)
    ensures var i := Find(data, pattern, from);
            && (i >= 0 ==> OccursAt(data, pattern, i))
            && (forall k | from <= k && OccursAt(data, pattern, k) :: 0 <= i <= k)
    decreases |data| - from
  {
    if from + |pattern| <= |data| && data[from..from + |pattern|] != pattern {
      FindIsFirst(data, pattern, from + 1);
    }
  }

  /** Where the anchor strings are, as far as the search finds them: it goes on behind each one. */
  function Positions(data: Data, pattern: Data, cursor: nat): seq<int>
    requires pattern != []
    decreases |data| - cursor
  {
    var i := Find(data, pattern, cursor);
    if i < 0 then [] else [i + 1] + Positions(data, pattern, i + |pattern|)
  }

  method ScanPositions(data: Data, pattern: Data) returns (positions: seq<int>)
    requires pattern != []
    ensures positions == Positions(data, pattern, 0)
  {
    positions := [];
    var cursor := 0;
    ghost var all := Positions(data, pattern, 0);
    assert [] + all == all;
    while true
      invariant positions + Positions(data, pattern, cursor) == all
      decreases |data| - cursor
    {
      var i := Find(data, pattern, cursor);
      if i < 0 {
        assert positions + [] == positions;
        return;
      }
      OneMorePosition(data, pattern, positions, cursor, i);
      positions, cursor := positions + [i + 1], i + |pattern|;
    }
  }

  lemma OneMorePosition(data: Data, pattern: Data, before: seq<int>, cursor: nat, i: nat)
    requires pattern != [] && i == Find(data, pattern, cursor)
    ensures before + Positions(data, pattern, cursor) == before + [i + 1] + Positions(data, pattern, i + |pattern|)
  {
    Regroup(before, i + 1, Positions(data, pattern, i + |pattern|));
  }

  lemma Regroup(a: seq<int>, x: int, b: seq<int>)
    ensures a + ([x] + b) == (a + [x]) + b
  {
  }

  lemma {:induction false} PositionsOccur(data: Data, pattern: Data, cursor: nat, p: int)
    requires pattern != [] && p in Positions(data, pattern, cursor)
    ensures p > cursor && OccursAt(data, pattern, p - 1)
    decreases |data| - cursor
  {
    var i := Find(data, pattern, cursor);
    FindIsFirst(data, pattern, cursor);
    if p != i + 1 {
      PositionsOccur(data, pattern, i + |pattern|, p);
    }
  }

  lemma {:induction false} PositionsApart(data: Data, pattern: Data, cursor: nat, p: int, q: int)
    requires pattern != [] && p in Positions(data, pattern, cursor) && q in Positions(data, pattern, cursor) && p < q
    ensures q - p >= |pattern|
    decreases |data| - cursor
  {
    var i := Find(data, pattern, cursor);
    var rest := Positions(data, pattern, i + |pattern|);
    if p == i + 1 {
      PositionsOccur(data, pattern, i + |pattern|, q);
    } else {
      if q == i + 1 {
        PositionsOccur(data, pattern, i + |pattern|, p);
      } else {
        PositionsApart(data, pattern, i + |pattern|, p, q);
      }
    }
  }

  /** An anchor name between two zero bytes. */
  function Pattern(anchor: Name): Data {
    [0] + anchor + [0]
  }

  ghost predicate SharedZero(data: Data, anchor: Name, i: int) {
    OccursAt(data, Pattern(anchor), i) && OccursAt(data, Pattern(anchor), i + |anchor| + 1)
  }

  /** Two occurrences of an anchor overlap only in the zero byte between them. */
  lemma OverlapIsShared(data: Data, anchor: Name, i: int, k: int)
    requires 0 !in anchor && i < k < i + |anchor| + 2
    requires OccursAt(data, Pattern(anchor), i) && OccursAt(data, Pattern(anchor), k)
    ensures k == i + |anchor| + 1
  {
    var pattern := Pattern(anchor);
    assert data[k] == data[k..k + |pattern|][0] == 0;
    assert data[k] == data[i..i + |pattern|][k - i] == pattern[k - i];
    assert forall d | 1 <= d <= |anchor| :: pattern[d] in anchor;
  }

  /** An occurrence that is not found shares its zero byte with the one before. */
  lemma {:induction false} FoundOrShared(data: Data, anchor: Name, cursor: nat, k: int)
    requires 0 !in anchor && OccursAt(data, Pattern(anchor), k) && cursor <= k
    ensures k + 1 in Positions(data, Pattern(anchor), cursor) || SharedZero(data, anchor, k - |anchor| - 1)
    decreases |data| - cursor
  {
    var i := Find(data, Pattern(anchor), cursor);
    FindIsFirst(data, Pattern(anchor), cursor);
    if k != i {
      if k < i + |anchor| + 2 {
        OverlapIsShared(data, anchor, i, k);
      } else {
        FoundOrShared(data, anchor, i + |anchor| + 2, k);
      }
    }
  }

  /** The search finds every occurrence of an anchor if and only if no two share their zero byte. */
  lemma AllFoundIff(data: Data, anchor: Name)
    requires 0 !in anchor
    ensures (forall k | OccursAt(data, Pattern(anchor), k) :: k + 1 in Positions(data, Pattern(anchor), 0))
       <==> forall i :: !SharedZero(data, anchor, i)
  {
    if forall i :: !SharedZero(data, anchor, i) {
      forall k | OccursAt(data, Pattern(anchor), k) ensures k + 1 in Positions(data, Pattern(anchor), 0) {
        FoundOrShared(data, anchor, 0, k);
      }
    }
    if i :| SharedZero(data, anchor, i) {
      OneMissed(data, anchor, i);
    }
  }

  lemma OneMissed(data: Data, anchor: Name, i: int)
    requires SharedZero(data, anchor, i)
    ensures exists k :: OccursAt(data, Pattern(anchor), k) && k + 1 !in Positions(data, Pattern(anchor), 0)
  {
    var j := i + |anchor| + 1;
    NotBoth(data, Pattern(anchor), 0, i + 1, j + 1);
    assert OccursAt(data, Pattern(anchor), i) && OccursAt(data, Pattern(anchor), j);
  }

  /** "kfree" twice around one zero byte: the second is not found. */
  lemma SecondNotFound()
    ensures var data := [0] + KFREE + [0] + KFREE + [0];
            OccursAt(data, Pattern(KFREE), 6) && 7 !in Positions(data, Pattern(KFREE), 0)
  {
    var data := [0] + KFREE + [0] + KFREE + [0];
    var pattern := Pattern(KFREE);
    assert data[0..7] == pattern && data[6..13] == pattern;
    assert OccursAt(data, pattern, 0);
    FindIsFirst(data, pattern, 0);
    assert 1 in Positions(data, pattern, 0);
    NotBoth(data, pattern, 0, 1, 7);
  }

  lemma NotBoth(data: Data, pattern: Data, cursor: nat, p: int, q: int)
    requires pattern != [] && p < q < p + |pattern|
    ensures !(p in Positions(data, pattern, cursor) && q in Positions(data, pattern, cursor))
  {
    if p in Positions(data, pattern, cursor) && q in Positions(data, pattern, cursor) {
      PositionsApart(data, pattern, cursor, p, q);
    }
  }

  // ---------------------------------------------------------------- the load address

  const KFREE: Name := [107, 102, 114, 101, 101]
  const PRINTK: Name := [112, 114, 105, 110, 116, 107]
  const KMALLOC: Name := [95, 95, 107, 109, 97, 108, 108, 111, 99]
  const SCHEDULE: Name := [115, 99, 104, 101, 100, 117, 108, 101]
  const ANCHORS: seq<Name> := [KFREE, PRINTK, KMALLOC, SCHEDULE]

  function Word(data: Data, i: nat): nat
    requires i + 4 <= |data|
  {
    (data[i] as nat) + 0x100 * (data[i + 1] as nat)
     
      + 0x1_0000 * (data[i + 2] as nat) + 0x100_0000 * (data[i + 3] as nat)
  }

  /** The image as little-endian 32-bit words; up to three bytes at its end are left over. */
  function Words(data: Data): seq<int> {
    seq(|data| / 4, i requires 0 <= i < |data| / 4 => Word(data, 4 * i))
  }

  predicate Plausible(base: int) {
    LOW <= base <= HIGH && base % PAGE == 0
  }

  function Bases(words: seq<int>, positions: seq<int>): set<int> {
    set w, p | w in words && p in positions && Plausible(w - p) :: w - p
  }

  function BasesOf(data: Data, anchor: Name): set<int> {
    Bases(Words(data), Positions(data, Pattern(anchor), 0))
  }

  /** Some word of the image is the address that an occurrence of the anchor has under this base. */
  ghost predicate Consistent(data: Data, anchor: Name, base: int) {
    Plausible(base) && exists i :: OccursAt(data, Pattern(anchor), i) && base + i + 1 in Words(data)
  }

  ghost predicate AllConsistent(data: Data, base: int) {
    forall a <- ANCHORS :: Consistent(data, a, base)
  }

  ghost predicate Common(data: Data, base: int) {
    forall a <- ANCHORS :: base in BasesOf(data, a)
  }

  ghost predicate IsBase(data: Data, base: int) {
    Common(data, base) && forall b | Common(data, b) :: b == base
  }

  method FindBase(data: Data) returns (r: Option<int>)
    ensures r.Some? ==> IsBase(data, r.value)
    ensures r.None? ==> forall base :: !IsBase(data, base)
  {
    var candidates: set<int> := {};
    for k := 0 to |ANCHORS|
      invariant k > 0 ==> forall b :: b in candidates <==> forall j | 0 <= j < k :: b in BasesOf(data, ANCHORS[j])
    {
      var positions := ScanPositions(data, Pattern(ANCHORS[k]));
      var bases := Bases(Words(data), positions);
      candidates := if k == 0 then bases else candidates * bases;
    }
    assert forall b :: b in candidates <==> Common(data, b) by {
      assert forall a :: a in ANCHORS <==> exists j :: 0 <= j < |ANCHORS| && ANCHORS[j] == a;
    }
    SingletonIff(candidates);
    if |candidates| != 1 {
      assert forall base :: IsBase(data, base) ==> forall b <- candidates :: b == base;
      return None;
    }
    ghost var any := AnyOf(candidates);
    var b :| b in candidates;
    r := Some(b);
  }

  lemma AnyOf<T(!new)>(s: set<T>) returns (x: T)
    requires s != {}
    ensures x in s
  {
    x :| x in s;
  }

  lemma SingletonIff<T(!new)>(s: set<T>)
    ensures |s| == 1 <==> exists x :: x in s && forall y <- s :: y == x
    ensures |s| == 1 ==> exists x :: x in s
    ensures |s| == 1 ==> forall x <- s, y <- s :: x == y
  {
    if x :| x in s {
      var rest := s - {x};
      assert s == rest + {x};
      if y :| y in rest {
        assert y in s && y != x;
      } else {
        assert rest == {};
        assert s == {x};
      }
    } else {
      assert s == {};
    }
  }

  /** An occurrence the search does not find; it shares a zero byte with the one before. */
  ghost predicate Missed(data: Data, anchor: Name, i: int) {
    i + 1 !in Positions(data, Pattern(anchor), 0) && SharedZero(data, anchor, i - |anchor| - 1)
  }

  /** A base that some word gives together with such an occurrence. */
  ghost predicate FromMissed(data: Data, base: int) {
    Plausible(base) && exists a, i :: a in ANCHORS && Missed(data, a, i) && base + i + 1 in Words(data)
  }

  /** The base agrees with an occurrence of every anchor. Where no two occurrences of an anchor share a zero
      byte it is the only one that does. In general only bases that a missed occurrence gives need be looked
      at: it is the only one exactly if none of those agrees with every anchor. */
  lemma BaseIsConsistent(data: Data, base: int)
    requires IsBase(data, base)
    ensures AllConsistent(data, base)
    ensures (forall a, i | a in ANCHORS :: !SharedZero(data, a, i)) ==> forall b | AllConsistent(data, b) :: b == base
    ensures (forall b | AllConsistent(data, b) :: b == base)
       <==> forall b | FromMissed(data, b) && b != base :: !AllConsistent(data, b)
  {
    forall a | a in ANCHORS ensures Consistent(data, a, base) {
      FoundIsConsistent(data, a, base);
    }
    forall b | AllConsistent(data, b) && b != base ensures FromMissed(data, b) {
      OtherIsMissed(data, b);
    }
  }

  /** Whatever agrees with every anchor and is not common to what the search found comes from a missed one. */
  lemma OtherIsMissed(data: Data, b: int)
    requires AllConsistent(data, b) && !Common(data, b)
    ensures FromMissed(data, b) && exists a, i :: a in ANCHORS && SharedZero(data, a, i)
  {
    var a :| a in ANCHORS && b !in BasesOf(data, a);
    assert Consistent(data, a, b);
    var i := MissedOne(data, a, b);
    assert SharedZero(data, a, i - |a| - 1);
  }

  lemma {:induction false} MissedOne(data: Data, a: Name, b: int) returns (i: int)
    requires a in ANCHORS && Consistent(data, a, b) && b !in BasesOf(data, a)
    ensures Missed(data, a, i) && b + i + 1 in Words(data)
  {
    AnchorsHaveNoZero(a);
    i := OneOccurrence(data, a, b);
    InBases(Words(data), Positions(data, Pattern(a), 0), b, i + 1);
    FoundOrShared(data, a, 0, i);
  }

  lemma OneOccurrence(data: Data, a: Name, b: int) returns (i: nat)
    requires Consistent(data, a, b)
    ensures OccursAt(data, Pattern(a), i) && b + i + 1 in Words(data)
  {
    i :| OccursAt(data, Pattern(a), i) && b + i + 1 in Words(data);
  }

  lemma {:induction false} FoundIsConsistent(data: Data, a: Name, base: int)
    requires base in BasesOf(data, a)
    ensures Consistent(data, a, base)
  {
    var p := BaseFrom(Words(data), Positions(data, Pattern(a), 0), base);
    PositionsOccur(data, Pattern(a), 0, p);
    var i := p - 1;
    assert OccursAt(data, Pattern(a), i) && base + i + 1 == base + p;
  }

  lemma BaseFrom(words: seq<int>, positions: seq<int>, b: int) returns (p: int)
    requires b in Bases(words, positions)
    ensures Plausible(b) && p in positions && b + p in words
  {
    var w;
    w, p :| w in words && p in positions && Plausible(w - p) && b == w - p;
    assert b + p == w;
  }

  lemma InBases(words: seq<int>, positions: seq<int>, base: int, p: int)
    requires base + p in words && Plausible(base)
    ensures p in positions ==> base in Bases(words, positions)
  {
    var w := base + p;
    assert w - p == base;
  }

  lemma AnchorsHaveNoZero(a: Name)
    requires a in ANCHORS
    ensures 0 !in a
  {
  }

  // ---------------------------------------------------------------- the export tables

  predicate IsLetter(b: byte) {
    65 <= b <= 90 || 97 <= b <= 122 || b == 95
  }

  predicate IsName(name: Name) {
    1 <= |name| <= 151 && IsLetter(name[0]) && forall c <- name :: IsLetter(c) || 48 <= c <= 57
  }

  ghost predicate NoZero(data: Data, from: int, limit: int)
    requires 0 <= from <= limit <= |data|
  {
    forall k | from <= k < limit :: data[k] != 0
  }

  /** The first zero byte in [from, limit), or -1. */
  function FindZero(data: Data, from: nat, limit: nat): (i: int)
    requires from <= limit <= |data|
    ensures i == -1 || (from <= i < limit && data[i] == 0)
    ensures NoZero(data, from, if i < 0 then limit else i)
    decreases limit - from
  {
    if from >= limit then -1 else if data[from] == 0 then from else FindZero(data, from + 1, limit)
  }

  /** The name an address points at. */
  function Symbol(data: Data, base: int, address: int): Option<Name> {
    var pos := address - base;
    if !(0 <= pos < |data|) then None
    else
      var end := FindZero(data, pos, if pos + 160 < |data| then pos + 160 else |data|);
      if end < 0 || !IsName(data[pos..end]) then None else Some(data[pos..end])
  }

  /** That is the identifier that starts there and ends before a zero byte. */
  lemma SymbolIff(data: Data, base: int, address: int, name: Name)
    ensures Symbol(data, base, address) == Some(name)
       <==> IsName(name) && 0 <= address - base && address - base + |name| < |data|
            && data[address - base..address - base + |name|] == name && data[address - base + |name|] == 0
  {
    var pos := address - base;
    if IsName(name) && 0 <= pos && pos + |name| < |data| && data[pos..pos + |name|] == name && data[pos + |name|] == 0 {
      var end := FindZero(data, pos, if pos + 160 < |data| then pos + 160 else |data|);
      forall k | pos <= k < pos + |name| ensures data[k] != 0 {
        assert data[k] == name[k - pos];
        assert name[k - pos] in name;
      }
      assert end == pos + |name|;
    }
  }

  function EntryAt(data: Data, base: int, words: seq<int>, i: nat): Option<Name>
    requires i + 1 < |words|
  {
    if base <= words[i] < base + |data| + SLACK then Symbol(data, base, words[i + 1]) else None
  }

  /** The word pairs that start at even or at odd places. */
  function Entries(data: Data, base: int, parity: nat): seq<Option<Name>>
    requires parity < 2
  {
    var words := Words(data);
    var n := if |words| < parity then 0 else (|words| - parity) / 2;
    seq(n, j requires 0 <= j < n => EntryAt(data, base, words, parity + 2 * j))
  }

  /** A name in a table of at least 128 entries, at either parity. */
  ghost predicate InTable(data: Data, base: int, name: Name) {
    InLongStretch(Entries(data, base, 0), name) || InLongStretch(Entries(data, base, 1), name)
  }

  method Collect(runs: seq<seq<Name>>) returns (names: set<Name>, lengths: seq<nat>)
    ensures forall name :: name in names <==> exists k :: 0 <= k < |runs| && name in runs[k]
    ensures |lengths| == |runs| && forall k | 0 <= k < |runs| :: lengths[k] == |runs[k]|
  {
    names, lengths := {}, [];
    for i := 0 to |runs|
      invariant forall name :: name in names <==> exists k :: 0 <= k < i && name in runs[k]
      invariant |lengths| == i && forall k | 0 <= k < i :: lengths[k] == |runs[k]|
    {
      names := names + set name | name in runs[i];
      lengths := lengths + [|runs[i]|];
    }
  }

  method KernelExports(data: Data)
      returns (r: Result, ghost even: seq<(nat, nat)>, ghost odd: seq<(nat, nat)>)
    ensures r.AmbiguousBase? <==> forall base :: !IsBase(data, base)
    ensures r.AnchorsMissing?
       <==> exists base :: IsBase(data, base) && exists a :: a in ANCHORS && !InTable(data, base, a)
    ensures r.Exports? ==> IsBase(data, r.base) && forall name :: name in r.names <==> InTable(data, r.base, name)
    ensures r.Exports? ==> AreTables(Entries(data, r.base, 0), even) && AreTables(Entries(data, r.base, 1), odd)
    ensures r.Exports? ==> r.lengths == Lengths(even + odd)
  {
    even, odd := [], [];
    var found := FindBase(data);
    if found.None? {
      return AmbiguousBase, even, odd;
    }
    var names, lengths;
    names, lengths, even, odd := ScanTables(data, found.value);
    if !((set a | a in ANCHORS) <= names) {
      return AnchorsMissing, even, odd;
    }
    r := Exports(found.value, names, lengths);
  }

  /** The tables are the long runs, all of them, in order. */
  ghost predicate AreTables(entries: seq<Option<Name>>, spans: seq<(nat, nat)>) {
    && (forall s <- spans :: LongRun(entries, s.0, s.1))
    && (forall j, k | 0 <= j < k < |spans| :: spans[j].1 < spans[k].0)
    && (forall a, b | LongRun(entries, a, b) :: (a, b) in spans)
  }

  ghost function Length(span: (nat, nat)): int {
    span.1 - span.0
  }

  ghost function Lengths(spans: seq<(nat, nat)>): seq<int> {
    seq(|spans|, i requires 0 <= i < |spans| => Length(spans[i]))
  }

  lemma RunLengths(a: seq<Option<Name>>, runs: seq<seq<Name>>, spans: seq<(nat, nat)>, b: seq<Option<Name>>,
                   more: seq<seq<Name>>, moreSpans: seq<(nat, nat)>, lengths: seq<nat>)
    requires AreRuns(a, runs, spans) && AreRuns(b, more, moreSpans)
    requires |lengths| == |runs + more| && forall k | 0 <= k < |lengths| :: lengths[k] == |(runs + more)[k]|
    ensures lengths == Lengths(spans + moreSpans)
  {
    forall k | 0 <= k < |lengths| ensures lengths[k] == Length((spans + moreSpans)[k]) {
      if k < |runs| {
        assert NamesOf(a, spans[k].0, spans[k].1, runs[k]);
      } else {
        assert NamesOf(b, moreSpans[k - |runs|].0, moreSpans[k - |runs|].1, more[k - |runs|]);
      }
    }
  }

  lemma RunsAreTables(entries: seq<Option<Name>>, runs: seq<seq<Name>>, spans: seq<(nat, nat)>)
    requires AreRuns(entries, runs, spans) && forall a, b | LongRun(entries, a, b) :: (a, b) in spans
    ensures AreTables(entries, spans)
  {
  }

  lemma TableNames(data: Data, base: int, even: seq<seq<Name>>, odd: seq<seq<Name>>, name: Name)
    requires (exists k :: 0 <= k < |even| && name in even[k]) <==> InLongStretch(Entries(data, base, 0), name)
    requires (exists k :: 0 <= k < |odd| && name in odd[k]) <==> InLongStretch(Entries(data, base, 1), name)
    ensures (exists k :: 0 <= k < |even + odd| && name in (even + odd)[k]) <==> InTable(data, base, name)
  {
    EitherRuns(even, odd, name);
  }

  method ScanTables(data: Data, base: int)
      returns (names: set<Name>, lengths: seq<nat>, ghost evenSpans: seq<(nat, nat)>, ghost oddSpans: seq<(nat, nat)>)
    ensures forall name :: name in names <==> InTable(data, base, name)
    ensures AreTables(Entries(data, base, 0), evenSpans) && AreTables(Entries(data, base, 1), oddSpans)
    ensures lengths == Lengths(evenSpans + oddSpans)
  {
    var even, odd;
    even, evenSpans := ScanRuns(Entries(data, base, 0));
    odd, oddSpans := ScanRuns(Entries(data, base, 1));
    names, lengths := Collect(even + odd);
    RunsAreTables(Entries(data, base, 0), even, evenSpans);
    RunsAreTables(Entries(data, base, 1), odd, oddSpans);
    RunLengths(Entries(data, base, 0), even, evenSpans, Entries(data, base, 1), odd, oddSpans, lengths);
    forall name ensures name in names <==> InTable(data, base, name) {
      TableNames(data, base, even, odd, name);
    }
  }

  lemma EitherRuns(a: seq<seq<Name>>, b: seq<seq<Name>>, name: Name)
    ensures (exists k :: 0 <= k < |a + b| && name in (a + b)[k])
       <==> (exists k :: 0 <= k < |a| && name in a[k]) || (exists k :: 0 <= k < |b| && name in b[k])
  {
    if k :| 0 <= k < |a| && name in a[k] {
      assert name in (a + b)[k];
    }
    if k :| 0 <= k < |b| && name in b[k] {
      assert name in (a + b)[|a| + k];
    }
  }
}
