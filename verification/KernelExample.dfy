/** An image for which the search of kernel_exports (scripts/kernel_firmware.py) settles on a base although
    another agrees with an occurrence of every anchor: that of kfree was missed. */
module KernelExample {
  import opened Wrappers
  import opened Bytes
  import opened KernelExports

  /** kfree twice around one zero byte, then the other three anchors. */
  const STRINGS: Data := [
    0, 107, 102, 114, 101, 101, 0, 107, 102, 114, 101, 101, 0, 112, 114, 105, 110, 116, 107, 0,
    95, 95, 107, 109, 97, 108, 108, 111, 99, 0, 115, 99, 104, 101, 100, 117, 108, 101, 0, 0]

  /** The addresses of the anchors under two bases, the second with the second kfree. */
  const TABLE: Data := [
    0x01, 0x00, 0, 0x80, 0x07, 0x10, 0, 0x80, 0x0d, 0x00, 0, 0x80, 0x0d, 0x10, 0, 0x80,
    0x14, 0x00, 0, 0x80, 0x14, 0x10, 0, 0x80, 0x1e, 0x00, 0, 0x80, 0x1e, 0x10, 0, 0x80]

  const IMAGE: Data := STRINGS + TABLE

  const FOUND := 0x8000_0000
  const OTHER := 0x8000_1000

  lemma ImageIs()
    ensures |STRINGS| == 40 && |TABLE| == 32 && |IMAGE| == 72
    ensures forall i | 0 <= i < 40 :: IMAGE[i] == STRINGS[i]
    ensures forall i | 0 <= i < 32 :: IMAGE[40 + i] == TABLE[i]
  {
  }

  lemma ZerosAre()
    ensures forall i | 0 <= i < 39 && STRINGS[i] == 0 :: i == 0 || i == 6 || i == 12 || i == 19 || i == 29 || i == 38
  {
  }

  lemma StringsAreText()
    ensures forall i | 0 <= i < 40 :: STRINGS[i] < 0x80
  {
    FirstHalfIsText();
    SecondHalfIsText();
  }

  lemma FirstHalfIsText()
    ensures forall i | 0 <= i < 20 :: STRINGS[i] < 0x80
  {
  }

  lemma SecondHalfIsText()
    ensures forall i | 20 <= i < 40 :: STRINGS[i] < 0x80
  {
  }

  lemma TableIsNoText()
    ensures forall i | 0 <= i < 32 :: TABLE[i] < 95 || TABLE[i] == 0x80
  {
  }

  /** The place of an anchor by its first letter; kfree has a second one. */
  function PlaceOf(a: Name): int {
    if a == KFREE then 0 else if a == PRINTK then 12 else if a == KMALLOC then 19 else 29
  }

  lemma FirstLetters(a: Name)
    requires a in ANCHORS
    ensures |a| >= 5 && 95 <= a[0] < 0x80
    ensures a[0] == if a == KFREE then 107 else if a == PRINTK then 112 else if a == KMALLOC then 95 else 115
  {
  }

  lemma StringsAtZeros()
    ensures STRINGS[1] == 107 && STRINGS[7] == 107 && STRINGS[13] == 112 && STRINGS[20] == 95 && STRINGS[30] == 115
    ensures STRINGS[39] == 0
  {
  }

  lemma OccursOnlyThere(a: Name, i: int)
    requires a in ANCHORS && OccursAt(IMAGE, Pattern(a), i)
    ensures i == PlaceOf(a) || (a == KFREE && i == 6)
  {
    ImageIs();
    FirstLetters(a);
    var piece := IMAGE[i..i + |Pattern(a)|];
    assert piece[0] == IMAGE[i] && piece[1] == IMAGE[i + 1];
    ZerosAre();
    TableIsNoText();
    StringsAtZeros();
    forall k | 40 <= k < 72 ensures IMAGE[k] < 95 || IMAGE[k] == 0x80 {
      assert IMAGE[k] == IMAGE[40 + (k - 40)] == TABLE[k - 40];
    }
  }

  lemma SpelledAt(pattern: Data, i: nat)
    requires i + |pattern| <= 40 && STRINGS[i..i + |pattern|] == pattern
    ensures OccursAt(IMAGE, pattern, i)
  {
    ImageIs();
    assert IMAGE[i..i + |pattern|] == STRINGS[i..i + |pattern|];
  }

  lemma KfreeFirst()
    ensures OccursAt(IMAGE, Pattern(KFREE), 0)
  {
    var s := STRINGS;
    assert s[0] == 0 && s[1] == 107 && s[2] == 102 && s[3] == 114 && s[4] == 101 && s[5] == 101 && s[6] == 0;
    assert s[0..7] == [s[0], s[1], s[2], s[3], s[4], s[5], s[6]];
    assert s[0..7] == [0, 107, 102, 114, 101, 101, 0];
    assert Pattern(KFREE) == [0, 107, 102, 114, 101, 101, 0];
    SpelledAt(Pattern(KFREE), 0);
  }

  lemma KfreeSecond()
    ensures OccursAt(IMAGE, Pattern(KFREE), 6)
  {
    var s := STRINGS;
    assert s[6] == 0 && s[7] == 107 && s[8] == 102 && s[9] == 114 && s[10] == 101 && s[11] == 101 && s[12] == 0;
    assert s[6..13] == [s[6], s[7], s[8], s[9], s[10], s[11], s[12]];
    assert s[6..13] == [0, 107, 102, 114, 101, 101, 0];
    assert Pattern(KFREE) == [0, 107, 102, 114, 101, 101, 0];
    SpelledAt(Pattern(KFREE), 6);
  }

  lemma PrintkAt()
    ensures OccursAt(IMAGE, Pattern(PRINTK), 12)
  {
    var s := STRINGS;
    assert s[12] == 0 && s[13] == 112 && s[14] == 114 && s[15] == 105 && s[16] == 110 && s[17] == 116
        && s[18] == 107 && s[19] == 0;
    assert s[12..20] == [s[12], s[13], s[14], s[15], s[16], s[17], s[18], s[19]];
    assert s[12..20] == [0, 112, 114, 105, 110, 116, 107, 0];
    assert Pattern(PRINTK) == [0, 112, 114, 105, 110, 116, 107, 0];
    SpelledAt(Pattern(PRINTK), 12);
  }

  lemma KmallocAt()
    ensures OccursAt(IMAGE, Pattern(KMALLOC), 19)
  {
    var s := STRINGS;
    assert s[19] == 0 && s[20] == 95 && s[21] == 95 && s[22] == 107 && s[23] == 109 && s[24] == 97
        && s[25] == 108 && s[26] == 108 && s[27] == 111 && s[28] == 99 && s[29] == 0;
    assert s[19..30] == [s[19], s[20], s[21], s[22], s[23], s[24], s[25], s[26], s[27], s[28], s[29]];
    assert s[19..30] == [0, 95, 95, 107, 109, 97, 108, 108, 111, 99, 0];
    assert Pattern(KMALLOC) == [0, 95, 95, 107, 109, 97, 108, 108, 111, 99, 0];
    SpelledAt(Pattern(KMALLOC), 19);
  }

  lemma ScheduleAt()
    ensures OccursAt(IMAGE, Pattern(SCHEDULE), 29)
  {
    var s := STRINGS;
    assert s[29] == 0 && s[30] == 115 && s[31] == 99 && s[32] == 104 && s[33] == 101 && s[34] == 100
        && s[35] == 117 && s[36] == 108 && s[37] == 101 && s[38] == 0;
    assert s[29..39] == [s[29], s[30], s[31], s[32], s[33], s[34], s[35], s[36], s[37], s[38]];
    assert s[29..39] == [0, 115, 99, 104, 101, 100, 117, 108, 101, 0];
    assert Pattern(SCHEDULE) == [0, 115, 99, 104, 101, 100, 117, 108, 101, 0];
    SpelledAt(Pattern(SCHEDULE), 29);
  }

  lemma OccursThere(a: Name)
    requires a in ANCHORS
    ensures OccursAt(IMAGE, Pattern(a), PlaceOf(a))
  {
    if a == KFREE { KfreeFirst(); }
    else if a == PRINTK { PrintkAt(); }
    else if a == KMALLOC { KmallocAt(); }
    else { ScheduleAt(); }
  }

  lemma AnchorAt(a: Name)
    requires a in ANCHORS
    ensures OccursAt(IMAGE, Pattern(a), PlaceOf(a)) && PlaceOf(a) + 1 in Positions(IMAGE, Pattern(a), 0)
    ensures forall p <- Positions(IMAGE, Pattern(a), 0) :: p == PlaceOf(a) + 1
  {
    OccursThere(a);
    FirstLetters(a);
    FindIsFirst(IMAGE, Pattern(a), 0);
    OccursOnlyThere(a, Find(IMAGE, Pattern(a), 0));
    forall p | p in Positions(IMAGE, Pattern(a), 0) ensures p == PlaceOf(a) + 1 {
      PositionsOccur(IMAGE, Pattern(a), 0, p);
      OccursOnlyThere(a, p - 1);
      if a == KFREE {
        NotBoth(IMAGE, Pattern(a), 0, 1, 7);
      }
    }
  }

  /** The word of an anchor under the base that is found; the next one is that under the other base. */
  function WordOf(a: Name): nat {
    if a == KFREE then 10 else if a == PRINTK then 12 else if a == KMALLOC then 14 else 16
  }

  lemma TextWord(k: nat)
    requires k < 10
    ensures |Words(IMAGE)| == 18 && Words(IMAGE)[k] < LOW
  {
    ImageIs();
    StringsAreText();
    assert Words(IMAGE)[k] == Word(IMAGE, 4 * k);
    assert IMAGE[4 * k + 3] < 0x80;
  }

  lemma TableWord(k: nat)
    requires 10 <= k < 18
    ensures |Words(IMAGE)| == 18 && Words(IMAGE)[k] == Word(TABLE, 4 * k - 40)
  {
    ImageIs();
    var i := 4 * k;
    assert Words(IMAGE)[k] == Word(IMAGE, i);
    assert IMAGE[i] == IMAGE[40 + (i - 40)] && IMAGE[i + 1] == IMAGE[40 + (i - 39)];
    assert IMAGE[i + 2] == IMAGE[40 + (i - 38)] && IMAGE[i + 3] == IMAGE[40 + (i - 37)];
  }

  lemma WordIs(i: nat, low: nat, second: nat)
    requires i + 4 <= |TABLE| && TABLE[i] as int == low && TABLE[i + 1] as int == second
    requires TABLE[i + 2] == 0 && TABLE[i + 3] == 0x80
    ensures Word(TABLE, i) == FOUND + 0x100 * second + low
  {
  }

  lemma KfreeBytes()
    ensures |TABLE| == 32
    ensures TABLE[0] as int == 1 && TABLE[1] as int == 0 && TABLE[2] == 0 && TABLE[3] == 0x80
    ensures TABLE[4] as int == 7 && TABLE[5] as int == 16 && TABLE[6] == 0 && TABLE[7] == 0x80
  {
  }

  lemma PrintkBytes()
    ensures |TABLE| == 32
    ensures TABLE[8] as int == 13 && TABLE[9] as int == 0 && TABLE[10] == 0 && TABLE[11] == 0x80
    ensures TABLE[12] as int == 13 && TABLE[13] as int == 16 && TABLE[14] == 0 && TABLE[15] == 0x80
  {
  }

  lemma KmallocBytes()
    ensures |TABLE| == 32
    ensures TABLE[16] as int == 20 && TABLE[17] as int == 0 && TABLE[18] == 0 && TABLE[19] == 0x80
    ensures TABLE[20] as int == 20 && TABLE[21] as int == 16 && TABLE[22] == 0 && TABLE[23] == 0x80
  {
  }

  lemma ScheduleBytes()
    ensures |TABLE| == 32
    ensures TABLE[24] as int == 30 && TABLE[25] as int == 0 && TABLE[26] == 0 && TABLE[27] == 0x80
    ensures TABLE[28] as int == 30 && TABLE[29] as int == 16 && TABLE[30] == 0 && TABLE[31] == 0x80
  {
  }

  lemma TableValues()
    ensures Word(TABLE, 0) == FOUND + 1 && Word(TABLE, 4) == OTHER + 7
    ensures Word(TABLE, 8) == FOUND + 13 && Word(TABLE, 12) == OTHER + 13
    ensures Word(TABLE, 16) == FOUND + 20 && Word(TABLE, 20) == OTHER + 20
    ensures Word(TABLE, 24) == FOUND + 30 && Word(TABLE, 28) == OTHER + 30
  {
    KfreeBytes();
    PrintkBytes();
    KmallocBytes();
    ScheduleBytes();
    WordIs(0, 1, 0);
    WordIs(4, 7, 16);
    WordIs(8, 13, 0);
    WordIs(12, 13, 16);
    WordIs(16, 20, 0);
    WordIs(20, 20, 16);
    WordIs(24, 30, 0);
    WordIs(28, 30, 16);
  }

  lemma TableWords(w: seq<int>, a: Name)
    requires IsTable(w) && a in ANCHORS
    ensures 10 <= WordOf(a) <= 16
    ensures w[WordOf(a)] == FOUND + PlaceOf(a) + 1
    ensures w[WordOf(a) + 1] == OTHER + (if a == KFREE then 6 else PlaceOf(a)) + 1
  {
  }

  function OtherPlaceOf(a: Name): int {
    if a == KFREE then 6 else PlaceOf(a)
  }

  lemma FoundIn(words: seq<int>, positions: seq<int>, a: Name)
    requires IsTable(words) && a in ANCHORS && PlaceOf(a) + 1 in positions
    ensures FOUND in Bases(words, positions)
  {
    TableWords(words, a);
    assert words[WordOf(a)] in words;
    InBases(words, positions, FOUND, PlaceOf(a) + 1);
  }

  lemma OtherIn(words: seq<int>, a: Name)
    requires IsTable(words) && a in ANCHORS
    ensures OTHER + OtherPlaceOf(a) + 1 in words
  {
    TableWords(words, a);
    assert words[WordOf(a) + 1] in words;
  }

  lemma BothBases(a: Name)
    requires a in ANCHORS
    ensures FOUND in BasesOf(IMAGE, a) && Consistent(IMAGE, a, OTHER)
  {
    AnchorAt(a);
    KfreeSecond();
    ImageHasTable();
    FoundIn(Words(IMAGE), Positions(IMAGE, Pattern(a), 0), a);
    OtherIn(Words(IMAGE), a);
    assert OccursAt(IMAGE, Pattern(a), OtherPlaceOf(a));
  }

  lemma AfterKfree(b: int)
    requires Plausible(b) && b + 1 in Words(IMAGE)
    ensures b == FOUND
  {
    TextWord(0);
    var k :| 0 <= k < 18 && Words(IMAGE)[k] == b + 1;
    if k < 10 {
      TextWord(k);
    } else {
      ImageHasTable();
      TableChoice(Words(IMAGE), k);
      OnlyFirst(b);
    }
  }

  /** Which words of the table there are. */
  ghost predicate IsTable(w: seq<int>) {
    && |w| == 18
    && w[10] == FOUND + 1 && w[11] == OTHER + 7 && w[12] == FOUND + 13 && w[13] == OTHER + 13
    && w[14] == FOUND + 20 && w[15] == OTHER + 20 && w[16] == FOUND + 30 && w[17] == OTHER + 30
  }

  lemma ImageHasTable()
    ensures IsTable(Words(IMAGE))
  {
    TableWord(10); TableWord(11); TableWord(12); TableWord(13);
    TableWord(14); TableWord(15); TableWord(16); TableWord(17);
    TableValues();
  }

  lemma TableChoice(w: seq<int>, k: nat)
    requires IsTable(w) && 10 <= k < 18
    ensures w[k] - 1 - FOUND in {0, 12, 19, 29} || w[k] - 1 - OTHER in {6, 12, 19, 29}
  {
    assert k == 10 || k == 11 || k == 12 || k == 13 || k == 14 || k == 15 || k == 16 || k == 17;
  }

  lemma OnlyFirst(b: int)
    requires b % PAGE == 0 && (b - FOUND in {0, 12, 19, 29} || b - OTHER in {6, 12, 19, 29})
    ensures b == FOUND
  {
    if b - FOUND in {0, 12, 19, 29} {
      Remainder(b, 0x8_0000, b - FOUND);
    } else {
      Remainder(b, 0x8_0001, b - OTHER);
    }
  }

  lemma Remainder(b: int, q: nat, r: nat)
    requires b == PAGE * q + r && r < PAGE
    ensures b % PAGE == r
  {
  }

  /** The base that is found is the only one the search can settle on, and yet another is consistent with
      an occurrence of every anchor. */
  lemma OtherBaseIsConsistent()
    ensures IsBase(IMAGE, FOUND) && AllConsistent(IMAGE, OTHER) && OTHER != FOUND
  {
    forall a | a in ANCHORS ensures FOUND in BasesOf(IMAGE, a) && Consistent(IMAGE, a, OTHER) {
      BothBases(a);
    }
    forall b | Common(IMAGE, b) ensures b == FOUND {
      OnlyBase(b);
    }
  }

  lemma OnlyBase(b: int)
    requires Common(IMAGE, b)
    ensures b == FOUND
  {
    assert KFREE in ANCHORS && b in BasesOf(IMAGE, KFREE);
    var _ := BaseFrom(Words(IMAGE), Positions(IMAGE, Pattern(KFREE), 0), b);
    AnchorAt(KFREE);
    AfterKfree(b);
  }
}
