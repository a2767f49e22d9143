/** The export tables of a kernel image in terms of its bytes (kernel_exports in scripts/kernel_firmware.py). */
module KernelTables {
  import opened Wrappers
  import opened Bytes
  import opened KernelExports

  // ---------------------------------------------------------------- words, names, bases

  /** Least significant byte first. */
  lemma WordBytes(data: Data, i: nat)
    requires i + 4 <= |data|
    ensures var w := Word(data, i);
            w == (((data[i + 3] as int * 0x100) + data[i + 2] as int) * 0x100 + data[i + 1] as int) * 0x100
                 + data[i] as int
  {
  }

  function Text(name: Name): string {
    seq(|name|, i requires 0 <= i < |name| => name[i] as char)
  }

  /** A name is an identifier of at most 151 characters. */
  lemma NameIff(name: Name)
    ensures IsName(name) <==>
      && 1 <= |name| <= 151 && !('0' <= Text(name)[0] <= '9')
      && forall c <- Text(name) :: 'A' <= c <= 'Z' || 'a' <= c <= 'z' || '0' <= c <= '9' || c == '_'
  {
    var text := Text(name);
    assert forall i | 0 <= i < |name| :: name[i] in name && text[i] in text && text[i] == name[i] as char;
  }

  lemma AnchorNames()
    ensures |ANCHORS| == 4
    ensures Text(ANCHORS[0]) == "kfree" && Text(ANCHORS[1]) == "printk"
    ensures Text(ANCHORS[2]) == "__kmalloc" && Text(ANCHORS[3]) == "schedule"
  {
  }

  lemma PlausibleIff(base: int)
    ensures Plausible(base) <==> exists page :: 0x8_0000 <= page <= 0xf_fff0 && base == page * 4096
  {
    if Plausible(base) {
      assert base == (base / 4096) * 4096;
    }
  }

  // ---------------------------------------------------------------- entries

  /** Two words, `j` pairs behind word `w`: a value in the range of the image, and the address of a name in it. */
  ghost predicate Entry(data: Data, base: int, w: nat, j: nat, name: Name) {
    && 4 * w + 8 * j + 8 <= |data|
    && base <= Word(data, 4 * w + 8 * j) < base + |data| + 0x400_0000
    && Named(data, Word(data, 4 * w + 8 * j + 4) - base, name)
  }

  /** The name stands there, before a zero byte. */
  ghost predicate Named(data: Data, at: int, name: Name) {
    IsName(name) && 0 <= at && at + |name| < |data| && data[at..at + |name|] == name && data[at + |name|] == 0
  }

  ghost predicate SomeEntry(data: Data, base: int, w: nat, j: nat) {
    exists name :: Entry(data, base, w, j, name)
  }

  /** The entries of a parity are the pairs of words from there on. */
  lemma EntriesAre(data: Data, base: int, parity: nat, j: nat, name: Name)
    requires parity < 2
    ensures j < |Entries(data, base, parity)| <==> 4 * parity + 8 * j + 8 <= |data|
    ensures j < |Entries(data, base, parity)| ==>
      (Entries(data, base, parity)[j] == Some(name) <==> Entry(data, base, parity, j, name))
  {
    EntryCount(data, base, parity, j);
    if j < |Entries(data, base, parity)| {
      var w := parity + 2 * j;
      assert Entries(data, base, parity)[j] == EntryAt(data, base, Words(data), w);
      OneEntry(data, base, w, name);
      SameEntry(data, base, parity, j, w, 0, name);
    }
  }

  lemma EntryCount(data: Data, base: int, parity: nat, j: nat)
    requires parity < 2
    ensures j < |Entries(data, base, parity)| <==> 4 * parity + 8 * j + 8 <= |data|
  {
    var w := |data| / 4;
    assert |Words(data)| == w && 4 * w <= |data| < 4 * w + 4;
    var n := if w < parity then 0 else (w - parity) / 2;
    assert |Entries(data, base, parity)| == n;
  }

  lemma OneEntry(data: Data, base: int, w: nat, name: Name)
    requires 4 * w + 8 <= |data|
    ensures w + 1 < |Words(data)|
    ensures EntryAt(data, base, Words(data), w) == Some(name) <==> Entry(data, base, w, 0, name)
  {
    assert Words(data)[w] == Word(data, 4 * w) && Words(data)[w + 1] == Word(data, 4 * w + 4);
    SymbolIff(data, base, Word(data, 4 * w + 4), name);
  }

  /** 128 entries in a row. */
  ghost predicate TableAt(data: Data, base: int, w: nat) {
    forall j: nat | j < 128 :: SomeEntry(data, base, w, j)
  }

  /** A name is collected exactly if it is in one of 128 entries in a row. */
  lemma InTableIff(data: Data, base: int, name: Name)
    ensures InTable(data, base, name) <==>
      exists w: nat, j: nat :: j < 128 && TableAt(data, base, w) && Entry(data, base, w, j, name)
  {
    if InTable(data, base, name) {
      var parity := if InLongStretch(Entries(data, base, 0), name) then 0 else 1;
      var a :| 0 <= a && a + LONG <= |Entries(data, base, parity)|
        && AllValid(Entries(data, base, parity), a, a + LONG) && Occurs(Entries(data, base, parity), a, name);
      StretchIsTable(data, base, parity, a, parity + 2 * a, name);
    }
    if w: nat, j: nat :| j < 128 && TableAt(data, base, w) && Entry(data, base, w, j, name) {
      TableIsStretch(data, base, w % 2, w / 2, w, j, name);
    }
  }

  /** Counting from the beginning of a parity or from a table in it. */
  lemma SameEntry(data: Data, base: int, parity: nat, a: nat, w: nat, j: nat, name: Name)
    requires w == parity + 2 * a
    ensures Entry(data, base, parity, a + j, name) <==> Entry(data, base, w, j, name)
  {
  }

  lemma ValidIff(data: Data, base: int, parity: nat, a: nat, w: nat, j: nat)
    requires parity < 2 && w == parity + 2 * a
    ensures a + j < |Entries(data, base, parity)| && Entries(data, base, parity)[a + j].Some?
       <==> SomeEntry(data, base, w, j)
  {
    var entries := Entries(data, base, parity);
    if a + j < |entries| && entries[a + j].Some? {
      EntriesAre(data, base, parity, a + j, entries[a + j].value);
      SameEntry(data, base, parity, a, w, j, entries[a + j].value);
    }
    if name :| Entry(data, base, w, j, name) {
      EntriesAre(data, base, parity, a + j, name);
      SameEntry(data, base, parity, a, w, j, name);
    }
  }

  lemma StretchIsTable(data: Data, base: int, parity: nat, a: nat, w: nat, name: Name)
    requires parity < 2 && w == parity + 2 * a && a + LONG <= |Entries(data, base, parity)|
    requires AllValid(Entries(data, base, parity), a, a + LONG) && Occurs(Entries(data, base, parity), a, name)
    ensures TableAt(data, base, w)
    ensures exists j: nat :: j < 128 && Entry(data, base, w, j, name)
  {
    forall j: nat | j < 128 ensures SomeEntry(data, base, w, j) {
      ValidIff(data, base, parity, a, w, j);
    }
    var j := PlaceIn(data, base, parity, a, w, name);
  }

  lemma PlaceIn(data: Data, base: int, parity: nat, a: nat, w: nat, name: Name) returns (j: nat)
    requires parity < 2 && w == parity + 2 * a && a + LONG <= |Entries(data, base, parity)|
    requires Occurs(Entries(data, base, parity), a, name)
    ensures j < 128 && Entry(data, base, w, j, name)
  {
    var i :| a <= i < a + LONG && Entries(data, base, parity)[i] == Some(name);
    j := i - a;
    EntriesAre(data, base, parity, i, name);
    SameEntry(data, base, parity, a, w, j, name);
  }

  lemma TableIsStretch(data: Data, base: int, parity: nat, a: nat, w: nat, j: nat, name: Name)
    requires parity < 2 && w == parity + 2 * a
    requires j < 128 && TableAt(data, base, w) && Entry(data, base, w, j, name)
    ensures InTable(data, base, name)
  {
    var entries := Entries(data, base, parity);
    assert SomeEntry(data, base, w, 127);
    ValidIff(data, base, parity, a, w, 127);
    forall i | a <= i < a + LONG ensures i < |entries| && entries[i].Some? {
      assert SomeEntry(data, base, w, i - a);
      ValidIff(data, base, parity, a, w, i - a);
    }
    SameEntry(data, base, parity, a, w, j, name);
    EntriesAre(data, base, parity, a + j, name);
    StretchHas(entries, a, a + j, name);
  }

  lemma StretchHas(entries: seq<Option<Name>>, a: nat, i: nat, name: Name)
    requires a + LONG <= |entries| && AllValid(entries, a, a + LONG)
    requires a <= i < a + LONG && entries[i] == Some(name)
    ensures InLongStretch(entries, name)
  {
    assert Occurs(entries, a, name);
  }

  /** A table whose length is reported: at least 128 entries that cannot be extended. */
  lemma TableIff(data: Data, base: int, parity: nat, a: int, b: int)
    requires parity < 2
    ensures LongRun(Entries(data, base, parity), a, b) <==>
      && 0 <= a && a + 128 <= b && !SomeEntry(data, base, parity, b)
      && (forall j | a <= j < b :: SomeEntry(data, base, parity, j))
      && (a == 0 || !SomeEntry(data, base, parity, a - 1))
  {
    var entries := Entries(data, base, parity);
    forall j: nat ensures j < |entries| && entries[j].Some? <==> SomeEntry(data, base, parity, j) {
      ValidIff(data, base, parity, 0, parity, j);
    }
    if 0 <= a && a + 128 <= b && forall j | a <= j < b :: SomeEntry(data, base, parity, j) {
      assert SomeEntry(data, base, parity, b - 1);
    }
  }
}
