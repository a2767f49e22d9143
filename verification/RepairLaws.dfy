/** What a completed repair merge means: one stanza for every repaired package, everything else untouched. */
module RepairLaws {
  import opened Wrappers
  import opened Ordering
  import opened PackageNames
  import opened RepairModel
  import opened RepairMerge

  /** Different repaired packages have different file names. */
  ghost predicate OwnFiles(cands: map<string, Repair>) {
    forall m, n | m in cands && n in cands && m != n :: cands[m].file != cands[n].file
  }

  /** No package that stays shares its file name with a repaired one. */
  ghost predicate Apart(index: Index, cands: map<string, Repair>) {
    forall s <- index, e <- index[s], n <- cands | e.package !in cands :: e.filename != cands[n].file
  }

  ghost predicate Keyed(cands: map<string, Repair>, names: seq<string>) {
    Increasing(names) && forall n <- names :: n in cands && cands[n].package == n
  }

  function Named(names: seq<string>): set<string> {
    set n | n in names
  }

  /** The stanzas of the first repairs that belong to a section. */
  ghost function News(cands: map<string, Repair>, names: seq<string>, s: string): seq<Entry>
    requires forall n <- names :: n in cands
  {
    if names == [] then []
    else
      var c := cands[names[|names| - 1]];
      News(cands, names[..|names| - 1], s) + if s == c.section then [NewEntry(c)] else []
  }

  lemma SplitLast(names: seq<string>)
    requires names != []
    ensures var front, n := names[..|names| - 1], names[|names| - 1];
            && (forall x :: x in names <==> x in front || x == n)
            && Named(names) == Named(front) + {n}
            && (Increasing(names) ==> n !in front && Increasing(front))
  {
    assert names == names[..|names| - 1] + [names[|names| - 1]];
  }

  // ---------------------------------------------------------------- counting stanzas

  lemma {:induction false} CountConcat(a: seq<Entry>, b: seq<Entry>, name: string)
    ensures Count(a + b, name) == Count(a, name) + Count(b, name)
  {
    if b == [] {
      assert a + b == a;
    } else {
      var front := b[..|b| - 1];
      CountConcat(a, front, name);
      assert (a + b)[..|a + b| - 1] == a + front;
    }
  }

  lemma CountOne(e: Entry, name: string)
    ensures Count([e], name) == if e.package == name then 1 else 0
  {
    CountAppend([], e, name);
    assert [] + [e] == [e];
  }

  lemma {:induction false} CountRetain(a: seq<Entry>, gone: set<string>, name: string)
    ensures Count(Retain(a, gone), name) == if name in gone then 0 else Count(a, name)
  {
    if a != [] {
      CountRetain(a[1..], gone, name);
      CountOne(a[0], name);
      CountConcat([a[0]], a[1..], name);
      assert a == [a[0]] + a[1..];
      CountConcat(if a[0].package in gone then [] else [a[0]], Retain(a[1..], gone), name);
    }
  }

  lemma {:induction false} CountInsert(e: Entry, l: seq<Entry>, name: string)
    ensures Count(Insert(PackageOf, e, l), name) == Count(l, name) + if e.package == name then 1 else 0
  {
    CountOne(e, name);
    if l == [] {
    } else if Le(l[0].package, e.package) {
      CountInsert(e, l[1..], name);
      CountConcat([l[0]], Insert(PackageOf, e, l[1..]), name);
      CountConcat([l[0]], l[1..], name);
      assert l == [l[0]] + l[1..];
    } else {
      CountConcat([e], l, name);
    }
  }

  lemma {:induction false} CountSorted(l: seq<Entry>, name: string)
    ensures Count(ByPackage(l), name) == Count(l, name)
  {
    if l != [] {
      CountSorted(l[..|l| - 1], name);
      CountInsert(l[|l| - 1], ByPackage(l[..|l| - 1]), name);
    }
  }

  lemma {:induction false} CountWitness(a: seq<Entry>, name: string)
    requires Count(a, name) > 0
    ensures exists e :: e in a && e.package == name
  {
    if a[|a| - 1].package == name {
      assert a[|a| - 1] in a;
    } else {
      CountWitness(a[..|a| - 1], name);
      var e :| e in a[..|a| - 1] && e.package == name;
      assert e in a;
    }
  }

  // ---------------------------------------------------------------- the indexes

  lemma {:induction false} RetainConcat(a: seq<Entry>, b: seq<Entry>, gone: set<string>)
    ensures Retain(a + b, gone) == Retain(a, gone) + Retain(b, gone)
  {
    if a == [] {
      assert a + b == b;
    } else {
      RetainConcat(a[1..], b, gone);
      var ab, head := a + b, if a[0].package in gone then [] else [a[0]];
      assert ab[1..] == a[1..] + b && ab[0] == a[0];
      assert Retain(ab, gone) == head + (Retain(a[1..], gone) + Retain(b, gone));
    }
  }

  lemma {:induction false} NewsIn(cands: map<string, Repair>, names: seq<string>, s: string, e: Entry)
    requires forall n <- names :: n in cands
    ensures e in News(cands, names, s) <==> exists n :: n in names && cands[n].section == s && e == NewEntry(cands[n])
  {
    if names != [] {
      SplitLast(names);
      NewsIn(cands, names[..|names| - 1], s, e);
    }
  }

  /** The stanzas that stay, then the new ones. */
  lemma {:induction false} IndexIs(index: Index, cands: map<string, Repair>, names: seq<string>, s: string)
    requires s in index && Keyed(cands, names)
    ensures IndexAfter(index, cands, names).Keys == index.Keys
    ensures IndexAfter(index, cands, names)[s] == Retain(index[s], Named(names)) + News(cands, names, s)
  {
    if names == [] {
      assert Named(names) == {} && News(cands, names, s) == [];
      RetainAll(index[s], {});
    } else {
      var front, n := names[..|names| - 1], names[|names| - 1];
      SplitLast(names);
      IndexIs(index, cands, front, s);
      var kept, news := Retain(index[s], Named(front)), News(cands, front, s);
      RetainConcat(kept, news, {n});
      RetainMore(index[s], Named(front), n);
      forall e <- news ensures e.package !in {n} {
        NewsIn(cands, front, s, e);
      }
      RetainAll(news, {n});
    }
  }

  lemma {:induction false} CountNews(cands: map<string, Repair>, names: seq<string>, s: string, name: string)
    requires Keyed(cands, names)
    ensures Count(News(cands, names, s), name)
         == if name in names && cands[name].section == s then 1 else 0
  {
    if names != [] {
      SplitLast(names);
      var front, c := names[..|names| - 1], cands[names[|names| - 1]];
      CountNews(cands, front, s, name);
      CountOne(NewEntry(c), name);
      CountConcat(News(cands, front, s), if s == c.section then [NewEntry(c)] else [], name);
    }
  }

  /** Exactly one stanza of every package done, as many as before of every other. */
  lemma CountAfter(index: Index, cands: map<string, Repair>, names: seq<string>, s: string, name: string)
    requires s in index && Keyed(cands, names)
    ensures IndexAfter(index, cands, names).Keys == index.Keys
    ensures Count(IndexAfter(index, cands, names)[s], name)
         == if name !in names then Count(index[s], name) else if cands[name].section == s then 1 else 0
  {
    IndexIs(index, cands, names, s);
    CountConcat(Retain(index[s], Named(names)), News(cands, names, s), name);
    CountRetain(index[s], Named(names), name);
    CountNews(cands, names, s, name);
  }

  // ---------------------------------------------------------------- the files

  ghost predicate SameAt(a: map<Path, string>, b: map<Path, string>, p: Path) {
    (p in a <==> p in b) && (p in a ==> a[p] == b[p])
  }

  /** What one repair does to one path. */
  ghost predicate ReplacedAt(files: map<Path, string>, index: Index, c: Repair, p: Path, files': map<Path, string>) {
    if p == Destination(c) then p in files' && files'[p] == c.content
    else if Stale(index, c, p) then p !in files'
    else SameAt(files, files', p)
  }

  /** The repair goes to the path, or removes the file there. */
  ghost predicate Touches(index: Index, c: Repair, p: Path) {
    p == Destination(c) || Stale(index, c, p)
  }

  /** The last repair in order that touches a path, or -1. */
  ghost function LastTouch(index: Index, cands: map<string, Repair>, names: seq<string>, p: Path): (k: int)
    requires forall n <- names :: n in cands
    ensures -1 <= k < |names|
    ensures k >= 0 ==> Touches(index, cands[names[k]], p)
    ensures forall j | k < j < |names| :: !Touches(index, cands[names[j]], p)
  {
    if names == [] then -1
    else if Touches(index, cands[names[|names| - 1]], p) then |names| - 1
    else LastTouch(index, cands, names[..|names| - 1], p)
  }

  /** The last repair that touches the path puts this content there. */
  ghost predicate LastPuts(index: Index, cands: map<string, Repair>, names: seq<string>, p: Path, content: string)
    requires forall n <- names :: n in cands
  {
    var k := LastTouch(index, cands, names, p);
    k >= 0 && Destination(cands[names[k]]) == p && cands[names[k]].content == content
  }

  /** Every path is decided by the last repair that touches it, if any, and by the baseline's stanzas. */
  lemma {:induction false} FilesAt(files: map<Path, string>, index: Index, cands: map<string, Repair>,
                                   names: seq<string>, p: Path)
    requires Keyed(cands, names)
    ensures var k, after := LastTouch(index, cands, names, p), FilesAfter(files, index, cands, names);
            if k < 0 then SameAt(files, after, p) else ReplacedAt(files, index, cands[names[k]], p, after)
  {
    if names != [] {
      SplitLast(names);
      var front, c := names[..|names| - 1], cands[names[|names| - 1]];
      FilesAt(files, index, cands, front, p);
      var done := IndexAfter(index, cands, front);
      if p.0 in index {
        CountAfter(index, cands, front, p.0, c.package);
      } else {
        KeysAfter(index, cands, front);
      }
      assert Stale(done, c, p) <==> Stale(index, c, p);
      assert ReplacedAt(FilesAfter(files, index, cands, front), index, c, p, FilesAfter(files, index, cands, names));
    }
  }

  /** With file names of their own only one repair can touch a path: the one that has its name. */
  lemma TouchOwn(index: Index, cands: map<string, Repair>, names: seq<string>, p: Path, n: string)
    requires Keyed(cands, names) && OwnFiles(cands) && n in names && cands[n].file == p.1
    ensures var k := LastTouch(index, cands, names, p);
            (k >= 0 <==> Touches(index, cands[n], p)) && (k >= 0 ==> names[k] == n)
  {
    var i :| 0 <= i < |names| && names[i] == n;
    var k := LastTouch(index, cands, names, p);
    assert k >= 0 ==> cands[names[k]].file == p.1;
  }

  lemma {:induction false} KeysAfter(index: Index, cands: map<string, Repair>, names: seq<string>)
    requires forall n <- names :: n in cands
    ensures IndexAfter(index, cands, names).Keys == index.Keys
  {
    if names != [] {
      KeysAfter(index, cands, names[..|names| - 1]);
    }
  }

  // ---------------------------------------------------------------- does every unlink find its file?

  /** When repair `k` removes the stanza of a section, its file is still, or again, there. */
  ghost predicate FindsFile(index: Index, cands: map<string, Repair>, names: seq<string>, k: nat, s: string)
    requires k < |names| && (forall n <- names :: n in cands) && s in index
  {
    var p := (s, cands[names[k]].file);
    var j := LastTouch(index, cands, names[..k], p);
    Count(index[s], names[k]) == 1 && (j < 0 || p == Destination(cands[names[j]]))
  }

  ghost predicate AllFind(index: Index, cands: map<string, Repair>, names: seq<string>)
    requires forall n <- names :: n in cands
  {
    forall k, s | 0 <= k < |names| && s in index && s != cands[names[k]].section && Count(index[s], names[k]) > 0 ::
      FindsFile(index, cands, names, k, s)
  }

  /** Whatever the file names: every unlink succeeds exactly if each finds its file. */
  lemma {:induction false} AllRemovableIff(files: map<Path, string>, index: Index, cands: map<string, Repair>,
                                           names: seq<string>)
    requires Keyed(cands, names) && Fits(index, cands)
    requires forall s <- index, e <- index[s] :: (s, e.filename) in files
    ensures AllRemovable(files, index, cands, names) <==> AllFind(index, cands, names)
  {
    if names != [] {
      SplitLast(names);
      AllRemovableIff(files, index, cands, names[..|names| - 1]);
      LastRemovable(files, index, cands, names);
      AllFindLast(index, cands, names);
    }
  }

  ghost predicate LastFinds(index: Index, cands: map<string, Repair>, names: seq<string>)
    requires names != [] && forall n <- names :: n in cands
  {
    var m := |names| - 1;
    forall s | s in index && s != cands[names[m]].section && Count(index[s], names[m]) > 0 ::
      FindsFile(index, cands, names, m, s)
  }

  lemma AllFindLast(index: Index, cands: map<string, Repair>, names: seq<string>)
    requires names != [] && (forall n <- names :: n in cands)
    ensures AllFind(index, cands, names)
       <==> AllFind(index, cands, names[..|names| - 1]) && LastFinds(index, cands, names)
  {
    var m := |names| - 1;
    var front := names[..m];
    forall k, s | 0 <= k < m && s in index
      ensures FindsFile(index, cands, names, k, s) <==> FindsFile(index, cands, front, k, s) {
      assert front[..k] == names[..k] && front[k] == names[k];
    }
    if AllFind(index, cands, names) {
      forall k, s | 0 <= k < m && s in index && s != cands[front[k]].section && Count(index[s], front[k]) > 0
        ensures FindsFile(index, cands, front, k, s) {
        assert front[k] == names[k] && FindsFile(index, cands, names, k, s);
      }
    }
    if AllFind(index, cands, front) && LastFinds(index, cands, names) {
      forall k, s | 0 <= k < |names| && s in index && s != cands[names[k]].section && Count(index[s], names[k]) > 0
        ensures FindsFile(index, cands, names, k, s) {
        assert k < m ==> front[k] == names[k];
      }
    }
  }

  lemma LastRemovable(files: map<Path, string>, index: Index, cands: map<string, Repair>, names: seq<string>)
    requires Keyed(cands, names) && Fits(index, cands) && names != []
    requires forall s <- index, e <- index[s] :: (s, e.filename) in files
    ensures Removable(FilesAfter(files, index, cands, names[..|names| - 1]),
                      IndexAfter(index, cands, names[..|names| - 1]), cands[names[|names| - 1]])
       <==> LastFinds(index, cands, names)
  {
    SplitLast(names);
    var m := |names| - 1;
    var front, n := names[..m], names[m];
    KeysAfter(index, cands, front);
    forall s | s in index ensures UnlinkFits(files, index, cands, names, s) {
      OneUnlink(files, index, cands, names, s);
    }
    assert LastFinds(index, cands, names) <==> forall s | s in index ::
      s != cands[n].section && Count(index[s], n) > 0 ==> FindsFile(index, cands, names, m, s);
  }

  /** The last repair may unlink in a section exactly if it has nothing to remove there or finds it. */
  ghost predicate UnlinkFits(files: map<Path, string>, index: Index, cands: map<string, Repair>, names: seq<string>,
                             s: string)
    requires names != [] && s in index && (forall n <- names :: n in cands)
  {
    var m := |names| - 1;
    var front, c := names[..m], cands[names[m]];
    s in IndexAfter(index, cands, front) &&
    (MayUnlink(FilesAfter(files, index, cands, front), IndexAfter(index, cands, front), c, s) <==>
       (s != c.section && Count(index[s], names[m]) > 0 ==> FindsFile(index, cands, names, m, s)))
  }

  lemma OneUnlink(files: map<Path, string>, index: Index, cands: map<string, Repair>, names: seq<string>, s: string)
    requires Keyed(cands, names) && Fits(index, cands) && names != [] && s in index
    requires forall s <- index, e <- index[s] :: (s, e.filename) in files
    ensures UnlinkFits(files, index, cands, names, s)
  {
    SplitLast(names);
    var m := |names| - 1;
    var front, n := names[..m], names[m];
    var c := cands[n];
    CountAfter(index, cands, front, s, n);
    if s != c.section && Count(index[s], n) > 0 {
      CountWitness(index[s], n);
      var e :| e in index[s] && e.package == n;
      assert (s, c.file) in files;
      FilesAt(files, index, cands, front, (s, c.file));
    }
  }

  /** Once the checks have passed, the merge completes if and only if every repaired package has at most
      one stanza in each section that is not its destination, and the last repair before it that touches
      the file of that stanza, if any, put a file there. */
  lemma MergeCompletesIff(files: map<Path, string>, packages: Index, repairs: seq<Repair>,
                          cands: map<string, Repair>, names: seq<string>)
    requires Acceptable(files, packages, repairs) && Chosen(repairs, cands) && SortedList(names, cands.Keys)
    ensures AllRemovable(files, Baseline(packages), cands, names) <==> AllFind(Baseline(packages), cands, names)
  {
    var index := Baseline(packages);
    CandidatesFit(files, packages, repairs, cands);
    forall s, e: Entry | s in index && e in index[s] ensures (s, e.filename) in files {
      assert SoundEntry(files, s, e);
    }
    AllRemovableIff(files, index, cands, names);
  }

  /** With file names of their own only a second stanza can break it: its unlink misses the file. */
  lemma CompletesWithoutDuplicates(files: map<Path, string>, packages: Index, repairs: seq<Repair>,
                                   cands: map<string, Repair>, names: seq<string>)
    requires Acceptable(files, packages, repairs) && Chosen(repairs, cands) && SortedList(names, cands.Keys)
    requires OwnFiles(cands)
    ensures AllRemovable(files, Baseline(packages), cands, names)
       <==> forall n <- cands, s <- FEEDS | s != cands[n].section :: Count(Listed(packages, s), n) <= 1
  {
    var index := Baseline(packages);
    MergeCompletesIff(files, packages, repairs, cands, names);
    CandidatesFit(files, packages, repairs, cands);
    OwnFind(index, cands, names);
    assert forall s <- FEEDS :: s in index && index[s] == Listed(packages, s);
  }

  lemma OwnFind(index: Index, cands: map<string, Repair>, names: seq<string>)
    requires Keyed(cands, names) && SortedList(names, cands.Keys) && OwnFiles(cands)
    ensures AllFind(index, cands, names)
       <==> forall n <- cands, s <- index | s != cands[n].section :: Count(index[s], n) <= 1
  {
    forall k, s | 0 <= k < |names| && s in index && s != cands[names[k]].section && Count(index[s], names[k]) > 0
      ensures FindsFile(index, cands, names, k, s) <==> Count(index[s], names[k]) <= 1 {
      assert forall i | 0 <= i < k :: names[..k][i] == names[i] && names[i] != names[k];
    }
    if AllFind(index, cands, names) {
      forall n, s | n in cands && s in index && s != cands[n].section ensures Count(index[s], n) <= 1 {
        var k :| 0 <= k < |names| && names[k] == n;
        assert Count(index[s], n) > 0 ==> FindsFile(index, cands, names, k, s);
      }
    }
  }

  // ---------------------------------------------------------------- the merged feed

  /** A section of the merged feed: what was kept and what is new, in the order of package names. */
  lemma SectionIs(files: map<Path, string>, packages: Index, repairs: seq<Repair>, cands: map<string, Repair>,
                  names: seq<string>, files': map<Path, string>, packages': Index, s: string)
    requires Acceptable(files, packages, repairs) && Chosen(repairs, cands) && SortedList(names, cands.Keys)
    requires MergedTo(files, packages, cands, names, files', packages') && s in FEEDS
    ensures Listed(packages', s) == ByPackage(Retain(Listed(packages, s), cands.Keys) + News(cands, names, s))
  {
    CandidatesFit(files, packages, repairs, cands);
    IndexIs(Baseline(packages), cands, names, s);
    assert Named(names) == cands.Keys;
  }

  /** Over all six sections a repaired package has one stanza: in its own section, with the repair's
      size and digest. The file of that stanza is the repair exactly if the last repair that touches it
      puts the same bytes there. */
  lemma OneStanzaEach(files: map<Path, string>, packages: Index, repairs: seq<Repair>, cands: map<string, Repair>,
                      names: seq<string>, files': map<Path, string>, packages': Index, n: string)
    requires Acceptable(files, packages, repairs) && Chosen(repairs, cands) && SortedList(names, cands.Keys)
    requires MergedTo(files, packages, cands, names, files', packages') && n in cands
    ensures forall s <- FEEDS :: Count(Listed(packages', s), n) == if s == cands[n].section then 1 else 0
    ensures NewEntry(cands[n]) in Listed(packages', cands[n].section)
    ensures Destination(cands[n]) in files' && files'[Destination(cands[n])] == cands[n].content
       <==> LastPuts(Baseline(packages), cands, names, Destination(cands[n]), cands[n].content)
    ensures OwnFiles(cands) ==> Destination(cands[n]) in files' && files'[Destination(cands[n])] == cands[n].content
  {
    CandidatesFit(files, packages, repairs, cands);
    var c := cands[n];
    forall s <- FEEDS
      ensures Count(Listed(packages', s), n) == if s == c.section then 1 else 0
      ensures s == c.section ==> NewEntry(c) in Listed(packages', s) {
      SectionIs(files, packages, repairs, cands, names, files', packages', s);
      SectionHas(Listed(packages, s), cands, names, s, n);
    }
    NewFileIs(files, Baseline(packages), cands, names, n);
  }

  lemma {:induction false} NewFileIs(files: map<Path, string>, index: Index, cands: map<string, Repair>,
                                     names: seq<string>, n: string)
    requires Keyed(cands, names) && n in names
    ensures var after, d := FilesAfter(files, index, cands, names), Destination(cands[n]);
            && (d in after && after[d] == cands[n].content <==> LastPuts(index, cands, names, d, cands[n].content))
            && (OwnFiles(cands) ==> d in after && after[d] == cands[n].content)
  {
    var d := Destination(cands[n]);
    var i :| 0 <= i < |names| && names[i] == n;
    FilesAt(files, index, cands, names, d);
    assert Touches(index, cands[names[i]], d);
    var k := LastTouch(index, cands, names, d);
    assert cands[names[k]].file == cands[n].file;
  }

  lemma SectionHas(entries: seq<Entry>, cands: map<string, Repair>, names: seq<string>, s: string, n: string)
    requires Keyed(cands, names) && SortedList(names, cands.Keys) && n in cands
    ensures var l := ByPackage(Retain(entries, cands.Keys) + News(cands, names, s));
            && Count(l, n) == (if s == cands[n].section then 1 else 0)
            && (s == cands[n].section ==> NewEntry(cands[n]) in l)
  {
    var kept, news, e := Retain(entries, cands.Keys), News(cands, names, s), NewEntry(cands[n]);
    CountRetain(entries, cands.Keys, n);
    CountNews(cands, names, s, n);
    CountConcat(kept, news, n);
    CountSorted(kept + news, n);
    NewsIn(cands, names, s, e);
    SortBySorts(PackageOf, kept + news);
    assert e in news ==> e in multiset(kept + news);
  }

  /** Every stanza of another package is kept as often as it was there, and nothing else appears. */
  lemma OtherStanzasKept(files: map<Path, string>, packages: Index, repairs: seq<Repair>, cands: map<string, Repair>,
                         names: seq<string>, files': map<Path, string>, packages': Index, s: string, e: Entry)
    requires Acceptable(files, packages, repairs) && Chosen(repairs, cands) && SortedList(names, cands.Keys)
    requires MergedTo(files, packages, cands, names, files', packages') && s in FEEDS && e.package !in cands
    ensures multiset(Listed(packages', s))[e] == multiset(Listed(packages, s))[e]
    ensures OrderedBy(PackageOf, Listed(packages', s))
  {
    var index := Baseline(packages);
    CandidatesFit(files, packages, repairs, cands);
    IndexIs(index, cands, names, s);
    var after, kept, news := IndexAfter(index, cands, names), Retain(index[s], Named(names)), News(cands, names, s);
    SortBySorts(PackageOf, after[s]);
    NewsIn(cands, names, s, e);
    RetainTimes(index[s], Named(names), e);
    assert after[s] == kept + news;
    assert multiset(news)[e] == 0;
  }

  lemma {:induction false} RetainTimes(a: seq<Entry>, gone: set<string>, e: Entry)
    requires e.package !in gone
    ensures multiset(Retain(a, gone))[e] == multiset(a)[e]
  {
    if a != [] {
      RetainTimes(a[1..], gone, e);
      assert a == [a[0]] + a[1..];
    }
  }

  /** A path that no repair touches stays; one whose last repair removes it is gone. */
  lemma OtherFilesKept(files: map<Path, string>, packages: Index, repairs: seq<Repair>, cands: map<string, Repair>,
                       names: seq<string>, files': map<Path, string>, packages': Index, p: Path)
    requires Acceptable(files, packages, repairs) && Chosen(repairs, cands) && SortedList(names, cands.Keys)
    requires MergedTo(files, packages, cands, names, files', packages')
    ensures Untouched(Baseline(packages), cands, p) ==> SameAt(files, files', p)
    ensures !Untouched(Baseline(packages), cands, p)
        ==> (p in files' <==> exists content :: LastPuts(Baseline(packages), cands, names, p, content))
  {
    CandidatesFit(files, packages, repairs, cands);
    FilesAt(files, Baseline(packages), cands, names, p);
    TouchedIff(Baseline(packages), cands, names, p);
    var k := LastTouch(Baseline(packages), cands, names, p);
    assert k >= 0 && p in files' ==> LastPuts(Baseline(packages), cands, names, p, cands[names[k]].content);
  }

  ghost predicate Untouched(index: Index, cands: map<string, Repair>, p: Path) {
    forall n <- cands :: !Touches(index, cands[n], p)
  }

  lemma TouchedIff(index: Index, cands: map<string, Repair>, names: seq<string>, p: Path)
    requires SortedList(names, cands.Keys)
    ensures Untouched(index, cands, p) <==> LastTouch(index, cands, names, p) < 0
  {
    var k := LastTouch(index, cands, names, p);
    if k >= 0 {
      assert names[k] in cands;
    } else {
      forall n | n in cands ensures !Touches(index, cands[n], p) {
        var i :| 0 <= i < |names| && names[i] == n;
      }
    }
  }

  /** With file names of their own, the old files of repaired packages outside their section are gone. */
  lemma StaleFilesGone(files: map<Path, string>, packages: Index, repairs: seq<Repair>, cands: map<string, Repair>,
                       names: seq<string>, files': map<Path, string>, packages': Index, p: Path, n: string)
    requires Acceptable(files, packages, repairs) && Chosen(repairs, cands) && SortedList(names, cands.Keys)
    requires MergedTo(files, packages, cands, names, files', packages') && OwnFiles(cands)
    requires n in cands && p != Destination(cands[n]) && Stale(Baseline(packages), cands[n], p)
    ensures p !in files'
  {
    CandidatesFit(files, packages, repairs, cands);
    FilesAt(files, Baseline(packages), cands, names, p);
    TouchOwn(Baseline(packages), cands, names, p, n);
  }

  /** The file of a package that is not repaired stays exactly if no repair touches it, or the last one
      that does puts the same bytes there. */
  lemma RetainedFileKeptIff(files: map<Path, string>, packages: Index, repairs: seq<Repair>, cands: map<string, Repair>,
                            names: seq<string>, files': map<Path, string>, packages': Index, s: string, e: Entry)
    requires Acceptable(files, packages, repairs) && Chosen(repairs, cands) && SortedList(names, cands.Keys)
    requires MergedTo(files, packages, cands, names, files', packages')
    requires s in FEEDS && e in Listed(packages, s) && e.package !in cands
    ensures (s, e.filename) in files
    ensures SameAt(files, files', (s, e.filename))
       <==> Untouched(Baseline(packages), cands, (s, e.filename))
            || LastPuts(Baseline(packages), cands, names, (s, e.filename), files[(s, e.filename)])
  {
    assert SoundEntry(files, s, e);
    CandidatesFit(files, packages, repairs, cands);
    FilesAt(files, Baseline(packages), cands, names, (s, e.filename));
    TouchedIff(Baseline(packages), cands, names, (s, e.filename));
  }

  lemma OwnTouch(index: Index, cands: map<string, Repair>, names: seq<string>, p: Path, content: string)
    requires Keyed(cands, names) && OwnFiles(cands) && SortedList(names, cands.Keys) && p.0 in index
    ensures Untouched(index, cands, p) || LastPuts(index, cands, names, p, content)
       <==> forall n <- cands | cands[n].file == p.1 ::
              if cands[n].section == p.0 then cands[n].content == content else Count(index[p.0], n) == 0
  {
    TouchedIff(index, cands, names, p);
    if n :| n in cands && cands[n].file == p.1 {
      TouchOwn(index, cands, names, p, n);
      assert forall m <- cands | cands[m].file == p.1 :: m == n;
    }
  }

  /** With file names of their own: exactly if every repair of that file name either goes to this section
      with the same bytes, or goes elsewhere and had no stanza here. */
  lemma RetainedFileKeptIffOwn(files: map<Path, string>, packages: Index, repairs: seq<Repair>,
                               cands: map<string, Repair>, names: seq<string>, files': map<Path, string>,
                               packages': Index, s: string, e: Entry)
    requires Acceptable(files, packages, repairs) && Chosen(repairs, cands) && SortedList(names, cands.Keys)
    requires MergedTo(files, packages, cands, names, files', packages') && OwnFiles(cands)
    requires s in FEEDS && e in Listed(packages, s) && e.package !in cands
    ensures (s, e.filename) in files
    ensures SameAt(files, files', (s, e.filename))
       <==> forall n <- cands | cands[n].file == e.filename ::
              if cands[n].section == s then cands[n].content == files[(s, e.filename)]
              else Count(Listed(packages, s), n) == 0
  {
    var p := (s, e.filename);
    RetainedFileKeptIff(files, packages, repairs, cands, names, files', packages', s, e);
    CandidatesFit(files, packages, repairs, cands);
    OwnTouch(Baseline(packages), cands, names, p, files[p]);
  }

  /** In particular where file names do not clash at all. */
  lemma RetainedFilesKept(files: map<Path, string>, packages: Index, repairs: seq<Repair>, cands: map<string, Repair>,
                          names: seq<string>, files': map<Path, string>, packages': Index, s: string, e: Entry)
    requires Acceptable(files, packages, repairs) && Chosen(repairs, cands) && SortedList(names, cands.Keys)
    requires MergedTo(files, packages, cands, names, files', packages')
    requires OwnFiles(cands) && Apart(Baseline(packages), cands)
    requires s in FEEDS && e in Listed(packages, s) && e.package !in cands
    ensures (s, e.filename) in files && SameAt(files, files', (s, e.filename))
  {
    assert e in Baseline(packages)[s];
    RetainedFileKeptIffOwn(files, packages, repairs, cands, names, files', packages', s, e);
  }

  /** The stanzas of the merged feed: those of packages that are not repaired, and one of each repair. */
  ghost predicate Sections(packages: Index, cands: map<string, Repair>, packages': Index) {
    && (forall s <- FEEDS, e <- Listed(packages, s) | e.package !in cands :: e in Listed(packages', s))
    && (forall n <- cands :: cands[n].section in FEEDS && NewEntry(cands[n]) in Listed(packages', cands[n].section))
    && (forall s <- FEEDS, e <- Listed(packages', s) ::
          || (e in Listed(packages, s) && e.package !in cands)
          || exists n :: n in cands && cands[n].section == s && e == NewEntry(cands[n]))
  }

  lemma SectionsAre(files: map<Path, string>, packages: Index, repairs: seq<Repair>, cands: map<string, Repair>,
                    names: seq<string>, files': map<Path, string>, packages': Index)
    requires Acceptable(files, packages, repairs) && Chosen(repairs, cands) && SortedList(names, cands.Keys)
    requires MergedTo(files, packages, cands, names, files', packages')
    ensures Sections(packages, cands, packages')
  {
    CandidatesFit(files, packages, repairs, cands);
    forall s, e | s in FEEDS
      ensures e in Listed(packages', s) <==> InMerged(Listed(packages, s), cands, names, s, e)
    {
      SectionIs(files, packages, repairs, cands, names, files', packages', s);
      InSection(Listed(packages, s), cands, names, s, e);
    }
    forall n | n in cands
      ensures cands[n].section in FEEDS
      ensures InMerged(Listed(packages, cands[n].section), cands, names, cands[n].section, NewEntry(cands[n])) {
      assert n in names;
    }
  }

  ghost predicate InMerged(entries: seq<Entry>, cands: map<string, Repair>, names: seq<string>, s: string, e: Entry)
    requires forall n <- names :: n in cands
  {
    || (e in entries && e.package !in cands)
    || exists n :: n in names && cands[n].section == s && e == NewEntry(cands[n])
  }

  lemma {:induction false} InSection(entries: seq<Entry>, cands: map<string, Repair>, names: seq<string>, s: string,
                                     e: Entry)
    requires forall n <- names :: n in cands
    ensures e in ByPackage(Retain(entries, cands.Keys) + News(cands, names, s))
       <==> InMerged(entries, cands, names, s, e)
  {
    var all := Retain(entries, cands.Keys) + News(cands, names, s);
    SortBySorts(PackageOf, all);
    assert e in ByPackage(all) <==> e in multiset(ByPackage(all));
    RetainIn(entries, cands.Keys, e);
    NewsIn(cands, names, s, e);
  }

  /** No repair touches the path, or the last one that does goes there. */
  ghost predicate Stays(index: Index, cands: map<string, Repair>, names: seq<string>, p: Path)
    requires forall n <- names :: n in cands
  {
    var k := LastTouch(index, cands, names, p);
    k < 0 || Destination(cands[names[k]]) == p
  }

  lemma {:induction false} StaysIff(files: map<Path, string>, index: Index, cands: map<string, Repair>,
                                    names: seq<string>, p: Path)
    requires Keyed(cands, names) && p in files
    ensures p in FilesAfter(files, index, cands, names) <==> Stays(index, cands, names, p)
  {
    FilesAt(files, index, cands, names, p);
  }

  lemma {:induction false} RepairStaysIff(files: map<Path, string>, index: Index, cands: map<string, Repair>,
                                          names: seq<string>, n: string)
    requires Keyed(cands, names) && n in names
    ensures var p := Destination(cands[n]);
            p in FilesAfter(files, index, cands, names) <==> Stays(index, cands, names, p)
  {
    var p := Destination(cands[n]);
    FilesAt(files, index, cands, names, p);
    var i :| 0 <= i < |names| && names[i] == n;
    assert Touches(index, cands[names[i]], p);
  }

  /** The file of every package that is not repaired, and of every repair, stays. */
  ghost predicate AllStay(packages: Index, cands: map<string, Repair>, names: seq<string>)
    requires forall n <- names :: n in cands
  {
    && KeptStay(packages, cands, names)
    && forall n <- cands :: Stays(Baseline(packages), cands, names, Destination(cands[n]))
  }

  ghost predicate KeptStay(packages: Index, cands: map<string, Repair>, names: seq<string>)
    requires forall n <- names :: n in cands
  {
    forall s <- FEEDS, e <- Listed(packages, s) | e.package !in cands ::
      Stays(Baseline(packages), cands, names, (s, e.filename))
  }

  /** The merged feed passes the baseline check again exactly if the file of every package that is not
      repaired, and of every repair, is not removed by a repair without a later one going there. */
  lemma MergedFeedIsSound(files: map<Path, string>, packages: Index, repairs: seq<Repair>, cands: map<string, Repair>,
                          names: seq<string>, files': map<Path, string>, packages': Index)
    requires Acceptable(files, packages, repairs) && Chosen(repairs, cands) && SortedList(names, cands.Keys)
    requires MergedTo(files, packages, cands, names, files', packages')
    ensures SoundBaseline(files', packages') <==> AllStay(packages, cands, names)
    ensures OwnFiles(cands) && Apart(Baseline(packages), cands) ==> SoundBaseline(files', packages')
  {
    CandidatesFit(files, packages, repairs, cands);
    SectionsAre(files, packages, repairs, cands, names, files', packages');
    assert repairs[0] in repairs;
    SoundIff(files, packages, cands, names, files', packages');
    if OwnFiles(cands) && Apart(Baseline(packages), cands) {
      OwnStay(packages, cands, names);
    }
  }

  ghost predicate HasFile(files: map<Path, string>, s: string, e: Entry) {
    (s, e.filename) in files
  }

  lemma {:induction false} SoundIff(files: map<Path, string>, packages: Index, cands: map<string, Repair>,
                                    names: seq<string>, files': map<Path, string>, packages': Index)
    requires Keyed(cands, names) && SortedList(names, cands.Keys) && cands != map[]
    requires forall n <- cands :: SoundRepair(cands[n])
    requires forall s <- FEEDS, e <- Listed(packages, s) :: SoundEntry(files, s, e)
    requires Sections(packages, cands, packages') && files' == FilesAfter(files, Baseline(packages), cands, names)
    ensures SoundBaseline(files', packages') <==> AllStay(packages, cands, names)
  {
    NamesStay(files, packages, cands, files', packages');
    EntriesThere(packages, cands, files', packages');
    assert forall s <- FEEDS, e <- Listed(packages, s) :: HasFile(files, s, e);
    ThereIff(files, packages, cands, names);
    var n :| n in cands;
    assert NewEntry(cands[n]) in Listed(packages', cands[n].section);
  }

  /** Every stanza of the merged feed has the name of its file right. */
  lemma {:induction false} NamesStay(files: map<Path, string>, packages: Index, cands: map<string, Repair>,
                                     files': map<Path, string>, packages': Index)
    requires forall n <- cands :: SoundRepair(cands[n])
    requires forall s <- FEEDS, e <- Listed(packages, s) :: SoundEntry(files, s, e)
    requires Sections(packages, cands, packages')
    ensures forall s <- FEEDS, e <- Listed(packages', s) :: SoundEntry(files', s, e) <==> HasFile(files', s, e)
  {
  }

  /** All files are there if those of the kept and of the new stanzas are. */
  lemma {:induction false} EntriesThere(packages: Index, cands: map<string, Repair>, files': map<Path, string>,
                                        packages': Index)
    requires Sections(packages, cands, packages')
    ensures (forall s <- FEEDS, e <- Listed(packages', s) :: HasFile(files', s, e))
       <==> AllThere(packages, cands, files')
  {
  }

  ghost predicate AllThere(packages: Index, cands: map<string, Repair>, files': map<Path, string>) {
    KeptThere(packages, cands, files') && forall n <- cands :: HasFile(files', cands[n].section, NewEntry(cands[n]))
  }

  ghost predicate KeptThere(packages: Index, cands: map<string, Repair>, files': map<Path, string>) {
    forall s <- FEEDS, e <- Listed(packages, s) | e.package !in cands :: HasFile(files', s, e)
  }

  lemma {:induction false} ThereIff(files: map<Path, string>, packages: Index, cands: map<string, Repair>,
                                    names: seq<string>)
    requires Keyed(cands, names) && SortedList(names, cands.Keys)
    requires forall s <- FEEDS, e <- Listed(packages, s) :: HasFile(files, s, e)
    ensures AllThere(packages, cands, FilesAfter(files, Baseline(packages), cands, names))
       <==> AllStay(packages, cands, names)
  {
    KeptIff(files, packages, cands, names);
    forall n | n in cands
      ensures HasFile(FilesAfter(files, Baseline(packages), cands, names), cands[n].section, NewEntry(cands[n]))
         <==> Stays(Baseline(packages), cands, names, Destination(cands[n])) {
      RepairStaysIff(files, Baseline(packages), cands, names, n);
    }
  }

  lemma {:induction false} KeptIff(files: map<Path, string>, packages: Index, cands: map<string, Repair>,
                                   names: seq<string>)
    requires Keyed(cands, names)
    requires forall s <- FEEDS, e <- Listed(packages, s) :: HasFile(files, s, e)
    ensures KeptThere(packages, cands, FilesAfter(files, Baseline(packages), cands, names))
       <==> KeptStay(packages, cands, names)
  {
    var files', index := FilesAfter(files, Baseline(packages), cands, names), Baseline(packages);
    forall s, e | s in FEEDS && e in Listed(packages, s) && e.package !in cands
      ensures HasFile(files', s, e) <==> Stays(index, cands, names, (s, e.filename)) {
      assert HasFile(files, s, e);
      StaysIff(files, index, cands, names, (s, e.filename));
    }
  }

  lemma {:induction false} OwnStay(packages: Index, cands: map<string, Repair>, names: seq<string>)
    requires Keyed(cands, names) && SortedList(names, cands.Keys)
    requires OwnFiles(cands) && Apart(Baseline(packages), cands)
    ensures AllStay(packages, cands, names)
  {
    var index := Baseline(packages);
    forall n | n in cands ensures Stays(index, cands, names, Destination(cands[n])) {
      TouchOwn(index, cands, names, Destination(cands[n]), n);
    }
    forall s, e | s in FEEDS && e in Listed(packages, s) && e.package !in cands
      ensures Stays(index, cands, names, (s, e.filename)) {
      Untouchable(index, cands, names, s, e);
    }
  }

  lemma {:induction false} Untouchable(index: Index, cands: map<string, Repair>, names: seq<string>, s: string,
                                       e: Entry)
    requires Keyed(cands, names) && Apart(index, cands) && s in index && e in index[s] && e.package !in cands
    ensures LastTouch(index, cands, names, (s, e.filename)) < 0
  {
    var k := LastTouch(index, cands, names, (s, e.filename));
    if k >= 0 {
      assert false;
    }
  }

  lemma CandidateSound(repairs: seq<Repair>, cands: map<string, Repair>, n: string)
    requires SoundRepairs(repairs) && Chosen(repairs, cands) && n in cands
    ensures SoundRepair(cands[n]) && cands[n].package == n && cands[n] in repairs
  {
    var i :| LastFor(repairs, n, i) && repairs[i] == cands[n];
    assert repairs[i] in repairs;
  }

  /** Where no version has an underscore, and only the two known architectures occur, file names
      cannot clash. */
  lemma UnderscoreFreeIsApart(files: map<Path, string>, packages: Index, repairs: seq<Repair>,
                              cands: map<string, Repair>)
    requires Acceptable(files, packages, repairs) && Chosen(repairs, cands)
    requires forall r <- repairs :: '_' !in r.version
    requires forall s <- FEEDS, e <- Listed(packages, s) :: '_' !in e.version && e.arch in ARCHES
    ensures OwnFiles(cands) && Apart(Baseline(packages), cands)
  {
    CandidatesFit(files, packages, repairs, cands);
    forall n <- cands ensures cands[n].package == n && SoundRepair(cands[n]) && '_' !in cands[n].version {
      CandidateSound(repairs, cands, n);
    }
    forall m, n | m in cands && n in cands && cands[m].file == cands[n].file ensures m == n {
      var a, b := cands[m], cands[n];
      FileNamesInjective(a.package, a.version, a.arch, b.package, b.version, b.arch);
    }
    var index := Baseline(packages);
    forall s, e: Entry, n | s in index && e in index[s] && n in cands && e.filename == cands[n].file
      ensures e.package in cands {
      assert SoundEntry(files, s, e);
      var c := cands[n];
      FileNamesInjective(e.package, e.version, e.arch, c.package, c.version, c.arch);
    }
  }

  /** With an underscore they can: the repair of package a overwrites the file of package a_1, whose
      stanza stays. */
  lemma UnderscoreOverwrites() returns (files: map<Path, string>, packages: Index, c: Repair, e: Entry)
    ensures Acceptable(files, packages, [c]) && Chosen([c], map[c.package := c])
    ensures AllRemovable(files, Baseline(packages), map[c.package := c], [c.package])
    ensures e in Listed(packages, "base") && e.package != c.package && e.digest == Sha256("old")
    ensures forall files', packages' | MergedTo(files, packages, map[c.package := c], [c.package], files', packages') ::
      e in Listed(packages', "base") && ("base", e.filename) in files' && files'[("base", e.filename)] == "new"
  {
    FileNamesCollide();
    var file := FileName("a", "1_2", "all");
    c := Repair("base", file, "a", "1_2", "all", "", "new", false, false);
    e := Entry("a_1", "2", "all", "", file, 3, Sha256("old"));
    files, packages := map[("base", file) := "old"], map["base" := [e]];
    assert e.package[1] == '_';
    CheckExample(files, packages, c, e);
    RemovableExample(files, packages, c);
    forall files', packages' | MergedTo(files, packages, map[c.package := c], [c.package], files', packages')
      ensures e in Listed(packages', "base") && ("base", file) in files' && files'[("base", file)] == "new" {
      MergeExample(files, packages, c, e, files', packages');
    }
  }

  /** Two accepted repairs of different packages with one destination: both get their stanza, but the file
      is that of the second. */
  lemma SharedDestination() returns (files: map<Path, string>, packages: Index, a: Repair, b: Repair)
    ensures Acceptable(files, packages, [a, b]) && a.package != b.package && Destination(a) == Destination(b)
    ensures var cands, names := map[a.package := a, b.package := b], [a.package, b.package];
            && Chosen([a, b], cands) && SortedList(names, cands.Keys)
            && AllRemovable(files, Baseline(packages), cands, names)
            && forall files', packages' | MergedTo(files, packages, cands, names, files', packages') ::
                 && NewEntry(a) in Listed(packages', "base") && NewEntry(b) in Listed(packages', "base")
                 && !(Destination(a) in files' && files'[Destination(a)] == a.content)
  {
    FileNamesCollide();
    var file := FileName("a", "1_2", "all");
    a := Repair("base", file, "a", "1_2", "all", "", "new", false, false);
    b := Repair("base", file, "a_1", "2", "all", "", "other", false, false);
    var e := Entry("c", "1", "all", "", FileName("c", "1", "all"), 3, Sha256("old"));
    files, packages := map[("base", e.filename) := "old"], map["base" := [e]];
    var cands, names := map[a.package := a, b.package := b], [a.package, b.package];
    assert b.package[1] == '_' && e.package[0] == 'c' && a.package[0] == 'a';
    NamesInOrder(a.package, b.package);
    PairAccepted(files, packages, a, b, e);
    PairRemovable(files, packages, a, b, e, names);
    forall files', packages' | MergedTo(files, packages, cands, names, files', packages')
      ensures NewEntry(a) in Listed(packages', "base") && NewEntry(b) in Listed(packages', "base")
      ensures !(Destination(a) in files' && files'[Destination(a)] == a.content) {
      OneStanzaEach(files, packages, [a, b], cands, names, files', packages', a.package);
      OneStanzaEach(files, packages, [a, b], cands, names, files', packages', b.package);
      LastOfTwo(Baseline(packages), cands, names, Destination(a));
      assert a.content[0] != b.content[0];
    }
  }

  lemma NamesInOrder(x: string, y: string)
    requires x == "a" && y == "a_1"
    ensures Increasing([x, y])
  {
    assert x[1..] == "" && Le(x, y);
  }

  lemma PairAccepted(files: map<Path, string>, packages: Index, a: Repair, b: Repair, e: Entry)
    requires packages == map["base" := [e]] && SoundEntry(files, "base", e) && SoundRepair(a) && SoundRepair(b)
    requires a.package != b.package && e.package != a.package && e.package != b.package
    ensures Acceptable(files, packages, [a, b]) && Chosen([a, b], map[a.package := a, b.package := b])
  {
    var cands := map[a.package := a, b.package := b];
    assert FEEDS[0] == "base";
    assert Listed(packages, "base") == [e];
    assert LastFor([a, b], a.package, 0) && LastFor([a, b], b.package, 1);
    forall other | Chosen([a, b], other) ensures other == cands {
      ChosenUnique([a, b], other, cands);
    }
  }

  lemma PairRemovable(files: map<Path, string>, packages: Index, a: Repair, b: Repair, e: Entry, names: seq<string>)
    requires packages == map["base" := [e]] && a.section == b.section == "base" && a.package != b.package
    requires Acceptable(files, packages, [a, b]) && Chosen([a, b], map[a.package := a, b.package := b])
    requires names == [a.package, b.package] && Increasing(names)
    ensures AllRemovable(files, Baseline(packages), map[a.package := a, b.package := b], names)
  {
    var cands, index := map[a.package := a, b.package := b], Baseline(packages);
    MergeCompletesIff(files, packages, [a, b], cands, names);
    forall s | s in index && s != "base" ensures index[s] == [] {}
    forall k, s | 0 <= k < |names| && s in index && s != cands[names[k]].section
      ensures Count(index[s], names[k]) == 0
    {
      assert index[s] == [];
    }
  }

  lemma LastOfTwo(index: Index, cands: map<string, Repair>, names: seq<string>, p: Path)
    requires |names| == 2 && (forall n <- names :: n in cands) && p == Destination(cands[names[1]])
    ensures LastTouch(index, cands, names, p) == 1
  {
  }

  /** A feed with two stanzas of one package in a section, and a repair for another section, all accepted:
      the second unlink misses. */
  lemma DuplicateBreaks() returns (files: map<Path, string>, packages: Index, c: Repair)
    ensures Acceptable(files, packages, [c]) && Chosen([c], map[c.package := c])
    ensures !AllRemovable(files, Baseline(packages), map[c.package := c], [c.package])
  {
    var file := FileName("a", "1", "all");
    c := Repair("luci", file, "a", "1", "all", "", "new", false, false);
    var e := Entry("a", "1", "all", "", file, 3, Sha256("old"));
    files, packages := map[("base", file) := "old"], map["base" := [e, e]];
    DuplicateAccepted(files, packages, c, e);
    DuplicateStale(files, packages, c, e);
  }

  lemma DuplicateAccepted(files: map<Path, string>, packages: Index, c: Repair, e: Entry)
    requires packages == map["base" := [e, e]] && SoundEntry(files, "base", e) && SoundRepair(c)
    requires c.package == e.package && c.version == e.version && c.arch == e.arch
    ensures Acceptable(files, packages, [c]) && Chosen([c], map[c.package := c])
  {
    var cands := map[c.package := c];
    assert FEEDS[0] == "base";
    assert Listed(packages, "base") == [e, e];
    assert LastFor([c], c.package, 0);
    forall other | Chosen([c], other) ensures other == cands {
      ChosenUnique([c], other, cands);
    }
  }

  lemma DuplicateStale(files: map<Path, string>, packages: Index, c: Repair, e: Entry)
    requires packages == map["base" := [e, e]] && c.section != "base" && c.package == e.package
    ensures !AllRemovable(files, Baseline(packages), map[c.package := c], [c.package])
  {
    var index := Baseline(packages);
    JustOne(files, index, c);
    assert index["base"] == [e, e] by {
      assert FEEDS[0] == "base";
    }
    CountOne(e, c.package);
    CountAppend([e], e, c.package);
    assert [e] + [e] == [e, e];
    assert !MayUnlink(files, index, c, "base");
  }

  lemma CheckExample(files: map<Path, string>, packages: Index, c: Repair, e: Entry)
    requires packages == map["base" := [e]] && SoundEntry(files, "base", e) && SoundRepair(c) && c.package != e.package
    ensures Acceptable(files, packages, [c]) && Chosen([c], map[c.package := c])
  {
    var cands := map[c.package := c];
    assert FEEDS[0] == "base";
    assert Listed(packages, "base") == [e];
    assert LastFor([c], c.package, 0);
    forall other | Chosen([c], other) ensures other == cands {
      ChosenUnique([c], other, cands);
    }
  }

  lemma JustOne(files: map<Path, string>, index: Index, c: Repair)
    ensures var cands, names := map[c.package := c], [c.package];
            && IndexAfter(index, cands, names) == StepIndex(index, c)
            && FilesAfter(files, index, cands, names) == StepFiles(files, index, c)
            && (AllRemovable(files, index, cands, names) <==> Removable(files, index, c))
  {
    var cands, names := map[c.package := c], [c.package];
    assert names[..0] == [];
    assert IndexAfter(index, cands, []) == index && FilesAfter(files, index, cands, []) == files;
  }

  lemma RemovableExample(files: map<Path, string>, packages: Index, c: Repair)
    requires packages.Keys == {"base"} && c.section == "base"
    ensures AllRemovable(files, Baseline(packages), map[c.package := c], [c.package])
  {
    var index := Baseline(packages);
    JustOne(files, index, c);
    forall s <- index ensures MayUnlink(files, index, c, s) {
      if s != "base" {
        assert index[s] == [];
      }
    }
  }

  lemma MergeExample(files: map<Path, string>, packages: Index, c: Repair, e: Entry,
                     files': map<Path, string>, packages': Index)
    requires packages == map["base" := [e]] && c.section == "base" && c.package != e.package && c.file == e.filename
    requires MergedTo(files, packages, map[c.package := c], [c.package], files', packages')
    ensures e in Listed(packages', "base")
    ensures ("base", e.filename) in files' && files'[("base", e.filename)] == c.content
  {
    var index := Baseline(packages);
    JustOne(files, index, c);
    assert index["base"] == [e] by {
      assert FEEDS[0] == "base";
    }
    ReplaceInSection(packages, index, c, e);
  }

  lemma ReplaceInSection(packages: Index, index: Index, c: Repair, e: Entry)
    requires c.section in index && index[c.section] == [e] && c.package != e.package
    ensures e in Listed(Written(packages, StepIndex(index, c)), c.section)
  {
    var after := StepIndex(index, c)[c.section];
    assert Retain([e], {c.package}) == [e];
    assert after == [e, NewEntry(c)];
    SortBySorts(PackageOf, after);
    assert e in multiset(after);
    assert e in multiset(ByPackage(after));
  }
}
