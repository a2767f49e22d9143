/** The feed tree and the repairs that scripts/merge-userspace-repairs.py works on. */
module RepairModel {
  import opened Wrappers
  import opened Ordering
  import opened PackageNames

  /** One stanza of an index: the control text and the identity of the package file. */
  datatype Entry = Entry(package: string, version: string, arch: string, control: string,
                         filename: string, size: nat, digest: Digest)

  /** One package file found in a repair output. */
  datatype Repair = Repair(section: string, file: string, package: string, version: string, arch: string,
                           control: string, content: string, symlink: bool, reserved: bool)

  type Path = (string, string)   // section and file name

  predicate SoundEntry(files: map<Path, string>, s: string, e: Entry) {
    && CleanIdentity(e.package, e.version, e.arch)
    && e.filename == FileName(e.package, e.version, e.arch)
    && (s, e.filename) in files
  }

  predicate SoundRepair(r: Repair) {
    && !r.symlink && r.section in FEEDS
    && CleanIdentity(r.package, r.version, r.arch) && r.file == FileName(r.package, r.version, r.arch)
    && r.arch in ARCHES && r.package != "kernel" && !("kmod-" <= r.package) && !r.reserved
  }

  function NewEntry(r: Repair): Entry {
    Entry(r.package, r.version, r.arch, r.control, r.file, |r.content|, Sha256(r.content))
  }

  function Destination(r: Repair): Path {
    (r.section, r.file)
  }

  function Retain(entries: seq<Entry>, gone: set<string>): seq<Entry> {
    if entries == [] then []
    else (if entries[0].package in gone then [] else [entries[0]]) + Retain(entries[1..], gone)
  }

  lemma {:induction false} RetainAppend(a: seq<Entry>, e: Entry, gone: set<string>)
    ensures Retain(a + [e], gone) == Retain(a, gone) + if e.package in gone then [] else [e]
  {
    if a == [] {
      assert a + [e] == [e];
    } else {
      RetainAppend(a[1..], e, gone);
      assert (a + [e])[1..] == a[1..] + [e];
    }
  }

  /** Taking out one more package. */
  lemma {:induction false} RetainMore(a: seq<Entry>, gone: set<string>, name: string)
    ensures Retain(Retain(a, gone), {name}) == Retain(a, gone + {name})
  {
    if a != [] {
      RetainMore(a[1..], gone, name);
      if a[0].package in gone {
        assert Retain(a, gone) == Retain(a[1..], gone);
      } else {
        assert Retain(a, gone) == [a[0]] + Retain(a[1..], gone);
        assert Retain(a, gone)[1..] == Retain(a[1..], gone);
      }
    }
  }

  lemma {:induction false} RetainIn(a: seq<Entry>, gone: set<string>, e: Entry)
    ensures e in Retain(a, gone) <==> e in a && e.package !in gone
  {
    if a != [] {
      RetainIn(a[1..], gone, e);
      assert e in a <==> e == a[0] || e in a[1..];
    }
  }

  lemma {:induction false} RetainAll(a: seq<Entry>, gone: set<string>)
    requires forall e <- a :: e.package !in gone
    ensures Retain(a, gone) == a
  {
    if a != [] {
      RetainAll(a[1..], gone);
    }
  }

  // ---------------------------------------------------------------- sorting an index by package

  function PackageOf(e: Entry): string {
    e.package
  }

  function ByPackage(l: seq<Entry>): seq<Entry> {
    SortBy(PackageOf, l)
  }
}
