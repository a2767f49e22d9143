/** The OPKG index of scripts/publication_layout.py: printed from records, and read back. */
module PackageIndex {
  import opened Ordering
  import opened TextLines

  datatype Record = Record(package: string, version: string, arch: string, filename: string, sha256: string, size: nat,
                           control: string)

  datatype ReadResult = Read(records: seq<Record>) | Invalid

  datatype RecordResult = Good(record: Record) | Bad

  const TRANSPORT: set<string> := {"Filename", "Size", "SHA256sum", "MD5Sum"}

  const SPACES: set<char> := {
    '\t', '\n', '\U{0B}', '\U{0C}', '\r', '\U{1C}', '\U{1D}', '\U{1E}', '\U{1F}', ' ', '\U{85}', '\U{A0}', '\U{1680}',
    '\U{2000}', '\U{2001}', '\U{2002}', '\U{2003}', '\U{2004}', '\U{2005}', '\U{2006}', '\U{2007}', '\U{2008}',
    '\U{2009}', '\U{200A}', '\U{2028}', '\U{2029}', '\U{202F}', '\U{205F}', '\U{3000}'}

  // ---------------------------------------------------------------- white space, blank lines, numbers

  lemma SpacesAre(c: char)
    ensures var n := c as int;
      c in SPACES <==>
        || 0x9 <= n <= 0xD || 0x1C <= n <= 0x20 || n == 0x85 || n == 0xA0 || n == 0x1680 || 0x2000 <= n <= 0x200A
        || n == 0x2028 || n == 0x2029 || n == 0x202F || n == 0x205F || n == 0x3000
  {
  }

  function LeftStrip(s: string): string {
    if s != "" && s[0] in SPACES then LeftStrip(s[1..]) else s
  }

  function RightStrip(s: string): string {
    if s != "" && s[|s| - 1] in SPACES then RightStrip(s[..|s| - 1]) else s
  }

  function Strip(s: string): string {
    RightStrip(LeftStrip(s))
  }

  /** Neither starts nor ends with white space. */
  predicate Trim(s: string) {
    s != "" && s[0] !in SPACES && s[|s| - 1] !in SPACES
  }

  /** The first place of an empty line, or the length. */
  function FirstBlank(s: string): (n: nat)
    ensures n <= |s| && (n < |s| ==> n + 1 < |s| && s[n] == '\n' && s[n + 1] == '\n')
  {
    if |s| < 2 then |s| else if s[0] == '\n' && s[1] == '\n' then 0 else 1 + FirstBlank(s[1..])
  }

  /** The parts between empty lines. */
  function SplitBlank(s: string): seq<string>
    decreases |s|
  {
    var n := FirstBlank(s);
    if n == |s| then [s] else [s[..n]] + SplitBlank(s[n + 2..])
  }

  function Decimal(n: nat): (s: string)
    ensures s != "" && forall c <- s :: '0' <= c <= '9'
  {
    (if n < 10 then "" else Decimal(n / 10)) + ['0' + (n % 10) as char]
  }

  datatype Number = NoNumber | Number(value: nat)

  function ParseDecimal(s: string): Number {
    if s == "" || !('0' <= s[|s| - 1] <= '9') then NoNumber
    else
      var digit := (s[|s| - 1] as int) - ('0' as int);
      if |s| == 1 then Number(digit)
      else
        match ParseDecimal(s[..|s| - 1])
        case NoNumber => NoNumber
        case Number(n) => Number(10 * n + digit)
  }

  lemma {:induction false} DecimalParses(n: nat)
    ensures ParseDecimal(Decimal(n)) == Number(n)
  {
    var s := Decimal(n);
    assert (s[|s| - 1] as int) - ('0' as int) == n % 10;
    if n >= 10 {
      assert s[..|s| - 1] == Decimal(n / 10);
      DecimalParses(n / 10);
      assert 10 * (n / 10) + n % 10 == n;
    }
  }

  // ---------------------------------------------------------------- fields

  /** The first place of ": ", or the length. */
  function ColonSpace(s: string): (n: nat)
    ensures n <= |s| && (n < |s| ==> n + 2 <= |s|)
  {
    if |s| < 2 then |s| else if s[0] == ':' && s[1] == ' ' then 0 else 1 + ColonSpace(s[1..])
  }

  datatype Field = Field(key: string, value: string) | NoField

  function ParseField(line: string): Field {
    var n := ColonSpace(line);
    if n == |line| || line[0] in SPACES then NoField else Field(line[..n], line[n + 2..])
  }

  /** The fields of a stanza; of a repeated one the last. */
  function Fields(lines: seq<string>): map<string, string> {
    if lines == [] then map[]
    else
      var front := Fields(lines[..|lines| - 1]);
      match ParseField(lines[|lines| - 1])
      case NoField => front
      case Field(key, value) => front[key := value]
  }

  predicate IsHeader(line: string) {
    line != "" && line[0] !in SPACES && ':' in line
  }

  function Kept(line: string, included: bool): bool {
    if IsHeader(line) then line[..Find(line, ':')] !in TRANSPORT else included
  }

  /** The lines that belong to no transport field; continuation lines go with their header. */
  function Keep(lines: seq<string>, included: bool): seq<string> {
    if lines == [] then []
    else (if Kept(lines[0], included) then [lines[0]] else []) + Keep(lines[1..], Kept(lines[0], included))
  }

  function ControlText(stanza: string): string {
    Between(Keep(SplitLines(Strip(stanza)), true), "\n")
  }

  method Controls(stanza: string) returns (text: string)
    ensures text == ControlText(stanza)
  {
    var lines := SplitLines(Strip(stanza));
    var result: seq<string> := [];
    var included := true;
    for i := 0 to |lines|
      invariant result + Keep(lines[i..], included) == Keep(lines, true)
    {
      var line := lines[i];
      KeepNext(result, lines, i, included);
      if IsHeader(line) {
        included := line[..Find(line, ':')] !in TRANSPORT;
      }
      if included {
        result := result + [line];
      }
    }
    assert result + Keep(lines[|lines|..], included) == result;
    text := Between(result, "\n");
  }

  lemma KeepNext(before: seq<string>, lines: seq<string>, i: nat, included: bool)
    requires i < |lines|
    ensures before + Keep(lines[i..], included)
         == (if Kept(lines[i], included) then before + [lines[i]] else before)
            + Keep(lines[i + 1..], Kept(lines[i], included))
  {
    assert lines[i..][0] == lines[i] && lines[i..][1..] == lines[i + 1..];
  }

  // ---------------------------------------------------------------- writing

  function Line(key: string, value: string): string {
    key + ": " + value
  }

  function Transport(r: Record): seq<string> {
    [Line("Filename", r.filename), Line("Size", Decimal(r.size)), Line("SHA256sum", r.sha256)]
  }

  function Stanza(r: Record): string {
    RightStrip(r.control) + "\n" + Line("Filename", r.filename) + "\n" + Line("Size", Decimal(r.size))
      + "\n" + Line("SHA256sum", r.sha256)
  }

  function FilenameOf(r: Record): string {
    r.filename
  }

  function Stanzas(records: seq<Record>): seq<string> {
    seq(|records|, i requires 0 <= i < |records| => Stanza(records[i]))
  }

  function Index(records: seq<Record>): string {
    Between(Stanzas(SortBy(FilenameOf, records)), "\n\n") + "\n\n"
  }

  /** What an index of sorted records is: their stanzas, each with an empty line behind it. */
  lemma {:induction false} IndexIs(r: Record, rest: seq<Record>)
    requires OrderedBy(FilenameOf, [r] + rest)
    ensures Index([r] + rest) == Stanza(r) + "\n\n" + (if rest == [] then "" else Index(rest))
  {
    var all := [r] + rest;
    SortBySorted(FilenameOf, all);
    RestOrdered(r, rest);
    SortBySorted(FilenameOf, rest);
    assert Stanzas(all)[0] == Stanza(r) && Stanzas(all)[1..] == Stanzas(rest);
  }

  lemma RestOrdered(r: Record, rest: seq<Record>)
    requires OrderedBy(FilenameOf, [r] + rest)
    ensures OrderedBy(FilenameOf, rest)
  {
    var all := [r] + rest;
    assert forall i | 0 <= i < |rest| :: rest[i] == all[i + 1];
  }

  lemma EmptyIs()
    ensures Index([]) == "\n\n"
  {
    assert SortBy(FilenameOf, []) == [];
  }

  /** Printing what was printed in order gives the same text. */
  lemma PrintedAgain(records: seq<Record>)
    ensures Index(SortBy(FilenameOf, records)) == Index(records)
  {
    SortBySorts(FilenameOf, records);
    SortBySorted(FilenameOf, SortBy(FilenameOf, records));
  }

  // ---------------------------------------------------------------- reading

  predicate IsLocalName(f: string) {
    f != "" && f != "." && '/' !in f
  }

  predicate IsUserspace(package: string) {
    package != "kernel" && package != "gcc" && !("kmod-" <= package)
  }

  /** One stanza checked against the package file beside the index. */
  function ReadStanza(stanza: string, files: map<string, string>, sha: string -> string,
                      userspace: bool): RecordResult {
    var fields := Fields(SplitLines(stanza));
    if !({"Filename", "SHA256sum", "Size", "Package", "Version", "Architecture"} <= fields.Keys) then Bad
    else
      var f := fields["Filename"];
      if !IsLocalName(f) || f !in files then Bad
      else if sha(files[f]) != fields["SHA256sum"] || Number(|files[f]|) != ParseDecimal(fields["Size"]) then Bad
      else if userspace && !IsUserspace(fields["Package"]) then Bad
      else Good(Record(fields["Package"], fields["Version"], fields["Architecture"], f, sha(files[f]), |files[f]|,
                       ControlText(stanza)))
  }

  /** One more part between empty lines: parts of white space are skipped. */
  function AddPart(before: ReadResult, part: string, files: map<string, string>, sha: string -> string, userspace: bool)
      : ReadResult {
    if before.Invalid? || Strip(part) == "" then before
    else
      match ReadStanza(part, files, sha, userspace)
      case Bad => Invalid
      case Good(record) => Read(before.records + [record])
  }

  function ReadAll(parts: seq<string>, files: map<string, string>, sha: string -> string, userspace: bool): ReadResult {
    if parts == [] then Read([])
    else AddPart(ReadAll(parts[..|parts| - 1], files, sha, userspace), parts[|parts| - 1], files, sha, userspace)
  }

  lemma ReadOneMore(parts: seq<string>, i: nat, files: map<string, string>, sha: string -> string, userspace: bool)
    requires i < |parts|
    ensures ReadAll(parts[..i + 1], files, sha, userspace)
         == AddPart(ReadAll(parts[..i], files, sha, userspace), parts[i], files, sha, userspace)
  {
    assert parts[..i + 1][..i] == parts[..i];
  }

  method ReadSection(text: string, files: map<string, string>, sha: string -> string, userspace: bool)
      returns (r: ReadResult)
    ensures r == ReadAll(SplitBlank(Strip(text)), files, sha, userspace)
  {
    var parts := SplitBlank(Strip(text));
    r := Read([]);
    for i := 0 to |parts|
      invariant r == ReadAll(parts[..i], files, sha, userspace)
    {
      ReadOneMore(parts, i, files, sha, userspace);
      r := AddPart(r, parts[i], files, sha, userspace);
      if r.Invalid? {
        InvalidStays(parts, i + 1, files, sha, userspace);
        return;
      }
    }
    assert parts[..|parts|] == parts;
  }

  lemma {:induction false} InvalidStays(parts: seq<string>, i: nat, files: map<string, string>, sha: string -> string,
                                        userspace: bool)
    requires i <= |parts| && ReadAll(parts[..i], files, sha, userspace).Invalid?
    ensures ReadAll(parts, files, sha, userspace).Invalid?
    decreases |parts|
  {
    if i < |parts| {
      assert parts[..|parts| - 1][..i] == parts[..i];
      InvalidStays(parts[..|parts| - 1], i, files, sha, userspace);
    } else {
      assert parts[..i] == parts;
    }
  }

  // ---------------------------------------------------------------- normal form

  /** The control text as lines: none is empty, none belongs to a transport field. */
  ghost predicate NormalLines(lines: seq<string>) {
    && lines != []
    && (forall l <- lines :: OneLine(l) && l != "")
    && (forall l <- lines | IsHeader(l) :: l[..Find(l, ':')] !in TRANSPORT)
  }

  ghost predicate NormalForm(r: Record, lines: seq<string>) {
    && NormalLines(lines) && r.control == Between(lines, "\n") && Trim(r.control)
    && {"Package", "Version", "Architecture"} <= Fields(lines).Keys
    && r.package == Fields(lines)["Package"] && r.version == Fields(lines)["Version"]
    && r.arch == Fields(lines)["Architecture"]
    && OneLine(r.filename) && IsLocalName(r.filename)
    && OneLine(r.sha256) && Trim(r.sha256)
  }

  /** The record describes the file of its name. */
  ghost predicate Describes(r: Record, files: map<string, string>, sha: string -> string, userspace: bool) {
    && r.filename in files && r.sha256 == sha(files[r.filename]) && r.size == |files[r.filename]|
    && (userspace ==> IsUserspace(r.package))
  }

  ghost predicate Publishable(records: seq<Record>, files: map<string, string>, sha: string -> string,
                              userspace: bool) {
    forall r <- records :: (exists lines :: NormalForm(r, lines)) && Describes(r, files, sha, userspace)
  }

  // ---------------------------------------------------------------- one stanza

  lemma {:induction false} BetweenAppend(a: seq<string>, b: string, separator: string)
    requires a != []
    ensures Between(a + [b], separator) == Between(a, separator) + separator + b
  {
    if |a| == 1 {
      assert a + [b] == [a[0], b];
      assert (a + [b])[1..] == [b];
    } else {
      BetweenAppend(a[1..], b, separator);
      assert (a + [b])[1..] == a[1..] + [b];
    }
  }

  lemma ThreeMore(lines: seq<string>, a: string, b: string, c: string, separator: string)
    requires lines != []
    ensures Between(lines + [a, b, c], separator)
         == Between(lines, separator) + separator + a + separator + b + separator + c
  {
    BetweenAppend(lines, a, separator);
    BetweenAppend(lines + [a], b, separator);
    BetweenAppend(lines + [a] + [b], c, separator);
    assert lines + [a, b, c] == lines + [a] + [b] + [c];
  }

  lemma LineIsLine(key: string, value: string)
    requires OneLine(key) && OneLine(value)
    ensures OneLine(Line(key, value)) && Line(key, value) != ""
  {
    assert OneLine(": ");
  }

  lemma StanzaText(r: Record, lines: seq<string>)
    requires NormalForm(r, lines)
    ensures Stanza(r) == Between(lines + Transport(r), "\n")
  {
    var t := Transport(r);
    ThreeMore(lines, t[0], t[1], t[2], "\n");
    assert RightStrip(r.control) == r.control;
  }

  lemma FilenameKey()
    ensures OneLine("Filename")
  {
  }

  lemma SizeKey()
    ensures OneLine("Size")
  {
  }

  lemma SumKey()
    ensures OneLine("SHA256sum")
  {
  }

  lemma TransportOneLine(r: Record)
    requires OneLine(r.filename) && OneLine(r.sha256)
    ensures forall l <- Transport(r) :: OneLine(l) && l != ""
  {
    FilenameKey();
    SizeKey();
    SumKey();
    LineIsLine("Filename", r.filename);
    LineIsLine("Size", Decimal(r.size));
    LineIsLine("SHA256sum", r.sha256);
  }

  lemma StanzaJoined(r: Record, lines: seq<string>)
    requires NormalForm(r, lines)
    ensures Stanza(r) == Between(lines + Transport(r), "\n")
    ensures forall l <- lines + Transport(r) :: OneLine(l) && l != ""
  {
    StanzaText(r, lines);
    TransportOneLine(r);
    AllLines(lines, Transport(r));
  }

  lemma StanzaLines(r: Record, lines: seq<string>)
    requires NormalForm(r, lines)
    ensures SplitLines(Stanza(r)) == lines + Transport(r)
  {
    StanzaJoined(r, lines);
    SplitBetween(lines + Transport(r));
  }

  lemma AllLines(a: seq<string>, b: seq<string>)
    requires forall l <- a :: OneLine(l) && l != ""
    requires forall l <- b :: OneLine(l) && l != ""
    ensures forall l <- a + b :: OneLine(l) && l != ""
  {
  }

  lemma {:induction false} ColonSpaceIs(key: string, value: string)
    requires ':' !in key
    ensures ColonSpace(key + ": " + value) == |key|
  {
    var s := key + ": " + value;
    if key != "" {
      assert s[0] == key[0] && s[1..] == key[1..] + ": " + value;
      ColonSpaceIs(key[1..], value);
    }
  }

  /** A printed transport line: its field, and that it is left out of the control text. */
  lemma TransportLine(key: string, value: string)
    requires key in TRANSPORT && IsKey(key)
    ensures ParseField(Line(key, value)) == Field(key, value)
    ensures !Kept(Line(key, value), true) && !Kept(Line(key, value), false)
  {
    var line := Line(key, value);
    ColonSpaceIs(key, value);
    assert line[..|key|] == key && line[|key| + 2..] == value;
    FindFirst(key, ':', " " + value);
    assert line == key + [':'] + (" " + value);
    assert line[0] == key[0];
  }

  predicate IsKey(key: string) {
    key != "" && key[0] !in SPACES && ':' !in key
  }

  lemma TransportKeys()
    ensures IsKey("Filename") && IsKey("Size") && IsKey("SHA256sum")
  {
  }

  lemma TransportLines(r: Record)
    ensures var t := Transport(r);
            && ParseField(t[0]) == Field("Filename", r.filename) && ParseField(t[1]) == Field("Size", Decimal(r.size))
            && ParseField(t[2]) == Field("SHA256sum", r.sha256)
            && (forall l <- t :: !Kept(l, true) && !Kept(l, false))
  {
    TransportKeys();
    TransportLine("Filename", r.filename);
    TransportLine("Size", Decimal(r.size));
    TransportLine("SHA256sum", r.sha256);
  }

  lemma {:induction false} KeepNothing(lines: seq<string>, included: bool)
    requires forall l <- lines :: !Kept(l, true) && !Kept(l, false)
    ensures Keep(lines, included) == []
  {
    if lines != [] {
      assert lines[0] in lines && forall l <- lines[1..] :: l in lines;
      KeepNothing(lines[1..], Kept(lines[0], included));
    }
  }

  lemma FieldsOfMore(lines: seq<string>, line: string)
    requires ParseField(line).Field?
    ensures Fields(lines + [line]) == Fields(lines)[ParseField(line).key := ParseField(line).value]
  {
    assert (lines + [line])[..|lines|] == lines;
  }

  lemma {:induction false} KeepNormal(lines: seq<string>, more: seq<string>)
    requires forall l <- lines | IsHeader(l) :: l[..Find(l, ':')] !in TRANSPORT
    ensures Keep(lines + more, true) == lines + Keep(more, true)
  {
    if lines == [] {
      assert lines + more == more;
    } else {
      assert forall l <- lines[1..] :: l in lines;
      KeepNormal(lines[1..], more);
      assert lines[0] in lines;
      assert (lines + more)[1..] == lines[1..] + more;
      assert [lines[0]] + (lines[1..] + Keep(more, true)) == lines + Keep(more, true);
    }
  }

  lemma StanzaFields(r: Record, lines: seq<string>)
    requires NormalForm(r, lines)
    ensures Fields(SplitLines(Stanza(r)))
         == Fields(lines)["Filename" := r.filename]["Size" := Decimal(r.size)]["SHA256sum" := r.sha256]
  {
    StanzaLines(r, lines);
    TransportLines(r);
    var t := Transport(r);
    FieldsOfMore(lines, t[0]);
    FieldsOfMore(lines + [t[0]], t[1]);
    FieldsOfMore(lines + [t[0]] + [t[1]], t[2]);
    assert lines + t == lines + [t[0]] + [t[1]] + [t[2]];
  }

  lemma StanzaControl(r: Record, lines: seq<string>)
    requires NormalForm(r, lines)
    ensures Keep(SplitLines(Stanza(r)), true) == lines
  {
    StanzaLines(r, lines);
    TransportLines(r);
    KeepNormal(lines, Transport(r));
    KeepNothing(Transport(r), true);
  }

  lemma StanzaTrim(r: Record, lines: seq<string>)
    requires NormalForm(r, lines)
    ensures Trim(Stanza(r)) && Strip(Stanza(r)) == Stanza(r)
  {
    var s := Stanza(r);
    assert RightStrip(r.control) == r.control;
    assert s[0] == r.control[0];
    assert s[|s| - 1] == r.sha256[|r.sha256| - 1];
  }

  lemma StanzaReads(r: Record, lines: seq<string>, files: map<string, string>, sha: string -> string, userspace: bool)
    requires NormalForm(r, lines) && Describes(r, files, sha, userspace)
    ensures ReadStanza(Stanza(r), files, sha, userspace) == Good(r)
  {
    StanzaFields(r, lines);
    StanzaTrim(r, lines);
    StanzaControl(r, lines);
    DecimalParses(r.size);
    RecordRead(r, Stanza(r), Fields(lines), files, sha, userspace);
  }

  lemma RecordRead(r: Record, stanza: string, fields: map<string, string>, files: map<string, string>,
                   sha: string -> string, userspace: bool)
    requires Describes(r, files, sha, userspace) && IsLocalName(r.filename)
    requires Fields(SplitLines(stanza))
          == fields["Filename" := r.filename]["Size" := Decimal(r.size)]["SHA256sum" := r.sha256]
    requires {"Package", "Version", "Architecture"} <= fields.Keys
    requires r.package == fields["Package"] && r.version == fields["Version"] && r.arch == fields["Architecture"]
    requires ParseDecimal(Decimal(r.size)) == Number(r.size) && ControlText(stanza) == r.control
    ensures ReadStanza(stanza, files, sha, userspace) == Good(r)
  {
  }

  // ---------------------------------------------------------------- the whole index

  ghost predicate NoBlank(s: string) {
    && (forall i | 0 <= i < |s| - 1 :: !(s[i] == '\n' && s[i + 1] == '\n'))
    && (s != "" ==> s[|s| - 1] != '\n')
  }

  lemma {:induction false} LinesNoBlank(lines: seq<string>)
    requires lines != [] && forall l <- lines :: OneLine(l) && l != ""
    ensures NoBlank(Between(lines, "\n")) && Between(lines, "\n") != "" && Between(lines, "\n")[0] != '\n'
  {
    var line := lines[0];
    assert line in lines && line[0] in line && line[|line| - 1] in line;
    assert forall i | 0 <= i < |line| :: line[i] != '\n';
    if |lines| > 1 {
      var rest := Between(lines[1..], "\n");
      assert forall l <- lines[1..] :: l in lines;
      LinesNoBlank(lines[1..]);
      var s := line + "\n" + rest;
      forall i | 0 <= i < |s| - 1 ensures !(s[i] == '\n' && s[i + 1] == '\n') {
        if i > |line| {
          assert s[i] == rest[i - |line| - 1] && s[i + 1] == rest[i - |line|];
        }
      }
    }
  }

  lemma {:induction false} FirstBlankAfter(s: string, rest: string)
    requires NoBlank(s)
    ensures FirstBlank(s + "\n\n" + rest) == |s|
  {
    var t := s + "\n\n" + rest;
    if s != "" {
      assert t[0] == s[0] && t[1..] == s[1..] + "\n\n" + rest;
      assert |s| == 1 ==> s[0] != '\n';
      assert |s| > 1 ==> t[1] == s[1];
      FirstBlankAfter(s[1..], rest);
    }
  }

  lemma {:induction false} FirstBlankNone(s: string)
    requires NoBlank(s)
    ensures FirstBlank(s) == |s|
  {
    if |s| >= 2 {
      FirstBlankNone(s[1..]);
    }
  }

  lemma {:induction false} SplitBlankBetween(parts: seq<string>)
    requires parts != [] && forall p <- parts :: NoBlank(p)
    ensures SplitBlank(Between(parts, "\n\n")) == parts
  {
    if |parts| == 1 {
      FirstBlankNone(parts[0]);
    } else {
      var part, rest := parts[0], Between(parts[1..], "\n\n");
      var s := part + "\n\n" + rest;
      assert part in parts && forall p <- parts[1..] :: p in parts;
      FirstBlankAfter(part, rest);
      assert s[..|part|] == part && s[|part| + 2..] == rest;
      SplitBlankBetween(parts[1..]);
    }
  }

  lemma {:induction false} BetweenTrim(parts: seq<string>)
    requires parts != [] && forall p <- parts :: Trim(p)
    ensures Trim(Between(parts, "\n\n"))
  {
    assert parts[0] in parts;
    if |parts| > 1 {
      assert forall p <- parts[1..] :: p in parts;
      BetweenTrim(parts[1..]);
    }
  }

  lemma StripEnd(s: string)
    requires Trim(s)
    ensures Strip(s + "\n\n") == s
  {
    var t := s + "\n\n";
    assert LeftStrip(t) == t by {
      assert t[0] == s[0];
    }
    assert t[..|t| - 1] == s + "\n" && (s + "\n")[..|s|] == s;
    assert RightStrip(s) == s;
    assert RightStrip(s + "\n") == s;
  }

  lemma StanzaParts(records: seq<Record>)
    requires forall r <- records :: exists lines :: NormalForm(r, lines)
    ensures forall p <- Stanzas(records) :: Trim(p) && NoBlank(p)
  {
    var parts := Stanzas(records);
    forall p | p in parts ensures Trim(p) && NoBlank(p) {
      var i :| 0 <= i < |parts| && parts[i] == p;
      assert records[i] in records;
      var lines :| NormalForm(records[i], lines);
      StanzaTrim(records[i], lines);
      StanzaNoBlank(records[i], lines);
    }
  }

  lemma StanzaNoBlank(r: Record, lines: seq<string>)
    requires NormalForm(r, lines)
    ensures NoBlank(Stanza(r))
  {
    StanzaJoined(r, lines);
    LinesNoBlank(lines + Transport(r));
  }

  /** What adding the part always does is adding the record. */
  ghost predicate ReadsAs(part: string, r: Record, files: map<string, string>, sha: string -> string, userspace: bool) {
    forall before: seq<Record> :: AddPart(Read(before), part, files, sha, userspace) == Read(before + [r])
  }

  lemma {:induction false} PartsRead(parts: seq<string>, records: seq<Record>, n: nat, files: map<string, string>,
                                     sha: string -> string, userspace: bool)
    requires n <= |parts| == |records|
    requires forall i | 0 <= i < |parts| :: ReadsAs(parts[i], records[i], files, sha, userspace)
    ensures ReadAll(parts[..n], files, sha, userspace) == Read(records[..n])
  {
    if n > 0 {
      PartsRead(parts, records, n - 1, files, sha, userspace);
      PartRead(parts, records, n - 1, files, sha, userspace);
    }
  }

  lemma PartRead(parts: seq<string>, records: seq<Record>, n: nat, files: map<string, string>, sha: string -> string,
                 userspace: bool)
    requires n < |parts| == |records| && ReadsAs(parts[n], records[n], files, sha, userspace)
    requires ReadAll(parts[..n], files, sha, userspace) == Read(records[..n])
    ensures ReadAll(parts[..n + 1], files, sha, userspace) == Read(records[..n + 1])
  {
    ReadOneMore(parts, n, files, sha, userspace);
    assert records[..n + 1] == records[..n] + [records[n]];
  }

  lemma StanzasRead(records: seq<Record>, files: map<string, string>, sha: string -> string, userspace: bool)
    requires Publishable(records, files, sha, userspace)
    ensures ReadAll(Stanzas(records), files, sha, userspace) == Read(records)
  {
    var parts := Stanzas(records);
    forall i | 0 <= i < |parts| ensures ReadsAs(parts[i], records[i], files, sha, userspace) {
      assert records[i] in records;
      ReadsOne(records[i], files, sha, userspace);
    }
    PartsRead(parts, records, |parts|, files, sha, userspace);
    assert parts[..|parts|] == parts && records[..|records|] == records;
  }

  lemma ReadsOne(r: Record, files: map<string, string>, sha: string -> string, userspace: bool)
    requires exists lines :: NormalForm(r, lines)
    requires Describes(r, files, sha, userspace)
    ensures ReadsAs(Stanza(r), r, files, sha, userspace)
  {
    var lines :| NormalForm(r, lines);
    StanzaTrim(r, lines);
    StanzaReads(r, lines, files, sha, userspace);
    AddsRecord(Stanza(r), r, files, sha, userspace);
  }

  lemma AddsRecord(part: string, r: Record, files: map<string, string>, sha: string -> string, userspace: bool)
    requires Strip(part) != "" && ReadStanza(part, files, sha, userspace) == Good(r)
    ensures ReadsAs(part, r, files, sha, userspace)
  {
  }

  /** An index reads back as the records it was printed from, in the order of file names. */
  lemma IndexReadsBack(records: seq<Record>, files: map<string, string>, sha: string -> string, userspace: bool)
    requires Publishable(records, files, sha, userspace)
    ensures ReadAll(SplitBlank(Strip(Index(records))), files, sha, userspace) == Read(SortBy(FilenameOf, records))
    ensures multiset(SortBy(FilenameOf, records)) == multiset(records)
  {
    var sorted := SortBy(FilenameOf, records);
    SortBySorts(FilenameOf, records);
    forall r | r in sorted ensures r in records {
      assert r in multiset(sorted);
    }
    StanzasRead(sorted, files, sha, userspace);
    var parts := Stanzas(sorted);
    if sorted == [] {
      EmptyIndex(files, sha, userspace);
    } else {
      StanzaParts(sorted);
      BetweenTrim(parts);
      StripEnd(Between(parts, "\n\n"));
      SplitBlankBetween(parts);
    }
  }

  lemma EmptyIndex(files: map<string, string>, sha: string -> string, userspace: bool)
    ensures ReadAll(SplitBlank(Strip(Between([], "\n\n") + "\n\n")), files, sha, userspace) == Read([])
  {
    var two, one := "\n\n", "\n";
    assert Between([], two) + two == two && two[1..] == one && one[1..] == "";
    assert LeftStrip(two) == LeftStrip(one) == "";
    assert SplitBlank("") == [""];
    var parts := [""];
    assert parts[..0] == [] && Strip(parts[0]) == "";
    assert ReadAll(parts, files, sha, userspace) == ReadAll([], files, sha, userspace);
  }

  // ---------------------------------------------------------------- what is read, in terms of the lines

  /** A line that gives a field: the key ends at the first ": ", and white space does not come first. */
  lemma FieldIff(line: string, key: string, value: string)
    ensures ParseField(line) == Field(key, value) <==>
      && line == key + ": " + value && line[0] !in SPACES
      && forall i | 0 <= i < |key| :: !(line[i] == ':' && line[i + 1] == ' ')
  {
    FirstColonSpace(line);
    if ParseField(line) == Field(key, value) {
      var n := ColonSpace(line);
      assert line == line[..n] + ": " + line[n + 2..];
    }
    if line == key + ": " + value && forall i | 0 <= i < |key| :: !(line[i] == ':' && line[i + 1] == ' ') {
      KeyEnds(line, key, value);
    }
  }

  lemma KeyEnds(line: string, key: string, value: string)
    requires line == key + ": " + value && forall i | 0 <= i < |key| :: !(line[i] == ':' && line[i + 1] == ' ')
    ensures ColonSpace(line) == |key| && line[..|key|] == key && line[|key| + 2..] == value
  {
    FirstColonSpace(line);
    assert line[|key|] == ':' && line[|key| + 1] == ' ';
  }

  lemma {:induction false} FirstColonSpace(s: string)
    ensures var n := ColonSpace(s);
            && (forall i | 0 <= i < n && i + 1 < |s| :: !(s[i] == ':' && s[i + 1] == ' '))
            && (n < |s| ==> s[n] == ':' && s[n + 1] == ' ')
  {
    if |s| >= 2 && !(s[0] == ':' && s[1] == ' ') {
      FirstColonSpace(s[1..]);
    }
  }

  /** Line `i` gives the key this value and no later line gives it another. */
  ghost predicate LastFor(lines: seq<string>, key: string, value: string, i: int) {
    && 0 <= i < |lines| && ParseField(lines[i]) == Field(key, value)
    && forall j | i < j < |lines| :: ParseField(lines[j]).NoField? || ParseField(lines[j]).key != key
  }

  lemma {:induction false} FieldsSay(lines: seq<string>, key: string, value: string)
    ensures key in Fields(lines) && Fields(lines)[key] == value <==> exists i :: LastFor(lines, key, value, i)
  {
    if lines != [] {
      var n := |lines| - 1;
      FieldsSay(lines[..n], key, value);
      if i :| LastFor(lines[..n], key, value, i) {
        if ParseField(lines[n]).NoField? || ParseField(lines[n]).key != key {
          assert LastFor(lines, key, value, i);
        }
      }
      if i :| LastFor(lines, key, value, i) {
        if i < n {
          assert LastFor(lines[..n], key, value, i);
        }
      }
      if ParseField(lines[n]) == Field(key, value) {
        assert LastFor(lines, key, value, n);
      }
    }
  }

  /** The stanzas that are accepted: the six fields are there, the file is a plain name beside the index, its
      digest and length are those of the fields, and in the userspace feed the package is no kernel package. */
  lemma StanzaIsGood(stanza: string, files: map<string, string>, sha: string -> string, userspace: bool, r: Record)
    ensures ReadStanza(stanza, files, sha, userspace) == Good(r) <==>
      var fields := Fields(SplitLines(stanza));
      && {"Package", "Version", "Architecture", "Filename", "SHA256sum", "Size"} <= fields.Keys
      && r.package == fields["Package"] && r.version == fields["Version"] && r.arch == fields["Architecture"]
      && r.filename == fields["Filename"] && r.sha256 == fields["SHA256sum"]
      && ParseDecimal(fields["Size"]) == Number(r.size)
      && r.filename != "" && r.filename != "." && '/' !in r.filename && r.filename in files
      && r.sha256 == sha(files[r.filename]) && r.size == |files[r.filename]|
      && (userspace ==> r.package != "kernel" && r.package != "gcc" && !("kmod-" <= r.package))
      && r.control == ControlText(stanza)
  {
  }

  /** A section is refused exactly for a part that is neither blank nor an accepted stanza, and otherwise gives
      the records of its stanzas. */
  lemma {:induction false} SectionIs(parts: seq<string>, files: map<string, string>, sha: string -> string,
                                     userspace: bool)
    ensures ReadAll(parts, files, sha, userspace).Invalid?
       <==> exists p :: p in parts && Strip(p) != "" && ReadStanza(p, files, sha, userspace).Bad?
    ensures ReadAll(parts, files, sha, userspace).Read? ==> forall r ::
              (r in ReadAll(parts, files, sha, userspace).records
               <==> exists p :: p in parts && Strip(p) != "" && ReadStanza(p, files, sha, userspace) == Good(r))
  {
    if parts != [] {
      var front, last := parts[..|parts| - 1], parts[|parts| - 1];
      SectionIs(front, files, sha, userspace);
      assert forall p :: p in parts <==> p in front || p == last;
    }
  }

  lemma BlankIff(s: string)
    ensures Strip(s) == "" <==> forall c <- s :: c in SPACES
  {
    LeftBlank(s);
    RightKeeps(LeftStrip(s));
  }

  lemma {:induction false} LeftBlank(s: string)
    ensures LeftStrip(s) == "" <==> forall c <- s :: c in SPACES
    ensures LeftStrip(s) != "" ==> LeftStrip(s)[0] !in SPACES
  {
    if s != "" && s[0] in SPACES {
      LeftBlank(s[1..]);
      assert forall c <- s :: c == s[0] || c in s[1..];
      assert forall c <- s[1..] :: c in s;
    }
  }

  lemma {:induction false} RightKeeps(s: string)
    requires s != "" ==> s[0] !in SPACES
    ensures RightStrip(s) == "" <==> s == ""
  {
    if s != "" && s[|s| - 1] in SPACES {
      assert |s| > 1;
      RightKeeps(s[..|s| - 1]);
    }
  }

  /** What is printed for a record. */
  lemma StanzaIs(r: Record, lines: seq<string>)
    requires NormalForm(r, lines)
    ensures Stanza(r) == r.control + "\n" + ("Filename: " + r.filename) + "\n" + ("Size: " + Decimal(r.size)) + "\n"
                         + ("SHA256sum: " + r.sha256)
  {
    assert RightStrip(r.control) == r.control;
    assert "Filename" + ": " == "Filename: " && "Size" + ": " == "Size: " && "SHA256sum" + ": " == "SHA256sum: ";
  }

  /** A size is a number if it is all digits, and the value before another digit counts ten times. */
  lemma {:induction false} NumberIff(s: string)
    ensures ParseDecimal(s).Number? <==> s != "" && forall c <- s :: '0' <= c <= '9'
  {
    if |s| == 1 {
      assert s[0] in s;
    } else if s != "" {
      var front, last := s[..|s| - 1], s[|s| - 1];
      NumberIff(front);
      assert last in s && forall c <- front :: c in s;
      assert forall c <- s :: c in front || c == last;
    }
  }

  lemma NextDigit(s: string, d: nat)
    requires d < 10
    ensures ParseDecimal(['0' + d as char]) == Number(d)
    ensures ParseDecimal(s).Number? ==> ParseDecimal(s + ['0' + d as char]) == Number(10 * ParseDecimal(s).value + d)
  {
    assert (s + ['0' + d as char])[..|s|] == s;
  }

  // ---------------------------------------------------------------- the control text, line by line

  /** The header line has this name before its first colon. */
  ghost predicate Heads(line: string, name: string) {
    ':' !in name && name + ":" <= line && line[0] !in SPACES
  }

  lemma HeaderIff(line: string)
    ensures IsHeader(line) <==> exists name :: Heads(line, name)
    ensures IsHeader(line) ==> Heads(line, line[..Find(line, ':')])
    ensures forall name | Heads(line, name) :: name == line[..Find(line, ':')]
  {
    if IsHeader(line) {
      var n := Find(line, ':');
      assert line[..n] + ":" == line[..n + 1];
      assert Heads(line, line[..n]);
    }
    forall name | Heads(line, name) ensures IsHeader(line) && name == line[..Find(line, ':')] {
      assert line[|name|] == ':' && line[..|name|] == name;
      assert line == name + [':'] + line[|name| + 1..];
      FindFirst(name, ':', line[|name| + 1..]);
    }
  }

  /** The header that line `i` belongs to. */
  ghost predicate HeadOf(lines: seq<string>, i: int, h: int, name: string) {
    0 <= h <= i < |lines| && Heads(lines[h], name) && forall k | h < k <= i :: NoHead(lines[k])
  }

  ghost predicate NoHead(line: string) {
    forall name :: !Heads(line, name)
  }

  /** A line stays unless the header it belongs to names a transport field; without a header it stays if lines
      before it do. */
  ghost predicate Belongs(lines: seq<string>, included: bool, i: int) {
    && 0 <= i < |lines|
    && (forall h, name | HeadOf(lines, i, h, name) :: name !in {"Filename", "Size", "SHA256sum", "MD5Sum"})
    && ((forall k | 0 <= k <= i :: NoHead(lines[k])) ==> included)
  }

  lemma KeptIff(line: string, included: bool)
    ensures Kept(line, included)
       <==> if NoHead(line) then included else forall name | Heads(line, name) :: name !in TRANSPORT
  {
    HeaderIff(line);
  }

  lemma BelongsFirst(lines: seq<string>, included: bool)
    requires lines != []
    ensures Belongs(lines, included, 0) <==> Kept(lines[0], included)
  {
    KeptIff(lines[0], included);
    assert forall name :: Heads(lines[0], name) <==> HeadOf(lines, 0, 0, name);
  }

  /** The header of a line is the same in the lines without the first one, if it is not the first one. */
  lemma HeadNext(lines: seq<string>, i: int, h: int, name: string)
    requires 0 < h && 0 < i < |lines|
    ensures HeadOf(lines, i, h, name) <==> HeadOf(lines[1..], i - 1, h - 1, name)
  {
    assert forall k | 0 < k < |lines| :: lines[k] == lines[1..][k - 1];
    if HeadOf(lines[1..], i - 1, h - 1, name) {
      forall k | h < k <= i ensures NoHead(lines[k]) {
        assert NoHead(lines[1..][k - 1]);
      }
    }
  }

  lemma BelongsRest(lines: seq<string>, included: bool, i: int)
    requires 0 < i < |lines| && Belongs(lines, included, i)
    ensures Belongs(lines[1..], Kept(lines[0], included), i - 1)
  {
    var rest := lines[1..];
    KeptIff(lines[0], included);
    var j := i - 1;
    forall h, name | HeadOf(rest, j, h, name) ensures name !in {"Filename", "Size", "SHA256sum", "MD5Sum"} {
      HeadNext(lines, i, h + 1, name);
    }
    if forall k | 0 <= k <= i - 1 :: NoHead(rest[k]) {
      forall k | 0 < k <= i ensures NoHead(lines[k]) {
        assert NoHead(rest[k - 1]);
      }
      forall name | Heads(lines[0], name) ensures name !in TRANSPORT {
        assert HeadOf(lines, i, 0, name);
      }
    }
  }

  lemma RestBelongs(lines: seq<string>, included: bool, i: int)
    requires 0 < i < |lines| && Belongs(lines[1..], Kept(lines[0], included), i - 1)
    ensures Belongs(lines, included, i)
  {
    var rest := lines[1..];
    KeptIff(lines[0], included);
    assert forall k | 0 <= k <= i - 1 :: rest[k] == lines[k + 1];
    forall h, name | HeadOf(lines, i, h, name) ensures name !in {"Filename", "Size", "SHA256sum", "MD5Sum"} {
      if h > 0 {
        HeadNext(lines, i, h, name);
      }
    }
  }

  /** Places of a list in increasing order, and what is there. */
  ghost predicate Picks(lines: seq<string>, at: seq<nat>, picked: seq<string>) {
    && |at| == |picked|
    && (forall k | 0 <= k < |at| :: at[k] < |lines| && picked[k] == lines[at[k]])
    && (forall j, k | 0 <= j < k < |at| :: at[j] < at[k])
  }

  /** The control text consists of the lines that stay, in their order. */
  lemma {:induction false} KeepIs(lines: seq<string>, included: bool) returns (at: seq<nat>)
    ensures Picks(lines, at, Keep(lines, included))
    ensures forall i :: i in at <==> Belongs(lines, included, i)
  {
    at := [];
    if lines != [] {
      var kept := Kept(lines[0], included);
      var rest := KeepIs(lines[1..], kept);
      at := PickNext(lines, rest, Keep(lines[1..], kept), kept);
      forall i ensures i in at <==> Belongs(lines, included, i) {
        BelongsIff(lines, included, i);
      }
    }
  }

  lemma PickNext(lines: seq<string>, rest: seq<nat>, picked: seq<string>, first: bool) returns (at: seq<nat>)
    requires lines != [] && Picks(lines[1..], rest, picked)
    ensures Picks(lines, at, (if first then [lines[0]] else []) + picked)
    ensures forall i :: i in at <==> (first && i == 0) || i - 1 in rest
  {
    var next := seq(|rest|, k requires 0 <= k < |rest| => rest[k] + 1);
    at := (if first then [0] else []) + next;
    forall i ensures i in next <==> i - 1 in rest {
      NextIn(rest, next, i);
    }
  }

  lemma BelongsIff(lines: seq<string>, included: bool, i: int)
    requires lines != []
    ensures Belongs(lines, included, i)
       <==> (i == 0 && Kept(lines[0], included)) || Belongs(lines[1..], Kept(lines[0], included), i - 1)
  {
    BelongsFirst(lines, included);
    if 0 < i < |lines| {
      if Belongs(lines, included, i) {
        BelongsRest(lines, included, i);
      }
      if Belongs(lines[1..], Kept(lines[0], included), i - 1) {
        RestBelongs(lines, included, i);
      }
    }
  }

  lemma NextIn(rest: seq<nat>, next: seq<nat>, i: int)
    requires |next| == |rest| && forall k | 0 <= k < |rest| :: next[k] == rest[k] + 1
    ensures i in next <==> i - 1 in rest
  {
    if i - 1 in rest {
      var k :| 0 <= k < |rest| && rest[k] == i - 1;
      assert next[k] == i;
    }
  }
}
