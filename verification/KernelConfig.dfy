/** Kernel configurations as text: config_options in scripts/kernel_firmware.py, and the three-way merge
    and printer of scripts/prepare-firmware-kernel-config.py. */
module KernelConfig {
  import opened Ordering
  import opened TextLines

  type Options = map<string, string>

  datatype ParseResult = Parsed(options: Options) | Duplicate(key: string) | Empty

  datatype Result = Prepared(text: string) | Mismatch | Unreadable

  // ---------------------------------------------------------------- one option

  const PREFIX := "CONFIG_"
  const UNSET := " is not set"

  predicate EndsWith(s: string, t: string) {
    |t| <= |s| && s[|s| - |t|..] == t
  }

  datatype Line = Option(key: string, value: string) | Other

  function ParseLine(line: string): Line {
    if PREFIX <= line && '=' in line then
      var n := Find(line, '=');
      Option(line[..n], line[n + 1..])
    else if "# CONFIG_" <= line && EndsWith(line, UNSET) then
      SuffixApart(line);
      Option(line[2..|line| - |UNSET|], "n")
    else Other
  }

  function PrintOption(key: string, value: string): string {
    if value == "n" then "# " + key + UNSET else key + "=" + value
  }

  /** What can be an option: one line, the prefix, and no = in a key that is not unset. */
  predicate WellFormed(key: string, value: string) {
    PREFIX <= key && OneLine(key) && OneLine(value) && ('=' in key ==> value == "n")
  }

  /** The lines that say something of an option: set, with no = in the name, or unset. */
  lemma LineSays(line: string, key: string, value: string)
    ensures ParseLine(line) == Option(key, value) <==>
      && "CONFIG_" <= key
      && ((line == key + "=" + value && '=' !in key) || (line == "# " + key + " is not set" && value == "n"))
  {
    if ParseLine(line) == Option(key, value) {
      WhatWasRead(line, key, value);
    }
    if "CONFIG_" <= key && line == key + "=" + value && '=' !in key {
      SetReads(key, value);
    }
    if "CONFIG_" <= key && line == "# " + key + " is not set" {
      UnsetReads(key);
    }
  }

  lemma WhatWasRead(line: string, key: string, value: string)
    requires ParseLine(line) == Option(key, value)
    ensures "CONFIG_" <= key
    ensures (line == key + "=" + value && '=' !in key) || (line == "# " + key + " is not set" && value == "n")
  {
    if PREFIX <= line && '=' in line {
      var n := Find(line, '=');
      assert line == line[..n] + "=" + line[n + 1..];
      PrefixOfKey(line, n);
    } else {
      SuffixApart(line);
      var d := |line| - |UNSET|;
      assert line[..9] == "# CONFIG_" && line[d..] == UNSET;
      assert line[..2] == "# " && line[2..d][..7] == line[..9][2..];
      assert line == line[..2] + line[2..d] + line[d..];
    }
  }

  lemma PrefixOfKey(line: string, n: nat)
    requires PREFIX <= line && n < |line| && line[n] == '='
    ensures n >= 7 && PREFIX <= line[..n]
  {
    assert line[..7] == PREFIX;
    assert forall i | 0 <= i < 7 :: line[i] == PREFIX[i] && PREFIX[i] != '=';
    assert line[..n][..7] == PREFIX;
  }

  lemma SetReads(key: string, value: string)
    requires PREFIX <= key && '=' !in key
    ensures ParseLine(key + "=" + value) == Option(key, value)
  {
    var line := key + "=" + value;
    assert line[..7] == key[..7];
    FindFirst(key, '=', value);
    assert line[..|key|] == key && line[|key| + 1..] == value;
  }

  lemma UnsetReads(key: string)
    requires PREFIX <= key
    ensures ParseLine("# " + key + UNSET) == Option(key, "n")
  {
    var line := "# " + key + UNSET;
    Sandwich("# ", key, UNSET);
    assert line[0] == '#' && PREFIX[0] == 'C';
    Extends("# ", PREFIX, key, UNSET);
    assert "# " + PREFIX == "# CONFIG_";
  }

  lemma ParsedIsWellFormed(line: string)
    requires OneLine(line) && ParseLine(line).Option?
    ensures WellFormed(ParseLine(line).key, ParseLine(line).value)
  {
    WhatWasRead(line, ParseLine(line).key, ParseLine(line).value);
    assert OneLine("n");
  }

  /** "# CONFIG_" and " is not set" do not overlap. */
  lemma SuffixApart(line: string)
    requires "# CONFIG_" <= line && EndsWith(line, UNSET)
    ensures |line| >= 9 + |UNSET|
  {
    var d := |line| - |UNSET|;
    assert line[d..] == UNSET && line[..9] == "# CONFIG_";
    assert line[d] == UNSET[0] && line[d + 1] == UNSET[1];
    assert forall k | 0 <= k < 9 :: line[k] == "# CONFIG_"[k];
  }

  lemma PrintedParses(key: string, value: string)
    requires WellFormed(key, value)
    ensures ParseLine(PrintOption(key, value)) == Option(key, value)
    ensures OneLine(PrintOption(key, value))
  {
    if value == "n" {
      UnsetParses(key);
    } else {
      SetParses(key, value);
    }
  }

  lemma UnsetParses(key: string)
    requires PREFIX <= key && OneLine(key)
    ensures ParseLine("# " + key + UNSET) == Option(key, "n") && OneLine("# " + key + UNSET)
  {
    UnsetReads(key);
    MarkHasNoBreak();
    UnsetHasNoBreak();
  }

  lemma MarkHasNoBreak()
    ensures OneLine("# ")
  {
  }

  lemma UnsetHasNoBreak()
    ensures OneLine(UNSET)
  {
  }

  lemma Sandwich(a: string, k: string, b: string)
    ensures EndsWith(a + k + b, b) && (a + k + b)[|a|..|a + k + b| - |b|] == k
  {
  }

  lemma Extends(a: string, p: string, k: string, b: string)
    requires p <= k
    ensures a + p <= a + k + b
  {
    assert (a + k + b)[..|a + p|] == a + k[..|p|];
  }

  lemma SetParses(key: string, value: string)
    requires PREFIX <= key && OneLine(key) && OneLine(value) && '=' !in key
    ensures ParseLine(key + "=" + value) == Option(key, value) && OneLine(key + "=" + value)
  {
    SetReads(key, value);
    assert OneLine("=");
  }

  // ---------------------------------------------------------------- a whole configuration

  function AddLine(before: ParseResult, line: Line): ParseResult {
    match (before, line)
    case (Parsed(options), Option(key, value)) =>
      if key in options then Duplicate(key) else Parsed(options[key := value])
    case _ => before
  }

  function ParseLines(lines: seq<string>): ParseResult {
    if lines == [] then Parsed(map[]) else AddLine(ParseLines(lines[..|lines| - 1]), ParseLine(lines[|lines| - 1]))
  }

  lemma ParseOneMore(lines: seq<string>, i: nat)
    requires i < |lines|
    ensures ParseLines(lines[..i + 1]) == AddLine(ParseLines(lines[..i]), ParseLine(lines[i]))
  {
    assert lines[..i + 1][..i] == lines[..i];
  }

  method ConfigOptions(text: string) returns (r: ParseResult)
    ensures r == if ParseLines(SplitLines(text)) == Parsed(map[]) then Empty else ParseLines(SplitLines(text))
  {
    var lines := SplitLines(text);
    var options: Options := map[];
    for i := 0 to |lines|
      invariant ParseLines(lines[..i]) == Parsed(options)
    {
      ParseOneMore(lines, i);
      var line := ParseLine(lines[i]);
      if line.Option? {
        if line.key in options {
          DuplicateStays(lines, i + 1);
          return Duplicate(line.key);
        }
        options := options[line.key := line.value];
      }
    }
    assert lines[..|lines|] == lines;
    r := if options == map[] then Empty else Parsed(options);
  }

  lemma {:induction false} DuplicateStays(lines: seq<string>, i: nat)
    requires i <= |lines| && ParseLines(lines[..i]).Duplicate?
    ensures ParseLines(lines) == ParseLines(lines[..i])
    decreases |lines|
  {
    if i < |lines| {
      assert lines[..|lines| - 1][..i] == lines[..i];
      DuplicateStays(lines[..|lines| - 1], i);
    } else {
      assert lines[..i] == lines;
    }
  }

  /** What a text says about options: each at most once, in a line of its own. */
  ghost predicate Says(lines: seq<string>, key: string, value: string) {
    exists i :: 0 <= i < |lines| && ParseLine(lines[i]) == Option(key, value)
  }

  lemma SaysLast(lines: seq<string>, key: string, value: string)
    requires lines != []
    ensures Says(lines, key, value)
       <==> Says(lines[..|lines| - 1], key, value) || ParseLine(lines[|lines| - 1]) == Option(key, value)
  {
    var front := lines[..|lines| - 1];
    if i :| 0 <= i < |lines| && ParseLine(lines[i]) == Option(key, value) {
      assert i < |front| ==> front[i] == lines[i];
    }
    if i :| 0 <= i < |front| && ParseLine(front[i]) == Option(key, value) {
      assert lines[i] == front[i];
    }
  }

  lemma {:induction false} ParsedSays(lines: seq<string>, key: string, value: string)
    requires ParseLines(lines).Parsed?
    ensures key in ParseLines(lines).options && ParseLines(lines).options[key] == value <==> Says(lines, key, value)
  {
    if lines != [] {
      var front, last := lines[..|lines| - 1], ParseLine(lines[|lines| - 1]);
      ParsedSays(front, key, value);
      SaysLast(lines, key, value);
      if last.Option? && last.key == key {
        NothingSaid(front, key);
      }
    }
  }

  lemma {:induction false} NothingSaid(lines: seq<string>, key: string)
    requires ParseLines(lines).Parsed? && key !in ParseLines(lines).options
    ensures forall i | 0 <= i < |lines| :: !(ParseLine(lines[i]).Option? && ParseLine(lines[i]).key == key)
  {
    if lines != [] {
      var front := lines[..|lines| - 1];
      NothingSaid(front, key);
      assert forall i | 0 <= i < |front| :: front[i] == lines[i];
    }
  }

  predicate Same(a: Line, b: Line) {
    a.Option? && b.Option? && a.key == b.key
  }

  ghost predicate NoRepeats(lines: seq<string>) {
    forall i, j | 0 <= i < j < |lines| :: !Same(ParseLine(lines[i]), ParseLine(lines[j]))
  }

  /** A text is refused exactly when it speaks of an option twice. */
  lemma {:induction false} ParsedIffNoRepeats(lines: seq<string>)
    ensures ParseLines(lines).Parsed? <==> NoRepeats(lines)
  {
    if lines != [] {
      var front, last := lines[..|lines| - 1], ParseLine(lines[|lines| - 1]);
      ParsedIffNoRepeats(front);
      assert forall i | 0 <= i < |front| :: front[i] == lines[i];
      if NoRepeats(front) && last.Option? {
        if last.key in ParseLines(front).options {
          ParsedSays(front, last.key, ParseLines(front).options[last.key]);
          var i :| 0 <= i < |front| && ParseLine(front[i]) == Option(last.key, ParseLines(front).options[last.key]);
          assert Same(ParseLine(lines[i]), ParseLine(lines[|front|]));
        } else {
          NothingSaid(front, last.key);
        }
      }
    }
  }

  ghost predicate AllWellFormed(options: Options) {
    forall key <- options :: WellFormed(key, options[key])
  }

  /** Everything that was read can be written. */
  lemma {:induction false} ParsedWellFormed(lines: seq<string>)
    requires forall l <- lines :: OneLine(l)
    ensures ParseLines(lines).Parsed? ==> AllWellFormed(ParseLines(lines).options)
  {
    if lines != [] {
      ParsedWellFormed(lines[..|lines| - 1]);
      var last := lines[|lines| - 1];
      if ParseLine(last).Option? {
        ParsedIsWellFormed(last);
      }
    }
  }

  // ---------------------------------------------------------------- printing

  function PrintedLines(keys: seq<string>, options: Options): seq<string>
    requires forall k <- keys :: k in options
  {
    seq(|keys|, i requires 0 <= i < |keys| => assert keys[i] in keys; PrintOption(keys[i], options[keys[i]]))
  }

  lemma PrintedOneLine(keys: seq<string>, options: Options)
    requires forall k <- keys :: k in options && WellFormed(k, options[k])
    ensures forall l <- PrintedLines(keys, options) :: OneLine(l)
  {
    var lines := PrintedLines(keys, options);
    forall l | l in lines ensures OneLine(l) {
      var i :| 0 <= i < |lines| && lines[i] == l;
      assert keys[i] in keys;
      PrintedParses(keys[i], options[keys[i]]);
    }
  }

  function Only(keys: seq<string>, options: Options): Options
    requires forall k <- keys :: k in options
  {
    map k | k in keys :: options[k]
  }

  lemma {:induction false} PrintedLinesParse(keys: seq<string>, options: Options)
    requires Increasing(keys) && (forall k <- keys :: k in options && WellFormed(k, options[k]))
    ensures ParseLines(PrintedLines(keys, options)) == Parsed(Only(keys, options))
  {
    var lines := PrintedLines(keys, options);
    if keys != [] {
      var front, last := keys[..|keys| - 1], keys[|keys| - 1];
      assert keys == front + [last];
      PrintedLinesParse(front, options);
      assert lines[..|lines| - 1] == PrintedLines(front, options);
      PrintedParses(last, options[last]);
      assert last !in front;
      assert Only(keys, options) == Only(front, options)[last := options[last]];
    }
  }

  ghost predicate IsPrinted(text: string, options: Options) {
    exists keys :: SortedList(keys, options.Keys) && text == JoinLines(PrintedLines(keys, options))
  }

  /** A printed configuration reads back as the same options, unless there is none. */
  lemma PrintedReadsBack(text: string, options: Options)
    requires AllWellFormed(options) && IsPrinted(text, options)
    ensures ParseLines(SplitLines(text)) == Parsed(options)
  {
    var keys :| SortedList(keys, options.Keys) && text == JoinLines(PrintedLines(keys, options));
    KeysReadBack(keys, options);
  }

  lemma KeysReadBack(keys: seq<string>, options: Options)
    requires AllWellFormed(options) && SortedList(keys, options.Keys)
    ensures ParseLines(SplitLines(JoinLines(PrintedLines(keys, options)))) == Parsed(options)
  {
    PrintedLinesParse(keys, options);
    PrintedOneLine(keys, options);
    SplitJoin(PrintedLines(keys, options));
    assert Only(keys, options) == options;
  }

  /** What is printed: one line for each option, in order of their names. */
  lemma PrintedSays(text: string, options: Options) returns (keys: seq<string>)
    requires AllWellFormed(options) && IsPrinted(text, options)
    ensures SortedList(keys, options.Keys) && |SplitLines(text)| == |keys|
    ensures forall i | 0 <= i < |keys| ::
      SplitLines(text)[i] == (if options[keys[i]] == "n" then "# " + keys[i] + " is not set"
                              else keys[i] + "=" + options[keys[i]])
    ensures text == JoinLines(SplitLines(text))
  {
    keys :| SortedList(keys, options.Keys) && text == JoinLines(PrintedLines(keys, options));
    PrintedOneLine(keys, options);
    SplitJoin(PrintedLines(keys, options));
  }

  method Print(options: Options) returns (text: string)
    ensures IsPrinted(text, options)
  {
    var keys := Sort(options.Keys);
    text := "";
    var i := |keys|;
    while i > 0
      invariant 0 <= i <= |keys|
      invariant text == JoinLines(PrintedLines(keys[i..], options))
    {
      i := i - 1;
      assert keys[i] in options.Keys;
      var line := PrintOption(keys[i], options[keys[i]]);
      var more := PrintedLines(keys[i..], options);
      assert more[0] == line && more[1..] == PrintedLines(keys[i + 1..], options);
      text := line + "\n" + text;
    }
    assert keys[0..] == keys;
  }

  // ---------------------------------------------------------------- the merge

  datatype Value = Unset | Set(value: string)

  function Get(options: Options, key: string): Value {
    if key in options then Set(options[key]) else Unset
  }

  /** Where reference and target differ the target decides, elsewhere the base. */
  ghost predicate IsAdapted(base: Options, reference: Options, target: Options, r: Options) {
    forall key :: Get(r, key) == if Get(reference, key) != Get(target, key) then Get(target, key) else Get(base, key)
  }

  method Adapt(base: Options, reference: Options, target: Options) returns (r: Options)
    ensures IsAdapted(base, reference, target, r)
  {
    var changes := set key | key in reference.Keys + target.Keys && Get(reference, key) != Get(target, key);
    r := base;
    var rest := changes;
    while rest != {}
      invariant rest <= changes
      invariant forall key :: Get(r, key) == if key in changes - rest then Get(target, key) else Get(base, key)
      decreases |rest|
    {
      var key :| key in rest;
      match Get(target, key) {
        case Unset => r := r - {key};
        case Set(value) => r := r[key := value];
      }
      rest := rest - {key};
    }
  }

  /** Some option of the base or the target is left: the target's where it differs from the reference. */
  ghost predicate SomethingLeft(base: Options, reference: Options, target: Options) {
    exists key :: key in base.Keys + target.Keys && Stays(base, reference, target, key)
  }

  ghost predicate Stays(base: Options, reference: Options, target: Options, key: string) {
    if Get(reference, key) != Get(target, key) then key in target else key in base
  }

  lemma LeftIff(base: Options, reference: Options, target: Options, r: Options)
    requires IsAdapted(base, reference, target, r)
    ensures r != map[] <==> SomethingLeft(base, reference, target)
  {
    if r != map[] {
      var key :| key in r;
      assert Get(r, key) == Set(r[key]);
      assert key in base.Keys + target.Keys;
    }
    if key :| key in base.Keys + target.Keys && Stays(base, reference, target, key) {
      assert Get(r, key) != Unset;
      assert key in r;
    }
  }

  lemma AdaptedWellFormed(base: Options, reference: Options, target: Options, r: Options)
    requires AllWellFormed(base) && AllWellFormed(target) && IsAdapted(base, reference, target, r)
    ensures AllWellFormed(r)
  {
    forall key | key in r ensures WellFormed(key, r[key]) {
      assert Get(r, key) == Set(r[key]);
      assert Get(r, key) == Get(target, key) || Get(r, key) == Get(base, key);
    }
  }

  ghost predicate Meets(options: Options, required: Options) {
    forall key <- required :: Get(options, key) == Set(required[key])
  }

  ghost function Read(text: string): ParseResult {
    ParseLines(SplitLines(text))
  }

  ghost predicate Legible(text: string) {
    Read(text).Parsed? && Read(text).options != map[]
  }

  method CheckRequired(options: Options, required: Options) returns (ok: bool)
    ensures ok <==> Meets(options, required)
  {
    var rest := required.Keys;
    while rest != {}
      invariant rest <= required.Keys
      invariant forall key <- required.Keys - rest :: Get(options, key) == Set(required[key])
      decreases |rest|
    {
      var key :| key in rest;
      if Get(options, key) != Set(required[key]) {
        return false;
      }
      rest := rest - {key};
    }
    ok := true;
  }

  /** The configuration for a firmware. Reading what it prints gives exactly the adapted options; only a
      configuration without any option cannot be read again. */
  method Prepare(base: string, reference: string, target: string, required: Options)
      returns (r: Result, ghost adapted: Options)
    ensures r.Unreadable? <==> !(Legible(reference) && Legible(target) && Legible(base))
    ensures !r.Unreadable? ==> IsAdapted(Read(base).options, Read(reference).options, Read(target).options, adapted)
    ensures r.Mismatch? <==> !r.Unreadable? && !Meets(adapted, required)
    ensures r.Prepared? ==> IsPrinted(r.text, adapted) && Read(r.text) == Parsed(adapted)
    ensures r.Prepared? ==> AllWellFormed(adapted)
    ensures r.Prepared? ==>
      (Legible(r.text) <==> SomethingLeft(Read(base).options, Read(reference).options, Read(target).options))
  {
    var references := ConfigOptions(reference);
    var targets := ConfigOptions(target);
    var bases := ConfigOptions(base);
    adapted := map[];
    if !references.Parsed? || !targets.Parsed? || !bases.Parsed? {
      return Unreadable, adapted;
    }
    var options := Adapt(bases.options, references.options, targets.options);
    adapted := options;
    var ok := CheckRequired(options, required);
    if !ok {
      return Mismatch, adapted;
    }
    var text := Print(options);
    LinesAreLines(base);
    LinesAreLines(target);
    ParsedWellFormed(SplitLines(base));
    ParsedWellFormed(SplitLines(target));
    AdaptedWellFormed(bases.options, references.options, targets.options, options);
    PrintedReadsBack(text, options);
    LeftIff(bases.options, references.options, targets.options, options);
    r := Prepared(text);
  }

  lemma PrintedYes(keys: seq<string>, options: Options)
    requires forall k <- keys :: k in options && options[k] == "y"
    ensures forall i | 0 <= i < |keys| :: PrintedLines(keys, options)[i] == keys[i] + "=y"
  {
    forall i | 0 <= i < |keys| ensures PrintedLines(keys, options)[i] == keys[i] + "=y" {
      assert keys[i] in keys;
      assert "y"[0] != "n"[0] && keys[i] + "=" + "y" == keys[i] + "=y";
    }
  }

  lemma JoinOne(lines: seq<string>, a: string)
    requires lines == [a]
    ensures JoinLines(lines) == a + "\n"
  {
    assert lines[1..] == [] && JoinLines(lines) == a + "\n" + JoinLines([]);
  }

  lemma JoinTwo(lines: seq<string>, a: string, b: string)
    requires lines == [a, b]
    ensures JoinLines(lines) == a + "\n" + (b + "\n")
  {
    assert lines[1..] == [b] && [b][1..] == [];
    assert JoinLines([b]) == b + "\n" + JoinLines([]);
  }

  lemma OneLineReads(key: string)
    requires WellFormed(key, "y")
    ensures Read(key + "=y" + "\n") == Parsed(map[key := "y"])
  {
    var options, keys := map[key := "y"], [key];
    PrintedYes(keys, options);
    var lines := PrintedLines(keys, options);
    JoinOne(lines, key + "=y");
    KeysReadBack(keys, options);
  }

  lemma TwoLinesRead(a: string, b: string)
    requires WellFormed(a, "y") && WellFormed(b, "y") && a != b && Le(a, b)
    ensures Read(a + "=y" + "\n" + (b + "=y" + "\n")) == Parsed(map[a := "y", b := "y"])
  {
    var options, keys := map[a := "y", b := "y"], [a, b];
    PrintedYes(keys, options);
    var lines := PrintedLines(keys, options);
    JoinTwo(lines, a + "=y", b + "=y");
    KeysReadBack(keys, options);
  }

  /** Three legible configurations that leave no option, so that what is printed cannot be read again. */
  lemma NothingLeft() returns (base: string, reference: string, target: string)
    ensures base == "CONFIG_A=y\n" && reference == "CONFIG_A=y\nCONFIG_B=y\n" && target == "CONFIG_B=y\n"
    ensures Legible(base) && Legible(reference) && Legible(target)
    ensures !SomethingLeft(Read(base).options, Read(reference).options, Read(target).options)
  {
    var a, b := PREFIX + "A", PREFIX + "B";
    OptionNames(a, b);
    base, reference, target := a + "=y" + "\n", a + "=y" + "\n" + (b + "=y" + "\n"), b + "=y" + "\n";
    Spelled(a, b);
    OneLineReads(a);
    OneLineReads(b);
    TwoLinesRead(a, b);
    assert a in Read(base).options && b in Read(target).options && a in Read(reference).options;
  }

  lemma Spelled(a: string, b: string)
    requires a == PREFIX + "A" && b == PREFIX + "B"
    ensures a + "=y" + "\n" == "CONFIG_A=y\n" && b + "=y" + "\n" == "CONFIG_B=y\n"
    ensures a + "=y" + "\n" + (b + "=y" + "\n") == "CONFIG_A=y\nCONFIG_B=y\n"
  {
  }

  lemma OptionNames(a: string, b: string)
    requires a == PREFIX + "A" && b == PREFIX + "B"
    ensures WellFormed(a, "y") && WellFormed(b, "y") && a != b && Le(a, b)
  {
    assert a[7] == 'A' && b[7] == 'B';
    LePrefix(PREFIX, "A", "B");
  }

  lemma {:induction false} LePrefix(p: string, a: string, b: string)
    requires Le(a, b)
    ensures Le(p + a, p + b)
  {
    if p == "" {
      assert p + a == a && p + b == b;
    } else {
      LePrefix(p[1..], a, b);
      assert (p + a)[1..] == p[1..] + a && (p + b)[1..] == p[1..] + b;
    }
  }
}
