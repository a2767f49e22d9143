/** Text as lines, the way Python's splitlines sees it. */
module TextLines {
  const BREAKS: set<char> :=
    {'\n', '\r', '\U{0B}', '\U{0C}', '\U{1C}', '\U{1D}', '\U{1E}', '\U{85}', '\U{2028}', '\U{2029}'}

  predicate OneLine(s: string) {
    forall c <- s :: c !in BREAKS
  }

  function LineEnd(s: string): (n: nat)
    ensures n <= |s| && OneLine(s[..n]) && (n < |s| ==> s[n] in BREAKS)
  {
    if s == "" || s[0] in BREAKS then 0
    else
      assert s[..1 + LineEnd(s[1..])] == [s[0]] + s[1..][..LineEnd(s[1..])];
      1 + LineEnd(s[1..])
  }

  /** Lines without their line breaks; a break at the end opens no further line. */
  function SplitLines(s: string): seq<string> {
    if s == "" then []
    else
      var n := LineEnd(s);
      var skip := if n == |s| then 0 else if s[n] == '\r' && n + 1 < |s| && s[n + 1] == '\n' then 2 else 1;
      [s[..n]] + SplitLines(s[n + skip..])
  }

  lemma OneLineIff(s: string)
    ensures OneLine(s) <==>
      && '\n' !in s && '\r' !in s && '\U{0B}' !in s && '\U{0C}' !in s && '\U{1C}' !in s && '\U{1D}' !in s
      && '\U{1E}' !in s && '\U{85}' !in s && '\U{2028}' !in s && '\U{2029}' !in s
  {
  }

  /** What a text is split into: the text before the first break, and the lines after it. A carriage return
      and a line feed behind it are one break. */
  lemma FirstLine(line: string, end: char, rest: string)
    requires OneLine(line) && end in BREAKS
    ensures SplitLines(line + [end] + rest)
         == [line] + SplitLines(if end == '\r' && rest != "" && rest[0] == '\n' then rest[1..] else rest)
  {
    var s := line + [end] + rest;
    BreakEnds(line, end, rest);
    assert s[..|line|] == line && s[|line| + 1..] == rest;
    if end == '\r' && rest != "" && rest[0] == '\n' {
      assert s[|line| + 1] == rest[0] && s[|line| + 2..] == rest[1..];
    } else {
      assert rest != "" ==> s[|line| + 1] == rest[0];
    }
  }

  lemma OnlyLine(line: string)
    requires OneLine(line)
    ensures SplitLines(line) == if line == "" then [] else [line]
  {
    LineEndOne(line);
    assert line[..|line|] == line && line[|line|..] == "";
  }

  lemma {:induction false} BreakEnds(line: string, end: char, rest: string)
    requires OneLine(line) && end in BREAKS
    ensures LineEnd(line + [end] + rest) == |line|
  {
    var s := line + [end] + rest;
    if line == "" {
      assert s[0] == end;
    } else {
      assert s[0] == line[0] && s[1..] == line[1..] + [end] + rest;
      BreakEnds(line[1..], end, rest);
    }
  }

  function JoinLines(lines: seq<string>): string {
    if lines == [] then "" else lines[0] + "\n" + JoinLines(lines[1..])
  }

  lemma {:induction false} LineEndIs(line: string, rest: string)
    requires OneLine(line)
    ensures LineEnd(line + "\n" + rest) == |line|
  {
    var s := line + "\n" + rest;
    if line == "" {
      assert s[0] == '\n';
    } else {
      assert s[0] == line[0] && s[1..] == line[1..] + "\n" + rest;
      LineEndIs(line[1..], rest);
    }
  }

  lemma {:induction false} SplitJoin(lines: seq<string>)
    requires forall l <- lines :: OneLine(l)
    ensures SplitLines(JoinLines(lines)) == lines
  {
    if lines != [] {
      var line, rest := lines[0], JoinLines(lines[1..]);
      var s := line + "\n" + rest;
      LineEndIs(line, rest);
      assert s[..|line|] == line && s[|line| + 1..] == rest;
      assert forall l <- lines[1..] :: l in lines;
      SplitJoin(lines[1..]);
    }
  }

  lemma {:induction false} LinesAreLines(s: string)
    ensures forall l <- SplitLines(s) :: OneLine(l)
    decreases |s|
  {
    if s != "" {
      var n := LineEnd(s);
      var skip := if n == |s| then 0 else if s[n] == '\r' && n + 1 < |s| && s[n + 1] == '\n' then 2 else 1;
      LinesAreLines(s[n + skip..]);
    }
  }

  /** The first place of a character. */
  function Find(s: string, c: char): (n: nat)
    requires c in s
    ensures n < |s| && s[n] == c && c !in s[..n]
  {
    if s[0] == c then 0
    else
      assert s == [s[0]] + s[1..];
      assert s[..1 + Find(s[1..], c)] == [s[0]] + s[1..][..Find(s[1..], c)];
      1 + Find(s[1..], c)
  }

  lemma {:induction false} FindFirst(a: string, c: char, b: string)
    requires c !in a
    ensures c in a + [c] + b && Find(a + [c] + b, c) == |a|
  {
    var s := a + [c] + b;
    assert s[|a|] == c;
    if a != "" {
      assert s[0] == a[0] && s[1..] == a[1..] + [c] + b;
      FindFirst(a[1..], c, b);
    }
  }

  /** The texts with a separator between them. */
  function Between(parts: seq<string>, separator: string): string {
    if |parts| == 0 then ""
    else if |parts| == 1 then parts[0]
    else parts[0] + separator + Between(parts[1..], separator)
  }

  lemma {:induction false} SplitBetween(lines: seq<string>)
    requires forall l <- lines :: OneLine(l) && l != ""
    ensures SplitLines(Between(lines, "\n")) == lines
  {
    if |lines| == 1 {
      var line := lines[0];
      LineEndOne(line);
      assert line[..|line|] == line && line[|line|..] == "";
    } else if |lines| > 1 {
      var line, rest := lines[0], Between(lines[1..], "\n");
      var s := line + "\n" + rest;
      LineEndIs(line, rest);
      assert s[..|line|] == line && s[|line| + 1..] == rest;
      assert forall l <- lines[1..] :: l in lines;
      SplitBetween(lines[1..]);
    }
  }

  lemma {:induction false} LineEndOne(line: string)
    requires OneLine(line)
    ensures LineEnd(line) == |line|
  {
    if line != "" {
      LineEndOne(line[1..]);
    }
  }
}
