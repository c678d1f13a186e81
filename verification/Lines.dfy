/** Text as lines: reading line by line and joining lines again. */
module Lines {
  import opened Outcomes

  predicate IsBreak(c: char) {
    c == '\n' || c == '\r'
  }

  function LineEnd(s: string): (n: nat)
    ensures n <= |s|
    ensures forall i | 0 <= i < n :: !IsBreak(s[i])
    ensures n < |s| ==> IsBreak(s[n])
  {
    if s == "" || IsBreak(s[0]) then 0 else 1 + LineEnd(s[1..])
  }

  /** The length of the line break at n: a carriage return takes the newline with it. */
  function BreakLength(s: string, n: nat): (k: nat)
    requires n <= |s|
    ensures n + k <= |s|
    ensures n < |s| ==> k > 0
  {
    if n == |s| then 0
    else if s[n] == '\r' && n + 1 < |s| && s[n + 1] == '\n' then 2
    else 1
  }

  /** The first line and the text after its line break. */
  function ReadLine(s: string): (r: (string, string))
    requires s != ""
    ensures |r.1| < |s|
    ensures forall c | c in r.0 :: !IsBreak(c)
  {
    var n := LineEnd(s);
    (s[..n], s[n + BreakLength(s, n)..])
  }

  function ReadLines(s: string): (lines: seq<string>)
    decreases |s|
  {
    if s == "" then [] else [ReadLine(s).0] + ReadLines(ReadLine(s).1)
  }

  function Join(lines: seq<string>): string {
    if |lines| == 0 then ""
    else if |lines| == 1 then lines[0]
    else lines[0] + "\n" + Join(lines[1..])
  }

  method ConcatContent(lines: seq<string>) returns (r: Option<string>)
    ensures r == if lines == [] then None else Some(Join(lines))
  {
    if |lines| > 0 {
      var sb := "";
      var i := 1;
      while i <= |lines|
        invariant 1 <= i <= |lines| + 1
        invariant Join(lines) == sb + Join(lines[i - 1..])
      {
        assert lines[i - 1..][1..] == lines[i..];
        sb := sb + lines[i - 1];
        if i != |lines| {
          sb := sb + "\n";
        }
        i := i + 1;
      }
      assert sb + "" == sb;
      return Some(sb);
    }
    return None;
  }

  predicate OneLine(s: string) {
    forall c | c in s :: !IsBreak(c)
  }

  lemma ReadLineOf(line: string, rest: string)
    requires OneLine(line)
    ensures ReadLine(line + "\n" + rest) == (line, rest)
    ensures line != "" ==> ReadLine(line) == (line, "")
  {
    var s := line + "\n" + rest;
    LineEndIs(s, |line|);
    assert s[..|line|] == line && s[|line| + 1..] == rest;
    LineEndIs(line, |line|);
    assert line[..|line|] == line && line[|line|..] == "";
  }

  /** A line break: a lone carriage return is one if no newline follows it. */
  predicate BreaksBefore(break_: string, rest: string) {
    break_ == "\n" || break_ == "\r\n" || (break_ == "\r" && (rest == "" || rest[0] != '\n'))
  }

  /** Each of the three line breaks ends a line; the last line needs none. */
  lemma LinesOfAnyBreak(line: string, break_: string, rest: string)
    requires OneLine(line) && BreaksBefore(break_, rest)
    ensures ReadLines(line + break_ + rest) == [line] + ReadLines(rest)
    ensures ReadLines(line) == if line == "" then [] else [line]
  {
    var s := line + break_ + rest;
    LineEndIs(s, |line|);
    assert s[..|line|] == line && s[|line| + |break_|..] == rest;
    assert ReadLine(s) == (line, rest);
    ReadLinesCons(line, rest);
  }

  lemma LineEndIs(s: string, n: nat)
    requires n <= |s| && (forall i | 0 <= i < n :: !IsBreak(s[i])) && (n < |s| ==> IsBreak(s[n]))
    ensures LineEnd(s) == n
  {
  }

  lemma ReadNothing()
    ensures ReadLines("") == []
  {
  }

  lemma ReadLinesCons(line: string, rest: string)
    requires OneLine(line)
    ensures ReadLines(line + "\n" + rest) == [line] + ReadLines(rest)
    ensures ReadLines(line) == if line == "" then [] else [line]
  {
    hide OneLine, ReadLine;
    assert line + "\n" + rest != "";
    ReadLineOf(line, rest);
  }

  /** Reading undoes joining, except that one empty line at the end is lost. */
  lemma {:induction false} ReadJoined(lines: seq<string>)
    requires forall line | line in lines :: OneLine(line)
    ensures ReadLines(Join(lines)) ==
            if lines != [] && lines[|lines| - 1] == "" then lines[..|lines| - 1] else lines
  {
    hide ReadLines, OneLine;
    ReadNothing();
    if |lines| == 1 {
      ReadLinesCons(lines[0], "");
    } else if |lines| > 1 {
      ReadLinesCons(lines[0], Join(lines[1..]));
      ReadJoined(lines[1..]);
      assert lines == [lines[0]] + lines[1..];
      assert lines[..|lines| - 1] == [lines[0]] + lines[1..][..|lines| - 2];
    }
  }
}
