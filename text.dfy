/** The two pieces of Python string handling the listing is rendered with:
    `str.lower()` (on ASCII text, which is all the disassembler ever lowers) and
    `"\n".join(lines)`, with `str.split("\n")` as the inverse of the join. */
module Text {

  /** Lower-cases an ASCII capital; every other character is unchanged. (The ensures
      only unfold the body for callers.) */
  function LowerChar(c: char): (r: char)
    ensures 'A' <= c <= 'Z' ==> 'a' <= r <= 'z' && r as int - c as int == 32
    ensures !('A' <= c <= 'Z') ==> r == c
  {
    if 'A' <= c <= 'Z' then (c as int + 32) as char else c
  }

  /** `s.lower()` for ASCII text. (The ensures only unfold the body for callers.) */
  function Lower(s: string): (r: string)
    ensures |r| == |s|
    ensures forall i :: 0 <= i < |s| ==> r[i] == LowerChar(s[i])
  {
    seq(|s|, i requires 0 <= i < |s| => LowerChar(s[i]))
  }

  /** No ASCII capital letter occurs in s. */
  predicate NoCapitals(s: string)
  {
    forall i :: 0 <= i < |s| ==> !('A' <= s[i] <= 'Z')
  }

  /** Lowering works character by character, so it distributes over concatenation. */
  lemma LowerConcat(a: string, b: string)
    ensures Lower(a + b) == Lower(a) + Lower(b)
  {
    assert forall i :: 0 <= i < |a + b| ==> (a + b)[i] == if i < |a| then a[i] else b[i - |a|];
  }

  /** Lowering leaves no capital behind, and text without capitals is left alone,
      so lowering twice is lowering once. */
  lemma LowerIdempotent(s: string)
    ensures NoCapitals(Lower(s))
    ensures NoCapitals(s) ==> Lower(s) == s
    ensures Lower(Lower(s)) == Lower(s)
  {
  }

  /** Lowering neither adds nor removes a newline. */
  lemma LowerKeepsLines(s: string)
    ensures SingleLine(Lower(s)) <==> SingleLine(s)
  {
  }

  /** `sep.join(lines)`: the lines with sep between neighbours, none after the last.
      (The ensures only unfolds the one-line case of the body for callers.) */
  function Join(lines: seq<string>, sep: string): (r: string)
    ensures |lines| == 1 ==> r == lines[0]
    decreases |lines|
  {
    if |lines| == 0 then ""
    else if |lines| == 1 then lines[0]
    else lines[0] + sep + Join(lines[1..], sep)
  }

  /** `s.split("\n")`: the pieces of s between newlines; always at least one piece. */
  function SplitLines(s: string): (r: seq<string>)
    ensures |r| >= 1
    decreases |s|
  {
    if |s| == 0 then [""]
    else if s[0] == '\n' then [""] + SplitLines(s[1..])
    else
      var rest := SplitLines(s[1..]);
      [[s[0]] + rest[0]] + rest[1..]
  }

  /** No newline occurs in s. */
  predicate SingleLine(s: string)
  {
    forall i :: 0 <= i < |s| ==> s[i] != '\n'
  }

  /** A single line followed by a newline and more text splits into that line and the
      pieces of the rest; a single line on its own is one piece. */
  lemma {:induction false} SplitLinesCons(line: string, rest: string)
    requires SingleLine(line)
    ensures SplitLines(line + "\n" + rest) == [line] + SplitLines(rest)
    ensures SplitLines(line) == [line]
    decreases |line|
  {
    if |line| == 0 {
      assert line + "\n" + rest == ['\n'] + rest;
      assert (['\n'] + rest)[1..] == rest;
    } else {
      var tail := line[1..];
      assert SingleLine(tail);
      SplitLinesCons(tail, rest);
      assert (line + "\n" + rest)[1..] == tail + "\n" + rest;
      assert [line[0]] + tail == line;
    }
  }

  /** Splitting the joined listing at newlines gives back the lines, provided none of
      them holds a newline itself. (No lines join to "", which splits into one empty
      line, hence the non-empty requirement.) */
  lemma {:induction false} SplitJoin(lines: seq<string>)
    requires |lines| >= 1
    requires forall i :: 0 <= i < |lines| ==> SingleLine(lines[i])
    ensures SplitLines(Join(lines, "\n")) == lines
    decreases |lines|
  {
    SplitLinesCons(lines[0], "");
    if |lines| > 1 {
      SplitJoin(lines[1..]);
      SplitLinesCons(lines[0], Join(lines[1..], "\n"));
      assert [lines[0]] + lines[1..] == lines;
    }
  }

  /** The joined text of n lines of length len is n*len characters plus n-1 separators. */
  lemma {:induction false} JoinLength(lines: seq<string>, sep: string, len: nat)
    requires |lines| >= 1
    requires forall i :: 0 <= i < |lines| ==> |lines[i]| == len
    ensures |Join(lines, sep)| == |lines| * len + (|lines| - 1) * |sep|
    decreases |lines|
  {
    if |lines| > 1 {
      JoinLength(lines[1..], sep, len);
    }
  }

  /** Text is free of capitals, or of newlines, exactly when both of its parts are. */
  lemma TextConcat(a: string, b: string)
    ensures NoCapitals(a + b) <==> NoCapitals(a) && NoCapitals(b)
    ensures SingleLine(a + b) <==> SingleLine(a) && SingleLine(b)
  {
    assert forall i :: 0 <= i < |a| ==> (a + b)[i] == a[i];
    assert forall i :: 0 <= i < |b| ==> (a + b)[|a| + i] == b[i];
  }
}
