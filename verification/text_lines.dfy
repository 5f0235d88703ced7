/**
 * Text as a sequence of lines: the `"\r\n"` join the single-group export
 * writes with (`Joiner.on("\r\n").join`) and the split the import reads
 * with (`IOUtils.readLines`, that is `BufferedReader.readLine` until the
 * end of the text).
 */
module TextLines {

  /** A character that ends a line for `BufferedReader.readLine`. */
  predicate IsBreak(ch: char) {
    ch == '\n' || ch == '\r'
  }

  /** Text without a line terminator. */
  predicate OnOneLine(s: string) {
    '\n' !in s && '\r' !in s
  }

  /** `Joiner.on("\r\n").join(lines)`: a separator between two lines, none after the last. */
  function JoinLines(lines: seq<string>): string {
    if |lines| == 0 then ""
    else if |lines| == 1 then lines[0]
    else lines[0] + "\r\n" + JoinLines(lines[1..])
  }

  /** Where the first line of `text` ends: its first terminator, or the end of the text. */
  function LineEnd(text: string): (n: nat)
    ensures n <= |text|
    ensures OnOneLine(text[..n])
    ensures n < |text| ==> IsBreak(text[n])
  {
    if |text| == 0 || IsBreak(text[0]) then 0
    else
      var n := 1 + LineEnd(text[1..]);
      assert text[..n] == [text[0]] + text[1..][..n - 1];
      n
  }

  /**
   * `IOUtils.readLines`: each line ends at `\n`, `\r` or `\r\n`, which is
   * dropped; a terminator at the very end opens no further line, and an
   * empty text has no lines at all.
   */
  function ReadLines(text: string): (lines: seq<string>)
    ensures |lines| == 0 <==> |text| == 0
    ensures forall i | 0 <= i < |lines| :: OnOneLine(lines[i])
    decreases |text|
  {
    if |text| == 0 then []
    else
      var n := LineEnd(text);
      if n == |text| then [text]
      else
        var next := if text[n] == '\r' && n + 1 < |text| && text[n + 1] == '\n' then n + 2 else n + 1;
        var rest := ReadLines(text[next..]);
        assert forall i | 1 <= i < 1 + |rest| :: ([text[..n]] + rest)[i] == rest[i - 1];
        [text[..n]] + rest
  }

  /** The lines a reader gets back from joined lines: a last line that is empty leaves no trace. */
  function DropFinalEmpty(lines: seq<string>): (r: seq<string>)
    ensures |lines| > 0 && lines[|lines| - 1] == "" ==> r == lines[..|lines| - 1]
    ensures !(|lines| > 0 && lines[|lines| - 1] == "") ==> r == lines
  {
    if |lines| > 0 && lines[|lines| - 1] == "" then lines[..|lines| - 1] else lines
  }

  /** Dropping a final empty line leaves the lines before the last untouched. */
  lemma DropFinalEmptyCons(x: string, rest: seq<string>)
    requires |rest| > 0
    ensures DropFinalEmpty([x] + rest) == [x] + DropFinalEmpty(rest)
  {
    var lines := [x] + rest;
    assert lines[|lines| - 1] == rest[|rest| - 1];
    if rest[|rest| - 1] == "" {
      assert lines[..|lines| - 1] == [x] + rest[..|rest| - 1];
    }
  }

  /** A first line free of terminators ends where the text after it starts to end. */
  lemma {:induction false} LineEndAfter(a: string, t: string)
    requires OnOneLine(a)
    ensures LineEnd(a + t) == |a| + LineEnd(t)
  {
    if |a| == 0 {
      assert a + t == t;
    } else {
      assert (a + t)[0] == a[0] && a[0] in a;
      assert (a + t)[1..] == a[1..] + t;
      assert OnOneLine(a[1..]) by {
        forall ch | ch in a[1..] ensures ch in a {
          var i :| 0 <= i < |a[1..]| && a[1..][i] == ch;
          assert a[i + 1] == ch;
        }
      }
      LineEndAfter(a[1..], t);
    }
  }

  /** A line followed by `"\r\n"` is read as that line, and reading goes on right after the separator. */
  lemma ReadLinesAfterBreak(a: string, t: string)
    requires OnOneLine(a)
    ensures ReadLines(a + "\r\n" + t) == [a] + ReadLines(t)
  {
    var text := a + "\r\n" + t;
    assert text == a + ("\r\n" + t);
    LineEndAfter(a, "\r\n" + t);
    var n := |a|;
    assert text[n] == '\r' && text[n + 1] == '\n';
    assert text[n + 2..] == t;
    assert text[..n] == a;
  }

  /**
   * Reading back joined lines gives the lines, when none of them holds a
   * terminator; only a final empty line is lost.
   */
  lemma {:induction false} ReadLinesOfJoined(lines: seq<string>)
    requires forall i | 0 <= i < |lines| :: OnOneLine(lines[i])
    ensures ReadLines(JoinLines(lines)) == DropFinalEmpty(lines)
    decreases |lines|
  {
    if |lines| == 1 {
      if lines[0] != "" {
        LineEndAfter(lines[0], "");
        assert lines[0] + "" == lines[0];
      }
    } else if |lines| > 1 {
      var rest := lines[1..];
      assert JoinLines(lines) == lines[0] + "\r\n" + JoinLines(rest);
      ReadLinesAfterBreak(lines[0], JoinLines(rest));
      ReadLinesOfJoined(rest);
      DropFinalEmptyCons(lines[0], rest);
      assert [lines[0]] + rest == lines;
    }
  }
}
