/**
 * Line normalisation (src/main.rs, the body of `find_files`): every line of a
 * source file is trimmed, blank lines are dropped and what is left is joined
 * with '\n', to save prompt space.
 */
module Normalisation {
  import opened Text

  /** Drops the '\r' of a "\r\n" line ending. */
  function StripCr(line: string): string {
    if |line| > 0 && line[|line| - 1] == '\r' then line[..|line| - 1] else line
  }

  /**
   * `str::lines`: the pieces of `s` between '\n' characters; a line that
   * "\r\n" ends loses its '\r', and a final '\n' does not start an empty line.
   */
  function Lines(s: string): (r: seq<string>)
    ensures forall k :: 0 <= k < |r| ==> '\n' !in r[k]
  {
    var pieces := Split(s, '\n');
    var ended := pieces[..|pieces| - 1];
    var last := pieces[|pieces| - 1];
    StripCrAll(ended) + (if last == [] then [] else [last])
  }

  function StripCrAll(lines: seq<string>): seq<string> {
    seq(|lines|, k requires 0 <= k < |lines| => StripCr(lines[k]))
  }

  /** `.map(str::trim).filter(|line| !line.is_empty())`. */
  function CleanLines(lines: seq<string>): (r: seq<string>)
    ensures |r| <= |lines|
    ensures forall k :: 0 <= k < |r| ==> r[k] != [] && IsTrimmed(r[k])
    ensures (forall k :: 0 <= k < |lines| ==> '\n' !in lines[k]) ==>
              forall k :: 0 <= k < |r| ==> '\n' !in r[k]
  {
    if lines == [] then []
    else
      var t := Trim(lines[0]);
      (if t == [] then [] else [t]) + CleanLines(lines[1..])
  }

  /**
   * The normalised text of a file: its lines, trimmed, without the blank
   * ones, joined with '\n'. Its lines are exactly the trimmed non-blank input
   * lines in order, none of them empty and none with whitespace at either end.
   */
  function Normalise(content: string): (r: string)
    ensures r == [] <==> CleanLines(Lines(content)) == []
    ensures r != [] ==> Split(r, '\n') == CleanLines(Lines(content))
    ensures r != [] ==> forall k :: 0 <= k < |Split(r, '\n')| ==>
              Split(r, '\n')[k] != [] && IsTrimmed(Split(r, '\n')[k])
  {
    var lines := CleanLines(Lines(content));
    if lines == [] then []
    else
      SplitJoin(lines, '\n');
      Join(lines, ['\n'])
  }

  lemma {:induction false} CleanLinesOfClean(lines: seq<string>)
    requires forall k :: 0 <= k < |lines| ==> lines[k] != [] && IsTrimmed(lines[k])
    ensures CleanLines(lines) == lines
  {
    if lines != [] {
      TrimOfTrimmed(lines[0]);
      CleanLinesOfClean(lines[1..]);
      assert [lines[0]] + lines[1..] == lines;
    }
  }

  lemma StripCrOfTrimmed(line: string)
    requires line != [] && IsTrimmed(line)
    ensures StripCr(line) == line
  {
    assert IsWhitespace('\r');
  }

  lemma StripCrAllOfClean(lines: seq<string>)
    requires forall k :: 0 <= k < |lines| ==> lines[k] != [] && IsTrimmed(lines[k])
    ensures StripCrAll(lines) == lines
  {
    forall k | 0 <= k < |lines| ensures StripCrAll(lines)[k] == lines[k] {
      StripCrOfTrimmed(lines[k]);
    }
  }

  lemma LinesOfCleanJoin(lines: seq<string>)
    requires |lines| >= 1
    requires forall k :: 0 <= k < |lines| ==> lines[k] != [] && IsTrimmed(lines[k]) && '\n' !in lines[k]
    ensures Lines(Join(lines, ['\n'])) == lines
  {
    var s := Join(lines, ['\n']);
    var ended := lines[..|lines| - 1];
    var last := lines[|lines| - 1];
    assert Split(s, '\n') == lines by {
      SplitJoin(lines, '\n');
    }
    assert StripCrAll(ended) == ended by {
      StripCrAllOfClean(ended);
    }
    assert last != [];
    ButLastAndLast(lines);
  }

  lemma ButLastAndLast(lines: seq<string>)
    requires |lines| >= 1
    ensures lines[..|lines| - 1] + [lines[|lines| - 1]] == lines
  {
  }

  /** Normalising text that is already normalised leaves it unchanged. */
  lemma {:induction false} NormaliseIdempotent(content: string)
    ensures Normalise(Normalise(content)) == Normalise(content)
  {
    var lines := CleanLines(Lines(content));
    var r := Normalise(content);
    if lines == [] {
      assert r == [];
      assert Split(r, '\n') == [[]];
      assert Lines(r) == [];
    } else {
      assert forall k :: 0 <= k < |Lines(content)| ==> '\n' !in Lines(content)[k];
      LinesOfCleanJoin(lines);
      CleanLinesOfClean(lines);
    }
  }
}
