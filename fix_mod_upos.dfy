/**
 * Fix_mod_upos.py: a line-by-line pass over a CoNLL-U file that retags `MOD` as `AUX`.
 *
 * Blank lines, comment lines and lines that do not split into exactly ten tab-separated
 * columns are copied as they are. In a ten-column line whose UPOS column (index 3) is `MOD`,
 * UPOS becomes `AUX` and the XPOS column (index 4) becomes `MOD` when it held the placeholder
 * `_`; every other line is written back from its columns. The pass counts the lines it retagged.
 */
module FixMod {
  import opened Text
  import Converter

  /** Copied without looking at the columns: a blank line or a comment. */
  predicate Passthrough(line: string) {
    line == [] || line[0] == '#'
  }

  /** A token line the pass retags. */
  predicate IsModLine(line: string) {
    var cols := Split(line, '\t');
    !Passthrough(line) && |cols| == 10 && cols[3] == "MOD"
  }

  /** The XPOS value written into a retagged line. */
  function NewXpos(xpos: string): string {
    if xpos == "_" then "MOD" else xpos
  }

  /** The line the pass writes for an input line. */
  function FixedLine(line: string): string {
    if Passthrough(line) then line
    else
      var cols := Split(line, '\t');
      if |cols| != 10 then line
      else if cols[3] == "MOD" then Join(cols[3 := "AUX"][4 := NewXpos(cols[4])], '\t')
      else Join(cols, '\t')
  }

  /** The lines the pass writes, one for every input line. */
  function Fixed(lines: seq<string>): seq<string> {
    if lines == [] then [] else Fixed(lines[..|lines| - 1]) + [FixedLine(lines[|lines| - 1])]
  }

  /** The number of retagged lines. */
  function ModCount(lines: seq<string>): (n: nat)
    ensures n <= |lines|
  {
    if lines == [] then 0
    else ModCount(lines[..|lines| - 1]) + if IsModLine(lines[|lines| - 1]) then 1 else 0
  }

  /** `fix_mod_upos`, on the text of the input file; `output` is the text of the output file. */
  method FixModUpos(input: string) returns (outLines: seq<string>, output: string, count: nat)
    ensures |outLines| == |FileLines(input)|
    ensures forall i :: 0 <= i < |outLines| ==> outLines[i] == FixedLine(FileLines(input)[i])
    ensures count == ModCount(FileLines(input))
    ensures output == Join(outLines, '\n') + "\n"
  {
    var lines := FileLines(input);
    outLines, count := [], 0;
    for n := 0 to |lines|
      invariant outLines == Fixed(lines[..n])
      invariant count == ModCount(lines[..n])
    {
      var line := lines[n];
      assert lines[..n + 1][..n] == lines[..n];
      if line == [] || line[0] == '#' {
        outLines := outLines + [line];
        continue;
      }
      var cols := Split(line, '\t');
      if |cols| != 10 {
        outLines := outLines + [line];
        continue;
      }
      var upos := cols[3];
      var xpos := cols[4];
      if upos == "MOD" {
        count := count + 1;
        cols := cols[3 := "AUX"];
        cols := cols[4 := if xpos == "_" then "MOD" else xpos];
      }
      outLines := outLines + [Join(cols, '\t')];
    }
    assert lines[..|lines|] == lines;
    FixedAt(lines);
    output := Join(outLines, '\n') + "\n";
  }

  /** One output line per input line, in the same order. */
  lemma {:induction false} FixedAt(lines: seq<string>)
    ensures |Fixed(lines)| == |lines|
    ensures forall i :: 0 <= i < |lines| ==> Fixed(lines)[i] == FixedLine(lines[i])
  {
    if lines != [] {
      FixedAt(lines[..|lines| - 1]);
    }
  }

  /**
   * A line comes out byte for byte as it went in exactly when it is not a `MOD` token line:
   * blank lines, comments, lines without ten columns, and token lines with another UPOS,
   * whose columns joined again give the line back.
   */
  lemma Unchanged(line: string)
    ensures FixedLine(line) == line <==> !IsModLine(line)
  {
    if !Passthrough(line) {
      var cols := Split(line, '\t');
      JoinSplit(line, '\t');
      if |cols| == 10 && cols[3] == "MOD" {
        Retagged(line);
      }
    }
  }

  /**
   * In a retagged line UPOS is `AUX`, XPOS is `MOD` when it was `_` and is kept otherwise,
   * and the other eight columns are those of the input line.
   */
  lemma Retagged(line: string)
    requires IsModLine(line)
    ensures var cols := Split(line, '\t');
      var out := Split(FixedLine(line), '\t');
      && |out| == 10
      && out[3] == "AUX"
      && out[4] == (if cols[4] == "_" then "MOD" else cols[4])
      && forall i :: 0 <= i < 10 && i != 3 && i != 4 ==> out[i] == cols[i]
  {
    var cols := Split(line, '\t');
    var fixed := cols[3 := "AUX"][4 := NewXpos(cols[4])];
    assert forall i :: 0 <= i < 10 ==> '\t' !in fixed[i];
    SplitJoin(fixed, '\t');
  }

  /** A retagged line starts like the input line, so it is neither blank nor a comment. */
  lemma RetaggedStart(line: string)
    requires IsModLine(line)
    ensures FixedLine(line) != [] && FixedLine(line)[0] == line[0]
  {
    var cols := Split(line, '\t');
    var fixed := cols[3 := "AUX"][4 := NewXpos(cols[4])];
    JoinSplit(line, '\t');
    assert Join(cols, '\t') == cols[0] + ['\t'] + Join(cols[1..], '\t');
    assert Join(fixed, '\t') == fixed[0] + ['\t'] + Join(fixed[1..], '\t');
    assert fixed[0] == cols[0];
  }

  /** Retagging once leaves nothing to retag: the pass is idempotent line by line. */
  lemma LineIdempotent(line: string)
    ensures !IsModLine(FixedLine(line))
    ensures FixedLine(FixedLine(line)) == FixedLine(line)
  {
    if IsModLine(line) {
      Retagged(line);
      RetaggedStart(line);
    } else {
      Unchanged(line);
    }
    Unchanged(FixedLine(line));
  }

  /** No output line holds a newline when no input line does. */
  lemma FixedNoNewline(line: string)
    requires '\n' !in line
    ensures '\n' !in FixedLine(line)
  {
    if IsModLine(line) {
      var cols := Split(line, '\t');
      SplitWithout(line, '\t', '\n');
      var fixed := cols[3 := "AUX"][4 := NewXpos(cols[4])];
      assert forall i :: 0 <= i < 10 ==> '\n' !in fixed[i];
      JoinWithout(fixed, '\t', '\n');
    } else {
      Unchanged(line);
    }
  }

  /** Fixing fixed lines changes nothing and retags nothing. */
  lemma {:induction false} LinesIdempotent(lines: seq<string>)
    ensures Fixed(Fixed(lines)) == Fixed(lines)
    ensures ModCount(Fixed(lines)) == 0
  {
    if lines != [] {
      var init := lines[..|lines| - 1];
      LinesIdempotent(init);
      LineIdempotent(lines[|lines| - 1]);
      var out := Fixed(lines);
      assert out[..|out| - 1] == Fixed(init);
    }
  }

  /**
   * Running the pass on its own output file writes the same file again and reports no
   * replacement.
   */
  lemma TextIdempotent(input: string)
    ensures var output := Join(Fixed(FileLines(input)), '\n') + "\n";
      && Join(Fixed(FileLines(output)), '\n') + "\n" == output
      && ModCount(FileLines(output)) == 0
  {
    var lines := FileLines(input);
    var out := Fixed(lines);
    LinesIdempotent(lines);
    FixedAt(lines);
    if out == [] {
      assert Join(out, '\n') + "\n" == "\n";
      assert Split("\n", '\n') == [""] + Split("", '\n');
      assert FileLines("\n") == [""];
      assert Fixed([""]) == [""];
    } else {
      forall i | 0 <= i < |out| ensures '\n' !in out[i] {
        FixedNoNewline(lines[i]);
      }
      FileLinesOfWritten(out);
    }
  }

  // ---------------------------------------------------------------------------
  // The pass over the converter's CoNLL-U output

  /** The number of pairs of a sentence tagged `MOD`. */
  function ModPairs(s: Converter.Sentence): (n: nat)
    ensures n <= |s|
  {
    if s == [] then 0 else ModPairs(s[..|s| - 1]) + if s[|s| - 1].tag == "MOD" then 1 else 0
  }

  /** The number of pairs of a corpus tagged `MOD`. */
  function ModTotal(c: seq<Converter.Sentence>): nat {
    if c == [] then 0 else ModTotal(c[..|c| - 1]) + ModPairs(c[|c| - 1])
  }

  lemma {:induction false} ModCountAppend(a: seq<string>, b: seq<string>)
    ensures ModCount(a + b) == ModCount(a) + ModCount(b)
  {
    if b == [] {
      assert a + b == a;
    } else {
      ModCountAppend(a, b[..|b| - 1]);
      assert (a + b)[..|a + b| - 1] == a + b[..|b| - 1];
      assert (a + b)[|a + b| - 1] == b[|b| - 1];
    }
  }

  lemma ModCountOne(x: string)
    ensures ModCount([x]) == if IsModLine(x) then 1 else 0
  {
    assert [x][..0] == [];
  }

  /** A token line the converter writes is retagged exactly when its pair is tagged `MOD`. */
  lemma TokenLineRetagged(i: nat, p: Converter.Pair)
    requires NoSpace(p.token) && NoSpace(p.tag)
    ensures IsModLine(Converter.TokenLine(i, p)) <==> p.tag == "MOD"
  {
    NoSpaceNoTab(p.token);
    NoSpaceNoTab(p.tag);
    Converter.TokenLineFields(i, p);
    var cols := Converter.TokenColumns(i, p);
    assert Join(cols, '\t') == cols[0] + ['\t'] + Join(cols[1..], '\t');
    assert IsDigit(cols[0][0]);
  }

  lemma {:induction false} TokenLinesRetagged(s: Converter.Sentence)
    requires forall i :: 0 <= i < |s| ==> NoSpace(s[i].token) && NoSpace(s[i].tag)
    ensures ModCount(Converter.TokenLines(s)) == ModPairs(s)
  {
    if s != [] {
      var init := s[..|s| - 1];
      TokenLinesRetagged(init);
      TokenLineRetagged(|s|, s[|s| - 1]);
      ModCountAppend(Converter.TokenLines(init), [Converter.TokenLine(|s|, s[|s| - 1])]);
      ModCountOne(Converter.TokenLine(|s|, s[|s| - 1]));
    }
  }

  /** In a block only the token lines can be retagged: the `# sent_id` comment and the blank line pass. */
  lemma BlockRetagged(k: nat, s: Converter.Sentence)
    requires Converter.WellFormedSentence(s)
    ensures ModCount(Converter.Block(k, s)) == ModPairs(s)
  {
    var id := Converter.SentIdLine(k);
    var mid := Converter.TokenLines(s);
    TokenLinesRetagged(s);
    ModCountAppend([id] + mid, [""]);
    ModCountAppend([id], mid);
    ModCountOne(id);
    ModCountOne("");
  }

  /**
   * Over the lines `write_conllu` produces, the pass retags one line per pair tagged `MOD`
   * and, by `Unchanged`, leaves every other line as it is.
   */
  lemma {:induction false} ConverterOutputRetagged(c: seq<Converter.Sentence>)
    requires forall k :: 0 <= k < |c| ==> Converter.WellFormedSentence(c[k])
    ensures ModCount(Converter.ConlluLines(c)) == ModTotal(c)
  {
    if c != [] {
      var init := c[..|c| - 1];
      ConverterOutputRetagged(init);
      BlockRetagged(|c|, c[|c| - 1]);
      ModCountAppend(Converter.ConlluLines(init), Converter.Block(|c|, c[|c| - 1]));
    }
  }

  /** Run on the file `write_conllu` writes, the pass reports one replacement per `MOD` pair. */
  lemma ConverterFileRetagged(c: seq<Converter.Sentence>)
    requires c != []
    requires forall k :: 0 <= k < |c| ==> Converter.WellFormedSentence(c[k])
    ensures ModCount(FileLines(Join(Converter.ConlluLines(c), '\n') + "\n")) == ModTotal(c)
  {
    Converter.ConlluReadBack(c);
    ConverterOutputRetagged(c);
  }
}
