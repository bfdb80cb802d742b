/**
 * The corpus reader and the three encoders of DatasetConverter.py.
 *
 * The input corpus holds one sentence per line, each line a whitespace-separated list of
 * `token/tag` items. `ReadSentences` turns the lines into the list of sentences; `WriteConllu`,
 * `WriteTsv` and `WriteJsonl` produce what the script writes to its three output files.
 */
module Converter {
  import opened Wrappers
  import opened Text

  /** A token with its part-of-speech tag (the script's `(token, tag)` tuple). */
  datatype Pair = Pair(token: string, tag: string)

  type Sentence = seq<Pair>

  /** What a pair read from an item of `line.split()` always satisfies. */
  predicate WellFormed(p: Pair) {
    p.token != [] && p.tag != [] && NoSpace(p.token) && NoSpace(p.tag) && '/' !in p.tag
  }

  predicate WellFormedSentence(s: Sentence) {
    s != [] && forall i :: 0 <= i < |s| ==> WellFormed(s[i])
  }

  /** The number of pairs in a list of sentences. */
  function TotalPairs(c: seq<Sentence>): nat {
    if c == [] then 0 else TotalPairs(c[..|c| - 1]) + |c[|c| - 1]|
  }

  // ---------------------------------------------------------------------------
  // parse_item

  /**
   * Splits an item at its last `/`; an item without `/`, or with nothing before or
   * nothing after the last `/`, is malformed.
   */
  function ParseItem(item: string): (r: Option<Pair>)
    ensures r.Some? ==> item == r.value.token + "/" + r.value.tag
    ensures r.Some? ==> r.value.token != [] && r.value.tag != [] && '/' !in r.value.tag
    ensures r.Some? && NoSpace(item) ==> WellFormed(r.value)
    ensures r.None? <==>
      '/' !in item || LastIndexOf(item, '/') == 0 || LastIndexOf(item, '/') == |item| - 1
  {
    if '/' !in item then None
    else
      var k := LastIndexOf(item, '/');
      var token, tag := item[..k], item[k + 1..];
      assert item == token + "/" + tag;
      if token == [] || tag == [] then None else Some(Pair(token, tag))
  }

  /** The item an encoder of the raw format would write for a pair. */
  function ItemOf(p: Pair): string {
    p.token + "/" + p.tag
  }

  /**
   * Round trip: a non-empty token and a non-empty tag without `/` are recovered from
   * `token/tag`, also when the token itself contains `/`.
   */
  lemma ParseItemRoundTrip(p: Pair)
    requires p.token != [] && p.tag != [] && '/' !in p.tag
    ensures ParseItem(ItemOf(p)) == Some(p)
  {
    var item := ItemOf(p);
    var k := |p.token|;
    assert item[k] == '/' && item[k + 1..] == p.tag;
    LastIndexOfUnique(item, '/', k);
    assert item[..k] == p.token;
  }

  // ---------------------------------------------------------------------------
  // read_sentences

  /** The parsed items of a list of items, malformed ones skipped, in order. */
  function ValidPairs(items: seq<string>): (ps: seq<Pair>)
    ensures |ps| <= |items|
  {
    if items == [] then []
    else
      var ps := ValidPairs(items[..|items| - 1]);
      match ParseItem(items[|items| - 1])
      case Some(p) => ps + [p]
      case None => ps
  }

  /** The candidate sentence of one input line: empty for a blank line. */
  function LineSentence(line: string): Sentence {
    var stripped := Strip(line);
    if stripped == [] then [] else ValidPairs(Words(stripped))
  }

  /** The corpus of a list of lines: the non-empty candidate sentences, in order. */
  function Corpus(lines: seq<string>): seq<Sentence> {
    if lines == [] then []
    else
      var c := Corpus(lines[..|lines| - 1]);
      var s := LineSentence(lines[|lines| - 1]);
      if s == [] then c else c + [s]
  }

  /** `read_sentences`, on the lines of the corpus file. */
  method ReadSentences(lines: seq<string>) returns (sentences: seq<Sentence>)
    ensures sentences == Corpus(lines)
    ensures forall k :: 0 <= k < |sentences| ==> WellFormedSentence(sentences[k])
  {
    sentences := [];
    for n := 0 to |lines|
      invariant sentences == Corpus(lines[..n])
    {
      CorpusSnoc(lines[..n + 1], lines[..n], lines[n]);
      var line := Strip(lines[n]);
      if line == [] {
        continue;
      }
      var pairs := ParseItems(Words(line));
      if pairs != [] {
        sentences := sentences + [pairs];
      }
    }
    assert lines[..|lines|] == lines;
    CorpusWellFormed(lines);
  }

  /** The inner loop of `read_sentences`: parse every item of a line, skipping malformed ones. */
  method ParseItems(items: seq<string>) returns (pairs: seq<Pair>)
    ensures pairs == ValidPairs(items)
  {
    pairs := [];
    for j := 0 to |items|
      invariant pairs == ValidPairs(items[..j])
    {
      assert items[..j + 1][..j] == items[..j];
      var parsed := ParseItem(items[j]);
      if parsed.None? {
        continue;
      }
      pairs := pairs + [parsed.value];
    }
    assert items[..|items|] == items;
  }

  lemma {:induction false} ValidPairsWellFormed(items: seq<string>)
    requires forall i :: 0 <= i < |items| ==> NoSpace(items[i])
    ensures forall i :: 0 <= i < |ValidPairs(items)| ==> WellFormed(ValidPairs(items)[i])
  {
    if items != [] {
      ValidPairsWellFormed(items[..|items| - 1]);
    }
  }

  lemma LineSentenceWellFormed(line: string)
    ensures forall i :: 0 <= i < |LineSentence(line)| ==> WellFormed(LineSentence(line)[i])
  {
    if Strip(line) != [] {
      ValidPairsWellFormed(Words(Strip(line)));
    }
  }

  lemma CorpusSnoc(lines: seq<string>, init: seq<string>, line: string)
    requires lines == init + [line]
    ensures Corpus(lines) ==
      if LineSentence(line) == [] then Corpus(init) else Corpus(init) + [LineSentence(line)]
  {
    assert lines[..|lines| - 1] == init;
  }

  /**
   * No sentence of the corpus is empty, and every pair has a non-empty token and tag,
   * neither containing whitespace, and a tag without `/`.
   */
  lemma {:induction false} CorpusWellFormed(lines: seq<string>)
    ensures forall k :: 0 <= k < |Corpus(lines)| ==> WellFormedSentence(Corpus(lines)[k])
  {
    if lines != [] {
      var init, line := lines[..|lines| - 1], lines[|lines| - 1];
      assert lines == init + [line];
      CorpusWellFormed(init);
      LineSentenceWellFormed(line);
      CorpusSnoc(lines, init, line);
    }
  }

  /** The candidate sentence of every line, blank lines giving the empty one. */
  function Candidates(lines: seq<string>): seq<Sentence> {
    seq(|lines|, i requires 0 <= i < |lines| => LineSentence(lines[i]))
  }

  /** The non-empty members of a list of sentences, in order. */
  function NonEmpty(cs: seq<Sentence>): seq<Sentence> {
    if cs == [] then []
    else
      var r := NonEmpty(cs[..|cs| - 1]);
      if cs[|cs| - 1] == [] then r else r + [cs[|cs| - 1]]
  }

  /** The indices of the non-empty members. */
  function Kept(cs: seq<Sentence>): seq<nat> {
    if cs == [] then []
    else
      var ks := Kept(cs[..|cs| - 1]);
      if cs[|cs| - 1] == [] then ks else ks + [|cs| - 1]
  }

  lemma {:induction false} NonEmptyIndices(cs: seq<Sentence>)
    ensures |Kept(cs)| == |NonEmpty(cs)|
    ensures forall k :: 0 <= k < |Kept(cs)| ==> Kept(cs)[k] < |cs| && NonEmpty(cs)[k] == cs[Kept(cs)[k]]
    ensures forall k, m :: 0 <= k < m < |Kept(cs)| ==> Kept(cs)[k] < Kept(cs)[m]
    ensures forall i :: 0 <= i < |cs| && i !in Kept(cs) ==> cs[i] == []
  {
    if cs != [] {
      var init := cs[..|cs| - 1];
      NonEmptyIndices(init);
      assert forall i :: 0 <= i < |init| ==> init[i] == cs[i];
    }
  }

  lemma {:induction false} CorpusIsNonEmpty(lines: seq<string>)
    ensures Corpus(lines) == NonEmpty(Candidates(lines))
  {
    if lines != [] {
      var init, line := lines[..|lines| - 1], lines[|lines| - 1];
      assert lines == init + [line];
      CorpusIsNonEmpty(init);
      CorpusSnoc(lines, init, line);
      CandidatesSnoc(lines, init, line);
      NonEmptySnoc(Candidates(lines), Candidates(init), LineSentence(line));
    }
  }

  lemma CandidatesSnoc(lines: seq<string>, init: seq<string>, line: string)
    requires lines == init + [line]
    ensures Candidates(lines) == Candidates(init) + [LineSentence(line)]
  {
  }

  lemma NonEmptySnoc(cs: seq<Sentence>, init: seq<Sentence>, s: Sentence)
    requires cs == init + [s]
    ensures NonEmpty(cs) == if s == [] then NonEmpty(init) else NonEmpty(init) + [s]
  {
    assert cs[..|cs| - 1] == init;
  }

  /**
   * Sentence k of the corpus is the candidate sentence of line `Kept(..)[k]`; those
   * lines come in file order; every other line gives no pair.
   */
  lemma CorpusLines(lines: seq<string>)
    ensures var ks := Kept(Candidates(lines));
      |ks| == |Corpus(lines)|
      && (forall k :: 0 <= k < |ks| ==> ks[k] < |lines| && Corpus(lines)[k] == LineSentence(lines[ks[k]]))
      && (forall k, m :: 0 <= k < m < |ks| ==> ks[k] < ks[m])
      && (forall i :: 0 <= i < |lines| && i !in ks ==> LineSentence(lines[i]) == [])
  {
    CorpusIsNonEmpty(lines);
    NonEmptyIndices(Candidates(lines));
  }

  // ---------------------------------------------------------------------------
  // The raw format read back

  function Items(s: Sentence): seq<string> {
    seq(|s|, i requires 0 <= i < |s| => ItemOf(s[i]))
  }

  /** The corpus line that holds a sentence: its items separated by single spaces. */
  function RawLine(s: Sentence): string {
    Join(Items(s), ' ')
  }

  lemma ValidPairsSnoc(items: seq<string>, init: seq<string>, x: string, p: Pair)
    requires items == init + [x] && ParseItem(x) == Some(p)
    ensures ValidPairs(items) == ValidPairs(init) + [p]
  {
    assert items[..|items| - 1] == init;
  }

  lemma {:induction false} ValidPairsOfItems(s: Sentence)
    requires forall i :: 0 <= i < |s| ==> WellFormed(s[i])
    ensures ValidPairs(Items(s)) == s
  {
    if s != [] {
      var init, last := s[..|s| - 1], s[|s| - 1];
      assert init + [last] == s;
      assert WellFormed(last);
      ValidPairsOfItems(init);
      ParseItemRoundTrip(last);
      ItemsSnoc(s);
      ValidPairsSnoc(Items(s), Items(init), ItemOf(last), last);
    }
  }

  lemma ItemsSnoc(s: Sentence)
    requires s != []
    ensures Items(s) == Items(s[..|s| - 1]) + [ItemOf(s[|s| - 1])]
  {
  }

  lemma {:induction false} JoinFirst(parts: seq<string>, sep: char)
    requires |parts| >= 1 && parts[0] != []
    ensures Join(parts, sep) != [] && Join(parts, sep)[0] == parts[0][0]
  {
  }

  lemma {:induction false} JoinLast(parts: seq<string>, sep: char)
    requires |parts| >= 1 && parts[|parts| - 1] != []
    ensures var j := Join(parts, sep); j != [] && j[|j| - 1] == parts[|parts| - 1][|parts[|parts| - 1]| - 1]
  {
    if |parts| > 1 {
      var init := parts[..|parts| - 1];
      JoinSnoc(init, parts[|parts| - 1], sep);
      assert init + [parts[|parts| - 1]] == parts;
    }
  }

  /** A well-formed sentence written as a corpus line is read back as itself. */
  lemma LineSentenceOfRawLine(s: Sentence)
    requires WellFormedSentence(s)
    ensures LineSentence(RawLine(s)) == s
  {
    var items := Items(s);
    assert forall i :: 0 <= i < |items| ==> items[i] != [] && NoSpace(items[i]) by {
      forall i | 0 <= i < |items|
        ensures items[i] != [] && NoSpace(items[i])
      {
        var p := s[i];
        assert forall j :: 0 <= j < |ItemOf(p)| ==>
          ItemOf(p)[j] == (if j < |p.token| then p.token[j] else if j == |p.token| then '/' else p.tag[j - |p.token| - 1]);
      }
    }
    JoinFirst(items, ' ');
    JoinLast(items, ' ');
    StripKeeps(RawLine(s));
    WordsOfJoin(items);
    ValidPairsOfItems(s);
  }

  function RawLines(c: seq<Sentence>): seq<string> {
    seq(|c|, k requires 0 <= k < |c| => RawLine(c[k]))
  }

  /**
   * Round trip of the reader: a corpus of non-empty well-formed sentences, written one
   * sentence per line, is read back unchanged.
   */
  lemma {:induction false} ReadRawLines(c: seq<Sentence>)
    requires forall k :: 0 <= k < |c| ==> WellFormedSentence(c[k])
    ensures Corpus(RawLines(c)) == c
  {
    if c != [] {
      var init, last := c[..|c| - 1], c[|c| - 1];
      assert c == init + [last];
      assert WellFormedSentence(last);
      assert forall k :: 0 <= k < |init| ==> init[k] == c[k];
      ReadRawLines(init);
      LineSentenceOfRawLine(last);
      ReadRawLinesStep(c, init, last);
    }
  }

  lemma ReadRawLinesStep(c: seq<Sentence>, init: seq<Sentence>, last: Sentence)
    requires c == init + [last] && last != []
    requires Corpus(RawLines(init)) == init && LineSentence(RawLine(last)) == last
    ensures Corpus(RawLines(c)) == c
  {
    RawLinesSnoc(c, init, last);
    CorpusSnoc(RawLines(c), RawLines(init), RawLine(last));
  }

  lemma RawLinesSnoc(c: seq<Sentence>, init: seq<Sentence>, s: Sentence)
    requires c == init + [s]
    ensures RawLines(c) == RawLines(init) + [RawLine(s)]
  {
  }

  // ---------------------------------------------------------------------------
  // write_conllu

  /** The ten CoNLL-U columns of token i: ID, FORM, LEMMA, UPOS, XPOS, FEATS, HEAD, DEPREL, DEPS, MISC. */
  function TokenColumns(i: nat, p: Pair): seq<string> {
    [NatToString(i), p.token, "_", p.tag, "_", "_", "_", "_", "_", "_"]
  }

  function TokenLine(i: nat, p: Pair): string {
    Join(TokenColumns(i, p), '\t')
  }

  function SentIdLine(k: nat): string {
    "# sent_id = " + NatToString(k)
  }

  /** The token lines of a sentence, numbered from 1. */
  function TokenLines(s: Sentence): seq<string> {
    if s == [] then [] else TokenLines(s[..|s| - 1]) + [TokenLine(|s|, s[|s| - 1])]
  }

  /** The block of sentence k: its comment line, its token lines and a blank separator. */
  function Block(k: nat, s: Sentence): seq<string> {
    [SentIdLine(k)] + TokenLines(s) + [""]
  }

  /** The list `lines` of `write_conllu`. */
  function ConlluLines(c: seq<Sentence>): seq<string> {
    if c == [] then [] else ConlluLines(c[..|c| - 1]) + Block(|c|, c[|c| - 1])
  }

  /** `write_conllu`: the list of lines and the text written to the file. */
  method WriteConllu(sentences: seq<Sentence>) returns (lines: seq<string>, text: string)
    ensures lines == ConlluLines(sentences)
    ensures |lines| == TotalPairs(sentences) + 2 * |sentences|
    ensures text == Join(lines, '\n') + "\n"
  {
    lines := [];
    for sid := 0 to |sentences|
      invariant lines == ConlluLines(sentences[..sid])
    {
      var sent := sentences[sid];
      ghost var done := ConlluLines(sentences[..sid]);
      lines := lines + [SentIdLine(sid + 1)];
      for i := 0 to |sent|
        invariant lines == done + [SentIdLine(sid + 1)] + TokenLines(sent[..i])
      {
        TokenLinesSnoc(sent, i);
        lines := lines + [Join(TokenColumns(i + 1, sent[i]), '\t')];
      }
      assert sent[..|sent|] == sent;
      ConlluLinesSnoc(sentences, sid);
      lines := lines + [""];
    }
    assert sentences[..|sentences|] == sentences;
    ConlluLineCount(sentences);
    text := Join(lines, '\n') + "\n";
  }

  lemma TokenLinesSnoc(s: Sentence, i: nat)
    requires i < |s|
    ensures TokenLines(s[..i + 1]) == TokenLines(s[..i]) + [TokenLine(i + 1, s[i])]
  {
    assert s[..i + 1][..i] == s[..i];
  }

  lemma ConlluLinesSnoc(c: seq<Sentence>, k: nat)
    requires k < |c|
    ensures ConlluLines(c[..k + 1]) == ConlluLines(c[..k]) + [SentIdLine(k + 1)] + TokenLines(c[k]) + [""]
  {
    assert c[..k + 1][..k] == c[..k];
  }

  lemma {:induction false} TokenLinesAt(s: Sentence)
    ensures |TokenLines(s)| == |s|
    ensures forall i :: 0 <= i < |s| ==> TokenLines(s)[i] == TokenLine(i + 1, s[i])
  {
    if s != [] {
      TokenLinesAt(s[..|s| - 1]);
    }
  }

  /** The CoNLL-U text has |sentence| + 2 lines per sentence. */
  lemma {:induction false} ConlluLineCount(c: seq<Sentence>)
    ensures |ConlluLines(c)| == TotalPairs(c) + 2 * |c|
  {
    if c != [] {
      ConlluLineCount(c[..|c| - 1]);
      TokenLinesAt(c[|c| - 1]);
    }
  }

  lemma {:induction false} ConlluPrefix(c: seq<Sentence>, k: nat)
    requires k <= |c|
    ensures ConlluLines(c[..k]) <= ConlluLines(c)
  {
    if k < |c| {
      ConlluPrefix(c[..|c| - 1], k);
      assert c[..|c| - 1][..k] == c[..k];
    } else {
      assert c[..k] == c;
    }
  }

  /**
   * The block of sentence k (0-based) starts after the blocks before it: the line
   * `# sent_id = k+1`, then token i+1 of the sentence on its own line, then a blank line.
   */
  lemma ConlluBlockAt(c: seq<Sentence>, k: nat)
    requires k < |c|
    ensures var off := TotalPairs(c[..k]) + 2 * k;
      off + |c[k]| + 1 < |ConlluLines(c)|
      && ConlluLines(c)[off] == SentIdLine(k + 1)
      && (forall i :: 0 <= i < |c[k]| ==> ConlluLines(c)[off + 1 + i] == TokenLine(i + 1, c[k][i]))
      && ConlluLines(c)[off + |c[k]| + 1] == ""
  {
    var off := TotalPairs(c[..k]) + 2 * k;
    var all := ConlluLines(c);
    var before := ConlluLines(c[..k]);
    ConlluPrefix(c, k + 1);
    ConlluLinesSnoc(c, k);
    ConlluLineCount(c[..k]);
    TokenLinesAt(c[k]);
    BlockAt(all, before, SentIdLine(k + 1), TokenLines(c[k]), c[k], off);
  }

  /** Where a prefix of `all` is `before + [first] + mid + [""]` and `mid` holds the token lines of `s`, the pieces sit at their offsets. */
  lemma BlockAt(all: seq<string>, before: seq<string>, first: string, mid: seq<string>, s: Sentence, off: nat)
    requires before + [first] + mid + [""] <= all
    requires |before| == off && |mid| == |s|
    requires forall i :: 0 <= i < |s| ==> mid[i] == TokenLine(i + 1, s[i])
    ensures off + |s| + 1 < |all|
      && all[off] == first
      && (forall i :: 0 <= i < |s| ==> all[off + 1 + i] == TokenLine(i + 1, s[i]))
      && all[off + |s| + 1] == ""
  {
    var pre := before + [first] + mid + [""];
    assert pre[|before|] == first && pre[|before| + |mid| + 1] == "";
    forall i | 0 <= i < |s|
      ensures all[off + 1 + i] == TokenLine(i + 1, s[i])
    {
      assert pre[|before| + 1 + i] == mid[i];
    }
  }

  /**
   * A token line has exactly ten tab-separated fields: its ID reads back as i, FORM is
   * the token, UPOS the tag, and every other field is `_`.
   */
  lemma TokenLineFields(i: nat, p: Pair)
    requires '\t' !in p.token && '\t' !in p.tag
    ensures var cols := Split(TokenLine(i, p), '\t');
      |cols| == 10 && AllDigits(cols[0]) && DigitsValue(cols[0]) == i
      && cols[1] == p.token && cols[3] == p.tag
      && cols[2] == cols[4] == cols[5] == cols[6] == cols[7] == cols[8] == cols[9] == "_"
  {
    var cols := TokenColumns(i, p);
    assert forall j :: 0 <= j < |NatToString(i)| ==> IsDigit(NatToString(i)[j]);
    SplitJoin(cols, '\t');
    NatToStringRoundTrip(i);
  }

  /** No line of the CoNLL-U text holds a newline. */
  lemma {:induction false} ConlluNoNewline(c: seq<Sentence>)
    requires forall k :: 0 <= k < |c| ==> WellFormedSentence(c[k])
    ensures forall r :: 0 <= r < |ConlluLines(c)| ==> '\n' !in ConlluLines(c)[r]
  {
    if c != [] {
      var s := c[|c| - 1];
      ConlluNoNewline(c[..|c| - 1]);
      TokenLinesAt(s);
      forall i | 0 <= i < |s|
        ensures '\n' !in TokenLine(i + 1, s[i])
      {
        JoinWithout(TokenColumns(i + 1, s[i]), '\t', '\n');
      }
      assert '\n' !in SentIdLine(|c|);
    }
  }

  /** Read back line by line, the CoNLL-U file of a non-empty corpus is its list of lines. */
  lemma ConlluReadBack(c: seq<Sentence>)
    requires c != []
    requires forall k :: 0 <= k < |c| ==> WellFormedSentence(c[k])
    ensures FileLines(Join(ConlluLines(c), '\n') + "\n") == ConlluLines(c)
  {
    ConlluNoNewline(c);
    ConlluLineCount(c);
    FileLinesOfWritten(ConlluLines(c));
  }

  // ---------------------------------------------------------------------------
  // write_tsv

  const TsvHeader := "sent_id\ttoken_id\tform\tupos"

  function TsvRow(sid: nat, tid: nat, p: Pair): string {
    Join([NatToString(sid), NatToString(tid), p.token, p.tag], '\t')
  }

  /** The rows of sentence sid, token ids from 1. */
  function SentenceRows(sid: nat, s: Sentence): seq<string> {
    if s == [] then [] else SentenceRows(sid, s[..|s| - 1]) + [TsvRow(sid, |s|, s[|s| - 1])]
  }

  /** The rows after the header, sentence ids from 1. */
  function TsvRows(c: seq<Sentence>): seq<string> {
    if c == [] then [] else TsvRows(c[..|c| - 1]) + SentenceRows(|c|, c[|c| - 1])
  }

  /** The text of a file written line by line, each line followed by `\n`. */
  function Unlines(rows: seq<string>): string {
    if rows == [] then "" else Unlines(rows[..|rows| - 1]) + rows[|rows| - 1] + "\n"
  }

  /** `write_tsv`: the text written to the file. */
  method WriteTsv(sentences: seq<Sentence>) returns (text: string)
    ensures text == Unlines([TsvHeader] + TsvRows(sentences))
    ensures (forall k :: 0 <= k < |sentences| ==> WellFormedSentence(sentences[k])) ==>
      FileLines(text) == [TsvHeader] + TsvRows(sentences)
  {
    text := TsvHeader + "\n";
    UnlinesSnoc([], TsvHeader);
    for sid := 0 to |sentences|
      invariant text == Unlines([TsvHeader] + TsvRows(sentences[..sid]))
    {
      var sent := sentences[sid];
      ghost var done := [TsvHeader] + TsvRows(sentences[..sid]);
      SentenceRowsEmpty(done, sid + 1, sent);
      for tid := 0 to |sent|
        invariant text == Unlines(done + SentenceRows(sid + 1, sent[..tid]))
      {
        TsvStep(text, done, sid + 1, sent, tid);
        text := text + TsvRow(sid + 1, tid + 1, sent[tid]) + "\n";
      }
      TsvSentenceDone(text, sentences, sid, done);
    }
    assert sentences[..|sentences|] == sentences;
    if forall k :: 0 <= k < |sentences| ==> WellFormedSentence(sentences[k]) {
      TsvReadBack(sentences);
    }
  }

  lemma SentenceRowsEmpty(done: seq<string>, sid: nat, s: Sentence)
    ensures done + SentenceRows(sid, s[..0]) == done
  {
    assert s[..0] == [];
  }

  lemma TsvStep(text: string, done: seq<string>, sid: nat, s: Sentence, tid: nat)
    requires tid < |s|
    requires text == Unlines(done + SentenceRows(sid, s[..tid]))
    ensures text + TsvRow(sid, tid + 1, s[tid]) + "\n" == Unlines(done + SentenceRows(sid, s[..tid + 1]))
  {
    SentenceRowsSnoc(sid, s, tid);
    UnlinesSnoc(done + SentenceRows(sid, s[..tid]), TsvRow(sid, tid + 1, s[tid]));
    assert done + SentenceRows(sid, s[..tid]) + [TsvRow(sid, tid + 1, s[tid])] == done + SentenceRows(sid, s[..tid + 1]);
  }

  lemma TsvSentenceDone(text: string, c: seq<Sentence>, sid: nat, done: seq<string>)
    requires sid < |c|
    requires done == [TsvHeader] + TsvRows(c[..sid])
    requires text == Unlines(done + SentenceRows(sid + 1, c[sid][..|c[sid]|]))
    ensures text == Unlines([TsvHeader] + TsvRows(c[..sid + 1]))
  {
    assert c[sid][..|c[sid]|] == c[sid];
    TsvRowsSnoc(c, sid);
    assert done + SentenceRows(sid + 1, c[sid]) == [TsvHeader] + TsvRows(c[..sid + 1]);
  }

  lemma UnlinesSnoc(rows: seq<string>, r: string)
    ensures Unlines(rows + [r]) == Unlines(rows) + r + "\n"
  {
    assert (rows + [r])[..|rows|] == rows;
  }

  lemma SentenceRowsSnoc(sid: nat, s: Sentence, i: nat)
    requires i < |s|
    ensures SentenceRows(sid, s[..i + 1]) == SentenceRows(sid, s[..i]) + [TsvRow(sid, i + 1, s[i])]
  {
    assert s[..i + 1][..i] == s[..i];
  }

  lemma TsvRowsSnoc(c: seq<Sentence>, k: nat)
    requires k < |c|
    ensures TsvRows(c[..k + 1]) == TsvRows(c[..k]) + SentenceRows(k + 1, c[k])
  {
    assert c[..k + 1][..k] == c[..k];
  }

  lemma {:induction false} SentenceRowsAt(sid: nat, s: Sentence)
    ensures |SentenceRows(sid, s)| == |s|
    ensures forall i :: 0 <= i < |s| ==> SentenceRows(sid, s)[i] == TsvRow(sid, i + 1, s[i])
  {
    if s != [] {
      SentenceRowsAt(sid, s[..|s| - 1]);
    }
  }

  /** There is exactly one TSV row per pair. */
  lemma {:induction false} TsvRowCount(c: seq<Sentence>)
    ensures |TsvRows(c)| == TotalPairs(c)
  {
    if c != [] {
      TsvRowCount(c[..|c| - 1]);
      SentenceRowsAt(|c|, c[|c| - 1]);
    }
  }

  lemma {:induction false} TsvPrefix(c: seq<Sentence>, k: nat)
    requires k <= |c|
    ensures TsvRows(c[..k]) <= TsvRows(c)
  {
    if k < |c| {
      TsvPrefix(c[..|c| - 1], k);
      assert c[..|c| - 1][..k] == c[..k];
    } else {
      assert c[..k] == c;
    }
  }

  /**
   * Rows come in corpus order: token i (0-based) of sentence k (0-based) is row
   * (number of pairs before sentence k) + i, carrying ids k+1 and i+1.
   */
  lemma TsvRowAt(c: seq<Sentence>, k: nat, i: nat)
    requires k < |c| && i < |c[k]|
    ensures TotalPairs(c[..k]) + i < |TsvRows(c)|
    ensures TsvRows(c)[TotalPairs(c[..k]) + i] == TsvRow(k + 1, i + 1, c[k][i])
  {
    TsvPrefix(c, k + 1);
    var pre := c[..k + 1];
    assert pre[..k] == c[..k] && pre[k] == c[k];
    TsvRowCount(c[..k]);
    SentenceRowsAt(k + 1, c[k]);
    assert TsvRows(pre) == TsvRows(c[..k]) + SentenceRows(k + 1, c[k]);
  }

  /** A TSV row has four tab-separated fields: the two ids, the token and the tag. */
  lemma TsvRowFields(sid: nat, tid: nat, p: Pair)
    requires '\t' !in p.token && '\t' !in p.tag
    ensures var cols := Split(TsvRow(sid, tid, p), '\t');
      |cols| == 4 && AllDigits(cols[0]) && AllDigits(cols[1])
      && DigitsValue(cols[0]) == sid && DigitsValue(cols[1]) == tid
      && cols[2] == p.token && cols[3] == p.tag
  {
    var cols := [NatToString(sid), NatToString(tid), p.token, p.tag];
    assert forall j :: 0 <= j < |NatToString(sid)| ==> IsDigit(NatToString(sid)[j]);
    assert forall j :: 0 <= j < |NatToString(tid)| ==> IsDigit(NatToString(tid)[j]);
    SplitJoin(cols, '\t');
    NatToStringRoundTrip(sid);
    NatToStringRoundTrip(tid);
  }

  lemma {:induction false} UnlinesJoin(rows: seq<string>)
    requires |rows| >= 1
    ensures Unlines(rows) == Join(rows, '\n') + "\n"
  {
    if |rows| > 1 {
      var init := rows[..|rows| - 1];
      UnlinesJoin(init);
      JoinSnoc(init, rows[|rows| - 1], '\n');
      assert init + [rows[|rows| - 1]] == rows;
    } else {
      assert rows[..0] == [];
    }
  }

  lemma {:induction false} TsvRowsNoNewline(c: seq<Sentence>)
    requires forall k :: 0 <= k < |c| ==> WellFormedSentence(c[k])
    ensures forall r :: 0 <= r < |TsvRows(c)| ==> '\n' !in TsvRows(c)[r]
  {
    if c != [] {
      var init := c[..|c| - 1];
      TsvRowsNoNewline(init);
      var s := c[|c| - 1];
      SentenceRowsAt(|c|, s);
      forall i | 0 <= i < |s|
        ensures '\n' !in TsvRow(|c|, i + 1, s[i])
      {
        JoinWithout([NatToString(|c|), NatToString(i + 1), s[i].token, s[i].tag], '\t', '\n');
      }
    }
  }

  /** A file written line by line is read back as the same lines. */
  lemma UnlinesReadBack(rows: seq<string>)
    requires |rows| >= 1
    requires forall r :: 0 <= r < |rows| ==> '\n' !in rows[r]
    ensures FileLines(Unlines(rows)) == rows
  {
    UnlinesJoin(rows);
    FileLinesOfWritten(rows);
  }

  lemma HeaderThenRows(header: string, rows: seq<string>)
    requires '\n' !in header
    requires forall r :: 0 <= r < |rows| ==> '\n' !in rows[r]
    ensures FileLines(Unlines([header] + rows)) == [header] + rows
  {
    var all := [header] + rows;
    assert forall r :: 0 <= r < |all| ==> '\n' !in all[r] by {
      forall r | 0 <= r < |all| ensures '\n' !in all[r] {
        if r > 0 { assert all[r] == rows[r - 1]; }
      }
    }
    UnlinesReadBack(all);
  }

  lemma TsvRowsReadBack(c: seq<Sentence>)
    requires forall r :: 0 <= r < |TsvRows(c)| ==> '\n' !in TsvRows(c)[r]
    ensures FileLines(Unlines([TsvHeader] + TsvRows(c))) == [TsvHeader] + TsvRows(c)
  {
    assert '\n' !in TsvHeader;
    HeaderThenRows(TsvHeader, TsvRows(c));
  }

  /** Read back line by line, the TSV file is the header followed by the rows. */
  lemma TsvReadBack(c: seq<Sentence>)
    requires forall k :: 0 <= k < |c| ==> WellFormedSentence(c[k])
    ensures FileLines(Unlines([TsvHeader] + TsvRows(c))) == [TsvHeader] + TsvRows(c)
  {
    TsvRowsNoNewline(c);
    TsvRowsReadBack(c);
  }

  // ---------------------------------------------------------------------------
  // write_jsonl

  /** The fields of one JSON record: `sent_id`, `tokens`, `upos`. */
  datatype Record = Record(sentId: nat, tokens: seq<string>, upos: seq<string>)

  function Tokens(s: Sentence): seq<string> {
    seq(|s|, i requires 0 <= i < |s| => s[i].token)
  }

  function Tags(s: Sentence): seq<string> {
    seq(|s|, i requires 0 <= i < |s| => s[i].tag)
  }

  /** Python's `zip(tokens, upos)`, stopping at the shorter list. */
  function Zip(tokens: seq<string>, upos: seq<string>): Sentence {
    var n := if |tokens| <= |upos| then |tokens| else |upos|;
    seq(n, i requires 0 <= i < n => Pair(tokens[i], upos[i]))
  }

  /** The corpus as reconstructed from the records by zipping `tokens` with `upos`. */
  function Decode(records: seq<Record>): seq<Sentence> {
    seq(|records|, k requires 0 <= k < |records| => Zip(records[k].tokens, records[k].upos))
  }

  /** `write_jsonl`: one record per sentence, in order. */
  method WriteJsonl(sentences: seq<Sentence>) returns (records: seq<Record>)
    ensures |records| == |sentences|
    ensures forall k :: 0 <= k < |records| ==>
      records[k].sentId == k + 1
      && |records[k].tokens| == |records[k].upos| == |sentences[k]|
      && (forall i :: 0 <= i < |sentences[k]| ==>
            records[k].tokens[i] == sentences[k][i].token && records[k].upos[i] == sentences[k][i].tag)
    ensures Decode(records) == sentences
  {
    records := [];
    for sid := 0 to |sentences|
      invariant |records| == sid
      invariant forall k :: 0 <= k < sid ==> records[k] == Record(k + 1, Tokens(sentences[k]), Tags(sentences[k]))
    {
      var sent := sentences[sid];
      records := records + [Record(sid + 1, Tokens(sent), Tags(sent))];
    }
    forall k | 0 <= k < |records|
      ensures Decode(records)[k] == sentences[k]
    {
      var s := sentences[k];
      assert Zip(Tokens(s), Tags(s)) == s;
    }
  }
}
