/**
 * The counting part of Data-Statistics.py.
 *
 * The script reads the raw corpus line by line, splits every non-blank line into items and
 * counts the items whose token and tag, as `parse_token_tag` reads them, are both non-empty:
 * per tag, per token, per tag and token, their characters and the tokens holding `+`. It then
 * sorts the tags by descending count and, for every tag, sets the number of distinct tokens
 * against the tag's count (the type-token ratio).
 */
module Statistics {
  import opened Wrappers
  import opened Text
  import opened Counters
  import Converter

  type Pair = Converter.Pair

  // ---------------------------------------------------------------------------
  // parse_token_tag

  /**
   * Splits an item at its last `/` and strips both halves; `None` stands for the script's
   * `(None, None)`, for an item without `/`.
   */
  function ParseTokenTag(item: string): (r: Option<Pair>)
    ensures r.None? <==> '/' !in item
    ensures r.Some? ==> '/' !in r.value.tag
    ensures r.Some? && NoSpace(item) ==> item == r.value.token + "/" + r.value.tag
  {
    if '/' !in item then None
    else
      var k := LastIndexOf(item, '/');
      var before, after := item[..k], item[k + 1..];
      assert item == before + "/" + after;
      StripWithout(after, '/');
      assert NoSpace(item) ==> Strip(before) == before && Strip(after) == after by {
        if NoSpace(item) {
          StripHalves(item, k);
        }
      }
      Some(Converter.Pair(Strip(before), Strip(after)))
  }

  /** Stripping either side of a cut through an item without whitespace changes nothing. */
  lemma StripHalves(item: string, k: nat)
    requires NoSpace(item) && k < |item|
    ensures Strip(item[..k]) == item[..k] && Strip(item[k + 1..]) == item[k + 1..]
  {
    var before, after := item[..k], item[k + 1..];
    assert forall i :: 0 <= i < |before| ==> before[i] == item[i];
    assert forall i :: 0 <= i < |after| ==> after[i] == item[k + 1 + i];
    StripNoSpace(before);
    StripNoSpace(after);
  }

  /** The caller's test `if tok and tg`: both halves are present and non-empty. */
  predicate Accepted(r: Option<Pair>) {
    r.Some? && r.value.token != [] && r.value.tag != []
  }

  /**
   * On an item of `line.split()`, which holds no whitespace, the two parsers agree: the
   * statistics count an item exactly when the converter keeps it, as the same pair.
   */
  lemma ParseAgreement(item: string)
    requires NoSpace(item)
    ensures Accepted(ParseTokenTag(item)) <==> Converter.ParseItem(item).Some?
    ensures Accepted(ParseTokenTag(item)) ==> ParseTokenTag(item) == Converter.ParseItem(item)
  {
    if '/' in item {
      var r := ParseTokenTag(item).value;
      var k := LastIndexOf(item, '/');
      assert item[..k] == r.token && item[k + 1..] == r.tag by {
        LastIndexOfUnique(item, '/', |r.token|);
        assert item[..|r.token|] == r.token && item[|r.token| + 1..] == r.tag;
      }
    }
  }

  // ---------------------------------------------------------------------------
  // What the counting loop sees

  /** The accepted pairs of a list of items, in order. */
  function AcceptedPairs(items: seq<string>): (ps: seq<Pair>)
    ensures |ps| <= |items|
    ensures forall i :: 0 <= i < |ps| ==> ps[i].token != [] && ps[i].tag != []
  {
    if items == [] then []
    else
      var ps := AcceptedPairs(items[..|items| - 1]);
      var r := ParseTokenTag(items[|items| - 1]);
      if Accepted(r) then
        var q := ps + [r.value];
        assert q[|ps|] == r.value;
        q
      else ps
  }

  /** The accepted pairs of one input line; a blank line has none. */
  function LinePairs(line: string): seq<Pair> {
    var stripped := Strip(line);
    if stripped == [] then [] else AcceptedPairs(Words(stripped))
  }

  /** The accepted pairs of the whole file, line after line. */
  function ValidItems(lines: seq<string>): seq<Pair> {
    if lines == [] then [] else ValidItems(lines[..|lines| - 1]) + LinePairs(lines[|lines| - 1])
  }

  /** The entry of `sentence_lengths` for one line: none for a blank line, else its item count. */
  function LineLength(line: string): (ls: seq<nat>)
    ensures |ls| <= 1 && forall i :: 0 <= i < |ls| ==> ls[i] >= 1
  {
    var stripped := Strip(line);
    if stripped == [] then [] else [|Words(stripped)|]
  }

  /**
   * `sentence_lengths`: for every non-blank line the number of its items, malformed items
   * included; every entry is at least one.
   */
  function RawLengths(lines: seq<string>): (ls: seq<nat>)
    ensures |ls| <= |lines|
    ensures forall i :: 0 <= i < |ls| ==> ls[i] >= 1
  {
    if lines == [] then [] else RawLengths(lines[..|lines| - 1]) + LineLength(lines[|lines| - 1])
  }

  /** The entry lists of the lines, one per line. */
  function LineEntries(lines: seq<string>): seq<seq<nat>> {
    seq(|lines|, i requires 0 <= i < |lines| => LineLength(lines[i]))
  }

  /** The entries of a list of entry lists, one list after another. */
  function Concat(es: seq<seq<nat>>): seq<nat> {
    if es == [] then [] else Concat(es[..|es| - 1]) + es[|es| - 1]
  }

  /** The indices of the non-empty entry lists, in order. */
  function Present(es: seq<seq<nat>>): seq<nat> {
    if es == [] then []
    else
      var ks := Present(es[..|es| - 1]);
      if es[|es| - 1] == [] then ks else ks + [|es| - 1]
  }

  /** The indices of the non-blank lines, in file order. */
  function NonBlank(lines: seq<string>): seq<nat> {
    Present(LineEntries(lines))
  }

  /** A non-blank line adds one entry, its item count, which is no less than its number of accepted pairs. */
  lemma LineLengthIsItemCount(line: string)
    requires Strip(line) != []
    ensures LineLength(line) == [|Words(Strip(line))|]
    ensures |LinePairs(line)| <= LineLength(line)[0]
  {
  }

  /**
   * When every list holds at most one entry, entry m of the concatenation is the entry of
   * the m-th non-empty list, and every non-empty list is counted.
   */
  lemma {:induction false} ConcatIndices(es: seq<seq<nat>>)
    requires forall i :: 0 <= i < |es| ==> |es[i]| <= 1
    ensures |Concat(es)| == |Present(es)|
    ensures forall m :: 0 <= m < |Present(es)| ==> Present(es)[m] < |es| && es[Present(es)[m]] == [Concat(es)[m]]
    ensures forall m, m' :: 0 <= m < m' < |Present(es)| ==> Present(es)[m] < Present(es)[m']
    ensures forall i :: 0 <= i < |es| && es[i] != [] ==> i in Present(es)
  {
    if es != [] {
      var init, last := es[..|es| - 1], es[|es| - 1];
      assert es == init + [last];
      assert forall i :: 0 <= i < |init| ==> init[i] == es[i];
      ConcatIndices(init);
      var ks, cs := Present(init), Concat(init);
      assert Present(es) == (if last == [] then ks else ks + [|init|]);
      assert Concat(es) == cs + last;
      ConcatIndicesStep(es, init, last, ks, cs);
    }
  }

  /** The step of `ConcatIndices`: one more list, holding at most one entry. */
  lemma ConcatIndicesStep(es: seq<seq<nat>>, init: seq<seq<nat>>, last: seq<nat>, ks: seq<nat>, cs: seq<nat>)
    requires es == init + [last] && |last| <= 1
    requires |cs| == |ks|
    requires forall m :: 0 <= m < |ks| ==> ks[m] < |init| && init[ks[m]] == [cs[m]]
    requires forall m, m' :: 0 <= m < m' < |ks| ==> ks[m] < ks[m']
    requires forall i :: 0 <= i < |init| && init[i] != [] ==> i in ks
    ensures var ks', cs' := (if last == [] then ks else ks + [|init|]), cs + last;
      |cs'| == |ks'|
      && (forall m :: 0 <= m < |ks'| ==> ks'[m] < |es| && es[ks'[m]] == [cs'[m]])
      && (forall m, m' :: 0 <= m < m' < |ks'| ==> ks'[m] < ks'[m'])
      && (forall i :: 0 <= i < |es| && es[i] != [] ==> i in ks')
  {
    assert forall i :: 0 <= i < |init| ==> es[i] == init[i];
    if last == [] {
      assert cs + last == cs;
    } else {
      assert last == [last[0]];
      var ks', cs' := ks + [|init|], cs + last;
      forall m | 0 <= m < |ks'| ensures ks'[m] < |es| && es[ks'[m]] == [cs'[m]] {
        if m < |ks| {
          assert ks'[m] == ks[m] && cs'[m] == cs[m];
        }
      }
      forall m, m' | 0 <= m < m' < |ks'| ensures ks'[m] < ks'[m'] {
        if m' < |ks| {
          assert ks'[m] == ks[m] && ks'[m'] == ks[m'];
        }
      }
    }
  }


  lemma {:induction false} RawLengthsConcat(lines: seq<string>)
    ensures RawLengths(lines) == Concat(LineEntries(lines))
  {
    if lines != [] {
      var init, last := lines[..|lines| - 1], lines[|lines| - 1];
      assert LineEntries(lines) == LineEntries(init) + [LineLength(last)];
      assert LineEntries(lines)[..|lines| - 1] == LineEntries(init);
      RawLengthsConcat(init);
    }
  }

  /**
   * `sentence_lengths` has one entry for every non-blank line, in file order: entry m is
   * the entry `LineLength` gives the m-th non-blank line.
   */
  lemma RawLengthsAt(lines: seq<string>)
    ensures |RawLengths(lines)| == |NonBlank(lines)|
    ensures forall m :: 0 <= m < |NonBlank(lines)| ==>
      NonBlank(lines)[m] < |lines| && LineLength(lines[NonBlank(lines)[m]]) == [RawLengths(lines)[m]]
    ensures forall m, m' :: 0 <= m < m' < |NonBlank(lines)| ==> NonBlank(lines)[m] < NonBlank(lines)[m']
    ensures forall i :: 0 <= i < |lines| && LineLength(lines[i]) != [] ==> i in NonBlank(lines)
  {
    var es := LineEntries(lines);
    assert forall i :: 0 <= i < |lines| ==> es[i] == LineLength(lines[i]);
    RawLengthsConcat(lines);
    ConcatIndices(es);
  }

  /** Entry m of `sentence_lengths` is the item count of the m-th non-blank line. */
  lemma RawLengthAt(lines: seq<string>, m: nat)
    requires m < |NonBlank(lines)|
    ensures var i := NonBlank(lines)[m];
      |RawLengths(lines)| == |NonBlank(lines)| && i < |lines|
      && Strip(lines[i]) != [] && RawLengths(lines)[m] == |Words(Strip(lines[i]))|
  {
    RawLengthsAt(lines);
  }

  /** Every non-blank line has its entry in `sentence_lengths`. */
  lemma NonBlankListed(lines: seq<string>, i: nat)
    requires i < |lines| && Strip(lines[i]) != []
    ensures i in NonBlank(lines)
  {
    RawLengthsAt(lines);
    assert LineLength(lines[i]) != [];
  }

  /**
   * A non-blank line none of whose items is accepted still adds its item count to
   * `sentence_lengths`, although it adds no pair and `read_sentences` drops it.
   */
  lemma MalformedLineCounted(lines: seq<string>, line: string)
    requires Strip(line) != [] && LinePairs(line) == []
    ensures RawLengths(lines + [line]) == RawLengths(lines) + [|Words(Strip(line))|]
    ensures ValidItems(lines + [line]) == ValidItems(lines)
    ensures Converter.Corpus(lines + [line]) == Converter.Corpus(lines)
  {
    assert (lines + [line])[..|lines|] == lines;
    LineAgree(line);
    Converter.CorpusSnoc(lines + [line], lines, line);
  }

  /** Such lines exist: the item `a/` has an empty tag. */
  lemma MalformedLineExists()
    ensures Strip("a/") != [] && LinePairs("a/") == []
  {
    var x := "a/";
    assert NoSpace(x);
    StripNoSpace(x);
    assert Join([x], ' ') == x;
    WordsOfJoin([x]);
    var r := ParseTokenTag(x);
    assert |r.value.token| + 1 + |r.value.tag| == 2 && x[|r.value.token|] == '/';
    var items: seq<string> := [x];
    assert items[..0] == [];
  }

  /** Every sentence `read_sentences` keeps has its entry in `sentence_lengths`. */
  lemma {:induction false} LengthsCoverCorpus(lines: seq<string>)
    ensures |RawLengths(lines)| >= |Converter.Corpus(lines)|
  {
    if lines != [] {
      var init, last := lines[..|lines| - 1], lines[|lines| - 1];
      assert lines == init + [last];
      LengthsCoverCorpus(init);
      assert RawLengths(lines) == RawLengths(init) + LineLength(last);
      Converter.CorpusSnoc(lines, init, last);
      LineAgree(last);
      if Converter.LineSentence(last) != [] {
        assert LinePairs(last) != [];
        assert |LineLength(last)| == 1;
      }
    }
  }

  // ---------------------------------------------------------------------------
  // The counters

  /** The five accumulators the loop updates for every accepted pair. */
  datatype Tally = Tally(
    tagCounts: Counter,
    tokenCounts: Counter,
    tagTokenMap: Nested,
    totalChars: nat,
    plusSignTokens: nat)

  /** The updates the loop makes for one accepted pair. */
  function Step(t: Tally, p: Pair): Tally {
    Tally(
      Inc(t.tagCounts, p.tag),
      Inc(t.tokenCounts, p.token),
      NestInc(t.tagTokenMap, p.tag, p.token),
      t.totalChars + |p.token|,
      t.plusSignTokens + if '+' in p.token then 1 else 0)
  }

  /** The accumulators after counting `ps`, starting from empty ones. */
  function Fold(ps: seq<Pair>): Tally {
    if ps == [] then Tally([], [], [], 0, 0) else Step(Fold(ps[..|ps| - 1]), ps[|ps| - 1])
  }

  /** The number of pairs whose token contains `+`. */
  function PlusCount(ps: seq<Pair>): (n: nat)
    ensures n <= |ps|
  {
    if ps == [] then 0 else PlusCount(ps[..|ps| - 1]) + if '+' in ps[|ps| - 1].token then 1 else 0
  }

  /** The summed lengths of the tokens of `ps`. */
  function TokenChars(ps: seq<Pair>): nat {
    if ps == [] then 0 else TokenChars(ps[..|ps| - 1]) + |ps[|ps| - 1].token|
  }

  /** What holds of the accumulators between any two pairs. */
  ghost predicate Consistent(t: Tally) {
    && DistinctKeys(t.tagCounts) && Positive(t.tagCounts)
    && DistinctKeys(t.tokenCounts) && Positive(t.tokenCounts)
    && (forall x :: HasOuter(t.tagTokenMap, x) <==> Has(t.tagCounts, x))
    && (forall x :: Sum(Inner(t.tagTokenMap, x)) == Get(t.tagCounts, x))
    && (forall x :: Positive(Inner(t.tagTokenMap, x)))
    && (forall x :: DistinctKeys(Inner(t.tagTokenMap, x)))
  }

  /** The per-tag table can be filled: every tag has between one and `count` distinct tokens. */
  ghost predicate TableReady(tagCounts: Counter, tagTokenMap: Nested) {
    && DistinctKeys(tagCounts)
    && forall x :: Has(tagCounts, x) ==> 1 <= |Inner(tagTokenMap, x)| <= Get(tagCounts, x)
  }

  lemma StepConsistent(t: Tally, p: Pair)
    requires Consistent(t)
    ensures Consistent(Step(t, p))
  {
    IncDistinct(t.tagCounts, p.tag);
    IncPositive(t.tagCounts, p.tag);
    IncKeys(t.tagCounts, p.tag);
    IncDistinct(t.tokenCounts, p.token);
    IncPositive(t.tokenCounts, p.token);
    NestIncKeys(t.tagTokenMap, p.tag, p.token);
    IncPositive(Inner(t.tagTokenMap, p.tag), p.token);
    IncDistinct(Inner(t.tagTokenMap, p.tag), p.token);
  }

  /** Between any two pairs the accumulators agree with each other. */
  lemma {:induction false} FoldConsistent(ps: seq<Pair>)
    ensures Consistent(Fold(ps))
  {
    if ps != [] {
      FoldConsistent(ps[..|ps| - 1]);
      StepConsistent(Fold(ps[..|ps| - 1]), ps[|ps| - 1]);
    }
  }

  /** `tag_counts[t]` is the number of pairs tagged `t`. */
  lemma {:induction false} FoldTagCounts(ps: seq<Pair>)
    ensures forall x :: Get(Fold(ps).tagCounts, x) == multiset(Converter.Tags(ps))[x]
  {
    if ps != [] {
      var init, p := ps[..|ps| - 1], ps[|ps| - 1];
      assert ps == init + [p];
      FoldTagCounts(init);
      assert Converter.Tags(ps) == Converter.Tags(init) + [p.tag];
    }
  }

  /** `token_counts[w]` is the number of pairs whose token is `w`. */
  lemma {:induction false} FoldTokenCounts(ps: seq<Pair>)
    ensures forall x :: Get(Fold(ps).tokenCounts, x) == multiset(Converter.Tokens(ps))[x]
  {
    if ps != [] {
      var init, p := ps[..|ps| - 1], ps[|ps| - 1];
      assert ps == init + [p];
      FoldTokenCounts(init);
      assert Converter.Tokens(ps) == Converter.Tokens(init) + [p.token];
    }
  }

  /** `tag_token_map[t][w]` is the number of pairs with token `w` and tag `t`. */
  lemma {:induction false} FoldTagTokenCounts(ps: seq<Pair>)
    ensures forall t, w :: Get(Inner(Fold(ps).tagTokenMap, t), w) == multiset(ps)[Converter.Pair(w, t)]
  {
    if ps != [] {
      var init, p := ps[..|ps| - 1], ps[|ps| - 1];
      assert ps == init + [p];
      FoldTagTokenCounts(init);
      assert multiset(ps) == multiset(init) + multiset{p};
    }
  }

  /** The distinct tokens seen with tag `t`. */
  ghost function TokensUnder(ps: seq<Pair>, t: string): set<string> {
    set i | 0 <= i < |ps| && ps[i].tag == t :: ps[i].token
  }

  /** `len(tag_token_map[t])` is the number of distinct tokens seen with tag `t`. */
  lemma FoldDistinctTokens(ps: seq<Pair>)
    ensures forall t :: |Inner(Fold(ps).tagTokenMap, t)| == |TokensUnder(ps, t)|
  {
    FoldConsistent(ps);
    FoldTagTokenCounts(ps);
    forall t ensures |Inner(Fold(ps).tagTokenMap, t)| == |TokensUnder(ps, t)| {
      var c := Inner(Fold(ps).tagTokenMap, t);
      forall w ensures w in Keys(c) <==> w in TokensUnder(ps, t) {
        if w in Keys(c) {
          var i :| 0 <= i < |c| && c[i].0 == w;
          assert Has(c, w);
          GetPositive(c, w);
          assert Converter.Pair(w, t) in multiset(ps);
          var j :| 0 <= j < |ps| && ps[j] == Converter.Pair(w, t);
          assert ps[j].tag == t && ps[j].token == w;
        }
        if w in TokensUnder(ps, t) {
          var j :| 0 <= j < |ps| && ps[j].tag == t && ps[j].token == w;
          assert ps[j] == Converter.Pair(w, t);
          assert ps[j] in multiset(ps);
          if !Has(c, w) {
            GetAbsent(c, w);
          }
          var i :| 0 <= i < |c| && c[i].0 == w;
        }
      }
      assert Keys(c) == TokensUnder(ps, t);
      KeysCount(c);
    }
  }

  /**
   * `total_pairs`, the sum of the tag counts, and the sum of the token counts are both the
   * number of pairs counted.
   */
  lemma {:induction false} FoldSums(ps: seq<Pair>)
    ensures Sum(Fold(ps).tagCounts) == |ps| && Sum(Fold(ps).tokenCounts) == |ps|
  {
    if ps != [] {
      FoldSums(ps[..|ps| - 1]);
    }
  }

  /** `plus_sign_tokens` counts the pairs whose token holds `+`; `total_chars` sums the token lengths. */
  lemma {:induction false} FoldPlusAndChars(ps: seq<Pair>)
    ensures Fold(ps).plusSignTokens == PlusCount(ps) <= |ps|
    ensures Fold(ps).totalChars == TokenChars(ps)
  {
    if ps != [] {
      FoldPlusAndChars(ps[..|ps| - 1]);
    }
  }

  /** What the report relies on after the loop: the totals, and a table it can print. */
  lemma FoldReady(ps: seq<Pair>)
    ensures Sum(Fold(ps).tagCounts) == |ps| && Sum(Fold(ps).tokenCounts) == |ps|
    ensures TableReady(Fold(ps).tagCounts, Fold(ps).tagTokenMap)
    ensures forall t :: |Inner(Fold(ps).tagTokenMap, t)| == |TokensUnder(ps, t)|
  {
    FoldDistinctTokens(ps);
    FoldSums(ps);
    FoldConsistent(ps);
    DistinctTokensBound(Fold(ps));
  }

  /** `1 <= len(tag_token_map[tag]) <= tag_counts[tag]`, so the type-token ratio is in (0, 1]. */
  lemma DistinctTokensBound(t: Tally)
    requires Consistent(t)
    ensures TableReady(t.tagCounts, t.tagTokenMap)
  {
    forall x | Has(t.tagCounts, x)
      ensures 1 <= |Inner(t.tagTokenMap, x)| <= Get(t.tagCounts, x)
    {
      GetPositive(t.tagCounts, x);
      SizeAtMostSum(Inner(t.tagTokenMap, x));
    }
  }

  /** Every accepted token is non-empty, so `total_chars >= total_pairs`. */
  lemma {:induction false} CharsAtLeastPairs(ps: seq<Pair>)
    requires forall i :: 0 <= i < |ps| ==> ps[i].token != []
    ensures TokenChars(ps) >= |ps|
  {
    if ps != [] {
      CharsAtLeastPairs(ps[..|ps| - 1]);
    }
  }

  // ---------------------------------------------------------------------------
  // The counting loop

  lemma FoldSnoc(ps: seq<Pair>, p: Pair)
    ensures Fold(ps + [p]) == Step(Fold(ps), p)
  {
    assert (ps + [p])[..|ps|] == ps;
  }

  /** One item of the inner loop: an accepted item is counted, any other leaves the tally. */
  lemma ItemStep(done: seq<Pair>, items: seq<string>, j: nat)
    requires j < |items|
    ensures var before := Fold(done + AcceptedPairs(items[..j]));
      var r := ParseTokenTag(items[j]);
      Fold(done + AcceptedPairs(items[..j + 1])) == if Accepted(r) then Step(before, r.value) else before
  {
    assert items[..j + 1][..j] == items[..j];
    var r := ParseTokenTag(items[j]);
    if Accepted(r) {
      assert done + AcceptedPairs(items[..j + 1]) == done + AcceptedPairs(items[..j]) + [r.value];
      FoldSnoc(done + AcceptedPairs(items[..j]), r.value);
    }
  }

  /** `ItemStep`, spelled out field by field as the loop body updates the accumulators. */
  lemma ItemCounted(before: Tally, done: seq<Pair>, items: seq<string>, j: nat, r: Option<Pair>)
    requires j < |items| && r == ParseTokenTag(items[j])
    requires before == Fold(done + AcceptedPairs(items[..j]))
    ensures !Accepted(r) ==> Fold(done + AcceptedPairs(items[..j + 1])) == before
    ensures Accepted(r) ==> Fold(done + AcceptedPairs(items[..j + 1])) == Tally(
      Inc(before.tagCounts, r.value.tag),
      Inc(before.tokenCounts, r.value.token),
      NestInc(before.tagTokenMap, r.value.tag, r.value.token),
      before.totalChars + |r.value.token|,
      before.plusSignTokens + if '+' in r.value.token then 1 else 0)
  {
    ItemStep(done, items, j);
  }

  lemma NoItems(done: seq<Pair>, items: seq<string>)
    ensures done + AcceptedPairs(items[..0]) == done
  {
    assert items[..0] == [];
  }

  lemma LinesSnoc(lines: seq<string>, n: nat)
    requires n < |lines|
    ensures ValidItems(lines[..n + 1]) == ValidItems(lines[..n]) + LinePairs(lines[n])
    ensures RawLengths(lines[..n + 1]) == RawLengths(lines[..n]) + LineLength(lines[n])
  {
    assert lines[..n + 1][..n] == lines[..n];
  }

  lemma BlankLine(lines: seq<string>, n: nat)
    requires n < |lines| && Strip(lines[n]) == []
    ensures ValidItems(lines[..n + 1]) == ValidItems(lines[..n])
    ensures RawLengths(lines[..n + 1]) == RawLengths(lines[..n])
  {
    LinesSnoc(lines, n);
    assert LinePairs(lines[n]) == [] && LineLength(lines[n]) == [];
  }

  lemma LineDone(lines: seq<string>, n: nat, items: seq<string>)
    requires n < |lines| && Strip(lines[n]) != [] && items == Words(Strip(lines[n]))
    ensures ValidItems(lines[..n + 1]) == ValidItems(lines[..n]) + AcceptedPairs(items)
    ensures RawLengths(lines[..n + 1]) == RawLengths(lines[..n]) + [|items|]
  {
    LinesSnoc(lines, n);
    assert LinePairs(lines[n]) == AcceptedPairs(items) && LineLength(lines[n]) == [|items|];
  }

  /**
   * The inner loop of the script, over the items of one line: every accepted item is
   * counted once more, the others are skipped.
   */
  method CountItems(
    parts: seq<string>, tagCounts0: Counter, tokenCounts0: Counter, tagTokenMap0: Nested,
    totalChars0: nat, plusSignTokens0: nat, ghost done: seq<Pair>)
    returns (tagCounts: Counter, tokenCounts: Counter, tagTokenMap: Nested, totalChars: nat, plusSignTokens: nat)
    requires Tally(tagCounts0, tokenCounts0, tagTokenMap0, totalChars0, plusSignTokens0) == Fold(done)
    ensures Tally(tagCounts, tokenCounts, tagTokenMap, totalChars, plusSignTokens)
      == Fold(done + AcceptedPairs(parts))
  {
    tagCounts, tokenCounts, tagTokenMap := tagCounts0, tokenCounts0, tagTokenMap0;
    totalChars, plusSignTokens := totalChars0, plusSignTokens0;
    NoItems(done, parts);
    for j := 0 to |parts|
      invariant Tally(tagCounts, tokenCounts, tagTokenMap, totalChars, plusSignTokens)
        == Fold(done + AcceptedPairs(parts[..j]))
    {
      ghost var before := Tally(tagCounts, tokenCounts, tagTokenMap, totalChars, plusSignTokens);
      var r := ParseTokenTag(parts[j]);
      ItemCounted(before, done, parts, j, r);
      if r.None? {
        continue;
      }
      var tok, tg := r.value.token, r.value.tag;
      if tok != [] && tg != [] {
        tagCounts := Inc(tagCounts, tg);
        tokenCounts := Inc(tokenCounts, tok);
        tagTokenMap := NestInc(tagTokenMap, tg, tok);
        totalChars := totalChars + |tok|;
        if '+' in tok {
          plusSignTokens := plusSignTokens + 1;
        }
      }
    }
    assert parts[..|parts|] == parts;
  }

  /**
   * The loop at the top of the script, over the lines of the corpus file: the accumulators
   * count the accepted pairs of the file and `sentence_lengths` holds the raw item counts.
   */
  method CollectStats(lines: seq<string>)
    returns (tagCounts: Counter, tokenCounts: Counter, tagTokenMap: Nested,
             sentenceLengths: seq<nat>, totalChars: nat, plusSignTokens: nat)
    ensures Tally(tagCounts, tokenCounts, tagTokenMap, totalChars, plusSignTokens) == Fold(ValidItems(lines))
    ensures sentenceLengths == RawLengths(lines)
    ensures Sum(tagCounts) == |ValidItems(lines)| && Sum(tokenCounts) == |ValidItems(lines)|
    ensures TableReady(tagCounts, tagTokenMap)
    ensures forall t :: |Inner(tagTokenMap, t)| == |TokensUnder(ValidItems(lines), t)|
  {
    tagCounts, tokenCounts, tagTokenMap := [], [], [];
    sentenceLengths, totalChars, plusSignTokens := [], 0, 0;
    for n := 0 to |lines|
      invariant Tally(tagCounts, tokenCounts, tagTokenMap, totalChars, plusSignTokens) == Fold(ValidItems(lines[..n]))
      invariant sentenceLengths == RawLengths(lines[..n])
    {
      var line := Strip(lines[n]);
      if line == [] {
        BlankLine(lines, n);
        continue;
      }
      var parts := Words(line);
      sentenceLengths := sentenceLengths + [|parts|];
      tagCounts, tokenCounts, tagTokenMap, totalChars, plusSignTokens :=
        CountItems(parts, tagCounts, tokenCounts, tagTokenMap, totalChars, plusSignTokens, ValidItems(lines[..n]));
      LineDone(lines, n, parts);
    }
    assert lines[..|lines|] == lines;
    FoldReady(ValidItems(lines));
  }

  // ---------------------------------------------------------------------------
  // The statistics and the converter read the same pairs

  /** On whitespace-free items the two item filters keep the same pairs. */
  lemma {:induction false} AcceptedAgree(items: seq<string>)
    requires forall i :: 0 <= i < |items| ==> NoSpace(items[i])
    ensures AcceptedPairs(items) == Converter.ValidPairs(items)
  {
    if items != [] {
      AcceptedAgree(items[..|items| - 1]);
      ParseAgreement(items[|items| - 1]);
    }
  }

  lemma LineAgree(line: string)
    ensures LinePairs(line) == Converter.LineSentence(line)
  {
    var stripped := Strip(line);
    if stripped != [] {
      AcceptedAgree(Words(stripped));
    }
  }

  /** The pairs of a list of sentences, one sentence after the other. */
  function Flatten(c: seq<Converter.Sentence>): (ps: seq<Pair>)
    ensures |ps| == Converter.TotalPairs(c)
  {
    if c == [] then [] else Flatten(c[..|c| - 1]) + c[|c| - 1]
  }

  lemma FlattenSnoc(c: seq<Converter.Sentence>, s: Converter.Sentence)
    ensures Flatten(c + [s]) == Flatten(c) + s
  {
    assert (c + [s])[..|c|] == c;
  }

  /**
   * The statistics count exactly the pairs of the corpus `read_sentences` returns, in the
   * same order; so `total_pairs` is the number of token lines the converter writes.
   */
  lemma {:induction false} CountedAreConverted(lines: seq<string>)
    ensures ValidItems(lines) == Flatten(Converter.Corpus(lines))
    ensures |ValidItems(lines)| == Converter.TotalPairs(Converter.Corpus(lines))
  {
    if lines != [] {
      var init, last := lines[..|lines| - 1], lines[|lines| - 1];
      assert lines == init + [last];
      assert ValidItems(lines) == ValidItems(init) + LinePairs(last);
      Converter.CorpusSnoc(lines, init, last);
      CountedAreConverted(init);
      LineAgree(last);
      var s := Converter.LineSentence(last);
      if s != [] {
        FlattenSnoc(Converter.Corpus(init), s);
      } else {
        assert ValidItems(lines) == ValidItems(init);
      }
    }
  }

  // ---------------------------------------------------------------------------
  // sorted_tags

  /** The sort key `(-count, tag)`: `a` comes no later than `b`. */
  predicate Before(a: (string, nat), b: (string, nat)) {
    a.1 > b.1 || (a.1 == b.1 && StrLeq(a.0, b.0))
  }

  predicate SortedByCount(s: Counter) {
    forall i, j :: 0 <= i < j < |s| ==> Before(s[i], s[j])
  }

  lemma BeforeTotal(a: (string, nat), b: (string, nat))
    ensures Before(a, b) || Before(b, a)
  {
    StrLeqTotal(a.0, b.0);
  }

  lemma BeforeTransitive(a: (string, nat), b: (string, nat), c: (string, nat))
    requires Before(a, b) && Before(b, c)
    ensures Before(a, c)
  {
    if a.1 == b.1 && b.1 == c.1 {
      StrLeqTransitive(a.0, b.0, c.0);
    }
  }

  lemma BeforeAntisymmetric(a: (string, nat), b: (string, nat))
    requires Before(a, b) && Before(b, a)
    ensures a == b
  {
    StrLeqAntisymmetric(a.0, b.0);
  }

  /** Puts `x` in front of the first entry it comes before. */
  function InsertByCount(x: (string, nat), s: Counter): (r: Counter)
    ensures multiset(r) == multiset(s) + multiset{x}
  {
    if s == [] then [x]
    else if Before(x, s[0]) then
      assert s == [s[0]] + s[1..];
      [x] + s
    else
      assert s == [s[0]] + s[1..];
      [s[0]] + InsertByCount(x, s[1..])
  }

  /** Inserting into a sorted list keeps it sorted. */
  lemma {:induction false} InsertSorted(x: (string, nat), s: Counter)
    requires SortedByCount(s)
    ensures SortedByCount(InsertByCount(x, s))
  {
    if s != [] {
      if Before(x, s[0]) {
        forall j | 0 < j < |s| ensures Before(x, s[j]) {
          BeforeTransitive(x, s[0], s[j]);
        }
      } else {
        BeforeTotal(x, s[0]);
        var rest := InsertByCount(x, s[1..]);
        InsertSorted(x, s[1..]);
        forall j | 0 <= j < |rest| ensures Before(s[0], rest[j]) {
          assert rest[j] in multiset(rest);
          if rest[j] != x {
            assert rest[j] in multiset(s[1..]);
            var k :| 0 <= k < |s[1..]| && s[1..][k] == rest[j];
            assert s[k + 1] == rest[j];
          }
        }
        assert InsertByCount(x, s) == [s[0]] + rest;
      }
    }
  }

  /** `sorted(tag_counts.items(), key=lambda x: (-x[1], x[0]))`. */
  function SortTags(c: Counter): (r: Counter)
    ensures SortedByCount(r)
    ensures multiset(r) == multiset(c)
    ensures |r| == |c|
  {
    if c == [] then []
    else
      assert c == [c[0]] + c[1..];
      InsertSorted(c[0], SortTags(c[1..]));
      var r := InsertByCount(c[0], SortTags(c[1..]));
      assert |multiset(r)| == |r| && |multiset(c)| == |c|;
      r
  }

  lemma SortedTail(s: Counter)
    requires s != [] && SortedByCount(s)
    ensures SortedByCount(s[1..])
  {
    forall i, j | 0 <= i < j < |s| - 1 ensures Before(s[1..][i], s[1..][j]) {
      assert s[1..][i] == s[i + 1] && s[1..][j] == s[j + 1];
    }
  }

  /** The key order leaves no choice: two sorted arrangements of the same entries are equal. */
  lemma {:induction false} SortedUnique(a: Counter, b: Counter)
    requires SortedByCount(a) && SortedByCount(b)
    requires multiset(a) == multiset(b)
    ensures a == b
  {
    if a != [] {
      assert |b| == |multiset(b)| == |multiset(a)| == |a|;
      if a[0] != b[0] {
        assert a[0] in multiset(b) && b[0] in multiset(a);
        var i :| 0 <= i < |b| && b[i] == a[0];
        var j :| 0 <= j < |a| && a[j] == b[0];
        assert Before(b[0], b[i]) && Before(a[0], a[j]);
        BeforeAntisymmetric(a[0], b[0]);
      }
      assert a == [a[0]] + a[1..] && b == [b[0]] + b[1..];
      assert a[0] == b[0];
      assert multiset(a[1..]) == multiset(a) - multiset{a[0]};
      assert multiset(b[1..]) == multiset(b) - multiset{b[0]};
      SortedTail(a);
      SortedTail(b);
      SortedUnique(a[1..], b[1..]);
    }
  }

  /** Every entry of the sorted list is a tag with its count. */
  lemma SortedEntry(c: Counter, i: nat)
    requires DistinctKeys(c) && i < |SortTags(c)|
    ensures Has(c, SortTags(c)[i].0) && Get(c, SortTags(c)[i].0) == SortTags(c)[i].1
  {
    var e := SortTags(c)[i];
    assert e in multiset(SortTags(c));
    var j :| 0 <= j < |c| && c[j] == e;
    GetAt(c, j);
  }

  // ---------------------------------------------------------------------------
  // The per-tag table

  /** The integer part of a line of the per-tag table: the tag, its count, its distinct tokens. */
  datatype Row = Row(tag: string, count: nat, distinct: nat)

  /** The row written for a sorted entry. */
  function RowFor(e: (string, nat), tagTokenMap: Nested): Row {
    Row(e.0, e.1, |Inner(tagTokenMap, e.0)|)
  }

  /** What the rows of the sorted entries say about the counters they come from. */
  lemma TableRows(tagCounts: Counter, tagTokenMap: Nested, rows: seq<Row>)
    requires TableReady(tagCounts, tagTokenMap)
    requires |rows| == |tagCounts|
    requires forall i :: 0 <= i < |rows| ==> rows[i] == RowFor(SortTags(tagCounts)[i], tagTokenMap)
    ensures forall i :: 0 <= i < |rows| ==> rows[i].count == Get(tagCounts, rows[i].tag)
    ensures forall i :: 0 <= i < |rows| ==> 1 <= rows[i].distinct <= rows[i].count
  {
    forall i | 0 <= i < |rows|
      ensures rows[i].count == Get(tagCounts, rows[i].tag) && 1 <= rows[i].distinct <= rows[i].count
    {
      SortedEntry(tagCounts, i);
    }
  }

  /**
   * The table loop: one row per tag in the order of `sorted_tags`, with
   * `len(tag_token_map[tag])` distinct tokens, between one and the tag's count.
   */
  method TagTable(tagCounts: Counter, tagTokenMap: Nested) returns (rows: seq<Row>)
    requires TableReady(tagCounts, tagTokenMap)
    ensures |rows| == |tagCounts|
    ensures forall i :: 0 <= i < |rows| ==> (rows[i].tag, rows[i].count) == SortTags(tagCounts)[i]
    ensures forall i :: 0 <= i < |rows| ==> rows[i].distinct == |Inner(tagTokenMap, rows[i].tag)|
    ensures forall i :: 0 <= i < |rows| ==> rows[i].count == Get(tagCounts, rows[i].tag)
    ensures forall i :: 0 <= i < |rows| ==> 1 <= rows[i].distinct <= rows[i].count
  {
    var sortedTags := SortTags(tagCounts);
    rows := [];
    for i := 0 to |sortedTags|
      invariant |rows| == i
      invariant forall k :: 0 <= k < i ==> rows[k] == RowFor(sortedTags[k], tagTokenMap)
    {
      var (tag, count) := sortedTags[i];
      var uniqueToks := |Inner(tagTokenMap, tag)|;
      rows := rows + [Row(tag, count, uniqueToks)];
    }
    TableRows(tagCounts, tagTokenMap, rows);
  }
}
