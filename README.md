# UzbekPOS in Dafny

A model of three batch scripts from the UzbekPOS corpus tools, and proofs about them. All three work on a part-of-speech-tagged Uzbek corpus. The corpus has one sentence per line, and each line is a whitespace-separated list of `token/tag` items.

- `DatasetConverter.py` reads the corpus into a list of sentences.
  - `parse_item` splits an item at its last `/` and rejects an item whose token or tag is empty.
  - `read_sentences` skips blank lines, drops malformed items, and drops lines left with no items.
  - It then writes the corpus in three forms: one CoNLL-U block per sentence, one TSV row per token, and one JSONL record per sentence.
- `Data-Statistics.py` parses the same file with its own `parse_token_tag`. It counts tags, tokens, the tokens seen under each tag, characters, and tokens containing `+`. It records one raw item count per non-blank line, and sorts the tags by descending count and then by tag name.
- `Fix_mod_upos.py` rewrites CoNLL-U text line by line:
  - a token line whose UPOS column is `MOD` gets UPOS `AUX`;
  - an XPOS of `_` on such a line becomes `MOD`;
  - every other line passes through unchanged;
  - it counts the rewritten lines.

Modules:
- **`Wrappers`** (`wrappers.dfy`): `Option`.
- **`Text`** (`text.dfy`): the Python string operations the scripts rely on.
  - `str.split(sep)`, `sep.join`, `str.strip()`, `str.split()` and `rsplit('/', 1)`.
  - `str(n)` for a natural number, and Python's `<` on strings.
  - The splitting of a text file into lines.
  - Whitespace is CPython's `str.isspace` set, written out.
- **`Converter`** (`dataset_converter.dfy`): the parser, the reader and the three encoders.
  - `ReadSentences`, `WriteConllu`, `WriteTsv` and `WriteJsonl` are methods with the script's loops. Each is proved against a specification function (`Corpus`, `ConlluLines`, `TsvRows`, `Decode`), and the lemmas state what those functions guarantee.
- **`Counters`** (`counter.dfy`): `Counter` and `defaultdict(Counter)` as insertion-ordered lists of entries. `c[k] += 1` is `Inc`, and `m[k][x] += 1` is `NestInc`.
- **`Statistics`** (`data_statistics.dfy`): the counting script.
  - `CollectStats` is the module-level loop and `CountItems` is its inner loop over the items of one line. Both are proved against a left fold `Fold` over the accepted pairs.
  - `SortTags` is `sorted(..., key=lambda x: (-x[1], x[0]))`, and `TagTable` is the integer part of the per-tag table.
- **`FixMod`** (`fix_mod_upos.dfy`): the MOD→AUX rewriter. `FixModUpos` is the script's loop, proved against `FixedLine`.

Three results connect the scripts:
- **One parser.** On items of `line.split()`, `parse_token_tag` with the caller's `if tok and tag` check accepts exactly the items `parse_item` accepts, as the same pairs. So the statistics count exactly the pairs the converter writes (`CountedAreConverted`).
- **What the rewriter counts.** Run on the converter's CoNLL-U output, the rewriter reports exactly the number of pairs tagged `MOD` (`ConverterFileRetagged`).
- **Round trips.** A corpus of non-empty sentences, whose tokens and tags are non-empty and free of whitespace and whose tags hold no `/`, is read back unchanged when written one sentence per line (`ReadRawLines`). For a corpus whose sentences are well formed in that same sense (each sentence non-empty; tokens and tags non-empty, free of whitespace, tags without `/`), the TSV text splits back into its header and rows (`TsvReadBack`); if the corpus is also non-empty, the CoNLL-U text splits back into its `lines` list (`ConlluReadBack`).

Notes on what the scripts do, which the model keeps:
- **The statistics parse the raw file.** `Data-Statistics.py` does not use `read_sentences`: it reads the corpus file itself (lines 21-38). So a line whose items are all malformed, which `read_sentences` drops, still adds an entry to `sentence_lengths` (`MalformedLineCounted`, with the line `a/` as an instance in `MalformedLineExists`).
- **Item counts, not pair counts.** That entry is the raw item count of the line, `len(parts)` (lines 27-28), malformed items included.
- **No count of malformed lines.** For a line that does not have 10 columns, `Fix_mod_upos.py` prints its split columns (line 24) and copies the line unchanged (line 25); it keeps no count of such lines. Its one count is the count of rewritten lines (line 32).
- **Two parsers.** `parse_item` (`DatasetConverter.py:31-38`) does not strip its halves, while `parse_token_tag` (`Data-Statistics.py:9-12`) strips both and leaves the emptiness test to its caller (line 32). `ParseAgreement` shows the two agree on the whitespace-free items `line.split()` produces.

## Model

| member | source | states |
|---|---|---|
| Converter.ParseItem | DatasetConverter.py:31-38 | `None` exactly when the item has no `/`, or the last `/` is its first or last character; otherwise token + `/` + tag is the item, both are non-empty, the tag has no `/`, and on a whitespace-free item the pair is well formed |
| Converter.ParseItemRoundTrip | DatasetConverter.py:35-38 | a non-empty token, possibly containing `/`, and a non-empty tag without `/` are recovered exactly from `token/tag` |
| Converter.ValidPairs | DatasetConverter.py:53-59 | the valid pairs of a line never outnumber its items |
| Converter.LineSentence | DatasetConverter.py:49-59 | defines the candidate sentence of a line: empty for a blank line, otherwise the parsed valid items of `line.split()` after `strip()`; its properties are in `LineSentenceWellFormed`, `CorpusLines` and `LineSentenceOfRawLine` |
| Converter.Corpus | DatasetConverter.py:46-61 | defines the list `read_sentences` returns: the non-empty candidate sentences of the lines, in order; `ReadSentences` is proved equal to it, and `CorpusWellFormed`, `CorpusIsNonEmpty` and `CorpusLines` state its properties |
| Converter.ParseItems | DatasetConverter.py:52-59 | the inner loop of `read_sentences` collects exactly the parsed valid items, in order |
| Converter.ReadSentences | DatasetConverter.py:40-62 | the loop returns exactly `Corpus(lines)`, and every sentence is non-empty with well-formed pairs |
| Converter.ValidPairsWellFormed | DatasetConverter.py:53-59 | pairs parsed from whitespace-free items have non-empty, whitespace-free token and tag, and a tag without `/` |
| Converter.LineSentenceWellFormed | DatasetConverter.py:49-59 | every pair of the candidate sentence of a line is well formed |
| Converter.CorpusWellFormed | DatasetConverter.py:48-61 | no sentence in the corpus is empty, and every pair in it is well formed |
| Converter.CorpusIsNonEmpty | DatasetConverter.py:48-61 | the corpus is the list of candidate sentences, one per line, with the empty ones dropped |
| Converter.NonEmptyIndices | DatasetConverter.py:60-61 | the kept indices are increasing, sentence k is the candidate at kept index k, and every index not kept holds an empty candidate |
| Converter.CorpusLines | DatasetConverter.py:48-61 | sentence k of the corpus is the in-order valid items of one line; those lines come in file order; every other line yields no pair |
| Converter.ValidPairsOfItems | DatasetConverter.py:53-59 | parsing the items written for well-formed pairs gives back the pairs |
| Converter.LineSentenceOfRawLine | DatasetConverter.py:49-59 | a non-empty well-formed sentence, written as its items joined by single spaces, reads back as itself |
| Converter.ReadRawLines | DatasetConverter.py:40-62 | a corpus of non-empty well-formed sentences written one per line is read back unchanged |
| Converter.WriteConllu | DatasetConverter.py:64-89 | the `lines` list equals `ConlluLines(sentences)` and has `sum(len(s) + 2)` entries; the text is those lines joined by newlines plus a final newline |
| Converter.TokenLines | DatasetConverter.py:73-86 | defines the token lines of one sentence, numbered from 1; `TokenLinesAt` places each one and `TokenLinesRetagged` counts its `MOD` lines |
| Converter.Block | DatasetConverter.py:72-87 | defines the lines of sentence k: `# sent_id = k`, its token lines, then `""`; `ConlluBlockAt` places it in the output and `BlockRetagged` states what the rewriter counts in it |
| Converter.ConlluLines | DatasetConverter.py:70-87 | defines the `lines` list, the blocks of the sentences in order with ids from 1; `WriteConllu` is proved equal to it, and `ConlluLineCount`, `ConlluPrefix`, `ConlluBlockAt`, `ConlluNoNewline` and `ConlluReadBack` state its properties |
| Converter.TotalPairs | DatasetConverter.py:128 | defines `sum(len(s) for s in sentences)`; `ConlluLineCount`, `TsvRowCount` and `CountedAreConverted` relate it to the output |
| Converter.TokenColumns | DatasetConverter.py:74-85 | defines the ten columns of a token line: ID `str(i)`, FORM the token, LEMMA `_`, UPOS the tag, then six `_`; `TokenLineFields` reads them back |
| Converter.TokenLine | DatasetConverter.py:86 | defines a token line as its columns joined by tabs; `TokenLineFields` and `ConlluBlockAt` state what it holds and where it sits |
| Converter.SentIdLine | DatasetConverter.py:72 | defines the comment `# sent_id = k` that opens block k; `ConlluBlockAt` places it |
| Converter.TokenLinesAt | DatasetConverter.py:73-86 | the token lines of a sentence are one per pair, line i being the line of pair i with ID i + 1 |
| Converter.ConlluLineCount | DatasetConverter.py:70-87 | the CoNLL-U output has `TotalPairs(c) + 2 * len(c)` lines |
| Converter.ConlluPrefix | DatasetConverter.py:71-87 | the lines for the first k sentences are a prefix of the lines for all of them |
| Converter.ConlluBlockAt | DatasetConverter.py:71-87 | sentence k's block starts after the earlier blocks: `# sent_id = k+1`, then its token lines with IDs 1.., then `""` |
| Converter.TokenLineFields | DatasetConverter.py:74-86 | a token line splits on tab into 10 columns: ID reads back as the number, FORM is the token, UPOS the tag, the other seven are `_` |
| Converter.ConlluNoNewline | DatasetConverter.py:70-87 | no CoNLL-U line of a well-formed corpus contains a newline |
| Converter.ConlluReadBack | DatasetConverter.py:89 | the written CoNLL-U text splits back into exactly its `lines` list |
| Converter.WriteTsv | DatasetConverter.py:91-101 | the text is the header row, then one row per pair in corpus order, each ending in a newline; for a well-formed corpus its lines are exactly the header and the rows |
| Converter.TsvRow | DatasetConverter.py:101 | defines the row `sid\ttid\ttok\ttag`; `TsvRowFields` reads its four columns back and `TsvRowAt` places it |
| Converter.TsvHeader | DatasetConverter.py:98 | defines the header row `sent_id\ttoken_id\tform\tupos`; `WriteTsv` writes it first and `TsvReadBack` reads it back |
| Converter.SentenceRows | DatasetConverter.py:100-101 | defines the rows of one sentence, token ids from 1; `SentenceRowsAt` places each one |
| Converter.TsvRows | DatasetConverter.py:99-101 | defines the rows after the header, sentence ids from 1; `TsvRowCount`, `TsvPrefix`, `TsvRowAt` and `TsvRowsNoNewline` state its properties |
| Converter.Unlines | DatasetConverter.py:98-101 | defines the text of a file written one row at a time, each row followed by `\n`; `UnlinesJoin` equates it with a newline join and `UnlinesReadBack` splits it back |
| Converter.SentenceRowsAt | DatasetConverter.py:100-101 | row i of sentence sid is `sid\t(i+1)\ttoken\ttag` for pair i |
| Converter.TsvRowCount | DatasetConverter.py:99-101 | there is exactly one row per pair |
| Converter.TsvPrefix | DatasetConverter.py:99-101 | the rows for the first k sentences are a prefix of all rows |
| Converter.TsvRowAt | DatasetConverter.py:99-101 | the row of pair i of sentence k sits at index `TotalPairs(c[..k]) + i` and carries `k+1`, `i+1`, the token and the tag |
| Converter.TsvRowFields | DatasetConverter.py:101 | a row splits on tab into 4 columns: two numbers that read back as sid and tid, then the token and the tag |
| Converter.UnlinesJoin | DatasetConverter.py:98-101 | writing each row followed by a newline is the same as joining the rows with newlines and adding one final newline |
| Converter.TsvRowsNoNewline | DatasetConverter.py:101 | no row of a well-formed corpus contains a newline |
| Converter.UnlinesReadBack | DatasetConverter.py:98-101 | newline-free rows, each written with a newline, split back into the same rows |
| Converter.TsvReadBack | DatasetConverter.py:98-101 | the TSV text of a well-formed corpus splits back into the header and the rows |
| Converter.WriteJsonl | DatasetConverter.py:103-116 | one record per sentence: record k has `sent_id` k+1, and `tokens`/`upos` as long as sentence k and aligned with its tokens and tags; zipping them gives back every sentence |
| Converter.Record | DatasetConverter.py:111-115 | defines the record `{"sent_id", "tokens", "upos"}` as a value; `WriteJsonl` states what each record holds |
| Converter.Tokens | DatasetConverter.py:113 | defines `[t for t, _ in sent]`; `WriteJsonl` states that record k's `tokens` are sentence k's tokens in order |
| Converter.Tags | DatasetConverter.py:114 | defines `[p for _, p in sent]`; `WriteJsonl` states that record k's `upos` are sentence k's tags in order |
| Converter.Zip | DatasetConverter.py:113-114 | defines `zip(tokens, upos)`, which stops at the shorter list; `WriteJsonl` states that it rebuilds each sentence from its record |
| Converter.Decode | DatasetConverter.py:111-115 | defines the corpus rebuilt from the records by zipping `tokens` with `upos`; `WriteJsonl` states that it gives back the sentences written |
| Statistics.ParseTokenTag | Data-Statistics.py:9-12 | no result exactly when the item has no `/`; the tag never contains `/`; on a whitespace-free item, token + `/` + tag is the item |
| Statistics.StripHalves | Data-Statistics.py:11-12 | stripping either half of a whitespace-free item changes nothing |
| Statistics.ParseAgreement | Data-Statistics.py:9-12 | on a whitespace-free item, `parse_token_tag` with the caller's `tok and tg` check accepts exactly what `parse_item` accepts, with the same pair |
| Statistics.AcceptedPairs | Data-Statistics.py:30-32 | the accepted pairs of a line never outnumber its items, and each has a non-empty token and tag |
| Statistics.Accepted | Data-Statistics.py:32 | defines the caller's test `if tok and tg`; `ParseAgreement` equates it with `parse_item` accepting the item |
| Statistics.ValidItems | Data-Statistics.py:21-38 | defines the accepted pairs of the whole file, line after line; `CollectStats` counts them, `CountedAreConverted` equates them with the converter's pairs and `MalformedLineCounted` shows a line that adds none |
| Statistics.LinePairs | Data-Statistics.py:24-32 | defines the pairs a line contributes: none for a blank line, otherwise the accepted items of `line.split()` after `strip()`; `LineAgree` equates it with the converter's candidate sentence |
| Statistics.LineLength | Data-Statistics.py:24-28 | a line adds at most one entry to `sentence_lengths`, and that entry is at least 1; `LineLengthIsItemCount` states that a non-blank line adds exactly its item count |
| Statistics.RawLengths | Data-Statistics.py:23-28 | `sentence_lengths` has at most one entry per line, each at least 1; `RawLengthsAt`, `RawLengthAt` and `NonBlankListed` state its entries one by one |
| Statistics.NonBlank | Data-Statistics.py:24-25 | defines the indices of the lines that are not blank after `strip()`, in file order; `RawLengthsAt` and `NonBlankListed` state what it holds |
| Statistics.LineLengthIsItemCount | Data-Statistics.py:24-28 | a non-blank line adds exactly one entry, `len(parts)`, malformed items included, and that entry is at least its number of accepted pairs |
| Statistics.RawLengthsAt | Data-Statistics.py:23-28 | `sentence_lengths` has one entry per non-blank line: entry m is the entry of the m-th non-blank line, the lines are in file order, and no non-blank line is missed |
| Statistics.RawLengthAt | Data-Statistics.py:24-28 | entry m of `sentence_lengths` is `len(line.split())` of the m-th non-blank line, which is non-blank after `strip()` |
| Statistics.NonBlankListed | Data-Statistics.py:24-28 | every line that is not blank after `strip()` has its entry |
| Statistics.MalformedLineCounted | Data-Statistics.py:24-32 | a non-blank line none of whose items is accepted adds its item count to `sentence_lengths`, but no pair, and `read_sentences` drops it |
| Statistics.MalformedLineExists | Data-Statistics.py:24-32 | the line `a/` is such a line: non-blank, and its one item has an empty tag |
| Statistics.LengthsCoverCorpus | Data-Statistics.py:23-28 | `sentence_lengths` has at least as many entries as `read_sentences` returns sentences |
| Statistics.PlusCount | Data-Statistics.py:37-38 | the number of tokens containing `+` is at most the number of pairs |
| Statistics.TokenChars | Data-Statistics.py:36 | defines the sum of the accepted tokens' lengths; `FoldPlusAndChars` equates it with `total_chars` and `CharsAtLeastPairs` bounds it |
| Statistics.Step | Data-Statistics.py:33-38 | defines the five updates for one accepted pair: `Inc` of the tag and token counters, `NestInc` of `tag_token_map`, `total_chars += len(tok)`, and `plus_sign_tokens += 1` when the token holds `+`; `StepConsistent` states what it preserves |
| Statistics.Fold | Data-Statistics.py:30-38 | defines the accumulators after counting a sequence of pairs from empty ones; `CountItems` and `CollectStats` are proved equal to it, and the `Fold*` lemmas state what each accumulator holds |
| Statistics.CountItems | Data-Statistics.py:30-38 | the inner loop turns the accumulators of `done` into those of `done` followed by the line's accepted pairs |
| Statistics.CollectStats | Data-Statistics.py:14-40 | the accumulators equal `Fold` of the accepted pairs of the file; `sentence_lengths` is the raw item count of every non-blank line; `sum(tag_counts.values())` and `sum(token_counts.values())` both equal the number of accepted pairs; the per-tag table can be computed; `len(tag_token_map[t])` is the number of distinct tokens accepted with tag t |
| Statistics.StepConsistent | Data-Statistics.py:33-35 | one counting step keeps the counters consistent: distinct keys and positive counts in all three counters and every inner counter, the same tags in `tag_counts` and `tag_token_map`, and each tag's inner counts summing to its count |
| Statistics.FoldConsistent | Data-Statistics.py:30-38 | the counters after any sequence of pairs are consistent |
| Statistics.FoldTagCounts | Data-Statistics.py:33 | `tag_counts[x]` is the number of accepted pairs with tag x |
| Statistics.FoldTokenCounts | Data-Statistics.py:34 | `token_counts[x]` is the number of accepted pairs with token x |
| Statistics.FoldTagTokenCounts | Data-Statistics.py:35 | `tag_token_map[t][w]` is the number of accepted pairs with token w and tag t |
| Statistics.FoldDistinctTokens | Data-Statistics.py:35-62 | `len(tag_token_map[t])` is the number of distinct tokens seen with tag t |
| Statistics.FoldSums | Data-Statistics.py:33-40 | `total_pairs` and the sum of `token_counts` both equal the number of accepted pairs |
| Statistics.FoldPlusAndChars | Data-Statistics.py:36-38 | `plus_sign_tokens` counts the accepted tokens containing `+`, at most `total_pairs`; `total_chars` is the sum of the accepted tokens' lengths |
| Statistics.FoldReady | Data-Statistics.py:40-63 | after the loop, both sums equal the pair count, every tag's distinct-token count lies between 1 and its count, and `len(tag_token_map[t])` is the number of distinct tokens seen with t |
| Statistics.DistinctTokensBound | Data-Statistics.py:62-63 | for consistent counters, every tag has between 1 and `tag_counts[tag]` distinct tokens, so the type-token ratio lies in (0, 1] |
| Statistics.CharsAtLeastPairs | Data-Statistics.py:36 | with non-empty tokens, `total_chars` is at least the number of pairs |
| Statistics.AcceptedAgree | Data-Statistics.py:30-32 | on whitespace-free items, the statistics accept the same pairs as `read_sentences` |
| Statistics.LineAgree | Data-Statistics.py:24-32 | the pairs counted for a line are that line's candidate sentence in the converter |
| Statistics.Flatten | DatasetConverter.py:128 | the pairs of a corpus, one sentence after another, number `TotalPairs` |
| Statistics.CountedAreConverted | Data-Statistics.py:21-40 | the statistics count exactly the pairs of `read_sentences`' corpus, in order, so `total_pairs` equals the converter's token count |
| Statistics.Before | Data-Statistics.py:41 | defines the order the key `(-count, tag)` gives: higher count first, ties by ascending tag; `BeforeTotal`, `BeforeTransitive` and `BeforeAntisymmetric` make it a total order |
| Statistics.SortedByCount | Data-Statistics.py:41 | defines a list ordered by that key; `SortTags` returns one, `InsertSorted` keeps one and `SortedUnique` makes it unique |
| Statistics.BeforeTotal | Data-Statistics.py:41 | the sort key orders any two entries |
| Statistics.BeforeTransitive | Data-Statistics.py:41 | the sort key is transitive |
| Statistics.BeforeAntisymmetric | Data-Statistics.py:41 | two entries ordered both ways by the sort key are equal |
| Statistics.InsertByCount | Data-Statistics.py:41 | inserting an entry adds it and nothing else |
| Statistics.InsertSorted | Data-Statistics.py:41 | inserting into a sorted list keeps it sorted |
| Statistics.SortTags | Data-Statistics.py:41 | `sorted_tags` is a permutation of the `tag_counts` entries, by descending count, ties by ascending tag |
| Statistics.SortedUnique | Data-Statistics.py:41 | two sorted arrangements of the same entries are equal, so the order is fully determined |
| Statistics.SortedEntry | Data-Statistics.py:41-58 | each entry of `sorted_tags` is a tag of `tag_counts` with its count |
| Statistics.TableRows | Data-Statistics.py:58-63 | every table row carries its tag's count, and between 1 and that many distinct tokens |
| Statistics.TagTable | Data-Statistics.py:58-63 | one row per tag in `sorted_tags` order, with the tag's count and `len(tag_token_map[tag])` distinct tokens, where 1 <= distinct <= count |
| Statistics.Row | Data-Statistics.py:58-62 | defines the integer part of a table row: the tag, `count` and `len(tag_token_map[tag])`; `TableRows` and `TagTable` state what each row holds |
| Statistics.RowFor | Data-Statistics.py:58-62 | defines the row of one `sorted_tags` entry, looking up its distinct-token count; `TableRows` bounds it |
| Counters.Inc | Data-Statistics.py:33-34 | `c[k] += 1` raises the count of k by one, changes no other count, and raises the total by one |
| Counters.IncKeys | Data-Statistics.py:33-34 | an existing key keeps its place; a new key is appended with count 1 |
| Counters.IncPositive | Data-Statistics.py:33-34 | counts stay positive |
| Counters.IncDistinct | Data-Statistics.py:33-34 | keys stay distinct |
| Counters.GetAt | Data-Statistics.py:41 | with distinct keys, the count looked up for an entry's key is that entry's count |
| Counters.GetPositive | Data-Statistics.py:58-63 | a key that is present has a count of at least 1 |
| Counters.SizeAtMostSum | Data-Statistics.py:62-63 | a counter with positive counts has no more keys than the sum of its counts |
| Counters.Get | Data-Statistics.py:33-34 | defines the counter lookup `c[k]`, 0 for an absent key; `Inc` and `GetAt` state its behaviour |
| Counters.Sum | Data-Statistics.py:40 | defines `sum(c.values())`; `Inc` raises it by one and `FoldSums` relates it to the pair count |
| Counters.Keys | Data-Statistics.py:62 | defines the set of keys of a counter, whose size is the number of distinct keys; `KeysCount` equates it with `len(c)` and `FoldDistinctTokens` uses it |
| Counters.KeysCount | Data-Statistics.py:62 | with distinct keys, `len(c)` is the number of its keys |
| Counters.GetAbsent | Data-Statistics.py:33-35 | a key that is absent has count 0 |
| Counters.Inner | Data-Statistics.py:35-62 | defines the `defaultdict` lookup `m[k]`, an empty counter for an absent key; `NestInc` and `FoldTagTokenCounts` state what it holds |
| Counters.NestInc | Data-Statistics.py:35 | `m[k][x] += 1` counts x once more under k and changes no other inner counter |
| Counters.NestIncKeys | Data-Statistics.py:35 | the outer keys after the update are the old ones plus k |
| FixMod.ModCount | Fix_mod_upos.py:31-32 | the count of rewritten lines is at most the number of lines |
| FixMod.Passthrough | Fix_mod_upos.py:15 | defines the test `not line or line.startswith("#")`; `Unchanged` states that such lines are copied |
| FixMod.IsModLine | Fix_mod_upos.py:15-31 | defines the lines `count` counts: not blank, not a comment, 10 columns, UPOS `MOD`; `Unchanged`, `Retagged` and `ModCountOne` state what happens to them |
| FixMod.NewXpos | Fix_mod_upos.py:34 | defines the XPOS written into a retagged line, `MOD` for `_` and the old value otherwise; `Retagged` states it |
| FixMod.Fixed | Fix_mod_upos.py:7-36 | defines `out_lines`, one rewritten line per input line; `FixModUpos` is proved equal to it, and `FixedAt` and `LinesIdempotent` state its properties |
| FixMod.FixedLine | Fix_mod_upos.py:15-36 | defines the line written for an input line: blank, comment and non-10-column lines as they are, a `MOD` line with UPOS `AUX` and XPOS rewritten, others re-joined from their columns; `Unchanged`, `Retagged` and `LineIdempotent` state its behaviour |
| FixMod.FixModUpos | Fix_mod_upos.py:6-39 | one output line per input line, in order, each being `FixedLine` of its input; the count is `ModCount` of the input lines; the output text is the lines joined by newlines plus a final newline |
| FixMod.FixedAt | Fix_mod_upos.py:10-36 | the rewrite of a list of lines has the same length, and line i is the rewrite of input line i |
| FixMod.Unchanged | Fix_mod_upos.py:15-36 | a line comes out byte-for-byte unchanged exactly when it is not a 10-column, non-blank, non-comment line with UPOS `MOD` |
| FixMod.Retagged | Fix_mod_upos.py:19-36 | a rewritten line has 10 columns, UPOS `AUX`, XPOS `MOD` if it was `_` and unchanged otherwise, and every other column unchanged |
| FixMod.RetaggedStart | Fix_mod_upos.py:19-36 | a rewritten line keeps its first character |
| FixMod.LineIdempotent | Fix_mod_upos.py:31-36 | no output line is rewritable, so rewriting a line twice is rewriting it once |
| FixMod.FixedNoNewline | Fix_mod_upos.py:12-36 | a line without a newline is rewritten to one without a newline |
| FixMod.LinesIdempotent | Fix_mod_upos.py:10-36 | rewriting rewritten lines changes nothing and counts 0 |
| FixMod.TextIdempotent | Fix_mod_upos.py:6-39 | running the script on its own output text writes the same text and reports 0 replacements |
| FixMod.ModPairs | Fix_mod_upos.py:31-32 | a sentence has at most as many `MOD` pairs as pairs |
| FixMod.ModTotal | Fix_mod_upos.py:31-32 | defines the number of pairs of a corpus tagged `MOD`; `ConverterOutputRetagged` and `ConverterFileRetagged` make it the rewriter's count on the converter's output |
| FixMod.ModCountAppend | Fix_mod_upos.py:31-32 | the count over two runs of lines is the sum of the counts |
| FixMod.ModCountOne | Fix_mod_upos.py:31-32 | one line counts 1 exactly when it is rewritten |
| FixMod.TokenLineRetagged | Fix_mod_upos.py:15-32 | a converter token line is rewritten exactly when its tag is `MOD` |
| FixMod.TokenLinesRetagged | Fix_mod_upos.py:15-32 | the rewriter counts a sentence's `MOD` pairs among its token lines |
| FixMod.BlockRetagged | Fix_mod_upos.py:15-32 | in a converter block, the comment and the blank line are never counted, and the token lines count the `MOD` pairs |
| FixMod.ConverterOutputRetagged | Fix_mod_upos.py:10-36 | on the converter's CoNLL-U lines the count is the number of pairs tagged `MOD` |
| FixMod.ConverterFileRetagged | Fix_mod_upos.py:6-39 | on the converter's CoNLL-U text the count is the number of pairs tagged `MOD` |
| Text.Split | Fix_mod_upos.py:19 | `split('\t')` gives at least one part, and no part contains the separator |
| Text.IsSpace | DatasetConverter.py:49-53 | defines `str.isspace` as CPython's set of whitespace characters, which `strip()` and `split()` use; `Strip` and `Words` state what it separates |
| Text.Join | Fix_mod_upos.py:36 | defines `sep.join(parts)`; `JoinSplit` and `SplitJoin` make it the inverse of `Split` |
| Text.JoinSplit | Fix_mod_upos.py:19-36 | joining the parts of a split gives back the line |
| Text.SplitJoin | Fix_mod_upos.py:19-36 | splitting a join of separator-free parts gives back the parts |
| Text.Strip | DatasetConverter.py:49 | `strip()` is empty exactly for an all-whitespace line; otherwise it neither starts nor ends with whitespace; it is a slice with only whitespace cut off |
| Text.Words | DatasetConverter.py:53 | `split()` gives only non-empty, whitespace-free items, and at least one for a line that starts with a non-space |
| Text.WordsOfJoin | DatasetConverter.py:53 | non-empty whitespace-free items joined by single spaces split back into the same items |
| Text.LastIndexOf | DatasetConverter.py:35 | the index of the last `/`: that character is `/` and none follows it |
| Text.NatToString | DatasetConverter.py:75 | `str(n)` is non-empty, all digits, and has no leading zero except for 0 |
| Text.NatToStringRoundTrip | DatasetConverter.py:75 | the digits of `str(n)` read back as n |
| Text.DigitsValue | DatasetConverter.py:75 | defines the number a digit string denotes, as `int(s)` reads it; `NatToStringRoundTrip` shows it reading back `str(n)` |
| Text.StrLeqTotal | Data-Statistics.py:41 | Python's string order compares any two strings |
| Text.StrLeqAntisymmetric | Data-Statistics.py:41 | two strings each no greater than the other are equal |
| Text.StrLeqTransitive | Data-Statistics.py:41 | Python's string order is transitive |
| Text.StrLeq | Data-Statistics.py:41 | defines Python's `<=` on strings, by code point with a prefix first; `StrLeqTotal`, `StrLeqAntisymmetric` and `StrLeqTransitive` make it a total order |
| Text.FileLines | Fix_mod_upos.py:10-12 | the lines of a text file, without their newline, contain no newline |
| Text.FileLinesOfWritten | Fix_mod_upos.py:39 | newline-free lines, joined by newlines with a final newline, read back as the same lines |

## Left out

- File I/O, `Path` handling, `mkdir`, the hard-coded paths, and the `DATA_PATH.exists()` test. Each script's input is a list of lines (or, for the rewriter, a text), and its output is the value the method returns.
- All console printing, including the rewriter's "Malformed line" diagnostic and the summary prints.
- `json.dumps` and `ensure_ascii=False`. `WriteJsonl` returns the records (`sent_id`, `tokens`, `upos`), not their JSON text.
- The report itself: the floating-point values (density, TTR, the `+` percentage, `statistics.median`), `max`/`min` of `sentence_lengths`, the f-string widths and precisions, and the crashes these cause when no pair is accepted: `max`/`min` fail on an empty `sentence_lengths`, and `plus_sign_tokens / total_pairs` divides by zero whenever `total_pairs` is 0, also on a non-empty file none of whose items is accepted. The TTR bound is stated with integers: 1 <= distinct <= count.
- `Counter.most_common(5)`: its tie-breaking depends on library details.
- `SystemExit` on an empty corpus in the converter's driver; the driver (`main`) is not modelled.
- Newline translation in text-mode reading, and the text encoding. Text is a sequence of characters, and only `\n` ends a line. Python's text mode also turns `\r\n` into `\n` and ends a line at a lone `\r`, so a line holding a lone `\r` is one line in the model but two in the scripts.
- `IsSpace` is CPython's `str.isspace` set at one Unicode version; another version may differ at a few code points.
- Text.FileLines: models iterating over a file plus `rstrip("\n")` by splitting on `\n` and dropping the empty piece after a final newline. In `DatasetConverter.py` and `Data-Statistics.py` lines arrive already split, and `strip()` removes any terminator there.
- Statistics.CollectStats: the counters are values that the loop replaces, not dicts updated in place; a `defaultdict` lookup that would insert an empty counter for a missing tag never happens, because the table only looks up tags that are present.
- Statistics.CountItems: the inner loop over the items of a line is a method of its own. Converter.ParseItems is the same for `read_sentences`.
