# Tiny search engine: index, indexer and querier

These modules model the non-I/O core of a small C search engine (the "tiny search
engine"). The engine has three parts:

- **Word normaliser.** `normalizeWord` lowers the letters of a word in place.
- **Index engine.** The inverted index maps each word to a posting list. A posting
  list is a counters object that maps a document id to a count. The engine adds,
  updates and looks up postings. It also writes the index as text, one row per word,
  and reads it back.
- **Indexer.** It reads the documents of a crawler directory from document id 1 upward
  and adds each word of three or more characters to the index.
- **Querier.** It checks and tokenizes a query line and validates the tokens. It then
  evaluates the query: "and" and juxtaposition mean intersection (the smallest count),
  and "or" means union (the sum of counts). Finally it ranks the matching documents by
  score with a linked-list insertion sort and prints those whose URL can be read.

Modules, in dependency order:

- `Wrappers`: Option.
- `CLib`: the C library functions the code relies on, including `strncmp`, `atoi`,
  `"%d"` printing and `isspace`/`isalpha`/`tolower`.
- `Split`: splitting a string into fields at separator characters.
- `Word`: `normalizeWord`.
- `Counters`: the counters object, with `counters_get` defaulting to 0, and a choice
  of some key, standing in for iteration.
- `IndexTable`: the index content as a `map<string, map<int, int>>`, with adding and
  updating.
- `IndexFormat`: the index file format. The writer is `printIndexRow`/`printCounter`.
  The reader is `indexLoad`'s line loop as a function of the file's lines. The
  round-trip is proved here.
- `PageDir`: a crawler directory, seen only through `pageDirLoad` and `getPageUrl`.
- `IndexEngine`: the `index_t` object as a class whose `table` field the methods
  update, with `getWordInLine`, `indexLoad` and `indexSave`.
- `Indexer`: `indexPage` and `indexBuild`.
- `QueryParse`: the character check, `tokenize`, `isOP` and `validateQuery`.
- `QueryEval`: the counters callbacks (`copyIter`, `countersIntersect`,
  `countersUnion`), the and-blocks of a query and the score of each document.
- `QueryRank`: `sortIterate` and `sortPrint`. The `lnode_t` list is a sequence of
  nodes, head first.
- `Querier`: `query` and `readParse`.

Imperative code stays imperative. This covers the in-place normaliser over an array,
the index as a class with `modifies` clauses, and the tokenizer writing into an
`array` of optional strings. It also covers the loops of `indexLoad`,
`getWordInLine`, `query`, the counters callbacks and `sortIterate`. Each of these
is proved against a function of its inputs, and the properties are proved about
those functions.

Behaviours of the code that are easy to miss, which the model keeps:

- `indexUpdate`, unlike `indexAdd` and `indexFind`, does not normalise its word, and
  the model follows the code.
- `isOP` compares prefixes, so "order" and "andes" are operators.
- The evaluator's "and" test compares only the two characters "an".
- The tokenizer never emits a word that starts at the last character of a line. A
  word closed by a single trailing white-space character keeps that character.

## Model

| member | source | states |
|---|---|---|
| Word.NormalizeWord | common/word.c:17-28 | -1 for a NULL word; otherwise 0, and the buffer holds the lower-case form of its old content, with the same length |
| Word.LowerAt | common/word.c:21-26 | normalising keeps the length; each letter becomes lower case (upper case moves by 32) and every other character stays as it was |
| Word.LowerIdempotent | common/word.c:23-25 | normalising a normalised word changes nothing |
| Word.LowerHasNoUpper | common/word.h:12-16 | a normalised word holds no upper-case letter |
| Word.LowerKeepsSeparators | common/word.c:23-25 | normalising leaves every non-letter separator where it was, so a word without separators stays without them |
| CLib.StrNCmpPrefix | querier/querier.c:486 | `strncmp` of n characters of a literal against a word is 0 exactly when the word begins with those n characters, in either argument order |
| CLib.AtoiOfDecimal | common/index.c:164-174 | `atoi` of what `"%d"` printed for a non-negative number gives the number back |
| CLib.NewCString | common/index.c:283-287 | a fresh buffer holding exactly the given characters |
| IndexTable.AddedLookup | common/index.c:68-95 | after adding (w, d) the count at (w, d) is one more than before (0 when absent) and every other count is unchanged; the word set gains w |
| IndexTable.AddedWellFormed | common/index.c:68-95 | adding keeps every word with at least one posting, with document ids and counts of at least 1 |
| IndexTable.UpdatedLookup | common/index.c:113-137 | after updating (w, d) to f the count there is exactly f and every other count is unchanged; the word set gains w |
| IndexTable.UpdatedWellFormed | common/index.c:113-137 | updating with d >= 1 and f >= 1 keeps the index well formed |
| IndexEngine.IndexInit | common/index.c:60-64 | NULL exactly when the size is not positive; otherwise a new, empty index |
| IndexEngine.IndexAdd | common/index.c:68-95 | -1 with nothing changed for a NULL index or word or a docID below 1; otherwise 0, the word is normalised in place and the index gains one occurrence of the normalised word in docID |
| IndexEngine.IndexFind | common/index.c:99-109 | NULL for a NULL index or word; otherwise the word is normalised in place and its posting list is returned, NULL when the word is absent |
| IndexEngine.IndexUpdate | common/index.c:113-137 | -1 with nothing changed for a NULL index or word, a docID below 1 or a freq below 1; otherwise 0 and the count of the word, not normalised, in docID becomes freq |
| IndexEngine.GetWordInLine | common/index.c:259-290 | NULL when pos is outside the line or only separators remain, with pos moved to the line's end in the latter case; otherwise a non-empty token without space or newline, ending where pos now stands, before a separator or the end; the token is the first field of the rest of the line and pos advances strictly |
| IndexEngine.IndexLoad | common/index.c:141-189 | NULL exactly when the file's lines make the reader fail; otherwise a new index holding what the line loop computes |
| IndexEngine.ReadPairs | common/index.c:161-182 | the pair loop of one line records the docID/count pairs of the rest of the line as the reader function says |
| IndexEngine.PrintRow | common/index.c:228-236 | what `printIndexRow` writes for one word: the row of the word with its postings listed once each, in some order |
| IndexEngine.IndexSave | common/index.c:203-220 | nothing for a NULL index; otherwise one row per word, each word once and each posting once, in some order |
| IndexEngine.SaveThenLoad | indexer/indextest.c:54-71 | loading, saving and loading again gives an index with the same words and counts as the first load |
| IndexFormat.CountersTextFields | common/index.c:245-250 | the printed postings split back into their decimal docID and count tokens, with no newline inside |
| IndexFormat.RowLineFields | common/index.c:228-236 | a row splits back into its word followed by the tokens of its postings |
| IndexFormat.SplitSaved | common/index.c:228-236 | reading the saved text line by line gives back the rows' lines, one per row |
| IndexFormat.LoadFailsIff | common/index.c:155-159 | loading fails exactly when some line has no first token |
| IndexFormat.LineKeepsEarlierPairs | common/index.c:160-176 | when a docID or count token is missing or reads below 1, the line stops there and keeps every pair before it, in order, whatever the spelling of their tokens as long as `atoi` reads them as at least 1 |
| IndexFormat.LeadingZeroPairKept | common/index.c:164-177 | the line "dog 01 2 x" records docID 1 with count 2 for "dog": `atoi` reads "01" as 1, and the lone token "x" ends the line |
| IndexFormat.ApplyPairTokens | common/index.c:161-182 | the pairs of a line set their postings of the line's word, later pairs winning, before the rest of the line is read |
| IndexFormat.ApplyTokensInvariant | common/index.c:161-182 | reading one line keeps the index well formed and adds no word but the line's first token |
| IndexFormat.LoadedWellFormed | common/index.c:141-189 | a loaded index is well formed and holds only non-empty words without separators |
| IndexFormat.LoadRows | common/index.c:141-189 | loading the lines of distinct rows adds exactly their words with the postings they list |
| IndexFormat.SaveLoadRoundTrip | common/index.c:228-250 | the text saved for a well-formed index, in any row and posting order, loads back as the same index |
| Indexer.IndexPage | indexer/indexer.c:164-175 | nothing changes for a NULL page or index or a docID below 1; otherwise each word of the page of three or more characters is added, normalised, in order |
| Indexer.AddWordsLookup | indexer/indexer.c:169-173 | after indexing a page the count at (w, d) rises, in the page's own document only, by the number of long words of the page that normalise to w |
| Indexer.AddWordsKeys | indexer/indexer.c:169-173 | indexing a page keeps the index well formed and adds no word that is not a normalised long word of the page |
| Indexer.ShortWordsIgnored | indexer/indexer.c:171 | words of fewer than three characters leave no trace: indexing only the long words gives the same index |
| Indexer.FirstMissing | indexer/indexer.c:141-146 | the document id where the scan stops: the first one from the start whose file is missing |
| Indexer.ScanFromLookup | indexer/indexer.c:141-149 | the counts after a scan from d0: a document before the first missing file whose page loads contributes its long words, any other contributes nothing |
| Indexer.BuiltLookup | indexer/indexer.c:133-160 | the built index counts, for each document before the first missing file whose page loads, the long words of that page, and nothing for a document that fails to load or comes after the gap |
| Indexer.IndexBuild | indexer/indexer.c:133-160 | returns 0 and saves, one row per word and each posting once, the index of every document from id 1 up to the first missing file (a page that fails to load adds nothing) |
| QueryParse.CheckLine | querier/querier.c:365-373 | the line is accepted exactly when every character is white space or a letter |
| QueryParse.Tokenize | querier/querier.c:421-453 | -1 for a NULL list; otherwise 0, the normalised tokens fill the list from slot 0 in order, no other slot changes, and there are at most strlen/2 tokens |
| QueryParse.IsOp | querier/querier.c:481-487 | NULL is no operator |
| QueryParse.IsOpPrefix | querier/querier.c:486 | a word is an operator exactly when it begins with "and" or "or" |
| QueryParse.ValidateQuery | querier/querier.c:456-478 | false exactly when the first or the last token is an operator or two adjacent tokens both are; the message is the corrected one, which names the operator that broke the rule (see Findings) |
| QueryParse.AdjacentFrom | querier/querier.c:468-475 | the first position where an operator follows an operator, or none |
| QueryParse.RejectionIff | querier/querier.c:460-477 | a query is rejected exactly when it is invalid; the first test applies first, then the last, then the leftmost adjacent pair |
| QueryParse.MessageNamesOperators | querier/querier.c:460-473 | the intended messages name only operators, and name the rule broken |
| QueryParse.LastMessageMisnames | querier/querier.c:463-465 | for "cat and" the message as written blames "cat", which is no operator, while "and" broke the rule |
| QueryEval.CopyCounters | querier/querier.c:570-575 | a copy holds exactly the entries whose key and count are not negative; a NULL source gives an empty copy |
| QueryEval.CopyOfNonNegative | querier/querier.c:570-575 | a copy holds no negative entry, and a counters object without negative entries copies as itself |
| QueryEval.IntersectInto | querier/querier.c:490-498 | every key of the left operand stays and takes the smaller of its two counts, 0 when the other lacks it |
| QueryEval.UnionInto | querier/querier.c:501-509 | each non-negative entry of the next counters adds its count into the result, and only non-zero sums are written |
| QueryEval.OperatorKinds | querier/querier.c:317-320 | every operator passes the "or" test or the "and" test, and passes the "or" test exactly when it begins with "or" |
| QueryEval.ExplicitAnd | querier/querier.c:274-294 | an explicit "and" between words means what leaving it out means |
| QueryEval.OrSplits | querier/querier.c:317-319 | an "or" splits the query: the blocks of the whole are those before it followed by those after it |
| QueryEval.ValidBlocksNonEmpty | querier/querier.c:456-478 | in a valid query every and-block holds at least one word |
| QueryEval.MinCountIsMin | querier/querier.c:490-498 | the count a block gives a document is the smallest over its words' counts, and some word has exactly that count |
| QueryEval.BlockValueSpec | querier/querier.c:272-327 | an and-block keeps exactly the documents of its first word, each with the smallest count over the block's words (0 when some word lacks it) |
| QueryEval.ScoreOfAt | querier/querier.c:330-339 | a document scores exactly when its total over the blocks is positive, and scores that total |
| QueryEval.SeqSumPermutation | querier/querier.c:330-339 | totals do not depend on the order of the blocks |
| QueryEval.ScoreOfPermutation | querier/querier.c:330-339 | the scores do not depend on the order in which the bag hands out its blocks |
| QueryEval.UnionStepScore | querier/querier.c:334-338 | one more union step gives the scores of the longer sequence of blocks |
| QueryEval.EvaluateAt | querier/querier.c:266-339 | a document's score is the sum over the blocks of its smallest count among the block's words, over the blocks whose first word occurs in it; it is listed exactly when that sum is positive |
| QueryRank.InsertSortedSpec | querier/querier.c:552-566 | inserting keeps the list sorted by non-increasing score, after every greater score and before every equal or smaller one |
| QueryRank.InsertSortedAdds | querier/querier.c:539-567 | inserting adds exactly the new entry |
| QueryRank.SortIterate | querier/querier.c:539-567 | an entry with a negative key or score changes nothing; any other is counted and inserted at the first node whose score is not greater |
| QueryRank.FirstAtMost | querier/querier.c:554-565 | the insertion point: every node before it has a greater score and the node at it, if any, does not |
| QueryRank.RankStep | querier/querier.c:517-521 | offering one more entry keeps the list sorted, holding each accepted entry once, with count its length |
| QueryRank.PrintedSound | querier/querier.c:525-529 | only nodes of the list are printed, each with the URL found for it |
| QueryRank.PrintedComplete | querier/querier.c:525-529 | every node whose URL is found is printed; the others are skipped and the listing goes on |
| QueryRank.PrintedOrdered | querier/querier.c:525-534 | the printed scores never increase |
| QueryRank.PrintNodes | querier/querier.c:525-534 | the listing holds one line per node whose URL is found, in list order |
| QueryRank.SortPrint | querier/querier.c:512-536 | the list is a ranking of the scores' accepted entries; the match count is printed; -1 for an empty list, otherwise 0 and the listing |
| Querier.BagExtract | querier/querier.c:334 | some item of a non-empty bag |
| Querier.FindCopy | querier/querier.c:297-316 | the copy of the word's normalised posting list; the index is only read |
| Querier.QuerySize | querier/querier.c:246 | the number of words before the list's NULL, and those words |
| Querier.FirstStepOr | querier/querier.c:272-319 | after "w1 or w2" the bag holds w1's copy and prev is w2's copy |
| Querier.FirstStepAndOp | querier/querier.c:272-326 | after "w1 and w2" prev is the intersection of their copies |
| Querier.FirstStepAndWord | querier/querier.c:278-326 | after "w1 w2" prev is the intersection of their copies |
| Querier.FirstStepAlone | querier/querier.c:282-319 | a one-word query leaves its copy in the bag and prev NULL |
| Querier.StepOr | querier/querier.c:287-319 | an "or" puts the finished block's value into the bag and starts a new block |
| Querier.StepAndOp | querier/querier.c:287-326 | an "and" intersects the block being built with the next word's copy |
| Querier.StepAndWord | querier/querier.c:291-326 | a bare word intersects the block being built with its copy |
| Querier.Finished | querier/querier.c:330 | when the tokens run out, the bag and prev together hold the value of every block |
| Querier.CollectBlocks | querier/querier.c:266-330 | the bag ends up holding the value of every and-block of the query |
| Querier.UnionBag | querier/querier.c:332-339 | unioning the bag's items in any order gives the query's scores |
| Querier.Query | querier/querier.c:235-351 | -1 for a NULL index or list; no words give 0 and no output; an invalid query gives -1 and the corrected validateQuery message (see Findings); otherwise 0 and a ranking of the query's scores as sortPrint prints it |
| Querier.EchoQuery | querier/querier.c:395-399 | the echoed line is the header, then every token followed by a space, then a newline |
| Querier.AnswerLine | querier/querier.c:365-402 | a line with a character that is not white space or a letter gives "Invalid query"; any other is echoed in normalised form and answered by query |
| Querier.ReadParse | querier/querier.c:356-410 | nothing for a NULL index; otherwise a prompt before every line, each line answered as above, and a final prompt and newline |

## Findings

| source | as written | input that shows it | evidently intended | confidence | as-written member | corrected member |
|---|---|---|---|---|---|---|
| querier/querier.c:463-465 | the message for an operator in last position prints `query[0]` | the query "cat and" prints "'cat' cannot be last" | print `query[querySize - 1]`, the operator that broke the rule: "'and' cannot be last" | high; not executed | QueryParse.LastMessageMisnames (on QueryParse.ValidateMessageAsWritten) | QueryParse.MessageNamesOperators (on QueryParse.ValidateMessage, which QueryParse.ValidateQuery and Querier.Query use) |

## Left out

- File and terminal I/O are parameters. A file is its sequence of lines. The text a
  function prints is its string result. The index is read from `lines`. The query
  lines come from `lines`, and `interactive` stands for `isatty`.
- `fopen`, `fclose`, `file_readLine` and the `"-"` (stdout) choice of `indexSave` are
  not modelled. `indexLoad`'s empty `fp == NULL` branch is not modelled either.
- `main` and `parseArgs` of every program are left out, along with `logMessage` and
  `printErrorMessage`, whose output is debug output compiled in only for testing.
- The crawler, the file system side of `pagedir.c`, and the webpage, hashtable,
  counters, bag, file and mem libraries are not part of this model. A crawler
  directory is a map from document id to what `pageDirLoad` and `getPageUrl` take
  from the file. A counters object is a `map<int, int>` read with default 0. The
  hashtable is a map. A bag is a multiset that hands out any item.
- Iteration order of the hashtable and counters is not modelled. Every iterating loop
  takes some remaining key. Each property is proved for every order.
- Allocation failures (`calloc`, `counters_new`, `bag_new` and `hashtable_insert`
  returning failure) are not modelled. Neither are `free`, the memory leaks on
  abort paths, or `indexDelete`.
- Integers are unbounded. `int` overflow, `atoi` past `INT_MAX`, and the
  `(int) log10(docID)` file-name buffer are not modelled.
- QueryParse.ValidateQuery, Querier.Query, Querier.AnswerLine, Querier.ReadParse: when
  the last token is an operator, the message these produce names that last token. The
  code prints the first token there instead (see Findings). The model uses the
  corrected message, and `QueryParse.ValidateMessageAsWritten` keeps the message as
  written.
- One Dafny `char` stands for one C `char` (a byte). `strlen` counts characters, so
  the `>= 3` test of `indexPage` and the `strlen / 2` bound of `tokenize` count bytes.
  `isspace`, `isalpha` and `tolower` are the ASCII classes of the C locale. Multi-byte
  encodings and other locales are not modelled.
- Strings hold no NUL character. C strings end at the first NUL, and the lines and
  words here have none.
- Tokenize: the NULL check on the line is not modelled, since a line is always a
  value. The list is an `array` of `Option<string>`, with `None` for NULL.
- Query, SortPrint, ReadParse and IndexBuild: the NULL `pageDir`, `scores` and
  `indexFile` argument checks are not modelled, since these are values here.
- Querier.FindCopy: `indexFind` normalises the list's own entry in place. The model
  normalises a fresh copy holding the same characters. The entries are already in
  normal form, so the list and the result are the same.
- Querier.CollectBlocks: the C code intersects the counters `prev` refers to in place.
  The model reassigns `prev` to the intersection, so the aliasing between `prev` and
  the bag is not modelled.
- QueryRank.SortIterate: the linked list of `lnode_t` is a sequence of entries, so
  node links and the do-while walk's aliasing are not modelled.
- IndexEngine.ReadPairs, IndexEngine.PrintRow, QueryRank.PrintNodes,
  Querier.QuerySize, Querier.CollectBlocks, Querier.UnionBag, Querier.EchoQuery and
  Querier.AnswerLine are the inner loops of longer C functions. Each is written as a
  method of its own, and its caller runs it where the C code runs the loop.
