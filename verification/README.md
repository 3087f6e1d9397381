# Models of Meilisearch components

This project models seven self-contained parts of the Meilisearch workspace and proves what they
guarantee: the filter language parser, the search permit queue, the LRU cache of open indexes, the
flattening of documents with its fast pre-check, the virtual-memory budget, the inverted index of API
keys, and two maintenance tasks of the task database.  `dafny verify dfyconfig.toml` checks everything.

## What is modelled

**Filter parser** (`FilterSyntax`, `FilterLexer`, `FilterParser`). The parser is written as functions
from the remaining input to nom's outcome: `Ok` with what remains, a backtrackable `Error`, a final
`Failure`, or `Incomplete`. Every alternative of `parse_primary` is tried in the order of the source,
`cut` turns errors into failures where the source does, and the depth argument is passed on exactly as
in the source. That the functions are accepted at all shows that every parse terminates. The scanning
loop of `quoted_by` is a method proved equal to the function the parser uses. A token is the string its
`value()` returns. The flag `collapse` is true for the parser of the source; with `collapse` false the
same parser keeps every `NOT` as a node, which gives the reference tree for the meaning of a filter.

Two things come from outside the repository and are parameters of the parser (`Env`): the Unicode
alphanumeric table and the `unescaper` crate. All that is assumed of them is `Env.Valid`: the table is
right on ASCII and contains no white space, and the crate undoes the doubling of backslashes and leaves
ordinary characters alone. `ValidEnvironmentExists` shows that this can be met. The results on normal
form, meaning and `fids` assume nothing. The floats of geo filters follow the grammar of nom's
`recognize_float`: a sign, digits with a fraction or a fraction alone, and an exponent that needs
digits.

`FilterQuoting`, `FilterGeo`, `FilterPrinter` and `FilterRoundTrip` print filters and follow the parser
through the printed text. A `Style` lays the text out: the quote, the spaces where some are needed, the
spaces where none are needed, and a comma at the end of lists. The central statement is `SyntaxParses`:
in every style, for every text built from conditions and geo filters (in all their forms), parentheses,
`NOT`, `AND` and `OR`, the parser returns the tree the text stands for if and only if the depth the text
needs is at most 200, and the depth-limit error otherwise. `FilterReparse` shows that every tree the
parser returns, for any input, can be printed and read again, `FilterValues` is about values in any
form, and `FilterErrors` about what is rejected, and how.

`FilterGrammar` defines the texts of the documented grammar and their trees without the parser, and
`FilterSound` shows that the parser accepts nothing else: every accepted input is written as the grammar
allows, up to its end, and the tree is the one it stands for.

**Search permit queue** (`SearchQueue`). The loop is a class with one method for each branch of its
`select!`; the methods are tied to functions on the queue and the counter. Around the loop a state
machine tracks live permits and releases in flight. An explicit `Permit::drop` is followed by the
implicit one and therefore sends two releases; both steps are modelled. The random queue position is a
parameter of the steps. Safety does not use the bias of the `select!`: any pending branch may go next.
The parallelism is no bound of the live permits: a release grants a waiter without counting it, and an
explicit drop sends two releases. `ParallelismBoundsPermitsIff` states exactly when it is one, with and
without the bias.

**LRU cache** (`Lru`). `LruMap` is a class over a vector of stamped cells, with the linear scans and
`swap_remove` of the source, proved to implement a list ordered by recency. For concurrent `get`s the
taking of a ticket and its store are two transitions; `ReadConcurrently` carries them out on the cache
in any order. What the list means is also stated by the history of operations: last uses and last
writes.

**Flattening** (`Json`, `DepthChecker`, `Flatten`, `FlattenPaths`, `FlattenUnchanged`). The traversal is
a class whose methods update the map and the list of entries in place; its meaning is given by the
scalars reached at each path. The byte scanner is a loop proved equal to a function, which is then
compared with the check on values through the serializer. A JSON string is a byte string, a byte being
written as the character with its code. Objects are lists of fields in iteration order; the result of
`flatten` is a map. `FlattenPaths` says what a path of the result holds by following the path through
the nested document, and `FlattenUnchanged` exactly when flattening changes nothing and when it is
idempotent.

**Virtual-memory budget** (`Budget`). The bisection and the arithmetic of `index_budget`, with the
predicate that tells which sizes can be opened as a parameter.

**API keys** (`ApiKeys`, `AuthStore`). The two databases are maps, the second one with byte-string keys;
prefix scans visit the matching entries in an arbitrary order, so the results hold for the order of the
database too. The current time is a parameter. A ghost field lists the keys that still have entries:
`delete_all_keys` clears the keys but not the index, so answers are stated for every key id by its last
record.

**Task database** (`TaskDatetimes`, `IndexSwaps`). The timestamp index and the swapping of index names
in tasks. The contents of a task other than index names are opaque.

`hide` statements in proofs only keep definitions that are not needed away from the solver.

## Where the code and its documentation differ

- The gauge titled "Meilisearch Searches Running" (crates/meilisearch/src/metrics.rs:57-58) shows a number
  that the loop does not publish on turns that grant a permit at once. `FirstSearchIsNotPublished` is a run on
  which it differs from the loop's counter, and `PublishedLags` states by how much it lags and when it does not.
- `keep_ids_within_datetimes` does not look at the index when there is no bound; `KeepIdsWithin` states
  both cases.
- The grammar at the head of `lib.rs` asks for a space after every value and after `AND`, `OR` and `NOT`; the
  parser asks for none, and `FilterGrammar` follows the parser.

## Model

| member | source | states |
|---|---|---|
| FilterSyntax.FidsComplete | crates/filter-parser/src/lib.rs:182-200 | `fids` with a depth no less than the height of the tree lists every field of a condition or `IN`, left to right |
| FilterLexer.WhitespaceTable | crates/filter-parser/src/value.rs:86-86 | the characters skipped in front of a value are the 25 of the Unicode White_Space property |
| FilterLexer.ScanQuotedText | crates/filter-parser/src/value.rs:22-52 | the loop with its `escaped` flag returns the text up to the first unescaped quote, with escaped quotes replaced if there were any, or the error on a dangling backslash |
| FilterQuoting.ScanEscaped | crates/filter-parser/src/value.rs:29-46 | the scan passes over an escaped text exactly and reports whether a quote was escaped in it |
| FilterQuoting.UnescapeQuoteOfEscape | crates/filter-parser/src/value.rs:16-19 | the naive replacement of backslash-quote by quote, applied to an escaped text, leaves the text with only its backslashes doubled |
| FilterQuoting.QuotedByEscaped | crates/filter-parser/src/value.rs:22-52 | scan and replacement together return the string with doubled backslashes, and stop at the closing quote |
| FilterQuoting.QuotedValueRoundTrip | crates/filter-parser/src/value.rs:84-181 | for every string and either quote, the escaped and quoted string is read back as the string, with nothing of the literal left over |
| FilterQuoting.UnclosedQuote | crates/filter-parser/src/value.rs:140-146 | without its closing quote the same text is a final error |
| FilterPrinter.PhrasesDiffer | crates/filter-parser/src/condition.rs:71-169 | none of the ten keyword phrases can be taken for another one, whatever follows |
| FilterPrinter.BareValueIff | crates/filter-parser/src/value.rs:55-65 | a bare word that does not start with an underscore is read back as it is, whatever ends it, if and only if it is not a keyword; else it is a backtrackable error |
| FilterPrinter.KeywordIsNotValue | crates/filter-parser/src/value.rs:55-65 | a reserved word is a backtrackable error where a value is expected, whatever ends the word |
| FilterPrinter.ValueListParses | crates/filter-parser/src/lib.rs:246-259 | a list of values of any length, the empty one included, with any spaces and with or without a comma at the end, is read back up to its bracket |
| FilterPrinter.InBodyParses | crates/filter-parser/src/lib.rs:262-290 | `IN` with its list is read back |
| FilterPrinter.ComparisonLeafParses | crates/filter-parser/src/condition.rs:53-68 | the six comparisons are read back as themselves although `<` and `>` are prefixes of `<=` and `>=` |
| FilterPrinter.PhraseLeafParses | crates/filter-parser/src/condition.rs:71-114 | `IS NULL`, `IS EMPTY`, `EXISTS` and their negated forms are read back, the negated ones as negations |
| FilterPrinter.TextLeafParses | crates/filter-parser/src/condition.rs:117-170 | `CONTAINS`, `STARTS WITH` and their negated forms are read back after the earlier alternatives have failed without being final |
| FilterPrinter.BetweenLeafParses | crates/filter-parser/src/condition.rs:173-178 | `from TO to` is read back with its bounds in order |
| FilterPrinter.InLeafParses | crates/filter-parser/src/lib.rs:293-309 | `IN` and `NOT IN` are read back, the latter as a negation |
| FilterPrinter.GeoLeafParses | crates/filter-parser/src/lib.rs:372-421 | both geo filters are read back by the ordered alternatives |
| FilterPrinter.LeafParses | crates/filter-parser/src/lib.rs:481-518 | every condition, `IN` and geo filter, in every form and style and whatever follows it, is read back by the ordered alternatives |
| FilterValues.QuotedBodyIff | crates/filter-parser/src/value.rs:140-181 | any text between quotes, after any spaces, is a value if and only if it can be unescaped; else what is wrong decides between an incomplete input and an error |
| FilterValues.BareWordIff | crates/filter-parser/src/value.rs:84-181 | every bare word, whatever ends it, is read back if and only if it is not reserved |
| FilterValues.BarePhrase | crates/filter-parser/src/condition.rs:71-106 | after a field, the only keyword phrase a bare word can be taken for is `EXISTS`, and exactly if the word starts with it |
| FilterValues.BareBetweenIff | crates/filter-parser/src/condition.rs:173-178 | a range whose lower bound is a bare word is read back if and only if the bound does not start with `EXISTS` |
| FilterRoundTrip.UnaryParses | crates/filter-parser/src/lib.rs:354-368 | at any depth, `NOT`s, parentheses and leaves are parsed to their tree if and only if the depth suffices, and to the depth error otherwise |
| FilterRoundTrip.ParenParses | crates/filter-parser/src/lib.rs:481-495 | the same for a parenthesised expression, which costs one level more than its content |
| FilterRoundTrip.AndParses | crates/filter-parser/src/lib.rs:332-349 | the same for conjunctions of any length |
| FilterRoundTrip.OrParses | crates/filter-parser/src/lib.rs:312-329 | the same for disjunctions of any length |
| FilterRoundTrip.SyntaxParses | crates/filter-parser/src/lib.rs:312-528 | every well-formed text, in every style, is parsed to the tree it stands for if and only if the depth it needs is at most 200, else the depth limit is reported |
| FilterRoundTrip.ToSyntaxFaithful | crates/filter-parser/src/lib.rs:312-368 | the printed form of a tree in normal form stands for that tree and needs the depth `Budget` gives |
| FilterRoundTrip.PrintParseRoundTrip | crates/filter-parser/src/lib.rs:312-528 | every tree in normal form whose geo arguments are floats, printed in any style with parentheses and quoted values, is parsed back to itself if and only if its nesting fits the depth budget |
| FilterRoundTrip.NestedParentheses | crates/filter-parser/src/lib.rs:481-523 | n nested parentheses around a condition are accepted if and only if 4n + 3 <= 200, else the depth limit is reported |
| FilterRoundTrip.NestedNots | crates/filter-parser/src/lib.rs:354-368 | n leading `NOT`s are accepted if and only if n + 3 <= 200, and cancel in pairs |
| FilterShape.OrShape | crates/filter-parser/src/lib.rs:312-329 | for every input and depth: normal form, same outcome and truth value as without collapsing, and at most three tree levels for four levels of recursion |
| FilterShape.AndShape | crates/filter-parser/src/lib.rs:332-349 | the same for conjunctions |
| FilterShape.NotShape | crates/filter-parser/src/lib.rs:354-368 | the same for `NOT`; collapsing never leaves a double negation |
| FilterShape.PrimaryShape | crates/filter-parser/src/lib.rs:481-518 | the same for primaries, with the negations that `IS NOT`, `NOT EXISTS` and `NOT IN` build themselves |
| FilterShape.ParsedFilterMeansTheSame | crates/filter-parser/src/lib.rs:302-368 | every tree returned for any input has no double negation and no `AND`/`OR` with fewer than two members, and under every valuation the truth value of the uncollapsed tree; errors are unaffected by collapsing |
| FilterShape.FidsNeverTruncated | crates/filter-parser/src/lib.rs:182-200 | on any parsed filter `fids(MAX_FILTER_DEPTH)` lists every field, because no parsed tree is higher than 151 |
| FilterErrors.LeafWithoutValue | crates/filter-parser/src/lib.rs:467-478 | wherever no value can be read, a reserved word is a final error and anything else a backtrackable one |
| FilterErrors.ReservedWordIsRejected | crates/filter-parser/src/lib.rs:467-478 | a reserved word at the start of a filter is reported as such, finally, whatever ends the word |
| FilterErrors.UnclosedParenthesis | crates/filter-parser/src/lib.rs:487-494 | any expression after an opening parenthesis that is not closed is a final error, which is the depth limit exactly if the depth does not suffice |
| FilterErrors.AndErrorKind | crates/filter-parser/src/lib.rs:332-368 | for every input, with room for one primary the depth limit is never a backtrackable error, since every deeper level lies behind a `cut` |
| FilterErrors.LeftoverIsRejected | crates/filter-parser/src/lib.rs:525-528 | an expression followed by anything but spaces that does not go on with `AND` or `OR` is an error, the depth limit exactly if the depth does not suffice |
| FilterErrors.ExtraParenthesis | crates/filter-parser/src/lib.rs:525-528 | the same for a closing parenthesis too many |
| FilterErrors.OpenAndNotCommit | crates/filter-parser/src/lib.rs:354-368 | for every input, whatever goes wrong after an opening parenthesis or a `NOT` is final |
| FilterErrors.OperatorsCommit | crates/filter-parser/src/lib.rs:262-309 | for every input, a comparison operator, `IN` or `NOT IN` after a field makes what follows final |
| FilterErrors.TextsCommit | crates/filter-parser/src/condition.rs:117-170 | the same for `CONTAINS`, `STARTS WITH` and their negations |
| FilterErrors.RangeCommits | crates/filter-parser/src/condition.rs:173-178 | the same for `TO` |
| FilterErrors.GeoCommits | crates/filter-parser/src/lib.rs:372-421 | the same for the names of the geo filters |
| FilterErrors.DanglingOr | crates/filter-parser/src/lib.rs:317-319 | an `OR` with nothing after it is a final error, after any expression of any depth |
| FilterErrors.DanglingAnd | crates/filter-parser/src/lib.rs:337-339 | an `AND` with nothing after it is a final error, after any expression of any depth |
| FilterReparse.RecognizedIsFloat | crates/filter-parser/src/lib.rs:372-421 | what is recognised as a float at the start of any text is a float by itself |
| FilterReparse.ReparseGivesTheSame | crates/filter-parser/src/lib.rs:312-528 | for every input the parser accepts, printing the tree and parsing it again gives the same tree, or the depth error if the printed parentheses exceed the budget |
| FilterSound.ValueSound | crates/filter-parser/src/value.rs:84-181 | whatever is read as a value is white space, a quoted text or an unreserved word, and spaces, and has the value the grammar gives it |
| FilterSound.FloatSound | crates/filter-parser/src/lib.rs:377-377 | whatever is recognised as a float is a sign, digits with a fraction, and an exponent |
| FilterSound.LeafSound | crates/filter-parser/src/lib.rs:481-518 | whatever is read as a leaf is written as a condition, `IN` or geo filter of the grammar, with its tree |
| FilterSound.OrSound | crates/filter-parser/src/lib.rs:312-368 | the same for expressions, at any depth |
| FilterSound.FilterSound | crates/filter-parser/src/lib.rs:1-24 | every accepted input is, to its end, a text of the grammar, and the tree returned is the one that text stands for |
| FilterSound.FidsAsWritten | crates/filter-parser/src/lib.rs:182-200 | on every accepted input `fids(MAX_FILTER_DEPTH)` lists the fields in the order in which they are written |
| FilterGeo.FloatParses | crates/filter-parser/src/lib.rs:377-377 | a float is read up to its end, whatever separator follows |
| FilterGeo.FloatListParses | crates/filter-parser/src/lib.rs:377-377 | a bracketed list of floats of any length is read back |
| FilterGeo.FloatGrammar | crates/filter-parser/src/lib.rs:377-377 | everything the grammar calls a float is recognised as a whole |
| FilterGeo.GeoRadiusIff | crates/filter-parser/src/lib.rs:372-391 | `_geoRadius` with a list of floats, with any spaces, is read back if and only if there are three, else a final error |
| FilterGeo.GeoBoundingBoxIff | crates/filter-parser/src/lib.rs:396-421 | `_geoBoundingBox` with a list of points, with any spaces, is read back if and only if there are two of two floats, else a final error; it is not taken for `_geoRadius` |
| FilterErrors.GeoIsNotAValue | crates/filter-parser/src/value.rs:91-132 | each of the five geo names with an opening parenthesis is a final error where a value is expected, whatever its arguments are |
| FilterErrors.ReservedGeoIsNotAFilter | crates/filter-parser/src/lib.rs:424-464 | `_geo`, `_geoPoint` and `_geoDistance` are a final error where a filter is expected |
| Basics.SwapRemoveElements | crates/meilisearch/src/search_queue.rs:136-136 | `swap_remove` on a duplicate-free vector removes exactly the chosen element |
| SearchQueue.SearchLoop.SearchFinished | crates/meilisearch/src/search_queue.rs:131-139 | a release lowers the counter without going below zero and grants one waiter if there is one; the published queue length is right |
| SearchQueue.SearchLoop.SearchRequested | crates/meilisearch/src/search_queue.rs:141-171 | a request is granted, refused, or queued in place of a victim; the queue stays within capacity and its published length is right |
| SearchQueue.StepKeepsInvariant | crates/meilisearch/src/search_queue.rs:50-67 | every step keeps conservation, the bounds on queue and counter, and the cover of counter and waiters by permits and releases |
| SearchQueue.ReachableStatesAreSafe | crates/meilisearch/src/search_queue.rs:114-173 | in every reachable state each request received is in exactly one of granted, refused, waiting; the queue is within capacity, the counter within parallelism and within permits plus releases; a waiter implies a permit or a release |
| SearchQueue.OutcomesAreFinal | crates/meilisearch/src/search_queue.rs:137-164 | an outcome is never taken back, along every run |
| SearchQueue.RefusedOnlyWhenFull | crates/meilisearch/src/search_queue.rs:154-166 | a refusal needs a full queue; with positive capacity the victim was waiting and the newest request is kept |
| SearchQueue.ReleaseServesOne | crates/meilisearch/src/search_queue.rs:131-138 | a processed release serves exactly one waiter and refuses none |
| SearchQueue.ArrivalOutcome | crates/meilisearch/src/search_queue.rs:148-168 | a request is granted on arrival if and only if nobody waits and the counter is below the parallelism, refused if and only if it is not granted and there is no queue, and waits otherwise |
| SearchQueue.ReleaseOutcome | crates/meilisearch/src/search_queue.rs:131-139 | a processed release lowers the counter and, if somebody waits, grants exactly one waiter |
| SearchQueue.AnyWaiterMayBeChosen | crates/meilisearch/src/search_queue.rs:133-137 | any waiter may be the one served, and any the one refused by a full queue |
| SearchQueue.NobodyOvertakes | crates/meilisearch/src/search_queue.rs:127-168 | on every run, while requests wait every grant goes to one of them |
| SearchQueue.QuietRun | crates/meilisearch/src/search_queue.rs:50-67 | without arrivals every step uses up weight, so runs are bounded, and waiting requests can only become granted |
| SearchQueue.NoWaiterIsStranded | crates/meilisearch/src/search_queue.rs:127-168 | from every reachable state, a run without arrivals is finite and, once it can go no further, every waiter has been granted |
| SearchQueue.GrantsAreBounded | crates/meilisearch/src/search_queue.rs:131-153 | on every run the permits granted are at most the parallelism plus two for each release processed |
| SearchQueue.QueueExceedsParallelism | crates/meilisearch/src/search_queue.rs:131-138 | for every parallelism and every positive capacity, a run without explicit drops, in the order of the bias, that has more live permits than the parallelism |
| SearchQueue.ExplicitDropExceedsParallelism | crates/meilisearch/src/search_queue.rs:50-67 | the same with no queue at all, by one explicit drop |
| SearchQueue.ParallelismBoundsPermitsIff | crates/meilisearch/src/search_queue.rs:50-153 | the parallelism bounds the live permits on every run, or on every run in the order of the bias, if and only if the capacity is zero and no permit is dropped explicitly |
| SearchQueue.PublishedLags | crates/meilisearch/src/search_queue.rs:127-171 | on every run the published number of running searches lags behind the counter by the requests granted at once since the last turn that published, and agrees with it if and only if there are none |
| SearchQueue.FirstSearchIsNotPublished | crates/meilisearch/src/search_queue.rs:148-152 | after the first request of any run the counter is one and the published number zero |
| Lru.LruMap.Pop | crates/index-scheduler/src/lru.rs:76-92 | evicts the least recently used entry and keeps the order of the others |
| Lru.LruMap.Put | crates/index-scheduler/src/lru.rs:59-67 | appends the entry as most recently used, evicting the least recently used one exactly when full |
| Lru.LruMap.Get | crates/index-scheduler/src/lru.rs:132-140 | returns the value and makes the entry the most recently used, or changes nothing |
| Lru.LruMap.Update | crates/index-scheduler/src/lru.rs:149-158 | `get_mut` and a write through it: the entry becomes the most recently used, with the new value |
| Lru.LruMap.Insert | crates/index-scheduler/src/lru.rs:165-176 | replaces, inserts or evicts as the recency list does, with the same outcome |
| Lru.LruMap.Remove | crates/index-scheduler/src/lru.rs:185-192 | takes the entry out and keeps the order of the others although `swap_remove` moves cells |
| Lru.OrderIsUnique | crates/index-scheduler/src/lru.rs:6-10 | the order by stamps is determined by the cells, so the recency list is a function of the vector |
| Lru.OrderedTouch | crates/index-scheduler/src/lru.rs:132-140 | a fresh stamp moves the entry to the end of the recency order |
| Lru.OrderedRemove | crates/index-scheduler/src/lru.rs:185-192 | `swap_remove` of a cell removes its entry from the recency order |
| Lru.RunHistory | crates/index-scheduler/src/lru.rs:107-193 | every sequence of operations is answered exactly as by the recency list |
| Lru.SpecRunIsBounded | crates/index-scheduler/src/lru.rs:32-37 | the recency list never holds a key twice nor exceeds its capacity |
| Lru.RunMeetsHistory | crates/index-scheduler/src/lru.rs:107-193 | after every history the entries are ordered by the last operation that used their key and hold what was last written |
| Lru.StepKeys | crates/index-scheduler/src/lru.rs:59-192 | a key enters by its insertion and leaves by its removal or, when a new key is inserted into a full cache, as the least recently used one |
| Lru.StepAnswer | crates/index-scheduler/src/lru.rs:132-192 | every operation answers the value held for its key, and an insertion what it replaced or evicted |
| Lru.ReadStepKeeps | crates/index-scheduler/src/lru.rs:39-43 | taking or storing a ticket keeps stamps and tickets distinct and at most the counter |
| Lru.ConcurrentReadsKeepRecency | crates/index-scheduler/src/lru.rs:132-140 | for every interleaving, once the readers are done every cell read is stamped later than every cell not read, so an eviction takes an unread cell if there is one |
| Lru.LoneRead | crates/index-scheduler/src/lru.rs:132-140 | a read that runs alone stamps its cell with the next generation |
| Lru.PhaseStartOf | crates/index-scheduler/src/lru.rs:39-43 | the stamps of a valid cache are distinct and at most its generation, so concurrent reads may start from it |
| Lru.LruMap.ReadConcurrently | crates/index-scheduler/src/lru.rs:132-140 | concurrent `get`s carried out on the cache in any order change stamps only; the recency list becomes the unread entries in their old order followed by the read ones |
| Lru.LruMap.PopAfterReads | crates/index-scheduler/src/lru.rs:76-92 | after any concurrent reads, if some entry was not read, `pop` evicts the least recently used of the entries not read |
| Lru.ReadEntriesAreLast | crates/index-scheduler/src/lru.rs:132-140 | re-stamping the cells that were read moves their entries behind the others, whose order is kept |
| Lru.TranslatedReads | crates/index-scheduler/src/lru.rs:132-140 | any schedule in which every reader begins and later finishes is a run of tickets and stores that leaves none pending and touches exactly the cells of the keys asked for |
| Lru.LruMap.ReadPhase | crates/index-scheduler/src/lru.rs:132-140 | the same on the cache: the entries of the keys asked for become the most recently used ones |
| Lru.LonePhaseIsGet | crates/index-scheduler/src/lru.rs:132-140 | a phase with a single reader is a `get` |
| Lru.RunEvents | crates/index-scheduler/src/lru.rs:107-193 | any mixture of operations and phases of concurrent reads goes through recency lists without duplicate keys and within the capacity, each explained by the one before |
| Lru.StampGoesBack | crates/index-scheduler/src/lru.rs:132-140 | two reads of one cell whose stores are crossed: the stamp goes from 2 back to 1 |
| Lru.StampsNeverGoBackIff | crates/index-scheduler/src/lru.rs:132-140 | with at most k pending tickets of one cell at a time, no store lowers a stamp on any run if and only if k is at most one |
| DepthChecker.ShouldFlattenFromUncheckedSlice | crates/json-depth-checker/src/lib.rs:9-60 | the loop over the bytes with its two flags computes the scan |
| DepthChecker.ScanStringText | crates/json-depth-checker/src/lib.rs:28-43 | a serialized string means nothing to the scanner, whatever quotes, backslashes, brackets or braces it contains |
| DepthChecker.ScanElements | crates/json-depth-checker/src/lib.rs:32-57 | scanning the elements of an array answers whether one of them is an array or an object |
| DepthChecker.FastCheckIsExact | crates/json-depth-checker/src/lib.rs:67-73 | on the serialization of every JSON value the byte scanner gives the answer of the check on the value |
| Json.EscapedIsFaithful | crates/json-depth-checker/src/lib.rs:67-73 | the serialized strings the scanner is compared on can be read back and contain no control character |
| Flatten.Flattener.InsertObject | crates/flatten-serde-json/src/lib.rs:15-33 | the loop replays the visits of the object on the map and the list of entries |
| Flatten.Flattener.InsertArray | crates/flatten-serde-json/src/lib.rs:35-50 | the loop replays the visits of the array under the key of the array |
| Flatten.Flattener.InsertValue | crates/flatten-serde-json/src/lib.rs:52-76 | if the map held at the path the scalars that had reached it, it now holds them and the new one last, bare only if it is alone and not from an array; every other path is untouched |
| Flatten.ReplayGathers | crates/flatten-serde-json/src/lib.rs:52-76 | the accumulating map holds at each path all scalars that reached it, in order: bare if there is one that is not from an array, else as an array |
| Flatten.ObjectTraceIsProper | crates/flatten-serde-json/src/lib.rs:15-50 | only scalars are inserted, and only at paths that have been entered |
| Flatten.FlattenDocument | crates/flatten-serde-json/src/lib.rs:5-13 | the keys are exactly the paths of the fields; a path reached by scalars holds them all, any other holds the value it was first entered with |
| Flatten.ObjectScalarsConserved | crates/flatten-serde-json/src/lib.rs:15-50 | the traversal meets every scalar of the document once, in document order |
| Flatten.ScalarsConserved | crates/flatten-serde-json/src/lib.rs:5-76 | no scalar is lost or duplicated: over any listing of the keys of the result, the scalars held at the paths that scalars reach are together exactly those of the document |
| FlattenPaths.FlattenResolves | crates/flatten-serde-json/src/lib.rs:5-76 | for every document and path: the path is a key of the result if and only if it leads to a field, and the value there is what following the path through objects and arrays finds, bare if it is one scalar not in an array |
| FlattenUnchanged.SkippingIsSound | crates/json-depth-checker/src/lib.rs:9-60 | if the scanner answers false on every serialized field, flattening returns the document unchanged, empty arrays included |
| FlattenUnchanged.UnchangedIff | crates/flatten-serde-json/src/lib.rs:5-76 | for every document, flattening changes nothing if and only if every value is flat or without scalars, every path entered is a key, and every key without scalars holds the value first entered there |
| FlattenUnchanged.IndependentUnchangedIff | crates/flatten-serde-json/src/lib.rs:5-76 | if no key extends another by a dot, that is the case if and only if no value contains a field and each is flat or without scalars |
| FlattenUnchanged.DependentKeys | crates/flatten-serde-json/src/lib.rs:8-11 | a document whose nested field is also listed under its full path and which flattening leaves unchanged |
| FlattenUnchanged.NotIdempotent | crates/flatten-serde-json/src/lib.rs:5-76 | one field inside a field: however the result is listed, flattening it again changes it |
| FlattenUnchanged.IdempotentIff | crates/flatten-serde-json/src/lib.rs:5-76 | for every document and every listing of its result, flattening the listing gives the result again if and only if every path has a scalar of its own or was first entered with a value without scalars, and the listing meets each scalarless value first at its own key |
| FlattenUnchanged.IdempotentAlikeIff | crates/flatten-serde-json/src/lib.rs:5-76 | where no path is entered with two different values: if and only if every field value, at any depth, has a scalar at its own path or no scalar at all |
| Budget.NextProbeIsSound | crates/index-scheduler/src/utils.rs:645-662 | each of the eight transitions keeps a good size below and a bad size above, or ends at a boundary |
| Budget.BoundaryIsLargest | crates/index-scheduler/src/utils.rs:663-668 | for a downward-closed predicate a boundary is the largest good size |
| Budget.DichotomicSearch | crates/index-scheduler/src/utils.rs:638-670 | terminates at a good size whose successor is bad, or at 0 if 1 is bad; the largest good size for a downward-closed predicate; no probe beyond the start or twice a good size |
| Budget.ClampToPageSize | crates/index-scheduler/src/utils.rs:345-347 | the largest multiple of the page size that fits |
| Budget.SplitBudget | crates/index-scheduler/src/lib.rs:328-356 | no underflow; task database, cached indexes and one more fit in half the size; map size at most the base size; task database at most the requested size and aligned; 1 to the maximum of indexes, and no further index would fit unless the maximum is reached |
| Budget.SplitRest | crates/index-scheduler/src/lib.rs:338-356 | the same for what the task database leaves; with room for fewer than two base sizes, one index of two fifths |
| Budget.ComputeIndexBudget | crates/index-scheduler/src/lib.rs:306-357 | all of `SplitBudget` for the size found: the default if it can be opened, else a size that can be opened while the next cannot, or 0 if 1 cannot; for a downward-closed predicate the largest size up to the default that can be opened |
| ApiKeys.ReprIsPosition | crates/meilisearch-types/src/keys.rs:204-312 | the number of an action is its position in the list of actions |
| ApiKeys.FromReprInverts | crates/meilisearch-types/src/keys.rs:314-358 | `from_repr` inverts `repr` on every action but `SnapshotsAll` |
| ApiKeys.ExpansionFollowsNames | crates/meilisearch-auth/src/store.rs:90-131 | `*` stands for every action, another wildcard for exactly the plain actions on its resource, any other action for itself |
| ApiKeys.StarMatchesPrefix | crates/meilisearch-types/src/index_uid_pattern.rs:45-50 | a pattern with a star matches exactly the names that start with the rest of it |
| ApiKeys.PlainMatchesItself | crates/meilisearch-types/src/index_uid_pattern.rs:45-50 | a pattern without a star matches its own text only |
| ApiKeys.LongestPattern | crates/meilisearch-types/src/index_uid_pattern.rs:65-82 | a name is a pattern, with or without a star, if and only if it has at most 400 characters |
| ApiKeys.MatchesAllIff | crates/meilisearch-types/src/index_uid_pattern.rs:29-50 | `matches_all` holds of exactly the patterns that match every index name |
| AuthStore.CodecRoundTrip | crates/meilisearch-auth/src/store.rs:278-310 | decoding an encoded entry gives it back if and only if the action is not `SnapshotsAll` and the index is not the empty name |
| AuthStore.UidPrefix | crates/meilisearch-auth/src/store.rs:260-271 | an entry has a key id as prefix if and only if it is an entry of that key |
| AuthStore.RawPrefix | crates/meilisearch-auth/src/store.rs:226-227 | an entry has a key id and an action as prefix if and only if it is an entry of that key and action |
| AuthStore.ExpandActions | crates/meilisearch-auth/src/store.rs:88-132 | the set collected is that of all actions some listed action stands for |
| AuthStore.HeedAuthStore.DeleteKeyFromInvertedDb | crates/meilisearch-auth/src/store.rs:260-271 | exactly the entries of the key are removed |
| AuthStore.HeedAuthStore.PutApiKey | crates/meilisearch-auth/src/store.rs:77-154 | the key is stored and recorded, and the index has exactly the entries of every recorded key |
| AuthStore.HeedAuthStore.DeleteApiKey | crates/meilisearch-auth/src/store.rs:188-195 | the key and its entries are gone, the answer tells whether it was there, and every other key keeps its entries |
| AuthStore.HeedAuthStore.DeleteAllKeys | crates/meilisearch-auth/src/store.rs:197-202 | no key is left; the index keeps its entries |
| AuthStore.HeedAuthStore.GetExpirationDate | crates/meilisearch-auth/src/store.rs:215-241 | for every key id and action: the expiration if and only if the action is allowed and the index listed, and an error exactly when entries of `SnapshotsAll` would have to be decoded |
| AuthStore.HeedAuthStore.PrefixFirstExpirationDate | crates/meilisearch-auth/src/store.rs:243-258 | for every key id and action: the expiration if and only if the action is allowed on some index, an error for `SnapshotsAll` |
| AuthStore.HeedAuthStore.IsKeyAuthorized | crates/meilisearch-auth/src/lib.rs:131-154 | for every key id: `false` without entries; else authorized if and only if the action is in the expansion, a pattern matches the index (or there is any pattern, if no index is named) and the key has not expired; for `SnapshotsAll` exactly when the answer is an error |
| AuthStore.CoversNames | crates/meilisearch-auth/src/store.rs:134-151 | a key covers a name if and only if it lists the name or a prefix of it with a star |
| AuthStore.AuthorizedUntil | crates/meilisearch-auth/src/lib.rs:146-153 | a key that may act may do so until its expiration, and not at that moment any more |
| AuthStore.VerdictOnName | crates/meilisearch-auth/src/lib.rs:131-154 | the answer of `is_key_authorized` on a named index, in terms of names and times only |
| AuthStore.AuthorizedAfter | crates/meilisearch-auth/src/store.rs:77-202 | the same after any history of puts, deletes and delete-alls, for every key id by its last record |
| AuthStore.RecordIsLastPut | crates/meilisearch-auth/src/store.rs:77-202 | that record is the last put of the key, unless a later change deletes the key |
| AuthStore.StoredIsLastPut | crates/meilisearch-auth/src/store.rs:77-202 | a key is stored if and only if it was put, not deleted or put again later, and the keys were not cleared since |
| TaskDatetimes.DatetimeIndex.InsertTaskDatetime | crates/index-scheduler/src/utils.rs:157-168 | one pair is added to the relation, and no empty set is kept |
| TaskDatetimes.DatetimeIndex.RemoveTaskDatetime | crates/index-scheduler/src/utils.rs:170-187 | one pair is removed from the relation, and no empty set is kept |
| TaskDatetimes.DatetimeIndex.RemoveNEarlierThan | crates/index-scheduler/src/utils.rs:189-214 | the id is removed from exactly the latest min(count, available) earlier timestamps and nothing else changes; the count underflows if and only if it is zero and the latest earlier entry has the id |
| TaskDatetimes.RemoveStep | crates/index-scheduler/src/utils.rs:198-211 | one turn of the reverse iteration removes at most one pair, the latest remaining one |
| TaskDatetimes.DatetimeIndex.KeepIdsWithin | crates/index-scheduler/src/utils.rs:216-239 | with a bound exactly the ids with a timestamp strictly inside are kept, without any bound all ids |
| IndexSwaps.CollectIndexes | crates/meilisearch-types/src/tasks.rs:187-214 | the names collected are exactly that of the task, or both names of every swap |
| IndexSwaps.KindsWithoutIndex | crates/meilisearch-types/src/tasks.rs:187-214 | the kinds without an index name are exactly the swap, cancelation, deletion, dump, snapshot and upgrade tasks |
| IndexSwaps.Task.SwapIndexUid | crates/index-scheduler/src/utils.rs:250-296 | the first name becomes the second and the second the first, in the kind, on both sides of every swap and in swap details; every other name and all content stay |
| IndexSwaps.SwapIsInvolution | crates/index-scheduler/src/utils.rs:250-296 | swapping twice restores the task |
| IndexSwaps.SwapActsOnIndexes | crates/meilisearch-types/src/tasks.rs:187-214 | the names of a swapped task are the images of its names |
| IndexSwaps.RenamedValidity | crates/index-scheduler/src/utils.rs:317-342 | a list of swaps is valid if and only if the renamed list is |
| IndexSwaps.SwapKeepsAgreement | crates/index-scheduler/src/utils.rs:279-288 | a swap task and its details keep listing the same swaps |
| IndexSwaps.CheckIndexSwapValidity | crates/index-scheduler/src/utils.rs:317-342 | accepted if and only if all names are distinct, else exactly the repeated names are reported, one or several |
| IndexSwaps.AcceptedSwapsExchange | crates/index-scheduler/src/utils.rs:317-342 | an accepted list takes each name of a pair to the other one and every other name to itself |
| IndexSwaps.AcceptedSwapsCommute | crates/index-scheduler/src/utils.rs:317-342 | accepted swaps applied in any order rename every name in the same way, and twice restore it |
| IndexSwaps.SwapKindAllNames | crates/index-scheduler/src/utils.rs:250-296 | swapping a task by a list of swaps takes each of its names through the list |
| IndexSwaps.AcceptedSwapsCommuteOnTasks | crates/index-scheduler/src/utils.rs:317-342 | accepted swaps carried out on a task in any order give the same kind and details, and twice restore them |

## Left out

- DichotomicSearch: does not model the wrap-around of the machine word; a size from which on nothing can be opened is a parameter, and probes are shown to stay within twice a good size.
- RemoveNEarlierThan: reports the underflow for a count of zero as a failed call that changes nothing; a build without overflow checks would wrap around instead.
- FilterCondition::parse on blank input, `token_at_depth`, `use_contains_operator`, spans, columns and error messages; of the error kinds only those that steer the parser and the depth limit are kept.
- Filters printed with bare words throughout: the printed filters quote every value; bare values are read back by `BareWordIff` and `BareBetweenIff`.
- The lengths compared after unescaping are counted in characters, not in bytes.
- The escape sequences of the `unescaper` crate other than doubled backslashes.
- Timeouts of waiting searches: a permit that arrives too late is dropped explicitly, which is one of the modelled steps.
- Memory orderings and the wrap-around of the 64-bit generation.
- HMAC, UUID generation, clocks and LMDB transactions.
- The scheduler's tick loop, the autobatcher, the index mapper, HTTP routes, dumps and snapshots.
- Settings merging, details accumulation, error-code and locale tables.
