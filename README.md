# Search server core in Dafny

A model of the core of a small in-memory full-text search server (C++), and proofs about it.

The server keeps three things:
- a document store: the map `documents_` from document id to `{average rating, status}`;
- the ordinal sequence `document_ids_` of ids in insertion order;
- an inverted index `word_to_document_freqs_`. It maps each word to the documents that contain it, together with the word's term frequency in each.

Documents are added with an id, a text, a status and ratings. Queries are texts of plus words and minus words (a minus word is written with a leading `-`). `MatchDocument` reports which plus words of a query occur in one document, unless a minus word occurs there. A separate paginator cuts a random-access range into pages of a fixed size.

Modules:
- `Wrappers`: `Result` and `Outcome`. Every `throw` of the C++ code becomes a `Failure`/`Fail` carrying an error kind (`NegativeId`, `DuplicateId`, `InvalidWord`, `MalformedQuery`, `IndexOutOfRange`, `UnknownDocument`).
- `Seqs`: occurrence counts, `FirstWhere` (the first position satisfying a predicate) and distinctness.
- `Text`: the tokenizer `SplitIntoWords` and its inverse `Join`.
- `Index`: the inverted index as `map<string, map<int, real>>`. It models `word_to_document_freqs_[word][id] += inc` and what a sequence of such updates does.
- `SearchServer`: the class `SearchServer` with the fields `stopWords`, `wordToDocumentFreqs`, `documents` and `documentIds`. Its methods change them as the C++ member functions do. The query parser and the predicates of the `FindTopDocuments` overloads are functions.
- `Paginator`: `IteratorRange` and the `Paginator` constructor, over integer positions instead of iterators.
- `Scenarios`: small concrete scenarios, verified from the contracts alone:
  - "cat dog cat" is indexed, and matching "cat" returns `["cat"]`;
  - "fluffy cat fluffy tail" is indexed, and matching "fluffy -cat" returns nothing;
  - a document with a control character is rejected and then retried, once with `AddDocument` and once with `AddDocumentAtomic`.

Assumptions and modelling choices:
- `SplitIntoWords` and `IsStopWord` come from a header, `search_server.h`, which is not part of this model.
  - `SplitIntoWords` is modelled as splitting on the space character `' '` and dropping empty tokens. This is an assumption; `SplitJoin` proves that it inverts `Join`.
  - `IsStopWord` is membership in the stop-word set fixed by the constructor.
- `IsValidWord` rejects a word containing a character in `'\0'..'\x1F'`. The C++ test `c >= '\0' && c < ' '` is on `char`. Under a signed `char`, bytes from 128 up are negative and count as valid, and in the model characters from 128 up are not control characters either.
- The `double` weights are exact reals. `1.0 / words.size()` is `InverseWordCount`. For a document with no non-stop words the C++ value `1.0 / 0` is computed but never used, because the loop adds nothing; the model uses 0 there. Such a document is stored with no index entries.
- `word[0]` of an empty `std::string` reads the terminating `'\0'`, so the empty token is not a minus word. The tokenizer never produces one anyway.

Where the code does not do what it is meant to do, the model follows the code:
- Partial insert. A failing add is meant to change nothing. As written, `AddDocument` checks each word for control characters inside the loop that updates the index. A word rejected late leaves the entries of the earlier words for an id that is never stored (see Findings). `AddDocumentAtomic` is the corrected add.
- Stop words in queries. Stop words are meant to be dropped from both term sets. The code tests `IsStopWord` on the raw token, `-` included, so a stop word written as a minus word becomes a minus word (`MinusStopWordIsKept`). This is harmless: stop words never have index entries (`StopWordsNeverOccur`), so such a minus word excludes nothing.
- Mixed polarity. The code does not make plus and minus words disjoint, so `"cat -cat"` puts `cat` into both sets. `MatchDocument` then lets the minus word win: a document with `cat` is excluded.
- Unknown document. `MatchDocument` on an id that is not stored runs both loops and then fails in `documents_.at`; the model returns `UnknownDocument` at the same point.

## Model

| member | source | states |
|---|---|---|
| SearchServer.IsValidWord | search_server.cpp:133-138 | a word is valid exactly when none of its characters is a control character (code below `' '`) |
| SearchServer.TruncatingDivide | search_server.cpp:105 | C++ `int` division by a positive divisor: the quotient rounds toward zero, bounded from both sides for a non-negative and for a negative dividend |
| SearchServer.ComputeAverageRating | search_server.cpp:99-106 | 0 for no ratings; otherwise the sum divided by the count, rounded toward zero (truncation bounds relative to the sum for either sign) |
| SearchServer.Sum | search_server.cpp:104 | no contract of its own: the sum of the ratings, added from the first; `SumSnoc` and `SumBounds` state its properties |
| SearchServer.SumSnoc | search_server.cpp:104 | `accumulate` from 0 adds the ratings from the first to the last: appending a rating adds it to the sum, so the head-first sum is the value `accumulate` computes |
| SearchServer.SumBounds | search_server.cpp:104 | the sum of ratings that all lie in `[lo, hi]` lies between the count times `lo` and the count times `hi` |
| SearchServer.AverageRatingBounds | search_server.cpp:99-106 | the average of ratings that all lie in `[lo, hi]` lies in `[lo, hi]` |
| SearchServer.AverageRatingOfNegativeSum | search_server.cpp:104-105 | the average of `[-3, 0]` is -1 (rounded toward zero), whereas Euclidean division of the sum gives -2 |
| SearchServer.StatusPredicate | search_server.cpp:42-48 | the predicate the status overload of `FindTopDocuments` passes on accepts a document exactly when its status equals the requested one, whatever its id and rating |
| SearchServer.DefaultPredicate | search_server.cpp:50-53 | the no-argument overload delegates with the status `ACTUAL` |
| SearchServer.WithoutStopWords | search_server.cpp:89-97 | the kept words contain no stop word and are no more than the words of the text |
| SearchServer.WithoutStopWordsCount | search_server.cpp:89-97 | every word that is not a stop word keeps exactly its number of occurrences |
| SearchServer.KeepsAllNonStopWords | search_server.cpp:89-97 | a text without stop words loses no word to the filter |
| SearchServer.InverseWordCount | search_server.cpp:28 | `1.0 / words.size()` is positive for a non-empty document |
| SearchServer.AccumulatedFrequency | search_server.cpp:28-34 | adding `1.0 / words.size()` once per occurrence of a word sums to its term frequency (occurrences / number of words) |
| SearchServer.AppendKeepsStoreValid | search_server.cpp:37-38 | emplacing a new non-negative id and appending it to the ordinal sequence keeps the ordinal sequence an enumeration of the stored ids without repetition |
| SearchServer.SearchServer.constructor | search_server.cpp:14 | assumption: the constructor from a stop-word container, which lies in `search_server.h`, keeps the given set as the stop words; the store, the ordinal sequence and the index start empty and valid |
| SearchServer.SearchServer.FromText | search_server.cpp:13-14 | the stop words are exactly the words of the stop-word text; the store and the index start empty and valid |
| SearchServer.SearchServer.IsStopWord | search_server.cpp:92 | assumption: no contract of its own; `IsStopWord`, declared in `search_server.h`, is taken to be membership in the stop-word set fixed by the constructor |
| SearchServer.SearchServer.SplitIntoWordsNoStop | search_server.cpp:89-97 | the loop returns the words of the text with stop words removed, in order |
| SearchServer.SearchServer.GetDocumentCount | search_server.cpp:55-58 | the number of stored documents equals the length of the ordinal sequence |
| SearchServer.SearchServer.GetDocumentId | search_server.cpp:60-62 | succeeds exactly for an ordinal in `[0, count)`, with the id at that position, which is a stored id; otherwise fails with `IndexOutOfRange` |
| SearchServer.SearchServer.AddDocument | search_server.cpp:16-40 | negative id: `NegativeId`, nothing changes; stored id: `DuplicateId`, nothing changes; otherwise the index receives the weights of the words before the first invalid one, and the add fails with `InvalidWord` if there is one, leaving the store as it was; on success the document is stored with its average rating and status, its id is appended, the count grows by one, the last ordinal yields the new id, the invariant is kept, and every word's weight for the new id is its term frequency |
| SearchServer.SearchServer.AddNewDocument | search_server.cpp:26-39 | the part of `AddDocument` after the id checks, with the same promises for a fresh id |
| SearchServer.SearchServer.IndexWords | search_server.cpp:27-35 | the interleaved loop stops at the first word with a control character and has added one over the number of words for exactly the words before it, keeping the index well formed |
| SearchServer.SearchServer.Emplace | search_server.cpp:37-38 | `documents_.emplace` and `document_ids_.push_back` of a new id keep the store valid; if the index referred only to stored documents before the words were added, it does so again, and each word's weight for the new id is its term frequency |
| SearchServer.SearchServer.AddedDocumentEntries | search_server.cpp:27-34 | after the words of a new document are added, every index entry belongs to a stored document or to the new one, and each word's weight for the new id is its term frequency |
| SearchServer.SearchServer.StopWordsNeverOccur | search_server.cpp:27-34 | no stop word ever has an index entry |
| SearchServer.SearchServer.ParseQueryWord | search_server.cpp:108-131 | a control character gives `InvalidWord`; `"-"` and a `"--"` prefix give `MalformedQuery`; success exactly otherwise; a minus word is the token less its leading `-` (restoring the `-` gives the token back) and is non-empty without a second `-`; a plus word does not start with `-`; the stop-word flag is the raw token's membership in the stop words |
| SearchServer.SearchServer.QueryOf | search_server.cpp:144-153 | the sets the loop builds from accepted tokens: every plus word is one of the tokens and not a stop word, and every minus word written with a leading `-` is one of the tokens |
| SearchServer.SearchServer.ParsedQuery | search_server.cpp:142-156 | the declarative reading of the loop: a failure is always `InvalidWord` or `MalformedQuery`, and on success no plus word is a stop word |
| SearchServer.SearchServer.ParseQuery | search_server.cpp:142-156 | the loop returns the parsed query of the text: the error of the first rejected token, or the sets of non-stop plus and minus words |
| SearchServer.SearchServer.QueryOfSnoc | search_server.cpp:144-153 | one more accepted token leaves a stop token out, adds a minus word to the minus set, and adds a plus word to the plus set |
| SearchServer.SearchServer.ParsedQueryFails | search_server.cpp:142-156 | a query fails to parse exactly when one of its tokens is rejected |
| SearchServer.SearchServer.ParsedQueryWords | search_server.cpp:142-156 | a word is a plus word of the parsed query exactly when it is a token that parses as a non-stop plus word, and a minus word exactly when `-` followed by it is a token that parses as a non-stop minus word |
| SearchServer.SearchServer.MinusStopWordIsKept | search_server.cpp:120-128 | a stop word written with a leading `-` parses as a minus word that is not a stop word, and it enters the minus set |
| SearchServer.SearchServer.MatchDocument | search_server.cpp:64-87 | a query that does not parse fails with its error; otherwise the call succeeds exactly when the document is stored (else `UnknownDocument`) and returns its status; the matched words are distinct; they are empty when a minus word has an entry for the document, and are otherwise exactly the plus words with an entry for it |
| SearchServer.SearchServer.AddDocumentAtomic | search_server.cpp:16-40 | the corrected add: the id checks as in `AddDocument`; for a fresh id it succeeds exactly when every non-stop word is valid; a failing add changes nothing; a successful one stores the document, appends its id, adds every word's term frequency, and keeps the index referring only to stored documents |
| SearchServer.SearchServer.AddValidatedDocument | search_server.cpp:26-39 | the part of `AddDocumentAtomic` after the id checks: every word is checked before any change, and the promises are as above |
| SearchServer.SearchServer.FirstInvalidWord | search_server.cpp:30-33 | the check of `IsValidWord` over the words, on its own: the position of the first word with a control character, or the number of words |
| SearchServer.RejectedDocumentKeepsEntries | search_server.cpp:30-35 | for `"cat do\U{1}g"` the second word is rejected, but `cat` keeps the weight 1/2 for the rejected id; a retry with `"cat"` under the same id gives `cat` the weight 3/2, not its term frequency 1 |
| Index.AddWord | search_server.cpp:34 | `+=` creates the entry of the word for the id if needed and adds `inc` to its weight |
| Index.AddWordAt | search_server.cpp:34 | one `+=` changes only the entry of that word and id |
| Index.Accumulated | search_server.cpp:34 | `k` repeated additions of `inc` sum to `k * inc` |
| Index.AddWords | search_server.cpp:30-35 | the as-written loop, one `+=` per word in order, which `AddDocument`'s contract gives the new index through: the words indexed afterwards are exactly those indexed before and the added ones |
| Index.AddWordsWeight | search_server.cpp:30-35 | after the loop, a word's weight for the added id grew by `inc` once per occurrence, and the weights of every other document are unchanged |
| Index.AddWordsOccurs | search_server.cpp:30-35 | after the loop, a word has an entry for a document exactly when it had one before, or the document is the added one and the word is among its words |
| Index.AddWordWellFormed | search_server.cpp:34 | a `+=` of a positive amount for a non-stop word keeps the index well formed: no stop word as key, no empty entry map, only positive weights |
| Text.SplitIntoWords | search_server.cpp:91 | assumption: the tokenizer, declared in `search_server.h`, splits on single spaces and drops empty tokens; every token is non-empty and contains no space |
| Text.SplitJoin | search_server.cpp:91 | for the assumed tokenizer: splitting words joined by single spaces gives back the words |
| Paginator.IteratorRange.Size | paginator.h:20-22 | `end_ - begin_`: the begin plus the size is the end |
| Paginator.Equal | paginator.h:38-42 | two ranges are equal exactly when their begins and their ends are equal |
| Paginator.PageSplit | paginator.h:48-56 | the pages the constructor's loop produces, which the constructor is proved to yield: every page is a non-empty part of `[begin, end)` |
| Paginator.PageSplitContiguous | paginator.h:47-57 | the pages follow one another without gap or overlap from the begin to the end, and there are none exactly for an empty range |
| Paginator.PageSplitSizes | paginator.h:50-56 | no page is empty; every page but the last has exactly `page_size` positions; the last has between 1 and `page_size` |
| Paginator.PageSplitCount | paginator.h:50-56 | the number of pages is the ceiling of `(end - begin) / page_size`, and 0 for an empty range |
| Paginator.PageSplitFlatten | paginator.h:47-57 | over a sequence, the pages lie within the range, and concatenating them in order gives exactly the elements of `[begin, end)` |
| Paginator.Paginator.constructor | paginator.h:47-57 | the loop yields the pages of the range: contiguous, non-empty, all but the last of size `page_size`, the last of size 1 to `page_size`, and as many as the ceiling of `(end - begin) / page_size` |

## Left out

- `ComputeWordInverseDocumentFreq` (search_server.cpp:159-163): it uses floating-point `log`. Lines 162-163 repeat its body after the closing brace and do not compile as shown.
- The ranking part of `FindTopDocuments`: the predicate template, the relevance sums, the epsilon comparator and the top-N cut. They are declared in `search_server.h`, which is not part of this model, and the score is floating point. Only the delegation of the two overloads at search_server.cpp:42-53 is modelled, as the predicates `StatusPredicate` and `DefaultPredicate`.
- The constructor of `SearchServer` from a stop-word container is in `search_server.h`, which is not part of this model. The model's plain constructor stands for it: it takes the stop-word set as given, which is an assumption.
- IEEE `double` rounding of the term weights: they are exact reals, so weights that `double` would round, such as 1/3, are exact in the model.
- SearchServer.ComputeAverageRating: does not model `int` overflow of `accumulate` or of the size cast; the sum is unbounded.
- SearchServer.SearchServer.MatchDocument: does not state the order of the matched words. The C++ visits the `std::set` of plus words in lexicographic order; the model states their contents and that each appears once.
- SearchServer.SearchServer.MatchDocument: the C++ returns a `tuple`; the model returns the record `MatchResult`.
- Error messages: the text of each `invalid_argument` and `out_of_range` is dropped; only its kind is kept.
- Paginator.IteratorRange.Size: requires the begin not to be after the end. For a reversed range, `end_ - begin_` converted to `size_t` would wrap around, and that is not modelled.
- Paginator.Paginator.constructor: requires `page_size > 0` or an empty range. With `page_size == 0` and a non-empty range the C++ loop never advances and does not terminate.
- The `begin()`/`end()` accessors of `Paginator` and `IteratorRange`: the model exposes the fields `pages`, `begin` and `end` directly. Iterators are integer positions.
- `operator<<` (paginator.h:30-36): output formatting.
- `Paginate` (paginator.h:79-82): a wrapper taking a container's `begin()` and `end()`.

## Findings

| source | as written | input that shows it | evidently intended | confidence | as-written member | corrected member |
|---|---|---|---|---|---|---|
| search_server.cpp:30-35 | each word is checked for control characters inside the loop that adds its weight to the index, so the throw comes after the entries of the earlier words were added; the id is never stored, yet its entries stay | `AddDocument(0, "cat do\U{1}g", ACTUAL, {})` with no stop words fails, but `cat` keeps the weight 1/2 for id 0; a following `AddDocument(0, "cat", ACTUAL, {})` is accepted and gives `cat` the weight 3/2 instead of 1 | check every word before the first change, so that a failing add leaves the index and the store as they were | high; not executed | SearchServer.RejectedDocumentKeepsEntries | SearchServer.SearchServer.AddDocumentAtomic |
