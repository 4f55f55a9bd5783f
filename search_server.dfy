/**
 * The search server of search_server.cpp: a store of documents (average rating and status), the
 * order in which they were added, and an inverted index of term frequencies; the query parser;
 * and the matcher of one query against one document. Thrown exceptions become `Failure` values.
 */
module SearchServer {
  import opened Wrappers
  import opened Seqs
  import opened Text
  import opened Index

  datatype DocumentStatus = Actual | Irrelevant | Banned | Removed

  /** What `documents_` records per id. */
  datatype DocumentData = DocumentData(rating: int, status: DocumentStatus)

  /** The reasons the C++ code throws (`invalid_argument`, or `out_of_range` from `at`). */
  datatype Error = NegativeId | DuplicateId | InvalidWord | MalformedQuery | IndexOutOfRange | UnknownDocument

  datatype QueryWord = QueryWord(data: string, isMinus: bool, isStop: bool)

  datatype Query = Query(plusWords: set<string>, minusWords: set<string>)

  /** The tuple `MatchDocument` returns. */
  datatype MatchResult = MatchResult(matchedWords: seq<string>, status: DocumentStatus)

  /** The filter `FindTopDocuments` applies to (document id, status, rating). */
  type DocumentPredicate = (int, DocumentStatus, int) -> bool

  // ---------------------------------------------------------------------------------------------
  // Word validity

  /** A character with code 0 to 31, which `IsValidWord` rejects. */
  predicate IsControl(c: char) {
    c < ' '
  }

  /** `none_of` over the characters of `word`: true when none is a control character. */
  function IsValidWord(word: string): (valid: bool)
    ensures valid <==> forall i :: 0 <= i < |word| ==> !IsControl(word[i])
  {
    word == [] || (!IsControl(word[0]) && IsValidWord(word[1..]))
  }

  predicate IsInvalidWord(word: string) {
    !IsValidWord(word)
  }

  // ---------------------------------------------------------------------------------------------
  // Ratings

  /** The sum of the ratings. */
  function Sum(ratings: seq<int>): int {
    if ratings == [] then 0 else ratings[0] + Sum(ratings[1..])
  }

  /** `accumulate(ratings.begin(), ratings.end(), 0)` adds from the first rating to the last; the result is the same. */
  lemma {:induction false} SumSnoc(ratings: seq<int>, x: int)
    ensures Sum(ratings + [x]) == Sum(ratings) + x
  {
    if ratings != [] {
      assert (ratings + [x])[1..] == ratings[1..] + [x];
      SumSnoc(ratings[1..], x);
    } else {
      assert [x][1..] == [];
    }
  }

  /** C++ `/` on `int` for a positive divisor: the quotient rounded toward zero. */
  function TruncatingDivide(a: int, b: int): (q: int)
    requires b > 0
    ensures 0 <= a ==> 0 <= q && q * b <= a < q * b + b
    ensures a < 0 ==> q <= 0 && q * b - b < a <= q * b
  {
    if a >= 0 then a / b else -((-a) / b)
  }

  /** The mean rating, rounded toward zero; 0 for no ratings. */
  function ComputeAverageRating(ratings: seq<int>): (average: int)
    ensures ratings == [] ==> average == 0
    ensures ratings != [] && Sum(ratings) >= 0 ==>
              average * |ratings| <= Sum(ratings) < average * |ratings| + |ratings|
    ensures ratings != [] && Sum(ratings) < 0 ==>
              average * |ratings| - |ratings| < Sum(ratings) <= average * |ratings|
  {
    if ratings == [] then 0 else TruncatingDivide(Sum(ratings), |ratings|)
  }

  lemma {:induction false} SumBounds(ratings: seq<int>, lo: int, hi: int)
    requires forall i :: 0 <= i < |ratings| ==> lo <= ratings[i] <= hi
    ensures |ratings| * lo <= Sum(ratings) <= |ratings| * hi
  {
    if ratings != [] {
      SumBounds(ratings[1..], lo, hi);
      assert |ratings| * lo == lo + (|ratings| - 1) * lo;
      assert |ratings| * hi == hi + (|ratings| - 1) * hi;
    }
  }

  lemma MultiplyMonotone(x: int, y: int, n: int)
    requires x <= y && n >= 0
    ensures x * n <= y * n
  {
  }

  lemma ScaleMonotone(a: int, b: int, n: int)
    requires n > 0 && a * n < b * n + n
    ensures a <= b
  {
    if a > b {
      MultiplyMonotone(b + 1, a, n);
      assert false;
    }
  }

  /** The average of ratings that all lie in [lo, hi] lies in [lo, hi] too. */
  lemma AverageRatingBounds(ratings: seq<int>, lo: int, hi: int)
    requires ratings != []
    requires forall i :: 0 <= i < |ratings| ==> lo <= ratings[i] <= hi
    ensures lo <= ComputeAverageRating(ratings) <= hi
  {
    var n, s, average := |ratings|, Sum(ratings), ComputeAverageRating(ratings);
    SumBounds(ratings, lo, hi);
    if s >= 0 {
      ScaleMonotone(average, hi, n) by { assert average * n <= hi * n; }
      ScaleMonotone(lo, average, n) by { assert lo * n <= s; }
    } else {
      ScaleMonotone(average, hi, n) by { assert average * n - n < hi * n; }
      ScaleMonotone(lo, average, n) by { assert lo * n <= average * n; }
    }
  }

  /** A negative sum rounds up toward zero, where Euclidean division would round down. */
  lemma AverageRatingOfNegativeSum()
    ensures ComputeAverageRating([-3, 0]) == -1
    ensures Sum([-3, 0]) / 2 == -2
  {
    assert Sum([-3, 0]) == -3;
  }

  // ---------------------------------------------------------------------------------------------
  // The FindTopDocuments overloads that only delegate

  /** The status overload filters with "the document's status equals `status`". */
  function StatusPredicate(status: DocumentStatus): (keep: DocumentPredicate)
    ensures forall id, s, rating :: keep(id, s, rating) <==> s == status
  {
    (id, s, rating) => s == status
  }

  /** The overload without a filter keeps exactly the `Actual` documents. */
  function DefaultPredicate(): (keep: DocumentPredicate)
    ensures forall id, s, rating :: keep(id, s, rating) <==> s == Actual
  {
    StatusPredicate(Actual)
  }

  // ---------------------------------------------------------------------------------------------
  // Stop-word removal

  /** The words of `words` that are not stop words, in order. */
  function WithoutStopWords(words: seq<string>, stopWords: set<string>): (kept: seq<string>)
    ensures forall i :: 0 <= i < |kept| ==> kept[i] !in stopWords
    ensures |kept| <= |words|
  {
    if words == [] then []
    else
      var rest := WithoutStopWords(words[..|words| - 1], stopWords);
      if words[|words| - 1] in stopWords then rest else rest + [words[|words| - 1]]
  }

  /** The filter keeps every occurrence of a word that is not a stop word. */
  lemma {:induction false} WithoutStopWordsCount(words: seq<string>, stopWords: set<string>, w: string)
    requires w !in stopWords
    ensures Count(WithoutStopWords(words, stopWords), w) == Count(words, w)
    decreases |words|
  {
    if words != [] {
      var front, last := words[..|words| - 1], words[|words| - 1];
      var rest := WithoutStopWords(front, stopWords);
      WithoutStopWordsCount(front, stopWords, w);
      assert words == front + [last];
      CountSnoc(front, last, w);
      if last !in stopWords {
        CountSnoc(rest, last, w);
      }
    }
  }

  /** A text without stop words loses no word to the filter. */
  lemma {:induction false} KeepsAllNonStopWords(words: seq<string>, stopWords: set<string>)
    requires forall i :: 0 <= i < |words| ==> words[i] !in stopWords
    ensures WithoutStopWords(words, stopWords) == words
    decreases |words|
  {
    if words != [] {
      var front, last := words[..|words| - 1], words[|words| - 1];
      KeepsAllNonStopWords(front, stopWords);
      assert last !in stopWords;
      assert WithoutStopWords(words, stopWords) == WithoutStopWords(front, stopWords) + [last];
      assert words == front + [last];
    }
  }

  /** The term frequency of `word` in a document whose non-stop words are `words`. */
  function TermFrequency(words: seq<string>, word: string): real {
    if words == [] then 0.0 else Count(words, word) as real / |words| as real
  }

  /** `1.0 / words.size()`; for no words the C++ value is never used, so 0 stands in for it. */
  function InverseWordCount(words: seq<string>): (inc: real)
    ensures words != [] ==> inc > 0.0
  {
    if words == [] then 0.0 else 1.0 / |words| as real
  }

  /** Adding `1.0 / words.size()` once per occurrence of `word` sums to its term frequency. */
  lemma AccumulatedFrequency(words: seq<string>, word: string)
    ensures Accumulated(Count(words, word), InverseWordCount(words)) == TermFrequency(words, word)
  {
    if words != [] {
      ScaleInverse(Count(words, word) as real, |words| as real);
    }
  }

  lemma ScaleInverse(c: real, n: real)
    requires n > 0.0
    ensures c * (1.0 / n) == c / n
  {
  }

  // ---------------------------------------------------------------------------------------------
  // The document store

  /**
   * `document_ids_` lists every id of `documents_` exactly once, and ids are non-negative.
   */
  ghost predicate StoreValid(documents: map<int, DocumentData>, documentIds: seq<int>) {
    && (forall i :: 0 <= i < |documentIds| ==> documentIds[i] in documents)
    && (forall id :: id in documents ==> id >= 0 && id in documentIds)
    && Distinct(documentIds)
    && |documentIds| == |documents|
  }

  /** `documents_.emplace` of a new non-negative id with `document_ids_.push_back` keeps the store valid. */
  lemma AppendKeepsStoreValid(documents: map<int, DocumentData>, documentIds: seq<int>, id: int, data: DocumentData)
    requires StoreValid(documents, documentIds) && id >= 0 && id !in documents
    ensures StoreValid(documents[id := data], documentIds + [id])
  {
    var ids := documentIds + [id];
    assert forall i :: 0 <= i < |documentIds| ==> ids[i] == documentIds[i];
  }

  // ---------------------------------------------------------------------------------------------
  // The server

  class SearchServer {
    const stopWords: set<string>
    var wordToDocumentFreqs: TermIndex
    var documents: map<int, DocumentData>
    var documentIds: seq<int>

    /**
     * The invariant all operations keep: the ordinal sequence lists every stored id once, ids are
     * non-negative, and the index is well formed.
     */
    ghost predicate Valid()
      reads this
    {
      StoreValid(documents, documentIds) && WellFormed(wordToDocumentFreqs, stopWords)
    }

    /** Every index entry belongs to a stored document. */
    ghost predicate IndexConsistent()
      reads this
    {
      forall w, d :: Occurs(wordToDocumentFreqs, w, d) ==> d in documents
    }

    constructor (stopWords: set<string>)
      ensures Valid() && IndexConsistent()
      ensures this.stopWords == stopWords
      ensures documents == map[] && documentIds == [] && wordToDocumentFreqs == map[]
    {
      this.stopWords := stopWords;
      documents := map[];
      documentIds := [];
      wordToDocumentFreqs := map[];
    }

    /** The constructor from text: the stop words are the words of `stopWordsText`. */
    constructor FromText(stopWordsText: string)
      ensures Valid() && IndexConsistent()
      ensures forall w :: w in stopWords <==> w in SplitIntoWords(stopWordsText)
      ensures documents == map[] && documentIds == [] && wordToDocumentFreqs == map[]
    {
      stopWords := set w | w in SplitIntoWords(stopWordsText);
      documents := map[];
      documentIds := [];
      wordToDocumentFreqs := map[];
    }

    predicate IsStopWord(word: string) {
      word in stopWords
    }

    /** The words of `text` left after removing stop words. */
    function NonStopWords(text: string): seq<string> {
      WithoutStopWords(SplitIntoWords(text), stopWords)
    }

    method SplitIntoWordsNoStop(text: string) returns (words: seq<string>)
      ensures words == NonStopWords(text)
    {
      var tokens := SplitIntoWords(text);
      words := [];
      for i := 0 to |tokens|
        invariant words == WithoutStopWords(tokens[..i], stopWords)
      {
        assert tokens[..i + 1][..i] == tokens[..i];
        if !IsStopWord(tokens[i]) {
          words := words + [tokens[i]];
        }
      }
      assert tokens[..|tokens|] == tokens;
    }

    function GetDocumentCount(): (count: nat)
      reads this
      requires Valid()
      ensures count == |documentIds|
    {
      |documents|
    }

    /** `document_ids_.at(index)`: the id added `index`-th, or `out_of_range`. */
    function GetDocumentId(index: int): (r: Result<int, Error>)
      reads this
      requires Valid()
      ensures r.Success? <==> 0 <= index < GetDocumentCount()
      ensures r.Success? ==> r.value == documentIds[index] && r.value in documents
      ensures r.Failure? ==> r.error == IndexOutOfRange
    {
      if 0 <= index < |documentIds| then Success(documentIds[index]) else Failure(IndexOutOfRange)
    }

    /**
     * Adds a document, as written: the id checks come first, but each word is checked for control
     * characters inside the loop that updates the index, so a rejected word leaves the entries of
     * the words before it in place.
     */
    method AddDocument(documentId: int, document: string, status: DocumentStatus, ratings: seq<int>)
      returns (r: Outcome<Error>)
      requires Valid()
      modifies this
      ensures Valid()
      ensures documentId < 0 ==> r == Fail(NegativeId) && unchanged(this)
      ensures documentId >= 0 && documentId in old(documents) ==> r == Fail(DuplicateId) && unchanged(this)
      ensures documentId >= 0 && documentId !in old(documents) ==>
                var words := NonStopWords(document);
                var k := FirstWhere(words, IsInvalidWord);
                && r == (if k < |words| then Fail(InvalidWord) else Pass)
                && wordToDocumentFreqs == AddWords(old(wordToDocumentFreqs), documentId, words[..k], InverseWordCount(words))
      ensures r.Fail? ==> documents == old(documents) && documentIds == old(documentIds)
      ensures r.Pass? ==>
                && documents == old(documents)[documentId := DocumentData(ComputeAverageRating(ratings), status)]
                && documentIds == old(documentIds) + [documentId]
                && GetDocumentCount() == old(GetDocumentCount()) + 1
                && GetDocumentId(GetDocumentCount() - 1) == Success(documentId)
      ensures r.Pass? && old(IndexConsistent()) ==>
                && IndexConsistent()
                && forall w :: Weight(wordToDocumentFreqs, w, documentId) == TermFrequency(NonStopWords(document), w)
    {
      if documentId < 0 {
        r := Fail(NegativeId);
      } else if documentId in documents {
        r := Fail(DuplicateId);
      } else {
        r := AddNewDocument(documentId, document, DocumentData(ComputeAverageRating(ratings), status));
      }
    }

    /** `AddDocument` past the id checks: indexes the words up to the first invalid one. */
    method AddNewDocument(documentId: int, document: string, data: DocumentData)
      returns (r: Outcome<Error>)
      requires Valid() && documentId >= 0 && documentId !in documents
      modifies this
      ensures Valid()
      ensures var words := NonStopWords(document);
              var k := FirstWhere(words, IsInvalidWord);
              && r == (if k < |words| then Fail(InvalidWord) else Pass)
              && wordToDocumentFreqs == AddWords(old(wordToDocumentFreqs), documentId, words[..k], InverseWordCount(words))
      ensures r.Fail? ==> documents == old(documents) && documentIds == old(documentIds)
      ensures r.Pass? ==>
                && documents == old(documents)[documentId := data]
                && documentIds == old(documentIds) + [documentId]
      ensures r.Pass? && old(IndexConsistent()) ==>
                && IndexConsistent()
                && forall w :: Weight(wordToDocumentFreqs, w, documentId) == TermFrequency(NonStopWords(document), w)
    {
      var words := SplitIntoWordsNoStop(document);
      var indexed := IndexWords(documentId, words);
      if indexed < |words| {
        r := Fail(InvalidWord);
      } else {
        Emplace(documentId, data, old(wordToDocumentFreqs), words);
        r := Pass;
      }
    }

    /**
     * The loop of `AddDocument`: adds `1 / |words|` to each word's entry for `documentId` in turn,
     * stopping at the first word with a control character; returns how many words it added.
     */
    method IndexWords(documentId: int, words: seq<string>) returns (indexed: nat)
      requires WellFormed(wordToDocumentFreqs, stopWords)
      requires forall i :: 0 <= i < |words| ==> words[i] !in stopWords
      modifies this`wordToDocumentFreqs
      ensures WellFormed(wordToDocumentFreqs, stopWords)
      ensures indexed == FirstWhere(words, IsInvalidWord)
      ensures wordToDocumentFreqs == AddWords(old(wordToDocumentFreqs), documentId, words[..indexed], InverseWordCount(words))
      ensures indexed == |words| ==> wordToDocumentFreqs == AddWords(old(wordToDocumentFreqs), documentId, words, InverseWordCount(words))
    {
      var invWordCount := InverseWordCount(words);
      for i := 0 to |words|
        invariant forall j :: 0 <= j < i ==> !IsInvalidWord(words[j])
        invariant wordToDocumentFreqs == AddWords(old(wordToDocumentFreqs), documentId, words[..i], invWordCount)
        invariant WellFormed(wordToDocumentFreqs, stopWords)
      {
        if !IsValidWord(words[i]) {
          FirstWhereIs(words, IsInvalidWord, i);
          return i;
        }
        AddWordsSnoc(old(wordToDocumentFreqs), documentId, words[..i], words[i], invWordCount);
        assert words[..i + 1] == words[..i] + [words[i]];
        AddWordWellFormed(wordToDocumentFreqs, stopWords, documentId, words[i], invWordCount);
        wordToDocumentFreqs := AddWord(wordToDocumentFreqs, documentId, words[i], invWordCount);
      }
      FirstWhereIs(words, IsInvalidWord, |words|);
      assert words[..|words|] == words;
      indexed := |words|;
    }

    /**
     * `documents_.emplace` of a new id together with `document_ids_.push_back`, once the words of
     * the document have been added to an index `before` that only referred to stored documents.
     */
    method Emplace(documentId: int, data: DocumentData, ghost before: TermIndex, ghost words: seq<string>)
      requires StoreValid(documents, documentIds) && documentId >= 0 && documentId !in documents
      requires wordToDocumentFreqs == AddWords(before, documentId, words, InverseWordCount(words))
      modifies this`documents, this`documentIds
      ensures StoreValid(documents, documentIds)
      ensures documents == old(documents)[documentId := data]
      ensures documentIds == old(documentIds) + [documentId] && documentIds[|documentIds| - 1] == documentId
      ensures (forall w, d :: Occurs(before, w, d) ==> d in old(documents)) ==>
                && IndexConsistent()
                && forall w :: Weight(wordToDocumentFreqs, w, documentId) == TermFrequency(words, w)
    {
      if forall w, d :: Occurs(before, w, d) ==> d in documents {
        AddedDocumentEntries(before, documents, words, documentId);
      }
      AppendKeepsStoreValid(documents, documentIds, documentId, data);
      documents := documents[documentId := data];
      documentIds := documentIds + [documentId];
    }

    /** The position of the first word with a control character, or `|words|` when there is none. */
    static method FirstInvalidWord(words: seq<string>) returns (k: nat)
      ensures k == FirstWhere(words, IsInvalidWord)
    {
      for i := 0 to |words|
        invariant forall j :: 0 <= j < i ==> !IsInvalidWord(words[j])
      {
        if !IsValidWord(words[i]) {
          FirstWhereIs(words, IsInvalidWord, i);
          return i;
        }
      }
      FirstWhereIs(words, IsInvalidWord, |words|);
      k := |words|;
    }

    /**
     * The add as it is meant to behave: every word is checked before anything changes, so a
     * rejected document leaves the server exactly as it was and the index keeps referring only to
     * stored documents.
     */
    method AddDocumentAtomic(documentId: int, document: string, status: DocumentStatus, ratings: seq<int>)
      returns (r: Outcome<Error>)
      requires Valid()
      modifies this
      ensures Valid()
      ensures documentId < 0 ==> r == Fail(NegativeId)
      ensures documentId >= 0 && documentId in old(documents) ==> r == Fail(DuplicateId)
      ensures documentId >= 0 && documentId !in old(documents) ==>
                r == if forall w :: w in NonStopWords(document) ==> IsValidWord(w) then Pass else Fail(InvalidWord)
      ensures r.Fail? ==> unchanged(this)
      ensures r.Pass? ==>
                && documents == old(documents)[documentId := DocumentData(ComputeAverageRating(ratings), status)]
                && documentIds == old(documentIds) + [documentId]
                && GetDocumentCount() == old(GetDocumentCount()) + 1
                && GetDocumentId(GetDocumentCount() - 1) == Success(documentId)
                && wordToDocumentFreqs == AddWords(old(wordToDocumentFreqs), documentId, NonStopWords(document), InverseWordCount(NonStopWords(document)))
      ensures old(IndexConsistent()) ==> IndexConsistent()
      ensures r.Pass? && old(IndexConsistent()) ==>
                forall w :: Weight(wordToDocumentFreqs, w, documentId) == TermFrequency(NonStopWords(document), w)
    {
      if documentId < 0 {
        r := Fail(NegativeId);
      } else if documentId in documents {
        r := Fail(DuplicateId);
      } else {
        r := AddValidatedDocument(documentId, document, DocumentData(ComputeAverageRating(ratings), status));
      }
    }

    /** `AddDocumentAtomic` past the id checks: all words are checked before the first change. */
    method AddValidatedDocument(documentId: int, document: string, data: DocumentData)
      returns (r: Outcome<Error>)
      requires Valid() && documentId >= 0 && documentId !in documents
      modifies this
      ensures Valid()
      ensures r == if forall w :: w in NonStopWords(document) ==> IsValidWord(w) then Pass else Fail(InvalidWord)
      ensures r.Fail? ==> unchanged(this)
      ensures r.Pass? ==>
                && documents == old(documents)[documentId := data]
                && documentIds == old(documentIds) + [documentId]
                && wordToDocumentFreqs == AddWords(old(wordToDocumentFreqs), documentId, NonStopWords(document), InverseWordCount(NonStopWords(document)))
      ensures old(IndexConsistent()) ==> IndexConsistent()
      ensures r.Pass? && old(IndexConsistent()) ==>
                forall w :: Weight(wordToDocumentFreqs, w, documentId) == TermFrequency(NonStopWords(document), w)
    {
      var words := SplitIntoWordsNoStop(document);
      var invalid := FirstInvalidWord(words);
      if invalid < |words| {
        r := Fail(InvalidWord);
      } else {
        var indexed := IndexWords(documentId, words);
        Emplace(documentId, data, old(wordToDocumentFreqs), words);
        r := Pass;
      }
    }

    // -------------------------------------------------------------------------------------------
    // Queries

    /**
     * One query token: rejected for a control character, for a bare "-" and for a "--" prefix;
     * otherwise a leading '-' marks a minus word, and the stop-word test sees the whole token.
     */
    function ParseQueryWord(word: string): (r: Result<QueryWord, Error>)
      ensures !IsValidWord(word) ==> r == Failure(InvalidWord)
      ensures IsValidWord(word) && (word == "-" || (|word| >= 2 && word[..2] == "--")) ==> r == Failure(MalformedQuery)
      ensures r.Success? <==> IsValidWord(word) && word != "-" && !(|word| >= 2 && word[..2] == "--")
      ensures r.Success? ==>
                && (if r.value.isMinus then "-" + r.value.data else r.value.data) == word
                && (r.value.isMinus ==> r.value.data != [] && r.value.data[0] != '-')
                && (!r.value.isMinus ==> word == [] || word[0] != '-')
                && (r.value.isStop <==> word in stopWords)
    {
      if !IsValidWord(word) then Failure(InvalidWord)
      else if word == "-" then Failure(MalformedQuery)
      else if |word| >= 2 && word[..2] == "--" then Failure(MalformedQuery)
      else
        // `word[0]` of an empty std::string is '\0', so the empty token is not a minus word
        var isMinus := |word| > 0 && word[0] == '-';
        Success(QueryWord(if isMinus then word[1..] else word, isMinus, IsStopWord(word)))
    }

    predicate ParseFails(token: string) {
      ParseQueryWord(token).Failure?
    }

    /** A token that `ParseQuery` puts into `plus_words`. */
    predicate IsPlusToken(token: string) {
      var p := ParseQueryWord(token);
      p.Success? && !p.value.isMinus && !p.value.isStop
    }

    /** A token that `ParseQuery` puts into `minus_words` (with its '-' removed). */
    predicate IsMinusToken(token: string) {
      var p := ParseQueryWord(token);
      p.Success? && p.value.isMinus && !p.value.isStop
    }

    /** The query the tokens make when none of them is rejected. */
    function QueryOf(tokens: seq<string>): (q: Query)
      ensures forall w :: w in q.plusWords ==> w in tokens && w !in stopWords
      ensures forall w :: w in q.minusWords ==> "-" + w in tokens
    {
      Query(set t | t in tokens && IsPlusToken(t) :: ParseQueryWord(t).value.data,
            set t | t in tokens && IsMinusToken(t) :: ParseQueryWord(t).value.data)
    }

    /** The query `text` parses to, or the error of its first rejected token. */
    function ParsedQuery(text: string): (r: Result<Query, Error>)
      ensures r.Failure? ==> r.error == InvalidWord || r.error == MalformedQuery
      ensures r.Success? ==> forall w :: w in r.value.plusWords ==> w !in stopWords
    {
      var tokens := SplitIntoWords(text);
      var k := FirstWhere(tokens, ParseFails);
      if k < |tokens| then Failure(ParseQueryWord(tokens[k]).error) else Success(QueryOf(tokens))
    }

    method ParseQuery(text: string) returns (r: Result<Query, Error>)
      ensures r == ParsedQuery(text)
    {
      var tokens := SplitIntoWords(text);
      var plusWords: set<string> := {};
      var minusWords: set<string> := {};
      for i := 0 to |tokens|
        invariant forall j :: 0 <= j < i ==> !ParseFails(tokens[j])
        invariant Query(plusWords, minusWords) == QueryOf(tokens[..i])
      {
        var queryWord := ParseQueryWord(tokens[i]);
        if queryWord.Failure? {
          FirstWhereIs(tokens, ParseFails, i);
          return Failure(queryWord.error);
        }
        QueryOfSnoc(tokens[..i], tokens[i]);
        assert tokens[..i + 1] == tokens[..i] + [tokens[i]];
        if !queryWord.value.isStop {
          if queryWord.value.isMinus {
            minusWords := minusWords + {queryWord.value.data};
          } else {
            plusWords := plusWords + {queryWord.value.data};
          }
        }
      }
      assert tokens[..|tokens|] == tokens;
      FirstWhereIs(tokens, ParseFails, |tokens|);
      r := Success(Query(plusWords, minusWords));
    }

    lemma QueryOfSnoc(tokens: seq<string>, token: string)
      requires !ParseFails(token)
      ensures var q, p := QueryOf(tokens), ParseQueryWord(token).value;
              QueryOf(tokens + [token]) ==
                if p.isStop then q
                else if p.isMinus then Query(q.plusWords, q.minusWords + {p.data})
                else Query(q.plusWords + {p.data}, q.minusWords)
    {
      var longer := tokens + [token];
      assert forall t :: t in longer <==> t in tokens || t == token;
    }

    /** Some minus word of `query` has an entry for `documentId`. */
    predicate Excludes(query: Query, documentId: int)
      reads this
    {
      exists w :: w in query.minusWords && Occurs(wordToDocumentFreqs, w, documentId)
    }

    /**
     * The plus words of the query with an entry for `documentId`, each once, or none at all when a
     * minus word has an entry for it; with the document's status. A query that does not parse fails
     * with its error, and a document that is not stored fails with `UnknownDocument`.
     */
    method MatchDocument(rawQuery: string, documentId: int) returns (r: Result<MatchResult, Error>)
      ensures ParsedQuery(rawQuery).Failure? ==> r == Failure(ParsedQuery(rawQuery).error)
      ensures ParsedQuery(rawQuery).Success? ==> (r.Success? <==> documentId in documents)
      ensures ParsedQuery(rawQuery).Success? && documentId !in documents ==> r == Failure(UnknownDocument)
      ensures ParsedQuery(rawQuery).Success? && r.Success? ==>
                var query, matched := ParsedQuery(rawQuery).value, r.value.matchedWords;
                && documentId in documents
                && r.value.status == documents[documentId].status
                && Distinct(matched)
                && (Excludes(query, documentId) ==> matched == [])
                && (!Excludes(query, documentId) ==>
                      forall w :: w in matched <==> w in query.plusWords && Occurs(wordToDocumentFreqs, w, documentId))
    {
      var query :- ParseQuery(rawQuery);
      var matched: seq<string> := [];
      var plusLeft := query.plusWords;
      while plusLeft != {}
        invariant plusLeft <= query.plusWords
        invariant Distinct(matched)
        invariant forall w :: w in matched ==> w !in plusLeft
        invariant forall w :: w in matched <==>
                    w in query.plusWords && w !in plusLeft && Occurs(wordToDocumentFreqs, w, documentId)
        decreases plusLeft
      {
        var word :| word in plusLeft;
        // a word absent from the index is skipped (`continue`) before its entries are looked at
        if word in wordToDocumentFreqs && documentId in wordToDocumentFreqs[word] {
          matched := matched + [word];
        }
        plusLeft := plusLeft - {word};
      }
      var minusLeft := query.minusWords;
      while minusLeft != {}
        invariant minusLeft <= query.minusWords
        invariant forall w :: w in query.minusWords && w !in minusLeft ==> !Occurs(wordToDocumentFreqs, w, documentId)
        decreases minusLeft
      {
        var word :| word in minusLeft;
        if word in wordToDocumentFreqs && documentId in wordToDocumentFreqs[word] {
          matched := [];
          break;
        }
        minusLeft := minusLeft - {word};
      }
      // `documents_.at(document_id)` after both loops
      if documentId !in documents {
        return Failure(UnknownDocument);
      }
      r := Success(MatchResult(matched, documents[documentId].status));
    }

    /** A query fails to parse exactly when one of its tokens is rejected. */
    lemma ParsedQueryFails(text: string)
      ensures ParsedQuery(text).Failure? <==> exists t :: t in SplitIntoWords(text) && ParseFails(t)
    {
      var tokens := SplitIntoWords(text);
      var k := FirstWhere(tokens, ParseFails);
      if k < |tokens| {
        assert tokens[k] in tokens && ParseFails(tokens[k]);
      } else {
        forall t | t in tokens ensures !ParseFails(t) {
          var j :| 0 <= j < |tokens| && tokens[j] == t;
        }
      }
    }

    /**
     * The plus words of a parsed query are the tokens of the text that parse as non-stop plus words;
     * its minus words are the tokens that parse as non-stop minus words, without their '-'.
     */
    lemma ParsedQueryWords(text: string, w: string)
      requires ParsedQuery(text).Success?
      ensures w in ParsedQuery(text).value.plusWords <==> w in SplitIntoWords(text) && IsPlusToken(w)
      ensures w in ParsedQuery(text).value.minusWords <==> "-" + w in SplitIntoWords(text) && IsMinusToken("-" + w)
    {
      var tokens := SplitIntoWords(text);
      var q := QueryOf(tokens);
      if w in q.plusWords {
        var t :| t in tokens && IsPlusToken(t) && ParseQueryWord(t).value.data == w;
      }
      if w in q.minusWords {
        var t :| t in tokens && IsMinusToken(t) && ParseQueryWord(t).value.data == w;
      }
      if "-" + w in tokens && IsMinusToken("-" + w) {
        assert ParseQueryWord("-" + w).value.data == w;
      }
    }

    /**
     * The stop-word test sees a minus token with its '-': a stop word written as a minus word is not
     * dropped but becomes a minus word.
     */
    lemma MinusStopWordIsKept(word: string)
      requires word in stopWords && "-" + word !in stopWords
      requires IsValidWord(word) && word != [] && word[0] != '-'
      ensures ParseQueryWord("-" + word) == Success(QueryWord(word, true, false))
      ensures IsMinusToken("-" + word)
    {
      var token := "-" + word;
      assert forall i :: 0 < i < |token| ==> token[i] == word[i - 1];
      assert token[..2] == ['-', word[0]];
    }

    /** Stop words never have index entries, so a stop word kept as a minus word excludes nothing. */
    lemma StopWordsNeverOccur(word: string, documentId: int)
      requires Valid() && word in stopWords
      ensures !Occurs(wordToDocumentFreqs, word, documentId)
    {
    }

    /** What a successful add does to an index that only referred to stored documents. */
    static lemma AddedDocumentEntries(before: TermIndex, stored: map<int, DocumentData>, words: seq<string>, id: int)
      requires forall w, d :: Occurs(before, w, d) ==> d in stored
      requires id !in stored
      ensures var after := AddWords(before, id, words, InverseWordCount(words));
              && (forall w, d :: Occurs(after, w, d) ==> d in stored || d == id)
              && forall w :: Weight(after, w, id) == TermFrequency(words, w)
    {
      var after := AddWords(before, id, words, InverseWordCount(words));
      forall w, d | Occurs(after, w, d) ensures d in stored || d == id {
        AddWordsOccurs(before, id, words, InverseWordCount(words), w, d);
      }
      forall w ensures Weight(after, w, id) == TermFrequency(words, w) {
        AddWordsWeight(before, id, words, InverseWordCount(words), w, id);
        AccumulatedFrequency(words, w);
      }
    }
  }

  // ---------------------------------------------------------------------------------------------
  // AddDocument as written, on a document with a control character

  /**
   * For "cat do\U{1}g" with no stop words, the add fails with `InvalidWord` (the second word is
   * rejected), yet "cat" keeps an entry of 1/2 for the rejected id; adding "cat" under the same id
   * afterwards is accepted, since the id was never stored, and gives "cat" the weight 3/2 instead of
   * its term frequency 1.
   */
  lemma RejectedDocumentKeepsEntries(before: TermIndex, id: int)
    requires !Occurs(before, "cat", id)
    ensures var words := WithoutStopWords(SplitIntoWords("cat do\U{1}g"), {});
            var k := FirstWhere(words, IsInvalidWord);
            var rejected := AddWords(before, id, words[..k], InverseWordCount(words));
            var retried := AddWords(rejected, id, ["cat"], InverseWordCount(["cat"]));
            && words == ["cat", "do\U{1}g"]
            && k == 1
            && Occurs(rejected, "cat", id) && Weight(rejected, "cat", id) == 0.5
            && Weight(retried, "cat", id) == 1.5
            && TermFrequency(["cat"], "cat") == 1.0
  {
    var words := ["cat", "do\U{1}g"];
    ExampleWords();
    KeepsAllNonStopWords(words, {});
    ExampleFirstInvalid();
    assert words[..1] == ["cat"];
    ExampleWeights(before, id);
  }

  lemma ExampleWords()
    ensures SplitIntoWords("cat do\U{1}g") == ["cat", "do\U{1}g"]
  {
    var text := "cat do\U{1}g";
    assert text == "cat" + text[3..];
    SplitWord("cat", text[3..], []);
    assert [] + "cat" == "cat";
    assert Split(text[3..], "cat") == ["cat"] + Split(text[4..], []);
    assert text[4..] == "do\U{1}g" + [];
    SplitWord("do\U{1}g", [], []);
    assert [] + "do\U{1}g" == "do\U{1}g";
  }

  lemma ExampleFirstInvalid()
    ensures FirstWhere(["cat", "do\U{1}g"], IsInvalidWord) == 1
  {
    var words := ["cat", "do\U{1}g"];
    assert IsControl(words[1][2]);
    assert IsValidWord(words[0]);
    FirstWhereIs(words, IsInvalidWord, 1);
  }

  lemma ExampleWeights(before: TermIndex, id: int)
    requires !Occurs(before, "cat", id)
    ensures var rejected := AddWords(before, id, ["cat"], 0.5);
            && Occurs(rejected, "cat", id) && Weight(rejected, "cat", id) == 0.5
            && Weight(AddWords(rejected, id, ["cat"], 1.0), "cat", id) == 1.5
            && TermFrequency(["cat"], "cat") == 1.0
  {
    assert Count(["cat"], "cat") == 1 by {
      assert ["cat"][..0] == [];
    }
    AddWordsWeight(before, id, ["cat"], 0.5, "cat", id);
    AddWordsOccurs(before, id, ["cat"], 0.5, "cat", id);
    AddWordsWeight(AddWords(before, id, ["cat"], 0.5), id, ["cat"], 1.0, "cat", id);
  }
}
