/**
 * Small concrete uses of the server: the contracts of `AddDocument` and `MatchDocument` are enough
 * to know the outcome of each call.
 */
module Scenarios {
  import opened Wrappers
  import opened Seqs
  import opened Text
  import opened Index
  import opened SearchServer

  /** A sequence without repetitions whose only element is `x` is `[x]`. */
  lemma DistinctSingleton<T>(s: seq<T>, x: T)
    requires Distinct(s)
    requires forall w :: w in s <==> w == x
    ensures s == [x]
  {
    assert x in s;
    assert s[0] in s;
    var rest := s[1..];
    forall k | 0 <= k < |rest| ensures rest[k] != x {
      assert rest[k] == s[k + 1];
    }
    assert forall w :: w in rest ==> w in s;
    HeadIsMember(rest);
    assert s == [s[0]] + rest;
  }

  lemma HeadIsMember<T>(s: seq<T>)
    ensures s != [] ==> s[0] in s
  {
  }

  lemma CatDogCatWords()
    ensures SplitIntoWords("cat dog cat") == ["cat", "dog", "cat"]
  {
    assert Join(["cat", "dog", "cat"]) == "cat dog cat";
    SplitJoin(["cat", "dog", "cat"]);
  }

  lemma CatWords()
    ensures SplitIntoWords("cat") == ["cat"]
  {
    assert Join(["cat"]) == "cat";
    SplitJoin(["cat"]);
  }

  /** With no stop words, the words of "cat dog cat" are its three tokens. */
  lemma CatDogCatDocument(server: SearchServer)
    requires server.stopWords == {}
    ensures server.NonStopWords("cat dog cat") == ["cat", "dog", "cat"]
  {
    CatDogCatWords();
    KeepsAllNonStopWords(["cat", "dog", "cat"], {});
  }

  /** None of them has a control character, and "cat" has a positive term frequency. */
  lemma CatDogCatValid()
    ensures FirstWhere(["cat", "dog", "cat"], IsInvalidWord) == 3
    ensures TermFrequency(["cat", "dog", "cat"], "cat") > 0.0
  {
    var words := ["cat", "dog", "cat"];
    assert IsValidWord(words[0]) && IsValidWord(words[1]);
    FirstWhereIs(words, IsInvalidWord, 3);
    assert Count(words, "cat") > 0 by { assert "cat" in words; }
  }

  /** With no stop words, the query "cat" has the single plus word "cat". */
  lemma CatQuery(server: SearchServer)
    requires server.stopWords == {}
    ensures server.ParsedQuery("cat") == Success(Query({"cat"}, {}))
  {
    CatWords();
    assert server.ParseQueryWord("cat") == Success(QueryWord("cat", false, false));
    FirstWhereIs(["cat"], server.ParseFails, 1);
    assert server.QueryOf(["cat"]) == Query({"cat"}, {});
  }

  /** Indexing "cat dog cat" and matching "cat" against it yields `["cat"]`. */
  method MatchAfterAdd() {
    var server := new SearchServer({});
    CatDogCatDocument(server);
    CatDogCatValid();
    var added := server.AddDocument(0, "cat dog cat", Actual, [8, -3]);
    assert added == Pass;
    assert Occurs(server.wordToDocumentFreqs, "cat", 0);
    CatQuery(server);
    var matched := server.MatchDocument("cat", 0);
    assert matched.Success? && matched.value.status == Actual;
    DistinctSingleton(matched.value.matchedWords, "cat");
    assert matched.value.matchedWords == ["cat"];
  }

  // ---------------------------------------------------------------------------------------------
  // A minus word vetoes the match

  lemma FluffyDocument(server: SearchServer)
    requires server.stopWords == {"and"}
    ensures server.NonStopWords("fluffy cat fluffy tail") == ["fluffy", "cat", "fluffy", "tail"]
  {
    var words := ["fluffy", "cat", "fluffy", "tail"];
    assert Join(words) == "fluffy cat fluffy tail";
    SplitJoin(words);
    KeepsAllNonStopWords(words, {"and"});
  }

  lemma FluffyValid()
    ensures FirstWhere(["fluffy", "cat", "fluffy", "tail"], IsInvalidWord) == 4
  {
    var words := ["fluffy", "cat", "fluffy", "tail"];
    assert IsValidWord(words[0]) && IsValidWord(words[1]) && IsValidWord(words[3]);
    FirstWhereIs(words, IsInvalidWord, 4);
  }

  lemma FluffyFrequency()
    ensures TermFrequency(["fluffy", "cat", "fluffy", "tail"], "cat") > 0.0
  {
    var words := ["fluffy", "cat", "fluffy", "tail"];
    assert Count(words, "cat") > 0 by { assert words[1] in words; }
  }

  lemma FluffyQueryTokens()
    ensures SplitIntoWords("fluffy -cat") == ["fluffy", "-cat"]
  {
    assert Join(["fluffy", "-cat"]) == "fluffy -cat";
    SplitJoin(["fluffy", "-cat"]);
  }

  lemma FluffyQueryWords(server: SearchServer)
    requires server.stopWords == {"and"}
    ensures server.ParseQueryWord("fluffy") == Success(QueryWord("fluffy", false, false))
    ensures server.ParseQueryWord("-cat") == Success(QueryWord("cat", true, false))
  {
    assert "-cat"[..2] == "-c";
    assert "-cat"[1..] == "cat";
  }

  lemma FluffyQueryOf(server: SearchServer)
    requires server.stopWords == {"and"}
    ensures server.QueryOf(["fluffy", "-cat"]) == Query({"fluffy"}, {"cat"})
  {
    var tokens := ["fluffy", "-cat"];
    FluffyQueryWords(server);
    assert server.QueryOf([]) == Query({}, {});
    server.QueryOfSnoc([], "fluffy");
    assert [] + ["fluffy"] == ["fluffy"];
    server.QueryOfSnoc(["fluffy"], "-cat");
    assert ["fluffy"] + ["-cat"] == tokens;
  }

  lemma FluffyQueryAccepted(server: SearchServer)
    requires server.stopWords == {"and"}
    ensures FirstWhere(["fluffy", "-cat"], server.ParseFails) == 2
  {
    FluffyQueryWords(server);
    FirstWhereIs(["fluffy", "-cat"], server.ParseFails, 2);
  }

  /** With the stop word "and", the query "fluffy -cat" has the plus word "fluffy" and the minus word "cat". */
  lemma FluffyQuery(server: SearchServer)
    requires server.stopWords == {"and"}
    ensures server.ParsedQuery("fluffy -cat") == Success(Query({"fluffy"}, {"cat"}))
  {
    FluffyQueryTokens();
    FluffyQueryAccepted(server);
    FluffyQueryOf(server);
  }

  /** "fluffy cat fluffy tail" contains the minus word of "fluffy -cat", so nothing matches. */
  method ExcludedByMinusWord() {
    var server := new SearchServer({"and"});
    FluffyDocument(server);
    FluffyValid();
    FluffyFrequency();
    var added := server.AddDocument(1, "fluffy cat fluffy tail", Actual, [7, 2, 7]);
    assert added == Pass;
    assert Occurs(server.wordToDocumentFreqs, "cat", 1);
    FluffyQuery(server);
    var matched := server.MatchDocument("fluffy -cat", 1);
    assert server.Excludes(Query({"fluffy"}, {"cat"}), 1);
    assert matched == Success(MatchResult([], Actual));
  }

  // ---------------------------------------------------------------------------------------------
  // A rejected document, added as written and atomically

  lemma RejectedDocument(server: SearchServer)
    requires server.stopWords == {}
    ensures server.NonStopWords("cat do\U{1}g") == ["cat", "do\U{1}g"]
    ensures server.NonStopWords("cat") == ["cat"]
    ensures FirstWhere(["cat", "do\U{1}g"], IsInvalidWord) == 1
    ensures FirstWhere(["cat"], IsInvalidWord) == 1
  {
    ExampleWords();
    KeepsAllNonStopWords(["cat", "do\U{1}g"], {});
    CatWords();
    KeepsAllNonStopWords(["cat"], {});
    ExampleFirstInvalid();
    assert IsValidWord(["cat"][0]);
    FirstWhereIs(["cat"], IsInvalidWord, 1);
  }

  /** As written: the rejected add leaves "cat" indexed for id 0, and the retry counts it twice. */
  method RetryAfterRejectedAdd() {
    var server := new SearchServer({});
    RejectedDocument(server);
    RejectedDocumentKeepsEntries(map[], 0);
    var rejected := server.AddDocument(0, "cat do\U{1}g", Actual, []);
    assert rejected == Fail(InvalidWord);
    assert 0 !in server.documents && Occurs(server.wordToDocumentFreqs, "cat", 0);
    assert ["cat", "do\U{1}g"][..1] == ["cat"];
    assert ["cat"][..1] == ["cat"];
    var retried := server.AddDocument(0, "cat", Actual, []);
    assert retried == Pass;
    assert Weight(server.wordToDocumentFreqs, "cat", 0) == 1.5;
  }

  /** Atomically: the rejected add changes nothing, and the retry gives "cat" its term frequency. */
  method RetryAfterRejectedAtomicAdd() {
    var server := new SearchServer({});
    RejectedDocument(server);
    assert !IsValidWord("do\U{1}g") by { assert IsControl("do\U{1}g"[2]); }
    var rejected := server.AddDocumentAtomic(0, "cat do\U{1}g", Actual, []);
    assert rejected == Fail(InvalidWord);
    assert server.wordToDocumentFreqs == map[] && server.documents == map[];
    var retried := server.AddDocumentAtomic(0, "cat", Actual, []);
    assert retried == Pass;
    assert Count(["cat"], "cat") == 1 by { assert ["cat"][..0] == []; }
    assert Weight(server.wordToDocumentFreqs, "cat", 0) == 1.0;
  }
}
