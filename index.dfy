/**
 * The inverted index `word_to_document_freqs_` of search_server.cpp: for each word, the documents
 * that contain it and the word's term frequency in each. The C++ `double` weights are exact reals.
 */
module Index {
  import opened Seqs

  type TermIndex = map<string, map<int, real>>

  /** Whether `word` has an entry for document `id`. */
  predicate Occurs(index: TermIndex, word: string, id: int) {
    word in index && id in index[word]
  }

  /** The entry of `word` for `id`, or 0 where `operator[]` would default-construct one. */
  function Weight(index: TermIndex, word: string, id: int): real {
    if Occurs(index, word, id) then index[word][id] else 0.0
  }

  /** `word_to_document_freqs_[word][id] += inc`: creates the entries it needs, touches nothing else. */
  function AddWord(index: TermIndex, id: int, word: string, inc: real): (r: TermIndex)
    ensures Occurs(r, word, id) && Weight(r, word, id) == Weight(index, word, id) + inc
  {
    var entries := if word in index then index[word] else map[];
    index[word := entries[id := Weight(index, word, id) + inc]]
  }

  /**
   * The loop of `AddDocument` over `words`, each adding `inc` for `id`, in order. The words indexed
   * afterwards are those indexed before together with the added ones.
   */
  function AddWords(index: TermIndex, id: int, words: seq<string>, inc: real): (r: TermIndex)
    ensures forall w :: w in r <==> w in index || w in words
  {
    if words == [] then index
    else AddWord(AddWords(index, id, words[..|words| - 1], inc), id, words[|words| - 1], inc)
  }

  lemma AddWordsSnoc(index: TermIndex, id: int, words: seq<string>, word: string, inc: real)
    ensures AddWords(index, id, words + [word], inc) == AddWord(AddWords(index, id, words, inc), id, word, inc)
  {
    assert (words + [word])[..|words|] == words;
  }

  /** The effect of one `+=` on a single entry. */
  lemma AddWordAt(index: TermIndex, id: int, word: string, inc: real, w: string, d: int)
    ensures Weight(AddWord(index, id, word, inc), w, d)
            == Weight(index, w, d) + (if w == word && d == id then inc else 0.0)
    ensures Occurs(AddWord(index, id, word, inc), w, d) <==> Occurs(index, w, d) || (w == word && d == id)
  {
  }

  /** The sum of `k` additions of `inc`, as `+=` accumulates it. */
  function Accumulated(k: nat, inc: real): (r: real)
    ensures r == k as real * inc
  {
    if k == 0 then 0.0 else Accumulated(k - 1, inc) + inc
  }

  /**
   * After adding `words` for `id`, every word's weight for `id` grew by `inc` once per occurrence,
   * and the weights of every other document are as before.
   */
  lemma {:induction false} AddWordsWeight(index: TermIndex, id: int, words: seq<string>, inc: real, word: string, d: int)
    ensures Weight(AddWords(index, id, words, inc), word, d)
            == Weight(index, word, d) + (if d == id then Accumulated(Count(words, word), inc) else 0.0)
    decreases |words|
  {
    if words != [] {
      var front, last := words[..|words| - 1], words[|words| - 1];
      var before := AddWords(index, id, front, inc);
      AddWordsWeight(index, id, front, inc, word, d);
      AddWordAt(before, id, last, inc, word, d);
      assert Count(words, word) == Count(front, word) + (if last == word then 1 else 0);
    }
  }

  /**
   * After adding `words` for `id`, a word has an entry for `id` exactly when it had one before or
   * occurs in `words`; the entries of every other document are as before.
   */
  lemma {:induction false} AddWordsOccurs(index: TermIndex, id: int, words: seq<string>, inc: real, word: string, d: int)
    ensures Occurs(AddWords(index, id, words, inc), word, d)
            <==> Occurs(index, word, d) || (d == id && word in words)
    decreases |words|
  {
    if words != [] {
      var front, last := words[..|words| - 1], words[|words| - 1];
      AddWordsOccurs(index, id, front, inc, word, d);
      AddWordAt(AddWords(index, id, front, inc), id, last, inc, word, d);
      assert words == front + [last];
    }
  }

  /**
   * The shape every reachable index has: no stop word is a key, no key has an empty entry map,
   * and every weight is positive.
   */
  predicate WellFormed(index: TermIndex, stopWords: set<string>) {
    forall w :: w in index ==>
      w !in stopWords && index[w] != map[] && forall d :: d in index[w] ==> index[w][d] > 0.0
  }

  lemma AddWordWellFormed(index: TermIndex, stopWords: set<string>, id: int, word: string, inc: real)
    requires WellFormed(index, stopWords) && word !in stopWords && inc > 0.0
    ensures WellFormed(AddWord(index, id, word, inc), stopWords)
  {
    var r := AddWord(index, id, word, inc);
    forall w | w in r
      ensures w !in stopWords && r[w] != map[] && forall d :: d in r[w] ==> r[w][d] > 0.0
    {
      if w == word {
        assert id in r[w];
        forall d | d in r[w] ensures r[w][d] > 0.0 {
          AddWordAt(index, id, word, inc, w, d);
        }
      } else {
        assert r[w] == index[w];
      }
    }
  }
}
