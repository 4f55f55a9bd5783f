/**
 * The tokenizer the search server relies on. `SplitIntoWords` is declared in a header that is not
 * part of this model; it is modelled here as splitting on the space character and dropping empty
 * tokens, which is an assumption of the model.
 */
module Text {

  /** A word never contains the separator and is never empty. */
  predicate IsWord(w: string) {
    w != [] && ' ' !in w
  }

  /** The words of `text` in order: maximal runs of characters other than ' '. */
  function SplitIntoWords(text: string): (words: seq<string>)
    ensures forall i :: 0 <= i < |words| ==> IsWord(words[i])
  {
    Split(text, [])
  }

  /** Scans `rest`, with `current` the part of a word read so far. */
  function Split(rest: string, current: string): (words: seq<string>)
    requires ' ' !in current
    ensures forall i :: 0 <= i < |words| ==> IsWord(words[i])
    decreases |rest|
  {
    if rest == [] then
      (if current == [] then [] else [current])
    else if rest[0] == ' ' then
      (if current == [] then Split(rest[1..], []) else [current] + Split(rest[1..], []))
    else
      Split(rest[1..], current + [rest[0]])
  }

  /** The words separated by single spaces: the inverse of `SplitIntoWords` on well-formed words. */
  function Join(words: seq<string>): string {
    if words == [] then []
    else if |words| == 1 then words[0]
    else words[0] + " " + Join(words[1..])
  }

  lemma {:induction false} SplitWord(w: string, rest: string, current: string)
    requires ' ' !in w && ' ' !in current
    ensures Split(w + rest, current) == Split(rest, current + w)
    decreases |w|
  {
    if w == [] {
      assert w + rest == rest;
      assert current + w == current;
    } else {
      assert (w + rest)[0] == w[0];
      assert (w + rest)[1..] == w[1..] + rest;
      SplitWord(w[1..], rest, current + [w[0]]);
      assert current + [w[0]] + w[1..] == current + w;
    }
  }

  /** Splitting the space-joined words gives back exactly those words. */
  lemma {:induction false} SplitJoin(words: seq<string>)
    requires forall i :: 0 <= i < |words| ==> IsWord(words[i])
    ensures SplitIntoWords(Join(words)) == words
    decreases |words|
  {
    if words == [] {
    } else if |words| == 1 {
      SplitWord(words[0], [], []);
      assert words[0] + [] == words[0];
      assert [] + words[0] == words[0];
    } else {
      var w, tail := words[0], Join(words[1..]);
      assert Join(words) == w + (" " + tail);
      SplitWord(w, " " + tail, []);
      assert [] + w == w;
      assert (" " + tail)[1..] == tail;
      SplitJoin(words[1..]);
      assert words == [w] + words[1..];
    }
  }
}
