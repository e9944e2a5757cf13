/** The translation dictionary and its lookup with pass-through fallback. */
module Lexicons {
  import opened Hypotheses

  /** Source word to its candidate translations, in dictionary order. */
  type Dictionary = map<string, seq<Candidate>>

  /** The entry every unknown word receives: the word itself, with certainty 1.0. */
  function FallbackEntry(word: string): seq<Candidate>
  {
    [(word, 1.0)]
  }

  /** The dictionary after looking `word` up: a missing word gains its fallback
      entry; nothing else is added or changed. */
  function WithFallback(d: Dictionary, word: string): (r: Dictionary)
    ensures r.Keys == d.Keys + {word}
    ensures forall k :: k in d ==> r[k] == d[k]
    ensures word !in d ==> r[word] == FallbackEntry(word)
    ensures word in d ==> r == d
  {
    if word in d then d else d[word := FallbackEntry(word)]
  }

  /** The dictionary after the words of a sentence have been looked up in order. */
  function Learned(d: Dictionary, words: seq<string>): Dictionary
    decreases |words|
  {
    if words == [] then d
    else WithFallback(Learned(d, words[..|words| - 1]), words[|words| - 1])
  }

  /** The keys after a sentence's lookups: the old ones and the sentence's words. */
  lemma {:induction false} LearnedKeys(d: Dictionary, words: seq<string>)
    ensures Learned(d, words).Keys == d.Keys + (set w | w in words)
    decreases |words|
  {
    if words != [] {
      var front, last := words[..|words| - 1], words[|words| - 1];
      LearnedKeys(d, front);
      assert words == front + [last];
      assert (set w | w in words) == (set w | w in front) + {last};
    }
  }

  /** Looking up a whole sentence adds exactly the sentence's unknown words, each
      with its fallback entry, and leaves every existing entry as it was. */
  lemma {:induction false} LearnedEntries(d: Dictionary, words: seq<string>)
    ensures Learned(d, words).Keys == d.Keys + (set w | w in words)
    ensures forall k :: k in d ==> Learned(d, words)[k] == d[k]
    ensures forall k :: k in words && k !in d ==> Learned(d, words)[k] == FallbackEntry(k)
    decreases |words|
  {
    LearnedKeys(d, words);
    if words != [] {
      var front, last := words[..|words| - 1], words[|words| - 1];
      LearnedEntries(d, front);
      var prev := Learned(d, front);
      assert Learned(d, words) == WithFallback(prev, last);
      assert words == front + [last];
      forall k | k in words && k !in d
        ensures Learned(d, words)[k] == FallbackEntry(k)
      {
        if k != last {
          assert k in front;
          assert Learned(d, words)[k] == prev[k];
        }
      }
    }
  }

  /** Looking up words the dictionary already holds leaves it unchanged. */
  lemma LearnedKnown(d: Dictionary, words: seq<string>)
    requires forall w :: w in words ==> w in d
    ensures Learned(d, words) == d
  {
    LearnedEntries(d, words);
  }

  /** Every entry the lookups can create holds a candidate, so a dictionary whose
      entries are all non-empty stays that way. */
  lemma {:induction false} LearnedNonEmpty(d: Dictionary, words: seq<string>)
    requires forall k :: k in d ==> |d[k]| >= 1
    ensures forall k :: k in Learned(d, words) ==> |Learned(d, words)[k]| >= 1
    decreases |words|
  {
    if words != [] {
      LearnedNonEmpty(d, words[..|words| - 1]);
    }
  }

  /** After the lookups of a sentence, every word of it has a non-empty entry,
      provided the words it already knew had one: an unknown word gets the
      fallback, which holds a candidate. */
  lemma LearnedUsedNonEmpty(d: Dictionary, words: seq<string>)
    requires forall w :: w in words && w in d ==> |d[w]| >= 1
    ensures forall j :: 0 <= j < |words| ==> words[j] in Learned(d, words) && |Learned(d, words)[words[j]]| >= 1
  {
    LearnedEntries(d, words);
    forall j | 0 <= j < |words|
      ensures words[j] in Learned(d, words) && |Learned(d, words)[words[j]]| >= 1
    {
      assert words[j] in words;
    }
  }

  /** The process-wide `translation_dictionary`, which lookups extend in place. */
  class Lexicon {
    var entries: Dictionary

    constructor (initial: Dictionary)
      ensures entries == initial
    {
      entries := initial;
    }

    /** `find`, and `insert` of the fallback entry when the word is missing. */
    method Find(word: string) returns (candidates: seq<Candidate>)
      modifies this
      ensures entries == WithFallback(old(entries), word)
      ensures candidates == entries[word]
      ensures word in old(entries) ==> entries == old(entries) && candidates == old(entries)[word]
      ensures word !in old(entries) ==> candidates == FallbackEntry(word)
    {
      if word !in entries {
        entries := entries[word := FallbackEntry(word)];
      }
      candidates := entries[word];
    }
  }
}
