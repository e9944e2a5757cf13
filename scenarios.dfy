/** The sample dictionary the program ships with, and what the decoder does with
    it on a few sentences. */
module Scenarios {
  import opened Hypotheses
  import opened Lexicons
  import opened Pruning
  import opened BeamSearch

  /** The built-in `translation_dictionary`, English to Vietnamese. */
  const Sample: Dictionary := map[
    "hello" := [("xin chao", 0.6)],
    "world" := [("the gioi", 0.3)],
    "good" := [("tot", 0.7), ("ngon", 0.3)],
    "morning" := [("buoi sang", 0.5)],
    "my" := [("cua minh", 0.6)],
    "friend" := [("ban", 0.8), ("nguoi ban", 0.2)],
    "how" := [("the nao", 1.0)],
    "are" := [("dang", 1.0)],
    "you" := [("ban", 1.0)],
    "i" := [("toi", 1.0)],
    "am" := [("dang", 1.0)],
    "fine" := [("on", 1.0), ("khoe", 0.3)]
  ]

  lemma ExpandSingle(g: Hypothesis, cands: seq<Candidate>)
    requires |cands| == 1
    ensures ExpandOne(g, cands) == [Extend(g, cands[0])]
  {
  }

  lemma ExpandPair(g: Hypothesis, cands: seq<Candidate>)
    requires |cands| == 2
    ensures ExpandOne(g, cands) == [Extend(g, cands[0]), Extend(g, cands[1])]
  {
  }

  lemma ExpandAllSingle(s: seq<Hypothesis>, cands: seq<Candidate>, r: seq<Hypothesis>)
    requires |s| == 2 && |cands| == 1
    requires r == [Extend(s[0], cands[0]), Extend(s[1], cands[0])]
    ensures ExpandAll(s, cands) == r
  {
    ExpandSingle(s[0], cands);
    ExpandSingle(s[1], cands);
    assert ExpandAll(s[1..], cands) == ExpandOne(s[1], cands) + ExpandAll(s[2..], cands);
  }

  lemma ExpandAllPair(s: seq<Hypothesis>, cands: seq<Candidate>, r: seq<Hypothesis>)
    requires |s| == 1 && |cands| == 2
    requires r == [Extend(s[0], cands[0]), Extend(s[0], cands[1])]
    ensures ExpandAll(s, cands) == r
  {
    ExpandPair(s[0], cands);
    assert ExpandAll(s, cands) == ExpandOne(s[0], cands) + ExpandAll(s[1..], cands);
  }

  lemma ExpandAllTwoByTwo(s: seq<Hypothesis>, cands: seq<Candidate>, r: seq<Hypothesis>)
    requires |s| == 2 && |cands| == 2
    requires r == [Extend(s[0], cands[0]), Extend(s[0], cands[1]), Extend(s[1], cands[0]), Extend(s[1], cands[1])]
    ensures ExpandAll(s, cands) == r
  {
    ExpandPair(s[0], cands);
    ExpandPair(s[1], cands);
    assert ExpandAll(s[1..], cands) == ExpandOne(s[1], cands) + ExpandAll(s[2..], cands);
  }

  lemma ExpandAllFourByTwo(s: seq<Hypothesis>, cands: seq<Candidate>, r: seq<Hypothesis>)
    requires |s| == 4 && |cands| == 2
    requires r == [Extend(s[0], cands[0]), Extend(s[0], cands[1]), Extend(s[1], cands[0]), Extend(s[1], cands[1]),
                   Extend(s[2], cands[0]), Extend(s[2], cands[1]), Extend(s[3], cands[0]), Extend(s[3], cands[1])]
    ensures ExpandAll(s, cands) == r
  {
    ExpandAllTwoByTwo(s[..2], cands, r[..4]);
    ExpandAllTwoByTwo(s[2..], cands, r[4..]);
    ExpandAllAppend(s[..2], s[2..], cands);
    assert s == s[..2] + s[2..];
  }

  lemma {:induction false} ExpandAllAppend(s: seq<Hypothesis>, t: seq<Hypothesis>, cands: seq<Candidate>)
    ensures ExpandAll(s + t, cands) == ExpandAll(s, cands) + ExpandAll(t, cands)
    decreases |s|
  {
    if s != [] {
      assert (s + t)[1..] == s[1..] + t;
      ExpandAllAppend(s[1..], t, cands);
    } else {
      assert s + t == t;
    }
  }

  /** A list sorted most probable first starts with the strictly most probable
      element it holds. */
  lemma FirstIsBest(results: seq<Hypothesis>, best: Hypothesis, pool: multiset<Hypothesis>)
    requires Descending(results) && best in results
    requires multiset(results) <= pool
    requires forall e :: e in pool && e != best ==> e.probability < best.probability
    ensures results[0] == best
  {
    var i :| 0 <= i < |results| && results[i] == best;
    assert results[0] in multiset(results);
    if i > 0 {
      assert results[i].probability <= results[0].probability;
    }
  }

  /** A step whose pool fits in the beam keeps every expansion of the beam. */
  lemma KeepsWholePool(s: seq<Hypothesis>, cands: seq<Candidate>, width: nat, order: HeapOrder,
                       next: multiset<Hypothesis>)
    requires IsPruned(multiset(s), cands, width, order, next)
    requires |s| * |cands| <= width
    ensures next == multiset(ExpandAll(s, cands))
  {
    NoPruningKeepsAll(multiset(s), cands, width, order, next);
    ExpansionsOfSeq(s, cands);
  }

  /** The words of "good friend fine", and the hypotheses of its run before the
      pruning step. */
  const GoodFriendFine: seq<string> := ["good", "friend", "fine"]

  const FirstBeam: seq<Hypothesis> := [Hypothesis(["tot"], 0.7), Hypothesis(["ngon"], 0.3)]

  const SecondBeam: seq<Hypothesis> :=
    [Hypothesis(["tot", "ban"], 0.56), Hypothesis(["tot", "nguoi ban"], 0.14),
     Hypothesis(["ngon", "ban"], 0.24), Hypothesis(["ngon", "nguoi ban"], 0.06)]

  /** All eight expansions of the last step, in drain order. */
  const LastPool: seq<Hypothesis> :=
    [Hypothesis(["tot", "ban", "on"], 0.56), Hypothesis(["tot", "ban", "khoe"], 0.168),
     Hypothesis(["tot", "nguoi ban", "on"], 0.14), Hypothesis(["tot", "nguoi ban", "khoe"], 0.042),
     Hypothesis(["ngon", "ban", "on"], 0.24), Hypothesis(["ngon", "ban", "khoe"], 0.072),
     Hypothesis(["ngon", "nguoi ban", "on"], 0.06), Hypothesis(["ngon", "nguoi ban", "khoe"], 0.018)]

  /** The most probable translation of "good friend fine". */
  const BestOfGoodFriendFine: Hypothesis := Hypothesis(["tot", "ban", "on"], 0.56)

  lemma SampleEntries()
    ensures Sample["good"] == [("tot", 0.7), ("ngon", 0.3)]
    ensures Sample["morning"] == [("buoi sang", 0.5)]
    ensures Sample["friend"] == [("ban", 0.8), ("nguoi ban", 0.2)]
    ensures Sample["fine"] == [("on", 1.0), ("khoe", 0.3)]
  {
  }

  /** The first step on "good" keeps both of its expansions. */
  lemma GoodStep(order: HeapOrder, beam: multiset<Hypothesis>, next: multiset<Hypothesis>)
    requires beam == multiset{Initial}
    requires IsPruned(beam, Sample["good"], BeamWidth, order, next)
    ensures next == multiset(FirstBeam)
  {
    var good := Sample["good"];
    SampleEntries();
    var s0 := [Initial];
    assert beam == multiset(s0);
    assert Extend(s0[0], good[0]) == FirstBeam[0];
    assert Extend(s0[0], good[1]) == FirstBeam[1];
    ExpandAllPair(s0, good, FirstBeam);
    KeepsWholePool(s0, good, BeamWidth, order, next);
  }

  /** The step on "friend" keeps all four expansions. */
  lemma FriendStep(order: HeapOrder, next: multiset<Hypothesis>)
    requires IsPruned(multiset(FirstBeam), Sample["friend"], BeamWidth, order, next)
    ensures next == multiset(SecondBeam)
  {
    var friend := Sample["friend"];
    SampleEntries();
    assert Extend(FirstBeam[0], friend[0]) == SecondBeam[0];
    assert Extend(FirstBeam[0], friend[1]) == SecondBeam[1];
    assert Extend(FirstBeam[1], friend[0]) == SecondBeam[2];
    assert Extend(FirstBeam[1], friend[1]) == SecondBeam[3];
    ExpandAllTwoByTwo(FirstBeam, friend, SecondBeam);
    KeepsWholePool(FirstBeam, friend, BeamWidth, order, next);
  }

  /** The pool of the step on "fine" is `LastPool`. */
  lemma FinePool()
    ensures Expansions(multiset(SecondBeam), Sample["fine"]) == multiset(LastPool)
  {
    var fine := Sample["fine"];
    SampleEntries();
    assert Extend(SecondBeam[0], fine[0]) == LastPool[0];
    assert Extend(SecondBeam[0], fine[1]) == LastPool[1];
    assert Extend(SecondBeam[1], fine[0]) == LastPool[2];
    assert Extend(SecondBeam[1], fine[1]) == LastPool[3];
    assert Extend(SecondBeam[2], fine[0]) == LastPool[4];
    assert Extend(SecondBeam[2], fine[1]) == LastPool[5];
    assert Extend(SecondBeam[3], fine[0]) == LastPool[6];
    assert Extend(SecondBeam[3], fine[1]) == LastPool[7];
    ExpandAllFourByTwo(SecondBeam, fine, LastPool);
    ExpansionsOfSeq(SecondBeam, fine);
  }

  /** The first two steps on "good friend fine" keep every expansion, and the third
      prunes the eight expansions in `LastPool` down to five. */
  lemma GoodFriendFinePool(order: HeapOrder, trace: seq<multiset<Hypothesis>>)
    requires IsRun(BeamWidth, order, Sample, GoodFriendFine, trace)
    ensures trace[2] == multiset(SecondBeam)
    ensures Expansions(trace[2], Sample["fine"]) == multiset(LastPool)
    ensures |trace[2]| * |Sample["fine"]| > BeamWidth
  {
    SampleEntries();
    assert IsPruned(trace[0], Sample[GoodFriendFine[0]], BeamWidth, order, trace[1]);
    GoodStep(order, trace[0], trace[1]);
    assert IsPruned(trace[1], Sample[GoodFriendFine[1]], BeamWidth, order, trace[2]);
    FriendStep(order, trace[2]);
    FinePool();
  }

  /** A sequence whose first element is strictly more probable than every other
      holds that element once, and every other element it holds is less probable. */
  lemma StrictlyFirst(s: seq<Hypothesis>)
    requires s != []
    requires forall i :: 1 <= i < |s| ==> s[i].probability < s[0].probability
    ensures multiset(s)[s[0]] == 1
    ensures forall e :: e in multiset(s) && e != s[0] ==> e.probability < s[0].probability
  {
    var rest := s[1..];
    assert s == [s[0]] + rest;
    forall e | e in rest
      ensures e.probability < s[0].probability
    {
      var i :| 0 <= i < |rest| && rest[i] == e;
      assert s[i + 1] == e;
    }
    assert multiset(s) == multiset{s[0]} + multiset(rest);
  }

  /** Of the eight expansions, only the first reaches probability 0.56. */
  lemma BestIsUnique()
    ensures multiset(LastPool)[BestOfGoodFriendFine] == 1
    ensures forall e :: e in multiset(LastPool) && e != BestOfGoodFriendFine ==>
      e.probability < BestOfGoodFriendFine.probability
  {
    forall i | 1 <= i < |LastPool|
      ensures LastPool[i].probability < LastPool[0].probability
    {
      assert i in {1, 2, 3, 4, 5, 6, 7};
    }
    StrictlyFirst(LastPool);
  }

  /** As written, `beam_search_translate` loses the best translation of
      "good friend fine": it is the single most probable expansion of the last
      step, and the queue evicts it. */
  lemma WrittenDropsBest(trace: seq<multiset<Hypothesis>>)
    requires IsRun(BeamWidth, HighestOnTop, Sample, GoodFriendFine, trace)
    ensures |trace[3]| == BeamWidth
    ensures BestOfGoodFriendFine !in trace[3]
  {
    GoodFriendFinePool(HighestOnTop, trace);
    BestIsUnique();
    assert IsPruned(trace[2], Sample[GoodFriendFine[2]], BeamWidth, HighestOnTop, trace[3]);
    BestDroppedWhenPruning(trace[2], Sample["fine"], BeamWidth, trace[3], BestOfGoodFriendFine);
  }

  /** With the least probable hypothesis on top, the best translation of
      "good friend fine" survives and is the first result. */
  lemma IntendedKeepsBest(trace: seq<multiset<Hypothesis>>, results: seq<Hypothesis>)
    requires IsRun(BeamWidth, LowestOnTop, Sample, GoodFriendFine, trace)
    requires multiset(results) == trace[3] && Descending(results)
    ensures |trace[3]| == BeamWidth
    ensures BestOfGoodFriendFine in trace[3]
    ensures results != [] && results[0] == BestOfGoodFriendFine
  {
    GoodFriendFinePool(LowestOnTop, trace);
    BestIsUnique();
    assert IsPruned(trace[2], Sample[GoodFriendFine[2]], BeamWidth, LowestOnTop, trace[3]);
    BestKept(trace[2], Sample["fine"], BeamWidth, trace[3], BestOfGoodFriendFine);
    FirstIsBest(results, BestOfGoodFriendFine, multiset(LastPool));
  }

  /** The translations of "good morning", most probable first. */
  const GoodMorningResults: seq<Hypothesis> :=
    [Hypothesis(["tot", "buoi sang"], 0.35), Hypothesis(["ngon", "buoi sang"], 0.15)]

  /** The step on "morning" keeps both expansions. */
  lemma MorningStep(order: HeapOrder, next: multiset<Hypothesis>)
    requires IsPruned(multiset(FirstBeam), Sample["morning"], BeamWidth, order, next)
    ensures next == multiset(GoodMorningResults)
  {
    var morning := Sample["morning"];
    SampleEntries();
    assert Extend(FirstBeam[0], morning[0]) == GoodMorningResults[0];
    assert Extend(FirstBeam[1], morning[0]) == GoodMorningResults[1];
    ExpandAllSingle(FirstBeam, morning, GoodMorningResults);
    KeepsWholePool(FirstBeam, morning, BeamWidth, order, next);
  }

  /** Sorting two elements of different probability puts the more probable first. */
  lemma SortedPair(results: seq<Hypothesis>, pair: seq<Hypothesis>)
    requires |pair| == 2 && pair[1].probability < pair[0].probability
    requires multiset(results) == multiset(pair) && Descending(results)
    ensures results == pair
  {
    assert |results| == |multiset(pair)| == 2;
    assert results[0] in multiset(pair) && results[1] in multiset(pair);
    assert pair[0] in multiset(results) && pair[1] in multiset(results);
  }

  /** "good morning": nothing is pruned, and the two translations come out most
      probable first, whichever way the queues are ordered. */
  lemma GoodMorning(order: HeapOrder, trace: seq<multiset<Hypothesis>>, results: seq<Hypothesis>)
    requires IsRun(BeamWidth, order, Sample, ["good", "morning"], trace)
    requires multiset(results) == trace[2] && Descending(results)
    ensures results == GoodMorningResults
  {
    var words := ["good", "morning"];
    assert IsPruned(trace[0], Sample[words[0]], BeamWidth, order, trace[1]);
    GoodStep(order, trace[0], trace[1]);
    assert IsPruned(trace[1], Sample[words[1]], BeamWidth, order, trace[2]);
    MorningStep(order, trace[2]);
    SortedPair(results, GoodMorningResults);
  }

  /** `beam_search_translate` as written, on "good morning" with a fresh copy of
      the sample dictionary. */
  method TranslateGoodMorning() returns (results: seq<Hypothesis>)
    ensures results == GoodMorningResults
  {
    var lex := new Lexicon(Sample);
    var words := ["good", "morning"];
    ghost var trace;
    results, trace := BeamSearchTranslate(lex, words);
    LearnedKnown(Sample, words);
    GoodMorning(HighestOnTop, trace, results);
  }

  /** `beam_search_translate` as written, on "good friend fine": the most probable
      translation is missing from the results. */
  method TranslateGoodFriendFine() returns (results: seq<Hypothesis>)
    ensures |results| == BeamWidth
    ensures BestOfGoodFriendFine !in results
  {
    var lex := new Lexicon(Sample);
    ghost var trace;
    results, trace := BeamSearchTranslate(lex, GoodFriendFine);
    LearnedKnown(Sample, GoodFriendFine);
    WrittenDropsBest(trace);
    assert |results| == |multiset(results)|;
    assert BestOfGoodFriendFine !in multiset(results);
  }

  /** The decoder whose queues keep the least probable hypothesis on top, on
      "good friend fine": the most probable translation comes first. */
  method TranslateGoodFriendFineIntended() returns (results: seq<Hypothesis>)
    ensures |results| == BeamWidth
    ensures results[0] == BestOfGoodFriendFine
  {
    var lex := new Lexicon(Sample);
    ghost var trace;
    results, trace := BeamSearchTranslateIntended(lex, GoodFriendFine);
    LearnedKnown(Sample, GoodFriendFine);
    IntendedKeepsBest(trace, results);
    assert |results| == |multiset(results)|;
  }
}
