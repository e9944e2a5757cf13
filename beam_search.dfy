/** `beam_search_translate`: the decoder itself, driving two priority queues. */
module BeamSearch {
  import opened Hypotheses
  import opened Lexicons
  import opened Pruning

  /** `BEAM_WIDTH`. */
  const BeamWidth: nat := 5

  /** What a bounded queue `next` has done after `pushed` went into it: what it
      holds and what it `dropped` together make up `pushed`, it holds as much as
      the bound allows, and nothing it holds ranks above anything it dropped. */
  ghost predicate QueueState(next: multiset<Hypothesis>, dropped: multiset<Hypothesis>,
                             pushed: multiset<Hypothesis>, width: nat, order: HeapOrder)
  {
    next + dropped == pushed &&
    |next| == Min(width, |pushed|) &&
    NoneRanksAbove(next, dropped, order)
  }

  /** Popping a top after a push keeps survivors ranked no higher than the dropped. */
  lemma KeptAfterEvict(next: multiset<Hypothesis>, dropped: multiset<Hypothesis>, x: Hypothesis,
                       top: Hypothesis, order: HeapOrder)
    requires NoneRanksAbove(next, dropped, order)
    requires IsTop(top, next + multiset{x}, order)
    ensures NoneRanksAbove(next + multiset{x} - multiset{top}, dropped + multiset{top}, order)
  {
    var next' := next + multiset{x} - multiset{top};
    forall s, e | s in next' && e in dropped + multiset{top}
      ensures Key(s, order) <= Key(e, order)
    {
      assert s in next + multiset{x};
      if e != top && s !in next {
        // `s` is the pushed element and was not popped; `top` is not it
        assert s == x && top != x && top in next;
        assert Key(x, order) <= Key(top, order) <= Key(e, order);
      }
    }
  }

  /** A push that the bound lets stay keeps the queue's state. */
  lemma PushFits(next: multiset<Hypothesis>, dropped: multiset<Hypothesis>, pushed: multiset<Hypothesis>,
                 x: Hypothesis, width: nat, order: HeapOrder)
    requires QueueState(next, dropped, pushed, width, order)
    requires |next| < width
    ensures QueueState(next + multiset{x}, dropped, pushed + multiset{x}, width, order)
  {
    assert |next| + |dropped| == |pushed|;
    assert |dropped| == 0;
  }

  /** A push followed by the pop of a top keeps the queue's state, the popped
      element joining the dropped ones. */
  lemma PushEvicts(next: multiset<Hypothesis>, dropped: multiset<Hypothesis>, pushed: multiset<Hypothesis>,
                   x: Hypothesis, width: nat, order: HeapOrder, top: Hypothesis)
    requires QueueState(next, dropped, pushed, width, order)
    requires |next| >= width
    requires IsTop(top, next + multiset{x}, order)
    ensures QueueState(next + multiset{x} - multiset{top}, dropped + multiset{top}, pushed + multiset{x}, width, order)
  {
    var next' := next + multiset{x} - multiset{top};
    KeptAfterEvict(next, dropped, x, top, order);
    assert next' + multiset{top} == next + multiset{x};
    assert |next'| == |next|;
    assert next' + (dropped + multiset{top}) == (next' + multiset{top}) + dropped;
  }

  /** One push onto the bounded queue, with or without the pop, keeps its state. */
  lemma PushKeepsState(next: multiset<Hypothesis>, dropped: multiset<Hypothesis>, pushed: multiset<Hypothesis>,
                       x: Hypothesis, width: nat, order: HeapOrder, next': multiset<Hypothesis>)
    returns (dropped': multiset<Hypothesis>)
    requires QueueState(next, dropped, pushed, width, order)
    requires |next| < width ==> next' == next + multiset{x}
    requires |next| >= width ==>
      exists top :: IsTop(top, next + multiset{x}, order) && next' == next + multiset{x} - multiset{top}
    ensures QueueState(next', dropped', pushed + multiset{x}, width, order)
  {
    if |next| < width {
      dropped' := dropped;
      PushFits(next, dropped, pushed, x, width, order);
    } else {
      var top :| IsTop(top, next + multiset{x}, order) && next' == next + multiset{x} - multiset{top};
      dropped' := dropped + multiset{top};
      PushEvicts(next, dropped, pushed, x, width, order, top);
    }
  }

  /** `next_beam.push(new_hyp)`, then `next_beam.pop()` if the queue now holds
      more than `width`: the element popped is a top of the queue. */
  method PushBounded(next: multiset<Hypothesis>, x: Hypothesis, width: nat, order: HeapOrder)
    returns (next': multiset<Hypothesis>)
    ensures |next| < width ==> next' == next + multiset{x}
    ensures |next| >= width ==>
      exists top :: IsTop(top, next + multiset{x}, order) && next' == next + multiset{x} - multiset{top}
  {
    next' := next + multiset{x};
    if |next'| > width {
      TopExists(next', order);
      var top :| IsTop(top, next', order);
      next' := next' - multiset{top};
    }
  }

  lemma PrefixGrows(pushed: multiset<Hypothesis>, s: seq<Hypothesis>, j: nat)
    requires j < |s|
    ensures pushed + multiset(s[..j + 1]) == pushed + multiset(s[..j]) + multiset{s[j]}
  {
    assert s[..j + 1] == s[..j] + [s[j]];
  }

  /** The inner `for` over the candidates: pushes every expansion of `hyp`, in
      candidate order, onto the bounded queue. */
  method ExpandHypothesis(next: multiset<Hypothesis>, hyp: Hypothesis, cands: seq<Candidate>, width: nat,
                          order: HeapOrder, ghost dropped: multiset<Hypothesis>, ghost pushed: multiset<Hypothesis>)
    returns (next': multiset<Hypothesis>, ghost dropped': multiset<Hypothesis>)
    requires QueueState(next, dropped, pushed, width, order)
    ensures QueueState(next', dropped', pushed + multiset(ExpandOne(hyp, cands)), width, order)
  {
    next', dropped' := next, dropped;
    var expansions := ExpandOne(hyp, cands);
    for j := 0 to |cands|
      invariant QueueState(next', dropped', pushed + multiset(expansions[..j]), width, order)
    {
      var newHyp := Extend(hyp, cands[j]);
      ghost var before := next';
      next' := PushBounded(next', newHyp, width, order);
      dropped' := PushKeepsState(before, dropped', pushed + multiset(expansions[..j]), newHyp, width, order, next');
      PrefixGrows(pushed, expansions, j);
    }
    assert expansions[..|cands|] == expansions;
  }

  /** Expanding one more hypothesis of the beam moves its expansions from the
      part of the pool still to come to the part already pushed. */
  lemma PoolAccounting(beam: multiset<Hypothesis>, rest: multiset<Hypothesis>, pushed: multiset<Hypothesis>,
                       cands: seq<Candidate>, hyp: Hypothesis)
    requires pushed + Expansions(rest, cands) == Expansions(beam, cands)
    requires hyp in rest
    ensures (pushed + multiset(ExpandOne(hyp, cands))) + Expansions(rest - multiset{hyp}, cands) ==
      Expansions(beam, cands)
  {
    ExpansionsRemove(rest, cands, hyp);
  }

  /** Once the whole pool has been pushed, the queue holds a pruned beam. */
  lemma PrunedWhenDone(beam: multiset<Hypothesis>, cands: seq<Candidate>, width: nat, order: HeapOrder,
                       next: multiset<Hypothesis>, dropped: multiset<Hypothesis>)
    requires QueueState(next, dropped, Expansions(beam, cands), width, order)
    ensures IsPruned(beam, cands, width, order, next)
  {
    ExpansionsSize(beam, cands);
    assert dropped == Expansions(beam, cands) - next;
  }

  /** One iteration of the word loop: drains `beam` top first and pushes every
      expansion onto a fresh `next_beam` bounded by `width`. */
  method Step(beam: multiset<Hypothesis>, cands: seq<Candidate>, width: nat, order: HeapOrder)
    returns (next: multiset<Hypothesis>)
    ensures next <= Expansions(beam, cands)
    ensures |next| == Min(width, |beam| * |cands|)
    ensures NoneRanksAbove(next, Expansions(beam, cands) - next, order)
  {
    var rest := beam;
    next := multiset{};
    ghost var pushed: multiset<Hypothesis> := multiset{};
    ghost var dropped: multiset<Hypothesis> := multiset{};
    while rest != multiset{}
      invariant pushed + Expansions(rest, cands) == Expansions(beam, cands)
      invariant QueueState(next, dropped, pushed, width, order)
      decreases |rest|
    {
      TopExists(rest, order);
      var hyp :| IsTop(hyp, rest, order);
      PoolAccounting(beam, rest, pushed, cands, hyp);
      next, dropped := ExpandHypothesis(next, hyp, cands, width, order, dropped, pushed);
      rest := rest - multiset{hyp};
      pushed := pushed + multiset(ExpandOne(hyp, cands));
    }
    PrunedWhenDone(beam, cands, width, order, next, dropped);
  }

  /** `results` came off the queue top first and `rest` is still in it. */
  ghost predicate DrainState(results: seq<Hypothesis>, rest: multiset<Hypothesis>, beam: multiset<Hypothesis>,
                             order: HeapOrder)
  {
    multiset(results) + rest == beam &&
    (forall i, j :: 0 <= i < j < |results| ==> Key(results[j], order) <= Key(results[i], order)) &&
    (forall i, x :: 0 <= i < |results| && x in rest ==> Key(x, order) <= Key(results[i], order))
  }

  lemma DrainOne(results: seq<Hypothesis>, rest: multiset<Hypothesis>, beam: multiset<Hypothesis>,
                 order: HeapOrder, top: Hypothesis)
    requires DrainState(results, rest, beam, order)
    requires IsTop(top, rest, order)
    ensures DrainState(results + [top], rest - multiset{top}, beam, order)
  {
    var results', rest' := results + [top], rest - multiset{top};
    assert rest == rest' + multiset{top};
    assert multiset(results') == multiset(results) + multiset{top};
    forall i, j | 0 <= i < j < |results'|
      ensures Key(results'[j], order) <= Key(results'[i], order)
    {
      if j == |results| {
        assert results'[i] == results[i] && results'[j] == top;
      } else {
        assert results'[i] == results[i] && results'[j] == results[j];
      }
    }
    forall i, x | 0 <= i < |results'| && x in rest'
      ensures Key(x, order) <= Key(results'[i], order)
    {
      assert x in rest;
      if i < |results| {
        assert results'[i] == results[i];
      }
    }
  }

  /** The loop that moves what is left in `beam` into `results`, `top()` first. */
  method Drain(beam: multiset<Hypothesis>, order: HeapOrder) returns (results: seq<Hypothesis>)
    ensures multiset(results) == beam
    ensures forall i, j :: 0 <= i < j < |results| ==> Key(results[j], order) <= Key(results[i], order)
  {
    var rest := beam;
    results := [];
    while rest != multiset{}
      invariant DrainState(results, rest, beam, order)
      decreases |rest|
    {
      TopExists(rest, order);
      var top :| IsTop(top, rest, order);
      DrainOne(results, rest, beam, order, top);
      results := results + [top];
      rest := rest - multiset{top};
    }
  }

  /** Probabilities do not increase along `s`. */
  ghost predicate Descending(s: seq<Hypothesis>)
  {
    forall i, j :: 0 <= i < j < |s| ==> s[j].probability <= s[i].probability
  }

  /** While the element at `j` moves towards the front: the first `i + 1`
      elements other than it are in order, and those behind it are less probable. */
  ghost predicate Inserting(s: seq<Hypothesis>, i: nat, j: nat)
  {
    j <= i < |s| &&
    (forall p, q :: 0 <= p < q <= i && p != j && q != j ==> s[q].probability <= s[p].probability) &&
    (forall q :: j < q <= i ==> s[q].probability < s[j].probability)
  }

  lemma InsertStart(s: seq<Hypothesis>, i: nat)
    requires i < |s| && Descending(s[..i])
    ensures Inserting(s, i, i)
  {
    forall p, q | 0 <= p < q <= i && p != i && q != i
      ensures s[q].probability <= s[p].probability
    {
      assert s[..i][p] == s[p] && s[..i][q] == s[q];
    }
  }

  lemma InsertSwap(s: seq<Hypothesis>, i: nat, j: nat)
    requires Inserting(s, i, j) && 0 < j && s[j - 1].probability < s[j].probability
    ensures Inserting(s[j - 1 := s[j]][j := s[j - 1]], i, j - 1)
  {
  }

  lemma InsertDone(s: seq<Hypothesis>, i: nat, j: nat)
    requires Inserting(s, i, j) && (j == 0 || s[j].probability <= s[j - 1].probability)
    ensures Descending(s[..i + 1])
  {
    var t := s[..i + 1];
    forall p, q | 0 <= p < q < |t|
      ensures t[q].probability <= t[p].probability
    {
      if p == j && j < q {
      } else if q == j && 0 < j {
        if p < j - 1 {
          assert s[j - 1].probability <= s[p].probability;
        }
      }
    }
  }

  /** Exchanges two elements of `a`. */
  method Swap(a: array<Hypothesis>, x: nat, y: nat)
    requires x < a.Length && y < a.Length
    modifies a
    ensures a[..] == old(a[..])[x := old(a[y])][y := old(a[x])]
    ensures multiset(a[..]) == multiset(old(a[..]))
  {
    a[x], a[y] := a[y], a[x];
  }

  /** `sort(results.rbegin(), results.rend())`: sorting the reversed range by
      `operator<` leaves the vector in non-increasing order of probability. */
  method SortDescending(a: array<Hypothesis>)
    modifies a
    ensures Descending(a[..])
    ensures multiset(a[..]) == multiset(old(a[..]))
  {
    for i := 0 to a.Length
      invariant Descending(a[..i])
      invariant multiset(a[..]) == multiset(old(a[..]))
    {
      InsertStart(a[..], i);
      var j := i;
      while j > 0 && a[j - 1].probability < a[j].probability
        invariant Inserting(a[..], i, j)
        invariant multiset(a[..]) == multiset(old(a[..]))
      {
        InsertSwap(a[..], i, j);
        Swap(a, j - 1, j);
        j := j - 1;
      }
      InsertDone(a[..], i, j);
    }
    assert a[..a.Length] == a[..];
  }

  /** One pass of the word loop: the lookup and the step extend the dictionary
      and the run by one word. */
  lemma RunAdvance(width: nat, order: HeapOrder, d0: Dictionary, known: Dictionary, d: Dictionary,
                   source: seq<string>, k: nat, trace: seq<multiset<Hypothesis>>,
                   cands: seq<Candidate>, next: multiset<Hypothesis>)
    requires k < |source|
    requires known == Learned(d0, source[..k])
    requires d == WithFallback(known, source[k]) && cands == d[source[k]]
    requires IsRun(width, order, known, source[..k], trace)
    requires IsPruned(trace[k], cands, width, order, next)
    ensures d == Learned(d0, source[..k + 1])
    ensures IsRun(width, order, d, source[..k + 1], trace + [next])
  {
    assert source[..k + 1][..k] == source[..k];
    RunStable(width, order, known, d, source[..k], trace);
    RunExtend(width, order, d, source[..k], trace, source[k], next);
    assert source[..k] + [source[k]] == source[..k + 1];
  }

  /** What the final beam of a run says about any sequence holding its contents:
      it has min(width, number of combinations) elements, each translating every
      word, and an empty sentence yields only the initial hypothesis. */
  lemma RunResults(width: nat, order: HeapOrder, d: Dictionary, source: seq<string>,
                   trace: seq<multiset<Hypothesis>>, results: seq<Hypothesis>)
    requires width >= 1
    requires IsRun(width, order, d, source, trace)
    requires multiset(results) == trace[|source|]
    ensures |results| == Min(width, Combinations(d, source))
    ensures forall h :: h in results ==> |h.translation| == |source|
    ensures source == [] ==> results == [Initial]
  {
    RunSize(width, order, d, source, trace, |source|);
    assert source[..|source|] == source;
    assert |results| == |multiset(results)|;
    forall h | h in results
      ensures |h.translation| == |source|
    {
      assert h in multiset(results);
      var _ := RunDerivation(width, order, d, source, trace, |source|, h);
    }
    if source == [] {
      assert |results| == 1 && results[0] in multiset(results);
    }
  }

  /** The decoder with beam width `width` over queues that keep `order`. */
  method Translate(lex: Lexicon, source: seq<string>, width: nat, order: HeapOrder)
    returns (results: seq<Hypothesis>, ghost trace: seq<multiset<Hypothesis>>)
    requires width >= 1
    modifies lex
    ensures lex.entries == Learned(old(lex.entries), source)
    ensures IsRun(width, order, lex.entries, source, trace)
    ensures multiset(results) == trace[|source|]
    ensures Descending(results)
    ensures |results| == Min(width, Combinations(lex.entries, source))
    ensures forall h :: h in results ==> |h.translation| == |source|
    ensures source == [] ==> results == [Initial]
  {
    var beam := multiset{Initial};
    trace := [beam];
    for k := 0 to |source|
      invariant lex.entries == Learned(old(lex.entries), source[..k])
      invariant IsRun(width, order, lex.entries, source[..k], trace)
      invariant beam == trace[k]
    {
      ghost var known := lex.entries;
      var cands := lex.Find(source[k]);
      var next := Step(beam, cands, width, order);
      RunAdvance(width, order, old(lex.entries), known, lex.entries, source, k, trace, cands, next);
      beam := next;
      trace := trace + [beam];
    }
    assert source[..|source|] == source;
    var drained := Drain(beam, order);
    var a := new Hypothesis[|drained|](i requires 0 <= i < |drained| => drained[i]);
    assert a[..] == drained;
    SortDescending(a);
    results := a[..];
    RunResults(width, order, lex.entries, source, trace, results);
  }

  /** The results are non-empty whenever every word of the sentence that the
      dictionary already knew has a candidate, which `main` relies on when it
      prints `results[0]`. */
  lemma ResultsNonEmpty(width: nat, order: HeapOrder, d: Dictionary, source: seq<string>,
                        trace: seq<multiset<Hypothesis>>, results: seq<Hypothesis>)
    requires width >= 1
    requires IsRun(width, order, Learned(d, source), source, trace)
    requires multiset(results) == trace[|source|]
    requires forall w :: w in source && w in d ==> |d[w]| >= 1
    ensures results != []
  {
    LearnedUsedNonEmpty(d, source);
    NonEmptyBeams(width, order, Learned(d, source), source, trace, |source|);
    assert |results| == |multiset(results)|;
  }

  /** `beam_search_translate` as written: width `BEAM_WIDTH`, and queues of type
      `priority_queue<Hypothesis>`, whose top is the most probable hypothesis. */
  method BeamSearchTranslate(lex: Lexicon, source: seq<string>)
    returns (results: seq<Hypothesis>, ghost trace: seq<multiset<Hypothesis>>)
    modifies lex
    ensures lex.entries == Learned(old(lex.entries), source)
    ensures IsRun(BeamWidth, HighestOnTop, lex.entries, source, trace)
    ensures multiset(results) == trace[|source|]
    ensures Descending(results)
    ensures |results| == Min(BeamWidth, Combinations(lex.entries, source))
    ensures |results| <= BeamWidth
    ensures forall h :: h in results ==> |h.translation| == |source|
    ensures source == [] ==> results == [Initial]
    ensures (forall w :: w in source && w in old(lex.entries) ==> |old(lex.entries)[w]| >= 1) ==> results != []
  {
    ghost var initial := lex.entries;
    results, trace := Translate(lex, source, BeamWidth, HighestOnTop);
    if forall w :: w in source && w in initial ==> |initial[w]| >= 1 {
      ResultsNonEmpty(BeamWidth, HighestOnTop, initial, source, trace, results);
    }
  }

  /** The decoder as a beam search is meant to work: the two queues are given a
      comparator of their own that keeps the least probable hypothesis on top, so
      each pop discards the worst and the most probable expansions survive.
      `operator<`, and with it the final sort, is unchanged. */
  method BeamSearchTranslateIntended(lex: Lexicon, source: seq<string>)
    returns (results: seq<Hypothesis>, ghost trace: seq<multiset<Hypothesis>>)
    modifies lex
    ensures lex.entries == Learned(old(lex.entries), source)
    ensures IsRun(BeamWidth, LowestOnTop, lex.entries, source, trace)
    ensures multiset(results) == trace[|source|]
    ensures Descending(results)
    ensures |results| == Min(BeamWidth, Combinations(lex.entries, source))
    ensures |results| <= BeamWidth
    ensures forall h :: h in results ==> |h.translation| == |source|
    ensures source == [] ==> results == [Initial]
    ensures (forall w :: w in source && w in old(lex.entries) ==> |old(lex.entries)[w]| >= 1) ==> results != []
  {
    ghost var initial := lex.entries;
    results, trace := Translate(lex, source, BeamWidth, LowestOnTop);
    if forall w :: w in source && w in initial ==> |initial[w]| >= 1 {
      ResultsNonEmpty(BeamWidth, LowestOnTop, initial, source, trace, results);
    }
  }
}
