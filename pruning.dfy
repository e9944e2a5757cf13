/** What one decoding step computes and what a whole decoding run is, stated
    independently of how the priority queues are driven. */
module Pruning {
  import opened Hypotheses
  import opened Lexicons

  /** The expansions of one hypothesis, one per candidate, in candidate order. */
  function ExpandOne(g: Hypothesis, cands: seq<Candidate>): seq<Hypothesis>
  {
    seq(|cands|, i requires 0 <= i < |cands| => Extend(g, cands[i]))
  }

  /** The expansions of a sequence of hypotheses, one after the other. */
  function ExpandAll(s: seq<Hypothesis>, cands: seq<Candidate>): seq<Hypothesis>
    decreases |s|
  {
    if s == [] then [] else ExpandOne(s[0], cands) + ExpandAll(s[1..], cands)
  }

  /** The pool of one step: every hypothesis of the beam extended by every
      candidate, counted with multiplicity. */
  ghost function Expansions(beam: multiset<Hypothesis>, cands: seq<Candidate>): multiset<Hypothesis>
    decreases |beam|
  {
    if beam == multiset{} then multiset{}
    else
      var g :| g in beam;
      multiset(ExpandOne(g, cands)) + Expansions(beam - multiset{g}, cands)
  }

  /** The hypothesis the definition of the pool happens to expand first. */
  lemma ExpansionsUnfold(beam: multiset<Hypothesis>, cands: seq<Candidate>) returns (g0: Hypothesis)
    requires beam != multiset{}
    ensures g0 in beam
    ensures Expansions(beam, cands) == multiset(ExpandOne(g0, cands)) + Expansions(beam - multiset{g0}, cands)
  {
    g0 :| g0 in beam && Expansions(beam, cands) ==
      multiset(ExpandOne(g0, cands)) + Expansions(beam - multiset{g0}, cands);
  }

  /** The pool does not depend on which hypothesis is expanded first. */
  lemma {:induction false} ExpansionsRemove(beam: multiset<Hypothesis>, cands: seq<Candidate>, g: Hypothesis)
    requires g in beam
    ensures Expansions(beam, cands) == multiset(ExpandOne(g, cands)) + Expansions(beam - multiset{g}, cands)
    decreases |beam|
  {
    var g0 := ExpansionsUnfold(beam, cands);
    if g0 != g {
      var without0, without := beam - multiset{g0}, beam - multiset{g};
      assert without0[g] == beam[g];
      assert without[g0] == beam[g0];
      assert |without0| == |beam| - 1;
      assert |without| == |beam| - 1;
      ExpansionsRemove(without0, cands, g);
      ExpansionsRemove(without, cands, g0);
      var both := without0 - multiset{g};
      RemoveBoth(beam, g0, g);
      SumsCommute(multiset(ExpandOne(g0, cands)), multiset(ExpandOne(g, cands)), Expansions(both, cands));
    }
  }

  lemma RemoveBoth(beam: multiset<Hypothesis>, a: Hypothesis, b: Hypothesis)
    ensures beam - multiset{a} - multiset{b} == beam - multiset{b} - multiset{a}
  {
    forall x ensures (beam - multiset{a} - multiset{b})[x] == (beam - multiset{b} - multiset{a})[x] {
    }
  }

  lemma SumsCommute(a: multiset<Hypothesis>, b: multiset<Hypothesis>, c: multiset<Hypothesis>)
    ensures a + (b + c) == b + (a + c)
  {
  }

  /** The pool of a beam drained in the order `s`. */
  lemma {:induction false} ExpansionsOfSeq(s: seq<Hypothesis>, cands: seq<Candidate>)
    ensures Expansions(multiset(s), cands) == multiset(ExpandAll(s, cands))
    decreases |s|
  {
    if s != [] {
      assert s == [s[0]] + s[1..];
      ExpansionsRemove(multiset(s), cands, s[0]);
      assert multiset(s) - multiset{s[0]} == multiset(s[1..]);
      ExpansionsOfSeq(s[1..], cands);
    }
  }

  /** The pool holds one expansion per (hypothesis, candidate) pair. */
  lemma {:induction false} ExpansionsSize(beam: multiset<Hypothesis>, cands: seq<Candidate>)
    ensures |Expansions(beam, cands)| == |beam| * |cands|
    decreases |beam|
  {
    if beam != multiset{} {
      var g :| g in beam;
      var rest := beam - multiset{g};
      ExpansionsRemove(beam, cands, g);
      ExpansionsSize(rest, cands);
      assert |multiset(ExpandOne(g, cands))| == |cands|;
      assert beam == rest + multiset{g};
      MulSucc(|rest|, |cands|);
    }
  }

  lemma MulSucc(a: nat, b: nat)
    ensures (a + 1) * b == a * b + b
  {
  }

  /** Every member of the pool extends some hypothesis of the beam by a candidate. */
  lemma {:induction false} PoolMemberExtends(beam: multiset<Hypothesis>, cands: seq<Candidate>, h: Hypothesis)
    requires h in Expansions(beam, cands)
    ensures exists g, i :: g in beam && 0 <= i < |cands| && h == Extend(g, cands[i])
    decreases |beam|
  {
    var g0 :| g0 in beam;
    ExpansionsRemove(beam, cands, g0);
    var rest := beam - multiset{g0};
    if h in multiset(ExpandOne(g0, cands)) {
      var i :| 0 <= i < |cands| && ExpandOne(g0, cands)[i] == h;
      assert g0 in beam && h == Extend(g0, cands[i]);
    } else {
      PoolMemberExtends(rest, cands, h);
      var g, i :| g in rest && 0 <= i < |cands| && h == Extend(g, cands[i]);
      assert g in beam;
    }
  }

  /** Every extension of a hypothesis of the beam by a candidate is in the pool. */
  lemma {:induction false} ExtensionInPool(beam: multiset<Hypothesis>, cands: seq<Candidate>, g: Hypothesis, i: nat)
    requires g in beam && i < |cands|
    ensures Extend(g, cands[i]) in Expansions(beam, cands)
  {
    ExpansionsRemove(beam, cands, g);
    assert ExpandOne(g, cands)[i] == Extend(g, cands[i]);
  }

  /** A hypothesis is in the pool exactly when it extends some hypothesis of the
      beam by one of the candidates. */
  lemma ExpansionsMember(beam: multiset<Hypothesis>, cands: seq<Candidate>, h: Hypothesis)
    ensures h in Expansions(beam, cands) <==>
      exists g, i :: g in beam && 0 <= i < |cands| && h == Extend(g, cands[i])
  {
    if h in Expansions(beam, cands) {
      PoolMemberExtends(beam, cands, h);
    }
    if exists g, i :: g in beam && 0 <= i < |cands| && h == Extend(g, cands[i]) {
      var g, i :| g in beam && 0 <= i < |cands| && h == Extend(g, cands[i]);
      ExtensionInPool(beam, cands, g, i);
    }
  }

  /** Survivors of a step never rank above an expansion that was dropped. */
  ghost predicate NoneRanksAbove(kept: multiset<Hypothesis>, dropped: multiset<Hypothesis>, order: HeapOrder)
  {
    forall s, e :: s in kept && e in dropped ==> Key(s, order) <= Key(e, order)
  }

  /** `next` is a beam the bounded queue can leave after a step from `beam`:
      drawn from the pool, as large as the bound allows, and no survivor ranks
      above a dropped expansion. */
  ghost predicate IsPruned(beam: multiset<Hypothesis>, cands: seq<Candidate>, width: nat, order: HeapOrder,
                           next: multiset<Hypothesis>)
  {
    next <= Expansions(beam, cands) &&
    |next| == Min(width, |beam| * |cands|) &&
    NoneRanksAbove(next, Expansions(beam, cands) - next, order)
  }

  /** `trace` lists the beams of a decoding of `words`: the initial beam, then
      one pruned step per word, each with that word's dictionary entry. */
  ghost predicate IsRun(width: nat, order: HeapOrder, d: Dictionary, words: seq<string>,
                        trace: seq<multiset<Hypothesis>>)
  {
    |trace| == |words| + 1 &&
    trace[0] == multiset{Initial} &&
    forall k :: 0 <= k < |words| ==>
      words[k] in d && IsPruned(trace[k], d[words[k]], width, order, trace[k + 1])
  }

  /** A run stays a run when the dictionary only gains entries. */
  lemma RunStable(width: nat, order: HeapOrder, d: Dictionary, d': Dictionary, words: seq<string>,
                  trace: seq<multiset<Hypothesis>>)
    requires IsRun(width, order, d, words, trace)
    requires forall k :: k in d ==> k in d' && d'[k] == d[k]
    ensures IsRun(width, order, d', words, trace)
  {
  }

  /** A run extended by one more pruned step. */
  lemma RunExtend(width: nat, order: HeapOrder, d: Dictionary, words: seq<string>,
                  trace: seq<multiset<Hypothesis>>, word: string, next: multiset<Hypothesis>)
    requires IsRun(width, order, d, words, trace)
    requires word in d && IsPruned(trace[|words|], d[word], width, order, next)
    ensures IsRun(width, order, d, words + [word], trace + [next])
  {
    var words', trace' := words + [word], trace + [next];
    forall k | 0 <= k < |words'|
      ensures words'[k] in d && IsPruned(trace'[k], d[words'[k]], width, order, trace'[k + 1])
    {
      if k < |words| {
        assert words'[k] == words[k] && trace'[k] == trace[k] && trace'[k + 1] == trace[k + 1];
      }
    }
  }

  // ---------------------------------------------------------------------
  // Sizes

  function Min(a: int, b: int): int
  {
    if a <= b then a else b
  }

  /** How many candidate combinations the words admit. */
  function Combinations(d: Dictionary, words: seq<string>): nat
    requires forall k :: 0 <= k < |words| ==> words[k] in d
    decreases |words|
  {
    if words == [] then 1
    else Combinations(d, words[..|words| - 1]) * |d[words[|words| - 1]]|
  }

  lemma MinOfProduct(width: nat, p: nat, c: nat)
    ensures Min(width, Min(width, p) * c) == Min(width, p * c)
  {
    if p >= width && c >= 1 {
      assert p * c >= width * c >= width;
    }
  }

  /** After `k` words the beam holds min(width, number of combinations) hypotheses. */
  lemma {:induction false} RunSize(width: nat, order: HeapOrder, d: Dictionary, words: seq<string>,
                                   trace: seq<multiset<Hypothesis>>, k: nat)
    requires width >= 1
    requires IsRun(width, order, d, words, trace)
    requires k <= |words|
    ensures |trace[k]| == Min(width, Combinations(d, words[..k]))
  {
    if k > 0 {
      RunSize(width, order, d, words, trace, k - 1);
      var front := words[..k - 1];
      assert words[..k][..k - 1] == front;
      assert IsPruned(trace[k - 1], d[words[k - 1]], width, order, trace[k]);
      MinOfProduct(width, Combinations(d, front), |d[words[k - 1]]|);
    }
  }

  /** At no step does the beam exceed the width. */
  lemma BeamBound(width: nat, order: HeapOrder, d: Dictionary, words: seq<string>,
                  trace: seq<multiset<Hypothesis>>, k: nat)
    requires width >= 1
    requires IsRun(width, order, d, words, trace)
    requires k <= |words|
    ensures |trace[k]| <= width
  {
    RunSize(width, order, d, words, trace, k);
  }

  lemma {:induction false} CombinationsPositive(d: Dictionary, words: seq<string>)
    requires forall k :: 0 <= k < |words| ==> words[k] in d && |d[words[k]]| >= 1
    ensures Combinations(d, words) >= 1
    decreases |words|
  {
    if words != [] {
      CombinationsPositive(d, words[..|words| - 1]);
      var c := Combinations(d, words[..|words| - 1]);
      assert c * |d[words[|words| - 1]]| >= c;
    }
  }

  /** When every entry used has a candidate, no beam is ever empty. */
  lemma NonEmptyBeams(width: nat, order: HeapOrder, d: Dictionary, words: seq<string>,
                      trace: seq<multiset<Hypothesis>>, k: nat)
    requires width >= 1
    requires IsRun(width, order, d, words, trace)
    requires forall j :: 0 <= j < |words| ==> |d[words[j]]| >= 1
    requires k <= |words|
    ensures |trace[k]| >= 1
  {
    RunSize(width, order, d, words, trace, k);
    CombinationsPositive(d, words[..k]);
  }

  // ---------------------------------------------------------------------
  // What the hypotheses are

  /** The tokens of a choice of candidates. */
  function Tokens(cs: seq<Candidate>): (t: seq<string>)
    ensures |t| == |cs|
    ensures forall j :: 0 <= j < |cs| ==> t[j] == cs[j].0
    decreases |cs|
  {
    if cs == [] then [] else Tokens(cs[..|cs| - 1]) + [cs[|cs| - 1].0]
  }

  /** 1.0 times the probabilities of a choice of candidates. */
  function Product(cs: seq<Candidate>): real
    decreases |cs|
  {
    if cs == [] then 1.0 else Product(cs[..|cs| - 1]) * cs[|cs| - 1].1
  }

  /** `cs` picks, for each word, one candidate of that word's entry. */
  ghost predicate ChosenFrom(cs: seq<Candidate>, d: Dictionary, words: seq<string>)
  {
    |cs| == |words| &&
    forall j :: 0 <= j < |words| ==> words[j] in d && cs[j] in d[words[j]]
  }

  /** `h` is the hypothesis made by the choice `cs`: its tokens in order, with
      1.0 times their probabilities. */
  ghost predicate MadeBy(h: Hypothesis, cs: seq<Candidate>, d: Dictionary, words: seq<string>)
  {
    ChosenFrom(cs, d, words) && h.translation == Tokens(cs) && h.probability == Product(cs)
  }

  /** Extending a hypothesis by a candidate of the next word extends its choice. */
  lemma MadeByExtend(g: Hypothesis, cs: seq<Candidate>, d: Dictionary, words: seq<string>, k: nat, c: Candidate)
    requires 0 < k <= |words|
    requires MadeBy(g, cs, d, words[..k - 1])
    requires words[k - 1] in d && c in d[words[k - 1]]
    ensures MadeBy(Extend(g, c), cs + [c], d, words[..k])
  {
    var cs' := cs + [c];
    assert cs'[..|cs'| - 1] == cs;
    forall j | 0 <= j < k
      ensures words[..k][j] in d && cs'[j] in d[words[..k][j]]
    {
      if j < k - 1 {
        assert words[..k][j] == words[..k - 1][j];
      }
    }
  }

  /** Every hypothesis in the beam after `k` words is the one made by choosing a
      candidate per word, the choice `cs`: its translation is the chosen tokens,
      so its length is `k`, and its probability is 1.0 times the product of their
      probabilities. */
  lemma {:induction false} RunDerivation(width: nat, order: HeapOrder, d: Dictionary, words: seq<string>,
                                         trace: seq<multiset<Hypothesis>>, k: nat, h: Hypothesis)
    returns (cs: seq<Candidate>)
    requires IsRun(width, order, d, words, trace)
    requires k <= |words|
    requires h in trace[k]
    ensures |h.translation| == k
    ensures MadeBy(h, cs, d, words[..k])
  {
    if k == 0 {
      assert h == Initial;
      cs := [];
    } else {
      var g, i := RunExtends(width, order, d, words, trace, k - 1, h);
      var cands := d[words[k - 1]];
      var prefix := RunDerivation(width, order, d, words, trace, k - 1, g);
      assert cands[i] in cands;
      MadeByExtend(g, prefix, d, words, k, cands[i]);
      cs := prefix + [cands[i]];
    }
  }

  /** Every hypothesis after `k + 1` words extends a hypothesis `g` of the beam
      after `k` words by candidate `i` of word `k`. */
  lemma RunExtends(width: nat, order: HeapOrder, d: Dictionary, words: seq<string>,
                   trace: seq<multiset<Hypothesis>>, k: nat, h: Hypothesis)
    returns (g: Hypothesis, i: nat)
    requires IsRun(width, order, d, words, trace)
    requires k < |words|
    requires h in trace[k + 1]
    ensures g in trace[k] && i < |d[words[k]]| && h == Extend(g, d[words[k]][i])
  {
    PoolMemberExtends(trace[k], d[words[k]], h);
    g, i :| g in trace[k] && 0 <= i < |d[words[k]]| && h == Extend(g, d[words[k]][i]);
  }

  // ---------------------------------------------------------------------
  // Which expansions survive

  /** In a queue with the most probable element on top, a strictly most probable
      element of the pool, present once, never survives a step that drops anything. */
  lemma BestDropped(pool: multiset<Hypothesis>, next: multiset<Hypothesis>, best: Hypothesis)
    requires next <= pool && |next| < |pool|
    requires NoneRanksAbove(next, pool - next, HighestOnTop)
    requires pool[best] == 1
    requires forall e :: e in pool && e != best ==> e.probability < best.probability
    ensures best !in next
  {
    assert |pool - next| == |pool| - |next| by {
      assert pool == next + (pool - next);
    }
    var e :| e in pool - next;
    if e == best {
      assert next[best] == 0;
    } else {
      assert Key(e, HighestOnTop) < Key(best, HighestOnTop);
    }
  }

  /** As written, the single most probable expansion of any step that has to prune
      is among those dropped. */
  lemma BestDroppedWhenPruning(beam: multiset<Hypothesis>, cands: seq<Candidate>, width: nat,
                               next: multiset<Hypothesis>, best: Hypothesis)
    requires IsPruned(beam, cands, width, HighestOnTop, next)
    requires |beam| * |cands| > width
    requires Expansions(beam, cands)[best] == 1
    requires forall e :: e in Expansions(beam, cands) && e != best ==> e.probability < best.probability
    ensures best !in next
  {
    ExpansionsSize(beam, cands);
    BestDropped(Expansions(beam, cands), next, best);
  }

  /** In a queue with the least probable element on top, a strictly most probable
      element of the pool always survives. */
  lemma BestSurvives(pool: multiset<Hypothesis>, next: multiset<Hypothesis>, best: Hypothesis)
    requires next <= pool && next != multiset{}
    requires NoneRanksAbove(next, pool - next, LowestOnTop)
    requires best in pool
    requires forall e :: e in pool && e != best ==> e.probability < best.probability
    ensures best in next
  {
    var s :| s in next;
    if s != best {
      assert Key(best, LowestOnTop) < Key(s, LowestOnTop);
      assert best !in pool - next;
    }
  }

  /** With the least probable element on top, the single most probable expansion of
      a step always survives. */
  lemma BestKept(beam: multiset<Hypothesis>, cands: seq<Candidate>, width: nat,
                 next: multiset<Hypothesis>, best: Hypothesis)
    requires width >= 1
    requires IsPruned(beam, cands, width, LowestOnTop, next)
    requires best in Expansions(beam, cands)
    requires forall e :: e in Expansions(beam, cands) && e != best ==> e.probability < best.probability
    ensures best in next
  {
    ExpansionsSize(beam, cands);
    assert |next| >= 1;
    BestSurvives(Expansions(beam, cands), next, best);
  }

  /** A sub-multiset as large as the whole is the whole. */
  lemma SubsetOfSameSize(a: multiset<Hypothesis>, b: multiset<Hypothesis>)
    requires a <= b && |a| == |b|
    ensures a == b
  {
    assert b == a + (b - a);
    assert |b - a| == 0;
  }

  /** A step that does not need to prune keeps the whole pool. */
  lemma NoPruningKeepsAll(beam: multiset<Hypothesis>, cands: seq<Candidate>, width: nat, order: HeapOrder,
                          next: multiset<Hypothesis>)
    requires IsPruned(beam, cands, width, order, next)
    requires |beam| * |cands| <= width
    ensures next == Expansions(beam, cands)
  {
    ExpansionsSize(beam, cands);
    SubsetOfSameSize(next, Expansions(beam, cands));
  }
}
