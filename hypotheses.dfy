/** Partial translations and the order the decoder's priority queues keep them in. */
module Hypotheses {

  /** One dictionary candidate: a target-language token and its probability. */
  type Candidate = (string, real)

  /** A partial translation together with its cumulative probability. */
  datatype Hypothesis = Hypothesis(translation: seq<string>, probability: real)

  /** The hypothesis every decoding starts from: nothing translated, certainty 1.0. */
  const Initial: Hypothesis := Hypothesis([], 1.0)

  /** A copy of `h` with the candidate's token appended and its probability multiplied in. */
  function Extend(h: Hypothesis, c: Candidate): Hypothesis
  {
    Hypothesis(h.translation + [c.0], h.probability * c.1)
  }

  /** Which element a priority queue of hypotheses keeps on top.
      `HighestOnTop` is `priority_queue<Hypothesis>` with `Hypothesis::operator<`,
      which compares by ascending probability, so `top()` and `pop()` reach a most
      probable element. `LowestOnTop` is a queue given a comparator of its own that
      keeps a least probable element on top; `operator<` itself, and with it the
      final sort, is unchanged. */
  datatype HeapOrder = HighestOnTop | LowestOnTop

  /** The rank a queue orders by: `top()` is an element of greatest rank.
      Under `HighestOnTop`, `Key(a) < Key(b)` is exactly `a < b` by `Hypothesis::operator<`. */
  function Key(h: Hypothesis, order: HeapOrder): real
  {
    match order
    case HighestOnTop => h.probability
    case LowestOnTop => -h.probability
  }

  /** `t` may be what `top()` returns for a queue holding `q`. */
  predicate IsTop(t: Hypothesis, q: multiset<Hypothesis>, order: HeapOrder)
  {
    t in q && forall x :: x in q ==> Key(x, order) <= Key(t, order)
  }

  /** Every non-empty queue has a top element, whichever order it keeps. */
  lemma {:induction false} TopExists(q: multiset<Hypothesis>, order: HeapOrder)
    requires q != multiset{}
    ensures exists t :: IsTop(t, q, order)
    decreases |q|
  {
    var x :| x in q;
    var rest := q - multiset{x};
    assert q == rest + multiset{x};
    if rest == multiset{} {
      assert IsTop(x, q, order);
    } else {
      TopExists(rest, order);
      var t :| IsTop(t, rest, order);
      if Key(t, order) <= Key(x, order) {
        assert IsTop(x, q, order);
      } else {
        assert IsTop(t, q, order);
      }
    }
  }
}
