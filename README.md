# Beam-search word-by-word translator

This project models the decoder in `Doan.cpp`, which translates English into Vietnamese word by word, and proves properties of the model. The decoder has three parts:

- **Dictionary lookup.** The global `translation_dictionary` is modelled by `Lexicons.Lexicon`. Its lookup inserts the entry `word -> [(word, 1.0)]` for a word it does not know.
- **Tokenizer.** `tokenize` splits a sentence at whitespace. It is modelled as a loop over the characters (`Tokenizer.Tokenize`), proved equal to the reference definition `Tokenizer.Words`.
- **Decoding loop.** `beam_search_translate` is modelled by `BeamSearch.Translate`. For each word it takes every hypothesis of the beam off the queue, top first. It extends each one by every candidate of the word and pushes the extension onto a fresh queue. Whenever that queue holds more than the beam width, it pops the top. At the end it drains the beam and sorts the results by probability, descending.

**How the pieces are modelled**

- **Priority queues.** Each `priority_queue<Hypothesis>` is a multiset of hypotheses. `top()` is any element of greatest rank (`Hypotheses.IsTop`). Every proof holds whichever such element the heap would actually return.
- **Heap order.** The queue's order is a parameter:
  - `HighestOnTop` is the order the code uses. `Hypothesis::operator<` compares by ascending probability, so the top is a most probable hypothesis.
  - `LowestOnTop` is a queue with the least probable hypothesis on top: a separate comparator for the two `priority_queue`s, with `operator<` and the final sort at Doan.cpp:103 unchanged.
- **Beam width.** `BEAM_WIDTH` becomes a parameter `width >= 1`, set to 5 in `BeamSearch.BeamSearchTranslate`.
- **Probabilities** are `real`.
- **The whole run** is specified by `Pruning.IsRun`, a ghost trace of the beam after each word:
  - each beam is a pruned step of the one before;
  - a pruned step is a sub-multiset of the pool of all expansions, of size `min(width, |beam| * |candidates|)`;
  - no survivor ranks above an expansion that was dropped.
- **Lemmas on the trace** give the beam sizes, the length of every translation, and the probability of every hypothesis as a product of its chosen candidates.

**The pruning runs the wrong way.**

- *What the code does.* With `HighestOnTop`, the pop at Doan.cpp:86-88 evicts a most probable hypothesis. Each step therefore keeps the `width` least probable expansions.
- *Why that is a bug.* A beam search is meant to keep the best hypotheses at every step, and `main` prints `results[0]` as the best translation (Doan.cpp:172). The fault is the eviction at line 87, not `operator<`: the max-heap's `top()` is the most probable element, in line with the comment at line 21.
- *What a beam search that keeps the best does instead.* It evicts the least probable hypothesis. The model follows the code, and also proves that corrected behaviour, with `LowestOnTop` on the two queues only.

## Model

| member | source | states |
|---|---|---|
| Hypotheses.Initial | Doan.cpp:63 | definition: the hypothesis `beam.push({{}, 1.0})` starts from, no tokens and probability 1.0 |
| Hypotheses.Extend | Doan.cpp:79-81 | definition: a copy of the hypothesis with the candidate's token appended and its probability multiplied in |
| Hypotheses.Key | Doan.cpp:20-23 | definition: the rank each queue orders by; under `HighestOnTop` it is the probability, so it compares as `operator<` does, and under `LowestOnTop` it is reversed |
| Hypotheses.IsTop | Doan.cpp:75-87 | definition: what `top()` and `pop()` may take from a queue holding `q`, an element of `q` ranked no lower than any other by `Key`; which of several equal-ranked elements it is stays open |
| Hypotheses.TopExists | Doan.cpp:74-76 | every non-empty queue has a top element, in either heap order, so `top()` and `pop()` on a non-empty queue are defined |
| Lexicons.FallbackEntry | Doan.cpp:71 | definition: the entry `{{word, 1.0}}` inserted for an unknown word, the word itself as its only candidate with probability 1.0 |
| Lexicons.WithFallback | Doan.cpp:68-72 | a lookup adds exactly the looked-up key; a missing word gets `[(word, 1.0)]`; every existing entry is unchanged; a known word leaves the dictionary equal to what it was |
| Lexicons.LearnedKeys | Doan.cpp:65-72 | after a sentence's lookups, the dictionary's keys are exactly the old keys plus the sentence's words |
| Lexicons.LearnedEntries | Doan.cpp:65-72 | after a sentence's lookups, the keys are the old keys plus the sentence's words; old entries are unchanged; each new word has the fallback entry |
| Lexicons.LearnedKnown | Doan.cpp:68-69 | looking up only known words leaves the dictionary unchanged |
| Lexicons.LearnedNonEmpty | Doan.cpp:68-72 | if every entry has a candidate, every entry still has one after any lookups, because the fallback entry has one |
| Lexicons.LearnedUsedNonEmpty | Doan.cpp:68-72 | after a sentence's lookups, every word of it has a non-empty entry, provided the words already known had one |
| Lexicons.Lexicon.constructor | Doan.cpp:34-47 | the dictionary starts as the given map |
| Lexicons.Lexicon.Find | Doan.cpp:68-72 | `find`, then `insert` on a miss: the new dictionary is the old one with the fallback added for a missing word; the candidates returned are the entry, i.e. the old entry for a known word (dictionary untouched) or `[(word, 1.0)]` |
| Tokenizer.WordLength | Doan.cpp:54 | the length of the maximal leading run of non-whitespace characters |
| Tokenizer.SkipSpaces | Doan.cpp:54 | extraction's whitespace skip stops at the first non-space character or the end, and the skipped characters yield no word |
| Tokenizer.ReadWord | Doan.cpp:54 | the token read runs up to the next whitespace character or the end, is non-empty and space-free, and is the next word of the rest |
| Tokenizer.Tokenize | Doan.cpp:50-58 | the `ss >> word` loop returns exactly the maximal runs of non-space characters, left to right (`Words`) |
| Tokenizer.WordsAreWords | Doan.cpp:50-58 | every token is non-empty and contains no whitespace |
| Tokenizer.WordsKeepText | Doan.cpp:50-58 | the tokens, concatenated, are exactly the non-space characters of the sentence, in order |
| Tokenizer.NoWordsIffBlank | Doan.cpp:50-58 | no tokens if and only if the sentence is all whitespace (both directions) |
| Tokenizer.WordsOfJoin | Doan.cpp:50-58 | tokenizing words joined by single spaces gives the words back |
| Pruning.ExpansionsRemove | Doan.cpp:74-90 | the pool of a step does not depend on which hypothesis the queue yields first |
| Pruning.ExpansionsOfSeq | Doan.cpp:74-90 | draining the beam in any order pushes exactly the pool, with multiplicity |
| Pruning.ExpansionsSize | Doan.cpp:74-90 | the pool has `|beam| * |candidates|` elements |
| Pruning.ExpansionsMember | Doan.cpp:78-81 | a hypothesis is in the pool if and only if it extends a beam hypothesis by one candidate (token appended, probability multiplied) |
| Pruning.RunSize | Doan.cpp:83-92 | after `k` words the beam holds `min(width, product of the first k entry sizes)` hypotheses |
| Pruning.BeamBound | Doan.cpp:86-88 | after every word the beam holds at most `width` hypotheses |
| Pruning.NonEmptyBeams | Doan.cpp:63-93 | when every entry used has a candidate, no beam is ever empty |
| Pruning.MadeByExtend | Doan.cpp:79-81 | extending a hypothesis made by a choice of candidates by one more candidate gives the hypothesis of the longer choice |
| Pruning.RunExtends | Doan.cpp:78-81 | every hypothesis after `k + 1` words extends a hypothesis of the beam after `k` words by one candidate of word `k` |
| Pruning.RunDerivation | Doan.cpp:63-93 | every hypothesis after `k` words has a translation of length `k` that is the tokens of one candidate per word, and its probability is 1.0 times their product |
| Pruning.BestDropped | Doan.cpp:86-87 | with the most probable element on top, a unique strict maximum of the pool does not survive a step that drops anything |
| Pruning.BestDroppedWhenPruning | Doan.cpp:83-88 | as written, whenever a step has more expansions than the width, its single most probable expansion is evicted |
| Pruning.BestSurvives | Doan.cpp:83-88 | with the least probable element on top, a strict maximum of the pool survives in any non-empty pruned beam |
| Pruning.BestKept | Doan.cpp:83-88 | with the reversed order, the single most probable expansion of every step survives |
| Pruning.NoPruningKeepsAll | Doan.cpp:86-88 | a step whose pool fits in the beam keeps the whole pool |
| BeamSearch.BeamWidth | Doan.cpp:13 | definition: `BEAM_WIDTH`, the bound of 5 hypotheses the as-written and corrected decoders keep per step |
| BeamSearch.KeptAfterEvict | Doan.cpp:86-88 | popping a top after a push keeps every survivor ranked no higher than every dropped expansion |
| BeamSearch.PushFits | Doan.cpp:83 | a push that stays within the bound keeps the queue state: the kept and dropped elements still make up everything pushed, the size matches the bound, and no survivor outranks a dropped element |
| BeamSearch.PushEvicts | Doan.cpp:83-88 | a push followed by popping a top keeps that queue state, and the popped element counts as dropped |
| BeamSearch.PushKeepsState | Doan.cpp:83-88 | one push, with or without its pop, keeps the queue state |
| BeamSearch.PushBounded | Doan.cpp:83-88 | `push` then `pop` if the size exceeds the bound: the queue gains the element if there was room; otherwise it gains it and loses a current maximum |
| BeamSearch.ExpandHypothesis | Doan.cpp:78-89 | pushing every expansion of one hypothesis keeps the queue state, with that hypothesis's expansions added to what was pushed |
| BeamSearch.Step | Doan.cpp:74-90 | one word's step gives a sub-multiset of the pool of size `min(width, |beam| * |candidates|)`, and no survivor ranks above an evicted expansion |
| BeamSearch.DrainOne | Doan.cpp:97-100 | taking the top off keeps the drained prefix ordered top first and ranked no lower than what is still queued |
| BeamSearch.Drain | Doan.cpp:96-100 | `results` is a permutation of the final beam, in non-increasing rank order |
| BeamSearch.SortDescending | Doan.cpp:102-103 | `sort(rbegin, rend)` leaves the vector a permutation of itself, by non-increasing probability |
| BeamSearch.RunAdvance | Doan.cpp:65-92 | one pass of the word loop extends the dictionary by that word's fallback and the run by one pruned step |
| BeamSearch.RunResults | Doan.cpp:96-105 | the results of a run number `min(width, combinations)`; every translation has one token per source word; an empty source yields exactly `([], 1.0)` |
| BeamSearch.ResultsNonEmpty | Doan.cpp:63-105 | the results of a run are non-empty whenever every word of the sentence the dictionary already knew has a candidate |
| BeamSearch.Translate | Doan.cpp:61-106 | for any width and heap order: the dictionary gains exactly the unknown words; the beams form a run; the results are a permutation of the last beam, sorted by non-increasing probability, of size `min(width, combinations)`, each of length `|source|`; an empty source yields `[([], 1.0)]` |
| BeamSearch.BeamSearchTranslate | Doan.cpp:61-106 | as written (width 5, most probable on top): all of `Translate`'s facts, including exactly `min(5, combinations)` results, hence at most 5, and at least one result when every word of the sentence that the dictionary knew has a candidate (which `main` relies on at line 172) |
| BeamSearch.BeamSearchTranslateIntended | Doan.cpp:62-88 | the decoder as a beam search is meant to work, its two queues ordered with the least probable hypothesis on top (a comparator of their own; `operator<` and the final sort at line 103 unchanged): all of `Translate`'s facts, and the same size and non-emptiness facts as `BeamSearchTranslate` |
| Scenarios.Sample | Doan.cpp:34-47 | definition: the built-in `translation_dictionary`, entry for entry |
| Scenarios.GoodMorning | Doan.cpp:34-47 | with the sample dictionary, in either heap order, "good morning" yields `[tot buoi sang (0.35), ngon buoi sang (0.15)]` |
| Scenarios.GoodFriendFinePool | Doan.cpp:34-47 | on "good friend fine" the first two steps keep everything, and the third step's pool has 8 expansions, more than the width |
| Scenarios.WrittenDropsBest | Doan.cpp:86-88 | as written, the best translation `tot ban on (0.56)` of "good friend fine" is evicted from the final beam |
| Scenarios.IntendedKeepsBest | Doan.cpp:62-88 | with the queues keeping the least probable hypothesis on top, `tot ban on (0.56)` survives and is the first result |
| Scenarios.TranslateGoodMorning | Doan.cpp:61-106 | `beam_search_translate` on a fresh sample dictionary returns the two "good morning" translations, best first |
| Scenarios.TranslateGoodFriendFine | Doan.cpp:61-106 | as written, on "good friend fine" it returns 5 results, none of them the most probable translation |
| Scenarios.TranslateGoodFriendFineIntended | Doan.cpp:61-106 | with the queues keeping the least probable hypothesis on top, it returns 5 results and the first is the most probable translation |

## Left out

- `main` (Doan.cpp:129-179): console menu and I/O. Only its use of `results[0]` is reflected: the model proves results are non-empty.
- `read_sentences_from_file` (Doan.cpp:116-126): file I/O.
- `print_banner` (Doan.cpp:109-113) and `Hypothesis::print` (Doan.cpp:25-30): output formatting.
- IEEE-754 rounding in `probability *= candidate.second` (Doan.cpp:81): probabilities are reals, and the sample scenarios use exact decimal products.
- The internal layout of `std::priority_queue`: `top()` is any element of greatest rank, so tie order among equal probabilities is left unspecified.
- `std::sort`'s order among equal probabilities: again left unspecified. Any sorted permutation is accepted.
- BeamSearch.SortDescending: modelled by an insertion sort, not the introsort of `std::sort`. Only the result matters: a permutation in non-increasing probability order.
- Tokenizer.Tokenize: works on Dafny characters, not bytes, with the whitespace set of the "C" locale's `isspace`. Locale-dependent classification and multi-byte encodings are not modelled.
- The `(int)` cast of `next_beam.size()` (Doan.cpp:86): the size never exceeds the width plus one, so the cast cannot overflow, and the model compares unbounded integers.
- Flipping `operator<` itself: that would also flip the final `sort` at Doan.cpp:103, so the results would come out least probable first and `results[0]` would be the worst survivor. The corrected decoder changes only the two queues' order.
- Copying of hypotheses and of the queue (`beam = next_beam`, Doan.cpp:92): the model uses values, so there is no aliasing.

## Findings

| source | as written | input that shows it | evidently intended | confidence | as-written member | corrected member |
|---|---|---|---|---|---|---|
| Doan.cpp:20-23, 62-66, 86-88 | `operator<` orders by ascending probability. So `priority_queue<Hypothesis>` keeps the most probable hypothesis on top, and the pop at line 87 evicts the best expansion. Each step keeps the `BEAM_WIDTH` least probable ones. | the sample dictionary and "good friend fine": 8 expansions at the last step, and `tot ban on` (0.56) is dropped | evict the least probable hypothesis, so that the most probable expansions survive, as a beam search is for: give the two queues a comparator of their own with the least probable on top, leaving `operator<` and the final sort unchanged | high, not executed | Scenarios.WrittenDropsBest | Scenarios.IntendedKeepsBest |
