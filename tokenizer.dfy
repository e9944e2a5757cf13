/** Splitting a sentence into words at whitespace, as `stringstream >> string` does. */
module Tokenizer {

  /** The characters the "C" locale's `isspace` accepts: space, tab, newline,
      vertical tab, form feed and carriage return. */
  predicate IsSpace(c: char)
  {
    c == ' ' || c == '\t' || c == '\n' || c == '\U{000B}' || c == '\U{000C}' || c == '\r'
  }

  /** A token as extraction produces it: non-empty and free of whitespace. */
  predicate IsWord(t: string)
  {
    t != [] && forall c :: c in t ==> !IsSpace(c)
  }

  /** The length of the leading run of non-space characters of `s`. */
  function WordLength(s: string): (n: nat)
    ensures n <= |s|
    ensures forall i :: 0 <= i < n ==> !IsSpace(s[i])
    ensures n < |s| ==> IsSpace(s[n])
    decreases |s|
  {
    if s == [] || IsSpace(s[0]) then 0 else 1 + WordLength(s[1..])
  }

  /** Reference definition: the maximal runs of non-space characters, left to right. */
  function Words(s: string): seq<string>
    decreases |s|
  {
    if s == [] then []
    else if IsSpace(s[0]) then Words(s[1..])
    else
      var n := WordLength(s);
      [s[..n]] + Words(s[n..])
  }

  /** Any maximal leading run is the first word. */
  lemma WordsAt(s: string, n: nat)
    requires 0 < n <= |s|
    requires forall i :: 0 <= i < n ==> !IsSpace(s[i])
    requires n < |s| ==> IsSpace(s[n])
    ensures Words(s) == [s[..n]] + Words(s[n..])
  {
    assert WordLength(s) == n;
  }

  /** Leading whitespace contributes no word. */
  lemma SkipSpace(s: string, i: nat)
    requires i < |s| && IsSpace(s[i])
    ensures Words(s[i..]) == Words(s[i + 1..])
  {
    assert s[i..][1..] == s[i + 1..];
  }

  /** A maximal run of non-space characters starting at `i` is the next word. */
  lemma TakeWord(s: string, i: nat, j: nat)
    requires i < j <= |s|
    requires forall k :: i <= k < j ==> !IsSpace(s[k])
    requires j < |s| ==> IsSpace(s[j])
    ensures Words(s[i..]) == [s[i..j]] + Words(s[j..])
  {
    WordsAt(s[i..], j - i);
    assert s[i..][..j - i] == s[i..j];
    assert s[i..][j - i..] == s[j..];
  }

  /** The whitespace skipping that extraction starts with: moves past the spaces
      at `i`, which contribute no word. */
  method SkipSpaces(sentence: string, i: nat) returns (k: nat)
    requires i <= |sentence|
    ensures i <= k <= |sentence|
    ensures forall m :: i <= m < k ==> IsSpace(sentence[m])
    ensures k < |sentence| ==> !IsSpace(sentence[k])
    ensures Words(sentence[i..]) == Words(sentence[k..])
  {
    k := i;
    while k < |sentence| && IsSpace(sentence[k])
      invariant i <= k <= |sentence|
      invariant forall m :: i <= m < k ==> IsSpace(sentence[m])
      invariant Words(sentence[i..]) == Words(sentence[k..])
      decreases |sentence| - k
    {
      SkipSpace(sentence, k);
      k := k + 1;
    }
  }

  /** The reading of one token: the characters from `i` up to the next whitespace
      character or the end, which form the next word. */
  method ReadWord(sentence: string, i: nat) returns (j: nat)
    requires i < |sentence| && !IsSpace(sentence[i])
    ensures i < j <= |sentence|
    ensures IsWord(sentence[i..j])
    ensures Words(sentence[i..]) == [sentence[i..j]] + Words(sentence[j..])
  {
    j := i;
    while j < |sentence| && !IsSpace(sentence[j])
      invariant i <= j <= |sentence|
      invariant forall k :: i <= k < j ==> !IsSpace(sentence[k])
      decreases |sentence| - j
    {
      j := j + 1;
    }
    TakeWord(sentence, i, j);
    forall c | c in sentence[i..j]
      ensures !IsSpace(c)
    {
      var m :| 0 <= m < j - i && sentence[i..j][m] == c;
      assert sentence[i + m] == c;
    }
  }

  /** `tokenize`: extracts words with `ss >> word` until the stream is exhausted. */
  method Tokenize(sentence: string) returns (tokens: seq<string>)
    ensures tokens == Words(sentence)
  {
    tokens := [];
    var i := 0;
    while i < |sentence|
      invariant 0 <= i <= |sentence|
      invariant tokens + Words(sentence[i..]) == Words(sentence)
      decreases |sentence| - i
    {
      i := SkipSpaces(sentence, i);
      if i < |sentence| {
        var j := ReadWord(sentence, i);
        tokens := tokens + [sentence[i..j]];
        i := j;
      }
    }
    assert sentence[|sentence|..] == [];
  }

  /** Every token is non-empty and holds no whitespace. */
  lemma {:induction false} WordsAreWords(s: string)
    ensures forall t :: t in Words(s) ==> IsWord(t)
    decreases |s|
  {
    if s != [] {
      if IsSpace(s[0]) {
        WordsAreWords(s[1..]);
      } else {
        var n := WordLength(s);
        WordsAreWords(s[n..]);
        assert IsWord(s[..n]) by {
          forall c | c in s[..n] ensures !IsSpace(c) {
            var i :| 0 <= i < n && s[..n][i] == c;
          }
        }
      }
    }
  }

  /** The characters that are not whitespace, in their order in `s`. */
  function NonSpace(s: string): string
    decreases |s|
  {
    if s == [] then [] else (if IsSpace(s[0]) then [] else [s[0]]) + NonSpace(s[1..])
  }

  function Concat(ts: seq<string>): string
    decreases |ts|
  {
    if ts == [] then [] else ts[0] + Concat(ts[1..])
  }

  /** The tokens, concatenated, are exactly the non-space characters of the
      sentence in their order of occurrence: nothing is lost, added or reordered. */
  lemma {:induction false} WordsKeepText(s: string)
    ensures Concat(Words(s)) == NonSpace(s)
    decreases |s|
  {
    if s != [] {
      if IsSpace(s[0]) {
        WordsKeepText(s[1..]);
      } else {
        var n := WordLength(s);
        WordsKeepText(s[n..]);
        NonSpaceOfWord(s, n);
      }
    }
  }

  lemma {:induction false} NonSpaceOfWord(s: string, n: nat)
    requires n <= |s|
    requires forall i :: 0 <= i < n ==> !IsSpace(s[i])
    ensures NonSpace(s) == s[..n] + NonSpace(s[n..])
    decreases n
  {
    if n > 0 {
      NonSpaceOfWord(s[1..], n - 1);
      assert s[1..][n - 1..] == s[n..];
      assert s[..n] == [s[0]] + s[1..][..n - 1];
    }
  }

  /** A sentence yields no token exactly when it is all whitespace. */
  lemma {:induction false} NoWordsIffBlank(s: string)
    ensures Words(s) == [] <==> forall c :: c in s ==> IsSpace(c)
    decreases |s|
  {
    if s != [] {
      NoWordsIffBlank(s[1..]);
      assert forall c :: c in s <==> c == s[0] || c in s[1..];
    }
  }

  /** `ts` joined with single spaces. */
  function Join(ts: seq<string>): string
    decreases |ts|
  {
    if ts == [] then []
    else if |ts| == 1 then ts[0]
    else ts[0] + [' '] + Join(ts[1..])
  }

  /** Tokenizing words joined by spaces gives the words back. */
  lemma {:induction false} WordsOfJoin(ts: seq<string>)
    requires forall t :: t in ts ==> IsWord(t)
    ensures Words(Join(ts)) == ts
    decreases |ts|
  {
    if ts != [] {
      var t := ts[0];
      assert IsWord(t);
      var s := Join(ts);
      assert forall i :: 0 <= i < |t| ==> !IsSpace(t[i]) by {
        forall i | 0 <= i < |t| ensures !IsSpace(t[i]) {
          assert t[i] in t;
        }
      }
      if |ts| == 1 {
        assert s == t && s[..|t|] == t;
        WordsAt(s, |t|);
        assert s[|t|..] == [];
      } else {
        var rest := Join(ts[1..]);
        assert s == t + [' '] + rest;
        assert s[..|t|] == t;
        WordsAt(s, |t|);
        assert s[|t|..] == [' '] + rest;
        assert s[|t|..][1..] == rest;
        WordsOfJoin(ts[1..]);
        assert ts == [t] + ts[1..];
      }
    }
  }
}
