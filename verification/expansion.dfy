/** The query list: the seed keyword, then the seed followed by a space and one suffix letter. */
module Expansion {

  const Latin: string := "abcdefghijklmnopqrstuvwxyz"
  /** The gojūon rows あ to な ... */
  const KanaAToNa: string := "あいうえおかきくけこさしすせそたちつてとなにぬねの"
  /** ... and the rows は to わ, then ん. */
  const KanaHaToN: string := "はひふへほまみむめもやゆよらりるれろわをん"

  /** The suffix letters: `a`..`z`, then the 46 kana `あ`..`ん`, 72 in all. */
  const SuggestLetters: string := Latin + KanaAToNa + KanaHaToN

  /** Each letter has a strictly larger code point than the one before it. */
  ghost predicate Increasing(s: string) {
    forall i :: 0 < i < |s| ==> s[i - 1] < s[i]
  }

  lemma {:induction false} IncreasingConcat(a: string, b: string)
    requires Increasing(a) && Increasing(b)
    requires |a| > 0 && |b| > 0 && a[|a| - 1] < b[0]
    ensures Increasing(a + b)
  {
    forall i | 0 < i < |a + b|
      ensures (a + b)[i - 1] < (a + b)[i]
    {
      if i == |a| {
        assert (a + b)[i - 1] == a[|a| - 1] && (a + b)[i] == b[0];
      } else if i < |a| {
        assert (a + b)[i - 1] == a[i - 1] && (a + b)[i] == a[i];
      } else {
        assert (a + b)[i - 1] == b[i - 1 - |a|] && (a + b)[i] == b[i - |a|];
      }
    }
  }

  /** 72 letters, the 26 Latin ones first, in strictly increasing code-point order. */
  lemma SuggestLettersShape()
    ensures |SuggestLetters| == 72
    ensures SuggestLetters[..26] == Latin
    ensures Increasing(SuggestLetters)
  {
    assert |Latin| == 26 && |KanaAToNa| == 25 && |KanaHaToN| == 21;
    assert Increasing(Latin);
    assert Increasing(KanaAToNa);
    assert Increasing(KanaHaToN);
    IncreasingConcat(Latin, KanaAToNa);
    IncreasingConcat(Latin + KanaAToNa, KanaHaToN);
    assert (Latin + KanaAToNa + KanaHaToN)[..26] == Latin;
  }

  /** Strictly increasing letters are pairwise distinct. */
  lemma {:induction false} IncreasingDistinct(s: string)
    requires Increasing(s)
    ensures forall i, j :: 0 <= i < j < |s| ==> s[i] < s[j]
    decreases |s|
  {
    if |s| > 1 {
      assert Increasing(s[1..]) by {
        forall i | 0 < i < |s[1..]|
          ensures s[1..][i - 1] < s[1..][i]
        {
          assert s[1..][i - 1] == s[i] && s[1..][i] == s[i + 1];
        }
      }
      IncreasingDistinct(s[1..]);
      forall i, j | 0 <= i < j < |s|
        ensures s[i] < s[j]
      {
        if i > 0 {
          assert s[i] == s[1..][i - 1] && s[j] == s[1..][j - 1];
        } else if j > 1 {
          assert s[1] == s[1..][0] && s[j] == s[1..][j - 1];
        }
      }
    }
  }

  /** One query per letter, in the order of `letters`. */
  function Expand(seed: string, letters: string): (qs: seq<string>)
    ensures |qs| == |letters|
    ensures forall i :: 0 <= i < |letters| ==> qs[i] == seed + " " + [letters[i]]
    decreases |letters|
  {
    if |letters| == 0 then []
    else [seed + " " + [letters[0]]] + Expand(seed, letters[1..])
  }

  /** The full query list: the seed itself, then one query per suffix letter. */
  function Queries(seed: string): (qs: seq<string>)
    ensures |qs| == 1 + |SuggestLetters| == 73
    ensures qs[0] == seed
    ensures forall i :: 0 <= i < |SuggestLetters| ==> qs[i + 1] == seed + " " + [SuggestLetters[i]]
  {
    SuggestLettersShape();
    [seed] + Expand(seed, SuggestLetters)
  }

  /** No query string occurs twice, so each one is sent at most once. */
  lemma QueriesDistinct(seed: string)
    ensures forall i, j :: 0 <= i < j < |Queries(seed)| ==> Queries(seed)[i] != Queries(seed)[j]
  {
    var qs := Queries(seed);
    SuggestLettersShape();
    IncreasingDistinct(SuggestLetters);
    forall i, j | 0 <= i < j < |qs|
      ensures qs[i] != qs[j]
    {
      if i == 0 {
        assert |qs[j]| == |seed| + 2;
      } else {
        assert qs[i][|seed| + 1] == SuggestLetters[i - 1];
        assert qs[j][|seed| + 1] == SuggestLetters[j - 1];
      }
    }
  }
}
