/** The three-word search (`three_word_solution`). It indexes every chainable
    concatenation `ab` by a signature (its sorted distinct letters followed by
    its last letter), keeps for each signature the LAST word of the list that
    completes it, and then emits one triple per chainable pair `(a, b)` with
    `a != b` whose signature has a completion. */
module ThreeWord {
  import opened Seqs
  import opened Strings
  import opened Search

  /** `to_base`: the distinct characters of `s` in ascending order. */
  function ToBase(s: string): (r: string)
    ensures StrictlySorted(r, CharLess)
    ensures Letters(r) == Letters(s)
  {
    CharLessIsStrictTotalOrder();
    SortedUniqueSorted(s, CharLess);
    SortedUnique(s, CharLess)
  }

  /** The base form is the only strictly ascending string with the letters of `s`. */
  lemma ToBaseUnique(s: string, t: string)
    requires StrictlySorted(t, CharLess)
    requires Letters(t) == Letters(s)
    ensures t == ToBase(s)
  {
    CharLessIsStrictTotalOrder();
    assert forall c :: c in t <==> c in ToBase(s) by {
      assert forall c :: c in t <==> c in Letters(t);
      assert forall c :: c in ToBase(s) <==> c in Letters(ToBase(s));
    }
    SortedUniquely(t, ToBase(s), CharLess);
  }

  /** `to_base(ab) + ab[-1]`: the letters of `ab` and the letter it ends on. */
  function Signature(ab: string): (r: string)
    requires |ab| > 0
    ensures |r| > 0 && r[|r| - 1] == ab[|ab| - 1]
    ensures Letters(r) == Letters(ab)
  {
    var r := ToBase(ab) + [ab[|ab| - 1]];
    LettersConcat(ToBase(ab), [ab[|ab| - 1]]);
    r
  }

  /** `[a + b for b in bs if a[-1] == b[0]]`. */
  function Joined(a: string, bs: seq<string>): (r: seq<string>)
    ensures forall b :: b in bs && Chains(a, b) ==> a + b in r
    ensures forall x :: x in r ==> exists b :: b in bs && Chains(a, b) && x == a + b
    ensures forall x :: x in r ==> |x| > 0
  {
    if bs == [] then []
    else (if Chains(a, bs[0]) then [a + bs[0]] else []) + Joined(a, bs[1..])
  }

  function JoinedOver(firsts: seq<string>, words: seq<string>): (r: seq<string>)
    ensures forall a, b :: a in firsts && b in words && Chains(a, b) ==> a + b in r
    ensures forall x :: x in r ==> exists a, b :: a in firsts && b in words && Chains(a, b) && x == a + b
    ensures forall x :: x in r ==> |x| > 0
  {
    if firsts == [] then []
    else Joined(firsts[0], words) + JoinedOver(firsts[1..], words)
  }

  /** `ab_combinations`: every chainable concatenation, `a == b` included. */
  function ABCombinations(words: seq<string>): (r: seq<string>)
    ensures forall x :: x in r <==> exists a, b :: a in words && b in words && Chains(a, b) && x == a + b
  {
    JoinedOver(words, words)
  }

  /** `candidates`: the signatures of `ab_combinations` (a set; its iteration
      order cannot change the result, see `Completions`). */
  function SignatureKeys(words: seq<string>): (r: set<string>)
    ensures forall a, b :: a in words && b in words && Chains(a, b) ==> Signature(a + b) in r
    ensures forall key :: key in r ==> exists a, b :: a in words && b in words && Chains(a, b) && key == Signature(a + b)
  {
    set ab | ab in ABCombinations(words) && |ab| > 0 :: Signature(ab)
  }

  /** The test of the `solutions` comprehension: `set(key + c) == chars and key[-1] == c[0]`. */
  predicate Completes(key: string, c: string, chars: set<char>)
  {
    |key| > 0 && |c| > 0 && Letters(key + c) == chars && key[|key| - 1] == c[0]
  }

  /** The value the `solutions` comprehension leaves under `key`: each later
      completing word overwrites the earlier one, so the last one stays. */
  function LastCompletion(key: string, words: seq<string>, chars: set<char>): (r: Option<string>)
    ensures r.None? <==> forall c :: c in words ==> !Completes(key, c, chars)
    ensures r.Some? ==> r.value in words && Completes(key, r.value, chars)
  {
    if words == [] then None
    else if Completes(key, words[|words| - 1], chars) then Some(words[|words| - 1])
    else LastCompletion(key, words[..|words| - 1], chars)
  }

  /** `solutions`: signature to its last completing word. */
  function Completions(words: seq<string>, chars: set<char>): (r: map<string, string>)
    ensures forall key :: key in r ==> key in SignatureKeys(words) && r[key] in words && Completes(key, r[key], chars)
    ensures forall key :: key in SignatureKeys(words) ==> (key in r <==> exists c :: c in words && Completes(key, c, chars))
  {
    map key | key in SignatureKeys(words) && LastCompletion(key, words, chars).Some? ::
      LastCompletion(key, words, chars).value
  }

  /** `ext` and `vals`: for each pair in order, the triple `[a, b, solutions[key]]`
      when the pair's signature has an entry. */
  function Lookups(ps: seq<(string, string)>, sols: map<string, string>): (r: seq<seq<string>>)
    requires forall p :: p in ps ==> Chains(p.0, p.1)
    ensures |r| <= |ps|
    ensures forall t :: t in r ==> |t| == 3 && (t[0], t[1]) in ps && t[2] in sols.Values
    ensures forall t :: t in r ==>
      && |t| == 3 && Chains(t[0], t[1])
      && Signature(t[0] + t[1]) in sols && t[2] == sols[Signature(t[0] + t[1])]
  {
    if ps == [] then []
    else
      assert ps[0] in ps && Chains(ps[0].0, ps[0].1);
      var key := Signature(ps[0].0 + ps[0].1);
      (if key in sols then [[ps[0].0, ps[0].1, sols[key]]] else []) + Lookups(ps[1..], sols)
  }

  /** A pair's triple is fixed by its lookup: two triples that start with the
      same two words are the same triple. */
  lemma LookupsOnePerPair(ps: seq<(string, string)>, sols: map<string, string>, s: seq<string>, t: seq<string>)
    requires forall p :: p in ps ==> Chains(p.0, p.1)
    requires s in Lookups(ps, sols) && t in Lookups(ps, sols)
    requires s[0] == t[0] && s[1] == t[1]
    ensures s == t
  {
    var key := Signature(s[0] + s[1]);
    assert |s| == 3 && s[2] == sols[key];
    assert |t| == 3 && t[2] == sols[key];
    TriplesEqual(s, t);
  }

  /** What `three_word_solution` returns. */
  function ThreeWordSolution(words: seq<string>, chars: set<char>): (r: seq<seq<string>>)
    requires forall w :: w in words ==> |w| > 0
    ensures |r| <= |ChainPairs(words)|
    ensures forall t :: t in r ==> |t| == 3 && (t[0], t[1]) in ChainPairs(words) && t[2] in words
  {
    var r := Lookups(ChainPairs(words), Completions(words, chars));
    assert forall t :: t in r ==> t[2] in words by {
      forall t | t in r ensures t[2] in words {
        var key :| key in Completions(words, chars) && Completions(words, chars)[key] == t[2];
      }
    }
    r
  }

  /** At most one triple per pair: triples with the same first two words are equal. */
  lemma ThreeWordOnePerPair(words: seq<string>, chars: set<char>, s: seq<string>, t: seq<string>)
    requires forall w :: w in words ==> |w| > 0
    requires s in ThreeWordSolution(words, chars) && t in ThreeWordSolution(words, chars)
    requires s[0] == t[0] && s[1] == t[1]
    ensures s == t
  {
    LookupsOnePerPair(ChainPairs(words), Completions(words, chars), s, t);
  }

  // A reference definition without signatures.

  /** `c` chains from `b` and the three words use exactly `chars`. */
  predicate CompletesPair(a: string, b: string, c: string, chars: set<char>)
  {
    Chains(b, c) && Letters(a) + Letters(b) + Letters(c) == chars
  }

  /** The last word of `words` that completes the pair `(a, b)`. */
  function LastThird(a: string, b: string, words: seq<string>, chars: set<char>): (r: Option<string>)
  {
    if words == [] then None
    else if CompletesPair(a, b, words[|words| - 1], chars) then Some(words[|words| - 1])
    else LastThird(a, b, words[..|words| - 1], chars)
  }

  /** What `LastThird` finds: nothing exactly when no word completes the
      pair, and otherwise the completing word that no later word follows. */
  lemma {:induction false} LastThirdIsLast(a: string, b: string, words: seq<string>, chars: set<char>)
    ensures LastThird(a, b, words, chars).None? <==> forall c :: c in words ==> !CompletesPair(a, b, c, chars)
    ensures LastThird(a, b, words, chars).Some? ==>
      exists i :: 0 <= i < |words| && words[i] == LastThird(a, b, words, chars).value
        && CompletesPair(a, b, words[i], chars)
        && forall j :: i < j < |words| ==> !CompletesPair(a, b, words[j], chars)
  {
    if words != [] {
      var n := |words| - 1;
      var init := words[..n];
      assert words == init + [words[n]];
      if !CompletesPair(a, b, words[n], chars) {
        LastThirdIsLast(a, b, init, chars);
        if LastThird(a, b, init, chars).Some? {
          var i :| 0 <= i < |init| && init[i] == LastThird(a, b, init, chars).value
            && CompletesPair(a, b, init[i], chars)
            && forall j :: i < j < |init| ==> !CompletesPair(a, b, init[j], chars);
          assert words[i] == init[i];
          forall j | i < j < |words| ensures !CompletesPair(a, b, words[j], chars) {
            if j < n { assert words[j] == init[j]; }
          }
        }
      }
    }
  }

  /** For every pair in order, the triple with the pair's last completing word. */
  function Extend(ps: seq<(string, string)>, words: seq<string>, chars: set<char>): (r: seq<seq<string>>)
    ensures forall t :: t in r <==> |t| == 3 && (t[0], t[1]) in ps && LastThird(t[0], t[1], words, chars) == Some(t[2])
  {
    if ps == [] then []
    else
      var p := ps[0];
      var head := match LastThird(p.0, p.1, words, chars)
        case Some(c) => [[p.0, p.1, c]]
        case None => [];
      assert forall t: seq<string> :: |t| == 3 ==> t == [t[0], t[1], t[2]];
      assert ps == [p] + ps[1..];
      head + Extend(ps[1..], words, chars)
  }

  function ThreeWordReference(words: seq<string>, chars: set<char>): (r: seq<seq<string>>)
  {
    Extend(ChainPairs(words), words, chars)
  }

  /** The signature test agrees with the plain three-word test. */
  lemma SignatureCompletes(a: string, b: string, c: string, chars: set<char>)
    requires |b| > 0 && |c| > 0
    ensures Completes(Signature(a + b), c, chars) <==> CompletesPair(a, b, c, chars)
  {
    var key := Signature(a + b);
    LettersConcat(key, c);
    LettersConcat(a, b);
    assert (a + b)[|a + b| - 1] == b[|b| - 1];
  }

  lemma {:induction false} LastCompletionIsLastThird(a: string, b: string, words: seq<string>, chars: set<char>)
    requires |b| > 0
    requires forall w :: w in words ==> |w| > 0
    ensures LastCompletion(Signature(a + b), words, chars) == LastThird(a, b, words, chars)
  {
    if words != [] {
      var n := |words| - 1;
      assert words[n] in words;
      SignatureCompletes(a, b, words[n], chars);
      forall w | w in words[..n] ensures |w| > 0 {
        assert w in words;
      }
      LastCompletionIsLastThird(a, b, words[..n], chars);
    }
  }

  /** The signature of every pair the search looks up has an entry exactly
      when the pair has a completion, and the entry is the last completion. */
  lemma CompletionsLookup(a: string, b: string, words: seq<string>, chars: set<char>)
    requires a in words && b in words && Chains(a, b)
    requires forall w :: w in words ==> |w| > 0
    ensures Signature(a + b) in Completions(words, chars) <==> LastThird(a, b, words, chars).Some?
    ensures Signature(a + b) in Completions(words, chars) ==>
      Completions(words, chars)[Signature(a + b)] == LastThird(a, b, words, chars).value
  {
    assert a + b in ABCombinations(words);
    assert Signature(a + b) in SignatureKeys(words);
    LastCompletionIsLastThird(a, b, words, chars);
  }

  lemma {:induction false} LookupsIsExtend(ps: seq<(string, string)>, words: seq<string>, chars: set<char>)
    requires forall p :: p in ps ==> p.0 in words && p.1 in words && Chains(p.0, p.1)
    requires forall w :: w in words ==> |w| > 0
    ensures Lookups(ps, Completions(words, chars)) == Extend(ps, words, chars)
  {
    if ps != [] {
      assert ps[0] in ps;
      CompletionsLookup(ps[0].0, ps[0].1, words, chars);
      assert forall p :: p in ps[1..] ==> p in ps;
      LookupsIsExtend(ps[1..], words, chars);
    }
  }

  /** The signature index computes exactly the reference search. */
  lemma ThreeWordIsReference(words: seq<string>, chars: set<char>)
    requires forall w :: w in words ==> |w| > 0
    ensures ThreeWordSolution(words, chars) == ThreeWordReference(words, chars)
  {
    LookupsIsExtend(ChainPairs(words), words, chars);
  }

  /** Every triple is a solution: three list words, the first two distinct,
      chained end to start, together using exactly `chars`. */
  lemma ThreeWordSound(words: seq<string>, chars: set<char>)
    requires forall w :: w in words ==> |w| > 0
    ensures forall t :: t in ThreeWordSolution(words, chars) ==>
      && |t| == 3
      && t[0] in words && t[1] in words && t[2] in words
      && t[0] != t[1] && Chains(t[0], t[1]) && Chains(t[1], t[2])
      && Letters(t[0]) + Letters(t[1]) + Letters(t[2]) == chars
  {
    ThreeWordIsReference(words, chars);
    forall t | t in ThreeWordSolution(words, chars)
      ensures t[2] in words && Chains(t[1], t[2]) && Letters(t[0]) + Letters(t[1]) + Letters(t[2]) == chars
    {
      LastThirdIsLast(t[0], t[1], words, chars);
    }
  }

  /** The reference search emits, for a listed pair, exactly the triple with
      the pair's last completing word. */
  lemma ReferencePerPair(words: seq<string>, chars: set<char>, a: string, b: string)
    requires (a, b) in ChainPairs(words)
    ensures forall c :: [a, b, c] in ThreeWordReference(words, chars) <==> LastThird(a, b, words, chars) == Some(c)
  {
    forall c ensures [a, b, c] in ThreeWordReference(words, chars) <==> LastThird(a, b, words, chars) == Some(c) {
      assert [a, b, c][0] == a && [a, b, c][1] == b && [a, b, c][2] == c;
    }
  }

  /** Per pair: for each chainable `(a, b)` with `a != b`, the triples starting
      `a, b` are exactly the one with the last completing word, and there is one
      exactly when some word of the list completes the pair. The third word
      may repeat `a` or `b`. */
  lemma ThreeWordPerPair(words: seq<string>, chars: set<char>, a: string, b: string)
    requires forall w :: w in words ==> |w| > 0
    requires a in words && b in words && a != b && Chains(a, b)
    ensures forall c :: [a, b, c] in ThreeWordSolution(words, chars) <==> LastThird(a, b, words, chars) == Some(c)
    ensures (exists c :: [a, b, c] in ThreeWordSolution(words, chars)) <==>
            (exists c :: c in words && CompletesPair(a, b, c, chars))
  {
    ThreeWordIsReference(words, chars);
    assert (a, b) in ChainPairs(words);
    ReferencePerPair(words, chars, a, b);
    LastThirdIsLast(a, b, words, chars);
    if exists c :: c in words && CompletesPair(a, b, c, chars) {
      assert [a, b, LastThird(a, b, words, chars).value] in ThreeWordSolution(words, chars);
    }
  }

  /** Extend keeps the pair order. */
  lemma {:induction false} ExtendSorted(ps: seq<(string, string)>, words: seq<string>, chars: set<char>)
    requires StrictlySorted(ps, PairLess)
    ensures StrictlySorted(Extend(ps, words, chars), PrefixLess)
  {
    if ps != [] {
      SortedTail(ps, PairLess);
      ExtendSorted(ps[1..], words, chars);
      var p := ps[0];
      var rest := Extend(ps[1..], words, chars);
      match LastThird(p.0, p.1, words, chars)
      case Some(c) =>
        forall y | y in rest ensures PrefixLess([p.0, p.1, c], y) {
          assert (y[0], y[1]) in ps[1..];
        }
        SortedCons([p.0, p.1, c], rest, PrefixLess);
      case None =>
    }
  }

  /** Over a sorted candidate list the triples come out in ascending order of
      their first two words, so no pair `(a, b)` starts two triples. */
  lemma ThreeWordOrdered(words: seq<string>, chars: set<char>)
    requires forall w :: w in words ==> |w| > 0
    requires StrictlySorted(words, Less)
    ensures StrictlySorted(ThreeWordSolution(words, chars), PrefixLess)
    ensures forall i, j :: 0 <= i < j < |ThreeWordSolution(words, chars)| ==>
      DistinctPrefix(ThreeWordSolution(words, chars)[i], ThreeWordSolution(words, chars)[j])
  {
    ThreeWordIsReference(words, chars);
    ChainPairsOverSorted(words, words);
    ExtendSorted(ChainPairs(words), words, chars);
    PrefixesDistinct(ThreeWordSolution(words, chars));
  }

  /** The third word may repeat the first: over the list `AB`, `BA` with the
      letters A and B, the pair (`AB`, `BA`) is completed by `AB` again. */
  lemma ThirdMayRepeatFirst()
    ensures ["AB", "BA", "AB"] in ThreeWordSolution(["AB", "BA"], {'A', 'B'})
  {
    var words := ["AB", "BA"];
    var chars := {'A', 'B'};
    assert Letters("AB") == chars && Letters("BA") == chars;
    assert !Chains("BA", "BA");
    assert words[..1] == ["AB"];
    assert LastThird("AB", "BA", words, chars) == Some("AB");
    ThreeWordPerPair(words, chars, "AB", "BA");
  }
}
