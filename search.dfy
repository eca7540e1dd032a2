/** One- and two-word searches over the candidate word list, and the ordered
    enumeration of chainable word pairs they share with the three-word search. */
module Search {
  import opened Seqs
  import opened Strings

  /** The last letter of `a` is the first letter of `b`. */
  predicate Chains(a: string, b: string)
  {
    |a| > 0 && |b| > 0 && a[|a| - 1] == b[0]
  }

  /** `one_word_solution`: the words whose letter set is exactly `chars`. */
  function OneWordSolution(words: seq<string>, chars: set<char>): (r: seq<string>)
    ensures forall w :: w in r <==> w in words && Letters(w) == chars
    ensures IsSubsequence(r, words)
  {
    var usesAll := w => Letters(w) == chars;
    FilterIsSubsequence(words, usesAll);
    Filter(words, usesAll)
  }

  function Follows(a: string): (r: string -> bool)
  {
    w => Chains(a, w) && w != a
  }

  /** `[w for w in words if w[0] == a[-1] and w != a]`. */
  function Followers(a: string, words: seq<string>): (r: seq<string>)
    ensures forall w :: w in r <==> w in words && Chains(a, w) && w != a
  {
    Filter(words, Follows(a))
  }

  function PairsOf(a: string, bs: seq<string>): (r: seq<(string, string)>)
    ensures |r| == |bs|
    ensures forall i :: 0 <= i < |bs| ==> r[i] == (a, bs[i])
  {
    seq(|bs|, i requires 0 <= i < |bs| => (a, bs[i]))
  }

  /** The chainable ordered pairs `(a, b)` with `a` from `firsts` and `b` from
      `words`, `a != b`: by position of `a` in `firsts`, then of `b` in `words`. */
  function ChainPairsOver(firsts: seq<string>, words: seq<string>): (r: seq<(string, string)>)
    ensures forall p :: p in r <==> p.0 in firsts && p.1 in words && p.0 != p.1 && Chains(p.0, p.1)
  {
    if firsts == [] then []
    else
      var a := firsts[|firsts| - 1];
      var r := ChainPairsOver(firsts[..|firsts| - 1], words) + PairsOf(a, Followers(a, words));
      assert forall p :: p in PairsOf(a, Followers(a, words)) <==> p.0 == a && p.1 in Followers(a, words) by {
        forall p: (string, string) | p.0 == a && p.1 in Followers(a, words) ensures p in PairsOf(a, Followers(a, words)) {
          var i :| 0 <= i < |Followers(a, words)| && Followers(a, words)[i] == p.1;
          assert PairsOf(a, Followers(a, words))[i] == p;
        }
      }
      assert firsts == firsts[..|firsts| - 1] + [a];
      r
  }

  lemma ChainPairsOverSnoc(firsts: seq<string>, a: string, words: seq<string>)
    ensures ChainPairsOver(firsts + [a], words) == ChainPairsOver(firsts, words) + PairsOf(a, Followers(a, words))
  {
    assert (firsts + [a])[..|firsts|] == firsts;
  }


  /** Every chainable ordered pair of distinct words, in list order. */
  function ChainPairs(words: seq<string>): (r: seq<(string, string)>)
  {
    ChainPairsOver(words, words)
  }

  /** The pairs of `ps` whose two words together use exactly `chars`, as lists. */
  function Covering(ps: seq<(string, string)>, chars: set<char>): (r: seq<seq<string>>)
    ensures forall x :: x in r <==> |x| == 2 && (x[0], x[1]) in ps && Letters(x[0] + x[1]) == chars
  {
    if ps == [] then []
    else
      var p := ps[0];
      var head := if Letters(p.0 + p.1) == chars then [[p.0, p.1]] else [];
      var r := head + Covering(ps[1..], chars);
      assert forall x: seq<string> :: |x| == 2 ==> x == [x[0], x[1]];
      assert ps == [p] + ps[1..];
      r
  }

  lemma {:induction false} CoveringAppend(s: seq<(string, string)>, t: seq<(string, string)>, chars: set<char>)
    ensures Covering(s + t, chars) == Covering(s, chars) + Covering(t, chars)
  {
    if s == [] {
      assert s + t == t;
    } else {
      assert (s + t)[0] == s[0] && (s + t)[1..] == s[1..] + t;
      CoveringAppend(s[1..], t, chars);
    }
  }

  /** One step of the outer loop of `two_word_solution`. */
  lemma OuterStep(words: seq<string>, i: nat, chars: set<char>)
    requires i < |words|
    ensures Covering(ChainPairsOver(words[..i + 1], words), chars)
         == Covering(ChainPairsOver(words[..i], words), chars) + Covering(PairsOf(words[i], Followers(words[i], words)), chars)
  {
    TakeOneMore(words, i);
    ChainPairsOverSnoc(words[..i], words[i], words);
    CoveringAppend(ChainPairsOver(words[..i], words), PairsOf(words[i], Followers(words[i], words)), chars);
  }

  /** One step of the inner loop of `two_word_solution`. */
  lemma InnerStep(a: string, bs: seq<string>, j: nat, chars: set<char>)
    requires j < |bs|
    ensures Covering(PairsOf(a, bs[..j + 1]), chars)
         == Covering(PairsOf(a, bs[..j]), chars) + (if Letters(a + bs[j]) == chars then [[a, bs[j]]] else [])
  {
    assert PairsOf(a, bs[..j + 1]) == PairsOf(a, bs[..j]) + [(a, bs[j])];
    CoveringAppend(PairsOf(a, bs[..j]), [(a, bs[j])], chars);
  }

  /** What `two_word_solution` returns. */
  function TwoWordSpec(words: seq<string>, chars: set<char>): (r: seq<seq<string>>)
    ensures forall p :: p in r <==>
      |p| == 2 && p[0] in words && p[1] in words && p[0] != p[1] && Chains(p[0], p[1]) && Letters(p[0] + p[1]) == chars
  {
    Covering(ChainPairs(words), chars)
  }

  /** `two_word_solution`: for each word, the matches that chain from it, and
      each pair whose letters together are exactly `chars`. */
  method TwoWordSolution(words: seq<string>, chars: set<char>) returns (output: seq<seq<string>>)
    requires forall w :: w in words ==> |w| > 0
    ensures output == TwoWordSpec(words, chars)
    ensures forall p :: p in output <==>
      |p| == 2 && p[0] in words && p[1] in words && p[0] != p[1] && Chains(p[0], p[1]) && Letters(p[0] + p[1]) == chars
  {
    output := [];
    for i := 0 to |words|
      invariant output == Covering(ChainPairsOver(words[..i], words), chars)
    {
      var word := words[i];
      var matches := Followers(word, words);
      var found: seq<seq<string>> := [];
      for j := 0 to |matches|
        invariant found == Covering(PairsOf(word, matches[..j]), chars)
      {
        var m := matches[j];
        var combined := word + m;
        InnerStep(word, matches, j, chars);
        if Letters(combined) == chars {
          found := found + [[word, m]];
        }
      }
      assert matches[..|matches|] == matches;
      OuterStep(words, i, chars);
      output := output + found;
    }
    assert words[..|words|] == words;
  }

  /** Order of pairs: by first word, then by second. */
  function PairLess(p: (string, string), q: (string, string)): (r: bool)
  {
    Less(p.0, q.0) || (p.0 == q.0 && Less(p.1, q.1))
  }

  /** Order of answers by their first two words. */
  function PrefixLess(x: seq<string>, y: seq<string>): (r: bool)
  {
    |x| >= 2 && |y| >= 2 && PairLess((x[0], x[1]), (y[0], y[1]))
  }

  lemma PairsOfSorted(a: string, bs: seq<string>)
    requires StrictlySorted(bs, Less)
    ensures StrictlySorted(PairsOf(a, bs), PairLess)
  {
  }

  /** Pairs starting with an earlier first word come before those starting with `a`. */
  lemma PairsBefore(init: seq<string>, a: string, words: seq<string>)
    requires forall k :: 0 <= k < |init| ==> Less(init[k], a)
    ensures forall p, q :: p in ChainPairsOver(init, words) && q in PairsOf(a, Followers(a, words)) ==> PairLess(p, q)
  {
    forall p, q | p in ChainPairsOver(init, words) && q in PairsOf(a, Followers(a, words)) ensures PairLess(p, q) {
      var k :| 0 <= k < |init| && init[k] == p.0;
      var m :| 0 <= m < |PairsOf(a, Followers(a, words))| && PairsOf(a, Followers(a, words))[m] == q;
    }
  }

  /** Over a sorted word list the chainable pairs come out in ascending order. */
  lemma {:induction false} ChainPairsOverSorted(firsts: seq<string>, words: seq<string>)
    requires StrictlySorted(firsts, Less) && StrictlySorted(words, Less)
    ensures StrictlySorted(ChainPairsOver(firsts, words), PairLess)
  {
    if firsts != [] {
      var n := |firsts| - 1;
      var a := firsts[n];
      var init := firsts[..n];
      assert StrictlySorted(init, Less);
      ChainPairsOverSorted(init, words);
      FilterSorted(words, Follows(a), Less);
      PairsOfSorted(a, Followers(a, words));
      assert forall k :: 0 <= k < |init| ==> Less(init[k], a) by {
        forall k | 0 <= k < |init| ensures Less(init[k], a) {
          assert init[k] == firsts[k];
        }
      }
      PairsBefore(init, a, words);
      SortedAppend(ChainPairsOver(init, words), PairsOf(a, Followers(a, words)), PairLess);
    }
  }

  /** Covering keeps the pair order. */
  lemma {:induction false} CoveringSorted(ps: seq<(string, string)>, chars: set<char>)
    requires StrictlySorted(ps, PairLess)
    ensures StrictlySorted(Covering(ps, chars), PrefixLess)
  {
    if ps != [] {
      SortedTail(ps, PairLess);
      CoveringSorted(ps[1..], chars);
      var p := ps[0];
      if Letters(p.0 + p.1) == chars {
        forall y | y in Covering(ps[1..], chars) ensures PrefixLess([p.0, p.1], y) {
          assert (y[0], y[1]) in ps[1..];
        }
        SortedCons([p.0, p.1], Covering(ps[1..], chars), PrefixLess);
      }
    }
  }

  /** `x` and `y` both have two words and differ in them. */
  predicate DistinctPrefix(x: seq<string>, y: seq<string>)
  {
    |x| >= 2 && |y| >= 2 && (x[0] != y[0] || x[1] != y[1])
  }

  /** Answers sorted by their first two words never share those two words. */
  lemma PrefixesDistinct(r: seq<seq<string>>)
    requires StrictlySorted(r, PrefixLess)
    ensures forall i, j :: 0 <= i < j < |r| ==> DistinctPrefix(r[i], r[j]) && r[i] != r[j]
  {
    forall i, j | 0 <= i < j < |r| ensures DistinctPrefix(r[i], r[j]) && r[i] != r[j] {
      assert PrefixLess(r[i], r[j]);
      LessIrreflexive(r[i][0]);
      LessIrreflexive(r[i][1]);
    }
  }

  /** Over a sorted candidate list the two-word answers are in ascending order
      of first word, then second word; in particular no pair appears twice. */
  lemma TwoWordOrdered(words: seq<string>, chars: set<char>)
    requires StrictlySorted(words, Less)
    ensures StrictlySorted(TwoWordSpec(words, chars), PrefixLess)
    ensures forall i, j :: 0 <= i < j < |TwoWordSpec(words, chars)| ==> TwoWordSpec(words, chars)[i] != TwoWordSpec(words, chars)[j]
  {
    ChainPairsOverSorted(words, words);
    CoveringSorted(ChainPairs(words), chars);
    PrefixesDistinct(TwoWordSpec(words, chars));
  }
}
