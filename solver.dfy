/** Dispatch and exclusion (`solve_puzzle`): build the candidate list from the
    letter map, run the search the word count selects, and drop the answers the
    caller excludes. */
module Solver {
  import opened Seqs
  import opened Strings
  import opened Dictionary
  import opened Search
  import opened ThreeWord

  /** One answer: a single word, as `one_word_solution` lists them, or a list
      of words, as the two- and three-word searches list them. A word never
      equals a list, exactly as a Python string never equals a list. */
  datatype Answer = Word(word: string) | Chain(words: seq<string>)

  function AsWords(ws: seq<string>): (r: seq<Answer>)
    ensures |r| == |ws|
    ensures forall i :: 0 <= i < |ws| ==> r[i] == Word(ws[i])
  {
    seq(|ws|, i requires 0 <= i < |ws| => Word(ws[i]))
  }

  function AsChains(cs: seq<seq<string>>): (r: seq<Answer>)
    ensures |r| == |cs|
    ensures forall i :: 0 <= i < |cs| ==> r[i] == Chain(cs[i])
  {
    seq(|cs|, i requires 0 <= i < |cs| => Chain(cs[i]))
  }

  function NotExcluded(exclude: seq<Answer>): (r: Answer -> bool)
  {
    x => x !in exclude
  }

  /** `[x for x in answers if x not in exclude]`. */
  function Exclude(answers: seq<Answer>, exclude: seq<Answer>): (r: seq<Answer>)
    ensures forall x :: x in r <==> x in answers && x !in exclude
    ensures IsSubsequence(r, answers)
  {
    FilterIsSubsequence(answers, NotExcluded(exclude));
    Filter(answers, NotExcluded(exclude))
  }

  /** Excluding answers that were not found changes nothing. */
  lemma ExcludeUnrelated(answers: seq<Answer>, exclude: seq<Answer>)
    requires forall x :: x in answers ==> x !in exclude
    ensures Exclude(answers, exclude) == answers
  {
    FilterKeepsAll(answers, NotExcluded(exclude));
  }

  /** The default, empty exclusion list changes nothing. */
  lemma ExcludeNothing(answers: seq<Answer>)
    ensures Exclude(answers, []) == answers
  {
    ExcludeUnrelated(answers, []);
  }

  predicate ValidCount(num: string)
  {
    num == "1" || num == "2" || num == "3"
  }

  /** The search `num_map[num]` selects, run on `words`. */
  function Selected(num: string, words: seq<string>, chars: set<char>): (r: seq<Answer>)
    requires ValidCount(num)
    requires num != "1" ==> forall w :: w in words ==> |w| > 0
    ensures num == "1" ==> forall x :: x in r ==> x.Word?
    ensures num == "2" ==> forall x :: x in r ==> x.Chain? && |x.words| == 2
    ensures num == "3" ==> forall x :: x in r ==> x.Chain? && |x.words| == 3
  {
    if num == "1" then AsWords(OneWordSolution(words, chars))
    else if num == "2" then AsChains(TwoWordSpec(words, chars))
    else AsChains(ThreeWordSolution(words, chars))
  }

  /** A solution of the selected size over the word list `words`: list words
      chained end to start, the first two distinct, whose letters together are
      exactly `chars`. */
  ghost predicate IsSolution(x: Answer, num: string, words: seq<string>, chars: set<char>)
  {
    match x
    case Word(w) => num == "1" && w in words && Letters(w) == chars
    case Chain(ws) =>
      if num == "2" then
        && |ws| == 2 && ws[0] in words && ws[1] in words
        && ws[0] != ws[1] && Chains(ws[0], ws[1])
        && Letters(ws[0]) + Letters(ws[1]) == chars
      else
        && num == "3" && |ws| == 3 && ws[0] in words && ws[1] in words && ws[2] in words
        && ws[0] != ws[1] && Chains(ws[0], ws[1]) && Chains(ws[1], ws[2])
        && Letters(ws[0]) + Letters(ws[1]) + Letters(ws[2]) == chars
  }

  lemma OneWordAnswersSound(words: seq<string>, chars: set<char>)
    ensures forall x :: x in AsWords(OneWordSolution(words, chars)) ==> IsSolution(x, "1", words, chars)
  {
    var found := AsWords(OneWordSolution(words, chars));
    forall x | x in found ensures IsSolution(x, "1", words, chars) {
      var k :| 0 <= k < |found| && found[k] == x;
      assert OneWordSolution(words, chars)[k] in OneWordSolution(words, chars);
    }
  }

  lemma TwoWordAnswersSound(words: seq<string>, chars: set<char>)
    ensures forall x :: x in AsChains(TwoWordSpec(words, chars)) ==> IsSolution(x, "2", words, chars)
  {
    var pairs := TwoWordSpec(words, chars);
    var found := AsChains(pairs);
    forall x | x in found ensures IsSolution(x, "2", words, chars) {
      var k :| 0 <= k < |found| && found[k] == x;
      var p := pairs[k];
      assert x == Chain(p) && p in pairs;
      LettersConcat(p[0], p[1]);
    }
  }

  lemma ThreeWordAnswersSound(words: seq<string>, chars: set<char>)
    requires forall w :: w in words ==> |w| > 0
    ensures forall x :: x in AsChains(ThreeWordSolution(words, chars)) ==> IsSolution(x, "3", words, chars)
  {
    var triples := ThreeWordSolution(words, chars);
    var found := AsChains(triples);
    ThreeWordSound(words, chars);
    forall x | x in found ensures IsSolution(x, "3", words, chars) {
      var k :| 0 <= k < |found| && found[k] == x;
      var t := triples[k];
      assert x == Chain(t) && t in triples;
      assert |t| == 3;
    }
  }

  /** Every answer of the selected search is a solution of that size. */
  lemma SelectedSound(num: string, words: seq<string>, chars: set<char>)
    requires ValidCount(num)
    requires num != "1" ==> forall w :: w in words ==> |w| > 0
    ensures forall x :: x in Selected(num, words, chars) ==> IsSolution(x, num, words, chars)
  {
    if num == "1" {
      OneWordAnswersSound(words, chars);
    } else if num == "2" {
      TwoWordAnswersSound(words, chars);
    } else {
      ThreeWordAnswersSound(words, chars);
    }
  }

  /** A blank dictionary entry is the only one that yields an empty candidate. */
  lemma CandidatesNonEmpty(words: seq<string>, pos: map<char, string>, chars: set<char>)
    requires "" !in words
    ensures forall w :: w in Candidates(words, pos, chars) ==> |w| > 0
  {
    forall w | w in Candidates(words, pos, chars) ensures |w| > 0 {
      assert w in UpperAll(words);
      var i :| 0 <= i < |words| && UpperAll(words)[i] == w;
      assert words[i] in words;
    }
  }

  /** `solve_puzzle`: the answers of the selected search over the candidate
      list, less the excluded ones, and the word count it was given. */
  method SolvePuzzle(pos: map<char, string>, num: string, words: seq<string>, exclude: seq<Answer>)
    returns (answers: seq<Answer>, kind: string)
    requires ValidCount(num)
    requires num != "1" ==> "" !in words
    ensures kind == num
    ensures num != "1" ==> forall w :: w in Candidates(words, pos, pos.Keys) ==> |w| > 0
    ensures answers == Exclude(Selected(num, Candidates(words, pos, pos.Keys), pos.Keys), exclude)
    ensures forall x :: x in answers ==>
      x !in exclude && IsSolution(x, num, Candidates(words, pos, pos.Keys), pos.Keys)
  {
    var chars := pos.Keys;
    var wordset := GetWords(words, pos, chars);
    if num != "1" {
      CandidatesNonEmpty(words, pos, chars);
    }
    var found: seq<Answer>;
    if num == "1" {
      found := AsWords(OneWordSolution(wordset, chars));
    } else if num == "2" {
      var pairs := TwoWordSolution(wordset, chars);
      found := AsChains(pairs);
    } else {
      found := AsChains(ThreeWordSolution(wordset, chars));
    }
    answers := Exclude(found, exclude);
    kind := num;
    SelectedSound(num, wordset, chars);
  }
}
