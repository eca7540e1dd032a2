/** The dictionary filter (`get_words`): upper-case, deduplicate and sort the
    word list, keep the words spelled from the puzzle's letters, and drop the
    words with two consecutive letters from the same side. */
module Dictionary {
  import opened Seqs
  import opened Strings

  /** Every word upper-cased, in input order. */
  function UpperAll(words: seq<string>): (r: seq<string>)
    ensures |r| == |words|
    ensures forall i :: 0 <= i < |words| ==> r[i] == UpperString(words[i])
  {
    seq(|words|, i requires 0 <= i < |words| => UpperString(words[i]))
  }

  /** `sorted(set(w.upper() for w in words))`. */
  function Normalized(words: seq<string>): (r: seq<string>)
    ensures StrictlySorted(r, Less)
    ensures forall w :: w in r <==> w in UpperAll(words)
  {
    LessIsStrictTotalOrder();
    SortedUniqueSorted(UpperAll(words), Less);
    SortedUnique(UpperAll(words), Less)
  }

  /** `sorted(set(...))` depends on the set alone: any strictly ascending
      listing of the upper-cased words is the normalised list. */
  lemma NormalizedUnique(words: seq<string>, s: seq<string>)
    requires StrictlySorted(s, Less)
    requires forall w :: w in s <==> w in UpperAll(words)
    ensures s == Normalized(words)
  {
    LessIsStrictTotalOrder();
    SortedUniquely(s, Normalized(words), Less);
  }

  /** `set(w) <= chars`. */
  predicate Playable(w: string, chars: set<char>)
  {
    Letters(w) <= chars
  }

  function IsPlayable(chars: set<char>): (r: string -> bool)
  {
    w => Playable(w, chars)
  }

  /** `[w for w in words if set(w) <= chars]`. */
  function KeepPlayable(words: seq<string>, chars: set<char>): (r: seq<string>)
  {
    Filter(words, IsPlayable(chars))
  }

  /** Letters `x` and `y` are both mapped, to the same side. */
  predicate SameSide(pos: map<char, string>, x: char, y: char)
  {
    x in pos && y in pos && pos[x] == pos[y]
  }

  /** No two consecutive letters of `w` lie on the same side. */
  predicate SideRespecting(w: string, pos: map<char, string>)
  {
    forall i :: 1 <= i < |w| ==> !SameSide(pos, w[i - 1], w[i])
  }

  function RespectsSides(pos: map<char, string>): (r: string -> bool)
  {
    w => SideRespecting(w, pos)
  }

  function KeepSideRespecting(words: seq<string>, pos: map<char, string>): (r: seq<string>)
  {
    Filter(words, RespectsSides(pos))
  }

  function NotTossed(toss: seq<string>): (r: string -> bool)
  {
    w => w !in toss
  }

  /** The candidate word list that `get_words` returns. */
  function Candidates(words: seq<string>, pos: map<char, string>, chars: set<char>): (r: seq<string>)
    ensures StrictlySorted(r, Less)
    ensures forall w :: w in r <==> w in UpperAll(words) && Playable(w, chars) && SideRespecting(w, pos)
  {
    FilterSorted(Normalized(words), IsPlayable(chars), Less);
    FilterSorted(KeepPlayable(Normalized(words), chars), RespectsSides(pos), Less);
    KeepSideRespecting(KeepPlayable(Normalized(words), chars), pos)
  }

  /** The `toss` loop of `get_words`: collect every word with a same-side step,
      then keep the words not collected. */
  method DropSameSideWords(valid: seq<string>, pos: map<char, string>) returns (kept: seq<string>)
    requires forall w :: w in valid ==> Letters(w) <= pos.Keys
    ensures kept == KeepSideRespecting(valid, pos)
  {
    var toss: seq<string> := [];
    for k := 0 to |valid|
      invariant forall w :: w in toss <==> w in valid[..k] && !SideRespecting(w, pos)
    {
      var word := valid[k];
      assert word in valid;
      assert valid[..k + 1] == valid[..k] + [word];
      ghost var before := toss;
      var num := 1;
      while num < |word|
        invariant 1 <= num
        invariant toss == before
        invariant forall i :: 1 <= i < num && i < |word| ==> !SameSide(pos, word[i - 1], word[i])
      {
        assert word[num] in Letters(word) && word[num - 1] in Letters(word);
        if pos[word[num]] == pos[word[num - 1]] {
          toss := toss + [word];
          break;
        }
        num := num + 1;
      }
    }
    assert valid[..|valid|] == valid;
    kept := Filter(valid, NotTossed(toss));
    FilterCongruent(valid, NotTossed(toss), RespectsSides(pos));
  }

  /** `get_words` over a word list given in memory. */
  method GetWords(words: seq<string>, pos: map<char, string>, chars: set<char>) returns (r: seq<string>)
    requires chars <= pos.Keys
    ensures r == Candidates(words, pos, chars)
    ensures StrictlySorted(r, Less)
    ensures forall w :: w in r <==> w in UpperAll(words) && Playable(w, chars) && SideRespecting(w, pos)
    ensures forall w :: w in UpperAll(words) && Playable(w, chars) && |w| <= 1 ==> w in r
  {
    var actual := Normalized(words);
    var valid := KeepPlayable(actual, chars);
    r := DropSameSideWords(valid, pos);
  }
}
