# Letter Boxed solver, modelled in Dafny

Letter Boxed is a word puzzle. Twelve letters sit on the four sides of a square,
three per side. Words are spelled with those letters only, and two consecutive
letters of a word may never come from the same side. Each word of a solution
starts with the last letter of the word before it. The solutions of a given
size are the chains of one, two or three words that together use every letter
of the square.

The solver reads the four sides and turns them into a letter map
(`clean_letters`): each letter goes to the side it was typed on. It then
filters a dictionary down to the candidate words (`get_words`) and runs the
one-, two- or three-word search the caller asked for. Last, it drops the
answers the caller excludes (`solve_puzzle`).

The project has six modules:

- `Seqs`: generic sequence helpers.
  - `Filter` models a list comprehension with a condition.
  - `SortedUnique` models `sorted(set(...))`.
  - `IsSubsequence` states that an order is kept.
- `Strings`: ASCII letters and upper-casing.
  - `Letters` models `set(w)`.
  - `Less` models Python's `<` on strings. It is proved to be a strict total order by `LessIsStrictTotalOrder`.
- `Sides`: `get_letters` and `clean_letters`.
  - A side is identified by the raw string typed for it, as in the source.
  - A letter typed on several sides keeps the last side in the merge order: left, top, right, bottom.
- `Dictionary`: `get_words` over a word list already in memory.
  - `Candidates` is the specification function.
  - `DropSameSideWords` is the `toss` loop, proved against it.
  - `GetWords` composes the steps and calls `DropSameSideWords`.
- `Search`: `one_word_solution` and `two_word_solution`.
  - `TwoWordSolution` keeps the source's nested loops and is proved equal to `TwoWordSpec`.
  - `TwoWordSpec` is the ordered list of covering chainable pairs.
- `ThreeWord`: `to_base` and `three_word_solution`.
  - The source's signature index is modelled as written by `ThreeWordSolution`.
  - It is proved equal to `ThreeWordReference`, a plain definition without signatures: for each chainable pair `(a, b)` with `a != b`, in order, it gives the pair's last completing word.
  - The third word may repeat `a` or `b`.
- `Solver`: dispatch by word count (`num_map`), the `exclude` filter and `solve_puzzle`.

An answer is the datatype `Answer`: `Word(w)` for a one-word answer and
`Chain(ws)` for a list of words. The source's one-word search returns strings
and its other searches return lists. In `x not in exclude`, a string never
equals a list, and the datatype keeps that distinction.

## Model

| member | source | states |
|---|---|---|
| Sides.CleanedLetters | solver.py:12-13 | a character is in the cleaned side exactly when it is the upper case of a letter typed on that side |
| Sides.GetLetters | solver.py:2-14 | the map's keys are exactly the upper-cased letters of the side, all upper-case letters, each mapped to the raw side string |
| Sides.CleanLetters | solver.py:18-35 | keys are exactly the letters on any of the four sides; each letter maps to the last side (in order left, top, right, bottom) that carries it |
| Strings.LessIsStrictTotalOrder | solver.py:53 | Python string order is irreflexive, transitive and total, so sorting by it is well defined |
| Strings.Less | solver.py:53 | Python's `<` on strings: a proper prefix comes first, a string never precedes its own prefix, and otherwise the first differing character decides |
| Strings.UpperString | solver.py:53 | `upper` keeps the length; a character comes out an upper-case letter iff it was a letter; `a`-`z` become the capital at the same alphabet position (`b` to `B`); every other character is unchanged |
| Strings.UpperStringIdempotent | solver.py:53 | upper-casing an upper-cased word changes nothing |
| Seqs.SortedUniquely | solver.py:53 | two strictly ascending lists with the same members are equal, so `sorted(set(...))` is determined by the set alone |
| Seqs.FilterIsSubsequence | solver.py:56 | a list comprehension with a condition keeps the relative order of the elements it keeps |
| Dictionary.Normalized | solver.py:53 | the normalised list is strictly ascending (hence free of duplicates) and holds exactly the upper-cased words |
| Dictionary.NormalizedUnique | solver.py:53 | any strictly ascending listing of the upper-cased words equals the normalised list, so the result depends only on the set |
| Dictionary.DropSameSideWords | solver.py:59-67 | the `toss` loop followed by the final comprehension keeps exactly the words with no two consecutive letters on the same side, in order |
| Dictionary.Candidates | solver.py:53-67 | the candidate list is strictly ascending and holds a word iff it is an upper-cased dictionary word, spelled only from `chars`, with no same-side step |
| Dictionary.GetWords | solver.py:39-67 | the candidates are strictly ascending; a word is a candidate iff it is an upper-cased dictionary word, spelled only from `chars`, with no same-side step; playable words of length at most one are always kept |
| Search.OneWordSolution | solver.py:76-77 | a word is returned iff it is in the list and its letter set is exactly `chars`; list order is kept |
| Search.Followers | solver.py:85 | the matches of a word are exactly the other list words starting with its last letter |
| Search.ChainPairsOver | solver.py:83-86 | the enumerated pairs are exactly the ordered chainable pairs of distinct words |
| Search.Covering | solver.py:87-89 | a pair is emitted iff it is among the candidate pairs and its two words together use exactly `chars` |
| Search.TwoWordSpec | solver.py:81-90 | an answer is listed iff it has two distinct list words, chained end to start, whose letters are exactly `chars` |
| Search.TwoWordSolution | solver.py:81-90 | the nested loops return the ordered spec list; an answer is returned iff it has two distinct list words, chained end to start, whose letters are exactly `chars` |
| Search.ChainPairsOverSorted | solver.py:83-85 | over an ascending list the chainable pairs come out ascending by first word, then second |
| Search.TwoWordOrdered | solver.py:81-90 | over an ascending candidate list the two-word answers are ascending by first word, then second, and no answer appears twice |
| ThreeWord.ToBase | solver.py:71-72 | the base form is strictly ascending and has exactly the distinct characters of its input |
| ThreeWord.ToBaseUnique | solver.py:72 | the base form is the only strictly ascending string with the letters of its input |
| ThreeWord.Signature | solver.py:96 | a signature ends with the last letter of the concatenation and has exactly its letters |
| ThreeWord.JoinedOver | solver.py:95 | the combinations are exactly the chainable concatenations `a + b` of list words (`a == b` allowed), and none is empty |
| ThreeWord.ABCombinations | solver.py:95 | `ab_combinations` holds exactly the concatenations `a + b` of list words with `a` ending where `b` starts |
| ThreeWord.SignatureKeys | solver.py:96 | the candidate signatures are exactly the signatures of the chainable concatenations of list words |
| ThreeWord.SignatureCompletes | solver.py:97 | the `solutions` test on the signature of `a + b` holds iff `c` chains from `b` and `a`, `b`, `c` together use exactly `chars` |
| ThreeWord.LastThirdIsLast | solver.py:97 | no completion is found iff no list word completes the pair; otherwise the one found completes it and no later word does |
| ThreeWord.LastCompletion | solver.py:97 | the entry left under a signature is absent iff no list word completes it; when present it is a list word that completes it |
| ThreeWord.LastCompletionIsLastThird | solver.py:97 | the word the dictionary comprehension leaves under a signature is the last word completing the pair |
| ThreeWord.Completions | solver.py:97 | every key of `solutions` is a candidate signature mapped to a list word completing it; a candidate signature is a key iff some list word completes it |
| ThreeWord.CompletionsLookup | solver.py:96-100 | a looked-up signature has an entry iff the pair has a completion, and the entry is its last completion |
| ThreeWord.Extend | solver.py:99-100 | a triple is emitted iff its first two words are a listed pair and its third is the pair's last completion |
| ThreeWord.Lookups | solver.py:99-100 | no more triples than pairs; every triple is a chainable looked-up pair whose signature is a key of `solutions`, followed by that key's value |
| ThreeWord.LookupsOnePerPair | solver.py:99-100 | two triples that start with the same two words are the same triple |
| ThreeWord.LookupsIsExtend | solver.py:99-100 | looking pairs up in the signature index equals extending them by their last completion |
| ThreeWord.ThreeWordSolution | solver.py:94-102 | no more triples than chainable pairs; every triple starts with a chainable pair of distinct list words and ends with a list word (its exact value is given by `ThreeWord.ThreeWordIsReference`) |
| ThreeWord.ThreeWordIsReference | solver.py:94-102 | the signature-based search equals the reference search without signatures |
| ThreeWord.ThreeWordSound | solver.py:94-102 | every triple has three list words, the first two distinct, chained end to start, together using exactly `chars` |
| ThreeWord.ThreeWordOnePerPair | solver.py:94-102 | at most one triple per pair: two answers with the same first two words are equal |
| ThreeWord.ThreeWordPerPair | solver.py:97-100 | for a chainable pair `(a, b)` with `a != b`, `[a, b, c]` is returned iff `c` is the last completing word; a triple for the pair exists iff some list word completes it |
| ThreeWord.ReferencePerPair | solver.py:99-100 | the reference search emits `[a, b, c]` for a listed pair iff `c` is the pair's last completing word |
| ThreeWord.ExtendSorted | solver.py:99-100 | extending ascending pairs gives triples ascending by their first two words |
| ThreeWord.ThreeWordOrdered | solver.py:94-102 | over an ascending candidate list the triples are ascending by their first two words, so no pair starts two triples |
| ThreeWord.ThirdMayRepeatFirst | solver.py:97-100 | the third word may repeat the first: over `AB`, `BA` with letters A and B the answer `[AB, BA, AB]` is returned |
| Solver.Exclude | solver.py:132 | an answer is kept iff it was found and is not excluded; order is kept |
| Solver.ExcludeUnrelated | solver.py:132 | excluding only answers that were not found changes nothing |
| Solver.ExcludeNothing | solver.py:114 | the default empty exclusion list changes nothing |
| Solver.Selected | solver.py:105-110 | the word count selects the search of that size: `'1'` gives single words, `'2'` pairs and `'3'` triples |
| Solver.OneWordAnswersSound | solver.py:76-77 | every one-word answer is a list word using exactly `chars` |
| Solver.TwoWordAnswersSound | solver.py:81-90 | every two-word answer is a chained pair of distinct list words using exactly `chars` |
| Solver.ThreeWordAnswersSound | solver.py:94-102 | every three-word answer is a chained triple of list words, the first two distinct, using exactly `chars` |
| Solver.SelectedSound | solver.py:105-110 | every answer of the search `num_map` selects is a solution of that size |
| Solver.CandidatesNonEmpty | solver.py:52-56 | without a blank dictionary line every candidate word is nonempty |
| Solver.SolvePuzzle | solver.py:114-134 | returns the count it was given and the selected search's answers over the candidates less the excluded ones; every returned answer is unexcluded and a solution of the requested size |

## Left out

- Reading the word file (lines 52-53) is left out. The model takes the dictionary as a list of already stripped lines; `strip` itself is not modelled.
- `main` (lines 137-165) is left out: console input, the retry loop over the word count, and printing.
- The `'text'` entries of `num_map` are left out; only the functions are used.
- Characters are modelled as ASCII: `str.isalpha` and `str.upper` are restricted to the letters A-Z and a-z. Unicode letters and case mappings are not modelled.
- The iteration order of `list(set(...))` at line 96 is left out. The signatures are a set, and the result does not depend on their order: every key's entry is computed independently.
- Solver.SolvePuzzle builds three-word answers as lists directly, where the source joins with `'-'` and splits again (lines 99-102). The two agree as long as no candidate word contains `'-'`. That holds when every key of the letter map is a letter, as `Sides.CleanLetters` ensures for the only caller, `main`. The model does not reproduce the split for a map given by another caller with `'-'` as a key.
- Solver.SolvePuzzle: the source raises `KeyError` for a word count other than `'1'`, `'2'` or `'3'`. The model requires a valid count instead.
- Solver.SolvePuzzle: a blank dictionary line yields the empty candidate `""`. The two- and three-word searches then fail on `word[-1]`. The model therefore requires that no word is blank when the count is not `'1'`.
- Dictionary.GetWords: `pos[...]` raises `KeyError` for a letter outside the map. The model requires `chars` to be a subset of the map's keys, which `solve_puzzle` guarantees by passing the keys themselves.
- Search.TwoWordSolution collects each word's covering pairs and then appends them to the output in one step, where the source appends them one at a time. The resulting list is the same.
- Solver.SolvePuzzle returns the tuple `(answers, num)` as two out-parameters.
