/** The letter/side mapper: from the four raw side strings to the map from each
    upper-case letter to the side it was typed on. A side is identified by the
    raw string typed for it, so two sides typed identically are the same side. */
module Sides {
  import opened Strings

  /** `c` is one of the letters typed on `side`, after upper-casing. */
  ghost predicate OnSide(c: char, side: string)
  {
    exists i :: 0 <= i < |side| && IsLetter(side[i]) && Upper(side[i]) == c
  }

  /** The letters of a side as typed: non-letters dropped, the rest upper-cased. */
  function Cleaned(side: string): (r: string)
    ensures forall k :: 0 <= k < |r| ==> IsUpperLetter(r[k])
  {
    if side == [] then []
    else (if IsLetter(side[0]) then [Upper(side[0])] else []) + Cleaned(side[1..])
  }

  lemma {:induction false} CleanedLetters(side: string)
    ensures forall c :: c in Cleaned(side) <==> OnSide(c, side)
  {
    if side != [] {
      CleanedLetters(side[1..]);
      forall c ensures c in Cleaned(side) <==> OnSide(c, side) {
        if OnSide(c, side) {
          var i :| 0 <= i < |side| && IsLetter(side[i]) && Upper(side[i]) == c;
          if i > 0 {
            assert side[1..][i - 1] == side[i];
            assert OnSide(c, side[1..]);
          }
        }
        if c in Cleaned(side[1..]) {
          var i :| 0 <= i < |side[1..]| && IsLetter(side[1..][i]) && Upper(side[1..][i]) == c;
          assert side[i + 1] == side[1..][i];
        }
      }
    }
  }

  /** `get_letters`: every letter typed on `side` maps to the raw `side` string. */
  function GetLetters(side: string): (m: map<char, string>)
    ensures forall c :: c in m <==> OnSide(c, side)
    ensures forall c :: c in m ==> IsUpperLetter(c) && m[c] == side
  {
    CleanedLetters(side);
    map c | c in Cleaned(side) :: side
  }

  /** `clean_letters`: the maps of the four sides merged left, top, right,
      bottom; a letter typed on several sides keeps the last of them. */
  function CleanLetters(left: string, top: string, right: string, bottom: string): (pos: map<char, string>)
    ensures forall c :: c in pos <==> OnSide(c, left) || OnSide(c, top) || OnSide(c, right) || OnSide(c, bottom)
    ensures forall c :: c in pos ==> IsUpperLetter(c)
    ensures forall c :: c in pos ==>
      pos[c] == (if OnSide(c, bottom) then bottom
                 else if OnSide(c, right) then right
                 else if OnSide(c, top) then top
                 else left)
  {
    GetLetters(left) + GetLetters(top) + GetLetters(right) + GetLetters(bottom)
  }
}
