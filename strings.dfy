/** Strings as the solver sees them: ASCII letters, upper-casing, the set of
    letters of a word, and the code-point lexicographic order of Python's `<`. */
module Strings {
  import opened Seqs

  predicate IsLetter(c: char)
  {
    'A' <= c <= 'Z' || 'a' <= c <= 'z'
  }

  predicate IsUpperLetter(c: char)
  {
    'A' <= c <= 'Z'
  }

  /** `str.upper` on one ASCII character. */
  function Upper(c: char): (u: char)
    ensures IsUpperLetter(u) <==> IsLetter(c)
    ensures 'a' <= c <= 'z' ==> u as int - 'A' as int == c as int - 'a' as int
    ensures !('a' <= c <= 'z') ==> u == c
  {
    if 'a' <= c <= 'z' then (c as int - 32) as char else c
  }

  /** `str.upper` on a string: character by character. */
  function UpperString(w: string): (r: string)
    ensures |r| == |w|
    ensures forall i :: 0 <= i < |w| ==> r[i] == Upper(w[i])
    ensures forall i :: 0 <= i < |w| ==> (IsUpperLetter(r[i]) <==> IsLetter(w[i]))
    ensures forall i :: 0 <= i < |w| && 'a' <= w[i] <= 'z' ==> r[i] as int - 'A' as int == w[i] as int - 'a' as int
    ensures forall i :: 0 <= i < |w| && !('a' <= w[i] <= 'z') ==> r[i] == w[i]
  {
    seq(|w|, i requires 0 <= i < |w| => Upper(w[i]))
  }

  /** Upper-casing twice is upper-casing once. */
  lemma UpperStringIdempotent(w: string)
    ensures UpperString(UpperString(w)) == UpperString(w)
  {
  }

  /** `set(w)`: the distinct characters of `w`. */
  function Letters(w: string): (r: set<char>)
  {
    set c | c in w
  }

  lemma LettersConcat(x: string, y: string)
    ensures Letters(x + y) == Letters(x) + Letters(y)
  {
    forall c ensures c in Letters(x + y) <==> c in Letters(x) + Letters(y) {
      assert c in x + y <==> c in x || c in y;
    }
  }

  /** Python's `a < b` on strings: the first differing character decides, and
      a proper prefix comes first. */
  function Less(a: string, b: string): (r: bool)
    ensures |a| < |b| && a == b[..|a|] ==> r
    ensures |b| <= |a| && b == a[..|b|] ==> !r
    ensures forall k :: 0 <= k < |a| && k < |b| && a[..k] == b[..k] && a[k] != b[k] ==> (r <==> a[k] < b[k])
  {
    if a == [] then b != []
    else if b == [] then false
    else if a[0] != b[0] then a[0] < b[0]
    else
      assert forall k :: 1 <= k < |a| && k < |b| && a[..k] == b[..k] ==> a[1..][..k - 1] == b[1..][..k - 1] by {
        forall k | 1 <= k < |a| && k < |b| && a[..k] == b[..k] ensures a[1..][..k - 1] == b[1..][..k - 1] {
          assert a[1..][..k - 1] == a[..k][1..] && b[1..][..k - 1] == b[..k][1..];
        }
      }
      Less(a[1..], b[1..])
  }

  lemma {:induction false} LessIrreflexive(a: string)
    ensures !Less(a, a)
  {
    if a != [] {
      LessIrreflexive(a[1..]);
    }
  }

  lemma {:induction false} LessTransitive(a: string, b: string, c: string)
    requires Less(a, b) && Less(b, c)
    ensures Less(a, c)
  {
    if a != [] && b != [] && c != [] && a[0] == b[0] && b[0] == c[0] {
      LessTransitive(a[1..], b[1..], c[1..]);
    }
  }

  lemma {:induction false} LessTotal(a: string, b: string)
    requires a != b
    ensures Less(a, b) || Less(b, a)
  {
    if a != [] && b != [] && a[0] == b[0] {
      assert a == [a[0]] + a[1..] && b == [b[0]] + b[1..];
      LessTotal(a[1..], b[1..]);
    }
  }

  /** String order is a strict total order, so sorting by it is well defined. */
  lemma LessIsStrictTotalOrder()
    ensures StrictTotalOrder(Less)
  {
    forall a ensures !Less(a, a) {
      LessIrreflexive(a);
    }
    forall a, b, c | Less(a, b) && Less(b, c) ensures Less(a, c) {
      LessTransitive(a, b, c);
    }
    forall a, b | a != b ensures Less(a, b) || Less(b, a) {
      LessTotal(a, b);
    }
  }

  function CharLess(a: char, b: char): (r: bool)
  {
    a < b
  }

  lemma CharLessIsStrictTotalOrder()
    ensures StrictTotalOrder(CharLess)
  {
  }
}
