/**
 * The two string operations the search handler relies on: `str.lower()`
 * (restricted to ASCII letters) and Python's substring test `q in s`.
 */
module Text {

  /** Lower-cases one ASCII letter; every other character is left alone. */
  function LowerChar(c: char): char
  {
    if IsUpper(c) then (c as int - 'A' as int + 'a' as int) as char else c
  }

  predicate IsUpper(c: char)
  {
    'A' <= c <= 'Z'
  }

  /** `s.lower()`: the string with every ASCII upper-case letter lowered. */
  function Lower(s: string): (r: string)
    ensures |r| == |s|
    ensures forall i :: 0 <= i < |s| ==> r[i] == LowerChar(s[i])
    ensures forall i :: 0 <= i < |r| ==> !IsUpper(r[i])
  {
    if s == [] then [] else [LowerChar(s[0])] + Lower(s[1..])
  }

  /** `q in s`, defined by scanning: q is a prefix of s or of some suffix of s. */
  predicate Contains(q: string, s: string)
    decreases |s|
  {
    q <= s || (s != [] && Contains(q, s[1..]))
  }

  /** The reference meaning of `q in s`: q occurs in s starting at index i. */
  predicate OccursAt(q: string, s: string, i: int)
  {
    0 <= i && i + |q| <= |s| && s[i..i + |q|] == q
  }

  /** An occurrence at index i is found by the scan. */
  lemma {:induction false} OccursContained(q: string, s: string, i: int)
    requires OccursAt(q, s, i)
    ensures Contains(q, s)
    decreases i
  {
    if i == 0 {
      assert s[..|q|] == q;
    } else {
      assert s[1..][i - 1..i - 1 + |q|] == s[i..i + |q|];
      OccursContained(q, s[1..], i - 1);
    }
  }

  /** What the scan finds is an occurrence at some index. */
  lemma {:induction false} ContainedOccurs(q: string, s: string)
    requires Contains(q, s)
    ensures exists i :: OccursAt(q, s, i)
    decreases |s|
  {
    if q <= s {
      assert s[0..|q|] == q;
      assert OccursAt(q, s, 0);
    } else {
      ContainedOccurs(q, s[1..]);
      var j :| OccursAt(q, s[1..], j);
      assert s[j + 1..j + 1 + |q|] == s[1..][j..j + |q|];
      assert OccursAt(q, s, j + 1);
    }
  }

  /** The scanning definition agrees with "q occurs at some index of s". */
  lemma ContainsIffOccurs(q: string, s: string)
    ensures Contains(q, s) <==> exists i :: OccursAt(q, s, i)
  {
    if Contains(q, s) {
      ContainedOccurs(q, s);
    }
    if exists i :: OccursAt(q, s, i) {
      var i :| OccursAt(q, s, i);
      OccursContained(q, s, i);
    }
  }

  /** A string holding a character that s lacks does not occur in s. */
  lemma MissingChar(q: string, s: string, c: char)
    requires c in q && c !in s
    ensures !Contains(q, s)
  {
    ContainsIffOccurs(q, s);
  }

  /** Lowering both sides preserves containment: `q in s` implies `q.lower() in s.lower()`. */
  lemma {:induction false} ContainsLower(q: string, s: string)
    requires Contains(q, s)
    ensures Contains(Lower(q), Lower(s))
    decreases |s|
  {
    if q <= s {
      assert Lower(q) == Lower(s)[..|q|];
    } else {
      ContainsLower(q, s[1..]);
      assert Lower(s)[1..] == Lower(s[1..]);
    }
  }
}
