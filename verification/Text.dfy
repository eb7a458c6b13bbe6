/** Substring search and removal, as Python's `in`, `str.find` and `str.replace(pattern, "")` do it. */
module Text {

  /** `pattern in s`. */
  predicate Occurs(pattern: string, s: string) {
    exists i | 0 <= i <= |s| :: pattern <= s[i..]
  }

  lemma OccursStep(pattern: string, s: string)
    requires s != []
    ensures Occurs(pattern, s) <==> pattern <= s || Occurs(pattern, s[1..])
  {
    assert s[0..] == s;
    if Occurs(pattern, s) {
      var i :| 0 <= i <= |s| && pattern <= s[i..];
      if i > 0 {
        assert s[1..][i - 1..] == s[i..];
      }
    }
    if Occurs(pattern, s[1..]) {
      var i :| 0 <= i <= |s[1..]| && pattern <= s[1..][i..];
      assert s[1..][i..] == s[i + 1..];
    }
  }

  lemma OccursInside(a: string, pattern: string, b: string)
    ensures Occurs(pattern, a + pattern + b)
  {
    assert (a + pattern + b)[|a|..] == pattern + b;
  }

  /** Removes every occurrence, scanning once from the left: `s.replace(pattern, "")`. */
  function RemoveAll(s: string, pattern: string): (r: string)
    requires pattern != []
    ensures |r| <= |s|
    decreases |s|
  {
    if |s| < |pattern| then s
    else if pattern <= s then RemoveAll(s[|pattern|..], pattern)
    else [s[0]] + RemoveAll(s[1..], pattern)
  }

  /** Removal changes exactly the strings in which the pattern occurs, and shortens those. */
  lemma {:induction false} RemoveAllChanges(s: string, pattern: string)
    requires pattern != []
    ensures !Occurs(pattern, s) ==> RemoveAll(s, pattern) == s
    ensures Occurs(pattern, s) ==> |RemoveAll(s, pattern)| < |s|
    decreases |s|
  {
    if s != [] {
      OccursStep(pattern, s);
      if |s| >= |pattern| && !(pattern <= s) {
        RemoveAllChanges(s[1..], pattern);
      } else if |s| < |pattern| {
        assert !Occurs(pattern, s[1..]);
      }
    }
  }

  lemma RemoveAllPrefix(s: string, pattern: string)
    requires pattern != []
    ensures RemoveAll(pattern + s, pattern) == RemoveAll(s, pattern)
  {
    assert (pattern + s)[|pattern|..] == s;
  }

  datatype Found = Nowhere | At(index: nat)

  /** The pattern occurs at i, and at no earlier place. */
  ghost predicate FirstAt(s: string, pattern: string, i: nat) {
    && i + |pattern| <= |s| && pattern <= s[i..]
    && forall k | 0 <= k < i :: !(pattern <= s[k..])
  }

  /** `s.find(pattern)`, the least index at which the pattern occurs. */
  function Find(s: string, pattern: string): (r: Found)
    requires pattern != []
    ensures r.Nowhere? ==> !Occurs(pattern, s)
    ensures r.At? ==> r.index + |pattern| <= |s| && FirstAt(s, pattern, r.index)
    decreases |s|
  {
    if s == [] then Nowhere
    else if pattern <= s then At(0)
    else
      OccursStep(pattern, s);
      var r := Find(s[1..], pattern);
      assert r.At? ==> s[1..][r.index..] == s[r.index + 1..];
      assert forall i | 0 < i <= |s| :: s[1..][i - 1..] == s[i..];
      if r.Nowhere? then Nowhere else At(r.index + 1)
  }
}
