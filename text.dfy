/** The case-insensitive substring test behind `ilike('%term%')`, over
    ASCII case folding. */
module Text {

  predicate IsUpper(c: char)
  {
    'A' <= c <= 'Z'
  }

  /** Case folding of one character: the result is never upper case, and
      only upper-case letters change. */
  function LowerChar(c: char): (r: char)
    ensures !IsUpper(r)
    ensures r != c ==> IsUpper(c)
  {
    if 'A' <= c <= 'Z' then (c as int + 32) as char else c
  }

  /** `s` with every ASCII upper-case letter replaced by its lower-case form. */
  function Lower(s: string): (r: string)
    ensures |r| == |s|
    ensures forall i :: 0 <= i < |r| ==> !IsUpper(r[i])
  {
    seq(|s|, i requires 0 <= i < |s| => LowerChar(s[i]))
  }

  /** `t` occurs in `s` starting at position `i`. */
  ghost predicate OccursAt(t: string, s: string, i: int)
  {
    0 <= i <= |s| - |t| && s[i..i + |t|] == t
  }

  /** Reference definition: `t` occurs in `s` at some position. */
  ghost predicate OccursIn(t: string, s: string)
  {
    exists i :: OccursAt(t, s, i)
  }

  /** Left-to-right scan for an occurrence of `t` in `s`. */
  function Contains(s: string, t: string): (b: bool)
    ensures b <==> OccursIn(t, s)
    decreases |s|
  {
    if |t| > |s| then false
    else if s[..|t|] == t then (assert OccursAt(t, s, 0); true)
    else (ShiftOccurrence(s, t); Contains(s[1..], t))
  }

  /** When `t` is not a prefix of `s`, it occurs in `s` exactly when it
      occurs in `s[1..]`. */
  lemma ShiftOccurrence(s: string, t: string)
    requires |t| <= |s| && s[..|t|] != t
    ensures OccursIn(t, s) <==> OccursIn(t, s[1..])
  {
    if OccursIn(t, s) {
      var i :| OccursAt(t, s, i);
      assert i != 0;
      assert s[1..][i - 1..i - 1 + |t|] == s[i..i + |t|];
      assert OccursAt(t, s[1..], i - 1);
    }
    if OccursIn(t, s[1..]) {
      var j :| OccursAt(t, s[1..], j);
      assert s[j + 1..j + 1 + |t|] == s[1..][j..j + |t|];
      assert OccursAt(t, s, j + 1);
    }
  }

  /** `term` occurs in `text` when both are folded to lower case. */
  function ContainsIgnoreCase(text: string, term: string): (b: bool)
    ensures b <==> OccursIn(Lower(term), Lower(text))
  {
    Contains(Lower(text), Lower(term))
  }

  /** A term with a character the text lacks does not occur in it. */
  lemma AbsentCharRulesOutOccurrence(t: string, s: string, j: nat)
    requires j < |t|
    requires forall k :: 0 <= k < |s| ==> s[k] != t[j]
    ensures !OccursIn(t, s)
  {
    forall i | OccursAt(t, s, i)
      ensures s[i + j] == t[j]
    {
      assert s[i..i + |t|][j] == t[j];
    }
  }

  /** Folding an already folded string changes nothing. */
  lemma LowerIdempotent(s: string)
    ensures Lower(Lower(s)) == Lower(s)
  {
    var once := Lower(s);
    forall i | 0 <= i < |once|
      ensures Lower(once)[i] == once[i]
    {
      assert !IsUpper(once[i]);
    }
  }
}
