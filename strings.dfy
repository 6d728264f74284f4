/** The `std::string` search primitives the guard is built from
    (`find`, `find_first_of`, `find_last_of`), over strings whose characters
    stand for the bytes of a `std::string`. A missing result (`npos`) is `None`. */
module Strings {
  import opened Wrappers

  /** The characters `sub[j..]` sit in `s` from index `i + j` on. */
  predicate MatchesFrom(s: string, sub: string, i: nat, j: nat)
    requires j <= |sub|
    decreases |sub| - j
  {
    j == |sub| || (i + j < |s| && s[i + j] == sub[j] && MatchesFrom(s, sub, i, j + 1))
  }

  /** `sub` occurs in `s` starting at index `i`, compared character by character. */
  predicate OccursAt(s: string, sub: string, i: nat)
  {
    i + |sub| <= |s| && MatchesFrom(s, sub, i, 0)
  }

  lemma {:induction false} MatchesFromIff(s: string, sub: string, i: nat, j: nat)
    requires j <= |sub|
    ensures MatchesFrom(s, sub, i, j) <==>
      (i + |sub| <= |s| || j == |sub|) && forall k :: j <= k < |sub| ==> s[i + k] == sub[k]
    decreases |sub| - j
  {
    if j < |sub| {
      MatchesFromIff(s, sub, i, j + 1);
    }
  }

  /** The character-by-character reading of `OccursAt`. */
  lemma OccursAtIff(s: string, sub: string, i: nat)
    ensures OccursAt(s, sub, i) <==>
      i + |sub| <= |s| && forall k :: 0 <= k < |sub| ==> s[i + k] == sub[k]
  {
    MatchesFromIff(s, sub, i, 0);
  }

  /** `s.find(sub, from)`: the first occurrence of `sub` at or after `from`. */
  function Find(s: string, sub: string, from: nat): (r: Option<nat>)
    ensures r.Some? ==> from <= r.value && OccursAt(s, sub, r.value)
    ensures forall i :: from <= i && (r.None? || i < r.value) ==> !OccursAt(s, sub, i)
    decreases |s| - from
  {
    if from + |sub| > |s| then None
    else if OccursAt(s, sub, from) then Some(from)
    else Find(s, sub, from + 1)
  }

  /** `s.find(sub) != npos`. */
  predicate Contains(s: string, sub: string)
  {
    Find(s, sub, 0).Some?
  }

  /** `Contains` holds exactly when some occurrence exists. */
  lemma ContainsIff(s: string, sub: string)
    ensures Contains(s, sub) ==> exists i: nat :: OccursAt(s, sub, i)
    ensures (exists i: nat :: OccursAt(s, sub, i)) ==> Contains(s, sub)
  {
    if Contains(s, sub) {
      var j: nat := Find(s, sub, 0).value;
      assert OccursAt(s, sub, j);
    } else {
      forall i: nat ensures !OccursAt(s, sub, i) { }
    }
  }

  /** An occurrence at a known index witnesses `Contains`. */
  lemma ContainsAt(s: string, sub: string, i: nat)
    requires OccursAt(s, sub, i)
    ensures Contains(s, sub)
  {
    ContainsIff(s, sub);
  }

  /** A string built as `pre + sub + post` contains `sub` right after `pre`. */
  lemma ContainsInConcat(pre: string, sub: string, post: string)
    ensures OccursAt(pre + sub + post, sub, |pre|)
    ensures Contains(pre + sub + post, sub)
  {
    OccursAtIff(pre + sub + post, sub, |pre|);
    ContainsAt(pre + sub + post, sub, |pre|);
  }

  /** A one-character needle is found exactly when the character is in the string. */
  lemma ContainsChar(s: string, c: char)
    ensures Contains(s, [c]) <==> c in s
  {
    ContainsIff(s, [c]);
    if c in s {
      var i :| 0 <= i < |s| && s[i] == c;
      assert OccursAt(s, [c], i);
    } else {
      forall i: nat | OccursAt(s, [c], i) ensures false { }
    }
  }

  /** A string missing one of the needle's characters does not contain the needle. */
  lemma MissingCharNotContained(s: string, sub: string, k: nat)
    requires k < |sub| && sub[k] !in s
    ensures !Contains(s, sub)
  {
    ContainsIff(s, sub);
    if Contains(s, sub) {
      var i: nat :| OccursAt(s, sub, i);
      OccursAtIff(s, sub, i);
      assert false;
    }
  }

  /** `s.find_first_of(chars, from)`: the first index at or after `from`
      holding one of `chars`. */
  function FindFirstOf(s: string, chars: string, from: nat): (r: Option<nat>)
    ensures r.Some? ==> from <= r.value < |s| && s[r.value] in chars
    ensures forall i :: from <= i < |s| && (r.None? || i < r.value) ==> s[i] !in chars
    decreases |s| - from
  {
    if from >= |s| then None
    else if s[from] in chars then Some(from)
    else FindFirstOf(s, chars, from + 1)
  }

  /** The last index below `end` holding `c`. */
  function LastIndexBefore(s: string, c: char, end: nat): (r: Option<nat>)
    requires end <= |s|
    ensures r.Some? ==> r.value < end && s[r.value] == c
    ensures forall i :: (if r.None? then 0 else r.value + 1) <= i < end ==> s[i] != c
  {
    if end == 0 then None
    else if s[end - 1] == c then Some(end - 1)
    else LastIndexBefore(s, c, end - 1)
  }

  /** `s.find_last_of(c, pos)`: the last index at or before `pos` holding `c`;
      `pos == None` (npos) or a position past the end searches the whole string. */
  function FindLastOf(s: string, c: char, pos: Option<nat>): (r: Option<nat>)
    ensures r.Some? ==> r.value < |s| && s[r.value] == c && (pos.Some? ==> r.value <= pos.value)
    ensures forall i :: 0 <= i < |s| && (pos.Some? ==> i <= pos.value) && (r.None? || r.value < i) ==> s[i] != c
  {
    LastIndexBefore(s, c, if pos.None? || pos.value >= |s| then |s| else pos.value + 1)
  }
}
