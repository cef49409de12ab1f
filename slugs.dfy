/**
 * The string side of slug generation: the space-joined base text, the
 * numbered candidates `original`, `original-1`, `original-2`, ..., the
 * least free candidate, and the two loops of setSlug that compute them.
 */
module Slugs {
  import opened Wrappers
  import opened Decimal

  // ---------------------------------------------------------------------
  // Base text

  /** The parts joined in order, exactly one space between neighbours. */
  function Join(parts: seq<string>): string
    decreases |parts|
  {
    if |parts| == 0 then ""
    else if |parts| == 1 then parts[0]
    else Join(parts[..|parts| - 1]) + " " + parts[|parts| - 1]
  }

  predicate NoSpace(s: string) {
    forall i :: 0 <= i < |s| ==> s[i] != ' '
  }

  /** Index of the last space in s[..i], or -1 when there is none. */
  function LastSpaceBefore(s: string, i: nat): (r: int)
    requires i <= |s|
    ensures -1 <= r < i
    ensures r >= 0 ==> s[r] == ' '
    ensures forall j :: r < j < i ==> s[j] != ' '
    decreases i
  {
    if i == 0 then -1 else if s[i - 1] == ' ' then i - 1 else LastSpaceBefore(s, i - 1)
  }

  /** Cuts a text at every space; the inverse of Join on space-free parts. */
  function Split(s: string): (parts: seq<string>)
    ensures |parts| >= 1
    decreases |s|
  {
    var r := LastSpaceBefore(s, |s|);
    if r < 0 then [s] else Split(s[..r]) + [s[r + 1..]]
  }

  lemma LastSpaceIs(s: string, k: nat)
    requires k < |s| && s[k] == ' '
    requires forall j :: k < j < |s| ==> s[j] != ' '
    ensures LastSpaceBefore(s, |s|) == k
  {
  }

  /** Joining loses nothing: space-free parts are recovered by Split. */
  lemma {:induction false} SplitJoin(parts: seq<string>)
    requires |parts| >= 1
    requires forall i :: 0 <= i < |parts| ==> NoSpace(parts[i])
    ensures Split(Join(parts)) == parts
    decreases |parts|
  {
    var n := |parts|;
    if n == 1 {
      assert Join(parts) == parts[0];
      assert LastSpaceBefore(parts[0], |parts[0]|) == -1;
    } else {
      var init, last := parts[..n - 1], parts[n - 1];
      var j := Join(init);
      var s := j + " " + last;
      assert Join(parts) == s;
      assert NoSpace(last);
      LastSpaceIs(s, |j|);
      assert s[..|j|] == j;
      assert s[|j| + 1..] == last;
      SplitJoin(init);
      assert parts == init + [last];
    }
  }

  // ---------------------------------------------------------------------
  // Candidates and the least free one

  /** Retry k: the original slug for k = 0, else `original-k`. */
  function Candidate(original: string, k: nat): (c: string)
    ensures k == 0 ==> c == original
    ensures k > 0 ==> |c| > |original| + 1 && c[..|original| + 1] == original + "-"
    ensures k > 0 ==> c[|original| + 1..] == FromNat(k)
  {
    if k == 0 then original else original + "-" + FromNat(k)
  }

  /** A slug may be assigned when it is neither reserved nor a sibling's. */
  predicate IsFree(slug: string, invalid: seq<string>, existing: seq<string>)
    ensures IsFree(slug, invalid, existing) <==>
      (forall i :: 0 <= i < |invalid| ==> invalid[i] != slug) &&
      (forall i :: 0 <= i < |existing| ==> existing[i] != slug)
  {
    slug !in invalid && slug !in existing
  }

  /** Suffixes never stack: distinct retries give distinct candidates. */
  lemma CandidateInjective(original: string, j: nat, k: nat)
    requires Candidate(original, j) == Candidate(original, k)
    ensures j == k
  {
    if j != 0 && k != 0 {
      var n := |original| + 1;
      assert Candidate(original, j)[n..] == FromNat(j);
      assert Candidate(original, k)[n..] == FromNat(k);
      FromNatInjective(j, k);
    }
  }

  function CandidatesBelow(original: string, m: nat): set<string>
    decreases m
  {
    if m == 0 then {} else CandidatesBelow(original, m - 1) + {Candidate(original, m - 1)}
  }

  lemma {:induction false} CandidatesBelowMember(original: string, m: nat, x: string)
    requires x in CandidatesBelow(original, m)
    ensures exists k :: 0 <= k < m && x == Candidate(original, k)
    decreases m
  {
    if x != Candidate(original, m - 1) {
      CandidatesBelowMember(original, m - 1, x);
    }
  }

  lemma {:induction false} CandidatesBelowCard(original: string, m: nat)
    ensures |CandidatesBelow(original, m)| == m
    decreases m
  {
    if m > 0 {
      CandidatesBelowCard(original, m - 1);
      var c := Candidate(original, m - 1);
      if c in CandidatesBelow(original, m - 1) {
        CandidatesBelowMember(original, m - 1, c);
        var k :| 0 <= k < m - 1 && c == Candidate(original, k);
        CandidateInjective(original, m - 1, k);
      }
    }
  }

  lemma {:induction false} SeqSetCard(s: seq<string>)
    ensures |set x | x in s| <= |s|
    decreases |s|
  {
    if |s| > 0 {
      var t := s[..|s| - 1];
      SeqSetCard(t);
      assert s == t + [s[|s| - 1]];
      assert (set x | x in s) == (set x | x in t) + {s[|s| - 1]};
    }
  }

  /**
   * Pigeonhole: m distinct candidates cannot all be reserved or taken when
   * there are fewer than m reserved and sibling slugs.
   */
  lemma ForbiddenBound(original: string, invalid: seq<string>, existing: seq<string>, m: nat)
    requires forall j :: 0 <= j < m ==> !IsFree(Candidate(original, j), invalid, existing)
    ensures m <= |invalid| + |existing|
  {
    var forbidden := (set x | x in invalid) + (set x | x in existing);
    forall x | x in CandidatesBelow(original, m)
      ensures x in forbidden
    {
      CandidatesBelowMember(original, m, x);
    }
    CandidatesBelowCard(original, m);
    SeqSetCard(invalid);
    SeqSetCard(existing);
    var below := CandidatesBelow(original, m);
    assert below <= forbidden;
    assert |forbidden| == |below| + |forbidden - below| by {
      assert forbidden == below + (forbidden - below);
    }
  }

  /** The least free retry number at or above k, given that all below k are taken. */
  function FirstFreeFrom(original: string, invalid: seq<string>, existing: seq<string>, k: nat): (r: nat)
    requires forall j :: 0 <= j < k ==> !IsFree(Candidate(original, j), invalid, existing)
    ensures k <= r <= |invalid| + |existing|
    ensures IsFree(Candidate(original, r), invalid, existing)
    ensures forall j :: 0 <= j < r ==> !IsFree(Candidate(original, j), invalid, existing)
    decreases |invalid| + |existing| - k
  {
    ForbiddenBound(original, invalid, existing, k);
    if IsFree(Candidate(original, k), invalid, existing) then k
    else
      ForbiddenBound(original, invalid, existing, k + 1);
      FirstFreeFrom(original, invalid, existing, k + 1)
  }

  function FreeIndex(original: string, invalid: seq<string>, existing: seq<string>): nat {
    FirstFreeFrom(original, invalid, existing, 0)
  }

  /**
   * s is the first free candidate: some retry k yields it, it is free, and
   * every earlier retry was reserved or taken.
   */
  ghost predicate IsLeastFreeCandidate(s: string, original: string, invalid: seq<string>, existing: seq<string>) {
    exists k: nat :: s == Candidate(original, k) && IsFree(s, invalid, existing) &&
      forall j :: 0 <= j < k ==> !IsFree(Candidate(original, j), invalid, existing)
  }

  /** The slug setSlug settles on for a given original slug. */
  function FreeSlug(original: string, invalid: seq<string>, existing: seq<string>): (s: string)
    ensures IsLeastFreeCandidate(s, original, invalid, existing)
    ensures IsFree(s, invalid, existing)
    ensures IsFree(original, invalid, existing) ==> s == original
    ensures !IsFree(original, invalid, existing) ==>
      exists k :: 1 <= k <= |invalid| + |existing| && s == original + "-" + FromNat(k)
    ensures s == "" <==> original == "" && IsFree(original, invalid, existing)
  {
    Candidate(original, FreeIndex(original, invalid, existing))
  }

  /** The first free candidate is unique, so FreeSlug is the only one. */
  lemma LeastFreeUnique(s: string, original: string, invalid: seq<string>, existing: seq<string>)
    requires IsLeastFreeCandidate(s, original, invalid, existing)
    ensures s == FreeSlug(original, invalid, existing)
  {
    var k: nat :| s == Candidate(original, k) && IsFree(s, invalid, existing) &&
      forall j :: 0 <= j < k ==> !IsFree(Candidate(original, j), invalid, existing);
    var r := FreeIndex(original, invalid, existing);
    assert IsFree(Candidate(original, r), invalid, existing);
    assert r == k;
  }

  /** Retries in order from 1 and stops at the first candidate that is free. */
  lemma SuffixExamples()
    ensures FreeSlug("hello-world", ["create"], []) == "hello-world"
    ensures FreeSlug("hello-world", ["create"], ["hello-world"]) == "hello-world-1"
    ensures FreeSlug("hello-world", ["create"], ["hello-world", "hello-world-1"]) == "hello-world-2"
    ensures FreeSlug("create", ["create"], []) == "create-1"
  {
    assert FromNat(1) == "1";
    assert FromNat(2) == "2";
    assert Candidate("hello-world", 0) == "hello-world";
    LeastFreeUnique("hello-world", "hello-world", ["create"], []);
    assert Candidate("hello-world", 1) == "hello-world-1";
    LeastFreeUnique("hello-world-1", "hello-world", ["create"], ["hello-world"]);
    assert Candidate("hello-world", 2)[12] != "hello-world-1"[12];
    LeastFreeUnique("hello-world-2", "hello-world", ["create"], ["hello-world", "hello-world-1"]);
    assert Candidate("create", 1) == "create-1";
    LeastFreeUnique("create-1", "create", ["create"], []);
  }

  // ---------------------------------------------------------------------
  // The loops of setSlug

  /**
   * The foreach that accumulates the base text: the first value starts the
   * string, each further value is appended after one space.
   */
  method ConcatenateValues(values: seq<string>) returns (text: Option<string>)
    ensures |values| == 0 ==> text == None
    ensures |values| > 0 ==> text == Some(Join(values))
  {
    text := None;
    var i := 0;
    while i < |values|
      invariant 0 <= i <= |values|
      invariant i == 0 ==> text == None
      invariant i > 0 ==> text == Some(Join(values[..i]))
    {
      if text.Some? {
        assert values[..i + 1][..i] == values[..i];
        text := Some(text.value + " " + values[i]);
      } else {
        text := Some(values[i]);
      }
      i := i + 1;
    }
    assert values[..|values|] == values;
  }

  /**
   * The do-while loop of setSlug: test the candidate against the reserved
   * slugs, then against each sibling slug (stopping at the first match), and
   * on a clash rebuild the candidate from the original with the next number.
   */
  method Disambiguate(original: string, invalid: seq<string>, existing: seq<string>)
    returns (slug: string)
    ensures slug == FreeSlug(original, invalid, existing)
  {
    var appendNumber: nat := 1;
    slug := original;
    var allChecked := false;
    while !allChecked
      invariant 1 <= appendNumber <= |invalid| + |existing| + 1
      invariant slug == Candidate(original, appendNumber - 1)
      invariant forall j :: 0 <= j < appendNumber - 1 ==> !IsFree(Candidate(original, j), invalid, existing)
      invariant allChecked ==> IsFree(slug, invalid, existing)
      decreases |invalid| + |existing| + 1 - appendNumber, if allChecked then 0 else 1
    {
      allChecked := true;
      if slug in invalid {
        allChecked := false;
      } else {
        var i := 0;
        while i < |existing|
          invariant 0 <= i <= |existing|
          invariant allChecked
          invariant forall t :: 0 <= t < i ==> existing[t] != slug
        {
          if slug == existing[i] {
            allChecked := false;
            break;
          }
          i := i + 1;
        }
      }
      assert allChecked <==> IsFree(slug, invalid, existing);
      if !allChecked {
        ForbiddenBound(original, invalid, existing, appendNumber);
        slug := original + "-" + FromNat(appendNumber);
        appendNumber := appendNumber + 1;
      }
    }
    LeastFreeUnique(slug, original, invalid, existing);
  }
}
