/**
 `ranges(of:)`, the `StringProtocol` extension the header strip uses: every
 non-overlapping occurrence of a pattern, left to right. Matching is literal,
 character by character.
 */
module StringRanges {
  import opened Wrappers

  /** The half-open index range `lower..<upper` of a string. */
  datatype Span = Span(lower: nat, upper: nat)

  predicate MatchesAt(text: string, pattern: string, i: nat) {
    i + |pattern| <= |text| && text[i..i + |pattern|] == pattern
  }

  /** Leftmost position at or after `from` where `pattern` occurs
      (`self[from...].range(of: pattern)`); see FindFromLeftmost. */
  function FindFrom(text: string, pattern: string, from: nat): (r: Option<nat>)
    requires from <= |text|
    ensures r.Some? ==> from <= r.value < |text| && r.value + |pattern| <= |text|
    decreases |text| - from
  {
    if from == |text| then None
    else if MatchesAt(text, pattern, from) then Some(from)
    else FindFrom(text, pattern, from + 1)
  }

  /** The search finds the leftmost occurrence, and finds none only when there is none. */
  lemma {:induction false} FindFromLeftmost(text: string, pattern: string, from: nat)
    requires from <= |text|
    ensures var r := FindFrom(text, pattern, from);
      && (r.Some? ==> MatchesAt(text, pattern, r.value))
      && (r.Some? ==> forall j :: from <= j < r.value ==> !MatchesAt(text, pattern, j))
      && (r.None? ==> forall j :: from <= j < |text| ==> !MatchesAt(text, pattern, j))
    decreases |text| - from
  {
    if from < |text| && !MatchesAt(text, pattern, from) {
      FindFromLeftmost(text, pattern, from + 1);
    }
  }

  /** Where the search resumes after a match: at its end, or one character further
      when the match is empty, never past the end of the text. */
  function Resume(m: Span, n: nat): nat {
    if m.lower < m.upper then m.upper
    else if m.lower + 1 <= n then m.lower + 1
    else n
  }

  /**
   The matches `ranges(of:)` reports from `from` on: the leftmost match at or
   after the resume point, again and again, until no match is left.
   */
  function MatchesFrom(text: string, pattern: string, from: nat): seq<Span>
    requires from <= |text|
    decreases |text| - from
  {
    match FindFrom(text, pattern, from)
    case None => []
    case Some(lower) =>
      var m := Span(lower, lower + |pattern|);
      [m] + MatchesFrom(text, pattern, Resume(m, |text|))
  }

  /** Every reported match starts inside the text, at or after `from`, and has the
      pattern's length. */
  lemma {:induction false} MatchesWithin(text: string, pattern: string, from: nat)
    requires from <= |text|
    ensures var r := MatchesFrom(text, pattern, from);
      forall k :: 0 <= k < |r| ==>
        && r[k].upper == r[k].lower + |pattern|
        && from <= r[k].lower < |text|
    decreases |text| - from
  {
    var r := MatchesFrom(text, pattern, from);
    if |r| > 0 {
      MatchesFromStep(text, pattern, from);
      var next := Resume(r[0], |text|);
      MatchesWithin(text, pattern, next);
      var rest := MatchesFrom(text, pattern, next);
      forall k | 0 < k < |r|
        ensures r[k].upper == r[k].lower + |pattern| && from <= r[k].lower < |text|
      {
        assert r[k] == rest[k - 1];
      }
    }
  }

  /** One round of the search: report the leftmost match and resume after it. */
  lemma MatchesFromStep(text: string, pattern: string, from: nat)
    requires from <= |text|
    requires FindFrom(text, pattern, from).Some?
    ensures
      var lower := FindFrom(text, pattern, from).value;
      var m := Span(lower, lower + |pattern|);
      && from <= lower < |text|
      && m.upper <= Resume(m, |text|) <= |text|
      && from < Resume(m, |text|)
      && MatchesFrom(text, pattern, from) == [m] + MatchesFrom(text, pattern, Resume(m, |text|))
  {
  }

  /** The search stops at the end of the text or when the pattern no longer occurs. */
  lemma MatchesFromStop(text: string, pattern: string, from: nat)
    requires from <= |text|
    requires FindFrom(text, pattern, from).None?
    ensures MatchesFrom(text, pattern, from) == []
  {
  }

  /** The matches come in strictly increasing order and do not overlap. */
  lemma {:induction false} MatchesOrdered(text: string, pattern: string, from: nat)
    requires from <= |text|
    ensures var r := MatchesFrom(text, pattern, from);
      forall k, l :: 0 <= k < l < |r| ==> r[k].upper <= r[l].lower && r[k].lower < r[l].lower
    decreases |text| - from
  {
    var r := MatchesFrom(text, pattern, from);
    if |r| > 0 {
      MatchesFromStep(text, pattern, from);
      var next := Resume(r[0], |text|);
      MatchesOrdered(text, pattern, next);
      MatchesWithin(text, pattern, next);
      var rest := MatchesFrom(text, pattern, next);
      assert r == [r[0]] + rest;
      assert r[0].upper <= next && r[0].lower < next;
      forall k, l | 0 <= k < l < |r|
        ensures r[k].upper <= r[l].lower && r[k].lower < r[l].lower
      {
        assert r[l] == rest[l - 1];
        if k > 0 {
          assert r[k] == rest[k - 1];
        }
      }
    }
  }

  /** The result is empty exactly when the pattern does not occur at or after `from`,
      and otherwise starts with the leftmost occurrence. */
  lemma MatchesFirst(text: string, pattern: string, from: nat)
    requires from <= |text|
    ensures var r := MatchesFrom(text, pattern, from);
      && (r == [] <==> forall j :: from <= j < |text| ==> !MatchesAt(text, pattern, j))
      && (|r| > 0 ==> forall j :: from <= j < r[0].lower ==> !MatchesAt(text, pattern, j))
  {
    FindFromLeftmost(text, pattern, from);
    if FindFrom(text, pattern, from).Some? {
      MatchesFromStep(text, pattern, from);
    }
  }

  /** No match starts between a resume point and the next reported match. */
  lemma {:induction false} MatchesResumeLeftmost(text: string, pattern: string, from: nat)
    requires from <= |text|
    ensures var r := MatchesFrom(text, pattern, from);
      forall k :: 0 <= k < |r| - 1 ==>
        forall j :: Resume(r[k], |text|) <= j < r[k + 1].lower ==> !MatchesAt(text, pattern, j)
    decreases |text| - from
  {
    var r := MatchesFrom(text, pattern, from);
    if |r| > 0 {
      MatchesFromStep(text, pattern, from);
      var next := Resume(r[0], |text|);
      MatchesResumeLeftmost(text, pattern, next);
      MatchesFirst(text, pattern, next);
      var rest := MatchesFrom(text, pattern, next);
      assert r == [r[0]] + rest;
      forall k | 0 <= k < |r| - 1
        ensures forall j :: Resume(r[k], |text|) <= j < r[k + 1].lower ==> !MatchesAt(text, pattern, j)
      {
        assert r[k + 1] == rest[k];
        if k > 0 {
          assert r[k] == rest[k - 1];
        }
      }
    }
  }

  /** Once the search stops, the pattern does not occur after the last resume point. */
  lemma {:induction false} MatchesExhaustive(text: string, pattern: string, from: nat)
    requires from <= |text|
    ensures var r := MatchesFrom(text, pattern, from);
      |r| > 0 ==> forall j :: Resume(r[|r| - 1], |text|) <= j < |text| ==> !MatchesAt(text, pattern, j)
    decreases |text| - from
  {
    var r := MatchesFrom(text, pattern, from);
    if |r| > 0 {
      MatchesFromStep(text, pattern, from);
      var next := Resume(r[0], |text|);
      var rest := MatchesFrom(text, pattern, next);
      assert r == [r[0]] + rest;
      if |rest| > 0 {
        MatchesExhaustive(text, pattern, next);
        assert r[|r| - 1] == rest[|rest| - 1];
      } else {
        NoMoreMatches(text, pattern, next);
      }
    }
  }

  /** When nothing is reported from `from` on, the pattern does not occur there. */
  lemma NoMoreMatches(text: string, pattern: string, from: nat)
    requires from <= |text|
    requires MatchesFrom(text, pattern, from) == []
    ensures forall j :: from <= j < |text| ==> !MatchesAt(text, pattern, j)
  {
    FindFromLeftmost(text, pattern, from);
    if FindFrom(text, pattern, from).Some? {
      MatchesFromStep(text, pattern, from);
    }
  }

  /** The search resumes after each match, so matches never overlap: "aa" occurs in
      "aaaa" at 0, 1 and 2, and is reported at 0 and 2. */
  lemma NonOverlappingExample()
    ensures MatchesFrom("aaaa", "aa", 0) == [Span(0, 2), Span(2, 4)]
  {
    var text := "aaaa";
    assert MatchesAt(text, "aa", 0) && MatchesAt(text, "aa", 2);
    assert !MatchesAt(text, "aa", 3);
    assert FindFrom(text, "aa", 4) == None;
    assert FindFrom(text, "aa", 3) == None;
    assert MatchesFrom(text, "aa", 4) == [];
    assert MatchesFrom(text, "aa", 2) == [Span(2, 4)];
  }

  /** Every reported range lies in the text and spells the pattern. */
  lemma {:induction false} MatchesSpellPattern(text: string, pattern: string, from: nat)
    requires from <= |text|
    ensures var r := MatchesFrom(text, pattern, from);
      forall k :: 0 <= k < |r| ==>
        r[k].lower <= r[k].upper <= |text| && text[r[k].lower..r[k].upper] == pattern
    decreases |text| - from
  {
    var r := MatchesFrom(text, pattern, from);
    if |r| > 0 {
      MatchesFromStep(text, pattern, from);
      FindFromLeftmost(text, pattern, from);
      var next := Resume(r[0], |text|);
      MatchesSpellPattern(text, pattern, next);
      var rest := MatchesFrom(text, pattern, next);
      assert r == [r[0]] + rest;
      forall k | 0 <= k < |r|
        ensures r[k].lower <= r[k].upper <= |text| && text[r[k].lower..r[k].upper] == pattern
      {
        if k > 0 {
          assert r[k] == rest[k - 1];
        }
      }
    }
  }

  /** Collecting one more match and resuming after it leaves the collected matches
      followed by those still to come unchanged. */
  lemma CollectOne(text: string, pattern: string, done: seq<Span>, from: nat, lower: nat)
    requires from <= |text|
    requires FindFrom(text, pattern, from) == Some(lower)
    ensures from < Resume(Span(lower, lower + |pattern|), |text|) <= |text|
    ensures var m := Span(lower, lower + |pattern|);
      (done + [m]) + MatchesFrom(text, pattern, Resume(m, |text|)) == done + MatchesFrom(text, pattern, from)
  {
    MatchesFromStep(text, pattern, from);
    var m := Span(lower, lower + |pattern|);
    AppendOne(done, m, MatchesFrom(text, pattern, Resume(m, |text|)));
  }

  lemma AppendOne<T>(front: seq<T>, x: T, back: seq<T>)
    ensures (front + [x]) + back == front + ([x] + back)
  {
  }

  /** `ranges(of:)`: the loop that collects the matches, resuming after each one. */
  method Ranges(text: string, pattern: string) returns (result: seq<Span>)
    ensures result == MatchesFrom(text, pattern, 0)
  {
    result := [];
    var startIndex: nat := 0;
    while FindFrom(text, pattern, startIndex).Some?
      invariant startIndex <= |text|
      invariant result + MatchesFrom(text, pattern, startIndex) == MatchesFrom(text, pattern, 0)
      decreases |text| - startIndex
    {
      var lower := FindFrom(text, pattern, startIndex).value;
      CollectOne(text, pattern, result, startIndex, lower);
      var range := Span(lower, lower + |pattern|);
      result := result + [range];
      startIndex := Resume(range, |text|);
    }
    MatchesFromStop(text, pattern, startIndex);
    assert result + [] == result;
  }
}
