/**
 The validator of the Gamertag availability checker (availability.py,
 VerifyGamertags). The candidate list is a mutable Python list that the
 validator edits in place with `del gamertags[i]` while a `for` loop is still
 iterating over the same list. This module models that loop AS WRITTEN, with
 Python's hidden iterator index and the counter `i`, and explains its effect on
 every entry of the input.
 */
module Validator {

  /** The exception that `del L[i]` raises when `i` is out of range. */
  datatype PyError = IndexError

  datatype Result<T> = Ok(value: T) | Err(error: PyError)

  // ---------------------------------------------------------------------------
  // The validity test (the length check and the regular expression)
  // ---------------------------------------------------------------------------

  /** A member of the character class `[a-zA-Z0-9 ]`. */
  predicate IsGamertagChar(c: char) {
    ('a' <= c <= 'z') || ('A' <= c <= 'Z') || ('0' <= c <= '9') || c == ' '
  }

  predicate AllGamertagChars(s: string) {
    forall k :: 0 <= k < |s| ==> IsGamertagChar(s[k])
  }

  /**
   `re.match("^[a-zA-Z0-9 ]+$", s)` succeeds: one or more characters of the
   class, where Python's `$` (no MULTILINE flag) also matches just before a
   single newline that ends the string.
   */
  predicate MatchesPattern(s: string) {
    || (|s| >= 1 && AllGamertagChars(s))
    || (|s| >= 2 && s[|s| - 1] == '\n' && AllGamertagChars(s[..|s| - 1]))
  }

  /** The number of `del gamertags[i]` one examined name triggers: one for the
      length check, one for the pattern check. */
  function Failures(s: string): (n: nat)
    ensures n <= 2
    ensures n == 2 <==> |s| > 15 && !MatchesPattern(s)
  {
    (if |s| > 15 then 1 else 0) + (if MatchesPattern(s) then 0 else 1)
  }

  /** A name passes both checks of the validator. */
  function IsGamertag(s: string): (ok: bool)
    ensures ok ==> 1 <= |s| <= 15
    ensures 1 <= |s| <= 15 && AllGamertagChars(s) ==> ok
    ensures ok <==> Failures(s) == 0
  {
    |s| <= 15 && MatchesPattern(s)
  }

  // ---------------------------------------------------------------------------
  // The list object
  // ---------------------------------------------------------------------------

  /** The Python list that the validator receives, edits and returns. */
  class GamertagList {
    var items: seq<string>

    constructor (items: seq<string>)
      ensures this.items == items
    {
      this.items := items;
    }

    /** `del self[i]` for a non-negative index; `ok` is false exactly when
        Python raises IndexError, in which case the list is unchanged. */
    method Delete(i: nat) returns (ok: bool)
      modifies this
      ensures ok <==> i < |old(items)|
      ensures ok ==> items == old(items)[..i] + old(items)[i + 1..]
      ensures !ok ==> items == old(items)
    {
      ok := i < |items|;
      if ok {
        items := items[..i] + items[i + 1..];
      }
    }
  }

  // ---------------------------------------------------------------------------
  // What the loop does, as written
  // ---------------------------------------------------------------------------

  /** The list the validator leaves behind, and whether it raised IndexError
      (in which case `names` is the list at the moment of the exception). */
  datatype Verified = Verified(names: seq<string>, indexError: bool)

  function Prepend(p: seq<string>, v: Verified): Verified {
    Verified(p + v.names, v.indexError)
  }

  /**
   The effect of VerifyGamertags on a list, read off from its first entry,
   which the loop always examines:
   - it passes: it stays, and the next entry is examined;
   - it fails one check: it is deleted, the next entry slides into its slot
     and is skipped (kept unexamined), and examination resumes after that;
   - it fails both checks: it is deleted, the second `del` deletes the next
     entry unexamined (or raises IndexError when there is none), the entry
     after that slides into the slot and is skipped.
   */
  function AsWritten(names: seq<string>): Verified
    decreases |names|
  {
    if names == [] then Verified([], false)
    else if Failures(names[0]) == 0 then Prepend([names[0]], AsWritten(names[1..]))
    else if Failures(names[0]) == 1 then
      if |names| == 1 then Verified([], false)
      else Prepend([names[1]], AsWritten(names[2..]))
    else
      if |names| == 1 then Verified([], true)
      else if |names| == 2 then Verified([], false)
      else Prepend([names[2]], AsWritten(names[3..]))
  }

  /** The deletions one iteration performs on `before` when the entry at
      index `i` is examined and none of them raises. */
  predicate IterationDeletes(before: seq<string>, i: nat, after: seq<string>)
    requires i < |before|
  {
    var tooLong, invalid := |before[i]| > 15, !MatchesPattern(before[i]);
    || (!tooLong && !invalid && after == before)
    || (tooLong != invalid && after == before[..i] + before[i + 1..])
    || (tooLong && invalid && i + 1 < |before| && after == before[..i] + before[i + 2..])
  }

  /**
   The loop invariant of VerifyGamertags: with the list now `items` and the
   counter at `i`, the entries before `i` are final and the outcome for the
   original list is decided by what AsWritten does from `i` on. The counter can
   run one past the end of the list when the last iteration deleted.
   */
  ghost predicate Tracks(original: seq<string>, items: seq<string>, i: nat) {
    && i <= |items| + 1
    && (i <= |items| ==> AsWritten(original) == Prepend(items[..i], AsWritten(items[i..])))
    && (i == |items| + 1 ==> AsWritten(original) == Verified(items, false))
  }

  /** An examined entry that passes stays, and the counter moves past it. */
  lemma KeepStep(original: seq<string>, before: seq<string>, i: nat)
    requires i < |before| && Tracks(original, before, i) && Failures(before[i]) == 0
    ensures Tracks(original, before, i + 1)
  {
    var rest := before[i..];
    assert rest[1..] == before[i + 1..];
    assert before[..i + 1] == before[..i] + [before[i]];
  }

  /** An examined entry failing one check is deleted; its successor slides
      into slot `i` and the counter moves past it unexamined. */
  lemma DropStep(original: seq<string>, before: seq<string>, i: nat)
    requires i < |before| && Tracks(original, before, i) && Failures(before[i]) == 1
    ensures Tracks(original, before[..i] + before[i + 1..], i + 1)
  {
    var rest := before[i..];
    var after := before[..i] + before[i + 1..];
    if i + 1 < |before| {
      assert rest[2..] == before[i + 2..];
      assert after[..i + 1] == before[..i] + [before[i + 1]];
      assert after[i + 1..] == before[i + 2..];
    } else {
      assert after == before[..i];
    }
  }

  /** An examined entry failing both checks is deleted together with its
      successor; the entry after that slides into slot `i` and the counter
      moves past it unexamined. */
  lemma DoubleStep(original: seq<string>, before: seq<string>, i: nat)
    requires i + 1 < |before| && Tracks(original, before, i) && Failures(before[i]) == 2
    ensures Tracks(original, before[..i] + before[i + 2..], i + 1)
  {
    var rest := before[i..];
    var after := before[..i] + before[i + 2..];
    if i + 2 < |before| {
      assert rest[3..] == before[i + 3..];
      assert after[..i + 1] == before[..i] + [before[i + 2]];
      assert after[i + 1..] == before[i + 3..];
    } else {
      assert after == before[..i];
    }
  }

  /** One iteration that does not raise keeps the loop invariant. */
  lemma LoopStep(original: seq<string>, before: seq<string>, i: nat, after: seq<string>)
    requires i < |before| && Tracks(original, before, i) && IterationDeletes(before, i, after)
    ensures Tracks(original, after, i + 1)
  {
    var n := Failures(before[i]);
    if n == 0 {
      assert after == before;
      KeepStep(original, before, i);
    } else if n == 1 {
      assert after == before[..i] + before[i + 1..];
      DropStep(original, before, i);
    } else {
      assert after == before[..i] + before[i + 2..];
      DoubleStep(original, before, i);
    }
  }

  /** The iteration that raises: the last entry fails both checks. */
  lemma RaisingStep(original: seq<string>, before: seq<string>, i: nat)
    requires i + 1 == |before| && Tracks(original, before, i)
    requires |before[i]| > 15 && !MatchesPattern(before[i])
    ensures AsWritten(original) == Verified(before[..i], true)
  {
    assert before[..i] + [] == before[..i];
  }

  /**
   VerifyGamertags (availability.py:63-85). `idx` is the index of the list
   iterator that drives `for gamertag in gamertags` (it yields `L[idx]` while
   `idx < len(L)`), `i` the counter the body deletes at.
   */
  method VerifyGamertags(gamertags: GamertagList) returns (result: Result<GamertagList>)
    modifies gamertags
    ensures gamertags.items == AsWritten(old(gamertags.items)).names
    ensures result.Err? <==> AsWritten(old(gamertags.items)).indexError
    ensures result.Ok? ==> result.value == gamertags
    ensures IsSubsequence(gamertags.items, old(gamertags.items))
  {
    ghost var original := gamertags.items;
    var idx := 0;
    var i := 0;
    while idx < |gamertags.items|
      invariant i == idx
      invariant Tracks(original, gamertags.items, i)
      decreases |gamertags.items| + 1 - idx
    {
      ghost var before := gamertags.items;
      var gamertag := gamertags.items[idx];
      idx := idx + 1;
      if |gamertag| > 15 {
        // The current entry sits at index i, so this deletion is in range.
        var ok := gamertags.Delete(i);
        assert ok;
      }
      var valid := MatchesPattern(gamertag);
      if !valid {
        var ok := gamertags.Delete(i);
        if !ok {
          RaisingStep(original, before, i);
          AsWrittenSubsequence(original);
          return Err(IndexError);
        }
      }
      assert IterationDeletes(before, i, gamertags.items);
      LoopStep(original, before, i, gamertags.items);
      i := i + 1;
    }
    AsWrittenSubsequence(original);
    return Ok(gamertags);
  }

  // ---------------------------------------------------------------------------
  // The fate of every entry
  // ---------------------------------------------------------------------------

  /** What the loop does to one entry of the input list. Kept and Dropped
      entries are examined; Skipped and Collateral ones never are. */
  datatype Fate =
    | Kept        // examined, passed both checks, stays
    | Dropped     // examined, failed a check, deleted
    | Skipped     // slid into the slot of a deleted entry, stays unexamined
    | Collateral  // deleted unexamined by the second `del` of its predecessor

  predicate Stays(f: Fate) {
    f.Kept? || f.Skipped?
  }

  /** The fate of each entry, position by position, following AsWritten. */
  function Fates(names: seq<string>): (fates: seq<Fate>)
    ensures |fates| == |names|
    decreases |names|
  {
    if names == [] then []
    else if Failures(names[0]) == 0 then [Kept] + Fates(names[1..])
    else if Failures(names[0]) == 1 then
      if |names| == 1 then [Dropped]
      else [Dropped, Skipped] + Fates(names[2..])
    else
      if |names| == 1 then [Dropped]
      else if |names| == 2 then [Dropped, Collateral]
      else [Dropped, Collateral, Skipped] + Fates(names[3..])
  }

  /** The entries whose fate is to stay, in their original order. */
  function Remaining(names: seq<string>, fates: seq<Fate>): seq<string>
    requires |fates| == |names|
    decreases |names|
  {
    if names == [] then []
    else (if Stays(fates[0]) then [names[0]] else []) + Remaining(names[1..], fates[1..])
  }

  /** The list the validator returns is exactly the entries that are kept or
      skipped, in their original order. */
  lemma {:induction false} FatesExplainSurvivors(names: seq<string>)
    ensures AsWritten(names).names == Remaining(names, Fates(names))
    decreases |names|
  {
    if names == [] {
    } else if Failures(names[0]) == 0 {
      FatesExplainSurvivors(names[1..]);
      assert Fates(names)[1..] == Fates(names[1..]);
    } else if Failures(names[0]) == 1 {
      if |names| > 1 {
        var rest := names[2..];
        FatesExplainSurvivors(rest);
        assert names[1..][1..] == rest;
        assert Fates(names)[1..][1..] == Fates(rest);
        assert Remaining(names, Fates(names)) == [names[1]] + Remaining(rest, Fates(rest));
      }
    } else {
      if |names| == 2 {
        assert Remaining(names, Fates(names)) == [];
      } else if |names| > 2 {
        var rest := names[3..];
        FatesExplainSurvivors(rest);
        var f := Fates(names);
        assert f == [Dropped, Collateral, Skipped] + Fates(rest);
        assert names[1..][1..][1..] == rest;
        assert f[1..][1..][1..] == Fates(rest);
        assert Remaining(names[1..][1..], f[1..][1..]) == [names[2]] + Remaining(rest, Fates(rest));
        assert Remaining(names[1..], f[1..]) == Remaining(names[1..][1..], f[1..][1..]);
      }
    }
  }

  /** The validator raises IndexError exactly when the last entry is examined
      (its fate is Dropped, not Collateral) and fails both checks. */
  lemma {:induction false} FatesExplainIndexError(names: seq<string>)
    ensures AsWritten(names).indexError <==>
      |names| > 0 && Fates(names)[|names| - 1] == Dropped && Failures(names[|names| - 1]) == 2
    decreases |names|
  {
    if names != [] {
      var k := Failures(names[0]) + 1;
      if k < |names| {
        var rest := names[k..];
        FatesExplainIndexError(rest);
        ResumeAfterFirst(names, k);
        LastFateAfterFirst(names, k);
        assert names[|names| - 1] == rest[|rest| - 1];
      } else {
        IndexErrorAtEnd(names);
      }
    }
  }

  /** When the first entry's deletions reach the end of the list, the loop
      raises exactly when that entry is the only one and fails both checks. */
  lemma IndexErrorAtEnd(names: seq<string>)
    requires names != [] && Failures(names[0]) + 1 >= |names|
    ensures AsWritten(names).indexError <==>
      Fates(names)[|names| - 1] == Dropped && Failures(names[|names| - 1]) == 2
  {
    var n := Failures(names[0]);
    var last := |names| - 1;
    if n == 0 {
      assert Fates(names) == [Kept];
    } else if last == 0 {
      assert Fates(names) == [Dropped];
    } else if n == 1 {
      assert names[2..] == [];
      assert Fates(names) == [Dropped, Skipped];
    } else if last == 1 {
      assert Fates(names) == [Dropped, Collateral];
    } else {
      assert names[3..] == [];
      assert Fates(names) == [Dropped, Collateral, Skipped];
    }
  }

  /** After examining the first entry, the loop resumes `k` entries further
      on, as if that suffix were the whole list. */
  lemma ResumeAfterFirst(names: seq<string>, k: nat)
    requires names != [] && k == Failures(names[0]) + 1 && k < |names|
    ensures Fates(names)[k..] == Fates(names[k..])
    ensures AsWritten(names).indexError == AsWritten(names[k..]).indexError
  {
    var rest := Fates(names[k..]);
    var prefix := if k == 1 then [Kept] else if k == 2 then [Dropped, Skipped] else [Dropped, Collateral, Skipped];
    assert Fates(names) == prefix + rest;
    assert (prefix + rest)[k..] == rest;
  }

  /** The last entry's fate in the whole list is its fate in the suffix the
      loop resumes at. */
  lemma LastFateAfterFirst(names: seq<string>, k: nat)
    requires names != [] && k == Failures(names[0]) + 1 && k < |names|
    ensures Fates(names)[|names| - 1] == Fates(names[k..])[|names| - k - 1]
  {
    ResumeAfterFirst(names, k);
    assert Fates(names)[|names| - 1] == Fates(names)[k..][|names| - k - 1];
  }

  /** Every entry the loop examines is decided by the checks: a passing one
      stays, a failing one is deleted. */
  lemma {:induction false} ExaminedEntriesDecided(names: seq<string>, j: nat)
    requires j < |names|
    ensures Fates(names)[j] == Kept ==> IsGamertag(names[j])
    ensures Fates(names)[j] == Dropped ==> !IsGamertag(names[j])
    decreases |names|
  {
    if j > 0 {
      var k := if Failures(names[0]) == 0 then 1 else if Failures(names[0]) == 1 then 2 else 3;
      if j >= k {
        ExaminedEntriesDecided(names[k..], j - k);
        assert Fates(names)[j] == Fates(names[k..])[j - k];
      }
    }
  }

  /** After a deletion the entry that slides into the freed slot is never
      examined: it is skipped after a single failure, and deleted unexamined
      after a double failure, in which case the entry after it is skipped. */
  lemma {:induction false} EntryAfterDeletionUnexamined(names: seq<string>, j: nat)
    requires j + 1 < |names| && Fates(names)[j] == Dropped
    ensures Failures(names[j]) == 1 ==> Fates(names)[j + 1] == Skipped
    ensures Failures(names[j]) == 2 ==> Fates(names)[j + 1] == Collateral
    ensures Failures(names[j]) == 2 && j + 2 < |names| ==> Fates(names)[j + 2] == Skipped
    decreases |names|
  {
    var k := if Failures(names[0]) == 0 then 1 else if Failures(names[0]) == 1 then 2 else 3;
    if j >= k {
      EntryAfterDeletionUnexamined(names[k..], j - k);
      assert Fates(names)[j] == Fates(names[k..])[j - k];
      assert Fates(names)[j + 1] == Fates(names[k..])[j - k + 1];
      if j + 2 < |names| {
        assert Fates(names)[j + 2] == Fates(names[k..])[j - k + 2];
      }
    } else {
      ExaminedEntriesDecided(names, j);
      assert j == 0;
    }
  }

  // ---------------------------------------------------------------------------
  // Properties of the result
  // ---------------------------------------------------------------------------

  /** `a` is obtained from `b` by deleting entries, keeping the order. */
  predicate IsSubsequence(a: seq<string>, b: seq<string>)
    decreases |b|
  {
    && |a| <= |b|
    && (|| a == []
        || (a[0] == b[0] && IsSubsequence(a[1..], b[1..]))
        || IsSubsequence(a, b[1..]))
  }

  lemma {:induction false} RemainingIsSubsequence(names: seq<string>, fates: seq<Fate>)
    requires |fates| == |names|
    ensures IsSubsequence(Remaining(names, fates), names)
    decreases |names|
  {
    if names != [] {
      var tail := Remaining(names[1..], fates[1..]);
      RemainingIsSubsequence(names[1..], fates[1..]);
      if Stays(fates[0]) {
        assert Remaining(names, fates) == [names[0]] + tail;
        assert ([names[0]] + tail)[1..] == tail;
      } else {
        assert Remaining(names, fates) == tail;
        assert IsSubsequence(tail, names[1..]);
      }
    }
  }

  /** The validator only deletes: what it leaves is an order-preserving
      subsequence of its input. */
  lemma AsWrittenSubsequence(names: seq<string>)
    ensures IsSubsequence(AsWritten(names).names, names)
  {
    FatesExplainSurvivors(names);
    RemainingIsSubsequence(names, Fates(names));
  }

  lemma {:induction false} AsWrittenNoLonger(names: seq<string>)
    ensures |AsWritten(names).names| <= |names|
    decreases |names|
  {
    if names == [] {
    } else if Failures(names[0]) == 0 {
      AsWrittenNoLonger(names[1..]);
    } else if Failures(names[0]) == 1 {
      if |names| > 1 { AsWrittenNoLonger(names[2..]); }
    } else if |names| > 2 {
      AsWrittenNoLonger(names[3..]);
    }
  }

  /** The list comes back whole and without an exception exactly when every
      entry passes both checks. */
  lemma UnchangedIffAllPass(names: seq<string>)
    ensures AsWritten(names) == Verified(names, false) <==>
      forall j :: 0 <= j < |names| ==> IsGamertag(names[j])
  {
    if AsWritten(names) == Verified(names, false) {
      UnchangedOnlyIfAllPass(names);
    }
    if forall j :: 0 <= j < |names| ==> IsGamertag(names[j]) {
      AllPassUnchanged(names);
    }
  }

  /** A list that comes back unchanged held only passing entries: a failing
      entry always shortens the list or raises. */
  lemma {:induction false} UnchangedOnlyIfAllPass(names: seq<string>)
    requires AsWritten(names) == Verified(names, false)
    ensures forall j :: 0 <= j < |names| ==> IsGamertag(names[j])
    decreases |names|
  {
    if names != [] {
      if Failures(names[0]) == 1 {
        if |names| > 1 { AsWrittenNoLonger(names[2..]); }
        assert false;
      } else if Failures(names[0]) == 2 {
        if |names| > 2 { AsWrittenNoLonger(names[3..]); }
        assert false;
      }
      var rest := names[1..];
      assert AsWritten(names) == Prepend([names[0]], AsWritten(rest));
      assert AsWritten(rest) == Verified(rest, false) by {
        assert AsWritten(names).names == [names[0]] + AsWritten(rest).names;
        assert AsWritten(rest).names == names[1..];
      }
      UnchangedOnlyIfAllPass(rest);
      forall j | 0 <= j < |names| ensures IsGamertag(names[j]) {
        if j > 0 {
          assert names[j] == rest[j - 1];
        }
      }
    }
  }

  /** A list whose entries all pass comes back unchanged, without error. */
  lemma {:induction false} AllPassUnchanged(names: seq<string>)
    requires forall j :: 0 <= j < |names| ==> IsGamertag(names[j])
    ensures AsWritten(names) == Verified(names, false)
    decreases |names|
  {
    if names != [] {
      var rest := names[1..];
      assert IsGamertag(names[0]);
      assert forall j :: 0 <= j < |rest| ==> IsGamertag(rest[j]) by {
        forall j | 0 <= j < |rest| ensures IsGamertag(rest[j]) {
          assert rest[j] == names[j + 1];
        }
      }
      AllPassUnchanged(rest);
      assert [names[0]] + rest == names;
    }
  }

  /** A list of well-formed gamertags (1 to 15 characters of `[A-Za-z0-9 ]`)
      comes back unchanged. */
  lemma WellFormedListUnchanged(names: seq<string>)
    requires forall j :: 0 <= j < |names| ==> 1 <= |names[j]| <= 15 && AllGamertagChars(names[j])
    ensures AsWritten(names) == Verified(names, false)
  {
    UnchangedIffAllPass(names);
  }

  // ---------------------------------------------------------------------------
  // The intended filter, and where the loop departs from it
  // ---------------------------------------------------------------------------

  /** The list the docstring promises: the entries that pass both checks. */
  function Filter(names: seq<string>): seq<string>
    decreases |names|
  {
    if names == [] then []
    else (if IsGamertag(names[0]) then [names[0]] else []) + Filter(names[1..])
  }

  /** The intended filter keeps exactly the passing entries, each as often as
      it occurs in the input, in order. */
  lemma {:induction false} FilterKeepsExactlyValid(names: seq<string>)
    ensures forall x :: x in Filter(names) <==> x in names && IsGamertag(x)
    ensures forall x :: multiset(Filter(names))[x] == (if IsGamertag(x) then multiset(names)[x] else 0)
    ensures IsSubsequence(Filter(names), names)
    decreases |names|
  {
    if names != [] {
      var tail := Filter(names[1..]);
      FilterKeepsExactlyValid(names[1..]);
      assert names == [names[0]] + names[1..];
      assert multiset(names) == multiset([names[0]]) + multiset(names[1..]);
      if IsGamertag(names[0]) {
        assert Filter(names) == [names[0]] + tail;
        assert ([names[0]] + tail)[1..] == tail;
      } else {
        assert Filter(names) == tail;
        assert IsSubsequence(tail, names[1..]);
      }
    }
  }

  /** Failing entries are isolated: none fails both checks, and none is
      followed by another failing entry. */
  predicate FailuresIsolated(names: seq<string>) {
    forall j :: 0 <= j < |names| ==>
      Failures(names[j]) <= 1 &&
      (Failures(names[j]) == 1 && j + 1 < |names| ==> Failures(names[j + 1]) == 0)
  }

  lemma FailuresIsolatedSuffix(names: seq<string>, k: nat)
    requires k <= |names| && FailuresIsolated(names)
    ensures FailuresIsolated(names[k..])
  {
    forall j | 0 <= j < |names[k..]|
      ensures Failures(names[k..][j]) <= 1
      ensures Failures(names[k..][j]) == 1 && j + 1 < |names[k..]| ==> Failures(names[k..][j + 1]) == 0
    {
      assert names[k..][j] == names[k + j];
      if j + 1 < |names[k..]| {
        assert names[k..][j + 1] == names[k + j + 1];
      }
    }
  }

  /** The loop filters correctly exactly as long as failing entries are
      isolated: the skipped entry then passes anyway. */
  lemma {:induction false} AsWrittenFiltersWhenFailuresIsolated(names: seq<string>)
    requires FailuresIsolated(names)
    ensures AsWritten(names) == Verified(Filter(names), false)
    decreases |names|
  {
    if names != [] {
      assert Failures(names[0]) <= 1;
      if Failures(names[0]) == 0 {
        FailuresIsolatedSuffix(names, 1);
        AsWrittenFiltersWhenFailuresIsolated(names[1..]);
      } else if |names| > 1 {
        assert Failures(names[1]) == 0;
        FailuresIsolatedSuffix(names, 2);
        AsWrittenFiltersWhenFailuresIsolated(names[2..]);
        assert names[1..][1..] == names[2..];
        assert Filter(names) == Filter(names[1..]);
        assert Filter(names[1..]) == [names[1]] + Filter(names[2..]);
      }
    }
  }

  /** Two adjacent names that each fail one check: the second one survives,
      so the result does not meet the docstring's promise. */
  lemma SkippedInvalidSurvives()
    ensures AsWritten(["bad!", "bad?"]) == Verified(["bad?"], false)
    ensures !IsGamertag("bad?")
    ensures Filter(["bad!", "bad?"]) == []
  {
    assert !IsGamertagChar("bad!"[3]);
    assert !IsGamertagChar("bad?"[3]);
    assert ["bad!", "bad?"][2..] == [];
  }

  /** A name failing both checks takes a valid successor with it, or raises
      IndexError when it is the last entry. */
  lemma DoubleFailureDeletesSuccessor()
    ensures AsWritten(["Sixteen_chars!!!", "Player2"]) == Verified([], false)
    ensures IsGamertag("Player2")
    ensures AsWritten(["Player1", "Sixteen_chars!!!"]) == Verified(["Player1"], true)
  {
    assert !IsGamertagChar("Sixteen_chars!!!"[7]);
    assert AllGamertagChars("Player2");
    assert AllGamertagChars("Player1");
    assert ["Player1", "Sixteen_chars!!!"][1..] == ["Sixteen_chars!!!"];
  }

  /**
   The corrected validator: each failing entry is deleted once, and the loop
   does not advance past the entry that slides into the freed slot.
   */
  method FilterGamertags(gamertags: GamertagList)
    modifies gamertags
    ensures gamertags.items == Filter(old(gamertags.items))
  {
    ghost var original := gamertags.items;
    var i := 0;
    while i < |gamertags.items|
      invariant i <= |gamertags.items|
      invariant Filter(original) == gamertags.items[..i] + Filter(gamertags.items[i..])
      decreases |gamertags.items| - i
    {
      ghost var before := gamertags.items;
      assert before[i..][1..] == before[i + 1..];
      if IsGamertag(gamertags.items[i]) {
        assert before[..i + 1] == before[..i] + [before[i]];
        i := i + 1;
      } else {
        var ok := gamertags.Delete(i);
        assert ok;
        assert gamertags.items[..i] == before[..i];
        assert gamertags.items[i..] == before[i + 1..];
      }
    }
    assert gamertags.items[i..] == [];
  }
}
