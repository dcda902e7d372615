/**
 The availability checker of the Gamertag tool (availability.py,
 CheckAvailability and SaveAvailable). For every validated name, in order, the
 tool posts one reservation request, reads the HTTP status, appends the name to
 available.txt on 200, sleeps 15 s on 429 and always sleeps 1.5 s afterwards.

 The network is abstracted as the status the endpoint answers for each name,
 and the file append as the lines of available.txt plus a flag per name that
 says whether the write succeeded. The side effects are recorded, in the
 order they happen, as a trace of Effects; sleeps are counted in tenths of a
 second.
 */
module Checker {

  /** Pause after every request (`time.sleep(1.5)`), in tenths of a second. */
  const RequestPause: nat := 15
  /** Extra pause after HTTP 429 (`time.sleep(15)`), in tenths of a second. */
  const RateLimitPause: nat := 150

  const StatusOk: int := 200
  const StatusTooManyRequests: int := 429

  /** One observable side effect of the checker. */
  datatype Effect =
    | Post(gamertag: string)                 // one reservation request for the name
    | Save(gamertag: string, written: bool)  // a call of SaveAvailable; `written` is false when the write failed
    | Sleep(tenths: nat)                     // a blocking pause

  /** The side effects for one name whose request answered `status`. */
  function Round(gamertag: string, status: int, writeOk: bool): seq<Effect> {
    [Post(gamertag)]
    + (if status == StatusOk then [Save(gamertag, writeOk)] else [])
    + (if status == StatusTooManyRequests then [Sleep(RateLimitPause)] else [])
    + [Sleep(RequestPause)]
  }

  /** The side effects for a whole list, name after name. */
  function Rounds(gamertags: seq<string>, statuses: seq<int>, writeOk: seq<bool>): seq<Effect>
    requires |statuses| == |gamertags| && |writeOk| == |gamertags|
    decreases |gamertags|
  {
    if gamertags == [] then []
    else Round(gamertags[0], statuses[0], writeOk[0]) + Rounds(gamertags[1..], statuses[1..], writeOk[1..])
  }

  // ---------------------------------------------------------------------------
  // Views of a trace
  // ---------------------------------------------------------------------------

  /** The names posted, in order. */
  function Posts(trace: seq<Effect>): seq<string>
    decreases |trace|
  {
    if trace == [] then []
    else (if trace[0].Post? then [trace[0].gamertag] else []) + Posts(trace[1..])
  }

  /** The names SaveAvailable was called with, in order. */
  function Saves(trace: seq<Effect>): seq<string>
    decreases |trace|
  {
    if trace == [] then []
    else (if trace[0].Save? then [trace[0].gamertag] else []) + Saves(trace[1..])
  }

  /** The lines that reached available.txt, in order. */
  function Written(trace: seq<Effect>): seq<string>
    decreases |trace|
  {
    if trace == [] then []
    else (if trace[0].Save? && trace[0].written then [trace[0].gamertag + "\n"] else []) + Written(trace[1..])
  }

  /** The total time slept, in tenths of a second. */
  function Paused(trace: seq<Effect>): nat
    decreases |trace|
  {
    if trace == [] then 0
    else (if trace[0].Sleep? then trace[0].tenths else 0) + Paused(trace[1..])
  }

  /** The posted names of a concatenation of traces. */
  lemma {:induction false} PostsAppend(a: seq<Effect>, b: seq<Effect>)
    ensures Posts(a + b) == Posts(a) + Posts(b)
    decreases |a|
  {
    if a == [] {
      assert a + b == b;
    } else {
      var head := if a[0].Post? then [a[0].gamertag] else [];
      assert (a + b)[0] == a[0];
      assert (a + b)[1..] == a[1..] + b;
      PostsAppend(a[1..], b);
      assert head + (Posts(a[1..]) + Posts(b)) == head + Posts(a[1..]) + Posts(b);
    }
  }

  /** The SaveAvailable calls of a concatenation of traces. */
  lemma {:induction false} SavesAppend(a: seq<Effect>, b: seq<Effect>)
    ensures Saves(a + b) == Saves(a) + Saves(b)
    decreases |a|
  {
    if a == [] {
      assert a + b == b;
    } else {
      var head := if a[0].Save? then [a[0].gamertag] else [];
      assert (a + b)[0] == a[0];
      assert (a + b)[1..] == a[1..] + b;
      SavesAppend(a[1..], b);
      assert head + (Saves(a[1..]) + Saves(b)) == head + Saves(a[1..]) + Saves(b);
    }
  }

  /** The lines written by a concatenation of traces. */
  lemma {:induction false} WrittenAppend(a: seq<Effect>, b: seq<Effect>)
    ensures Written(a + b) == Written(a) + Written(b)
    decreases |a|
  {
    if a == [] {
      assert a + b == b;
    } else {
      var head := if a[0].Save? && a[0].written then [a[0].gamertag + "\n"] else [];
      assert (a + b)[0] == a[0];
      assert (a + b)[1..] == a[1..] + b;
      WrittenAppend(a[1..], b);
      assert head + (Written(a[1..]) + Written(b)) == head + Written(a[1..]) + Written(b);
    }
  }

  /** The time slept by a concatenation of traces. */
  lemma {:induction false} PausedAppend(a: seq<Effect>, b: seq<Effect>)
    ensures Paused(a + b) == Paused(a) + Paused(b)
    decreases |a|
  {
    if a == [] {
      assert a + b == b;
    } else {
      PausedAppend(a[1..], b);
      assert (a + b)[0] == a[0];
      assert (a + b)[1..] == a[1..] + b;
    }
  }

  /** A round posts exactly its own name. */
  lemma RoundPosts(gamertag: string, status: int, writeOk: bool)
    ensures Posts(Round(gamertag, status, writeOk)) == [gamertag]
  {
    var post := [Post(gamertag)];
    var save := if status == StatusOk then [Save(gamertag, writeOk)] else [];
    var backoff := if status == StatusTooManyRequests then [Sleep(RateLimitPause)] else [];
    PostsAppend(post, save);
    PostsAppend(post + save, backoff);
    PostsAppend(post + save + backoff, [Sleep(RequestPause)]);
  }

  /** A round calls SaveAvailable with its name exactly when it answered 200. */
  lemma RoundSaves(gamertag: string, status: int, writeOk: bool)
    ensures Saves(Round(gamertag, status, writeOk)) == (if status == StatusOk then [gamertag] else [])
  {
    var post := [Post(gamertag)];
    var save := if status == StatusOk then [Save(gamertag, writeOk)] else [];
    var backoff := if status == StatusTooManyRequests then [Sleep(RateLimitPause)] else [];
    SavesAppend(post, save);
    SavesAppend(post + save, backoff);
    SavesAppend(post + save + backoff, [Sleep(RequestPause)]);
  }

  /** A round writes its name as a line exactly when it answered 200 and the
      write succeeded. */
  lemma RoundWritten(gamertag: string, status: int, writeOk: bool)
    ensures Written(Round(gamertag, status, writeOk)) == (if status == StatusOk && writeOk then [gamertag + "\n"] else [])
  {
    var post := [Post(gamertag)];
    var save := if status == StatusOk then [Save(gamertag, writeOk)] else [];
    var backoff := if status == StatusTooManyRequests then [Sleep(RateLimitPause)] else [];
    WrittenAppend(post, save);
    WrittenAppend(post + save, backoff);
    WrittenAppend(post + save + backoff, [Sleep(RequestPause)]);
  }

  /** A round pauses 1.5 s, plus 15 s when it answered 429. */
  lemma RoundPaused(gamertag: string, status: int, writeOk: bool)
    ensures Paused(Round(gamertag, status, writeOk)) == RequestPause + (if status == StatusTooManyRequests then RateLimitPause else 0)
  {
    var post := [Post(gamertag)];
    var save := if status == StatusOk then [Save(gamertag, writeOk)] else [];
    var backoff := if status == StatusTooManyRequests then [Sleep(RateLimitPause)] else [];
    PausedAppend(post, save);
    PausedAppend(post + save, backoff);
    PausedAppend(post + save + backoff, [Sleep(RequestPause)]);
  }

  // ---------------------------------------------------------------------------
  // Reference definitions of what the checker should report
  // ---------------------------------------------------------------------------

  /** The names whose request answered 200, in list order. */
  function AvailableNames(gamertags: seq<string>, statuses: seq<int>): seq<string>
    requires |statuses| == |gamertags|
    decreases |gamertags|
  {
    if gamertags == [] then []
    else (if statuses[0] == StatusOk then [gamertags[0]] else []) + AvailableNames(gamertags[1..], statuses[1..])
  }

  /** The names whose request answered 200 and whose write to available.txt
      succeeded, in list order. */
  function Succeeded(gamertags: seq<string>, statuses: seq<int>, writeOk: seq<bool>): seq<string>
    requires |statuses| == |gamertags| && |writeOk| == |gamertags|
    decreases |gamertags|
  {
    if gamertags == [] then []
    else if statuses[0] == StatusOk && writeOk[0] then [gamertags[0]] + Succeeded(gamertags[1..], statuses[1..], writeOk[1..])
    else Succeeded(gamertags[1..], statuses[1..], writeOk[1..])
  }

  /** Each name terminated by a newline, as SaveAvailable writes it. */
  function Lines(names: seq<string>): (lines: seq<string>)
    ensures |lines| == |names|
    ensures forall k :: 0 <= k < |names| ==> lines[k] == names[k] + "\n"
  {
    seq(|names|, k requires 0 <= k < |names| => names[k] + "\n")
  }

  // ---------------------------------------------------------------------------
  // The loop
  // ---------------------------------------------------------------------------

  /**
   SaveAvailable (availability.py:151-158): append the name and a newline to
   available.txt, whose lines are `file`. A failed write is swallowed: the
   file is left as it was.
   */
  function SaveAvailable(file: seq<string>, gamertag: string, writeOk: bool): (updated: seq<string>)
    ensures |updated| == |file| + (if writeOk then 1 else 0)
    ensures updated[..|file|] == file
    ensures writeOk ==> updated[|file|] == gamertag + "\n"
  {
    if writeOk then file + [gamertag + "\n"] else file
  }

  /**
   CheckAvailability (availability.py:88-148). `statuses[j]` is the status the
   endpoint answers for `gamertags[j]`, `writeOk[j]` whether SaveAvailable's
   write for it succeeds, `available` the lines available.txt held before.
   */
  method CheckAvailability(gamertags: seq<string>, statuses: seq<int>, writeOk: seq<bool>, available: seq<string>)
    returns (count: nat, file: seq<string>, trace: seq<Effect>)
    requires |statuses| == |gamertags| && |writeOk| == |gamertags|
    ensures trace == Rounds(gamertags, statuses, writeOk)
    ensures count == multiset(statuses)[StatusOk] && count <= |gamertags|
    ensures file == available + Written(trace)
    ensures file == available + Lines(Succeeded(gamertags, statuses, writeOk))
    ensures Posts(trace) == gamertags
    ensures Saves(trace) == AvailableNames(gamertags, statuses)
    ensures Paused(trace) == RequestPause * |gamertags| + RateLimitPause * multiset(statuses)[StatusTooManyRequests]
  {
    count := 0;
    file := available;
    trace := [];
    for j := 0 to |gamertags|
      invariant trace == Rounds(gamertags[..j], statuses[..j], writeOk[..j])
      invariant count == multiset(statuses[..j])[StatusOk]
      invariant file == available + Written(trace)
    {
      var gamertag := gamertags[j];
      var status := statuses[j];
      ghost var fileBefore := file;
      var round := [Post(gamertag)];
      // 409, 400 and 401 are only reported on the console.
      if status == StatusOk {
        file := SaveAvailable(file, gamertag, writeOk[j]);
        round := round + [Save(gamertag, writeOk[j])];
        count := count + 1;
      }
      if status == StatusTooManyRequests {
        round := round + [Sleep(RateLimitPause)];
      }
      round := round + [Sleep(RequestPause)];
      assert round == Round(gamertag, status, writeOk[j]);
      RoundsSnoc(gamertags, statuses, writeOk, j);
      FileStep(gamertag, status, writeOk[j], available, trace, fileBefore);
      CountStep(statuses, j);
      trace := trace + round;
    }
    assert gamertags[..|gamertags|] == gamertags;
    assert statuses[..|statuses|] == statuses;
    assert writeOk[..|writeOk|] == writeOk;
    RoundsPosts(gamertags, statuses, writeOk);
    RoundsSaves(gamertags, statuses, writeOk);
    RoundsPaused(gamertags, statuses, writeOk);
    AvailableCount(gamertags, statuses);
    WrittenIsSucceededLines(gamertags, statuses, writeOk);
  }

  /** The rounds from position `j` on start with the round of name `j`. */
  lemma RoundsUnfold(gamertags: seq<string>, statuses: seq<int>, writeOk: seq<bool>, j: nat)
    requires |statuses| == |gamertags| && |writeOk| == |gamertags| && j < |gamertags|
    ensures Rounds(gamertags[j..], statuses[j..], writeOk[j..])
      == Round(gamertags[j], statuses[j], writeOk[j]) + Rounds(gamertags[j + 1..], statuses[j + 1..], writeOk[j + 1..])
  {
    assert gamertags[j..][1..] == gamertags[j + 1..];
    assert statuses[j..][1..] == statuses[j + 1..];
    assert writeOk[j..][1..] == writeOk[j + 1..];
  }

  /** Processing name `j` appends its round to the rounds of the names
      before it. */
  lemma RoundsSnoc(gamertags: seq<string>, statuses: seq<int>, writeOk: seq<bool>, j: nat)
    requires |statuses| == |gamertags| && |writeOk| == |gamertags| && j < |gamertags|
    ensures Rounds(gamertags[..j + 1], statuses[..j + 1], writeOk[..j + 1])
      == Rounds(gamertags[..j], statuses[..j], writeOk[..j]) + Round(gamertags[j], statuses[j], writeOk[j])
  {
    var gx, sx, wx := [gamertags[j]], [statuses[j]], [writeOk[j]];
    assert gamertags[..j + 1] == gamertags[..j] + gx;
    assert statuses[..j + 1] == statuses[..j] + sx;
    assert writeOk[..j + 1] == writeOk[..j] + wx;
    RoundsAppend(gamertags[..j], statuses[..j], writeOk[..j], gx, sx, wx);
    assert Rounds(gx, sx, wx) == Round(gamertags[j], statuses[j], writeOk[j]) + [];
  }

  /** One iteration of CheckAvailability adds to the file what its round writes. */
  lemma FileStep(gamertag: string, status: int, writeOk: bool, available: seq<string>, trace: seq<Effect>, file: seq<string>)
    requires file == available + Written(trace)
    ensures (if status == StatusOk then SaveAvailable(file, gamertag, writeOk) else file)
      == available + Written(trace + Round(gamertag, status, writeOk))
  {
    WrittenAppend(trace, Round(gamertag, status, writeOk));
    RoundWritten(gamertag, status, writeOk);
  }

  /** Counting the 200s one status further. */
  lemma CountStep(statuses: seq<int>, j: nat)
    requires j < |statuses|
    ensures multiset(statuses[..j + 1])[StatusOk] == multiset(statuses[..j])[StatusOk] + (if statuses[j] == StatusOk then 1 else 0)
  {
    assert statuses[..j + 1] == statuses[..j] + [statuses[j]];
  }

  // ---------------------------------------------------------------------------
  // Properties of the checker
  // ---------------------------------------------------------------------------

  /** Every name is posted exactly once, in list order: a rate-limited name is
      not retried. */
  lemma {:induction false} RoundsPosts(gamertags: seq<string>, statuses: seq<int>, writeOk: seq<bool>)
    requires |statuses| == |gamertags| && |writeOk| == |gamertags|
    ensures Posts(Rounds(gamertags, statuses, writeOk)) == gamertags
    decreases |gamertags|
  {
    if gamertags != [] {
      RoundsPosts(gamertags[1..], statuses[1..], writeOk[1..]);
      PostsAppend(Round(gamertags[0], statuses[0], writeOk[0]), Rounds(gamertags[1..], statuses[1..], writeOk[1..]));
      RoundPosts(gamertags[0], statuses[0], writeOk[0]);
      assert gamertags == [gamertags[0]] + gamertags[1..];
    }
  }

  /** SaveAvailable is called for exactly the names that answered 200, in
      order. */
  lemma {:induction false} RoundsSaves(gamertags: seq<string>, statuses: seq<int>, writeOk: seq<bool>)
    requires |statuses| == |gamertags| && |writeOk| == |gamertags|
    ensures Saves(Rounds(gamertags, statuses, writeOk)) == AvailableNames(gamertags, statuses)
    decreases |gamertags|
  {
    if gamertags != [] {
      RoundsSaves(gamertags[1..], statuses[1..], writeOk[1..]);
      SavesAppend(Round(gamertags[0], statuses[0], writeOk[0]), Rounds(gamertags[1..], statuses[1..], writeOk[1..]));
      RoundSaves(gamertags[0], statuses[0], writeOk[0]);
    }
  }

  /** The pause is 1.5 s per name plus 15 s per 429. */
  lemma {:induction false} RoundsPaused(gamertags: seq<string>, statuses: seq<int>, writeOk: seq<bool>)
    requires |statuses| == |gamertags| && |writeOk| == |gamertags|
    ensures Paused(Rounds(gamertags, statuses, writeOk))
      == RequestPause * |gamertags| + RateLimitPause * multiset(statuses)[StatusTooManyRequests]
    decreases |gamertags|
  {
    if gamertags != [] {
      RoundsPaused(gamertags[1..], statuses[1..], writeOk[1..]);
      PausedAppend(Round(gamertags[0], statuses[0], writeOk[0]), Rounds(gamertags[1..], statuses[1..], writeOk[1..]));
      RoundPaused(gamertags[0], statuses[0], writeOk[0]);
      assert statuses == [statuses[0]] + statuses[1..];
    }
  }

  /** The number of names that answered 200 is the number of 200s among the
      statuses, and at most the number of names. */
  lemma {:induction false} AvailableCount(gamertags: seq<string>, statuses: seq<int>)
    requires |statuses| == |gamertags|
    ensures |AvailableNames(gamertags, statuses)| == multiset(statuses)[StatusOk] <= |gamertags|
    decreases |gamertags|
  {
    if gamertags != [] {
      AvailableCount(gamertags[1..], statuses[1..]);
      assert statuses == [statuses[0]] + statuses[1..];
    }
  }

  /** Only SaveAvailable calls whose write succeeds add a line, so the file
      gains at most one line per available name. */
  lemma {:induction false} WrittenAtMostAvailable(gamertags: seq<string>, statuses: seq<int>, writeOk: seq<bool>)
    requires |statuses| == |gamertags| && |writeOk| == |gamertags|
    ensures |Written(Rounds(gamertags, statuses, writeOk))| <= |AvailableNames(gamertags, statuses)|
    decreases |gamertags|
  {
    if gamertags != [] {
      WrittenAtMostAvailable(gamertags[1..], statuses[1..], writeOk[1..]);
      WrittenAppend(Round(gamertags[0], statuses[0], writeOk[0]), Rounds(gamertags[1..], statuses[1..], writeOk[1..]));
      RoundWritten(gamertags[0], statuses[0], writeOk[0]);
    }
  }

  /** The file gains exactly the names answered 200 whose write succeeded,
      each on its own line, in order. */
  lemma {:induction false} WrittenIsSucceededLines(gamertags: seq<string>, statuses: seq<int>, writeOk: seq<bool>)
    requires |statuses| == |gamertags| && |writeOk| == |gamertags|
    ensures Written(Rounds(gamertags, statuses, writeOk)) == Lines(Succeeded(gamertags, statuses, writeOk))
    decreases |gamertags|
  {
    if gamertags != [] {
      var round := Round(gamertags[0], statuses[0], writeOk[0]);
      var rest := Rounds(gamertags[1..], statuses[1..], writeOk[1..]);
      var after := Succeeded(gamertags[1..], statuses[1..], writeOk[1..]);
      assert Rounds(gamertags, statuses, writeOk) == round + rest;
      WrittenAppend(round, rest);
      RoundWritten(gamertags[0], statuses[0], writeOk[0]);
      WrittenIsSucceededLines(gamertags[1..], statuses[1..], writeOk[1..]);
      if statuses[0] == StatusOk && writeOk[0] {
        assert Succeeded(gamertags, statuses, writeOk) == [gamertags[0]] + after;
        assert Lines([gamertags[0]] + after) == [gamertags[0] + "\n"] + Lines(after);
      } else {
        assert Succeeded(gamertags, statuses, writeOk) == after;
        assert Written(round) == [];
      }
    }
  }

  /** When every write succeeds, the file gains exactly the available names,
      each on its own line, in order. */
  lemma {:induction false} WrittenAllSucceeded(gamertags: seq<string>, statuses: seq<int>, writeOk: seq<bool>)
    requires |statuses| == |gamertags| && |writeOk| == |gamertags|
    requires forall j :: 0 <= j < |writeOk| ==> writeOk[j]
    ensures Written(Rounds(gamertags, statuses, writeOk)) == Lines(AvailableNames(gamertags, statuses))
    decreases |gamertags|
  {
    if gamertags != [] {
      assert forall j :: 0 <= j < |writeOk[1..]| ==> writeOk[1..][j] by {
        forall j | 0 <= j < |writeOk[1..]| ensures writeOk[1..][j] {
          assert writeOk[1..][j] == writeOk[j + 1];
        }
      }
      WrittenAllSucceeded(gamertags[1..], statuses[1..], writeOk[1..]);
      WrittenAppend(Round(gamertags[0], statuses[0], writeOk[0]), Rounds(gamertags[1..], statuses[1..], writeOk[1..]));
      RoundWritten(gamertags[0], statuses[0], writeOk[0]);
      var after := AvailableNames(gamertags[1..], statuses[1..]);
      if statuses[0] == StatusOk {
        assert Lines([gamertags[0]] + after) == [gamertags[0] + "\n"] + Lines(after);
      } else {
        assert AvailableNames(gamertags, statuses) == after;
      }
    }
  }

  /** The rounds of a concatenation of lists of names. */
  lemma {:induction false} RoundsAppend(g1: seq<string>, s1: seq<int>, w1: seq<bool>,
                                        g2: seq<string>, s2: seq<int>, w2: seq<bool>)
    requires |s1| == |g1| && |w1| == |g1| && |s2| == |g2| && |w2| == |g2|
    ensures Rounds(g1 + g2, s1 + s2, w1 + w2) == Rounds(g1, s1, w1) + Rounds(g2, s2, w2)
    decreases |g1|
  {
    if g1 == [] {
      assert g1 + g2 == g2 && s1 + s2 == s2 && w1 + w2 == w2;
    } else {
      var g, s, w := g1 + g2, s1 + s2, w1 + w2;
      var head := Round(g1[0], s1[0], w1[0]);
      var tail1, r2 := Rounds(g1[1..], s1[1..], w1[1..]), Rounds(g2, s2, w2);
      assert Rounds(g, s, w) == head + Rounds(g[1..], s[1..], w[1..]) by {
        assert g[0] == g1[0] && s[0] == s1[0] && w[0] == w1[0];
      }
      assert Rounds(g[1..], s[1..], w[1..]) == tail1 + r2 by {
        assert g[1..] == g1[1..] + g2;
        assert s[1..] == s1[1..] + s2;
        assert w[1..] == w1[1..] + w2;
        RoundsAppend(g1[1..], s1[1..], w1[1..], g2, s2, w2);
      }
      assert head + (tail1 + r2) == head + tail1 + r2;
    }
  }

  /**
   A name whose request does not answer 200 (409, 400, 401, 429 or anything
   else) changes neither the count nor the file nor the SaveAvailable calls:
   they are what they would be without that name.
   */
  lemma NonSuccessChangesNothing(gamertags: seq<string>, statuses: seq<int>, writeOk: seq<bool>, j: nat)
    requires |statuses| == |gamertags| && |writeOk| == |gamertags|
    requires j < |gamertags| && statuses[j] != StatusOk
    ensures multiset(statuses)[StatusOk] == multiset(statuses[..j] + statuses[j + 1..])[StatusOk]
    ensures Saves(Rounds(gamertags, statuses, writeOk))
      == Saves(Rounds(gamertags[..j] + gamertags[j + 1..], statuses[..j] + statuses[j + 1..], writeOk[..j] + writeOk[j + 1..]))
    ensures Written(Rounds(gamertags, statuses, writeOk))
      == Written(Rounds(gamertags[..j] + gamertags[j + 1..], statuses[..j] + statuses[j + 1..], writeOk[..j] + writeOk[j + 1..]))
  {
    assert statuses == statuses[..j] + [statuses[j]] + statuses[j + 1..];
    RoundsWithout(gamertags, statuses, writeOk, j);
    RoundsAppend(gamertags[..j], statuses[..j], writeOk[..j], gamertags[j + 1..], statuses[j + 1..], writeOk[j + 1..]);
    var r1 := Rounds(gamertags[..j], statuses[..j], writeOk[..j]);
    var r2 := Rounds(gamertags[j + 1..], statuses[j + 1..], writeOk[j + 1..]);
    var rx := Round(gamertags[j], statuses[j], writeOk[j]);
    RoundSaves(gamertags[j], statuses[j], writeOk[j]);
    RoundWritten(gamertags[j], statuses[j], writeOk[j]);
    SavesWithout(r1, rx, r2);
    WrittenWithout(r1, rx, r2);
  }

  /** The rounds of a list are the rounds of its first `j` names followed by
      the rounds of the others. */
  lemma RoundsSplit(gamertags: seq<string>, statuses: seq<int>, writeOk: seq<bool>, j: nat)
    requires |statuses| == |gamertags| && |writeOk| == |gamertags| && j <= |gamertags|
    ensures Rounds(gamertags, statuses, writeOk)
      == Rounds(gamertags[..j], statuses[..j], writeOk[..j]) + Rounds(gamertags[j..], statuses[j..], writeOk[j..])
  {
    assert gamertags == gamertags[..j] + gamertags[j..];
    assert statuses == statuses[..j] + statuses[j..];
    assert writeOk == writeOk[..j] + writeOk[j..];
    RoundsAppend(gamertags[..j], statuses[..j], writeOk[..j], gamertags[j..], statuses[j..], writeOk[j..]);
  }

  /** The rounds of a list split around the round of entry `j`. */
  lemma RoundsWithout(gamertags: seq<string>, statuses: seq<int>, writeOk: seq<bool>, j: nat)
    requires |statuses| == |gamertags| && |writeOk| == |gamertags| && j < |gamertags|
    ensures Rounds(gamertags, statuses, writeOk)
      == Rounds(gamertags[..j], statuses[..j], writeOk[..j])
         + Round(gamertags[j], statuses[j], writeOk[j])
         + Rounds(gamertags[j + 1..], statuses[j + 1..], writeOk[j + 1..])
  {
    var r1 := Rounds(gamertags[..j], statuses[..j], writeOk[..j]);
    var rx := Round(gamertags[j], statuses[j], writeOk[j]);
    var r2 := Rounds(gamertags[j + 1..], statuses[j + 1..], writeOk[j + 1..]);
    var rest := Rounds(gamertags[j..], statuses[j..], writeOk[j..]);
    RoundsSplit(gamertags, statuses, writeOk, j);
    assert rest == rx + r2 by {
      RoundsUnfold(gamertags, statuses, writeOk, j);
    }
    assert r1 + (rx + r2) == r1 + rx + r2;
  }

  /** A middle part of a trace that saves nothing can be cut out. */
  lemma SavesWithout(r1: seq<Effect>, rx: seq<Effect>, r2: seq<Effect>)
    requires Saves(rx) == []
    ensures Saves(r1 + rx + r2) == Saves(r1 + r2)
  {
    SavesAppend(r1, rx);
    SavesAppend(r1 + rx, r2);
    SavesAppend(r1, r2);
  }

  /** A middle part of a trace that writes nothing can be cut out. */
  lemma WrittenWithout(r1: seq<Effect>, rx: seq<Effect>, r2: seq<Effect>)
    requires Written(rx) == []
    ensures Written(r1 + rx + r2) == Written(r1 + r2)
  {
    WrittenAppend(r1, rx);
    WrittenAppend(r1 + rx, r2);
    WrittenAppend(r1, r2);
  }

  /**
   Requests are spaced: every request but the first comes right after the
   1.5 s pause that ends the previous name's round, and the run ends with
   that pause.
   */
  lemma {:induction false} PauseBeforeEveryRequest(gamertags: seq<string>, statuses: seq<int>, writeOk: seq<bool>)
    requires |statuses| == |gamertags| && |writeOk| == |gamertags|
    ensures gamertags != [] ==> Rounds(gamertags, statuses, writeOk)[|Rounds(gamertags, statuses, writeOk)| - 1] == Sleep(RequestPause)
    ensures forall k :: 0 < k < |Rounds(gamertags, statuses, writeOk)| && Rounds(gamertags, statuses, writeOk)[k].Post? ==>
      Rounds(gamertags, statuses, writeOk)[k - 1] == Sleep(RequestPause)
    decreases |gamertags|
  {
    if gamertags != [] {
      var round := Round(gamertags[0], statuses[0], writeOk[0]);
      var rest := Rounds(gamertags[1..], statuses[1..], writeOk[1..]);
      PauseBeforeEveryRequest(gamertags[1..], statuses[1..], writeOk[1..]);
      var trace := round + rest;
      assert Rounds(gamertags, statuses, writeOk) == trace;
      assert round[|round| - 1] == Sleep(RequestPause);
      assert forall k :: 0 < k < |round| ==> !round[k].Post?;
      forall k | 0 < k < |trace| && trace[k].Post?
        ensures trace[k - 1] == Sleep(RequestPause)
      {
        if k > |round| {
          assert trace[k] == rest[k - |round|] && trace[k - 1] == rest[k - |round| - 1];
        }
      }
      if rest != [] {
        assert trace[|trace| - 1] == rest[|rest| - 1];
      }
    }
  }
}
