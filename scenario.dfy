/**
 A worked example of a whole run: main validates the loaded list
 (VerifyGamertags) and hands what is left to CheckAvailability.
 */
module Scenario {
  import V = Validator
  import C = Checker

  const Loaded: seq<string> := ["Player1", "this_name_is_way_too_long_to_be_valid", "bad!name", "Player2"]

  /**
   The over-long name also contains `_`, so it triggers both deletions: the
   second one removes "bad!name" unexamined. The outcome happens to equal the
   intended filter.
   */
  lemma ValidatedExample()
    ensures V.AsWritten(Loaded) == V.Verified(["Player1", "Player2"], false)
    ensures V.Fates(Loaded) == [V.Kept, V.Dropped, V.Collateral, V.Skipped]
    ensures V.Filter(Loaded) == ["Player1", "Player2"]
  {
    var tail := Loaded[1..];
    assert tail == ["this_name_is_way_too_long_to_be_valid", "bad!name", "Player2"];
    assert V.AllGamertagChars("Player1");
    assert V.AllGamertagChars("Player2");
    assert V.Failures(Loaded[0]) == 0;
    assert !V.IsGamertagChar(tail[0][4]);
    assert V.Failures(tail[0]) == 2;
    assert !V.IsGamertagChar(tail[1][3]);
    assert !V.IsGamertag(tail[1]);
    assert tail[3..] == [];
    assert V.AsWritten(tail) == V.Verified(["Player2"], false);
    assert V.Fates(tail) == [V.Dropped, V.Collateral, V.Skipped];
    assert tail[1..] == ["bad!name", "Player2"] && tail[1..][1..] == ["Player2"];
    assert V.Filter(["Player2"]) == ["Player2"];
    assert V.Filter(tail[1..]) == ["Player2"];
  }

  /**
   If the endpoint answers 409 for "Player1" and 200 for "Player2", the
   validated list is checked with one SaveAvailable call, for "Player2", that
   writes exactly that line, and with a 1.5 s pause after each request.
   */
  lemma CheckedExample()
    ensures V.AsWritten(Loaded).names == ["Player1", "Player2"]
    ensures C.Saves(C.Rounds(V.AsWritten(Loaded).names, [409, 200], [true, true])) == ["Player2"]
    ensures C.Succeeded(V.AsWritten(Loaded).names, [409, 200], [true, true]) == ["Player2"]
    ensures C.Paused(C.Rounds(V.AsWritten(Loaded).names, [409, 200], [true, true])) == 2 * C.RequestPause
  {
    ValidatedExample();
    PairSaves(["Player1", "Player2"]);
    PairSucceeded(["Player1", "Player2"]);
    PairPaused(["Player1", "Player2"]);
  }

  /** On a pair of names answered 409 and 200, only the second is saved. */
  lemma PairSaves(g: seq<string>)
    requires |g| == 2
    ensures C.Saves(C.Rounds(g, [409, 200], [true, true])) == [g[1]]
  {
    var s, w := [409, 200], [true, true];
    assert s[1..] == [200] && g[1..] == [g[1]];
    assert g[1..][1..] == [] && s[1..][1..] == [];
    assert C.AvailableNames(g[1..], s[1..]) == [g[1]];
    assert C.AvailableNames(g, s) == [g[1]];
    C.RoundsSaves(g, s, w);
  }

  /** On a pair of names answered 409 and 200 whose writes succeed, only the
      second is written. */
  lemma PairSucceeded(g: seq<string>)
    requires |g| == 2
    ensures C.Succeeded(g, [409, 200], [true, true]) == [g[1]]
  {
    var s, w := [409, 200], [true, true];
    assert s[1..] == [200] && w[1..] == [true] && g[1..] == [g[1]];
    assert g[1..][1..] == [] && s[1..][1..] == [] && w[1..][1..] == [];
    assert C.Succeeded(g[1..], s[1..], w[1..]) == [g[1]];
  }

  /** A pair of names answered 409 and 200 pauses 1.5 s twice. */
  lemma PairPaused(g: seq<string>)
    requires |g| == 2
    ensures C.Paused(C.Rounds(g, [409, 200], [true, true])) == 2 * C.RequestPause
  {
    var s, w := [409, 200], [true, true];
    assert s == [409] + [200];
    assert multiset(s)[C.StatusTooManyRequests] == 0;
    C.RoundsPaused(g, s, w);
  }

  /**
   main's two steps run on the example list: the validated names are checked
   with answers 409 and 200 and every write succeeding, starting from an empty
   available.txt. One gamertag is counted and available.txt holds exactly it.
   */
  method CheckedRun() returns (count: nat, file: seq<string>)
    ensures count == 1
    ensures file == ["Player2\n"]
  {
    CheckedExample();
    var validated := V.AsWritten(Loaded).names;
    var statuses, writeOk := [409, 200], [true, true];
    var trace;
    count, file, trace := C.CheckAvailability(validated, statuses, writeOk, []);
    assert multiset(statuses)[C.StatusOk] == 1 by {
      assert statuses == [409] + [200];
    }
    assert C.Lines(["Player2"]) == ["Player2\n"] by {
      var lines := C.Lines(["Player2"]);
      assert |lines| == 1 && lines[0] == "Player2" + "\n";
      assert "Player2" + "\n" == "Player2\n";
    }
  }
}
