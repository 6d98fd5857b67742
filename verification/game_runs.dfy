/**
 Sequences of key presses delivered to the engine's `keydown` listener, and
 what typing whole sequences, whole runs and whole problem sets does.
 */
module Runs {
  import opened Wrappers
  import StrokeTable
  import opened Game

  /** Delivers `keys` in order; a listener that throws leaves the state as it was, and later keys are still delivered. */
  function Run(e: Engine, keys: seq<string>): (r: Engine)
    // the run-wide miss counter never decreases, and rises by at most one per key
    ensures e.totalMissCount <= r.totalMissCount <= e.totalMissCount + |keys|
    decreases |keys|
  {
    if |keys| == 0 then e else Run(Key(e, keys[0]).next, keys[1..])
  }

  /** The key presses that type `s`, one character each. */
  function KeysOf(s: string): (keys: seq<string>)
    ensures |keys| == |s|
    ensures forall i :: 0 <= i < |s| ==> keys[i] == [s[i]]
  {
    seq(|s|, i requires 0 <= i < |s| => [s[i]])
  }

  lemma KeysOfAppend(a: string, b: string)
    ensures KeysOf(a + b) == KeysOf(a) + KeysOf(b)
  {
  }

  /** Delivering `a` then `b` is delivering `a + b`. */
  lemma {:induction false} RunAppend(e: Engine, a: seq<string>, b: seq<string>)
    ensures Run(e, a + b) == Run(Run(e, a), b)
    decreases |a|
  {
    if |a| > 0 {
      assert (a + b)[0] == a[0];
      assert (a + b)[1..] == a[1..] + b;
      RunAppend(Key(e, a[0]).next, a[1..], b);
    } else {
      assert a + b == b;
    }
  }

  /** Any sequence of key presses keeps the cursor consistent. */
  lemma {:induction false} RunConsistent(e: Engine, keys: seq<string>)
    requires Consistent(e)
    ensures Consistent(Run(e, keys))
    decreases |keys|
  {
    if |keys| > 0 {
      KeyConsistent(e, keys[0]);
      RunConsistent(Key(e, keys[0]).next, keys[1..]);
    }
  }

  /**
   Typing more of a proper prefix of the active sequence only extends the
   typed prefix: the target index and both miss counters stay, and the last
   error is cleared.
   */
  lemma {:induction false} TypePrefix(e: Engine, s: string, q: string)
    requires e.targetIndex < |e.targetStrokes|
    requires ActiveSequence(e) == Some(s)
    requires e.precomposition + q < s
    ensures Run(e, KeysOf(q)) == if q == "" then e else e.(precomposition := e.precomposition + q, lastError := "")
    decreases |q|
  {
    if q != "" {
      var key := [q[0]];
      var buf := e.precomposition + key;
      assert buf + q[1..] == e.precomposition + q;
      assert buf < s by {
        assert buf <= e.precomposition + q;
      }
      var e1 := e.(precomposition := buf, lastError := "");
      assert Key(e, key).next == e1;
      assert KeysOf(q)[1..] == KeysOf(q[1..]);
      TypePrefix(e1, s, q[1..]);
    }
  }

  /** Typing the whole active sequence from an empty prefix completes the stroke without a miss. */
  lemma TypeStroke(e: Engine, s: string)
    requires e.targetIndex < |e.targetStrokes|
    requires ActiveSequence(e) == Some(s)
    requires |s| > 0
    requires e.precomposition == ""
    ensures Run(e, KeysOf(s)) == if e.targetIndex + 1 < |e.targetStrokes| then Advanced(e) else NextProblem(Advanced(e))
  {
    var n := |s|;
    var init, last := s[..n - 1], s[n - 1];
    assert s == init + [last];
    KeysOfAppend(init, [last]);
    RunAppend(e, KeysOf(init), KeysOf([last]));
    assert e.precomposition + init == init < s;
    TypePrefix(e, s, init);
    var e1 := Run(e, KeysOf(init));
    assert e1.precomposition + [last] == s;
    assert Advanced(e1) == Advanced(e);
    assert KeysOf([last]) == [[last]];
  }

  /** Every stroke from `i` on has a non-empty sequence, so the run can be typed to its end. */
  predicate Typeable(strokes: seq<Stroke>, i: nat) {
    forall j :: i <= j < |strokes| ==> strokes[j].sequence.Some? && |strokes[j].sequence.value| > 0
  }

  /** The key presses that type strokes `i` onwards, in order. */
  function Remaining(strokes: seq<Stroke>, i: nat): (keys: seq<string>)
    requires i <= |strokes|
    requires Typeable(strokes, i)
    decreases |strokes| - i
  {
    if i == |strokes| then [] else KeysOf(strokes[i].sequence.value) + Remaining(strokes, i + 1)
  }

  /** The state once the last stroke is typed, before the engine moves to the next problem. */
  function Finished(e: Engine): (r: Engine)
    ensures r.targetIndex == |r.targetStrokes| && r.targetStrokes == e.targetStrokes
  {
    e.(targetIndex := |e.targetStrokes|, precomposition := "", lastError := "", seqMissCount := 0)
  }

  /**
   Typing every remaining stroke's exact sequence, with no wrong key, drives
   the target index to the end of the run and hands over to the next problem.
   */
  lemma {:induction false} CompleteRun(e: Engine)
    requires e.targetIndex < |e.targetStrokes|
    requires e.precomposition == ""
    requires Typeable(e.targetStrokes, e.targetIndex)
    ensures Run(e, Remaining(e.targetStrokes, e.targetIndex)) == NextProblem(Finished(e))
    decreases |e.targetStrokes| - e.targetIndex
  {
    var i := e.targetIndex;
    var s := e.targetStrokes[i].sequence.value;
    var rest := Remaining(e.targetStrokes, i + 1);
    assert Remaining(e.targetStrokes, i) == KeysOf(s) + rest;
    RunAppend(e, KeysOf(s), rest);
    TypeStroke(e, s);
    if i + 1 < |e.targetStrokes| {
      var e1 := Advanced(e);
      assert Run(e, KeysOf(s)) == e1;
      assert Finished(e1) == Finished(e);
      CompleteRun(e1);
    } else {
      assert rest == [];
      assert Advanced(e) == Finished(e);
    }
  }

  /** Completing the run of the last problem counts no miss and leaves the run complete: no wrap-around, nothing rebuilt. */
  lemma CompleteLastRun(e: Engine)
    requires e.targetIndex < |e.targetStrokes|
    requires e.precomposition == ""
    requires Typeable(e.targetStrokes, e.targetIndex)
    requires e.problemIndex + 1 >= |e.problems|
    ensures var r := Run(e, Remaining(e.targetStrokes, e.targetIndex));
            && r.targetIndex == |r.targetStrokes| && r.targetStrokes == e.targetStrokes
            && r.problemIndex == e.problemIndex + 1
            && r.seqMissCount == 0 && r.totalMissCount == e.totalMissCount
  {
    CompleteRun(e);
  }

  /** Every problem is non-empty and every one of its characters has a non-empty sequence. */
  predicate Drillable(rev: StrokeTable.Table, problems: seq<string>) {
    forall k :: 0 <= k < |problems| ==> |problems[k]| > 0 && Typeable(TargetStrokes(rev, problems[k]), 0)
  }

  /** The key presses that type problems `k` onwards. */
  function ProblemSetKeys(rev: StrokeTable.Table, problems: seq<string>, k: nat): seq<string>
    requires k <= |problems|
    requires Drillable(rev, problems)
    decreases |problems| - k
  {
    if k == |problems| then []
    else Remaining(TargetStrokes(rev, problems[k]), 0) + ProblemSetKeys(rev, problems, k + 1)
  }

  /** From the start of problem `k`, typing every remaining problem exactly ends the set: the index lands on `|problems|`. */
  lemma {:induction false} CompleteProblemsFrom(e: Engine, k: nat)
    requires k < |e.problems| && e.problemIndex == k
    requires Drillable(e.reverseStrokeTable, e.problems)
    requires e.targetStrokes == TargetStrokes(e.reverseStrokeTable, e.problems[k])
    requires e.targetIndex == 0 && e.precomposition == ""
    ensures var r := Run(e, ProblemSetKeys(e.reverseStrokeTable, e.problems, k));
            && r.problemIndex == |e.problems|
            && r.targetIndex == |r.targetStrokes|
            && r.totalMissCount == e.totalMissCount
    decreases |e.problems| - k
  {
    var rev, ps := e.reverseStrokeTable, e.problems;
    RunAppend(e, Remaining(e.targetStrokes, 0), ProblemSetKeys(rev, ps, k + 1));
    CompleteRun(e);
    if k + 1 < |ps| {
      var e1 := NextProblem(Finished(e));
      assert e1 == SetTargetText(Finished(e).(problemIndex := k + 1), ps[k + 1]);
      CompleteProblemsFrom(e1, k + 1);
    }
  }

  /**
   Loading a problem set and typing every problem exactly, in order, moves
   through all of them and stops with the problem index one past the last,
   without counting a miss.
   */
  lemma CompleteProblemSet(e: Engine, problems: seq<string>)
    requires |problems| > 0
    requires e.precomposition == ""
    requires Drillable(e.reverseStrokeTable, problems)
    ensures var r := Run(SetProblems(e, problems).next, ProblemSetKeys(e.reverseStrokeTable, problems, 0));
            && r.problemIndex == |problems|
            && r.targetIndex == |r.targetStrokes|
            && r.totalMissCount == e.totalMissCount
  {
    CompleteProblemsFrom(SetProblems(e, problems).next, 0);
  }

  /** Once the run is complete, key presses change at most the typed prefix (only Backspace reaches it). */
  lemma {:induction false} CompletedRunIgnoresKeys(e: Engine, keys: seq<string>)
    requires e.targetIndex == |e.targetStrokes|
    ensures Run(e, keys) == e.(precomposition := Run(e, keys).precomposition)
    ensures e.precomposition == "" ==> Run(e, keys) == e
    decreases |keys|
  {
    if |keys| > 0 {
      CompletedRunIgnoresKeys(Key(e, keys[0]).next, keys[1..]);
    }
  }

  /** An active stroke with no sequence stalls the run: no key advances it, and no key counts as a miss. */
  lemma {:induction false} UnmappedStrokeStalls(e: Engine, keys: seq<string>)
    requires e.targetIndex < |e.targetStrokes|
    requires ActiveSequence(e).None?
    ensures Run(e, keys) == e.(precomposition := Run(e, keys).precomposition)
    decreases |keys|
  {
    if |keys| > 0 {
      UnmappedStrokeStalls(Key(e, keys[0]).next, keys[1..]);
    }
  }

  /** An empty problem text gives an empty run that is complete from the start, so no key ever reaches the next problem. */
  lemma EmptyProblemStalls(e: Engine, problems: seq<string>, keys: seq<string>)
    requires |problems| > 0 && problems[0] == ""
    ensures Run(SetProblems(e, problems).next, keys)
              == SetProblems(e, problems).next.(precomposition := Run(SetProblems(e, problems).next, keys).precomposition)
    ensures Run(SetProblems(e, problems).next, keys).problemIndex == 0
  {
    var s := SetProblems(e, problems).next;
    assert s.targetIndex == |s.targetStrokes| == 0;
    CompletedRunIgnoresKeys(s, keys);
  }

  /** How many of `keys` are one character long. */
  function CharKeys(keys: seq<string>): (n: nat)
    ensures n <= |keys|
    decreases |keys|
  {
    if |keys| == 0 then 0 else (if |keys[0]| == 1 then 1 else 0) + CharKeys(keys[1..])
  }

  /**
   An active stroke whose sequence is empty can never be typed: every
   one-character key is a miss on both counters, and the cursor stays put.
   */
  lemma {:induction false} EmptySequenceStalls(e: Engine, keys: seq<string>)
    requires e.targetIndex < |e.targetStrokes|
    requires ActiveSequence(e) == Some("") && e.precomposition == ""
    ensures Run(e, keys) == e.(lastError := Run(e, keys).lastError,
                               seqMissCount := e.seqMissCount + CharKeys(keys),
                               totalMissCount := e.totalMissCount + CharKeys(keys))
    decreases |keys|
  {
    if |keys| > 0 {
      var k := keys[0];
      var next := Key(e, k).next;
      if Typed(e, k) {
        assert !(e.precomposition + k <= ActiveSequence(e).value);
      }
      assert next == e.(lastError := next.lastError,
                        seqMissCount := e.seqMissCount + CharKeys([k]),
                        totalMissCount := e.totalMissCount + CharKeys([k]));
      EmptySequenceStalls(next, keys[1..]);
      assert CharKeys(keys) == CharKeys([k]) + CharKeys(keys[1..]);
    }
  }

  const ScenarioTable: StrokeTable.Table := map["ka" := "か", "pi" := "ぴ"]
  const ScenarioOrder: seq<string> := ["ka", "pi"]

  lemma ScenarioReverse()
    ensures StrokeTable.Enumerates(ScenarioOrder, ScenarioTable)
    ensures LoadStrokeTable(Initial, ScenarioTable, ScenarioOrder).reverseStrokeTable == map["か" := "ka", "ぴ" := "pi"]
  {
    var rev := LoadStrokeTable(Initial, ScenarioTable, ScenarioOrder).reverseStrokeTable;
    assert ScenarioTable.Values == {"か", "ぴ"} by {
      assert ScenarioTable["ka"] == "か" && ScenarioTable["pi"] == "ぴ";
    }
    StrokeTable.InvertLastWriter(ScenarioTable, ScenarioOrder, 0);
    StrokeTable.InvertLastWriter(ScenarioTable, ScenarioOrder, 1);
  }

  lemma ScenarioStrokes(e: Engine)
    requires e.reverseStrokeTable == map["か" := "ka", "ぴ" := "pi"]
    ensures SetTargetText(e, "かぴ").targetStrokes == [Stroke(Some("ka"), 'か'), Stroke(Some("pi"), 'ぴ')]
  {
    assert !IsKatakana('か') && !IsKatakana('ぴ');
  }

  /**
   A worked example: with the table {"ka": "か", "pi": "ぴ"} and the text
   "かぴ", typing "k", "a", a wrong "x", then "p", "i" completes the run with
   one miss in all.
   */
  lemma KanaScenario()
    ensures StrokeTable.Enumerates(ScenarioOrder, ScenarioTable)
    ensures var r := Run(SetTargetText(LoadStrokeTable(Initial, ScenarioTable, ScenarioOrder), "かぴ"), ["k", "a", "x", "p", "i"]);
            r.targetIndex == 2 == |r.targetStrokes| && r.totalMissCount == 1 && r.seqMissCount == 0
            && r.problemIndex == 1
  {
    ScenarioReverse();
    var e0 := LoadStrokeTable(Initial, ScenarioTable, ScenarioOrder);
    var e1 := SetTargetText(e0, "かぴ");
    ScenarioStrokes(e0);
    var keys := ["k", "a", "x", "p", "i"];
    assert keys == KeysOf("ka") + (["x"] + KeysOf("pi"));
    RunAppend(e1, KeysOf("ka"), ["x"] + KeysOf("pi"));
    TypeStroke(e1, "ka");
    var e2 := Advanced(e1);
    assert e2.targetIndex == 1;
    RunAppend(e2, ["x"], KeysOf("pi"));
    assert !("x" <= "pi");
    var e3 := Key(e2, "x").next;
    assert Run(e2, ["x"]) == e3;
    assert e3.totalMissCount == 1 && e3.targetIndex == 1 && e3.precomposition == "";
    TypeStroke(e3, "pi");
  }
}
