/**
 The typing-drill engine of the `Game` class. The engine's mutable fields are
 an immutable `Engine` record here, and every public method (and the body of
 the `keydown` listener) is a pure transition from one record to the next.
 A transition that can throw returns a `Step`: the state it leaves behind and
 the error it threw, if any (a throwing method keeps the assignments it made
 before throwing).
 */
module Game {
  import opened Wrappers
  import StrokeTable

  /** One target character and the key sequence that types it; `None` when the reverse table knows neither form of the character. */
  datatype Stroke = Stroke(sequence: Option<string>, character: char)

  /** The engine's state; `seqMissLimit` and the canvas are left out (only drawing reads them). */
  datatype Engine = Engine(
    strokeTable: StrokeTable.Table,
    reverseStrokeTable: StrokeTable.Table,
    precomposition: string,
    lastError: string,
    targetText: string,
    targetStrokes: seq<Stroke>,
    targetIndex: nat,
    seqMissCount: nat,
    problems: seq<string>,
    problemIndex: nat,
    totalMissCount: nat)

  datatype Error =
    | InvalidProblemNumber(idx: int)  // `setProblem` with an index outside the problem list
    | UnmappedStroke                  // `startsWith` called on the undefined sequence of the active stroke

  /** The state a transition leaves behind, and the error it threw. */
  datatype Step = Step(next: Engine, thrown: Option<Error>)

  /** The state of a freshly constructed engine. */
  const Initial: Engine := Engine(map[], map[], "", "", "", [], 0, 0, [], 0, 0)

  // ---------------------------------------------------------------------------
  // loadStrokeTable
  // ---------------------------------------------------------------------------

  /** Replaces the stroke table and rebuilds the reverse table from its entries, enumerated in `order`. */
  function LoadStrokeTable(e: Engine, table: StrokeTable.Table, order: seq<string>): (r: Engine)
    requires StrokeTable.Enumerates(order, table)
    ensures r.strokeTable == table
    // the reverse table holds exactly the table's characters, each with a sequence producing it
    ensures r.reverseStrokeTable.Keys == table.Values
    ensures forall c :: c in r.reverseStrokeTable ==> r.reverseStrokeTable[c] in table && table[r.reverseStrokeTable[c]] == c
    // of several sequences producing one character, the one enumerated last wins
    ensures forall i :: 0 <= i < |order| && (forall j :: i < j < |order| ==> table[order[j]] != table[order[i]]) ==>
              r.reverseStrokeTable[table[order[i]]] == order[i]
    // nothing else changes: in particular the current target is not rebuilt
    ensures r == e.(strokeTable := table, reverseStrokeTable := r.reverseStrokeTable)
  {
    StrokeTable.InvertKeys(table, order);
    StrokeTable.InvertLastWriters(table, order);
    e.(strokeTable := table, reverseStrokeTable := StrokeTable.Invert(table, order))
  }

  // ---------------------------------------------------------------------------
  // setTargetText
  // ---------------------------------------------------------------------------

  /** The katakana block that is folded onto hiragana before lookup. */
  const KatakanaFirst: int := 0x30A1
  const KatakanaLast: int := 0x30F6
  /** Distance from a katakana code point to its hiragana counterpart. */
  const KanaShift: int := 0x60

  predicate IsKatakana(c: char) {
    KatakanaFirst <= c as int <= KatakanaLast
  }

  /** The normalised form of a code point: katakana shifted down to hiragana, anything else unchanged. */
  function Normalize(c: char): (n: char)
    ensures IsKatakana(c) ==> n as int + KanaShift == c as int
    ensures !IsKatakana(c) ==> n == c
  {
    if IsKatakana(c) then (c as int - KanaShift) as char else c
  }

  /** Normalising twice is normalising once: the image of the katakana block lies outside it. */
  lemma NormalizeIdempotent(c: char)
    ensures Normalize(Normalize(c)) == Normalize(c)
    // katakana lands on the hiragana block U+3041..U+3096
    ensures IsKatakana(c) ==> 0x3041 <= Normalize(c) as int <= 0x3096 && !IsKatakana(Normalize(c))
  {
  }

  /**
   The sequence for a code point: the normalised form's entry, or-ed with the
   raw character's entry (a JavaScript `||`). The normalised form wins only
   when it maps to a non-empty sequence, since the empty string is falsy;
   otherwise the raw character's entry (possibly empty) is used, and neither
   entry means no sequence.
   */
  function LookupSequence(rev: StrokeTable.Table, c: char): (r: Option<string>)
    // a katakana whose hiragana form has a non-empty sequence takes that sequence
    ensures IsKatakana(c) && [Normalize(c)] in rev && rev[[Normalize(c)]] != "" ==> r == Some(rev[[Normalize(c)]])
    // otherwise the character is looked up as itself
    ensures !([Normalize(c)] in rev && rev[[Normalize(c)]] != "") ==> r == (if [c] in rev then Some(rev[[c]]) else None)
    // any other code point is looked up once, as itself
    ensures !IsKatakana(c) ==> r == (if [c] in rev then Some(rev[[c]]) else None)
  {
    var normalized := [Normalize(c)];
    if normalized in rev && rev[normalized] != "" then Some(rev[normalized])
    else if [c] in rev then Some(rev[[c]])
    else None
  }

  /** Every sequence a stroke can ask for is one the stroke table maps to the character or to its hiragana form. */
  lemma LookupProduces(e: Engine, c: char)
    requires forall d :: d in e.reverseStrokeTable ==> e.reverseStrokeTable[d] in e.strokeTable && e.strokeTable[e.reverseStrokeTable[d]] == d
    ensures LookupSequence(e.reverseStrokeTable, c).Some? ==>
              var s := LookupSequence(e.reverseStrokeTable, c).value;
              s in e.strokeTable && (e.strokeTable[s] == [Normalize(c)] || e.strokeTable[s] == [c])
  {
  }

  /** One stroke per code point of `text`, in order, each holding the original code point. */
  function TargetStrokes(rev: StrokeTable.Table, text: string): (strokes: seq<Stroke>)
    ensures |strokes| == |text|
    ensures forall i :: 0 <= i < |text| ==> strokes[i].character == text[i]
    ensures forall i :: 0 <= i < |text| ==> strokes[i].sequence == LookupSequence(rev, text[i])
    decreases |text|
  {
    if |text| == 0 then []
    else
      var c := text[|text| - 1];
      TargetStrokes(rev, text[..|text| - 1]) + [Stroke(LookupSequence(rev, c), c)]
  }

  /** The characters a run of strokes spells out. */
  function Spelled(strokes: seq<Stroke>): (text: string)
    ensures |text| == |strokes|
  {
    seq(|strokes|, i requires 0 <= i < |strokes| => strokes[i].character)
  }

  /** The strokes of a text spell that text back. */
  lemma SpelledTargetStrokes(rev: StrokeTable.Table, text: string)
    ensures Spelled(TargetStrokes(rev, text)) == text
  {
  }

  /** Everything but the target text, its strokes and the target index is the same in both states. */
  predicate SameOutsideTarget(e: Engine, r: Engine) {
    && r.strokeTable == e.strokeTable
    && r.reverseStrokeTable == e.reverseStrokeTable
    && r.precomposition == e.precomposition
    && r.lastError == e.lastError
    && r.seqMissCount == e.seqMissCount
    && r.problems == e.problems
    && r.problemIndex == e.problemIndex
    && r.totalMissCount == e.totalMissCount
  }

  /** Rebuilds the target run from `text` and moves back to its first stroke. */
  function SetTargetText(e: Engine, text: string): (r: Engine)
    ensures r.targetText == text
    ensures r.targetStrokes == TargetStrokes(e.reverseStrokeTable, text)
    ensures r.targetIndex == 0
    // the typed prefix, the last error and every counter survive
    ensures SameOutsideTarget(e, r)
  {
    e.(targetText := text, targetStrokes := TargetStrokes(e.reverseStrokeTable, text), targetIndex := 0)
  }

  /** Setting the same text twice is the same as setting it once. */
  lemma SetTargetTextIdempotent(e: Engine, text: string)
    ensures SetTargetText(SetTargetText(e, text), text) == SetTargetText(e, text)
  {
  }

  // ---------------------------------------------------------------------------
  // setProblems / setProblem / nextProblem
  // ---------------------------------------------------------------------------

  /** Selects problem `idx` and builds its target run, or throws when there is no such problem. */
  function SetProblem(e: Engine, idx: int): (r: Step)
    ensures r.thrown.Some? <==> idx < 0 || idx >= |e.problems|
    // a rejected index leaves everything, the problem index included, as it was
    ensures r.thrown.Some? ==> r == Step(e, Some(InvalidProblemNumber(idx)))
    ensures r.thrown.None? ==> r.next.problemIndex == idx && r.next.targetText == e.problems[idx]
    ensures r.thrown.None? ==> r.next == SetTargetText(e.(problemIndex := idx), e.problems[idx])
  {
    if idx < 0 || idx >= |e.problems| then Step(e, Some(InvalidProblemNumber(idx)))
    else
      var selected := e.(problemIndex := idx);
      Step(SetTargetText(selected, selected.problems[selected.problemIndex]), None)
  }

  /** Replaces the problem list, then selects its first problem; an empty list throws with the list already replaced. */
  function SetProblems(e: Engine, problems: seq<string>): (r: Step)
    ensures r.next.problems == problems
    ensures r.thrown.Some? <==> |problems| == 0
    ensures |problems| == 0 ==> r.next == e.(problems := problems) && r.next.problemIndex == e.problemIndex
    ensures |problems| > 0 ==> r.next.problemIndex == 0 && r.next.targetText == problems[0] && r.next.targetIndex == 0
    ensures |problems| > 0 ==> r.next.targetStrokes == TargetStrokes(e.reverseStrokeTable, problems[0])
    // the first problem is loaded exactly as setTargetText would load it ...
    ensures |problems| > 0 ==> r == Step(SetTargetText(e.(problems := problems, problemIndex := 0), problems[0]), None)
    // ... and an empty list is reported as problem number 0 being invalid
    ensures |problems| == 0 ==> r.thrown == Some(InvalidProblemNumber(0))
    // the typing state and the miss counts are carried over either way
    ensures r.next.precomposition == e.precomposition && r.next.lastError == e.lastError
    ensures r.next.seqMissCount == e.seqMissCount && r.next.totalMissCount == e.totalMissCount
  {
    SetProblem(e.(problems := problems), 0)
  }

  /** Moves to the following problem; past the last one only the index moves on. */
  function NextProblem(e: Engine): (r: Engine)
    // the index always increases by one, with no wrap-around
    ensures r.problemIndex == e.problemIndex + 1
    ensures r.problems == e.problems && r.totalMissCount == e.totalMissCount
    // a problem in range is loaded ...
    ensures e.problemIndex + 1 < |e.problems| ==>
              r == SetTargetText(e.(problemIndex := e.problemIndex + 1), e.problems[e.problemIndex + 1])
    // ... and past the end nothing else happens
    ensures e.problemIndex + 1 >= |e.problems| ==> r == e.(problemIndex := e.problemIndex + 1)
  {
    var advanced := e.(problemIndex := e.problemIndex + 1);
    if advanced.problemIndex < |advanced.problems| then SetProblem(advanced, advanced.problemIndex).next
    else advanced
  }

  // ---------------------------------------------------------------------------
  // The keydown listener
  // ---------------------------------------------------------------------------

  /** The key that erases the last typed character. */
  const Backspace: string := "Backspace"

  /** A key the matching logic looks at: one character long, while a stroke is still active. */
  predicate Typed(e: Engine, key: string) {
    key != Backspace && |key| == 1 && e.targetIndex < |e.targetStrokes|
  }

  /** The sequence of the active stroke. */
  function ActiveSequence(e: Engine): Option<string>
    requires e.targetIndex < |e.targetStrokes|
  {
    e.targetStrokes[e.targetIndex].sequence
  }

  /** The state right after the active stroke is typed in full, before the run-complete check. */
  function Advanced(e: Engine): (r: Engine)
    requires e.targetIndex < |e.targetStrokes|
    ensures r.targetIndex == e.targetIndex + 1 <= |r.targetStrokes|
    // the input buffer, the error display and the consecutive-miss count are cleared
    ensures r.precomposition == "" && r.lastError == "" && r.seqMissCount == 0
    // everything else is kept
    ensures r.targetText == e.targetText && r.targetStrokes == e.targetStrokes
    ensures r.problems == e.problems && r.problemIndex == e.problemIndex && r.totalMissCount == e.totalMissCount
    ensures r.strokeTable == e.strokeTable && r.reverseStrokeTable == e.reverseStrokeTable
  {
    e.(targetIndex := e.targetIndex + 1, precomposition := "", lastError := "", seqMissCount := 0)
  }

  /** One key press. */
  function Key(e: Engine, key: string): (r: Step)
    // only a typed key on an unmapped active stroke throws, and it changes nothing
    ensures r.thrown.Some? <==> Typed(e, key) && ActiveSequence(e).None?
    ensures r.thrown.Some? ==> r == Step(e, Some(UnmappedStroke))
    // the run-wide miss counter never decreases, and rises by at most one
    ensures e.totalMissCount <= r.next.totalMissCount <= e.totalMissCount + 1
    // Backspace edits only the typed prefix, dropping its last character if it has one
    ensures key == Backspace ==>
              && r.thrown.None?
              && r.next == e.(precomposition := r.next.precomposition)
              && (e.precomposition == "" ==> r.next.precomposition == "")
              && (e.precomposition != "" ==>
                    r.next.precomposition + [e.precomposition[|e.precomposition| - 1]] == e.precomposition)
    // any other key longer or shorter than one character, or any key once the run is complete, is ignored
    ensures key != Backspace && !Typed(e, key) ==> r == Step(e, None)
    // exact match: move to the next stroke with the typed prefix, error and per-stroke misses cleared
    ensures Typed(e, key) && ActiveSequence(e) == Some(e.precomposition + key) ==>
              && r.thrown.None?
              && r.next.precomposition == "" && r.next.lastError == "" && r.next.seqMissCount == 0
              && r.next.totalMissCount == e.totalMissCount
              && (e.targetIndex + 1 < |e.targetStrokes| ==>
                    r.next == e.(targetIndex := e.targetIndex + 1, precomposition := "", lastError := "", seqMissCount := 0))
              // completing the run hands over to the next problem
              && (e.targetIndex + 1 == |e.targetStrokes| ==> r.next == NextProblem(Advanced(e)))
    // proper prefix: keep what was typed; nothing else but the error changes
    ensures Typed(e, key) && ActiveSequence(e).Some? && e.precomposition + key < ActiveSequence(e).value ==>
              r == Step(e.(precomposition := e.precomposition + key, lastError := ""), None)
    // miss: remember the rejected buffer, start over, and count one miss on both counters
    ensures Typed(e, key) && ActiveSequence(e).Some? && !(e.precomposition + key <= ActiveSequence(e).value) ==>
              r == Step(e.(lastError := e.precomposition + key, precomposition := "",
                           seqMissCount := e.seqMissCount + 1, totalMissCount := e.totalMissCount + 1), None)
  {
    if key == Backspace then
      if e.precomposition != "" then
        var p := e.precomposition;
        assert p[..|p| - 1] + [p[|p| - 1]] == p;
        Step(e.(precomposition := p[..|p| - 1]), None)
      else Step(e, None)
    else if |key| == 1 && e.targetIndex < |e.targetStrokes| then
      var current := e.targetStrokes[e.targetIndex];
      var buf := e.precomposition + key;
      if current.sequence == Some(buf) then
        var advanced := Advanced(e);
        Step(if advanced.targetIndex == |advanced.targetStrokes| then NextProblem(advanced) else advanced, None)
      else if current.sequence.None? then
        Step(e, Some(UnmappedStroke))
      else if buf <= current.sequence.value then
        Step(e.(precomposition := buf, lastError := ""), None)
      else
        Step(e.(lastError := buf, precomposition := "",
                seqMissCount := e.seqMissCount + 1, totalMissCount := e.totalMissCount + 1), None)
    else
      Step(e, None)
  }

  // ---------------------------------------------------------------------------
  // The cursor invariant
  // ---------------------------------------------------------------------------

  /** A typed prefix that can still be completed: empty, or a proper prefix of the sequence. */
  predicate Pending(p: string, s: string) {
    p == "" || p < s
  }

  /** The target index stays within the run, and the typed prefix stays a proper prefix of the active sequence. */
  predicate Consistent(e: Engine) {
    && e.targetIndex <= |e.targetStrokes|
    && (e.targetIndex < |e.targetStrokes| && ActiveSequence(e).Some? ==>
          Pending(e.precomposition, ActiveSequence(e).value))
  }

  lemma InitialConsistent()
    ensures Consistent(Initial)
  {
  }

  /** A new target run is consistent when nothing was left typed; a leftover prefix carries over unchecked. */
  lemma SetTargetTextConsistent(e: Engine, text: string)
    requires e.precomposition == ""
    ensures Consistent(SetTargetText(e, text))
  {
  }

  /** A prefix left over from the previous run can break consistency: setting a text does not clear it. */
  lemma SetTargetTextKeepsStalePrefix()
    ensures !Consistent(SetTargetText(Initial.(precomposition := "k", reverseStrokeTable := map["あ" := "a"]), "あ"))
  {
    var e := Initial.(precomposition := "k", reverseStrokeTable := map["あ" := "a"]);
    var r := SetTargetText(e, "あ");
    assert r.targetStrokes[0].sequence == LookupSequence(e.reverseStrokeTable, 'あ');
    assert LookupSequence(e.reverseStrokeTable, 'あ') == Some("a");
    assert !("k" < "a") by {
      assert "k"[0] != "a"[0];
    }
  }

  /** Loading a table rebuilds nothing, so it keeps consistency. */
  lemma LoadStrokeTableConsistent(e: Engine, table: StrokeTable.Table, order: seq<string>)
    requires StrokeTable.Enumerates(order, table)
    requires Consistent(e)
    ensures Consistent(LoadStrokeTable(e, table, order))
  {
  }

  /** Moving to the next problem from a cleared prefix keeps consistency. */
  lemma NextProblemConsistent(e: Engine)
    requires e.precomposition == ""
    requires e.targetIndex == |e.targetStrokes|
    ensures Consistent(NextProblem(e))
  {
    if e.problemIndex + 1 < |e.problems| {
      SetTargetTextConsistent(e.(problemIndex := e.problemIndex + 1), e.problems[e.problemIndex + 1]);
    }
  }

  /** Every key press keeps the cursor consistent. */
  lemma KeyConsistent(e: Engine, key: string)
    requires Consistent(e)
    ensures Consistent(Key(e, key).next)
  {
    if Typed(e, key) && ActiveSequence(e) == Some(e.precomposition + key) {
      if e.targetIndex + 1 == |e.targetStrokes| {
        NextProblemConsistent(Advanced(e));
      }
    } else if key == Backspace && e.precomposition != "" &&
              e.targetIndex < |e.targetStrokes| && ActiveSequence(e).Some? {
      var p, s := e.precomposition, ActiveSequence(e).value;
      assert Key(e, key).next == e.(precomposition := p[..|p| - 1]);
      assert p[..|p| - 1] < s by {
        assert forall i :: 0 <= i < |p| - 1 ==> p[..|p| - 1][i] == p[i] == s[i];
      }
    } else if Typed(e, key) && ActiveSequence(e).Some? && e.precomposition + key <= ActiveSequence(e).value {
      var buf, s := e.precomposition + key, ActiveSequence(e).value;
      assert buf != s;
      assert buf < s;
    }
  }

  // ---------------------------------------------------------------------------
  // Colour classification
  // ---------------------------------------------------------------------------

  datatype Color = Blue | Black | DarkGray | Gray | Green

  /** The colour of the character at `pos` when the cursor is at `cur`. */
  function TextColor(pos: int, cur: int): (c: Color)
    // typed characters are black, the active one blue, pending ones dark grey
    ensures c == Blue <==> pos == cur
    ensures c == Black <==> pos < cur
    ensures c == DarkGray <==> pos > cur
  {
    if pos == cur then Blue
    else if pos < cur then Black
    else if pos > cur then DarkGray
    else assert false; Blue
  }

  /** The colour of the sequence hint at `pos` when the cursor is at `cur`. */
  function SequenceColor(pos: int, cur: int): (c: Color)
    // typed sequences are green, the active and pending ones grey
    ensures c == Green <==> pos < cur
    ensures c == Gray <==> pos >= cur
  {
    if pos == cur then Gray
    else if pos < cur then Green
    else if pos > cur then Gray
    else assert false; Gray
  }

  /** The three text colours tell apart the typed, active and pending characters; only typed sequences show green. */
  lemma ColorTrichotomy(pos: int, cur: int)
    ensures TextColor(pos, cur) in {Blue, Black, DarkGray}
    ensures SequenceColor(pos, cur) == Green <==> TextColor(pos, cur) == Black
    ensures SequenceColor(pos, cur) == Gray <==> TextColor(pos, cur) != Black
  {
  }

  /** How many of `cs` are `c`. */
  function Count(cs: seq<Color>, c: Color): (n: nat)
    ensures n <= |cs|
    decreases |cs|
  {
    if |cs| == 0 then 0 else Count(cs[..|cs| - 1], c) + (if cs[|cs| - 1] == c then 1 else 0)
  }

  /** The text colours of a run of `n` characters with the cursor at `cur`. */
  function RunColors(n: nat, cur: int): (cs: seq<Color>)
    ensures |cs| == n
  {
    seq(n, i requires 0 <= i < n => TextColor(i, cur))
  }

  /** In a run drawn with the cursor at `cur`, exactly `cur` characters are black, one is blue unless the run is complete, and the rest are dark gray. */
  lemma {:induction false} RunColorCounts(n: nat, cur: nat)
    requires cur <= n
    ensures Count(RunColors(n, cur), Black) == cur
    ensures Count(RunColors(n, cur), Blue) == (if cur < n then 1 else 0)
    ensures Count(RunColors(n, cur), DarkGray) == (if cur < n then n - cur - 1 else 0)
    decreases n
  {
    if n > 0 {
      assert RunColors(n, cur)[..n - 1] == RunColors(n - 1, cur);
      if cur == n {
        AllTypedColors(n - 1, cur);
      } else if cur == n - 1 {
        AllTypedColors(n - 1, cur);
      } else {
        RunColorCounts(n - 1, cur);
      }
    }
  }

  /** With the cursor at or past the end, every character is black. */
  lemma {:induction false} AllTypedColors(n: nat, cur: int)
    requires n <= cur
    ensures Count(RunColors(n, cur), Black) == n
    ensures Count(RunColors(n, cur), Blue) == 0
    ensures Count(RunColors(n, cur), DarkGray) == 0
    decreases n
  {
    if n > 0 {
      assert RunColors(n, cur)[..n - 1] == RunColors(n - 1, cur);
      AllTypedColors(n - 1, cur);
    }
  }
}
