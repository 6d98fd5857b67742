# kanchoku-trainer: the typing-drill engine, in Dafny

This project models the core of a direct-input ("kanchoku") typing tutor. The
tutor shows a target text one character at a time. It maps each character to
the key sequence that types it, using the reverse of a stroke table. It then
matches keystrokes against that sequence, counting misses, and steps through a
list of problem texts.

The model covers two parts of the source:

- `Game` in `src/game/main.ts`. The engine's fields are an immutable `Engine`
  record. Each public method, and the body of the `keydown` listener, is a pure
  function from one record to the next. A method that can throw returns a
  `Step`: the state it leaves behind and the error it threw, if any. A throwing
  method keeps the assignments it made before the throw.
- The converter `tools/convert.rb`. It turns `sequence<whitespace>char` lines
  into the stroke table the engine loads.

Modules, one per file:

| file | module | models |
|---|---|---|
| `wrappers.dfy` | `Wrappers` | `Option`, for `undefined` / `nil` |
| `assoc.dfy` | `Assoc` | a map built by assignments in order, where the last writer wins; both the reverse-table loop and the converter's hash use it |
| `stroke_table.dfy` | `StrokeTable` | the reverse table built by `loadStrokeTable` |
| `convert.dfy` | `Convert` | `each_line`, `chomp`, `split` and the loop that stores each line's entry |
| `game.dfy` | `Game` | engine state, `setTargetText`, the problem sequencer, the `keydown` transition, the cursor invariant, the colour helpers |
| `game_runs.dfy` | `Runs` | sequences of key presses: typing a prefix, a stroke, a run, a whole problem set |
| `pipeline.dfy` | `Pipeline` | converting a table file, loading it, then inverting it |

Behaviour of the code worth knowing:

- `setTargetText` resets only `targetIndex`. The typed prefix, `lastError` and
  `seqMissCount` carry over into the new run (`Game.SetTargetTextKeepsStalePrefix`).
- `setProblems([])` replaces `problems` and then throws. It does not leave the
  prior state untouched.
- `nextProblem` on the last problem only moves `problemIndex` to
  `|problems|`. It emits no event.
- A key typed while the active stroke has no sequence throws a `TypeError`
  from `startsWith`, before anything changes. The run stalls on that character
  (`Runs.UnmappedStrokeStalls`).
- `src/app/page.tsx` calls `getPerformanceTable()` (line 54) and
  `on('problemSetFinished', …)` (line 86) on the game. `main.ts` defines
  neither method.
- An empty problem text gives a run with no strokes, complete from the start.
  Every key is then ignored, so `nextProblem` is never reached and the drill
  stays on that problem (`Runs.EmptyProblemStalls`).
- A stroke whose sequence is the empty string can never be typed. Every
  one-character key is a miss on both counters, and the cursor stays on that
  stroke (`Runs.EmptySequenceStalls`).
- The sequence lookup joins the normalised and the raw lookup with a
  JavaScript `||`. An empty sequence for the hiragana form is falsy, so the
  lookup falls back to the raw character.

## Model

| member | source | states |
|---|---|---|
| Assoc.Assign | src/game/main.ts:70-72 | each assigned key is present, and every binding comes from one of the entries |
| Assoc.LastWriterWins | src/game/main.ts:70-72 | a key holds the value of the last entry that names it |
| Assoc.DistinctKeysSurvive | tools/convert.rb:4-7 | when no key repeats, every entry appears unchanged in the map |
| StrokeTable.Invert | src/game/main.ts:69-73 | every enumerated character is in the reverse table, and its sequence is a table key that produces that character |
| StrokeTable.InvertKeys | src/game/main.ts:70-72 | the reverse table's characters are exactly the table's values |
| StrokeTable.InvertLastWriter | src/game/main.ts:70-72 | a character maps to the last sequence, in enumeration order, that produces it |
| StrokeTable.InvertRoundTrip | src/game/main.ts:67-74 | for an injective table, the reverse of `table[s]` is `s`, in any enumeration order |
| Convert.EachLine | tools/convert.rb:4 | the lines concatenate back to the input; each ends at its first line feed, and only the last may lack one |
| Convert.Chomp | tools/convert.rb:5 | a trailing "\r\n" is removed as a pair; otherwise a lone trailing "\n" or "\r" is removed; a line ending in neither is unchanged |
| Convert.Fields | tools/convert.rb:5 | every field is non-empty and contains no whitespace, and the fields together are exactly the line's non-whitespace characters in order |
| Convert.FieldsOfSpace | tools/convert.rb:5 | an all-whitespace line has no fields |
| Convert.FieldsTrailingSpace | tools/convert.rb:5 | trailing whitespace adds no field |
| Convert.FieldsLeadingSpace | tools/convert.rb:5 | leading whitespace adds no field |
| Convert.FieldsLayout | tools/convert.rb:5 | words separated by any non-empty runs of whitespace, with any trailing whitespace, split back into exactly those words |
| Convert.ChompKeepsFields | tools/convert.rb:5 | removing the line terminator does not change the fields |
| Convert.Nth | tools/convert.rb:5 | multiple assignment reads element i, or nil when the array is shorter |
| Convert.ParseLine | tools/convert.rb:5 | the stroke is the first field and the character the second; later fields are ignored; a character never comes without a stroke |
| Convert.ParseTableLine | tools/convert.rb:5-6 | a line `seq char [more fields]`, with any leading, separating and trailing whitespace, yields exactly (seq, char) |
| Convert.ParseIndentedLine | tools/convert.rb:5 | the line "  ka\t\tか  x\r\n" yields (ka, か) |
| Convert.ParseSingleField | tools/convert.rb:5 | a one-field line, with any surrounding whitespace, yields a stroke with a nil character |
| Convert.ParseBlankLine | tools/convert.rb:5 | a blank line yields a nil stroke and a nil character |
| Convert.ConvertLines | tools/convert.rb:3-7 | the keys are exactly the lines' strokes, and each binding comes from some line |
| Convert.ConvertText | tools/convert.rb:3-7 | every line's stroke becomes a key of the printed mapping |
| Convert.ConvertLastWriter | tools/convert.rb:6 | a later line with the same stroke overwrites the earlier one |
| Game.LoadStrokeTable | src/game/main.ts:67-74 | stores the table; the reverse table holds exactly its characters, each with a sequence that produces it; a character takes the last enumerated sequence that produces it; the current run is not rebuilt |
| Game.Normalize | src/game/main.ts:80-83 | a code point in U+30A1..U+30F6 moves down by 0x60; any other code point is unchanged |
| Game.NormalizeIdempotent | src/game/main.ts:80-83 | normalising twice is normalising once; katakana lands in U+3041..U+3096 |
| Game.LookupSequence | src/game/main.ts:84 | a katakana whose hiragana form has a non-empty sequence uses that sequence; otherwise the character is looked up as itself; other code points are looked up once |
| Game.LookupProduces | src/game/main.ts:84 | with a genuine reverse table, a stroke's sequence is one the table maps to the character or to its hiragana form |
| Game.TargetStrokes | src/game/main.ts:78-86 | one stroke per code point, in order, holding the original code point and its looked-up sequence |
| Game.SpelledTargetStrokes | src/game/main.ts:79-86 | the strokes' characters spell the target text back |
| Game.SetTargetText | src/game/main.ts:76-89 | sets the text and rebuilds the strokes; the target index becomes 0; the typed prefix, last error, counters, tables and problem fields are untouched |
| Game.SetTargetTextIdempotent | src/game/main.ts:76-89 | setting the same text twice equals setting it once |
| Game.SetProblem | src/game/main.ts:96-102 | throws exactly when idx < 0 or idx >= \|problems\|, changing nothing; otherwise selects the problem and rebuilds its run |
| Game.SetProblems | src/game/main.ts:91-94 | problems are always replaced; an empty list throws "invalid problem number 0" and keeps the old problem index; otherwise problem 0 is loaded exactly as setTargetText loads it; the typed prefix, error and miss counts carry over |
| Game.NextProblem | src/game/main.ts:109-114 | the problem index always rises by one; a problem in range is loaded; past the end nothing else changes |
| Game.Advanced | src/game/main.ts:45-48 | the target index moves one stroke on and stays within the run; the typed prefix, error and stroke misses are cleared; every other field is kept |
| Game.Key | src/game/main.ts:37-60 | Backspace drops only the last typed character; other keys not one character long, and any key after the run is complete, change nothing; an exact match advances and clears the prefix, error and stroke misses, and calls nextProblem on completion; a proper prefix extends the typed prefix and clears the error; a miss records the buffer and adds exactly one to both miss counters; only an unmapped active stroke throws, changing nothing; the total miss count never decreases |
| Game.InitialConsistent | src/game/main.ts:12-28 | a fresh engine satisfies the cursor invariant |
| Game.SetTargetTextConsistent | src/game/main.ts:76-89 | with nothing typed, a new run satisfies the cursor invariant |
| Game.SetTargetTextKeepsStalePrefix | src/game/main.ts:76-89 | a prefix left over from the previous run can break the invariant, because setTargetText does not clear it |
| Game.LoadStrokeTableConsistent | src/game/main.ts:67-74 | loading a table keeps the cursor invariant |
| Game.NextProblemConsistent | src/game/main.ts:109-114 | moving to the next problem after a completed run keeps the cursor invariant |
| Game.KeyConsistent | src/game/main.ts:37-60 | every key press keeps 0 <= targetIndex <= \|targetStrokes\| and the typed prefix empty or a proper prefix of the active sequence |
| Game.TextColor | src/game/main.ts:135-145 | blue exactly at the cursor, black exactly before it, dark gray exactly after it |
| Game.SequenceColor | src/game/main.ts:147-157 | green exactly before the cursor, gray at and after it |
| Game.ColorTrichotomy | src/game/main.ts:135-157 | every text colour is blue, black or dark gray; the sequence is green exactly where the text is black, gray elsewhere |
| Game.RunColorCounts | src/game/main.ts:122-123 | drawn with the cursor at targetIndex, exactly targetIndex characters are black, one is blue unless the run is complete, and the rest are dark gray |
| Game.AllTypedColors | src/game/main.ts:122-123 | with the cursor at or past the end, every character is black |
| Runs.Run | src/game/main.ts:35-63 | over a sequence of key events, the total miss count never decreases and rises by at most one per key |
| Runs.RunConsistent | src/game/main.ts:37-60 | any sequence of key presses keeps the cursor invariant |
| Runs.RunAppend | src/game/main.ts:35-63 | delivering a then b is the same as delivering a + b |
| Runs.TypePrefix | src/game/main.ts:52-54 | typing more of a proper prefix of the active sequence only extends the typed prefix: no advance, no miss, error cleared |
| Runs.TypeStroke | src/game/main.ts:44-54 | typing the whole active sequence from an empty prefix completes the stroke with no miss |
| Runs.CompleteRun | src/game/main.ts:44-51 | typing every remaining sequence exactly reaches the end of the run with the prefix, error and stroke misses cleared, then hands over to nextProblem |
| Runs.CompleteLastRun | src/game/main.ts:44-51 | on the last problem, typing the rest of the run exactly counts no miss and leaves the run complete with no wrap-around |
| Runs.CompleteProblemsFrom | src/game/main.ts:109-114 | from the start of problem k, typing every remaining problem exactly moves the index to \|problems\| without a miss |
| Runs.CompleteProblemSet | src/game/main.ts:91-114 | after setProblems, typing every problem exactly ends with the index one past the last and no miss |
| Runs.CompletedRunIgnoresKeys | src/game/main.ts:37-41 | once the run is complete, key presses change at most the typed prefix, and nothing if it is empty |
| Runs.UnmappedStrokeStalls | src/game/main.ts:42-52 | an active stroke with no sequence is never passed and never counts a miss |
| Runs.EmptyProblemStalls | src/game/main.ts:37-41 | after setProblems with an empty first text, key presses change at most the typed prefix and the problem index stays 0 |
| Runs.EmptySequenceStalls | src/game/main.ts:42-58 | an active stroke with an empty sequence is never passed; each one-character key adds one to both miss counters |
| Runs.KanaScenario | src/game/main.ts:37-87 | table {ka: か, pi: ぴ}, text かぴ, keys k a x p i: the run completes with one miss in all |
| Pipeline.ParseTableLines | tools/convert.rb:5 | each generated table line parses back to its sequence and character |
| Pipeline.TableEntries | tools/convert.rb:4-6 | the conversion loop assigns exactly the file's (sequence, character) pairs, in order |
| Pipeline.ConvertTableLines | tools/convert.rb:3-7 | converting a table file gives the map built from its pairs |
| Pipeline.AssignPairs | tools/convert.rb:6 | with distinct sequences, every pair survives and no field is missing |
| Pipeline.ConvertedTable | tools/convert.rb:3-7 | the table from a file with distinct sequences has exactly those sequences, each bound to its line's character |
| Pipeline.ParseThenInvert | src/game/main.ts:67-74 | converting a file with distinct sequences and characters, then inverting, sends each character back to the sequence on its line |
| Pipeline.ParseLoadLookup | src/game/main.ts:84 | after loading the converted table, a non-katakana character of the file gets the sequence on its line as its stroke |

## Left out

- `draw`, `Canvas` and all of `src/game/canvas.ts` are pixel output. Only the
  colour helpers are kept.
- The DOM listener registration in `init`, `console.debug` and the `draw()`
  calls after each change are left out. The listener body is the pure function
  `Game.Key`. Key events are the `keys` argument of `Runs.Run`.
- `seqMissLimit` and `setSequenceMissLimit` are left out because only `draw`
  reads them. The unused `text` field is left out because nothing writes it.
- The stroke table's enumeration order is a parameter. `Object.entries` lists
  integer-like keys first in ascending order, then the rest in insertion
  order; the model does not compute that order.
- Plain-object quirks are left out: assigning to the key `__proto__` is
  silently dropped. Lookups are by single code points, so they never reach
  such keys.
- UTF-16 details are left out. A text is a sequence of Unicode scalar values,
  so lone surrogates are not modelled. A key counts as "one character" when it
  is one code point, whereas the source checks for one UTF-16 code unit.
- Problem indices are integers. A fractional or NaN index passed to
  `setProblem` is not modelled.
- The exception message text is left out. `InvalidProblemNumber` carries only
  the index.
- `src/app/page.tsx` is React UI. It covers random problem generation, the
  `fetch` POST and rankings over `getPerformanceTable`/`on`, which `main.ts`
  does not define. `src/app/api/score/route.ts` is left out for the same
  reason: it is schema validation, file writes and a timestamp.
- The JSON printing in `tools/convert.rb` is left out. `Pipeline` models the
  hand-off only for files in which every line has both fields. A `nil` key or
  value would change under JSON's `""`/`null` encoding and JavaScript's string
  coercion.
- Several input files given to `ARGF` are modelled as one text. Ruby's
  handling of invalid byte sequences is left out.
- Convert.ConvertText: states only that each line's stroke is a key.
  `Convert.ConvertLines` and `Convert.ConvertLastWriter` state the rest.
