/**
 From the conversion script's input to the engine's reverse table: the lines
 are converted to a mapping, printed as JSON, loaded as the stroke table and
 inverted. For a file in which every line holds both fields, the JSON object
 carries the mapping unchanged.
 */
module Pipeline {
  import opened Wrappers
  import StrokeTable
  import Convert
  import Assoc
  import Game

  /** Every key and every value of the mapping is present: no line lacked a field. */
  predicate Complete(m: Convert.Mapping) {
    forall k :: k in m ==> k.Some? && m[k].Some?
  }

  /** The stroke table the engine receives for a complete mapping. */
  function Exported(m: Convert.Mapping): (t: StrokeTable.Table)
    requires Complete(m)
    ensures forall s :: s in t <==> Some(s) in m
    ensures forall s :: s in t ==> Some(t[s]) == m[Some(s)]
  {
    map k | k in m :: k.value := m[k].value
  }

  /** The lines `sequence character` of a table file, one per entry. */
  function TableLines(strokes: seq<string>, chars: seq<string>): (lines: seq<string>)
    requires |strokes| == |chars|
    ensures |lines| == |strokes|
  {
    seq(|strokes|, j requires 0 <= j < |strokes| => Convert.Layout([strokes[j], chars[j]], [" ", "\n"]))
  }

  predicate Distinct(xs: seq<string>) {
    forall i, j :: 0 <= i < j < |xs| ==> xs[i] != xs[j]
  }

  /** Each line of a table file parses back to its own sequence and character. */
  lemma ParseTableLines(strokes: seq<string>, chars: seq<string>, j: nat)
    requires |strokes| == |chars| && j < |strokes|
    requires Convert.IsWord(strokes[j]) && Convert.IsWord(chars[j])
    ensures Convert.ParseLine(TableLines(strokes, chars)[j]) == (Some(strokes[j]), Some(chars[j]))
  {
    var ws, gaps := [strokes[j], chars[j]], [" ", "\n"];
    assert Convert.Spaced(ws, gaps);
    assert "" + Convert.Layout(ws, gaps) == TableLines(strokes, chars)[j];
    Convert.ParseTableLine("", ws, gaps);
  }

  /** The entries a table file is meant to produce. */
  function Pairs(strokes: seq<string>, chars: seq<string>): (es: seq<(Option<string>, Option<string>)>)
    requires |strokes| == |chars|
    ensures |es| == |strokes|
  {
    seq(|strokes|, j requires 0 <= j < |strokes| => (Some(strokes[j]), Some(chars[j])))
  }

  /** The conversion loop assigns exactly those entries, in file order. */
  lemma TableEntries(strokes: seq<string>, chars: seq<string>)
    requires |strokes| == |chars|
    requires forall j :: 0 <= j < |strokes| ==> Convert.IsWord(strokes[j]) && Convert.IsWord(chars[j])
    ensures Convert.LineEntries(TableLines(strokes, chars)) == Pairs(strokes, chars)
  {
    forall j | 0 <= j < |strokes|
      ensures Convert.LineEntries(TableLines(strokes, chars))[j] == Pairs(strokes, chars)[j]
    {
      ParseTableLines(strokes, chars, j);
    }
  }

  /** Converting the lines of a table file performs exactly the intended assignments. */
  lemma ConvertTableLines(strokes: seq<string>, chars: seq<string>)
    requires |strokes| == |chars|
    requires forall j :: 0 <= j < |strokes| ==> Convert.IsWord(strokes[j]) && Convert.IsWord(chars[j])
    ensures Convert.ConvertLines(TableLines(strokes, chars)) == Assoc.Assign(Pairs(strokes, chars))
  {
    TableEntries(strokes, chars);
  }

  /** With distinct sequences, every entry survives and no field is missing. */
  lemma AssignPairs(strokes: seq<string>, chars: seq<string>)
    requires |strokes| == |chars|
    requires Distinct(strokes)
    ensures Complete(Assoc.Assign(Pairs(strokes, chars)))
    ensures forall k :: k in Assoc.Assign(Pairs(strokes, chars)) ==> k.value in strokes
    ensures forall j :: 0 <= j < |strokes| ==>
              && Some(strokes[j]) in Assoc.Assign(Pairs(strokes, chars))
              && Assoc.Assign(Pairs(strokes, chars))[Some(strokes[j])] == Some(chars[j])
  {
    var es := Pairs(strokes, chars);
    var m := Assoc.Assign(es);
    forall j | 0 <= j < |es|
      ensures Some(strokes[j]) in m && m[Some(strokes[j])] == Some(chars[j])
    {
      Assoc.DistinctKeysSurvive(es, j);
    }
    forall k | k in m
      ensures k.Some? && m[k].Some? && k.value in strokes
    {
      var i :| 0 <= i < |es| && es[i] == (k, m[k]);
    }
  }

  /** The stroke table a table file with distinct sequences turns into. */
  function ConvertedTable(strokes: seq<string>, chars: seq<string>): (t: StrokeTable.Table)
    requires |strokes| == |chars|
    requires forall j :: 0 <= j < |strokes| ==> Convert.IsWord(strokes[j]) && Convert.IsWord(chars[j])
    requires Distinct(strokes)
    ensures forall s :: s in t <==> s in strokes
    ensures forall j :: 0 <= j < |strokes| ==> t[strokes[j]] == chars[j]
  {
    ConvertTableLines(strokes, chars);
    AssignPairs(strokes, chars);
    Exported(Convert.ConvertLines(TableLines(strokes, chars)))
  }

  /**
   Parse then invert: for a table file whose sequences are distinct and whose
   characters are distinct, the engine's reverse table sends every character
   back to the sequence on its line, whatever order the entries are enumerated in.
   */
  lemma ParseThenInvert(strokes: seq<string>, chars: seq<string>, order: seq<string>, i: nat)
    requires |strokes| == |chars| && i < |strokes|
    requires forall j :: 0 <= j < |strokes| ==> Convert.IsWord(strokes[j]) && Convert.IsWord(chars[j])
    requires Distinct(strokes) && Distinct(chars)
    requires Distinct(order) && forall s :: s in order <==> s in strokes
    ensures StrokeTable.Enumerates(order, ConvertedTable(strokes, chars))
    ensures StrokeTable.Invert(ConvertedTable(strokes, chars), order)[chars[i]] == strokes[i]
  {
    var t := ConvertedTable(strokes, chars);
    assert StrokeTable.Injective(t) by {
      forall s, u | s in t && u in t && s != u
        ensures t[s] != t[u]
      {
        var a :| 0 <= a < |strokes| && strokes[a] == s;
        var b :| 0 <= b < |strokes| && strokes[b] == u;
        assert a != b;
      }
    }
    StrokeTable.InvertRoundTrip(t, order, strokes[i]);
  }

  /**
   And the engine then asks for that sequence: once the converted table is
   loaded, a character of the file that is not katakana gets the sequence on
   its line as its stroke.
   */
  lemma ParseLoadLookup(e: Game.Engine, strokes: seq<string>, chars: seq<string>, order: seq<string>, i: nat, c: char)
    requires |strokes| == |chars| && i < |strokes|
    requires forall j :: 0 <= j < |strokes| ==> Convert.IsWord(strokes[j]) && Convert.IsWord(chars[j])
    requires Distinct(strokes) && Distinct(chars)
    requires Distinct(order) && forall s :: s in order <==> s in strokes
    requires chars[i] == [c] && !Game.IsKatakana(c)
    ensures StrokeTable.Enumerates(order, ConvertedTable(strokes, chars))
    ensures Game.SetTargetText(Game.LoadStrokeTable(e, ConvertedTable(strokes, chars), order), [c]).targetStrokes[0]
              == Game.Stroke(Some(strokes[i]), c)
  {
    ParseThenInvert(strokes, chars, order, i);
  }
}
