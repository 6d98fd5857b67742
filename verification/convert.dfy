/**
 The offline conversion script: every input line `sequence<whitespace>char`
 becomes one entry, sequence to character, of the stroke table. Ruby's
 `String#split` without arguments splits on runs of whitespace and ignores
 leading and trailing whitespace; multiple assignment leaves a name `nil`
 when the split yields too few fields, so fields are modelled as `Option`.
 */
module Convert {
  import opened Wrappers
  import Assoc

  /** The table the script builds: keys and values may be `nil`. */
  type Mapping = map<Option<string>, Option<string>>

  /** Ruby's whitespace for splitting: space, and tab through carriage return. */
  predicate IsSpace(c: char) {
    c == ' ' || 9 <= c as int <= 13
  }

  predicate AllSpace(s: string) {
    forall i :: 0 <= i < |s| ==> IsSpace(s[i])
  }

  /** A field: a non-empty run of non-whitespace characters. */
  predicate IsWord(w: string) {
    |w| > 0 && forall i :: 0 <= i < |w| ==> !IsSpace(w[i])
  }

  // ---------------------------------------------------------------------------
  // Line splitting (`each_line`)
  // ---------------------------------------------------------------------------

  /** Length of the first line of `s`: up to and including its first line feed, or all of `s`. */
  function LineLength(s: string): (n: nat)
    requires |s| > 0
    ensures 0 < n <= |s|
    ensures forall i :: 0 <= i < n - 1 ==> s[i] != '\n'
    ensures n < |s| ==> s[n - 1] == '\n'
    decreases |s|
  {
    if s[0] == '\n' || |s| == 1 then 1 else 1 + LineLength(s[1..])
  }

  function Concat(lines: seq<string>): string
    decreases |lines|
  {
    if |lines| == 0 then "" else lines[0] + Concat(lines[1..])
  }

  /** The lines `each_line` yields: each keeps its line feed, the last one may lack it. */
  function EachLine(text: string): (lines: seq<string>)
    // nothing is lost or reordered
    ensures Concat(lines) == text
    ensures forall k :: 0 <= k < |lines| ==> |lines[k]| > 0
    // every line but the last ends in a line feed, and none holds one anywhere else
    ensures forall k :: 0 <= k < |lines| - 1 ==> lines[k][|lines[k]| - 1] == '\n'
    ensures forall k, i :: 0 <= k < |lines| && 0 <= i < |lines[k]| - 1 ==> lines[k][i] != '\n'
    decreases |text|
  {
    if |text| == 0 then []
    else
      var n := LineLength(text);
      assert text == text[..n] + text[n..];
      [text[..n]] + EachLine(text[n..])
  }

  // ---------------------------------------------------------------------------
  // `chomp` and `split`
  // ---------------------------------------------------------------------------

  /** `String#chomp`: drops one trailing "\r\n", "\n" or "\r". */
  function Chomp(line: string): (r: string)
    // only a line terminator is removed, and only from the end
    ensures exists t :: line == r + t && (t == "" || t == "\n" || t == "\r" || t == "\r\n")
    // a carriage return and line feed go together
    ensures |line| >= 2 && line[|line| - 2..] == "\r\n" ==> r == line[..|line| - 2]
    // a lone line feed or a lone carriage return goes on its own
    ensures |line| >= 1 && line[|line| - 1] == '\n' && (|line| == 1 || line[|line| - 2] != '\r') ==> r == line[..|line| - 1]
    ensures |line| >= 1 && line[|line| - 1] == '\r' ==> r == line[..|line| - 1]
    // a line that ends in neither terminator character is left alone
    ensures |line| == 0 || (line[|line| - 1] != '\n' && line[|line| - 1] != '\r') ==> r == line
  {
    if |line| >= 2 && line[|line| - 2..] == "\r\n" then
      assert line == line[..|line| - 2] + "\r\n";
      line[..|line| - 2]
    else if |line| >= 1 && (line[|line| - 1] == '\n' || line[|line| - 1] == '\r') then
      assert line == line[..|line| - 1] + [line[|line| - 1]];
      line[..|line| - 1]
    else
      assert line == line + "";
      line
  }

  /** Length of the leading run of non-whitespace characters of `s`. */
  function WordLength(s: string): (n: nat)
    ensures n <= |s|
    ensures forall i :: 0 <= i < n ==> !IsSpace(s[i])
    ensures n < |s| ==> IsSpace(s[n])
    decreases |s|
  {
    if |s| == 0 || IsSpace(s[0]) then 0 else 1 + WordLength(s[1..])
  }

  /** The characters of `s` that are not whitespace, in order. */
  function NonSpace(s: string): string
    decreases |s|
  {
    if |s| == 0 then "" else (if IsSpace(s[0]) then "" else [s[0]]) + NonSpace(s[1..])
  }

  /** `String#split` with no pattern: the whitespace-separated fields of `s`, in order. */
  function Fields(s: string): (fs: seq<string>)
    // every field is a whole word
    ensures forall k :: 0 <= k < |fs| ==> IsWord(fs[k])
    // the fields together are exactly the non-whitespace characters of `s`, nothing lost or reordered
    ensures Concat(fs) == NonSpace(s)
    decreases |s|
  {
    if |s| == 0 then []
    else if IsSpace(s[0]) then Fields(s[1..])
    else
      var n := WordLength(s);
      var fs := [s[..n]] + Fields(s[n..]);
      assert NonSpace(s) == s[..n] + NonSpace(s[n..]) by {
        assert s == s[..n] + s[n..];
        NonSpaceAppend(s[..n], s[n..]);
        NonSpaceOfWord(s[..n]);
      }
      assert fs[1..] == Fields(s[n..]);
      fs
  }

  lemma {:induction false} NonSpaceAppend(a: string, b: string)
    ensures NonSpace(a + b) == NonSpace(a) + NonSpace(b)
    decreases |a|
  {
    if |a| == 0 {
      assert a + b == b;
    } else {
      assert (a + b)[1..] == a[1..] + b;
      NonSpaceAppend(a[1..], b);
    }
  }

  lemma {:induction false} NonSpaceOfWord(w: string)
    requires forall i :: 0 <= i < |w| ==> !IsSpace(w[i])
    ensures NonSpace(w) == w
    decreases |w|
  {
    if |w| > 0 {
      NonSpaceOfWord(w[1..]);
    }
  }

  /**
   Words laid out on a line, each followed by its own run of whitespace:
   `ws[0] + gaps[0] + ws[1] + gaps[1] + …`.
   */
  function Layout(ws: seq<string>, gaps: seq<string>): string
    requires |gaps| == |ws|
    decreases |ws|
  {
    if |ws| == 0 then "" else ws[0] + gaps[0] + Layout(ws[1..], gaps[1..])
  }

  /** `gaps` can separate the words `ws`: all whitespace, and only the last may be empty. */
  predicate Spaced(ws: seq<string>, gaps: seq<string>) {
    && |gaps| == |ws|
    && (forall k :: 0 <= k < |ws| ==> IsWord(ws[k]))
    && (forall k :: 0 <= k < |gaps| ==> AllSpace(gaps[k]))
    && (forall k :: 0 <= k < |gaps| - 1 ==> |gaps[k]| > 0)
  }

  lemma {:induction false} FieldsOfSpace(s: string)
    requires AllSpace(s)
    ensures Fields(s) == []
    decreases |s|
  {
    if |s| > 0 {
      FieldsOfSpace(s[1..]);
    }
  }

  /** A word followed by whitespace (or nothing) is read as exactly that word. */
  lemma {:induction false} WordLengthOfWord(w: string, t: string)
    requires IsWord(w)
    requires |t| == 0 || IsSpace(t[0])
    ensures WordLength(w + t) == |w|
    decreases |w|
  {
    if |w| > 1 {
      assert (w + t)[1..] == w[1..] + t;
      WordLengthOfWord(w[1..], t);
    } else {
      assert (w + t)[1..] == t;
    }
  }

  /** Trailing whitespace adds no field. */
  lemma {:induction false} FieldsTrailingSpace(s: string, t: string)
    requires AllSpace(t)
    ensures Fields(s + t) == Fields(s)
    decreases |s|
  {
    if |s| == 0 {
      assert s + t == t;
      FieldsOfSpace(t);
    } else if IsSpace(s[0]) {
      assert (s + t)[1..] == s[1..] + t;
      FieldsTrailingSpace(s[1..], t);
    } else {
      var n := WordLength(s);
      if n < |s| {
        assert WordLength(s + t) == n by {
          WordLengthPrefix(s, t);
        }
        assert (s + t)[..n] == s[..n];
        assert (s + t)[n..] == s[n..] + t;
        FieldsTrailingSpace(s[n..], t);
      } else {
        assert IsWord(s);
        WordLengthOfWord(s, t);
        assert (s + t)[0] == s[0];
        assert (s + t)[..n] == s && s[..n] == s;
        assert (s + t)[n..] == t;
        assert s[n..] == "";
        FieldsOfSpace(t);
        calc {
          Fields(s + t);
          [s] + Fields(t);
          [s] + Fields(s[n..]);
          Fields(s);
        }
      }
    }
  }

  /** Appending text after the first whitespace of `s` does not change its leading word. */
  lemma {:induction false} WordLengthPrefix(s: string, t: string)
    requires WordLength(s) < |s|
    ensures WordLength(s + t) == WordLength(s)
    decreases |s|
  {
    if !IsSpace(s[0]) {
      assert (s + t)[1..] == s[1..] + t;
      WordLengthPrefix(s[1..], t);
    }
  }

  /** Leading whitespace adds no field. */
  lemma {:induction false} FieldsLeadingSpace(lead: string, s: string)
    requires AllSpace(lead)
    ensures Fields(lead + s) == Fields(s)
    decreases |lead|
  {
    if |lead| == 0 {
      assert lead + s == s;
    } else {
      assert (lead + s)[0] == lead[0];
      assert (lead + s)[1..] == lead[1..] + s;
      FieldsLeadingSpace(lead[1..], s);
    }
  }

  /** Splitting a laid-out line gives back its words, whatever whitespace separates them. */
  lemma {:induction false} FieldsLayout(ws: seq<string>, gaps: seq<string>)
    requires Spaced(ws, gaps)
    ensures Fields(Layout(ws, gaps)) == ws
    decreases |ws|
  {
    if |ws| > 0 {
      var w, g := ws[0], gaps[0];
      var rest := Layout(ws[1..], gaps[1..]);
      var s := w + (g + rest);
      assert Layout(ws, gaps) == s;
      assert Spaced(ws[1..], gaps[1..]);
      if |g| == 0 {
        assert |ws| == 1;
        assert rest == "";
      } else {
        assert (g + rest)[0] == g[0];
      }
      WordLengthOfWord(w, g + rest);
      assert s[0] == w[0];
      assert s[..|w|] == w;
      assert s[|w|..] == g + rest;
      FieldsLeadingSpace(g, rest);
      FieldsLayout(ws[1..], gaps[1..]);
      assert Fields(s) == [w] + ws[1..];
    }
  }

  /** Removing the trailing newline before splitting makes no difference to the fields. */
  lemma ChompKeepsFields(line: string)
    ensures Fields(Chomp(line)) == Fields(line)
  {
    var n := |line|;
    if n >= 2 && line[n - 2..] == "\r\n" {
      assert line == Chomp(line) + "\r\n";
      FieldsTrailingSpace(Chomp(line), "\r\n");
    } else if n >= 1 && (line[n - 1] == '\n' || line[n - 1] == '\r') {
      assert line == Chomp(line) + [line[n - 1]];
      FieldsTrailingSpace(Chomp(line), [line[n - 1]]);
    }
  }

  // ---------------------------------------------------------------------------
  // One line, and the whole table
  // ---------------------------------------------------------------------------

  /** The `i`-th element of an array, or `nil` past its end, as multiple assignment reads it. */
  function Nth(fs: seq<string>, i: nat): (r: Option<string>)
    ensures r.Some? <==> i < |fs|
    ensures r.Some? ==> r.value == fs[i]
  {
    if i < |fs| then Some(fs[i]) else None
  }

  /** One line: its first two whitespace-separated fields once the line terminator is dropped. */
  function ParseLine(line: string): (r: (Option<string>, Option<string>))
    // the stroke is the first field and the character the second; the rest are ignored
    ensures r.0 == Nth(Fields(line), 0)
    ensures r.1 == Nth(Fields(line), 1)
    // a character is only ever read together with a stroke
    ensures r.1.Some? ==> r.0.Some?
  {
    ChompKeepsFields(line);
    var fs := Fields(Chomp(line));
    (Nth(fs, 0), Nth(fs, 1))
  }

  /**
   A line holding a sequence, a character and possibly more fields, indented
   and separated by any whitespace, yields exactly that entry.
   */
  lemma ParseTableLine(lead: string, ws: seq<string>, gaps: seq<string>)
    requires AllSpace(lead)
    requires Spaced(ws, gaps) && |ws| >= 2
    ensures ParseLine(lead + Layout(ws, gaps)) == (Some(ws[0]), Some(ws[1]))
  {
    FieldsLeadingSpace(lead, Layout(ws, gaps));
    FieldsLayout(ws, gaps);
  }

  /** For instance, an indented, tab-separated line with a third field and a CRLF terminator. */
  lemma ParseIndentedLine()
    ensures ParseLine("  ka\t\tか  x\r\n") == (Some("ka"), Some("か"))
  {
    var ws, gaps := ["ka", "か", "x"], ["\t\t", "  ", "\r\n"];
    assert Spaced(ws, gaps);
    assert Layout(ws[2..], gaps[2..]) == "x\r\n";
    assert Layout(ws[1..], gaps[1..]) == "か  x\r\n";
    assert "  " + Layout(ws, gaps) == "  ka\t\tか  x\r\n";
    ParseTableLine("  ", ws, gaps);
  }

  /** A line with one field yields a stroke with a `nil` character. */
  lemma ParseSingleField(lead: string, stroke: string, trail: string)
    requires AllSpace(lead) && IsWord(stroke) && AllSpace(trail)
    ensures ParseLine(lead + stroke + trail) == (Some(stroke), None)
  {
    assert Spaced([stroke], [trail]);
    assert Layout([stroke], [trail]) == stroke + trail;
    assert lead + stroke + trail == lead + Layout([stroke], [trail]);
    FieldsLeadingSpace(lead, Layout([stroke], [trail]));
    FieldsLayout([stroke], [trail]);
  }

  /** A blank line yields a `nil` stroke and a `nil` character. */
  lemma ParseBlankLine(line: string)
    requires AllSpace(line)
    ensures ParseLine(line) == (None, None)
  {
    FieldsOfSpace(line);
  }

  /** The entries the loop assigns, one per line, in order. */
  function LineEntries(lines: seq<string>): (es: seq<(Option<string>, Option<string>)>)
    ensures |es| == |lines|
    ensures forall i :: 0 <= i < |lines| ==> es[i] == ParseLine(lines[i])
  {
    seq(|lines|, i requires 0 <= i < |lines| => ParseLine(lines[i]))
  }

  /** The mapping built from the lines. */
  function ConvertLines(lines: seq<string>): (m: Mapping)
    // every line's stroke is a key, and every key is some line's stroke
    ensures forall i :: 0 <= i < |lines| ==> ParseLine(lines[i]).0 in m
    ensures forall k :: k in m ==> exists i :: 0 <= i < |lines| && ParseLine(lines[i]) == (k, m[k])
  {
    var es := LineEntries(lines);
    assert forall i :: 0 <= i < |lines| ==> es[i] == ParseLine(lines[i]);
    Assoc.Assign(es)
  }

  /** The mapping the script prints for an input text. */
  function ConvertText(text: string): (m: Mapping)
    ensures forall i :: 0 <= i < |EachLine(text)| ==> ParseLine(EachLine(text)[i]).0 in m
  {
    ConvertLines(EachLine(text))
  }

  /** A later line with the same stroke overwrites the earlier one: a key holds its last line's character. */
  lemma ConvertLastWriter(lines: seq<string>, i: nat)
    requires i < |lines|
    requires forall j :: i < j < |lines| ==> ParseLine(lines[j]).0 != ParseLine(lines[i]).0
    ensures ConvertLines(lines)[ParseLine(lines[i]).0] == ParseLine(lines[i]).1
  {
    Assoc.LastWriterWins(LineEntries(lines), i);
  }
}
