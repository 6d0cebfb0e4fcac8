/** Palette files of the older engine in `sketch.js`: `downloadPalette` writes
    one `rgbToHex` line per colour, and `handleFile` reads a file back by
    joining its lines and collecting the matches of `/[0-9a-f]{6}/gi`. */
module PaletteFile {
  import opened Wrappers
  import opened JsText
  import opened Pixels
  import opened ColorMatch
  import opened SketchColor

  /** `contents.split("\n").join("")`: every line feed removed, everything
      else (a carriage return included) kept in order. */
  function JoinLines(s: string): (r: string)
    ensures '\n' !in r
    ensures |r| <= |s|
    ensures '\n' !in s ==> r == s
  {
    if |s| == 0 then ""
    else (if s[0] == '\n' then "" else [s[0]]) + JoinLines(s[1..])
  }

  /** Removing line feeds works piece by piece. */
  lemma {:induction false} JoinLinesAppend(a: string, b: string)
    ensures JoinLines(a + b) == JoinLines(a) + JoinLines(b)
  {
    if |a| == 0 {
      assert a + b == b;
    } else {
      assert (a + b)[0] == a[0];
      assert (a + b)[1..] == a[1..] + b;
      JoinLinesAppend(a[1..], b);
    }
  }

  /** Six hex digits, of either case, start at position `i`. */
  predicate RunAt(s: string, i: nat) {
    i + 6 <= |s| && AllHex(s[i..i + 6])
  }

  /** The matches of the global regular expression `/[0-9a-f]{6}/gi`, in
      order: the leftmost run of six hex digits, then the search resumes right
      after it, so matches never overlap. */
  function HexRuns(s: string): (r: seq<string>)
    ensures forall t :: t in r ==> |t| == 6 && AllHex(t)
    decreases |s|
  {
    if |s| < 6 then []
    else if AllHex(s[..6]) then [s[..6]] + HexRuns(s[6..])
    else HexRuns(s[1..])
  }

  /** A run in `s[1..]` is a run in `s`, one position later. */
  lemma RunAtTail(s: string, i: nat)
    requires |s| > 0
    ensures RunAt(s[1..], i) <==> RunAt(s, i + 1)
  {
    if i + 7 <= |s| {
      assert s[1..][i..i + 6] == s[i + 1..i + 7];
    }
  }

  /** There is no match exactly when no position starts six hex digits. */
  lemma {:induction false} HexRunsEmpty(s: string)
    ensures HexRuns(s) == [] <==> forall i :: 0 <= i < |s| ==> !RunAt(s, i)
    decreases |s|
  {
    if |s| >= 6 && !AllHex(s[..6]) {
      HexRunsEmpty(s[1..]);
      forall i | 0 <= i < |s| - 1
        ensures RunAt(s[1..], i) <==> RunAt(s, i + 1)
      {
        RunAtTail(s, i);
      }
      if HexRuns(s) == [] {
        forall i | 0 <= i < |s|
          ensures !RunAt(s, i)
        {
          if i > 0 {
            assert !RunAt(s[1..], i - 1);
          }
        }
      }
    } else if |s| >= 6 {
      assert s[0..6] == s[..6];
      assert RunAt(s, 0);
    }
  }

  /** The regular expression's search, stated by position: when `i` is the
      first position that starts six hex digits, the first match is the run
      at `i` and the search resumes at `i + 6`. */
  lemma {:induction false} HexRunsLeftmost(s: string, i: nat)
    requires RunAt(s, i)
    requires forall j :: 0 <= j < i ==> !RunAt(s, j)
    ensures HexRuns(s) == [s[i..i + 6]] + HexRuns(s[i + 6..])
    decreases i
  {
    if i == 0 {
      assert s[0..6] == s[..6];
    } else {
      assert !RunAt(s, 0);
      assert s[0..6] == s[..6];
      forall j | 0 <= j < i - 1
        ensures !RunAt(s[1..], j)
      {
        RunAtTail(s, j);
      }
      RunAtTail(s, i - 1);
      HexRunsLeftmost(s[1..], i - 1);
      assert s[1..][i - 1..i + 5] == s[i..i + 6];
      assert s[1..][i + 5..] == s[i + 6..];
    }
  }

  /** What `handleFile` takes from the file: the matches, or `None` when the
      expression matches nothing (`match` returns `null`), in which case the
      palette is left as it was. */
  function ReadPaletteFile(contents: string): (r: Option<seq<string>>)
    ensures r.None? <==> forall i :: 0 <= i < |JoinLines(contents)| ==> !RunAt(JoinLines(contents), i)
    ensures r.Some? ==> |r.value| > 0 && forall t :: t in r.value ==> |t| == 6 && AllHex(t)
  {
    HexRunsEmpty(JoinLines(contents));
    var runs := HexRuns(JoinLines(contents));
    if |runs| == 0 then None else Some(runs)
  }

  /** Line feeds are removed before matching, so six digits split over two
      lines still make one colour. */
  lemma TokenAcrossLineBreak(a: string, b: string)
    requires |a + b| == 6 && AllHex(a + b)
    ensures ReadPaletteFile(a + "\n" + b) == Some([a + b])
  {
    var s := a + b;
    assert '\n' !in a by {
      forall i | 0 <= i < |a| ensures a[i] != '\n' {
        assert s[i] == a[i];
      }
    }
    assert '\n' !in b by {
      forall i | 0 <= i < |b| ensures b[i] != '\n' {
        assert s[|a| + i] == b[i];
      }
    }
    JoinAcrossBreak(a, b);
    SingleRun(s);
  }

  lemma JoinAcrossBreak(a: string, b: string)
    requires '\n' !in a && '\n' !in b
    ensures JoinLines(a + "\n" + b) == a + b
  {
    assert a + "\n" + b == a + ("\n" + b);
    JoinLinesAppend(a, "\n" + b);
    DropLeadingLineFeed(b);
  }

  lemma DropLeadingLineFeed(b: string)
    ensures JoinLines("\n" + b) == JoinLines(b)
  {
    var s := "\n" + b;
    assert s[0] == '\n' && s[1..] == b;
  }

  lemma SingleRun(s: string)
    requires |s| == 6 && AllHex(s)
    ensures HexRuns(s) == [s]
  {
    assert s[..6] == s && s[6..] == "";
    assert HexRuns("") == [];
  }

  /** The colours of a palette file as `rgbToHex` writes them. */
  function HexLines(colors: seq<Rgb>): (lines: seq<string>)
    ensures |lines| == |colors|
    ensures forall i :: 0 <= i < |colors| ==> lines[i] == RgbToHex(colors[i].r, colors[i].g, colors[i].b)
  {
    seq(|colors|, i requires 0 <= i < |colors| => RgbToHex(colors[i].r, colors[i].g, colors[i].b))
  }

  /** `lines.join("\n")`. */
  function JoinWithNewline(lines: seq<string>): string {
    if |lines| == 0 then ""
    else if |lines| == 1 then lines[0]
    else lines[0] + "\n" + JoinWithNewline(lines[1..])
  }

  /** The text `downloadPalette` saves for the current colours: one line per
      colour, so without its line feeds it is the colours' hex back to back. */
  function PaletteFileText(colors: seq<Rgb>): (text: string)
    ensures JoinLines(text) == Concat(HexLines(colors))
  {
    JoinedLinesConcat(HexLines(colors));
    JoinWithNewline(HexLines(colors))
  }

  function Concat(lines: seq<string>): string {
    if |lines| == 0 then "" else lines[0] + Concat(lines[1..])
  }

  predicate SixHexEach(lines: seq<string>) {
    forall i :: 0 <= i < |lines| ==> |lines[i]| == 6 && AllHex(lines[i])
  }

  /** Joining hex lines and then removing the line feeds just concatenates
      them. */
  lemma {:induction false} JoinedLinesConcat(lines: seq<string>)
    requires SixHexEach(lines)
    ensures JoinLines(JoinWithNewline(lines)) == Concat(lines)
  {
    if |lines| == 1 {
      assert '\n' !in lines[0];
      assert Concat(lines) == lines[0] + Concat(lines[1..]);
      assert lines[0] + "" == lines[0];
    } else if |lines| > 1 {
      assert '\n' !in lines[0];
      JoinedLinesConcat(lines[1..]);
      JoinLinesAppend(lines[0] + "\n", JoinWithNewline(lines[1..]));
      JoinLinesAppend(lines[0], "\n");
      assert JoinLines("\n") == "";
      assert lines[0] + "\n" + JoinWithNewline(lines[1..]) == (lines[0] + "\n") + JoinWithNewline(lines[1..]);
    }
  }

  /** Runs of exactly six digits back to back are matched one by one. */
  lemma {:induction false} HexRunsOfConcat(lines: seq<string>)
    requires SixHexEach(lines)
    ensures HexRuns(Concat(lines)) == lines
  {
    if |lines| > 0 {
      var s := Concat(lines);
      assert s == lines[0] + Concat(lines[1..]);
      assert s[..6] == lines[0];
      assert s[6..] == Concat(lines[1..]);
      HexRunsOfConcat(lines[1..]);
      assert lines == [lines[0]] + lines[1..];
    }
  }

  /** A palette saved by `downloadPalette` loads back as the same hex lines, and
      each line decodes to the colour it came from. */
  lemma PaletteFileRoundTrip(colors: seq<Rgb>)
    ensures |colors| == 0 ==> ReadPaletteFile(PaletteFileText(colors)).None?
    ensures |colors| > 0 ==> ReadPaletteFile(PaletteFileText(colors)) == Some(HexLines(colors))
    ensures forall i :: 0 <= i < |colors| ==> HexToRgb("#" + HexLines(colors)[i]) == colors[i]
  {
    ReadBackLines(colors);
    HexLinesDecode(colors);
  }

  lemma ReadBackLines(colors: seq<Rgb>)
    ensures |colors| == 0 ==> ReadPaletteFile(PaletteFileText(colors)).None?
    ensures |colors| > 0 ==> ReadPaletteFile(PaletteFileText(colors)) == Some(HexLines(colors))
  {
    var lines := HexLines(colors);
    assert SixHexEach(lines);
    HexRunsOfConcat(lines);
  }

  lemma HexLinesDecode(colors: seq<Rgb>)
    ensures forall i :: 0 <= i < |colors| ==> HexToRgb("#" + HexLines(colors)[i]) == colors[i]
  {
    var lines := HexLines(colors);
    forall i | 0 <= i < |colors|
      ensures HexToRgb("#" + lines[i]) == colors[i]
    {
      RgbToHexRoundTrip(colors[i].r, colors[i].g, colors[i].b);
    }
  }
}
