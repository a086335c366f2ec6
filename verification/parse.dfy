/**
 The measuring pass of the solver's constructor: it splits the text into
 lines, checks that they have one width, counts the height and finds the
 start cell.  Lines are described by `Lines`, which splits at every '\n'.
 */
module Parse {
  import opened Wrappers
  import opened Grid

  datatype Dims = Dims(width: nat, height: nat, startX: nat, startY: nat)

  /** The two ways the constructor rejects a grid (both std::invalid_argument). */
  datatype GridError = LinesDiffer | LastLineDiffers

  /** The lines of `s`: the pieces between '\n' characters, the last one unterminated. */
  function Lines(s: string): (ls: seq<string>)
    ensures |ls| >= 1
    decreases |s|
  {
    if |s| == 0 then [[]]
    else
      var init := Lines(s[..|s| - 1]);
      var c := s[|s| - 1];
      if c == '\n' then init + [[]]
      else init[..|init| - 1] + [init[|init| - 1] + [c]]
  }

  /** Lines joined back with '\n' between them. */
  function Join(ls: seq<string>): string
    requires |ls| >= 1
  {
    if |ls| == 1 then ls[0]
    else Join(ls[..|ls| - 1]) + "\n" + ls[|ls| - 1]
  }

  /** How many '\n' characters `s` holds. */
  function Newlines(s: string): nat
  {
    if |s| == 0 then 0
    else Newlines(s[..|s| - 1]) + (if s[|s| - 1] == '\n' then 1 else 0)
  }

  /** The '\n'-terminated lines, and the final unterminated one. */
  function Terminated(ls: seq<string>): seq<string>
    requires |ls| >= 1
  {
    ls[..|ls| - 1]
  }

  function Last(ls: seq<string>): string
    requires |ls| >= 1
  {
    ls[|ls| - 1]
  }

  /** Joining the lines of a text gives the text back. */
  lemma {:induction false} JoinLines(s: string)
    ensures Join(Lines(s)) == s
    decreases |s|
  {
    if |s| > 0 {
      var p := s[..|s| - 1];
      var c := s[|s| - 1];
      assert s == p + [c];
      JoinLines(p);
      var init := Lines(p);
      var n := |init|;
      var ls := Lines(s);
      if c == '\n' {
        assert ls == init + [[]];
        assert ls[..n] == init;
        assert Join(ls) == Join(init) + "\n" + [];
      } else {
        assert ls == init[..n - 1] + [init[n - 1] + [c]];
        if n == 1 {
          assert Join(ls) == init[0] + [c];
        } else {
          assert ls[..n - 1] == init[..n - 1];
          calc {
            Join(ls);
            Join(init[..n - 1]) + "\n" + (init[n - 1] + [c]);
            (Join(init[..n - 1]) + "\n" + init[n - 1]) + [c];
            Join(init) + [c];
          }
        }
      }
    }
  }

  /** A text has one line more than it has '\n' characters, and no line holds one. */
  lemma {:induction false} LinesCount(s: string)
    ensures |Lines(s)| == Newlines(s) + 1
    ensures forall j :: 0 <= j < |Lines(s)| ==> '\n' !in Lines(s)[j]
    decreases |s|
  {
    if |s| > 0 {
      var p := s[..|s| - 1];
      LinesCount(p);
      var init := Lines(p);
      if s[|s| - 1] != '\n' {
        var ls := Lines(s);
        assert forall j | 0 <= j < |ls| - 1 :: ls[j] == init[j];
      }
    }
  }

  /** Splitting and joining are inverse: no line holds '\n', and joining gives back the text. */
  lemma LinesRoundTrip(s: string)
    ensures Join(Lines(s)) == s
    ensures |Lines(s)| == Newlines(s) + 1
    ensures forall j :: 0 <= j < |Lines(s)| ==> '\n' !in Lines(s)[j]
  {
    JoinLines(s);
    LinesCount(s);
  }

  /** Appending one character either closes the last line or extends it. */
  lemma LinesSnoc(s: string, c: char)
    ensures c == '\n' ==> Terminated(Lines(s + [c])) == Lines(s) && Last(Lines(s + [c])) == []
    ensures c != '\n' ==> Terminated(Lines(s + [c])) == Terminated(Lines(s)) &&
                          Last(Lines(s + [c])) == Last(Lines(s)) + [c]
    ensures Newlines(s + [c]) == Newlines(s) + (if c == '\n' then 1 else 0)
  {
    assert (s + [c])[..|s|] == s;
  }

  /** Lines of a text with one more character, spelled out. */
  lemma LinesAppend(s: string, c: char)
    ensures Lines(s + [c]) == if c == '\n' then Lines(s) + [[]]
                              else Terminated(Lines(s)) + [Last(Lines(s)) + [c]]
  {
    assert (s + [c])[..|s|] == s;
  }

  /** The terminated lines of a prefix of `s` are a prefix of the terminated lines of `s`. */
  lemma {:induction false} TerminatedPrefix(s: string, i: nat)
    requires i <= |s|
    ensures Terminated(Lines(s[..i])) <= Terminated(Lines(s))
    decreases |s|
  {
    if i < |s| {
      var p := s[..|s| - 1];
      assert s[..i] == p[..i];
      assert s == p + [s[|s| - 1]];
      TerminatedPrefix(p, i);
      LinesSnoc(p, s[|s| - 1]);
      var init := Lines(p);
      assert Terminated(init) <= init;
    } else {
      assert s[..i] == s;
    }
  }

  // ---------------------------------------------------------------------
  // The width check as the constructor writes it.

  /**
   The width the constructor's `width1` holds after the given terminated
   lines: the length of the first non-empty one, 0 while there is none
   (0 doubles as "not yet set").
   */
  function FirstNonZero(ts: seq<string>): nat
  {
    if |ts| == 0 then 0
    else
      var f := FirstNonZero(ts[..|ts| - 1]);
      if f != 0 then f else |ts[|ts| - 1]|
  }

  /** Every terminated line passes the in-loop check: it is as wide as `width1` once that is set. */
  predicate TerminatedOk(ts: seq<string>)
  {
    forall j | 0 <= j < |ts| :: |ts[j]| == FirstNonZero(ts[..j + 1])
  }

  /** The constructor's acceptance condition as written. */
  predicate AcceptedAsWritten(ls: seq<string>)
    requires |ls| >= 1
  {
    TerminatedOk(Terminated(ls)) && |Last(ls)| == FirstNonZero(Terminated(ls))
  }

  lemma TerminatedOkPrefix(ts: seq<string>, us: seq<string>)
    requires ts <= us && TerminatedOk(us)
    ensures TerminatedOk(ts)
  {
    forall j | 0 <= j < |ts|
      ensures |ts[j]| == FirstNonZero(ts[..j + 1])
    {
      assert ts[..j + 1] == us[..j + 1];
    }
  }

  /** Closing one more line keeps the in-loop check iff the line is as wide as the updated `width1`. */
  lemma TerminatedOkSnoc(ts: seq<string>, l: string)
    requires TerminatedOk(ts)
    ensures FirstNonZero(ts + [l]) == (if FirstNonZero(ts) != 0 then FirstNonZero(ts) else |l|)
    ensures TerminatedOk(ts + [l]) <==> |l| == FirstNonZero(ts + [l])
  {
    var us := ts + [l];
    assert us[..|ts|] == ts;
    if |l| == FirstNonZero(us) {
      forall j | 0 <= j < |us|
        ensures |us[j]| == FirstNonZero(us[..j + 1])
      {
        if j < |ts| {
          assert us[..j + 1] == ts[..j + 1];
        } else {
          assert us[..j + 1] == us;
        }
      }
    } else {
      assert us[..|ts| + 1] == us;
      assert us[|ts|] == l;
      assert |us[|ts|]| != FirstNonZero(us[..|ts| + 1]);
    }
  }

  /** A terminated line that fails the check makes the whole text fail it. */
  lemma MismatchPersists(s: string, i: nat)
    requires i <= |s|
    requires !TerminatedOk(Terminated(Lines(s[..i])))
    ensures !TerminatedOk(Terminated(Lines(s)))
  {
    TerminatedPrefix(s, i);
    if TerminatedOk(Terminated(Lines(s))) {
      TerminatedOkPrefix(Terminated(Lines(s[..i])), Terminated(Lines(s)));
    }
  }

  /** The cell coordinates of the character following the text `p`. */
  function CoordOf(p: string): Coord
  {
    var ls := Lines(p);
    (|Last(ls)|, |ls| - 1)
  }

  /** Where the constructor puts the root: the last occurrence of `start`, or (0, 0) when there is none. */
  function StartAt(s: string, start: char): (r: Coord)
    ensures start !in s ==> r == (0, 0)
    decreases |s|
  {
    if |s| == 0 then (0, 0)
    else if s[|s| - 1] == start then CoordOf(s[..|s| - 1])
    else StartAt(s[..|s| - 1], start)
  }

  /** Index of the last occurrence of `c` in `s`. */
  function LastIndex(s: string, c: char): (i: nat)
    requires c in s
    ensures i < |s| && s[i] == c
    ensures forall j | i < j < |s| :: s[j] != c
    decreases |s|
  {
    if s[|s| - 1] == c then |s| - 1
    else
      assert c in s[..|s| - 1] by {
        var k :| 0 <= k < |s| && s[k] == c;
        assert s[..|s| - 1][k] == c;
      }
      LastIndex(s[..|s| - 1], c)
  }

  /** The root is taken from the last character equal to `start`. */
  lemma {:induction false} StartIsLastOccurrence(s: string, start: char)
    requires start in s
    ensures StartAt(s, start) == CoordOf(s[..LastIndex(s, start)])
    decreases |s|
  {
    var n := |s| - 1;
    if s[n] != start {
      var p := s[..n];
      StartIsLastOccurrence(p, start);
      assert p[..LastIndex(p, start)] == s[..LastIndex(s, start)];
    }
  }

  lemma StartAtSnoc(s: string, c: char, start: char)
    ensures StartAt(s + [c], start) == if c == start then CoordOf(s) else StartAt(s, start)
  {
    assert (s + [c])[..|s|] == s;
  }

  /** The constructor's loop variables after reading the first i characters of the text. */
  predicate ScanState(input: string, start: char, i: nat,
                      width1: nat, width2: nat, height1: nat, startX: nat, startY: nat)
    requires i <= |input|
  {
    var ls := Lines(input[..i]);
    && height1 == |ls| == Newlines(input[..i]) + 1
    && width2 == |Last(ls)|
    && width1 == FirstNonZero(Terminated(ls))
    && TerminatedOk(Terminated(ls))
    && (startX, startY) == StartAt(input[..i], start)
  }

  /**
   One pass of the constructor's loop, on character i: records the start
   cell, and at a '\n' sets `width1` while it is still 0 or else demands the
   closed line match it; fails with LinesDiffer otherwise.
   */
  method ScanChar(input: string, start: char, i: nat,
                  width1: nat, width2: nat, height1: nat, startX: nat, startY: nat)
    returns (ok: bool, width1': nat, width2': nat, height1': nat, startX': nat, startY': nat)
    requires i < |input| && ScanState(input, start, i, width1, width2, height1, startX, startY)
    ensures ok ==> ScanState(input, start, i + 1, width1', width2', height1', startX', startY')
    ensures !ok ==> !TerminatedOk(Terminated(Lines(input)))
  {
    var ch := input[i];
    var pre := input[..i];
    assert input[..i + 1] == pre + [ch];
    LinesSnoc(pre, ch);
    StartAtSnoc(pre, ch, start);
    ok, width1', width2', height1', startX', startY' := true, width1, width2, height1, startX, startY;
    if ch == start {
      startX' := width2;
      startY' := height1 - 1;
    }
    if ch == '\n' {
      var ts := Terminated(Lines(pre + [ch]));
      assert ts == Terminated(Lines(pre)) + [Last(Lines(pre))];
      TerminatedOkSnoc(Terminated(Lines(pre)), Last(Lines(pre)));
      if width1 == 0 {
        width1' := width2;
      } else if width2 != width1 {
        MismatchPersists(input, i + 1);
        return false, width1', width2', height1', startX', startY';
      }
      width2' := 0;
      height1' := height1 + 1;
    } else {
      width2' := width2 + 1;
    }
  }

  /**
   The outcome of the constructor's measuring loop, read off the lines of
   the text: LinesDiffer when a closed line fails the in-loop check,
   LastLineDiffers when only the final line does, and otherwise width1,
   height1 and the start cell.
   */
  function Dimensions(input: string, start: char): (r: Result<Dims, GridError>)
  {
    var ls := Lines(input);
    if !TerminatedOk(Terminated(ls)) then Err(LinesDiffer)
    else if |Last(ls)| != FirstNonZero(Terminated(ls)) then Err(LastLineDiffers)
    else
      var st := StartAt(input, start);
      Ok(Dims(FirstNonZero(Terminated(ls)), Newlines(input) + 1, st.0, st.1))
  }

  /**
   The constructor's loop over the text, as written: `width1` is set from
   the first line that is non-empty when its '\n' is reached, every later
   terminated line must match it, and so must the final line.
   */
  method MeasureAsWritten(input: string, start: char) returns (r: Result<Dims, GridError>)
    ensures r == Dimensions(input, start)
    ensures r.Ok? <==> AcceptedAsWritten(Lines(input))
    ensures r == Err(LinesDiffer) <==> !TerminatedOk(Terminated(Lines(input)))
    ensures r.Ok? ==> r.value == Dims(FirstNonZero(Terminated(Lines(input))), Newlines(input) + 1,
                                      StartAt(input, start).0, StartAt(input, start).1)
  {
    var width1: nat, width2: nat, height1: nat := 0, 0, 1;
    var startX: nat, startY: nat := 0, 0;
    var i := 0;
    assert input[..0] == [];
    while i < |input|
      invariant 0 <= i <= |input|
      invariant ScanState(input, start, i, width1, width2, height1, startX, startY)
    {
      var ok;
      ok, width1, width2, height1, startX, startY := ScanChar(input, start, i, width1, width2, height1, startX, startY);
      if !ok {
        return Err(LinesDiffer);
      }
      i := i + 1;
    }
    assert input[..i] == input;
    if width2 != width1 {
      return Err(LastLineDiffers);
    }
    r := Ok(Dims(width1, height1, startX, startY));
  }
}

module ParseCorrected {
  import opened Wrappers
  import opened Grid
  import opened Parse

  /** All lines, the final one included, are as wide as the first. */
  predicate SameWidth(ls: seq<string>)
  {
    forall j | 0 <= j < |ls| :: |ls[j]| == |ls[0]|
  }

  /** Joined lines of one width w: each closed line takes w + 1 characters. */
  lemma {:induction false} JoinLength(ls: seq<string>, w: nat)
    requires |ls| >= 1
    requires forall j | 0 <= j < |ls| - 1 :: |ls[j]| == w
    ensures |Join(ls)| == Index(w, |Last(ls)|, |ls| - 1)
  {
    IndexShift(w, |Last(ls)|, |ls| - 1);
    if |ls| > 1 {
      JoinLength(ls[..|ls| - 1], w);
      IndexShift(w, |Last(ls[..|ls| - 1])|, |ls| - 2);
    }
  }

  /** In joined lines of one width, cell (x, y) sits at the flat index GetAt reads. */
  lemma {:induction false} JoinCell(ls: seq<string>, w: nat, x: nat, y: nat)
    requires |ls| >= 1 && SameWidth(ls) && w == |ls[0]|
    requires x < w && y < |ls|
    ensures Index(w, x, y) < |Join(ls)| && Join(ls)[Index(w, x, y)] == ls[y][x]
  {
    var n := |ls|;
    IndexFormula(w, x, y);
    if n > 1 {
      var init := ls[..n - 1];
      JoinLength(init, w);
      IndexFormula(w, w, n - 2);
      if y < n - 1 {
        JoinCell(init, w, x, y);
      } else {
        assert |Join(init)| == (w + 1) * (n - 1) - 1;
      }
    }
  }

  /**
   The constructor's measuring pass as evidently intended: every line,
   the last one included, must be as wide as the first.
   */
  function Measure(input: string, start: char): (r: Result<Dims, GridError>)
    ensures r.Ok? <==> SameWidth(Lines(input))
    ensures r == Err(LastLineDiffers) ==>
      forall j | 0 <= j < |Lines(input)| - 1 :: |Lines(input)[j]| == |Lines(input)[0]|
    ensures r.Ok? ==> && r.value.width == |Lines(input)[0]|
                      && r.value.height == Newlines(input) + 1
                      && Rectangular(input, r.value.width, r.value.height)
                      && (r.value.startX, r.value.startY) == StartAt(input, start)
  {
    var ls := Lines(input);
    var w := |ls[0]|;
    if exists j :: 0 <= j < |ls| - 1 && |ls[j]| != w then Err(LinesDiffer)
    else if |Last(ls)| != w then Err(LastLineDiffers)
    else
      SameWidthRectangular(input);
      var st := StartAt(input, start);
      Ok(Dims(w, |ls|, st.0, st.1))
  }

  /** Lines of one width, joined, form a rectangle of that width. */
  lemma JoinRectangular(ls: seq<string>)
    requires |ls| >= 1 && SameWidth(ls)
    ensures Rectangular(Join(ls), |ls[0]|, |ls|)
  {
    var n := |ls|;
    var w := |ls[0]|;
    assert |Last(ls)| == w;
    JoinLength(ls, w);
    IndexShift(w, w, n - 1);
    assert Index(w, 0, n) == Index(w, 0, n - 1) + w + 1;
  }

  /** A text whose lines all share the first line's width is a rectangle of that width. */
  lemma SameWidthRectangular(input: string)
    requires SameWidth(Lines(input))
    ensures |Lines(input)| == Newlines(input) + 1
    ensures Rectangular(input, |Lines(input)[0]|, |Lines(input)|)
  {
    LinesCount(input);
    JoinLines(input);
    JoinRectangular(Lines(input));
  }

  /** On an accepted grid, GetAt(x, y) is character x of line y. */
  lemma CellIsLineCharacter(input: string, start: char, x: nat, y: nat)
    requires Measure(input, start).Ok?
    requires x < Measure(input, start).value.width && y < Measure(input, start).value.height
    ensures Index(Measure(input, start).value.width, x, y) < |input|
    ensures GetAt(input, Measure(input, start).value.width, x, y) == Lines(input)[y][x]
  {
    LinesRoundTrip(input);
    JoinCell(Lines(input), |Lines(input)[0]|, x, y);
  }

  /** On an accepted grid the character at flat index i is cell CoordOf(input[..i]). */
  lemma CoordOfIndex(input: string, i: nat)
    requires SameWidth(Lines(input)) && i <= |input|
    ensures Index(|Lines(input)[0]|, CoordOf(input[..i]).0, CoordOf(input[..i]).1) == i
  {
    var w := |Lines(input)[0]|;
    var ls := Lines(input[..i]);
    TerminatedPrefix(input, i);
    assert forall j | 0 <= j < |ls| - 1 :: |ls[j]| == w by {
      forall j | 0 <= j < |ls| - 1
        ensures |ls[j]| == w
      {
        assert Terminated(ls)[j] == Terminated(Lines(input))[j];
      }
    }
    JoinLength(ls, w);
    LinesRoundTrip(input[..i]);
    assert |Join(ls)| == i;
  }

  /** On an accepted grid the root's cell is the last character equal to `start`. */
  lemma RootCellIsLastStart(input: string, start: char)
    requires Measure(input, start).Ok? && start in input
    ensures var d := Measure(input, start).value;
            Index(d.width, d.startX, d.startY) == LastIndex(input, start) &&
            GetAt(input, d.width, d.startX, d.startY) == start
  {
    StartIsLastOccurrence(input, start);
    CoordOfIndex(input, LastIndex(input, start));
  }

  // ---------------------------------------------------------------------
  // How the check as written departs from the intended one.

  lemma {:induction false} FirstNonZeroOfNonEmptyHead(ts: seq<string>)
    requires |ts| >= 1 && |ts[0]| > 0
    ensures FirstNonZero(ts) == |ts[0]|
  {
    if |ts| > 1 {
      FirstNonZeroOfNonEmptyHead(ts[..|ts| - 1]);
    }
  }

  /** When the first line is closed and non-empty, the check as written is the intended one. */
  lemma AsWrittenAgreesWhenFirstLineNonEmpty(ls: seq<string>)
    requires |ls| >= 2 && |ls[0]| > 0
    ensures AcceptedAsWritten(ls) <==> SameWidth(ls)
  {
    var ts := Terminated(ls);
    FirstNonZeroOfNonEmptyHead(ts);
    forall j | 0 <= j < |ts|
      ensures |ts[j]| == FirstNonZero(ts[..j + 1]) <==> |ts[j]| == |ts[0]|
    {
      FirstNonZeroOfNonEmptyHead(ts[..j + 1]);
    }
    if SameWidth(ls) {
      assert Last(ls) == ls[|ls| - 1];
    }
  }

  /**
   When the first line is closed and non-empty, the measuring pass as
   written and as intended give the same outcome, error kind included.
   */
  lemma DimensionsAgree(input: string, start: char)
    requires |Lines(input)| >= 2 && |Lines(input)[0]| > 0
    ensures Dimensions(input, start) == Measure(input, start)
  {
    var ls := Lines(input);
    var ts := Terminated(ls);
    AsWrittenAgreesWhenFirstLineNonEmpty(ls);
    FirstNonZeroOfNonEmptyHead(ts);
    forall j | 0 <= j < |ts|
      ensures |ts[j]| == FirstNonZero(ts[..j + 1]) <==> |ts[j]| == |ls[0]|
    {
      FirstNonZeroOfNonEmptyHead(ts[..j + 1]);
    }
    assert TerminatedOk(ts) <==> forall j | 0 <= j < |ls| - 1 :: |ls[j]| == |ls[0]| by {
      assert forall j | 0 <= j < |ts| :: ts[j] == ls[j];
    }
  }

  /** Leading empty lines are skipped by the check as written: "\nab\nab" is accepted though its rows differ. */
  lemma LeadingEmptyLineAccepted()
    ensures AcceptedAsWritten(Lines("\nab\nab")) && !SameWidth(Lines("\nab\nab"))
    ensures Measure("\nab\nab", 'F') == Err(LinesDiffer)
  {
    var s0: string := [];
    var s1 := s0 + ['\n'];
    var s2 := s1 + ['a'];
    var s3 := s2 + ['b'];
    var s4 := s3 + ['\n'];
    var s5 := s4 + ['a'];
    var s := s5 + ['b'];
    assert s == "\nab\nab";
    assert Lines(s0) == [""];
    LinesAppend(s0, '\n');
    assert Lines(s1) == ["", ""];
    LinesAppend(s1, 'a');
    assert Terminated(Lines(s1)) == [""] && Last(Lines(s1)) + ['a'] == "a";
    assert Lines(s2) == ["", "a"];
    LinesAppend(s2, 'b');
    assert Terminated(Lines(s2)) == [""] && Last(Lines(s2)) + ['b'] == "ab";
    assert Lines(s3) == ["", "ab"];
    LinesAppend(s3, '\n');
    assert Lines(s4) == ["", "ab", ""];
    LinesAppend(s4, 'a');
    assert Terminated(Lines(s4)) == ["", "ab"] && Last(Lines(s4)) + ['a'] == "a";
    assert Lines(s5) == ["", "ab", "a"];
    LinesAppend(s5, 'b');
    assert Terminated(Lines(s5)) == ["", "ab"] && Last(Lines(s5)) + ['b'] == "ab";
    var ls := Lines(s);
    assert ls == ["", "ab", "ab"];
    var ts := Terminated(ls);
    assert ts == ["", "ab"];
    assert ts[..1] == [""] && ts[..2] == ts;
    assert FirstNonZero([]) == 0;
    assert FirstNonZero(ts[..1]) == 0;
    assert FirstNonZero(ts) == 2;
    assert TerminatedOk(ts);
    assert |ls[0]| != |ls[1]|;
  }

  /** A single non-empty line is rejected by the check as written, though it is a one-row rectangle. */
  lemma SingleLineRejected()
    ensures !AcceptedAsWritten(Lines("ab")) && SameWidth(Lines("ab"))
    ensures Measure("ab", 'F').Ok?
  {
    var s0: string := [];
    var s1 := s0 + ['a'];
    var s := s1 + ['b'];
    assert s == "ab";
    LinesAppend(s0, 'a');
    LinesAppend(s1, 'b');
    var ls := Lines(s);
    assert ls == ["ab"];
    assert Terminated(ls) == [];
    assert FirstNonZero([]) == 0;
  }
}
