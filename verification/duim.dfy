/**
 * main(): the du lines are turned into the dictionary, the target is looked
 * up (falling back to the path du printed on its last line), and the table
 * print_directory_info prints is rendered line by line. The command line,
 * the directory check and the du process itself are outside the model: the
 * standard output of du is a parameter.
 */
module Duim {
  import opened Errors
  import opened Numbers
  import opened Text
  import opened DuOutput
  import opened SizeFormat
  import opened Report

  /**
   * ' '.join(line.split()[1:]): the path du printed on a line, or "" when
   * the line holds no path. It is the path the dictionary took from the
   * same line, and it splits into the tokens after the size.
   */
  function LinePath(line: string): (path: string)
    ensures ParseLine(line).Record? ==> path == ParseLine(line).path
    ensures |Words(line)| < 2 ==> path == ""
    ensures Words(line) != [] ==> Words(path) == Words(line)[1..]
  {
    var parts := Words(line);
    if parts == [] then ""
    else
      WordsOfJoin(parts[1..]);
      JoinSpaces(parts[1..])
  }

  /**
   * The target and its total size. The target as given is used when it is
   * a key of the dictionary; otherwise the path on the last du line is used
   * (du may spell the directory differently, for instance with a trailing
   * slash removed). du_output[-1] on an empty list is an IndexError and a
   * missing key a KeyError.
   */
  function ResolveTarget(duOutput: seq<string>, dirDict: Dict, target: string): (r: Result<(string, nat)>)
    ensures r.Ok? ==> r.value.0 in dirDict.values && r.value.1 == dirDict.values[r.value.0]
    ensures target in dirDict.values <==> r.Ok? && r.value.0 == target
    ensures r.Err? <==>
      target !in dirDict.values && (duOutput == [] || LinePath(duOutput[|duOutput| - 1]) !in dirDict.values)
    ensures r.Err? && duOutput == [] ==> r.error == NoDuOutput
    ensures r.Err? && duOutput != [] ==> r.error == MissingKey(LinePath(duOutput[|duOutput| - 1]))
    ensures r.Ok? && target !in dirDict.values ==>
      duOutput != [] && r.value.0 == LinePath(duOutput[|duOutput| - 1])
  {
    if target in dirDict.values then Ok((target, dirDict.values[target]))
    else if duOutput == [] then Err(NoDuOutput)
    else
      var path := LinePath(duOutput[|duOutput| - 1]);
      if path in dirDict.values then Ok((path, dirDict.values[path])) else Err(MissingKey(path))
  }

  /**
   * A target that du recorded is resolved to itself, with the size of the
   * last line that recorded it.
   */
  lemma ResolveRecordedTarget(lines: seq<string>, i: nat, target: string, size: nat)
    requires DirDictOf(lines).Ok?
    requires i < |lines| && ParseLine(lines[i]) == Record(target, size)
    requires forall j :: i < j < |lines| ==> !RecordsPath(lines[j], target)
    ensures ResolveTarget(lines, DirDictOf(lines).value, target) == Ok((target, size))
  {
    DirDictLastWins(lines, i, target, size);
  }

  /**
   * du prints the target itself last. When that last line is a record, the
   * lookup never fails: whatever spelling of the target was given, the
   * result is either the target itself or the path and size du printed on
   * its last line.
   */
  lemma ResolveFromLastLine(lines: seq<string>, target: string)
    requires DirDictOf(lines).Ok?
    requires lines != [] && ParseLine(lines[|lines| - 1]).Record?
    ensures var r := ResolveTarget(lines, DirDictOf(lines).value, target);
      && r.Ok?
      && (target !in DirDictOf(lines).value.values ==>
            r.value == (ParseLine(lines[|lines| - 1]).path, ParseLine(lines[|lines| - 1]).size))
  {
    var last := lines[|lines| - 1];
    var p := ParseLine(last).path;
    assert LinePath(last) == p;
    DirDictLastWins(lines, |lines| - 1, p, ParseLine(last).size);
  }

  /** f"{x:.0f}": the nearest integer, ties to even, with a minus sign below zero. */
  function PercentText(x: real): (s: string)
    ensures x >= 0.0 ==> IsDigits(s) && DigitsValue(s) == RoundHalfEven(x)
    ensures x >= 0.0 && |s| > 1 ==> s[0] != '0'
    ensures x < 0.0 ==> |s| >= 2 && s[0] == '-' && IsDigits(s[1..]) && DigitsValue(s[1..]) == -RoundHalfEven(x)
    ensures x < 0.0 && |s| > 2 ==> s[1] != '0'
  {
    var r := RoundHalfEven(x);
    if x < 0.0 then
      NatToStringRoundTrip(-r);
      var s := "-" + NatToString(-r);
      assert s[1..] == NatToString(-r);
      s
    else
      NatToStringRoundTrip(r);
      NatToString(r)
  }

  /** Numbers below 1000 have at most three digits. */
  lemma NatToStringWidth(n: nat)
    requires n < 1000
    ensures |NatToString(n)| <= 3
  {
    if n >= 10 {
      assert |NatToString(n / 10)| <= 2 by {
        if n / 10 >= 10 {
          assert |NatToString(n / 10 / 10)| == 1;
        }
      }
    }
  }

  /** The text of one printed line: f"{percent:3.0f} % [{bar}] {size_str:8} {dir_path}" or the total line. */
  function RenderLine(line: Line): string {
    match line
    case Child(percent, bar, _, sizeText, path) => RowText(percent, bar, sizeText, path)
    case Total(sizeText, path) => "Total: " + sizeText + "   " + path
  }

  /** f"{percent:3.0f} % [{bar}] {size_str:8} {dir_path}". */
  function RowText(percent: real, bar: string, sizeText: string, path: string): string {
    PadLeft(PercentText(percent), 3) + TailText(bar, sizeText, path)
  }

  /** The part of a row after the percentage column. */
  function TailText(bar: string, sizeText: string, path: string): string {
    " % [" + bar + "] " + PadRight(sizeText, 8) + " " + path
  }

  /**
   * The field holds the decimal digits of n, right aligned: spaces, then
   * the digits, with no zero in front of them.
   */
  predicate RightAligned(field: string, n: int) {
    exists j :: 0 <= j < |field| && (forall i :: 0 <= i < j ==> field[i] == ' ')
                && IsDigits(field[j..]) && DigitsValue(field[j..]) == n
                && (field[j] != '0' || j == |field| - 1)
  }

  /** f"{percent:3.0f}" for a percentage in [0, 100] is exactly three columns wide. */
  lemma PercentColumn(percent: real)
    requires 0.0 <= percent <= 100.0
    ensures |PadLeft(PercentText(percent), 3)| == 3
    ensures RightAligned(PadLeft(PercentText(percent), 3), RoundHalfEven(percent))
  {
    var digits := PercentText(percent);
    NatToStringWidth(RoundHalfEven(percent));
    var field := PadLeft(digits, 3);
    var j := 3 - |digits|;
    assert field[j..] == digits;
  }

  /**
   * The columns of a row: the percentage, rounded half to even, right
   * aligned in the first three columns; " % [" in columns 3 to 6; the bar
   * from column 7; "] " after it; then the size text, left aligned and
   * padded with spaces to at least 8 columns, one more space and, last,
   * the path. Every percentage in [0, 100] fits in three columns, so the bars of all
   * rows start in the same column.
   */
  lemma RowLayout(percent: real, bar: string, sizeText: string, path: string)
    requires 0.0 <= percent <= 100.0
    ensures var text := RowText(percent, bar, sizeText, path);
      var w := |bar|;
      && |text| == 10 + w + (if |sizeText| < 8 then 8 else |sizeText|) + |path|
      && RightAligned(text[..3], RoundHalfEven(percent))
      && text[3..7] == " % ["
      && text[7..7 + w] == bar
      && text[7 + w..9 + w] == "] "
      && text[9 + w..9 + w + |sizeText|] == sizeText
      && (forall i :: 9 + w + |sizeText| <= i < |text| - |path| ==> text[i] == ' ')
      && text[|text| - |path|..] == path
  {
    PercentColumn(percent);
    var field := PadLeft(PercentText(percent), 3);
    var tail := TailText(bar, sizeText, path);
    TailLayout(bar, sizeText, path);
    ShiftLayout(field, tail, bar, sizeText, path);
    assert RowText(percent, bar, sizeText, path) == field + tail;
  }

  /** The layout of a tail, shifted right by a three-column field in front of it. */
  lemma ShiftLayout(field: string, tail: string, bar: string, sizeText: string, path: string)
    requires |field| == 3
    requires var w := |bar|;
      && |tail| == 7 + w + (if |sizeText| < 8 then 8 else |sizeText|) + |path|
      && tail[..4] == " % ["
      && tail[4..4 + w] == bar
      && tail[4 + w..6 + w] == "] "
      && tail[6 + w..6 + w + |sizeText|] == sizeText
      && (forall i :: 6 + w + |sizeText| <= i < |tail| - |path| ==> tail[i] == ' ')
      && tail[|tail| - |path|..] == path
    ensures var text := field + tail;
      var w := |bar|;
      && |text| == 10 + w + (if |sizeText| < 8 then 8 else |sizeText|) + |path|
      && text[..3] == field
      && text[3..7] == " % ["
      && text[7..7 + w] == bar
      && text[7 + w..9 + w] == "] "
      && text[9 + w..9 + w + |sizeText|] == sizeText
      && (forall i :: 9 + w + |sizeText| <= i < |text| - |path| ==> text[i] == ' ')
      && text[|text| - |path|..] == path
  {
    var text := field + tail;
    var w := |bar|;
    assert text[..3] == field;
    SliceOfSecond(field, tail, 3, 7);
    SliceOfSecond(field, tail, 7, 7 + w);
    SliceOfSecond(field, tail, 7 + w, 9 + w);
    SliceOfSecond(field, tail, 9 + w, 9 + w + |sizeText|);
    SliceOfSecond(field, tail, |text| - |path|, |text|);
    SpacesOfSecond(field, tail, 9 + w + |sizeText|, |text| - |path|);
  }

  lemma TailLayout(bar: string, sizeText: string, path: string)
    ensures var tail := TailText(bar, sizeText, path);
      var w := |bar|;
      && |tail| == 7 + w + (if |sizeText| < 8 then 8 else |sizeText|) + |path|
      && tail[..4] == " % ["
      && tail[4..4 + w] == bar
      && tail[4 + w..6 + w] == "] "
      && tail[6 + w..6 + w + |sizeText|] == sizeText
      && (forall i :: 6 + w + |sizeText| <= i < |tail| - |path| ==> tail[i] == ' ')
      && tail[|tail| - |path|..] == path
  {
    var sized := PadRight(sizeText, 8);
    var w := |bar|;
    var tail := " % [" + bar + "] " + sized + " " + path;
    assert tail[6 + w..6 + w + |sized|] == sized;
    assert sized[..|sizeText|] == sizeText;
    forall i | 6 + w + |sizeText| <= i < |tail| - |path|
      ensures tail[i] == ' '
    {
      if i < 6 + w + |sized| {
        assert tail[i] == sized[i - 6 - w];
      }
    }
  }

  /** A run of spaces within b is a run of spaces within a + b. */
  lemma SpacesOfSecond(a: string, b: string, lo: int, hi: int)
    requires |a| <= lo && hi <= |a| + |b|
    requires forall i :: lo - |a| <= i < hi - |a| ==> b[i] == ' '
    ensures forall i :: lo <= i < hi ==> (a + b)[i] == ' '
  {
  }

  /**
   * f"Total: {total_str}   {target_dir}": "Total: ", the size text, three
   * spaces, and the target's path at the end of the line.
   */
  lemma TotalLayout(sizeText: string, path: string)
    ensures var text := RenderLine(Total(sizeText, path));
      var n := |sizeText|;
      && |text| == 10 + n + |path|
      && text[..7] == "Total: "
      && text[7..7 + n] == sizeText
      && text[7 + n..10 + n] == "   "
      && text[10 + n..] == path
  {
    var text := RenderLine(Total(sizeText, path));
    var n := |sizeText|;
    assert text == "Total: " + sizeText + "   " + path;
  }

  /** A slice of a + b that lies within b. */
  lemma SliceOfSecond(a: string, b: string, i: int, j: int)
    requires |a| <= i <= j <= |a| + |b|
    ensures (a + b)[i..j] == b[i - |a|..j - |a|]
  {
  }

  /** The printed text of every line, in order. */
  function Render(lines: seq<Line>): (out: seq<string>)
    ensures |out| == |lines|
  {
    seq(|lines|, i requires 0 <= i < |lines| => RenderLine(lines[i]))
  }

  lemma RenderAppend(a: seq<Line>, b: seq<Line>)
    ensures Render(a + b) == Render(a) + Render(b)
  {
    assert forall i :: 0 <= i < |a| ==> (a + b)[i] == a[i];
    assert forall i :: |a| <= i < |a| + |b| ==> (a + b)[i] == b[i - |a|];
  }

  /**
   * print_directory_info followed by printing: the rendered table, or the
   * exception raised by its first row.
   */
  method PrintTable(dirDict: Dict, totalSize: nat, targetDir: string, humanReadable: bool, barLength: int)
    returns (out: seq<string>, err: Option<Error>)
    requires dirDict.Valid()
    ensures var children := Without(Items(dirDict), targetDir);
      var rows := SortBySizeDesc(children);
      && TableOutcome(children, totalSize, err)
      && (err.Some? ==> out == [])
      && (err.None? ==>
            && (forall k :: 0 <= k < |rows| ==> Fits(rows[k], totalSize))
            && |out| == |children| + 1
            && out == Render(ChildLines(rows, totalSize, humanReadable, barLength))
                      + [RenderLine(Total(SizeText(totalSize, humanReadable), targetDir))])
  {
    var table;
    table, err := PrintDirectoryInfo(dirDict, totalSize, targetDir, humanReadable, barLength);
    if err.Some? {
      return [], err;
    }
    ghost var rows := SortBySizeDesc(Without(Items(dirDict), targetDir));
    out := Render(table);
    RenderTable(table, ChildLines(rows, totalSize, humanReadable, barLength),
                Total(SizeText(totalSize, humanReadable), targetDir));
  }

  /** Rendering the rows followed by the total line renders each in turn. */
  lemma RenderTable(table: seq<Line>, rows: seq<Line>, total: Line)
    requires table == rows + [total]
    ensures Render(table) == Render(rows) + [RenderLine(total)]
    ensures |Render(table)| == |rows| + 1
  {
    RenderAppend(rows, [total]);
  }

  /**
   * main() after the directory check, given the standard output of
   * `du -d 1 target`. An exception ends the run before the table: the
   * first invalid size (ValueError), the failed lookup of the target
   * (IndexError or KeyError), then the first row that cannot be printed
   * (ZeroDivisionError or ValueError). Otherwise the output is one row
   * per child of the resolved target, largest first, and the total line.
   */
  method Run(stdout: string, target: string, humanReadable: bool, barLength: int)
    returns (out: seq<string>, err: Option<Error>)
    ensures err.Some? ==> out == []
    ensures var lines := DuLines(stdout);
      DirDictOf(lines).Err? ==> err == Some(DirDictOf(lines).error)
    ensures var lines := DuLines(stdout);
      DirDictOf(lines).Ok? && ResolveTarget(lines, DirDictOf(lines).value, target).Err? ==>
        err == Some(ResolveTarget(lines, DirDictOf(lines).value, target).error)
    ensures var lines := DuLines(stdout);
      DirDictOf(lines).Ok? && ResolveTarget(lines, DirDictOf(lines).value, target).Ok? ==>
        var d := DirDictOf(lines).value;
        var path := ResolveTarget(lines, d, target).value.0;
        var total := ResolveTarget(lines, d, target).value.1;
        var children := Without(Items(d), path);
        var rows := SortBySizeDesc(children);
        && TableOutcome(children, total, err)
        && (err.None? ==>
              && (forall k :: 0 <= k < |rows| ==> Fits(rows[k], total))
              && |out| == |children| + 1
              && out == Render(ChildLines(rows, total, humanReadable, barLength))
                        + [RenderLine(Total(SizeText(total, humanReadable), path))])
  {
    out := [];
    var lines := DuLines(stdout);
    var dirDict := CreateDirDict(lines);
    if dirDict.Err? {
      return [], Some(dirDict.error);
    }
    var resolved := ResolveTarget(lines, dirDict.value, target);
    if resolved.Err? {
      return [], Some(resolved.error);
    }
    var path := resolved.value.0;
    var total := resolved.value.1;
    out, err := PrintTable(dirDict.value, total, path, humanReadable, barLength);
  }
}
