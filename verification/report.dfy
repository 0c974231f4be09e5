/**
 * print_directory_info: the entries sorted by size, largest first and
 * stably, one row per entry other than the target, then the total line.
 * The rows are returned instead of printed.
 */
module Report {
  import opened Errors
  import opened Numbers
  import opened Bar
  import opened DuOutput
  import opened SizeFormat

  predicate SortedBySizeDesc(s: seq<Entry>) {
    forall i, j :: 0 <= i < j < |s| ==> s[i].size >= s[j].size
  }

  /** The entries of s whose size is v, in their order in s. */
  function WithSize(s: seq<Entry>, v: nat): seq<Entry> {
    if s == [] then [] else (if s[0].size == v then [s[0]] else []) + WithSize(s[1..], v)
  }

  /** Puts e in front of the first entry of t that is not larger than e. */
  function Insert(e: Entry, t: seq<Entry>): (r: seq<Entry>)
    ensures |r| == |t| + 1
  {
    if t == [] || t[0].size <= e.size then [e] + t
    else [t[0]] + Insert(e, t[1..])
  }

  lemma {:induction false} InsertPermutes(e: Entry, t: seq<Entry>)
    ensures multiset(Insert(e, t)) == multiset(t) + multiset{e}
  {
    if t != [] && t[0].size > e.size {
      InsertPermutes(e, t[1..]);
      assert t == [t[0]] + t[1..];
    }
  }

  lemma {:induction false} InsertSorted(e: Entry, t: seq<Entry>)
    requires SortedBySizeDesc(t)
    ensures SortedBySizeDesc(Insert(e, t))
    ensures Insert(e, t)[0] == e || Insert(e, t)[0] == t[0]
  {
    if t != [] && t[0].size > e.size {
      var rest := Insert(e, t[1..]);
      InsertSorted(e, t[1..]);
      var r := [t[0]] + rest;
      assert r[0] == t[0];
      assert rest[0].size <= t[0].size;
      forall i, j | 0 <= i < j < |r|
        ensures r[i].size >= r[j].size
      {
        assert r[j] == rest[j - 1];
        if i > 0 {
          assert r[i] == rest[i - 1];
        } else {
          assert rest[0].size >= rest[j - 1].size;
        }
      }
    }
  }

  lemma {:induction false} InsertWithSize(e: Entry, t: seq<Entry>, v: nat)
    ensures WithSize(Insert(e, t), v) == (if e.size == v then [e] else []) + WithSize(t, v)
  {
    if t == [] || t[0].size <= e.size {
      var r := [e] + t;
      assert r[0] == e && r[1..] == t;
    } else {
      var rest := Insert(e, t[1..]);
      var r := [t[0]] + rest;
      assert r[0] == t[0] && r[1..] == rest;
      InsertWithSize(e, t[1..], v);
      var w1 := WithSize(t[1..], v);
      if t[0].size == v {
        assert WithSize(r, v) == [t[0]] + WithSize(rest, v);
        assert WithSize(rest, v) == w1;
        assert WithSize(t, v) == [t[0]] + w1;
      } else if e.size == v {
        assert WithSize(r, v) == WithSize(rest, v);
        assert WithSize(rest, v) == [e] + w1;
        assert WithSize(t, v) == w1;
      } else {
        assert WithSize(r, v) == WithSize(rest, v);
        assert WithSize(rest, v) == w1;
        assert WithSize(t, v) == w1;
      }
    }
  }

  /**
   * sorted(items, key=size, reverse=True): largest first, a permutation of
   * the input, and stable: entries of equal size keep their input order.
   */
  function SortBySizeDesc(s: seq<Entry>): (r: seq<Entry>)
    ensures |r| == |s|
    ensures multiset(r) == multiset(s)
    ensures SortedBySizeDesc(r)
    ensures forall v :: WithSize(r, v) == WithSize(s, v)
  {
    if s == [] then []
    else
      assert s == [s[0]] + s[1..];
      var t := SortBySizeDesc(s[1..]);
      InsertPermutes(s[0], t);
      InsertSorted(s[0], t);
      forall v ensures WithSize(Insert(s[0], t), v) == WithSize(s, v) {
        InsertWithSize(s[0], t, v);
      }
      Insert(s[0], t)
  }

  /** The entries of s whose path is not p, in their order in s. */
  function Without(s: seq<Entry>, p: string): (r: seq<Entry>)
    ensures forall k :: 0 <= k < |r| ==> r[k] in s && r[k].path != p
  {
    if s == [] then []
    else
      assert s == [s[0]] + s[1..];
      (if s[0].path == p then [] else [s[0]]) + Without(s[1..], p)
  }

  /**
   * Skipping the target drops nothing else: an entry is kept exactly when
   * its path differs from p, and as many times as it occurs in s.
   */
  lemma {:induction false} WithoutKeepsOthers(s: seq<Entry>, p: string)
    ensures forall x: Entry :: x in Without(s, p) <==> x in s && x.path != p
    ensures forall x: Entry :: x.path != p ==> multiset(Without(s, p))[x] == multiset(s)[x]
  {
    if s != [] {
      WithoutKeepsOthers(s[1..], p);
      assert s == [s[0]] + s[1..];
    }
  }

  lemma {:induction false} WithoutSnoc(s: seq<Entry>, e: Entry, p: string)
    ensures Without(s + [e], p) == Without(s, p) + (if e.path == p then [] else [e])
  {
    if s != [] {
      assert (s + [e])[1..] == s[1..] + [e];
      WithoutSnoc(s[1..], e, p);
    } else {
      assert [e][1..] == [];
    }
  }

  lemma {:induction false} WithoutInsert(e: Entry, t: seq<Entry>, p: string)
    requires SortedBySizeDesc(t)
    ensures Without(Insert(e, t), p) ==
      if e.path == p then Without(t, p) else Insert(e, Without(t, p))
  {
    var wt := Without(t, p);
    if t == [] || t[0].size <= e.size {
      var r := [e] + t;
      assert r[0] == e && r[1..] == t;
      assert Without(r, p) == (if e.path == p then [] else [e]) + wt;
      if e.path != p && wt != [] {
        var idx :| 0 <= idx < |t| && t[idx] == wt[0];
        assert wt[0].size <= e.size;
      }
    } else {
      WithoutInsert(e, t[1..], p);
      WithoutInsertBehind(e, t, p);
    }
  }

  /** The step of WithoutInsert where e goes behind the first entry of t. */
  lemma {:induction false} WithoutInsertBehind(e: Entry, t: seq<Entry>, p: string)
    requires t != [] && t[0].size > e.size
    requires Without(Insert(e, t[1..]), p) ==
      if e.path == p then Without(t[1..], p) else Insert(e, Without(t[1..], p))
    ensures Without(Insert(e, t), p) ==
      if e.path == p then Without(t, p) else Insert(e, Without(t, p))
  {
    var rest := Insert(e, t[1..]);
    var r := [t[0]] + rest;
    assert Insert(e, t) == r;
    assert r[0] == t[0] && r[1..] == rest;
    var w1 := Without(t[1..], p);
    if t[0].path == p {
      assert Without(r, p) == Without(rest, p);
      assert Without(t, p) == w1;
    } else {
      assert Without(r, p) == [t[0]] + Without(rest, p);
      assert Without(t, p) == [t[0]] + w1;
      if e.path != p {
        var wt := [t[0]] + w1;
        assert wt[0] == t[0] && wt[1..] == w1;
        assert Insert(e, wt) == [t[0]] + Insert(e, w1);
      }
    }
  }


  /** Skipping the target while walking the sorted entries is sorting the other entries. */
  lemma {:induction false} SortWithout(s: seq<Entry>, p: string)
    ensures Without(SortBySizeDesc(s), p) == SortBySizeDesc(Without(s, p))
  {
    if s != [] {
      var rest := s[1..];
      var sortedRest := SortBySizeDesc(rest);
      assert SortBySizeDesc(s) == Insert(s[0], sortedRest);
      SortWithout(rest, p);
      WithoutInsert(s[0], sortedRest, p);
      var w := Without(rest, p);
      if s[0].path == p {
        assert Without(s, p) == w;
      } else {
        var ws := [s[0]] + w;
        assert Without(s, p) == ws;
        assert ws[0] == s[0] && ws[1..] == w;
        assert SortBySizeDesc(ws) == Insert(s[0], SortBySizeDesc(w));
      }
    }
  }

  /** One printed line: a child directory's row, or the closing total. */
  datatype Line =
    | Child(percent: real, bar: string, size: nat, sizeText: string, path: string)
    | Total(sizeText: string, path: string)

  /** (size / total_size) * 100. */
  function Percent(size: nat, total: nat): real
    requires total > 0
  {
    size as real / total as real * 100.0
  }

  /** The percentage is the exact share of the total: percent * total == 100 * size. */
  lemma PercentIsShare(size: nat, total: nat)
    requires total > 0
    ensures Percent(size, total) * total as real == size as real * 100.0
  {
    var q := size as real / total as real;
    assert q * total as real == size as real;
  }

  /** A child's percentage is never negative, and is at most 100 exactly when it is not larger than the total. */
  lemma PercentInRange(size: nat, total: nat)
    requires total > 0
    ensures Percent(size, total) >= 0.0
    ensures Percent(size, total) <= 100.0 <==> size <= total
  {
    var q := size as real / total as real;
    assert q * total as real == size as real;
    if size <= total {
      assert q <= 1.0;
    } else {
      assert q > 1.0;
    }
  }

  /** The child can be printed: there is a total to divide by and the share is at most 100 %. */
  predicate Fits(e: Entry, total: nat) {
    total > 0 && e.size <= total
  }

  /** The row printed for a child that fits. */
  function ChildLine(e: Entry, total: nat, humanReadable: bool, barLength: int): Line
    requires Fits(e, total)
  {
    var percent := Percent(e.size, total);
    PercentInRange(e.size, total);
    Child(percent, PercentToGraph(percent, barLength).value, e.size, SizeText(e.size, humanReadable), e.path)
  }

  /** The rows printed for children that all fit, in their order. */
  function ChildLines(es: seq<Entry>, total: nat, humanReadable: bool, barLength: int): (r: seq<Line>)
    requires forall k :: 0 <= k < |es| ==> Fits(es[k], total)
    ensures |r| == |es|
  {
    if es == [] then []
    else [ChildLine(es[0], total, humanReadable, barLength)] + ChildLines(es[1..], total, humanReadable, barLength)
  }

  lemma {:induction false} ChildLinesSnoc(es: seq<Entry>, e: Entry, total: nat, humanReadable: bool, barLength: int)
    requires forall k :: 0 <= k < |es| ==> Fits(es[k], total)
    requires Fits(e, total)
    ensures ChildLines(es + [e], total, humanReadable, barLength) ==
      ChildLines(es, total, humanReadable, barLength) + [ChildLine(e, total, humanReadable, barLength)]
  {
    if es != [] {
      assert (es + [e])[0] == es[0] && (es + [e])[1..] == es[1..] + [e];
      ChildLinesSnoc(es[1..], e, total, humanReadable, barLength);
    } else {
      assert es + [e] == [e];
    }
  }

  /**
   * Each row shows its child's path and size, its share of the total as a
   * percentage in [0, 100], and the bar percent_to_graph draws for it.
   */
  lemma {:induction false} ChildLinesAt(es: seq<Entry>, total: nat, humanReadable: bool, barLength: int, k: nat)
    requires forall j :: 0 <= j < |es| ==> Fits(es[j], total)
    requires k < |es|
    ensures var line := ChildLines(es, total, humanReadable, barLength)[k];
      && line.Child?
      && line.path == es[k].path && line.size == es[k].size
      && line.sizeText == SizeText(es[k].size, humanReadable)
      && line.percent == es[k].size as real / total as real * 100.0
      && 0.0 <= line.percent <= 100.0
      && PercentToGraph(line.percent, barLength) == Ok(line.bar)
  {
    PercentInRange(es[k].size, total);
    if k > 0 {
      ChildLinesAt(es[1..], total, humanReadable, barLength, k - 1);
    }
  }

  lemma {:induction false} WithoutAppend(a: seq<Entry>, b: seq<Entry>, p: string)
    ensures Without(a + b, p) == Without(a, p) + Without(b, p)
  {
    if a != [] {
      assert (a + b)[0] == a[0] && (a + b)[1..] == a[1..] + b;
      WithoutAppend(a[1..], b, p);
    } else {
      assert a + b == b;
    }
  }

  /** The entries kept from a prefix of s are a prefix of the entries kept from s. */
  lemma WithoutPrefix(s: seq<Entry>, i: nat, p: string)
    requires i <= |s|
    ensures |Without(s[..i], p)| <= |Without(s, p)|
    ensures Without(s[..i], p) == Without(s, p)[..|Without(s[..i], p)|]
  {
    assert s == s[..i] + s[i..];
    WithoutAppend(s[..i], s[i..], p);
  }

  /** One step of the walk over the sorted entries: the kept ones stay a prefix of rows. */
  lemma WalkStep(s: seq<Entry>, rows: seq<Entry>, i: nat, n: nat, p: string)
    requires i < |s| && n <= |rows|
    requires Without(s, p) == rows
    requires Without(s[..i], p) == rows[..n]
    ensures s[i].path != p ==> n < |rows| && rows[n] == s[i] && Without(s[..i + 1], p) == rows[..n + 1]
    ensures s[i].path == p ==> Without(s[..i + 1], p) == rows[..n]
  {
    assert s[..i + 1] == s[..i] + [s[i]];
    WithoutSnoc(s[..i], s[i], p);
    WithoutPrefix(s, i + 1, p);
    if s[i].path != p {
      PrefixThen(rows, Without(s[..i + 1], p), n, s[i]);
    }
  }

  /** A prefix of rows that extends rows[..n] by e puts e at position n. */
  lemma PrefixThen(rows: seq<Entry>, w: seq<Entry>, n: nat, e: Entry)
    requires n <= |rows| && |w| <= |rows|
    requires w == rows[..n] + [e]
    requires w == rows[..|w|]
    ensures n < |rows| && rows[n] == e && w == rows[..n + 1]
  {
    assert w[n] == e;
  }

  lemma SortKeepsEntry(s: seq<Entry>, x: Entry)
    ensures x in SortBySizeDesc(s) <==> x in s
  {
    var r := SortBySizeDesc(s);
    assert x in r <==> x in multiset(r);
    assert x in s <==> x in multiset(s);
  }

  /** Every child fits once every row of the sorted table fits. */
  lemma AllChildrenFit(children: seq<Entry>, totalSize: nat)
    requires forall k :: 0 <= k < |SortBySizeDesc(children)| ==> Fits(SortBySizeDesc(children)[k], totalSize)
    ensures forall k :: 0 <= k < |children| ==> Fits(children[k], totalSize)
  {
    var rows := SortBySizeDesc(children);
    forall k | 0 <= k < |children|
      ensures Fits(children[k], totalSize)
    {
      SortKeepsEntry(children, children[k]);
      assert children[k] in rows;
    }
  }

  /**
   * A failing first row of the sorted table decides the exception:
   * ZeroDivisionError when the total is zero, ValueError from
   * percent_to_graph otherwise.
   */
  lemma FailingTable(children: seq<Entry>, totalSize: nat, err: Option<Error>)
    requires SortBySizeDesc(children) != [] && !Fits(SortBySizeDesc(children)[0], totalSize)
    requires err == if totalSize == 0 then Some(ZeroDivision) else Some(PercentOutOfRange)
    ensures err == Some(ZeroDivision) <==> totalSize == 0 && children != []
    ensures err == Some(PercentOutOfRange) <==>
              totalSize > 0 && exists k :: 0 <= k < |children| && children[k].size > totalSize
    ensures err.None? <==> forall k :: 0 <= k < |children| ==> Fits(children[k], totalSize)
  {
    var first := SortBySizeDesc(children)[0];
    SortKeepsEntry(children, first);
    var k :| 0 <= k < |children| && children[k] == first;
    assert !Fits(children[k], totalSize);
  }

  /** The first row of a sorted table is the largest. */
  lemma SortedLargestFirst(rows: seq<Entry>)
    requires SortedBySizeDesc(rows)
    ensures LargestFirst(rows)
  {
    forall k | 0 <= k < |rows|
      ensures rows[k].size <= rows[0].size
    {
      if k > 0 {
        assert rows[0].size >= rows[k].size;
      }
    }
  }

  /** The size column of a row or of the total line (duim.py formats both the same way). */
  method FormatSize(size: nat, humanReadable: bool) returns (text: string)
    ensures text == SizeText(size, humanReadable)
    ensures !humanReadable ==> IsDigits(text) && DigitsValue(text) == size
  {
    if humanReadable {
      text := HumanReadableSize(size);
    } else {
      text := NatToString(size);
      NatToStringRoundTrip(size);
    }
  }

  /**
   * The body of the loop of print_directory_info for one child: its
   * percentage, its bar and its size column, or the exception raised on
   * the way (a zero total first, then a percentage over 100).
   */
  method DirectoryRow(entry: Entry, totalSize: nat, humanReadable: bool, barLength: int)
    returns (line: Line, err: Option<Error>)
    ensures totalSize == 0 ==> err == Some(ZeroDivision)
    ensures totalSize > 0 && entry.size > totalSize ==> err == Some(PercentOutOfRange)
    ensures err.None? <==> Fits(entry, totalSize)
    ensures err.None? ==> line == ChildLine(entry, totalSize, humanReadable, barLength)
  {
    line := Total("", "");
    if totalSize == 0 {
      return line, Some(ZeroDivision);
    }
    var percent := (entry.size as real / totalSize as real) * 100.0;
    PercentInRange(entry.size, totalSize);
    var bar := PercentToGraph(percent, barLength);
    if bar.Err? {
      return line, Some(bar.error);
    }
    var sizeStr := FormatSize(entry.size, humanReadable);
    line := Child(percent, bar.value, entry.size, sizeStr, entry.path);
    err := None;
  }

  /**
   * The lines printed so far are the rows of the first |lines| children of
   * the table, each of which fits.
   */
  ghost predicate Printed(rows: seq<Entry>, lines: seq<Line>, total: nat, humanReadable: bool, barLength: int)
    decreases |lines|
  {
    && |lines| <= |rows|
    && (lines != [] ==>
          var n := |lines| - 1;
          && Printed(rows, lines[..n], total, humanReadable, barLength)
          && Fits(rows[n], total)
          && lines[n] == ChildLine(rows[n], total, humanReadable, barLength))
  }

  lemma {:induction false} PrintedRows(rows: seq<Entry>, lines: seq<Line>, total: nat, humanReadable: bool, barLength: int)
    requires Printed(rows, lines, total, humanReadable, barLength)
    ensures forall k :: 0 <= k < |lines| ==> Fits(rows[k], total)
    ensures lines == ChildLines(rows[..|lines|], total, humanReadable, barLength)
    decreases |lines|
  {
    if lines != [] {
      var n := |lines| - 1;
      PrintedRows(rows, lines[..n], total, humanReadable, barLength);
      assert rows[..n + 1] == rows[..n] + [rows[n]];
      ChildLinesSnoc(rows[..n], rows[n], total, humanReadable, barLength);
      assert lines == lines[..n] + [lines[n]];
    }
  }

  /** No row is larger than the first one, as in a table sorted largest first. */
  predicate LargestFirst(rows: seq<Entry>) {
    forall k :: 0 <= k < |rows| ==> rows[k].size <= rows[0].size
  }

  /**
   * When the first row fits, so does every other row of a table whose first
   * row is the largest: a failing row can only be the first.
   */
  lemma LaterRowsFit(rows: seq<Entry>, n: nat, total: nat)
    requires LargestFirst(rows)
    requires n < |rows|
    requires forall k :: 0 <= k < n ==> Fits(rows[k], total)
    ensures n > 0 ==> Fits(rows[n], total)
  {
  }

  /**
   * One pass of the loop of print_directory_info for the child in the next
   * row of the table: the row is printed, or the exception is raised, which
   * can only happen at the first row.
   */
  method PrintRow(ghost rows: seq<Entry>, lines: seq<Line>, entry: Entry, totalSize: nat,
                  humanReadable: bool, barLength: int)
    returns (next: seq<Line>, err: Option<Error>)
    requires LargestFirst(rows)
    requires |lines| < |rows| && rows[|lines|] == entry
    requires Printed(rows, lines, totalSize, humanReadable, barLength)
    ensures err.Some? ==>
      && lines == [] && next == [] && !Fits(rows[0], totalSize)
      && err == if totalSize == 0 then Some(ZeroDivision) else Some(PercentOutOfRange)
    ensures err.None? ==>
      && |next| == |lines| + 1
      && Printed(rows, next, totalSize, humanReadable, barLength)
  {
    var line;
    line, err := DirectoryRow(entry, totalSize, humanReadable, barLength);
    if err.Some? {
      PrintedRows(rows, lines, totalSize, humanReadable, barLength);
      LaterRowsFit(rows, |lines|, totalSize);
      return [], err;
    }
    next := lines + [line];
    assert next[..|lines|] == lines;
  }

  /**
   * The loop of print_directory_info over the sorted entries, skipping the
   * target.
   */
  method PrintRows(sortedDirs: seq<Entry>, ghost rows: seq<Entry>, totalSize: nat, targetDir: string,
                   humanReadable: bool, barLength: int)
    returns (lines: seq<Line>, err: Option<Error>)
    requires Without(sortedDirs, targetDir) == rows
    requires LargestFirst(rows)
    ensures err.Some? ==>
      && lines == [] && rows != [] && !Fits(rows[0], totalSize)
      && err == if totalSize == 0 then Some(ZeroDivision) else Some(PercentOutOfRange)
    ensures err.None? ==>
      && (forall k :: 0 <= k < |rows| ==> Fits(rows[k], totalSize))
      && lines == ChildLines(rows, totalSize, humanReadable, barLength)
  {
    lines := [];
    err := None;
    var i := 0;
    while i < |sortedDirs|
      invariant 0 <= i <= |sortedDirs|
      invariant |lines| <= |rows|
      invariant Without(sortedDirs[..i], targetDir) == rows[..|lines|]
      invariant Printed(rows, lines, totalSize, humanReadable, barLength)
      invariant err.None?
    {
      var entry := sortedDirs[i];
      WalkStep(sortedDirs, rows, i, |lines|, targetDir);
      if entry.path != targetDir {
        lines, err := PrintRow(rows, lines, entry, totalSize, humanReadable, barLength);
        if err.Some? {
          return;
        }
      }
      i := i + 1;
    }
    assert sortedDirs[..i] == sortedDirs;
    assert rows[..|lines|] == rows;
    PrintedRows(rows, lines, totalSize, humanReadable, barLength);
  }

  /**
   * The exception, if any, that printing the rows of these children
   * raises: ZeroDivisionError exactly when the total is zero and there is
   * a child, ValueError from percent_to_graph exactly when some child is
   * larger than a non-zero total, and none exactly when every child fits.
   */
  predicate TableOutcome(children: seq<Entry>, total: nat, err: Option<Error>) {
    && (err == Some(ZeroDivision) <==> total == 0 && children != [])
    && (err == Some(PercentOutOfRange) <==>
          total > 0 && exists k :: 0 <= k < |children| && children[k].size > total)
    && (err.None? <==> forall k :: 0 <= k < |children| ==> Fits(children[k], total))
  }

  /**
   * print_directory_info(dir_dict, total_size, target_dir, human_readable,
   * bar_length). The children are the entries other than the target. On
   * success the lines are one row per child, in stable largest-first order,
   * then exactly one total line. Dividing by a zero total with a child to
   * print is a ZeroDivisionError; a child larger than the total puts its
   * percentage over 100 and percent_to_graph raises ValueError. Either way
   * nothing has been printed.
   */
  method PrintDirectoryInfo(dirDict: Dict, totalSize: nat, targetDir: string,
                            humanReadable: bool, barLength: int)
    returns (lines: seq<Line>, err: Option<Error>)
    requires dirDict.Valid()
    ensures TableOutcome(Without(Items(dirDict), targetDir), totalSize, err)
    ensures err.Some? ==> lines == []
    ensures err.None? ==>
      var rows := SortBySizeDesc(Without(Items(dirDict), targetDir));
      && (forall k :: 0 <= k < |rows| ==> Fits(rows[k], totalSize))
      && lines == ChildLines(rows, totalSize, humanReadable, barLength)
                  + [Total(SizeText(totalSize, humanReadable), targetDir)]
  {
    var sortedDirs := SortBySizeDesc(Items(dirDict));
    ghost var children := Without(Items(dirDict), targetDir);
    ghost var rows := SortBySizeDesc(children);
    SortWithout(Items(dirDict), targetDir);
    SortedLargestFirst(rows);
    lines, err := PrintRows(sortedDirs, rows, totalSize, targetDir, humanReadable, barLength);
    if err.Some? {
      FailingTable(children, totalSize, err);
      return;
    }
    AllChildrenFit(children, totalSize);
    var totalStr := FormatSize(totalSize, humanReadable);
    lines := lines + [Total(totalStr, targetDir)];
  }
}
