/**
 * From the text du prints to the directory dictionary: the line filter of
 * call_du_sub and create_dir_dict. A Python dict remembers the order in
 * which keys were first inserted, and that order later breaks ties when
 * the report sorts by size, so the dictionary is modelled as its key order
 * together with its key-to-value map.
 */
module DuOutput {
  import opened Errors
  import opened Numbers
  import opened Text

  /** One (path, size) pair of dict.items(). */
  datatype Entry = Entry(path: string, size: nat)

  /** A dict[str, int]: keys in insertion order and the values they map to. */
  datatype Dict = Dict(keys: seq<string>, values: map<string, nat>) {
    ghost predicate Valid() {
      && (forall i, j :: 0 <= i < j < |keys| ==> keys[i] != keys[j])
      && (forall k :: k in values <==> k in keys)
    }
  }

  const EmptyDict := Dict([], map[])

  /**
   * dir_dict[path] = size: the value is replaced, and a key that is already
   * present keeps its place in the iteration order; a new key goes last.
   */
  function Put(d: Dict, path: string, size: nat): (r: Dict)
    requires d.Valid()
    ensures r.Valid()
    ensures r.values == d.values[path := size]
    ensures path in d.values ==> r.keys == d.keys
    ensures path !in d.values ==> r.keys == d.keys + [path]
  {
    if path in d.values then Dict(d.keys, d.values[path := size])
    else Dict(d.keys + [path], d.values[path := size])
  }

  /** dict.items(): every key with its value, in insertion order. */
  function Items(d: Dict): (items: seq<Entry>)
    requires d.Valid()
    ensures |items| == |d.keys|
    ensures forall i :: 0 <= i < |items| ==>
      items[i].path == d.keys[i] && items[i].size == d.values[d.keys[i]]
  {
    seq(|d.keys|, i requires 0 <= i < |d.keys| => Entry(d.keys[i], d.values[d.keys[i]]))
  }

  /** Drops the empty strings, keeping the order of the others. */
  function NonEmpty(parts: seq<string>): (r: seq<string>)
    ensures forall i :: 0 <= i < |r| ==> r[i] != ""
    ensures forall i :: 0 <= i < |r| ==> r[i] in parts
    ensures forall x :: x in r <==> x in parts && x != ""
  {
    if parts == [] then []
    else (if parts[0] == "" then [] else [parts[0]]) + NonEmpty(parts[1..])
  }

  /** [line for line in stdout.split('\n') if line]. */
  function DuLines(stdout: string): (lines: seq<string>)
    ensures forall i :: 0 <= i < |lines| ==> lines[i] != "" && '\n' !in lines[i]
  {
    NonEmpty(SplitOn(stdout, '\n'))
  }

  function Concat(parts: seq<string>): string {
    if parts == [] then "" else parts[0] + Concat(parts[1..])
  }

  /** s without its occurrences of c. */
  function Strip(s: string, c: char): string {
    if s == [] then "" else (if s[0] == c then "" else [s[0]]) + Strip(s[1..], c)
  }

  lemma {:induction false} ConcatNonEmpty(parts: seq<string>)
    ensures Concat(NonEmpty(parts)) == Concat(parts)
  {
    if parts != [] {
      ConcatNonEmpty(parts[1..]);
      if parts[0] == "" {
        assert NonEmpty(parts) == NonEmpty(parts[1..]);
      } else {
        assert NonEmpty(parts) == [parts[0]] + NonEmpty(parts[1..]);
        assert ([parts[0]] + NonEmpty(parts[1..]))[1..] == NonEmpty(parts[1..]);
      }
    }
  }

  lemma {:induction false} ConcatSplitOn(s: string, sep: char)
    ensures Concat(SplitOn(s, sep)) == Strip(s, sep)
  {
    if s != [] {
      var rest := SplitOn(s[1..], sep);
      ConcatSplitOn(s[1..], sep);
      var parts := SplitOn(s, sep);
      if s[0] == sep {
        assert parts == [""] + rest;
        assert parts[1..] == rest;
      } else {
        assert parts == [[s[0]] + rest[0]] + rest[1..];
        assert parts[1..] == rest[1..];
        assert Concat(rest) == rest[0] + Concat(rest[1..]);
      }
    }
  }

  /** The kept lines hold every character du printed except the newlines, in order. */
  lemma DuLinesKeepText(stdout: string)
    ensures Concat(DuLines(stdout)) == Strip(stdout, '\n')
  {
    ConcatNonEmpty(SplitOn(stdout, '\n'));
    ConcatSplitOn(stdout, '\n');
  }

  /** A trailing empty piece is dropped and non-empty pieces are kept. */
  lemma {:induction false} NonEmptyDropsTrailing(ls: seq<string>)
    requires forall i :: 0 <= i < |ls| ==> ls[i] != ""
    ensures NonEmpty(ls + [""]) == ls
  {
    if ls == [] {
      assert NonEmpty([""]) == [] + NonEmpty([]);
    } else {
      assert (ls + [""])[1..] == ls[1..] + [""];
      NonEmptyDropsTrailing(ls[1..]);
      assert ls == [ls[0]] + ls[1..];
    }
  }

  /**
   * du ends every line with a newline: the kept lines of such an output
   * are exactly the lines du wrote, in order.
   */
  lemma DuLinesOfLines(ls: seq<string>)
    requires forall i :: 0 <= i < |ls| ==> ls[i] != "" && '\n' !in ls[i]
    ensures DuLines(JoinOn(ls + [""], '\n')) == ls
  {
    var parts := ls + [""];
    assert forall i :: 0 <= i < |parts| ==> '\n' !in parts[i] by {
      forall i | 0 <= i < |parts| ensures '\n' !in parts[i] {
        if i < |ls| {
          assert parts[i] == ls[i];
        }
      }
    }
    SplitOnJoin(parts, '\n');
    NonEmptyDropsTrailing(ls);
  }

  /** What one line contributes to the dictionary. */
  datatype Parsed =
    | Blank                           // fewer than two tokens: the line is skipped
    | Record(path: string, size: nat) // size token, then the path
    | BadSize(token: string)          // int() refuses the first token

  /**
   * One line of du output: fewer than two whitespace-separated tokens is
   * skipped; otherwise the first token must be an integer, and the path is
   * the remaining tokens joined by single spaces.
   */
  function ParseLine(line: string): (p: Parsed)
    ensures p.Blank? <==> |Words(line)| < 2
    ensures p.BadSize? <==> |Words(line)| >= 2 && !IsDigits(Words(line)[0])
    ensures p.BadSize? ==> p.token == Words(line)[0]
    ensures p.Record? ==> IsDigits(Words(line)[0]) && p.size == DigitsValue(Words(line)[0])
    ensures p.Record? ==> p.path == JoinSpaces(Words(line)[1..])
    ensures p.Record? ==> Words(p.path) == Words(line)[1..]
  {
    var parts := Words(line);
    if |parts| < 2 then Blank
    else if !IsDigits(parts[0]) then BadSize(parts[0])
    else
      WordsOfJoin(parts[1..]);
      Record(JoinSpaces(parts[1..]), DigitsValue(parts[0]))
  }

  /**
   * The dictionary create_dir_dict builds from the first |lines| lines, or
   * the error of the first line whose size token int() refuses.
   */
  function DirDictOf(lines: seq<string>): (r: Result<Dict>)
    ensures r.Ok? ==> r.value.Valid()
  {
    if lines == [] then Ok(EmptyDict)
    else
      match DirDictOf(lines[..|lines| - 1])
      case Err(e) => Err(e)
      case Ok(d) =>
        match ParseLine(lines[|lines| - 1])
        case Blank => Ok(d)
        case BadSize(t) => Err(InvalidSize(t))
        case Record(p, s) => Ok(Put(d, p, s))
  }

  /** create_dir_dict(alist). */
  method CreateDirDict(alist: seq<string>) returns (r: Result<Dict>)
    ensures r == DirDictOf(alist)
    ensures r.Ok? ==> r.value.Valid()
  {
    var dirDict := EmptyDict;
    for i := 0 to |alist|
      invariant DirDictOf(alist[..i]) == Ok(dirDict)
    {
      assert alist[..i + 1][..i] == alist[..i];
      var parts := Words(alist[i]);
      if |parts| < 2 {
        continue;
      }
      if !IsDigits(parts[0]) {
        FirstErrorSticks(alist, i + 1);
        return Err(InvalidSize(parts[0]));
      }
      var size := DigitsValue(parts[0]);
      var path := JoinSpaces(parts[1..]);
      dirDict := Put(dirDict, path, size);
    }
    assert alist[..|alist|] == alist;
    return Ok(dirDict);
  }

  /** Once a prefix of the lines has failed, every longer prefix fails the same way. */
  lemma {:induction false} FirstErrorSticks(lines: seq<string>, n: nat)
    requires n <= |lines|
    requires DirDictOf(lines[..n]).Err?
    ensures DirDictOf(lines) == DirDictOf(lines[..n])
    decreases |lines| - n
  {
    if n == |lines| {
      assert lines[..n] == lines;
    } else {
      assert lines[..n + 1][..n] == lines[..n];
      FirstErrorSticks(lines, n + 1);
    }
  }

  predicate IsBad(line: string) {
    ParseLine(line).BadSize?
  }

  /** The line records size-and-path for this path. */
  predicate RecordsPath(line: string, path: string) {
    ParseLine(line).Record? && ParseLine(line).path == path
  }

  /** Without a line whose size token int() refuses, the dictionary is built. */
  lemma {:induction false} DirDictSucceeds(lines: seq<string>)
    requires forall i :: 0 <= i < |lines| ==> !IsBad(lines[i])
    ensures DirDictOf(lines).Ok?
  {
    if lines != [] {
      var init := lines[..|lines| - 1];
      assert forall i :: 0 <= i < |init| ==> init[i] == lines[i];
      DirDictSucceeds(init);
    }
  }

  /**
   * A line with at least two tokens whose first token is not an integer
   * fails the whole dictionary, with the error of the first such line.
   */
  lemma {:induction false} DirDictFailsAtFirstBadLine(lines: seq<string>, i: nat)
    requires i < |lines| && IsBad(lines[i])
    requires forall j :: 0 <= j < i ==> !IsBad(lines[j])
    ensures DirDictOf(lines) == Err(InvalidSize(ParseLine(lines[i]).token))
  {
    var pre := lines[..i];
    assert forall j :: 0 <= j < |pre| ==> pre[j] == lines[j];
    DirDictSucceeds(pre);
    assert lines[..i + 1][..i] == pre;
    FirstErrorSticks(lines, i + 1);
  }

  /**
   * Last write wins: the value of a path is the size on the last line that
   * records that path.
   */
  lemma {:induction false} DirDictLastWins(lines: seq<string>, i: nat, p: string, s: nat)
    requires DirDictOf(lines).Ok?
    requires i < |lines| && ParseLine(lines[i]) == Record(p, s)
    requires forall j :: i < j < |lines| ==> !RecordsPath(lines[j], p)
    ensures p in DirDictOf(lines).value.values
    ensures DirDictOf(lines).value.values[p] == s
  {
    var n := |lines|;
    var init := lines[..n - 1];
    if i < n - 1 {
      assert init[i] == lines[i];
      assert forall j :: i < j < |init| ==> init[j] == lines[j];
      DirDictLastWins(init, i, p, s);
      assert !RecordsPath(lines[n - 1], p);
    }
  }

  /** Every key of the dictionary is the path of some line. */
  lemma {:induction false} DirDictKeysFromLines(lines: seq<string>, p: string)
    requires DirDictOf(lines).Ok?
    requires p in DirDictOf(lines).value.values
    ensures exists i :: 0 <= i < |lines| && RecordsPath(lines[i], p)
  {
    var n := |lines|;
    var init := lines[..n - 1];
    if !RecordsPath(lines[n - 1], p) {
      DirDictKeysFromLines(init, p);
      var i :| 0 <= i < |init| && RecordsPath(init[i], p);
      assert lines[i] == init[i];
    }
  }

  /** Some line records p, and no line up to and including it records q. */
  predicate FirstRecordedBefore(lines: seq<string>, p: string, q: string) {
    exists i :: 0 <= i < |lines| && RecordsPath(lines[i], p) &&
      forall j :: 0 <= j <= i ==> !RecordsPath(lines[j], q)
  }

  /**
   * Insertion order: of two keys, the one that comes first in the
   * dictionary was recorded by a line before any line recording the other.
   */
  lemma {:induction false} DirDictKeyOrder(lines: seq<string>, a: nat, b: nat)
    requires DirDictOf(lines).Ok?
    requires a < b < |DirDictOf(lines).value.keys|
    ensures var keys := DirDictOf(lines).value.keys;
            FirstRecordedBefore(lines, keys[a], keys[b])
  {
    var n := |lines|;
    var init := lines[..n - 1];
    var d := DirDictOf(init).value;
    var keys := DirDictOf(lines).value.keys;
    assert forall j :: 0 <= j < |init| ==> init[j] == lines[j];
    if b < |d.keys| {
      assert keys[a] == d.keys[a] && keys[b] == d.keys[b];
      DirDictKeyOrder(init, a, b);
      var i :| 0 <= i < |init| && RecordsPath(init[i], keys[a]) &&
        forall j :: 0 <= j <= i ==> !RecordsPath(init[j], keys[b]);
      assert RecordsPath(lines[i], keys[a]);
    } else {
      // keys[b] is new: no earlier line records it, and keys[a] is an older key
      assert keys[a] == d.keys[a] && keys[a] in d.values;
      assert keys[b] !in d.values;
      DirDictKeysFromLines(init, keys[a]);
      var i :| 0 <= i < |init| && RecordsPath(init[i], keys[a]);
      forall j | 0 <= j <= i
        ensures !RecordsPath(lines[j], keys[b])
      {
        if RecordsPath(lines[j], keys[b]) {
          assert RecordsPath(init[j], keys[b]);
          DirDictHasEveryPath(init, j);
          assert false;
        }
      }
      assert RecordsPath(lines[i], keys[a]);
    }
  }

  /** Every line that records a path puts that path in the dictionary. */
  lemma {:induction false} DirDictHasEveryPath(lines: seq<string>, i: nat)
    requires DirDictOf(lines).Ok?
    requires i < |lines| && ParseLine(lines[i]).Record?
    ensures ParseLine(lines[i]).path in DirDictOf(lines).value.values
  {
    var n := |lines|;
    var init := lines[..n - 1];
    assert DirDictOf(init).Ok?;
    var d := DirDictOf(init).value;
    if i < n - 1 {
      assert init[i] == lines[i];
      DirDictHasEveryPath(init, i);
    }
    var last := ParseLine(lines[n - 1]);
    if last.Record? {
      assert DirDictOf(lines).value == Put(d, last.path, last.size);
    } else {
      assert DirDictOf(lines).value == d;
    }
  }
}
