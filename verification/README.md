# duim in Dafny

`duim.py` is a small disk-usage reporter. It runs `du -d 1 <target>`, reads
one `size path` pair per output line into a dictionary, looks up the total
size of the target and prints one row per child directory, largest first:
the percentage of the total, a bar of `=` characters, the size (in bytes,
or scaled to B/K/M/G/T/P with `-H`) and the path, then a `Total:` line.

This project models that pipeline from the text `du` printed to the lines
the script prints:

- `errors.dfy` (module `Errors`): the exceptions the script can raise,
  as values, and the `Result`/`Option` wrappers.
- `numbers.dfy` (module `Numbers`): decimal digits, `str(n)`, `int(s)` for
  digit strings, and Python's round-half-to-even.
- `text.dfy` (module `Text`): `str.split()` with Python's whitespace set,
  `' '.join`, `str.split('\n')`, string repetition and field padding.
- `bar.dfy` (module `Bar`): `percent_to_graph`.
- `du_output.dfy` (module `DuOutput`): the line filter of `call_du_sub`,
  the insertion-ordered dictionary and `create_dir_dict` (a loop, so a
  method, proved equal to the fold `DirDictOf`).
- `size_format.dfy` (module `SizeFormat`): `human_readable_size` (a loop,
  proved equal to a closed form built on the unit index) and `str(size)`.
- `report.dfy` (module `Report`): the stable largest-first sort and
  `print_directory_info` (a loop, proved against the sorted table).
- `duim.dfy` (module `Duim`): the target lookup of `main`, the text of each
  printed line and the whole run.

A Python `dict` iterates in first-insertion order and `sorted` is stable, so
directories of equal size are printed in the order `du` first listed them;
the dictionary is therefore a key sequence plus a map, and the sort carries
a stability contract. Printing is modelled as returning the printed lines;
an exception is an `Error` value, and the model proves that no row has been
printed when one is raised (the largest child is always the first to fail).

`size / total_size` is not guarded, so a zero total with a child to print
raises `ZeroDivisionError` (`Report.PrintDirectoryInfo` states exactly
when). `du`'s exit status and standard error are ignored, by the code and by
the model.

## Model

| member | source | states |
|---|---|---|
| Numbers.NatToStringRoundTrip | duim.py:181 | `str(n)` reads back as `n`: the digits of a natural number denote it |
| Numbers.DigitsRoundTrip | duim.py:121 | a digit string without a leading zero is exactly `str(int(s))` |
| Numbers.NatToString | duim.py:181 | `str(n)` is a non-empty run of decimal digits with no leading zero |
| Numbers.RoundHalfEven | duim.py:70 | `round(x)` is within one half of `x`, and an exact tie goes to the even neighbour |
| Numbers.RoundHalfEvenMonotone | duim.py:70 | rounding never reverses the order of two values |
| Text.Words | duim.py:117 | every token of `str.split()` is non-empty and holds no whitespace |
| Text.WordsOfJoin | duim.py:117-122 | splitting `' '.join(tokens)` gives the tokens back |
| Text.SplitOn | duim.py:97 | `str.split('\n')` gives at least one part and no part holds the separator |
| Text.SplitOnRoundTrip | duim.py:97 | joining the parts with the separator rebuilds the text |
| Text.SplitOnJoin | duim.py:97 | pieces free of the separator, joined with it, split back into the same pieces |
| Text.Repeat | duim.py:73 | `c * n` has `max(n, 0)` characters, all `c` |
| Text.PadLeft | duim.py:184 | a right-aligned field is at least the width, ends with the text and is padded with spaces |
| Text.PadRight | duim.py:184 | a left-aligned field is at least the width, starts with the text and is padded with spaces |
| Bar.PercentToGraph | duim.py:54-75 | `ValueError` exactly outside [0, 100]; otherwise `max(total_chars, 0)` characters, `=` exactly at the first `round(percent * total_chars / 100)` positions and spaces after |
| Bar.FilledWithin | duim.py:70-73 | for a percentage in [0, 100] the fill count lies between 0 and the width and within one half of the exact share |
| Bar.FilledMonotone | duim.py:70 | a larger percentage never gives a shorter bar |
| DuOutput.DuLines | duim.py:97 | every kept line is non-empty and holds no newline |
| DuOutput.DuLinesKeepText | duim.py:97 | dropping the empty lines loses only newlines: the kept lines concatenate to the output without its newlines |
| DuOutput.DuLinesOfLines | duim.py:97 | for an output of non-empty lines each ended by a newline, the kept lines are exactly those lines, in order |
| DuOutput.Put | duim.py:124 | `dir_dict[path] = size` maps the path to the size, keeps an existing key in place and appends a new one |
| DuOutput.Items | duim.py:164 | `dict.items()` lists every key with its value in insertion order |
| DuOutput.ParseLine | duim.py:117-122 | fewer than two tokens is skipped; a first token that is not digits is the `int()` error with that token; otherwise the size is the number and the path is the remaining tokens joined by single spaces, which splits back into them |
| DuOutput.DirDictOf | duim.py:113-126 | the dictionary built from the lines is a valid ordered dictionary |
| DuOutput.CreateDirDict | duim.py:102-126 | the loop returns exactly the fold `DirDictOf` over the lines, or its first error |
| DuOutput.FirstErrorSticks | duim.py:121 | once a line has raised, later lines do not change the outcome |
| DuOutput.DirDictSucceeds | duim.py:115-124 | with no line whose size `int()` refuses, the dictionary is built |
| DuOutput.DirDictFailsAtFirstBadLine | duim.py:121 | the error raised is the one of the first line with an invalid size |
| DuOutput.DirDictLastWins | duim.py:124 | a path's value is the size on the last line that records it |
| DuOutput.DirDictKeysFromLines | duim.py:115-124 | every key is the path of some line |
| DuOutput.DirDictHasEveryPath | duim.py:118-124 | every recorded path is a key |
| DuOutput.DirDictKeyOrder | duim.py:124 | keys are ordered by the line that first recorded them |
| SizeFormat.UnitIndex | duim.py:144-146 | the unit is the largest power of 1024 not above the size, capped at P |
| SizeFormat.FormatOneDecimal | duim.py:149 | `f"{v:.1f}"` is digits with no superfluous leading zero, a point and one digit, which read back as `v * 10` rounded half to even |
| SizeFormat.SizeTextForm | duim.py:178-181 | `str(size)` is digits without a superfluous leading zero that read back as the size; `human_readable_size(size)` ends in a space and a unit letter, `B` exactly below 1024 |
| SizeFormat.HumanReadableSize | duim.py:129-149 | the dividing loop yields the closed form `HumanReadable`; the unit is `B` exactly below 1024 |
| SizeFormat.HumanReadableZero | duim.py:129-149 | 0 bytes print as `0.0 B` |
| SizeFormat.HumanReadableOneK | duim.py:129-149 | 1024 bytes print as `1.0 K` |
| SizeFormat.HumanReadableTenPointSixM | duim.py:129-149 | 11075584 bytes print as `10.6 M` |
| Report.SortBySizeDesc | duim.py:164 | the sort is a permutation, largest first, and stable: entries of equal size keep their order |
| Report.SortKeepsEntry | duim.py:164 | an entry is in the sorted items exactly when it is in the dictionary |
| Report.Without | duim.py:167-169 | skipping the target keeps only entries of the input whose path differs from it (the next two rows: and drops nothing else, in order) |
| Report.WithoutKeepsOthers | duim.py:167-169 | an entry is kept exactly when its path differs from the target, as many times as it occurs |
| Report.WithoutAppend | duim.py:167-169 | skipping distributes over concatenation, so the kept entries stay in their input order |
| Report.SortWithout | duim.py:164-169 | sorting then skipping the target equals sorting the children |
| Report.PercentIsShare | duim.py:172 | the percentage is the exact share: `percent * total_size == 100 * size` |
| Report.PercentInRange | duim.py:172-175 | a child's percentage is non-negative, and at most 100 exactly when its size is at most the total |
| Report.ChildLines | duim.py:167-184 | one row per child |
| Report.ChildLinesAt | duim.py:171-184 | row k shows child k's path and size, its size text, its percentage in [0, 100] and the bar `percent_to_graph` draws for it |
| Report.LaterRowsFit | duim.py:164-175 | in a table whose first row is the largest, only the first row can fail |
| Report.FailingTable | duim.py:172-175 | a failing first row means `ZeroDivisionError` exactly for a zero total, `ValueError` exactly when some child exceeds the total |
| Report.FormatSize | duim.py:178-181 | the size text is `human_readable_size(size)` or `str(size)`, which reads back as the size |
| Report.DirectoryRow | duim.py:171-181 | one child's row, or `ZeroDivisionError` for a zero total and `ValueError` for a child larger than the total |
| Report.PrintedRows | duim.py:167-184 | lines printed so far are the rows of the leading children, each of which fits |
| Report.PrintRow | duim.py:167-184 | one pass prints the next row, or raises, and then nothing was printed before |
| Report.PrintRows | duim.py:167-184 | the loop prints exactly the rows of the sorted children or raises at the first row |
| Report.PrintDirectoryInfo | duim.py:152-192 | `ZeroDivisionError` exactly when the total is 0 and there is a child; `ValueError` exactly when a child exceeds the total; then nothing printed; otherwise one row per child in stable largest-first order and the total line |
| Duim.LinePath | duim.py:210-212 | the path on a `du` line is the path the dictionary took from that line, `""` for a line with fewer than two tokens, and splits into the tokens after the size |
| Duim.ResolveTarget | duim.py:208-215 | the target is used exactly when it is a key; otherwise the result is the path of the last `du` line; `IndexError` for no `du` output and `KeyError` for a missing path; a result is a key with its value |
| Duim.ResolveRecordedTarget | duim.py:209-215 | a target `du` recorded resolves to itself with the size of its last record |
| Duim.ResolveFromLastLine | duim.py:208-215 | when `du`'s last line is a record the lookup never fails, and an unknown spelling resolves to that line's path and size |
| Duim.PercentText | duim.py:184 | `f"{x:.0f}"` reads back as `x` rounded half to even, with a sign below zero and no superfluous leading zero |
| Duim.PercentColumn | duim.py:184 | a percentage in [0, 100] fills exactly the three-column field, right aligned with spaces and no leading zero |
| Duim.RowLayout | duim.py:184 | columns of the row text `RowText` builds: percentage in 0-2, space-padded with no leading zero, ` % [` in 3-6, the bar from column 7, then `] `, the size text left aligned and space-padded to at least 8 columns, one space and the path at the end; the exact length follows |
| Duim.TailLayout | duim.py:184 | the part after the percentage: ` % [`, the bar, `] `, the size text space-padded to at least 8 columns, one space and the path, with its exact length |
| Duim.TotalLayout | duim.py:192 | the total line `RenderLine` gives: `Total: `, the size text, three spaces, then the target's path |
| Duim.PrintTable | duim.py:184-192 | `ZeroDivisionError` exactly for a zero total with a child, `ValueError` exactly when a child exceeds a non-zero total, then nothing printed; otherwise each child row's text then the total line's |
| Duim.Run | duim.py:195-218 | from `du`'s output: the first invalid size, else the lookup error, else `ZeroDivisionError` or `ValueError` under the same conditions for the resolved target; otherwise one row per child of the resolved target and the total line |

## Left out

- The command line (`parse_command_args`, duim.py:28-51) is not modelled: the target, `-H` and the bar length are parameters of `Duim.Run`.
- Spawning `du` (duim.py:89-94) is not modelled: its standard output, already decoded to text, is a parameter; its exit status and standard error are unused by the source as well.
- The directory check and exit in `main` (duim.py:200-202) are file system and process effects and are left out.
- Printing is modelled as returning the printed lines; a raised exception is returned as an `Error` together with the lines printed before it, which the model proves empty.
- Bar.PercentToGraph: the percentage is an exact real number rather than a binary float, so where float rounding moves a value across a rounding tie the printed bar may differ by one character.
- Report.PrintDirectoryInfo: `size / total_size * 100` is computed exactly, not in floating point; the same caveat applies to the printed percentage.
- SizeFormat.HumanReadableSize: the scaled value is exact; it agrees with `float(size_bytes)` only below 2^53 bytes, and `.1f` rounding is taken on the exact value.
- DuOutput.ParseLine: `int()` is modelled for ASCII digit strings only; a sign, underscores or non-ASCII digits in the size token are reported as invalid sizes, although `int()` accepts them (`du` never prints them).
- `universal_newlines` turns `\r\n` and a lone `\r` into `\n` before splitting; the text given to `Duim.Run` is taken to be already translated.
