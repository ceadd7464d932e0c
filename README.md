# aarshjul: output naming and event colouring

`aarshjul` draws a radial year calendar ("årshjul") from a settings file and
an event log and saves it as a numbered PNG. This project models the two
pieces of the script that are logic rather than rendering:

- **Output-filename resolver** (`increment_filename`). The stem of the
  requested file name is the text before its first dot. The resolver tries
  `<stem><NN>.png` with the counter printed as `{n:02}`, starting at 1. It
  moves to the next counter while that name is already in the output
  directory, and returns `<out_dir>/<name>` for the first free one. The
  directory listing is a parameter: a sequence of entry names.
- **Event colouring** (`fillna('')`, then `colour_events` applied row by
  row). Missing cells of the event table become empty strings. Each row then
  gets the palette's `events` colour when its name is truthy, and the
  `background` colour otherwise. A palette key that is absent is a
  `KeyError`.

Files:

- `text.dfy`, module `Text`: the Python string operations the resolver
  uses. These are `str.split` with its inverse `Join`, `str(n)` with its
  inverse `DecimalValue`, and the `{n:02}` format with its inverse
  `ParseCounter`.
- `output_path.dfy`, module `OutputPath`: `IncrementFilename`, written as
  the same recursion as the source. It terminates because every step leaves
  one fewer taken candidate ahead of the counter (`Taken`, `TakenShrinks`).
  The other lemmas state no collision, minimality, the name format and
  the step bound, plus the example directories.
- `event_colours.dfy`, module `EventColours`: cells (missing, string or
  number), Python truthiness, `fillna`, `colour_events`, the row-wise
  `apply` with its first-error behaviour, and lemmas about the resulting
  column.

The counter is padded to a *minimum* of two characters, as `{n:02}` does:
counter 100 gives `100`. A negative starting counter is formatted as
Python formats it (`-5`, sign first, no padding).

## Model

| member | source | states |
|---|---|---|
| `Text.Split` | script.py:40 | `name.split(".")`: at least one piece, no piece contains the separator, and joining the pieces with the separator gives back the input |
| `OutputPath.Stem` | script.py:40 | `split(".")[0]` is the prefix of the name before its first dot: a prefix, dot-free, and followed by a dot unless it is the whole name |
| `OutputPath.StemUnique` | script.py:40 | those three properties determine the stem: any dot-free prefix ending at a dot or at the end of the name equals it |
| `Text.Decimal` | script.py:40 | `str(n)` for n ≥ 0 is a non-empty string of digits, one digit exactly when n < 10, and without a leading zero otherwise |
| `Text.DecimalRoundTrip` | script.py:40 | reading back the digits printed for n gives n |
| `Text.Pad02` | script.py:40 | `{n:02}` is at least two characters, an optional minus sign followed by digits, and starts with `-` exactly when n is negative |
| `Text.PadRoundTrip` | script.py:40 | `int(f"{n:02}") == n` for every integer n |
| `Text.PadInjective` | script.py:40 | different counters are printed differently |
| `Text.PadOneDigit` | script.py:40 | counters 0 to 9 get exactly one leading zero (`01`..`09`) |
| `Text.PadManyDigits` | script.py:40 | from 10 on the counter is `str(n)` unpadded, however many digits it has |
| `Text.PadExamples` | script.py:40 | `01`, `09`, `10`, `100`, `00` and `-5` for 1, 9, 10, 100, 0 and -5 |
| `OutputPath.Candidate` | script.py:40 | the f-string `f'{stem}{n:02}.png'`: the name starts with the stem and is at least six characters longer; `CandidateParts` and `CandidateInjective` state the rest of its shape |
| `OutputPath.CandidateParts` | script.py:40 | a candidate ends in `.png`, and the text between the stem and `.png` is a counter text that reads back as n |
| `OutputPath.CandidateInjective` | script.py:40 | two counters never produce the same candidate file name for one stem |
| `OutputPath.IncrementFilename` | script.py:36-46 | returns `out_dir + "/" + stem + {k:02} + ".png"` for a counter k ≥ n that is not in the listing while every counter from n to k - 1 is; k - n is at most the number of taken candidates ahead of n, which is also the termination measure |
| `OutputPath.FirstFreeUnique` | script.py:42-46 | the first free counter is unique |
| `OutputPath.ChosenIsFirstFree` | script.py:42-46 | conversely, whenever k is the first free counter from n, the result is the file for k |
| `OutputPath.TakenShrinks` | script.py:42-44 | stepping past a taken candidate leaves strictly fewer taken candidates ahead, so the recursion terminates on any finite listing |
| `OutputPath.TakenBound` | script.py:42 | the taken candidates ahead number at most the entries of the listing |
| `OutputPath.SearchBound` | script.py:42-44 | the counter advances by one per step and the search ends within \|listing\| + 1 tries: k ≤ n + \|listing\| |
| `OutputPath.NoCollision` | script.py:42-46 | the result is `out_dir + "/"` followed by a name that is not in the directory listing |
| `OutputPath.NameFormat` | script.py:40 | the chosen name is the stem, at least two counter characters and `.png`, with no dot before the extension, whatever extension the input had |
| `OutputPath.EmptyDirectory` | script.py:36-46 | an empty directory with the default n = 1 gives `out_dir/<stem>01.png` |
| `OutputPath.SecondRunDiffers` | script.py:42-46 | once the chosen file exists, resolving again gives a different path: a second run does not overwrite the first |
| `OutputPath.PlotStem` | script.py:13-16 | the script's output name `aarshjul.png` has the stem `aarshjul` |
| `OutputPath.SixthPlot` | script.py:36-46 | with `<stem>01.png` to `<stem>05.png` in the directory and n = 1, any name resolves to `<out_dir>/<stem>06.png` (for `aarshjul.png` in `plots`: `plots/aarshjul06.png`) |
| `OutputPath.TwoRuns` | script.py:36-46 | two runs into an empty directory produce `<out_dir>/<stem>01.png` and then, with that file present, `<out_dir>/<stem>02.png` |
| `EventColours.FillNaRows` | script.py:24 | `fillna('')` keeps the row count, leaves no missing cell, turns missing cells into `""` and leaves every other cell as it was |
| `EventColours.FillNaIdempotent` | script.py:24 | filling twice is the same as filling once |
| `EventColours.ColourEvents` | script.py:30-34 | the key read is `events` for a truthy name and `background` otherwise; the result is that key's colour, or a `KeyError` for that key when the palette lacks it |
| `EventColours.ColourColumn` | script.py:25 | the row-wise `apply` succeeds exactly when every row's colour lookup does; it then has one colour per row, in row order, each the row's own; on failure the error is that of the first failing row |
| `EventColours.LoadEvents` | script.py:24-25 | the loaded table has one row per input row, in order, each with its filled name and weight; it fails exactly when the colour column of the filled rows fails, with that error |
| `EventColours.LoadEventsColours` | script.py:30-34 | in the loaded table row i's colour is `colours['events']` when its name is a non-empty string or non-zero number, `colours['background']` otherwise |
| `EventColours.MissingNameIsBackground` | script.py:24 | a row whose name was missing gets the background colour |
| `EventColours.UnfilledMissingNameIsEvent` | script.py:31 | without the fill, a missing name (NaN, which is truthy) would select the events colour; after it, the background colour |
| `EventColours.LoadEventsFails` | script.py:32-34 | for a table with at least one row, loading fails exactly when `events` is absent and some row is named, or `background` is absent and some row is not; the error is a `KeyError` for one of these keys |

## Left out

- `draw_plot` (script.py:48-124): the four pie rings, the floating-point radius and width arithmetic, the start-angle offset, the `Sommerferie` label exception, the month-label rotation from matplotlib's wedge angles, and `savefig`. All of it is rendering through matplotlib.
- Reading `settings.json` and `events.csv` (script.py:19-23): the parsers are library code. Events arrive as parsed rows. Which cells pandas reads as numbers is not modelled; a cell is given as missing, string or number.
- `os.listdir` (script.py:42): the listing is a parameter. The file system, its other entries and a race between two runs are not modelled.
- `main` and the closing `print` (script.py:6-28, 124): plumbing. The name it passes, `aarshjul.png`, appears in `PlotStem`.
- OutputPath.IncrementFilename: Python's recursion limit is not modelled. The script recurses once per taken name, so about a thousand consecutive taken names would raise `RecursionError` there, while the model always finds the free name.
- Weights are carried through as cells and never used as numbers. Floating point is not modelled.
- EventColours.LoadEventsFails: a table with no rows always loads here, with an empty colour column. pandas' `apply` on an empty frame does not map over rows; it probes `colour_events` once with an all-NaN row, and the assignment at script.py:25 can then fail. That library behaviour is not modelled.
