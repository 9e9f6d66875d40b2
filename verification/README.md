# splitpdf: the window partitioner and output namer, in Dafny

`splitpdf` splits a PDF into files of at most `--pages` pages each. Its one
piece of logic is `splitPDF` in `cmd/splitpdf/main.go`. It resolves the output
directory, then takes the base name of the input (the last path element with a
trailing `.pdf` dropped), then reads the page count. It then walks the pages
`1..totalPages` in steps of `pagesPerSplit`. For each window it asks the pdfcpu
library to extract the pages `"start-end"` into `NAME-partNN.pdf`, and it
returns at the first extraction that fails.

This project models that function:

- `fmt.dfy` (module `Fmt`): Go's `%d` and `%0Nd` for non-negative integers.
  `Value` reads a digit string back and is used as their inverse.
- `partition.dfy` (module `Partition`): the window loop, as `WindowsFrom`
  recursing the way the `for` loop iterates. `WindowAt` gives an independent
  closed form of window `i`, and `WindowCount` is the ceiling. The lemmas show
  that the windows partition `[1, totalPages]` exactly.
- `naming.dfy` (module `Naming`): `filepath.Base` and `filepath.Ext` with `/`
  as the separator, the `.pdf` stripping, the part file name, and the page
  selection string. `ParsePageSelection` reads a selection back.
- `splitter.dfy` (module `Splitter`): the collaborators as an environment
  `Env` of answers. `Drive` is the abort-on-first-failure driver and `Split`
  is the whole function. The method `SplitPdf` and its loop `ExtractWindows`
  follow the Go code statement by statement, and they are proved to return
  exactly what `Split` returns.
- `scenarios.dfy` (module `Scenarios`): concrete runs, such as 1000 pages in
  parts of 500, and a failure on window 2 of 3.
- `optional.dfy` (module `Optional`): the `Option` type.

The collaborators become inputs:

- `os.Getwd` is `Env.workingDir`.
- `os.MkdirAll` is `Env.makeDir`.
- `api.ReadContextFile(...).PageCount` is `Env.pageCount`.
- The success or failure of `api.ExtractPagesFile` for each call is
  `Env.extract`.

A run records every extraction call made, in order, and the returned error as
a tagged `Error` value.

Two behaviours of the code worth knowing:

- A chunk size of zero or less is not rejected by the code. The loop never ends
  for 0, so `pagesPerSplit >= 1` is a precondition.
- Only a lower-case `.pdf` is stripped, and only when the name is longer than
  four characters. `.pdf` and `a.PDF` are kept whole.

## Model

| member | source | states |
|---|---|---|
| `Fmt.Decimal` | cmd/splitpdf/main.go:56 | `%d` of a non-negative int is a non-empty digit string with no leading zero; it is one digit iff n < 10 and at most two iff n < 100 |
| `Fmt.ValueOfDecimal` | cmd/splitpdf/main.go:56 | reading back the digits `%d` printed gives the printed number |
| `Fmt.DecimalInjective` | cmd/splitpdf/main.go:56 | distinct numbers print as distinct `%d` strings |
| `Fmt.ZeroPadded` | cmd/splitpdf/main.go:59 | `%02d` gives digits only, of length max(2, length of `%d`), and reading them back gives the number; it adds a leading zero only when padding is needed (or for 0); so it pads below 10 and never truncates above 99 |
| `Partition.Windows` | cmd/splitpdf/main.go:46-53 | the windows the loop visits, with their part numbers (`WindowsFrom` recursing as the loop iterates, partNumber++ at line 71); characterised by `WindowsClosedForm`, `WindowsContiguous`, `WindowsBounded`, `WindowsCover` and `WindowsDisjoint` |
| `Partition.WindowCount` | cmd/splitpdf/main.go:48 | the number of loop iterations is the ceiling of totalPages / pagesPerSplit: n*size >= total > (n-1)*size, and 0 for an empty document |
| `Partition.WindowsClosedForm` | cmd/splitpdf/main.go:46-53 | the loop emits WindowCount windows, and window i is pages i*size+1 to min((i+1)*size, total) with part number i+1 |
| `Partition.WindowsContiguous` | cmd/splitpdf/main.go:48-53 | the first window starts at page 1, each next start is the previous end + 1, and the last window ends at totalPages |
| `Partition.WindowsBounded` | cmd/splitpdf/main.go:46-53 | each window satisfies 1 <= start <= end <= totalPages and holds at most pagesPerSplit pages, exactly pagesPerSplit unless it is the last one; window i has part number i+1 |
| `Partition.WindowsCount` | cmd/splitpdf/main.go:48-53 | ceil(total/size) windows; none when totalPages <= 0; one window covering all pages when totalPages <= pagesPerSplit |
| `Partition.WindowsAscending` | cmd/splitpdf/main.go:48-53 | windows are in ascending order: an earlier window ends before a later one starts |
| `Partition.PageWindow` | cmd/splitpdf/main.go:48-53 | every page p of the document lies in window (p-1)/pagesPerSplit |
| `Partition.WindowsCover` | cmd/splitpdf/main.go:48-53 | a page lies in some window iff 1 <= page <= totalPages |
| `Partition.WindowsDisjoint` | cmd/splitpdf/main.go:48-53 | no page lies in two windows |
| `Naming.TrimTrailingSlashes` | cmd/splitpdf/main.go:34 | the result is a prefix of the path that does not end in '/', and only '/' was removed |
| `Naming.AfterLastSlash` | cmd/splitpdf/main.go:34 | the result is the suffix of the path after its last '/', and it has no '/' |
| `Naming.Base` | cmd/splitpdf/main.go:34 | filepath.Base: never empty; "." for the empty path; "/" for a path of only slashes; a path without '/' is its own base; any result other than "/" has no '/' (`BaseIsLastElement` says which element it is) |
| `Naming.BaseIsLastElement` | cmd/splitpdf/main.go:34 | for every path with a character other than '/', filepath.Base is not "/" but the path's last element: a run without '/' that starts the path or follows a '/', followed only by trailing '/' |
| `Naming.BaseOfJoined` | cmd/splitpdf/main.go:34 | the base of `dir/name` is `name` |
| `Naming.Ext` | cmd/splitpdf/main.go:35 | filepath.Ext: empty, or a suffix of the path that starts with '.' and has no further '.' or '/' |
| `Naming.ExtFindsDot` | cmd/splitpdf/main.go:35 | filepath.Ext is empty iff the last element of the path has no '.' |
| `Naming.ExtIsPdf` | cmd/splitpdf/main.go:35 | filepath.Ext(name) == ".pdf" iff name ends in ".pdf" |
| `Naming.StripPdfExtension` | cmd/splitpdf/main.go:34-37 | a name longer than 4 that ends in ".pdf" loses exactly that suffix (result + ".pdf" == name); any other name is unchanged |
| `Naming.OutputBase` | cmd/splitpdf/main.go:34-37 | the base name of the outputs: the last element of the input path (`BaseIsLastElement`), without a trailing ".pdf" when something precedes it (`StripPdfExtension`, `ExtIsPdf`) |
| `Naming.PartFilename` | cmd/splitpdf/main.go:59 | the output file name; characterised by `PartFilenameShape` and `PartFilenameInjective` |
| `Naming.PartFilenameShape` | cmd/splitpdf/main.go:59 | the file name is base, "-part", a run of at least two digits that reads back as the part number (exactly two iff part < 100, with no leading zero from part 10 on), then ".pdf" |
| `Naming.PartFilenameInjective` | cmd/splitpdf/main.go:59 | distinct part numbers give distinct file names under the same base |
| `Naming.PageSelection` | cmd/splitpdf/main.go:56 | the selection `"start-end"` handed to the extractor; `PageSelectionRoundTrip` shows it reads back as exactly (start, end) |
| `Naming.PageSelectionRoundTrip` | cmd/splitpdf/main.go:56 | reading the selection `"start-end"` back gives exactly (start, end) |
| `Splitter.Plan` | cmd/splitpdf/main.go:46-60 | the extraction call for each window: its page selection, and its path `base-partNN.pdf` under the output directory; characterised by `PlanFollowsWindows` and `PlanPathsDistinct` |
| `Splitter.Drive` | cmd/splitpdf/main.go:66-72 | the extraction calls made one by one, returning at the first failure; characterised by `DriveStopsAtFirstFailure`, `DriveFirstFailure` and `DriveAllSucceed` |
| `Splitter.OutputDirectory` | cmd/splitpdf/main.go:20-26 | `outputDir` when it is non-empty, otherwise the working directory (none when that cannot be read); used by `Split` and `SplitPdf` |
| `Splitter.Split` | cmd/splitpdf/main.go:18-75 | splitPDF as a function of its arguments and environment; `SplitPdf` is proved equal to it, and `SplitSetupFailureMakesNoCalls`, `SplitAbortsOnFirstFailure` and `SplitSucceeds` characterise it |
| `Splitter.DriveStopsAtFirstFailure` | cmd/splitpdf/main.go:66-74 | calls are made in order and form a prefix of the plan; all but the last call succeeded; the run fails iff the last call failed, with that call's selection and path; it succeeds iff every call was made and succeeded |
| `Splitter.DriveFirstFailure` | cmd/splitpdf/main.go:66-67 | if call k is the first to fail, exactly calls 0..k are made and the error names call k |
| `Splitter.DriveAllSucceed` | cmd/splitpdf/main.go:48-74 | if every call succeeds, all calls are made and the result is success |
| `Splitter.ExtractWindows` | cmd/splitpdf/main.go:45-74 | the Go loop (startPage, endPage clipping, partNumber++, return on error) makes exactly the calls and returns exactly the outcome of driving the planned windows |
| `Splitter.SplitPdf` | cmd/splitpdf/main.go:18-75 | the whole function, with its branches in the Go order, equals the `Split` model for every environment |
| `Splitter.SplitSetupFailureMakesNoCalls` | cmd/splitpdf/main.go:20-43 | a working-directory, mkdir or read failure makes no extraction call and completes none; an extraction error always follows at least one call |
| `Splitter.PlanFollowsWindows` | cmd/splitpdf/main.go:48-60 | planned call i is for window i, its selection reads back as that window's bounds, and its path is outputDir joined with `base-partNN.pdf` for part i+1 |
| `Splitter.PlanPathsDistinct` | cmd/splitpdf/main.go:59-60 | no two planned calls write the same output path |
| `Splitter.SplitAbortsOnFirstFailure` | cmd/splitpdf/main.go:66-67 | if window k is the first whose extraction fails, windows 0..k are attempted, none after k; the extractions of windows 0..k-1 completed (`Completed`); the error names window k |
| `Splitter.SplitSucceeds` | cmd/splitpdf/main.go:48-74 | if every extraction succeeds, every window is extracted in order and the result is success; totalPages <= 0 makes no call and succeeds |
| `Scenarios.ThousandPagesInTwoParts` | cmd/splitpdf/main.go:48-53 | 1000 pages in parts of 500 give windows 1-500 (part 1) and 501-1000 (part 2) |
| `Scenarios.TenPagesInOnePart` | cmd/splitpdf/main.go:48-53 | 10 pages in parts of 500 give the single window 1-10 |
| `Scenarios.ThreeSinglePageWindows` | cmd/splitpdf/main.go:48-53 | 3 pages in parts of 1 give three one-page windows |
| `Scenarios.ReportPartNames` | cmd/splitpdf/main.go:59 | part 1 of "report" is "report-part01.pdf"; part 123 is "report-part123.pdf" |
| `Scenarios.SecondOfThreePlan` | cmd/splitpdf/main.go:20-26 | with no output directory given, the working directory is used; for 3 pages in parts of 1 under base "in", call 2 writes out/in-part02.pdf, and under the failing-window-2 environment it is the first call that fails |
| `Scenarios.SecondPartName` | cmd/splitpdf/main.go:59 | part 2 of "in" is "in-part02.pdf" |
| `Scenarios.SecondPartSelection` | cmd/splitpdf/main.go:56 | pages 501 to 1000 are selected as "501-1000" |
| `Scenarios.SuffixEdgeCases` | cmd/splitpdf/main.go:35-36 | ".pdf" and "a.PDF" are kept whole; "report.pdf" becomes "report" |
| `Scenarios.FailureOnSecondOfThree` | cmd/splitpdf/main.go:66-67 | with 3 windows and window 2 failing, two calls are made, the error names in-part02.pdf, and only window 1's extraction completed |

## Left out

- Collaborator internals. `os.Getwd`, `os.MkdirAll`, `api.ReadContextFile` and
  `api.ExtractPagesFile` are represented only by their answers in `Env`. Their
  internals are file-system I/O and library code that is not part of this
  model. `model.NewDefaultConfiguration` has no observable effect on the
  calls, so it is not modelled.
- `Env.extract` is a function of the call. Each call's success therefore
  depends only on its window, selection and path. This does not restrict the
  model, because no two calls of a run are equal (`PlanPathsDistinct`).
- What a failed extraction leaves on disk. `Completed` lists the calls that
  returned no error. Whether a failing `api.ExtractPagesFile` leaves a partial
  file at its output path is library behaviour, and the model does not say.
- `filepath.Join`'s path cleaning. An output path is the pair (directory, file
  name).
- `filepath.Base` and `filepath.Ext` on Windows. The model treats `/` as the
  only separator and has no volume names.
- Strings. They are sequences of characters, and each character stands for one
  byte. The check `len(baseName) > 4` counts bytes in Go. Together with a
  trailing ASCII `.pdf` it holds exactly when the name has more than four
  characters, so the model keeps Go's meaning.
- Console output and message text. The progress line (`fmt.Printf`, line 70)
  and the `fmt.Errorf` wrapping are left out. An error is a tagged value that
  carries the data the message names: the directory, the input, or the
  selection and output path.
- The CLI layer: `main`, the cobra command, its flags (the default of 500
  pages), and `os.Exit`.
- `pagesPerSplit <= 0`. The code has no check, and the loop never ends for 0.
  It is a precondition.
- Go `int` overflow of `startPage + pagesPerSplit`. The model uses unbounded
  integers.
- Repeatability. `Split` is a function, so two runs with the same inputs and
  the same environment make the same calls. No separate lemma states this.
