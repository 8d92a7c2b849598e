# wallutils: VRAM minimum and GNOME timed-wallpaper images

A Dafny model of two small pure cores of wallutils:

- **`vram`** (`cmd/vram/main.go`, `getVRAMAction`): choose a mode from the
  `--list` and `--integrated` flags, ask the GPU provider for GPUs, and then
  either list them, report the smallest VRAM amount among them, or write a
  diagnostic when none is found. The provider `wallutils.GPUs(includeIntegrated)`
  is a deterministic oracle here. A `Vram.Provider` holds the answer given
  with integrated GPUs and the answer given without them. Each answer is a
  list of GPUs or an error message. A run produces a `Vram.Outcome`: the lines
  written to standard output, the lines written to standard error, and the
  error returned. Lines are modelled without their final newline.
- **`GnomeWallpaper`** (`gnomewallpaper.go`): `Images()` collects the
  filename of every static, then the from- and to-filename of every
  transition, and removes repeats. `String()` describes the wallpaper: a
  header, the two counts, and one tab-indented line per image.

The minimum loop has a quirk that the model keeps. The accumulator starts at 0,
and an entry whose VRAM is 0 sets it back to 0. Because of that, the next entry
is always taken, whatever its size. `Vram.MinimumIsLeastOfLastRun` gives the
exact effect: the result is the least VRAM among the entries after the last
zero entry. When no entry is zero, that is the true minimum.

The usage text of `vram` (cmd/vram/main.go:77) says that the minimum over
integrated GPUs is reported when there is no discrete GPU. The code does not do
this. When there is no discrete GPU, it writes a diagnostic and then reports
"0 MiB", because it never replaces the empty list. `Vram.VramAction` follows the
code, not the usage text. The difference is listed under "## Findings".

Modules: `Wrappers` (Option), `Decimal` (Go's `%d` / `strconv.Itoa` on
naturals and its inverse), `Seqs` (first-occurrence index and the package's
`unique`), `Text` (a line-by-line view of text, used to state the layout of the
wallpaper description and to read it back; the source itself does not split or
join lines), `Vram`, `GnomeWallpaper`.

## Model

| member | source | states |
|---|---|---|
| Decimal.Itoa | gnomewallpaper.go:55 | A count is printed as a non-empty string of decimal digits with no leading zero. |
| Decimal.ParseItoa | gnomewallpaper.go:55 | Reading a printed count back gives the original number. |
| Decimal.ItoaInjective | cmd/vram/main.go:69 | Two numbers are printed the same way exactly when they are equal. |
| Decimal.ItoaOfDigitsValue | cmd/vram/main.go:69 | Every canonical digit string is the printed form of its value, so printing and reading are inverse in both directions. |
| Seqs.Unique | gnomewallpaper.go:42 | `unique` returns a list with no repeats that holds exactly the elements of its input. |
| Seqs.UniqueKeepsFirstOccurrenceOrder | gnomewallpaper.go:42 | The elements `unique` keeps are ordered by where each first occurs in the input. |
| Seqs.UniqueOfDistinct | gnomewallpaper.go:42 | A list with no repeats passes through `unique` unchanged. |
| Seqs.UniqueIdempotent | gnomewallpaper.go:42 | Applying `unique` twice gives the same list as applying it once. |
| Vram.Step | cmd/vram/main.go:63-64 | One loop iteration keeps the accumulator or takes the entry's VRAM. A zero accumulator always takes the entry. A zero entry resets the accumulator to 0. Two positive values give a positive result no larger than either. |
| Vram.MinimumVram | cmd/vram/main.go:61-66 | The accumulator after the loop is 0 or the VRAM of some entry. It is 0 when the last entry has VRAM 0. When every VRAM is positive, it is positive for a non-empty list and no entry has less. |
| Vram.ComputeMinimum | cmd/vram/main.go:61-66 | The loop's result is the accumulator defined entry by entry, and it is either 0 or the VRAM of some GPU in the list. |
| Vram.Least | cmd/vram/main.go:61-66 | The reference minimum of a non-empty list is the VRAM of some entry, and no entry has less. |
| Vram.LastRun | cmd/vram/main.go:63-64 | The entries after the last zero-VRAM entry are a suffix of the list, none of them has VRAM 0, and the entry just before them has VRAM 0. |
| Vram.MinimumIsLeastOfLastRun | cmd/vram/main.go:61-66 | The loop's result is 0 when the list is empty or its last entry has VRAM 0. Otherwise it is the least VRAM among the entries after the last zero entry. |
| Vram.MinimumOfPositive | cmd/vram/main.go:61-66 | When the list is non-empty and every VRAM is positive, the loop's result is an entry's VRAM and no entry has less. |
| Vram.MinimumAfterTrailingZero | cmd/vram/main.go:63-64 | When the last entry has VRAM 0, the loop's result is 0, whatever came before it. |
| Vram.ListLine | cmd/vram/main.go:20 | A `--list` line states all three things the usage text promises (main.go:91). It starts with `[bus] `, the GPU's name is exactly the text between that and `, N MiB`, and it ends with the same `N MiB` a minimum line for that VRAM would show. |
| Vram.MinimumLine | cmd/vram/main.go:69 | The minimum line ends with ` MiB`, and the text before it reads back as exactly the minimum. |
| Vram.Diagnostic | cmd/vram/main.go:46-57 | Every diagnostic line reads back, through an independent reader of the four message forms, as the pair of counts it was written from. |
| Vram.DiagnosticReadsBack | cmd/vram/main.go:46-57 | The same read-back, proved message form by message form. |
| Vram.DiagnosticInjective | cmd/vram/main.go:46-57 | Two diagnostics are the same line exactly when their pairs of counts are equal. |
| Vram.ListLines | cmd/vram/main.go:19-21 | The list output has one `[bus] name, N MiB` line per GPU, in provider order. |
| Vram.VramAction | cmd/vram/main.go:12-71 | After an error nothing goes to stdout. Every returned error is either the provider's own error or the "no GPUs" error. Outside `--list`, a successful run prints exactly one line: the loop's minimum over the GPUs the first provider call returned. |
| Vram.ListMode | cmd/vram/main.go:13-23 | With `--list`, stdout holds one line per GPU found with integrated GPUs included, in order, with nothing on stderr and no minimum. A provider error is returned as is. `--integrated` makes no difference. |
| Vram.ProviderErrorPassedThrough | cmd/vram/main.go:13-31 | When the first provider call fails, the action returns that same error and writes nothing. |
| Vram.IntegratedButNone | cmd/vram/main.go:33-37 | With `--integrated` and no GPU found, the action writes one error line to stderr, returns the "could not find any available GPUs" error, and prints no minimum. |
| Vram.DiagnosticWithoutDiscrete | cmd/vram/main.go:46-57 | When the non-integrated count is 0, the total count picks the message: 0 gives "could not find any GPU", 1 gives "found one GPUs, and 0 ...", and any other count N gives "found N GPUs, where 0 ...". |
| Vram.NoDiscreteGpu | cmd/vram/main.go:38-70 | Without `--integrated` and with no discrete GPU, the run succeeds. It writes one diagnostic whose non-integrated count is 0 and prints "0 MiB", with no fallback to integrated GPUs. If the call that includes integrated GPUs fails, its error is returned. |
| Vram.PrintsTrueMinimum | cmd/vram/main.go:60-69 | Outside `--list`, when the GPUs found all have positive VRAM, the single stdout line reports an entry's VRAM that no entry undercuts. |
| Vram.DiscreteAndIntegratedExample | cmd/vram/main.go:25-69 | Take a 4096 MiB discrete GPU and a 1024 MiB integrated one. The default run reports 4096 MiB and the `--integrated` run reports 1024 MiB. |
| Vram.VramActionWithFallback | cmd/vram/main.go:77 | The corrected action. Take the case with no flags, no discrete GPU, and a successful call that includes integrated GPUs. There, stdout is the one line with the minimum over all GPUs, stderr is the same diagnostic `VramAction` writes, and no error is returned. In every other case the outcome equals `VramAction`'s. |
| Vram.FallbackPrintsIntegratedMinimum | cmd/vram/main.go:77 | With only integrated GPUs, all with positive VRAM, the corrected action prints their true minimum. |
| Vram.NoFallbackCounterexample | cmd/vram/main.go:38-58 | With a single integrated 1024 MiB GPU, the code as written prints "0 MiB", while the corrected action prints "1024 MiB". |
| GnomeWallpaper.StaticFilenames | gnomewallpaper.go:35-37 | Position i holds the filename of static i. |
| GnomeWallpaper.TransitionFilenames | gnomewallpaper.go:38-41 | Positions 2j and 2j+1 hold the from- and to-filename of transition j. |
| GnomeWallpaper.AllFilenames | gnomewallpaper.go:34-41 | Before de-duplication, the list is every static's filename in order, followed by each transition's from/to pair in order. |
| GnomeWallpaper.CollectFilenames | gnomewallpaper.go:34-41 | The two append loops build exactly that list. |
| GnomeWallpaper.CollectedIffReferenced | gnomewallpaper.go:34-41 | A filename appears in the collected list exactly when it belongs to a static or is an end of a transition. |
| GnomeWallpaper.Images | gnomewallpaper.go:33-43 | The images have no repeats, and a filename is among them exactly when it belongs to a static or is an end of a transition. |
| GnomeWallpaper.StaticsAreImages | gnomewallpaper.go:35-42 | Every static's filename is among the images. |
| GnomeWallpaper.TransitionEndsAreImages | gnomewallpaper.go:38-42 | Both ends of every transition are among the images. |
| GnomeWallpaper.ImagesInFirstOccurrenceOrder | gnomewallpaper.go:34-42 | The images are ordered by where each first occurs in the collected list. |
| GnomeWallpaper.ImagesOfDistinctFilenames | gnomewallpaper.go:42 | When no collected filename repeats, the images are the collected list itself. |
| GnomeWallpaper.ImagesOfEmptyConfig | gnomewallpaper.go:33-43 | A configuration with no statics and no transitions uses no images. |
| GnomeWallpaper.TabLines | gnomewallpaper.go:59-60 | There is one line per image, in order, and line i is a tab followed by image i. |
| GnomeWallpaper.Header | gnomewallpaper.go:48-53 | The opening text is three lines: `--- name---`, the path line and the start-time line. |
| GnomeWallpaper.HeaderReadsBack | gnomewallpaper.go:48-53 | When the collection name, the path and the start time hold no newline, the header splits into exactly those three lines. The collection name, the path and the start time are recovered from them. |
| GnomeWallpaper.Listing | gnomewallpaper.go:59-61 | The image listing is the tab lines joined by newlines, with a newline after the last one; with no images it is empty. |
| GnomeWallpaper.Summary | gnomewallpaper.go:54-61 | For every configuration, the text after the header is, as lines: the rest of the start-time line, the statics count, the transitions count, "uses these images:", one tab line per image, and a final newline. |
| GnomeWallpaper.String | gnomewallpaper.go:46-63 | For every wallpaper, the description is the three header lines, the two count lines, "uses these images:" and one tab line per image, joined by newlines and ended by one. |
| GnomeWallpaper.SplitSummary | gnomewallpaper.go:54-61 | After the header come lines in this order: the statics count line, the transitions count line, "uses these images:", then one tab-prefixed line per image. |
| GnomeWallpaper.ReadSummaryOfSummary | gnomewallpaper.go:54-61 | Reading back the text after the header gives the number of statics, the number of transitions, and exactly the images in order. |
| GnomeWallpaper.StringReportsCountsAndImages | gnomewallpaper.go:46-63 | The description starts with the header, and the rest reads back as the two counts and the image list. |

## Findings

| source | as written | input that shows it | evidently intended | confidence | as-written member | corrected member |
|---|---|---|---|---|---|---|
| cmd/vram/main.go:38-58 | With no discrete GPU, only diagnostics are written. `gpus` stays empty, so the minimum printed is "0 MiB". | no flags; provider without integrated: no GPUs; provider with integrated: one GPU of 1024 MiB | the usage text (main.go:77) says the minimum over the integrated GPUs is returned, which is "1024 MiB" here | medium, not executed | Vram.NoFallbackCounterexample | Vram.FallbackPrintsIntegratedMinimum |

The rest of the model, and every property of `Vram.VramAction` above, describes
the code as written. `Vram.VramActionWithFallback` only states the behaviour the
usage text promises.

## Left out

- `StartTime()` (gnomewallpaper.go:26-31): it builds a `time.Time` in the local time zone through Go's `time.Date`. Normalisation and time zones live in the Go standard library, so they are not modelled.
- GnomeWallpaper.Header: the start time's text (`StartTime().String()`, gnomewallpaper.go:53) is a parameter, because it comes from Go's time formatting.
- `wallutils.GPUs` (lspci parsing) is not part of this model. It is an oracle that answers the same way each time it gets the same argument. So the second `GPUs(false)` call gives the same answer as the first, and the "found no GPUs while finding N non-integrated" branch (main.go:51) cannot be reached.
- `unique` and the `GBackground` XML types are not part of this model. `unique` is assumed to keep the first occurrence of each element, in input order (`Seqs.Unique`). A `Config` holds only the statics' filenames and the transitions' two filenames.
- `main()` is not modelled: the CLI wiring, urfave/cli flag parsing, `os.Args`, `wallutils.Quit` and the real stdout/stderr writes (main.go:73-103). Flags are two booleans, and output is the `Outcome` line lists.
- A nil `Config` pointer (which would panic in Go) is not modelled: `Wallpaper.config` is always present.
- Vram.Gpu: VRAM is Go's `uint` and is modelled as a natural number. The loop's result is always 0 or one of the input values, so no wrap-around can occur.
- GnomeWallpaper.StringReportsCountsAndImages: the read-back is proved only when no image filename contains a newline. With such a filename the listing's lines are ambiguous.
- GnomeWallpaper.ReadSummaryOfSummary: same restriction as above, for the same reason.
- GnomeWallpaper.HeaderReadsBack: the read-back is proved only when the collection name, the path and the start time hold no newline. A newline in any of them splits the header into more lines.
- GnomeWallpaper.SplitSummary: splitting the summary back into its lines is proved only when no image filename contains a newline, because such a filename splits into several lines. The layout itself holds for every input: `GnomeWallpaper.Summary` states it as a join of lines.
