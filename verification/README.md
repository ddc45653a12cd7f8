# gra_ablation analysis core in Dafny

This project models the analysis core of gra_ablation, a set of Python scripts that process LAMMPS molecular-dynamics runs of oxygen attacking graphite. The scripts turn per-frame atom records into:
- escape events (carbon atoms leaving the surface);
- jump statistics (when an atom first rises above its baseline, and the local temperature and stress there);
- von Mises and deviatoric stress measures;
- time-binned CO/CO2 production rates;
- a labelled training set of escapes and non-escapes;
- cumulative-probability contour levels.

Each script step is modelled as pure functions over sequences, with contracts that state what the script guarantees. Lemmas relate those functions to independent definitions.

Modelling conventions:
- A NaN or missing cell is `None` (or `Missing` in a table cell). A pandas mean skips missing values.
- A square root is never taken. `Tensor.Root(sign, square)` stands for sign·√square, so every stress identity is stated on squares.
- A Python exception, or a `sys.exit` with an error, is a `Failure` of `Wrappers.Result`, carrying the exception's name.
- Tables with dynamic columns are `Frames.Frame`, a column list plus one map per row. Tables with fixed columns are typed row datatypes.
- The reading of files, OVITO pipelines, glob results and command-line arguments are inputs: line sequences, row sequences and per-frame arrays.

Modules and the scripts they model:

| module | script |
|---|---|
| `Species`, `Cells` | `parse_species` and `_safe_num` of `6_out/006_2km_opt/virial_new/1900k/stress.py` |
| `Dump` | `parse_ablate_dump` of stress.py: the `ITEM:` line state machine |
| `Tensor` | `von_mises` of stress.py; the stress columns of `08_prepare_stress.py`; the signed equivalent stress of `10_prepare_escape_map.py` |
| `Escape` | `compute_escape_metrics` of stress.py |
| `TimeBins` | `time_bin_aggregate` of stress.py |
| `Jump` | both `05a_jump_analyze.py` variants (500 K and 1000 K) |
| `PrepareStress`, `Frames` | `08_prepare_stress.py` |
| `EscapeMap` | `10_prepare_escape_map.py` |
| `IsoContour` | the threshold and range logic of `12_denggaoxian.py` |
| `FilterDump` | `02_filter_dump_ovito.py` |
| `ExtractIds` | `01_extract_ids_ovito.py` |
| `Detach`, `Surface` | `find_out_c.py` and its `robust_top_surface_z` |
| `OvitoFilter` | `ovito_filter_dump.py` |
| `IdCsv`, `Trace` | `trace_out_c.py` |
| `Span` | `00_sub_c_temp.py` |
| `Collect`, `RunTag` | `06_collect_all_jumps.py` |
| `Plot` | the `r2_score`, crop, unit and filter helpers of `plot.py` |

`Numbers`, `Text`, `Reals`, `Sorting` and `Wrappers` are shared helpers: Python's `int()`/`float()`/`str.split`/`strip`, sums and means, and the stable sorts.

A few consequences of the scripts' code, each stated by a member:
- In the jump scripts the temperature window `[t_jump − Δ, t_jump + Δ]` is closed at both ends. In the worked example (`Jump.ExampleTemps`) the window includes the sample at 0.01 ps, and the mean is 617.5 K.
- `sigma_dev_GPa` of `08_prepare_stress.py` is ½·√(Σ diff²). Under uniaxial stress (10, 0, 0) its square is 50 (`Tensor.UniaxialExample`).
- The bin edges of `time_bin_aggregate` are `np.arange(tmin, tmax + bin/2, bin)`, so a time at or beyond the last edge falls in no bin (`TimeBins.LatestTimeMayBeUnbinned`).
- The jump baseline is anchored at `TIME_START_PS`, not at an atom's first sample, so a jump may fall inside the baseline window (`Jump.JumpInsideBaseline`).

## Model

| member | source | states |
|---|---|---|
| IdCsv.CsvRow | 4_new_full_o2/3_plot_all/3_1000k_out/trace_out_c.py:13 | A line read by `csv.reader` without quoting is an empty row exactly when it is empty, and a line without a comma is one field. |
| IdCsv.TraceId | 4_new_full_o2/3_plot_all/3_1000k_out/trace_out_c.py:14-21 | A row gives an id exactly when it is not a comment row (empty, or first field starting with `#`) and `int()` accepts its first field, and the id is that integer. |
| IdCsv.CommentLine | 4_new_full_o2/3_plot_all/3_1000k_out/trace_out_c.py:14 | A line starting with `#` is always skipped as a comment. |
| IdCsv.HeaderIsNoInt | 4_new_full_o2/3_plot_all/3_1000k_out/ovito_filter_dump.py:33-37 | The loader of ovito_filter_dump.py, which skips the `id` header in any case before `int()`, takes the same id from every row as `load_ids_from_csv`, since `int()` rejects the header anyway. |
| IdCsv.Parsed | 4_new_full_o2/3_plot_all/3_1000k_out/trace_out_c.py:11-21 | The collected integers are exactly those some row of the file contributes. |
| IdCsv.LoadIds | 4_new_full_o2/3_plot_all/3_1000k_out/trace_out_c.py:10-22 | `sorted(set(ids))`: strictly increasing, and an integer is listed exactly when some row of the file contributes it. |
| IdCsv.AscendingUnique | 4_new_full_o2/3_plot_all/3_1000k_out/trace_out_c.py:22 | Two strictly increasing lists with the same members are equal, so the sorted id list is fixed by the set of ids alone. |
| OvitoFilter.ParseInts | 4_new_full_o2/3_plot_all/3_1000k_out/ovito_filter_dump.py:27 | A list of fields parses exactly when `int()` accepts every one, and then the values are their integers, in order. |
| OvitoFilter.ParseTypes | 4_new_full_o2/3_plot_all/3_1000k_out/ovito_filter_dump.py:25-27 | No `--types` (or an empty one) means no type filter; otherwise the filter holds the integers of the stripped, nonblank comma-separated fields, and the script fails when `int()` rejects one. |
| OvitoFilter.FilterParsedIsParsed | 4_new_full_o2/3_plot_all/3_1000k_out/ovito_filter_dump.py:31-37 | The `--ids-csv` loop of this script appends exactly the integers `load_ids_from_csv` of trace_out_c.py collects from the same rows. |
| OvitoFilter.IdsKeep | 4_new_full_o2/3_plot_all/3_1000k_out/ovito_filter_dump.py:29-38 | No file means no id filter; otherwise the strictly increasing list of exactly the integers the loop appends. |
| OvitoFilter.IdsKeepIsLoadIds | 4_new_full_o2/3_plot_all/3_1000k_out/ovito_filter_dump.py:29-38 | Both scripts read the same id list from the same file. |
| OvitoFilter.RobustTop | 4_new_full_o2/3_plot_all/3_1000k_out/ovito_filter_dump.py:40-51 | No surface exactly when there are no heights; otherwise it lies between the lowest and highest height (the `core_width` argument is ignored). |
| OvitoFilter.RobustTopIsTopSurface | 4_new_full_o2/3_plot_all/3_1000k_out/ovito_filter_dump.py:40-51 | This estimate is the shared top-surface estimate with a core half-width of 5.0: both are missing together and otherwise give the same height. |
| OvitoFilter.KeptCarbonHeights | 4_new_full_o2/3_plot_all/3_1000k_out/ovito_filter_dump.py:91-93 | The heights the surface is computed from are exactly those of the carbons that pass the type and id filters. |
| OvitoFilter.DetachTop | 4_new_full_o2/3_plot_all/3_1000k_out/ovito_filter_dump.py:90-94 | There is a surface exactly when a detach threshold is given and some carbon passes the type and id filters; it lies between the heights of two such carbons. |
| OvitoFilter.Selection | 4_new_full_o2/3_plot_all/3_1000k_out/ovito_filter_dump.py:56-103 | One selection flag per particle, set exactly for the particles the filter does not keep. |
| OvitoFilter.KeepOnlyIds | 4_new_full_o2/3_plot_all/3_1000k_out/ovito_filter_dump.py:69-72 | With `--keep-only-ids` and an id list, a particle is kept exactly when its id is in the list, whatever its type or height. |
| OvitoFilter.KeepIntersects | 4_new_full_o2/3_plot_all/3_1000k_out/ovito_filter_dump.py:74-99 | Otherwise a kept particle passes the type and id filters; a non-carbon, or any particle without a threshold, is kept exactly when it passes them; and with a surface a carbon is kept exactly when it passes them and lies strictly more than the threshold above the surface. |
| OvitoFilter.NoCarbonNoRemoval | 4_new_full_o2/3_plot_all/3_1000k_out/ovito_filter_dump.py:90-97 | With a threshold but no carbon passing the filters there is no surface, and the detach step removes nothing. |
| OvitoFilter.FrameRange | 4_new_full_o2/3_plot_all/3_1000k_out/ovito_filter_dump.py:107-108 | The frame range is accepted exactly when `0 ≤ start < end ≤ num_frames`, and is then passed on unchanged. |
| OvitoFilter.ExportName | 4_new_full_o2/3_plot_all/3_1000k_out/ovito_filter_dump.py:118-130 | A requested column in the name table maps to its OVITO name; any other is exported under its own name exactly when the frame has it. |
| OvitoFilter.MapColumns | 4_new_full_o2/3_plot_all/3_1000k_out/ovito_filter_dump.py:116-130 | The export columns are exactly the names of the requests that map or exist, at most one per request. |
| OvitoFilter.Columns | 4_new_full_o2/3_plot_all/3_1000k_out/ovito_filter_dump.py:116-135 | At least one column is always exported: the mapped requests, or the five basic columns when none maps. |
| OvitoFilter.UnknownColumnsFallBack | 4_new_full_o2/3_plot_all/3_1000k_out/ovito_filter_dump.py:132-135 | A request naming no known or present column exports the five basic columns. |
| Trace.Slot | 4_new_full_o2/3_plot_all/3_1000k_out/trace_out_c.py:70-79 | The row of a tracked id is missing exactly when the frame lacks the id, and is otherwise the last row carrying it, as the `id2ind` dictionary keeps. |
| Trace.TrackedZ | 4_new_full_o2/3_plot_all/3_1000k_out/trace_out_c.py:73-80 | The height of a tracked id is missing exactly when the frame lacks the id, and otherwise is the height of an atom with that id. |
| Trace.Source | 4_new_full_o2/3_plot_all/3_1000k_out/trace_out_c.py:82-99 | Temperatures come from `v_MyTemp` exactly when the frame has it, from `c_MyKE` exactly when it lacks `v_MyTemp`, the flag is set and `c_MyKE` is present, and from nowhere otherwise. |
| Trace.TrackedT | 4_new_full_o2/3_plot_all/3_1000k_out/trace_out_c.py:82-100 | Estimating from kinetic energy with `kB = 0` raises exactly when some tracked id is present; otherwise a temperature is missing exactly when its id is absent or there is no source, and is that atom's `v_MyTemp`, or the temperature whose `3/2·kB·T` is that atom's `c_MyKE`. |
| Trace.KeToTemp | 4_new_full_o2/3_plot_all/3_1000k_out/trace_out_c.py:91-96 | The estimated temperature gives back the kinetic energy through `KE = 3/2·kB·T`. |
| Trace.FrameNumbers | 4_new_full_o2/3_plot_all/3_1000k_out/trace_out_c.py:63-65 | The frame numbers run from the start frame up, one per frame read. |
| Trace.Times | 4_new_full_o2/3_plot_all/3_1000k_out/trace_out_c.py:102-103 | The time of each frame is its frame number times `dt_fs/1000`. |
| Trace.TrackFrames | 4_new_full_o2/3_plot_all/3_1000k_out/trace_out_c.py:63-100 | The loop over the frames fails exactly when some frame lacks ids or its temperature estimate raises. Otherwise every frame gives its heights and temperatures, in order. |
| Trace.Track | 4_new_full_o2/3_plot_all/3_1000k_out/trace_out_c.py:41-105 | The script stops exactly when the id list is empty, no frame is read (stacking the empty height list raises), or some frame lacks ids or raises in the temperature estimate. Otherwise the tracked ids are the sorted ids of the file, and every frame has its number, time, heights and temperatures. |
| Trace.FrameMeans | 4_new_full_o2/3_plot_all/3_1000k_out/trace_out_c.py:108 | A frame's mean height is missing exactly when every tracked height of the frame is. |
| ExtractIds.TypeArray | 4_new_full_o2/3_plot_all/3_500k_out/01_extract_ids_ovito.py:17-23 | One type per atom: the `type` array when the frame has one, else `species`, else the chemical symbols. |
| ExtractIds.MaskIndices | 4_new_full_o2/3_plot_all/3_500k_out/01_extract_ids_ovito.py:33 | The positions where the mask holds (a carbon strictly above the threshold), each exactly once, in increasing order. |
| ExtractIds.EscapedIds | 4_new_full_o2/3_plot_all/3_500k_out/01_extract_ids_ovito.py:33-34 | An id is written exactly when some carbon strictly above `Z_THRESH_A` carries it, one entry per such atom, in frame order. |
| ExtractIds.PickedMember | 4_new_full_o2/3_plot_all/3_500k_out/01_extract_ids_ovito.py:33-34 | An id is among the picked ones exactly when some escaped atom carries it. |
| ExtractIds.Output | 4_new_full_o2/3_plot_all/3_500k_out/01_extract_ids_ovito.py:37-41 | The file is the three header lines followed by one line per escaped id, each the decimal text of the id, which `int()` reads back as that id. |
| ExtractIds.PrintedIdIsOneField | 4_new_full_o2/3_plot_all/3_500k_out/01_extract_ids_ovito.py:40-41 | A printed id is a single CSV field that does not start with `#`. |
| ExtractIds.HeaderIsComment | 4_new_full_o2/3_plot_all/3_500k_out/01_extract_ids_ovito.py:38-39 | The three header lines start with `#`, so the id loader skips them. |
| ExtractIds.OutputReadsBack | 4_new_full_o2/3_plot_all/3_500k_out/01_extract_ids_ovito.py:37-41 | Reading the file back with `load_ids_from_csv` of trace_out_c.py gives the escaped ids, sorted and without repeats. |
| ExtractIds.PrintedRow | 4_new_full_o2/3_plot_all/3_500k_out/01_extract_ids_ovito.py:40-41 | A printed id read as a CSV row gives back that id. |
| ExtractIds.OutputRowIds | 4_new_full_o2/3_plot_all/3_500k_out/01_extract_ids_ovito.py:37-41 | Reading the written lines row by row gives nothing for the three header lines and then each escaped id in order. |
| ExtractIds.SomeIdsHold | 4_new_full_o2/3_plot_all/3_500k_out/01_extract_ids_ovito.py:37-41 | An id is read from the file exactly when it was written: the header lines give none. |
| FilterDump.TimeAt | 4_new_full_o2/3_plot_all/3_500k_out/02_filter_dump_ovito.py:10-13 | The time of the `k`-th frame read is `TIME_ZERO_PS` plus `k` hundredths of a picosecond, from 100 steps of 0.1 fs per frame. |
| FilterDump.TimeAxisAscending | 4_new_full_o2/3_plot_all/3_500k_out/02_filter_dump_ovito.py:38 | The time axis starts at 15 ps and strictly increases, 0.01 ps per frame. |
| FilterDump.Sliced | 4_new_full_o2/3_plot_all/3_500k_out/02_filter_dump_ovito.py:41-44 | The frames read are the trajectory's frames from `START_FRAME` on, in order, at most `END_FRAME − START_FRAME` of them, and exactly that many when the trajectory is long enough. |
| FilterDump.RawTemp | 4_new_full_o2/3_plot_all/3_500k_out/02_filter_dump_ovito.py:48-54 | The temperature is `v_mytemp` when the frame has it; else the one whose `3/2·kB·T` is `c_myke`; else missing. |
| FilterDump.Masked | 4_new_full_o2/3_plot_all/3_500k_out/02_filter_dump_ovito.py:69-71 | A temperature is kept exactly when it is present and within the closed range `[TEMP_MIN, TEMP_MAX]`, and then unchanged. |
| FilterDump.IndexOfId | 4_new_full_o2/3_plot_all/3_500k_out/02_filter_dump_ovito.py:57-61 | The index of an id is missing exactly when the frame lacks it, and otherwise is the last atom carrying it. |
| FilterDump.StressOf | 4_new_full_o2/3_plot_all/3_500k_out/02_filter_dump_ovito.py:74-76 | One value per stress column, present exactly when the frame has that column, and then the atom's value. |
| FilterDump.RowOf | 4_new_full_o2/3_plot_all/3_500k_out/02_filter_dump_ovito.py:60-77 | An atom that left the frame gives no row; otherwise a row with its id recording that frame's values for it. |
| FilterDump.FrameRows | 4_new_full_o2/3_plot_all/3_500k_out/02_filter_dump_ovito.py:60-77 | A frame's rows are of tracked atoms present in the frame, recording the frame's values, and every tracked atom present gets one. |
| FilterDump.StackOrdered | 4_new_full_o2/3_plot_all/3_500k_out/02_filter_dump_ovito.py:41-77 | One frame's rows followed by those of later frames keep the frame numbers nondecreasing. |
| FilterDump.SeriesFrom | 4_new_full_o2/3_plot_all/3_500k_out/02_filter_dump_ovito.py:41-77 | The rows of the frames come one frame after another: frame numbers within the frames read and never decreasing. |
| FilterDump.SeriesRecords | 4_new_full_o2/3_plot_all/3_500k_out/02_filter_dump_ovito.py:41-77 | Every row of the series is what its own frame records for its atom. |
| FilterDump.SeriesComplete | 4_new_full_o2/3_plot_all/3_500k_out/02_filter_dump_ovito.py:41-77 | Every tracked atom present in a frame from the given one on has a row for that frame in the series. |
| FilterDump.TimeSeries | 4_new_full_o2/3_plot_all/3_500k_out/02_filter_dump_ovito.py:30-77 | An empty id list stops the script; otherwise the rows are ordered by frame, each is what its frame records for a tracked atom, and every tracked atom present in a frame has its row for that frame. |
| FilterDump.FirstAbove | 4_new_full_o2/3_plot_all/3_500k_out/02_filter_dump_ovito.py:87-89 | The first row strictly above the threshold, none exactly when no row is. |
| FilterDump.PeakIndex | 4_new_full_o2/3_plot_all/3_500k_out/02_filter_dump_ovito.py:96-98 | `idxmax`: none exactly when every temperature is missing; otherwise the first row with the largest present temperature. |
| FilterDump.Summarize | 4_new_full_o2/3_plot_all/3_500k_out/02_filter_dump_ovito.py:85-103 | `t_escape` is missing exactly when no row is above the threshold, and otherwise is the time (with the temperature) of the first row above it; `T_peak` is missing exactly when every temperature is, and otherwise is the largest temperature, with the time of a row holding it. |
| FilterDump.GroupOf | 4_new_full_o2/3_plot_all/3_500k_out/02_filter_dump_ovito.py:85 | One atom's group holds exactly its rows, in series order. |
| FilterDump.SummariesOf | 4_new_full_o2/3_plot_all/3_500k_out/02_filter_dump_ovito.py:85-103 | One summary per listed atom, in turn, each computed from that atom's group. |
| FilterDump.Summaries | 4_new_full_o2/3_plot_all/3_500k_out/02_filter_dump_ovito.py:83-108 | An empty series has no `id` column, so grouping raises. Otherwise there is one summary line per atom of the series, each atom exactly once, computed from that atom's rows. |
| Span.Side | 4_new_full_o2/3_plot_all/3_all_out/00_sub_c_temp.py:16-17 | A blank side is an open end; any other side is read with `float()`, and the span fails exactly when `float()` rejects it. |
| Span.ParseSpan | 4_new_full_o2/3_plot_all/3_all_out/00_sub_c_temp.py:9-18 | A text without `:` is a `ValueError`; a parsed span came from exactly two pieces around one colon, each end being what its side reads as. |
| Span.ParseSpanOpt | 4_new_full_o2/3_plot_all/3_all_out/00_sub_c_temp.py:11-12 | `parse_span(None)` is `None`; otherwise it succeeds exactly when the text parses, with that span. |
| Span.SpanRoundTrip | 4_new_full_o2/3_plot_all/3_all_out/00_sub_c_temp.py:9-18 | Two integers written around a colon read back as the span between them. |
| Span.OpenSpan | 4_new_full_o2/3_plot_all/3_all_out/00_sub_c_temp.py:13-18 | A lone colon gives a span open at both ends. |
| Span.ParseExcludes | 4_new_full_o2/3_plot_all/3_all_out/00_sub_c_temp.py:20-30 | No argument or an empty one gives no spans; otherwise it succeeds exactly when every stripped nonblank comma-separated chunk parses, with one span per chunk, in order. |
| Span.ParseSpans | 4_new_full_o2/3_plot_all/3_all_out/00_sub_c_temp.py:24-30 | A list of chunks parses exactly when every chunk does, and then each span is its chunk's. |
| Span.ViewSpan | 4_new_full_o2/3_plot_all/3_all_out/00_sub_c_temp.py:73 | An empty `--xlim` leaves both ends open; any other is parsed as a span. |
| Span.Kept | 4_new_full_o2/3_plot_all/3_all_out/00_sub_c_temp.py:69-90 | The samples plotted are exactly those whose time lies within the given ends of the view and outside every exclusion span that has both ends; there are no more of them than samples. |
| Span.KeptInOrder | 4_new_full_o2/3_plot_all/3_all_out/00_sub_c_temp.py:89-90 | The mask keeps the samples in their order: the kept samples of two stretches of the series are those of the first followed by those of the second, and a single sample is kept exactly when its time is included. |
| Span.KeptWithin | 4_new_full_o2/3_plot_all/3_all_out/00_sub_c_temp.py:74-87 | A kept time is within every given end of the view and strictly outside every exclusion span that has both ends. |
| Span.WindowHi | 4_new_full_o2/3_plot_all/3_all_out/00_sub_c_temp.py:36-40 | The window of each output is nonempty, within the series, and at most the kernel width long. |
| Span.MovingAverage | 4_new_full_o2/3_plot_all/3_all_out/00_sub_c_temp.py:32-40 | No window, or one below 2, returns the series itself; otherwise the width is cut to the length, an empty series is an error, and every output is the window mean of the `same`-mode convolution. |
| Span.Width | 4_new_full_o2/3_plot_all/3_all_out/00_sub_c_temp.py:35-37 | The width used is positive and at most both the requested window and the length, and equals the requested window when that fits. |
| Span.ConstantInterior | 4_new_full_o2/3_plot_all/3_all_out/00_sub_c_temp.py:38-40 | A constant series stays constant wherever the whole window lies inside it. |
| Span.NonnegativeWithin | 4_new_full_o2/3_plot_all/3_all_out/00_sub_c_temp.py:38-40 | A nonnegative series smooths to values between 0 and its maximum. |
| Jump.CropTime | 4_new_full_o2/3_plot_all/3_1000k_out/05a_jump_analyze.py:22-25 | The script exits exactly when no row's time lies in the closed analysis window; otherwise the kept rows, never none, are exactly those inside it. |
| Jump.AllT | 4_new_full_o2/3_plot_all/3_1000k_out/05a_jump_analyze.py:27-32 | `all_T.csv`: the times are strictly ascending and are exactly the times with at least one temperature in `[T_MIN, T_MAX]`; the value at each time is the mean of the legal temperatures recorded at that time. |
| Jump.LegalTempsAt | 4_new_full_o2/3_plot_all/3_1000k_out/05a_jump_analyze.py:28-30 | The legal temperatures recorded at a time lie in `[T_MIN, T_MAX]`, and there are some exactly when some row at that time carries a legal temperature. |
| Jump.MeanTempAt | 4_new_full_o2/3_plot_all/3_1000k_out/05a_jump_analyze.py:28-30 | Averaging the group at one time of the rows with a legal temperature gives the mean of the legal temperatures recorded at that time, which lies in the legal range. |
| Jump.GroupTemps | 4_new_full_o2/3_plot_all/3_1000k_out/05a_jump_analyze.py:28-31 | Filtering the rows with a legal temperature and then grouping them by time collects, for each time, exactly the legal temperatures recorded then, in row order. |
| Jump.Group | 4_new_full_o2/3_plot_all/3_1000k_out/05a_jump_analyze.py:37-38 | One atom's rows are exactly its rows of the cropped table, sorted by time. |
| Jump.Collect | 4_new_full_o2/3_plot_all/3_1000k_out/05a_jump_analyze.py:36-64 | The loop over the atoms: every row belongs to a listed atom and is what that atom gives, every atom that gives a row has one, and distinct atoms give distinct rows. |
| Jump.BaseSelected | 4_new_full_o2/3_plot_all/3_1000k_out/05a_jump_analyze.py:41-44 | The count and height sum of the selected baseline samples equal the running count and sum over the series. |
| Jump.Baseline | 4_new_full_o2/3_plot_all/3_1000k_out/05a_jump_analyze.py:41-44 | The baseline is missing exactly when no sample lies at or before `TIME_START_PS + BASE_WIN_PS`. Otherwise it is the sum of those samples' heights divided by their count, between their lowest and highest height. |
| Jump.FirstCrossing | 4_new_full_o2/3_plot_all/3_1000k_out/05a_jump_analyze.py:46-50 | The first sample at least the threshold above the baseline: none exactly when no sample is, and every earlier sample is below it. |
| Jump.Window | 4_new_full_o2/3_plot_all/3_1000k_out/05a_jump_analyze.py:53-54 | The window around the jump holds exactly the atom's samples whose time lies in the closed `[t_jump − Δ, t_jump + Δ]`. |
| Jump.WindowHoldsJump | 4_new_full_o2/3_plot_all/3_1000k_out/05a_jump_analyze.py:53-57 | The jump sample lies in its own window, so the window is never empty. |
| Jump.Detect | 4_new_full_o2/3_plot_all/3_1000k_out/05a_jump_analyze.py:40-51 | An atom has a jump exactly when it has a baseline and some sample crosses the threshold; the jump is the first crossing sample. |
| Jump.Atom1000 | 4_new_full_o2/3_plot_all/3_1000k_out/05a_jump_analyze.py:37-64 | The 1000 K script keeps an atom exactly when it has a jump and some temperature in its window is legal; the row holds the atom's id, the jump time, the window ends, and the mean of the legal temperatures of the window, which lies in the legal range. |
| Jump.AtomRow1000 | 4_new_full_o2/3_plot_all/3_1000k_out/05a_jump_analyze.py:37-64 | A row of the cropped table names its atom, and its mean temperature is the mean of the legal temperatures in the window around the jump of that atom's time-sorted rows. |
| Jump.Rows1000 | 4_new_full_o2/3_plot_all/3_1000k_out/05a_jump_analyze.py:36-64 | One row per atom of the cropped table that gives one, no atom twice, each the row its own atom gives. |
| Jump.Jumps1000 | 4_new_full_o2/3_plot_all/3_1000k_out/05a_jump_analyze.py:20-68 | The 1000 K script fails exactly when nothing lies in the analysis window. Otherwise each row is the one its atom of the cropped table gives, and every atom that gives a row has one. No atom appears twice, and each is an atom of the input with a legal mean temperature. |
| Jump.SeenIn | 4_new_full_o2/3_plot_all/3_1000k_out/05a_jump_analyze.py:37 | An atom of the cropped table is an atom of the input. |
| Jump.StressMean | 4_new_full_o2/3_plot_all/3_500k_out/05a_jump_analyze.py:71-73 | A stress average is missing when the table lacks the column, and otherwise exactly when no sample of the window has a value for it; when present it is the mean of the values the window holds in that column. |
| Jump.StressColumn | 4_new_full_o2/3_plot_all/3_500k_out/05a_jump_analyze.py:72-73 | The column of one stress component holds that component of every window row, in order. |
| Jump.Reduce | 4_new_full_o2/3_plot_all/3_500k_out/05a_jump_analyze.py:75-81 | `P_hydro` and `sigma_dev` are missing when the xx average is, and otherwise missing exactly when yy or zz is; `3·P_hydro` is the sum of the three normal averages and `(2·sigma_dev)²` is their spread. |
| Jump.MaskedTemps | 4_new_full_o2/3_plot_all/3_500k_out/05a_jump_analyze.py:66-67 | A window temperature survives the mask exactly when it is present and within `[T_MIN, T_MAX]`, and then unchanged. |
| Jump.MaskedMeanWithin | 4_new_full_o2/3_plot_all/3_500k_out/05a_jump_analyze.py:66-69 | A present mean of the masked temperatures lies in the legal range. |
| Jump.MaskedPresent | 4_new_full_o2/3_plot_all/3_500k_out/05a_jump_analyze.py:67-69 | Masking the out-of-range temperatures and skipping the missing ones leaves exactly the legal temperatures in order, so the 500 K masked mean equals the 1000 K filtered mean. |
| Jump.Atom500 | 4_new_full_o2/3_plot_all/3_500k_out/05a_jump_analyze.py:48-90 | The 500 K script keeps an atom exactly when it has a jump (the emptiness guard never fires, so a missing mean temperature does not discard it); the row has the id, jump time and window ends; its mean temperature is the mean of the window's legal temperatures (legal itself, missing when there is none); its six stress cells are the window means of the stress columns; `sigma_dev` and `P_hydro` are computed from the three normal means and are missing together. |
| Jump.AtomRow500 | 4_new_full_o2/3_plot_all/3_500k_out/05a_jump_analyze.py:48-90 | A row of the cropped table names its atom; its mean temperature, its six stress means and its `sigma_dev` and `P_hydro` are those of the window around the jump of that atom's time-sorted rows. |
| Jump.Rows500 | 4_new_full_o2/3_plot_all/3_500k_out/05a_jump_analyze.py:46-90 | One row per atom of the cropped table that gives one, no atom twice, each the row its own atom gives. |
| Jump.Jumps500 | 4_new_full_o2/3_plot_all/3_500k_out/05a_jump_analyze.py:31-96 | The 500 K script fails exactly when nothing lies in the analysis window. Otherwise each row is the one its atom of the cropped table gives, and every atom that gives a row has one. No atom appears twice, and each is an atom of the input. |
| Jump.ExampleJump | 4_new_full_o2/3_plot_all/3_1000k_out/05a_jump_analyze.py:40-64 | Worked example: heights 0, 0, 2, 6, 9 at 0.00 to 0.04 ps jump at 0.03 ps, and the closed window `[0.01, 0.05]` gives the mean temperature 617.5 K. |
| Jump.ExampleBaseline | 4_new_full_o2/3_plot_all/3_1000k_out/05a_jump_analyze.py:40-44 | In the worked example the baseline is the first sample's height, 0. |
| Jump.ExampleWindow | 4_new_full_o2/3_plot_all/3_1000k_out/05a_jump_analyze.py:53-54 | In the worked example the window around 0.03 ps holds the samples from 0.01 to 0.05 ps. |
| Jump.ExampleTemps | 4_new_full_o2/3_plot_all/3_1000k_out/05a_jump_analyze.py:55-57 | In the worked example the window's temperatures average to 617.5 K. |
| Jump.JumpInsideBaseline | 4_new_full_o2/3_plot_all/3_1000k_out/05a_jump_analyze.py:40-50 | The jump search starts at the first sample, so a sample inside the baseline window can already be the jump. |
| RunTag.RunEnd | 4_new_full_o2/3_plot_all/3_all_out/06_collect_all_jumps.py:13 | The end of the digit run starting at a position: everything up to it is a digit and the next character, if any, is not. |
| RunTag.MatchEndIsRunEnd | 4_new_full_o2/3_plot_all/3_all_out/06_collect_all_jumps.py:13 | A match of `(\d+)[Kk]` starting at a position can only end where the digit run ends, since `\d+` is greedy and a digit is not `K`. |
| RunTag.SearchFrom | 4_new_full_o2/3_plot_all/3_all_out/06_collect_all_jumps.py:31 | The leftmost match start at or after a position: no earlier position starts a match. |
| RunTag.RunTemp | 4_new_full_o2/3_plot_all/3_all_out/06_collect_all_jumps.py:31-32 | No tag exactly when the pattern matches nowhere in the name; otherwise the integer of the digits of the leftmost match. |
| RunTag.TagAtStart | 4_new_full_o2/3_plot_all/3_all_out/06_collect_all_jumps.py:12-13 | `1200K_jump_stats.csv` is tagged 1200. |
| RunTag.TagAfterPrefix | 4_new_full_o2/3_plot_all/3_all_out/06_collect_all_jumps.py:12-13 | A lower-case `k` after a prefix is a tag: `t500k.csv` gives 500. |
| RunTag.TagSkipsBareDigits | 4_new_full_o2/3_plot_all/3_all_out/06_collect_all_jumps.py:13 | Digits not followed by `K` are passed over: `12x34K` gives 34. |
| RunTag.NoTag | 4_new_full_o2/3_plot_all/3_all_out/06_collect_all_jumps.py:31-32 | `stats.csv` has no tag. |
| Collect.StressColsDistinct | 4_new_full_o2/3_plot_all/3_all_out/06_collect_all_jumps.py:16-19 | The six stress column names are distinct. |
| Collect.TempCell | 4_new_full_o2/3_plot_all/3_all_out/06_collect_all_jumps.py:31-32 | `run_T_K` is the temperature tag of the file's base name as a number, and missing when the name has none. |
| Collect.Tag | 4_new_full_o2/3_plot_all/3_all_out/06_collect_all_jumps.py:31-33 | Tagging keeps every row and adds exactly the columns `run_T_K` and `src`. |
| Collect.TagRows | 4_new_full_o2/3_plot_all/3_all_out/06_collect_all_jumps.py:31-33 | Each tagged row is the input row with `run_T_K` and `src` set, and every other cell kept. |
| Collect.TaggedRows | 4_new_full_o2/3_plot_all/3_all_out/06_collect_all_jumps.py:31-33 | One tagged row per input row, in order. |
| Collect.Pad | 4_new_full_o2/3_plot_all/3_all_out/06_collect_all_jumps.py:36-38 | Padding keeps every row and cell and adds each missing stress column, empty in every row. The columns afterwards are the old ones plus the stress columns. |
| Collect.PadExtends | 4_new_full_o2/3_plot_all/3_all_out/06_collect_all_jumps.py:36-38 | Every padded row keeps its cells and is empty in the columns it gained. |
| Collect.Prepare | 4_new_full_o2/3_plot_all/3_all_out/06_collect_all_jumps.py:26-40 | An empty table is skipped. Any other keeps its rows and afterwards has all six stress columns. |
| Collect.PrepareRows | 4_new_full_o2/3_plot_all/3_all_out/06_collect_all_jumps.py:26-40 | A prepared table's rows are the tagged input rows, plus empty cells for the stress columns that were missing. |
| Collect.AllReadySnoc | 4_new_full_o2/3_plot_all/3_all_out/06_collect_all_jumps.py:40 | Appending a table with all six stress columns to a list of such tables keeps that property. |
| Collect.Prepared | 4_new_full_o2/3_plot_all/3_all_out/06_collect_all_jumps.py:24-40 | The list of tables is empty exactly when every input table is empty, and every table in it has all six stress columns. |
| Collect.PreparedRows | 4_new_full_o2/3_plot_all/3_all_out/06_collect_all_jumps.py:24-40 | The prepared tables hold, in order, every tagged row of every input file, extended only by empty cells. |
| Collect.Union | 4_new_full_o2/3_plot_all/3_all_out/06_collect_all_jumps.py:44 | The merged column list starts with the earlier columns, adds every new column once, and has no duplicates; its names are ordered by where they first appear in the earlier columns followed by the new ones, so the new columns keep the order in which the next table lists them. |
| Collect.Widen | 4_new_full_o2/3_plot_all/3_all_out/06_collect_all_jumps.py:44 | A row placed on the merged columns keeps its cells and is empty in the columns it lacked. |
| Collect.WidenAll | 4_new_full_o2/3_plot_all/3_all_out/06_collect_all_jumps.py:44 | Every row is placed on the merged columns, in order. |
| Collect.WidenAllExtends | 4_new_full_o2/3_plot_all/3_all_out/06_collect_all_jumps.py:44 | Widening a row only adds empty cells. |
| Collect.HasColSnoc | 4_new_full_o2/3_plot_all/3_all_out/06_collect_all_jumps.py:44 | A column is in some table of a list exactly when it is in some earlier table or in the last one. |
| Collect.UnionAfter | 4_new_full_o2/3_plot_all/3_all_out/06_collect_all_jumps.py:44 | Adding a further table's columns keeps the first-appearance order over the longer list of column names, so stacking table after table orders the union by first appearance. |
| Collect.Concat | 4_new_full_o2/3_plot_all/3_all_out/06_collect_all_jumps.py:44 | `pd.concat`: the merged table's columns are exactly those of some input table, without repeats, ordered by where each first appears in the input tables' column lists taken one after another; it has as many rows as all inputs together. |
| Collect.ConcatRows | 4_new_full_o2/3_plot_all/3_all_out/06_collect_all_jumps.py:44 | The concatenated rows are the input rows in order, each extended only by empty cells. |
| Collect.Merge | 4_new_full_o2/3_plot_all/3_all_out/06_collect_all_jumps.py:43-49 | Merging fails exactly for no tables. Otherwise it gives the concatenated rows with all six stress columns, no column twice, the key columns present first in their conventional order and then every other column in its concatenated order. |
| Collect.Keep | 4_new_full_o2/3_plot_all/3_all_out/06_collect_all_jumps.py:47-49 | The names kept by the column filter are exactly those of the list that are (or are not) among the given names, without duplicates when the list has none. |
| Collect.Reorder | 4_new_full_o2/3_plot_all/3_all_out/06_collect_all_jumps.py:46-49 | Every row and exactly the same columns are kept, with no duplicates: first the key columns that are present, in their listed order, then the others in their own order. |
| Collect.Expected | 4_new_full_o2/3_plot_all/3_all_out/06_collect_all_jumps.py:24-33 | One tagged row for every row of every input file. |
| Collect.CollectAll | 4_new_full_o2/3_plot_all/3_all_out/06_collect_all_jumps.py:24-54 | Nothing is written exactly when every input table is empty. Otherwise the merged table carries all six stress columns, no column twice, the key columns present first in their conventional order and then every other column in its concatenated order. |
| Collect.CollectAllRows | 4_new_full_o2/3_plot_all/3_all_out/06_collect_all_jumps.py:24-54 | The written table has one row per input row. The rows are, in order, every input row with `run_T_K` and `src` set, extended only by empty cells. |
| Cells.SafeNum | 6_out/006_2km_opt/virial_new/1900k/stress.py:48-55 | `_safe_num`: a token becomes a number exactly when `float()` or `int()` accepts it, and otherwise stays the very same text. |
| Cells.SafeNumIntFallbackUnused | 6_out/006_2km_opt/virial_new/1900k/stress.py:48-55 | The `int()` fallback never decides anything: a token is a number exactly when `float()` accepts it, and an integer token gets the same value either way. |
| Cells.AsFloat | 6_out/006_2km_opt/virial_new/1900k/stress.py:92-96 | `astype(float)` of a numeric cell is its value. |
| Species.HeaderOf | 6_out/006_2km_opt/virial_new/1900k/stress.py:66 | Every header column is a nonempty name without whitespace. |
| Species.DropHashes | 6_out/006_2km_opt/virial_new/1900k/stress.py:66 | `re.sub(r'^#+', ...)` removes exactly the leading run of `#`: what remains is a suffix of the line, and does not itself start with `#`. |
| Species.Zip | 6_out/006_2km_opt/virial_new/1900k/stress.py:73 | `dict(zip(cols, vals))` on a line with at least as many tokens as columns: its keys are exactly the header names, and a name repeated in the header takes the token of its last occurrence. |
| Species.SafeNums | 6_out/006_2km_opt/virial_new/1900k/stress.py:73 | Each token of a data line goes through `_safe_num`, position by position. |
| Species.ScanLine | 6_out/006_2km_opt/virial_new/1900k/stress.py:61-73 | One line adds at most one record and never drops one; only a `#` line changes the header; a new record is keyed by the header in force. |
| Species.Scan | 6_out/006_2km_opt/virial_new/1900k/stress.py:59-73 | The file gives at most one record per line. |
| Species.BlankLineIgnored | 6_out/006_2km_opt/virial_new/1900k/stress.py:62-64 | A line that is blank after stripping changes nothing. |
| Species.HeaderLineReplaces | 6_out/006_2km_opt/virial_new/1900k/stress.py:65-67 | A `#` line replaces the header with its own columns and adds no record. |
| Species.ShortLineSkipped | 6_out/006_2km_opt/virial_new/1900k/stress.py:70-72 | A data line with fewer tokens than the header changes nothing. |
| Species.NoRecordBeforeHeader | 6_out/006_2km_opt/virial_new/1900k/stress.py:68-69 | Lines before the first `#` line give no record and no header. |
| Species.RecordsKeyedByHeader | 6_out/006_2km_opt/virial_new/1900k/stress.py:59-73 | Every record of the file is keyed by exactly the header in force when it was read. |
| Species.Columns | 6_out/006_2km_opt/virial_new/1900k/stress.py:77 | `pd.DataFrame(rows)`: a column exists exactly when some record has that key. |
| Species.TimestepColumn | 6_out/006_2km_opt/virial_new/1900k/stress.py:78-82 | `Timestep` itself when present; otherwise the first column whose lower-case form is `timestep`; none exactly when no column lowers to `timestep`. |
| Species.FirstLowered | 6_out/006_2km_opt/virial_new/1900k/stress.py:79 | `next(c for c in cols if c.lower() == target)`: the first column that lowers to the target, none exactly when no column does. |
| Species.CoCo2Disjoint | 6_out/006_2km_opt/virial_new/1900k/stress.py:85-87 | No column is counted both as CO and as CO2, and every column whose lower-case name contains `co` is counted as one of them. |
| Species.FallbacksNeverFire | 6_out/006_2km_opt/virial_new/1900k/stress.py:88-89 | The fallbacks to the literal `CO` and `CO2` columns never change anything: those columns are already selected by the substring test. |
| Species.RowSum | 6_out/006_2km_opt/virial_new/1900k/stress.py:91-93 | A record's total exists whenever every selected cell it has is a number. |
| Species.RowSumSplit | 6_out/006_2km_opt/virial_new/1900k/stress.py:91-93 | The total over the CO columns followed by the CO2 columns exists exactly when both partial sums do, and is their sum: `CO_CO2_total` is the CO sum plus the CO2 sum. |
| Species.RowSumNonneg | 6_out/006_2km_opt/virial_new/1900k/stress.py:91-93 | Nonnegative counts give a nonnegative total. |
| Species.RowOf | 6_out/006_2km_opt/virial_new/1900k/stress.py:91-96 | A record yields an entry exactly when its total and its step convert to floats; the entry's total is the CO plus CO2 sum; it has a time exactly when the record has a `Timestep` cell, and that time is the step times `dt_fs·1e-3`. |
| Species.RowsOf | 6_out/006_2km_opt/virial_new/1900k/stress.py:91-96 | One entry per record, in order, each the record's own entry; a failure is caused by some record. |
| Species.Timed | 6_out/006_2km_opt/virial_new/1900k/stress.py:96-97 | Every entry with a time contributes its row to the rows that are sorted. |
| Species.TimedLast | 6_out/006_2km_opt/virial_new/1900k/stress.py:97 | A row that is last for its time among the timed rows comes from an entry that no later entry with the same time follows. |
| Species.LastUntimed | 6_out/006_2km_opt/virial_new/1900k/stress.py:96-97 | Rows without a time (NaN) sort last and collapse to one: it exists exactly when some record has no time, and it is the total of the last such record. |
| Species.Rate | 6_out/006_2km_opt/virial_new/1900k/stress.py:100-105 | One rate per row, all zero with fewer than three rows. |
| Species.SpanPositive | 6_out/006_2km_opt/virial_new/1900k/stress.py:102 | Distinct sorted times have a positive `np.ptp`, so the span test only matters through the row count. |
| Species.ByTime | 6_out/006_2km_opt/virial_new/1900k/stress.py:97 | `sort_values` then `drop_duplicates(keep='last')`: strictly ascending times, every time of the input is kept, and each kept row is the last input row with its time. |
| Species.WithRate | 6_out/006_2km_opt/virial_new/1900k/stress.py:100-110 | Adding the rate keeps every row and time and changes only the rate, which is zero when a row lacks a time or there are fewer than three rows. |
| Species.Build | 6_out/006_2km_opt/virial_new/1900k/stress.py:96-110 | The table holds, in ascending time, exactly one row per distinct time, taken from the last record with that time; the time-less rows collapse to the last one; the rate is the gradient of the total over time with three or more rows all timed, and zero otherwise. |
| Species.RatesOfRated | 6_out/006_2km_opt/virial_new/1900k/stress.py:100-105 | The rates computed are zero or the gradient as the row count and the NaN time dictate. |
| Species.ByTimeFromEntries | 6_out/006_2km_opt/virial_new/1900k/stress.py:97 | Sorting and deduplicating the timed rows gives ascending rows, each from the last entry with its time, covering every time. |
| Species.ByTimeLast | 6_out/006_2km_opt/virial_new/1900k/stress.py:97 | Every kept row comes from the last entry with its time. |
| Species.ByTimeComplete | 6_out/006_2km_opt/virial_new/1900k/stress.py:97 | Every time of some entry is kept. |
| Species.BuiltNonempty | 6_out/006_2km_opt/virial_new/1900k/stress.py:74-75 | A table built from at least one record has a row. |
| Species.FromRecords | 6_out/006_2km_opt/virial_new/1900k/stress.py:74-111 | A table is returned only when there are records and a time step column; it is then the table built from the records' entries, and never empty. |
| Species.ParseSpeciesSucceeds | 6_out/006_2km_opt/virial_new/1900k/stress.py:74-96 | `parse_species` raises exactly when no record was read, no column is a time step, or some record's total or step is not a number. |
| Species.AppendNew | 6_out/006_2km_opt/virial_new/1900k/stress.py:77 | The columns of `pd.DataFrame(rows)` grow by the new names of each record: every earlier column stays first, and a name is a column exactly when some record has it. |
| Species.Filter | 6_out/006_2km_opt/virial_new/1900k/stress.py:86-87 | The columns picked are exactly those of the list that satisfy the test. |
| Dump.Initial | 6_out/006_2km_opt/virial_new/1900k/stress.py:121-123 | Reading starts with no atom, no time, no columns, and not reading. |
| Dump.Field | 6_out/006_2km_opt/virial_new/1900k/stress.py:142 | `dict(zip(cols, toks)).get(name)`: present exactly when the name is a column that has a token, and then one of the tokens. |
| Dump.Component | 6_out/006_2km_opt/virial_new/1900k/stress.py:145-146 | A stress component is missing when its `c_MyStress[k]` column is, and otherwise is `float()` of that column's token. |
| Dump.StressOf | 6_out/006_2km_opt/virial_new/1900k/stress.py:143-148 | The six virial components are read exactly when every one of them is present and parses. |
| Dump.AtomRecord | 6_out/006_2km_opt/virial_new/1900k/stress.py:142-148 | A record is kept exactly when its six components parse and `int()` accepts its `id` field, or its first token when there is no `id` column; the id is that integer. |
| Dump.Append | 6_out/006_2km_opt/virial_new/1900k/stress.py:149 | `atom.setdefault(aid, []).append(...)`: the atom's series gains the sample at its end, every other atom's series is unchanged, and a new atom joins the first-seen order. |
| Dump.Classify | 6_out/006_2km_opt/virial_new/1900k/stress.py:128-139 | A line is a data line exactly when its stripped form does not start with `ITEM:`, and its tokens are that form split on whitespace. |
| Dump.ReadLines | 6_out/006_2km_opt/virial_new/1900k/stress.py:124-128 | Each line is classified, and its integer reading kept for the line after `ITEM: TIMESTEP`. |
| Dump.Run | 6_out/006_2km_opt/virial_new/1900k/stress.py:124-149 | Reading the lines only ever adds atoms and keeps the atom table well formed. |
| Dump.Consume | 6_out/006_2km_opt/virial_new/1900k/stress.py:138-149 | A data line leaves the time, the columns and the reading flag alone; when atoms are being read, the line is not blank, the record parses and the frame time is known, its sample, stamped with the frame time, is appended to its atom's series and every other series is unchanged; any other data line changes nothing. |
| Dump.ParseDump | 6_out/006_2km_opt/virial_new/1900k/stress.py:114-156 | `parse_ablate_dump` fails exactly when reading the lines fails; each atom's series is then sorted by time and is a permutation of the samples read for it, and the atoms are those read. |
| Dump.IgnoredWhileNotReading | 6_out/006_2km_opt/virial_new/1900k/stress.py:138 | Data lines read while not in an `ITEM: ATOMS` block change nothing. |
| Dump.OtherItemStopsReading | 6_out/006_2km_opt/virial_new/1900k/stress.py:129-137 | Any other `ITEM:` line turns reading off, so the data lines after it are skipped. |
| Dump.MissingStressSkipped | 6_out/006_2km_opt/virial_new/1900k/stress.py:143-148 | A record missing any `c_MyStress[k]` column is skipped. |
| Dump.TimestepSetsTime | 6_out/006_2km_opt/virial_new/1900k/stress.py:131-133 | `ITEM: TIMESTEP` reads the next line as the step and sets the time to step·`dt_fs`·1e-3; a step line `int()` rejects raises. |
| Dump.AtomsItemStartsReading | 6_out/006_2km_opt/virial_new/1900k/stress.py:134-137 | `ITEM: ATOMS` fixes the column names from the rest of its line and starts the reading of atom lines. |
| Dump.AtomLineRecorded | 6_out/006_2km_opt/virial_new/1900k/stress.py:138-149 | An atom line read while atoms are being read, with a known frame time and a record that parses, is recorded: its sample is appended to its atom's series before the rest is read. |
| Dump.DataLineStep | 6_out/006_2km_opt/virial_new/1900k/stress.py:138-149 | A line that is not an `ITEM:` line is consumed as an atom line, then the rest is read. |
| Escape.LastTime | 6_out/006_2km_opt/virial_new/1900k/stress.py:182 | `df['time_ps'].max()`: the time of some sample, and no sample is later. |
| Escape.Between | 6_out/006_2km_opt/virial_new/1900k/stress.py:183 | The samples kept are exactly those with time in the closed interval. |
| Escape.Window | 6_out/006_2km_opt/virial_new/1900k/stress.py:183-185 | The averaging window is never empty and holds only samples of the atom. |
| Escape.WindowIsBetween | 6_out/006_2km_opt/virial_new/1900k/stress.py:183-185 | With a nonnegative Δ the window is exactly the closed interval around the escape time: the fallback to the last row never fires. |
| Escape.EscapeSampleInWindow | 6_out/006_2km_opt/virial_new/1900k/stress.py:182-184 | With a nonnegative Δ the closed interval contains the escape sample. |
| Escape.WindowHoldsEscapeSample | 6_out/006_2km_opt/virial_new/1900k/stress.py:182-185 | Every sample at the escape time is in the window, and the window lies within Δ before the escape time. |
| Escape.MeanWithinWindow | 6_out/006_2km_opt/virial_new/1900k/stress.py:188-189 | Each window mean lies between the smallest and largest value of its component in the window. |
| Escape.Component | 6_out/006_2km_opt/virial_new/1900k/stress.py:188-189 | The column of one virial component holds that component of every window sample, in order. |
| Escape.MeanTensor | 6_out/006_2km_opt/virial_new/1900k/stress.py:188-189 | Each component of the averaged tensor is the mean of that virial component over the window. |
| Escape.Metrics | 6_out/006_2km_opt/virial_new/1900k/stress.py:182-211 | One atom: the escape time is its latest sample time; `n_frames_used` is at least 1, and with Δ ≥ 0 it counts exactly the samples within Δ of that time; each averaged component is the mean of that component over the window, and so lies in its range there; `vm_virial_kcalmol` is the von Mises value of the mean virial tensor, and `sigma_vm_gpa` that of the mean converted to stress by −K/V; both are nonnegative, the virial one is zero exactly for an isotropic mean, and the stress one squared is the virial one squared times (K/V)². |
| Escape.EscapeMetrics | 6_out/006_2km_opt/virial_new/1900k/stress.py:165-212 | One row per atom in first-read order, each the metrics of that atom's own series: its latest time, at least one frame used, and the window means and von Mises values stated for `Escape.Metrics`. |
| TimeBins.Ceil | 6_out/006_2km_opt/virial_new/1900k/stress.py:225 | The least integer not below x, which is what fixes the number of points `np.arange` yields. |
| TimeBins.ArangeBounds | 6_out/006_2km_opt/virial_new/1900k/stress.py:225 | Every point `np.arange` yields lies below the stop, and the next point would not. |
| TimeBins.Arange | 6_out/006_2km_opt/virial_new/1900k/stress.py:225 | `np.arange(start, stop, step)`: fails on a zero step; otherwise the k-th point is start + k·step, and with a positive step every point lies below the stop. |
| TimeBins.StepsAscending | 6_out/006_2km_opt/virial_new/1900k/stress.py:225 | Points that are a positive step apart ascend strictly. |
| TimeBins.NegativeStepShort | 6_out/006_2km_opt/virial_new/1900k/stress.py:225-227 | A negative width yields fewer than two points from `np.arange`, so the fallback edges `[tmin, tmax]` are used. |
| TimeBins.Edges | 6_out/006_2km_opt/virial_new/1900k/stress.py:225-227 | The bin edges fail only on a zero width. They start at tmin and strictly ascend. A negative width, or fewer than two points, gives `[tmin, tmax]`. Otherwise they are the arange points tmin + k·width, all below tmax + width/2. |
| TimeBins.LatestTimeMayBeUnbinned | 6_out/006_2km_opt/virial_new/1900k/stress.py:225-227 | With span 0..3 and width 2 the last edge is 2, so the latest times fall outside every bin. |
| TimeBins.InBin | 6_out/006_2km_opt/virial_new/1900k/stress.py:230-250 | `pd.cut(..., right=False)` with one bin selected: the rows whose time lies in `[lo, hi)`. |
| TimeBins.EmptyBin | 6_out/006_2km_opt/virial_new/1900k/stress.py:231 | A bin whose right edge is not above its left edge holds nothing. |
| TimeBins.SplitBin | 6_out/006_2km_opt/virial_new/1900k/stress.py:231 | Splitting a bin at an inner point splits its count between the two halves. |
| TimeBins.SomeBin | 6_out/006_2km_opt/virial_new/1900k/stress.py:231 | A time falls in some bin exactly when it lies in `[first edge, last edge)`. |
| TimeBins.OneBin | 6_out/006_2km_opt/virial_new/1900k/stress.py:231 | With strictly ascending edges a time falls in at most one bin. |
| TimeBins.MeanOf | 6_out/006_2km_opt/virial_new/1900k/stress.py:232-250 | A pandas group mean is missing (NaN) exactly for an empty group. |
| TimeBins.MeanOfWithin | 6_out/006_2km_opt/virial_new/1900k/stress.py:232-250 | A group mean lies within any bounds that hold for its values. |
| TimeBins.BinOf | 6_out/006_2km_opt/virial_new/1900k/stress.py:230-259 | One merged row: its interval, its centre within it, its counts of escapes and of rate samples in `[start, end)`, and the three means over those rows. |
| TimeBins.BinRows | 6_out/006_2km_opt/virial_new/1900k/stress.py:230-259 | One row per consecutive pair of edges, with `observed=False` keeping the empty bins. |
| TimeBins.EscapesCountedOnce | 6_out/006_2km_opt/virial_new/1900k/stress.py:230-233 | Summed over all bins, the escape counts equal the number of escapes between the first and the last edge: each is counted once. |
| TimeBins.KeepRows | 6_out/006_2km_opt/virial_new/1900k/stress.py:261-262 | The rows kept are exactly those with at least `min_escapes` escapes and some rate sample, and an ascending centre order survives the filter. |
| TimeBins.CentresAscending | 6_out/006_2km_opt/virial_new/1900k/stress.py:255-259 | With strictly ascending edges the bin centres ascend strictly. |
| TimeBins.Crop | 6_out/006_2km_opt/virial_new/1900k/stress.py:266-269 | The optional crop keeps exactly the rows whose centre lies within the bounds given. |
| TimeBins.CropUnbounded | 6_out/006_2km_opt/virial_new/1900k/stress.py:266-269 | With both bounds unset, which is their value in the script, the crop changes nothing. |
| TimeBins.AllTimes | 6_out/006_2km_opt/virial_new/1900k/stress.py:218-221 | The time span is taken over every escape time and every rate time. |
| TimeBins.BinTable | 6_out/006_2km_opt/virial_new/1900k/stress.py:230-263 | The rows are exactly the kept bins of the edges, in strictly ascending centre order. Each row lies within the edges and its counts are those of its interval. |
| TimeBins.BinRowsMembers | 6_out/006_2km_opt/virial_new/1900k/stress.py:230-259 | A row belongs to the merged table exactly when it is the row of some consecutive pair of edges. |
| TimeBins.KeptInOrder | 6_out/006_2km_opt/virial_new/1900k/stress.py:262-263 | `sort_values('t_center_ps')` leaves the filtered rows as they are, because their centres already ascend. |
| TimeBins.RowsWithinEdges | 6_out/006_2km_opt/virial_new/1900k/stress.py:230-259 | Every merged row lies within the edges and counts the escapes and rate samples of its own interval. |
| TimeBins.SameMembers | 6_out/006_2km_opt/virial_new/1900k/stress.py:262-263 | A permutation has the same members. |
| TimeBins.Aggregate | 6_out/006_2km_opt/virial_new/1900k/stress.py:215-270 | `time_bin_aggregate` gives an empty table when the span is not positive. With a positive span it fails exactly on a zero width or an empty input, which has no time column. Otherwise its rows are exactly the kept bins over the span's edges, in ascending centre order, each counting the escapes and rate samples of its own interval. |
| EscapeMap.Source | 4_new_full_o2/3_plot_all/3_all_out/10_prepare_escape_map.py:23-29 | The column `add_sigma_signed` copies: the target column itself when present, else `sigma_dev_GPa`, else `sigma_vm_GPa`; there is none exactly when none of the three is present, and the one chosen is always a column of the table. |
| EscapeMap.StressOf | 4_new_full_o2/3_plot_all/3_all_out/10_prepare_escape_map.py:31-35 | The six components are read only when every one of them is present in the row; the `zz` component is the row's `v_s_zz_gpa`. |
| EscapeMap.SignedCell | 4_new_full_o2/3_plot_all/3_all_out/10_prepare_escape_map.py:36-38 | The computed signed stress of a row has the von Mises magnitude of its six components and the sign of `zz`; it is zero when `zz` is zero and missing when any component is missing. |
| EscapeMap.AddSigma | 4_new_full_o2/3_plot_all/3_all_out/10_prepare_escape_map.py:23-40 | `KeyError` exactly when the table has neither a column to copy nor all six components; otherwise one value per row, copied from the chosen column or computed from that row's components. |
| EscapeMap.Positives | 4_new_full_o2/3_plot_all/3_all_out/10_prepare_escape_map.py:44-48 | Every jump row becomes a positive sample, in order: `escape` is 1 and the id, `T_K`, `run_T_K` and signed stress are that row's. |
| EscapeMap.JumpTimes | 4_new_full_o2/3_plot_all/3_all_out/10_prepare_escape_map.py:52 | Every id of the jump table is a key, and every key maps to the `t_jump_ps` of the last row with that id (a later duplicate overwrites an earlier one). |
| EscapeMap.Picks | 4_new_full_o2/3_plot_all/3_all_out/10_prepare_escape_map.py:81 | A window of `n` rows gives exactly ten positions, position `i` being `floor(i·(n−1)/9)`. |
| EscapeMap.PicksSpan | 4_new_full_o2/3_plot_all/3_all_out/10_prepare_escape_map.py:81 | The ten positions start at the first row and end at the last, stay inside the window, never go back, and are all different once the window has ten rows or more. |
| EscapeMap.PicksOfThree | 4_new_full_o2/3_plot_all/3_all_out/10_prepare_escape_map.py:81 | A window of three rows repeats its rows: positions 0,0,0,0,0,1,1,1,1,2. |
| EscapeMap.WindowRows | 4_new_full_o2/3_plot_all/3_all_out/10_prepare_escape_map.py:75-77 | The window of an atom holds exactly the rows of that atom whose time lies in the half-open interval `[t_jump − 3, t_jump)`. |
| EscapeMap.IdNegatives | 4_new_full_o2/3_plot_all/3_all_out/10_prepare_escape_map.py:76-83 | An atom gives no negatives exactly when no row of its own lies in its window, and otherwise exactly ten, the first taken from the window's first row and the last from its last row. |
| EscapeMap.IdNegativesDrawn | 4_new_full_o2/3_plot_all/3_all_out/10_prepare_escape_map.py:77-82 | Every negative of an atom comes from a row of that atom inside its window, with the file's `run_T_K`. |
| EscapeMap.IdNegativesHit | 4_new_full_o2/3_plot_all/3_all_out/10_prepare_escape_map.py:77-79 | A row inside its own atom's window is enough for that atom to give negatives, the first one carrying that atom's id. |
| EscapeMap.GroupedIsMultiple | 4_new_full_o2/3_plot_all/3_all_out/10_prepare_escape_map.py:81-83 | A count of whole groups of ten is exactly a multiple of ten. |
| EscapeMap.Groups | 4_new_full_o2/3_plot_all/3_all_out/10_prepare_escape_map.py:75-83 | One frame of negatives per atom, in the order of the atoms. |
| EscapeMap.GroupsDrawn | 4_new_full_o2/3_plot_all/3_all_out/10_prepare_escape_map.py:75-83 | Every frame holds whole groups of ten, and each of its samples is drawn from the window of the frame's own atom. |
| EscapeMap.FlattenMembers | 4_new_full_o2/3_plot_all/3_all_out/10_prepare_escape_map.py:85 | The concatenation of the frames holds exactly the samples of the frames. |
| EscapeMap.FlattenCount | 4_new_full_o2/3_plot_all/3_all_out/10_prepare_escape_map.py:85 | Frames of whole groups of ten concatenate to whole groups of ten. |
| EscapeMap.FlattenOrdered | 4_new_full_o2/3_plot_all/3_all_out/10_prepare_escape_map.py:75-85 | Frames of single atoms, the atoms strictly ascending, concatenate to samples whose ids never decrease. |
| EscapeMap.RunTOf | 4_new_full_o2/3_plot_all/3_all_out/10_prepare_escape_map.py:65-66 | A file name has a `run_T_K` exactly when the `(\d+)[Kk]` tag occurs in it. |
| EscapeMap.Pool | 4_new_full_o2/3_plot_all/3_all_out/10_prepare_escape_map.py:61-70 | The rows kept from a time series are exactly those whose `T` is within `[500, 3000]` and whose id the jump table knows, each with its signed stress. |
| EscapeMap.PoolAtoms | 4_new_full_o2/3_plot_all/3_all_out/10_prepare_escape_map.py:70-75 | The groups of the filtered rows: strictly ascending ids, each known to the jump table, covering every kept row. |
| EscapeMap.PoolNegativesSound | 4_new_full_o2/3_plot_all/3_all_out/10_prepare_escape_map.py:55-83 | Every negative of one file comes from one of its candidate rows (temperature in range, known atom, time in that atom's window); they come in whole groups of ten, with known ids that never decrease. |
| EscapeMap.PoolNegativesComplete | 4_new_full_o2/3_plot_all/3_all_out/10_prepare_escape_map.py:62-83 | Every candidate row of a file puts its atom among the negatives of that file. |
| EscapeMap.TableNegatives | 4_new_full_o2/3_plot_all/3_all_out/10_prepare_escape_map.py:56-83 | One time series: an empty table gives nothing; `KeyError` exactly when a nonempty table cannot have its signed stress built; otherwise negatives exist exactly when some row is a candidate, each comes from a candidate row, every candidate's atom is among them, and they come in whole groups of ten with ascending ids. |
| EscapeMap.AnyStep | 4_new_full_o2/3_plot_all/3_all_out/10_prepare_escape_map.py:56-83 | Over the files read in order, some file is broken (or has a candidate) exactly when an earlier one is or the next one is. |
| EscapeMap.AllNegatives | 4_new_full_o2/3_plot_all/3_all_out/10_prepare_escape_map.py:55-85 | Over all time series files: the first broken file stops the script, which happens exactly when some file is broken; otherwise the negatives are whole groups of ten of known atoms, there are some exactly when some file has a candidate row, each is drawn from a candidate row of some file, and every candidate row of every file has its atom among them. |
| EscapeMap.GatheredStep | 4_new_full_o2/3_plot_all/3_all_out/10_prepare_escape_map.py:55-85 | Appending the negatives of the next file keeps every gathered negative drawn from a candidate row of a file read so far, and every candidate atom of those files drawn. |
| EscapeMap.DrawnAppend | 4_new_full_o2/3_plot_all/3_all_out/10_prepare_escape_map.py:85 | Concatenating negatives keeps every atom already drawn. |
| EscapeMap.Assemble | 4_new_full_o2/3_plot_all/3_all_out/10_prepare_escape_map.py:85-92 | In the concatenation, the first rows are the positives with their jump row's fields, their signed stress and `escape` 1, and the rest are negatives of known atoms with `escape` 0, in whole groups of ten. |
| EscapeMap.TrainingSet | 4_new_full_o2/3_plot_all/3_all_out/10_prepare_escape_map.py:43-93 | The whole script: it fails exactly when the jump table's signed stress cannot be built, its header lacks one of `id`, `t_jump_ps`, `avg_T_K`, `run_T_K`, some nonempty time series' cannot, or no time series has a candidate row (`pd.concat` of nothing); otherwise every jump row in order as a positive, carrying the signed stress `add_sigma_signed` built for that row, followed by at least one whole group of ten negatives, each with `escape` 0, drawn from a candidate row of some time series, with every candidate atom of every time series among them. |
| EscapeMap.JumpTimesStep | 4_new_full_o2/3_plot_all/3_all_out/10_prepare_escape_map.py:52 | Recording the last row of the jump table keeps every id a key and every key at the time of its last row. |
| EscapeMap.Draw | 4_new_full_o2/3_plot_all/3_all_out/10_prepare_escape_map.py:81-82 | One negative per picked position, each the sample of the window row at that position. |
| EscapeMap.DrawnIsNegative | 4_new_full_o2/3_plot_all/3_all_out/10_prepare_escape_map.py:75-83 | A sample drawn from an atom's window in the pool is a negative of that time series. |
| Tensor.Sign | 4_new_full_o2/3_plot_all/3_all_out/10_prepare_escape_map.py:38 | `np.sign`: -1, 0 or 1, zero exactly at zero, and sign·x is never negative. |
| Tensor.NormalSpread | 6_out/006_2km_opt/virial_new/1900k/stress.py:160 | The sum of squared differences of the normal components is nonnegative, and zero exactly when all three are equal. |
| Tensor.ShearSquares | 6_out/006_2km_opt/virial_new/1900k/stress.py:161 | The sum of squared shear components is nonnegative, and zero exactly when every shear is zero. |
| Tensor.SumSquares | 4_new_full_o2/3_plot_all/3_all_out/10_prepare_escape_map.py:36-37 | A sum of three squares is never negative, and is positive exactly when some term is nonzero. |
| Tensor.SquaresSign | 4_new_full_o2/3_plot_all/3_all_out/10_prepare_escape_map.py:36-37 | A sum of three squares is never negative, and is positive exactly when some term is nonzero. |
| Tensor.SquaresNonneg | 6_out/006_2km_opt/virial_new/1900k/stress.py:160-162 | A sum of three squares is never negative. |
| Tensor.SquaresPositiveOnlyIf | 6_out/006_2km_opt/virial_new/1900k/stress.py:160-162 | A positive sum of three squares has a nonzero term. |
| Tensor.SquaresPositiveIf | 6_out/006_2km_opt/virial_new/1900k/stress.py:160-162 | A nonzero term makes a sum of three squares positive. |
| Tensor.SquareSign | 6_out/006_2km_opt/virial_new/1900k/stress.py:160-162 | A square is never negative, and is positive exactly for a nonzero number. |
| Tensor.VonMises | 6_out/006_2km_opt/virial_new/1900k/stress.py:159-162 | `von_mises` is a nonnegative root, so the clamp at zero never fires, and it is zero exactly for an isotropic tensor: equal normals and no shear. |
| Tensor.VonMisesSquare | 6_out/006_2km_opt/virial_new/1900k/stress.py:159-162 | The square of the von Mises value is half the normal spread plus three times the shear squares. |
| Tensor.Hydrostatic | 4_new_full_o2/3_plot_all/3_500k_out/08_prepare_stress.py:29 | `P_hydro_GPa` equals the common value of equal normals, and lies between the smallest and the largest normal. |
| Tensor.SigmaDev | 4_new_full_o2/3_plot_all/3_500k_out/08_prepare_stress.py:30 | `sigma_dev_GPa` is a nonnegative root whose square is a quarter of the normal spread, zero exactly when the normals are equal. |
| Tensor.SigmaVmFromDev | 4_new_full_o2/3_plot_all/3_500k_out/08_prepare_stress.py:36 | `sigma_vm_GPa` is the nonnegative root of `sigma_dev_GPa`² + 3·(xy² + yz² + xz²), so it is no smaller than `sigma_dev_GPa`, and equal to it exactly when there is no shear. |
| Tensor.SignedEquivalent | 4_new_full_o2/3_plot_all/3_all_out/10_prepare_escape_map.py:36-38 | The signed equivalent stress has the von Mises magnitude, the sign of the zz component, and is zero when that component is. |
| Tensor.VirialToStress | 6_out/006_2km_opt/virial_new/1900k/stress.py:194-201 | Each stress component is the virial component times -K/V. |
| Tensor.VonMisesScale | 6_out/006_2km_opt/virial_new/1900k/stress.py:159-162 | Scaling every component by c scales the squared von Mises value by c². |
| Tensor.SpreadScale | 6_out/006_2km_opt/virial_new/1900k/stress.py:160 | Scaling the normals by c scales their spread by c². |
| Tensor.ShearScale | 6_out/006_2km_opt/virial_new/1900k/stress.py:161 | Scaling the shears by c scales their squares by c². |
| Tensor.StressVonMises | 6_out/006_2km_opt/virial_new/1900k/stress.py:191-203 | The stress von Mises value squared is the virial one squared times (K/V)², so `sigma_vm_gpa` is `vm_virial_kcalmol`·\|K/V\|. |
| Tensor.SigmaVmBelowVonMises | 4_new_full_o2/3_plot_all/3_500k_out/08_prepare_stress.py:30-36 | The `sigma_vm_GPa` of the stress preparation never exceeds the von Mises value of the same tensor, and equals it only for equal normals. |
| Tensor.UniaxialExample | 4_new_full_o2/3_plot_all/3_500k_out/08_prepare_stress.py:30-36 | Under uniaxial stress s the von Mises value is s, while `sigma_dev_GPa` squared is s²/2, so it is not s. |
| Tensor.SigmaDevUniaxial | 4_new_full_o2/3_plot_all/3_500k_out/08_prepare_stress.py:30 | Under uniaxial stress s, `sigma_dev_GPa` squared is s²/2. |
| PrepareStress.NormalCells | 4_new_full_o2/3_plot_all/3_500k_out/08_prepare_stress.py:27-30 | Where any normal cell is missing, both new cells are missing. Otherwise `P_hydro_GPa` is a third of the normals' sum, and `sigma_dev_GPa` is a root whose square is a quarter of their spread. |
| PrepareStress.VmCell | 4_new_full_o2/3_plot_all/3_500k_out/08_prepare_stress.py:35-36 | Where any of the six cells is missing, `sigma_vm_GPa` is missing. Otherwise it is the root of `sigma_dev_GPa`² + 3·(xy² + yz² + xz²) from the same row's cells: no smaller than `sigma_dev_GPa`, and equal to it exactly when there is no shear. |
| PrepareStress.Floats | 4_new_full_o2/3_plot_all/3_500k_out/08_prepare_stress.py:27-35 | `astype(float)` succeeds exactly when every cell of the column converts, and then gives each row's value. |
| PrepareStress.WithNormals | 4_new_full_o2/3_plot_all/3_500k_out/08_prepare_stress.py:29-30 | Adds exactly the two columns, keeps every other cell, and fills each row from its normals. |
| PrepareStress.WithVm | 4_new_full_o2/3_plot_all/3_500k_out/08_prepare_stress.py:36 | Adds exactly `sigma_vm_GPa`, keeps every other cell, and fills each row from its six components. |
| PrepareStress.AddNormals | 4_new_full_o2/3_plot_all/3_500k_out/08_prepare_stress.py:27-30 | Succeeds exactly when the three normal columns convert. It then adds the two columns and keeps every other cell of every row. |
| PrepareStress.AddVm | 4_new_full_o2/3_plot_all/3_500k_out/08_prepare_stress.py:33-36 | Succeeds exactly when the three shear columns convert. It then adds `sigma_vm_GPa` and keeps every other cell. |
| PrepareStress.Prepare | 4_new_full_o2/3_plot_all/3_500k_out/08_prepare_stress.py:21-38 | The script succeeds exactly when the normal columns exist and convert, and, if every shear column exists, the shear columns convert. It keeps the rows and every cell it does not overwrite. |
| PrepareStress.PrepareColumns | 4_new_full_o2/3_plot_all/3_500k_out/08_prepare_stress.py:29-36 | The output has the two normal-derived columns. It has `sigma_vm_GPa` exactly when the input had it or every shear column exists, and no other new column. |
| PrepareStress.KeepsThrough | 4_new_full_o2/3_plot_all/3_500k_out/08_prepare_stress.py:29-36 | Cells kept by both steps are kept by the whole script. |
| PrepareStress.PrepareVmCells | 4_new_full_o2/3_plot_all/3_500k_out/08_prepare_stress.py:33-36 | With every shear column present, each row's `sigma_vm_GPa` is computed from that row's six components. |
| PrepareStress.PrepareNormalCells | 4_new_full_o2/3_plot_all/3_500k_out/08_prepare_stress.py:27-30 | Each row's two normal-derived cells are computed from that row's normals. |
| Detach.CheckFrame | 4_new_full_o2/3_plot_all/3_1000k_out/find_out_c.py:39-40 | The frame index is accepted exactly when it lies in `0..num_frames-1`. |
| Detach.HeightsWhere | 4_new_full_o2/3_plot_all/3_1000k_out/find_out_c.py:50-59 | The reference heights are exactly the z of the chosen atoms: ids up to 1500 for the fixed layer, otherwise the carbon atoms. |
| Detach.Reference | 4_new_full_o2/3_plot_all/3_1000k_out/find_out_c.py:49-60 | Fails exactly when no atom is chosen. With the fixed layer it gives the 95th percentile and the median of the chosen heights. Otherwise it gives the robust top surface of the carbon heights. Either way `z_top` lies between two chosen heights. |
| Detach.OptNames | 4_new_full_o2/3_plot_all/3_1000k_out/find_out_c.py:70 | The optional columns written are exactly those of the extra-column list present in the frame, without repeats. |
| Detach.PresentCols | 4_new_full_o2/3_plot_all/3_1000k_out/find_out_c.py:70 | Filtering a list without repeats keeps exactly the names present, without repeats. |
| Detach.DetachedIndices | 4_new_full_o2/3_plot_all/3_1000k_out/find_out_c.py:63-67 | The indices of exactly the carbon atoms whose height above `z_top` exceeds 25 Å, in ascending order. |
| Detach.RowAt | 4_new_full_o2/3_plot_all/3_1000k_out/find_out_c.py:75-79 | A row holds the atom's id, position, height above `z_top` and its optional columns in order. |
| Detach.DetachedRows | 4_new_full_o2/3_plot_all/3_1000k_out/find_out_c.py:72-80 | One row per detached atom, in particle order, each more than 25 Å above `z_top`. |
| Detach.Header | 4_new_full_o2/3_plot_all/3_1000k_out/find_out_c.py:84 | The header is `id,x,y,z,d_above(Å)` followed by the optional column names. |
| Detach.FindDetached | 4_new_full_o2/3_plot_all/3_1000k_out/find_out_c.py:37-91 | `main` succeeds exactly when the frame index is in range and a reference atom exists. The table then carries the reference heights, the header and the detached rows. |
| Detach.TableRows | 4_new_full_o2/3_plot_all/3_1000k_out/find_out_c.py:72-91 | Every row is more than 25 Å above `z_top` and has one cell per header column. Every detached carbon atom has its row. |
| Surface.PartBounds | 4_new_full_o2/3_plot_all/3_1000k_out/find_out_c.py:32-34 | An interpolation fraction of a width stays within the width. |
| Surface.LerpBounds | 4_new_full_o2/3_plot_all/3_1000k_out/find_out_c.py:32-34 | Linear interpolation stays between its end points. |
| Surface.VirtualIndexBounds | 4_new_full_o2/3_plot_all/3_1000k_out/find_out_c.py:32-34 | The percentile's virtual index stays within the sample. |
| Surface.SortedWithin | 4_new_full_o2/3_plot_all/3_1000k_out/find_out_c.py:32-34 | Every element of a sorted copy lies between the sample's minimum and maximum. |
| Surface.VirtualIndex | 4_new_full_o2/3_plot_all/3_1000k_out/find_out_c.py:32-34 | `np.percentile`'s linear virtual index (n-1)·q/100 lies in `[0, n-1]`. |
| Surface.FloorBounds | 4_new_full_o2/3_plot_all/3_1000k_out/find_out_c.py:32-34 | The floor of the virtual index is an index of the sample. |
| Surface.Interpolate | 4_new_full_o2/3_plot_all/3_1000k_out/find_out_c.py:32-34 | Interpolating in the sorted sample stays between its minimum and maximum. |
| Surface.Percentile | 4_new_full_o2/3_plot_all/3_1000k_out/find_out_c.py:32-34 | `np.percentile` of a nonempty sample lies between its minimum and maximum. |
| Surface.SortedEnds | 4_new_full_o2/3_plot_all/3_1000k_out/find_out_c.py:32-34 | The sorted sample starts at its minimum and ends at its maximum. |
| Surface.SortedCopyEnds | 4_new_full_o2/3_plot_all/3_1000k_out/find_out_c.py:32-34 | Any ascending permutation starts at the minimum and ends at the maximum. |
| Surface.PercentileEnds | 4_new_full_o2/3_plot_all/3_1000k_out/find_out_c.py:32-34 | The 0th percentile is the minimum and the 100th is the maximum. |
| Surface.HistRange | 4_new_full_o2/3_plot_all/3_1000k_out/find_out_c.py:27 | `np.histogram`'s range is a nonempty interval holding every sample. |
| Surface.EdgeWithin | 4_new_full_o2/3_plot_all/3_1000k_out/find_out_c.py:27-29 | Each histogram edge lies within the range. |
| Surface.PartOf | 4_new_full_o2/3_plot_all/3_1000k_out/find_out_c.py:27-29 | A fraction k/120 of a width stays within the width. |
| Surface.BinOf | 4_new_full_o2/3_plot_all/3_1000k_out/find_out_c.py:27 | Every sample in the range falls in one of the 120 bins. |
| Surface.Count | 4_new_full_o2/3_plot_all/3_1000k_out/find_out_c.py:27 | A bin never counts more samples than there are. |
| Surface.ModeBin | 4_new_full_o2/3_plot_all/3_1000k_out/find_out_c.py:28 | `np.argmax`: the bin with the largest count, and the first one among ties. |
| Surface.Mode | 4_new_full_o2/3_plot_all/3_1000k_out/find_out_c.py:27-29 | `z_mode` is the centre of the fullest bin, within the histogram's range. |
| Surface.Core | 4_new_full_o2/3_plot_all/3_1000k_out/find_out_c.py:30 | The core is exactly the samples within `core_width` of `z_mode`. |
| Surface.MinOfSubset | 4_new_full_o2/3_plot_all/3_1000k_out/find_out_c.py:30-34 | A subsample's extremes lie within the sample's. |
| Surface.TopSurface | 4_new_full_o2/3_plot_all/3_1000k_out/find_out_c.py:26-35 | Fails exactly on an empty sample. `z_top` lies within the sample; `z_mode` is the histogram mode. `z_top` is the 75th percentile of the whole sample when the core has fewer than 10 points, and otherwise the 95th percentile of the core. |
| IsoContour.Flatten | 4_new_full_o2/3_plot_all/3_all_out/12_denggaoxian.py:37 | `ravel()` keeps exactly the values of the grid. |
| IsoContour.SortDescending | 4_new_full_o2/3_plot_all/3_all_out/12_denggaoxian.py:38-39 | `pdf_sort` is a permutation of the density values, ordered from largest to smallest, and stays nonnegative. |
| IsoContour.Cumulative | 4_new_full_o2/3_plot_all/3_all_out/12_denggaoxian.py:41 | Each cumulative entry is the sum of the sorted densities up to it, times the cell area. |
| IsoContour.CumulativeAscending | 4_new_full_o2/3_plot_all/3_all_out/12_denggaoxian.py:41 | With nonnegative densities the cumulative array ascends, which `searchsorted` needs. |
| IsoContour.SearchLeft | 4_new_full_o2/3_plot_all/3_all_out/12_denggaoxian.py:43 | `np.searchsorted`: every entry before the index is below p and every entry from it on is at least p. |
| IsoContour.SearchLeftPastEnd | 4_new_full_o2/3_plot_all/3_all_out/12_denggaoxian.py:43-44 | `searchsorted` runs off the end of the cumulative mass exactly when there is no cell or the whole mass stays below the level. |
| IsoContour.SearchLeftReaches | 4_new_full_o2/3_plot_all/3_all_out/12_denggaoxian.py:43 | The index `searchsorted` finds is the first position whose cumulative mass reaches the level. |
| IsoContour.SearchLeftMonotone | 4_new_full_o2/3_plot_all/3_all_out/12_denggaoxian.py:43 | A larger probability never gives an earlier index. |
| IsoContour.Threshold | 4_new_full_o2/3_plot_all/3_all_out/12_denggaoxian.py:43-44 | Looking up a level fails (the index runs past the end) exactly when the total mass is below it. Otherwise the threshold is the sorted density at the first position whose cumulative mass reaches the level: every earlier position has less. |
| IsoContour.MassAboveAppend | 4_new_full_o2/3_plot_all/3_all_out/12_denggaoxian.py:41-44 | The mass of values at or above a threshold adds over concatenation. |
| IsoContour.MassAboveNonneg | 4_new_full_o2/3_plot_all/3_all_out/12_denggaoxian.py:41-44 | That mass is never negative for nonnegative densities. |
| IsoContour.MassAboveAll | 4_new_full_o2/3_plot_all/3_all_out/12_denggaoxian.py:41-44 | When every value reaches the threshold, the mass is the whole sum. |
| IsoContour.MassAbovePermutation | 4_new_full_o2/3_plot_all/3_all_out/12_denggaoxian.py:38-44 | Reordering the densities does not change the mass above a threshold. |
| IsoContour.ThresholdEnclosesLevel | 4_new_full_o2/3_plot_all/3_all_out/12_denggaoxian.py:37-44 | The cells whose density reaches the threshold for p hold at least p of the probability: the contour encloses its level. |
| IsoContour.EnclosesLevel | 4_new_full_o2/3_plot_all/3_all_out/12_denggaoxian.py:37-44 | The same for any descending permutation of the densities. |
| IsoContour.ThresholdIndex | 4_new_full_o2/3_plot_all/3_all_out/12_denggaoxian.py:43 | A found threshold is the sorted density at the first index whose cumulative mass reaches the level. |
| IsoContour.EnclosesAt | 4_new_full_o2/3_plot_all/3_all_out/12_denggaoxian.py:37-44 | Every density at or above the k-th sorted one is counted, so the mass there reaches the k-th cumulative value. |
| IsoContour.MassAbovePrefix | 4_new_full_o2/3_plot_all/3_all_out/12_denggaoxian.py:41-44 | The mass at or above the k-th sorted density is at least the sum of the first k+1. |
| IsoContour.ThresholdMonotone | 4_new_full_o2/3_plot_all/3_all_out/12_denggaoxian.py:43-47 | A higher probability level never gets a higher density threshold. |
| IsoContour.InsertPair | 4_new_full_o2/3_plot_all/3_all_out/12_denggaoxian.py:47 | Inserting into a sorted list of pairs keeps it sorted and adds exactly that pair. |
| IsoContour.SortPairs | 4_new_full_o2/3_plot_all/3_all_out/12_denggaoxian.py:47 | `sorted(zip(thr_raw, LEVELS_CDF))` is a permutation ordered by threshold, then by level. |
| IsoContour.Thresholds | 4_new_full_o2/3_plot_all/3_all_out/12_denggaoxian.py:43-44 | The list fails exactly when some level's lookup fails, and otherwise holds each level's threshold in order. |
| IsoContour.Marked | 4_new_full_o2/3_plot_all/3_all_out/12_denggaoxian.py:81-82 | The axis values selected are exactly those whose flag is set. |
| IsoContour.Range | 4_new_full_o2/3_plot_all/3_all_out/12_denggaoxian.py:81-82 | `.min()`/`.max()` over the marked axis values: missing exactly when nothing is marked, and otherwise the least and greatest marked values, bracketing every marked one. |
| IsoContour.ColumnFlags | 4_new_full_o2/3_plot_all/3_all_out/12_denggaoxian.py:81 | `mask.any(0)`: a column is flagged exactly when some cell in it reaches the level. |
| IsoContour.RowFlags | 4_new_full_o2/3_plot_all/3_all_out/12_denggaoxian.py:82 | `mask.any(1)`: a row is flagged exactly when some cell in it reaches the level. |
| IsoContour.LevelBox | 4_new_full_o2/3_plot_all/3_all_out/12_denggaoxian.py:77-84 | A contour is skipped exactly when no cell reaches its level. Otherwise its T and σ ranges bracket every cell at or above the level. |
| IsoContour.Boxes | 4_new_full_o2/3_plot_all/3_all_out/12_denggaoxian.py:77 | One optional box per (level, probability) pair, in order. |
| IsoContour.Ranges | 4_new_full_o2/3_plot_all/3_all_out/12_denggaoxian.py:76-84 | Every range written comes from some pair's cells. |
| IsoContour.RangesComplete | 4_new_full_o2/3_plot_all/3_all_out/12_denggaoxian.py:76-84 | Every pair whose level some cell reaches gets its range written. |
| Plot.ProductSign | 6_out/006_2km_opt/virial_new/1900k/plot.py:56-57 | A product of two numbers of the same sign is positive, and a product with a zero factor is zero. |
| Plot.SqNonneg | 6_out/006_2km_opt/virial_new/1900k/plot.py:56-57 | A square is never negative, and is zero only at zero. |
| Plot.SumSqZero | 6_out/006_2km_opt/virial_new/1900k/plot.py:56-57 | A sum of squares is never negative, and is zero exactly when every term is. |
| Plot.Residuals | 6_out/006_2km_opt/virial_new/1900k/plot.py:56 | The residuals are `y_true - y_pred` elementwise. |
| Plot.Deviations | 6_out/006_2km_opt/virial_new/1900k/plot.py:57 | The deviations are each value minus the mean. |
| Plot.RatioBounds | 6_out/006_2km_opt/virial_new/1900k/plot.py:58 | The ratio of a nonnegative number to a positive one is nonnegative, and zero exactly for a zero numerator. |
| Plot.R2 | 6_out/006_2km_opt/virial_new/1900k/plot.py:54-58 | `r2_score` is NaN exactly when the total sum of squares is not positive. Otherwise it is at most 1, and equals 1 exactly for a perfect prediction. |
| Plot.NoSpread | 6_out/006_2km_opt/virial_new/1900k/plot.py:57-58 | The total sum of squares is zero exactly when every value equals the mean. |
| Plot.PerfectFit | 6_out/006_2km_opt/virial_new/1900k/plot.py:54-58 | Predicting the data itself scores exactly 1 when the data vary. |
| Plot.TimeCrop | 6_out/006_2km_opt/virial_new/1900k/plot.py:66-72 | `_apply_time_crop` passes a missing or empty table through. Otherwise it keeps exactly the rows whose centre lies within the bounds given. |
| Plot.OpenCrop | 6_out/006_2km_opt/virial_new/1900k/plot.py:66-72 | With no bounds, which is the script's setting, the crop keeps every row. |
| Plot.UnitScale | 6_out/006_2km_opt/virial_new/1900k/plot.py:47-76 | The unit must be GPa, MPa or kPa, scaling by 1, 1e3 or 1e6, and any other unit stops the script. |
| Plot.ScaleMonotone | 6_out/006_2km_opt/virial_new/1900k/plot.py:93 | Scaling to the plot unit preserves the order of stresses. |
| Plot.SigmaFilter | 6_out/006_2km_opt/virial_new/1900k/plot.py:122-125 | Keeps exactly the rows whose scaled stress lies within the optional bounds. |
| Numbers.DigitChar | 6_out/006_2km_opt/virial_new/1900k/stress.py:133-144 | Each digit value has a digit character that reads back as it. |
| Numbers.ParseInt | 6_out/006_2km_opt/virial_new/1900k/stress.py:133-144 | `int()` accepts exactly an optional sign followed by one or more digits, after stripping whitespace. |
| Numbers.ParseFloat | 6_out/006_2km_opt/virial_new/1900k/stress.py:146 | `float()` agrees with `int()` on every integer literal. |
| Numbers.DigitsAgree | 6_out/006_2km_opt/virial_new/1900k/stress.py:146 | A digit string read as a decimal has its integer value. |
| Numbers.NoSeparatorsInDigits | 6_out/006_2km_opt/virial_new/1900k/stress.py:146 | A digit string has no decimal point and no exponent marker. |
| Numbers.NatToString | 6_out/006_2km_opt/virial_new/1900k/stress.py:133 | Every natural number has a digit string that reads back as it. |
| Numbers.IntRoundTrip | 6_out/006_2km_opt/virial_new/1900k/stress.py:133-144 | `int(str(i)) == i` for every integer. |
| Frames.AsFloat | 4_new_full_o2/3_plot_all/3_500k_out/08_prepare_stress.py:27 | `astype(float)` of one cell: a missing cell is NaN, a number is itself, and a text cell converts exactly when `float()` accepts it. |
| Frames.ColumnFloats | 4_new_full_o2/3_plot_all/3_500k_out/08_prepare_stress.py:27 | A column converts exactly when each of its cells does, giving each row's value. |
| Frames.ColumnVals | 4_new_full_o2/3_plot_all/3_500k_out/08_prepare_stress.py:27 | The cells of one column, one per row, none of them a computed root. |
| Frames.MapAll | 4_new_full_o2/3_plot_all/3_500k_out/08_prepare_stress.py:27 | A conversion over a list succeeds exactly when it succeeds on each element, giving each element's result. |
| Frames.FloatsOf | 4_new_full_o2/3_plot_all/3_500k_out/08_prepare_stress.py:27 | A list of cells converts exactly when each cell does. |
| Frames.SetColumn | 4_new_full_o2/3_plot_all/3_500k_out/08_prepare_stress.py:29-30 | `df[c] = vals`: the column is added if new, each row's cell becomes its value, and every other cell is kept. |

## Left out

- IdCsv.CsvRow: `csv.reader` strips the quotes of a quoted field (`"12",x` gives the id 12) and keeps commas inside quotes; the model splits every line at each comma without quoting, so the model skips a line whose id is quoted, because `int()` rejects the quotes.
- Plotting and rendering are not modelled: matplotlib and seaborn figures, contour drawing, colour maps and printed messages. They produce no data that the later steps read.
- `gaussian_kde` of `12_denggaoxian.py` is a SciPy call. The density grid, the axes and the cell area are inputs to `IsoContour`; the model only requires the densities to be nonnegative.
- `np.polyfit` of `plot.py` is a least-squares library call. `Plot.R2` takes the predictions as an input.
- File, OVITO and ASE input and output are not modelled: `open`, `read_csv`/`to_csv`, `import_file`/`export_file`, glob, argparse and the JSON metadata. Their contents appear as line, row and per-frame array inputs.
- The plot-only scripts, the scikit-learn wrapper `11_plot_escape_map.py` and the lattice builders are outside this core.
- Floating-point arithmetic is modelled with exact reals: no rounding, overflow, NaN or infinity bits. This covers the `arange` point count, the `linspace` index cast (taken as the exact floor of i·(n−1)/9), the percentile interpolation, the histogram edges and the unit conversions. Results that depend on rounding are therefore stated for exact arithmetic.
- Species.Rate: `np.gradient` is the parameter `grad`. The model fixes when the gradient is used (at least three rows spanning a positive time) and when the rate is all zeros, not the finite-difference values.
- Species.Build: the `np.convolve` smoothing is not modelled, because `SMOOTH_RATE_POINTS` is 1 and that branch never runs.
- TimeBins.BinOf: the median and standard-deviation columns of `time_bin_aggregate` (`sigma_vm_median_gpa`, `sigma_vm_std_gpa`, `vm_virial_median_kcalmol`, `vm_virial_std_kcalmol`, `rate_median_per_ps`, `rate_std_per_ps`) are not modelled. Only the counts and means are. The interval ends are the bin edges themselves, while `bin_start_ps` and `bin_end_ps` come from the labels `pd.cut` builds (stress.py:256-257), which pandas rounds to three decimals (for edges below 1, to three significant digits); the model does not round them, and `t_center_ps` is their midpoint without that rounding.
- TimeBins.Aggregate: the optional final crop is not applied, because `T_MIN_PS` and `T_MAX_PS` are `None` in the script. `TimeBins.Crop` models it, and `TimeBins.CropUnbounded` shows that it changes nothing with both bounds unset.
- Numbers.ParseFloat: reads only ASCII `[sign] digits [. digits] [e [sign] digits]` after stripping whitespace. Python's `float()` also accepts `nan`, `inf` and `infinity` in any case, underscores between digits, and non-ASCII digits. The contract states only the agreement with `int()`, and the reading itself is the body of `Numbers.Decimal`.
- Numbers.ParseInt: Python's `int()` also accepts underscores between digits and non-ASCII digits. The model rejects them.
- Frames.AsFloat: `astype(float)` of a text cell `nan` or `inf` succeeds in pandas. Through `Numbers.ParseFloat` the model raises there instead.
- Cells.SafeNum: a token such as `nan` or `inf` stays text in the model, while `_safe_num` turns it into a float.
- Span.Side: a span side `inf` or `-inf` is rejected in the model, while `parse_span` accepts it.
- Dump.Consume: a record with a `nan` or `inf` stress token is skipped, because `Numbers.ParseFloat` rejects it; the script keeps it.
- Dump.Consume: a record read before the first `ITEM: TIMESTEP` is dropped. The script keeps it with `tps = None`, which `np.array(..., dtype=float)` turns into a NaN time.
- Dump.ParseDump: for the same reason, the series never holds a NaN-time sample, which the script would sort last.
- Species.ByTime: `sort_values` uses NumPy's unstable quicksort, so which of several records with the same time `drop_duplicates(keep='last')` keeps depends on the sort. The model sorts stably and keeps the last record in file order.
- Dump.ParseDump: the order of samples with equal times after `sort_values` is likewise modelled as stable.
- Jump.Group: the per-atom `sort_values('time_ps')` is modelled as stable.
- EscapeMap.TableNegatives: a time-series table is taken to carry the `id`, `time_ps` and `T` columns, because the typed `EscapeMap.Row` has them as fields. A file lacking one would raise `KeyError` in the script.
- Jump.Jumps1000: the time-series table is taken to carry `id`, `time_ps`, `z` and `T`. `Jump.Jumps500` also takes which stress columns exist as the input `present`.
- IsoContour.Ranges: the contour levels that `plt.contour` reports are taken to be the sorted thresholds passed to it.
- Surface.Percentile: states only that the result lies between the sample's minimum and maximum. The linear interpolation is the body of `Surface.Interpolate`, whose contract likewise states only bounds.
- Surface.Mode: histogram bin edges are exact fractions of the range, and the last bin is closed as in `np.histogram`.
