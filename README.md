# Pipeline profiling page — verified model

A Dafny model of the logic inside the Sitecore pipeline profiling admin page
(`CdPipelineProfiling/Pipelines.aspx.cs`). The page reads a profiling snapshot, one entry per
pipeline with the counters of the pipeline and of each of its processors, and renders it as
an HTML table. The model covers the parts of the page that compute something:

- **`WrapText`** (`text_wrap.dfy`). The text is cut at a separator character. The pieces are
  packed greedily into lines, and each closed line gets a trailing separator. The model keeps
  the code's length test, which does not count the separator it then inserts. It is a method
  whose loop is proved equal to a fold (`Pack`) over the pieces. The lemmas state the shape
  of the lines, their length bound, the text they keep, and the exact round trip when every
  piece is non-empty and fits. Two concrete inputs show the quirks: a line can reach
  `maxLength + 2` characters, and a first piece that is too long yields a line made of the
  separator alone.
- **`String.Split` / `String.Join`** (`string_split.dfy`). These follow .NET, which keeps
  empty pieces. They are proved to be inverses.
- **`ShortenProcessorName` and `FormatProcessorName`** (`processor_names.dfy`). Shortening
  cuts a name longer than the width and appends `...`; when such a name meets a width below 3,
  `Substring` throws.
  Formatting wraps names longer than 70 characters at width 90 on `.` and joins the lines with
  `<br/>`.
- **The unit loop of `CpuCyclesToString`** (`cpu_cycles.dfy`). The count is divided by 1000
  while it is at least 1000 and a larger unit exists. The units are
  `k, M, G, T, P, E, Z, Y`, starting at `k`.
- **Ordering and ranking** (`stable_order.dfy`, `profiling.dfy`).
  - `DataBind` binds the snapshot, stably sorted by descending wall time.
  - `GetPipelines` gives each processor a rank: its 1-based place when the pipeline's
    processors are stably sorted by descending wall time, or 0 when the pipeline has a
    single processor. The processor views keep the original order.
  - The stable sort is an insertion sort on positions. It is proved to list every position
    once, to be ordered by descending key with ties in original order, and to only rearrange
    the entries.
- **The view models** (`profiling.dfy`). The class `Pipelines` holds the bound data.
  `GetPipelines` builds one pipeline view per entry. It then fills in the details of the
  processors one after another, each rendered while its own details are still unset.

The model follows the code in two places where a plain reading of the page's behaviour
suggests otherwise:

- 2,500,000 cycles are divided twice and labelled `G` with value 2.5, not `M`. This is
  because the unit list starts at `k` (`TwoAndAHalfMillionCycles`).
- A wrapped line is not bounded by `maxLength`. Before its trailing separator it can hold
  `maxLength + 1` characters (`WrapLinesOverlongLine`).

Doubles are modelled as `real` and `long` counters as `int`. A `null` result is `None`, and
an exception is a `Failure`.

## Model

| member | source | states |
|---|---|---|
| StringSplit.Split | CdPipelineProfiling/Pipelines.aspx.cs:219 | the pieces of a text number one more than the separators in it, and none holds the separator |
| StringSplit.JoinSplit | CdPipelineProfiling/Pipelines.aspx.cs:219 | joining the pieces of a split with the separator gives back the text |
| StringSplit.SplitJoin | CdPipelineProfiling/Pipelines.aspx.cs:219 | splitting a join of separator-free pieces gives back the pieces |
| TextWrap.WrapLines | CdPipelineProfiling/Pipelines.aspx.cs:215-233 | the result is null exactly when the text is empty |
| TextWrap.WrapText | CdPipelineProfiling/Pipelines.aspx.cs:215-234 | the loop over the pieces returns exactly the lines of the greedy packing `WrapLines` |
| TextWrap.PackClosedLines | CdPipelineProfiling/Pipelines.aspx.cs:224-227 | every line closed inside the loop is non-empty and ends with the separator |
| TextWrap.PackBounds | CdPipelineProfiling/Pipelines.aspx.cs:224-229 | a line holding more than one piece has at most maxLength + 1 characters before its closing separator |
| TextWrap.PackExact | CdPipelineProfiling/Pipelines.aspx.cs:222-230 | with non-empty pieces that fit, the closed lines followed by the open one spell the joined pieces |
| TextWrap.WrapLinesShape | CdPipelineProfiling/Pipelines.aspx.cs:215-233 | for a non-empty text every returned line is non-empty and each but the last ends with the separator |
| TextWrap.WrapLinesLengthBound | CdPipelineProfiling/Pipelines.aspx.cs:222-232 | a returned line has at most maxLength + 2 characters unless it holds a single piece |
| TextWrap.WrapLinesKeepsText | CdPipelineProfiling/Pipelines.aspx.cs:219-232 | no character other than the separator is lost, added or reordered: without separators the lines spell the text without separators |
| TextWrap.PackKeepsPieces | CdPipelineProfiling/Pipelines.aspx.cs:222-230 | the loop appends every piece whole: the non-empty pieces of the text of all lines are the packed pieces' non-empty ones, in order |
| TextWrap.WrapLinesKeepsPieces | CdPipelineProfiling/Pipelines.aspx.cs:219-232 | no piece is split, lost or reordered: cutting the concatenated lines at the separator gives the text's non-empty pieces, in order |
| TextWrap.WrapLinesRoundTrip | CdPipelineProfiling/Pipelines.aspx.cs:219-232 | when every piece is non-empty and at most maxLength long, the lines concatenated are the text |
| TextWrap.PackGreedy | CdPipelineProfiling/Pipelines.aspx.cs:222-229 | with non-empty pieces that fit, every closed line was closed only because the next line's first piece would have pushed it past maxLength |
| TextWrap.WrapLinesGreedy | CdPipelineProfiling/Pipelines.aspx.cs:219-233 | the packing is greedy: with non-empty pieces that fit, each returned line but the last, without its separator, plus the first piece of the next line exceeds maxLength |
| TextWrap.WrapLinesShortText | CdPipelineProfiling/Pipelines.aspx.cs:219-232 | a text that fits comes back as one line without its leading separators, or as no line when it is separators only |
| TextWrap.WrapLinesOverlongLine | CdPipelineProfiling/Pipelines.aspx.cs:224-229 | "ab.c.d" at width 3 gives "ab.c." and "d": a line of maxLength + 2 characters |
| TextWrap.WrapLinesLoneSeparator | CdPipelineProfiling/Pipelines.aspx.cs:221-229 | "abc..d" at width 2 gives ".", "abc." and "d": a separator-only line and a dropped separator |
| TextWrap.WrapLinesFirstLoneSeparator | CdPipelineProfiling/Pipelines.aspx.cs:221-226 | for any text whose first piece is longer than maxLength, the first line is the separator alone |
| ProcessorNames.ShortenProcessorName | CdPipelineProfiling/Pipelines.aspx.cs:130 | a name that fits is unchanged; a longer one keeps its first width - 3 characters and ends in "...", width long; below width 3 a longer name makes the call fail |
| ProcessorNames.ShortenIsIdempotent | CdPipelineProfiling/Pipelines.aspx.cs:130 | for width at least 3, shortening never fails and shortening a shortened name changes nothing |
| ProcessorNames.FormatProcessorName | CdPipelineProfiling/Pipelines.aspx.cs:135-140 | names of at most 70 characters are returned unchanged; longer ones are the wrapped lines joined by `<br/>` through `JoinWith`, the model of `string.Join` (no line gives the empty string, one line itself) |
| ProcessorNames.FormatMediumName | CdPipelineProfiling/Pipelines.aspx.cs:135-140 | a name of 71 to 90 characters gets no break and only loses its leading dots |
| ProcessorNames.FormatLongNameOnlyBreaks | CdPipelineProfiling/Pipelines.aspx.cs:135-140 | when every dotted part is non-empty and at most 90 long, the result is lines that spell the name joined by `<br/>`, each but the last ending with a dot |
| CpuCycles.ScaleCpuCycles | CdPipelineProfiling/Pipelines.aspx.cs:203-207 | the unit index is 0..7, the value is cycles / 1000^index, below 1000 unless the unit is the last, every earlier value was at least 1000; inputs below 1000 stay as they are with unit "k" |
| CpuCycles.UnitScalingIsUnique | CdPipelineProfiling/Pipelines.aspx.cs:203-206 | the unit index and the scaled value are determined by the count |
| CpuCycles.TwoAndAHalfMillionCycles | CdPipelineProfiling/Pipelines.aspx.cs:203-207 | 2,500,000 cycles become 2.5 with unit "G" |
| StableOrder.SortOrder | CdPipelineProfiling/Pipelines.aspx.cs:247 | the order lists every position once, by descending key, equal keys in original position order |
| StableOrder.PositionFollowsPrecedence | CdPipelineProfiling/Pipelines.aspx.cs:247-248 | in a stable descending order, p comes before q exactly when p's key is larger, or equal with p first |
| StableOrder.PermutePrefixMultiset | CdPipelineProfiling/Pipelines.aspx.cs:68 | taking elements in the sorted order only rearranges them |
| Profiling.OrderByWallTime | CdPipelineProfiling/Pipelines.aspx.cs:68 | the bound data is a permutation of the snapshot, of the same length, in non-increasing wall time |
| Profiling.OrderByWallTimeIsStable | CdPipelineProfiling/Pipelines.aspx.cs:68 | each snapshot entry appears once, and entries with equal wall time keep their snapshot order |
| Profiling.Rank | CdPipelineProfiling/Pipelines.aspx.cs:247-266 | a single processor has rank 0; with n ≥ 2 processors every rank is in 1..n |
| Profiling.RankFollowsWallTime | CdPipelineProfiling/Pipelines.aspx.cs:247-266 | with n ≥ 2, p ranks before q exactly when its wall time is larger, or equal and p comes first |
| Profiling.RanksArePermutation | CdPipelineProfiling/Pipelines.aspx.cs:246-266 | with n ≥ 2 distinct processors, no two share a rank and every rank 1..n is taken |
| Profiling.RankOneIsSlowest | CdPipelineProfiling/Pipelines.aspx.cs:247-266 | with n ≥ 2, rank 1 goes exactly to the processor of largest wall time, the first among equals |
| Profiling.WithDetails | CdPipelineProfiling/Pipelines.aspx.cs:269-270 | after rendering the first k processors, exactly those have details and the rest keep theirs |
| Profiling.WithDetailsKeepsViews | CdPipelineProfiling/Pipelines.aspx.cs:269-270 | rendering changes nothing but the processors' details: names, counters and ranks stay |
| Profiling.DetailsRenderedInOrder | CdPipelineProfiling/Pipelines.aspx.cs:269-270 | processor j's details are rendered from its view without details, inside the pipeline whose earlier processors have theirs |
| Profiling.PipelineViewCopiesEntry | CdPipelineProfiling/Pipelines.aspx.cs:252-267 | a view copies the pipeline's name and counters, and for every processor in original order its name, counters, rank, and rendered details |
| Profiling.ViewsByWallTime | CdPipelineProfiling/Pipelines.aspx.cs:241-271 | after binding a snapshot, the views come one per entry in non-increasing pipeline wall time |
| Profiling.Pipelines.DataBind | CdPipelineProfiling/Pipelines.aspx.cs:66-70 | the bound data becomes the snapshot ordered stably by descending wall time |
| Profiling.Pipelines.GetPipelines | CdPipelineProfiling/Pipelines.aspx.cs:238-273 | the loops return exactly the views `PipelineViews` of the bound data |

## Left out

- Page lifecycle (`OnInit`, `OnPreRender`, the reset handler) and the profiler API (`GetPipelineProfilingSnapshot`, `ResetCounters`, `IsProfilingEnabled`). These are framework and external calls. The snapshot is an input sequence of `DataBind`.
- HTML rendering. `BuildDetails2` renders a template control; it becomes the `render` parameter of `GetPipelines`, and its `CurrentProcessor`/`CurrentPipeline` context is dropped. `RenderSummaryTable` is not modelled.
- Number formatting: `FormatNumber` (both), `FormatNumberExtended`, `FormatPercentage`, and the final `string.Format` of `CpuCyclesToString`. These depend on .NET format strings and culture settings.
- Double semantics: NaN, infinities, rounding of division, and the negation in the `DataBind` sort key. Wall times and cycles are exact reals.
- `BuildProcessorName`. It is never called in the file and relies on `StringUtil.Left`, which is not part of this model.
- The constant legend text (`Columns`, `ColumnDescription`) and `WorstRankingHintImage`.
- The `null` data source before the first `DataBind`. The constructor starts with an empty sequence.
- Profiling.Rank: processors are identified by position. The code finds a processor's rank by reference equality, so a processor object listed twice would get the rank of its first sorted place. The model assumes distinct objects.
- Profiling.Pipelines.GetPipelines: the view objects are values. The in-place update of a processor's `Details` through the pipeline's shared array is modelled as rebuilding the pipeline value. The lazy `yield` is modelled as a sequence returned whole.
- ProcessorNames.FormatProcessorName: the contract for names over 70 characters is given by the lemmas `FormatMediumName` and `FormatLongNameOnlyBreaks`, not for arbitrary dotted names. For those, the output keeps the dotted parts whole and in order (`WrapLinesKeepsPieces`) but can put a separator ahead of a part or drop one, as `WrapLinesLoneSeparator` shows.
- Strings: lengths are counted in characters (Unicode scalar values), not in the UTF-16 code units that .NET `Length` and `Substring` count, so names outside the Basic Multilingual Plane are not modelled, nor is a cut through a surrogate pair. A `null` name or text, which throws at `.Length`, cannot occur in the model.
