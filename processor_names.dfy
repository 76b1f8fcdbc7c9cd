/**
 * How the profiling page prints processor names: `ShortenProcessorName`
 * cuts a name to a column width with an ellipsis, `FormatProcessorName`
 * breaks a long dotted type name into HTML lines.
 */
module ProcessorNames {
  import opened Wrappers
  import opened StringSplit
  import opened TextWrap

  /** The marker put after a shortened name. */
  const Ellipsis: string := "..."

  /** The HTML line break put between wrapped lines. */
  const LineBreak: string := "<br/>"

  /**
   * A name that fits is kept; a longer one is cut to width - 3 characters
   * followed by the ellipsis. For a width below 3 the cut has a negative
   * length, and the substring call throws.
   */
  function ShortenProcessorName(processorName: string, width: int): (r: Result<string>)
    ensures |processorName| <= width ==> r == Success(processorName)
    ensures |processorName| > width && width >= 3 ==>
              && r.Success?
              && |r.value| == width
              && r.value[..width - 3] == processorName[..width - 3]
              && r.value[width - 3..] == Ellipsis
    ensures |processorName| > width && width < 3 ==> r == Failure(ArgumentOutOfRange)
  {
    if |processorName| <= width then Success(processorName)
    else if width - 3 < 0 then Failure(ArgumentOutOfRange)
    else Success(processorName[..width - 3] + Ellipsis)
  }

  /** A shortened name fits its width, so shortening it again changes nothing. */
  lemma ShortenIsIdempotent(processorName: string, width: int)
    requires width >= 3
    ensures ShortenProcessorName(processorName, width).Success?
    ensures var once := ShortenProcessorName(processorName, width).value;
            ShortenProcessorName(once, width) == Success(once)
  {
  }

  /** `String.Join`: the lines with `glue` between neighbours; no line gives the empty string. */
  function JoinWith(lines: seq<string>, glue: string): (r: string)
    ensures |lines| == 0 ==> r == ""
    ensures |lines| == 1 ==> r == lines[0]
    decreases |lines|
  {
    if |lines| == 0 then ""
    else if |lines| == 1 then lines[0]
    else JoinWith(lines[..|lines| - 1], glue) + glue + lines[|lines| - 1]
  }

  /**
   * Names of at most 70 characters are printed as they are; longer ones are
   * wrapped at width 90 on '.' and the lines joined with an HTML break.
   */
  function FormatProcessorName(processorName: string): (r: string)
    ensures |processorName| <= 70 ==> r == processorName
  {
    if |processorName| > 70 then JoinWith(WrapLines(processorName, 90, '.').value, LineBreak)
    else processorName
  }

  /**
   * A name of 71 to 90 characters gets no break, but loses the dots it
   * starts with (a name of dots only comes out empty).
   */
  lemma FormatMediumName(processorName: string)
    requires 70 < |processorName| <= 90
    ensures FormatProcessorName(processorName) == DropLeading(processorName, '.')
  {
    WrapLinesShortText(processorName, 90, '.');
  }

  /**
   * When no dotted part of a long name is empty or longer than 90
   * characters, formatting only inserts breaks: the name is cut into lines
   * that spell it out exactly, each but the last ending with a dot, each
   * with at most 92 characters unless it is one part.
   */
  lemma FormatLongNameOnlyBreaks(processorName: string)
    requires |processorName| > 70
    requires forall i :: 0 <= i < |Split(processorName, '.')| ==> 0 < |Split(processorName, '.')[i]| <= 90
    ensures exists lines: seq<string> ::
              && FormatProcessorName(processorName) == JoinWith(lines, LineBreak)
              && Concat(lines) == processorName
              && (forall i :: 0 <= i < |lines| - 1 ==> |lines[i]| > 0 && lines[i][|lines[i]| - 1] == '.')
              && (forall i :: 0 <= i < |lines| ==>
                    |lines[i]| > 0 && (|lines[i]| <= 92 || '.' !in lines[i][..|lines[i]| - 1]))
  {
    var lines := WrapLines(processorName, 90, '.').value;
    WrapLinesRoundTrip(processorName, 90, '.');
    WrapLinesShape(processorName, 90, '.');
    WrapLinesLengthBound(processorName, 90, '.');
    assert FormatProcessorName(processorName) == JoinWith(lines, LineBreak);
  }
}
