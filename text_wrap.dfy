/**
 * `WrapText` of the profiling page: a text is cut at a separator character
 * and its pieces are packed greedily into lines, each line but the last
 * closed with the separator. The model keeps the code's own length test,
 * which does not count the separator it inserts.
 */
module TextWrap {
  import opened Wrappers
  import opened StringSplit

  /** The loop's state: the lines closed so far and the line being filled. */
  datatype Packing = Packing(lines: seq<string>, current: string)

  /** The length test of the loop: it does not count the separator that joining would add. */
  predicate Breaks(p: Packing, segment: string, maxLength: int)
  {
    |p.current| > maxLength || |p.current| + |segment| > maxLength
  }

  /**
   * One turn of the loop: close the current line (with a trailing separator)
   * when the piece does not fit by the length test, then append the piece,
   * with a separator in front unless the current line is empty.
   */
  function PackSegment(p: Packing, segment: string, maxLength: int, sep: char): Packing
  {
    var p' := if Breaks(p, segment, maxLength)
              then Packing(p.lines + [p.current + [sep]], "")
              else p;
    if |p'.current| <= 0 then p'.(current := p'.current + segment)
    else p'.(current := p'.current + [sep] + segment)
  }

  /** The loop's state after packing every piece of `segments`, in order. */
  function Pack(segments: seq<string>, maxLength: int, sep: char): Packing
    decreases |segments|
  {
    if |segments| == 0 then Packing([], "")
    else PackSegment(Pack(segments[..|segments| - 1], maxLength, sep),
                     segments[|segments| - 1], maxLength, sep)
  }

  /** The lines returned: the open line is kept only when it is not empty. */
  function Flush(p: Packing): seq<string>
  {
    if |p.current| > 0 then p.lines + [p.current] else p.lines
  }

  /** What `WrapText` returns; `None` is the `null` it gives for an empty text. */
  function WrapLines(text: string, maxLength: int, sep: char): (r: Option<seq<string>>)
    ensures r.None? <==> |text| == 0
  {
    if |text| == 0 then None
    else Some(Flush(Pack(Split(text, sep), maxLength, sep)))
  }

  /** The loop of `WrapText`, over the pieces of the split text. */
  method WrapText(text: string, maxLength: int, separator: char) returns (r: Option<seq<string>>)
    ensures r == WrapLines(text, maxLength, separator)
  {
    if |text| == 0 {
      return None;
    }
    var segments := Split(text, separator);
    var lines: seq<string> := [];
    var current: string := "";
    for i := 0 to |segments|
      invariant Pack(segments[..i], maxLength, separator) == Packing(lines, current)
    {
      var segment := segments[i];
      assert segments[..i + 1][..i] == segments[..i];
      if |current| > maxLength || |current| + |segment| > maxLength {
        assert Breaks(Packing(lines, current), segment, maxLength);
        lines := lines + [current + [separator]];
        current := "";
      }
      current := if |current| <= 0 then current + segment else current + [separator] + segment;
    }
    assert segments[..|segments|] == segments;
    if |current| > 0 {
      lines := lines + [current];
    }
    r := Some(lines);
  }

  // ---------------------------------------------------------------------
  // Properties of the packing loop
  // ---------------------------------------------------------------------

  /** The two outcomes of one turn: a break starts the open line afresh with the piece. */
  lemma PackSegmentCases(p: Packing, segment: string, maxLength: int, sep: char)
    ensures var q := PackSegment(p, segment, maxLength, sep);
            if Breaks(p, segment, maxLength)
            then q == Packing(p.lines + [p.current + [sep]], segment)
            else q.lines == p.lines &&
                 q.current == if |p.current| == 0 then segment else p.current + [sep] + segment
  {
    if Breaks(p, segment, maxLength) {
      assert "" + segment == segment;
    } else if |p.current| == 0 {
      assert p.current + segment == segment;
    }
  }

  /** The text of the lines grows line by line. */
  lemma ConcatSnoc(lines: seq<string>, line: string)
    ensures Concat(lines + [line]) == Concat(lines) + line
  {
    assert (lines + [line])[..|lines|] == lines;
  }

  /** Deleting separators from a text extended by a separator-free piece. */
  lemma RemoveAllSeparatorPiece(done: string, segment: string, sep: char)
    requires sep !in segment
    ensures RemoveAll(done + segment, sep) == RemoveAll(done, sep) + segment
    ensures RemoveAll(done + [sep] + segment, sep) == RemoveAll(done, sep) + segment
  {
    RemoveAllAbsent(segment, sep);
    RemoveAllAppend(done, segment, sep);
    RemoveAllAppend(done + [sep], segment, sep);
    assert RemoveAll(done + [sep], sep) == RemoveAll(done, sep) by {
      assert (done + [sep])[..|done|] == done;
    }
  }

  /** Unfolds `Pack` by its last piece. */
  lemma PackLast(segments: seq<string>, maxLength: int, sep: char)
    requires |segments| > 0
    ensures var p := Pack(segments[..|segments| - 1], maxLength, sep);
            var segment := segments[|segments| - 1];
            var q := Pack(segments, maxLength, sep);
            if Breaks(p, segment, maxLength)
            then q == Packing(p.lines + [p.current + [sep]], segment)
            else q.lines == p.lines &&
                 q.current == if |p.current| == 0 then segment else p.current + [sep] + segment
  {
    PackSegmentCases(Pack(segments[..|segments| - 1], maxLength, sep), segments[|segments| - 1], maxLength, sep);
  }

  /** Every line is non-empty and ends with the separator. */
  predicate ClosedBy(lines: seq<string>, sep: char)
  {
    forall i :: 0 <= i < |lines| ==> |lines[i]| > 0 && lines[i][|lines[i]| - 1] == sep
  }

  /** Every closed line is non-empty and ends with the separator. */
  lemma {:induction false} PackClosedLines(segments: seq<string>, maxLength: int, sep: char)
    ensures ClosedBy(Pack(segments, maxLength, sep).lines, sep)
    decreases |segments|
  {
    if |segments| > 0 {
      PackClosedLines(segments[..|segments| - 1], maxLength, sep);
      PackLast(segments, maxLength, sep);
    }
  }

  /**
   * A line that holds more than one piece (a separator before its last
   * character) is at most maxLength + 1 characters long before its final
   * separator: the length test does not count the separator it inserts.
   */
  lemma {:induction false} PackBounds(segments: seq<string>, maxLength: int, sep: char)
    requires forall i :: 0 <= i < |segments| ==> sep !in segments[i]
    ensures var p := Pack(segments, maxLength, sep);
            && (sep in p.current ==> |p.current| <= maxLength + 1)
            && forall i :: 0 <= i < |p.lines| ==>
                 |p.lines[i]| > 0 &&
                 (sep in p.lines[i][..|p.lines[i]| - 1] ==> |p.lines[i]| <= maxLength + 2)
    decreases |segments|
  {
    if |segments| > 0 {
      var init := segments[..|segments| - 1];
      var segment := segments[|segments| - 1];
      assert sep !in segment;
      PackBounds(init, maxLength, sep);
      PackLast(segments, maxLength, sep);
      var p := Pack(init, maxLength, sep);
      if Breaks(p, segment, maxLength) {
        var closed := p.current + [sep];
        assert closed[..|closed| - 1] == p.current;
      }
    }
  }

  /** What one turn does to the text of all lines: the piece is appended, after a separator unless the open line was empty and no break occurred. */
  lemma PackSegmentText(p: Packing, segment: string, maxLength: int, sep: char)
    ensures var q := PackSegment(p, segment, maxLength, sep);
            var done := Concat(p.lines) + p.current;
            Concat(q.lines) + q.current ==
              if Breaks(p, segment, maxLength) || |p.current| > 0 then done + [sep] + segment
              else done + segment
  {
    PackSegmentCases(p, segment, maxLength, sep);
    if Breaks(p, segment, maxLength) {
      ConcatSnoc(p.lines, p.current + [sep]);
    }
  }

  /** Only separators are ever added, dropped or moved: the other characters stay, in order. */
  lemma {:induction false} PackKeepsText(segments: seq<string>, maxLength: int, sep: char)
    requires forall i :: 0 <= i < |segments| ==> sep !in segments[i]
    ensures var p := Pack(segments, maxLength, sep);
            RemoveAll(Concat(p.lines) + p.current, sep) == Concat(segments)
    decreases |segments|
  {
    if |segments| > 0 {
      var init := segments[..|segments| - 1];
      var segment := segments[|segments| - 1];
      assert sep !in segment;
      PackKeepsText(init, maxLength, sep);
      var p := Pack(init, maxLength, sep);
      PackSegmentText(p, segment, maxLength, sep);
      var done := Concat(p.lines) + p.current;
      RemoveAllSeparatorPiece(done, segment, sep);
    }
  }

  /**
   * When every piece is non-empty and fits in maxLength, the closed lines and
   * the open line together spell out the pieces joined by the separator.
   */
  lemma {:induction false} PackExact(segments: seq<string>, maxLength: int, sep: char)
    requires |segments| >= 1
    requires forall i :: 0 <= i < |segments| ==> 0 < |segments[i]| <= maxLength
    ensures var p := Pack(segments, maxLength, sep);
            Concat(p.lines) + p.current == Join(segments, sep) && |p.current| > 0
    decreases |segments|
  {
    var segment := segments[|segments| - 1];
    PackLast(segments, maxLength, sep);
    if |segments| == 1 {
      assert segments[..0] == [];
      assert Concat([]) + segment == segment;
    } else {
      var init := segments[..|segments| - 1];
      PackExact(init, maxLength, sep);
      var p := Pack(init, maxLength, sep);
      var q := Pack(segments, maxLength, sep);
      if Breaks(p, segment, maxLength) {
        assert Concat(q.lines) == Concat(p.lines) + (p.current + [sep]);
      }
      assert Concat(q.lines) + q.current == Concat(p.lines) + p.current + [sep] + segment;
    }
  }

  /**
   * A text no longer than maxLength is never broken: its pieces end up in the
   * open line, except that the separators it starts with are dropped (the
   * empty first pieces are appended to an empty line without a separator).
   */
  lemma {:induction false} PackShort(segments: seq<string>, maxLength: int, sep: char)
    requires |segments| >= 1
    requires forall i :: 0 <= i < |segments| ==> sep !in segments[i]
    requires |Join(segments, sep)| <= maxLength
    ensures Pack(segments, maxLength, sep) == Packing([], DropLeading(Join(segments, sep), sep))
    decreases |segments|
  {
    var segment := segments[|segments| - 1];
    assert sep !in segment;
    assert DropLeading(segment, sep) == segment by {
      if |segment| > 0 {
        assert segment[0] in segment;
      }
    }
    if |segments| == 1 {
      assert segments[..0] == [];
      PackSegmentCases(Packing([], ""), segment, maxLength, sep);
    } else {
      var init := segments[..|segments| - 1];
      var joined := Join(init, sep);
      assert Join(segments, sep) == joined + [sep] + segment;
      PackShort(init, maxLength, sep);
      var p := Pack(init, maxLength, sep);
      assert !Breaks(p, segment, maxLength);
      PackSegmentCases(p, segment, maxLength, sep);
      DropLeadingPiece(joined, segment, sep);
    }
  }

  /** Dropping the leading separators of a text extended by a separator and a piece. */
  lemma DropLeadingPiece(done: string, segment: string, sep: char)
    requires DropLeading(segment, sep) == segment
    ensures var d := DropLeading(done, sep);
            DropLeading(done + [sep] + segment, sep) == if d == [] then segment else d + [sep] + segment
  {
    DropLeadingAppend(done, [sep] + segment, sep);
    DropLeadingAppend([sep], segment, sep);
    assert DropLeading([sep], sep) == [] by {
      assert [sep][1..] == [];
    }
    assert done + [sep] + segment == done + ([sep] + segment);
  }

  // ---------------------------------------------------------------------
  // Properties of WrapText
  // ---------------------------------------------------------------------

  /** A non-empty text gives lines that are all non-empty, each but the last ending with the separator. */
  lemma WrapLinesShape(text: string, maxLength: int, sep: char)
    requires |text| > 0
    ensures var lines := WrapLines(text, maxLength, sep).value;
            && (forall i :: 0 <= i < |lines| ==> |lines[i]| > 0)
            && (forall i :: 0 <= i < |lines| - 1 ==> lines[i][|lines[i]| - 1] == sep)
  {
    var p := Pack(Split(text, sep), maxLength, sep);
    PackClosedLines(Split(text, sep), maxLength, sep);
    var lines := Flush(p);
    assert WrapLines(text, maxLength, sep).value == lines;
    forall i | 0 <= i < |lines|
      ensures |lines[i]| > 0 && (i < |lines| - 1 ==> lines[i][|lines[i]| - 1] == sep)
    {
      if i < |p.lines| {
        assert lines[i] == p.lines[i];
      } else {
        assert |p.current| > 0 && lines == p.lines + [p.current];
        assert lines[i] == p.current;
      }
    }
  }

  /**
   * No line is longer than maxLength + 2 characters, trailing separator
   * included, unless it holds a single piece; maxLength + 2 is reached.
   */
  lemma WrapLinesLengthBound(text: string, maxLength: int, sep: char)
    requires |text| > 0
    ensures var lines := WrapLines(text, maxLength, sep).value;
            forall i :: 0 <= i < |lines| ==>
              |lines[i]| > 0 &&
              (|lines[i]| <= maxLength + 2 || sep !in lines[i][..|lines[i]| - 1])
  {
    var p := Pack(Split(text, sep), maxLength, sep);
    PackBounds(Split(text, sep), maxLength, sep);
    var lines := Flush(p);
    assert WrapLines(text, maxLength, sep).value == lines;
    forall i | 0 <= i < |lines|
      ensures |lines[i]| > 0 && (|lines[i]| <= maxLength + 2 || sep !in lines[i][..|lines[i]| - 1])
    {
      if i < |p.lines| {
        assert lines[i] == p.lines[i];
      } else {
        assert lines[i] == p.current;
        assert sep in p.current[..|p.current| - 1] ==> sep in p.current;
      }
    }
  }

  /** Deleting the separators from the lines and from the text gives the same characters. */
  lemma WrapLinesKeepsText(text: string, maxLength: int, sep: char)
    requires |text| > 0
    ensures RemoveAll(Concat(WrapLines(text, maxLength, sep).value), sep) == RemoveAll(text, sep)
  {
    var segments := Split(text, sep);
    var p := Pack(segments, maxLength, sep);
    PackKeepsText(segments, maxLength, sep);
    RemoveAllJoin(segments, sep);
    JoinSplit(text, sep);
    if |p.current| > 0 {
      assert Concat(p.lines + [p.current]) == Concat(p.lines) + p.current;
    } else {
      assert Concat(p.lines) + p.current == Concat(p.lines);
    }
  }

  /** Text made of closed lines ends in a separator, or is empty: its last piece is empty. */
  lemma SplitClosedLines(lines: seq<string>, sep: char)
    requires ClosedBy(lines, sep)
    ensures var parts := Split(Concat(lines), sep);
            parts == parts[..|parts| - 1] + [""]
  {
    if |lines| > 0 {
      var init, last := lines[..|lines| - 1], lines[|lines| - 1];
      var body := Concat(init) + last[..|last| - 1];
      assert last == last[..|last| - 1] + [sep];
      assert Concat(lines) == body + [sep];
      SplitSeparator(body, sep);
    }
  }

  /** A separator and a separator-free piece add that piece to the pieces of a text. */
  lemma PiecesAfterSeparator(done: string, segment: string, sep: char)
    requires sep !in segment
    ensures NonEmptyPieces(Split(done + [sep] + segment, sep))
            == NonEmptyPieces(Split(done, sep)) + NonEmptyPieces([segment])
  {
    SplitAfterSeparator(done, segment, sep);
    NonEmptyPiecesAppend(Split(done, sep), [segment]);
  }

  /** A separator-free piece appended to a text whose last piece is empty becomes its last piece. */
  lemma PiecesAfterEmptyPiece(done: string, segment: string, sep: char)
    requires sep !in segment
    requires var parts := Split(done, sep); parts == parts[..|parts| - 1] + [""]
    ensures NonEmptyPieces(Split(done + segment, sep))
            == NonEmptyPieces(Split(done, sep)) + NonEmptyPieces([segment])
  {
    var parts := Split(done, sep);
    var init := parts[..|parts| - 1];
    SplitExtend(done, segment, sep);
    assert parts[|parts| - 1] + segment == segment;
    NonEmptyPiecesAppend(init, [""]);
    NonEmptyPiecesAppend(init, [segment]);
  }

  /** One turn keeps the non-empty pieces of the text of all lines: the new piece is added after them. */
  lemma PackSegmentPieces(p: Packing, segment: string, maxLength: int, sep: char)
    requires sep !in segment
    requires ClosedBy(p.lines, sep)
    ensures var q := PackSegment(p, segment, maxLength, sep);
            NonEmptyPieces(Split(Concat(q.lines) + q.current, sep))
            == NonEmptyPieces(Split(Concat(p.lines) + p.current, sep)) + NonEmptyPieces([segment])
  {
    var done := Concat(p.lines) + p.current;
    PackSegmentText(p, segment, maxLength, sep);
    if Breaks(p, segment, maxLength) || |p.current| > 0 {
      PiecesAfterSeparator(done, segment, sep);
    } else {
      assert done == Concat(p.lines);
      SplitClosedLines(p.lines, sep);
      PiecesAfterEmptyPiece(done, segment, sep);
    }
  }

  /** The non-empty pieces of the text of all lines are those of the packed pieces, in order. */
  lemma {:induction false} PackKeepsPieces(segments: seq<string>, maxLength: int, sep: char)
    requires forall i :: 0 <= i < |segments| ==> sep !in segments[i]
    ensures var p := Pack(segments, maxLength, sep);
            NonEmptyPieces(Split(Concat(p.lines) + p.current, sep)) == NonEmptyPieces(segments)
    decreases |segments|
  {
    if |segments| == 0 {
      assert Concat([]) + "" == "";
    } else {
      var init := segments[..|segments| - 1];
      var segment := segments[|segments| - 1];
      assert sep !in segment;
      PackKeepsPieces(init, maxLength, sep);
      PackClosedLines(init, maxLength, sep);
      PackSegmentPieces(Pack(init, maxLength, sep), segment, maxLength, sep);
      NonEmptyPiecesAppend(init, [segment]);
      assert init + [segment] == segments;
    }
  }

  /**
   * No piece is split, lost or reordered: cutting the concatenated lines at
   * the separator gives the non-empty pieces of the text, in order.
   */
  lemma WrapLinesKeepsPieces(text: string, maxLength: int, sep: char)
    requires |text| > 0
    ensures NonEmptyPieces(Split(Concat(WrapLines(text, maxLength, sep).value), sep))
            == NonEmptyPieces(Split(text, sep))
  {
    var segments := Split(text, sep);
    var p := Pack(segments, maxLength, sep);
    PackKeepsPieces(segments, maxLength, sep);
    if |p.current| > 0 {
      ConcatSnoc(p.lines, p.current);
    } else {
      assert Concat(p.lines) + p.current == Concat(p.lines);
    }
  }

  /** When the first piece does not fit, the first closed line is the separator alone. */
  lemma {:induction false} PackFirstLine(segments: seq<string>, maxLength: int, sep: char)
    requires |segments| > 0 && |segments[0]| > maxLength
    ensures var p := Pack(segments, maxLength, sep);
            |p.lines| > 0 && p.lines[0] == [sep]
    decreases |segments|
  {
    PackLast(segments, maxLength, sep);
    var init := segments[..|segments| - 1];
    if |segments| == 1 {
      assert init == [];
      assert "" + [sep] == [sep];
    } else {
      assert init[0] == segments[0];
      PackFirstLine(init, maxLength, sep);
    }
  }

  /**
   * Whatever the rest of the text, a first piece longer than maxLength makes
   * the first line the separator alone.
   */
  lemma WrapLinesFirstLoneSeparator(text: string, maxLength: int, sep: char)
    requires |text| > 0
    requires |Split(text, sep)[0]| > maxLength
    ensures |WrapLines(text, maxLength, sep).value| > 0
    ensures WrapLines(text, maxLength, sep).value[0] == [sep]
  {
    PackFirstLine(Split(text, sep), maxLength, sep);
  }

  /**
   * When no piece is empty and every piece fits in maxLength, the lines
   * concatenated give back the text exactly: nothing is split or lost.
   */
  lemma WrapLinesRoundTrip(text: string, maxLength: int, sep: char)
    requires |text| > 0
    requires forall i :: 0 <= i < |Split(text, sep)| ==> 0 < |Split(text, sep)[i]| <= maxLength
    ensures Concat(WrapLines(text, maxLength, sep).value) == text
  {
    var segments := Split(text, sep);
    var p := Pack(segments, maxLength, sep);
    PackExact(segments, maxLength, sep);
    JoinSplit(text, sep);
    assert Concat(p.lines + [p.current]) == Concat(p.lines) + p.current;
  }

  /** A separator-free text is a single piece. */
  lemma SplitPiece(s: string, sep: char)
    requires sep !in s
    ensures Split(s, sep) == [s]
  {
    SplitExtend([], s, sep);
    assert [] + s == s && "" + s == s;
  }

  /**
   * Every closed line was closed only because the first piece of the line
   * after it would not fit: the line without its separator and that piece
   * together are longer than maxLength.
   */
  predicate Greedy(p: Packing, maxLength: int, sep: char)
  {
    var all := p.lines + [p.current];
    forall i :: 0 <= i < |p.lines| ==> |p.lines[i]| - 1 + |Split(all[i + 1], sep)[0]| > maxLength
  }

  /** Closing the open line keeps every line break justified. */
  lemma GreedyAfterBreak(p: Packing, segment: string, maxLength: int, sep: char)
    requires sep !in segment
    requires |p.lines| > 0 ==> |p.current| > 0
    requires |p.current| + |segment| > maxLength
    requires Greedy(p, maxLength, sep)
    ensures Greedy(Packing(p.lines + [p.current + [sep]], segment), maxLength, sep)
  {
    var q := Packing(p.lines + [p.current + [sep]], segment);
    var all := p.lines + [p.current];
    var all' := q.lines + [q.current];
    SplitPiece(segment, sep);
    SplitSeparator(p.current, sep);
    forall i | 0 <= i < |q.lines|
      ensures |q.lines[i]| - 1 + |Split(all'[i + 1], sep)[0]| > maxLength
    {
      if i < |p.lines| - 1 {
        assert q.lines[i] == p.lines[i] && all'[i + 1] == all[i + 1];
      } else if i == |p.lines| - 1 {
        assert q.lines[i] == p.lines[i] && all'[i + 1] == p.current + [sep] && all[i + 1] == p.current;
      } else {
        assert q.lines[i] == p.current + [sep] && all'[i + 1] == segment;
      }
    }
  }

  /** Extending a non-empty open line keeps every line break justified. */
  lemma GreedyAfterJoin(p: Packing, segment: string, maxLength: int, sep: char)
    requires sep !in segment
    requires |p.current| > 0
    requires Greedy(p, maxLength, sep)
    ensures Greedy(p.(current := p.current + [sep] + segment), maxLength, sep)
  {
    var q := p.(current := p.current + [sep] + segment);
    var all := p.lines + [p.current];
    var all' := q.lines + [q.current];
    SplitAfterSeparator(p.current, segment, sep);
    forall i | 0 <= i < |q.lines|
      ensures |q.lines[i]| - 1 + |Split(all'[i + 1], sep)[0]| > maxLength
    {
      if i < |p.lines| - 1 {
        assert all'[i + 1] == all[i + 1];
      } else {
        assert all'[i + 1] == q.current && all[i + 1] == p.current;
      }
    }
  }

  /** One turn keeps every line break justified. */
  lemma PackSegmentGreedy(p: Packing, segment: string, maxLength: int, sep: char)
    requires sep !in segment
    requires |p.lines| > 0 ==> |p.current| > 0
    requires Greedy(p, maxLength, sep)
    ensures Greedy(PackSegment(p, segment, maxLength, sep), maxLength, sep)
  {
    PackSegmentCases(p, segment, maxLength, sep);
    if Breaks(p, segment, maxLength) {
      GreedyAfterBreak(p, segment, maxLength, sep);
    } else if |p.current| > 0 {
      GreedyAfterJoin(p, segment, maxLength, sep);
    }
  }

  /** With non-empty pieces that fit, the packing breaks a line only when the next piece does not fit. */
  lemma {:induction false} PackGreedy(segments: seq<string>, maxLength: int, sep: char)
    requires forall i :: 0 <= i < |segments| ==> sep !in segments[i]
    requires forall i :: 0 <= i < |segments| ==> 0 < |segments[i]| <= maxLength
    ensures Greedy(Pack(segments, maxLength, sep), maxLength, sep)
    decreases |segments|
  {
    if |segments| > 0 {
      var init := segments[..|segments| - 1];
      var segment := segments[|segments| - 1];
      assert sep !in segment;
      PackGreedy(init, maxLength, sep);
      if |init| > 0 {
        PackExact(init, maxLength, sep);
      }
      PackSegmentGreedy(Pack(init, maxLength, sep), segment, maxLength, sep);
    }
  }

  /**
   * The packing is greedy: when every piece is non-empty and fits, a line
   * is closed only because the first piece of the next line would push it,
   * separator not counted, past maxLength.
   */
  lemma WrapLinesGreedy(text: string, maxLength: int, sep: char)
    requires |text| > 0
    requires forall i :: 0 <= i < |Split(text, sep)| ==> 0 < |Split(text, sep)[i]| <= maxLength
    ensures var lines := WrapLines(text, maxLength, sep).value;
            forall i :: 0 <= i < |lines| - 1 ==> |lines[i]| - 1 + |Split(lines[i + 1], sep)[0]| > maxLength
  {
    var segments := Split(text, sep);
    PackGreedy(segments, maxLength, sep);
    PackExact(segments, maxLength, sep);
    var p := Pack(segments, maxLength, sep);
    var lines := p.lines + [p.current];
    assert WrapLines(text, maxLength, sep).value == lines;
    forall i | 0 <= i < |lines| - 1
      ensures |lines[i]| - 1 + |Split(lines[i + 1], sep)[0]| > maxLength
    {
      assert lines[i] == p.lines[i];
    }
  }

  /**
   * A text of at most maxLength characters comes back as one line, without
   * the separators it starts with; a text made of separators only gives no line.
   */
  lemma WrapLinesShortText(text: string, maxLength: int, sep: char)
    requires 0 < |text| <= maxLength
    ensures var rest := DropLeading(text, sep);
            WrapLines(text, maxLength, sep) == Some(if rest == [] then [] else [rest])
  {
    JoinSplit(text, sep);
    PackShort(Split(text, sep), maxLength, sep);
    var rest := DropLeading(text, sep);
    assert Pack(Split(text, sep), maxLength, sep) == Packing([], rest);
    assert [] + [rest] == [rest];
  }

  /** "ab.c.d" splits into "ab", "c" and "d". */
  lemma SplitOverlongExample()
    ensures Split("ab.c.d", '.') == ["ab", "c", "d"]
  {
    var segments := ["ab", "c", "d"];
    assert segments[..2] == ["ab", "c"];
    assert segments[..2][..1] == ["ab"];
    assert Join(segments, '.') == "ab.c.d";
    SplitJoin(segments, '.');
  }

  /** At width 3, "ab" and "c" share a line, which "d" then closes. */
  lemma PackOverlongExample()
    ensures Pack(["ab", "c", "d"], 3, '.') == Packing(["ab.c."], "d")
  {
    var segments := ["ab", "c", "d"];
    assert segments[..2][..1] == segments[..1] == ["ab"];
    assert segments[..2] == ["ab", "c"];
    assert segments[..1][..0] == [];
    var p0 := Packing([], "");
    PackSegmentCases(p0, "ab", 3, '.');
    var p1 := Packing([], "ab");
    assert Pack(segments[..1], 3, '.') == p1;
    PackSegmentCases(p1, "c", 3, '.');
    var p2 := Packing([], "ab.c");
    assert "ab" + ['.'] + "c" == "ab.c";
    assert Pack(segments[..2], 3, '.') == p2;
    PackSegmentCases(p2, "d", 3, '.');
    assert "ab.c" + ['.'] == "ab.c.";
  }

  /** A line reaches maxLength + 2 characters: "ab" and "c" are packed at width 3. */
  lemma WrapLinesOverlongLine()
    ensures WrapLines("ab.c.d", 3, '.') == Some(["ab.c.", "d"])
  {
    SplitOverlongExample();
    PackOverlongExample();
    assert ["ab.c."] + ["d"] == ["ab.c.", "d"];
  }

  /** At width 2, "abc" forces a separator-only line, and the empty piece closes "abc". */
  lemma PackLoneSeparatorExample()
    ensures Pack(["abc", "", "d"], 2, '.') == Packing([".", "abc."], "d")
  {
    var segments := ["abc", "", "d"];
    assert segments[..2][..1] == segments[..1] == ["abc"];
    assert segments[..2] == ["abc", ""];
    assert segments[..1][..0] == [];
    var p0 := Packing([], "");
    PackSegmentCases(p0, "abc", 2, '.');
    assert "" + ['.'] == ".";
    var p1 := Packing(["."], "abc");
    assert Pack(segments[..1], 2, '.') == p1;
    PackSegmentCases(p1, "", 2, '.');
    assert "abc" + ['.'] == "abc.";
    var p2 := Packing([".", "abc."], "");
    assert Pack(segments[..2], 2, '.') == p2;
    PackSegmentCases(p2, "d", 2, '.');
  }

  /**
   * A first piece longer than maxLength yields a line that is only the
   * separator; an empty piece after a break drops its separator.
   */
  lemma WrapLinesLoneSeparator()
    ensures WrapLines("abc..d", 2, '.') == Some([".", "abc.", "d"])
  {
    var segments := ["abc", "", "d"];
    assert segments[..2] == ["abc", ""];
    assert segments[..2][..1] == ["abc"];
    assert Join(segments, '.') == "abc..d";
    SplitJoin(segments, '.');
    PackLoneSeparatorExample();
    assert [".", "abc."] + ["d"] == [".", "abc.", "d"];
  }
}
