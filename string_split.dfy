/**
 * The .NET string operations the wrapping code rests on: `String.Split(char)`,
 * which keeps empty pieces, and its inverse, joining pieces with the separator.
 */
module StringSplit {

  /** Number of occurrences of `c` in `s`. */
  function Occurrences(s: string, c: char): nat
    decreases |s|
  {
    if |s| == 0 then 0
    else Occurrences(s[..|s| - 1], c) + (if s[|s| - 1] == c then 1 else 0)
  }

  /**
   * The pieces of `s` between occurrences of `sep`, in order, empty pieces
   * included: there is always one piece more than there are separators.
   */
  function Split(s: string, sep: char): (parts: seq<string>)
    ensures |parts| == Occurrences(s, sep) + 1
    ensures forall i :: 0 <= i < |parts| ==> sep !in parts[i]
    decreases |s|
  {
    if |s| == 0 then [""]
    else
      var init := Split(s[..|s| - 1], sep);
      var last := s[|s| - 1];
      if last == sep then init + [""]
      else init[..|init| - 1] + [init[|init| - 1] + [last]]
  }

  /** The pieces glued together with one `sep` between neighbours. */
  function Join(parts: seq<string>, sep: char): string
    requires |parts| >= 1
    decreases |parts|
  {
    if |parts| == 1 then parts[0]
    else Join(parts[..|parts| - 1], sep) + [sep] + parts[|parts| - 1]
  }

  /** The strings of `lines` concatenated with nothing in between. */
  function Concat(lines: seq<string>): string
    decreases |lines|
  {
    if |lines| == 0 then []
    else Concat(lines[..|lines| - 1]) + lines[|lines| - 1]
  }

  /** `s` with every occurrence of `c` taken out. */
  function RemoveAll(s: string, c: char): string
    decreases |s|
  {
    if |s| == 0 then []
    else RemoveAll(s[..|s| - 1], c) + (if s[|s| - 1] == c then [] else [s[|s| - 1]])
  }

  /** `s` without the run of `c` it starts with. */
  function DropLeading(s: string, c: char): (r: string)
    ensures |r| <= |s|
    decreases |s|
  {
    if |s| > 0 && s[0] == c then DropLeading(s[1..], c) else s
  }

  /** The non-empty strings of `parts`, in order. */
  function NonEmptyPieces(parts: seq<string>): (r: seq<string>)
    ensures forall i :: 0 <= i < |r| ==> |r[i]| > 0
    decreases |parts|
  {
    if |parts| == 0 then []
    else NonEmptyPieces(parts[..|parts| - 1]) + (if |parts[|parts| - 1]| > 0 then [parts[|parts| - 1]] else [])
  }

  /** Keeping the non-empty strings distributes over concatenation. */
  lemma {:induction false} NonEmptyPiecesAppend(a: seq<string>, b: seq<string>)
    ensures NonEmptyPieces(a + b) == NonEmptyPieces(a) + NonEmptyPieces(b)
    decreases |b|
  {
    if |b| == 0 {
      assert a + b == a;
    } else {
      var b' := b[..|b| - 1];
      NonEmptyPiecesAppend(a, b');
      assert (a + b)[..|a + b| - 1] == a + b';
    }
  }

  /** Joining what `Split` cut gives back the original string. */
  lemma {:induction false} JoinSplit(s: string, sep: char)
    ensures Join(Split(s, sep), sep) == s
    decreases |s|
  {
    if |s| > 0 {
      var init := Split(s[..|s| - 1], sep);
      JoinSplit(s[..|s| - 1], sep);
      if s[|s| - 1] != sep && |init| > 1 {
        var parts := Split(s, sep);
        assert parts[..|parts| - 1] == init[..|init| - 1];
      }
    }
  }

  /** One more character other than `sep` extends the last piece. */
  lemma SplitSnoc(s: string, x: char, sep: char)
    requires x != sep
    ensures var ss := Split(s, sep);
            Split(s + [x], sep) == ss[..|ss| - 1] + [ss[|ss| - 1] + [x]]
  {
    assert (s + [x])[..|s + [x]| - 1] == s;
  }

  /** A trailing separator opens a new, empty piece. */
  lemma SplitSeparator(s: string, sep: char)
    ensures Split(s + [sep], sep) == Split(s, sep) + [""]
  {
    assert (s + [sep])[..|s + [sep]| - 1] == s;
  }

  /** Appending text free of `sep` only lengthens the last piece. */
  lemma {:induction false} SplitExtend(a: string, b: string, sep: char)
    requires sep !in b
    ensures var sa := Split(a, sep);
            Split(a + b, sep) == sa[..|sa| - 1] + [sa[|sa| - 1] + b]
    decreases |b|
  {
    var sa := Split(a, sep);
    var head, tail := sa[..|sa| - 1], sa[|sa| - 1];
    if |b| == 0 {
      assert a + b == a && tail + b == tail;
      assert head + [tail] == sa;
    } else {
      var b', x := b[..|b| - 1], b[|b| - 1];
      assert x != sep by { assert x in b; }
      assert b == b' + [x];
      var ab' := a + b';
      assert a + b == ab' + [x];
      var init := Split(ab', sep);
      SplitExtend(a, b', sep);
      SplitSnoc(ab', x, sep);
      assert init[..|init| - 1] == head && init[|init| - 1] == tail + b';
      assert (tail + b') + [x] == tail + b;
    }
  }

  /** A separator followed by separator-free text adds that text as the last piece. */
  lemma SplitAfterSeparator(s: string, last: string, sep: char)
    requires sep !in last
    ensures Split(s + [sep] + last, sep) == Split(s, sep) + [last]
  {
    var parts := Split(s, sep);
    SplitSeparator(s, sep);
    SplitExtend(s + [sep], last, sep);
    assert (parts + [""])[..|parts|] == parts;
    assert "" + last == last;
  }

  /** Splitting the join of separator-free pieces gives back the pieces. */
  lemma {:induction false} SplitJoin(parts: seq<string>, sep: char)
    requires |parts| >= 1
    requires forall i :: 0 <= i < |parts| ==> sep !in parts[i]
    ensures Split(Join(parts, sep), sep) == parts
    decreases |parts|
  {
    if |parts| == 1 {
      SplitExtend([], parts[0], sep);
      assert [] + parts[0] == parts[0];
    } else {
      var init := parts[..|parts| - 1];
      var last := parts[|parts| - 1];
      assert parts == init + [last];
      assert sep !in last;
      SplitJoin(init, sep);
      SplitAfterSeparator(Join(init, sep), last, sep);
    }
  }

  /** Removing a character distributes over concatenation. */
  lemma {:induction false} RemoveAllAppend(a: string, b: string, c: char)
    ensures RemoveAll(a + b, c) == RemoveAll(a, c) + RemoveAll(b, c)
    decreases |b|
  {
    if |b| == 0 {
      assert a + b == a;
    } else {
      RemoveAllAppend(a, b[..|b| - 1], c);
      assert (a + b)[..|a + b| - 1] == a + b[..|b| - 1];
    }
  }

  /** Removing a character that does not occur changes nothing. */
  lemma {:induction false} RemoveAllAbsent(s: string, c: char)
    requires c !in s
    ensures RemoveAll(s, c) == s
    decreases |s|
  {
    if |s| > 0 {
      RemoveAllAbsent(s[..|s| - 1], c);
    }
  }

  /** Deleting the separators of a join leaves the pieces back to back. */
  lemma {:induction false} RemoveAllJoin(parts: seq<string>, sep: char)
    requires |parts| >= 1
    requires forall i :: 0 <= i < |parts| ==> sep !in parts[i]
    ensures RemoveAll(Join(parts, sep), sep) == Concat(parts)
    decreases |parts|
  {
    var last := parts[|parts| - 1];
    RemoveAllAbsent(last, sep);
    if |parts| == 1 {
      assert Concat(parts) == Concat([]) + last;
    } else {
      var init := parts[..|parts| - 1];
      RemoveAllJoin(init, sep);
      RemoveAllAppend(Join(init, sep) + [sep], last, sep);
      RemoveAllAppend(Join(init, sep), [sep], sep);
      assert RemoveAll([sep], sep) == [] by {
        assert [sep][..0] == [];
      }
    }
  }

  /** Dropping a leading run from `a + b` eats into `b` only when `a` is all `c`. */
  lemma {:induction false} DropLeadingAppend(a: string, b: string, c: char)
    ensures DropLeading(a + b, c) ==
            if DropLeading(a, c) == [] then DropLeading(b, c) else DropLeading(a, c) + b
    decreases |a|
  {
    if |a| == 0 {
      assert a + b == b;
    } else if a[0] == c {
      DropLeadingAppend(a[1..], b, c);
      assert (a + b)[1..] == a[1..] + b;
    } else {
      assert (a + b)[0] == a[0];
    }
  }
}
