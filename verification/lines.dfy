/**
 * The line filter used for both input files: the file is split into lines the
 * way a line-oriented scanner does, every line is stripped of surrounding
 * white space, and blank lines are dropped, keeping the order of the rest.
 */
module Lines {
  import opened Errors

  /** White space as Go's unicode.IsSpace defines it. */
  predicate IsSpace(c: char) {
    || c == '\t' || c == '\n' || c == '\U{000B}' || c == '\U{000C}' || c == '\r' || c == ' '
    || c == '\U{0085}' || c == '\U{00A0}' || c == '\U{1680}'
    || ('\U{2000}' <= c <= '\U{200A}')
    || c == '\U{2028}' || c == '\U{2029}' || c == '\U{202F}' || c == '\U{205F}' || c == '\U{3000}'
  }

  predicate AllSpace(s: string) {
    forall k :: 0 <= k < |s| ==> IsSpace(s[k])
  }

  /** Neither starts nor ends with white space. */
  predicate IsTrimmed(s: string) {
    |s| == 0 || (!IsSpace(s[0]) && !IsSpace(s[|s| - 1]))
  }

  /** Removes leading white space: what is left is a suffix of `s`. */
  function TrimLeft(s: string): (r: string)
    ensures |r| <= |s| && r == s[|s| - |r|..]
    ensures AllSpace(s[..|s| - |r|])
    ensures |r| > 0 ==> !IsSpace(r[0])
    decreases |s|
  {
    if |s| > 0 && IsSpace(s[0]) then TrimLeft(s[1..]) else s
  }

  /** Removes trailing white space: what is left is a prefix of `s`. */
  function TrimRight(s: string): (r: string)
    ensures |r| <= |s| && r == s[..|r|]
    ensures AllSpace(s[|r|..])
    ensures |r| > 0 ==> !IsSpace(r[|r| - 1])
    decreases |s|
  {
    if |s| > 0 && IsSpace(s[|s| - 1]) then TrimRight(s[..|s| - 1]) else s
  }

  /** strings.TrimSpace: the infix of `s` left after cutting white space at both ends. */
  function TrimSpace(s: string): (r: string)
    ensures IsTrimmed(r)
    ensures IsTrimmed(s) ==> r == s
  {
    TrimRight(TrimLeft(s))
  }

  /** TrimSpace cuts only white space, and only at the two ends. */
  lemma TrimSpaceInfix(s: string)
    ensures exists i, j :: 0 <= i <= j <= |s| && TrimSpace(s) == s[i..j] && AllSpace(s[..i]) && AllSpace(s[j..])
  {
    var l := TrimLeft(s);
    var r := TrimRight(l);
    var i := |s| - |l|;
    assert s[i..i + |r|] == r;
    assert s[i + |r|..] == l[|r|..];
  }

  /** TrimSpace introduces no character that was not in its input. */
  lemma TrimSpaceChars(s: string)
    ensures forall c :: c in TrimSpace(s) ==> c in s
  {
    TrimSpaceInfix(s);
  }

  /** A trailing carriage return is not part of a scanned line. */
  function DropCR(s: string): string {
    if |s| > 0 && s[|s| - 1] == '\r' then s[..|s| - 1] else s
  }

  /** Position of the first line feed in `s`, or |s| when there is none. */
  function LineEnd(s: string): (i: nat)
    ensures i <= |s|
    ensures forall k :: 0 <= k < i ==> s[k] != '\n'
    ensures i < |s| ==> s[i] == '\n'
    decreases |s|
  {
    if |s| == 0 || s[0] == '\n' then 0 else 1 + LineEnd(s[1..])
  }

  /**
   * The lines a bufio.Scanner with its default split function yields: the
   * text is cut at every line feed, a final line without a line feed still
   * counts unless it is empty, and a carriage return before the line feed is
   * dropped.
   */
  function ScanLines(text: string): (lines: seq<string>)
    ensures forall k :: 0 <= k < |lines| ==> '\n' !in lines[k]
    decreases |text|
  {
    if |text| == 0 then []
    else
      var i := LineEnd(text);
      if i == |text| then [DropCR(text)]
      else [DropCR(text[..i])] + ScanLines(text[i + 1..])
  }

  /** Writes lines back as text, each one terminated by a line feed. */
  function JoinLines(lines: seq<string>): string {
    if |lines| == 0 then "" else lines[0] + "\n" + JoinLines(lines[1..])
  }

  /** Every scanned line with white space cut at both ends, as readFile's loop does first. */
  function TrimAll(lines: seq<string>): (trimmed: seq<string>)
    ensures |trimmed| == |lines|
    ensures forall k :: 0 <= k < |lines| ==> trimmed[k] == TrimSpace(lines[k])
    ensures forall k :: 0 <= k < |trimmed| ==> IsTrimmed(trimmed[k])
  {
    seq(|lines|, k requires 0 <= k < |lines| => TrimSpace(lines[k]))
  }

  /** Trimming adds no line feed to lines that had none. */
  lemma TrimAllNoNewline(lines: seq<string>)
    requires forall k :: 0 <= k < |lines| ==> '\n' !in lines[k]
    ensures forall k :: 0 <= k < |lines| ==> '\n' !in TrimAll(lines)[k]
  {
    forall k | 0 <= k < |lines|
      ensures '\n' !in TrimAll(lines)[k]
    {
      TrimSpaceChars(lines[k]);
    }
  }

  /** A line that is not blank, the test readFile applies after trimming. */
  predicate NonBlank(line: string) {
    line != ""
  }

  /** The elements of `xs` that pass `keep`, in their order. */
  function Filter<T>(xs: seq<T>, keep: T -> bool): (kept: seq<T>)
    ensures |kept| <= |xs|
    ensures forall k :: 0 <= k < |kept| ==> keep(kept[k])
    decreases |xs|
  {
    if |xs| == 0 then []
    else
      var rest := Filter(xs[..|xs| - 1], keep);
      if keep(xs[|xs| - 1]) then rest + [xs[|xs| - 1]] else rest
  }

  /** Whatever holds of every element still holds of every element Filter keeps. */
  lemma {:induction false} FilterPreserves<T>(xs: seq<T>, keep: T -> bool, holds: T -> bool)
    requires forall k :: 0 <= k < |xs| ==> holds(xs[k])
    ensures forall k :: 0 <= k < |Filter(xs, keep)| ==> holds(Filter(xs, keep)[k])
    decreases |xs|
  {
    if |xs| > 0 {
      var n := |xs| - 1;
      FilterPreserves(xs[..n], keep, holds);
    }
  }

  /** A line without a line feed. */
  predicate NoNewline(line: string) {
    '\n' !in line
  }

  /** The loop of readFile: trim each scanned line and keep the non-blank ones. */
  function KeepLines(lines: seq<string>): (kept: seq<string>)
    ensures |kept| <= |lines|
    ensures forall k :: 0 <= k < |kept| ==> kept[k] != "" && IsTrimmed(kept[k])
  {
    FilterPreserves(TrimAll(lines), NonBlank, IsTrimmed);
    Filter(TrimAll(lines), NonBlank)
  }

  /** How reading a file can go. */
  datatype File =
    | Unopenable          // os.Open failed
    | ScanFailed          // the scanner stopped with an error
    | Contents(text: string)

  /** readFile: the trimmed, non-blank lines of a file, in file order. */
  function ReadFile(f: File): (r: Option<seq<string>>)
    ensures r.None? <==> !f.Contents?
    ensures r.Some? ==> forall k :: 0 <= k < |r.value| ==>
      r.value[k] != "" && IsTrimmed(r.value[k]) && '\n' !in r.value[k]
  {
    match f
    case Unopenable => None
    case ScanFailed => None
    case Contents(text) =>
      TrimAllNoNewline(ScanLines(text));
      FilterPreserves(TrimAll(ScanLines(text)), NonBlank, NoNewline);
      Some(KeepLines(ScanLines(text)))
  }

  /** Strictly increasing positions. */
  predicate Increasing(from: seq<int>) {
    forall j, j' :: 0 <= j < j' < |from| ==> from[j] < from[j']
  }

  /** `kept` lists the elements of `xs` at the positions `from`. */
  ghost predicate Picks<T>(xs: seq<T>, kept: seq<T>, from: seq<int>) {
    && |from| == |kept|
    && (forall j :: 0 <= j < |from| ==> 0 <= from[j] < |xs| && kept[j] == xs[from[j]])
  }
  /** Every position of an element that passes `keep` is among `from`. */
  ghost predicate Covers<T>(xs: seq<T>, keep: T -> bool, from: seq<int>) {
    forall k :: 0 <= k < |xs| && keep(xs[k]) ==> k in from
  }
  /**
   * `kept` lists the elements of `xs` at strictly increasing positions, and
   * every element that passes `keep` is among them.
   */
  ghost predicate Selects<T>(xs: seq<T>, keep: T -> bool, kept: seq<T>, from: seq<int>) {
    Picks(xs, kept, from) && Increasing(from) && Covers(xs, keep, from)
  }

  lemma SkipPicks<T>(xs: seq<T>, keep: T -> bool, from: seq<int>)
    requires |xs| > 0 && !keep(xs[|xs| - 1])
    requires Picks(xs[..|xs| - 1], Filter(xs[..|xs| - 1], keep), from)
    ensures Picks(xs, Filter(xs, keep), from)
  {
    var n := |xs| - 1;
    forall j | 0 <= j < |from|
      ensures 0 <= from[j] < |xs| && Filter(xs, keep)[j] == xs[from[j]]
    {
      assert xs[..n][from[j]] == xs[from[j]];
    }
  }

  lemma SkipCovers<T>(xs: seq<T>, keep: T -> bool, from: seq<int>)
    requires |xs| > 0 && !keep(xs[|xs| - 1])
    requires Covers(xs[..|xs| - 1], keep, from)
    ensures Covers(xs, keep, from)
  {
    var n := |xs| - 1;
    forall k | 0 <= k < |xs| && keep(xs[k])
      ensures k in from
    {
      assert xs[..n][k] == xs[k];
    }
  }

  lemma KeepPicks<T>(xs: seq<T>, keep: T -> bool, from: seq<int>)
    requires |xs| > 0 && keep(xs[|xs| - 1])
    requires Picks(xs[..|xs| - 1], Filter(xs[..|xs| - 1], keep), from)
    ensures Picks(xs, Filter(xs, keep), from + [|xs| - 1])
  {
    var n := |xs| - 1;
    assert Filter(xs, keep) == Filter(xs[..n], keep) + [xs[n]];
    PicksSnoc(xs, Filter(xs[..n], keep), from);
  }

  /** Picking the last element as well extends a selection from the others. */
  lemma PicksSnoc<T>(xs: seq<T>, rest: seq<T>, from: seq<int>)
    requires |xs| > 0 && Picks(xs[..|xs| - 1], rest, from)
    ensures Picks(xs, rest + [xs[|xs| - 1]], from + [|xs| - 1])
  {
    var n := |xs| - 1;
    var kept := rest + [xs[n]];
    var from' := from + [n];
    forall j | 0 <= j < |from'|
      ensures 0 <= from'[j] < |xs| && kept[j] == xs[from'[j]]
    {
      if j < |from| {
        assert from'[j] == from[j] && kept[j] == rest[j];
        assert xs[..n][from[j]] == xs[from[j]];
      } else {
        assert from'[j] == n && kept[j] == xs[n];
      }
    }
  }

  lemma KeepCovers<T>(xs: seq<T>, keep: T -> bool, from: seq<int>)
    requires |xs| > 0
    requires Covers(xs[..|xs| - 1], keep, from)
    ensures Covers(xs, keep, from + [|xs| - 1])
  {
    var n := |xs| - 1;
    forall k | 0 <= k < |xs| && keep(xs[k])
      ensures k in from + [n]
    {
      if k < n {
        assert xs[..n][k] == xs[k];
        assert k in from;
      }
    }
  }

  lemma KeepIncreasing(from: seq<int>, n: int)
    requires Increasing(from)
    requires forall j :: 0 <= j < |from| ==> from[j] < n
    ensures Increasing(from + [n])
  {
  }
  /** Filter keeps exactly the elements that pass, in their order. */
  lemma {:induction false} FilterSelects<T>(xs: seq<T>, keep: T -> bool)
    ensures exists from :: Selects(xs, keep, Filter(xs, keep), from)
    decreases |xs|
  {
    if |xs| == 0 {
      assert Selects(xs, keep, Filter(xs, keep), []);
    } else {
      var n := |xs| - 1;
      FilterSelects(xs[..n], keep);
      var from :| Selects(xs[..n], keep, Filter(xs[..n], keep), from);
      if keep(xs[n]) {
        KeepPicks(xs, keep, from);
        KeepCovers(xs, keep, from);
        KeepIncreasing(from, n);
        assert Selects(xs, keep, Filter(xs, keep), from + [n]);
      } else {
        SkipPicks(xs, keep, from);
        SkipCovers(xs, keep, from);
        assert Selects(xs, keep, Filter(xs, keep), from);
      }
    }
  }

  /**
   * readFile keeps exactly the lines whose trimmed form is non-blank, trimmed,
   * in the order of the file.
   */
  lemma ReadFileSelects(text: string)
    ensures exists from :: Selects(TrimAll(ScanLines(text)), NonBlank, ReadFile(Contents(text)).value, from)
  {
    assert ReadFile(Contents(text)).value == Filter(TrimAll(ScanLines(text)), NonBlank);
    FilterSelects(TrimAll(ScanLines(text)), NonBlank);
  }

  /** Lines that are already trimmed and non-blank pass the filter unchanged. */
  lemma {:induction false} FilterOfKept<T>(xs: seq<T>, keep: T -> bool)
    requires forall k :: 0 <= k < |xs| ==> keep(xs[k])
    ensures Filter(xs, keep) == xs
    decreases |xs|
  {
    if |xs| > 0 {
      var n := |xs| - 1;
      FilterOfKept(xs[..n], keep);
      assert xs[..n] + [xs[n]] == xs;
    }
  }

  lemma KeepLinesOfKept(lines: seq<string>)
    requires forall k :: 0 <= k < |lines| ==> lines[k] != "" && IsTrimmed(lines[k])
    ensures KeepLines(lines) == lines
  {
    assert TrimAll(lines) == lines;
    FilterOfKept(lines, NonBlank);
  }

  /** The first line feed is found where no earlier character is one. */
  lemma LineEndAt(s: string, i: nat)
    requires i < |s| && s[i] == '\n'
    requires forall k :: 0 <= k < i ==> s[k] != '\n'
    ensures LineEnd(s) == i
  {
  }

  /** Scanning text written by JoinLines gives back the lines written. */
  lemma {:induction false} ScanJoinLines(lines: seq<string>)
    requires forall k :: 0 <= k < |lines| ==> '\n' !in lines[k] && DropCR(lines[k]) == lines[k]
    ensures ScanLines(JoinLines(lines)) == lines
    decreases |lines|
  {
    if |lines| > 0 {
      var x := lines[0];
      var rest := JoinLines(lines[1..]);
      var text := x + "\n" + rest;
      assert JoinLines(lines) == text;
      LineEndAt(text, |x|);
      assert text[..|x|] == x;
      assert text[|x| + 1..] == rest;
      ScanJoinLines(lines[1..]);
    }
  }

  /** Each line with a trailing carriage return dropped. */
  function MapDropCR(lines: seq<string>): (r: seq<string>)
    ensures |r| == |lines|
  {
    seq(|lines|, k requires 0 <= k < |lines| => DropCR(lines[k]))
  }

  lemma MapDropCRCons(lines: seq<string>)
    requires |lines| > 0
    ensures MapDropCR(lines) == [DropCR(lines[0])] + MapDropCR(lines[1..])
  {
  }

  /** Text without a line feed is one line, ending at the end of the text. */
  lemma NoLineFeed(s: string)
    requires '\n' !in s
    ensures LineEnd(s) == |s|
  {
  }

  /** A line-feed-terminated first line is scanned on its own, before the rest. */
  lemma ScanLineStep(x: string, rest: string)
    requires '\n' !in x
    ensures ScanLines(x + "\n" + rest) == [DropCR(x)] + ScanLines(rest)
  {
    var text := x + "\n" + rest;
    LineEndAt(text, |x|);
    assert text[..|x|] == x;
    assert text[|x| + 1..] == rest;
  }

  /**
   * Scanning any text: every line-feed-terminated piece is one line with a
   * carriage return before the line feed dropped, and an unterminated last
   * piece is one more line unless it is empty.
   */
  lemma {:induction false} ScanLinesSplit(pieces: seq<string>, last: string)
    requires forall k :: 0 <= k < |pieces| ==> '\n' !in pieces[k]
    requires '\n' !in last
    ensures ScanLines(JoinLines(pieces) + last) ==
      MapDropCR(pieces) + (if last == "" then [] else [DropCR(last)])
    decreases |pieces|
  {
    if |pieces| == 0 {
      assert JoinLines(pieces) + last == last;
      if last != "" {
        NoLineFeed(last);
      }
    } else {
      var x, tail := pieces[0], pieces[1..];
      var rest := JoinLines(tail) + last;
      var final := if last == "" then [] else [DropCR(last)];
      calc {
        ScanLines(JoinLines(pieces) + last);
      == { assert JoinLines(pieces) + last == x + "\n" + rest; }
        ScanLines(x + "\n" + rest);
      == { ScanLineStep(x, rest); }
        [DropCR(x)] + ScanLines(rest);
      == { ScanLinesSplit(tail, last); }
        [DropCR(x)] + (MapDropCR(tail) + final);
      == { MapDropCRCons(pieces); }
        MapDropCR(pieces) + final;
      }
    }
  }

  /** A message or token list written back to a file reads back unchanged. */
  lemma ReadFileRoundTrip(lines: seq<string>)
    requires forall k :: 0 <= k < |lines| ==> lines[k] != "" && IsTrimmed(lines[k]) && '\n' !in lines[k]
    ensures ReadFile(Contents(JoinLines(lines))) == Some(lines)
  {
    ScanJoinLines(lines);
    KeepLinesOfKept(lines);
  }

  /** Reading a file, writing its lines back and reading again changes nothing. */
  lemma ReadFileIdempotent(text: string)
    ensures ReadFile(Contents(JoinLines(ReadFile(Contents(text)).value))) == ReadFile(Contents(text))
  {
    ReadFileRoundTrip(ReadFile(Contents(text)).value);
  }
}
