/**
 The fence segmenter of the MDX cleaner, scripts/kb-mdx.ts lines 16-58.

 A text splits into groups of lines, prose and fenced code in turn. `WellSegmented` says what
 a right segmentation is, without saying how to find it; there is exactly one for each text,
 and the loop of `splitFences` finds it.
 */
module MdxFences {
  import opened Wrappers
  import opened Text

  // ---- lines -----------------------------------------------------------------------

  function SplitLines(s: string): (lines: seq<string>)
    ensures |lines| >= 1
  {
    if s == "" then [""]
    else
      var rest := SplitLines(s[1..]);
      if s[0] == '\n' then [""] + rest else [[s[0]] + rest[0]] + rest[1..]
  }

  function JoinLines(lines: seq<string>): string {
    if lines == [] then ""
    else if |lines| == 1 then lines[0]
    else lines[0] + "\n" + JoinLines(lines[1..])
  }

  ghost predicate AreLines(lines: seq<string>) {
    forall k :: 0 <= k < |lines| ==> '\n' !in lines[k]
  }

  lemma {:induction false} SplitYieldsLines(s: string)
    ensures AreLines(SplitLines(s))
  {
    if s == "" {
    } else {
      SplitYieldsLines(s[1..]);
    }
  }

  lemma {:induction false} JoinInvertsSplit(s: string)
    ensures JoinLines(SplitLines(s)) == s
  {
    if s == "" {
    } else {
      var rest := SplitLines(s[1..]);
      JoinInvertsSplit(s[1..]);
      assert s == [s[0]] + s[1..];
      if s[0] == '\n' {
        assert SplitLines(s)[1..] == rest;
        assert "" + "\n" + s[1..] == s;
      } else if |rest| > 1 {
        assert SplitLines(s)[1..] == rest[1..];
        assert [s[0]] + (rest[0] + "\n" + JoinLines(rest[1..])) == [s[0]] + rest[0] + "\n" + JoinLines(rest[1..]);
      }
    }
  }

  lemma {:induction false} SplitTakesLine(line: string, rest: string)
    requires '\n' !in line
    ensures SplitLines(line + "\n" + rest) == [line] + SplitLines(rest)
    ensures SplitLines(line) == [line]
  {
    var s := line + "\n" + rest;
    if line == "" {
      assert s[1..] == rest;
    } else {
      SplitTakesLine(line[1..], rest);
      assert s[1..] == line[1..] + "\n" + rest;
      assert [line[0]] + line[1..] == line;
    }
  }

  lemma {:induction false} SplitInvertsJoin(lines: seq<string>)
    requires lines != [] && AreLines(lines)
    ensures SplitLines(JoinLines(lines)) == lines
  {
    if |lines| == 1 {
      SplitTakesLine(lines[0], "");
    } else {
      SplitTakesLine(lines[0], JoinLines(lines[1..]));
      SplitInvertsJoin(lines[1..]);
    }
  }

  lemma {:induction false} JoinConcat(a: seq<string>, b: seq<string>)
    requires a != [] && b != []
    ensures JoinLines(a + b) == JoinLines(a) + "\n" + JoinLines(b)
  {
    assert (a + b)[1..] == a[1..] + b;
    if |a| > 1 {
      JoinConcat(a[1..], b);
    } else {
      assert a[1..] + b == b;
    }
  }

  // ---- fence lines -----------------------------------------------------------------

  predicate IsFenceChar(c: char) {
    c == '`' || c == '~'
  }

  function RunLength(s: string, c: char): (n: nat)
    ensures n <= |s|
  {
    if s != "" && s[0] == c then 1 + RunLength(s[1..], c) else 0
  }

  /** The run of three or more backticks or tildes an indented line opens with, or nothing. */
  function Marker(line: string): string {
    var t := TrimStart(line);
    if t != "" && IsFenceChar(t[0]) && RunLength(t, t[0]) >= 3 then t[..RunLength(t, t[0])] else ""
  }

  predicate FenceCharsOnly(line: string) {
    var t := Trim(line);
    t != "" && forall i :: 0 <= i < |t| ==> IsFenceChar(t[i])
  }

  /** A line with what the fence rules look at: its marker, and whether it holds fence characters only. */
  datatype Line = Line(text: string, marker: string, bare: bool)

  function Read(text: string): Line {
    Line(text, Marker(text), FenceCharsOnly(text))
  }

  function ReadAll(texts: seq<string>): (lines: seq<Line>)
    ensures |lines| == |texts|
  {
    seq(|texts|, k requires 0 <= k < |texts| => Read(texts[k]))
  }

  function Texts(lines: seq<Line>): (texts: seq<string>)
    ensures |texts| == |lines|
  {
    seq(|lines|, k requires 0 <= k < |lines| => lines[k].text)
  }

  /** Whether `line` closes a fence that `marker` opened; the two characters may mix after the marker. */
  predicate Closes(marker: string, line: Line) {
    && marker != "" && line.marker != ""
    && line.marker[0] == marker[0]
    && |line.marker| >= |marker|
    && line.bare
  }

  // ---- what a segmentation is ------------------------------------------------------

  datatype Group = Group(code: bool, lines: seq<Line>)

  function Flatten(groups: seq<Group>): seq<Line> {
    if groups == [] then [] else groups[0].lines + Flatten(groups[1..])
  }

  ghost predicate IsProse(lines: seq<Line>) {
    forall k :: 0 <= k < |lines| ==> lines[k].marker == ""
  }

  /** An opening line, then lines of which only the last may close it. */
  ghost predicate IsFenced(lines: seq<Line>) {
    && lines != [] && lines[0].marker != ""
    && forall k :: 0 < k < |lines| - 1 ==> !Closes(lines[0].marker, lines[k])
  }

  ghost predicate IsClosed(lines: seq<Line>) {
    IsFenced(lines) && |lines| > 1 && Closes(lines[0].marker, lines[|lines| - 1])
  }

  /** One group; only the last of a text may be code whose fence is never closed. */
  ghost predicate IsGroup(g: Group, last: bool) {
    && g.lines != []
    && if g.code then (if last then IsFenced(g.lines) else IsClosed(g.lines)) else IsProse(g.lines)
  }

  /** Prose without fences and code from its opening line to the first that closes it, in turn. */
  ghost predicate WellSegmented(groups: seq<Group>) {
    && (forall k :: 0 <= k < |groups| ==> IsGroup(groups[k], k == |groups| - 1))
    && (forall k :: 0 <= k < |groups| - 1 ==> groups[k].code || groups[k + 1].code)
  }

  // ---- there is only one -----------------------------------------------------------

  lemma TailIsWellSegmented(groups: seq<Group>)
    requires WellSegmented(groups) && groups != []
    ensures WellSegmented(groups[1..])
  {
    var tail := groups[1..];
    forall k | 0 <= k < |tail| ensures IsGroup(tail[k], k == |tail| - 1) {
      assert tail[k] == groups[k + 1] && IsGroup(groups[k + 1], k + 1 == |groups| - 1);
    }
    forall k | 0 <= k < |tail| - 1 ensures tail[k].code || tail[k + 1].code {
      assert tail[k] == groups[k + 1] && tail[k + 1] == groups[k + 1 + 1];
      assert groups[k + 1].code || groups[k + 1 + 1].code;
    }
  }

  lemma FlattenIsEmpty(groups: seq<Group>)
    requires WellSegmented(groups)
    ensures Flatten(groups) == [] <==> groups == []
  {
    if groups != [] {
      assert IsGroup(groups[0], 0 == |groups| - 1);
    }
  }

  /** Where the first of several groups ends: at a closing line, or before an opening one. */
  lemma FirstBoundary(groups: seq<Group>)
    requires WellSegmented(groups) && |groups| > 1
    ensures var n, lines := |groups[0].lines|, Flatten(groups);
            && 0 < n < |lines|
            && (groups[0].code ==> n > 1 && Closes(lines[0].marker, lines[n - 1]))
            && (!groups[0].code ==> lines[n].marker != "")
  {
    assert IsGroup(groups[0], false) && IsGroup(groups[1], 1 == |groups| - 1);
    assert groups[0].code || groups[0 + 1].code;
    assert Flatten(groups[1..]) == groups[1].lines + Flatten(groups[1..][1..]);
  }

  /** The first group cannot be shorter in one segmentation than in another. */
  lemma FirstGroupIsMaximal(g: seq<Group>, h: seq<Group>)
    requires WellSegmented(g) && WellSegmented(h) && g != [] && h != []
    requires Flatten(g) == Flatten(h)
    ensures |g[0].lines| >= |h[0].lines| && g[0].code == h[0].code
  {
    var lines, m := Flatten(g), |h[0].lines|;
    assert IsGroup(g[0], 0 == |g| - 1) && IsGroup(h[0], 0 == |h| - 1);
    assert h[0].lines == lines[..m] && g[0].lines[0] == lines[0];
    assert h[0].code ==> forall k :: 0 < k < m - 1 ==> !Closes(lines[0].marker, lines[k]);
    assert !h[0].code ==> forall k :: 0 <= k < m ==> lines[k].marker == "";
    if |g| == 1 {
      assert Flatten(g[1..]) == [];
    } else {
      FirstBoundary(g);
    }
  }

  /** A text has at most one segmentation. */
  lemma {:induction false} SegmentationIsUnique(g: seq<Group>, h: seq<Group>)
    requires WellSegmented(g) && WellSegmented(h)
    requires Flatten(g) == Flatten(h)
    ensures g == h
  {
    FlattenIsEmpty(g);
    FlattenIsEmpty(h);
    if g == [] {
    } else {
      FirstGroupIsMaximal(g, h);
      FirstGroupIsMaximal(h, g);
      assert g[0].lines == Flatten(g)[..|g[0].lines|] == h[0].lines;
      assert Flatten(g[1..]) == Flatten(g)[|g[0].lines|..] == Flatten(h[1..]);
      TailIsWellSegmented(g);
      TailIsWellSegmented(h);
      SegmentationIsUnique(g[1..], h[1..]);
      assert g == [g[0]] + g[1..] && h == [h[0]] + h[1..];
    }
  }

  // ---- and always one --------------------------------------------------------------

  /** The number of lines up to and including the first that closes the fence. */
  function FencedLength(marker: string, lines: seq<Line>): (n: nat)
    ensures n <= |lines|
  {
    if lines == [] then 0
    else if Closes(marker, lines[0]) then 1
    else 1 + FencedLength(marker, lines[1..])
  }

  function ProseLength(lines: seq<Line>): (n: nat)
    ensures n <= |lines|
  {
    if lines == [] || lines[0].marker != "" then 0 else 1 + ProseLength(lines[1..])
  }

  lemma {:induction false} FencedLengthIsFirst(marker: string, lines: seq<Line>)
    ensures var n := FencedLength(marker, lines);
            && (forall k :: 0 <= k < n - 1 ==> !Closes(marker, lines[k]))
            && (n < |lines| ==> n > 0 && Closes(marker, lines[n - 1]))
            && (lines != [] ==> n > 0)
  {
    if lines != [] && !Closes(marker, lines[0]) {
      FencedLengthIsFirst(marker, lines[1..]);
    } else {
    }
  }

  lemma {:induction false} ProseLengthIsFirst(lines: seq<Line>)
    ensures var n := ProseLength(lines);
            IsProse(lines[..n]) && (n < |lines| ==> lines[n].marker != "")
  {
    if lines != [] && lines[0].marker == "" {
      ProseLengthIsFirst(lines[1..]);
      assert lines[..ProseLength(lines)] == [lines[0]] + lines[1..][..ProseLength(lines[1..])];
    } else {
    }
  }

  /** The group that the first lines of a text make. */
  lemma FirstGroup(lines: seq<Line>) returns (g: Group, rest: seq<Line>)
    requires lines != []
    ensures lines == g.lines + rest && |rest| < |lines|
    ensures IsGroup(g, rest == [])
    ensures g.code == (lines[0].marker != "")
    ensures rest != [] && !g.code ==> rest[0].marker != ""
  {
    var marker := lines[0].marker;
    if marker != "" {
      var n := FencedLength(marker, lines[1..]);
      FencedLengthIsFirst(marker, lines[1..]);
      g, rest := Group(true, lines[..n + 1]), lines[n + 1..];
      assert forall k :: 0 < k < |g.lines| ==> g.lines[k] == lines[1..][k - 1];
    } else {
      var n := ProseLength(lines);
      ProseLengthIsFirst(lines);
      g, rest := Group(false, lines[..n]), lines[n..];
    }
  }

  lemma WellSegmentedCons(g: Group, rest: seq<Group>)
    requires WellSegmented(rest) && IsGroup(g, rest == [])
    requires rest != [] ==> g.code || rest[0].code
    ensures WellSegmented([g] + rest)
  {
    var all := [g] + rest;
    forall k | 0 <= k < |all| ensures IsGroup(all[k], k == |all| - 1) {
      assert k > 0 ==> IsGroup(rest[k - 1], k - 1 == |rest| - 1);
    }
    forall k | 0 <= k < |all| - 1 ensures all[k].code || all[k + 1].code {
      assert k > 0 ==> rest[k - 1].code || rest[k - 1 + 1].code;
    }
  }

  lemma {:induction false} SegmentationExists(lines: seq<Line>) returns (groups: seq<Group>)
    ensures WellSegmented(groups) && Flatten(groups) == lines
    ensures lines != [] ==> groups != [] && groups[0].code == (lines[0].marker != "")
    decreases |lines|
  {
    groups := [];
    if lines == [] {
    } else {
      var g, rest := FirstGroup(lines);
      var more := SegmentationExists(rest);
      FlattenIsEmpty(more);
      WellSegmentedCons(g, more);
      groups := [g] + more;
      assert groups[1..] == more;
    }
  }

  lemma SomeSegmentationExists(lines: seq<Line>)
    ensures exists groups: seq<Group> :: WellSegmented(groups) && Flatten(groups) == lines
  {
    var groups := SegmentationExists(lines);
  }

  /** The one segmentation of a text's lines. */
  ghost function Groups(lines: seq<Line>): (groups: seq<Group>)
    ensures WellSegmented(groups) && Flatten(groups) == lines
  {
    SomeSegmentationExists(lines);
    var groups: seq<Group> :| WellSegmented(groups) && Flatten(groups) == lines;
    groups
  }

  // ---- segments --------------------------------------------------------------------

  datatype Segment = Segment(code: bool, text: string)

  function GroupText(g: Group): string {
    JoinLines(Texts(g.lines))
  }

  /** The segment of a group; all but the last carry the line break that follows them. */
  function SegmentOf(g: Group, last: bool): Segment {
    Segment(g.code, GroupText(g) + if last then "" else "\n")
  }

  function SegmentsOf(groups: seq<Group>): (r: seq<Segment>)
    ensures |r| == |groups|
  {
    seq(|groups|, k requires 0 <= k < |groups| => SegmentOf(groups[k], k == |groups| - 1))
  }

  function LinesOf(src: string): seq<Line> {
    ReadAll(SplitLines(src))
  }

  /** What `splitFences` makes of a text. */
  ghost function Segments(src: string): seq<Segment> {
    SegmentsOf(Groups(LinesOf(src)))
  }

  function JoinSegments(segments: seq<Segment>): string {
    if segments == [] then "" else segments[0].text + JoinSegments(segments[1..])
  }

  lemma {:induction false} JoinSegmentsOf(groups: seq<Group>)
    requires WellSegmented(groups)
    ensures JoinSegments(SegmentsOf(groups)) == JoinLines(Texts(Flatten(groups)))
  {
    if groups == [] {
    } else {
      var g, rest := groups[0], groups[1..];
      TailIsWellSegmented(groups);
      JoinSegmentsOf(rest);
      assert SegmentsOf(groups)[1..] == SegmentsOf(rest);
      assert Texts(g.lines + Flatten(rest)) == Texts(g.lines) + Texts(Flatten(rest));
      assert IsGroup(g, 0 == |groups| - 1);
      FlattenIsEmpty(rest);
      if rest != [] {
        JoinConcat(Texts(g.lines), Texts(Flatten(rest)));
      } else {
        assert Texts(g.lines) + [] == Texts(g.lines);
      }
    }
  }

  /** Splitting a text and joining the segments gives the text back. */
  lemma JoinInvertsSegments(src: string)
    ensures JoinSegments(Segments(src)) == src
  {
    JoinInvertsSplit(src);
    assert Texts(LinesOf(src)) == SplitLines(src);
    JoinSegmentsOf(Groups(LinesOf(src)));
  }

  /** The segments are those of any right segmentation of the text's lines. */
  lemma SegmentsAreTheSegmentation(src: string, groups: seq<Group>)
    requires WellSegmented(groups) && Flatten(groups) == LinesOf(src)
    ensures Segments(src) == SegmentsOf(groups)
  {
    SegmentationIsUnique(groups, Groups(LinesOf(src)));
  }

  ghost predicate IsReading(line: Line) {
    line == Read(line.text) && '\n' !in line.text
  }

  /** Lines as reading a text produces them. */
  ghost predicate AreReadings(lines: seq<Line>) {
    forall k :: 0 <= k < |lines| ==> IsReading(lines[k])
  }

  lemma {:induction false} GroupHoldsReadings(groups: seq<Group>, k: nat)
    requires k < |groups| && AreReadings(Flatten(groups))
    ensures AreReadings(groups[k].lines)
  {
    var first, rest := groups[0].lines, Flatten(groups[1..]);
    var all := first + rest;
    if k == 0 {
      assert forall i :: 0 <= i < |first| ==> first[i] == all[i];
    } else {
      assert forall i :: 0 <= i < |rest| ==> rest[i] == all[|first| + i];
      GroupHoldsReadings(groups[1..], k - 1);
    }
  }

  lemma LinesAreReadings(src: string)
    ensures AreReadings(LinesOf(src))
  {
    SplitYieldsLines(src);
    JoinInvertsSplit(src);
    forall k | 0 <= k < |LinesOf(src)| ensures IsReading(LinesOf(src)[k]) {
      assert '\n' !in SplitLines(src)[k];
    }
  }

  lemma ReadingsReadBack(lines: seq<Line>)
    requires lines != [] && AreReadings(lines)
    ensures LinesOf(JoinLines(Texts(lines))) == lines
  {
    forall k | 0 <= k < |lines| ensures '\n' !in Texts(lines)[k] {
      assert IsReading(lines[k]);
    }
    SplitInvertsJoin(Texts(lines));
    forall k | 0 <= k < |lines| ensures ReadAll(Texts(lines))[k] == lines[k] {
      assert IsReading(lines[k]);
    }
  }

  lemma ResplitGroup(g: Group)
    requires IsGroup(g, true) && AreReadings(g.lines)
    ensures Segments(GroupText(g)) == [SegmentOf(g, true)]
  {
    ReadingsReadBack(g.lines);
    assert Flatten([g]) == g.lines + [] == g.lines;
    SegmentsAreTheSegmentation(GroupText(g), [g]);
  }

  /** Any one group of a text, taken as a text of its own, is again that one group. */
  lemma ResplitIsStable(src: string, k: nat)
    requires k < |Groups(LinesOf(src))|
    ensures var g := Groups(LinesOf(src))[k];
            Segments(GroupText(g)) == [SegmentOf(g, true)] && SegmentOf(g, true).text == GroupText(g)
  {
    var groups := Groups(LinesOf(src));
    assert IsGroup(groups[k], k == |groups| - 1);
    LinesAreReadings(src);
    GroupHoldsReadings(groups, k);
    ResplitGroup(groups[k]);
    assert GroupText(groups[k]) + "" == GroupText(groups[k]);
  }

  // ---- the loop --------------------------------------------------------------------

  /** Complete groups so far: every fence among them is closed. */
  ghost predicate Complete(groups: seq<Group>) {
    && (forall k :: 0 <= k < |groups| ==> IsGroup(groups[k], false))
    && (forall k :: 0 <= k < |groups| - 1 ==> groups[k].code || groups[k + 1].code)
  }

  /** What the buffer holds outside a fence, or since the line that opened one. */
  ghost predicate BufferFits(groups: seq<Group>, fence: Option<string>, buffer: seq<Line>) {
    match fence
    case None => IsProse(buffer) && (groups != [] ==> groups[|groups| - 1].code)
    case Some(marker) =>
      && buffer != [] && marker != "" && buffer[0].marker == marker
      && forall k :: 0 < k < |buffer| ==> !Closes(marker, buffer[k])
  }

  /** The segments flushed so far, before the line breaks between them are added. */
  ghost predicate InStep(plain: seq<Segment>, groups: seq<Group>) {
    && |plain| == |groups|
    && forall k :: 0 <= k < |groups| ==> plain[k] == Segment(groups[k].code, GroupText(groups[k]))
  }

  lemma {:induction false} FlattenSnoc(groups: seq<Group>, g: Group)
    ensures Flatten(groups + [g]) == Flatten(groups) + g.lines
  {
    if groups == [] {
      assert groups + [g] == [g];
    } else {
      FlattenSnoc(groups[1..], g);
      assert (groups + [g])[1..] == groups[1..] + [g];
    }
  }

  lemma CompleteWithLast(groups: seq<Group>, g: Group)
    requires Complete(groups) && IsGroup(g, true)
    requires groups != [] ==> groups[|groups| - 1].code || g.code
    ensures WellSegmented(groups + [g])
    ensures IsGroup(g, false) ==> Complete(groups + [g])
  {
    var all := groups + [g];
    forall k | 0 <= k < |all| ensures IsGroup(all[k], k == |all| - 1) {
      assert k < |groups| ==> IsGroup(groups[k], false);
    }
    forall k | 0 <= k < |all| - 1 ensures all[k].code || all[k + 1].code {
      assert k < |groups| - 1 ==> groups[k].code || groups[k + 1].code;
    }
  }

  lemma InStepSnoc(plain: seq<Segment>, groups: seq<Group>, g: Group)
    requires InStep(plain, groups)
    ensures InStep(plain + [Segment(g.code, GroupText(g))], groups + [g])
  {
  }

  /** Flushing the buffer as a group keeps the segments in step with the groups. */
  lemma Flush(plain: seq<Segment>, groups: seq<Group>, g: Group)
    requires Complete(groups) && InStep(plain, groups) && IsGroup(g, true)
    requires groups != [] ==> groups[|groups| - 1].code || g.code
    ensures WellSegmented(groups + [g])
    ensures IsGroup(g, false) ==> Complete(groups + [g])
    ensures Flatten(groups + [g]) == Flatten(groups) + g.lines
    ensures InStep(plain + [Segment(g.code, JoinLines(Texts(g.lines)))], groups + [g])
  {
    CompleteWithLast(groups, g);
    FlattenSnoc(groups, g);
    InStepSnoc(plain, groups, g);
  }

  lemma CompleteIsWellSegmented(groups: seq<Group>)
    requires Complete(groups)
    ensures WellSegmented(groups)
  {
    forall k | 0 <= k < |groups| ensures IsGroup(groups[k], k == |groups| - 1) {
      assert IsGroup(groups[k], false);
    }
  }

  /** `segments` with a line break added to all but the last, as the final `map` does. */
  function Broken(segments: seq<Segment>): (r: seq<Segment>)
    ensures |r| == |segments|
  {
    seq(|segments|, k requires 0 <= k < |segments| =>
      if k < |segments| - 1 then Segment(segments[k].code, segments[k].text + "\n") else segments[k])
  }

  lemma BrokenInStep(src: string, plain: seq<Segment>, groups: seq<Group>)
    requires WellSegmented(groups) && Flatten(groups) == LinesOf(src) && InStep(plain, groups)
    ensures Broken(plain) == Segments(src)
  {
    SegmentsAreTheSegmentation(src, groups);
    forall k | 0 <= k < |groups| ensures Broken(plain)[k] == SegmentsOf(groups)[k] {
      assert plain[k].text + "" == plain[k].text;
    }
  }

  /** The loop's state after `n` lines: flushed groups, then the lines still in the buffer. */
  ghost predicate AfterLines(lines: seq<Line>, n: nat, plain: seq<Segment>, groups: seq<Group>,
                             fence: Option<string>, buffer: seq<Line>) {
    && n <= |lines|
    && Complete(groups) && InStep(plain, groups) && BufferFits(groups, fence, buffer)
    && Flatten(groups) + buffer == lines[..n]
  }

  /** An ordinary line, inside a fence or outside, only joins the buffer. */
  lemma LineIsBuffered(lines: seq<Line>, n: nat, plain: seq<Segment>, groups: seq<Group>,
                       fence: Option<string>, buffer: seq<Line>)
    requires n < |lines| && AfterLines(lines, n, plain, groups, fence, buffer)
    requires if fence.None? then lines[n].marker == "" else !Closes(fence.value, lines[n])
    ensures AfterLines(lines, n + 1, plain, groups, fence, buffer + [lines[n]])
  {
    assert Flatten(groups) + (buffer + [lines[n]]) == lines[..n + 1];
  }

  /** An opening line starts a new buffer, any prose before it being flushed. */
  lemma LineOpensFence(lines: seq<Line>, n: nat, plain: seq<Segment>, groups: seq<Group>, buffer: seq<Line>)
    requires n < |lines| && AfterLines(lines, n, plain, groups, None, buffer) && lines[n].marker != ""
    ensures buffer == [] ==> AfterLines(lines, n + 1, plain, groups, Some(lines[n].marker), [lines[n]])
    ensures buffer != [] ==>
      AfterLines(lines, n + 1, plain + [Segment(false, JoinLines(Texts(buffer)))], groups + [Group(false, buffer)],
                 Some(lines[n].marker), [lines[n]])
  {
    assert Flatten(groups) + buffer + [lines[n]] == lines[..n + 1];
    if buffer != [] {
      Flush(plain, groups, Group(false, buffer));
    }
  }

  /** A closing line ends the fence and is flushed with it. */
  lemma LineClosesFence(lines: seq<Line>, n: nat, plain: seq<Segment>, groups: seq<Group>,
                        marker: string, buffer: seq<Line>)
    requires n < |lines| && AfterLines(lines, n, plain, groups, Some(marker), buffer) && Closes(marker, lines[n])
    ensures var code := buffer + [lines[n]];
      AfterLines(lines, n + 1, plain + [Segment(true, JoinLines(Texts(code)))], groups + [Group(true, code)], None, [])
  {
    var code := buffer + [lines[n]];
    assert Flatten(groups) + code == lines[..n + 1];
    assert forall k :: 0 < k < |code| - 1 ==> code[k] == buffer[k];
    Flush(plain, groups, Group(true, code));
  }

  /** After the last line, what is left in the buffer is the last segment. */
  lemma LinesEnd(src: string, plain: seq<Segment>, groups: seq<Group>, fence: Option<string>, buffer: seq<Line>)
    requires AfterLines(LinesOf(src), |LinesOf(src)|, plain, groups, fence, buffer)
    ensures Segments(src) == Broken(
      if buffer == [] then plain else plain + [Segment(fence.Some?, JoinLines(Texts(buffer)))])
  {
    var lines := LinesOf(src);
    assert lines[..|lines|] == lines;
    if buffer == [] {
      CompleteIsWellSegmented(groups);
      BrokenInStep(src, plain, groups);
    } else {
      Flush(plain, groups, Group(fence.Some?, buffer));
      BrokenInStep(src, plain + [Segment(fence.Some?, JoinLines(Texts(buffer)))],
                   groups + [Group(fence.Some?, buffer)]);
    }
  }

  /** Splits a text at its fences, flushing a buffer of lines at each boundary. */
  method SplitFences(src: string) returns (segments: seq<Segment>)
    ensures segments == Segments(src)
  {
    var lines := LinesOf(src);
    var plain: seq<Segment> := [];
    var buffer: seq<Line> := [];
    var fence: Option<string> := None;
    ghost var groups: seq<Group> := [];
    for n := 0 to |lines|
      invariant AfterLines(lines, n, plain, groups, fence, buffer)
    {
      var line := lines[n];
      if fence.None? && line.marker != "" {
        LineOpensFence(lines, n, plain, groups, buffer);
        if buffer != [] {
          plain := plain + [Segment(false, JoinLines(Texts(buffer)))];
          groups := groups + [Group(false, buffer)];
        }
        fence := Some(line.marker);
        buffer := [line];
      } else if fence.Some? && Closes(fence.value, line) {
        LineClosesFence(lines, n, plain, groups, fence.value, buffer);
        buffer := buffer + [line];
        plain := plain + [Segment(true, JoinLines(Texts(buffer)))];
        groups := groups + [Group(true, buffer)];
        buffer := [];
        fence := None;
      } else {
        LineIsBuffered(lines, n, plain, groups, fence, buffer);
        buffer := buffer + [line];
      }
    }
    LinesEnd(src, plain, groups, fence, buffer);
    if buffer != [] {
      plain := plain + [Segment(fence.Some?, JoinLines(Texts(buffer)))];
    }
    segments := Broken(plain);
  }
}
