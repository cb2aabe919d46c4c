/**
 What `cleanMdx` leaves as it is, scripts/kb-mdx.ts lines 172-214: exactly the bodies in which
 nothing is to be removed, replaced or tidied.
 */
module MdxUntouched {
  import opened Wrappers
  import opened Text
  import opened MdxFences
  import opened MdxInlineCode
  import opened MdxPlaceholders
  import opened MdxTags
  import opened MdxProse
  import opened MdxPieces
  import opened MdxTagWeight
  import opened MdxTidy

  // ---- rewriting -------------------------------------------------------------------

  /** Whether some `<` from `i` on opens a tag that has a replacement. */
  ghost predicate IsReplacedFrom(t: string, r: seq<Replacement>, i: nat)
    requires |r| == |t|
  {
    exists at :: i <= at < |t| && t[at] == '<' && r[at].Becomes?
  }

  /** What is written from a position on stands for no more brackets, and for fewer if a tag was replaced. */
  ghost predicate Lightens(t: string, i: nat, spans: seq<string>)
    requires i <= |t| && Advance(Replacements(t))
  {
    var written := Rewritten(t, Replacements(t), i);
    && IsLight(written, spans, Weight(t[i..|t|], spans))
    && (IsReplacedFrom(t, Replacements(t), i) ==> Weight(written, spans) < Weight(t[i..|t|], spans))
  }

  lemma NothingLeft(t: string, i: nat, spans: seq<string>)
    requires i <= |t| && Advance(Replacements(t)) && Find(t, i, '<') == None && IsWhole(t[i..|t|])
    ensures Lightens(t, i, spans)
  {
    FindIsFirst(t, i, '<');
    LastTurn(t, Replacements(t), i);
    assert t[i..] == t[i..|t|];
    assert forall at :: i <= at < |t| ==> t[at] == t[i..][at - i];
  }

  lemma PlainPart(t: string, i: nat, at: nat, spans: seq<string>)
    requires i <= at < |t| && t[at] == '<' && IsWhole(t[i..|t|])
    ensures IsWhole(t[i..at]) && IsWhole(t[at..|t|])
    ensures Weight(t[i..|t|], spans) == Weight(t[i..at], spans) + Weight(t[at..|t|], spans)
  {
    SliceBefore(t, i, at, |t|, spans);
  }

  /** Three parts written one after the other. */
  lemma ThreeWeigh(a: string, b: string, c: string, spans: seq<string>)
    requires IsWhole(a) && IsWhole(b) && IsWhole(c)
    ensures IsWhole(a + (b + c))
    ensures Weight(a + (b + c), spans) == Weight(a, spans) + Weight(b, spans) + Weight(c, spans)
  {
    WholeConcat(b, c);
    WholeConcat(a, b + c);
    WeightConcat(a, b + c, spans);
    WeightConcat(b, c, spans);
  }

  lemma ReplacedTurn(t: string, i: nat, at: nat, spans: seq<string>)
    requires i <= at < |t| && Advance(Replacements(t)) && Find(t, i, '<') == Some(at) && IsWhole(t[i..|t|])
    requires Replaced(t, at).Becomes? && Lightens(t, Replaced(t, at).end, spans)
    ensures Lightens(t, i, spans)
  {
    var r := Replaced(t, at);
    FindIsFirst(t, i, '<');
    PlainPart(t, i, at, spans);
    ReplacedIsLighter(t, at, spans);
    SliceJoin(t, at, r.end, |t|, spans);
    assert Replacements(t)[at] == r;
    RewrittenFrom(t, Replacements(t), i, at);
    ThreeWeigh(t[i..at], r.text, Rewritten(t, Replacements(t), r.end), spans);
  }

  lemma PastOpening(t: string, at: nat, spans: seq<string>)
    requires at < |t| && t[at] == '<' && IsWhole(t[at..|t|])
    ensures IsWhole(t[at + 1..|t|]) && Weight(t[at..|t|], spans) == Weight("<", spans) + Weight(t[at + 1..|t|], spans)
  {
    assert t[at..at + 1] == "<";
    NulFreeWeighs("<", spans);
    SliceAfter(t, at, at + 1, |t|, spans);
  }

  lemma NothingBefore(t: string, r: seq<Replacement>, i: nat, at: nat)
    requires |r| == |t| && i <= at < |t| && '<' !in t[i..at] && !r[at].Becomes?
    ensures IsReplacedFrom(t, r, i) ==> IsReplacedFrom(t, r, at + 1)
  {
    forall k | i <= k < at ensures t[k] != '<' {
      assert t[k] == t[i..at][k - i];
    }
  }

  lemma StayingTurn(t: string, i: nat, at: nat, spans: seq<string>)
    requires i <= at < |t| && Advance(Replacements(t)) && Find(t, i, '<') == Some(at) && IsWhole(t[i..|t|])
    requires Replaced(t, at).Stays? && Lightens(t, at + 1, spans)
    ensures Lightens(t, i, spans)
  {
    FindIsFirst(t, i, '<');
    PlainPart(t, i, at, spans);
    PastOpening(t, at, spans);
    assert Replacements(t)[at] == Stays;
    RewrittenFrom(t, Replacements(t), i, at);
    NulFreeIsWhole("<");
    ThreeWeigh(t[i..at], "<", Rewritten(t, Replacements(t), at + 1), spans);
    NothingBefore(t, Replacements(t), i, at);
  }

  lemma {:induction false} RewritingLightens(t: string, i: nat, spans: seq<string>)
    requires i <= |t| && Advance(Replacements(t)) && IsWhole(t[i..|t|])
    ensures Lightens(t, i, spans)
    decreases |t| - i
  {
    match Find(t, i, '<')
    case None => NothingLeft(t, i, spans);
    case Some(at) =>
      FindIsFirst(t, i, '<');
      PlainPart(t, i, at, spans);
      if Replaced(t, at).Becomes? {
        ReplacedIsLighter(t, at, spans);
        RewritingLightens(t, Replaced(t, at).end, spans);
        ReplacedTurn(t, i, at, spans);
      } else {
        PastOpening(t, at, spans);
        RewritingLightens(t, at + 1, spans);
        StayingTurn(t, i, at, spans);
      }
  }

  // ---- imports and comments --------------------------------------------------------

  ghost predicate HasImportFrom(t: string, i: nat) {
    exists j: nat :: i <= j <= |t| && ImportEnd(t, j).Some?
  }

  ghost predicate HasCommentFrom(t: string, i: nat) {
    exists j: nat :: i <= j <= |t| && CommentEnd(t, j).Some?
  }

  /** One kept character before a text that has shrunk. */
  lemma OneCharKept(t: string, i: nat, rest: string)
    requires i < |t| && Shrinks(t[i + 1..], rest)
    ensures Shrinks(t[i..], [t[i]] + rest) && (t[i..] == [t[i]] + rest ==> t[i + 1..] == rest)
  {
    assert t[i..] == [t[i]] + t[i + 1..];
    ShrinksInParts([t[i]], [t[i]], t[i + 1..], rest);
  }

  /** A part left out before a text that has shrunk. */
  lemma PartLeftOut(t: string, i: nat, end: nat, rest: string)
    requires i < end <= |t| && Shrinks(t[end..], rest)
    ensures Shrinks(t[i..], rest) && t[i..] != rest
  {
    assert t[i..] == t[i..end] + t[end..];
    BracketsConcat(t[i..end], t[end..]);
  }

  lemma {:induction false} WithoutImportsShrinks(t: string, i: nat)
    requires i <= |t|
    ensures Shrinks(t[i..], WithoutImports(t, i))
    ensures HasImportFrom(t, i) ==> WithoutImports(t, i) != t[i..]
    decreases |t| - i
  {
    if i == |t| {
    } else {
      match ImportEnd(t, i)
      case Some(end) =>
        WithoutImportsShrinks(t, end);
        PartLeftOut(t, i, end, WithoutImports(t, end));
      case None =>
        WithoutImportsShrinks(t, i + 1);
        OneCharKept(t, i, WithoutImports(t, i + 1));
        assert HasImportFrom(t, i) ==> HasImportFrom(t, i + 1);
    }
  }

  lemma {:induction false} WithoutCommentsShrinks(t: string, i: nat)
    requires i <= |t|
    ensures Shrinks(t[i..], WithoutComments(t, i))
    ensures HasCommentFrom(t, i) ==> WithoutComments(t, i) != t[i..]
    decreases |t| - i
  {
    if i == |t| {
    } else {
      match CommentEnd(t, i)
      case Some(end) =>
        WithoutCommentsShrinks(t, end);
        PartLeftOut(t, i, end, WithoutComments(t, end));
      case None =>
        WithoutCommentsShrinks(t, i + 1);
        OneCharKept(t, i, WithoutComments(t, i + 1));
        assert HasCommentFrom(t, i) ==> HasCommentFrom(t, i + 1);
    }
  }

  lemma {:induction false} RemovalAvoidsNul(t: string, i: nat)
    requires i <= |t| && NUL !in t
    ensures NUL !in WithoutImports(t, i) && NUL !in WithoutComments(t, i)
    decreases |t| - i
  {
    if i == |t| {
    } else {
      RemovalAvoidsNul(t, i + 1);
      if ImportEnd(t, i).Some? {
        RemovalAvoidsNul(t, ImportEnd(t, i).value);
      }
      if CommentEnd(t, i).Some? {
        RemovalAvoidsNul(t, CommentEnd(t, i).value);
      }
    }
  }

  // ---- prose -----------------------------------------------------------------------

  /** Text without imports and comments, masked, rewritten and unmasked. */
  ghost function Replacing(text: string): string {
    var masked := Mask(text, 0, 0);
    Unmask(RewrittenText(masked.text), masked.spans)
  }

  ghost predicate HasReplacedTag(text: string) {
    var masked := Mask(text, 0, 0).text;
    !NothingToReplace(masked, Replacements(masked))
  }

  lemma ReplacingShrinks(text: string)
    requires NUL !in text
    ensures Shrinks(text, Replacing(text)) && (Replacing(text) == text <==> !HasReplacedTag(text))
  {
    var m := Mask(text, 0, 0);
    var r := Replacements(m.text);
    ReplacementsAdvance(m.text);
    MaskIsWhole(text, 0, 0);
    assert m.text[0..|m.text|] == m.text == m.text[0..];
    UnmaskInvertsMaskWithoutNul(text);
    if HasReplacedTag(text) {
      var at: nat :| at < |m.text| && m.text[at] == '<' && r[at] != Stays;
      assert IsReplacedFrom(m.text, r, 0);
      RewritingLightens(m.text, 0, m.spans);
      WeightIsShown(m.text, m.spans);
      WeightIsShown(RewrittenText(m.text), m.spans);
    } else {
      UnreplacedTextStays(m.text, r, 0);
    }
  }

  /** Nothing in the prose is to be removed or replaced. */
  ghost predicate IsLeftAlone(text: string) {
    !HasImport(text) && !HasComment(text) && !HasReplacedTag(text)
  }

  /** Cleaning prose without NUL shrinks it, and leaves it as it is exactly if nothing is to be removed or replaced. */
  lemma UntouchedProse(text: string)
    requires NUL !in text
    ensures Shrinks(text, CleanedProse(text)) && (CleanedProse(text) == text <==> IsLeftAlone(text))
  {
    var t1 := WithoutImports(text, 0);
    var t2 := WithoutComments(t1, 0);
    assert text[0..] == text && t1[0..] == t1;
    WithoutImportsShrinks(text, 0);
    WithoutCommentsShrinks(t1, 0);
    RemovalAvoidsNul(text, 0);
    RemovalAvoidsNul(t1, 0);
    ReplacingShrinks(t2);
    ShrinksTwice(text, t1, t2);
    ShrinksTwice(text, t2, Replacing(t2));
    assert CleanedProse(text) == Replacing(t2);
    assert HasImport(text) <==> HasImportFrom(text, 0);
    assert HasComment(t1) <==> HasCommentFrom(t1, 0);
    if !HasImport(text) {
      NoImportsToRemove(text, 0);
    }
    if !HasComment(t1) {
      NoCommentsToRemove(t1, 0);
    }
  }

  /** So prose whose every `<` lies in inline code is left as it is exactly if it has no import and no comment. */
  lemma CodeOnlyBracketsAreUntouched(text: string)
    requires NUL !in text && '<' !in OutsideCode(text, 0)
    ensures CleanedProse(text) == text <==> !HasImport(text) && !HasComment(text)
  {
    MaskedBracketsAreOutsideCode(text, 0, 0);
    UntouchedProse(text);
  }

  // ---- places where code is touched ------------------------------------------------

  lemma QuotedPathRead(t: string, i: nat)
    requires i + 3 == |t| && IsQuote(t[i]) && !IsQuote(t[i + 1]) && t[i + 1] != '\n' && IsQuote(t[i + 2])
    ensures QuotedPathEnd(t, i) == Some(|t|)
  {
    assert PathEnd(t, i + 2) == i + 2;
    assert PathEnd(t, i + 1) == i + 2;
    assert BlankEnd(t, |t|) == |t|;
  }

  /** Where the code of such an import starts, its clause runs on to the end of the text. */
  lemma ClauseRead(t: string)
    requires t == "import `T` from 'y'"
    ensures FromClauseEnd(t, 7) == Some(19)
  {
    QuotedPathRead(t, 16);
    assert t[11..15] == "from" && SpaceEnd(t, 16) == 16;
    assert SpaceEnd(t, 15) == 16;
    assert FromClauseEnd(t, 10) == Some(19);
    assert FromClauseEnd(t, 9) == Some(19);
    assert FromClauseEnd(t, 8) == Some(19);
  }

  lemma ImportRead(t: string)
    requires t == "import `T` from 'y'"
    ensures ImportEnd(t, 0) == Some(19) && WithoutImports(t, 0) == ""
  {
    ClauseRead(t);
    assert t[0..6] == "import" && SpaceEnd(t, 7) == 7;
    assert SpaceEnd(t, 6) == 7;
    assert WithoutImports(t, 19) == "";
  }

  lemma NothingComesOfNothing()
    ensures WithoutComments("", 0) == "" && Replacing("") == ""
  {
    ReplacingShrinks("");
  }

  lemma CodeInImport(t: string)
    requires t == "import `T` from 'y'"
    ensures Span(t, 7) == Some(10)
  {
    assert Ticks(t, 8) == 0 && Ticks(t, 10) == 0;
    assert Ticks(t, 7) == 1 && Ticks(t, 9) == 1;
    assert CloseAt(t, 9, 1) == Some(9);
    assert CloseAt(t, 8, 1) == Some(9);
  }

  /** An import goes before inline code is masked, and takes the code it holds with it. */
  lemma ImportTakesCode()
    ensures var text := "import `T` from 'y'"; Span(text, 7) == Some(10) && CleanedProse(text) == ""
  {
    var text := "import `T` from 'y'";
    CodeInImport(text);
    ImportRead(text);
    NothingComesOfNothing();
    assert CleanedProse(text) == Replacing(WithoutComments(WithoutImports(text, 0), 0));
  }

  lemma NoImportWithoutLetter(t: string)
    requires 'i' !in t
    ensures !HasImport(t)
  {
    forall i: nat | i <= |t| ensures ImportEnd(t, i) == None {
      assert i + 6 <= |t| ==> t[i..i + 6][0] == t[i] != 'i';
    }
  }

  lemma NoCommentWithoutMark(t: string)
    requires '!' !in t
    ensures !HasComment(t)
  {
    forall i: nat | i <= |t| ensures CommentEnd(t, i) == None {
      assert i + 4 <= |t| ==> t[i..i + 4][1] == t[i + 1] != '!';
    }
  }

  lemma CommentRead(t: string)
    requires t == "`<!---->`"
    ensures WithoutImports(t, 0) == t && WithoutComments(t, 0) == "``"
  {
    NoImportWithoutLetter(t);
    NoImportsToRemove(t, 0);
    assert t[0..4][0] == '`';
    assert t[1..5] == "<!--" && t[5..8] == "-->";
    assert WithoutComments(t, 8) == "`";
    assert WithoutComments(t, 1) == "`";
  }

  lemma {:induction false} OutsideIsWithin(t: string, i: nat, c: char)
    requires i <= |t| && c !in t
    ensures c !in OutsideCode(t, i)
    decreases |t| - i
  {
    if i == |t| {
    } else {
      match Span(t, i)
      case Some(end) => OutsideIsWithin(t, end, c);
      case None =>
        OutsideIsWithin(t, i + 1, c);
        NotInEither(c, [t[i]], OutsideCode(t, i + 1));
    }
  }

  lemma BracketFreeStays(text: string)
    requires NUL !in text && '<' !in text
    ensures Replacing(text) == text
  {
    OutsideIsWithin(text, 0, '<');
    MaskedBracketsAreOutsideCode(text, 0, 0);
    ReplacingShrinks(text);
  }

  lemma CodeAroundComment(t: string)
    requires t == "`<!---->`"
    ensures Span(t, 0) == Some(9)
  {
    TicksAre(t, 0, 1);
    assert Ticks(t, 9) == 0 && Ticks(t, 8) == 1;
    CloseAtIs(t, 1, 8, 1);
  }

  /** So does a comment that stands in inline code. */
  lemma CommentTakesCode()
    ensures var text := "`<!---->`"; Span(text, 0) == Some(9) && CleanedProse(text) == "``"
  {
    var text := "`<!---->`";
    CodeAroundComment(text);
    CommentRead(text);
    BracketFreeStays("``");
    assert CleanedProse(text) == Replacing(WithoutComments(WithoutImports(text, 0), 0));
  }

  lemma CodeInValue(text: string, value: seq<Chunk>)
    requires text == "<Tabs a=\"`x`\">" && value == [Code(1, "x")]
    ensures Span(text, 9) == Some(12) && ChunksText(value, 0, false) == "`x`" && AreChunks(value)
  {
    assert Ticked(1) == "`" && CodeText(1, "x") == "`x`" && value[1..] == [];
    assert Holds(text, 9, "`x`");
    CodeIsSpan(text, 9, 1, "x");
  }

  lemma TagOfValue(text: string, tag: Piece, value: seq<Chunk>)
    requires text == "<Tabs a=\"`x`\">" && tag == Printed("Tabs", false, false, [("a", value)])
    requires ChunksText(value, 0, false) == "`x`"
    ensures PieceText(tag, 0, false) == text
  {
    assert tag.attrs[1..] == [] && AttrsAs(tag.attrs, 0, false) == [("a", "`x`")];
    var attrs := [("a", "`x`")];
    assert attrs[1..] == [] && AttrsText(attrs) == AttrText("a", "`x`");
  }

  /** A text that is one tag, replaced by nothing. */
  lemma TagGoes(tag: Piece)
    requires tag.Printed? && IsPiece(tag) && TagReplacement(tag, 0) == Some("")
    requires var text := PieceText(tag, 0, false); !HasImport(text) && !HasComment(text)
    ensures CleanedProse(PieceText(tag, 0, false)) == ""
  {
    var spans := SpansOf(FlatAll([tag]));
    assert [tag][1..] == [] && PiecesText([], Past(Flat(tag), 0), false) == "";
    assert SourceOf([tag]) == PieceText(tag, 0, false);
    PiecesAreCleaned([tag]);
    assert Cleaned(tag, 0, spans) == "" && CleanedFrom([], Past(Flat(tag), 0), spans) == "";
  }

  lemma TabsGo(text: string)
    requires text == "<Tabs a=\"`x`\">"
    ensures Span(text, 9) == Some(12) && (!HasImport(text) && !HasComment(text) ==> CleanedProse(text) == "")
  {
    var value := [Code(1, "x")];
    var tag := Printed("Tabs", false, false, [("a", value)]);
    CodeInValue(text, value);
    TagOfValue(text, tag, value);
    assert AreValues(tag.attrs) && TagReplacement(tag, 0) == Some("");
    if !HasImport(text) && !HasComment(text) {
      TagGoes(tag);
    }
  }

  /** And a tag that is replaced takes the code of its attribute values with it, unless its replacement shows them. */
  lemma TagTakesCode()
    ensures var text := "<Tabs a=\"`x`\">"; Span(text, 9) == Some(12) && CleanedProse(text) == ""
  {
    var text := "<Tabs a=\"`x`\">";
    NoImportWithoutLetter(text);
    NoCommentWithoutMark(text);
    TabsGo(text);
  }

  // ---- a whole body ----------------------------------------------------------------

  ghost function CleanedMdx(body: string): string {
    Tidied(JoinSegments(CleanedSegments(Segments(body))))
  }

  /** `cleanMdx`: segment by segment, then the pass over white space. */
  method CleanMdx(body: string) returns (out: string)
    ensures out == CleanedMdx(body)
  {
    var cleaned := CleanBody(body);
    out := Tidied(cleaned);
  }

  ghost predicate IsSegmentLeftAlone(s: Segment) {
    s.code || IsLeftAlone(s.text)
  }

  lemma CleanedSegmentShrinks(s: Segment)
    requires NUL !in s.text
    ensures Shrinks(s.text, CleanedSegment(s).text)
    ensures CleanedSegment(s).text == s.text <==> IsSegmentLeftAlone(s)
  {
    if !s.code {
      UntouchedProse(s.text);
    }
  }

  ghost predicate AreLeftAlone(segments: seq<Segment>) {
    forall k :: 0 <= k < |segments| ==> IsSegmentLeftAlone(segments[k])
  }

  lemma LeftAloneCons(segments: seq<Segment>)
    requires segments != []
    ensures AreLeftAlone(segments) <==> IsSegmentLeftAlone(segments[0]) && AreLeftAlone(segments[1..])
  {
    assert forall k :: 0 < k < |segments| ==> segments[k] == segments[1..][k - 1];
    assert forall k :: 0 <= k < |segments[1..]| ==> segments[1..][k] == segments[k + 1];
  }

  lemma JoinCleaned(segments: seq<Segment>)
    requires segments != []
    ensures JoinSegments(CleanedSegments(segments)) ==
            CleanedSegment(segments[0]).text + JoinSegments(CleanedSegments(segments[1..]))
  {
    assert CleanedSegments(segments)[1..] == CleanedSegments(segments[1..]);
  }

  lemma {:induction false} SegmentsShrink(segments: seq<Segment>)
    requires NUL !in JoinSegments(segments)
    ensures Shrinks(JoinSegments(segments), JoinSegments(CleanedSegments(segments)))
    ensures JoinSegments(CleanedSegments(segments)) == JoinSegments(segments) <==> AreLeftAlone(segments)
  {
    if segments == [] {
    } else {
      var first, rest := segments[0], segments[1..];
      assert forall c :: c in JoinSegments(rest) ==> c in first.text + JoinSegments(rest);
      CleanedSegmentShrinks(first);
      SegmentsShrink(rest);
      LeftAloneCons(segments);
      JoinCleaned(segments);
      ShrinksInParts(first.text, CleanedSegment(first).text, JoinSegments(rest), JoinSegments(CleanedSegments(rest)));
    }
  }

  /** A body comes out as it went in exactly if its prose is left alone and its white space is tidy, code included. */
  lemma UntouchedMdx(body: string)
    requires NUL !in body
    ensures Shrinks(body, CleanedMdx(body))
    ensures CleanedMdx(body) == body <==> IsTidy(body) && AreLeftAlone(Segments(body))
  {
    var cleaned := JoinSegments(CleanedSegments(Segments(body)));
    JoinInvertsSegments(body);
    SegmentsShrink(Segments(body));
    TidiedShrinks(cleaned);
    ShrinksTwice(body, cleaned, Tidied(cleaned));
    TidiedIsSame(cleaned);
  }

  lemma LinesOfFence(body: string)
    requires body == "```\na "
    ensures SplitLines(body) == ["```", "a "] && Marker("```") != ""
  {
    SplitTakesLine("```", "a ");
    SplitTakesLine("a ", "");
    assert body == "```" + "\n" + "a ";
    assert RunLength("```", '`') == 1 + RunLength("``", '`') && RunLength("``", '`') == 1 + RunLength("`", '`');
  }

  /** A text whose first line opens a fence and whose second does not close it. */
  lemma FenceIsOneSegment(body: string, opening: string, second: string)
    requires SplitLines(body) == [opening, second] && Marker(opening) != ""
    ensures Segments(body) == [Segment(true, body)]
  {
    var lines := LinesOf(body);
    var groups := [Group(true, lines)];
    assert lines[0].marker != "" && |lines| == 2;
    assert IsFenced(lines);
    assert WellSegmented(groups);
    assert groups[1..] == [] && Flatten(groups) == lines;
    SegmentsAreTheSegmentation(body, groups);
    JoinInvertsSplit(body);
    assert Texts(lines) == SplitLines(body);
    assert GroupText(groups[0]) + "" == body;
  }

  lemma BlankAtEndIsChanged(body: string, opening: string, second: string)
    requires NUL !in body && SplitLines(body) == [opening, second]
    requires second != "" && IsBlank(second[|second| - 1])
    ensures CleanedMdx(body) != body
  {
    assert !IsTidyLine(SplitLines(body)[1]);
    UntouchedMdx(body);
  }

  /** A body that is all one fenced code loses the blanks at the ends of its lines. */
  lemma FencedCodeIsTidied()
    ensures var body := "```\na "; Segments(body) == [Segment(true, body)] && CleanedMdx(body) != body
  {
    var body := "```\na ";
    LinesOfFence(body);
    FenceIsOneSegment(body, "```", "a ");
    BlankAtEndIsChanged(body, "```", "a ");
  }
}
