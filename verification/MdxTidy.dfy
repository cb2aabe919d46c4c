/**
 The pass over white space that ends `cleanMdx`, scripts/kb-mdx.ts lines 208-213.

 - Blanks at the ends of lines go, and lines of white space become empty.
 - Three line breaks and more become two.
 - The whole is trimmed.

 `IsTidy` says of a text that none of this is to be done, and holds of it exactly if the pass
 leaves it as it is.
 */
module MdxTidy {
  import opened Text
  import opened MdxFences
  import opened MdxPlaceholders

  predicate IsBlank(c: char) {
    c == ' ' || c == '\t'
  }

  function WithoutEndBlanks(line: string): string {
    if line != "" && IsBlank(line[|line| - 1]) then WithoutEndBlanks(line[..|line| - 1]) else line
  }

  function TidyLine(line: string): string {
    if Trim(line) == "" then "" else WithoutEndBlanks(line)
  }

  function TidyLines(lines: seq<string>): seq<string> {
    if lines == [] then [] else [TidyLine(lines[0])] + TidyLines(lines[1..])
  }

  /** How many line breaks `s` opens with. */
  function Breaks(s: string): (n: nat)
    ensures n <= |s|
  {
    if s != "" && s[0] == '\n' then 1 + Breaks(s[1..]) else 0
  }

  /** Runs of three line breaks and more become two. */
  function Squeezed(s: string): string
    decreases |s|
  {
    if s == "" then ""
    else if Breaks(s) >= 3 then "\n\n" + Squeezed(s[Breaks(s)..])
    else [s[0]] + Squeezed(s[1..])
  }

  function Tidied(s: string): string {
    Trim(Squeezed(JoinLines(TidyLines(SplitLines(s)))))
  }

  // ---- what is tidy ----------------------------------------------------------------

  /** An empty line, or one with something to see that does not end in a blank. */
  ghost predicate IsTidyLine(line: string) {
    line == "" || (!IsBlank(line[|line| - 1]) && exists k :: 0 <= k < |line| && !IsSpace(line[k]))
  }

  ghost predicate AreTidyLines(lines: seq<string>) {
    forall k :: 0 <= k < |lines| ==> IsTidyLine(lines[k])
  }

  ghost predicate IsTrimmed(s: string) {
    s == "" || (!IsSpace(s[0]) && !IsSpace(s[|s| - 1]))
  }

  ghost predicate HasTripleBreak(s: string) {
    exists i :: 0 <= i < |s| - 2 && s[i] == s[i + 1] == s[i + 2] == '\n'
  }

  ghost predicate IsTidy(s: string) {
    AreTidyLines(SplitLines(s)) && !HasTripleBreak(s) && IsTrimmed(s)
  }

  // ---- trimming --------------------------------------------------------------------

  lemma {:induction false} TrimStartShrinks(s: string)
    ensures Shrinks(s, TrimStart(s)) && (TrimStart(s) == s <==> s == "" || !IsSpace(s[0]))
    ensures TrimStart(s) == "" <==> forall k :: 0 <= k < |s| ==> IsSpace(s[k])
  {
    if s != "" && IsSpace(s[0]) {
      TrimStartShrinks(s[1..]);
      PartShrinks(s, 1, |s|);
      assert s[1..|s|] == s[1..];
      ShrinksTwice(s, s[1..], TrimStart(s));
      assert forall k :: 0 < k < |s| ==> s[k] == s[1..][k - 1];
    } else {
    }
  }

  lemma {:induction false} TrimEndShrinks(s: string)
    ensures Shrinks(s, TrimEnd(s)) && (TrimEnd(s) == s <==> s == "" || !IsSpace(s[|s| - 1]))
    ensures s != "" && !IsSpace(s[0]) ==> TrimEnd(s) != ""
  {
    if s != "" && IsSpace(s[|s| - 1]) {
      var front := s[..|s| - 1];
      TrimEndShrinks(front);
      PartShrinks(s, 0, |s| - 1);
      assert s[0..|s| - 1] == front;
      ShrinksTwice(s, front, TrimEnd(s));
    } else {
    }
  }

  lemma {:induction false} TrimStartIsVisible(s: string)
    ensures TrimStart(s) != "" ==> !IsSpace(TrimStart(s)[0])
  {
    if s != "" && IsSpace(s[0]) {
      TrimStartIsVisible(s[1..]);
    } else {
    }
  }

  lemma TrimShrinks(s: string)
    ensures Shrinks(s, Trim(s)) && (Trim(s) == s <==> IsTrimmed(s))
    ensures Trim(s) == "" <==> forall k :: 0 <= k < |s| ==> IsSpace(s[k])
  {
    TrimStartShrinks(s);
    TrimStartIsVisible(s);
    TrimEndShrinks(TrimStart(s));
    ShrinksTwice(s, TrimStart(s), Trim(s));
  }

  // ---- lines -----------------------------------------------------------------------

  lemma {:induction false} EndBlanksShrink(line: string)
    ensures Shrinks(line, WithoutEndBlanks(line))
    ensures WithoutEndBlanks(line) == line <==> line == "" || !IsBlank(line[|line| - 1])
  {
    if line != "" && IsBlank(line[|line| - 1]) {
      var front := line[..|line| - 1];
      EndBlanksShrink(front);
      PartShrinks(line, 0, |line| - 1);
      assert line[0..|line| - 1] == front;
      ShrinksTwice(line, front, WithoutEndBlanks(line));
    } else {
    }
  }

  lemma TidyLineShrinks(line: string)
    ensures Shrinks(line, TidyLine(line)) && (TidyLine(line) == line <==> IsTidyLine(line))
  {
    TrimShrinks(line);
    EndBlanksShrink(line);
    PartShrinks(line, 0, 0);
    assert line[0..0] == "";
  }

  lemma TidyCons(lines: seq<string>)
    requires lines != []
    ensures AreTidyLines(lines) <==> IsTidyLine(lines[0]) && AreTidyLines(lines[1..])
  {
    assert forall k :: 0 < k < |lines| ==> lines[k] == lines[1..][k - 1];
    assert forall k :: 0 <= k < |lines[1..]| ==> lines[1..][k] == lines[k + 1];
  }

  /** One line and what follows it, each shrunk. */
  lemma LineShrinks(a: string, b: string, c: string, d: string)
    requires Shrinks(a, b) && Shrinks(c, d)
    ensures Shrinks(a + "\n" + c, b + "\n" + d) && (a + "\n" + c == b + "\n" + d ==> a == b && c == d)
  {
    ShrinksInParts(a, b, "\n", "\n");
    ShrinksInParts(a + "\n", b + "\n", c, d);
  }

  lemma {:induction false} TidyLinesShrink(lines: seq<string>)
    ensures |TidyLines(lines)| == |lines| && Shrinks(JoinLines(lines), JoinLines(TidyLines(lines)))
    ensures JoinLines(TidyLines(lines)) == JoinLines(lines) <==> AreTidyLines(lines)
  {
    if lines == [] {
    } else {
      var first, rest := lines[0], lines[1..];
      TidyLineShrinks(first);
      TidyLinesShrink(rest);
      TidyCons(lines);
      assert TidyLines(lines)[1..] == TidyLines(rest);
      if rest != [] {
        LineShrinks(first, TidyLine(first), JoinLines(rest), JoinLines(TidyLines(rest)));
      }
    }
  }

  // ---- line breaks -----------------------------------------------------------------

  lemma {:induction false} BreaksHold(s: string)
    ensures forall k :: 0 <= k < Breaks(s) ==> s[k] == '\n'
    ensures Breaks(s) < |s| ==> s[Breaks(s)] != '\n'
  {
    if s != "" && s[0] == '\n' {
      BreaksHold(s[1..]);
      assert forall k :: 0 < k < |s| ==> s[k] == s[1..][k - 1];
    } else {
    }
  }

  lemma TripleAtHeadOrLater(s: string)
    requires s != ""
    ensures HasTripleBreak(s) <==> Breaks(s) >= 3 || HasTripleBreak(s[1..])
  {
    BreaksHold(s);
    var rest := s[1..];
    assert forall k :: 0 <= k < |rest| ==> rest[k] == s[k + 1];
    if i :| 0 <= i < |s| - 2 && s[i] == s[i + 1] == s[i + 2] == '\n' {
      if i > 0 {
        assert rest[i - 1] == rest[i - 1 + 1] == rest[i - 1 + 2] == '\n';
      }
    }
    if i :| 0 <= i < |rest| - 2 && rest[i] == rest[i + 1] == rest[i + 2] == '\n' {
      assert s[i + 1] == s[i + 1 + 1] == s[i + 1 + 2] == '\n';
    }
    if Breaks(s) >= 3 {
      assert s[0] == s[0 + 1] == s[0 + 2] == '\n';
    }
  }

  /** Where `n` breaks open a text, `n` at least two, two of them and what the rest became. */
  lemma BreaksShrink(s: string, n: nat, rest: string)
    requires 2 <= n <= |s| && (forall k :: 0 <= k < n ==> s[k] == '\n') && Shrinks(s[n..], rest)
    ensures Shrinks(s, "\n\n" + rest) && (n > 2 ==> s != "\n\n" + rest)
  {
    var more := s[2..n];
    assert s == "\n\n" + (more + s[n..]);
    BracketsConcat(more, s[n..]);
    assert '<' !in more;
    assert Shrinks(more + s[n..], rest) && (n > 2 ==> more + s[n..] != rest);
    ShrinksInParts("\n\n", "\n\n", more + s[n..], rest);
  }

  lemma HeadKept(s: string, rest: string)
    requires s != "" && Shrinks(s[1..], rest)
    ensures Shrinks(s, [s[0]] + rest) && ([s[0]] + rest == s <==> rest == s[1..])
  {
    assert s == [s[0]] + s[1..];
    ShrinksInParts([s[0]], [s[0]], s[1..], rest);
  }

  lemma {:induction false} SqueezedShrinks(s: string)
    ensures Shrinks(s, Squeezed(s)) && (Squeezed(s) == s <==> !HasTripleBreak(s))
    decreases |s|
  {
    if s == "" {
    } else {
      TripleAtHeadOrLater(s);
      if Breaks(s) >= 3 {
        var n := Breaks(s);
        BreaksHold(s);
        SqueezedShrinks(s[n..]);
        BreaksShrink(s, n, Squeezed(s[n..]));
        assert Squeezed(s) == "\n\n" + Squeezed(s[n..]);
      } else {
        SqueezedShrinks(s[1..]);
        HeadKept(s, Squeezed(s[1..]));
      }
    }
  }

  // ---- the whole pass --------------------------------------------------------------

  lemma TidiedShrinks(s: string)
    ensures Shrinks(s, Tidied(s))
  {
    var joined := JoinLines(TidyLines(SplitLines(s)));
    JoinInvertsSplit(s);
    TidyLinesShrink(SplitLines(s));
    SqueezedShrinks(joined);
    TrimShrinks(Squeezed(joined));
    ShrinksTwice(s, joined, Squeezed(joined));
    ShrinksTwice(s, Squeezed(joined), Tidied(s));
  }

  /** The pass leaves a text as it is exactly if it is tidy. */
  lemma TidiedIsSame(s: string)
    ensures Tidied(s) == s <==> IsTidy(s)
  {
    var joined := JoinLines(TidyLines(SplitLines(s)));
    JoinInvertsSplit(s);
    TidyLinesShrink(SplitLines(s));
    SqueezedShrinks(joined);
    TrimShrinks(Squeezed(joined));
    ShrinksTwice(s, joined, Squeezed(joined));
    ShrinksTwice(s, Squeezed(joined), Tidied(s));
  }
}
