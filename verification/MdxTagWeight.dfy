/**
 How much the replacement of a component tag stands for, scripts/kb-mdx.ts lines 83-170.

 It takes each attribute value once at most, and drops the bracket that opens the tag: unmasked, it
 holds fewer `<` than the tag itself did.

 - What the scanner keeps at the top level is no heavier than what it read.
 - No two attribute values overlap, so together they are no heavier than the tag.
 - Trimming, collapsing and capitalising a value add nothing, nor does the text put around it.
 */
module MdxTagWeight {
  import opened Wrappers
  import opened Text
  import opened MdxInlineCode
  import opened MdxPlaceholders
  import opened MdxTags
  import opened MdxProse

  /** Whole text that stands for at most so many brackets. */
  ghost predicate IsLight(s: string, spans: seq<string>, most: int) {
    IsWhole(s) && Weight(s, spans) <= most
  }

  predicate IsUnlettered(s: string) {
    forall k :: 0 <= k < |s| ==> s[k] == NUL || IsDigit(s[k])
  }

  /** Whole text in two whole parts, the first a character or a placeholder. */
  lemma HeadParts(s: string, spans: seq<string>) returns (head: string, rest: string)
    requires s != "" && IsWhole(s)
    ensures s == head + rest && head != "" && IsWhole(head) && IsWhole(rest) && (|head| == 1 || IsUnlettered(head))
    ensures Weight(s, spans) == Weight(head, spans) + Weight(rest, spans)
  {
    var first, later, _ := HeadShown(s, spans);
    head, rest := first, later;
    WeightConcat(head, rest, spans);
  }

  lemma SlicesAre(t: string, i: nat, e: nat, head: string, rest: string)
    requires i <= e <= |t| && t[i..e] == head + rest
    ensures i + |head| <= e && t[i..i + |head|] == head && t[i + |head|..e] == rest
  {
    assert t[i..i + |head|] == t[i..e][..|head|];
    assert t[i + |head|..e] == t[i..e][|head|..];
  }

  /** The head of a slice, and what is left of it. */
  lemma SliceHead(t: string, i: nat, e: nat, spans: seq<string>) returns (next: nat)
    requires i < e <= |t| && IsWhole(t[i..e])
    ensures i < next <= e && IsWhole(t[i..next]) && IsWhole(t[next..e])
    ensures Weight(t[i..e], spans) == Weight(t[i..next], spans) + Weight(t[next..e], spans)
    ensures next == i + 1 || IsUnlettered(t[i..next])
  {
    var head, rest := HeadParts(t[i..e], spans);
    next := i + |head|;
    SlicesAre(t, i, e, head, rest);
  }

  /** After text without NUL, what is left is whole and weighs the rest. */
  lemma AfterWeighs(a: string, b: string, spans: seq<string>)
    requires IsWhole(a + b) && NUL !in a
    ensures IsWhole(b) && Weight(a + b, spans) == Brackets(a) + Weight(b, spans)
  {
    WholeAfter(a, b);
    NulFreeIsWhole(a);
    NulFreeWeighs(a, spans);
    WeightConcat(a, b, spans);
  }

  /** Text before a character that stands apart is whole. */
  lemma BeforeWeighs(a: string, b: string, spans: seq<string>)
    requires IsWhole(a + b) && b != "" && IsApart(b[0])
    ensures IsWhole(a) && IsWhole(b) && Weight(a + b, spans) == Weight(a, spans) + Weight(b, spans)
  {
    WholeSplits(a, b);
    WeightConcat(a, b, spans);
  }

  lemma SliceAfter(t: string, i: nat, j: nat, e: nat, spans: seq<string>)
    requires i <= j <= e <= |t| && IsWhole(t[i..e]) && NUL !in t[i..j]
    ensures IsWhole(t[j..e]) && Weight(t[i..e], spans) == Brackets(t[i..j]) + Weight(t[j..e], spans)
  {
    assert t[i..e] == t[i..j] + t[j..e];
    AfterWeighs(t[i..j], t[j..e], spans);
  }

  lemma SliceBefore(t: string, i: nat, j: nat, e: nat, spans: seq<string>)
    requires i <= j < e <= |t| && IsWhole(t[i..e]) && IsApart(t[j])
    ensures IsWhole(t[i..j]) && IsWhole(t[j..e])
    ensures Weight(t[i..e], spans) == Weight(t[i..j], spans) + Weight(t[j..e], spans)
  {
    assert t[i..e] == t[i..j] + t[j..e];
    BeforeWeighs(t[i..j], t[j..e], spans);
  }

  lemma SliceJoin(t: string, i: nat, j: nat, e: nat, spans: seq<string>)
    requires i <= j <= e <= |t| && IsWhole(t[i..j]) && IsWhole(t[j..e])
    ensures IsWhole(t[i..e]) && Weight(t[i..e], spans) == Weight(t[i..j], spans) + Weight(t[j..e], spans)
  {
    assert t[i..e] == t[i..j] + t[j..e];
    WholeConcat(t[i..j], t[j..e]);
    WeightConcat(t[i..j], t[j..e], spans);
  }

  lemma SliceAlone(t: string, j: nat, spans: seq<string>)
    requires j < |t| && t[j] != NUL
    ensures IsWhole(t[j..j + 1]) && Brackets(t[j..j + 1]) == Weight(t[j..j + 1], spans) == if t[j] == '<' then 1 else 0
  {
    assert t[j..j + 1] == [t[j]];
    NulFreeIsWhole([t[j]]);
    NulFreeWeighs([t[j]], spans);
  }

  predicate IsIdle(s: string) {
    NUL !in s && '<' !in s
  }

  lemma AroundIsLight(before: string, s: string, after: string, spans: seq<string>, most: int)
    requires IsIdle(before) && IsIdle(after) && IsLight(s, spans, most)
    ensures IsLight(before + s + after, spans, most)
  {
    NulFreeIsWhole(before);
    NulFreeIsWhole(after);
    NulFreeWeighs(before, spans);
    NulFreeWeighs(after, spans);
    WholeConcat(before, s);
    WholeConcat(before + s, after);
    WeightConcat(before, s, spans);
    WeightConcat(before + s, after, spans);
  }

  // ---- what the scanner keeps ------------------------------------------------------

  /** The characters that change the scanner's state. */
  predicate IsMark(c: char) {
    c == '"' || c == '\'' || c == '`' || c == '{' || c == '}'
  }

  lemma {:induction false} QuoteIsMark(t: string, start: nat, i: nat)
    requires i <= |t|
    ensures StateAt(t, start, i).quote.Some? ==> IsMark(StateAt(t, start, i).quote.value)
    decreases i
  {
    if i <= start {
    } else {
      QuoteIsMark(t, start, i - 1);
    }
  }

  /** A character that is no mark leaves the scanner's state as it is. */
  lemma UnmarkedStep(t: string, start: nat, j: nat)
    requires start <= j < |t| && !IsMark(t[j])
    ensures StateAt(t, start, j + 1) == StateAt(t, start, j)
    ensures TopLevel(t, start, j + 1) ==
            TopLevel(t, start, j) + if StateAt(t, start, j).depth == 0 then [t[j]] else ""
  {
    QuoteIsMark(t, start, j);
    ScanOn(t, start, j);
  }

  lemma SliceGrows(t: string, i: nat, j: nat)
    requires i <= j < |t|
    ensures t[i..j + 1] == t[i..j] + [t[j]]
  {
  }

  lemma {:induction false} UnmarkedIsScanned(t: string, start: nat, i: nat, j: nat)
    requires start <= i <= j <= |t| && forall k :: i <= k < j ==> !IsMark(t[k])
    ensures StateAt(t, start, j) == StateAt(t, start, i)
    ensures TopLevel(t, start, j) == TopLevel(t, start, i) + if StateAt(t, start, i).depth == 0 then t[i..j] else ""
    decreases j - i
  {
    if i == j {
      assert t[i..j] == "";
    } else {
      UnmarkedIsScanned(t, start, i, j - 1);
      UnmarkedStep(t, start, j - 1);
      SliceGrows(t, i, j - 1);
      Reassociate(TopLevel(t, start, i), t[i..j - 1], [t[j - 1]]);
    }
  }

  /** What the scanner keeps of one character or placeholder: all of it, or nothing. */
  lemma HeadIsScanned(t: string, start: nat, i: nat, next: nat) returns (kept: string)
    requires start <= i < next <= |t| && (next == i + 1 || IsUnlettered(t[i..next]))
    ensures kept == "" || kept == t[i..next]
    ensures TopLevel(t, start, next) == TopLevel(t, start, i) + kept
  {
    if next == i + 1 {
      ScanOn(t, start, i);
      kept := if StateAt(t, start, i + 1).depth == 0 then [t[i]] else "";
      assert t[i..i + 1] == [t[i]];
    } else {
      assert forall k :: i <= k < next ==> t[k] == t[i..next][k - i];
      UnmarkedIsScanned(t, start, i, next);
      kept := if StateAt(t, start, i).depth == 0 then t[i..next] else "";
    }
  }

  /** From `i` to `e` the scanner keeps `rest`, and it weighs no more than what was read. */
  ghost predicate IsKept(t: string, start: nat, i: nat, e: nat, rest: string, spans: seq<string>) {
    && i <= e <= |t|
    && TopLevel(t, start, e) == TopLevel(t, start, i) + rest && IsLight(rest, spans, Weight(t[i..e], spans))
  }

  lemma HeadThenRest(kept: string, head: string, more: string, most: int, spans: seq<string>)
    requires (kept == "" || kept == head) && IsWhole(head) && IsLight(more, spans, most)
    ensures IsLight(kept + more, spans, Weight(head, spans) + most)
  {
    WholeConcat(kept, more);
    WeightConcat(kept, more, spans);
  }

  lemma OneMoreKept(t: string, start: nat, i: nat, next: nat, e: nat, kept: string, more: string, spans: seq<string>)
    requires i <= next <= |t| && TopLevel(t, start, next) == TopLevel(t, start, i) + kept
    requires (kept == "" || kept == t[i..next]) && IsWhole(t[i..next]) && IsKept(t, start, next, e, more, spans)
    requires Weight(t[i..e], spans) == Weight(t[i..next], spans) + Weight(t[next..e], spans)
    ensures IsKept(t, start, i, e, kept + more, spans)
  {
    HeadThenRest(kept, t[i..next], more, Weight(t[next..e], spans), spans);
    Reassociate(TopLevel(t, start, i), kept, more);
  }

  /** The characters at the top level weigh no more than all of them. */
  lemma {:induction false} TopLevelIsLight(t: string, start: nat, i: nat, e: nat, spans: seq<string>)
      returns (rest: string)
    requires start <= i <= e <= |t| && IsWhole(t[i..e])
    ensures IsKept(t, start, i, e, rest, spans)
    decreases e - i
  {
    if i == e {
      rest := "";
    } else {
      var next := SliceHead(t, i, e, spans);
      var kept := HeadIsScanned(t, start, i, next);
      var more := TopLevelIsLight(t, start, next, e, spans);
      OneMoreKept(t, start, i, next, e, kept, more, spans);
      rest := kept + more;
    }
  }

  // ---- attribute values ------------------------------------------------------------

  /** Whole values, of which any two together weigh no more than `most`. */
  ghost predicate AreLight(attrs: map<string, string>, spans: seq<string>, most: int) {
    && (forall a :: a in attrs ==> IsLight(attrs[a], spans, most))
    && (forall a, b :: a in attrs && b in attrs && a != b
          ==> Weight(attrs[a], spans) + Weight(attrs[b], spans) <= most)
  }

  lemma OneMoreIsLight(name: string, value: string, attrs: map<string, string>, spans: seq<string>, one: int, most: int)
    requires IsLight(value, spans, one) && AreLight(attrs, spans, most) && one >= 0 && most >= 0
    ensures AreLight(map[name := value] + attrs, spans, one + most)
  {
  }

  lemma {:induction false} WordEndHolds(s: string, i: nat)
    requires i <= |s|
    ensures forall k :: i <= k < WordEnd(s, i) ==> IsWordChar(s[k])
    decreases |s| - i
  {
    if i < |s| && IsWordChar(s[i]) {
      WordEndHolds(s, i + 1);
    } else {
    }
  }

  /** Where the value of an attribute begins; what stands before it holds no NUL. */
  lemma ValueStands(s: string, i: nat, a: Attr) returns (v: nat)
    requires AttrAt(s, i) == Some(a)
    ensures i < v < a.end && a.value == s[v..a.end - 1] && NUL !in s[i..v] && IsQuote(s[a.end - 1])
  {
    var j := WordEnd(s, i + 1);
    WordEndHolds(s, i + 1);
    FindIsFirst(s, j + 2, s[j + 1]);
    v := j + 2;
    forall k | 0 <= k < v - i ensures s[i..v][k] != NUL {
      assert s[i..v][k] == s[i + k];
    }
  }

  lemma PastQuote(s: string, q: nat, spans: seq<string>)
    requires q < |s| && (s[q] == '"' || s[q] == '\'') && IsWhole(s[q..|s|])
    ensures IsWhole(s[q + 1..|s|]) && Weight(s[q + 1..|s|], spans) <= Weight(s[q..|s|], spans)
  {
    assert s[q..q + 1] == [s[q]];
    SliceAfter(s, q, q + 1, |s|, spans);
  }

  lemma ValueIsLight(s: string, i: nat, a: Attr, spans: seq<string>)
    requires AttrAt(s, i) == Some(a) && IsWhole(s[i..|s|])
    ensures IsWhole(a.value) && IsWhole(s[a.end..|s|])
    ensures Weight(a.value, spans) + Weight(s[a.end..|s|], spans) <= Weight(s[i..|s|], spans)
  {
    var v := ValueStands(s, i, a);
    SliceAfter(s, i, v, |s|, spans);
    SliceBefore(s, v, a.end - 1, |s|, spans);
    PastQuote(s, a.end - 1, spans);
  }

  lemma {:induction false} NoAttrBetween(s: string, i: nat, j: nat)
    requires i <= j <= |s| && forall k :: i <= k < j ==> !IsLetter(s[k])
    ensures Attrs(s, i) == Attrs(s, j)
    decreases j - i
  {
    if i == j {
    } else {
      AttrsSkip(s, i);
      NoAttrBetween(s, i + 1, j);
    }
  }

  /** Past one character or placeholder in which no attribute stands. */
  lemma PastHead(s: string, i: nat, spans: seq<string>) returns (next: nat)
    requires i < |s| && AttrAt(s, i) == None && IsWhole(s[i..|s|])
    ensures i < next <= |s| && Attrs(s, i) == Attrs(s, next) && IsWhole(s[next..|s|])
    ensures Weight(s[next..|s|], spans) <= Weight(s[i..|s|], spans)
  {
    next := SliceHead(s, i, |s|, spans);
    if next == i + 1 {
      AttrsSkip(s, i);
    } else {
      assert forall k :: i <= k < next ==> s[k] == s[i..next][k - i];
      NoAttrBetween(s, i, next);
    }
  }

  lemma LightEnough(attrs: map<string, string>, spans: seq<string>, some: int, most: int)
    requires AreLight(attrs, spans, some) && some <= most
    ensures AreLight(attrs, spans, most)
  {
  }

  lemma FirstIsLight(s: string, i: nat, a: Attr, spans: seq<string>)
    requires AttrAt(s, i) == Some(a) && IsWhole(a.value) && i <= |s|
    requires Weight(a.value, spans) + Weight(s[a.end..|s|], spans) <= Weight(s[i..|s|], spans)
    requires AreLight(Attrs(s, a.end), spans, Weight(s[a.end..|s|], spans))
    ensures AreLight(map[a.name := a.value] + Attrs(s, a.end), spans, Weight(s[i..|s|], spans))
  {
    OneMoreIsLight(a.name, a.value, Attrs(s, a.end), spans, Weight(a.value, spans), Weight(s[a.end..|s|], spans));
    LightEnough(map[a.name := a.value] + Attrs(s, a.end), spans,
                Weight(a.value, spans) + Weight(s[a.end..|s|], spans), Weight(s[i..|s|], spans));
  }

  lemma {:induction false} AttrsAreLight(s: string, i: nat, spans: seq<string>)
    requires i <= |s| && IsWhole(s[i..|s|])
    ensures AreLight(Attrs(s, i), spans, Weight(s[i..|s|], spans))
    decreases |s| - i
  {
    if i == |s| {
    } else {
      match AttrAt(s, i)
      case Some(a) =>
        ValueIsLight(s, i, a, spans);
        AttrsAreLight(s, a.end, spans);
        AttrsTake(s, i, a);
        FirstIsLight(s, i, a, spans);
      case None =>
        var next := PastHead(s, i, spans);
        AttrsAreLight(s, next, spans);
        LightEnough(Attrs(s, i), spans, Weight(s[next..|s|], spans), Weight(s[i..|s|], spans));
    }
  }

  // ---- replacements ----------------------------------------------------------------

  lemma {:induction false} TrimStartIsLight(s: string, spans: seq<string>)
    requires IsWhole(s)
    ensures IsLight(TrimStart(s), spans, Weight(s, spans))
  {
    if s != "" && IsSpace(s[0]) {
      assert s == [s[0]] + s[1..];
      AfterWeighs([s[0]], s[1..], spans);
      TrimStartIsLight(s[1..], spans);
    } else {
    }
  }

  lemma {:induction false} TrimEndIsLight(s: string, spans: seq<string>)
    requires IsWhole(s)
    ensures IsLight(TrimEnd(s), spans, Weight(s, spans))
  {
    if s != "" && IsSpace(s[|s| - 1]) {
      var front, last := s[..|s| - 1], [s[|s| - 1]];
      assert s == front + last;
      BeforeWeighs(front, last, spans);
      TrimEndIsLight(front, spans);
    } else {
    }
  }

  lemma {:induction false} AfterSpacesIsLight(s: string, spans: seq<string>)
    requires s != "" && IsSpace(s[0]) && IsWhole(s)
    ensures IsLight(AfterSpaces(s), spans, Weight(s, spans))
  {
    assert s == [s[0]] + s[1..];
    AfterWeighs([s[0]], s[1..], spans);
    if |s| > 1 && IsSpace(s[1]) {
      AfterSpacesIsLight(s[1..], spans);
    } else {
    }
  }

  lemma {:induction false} CollapsedCopies(s: string, n: nat)
    requires n <= |s| && forall k :: 0 <= k < n ==> !IsSpace(s[k])
    ensures Collapsed(s) == s[..n] + Collapsed(s[n..])
    decreases n
  {
    if n == 0 {
      assert s[n..] == s;
    } else {
      CollapsedCopies(s[1..], n - 1);
      assert s[1..][n - 1..] == s[n..];
      assert s[..n] == [s[0]] + s[1..][..n - 1];
      Reassociate([s[0]], s[1..][..n - 1], Collapsed(s[n..]));
    }
  }

  lemma SpaceIsLight(rest: string, spans: seq<string>, most: int)
    requires IsLight(rest, spans, most)
    ensures IsLight(" " + rest, spans, most)
  {
    AroundIsLight(" ", rest, "", spans, most);
    assert " " + rest + "" == " " + rest;
  }

  lemma CollapsedHead(s: string, spans: seq<string>) returns (head: string, rest: string)
    requires s != "" && IsWhole(s) && !IsSpace(s[0])
    ensures |rest| < |s| && IsWhole(head) && IsWhole(rest) && Collapsed(s) == head + Collapsed(rest)
    ensures Weight(s, spans) == Weight(head, spans) + Weight(rest, spans)
  {
    head, rest := HeadParts(s, spans);
    assert s[..|head|] == head && s[|head|..] == rest;
    assert forall k :: 0 <= k < |head| ==> s[k] == head[k];
    CollapsedCopies(s, |head|);
  }

  lemma {:induction false} CollapsedIsLight(s: string, spans: seq<string>)
    requires IsWhole(s)
    ensures IsLight(Collapsed(s), spans, Weight(s, spans))
    decreases |s|
  {
    if s == "" {
    } else if IsSpace(s[0]) {
      AfterSpacesIsLight(s, spans);
      CollapsedIsLight(AfterSpaces(s), spans);
      SpaceIsLight(Collapsed(AfterSpaces(s)), spans, Weight(s, spans));
    } else {
      var head, rest := CollapsedHead(s, spans);
      CollapsedIsLight(rest, spans);
      HeadThenRest(head, head, Collapsed(rest), Weight(rest, spans), spans);
    }
  }

  lemma SentenceIsLight(s: string, spans: seq<string>, most: int)
    requires IsLight(s, spans, most)
    ensures IsLight(Sentence(s), spans, most)
  {
    TrimStartIsLight(s, spans);
    TrimEndIsLight(TrimStart(s), spans);
    CollapsedIsLight(Trim(s), spans);
    var t := Collapsed(Trim(s));
    AroundIsLight("", t, ".", spans, most);
    assert "" + t + "." == t + ".";
  }

  lemma CapitalizedIsLight(s: string, spans: seq<string>, most: int)
    requires IsLight(s, spans, most)
    ensures IsLight(Capitalized(s), spans, most)
  {
    if s != "" && 'a' <= s[0] <= 'z' {
      assert s == [s[0]] + s[1..];
      AfterWeighs([s[0]], s[1..], spans);
      AroundIsLight([s[0] - 'a' + 'A'], s[1..], "", spans, most);
      assert [s[0] - 'a' + 'A'] + s[1..] + "" == Capitalized(s);
    }
  }

  lemma LinkCardIsLight(tag: Tag, spans: seq<string>, most: int)
    requires AreLight(tag.attrs, spans, most) && most >= 0
    ensures IsLight(LinkCardText(tag), spans, most)
  {
    var title, description := Attribute(tag, "title"), Attribute(tag, "description");
    if IsFilled(title) {
      AroundIsLight("**", title.value, "**", spans, Weight(title.value, spans));
      if IsFilled(description) {
        var sentence := Sentence(description.value);
        SentenceIsLight(description.value, spans, Weight(description.value, spans));
        AroundIsLight("**", title.value, "**: ", spans, Weight(title.value, spans));
        WholeConcat("**" + title.value + "**: ", sentence);
        WeightConcat("**" + title.value + "**: ", sentence, spans);
      }
    }
  }

  lemma {:induction false} FirstPresentIsOne(tag: Tag, names: seq<string>)
    ensures FirstPresent(tag, names).Some? ==>
      exists a :: a in tag.attrs && FirstPresent(tag, names).value == tag.attrs[a]
  {
    if names == [] {
    } else {
      FirstPresentIsOne(tag, names[1..]);
    }
  }

  lemma {:induction false} FirstFilledIsOne(tag: Tag, names: seq<string>)
    ensures FirstFilled(tag, names).Some? ==>
      exists a :: a in tag.attrs && FirstFilled(tag, names).value == tag.attrs[a]
  {
    if names == [] {
    } else {
      FirstFilledIsOne(tag, names[1..]);
    }
  }

  lemma LabelIsLight(tag: Tag, spans: seq<string>, most: int)
    requires AreLight(tag.attrs, spans, most) && most >= 0
    ensures IsLight(LabelText(tag), spans, most)
  {
    FirstPresentIsOne(tag, ["label", "title", "type"]);
    var found := FirstPresent(tag, ["label", "title", "type"]);
    if found.Some? {
      CapitalizedIsLight(found.value, spans, most);
      AroundIsLight("**", found.value, ":**", spans, most);
      AroundIsLight("**", Capitalized(found.value), ":**", spans, most);
    }
  }

  lemma NothingIsLight(spans: seq<string>, most: int)
    requires most >= 0
    ensures IsLight("", spans, most)
  {
  }

  lemma CaptionOpensIdle(kind: string)
    requires kind == "Screenshot" || kind == "Diagram"
    ensures IsIdle("_" + kind + ": ")
  {
    assert NUL !in "Screenshot" && NUL !in "Diagram" && '<' !in "Screenshot" && '<' !in "Diagram";
    NotInEither(NUL, "_", kind);
    NotInEither(NUL, "_" + kind, ": ");
    NotInEither('<', "_", kind);
    NotInEither('<', "_" + kind, ": ");
  }

  lemma ShownIsLight(kind: string, text: string, spans: seq<string>, most: int)
    requires (kind == "Screenshot" || kind == "Diagram") && IsLight(text, spans, most)
    ensures IsLight("_" + kind + ": " + Sentence(text) + "_", spans, most)
  {
    SentenceIsLight(text, spans, most);
    CaptionOpensIdle(kind);
    AroundIsLight("_" + kind + ": ", Sentence(text), "_", spans, most);
  }

  lemma CaptionIsLight(tag: Tag, spans: seq<string>, most: int)
    requires AreLight(tag.attrs, spans, most) && most >= 0
    ensures IsLight(CaptionText(tag), spans, most)
  {
    var found := FirstFilled(tag, ["caption", "alt", "title", "description"]);
    FirstFilledIsOne(tag, ["caption", "alt", "title", "description"]);
    if found == None {
      NothingIsLight(spans, most);
    } else {
      ShownIsLight(if tag.name == "Screenshot" then "Screenshot" else "Diagram", found.value, spans, most);
    }
  }

  lemma ReplacementIsLight(tag: Tag, spans: seq<string>, most: int)
    requires AreLight(tag.attrs, spans, most) && most >= 0
    ensures ReplacementFor(tag).Some? ==> IsLight(ReplacementFor(tag).value, spans, most)
  {
    NothingIsLight(spans, most);
    LinkCardIsLight(tag, spans, most);
    LabelIsLight(tag, spans, most);
    CaptionIsLight(tag, spans, most);
  }

  // ---- a whole tag -----------------------------------------------------------------

  lemma HeadHolds(t: string, start: nat, from: nat, to: nat)
    requires Head(t, start) == Some((from, to))
    ensures start < to && t[start] == '<' && NUL !in t[start..to]
  {
    forall k | 0 <= k < to - start ensures t[start..to][k] != NUL {
      assert t[start..to][k] == t[start + k];
    }
  }

  lemma PastBracket(t: string, e: nat, spans: seq<string>)
    requires e < |t| && t[e] == '>' && IsWhole(t[e..|t|])
    ensures IsWhole(t[e + 1..|t|])
  {
    assert t[e..e + 1] == [t[e]];
    SliceAfter(t, e, e + 1, |t|, spans);
  }

  lemma OpeningWeighs(t: string, start: nat, to: nat, spans: seq<string>)
    requires start < to <= |t| && t[start] == '<' && NUL !in t[start..to]
    ensures IsWhole(t[start..to]) && Weight(t[start..to], spans) > 0
  {
    NulFreeIsWhole(t[start..to]);
    NulFreeWeighs(t[start..to], spans);
    assert t[start..to][0] == '<';
  }

  lemma AroundTag(t: string, start: nat, to: nat, e: nat, spans: seq<string>)
    requires start < to <= e < |t| && t[start] == '<' && t[e] == '>' && NUL !in t[start..to] && IsWhole(t[to..e])
    ensures IsWhole(t[start..e + 1]) && Weight(t[to..e], spans) < Weight(t[start..e + 1], spans)
  {
    OpeningWeighs(t, start, to, spans);
    SliceJoin(t, start, to, e, spans);
    SliceAlone(t, e, spans);
    SliceJoin(t, start, e, e + 1, spans);
  }

  /** The parts of a tag in whole text, from its opening to just past its end. */
  lemma TagIsWhole(t: string, start: nat, to: nat, e: nat, spans: seq<string>)
    requires start < to <= e < |t| && t[start] == '<' && t[e] == '>' && NUL !in t[start..to] && IsWhole(t[start..|t|])
    ensures IsWhole(t[to..e]) && IsWhole(t[start..e + 1]) && IsWhole(t[e + 1..|t|])
    ensures Weight(t[to..e], spans) < Weight(t[start..e + 1], spans)
  {
    SliceAfter(t, start, to, |t|, spans);
    SliceBefore(t, to, e, |t|, spans);
    PastBracket(t, e, spans);
    AroundTag(t, start, to, e, spans);
  }

  lemma AttrsWeigh(t: string, to: nat, e: nat, spans: seq<string>)
    requires to <= e <= |t| && IsWhole(t[to..e])
    ensures AreLight(Attrs(TopLevel(t, to, e), 0), spans, Weight(t[to..e], spans))
  {
    var rest := TopLevelIsLight(t, to, to, e, spans);
    assert TopLevel(t, to, e) == rest && rest[0..|rest|] == rest;
    AttrsAreLight(rest, 0, spans);
    LightEnough(Attrs(rest, 0), spans, Weight(rest, spans), Weight(t[to..e], spans));
  }

  /** Where the name of a tag ends, and its closing bracket. */
  lemma TagFound(t: string, at: nat) returns (to: nat, e: nat)
    requires at < |t| && TagAt(t, at).Some?
    ensures at < to <= e < |t| && t[at] == '<' && t[e] == '>' && NUL !in t[at..to]
    ensures TagAt(t, at).value.end == e + 1 && TagAt(t, at).value.attrs == Attrs(TopLevel(t, to, e), 0)
  {
    var (from, past) := Head(t, at).value;
    to, e := past, FindEnd(t, past, past).value;
    TagAtFrom(t, at, from, to, e);
    HeadHolds(t, at, from, to);
    FindEndIsFirst(t, to, to);
  }

  /** Whole text for a whole tag at `at`, standing for fewer brackets than the tag. */
  ghost predicate IsLighter(r: Replacement, t: string, at: nat, spans: seq<string>) {
    && r.Becomes? && at <= r.end <= |t|
    && IsWhole(r.text) && IsWhole(t[at..r.end]) && IsWhole(t[r.end..|t|])
    && Weight(r.text, spans) < Weight(t[at..r.end], spans)
  }

  lemma TextIsLight(t: string, to: nat, e: nat, tag: Tag, text: string, spans: seq<string>)
    requires to <= e <= |t| && IsWhole(t[to..e])
    requires tag.attrs == Attrs(TopLevel(t, to, e), 0) && ReplacementFor(tag) == Some(text)
    ensures IsLight(text, spans, Weight(t[to..e], spans))
  {
    AttrsWeigh(t, to, e, spans);
    ReplacementIsLight(tag, spans, Weight(t[to..e], spans));
  }

  lemma LightIsLighter(t: string, at: nat, to: nat, e: nat, text: string, spans: seq<string>)
    requires at < to <= e < |t| && t[at] == '<' && t[e] == '>' && NUL !in t[at..to] && IsWhole(t[at..|t|])
    requires IsWhole(t[to..e]) ==> IsLight(text, spans, Weight(t[to..e], spans))
    ensures IsLighter(Becomes(text, e + 1), t, at, spans)
  {
    TagIsWhole(t, at, to, e, spans);
  }

  /** The parts of a tag that is replaced; its text stands for no more brackets than what is read for attributes. */
  lemma ReplacedTag(t: string, at: nat, spans: seq<string>) returns (to: nat, e: nat, text: string)
    requires at < |t| && Replaced(t, at).Becomes?
    ensures at < to <= e < |t| && t[at] == '<' && t[e] == '>' && NUL !in t[at..to]
    ensures Replaced(t, at) == Becomes(text, e + 1)
    ensures IsWhole(t[to..e]) ==> IsLight(text, spans, Weight(t[to..e], spans))
  {
    to, e := TagFound(t, at);
    text := Replaced(t, at).text;
    if IsWhole(t[to..e]) {
      TextIsLight(t, to, e, TagAt(t, at).value, text, spans);
    }
  }

  /** What replaces a tag stands for fewer brackets than the tag. */
  lemma ReplacedIsLighter(t: string, at: nat, spans: seq<string>)
    requires at < |t| && IsWhole(t[at..|t|]) && Replaced(t, at).Becomes?
    ensures IsLighter(Replaced(t, at), t, at, spans)
  {
    var to, e, text := ReplacedTag(t, at, spans);
    LightIsLighter(t, at, to, e, text, spans);
  }
}
