/**
 The rewriting of prose in the MDX cleaner, scripts/kb-mdx.ts lines 12-14 and 133-207: imports and
 comments go, inline code is masked, known component tags are replaced, inline code comes back.
 */
module MdxProse {
  import opened Wrappers
  import opened Text
  import opened MdxInlineCode
  import opened MdxTags
  import opened MdxFences

  // ---- what a tag becomes ----------------------------------------------------------

  const WRAPPERS := {"Tabs", "Steps", "CardGrid"}
  const LABELLED := {"TabItem", "Card", "Aside"}

  function AfterSpaces(s: string): (r: string)
    requires s != "" && IsSpace(s[0])
    ensures |r| < |s|
  {
    if |s| > 1 && IsSpace(s[1]) then AfterSpaces(s[1..]) else s[1..]
  }

  /** White space runs become single spaces. */
  function Collapsed(s: string): string
    decreases |s|
  {
    if s == "" then ""
    else if IsSpace(s[0]) then " " + Collapsed(AfterSpaces(s))
    else [s[0]] + Collapsed(s[1..])
  }

  function Sentence(text: string): string {
    var t := Collapsed(Trim(text));
    if t != "" && t[|t| - 1] in {'.', '!', '?', ':'} then t else t + "."
  }

  function Attribute(tag: Tag, name: string): Option<string> {
    if name in tag.attrs then Some(tag.attrs[name]) else None
  }

  /** The first of several attributes that is present, even if empty. */
  function FirstPresent(tag: Tag, names: seq<string>): Option<string> {
    if names == [] then None
    else if names[0] in tag.attrs then Some(tag.attrs[names[0]])
    else FirstPresent(tag, names[1..])
  }

  /** The first of several attributes that holds more than white space. */
  function FirstFilled(tag: Tag, names: seq<string>): Option<string> {
    if names == [] then None
    else if names[0] in tag.attrs && Trim(tag.attrs[names[0]]) != "" then Some(tag.attrs[names[0]])
    else FirstFilled(tag, names[1..])
  }

  function Capitalized(s: string): string {
    if s != "" && 'a' <= s[0] <= 'z' then [s[0] - 'a' + 'A'] + s[1..] else s
  }

  predicate IsFilled(value: Option<string>) {
    value.Some? && value.value != ""
  }

  function LinkCardText(tag: Tag): string {
    var title, description := Attribute(tag, "title"), Attribute(tag, "description");
    if !IsFilled(title) then ""
    else if IsFilled(description) then "**" + title.value + "**: " + Sentence(description.value)
    else "**" + title.value + "**"
  }

  function LabelText(tag: Tag): string {
    var found := FirstPresent(tag, ["label", "title", "type"]);
    if !IsFilled(found) then ""
    else
      var shown :=
        if tag.name == "Aside" && !IsFilled(Attribute(tag, "title")) then Capitalized(found.value) else found.value;
      "**" + shown + ":**"
  }

  function CaptionText(tag: Tag): string {
    match FirstFilled(tag, ["caption", "alt", "title", "description"])
    case None => ""
    case Some(text) =>
      "_" + (if tag.name == "Screenshot" then "Screenshot" else "Diagram") + ": " + Sentence(text) + "_"
  }

  /** The text a tag is replaced with, or nothing if it stays in place. */
  function ReplacementFor(tag: Tag): Option<string> {
    if tag.closing then
      if tag.name in WRAPPERS || tag.name in LABELLED || tag.name == "LinkCard" then Some("") else None
    else if tag.name == "LinkCard" then Some(LinkCardText(tag))
    else if tag.name in WRAPPERS then Some("")
    else if tag.name in LABELLED then Some(LabelText(tag))
    else if tag.selfClosing then Some(CaptionText(tag))
    else None
  }

  predicate IsKnown(name: string) {
    name in WRAPPERS || name in LABELLED || name == "LinkCard"
  }

  /** A tag stays in place exactly if its component is unknown and it is one of a pair. */
  lemma OnlyUnknownPairsStay(tag: Tag)
    ensures ReplacementFor(tag) == None <==> !IsKnown(tag.name) && (tag.closing || !tag.selfClosing)
  {
  }

  lemma {:induction false} PresentAlike(tag: Tag, other: Tag, names: seq<string>)
    requires tag.attrs == other.attrs
    ensures FirstPresent(tag, names) == FirstPresent(other, names)
  {
    if names == [] {
    } else {
      PresentAlike(tag, other, names[1..]);
    }
  }

  lemma {:induction false} FilledAlike(tag: Tag, other: Tag, names: seq<string>)
    requires tag.attrs == other.attrs
    ensures FirstFilled(tag, names) == FirstFilled(other, names)
  {
    if names == [] {
    } else {
      FilledAlike(tag, other, names[1..]);
    }
  }

  /** Where a tag ends does not matter for what it becomes. */
  lemma EndIsIrrelevant(tag: Tag, end: nat)
    ensures ReplacementFor(tag) == ReplacementFor(tag.(end := end))
  {
    var other := tag.(end := end);
    PresentAlike(tag, other, ["label", "title", "type"]);
    FilledAlike(tag, other, ["caption", "alt", "title", "description"]);
  }

  // ---- the rewriting loop ----------------------------------------------------------

  /** Whether what opens at a position stays, or gives way to a text up to where its tag ends. */
  datatype Replacement = Stays | Becomes(text: string, end: nat)

  function OfTag(tag: Tag): Replacement {
    match ReplacementFor(tag)
    case None => Stays
    case Some(text) => Becomes(text, tag.end)
  }

  function Replaced(t: string, at: nat): (r: Replacement)
    ensures r.Becomes? ==> at < r.end <= |t|
  {
    match TagAt(t, at)
    case None => Stays
    case Some(tag) => OfTag(tag)
  }

  /** The replacement, if any, for the tag at each position of a text. */
  function Replacements(t: string): (r: seq<Replacement>)
    ensures |r| == |t|
  {
    seq(|t|, at requires 0 <= at < |t| => Replaced(t, at))
  }

  ghost predicate AreReplacements(t: string, r: seq<Replacement>) {
    |r| == |t| && forall at: nat {:trigger Replaced(t, at)} :: at < |t| ==> r[at] == Replaced(t, at)
  }

  ghost predicate Advance(r: seq<Replacement>) {
    forall at :: 0 <= at < |r| && r[at].Becomes? ==> at < r[at].end <= |r|
  }

  lemma ReplacementsAdvance(t: string)
    ensures AreReplacements(t, Replacements(t)) && Advance(Replacements(t))
  {
    forall at | 0 <= at < |t| ensures Replacements(t)[at] == Replaced(t, at) {
    }
  }

  /** The text from `i` on, each `<` it meets giving way to its replacement. */
  ghost function Rewritten(t: string, r: seq<Replacement>, i: nat): string
    requires i <= |t| == |r| && Advance(r)
    decreases |t| - i
  {
    match Find(t, i, '<')
    case None => t[i..]
    case Some(at) =>
      match r[at]
      case Becomes(text, end) => t[i..at] + (text + Rewritten(t, r, end))
      case Stays => t[i..at] + ("<" + Rewritten(t, r, at + 1))
  }

  method ReplaceAt(t: string, at: nat, ghost r: seq<Replacement>) returns (replaced: Replacement)
    requires at < |t| && AreReplacements(t, r)
    ensures replaced == r[at]
  {
    replaced := Stays;
    assert r[at] == Replaced(t, at);
    var tag := ParseTag(t, at);
    if tag.Some? {
      var text := ReplacementFor(tag.value);
      if text.Some? {
        replaced := Becomes(text.value, tag.value.end);
      }
    }
  }

  lemma RewrittenFrom(t: string, r: seq<Replacement>, i: nat, at: nat)
    requires i <= at < |t| == |r| && Advance(r) && Find(t, i, '<') == Some(at)
    ensures r[at].Becomes? ==> Rewritten(t, r, i) == t[i..at] + (r[at].text + Rewritten(t, r, r[at].end))
    ensures r[at].Stays? ==> Rewritten(t, r, i) == t[i..at] + ("<" + Rewritten(t, r, at + 1))
  {
  }

  /** One turn of the loop: what was written so far, and the rest, still make the whole. */
  lemma Turn(t: string, r: seq<Replacement>, i: nat, at: nat, out: string)
    requires i <= at < |t| == |r| && Advance(r) && Find(t, i, '<') == Some(at)
    ensures r[at].Becomes? ==> out + Rewritten(t, r, i) == out + t[i..at] + r[at].text + Rewritten(t, r, r[at].end)
    ensures r[at].Stays? ==> out + Rewritten(t, r, i) == out + t[i..at] + "<" + Rewritten(t, r, at + 1)
  {
    RewrittenFrom(t, r, i, at);
    if r[at].Becomes? {
      Reassociate(out, t[i..at], r[at].text + Rewritten(t, r, r[at].end));
      Reassociate(out + t[i..at], r[at].text, Rewritten(t, r, r[at].end));
    } else {
      Reassociate(out, t[i..at], "<" + Rewritten(t, r, at + 1));
      Reassociate(out + t[i..at], "<", Rewritten(t, r, at + 1));
    }
  }

  lemma LastTurn(t: string, r: seq<Replacement>, i: nat)
    requires i <= |t| == |r| && Advance(r) && Find(t, i, '<') == None
    ensures Rewritten(t, r, i) == t[i..]
  {
  }

  /** The loop of `cleanProse` over the masked text. */
  method Rewrite(masked: string, ghost r: seq<Replacement>) returns (out: string)
    requires AreReplacements(masked, r) && Advance(r)
    ensures out == Rewritten(masked, r, 0)
  {
    out := "";
    var i := 0;
    ghost var whole := Rewritten(masked, r, 0);
    assert "" + whole == whole;
    while i < |masked|
      invariant i <= |masked|
      invariant whole == out + Rewritten(masked, r, i)
    {
      var at := Find(masked, i, '<');
      if at.None? {
        LastTurn(masked, r, i);
        out := out + masked[i..];
        return;
      }
      Turn(masked, r, i, at.value, out);
      out := out + masked[i..at.value];
      var replaced := ReplaceAt(masked, at.value, r);
      if replaced.Becomes? {
        out := out + replaced.text;
        i := replaced.end;
      } else {
        out := out + "<";
        i := at.value + 1;
      }
    }
    LastTurn(masked, r, i);
    assert masked[i..] == "" && out + "" == out;
  }

  lemma {:induction false} FindIsFirst(t: string, i: nat, c: char)
    requires i <= |t|
    ensures match Find(t, i, c)
      case Some(j) => t[j] == c && c !in t[i..j]
      case None => c !in t[i..]
    decreases |t| - i
  {
    if i < |t| && t[i] != c {
      FindIsFirst(t, i + 1, c);
      match Find(t, i + 1, c)
      case Some(j) => assert t[i..j] == [t[i]] + t[i + 1..j];
      case None => assert t[i..] == [t[i]] + t[i + 1..];
    } else {
    }
  }

  /** No `<` of the text has a replacement. */
  ghost predicate NothingToReplace(t: string, r: seq<Replacement>) {
    |r| == |t| && forall at: nat :: at < |t| && t[at] == '<' ==> r[at] == Stays
  }

  /** Text without a replaceable tag is left as it is, other `<` included. */
  lemma {:induction false} UnreplacedTextStays(t: string, r: seq<Replacement>, i: nat)
    requires i <= |t| == |r| && Advance(r) && NothingToReplace(t, r)
    ensures Rewritten(t, r, i) == t[i..]
    decreases |t| - i
  {
    FindIsFirst(t, i, '<');
    match Find(t, i, '<')
    case None =>
    case Some(at) =>
      UnreplacedTextStays(t, r, at + 1);
      assert t[i..] == t[i..at] + ("<" + t[at + 1..]);
  }

  /** A printed tag's replacement is that of the tag it was printed from, and covers it whole. */
  lemma PrintedTagReplacement(t: string, r: seq<Replacement>, before: string, after: string, name: string,
                              closing: bool, selfClosing: bool, attrs: seq<(string, string)>)
    requires IsTagName(name) && ArePrintable(attrs)
    requires t == before + PrintTag(name, closing, selfClosing, attrs) + after && AreReplacements(t, r)
    ensures var end := |before| + |PrintTag(name, closing, selfClosing, attrs)|;
            |before| < |t| && r[|before|] ==
            match ReplacementFor(Tag(name, closing, selfClosing, AttrMap(attrs), end))
            case Some(text) => Becomes(text, end)
            case None => Stays
  {
    ParseInvertsPrint(before, after, name, closing, selfClosing, attrs);
    assert r[|before|] == Replaced(t, |before|);
  }

  // ---- rewriting piece by piece ----------------------------------------------------

  /** A text as the rewriting loop leaves it. */
  ghost function RewrittenText(t: string): string {
    ReplacementsAdvance(t);
    Rewritten(t, Replacements(t), 0)
  }

  /** The same replacement, `d` characters further on. */
  function Moved(r: Replacement, d: nat): Replacement {
    match r
    case Becomes(text, end) => Becomes(text, d + end)
    case Stays => Stays
  }

  lemma TagMoved(tag: Tag, d: nat)
    ensures OfTag(tag.(end := d + tag.end)) == Moved(OfTag(tag), d)
  {
    EndIsIrrelevant(tag, d + tag.end);
  }

  lemma ReplacedShifts(u: string, t: string, d: nat, at: nat)
    requires EndsWith(u, t, d)
    ensures Replaced(u, d + at) == Moved(Replaced(t, at), d)
  {
    TagAtShifts(u, t, d, at);
    if TagAt(t, at).Some? {
      TagMoved(TagAt(t, at).value, d);
    }
  }

  /** The table of `u` ends with that of `t`, its ends moved. */
  ghost predicate TableEndsWith(ru: seq<Replacement>, rt: seq<Replacement>, d: nat) {
    |ru| == d + |rt| && forall at :: 0 <= at < |rt| ==> ru[d + at] == Moved(rt[at], d)
  }

  lemma ReplacementShifts(u: string, t: string, d: nat, at: nat)
    requires EndsWith(u, t, d) && at < |t|
    ensures Replacements(u)[d + at] == Moved(Replacements(t)[at], d)
  {
    ReplacedShifts(u, t, d, at);
  }

  lemma ReplacementsShift(u: string, t: string, d: nat)
    requires EndsWith(u, t, d)
    ensures TableEndsWith(Replacements(u), Replacements(t), d)
  {
    forall at | 0 <= at < |t| ensures Replacements(u)[d + at] == Moved(Replacements(t)[at], d) {
      ReplacementShifts(u, t, d, at);
    }
  }

  lemma {:induction false} FindShifts(u: string, t: string, d: nat, i: nat, c: char)
    requires EndsWith(u, t, d) && i <= |t|
    ensures Find(u, d + i, c) ==
            match Find(t, i, c)
            case Some(at) => Some(d + at)
            case None => None
    decreases |t| - i
  {
    if i == |t| {
    } else {
      assert u[d + i] == t[i];
      if t[i] != c {
        FindShifts(u, t, d, i + 1, c);
      }
    }
  }

  lemma SameSlice(u: string, t: string, d: nat, i: nat, j: nat)
    requires EndsWith(u, t, d) && i <= j <= |t|
    ensures u[d + i..d + j] == t[i..j]
  {
  }

  /** The texts, and what the loop replaces in them, agree from `d` on. */
  ghost predicate Agree(u: string, ru: seq<Replacement>, t: string, rt: seq<Replacement>, d: nat) {
    && EndsWith(u, t, d) && |ru| == |u| && |rt| == |t|
    && TableEndsWith(ru, rt, d) && Advance(ru) && Advance(rt)
  }

  /** What is written for a `<`, and where the loop goes on. */
  function Written(r: Replacement): string {
    if r.Becomes? then r.text else "<"
  }

  function Next(r: Replacement, at: nat): nat {
    if r.Becomes? then r.end else at + 1
  }

  lemma OneTurn(t: string, r: seq<Replacement>, i: nat, at: nat)
    requires i <= at < |t| == |r| && Advance(r) && Find(t, i, '<') == Some(at)
    ensures Next(r[at], at) <= |t|
    ensures Rewritten(t, r, i) == t[i..at] + (Written(r[at]) + Rewritten(t, r, Next(r[at], at)))
  {
    RewrittenFrom(t, r, i, at);
  }

  lemma SameReplacement(ru: seq<Replacement>, rt: seq<Replacement>, d: nat, at: nat)
    requires TableEndsWith(ru, rt, d) && at < |rt|
    ensures Written(ru[d + at]) == Written(rt[at]) && Next(ru[d + at], d + at) == d + Next(rt[at], at)
  {
    assert ru[d + at] == Moved(rt[at], d);
  }

  /** One turn at a `<` of each text that write the same and go on to write the same. */
  lemma TurnsAlike(u: string, ru: seq<Replacement>, i: nat, at: nat, t: string, rt: seq<Replacement>, j: nat, bt: nat)
    requires i <= at < |u| == |ru| && Advance(ru) && Find(u, i, '<') == Some(at)
    requires j <= bt < |t| == |rt| && Advance(rt) && Find(t, j, '<') == Some(bt)
    requires u[i..at] == t[j..bt] && Written(ru[at]) == Written(rt[bt])
    requires Rewritten(u, ru, Next(ru[at], at)) == Rewritten(t, rt, Next(rt[bt], bt))
    ensures Rewritten(u, ru, i) == Rewritten(t, rt, j)
  {
    OneTurn(u, ru, i, at);
    OneTurn(t, rt, j, bt);
  }

  /** One turn at the same `<` of both texts. */
  lemma TurnShifts(u: string, ru: seq<Replacement>, t: string, rt: seq<Replacement>, d: nat, i: nat, at: nat)
    requires Agree(u, ru, t, rt, d) && i <= at < |t| && Find(t, i, '<') == Some(at)
    requires var next := Next(rt[at], at); Rewritten(u, ru, d + next) == Rewritten(t, rt, next)
    ensures Rewritten(u, ru, d + i) == Rewritten(t, rt, i)
  {
    FindShifts(u, t, d, i, '<');
    SameReplacement(ru, rt, d, at);
    SameSlice(u, t, d, i, at);
    TurnsAlike(u, ru, d + i, d + at, t, rt, i, at);
  }

  lemma LastTurnShifts(u: string, ru: seq<Replacement>, t: string, rt: seq<Replacement>, d: nat, i: nat)
    requires Agree(u, ru, t, rt, d) && i <= |t| && Find(t, i, '<') == None
    ensures Rewritten(u, ru, d + i) == Rewritten(t, rt, i)
  {
    FindShifts(u, t, d, i, '<');
    LastTurn(u, ru, d + i);
    LastTurn(t, rt, i);
    SameSlice(u, t, d, i, |t|);
  }

  /** What is written from a position on does not depend on what stands before it. */
  lemma {:induction false} RewrittenShifts(
      u: string, ru: seq<Replacement>, t: string, rt: seq<Replacement>, d: nat, i: nat)
    requires Agree(u, ru, t, rt, d) && i <= |t|
    ensures Rewritten(u, ru, d + i) == Rewritten(t, rt, i)
    decreases |t| - i
  {
    match Find(t, i, '<')
    case None => LastTurnShifts(u, ru, t, rt, d, i);
    case Some(at) =>
      RewrittenShifts(u, ru, t, rt, d, if rt[at].Becomes? then rt[at].end else at + 1);
      TurnShifts(u, ru, t, rt, d, i, at);
  }

  /** The text after a first part is rewritten as a text of its own. */
  lemma RewrittenRest(first: string, rest: string)
    ensures Advance(Replacements(first + rest))
    ensures Rewritten(first + rest, Replacements(first + rest), |first|) == RewrittenText(rest)
  {
    ReplacementsAdvance(first + rest);
    ReplacementsAdvance(rest);
    ReplacementsShift(first + rest, rest, |first|);
    RewrittenShifts(first + rest, Replacements(first + rest), rest, Replacements(rest), |first|, 0);
  }

  lemma PlainThenTurn(t: string, r: seq<Replacement>, i: nat, j: nat, at: nat)
    requires i <= j <= at < |t| == |r| && Advance(r) && Find(t, i, '<') == Find(t, j, '<') == Some(at)
    ensures Rewritten(t, r, i) == t[i..j] + Rewritten(t, r, j)
  {
    assert t[i..at] == t[i..j] + t[j..at];
    RewrittenFrom(t, r, i, at);
    RewrittenFrom(t, r, j, at);
    if r[at].Becomes? {
      Reassociate(t[i..j], t[j..at], r[at].text + Rewritten(t, r, r[at].end));
    } else {
      Reassociate(t[i..j], t[j..at], "<" + Rewritten(t, r, at + 1));
    }
  }

  lemma {:induction false} FindSkips(t: string, i: nat, j: nat)
    requires i <= j <= |t| && '<' !in t[i..j]
    ensures Find(t, i, '<') == Find(t, j, '<')
    decreases j - i
  {
    if i == j {
    } else {
      assert t[i] == t[i..j][0] && t[i + 1..j] == t[i..j][1..];
      FindSkips(t, i + 1, j);
    }
  }

  /** Text without `<` is copied, and the loop goes on after it. */
  lemma PlainIsCopied(t: string, r: seq<Replacement>, i: nat, j: nat)
    requires i <= j <= |t| == |r| && Advance(r) && '<' !in t[i..j]
    ensures Rewritten(t, r, i) == t[i..j] + Rewritten(t, r, j)
  {
    FindSkips(t, i, j);
    match Find(t, j, '<')
    case None =>
      LastTurn(t, r, i);
      LastTurn(t, r, j);
      assert t[i..] == t[i..j] + t[j..];
    case Some(at) => PlainThenTurn(t, r, i, j, at);
  }

  lemma PlainTextStays(plain: string, rest: string)
    requires '<' !in plain
    ensures RewrittenText(plain + rest) == plain + RewrittenText(rest)
  {
    var t := plain + rest;
    assert t[0..|plain|] == plain;
    RewrittenRest(plain, rest);
    PlainIsCopied(t, Replacements(t), 0, |plain|);
  }

  lemma PrintedTagOpens(name: string, closing: bool, selfClosing: bool, attrs: seq<(string, string)>)
    ensures PrintTag(name, closing, selfClosing, attrs) != "" && PrintTag(name, closing, selfClosing, attrs)[0] == '<'
  {
  }

  /** What opens a text gives way to its replacement, and the loop goes on after it. */
  lemma FirstBecomes(first: string, rest: string, text: string)
    requires first != "" && first[0] == '<'
    requires Replacements(first + rest)[0] == Becomes(text, |first|)
    ensures RewrittenText(first + rest) == text + RewrittenText(rest)
  {
    var t := first + rest;
    FindIs(t, 0, 0, '<');
    RewrittenRest(first, rest);
    RewrittenFrom(t, Replacements(t), 0, 0);
    assert t[0..0] + (text + RewrittenText(rest)) == text + RewrittenText(rest);
  }

  lemma StaysAtHead(t: string, r: seq<Replacement>)
    requires |r| == |t| > 0 && Advance(r) && Find(t, 0, '<') == Some(0) && r[0] == Stays
    ensures Rewritten(t, r, 0) == "<" + Rewritten(t, r, 1)
  {
    RewrittenFrom(t, r, 0, 0);
    assert t[0..0] == "";
  }

  /** Or stays, and the loop steps past its `<`. */
  lemma FirstStays(rest: string)
    requires Replacements("<" + rest)[0] == Stays
    ensures RewrittenText("<" + rest) == "<" + RewrittenText(rest)
  {
    var t := "<" + rest;
    FindIs(t, 0, 0, '<');
    RewrittenRest("<", rest);
    StaysAtHead(t, Replacements(t));
  }

  /** The replacement of a printed tag; it does not depend on where the tag ends. */
  function PrintedReplacement(
    name: string, closing: bool, selfClosing: bool, attrs: seq<(string, string)>): Option<string>
  {
    ReplacementFor(Tag(name, closing, selfClosing, AttrMap(attrs), 0))
  }

  lemma OpeningReplacement(
      name: string, closing: bool, selfClosing: bool, attrs: seq<(string, string)>, after: string)
    requires IsTagName(name) && ArePrintable(attrs)
    ensures var tag := PrintTag(name, closing, selfClosing, attrs);
            tag != "" && Replacements(tag + after)[0] ==
            match PrintedReplacement(name, closing, selfClosing, attrs)
            case Some(text) => Becomes(text, |tag|)
            case None => Stays
  {
    var tag := PrintTag(name, closing, selfClosing, attrs);
    PrintedTagOpens(name, closing, selfClosing, attrs);
    ReplacementsAdvance(tag + after);
    assert tag + after == "" + tag + after;
    PrintedTagReplacement(tag + after, Replacements(tag + after), "", after, name, closing, selfClosing, attrs);
    EndIsIrrelevant(Tag(name, closing, selfClosing, AttrMap(attrs), 0), |tag|);
  }

  /** A printed tag that opens a text gives way to its replacement, and the loop goes on after it. */
  lemma OpeningTagIsReplaced(
      name: string, closing: bool, selfClosing: bool, attrs: seq<(string, string)>, after: string)
    requires IsTagName(name) && ArePrintable(attrs)
    ensures var tag := PrintTag(name, closing, selfClosing, attrs);
            match PrintedReplacement(name, closing, selfClosing, attrs)
            case Some(text) => RewrittenText(tag + after) == text + RewrittenText(after)
            case None => RewrittenText(tag + after) == "<" + RewrittenText(tag[1..] + after)
  {
    var tag := PrintTag(name, closing, selfClosing, attrs);
    PrintedTagOpens(name, closing, selfClosing, attrs);
    OpeningReplacement(name, closing, selfClosing, attrs, after);
    match PrintedReplacement(name, closing, selfClosing, attrs)
    case Some(text) => FirstBecomes(tag, after, text);
    case None =>
      assert tag + after == "<" + (tag[1..] + after);
      FirstStays(tag[1..] + after);
  }

  /**
   Prose, a printed tag and any text after it: the prose is copied, the tag gives way to its
   replacement as a whole, and the text after it is rewritten as on its own.
   */
  lemma PrintedTagIsReplaced(before: string, name: string, closing: bool, selfClosing: bool,
                             attrs: seq<(string, string)>, after: string)
    requires '<' !in before && IsTagName(name) && ArePrintable(attrs)
    requires PrintedReplacement(name, closing, selfClosing, attrs).Some?
    ensures RewrittenText(before + PrintTag(name, closing, selfClosing, attrs) + after) ==
            before + PrintedReplacement(name, closing, selfClosing, attrs).value + RewrittenText(after)
  {
    var tag := PrintTag(name, closing, selfClosing, attrs);
    assert before + tag + after == before + (tag + after);
    PlainTextStays(before, tag + after);
    OpeningTagIsReplaced(name, closing, selfClosing, attrs, after);
    var text := PrintedReplacement(name, closing, selfClosing, attrs).value;
    assert before + (text + RewrittenText(after)) == before + text + RewrittenText(after);
  }

  // ---- imports and comments --------------------------------------------------------

  function SpaceEnd(t: string, i: nat): (j: nat)
    requires i <= |t|
    ensures i <= j <= |t|
    decreases |t| - i
  {
    if i < |t| && IsSpace(t[i]) then SpaceEnd(t, i + 1) else i
  }

  function BlankEnd(t: string, i: nat): (j: nat)
    requires i <= |t|
    ensures i <= j <= |t|
    decreases |t| - i
  {
    if i < |t| && (t[i] == ' ' || t[i] == '\t') then BlankEnd(t, i + 1) else i
  }

  function PathEnd(t: string, i: nat): (j: nat)
    requires i <= |t|
    ensures i <= j <= |t|
    decreases |t| - i
  {
    if i < |t| && !IsQuote(t[i]) && t[i] != '\n' then PathEnd(t, i + 1) else i
  }

  /** The end of a quoted path at `i` with the semicolon, blanks and line break that may follow it. */
  function QuotedPathEnd(t: string, i: nat): (r: Option<nat>)
    requires i <= |t|
    ensures r.Some? ==> i < r.value <= |t|
  {
    if i < |t| && IsQuote(t[i]) then
      var close := PathEnd(t, i + 1);
      if i + 1 < close < |t| && IsQuote(t[close]) then
        var semi := if close + 1 < |t| && t[close + 1] == ';' then close + 2 else close + 1;
        var blank := BlankEnd(t, semi);
        Some(if blank < |t| && t[blank] == '\n' then blank + 1 else blank)
      else None
    else None
  }

  /** The end of `... from "path"`, the text before `from` staying on its line. */
  function FromClauseEnd(t: string, i: nat): (r: Option<nat>)
    requires i <= |t|
    ensures r.Some? ==> i < r.value <= |t|
    decreases |t| - i
  {
    var here :=
      if i + 5 <= |t| && IsSpace(t[i]) && t[i + 1..i + 5] == "from" && SpaceEnd(t, i + 5) > i + 5
      then QuotedPathEnd(t, SpaceEnd(t, i + 5)) else None;
    if here.Some? then here
    else if i < |t| && t[i] != '\n' then FromClauseEnd(t, i + 1)
    else None
  }

  /** Tries each length of the white space after `import`, longest first. */
  function ImportRestEnd(t: string, low: nat, i: nat): (r: Option<nat>)
    requires low <= i <= |t|
    ensures r.Some? ==> low < r.value <= |t|
    decreases i
  {
    if i == low then None
    else if FromClauseEnd(t, i).Some? then FromClauseEnd(t, i)
    else if QuotedPathEnd(t, i).Some? then QuotedPathEnd(t, i)
    else ImportRestEnd(t, low, i - 1)
  }

  predicate AtLineStart(t: string, i: nat)
    requires i <= |t|
  {
    i == 0 || t[i - 1] in {'\n', '\r', '\U{2028}', '\U{2029}'}
  }

  /** The end of the import statement at position `i`, if a line starts there with one. */
  function ImportEnd(t: string, i: nat): (r: Option<nat>)
    requires i <= |t|
    ensures r.Some? ==> i < r.value <= |t|
  {
    if AtLineStart(t, i) && i + 6 <= |t| && t[i..i + 6] == "import"
    then ImportRestEnd(t, i + 6, SpaceEnd(t, i + 6)) else None
  }

  function WithoutImports(t: string, i: nat): string
    requires i <= |t|
    decreases |t| - i
  {
    if i == |t| then ""
    else match ImportEnd(t, i)
      case Some(end) => WithoutImports(t, end)
      case None => [t[i]] + WithoutImports(t, i + 1)
  }

  function CommentCloseFrom(t: string, i: nat): (r: Option<nat>)
    requires i <= |t|
    ensures r.Some? ==> i < r.value <= |t|
    decreases |t| - i
  {
    if i + 3 > |t| then None
    else if t[i..i + 3] == "-->" then Some(i + 3)
    else CommentCloseFrom(t, i + 1)
  }

  /** The end of the HTML comment at position `i`, if a closed one starts there. */
  function CommentEnd(t: string, i: nat): (r: Option<nat>)
    requires i <= |t|
    ensures r.Some? ==> i < r.value <= |t|
  {
    if i + 4 <= |t| && t[i..i + 4] == "<!--" then CommentCloseFrom(t, i + 4) else None
  }

  function WithoutComments(t: string, i: nat): string
    requires i <= |t|
    decreases |t| - i
  {
    if i == |t| then ""
    else match CommentEnd(t, i)
      case Some(end) => WithoutComments(t, end)
      case None => [t[i]] + WithoutComments(t, i + 1)
  }

  ghost predicate HasImport(t: string) {
    exists i: nat :: i <= |t| && ImportEnd(t, i).Some?
  }

  ghost predicate HasComment(t: string) {
    exists i: nat :: i <= |t| && CommentEnd(t, i).Some?
  }

  lemma {:induction false} NoImportsToRemove(t: string, i: nat)
    requires i <= |t| && !HasImport(t)
    ensures WithoutImports(t, i) == t[i..]
    decreases |t| - i
  {
    if i == |t| {
    } else {
      assert ImportEnd(t, i) == None;
      NoImportsToRemove(t, i + 1);
      assert t[i..] == [t[i]] + t[i + 1..];
    }
  }

  lemma {:induction false} NoCommentsToRemove(t: string, i: nat)
    requires i <= |t| && !HasComment(t)
    ensures WithoutComments(t, i) == t[i..]
    decreases |t| - i
  {
    if i == |t| {
    } else {
      assert CommentEnd(t, i) == None;
      NoCommentsToRemove(t, i + 1);
      assert t[i..] == [t[i]] + t[i + 1..];
    }
  }

  // ---- cleaning prose --------------------------------------------------------------

  /** What is masked and then rewritten: the text without imports and comments. */
  function MaskedProse(text: string): Masked {
    Mask(WithoutComments(WithoutImports(text, 0), 0), 0, 0)
  }

  ghost function CleanedProse(text: string): string {
    var masked := MaskedProse(text);
    ReplacementsAdvance(masked.text);
    Unmask(Rewritten(masked.text, Replacements(masked.text), 0), masked.spans)
  }

  method CleanProse(text: string) returns (out: string)
    ensures out == CleanedProse(text)
  {
    var masked, spans := MaskInlineCode(WithoutComments(WithoutImports(text, 0), 0));
    assert MaskedProse(text) == Masked(masked, spans);
    ReplacementsAdvance(masked);
    var rewritten := Rewrite(masked, Replacements(masked));
    out := Unmask(rewritten, spans);
  }

  /** The characters of a text outside its inline code. */
  function OutsideCode(t: string, i: nat): string
    requires i <= |t|
    decreases |t| - i
  {
    if i == |t| then ""
    else match Span(t, i)
      case Some(end) => OutsideCode(t, end)
      case None => [t[i]] + OutsideCode(t, i + 1)
  }

  lemma NotInEither(c: char, a: string, b: string)
    ensures c !in a + b <==> c !in a && c !in b
  {
    assert forall k :: 0 <= k < |a| ==> (a + b)[k] == a[k];
    assert forall k :: 0 <= k < |b| ==> (a + b)[|a| + k] == b[k];
  }

  lemma NoBracketInPlaceholder(n: nat)
    ensures '<' !in Placeholder(n)
  {
    NumeralRoundTrip(n);
    NotInEither('<', [NUL], Numeral(n));
    NotInEither('<', [NUL] + Numeral(n), [NUL]);
    forall k | 0 <= k < |Numeral(n)| ensures Numeral(n)[k] != '<' {
      assert IsDigit(Numeral(n)[k]);
    }
  }

  lemma {:induction false} MaskedBracketsAreOutsideCode(t: string, i: nat, n: nat)
    requires i <= |t| && '<' !in OutsideCode(t, i)
    ensures '<' !in Mask(t, i, n).text
    decreases |t| - i
  {
    if i == |t| {
    } else {
      match Span(t, i)
      case Some(end) =>
        MaskSpan(t, i, n, end);
        MaskedBracketsAreOutsideCode(t, end, n + 1);
        NoBracketInPlaceholder(n);
        NotInEither('<', Placeholder(n), Mask(t, end, n + 1).text);
      case None =>
        MaskPlain(t, i, n);
        NotInEither('<', [t[i]], OutsideCode(t, i + 1));
        MaskedBracketsAreOutsideCode(t, i + 1, n);
        NotInEither('<', [t[i]], Mask(t, i + 1, n).text);
    }
  }

  /** Prose with no import, comment, replaceable tag or forged placeholder comes out unchanged. */
  lemma NothingToClean(text: string)
    requires !HasImport(text) && !HasComment(text) && !HasForgedPlaceholder(text, 0)
    requires var masked := Mask(text, 0, 0).text; NothingToReplace(masked, Replacements(masked))
    ensures CleanedProse(text) == text
  {
    NoImportsToRemove(text, 0);
    NoCommentsToRemove(text, 0);
    assert text[0..] == text;
    var masked := Mask(text, 0, 0);
    ReplacementsAdvance(masked.text);
    UnreplacedTextStays(masked.text, Replacements(masked.text), 0);
    assert masked.text[0..] == masked.text;
    UnmaskInvertsMask(text);
  }

  // ---- a whole body ----------------------------------------------------------------

  ghost function CleanedSegment(s: Segment): Segment {
    if s.code then s else Segment(false, CleanedProse(s.text))
  }

  ghost function CleanedSegments(segments: seq<Segment>): seq<Segment> {
    seq(|segments|, k requires 0 <= k < |segments| => CleanedSegment(segments[k]))
  }

  method CleanSegment(s: Segment) returns (r: Segment)
    ensures r == CleanedSegment(s)
  {
    if s.code {
      r := s;
    } else {
      var text := CleanProse(s.text);
      r := Segment(false, text);
    }
  }

  ghost predicate AreCleaned(segments: seq<Segment>, cleaned: seq<Segment>) {
    |cleaned| <= |segments| && forall j :: 0 <= j < |cleaned| ==> cleaned[j] == CleanedSegment(segments[j])
  }

  lemma CleanedOneByOne(segments: seq<Segment>, cleaned: seq<Segment>)
    requires |cleaned| == |segments| && AreCleaned(segments, cleaned)
    ensures cleaned == CleanedSegments(segments)
  {
  }

  lemma CleanedNext(segments: seq<Segment>, cleaned: seq<Segment>, s: Segment)
    requires AreCleaned(segments, cleaned) && |cleaned| < |segments| && s == CleanedSegment(segments[|cleaned|])
    ensures AreCleaned(segments, cleaned + [s])
  {
  }

  method CleanAll(segments: seq<Segment>) returns (cleaned: seq<Segment>)
    ensures cleaned == CleanedSegments(segments)
  {
    cleaned := [];
    for k := 0 to |segments|
      invariant |cleaned| == k && AreCleaned(segments, cleaned)
    {
      var s := CleanSegment(segments[k]);
      CleanedNext(segments, cleaned, s);
      cleaned := cleaned + [s];
    }
    CleanedOneByOne(segments, cleaned);
  }

  /** The body of `cleanMdx` up to its final pass over white space: a map over the segments. */
  method CleanBody(body: string) returns (out: string)
    ensures out == JoinSegments(CleanedSegments(Segments(body)))
  {
    var segments := SplitFences(body);
    var cleaned := CleanAll(segments);
    out := JoinSegments(cleaned);
  }

  /** Fenced code always passes through; with untouched prose, so does the whole body. */
  lemma UntouchedBody(body: string)
    requires forall k :: 0 <= k < |Segments(body)| && !Segments(body)[k].code ==>
      CleanedProse(Segments(body)[k].text) == Segments(body)[k].text
    ensures JoinSegments(CleanedSegments(Segments(body))) == body
  {
    assert CleanedSegments(Segments(body)) == Segments(body);
    JoinInvertsSegments(body);
  }
}
