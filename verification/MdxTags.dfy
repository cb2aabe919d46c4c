/**
 The component tag scanner of the MDX cleaner, scripts/kb-mdx.ts lines 83-131.

 The scanner reads past quoted values and braced expressions to find where a tag ends: the first
 bracket outside quotes and at brace depth 0. What it read at that depth holds the attributes.

 Two things are proved of it beyond that. Printing a tag and parsing it back recovers every part
 of it, and what a tag is read as does not depend on what stands before it.
 */
module MdxTags {
  import opened Wrappers
  import opened Text

  datatype Tag = Tag(name: string, closing: bool, selfClosing: bool, attrs: map<string, string>, end: nat)

  // ---- the head --------------------------------------------------------------------

  predicate IsUpper(c: char) {
    'A' <= c <= 'Z'
  }

  predicate IsLetter(c: char) {
    IsUpper(c) || 'a' <= c <= 'z'
  }

  predicate IsAlnum(c: char) {
    IsLetter(c) || IsDigit(c)
  }

  /** The end of the letters and digits from position `i` on. */
  function NameEnd(t: string, i: nat): (j: nat)
    requires i <= |t|
    ensures i <= j <= |t|
    ensures j < |t| ==> !IsAlnum(t[j])
    ensures forall k :: i <= k < j ==> IsAlnum(t[k])
    decreases |t| - i
  {
    if i < |t| && IsAlnum(t[i]) then NameEnd(t, i + 1) else i
  }

  /** Where the name of the tag opening at `start` begins and ends, if a tag does open there. */
  function Head(t: string, start: nat): (r: Option<(nat, nat)>)
    ensures r.Some? ==> start < r.value.0 < r.value.1 <= |t|
  {
    if start < |t| && t[start] == '<' then
      var i := if start + 1 < |t| && t[start + 1] == '/' then start + 2 else start + 1;
      if i < |t| && IsUpper(t[i]) then Some((i, NameEnd(t, i))) else None
    else None
  }

  // ---- quotes and braces -----------------------------------------------------------

  /** The quote the scanner is inside of, if any, and how deep in braces it is. */
  datatype Scan = Scan(quote: Option<char>, depth: int)

  const TOP := Scan(None, 0)

  function Next(st: Scan, c: char): Scan {
    if st.quote.Some? then (if c == st.quote.value then st.(quote := None) else st)
    else if c == '"' || c == '\'' || c == '`' then st.(quote := Some(c))
    else if c == '{' then st.(depth := st.depth + 1)
    else if c == '}' then st.(depth := st.depth - 1)
    else st
  }

  /** Where the scanner stands at position `i`, having read on from `start`. */
  function StateAt(t: string, start: nat, i: nat): Scan
    requires i <= |t|
  {
    if i <= start then TOP else Next(StateAt(t, start, i - 1), t[i - 1])
  }

  /** The characters read at brace depth 0, quoted values included. */
  function TopLevel(t: string, start: nat, i: nat): string
    requires i <= |t|
  {
    if i <= start then ""
    else TopLevel(t, start, i - 1) + if StateAt(t, start, i).depth == 0 then [t[i - 1]] else ""
  }

  /** Whether the tag ends at position `i`: a `>` outside quotes and at brace depth 0. */
  predicate Ends(t: string, start: nat, i: nat)
    requires i < |t|
  {
    t[i] == '>' && StateAt(t, start, i) == TOP
  }

  function FindEnd(t: string, start: nat, i: nat): (r: Option<nat>)
    requires i <= |t|
    ensures r.Some? ==> i <= r.value < |t|
    decreases |t| - i
  {
    if i == |t| then None
    else if Ends(t, start, i) then Some(i)
    else FindEnd(t, start, i + 1)
  }

  // ---- attributes ------------------------------------------------------------------

  predicate IsWordChar(c: char) {
    IsAlnum(c) || c == '_' || c == '-'
  }

  function WordEnd(s: string, i: nat): (j: nat)
    requires i <= |s|
    ensures i <= j <= |s|
    decreases |s| - i
  {
    if i < |s| && IsWordChar(s[i]) then WordEnd(s, i + 1) else i
  }

  /** The first position from `i` on that holds `c`. */
  function Find(s: string, i: nat, c: char): (r: Option<nat>)
    requires i <= |s|
    ensures r.Some? ==> i <= r.value < |s|
    decreases |s| - i
  {
    if i == |s| then None else if s[i] == c then Some(i) else Find(s, i + 1, c)
  }

  datatype Attr = Attr(name: string, value: string, end: nat)

  /** The `name="value"` or `name='value'` at position `i`, if one stands there. */
  function AttrAt(s: string, i: nat): (r: Option<Attr>)
    ensures r.Some? ==> i < r.value.end <= |s|
  {
    if i < |s| && IsLetter(s[i]) then
      var j := WordEnd(s, i + 1);
      if j + 1 < |s| && s[j] == '=' && (s[j + 1] == '"' || s[j + 1] == '\'') then
        match Find(s, j + 2, s[j + 1])
        case Some(close) => Some(Attr(s[i..j], s[j + 2..close], close + 1))
        case None => None
      else None
    else None
  }

  /** The attributes from position `i` on; of several with one name, the last. */
  function Attrs(s: string, i: nat): map<string, string>
    decreases |s| - i
  {
    if i >= |s| then map[]
    else match AttrAt(s, i)
      case Some(a) => map[a.name := a.value] + Attrs(s, a.end)
      case None => Attrs(s, i + 1)
  }

  // ---- the tag ---------------------------------------------------------------------

  function TagAt(t: string, start: nat): (r: Option<Tag>)
    ensures r.Some? ==> start < r.value.end <= |t|
  {
    match Head(t, start)
    case None => None
    case Some((from, to)) =>
      match FindEnd(t, to, to)
      case None => None
      case Some(e) =>
        Some(Tag(t[from..to], from == start + 2, t[e - 1] == '/', Attrs(TopLevel(t, to, e), 0), e + 1))
  }

  lemma TagAtFrom(t: string, start: nat, from: nat, to: nat, e: nat)
    requires Head(t, start) == Some((from, to)) && FindEnd(t, to, to) == Some(e)
    ensures TagAt(t, start) ==
            Some(Tag(t[from..to], from == start + 2, t[e - 1] == '/', Attrs(TopLevel(t, to, e), 0), e + 1))
  {
  }

  /** One more character of the scan, in the loop's terms. */
  lemma ScanOn(t: string, start: nat, i: nat)
    requires start <= i < |t|
    ensures StateAt(t, start, i + 1) == Next(StateAt(t, start, i), t[i])
    ensures TopLevel(t, start, i + 1) ==
            TopLevel(t, start, i) + if StateAt(t, start, i + 1).depth == 0 then [t[i]] else ""
  {
  }

  /** The scanning loop, tracking quote, depth and the text at the top level. */
  method ParseTag(text: string, start: nat) returns (tag: Option<Tag>)
    ensures tag == TagAt(text, start)
  {
    var head := Head(text, start);
    if head.None? {
      return None;
    }
    var (from, to) := head.value;
    var i := to;
    var depth := 0;
    var quote: Option<char> := None;
    var topLevel := "";
    while i < |text|
      invariant to <= i <= |text|
      invariant StateAt(text, to, i) == Scan(quote, depth)
      invariant topLevel == TopLevel(text, to, i)
      invariant FindEnd(text, to, to) == FindEnd(text, to, i)
    {
      var c := text[i];
      ScanOn(text, to, i);
      if quote.Some? {
        if depth == 0 {
          topLevel := topLevel + [c];
        }
        if c == quote.value {
          quote := None;
        }
      } else if c == '"' || c == '\'' || c == '`' {
        quote := Some(c);
        if depth == 0 {
          topLevel := topLevel + [c];
        }
      } else {
        if c == '{' {
          depth := depth + 1;
        } else if c == '}' {
          depth := depth - 1;
        } else if depth == 0 && c == '>' {
          TagAtFrom(text, start, from, to, i);
          return Some(Tag(text[from..to], from == start + 2, text[i - 1] == '/', Attrs(topLevel, 0), i + 1));
        }
        if depth == 0 {
          topLevel := topLevel + [c];
        }
      }
      i := i + 1;
    }
    tag := None;
  }

  // ---- a tag does not depend on what stands before it ------------------------------

  /** `u` ends with `t`, from position `d` on. */
  ghost predicate EndsWith(u: string, t: string, d: nat) {
    |u| == d + |t| && forall k :: 0 <= k < |t| ==> u[d + k] == t[k]
  }

  lemma {:induction false} NameEndShifts(u: string, t: string, d: nat, i: nat)
    requires EndsWith(u, t, d) && i <= |t|
    ensures NameEnd(u, d + i) == d + NameEnd(t, i)
    decreases |t| - i
  {
    if i == |t| {
    } else if IsAlnum(t[i]) {
      NameEndShifts(u, t, d, i + 1);
    } else {
      assert !IsAlnum(u[d + i]);
    }
  }

  lemma HeadShifts(u: string, t: string, d: nat, start: nat)
    requires EndsWith(u, t, d)
    ensures Head(u, d + start) ==
            match Head(t, start)
            case Some((from, to)) => Some((d + from, d + to))
            case None => None
  {
    if start < |t| && t[start] == '<' {
      var i := if start + 1 < |t| && t[start + 1] == '/' then start + 2 else start + 1;
      assert start + 1 < |t| ==> u[d + (start + 1)] == t[start + 1];
      if i < |t| {
        NameEndShifts(u, t, d, i);
        assert u[d + i] == t[i];
      }
    }
  }

  lemma {:induction false} ScanShifts(u: string, t: string, d: nat, start: nat, i: nat)
    requires EndsWith(u, t, d) && i <= |t|
    ensures StateAt(u, d + start, d + i) == StateAt(t, start, i)
    ensures TopLevel(u, d + start, d + i) == TopLevel(t, start, i)
    decreases i
  {
    if i <= start {
    } else {
      ScanShifts(u, t, d, start, i - 1);
      assert u[d + (i - 1)] == t[i - 1];
    }
  }

  lemma {:induction false} FindEndShifts(u: string, t: string, d: nat, start: nat, i: nat)
    requires EndsWith(u, t, d) && i <= |t|
    ensures FindEnd(u, d + start, d + i) ==
            match FindEnd(t, start, i)
            case Some(e) => Some(d + e)
            case None => None
    decreases |t| - i
  {
    if i == |t| {
    } else {
      ScanShifts(u, t, d, start, i);
      assert Ends(u, d + start, d + i) == Ends(t, start, i);
      if !Ends(t, start, i) {
        FindEndShifts(u, t, d, start, i + 1);
      }
    }
  }

  /** The parts of a tag, once its head and end are known. */
  lemma TagPartsShift(u: string, t: string, d: nat, start: nat, from: nat, to: nat, e: nat)
    requires EndsWith(u, t, d) && Head(t, start) == Some((from, to)) && FindEnd(t, to, to) == Some(e)
    requires Head(u, d + start) == Some((d + from, d + to)) && FindEnd(u, d + to, d + to) == Some(d + e)
    ensures TagAt(t, start).Some? && TagAt(u, d + start) == Some(TagAt(t, start).value.(end := d + e + 1))
    ensures TagAt(t, start).value.end == e + 1
  {
    TagAtFrom(t, start, from, to, e);
    TagAtFrom(u, d + start, d + from, d + to, d + e);
    ScanShifts(u, t, d, to, e);
    assert u[d + from..d + to] == t[from..to];
    assert u[d + (e - 1)] == t[e - 1];
  }

  lemma TagAtShifts(u: string, t: string, d: nat, start: nat)
    requires EndsWith(u, t, d)
    ensures TagAt(u, d + start) ==
            match TagAt(t, start)
            case Some(tag) => Some(tag.(end := d + tag.end))
            case None => None
  {
    HeadShifts(u, t, d, start);
    if Head(t, start).Some? {
      var (from, to) := Head(t, start).value;
      FindEndShifts(u, t, d, to, to);
      if FindEnd(t, to, to).Some? {
        TagPartsShift(u, t, d, start, from, to, FindEnd(t, to, to).value);
      }
    }
  }

  // ---- where a tag ends ------------------------------------------------------------

  lemma {:induction false} FindEndIsFirst(t: string, start: nat, i: nat)
    requires i <= |t|
    ensures match FindEnd(t, start, i)
      case Some(e) => Ends(t, start, e) && forall k :: i <= k < e ==> !Ends(t, start, k)
      case None => forall k :: i <= k < |t| ==> !Ends(t, start, k)
    decreases |t| - i
  {
    if i < |t| && !Ends(t, start, i) {
      FindEndIsFirst(t, start, i + 1);
    } else {
    }
  }

  /** A tag ends just past the first `>` outside quotes and braces; without one there is no tag. */
  lemma TagEndsAtFirstTopLevelBracket(t: string, start: nat)
    requires Head(t, start).Some?
    ensures var to := Head(t, start).value.1;
      match TagAt(t, start)
      case Some(tag) =>
        && tag.end > to && Ends(t, to, tag.end - 1)
        && forall k :: to <= k < tag.end - 1 ==> !Ends(t, to, k)
      case None => forall k :: to <= k < |t| ==> !Ends(t, to, k)
  {
    var to := Head(t, start).value.1;
    FindEndIsFirst(t, to, to);
  }

  // ---- printing --------------------------------------------------------------------

  predicate IsTagName(name: string) {
    name != "" && IsUpper(name[0]) && forall k :: 0 <= k < |name| ==> IsAlnum(name[k])
  }

  predicate IsAttrName(name: string) {
    name != "" && IsLetter(name[0]) && forall k :: 0 <= k < |name| ==> IsWordChar(name[k])
  }

  /** Attributes a tag can carry: proper names, and any value without a double quote. */
  ghost predicate ArePrintable(attrs: seq<(string, string)>) {
    forall k :: 0 <= k < |attrs| ==> IsAttrName(attrs[k].0) && '"' !in attrs[k].1
  }

  function AttrText(name: string, value: string): string {
    " " + name + "=\"" + value + "\""
  }

  function AttrsText(attrs: seq<(string, string)>): string {
    if attrs == [] then "" else AttrText(attrs[0].0, attrs[0].1) + AttrsText(attrs[1..])
  }

  function AttrMap(attrs: seq<(string, string)>): map<string, string> {
    if attrs == [] then map[] else map[attrs[0].0 := attrs[0].1] + AttrMap(attrs[1..])
  }

  function PrintTag(name: string, closing: bool, selfClosing: bool, attrs: seq<(string, string)>): string {
    (if closing then "</" else "<") + name + AttrsText(attrs) + if selfClosing then "/>" else ">"
  }

  /** With distinct names, the attributes read back are just the ones printed. */
  lemma {:induction false} AttrMapHoldsAll(attrs: seq<(string, string)>)
    requires forall j, k :: 0 <= j < k < |attrs| ==> attrs[j].0 != attrs[k].0
    ensures forall k :: 0 <= k < |attrs| ==> attrs[k].0 in AttrMap(attrs) && AttrMap(attrs)[attrs[k].0] == attrs[k].1
    ensures forall name :: name in AttrMap(attrs) ==> exists k :: 0 <= k < |attrs| && attrs[k].0 == name
  {
    if attrs == [] {
    } else {
      var rest := attrs[1..];
      AttrMapHoldsAll(rest);
      forall k | 0 < k < |attrs| ensures attrs[k].0 in AttrMap(attrs) && AttrMap(attrs)[attrs[k].0] == attrs[k].1 {
        assert attrs[k] == rest[k - 1];
      }
      forall name | name in AttrMap(attrs) ensures exists k :: 0 <= k < |attrs| && attrs[k].0 == name {
        if name in AttrMap(rest) {
          var k :| 0 <= k < |rest| && rest[k].0 == name;
          assert attrs[k + 1].0 == name;
        } else {
          assert attrs[0].0 == name;
        }
      }
      assert forall k :: 0 <= k < |rest| ==> rest[k] == attrs[k + 1];
    }
  }

  // ---- scanning printed text -------------------------------------------------------

  /** Nothing from `i` to `j` ends the tag or leaves the top level, and all of it is kept. */
  ghost predicate Passes(t: string, start: nat, i: nat, j: nat) {
    && start <= i <= j <= |t|
    && StateAt(t, start, j) == TOP
    && TopLevel(t, start, j) == TopLevel(t, start, i) + t[i..j]
    && forall k :: i <= k < j ==> !Ends(t, start, k)
  }

  lemma PassesTwice(t: string, start: nat, i: nat, j: nat, k: nat)
    requires Passes(t, start, i, j) && Passes(t, start, j, k)
    ensures Passes(t, start, i, k)
  {
    assert t[i..k] == t[i..j] + t[j..k];
    assert TopLevel(t, start, i) + t[i..j] + t[j..k] == TopLevel(t, start, i) + (t[i..j] + t[j..k]);
  }

  predicate IsPlain(c: char) {
    IsWordChar(c) || c == ' ' || c == '=' || c == '/'
  }

  lemma {:induction false} PlainPasses(t: string, start: nat, i: nat, j: nat)
    requires start <= i <= j <= |t| && StateAt(t, start, i) == TOP
    requires forall k :: i <= k < j ==> IsPlain(t[k])
    ensures Passes(t, start, i, j)
    decreases j - i
  {
    if i < j {
      PlainPasses(t, start, i, j - 1);
      assert IsPlain(t[j - 1]);
      assert t[i..j] == t[i..j - 1] + [t[j - 1]];
    } else {
      assert TopLevel(t, start, i) + t[i..i] == TopLevel(t, start, i);
    }
  }

  /** One more character inside quotes. */
  lemma QuoteGoesOn(t: string, start: nat, i: nat, j: nat)
    requires start <= i < j < |t| && t[j] != '"' && StateAt(t, start, j) == Scan(Some('"'), 0)
    ensures StateAt(t, start, j + 1) == Scan(Some('"'), 0) && !Ends(t, start, j)
    ensures TopLevel(t, start, j + 1) == TopLevel(t, start, j) + [t[j]]
  {
  }

  lemma {:induction false} InsideQuotes(t: string, start: nat, i: nat, j: nat)
    requires start <= i < j <= |t| && StateAt(t, start, i) == TOP && t[i] == '"'
    requires forall k :: i < k < j ==> t[k] != '"'
    ensures StateAt(t, start, j) == Scan(Some('"'), 0)
    ensures TopLevel(t, start, j) == TopLevel(t, start, i) + t[i..j]
    ensures forall k :: i <= k < j ==> !Ends(t, start, k)
    decreases j - i
  {
    if i + 1 < j {
      InsideQuotes(t, start, i, j - 1);
      QuoteGoesOn(t, start, i, j - 1);
      assert t[i..j] == t[i..j - 1] + [t[j - 1]];
    } else {
      assert t[i..j] == [t[i]];
    }
  }

  lemma QuotedPasses(t: string, start: nat, i: nat, j: nat)
    requires start <= i < j < |t| && StateAt(t, start, i) == TOP && t[i] == '"' && t[j] == '"'
    requires forall k :: i < k < j ==> t[k] != '"'
    ensures Passes(t, start, i, j + 1)
  {
    InsideQuotes(t, start, i, j);
    assert t[i..j + 1] == t[i..j] + [t[j]];
  }

  ghost predicate Holds(t: string, i: nat, chunk: string) {
    i + |chunk| <= |t| && t[i..i + |chunk|] == chunk
  }

  lemma HoldsChar(t: string, i: nat, chunk: string, k: nat)
    requires Holds(t, i, chunk) && k < |chunk|
    ensures t[i + k] == chunk[k]
  {
    assert t[i..i + |chunk|][k] == t[i + k];
  }

  lemma HoldsParts(t: string, i: nat, a: string, b: string)
    requires Holds(t, i, a + b)
    ensures Holds(t, i, a) && Holds(t, i + |a|, b)
  {
    assert t[i..i + |a|] == t[i..i + |a + b|][..|a|] == a;
    assert t[i + |a|..i + |a| + |b|] == t[i..i + |a + b|][|a|..] == b;
  }

  /** Where the parts of a printed attribute stand. */
  lemma AttrParts(t: string, i: nat, name: string, value: string)
    requires Holds(t, i, AttrText(name, value))
    ensures t[i] == ' ' && Holds(t, i + 1, name)
    ensures var q := i + 1 + |name| + 1;
            t[q - 1] == '=' && t[q] == '"' && Holds(t, q + 1, value) && t[q + 1 + |value|] == '"'
    ensures |AttrText(name, value)| == 1 + |name| + 2 + |value| + 1
  {
    HoldsParts(t, i, " " + name + "=\"" + value, "\"");
    HoldsParts(t, i, " " + name + "=\"", value);
    HoldsParts(t, i, " " + name, "=\"");
    HoldsParts(t, i, " ", name);
    HoldsChar(t, i, " ", 0);
    HoldsChar(t, i + 1 + |name|, "=\"", 0);
    HoldsChar(t, i + 1 + |name|, "=\"", 1);
    HoldsChar(t, i + |" " + name + "=\"" + value|, "\"", 0);
  }

  lemma AttrPasses(t: string, start: nat, i: nat, name: string, value: string)
    requires start <= i && Holds(t, i, AttrText(name, value)) && StateAt(t, start, i) == TOP
    requires IsAttrName(name) && '"' !in value
    ensures Passes(t, start, i, i + |AttrText(name, value)|)
  {
    AttrParts(t, i, name, value);
    var q := i + 1 + |name| + 1;
    forall k | i <= k < q ensures IsPlain(t[k]) {
      if i < k < q - 1 {
        HoldsChar(t, i + 1, name, k - i - 1);
      }
    }
    PlainPasses(t, start, i, q);
    forall k | q < k < q + 1 + |value| ensures t[k] != '"' {
      HoldsChar(t, q + 1, value, k - q - 1);
    }
    QuotedPasses(t, start, q, q + 1 + |value|);
    PassesTwice(t, start, i, q, q + 2 + |value|);
  }

  /** Where the first of several printed attributes and the rest of them stand. */
  lemma AttrsParts(t: string, i: nat, attrs: seq<(string, string)>)
    requires attrs != [] && Holds(t, i, AttrsText(attrs))
    ensures var first := AttrText(attrs[0].0, attrs[0].1);
            && Holds(t, i, first) && Holds(t, i + |first|, AttrsText(attrs[1..]))
            && |AttrsText(attrs)| == |first| + |AttrsText(attrs[1..])|
  {
    HoldsParts(t, i, AttrText(attrs[0].0, attrs[0].1), AttrsText(attrs[1..]));
  }

  lemma {:induction false} AttrsPass(t: string, start: nat, i: nat, attrs: seq<(string, string)>)
    requires start <= i && Holds(t, i, AttrsText(attrs)) && StateAt(t, start, i) == TOP && ArePrintable(attrs)
    ensures Passes(t, start, i, i + |AttrsText(attrs)|)
    decreases |attrs|
  {
    if attrs == [] {
      PlainPasses(t, start, i, i);
    } else {
      var (name, value) := attrs[0];
      var j := i + |AttrText(name, value)|;
      AttrsParts(t, i, attrs);
      AttrPasses(t, start, i, name, value);
      AttrsPass(t, start, j, attrs[1..]);
      PassesTwice(t, start, i, j, j + |AttrsText(attrs[1..])|);
    }
  }

  // ---- reading printed attributes --------------------------------------------------

  lemma {:induction false} WordEndIs(s: string, i: nat, j: nat)
    requires i <= j < |s| && !IsWordChar(s[j])
    requires forall k :: i <= k < j ==> IsWordChar(s[k])
    ensures WordEnd(s, i) == j
    decreases j - i
  {
    if i == j {
    } else {
      WordEndIs(s, i + 1, j);
    }
  }

  lemma {:induction false} FindIs(s: string, i: nat, j: nat, c: char)
    requires i <= j < |s| && s[j] == c
    requires forall k :: i <= k < j ==> s[k] != c
    ensures Find(s, i, c) == Some(j)
    decreases j - i
  {
    if i == j {
    } else {
      FindIs(s, i + 1, j, c);
    }
  }

  /** The name of a printed attribute is read up to its equals sign. */
  lemma AttrNameIsRead(s: string, p: nat, name: string)
    requires Holds(s, p, name) && IsAttrName(name) && p + |name| < |s| && s[p + |name|] == '='
    ensures IsLetter(s[p]) && WordEnd(s, p + 1) == p + |name|
  {
    HoldsChar(s, p, name, 0);
    forall k | p + 1 <= k < p + |name| ensures IsWordChar(s[k]) {
      HoldsChar(s, p, name, k - p);
    }
    WordEndIs(s, p + 1, p + |name|);
  }

  /** The value of a printed attribute is read up to its closing quote. */
  lemma AttrValueIsRead(s: string, v: nat, value: string)
    requires Holds(s, v, value) && '"' !in value && v + |value| < |s| && s[v + |value|] == '"'
    ensures Find(s, v, '"') == Some(v + |value|)
  {
    forall k | v <= k < v + |value| ensures s[k] != '"' {
      HoldsChar(s, v, value, k - v);
    }
    FindIs(s, v, v + |value|, '"');
  }

  /** A name, an equals sign and a quoted value, once their ends are known, are an attribute. */
  lemma AttrAtIs(s: string, p: nat, name: string, value: string)
    requires Holds(s, p, name) && p + |name| + 2 <= |s| && IsLetter(s[p]) && WordEnd(s, p + 1) == p + |name|
    requires s[p + |name|] == '=' && s[p + |name| + 1] == '"'
    requires Holds(s, p + |name| + 2, value) && Find(s, p + |name| + 2, '"') == Some(p + |name| + 2 + |value|)
    ensures AttrAt(s, p) == Some(Attr(name, value, p + |name| + |value| + 3))
  {
  }

  lemma PrintedAttrIsRead(s: string, i: nat, name: string, value: string)
    requires Holds(s, i, AttrText(name, value)) && IsAttrName(name) && '"' !in value
    ensures AttrAt(s, i) == None
    ensures AttrAt(s, i + 1) == Some(Attr(name, value, i + |AttrText(name, value)|))
  {
    AttrParts(s, i, name, value);
    AttrNameIsRead(s, i + 1, name);
    AttrValueIsRead(s, i + 1 + |name| + 2, value);
    AttrAtIs(s, i + 1, name, value);
  }

  lemma AttrsSkip(s: string, i: nat)
    requires i < |s| && AttrAt(s, i) == None
    ensures Attrs(s, i) == Attrs(s, i + 1)
  {
  }

  lemma AttrsTake(s: string, i: nat, a: Attr)
    requires AttrAt(s, i) == Some(a)
    ensures Attrs(s, i) == map[a.name := a.value] + Attrs(s, a.end)
  {
  }

  lemma PrintedAttrStep(s: string, i: nat, name: string, value: string)
    requires Holds(s, i, AttrText(name, value)) && IsAttrName(name) && '"' !in value
    ensures Attrs(s, i) == map[name := value] + Attrs(s, i + |AttrText(name, value)|)
  {
    PrintedAttrIsRead(s, i, name, value);
    AttrsSkip(s, i);
    AttrsTake(s, i + 1, Attr(name, value, i + |AttrText(name, value)|));
  }

  ghost predicate NoLetterFrom(s: string, i: nat) {
    forall k :: i <= k < |s| ==> !IsLetter(s[k])
  }

  /** From position `i` on, just these attributes are read. */
  ghost predicate AreRead(s: string, i: nat, attrs: seq<(string, string)>) {
    Attrs(s, i) == AttrMap(attrs)
  }

  lemma OneMoreIsRead(s: string, i: nat, attrs: seq<(string, string)>)
    requires attrs != [] && IsAttrName(attrs[0].0) && '"' !in attrs[0].1
    requires Holds(s, i, AttrText(attrs[0].0, attrs[0].1))
    requires AreRead(s, i + |AttrText(attrs[0].0, attrs[0].1)|, attrs[1..])
    ensures AreRead(s, i, attrs)
  {
    PrintedAttrStep(s, i, attrs[0].0, attrs[0].1);
  }

  lemma {:induction false} NoAttrs(s: string, i: nat)
    requires NoLetterFrom(s, i)
    ensures Attrs(s, i) == map[]
    decreases |s| - i
  {
    if i >= |s| {
    } else {
      NoAttrs(s, i + 1);
    }
  }

  lemma {:induction false} PrintedAttrsAreRead(s: string, i: nat, attrs: seq<(string, string)>)
    requires Holds(s, i, AttrsText(attrs)) && ArePrintable(attrs) && NoLetterFrom(s, i + |AttrsText(attrs)|)
    ensures AreRead(s, i, attrs)
    decreases |attrs|
  {
    if attrs == [] {
      NoAttrs(s, i);
    } else {
      AttrsParts(s, i, attrs);
      PrintedAttrsAreRead(s, i + |AttrText(attrs[0].0, attrs[0].1)|, attrs[1..]);
      OneMoreIsRead(s, i, attrs);
    }
  }

  // ---- the round trip --------------------------------------------------------------

  lemma {:induction false} NameEndIs(t: string, i: nat, j: nat)
    requires i <= j < |t| && !IsAlnum(t[j])
    requires forall k :: i <= k < j ==> IsAlnum(t[k])
    ensures NameEnd(t, i) == j
    decreases j - i
  {
    if i == j {
    } else {
      NameEndIs(t, i + 1, j);
    }
  }

  predicate IsTail(tail: string) {
    tail == ">" || tail == "/>"
  }

  lemma TailPasses(t: string, to: nat, mid: nat, tail: string)
    requires to <= mid && Holds(t, mid, tail) && IsTail(tail) && StateAt(t, to, mid) == TOP
    ensures Passes(t, to, mid, mid + |tail| - 1) && Ends(t, to, mid + |tail| - 1)
    ensures forall k :: mid <= k < mid + |tail| - 1 ==> !IsLetter(t[k])
  {
    HoldsChar(t, mid, tail, 0);
    HoldsChar(t, mid, tail, |tail| - 1);
    PlainPasses(t, to, mid, mid + |tail| - 1);
  }

  /** After the attributes, the tag ends with its tail, and all before the bracket is kept. */
  lemma EndReads(t: string, to: nat, mid: nat, tail: string)
    requires Passes(t, to, to, mid) && Holds(t, mid, tail) && IsTail(tail)
    ensures var e := mid + |tail| - 1; FindEnd(t, to, to) == Some(e) && TopLevel(t, to, e) == t[to..e]
  {
    TailPasses(t, to, mid, tail);
    PassesTwice(t, to, to, mid, mid + |tail| - 1);
    FindEndIsFirst(t, to, to);
  }

  lemma AttrsRead(t: string, to: nat, mid: nat, e: nat, attrs: seq<(string, string)>)
    requires Holds(t, to, AttrsText(attrs)) && mid == to + |AttrsText(attrs)| && ArePrintable(attrs)
    requires mid <= e <= |t| && forall k :: mid <= k < e ==> !IsLetter(t[k])
    ensures Attrs(t[to..e], 0) == AttrMap(attrs)
  {
    var s := t[to..e];
    assert s[0..0 + (mid - to)] == t[to..mid];
    PrintedAttrsAreRead(s, 0, attrs);
  }

  lemma {:induction false} AttrsEndInQuote(attrs: seq<(string, string)>)
    requires attrs != []
    ensures AttrsText(attrs) != "" && AttrsText(attrs)[|AttrsText(attrs)| - 1] == '"'
  {
    var (name, value) := attrs[0];
    assert AttrText(name, value)[|AttrText(name, value)| - 1] == '"';
    if |attrs| > 1 {
      AttrsEndInQuote(attrs[1..]);
    } else {
      assert AttrsText(attrs) == AttrText(name, value);
    }
  }

  /** What stands just before the tail is the end of a name or of a quoted value, never a slash. */
  lemma NoSlashBeforeTail(t: string, from: nat, name: string, attrs: seq<(string, string)>)
    requires Holds(t, from, name) && IsTagName(name) && Holds(t, from + |name|, AttrsText(attrs))
    ensures t[from + |name| + |AttrsText(attrs)| - 1] != '/'
  {
    if attrs == [] {
      HoldsChar(t, from, name, |name| - 1);
      assert IsAlnum(name[|name| - 1]);
    } else {
      AttrsEndInQuote(attrs);
      HoldsChar(t, from + |name|, AttrsText(attrs), |AttrsText(attrs)| - 1);
    }
  }

  /** The character before the final bracket says whether the tag closes itself. */
  lemma SlashReads(t: string, mid: nat, tail: string)
    requires 0 < mid && Holds(t, mid, tail) && IsTail(tail) && t[mid - 1] != '/'
    ensures t[mid + |tail| - 2] == '/' <==> tail == "/>"
  {
    HoldsChar(t, mid, tail, 0);
  }

  lemma HeadReads(t: string, start: nat, from: nat, name: string)
    requires Holds(t, from, name) && IsTagName(name) && from + |name| < |t| && !IsAlnum(t[from + |name|])
    requires start < from && t[start] == '<' && (from == start + 1 || (from == start + 2 && t[start + 1] == '/'))
    ensures Head(t, start) == Some((from, from + |name|)) && t[from..from + |name|] == name
  {
    HoldsChar(t, from, name, 0);
    forall k | from <= k < from + |name| ensures IsAlnum(t[k]) {
      HoldsChar(t, from, name, k - from);
    }
    NameEndIs(t, from, from + |name|);
  }

  /** What follows the name of a printed tag is not part of it. */
  lemma NameStops(t: string, to: nat, attrs: seq<(string, string)>, tail: string)
    requires Holds(t, to, AttrsText(attrs)) && Holds(t, to + |AttrsText(attrs)|, tail) && IsTail(tail)
    ensures to < |t| && !IsAlnum(t[to])
  {
    HoldsChar(t, to + |AttrsText(attrs)|, tail, 0);
    if attrs != [] {
      assert AttrsText(attrs)[0] == ' ';
      HoldsChar(t, to, AttrsText(attrs), 0);
    }
  }

  /** What the printed attributes between `to` and `mid` let the scanner read. */
  ghost predicate ReadsAttrs(t: string, to: nat, mid: nat, tail: string, attrs: map<string, string>) {
    && Passes(t, to, to, mid) && 0 < mid && t[mid - 1] != '/'
    && mid + |tail| <= |t| && tail != "" && !IsAlnum(t[to])
    && Attrs(t[to..mid + |tail| - 1], 0) == attrs
  }

  lemma PrintedAttrsRead(
      t: string, from: nat, to: nat, mid: nat, name: string, attrs: seq<(string, string)>, tail: string)
    requires Holds(t, from, name) && Holds(t, to, AttrsText(attrs)) && Holds(t, mid, tail)
    requires to == from + |name| && mid == to + |AttrsText(attrs)|
    requires IsTagName(name) && ArePrintable(attrs) && IsTail(tail)
    ensures ReadsAttrs(t, to, mid, tail, AttrMap(attrs))
  {
    AttrsPass(t, to, to, attrs);
    TailPasses(t, to, mid, tail);
    AttrsRead(t, to, mid, mid + |tail| - 1, attrs);
    NoSlashBeforeTail(t, from, name, attrs);
    NameStops(t, to, attrs, tail);
  }

  lemma PrintedEndIsRead(t: string, to: nat, mid: nat, tail: string, attrs: map<string, string>)
    requires Holds(t, mid, tail) && IsTail(tail) && ReadsAttrs(t, to, mid, tail, attrs)
    ensures var e := mid + |tail| - 1;
            && FindEnd(t, to, to) == Some(e) && (t[e - 1] == '/' <==> tail == "/>")
            && Attrs(TopLevel(t, to, e), 0) == attrs
  {
    EndReads(t, to, mid, tail);
    SlashReads(t, mid, tail);
  }

  lemma PrintedTagIsRead(t: string, start: nat, from: nat, to: nat, mid: nat, attrs: map<string, string>, tail: string)
    requires Head(t, start) == Some((from, to))
    requires Holds(t, mid, tail) && IsTail(tail) && ReadsAttrs(t, to, mid, tail, attrs)
    ensures TagAt(t, start) == Some(Tag(t[from..to], from == start + 2, tail == "/>", attrs, mid + |tail|))
  {
    PrintedEndIsRead(t, to, mid, tail, attrs);
    TagAtFrom(t, start, from, to, mid + |tail| - 1);
  }

  /** Where the four parts of a printed tag stand. */
  lemma PrintedParts(t: string, start: nat, from: nat, to: nat, mid: nat,
                     open: string, name: string, attrText: string, tail: string)
    requires Holds(t, start, open + name + attrText + tail)
    requires from == start + |open| && to == from + |name| && mid == to + |attrText|
    ensures Holds(t, start, open) && Holds(t, from, name) && Holds(t, to, attrText) && Holds(t, mid, tail)
  {
    HoldsParts(t, start, open + name + attrText, tail);
    HoldsParts(t, start, open + name, attrText);
    HoldsParts(t, start, open, name);
  }

  lemma PrintedOpening(t: string, start: nat, open: string)
    requires Holds(t, start, open) && (open == "<" || open == "</")
    ensures t[start] == '<' && (|open| == 2 ==> t[start + 1] == '/')
  {
    HoldsChar(t, start, open, 0);
    if |open| == 2 {
      HoldsChar(t, start, open, 1);
    }
  }

  /** The opening and the name of a standing tag are read as its head. */
  lemma StandingHead(t: string, start: nat, from: nat, to: nat, open: string, name: string)
    requires Holds(t, start, open) && (open == "<" || open == "</") && Holds(t, from, name) && IsTagName(name)
    requires from == start + |open| && to == from + |name| && to < |t| && !IsAlnum(t[to])
    ensures Head(t, start) == Some((from, to)) && t[from..to] == name
  {
    PrintedOpening(t, start, open);
    HeadReads(t, start, from, name);
  }

  /** What parsing the tag at `start` gives. */
  ghost predicate IsReadAs(t: string, start: nat, open: string, name: string, tail: string,
                           attrs: map<string, string>, end: nat) {
    TagAt(t, start) == Some(Tag(name, |open| == 2, tail == "/>", attrs, end))
  }

  /** A tag whose attributes the scanner reads is read whole, from its opening to its tail. */
  lemma StandingTagIsRead(t: string, start: nat, from: nat, to: nat, mid: nat,
                          open: string, name: string, attrs: map<string, string>, tail: string)
    requires Holds(t, start, open) && (open == "<" || open == "</") && Holds(t, from, name) && IsTagName(name)
    requires from == start + |open| && to == from + |name|
    requires Holds(t, mid, tail) && IsTail(tail) && ReadsAttrs(t, to, mid, tail, attrs)
    ensures IsReadAs(t, start, open, name, tail, attrs, mid + |tail|)
  {
    StandingHead(t, start, from, to, open, name);
    PrintedTagIsRead(t, start, from, to, mid, attrs, tail);
  }

  lemma HoldsBetween(before: string, chunk: string, after: string)
    ensures Holds(before + chunk + after, |before|, chunk)
  {
  }

  /** A tag that stands as printed is read as it was printed. */
  lemma StandingTagReadsBack(t: string, start: nat, from: nat, to: nat, mid: nat,
                             open: string, name: string, attrs: seq<(string, string)>, tail: string)
    requires Holds(t, start, open + name + AttrsText(attrs) + tail)
    requires from == start + |open| && to == from + |name| && mid == to + |AttrsText(attrs)|
    requires (open == "<" || open == "</") && IsTagName(name) && ArePrintable(attrs) && IsTail(tail)
    ensures IsReadAs(t, start, open, name, tail, AttrMap(attrs), mid + |tail|)
  {
    PrintedParts(t, start, from, to, mid, open, name, AttrsText(attrs), tail);
    PrintedAttrsRead(t, from, to, mid, name, attrs, tail);
    StandingTagIsRead(t, start, from, to, mid, open, name, AttrMap(attrs), tail);
  }

  /** A printed tag, anywhere in any text, parses back to its name, flags and attributes. */
  lemma ParseInvertsPrint(before: string, after: string, name: string, closing: bool, selfClosing: bool,
                          attrs: seq<(string, string)>)
    requires IsTagName(name) && ArePrintable(attrs)
    ensures var printed := PrintTag(name, closing, selfClosing, attrs);
            TagAt(before + printed + after, |before|)
            == Some(Tag(name, closing, selfClosing, AttrMap(attrs), |before| + |printed|))
  {
    var printed := PrintTag(name, closing, selfClosing, attrs);
    var open, tail := if closing then "</" else "<", if selfClosing then "/>" else ">";
    HoldsBetween(before, printed, after);
    var from := |before| + |open|;
    var to := from + |name|;
    StandingTagReadsBack(before + printed + after, |before|, from, to, to + |AttrsText(attrs)|,
                         open, name, attrs, tail);
  }
}
