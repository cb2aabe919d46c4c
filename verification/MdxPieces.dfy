/**
 What the MDX cleaner makes of prose that has tags to replace, scripts/kb-mdx.ts lines 172-200.

 Prose is put together from plain text, inline code and printed tags, with code in their attribute
 values too. Cleaning it replaces each tag as a whole; all else comes through, wherever it stands.
 */
module MdxPieces {
  import opened Wrappers
  import opened Text
  import opened MdxInlineCode
  import opened MdxPlaceholders
  import opened MdxTags
  import opened MdxProse
  import opened MdxTagWeight

  datatype Chunk = Plain(text: string) | Code(ticks: nat, body: string)

  /** A chunk of prose, or a tag whose attribute values are chunks. */
  datatype Piece =
    | Prose(chunk: Chunk)
    | Printed(name: string, closing: bool, selfClosing: bool, attrs: seq<(string, seq<Chunk>)>)

  function Ticked(n: nat): string {
    seq(n, _ => '`')
  }

  function CodeText(ticks: nat, body: string): string {
    Ticked(ticks) + body + Ticked(ticks)
  }

  /** A chunk as written, or as masking leaves it when it is the `n`th code. */
  function ChunkText(c: Chunk, n: nat, masked: bool): string {
    match c
    case Plain(text) => text
    case Code(ticks, body) => if masked then Placeholder(n) else CodeText(ticks, body)
  }

  function NextNumber(c: Chunk, n: nat): nat {
    if c.Code? then n + 1 else n
  }

  function ChunksText(chunks: seq<Chunk>, n: nat, masked: bool): string {
    if chunks == [] then ""
    else ChunkText(chunks[0], n, masked) + ChunksText(chunks[1..], NextNumber(chunks[0], n), masked)
  }

  /** The number of the first code after `chunks`, if theirs are numbered from `n`. */
  function Past(chunks: seq<Chunk>, n: nat): nat {
    if chunks == [] then n else Past(chunks[1..], NextNumber(chunks[0], n))
  }

  function AttrsAs(attrs: seq<(string, seq<Chunk>)>, n: nat, masked: bool): seq<(string, string)> {
    if attrs == [] then []
    else [(attrs[0].0, ChunksText(attrs[0].1, n, masked))] + AttrsAs(attrs[1..], Past(attrs[0].1, n), masked)
  }

  function PieceText(p: Piece, n: nat, masked: bool): string {
    match p
    case Prose(chunk) => ChunkText(chunk, n, masked)
    case Printed(name, closing, selfClosing, attrs) => PrintTag(name, closing, selfClosing, AttrsAs(attrs, n, masked))
  }

  function FlatAttrs(attrs: seq<(string, seq<Chunk>)>): seq<Chunk> {
    if attrs == [] then []
    else [Plain(" " + attrs[0].0 + "=\"")] + attrs[0].1 + [Plain("\"")] + FlatAttrs(attrs[1..])
  }

  /** The chunks of a piece, those of a tag's own text between those of its values. */
  function Flat(p: Piece): seq<Chunk> {
    match p
    case Prose(chunk) => [chunk]
    case Printed(name, closing, selfClosing, attrs) =>
      [Plain((if closing then "</" else "<") + name)] + FlatAttrs(attrs) + [Plain(if selfClosing then "/>" else ">")]
  }

  function FlatAll(pieces: seq<Piece>): seq<Chunk> {
    if pieces == [] then [] else Flat(pieces[0]) + FlatAll(pieces[1..])
  }

  function PiecesText(pieces: seq<Piece>, n: nat, masked: bool): string {
    if pieces == [] then ""
    else PieceText(pieces[0], n, masked) + PiecesText(pieces[1..], Past(Flat(pieces[0]), n), masked)
  }

  function SourceOf(pieces: seq<Piece>): string {
    PiecesText(pieces, 0, false)
  }

  /** What a tag gives way to, its code masked, or nothing if it stays. */
  function TagReplacement(p: Piece, n: nat): Option<string>
    requires p.Printed?
  {
    PrintedReplacement(p.name, p.closing, p.selfClosing, AttrsAs(p.attrs, n, true))
  }

  /** What a piece whose code is numbered from `n` is cleaned to: the code a replacement takes over comes back whole. */
  function Cleaned(p: Piece, n: nat, spans: seq<string>): string {
    if p.Printed? && TagReplacement(p, n).Some? then Unmask(TagReplacement(p, n).value, spans)
    else PieceText(p, n, false)
  }

  function CleanedFrom(pieces: seq<Piece>, n: nat, spans: seq<string>): string {
    if pieces == [] then ""
    else Cleaned(pieces[0], n, spans) + CleanedFrom(pieces[1..], Past(Flat(pieces[0]), n), spans)
  }

  function SpansOf(chunks: seq<Chunk>): seq<string> {
    if chunks == [] then []
    else (if chunks[0].Code? then [CodeText(chunks[0].ticks, chunks[0].body)] else []) + SpansOf(chunks[1..])
  }

  function CleanedOf(pieces: seq<Piece>): string {
    CleanedFrom(pieces, 0, SpansOf(FlatAll(pieces)))
  }

  ghost predicate NoValueHolds(attrs: seq<(string, string)>, c: char) {
    forall k :: 0 <= k < |attrs| ==> c !in attrs[k].1
  }

  /** Plain text opens no code; code has backticks around it only, and stays on its line. */
  ghost predicate IsChunk(c: Chunk) {
    match c
    case Plain(text) => '`' !in text && NUL !in text
    case Code(ticks, body) => ticks > 0 && body != "" && '`' !in body && '\n' !in body
  }

  ghost predicate AreChunks(chunks: seq<Chunk>) {
    forall k :: 0 <= k < |chunks| ==> IsChunk(chunks[k])
  }

  /** A `<` that no tag follows, nor the end of the text. */
  predicate OpensNoTag(text: string, k: nat)
    requires k < |text|
  {
    && k + 1 < |text| && !IsUpper(text[k + 1])
    && (text[k + 1] == '/' ==> k + 2 < |text| && !IsUpper(text[k + 2]))
  }

  ghost predicate IsQuiet(text: string) {
    forall k :: 0 <= k < |text| && text[k] == '<' ==> OpensNoTag(text, k)
  }

  /** No plain text among the chunks holds the character; code may. */
  ghost predicate PlainAvoids(chunks: seq<Chunk>, c: char) {
    forall k :: 0 <= k < |chunks| && chunks[k].Plain? ==> c !in chunks[k].text
  }

  /** Values are chunks without double quotes outside code. */
  ghost predicate AreValues(attrs: seq<(string, seq<Chunk>)>) {
    forall k :: 0 <= k < |attrs| ==>
      IsAttrName(attrs[k].0) && AreChunks(attrs[k].1) && PlainAvoids(attrs[k].1, '"')
  }

  /** Plain text opens no tag, and a tag that stays holds no other. */
  ghost predicate IsPiece(p: Piece) {
    match p
    case Prose(chunk) => IsChunk(chunk) && (chunk.Plain? ==> IsQuiet(chunk.text))
    case Printed(name, closing, selfClosing, attrs) =>
      && IsTagName(name) && AreValues(attrs)
      && (!IsKnown(name) && (closing || !selfClosing) ==>
            forall k :: 0 <= k < |attrs| ==> PlainAvoids(attrs[k].1, '<'))
  }

  ghost predicate ArePieces(pieces: seq<Piece>) {
    forall k :: 0 <= k < |pieces| ==> IsPiece(pieces[k])
  }

  // ---- characters a tag does not hold ----------------------------------------------

  predicate IsForeign(c: char) {
    !IsWordChar(c) && c !in {' ', '=', '"', '/', '>'}
  }

  lemma NotInFour(c: char, a: string, b: string, d: string, e: string)
    requires c !in a && c !in b && c !in d && c !in e
    ensures c !in a + b + d + e
  {
    NotInEither(c, a, b);
    NotInEither(c, a + b, d);
    NotInEither(c, a + b + d, e);
  }

  lemma AttrTextAvoids(name: string, value: string, c: char)
    requires IsAttrName(name) && IsForeign(c) && c !in value
    ensures c !in AttrText(name, value)
  {
    NotInFour(c, " ", name, "=\"", value);
    NotInEither(c, " " + name + "=\"" + value, "\"");
  }

  lemma {:induction false} AttrsTextAvoids(attrs: seq<(string, string)>, c: char)
    requires ArePrintable(attrs) && IsForeign(c) && NoValueHolds(attrs, c)
    ensures c !in AttrsText(attrs)
  {
    if attrs == [] {
    } else {
      AttrTextAvoids(attrs[0].0, attrs[0].1, c);
      AttrsTextAvoids(attrs[1..], c);
      NotInEither(c, AttrText(attrs[0].0, attrs[0].1), AttrsText(attrs[1..]));
    }
  }

  /** A printed tag after its `<`. */
  lemma AfterBracket(name: string, closing: bool, selfClosing: bool, attrs: seq<(string, string)>)
    ensures var tag := PrintTag(name, closing, selfClosing, attrs);
            && tag == "<" + tag[1..]
            && tag[1..] == (if closing then "/" else "") + name + AttrsText(attrs) + (if selfClosing then "/>" else ">")
  {
    var slash, tail := if closing then "/" else "", if selfClosing then "/>" else ">";
    assert PrintTag(name, closing, selfClosing, attrs) == "<" + (slash + name + AttrsText(attrs) + tail);
  }

  lemma PrintTagAvoids(name: string, closing: bool, selfClosing: bool, attrs: seq<(string, string)>, c: char)
    requires IsTagName(name) && ArePrintable(attrs) && IsForeign(c) && NoValueHolds(attrs, c)
    ensures var tag := PrintTag(name, closing, selfClosing, attrs);
            c !in tag[1..] && (c != '<' ==> c !in tag)
  {
    AttrsTextAvoids(attrs, c);
    NotInFour(c, if closing then "/" else "", name, AttrsText(attrs), if selfClosing then "/>" else ">");
    AfterBracket(name, closing, selfClosing, attrs);
    NotInEither(c, "<", PrintTag(name, closing, selfClosing, attrs)[1..]);
  }

  // ---- characters a replacement does not hold --------------------------------------

  lemma {:induction false} AfterSpacesKeeps(s: string, c: char)
    requires s != "" && IsSpace(s[0]) && c !in s
    ensures c !in AfterSpaces(s)
  {
    if |s| > 1 && IsSpace(s[1]) {
      AfterSpacesKeeps(s[1..], c);
    } else {
    }
  }

  lemma {:induction false} CollapsedAvoids(s: string, c: char)
    requires c !in s && c != ' '
    ensures c !in Collapsed(s)
    decreases |s|
  {
    if s == "" {
    } else if IsSpace(s[0]) {
      AfterSpacesKeeps(s, c);
      CollapsedAvoids(AfterSpaces(s), c);
      NotInEither(c, " ", Collapsed(AfterSpaces(s)));
    } else {
      CollapsedAvoids(s[1..], c);
      NotInEither(c, [s[0]], Collapsed(s[1..]));
    }
  }

  lemma {:induction false} TrimStartAvoids(s: string, c: char)
    requires c !in s
    ensures c !in TrimStart(s)
  {
    if s != "" && IsSpace(s[0]) {
      TrimStartAvoids(s[1..], c);
    } else {
    }
  }

  lemma {:induction false} TrimEndAvoids(s: string, c: char)
    requires c !in s
    ensures c !in TrimEnd(s)
  {
    if s != "" && IsSpace(s[|s| - 1]) {
      TrimEndAvoids(s[..|s| - 1], c);
    } else {
    }
  }

  lemma SentenceAvoidsNul(text: string)
    requires NUL !in text
    ensures NUL !in Sentence(text)
  {
    TrimStartAvoids(text, NUL);
    TrimEndAvoids(TrimStart(text), NUL);
    CollapsedAvoids(Trim(text), NUL);
    NotInEither(NUL, Collapsed(Trim(text)), ".");
  }

  ghost predicate ValuesAvoidNul(tag: Tag) {
    forall name :: name in tag.attrs ==> NUL !in tag.attrs[name]
  }

  lemma {:induction false} FirstPresentAvoidsNul(tag: Tag, names: seq<string>)
    requires ValuesAvoidNul(tag)
    ensures FirstPresent(tag, names).Some? ==> NUL !in FirstPresent(tag, names).value
  {
    if names == [] {
    } else {
      FirstPresentAvoidsNul(tag, names[1..]);
    }
  }

  lemma {:induction false} FirstFilledAvoidsNul(tag: Tag, names: seq<string>)
    requires ValuesAvoidNul(tag)
    ensures FirstFilled(tag, names).Some? ==> NUL !in FirstFilled(tag, names).value
  {
    if names == [] {
    } else {
      FirstFilledAvoidsNul(tag, names[1..]);
    }
  }

  lemma LinkCardAvoidsNul(tag: Tag)
    requires ValuesAvoidNul(tag)
    ensures NUL !in LinkCardText(tag)
  {
    var title, description := Attribute(tag, "title"), Attribute(tag, "description");
    if title.Some? {
      NotInFour(NUL, "**", title.value, "**", "");
      if description.Some? {
        SentenceAvoidsNul(description.value);
        NotInFour(NUL, "**", title.value, "**: ", Sentence(description.value));
      }
    }
  }

  lemma LabelAvoidsNul(tag: Tag)
    requires ValuesAvoidNul(tag)
    ensures NUL !in LabelText(tag)
  {
    FirstPresentAvoidsNul(tag, ["label", "title", "type"]);
    var found := FirstPresent(tag, ["label", "title", "type"]);
    if found.Some? {
      NotInFour(NUL, "**", found.value, ":**", "");
      NotInFour(NUL, "**", Capitalized(found.value), ":**", "");
    }
  }

  lemma CaptionAvoidsNul(tag: Tag)
    requires ValuesAvoidNul(tag)
    ensures NUL !in CaptionText(tag)
  {
    FirstFilledAvoidsNul(tag, ["caption", "alt", "title", "description"]);
    match FirstFilled(tag, ["caption", "alt", "title", "description"])
    case None =>
    case Some(text) =>
      SentenceAvoidsNul(text);
      var kind := if tag.name == "Screenshot" then "Screenshot" else "Diagram";
      NotInFour(NUL, "_", kind, ": ", Sentence(text));
      NotInEither(NUL, "_" + kind + ": " + Sentence(text), "_");
  }

  lemma ReplacementAvoidsNul(tag: Tag)
    requires ValuesAvoidNul(tag)
    ensures ReplacementFor(tag).Some? ==> NUL !in ReplacementFor(tag).value
  {
    LinkCardAvoidsNul(tag);
    LabelAvoidsNul(tag);
    CaptionAvoidsNul(tag);
  }

  lemma {:induction false} AttrMapAvoidsNul(attrs: seq<(string, string)>)
    requires NoValueHolds(attrs, NUL)
    ensures forall name :: name in AttrMap(attrs) ==> NUL !in AttrMap(attrs)[name]
  {
    if attrs == [] {
    } else {
      AttrMapAvoidsNul(attrs[1..]);
    }
  }

  // ---- pieces and their chunks -----------------------------------------------------

  lemma {:induction false} ChunksConcat(a: seq<Chunk>, b: seq<Chunk>, n: nat, masked: bool)
    ensures ChunksText(a + b, n, masked) == ChunksText(a, n, masked) + ChunksText(b, Past(a, n), masked)
    ensures Past(a + b, n) == Past(b, Past(a, n))
    decreases |a|
  {
    if a == [] {
      assert a + b == b;
    } else {
      assert (a + b)[0] == a[0] && (a + b)[1..] == a[1..] + b;
      var next := NextNumber(a[0], n);
      ChunksConcat(a[1..], b, next, masked);
      Reassociate(ChunkText(a[0], n, masked), ChunksText(a[1..], next, masked), ChunksText(b, Past(a, n), masked));
    }
  }

  lemma OnePlain(text: string, n: nat, masked: bool)
    ensures ChunksText([Plain(text)], n, masked) == text && Past([Plain(text)], n) == n
  {
    assert [Plain(text)][1..] == [];
  }

  /** Chunks between two plain texts. */
  lemma BetweenPlain(a: string, chunks: seq<Chunk>, b: string, n: nat, masked: bool)
    ensures ChunksText([Plain(a)] + chunks + [Plain(b)], n, masked) == a + ChunksText(chunks, n, masked) + b
    ensures Past([Plain(a)] + chunks + [Plain(b)], n) == Past(chunks, n)
  {
    OnePlain(a, n, masked);
    OnePlain(b, Past(chunks, n), masked);
    ChunksConcat([Plain(a)], chunks, n, masked);
    ChunksConcat([Plain(a)] + chunks, [Plain(b)], n, masked);
  }

  lemma {:induction false} FlatAttrsText(attrs: seq<(string, seq<Chunk>)>, n: nat, masked: bool)
    ensures ChunksText(FlatAttrs(attrs), n, masked) == AttrsText(AttrsAs(attrs, n, masked))
    decreases |attrs|
  {
    if attrs == [] {
    } else {
      var (name, value) := attrs[0];
      var first := [Plain(" " + name + "=\"")] + value + [Plain("\"")];
      BetweenPlain(" " + name + "=\"", value, "\"", n, masked);
      ChunksConcat(first, FlatAttrs(attrs[1..]), n, masked);
      FlatAttrsText(attrs[1..], Past(value, n), masked);
      assert AttrsAs(attrs, n, masked)[1..] == AttrsAs(attrs[1..], Past(value, n), masked);
    }
  }

  lemma FlatText(p: Piece, n: nat, masked: bool)
    ensures ChunksText(Flat(p), n, masked) == PieceText(p, n, masked)
  {
    match p
    case Prose(chunk) =>
      assert [chunk][1..] == [] && ChunkText(chunk, n, masked) + "" == ChunkText(chunk, n, masked);
    case Printed(name, closing, selfClosing, attrs) =>
      FlatAttrsText(attrs, n, masked);
      var open, tail := if closing then "</" else "<", if selfClosing then "/>" else ">";
      BetweenPlain(open + name, FlatAttrs(attrs), tail, n, masked);
  }

  lemma {:induction false} FlatAllText(pieces: seq<Piece>, n: nat, masked: bool)
    ensures ChunksText(FlatAll(pieces), n, masked) == PiecesText(pieces, n, masked)
    decreases |pieces|
  {
    if pieces == [] {
    } else {
      FlatText(pieces[0], n, masked);
      ChunksConcat(Flat(pieces[0]), FlatAll(pieces[1..]), n, masked);
      FlatAllText(pieces[1..], Past(Flat(pieces[0]), n), masked);
    }
  }

  lemma ChunksJoin(a: seq<Chunk>, b: seq<Chunk>)
    requires AreChunks(a) && AreChunks(b)
    ensures AreChunks(a + b)
  {
  }

  lemma PlainIsChunk(text: string)
    requires '`' !in text && NUL !in text
    ensures AreChunks([Plain(text)])
  {
  }

  lemma NameAvoids(before: string, name: string, after: string)
    requires '`' !in before && NUL !in before && '`' !in after && NUL !in after
    requires forall k :: 0 <= k < |name| ==> IsWordChar(name[k])
    ensures '`' !in before + name + after && NUL !in before + name + after
  {
    NotInFour('`', before, name, after, "");
    NotInFour(NUL, before, name, after, "");
    assert before + name + after + "" == before + name + after;
  }

  lemma {:induction false} FlatAttrsAreChunks(attrs: seq<(string, seq<Chunk>)>)
    requires AreValues(attrs)
    ensures AreChunks(FlatAttrs(attrs))
  {
    if attrs == [] {
    } else {
      var (name, value) := attrs[0];
      NameAvoids(" ", name, "=\"");
      PlainIsChunk(" " + name + "=\"");
      PlainIsChunk("\"");
      FlatAttrsAreChunks(attrs[1..]);
      ChunksJoin([Plain(" " + name + "=\"")], value);
      ChunksJoin([Plain(" " + name + "=\"")] + value, [Plain("\"")]);
    }
  }

  lemma FlatIsChunks(p: Piece)
    requires IsPiece(p)
    ensures AreChunks(Flat(p))
  {
    if p.Printed? {
      var open, tail := if p.closing then "</" else "<", if p.selfClosing then "/>" else ">";
      NameAvoids(open, p.name, "");
      assert open + p.name + "" == open + p.name;
      PlainIsChunk(open + p.name);
      PlainIsChunk(tail);
      FlatAttrsAreChunks(p.attrs);
    }
  }

  lemma {:induction false} FlatAllIsChunks(pieces: seq<Piece>)
    requires ArePieces(pieces)
    ensures AreChunks(FlatAll(pieces))
  {
    if pieces == [] {
    } else {
      FlatIsChunks(pieces[0]);
      FlatAllIsChunks(pieces[1..]);
      ChunksJoin(Flat(pieces[0]), FlatAll(pieces[1..]));
    }
  }

  // ---- masking ---------------------------------------------------------------------

  /** Where code stands: its backticks, its body, its backticks again. */
  lemma CodeStands(t: string, i: nat, ticks: nat, body: string)
    requires Holds(t, i, CodeText(ticks, body)) && IsChunk(Code(ticks, body))
    ensures i + ticks + |body| + ticks <= |t|
    ensures forall j :: i <= j < i + ticks ==> t[j] == '`'
    ensures forall j :: i + ticks <= j < i + ticks + |body| ==> t[j] != '`' && t[j] != '\n'
    ensures forall j :: i + ticks + |body| <= j < i + ticks + |body| + ticks ==> t[j] == '`'
  {
    var open, close := i + ticks, i + ticks + |body|;
    HoldsParts(t, i, Ticked(ticks) + body, Ticked(ticks));
    HoldsParts(t, i, Ticked(ticks), body);
    forall j | i <= j < open ensures t[j] == '`' {
      HoldsChar(t, i, Ticked(ticks), j - i);
    }
    forall j | open <= j < close ensures t[j] != '`' && t[j] != '\n' {
      HoldsChar(t, open, body, j - open);
    }
    forall j | close <= j < close + ticks ensures t[j] == '`' {
      HoldsChar(t, close, Ticked(ticks), j - close);
    }
  }

  /** Code is the span that masking finds at its start. */
  lemma CodeIsSpan(t: string, i: nat, ticks: nat, body: string)
    requires Holds(t, i, CodeText(ticks, body)) && IsChunk(Code(ticks, body))
    ensures Span(t, i) == Some(i + |CodeText(ticks, body)|)
  {
    var open, close := i + ticks, i + ticks + |body|;
    CodeStands(t, i, ticks, body);
    TicksAre(t, i, ticks);
    TicksCount(t, close, ticks);
    CloseAtIs(t, open, close, ticks);
  }

  /** What masking a text from `i` on gives. */
  ghost predicate MasksTo(t: string, i: nat, n: nat, text: string, spans: seq<string>) {
    i <= |t| && Mask(t, i, n) == Masked(text, spans)
  }

  lemma SpanIsMasked(t: string, i: nat, n: nat, end: nat, text: string, spans: seq<string>)
    requires i < |t| && Span(t, i) == Some(end) && MasksTo(t, end, n + 1, text, spans)
    ensures MasksTo(t, i, n, Placeholder(n) + text, [t[i..end]] + spans)
  {
    MaskSpan(t, i, n, end);
  }

  lemma TextIsMasked(t: string, i: nat, n: nat, end: nat, text: string, spans: seq<string>)
    requires i <= end && MasksTo(t, end, n, text, spans) && '`' !in t[i..end]
    ensures MasksTo(t, i, n, t[i..end] + text, spans)
  {
    MaskCopies(t, i, end - i, n);
  }

  /** The chunks stand from `i` on, up to the end of the text. */
  ghost predicate StandFrom(t: string, i: nat, chunks: seq<Chunk>, n: nat) {
    i <= |t| && t[i..] == ChunksText(chunks, n, false)
  }

  lemma SplitAt(t: string, i: nat, first: string, rest: string) returns (end: nat)
    requires i <= |t| && t[i..] == first + rest
    ensures i <= end <= |t| && t[i..end] == first && t[end..] == rest
  {
    end := i + |first|;
    assert t[i..end] == t[i..][..|first|];
    assert t[end..] == t[i..][|first|..];
  }

  /** Masking gives the chunks with their codes numbered, and collects the codes. */
  ghost predicate AreMasked(t: string, i: nat, n: nat, chunks: seq<Chunk>) {
    MasksTo(t, i, n, ChunksText(chunks, n, true), SpansOf(chunks))
  }

  lemma OneMoreMasked(t: string, i: nat, end: nat, n: nat, chunks: seq<Chunk>)
    requires chunks != [] && IsChunk(chunks[0]) && i <= end <= |t| && t[i..end] == ChunkText(chunks[0], n, false)
    requires AreMasked(t, end, NextNumber(chunks[0], n), chunks[1..])
    ensures AreMasked(t, i, n, chunks)
  {
    var text, spans := ChunksText(chunks[1..], NextNumber(chunks[0], n), true), SpansOf(chunks[1..]);
    match chunks[0]
    case Code(ticks, body) =>
      CodeIsSpan(t, i, ticks, body);
      SpanIsMasked(t, i, n, end, text, spans);
    case Plain(_) =>
      TextIsMasked(t, i, n, end, text, spans);
      assert [] + spans == spans;
  }

  /** Masking takes one chunk after another. */
  lemma {:induction false} ChunksAreMasked(t: string, i: nat, n: nat, chunks: seq<Chunk>)
    requires StandFrom(t, i, chunks, n) && AreChunks(chunks)
    ensures AreMasked(t, i, n, chunks)
    decreases |chunks|
  {
    if chunks == [] {
    } else {
      var next := NextNumber(chunks[0], n);
      var end := SplitAt(t, i, ChunkText(chunks[0], n, false), ChunksText(chunks[1..], next, false));
      ChunksAreMasked(t, end, next, chunks[1..]);
      OneMoreMasked(t, i, end, n, chunks);
    }
  }

  /** Masking prose made of pieces numbers its codes, in tags as well, and copies the rest. */
  lemma PiecesAreMasked(pieces: seq<Piece>)
    requires ArePieces(pieces)
    ensures Mask(SourceOf(pieces), 0, 0) == Masked(PiecesText(pieces, 0, true), SpansOf(FlatAll(pieces)))
  {
    var t := SourceOf(pieces);
    FlatAllIsChunks(pieces);
    FlatAllText(pieces, 0, false);
    FlatAllText(pieces, 0, true);
    assert t[0..] == t;
    ChunksAreMasked(t, 0, 0, FlatAll(pieces));
  }

  // ---- masked values ---------------------------------------------------------------

  lemma PlaceholderAvoids(n: nat, c: char)
    requires c != NUL && !IsDigit(c)
    ensures c !in Placeholder(n)
  {
    NumeralRoundTrip(n);
    forall k | 0 <= k < |Numeral(n)| ensures Numeral(n)[k] != c {
      assert IsDigit(Numeral(n)[k]);
    }
    NotInFour(c, [NUL], Numeral(n), [NUL], "");
    assert [NUL] + Numeral(n) + [NUL] + "" == Placeholder(n);
  }

  lemma {:induction false} MaskedAvoids(chunks: seq<Chunk>, n: nat, c: char)
    requires PlainAvoids(chunks, c) && c != NUL && !IsDigit(c)
    ensures c !in ChunksText(chunks, n, true)
    decreases |chunks|
  {
    if chunks == [] {
    } else {
      MaskedAvoids(chunks[1..], NextNumber(chunks[0], n), c);
      PlaceholderAvoids(n, c);
      NotInEither(c, ChunkText(chunks[0], n, true), ChunksText(chunks[1..], NextNumber(chunks[0], n), true));
    }
  }

  lemma {:induction false} MaskedIsWhole(chunks: seq<Chunk>, n: nat)
    requires AreChunks(chunks)
    ensures IsWhole(ChunksText(chunks, n, true))
    decreases |chunks|
  {
    if chunks == [] {
    } else {
      MaskedIsWhole(chunks[1..], NextNumber(chunks[0], n));
      if chunks[0].Code? {
        PlaceholderIsWhole(n);
      } else {
        NulFreeIsWhole(chunks[0].text);
      }
      WholeConcat(ChunkText(chunks[0], n, true), ChunksText(chunks[1..], NextNumber(chunks[0], n), true));
    }
  }

  ghost predicate AreWholeValues(attrs: seq<(string, string)>) {
    forall k :: 0 <= k < |attrs| ==> IsWhole(attrs[k].1)
  }

  lemma {:induction false} MaskedValues(attrs: seq<(string, seq<Chunk>)>, n: nat)
    requires AreValues(attrs)
    ensures |AttrsAs(attrs, n, true)| == |attrs|
    ensures ArePrintable(AttrsAs(attrs, n, true)) && AreWholeValues(AttrsAs(attrs, n, true))
    ensures (forall k :: 0 <= k < |attrs| ==> PlainAvoids(attrs[k].1, '<')) ==>
      NoValueHolds(AttrsAs(attrs, n, true), '<')
    decreases |attrs|
  {
    if attrs == [] {
    } else {
      var (name, value) := attrs[0];
      MaskedAvoids(value, n, '"');
      MaskedIsWhole(value, n);
      MaskedValues(attrs[1..], Past(value, n));
      if PlainAvoids(value, '<') {
        MaskedAvoids(value, n, '<');
      }
    }
  }

  lemma {:induction false} ValuesAreLight(attrs: seq<(string, string)>, spans: seq<string>) returns (most: nat)
    requires AreWholeValues(attrs)
    ensures AreLight(AttrMap(attrs), spans, most)
  {
    if attrs == [] {
      most := 0;
    } else {
      var more := ValuesAreLight(attrs[1..], spans);
      var one := Weight(attrs[0].1, spans);
      OneMoreIsLight(attrs[0].0, attrs[0].1, AttrMap(attrs[1..]), spans, one, more);
      most := one + more;
    }
  }

  /** What replaces a tag with whole values is whole. */
  lemma ReplacementIsWhole(p: Piece, n: nat)
    requires p.Printed? && IsPiece(p) && TagReplacement(p, n).Some?
    ensures IsWhole(TagReplacement(p, n).value)
  {
    MaskedValues(p.attrs, n);
    var most := ValuesAreLight(AttrsAs(p.attrs, n, true), []);
    ReplacementIsLight(Tag(p.name, p.closing, p.selfClosing, AttrMap(AttrsAs(p.attrs, n, true)), 0), [], most);
  }

  // ---- rewriting -------------------------------------------------------------------

  lemma QuietStays(text: string, k: nat, rest: string)
    requires k < |text| && text[k] == '<' && OpensNoTag(text, k)
    ensures Replacements(text[k..] + rest)[0] == Stays
  {
    var t := text[k..] + rest;
    assert t[1] == text[k + 1] && (text[k + 1] == '/' ==> t[2] == text[k + 2]);
    assert Head(t, 0) == None;
  }

  lemma QuietAfter(text: string, k: nat)
    requires IsQuiet(text) && k <= |text|
    ensures IsQuiet(text[k..])
  {
    var after := text[k..];
    forall j | 0 <= j < |after| && after[j] == '<' ensures OpensNoTag(after, j) {
      assert OpensNoTag(text, k + j);
    }
  }

  lemma FirstBracket(text: string)
    ensures '<' in text ==> exists k: nat :: k < |text| && text[k] == '<' && '<' !in text[..k]
  {
    IndexOfIsFirst(text, '<');
  }

  /** Text whose every `<` opens no tag is copied, whatever follows. */
  lemma {:induction false} QuietTextStays(text: string, rest: string)
    requires IsQuiet(text)
    ensures RewrittenText(text + rest) == text + RewrittenText(rest)
    decreases |text|
  {
    if k: nat :| k < |text| && text[k] == '<' && '<' !in text[..k] {
      var before, after := text[..k], text[k + 1..];
      assert text[k..] == "<" + after && text == before + ("<" + after);
      Reassociate(before, "<" + after, rest);
      PlainTextStays(before, "<" + after + rest);
      QuietStays(text, k, rest);
      Reassociate("<", after, rest);
      FirstStays(after + rest);
      QuietAfter(text, k + 1);
      QuietTextStays(after, rest);
      Reassociate("<", after, RewrittenText(rest));
      Reassociate(before, "<" + after, RewrittenText(rest));
    } else {
      FirstBracket(text);
      PlainTextStays(text, rest);
    }
  }

  /** A tag that stays is copied, as it holds no other. */
  lemma StayingTagIsCopied(p: Piece, n: nat, after: string)
    requires p.Printed? && IsPiece(p) && TagReplacement(p, n).None?
    ensures RewrittenText(PieceText(p, n, true) + after) == PieceText(p, n, true) + RewrittenText(after)
  {
    var tag, attrs := PieceText(p, n, true), AttrsAs(p.attrs, n, true);
    OnlyUnknownPairsStay(Tag(p.name, p.closing, p.selfClosing, AttrMap(attrs), 0));
    MaskedValues(p.attrs, n);
    OpeningTagIsReplaced(p.name, p.closing, p.selfClosing, attrs, after);
    PrintTagAvoids(p.name, p.closing, p.selfClosing, attrs, '<');
    PrintedTagOpens(p.name, p.closing, p.selfClosing, attrs);
    PlainTextStays(tag[1..], after);
    assert tag == "<" + tag[1..];
    Reassociate("<", tag[1..], RewrittenText(after));
  }

  /** A masked piece as the loop leaves it. */
  function RewrittenPiece(p: Piece, n: nat): string {
    if p.Printed? && TagReplacement(p, n).Some? then TagReplacement(p, n).value else PieceText(p, n, true)
  }

  function RewrittenOf(pieces: seq<Piece>, n: nat): string {
    if pieces == [] then ""
    else RewrittenPiece(pieces[0], n) + RewrittenOf(pieces[1..], Past(Flat(pieces[0]), n))
  }

  lemma PieceIsRewritten(p: Piece, n: nat, after: string)
    requires IsPiece(p)
    ensures RewrittenText(PieceText(p, n, true) + after) == RewrittenPiece(p, n) + RewrittenText(after)
  {
    match p
    case Prose(Plain(text)) => QuietTextStays(text, after);
    case Prose(Code(_, _)) =>
      NoBracketInPlaceholder(n);
      PlainTextStays(Placeholder(n), after);
    case Printed(name, closing, selfClosing, attrs) =>
      MaskedValues(attrs, n);
      if TagReplacement(p, n).Some? {
        OpeningTagIsReplaced(name, closing, selfClosing, AttrsAs(attrs, n, true), after);
      } else {
        StayingTagIsCopied(p, n, after);
      }
  }

  lemma {:induction false} PiecesAreRewritten(pieces: seq<Piece>, n: nat)
    requires ArePieces(pieces)
    ensures RewrittenText(PiecesText(pieces, n, true)) == RewrittenOf(pieces, n)
    decreases |pieces|
  {
    if pieces == [] {
      PlainTextStays("", "");
    } else {
      var next := Past(Flat(pieces[0]), n);
      PieceIsRewritten(pieces[0], n, PiecesText(pieces[1..], next, true));
      PiecesAreRewritten(pieces[1..], next);
    }
  }

  // ---- unmasking -------------------------------------------------------------------

  lemma UnmaskCopiesChar(c: char, rest: string, spans: seq<string>)
    requires c != NUL
    ensures Unmask([c] + rest, spans) == [c] + Unmask(rest, spans)
  {
    assert ([c] + rest)[1..] == rest;
  }

  lemma {:induction false} UnmaskCopiesText(text: string, rest: string, spans: seq<string>)
    requires NUL !in text
    ensures Unmask(text + rest, spans) == text + Unmask(rest, spans)
    decreases |text|
  {
    if text == "" {
      assert text + rest == rest;
    } else {
      assert text == [text[0]] + text[1..] && text[0] in text;
      Reassociate([text[0]], text[1..], rest);
      UnmaskCopiesChar(text[0], text[1..] + rest, spans);
      UnmaskCopiesText(text[1..], rest, spans);
      Reassociate([text[0]], text[1..], Unmask(rest, spans));
    }
  }

  /** The codes of the chunks are the spans from `n` on. */
  ghost predicate SpansStand(chunks: seq<Chunk>, n: nat, spans: seq<string>) {
    n + |SpansOf(chunks)| <= |spans| && spans[n..n + |SpansOf(chunks)|] == SpansOf(chunks)
  }

  lemma {:induction false} SpansConcat(a: seq<Chunk>, b: seq<Chunk>, n: nat)
    ensures SpansOf(a + b) == SpansOf(a) + SpansOf(b) && Past(a, n) == n + |SpansOf(a)|
    decreases |a|
  {
    if a == [] {
      assert a + b == b;
    } else {
      assert (a + b)[0] == a[0] && (a + b)[1..] == a[1..] + b;
      SpansConcat(a[1..], b, NextNumber(a[0], n));
    }
  }

  lemma SliceParts<T>(s: seq<T>, n: nat, a: seq<T>, b: seq<T>)
    requires n + |a| + |b| <= |s| && s[n..n + |a| + |b|] == a + b
    ensures s[n..n + |a|] == a && s[n + |a|..n + |a| + |b|] == b
  {
    assert s[n..n + |a|] == s[n..n + |a| + |b|][..|a|];
    assert s[n + |a|..n + |a| + |b|] == s[n..n + |a| + |b|][|a|..];
  }

  lemma SpansSplit(a: seq<Chunk>, b: seq<Chunk>, n: nat, spans: seq<string>)
    requires SpansStand(a + b, n, spans)
    ensures SpansStand(a, n, spans) && SpansStand(b, Past(a, n), spans)
  {
    SpansConcat(a, b, n);
    SliceParts(spans, n, SpansOf(a), SpansOf(b));
  }

  lemma ChunkIsUnmasked(c: Chunk, n: nat, spans: seq<string>, rest: string)
    requires IsChunk(c) && SpansStand([c], n, spans)
    ensures Unmask(ChunkText(c, n, true) + rest, spans) == ChunkText(c, n, false) + Unmask(rest, spans)
  {
    match c
    case Plain(text) => UnmaskCopiesText(text, rest, spans);
    case Code(ticks, body) =>
      assert [c][1..] == [] && SpansOf([c]) == [CodeText(ticks, body)];
      assert spans[n] == spans[n..n + 1][0];
      UnmaskTakesPlaceholder(n, rest, spans);
  }

  lemma {:induction false} ChunksAreUnmasked(chunks: seq<Chunk>, n: nat, spans: seq<string>, rest: string)
    requires AreChunks(chunks) && SpansStand(chunks, n, spans)
    ensures Unmask(ChunksText(chunks, n, true) + rest, spans) == ChunksText(chunks, n, false) + Unmask(rest, spans)
    decreases |chunks|
  {
    if chunks == [] {
      assert "" + rest == rest;
    } else {
      var c, next := chunks[0], NextNumber(chunks[0], n);
      assert chunks == [c] + chunks[1..] && Past([c], n) == next;
      SpansSplit([c], chunks[1..], n, spans);
      var masked := ChunksText(chunks[1..], next, true);
      Reassociate(ChunkText(c, n, true), masked, rest);
      ChunkIsUnmasked(c, n, spans, masked + rest);
      ChunksAreUnmasked(chunks[1..], next, spans, rest);
      Reassociate(ChunkText(c, n, false), ChunksText(chunks[1..], next, false), Unmask(rest, spans));
    }
  }

  lemma PieceIsUnmasked(p: Piece, n: nat, spans: seq<string>, rest: string)
    requires IsPiece(p) && SpansStand(Flat(p), n, spans)
    ensures Unmask(RewrittenPiece(p, n) + rest, spans) == Cleaned(p, n, spans) + Unmask(rest, spans)
  {
    if p.Printed? && TagReplacement(p, n).Some? {
      ReplacementIsWhole(p, n);
      UnmaskConcat(TagReplacement(p, n).value, rest, spans);
    } else {
      FlatText(p, n, true);
      FlatText(p, n, false);
      FlatIsChunks(p);
      ChunksAreUnmasked(Flat(p), n, spans, rest);
    }
  }

  lemma {:induction false} PiecesAreUnmasked(pieces: seq<Piece>, n: nat, spans: seq<string>)
    requires ArePieces(pieces) && SpansStand(FlatAll(pieces), n, spans)
    ensures Unmask(RewrittenOf(pieces, n), spans) == CleanedFrom(pieces, n, spans)
    decreases |pieces|
  {
    if pieces == [] {
    } else {
      var next := Past(Flat(pieces[0]), n);
      SpansSplit(Flat(pieces[0]), FlatAll(pieces[1..]), n, spans);
      PieceIsUnmasked(pieces[0], n, spans, RewrittenOf(pieces[1..], next));
      PiecesAreUnmasked(pieces[1..], next, spans);
    }
  }

  // ---- cleaning --------------------------------------------------------------------

  /**
   Prose put together from pieces, with no import or comment, is cleaned piece by piece: each tag
   gives way to its own replacement, plain text and inline code come through as they are.
   */
  lemma PiecesAreCleaned(pieces: seq<Piece>)
    requires ArePieces(pieces) && !HasImport(SourceOf(pieces)) && !HasComment(SourceOf(pieces))
    ensures CleanedProse(SourceOf(pieces)) == CleanedOf(pieces)
  {
    var text, spans := SourceOf(pieces), SpansOf(FlatAll(pieces));
    NoImportsToRemove(text, 0);
    NoCommentsToRemove(text, 0);
    assert text[0..] == text;
    PiecesAreMasked(pieces);
    PiecesAreRewritten(pieces, 0);
    assert spans[0..0 + |spans|] == spans;
    PiecesAreUnmasked(pieces, 0, spans);
  }

  // ---- what a tag's code becomes ---------------------------------------------------

  ghost predicate ArePlain(chunks: seq<Chunk>) {
    forall k :: 0 <= k < |chunks| ==> chunks[k].Plain?
  }

  lemma {:induction false} PlainIsUnmasked(chunks: seq<Chunk>, n: nat)
    requires AreChunks(chunks) && ArePlain(chunks)
    ensures ChunksText(chunks, n, true) == ChunksText(chunks, 0, false) && NUL !in ChunksText(chunks, n, true)
    ensures Past(chunks, n) == n
    decreases |chunks|
  {
    if chunks == [] {
    } else {
      PlainIsUnmasked(chunks[1..], n);
      PlainIsUnmasked(chunks[1..], 0);
      NotInEither(NUL, chunks[0].text, ChunksText(chunks[1..], n, true));
    }
  }

  lemma {:induction false} PlainValues(attrs: seq<(string, seq<Chunk>)>, n: nat)
    requires AreValues(attrs) && forall k :: 0 <= k < |attrs| ==> ArePlain(attrs[k].1)
    ensures AttrsAs(attrs, n, true) == AttrsAs(attrs, 0, false) && NoValueHolds(AttrsAs(attrs, n, true), NUL)
    decreases |attrs|
  {
    if attrs == [] {
    } else {
      PlainIsUnmasked(attrs[0].1, n);
      PlainIsUnmasked(attrs[0].1, 0);
      PlainValues(attrs[1..], n);
    }
  }

  /** A tag without code gives way to its replacement as it is. */
  lemma CodeFreeTagIsReplaced(p: Piece, n: nat, spans: seq<string>)
    requires p.Printed? && IsPiece(p) && forall k :: 0 <= k < |p.attrs| ==> ArePlain(p.attrs[k].1)
    requires PrintedReplacement(p.name, p.closing, p.selfClosing, AttrsAs(p.attrs, 0, false)).Some?
    ensures Cleaned(p, n, spans) ==
            PrintedReplacement(p.name, p.closing, p.selfClosing, AttrsAs(p.attrs, 0, false)).value
  {
    PlainValues(p.attrs, n);
    AttrMapAvoidsNul(AttrsAs(p.attrs, n, true));
    ReplacementAvoidsNul(Tag(p.name, p.closing, p.selfClosing, AttrMap(AttrsAs(p.attrs, n, true)), 0));
    var text := TagReplacement(p, n).value;
    UnmaskCopiesText(text, "", spans);
    assert text + "" == text;
  }

  lemma TitleReplacement(title: seq<Chunk>, selfClosing: bool, n: nat)
    requires ChunksText(title, n, true) != ""
    ensures TagReplacement(Printed("LinkCard", false, selfClosing, [("title", title)]), n) ==
            Some("**" + ChunksText(title, n, true) + "**")
  {
    var attrs := [("title", title)];
    var masked := ChunksText(title, n, true);
    assert attrs[1..] == [] && AttrsAs(attrs, n, true) == [("title", masked)];
    assert AttrMap([("title", masked)]) == map["title" := masked];
  }

  lemma BoldIsUnmasked(chunks: seq<Chunk>, n: nat, spans: seq<string>)
    requires AreChunks(chunks) && SpansStand(chunks, n, spans)
    ensures Unmask("**" + ChunksText(chunks, n, true) + "**", spans) == "**" + ChunksText(chunks, n, false) + "**"
  {
    Reassociate("**", ChunksText(chunks, n, true), "**");
    UnmaskCopiesText("**", ChunksText(chunks, n, true) + "**", spans);
    ChunksAreUnmasked(chunks, n, spans, "**");
    UnmaskCopiesText("**", "", spans);
    Reassociate("**", ChunksText(chunks, n, false), "**");
  }

  /** The code of a title comes back as it was. */
  lemma CodeInTitleComesBack(title: seq<Chunk>, selfClosing: bool, n: nat, spans: seq<string>)
    requires AreChunks(title) && SpansStand(title, n, spans) && ChunksText(title, n, true) != ""
    ensures Cleaned(Printed("LinkCard", false, selfClosing, [("title", title)]), n, spans) ==
            "**" + ChunksText(title, n, false) + "**"
  {
    TitleReplacement(title, selfClosing, n);
    BoldIsUnmasked(title, n, spans);
  }
}
