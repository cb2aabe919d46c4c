/**
 The lexer of the kafka-shell language, src/kafka-client/commands.ts lines 124-177.

 The loops of `scanQuoted` and `tokenize` are methods; `Unquoted` and `Tokens` are the
 functions of the remaining text they are proved against.
 */
module KafkaLexer {
  import opened Wrappers
  import opened Text

  /** A scanned quoted run: its text, and what follows the closing quote. */
  datatype Scan = Scan(text: string, rest: string)

  function ConsText(c: char, r: Option<Scan>): Option<Scan> {
    match r
    case Some(scan) => Some(Scan([c] + scan.text, scan.rest))
    case None => None
  }

  /** The text up to the closing quote; a backslash escapes the next character. */
  function Unquoted(s: string, quote: char): (r: Option<Scan>)
    ensures r.Some? ==> |r.value.rest| < |s|
    decreases |s|
  {
    if s == "" then None
    else if s[0] == '\\' && 1 < |s| then ConsText(s[1], Unquoted(s[2..], quote))
    else if s[0] == quote then Some(Scan("", s[1..]))
    else ConsText(s[0], Unquoted(s[1..], quote))
  }

  /** The outcome of lexing: the tokens, or the quote that is never closed. */
  type Lexed = Result<seq<string>, char>

  function Prepended(tokens: seq<string>, r: Lexed): Lexed {
    match r
    case Ok(more) => Ok(tokens + more)
    case Err(q) => Err(q)
  }

  lemma PrependNothing(r: Lexed)
    ensures Prepended([], r) == r
  {
    if r.Ok? {
      assert [] + r.value == r.value;
    }
  }

  lemma PrependTwice(a: seq<string>, b: seq<string>, r: Lexed)
    ensures Prepended(a, Prepended(b, r)) == Prepended(a + b, r)
  {
    if r.Ok? {
      assert a + (b + r.value) == a + b + r.value;
    }
  }

  /** The tokens of the rest of a line, `cur` being the token under way if `started`. */
  function Tokens(s: string, cur: string, started: bool): Lexed
    decreases |s|
  {
    if s == "" then Ok(if started then [cur] else [])
    else if IsQuote(s[0]) then
      match Unquoted(s[1..], s[0])
      case Some(scan) => Tokens(scan.rest, cur + scan.text, true)
      case None => Err(s[0])
    else if IsSpace(s[0]) then
      Prepended(if started then [cur] else [], Tokens(s[1..], if started then "" else cur, false))
    else Tokens(s[1..], cur + [s[0]], true)
  }

  // ---- the loops -------------------------------------------------------------------

  /** A scan that had already read `cur`. */
  function After(cur: string, r: Option<Scan>): Option<Scan> {
    match r
    case Some(scan) => Some(Scan(cur + scan.text, scan.rest))
    case None => None
  }

  lemma AfterNothing(r: Option<Scan>)
    ensures After("", r) == r
  {
    if r.Some? {
      assert "" + r.value.text == r.value.text;
    }
  }

  lemma AfterCons(cur: string, c: char, r: Option<Scan>)
    ensures After(cur, ConsText(c, r)) == After(cur + [c], r)
  {
    if r.Some? {
      assert cur + ([c] + r.value.text) == cur + [c] + r.value.text;
    }
  }

  /** Consumes a quoted run from its opening quote; always advances past it. */
  method ScanQuoted(input: string, openAt: nat) returns (r: Result<(string, nat), char>)
    requires openAt < |input|
    ensures match Unquoted(input[openAt + 1..], input[openAt])
      case Some(scan) =>
        r.Ok? && r.value.0 == scan.text && openAt < r.value.1 <= |input| && input[r.value.1..] == scan.rest
      case None => r == Err(input[openAt])
  {
    var quote := input[openAt];
    var cur := "";
    var i := openAt + 1;
    ghost var whole := Unquoted(input[i..], quote);
    AfterNothing(whole);
    while i < |input|
      invariant openAt < i <= |input|
      invariant whole == After(cur, Unquoted(input[i..], quote))
    {
      var ch := input[i];
      ghost var rest := input[i..];
      assert rest[0] == ch && rest[1..] == input[i + 1..];
      if ch == '\\' && i + 1 < |input| {
        assert rest[1] == input[i + 1] && rest[2..] == input[i + 2..];
        AfterCons(cur, input[i + 1], Unquoted(input[i + 2..], quote));
        cur := cur + [input[i + 1]];
        i := i + 2;
        continue;
      }
      if ch == quote {
        assert whole == Some(Scan(cur + "", input[i + 1..])) && cur + "" == cur;
        return Ok((cur, i + 1));
      }
      AfterCons(cur, ch, Unquoted(input[i + 1..], quote));
      cur := cur + [ch];
      i := i + 1;
    }
    r := Err(quote);
  }

  /** The loop of `tokenize`, which collects what `Tokens` says. */
  method Tokenize(input: string) returns (r: Lexed)
    ensures r == Tokens(input, "", false)
  {
    var tokens: seq<string> := [];
    var cur := "";
    var started := false;
    var i := 0;
    assert input[0..] == input;
    PrependNothing(Tokens(input, "", false));
    while i < |input|
      invariant 0 <= i <= |input|
      invariant !started ==> cur == ""
      invariant Tokens(input, "", false) == Prepended(tokens, Tokens(input[i..], cur, started))
    {
      var ch := input[i];
      assert input[i..][1..] == input[i + 1..];
      if IsQuote(ch) {
        var q := ScanQuoted(input, i);
        if q.Err? {
          return Err(q.error);
        }
        cur := cur + q.value.0;
        started := true;
        i := q.value.1;
        continue;
      }
      if IsSpace(ch) {
        PrependTwice(tokens, if started then [cur] else [], Tokens(input[i + 1..], "", false));
        if started {
          tokens := tokens + [cur];
          cur := "";
          started := false;
        }
        assert tokens + [] == tokens;
        i := i + 1;
        continue;
      }
      cur := cur + [ch];
      started := true;
      i := i + 1;
    }
    assert input[i..] == "" && tokens + [] == tokens;
    if started {
      tokens := tokens + [cur];
    }
    r := Ok(tokens);
  }

  // ---- quoting, and its inverse ----------------------------------------------------

  function EscapedChar(c: char): string {
    if c == '"' || c == '\\' then ['\\', c] else [c]
  }

  function Escaped(s: string): string {
    if s == "" then "" else EscapedChar(s[0]) + Escaped(s[1..])
  }

  function Quoted(s: string): string {
    "\"" + Escaped(s) + "\""
  }

  /** Quoted words separated by single spaces. */
  function Line(words: seq<string>): string {
    if words == [] then ""
    else if |words| == 1 then Quoted(words[0])
    else Quoted(words[0]) + " " + Line(words[1..])
  }

  lemma {:induction false} UnquotedInvertsEscaped(s: string, rest: string)
    ensures Unquoted(Escaped(s) + "\"" + rest, '"') == Some(Scan(s, rest))
  {
    if s == "" {
      assert (Escaped(s) + "\"" + rest)[1..] == rest;
    } else {
      var c, tail := s[0], Escaped(s[1..]) + "\"" + rest;
      UnquotedInvertsEscaped(s[1..], rest);
      assert Escaped(s) + "\"" + rest == EscapedChar(c) + tail;
      assert [c] + s[1..] == s;
    }
  }

  lemma QuotedWordIsOneToken(word: string, rest: string, cur: string, started: bool)
    ensures Tokens(Quoted(word) + rest, cur, started) == Tokens(rest, cur + word, true)
  {
    UnquotedInvertsEscaped(word, rest);
    assert (Quoted(word) + rest)[1..] == Escaped(word) + "\"" + rest;
  }

  /** A quoted word and the space after it come out as a token. */
  lemma QuotedWordThenSpace(word: string, rest: string)
    ensures Tokens(Quoted(word) + (" " + rest), "", false) == Prepended([word], Tokens(rest, "", false))
  {
    QuotedWordIsOneToken(word, " " + rest, "", false);
    assert "" + word == word && (" " + rest)[1..] == rest;
  }

  lemma LastQuotedWord(word: string)
    ensures Tokens(Quoted(word), "", false) == Ok([word])
  {
    QuotedWordIsOneToken(word, "", "", false);
    assert Quoted(word) + "" == Quoted(word) && "" + word == word;
  }

  /** Any list of strings, quoted and joined with spaces, lexes back to itself. */
  lemma {:induction false} TokensInvertLine(words: seq<string>)
    ensures Tokens(Line(words), "", false) == Ok(words)
  {
    if |words| == 1 {
      LastQuotedWord(words[0]);
      assert [words[0]] == words;
    } else if |words| > 1 {
      var rest := Line(words[1..]);
      QuotedWordThenSpace(words[0], rest);
      TokensInvertLine(words[1..]);
      assert Quoted(words[0]) + " " + rest == Quoted(words[0]) + (" " + rest);
      assert [words[0]] + words[1..] == words;
    }
  }

  // ---- when lexing fails -----------------------------------------------------------

  /** Where a character-by-character reader stands: outside quotes, inside, or just past a backslash inside. */
  datatype QuoteState = Outside | Inside(quote: char) | Escaping(quote: char)

  function Next(st: QuoteState, c: char): QuoteState {
    match st
    case Outside => if IsQuote(c) then Inside(c) else Outside
    case Inside(q) => if c == '\\' then Escaping(q) else if c == q then Outside else st
    case Escaping(q) => Inside(q)
  }

  function StateAfter(st: QuoteState, s: string): QuoteState
    decreases |s|
  {
    if s == "" then st else StateAfter(Next(st, s[0]), s[1..])
  }

  lemma {:induction false} UnquotedFollowsState(s: string, q: char)
    requires IsQuote(q)
    ensures match Unquoted(s, q)
      case Some(scan) => StateAfter(Inside(q), s) == StateAfter(Outside, scan.rest)
      case None => StateAfter(Inside(q), s) in {Inside(q), Escaping(q)}
    decreases |s|
  {
    if s == "" {
    } else if s[0] == '\\' && 1 < |s| {
      UnquotedFollowsState(s[2..], q);
      assert s[1..][1..] == s[2..];
      assert StateAfter(Inside(q), s) == StateAfter(Escaping(q), s[1..]) == StateAfter(Inside(q), s[2..]);
    } else if s[0] == '\\' {
      assert StateAfter(Inside(q), s) == StateAfter(Escaping(q), s[1..]) == Escaping(q);
      assert s[1..] == "";
    } else if s[0] != q {
      UnquotedFollowsState(s[1..], q);
    }
  }

  /** Lexing fails exactly when the line ends inside a quote, and names that quote. */
  lemma {:induction false} LexingFailsExactlyInsideQuote(s: string, cur: string, started: bool)
    ensures Tokens(s, cur, started).Err? <==> StateAfter(Outside, s) != Outside
    ensures Tokens(s, cur, started).Err? ==> Tokens(s, cur, started).error == StateAfter(Outside, s).quote
    decreases |s|
  {
    if s == "" {
    } else if IsQuote(s[0]) {
      UnquotedFollowsState(s[1..], s[0]);
      match Unquoted(s[1..], s[0])
      case Some(scan) => LexingFailsExactlyInsideQuote(scan.rest, cur + scan.text, true);
      case None =>
    } else if IsSpace(s[0]) {
      LexingFailsExactlyInsideQuote(s[1..], if started then "" else cur, false);
    } else {
      LexingFailsExactlyInsideQuote(s[1..], cur + [s[0]], true);
    }
  }

  /** A line that starts with a visible character has a first token, or fails. */
  lemma {:induction false} StartedLineHasToken(s: string, cur: string, started: bool)
    requires started || (s != "" && !IsSpace(s[0]))
    ensures Tokens(s, cur, started).Ok? ==> |Tokens(s, cur, started).value| > 0
    decreases |s|
  {
    if s == "" {
    } else {
      if IsQuote(s[0]) {
        match Unquoted(s[1..], s[0])
        case Some(scan) => StartedLineHasToken(scan.rest, cur + scan.text, true);
        case None =>
      } else if !IsSpace(s[0]) {
        StartedLineHasToken(s[1..], cur + [s[0]], true);
      }
    }
  }

  // ---- quote-free lines ------------------------------------------------------------

  predicate QuoteFree(s: string) {
    forall i :: 0 <= i < |s| ==> !IsQuote(s[i])
  }

  /** Which positions of `s` hold a visible character. */
  function Visible(s: string): (v: seq<bool>)
    ensures |v| == |s|
  {
    seq(|s|, i requires 0 <= i < |s| => !IsSpace(s[i]))
  }

  /** Positions `lo..hi` are a maximal run of visible ones. */
  ghost predicate MaximalRun(v: seq<bool>, lo: int, hi: int) {
    && 0 <= lo < hi <= |v|
    && (forall i :: lo <= i < hi ==> v[i])
    && (lo > 0 ==> !v[lo - 1])
    && (hi < |v| ==> !v[hi])
  }

  ghost predicate Covered(i: int, runs: seq<(int, int)>) {
    exists k :: 0 <= k < |runs| && runs[k].0 <= i < runs[k].1
  }

  /** `runs` are all the maximal visible runs from position `from` on, in order. */
  ghost predicate AllRuns(v: seq<bool>, from: nat, runs: seq<(int, int)>) {
    && (forall k :: 0 <= k < |runs| ==> MaximalRun(v, runs[k].0, runs[k].1) && from <= runs[k].0)
    && (forall k, m :: 0 <= k < m < |runs| ==> runs[k].1 < runs[m].0)
    && (forall i :: from <= i < |v| && v[i] ==> Covered(i, runs))
  }

  function Slices(s: string, runs: seq<(int, int)>): (r: seq<string>)
    requires forall k :: 0 <= k < |runs| ==> 0 <= runs[k].0 <= runs[k].1 <= |s|
    ensures |r| == |runs|
  {
    seq(|runs|, k requires 0 <= k < |runs| => s[runs[k].0..runs[k].1])
  }

  lemma ClosedRun(v: seq<bool>, lo: nat, i: nat, rest: seq<(int, int)>)
    requires MaximalRun(v, lo, i) && i < |v|
    requires AllRuns(v, i + 1, rest)
    ensures AllRuns(v, lo, [(lo, i)] + rest)
  {
    var runs := [(lo as int, i as int)] + rest;
    forall j | lo <= j < |v| && v[j] ensures Covered(j, runs) {
      if j < i {
        assert runs[0].0 <= j < runs[0].1;
      } else {
        assert j != i && Covered(j, rest);
        var k :| 0 <= k < |rest| && rest[k].0 <= j < rest[k].1;
        assert runs[k + 1] == rest[k];
      }
    }
  }

  lemma LastRun(v: seq<bool>, lo: nat)
    requires lo <= |v|
    requires forall j :: lo <= j < |v| ==> v[j]
    requires lo > 0 ==> !v[lo - 1]
    ensures AllRuns(v, lo, if lo < |v| then [(lo, |v|)] else [])
  {
    var runs := if lo < |v| then [(lo as int, |v|)] else [];
    forall j | lo <= j < |v| ensures Covered(j, runs) {
      assert runs[0].0 <= j < runs[0].1;
    }
  }

  /** One step of `Tokens` on a character that is not a quote. */
  lemma TokensStep(s: string, i: nat, lo: nat)
    requires QuoteFree(s) && lo <= i < |s|
    ensures Tokens(s[i..], s[lo..i], lo < i) ==
            if IsSpace(s[i])
            then Prepended(if lo < i then [s[lo..i]] else [], Tokens(s[i + 1..], s[i + 1..i + 1], false))
            else Tokens(s[i + 1..], s[lo..i + 1], true)
  {
    var rest := s[i..];
    assert rest[0] == s[i];
    assert !IsQuote(s[i]);
    assert rest[1..] == s[i + 1..];
    assert s[i + 1..i + 1] == "" && (lo == i ==> s[lo..i] == "");
    assert s[lo..i] + [s[i]] == s[lo..i + 1];
  }

  /** At a blank, the run under way becomes a token. */
  lemma TokensAtBlank(s: string, i: nat, lo: nat, rest: seq<(int, int)>)
    requires QuoteFree(s) && lo <= i < |s| && IsSpace(s[i])
    requires AllRuns(Visible(s), i + 1, rest)
    requires Tokens(s[i + 1..], s[i + 1..i + 1], false) == Ok(Slices(s, rest))
    ensures Tokens(s[i..], s[lo..i], lo < i) ==
            Ok((if lo < i then [s[lo..i]] else []) + Slices(s, rest))
  {
    TokensStep(s, i, lo);
  }

  /** The runs from position `lo` on are the tokens, the text up to `i` being one run so far. */
  ghost predicate RunsAreTokens(s: string, i: nat, lo: nat, runs: seq<(int, int)>)
    requires lo <= i <= |s|
  {
    && AllRuns(Visible(s), lo, runs)
    && Tokens(s[i..], s[lo..i], lo < i) == Ok(Slices(s, runs))
  }

  lemma RunsAtEnd(s: string, lo: nat) returns (runs: seq<(int, int)>)
    requires lo <= |s|
    requires forall j :: lo <= j < |s| ==> Visible(s)[j]
    requires lo > 0 ==> !Visible(s)[lo - 1]
    ensures RunsAreTokens(s, |s|, lo, runs)
  {
    LastRun(Visible(s), lo);
    runs := if lo < |s| then [(lo as int, |s|)] else [];
    assert s[lo..|s|] == s[lo..] && s[|s|..] == "";
    assert Slices(s, runs) == if lo < |s| then [s[lo..]] else [];
  }

  lemma SlicesCons(s: string, lo: nat, i: nat, rest: seq<(int, int)>)
    requires lo <= i <= |s| && forall k :: 0 <= k < |rest| ==> 0 <= rest[k].0 <= rest[k].1 <= |s|
    ensures Slices(s, [(lo as int, i as int)] + rest) == [s[lo..i]] + Slices(s, rest)
  {
    assert ([(lo as int, i as int)] + rest)[1..] == rest;
  }

  lemma RunsAtBlank(s: string, i: nat, lo: nat, rest: seq<(int, int)>) returns (runs: seq<(int, int)>)
    requires QuoteFree(s) && lo <= i < |s| && !Visible(s)[i]
    requires lo < i ==> MaximalRun(Visible(s), lo, i)
    requires RunsAreTokens(s, i + 1, i + 1, rest)
    ensures RunsAreTokens(s, i, lo, runs)
  {
    TokensAtBlank(s, i, lo, rest);
    runs := rest;
    if lo < i {
      ClosedRun(Visible(s), lo, i, rest);
      runs := [(lo as int, i as int)] + rest;
      SlicesCons(s, lo, i, rest);
    } else {
      assert [] + Slices(s, rest) == Slices(s, rest);
    }
  }

  lemma RunsAtVisible(s: string, i: nat, lo: nat, runs: seq<(int, int)>)
    requires QuoteFree(s) && lo <= i < |s| && Visible(s)[i]
    requires RunsAreTokens(s, i + 1, lo, runs)
    ensures RunsAreTokens(s, i, lo, runs)
  {
    TokensStep(s, i, lo);
  }

  lemma {:induction false} RunsFrom(s: string, i: nat, lo: nat) returns (runs: seq<(int, int)>)
    requires QuoteFree(s) && lo <= i <= |s|
    requires forall j :: lo <= j < i ==> Visible(s)[j]
    requires lo > 0 ==> !Visible(s)[lo - 1]
    ensures RunsAreTokens(s, i, lo, runs)
    decreases |s| - i
  {
    if i == |s| {
      runs := RunsAtEnd(s, lo);
    } else if Visible(s)[i] {
      runs := RunsFrom(s, i + 1, lo);
      RunsAtVisible(s, i, lo, runs);
    } else {
      runs := RunsFrom(s, i + 1, i + 1);
      runs := RunsAtBlank(s, i, lo, runs);
    }
  }

  /** Without quotes, the tokens are exactly the maximal runs of visible characters. */
  lemma QuoteFreeTokensAreRuns(s: string)
    requires QuoteFree(s)
    ensures exists runs :: AllRuns(Visible(s), 0, runs) && Tokens(s, "", false) == Ok(Slices(s, runs))
  {
    var runs := RunsFrom(s, 0, 0);
    assert s[0..] == s && s[0..0] == "";
  }
}
