/**
 Masking of inline code in the MDX cleaner, scripts/kb-mdx.ts lines 60-73.

 Each inline span is replaced by its number between two NUL characters, and put back later.
 Unmasking inverts masking exactly on the texts in which no NUL of their own, outside code,
 can be read as the start of such a placeholder.

 A span is what the pattern of line 60 matches: `SpanIsPatternMatch` says which of the matches that
 are possible at a position it is, by the order in which the pattern tries them.
 */
module MdxInlineCode {
  import opened Wrappers
  import opened Text

  const NUL := '\0'

  // ---- the span pattern ------------------------------------------------------------

  /** How many backticks stand at position `i`. */
  function Ticks(t: string, i: nat): (n: nat)
    requires i <= |t|
    ensures i + n <= |t|
    ensures n > 0 <==> i < |t| && t[i] == '`'
    decreases |t| - i
  {
    if i < |t| && t[i] == '`' then 1 + Ticks(t, i + 1) else 0
  }

  /** The first position from `i` on, free of backticks and line breaks till then, with `k` backticks. */
  function CloseAt(t: string, i: nat, k: nat): (r: Option<nat>)
    requires i <= |t|
    ensures r.Some? ==> i <= r.value <= r.value + k <= |t|
    decreases |t| - i
  {
    if Ticks(t, i) >= k then Some(i)
    else if i == |t| || t[i] == '`' || t[i] == '\n' then None
    else CloseAt(t, i + 1, k)
  }

  lemma {:induction false} TicksAre(t: string, i: nat, k: nat)
    requires i + k < |t| && t[i + k] != '`' && forall j :: i <= j < i + k ==> t[j] == '`'
    ensures Ticks(t, i) == k
    decreases k
  {
    if k == 0 {
    } else {
      TicksAre(t, i + 1, k - 1);
    }
  }

  lemma {:induction false} CloseAtIs(t: string, i: nat, close: nat, k: nat)
    requires i <= close <= |t| && k > 0 && Ticks(t, close) >= k
    requires forall j :: i <= j < close ==> t[j] != '`' && t[j] != '\n'
    ensures CloseAt(t, i, k) == Some(close)
    decreases close - i
  {
    if i == close {
    } else {
      CloseAtIs(t, i + 1, close, k);
    }
  }

  /** The end of a span opened by `k` backticks, or else by fewer, as the pattern backtracks. */
  function SpanOf(t: string, i: nat, k: nat): (r: Option<nat>)
    requires i + k <= |t|
    ensures r.Some? ==> i + 2 <= r.value <= |t|
  {
    if k == 0 then None
    else match CloseAt(t, i + k, k)
      case Some(close) => Some(close + k)
      case None => SpanOf(t, i, k - 1)
  }

  /** The end of the inline code span that starts at position `i`, if one does. */
  function Span(t: string, i: nat): (r: Option<nat>)
    requires i <= |t|
    ensures r.Some? ==> i + 2 <= r.value <= |t| && t[i] == '`'
  {
    SpanOf(t, i, Ticks(t, i))
  }

  /** `k` backticks, `m` characters that are neither backtick nor line break, `k` backticks. */
  ghost predicate Fits(t: string, i: nat, k: nat, m: nat) {
    && k > 0 && i + k + m + k <= |t|
    && (forall j :: i <= j < i + k ==> t[j] == '`')
    && (forall j :: i + k <= j < i + k + m ==> t[j] != '`' && t[j] != '\n')
    && (forall j :: i + k + m <= j < i + k + m + k ==> t[j] == '`')
  }

  lemma {:induction false} TicksCount(t: string, i: nat, k: nat)
    requires i <= |t|
    ensures Ticks(t, i) >= k <==> i + k <= |t| && forall j :: i <= j < i + k ==> t[j] == '`'
    decreases k
  {
    if k > 0 && i < |t| && t[i] == '`' {
      TicksCount(t, i + 1, k - 1);
    } else {
    }
  }

  lemma {:induction false} CloseAtIsFirst(t: string, i: nat, k: nat)
    requires i <= |t| && k > 0
    ensures match CloseAt(t, i, k)
      case Some(c) => Ticks(t, c) >= k && forall j :: i <= j < c ==> t[j] != '`' && t[j] != '\n'
      case None =>
        forall c :: i <= c <= |t| && Ticks(t, c) >= k ==> exists j :: i <= j < c && (t[j] == '`' || t[j] == '\n')
    decreases |t| - i
  {
    if Ticks(t, i) < k && i < |t| && t[i] != '`' && t[i] != '\n' {
      CloseAtIsFirst(t, i + 1, k);
    } else {
    }
  }

  lemma FitsFromClose(t: string, i: nat, k: nat)
    requires i <= |t| && 0 < k <= Ticks(t, i)
    ensures match CloseAt(t, i + k, k)
      case Some(c) =>
        && Fits(t, i, k, c - i - k)
        && forall m: nat :: Fits(t, i, k, m) ==> c - i - k <= m
      case None => forall m: nat :: !Fits(t, i, k, m)
  {
    TicksCount(t, i, k);
    CloseAtIsFirst(t, i + k, k);
    match CloseAt(t, i + k, k)
    case Some(c) =>
      TicksCount(t, c, k);
      forall m: nat | Fits(t, i, k, m) ensures c - i - k <= m {
        assert t[i + k + m] == '`';
      }
    case None =>
      forall m: nat | Fits(t, i, k, m) ensures false {
        TicksCount(t, i + k + m, k);
      }
  }

  /** No way to fit the pattern with at most `kmax` backticks is preferred to this one. */
  ghost predicate IsPreferred(t: string, i: nat, kmax: nat, k: nat, m: nat) {
    && k <= kmax && Fits(t, i, k, m)
    && forall k': nat, m': nat :: k' <= kmax && Fits(t, i, k', m') ==> k' < k || (k' == k && m <= m')
  }

  /** Among all ways to fit the pattern, the span takes the most backticks, then the least text. */
  ghost predicate IsSpan(t: string, i: nat, kmax: nat, span: Option<nat>) {
    match span
    case Some(end) => exists k: nat, m: nat :: IsPreferred(t, i, kmax, k, m) && end == i + k + m + k
    case None => forall k: nat, m: nat :: k <= kmax ==> !Fits(t, i, k, m)
  }

  lemma FewerTicksPreferred(t: string, i: nat, k: nat, span: Option<nat>)
    requires k > 0 && IsSpan(t, i, k - 1, span) && forall m: nat :: !Fits(t, i, k, m)
    ensures IsSpan(t, i, k, span)
  {
    if span.Some? {
      var k0: nat, m0: nat :| IsPreferred(t, i, k - 1, k0, m0) && span.value == i + k0 + m0 + k0;
      assert IsPreferred(t, i, k, k0, m0);
    }
  }

  lemma {:induction false} SpanOfIsSpan(t: string, i: nat, k: nat)
    requires i <= |t| && k <= Ticks(t, i)
    ensures IsSpan(t, i, k, SpanOf(t, i, k))
    decreases k
  {
    if k == 0 {
    } else {
      FitsFromClose(t, i, k);
      match CloseAt(t, i + k, k)
      case Some(c) => assert IsPreferred(t, i, k, k, c - i - k);
      case None =>
        SpanOfIsSpan(t, i, k - 1);
        FewerTicksPreferred(t, i, k, SpanOf(t, i, k - 1));
    }
  }

  /** The span found is the one the greedy, lazy and backtracking parts of the pattern ask for. */
  lemma SpanIsPatternMatch(t: string, i: nat)
    requires i <= |t|
    ensures IsSpan(t, i, |t|, Span(t, i))
  {
    var most := Ticks(t, i);
    SpanOfIsSpan(t, i, most);
    forall k: nat, m: nat | Fits(t, i, k, m) ensures k <= most {
      TicksCount(t, i, k);
    }
    if Span(t, i).Some? {
      var k: nat, m: nat :| IsPreferred(t, i, most, k, m) && Span(t, i).value == i + k + m + k;
      assert IsPreferred(t, i, |t|, k, m);
    }
  }

  // ---- masking ---------------------------------------------------------------------

  datatype Masked = Masked(text: string, spans: seq<string>)

  function Placeholder(n: nat): string {
    [NUL] + Numeral(n) + [NUL]
  }

  function Joined(a: Masked, b: Masked): Masked {
    Masked(a.text + b.text, a.spans + b.spans)
  }

  /** The text from `i` on with its spans replaced by placeholders numbered from `n`, and the spans. */
  function Mask(t: string, i: nat, n: nat): Masked
    requires i <= |t|
    decreases |t| - i
  {
    if i == |t| then Masked("", [])
    else match Span(t, i)
      case Some(end) => Joined(Masked(Placeholder(n), [t[i..end]]), Mask(t, end, n + 1))
      case None => Joined(Masked([t[i]], []), Mask(t, i + 1, n))
  }

  lemma JoinTwice(a: Masked, b: Masked, c: Masked)
    ensures Joined(a, Joined(b, c)) == Joined(Joined(a, b), c)
  {
    assert a.text + (b.text + c.text) == a.text + b.text + c.text;
    assert a.spans + (b.spans + c.spans) == a.spans + b.spans + c.spans;
  }

  lemma JoinNothing(m: Masked)
    ensures Joined(Masked("", []), m) == m == Joined(m, Masked("", []))
  {
    assert "" + m.text == m.text == m.text + "" && [] + m.spans == m.spans == m.spans + [];
  }

  /** What the pass has written and collected, up to position `i`. */
  ghost predicate IsMaskedUpTo(text: string, i: nat, masked: string, spans: seq<string>) {
    i <= |text| && Mask(text, 0, 0) == Joined(Masked(masked, spans), Mask(text, i, |spans|))
  }

  lemma MaskedStarts(text: string)
    ensures IsMaskedUpTo(text, 0, "", [])
  {
    JoinNothing(Mask(text, 0, 0));
  }

  lemma MaskedEnds(text: string, masked: string, spans: seq<string>)
    requires IsMaskedUpTo(text, |text|, masked, spans)
    ensures Masked(masked, spans) == Mask(text, 0, 0)
  {
    JoinNothing(Masked(masked, spans));
  }

  lemma PassSpan(text: string, i: nat, end: nat, masked: string, spans: seq<string>)
    requires i < |text| && IsMaskedUpTo(text, i, masked, spans) && Span(text, i) == Some(end)
    ensures IsMaskedUpTo(text, end, masked + Placeholder(|spans|), spans + [text[i..end]])
  {
    JoinTwice(Masked(masked, spans), Masked(Placeholder(|spans|), [text[i..end]]), Mask(text, end, |spans| + 1));
  }

  lemma PassChar(text: string, i: nat, masked: string, spans: seq<string>)
    requires i < |text| && IsMaskedUpTo(text, i, masked, spans) && Span(text, i) == None
    ensures IsMaskedUpTo(text, i + 1, masked + [text[i]], spans)
  {
    JoinTwice(Masked(masked, spans), Masked([text[i]], []), Mask(text, i + 1, |spans|));
    assert spans + [] == spans;
  }

  /** The replacing pass: spans are collected and numbered as they are met. */
  method MaskInlineCode(text: string) returns (masked: string, spans: seq<string>)
    ensures Masked(masked, spans) == Mask(text, 0, 0)
  {
    masked, spans := "", [];
    var i := 0;
    MaskedStarts(text);
    while i < |text|
      invariant IsMaskedUpTo(text, i, masked, spans)
      decreases |text| - i
    {
      match Span(text, i)
      case Some(end) =>
        PassSpan(text, i, end, masked, spans);
        var n := |spans|;
        spans := spans + [text[i..end]];
        masked := masked + Placeholder(n);
        i := end;
      case None =>
        PassChar(text, i, masked, spans);
        masked := masked + [text[i]];
        i := i + 1;
    }
    MaskedEnds(text, masked, spans);
  }

  // ---- unmasking -------------------------------------------------------------------

  /** How many digits `s` opens with. */
  function DigitRun(s: string): (n: nat)
    ensures n <= |s|
  {
    if s != "" && IsDigit(s[0]) then 1 + DigitRun(s[1..]) else 0
  }

  lemma {:induction false} DigitRunHoldsDigits(s: string)
    ensures var d := DigitRun(s); AllDigits(s[..d]) && (d < |s| ==> !IsDigit(s[d]))
  {
    if s != "" && IsDigit(s[0]) {
      DigitRunHoldsDigits(s[1..]);
      assert s[..DigitRun(s)] == [s[0]] + s[1..][..DigitRun(s[1..])];
    } else {
    }
  }

  /** The digits between the NULs of the placeholder that `s` opens with, if it does. */
  function OpenedPlaceholder(s: string): (r: Option<string>)
    ensures r.Some? ==> AllDigits(r.value) && 2 + |r.value| <= |s|
  {
    if s != "" && s[0] == NUL then
      var d := DigitRun(s[1..]);
      DigitRunHoldsDigits(s[1..]);
      assert s[1..1 + d] == s[1..][..d];
      if d > 0 && 1 + d < |s| && s[1 + d] == NUL then Some(s[1..1 + d]) else None
    else None
  }

  /** The span a placeholder stands for; a number past the end reads as `undefined`. */
  function Lookup(spans: seq<string>, n: nat): string {
    if n < |spans| then spans[n] else "undefined"
  }

  function Unmask(s: string, spans: seq<string>): string
    decreases |s|
  {
    if s == "" then ""
    else match OpenedPlaceholder(s)
      case Some(digits) => Lookup(spans, NumeralValue(digits)) + Unmask(s[2 + |digits|..], spans)
      case None => [s[0]] + Unmask(s[1..], spans)
  }

  // ---- when unmasking inverts masking ----------------------------------------------

  /** Whether a NUL at position `i` would be read as a placeholder once the text is masked. */
  predicate Forges(t: string, i: nat)
    requires i < |t|
  {
    && t[i] == NUL
    && var d := DigitRun(t[i + 1..]);
       var j := i + 1 + d;
       d > 0 && j < |t| && (t[j] == NUL || Span(t, j).Some?)
  }

  /** Whether some NUL from `i` on, outside inline code, would be. */
  predicate HasForgedPlaceholder(t: string, i: nat)
    requires i <= |t|
    decreases |t| - i
  {
    i < |t| &&
    match Span(t, i)
    case Some(end) => HasForgedPlaceholder(t, end)
    case None => Forges(t, i) || HasForgedPlaceholder(t, i + 1)
  }

  lemma {:induction false} DigitRunOfDigits(digits: string, rest: string)
    requires AllDigits(digits) && (rest == "" || !IsDigit(rest[0]))
    ensures DigitRun(digits + rest) == |digits|
  {
    if digits == "" {
      assert digits + rest == rest;
    } else {
      assert IsDigit(digits[0]);
      DigitRunOfDigits(digits[1..], rest);
      assert (digits + rest)[1..] == digits[1..] + rest;
    }
  }

  /** A NUL and digits open a placeholder just if a NUL follows them. */
  lemma DigitsOpenPlaceholder(digits: string, rest: string)
    requires AllDigits(digits) && digits != "" && (rest == "" || !IsDigit(rest[0]))
    ensures OpenedPlaceholder([NUL] + digits + rest) ==
            if rest != "" && rest[0] == NUL then Some(digits) else None
  {
    var s := [NUL] + digits + rest;
    DigitRunOfDigits(digits, rest);
    assert s == [NUL] + (digits + rest);
    assert s[1..] == digits + rest;
    assert s[1..1 + |digits|] == digits;
  }

  /** Unmasking takes a whole placeholder and puts its span back. */
  lemma UnmaskTakesPlaceholder(n: nat, rest: string, spans: seq<string>)
    ensures Unmask(Placeholder(n) + rest, spans) == Lookup(spans, n) + Unmask(rest, spans)
  {
    var s := Placeholder(n) + rest;
    NumeralRoundTrip(n);
    assert s == [NUL] + Numeral(n) + ([NUL] + rest);
    DigitsOpenPlaceholder(Numeral(n), [NUL] + rest);
    assert s[2 + |Numeral(n)|..] == rest;
  }

  lemma MaskPlain(t: string, i: nat, n: nat)
    requires i < |t| && Span(t, i) == None
    ensures Mask(t, i, n).text == [t[i]] + Mask(t, i + 1, n).text
    ensures Mask(t, i, n).spans == Mask(t, i + 1, n).spans
  {
    assert [] + Mask(t, i + 1, n).spans == Mask(t, i + 1, n).spans;
  }

  lemma MaskSpan(t: string, i: nat, n: nat, end: nat)
    requires i < |t| && Span(t, i) == Some(end)
    ensures Mask(t, i, n).text == Placeholder(n) + Mask(t, end, n + 1).text
    ensures Mask(t, i, n).spans == [t[i..end]] + Mask(t, end, n + 1).spans
  {
  }

  /** From `i` to `j` masking copies the text. */
  ghost predicate Copies(t: string, i: nat, j: nat, n: nat) {
    && i <= j <= |t|
    && Mask(t, i, n).text == t[i..j] + Mask(t, j, n).text
    && Mask(t, i, n).spans == Mask(t, j, n).spans
  }

  lemma OneMoreCopied(t: string, i: nat, j: nat, n: nat)
    requires i < |t| && Span(t, i) == None && Copies(t, i + 1, j, n)
    ensures Copies(t, i, j, n)
  {
    MaskPlain(t, i, n);
    Reassociate([t[i]], t[i + 1..j], Mask(t, j, n).text);
    assert [t[i]] + t[i + 1..j] == t[i..j];
  }

  /** Masking copies text without backticks. */
  lemma {:induction false} MaskCopies(t: string, i: nat, d: nat, n: nat)
    requires i + d <= |t| && '`' !in t[i..i + d]
    ensures Copies(t, i, i + d, n)
    decreases d
  {
    if d == 0 {
    } else {
      assert t[i] == t[i..i + d][0] && t[i + 1..i + d] == t[i..i + d][1..];
      MaskCopies(t, i + 1, d - 1, n);
      OneMoreCopied(t, i, i + d, n);
    }
  }

  /** Masked text opens with a NUL just where the text does, or where a span starts. */
  lemma MaskHead(t: string, i: nat, n: nat)
    requires i < |t|
    ensures var m := Mask(t, i, n).text;
            && m != "" && (IsDigit(m[0]) ==> IsDigit(t[i]))
            && (m[0] == NUL <==> t[i] == NUL || Span(t, i).Some?)
  {
  }

  lemma DigitsAreNoTicks(digits: string)
    requires AllDigits(digits)
    ensures '`' !in digits
  {
    assert !IsDigit('`');
  }

  /** What masking makes of a NUL and the `d` digits after it. */
  lemma MaskNulAndDigits(t: string, i: nat, d: nat, n: nat)
    requires i + 1 + d <= |t| && t[i] == NUL && AllDigits(t[i + 1..i + 1 + d])
    ensures Mask(t, i, n).text == [NUL] + t[i + 1..i + 1 + d] + Mask(t, i + 1 + d, n).text
  {
    MaskPlain(t, i, n);
    DigitsAreNoTicks(t[i + 1..i + 1 + d]);
    MaskCopies(t, i + 1, d, n);
    var digits, rest := t[i + 1..i + 1 + d], Mask(t, i + 1 + d, n).text;
    assert [NUL] + (digits + rest) == [NUL] + digits + rest;
  }

  /** Masked text after `d` digits that end before `j` is not a digit, and a NUL just where `Forges` asks. */
  lemma MaskAfterDigits(t: string, j: nat, n: nat)
    requires j <= |t| && (j < |t| ==> !IsDigit(t[j]))
    ensures var rest := Mask(t, j, n).text;
            && (rest == "" || !IsDigit(rest[0]))
            && (rest != "" && rest[0] == NUL <==> j < |t| && (t[j] == NUL || Span(t, j).Some?))
  {
    if j < |t| {
      MaskHead(t, j, n);
    }
  }

  /** A NUL, digits and a rest open a placeholder just if there are digits and a NUL follows them. */
  lemma PlaceholderOrNot(m: string, digits: string, rest: string)
    requires m == [NUL] + digits + rest && AllDigits(digits) && (rest == "" || !IsDigit(rest[0]))
    ensures OpenedPlaceholder(m).Some? <==> digits != "" && rest != "" && rest[0] == NUL
  {
    if digits == "" {
      assert m[1..] == rest;
    } else {
      DigitsOpenPlaceholder(digits, rest);
    }
  }

  /** The digits after position `i`, and what ends them. */
  lemma RunAfter(t: string, i: nat, d: nat)
    requires i < |t| && d == DigitRun(t[i + 1..])
    ensures i + 1 + d <= |t| && AllDigits(t[i + 1..i + 1 + d])
    ensures i + 1 + d < |t| ==> !IsDigit(t[i + 1 + d])
  {
    var after := t[i + 1..];
    DigitRunHoldsDigits(after);
    assert after[..d] == t[i + 1..i + 1 + d];
    assert d < |after| ==> after[d] == t[i + 1 + d];
  }

  lemma ForgesBy(t: string, i: nat, d: nat)
    requires i < |t| && t[i] == NUL && d == DigitRun(t[i + 1..])
    ensures Forges(t, i) <==>
            d > 0 && i + 1 + d < |t| && (t[i + 1 + d] == NUL || Span(t, i + 1 + d).Some?)
  {
  }

  /** A NUL outside spans is taken for a placeholder after masking exactly if it forges one. */
  lemma ForgesMeansPlaceholder(t: string, i: nat, n: nat)
    requires i < |t| && t[i] == NUL
    ensures OpenedPlaceholder(Mask(t, i, n).text).Some? <==> Forges(t, i)
  {
    var d := DigitRun(t[i + 1..]);
    RunAfter(t, i, d);
    MaskNulAndDigits(t, i, d, n);
    MaskAfterDigits(t, i + 1 + d, n);
    PlaceholderOrNot(Mask(t, i, n).text, t[i + 1..i + 1 + d], Mask(t, i + 1 + d, n).text);
    ForgesBy(t, i, d);
  }

  ghost predicate AreSpans(spans: seq<string>) {
    forall k :: 0 <= k < |spans| ==> spans[k] != "" && spans[k][0] == '`'
  }

  lemma SpansCons(first: string, rest: seq<string>)
    requires first != "" && first[0] == '`' && AreSpans(rest)
    ensures AreSpans([first] + rest)
  {
  }

  lemma {:induction false} MaskYieldsSpans(t: string, i: nat, n: nat)
    requires i <= |t|
    ensures AreSpans(Mask(t, i, n).spans)
    decreases |t| - i
  {
    if i == |t| {
    } else {
      match Span(t, i)
      case Some(end) =>
        MaskYieldsSpans(t, end, n + 1);
        MaskSpan(t, i, n, end);
        SpansCons(t[i..end], Mask(t, end, n + 1).spans);
      case None =>
        MaskYieldsSpans(t, i + 1, n);
        MaskPlain(t, i, n);
    }
  }

  /** A text that goes on as `t` does is right exactly if the rest is. */
  lemma RestDecides(t: string, i: nat, end: nat, whole: string, rest: string)
    requires i <= end <= |t| && whole == t[i..end] + rest
    ensures whole == t[i..] <==> rest == t[end..]
  {
    assert t[i..] == t[i..end] + t[end..];
    assert whole[end - i..] == rest && t[i..][end - i..] == t[end..];
  }

  /** Outside spans a character is copied, unless it is a NUL that forges a placeholder. */
  lemma UnmaskCopies(t: string, i: nat, n: nat, spans: seq<string>)
    requires i < |t| && Span(t, i) == None && !Forges(t, i)
    ensures Unmask(Mask(t, i, n).text, spans) == [t[i]] + Unmask(Mask(t, i + 1, n).text, spans)
  {
    MaskPlain(t, i, n);
    assert Mask(t, i, n).text[1..] == Mask(t, i + 1, n).text;
    if t[i] == NUL {
      ForgesMeansPlaceholder(t, i, n);
    }
  }

  lemma UnmaskLosesForged(t: string, i: nat, n: nat, spans: seq<string>)
    requires i < |t| && Forges(t, i) && AreSpans(spans)
    ensures Unmask(Mask(t, i, n).text, spans) != t[i..]
  {
    ForgesMeansPlaceholder(t, i, n);
    var m := Mask(t, i, n).text;
    var digits := OpenedPlaceholder(m).value;
    var found := Lookup(spans, NumeralValue(digits));
    assert found[0] == '`' || found[0] == 'u';
    assert Unmask(m, spans)[0] == found[0] && t[i..][0] == NUL;
  }

  ghost predicate GivesBack(t: string, i: nat, n: nat, spans: seq<string>)
    requires i <= |t|
  {
    Unmask(Mask(t, i, n).text, spans) == t[i..]
  }

  lemma UnmaskPutsSpanBack(t: string, i: nat, n: nat, spans: seq<string>, end: nat)
    requires i < |t| && Span(t, i) == Some(end) && n < |spans| && spans[n] == t[i..end]
    ensures Unmask(Mask(t, i, n).text, spans) == t[i..end] + Unmask(Mask(t, end, n + 1).text, spans)
  {
    MaskSpan(t, i, n, end);
    UnmaskTakesPlaceholder(n, Mask(t, end, n + 1).text, spans);
  }

  lemma SpanIsGivenBack(t: string, i: nat, n: nat, spans: seq<string>, end: nat)
    requires i < |t| && Span(t, i) == Some(end) && n < |spans| && spans[n] == t[i..end]
    ensures GivesBack(t, i, n, spans) <==> GivesBack(t, end, n + 1, spans)
  {
    UnmaskPutsSpanBack(t, i, n, spans, end);
    RestDecides(t, i, end, Unmask(Mask(t, i, n).text, spans), Unmask(Mask(t, end, n + 1).text, spans));
  }

  lemma PlainIsGivenBack(t: string, i: nat, n: nat, spans: seq<string>)
    requires i < |t| && Span(t, i) == None && AreSpans(spans)
    ensures GivesBack(t, i, n, spans) <==> !Forges(t, i) && GivesBack(t, i + 1, n, spans)
  {
    if Forges(t, i) {
      UnmaskLosesForged(t, i, n, spans);
    } else {
      UnmaskCopies(t, i, n, spans);
      assert t[i..i + 1] == [t[i]];
      RestDecides(t, i, i + 1, Unmask(Mask(t, i, n).text, spans), Unmask(Mask(t, i + 1, n).text, spans));
    }
  }

  lemma {:induction false} UnmaskInvertsMaskFrom(t: string, i: nat, n: nat, spans: seq<string>)
    requires i <= |t| && AreSpans(spans) && n <= |spans| && spans[n..] == Mask(t, i, n).spans
    ensures GivesBack(t, i, n, spans) <==> !HasForgedPlaceholder(t, i)
    decreases |t| - i
  {
    if i == |t| {
    } else {
      match Span(t, i)
      case Some(end) =>
        MaskSpan(t, i, n, end);
        assert spans[n] == spans[n..][0] == t[i..end];
        assert spans[n + 1..] == spans[n..][1..] == Mask(t, end, n + 1).spans;
        SpanIsGivenBack(t, i, n, spans, end);
        UnmaskInvertsMaskFrom(t, end, n + 1, spans);
      case None =>
        MaskPlain(t, i, n);
        PlainIsGivenBack(t, i, n, spans);
        UnmaskInvertsMaskFrom(t, i + 1, n, spans);
    }
  }

  /** Unmasking gives the text back exactly when no NUL of its own forges a placeholder. */
  lemma UnmaskInvertsMask(text: string)
    ensures var m := Mask(text, 0, 0);
            Unmask(m.text, m.spans) == text <==> !HasForgedPlaceholder(text, 0)
  {
    MaskYieldsSpans(text, 0, 0);
    UnmaskInvertsMaskFrom(text, 0, 0, Mask(text, 0, 0).spans);
    assert text[0..] == text;
  }

  lemma {:induction false} NulFreeForgesNothing(text: string, i: nat)
    requires NUL !in text && i <= |text|
    ensures !HasForgedPlaceholder(text, i)
    decreases |text| - i
  {
    if i == |text| {
    } else {
      match Span(text, i)
      case Some(end) => NulFreeForgesNothing(text, end);
      case None => NulFreeForgesNothing(text, i + 1);
    }
  }

  /** So it does on every text without NUL, whatever stands between the spans. */
  lemma UnmaskInvertsMaskWithoutNul(text: string)
    requires NUL !in text
    ensures var m := Mask(text, 0, 0); Unmask(m.text, m.spans) == text
  {
    NulFreeForgesNothing(text, 0);
    UnmaskInvertsMask(text);
  }

  /** A text of a NUL, a digit and a NUL is not given back. */
  lemma ForgedPlaceholderIsLost()
    ensures var text := [NUL, '0', NUL]; var m := Mask(text, 0, 0);
            HasForgedPlaceholder(text, 0) && Unmask(m.text, m.spans) != text
  {
    var text := [NUL, '0', NUL];
    assert text[1..] == ['0', NUL] && text[1..][1..] == [NUL];
    assert DigitRun([NUL]) == 0 && DigitRun(['0', NUL]) == 1;
    assert Forges(text, 0);
    UnmaskInvertsMask(text);
  }
}
