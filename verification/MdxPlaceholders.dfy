/**
 Masked text whose placeholders are whole, scripts/kb-mdx.ts lines 60-73.

 Masking a text that holds no NUL of its own gives such a text, and so does cutting or joining it
 anywhere but within a placeholder.

 - `IsWhole` reads it with a small state machine, character by character.
 - `Weight` is how many `<` it stands for once it is unmasked.
 - `Shrinks` compares two texts: fewer `<`, or else fewer characters, or else the same text.
 */
module MdxPlaceholders {
  import opened Wrappers
  import opened Text
  import opened MdxInlineCode

  /** Where a reader of masked text stands: outside placeholders, just past a first NUL, or in its digits. */
  datatype Place = Outside | Opened | Within | Nowhere

  function Moved(p: Place, c: char): Place {
    match p
    case Outside => if c == NUL then Opened else Outside
    case Opened => if IsDigit(c) then Within else Nowhere
    case Within => if IsDigit(c) then Within else if c == NUL then Outside else Nowhere
    case Nowhere => Nowhere
  }

  function After(p: Place, s: string): Place
    decreases |s|
  {
    if s == "" then p else After(Moved(p, s[0]), s[1..])
  }

  /** Every NUL belongs to a placeholder. */
  predicate IsWhole(s: string) {
    After(Outside, s) == Outside
  }

  lemma {:induction false} AfterBoth(p: Place, a: string, b: string)
    ensures After(p, a + b) == After(After(p, a), b)
    decreases |a|
  {
    if a == "" {
      assert a + b == b;
    } else {
      assert (a + b)[0] == a[0] && (a + b)[1..] == a[1..] + b;
      AfterBoth(Moved(p, a[0]), a[1..], b);
    }
  }

  lemma {:induction false} NowhereStays(s: string)
    ensures After(Nowhere, s) == Nowhere
  {
    if s == "" {
    } else {
      NowhereStays(s[1..]);
    }
  }

  lemma WholeConcat(a: string, b: string)
    requires IsWhole(a) && IsWhole(b)
    ensures IsWhole(a + b)
  {
    AfterBoth(Outside, a, b);
  }

  /** A character that is neither NUL nor digit stands in no placeholder. */
  predicate IsApart(c: char) {
    c != NUL && !IsDigit(c)
  }

  /** Whole text splits into whole parts where the second opens with such a character. */
  lemma WholeSplits(a: string, b: string)
    requires IsWhole(a + b) && (b == "" || IsApart(b[0]))
    ensures IsWhole(a) && IsWhole(b)
  {
    AfterBoth(Outside, a, b);
    if b != "" {
      NowhereStays(b[1..]);
    }
  }

  lemma {:induction false} NulFreeIsWhole(s: string)
    requires NUL !in s
    ensures IsWhole(s)
  {
    if s == "" {
    } else {
      assert s[0] in s;
      NulFreeIsWhole(s[1..]);
    }
  }

  /** After text without NUL, whole text stays whole. */
  lemma WholeAfter(a: string, b: string)
    requires IsWhole(a + b) && NUL !in a
    ensures IsWhole(b)
  {
    NulFreeIsWhole(a);
    AfterBoth(Outside, a, b);
  }

  /** From within a placeholder, whole text goes on with digits and a NUL. */
  lemma {:induction false} DigitsThenNul(p: Place, s: string)
    requires (p == Opened || p == Within) && After(p, s) == Outside
    ensures var d := DigitRun(s);
            && d < |s| && s[d] == NUL && (p == Opened ==> d > 0) && After(Outside, s[d + 1..]) == Outside
    decreases |s|
  {
    if s != "" && IsDigit(s[0]) {
      DigitsThenNul(Within, s[1..]);
      assert s[1..][DigitRun(s[1..]) + 1..] == s[DigitRun(s) + 1..];
    } else {
      assert s != "";
      NowhereStays(s[1..]);
      assert s[0] == NUL && p == Within && s[0 + 1..] == s[1..];
    }
  }

  /** Whole text that opens with a NUL opens with a placeholder, and is whole after it. */
  lemma PlaceholderFirst(s: string)
    requires s != "" && s[0] == NUL && IsWhole(s)
    ensures OpenedPlaceholder(s).Some? && IsWhole(s[2 + |OpenedPlaceholder(s).value|..])
  {
    DigitsThenNul(Opened, s[1..]);
    var d := DigitRun(s[1..]);
    assert s[1..][d] == s[1 + d] && s[1..][d + 1..] == s[2 + d..];
  }

  /** A placeholder is a NUL, digits and a NUL. */
  lemma PlaceholderHolds(s: string)
    requires OpenedPlaceholder(s).Some?
    ensures var n := |OpenedPlaceholder(s).value|;
            && 2 + n <= |s| && n > 0 && s[0] == NUL && s[1 + n] == NUL && s[1..1 + n] == OpenedPlaceholder(s).value
            && forall k :: 0 < k < 1 + n ==> IsDigit(s[k])
  {
    var n := DigitRun(s[1..]);
    DigitRunHoldsDigits(s[1..]);
    forall k | 0 < k < 1 + n ensures IsDigit(s[k]) {
      assert s[1..][..n][k - 1] == s[k];
    }
  }

  /** It is opened by the same text, whatever follows. */
  lemma PlaceholderStays(s: string, rest: string)
    requires OpenedPlaceholder(s).Some?
    ensures OpenedPlaceholder(s + rest) == OpenedPlaceholder(s)
  {
    PlaceholderHolds(s);
    var digits := OpenedPlaceholder(s).value;
    var after := s[1 + |digits|..] + rest;
    assert s + rest == [NUL] + digits + after;
    assert AllDigits(digits);
    DigitsOpenPlaceholder(digits, after);
  }

  /** Unmasking takes the first character or placeholder, and goes on. */
  lemma UnmaskTakesHead(s: string, rest: string, spans: seq<string>) returns (shown: string, more: string)
    requires s != "" && IsWhole(s)
    ensures |more| < |s| && IsWhole(more)
    ensures Unmask(s, spans) == shown + Unmask(more, spans)
    ensures Unmask(s + rest, spans) == shown + Unmask(more + rest, spans)
  {
    if s[0] == NUL {
      PlaceholderFirst(s);
      PlaceholderStays(s, rest);
      var digits := OpenedPlaceholder(s).value;
      shown, more := Lookup(spans, NumeralValue(digits)), s[2 + |digits|..];
      assert (s + rest)[2 + |digits|..] == more + rest;
    } else {
      shown, more := [s[0]], s[1..];
      assert (s + rest)[1..] == more + rest;
    }
  }

  lemma {:induction false} UnmaskConcat(a: string, b: string, spans: seq<string>)
    requires IsWhole(a)
    ensures Unmask(a + b, spans) == Unmask(a, spans) + Unmask(b, spans)
    decreases |a|
  {
    if a == "" {
      assert a + b == b;
    } else {
      var shown, more := UnmaskTakesHead(a, b, spans);
      UnmaskConcat(more, b, spans);
      Reassociate(shown, Unmask(more, spans), Unmask(b, spans));
    }
  }

  lemma {:induction false} AfterDigits(p: Place, digits: string)
    requires AllDigits(digits) && ((p == Opened && digits != "") || p == Within)
    ensures After(p, digits + [NUL]) == Outside
    decreases |digits|
  {
    if digits == "" {
      assert digits + [NUL] == [NUL] && [NUL][1..] == "";
    } else {
      assert IsDigit(digits[0]) && (digits + [NUL])[1..] == digits[1..] + [NUL];
      AfterDigits(Within, digits[1..]);
    }
  }

  lemma DigitsAreWhole(digits: string)
    requires AllDigits(digits) && digits != ""
    ensures IsWhole([NUL] + digits + [NUL])
  {
    assert ([NUL] + digits + [NUL])[1..] == digits + [NUL];
    AfterDigits(Opened, digits);
  }

  lemma PlaceholderIsWhole(n: nat)
    ensures IsWhole(Placeholder(n))
  {
    NumeralRoundTrip(n);
    DigitsAreWhole(Numeral(n));
  }

  /** Masking text without NUL gives whole text. */
  lemma {:induction false} MaskIsWhole(t: string, i: nat, n: nat)
    requires i <= |t| && NUL !in t
    ensures IsWhole(Mask(t, i, n).text)
    decreases |t| - i
  {
    if i == |t| {
    } else {
      match Span(t, i)
      case Some(end) =>
        MaskSpan(t, i, n, end);
        MaskIsWhole(t, end, n + 1);
        PlaceholderIsWhole(n);
        WholeConcat(Placeholder(n), Mask(t, end, n + 1).text);
      case None =>
        MaskPlain(t, i, n);
        MaskIsWhole(t, i + 1, n);
        NulFreeIsWhole([t[i]]);
        WholeConcat([t[i]], Mask(t, i + 1, n).text);
    }
  }

  // ---- how many brackets -----------------------------------------------------------

  function Brackets(s: string): nat {
    multiset(s)['<']
  }

  lemma BracketsConcat(a: string, b: string)
    ensures Brackets(a + b) == Brackets(a) + Brackets(b)
  {
  }

  /** The number a placeholder's digits make, read so far. */
  function Value(p: Place, value: nat, c: char): nat {
    if (p == Opened || p == Within) && IsDigit(c) then value * 10 + (c - '0') as nat else 0
  }

  /** The brackets that one more character stands for. */
  function Shown(p: Place, value: nat, c: char, spans: seq<string>): nat {
    if p == Within && c == NUL then Brackets(Lookup(spans, value)) else if c == '<' then 1 else 0
  }

  function WeightFrom(p: Place, value: nat, s: string, spans: seq<string>): nat
    decreases |s|
  {
    if s == "" then 0
    else Shown(p, value, s[0], spans) + WeightFrom(Moved(p, s[0]), Value(p, value, s[0]), s[1..], spans)
  }

  /** The `<` a masked text stands for, those of its spans included. */
  function Weight(s: string, spans: seq<string>): nat {
    WeightFrom(Outside, 0, s, spans)
  }

  function ValueAfter(p: Place, value: nat, s: string): nat
    decreases |s|
  {
    if s == "" then value else ValueAfter(Moved(p, s[0]), Value(p, value, s[0]), s[1..])
  }

  lemma {:induction false} OutsideHasNoValue(p: Place, value: nat, s: string)
    requires (p == Outside ==> value == 0) && After(p, s) == Outside
    ensures ValueAfter(p, value, s) == 0
    decreases |s|
  {
    if s == "" {
    } else {
      OutsideHasNoValue(Moved(p, s[0]), Value(p, value, s[0]), s[1..]);
    }
  }

  lemma {:induction false} WeightBoth(p: Place, value: nat, a: string, b: string, spans: seq<string>)
    ensures WeightFrom(p, value, a + b, spans) ==
            WeightFrom(p, value, a, spans) + WeightFrom(After(p, a), ValueAfter(p, value, a), b, spans)
    decreases |a|
  {
    if a == "" {
      assert a + b == b;
    } else {
      assert (a + b)[0] == a[0] && (a + b)[1..] == a[1..] + b;
      WeightBoth(Moved(p, a[0]), Value(p, value, a[0]), a[1..], b, spans);
    }
  }

  lemma WeightConcat(a: string, b: string, spans: seq<string>)
    requires IsWhole(a)
    ensures Weight(a + b, spans) == Weight(a, spans) + Weight(b, spans)
  {
    WeightBoth(Outside, 0, a, b, spans);
    OutsideHasNoValue(Outside, 0, a);
  }

  lemma {:induction false} NulFreeWeighs(s: string, spans: seq<string>)
    requires NUL !in s
    ensures Weight(s, spans) == Brackets(s)
  {
    if s == "" {
    } else {
      assert s[0] in s && s == [s[0]] + s[1..];
      NulFreeWeighs(s[1..], spans);
    }
  }

  function NumberAfter(value: nat, digits: string): nat
    requires AllDigits(digits)
    decreases |digits|
  {
    if digits == "" then value
    else
      assert IsDigit(digits[0]);
      NumberAfter(value * 10 + (digits[0] - '0') as nat, digits[1..])
  }

  lemma {:induction false} DigitsWeigh(p: Place, value: nat, digits: string, spans: seq<string>)
    requires AllDigits(digits) && ((p == Opened && digits != "") || p == Within)
    ensures WeightFrom(p, value, digits + [NUL], spans) == Brackets(Lookup(spans, NumberAfter(value, digits)))
    decreases |digits|
  {
    if digits == "" {
      assert digits + [NUL] == [NUL] && [NUL][1..] == "";
    } else {
      assert IsDigit(digits[0]) && (digits + [NUL])[0] == digits[0] && (digits + [NUL])[1..] == digits[1..] + [NUL];
      DigitsWeigh(Within, value * 10 + (digits[0] - '0') as nat, digits[1..], spans);
    }
  }

  lemma {:induction false} NumberAfterSnoc(value: nat, digits: string, c: char)
    requires AllDigits(digits) && IsDigit(c)
    ensures AllDigits(digits + [c])
    ensures NumberAfter(value, digits + [c]) == NumberAfter(value, digits) * 10 + (c - '0') as nat
    decreases |digits|
  {
    if digits == "" {
      assert digits + [c] == [c] && [c][1..] == "";
    } else {
      assert IsDigit(digits[0]) && (digits + [c])[1..] == digits[1..] + [c];
      NumberAfterSnoc(value * 10 + (digits[0] - '0') as nat, digits[1..], c);
    }
  }

  lemma {:induction false} NumberIsValue(digits: string)
    requires AllDigits(digits)
    ensures NumberAfter(0, digits) == NumeralValue(digits)
  {
    if digits == "" {
    } else {
      var front, last := digits[..|digits| - 1], digits[|digits| - 1];
      assert AllDigits(front) && IsDigit(last) && digits == front + [last];
      NumberIsValue(front);
      NumberAfterSnoc(0, front, last);
    }
  }

  lemma PlaceholderWeighs(digits: string, spans: seq<string>)
    requires AllDigits(digits) && digits != ""
    ensures Weight([NUL] + digits + [NUL], spans) == Brackets(Lookup(spans, NumeralValue(digits)))
  {
    assert ([NUL] + digits + [NUL])[1..] == digits + [NUL];
    DigitsWeigh(Opened, 0, digits, spans);
    NumberIsValue(digits);
  }

  /** Whole text in two whole parts, the first a character or a placeholder; unmasking shows one after the other. */
  lemma HeadShown(s: string, spans: seq<string>) returns (head: string, rest: string, shown: string)
    requires s != "" && IsWhole(s)
    ensures s == head + rest && head != "" && IsWhole(head) && IsWhole(rest)
    ensures Unmask(s, spans) == shown + Unmask(rest, spans) && Weight(head, spans) == Brackets(shown)
    ensures |head| == 1 || forall k :: 0 <= k < |head| ==> head[k] == NUL || IsDigit(head[k])
  {
    if s[0] == NUL {
      PlaceholderFirst(s);
      PlaceholderHolds(s);
      var digits := OpenedPlaceholder(s).value;
      head, rest, shown := [NUL] + digits + [NUL], s[2 + |digits|..], Lookup(spans, NumeralValue(digits));
      assert s[..2 + |digits|] == head;
      assert AllDigits(digits);
      DigitsAreWhole(digits);
      PlaceholderWeighs(digits, spans);
    } else {
      head, rest, shown := [s[0]], s[1..], [s[0]];
      NulFreeWeighs(head, spans);
    }
  }

  /** A whole text weighs the brackets it has once unmasked. */
  lemma {:induction false} WeightIsShown(s: string, spans: seq<string>)
    requires IsWhole(s)
    ensures Weight(s, spans) == Brackets(Unmask(s, spans))
    decreases |s|
  {
    if s == "" {
    } else {
      var head, rest, shown := HeadShown(s, spans);
      WeightIsShown(rest, spans);
      WeightConcat(head, rest, spans);
      BracketsConcat(shown, Unmask(rest, spans));
    }
  }

  // ---- fewer brackets, or else shorter ---------------------------------------------

  /** Fewer `<`, or else fewer characters, or else the same text. */
  ghost predicate Shrinks(a: string, b: string) {
    && Brackets(b) <= Brackets(a)
    && (Brackets(b) == Brackets(a) ==> |b| <= |a| && (|b| == |a| ==> b == a))
  }

  /** What shrinks twice shrinks, and if it is as it was, each step changed nothing. */
  lemma ShrinksTwice(a: string, b: string, c: string)
    requires Shrinks(a, b) && Shrinks(b, c)
    ensures Shrinks(a, c) && (a == c ==> a == b)
  {
  }

  /** What shrinks part by part shrinks, and if it is as it was, so is each part. */
  lemma ShrinksInParts(a: string, b: string, c: string, d: string)
    requires Shrinks(a, b) && Shrinks(c, d)
    ensures Shrinks(a + c, b + d) && (a + c == b + d ==> a == b && c == d)
  {
    BracketsConcat(a, c);
    BracketsConcat(b, d);
  }

  lemma PartShrinks(s: string, i: nat, j: nat)
    requires i <= j <= |s|
    ensures Shrinks(s, s[i..j])
  {
    assert s == s[..i] + s[i..j] + s[j..];
    BracketsConcat(s[..i] + s[i..j], s[j..]);
    BracketsConcat(s[..i], s[i..j]);
  }
}
