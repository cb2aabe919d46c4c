/**
 The few string primitives of the JavaScript runtime that the models share.

 - `IsSpace` is the class `\s` of regular expressions, which `trim` strips from both ends.
 - `IndexOf` is the method of strings that finds the first occurrence of a character.
 - `Numeral` and `NumeralValue` are the decimal forms of natural numbers, as template literals
   write them and `Number` reads them.

 Each comes with what the models need of it: trimmed text keeps its visible ends, the first
 occurrence is the first, and a number that was written reads back.
 */
module Text {
  import opened Wrappers

  /** The characters `\s` matches; `trim` removes the same ones. */
  predicate IsSpace(c: char) {
    || ('\t' <= c <= '\r') || c == ' ' || c == '\U{00A0}' || c == '\U{1680}'
    || ('\U{2000}' <= c <= '\U{200A}') || c == '\U{2028}' || c == '\U{2029}'
    || c == '\U{202F}' || c == '\U{205F}' || c == '\U{3000}' || c == '\U{FEFF}'
  }

  predicate IsQuote(c: char) {
    c == '"' || c == '\''
  }

  lemma Reassociate<T>(a: seq<T>, b: seq<T>, c: seq<T>)
    ensures a + (b + c) == a + b + c
  {
  }

  function TrimStart(s: string): string {
    if s != "" && IsSpace(s[0]) then TrimStart(s[1..]) else s
  }

  function TrimEnd(s: string): string {
    if s != "" && IsSpace(s[|s| - 1]) then TrimEnd(s[..|s| - 1]) else s
  }

  function Trim(s: string): string {
    TrimEnd(TrimStart(s))
  }

  /** A trimmed text starts and ends with a visible character, if it has any at all. */
  lemma {:induction false} TrimEndKeeps(s: string)
    ensures TrimEnd(s) <= s
    ensures TrimEnd(s) != "" ==> !IsSpace(TrimEnd(s)[|TrimEnd(s)| - 1])
  {
    if s != "" && IsSpace(s[|s| - 1]) {
      TrimEndKeeps(s[..|s| - 1]);
    } else {
    }
  }

  lemma {:induction false} TrimStartKeeps(s: string)
    ensures TrimStart(s) != "" ==> !IsSpace(TrimStart(s)[0])
  {
    if s != "" && IsSpace(s[0]) {
      TrimStartKeeps(s[1..]);
    } else {
    }
  }

  lemma TrimmedStartsVisible(s: string)
    ensures Trim(s) != "" ==> !IsSpace(Trim(s)[0])
  {
    TrimStartKeeps(s);
    TrimEndKeeps(TrimStart(s));
  }

  lemma NothingToTrim(s: string)
    requires s != "" && !IsSpace(s[0]) && !IsSpace(s[|s| - 1])
    ensures Trim(s) == s
  {
  }

  function IndexOf(s: string, c: char): Option<nat> {
    if s == "" then None
    else if s[0] == c then Some(0)
    else match IndexOf(s[1..], c)
      case Some(i) => Some(i + 1)
      case None => None
  }

  /** `IndexOf` is the first occurrence, or says there is none. */
  lemma {:induction false} IndexOfIsFirst(s: string, c: char)
    ensures match IndexOf(s, c)
      case Some(i) => i < |s| && s[i] == c && c !in s[..i]
      case None => c !in s
  {
    if s != "" && s[0] != c {
      IndexOfIsFirst(s[1..], c);
      match IndexOf(s[1..], c)
      case Some(i) => assert s[..i + 1] == [s[0]] + s[1..][..i];
      case None => assert s == [s[0]] + s[1..];
    } else {
    }
  }

  lemma {:induction false} IndexOfAfterPrefix(p: string, c: char, rest: string)
    requires c !in p
    ensures IndexOf(p + [c] + rest, c) == Some(|p|)
  {
    var s := p + [c] + rest;
    if p == "" {
    } else {
      assert s[1..] == p[1..] + [c] + rest;
      IndexOfAfterPrefix(p[1..], c, rest);
    }
  }

  // ---- decimal numerals ------------------------------------------------------------

  predicate IsDigit(c: char) {
    '0' <= c <= '9'
  }

  predicate AllDigits(s: string) {
    forall i :: 0 <= i < |s| ==> IsDigit(s[i])
  }

  lemma DigitsAreTrimmed(s: string)
    requires AllDigits(s)
    ensures Trim(s) == s
  {
    if s != "" {
      assert IsDigit(s[0]) && IsDigit(s[|s| - 1]);
      NothingToTrim(s);
    }
  }

  function Numeral(n: nat): string {
    (if n < 10 then "" else Numeral(n / 10)) + ['0' + (n % 10) as char]
  }

  function NumeralValue(s: string): nat
    requires AllDigits(s)
  {
    if s == "" then 0 else 10 * NumeralValue(s[..|s| - 1]) + (s[|s| - 1] - '0') as nat
  }

  lemma {:induction false} NumeralRoundTrip(n: nat)
    ensures Numeral(n) != "" && AllDigits(Numeral(n)) && NumeralValue(Numeral(n)) == n
  {
    var c := '0' + (n % 10) as char;
    assert (c - '0') as nat == n % 10;
    if n >= 10 {
      NumeralRoundTrip(n / 10);
      assert Numeral(n)[..|Numeral(n)| - 1] == Numeral(n / 10);
    } else {
    }
  }
}
