/** The tooltip's thousands-separator formatter, `numberWithCommas`.

    The source applies the global replacement `/\B(?=(\d{3})+(?!\d))/g` with ","
    to the text of a number. Every match is empty, and all matches are found on
    the original text, so the result is the text with a comma inserted before
    every index at which the pattern matches. This module models the formatter
    on a given string (not on a number) and proves what the output looks like. */
module NumberFormat {

  predicate IsDigit(c: char) {
    '0' <= c <= '9'
  }

  /** The `\w` class of JavaScript regular expressions (without the `u` flag). */
  predicate IsWordChar(c: char) {
    IsDigit(c) || 'a' <= c <= 'z' || 'A' <= c <= 'Z' || c == '_'
  }

  /** Text made only of digits, `.` and `-`; this includes every number text
      that `Number.prototype.toString` writes without an exponent. */
  predicate IsNumericText(s: string) {
    forall k :: 0 <= k < |s| ==> IsDigit(s[k]) || s[k] == '.' || s[k] == '-'
  }

  /** Length of the run of digits that starts at index i. */
  function DigitRun(s: string, i: nat): (n: nat)
    requires i <= |s|
    ensures i + n <= |s|
    decreases |s| - i
  {
    if i == |s| || !IsDigit(s[i]) then 0 else 1 + DigitRun(s, i + 1)
  }

  /** DigitRun is the length of the maximal run: n digits from i on, and then
      the end of the text or a character that is not a digit. */
  lemma {:induction false} DigitRunIsMaximal(s: string, i: nat)
    requires i <= |s|
    ensures forall k :: i <= k < i + DigitRun(s, i) ==> IsDigit(s[k])
    ensures i + DigitRun(s, i) == |s| || !IsDigit(s[i + DigitRun(s, i)])
    decreases |s| - i
  {
    if i < |s| && IsDigit(s[i]) {
      DigitRunIsMaximal(s, i + 1);
    }
  }

  /** The pattern matches at index i: the characters on both sides of i are word
      characters, and the digit run starting at i has a positive length that is
      a multiple of three. */
  predicate CommaAt(s: string, i: nat)
    requires i <= |s|
    ensures CommaAt(s, i) ==> 0 < i && i + 3 <= |s| && IsWordChar(s[i - 1]) && IsDigit(s[i])
  {
    0 < i && IsWordChar(s[i - 1]) && DigitRun(s, i) > 0 && DigitRun(s, i) % 3 == 0
  }

  // ---------------------------------------------------------------------------
  // A literal reading of the regular expression, as a reference for CommaAt.

  /** `\B` at index i: the word-character status on both sides of i agrees
      (outside the string counts as a non-word character). */
  predicate NotWordBoundary(s: string, i: nat)
    requires i <= |s|
  {
    (0 < i && IsWordChar(s[i - 1])) == (i < |s| && IsWordChar(s[i]))
  }

  /** `(\d{3})+(?!\d)` matches at index i with k groups of three digits. */
  predicate GroupsMatch(s: string, i: nat, k: nat)
    requires i <= |s|
  {
    1 <= k && i + 3 * k <= |s|
    && (forall j :: i <= j < i + 3 * k ==> IsDigit(s[j]))
    && (i + 3 * k == |s| || !IsDigit(s[i + 3 * k]))
  }

  /** The whole pattern `\B(?=(\d{3})+(?!\d))` matches the empty string at index i. */
  ghost predicate RegexMatchesAt(s: string, i: nat)
    requires i <= |s|
    ensures RegexMatchesAt(s, i) ==> 0 < i && i + 3 <= |s| && IsWordChar(s[i - 1]) && IsDigit(s[i])
  {
    NotWordBoundary(s, i) && exists k :: GroupsMatch(s, i, k)
  }

  /** The lookahead succeeds exactly when the digit run at i is a positive
      multiple of three long. */
  lemma LookaheadIsRunLength(s: string, i: nat)
    requires i <= |s|
    ensures (exists k :: GroupsMatch(s, i, k)) <==> (DigitRun(s, i) > 0 && DigitRun(s, i) % 3 == 0)
  {
    var n := DigitRun(s, i);
    DigitRunIsMaximal(s, i);
    if n > 0 && n % 3 == 0 {
      assert GroupsMatch(s, i, n / 3);
    }
    forall k: nat | GroupsMatch(s, i, k)
      ensures n == 3 * k
    {
    }
  }

  /** CommaAt is exactly where the regular expression matches. */
  lemma CommaAtIsRegexMatch(s: string, i: nat)
    requires i <= |s|
    ensures CommaAt(s, i) <==> RegexMatchesAt(s, i)
  {
    LookaheadIsRunLength(s, i);
  }

  // ---------------------------------------------------------------------------
  // The formatter.

  /** `numberWithCommas` on the text s: the formatter only inserts commas,
      so deleting the commas of the output gives the input with its own
      commas deleted. */
  function NumberWithCommas(s: string): (o: string)
    ensures |s| <= |o|
    ensures RemoveCommas(o) == RemoveCommas(s)
  {
    RemoveCommasInsertFrom(s, 0);
    assert s[0..] == s;
    InsertFrom(s, 0)
  }

  /** The formatted text of s[i..]: a comma before every index where the
      pattern matches in s. One character of s[i..] per index, with at most
      one comma before it. */
  function InsertFrom(s: string, i: nat): (r: string)
    requires i <= |s|
    ensures |s| - i <= |r| <= 2 * (|s| - i)
    decreases |s| - i
  {
    if i == |s| then []
    else (if CommaAt(s, i) then [','] else []) + [s[i]] + InsertFrom(s, i + 1)
  }

  function RemoveCommas(s: string): (r: string)
    ensures ',' !in r
    ensures |r| <= |s|
  {
    if |s| == 0 then []
    else (if s[0] == ',' then [] else [s[0]]) + RemoveCommas(s[1..])
  }

  lemma {:induction false} RemoveCommasOfCommaFree(s: string)
    requires ',' !in s
    ensures RemoveCommas(s) == s
  {
    if |s| > 0 {
      RemoveCommasOfCommaFree(s[1..]);
    }
  }

  lemma {:induction false} RemoveCommasAppend(a: string, b: string)
    ensures RemoveCommas(a + b) == RemoveCommas(a) + RemoveCommas(b)
    decreases |a|
  {
    if |a| > 0 {
      var h: string := if a[0] == ',' then [] else [a[0]];
      assert (a + b)[0] == a[0];
      assert (a + b)[1..] == a[1..] + b;
      assert RemoveCommas(a + b) == h + RemoveCommas(a[1..] + b);
      RemoveCommasAppend(a[1..], b);
      assert RemoveCommas(a) == h + RemoveCommas(a[1..]);
    } else {
      assert a + b == b;
    }
  }

  /** The output for s[i..] keeps each character of s[i..] in order and adds
      only commas: deleting its commas gives s[i..] with its own commas
      deleted. */
  lemma {:induction false} RemoveCommasInsertFrom(s: string, i: nat)
    requires i <= |s|
    ensures RemoveCommas(InsertFrom(s, i)) == RemoveCommas(s[i..])
    decreases |s| - i
  {
    if i < |s| {
      var c: string := if CommaAt(s, i) then [','] else [];
      RemoveCommasInsertFrom(s, i + 1);
      RemoveCommasAppend(c + [s[i]], InsertFrom(s, i + 1));
      RemoveCommasAppend(c, [s[i]]);
      assert s[i..] == [s[i]] + s[i + 1..];
      RemoveCommasAppend([s[i]], s[i + 1..]);
    }
  }

  /** Round trip: on comma-free text, deleting the commas of the output gives
      back the input. */
  lemma RemoveCommasRoundTrip(s: string)
    requires ',' !in s
    ensures RemoveCommas(NumberWithCommas(s)) == s
  {
    RemoveCommasOfCommaFree(s);
  }

  // ---------------------------------------------------------------------------
  // Number of commas.

  function CommaCount(s: string): nat {
    multiset(s)[',']
  }

  lemma {:induction false} AllDigitsRun(s: string, i: nat)
    requires i <= |s|
    requires forall k :: 0 <= k < |s| ==> IsDigit(s[k])
    ensures DigitRun(s, i) == |s| - i
    decreases |s| - i
  {
    if i < |s| {
      AllDigitsRun(s, i + 1);
    }
  }

  lemma ThirdsStep(m: nat)
    requires m >= 1
    ensures m / 3 == (if m % 3 == 0 then 1 else 0) + (m - 1) / 3
  {
  }

  /** Each step of the formatter adds the comma it inserts, if any, to the
      commas of the rest. */
  lemma CommaCountStep(s: string, i: nat)
    requires i < |s|
    requires s[i] != ','
    ensures CommaCount(InsertFrom(s, i)) == (if CommaAt(s, i) then 1 else 0) + CommaCount(InsertFrom(s, i + 1))
  {
    var c: string := if CommaAt(s, i) then [','] else [];
    var t := InsertFrom(s, i + 1);
    assert InsertFrom(s, i) == c + [s[i]] + t;
    assert multiset(c + [s[i]] + t) == multiset(c) + multiset([s[i]]) + multiset(t);
    assert multiset(c)[','] == if CommaAt(s, i) then 1 else 0;
  }

  /** In a string of digits, a comma goes before index i > 0 exactly when the
      number of digits from i to the end is a multiple of three. */
  lemma CommaAtInDigits(s: string, i: nat)
    requires 1 <= i < |s|
    requires forall k :: 0 <= k < |s| ==> IsDigit(s[k])
    ensures CommaAt(s, i) <==> (|s| - i) % 3 == 0
  {
    AllDigitsRun(s, i);
    assert IsDigit(s[i - 1]);
  }

  lemma {:induction false} CommaCountFrom(s: string, i: nat)
    requires 1 <= i <= |s|
    requires forall k :: 0 <= k < |s| ==> IsDigit(s[k])
    ensures CommaCount(InsertFrom(s, i)) == (|s| - i) / 3
    decreases |s| - i
  {
    if i < |s| {
      CommaCountFrom(s, i + 1);
      ThirdsStep(|s| - i);
      assert IsDigit(s[i]);
      CommaCountStep(s, i);
      CommaAtInDigits(s, i);
    }
  }

  /** A string of n > 0 digits gets exactly (n - 1) / 3 commas, one per full
      group of three that has a digit before it. */
  lemma CommaCountOfDigits(s: string)
    requires |s| > 0
    requires forall k :: 0 <= k < |s| ==> IsDigit(s[k])
    ensures CommaCount(NumberWithCommas(s)) == (|s| - 1) / 3
  {
    CommaCountFrom(s, 1);
    var c: string := if CommaAt(s, 0) then [','] else [];
    assert c == [];
    assert NumberWithCommas(s) == [s[0]] + InsertFrom(s, 1);
    assert multiset(NumberWithCommas(s)) == multiset([s[0]]) + multiset(InsertFrom(s, 1));
  }

  // ---------------------------------------------------------------------------
  // Shape of the output around each comma.

  /** The comma at index p of o is followed by exactly three digits: three
      digits, then the end of the text or a character that is not a digit. */
  predicate GroupOfThree(o: string, p: nat)
    requires p < |o|
  {
    p + 3 < |o| && IsDigit(o[p + 1]) && IsDigit(o[p + 2]) && IsDigit(o[p + 3])
    && (p + 4 == |o| || !IsDigit(o[p + 4]))
  }

  /** The output for s[i..] starts with its first character, possibly after
      one inserted comma. */
  lemma HeadOfInsertFrom(s: string, i: nat)
    requires i < |s|
    ensures |InsertFrom(s, i)| > 0
    ensures InsertFrom(s, i)[0] == if CommaAt(s, i) then ',' else s[i]
  {
  }

  /** The digit run after an inserted comma: its first three characters are
      digits with no comma due between them, and what follows them either ends
      the text, gets the next comma, or is not a digit. */
  lemma RunAfterComma(s: string, i: nat)
    requires i <= |s|
    requires CommaAt(s, i)
    ensures i + 3 <= |s| && IsDigit(s[i]) && IsDigit(s[i + 1]) && IsDigit(s[i + 2])
    ensures !CommaAt(s, i + 1) && !CommaAt(s, i + 2)
    ensures i + 3 == |s| || CommaAt(s, i + 3) || !IsDigit(s[i + 3])
  {
    var n := DigitRun(s, i);
    assert DigitRun(s, i + 1) == n - 1 && DigitRun(s, i + 2) == n - 2 && DigitRun(s, i + 3) == n - 3;
    assert (n - 1) % 3 == 2 && (n - 2) % 3 == 1;
  }

  /** The output after an inserted comma starts with the three digits of its
      group. */
  lemma GroupAfterComma(s: string, i: nat)
    requires i <= |s|
    requires CommaAt(s, i)
    ensures i + 3 <= |s|
    ensures InsertFrom(s, i) == [',', s[i], s[i + 1], s[i + 2]] + InsertFrom(s, i + 3)
  {
    RunAfterComma(s, i);
    var rest := InsertFrom(s, i + 3);
    var r2 := InsertFrom(s, i + 2);
    var r1 := InsertFrom(s, i + 1);
    assert r2 == [] + [s[i + 2]] + rest;
    assert r1 == [] + [s[i + 1]] + r2;
    assert InsertFrom(s, i) == [','] + [s[i]] + r1;
  }

  /** An inserted comma is followed by the three digits of its group and then
      by something that is not a digit. */
  lemma CommaThenGroup(s: string, i: nat)
    requires i <= |s|
    requires CommaAt(s, i)
    ensures GroupOfThree(InsertFrom(s, i), 0)
  {
    RunAfterComma(s, i);
    GroupAfterComma(s, i);
    var rest := InsertFrom(s, i + 3);
    if i + 3 < |s| {
      HeadOfInsertFrom(s, i + 3);
    } else {
      assert rest == [];
    }
  }

  /** Every comma of the output for s[i..], except one inserted at its very
      start, follows a word character of s, and every comma is followed by a
      group of exactly three digits. */
  lemma {:induction false} GroupsFrom(s: string, i: nat)
    requires i <= |s|
    requires ',' !in s
    ensures forall p :: 0 <= p < |InsertFrom(s, i)| && InsertFrom(s, i)[p] == ',' ==>
      GroupOfThree(InsertFrom(s, i), p)
      && (p > 0 ==> IsWordChar(InsertFrom(s, i)[p - 1]) && InsertFrom(s, i)[p - 1] in s)
    decreases |s| - i
  {
    if i < |s| {
      GroupsFrom(s, i + 1);
      var o := InsertFrom(s, i);
      var t := InsertFrom(s, i + 1);
      var h: string := (if CommaAt(s, i) then [','] else []) + [s[i]];
      assert o == h + t;
      assert s[i] in s;
      forall p | 0 <= p < |o| && o[p] == ','
        ensures GroupOfThree(o, p) && (p > 0 ==> IsWordChar(o[p - 1]) && o[p - 1] in s)
      {
        if p < |h| {
          assert p == 0 && CommaAt(s, i);
          CommaThenGroup(s, i);
        } else {
          var q := p - |h|;
          assert t[q] == ',';
          assert GroupOfThree(t, q);
          if q == 0 {
            HeadOfInsertFrom(s, i + 1);
            assert o[p - 1] == s[i];
          } else {
            assert o[p - 1] == t[q - 1];
          }
        }
      }
    }
  }

  /** No comma is at the start of the output, each comma follows a word
      character, and the group after each comma has exactly three digits,
      as in "1234567.5" becoming "1,234,567.5". */
  lemma CommasSeparateGroupsOfThree(s: string)
    requires ',' !in s
    ensures var o := NumberWithCommas(s);
      forall p :: 0 <= p < |o| && o[p] == ',' ==>
        0 < p && IsWordChar(o[p - 1]) && o[p - 1] in s && GroupOfThree(o, p)
  {
    GroupsFrom(s, 0);
    if |s| > 0 {
      HeadOfInsertFrom(s, 0);
    }
  }

  /** On the text of a number, every comma sits inside a digit run: a digit
      before it and a group of exactly three digits after it. */
  lemma NumericCommasInsideDigitRuns(s: string)
    requires IsNumericText(s)
    ensures var o := NumberWithCommas(s);
      forall p :: 0 <= p < |o| && o[p] == ',' ==>
        0 < p && IsDigit(o[p - 1]) && GroupOfThree(o, p)
  {
    forall k | 0 <= k < |s|
      ensures s[k] != ','
    {
    }
    assert ',' !in s;
    CommasSeparateGroupsOfThree(s);
  }

  /** Worked examples of the formatter: a whole number, a number too short to
      get a comma, and two numbers with a fractional part. */
  lemma FormatsMillion()
    ensures NumberWithCommas("1000000") == "1,000,000"
  {
    var s := "1000000";
    assert DigitRun(s, 6) == 1;
    assert InsertFrom(s, 6) == "0";
    assert DigitRun(s, 5) == 2;
    assert InsertFrom(s, 5) == "00";
    assert DigitRun(s, 4) == 3;
    assert InsertFrom(s, 4) == ",000";
    assert DigitRun(s, 3) == 4;
    assert InsertFrom(s, 3) == "0,000";
    assert DigitRun(s, 2) == 5;
    assert InsertFrom(s, 2) == "00,000";
    assert DigitRun(s, 1) == 6;
    assert InsertFrom(s, 1) == ",000,000";
    assert DigitRun(s, 0) == 7;
    assert InsertFrom(s, 0) == "1,000,000";
  }

  lemma FormatsThreeDigits()
    ensures NumberWithCommas("999") == "999"
  {
    var s := "999";
    assert DigitRun(s, 2) == 1;
    assert InsertFrom(s, 2) == "9";
    assert DigitRun(s, 1) == 2;
    assert InsertFrom(s, 1) == "99";
    assert DigitRun(s, 0) == 3;
    assert InsertFrom(s, 0) == "999";
  }

  lemma FormatsFraction()
    ensures NumberWithCommas("1234567.5") == "1,234,567.5"
  {
    var s := "1234567.5";
    assert DigitRun(s, 8) == 1;
    assert InsertFrom(s, 8) == "5";
    assert DigitRun(s, 7) == 0;
    assert InsertFrom(s, 7) == ".5";
    assert DigitRun(s, 6) == 1;
    assert InsertFrom(s, 6) == "7.5";
    assert DigitRun(s, 5) == 2;
    assert InsertFrom(s, 5) == "67.5";
    assert DigitRun(s, 4) == 3;
    assert InsertFrom(s, 4) == ",567.5";
    assert DigitRun(s, 3) == 4;
    assert InsertFrom(s, 3) == "4,567.5";
    assert DigitRun(s, 2) == 5;
    assert InsertFrom(s, 2) == "34,567.5";
    assert DigitRun(s, 1) == 6;
    assert InsertFrom(s, 1) == ",234,567.5";
    assert DigitRun(s, 0) == 7;
    assert InsertFrom(s, 0) == "1,234,567.5";
  }

  lemma FormatsFractionalDigits()
    ensures NumberWithCommas("0.12345") == "0.12,345"
  {
    var s := "0.12345";
    assert DigitRun(s, 6) == 1;
    assert InsertFrom(s, 6) == "5";
    assert DigitRun(s, 5) == 2;
    assert InsertFrom(s, 5) == "45";
    assert DigitRun(s, 4) == 3;
    assert InsertFrom(s, 4) == ",345";
    assert DigitRun(s, 3) == 4;
    assert InsertFrom(s, 3) == "2,345";
    assert DigitRun(s, 2) == 5;
    assert InsertFrom(s, 2) == "12,345";
    assert DigitRun(s, 1) == 0;
    assert InsertFrom(s, 1) == ".12,345";
    assert DigitRun(s, 0) == 1;
    assert InsertFrom(s, 0) == "0.12,345";
  }
}
