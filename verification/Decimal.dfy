/** Decimal text: `int(text)` and `str(number)`. */
module Decimal {
  import opened Prelude
  import opened PyText

  predicate IsDigit(c: char) {
    '0' <= c <= '9'
  }

  predicate AllDigits(s: string) {
    forall i :: 0 <= i < |s| ==> IsDigit(s[i])
  }

  predicate Digits(s: string) {
    s != "" && AllDigits(s)
  }

  function DigitValue(c: char): nat {
    if IsDigit(c) then c as int - '0' as int else 0
  }

  function DigitsValue(s: string): nat {
    if s == "" then 0 else 10 * DigitsValue(s[..|s| - 1]) + DigitValue(s[|s| - 1])
  }

  /** Decimal, most significant digit first. */
  lemma DigitsAreDecimal(s: string, i: nat)
    requires i < 10
    ensures DigitsValue("") == 0
    ensures DigitsValue(s + ["0123456789"[i]]) == 10 * DigitsValue(s) + i
  {
    assert (s + ["0123456789"[i]])[..|s|] == s;
  }

  function DigitChar(d: nat): (c: char)
    requires d < 10
    ensures IsDigit(c) && DigitValue(c) == d
  {
    ('0' as int + d) as char
  }

  /** `str(n)` for a natural number. */
  function Str(n: nat): (s: string)
    ensures Digits(s)
  {
    if n < 10 then [DigitChar(n)] else Str(n / 10) + [DigitChar(n % 10)]
  }

  function StrInt(n: int): string {
    if n < 0 then "-" + Str(-n) else Str(n)
  }

  /** Digits with single underscores between them. */
  predicate IntBody(s: string) {
    && s != "" && IsDigit(s[0]) && IsDigit(s[|s| - 1])
    && (forall i :: 0 <= i < |s| ==> IsDigit(s[i]) || s[i] == '_')
    && (forall i :: 0 <= i < |s| - 1 ==> IsDigit(s[i]) || IsDigit(s[i + 1]))
  }

  function DropUnderscores(s: string): string {
    if s == "" then ""
    else
      var init := DropUnderscores(s[..|s| - 1]);
      if s[|s| - 1] == '_' then init else init + [s[|s| - 1]]
  }

  /** `int(s)`, None for ValueError. */
  function PyInt(s: string): Option<int> {
    var t := Strip(s);
    var signed := t != "" && (t[0] == '+' || t[0] == '-');
    var body := if signed then t[1..] else t;
    if !IntBody(body) then None
    else
      var n: int := DigitsValue(DropUnderscores(body));
      Some(if signed && t[0] == '-' then -n else n)
  }

  lemma {:induction false} DigitsHaveNoUnderscores(s: string)
    requires AllDigits(s)
    ensures DropUnderscores(s) == s
  {
    if s != "" {
      DigitsHaveNoUnderscores(s[..|s| - 1]);
      assert s == s[..|s| - 1] + [s[|s| - 1]];
    }
  }

  lemma DigitsAreALiteral(s: string)
    requires Digits(s)
    ensures IntBody(s) && s[0] != '+' && s[0] != '-' && !IsSpace(s[0]) && !IsSpace(s[|s| - 1])
  {
    assert IsDigit(s[0]) && IsDigit(s[|s| - 1]);
  }

  lemma {:induction false} PyIntOfDigits(s: string)
    requires Digits(s)
    ensures PyInt(s) == Some(DigitsValue(s))
  {
    hide Strip, DropUnderscores, DigitsValue, IntBody, AllDigits, IsSpace;
    DigitsAreALiteral(s);
    DigitsHaveNoUnderscores(s);
    StripNothing(s);
  }

  /** No leading zero, except in the text of zero itself. */
  predicate Minimal(s: string) {
    s != "" && (s[0] == '0' ==> s == "0")
  }

  lemma {:induction false} StrReadsBack(n: nat)
    ensures DigitsValue(Str(n)) == n && Minimal(Str(n)) && (Str(n)[0] == '0' ==> n == 0)
  {
    if n < 10 {
      assert Str(n)[..0] == "";
    } else {
      StrReadsBack(n / 10);
      assert Str(n)[..|Str(n)| - 1] == Str(n / 10);
    }
  }

  /** `int(str(n)) == n` */
  lemma PyIntOfStrInt(n: int)
    ensures PyInt(StrInt(n)) == Some(n)
  {
    hide Strip, DropUnderscores, DigitsValue, Str, IntBody, Digits, AllDigits;
    if n >= 0 {
      StrReadsBack(n);
      PyIntOfDigits(Str(n));
    } else {
      NegativeReadsBack(-n);
    }
  }

  lemma NegativeReadsBack(n: int)
    requires n > 0
    ensures PyInt("-" + Str(n)) == Some(-n)
  {
    hide Strip, DropUnderscores, DigitsValue, Str, IntBody, AllDigits;
    var body := Str(n);
    StrReadsBack(n);
    DigitsHaveNoUnderscores(body);
    DigitsAreALiteral(body);
    MinusStays(body);
  }

  lemma MinusStays(body: string)
    requires body != "" && !IsSpace(body[|body| - 1])
    ensures var t := "-" + body; t[0] == '-' && t[1..] == body && Strip(t) == t
  {
    hide Strip;
    var t := "-" + body;
    assert t[|t| - 1] == body[|body| - 1];
    StripNothing(t);
  }

  predicate Sign(s: string) {
    s == "" || s == "+" || s == "-"
  }

  function SignedValue(sign: string, body: string): int {
    var n: int := DigitsValue(DropUnderscores(body));
    if sign == "-" then -n else n
  }

  /** An integer literal between blanks reads as its value. */
  lemma PyIntOfLiteral(before: string, sign: string, body: string, after: string)
    requires AllSpace(before) && Sign(sign) && IntBody(body) && AllSpace(after)
    ensures PyInt(before + (sign + body) + after) == Some(SignedValue(sign, body))
  {
    hide Strip, DropUnderscores, DigitsValue, AllSpace;
    LiteralEnds(sign, body);
    StripPadding(before, sign + body, after);
    hide IntBody;
  }

  lemma LiteralEnds(sign: string, body: string)
    requires Sign(sign) && IntBody(body)
    ensures var t := sign + body;
            && t != "" && !IsSpace(t[0]) && !IsSpace(t[|t| - 1]) && t[0] != 'A' && t[0] != 'a'
            && (sign == "" ==> t == body && t[0] != '+' && t[0] != '-')
            && (sign != "" ==> t[0] == sign[0] && t[1..] == body)
  {
    var t := sign + body;
    assert t[|t| - 1] == body[|body| - 1] && IsDigit(body[0]) && IsDigit(body[|body| - 1]);
  }

  /** And every text that `int` accepts is an integer literal between blanks. */
  lemma PyIntReadsLiterals(s: string) returns (before: string, sign: string, body: string, after: string)
    requires PyInt(s).Some?
    ensures AllSpace(before) && Sign(sign) && IntBody(body) && AllSpace(after)
    ensures s == before + (sign + body) + after
  {
    before, after := StripTakesOff(s);
    var t := Strip(s);
    hide Strip, DropUnderscores, DigitsValue;
    if t[0] == '+' || t[0] == '-' {
      sign, body := t[..1], t[1..];
    } else {
      sign, body := "", t;
    }
    assert t == sign + body;
  }

  // ---------------------------------------------------------------- literals with underscores

  lemma CutAtUnderscore(s: string, i: nat)
    requires i < |s| && s[i] == '_' && forall k :: 0 <= k < i ==> s[k] != '_'
    ensures IntBody(s) <==> Digits(s[..i]) && IntBody(s[i + 1..])
  {
    var head, tail := s[..i], s[i + 1..];
    assert forall k :: 0 <= k < |tail| ==> tail[k] == s[i + 1 + k];
    if Digits(head) && IntBody(tail) {
      assert head[0] == s[0] && tail[|tail| - 1] == s[|s| - 1];
      forall k | 0 <= k < |s| - 1
        ensures IsDigit(s[k]) || IsDigit(s[k + 1])
      {
        if k < i {
          assert head[k] == s[k];
        } else {
          assert k > i ==> tail[k - i - 1] == s[k] && tail[k - i] == s[k + 1];
          assert tail[0] == s[i + 1];
        }
      }
    }
    if IntBody(s) {
      WholeGivesParts(s, i);
    }
  }

  lemma WholeGivesParts(s: string, i: nat)
    requires IntBody(s) && i < |s| && s[i] == '_' && forall k :: 0 <= k < i ==> s[k] != '_'
    ensures Digits(s[..i]) && IntBody(s[i + 1..])
  {
    var head, tail := s[..i], s[i + 1..];
    assert i > 0 && i < |s| - 1 && IsDigit(s[i + 1]);
    assert forall k :: 0 <= k < |tail| ==> tail[k] == s[i + 1 + k];
    assert tail[|tail| - 1] == s[|s| - 1];
    forall k | 0 <= k < |tail| - 1
      ensures IsDigit(tail[k]) || IsDigit(tail[k + 1])
    {
      assert IsDigit(s[i + 1 + k]) || IsDigit(s[i + 1 + k + 1]);
    }
  }

  lemma FirstGroup(group: string, rest: seq<string>)
    ensures var all := [group] + rest;
            (forall k :: 0 <= k < |all| ==> Digits(all[k])) <==> Digits(group) && forall k :: 0 <= k < |rest| ==> Digits(rest[k])
  {
    hide Digits;
    var all := [group] + rest;
    assert all[0] == group && forall k :: 0 <= k < |rest| ==> rest[k] == all[k + 1];
  }

  /** An integer literal is digits, or groups of digits with one underscore between two of them. */
  lemma {:induction false} LiteralIsGroupsOfDigits(s: string)
    ensures IntBody(s) <==> forall k :: 0 <= k < |Split(s, '_')| ==> Digits(Split(s, '_')[k])
    decreases |s|
  {
    var i := IndexOf(s, '_');
    if i < |s| {
      CutAtUnderscore(s, i);
      LiteralIsGroupsOfDigits(s[i + 1..]);
      assert Split(s, '_') == [s[..i]] + Split(s[i + 1..], '_');
      FirstGroup(s[..i], Split(s[i + 1..], '_'));
    } else {
      assert Split(s, '_') == [s] && Split(s, '_')[0] == s;
      assert IntBody(s) <==> Digits(s);
    }
  }

  /** The digits that count are all but the underscores, in order. */
  lemma {:induction false} UnderscoresDropOut(a: string, b: string, c: char)
    ensures DropUnderscores(a + b) == DropUnderscores(a) + DropUnderscores(b)
    ensures DropUnderscores([c]) == if c == '_' then "" else [c]
    decreases |b|
  {
    assert [c][..0] == "";
    if b == "" {
      assert a + b == a;
    } else {
      UnderscoresDropOut(a, b[..|b| - 1], c);
      assert (a + b)[..|a + b| - 1] == a + b[..|b| - 1];
    }
  }
}
