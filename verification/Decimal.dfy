/** Printing an `int`: `to_String`. */
module Decimal {
  import opened Wrappers
  import opened CInt

  function Digit(d: int): char
    requires 0 <= d < 10
  {
    d as char + '0'
  }

  /** The decimal digits of `m`, most significant first; none for zero. */
  function Digits(m: nat): (r: string)
    ensures m > 0 ==> r != []
  {
    if m == 0 then "" else Digits(m / 10) + [Digit(m % 10)]
  }

  /** What `to_String` prints; negating INT_MIN wraps around to INT_MIN. */
  function Text(n: int): string {
    var m := if n < 0 then ToInt32(-n) else n;
    (if n < 0 then "-" else "") + if m > 0 then Digits(m) else ""
  }

  predicate IsDigit(c: char) {
    '0' <= c <= '9'
  }

  predicate AllDigits(s: string) {
    forall i :: 0 <= i < |s| ==> IsDigit(s[i])
  }

  /** The value of a string of digits. */
  function DigitsValue(s: string): nat
    requires AllDigits(s)
  {
    if s == "" then 0
    else
      assert IsDigit(s[|s| - 1]);
      DigitsValue(s[..|s| - 1]) * 10 + (s[|s| - 1] as int - '0' as int)
  }

  /** Decimal parsing: an optional sign and at least one digit. */
  function Parse(s: string): Option<int> {
    if s != "" && s[0] == '-' then
      if |s| > 1 && AllDigits(s[1..]) then Some(-(DigitsValue(s[1..]) as int)) else None
    else if s != "" && AllDigits(s) then Some(DigitsValue(s))
    else None
  }

  lemma {:induction false} DigitsAreDigits(m: nat)
    ensures AllDigits(Digits(m)) && DigitsValue(Digits(m)) == m
  {
    if m > 0 {
      DigitsAreDigits(m / 10);
      assert Digits(m)[..|Digits(m)| - 1] == Digits(m / 10);
      assert Digit(m % 10) as int - '0' as int == m % 10;
    }
  }

  function Pow10(k: nat): nat {
    if k == 0 then 1 else 10 * Pow10(k - 1)
  }

  lemma {:induction false} DigitsLength(m: nat, k: nat)
    requires m < Pow10(k)
    ensures |Digits(m)| <= k
  {
    if m > 0 {
      DigitsLength(m / 10, k - 1);
    }
  }

  lemma ParsePositive(m: nat)
    requires m > 0
    ensures Parse(Digits(m)) == Some(m)
  {
    DigitsAreDigits(m);
    assert IsDigit(Digits(m)[0]);
  }

  lemma ParseNegative(m: int)
    requires m > 0
    ensures Parse("-" + Digits(m)) == Some(-m)
  {
    DigitsAreDigits(m);
    assert ("-" + Digits(m))[1..] == Digits(m);
  }

  lemma {:induction false} NoLeadingZero(m: nat)
    requires m > 0
    ensures Digits(m)[0] != '0'
  {
    if m >= 10 {
      NoLeadingZero(m / 10);
    }
  }

  lemma PositiveText(n: int)
    requires 0 < n <= INT_MAX
    ensures Text(n) == Digits(n)
  {
  }

  /** The form of the text: nothing for 0, and otherwise a sign exactly for negative numbers and digits that
      do not begin with 0, none for INT_MIN; the digits of a negative number are those of its negation. */
  lemma TextForm(n: int)
    requires IsInt(n)
    ensures Text(0) == "" && Text(INT_MIN) == "-"
    ensures n > 0 ==> Text(n) != "" && Text(n)[0] != '0' && AllDigits(Text(n)) && DigitsValue(Text(n)) == n
    ensures INT_MIN < n < 0 ==> Text(n) == "-" + Text(-n)
  {
    if n > 0 {
      PositiveText(n);
      NoLeadingZero(n);
      DigitsAreDigits(n);
    } else if INT_MIN < n < 0 {
      PositiveText(-n);
    }
  }

  /** Parsing undoes printing for every `int` but 0, printed as nothing, and INT_MIN, printed as a sign. */
  lemma ParseUndoesTextIff(n: int)
    requires IsInt(n)
    ensures Parse(Text(n)) == Some(n) <==> n != 0 && n != INT_MIN
  {
    if n > 0 {
      ParsePositive(n);
      assert "" + Digits(n) == Digits(n);
    } else if INT_MIN < n < 0 {
      ParseNegative(-n);
    } else if n == INT_MIN {
      assert Text(n) == "-";
    }
  }

  /** No two values of `int` print alike. */
  lemma TextIsInjective(a: int, b: int)
    requires IsInt(a) && IsInt(b) && Text(a) == Text(b)
    ensures a == b
  {
    ParseUndoesTextIff(a);
    ParseUndoesTextIff(b);
    assert Text(0) == "" && Text(INT_MIN) == "-";
  }

  /** The attribute keys of the layout table never collide. */
  lemma KeysAreDistinct(a: int, b: int)
    requires IsInt(a) && IsInt(b) && "tabId" + Text(a) == "tabId" + Text(b)
    ensures a == b
  {
    assert ("tabId" + Text(a))[5..] == Text(a) && ("tabId" + Text(b))[5..] == Text(b);
    TextIsInjective(a, b);
  }

  lemma TenDigits(n: nat)
    requires n <= INT_MAX
    ensures |Digits(n)| <= 10
  {
    assert n < Pow10(10);
    DigitsLength(n, 10);
  }

  function Reversed(s: string): (r: string)
    ensures |r| == |s| && forall i :: 0 <= i < |s| ==> r[i] == s[|s| - 1 - i]
  {
    seq(|s|, i requires 0 <= i < |s| => s[|s| - 1 - i])
  }

  lemma ReversedAppend(s: string, c: char)
    ensures Reversed(s + [c]) == [c] + Reversed(s)
  {
  }

  lemma ReversedTwice(s: string)
    ensures Reversed(Reversed(s)) == s
  {
  }

  lemma UndoReversed(r: string, s: string)
    requires r == Reversed(s)
    ensures Reversed(r) == s
  {
    ReversedTwice(s);
  }

  /** The first loop: the digits of `n` into `s`, least significant first. */
  method PutDigits(n: nat, s: array<char>) returns (i: nat)
    requires n <= INT_MAX && s.Length == 100
    modifies s
    ensures i <= 10 && s[..i] == Reversed(Digits(n))
  {
    TenDigits(n);
    var m := n;
    i := 0;
    while m > 0
      invariant i <= |Digits(n)| <= 10 && Digits(n) == Digits(m) + Reversed(s[..i])
    {
      ReversedAppend(s[..i], Digit(m % 10));
      s[i] := Digit(m % 10);
      assert s[..i + 1] == s[..i] + [Digit(m % 10)];
      i := i + 1;
      m := m / 10;
    }
    ReversedTwice(s[..i]);
  }

  /** The second loop: the first `count` characters of `s` reversed behind the first `start` of `ss`. */
  method PutReversed(s: array<char>, count: nat, ss: array<char>, start: nat) returns (j: nat)
    requires s != ss && s.Length == ss.Length == 100 && count <= 10 && start <= 1
    modifies ss
    ensures j == start + count && ss[..j] == old(ss[..start]) + Reversed(s[..count])
  {
    j := start;
    var i := count - 1;
    ghost var r := Reversed(s[..count]);
    while i >= 0
      invariant -1 <= i < count && j == start + count - 1 - i
      invariant ss[..j] == old(ss[..start]) + r[..j - start]
    {
      assert r[..j - start + 1] == r[..j - start] + [s[i]];
      ss[j] := s[i];
      assert ss[..j + 1] == ss[..j] + [s[i]];
      j := j + 1;
      i := i - 1;
    }
  }

  /** Both loops stay inside the buffers, terminators included. */
  method ToString(n: int) returns (text: string)
    requires IsInt(n)
    ensures text == Text(n)
  {
    var m := n;
    var s := new char[100];
    var ss := new char[100];
    var i, j := 0, 0;
    if n < 0 {
      m := ToInt32(0 - m);
      j := 1;
      ss[0] := '-';
    }
    ghost var sign := ss[..j];
    ghost var body := if m > 0 then Digits(m) else "";
    if m > 0 {
      i := PutDigits(m, s);
    }
    assert s[..i] == Reversed(body);
    s[i] := '\0';
    assert s[..i] == Reversed(body);
    UndoReversed(s[..i], body);
    j := PutReversed(s, i, ss, j);
    assert ss[..j] == sign + body;
    ss[j] := '\0';
    text := ss[..j];
  }
}
