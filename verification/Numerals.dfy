/** Numbers in texts: what `std::from_chars` reads, and what a printer writes. */
module Numerals {
  import opened Basics
  import opened HttpSyntax

  const DIGITS := "0123456789abcdef"

  /** The two bases the server uses. */
  datatype Base = Decimal | Hexadecimal {
    function Size(): nat {
      if Decimal? then 10 else 16
    }

    function Times(n: nat): nat {
      if Decimal? then 10 * n else 16 * n
    }

    function Over(n: nat): nat {
      if Decimal? then n / 10 else n / 16
    }

    function Rest(n: nat): (d: nat)
      ensures d < Size()
    {
      if Decimal? then n % 10 else n % 16
    }
  }

  function DigitValue(c: char): (v: nat)
    requires IsHexDigit(c)
    ensures v < 16
  {
    if IsDigit(c) then c as int - '0' as int
    else if 'A' <= c <= 'F' then c as int - 'A' as int + 10
    else c as int - 'a' as int + 10
  }

  predicate AllDigits(base: Base, s: string) {
    forall i :: 0 <= i < |s| ==> IsHexDigit(s[i]) && DigitValue(s[i]) < base.Size()
  }

  function Value(base: Base, s: string): nat
    requires AllDigits(base, s)
  {
    if s == "" then 0 else base.Times(Value(base, s[..|s| - 1])) + DigitValue(s[|s| - 1])
  }

  function Printed(base: Base, n: nat): string {
    if n < base.Size() then [DIGITS[n]] else Printed(base, base.Over(n)) + [DIGITS[base.Rest(n)]]
  }

  function Zeros(n: nat): (s: string)
    ensures |s| == n
  {
    seq(n, _ => '0')
  }

  /** The text writes the number: in either case, with any number of leading zeros. */
  ghost predicate Denotes(base: Base, text: string, n: nat) {
    exists zeros: nat :: LowerAll(text) == Zeros(zeros) + Printed(base, n)
  }

  // ---- Single digits ----

  /** A digit is worth its place among the digits, in either case. */
  lemma DigitIsPlace(c: char)
    requires IsHexDigit(c)
    ensures DIGITS[DigitValue(c)] == Lower(c)
  {
    assert DIGITS[0..10] == "0123456789" && DIGITS[10..] == "abcdef";
  }

  lemma PlaceIsDigit(v: nat)
    requires v < 16
    ensures IsHexDigit(DIGITS[v]) && DigitValue(DIGITS[v]) == v && Lower(DIGITS[v]) == DIGITS[v]
    ensures v < 10 <==> IsDigit(DIGITS[v])
  {
    assert DIGITS == "0123456789abcdef";
  }

  lemma LowerDigit(c: char)
    ensures IsHexDigit(Lower(c)) <==> IsHexDigit(c)
    ensures IsHexDigit(c) ==> DigitValue(Lower(c)) == DigitValue(c)
  {
  }

  // ---- Reading what was written ----

  lemma ValueSnoc(base: Base, s: string, c: char)
    requires AllDigits(base, s + [c])
    ensures AllDigits(base, s) && IsHexDigit(c) && Value(base, s + [c]) == base.Times(Value(base, s)) + DigitValue(c)
  {
    assert (s + [c])[..|s|] == s && (s + [c])[|s|] == c;
    assert forall i :: 0 <= i < |s| ==> (s + [c])[i] == s[i];
  }

  /** Case makes no difference. */
  lemma {:induction false} LowerValue(base: Base, s: string)
    ensures AllDigits(base, LowerAll(s)) <==> AllDigits(base, s)
    ensures AllDigits(base, s) ==> Value(base, LowerAll(s)) == Value(base, s)
    decreases |s|
  {
    forall i | 0 <= i < |s| ensures
        (IsHexDigit(LowerAll(s)[i]) <==> IsHexDigit(s[i])) &&
        (IsHexDigit(s[i]) ==> DigitValue(LowerAll(s)[i]) == DigitValue(s[i]))
    {
      LowerDigit(s[i]);
    }
    if s != "" && AllDigits(base, s) {
      var init := s[..|s| - 1];
      LowerValue(base, init);
      assert LowerAll(s)[..|s| - 1] == LowerAll(init);
    }
  }

  lemma LastDigit(base: Base, n: nat)
    ensures base.Times(base.Over(n)) + base.Rest(n) == n
    ensures n >= base.Size() ==> Printed(base, n) == Printed(base, base.Over(n)) + [DIGITS[base.Rest(n)]]
    ensures n < base.Size() ==> Printed(base, n) == [DIGITS[n]] && base.Rest(n) == n
  {
  }

  /** Putting a digit behind digits. */
  lemma DigitsSnoc(base: Base, s: string, d: nat)
    requires AllDigits(base, s) && d < base.Size()
    ensures AllDigits(base, s + [DIGITS[d]]) && Value(base, s + [DIGITS[d]]) == base.Times(Value(base, s)) + d
  {
    PlaceIsDigit(d);
    ValueSnoc(base, s, DIGITS[d]);
  }

  lemma {:induction false} PrintedReads(base: Base, n: nat)
    ensures AllDigits(base, Printed(base, n)) && Value(base, Printed(base, n)) == n && Printed(base, n) != ""
  {
    LastDigit(base, n);
    if n < base.Size() {
      DigitsSnoc(base, "", n);
      assert "" + [DIGITS[n]] == [DIGITS[n]];
    } else {
      PrintedReads(base, base.Over(n));
      DigitsSnoc(base, Printed(base, base.Over(n)), base.Rest(n));
    }
  }

  /** Leading zeros make no difference. */
  lemma ZerosAreDigits(base: Base, zeros: nat, s: string)
    ensures AllDigits(base, Zeros(zeros) + s) <==> AllDigits(base, s)
  {
    var whole := Zeros(zeros) + s;
    assert forall i :: 0 <= i < |s| ==> whole[zeros + i] == s[i];
    assert forall i :: 0 <= i < |whole| ==> whole[i] == if i < zeros then '0' else s[i - zeros];
  }

  lemma {:induction false} ZerosRead(base: Base, zeros: nat, s: string)
    requires AllDigits(base, s) && AllDigits(base, Zeros(zeros) + s)
    ensures Value(base, Zeros(zeros) + s) == Value(base, s)
    decreases |s|, zeros
  {
    var whole := Zeros(zeros) + s;
    if s != "" {
      var init, c := s[..|s| - 1], s[|s| - 1];
      assert s == init + [c] && whole == (Zeros(zeros) + init) + [c];
      ValueSnoc(base, init, c);
      ValueSnoc(base, Zeros(zeros) + init, c);
      ZerosRead(base, zeros, init);
    } else if zeros > 0 {
      assert whole == (Zeros(zeros - 1) + "") + ['0'];
      ValueSnoc(base, Zeros(zeros - 1) + "", '0');
      ZerosRead(base, zeros - 1, "");
    }
  }

  // ---- Writing what was read ----

  lemma PrintedSnoc(base: Base, n: nat, d: nat)
    requires n > 0 && d < base.Size()
    ensures Printed(base, base.Times(n) + d) == Printed(base, n) + [DIGITS[d]]
  {
    assert base.Over(base.Times(n) + d) == n && base.Rest(base.Times(n) + d) == d;
  }

  lemma LowerSnoc(s: string, c: char)
    ensures LowerAll(s + [c]) == LowerAll(s) + [Lower(c)]
  {
  }

  /** One more digit of a written number. */
  lemma WrittenSnoc(base: Base, zeros: nat, v: nat, d: nat) returns (more: nat)
    requires d < base.Size()
    ensures Zeros(zeros) + Printed(base, v) + [DIGITS[d]] == Zeros(more) + Printed(base, base.Times(v) + d)
  {
    if v > 0 {
      PrintedSnoc(base, v, d);
      more := zeros;
      Associative(Zeros(zeros), Printed(base, v), [DIGITS[d]]);
    } else {
      more := zeros + 1;
      assert Zeros(zeros) + "0" == Zeros(more);
      assert Printed(base, 0) == "0" && Printed(base, d) == [DIGITS[d]];
    }
  }

  /** One more digit read is one more digit written. */
  lemma ReadSnoc(base: Base, init: string, c: char, zeros: nat) returns (more: nat)
    requires AllDigits(base, init + [c]) && AllDigits(base, init)
    requires init != "" ==> LowerAll(init) == Zeros(zeros) + Printed(base, Value(base, init))
    ensures LowerAll(init + [c]) == Zeros(more) + Printed(base, Value(base, init + [c]))
  {
    ValueSnoc(base, init, c);
    DigitIsPlace(c);
    LowerSnoc(init, c);
    if init == "" {
      more := 0;
      assert Printed(base, DigitValue(c)) == [Lower(c)];
      assert LowerAll("") + [Lower(c)] == Zeros(0) + [Lower(c)];
    } else {
      more := WrittenSnoc(base, zeros, Value(base, init), DigitValue(c));
    }
  }

  lemma {:induction false} ReadIsWritten(base: Base, s: string) returns (zeros: nat)
    requires s != "" && AllDigits(base, s)
    ensures LowerAll(s) == Zeros(zeros) + Printed(base, Value(base, s))
    decreases |s|
  {
    var init, c := s[..|s| - 1], s[|s| - 1];
    assert s == init + [c];
    zeros := 0;
    if init != "" {
      zeros := ReadIsWritten(base, init);
    }
    zeros := ReadSnoc(base, init, c, zeros);
  }

  /** A text reads as a number exactly when that number can be written so. */
  lemma ReadsExactly(base: Base, text: string, n: nat)
    ensures text != "" && AllDigits(base, text) && Value(base, text) == n <==> Denotes(base, text, n)
  {
    if Denotes(base, text, n) {
      var zeros: nat :| LowerAll(text) == Zeros(zeros) + Printed(base, n);
      PrintedReads(base, n);
      ZerosAreDigits(base, zeros, Printed(base, n));
      ZerosRead(base, zeros, Printed(base, n));
      LowerValue(base, text);
    } else if text != "" && AllDigits(base, text) && Value(base, text) == n {
      var zeros := ReadIsWritten(base, text);
      assert LowerAll(text) == Zeros(zeros) + Printed(base, n);
    }
  }

  /** Different numbers are written differently. */
  lemma PrintedOnce(base: Base, m: nat, n: nat)
    requires Printed(base, m) == Printed(base, n)
    ensures m == n
  {
    PrintedReads(base, m);
    PrintedReads(base, n);
  }
}
