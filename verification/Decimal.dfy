/** Decimal integers as the program prints them (`%d`, `strconv.Itoa`, `${n}`)
    and reads them back (`strconv.ParseInt(s, 10, 64)`, `strconv.Atoi`). */
module Decimal {
  import opened Wrappers

  const MIN_INT64: int := -0x8000_0000_0000_0000
  const MAX_INT64: int := 0x7fff_ffff_ffff_ffff

  predicate IsDigit(c: char) {
    '0' <= c <= '9'
  }

  predicate AllDigits(s: string) {
    forall i | 0 <= i < |s| :: IsDigit(s[i])
  }

  function DigitChar(d: nat): char
    requires d < 10
  {
    '0' + d as char
  }

  function Digits(n: nat): string {
    if n < 10 then [DigitChar(n)] else Digits(n / 10) + [DigitChar(n % 10)]
  }

  function Format(n: int): string {
    if n < 0 then "-" + Digits(-n) else Digits(n)
  }

  function Value(s: string): nat
    requires AllDigits(s)
  {
    if s == "" then 0 else 10 * Value(s[..|s| - 1]) + (s[|s| - 1] as int - '0' as int)
  }

  /** One optional sign, at least one digit, and a value that fits 64 bits. */
  function Parse(s: string): Option<int> {
    var negative := s != "" && s[0] == '-';
    var body := if s != "" && (s[0] == '-' || s[0] == '+') then s[1..] else s;
    if body == "" || !AllDigits(body) then None
    else
      var v: int := Value(body);
      var n := if negative then -v else v;
      if MIN_INT64 <= n <= MAX_INT64 then Some(n) else None
  }

  lemma {:induction false} DigitsValue(n: nat)
    ensures Digits(n) != "" && AllDigits(Digits(n)) && Value(Digits(n)) == n
  {
    if n >= 10 {
      DigitsValue(n / 10);
      assert Digits(n)[..|Digits(n)| - 1] == Digits(n / 10);
    } else {
      assert Digits(n)[..0] == "";
    }
  }

  lemma {:induction false} FormatHasNoColon(n: int)
    ensures Format(n) != ""
    ensures forall i | 0 <= i < |Format(n)| :: IsDigit(Format(n)[i]) || (i == 0 && Format(n)[i] == '-')
    ensures IsDigit(Format(n)[0]) <==> n >= 0
  {
    DigitsValue(if n < 0 then -n else n);
  }

  /** Every 64-bit integer survives printing and parsing; no other integer is accepted back. */
  lemma {:induction false} ParseFormat(n: int)
    ensures Parse(Format(n)) == if MIN_INT64 <= n <= MAX_INT64 then Some(n) else None
  {
    hide Digits;
    hide Value;
    DigitsValue(if n < 0 then -n else n);
    if n < 0 {
      assert Format(n)[1..] == Digits(-n);
    } else {
      assert IsDigit(Digits(n)[0]);
    }
  }

  function Zeros(k: nat): string {
    if k == 0 then "" else Zeros(k - 1) + "0"
  }

  lemma {:induction false} ZerosValue(k: nat, n: nat)
    ensures AllDigits(Zeros(k) + Digits(n)) && Zeros(k) + Digits(n) != "" && Value(Zeros(k) + Digits(n)) == n
    decreases n, k
  {
    var s := Zeros(k) + Digits(n);
    DigitsValue(n);
    if n >= 10 {
      ZerosValue(k, n / 10);
      assert s[..|s| - 1] == Zeros(k) + Digits(n / 10);
    } else if k > 0 {
      ZerosValue(k - 1, 0);
      assert s[..|s| - 1] == Zeros(k - 1) + Digits(0);
    } else {
      assert s == Digits(n) && s[..0] == "";
    }
  }

  lemma OneMoreDigit(k: nat, v: nat, d: nat)
    requires d < 10
    ensures Zeros(k) + Digits(v) + [DigitChar(d)]
            == if v == 0 then Zeros(k + 1) + Digits(d) else Zeros(k) + Digits(10 * v + d)
  {
    if v == 0 {
      assert Digits(0) == "0" && Digits(d) == [DigitChar(d)];
      assert Zeros(k + 1) == Zeros(k) + "0";
    } else {
      assert (10 * v + d) / 10 == v && (10 * v + d) % 10 == d;
      assert Digits(10 * v + d) == Digits(v) + [DigitChar(d)];
    }
  }

  /** Any digits are a printed number, up to leading zeros. */
  lemma {:induction false} DigitsAre(s: string) returns (k: nat)
    requires AllDigits(s) && s != ""
    ensures s == Zeros(k) + Digits(Value(s))
  {
    var init := s[..|s| - 1];
    var d := s[|s| - 1] as int - '0' as int;
    assert s == init + [DigitChar(d)];
    if init == "" {
      k := 0;
      assert Value(init) == 0;
    } else {
      k := DigitsAre(init);
      OneMoreDigit(k, Value(init), d);
      hide Digits;
      hide Zeros;
      if Value(init) == 0 {
        k := k + 1;
      }
    }
  }

  /** A sign or none, leading zeros, and the digits of a number. */
  ghost predicate SpelledBy(s: string, n: int, sign: string, k: nat) {
    && s == sign + (Zeros(k) + Digits(if n < 0 then -n else n))
    && ((sign == "-" && n <= 0) || ((sign == "" || sign == "+") && n >= 0))
  }

  ghost predicate Spells(s: string, n: int) {
    exists sign, k :: SpelledBy(s, n, sign, k)
  }

  lemma BodyParses(sign: string, body: string)
    requires AllDigits(body) && body != "" && (sign == "" || sign == "+" || sign == "-")
    ensures var v: int := Value(body);
            var n := if sign == "-" then -v else v;
            Parse(sign + body) == if MIN_INT64 <= n <= MAX_INT64 then Some(n) else None
  {
    hide Value;
    var s := sign + body;
    assert IsDigit(body[0]);
    if sign == "" {
      assert s == body;
    } else {
      assert s[0] == sign[0] && s[1..] == body;
    }
  }

  lemma SpelledParses(s: string, n: int, sign: string, k: nat)
    requires SpelledBy(s, n, sign, k)
    ensures Parse(s) == if MIN_INT64 <= n <= MAX_INT64 then Some(n) else None
  {
    var m := if n < 0 then -n else n;
    var body := Zeros(k) + Digits(m);
    ZerosValue(k, m);
    hide Digits;
    hide Zeros;
    hide Value;
    BodyParses(sign, body);
    hide Parse;
  }

  lemma BodySpells(body: string, negative: bool, sign: string)
    requires AllDigits(body) && body != "" && (if negative then sign == "-" else sign == "" || sign == "+")
    ensures var v: int := Value(body); Spells(sign + body, if negative then -v else v)
  {
    var k := DigitsAre(body);
    var v: int := Value(body);
    hide Digits;
    hide Zeros;
    hide Value;
    assert SpelledBy(sign + body, if negative then -v else v, sign, k);
  }

  /** A text is read as a number exactly when it spells the number and that fits 64 bits. */
  lemma ParseExactly(s: string, n: int)
    ensures Parse(s) == Some(n) <==> Spells(s, n) && MIN_INT64 <= n <= MAX_INT64
  {
    if Parse(s) == Some(n) {
      if s[0] == '-' {
        assert s == "-" + s[1..];
        BodySpells(s[1..], true, "-");
      } else if s[0] == '+' {
        assert s == "+" + s[1..];
        BodySpells(s[1..], false, "+");
      } else {
        assert s == "" + s;
        BodySpells(s, false, "");
      }
    }
    if Spells(s, n) {
      var sign, k :| SpelledBy(s, n, sign, k);
      SpelledParses(s, n, sign, k);
    }
  }
}
