/** esp_strtol: the value of a number in text, clamped to 32 bits. */
module HttpStrtol {
  import opened Numerals

  const LONG_MAX: int := 0x7FFF_FFFF
  const LONG_MIN: int := -0x8000_0000

  /** An unsigned long: no value may leave it. */
  newtype Ulong = x: int | 0 <= x < 0x1_0000_0000

  function At(t: string): char {
    if t == "" then '\0' else t[0]
  }

  predicate IsSpace(c: char) {
    c == ' ' || c == '\t' || c == '\n'
  }

  /** The digit a character is, in bases up to 36. */
  function Digit(c: char): (d: int)
    ensures -1 <= d < 36
  {
    if '0' <= c <= '9' then c as int - '0' as int
    else if 'A' <= c <= 'Z' then c as int - 'A' as int + 10
    else if 'a' <= c <= 'z' then c as int - 'a' as int + 10
    else -1
  }

  function SkipSpaces(t: string): (r: string)
    ensures |r| <= |t|
  {
    if t != "" && IsSpace(t[0]) then SkipSpaces(t[1..]) else t
  }

  function SkipSign(t: string): (r: string)
    ensures |r| <= |t|
  {
    if At(t) == '-' || At(t) == '+' then t[1..] else t
  }

  /** A prefix that names the base. */
  predicate Prefixed(base: nat, t: string, b: nat, lower: char, upper: char) {
    (base == 0 || base == b) && |t| >= 2 && t[0] == '0' && (t[1] == lower || t[1] == upper)
  }

  /** The base the digits are in, and the digits. */
  function Base(base: nat, t: string): (r: (nat, string))
    ensures r.0 > 0 && |r.1| <= |t|
  {
    if Prefixed(base, t, 16, 'x', 'X') then (16, t[2..])
    else if Prefixed(base, t, 2, 'b', 'B') then (2, t[2..])
    else if base == 0 then (if At(t) == '0' then 8 else 10, t)
    else (base, t)
  }

  /** How many digits of the base t begins with. */
  function Digits(base: nat, t: string): (k: nat)
    ensures k <= |t| && forall i :: 0 <= i < k ==> 0 <= Digit(t[i]) < base
    ensures k < |t| ==> !(0 <= Digit(t[k]) < base)
  {
    if t != "" && 0 <= Digit(t[0]) < base then 1 + Digits(base, t[1..]) else 0
  }

  /** The number written by digits: the last counts one, the one before it the base, and so on. */
  function Value(base: nat, s: string): (n: nat)
    requires forall i :: 0 <= i < |s| ==> 0 <= Digit(s[i])
    decreases |s|
  {
    if s == "" then 0 else Value(base, s[..|s| - 1]) * base + Digit(s[|s| - 1])
  }

  function Clamp(n: int): int {
    if n < LONG_MIN then LONG_MIN else if n > LONG_MAX then LONG_MAX else n
  }

  /** The number at the front of t. */
  function Strtol(t: string, base: nat): int {
    var u := SkipSpaces(t);
    var (b, v) := Base(base, SkipSign(u));
    var n := Value(b, v[..Digits(b, v)]);
    Clamp(if At(u) == '-' then 0 - n else n)
  }

  /** What is left behind the number; all of t when there is none. */
  function EndOf(t: string, base: nat): string {
    var (b, v) := Base(base, SkipSign(SkipSpaces(t)));
    if Digits(b, v) > 0 then v[Digits(b, v)..] else t
  }

  // ---------------------------------------------------------------- numerals

  const LOWER: string := "0123456789abcdefghijklmnopqrstuvwxyz"
  const UPPER: string := "0123456789ABCDEFGHIJKLMNOPQRSTUVWXYZ"

  /** The characters spell these digits, each in lower or in upper case. */
  ghost predicate Spelt(ds: seq<nat>, s: string) {
    |s| == |ds| && forall i :: 0 <= i < |ds| ==> ds[i] < 36 && (s[i] == LOWER[ds[i]] || s[i] == UPPER[ds[i]])
  }

  lemma Decimals(d: nat)
    requires d < 10
    ensures LOWER[d] as int == '0' as int + d && UPPER[d] as int == '0' as int + d
  {
  }

  lemma Letters(d: nat)
    requires 10 <= d < 36
    ensures LOWER[d] as int == 'a' as int + d - 10
  {
  }

  lemma Capitals(d: nat)
    requires 10 <= d < 36
    ensures UPPER[d] as int == 'A' as int + d - 10
  {
  }

  /** Every digit below 36 is read as itself in either case, and nothing else is that digit. */
  lemma DigitIs(d: nat, c: char)
    requires d < 36
    ensures Digit(LOWER[d]) == d && Digit(UPPER[d]) == d
    ensures Digit(c) == d ==> c == LOWER[d] || c == UPPER[d]
  {
    var l, u := LOWER[d], UPPER[d];
    if d < 10 {
      Decimals(d);
    } else {
      Letters(d);
      Capitals(d);
    }
    DigitOf(d, c, l, u);
  }

  lemma DigitOf(d: nat, c: char, l: char, u: char)
    requires if d < 10 then l as int == '0' as int + d && u == l
             else d < 36 && l as int == 'a' as int + d - 10 && u as int == 'A' as int + d - 10
    ensures Digit(l) == d && Digit(u) == d && (Digit(c) == d ==> c == l || c == u)
  {
  }

  lemma SpeltDigits(base: nat, ds: seq<nat>, s: string)
    requires Spelt(ds, s)
    ensures |ds| == |s| && forall i :: 0 <= i < |s| ==> Digit(s[i]) == ds[i]
  {
    hide Digit;
    forall i | 0 <= i < |s| ensures Digit(s[i]) == ds[i] {
      DigitIs(ds[i], s[i]);
    }
  }

  /** The place values add up to what reading the digits from the left gives. */
  lemma {:induction false} ValueIsNumber(base: nat, ds: seq<nat>, s: string)
    requires Spelt(ds, s)
    ensures forall i :: 0 <= i < |s| ==> 0 <= Digit(s[i])
    ensures Value(base, s) == NumberOf(base, ds)
    decreases |s|
  {
    hide Digit;
    SpeltDigits(base, ds, s);
    if s != "" {
      NumberLast(base, ds);
      ValueIsNumber(base, ds[..|ds| - 1], s[..|s| - 1]);
    }
  }

  /** No digit in any base. */
  predicate NoDigit(c: char) {
    c !in LOWER && c !in UPPER
  }

  lemma NoDigitIs(c: char)
    requires NoDigit(c)
    ensures Digit(c) == -1
  {
    if Digit(c) >= 0 {
      DigitIs(Digit(c), c);
    }
  }

  lemma ReturnIsNone()
    ensures NoDigit('\r')
  {
    forall d: nat | d < 36 ensures LOWER[d] != '\r' && UPPER[d] != '\r' {
      if d < 10 {
        Decimals(d);
      } else {
        Letters(d);
        Capitals(d);
      }
    }
  }

  /** The text t cannot prolong a number in this base. */
  ghost predicate Ends(base: nat, t: string) {
    t == "" || NoDigit(t[0]) || exists d :: base <= d < 36 && (t[0] == LOWER[d] || t[0] == UPPER[d])
  }

  lemma EndsIs(base: nat, t: string)
    requires Ends(base, t)
    ensures t == "" || !(0 <= Digit(t[0]) < base)
  {
    hide Digit;
    if t != "" && NoDigit(t[0]) {
      NoDigitIs(t[0]);
    } else if t != "" {
      var d :| base <= d < 36 && (t[0] == LOWER[d] || t[0] == UPPER[d]);
      DigitIs(d, t[0]);
    }
  }

  ghost predicate Spaces(sp: string) {
    forall i :: 0 <= i < |sp| ==> sp[i] == ' ' || sp[i] == '\t' || sp[i] == '\n'
  }

  lemma {:induction false} SpacesSkipped(sp: string, t: string)
    requires Spaces(sp) && (t == "" || !IsSpace(t[0]))
    ensures SkipSpaces(sp + t) == t
    decreases |sp|
  {
    if sp == "" {
      assert sp + t == t;
    } else {
      assert (sp + t)[1..] == sp[1..] + t;
      SpacesSkipped(sp[1..], t);
    }
  }

  /** How a number may say its base: the caller gives it, with or without the matching prefix; or with a base of zero
      the prefix does, a leading zero for 8, and nothing for 10. */
  ghost predicate SaysBase(base0: nat, prefix: string, s: string, base: nat) {
    || (base == 16 && (base0 == 0 || base0 == 16) && (prefix == "0x" || prefix == "0X"))
    || (base == 2 && (base0 == 0 || base0 == 2) && (prefix == "0b" || prefix == "0B"))
    || (prefix == "" && base0 == base && 2 <= base <= 36)
    || (prefix == "" && base0 == 0 && base == if At(s) == '0' then 8 else 10)
  }

  /** What is behind the digits does not make a prefix of them. */
  predicate NoPrefix(t: string) {
    t == "" || (t[0] != 'x' && t[0] != 'X' && t[0] != 'b' && t[0] != 'B')
  }

  lemma BaseSaid(base0: nat, prefix: string, ds: seq<nat>, s: string, base: nat, t: string)
    requires Spelt(ds, s) && ds != [] && (forall i :: 0 <= i < |ds| ==> ds[i] < base) && NoPrefix(t)
    requires SaysBase(base0, prefix, s, base)
    ensures Base(base0, prefix + s + t) == (base, s + t)
  {
    hide Digit;
    var u := prefix + s + t;
    if prefix == "" {
      assert u == s + t;
      if |u| >= 2 && (base0 == 0 || base0 == 2 || base0 == 16) {
        assert u[1] == if |s| >= 2 then s[1] else t[0];
        if |s| >= 2 {
          NotLetters(ds[1], base);
        }
        assert !Prefixed(base0, u, 16, 'x', 'X') && !Prefixed(base0, u, 2, 'b', 'B');
      }
      assert At(u) == s[0];
    } else {
      assert u[2..] == s + t;
    }
  }

  lemma NotLetters(d: nat, base: nat)
    requires d < base <= 16
    ensures LOWER[d] != 'x' && LOWER[d] != 'X' && UPPER[d] != 'x' && UPPER[d] != 'X'
    ensures base <= 10 ==> LOWER[d] != 'b' && LOWER[d] != 'B' && UPPER[d] != 'b' && UPPER[d] != 'B'
  {
  }

  lemma NoSpaceOrSign(prefix: string, ds: seq<nat>, s: string, t: string, base0: nat, base: nat)
    requires Spelt(ds, s) && ds != [] && SaysBase(base0, prefix, s, base)
    ensures var c := (prefix + s + t)[0]; !IsSpace(c) && c != '-' && c != '+'
  {
    hide Digit;
    if prefix == "" {
      assert (prefix + s + t)[0] == s[0];
      DigitIs(ds[0], s[0]);
      NoSign(s[0]);
    } else {
      assert (prefix + s + t)[0] == prefix[0] == '0';
    }
  }

  lemma NoSign(c: char)
    requires Digit(c) >= 0
    ensures !IsSpace(c) && c != '-' && c != '+'
  {
  }

  /** A number written in any base from 2 to 36, behind any spaces, with or without a sign, with any way to say the
      base and in either case of letters, is read as its value, clamped to 32 bits; and what follows it is left. */
  lemma NumeralRead(sp: string, sign: string, prefix: string, ds: seq<nat>, s: string, t: string, base0: nat, base: nat)
    requires Spaces(sp) && (sign == "" || sign == "+" || sign == "-") && SaysBase(base0, prefix, s, base)
    requires Spelt(ds, s) && ds != [] && (forall i :: 0 <= i < |ds| ==> ds[i] < base)
    requires Ends(base, t) && NoPrefix(t)
    ensures var n := NumberOf(base, ds);
            Strtol(sp + sign + prefix + s + t, base0) == Clamp(if sign == "-" then 0 - n else n)
    ensures EndOf(sp + sign + prefix + s + t, base0) == t
  {
    hide Digit, Digits, Value, NumberOf, SkipSpaces, SkipSign, Base, Clamp, Spelt, Ends, SaysBase, Spaces, NoPrefix,
      Strtol, EndOf;
    var w := prefix + s + t;
    var u := sign + w;
    assert sp + sign + prefix + s + t == sp + u;
    NoSpaceOrSign(prefix, ds, s, t, base0, base);
    SpeltDigits(base, ds, s);
    assert |w| > 0;
    Front(sign, w);
    SpacesSkipped(sp, u);
    BaseSaid(base0, prefix, ds, s, base, t);
    FrontDigits(base, ds, s, t);
    ValueIsNumber(base, ds, s);
    NumberThere(sp + u, u, w, base0, base, s, t);
  }

  lemma NumberThere(text: string, u: string, w: string, base0: nat, base: nat, s: string, t: string)
    requires SkipSpaces(text) == u && SkipSign(u) == w && Base(base0, w) == (base, s + t)
    requires Digits(base, s + t) == |s| > 0 && (s + t)[..|s|] == s && (s + t)[|s|..] == t
    requires forall i :: 0 <= i < |s| ==> 0 <= Digit(s[i])
    ensures Strtol(text, base0) == Clamp(if At(u) == '-' then 0 - Value(base, s) else Value(base, s))
    ensures EndOf(text, base0) == t
  {
    hide Digit, Digits, Value, SkipSpaces, SkipSign, Base, Clamp;
  }

  /** Behind the spaces and the sign there is no digit: the value is zero, and nothing was read. */
  lemma NoNumeral(sp: string, sign: string, t: string, base0: nat)
    requires Spaces(sp) && (sign == "" || sign == "+" || sign == "-")
    requires t == "" || (NoDigit(t[0]) && (sign == "" ==> !IsSpace(t[0]) && t[0] != '-' && t[0] != '+'))
    ensures Strtol(sp + sign + t, base0) == 0 && EndOf(sp + sign + t, base0) == sp + sign + t
  {
    hide Digit;
    var u := sign + t;
    assert sp + sign + t == sp + u;
    assert u == "" || u[0] == if sign == "" then t[0] else sign[0];
    SpacesSkipped(sp, u);
    assert SkipSign(u) == t by {
      assert u[|sign|..] == t;
    }
    if t != "" {
      NoDigitIs(t[0]);
      assert LOWER[0] == '0';
    }
    assert t[..0] == "";
  }

  lemma Front(sign: string, w: string)
    requires w != "" && (sign == "" || sign == "+" || sign == "-")
    requires !IsSpace(w[0]) && w[0] != '-' && w[0] != '+'
    ensures var u := sign + w; u != "" && !IsSpace(u[0]) && SkipSign(u) == w && (At(u) == '-' <==> sign == "-")
  {
    assert (sign + w)[|sign|..] == w;
  }

  /** The digits at the front of s + t are those of s. */
  lemma FrontDigits(base: nat, ds: seq<nat>, s: string, t: string)
    requires Spelt(ds, s) && (forall i :: 0 <= i < |ds| ==> ds[i] < base) && Ends(base, t)
    ensures Digits(base, s + t) == |s| && (s + t)[..|s|] == s && (s + t)[|s|..] == t
  {
    hide Digit, Digits, Ends;
    EndsIs(base, t);
    SpeltDigits(base, ds, s);
    var u := s + t;
    forall i | 0 <= i < |s| ensures 0 <= Digit(u[i]) < base {
      assert u[i] == s[i] && ds[i] < base;
    }
    assert t != "" ==> u[|s|] == t[0];
    DigitsAre(base, u, |s|);
  }

  lemma Grow(a: nat, b: nat)
    requires b >= 1
    ensures a <= a * b
  {
  }

  /** Cutting off at limit / base and limit % base is cutting off at the limit. */
  lemma Cutoff(acc: nat, c: nat, base: nat, limit: nat)
    requires base >= 1 && c < base
    ensures var q, r := limit / base, limit % base;
            acc > q || (acc == q && c > r) <==> acc * base + c > limit
  {
    var q, r := limit / base, limit % base;
    assert limit == q * base + r;
    if acc > q {
      assert acc * base == q * base + (acc - q) * base;
      Grow(base, acc - q);
      assert base * (acc - q) == (acc - q) * base;
    } else if acc < q {
      assert q * base == acc * base + (q - acc) * base;
      Grow(base, q - acc);
      assert base * (q - acc) == (q - acc) * base;
    }
  }

  lemma ValueStep(base: nat, v: string, i: nat)
    requires i < |v| && forall j :: 0 <= j <= i ==> 0 <= Digit(v[j])
    ensures Value(base, v[..i + 1]) == Value(base, v[..i]) * base + Digit(v[i])
  {
    assert v[..i + 1][..i] == v[..i];
  }

  /** One more digit, unless the number is or gets too large. The product and the sum stay within 32 bits. */
  method AddDigit(acc0: Ulong, any0: int, c: nat, base: nat, cutoff: Ulong, cutlim: Ulong, ghost value: nat,
          ghost limit: nat)
    returns (acc: Ulong, any: int)
    requires c < base <= LONG_MAX && limit <= 0x8000_0000
    requires cutoff as int == limit / base && cutlim as int == limit % base
    requires if any0 < 0 then value > limit else acc0 as int == value <= limit
    ensures any != 0 && if any < 0 then value * base + c > limit else acc as int == value * base + c <= limit
  {
    Cutoff(acc0 as int, c, base, limit);
    acc := acc0;
    if any0 < 0 || acc > cutoff || (acc == cutoff && c as Ulong > cutlim) {
      Grow(value, base);
      any := -1;
    } else {
      any := 1;
      acc := acc * (base as Ulong);
      acc := acc + (c as Ulong);
    }
  }

  /** The loop over the digits. */
  method Accumulate(v: string, base: nat, neg: bool) returns (acc: Ulong, any: int, n: nat)
    requires 1 <= base <= LONG_MAX
    ensures n == Digits(base, v) && (any == 0 <==> n == 0)
    ensures var limit := if neg then 0 - LONG_MIN else LONG_MAX;
            if any < 0 then Value(base, v[..n]) > limit else acc as int == Value(base, v[..n]) <= limit
  {
    var limit: Ulong := if neg then 0x8000_0000 else 0x7FFF_FFFF;
    var cutlim: Ulong := limit % (base as Ulong);
    var cutoff: Ulong := limit / (base as Ulong);
    acc, any, n := 0, 0, 0;
    while true
      invariant n <= |v| && forall i :: 0 <= i < n ==> 0 <= Digit(v[i]) < base
      invariant any == 0 <==> n == 0
      invariant if any < 0 then Value(base, v[..n]) > limit as int
                  else acc as int == Value(base, v[..n]) <= limit as int
      decreases |v| - n
    {
      var c := if n < |v| then Digit(v[n]) else Digit('\0');
      if c < 0 || c >= base {
        break;
      }
      ValueStep(base, v, n);
      acc, any := AddDigit(acc, any, c, base, cutoff, cutlim, Value(base, v[..n]), limit as int);
      n := n + 1;
    }
    DigitsAre(base, v, n);
  }

  lemma DigitsAre(base: nat, v: string, n: nat)
    requires n <= |v| && (forall i :: 0 <= i < n ==> 0 <= Digit(v[i]) < base)
    requires n < |v| ==> !(0 <= Digit(v[n]) < base)
    ensures Digits(base, v) == n
  {
  }

  method ReadSpaces(t: string) returns (s: string)
    ensures s == SkipSpaces(t)
  {
    s := t;
    while IsSpace(At(s))
      invariant SkipSpaces(s) == SkipSpaces(t)
      decreases |s|
    {
      s := s[1..];
    }
  }

  method ReadBase(base0: nat, t: string) returns (base: nat, s: string)
    ensures (base, s) == Base(base0, t)
  {
    s, base := t, base0;
    if (base == 0 || base == 16) && At(s) == '0' && |s| >= 2 && (s[1] == 'x' || s[1] == 'X') {
      s, base := s[2..], 16;
    } else if (base == 0 || base == 2) && At(s) == '0' && |s| >= 2 && (s[1] == 'b' || s[1] == 'B') {
      s, base := s[2..], 2;
    }
    if base == 0 {
      base := if At(s) == '0' then 8 else 10;
    }
  }

  /** esp_strtol: the value, and where the number ends; that is the start again when there is none. */
  method EspStrtol(nptr: string, base0: nat) returns (value: int, endptr: string)
    requires base0 <= LONG_MAX
    ensures value == Strtol(nptr, base0)
    ensures endptr == EndOf(nptr, base0)
  {
    hide Digits, Value, Base, SkipSpaces;
    var s := ReadSpaces(nptr);
    var neg := At(s) == '-';
    if neg || At(s) == '+' {
      s := s[1..];
    }
    BaseFits(base0, s);
    var base;
    base, s := ReadBase(base0, s);
    var acc, any, n := Accumulate(s, base, neg);
    var magnitude := acc as int;
    value := if any < 0 then (if neg then LONG_MIN else LONG_MAX) else if neg then 0 - magnitude else magnitude;
    endptr := if any != 0 then s[n..] else nptr;
  }

  lemma BaseFits(base: nat, t: string)
    requires base <= LONG_MAX
    ensures Base(base, t).0 <= LONG_MAX
  {
  }
}
