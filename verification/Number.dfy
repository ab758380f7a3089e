/** `number`, the integer printer of the kernel's `vsprintf`, and `atoi`, the library's parser. */
module Number {
  import opened CInt
  import opened NumberForm

  // ---- What is printed ----

  /** Digits of u in the base, most significant first; zero is one digit. */
  function DigitsOf(u: nat, base: nat): (ds: seq<nat>)
    requires base >= 2
    ensures |ds| >= 1 && forall d <- ds :: d < base
    decreases u
  {
    if u < base then [u]
    else
      DivSmall(u, base);
      DigitsOf(u / base, base) + [u % base]
  }

  function DigitChar(d: nat, small: bool): char
    requires d < 36
  {
    if d < 10 then '0' + d as char else (if small then 'a' else 'A') + (d - 10) as char
  }

  function Chars(ds: seq<nat>, small: bool): string
    requires forall d <- ds :: d < 36
  {
    seq(|ds|, i requires 0 <= i < |ds| => assert ds[i] in ds; DigitChar(ds[i], small))
  }

  function Repeat(c: char, n: int): string { if n <= 0 then "" else Repeat(c, n - 1) + [c] }

  function Max(a: int, b: int): int { if a < b then b else a }

  /** The value printed: without SIGN the bits are read as unsigned. */
  function Magnitude(num: int, flags: Flags): nat
    requires IsInt32(num)
  {
    if flags.sign && num < 0 then -num else ToUint32(num)
  }

  function SignOf(num: int, flags: Flags): string {
    if flags.sign && num < 0 then "-" else if flags.plus then "+" else if flags.space then " " else ""
  }

  function Prefix(base: nat, flags: Flags): string {
    if !flags.special then ""
    else if base == 8 then "0"
    else if base == 16 then (if flags.small then "0x" else "0X")
    else ""
  }

  /** The digits, with leading zeros up to the precision. */
  function Body(num: int, base: nat, precision: int, flags: Flags): string
    requires IsInt32(num) && 2 <= base <= 36
  {
    var ds := DigitsOf(Magnitude(num, flags), base);
    Repeat('0', precision - |ds|) + Chars(ds, flags.small)
  }

  /** The whole field: blanks to the left unless left-justified or zero-padded, zeros after the sign
      when zero-padded, blanks to the right when left-justified. */
  function Text(num: int, base: nat, width: int, precision: int, flags: Flags): string
    requires IsInt32(num) && 2 <= base <= 36
  {
    var head := SignOf(num, flags) + Prefix(base, flags);
    var body := Body(num, base, precision, flags);
    var pad := width - |head| - |body|;
    (if flags.left then "" else if flags.zeropad then "" else Repeat(' ', pad))
    + head + (if flags.zeropad && !flags.left then Repeat('0', pad) else "")
    + body + (if flags.left then Repeat(' ', pad) else "")
  }

  lemma {:induction false} RepeatLength(c: char, n: int)
    ensures |Repeat(c, n)| == Max(n, 0) && forall i :: 0 <= i < |Repeat(c, n)| ==> Repeat(c, n)[i] == c
  {
    if n > 0 {
      RepeatLength(c, n - 1);
    }
  }

  /** The field is as wide as asked for, or as its sign, prefix and digits need. */
  lemma TextLength(num: int, base: nat, width: int, precision: int, flags: Flags)
    requires IsInt32(num) && 2 <= base <= 36
    ensures |Text(num, base, width, precision, flags)|
         == Max(width, |SignOf(num, flags)| + |Prefix(base, flags)| + Max(precision, |DigitsOf(Magnitude(num, flags), base)|))
  {
    var n := |DigitsOf(Magnitude(num, flags), base)|;
    var pad := width - |SignOf(num, flags)| - |Prefix(base, flags)| - |Body(num, base, precision, flags)|;
    RepeatLength('0', precision - n);
    RepeatLength(' ', pad);
    RepeatLength('0', pad);
  }

  // ---- The field on its own terms ----

  lemma DigitCharIs(d: nat, small: bool)
    requires d < 36
    ensures var c := DigitChar(d, small);
            CharValue(c) == d && ('a' <= c <= 'z' ==> small) && ('A' <= c <= 'Z' ==> !small) && (c == '0' <==> d == 0)
  {
  }

  lemma HornerSnoc(s: string, c: char, base: nat)
    ensures Horner(s + [c], base) == Horner(s, base) * base + CharValue(c)
  {
    assert (s + [c])[..|s|] == s;
  }

  /** In every base the digits printed are the value's: letters in the case asked for, no leading zero,
      and Horner's rule gives the value back. */
  lemma {:induction false} DigitsAreCanonical(u: nat, base: nat, small: bool)
    requires 2 <= base <= 36
    ensures Canonical(Chars(DigitsOf(u, base), small), base, small) && Horner(Chars(DigitsOf(u, base), small), base) == u
    decreases u
  {
    hide CharValue, DigitChar, Horner, Canonical;
    if u < base {
      CanonicalOne(DigitChar(u, small), base, small);
      HornerNone(base);
      DigitCharIs(u, small);
      HornerSnoc("", DigitChar(u, small), base);
      assert Chars(DigitsOf(u, base), small) == [DigitChar(u, small)] == "" + [DigitChar(u, small)];
    } else {
      DivSmall(u, base);
      DigitsAreCanonical(u / base, base, small);
      var head := Chars(DigitsOf(u / base, base), small);
      CharsSnoc(DigitsOf(u / base, base), u % base, small);
      DigitCharIs(u % base, small);
      HornerSnoc(head, DigitChar(u % base, small), base);
      SplitQuotient(u, base);
      CanonicalSnoc(head, DigitChar(u % base, small), base, small);
    }
  }

  lemma HornerNone(base: nat)
    ensures Horner("", base) == 0
  {
  }

  lemma CanonicalOne(c: char, base: nat, small: bool)
    ensures 0 <= CharValue(c) < base && ('a' <= c <= 'z' ==> small) && ('A' <= c <= 'Z' ==> !small) ==> Canonical([c], base, small)
  {
  }

  lemma CanonicalSnoc(s: string, c: char, base: nat, small: bool)
    requires Canonical(s, base, small) && Horner(s, base) != 0
    requires 0 <= CharValue(c) < base && ('a' <= c <= 'z' ==> small) && ('A' <= c <= 'Z' ==> !small)
    ensures Canonical(s + [c], base, small)
  {
    hide CharValue, Horner;
    ZeroIs(s, base);
  }

  lemma SplitQuotient(u: nat, base: nat)
    requires base >= 1
    ensures u / base * base + u % base == u
  {
  }

  /** The pieces of the field. */
  function PartsOf(num: int, base: nat, width: int, precision: int, flags: Flags): Parts
    requires IsInt32(num) && 2 <= base <= 36
  {
    var ds := DigitsOf(Magnitude(num, flags), base);
    var pad := width - |SignOf(num, flags)| - |Prefix(base, flags)| - |Body(num, base, precision, flags)|;
    Parts(if flags.left || flags.zeropad then "" else Repeat(' ', pad), SignOf(num, flags), Prefix(base, flags),
          (if flags.zeropad && !flags.left then Repeat('0', pad) else "") + Repeat('0', precision - |ds|),
          Chars(ds, flags.small), if flags.left then Repeat(' ', pad) else "")
  }

  /** The text is the one field for its number and format. */
  lemma TextIsField(num: int, base: nat, width: int, precision: int, flags: Flags)
    requires IsInt32(num) && 2 <= base <= 36
    ensures IsField(PartsOf(num, base, width, precision, flags), num, base, width, precision, flags)
    ensures Join(PartsOf(num, base, width, precision, flags)) == Text(num, base, width, precision, flags)
  {
    hide DigitsOf, Chars, Repeat, Canonical, Horner;
    var ds := DigitsOf(Magnitude(num, flags), base);
    var pad := width - |SignOf(num, flags)| - |Prefix(base, flags)| - |Body(num, base, precision, flags)|;
    DigitsAreCanonical(Magnitude(num, flags), base, flags.small);
    OneWrap(num);
    CharsLength(ds, flags.small);
    RepeatLength(' ', pad);
    RepeatLength('0', pad);
    RepeatLength('0', precision - |ds|);
    TextLength(num, base, width, precision, flags);
    Rejoined(num, base, width, precision, flags);
  }

  lemma Rejoined(num: int, base: nat, width: int, precision: int, flags: Flags)
    requires IsInt32(num) && 2 <= base <= 36
    ensures Join(PartsOf(num, base, width, precision, flags)) == Text(num, base, width, precision, flags)
  {
    hide DigitsOf, Chars, Repeat, SignOf, Prefix;
    var p := PartsOf(num, base, width, precision, flags);
    var mid :=
      if flags.zeropad && !flags.left
      then Repeat('0', width - |SignOf(num, flags)| - |Prefix(base, flags)| - |Body(num, base, precision, flags)|) else "";
    var ds := DigitsOf(Magnitude(num, flags), base);
    assert p.zeros + p.digits == mid + Body(num, base, precision, flags);
    assert |p.mark + p.prefix| == |p.mark| + |p.prefix|;
    assert Join(p) == p.lead + (p.mark + p.prefix) + (p.zeros + p.digits) + p.trail;
  }

  // ---- The printer ----

  function Pow2(n: nat): nat { if n == 0 then 1 else 2 * Pow2(n - 1) }

  lemma {:induction false} Pow2Grows(m: nat, n: nat)
    requires m <= n
    ensures Pow2(m) <= Pow2(n)
    decreases n - m
  {
    if m < n {
      Pow2Grows(m, n - 1);
    }
  }

  lemma Pow2Of32()
    ensures Pow2(32) == UINT32_SIZE
  {
    assert Pow2(8) == 0x100 && Pow2(16) == 0x1_0000 && Pow2(24) == 0x100_0000;
  }

  function Reversed(s: string): string { if s == "" then "" else [s[|s| - 1]] + Reversed(s[..|s| - 1]) }

  lemma QuotientHalves(u: nat, base: nat)
    requires base >= 2
    ensures u / base * 2 <= u
  {
    var q := u / base;
    QuotientBelow(u, base);
    Scaled(2, base, q);
  }

  lemma QuotientBelow(u: nat, base: nat)
    requires base >= 1
    ensures u / base * base <= u
  {
  }

  lemma Scaled(a: nat, b: nat, p: nat)
    requires a <= b
    ensures a * p <= b * p
  {
    assert b * p == a * p + (b - a) * p;
  }

  /** Digits left to find and digits found fit 32 bits together. */
  predicate Roomy(u: nat, i: nat) { u * Pow2(i) < UINT32_SIZE }

  /** The remaining number halves at least with every digit, so 32 turns are enough. */
  lemma {:induction false} RoomTurn(u: nat, base: nat, i: nat)
    requires base >= 2 && u > 0 && Roomy(u, i)
    ensures i < 32 && Roomy(u / base, i + 1)
  {
    QuotientHalves(u, base);
    Scaled(u / base * 2, u, Pow2(i));
    assert u / base * Pow2(i + 1) == u / base * 2 * Pow2(i);
    if i >= 32 {
      Pow2Of32();
      Pow2Grows(32, i);
      Scaled(1, u, Pow2(i));
    }
  }

  /** What is printed of a number still to be converted; nothing is left of zero. */
  function Left(u: nat, base: nat, small: bool): string
    requires 2 <= base <= 36
  {
    if u == 0 then "" else Chars(DigitsOf(u, base), small)
  }

  /** The digits found so far stay the low digits. */
  lemma {:induction false} DigitTurn(u: nat, base: nat, small: bool)
    requires 2 <= base <= 36 && u > 0
    ensures u % base < 36 && Left(u, base, small) == Left(u / base, base, small) + [DigitChar(u % base, small)]
  {
    DivSmall(u, base);
    if u < base {
      assert DigitsOf(u, base) == [] + [u];
      CharsSnoc([], u, small);
    } else {
      CharsSnoc(DigitsOf(u / base, base), u % base, small);
    }
  }

  lemma DivSmall(u: nat, base: nat)
    requires base >= 2
    ensures u < base ==> u / base == 0 && u % base == u
    ensures u >= base ==> u / base > 0
    ensures u % base < base && u / base <= u && (u > 0 ==> u / base < u)
  {
    QuotientHalves(u, base);
  }

  lemma ReversedSnoc(s: string, c: char)
    ensures Reversed(s + [c]) == [c] + Reversed(s)
  {
    assert (s + [c])[..|s|] == s;
  }

  /** The loop that fills `tmp`, least significant digit first. It needs at most 32 of the 36 places. */
  method FillDigits(value: nat, base: nat, small: bool, tmp: array<char>) returns (i: nat)
    requires value < UINT32_SIZE && 2 <= base <= 36 && tmp.Length == 36
    modifies tmp
    ensures 1 <= i <= 32 && Reversed(tmp[..i]) == Chars(DigitsOf(value, base), small)
    ensures Canonical(Reversed(tmp[..i]), base, small) && Horner(Reversed(tmp[..i]), base) == value
  {
    hide Roomy, DigitsOf, Chars, Reversed, Left, Canonical, Horner;
    DigitsAreCanonical(value, base, small);
    i := 0;
    NoDigits(base, small, value);
    if value == 0 {
      tmp[i] := '0';
      i := i + 1;
      assert tmp[..1] == "" + "0";
      ReversedSnoc("", '0');
    } else {
      var num := value;
      assert tmp[..0] == "";
      while num != 0
        invariant 0 <= num && i <= 32 && Roomy(num, i) && (num == 0 ==> i > 0)
        invariant Left(num, base, small) + Reversed(tmp[..i]) == Left(value, base, small)
        decreases num
      {
        RoomTurn(num, base, i);
        DivSmall(num, base);
        DigitTurn(num, base, small);
        ReversedSnoc(tmp[..i], DigitChar(num % base, small));
        ghost var before := tmp[..i];
        tmp[i] := DigitChar(num % base, small);
        i := i + 1;
        assert tmp[..i] == before + [tmp[i - 1]];
        num := num / base;
      }
    }
  }

  lemma NoDigits(base: nat, small: bool, value: nat)
    requires 2 <= base <= 36
    ensures Reversed("") == "" && Left(0, base, small) == "" && Chars(DigitsOf(0, base), small) == "0"
    ensures value < UINT32_SIZE ==> Roomy(value, 0)
    ensures value > 0 ==> Left(value, base, small) == Chars(DigitsOf(value, base), small)
  {
  }

  lemma CharsSnoc(ds: seq<nat>, d: nat, small: bool)
    requires d < 36 && forall x <- ds :: x < 36
    ensures Chars(ds + [d], small) == Chars(ds, small) + [DigitChar(d, small)]
  {
  }

  /** Appends `c` while the counter, taken down by one each time, is positive. */
  method Emit(out: string, c: char, count: int) returns (r: string, rest: int)
    ensures r == out + Repeat(c, count) && rest == (if count > 0 then -1 else count - 1)
  {
    r, rest := out, count;
    while rest > 0
      invariant rest <= count && (count > 0 ==> 0 <= rest) && (count <= 0 ==> rest == count)
      invariant r == out + Repeat(c, count - rest)
    {
      r := r + [c];
      rest := rest - 1;
    }
    rest := rest - 1;
  }

  /** Appends the digits of `tmp` from the last one down. */
  method EmitDigits(out: string, tmp: array<char>, n: nat) returns (r: string)
    requires n <= tmp.Length
    ensures r == out + Reversed(tmp[..n])
  {
    r := out;
    var i := n;
    while i > 0
      invariant 0 <= i <= n && r + Reversed(tmp[..i]) == out + Reversed(tmp[..n])
    {
      assert tmp[..i][..i - 1] == tmp[..i - 1];
      i := i - 1;
      r := r + [tmp[i]];
    }
  }

  /** Lines 52-56: the sign and the value to convert. Negating the least integer leaves its bits, which
      the unsigned conversion reads as 2^31. */
  method TakeSign(num: int, flags: Flags) returns (sign: string, value: nat)
    requires IsInt32(num)
    ensures sign == SignOf(num, flags) && |sign| <= 1 && value == Magnitude(num, flags) < UINT32_SIZE
  {
    var n := num;
    if flags.sign && num < 0 {
      sign := "-";
      OneWrap(-num);
      n := Wrap32(-num);
    } else {
      sign := if flags.plus then "+" else if flags.space then " " else "";
    }
    OneWrap(n);
    value := ToUint32(n);
  }

  method EmitPrefix(out: string, base: nat, flags: Flags) returns (str: string)
    ensures str == out + Prefix(base, flags)
  {
    str := out;
    if flags.special {
      if base == 8 {
        str := str + "0";
      } else if base == 16 {
        str := str + "0";
        str := str + [DigitChar(33, flags.small)];
      }
    }
  }

  /** Lines 72-84: blanks, sign, prefix and zero padding. Each loop that places the padding leaves the
      counter negative for the next. */
  method EmitHead(sign: string, base: nat, flags: Flags, pad: int) returns (str: string, size: int)
    ensures str == (if flags.zeropad || flags.left then "" else Repeat(' ', pad)) + sign + Prefix(base, flags)
                   + (if flags.zeropad && !flags.left then Repeat('0', pad) else "")
    ensures if flags.left then size == pad else size < 0
  {
    hide Repeat, Prefix;
    var zeropad := flags.zeropad && !flags.left;
    str, size := "", pad;
    if !zeropad && !flags.left {
      str, size := Emit(str, ' ', size);
    }
    str := EmitPrefix(str + sign, base, flags);
    if !flags.left {
      NoRepeat(' ', size);
      str, size := Emit(str, if zeropad then '0' else ' ', size);
    }
  }

  /** Lines 72-87: the whole field. */
  method EmitField(sign: string, base: nat, flags: Flags, tmp: array<char>, i: nat, pad: int, digits: int) returns (str: string)
    requires i <= tmp.Length && i <= digits
    ensures str == (if flags.zeropad || flags.left then "" else Repeat(' ', pad)) + sign + Prefix(base, flags)
                   + (if flags.zeropad && !flags.left then Repeat('0', pad) else "")
                   + Repeat('0', digits - i) + Reversed(tmp[..i]) + (if flags.left then Repeat(' ', pad) else "")
  {
    hide Repeat, Reversed, Prefix;
    var size, rest;
    str, size := EmitHead(sign, base, flags, pad);
    NoRepeat(' ', size);
    str, rest := Emit(str, '0', digits - i);
    str := EmitDigits(str, tmp, i);
    str, size := Emit(str, ' ', size);
  }

  /** Lines 57-63: the field width less the sign and the prefix. */
  method RoomForDigits(width: int, sign: string, base: nat, flags: Flags) returns (size: int)
    requires |sign| <= 1
    ensures size == width - |sign| - |Prefix(base, flags)|
  {
    size := width;
    if sign != "" {
      size := size - 1;
    }
    if flags.special {
      if base == 16 {
        size := size - 2;
      } else if base == 8 {
        size := size - 1;
      }
    }
  }

  /** `number`. An impossible base prints nothing; any other prints the one field there is. */
  method Print(num: int, base: int, width: int, precision: int, flags: Flags) returns (ok: bool, str: string, ghost parts: Parts)
    requires IsInt32(num)
    ensures ok == (2 <= base <= 36)
    ensures ok ==> str == Join(parts) && IsField(parts, num, base, width, precision, flags)
    ensures ok ==> str == Text(num, base, width, precision, flags)
  {
    hide PartsOf, Text, IsField;
    ok, str := PrintText(num, base, width, precision, flags);
    if ok {
      parts := PartsOf(num, base, width, precision, flags);
      TextIsField(num, base, width, precision, flags);
    } else {
      parts := Parts("", "", "", "", "", "");
    }
  }

  method PrintText(num: int, base: int, width: int, precision: int, flags: Flags) returns (ok: bool, str: string)
    requires IsInt32(num)
    ensures ok == (2 <= base <= 36)
    ensures ok ==> str == Text(num, base, width, precision, flags)
  {
    hide Repeat, DigitsOf, Chars, Reversed, Magnitude, Text, SignOf, Prefix;
    if base < 2 || base > 36 {
      return false, "";
    }
    var sign, value := TakeSign(num, flags);
    var size := RoomForDigits(width, sign, base, flags);
    var tmp := new char[36];
    var i := FillDigits(value, base, flags.small, tmp);
    ReversedLength(tmp[..i]);
    CharsLength(DigitsOf(value, base), flags.small);
    var digits := precision;
    if i > digits {
      digits := i;
    }
    size := size - digits;
    str := EmitField(sign, base, flags, tmp, i, size, digits);
    Assembled(num, base, width, precision, flags, size,
              if flags.zeropad || flags.left then "" else Repeat(' ', size),
              if flags.zeropad && !flags.left then Repeat('0', size) else "",
              if flags.left then Repeat(' ', size) else "", str);
    ok := true;
  }

  /** The pieces in the order they are emitted make up the field. */
  lemma Assembled(num: int, base: nat, width: int, precision: int, flags: Flags, pad: int,
                  lead: string, mid: string, trail: string, str: string)
    requires IsInt32(num) && 2 <= base <= 36
    requires var n := |DigitsOf(Magnitude(num, flags), base)|;
             pad == width - |SignOf(num, flags)| - |Prefix(base, flags)| - Max(precision, n)
    requires lead == if (flags.zeropad && !flags.left) || flags.left then "" else Repeat(' ', pad)
    requires mid == if flags.zeropad && !flags.left then Repeat('0', pad) else ""
    requires trail == if flags.left then Repeat(' ', pad) else ""
    requires var ds := DigitsOf(Magnitude(num, flags), base);
             str == lead + SignOf(num, flags) + Prefix(base, flags) + mid
                    + Repeat('0', Max(precision, |ds|) - |ds|) + Chars(ds, flags.small) + trail
    ensures str == Text(num, base, width, precision, flags)
  {
    hide DigitsOf, Chars, Repeat, SignOf, Prefix;
    var ds := DigitsOf(Magnitude(num, flags), base);
    NoRepeat('0', precision - |ds|);
    NoRepeat('0', 0);
    RepeatLength('0', precision - |ds|);
    CharsLength(ds, flags.small);
    var zeros, chars := Repeat('0', precision - |ds|), Chars(ds, flags.small);
    var sign, prefix := SignOf(num, flags), Prefix(base, flags);
    assert str == lead + sign + prefix + mid + zeros + chars + trail;
    assert str == lead + (sign + prefix) + mid + (zeros + chars) + trail;
  }

  lemma NoRepeat(c: char, n: int)
    ensures n <= 0 ==> Repeat(c, n) == ""
  {
  }

  lemma CharsLength(ds: seq<nat>, small: bool)
    requires forall d <- ds :: d < 36
    ensures |Chars(ds, small)| == |ds|
  {
  }

  lemma {:induction false} ReversedLength(s: string)
    ensures |Reversed(s)| == |s|
  {
    if s != "" {
      ReversedLength(s[..|s| - 1]);
    }
  }

  // ---- The parser ----

  predicate IsSpace(c: char) { c == ' ' || '\t' <= c <= '\r' }

  predicate IsDigit(c: char) { '0' <= c <= '9' }

  function DigitValue(c: char): int { c as int - '0' as int }

  function SkipSpace(s: string): string { if s != "" && IsSpace(s[0]) then SkipSpace(s[1..]) else s }

  /** Horner's rule over the leading digits. */
  function Scan(s: string, n: int): int {
    if s != "" && IsDigit(s[0]) then Scan(s[1..], 10 * n + DigitValue(s[0])) else n
  }

  /** The integer a text denotes: leading white space, an optional sign, digits up to the first other character. */
  function Denotes(s: string): int {
    var t := SkipSpace(s);
    if t != "" && t[0] == '-' then -Scan(t[1..], 0)
    else if t != "" && t[0] == '+' then Scan(t[1..], 0)
    else Scan(t, 0)
  }

  /** `atoi` on any text, with 32-bit wrap-around: the denoted integer modulo 2^32. Accumulating
      downwards lets the least integer through without wrapping. `n` is the text taken apart. */
  method Atoi(text: string) returns (r: int, ghost n: Numeral)
    ensures r == Wrap32(Denotes(text))
    ensures text == n.blank + n.mark + n.digits + n.rest && IsNumeral(n) && r == Wrap32(Read(n))
  {
    hide Wrap32, Horner, Scan, White, Decimal, SkipSpace;
    ghost var blank;
    var s, neg := "", false;
    s, blank := SkipWhite(text);
    ghost var mark, all := "", s;
    if s != "" && (s[0] == '-' || s[0] == '+') {
      neg := s[0] == '-';
      mark := [s[0]];
      s := s[1..];
    }
    assert all == mark + s;
    ghost var digits, rest;
    r, digits, rest := AtoiDigits(s, neg);
    n := Numeral(blank, mark, digits, rest);
    TakenApart(blank, mark, digits, rest);
  }

  lemma TakenApart(blank: string, mark: string, digits: string, rest: string)
    ensures blank + mark + digits + rest == blank + (mark + (digits + rest))
    ensures mark == "" && digits == "" ==> mark + (digits + rest) == rest
  {
  }

  /** The white space in front. */
  method SkipWhite(text: string) returns (s: string, ghost blank: string)
    ensures s == SkipSpace(text) && text == blank + s && forall i :: 0 <= i < |blank| ==> White(blank[i])
    ensures s != "" ==> !White(s[0])
  {
    hide White, IsSpace;
    s, blank := text, "";
    while s != "" && IsSpace(s[0])
      invariant SkipSpace(s) == SkipSpace(text)
      invariant text == blank + s && forall i :: 0 <= i < |blank| ==> White(blank[i])
      decreases |s|
    {
      KindOf(s[0]);
      blank := blank + [s[0]];
      s := s[1..];
    }
    if s != "" { KindOf(s[0]); }
  }

  /** The parser's tests of a character are those of a numeral. */
  lemma KindOf(c: char)
    ensures (IsSpace(c) <==> White(c)) && (IsDigit(c) <==> Decimal(c)) && (IsDigit(c) ==> CharValue(c) == DigitValue(c))
  {
  }

  /** The digits of a text and their value, with its sign. */
  method AtoiDigits(text: string, neg: bool) returns (r: int, ghost digits: string, ghost rest: string)
    ensures r == Wrap32(if neg then -Scan(text, 0) else Scan(text, 0))
    ensures text == digits + rest && (forall i :: 0 <= i < |digits| ==> Decimal(digits[i])) && (rest != "" ==> !Decimal(rest[0]))
    ensures r == Wrap32(if neg then -Horner(digits, 10) else Horner(digits, 10))
  {
    hide Wrap32, Horner, Decimal, IsDigit, CharValue, DigitValue;
    var s, n := text, 0;
    ghost var total := 0;
    digits := "";
    NoDigitsYet();
    while s != "" && IsDigit(s[0])
      invariant n == Wrap32(-total) && Scan(s, total) == Scan(text, 0)
      invariant text == digits + s && (forall i :: 0 <= i < |digits| ==> Decimal(digits[i])) && total == Horner(digits, 10)
      decreases |s|
    {
      KindOf(s[0]);
      WrapAbsorbed(-total, 10, -DigitValue(s[0]));
      HornerSnoc(digits, s[0], 10);
      digits := digits + [s[0]];
      n := Wrap32(10 * n - DigitValue(s[0]));
      total := 10 * total + DigitValue(s[0]);
      s := s[1..];
    }
    if s != "" { KindOf(s[0]); }
    rest := s;
    WrapAbsorbed(-total, -1, 0);
    r := if neg then n else Wrap32(-n);
  }

  lemma NoDigitsYet()
    ensures Wrap32(0) == 0 && Horner("", 10) == 0
  {
  }

  // ---- Printing then parsing ----

  lemma {:induction false} SkipBlanks(n: int, t: string)
    ensures SkipSpace(Repeat(' ', n) + t) == SkipSpace(t)
  {
    if n <= 0 {
      assert Repeat(' ', n) + t == t;
    } else {
      SkipBlanks(n - 1, [' '] + t);
      assert Repeat(' ', n) + t == Repeat(' ', n - 1) + ([' '] + t);
      assert ([' '] + t)[1..] == t;
    }
  }

  lemma {:induction false} ScanZeros(n: int, t: string)
    ensures Scan(Repeat('0', n) + t, 0) == Scan(t, 0)
  {
    if n <= 0 {
      assert Repeat('0', n) + t == t;
    } else {
      ScanZeros(n - 1, ['0'] + t);
      assert Repeat('0', n) + t == Repeat('0', n - 1) + (['0'] + t);
      assert (['0'] + t)[1..] == t;
    }
  }

  lemma {:induction false} ScanConcat(a: string, b: string, n: int)
    requires forall c <- a :: IsDigit(c)
    ensures Scan(a + b, n) == Scan(b, Scan(a, n))
  {
    if a == "" {
      assert a + b == b;
    } else {
      assert (a + b)[1..] == a[1..] + b;
      ScanConcat(a[1..], b, 10 * n + DigitValue(a[0]));
    }
  }

  lemma DecimalDigit(d: nat, small: bool)
    requires d < 10
    ensures IsDigit(DigitChar(d, small)) && DigitValue(DigitChar(d, small)) == d
  {
  }

  /** The decimal digits of u, followed by anything but a digit, scan back to u. */
  lemma {:induction false} ScanDigits(u: nat, small: bool, t: string)
    requires t == "" || !IsDigit(t[0])
    ensures Scan(Chars(DigitsOf(u, 10), small) + t, 0) == u
    ensures forall c <- Chars(DigitsOf(u, 10), small) :: IsDigit(c)
  {
    DecimalDigit(u % 10, small);
    if u < 10 {
      assert Chars(DigitsOf(u, 10), small) == [DigitChar(u, small)];
    } else {
      ScanDigits(u / 10, small, "");
      var head, last := Chars(DigitsOf(u / 10, 10), small), [DigitChar(u % 10, small)];
      CharsSnoc(DigitsOf(u / 10, 10), u % 10, small);
      assert head + "" == head;
      ScanConcat(head, last + t, 0);
      assert head + last + t == head + (last + t);
      assert (last + t)[1..] == t;
    }
  }

  /** The unsigned part of a decimal field: zeros, digits, blanks. */
  lemma ScanBody(u: nat, small: bool, zeros: int, more: int, blanks: int)
    ensures Scan(Repeat('0', zeros) + (Repeat('0', more) + Chars(DigitsOf(u, 10), small)) + Repeat(' ', blanks), 0) == u
  {
    hide DigitsOf, Chars;
    var ds, t := Chars(DigitsOf(u, 10), small), Repeat(' ', blanks);
    RepeatLength(' ', blanks);
    ScanDigits(u, small, t);
    ScanZeros(more, ds + t);
    ScanZeros(zeros, Repeat('0', more) + (ds + t));
    assert Repeat('0', zeros) + (Repeat('0', more) + ds) + t == Repeat('0', zeros) + (Repeat('0', more) + (ds + t));
  }

  lemma BodyStartsWithDigit(u: nat, small: bool, zeros: int, more: int, blanks: int)
    ensures var rest := Repeat('0', zeros) + (Repeat('0', more) + Chars(DigitsOf(u, 10), small)) + Repeat(' ', blanks);
            rest != "" && IsDigit(rest[0])
  {
    hide DigitsOf;
    var ds := Chars(DigitsOf(u, 10), small);
    RepeatLength('0', zeros);
    RepeatLength('0', more);
    ScanDigits(u, small, "");
    assert |ds| >= 1 && ds[0] in ds;
  }

  lemma {:induction false} SkipSpaceSigned(sign: string, rest: string)
    requires rest != "" && IsDigit(rest[0]) && (sign == "" || sign == "-" || sign == "+" || sign == " ")
    ensures SkipSpace(sign + rest) == if sign == " " then rest else sign + rest
  {
    assert sign != "" ==> (sign + rest)[0] == sign[0] && (sign + rest)[1..] == rest;
    assert sign == "" ==> sign + rest == rest;
    assert SkipSpace(rest) == rest;
  }

  lemma {:induction false} DenotesField(blanks: int, sign: string, rest: string, u: int)
    requires rest != "" && IsDigit(rest[0]) && Scan(rest, 0) == u
    requires sign == "" || sign == "-" || sign == "+" || sign == " "
    ensures Denotes(Repeat(' ', blanks) + sign + rest) == if sign == "-" then -u else u
  {
    hide Repeat, Scan, SkipSpace;
    SkipBlanks(blanks, sign + rest);
    SkipSpaceSigned(sign, rest);
    assert Repeat(' ', blanks) + sign + rest == Repeat(' ', blanks) + (sign + rest);
    assert sign != "" ==> (sign + rest)[0] == sign[0] && (sign + rest)[1..] == rest;
    assert sign == "" ==> sign + rest == rest;
  }

  /** Whatever the width, precision and flags, the decimal text of a signed 32-bit integer denotes it. */
  lemma TextDenotes(num: int, width: int, precision: int, flags: Flags)
    requires IsInt32(num) && flags.sign
    ensures Denotes(Text(num, 10, width, precision, flags)) == num
  {
    hide DigitsOf, Chars, Repeat, Scan, Denotes, ToUint32;
    OneWrap(num);
    var u := Magnitude(num, flags);
    var ds, sign := DigitsOf(u, 10), SignOf(num, flags);
    var body := Body(num, 10, precision, flags);
    var pad := width - |sign| - |body|;
    var blanks := if flags.left || flags.zeropad then 0 else pad;
    var zeros := if flags.zeropad && !flags.left then pad else 0;
    var after := if flags.left then pad else 0;
    NoRepeat(' ', 0);
    NoRepeat('0', 0);
    var rest := Repeat('0', zeros) + (Repeat('0', precision - |ds|) + Chars(ds, flags.small)) + Repeat(' ', after);
    ScanBody(u, flags.small, zeros, precision - |ds|, after);
    BodyStartsWithDigit(u, flags.small, zeros, precision - |ds|, after);
    DenotesField(blanks, sign, rest, u);
    Regroup(Repeat(' ', blanks), sign, Prefix(10, flags), Repeat('0', zeros), body, Repeat(' ', after));
  }

  lemma Regroup(lead: string, sign: string, prefix: string, mid: string, body: string, trail: string)
    requires prefix == ""
    ensures lead + (sign + prefix) + mid + body + trail == lead + sign + (mid + body + trail)
    ensures |sign + prefix| == |sign|
  {
    assert sign + prefix == sign;
  }

  /** `atoi` undoes `number` in base 10, the least integer included. */
  method PrintThenAtoi(num: int, width: int, precision: int, flags: Flags) returns (r: int)
    requires IsInt32(num) && flags.sign
    ensures r == num
  {
    var ok, text, parts := Print(num, 10, width, precision, flags);
    TextDenotes(num, width, precision, flags);
    var value, numeral := Atoi(text);
    r := value;
  }
}
