/** What a printed number looks like, said on characters: an account of the field that does not depend
    on how it is produced, and that leaves one text for each number and format. */
module NumberForm {
  import opened CInt

  datatype Flags = Flags(zeropad: bool, sign: bool, plus: bool, space: bool, left: bool, special: bool, small: bool)

  /** What a character is worth as a digit, -1 if it is none. */
  function CharValue(c: char): int {
    if '0' <= c <= '9' then c as int - '0' as int
    else if 'a' <= c <= 'z' then c as int - 'a' as int + 10
    else if 'A' <= c <= 'Z' then c as int - 'A' as int + 10
    else -1
  }

  /** Horner's rule. */
  function Horner(s: string, base: nat): int {
    if s == "" then 0 else Horner(s[..|s| - 1], base) * base + CharValue(s[|s| - 1])
  }

  /** Digits of the base, letters in the case asked for, no leading zero but in "0" itself. */
  predicate Canonical(s: string, base: nat, small: bool) {
    && |s| >= 1 && (|s| > 1 ==> s[0] != '0')
    && forall i :: 0 <= i < |s| ==> 0 <= CharValue(s[i]) < base && ('a' <= s[i] <= 'z' ==> small) && ('A' <= s[i] <= 'Z' ==> !small)
  }

  predicate All(s: string, c: char) { forall i :: 0 <= i < |s| ==> s[i] == c }

  datatype Parts = Parts(lead: string, mark: string, prefix: string, zeros: string, digits: string, trail: string)

  function Join(p: Parts): string { p.lead + p.mark + p.prefix + p.zeros + p.digits + p.trail }

  function Larger(a: int, b: int): int { if a < b then b else a }

  /** The value printed: the number, or without SIGN its 32 bits read as unsigned. */
  function Value(num: int, flags: Flags): int {
    if num >= 0 then num else if flags.sign then -num else num + UINT32_SIZE
  }

  predicate Marked(mark: string, num: int, flags: Flags) {
    mark == if num < 0 && flags.sign then "-" else if flags.plus then "+" else if flags.space then " " else ""
  }

  predicate Prefixed(prefix: string, base: nat, flags: Flags) {
    && (flags.special && base == 8 ==> prefix == "0")
    && (flags.special && base == 16 ==> prefix == if flags.small then "0x" else "0X")
    && (!flags.special || (base != 8 && base != 16) ==> prefix == "")
  }

  /** Blanks, sign, base prefix, zeros, digits, blanks: the digits are those of the value; the field is
      as wide as asked for or as sign, prefix and digits need; it is filled with blanks in front, with
      zeros if zero-padded, with blanks behind if left-justified; otherwise zeros only fill up to the
      precision. */
  predicate IsField(p: Parts, num: int, base: nat, width: int, precision: int, flags: Flags) {
    && All(p.lead, ' ') && All(p.zeros, '0') && All(p.trail, ' ')
    && Marked(p.mark, num, flags) && Prefixed(p.prefix, base, flags)
    && Canonical(p.digits, base, flags.small) && Horner(p.digits, base) == Value(num, flags)
    && |Join(p)| == Larger(width, |p.mark| + |p.prefix| + Larger(precision, |p.digits|))
    && (p.lead != "" ==> !flags.left && !flags.zeropad) && (p.trail != "" ==> flags.left)
    && |p.zeros| >= Larger(precision, |p.digits|) - |p.digits|
    && (flags.left || !flags.zeropad ==> |p.zeros| == Larger(precision, |p.digits|) - |p.digits|)
  }

  lemma NextMultiple(a: int, b: int, base: nat)
    requires a < b
    ensures a * base + base <= b * base
  {
    var k := b - a - 1;
    assert k * base >= 0;
    assert b * base == (a + 1 + k) * base == a * base + base + k * base;
  }

  lemma LastDigit(a: int, b: int, base: nat, x: int, y: int)
    requires 0 <= x < base && 0 <= y < base && a * base + x == b * base + y
    ensures a == b && x == y
  {
    if a < b {
      NextMultiple(a, b, base);
    } else if b < a {
      NextMultiple(b, a, base);
    }
  }

  lemma SameChar(c: char, d: char, small: bool)
    requires CharValue(c) == CharValue(d) >= 0
    requires ('a' <= c <= 'z' ==> small) && ('A' <= c <= 'Z' ==> !small) && ('a' <= d <= 'z' ==> small) && ('A' <= d <= 'Z' ==> !small)
    ensures c == d
  {
  }

  /** Digits of the base in one case of letters; a leading zero is allowed. */
  predicate Digits(s: string, base: nat, small: bool) {
    forall i :: 0 <= i < |s| ==> 0 <= CharValue(s[i]) < base && ('a' <= s[i] <= 'z' ==> small) && ('A' <= s[i] <= 'Z' ==> !small)
  }

  lemma {:induction false} HornerSign(s: string, base: nat, small: bool)
    requires base >= 2 && Digits(s, base, small)
    ensures Horner(s, base) >= 0 && (s != "" && s[0] != '0' ==> Horner(s, base) > 0)
  {
    hide CharValue;
    if s != "" {
      var n := |s| - 1;
      var h := Horner(s[..n], base);
      HornerSign(s[..n], base, small);
      Multiple(h, base);
      OnlyZero(s[n]);
    }
  }

  lemma Multiple(a: int, base: nat)
    requires a >= 0 && base >= 2
    ensures a * base >= a
  {
    assert a * base == a + a * (base - 1);
    assert a * (base - 1) >= 0;
  }

  lemma OnlyZero(c: char)
    ensures CharValue(c) == 0 ==> c == '0'
  {
  }

  /** A value has one digit string without a leading zero. */
  lemma {:induction false} DigitsUnique(s: string, t: string, base: nat, small: bool)
    requires base >= 2 && Digits(s, base, small) && Digits(t, base, small) && Horner(s, base) == Horner(t, base)
    requires (s != "" ==> s[0] != '0') && (t != "" ==> t[0] != '0')
    ensures s == t
  {
    HornerSign(s, base, small);
    HornerSign(t, base, small);
    if s != "" && t != "" {
      var m, n := |s| - 1, |t| - 1;
      LastDigit(Horner(s[..m], base), Horner(t[..n], base), base, CharValue(s[m]), CharValue(t[n]));
      SameChar(s[m], t[n], small);
      DigitsUnique(s[..m], t[..n], base, small);
      assert s == s[..m] + [s[m]] && t == t[..n] + [t[n]];
    }
  }

  lemma CanonicalUnique(s: string, t: string, base: nat, small: bool)
    requires base >= 2 && Canonical(s, base, small) && Canonical(t, base, small) && Horner(s, base) == Horner(t, base)
    ensures s == t
  {
    HornerSign(s, base, small);
    HornerSign(t, base, small);
    ZeroIs(s, base);
    ZeroIs(t, base);
    if s[0] != '0' && t[0] != '0' {
      DigitsUnique(s, t, base, small);
    }
  }

  lemma ZeroIs(s: string, base: nat)
    requires |s| >= 1 && (|s| > 1 ==> s[0] != '0')
    ensures s[0] == '0' ==> s == "0" && Horner(s, base) == 0
  {
    if s[0] == '0' {
      assert s == "0" && s[..0] == "";
    }
  }

  lemma AllUnique(s: string, t: string, c: char)
    requires All(s, c) && All(t, c) && |s| == |t|
    ensures s == t
  {
  }

  /** The account leaves no choice: a number and a format have one field. */
  lemma FieldUnique(p: Parts, q: Parts, num: int, base: nat, width: int, precision: int, flags: Flags)
    requires base >= 2 && IsField(p, num, base, width, precision, flags) && IsField(q, num, base, width, precision, flags)
    ensures p == q
  {
    hide Canonical, Horner, All;
    CanonicalUnique(p.digits, q.digits, base, flags.small);
    SameFill(p, q, num, base, width, precision, flags);
    AllUnique(p.lead, q.lead, ' ');
    AllUnique(p.zeros, q.zeros, '0');
    AllUnique(p.trail, q.trail, ' ');
  }

  lemma SameFill(p: Parts, q: Parts, num: int, base: nat, width: int, precision: int, flags: Flags)
    requires IsField(p, num, base, width, precision, flags) && IsField(q, num, base, width, precision, flags) && p.digits == q.digits
    ensures p.mark == q.mark && p.prefix == q.prefix && |p.lead| == |q.lead| && |p.zeros| == |q.zeros| && |p.trail| == |q.trail|
  {
    hide Canonical, Horner, All;
    assert |Join(p)| == |p.lead| + |p.mark| + |p.prefix| + |p.zeros| + |p.digits| + |p.trail|;
    assert |Join(q)| == |q.lead| + |q.mark| + |q.prefix| + |q.zeros| + |q.digits| + |q.trail|;
  }

  // ---- Numerals as a parser reads them ----

  datatype Numeral = Numeral(blank: string, mark: string, digits: string, rest: string)

  predicate White(c: char) { c in {' ', '\t', '\n', '\U{000B}', '\U{000C}', '\r'} }

  predicate Decimal(c: char) { c in {'0', '1', '2', '3', '4', '5', '6', '7', '8', '9'} }

  /** White space, at most one sign, decimal digits as far as they go, and whatever follows. */
  predicate IsNumeral(n: Numeral) {
    && (forall i :: 0 <= i < |n.blank| ==> White(n.blank[i])) && n.mark in {"", "-", "+"}
    && (forall i :: 0 <= i < |n.digits| ==> Decimal(n.digits[i])) && (n.rest != "" ==> !Decimal(n.rest[0]))
    && (n.mark == "" && n.digits == "" && n.rest != "" ==> !White(n.rest[0]) && n.rest[0] != '-' && n.rest[0] != '+')
  }

  function Read(n: Numeral): int { if n.mark == "-" then -Horner(n.digits, 10) else Horner(n.digits, 10) }
}
