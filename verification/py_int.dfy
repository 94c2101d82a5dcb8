/**
 * Python's `int(text, base)` for the two bases the GUI uses (10 for the
 * custom resolution fields, 16 for the colour slices). The text may be
 * surrounded by whitespace, may carry one sign, in base 16 may start with
 * `0x` or `0X` (optionally followed by one underscore), and then needs at
 * least one digit; single underscores may separate digits. In base 10 at most
 * 4300 digits are accepted (Python's default limit on converting decimal
 * text, applied since Python 3.11). Anything else is a ValueError, here
 * `None`.
 */
module PyInt {
  import opened Wrappers

  /**
   * Characters `int()` strips around the number of an ASCII string: the C
   * `isspace` set. The separators 0x1C-0x1F, which `str.isspace()` accepts,
   * are not stripped and make the text invalid.
   */
  predicate IsSpace(c: char) {
    c == ' ' || c == '\t' || c == '\n' || c == '\r' || c == '\U{000B}' || c == '\U{000C}'
  }

  function StripLeading(s: string): (t: string)
    ensures |t| <= |s| && t == s[|s| - |t|..]
    ensures |t| > 0 ==> !IsSpace(t[0])
    ensures forall i :: 0 <= i < |s| - |t| ==> IsSpace(s[i])
  {
    if |s| > 0 && IsSpace(s[0]) then StripLeading(s[1..]) else s
  }

  function StripTrailing(s: string): (t: string)
    ensures |t| <= |s| && t == s[..|t|]
    ensures |t| > 0 ==> !IsSpace(t[|t| - 1])
    ensures forall i :: |t| <= i < |s| ==> IsSpace(s[i])
  {
    if |s| > 0 && IsSpace(s[|s| - 1]) then StripTrailing(s[..|s| - 1]) else s
  }

  function Strip(s: string): string {
    StripTrailing(StripLeading(s))
  }

  /** Value of a digit character in any base up to 36. */
  function DigitValue(c: char): Option<nat> {
    if '0' <= c <= '9' then Some(c as int - '0' as int)
    else if 'a' <= c <= 'z' then Some(c as int - 'a' as int + 10)
    else if 'A' <= c <= 'Z' then Some(c as int - 'A' as int + 10)
    else None
  }

  predicate IsDigit(c: char, base: nat) {
    DigitValue(c).Some? && DigitValue(c).value < base
  }

  /** Every character is a digit of `base` or an underscore. */
  predicate DigitsOrUnderscores(ds: string, base: nat) {
    forall i :: 0 <= i < |ds| ==> IsDigit(ds[i], base) || ds[i] == '_'
  }

  /** Digits of `base`, at least one, with single underscores only between digits. */
  predicate WellFormedDigits(ds: string, base: nat) {
    && |ds| > 0
    && IsDigit(ds[0], base) && IsDigit(ds[|ds| - 1], base)
    && DigitsOrUnderscores(ds, base)
    && (forall i :: 0 <= i < |ds| - 1 && ds[i] == '_' ==> ds[i + 1] != '_')
  }

  /** The number the digits spell, underscores skipped. */
  function DigitsValue(ds: string, base: nat): nat
    requires DigitsOrUnderscores(ds, base)
  {
    if |ds| == 0 then 0
    else
      var last := ds[|ds| - 1];
      assert IsDigit(last, base) || last == '_';
      var front := ds[..|ds| - 1];
      assert DigitsOrUnderscores(front, base) by {
        forall i | 0 <= i < |front| ensures IsDigit(front[i], base) || front[i] == '_' {
          assert front[i] == ds[i];
        }
      }
      var rest := DigitsValue(front, base);
      if last == '_' then rest else Shift(rest, base) + DigitValue(last).value
  }

  /** `rest * base`, kept apart so the multiplication stays out of the recursion's proof. */
  function Shift(rest: nat, base: nat): nat {
    rest * base
  }

  /** The body after an optional sign: `(negative, rest)`. */
  function SplitSign(t: string): (string, bool) {
    if |t| > 0 && t[0] == '-' then (t[1..], true)
    else if |t| > 0 && t[0] == '+' then (t[1..], false)
    else (t, false)
  }

  /** Drops a base-16 `0x`/`0X` prefix and one underscore right after it. */
  function DropHexPrefix(t: string): string {
    if |t| >= 2 && t[0] == '0' && (t[1] == 'x' || t[1] == 'X') then
      var rest := t[2..];
      if |rest| > 0 && rest[0] == '_' then rest[1..] else rest
    else t
  }

  /** Python's default `sys.get_int_max_str_digits()`. */
  const MaxStrDigits: nat := 4300

  /** How many digits a digit string holds, underscores not counted. */
  function DigitCount(ds: string): (n: nat)
    ensures n <= |ds|
  {
    if |ds| == 0 then 0 else DigitCount(ds[..|ds| - 1]) + (if ds[|ds| - 1] == '_' then 0 else 1)
  }

  /** The digit limit binds base 10 only; base 16, a power of two, is exempt. */
  predicate WithinDigitLimit(ds: string, base: nat) {
    base != 10 || DigitCount(ds) <= MaxStrDigits
  }

  /** The text after the sign and, in base 16, after the `0x` prefix. */
  function DigitPart(t: string, base: nat): string {
    var body := SplitSign(t).0;
    if base == 16 then DropHexPrefix(body) else body
  }

  /** The digits left after the sign and prefix, read if they are well formed. */
  function Unsigned(ds: string, base: nat): (v: Option<nat>)
    ensures v.Some? <==> WellFormedDigits(ds, base)
  {
    if WellFormedDigits(ds, base) then Some(DigitsValue(ds, base)) else None
  }

  /** The number in already stripped text: sign, base-16 prefix, digits. */
  function ParseStripped(t: string, base: nat): Option<int>
    requires base == 10 || base == 16
  {
    var ds := DigitPart(t, base);
    if !WithinDigitLimit(ds, base) then None
    else
      match Unsigned(ds, base)
      case None => None
      case Some(v) => Some(if SplitSign(t).1 then -(v as int) else v)
  }

  /**
   * `int(s, base)` for base 10 or 16: the text without surrounding
   * whitespace is an optional sign, in base 16 an optional `0x` prefix, and
   * well-formed digits within the digit limit; the value is the digits'
   * value, negated after a minus sign. None where Python raises ValueError.
   */
  function ParseInt(s: string, base: nat): (r: Option<int>)
    requires base == 10 || base == 16
    ensures var ds := DigitPart(Strip(s), base);
            r.Some? <==> WellFormedDigits(ds, base) && WithinDigitLimit(ds, base)
    ensures var ds := DigitPart(Strip(s), base);
            r.Some? ==> r.value == if SplitSign(Strip(s)).1 then -(DigitsValue(ds, base) as int) else DigitsValue(ds, base)
  {
    ParseStripped(Strip(s), base)
  }

  // ---------------------------------------------------------------------
  // Formatting, the inverse direction
  // ---------------------------------------------------------------------

  function DigitChar(d: nat): (c: char)
    requires d < 16
    ensures DigitValue(c) == Some(d)
  {
    if d < 10 then ('0' as int + d) as char else ('a' as int + d - 10) as char
  }

  /** Decimal spelling of a natural number, as `str(n)` writes it. */
  function Decimal(n: nat): (s: string)
    ensures |s| > 0
    decreases n
  {
    if n < 10 then [DigitChar(n)] else Decimal(n / 10) + [DigitChar(n % 10)]
  }

  /** Two lower-case hex digits, as `'%02x' % b` writes a byte. */
  function Hex2(b: nat): (s: string)
    requires b < 256
    ensures |s| == 2
  {
    [DigitChar(b / 16), DigitChar(b % 16)]
  }

  lemma {:induction false} DecimalDigits(n: nat)
    ensures forall i :: 0 <= i < |Decimal(n)| ==> IsDigit(Decimal(n)[i], 10)
    ensures WellFormedDigits(Decimal(n), 10)
    ensures DigitsValue(Decimal(n), 10) == n
    decreases n
  {
    if n >= 10 {
      DecimalDigits(n / 10);
      var s := Decimal(n);
      assert s[..|s| - 1] == Decimal(n / 10);
    }
  }

  lemma NoSpaceIsStripped(s: string)
    requires |s| > 0 && !IsSpace(s[0]) && !IsSpace(s[|s| - 1])
    ensures Strip(s) == s
  {
  }

  lemma {:induction false} PlainDigitCount(ds: string)
    requires forall i :: 0 <= i < |ds| ==> ds[i] != '_'
    ensures DigitCount(ds) == |ds|
  {
    if |ds| > 0 {
      var front := ds[..|ds| - 1];
      assert forall i :: 0 <= i < |front| ==> front[i] != '_' by {
        forall i | 0 <= i < |front| ensures front[i] != '_' {
          assert front[i] == ds[i];
        }
      }
      PlainDigitCount(front);
    }
  }

  /** A bare well-formed digit string parses to the value it spells, unless it exceeds the digit limit. */
  lemma ParseBareDigits(s: string, base: nat)
    requires base == 10 || base == 16
    requires WellFormedDigits(s, base)
    requires base == 16 ==> DropHexPrefix(s) == s
    ensures ParseInt(s, base) == if WithinDigitLimit(s, base) then Some(DigitsValue(s, base)) else None
  {
    NoSpaceIsStripped(s);
    assert SplitSign(s) == (s, false);
    assert DigitPart(s, base) == s;
  }

  /** `int(str(n))` gives `n` back, unless `str(n)` is longer than the digit limit. */
  lemma ParseDecimal(n: nat)
    ensures ParseInt(Decimal(n), 10) == if |Decimal(n)| <= MaxStrDigits then Some(n) else None
  {
    var s := Decimal(n);
    DecimalDigits(n);
    DecimalDigitCount(n);
    ParseBareDigits(s, 10);
  }

  lemma DecimalDigitCount(n: nat)
    ensures DigitCount(Decimal(n)) == |Decimal(n)|
  {
    DecimalDigits(n);
    PlainDigitCount(Decimal(n));
  }

  /** `int('%02x' % b, 16)` gives `b` back. */
  lemma ParseHex2(b: nat)
    requires b < 256
    ensures ParseInt(Hex2(b), 16) == Some(b)
  {
    var s := Hex2(b);
    assert s[..1][..0] == [];
    assert DigitsValue(s[..1], 16) == b / 16;
    assert DigitsValue(s, 16) == b;
    ParseBareDigits(s, 16);
  }

  /** A minus sign before a bare well-formed digit string negates its value, within the digit limit. */
  lemma ParseNegatedDigits(d: string, base: nat)
    requires base == 10 || base == 16
    requires WellFormedDigits(d, base)
    requires base == 16 ==> DropHexPrefix(d) == d
    ensures ParseInt("-" + d, base) == if WithinDigitLimit(d, base) then Some(-(DigitsValue(d, base) as int)) else None
  {
    var t := "-" + d;
    MinusIsKept(d);
    NegatedStripped(d, base);
    assert Unsigned(d, base) == Some(DigitsValue(d, base));
    assert ParseInt(t, base) == ParseStripped(t, base);
  }

  lemma MinusIsKept(d: string)
    requires |d| > 0 && !IsSpace(d[|d| - 1])
    ensures Strip("-" + d) == "-" + d
  {
    var s := "-" + d;
    assert s[|s| - 1] == d[|d| - 1];
    NoSpaceIsStripped(s);
  }

  lemma NegatedStripped(d: string, base: nat)
    requires base == 10 || base == 16
    requires base == 16 ==> DropHexPrefix(d) == d
    ensures DigitPart("-" + d, base) == d && SplitSign("-" + d).1
  {
    assert ("-" + d)[1..] == d;
  }

  predicate AllSpace(s: string) {
    forall i :: 0 <= i < |s| ==> IsSpace(s[i])
  }

  /** Whitespace around the number is ignored, however much of it there is. */
  lemma SurroundingSpaceIgnored(pre: string, s: string, post: string, base: nat)
    requires base == 10 || base == 16
    requires AllSpace(pre) && AllSpace(post)
    ensures ParseInt(pre + s + post, base) == ParseInt(s, base)
  {
    StripAround(pre, s, post);
    SameStripSameParse(pre + s + post, s, base);
  }

  lemma SameStripSameParse(s1: string, s2: string, base: nat)
    requires base == 10 || base == 16
    requires Strip(s1) == Strip(s2)
    ensures ParseInt(s1, base) == ParseInt(s2, base)
  {
  }

  lemma StripAround(pre: string, s: string, post: string)
    requires AllSpace(pre) && AllSpace(post)
    ensures Strip(pre + s + post) == Strip(s)
  {
    assert pre + s + post == pre + (s + post);
    StripLeadingSpaces(pre, s + post);
    StripLeadingAppend(s, post);
    var a := StripLeading(s);
    if |a| > 0 {
      StripTrailingSpaces(a, post);
    } else {
      StripLeadingSpaces(post, []);
      assert post + [] == post;
    }
  }

  lemma {:induction false} StripLeadingSpaces(pre: string, t: string)
    requires AllSpace(pre)
    ensures StripLeading(pre + t) == StripLeading(t)
  {
    if |pre| > 0 {
      assert (pre + t)[0] == pre[0];
      assert (pre + t)[1..] == pre[1..] + t;
      assert AllSpace(pre[1..]) by {
        forall i | 0 <= i < |pre[1..]| ensures IsSpace(pre[1..][i]) {
          assert pre[1..][i] == pre[i + 1];
        }
      }
      StripLeadingSpaces(pre[1..], t);
    } else {
      assert pre + t == t;
    }
  }

  lemma {:induction false} StripTrailingSpaces(t: string, post: string)
    requires AllSpace(post)
    ensures StripTrailing(t + post) == StripTrailing(t)
  {
    if |post| > 0 {
      var s := t + post;
      var front := post[..|post| - 1];
      assert s[|s| - 1] == post[|post| - 1];
      assert s[..|s| - 1] == t + front;
      assert AllSpace(front) by {
        forall i | 0 <= i < |front| ensures IsSpace(front[i]) {
          assert front[i] == post[i];
        }
      }
      StripTrailingSpaces(t, front);
    } else {
      assert t + post == t;
    }
  }

  lemma {:induction false} StripLeadingAppend(s: string, t: string)
    ensures StripLeading(s + t) == if |StripLeading(s)| > 0 then StripLeading(s) + t else StripLeading(t)
  {
    if |s| == 0 {
      assert s + t == t;
    } else if IsSpace(s[0]) {
      assert (s + t)[1..] == s[1..] + t;
      StripLeadingAppend(s[1..], t);
    }
  }

  /** The empty string (and so an empty slice) is not a number. */
  lemma EmptyDoesNotParse(base: nat)
    requires base == 10 || base == 16
    ensures ParseInt("", base) == None
  {
    assert Strip("") == "";
  }

  /** The separators 0x1C-0x1F are not whitespace to `int()`: text starting with one is refused. */
  lemma SeparatorIsNotSpace(t: string, base: nat)
    requires base == 10 || base == 16
    requires |t| > 0 && '\U{001C}' <= t[0] <= '\U{001F}'
    ensures ParseInt(t, base) == None
  {
    SeparatorStaysFirst(t);
    NonDigitStartRefused(t, base);
  }

  lemma SeparatorStaysFirst(t: string)
    requires |t| > 0 && '\U{001C}' <= t[0] <= '\U{001F}'
    ensures |Strip(t)| > 0 && Strip(t)[0] == t[0]
  {
    assert StripLeading(t) == t;
  }

  lemma NonDigitStartRefused(t: string, base: nat)
    requires base == 10 || base == 16
    requires |Strip(t)| > 0 && DigitValue(Strip(t)[0]).None? && Strip(t)[0] != '-' && Strip(t)[0] != '+'
    ensures ParseInt(t, base) == None
  {
    var u := Strip(t);
    assert SplitSign(u).0 == u;
    assert DigitPart(u, base) == u;
  }
}
