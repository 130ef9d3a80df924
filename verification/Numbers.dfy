/**
  Numbers as text: what printnum of lib/printfmt.c emits, strtol of lib/string.c, and the round trip
  between them.  A string is a sequence without its terminating NUL.
 */
module Numbers {
  import opened Mmu

  function CharAt(s: string, i: nat): char {
    if i < |s| then s[i] else '\0'
  }

  function Repeat(c: char, n: int): (s: string)
    ensures |s| == if n > 0 then n else 0
    ensures forall i :: 0 <= i < |s| ==> s[i] == c
    decreases n
  {
    if n <= 0 then "" else Repeat(c, n - 1) + [c]
  }

  // ---- printing -----------------------------------------------------------------------------

  /** `"0123456789abcdef"[d]` */
  function Digit(d: nat): char
    requires d < 16
  {
    "0123456789abcdef"[d]
  }

  function Quotient(num: nat, base: nat): (q: nat)
    requires base >= 2
    ensures num > 0 ==> q < num
  {
    if num == 0 then 0 else QuotientSmaller(num, base); num / base
  }

  lemma QuotientSmaller(num: nat, base: nat)
    requires base >= 2 && num > 0
    ensures 0 <= num / base < num
  {
    var q := num / base;
    assert num == q * base + num % base;
    assert q * base >= q * 2;
  }

  function Remainder(num: nat, base: nat): (d: nat)
    requires base >= 2
    ensures d < base
  {
    num % base
  }

  /** The number whose digits are those of val and then dig. */
  function Extend(val: nat, base: nat, dig: nat): nat {
    val * base + dig
  }

  lemma QuotientRemainder(num: nat, base: nat)
    requires base >= 2
    ensures Extend(Quotient(num, base), base, Remainder(num, base)) == num
    ensures num < base ==> Remainder(num, base) == num
  {
  }

  /** num in base, most significant digit first. */
  function Digits(num: nat, base: nat): (s: string)
    requires 2 <= base <= 16
    ensures s != ""
    decreases num
  {
    (if num >= base then Digits(Quotient(num, base), base) else "") + [Digit(Remainder(num, base))]
  }

  /** What printnum emits. */
  function Printed(num: nat, base: nat, width: int, padc: char): string
    requires 2 <= base <= 16
    decreases num
  {
    (if num >= base then Printed(Quotient(num, base), base, width - 1, padc) else Repeat(padc, width - 1))
    + [Digit(Remainder(num, base))]
  }

  /** printnum pads the digits on the left to width, so it emits max(width, number of digits) characters. */
  lemma {:induction false} PrintedIsPadded(num: nat, base: nat, width: int, padc: char)
    requires 2 <= base <= 16
    ensures Printed(num, base, width, padc) == Repeat(padc, width - |Digits(num, base)|) + Digits(num, base)
    ensures |Printed(num, base, width, padc)| == if width > |Digits(num, base)| then width else |Digits(num, base)|
    decreases num
  {
    hide Quotient;
    hide Remainder;
    hide Digit;
    var last := [Digit(Remainder(num, base))];
    if num >= base {
      var q := Quotient(num, base);
      PrintedIsPadded(q, base, width - 1, padc);
      var init := Digits(q, base);
      assert Digits(num, base) == init + last;
      assert Printed(num, base, width, padc) == Repeat(padc, width - 1 - |init|) + init + last;
    } else {
      assert Digits(num, base) == last;
    }
  }

  // ---- strtol -------------------------------------------------------------------------------

  /** The digit that strtol takes c for; NODIGIT if it is none. */
  const NODIGIT := 36

  function DigitValue(c: char): nat {
    if '0' <= c <= '9' then c as int - '0' as int
    else if 'a' <= c <= 'z' then c as int - 'a' as int + 10
    else if 'A' <= c <= 'Z' then c as int - 'A' as int + 10
    else NODIGIT
  }

  function SkipBlanks(s: string, i: nat): nat
    decreases |s| - i
  {
    if CharAt(s, i) == ' ' || CharAt(s, i) == '\t' then SkipBlanks(s, i + 1) else i
  }

  /** A 32-bit long keeps the low 32 bits of a number. */
  function Wrap32(n: int): (val: Int32)
    ensures val == n <==> -0x8000_0000 <= n < 0x8000_0000
  {
    (n + 0x8000_0000) % 0x1_0000_0000 - 0x8000_0000
  }

  /** `val * base + dig` in a 32-bit long; overflow is not detected. */
  function MulAdd(val: Int32, base: int, dig: nat): Int32 {
    Wrap32(val as int * base + dig)
  }

  function ReadDigits(s: string, i: nat, base: int, val: Int32): (Int32, nat)
    decreases |s| - i
  {
    var dig := DigitValue(CharAt(s, i));
    if dig == NODIGIT || dig >= base then (val, i) else ReadDigits(s, i + 1, base, MulAdd(val, base, dig))
  }

  function Negate(val: Int32): Int32 {
    if val == -0x8000_0000 then val else -val
  }

  /** Past a 0x or 0 prefix, and the base in force then. */
  function SkipPrefix(s: string, i: nat, base: int): (nat, int) {
    if (base == 0 || base == 16) && CharAt(s, i) == '0' && CharAt(s, i + 1) == 'x' then (i + 2, 16)
    else if base == 0 && CharAt(s, i) == '0' then (i + 1, 8)
    else if base == 0 then (i, 10)
    else (i, base)
  }

  /** strtol: the value, and where *endptr is left. */
  function Parse(s: string, base: int): (Int32, nat)
  {
    var i0 := SkipBlanks(s, 0);
    var neg := CharAt(s, i0) == '-';
    var i1 := if CharAt(s, i0) == '+' || neg then i0 + 1 else i0;
    var (i2, base') := SkipPrefix(s, i1, base);
    var (val, end) := ReadDigits(s, i2, base', 0);
    (if neg then Negate(val) else val, end)
  }

  /** The last loop of strtol. */
  method TakeDigits(s: string, start: nat, base: int) returns (val: Int32, i: nat)
    ensures (val, i) == ReadDigits(s, start, base, 0)
  {
    hide MulAdd;
    val, i := 0, start;
    while true
      invariant ReadDigits(s, i, base, val) == ReadDigits(s, start, base, 0)
      decreases |s| - i
    {
      var dig := 0;
      var c := CharAt(s, i);
      if '0' <= c <= '9' {
        dig := c as int - '0' as int;
      } else if 'a' <= c <= 'z' {
        dig := c as int - 'a' as int + 10;
      } else if 'A' <= c <= 'Z' {
        dig := c as int - 'A' as int + 10;
      } else {
        break;
      }
      if dig >= base {
        break;
      }
      i := i + 1;
      val := MulAdd(val, base, dig);
    }
  }

  method Strtol(s: string, base: int) returns (val: Int32, endptr: nat)
    ensures (val, endptr) == Parse(s, base)
  {
    hide MulAdd;
    hide Negate;
    var neg := false;
    val := 0;
    var i, b := 0, base;
    while CharAt(s, i) == ' ' || CharAt(s, i) == '\t'
      invariant SkipBlanks(s, i) == SkipBlanks(s, 0)
      decreases |s| - i
    {
      i := i + 1;
    }
    if CharAt(s, i) == '+' {
      i := i + 1;
    } else if CharAt(s, i) == '-' {
      i := i + 1;
      neg := true;
    }
    if (b == 0 || b == 16) && CharAt(s, i) == '0' && CharAt(s, i + 1) == 'x' {
      i := i + 2;
      b := 16;
    } else if b == 0 && CharAt(s, i) == '0' {
      i := i + 1;
      b := 8;
    } else if b == 0 {
      b := 10;
    }
    val, i := TakeDigits(s, i, b);
    return if neg then Negate(val) else val, i;
  }

  // ---- the round trip -----------------------------------------------------------------------

  ghost predicate AllDigits(s: string, base: nat) {
    forall i :: 0 <= i < |s| ==> DigitValue(s[i]) < base
  }

  /** The number that a string of digits stands for. */
  ghost function Value(s: string, base: nat): nat {
    if s == "" then 0 else Extend(Value(s[..|s| - 1], base), base, DigitValue(s[|s| - 1]))
  }

  lemma DigitRead(d: nat)
    requires d < 16
    ensures DigitValue(Digit(d)) == d && Digit(d) !in " \t+-x"
  {
  }

  lemma {:induction false} DigitsValue(num: nat, base: nat)
    requires 2 <= base <= 16
    ensures AllDigits(Digits(num, base), base) && Value(Digits(num, base), base) == num
    decreases num
  {
    hide Digit;
    var s := Digits(num, base);
    var init := if num >= base then Digits(Quotient(num, base), base) else "";
    assert s == init + [Digit(Remainder(num, base))] && s[..|s| - 1] == init;
    DigitRead(Remainder(num, base));
    QuotientRemainder(num, base);
    hide Extend;
    hide Quotient;
    hide Remainder;
    if num >= base {
      DigitsValue(Quotient(num, base), base);
    }
  }

  /** Leading zeros do not change the value. */
  lemma {:induction false} ZerosInFront(k: int, s: string, base: nat)
    ensures Value(Repeat('0', k) + s, base) == Value(s, base)
    decreases |s|, k
  {
    var t := Repeat('0', k) + s;
    if s != "" {
      assert t[..|t| - 1] == Repeat('0', k) + s[..|s| - 1];
      ZerosInFront(k, s[..|s| - 1], base);
    } else if k > 0 {
      assert t == Repeat('0', k) && t[..|t| - 1] == Repeat('0', k - 1) + "";
      ZerosInFront(k - 1, "", base);
      assert Extend(0, base, 0) == 0;
    }
  }

  lemma NulIsNoDigit()
    ensures DigitValue('\0') == NODIGIT
  {
  }

  lemma WrapTurns(n: int, turns: int)
    ensures Wrap32(n - turns * 0x1_0000_0000) == Wrap32(n)
  {
  }

  lemma MulAddExtends(val: nat, base: nat, dig: nat)
    ensures MulAdd(Wrap32(val), base, dig) == Wrap32(Extend(val, base, dig))
  {
    var turns := (val + 0x8000_0000) / 0x1_0000_0000;
    assert Wrap32(val) == val - turns * 0x1_0000_0000;
    assert (val - turns * 0x1_0000_0000) * base + dig == Extend(val, base, dig) - turns * base * 0x1_0000_0000;
    WrapTurns(Extend(val, base, dig), turns * base);
  }

  lemma NegateWraps(n: nat)
    ensures Negate(Wrap32(n)) == Wrap32(-(n as int))
  {
  }

  /** Reading on from position i of a run of digits that ends the string. */
  lemma {:induction false} ReadsAll(s: string, start: nat, i: nat, base: nat)
    requires start <= i <= |s| && 1 <= base <= 36
    requires AllDigits(s[start..], base)
    ensures ReadDigits(s, i, base, Wrap32(Value(s[start..i], base))) == (Wrap32(Value(s[start..], base)), |s|)
    decreases |s| - i
  {
    hide Extend;
    hide MulAdd;
    hide DigitValue;
    hide Wrap32;
    if i < |s| {
      assert DigitValue(s[i]) < base by { assert s[i] == s[start..][i - start]; }
      assert s[start..i + 1][..i - start] == s[start..i];
      MulAddExtends(Value(s[start..i], base), base, DigitValue(s[i]));
      ReadsAll(s, start, i + 1, base);
    } else {
      assert s[start..i] == s[start..];
      NulIsNoDigit();
    }
  }

  lemma {:induction false} SkipsBlanks(s: string, i: nat, k: nat)
    requires i <= k < |s| && (forall m :: i <= m < k ==> s[m] == ' ') && s[k] != ' ' && s[k] != '\t'
    ensures SkipBlanks(s, i) == k
    decreases k - i
  {
    if i < k {
      SkipsBlanks(s, i + 1, k);
    }
  }

  lemma DigitChars(s: string, base: nat, i: nat)
    requires AllDigits(s, base) && base <= 16 && i < |s|
    ensures s[i] !in " \t+-x"
  {
  }

  /** strtol on blanks followed by digits to the end. */
  lemma ParseDigits(s: string, k: nat, base: nat)
    requires k < |s| && 2 <= base <= 16 && (forall m :: 0 <= m < k ==> s[m] == ' ')
    requires AllDigits(s[k..], base)
    ensures Parse(s, base) == (Wrap32(Value(s[k..], base)), |s|)
  {
    hide Value;
    hide ReadDigits;
    hide SkipBlanks;
    DigitChars(s[k..], base, 0);
    assert s[k] == s[k..][0];
    if k + 1 < |s| {
      DigitChars(s[k..], base, 1);
      assert s[k + 1] == s[k..][1];
    }
    SkipsBlanks(s, 0, k);
    assert s[k..k] == "";
    EmptyValue(base);
    ReadsAll(s, k, k, base);
  }

  /**
    Of whatever printnum prints of n, padded with blanks or zeros, strtol reads the low 32 bits back, to
    the end; and so n itself exactly when it is a long.
   */
  lemma RoundTrip(n: nat, base: nat, width: int, padc: char)
    requires 2 <= base <= 16 && (padc == ' ' || padc == '0')
    ensures var s := Printed(n, base, width, padc);
      Parse(s, base) == (Wrap32(n), |s|) && (Parse(s, base).0 == n <==> n < 0x8000_0000)
  {
    hide Parse;
    hide Printed;
    hide Digits;
    hide Value;
    hide Repeat;
    var s := Printed(n, base, width, padc);
    var d := Digits(n, base);
    PrintedIsPadded(n, base, width, padc);
    DigitsValue(n, base);
    var k := |s| - |d|;
    if padc == ' ' {
      assert s[k..] == d;
      ParseDigits(s, k, base);
    } else {
      ZerosInFront(width - |d|, d, base);
      assert s[0..] == s;
      ParseDigits(s, 0, base);
    }
  }

  /** A 0x prefix, for base 16 or for base 0, is skipped. */
  lemma HexPrefix(n: nat, width: int, base: nat)
    requires base == 0 || base == 16
    ensures var s := "0x" + Printed(n, 16, width, '0'); Parse(s, base) == (Wrap32(n), |s|)
  {
    hide Printed;
    hide Digits;
    hide Value;
    hide ReadDigits;
    var t, d := Printed(n, 16, width, '0'), Digits(n, 16);
    var s := "0x" + t;
    PrintedIsPadded(n, 16, width, '0');
    DigitsValue(n, 16);
    ZerosInFront(width - |d|, d, 16);
    assert s[2..] == t && s[2..2] == "";
    EmptyValue(16);
    ReadsAll(s, 2, 2, 16);
    assert SkipBlanks(s, 0) == 0 && CharAt(s, 0) == '0' && CharAt(s, 1) == 'x';
  }

  lemma EmptyValue(base: nat)
    ensures Value("", base) == 0
  {
  }

  /** With base 0 a leading 0 means octal. */
  lemma OctalPrefix(n: nat)
    ensures var s := "0" + Digits(n, 8); Parse(s, 0) == (Wrap32(n), |s|)
  {
    hide Digits;
    hide Value;
    hide ReadDigits;
    var d := Digits(n, 8);
    var s := "0" + d;
    DigitsValue(n, 8);
    assert s[1..] == d && s[1..1] == "";
    EmptyValue(8);
    ReadsAll(s, 1, 1, 8);
    assert SkipBlanks(s, 0) == 0 && CharAt(s, 0) == '0' && CharAt(s, 1) == d[0];
    assert DigitValue(d[0]) < 8;
  }

  /** Padded with '-', digits come out padded on the right exactly when there is no room for padding. */
  lemma DashesGoLeft(num: nat, base: nat, width: int, k: int)
    requires 2 <= base <= 16
    ensures Printed(num, base, width, '-') == Digits(num, base) + Repeat(' ', k) ==> width <= |Digits(num, base)|
    ensures width <= |Digits(num, base)| ==> Printed(num, base, width, '-') == Digits(num, base)
  {
    hide Digits;
    hide Printed;
    hide Value;
    var d := Digits(num, base);
    PrintedIsPadded(num, base, width, '-');
    DigitsValue(num, base);
    DigitChars(d, base, 0);
    if width > |d| {
      assert Printed(num, base, width, '-')[0] == '-';
      assert (d + Repeat(' ', k))[0] == d[0];
    }
  }

  // ---- printnum and strtol by the digit -----------------------------------------------------

  /** The number with these digits, most significant first. */
  ghost function NumberOf(ds: seq<nat>, base: nat): nat {
    if ds == [] then 0 else NumberOf(ds[..|ds| - 1], base) * base + ds[|ds| - 1]
  }

  lemma NumberOfNext(ds: seq<nat>, k: nat, base: nat)
    requires k < |ds|
    ensures NumberOf(ds[..k + 1], base) == NumberOf(ds[..k], base) * base + ds[k]
  {
    assert ds[..k + 1][..k] == ds[..k];
  }

  /** A digit of a base up to 16, in lower case. */
  ghost predicate LowerDigit(c: char, d: nat) {
    if d < 10 then c as int == '0' as int + d else d < 16 && c as int == 'a' as int + (d - 10)
  }

  /** text is num in base: digits of the base in lower case, without leading zeros. */
  ghost predicate Writes(text: string, num: nat, base: nat) {
    exists ds: seq<nat> ::
      && |ds| == |text| > 0 && NumberOf(ds, base) == num && (|ds| > 1 ==> ds[0] > 0)
      && forall i :: 0 <= i < |ds| ==> ds[i] < base && LowerDigit(text[i], ds[i])
  }

  lemma {:induction false} DigitsWrite(num: nat, base: nat) returns (ds: seq<nat>)
    requires 2 <= base <= 16
    ensures var text := Digits(num, base);
      && |ds| == |text| > 0 && NumberOf(ds, base) == num && (num > 0 ==> ds[0] > 0) && (num == 0 ==> |ds| == 1)
      && forall i :: 0 <= i < |ds| ==> ds[i] < base && LowerDigit(text[i], ds[i])
    decreases num
  {
    QuotientRemainder(num, base);
    var last := Remainder(num, base);
    assert LowerDigit(Digit(last), last);
    hide LowerDigit;
    hide Digit;
    if num >= base {
      var init := DigitsWrite(Quotient(num, base), base);
      ds := init + [last];
      assert ds[..|ds| - 1] == init;
      QuotientPositive(num, base);
    } else {
      ds := [last];
      assert ds[..0] == [] && NumberOf([], base) == 0;
    }
  }

  lemma QuotientPositive(num: nat, base: nat)
    requires 2 <= base <= num
    ensures Quotient(num, base) > 0
  {
    QuotientRemainder(num, base);
  }

  /** What printnum emits, padding apart. */
  lemma DigitsExact(num: nat, base: nat)
    requires 2 <= base <= 16
    ensures Writes(Digits(num, base), num, base)
  {
    var ds := DigitsWrite(num, base);
    hide LowerDigit;
    if |ds| > 1 && num == 0 {
      assert false;
    }
  }

  /** c is the digit d, in either case. */
  ghost predicate AnyDigit(c: char, d: nat) {
    if d < 10 then c as int == '0' as int + d
    else d < 36 && (c as int == 'a' as int + (d - 10) || c as int == 'A' as int + (d - 10))
  }

  ghost predicate NoDigitOf(c: char, b: nat) {
    forall d: nat :: d < b ==> !AnyDigit(c, d)
  }

  lemma DigitValueIs(c: char, d: nat)
    ensures AnyDigit(c, d) ==> DigitValue(c) == d < NODIGIT
    ensures DigitValue(c) < NODIGIT ==> AnyDigit(c, DigitValue(c))
  {
  }

  /** The parts of a string as strtol reads it: blanks, a sign, a prefix, digits, and the rest. */
  datatype Numeral = Numeral(blanks: string, sign: string, prefix: string, digits: string, rest: string)
  {
    function Body(): string {
      prefix + digits + rest
    }

    function Text(): string {
      blanks + sign + Body()
    }
  }

  /** u starts with x. */
  predicate StartsWith(u: string, x: string) {
    |x| <= |u| && u[..|x|] == x
  }

  /** The base in force after the prefix: 16 after 0x, 8 after 0, and otherwise the base asked for, or 10. */
  ghost predicate Based(n: Numeral, base: nat, b: nat) {
    if (base == 0 || base == 16) && StartsWith(n.Body(), "0x") then n.prefix == "0x" && b == 16
    else if base == 0 && StartsWith(n.Body(), "0") then n.prefix == "0" && b == 8
    else n.prefix == "" && b == if base == 0 then 10 else base
  }

  /** The parts are those of the text: as many blanks as there are, a sign if there is one, and all the digits. */
  ghost predicate Parts(n: Numeral, base: nat, b: nat, ds: seq<nat>) {
    && (forall i :: 0 <= i < |n.blanks| ==> n.blanks[i] == ' ' || n.blanks[i] == '\t')
    && (n.sign == "+" || n.sign == "-" || n.sign == "")
    && (n.sign == "" && n.Body() != "" ==> n.Body()[0] !in " \t+-")
    && Based(n, base, b)
    && |ds| == |n.digits| && (forall i :: 0 <= i < |ds| ==> ds[i] < b && AnyDigit(n.digits[i], ds[i]))
    && (n.rest != "" ==> NoDigitOf(n.rest[0], b))
  }

  /** Reading on from digit k of a run of digits. */
  lemma {:induction false} ReadsRun(s: string, at: nat, ds: seq<nat>, k: nat, b: nat)
    requires at + |ds| <= |s| && k <= |ds| && b <= 36
    requires forall i :: 0 <= i < |ds| ==> ds[i] < b && AnyDigit(s[at + i], ds[i])
    requires at + |ds| < |s| ==> NoDigitOf(s[at + |ds|], b)
    ensures ReadDigits(s, at + k, b, Wrap32(NumberOf(ds[..k], b))) == (Wrap32(NumberOf(ds, b)), at + |ds|)
    decreases |ds| - k
  {
    hide Wrap32;
    hide MulAdd;
    if k < |ds| {
      DigitValueIs(s[at + k], ds[k]);
      NumberOfNext(ds, k, b);
      MulAddExtends(NumberOf(ds[..k], b), b, ds[k]);
      hide AnyDigit;
      hide DigitValue;
      ReadsRun(s, at, ds, k + 1, b);
    } else {
      assert ds[..k] == ds;
      if at + k < |s| {
        DigitValueIs(s[at + k], DigitValue(s[at + k]));
      } else {
        NulIsNoDigit();
      }
    }
  }

  lemma {:induction false} SkipsAll(s: string, i: nat, k: nat)
    requires i <= k <= |s| && (forall m :: i <= m < k ==> s[m] == ' ' || s[m] == '\t')
    requires k < |s| ==> s[k] != ' ' && s[k] != '\t'
    ensures SkipBlanks(s, i) == k
    decreases k - i
  {
    if i < k {
      SkipsAll(s, i + 1, k);
    }
  }

  /**
    strtol on every string, by its parts: the number that the digits write in the base in force, with its
    sign, in 32 bits; and *endptr at the rest.
   */
  lemma ParseExact(n: Numeral, base: nat, b: nat, ds: seq<nat>)
    requires (base == 0 || 2 <= base <= 36) && Parts(n, base, b, ds)
    ensures Parse(n.Text(), base) ==
      (Wrap32(if n.sign == "-" then -(NumberOf(ds, b) as int) else NumberOf(ds, b)), |n.Text()| - |n.rest|)
  {
    hide Wrap32;
    hide ReadDigits;
    hide SkipBlanks;
    hide SkipPrefix;
    hide Parts;
    hide Negate;
    var s, i0 := n.Text(), |n.blanks|;
    BlanksAndSign(n, base, b, ds);
    PrefixSkipped(n, base, b, ds);
    DigitsReadOf(n, base, b, ds);
    NegateWraps(NumberOf(ds, b));
    hide Numeral.Text;
  }

  lemma BlanksAndSign(n: Numeral, base: nat, b: nat, ds: seq<nat>)
    requires Parts(n, base, b, ds)
    ensures var s := n.Text();
      && SkipBlanks(s, 0) == |n.blanks|
      && |n.sign| == (if CharAt(s, |n.blanks|) == '+' || CharAt(s, |n.blanks|) == '-' then 1 else 0)
      && (CharAt(s, |n.blanks|) == '-' <==> n.sign == "-")
  {
    hide Based;
    hide AnyDigit;
    hide NoDigitOf;
    hide SkipBlanks;
    var s, k := n.Text(), |n.blanks|;
    var u := n.sign + n.Body();
    hide Numeral.Body;
    assert s == n.blanks + u;
    assert k < |s| ==> s[k] == u[0];
    SkipsAll(s, 0, k);
  }

  lemma PrefixSkipped(n: Numeral, base: nat, b: nat, ds: seq<nat>)
    requires Parts(n, base, b, ds)
    ensures var i := |n.blanks| + |n.sign|; SkipPrefix(n.Text(), i, base) == (i + |n.prefix|, b)
  {
    hide AnyDigit;
    hide NoDigitOf;
    var s, i, u := n.Text(), |n.blanks| + |n.sign|, n.Body();
    hide Numeral.Body;
    assert s == (n.blanks + n.sign) + u;
    assert forall k: nat :: k < |u| ==> s[i + k] == u[k];
    assert StartsWith(u, "0x") <==> CharAt(s, i) == '0' && CharAt(s, i + 1) == 'x';
    assert StartsWith(u, "0") <==> CharAt(s, i) == '0';
  }

  lemma DigitsReadOf(n: Numeral, base: nat, b: nat, ds: seq<nat>)
    requires (base == 0 || 2 <= base <= 36) && Parts(n, base, b, ds)
    ensures var s, i := n.Text(), |n.blanks| + |n.sign| + |n.prefix|;
      ReadDigits(s, i, b, 0) == (Wrap32(NumberOf(ds, b)), |s| - |n.rest|)
  {
    hide AnyDigit;
    hide NoDigitOf;
    hide ReadDigits;
    hide StartsWith;
    var front := n.blanks + n.sign + n.prefix;
    assert n.Text() == front + n.digits + n.rest;
    ReadsBetween(front, n.digits, n.rest, ds, b);
  }

  lemma ReadsBetween(front: string, digits: string, rest: string, ds: seq<nat>, b: nat)
    requires b <= 36 && |ds| == |digits| && (forall i :: 0 <= i < |ds| ==> ds[i] < b && AnyDigit(digits[i], ds[i]))
    requires rest != "" ==> NoDigitOf(rest[0], b)
    ensures var s := front + digits + rest;
      ReadDigits(s, |front|, b, 0) == (Wrap32(NumberOf(ds, b)), |s| - |rest|)
  {
    hide AnyDigit;
    hide NoDigitOf;
    hide ReadDigits;
    ReadsRun(front + digits + rest, |front|, ds, 0, b);
    assert ds[..0] == [] && NumberOf([], b) == 0 && Wrap32(0) == 0;
  }

  lemma BlanksOf(s: string) returns (k: nat)
    ensures k <= |s| && (forall i :: 0 <= i < k ==> s[i] == ' ' || s[i] == '\t')
    ensures k < |s| ==> s[k] != ' ' && s[k] != '\t'
  {
    k := 0;
    while k < |s| && (s[k] == ' ' || s[k] == '\t')
      invariant 0 <= k <= |s| && forall i :: 0 <= i < k ==> s[i] == ' ' || s[i] == '\t'
    {
      k := k + 1;
    }
  }

  lemma DigitsOf(s: string, b: nat) returns (ds: seq<nat>)
    requires b <= 36
    ensures |ds| <= |s| && (forall i :: 0 <= i < |ds| ==> ds[i] < b && AnyDigit(s[i], ds[i]))
    ensures |ds| < |s| ==> NoDigitOf(s[|ds|], b)
  {
    ds := [];
    while |ds| < |s| && DigitValue(s[|ds|]) < b
      invariant |ds| <= |s| && forall i :: 0 <= i < |ds| ==> ds[i] < b && AnyDigit(s[i], ds[i])
      decreases |s| - |ds|
    {
      DigitValueIs(s[|ds|], 0);
      ds := ds + [DigitValue(s[|ds|])];
    }
    if |ds| < |s| {
      forall d: nat | d < b ensures !AnyDigit(s[|ds|], d) {
        DigitValueIs(s[|ds|], d);
      }
    }
  }

  lemma BodyParts(body: string, base: nat) returns (n: Numeral, b: nat, ds: seq<nat>)
    requires base == 0 || 2 <= base <= 36
    ensures n.Body() == body && Based(n, base, b) && b <= 36 && n.blanks == n.sign == ""
    ensures |ds| == |n.digits| && (forall i :: 0 <= i < |ds| ==> ds[i] < b && AnyDigit(n.digits[i], ds[i]))
    ensures n.rest != "" ==> NoDigitOf(n.rest[0], b)
  {
    hide AnyDigit;
    hide NoDigitOf;
    hide StartsWith;
    var hex, octal := (base == 0 || base == 16) && StartsWith(body, "0x"), base == 0 && StartsWith(body, "0");
    var prefix := if hex then "0x" else if octal then "0" else "";
    b := if hex then 16 else if octal then 8 else if base == 0 then 10 else base;
    var t := AfterPrefix(body, prefix);
    ds := DigitsOf(t, b);
    n := Numeral("", "", prefix, t[..|ds|], t[|ds|..]);
    assert t == n.digits + n.rest;
    assert n.Body() == prefix + t;
  }

  lemma AfterPrefix(body: string, prefix: string) returns (t: string)
    requires prefix != "" ==> StartsWith(body, prefix)
    ensures body == prefix + t
  {
    t := body[|prefix|..];
  }

  /** Every string has such parts, so ParseExact is about all of them. */
  lemma EveryStringHasParts(s: string, base: nat)
    requires base == 0 || 2 <= base <= 36
    ensures exists n, b, ds :: Parts(n, base, b, ds) && n.Text() == s
  {
    hide AnyDigit;
    hide NoDigitOf;
    hide StartsWith;
    var k := BlanksOf(s);
    var u := s[k..];
    var sign := if u != "" && (u[0] == '+' || u[0] == '-') then u[..1] else "";
    var body := u[|sign|..];
    assert s == s[..k] + u && u == sign + body;
    var n, b, ds := BodyParts(body, base);
    assert body != "" && sign == "" ==> body[0] == s[k];
    SameParts(n, n.(blanks := s[..k], sign := sign), base, b, ds);
  }

  lemma SameParts(n: Numeral, n': Numeral, base: nat, b: nat, ds: seq<nat>)
    requires Based(n, base, b) && n' == n.(blanks := n'.blanks, sign := n'.sign)
    requires |ds| == |n.digits| && (forall i :: 0 <= i < |ds| ==> ds[i] < b && AnyDigit(n.digits[i], ds[i]))
    requires n.rest != "" ==> NoDigitOf(n.rest[0], b)
    requires forall i :: 0 <= i < |n'.blanks| ==> n'.blanks[i] == ' ' || n'.blanks[i] == '\t'
    requires n'.sign == "+" || n'.sign == "-" || n'.sign == ""
    requires n'.sign == "" && n.Body() != "" ==> n.Body()[0] !in " \t+-"
    ensures Parts(n', base, b, ds) && n'.Text() == n'.blanks + (n'.sign + n.Body())
  {
    assert n'.Body() == n.Body();
  }
}
