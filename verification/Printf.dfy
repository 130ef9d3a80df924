/**
  vprintfmt and vsnprintf of lib/printfmt.c.  A format or string argument is a sequence without its
  terminating NUL; va_list is the sequence of arguments not yet taken.
 */
module Printf {
  import opened Errors
  import opened Mmu
  import opened Numbers

  type Uint64 = n: int | 0 <= n < 0x1_0000_0000_0000_0000

  datatype Arg = Int(bits: Addr) | LongLong(quad: Uint64) | Str(p: Option<string>)

  /** The flag variables of one escape. */
  datatype Field = Field(padc: char, width: int, precision: int, lflag: nat, altflag: bool)

  const PLAIN := Field(' ', -1, -1, 0, false)

  // ---- reading an escape --------------------------------------------------------------------

  predicate IsDigit(c: char) {
    '0' <= c <= '9'
  }

  /** The decimal digits from position j on, after those that gave precision. */
  function ReadNumber(fmt: string, j: nat, precision: nat): (r: (nat, nat))
    ensures r.1 >= j && (j <= |fmt| ==> r.1 <= |fmt|)
    decreases |fmt| - j
  {
    if IsDigit(CharAt(fmt, j)) then ReadNumber(fmt, j + 1, precision * 10 + (CharAt(fmt, j) as int - '0' as int))
    else (precision, j)
  }

  /** process_precision: a number is the width if none has been given, else the precision. */
  function WithNumber(f: Field, precision: int): Field {
    if f.width < 0 then f.(width := precision, precision := -1) else f.(precision := precision)
  }

  function Signed(bits: Addr): Int32 {
    if bits < 0x8000_0000 then bits else bits - 0x1_0000_0000
  }

  /** Position after the conversion character, arguments left, flags, and that character. */
  datatype Escape = Escape(next: nat, args: seq<Arg>, field: Field, ch: char)

  /** From reswitch on, at position j.  None when a `*` has no int argument. */
  function Scan(fmt: string, j: nat, args: seq<Arg>, f: Field): (r: Option<Escape>)
    ensures r.Some? ==> r.value.next > j && r.value.ch == CharAt(fmt, r.value.next - 1)
    ensures r.Some? && j <= |fmt| ==> r.value.next <= |fmt| + 1
    decreases |fmt| - j
  {
    var ch := CharAt(fmt, j);
    if ch == '-' then Scan(fmt, j + 1, args, f.(padc := '-'))
    else if ch == '0' then Scan(fmt, j + 1, args, f.(padc := '0'))
    else if IsDigit(ch) then
      assert ReadNumber(fmt, j, 0) == ReadNumber(fmt, j + 1, 0 * 10 + (ch as int - '0' as int));
      var (precision, k) := ReadNumber(fmt, j, 0);
      Scan(fmt, k, args, WithNumber(f, precision))
    else if ch == '*' then
      if args != [] && args[0].Int? then Scan(fmt, j + 1, args[1..], WithNumber(f, Signed(args[0].bits))) else None
    else if ch == '.' then Scan(fmt, j + 1, args, if f.width < 0 then f.(width := 0) else f)
    else if ch == '#' then Scan(fmt, j + 1, args, f.(altflag := true))
    else if ch == 'l' then Scan(fmt, j + 1, args, f.(lflag := f.lflag + 1))
    else Some(Escape(j + 1, args, f, ch))
  }

  // ---- the conversions ----------------------------------------------------------------------

  predicate Conversion(ch: char) {
    ch in "cesduopx%"
  }

  function Strnlen(p: string, precision: int): nat {
    if precision < 0 || precision > |p| then |p| else precision
  }

  function Shown(c: char, altflag: bool): char {
    if altflag && (c < ' ' || c > '~') then '?' else c
  }

  /** The characters of p, with unprintable ones replaced if asked. */
  function ShownAll(p: string, altflag: bool): (s: string)
    ensures |s| == |p| && forall i :: 0 <= i < |p| ==> s[i] == Shown(p[i], altflag)
  {
    if p == "" then "" else ShownAll(p[..|p| - 1], altflag) + [Shown(p[|p| - 1], altflag)]
  }

  lemma ShownNext(s: string, k: nat, altflag: bool)
    requires k < |s|
    ensures ShownAll(s[..k + 1], altflag) == ShownAll(s[..k], altflag) + [Shown(s[k], altflag)]
  {
    assert s[..k + 1][..k] == s[..k];
  }

  function StringText(p: string, f: Field): string {
    var n := Strnlen(p, f.precision);
    var text := ShownAll(p[..n], f.altflag);
    if f.padc != '-' then Repeat(f.padc, f.width - n) + text else text + Repeat(' ', f.width - n)
  }

  function ErrorString(err: nat): Option<string> {
    if err == E_UNSPECIFIED then Some("unspecified error") else if err == E_BAD_ENV then Some("bad environment")
    else if err == E_INVAL then Some("invalid parameter") else if err == E_NO_MEM then Some("out of memory")
    else if err == E_NO_FREE_ENV then Some("out of environments") else if err == E_FAULT then Some("segmentation fault")
    else None
  }

  function ErrorText(err: nat): string {
    if err >= MAXERROR || ErrorString(err) == None then "error " + Printed(err, 10, -1, ' ') else ErrorString(err).value
  }

  /** getuint; None when the next argument is not of the right size. */
  function Getuint(args: seq<Arg>, lflag: nat): Option<Uint64> {
    if args == [] then None
    else if lflag >= 2 then (if args[0].LongLong? then Some(args[0].quad) else None)
    else if args[0].Int? then Some(args[0].bits) else None
  }

  /** getint, as a sign and a magnitude. */
  function Getint(args: seq<Arg>, lflag: nat): Option<(bool, Uint64)> {
    var bits := Getuint(args, lflag);
    if bits == None then None
    else if lflag >= 2 then
      Some(if bits.value < 0x8000_0000_0000_0000 then (false, bits.value)
           else (true, 0x1_0000_0000_0000_0000 - bits.value))
    else
      Some(if bits.value < 0x8000_0000 then (false, bits.value) else (true, 0x1_0000_0000 - bits.value))
  }

  /** What a conversion prints; None when its argument is missing, of another type, or the least int for %e. */
  function Converted(e: Escape): Option<string>
    requires Conversion(e.ch)
  {
    var f, args := e.field, e.args;
    if e.ch == '%' then Some("%")
    else if e.ch == 'd' then
      var num := Getint(args, f.lflag);
      if num == None then None else Some((if num.value.0 then "-" else "") + Printed(num.value.1, 10, f.width, f.padc))
    else if e.ch in "uox" then
      var num := Getuint(args, f.lflag);
      if num == None then None
      else Some(Printed(num.value, if e.ch == 'u' then 10 else if e.ch == 'o' then 8 else 16, f.width, f.padc))
    else if args == [] then None
    else if e.ch == 's' then
      if args[0].Str? then Some(StringText(if args[0].p == None then "(null)" else args[0].p.value, f)) else None
    else if !args[0].Int? then None
    else if e.ch == 'c' then Some([(args[0].bits % 256) as char])
    else if e.ch == 'p' then Some("0x" + Printed(args[0].bits, 16, f.width, f.padc))
    else
      var err := Signed(args[0].bits);
      if err == -0x8000_0000 then None else Some(ErrorText(if err < 0 then -err else err))
  }

  function Join(s: Option<string>, t: Option<string>): Option<string> {
    if s == None || t == None then None else Some(s.value + t.value)
  }

  /** All that vprintfmt emits from position i on; None when the arguments do not match the format. */
  function Format(fmt: string, i: nat, args: seq<Arg>): Option<string>
    decreases |fmt| - i
  {
    if i >= |fmt| then Some("")
    else if fmt[i] != '%' then Join(Some([fmt[i]]), Format(fmt, i + 1, args))
    else
      var e := Scan(fmt, i + 1, args, PLAIN);
      if e == None then None
      else if Conversion(e.value.ch) then
        var rest := if e.value.ch == '%' || e.value.args == [] then e.value.args else e.value.args[1..];
        Join(Converted(e.value), Format(fmt, e.value.next, rest))
      else Join(Some("%"), Format(fmt, i + 1, e.value.args))
  }

  // ---- the sink -----------------------------------------------------------------------------

  function Least(a: int, b: int): int {
    if a < b then a else b
  }

  /** struct sprintbuf: ebuf is buf + n - 1, and pos is how far buf has moved. */
  class Sprintbuf {
    const buf: array<char>
    const ebuf: nat
    var pos: nat
    var cnt: int
    ghost var out: string
    ghost const initial: seq<char>

    /** The characters emitted so far, as many as fit, are in the buffer; the rest of it is untouched. */
    ghost predicate Valid()
      reads this, buf
    {
      ebuf <= buf.Length && cnt == |out| && pos == Least(|out|, ebuf) && buf[..pos] == out[..pos]
      && |initial| == buf.Length && buf[pos..] == initial[pos..]
    }

    constructor (buf: array<char>, n: nat)
      requires 1 <= n <= buf.Length
      ensures Valid() && this.buf == buf && ebuf == n - 1 && out == "" && initial == buf[..]
    {
      this.buf, ebuf, pos, cnt, out := buf, n - 1, 0, 0, "";
      initial := buf[..];
    }

    /** sprintputch */
    method Putch(ch: char)
      requires Valid()
      modifies this, buf
      ensures Valid() && out == old(out) + [ch]
    {
      cnt := cnt + 1;
      if pos < ebuf {
        ghost var before := buf[..];
        buf[pos] := ch;
        pos := pos + 1;
        assert buf[pos..] == before[pos..] == initial[pos..];
      }
      out := out + [ch];
    }

    /** `*b.buf = '\\0'` */
    method Terminate()
      requires Valid() && ebuf < buf.Length
      modifies buf
      ensures buf[..pos] == out[..pos] && buf[pos] == '\0' && |initial| == buf.Length
      ensures forall i :: pos < i < buf.Length ==> buf[i] == initial[i]
    {
      ghost var before := buf[..];
      assert before[..pos] == out[..pos];
      assert forall i :: pos <= i < buf.Length ==> before[i] == buf[pos..][i - pos] == initial[i];
      buf[pos] := '\0';
      assert buf[..pos] == before[..pos];
    }

    /** `while (n-- > 0) putch(ch)` */
    method Pad(ch: char, n: int)
      requires Valid()
      modifies this, buf
      ensures Valid() && out == old(out) + Repeat(ch, n)
    {
      var width := n;
      var k := 0;
      while width > 0
        invariant 0 <= k && k + width == (if n > 0 then n else width) && Valid()
        invariant width >= 0 || k == 0
        invariant out == old(out) + Repeat(ch, k)
      {
        Putch(ch);
        width := width - 1;
        k := k + 1;
      }
    }

    /** printnum */
    method Printnum(num: nat, base: nat, width: int, padc: char)
      requires Valid() && 2 <= base <= 16
      modifies this, buf
      ensures Valid() && out == old(out) + Printed(num, base, width, padc)
      decreases num
    {
      if num >= base {
        Printnum(Quotient(num, base), base, width - 1, padc);
      } else {
        Pad(padc, width - 1);
      }
      Putch(Digit(Remainder(num, base)));
    }

    /** A constant string, as printfmt prints it. */
    method Puts(s: string)
      requires Valid()
      modifies this, buf
      ensures Valid() && out == old(out) + s
    {
      for k := 0 to |s|
        invariant Valid() && out == old(out) + s[..k]
      {
        Putch(s[k]);
      }
    }

    /** The calls of printfmt in case 'e'. */
    method PutError(err: nat)
      requires Valid()
      modifies this, buf
      ensures Valid() && out == old(out) + ErrorText(err)
    {
      hide Valid;
      hide Printed;
      if err >= MAXERROR || ErrorString(err) == None {
        Puts("error ");
        Printnum(err, 10, -1, ' ');
      } else {
        Puts(ErrorString(err).value);
      }
    }

    /** The middle loop of case 's': the characters of s, each one off the width. */
    method PutChars(s: string, precision: int, altflag: bool, width: int) returns (width': int)
      requires Valid()
      modifies this, buf
      ensures Valid() && out == old(out) + ShownAll(s[..Strnlen(s, precision)], altflag)
      ensures width' == width - Strnlen(s, precision)
    {
      hide ShownAll;
      hide Valid;
      width' := width;
      assert s[..0] == "" && ShownAll("", altflag) == "";
      var left := precision;
      var k := 0;
      while k < |s| && (left < 0 || left - 1 >= 0)
        invariant 0 <= k <= Strnlen(s, precision) && Valid() && width' == width - k
        invariant left == if precision < 0 then precision else precision - k
        invariant out == old(out) + ShownAll(s[..k], altflag)
      {
        if left >= 0 {
          left := left - 1;
        }
        ShownNext(s, k, altflag);
        if altflag && (s[k] < ' ' || s[k] > '~') {
          Putch('?');
        } else {
          Putch(s[k]);
        }
        k := k + 1;
        width' := width' - 1;
      }
    }

    /** The case 's' of vprintfmt. */
    method PutString(s: string, f: Field)
      requires Valid()
      modifies this, buf
      ensures Valid() && out == old(out) + StringText(s, f)
    {
      hide ShownAll;
      hide Repeat;
      hide Valid;
      var width, n := f.width, Strnlen(s, f.precision);
      if width > 0 && f.padc != '-' {
        Pad(f.padc, width - n);
        width := Least(0, width - n);
      }
      width := PutChars(s, f.precision, f.altflag, width);
      Pad(' ', width);
    }
  }

  // ---- vprintfmt ----------------------------------------------------------------------------

  ghost predicate NoNul(s: string) {
    forall k :: 0 <= k < |s| ==> s[k] != '\0'
  }

  /** The width digits. */
  method TakeNumber(fmt: string, j: nat) returns (precision: nat, k: nat)
    requires IsDigit(CharAt(fmt, j))
    ensures (precision, k) == ReadNumber(fmt, j, 0) && k > j
  {
    precision, k := CharAt(fmt, j) as int - '0' as int, j + 1;
    while IsDigit(CharAt(fmt, k))
      invariant k > j && ReadNumber(fmt, k, precision) == ReadNumber(fmt, j, 0)
      decreases |fmt| - k
    {
      precision := precision * 10 + (CharAt(fmt, k) as int - '0' as int);
      k := k + 1;
    }
  }

  /** The goto loop around reswitch, up to the conversion character. */
  method ScanField(fmt: string, start: nat, ap: seq<Arg>) returns (e: Escape)
    requires Scan(fmt, start, ap, PLAIN).Some?
    ensures Scan(fmt, start, ap, PLAIN) == Some(e)
  {
    var j, args, f := start, ap, PLAIN;
    while true
      invariant Scan(fmt, j, args, f) == Scan(fmt, start, ap, PLAIN)
      decreases |fmt| - j
    {
      var ch := CharAt(fmt, j);
      if ch == '-' {
        j, f := j + 1, f.(padc := '-');
      } else if ch == '0' {
        j, f := j + 1, f.(padc := '0');
      } else if IsDigit(ch) {
        var precision, k := TakeNumber(fmt, j);
        j, f := k, WithNumber(f, precision);
      } else if ch == '*' {
        f := WithNumber(f, Signed(args[0].bits));
        j, args := j + 1, args[1..];
      } else if ch == '.' {
        j, f := j + 1, if f.width < 0 then f.(width := 0) else f;
      } else if ch == '#' {
        j, f := j + 1, f.(altflag := true);
      } else if ch == 'l' {
        j, f := j + 1, f.(lflag := f.lflag + 1);
      } else {
        return Escape(j + 1, args, f, ch);
      }
    }
  }

  /** Between a '%' and its conversion character there is no other '%', so the rewind stops where the escape began. */
  lemma {:induction false} ScanPassesNoPercent(fmt: string, j: nat, args: seq<Arg>, f: Field)
    requires Scan(fmt, j, args, f).Some?
    ensures forall k :: j <= k < Scan(fmt, j, args, f).value.next - 1 ==> k < |fmt| && fmt[k] != '%'
    decreases |fmt| - j
  {
    var ch := CharAt(fmt, j);
    assert ch != '\0' ==> j < |fmt| && fmt[j] == ch;
    if ch == '-' { ScanPassesNoPercent(fmt, j + 1, args, f.(padc := '-')); }
    else if ch == '0' {
      assert Scan(fmt, j, args, f) == Scan(fmt, j + 1, args, f.(padc := '0'));
      ScanPassesNoPercent(fmt, j + 1, args, f.(padc := '0'));
    }
    else if IsDigit(ch) {
      var (precision, k) := ReadNumber(fmt, j, 0);
      NumberIsDigits(fmt, j, 0);
      ScanPassesNoPercent(fmt, k, args, WithNumber(f, precision));
    }
    else if ch == '*' { ScanPassesNoPercent(fmt, j + 1, args[1..], WithNumber(f, Signed(args[0].bits))); }
    else if ch == '.' { ScanPassesNoPercent(fmt, j + 1, args, if f.width < 0 then f.(width := 0) else f); }
    else if ch == '#' { ScanPassesNoPercent(fmt, j + 1, args, f.(altflag := true)); }
    else if ch == 'l' { ScanPassesNoPercent(fmt, j + 1, args, f.(lflag := f.lflag + 1)); }
  }

  lemma {:induction false} NumberIsDigits(fmt: string, j: nat, precision: nat)
    ensures forall k :: j <= k < ReadNumber(fmt, j, precision).1 ==> k < |fmt| && fmt[k] != '%'
    ensures IsDigit(CharAt(fmt, j)) ==> ReadNumber(fmt, j, precision).1 > j
    decreases |fmt| - j
  {
    if IsDigit(CharAt(fmt, j)) {
      var p := precision * 10 + (CharAt(fmt, j) as int - '0' as int);
      NumberIsDigits(fmt, j + 1, p);
      var end := ReadNumber(fmt, j + 1, p).1;
      assert ReadNumber(fmt, j, precision).1 == end;
      forall k | j <= k < end ensures k < |fmt| && fmt[k] != '%' {
        assert k == j ==> CharAt(fmt, k) == fmt[k];
      }
    } else {
      assert ReadNumber(fmt, j, precision) == (precision, j);
    }
  }

  /** The loop of the default case, from the conversion character back to just after the '%'. */
  method Rewind(fmt: string, start: nat, ap: seq<Arg>, next: nat) returns (i: nat)
    requires 0 < start <= |fmt| && fmt[start - 1] == '%'
    requires Scan(fmt, start, ap, PLAIN).Some? && next == Scan(fmt, start, ap, PLAIN).value.next
    ensures i == start
  {
    ScanPassesNoPercent(fmt, start, ap, PLAIN);
    i := next - 1;
    while fmt[i - 1] != '%'
      invariant start <= i < next && i <= |fmt|
      invariant forall k :: start <= k < next - 1 ==> k < |fmt| && fmt[k] != '%'
      decreases i
    {
      i := i - 1;
    }
  }

  /** One conversion. */
  method Convert(b: Sprintbuf, e: Escape)
    requires b.Valid() && Conversion(e.ch) && Converted(e).Some?
    modifies b, b.buf
    ensures b.Valid() && b.out == old(b.out) + Converted(e).value
  {
    hide b.Valid;
    hide Printed;
    hide StringText;
    hide Getint;
    hide Getuint;
    hide ErrorText;
    var f := e.field;
    match e.ch
    case 'c' => b.Putch((e.args[0].bits % 256) as char);
    case 'e' =>
      var err := Signed(e.args[0].bits);
      if err < 0 {
        err := -err;
      }
      b.PutError(err);
    case 's' => b.PutString(if e.args[0].p == None then "(null)" else e.args[0].p.value, f);
    case 'd' =>
      var num := Getint(e.args, f.lflag).value;
      if num.0 {
        b.Putch('-');
      }
      b.Printnum(num.1, 10, f.width, f.padc);
    case 'u' => b.Printnum(Getuint(e.args, f.lflag).value, 10, f.width, f.padc);
    case 'o' => b.Printnum(Getuint(e.args, f.lflag).value, 8, f.width, f.padc);
    case 'p' =>
      b.Putch('0');
      b.Putch('x');
      b.Printnum(e.args[0].bits, 16, f.width, f.padc);
    case 'x' => b.Printnum(Getuint(e.args, f.lflag).value, 16, f.width, f.padc);
    case '%' => b.Putch('%');
  }

  /** The whole treatment of the escape whose '%' is at i - 1. */
  method DoEscape(b: Sprintbuf, fmt: string, i: nat, args: seq<Arg>) returns (i': nat, args': seq<Arg>)
    requires b.Valid() && NoNul(fmt) && 0 < i <= |fmt| && fmt[i - 1] == '%' && Format(fmt, i - 1, args).Some?
    modifies b, b.buf
    ensures b.Valid() && i <= i' <= |fmt| && Format(fmt, i', args').Some?
    ensures b.out + Format(fmt, i', args').value == old(b.out) + Format(fmt, i - 1, args).value
  {
    hide b.Valid;
    hide Scan;
    hide Converted;
    var e := ScanField(fmt, i, args);
    if Conversion(e.ch) {
      Convert(b, e);
      i' := e.next;
      args' := if e.ch == '%' || e.args == [] then e.args else e.args[1..];
    } else {
      b.Putch('%');
      i' := Rewind(fmt, i, args, e.next);
      args' := e.args;
    }
  }

  /** vprintfmt: on every format whose arguments match it, it ends, having emitted Format's text. */
  method Vprintfmt(b: Sprintbuf, fmt: string, ap: seq<Arg>)
    requires b.Valid() && NoNul(fmt) && Format(fmt, 0, ap).Some?
    modifies b, b.buf
    ensures b.Valid() && b.out == old(b.out) + Format(fmt, 0, ap).value
  {
    hide b.Valid;
    hide Scan;
    hide Converted;
    var i, args := 0, ap;
    while true
      invariant i <= |fmt| && b.Valid() && Format(fmt, i, args).Some?
      invariant b.out + Format(fmt, i, args).value == old(b.out) + Format(fmt, 0, ap).value
      decreases |fmt| - i
    {
      var ch := CharAt(fmt, i);
      i := i + 1;
      if ch == '%' {
        i, args := DoEscape(b, fmt, i, args);
      } else if ch == '\0' {
        return;
      } else {
        b.Putch(ch);
      }
    }
  }

  /**
    vsnprintf: the first n - 1 characters of the text, or all of them, then a NUL; nothing after the
    NUL is written; the result is the length of the whole text.
   */
  method Vsnprintf(buf: array?<char>, n: int, fmt: string, ap: seq<Arg>) returns (r: int)
    requires NoNul(fmt) && Format(fmt, 0, ap).Some?
    requires buf != null && n >= 1 ==> n <= buf.Length
    modifies if buf == null then {} else {buf}
    ensures buf == null || n < 1 ==> r == -E_INVAL && (buf != null ==> buf[..] == old(buf[..]))
    ensures buf != null && n >= 1 ==>
      var text := Format(fmt, 0, ap).value; var m := Least(n - 1, |text|);
      && r == |text|
      && buf[..m] == text[..m] && buf[m] == '\0'
      && forall i :: m < i < buf.Length ==> buf[i] == old(buf[i])
  {
    if buf == null || n < 1 {
      return -E_INVAL;
    }
    var b := new Sprintbuf(buf, n);
    Vprintfmt(b, fmt, ap);
    assert b.out == Format(fmt, 0, ap).value;
    hide Format;
    b.Terminate();
    return b.cnt;
  }

  // ---- what Format means --------------------------------------------------------------------

  lemma JoinJoin(a: string, b: string, t: Option<string>)
    ensures Join(Some(a), Join(Some(b), t)) == Join(Some(a + b), t)
    ensures Join(Some(""), t) == t
  {
    if t.Some? {
      assert a + (b + t.value) == (a + b) + t.value;
      assert "" + t.value == t.value;
    }
  }

  /** Outside escapes the text is copied. */
  lemma {:induction false} LiteralText(fmt: string, i: nat, k: nat, args: seq<Arg>)
    requires i <= k <= |fmt| && forall m :: i <= m < k ==> fmt[m] != '%'
    ensures Format(fmt, i, args) == Join(Some(fmt[i..k]), Format(fmt, k, args))
    decreases k - i
  {
    JoinJoin("", "", Format(fmt, k, args));
    if i < k {
      LiteralText(fmt, i + 1, k, args);
      JoinJoin([fmt[i]], fmt[i + 1..k], Format(fmt, k, args));
      assert fmt[i..k] == [fmt[i]] + fmt[i + 1..k];
    }
  }

  /**
    An escape that ends in no conversion character is copied too, flags and all, though a `*` in it takes
    its argument.
   */
  lemma UnknownEscapeIsCopied(fmt: string, i: nat, args: seq<Arg>)
    requires i < |fmt| && fmt[i] == '%' && Scan(fmt, i + 1, args, PLAIN).Some?
    requires !Conversion(Scan(fmt, i + 1, args, PLAIN).value.ch)
    ensures var e := Scan(fmt, i + 1, args, PLAIN).value; var k := Least(e.next, |fmt|);
      i < k && Format(fmt, i, args) == Join(Some(fmt[i..k]), Format(fmt, k, e.args))
  {
    var e := Scan(fmt, i + 1, args, PLAIN).value;
    var k := Least(e.next, |fmt|);
    ScanPassesNoPercent(fmt, i + 1, args, PLAIN);
    assert forall m :: i + 1 <= m < k ==> fmt[m] != '%' by {
      assert e.next <= |fmt| ==> fmt[e.next - 1] == e.ch;
    }
    LiteralText(fmt, i + 1, k, e.args);
    JoinJoin("%", fmt[i + 1..k], Format(fmt, k, e.args));
    hide Scan;
    assert fmt[i..k] == "%" + fmt[i + 1..k];
  }

  lemma MinusThenDigits(d: string, k: int, base: nat)
    requires 2 <= base < 16 && d != "" && AllDigits(d, base)
    ensures var s := "-" + (Repeat('0', k) + d); Parse(s, base) == (Wrap32(-(Value(d, base) as int)), |s|)
  {
    hide Value;
    hide ReadDigits;
    var s := "-" + (Repeat('0', k) + d);
    ZerosInFront(k, d, base);
    assert s[1..] == Repeat('0', k) + d && s[1..1] == "" && Value("", base) == 0 by { EmptyValue(base); }
    ReadsAll(s, 1, 1, base);
    NegateWraps(Value(d, base));
    assert SkipBlanks(s, 0) == 0;
  }

  lemma MinusThenBlank(t: string, base: nat)
    requires t != "" && t[0] == ' ' && 2 <= base <= 16
    ensures Parse("-" + t, base) == (0, 1)
  {
    var s := "-" + t;
    assert SkipBlanks(s, 0) == 0;
    assert CharAt(s, 1) == ' ' && DigitValue(' ') == NODIGIT;
  }

  /** The number that getint gets: its argument as an int, a long or a long long. */
  function Number(num: (bool, Uint64)): int {
    if num.0 then -(num.1 as int) else num.1
  }

  /**
    %d with any l flags, and strtol: the low 32 bits of what is printed in a field padded with blanks or zeros
    read back, to the end, except that a negative number must not be padded with blanks, because they
    come after the sign; and so the number itself does exactly when it is a long besides.
   */
  lemma SignedRoundTrip(e: Escape)
    requires e.ch == 'd' && (e.field.padc == ' ' || e.field.padc == '0') && Getint(e.args, e.field.lflag).Some?
    ensures var f, n, text := e.field, Number(Getint(e.args, e.field.lflag).value), Converted(e);
      && text.Some?
      && var readable := n >= 0 || f.padc == '0' || f.width <= |Digits(-n, 10)|;
        && (Parse(text.value, 10) == (Wrap32(n), |text.value|) <==> readable)
        && (Parse(text.value, 10) == (n, |text.value|) <==> readable && -0x8000_0000 <= n < 0x8000_0000)
  {
    hide Printed;
    hide Parse;
    hide Digits;
    var (negative, m) := Getint(e.args, e.field.lflag).value;
    assert negative ==> m > 0;
    hide Getint;
    hide Wrap32;
    if negative {
      NegativeRoundTrip(m, e.field.width, e.field.padc);
    } else {
      RoundTrip(m, 10, e.field.width, e.field.padc);
      assert "" + Printed(m, 10, e.field.width, e.field.padc) == Printed(m, 10, e.field.width, e.field.padc);
    }
  }

  /** The least number of a type reads back too: its magnitude wraps to itself. */
  lemma NegativeRoundTrip(m: nat, width: int, padc: char)
    requires 0 < m && (padc == ' ' || padc == '0')
    ensures var s := "-" + Printed(m, 10, width, padc);
      if padc == '0' || width <= |Digits(m, 10)| then Parse(s, 10) == (Wrap32(-(m as int)), |s|)
      else Parse(s, 10).1 != |s|
  {
    hide Printed;
    hide Parse;
    hide Digits;
    hide Value;
    hide Repeat;
    PrintedIsPadded(m, 10, width, padc);
    DigitsValue(m, 10);
    var d := Digits(m, 10);
    if padc == '0' || width <= |d| {
      assert Repeat(padc, width - |d|) == Repeat('0', width - |d|);
      MinusThenDigits(d, width - |d|, 10);
    } else {
      assert Printed(m, 10, width, padc)[0] == ' ';
      MinusThenBlank(Printed(m, 10, width, padc), 10);
    }
  }

  /** What a numeric conversion shows: what comes before the number, the number, and its base. */
  function NumberShown(e: Escape): Option<(string, nat, nat)> {
    if e.ch == 'd' then
      var num := Getint(e.args, e.field.lflag);
      if num == None then None else Some((if num.value.0 then "-" else "", num.value.1, 10))
    else if e.ch == 'p' then
      if e.args == [] || !e.args[0].Int? then None else Some(("0x", e.args[0].bits, 16))
    else if e.ch in "uox" then
      var num := Getuint(e.args, e.field.lflag);
      if num == None then None else Some(("", num.value, if e.ch == 'u' then 10 else if e.ch == 'o' then 8 else 16))
    else None
  }

  /** Every numeric conversion prints its number through printnum. */
  lemma NumberIsPrinted(e: Escape)
    requires NumberShown(e).Some?
    ensures var (before, num, base) := NumberShown(e).value;
      && 2 <= base <= 16 && Conversion(e.ch)
      && Converted(e) == Some(before + Printed(num, base, e.field.width, e.field.padc))
  {
    hide Printed;
    hide Getint;
    hide Getuint;
    if e.ch in "uox" {
      var num := Getuint(e.args, e.field.lflag).value;
      var text := Printed(num, NumberShown(e).value.2, e.field.width, e.field.padc);
      assert "" + text == text;
    }
  }

  /**
    The '-' flag is documented as padding on the right.  For a number of any conversion, sign and all,
    the text is the unpadded one followed by blanks, however many, exactly when the width asks for no
    padding; otherwise it is padded on the left, with '-' characters.
   */
  lemma MinusFlagPadsLeft(e: Escape)
    requires e.field.padc == '-' && NumberShown(e).Some?
    ensures var (before, num, base) := NumberShown(e).value; var width := e.field.width;
      && 2 <= base <= 16 && Conversion(e.ch)
      && var d := Digits(num, base);
        && Converted(e) == Some(before + (Repeat('-', width - |d|) + d))
        && ((exists k: nat :: Converted(e) == Some(before + (d + Repeat(' ', k)))) <==> width <= |d|)
        && (Converted(e) == Some(before + (d + Repeat(' ', width - |d|))) <==> width <= |d|)
  {
    hide NumberShown;
    hide Converted;
    hide Digits;
    hide Printed;
    hide Conversion;
    NumberIsPrinted(e);
    var (before, num, base) := NumberShown(e).value;
    var width, d := e.field.width, Digits(num, base);
    var text := Printed(num, base, width, '-');
    PrintedIsPadded(num, base, width, '-');
    DashesGoLeft(num, base, width, width - |d|);
    assert d + Repeat(' ', 0) == d;
    forall k: int ensures Converted(e) == Some(before + (d + Repeat(' ', k))) ==> width <= |d| {
      DashesGoLeft(num, base, width, k);
      SameRest(before, text, d + Repeat(' ', k));
    }
    if width <= |d| {
      assert Converted(e) == Some(before + (d + Repeat(' ', 0)));
      assert Repeat(' ', width - |d|) == "";
    }
  }

  /** 42 in a field of five, with the flag. */
  lemma DashExample()
    ensures Format("%-5d", 0, [Int(42)]) == Some("---42")
  {
    hide Scan;
    hide Printed;
    DashScanned();
    DashPrinted();
    assert "" + "---42" == "---42" && "---42" + "" == "---42";
    assert Format("%-5d", 4, []) == Some("");
  }

  lemma DashScanned()
    ensures Scan("%-5d", 1, [Int(42)], PLAIN) == Some(Escape(4, [Int(42)], PLAIN.(padc := '-', width := 5), 'd'))
  {
    var fmt, args, f := "%-5d", [Int(42)], PLAIN.(padc := '-');
    assert fmt[1] == '-' && fmt[2] == '5' && fmt[3] == 'd';
    assert ReadNumber(fmt, 3, 5) == (5, 3) && ReadNumber(fmt, 2, 0) == (5, 3);
    assert Scan(fmt, 3, args, f.(width := 5)) == Some(Escape(4, args, f.(width := 5), 'd'));
    assert Scan(fmt, 2, args, f) == Scan(fmt, 3, args, f.(width := 5));
  }

  lemma DashPrinted()
    ensures Printed(42, 10, 5, '-') == "---42"
  {
    assert Quotient(42, 10) == 4 && Remainder(42, 10) == 2 && Remainder(4, 10) == 4;
    assert Repeat('-', 3) == "---";
    assert Printed(4, 10, 4, '-') == "---4";
  }

  lemma SameRest(a: string, b: string, c: string)
    ensures a + b == a + c ==> b == c
  {
    assert (a + b)[|a|..] == b && (a + c)[|a|..] == c;
  }
}
