/**
  What vprintfmt's conversions print, character by character, and how its flags, widths and precisions
  reach them.
 */
module Formats {
  import opened Errors
  import opened Mmu
  import opened Numbers
  import opened Printf

  function Longer(a: int, b: int): int {
    if a > b then a else b
  }

  function Shorter(a: int, b: int): int {
    if a < b then a else b
  }

  // ---- %s -----------------------------------------------------------------------------------

  /**
    text is the first m characters of p in a field: padc before them, or blanks after them with the '-'
    flag; with '#', characters outside ' ' .. '~' show as '?'.
   */
  ghost predicate ShowsString(text: string, p: string, m: nat, width: int, padc: char, alt: bool)
    requires m <= |p|
  {
    var at := if padc == '-' then 0 else Longer(width, m) - m;
    && |text| == Longer(width, m)
    && (forall k :: 0 <= k < m ==> text[at + k] == if alt && (p[k] < ' ' || p[k] > '~') then '?' else p[k])
    && (forall k :: 0 <= k < |text| && !(at <= k < at + m) ==> text[k] == if padc == '-' then ' ' else padc)
  }

  /** The length that %s shows: all of p, or no more than the precision. */
  lemma StringExact(e: Escape)
    requires e.ch == 's' && e.args != [] && e.args[0].Str?
    ensures var p, f := if e.args[0].p == None then "(null)" else e.args[0].p.value, e.field;
      var m := if f.precision < 0 then |p| else Shorter(f.precision, |p|);
      Converted(e).Some? && ShowsString(Converted(e).value, p, m, f.width, f.padc, f.altflag)
  {
    hide ShowsString;
    hide StringText;
    TextExact(if e.args[0].p == None then "(null)" else e.args[0].p.value, e.field);
  }

  lemma TextExact(p: string, f: Field)
    ensures var m := if f.precision < 0 then |p| else Shorter(f.precision, |p|);
      ShowsString(StringText(p, f), p, m, f.width, f.padc, f.altflag)
  {
    var m := if f.precision < 0 then |p| else Shorter(f.precision, |p|);
    hide ShownAll;
    hide Repeat;
    assert p[..m] == p[..Strnlen(p, f.precision)];
    InField(StringText(p, f), ShownAll(p[..m], f.altflag), p, m, f);
  }

  lemma InField(text: string, shown: string, p: string, m: nat, f: Field)
    requires m <= |p| && |shown| == m
    requires forall k :: 0 <= k < m ==> shown[k] == if f.altflag && (p[k] < ' ' || p[k] > '~') then '?' else p[k]
    requires text == if f.padc != '-' then Repeat(f.padc, f.width - m) + shown else shown + Repeat(' ', f.width - m)
    ensures ShowsString(text, p, m, f.width, f.padc, f.altflag)
  {
    hide Repeat;
  }

  /** Plain text in a field of w. */
  lemma ShownPlainly(text: string, p: string, m: nat, width: int, padc: char)
    requires m <= |p| && ShowsString(text, p, m, width, padc, false)
    ensures text ==
      if padc == '-' then p[..m] + Repeat(' ', width - m) else Repeat(padc, width - m) + p[..m]
  {
  }

  // ---- numbers ------------------------------------------------------------------------------

  /** text is `before`, then padding to the width, then num in base, in lower case and without leading zeros. */
  ghost predicate ShowsNumber(text: string, before: string, num: nat, base: nat, f: Field) {
    exists d :: Writes(d, num, base) && text == before + (Repeat(f.padc, f.width - |d|) + d)
  }

  lemma PrintedShows(text: string, before: string, num: nat, base: nat, f: Field)
    requires 2 <= base <= 16 && text == before + Printed(num, base, f.width, f.padc)
    ensures ShowsNumber(text, before, num, base, f)
  {
    hide Printed;
    hide Digits;
    hide Writes;
    PrintedIsPadded(num, base, f.width, f.padc);
    DigitsExact(num, base);
  }

  /** An int or a long: unsigned in base 10, 8 and 16, a pointer, and signed. */
  lemma NumbersExact(f: Field, bits: Addr, next: nat, rest: seq<Arg>)
    requires f.lflag < 2
    ensures var args := [Int(bits)] + rest;
      var u, o := Converted(Escape(next, args, f, 'u')), Converted(Escape(next, args, f, 'o'));
      var x, p := Converted(Escape(next, args, f, 'x')), Converted(Escape(next, args, f, 'p'));
      var d := Converted(Escape(next, args, f, 'd'));
      && u.Some? && ShowsNumber(u.value, "", bits, 10, f)
      && o.Some? && ShowsNumber(o.value, "", bits, 8, f)
      && x.Some? && ShowsNumber(x.value, "", bits, 16, f)
      && p.Some? && ShowsNumber(p.value, "0x", bits, 16, f)
      && d.Some?
      && if bits < 0x8000_0000 then ShowsNumber(d.value, "", bits, 10, f)
         else ShowsNumber(d.value, "-", 0x1_0000_0000 - bits, 10, f)
  {
    hide Printed;
    hide ShowsNumber;
    var args := [Int(bits)] + rest;
    Shown(Escape(next, args, f, 'u'), "", bits, 10);
    Shown(Escape(next, args, f, 'o'), "", bits, 8);
    Shown(Escape(next, args, f, 'x'), "", bits, 16);
    Shown(Escape(next, args, f, 'p'), "0x", bits, 16);
    if bits < 0x8000_0000 {
      Shown(Escape(next, args, f, 'd'), "", bits, 10);
    } else {
      Shown(Escape(next, args, f, 'd'), "-", 0x1_0000_0000 - bits, 10);
    }
  }

  lemma Shown(e: Escape, before: string, num: nat, base: nat)
    requires NumberShown(e) == Some((before, num, base))
    ensures Conversion(e.ch) && Converted(e).Some? && ShowsNumber(Converted(e).value, before, num, base, e.field)
  {
    hide Printed;
    hide NumberShown;
    hide ShowsNumber;
    NumberIsPrinted(e);
    hide Converted;
    PrintedShows(Converted(e).value, before, num, base, e.field);
  }

  /** A long long, with two l flags or more. */
  lemma LongLongsExact(f: Field, quad: Uint64, next: nat, rest: seq<Arg>)
    requires f.lflag >= 2
    ensures var args := [LongLong(quad)] + rest;
      var u, o := Converted(Escape(next, args, f, 'u')), Converted(Escape(next, args, f, 'o'));
      var x, d := Converted(Escape(next, args, f, 'x')), Converted(Escape(next, args, f, 'd'));
      && u.Some? && ShowsNumber(u.value, "", quad, 10, f)
      && o.Some? && ShowsNumber(o.value, "", quad, 8, f)
      && x.Some? && ShowsNumber(x.value, "", quad, 16, f)
      && d.Some?
      && if quad < 0x8000_0000_0000_0000 then ShowsNumber(d.value, "", quad, 10, f)
         else ShowsNumber(d.value, "-", 0x1_0000_0000_0000_0000 - quad, 10, f)
  {
    hide Printed;
    hide ShowsNumber;
    var args := [LongLong(quad)] + rest;
    Shown(Escape(next, args, f, 'u'), "", quad, 10);
    Shown(Escape(next, args, f, 'o'), "", quad, 8);
    Shown(Escape(next, args, f, 'x'), "", quad, 16);
    if quad < 0x8000_0000_0000_0000 {
      Shown(Escape(next, args, f, 'd'), "", quad, 10);
    } else {
      Shown(Escape(next, args, f, 'd'), "-", 0x1_0000_0000_0000_0000 - quad, 10);
    }
  }

  // ---- whole formats ------------------------------------------------------------------------

  /** A format that is one escape. */
  lemma OneEscape(fmt: string, args: seq<Arg>, e: Escape)
    requires fmt != "" && fmt[0] == '%' && Scan(fmt, 1, args, PLAIN) == Some(e) && e.next == |fmt|
    requires Conversion(e.ch) && Converted(e).Some?
    ensures Format(fmt, 0, args) == Converted(e)
  {
    hide Converted;
    hide Scan;
    var rest := if e.ch == '%' || e.args == [] then e.args else e.args[1..];
    assert Format(fmt, e.next, rest) == Some("");
    assert Converted(e).value + "" == Converted(e).value;
  }

  /** A format that is one %s, without '#': the string, cut and padded. */
  lemma OneString(fmt: string, args: seq<Arg>, f: Field, p: string)
    requires fmt != "" && fmt[0] == '%' && !f.altflag
    requires Scan(fmt, 1, args, PLAIN) == Some(Escape(|fmt|, [Str(Some(p))], f, 's'))
    ensures var m := if f.precision < 0 then |p| else Shorter(f.precision, |p|);
      Format(fmt, 0, args) ==
      Some(if f.padc == '-' then p[..m] + Repeat(' ', f.width - m) else Repeat(f.padc, f.width - m) + p[..m])
  {
    hide Scan;
    hide Converted;
    hide ShowsString;
    var e := Escape(|fmt|, [Str(Some(p))], f, 's');
    StringExact(e);
    OneEscape(fmt, args, e);
    ShownPlainly(Converted(e).value, p, if f.precision < 0 then |p| else Shorter(f.precision, |p|), f.width, f.padc);
  }

  /** A precision from an argument cuts the string, as in sys_cputs. */
  lemma PrecisionCuts(n: Addr, p: string)
    requires n < 0x8000_0000
    ensures Format("%.*s", 0, [Int(n), Str(Some(p))]) == Some(p[..Shorter(n, |p|)])
  {
    hide Scan;
    hide Format;
    var m := Shorter(n, |p|);
    PrecisionScanned(n, p);
    OneString("%.*s", [Int(n), Str(Some(p))], PLAIN.(width := 0, precision := n), p);
    assert Repeat(' ', 0 - m) + p[..m] == p[..m] by {
      assert Repeat(' ', 0 - m) == "";
    }
  }

  lemma PrecisionScanned(n: Addr, p: string)
    requires n < 0x8000_0000
    ensures Scan("%.*s", 1, [Int(n), Str(Some(p))], PLAIN) ==
      Some(Escape(4, [Str(Some(p))], PLAIN.(width := 0, precision := n), 's'))
  {
    var fmt, args, f := "%.*s", [Int(n), Str(Some(p))], PLAIN.(width := 0, precision := n);
    assert fmt[1] == '.' && fmt[2] == '*' && fmt[3] == 's' && args[1..] == [Str(Some(p))];
    assert Scan(fmt, 3, args[1..], f) == Some(Escape(4, args[1..], f, 's'));
    assert Scan(fmt, 2, args, PLAIN.(width := 0)) == Scan(fmt, 3, args[1..], f);
  }

  /** A width from an argument pads with blanks on the left, or with the '-' flag on the right. */
  lemma WidthPads(w: Addr, p: string)
    requires w < 0x8000_0000
    ensures Format("%*s", 0, [Int(w), Str(Some(p))]) == Some(Repeat(' ', w - |p|) + p)
    ensures Format("%-*s", 0, [Int(w), Str(Some(p))]) == Some(p + Repeat(' ', w - |p|))
  {
    hide Scan;
    hide Format;
    hide Repeat;
    var args := [Int(w), Str(Some(p))];
    assert args[1..] == [Str(Some(p))] && p[..|p|] == p;
    WidthsScanned(w, args);
    OneString("%*s", args, PLAIN.(width := w), p);
    OneString("%-*s", args, PLAIN.(width := w, padc := '-'), p);
  }

  lemma WidthsScanned(w: Addr, args: seq<Arg>)
    requires w < 0x8000_0000 && |args| == 2 && args[0] == Int(w)
    ensures Scan("%*s", 1, args, PLAIN) == Some(Escape(3, args[1..], PLAIN.(width := w), 's'))
    ensures Scan("%-*s", 1, args, PLAIN) == Some(Escape(4, args[1..], PLAIN.(width := w, padc := '-'), 's'))
    ensures Scan("%*u", 1, args, PLAIN) == Some(Escape(3, args[1..], PLAIN.(width := w), 'u'))
    ensures Scan("%0*u", 1, args, PLAIN) == Some(Escape(4, args[1..], PLAIN.(width := w, padc := '0'), 'u'))
  {
    WidthScanned("%*s", args, 1, PLAIN);
    WidthScanned("%-*s", args, 2, PLAIN.(padc := '-'));
    WidthScanned("%*u", args, 1, PLAIN);
    WidthScanned("%0*u", args, 2, PLAIN.(padc := '0'));
    assert Scan("%-*s", 1, args, PLAIN) == Scan("%-*s", 2, args, PLAIN.(padc := '-'));
    assert Scan("%0*u", 1, args, PLAIN) == Scan("%0*u", 2, args, PLAIN.(padc := '0'));
  }

  /** `*` and then a conversion character. */
  lemma WidthScanned(fmt: string, args: seq<Arg>, j: nat, f: Field)
    requires |fmt| == j + 2 && fmt[j] == '*' && fmt[j + 1] in "sdu"
    requires |args| >= 1 && args[0].Int? && args[0].bits < 0x8000_0000 && f.width < 0 && f.precision == -1
    ensures Scan(fmt, j, args, f) == Some(Escape(j + 2, args[1..], f.(width := args[0].bits), fmt[j + 1]))
  {
    var f' := f.(width := args[0].bits);
    assert Scan(fmt, j + 1, args[1..], f') == Some(Escape(j + 2, args[1..], f', fmt[j + 1]));
    assert WithNumber(f, args[0].bits) == f';
  }

  /** A width in digits: the field is as wide as the number that they write. */
  lemma WidthInDigits(w: nat, p: string)
    requires w > 0
    ensures Format("%" + Digits(w, 10) + "s", 0, [Str(Some(p))]) == Some(Repeat(' ', w - |p|) + p)
  {
    hide Digits;
    hide Scan;
    hide Format;
    hide Repeat;
    var fmt, args := "%" + Digits(w, 10) + "s", [Str(Some(p))];
    DigitsScanned(w, args);
    OneString(fmt, args, PLAIN.(width := w), p);
    assert p[..|p|] == p;
  }

  lemma DigitsScanned(w: nat, args: seq<Arg>)
    requires w > 0
    ensures var fmt := "%" + Digits(w, 10) + "s";
      Scan(fmt, 1, args, PLAIN) == Some(Escape(|fmt|, args, PLAIN.(width := w), 's'))
  {
    hide Digits;
    hide NumberOf;
    var fmt, k := "%" + Digits(w, 10) + "s", |Digits(w, 10)| + 1;
    var ds := DigitsWrite(w, 10);
    assert forall i :: 0 <= i < |ds| ==> fmt[1 + i] == Digits(w, 10)[i];
    assert fmt[k] == 's';
    ReadsNumber(fmt, 1, ds, 0);
    NoDigits(ds);
    assert '1' <= fmt[1] <= '9';
    var f := PLAIN.(width := w);
    assert Scan(fmt, k, args, f) == Some(Escape(k + 1, args, f, 's'));
  }

  lemma NoDigits(ds: seq<nat>)
    ensures NumberOf(ds[..0], 10) == 0
  {
  }

  lemma {:induction false} ReadsNumber(fmt: string, at: nat, ds: seq<nat>, k: nat)
    requires at + |ds| < |fmt| && k <= |ds| && !IsDigit(fmt[at + |ds|])
    requires forall i :: 0 <= i < |ds| ==> ds[i] < 10 && LowerDigit(fmt[at + i], ds[i])
    ensures ReadNumber(fmt, at + k, NumberOf(ds[..k], 10)) == (NumberOf(ds, 10), at + |ds|)
    decreases |ds| - k
  {
    if k < |ds| {
      NumberOfNext(ds, k, 10);
      ReadsNumber(fmt, at, ds, k + 1);
    } else {
      assert ds[..k] == ds;
    }
  }

  /** A number in a field of w, padded with zeros on the left with the '0' flag, and with blanks without. */
  lemma NumbersPad(w: Addr, bits: Addr)
    requires w < 0x8000_0000
    ensures var args := [Int(w), Int(bits)]; var zeros, blanks := Format("%0*u", 0, args), Format("%*u", 0, args);
      && zeros.Some? && ShowsNumber(zeros.value, "", bits, 10, PLAIN.(padc := '0', width := w))
      && blanks.Some? && ShowsNumber(blanks.value, "", bits, 10, PLAIN.(width := w))
  {
    hide Scan;
    hide Format;
    hide ShowsNumber;
    hide Converted;
    var args := [Int(w), Int(bits)];
    assert args[1..] == [Int(bits)] + [];
    WidthsScanned(w, args);
    NumbersExact(PLAIN.(width := w), bits, 3, []);
    NumbersExact(PLAIN.(padc := '0', width := w), bits, 4, []);
    OneEscape("%*u", args, Escape(3, args[1..], PLAIN.(width := w), 'u'));
    OneEscape("%0*u", args, Escape(4, args[1..], PLAIN.(padc := '0', width := w), 'u'));
  }

  /** %d takes an int, and so does %ld; %lld takes a long long. */
  lemma LongsRead(bits: Addr, quad: Uint64)
    ensures Format("%ld", 0, [Int(bits)]) == Format("%d", 0, [Int(bits)])
    ensures var d := Format("%d", 0, [Int(bits)]);
      && d.Some?
      && if bits < 0x8000_0000 then ShowsNumber(d.value, "", bits, 10, PLAIN)
         else ShowsNumber(d.value, "-", 0x1_0000_0000 - bits, 10, PLAIN)
    ensures var d := Format("%lld", 0, [LongLong(quad)]);
      && d.Some?
      && if quad < 0x8000_0000_0000_0000 then ShowsNumber(d.value, "", quad, 10, PLAIN.(lflag := 2))
         else ShowsNumber(d.value, "-", 0x1_0000_0000_0000_0000 - quad, 10, PLAIN.(lflag := 2))
    ensures Format("%d", 0, [LongLong(quad)]) == None == Format("%lld", 0, [Int(bits)])
  {
    LongsScanned([Int(bits)]);
    LongsScanned([LongLong(quad)]);
    hide Scan;
    hide ShowsNumber;
    hide Printed;
    NumbersExact(PLAIN, bits, 2, []);
    NumbersExact(PLAIN.(lflag := 1), bits, 3, []);
    LongLongsExact(PLAIN.(lflag := 2), quad, 4, []);
    assert [Int(bits)] + [] == [Int(bits)] && [LongLong(quad)] + [] == [LongLong(quad)];
    OneEscape("%d", [Int(bits)], Escape(2, [Int(bits)], PLAIN, 'd'));
    OneEscape("%ld", [Int(bits)], Escape(3, [Int(bits)], PLAIN.(lflag := 1), 'd'));
    OneEscape("%lld", [LongLong(quad)], Escape(4, [LongLong(quad)], PLAIN.(lflag := 2), 'd'));
  }

  lemma LongsScanned(args: seq<Arg>)
    ensures Scan("%d", 1, args, PLAIN) == Some(Escape(2, args, PLAIN, 'd'))
    ensures Scan("%ld", 1, args, PLAIN) == Some(Escape(3, args, PLAIN.(lflag := 1), 'd'))
    ensures Scan("%lld", 1, args, PLAIN) == Some(Escape(4, args, PLAIN.(lflag := 2), 'd'))
  {
    assert Scan("%ld", 2, args, PLAIN.(lflag := 1)) == Some(Escape(3, args, PLAIN.(lflag := 1), 'd'));
    assert Scan("%lld", 3, args, PLAIN.(lflag := 2)) == Some(Escape(4, args, PLAIN.(lflag := 2), 'd'));
    assert Scan("%lld", 2, args, PLAIN.(lflag := 1)) == Scan("%lld", 3, args, PLAIN.(lflag := 2));
  }

  /** With '#' the characters outside ' ' .. '~' show as '?'; without it all show as they are. */
  lemma AltShows(p: string)
    ensures var t := Format("%#s", 0, [Str(Some(p))]);
      t.Some? && |t.value| == |p|
      && forall k :: 0 <= k < |p| ==> t.value[k] == if p[k] < ' ' || p[k] > '~' then '?' else p[k]
    ensures Format("%s", 0, [Str(Some(p))]) == Some(p) && Format("%s", 0, [Str(None)]) == Some("(null)")
  {
    hide Scan;
    hide Converted;
    hide Format;
    var args := [Str(Some(p))];
    StringsScanned(args);
    StringsScanned([Str(None)]);
    PlainString(2, p);
    AltString(3, p);
    OneEscape("%s", args, Escape(2, args, PLAIN, 's'));
    OneEscape("%s", [Str(None)], Escape(2, [Str(None)], PLAIN, 's'));
    OneEscape("%#s", args, Escape(3, args, PLAIN.(altflag := true), 's'));
  }

  lemma AltString(next: nat, p: string)
    ensures var t := Converted(Escape(next, [Str(Some(p))], PLAIN.(altflag := true), 's'));
      t.Some? && |t.value| == |p|
      && forall k :: 0 <= k < |p| ==> t.value[k] == if p[k] < ' ' || p[k] > '~' then '?' else p[k]
  {
    hide StringText;
    hide ShowsString;
    var f := PLAIN.(altflag := true);
    TextExact(p, f);
    AltCharacters(StringText(p, f), p);
  }

  lemma AltCharacters(text: string, p: string)
    requires ShowsString(text, p, |p|, -1, ' ', true)
    ensures |text| == |p|
    ensures forall k :: 0 <= k < |p| ==> text[k] == if p[k] < ' ' || p[k] > '~' then '?' else p[k]
  {
  }

  /** Without flags. */
  lemma PlainString(next: nat, p: string)
    ensures Converted(Escape(next, [Str(Some(p))], PLAIN, 's')) == Some(p)
    ensures Converted(Escape(next, [Str(None)], PLAIN, 's')) == Some("(null)")
  {
    PlainText(p);
    PlainText("(null)");
    hide StringText;
  }

  lemma PlainText(p: string)
    ensures StringText(p, PLAIN) == p
  {
    hide StringText;
    TextExact(p, PLAIN);
    ShownPlainly(StringText(p, PLAIN), p, |p|, -1, ' ');
    assert Repeat(' ', -1 - |p|) == "" && p[..|p|] == p && "" + p == p;
  }

  lemma PlainNumber(next: nat, bits: Addr, rest: seq<Arg>)
    ensures var t := Converted(Escape(next, [Int(bits)] + rest, PLAIN, 'u')); t.Some? && Writes(t.value, bits, 10)
  {
    hide ShowsNumber;
    hide Converted;
    NumbersExact(PLAIN, bits, next, rest);
    Unpadded(Converted(Escape(next, [Int(bits)] + rest, PLAIN, 'u')).value, bits);
  }

  lemma Unpadded(text: string, num: nat)
    requires ShowsNumber(text, "", num, 10, PLAIN)
    ensures Writes(text, num, 10)
  {
    hide Writes;
    var d :| Writes(d, num, 10) && text == "" + (Repeat(' ', -1 - |d|) + d);
    assert Repeat(' ', -1 - |d|) == "";
    assert text == d;
  }

  lemma StringsScanned(args: seq<Arg>)
    ensures Scan("%s", 1, args, PLAIN) == Some(Escape(2, args, PLAIN, 's'))
    ensures Scan("%#s", 1, args, PLAIN) == Some(Escape(3, args, PLAIN.(altflag := true), 's'))
  {
    assert Scan("%#s", 2, args, PLAIN.(altflag := true)) == Some(Escape(3, args, PLAIN.(altflag := true), 's'));
  }

  /** %c prints one byte; %% prints a percent sign and takes no argument. */
  lemma CharactersShow(bits: Addr, args: seq<Arg>)
    ensures Format("%c", 0, [Int(bits)]) == Some([(bits % 256) as char])
    ensures Format("%%", 0, args) == Some("%")
  {
    assert Scan("%c", 1, [Int(bits)], PLAIN) == Some(Escape(2, [Int(bits)], PLAIN, 'c'));
    assert Scan("%%", 1, args, PLAIN) == Some(Escape(2, args, PLAIN, '%'));
    OneEscape("%c", [Int(bits)], Escape(2, [Int(bits)], PLAIN, 'c'));
    OneEscape("%%", args, Escape(2, args, PLAIN, '%'));
  }

  // ---- %e -----------------------------------------------------------------------------------

  /** The message of an error number, for the number and for its negative. */
  lemma ErrorsShow(err: Addr)
    requires 0 < err < 0x8000_0000
    ensures var t := Format("%e", 0, [Int(err)]);
      && t.Some? && Format("%e", 0, [Int(0x1_0000_0000 - err)]) == t
      && (err == 1 ==> t.value == "unspecified error") && (err == 2 ==> t.value == "bad environment")
      && (err == 3 ==> t.value == "invalid parameter") && (err == 4 ==> t.value == "out of memory")
      && (err == 5 ==> t.value == "out of environments") && (err == 6 ==> t.value == "segmentation fault")
      && (err > 6 ==> exists d :: Writes(d, err, 10) && t.value == "error " + d)
  {
    hide Printed;
    hide Digits;
    hide Writes;
    var args, args' := [Int(err)], [Int(0x1_0000_0000 - err)];
    assert Scan("%e", 1, args, PLAIN) == Some(Escape(2, args, PLAIN, 'e'));
    assert Scan("%e", 1, args', PLAIN) == Some(Escape(2, args', PLAIN, 'e'));
    OneEscape("%e", args, Escape(2, args, PLAIN, 'e'));
    OneEscape("%e", args', Escape(2, args', PLAIN, 'e'));
    PrintedIsPadded(err, 10, -1, ' ');
    DigitsExact(err, 10);
    assert Repeat(' ', -1 - |Digits(err, 10)|) == "";
    assert "" + Digits(err, 10) == Digits(err, 10);
  }

  // ---- several escapes ----------------------------------------------------------------------

  /** Escapes take the arguments in turn. */
  lemma InTurn(bits: Addr, p: string)
    ensures exists d :: Writes(d, bits, 10) && Format("%u %s", 0, [Int(bits), Str(Some(p))]) == Some(d + " " + p)
  {
    hide Writes;
    hide Converted;
    var fmt, args := "%u %s", [Int(bits), Str(Some(p))];
    assert args == [Int(bits)] + [Str(Some(p))] && args[1..] == [Str(Some(p))];
    InTurnScanned(args);
    hide Scan;
    PlainNumber(2, bits, args[1..]);
    var d := Converted(Escape(2, args, PLAIN, 'u')).value;
    PlainString(5, p);
    assert Format(fmt, 5, []) == Some("") && p + "" == p;
    assert Format(fmt, 3, args[1..]) == Some(p);
    assert Format(fmt, 2, args[1..]) == Some(" " + p);
    assert d + (" " + p) == d + " " + p;
  }

  lemma InTurnScanned(args: seq<Arg>)
    requires |args| == 2
    ensures Scan("%u %s", 1, args, PLAIN) == Some(Escape(2, args, PLAIN, 'u'))
    ensures Scan("%u %s", 4, args[1..], PLAIN) == Some(Escape(5, args[1..], PLAIN, 's'))
  {
  }
}
