/** Printing numbers into a bounded buffer, and reading them back. */
module Printfmt {
  import opened LibString
  import Frames

  const E_INVAL: int := 3
  const ULONG_LIMIT: nat := 2 * INT64_LIMIT
  const DIGITS: string := "0123456789abcdef"

  function DigitChar(d: nat): char
    requires d < 16
  {
    DIGITS[d]
  }

  /** The digits of a number, the most significant one first. */
  function Digits(num: nat, base: nat): (r: string)
    requires 2 <= base <= 16
    ensures |r| > 0
  {
    (if num >= base then Digits(num / base, base) else "") + [DigitChar(num % base)]
  }

  /** n copies of a character. */
  function Pad(n: int, c: char): (r: string)
    ensures |r| == if n > 0 then n else 0
    ensures forall i :: 0 <= i < |r| ==> r[i] == c
  {
    if n > 0 then seq(n, _ => c) else ""
  }

  /** A number padded on the left to a width. */
  function Numeral(num: nat, base: nat, width: int, padc: char): (r: string)
    requires 2 <= base <= 16
  {
    Pad(width - |Digits(num, base)|, padc) + Digits(num, base)
  }

  // ---- Printing ----

  /** A bounded buffer: what does not fit is counted but not stored. */
  class SprintBuf {
    const mem: array<char>
    var buf: nat
    const ebuf: nat
    var cnt: int
    ghost var text: string

    ghost predicate Valid()
      reads this, mem
    {
      && ebuf < mem.Length
      && buf == (if |text| < ebuf then |text| else ebuf)
      && mem[..buf] == text[..buf]
      && cnt == Frames.ToInt32(|text|)
    }

    constructor (mem: array<char>, n: nat)
      requires 0 < n <= mem.Length
      ensures Valid() && text == "" && this.mem == mem && ebuf == n - 1
    {
      this.mem, ebuf, buf, cnt, text := mem, n - 1, 0, 0, "";
    }

    /** sprintputch */
    method Put(ch: char)
      requires Valid()
      modifies this, mem
      ensures Valid() && text == old(text) + [ch]
      ensures forall k :: ebuf <= k < mem.Length ==> mem[k] == old(mem[k])
    {
      CountWraps(|text|);
      cnt := Frames.ToInt32(cnt + 1);
      if buf < ebuf {
        mem[buf] := ch;
        buf := buf + 1;
      }
      text := text + [ch];
    }

    /** Ends what is stored with a zero byte. */
    method Terminate() returns (r: int)
      requires Valid()
      modifies mem
      ensures r == Frames.ToInt32(|text|) && buf == (if |text| < ebuf then |text| else ebuf) < mem.Length
      ensures mem[..buf] == text[..buf] && mem[buf] == '\0'
      ensures forall j :: buf < j < mem.Length ==> mem[j] == old(mem[j])
    {
      mem[buf] := '\0';
      r := cnt;
    }
  }

  lemma CountWraps(n: nat)
    ensures Frames.ToInt32(Frames.ToInt32(n) + 1) == Frames.ToInt32(n + 1)
  {
    var m := 0x1_0000_0000;
    var q := (n + 0x8000_0000) / m;
    assert Frames.ToInt32(n) == n - q * m;
    assert (n + 1 + 0x8000_0000 - q * m) % m == (n + 1 + 0x8000_0000) % m;
  }

  /** The padding loop of printnum: one character less than the width. */
  method Padding(b: SprintBuf, width0: int, padc: char)
    requires b.Valid()
    modifies b, b.mem
    ensures b.Valid() && b.text == old(b.text) + Pad(width0 - 1, padc)
    ensures forall k :: b.ebuf <= k < b.mem.Length ==> b.mem[k] == old(b.mem[k])
  {
    var width, done := width0 - 1, 0;
    while width > 0
      invariant width == width0 - 1 - done && (done == 0 || width >= 0)
      invariant b.Valid() && b.text == old(b.text) + Pad(done, padc)
      invariant forall k :: b.ebuf <= k < b.mem.Length ==> b.mem[k] == old(b.mem[k])
    {
      assert Pad(done + 1, padc) == Pad(done, padc) + [padc];
      b.Put(padc);
      width, done := width - 1, done + 1;
    }
  }

  /** Prints a number digit by digit, the padding from within the innermost call. */
  method Printnum(b: SprintBuf, num: nat, base: nat, width: int, padc: char)
    requires b.Valid() && 2 <= base <= 16
    modifies b, b.mem
    ensures b.Valid() && b.text == old(b.text) + Numeral(num, base, width, padc)
    ensures forall k :: b.ebuf <= k < b.mem.Length ==> b.mem[k] == old(b.mem[k])
    decreases num
  {
    hide Numeral, Digits, SprintBuf.Valid;
    NumeralStep(num, base, width, padc);
    if num >= base {
      Printnum(b, num / base, base, width - 1, padc);
    } else {
      Padding(b, width, padc);
    }
    b.Put(DigitChar(num % base));
  }

  lemma NumeralStep(num: nat, base: nat, width: int, padc: char)
    requires 2 <= base <= 16
    ensures num >= base ==>
      && num / base < num
      && Numeral(num, base, width, padc) == Numeral(num / base, base, width - 1, padc) + [DigitChar(num % base)]
    ensures num < base ==> Numeral(num, base, width, padc) == Pad(width - 1, padc) + [DigitChar(num % base)]
  {
    if num >= base {
      DivideLess(num, base);
    }
  }

  /** The numeric conversions of vprintfmt. */
  datatype Conversion =
    | Decimal(v: int)
    | Unsigned(num: nat, base: nat)
    | Pointer(addr: nat)
  {
    /** What a 64-bit argument can hold, and the bases that have a conversion. */
    predicate Fits() {
      match this
      case Decimal(v) => 0 <= v + INT64_LIMIT < ULONG_LIMIT
      case Unsigned(num, base) => num < ULONG_LIMIT && (base == 8 || base == 10 || base == 16)
      case Pointer(addr) => addr < ULONG_LIMIT
    }

    function Text(width: int, padc: char): string {
      match this
      case Decimal(v) => (if v < 0 then "-" else "") + Numeral(if v < 0 then -v else v, 10, width, padc)
      case Unsigned(num, base) => Numeral(num, if 2 <= base <= 16 then base else 10, width, padc)
      case Pointer(addr) => "0x" + Numeral(addr, 16, width, padc)
    }
  }

  /** vprintfmt with a format that is one numeric conversion. */
  method Vprintfmt(b: SprintBuf, conv: Conversion, width: int, padc: char)
    requires b.Valid() && conv.Fits()
    modifies b, b.mem
    ensures b.Valid() && b.text == old(b.text) + conv.Text(width, padc)
    ensures forall k :: b.ebuf <= k < b.mem.Length ==> b.mem[k] == old(b.mem[k])
  {
    hide Numeral, SprintBuf.Valid;
    match conv {
      case Decimal(v) =>
        var num := v;
        if num < 0 {
          b.Put('-');
          num := -num;
        }
        Printnum(b, num, 10, width, padc);
      case Unsigned(num, base) =>
        Printnum(b, num, base, width, padc);
      case Pointer(addr) =>
        b.Put('0');
        b.Put('x');
        Printnum(b, addr, 16, width, padc);
    }
  }

  /** Stores as much of the text as fits and a zero byte, and returns the length of the whole text. */
  method Vsnprintf(buf: array?<char>, n: int, conv: Conversion, width: int, padc: char) returns (r: int)
    requires conv.Fits() && (buf != null ==> n <= buf.Length)
    modifies buf
    ensures buf == null || n < 1 ==> r == -E_INVAL && (buf != null ==> buf[..] == old(buf[..]))
    ensures buf != null && n >= 1 ==>
      var text := conv.Text(width, padc);
      var k := if |text| < n - 1 then |text| else n - 1;
      && r == Frames.ToInt32(|text|)
      && buf[..k] == text[..k] && buf[k] == '\0'
      && (forall j :: n <= j < buf.Length ==> buf[j] == old(buf[j]))
  {
    if buf == null || n < 1 {
      return -E_INVAL;
    }
    hide Conversion.Text, Conversion.Fits, SprintBuf.Valid;
    var b := new SprintBuf(buf, n);
    Vprintfmt(b, conv, width, padc);
    assert b.text == conv.Text(width, padc);
    r := b.Terminate();
    assert b.buf == if |b.text| < n - 1 then |b.text| else n - 1;
  }

  // ---- Reading back ----

  lemma DigitsAreDigits(d: nat, base: nat)
    requires d < base <= 16
    ensures DigitOf(DigitChar(d)) == d && IsDigit(DigitChar(d), base) && !IsBlank(DigitChar(d))
    ensures DigitChar(d) != '+' && DigitChar(d) != '-' && DigitChar(d) != 'x'
  {
  }

  predicate AllDigits(s: string, base: nat) {
    forall i :: 0 <= i < |s| ==> IsDigit(s[i], base) && s[i] != 'x' && s[i] != '+' && s[i] != '-' && !IsBlank(s[i])
  }

  lemma ValueOfMore(ds: string, c: char, base: int)
    ensures ValueOf(ds + [c], base) == ValueOf(ds, base) * base + DigitOf(c)
  {
    assert (ds + [c])[..|ds|] == ds;
  }

  /** The digits of a number denote it. */
  lemma {:induction false} DigitsDenote(num: nat, base: nat)
    requires 2 <= base <= 16
    ensures ValueOf(Digits(num, base), base) == num
    decreases num
  {
    var more := if num >= base then Digits(num / base, base) else "";
    assert Digits(num, base) == more + [DigitChar(num % base)];
    hide ValueOf, DigitOf, DigitChar, Digits;
    DigitsAreDigits(num % base, base);
    if num >= base {
      DivideLess(num, base);
      DigitsDenote(num / base, base);
    } else {
      EmptyDenotesZero(base);
      SmallQuotient(num, base);
    }
    DenoteStep(more, num, base, DigitChar(num % base));
  }

  lemma DenoteStep(more: string, num: nat, base: nat, c: char)
    requires base > 0 && ValueOf(more, base) == num / base && DigitOf(c) == num % base
    ensures ValueOf(more + [c], base) == num
  {
    hide ValueOf, DigitOf;
    ValueOfMore(more, c, base);
    QuotientAndRest(num, base);
  }

  lemma SmallQuotient(num: nat, base: nat)
    requires num < base
    ensures num / base == 0
  {
  }

  lemma QuotientAndRest(num: nat, base: nat)
    requires base > 0
    ensures num == num / base * base + num % base
  {
  }

  lemma {:induction false} DigitsAllDigits(num: nat, base: nat)
    requires 2 <= base <= 16
    ensures AllDigits(Digits(num, base), base)
    decreases num
  {
    hide ValueOf, DigitOf, DigitChar;
    DigitsAreDigits(num % base, base);
    if num >= base {
      DivideLess(num, base);
      DigitsAllDigits(num / base, base);
    }
  }

  lemma QuotientLess(q: nat, r: nat, base: nat)
    requires base >= 2 && q * base + r >= base
    ensures q < q * base + r
  {
    assert q * base == 2 * q + q * (base - 2);
  }

  lemma DivideLess(num: nat, base: nat)
    requires num >= base >= 2
    ensures num / base < num
  {
    QuotientLess(num / base, num % base, base);
    assert num == num / base * base + num % base;
  }

  lemma EmptyDenotesZero(base: int)
    ensures ValueOf("", base) == 0
  {
  }

  /** Leading zeros do not change what a string of digits denotes. */
  lemma {:induction false} LeadingZeros(n: nat, ds: string, base: nat)
    ensures ValueOf(Pad(n, '0') + ds, base) == ValueOf(ds, base)
    decreases n + |ds|
  {
    var s := Pad(n, '0') + ds;
    if ds != "" {
      LeadingZeros(n, ds[..|ds| - 1], base);
      assert s[..|s| - 1] == Pad(n, '0') + ds[..|ds| - 1];
    } else if n > 0 {
      LeadingZeros(n - 1, ds, base);
      assert s[..|s| - 1] == Pad(n - 1, '0') + ds;
    }
  }

  /** A string that is a sign or a prefix, and then only digits. */
  lemma ReadsToEnd(s: string, from: nat, base: nat)
    requires from <= |s| && AllDigits(s[from..], base)
    ensures SkipDigits(s, from, base) == |s| && s[from..SkipDigits(s, from, base)] == s[from..]
  {
    forall j | from <= j < |s| ensures IsDigit(s[j], base) {
      assert s[from..][j - from] == s[j];
    }
  }

  /** strtol reads a padded numeral to its end and returns the number, reduced to the type `long`: the number
      itself exactly when it is below 2 to the 63rd. */
  lemma NumeralRoundTrip(num: nat, base: nat, width: int, padc: char)
    requires 2 <= base <= 16 && (padc == ' ' || padc == '0')
    ensures var s := Numeral(num, base, width, padc);
      && Number(s, base) == Parsed(ToInt64(num), |s|)
      && (Number(s, base).val == num <==> num < INT64_LIMIT)
  {
    hide Digits, ToInt64, DigitOf, ValueOf;
    LongHolds(num);
    var ds := Digits(num, base);
    var n := if width > |ds| then width - |ds| else 0;
    var s := Numeral(num, base, width, padc);
    assert s == Pad(n, padc) + ds;
    DigitsDenote(num, base);
    DigitsAllDigits(num, base);
    var from := if padc == ' ' then n else 0;
    LeadingZeros(n, ds, base);
    ZerosAreDigits(n, ds, base);
    assert s[from..] == if padc == ' ' then ds else s;
    ReadsToEnd(s, from, base);
    StartsAt(s, from, base);
  }

  lemma LongHolds(num: nat)
    ensures ToInt64(num) == num <==> num < INT64_LIMIT
  {
  }

  lemma ZerosAreDigits(n: nat, ds: string, base: nat)
    requires AllDigits(ds, base) && base >= 2
    ensures AllDigits(Pad(n, '0') + ds, base)
  {
  }

  /** Blanks and then only digits: no sign and no prefix. */
  lemma StartsAt(s: string, from: nat, base: nat)
    requires from < |s| && base >= 2 && AllDigits(s[from..], base) && forall i :: 0 <= i < from ==> s[i] == ' '
    ensures var end := SkipDigits(s, from, base);
      Number(s, base) == Parsed(ToInt64(ValueOf(s[from..end], base)), end)
  {
    hide ToInt64, DigitOf, ValueOf, Number;
    assert s[from..][0] == s[from];
    assert from + 1 < |s| ==> s[from..][1] == s[from + 1];
    var sign := SkipBlanks(s, 0);
    assert sign == from;
    NumberIs(s, base, from, from, base);
  }

  /** After a sign or a prefix of `from` characters, the padded numeral is read if its padding is digits too;
      blanks there end the number before it begins. */
  lemma NumeralBehind(s: string, from: nat, num: nat, base: nat, width: int, padc: char)
    requires 2 <= base <= 16 && (padc == ' ' || padc == '0')
    requires from <= |s| && s[from..] == Numeral(num, base, width, padc)
    ensures if padc == ' ' && width > |Digits(num, base)|
      then SkipDigits(s, from, base) == from && from < |s|
      else SkipDigits(s, from, base) == |s| && ValueOf(s[from..|s|], base) == num
  {
    hide Digits, ValueOf;
    var ds := Digits(num, base);
    var n := if width > |ds| then width - |ds| else 0;
    var t := Numeral(num, base, width, padc);
    assert t == Pad(n, padc) + ds;
    if padc == ' ' && n > 0 {
      assert s[from] == t[0] == ' ';
    } else {
      DigitsDenote(num, base);
      DigitsAllDigits(num, base);
      LeadingZeros(n, ds, base);
      ZerosAreDigits(n, ds, base);
      assert t == Pad(n, '0') + ds;
      ReadsToEnd(s, from, base);
      assert s[from..|s|] == s[from..];
    }
  }

  /** What `%u`, `%o` and `%x` print is read back to its end in the base of the conversion, reduced to the type `long`:
      as the number itself exactly when it is below 2 to the 63rd. */
  lemma UnsignedRoundTrip(num: nat, base: nat, width: int, padc: char)
    requires Unsigned(num, base).Fits() && (padc == ' ' || padc == '0')
    ensures var s := Unsigned(num, base).Text(width, padc);
      && Number(s, base) == Parsed(ToInt64(num), |s|)
      && (Number(s, base) == Parsed(num, |s|) <==> num < 0x8000_0000_0000_0000)
  {
    hide Number, Numeral, ToInt64;
    NumeralRoundTrip(num, base, width, padc);
  }

  lemma NextDigit(num: nat, base: nat)
    requires 2 <= base <= 16
    ensures Digits(num, base) == (if num >= base then Digits(num / base, base) else "") + [DIGITS[num % base]]
  {
  }

  /** For instance 255 in base 16. */
  lemma UnsignedExample()
    ensures Unsigned(255, 16).Text(0, ' ') == "ff"
  {
    NextDigit(255, 16);
    NextDigit(15, 16);
    assert 255 / 16 == 15 && 255 % 16 == 15 && DIGITS[15] == 'f';
    hide Digits;
    assert Digits(255, 16) == "f" + "f";
  }

  function Power(base: nat, n: nat): nat {
    if n == 0 then 1 else base * Power(base, n - 1)
  }

  /** A number has as few digits as can be. */
  lemma {:induction false} DigitsAreFew(num: nat, base: nat)
    requires 2 <= base <= 16
    ensures var n := |Digits(num, base)|; (num > 0 ==> Power(base, n - 1) <= num) && num < Power(base, n)
    decreases num
  {
    hide Power, Digits;
    PowerStep(base, 0);
    if num >= base {
      var q := WithoutLast(num, base);
      DigitsAreFew(q, base);
    } else {
      NextDigit(num, base);
    }
  }

  lemma WithoutLast(num: nat, base: nat) returns (q: nat)
    requires num >= base && 2 <= base <= 16
    ensures 0 < q < num && |Digits(num, base)| == |Digits(q, base)| + 1
    ensures var n := |Digits(q, base)|;
      Power(base, n - 1) <= q < Power(base, n) ==> Power(base, n) <= num < Power(base, n + 1)
  {
    hide Power, Digits;
    q := num / base;
    DivideLess(num, base);
    QuotientPositive(num, base);
    NextDigit(num, base);
    if Power(base, |Digits(q, base)| - 1) <= q < Power(base, |Digits(q, base)|) {
      OneDigitMore(num, base, |Digits(q, base)|);
    }
  }

  /** Each digit is one of the first `base` of the sixteen, and none is wasted: zero is a single zero. */
  lemma {:induction false} DigitsAreLowercase(num: nat, base: nat)
    requires 2 <= base <= 16
    ensures forall i :: 0 <= i < |Digits(num, base)| ==> Digits(num, base)[i] in "0123456789abcdef"[..base]
    ensures num == 0 ==> Digits(num, base) == "0"
    decreases num
  {
    hide Digits;
    NextDigit(num, base);
    LastIsDigit(num % base, base);
    if num >= base {
      DivideLess(num, base);
      DigitsAreLowercase(num / base, base);
    }
  }

  lemma LastIsDigit(d: nat, base: nat)
    requires d < base <= 16
    ensures DIGITS[d] in "0123456789abcdef"[..base] && (d == 0 ==> [DIGITS[d]] == "0")
  {
    assert DIGITS[d] == DIGITS[..base][d];
  }

  lemma OneDigitMore(num: nat, base: nat, n: nat)
    requires base > 0 && n > 0 && Power(base, n - 1) <= num / base < Power(base, n)
    ensures Power(base, n) <= num < Power(base, n + 1)
  {
    hide Power;
    QuotientAndRest(num, base);
    PowerStep(base, n - 1);
    PowerStep(base, n);
    Scaled(num / base, num % base, base, Power(base, n - 1), Power(base, n));
  }

  lemma QuotientPositive(num: nat, base: nat)
    requires num >= base > 0
    ensures num / base > 0
  {
  }

  lemma PowerStep(base: nat, n: nat)
    ensures Power(base, n + 1) == base * Power(base, n) && Power(base, 0) == 1
  {
  }

  lemma Scaled(q: nat, r: nat, base: nat, low: nat, high: nat)
    requires r < base && low <= q < high
    ensures base * low <= q * base + r < base * high
  {
    TimesGrows(base, low, q);
    TimesGrows(base, q + 1, high);
  }

  lemma TimesGrows(c: nat, a: nat, b: nat)
    requires a <= b
    ensures c * a <= c * b
  {
  }

  /** The layout of a padded number: as wide as asked for or as its digits are long, the padding in front. */
  lemma NumeralLayout(num: nat, base: nat, width: int, padc: char)
    requires 2 <= base <= 16
    ensures var s, d := Numeral(num, base, width, padc), |Digits(num, base)|;
      && |s| == (if width > d then width else d)
      && (forall i :: 0 <= i < |s| - d ==> s[i] == padc)
      && (forall i :: |s| - d <= i < |s| ==> s[i] in "0123456789abcdef"[..base])
  {
    hide Digits;
    DigitsAreLowercase(num, base);
  }

  /** The text of each conversion in terms of its digits: minus sign or prefix, padding, digits. */
  lemma TextLayout(conv: Conversion, width: int, padc: char)
    requires conv.Fits()
    ensures var s := conv.Text(width, padc);
      match conv
      case Decimal(v) =>
        var d, from := |Digits(if v < 0 then -v else v, 10)|, if v < 0 then 1 else 0;
        && |s| == from + (if width > d then width else d) && (v < 0 ==> s[0] == '-')
        && (forall i :: from <= i < |s| - d ==> s[i] == padc)
        && (forall i :: |s| - d <= i < |s| ==> '0' <= s[i] <= '9')
      case Unsigned(num, base) =>
        var d := |Digits(num, base)|;
        && |s| == (if width > d then width else d)
        && (forall i :: 0 <= i < |s| - d ==> s[i] == padc)
        && (forall i :: |s| - d <= i < |s| ==> s[i] in "0123456789abcdef"[..base])
      case Pointer(addr) =>
        var d := |Digits(addr, 16)|;
        && |s| == 2 + (if width > d then width else d) && s[..2] == "0x"
        && (forall i :: 2 <= i < |s| - d ==> s[i] == padc)
        && (forall i :: |s| - d <= i < |s| ==> s[i] in "0123456789abcdef")
  {
    hide Numeral, Digits;
    match conv
    case Decimal(v) =>
      NumeralLayout(if v < 0 then -v else v, 10, width, padc);
    case Unsigned(num, base) =>
      NumeralLayout(num, base, width, padc);
    case Pointer(addr) =>
      NumeralLayout(addr, 16, width, padc);
  }

  /** What `%d` prints is read back exactly when no blanks stand between the sign and the digits. */
  lemma SignedRoundTrip(v: int, width: int, padc: char)
    requires Decimal(v).Fits() && (padc == ' ' || padc == '0')
    ensures var s := Decimal(v).Text(width, padc);
      Number(s, 10) == Parsed(v, |s|) <==> !(v < 0 && padc == ' ' && width > |Digits(-v, 10)|)
  {
    hide Digits, ValueOf, Numeral, DigitOf, Number;
    var s := Decimal(v).Text(width, padc);
    if v >= 0 {
      assert s == Numeral(v, 10, width, padc);
      NumeralRoundTrip(v, 10, width, padc);
    } else {
      assert s[1..] == Numeral(-v, 10, width, padc);
      NumeralBehind(s, 1, -v, 10, width, padc);
      NumberIs(s, 10, 0, 1, 10);
    }
  }

  /** What `%p` prints is read back, in base 16 or with the base left open, exactly when no blanks stand
      between the prefix and the digits. */
  lemma PointerRoundTrip(addr: nat, width: int, padc: char, base: int)
    requires Pointer(addr).Fits() && (padc == ' ' || padc == '0') && (base == 0 || base == 16)
    ensures var s := Pointer(addr).Text(width, padc);
      Number(s, base) == Parsed(ToInt64(addr), |s|) <==> !(padc == ' ' && width > |Digits(addr, 16)|)
  {
    hide Digits, ValueOf, Numeral, DigitOf, Number, ToInt64;
    var s := Pointer(addr).Text(width, padc);
    assert s[2..] == Numeral(addr, 16, width, padc);
    assert SkipBlanks(s, 0) == 0;
    NumeralBehind(s, 2, addr, 16, width, padc);
    NumberIs(s, base, 0, 2, 16);
  }

  /** Minus five in a field of width three, padded with blanks, is read back as zero. */
  lemma SignedBlanksAreNotRead()
    ensures Decimal(-5).Text(3, ' ') == "-  5" && Number("-  5", 10) == Parsed(0, 1)
  {
    assert Digits(5, 10) == "5" && Numeral(5, 10, 3, ' ') == "  5";
    hide Digits, Numeral, Number, ValueOf, DigitOf, ToInt64, SkipDigits;
    NumeralBehind("-  5", 1, 5, 10, 3, ' ');
    NumberIs("-  5", 10, 0, 1, 10);
    NoDigits("-  5", 1, 10);
  }

  /** And so is address five. */
  lemma PointerBlanksAreNotRead()
    ensures Pointer(5).Text(3, ' ') == "0x  5" && Number("0x  5", 16) == Parsed(0, 2)
  {
    assert Digits(5, 16) == "5" && Numeral(5, 16, 3, ' ') == "  5";
    hide Digits, Numeral, Number, ValueOf, DigitOf, ToInt64, SkipDigits;
    NumeralBehind("0x  5", 2, 5, 16, 3, ' ');
    NumberIs("0x  5", 16, 0, 2, 16);
    NoDigits("0x  5", 2, 16);
  }
}
