/** Block moves and number parsing of the C library. */
module LibString {
  import Frames

  // ---- memmove ----

  /** Memory m after the n bytes at s are copied to d. */
  function Moved(m: seq<Frames.byte>, d: nat, s: nat, n: nat): (r: seq<Frames.byte>)
    requires d + n <= |m| && s + n <= |m|
    ensures |r| == |m|
    ensures forall j :: 0 <= j < |m| ==> r[j] == if d <= j < d + n then m[s + (j - d)] else m[j]
  {
    m[..d] + m[s..s + n] + m[d + n..]
  }

  /** One load and one store of 1 or 4 bytes. */
  method MoveElement(mem: array<Frames.byte>, d: nat, s: nat, width: nat)
    requires d + width <= mem.Length && s + width <= mem.Length
    modifies mem
    ensures mem[..] == Moved(old(mem[..]), d, s, width)
  {
    forall i | 0 <= i < width {
      mem[d + i] := mem[s + i];
    }
  }

  lemma MovedNothing(m: seq<Frames.byte>, d: nat, s: nat)
    requires d <= |m| && s <= |m|
    ensures Moved(m, d, s, 0) == m
  {
  }

  lemma MovedUp(m: seq<Frames.byte>, d: nat, s: nat, k: nat, width: nat)
    requires d + k + width <= |m| && s + k + width <= |m| && (d <= s || s + k + width <= d)
    ensures Moved(Moved(m, d, s, k), d + k, s + k, width) == Moved(m, d, s, k + width)
  {
    var once, all := Moved(m, d, s, k), Moved(m, d, s, k + width);
    var twice := Moved(once, d + k, s + k, width);
    hide Moved;
    forall j | 0 <= j < |m| ensures twice[j] == all[j] {
      var from := s + (j - d);
      if d + k <= j < d + k + width {
        assert once[from] == m[from];
        assert s + k + (j - (d + k)) == from;
      } else {
        assert twice[j] == once[j];
      }
    }
  }

  lemma MovedDown(m: seq<Frames.byte>, d: nat, s: nat, k: nat, width: nat)
    requires s < d && d + width + k <= |m|
    ensures Moved(Moved(m, d + width, s + width, k), d, s, width) == Moved(m, d, s, k + width)
  {
    var once, all := Moved(m, d + width, s + width, k), Moved(m, d, s, k + width);
    var twice := Moved(once, d, s, width);
    hide Moved;
    forall j | 0 <= j < |m| ensures twice[j] == all[j] {
      if d <= j < d + width {
        assert twice[j] == once[s + (j - d)] == m[s + (j - d)];
      } else if d + width <= j < d + width + k {
        assert once[j] == m[s + width + (j - (d + width))];
      }
    }
  }

  /** `rep movs` with the direction flag clear: n / width elements, upwards. */
  method MovsUp(mem: array<Frames.byte>, d: nat, s: nat, n: nat, width: nat)
    requires (width == 1 || width == 4) && n % width == 0
    requires d + n <= mem.Length && s + n <= mem.Length && (d <= s || s + n <= d)
    modifies mem
    ensures mem[..] == Moved(old(mem[..]), d, s, n)
  {
    hide Moved;
    MovedNothing(mem[..], d, s);
    var edi, esi, ecx := d, s, n / width;
    while ecx > 0
      invariant 0 <= ecx && edi - d == esi - s == n - width * ecx >= 0
      invariant mem[..] == Moved(old(mem[..]), d, s, edi - d)
    {
      assert width * ecx >= width;
      MovedUp(old(mem[..]), d, s, edi - d, width);
      MoveElement(mem, edi, esi, width);
      edi, esi, ecx := edi + width, esi + width, ecx - 1;
    }
  }

  /** `rep movs` with the direction flag set: downwards, from the last element. */
  method MovsDown(mem: array<Frames.byte>, d: nat, s: nat, n: nat, width: nat)
    requires (width == 1 || width == 4) && n % width == 0
    requires d + n <= mem.Length && s + n <= mem.Length && s < d
    modifies mem
    ensures mem[..] == Moved(old(mem[..]), d, s, n)
  {
    hide Moved;
    MovedNothing(mem[..], d + n, s + n);
    var edi: int, esi: int, ecx := d + n - width, s + n - width, n / width;
    while ecx > 0
      invariant 0 <= ecx && edi + width - d == esi + width - s == width * ecx <= n
      invariant mem[..] == Moved(old(mem[..]), edi + width, esi + width, n - width * ecx)
    {
      assert width * ecx >= width;
      MovedDown(old(mem[..]), edi, esi, n - width * ecx, width);
      MoveElement(mem, edi, esi, width);
      edi, esi, ecx := edi - width, esi - width, ecx - 1;
    }
  }

  /** Copies n bytes however the two ranges overlap, and whichever of the four paths is taken. */
  method Memmove(mem: array<Frames.byte>, dst: nat, src: nat, n: nat) returns (r: nat)
    requires dst + n <= mem.Length && src + n <= mem.Length
    modifies mem
    ensures r == dst
    ensures mem[..] == Moved(old(mem[..]), dst, src, n)
  {
    var s, d := src, dst;
    if s < d && s + n > d {
      s, d := s + n, d + n;
      if s % 4 == 0 && d % 4 == 0 && n % 4 == 0 {
        MovsDown(mem, d - n, s - n, n, 4);
      } else {
        MovsDown(mem, d - n, s - n, n, 1);
      }
    } else {
      if s % 4 == 0 && d % 4 == 0 && n % 4 == 0 {
        MovsUp(mem, d, s, n, 4);
      } else {
        MovsUp(mem, d, s, n, 1);
      }
    }
    r := dst;
  }

  // ---- strtol ----

  const INT64_LIMIT: nat := 0x8000_0000_0000_0000

  /** Conversion to the C type `long`. */
  function ToInt64(x: int): (r: int) {
    (x + INT64_LIMIT) % (2 * INT64_LIMIT) - INT64_LIMIT
  }

  /** The character at i of a string that ends with a zero byte. */
  function CharAt(s: string, i: nat): char {
    if i < |s| then s[i] else '\0'
  }

  predicate IsBlank(c: char) { c == ' ' || c == '\t' }

  /** The value of a digit or letter, -1 for any other character. */
  function DigitOf(c: char): int {
    if '0' <= c <= '9' then c as int - '0' as int
    else if 'a' <= c <= 'z' then c as int - 'a' as int + 10
    else if 'A' <= c <= 'Z' then c as int - 'A' as int + 10
    else -1
  }

  predicate IsDigit(c: char, base: int) { 0 <= DigitOf(c) < base }

  /** The number a string of digits denotes. */
  function ValueOf(digits: string, base: int): int {
    if digits == "" then 0 else ValueOf(digits[..|digits| - 1], base) * base + DigitOf(digits[|digits| - 1])
  }

  /** The first position from i on that holds no blank. */
  function SkipBlanks(s: string, i: nat): (r: nat)
    requires i <= |s|
    ensures i <= r <= |s| && !IsBlank(CharAt(s, r)) && forall j :: i <= j < r ==> IsBlank(s[j])
    decreases |s| - i
  {
    if i < |s| && IsBlank(s[i]) then SkipBlanks(s, i + 1) else i
  }

  /** The first position from i on that holds no digit. */
  function SkipDigits(s: string, i: nat, base: int): (r: nat)
    requires i <= |s|
    ensures i <= r <= |s| && !IsDigit(CharAt(s, r), base) && forall j :: i <= j < r ==> IsDigit(s[j], base)
    decreases |s| - i
  {
    if i < |s| && IsDigit(s[i], base) then SkipDigits(s, i + 1, base) else i
  }

  function SignWidth(c: char): nat { if c == '+' || c == '-' then 1 else 0 }

  /** The base a number is read in, and the width of the prefix that says so. */
  function BaseAt(s: string, i: nat, base: int): (r: (int, nat)) {
    if (base == 0 || base == 16) && CharAt(s, i) == '0' && CharAt(s, i + 1) == 'x' then (16, 2)
    else if base == 0 && CharAt(s, i) == '0' then (8, 1)
    else if base == 0 then (10, 0)
    else (base, 0)
  }

  datatype Parsed = Parsed(val: int, end: nat)

  /** The number at the start of a string: blanks, a sign, a base prefix, and as many digits as there are. */
  function Number(s: string, base: int): Parsed {
    var sign := SkipBlanks(s, 0);
    var start := sign + SignWidth(CharAt(s, sign));
    var (b, prefix) := BaseAt(s, start, base);
    var end := SkipDigits(s, start + prefix, b);
    var magnitude := ValueOf(s[start + prefix..end], b);
    Parsed(ToInt64(if CharAt(s, sign) == '-' then -magnitude else magnitude), end)
  }

  /** The blank loop of strtol. */
  method GobbleBlanks(s: string) returns (i: nat)
    ensures i == SkipBlanks(s, 0)
  {
    i := 0;
    while CharAt(s, i) == ' ' || CharAt(s, i) == '\t'
      invariant i <= |s| && SkipBlanks(s, 0) == SkipBlanks(s, i)
      decreases |s| - i
    {
      i := i + 1;
    }
  }

  /** The digit loop of strtol. */
  method ReadDigits(s: string, from: nat, base: int) returns (val: int, i: nat)
    requires from <= |s|
    ensures i == SkipDigits(s, from, base)
    ensures val == ToInt64(ValueOf(s[from..i], base))
  {
    hide ValueOf, ToInt64;
    i, val := from, 0;
    NoDigits(s, from, base);
    while true
      invariant from <= i <= |s| && SkipDigits(s, from, base) == SkipDigits(s, i, base)
      invariant val == ToInt64(ValueOf(s[from..i], base))
      decreases |s| - i
    {
      var c, dig := CharAt(s, i), 0;
      if '0' <= c <= '9' {
        dig := c as int - '0' as int;
      } else if 'a' <= c <= 'z' {
        dig := c as int - 'a' as int + 10;
      } else if 'A' <= c <= 'Z' {
        dig := c as int - 'A' as int + 10;
      } else {
        break;
      }
      if dig >= base {
        break;
      }
      OneMoreDigit(s, from, i, base);
      Wrapped(ValueOf(s[from..i], base), base, dig);
      i, val := i + 1, ToInt64(val * base + dig);
    }
  }

  method Strtol(s: string, base0: int) returns (r: Parsed)
    ensures r == Number(s, base0)
  {
    hide Number, ValueOf, ToInt64, SkipDigits, SkipBlanks, IsDigit;
    var i, neg, val, base := 0, false, 0, base0;
    i := GobbleBlanks(s);
    ghost var sign := i;
    if CharAt(s, i) == '+' {
      i := i + 1;
    } else if CharAt(s, i) == '-' {
      i, neg := i + 1, true;
    }
    ghost var start := i;
    assert start == sign + SignWidth(CharAt(s, sign)) <= |s| && (neg <==> CharAt(s, sign) == '-');
    if (base == 0 || base == 16) && CharAt(s, i) == '0' && CharAt(s, i + 1) == 'x' {
      i, base := i + 2, 16;
    } else if base == 0 && CharAt(s, i) == '0' {
      i, base := i + 1, 8;
    } else if base == 0 {
      base := 10;
    }
    ghost var from := i;
    assert (base, from - start) == BaseAt(s, start, base0) && from <= |s|;
    val, i := ReadDigits(s, i, base);
    NumberIs(s, base0, sign, from, base);
    NegateWrapped(ValueOf(s[from..i], base));
    r := Parsed(if neg then ToInt64(-val) else val, i);
  }

  lemma NumberIs(s: string, base0: int, sign: nat, from: nat, base: int)
    requires sign == SkipBlanks(s, 0) && from <= |s|
    requires var start := sign + SignWidth(CharAt(s, sign));
      BaseAt(s, start, base0) == (base, from - start)
    ensures var end := SkipDigits(s, from, base);
      var magnitude := ValueOf(s[from..end], base);
      Number(s, base0) == Parsed(ToInt64(if CharAt(s, sign) == '-' then -magnitude else magnitude), end)
  {
    hide ValueOf, ToInt64, IsDigit, CharAt, SignWidth, BaseAt;
  }

  lemma NegateWrapped(a: int)
    ensures ToInt64(-ToInt64(a)) == ToInt64(-a)
  {
    Wrapped(a, -1, 0);
  }

  lemma NoDigits(s: string, i: nat, base: int)
    requires i <= |s|
    ensures ToInt64(ValueOf(s[i..i], base)) == 0
  {
  }

  lemma OneMoreDigit(s: string, from: nat, i: nat, base: int)
    requires from <= i < |s|
    ensures ValueOf(s[from..i + 1], base) == ValueOf(s[from..i], base) * base + DigitOf(s[i])
  {
    assert s[from..i + 1][..i - from] == s[from..i];
  }

  lemma SameModulo(a: int, b: int, q: int)
    requires a == b + q * (2 * INT64_LIMIT)
    ensures ToInt64(a) == ToInt64(b)
  {
    var m := 2 * INT64_LIMIT;
    var x, y := a + INT64_LIMIT, b + INT64_LIMIT;
    assert x % m == y % m by {
      var k := x / m - y / m - q;
      assert x % m - y % m == -k * m;
    }
  }

  /** Reducing an intermediate result to 64 bits does not change the final one. */
  lemma Wrapped(a: int, b: int, c: int)
    ensures ToInt64(ToInt64(a) * b + c) == ToInt64(a * b + c)
  {
    var m := 2 * INT64_LIMIT;
    var q := (a + INT64_LIMIT) / m;
    assert ToInt64(a) == a - q * m;
    assert ToInt64(a) * b + c == a * b + c + (-q * b) * m;
    SameModulo(ToInt64(a) * b + c, a * b + c, -q * b);
  }

  // ---- What strtol reads ----

  const LOWER: string := "0123456789abcdefghijklmnopqrstuvwxyz"
  const UPPER: string := "0123456789ABCDEFGHIJKLMNOPQRSTUVWXYZ"

  /** Character c stands for digit d. */
  predicate Spells(c: char, d: nat) {
    d < 36 && (c == LOWER[d] || c == UPPER[d])
  }

  lemma Alphabet(d: nat)
    requires d < 36
    ensures LOWER[d] as int == if d < 10 then '0' as int + d else 'a' as int + d - 10
    ensures UPPER[d] as int == if d < 10 then '0' as int + d else 'A' as int + d - 10
  {
  }

  lemma DigitIsSpelled(c: char, d: nat)
    ensures DigitOf(c) == d <==> Spells(c, d)
  {
    if d < 36 {
      Alphabet(d);
    }
  }

  /** The number that digits denote. */
  function Horner(ds: seq<nat>, base: nat): nat {
    if ds == [] then 0 else Horner(ds[..|ds| - 1], base) * base + ds[|ds| - 1]
  }

  lemma {:induction false} SpelledValue(digits: string, ds: seq<nat>, base: nat)
    requires |digits| == |ds| && forall i :: 0 <= i < |ds| ==> Spells(digits[i], ds[i])
    ensures ValueOf(digits, base) == Horner(ds, base)
  {
    if digits != "" {
      var n := |ds| - 1;
      SpelledValue(digits[..n], ds[..n], base);
      DigitIsSpelled(digits[n], ds[n]);
    }
  }

  lemma NotSpelled(c: char, base: nat)
    requires base <= 36 && forall d: nat :: d < base ==> !Spells(c, d)
    ensures !IsDigit(c, base)
  {
    if IsDigit(c, base) {
      DigitIsSpelled(c, DigitOf(c));
    }
  }

  /** The prefix that goes with the base a caller asks for, and the base the digits are then read in. */
  predicate PrefixFits(prefix: string, base0: int, base: nat, digits: string, rest: string)
    requires digits != ""
  {
    || (prefix == "" && base0 == base >= 2 && (base == 16 ==> digits != "0" || rest == "" || rest[0] != 'x'))
    || (prefix == "0x" && base == 16 && (base0 == 0 || base0 == 16))
    || (prefix == "0" && base == 8 && base0 == 0)
    || (prefix == "" && base == 10 && base0 == 0 && digits[0] != '0')
  }

  /** Blanks up to a, a sign up to b, a prefix up to c, and digits of either case up to d, where no digit of the base
      follows: the value is that of the digits, negated after a minus sign and reduced to the type `long`, and the end
      is d. */
  lemma NumberReads(s: string, a: nat, b: nat, c: nat, d: nat, ds: seq<nat>, base0: int, base: nat)
    requires a <= b <= c < d <= |s| && |ds| == d - c && base <= 36
    requires forall i :: 0 <= i < a ==> s[i] == ' ' || s[i] == '\t'
    requires s[a..b] == "" || s[a..b] == "+" || s[a..b] == "-"
    requires forall i :: 0 <= i < |ds| ==> ds[i] < base && Spells(s[c..d][i], ds[i])
    requires d < |s| ==> forall k: nat :: k < base ==> !Spells(s[d], k)
    requires PrefixFits(s[b..c], base0, base, s[c..d], s[d..])
    ensures var v: int := Horner(ds, base); Number(s, base0) == Parsed(ToInt64(if s[a..b] == "-" then -v else v), d)
  {
    hide ToInt64, ValueOf, Number, Horner, Spells, DigitOf, PrefixFits, BaseAt, IsDigit, IsBlank, SignWidth, CharAt;
    PrefixStarts(s[b..c], base0, base, s[c..d], s[d..]);
    SmallDigits(s, c, d, ds, base);
    SignIs(s, a, b, c);
    DigitsEnd(s, d, base);
    ReadsFrom(s, a, b, c, d, base0, base);
    SpelledValue(s[c..d], ds, base);
  }

  /** The same, once the sign and the digits have been recognized. */
  lemma ReadsFrom(s: string, a: nat, b: nat, c: nat, d: nat, base0: int, base: nat)
    requires a <= b <= c < d <= |s| && b == a + SignWidth(CharAt(s, a))
    requires !IsBlank(CharAt(s, a)) && forall j :: 0 <= j < a ==> IsBlank(s[j])
    requires !IsDigit(CharAt(s, d), base) && forall j :: c <= j < d ==> IsDigit(s[j], base)
    requires base <= 16 ==> s[c] != 'x' && (c + 1 < d ==> s[c + 1] != 'x')
    requires PrefixFits(s[b..c], base0, base, s[c..d], s[d..])
    ensures var v := ValueOf(s[c..d], base);
      Number(s, base0) == Parsed(ToInt64(if CharAt(s, a) == '-' then -v else v), d)
  {
    hide ToInt64, ValueOf, Number, DigitOf, IsDigit, SignWidth, IsBlank;
    BaseIs(s, b, c, d, base0, base);
    SkipIs(s, a, c, d, base);
    NumberIs(s, base0, a, c, base);
  }

  lemma SignIs(s: string, a: nat, b: nat, c: nat)
    requires a <= b <= c < |s| && forall i :: 0 <= i < a ==> s[i] == ' ' || s[i] == '\t'
    requires (s[a..b] == "" || s[a..b] == "+" || s[a..b] == "-") && (s[b..c] == "" || s[b..c][0] == '0')
    requires !IsBlank(s[c]) && s[c] != '+' && s[c] != '-'
    ensures !IsBlank(CharAt(s, a)) && forall j :: 0 <= j < a ==> IsBlank(s[j])
    ensures b == a + SignWidth(CharAt(s, a)) && (CharAt(s, a) == '-' <==> s[a..b] == "-")
  {
    assert CharAt(s, a) == if b > a then s[a..b][0] else if c > b then s[b..c][0] else s[c];
  }

  lemma PrefixStarts(prefix: string, base0: int, base: nat, digits: string, rest: string)
    requires digits != "" && PrefixFits(prefix, base0, base, digits, rest)
    ensures prefix == "" || prefix[0] == '0'
  {
  }

  lemma BaseIs(s: string, b: nat, c: nat, d: nat, base0: int, base: nat)
    requires b <= c < d <= |s| && PrefixFits(s[b..c], base0, base, s[c..d], s[d..])
    requires base <= 16 ==> s[c] != 'x' && (c + 1 < d ==> s[c + 1] != 'x')
    ensures BaseAt(s, b, base0) == (base, c - b)
  {
    var prefix, digits := s[b..c], s[c..d];
    assert prefix != "" ==> s[b] == prefix[0];
    assert |prefix| == 2 ==> s[b + 1] == prefix[1];
    assert digits[0] == s[c];
    assert d == c + 1 && s[c] == '0' ==> digits == "0";
    assert d < |s| ==> s[d..][0] == s[d];
  }

  lemma SmallDigits(s: string, c: nat, d: nat, ds: seq<nat>, base: nat)
    requires c < d <= |s| && |ds| == d - c
    requires forall i :: 0 <= i < |ds| ==> ds[i] < base && Spells(s[c..d][i], ds[i])
    ensures forall j :: c <= j < d ==> IsDigit(s[j], base)
    ensures base <= 16 ==> s[c] != 'x' && (c + 1 < d ==> s[c + 1] != 'x')
    ensures !IsBlank(s[c]) && s[c] != '+' && s[c] != '-'
  {
    hide Spells, DigitOf;
    forall j | c <= j < d ensures Spells(s[j], ds[j - c]) && ds[j - c] < base {
      assert s[c..d][j - c] == s[j];
    }
    forall j | c <= j < d ensures IsDigit(s[j], base) {
      DigitIsSpelled(s[j], ds[j - c]);
    }
    FirstDigit(s[c], ds[0]);
    SmallDigit(s[c], ds[0], base);
    if c + 1 < d {
      SmallDigit(s[c + 1], ds[1], base);
    }
  }

  lemma DigitsEnd(s: string, d: nat, base: nat)
    requires d <= |s| && base <= 36 && (d < |s| ==> forall k: nat :: k < base ==> !Spells(s[d], k))
    ensures !IsDigit(CharAt(s, d), base)
  {
    hide Spells;
    if d < |s| {
      NotSpelled(s[d], base);
    }
  }

  lemma SkipIs(s: string, sign: nat, from: nat, end: nat, base: int)
    requires sign <= |s| && from <= end <= |s|
    requires !IsBlank(CharAt(s, sign)) && forall j :: 0 <= j < sign ==> IsBlank(s[j])
    requires !IsDigit(CharAt(s, end), base) && forall j :: from <= j < end ==> IsDigit(s[j], base)
    ensures SkipBlanks(s, 0) == sign && SkipDigits(s, from, base) == end
  {
    hide IsDigit, IsBlank;
  }

  lemma FirstDigit(c: char, d: nat)
    requires Spells(c, d)
    ensures !IsBlank(c) && c != '+' && c != '-' && (c == '0' <==> d == 0)
  {
    Alphabet(d);
  }

  lemma SmallDigit(c: char, d: nat, base: nat)
    requires Spells(c, d) && d < base
    ensures base <= 16 ==> c != 'x'
  {
    Alphabet(d);
  }
}
