/**
 IPv4 text of `system/platform/arm-cortex/common/osal/qosa_utils.c`: `osal_ip4addr_aton` and
 `ipaddr_ntoa_r`.

 A C string is the sequence of its characters without the terminator. An address is its four
 octets in the order they lie in memory (network order), or the 32-bit number they spell.
 */
module Ipv4 {
  import opened Bytes
  import opened CStrings
  import opened Wrappers

  /** Reading a C string through a pointer. */
  function At(s: string, i: nat): char {
    if i < |s| then s[i] else NUL
  }

  predicate IsDigit(c: char) { '0' <= c <= '9' }

  predicate IsHexLetter(c: char) { 'a' <= c <= 'f' || 'A' <= c <= 'F' }

  function DigitValue(c: char): (v: nat)
    requires IsDigit(c)
    ensures v < 10
  {
    c as nat - '0' as nat
  }

  function HexValue(c: char): (v: nat)
    requires IsHexLetter(c)
    ensures 10 <= v < 16
  {
    c as nat + 10 - (if 'a' <= c then 'a' else 'A') as nat
  }

  type Octets = o: seq<byte> | |o| == 4 witness [0, 0, 0, 0]

  /** The number four octets spell in network order. */
  function Value(o: Octets): (v: nat)
    ensures v < U32
  {
    o[0] as nat * 0x100_0000 + o[1] as nat * 0x1_0000 + o[2] as nat * 0x100 + o[3] as nat
  }

  /** The octets of a 32-bit number in network order: what `htonl` puts in memory. */
  function NetworkOrder(v: nat): Octets
    requires v < U32
  {
    [v / 256 / 256 / 256, v / 256 / 256 % 256, v / 256 % 256, v % 256]
  }

  lemma NetworkOrderRoundTrip(v: nat)
    requires v < U32
    ensures Value(NetworkOrder(v)) == v
  {
    var a := v / 256;
    var b := a / 256;
    assert v == a * 256 + v % 256 && a == b * 256 + a % 256 && b == b / 256 * 256 + b % 256;
  }

  // ----- What osal_ip4addr_aton computes -----

  /** `(val << 4) | digit` in 32 bits; the two have no bit in common. */
  function ShiftIn(val: nat, digit: nat): (r: nat)
    requires digit < 16
    ensures r < U32
  {
    val % 0x1000_0000 * 16 + digit
  }

  /** The digits from `i` on in a base, on top of `val`, in 32 bits; and where they end. */
  function ReadDigits(s: string, i: nat, base: nat, val: nat): (r: (nat, nat))
    requires val < U32
    ensures r.0 < U32
    decreases |s| - i
  {
    var c := At(s, i);
    if IsDigit(c) && i < |s| then ReadDigits(s, i + 1, base, (val * base + DigitValue(c)) % U32)
    else if base == 16 && IsHexLetter(c) && i < |s| then
      ReadDigits(s, i + 1, base, ShiftIn(val, HexValue(c)))
    else (val, i)
  }

  /** The base a number is written in and where its digits start, as in C. */
  function ReadPrefix(s: string, i: nat): (nat, nat) {
    if At(s, i) != '0' then (10, i)
    else if At(s, i + 1) == 'x' || At(s, i + 1) == 'X' then (16, i + 2)
    else (8, i + 1)
  }

  function ReadNumber(s: string, i: nat): (r: (nat, nat))
    ensures r.0 < U32
  {
    var (base, start) := ReadPrefix(s, i);
    ReadDigits(s, start, base, 0)
  }

  /** The dotted numbers from `i` on behind those already in `acc`; and where they end. */
  function ReadParts(s: string, i: nat, acc: seq<nat>): Option<(seq<nat>, nat)>
    requires |acc| <= 3
    decreases 4 - |acc|
  {
    if !IsDigit(At(s, i)) then None
    else
      var (val, j) := ReadNumber(s, i);
      if At(s, j) != '.' then Some((acc + [val], j))
      else if |acc| >= 3 then None
      else ReadParts(s, j + 1, acc + [val])
  }

  /** a, a.b, a.b.c or a.b.c.d: the last number fills the octets the others leave. */
  function Combine(p: seq<nat>): Option<nat>
    requires 1 <= |p| <= 4
  {
    match |p|
    case 1 => Some(p[0])
    case 2 =>
      if p[1] > 0xFF_FFFF || p[0] > 0xFF then None
      else Some(p[0] * 0x100_0000 + p[1])
    case 3 =>
      if p[2] > 0xFFFF || p[0] > 0xFF || p[1] > 0xFF then None
      else Some(p[0] * 0x100_0000 + p[1] * 0x1_0000 + p[2])
    case _ =>
      if p[3] > 0xFF || p[0] > 0xFF || p[1] > 0xFF || p[2] > 0xFF then None
      else Some(p[0] * 0x100_0000 + p[1] * 0x1_0000 + p[2] * 0x100 + p[3])
  }

  predicate EndsText(c: char) {
    c == NUL || IsSpace(c)
  }

  lemma PartsCount(s: string, i: nat, acc: seq<nat>)
    requires |acc| <= 3
    ensures ReadParts(s, i, acc).Some? ==> 1 <= |ReadParts(s, i, acc).value.0| <= 4
    decreases 4 - |acc|
  {
    hide ReadNumber, IsDigit;
    if IsDigit(At(s, i)) && At(s, ReadNumber(s, i).1) == '.' && |acc| < 3 {
      PartsCount(s, ReadNumber(s, i).1 + 1, acc + [ReadNumber(s, i).0]);
    }
  }

  /** The number a text spells, if the code accepts it. */
  function AtonValue(s: string): Option<nat> {
    PartsCount(s, 0, []);
    match ReadParts(s, 0, [])
    case None => None
    case Some((parts, j)) => if EndsText(At(s, j)) then Combine(parts) else None
  }

  /** osal_ip4addr_aton */
  method Aton(cp: string) returns (ok: bool, addr: Octets)
    ensures ok <==> AtonValue(cp).Some?
    ensures ok ==> AtonValue(cp) == Some(Value(addr))
  {
    hide ReadPrefix, IsDigit, IsHexLetter, IsSpace, Value, NetworkOrder;
    addr := [0, 0, 0, 0];
    var parts := new nat[4];
    var pp: nat := 0;
    var val: nat := 0;
    var p: nat := 0;
    PartsCount(cp, 0, []);
    assert parts[..0] == [];
    while true
      invariant pp <= 3
      invariant ReadParts(cp, p, parts[..pp]) == ReadParts(cp, 0, [])
      decreases 3 - pp
    {
      if !IsDigit(At(cp, p)) {
        return false, addr;
      }
      ghost var start := p;
      val, p := ScanNumber(cp, p);
      assert parts[..pp] + [val] == (parts[..pp] + [val])[..];
      if At(cp, p) == '.' {
        if pp >= 3 {
          return false, addr;
        }
        parts[pp] := val;
        assert parts[..pp + 1] == parts[..pp] + [val];
        pp := pp + 1;
        p := p + 1;
      } else {
        break;
      }
    }
    var c := At(cp, p);
    if c != NUL && !IsSpace(c) {
      return false, addr;
    }
    ghost var all := parts[..pp] + [val];
    assert ReadParts(cp, 0, []) == Some((all, p));
    match pp + 1 {
      case 1 =>
      case 2 =>
        if val > 0xFF_FFFF { return false, addr; }
        if parts[0] > 0xFF { return false, addr; }
        val := val + parts[0] * 0x100_0000;
      case 3 =>
        if val > 0xFFFF { return false, addr; }
        if parts[0] > 0xFF || parts[1] > 0xFF { return false, addr; }
        val := val + parts[0] * 0x100_0000 + parts[1] * 0x1_0000;
      case _ =>
        if val > 0xFF { return false, addr; }
        if parts[0] > 0xFF || parts[1] > 0xFF || parts[2] > 0xFF { return false, addr; }
        val := val + parts[0] * 0x100_0000 + parts[1] * 0x1_0000 + parts[2] * 0x100;
    }
    NetworkOrderRoundTrip(val);
    return true, NetworkOrder(val);
  }

  /** The part of osal_ip4addr_aton that collects one number. */
  method ScanNumber(cp: string, i: nat) returns (val: nat, p: nat)
    requires IsDigit(At(cp, i))
    ensures (val, p) == ReadNumber(cp, i)
  {
    val := 0;
    var base: nat := 10;
    p := i;
    if At(cp, p) == '0' {
      p := p + 1;
      if At(cp, p) == 'x' || At(cp, p) == 'X' {
        base := 16;
        p := p + 1;
      } else {
        base := 8;
      }
    }
    while true
      invariant val < U32 && ReadDigits(cp, p, base, val) == ReadNumber(cp, i)
      decreases |cp| - p
    {
      var c := At(cp, p);
      if IsDigit(c) {
        val := (val * base + DigitValue(c)) % U32;
        p := p + 1;
      } else if base == 16 && IsHexLetter(c) {
        val := ShiftIn(val, HexValue(c));
        p := p + 1;
      } else {
        break;
      }
    }
  }

  // ----- Numbers as text -----

  const DIGITS: string := "0123456789abcdef"
  const UPPER_DIGITS: string := "0123456789ABCDEF"

  function DigitIn(d: nat, upper: bool): char
    requires d < 16
  {
    if upper then UPPER_DIGITS[d] else DIGITS[d]
  }

  /** What the reader takes the digits for. */
  lemma DigitsRead(d: nat, upper: bool)
    requires d < 16
    ensures var c := DigitIn(d, upper);
      if d < 10 then IsDigit(c) && DigitValue(c) == d else IsHexLetter(c) && !IsDigit(c) && HexValue(c) == d
  {
    assert DIGITS[0] == '0' && DIGITS[1] == '1' && DIGITS[2] == '2' && DIGITS[3] == '3';
    assert DIGITS[4] == '4' && DIGITS[5] == '5' && DIGITS[6] == '6' && DIGITS[7] == '7';
    assert DIGITS[8] == '8' && DIGITS[9] == '9' && DIGITS[10] == 'a' && DIGITS[11] == 'b';
    assert DIGITS[12] == 'c' && DIGITS[13] == 'd' && DIGITS[14] == 'e' && DIGITS[15] == 'f';
    assert UPPER_DIGITS[..10] == DIGITS[..10];
    assert forall k :: 0 <= k < 10 ==> UPPER_DIGITS[..10][k] == DIGITS[..10][k];
    assert UPPER_DIGITS[10] == 'A' && UPPER_DIGITS[11] == 'B' && UPPER_DIGITS[12] == 'C';
    assert UPPER_DIGITS[13] == 'D' && UPPER_DIGITS[14] == 'E' && UPPER_DIGITS[15] == 'F';
  }

  /** The digits of `n` in a base, most significant first. */
  function TextIn(n: nat, base: nat, upper: bool): (t: string)
    requires base == 8 || base == 10 || base == 16
    ensures t != []
  {
    if n < base then [DigitIn(n, upper)] else TextIn(n / base, base, upper) + [DigitIn(n % base, upper)]
  }

  function Decimal(n: nat): (t: string)
    ensures t != []
  {
    TextIn(n, 10, false)
  }

  /** How a number can be written in C: decimal, octal or hexadecimal. */
  datatype Base = Dec | Oct | Hex(upperX: bool, upper: bool)

  datatype Numeral = Numeral(value: nat, base: Base)

  function Written(m: Numeral): (t: string)
    ensures t != []
  {
    match m.base
    case Dec => Decimal(m.value)
    case Oct => "0" + TextIn(m.value, 8, false)
    case Hex(upperX, upper) => (if upperX then "0X" else "0x") + TextIn(m.value, 16, upper)
  }

  /** Numbers with dots between them. */
  function Dotted(parts: seq<Numeral>): string
    requires parts != []
  {
    if |parts| == 1 then Written(parts[0]) else Written(parts[0]) + "." + Dotted(parts[1..])
  }

  lemma {:induction false} NoLeadingZero(n: nat)
    requires n > 0
    ensures TextIn(n, 10, false)[0] != '0' && IsDigit(TextIn(n, 10, false)[0])
  {
    if n < 10 {
      DigitsRead(n, false);
    } else {
      NoLeadingZero(n / 10);
    }
  }

  /** An octal number starts with a digit, so its prefix is no hexadecimal one. */
  lemma {:induction false} OctalFirst(n: nat)
    ensures IsDigit(TextIn(n, 8, false)[0])
  {
    if n < 8 {
      DigitsRead(n, false);
    } else {
      OctalFirst(n / 8);
    }
  }

  /** `t` stands in `s` at `i`. */
  ghost predicate Stands(s: string, i: nat, t: string) {
    i + |t| <= |s| && s[i..i + |t|] == t
  }

  lemma ReadOne(s: string, i: nat, base: nat, val: nat, d: nat, upper: bool)
    requires base == 8 || base == 10 || base == 16
    requires i < |s| && d < base && s[i] == DigitIn(d, upper) && val < U32
    ensures ReadDigits(s, i, base, val) == ReadDigits(s, i + 1, base, (val * base + d) % U32)
  {
    DigitsRead(d, upper);
    if d >= 10 {
      ShiftsIn(val, d);
    }
    hide DigitIn;
  }

  lemma ShiftsIn(val: nat, d: nat)
    requires d < 16
    ensures ShiftIn(val, d) == (val * 16 + d) % U32
  {
    var q, r := val / 0x1000_0000, val % 0x1000_0000;
    assert val == q * 0x1000_0000 + r;
    ModuloPlus(r * 16 + d, q);
  }

  lemma TextStep(n: nat, base: nat, upper: bool)
    requires base == 8 || base == 10 || base == 16
    ensures n < base ==> TextIn(n, base, upper) == [DigitIn(n, upper)]
    ensures n >= base ==>
      TextIn(n, base, upper) == TextIn(n / base, base, upper) + [DigitIn(n % base, upper)]
  {
  }

  /** Reading over the digits of `n` leaves `n`, in 32 bits. */
  lemma {:induction false} ReadOver(s: string, i: nat, n: nat, base: nat, upper: bool)
    requires base == 8 || base == 10 || base == 16
    requires Stands(s, i, TextIn(n, base, upper))
    ensures ReadDigits(s, i, base, 0) == ReadDigits(s, i + |TextIn(n, base, upper)|, base, n % U32)
    decreases n
  {
    hide ReadDigits, TextIn, DigitIn;
    TextStep(n, base, upper);
    var t := TextIn(n, base, upper);
    var last := i + |t| - 1;
    assert s[last] == t[|t| - 1];
    if n < base {
      ReadOne(s, i, base, 0, n, upper);
    } else {
      var m, d := n / base, n % base;
      var front := TextIn(m, base, upper);
      assert s[i..i + |front|] == s[i..i + |t|][..|front|];
      assert t[..|front|] == front;
      ReadOver(s, i, m, base, upper);
      ReadOne(s, last, base, m % U32, d, upper);
      OneMoreDigit(n, base);
    }
  }

  lemma OneMoreDigit(n: nat, base: nat)
    requires base == 8 || base == 10 || base == 16
    ensures (n / base % U32 * base + n % base) % U32 == n % U32
  {
    var m, d := n / base, n % base;
    assert n == m * base + d;
    var q, r := m / U32, m % U32;
    assert m == q * U32 + r;
    Distribute(q, r, base, d);
    ModuloPlus(r * base + d, q * base);
  }

  lemma Distribute(q: nat, r: nat, base: nat, d: nat)
    ensures (q * U32 + r) * base + d == r * base + d + q * base * U32
  {
  }

  lemma ModuloPlus(x: nat, k: nat)
    ensures (x + k * U32) % U32 == x % U32
  {
    assert x + k * U32 == (x / U32 + k) * U32 + x % U32;
  }

  /** What may follow a number without becoming part of it. */
  predicate Separates(base: Base, c: char) {
    !IsDigit(c) && c != 'x' && c != 'X' && (base.Hex? ==> !IsHexLetter(c))
  }

  lemma DotSeparates(base: Base)
    ensures Separates(base, '.')
  {
  }

  /** A number is read as itself in each base: only zero starts with 0 in decimal, and 0 is 0 in octal. */
  lemma ReadNumeral(s: string, i: nat, m: Numeral)
    requires Stands(s, i, Written(m)) && Separates(m.base, At(s, i + |Written(m)|))
    ensures IsDigit(At(s, i))
    ensures ReadNumber(s, i) == (m.value % U32, i + |Written(m)|)
  {
    hide TextIn, ReadNumber, Stands, Separates, IsDigit, At;
    match m.base {
      case Dec => ReadDecimal(s, i, m.value);
      case Oct => ReadOctal(s, i, m.value);
      case Hex(upperX, upper) => ReadHex(s, i, m.value, upperX, upper);
    }
  }

  lemma ReadDecimal(s: string, i: nat, n: nat)
    requires Stands(s, i, TextIn(n, 10, false)) && Separates(Dec, At(s, i + |TextIn(n, 10, false)|))
    ensures IsDigit(At(s, i)) && ReadNumber(s, i) == (n % U32, i + |TextIn(n, 10, false)|)
  {
    assert At(s, i) == TextIn(n, 10, false)[0];
    TextStep(n, 10, false);
    DigitsRead(0, false);
    hide TextIn, DigitIn;
    if n > 0 {
      NoLeadingZero(n);
      ReadOver(s, i, n, 10, false);
    }
  }

  lemma ReadOctal(s: string, i: nat, n: nat)
    requires Stands(s, i, "0" + TextIn(n, 8, false))
    requires Separates(Oct, At(s, i + 1 + |TextIn(n, 8, false)|))
    ensures IsDigit(At(s, i)) && ReadNumber(s, i) == (n % U32, i + 1 + |TextIn(n, 8, false)|)
  {
    hide TextIn;
    var t := TextIn(n, 8, false);
    OctalFirst(n);
    assert s[i..i + 1 + |t|][0] == '0' && s[i..i + 1 + |t|][1..] == t;
    assert s[i + 1..i + 1 + |t|] == t;
    ReadOver(s, i + 1, n, 8, false);
  }

  lemma ReadHex(s: string, i: nat, n: nat, upperX: bool, upper: bool)
    requires Stands(s, i, (if upperX then "0X" else "0x") + TextIn(n, 16, upper))
    requires Separates(Hex(upperX, upper), At(s, i + 2 + |TextIn(n, 16, upper)|))
    ensures IsDigit(At(s, i)) && ReadNumber(s, i) == (n % U32, i + 2 + |TextIn(n, 16, upper)|)
  {
    hide TextIn;
    var t := TextIn(n, 16, upper);
    assert s[i..i + 2 + |t|][..2] == (if upperX then "0X" else "0x") && s[i..i + 2 + |t|][2..] == t;
    assert s[i + 2..i + 2 + |t|] == t;
    ReadOver(s, i + 2, n, 16, upper);
  }

  /** The numbers' values, each modulo 2^32. */
  function Reduced(parts: seq<Numeral>): (r: seq<nat>)
    ensures |r| == |parts|
  {
    seq(|parts|, i requires 0 <= i < |parts| => parts[i].value % U32)
  }

  /** Up to four dotted numbers are read back in order; a fifth is refused. */
  lemma {:induction false} ReadDotted(s: string, i: nat, acc: seq<nat>, parts: seq<Numeral>)
    requires parts != [] && |acc| <= 3 && Stands(s, i, Dotted(parts))
    requires Separates(parts[|parts| - 1].base, At(s, i + |Dotted(parts)|))
    requires At(s, i + |Dotted(parts)|) != '.'
    ensures var end: nat := i + |Dotted(parts)|;
      ReadParts(s, i, acc) ==
      if |acc| + |parts| <= 4 then Some((acc + Reduced(parts), end)) else None
    decreases |parts|
  {
    hide ReadNumber, Written, IsDigit;
    var first := Written(parts[0]);
    var j := i + |first|;
    if |parts| == 1 {
      ReadNumeral(s, i, parts[0]);
      assert Reduced(parts) == [parts[0].value % U32];
    } else {
      var rest := Dotted(parts[1..]);
      var t := Dotted(parts);
      assert t == first + "." + rest;
      assert s[i..j] == t[..|first|] == first;
      assert s[j] == t[|first|] == '.';
      assert s[j + 1..j + 1 + |rest|] == t[|first| + 1..] == rest;
      assert Separates(parts[0].base, '.') by {
        DotSeparates(parts[0].base);
      }
      ReadNumeral(s, i, parts[0]);
      if |acc| < 3 {
        ReadDotted(s, j + 1, acc + [parts[0].value % U32], parts[1..]);
        assert acc + [parts[0].value % U32] + Reduced(parts[1..]) == acc + Reduced(parts);
      }
    }
  }

  /**
   What osal_ip4addr_aton makes of any dotted text of decimal, octal and hexadecimal numbers:
   their values modulo 2^32, combined, if there are at most four of them and white space or
   nothing follows.
   */
  lemma AtonOfDotted(parts: seq<Numeral>, tail: string)
    requires parts != []
    requires tail == [] || (Separates(parts[|parts| - 1].base, tail[0]) && tail[0] != '.')
    ensures AtonValue(Dotted(parts) + tail) ==
      if |parts| <= 4 && (tail == [] || tail[0] == '\0' || tail[0] in WHITE) then Combine(Reduced(parts))
      else None
  {
    hide AtonValue, Dotted, Combine, Reduced, Separates, IsSpace;
    if tail != [] {
      SpaceIff(tail[0]);
    }
    ReadText(parts, tail);
  }

  lemma ReadText(parts: seq<Numeral>, tail: string)
    requires parts != []
    requires tail == [] || (Separates(parts[|parts| - 1].base, tail[0]) && tail[0] != '.')
    ensures AtonValue(Dotted(parts) + tail) ==
      if |parts| <= 4 && EndsText(At(tail, 0)) then Combine(Reduced(parts)) else None
  {
    hide Dotted, ReadParts, Combine, Reduced, Separates, EndsText, At;
    var t := Dotted(parts);
    var s := t + tail;
    StandsInFront(t, tail, parts[|parts| - 1].base);
    ReadDotted(s, 0, [], parts);
    assert [] + Reduced(parts) == Reduced(parts);
  }

  lemma StandsInFront(t: string, tail: string, base: Base)
    ensures Stands(t + tail, 0, t) && At(t + tail, |t|) == At(tail, 0)
    ensures tail != [] ==> At(tail, 0) == tail[0]
    ensures tail == [] ==> At(tail, 0) == NUL && Separates(base, NUL) && NUL != '.'
  {
  }

  // ----- What is refused -----

  predicate InNumber(c: char) {
    '0' <= c <= '9' || 'a' <= c <= 'f' || 'A' <= c <= 'F' || c == 'x' || c == 'X'
  }

  /** From `i` to `j` there are numbers and dots, and a digit behind each dot. */
  ghost predicate Shaped(s: string, i: nat, j: nat) {
    i <= j <= |s| && forall k :: i <= k < j ==> ShapedAt(s, k, j)
  }

  predicate ShapedAt(s: string, k: nat, j: nat)
    requires k < j <= |s|
  {
    InNumber(s[k]) || (s[k] == '.' && k + 1 < j && '0' <= s[k + 1] <= '9')
  }

  lemma {:induction false} DigitsShaped(s: string, i: nat, base: nat, val: nat)
    requires val < U32 && i <= |s|
    ensures Shaped(s, i, ReadDigits(s, i, base, val).1)
    decreases |s| - i
  {
    var c := At(s, i);
    if IsDigit(c) && i < |s| {
      DigitsShaped(s, i + 1, base, (val * base + DigitValue(c)) % U32);
    } else if base == 16 && IsHexLetter(c) && i < |s| {
      DigitsShaped(s, i + 1, base, ShiftIn(val, HexValue(c)));
    } else {
      assert ReadDigits(s, i, base, val).1 == i;
    }
  }

  lemma ShapedOn(s: string, i: nat, j: nat, end: nat)
    requires Shaped(s, i, j) && j < |s| && s[j] == '.' && Shaped(s, j + 1, end)
    requires j + 1 < end && IsDigit(s[j + 1])
    ensures Shaped(s, i, end)
  {
    forall k | i <= k < end
      ensures ShapedAt(s, k, end)
    {
      if k < j {
        assert ShapedAt(s, k, j);
      }
    }
  }

  lemma NumberShaped(s: string, i: nat)
    requires IsDigit(At(s, i))
    ensures Shaped(s, i, ReadNumber(s, i).1) && i < ReadNumber(s, i).1
  {
    var (base, start) := ReadPrefix(s, i);
    DigitsShaped(s, start, base, 0);
    if At(s, i) != '0' {
      DigitsShaped(s, i + 1, base, DigitValue(s[i]));
    }
  }

  lemma {:induction false} PartsShaped(s: string, i: nat, acc: seq<nat>)
    requires |acc| <= 3 && ReadParts(s, i, acc).Some?
    ensures IsDigit(At(s, i)) && Shaped(s, i, ReadParts(s, i, acc).value.1)
    ensures i < ReadParts(s, i, acc).value.1
    decreases 4 - |acc|
  {
    NumberShaped(s, i);
    var j := ReadNumber(s, i).1;
    hide ReadNumber;
    if At(s, j) != '.' {
      assert ReadParts(s, i, acc).value.1 == j;
    } else {
      var end := ReadParts(s, i, acc).value.1;
      PartsShaped(s, j + 1, acc + [ReadNumber(s, i).0]);
      ShapedOn(s, i, j, end);
    }
  }

  /**
   Whatever is accepted starts with a digit, consists of numbers with single dots between them,
   each followed by a digit, and then ends or goes on with white space.
   */
  lemma AcceptedIsShaped(s: string)
    requires AtonValue(s).Some?
    ensures s != [] && '0' <= s[0] <= '9'
    ensures exists end: nat :: Shaped(s, 0, end) && (end == |s| || s[end] == '\0' || s[end] in WHITE)
  {
    PartsCount(s, 0, []);
    PartsShaped(s, 0, []);
    var end := ReadParts(s, 0, []).value.1;
    hide ReadParts;
    assert Shaped(s, 0, end) && EndsText(At(s, end));
    if end < |s| {
      SpaceIff(s[end]);
    }
  }

  // ----- Addresses -----

  /** The numbers of an address written in `k` parts: the last one takes the octets left over. */
  function Form(o: Octets, k: nat): (p: seq<nat>)
    requires 1 <= k <= 4
    ensures |p| == k
  {
    var a, b, c, d := o[0] as nat, o[1] as nat, o[2] as nat, o[3] as nat;
    match k
    case 1 => [a * 0x100_0000 + b * 0x1_0000 + c * 0x100 + d]
    case 2 => [a, b * 0x1_0000 + c * 0x100 + d]
    case 3 => [a, b, c * 0x100 + d]
    case _ => [a, b, c, d]
  }

  /** The numbers accepted are exactly those of an address in as many parts. */
  lemma CombineIff(p: seq<nat>, v: nat)
    requires 1 <= |p| <= 4 && v < U32 && forall n :: n in p ==> n < U32
    ensures Combine(p) == Some(v) <==> p == Form(NetworkOrder(v), |p|)
  {
    var o := NetworkOrder(v);
    NetworkOrderRoundTrip(v);
    assert p[0] in p;
    FormCombines(o, |p|);
    if Combine(p) == Some(v) {
      CombineForms(p, v);
    }
  }

  lemma FormCombines(o: Octets, k: nat)
    requires 1 <= k <= 4
    ensures Combine(Form(o, k)) == Some(Value(o))
  {
  }

  lemma CombineForms(p: seq<nat>, v: nat)
    requires 1 <= |p| <= 4 && v < U32 && Combine(p) == Some(v)
    ensures p == Form(NetworkOrder(v), |p|)
  {
    var o := NetworkOrder(v);
    NetworkOrderRoundTrip(v);
    hide NetworkOrder;
    Unique(o, p, v);
  }

  lemma Unique(o: Octets, p: seq<nat>, v: nat)
    requires 1 <= |p| <= 4 && Combine(p) == Some(v) == Some(Value(o))
    ensures p == Form(o, |p|)
  {
    var x, y := o[1] as nat * 0x1_0000 + o[2] as nat * 0x100 + o[3] as nat, o[2] as nat * 0x100 + o[3] as nat;
    assert x < 0x100_0000 && y < 0x1_0000;
    match |p| {
      case 1 =>
      case 2 =>
        assert p[0] == o[0] && p[1] == x;
      case 3 =>
        assert p[0] == o[0];
        assert p[1] == o[1] && p[2] == y;
      case _ =>
        assert p[0] == o[0];
        assert p[1] == o[1];
        assert p[2] == o[2] && p[3] == o[3];
    }
  }

  /** The numbers of a form, each in a base of its own. */
  function InBases(p: seq<nat>, bases: seq<Base>): (r: seq<Numeral>)
    requires |p| == |bases|
    ensures |r| == |p|
  {
    seq(|p|, i requires 0 <= i < |p| => Numeral(p[i], bases[i]))
  }

  /** Every address survives being written in one to four parts, each in any base, and read. */
  lemma FormsRoundTrip(o: Octets, bases: seq<Base>)
    requires 1 <= |bases| <= 4
    ensures AtonValue(Dotted(InBases(Form(o, |bases|), bases))) == Some(Value(o))
  {
    var p := Form(o, |bases|);
    var parts := InBases(p, bases);
    assert forall n :: n in p ==> n < U32;
    SmallIsReduced(p, bases);
    FormCombines(o, |bases|);
    hide AtonValue, Dotted, Reduced, Combine, Value, EndsText, Separates, Form, InBases;
    AtonOfDotted(parts, []);
    assert Dotted(parts) + [] == Dotted(parts);
  }

  /** The usual text of an address. */
  function Text(o: Octets): string {
    Dotted(InBases(Form(o, 4), [Dec, Dec, Dec, Dec]))
  }

  /** Every one of the 2^32 addresses survives being printed and read. */
  lemma RoundTrip(o: Octets)
    ensures AtonValue(Text(o)) == Some(Value(o))
  {
    hide AtonValue, Dotted;
    FormsRoundTrip(o, [Dec, Dec, Dec, Dec]);
  }

  lemma SmallIsReduced(p: seq<nat>, bases: seq<Base>)
    requires |p| == |bases| && forall n :: n in p ==> n < U32
    ensures Reduced(InBases(p, bases)) == p
  {
    forall i | 0 <= i < |p|
      ensures Reduced(InBases(p, bases))[i] == p[i]
    {
      assert p[i] in p;
    }
  }

  /** Different addresses have different texts. */
  lemma TextIsInjective(a: Octets, b: Octets)
    requires Text(a) == Text(b)
    ensures a == b
  {
    RoundTrip(a);
    RoundTrip(b);
    hide AtonValue, Text;
    OctetsOfValue(a, b);
  }

  lemma OctetsOfValue(a: Octets, b: Octets)
    requires Value(a) == Value(b)
    ensures a == b
  {
    var x, y := a[1] as nat * 0x1_0000 + a[2] as nat * 0x100 + a[3] as nat,
                b[1] as nat * 0x1_0000 + b[2] as nat * 0x100 + b[3] as nat;
    assert x < 0x100_0000 && y < 0x100_0000;
    assert a[0] == b[0] && x == y;
    assert a[1] == b[1];
    assert a[2] == b[2] && a[3] == b[3];
  }

  // ----- ipaddr_ntoa_r -----

  /** What the loop has written after some octets: each number with a dot behind it. */
  function WithDots(o: seq<byte>): string {
    if o == [] then [] else WithDots(o[..|o| - 1]) + Decimal(o[|o| - 1] as nat) + "."
  }

  /** The text is what the loop writes without its last dot. */
  lemma WithDotsIsText(o: Octets)
    ensures WithDots(o) == Text(o) + "."
  {
    var d0, d1, d2, d3 := Decimal(o[0] as nat), Decimal(o[1] as nat), Decimal(o[2] as nat), Decimal(o[3] as nat);
    TextIs(o);
    hide Decimal, Text, WithDots;
    var o1, o2, o3 := o[..1], o[..2], o[..3];
    assert o3[..2] == o2 && o2[..1] == o1 && o1[..0] == [];
    WithDotsStep([]);
    WithDotsStep(o1);
    WithDotsStep(o2);
    WithDotsStep(o3);
    WithDotsStep(o);
    Regrouped(d0, d1, d2, d3, ".");
  }

  lemma WithDotsStep(o: seq<byte>)
    ensures WithDots(o) ==
      if o == [] then [] else WithDots(o[..|o| - 1]) + Decimal(o[|o| - 1] as nat) + "."
  {
  }

  lemma Regrouped(a: string, b: string, c: string, d: string, dot: string)
    ensures [] + a + dot + b + dot + c + dot + d + dot == a + dot + (b + dot + (c + dot + d)) + dot
  {
  }

  /** Four decimal numbers with dots between them. */
  lemma TextIs(o: Octets)
    ensures Text(o) == Decimal(o[0] as nat) + "." + (Decimal(o[1] as nat) + "."
      + (Decimal(o[2] as nat) + "." + Decimal(o[3] as nat)))
  {
    var p := [o[0] as nat, o[1] as nat, o[2] as nat, o[3] as nat];
    assert Form(o, 4) == p;
    var parts := InBases(p, [Dec, Dec, Dec, Dec]);
    assert parts == [Numeral(p[0], Dec), Numeral(p[1], Dec), Numeral(p[2], Dec), Numeral(p[3], Dec)];
    assert Text(o) == Dotted(parts);
    hide Decimal, Form, InBases, Text;
    DottedStep(parts);
    DottedStep(parts[1..]);
    DottedStep(parts[2..]);
    DottedStep(parts[3..]);
    hide Dotted;
  }

  lemma DottedStep(parts: seq<Numeral>)
    requires parts != []
    ensures Dotted(parts) ==
      if |parts| == 1 then Written(parts[0]) else Written(parts[0]) + "." + Dotted(parts[1..])
  {
  }

  function Reverse(s: string): (r: string)
    ensures |r| == |s|
  {
    if s == [] then [] else Reverse(s[1..]) + [s[0]]
  }

  lemma {:induction false} ReverseSnoc(s: string, c: char)
    ensures Reverse(s + [c]) == [c] + Reverse(s)
  {
    if s == [] {
      assert [c][1..] == [];
      assert Reverse([c]) == [c];
    } else {
      assert (s + [c])[1..] == s[1..] + [c];
      ReverseSnoc(s[1..], c);
    }
  }

  /** The character the code computes is the digit. */
  lemma IsDigitIn(d: nat)
    requires d < 10
    ensures '0' + d as char == DigitIn(d, false)
  {
    DigitsRead(d, false);
  }

  /** The digit loop: an octet's decimal digits into the scratch array, last digit first. */
  method Digits(octet: byte, inv: array<char>) returns (i: nat)
    requires inv.Length == 3
    modifies inv
    ensures 1 <= i <= 3 && Reverse(inv[..i]) == Decimal(octet as nat)
  {
    var ap: nat := octet;
    i := 0;
    ghost var scale := 256;
    while true
      invariant i <= 2 && ap < scale && scale == (if i == 0 then 256 else if i == 1 then 26 else 3)
      invariant Decimal(ap) + Reverse(inv[..i]) == Decimal(octet as nat)
      decreases ap
    {
      var rem: nat := ap % 10;
      ghost var was := ap;
      ap := ap / 10;
      ghost var front := inv[..i];
      inv[i] := '0' + rem as char;
      IsDigitIn(rem);
      i := i + 1;
      assert inv[..i] == front + [DigitIn(rem, false)];
      ReverseSnoc(front, DigitIn(rem, false));
      scale := if i == 1 then 26 else 3;
      assert Decimal(was) == (if was < 10 then [] else Decimal(ap)) + [DigitIn(rem, false)];
      if ap == 0 {
        break;
      }
    }
  }

  /**
   ipaddr_ntoa_r: fails exactly when the text and its terminator do not fit, and never writes
   past `buflen` characters.
   */
  method Ntoa(addr: Octets, buf: array<char>, buflen: int) returns (ok: bool)
    requires buflen <= buf.Length
    modifies buf
    ensures ok <==> |Text(addr)| + 1 <= buflen
    ensures ok ==> buf[..|Text(addr)|] == Text(addr) && buf[|Text(addr)|] == NUL
    ensures forall k :: 0 <= k < buf.Length && k >= buflen ==> buf[k] == old(buf[k])
  {
    WithDotsIsText(addr);
    hide Text, Decimal, Reverse;
    var inv := new char[3];
    var len: nat := 0;
    for n := 0 to 4
      invariant len == |WithDots(addr[..n])| && (len > 0 ==> len <= buflen)
      invariant n > 0 ==> len > 0
      invariant len <= buf.Length && buf[..len] == WithDots(addr[..n])
      invariant forall k :: 0 <= k < buf.Length && k >= buflen ==> buf[k] == old(buf[k])
    {
      assert addr[..n + 1][..n] == addr[..n];
      GrowsTo(addr, n + 1);
      var i := Digits(addr[n], inv);
      var fits;
      fits, len := PutReversed(buf, buflen, len, inv, i);
      if !fits || len >= buflen {
        return false;
      }
      buf[len] := '.';
      len := len + 1;
    }
    assert addr[..4] == addr;
    buf[len - 1] := NUL;
    return true;
  }

  /** Copies the digits in the right order, as far as the buffer goes. */
  method PutReversed(buf: array<char>, buflen: int, at: nat, inv: array<char>, n: nat)
    returns (fits: bool, len: nat)
    requires buflen <= buf.Length && at <= buf.Length && n <= inv.Length && inv != buf && 0 < n
    modifies buf
    ensures fits <==> at + n <= buflen
    ensures fits ==> len == at + n && buf[..len] == old(buf[..at]) + Reverse(inv[..n])
    ensures forall k :: 0 <= k < buf.Length && k >= buflen ==> buf[k] == old(buf[k])
  {
    len := at;
    var i := n;
    assert inv[n..n] == [];
    while i > 0
      invariant i <= n && len == at + n - i && (i < n ==> len <= buflen) && len <= buf.Length
      invariant buf[..len] == old(buf[..at]) + Reverse(inv[i..n])
      invariant forall k :: 0 <= k < buf.Length && k >= buflen ==> buf[k] == old(buf[k])
    {
      i := i - 1;
      if len >= buflen {
        return false, len;
      }
      assert inv[i..n][1..] == inv[i + 1..n];
      buf[len] := inv[i];
      len := len + 1;
    }
    assert inv[0..n] == inv[..n];
    return true, len;
  }

  lemma {:induction false} GrowsTo(o: seq<byte>, n: nat)
    requires n <= |o|
    ensures |WithDots(o[..n])| <= |WithDots(o)|
    decreases |o| - n
  {
    if n < |o| {
      assert o[..n + 1][..n] == o[..n];
      GrowsTo(o, n + 1);
    } else {
      assert o[..n] == o;
    }
  }

  /** Sixteen characters are enough for every address. */
  lemma SixteenIsEnough(o: Octets)
    ensures |Text(o)| + 1 <= 16
  {
    WithDotsIsText(o);
    hide Text;
    assert o[..3][..2] == o[..2] && o[..2][..1] == o[..1] && o[..1][..0] == [];
    forall i | 0 <= i < 4
      ensures |Decimal(o[i] as nat)| <= 3
    {
      ThreeDigits(o[i] as nat);
    }
    hide Decimal;
    assert |WithDots(o[..1])| <= 4;
    assert |WithDots(o[..2])| <= 8;
    assert |WithDots(o[..3])| <= 12;
  }

  lemma ThreeDigits(n: nat)
    requires n < 1000
    ensures |Decimal(n)| <= 3
  {
    if n >= 10 {
      var m := n / 10;
      assert m < 100 && |Decimal(n)| == |Decimal(m)| + 1;
      if m >= 10 {
        assert m / 10 < 10 && |Decimal(m)| == |Decimal(m / 10)| + 1;
      }
    }
  }
}
