/**
 The power-saving timers of `quectel/modules/src/ql_psm.c`: seconds to a timer octet, the octet to
 the eight binary digits of the AT command, and back.

 The octets are GPRS Timer 3 (section 10.5.7.4a of 3GPP TS 24.008) for the periodic TAU and GPRS
 Timer 2 (section 10.5.7.4) for the active time: three unit bits, five value bits.
 */
module PsmTimer {
  import opened Bytes

  /** `(unit << 5) | (value & 0x1F)` */
  function Octet(unit: nat, value: nat): (o: byte)
    requires unit < 8
    ensures o / 32 == unit && o % 32 == value % 32
  {
    unit * 32 + value % 32
  }

  /** ql_convert_seconds_to_TAU_format */
  function EncodeTau(seconds: nat): byte {
    if seconds <= 62 then Octet(3, (seconds + 1) / 2)
    else if seconds <= 930 then Octet(4, (seconds + 15) / 30)
    else if seconds <= 1860 then Octet(5, (seconds + 30) / 60)
    else if seconds <= 18600 then Octet(0, (seconds + 300) / 600)
    else if seconds <= 111600 then Octet(1, (seconds + 1800) / 3600)
    else if seconds <= 1116000 then Octet(2, (seconds + 18000) / 36000)
    else Octet(2, 31)
  }

  /** ql_convert_seconds_to_Active_format */
  function EncodeActive(seconds: nat): byte {
    if seconds == 0 then 0xE0
    else if seconds <= 62 then Octet(0, (seconds + 1) / 2)
    else if seconds <= 1860 then Octet(1, (seconds + 30) / 60)
    else if seconds <= 11160 then Octet(2, (seconds + 180) / 360)
    else Octet(2, 31)
  }

  /** The unit of a GPRS Timer 3 octet in seconds; 0 for the codes the decoder does not know. */
  function TauUnit(unit: nat): nat {
    match unit
    case 3 => 2
    case 4 => 30
    case 5 => 60
    case 0 => 600
    case 1 => 3600
    case 2 => 36000
    case _ => 0
  }

  /** The unit of a GPRS Timer 2 octet in seconds; 0 for "deactivated" and unknown codes. */
  function ActiveUnit(unit: nat): nat {
    match unit
    case 0 => 2
    case 1 => 60
    case 2 => 360
    case _ => 0
  }

  function DecodeTau(o: byte): nat {
    o % 32 * TauUnit(o / 32)
  }

  function DecodeActive(o: byte): nat {
    o % 32 * ActiveUnit(o / 32)
  }

  /** Every TAU octet, code by code: GPRS Timer 3, section 10.5.7.4a of 3GPP TS 24.008. */
  lemma TauTable(v: nat)
    requires v < 32
    ensures DecodeTau(0x00 + v) == 600 * v     // 000: 10 minutes
    ensures DecodeTau(0x20 + v) == 3600 * v    // 001: 1 hour
    ensures DecodeTau(0x40 + v) == 36000 * v   // 010: 10 hours
    ensures DecodeTau(0x60 + v) == 2 * v       // 011: 2 seconds
    ensures DecodeTau(0x80 + v) == 30 * v      // 100: 30 seconds
    ensures DecodeTau(0xA0 + v) == 60 * v      // 101: 1 minute
    ensures DecodeTau(0xC0 + v) == 0 && DecodeTau(0xE0 + v) == 0
  {
  }

  /** Every active-time octet: GPRS Timer 2, section 10.5.7.4 of 3GPP TS 24.008. */
  lemma ActiveTable(v: nat)
    requires v < 32
    ensures DecodeActive(0x00 + v) == 2 * v    // 000: 2 seconds
    ensures DecodeActive(0x20 + v) == 60 * v   // 001: 1 minute
    ensures DecodeActive(0x40 + v) == 360 * v  // 010: 6 minutes
    ensures DecodeActive(0x60 + v) == 0 && DecodeActive(0x80 + v) == 0 && DecodeActive(0xA0 + v) == 0
    ensures DecodeActive(0xC0 + v) == 0 && DecodeActive(0xE0 + v) == 0
  {
  }

  /** No active time is sent as the code for "deactivated", and only no active time. */
  lemma DeactivatedIff(seconds: nat)
    ensures EncodeActive(seconds) == 0xE0 <==> seconds == 0
    ensures EncodeActive(seconds) / 32 == 7 <==> seconds == 0
  {
  }

  // ----- Binary text -----

  /** The low `n` bits of `v`, most significant first. */
  function Bits(v: nat, n: nat): (t: string)
    ensures |t| == n
  {
    if n == 0 then [] else Bits(v / 2, n - 1) + [if v % 2 == 1 then '1' else '0']
  }

  function Pow2(n: nat): (p: nat)
    ensures p > 0
  {
    if n == 0 then 1 else 2 * Pow2(n - 1)
  }

  /** `(v >> i) & 1` */
  function Bit(v: nat, i: nat): nat
  {
    if i == 0 then v % 2 else Bit(v / 2, i - 1)
  }

  lemma {:induction false} BitsAt(v: nat, n: nat, i: nat)
    requires i < n
    ensures Bits(v, n)[n - 1 - i] == if Bit(v, i) == 1 then '1' else '0'
    decreases n
  {
    if i == 0 {
    } else {
      BitsAt(v / 2, n - 1, i - 1);
    }
  }

  /** ql_convert_byte_to_binary_str */
  method ByteToBinaryStr(value: byte, out: array<char>)
    requires out.Length >= 9
    modifies out
    ensures out[..8] == Bits(value, 8) && out[8] == '\0'
    ensures out[9..] == old(out[9..])
  {
    var i := 7;
    while i >= 0
      invariant -1 <= i <= 7
      invariant forall k :: 0 <= k < 7 - i ==> out[k] == Bits(value, 8)[k]
      invariant out[8..] == old(out[8..])
      decreases i + 1
    {
      BitsAt(value, 8, i);
      out[7 - i] := if Bit(value, i) == 1 then '1' else '0';
      i := i - 1;
    }
    out[8] := '\0';
    assert out[..8] == Bits(value, 8);
    assert out[9..] == out[8..][1..] == old(out[8..])[1..];
  }

  /** `strtol(s, NULL, 2)` on a string that starts with its digits. */
  function ParseBinary(s: string, acc: nat): nat
    decreases |s|
  {
    if s == [] || (s[0] != '0' && s[0] != '1') then acc
    else ParseBinary(s[1..], 2 * acc + if s[0] == '1' then 1 else 0)
  }

  /** What a decoder makes of the digits: the parsed number as an octet. */
  function ParseOctet(s: string): byte {
    ParseBinary(s, 0) % 256
  }

  lemma {:induction false} ParseAppend(s: string, c: char, acc: nat)
    requires (c == '0' || c == '1') && forall d :: d in s ==> d == '0' || d == '1'
    ensures ParseBinary(s + [c], acc) == 2 * ParseBinary(s, acc) + if c == '1' then 1 else 0
    decreases |s|
  {
    if s == [] {
      assert [c][1..] == [];
    } else {
      assert s[0] in s && (s + [c])[1..] == s[1..] + [c];
      assert forall d :: d in s[1..] ==> d in s;
      ParseAppend(s[1..], c, 2 * acc + if s[0] == '1' then 1 else 0);
    }
  }

  lemma {:induction false} ParseBits(v: nat, n: nat)
    requires v < Pow2(n)
    ensures ParseBinary(Bits(v, n), 0) == v
    ensures forall d :: d in Bits(v, n) ==> d == '0' || d == '1'
    decreases n
  {
    if n == 0 {
    } else {
      ParseBits(v / 2, n - 1);
      ParseAppend(Bits(v / 2, n - 1), if v % 2 == 1 then '1' else '0', 0);
    }
  }

  /** Every octet survives being printed and parsed. */
  lemma OctetRoundTrip(o: byte)
    ensures ParseOctet(Bits(o, 8)) == o
  {
    assert Pow2(8) == 256 by {
      assert Pow2(3) == 8 && Pow2(6) == 8 * Pow2(3);
    }
    hide Bits, ParseBinary, Pow2;
    ParseBits(o, 8);
  }

  // ----- Quantising -----

  /** What the network is asked for, read back: encode, print, parse, decode. */
  function QuantTau(seconds: nat): nat {
    DecodeTau(ParseOctet(Bits(EncodeTau(seconds), 8)))
  }

  function QuantActive(seconds: nat): nat {
    DecodeActive(ParseOctet(Bits(EncodeActive(seconds), 8)))
  }

  /** `unit` is the smallest of `units` that can express `seconds` with five value bits. */
  predicate FinestUnit(units: set<nat>, unit: nat, seconds: nat) {
    unit in units && seconds <= 31 * unit && forall u :: u in units && u < unit ==> 31 * u < seconds
  }

  /** `q` is a multiple of `unit`, none nearer to `seconds`; of two as near the greater. */
  ghost predicate NearestMultiple(q: nat, unit: nat, seconds: nat)
    requires unit > 0
  {
    && (exists k: nat :: IsMultiple(q, k, unit))
    && 2 * q <= 2 * seconds + unit && 2 * seconds < 2 * q + unit
  }

  predicate IsMultiple(q: nat, k: nat, unit: nat) {
    q == k * unit
  }

  const TAU_UNITS: set<nat> := {2, 30, 60, 600, 3600, 36000}
  const ACTIVE_UNITS: set<nat> := {2, 60, 360}
  const TAU_MAX: nat := 31 * 36000
  const ACTIVE_MAX: nat := 31 * 360

  /** The nearest multiple of `u`, a tie going up. */
  function Rounded(seconds: nat, u: nat): nat
    requires u > 0
  {
    (seconds + u / 2) / u * u
  }

  function PlainTau(seconds: nat): nat {
    if seconds <= 62 then Rounded(seconds, 2)
    else if seconds <= 930 then Rounded(seconds, 30)
    else if seconds <= 1860 then Rounded(seconds, 60)
    else if seconds <= 18600 then Rounded(seconds, 600)
    else if seconds <= 111600 then Rounded(seconds, 3600)
    else if seconds <= TAU_MAX then Rounded(seconds, 36000)
    else TAU_MAX
  }

  function PlainActive(seconds: nat): nat {
    if seconds <= 62 then Rounded(seconds, 2)
    else if seconds <= 1860 then Rounded(seconds, 60)
    else if seconds <= ACTIVE_MAX then Rounded(seconds, 360)
    else ACTIVE_MAX
  }

  /** Which unit the encoder picks, and that encoding and decoding rounds to it. */
  lemma TauRounds(seconds: nat)
    ensures TauUnit(EncodeTau(seconds) / 32) == if seconds <= 62 then 2 else if seconds <= 930 then 30
      else if seconds <= 1860 then 60 else if seconds <= 18600 then 600
      else if seconds <= 111600 then 3600 else 36000
    ensures DecodeTau(EncodeTau(seconds)) == PlainTau(seconds)
  {
    hide Octet, Rounded;
    if seconds <= 62 {
      Fits(seconds, 2, 3);
    } else if seconds <= 930 {
      Fits(seconds, 30, 4);
    } else if seconds <= 1860 {
      Fits(seconds, 60, 5);
    } else if seconds <= 18600 {
      Fits(seconds, 600, 0);
    } else if seconds <= 111600 {
      Fits(seconds, 3600, 1);
    } else if seconds <= 1116000 {
      Fits(seconds, 36000, 2);
    }
  }

  /** A rounded time within a unit's reach has five value bits. */
  lemma Fits(seconds: nat, u: nat, code: nat)
    requires u > 0 && seconds <= 31 * u && code < 8
    ensures var v := (seconds + u / 2) / u;
      && Octet(code, v) / 32 == code && Octet(code, v) % 32 == v
      && v * u == Rounded(seconds, u)
  {
    var v := (seconds + u / 2) / u;
    assert seconds + u / 2 == v * u + (seconds + u / 2) % u;
    Grows(v, 32, u);
  }

  lemma Grows(a: nat, b: nat, u: nat)
    ensures a >= b ==> a * u >= b * u
  {
    if a >= b {
      assert a * u == b * u + (a - b) * u;
    }
  }

  lemma ActiveRounds(seconds: nat)
    ensures seconds > 0 ==>
      ActiveUnit(EncodeActive(seconds) / 32) == if seconds <= 62 then 2 else if seconds <= 1860 then 60 else 360
    ensures DecodeActive(EncodeActive(seconds)) == PlainActive(seconds)
  {
    if seconds == 0 {
      assert DecodeActive(0xE0) == 0 && PlainActive(0) == 0;
    } else {
      hide Octet, Rounded;
      if seconds <= 62 {
        Fits(seconds, 2, 0);
      } else if seconds <= 1860 {
        Fits(seconds, 60, 1);
      } else if seconds <= 11160 {
        Fits(seconds, 360, 2);
      }
    }
  }

  lemma RoundsToNearest(seconds: nat, u: nat)
    requires u > 0 && u % 2 == 0
    ensures NearestMultiple(Rounded(seconds, u), u, seconds)
  {
    var v := RoundedIs(seconds, u);
    hide Rounded;
    assert IsMultiple(v * u, v, u);
  }

  lemma QuantTauIs(seconds: nat)
    ensures QuantTau(seconds) == PlainTau(seconds)
  {
    hide EncodeTau, DecodeTau, PlainTau, ParseOctet, Bits;
    OctetRoundTrip(EncodeTau(seconds));
    TauRounds(seconds);
  }

  lemma QuantActiveIs(seconds: nat)
    ensures QuantActive(seconds) == PlainActive(seconds)
  {
    hide EncodeActive, DecodeActive, PlainActive, ParseOctet, Bits;
    OctetRoundTrip(EncodeActive(seconds));
    ActiveRounds(seconds);
  }

  /** The finest unit that reaches the time, and the nearest multiple of it; saturated above. */
  lemma TauIsBest(seconds: nat)
    ensures var q, unit := QuantTau(seconds), TauUnit(EncodeTau(seconds) / 32);
      if seconds <= TAU_MAX then
        FinestUnit(TAU_UNITS, unit, seconds) && unit > 0 && NearestMultiple(q, unit, seconds)
      else q == TAU_MAX
  {
    hide QuantTau, EncodeTau, TauUnit, NearestMultiple, Rounded;
    QuantTauIs(seconds);
    TauRounds(seconds);
    RoundsToNearest(seconds, TauUnit(EncodeTau(seconds) / 32));
  }

  lemma ActiveIsBest(seconds: nat)
    requires seconds > 0
    ensures var q, unit := QuantActive(seconds), ActiveUnit(EncodeActive(seconds) / 32);
      if seconds <= ACTIVE_MAX then
        FinestUnit(ACTIVE_UNITS, unit, seconds) && unit > 0 && NearestMultiple(q, unit, seconds)
      else q == ACTIVE_MAX
  {
    hide QuantActive, EncodeActive, ActiveUnit, NearestMultiple, Rounded;
    QuantActiveIs(seconds);
    ActiveRounds(seconds);
    RoundsToNearest(seconds, ActiveUnit(EncodeActive(seconds) / 32));
  }

  /** Rounding gives a multiple within half a unit, and rounding again changes nothing. */
  lemma RoundedIs(seconds: nat, u: nat) returns (v: nat)
    requires u > 0 && u % 2 == 0
    ensures Rounded(seconds, u) == v * u && 2 * (v * u) <= 2 * seconds + u < 2 * (v * u) + 2 * u
  {
    v := (seconds + u / 2) / u;
    assert seconds + u / 2 == v * u + (seconds + u / 2) % u;
  }

  lemma RoundedOnce(v: nat, u: nat)
    requires u > 0 && u % 2 == 0
    ensures Rounded(v * u, u) == v * u
  {
    var w := RoundedIs(v * u, u);
    hide Rounded;
    assert (v + 1) * u == v * u + u && (w + 1) * u == w * u + u;
    Grows(w, v + 1, u);
    Grows(v, w + 1, u);
    assert w == v;
  }

  /** Which octet is sent: a code and a value that stand for the quantised time. */
  lemma TauOctet(seconds: nat)
    ensures var o, q := EncodeTau(seconds), QuantTau(seconds);
      && (seconds <= 62 ==> 0x60 <= o < 0x80 && q == 2 * (o - 0x60))
      && (62 < seconds <= 930 ==> 0x80 <= o < 0xA0 && q == 30 * (o - 0x80))
      && (930 < seconds <= 1860 ==> 0xA0 <= o < 0xC0 && q == 60 * (o - 0xA0))
      && (1860 < seconds <= 18600 ==> 0x00 <= o < 0x20 && q == 600 * o)
      && (18600 < seconds <= 111600 ==> 0x20 <= o < 0x40 && q == 3600 * (o - 0x20))
      && (111600 < seconds ==> 0x40 <= o < 0x60 && q == 36000 * (o - 0x40))
  {
    hide QuantTau, PlainTau, Octet;
    QuantTauIs(seconds);
    TauRounds(seconds);
    TauTable(EncodeTau(seconds) % 32);
    CodeOf(seconds);
  }

  /** The unit code of each range, from the decoder's table. */
  lemma CodeOf(seconds: nat)
    ensures EncodeTau(seconds) / 32 == if seconds <= 62 then 3 else if seconds <= 930 then 4
      else if seconds <= 1860 then 5 else if seconds <= 18600 then 0 else if seconds <= 111600 then 1 else 2
  {
    hide Rounded;
  }

  /** A time that was read back is requested again unchanged. */
  lemma TauIdempotent(seconds: nat)
    ensures QuantTau(QuantTau(seconds)) == QuantTau(seconds)
  {
    QuantTauIs(seconds);
    QuantTauIs(PlainTau(seconds));
    hide QuantTau;
    PlainTauIdempotent(seconds);
  }

  lemma PlainTauIdempotent(seconds: nat)
    ensures PlainTau(PlainTau(seconds)) == PlainTau(seconds)
  {
    hide Rounded;
    if seconds > TAU_MAX {
      RoundedOnce(31, 36000);
    } else {
      var u, finer := if seconds <= 62 then 2 else if seconds <= 930 then 30
        else if seconds <= 1860 then 60 else if seconds <= 18600 then 600
        else if seconds <= 111600 then 3600 else 36000,
        if seconds <= 62 then 2 else if seconds <= 930 then 2
        else if seconds <= 1860 then 30 else if seconds <= 18600 then 60
        else if seconds <= 111600 then 600 else 3600;
      var v := RoundedIs(seconds, u);
      RoundedOnce(v, u);
      RoundedOnce(v * (u / finer), finer);
    }
  }

  lemma ActiveIdempotent(seconds: nat)
    ensures QuantActive(QuantActive(seconds)) == QuantActive(seconds)
  {
    QuantActiveIs(seconds);
    QuantActiveIs(PlainActive(seconds));
    hide QuantActive;
    PlainActiveIdempotent(seconds);
  }

  lemma PlainActiveIdempotent(seconds: nat)
    ensures PlainActive(PlainActive(seconds)) == PlainActive(seconds)
  {
    hide Rounded;
    if seconds > ACTIVE_MAX {
      RoundedOnce(31, 360);
    } else if seconds <= 62 {
      var v := RoundedIs(seconds, 2);
      RoundedOnce(v, 2);
    } else if seconds <= 1860 {
      var v := RoundedIs(seconds, 60);
      RoundedOnce(v, 60);
      RoundedOnce(30, 2);
    } else {
      var v := RoundedIs(seconds, 360);
      RoundedOnce(v, 360);
      RoundedOnce(30, 60);
    }
  }

  /** Zero, and only zero, stays zero: no request is silently switched off. */
  lemma ZeroIff(seconds: nat)
    ensures QuantTau(seconds) == 0 <==> seconds == 0
    ensures QuantActive(seconds) == 0 <==> seconds == 0
  {
    QuantTauIs(seconds);
    QuantActiveIs(seconds);
    hide QuantTau, QuantActive;
  }

  /** Above the two-second range a TAU request is met within a fifth, up to the maximum. */
  lemma TauWithinAFifth(seconds: nat)
    requires 63 <= seconds <= TAU_MAX
    ensures 4 * seconds <= 5 * QuantTau(seconds) <= 6 * seconds
  {
    QuantTauIs(seconds);
    hide QuantTau;
  }

  // ----- What choosing the unit before rounding costs -----

  lemma RoundedGrows(seconds: nat, u: nat)
    requires u > 0 && u % 2 == 0
    ensures Rounded(seconds, u) <= Rounded(seconds + 1, u)
  {
    var v := RoundedIs(seconds, u);
    var w := RoundedIs(seconds + 1, u);
    hide Rounded;
    Grows(v, w + 1, u);
    Grows(w, v, u);
    assert (w + 1) * u == w * u + u;
  }

  lemma AtTheEnds()
    ensures Rounded(62, 2) == 62 && Rounded(63, 30) == 60 && Rounded(63, 60) == 60
    ensures Rounded(930, 30) == 930 && Rounded(931, 60) == 960
    ensures Rounded(1860, 60) == 1860 && Rounded(1861, 600) == 1800 && Rounded(1861, 360) == 1800
    ensures Rounded(18600, 600) == 18600 && Rounded(18601, 3600) == 18000
    ensures Rounded(111600, 3600) == 111600 && Rounded(111601, 36000) == 108000
    ensures Rounded(TAU_MAX, 36000) == TAU_MAX && Rounded(ACTIVE_MAX, 360) == ACTIVE_MAX
  {
  }

  /** Inside a unit's range, and above the last one, the quantised time does not fall. */
  lemma PlainTauGrows(seconds: nat)
    requires seconds != 62 && seconds != 930 && seconds != 1860 && seconds != 18600 && seconds != 111600
    ensures PlainTau(seconds) <= PlainTau(seconds + 1)
  {
    hide Rounded;
    if seconds < TAU_MAX {
      var unit, finer := TauRange(seconds);
      var unit', finer' := TauRange(seconds + 1);
      hide PlainTau;
      RoundedGrows(seconds, unit);
    } else {
      AtTheEnds();
    }
  }

  /**
   The quantised time falls when the request grows by a second at exactly these ends of a
   unit's range: the last time the finer unit expresses is no multiple of the coarser one.
   */
  lemma TauStepsDownIff(seconds: nat)
    ensures QuantTau(seconds + 1) < QuantTau(seconds)
      <==> seconds == 62 || seconds == 1860 || seconds == 18600 || seconds == 111600
  {
    QuantTauIs(seconds);
    QuantTauIs(seconds + 1);
    hide QuantTau, PlainTau;
    if seconds == 62 || seconds == 930 || seconds == 1860 || seconds == 18600 || seconds == 111600 {
      PlainTauAtTheEnds();
    } else {
      PlainTauGrows(seconds);
    }
  }

  lemma PlainTauAtTheEnds()
    ensures PlainTau(62) == 62 && PlainTau(63) == 60
    ensures PlainTau(930) == 930 && PlainTau(931) == 960
    ensures PlainTau(1860) == 1860 && PlainTau(1861) == 1800
    ensures PlainTau(18600) == 18600 && PlainTau(18601) == 18000
    ensures PlainTau(111600) == 111600 && PlainTau(111601) == 108000
  {
    AtTheEnds();
    hide Rounded;
  }

  lemma ActiveStepsDownIff(seconds: nat)
    ensures QuantActive(seconds + 1) < QuantActive(seconds) <==> seconds == 62 || seconds == 1860
  {
    QuantActiveIs(seconds);
    QuantActiveIs(seconds + 1);
    AtTheEnds();
    hide QuantActive, Rounded;
    if seconds < ACTIVE_MAX && seconds != 62 && seconds != 1860 {
      RoundedGrows(seconds, if seconds <= 62 then 2 else if seconds <= 1860 then 60 else 360);
    }
  }

  function Distance(a: nat, b: nat): nat {
    if a < b then b - a else a - b
  }

  /** What an octet with value bits `value` and a unit of `unit` seconds stands for. */
  function Span(value: nat, unit: nat): nat {
    value * unit
  }

  /** No octet over these units stands for a time nearer to `seconds` than `q`. */
  ghost predicate NearestOfAll(q: nat, units: set<nat>, seconds: nat) {
    forall value: nat, unit: nat :: value < 32 && unit in units ==>
      Distance(seconds, q) <= Distance(seconds, Span(value, unit))
  }

  /** The longest time a finer unit expresses is the only rival of the rounded time. */
  lemma RivalIsReach(seconds: nat, units: set<nat>, unit: nat, finer: nat)
    requires unit in units && unit > 0 && unit % 2 == 0
    requires (finer == 0 || finer in units) && 31 * finer <= seconds <= 31 * unit
    requires forall u :: u in units ==> u <= finer || exists k: nat :: IsMultiple(u, k, unit)
    ensures NearestOfAll(Rounded(seconds, unit), units, seconds)
      <==> Distance(seconds, Rounded(seconds, unit)) <= seconds - 31 * finer
  {
    var v := RoundedIs(seconds, unit);
    var q := Rounded(seconds, unit);
    hide Rounded;
    assert Span(31, finer) == 31 * finer && Span(0, unit) == 0;
    if Distance(seconds, q) <= seconds - 31 * finer {
      forall value: nat, u: nat | value < 32 && u in units
        ensures Distance(seconds, q) <= Distance(seconds, Span(value, u))
      {
        hide Span, Distance;
        if u <= finer {
          WithinReach(seconds, finer, value, u);
        } else {
          var k: nat :| IsMultiple(u, k, unit);
          assert Span(value, u) == value * k * unit by {
            SpanOfMultiple(value, u, k, unit);
          }
          MultiplesApart(seconds, unit, v, value * k);
        }
      }
    }
  }

  lemma SpanOfMultiple(value: nat, u: nat, k: nat, unit: nat)
    requires IsMultiple(u, k, unit)
    ensures Span(value, u) == value * k * unit
  {
  }

  /** What a unit up to `finer` expresses is at least this far below. */
  lemma WithinReach(seconds: nat, finer: nat, value: nat, u: nat)
    requires value < 32 && u <= finer && 31 * finer <= seconds
    ensures seconds - 31 * finer <= Distance(seconds, Span(value, u))
  {
    Grows(31, value, u);
  }

  /** The rounded time is as near as any multiple of the unit. */
  lemma MultiplesApart(seconds: nat, unit: nat, v: nat, w: nat)
    requires unit > 0 && 2 * (v * unit) <= 2 * seconds + unit < 2 * (v * unit) + 2 * unit
    ensures Distance(seconds, v * unit) <= Distance(seconds, w * unit)
  {
    Grows(w, v + 1, unit);
    Grows(v, w + 1, unit);
  }

  /**
   The quantised TAU is the nearest of all times an octet can express except in five windows,
   each from the end of a unit's range to half way to the next time the coarser unit expresses.
   */
  lemma TauNearestIff(seconds: nat)
    requires seconds <= TAU_MAX
    ensures NearestOfAll(QuantTau(seconds), TAU_UNITS, seconds)
      <==> !(62 < seconds < 76) && !(930 < seconds < 945) && !(1860 < seconds < 2130)
           && !(18600 < seconds < 20100) && !(111600 < seconds < 127800)
  {
    QuantTauIs(seconds);
    hide QuantTau, NearestOfAll;
    var unit, finer := TauRange(seconds);
    RivalIsReach(seconds, TAU_UNITS, unit, finer);
  }

  /** The unit a TAU request is rounded to and the next finer one (0: none). */
  lemma TauRange(seconds: nat) returns (unit: nat, finer: nat)
    requires seconds <= TAU_MAX
    ensures unit in TAU_UNITS && PlainTau(seconds) == Rounded(seconds, unit)
    ensures (finer == 0 || finer in TAU_UNITS) && 31 * finer <= seconds <= 31 * unit
    ensures (unit, finer) == if seconds <= 62 then (2, 0) else if seconds <= 930 then (30, 2)
      else if seconds <= 1860 then (60, 30) else if seconds <= 18600 then (600, 60)
      else if seconds <= 111600 then (3600, 600) else (36000, 3600)
    ensures forall u :: u in TAU_UNITS ==> u <= finer || exists k: nat :: IsMultiple(u, k, unit)
  {
    hide Rounded;
    unit := if seconds <= 62 then 2 else if seconds <= 930 then 30 else if seconds <= 1860 then 60
      else if seconds <= 18600 then 600 else if seconds <= 111600 then 3600 else 36000;
    finer := if seconds <= 62 then 0 else if seconds <= 930 then 2 else if seconds <= 1860 then 30
      else if seconds <= 18600 then 60 else if seconds <= 111600 then 600 else 3600;
    forall u | u in TAU_UNITS && u > finer
      ensures exists k: nat :: IsMultiple(u, k, unit)
    {
      assert IsMultiple(u, u / unit, unit);
    }
  }

  lemma ActiveNearestIff(seconds: nat)
    requires seconds <= ACTIVE_MAX
    ensures NearestOfAll(QuantActive(seconds), ACTIVE_UNITS, seconds)
      <==> !(62 < seconds < 91) && !(1860 < seconds < 2010)
  {
    QuantActiveIs(seconds);
    hide QuantActive, NearestOfAll;
    var unit := if seconds <= 62 then 2 else if seconds <= 1860 then 60 else 360;
    var finer := if seconds <= 62 then 0 else if seconds <= 1860 then 2 else 60;
    forall u | u in ACTIVE_UNITS && u > finer
      ensures exists k: nat :: IsMultiple(u, k, unit)
    {
      assert IsMultiple(u, u / unit, unit);
    }
    RivalIsReach(seconds, ACTIVE_UNITS, unit, finer);
  }
}
