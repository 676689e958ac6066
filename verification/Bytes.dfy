/** The machine integers the C sources use, as ranges of mathematical integers. */
module Bytes {
  type byte = x: int | 0 <= x < 256

  const U16: nat := 0x1_0000
  const U32: nat := 0x1_0000_0000

  /** A conversion to `uint16_t`. */
  function Low16(x: nat): (r: nat)
    ensures r < U16 && r <= x && (x < U16 ==> r == x)
  {
    x % U16
  }

  /** `a + b` in an unsigned 32-bit register. */
  function Add32(a: nat, b: nat): nat { (a + b) % U32 }

  /** What an erased flash cell holds. */
  const BLANK: bv8 := 0xFF

  /** Programming ANDs, so a blank cell takes any byte. */
  lemma BlankAnd(b: bv8)
    ensures BLANK & b == b
  {
  }

  function Min(a: int, b: int): int {
    if a < b then a else b
  }

  /** Concatenation of a sequence of byte strings. */
  function Flatten<T>(parts: seq<seq<T>>): seq<T> {
    if parts == [] then [] else parts[0] + Flatten(parts[1..])
  }

  lemma {:induction false} FlattenAppend<T>(a: seq<seq<T>>, b: seq<seq<T>>)
    ensures Flatten(a + b) == Flatten(a) + Flatten(b)
  {
    if a == [] {
      assert a + b == b;
    } else {
      assert (a + b)[0] == a[0] && (a + b)[1..] == a[1..] + b;
      FlattenAppend(a[1..], b);
    }
  }

  lemma FlattenSnoc<T>(a: seq<seq<T>>, x: seq<T>)
    ensures Flatten(a + [x]) == Flatten(a) + x
  {
    FlattenAppend(a, [x]);
    assert Flatten([x]) == x + Flatten([x][1..]) == x;
  }
}
