/** Small definitions that several modules share. */
module Common {

  datatype Option<T> = None | Some(value: T)

  const TWO32: nat := 0x1_0000_0000

  function Min(a: nat, b: nat): nat {
    if a <= b then a else b
  }

  function Pow2(b: nat): nat {
    if b == 0 then 1 else 2 * Pow2(b - 1)
  }

  /** What a 32-bit word reads as when it is taken for a signed integer. */
  function Int32(x: int): int {
    var u := x % TWO32;
    if u < 0x8000_0000 then u else u - TWO32
  }

  lemma {:induction false} ModShift(x: int, k: int)
    ensures (x + k * TWO32) % TWO32 == x % TWO32
    decreases if k < 0 then -k else k
  {
    if k > 0 {
      ModShift(x, k - 1);
      assert x + k * TWO32 == x + (k - 1) * TWO32 + TWO32;
    } else if k < 0 {
      ModShift(x, k + 1);
      assert x + k * TWO32 == x + (k + 1) * TWO32 - TWO32;
    }
  }

  /** Wrapping at each digit is wrapping at the end. */
  lemma Int32Step(x: int, base: nat, d: nat)
    ensures Int32(Int32(x) * base + d) == Int32(x * base + d)
  {
    var k := (x - Int32(x)) / TWO32;
    assert x == Int32(x) + k * TWO32;
    assert x * base + d == (Int32(x) * base + d) + (k * base) * TWO32;
    ModShift(Int32(x) * base + d, k * base);
  }

  lemma Regroup<T>(a: seq<T>, b: seq<T>, c: seq<T>)
    ensures a + (b + c) == a + b + c
  {
  }
}
