/** The `uint64` masks of the cron fields, as their 64 bits, least significant first.
The operators are Go's: a shift by 64 or more leaves nothing. */
module Bits {
  import opened Integers

  const WIDTH := 64

  type Mask = m: seq<bool> | |m| == WIDTH witness seq(WIDTH, i => false)

  const ZERO: Mask := Run(0, -1)
  const ONE: Mask := Run(0, 0)
  const ALL_ONES: Mask := Run(0, 63)

  /** The mask whose bits a to b are set and no others. */
  function Run(a: int, b: int): Mask { seq(WIDTH, i => a <= i <= b) }

  function Not(a: Mask): Mask { seq(WIDTH, i requires 0 <= i < WIDTH => !a[i]) }

  function And(a: Mask, b: Mask): Mask { seq(WIDTH, i requires 0 <= i < WIDTH => a[i] && b[i]) }

  function Or(a: Mask, b: Mask): Mask { seq(WIDTH, i requires 0 <= i < WIDTH => a[i] || b[i]) }

  function ShiftLeft(a: Mask, n: nat): Mask {
    seq(WIDTH, i requires 0 <= i < WIDTH => n <= i && a[i - n])
  }

  /** Bit i of the mask is set. */
  predicate Has(m: Mask, i: nat) {
    i < WIDTH && m[i]
  }

  /** The test as the code writes it, `1<<uint(i)&m != 0`. */
  lemma HasIsBitTest(m: Mask, i: nat)
    ensures Has(m, i) <==> And(ShiftLeft(ONE, i), m) != ZERO
  {
    var a := And(ShiftLeft(ONE, i), m);
    if i < WIDTH && m[i] {
      assert a[i] && !ZERO[i];
    } else {
      assert a == ZERO;
    }
  }

  /** The number that the bits stand for. */
  function Value(m: seq<bool>): nat {
    if m == [] then 0 else (if m[0] then 1 else 0) + 2 * Value(m[1..])
  }

  lemma {:induction false} ValueInjective(a: seq<bool>, b: seq<bool>)
    requires |a| == |b| && Value(a) == Value(b)
    ensures a == b
  {
    if a != [] {
      ValueInjective(a[1..], b[1..]);
      assert a == [a[0]] + a[1..] && b == [b[0]] + b[1..];
    }
  }

  lemma {:induction false} Power2Sum(m: nat, n: nat)
    ensures Power2(m + n) == Power2(m) * Power2(n)
  {
    if m > 0 { Power2Sum(m - 1, n); }
  }

  lemma Power2Of32()
    ensures Power2(32) == 0x1_0000_0000
  {
    assert Power2(8) == 256;
    Power2Sum(8, 8);
    Power2Sum(16, 16);
  }

  /** A run of ones from bit a up to bit b is 2^(b+1) - 2^a. */
  lemma {:induction false} ValueOfRun(m: seq<bool>, a: nat, b: int)
    requires a <= b + 1 && b < |m|
    requires forall i :: 0 <= i < |m| ==> (m[i] <==> a <= i <= b)
    ensures Value(m) == Power2(b + 1) - Power2(a)
    decreases |m|
  {
    if m != [] {
      if b < 0 {
        ValueOfRun(m[1..], 0, -1);
      } else if a == 0 {
        ValueOfRun(m[1..], 0, b - 1);
      } else {
        ValueOfRun(m[1..], a - 1, b - 1);
      }
    }
  }
}
