/** The demotion backoff: a 64-bit shift whose overflow is caught by a sign and a cap. */
module ControlBackoff {

  /** Durations in nanoseconds. */
  const BASE: int := 300_000_000_000
  const MAX: int := 21_600_000_000_000
  const TWO63: int := 0x8000_0000_0000_0000
  const TWO64: int := 0x1_0000_0000_0000_0000

  function Power2(n: nat): (p: nat)
    ensures 0 < p
  {
    if n == 0 then 1 else 2 * Power2(n - 1)
  }

  /** The int64 that the low 64 bits of `v` stand for. */
  function Int64(v: int): (r: int)
    ensures -TWO63 <= r < TWO63
  {
    var low := v % TWO64;
    if low < TWO63 then low else low - TWO64
  }

  /** Go's `base << n` on a 64-bit duration: bits shifted past the top are lost, all of them from 64 on. */
  function ShiftBase(n: nat): (r: int)
  {
    Int64(BASE * Power2(n))
  }

  /** The backoff of the given strike: the shift with its two guards. */
  function Backoff(strikes: nat): (d: int)
    requires 0 < strikes
  {
    var shifted := ShiftBase(strikes - 1);
    if shifted > MAX || shifted <= 0 then MAX else shifted
  }

  /** The promised backoff: five minutes doubling to six hours. */
  function Promised(strikes: nat): (d: int)
    requires 0 < strikes
  {
    var doubled := BASE * Power2(strikes - 1);
    if doubled <= MAX then doubled else MAX
  }

  lemma {:induction false} Power2Add(a: nat, b: nat)
    ensures Power2(a + b) == Power2(a) * Power2(b)
  {
    if a > 0 {
      Power2Add(a - 1, b);
      assert Power2(a + b) == 2 * (Power2(a - 1) * Power2(b));
    }
  }

  lemma Power2Values()
    ensures Power2(8) == 0x100 && Power2(11) == 0x800 && Power2(16) == 0x1_0000 && Power2(24) == 0x100_0000
            && Power2(34) == 0x4_0000_0000
  {
    assert Power2(4) == 16;
    Power2Add(4, 4);
    Power2Add(8, 3);
    Power2Add(8, 8);
    Power2Add(16, 8);
    Power2Add(24, 10);
    Power2Add(8, 2);
  }

  lemma {:induction false} Power2Grows(m: nat, n: nat)
    requires m <= n
    ensures Power2(m) <= Power2(n)
  {
    if m < n { Power2Grows(m, n - 1); }
  }

  /** The base is 2^11 times an odd number, so from the 34th shift on only multiples of 2^45 are left. */
  lemma LargeShift(n: nat)
    requires 34 <= n
    ensures BASE * Power2(n) % TWO64 % 0x2000_0000_0000 == 0
  {
    Power2Values();
    Power2Add(34, n - 34);
    var m := 146_484_375 * Power2(n - 34);
    assert BASE * 0x4_0000_0000 == 146_484_375 * 0x2000_0000_0000;
    assert BASE * Power2(n) == 0x2000_0000_0000 * m;
    ModOfMultiple(m);
  }

  lemma ModOfMultiple(m: nat)
    ensures 0x2000_0000_0000 * m % TWO64 % 0x2000_0000_0000 == 0
  {
    var q := m / 0x8_0000;
    var r := m % 0x8_0000;
    assert 0x2000_0000_0000 * m == TWO64 * q + 0x2000_0000_0000 * r;
    assert (TWO64 * q + 0x2000_0000_0000 * r) % TWO64 == 0x2000_0000_0000 * r;
  }

  /** What is left of a large shift is zero, negative or beyond the cap. */
  lemma LargeBackoff(strikes: nat)
    requires 35 <= strikes
    ensures Backoff(strikes) == MAX
  {
    LargeShift(strikes - 1);
    var low := BASE * Power2(strikes - 1) % TWO64;
    assert low % 0x2000_0000_0000 == 0 && (low == 0 || 0x2000_0000_0000 <= low);
  }

  lemma MiddlePowers(n: nat)
    requires 25 <= n <= 33
    ensures Power2(n) == 0x200_0000 * Power2(n - 25)
    ensures Power2(n - 25) == match n - 25
                              case 0 => 1 case 1 => 2 case 2 => 4 case 3 => 8 case 4 => 16
                              case 5 => 32 case 6 => 64 case 7 => 128 case _ => 256
  {
    Power2Values();
    assert Power2(25) == 0x200_0000;
    Power2Add(25, n - 25);
    assert Power2(4) == 16 && Power2(5) == 32 && Power2(6) == 64 && Power2(7) == 128;
  }

  /** Between the first overflow and the 34th shift every wrapped value is negative or beyond the cap. */
  lemma MiddleBackoff(strikes: nat)
    requires 26 <= strikes <= 34
    ensures Backoff(strikes) == MAX
  {
    var n := strikes - 1;
    MiddlePowers(n);
    WrappedMiddle(n, Power2(n));
  }

  lemma WrappedMiddle(n: nat, p: nat)
    requires 25 <= n <= 33 && p == 0x200_0000 * match n - 25
                                                case 0 => 1 case 1 => 2 case 2 => 4 case 3 => 8 case 4 => 16
                                                case 5 => 32 case 6 => 64 case 7 => 128 case _ => 256
    ensures var low := BASE * p % TWO64; MAX < low < TWO63 || TWO63 <= low
  {
    if n == 25 { assert BASE * 33554432 % TWO64 == 10066329600000000000; }
    if n == 26 { assert BASE * 67108864 % TWO64 == 1685915126290448384; }
    if n == 27 { assert BASE * 134217728 % TWO64 == 3371830252580896768; }
    if n == 28 { assert BASE * 268435456 % TWO64 == 6743660505161793536; }
    if n == 29 { assert BASE * 536870912 % TWO64 == 13487321010323587072; }
    if n == 30 { assert BASE * 1073741824 % TWO64 == 8527897946937622528; }
    if n == 31 { assert BASE * 2147483648 % TWO64 == 17055795893875245056; }
    if n == 32 { assert BASE * 4294967296 % TWO64 == 15664847714040938496; }
    if n == 33 { assert BASE * 8589934592 % TWO64 == 12882951354372325376; }
  }

  /** Up to the 25th strike nothing overflows. */
  lemma SmallBackoff(strikes: nat)
    requires 1 <= strikes <= 25
    ensures Backoff(strikes) == Promised(strikes)
  {
    Power2Values();
    Power2Grows(strikes - 1, 24);
    var v := BASE * Power2(strikes - 1);
    assert 0 < v < TWO63;
  }

  /** For every strike count, the shift with its guards is the promised backoff. */
  lemma BackoffIsPromised(strikes: nat)
    requires 0 < strikes
    ensures Backoff(strikes) == Promised(strikes)
    ensures BASE <= Backoff(strikes) <= MAX
  {
    if strikes <= 25 {
      SmallBackoff(strikes);
    } else {
      if strikes <= 34 { MiddleBackoff(strikes); } else { LargeBackoff(strikes); }
      Power2Values();
      Power2Grows(8, strikes - 1);
    }
  }
}
