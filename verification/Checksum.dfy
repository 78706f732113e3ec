/** The Internet checksum (RFC 1071) as computed by `checksumAdd` and `checksumFinish`. */
module Checksum {
  import opened Bytes

  const WORD: int := 0x1_0000
  const ONES: int := 0xffff

  /** The exact sum of the big-endian words of `b`, an odd last byte being a high byte. */
  function Words(b: seq<byte>): (n: nat)
  {
    if |b| == 0 then 0
    else if |b| == 1 then b[0] as int * 0x100
    else U16(b, 0) + Words(b[2..])
  }

  /** The end-around-carry fold. */
  function Fold(sum: nat): (r: nat)
    ensures r <= ONES
    ensures r == if sum == 0 then 0 else if sum % ONES == 0 then ONES else sum % ONES
  {
    if sum <= ONES then sum
    else
      FoldStep(sum);
      Fold(sum % WORD + sum / WORD)
  }

  lemma FoldStep(sum: nat)
    requires ONES < sum
    ensures 0 < sum % WORD + sum / WORD < sum
    ensures (sum % WORD + sum / WORD) % ONES == sum % ONES
  {
    var low, high := sum % WORD, sum / WORD;
    assert sum == (low + high) + high * ONES;
    ModPlusMultiple(low + high, high);
  }

  lemma ModPlusMultiple(a: nat, k: nat)
    ensures (a + k * ONES) % ONES == a % ONES
  {
    var q, r := a / ONES, a % ONES;
    assert a + k * ONES == (q + k) * ONES + r;
  }

  function Finish(sum: nat): (r: uint16)
  {
    ONES - Fold(sum)
  }

  /** The 32-bit accumulator of the source wraps; the exact sum is `Words`. */
  method ChecksumAdd(sum: uint32, b: seq<byte>) returns (r: uint32)
    ensures r == (sum + Words(b)) % 0x1_0000_0000
  {
    r := sum;
    ghost var exact: nat := sum;
    var i := 0;
    while i + 1 < |b|
      invariant 0 <= i <= |b|
      invariant r == exact % 0x1_0000_0000
      invariant exact + Words(b[i..]) == sum + Words(b)
    {
      assert b[i..][2..] == b[i + 2..];
      WrapAdd(exact, U16(b, i));
      r, exact := (r + U16(b, i)) % 0x1_0000_0000, exact + U16(b, i);
      i := i + 2;
    }
    if i < |b| {
      WrapAdd(exact, b[i] as int * 0x100);
      r := (r + b[i] as int * 0x100) % 0x1_0000_0000;
    }
  }

  lemma WrapAdd(a: nat, b: nat)
    ensures (a % 0x1_0000_0000 + b) % 0x1_0000_0000 == (a + b) % 0x1_0000_0000
  {
  }

  method ChecksumFinish(sum: uint32) returns (r: uint16)
    ensures r == Finish(sum)
  {
    var s := sum;
    while 0xffff < s
      invariant Fold(s) == Fold(sum)
      decreases s
    {
      FoldStep(s);
      s := s % 0x1_0000 + s / 0x1_0000;
    }
    r := 0xffff - s;
  }

  lemma {:induction false} WordsBound(b: seq<byte>)
    ensures Words(b) <= (|b| + 1) / 2 * ONES
  {
    if |b| >= 2 { WordsBound(b[2..]); }
  }

  /** The accumulator is exact on every buffer an IP packet can hold, pseudo header included. */
  lemma AccumulatorIsExact(pseudo: nat, b: seq<byte>)
    requires |b| <= 0xffff && pseudo <= 16 * ONES + 0xff + 0xffff
    ensures pseudo + Words(b) < 0x1_0000_0000
  {
    WordsBound(b);
  }

  lemma {:induction false} WordsConcat(a: seq<byte>, b: seq<byte>)
    requires |a| % 2 == 0
    ensures Words(a + b) == Words(a) + Words(b)
  {
    if |a| == 0 {
      assert a + b == b;
    } else {
      WordsConcat(a[2..], b);
      assert (a + b)[2..] == a[2..] + b;
    }
  }

  /** Storing a word at an even index changes the sum by exactly the difference. */
  lemma WordsStore(b: seq<byte>, at: nat, word: seq<byte>)
    requires at % 2 == 0 && at + 2 <= |b| && |word| == 2
    ensures Words(Overwrite(b, at, word)) == Words(b) - U16(b, at) + U16(word, 0)
  {
    var r := Overwrite(b, at, word);
    assert r[..at] == b[..at] && r[at..at + 2] == word && r[at + 2..] == b[at + 2..];
    WordsAt(b, at);
    WordsAt(r, at);
  }

  lemma WordsAt(b: seq<byte>, at: nat)
    requires at % 2 == 0 && at + 2 <= |b|
    ensures Words(b) == Words(b[..at]) + U16(b, at) + Words(b[at + 2..])
  {
    assert b == b[..at] + b[at..];
    WordsConcat(b[..at], b[at..]);
    assert b[at..][2..] == b[at + 2..];
  }

  /** A block whose sum plus `pseudo` folds to all ones passes the receiver's test. */
  predicate Verifies(pseudo: nat, b: seq<byte>)
  {
    Finish(pseudo + Words(b)) == 0
  }

  /** `b` with the checksum of `pseudo` and `b` stored at `at`. */
  function Sealed(pseudo: nat, b: seq<byte>, at: nat): (r: seq<byte>)
    requires at + 2 <= |b|
  {
    Overwrite(b, at, Be16(Finish(pseudo + Words(Overwrite(b, at, Be16(0))))))
  }

  /** UDP never sends a zero checksum: zero is replaced by all ones. */
  function SealedUdp(pseudo: nat, b: seq<byte>, at: nat): (r: seq<byte>)
    requires at + 2 <= |b|
  {
    var sum := Finish(pseudo + Words(Overwrite(b, at, Be16(0))));
    Overwrite(b, at, Be16(if sum == 0 then 0xffff else sum))
  }

  lemma SealedVerifies(pseudo: nat, b: seq<byte>, at: nat)
    requires at % 2 == 0 && at + 2 <= |b|
    ensures Verifies(pseudo, Sealed(pseudo, b, at))
    ensures Verifies(pseudo, SealedUdp(pseudo, b, at))
    ensures U16(SealedUdp(pseudo, b, at)[at..at + 2], 0) != 0
  {
    var s := pseudo + Words(Overwrite(b, at, Be16(0)));
    var u: uint16 := if Finish(s) == 0 then 0xffff else Finish(s);
    FoldOfComplement(s);
    StoredWord(b, at, Be16(Finish(s)));
    StoredWord(b, at, Be16(u));
    assert SealedUdp(pseudo, b, at)[at..at + 2] == Be16(u);
  }

  lemma StoredWord(b: seq<byte>, at: nat, word: seq<byte>)
    requires at % 2 == 0 && at + 2 <= |b| && |word| == 2
    ensures Words(Overwrite(b, at, word)) == Words(Overwrite(b, at, Be16(0))) + U16(word, 0)
  {
    WordsStore(b, at, word);
    WordsStore(b, at, Be16(0));
  }

  lemma FoldOfComplement(s: nat)
    ensures Finish(s + Finish(s)) == 0
    ensures Finish(s) == 0 ==> Finish(s + ONES) == 0
  {
    var k := s / ONES;
    if s == 0 {
    } else if s % ONES == 0 {
      assert s == k * ONES;
      assert s + ONES == (k + 1) * ONES;
      ModPlusMultiple(0, k + 1);
    } else {
      assert s + Finish(s) == k * ONES + ONES == (k + 1) * ONES;
      ModPlusMultiple(0, k + 1);
    }
  }

  /** Only the stored value passes, in one of the two encodings of zero where there are two. */
  lemma VerifiesOnlySealed(pseudo: nat, b: seq<byte>, at: nat)
    requires at % 2 == 0 && at + 2 <= |b| && Verifies(pseudo, b)
    ensures b == Sealed(pseudo, b, at) || b == SealedUdp(pseudo, b, at)
  {
    var word := b[at..at + 2];
    assert Overwrite(b, at, word) == b;
    StoredWord(b, at, word);
    OnlyComplement(pseudo + Words(Overwrite(b, at, Be16(0))), U16(word, 0));
    assert Be16(U16(word, 0)) == word;
  }

  lemma OnlyComplement(s: nat, v: uint16)
    requires Finish(s + v) == 0
    ensures v == Finish(s) || (v == ONES && Finish(s) == 0)
  {
    var k, r := s / ONES, s % ONES;
    assert s + v == r + v + k * ONES;
    ModPlusMultiple(r + v, k);
    if s + v != 0 { SmallMultiple(r + v); }
  }

  /** Below three times the modulus, a multiple of it is none, one or two of it. */
  lemma SmallMultiple(n: nat)
    requires n % ONES == 0 && n < 3 * ONES
    ensures n == 0 || n == ONES || n == 2 * ONES
  {
  }
}
