/** The Internet checksum: the loop over a 32-bit accumulator against the one's complement sum of
    section 1 of RFC 1071, with the exact length up to which they agree. */
module Checksum {
  import opened Bytes

  const WRAP: int := 0x1_0000_0000

  // ---------------------------------------------------------------------------
  // The reference
  // ---------------------------------------------------------------------------

  function Word(hi: byte, lo: byte): (w: int)
    ensures 0 <= w < 65536
  {
    hi as int * 256 + lo
  }

  /** The first 16-bit word; an odd last byte is padded with zero. */
  function FirstWord(d: seq<byte>): int
    requires d != []
  {
    if |d| == 1 then Word(d[0], 0) else Word(d[0], d[1])
  }

  function Rest(d: seq<byte>): seq<byte>
    requires d != []
  {
    if |d| == 1 then [] else d[2..]
  }

  /** One's complement addition: a carry out of 16 bits is added back in at the low end. */
  function OnesAdd(a: int, b: int): int {
    if a + b < 65536 then a + b else a + b - 65535
  }

  function OnesSum(d: seq<byte>): int
    decreases |d|
  {
    if d == [] then 0 else OnesAdd(FirstWord(d), OnesSum(Rest(d)))
  }

  /** The checksum of section 1 of RFC 1071: the complement of the one's complement sum. */
  function Rfc1071(d: seq<byte>): int {
    65535 - OnesSum(d)
  }

  // ---------------------------------------------------------------------------
  // Plain sums and folding
  // ---------------------------------------------------------------------------

  function WordSum(d: seq<byte>): nat
    decreases |d|
  {
    if d == [] then 0 else FirstWord(d) + WordSum(Rest(d))
  }

  /** The 16-bit number that adding carries back in leads to: the same value modulo 65535, and
      zero only for zero. */
  function Fold(n: nat): int {
    if n == 0 then 0 else 1 + (n - 1) % 65535
  }

  /** What the 32-bit accumulator makes of it. */
  function Code(d: seq<byte>): int {
    65535 - Fold(WordSum(d) % WRAP)
  }

  lemma {:induction false} OnesSumIsFold(d: seq<byte>)
    ensures OnesSum(d) == Fold(WordSum(d))
    decreases |d|
  {
    if d != [] {
      OnesSumIsFold(Rest(d));
      FoldAdd(FirstWord(d), WordSum(Rest(d)));
    }
  }

  lemma FoldAdd(w: nat, n: nat)
    requires w < 65536
    ensures OnesAdd(w, Fold(n)) == Fold(w + n)
  {
    if n > 0 && w > 0 {
      var q := (n - 1) / 65535;
      assert n - 1 == 65535 * q + (Fold(n) - 1);
      if w + Fold(n) < 65536 {
        FoldIs(w + n, q, w + Fold(n));
      } else {
        FoldIs(w + n, q + 1, w + Fold(n) - 65535);
      }
    }
  }

  lemma FoldIs(n: nat, q: nat, r: int)
    requires n == 65535 * q + r && 1 <= r <= 65535
    ensures Fold(n) == r
  {
    ModIs(n - 1, q, 65535, r - 1);
  }

  lemma ModIs(n: int, q: int, m: int, r: int)
    requires m > 0 && n == m * q + r && 0 <= r < m
    ensures n % m == r
  {
    var k := n / m - q;
    assert n == m * (n / m) + n % m;
    assert m * k == m * (n / m) - m * q == r - n % m;
    if k >= 1 { MulAtLeast(m, k); }
    if k <= -1 { MulAtLeast(m, -k); }
  }

  lemma MulAtLeast(m: int, k: int)
    requires m > 0 && k >= 1
    ensures m * k >= m
  {}

  /** One turn of the carry loop keeps the folded value and makes the number smaller. */
  lemma CarryStep(n: nat)
    requires n >= 65536
    ensures Fold(n % 65536 + n / 65536) == Fold(n) && n % 65536 + n / 65536 < n
  {
    var q, r := n / 65536, n % 65536;
    var m := q + r;
    assert n == m + 65535 * q && m > 0;
    var p := (m - 1) / 65535;
    assert m == 65535 * p + Fold(m);
    FoldIs(n, p + q, Fold(m));
  }

  /** The first loop: the words added up in a 32-bit accumulator. */
  method SumWords(data: seq<byte>) returns (sum: nat)
    ensures sum == WordSum(data) % WRAP
  {
    sum := 0;
    var i := 0;
    ghost var laps: nat := 0;
    while i < |data|
      invariant 0 <= i && sum < WRAP
      invariant WRAP * laps + sum + WordSum(From(data, i)) == WordSum(data)
    {
      var w := if i + 1 < |data| then Word(data[i], data[i + 1]) else Word(data[i], 0);
      assert w == FirstWord(From(data, i)) && Rest(From(data, i)) == From(data, i + 2);
      ghost var lap := if sum + w < WRAP then 0 else 1;
      ModIs(sum + w, lap, WRAP, sum + w - WRAP * lap);
      laps := laps + lap;
      sum := (sum + w) % WRAP;
      i := i + 2;
    }
    ModIs(WordSum(data), laps, WRAP, sum);
  }

  /** The second loop: carries added back until the number fits in 16 bits. */
  method FoldCarries(total: nat) returns (sum: nat)
    ensures sum == Fold(total)
  {
    sum := total;
    while sum / 65536 > 0
      invariant Fold(sum) == Fold(total)
      decreases sum
    {
      CarryStep(sum);
      sum := sum % 65536 + sum / 65536;
    }
  }

  /** The checksum as the code computes it, over any data. */
  method CalculateChecksum(data: seq<byte>) returns (c: int)
    ensures c == Code(data)
  {
    var sum := SumWords(data);
    sum := FoldCarries(sum);
    c := 65535 - sum;
  }

  function From(d: seq<byte>, i: nat): seq<byte> {
    if i < |d| then d[i..] else []
  }

  // ---------------------------------------------------------------------------
  // The exact bound
  // ---------------------------------------------------------------------------

  lemma {:induction false} WordSumBound(d: seq<byte>)
    ensures WordSum(d) <= 65535 * ((|d| + 1) / 2)
    decreases |d|
  {
    if d != [] { WordSumBound(Rest(d)); }
  }

  /** Up to 131074 bytes the 32-bit sum cannot wrap, so the code computes the standard checksum. */
  lemma NoWrap(d: seq<byte>)
    requires |d| <= 131074
    ensures WordSum(d) < WRAP && Code(d) == Rfc1071(d)
  {
    WordSumBound(d);
    assert (|d| + 1) / 2 <= 65537;
    OnesSumIsFold(d);
    ModIs(WordSum(d), 0, WRAP, WordSum(d));
  }

  /** For one piece of data: the code is right exactly when the sum did not wrap, or wrapped a
      multiple of 65535 times and did not land on zero. */
  lemma WrapExact(d: seq<byte>)
    ensures Code(d) == Rfc1071(d)
       <==> WordSum(d) < WRAP || (WordSum(d) / WRAP % 65535 == 0 && WordSum(d) % WRAP != 0)
  {
    OnesSumIsFold(d);
    var s := WordSum(d);
    var k, r := s / WRAP, s % WRAP;
    assert s == WRAP * k + r;
    if k > 0 && r > 0 {
      FoldsAgree(s, r, k);
    }
  }

  lemma FoldsAgree(s: nat, r: nat, k: nat)
    requires s == WRAP * k + r && r > 0
    ensures Fold(s) == Fold(r) <==> k % 65535 == 0
  {
    // WRAP is one more than a multiple of 65535
    assert WRAP == 65535 * 65537 + 1;
    var a, b := (r - 1) / 65535, k / 65535;
    var e := k % 65535;
    assert r == 65535 * a + Fold(r) && k == 65535 * b + e;
    assert s == 65535 * (65537 * k + a + b) + (Fold(r) + e);
    if Fold(r) + e <= 65535 {
      FoldIs(s, 65537 * k + a + b, Fold(r) + e);
    } else {
      FoldIs(s, 65537 * k + a + b + 1, Fold(r) + e - 65535);
    }
  }

  function Repeat(b: byte, n: nat): seq<byte> {
    seq(n, _ => b)
  }

  lemma {:induction false} WordSumAppend(a: seq<byte>, b: seq<byte>)
    requires |a| % 2 == 0
    ensures WordSum(a + b) == WordSum(a) + WordSum(b)
    decreases |a|
  {
    if a == [] {
      assert a + b == b;
    } else {
      assert FirstWord(a + b) == FirstWord(a) && Rest(a + b) == Rest(a) + b;
      WordSumAppend(Rest(a), b);
    }
  }

  lemma {:induction false} WordSumRepeat(b: byte, n: nat)
    ensures WordSum(Repeat(b, 2 * n)) == n * (257 * b)
    decreases n
  {
    if n > 0 {
      var d := Repeat(b, 2 * n);
      assert Rest(d) == Repeat(b, 2 * (n - 1));
      WordSumRepeat(b, n - 1);
      assert WordSum(d) == 257 * b + (n - 1) * (257 * b);
      assert n * (257 * b) == 257 * b + (n - 1) * (257 * b);
    }
  }

  lemma {:induction false} WordSumZeros(n: nat)
    ensures WordSum(Repeat(0, n)) == 0
    decreases n
  {
    if n >= 2 {
      assert Rest(Repeat(0, n)) == Repeat(0, n - 2);
      WordSumZeros(n - 2);
    } else if n == 1 {
      assert Rest(Repeat(0, 1)) == [];
    }
  }

  /** Data of any length beyond the bound whose word sum is exactly 2^32. */
  function Wrapping(n: nat): seq<byte>
    requires n >= 131075
  {
    Repeat(255, 131072) + ([255, 0] + ([1] + Repeat(0, n - 131075)))
  }

  lemma OneAndZeros(n: nat)
    ensures WordSum([1] + Repeat(0, n)) == 256
  {
    var one := [1] + Repeat(0, n);
    if n == 0 {
      assert one == [1];
    } else {
      assert one[1] == 0 && Rest(one) == Repeat(0, n - 1);
      WordSumZeros(n - 1);
    }
  }

  lemma WrappingSum(n: nat)
    requires n >= 131075
    ensures |Wrapping(n)| == n && WordSum(Wrapping(n)) == WRAP
  {
    var ones, tail := Repeat(255, 131072), [1] + Repeat(0, n - 131075);
    WordSumRepeat(255, 65536);
    WordSumAppend(ones, [255, 0] + tail);
    WordSumAppend([255, 0], tail);
    OneAndZeros(n - 131075);
    assert WordSum([255, 0]) == 65280 by { assert Rest([255, 0]) == []; }
  }

  /** The bound is exact: 131074 is the largest length at which the code is right for all data. */
  lemma ExactBound(n: nat)
    ensures (forall d: seq<byte> :: |d| == n ==> Code(d) == Rfc1071(d)) <==> n <= 131074
  {
    if n <= 131074 {
      forall d: seq<byte> | |d| == n ensures Code(d) == Rfc1071(d) { NoWrap(d); }
    } else {
      var d := Wrapping(n);
      WrappingSum(n);
      WrapExact(d);
      assert Code(d) != Rfc1071(d);
    }
  }

  // ---------------------------------------------------------------------------
  // Storing the checksum
  // ---------------------------------------------------------------------------

  /** The data with a 16-bit number written at an aligned position. */
  function Store(d: seq<byte>, at: nat, w: int): seq<byte>
    requires at + 1 < |d| && 0 <= w < 65536
  {
    d[at := w / 256][at + 1 := w % 256]
  }

  lemma {:induction false} StoreSum(d: seq<byte>, at: nat, w: int)
    requires at % 2 == 0 && at + 1 < |d| && 0 <= w < 65536 && d[at] == d[at + 1] == 0
    ensures WordSum(Store(d, at, w)) == WordSum(d) + w
    decreases |d|
  {
    var s := Store(d, at, w);
    if at == 0 {
      assert Rest(s) == Rest(d);
    } else {
      assert FirstWord(s) == FirstWord(d);
      assert Rest(s) == Store(Rest(d), at - 2, w);
      StoreSum(Rest(d), at - 2, w);
    }
  }

  /** Which 16-bit numbers complete a sum to all ones. */
  lemma FoldComplement(s: nat, w: nat)
    requires w < 65536
    ensures Fold(s + w) == 65535 <==> w == 65535 - Fold(s) || (Fold(s) == 65535 && w == 65535)
  {
    var f := Fold(s);
    if s == 0 {
      if w > 0 { FoldIs(w, 0, w); }
    } else {
      var q := (s - 1) / 65535;
      assert s == 65535 * q + f;
      if f + w <= 65535 {
        FoldIs(s + w, q, f + w);
      } else {
        FoldIs(s + w, q + 1, f + w - 65535);
      }
    }
  }

  /** Adding a word in the 32-bit accumulator: if it wraps, nothing near all ones is left. */
  lemma WrappedSum(s: nat, w: nat)
    requires w < 65536
    ensures var r := s % WRAP;
      (s + w) % WRAP == if r + w < WRAP then r + w else r + w - WRAP
    ensures s % WRAP + w >= WRAP ==> Fold((s + w) % WRAP) < 65535
  {
    var r, k := s % WRAP, s / WRAP;
    assert s == WRAP * k + r;
    if r + w < WRAP {
      ModIs(s + w, k, WRAP, r + w);
    } else {
      ModIs(s + w, k + 1, WRAP, r + w - WRAP);
      if r + w > WRAP { FoldIs(r + w - WRAP, 0, r + w - WRAP); }
    }
  }

  /** Completing a sum to all ones cannot wrap the accumulator, since 2^32 - 1 is a multiple of
      65535. */
  lemma ComplementFits(r: nat)
    requires r < WRAP
    ensures r + (65535 - Fold(r)) < WRAP
    ensures Fold(r) == 65535 ==> (r + 65535 < WRAP <==> r != WRAP - 1)
  {
    assert WRAP == 65535 * 65537 + 1;
    if r > 0 {
      var q := (r - 1) / 65535;
      assert r == 65535 * q + Fold(r);
      assert q <= 65536;
    }
  }

  /** Which numbers, stored in a zeroed aligned field, make the checksum of the whole zero, at any
      length: the checksum itself, and all ones in place of zero unless that wraps; nothing else. */
  lemma StoreVerifies(d: seq<byte>, at: nat, w: int)
    requires at % 2 == 0 && at + 1 < |d| && 0 <= w < 65536 && d[at] == d[at + 1] == 0
    ensures Code(Store(d, at, w)) == 0
       <==> w == Code(d) || (Code(d) == 0 && w == 65535 && WordSum(d) % WRAP != WRAP - 1)
  {
    hide Fold, WordSum, Store;
    StoreSum(d, at, w);
    var s := WordSum(d);
    WrappedSum(s, w);
    ComplementFits(s % WRAP);
    FoldComplement(s % WRAP, w);
  }
}
