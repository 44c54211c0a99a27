/** LEB128 operands (section 7.6 of DWARF 5) as the bind interpreter reads them. */
module Uleb {
  import opened Memory
  import opened ChainFormat

  // ---------- Reading ----------

  /** The sum of the seven-bit groups from `p`, up to the first byte without a continuation bit. */
  function UlebSum(f: seq<byte>, p: nat, end: nat): nat
    decreases end - p
  {
    if p >= end then 0
    else At(f, p) % 0x80 + if At(f, p) < 0x80 then 0 else 0x80 * UlebSum(f, p + 1, end)
  }

  /** Where reading stops: after the first byte without a continuation bit, or at `end`. */
  function UlebEnd(f: seq<byte>, p: nat, end: nat): (q: nat)
    ensures p <= q && (p <= end ==> q <= end) && (p < end ==> p < q)
    decreases end - p
  {
    if p >= end then p else if At(f, p) < 0x80 then p + 1 else UlebEnd(f, p + 1, end)
  }

  function UlebValue(f: seq<byte>, p: nat, end: nat): u64 {
    Wrap64(UlebSum(f, p, end))
  }

  lemma WrapAdd(a: int, b: int)
    ensures Wrap64(Wrap64(a) + b) == Wrap64(a + b)
  {
    var q := a / 0x1_0000_0000_0000_0000;
    Divides(a + b, 0x1_0000_0000_0000_0000,
            (Wrap64(a) + b) / 0x1_0000_0000_0000_0000 + q, Wrap64(Wrap64(a) + b));
  }

  /** A seven-bit group shifted left by the bit whose weight is `weight`. */
  function Shifted(group: nat, weight: nat): nat {
    group * weight
  }

  lemma ShiftSum(low: nat, high: nat, weight: nat)
    ensures Shifted(low + 0x80 * high, weight) == Shifted(low, weight) + Shifted(high, 0x80 * weight)
  {
  }

  /** The reader of bind.c. Its `|=` joins bits that do not overlap, so it is written as a sum;
      bits shifted past the top of the 64-bit result are lost, here by `Wrap64`. */
  method ReadUleb128(f: seq<byte>, start: nat, end: nat) returns (result: u64, p: nat)
    ensures result == UlebValue(f, start, end)
    ensures p == UlebEnd(f, start, end)
  {
    hide Wrap64, At;
    p := start;
    result := 0;
    var weight: nat := 1;
    ghost var sum: nat := 0;
    NoShift(0);
    while p < end
      invariant start <= p
      invariant result == Wrap64(sum)
      invariant UlebSum(f, start, end) == sum + Shifted(UlebSum(f, p, end), weight)
      invariant UlebEnd(f, start, end) == UlebEnd(f, p, end)
    {
      hide Shifted;
      var b := At(f, p);
      ghost var rest := if b < 0x80 then 0 else UlebSum(f, p + 1, end);
      ShiftSum(b % 0x80, rest, weight);
      WrapAdd(sum, Shifted(b % 0x80, weight));
      p := p + 1;
      result := Wrap64(result + Shifted(b % 0x80, weight));
      sum := sum + Shifted(b % 0x80, weight);
      if b < 0x80 {
        NothingShifted(0x80 * weight);
        break;
      }
      weight := 0x80 * weight;
    }
    NothingShifted(weight);
  }

  lemma NothingShifted(weight: nat)
    ensures Shifted(0, weight) == 0
  {
  }

  lemma NoShift(off: u64)
    ensures Wrap64(off) == off
  {
  }

  /** Reading that stops at or before `mid` does not depend on what the end is. */
  lemma {:induction false} UlebNarrow(f: seq<byte>, p: nat, mid: nat, end: nat)
    requires mid <= end && UlebEnd(f, p, end) <= mid
    ensures UlebEnd(f, p, mid) == UlebEnd(f, p, end)
    ensures UlebSum(f, p, mid) == UlebSum(f, p, end)
    decreases end - p
  {
    if p < end && At(f, p) >= 0x80 {
      UlebNarrow(f, p + 1, mid, end);
    }
  }

  /** Truncated input: if every byte asks for more, the cursor stops at the end. */
  lemma {:induction false} UlebTruncated(f: seq<byte>, p: nat, end: nat)
    requires p <= end && forall i :: p <= i < end ==> At(f, i) >= 0x80
    ensures UlebEnd(f, p, end) == end
    decreases end - p
  {
    if p < end {
      UlebTruncated(f, p + 1, end);
    }
  }

  // ---------- Encodings ----------

  /** All bytes but the last, and only those, have the continuation bit. */
  predicate Terminated(bs: seq<byte>) {
    bs != [] && bs[|bs| - 1] < 0x80 && forall k :: 0 <= k < |bs| - 1 ==> bs[k] >= 0x80
  }

  function UlebNumber(bs: seq<byte>): nat {
    if bs == [] then 0 else bs[0] % 0x80 + 0x80 * UlebNumber(bs[1..])
  }

  /** Any terminated operand, whatever follows it, is read in full and gives its number. */
  lemma {:induction false} UlebReads(f: seq<byte>, p: nat, end: nat, bs: seq<byte>)
    requires Terminated(bs) && p + |bs| <= end && p + |bs| <= |f|
    requires f[p..p + |bs|] == bs
    ensures UlebEnd(f, p, end) == p + |bs|
    ensures UlebSum(f, p, end) == UlebNumber(bs)
    decreases |bs|
  {
    assert f[p] == bs[0];
    if |bs| > 1 {
      assert f[p + 1..p + 1 + |bs[1..]|] == bs[1..];
      UlebReads(f, p + 1, end, bs[1..]);
    } else {
      assert UlebNumber(bs[1..]) == 0;
    }
  }

  function Pow128(k: nat): nat {
    if k == 0 then 1 else 0x80 * Pow128(k - 1)
  }

  /** The shortest encoding. */
  function EncodeUleb(n: nat): seq<byte> {
    if n < 0x80 then [n] else [n % 0x80 + 0x80] + EncodeUleb(n / 0x80)
  }

  /** The encoding in exactly `k` bytes, padded with empty groups. */
  function PaddedUleb(n: nat, k: nat): seq<byte>
    requires 0 < k && n < Pow128(k)
  {
    if k == 1 then [n] else [n % 0x80 + 0x80] + PaddedUleb(n / 0x80, k - 1)
  }

  lemma {:induction false} PaddedIsUleb(n: nat, k: nat)
    requires 0 < k && n < Pow128(k)
    ensures Terminated(PaddedUleb(n, k)) && UlebNumber(PaddedUleb(n, k)) == n && |PaddedUleb(n, k)| == k
    decreases k
  {
    if k > 1 {
      PaddedIsUleb(n / 0x80, k - 1);
    }
  }

  lemma {:induction false} EncodedIsUleb(n: nat, k: nat)
    requires 0 < k && n < Pow128(k)
    ensures Terminated(EncodeUleb(n)) && UlebNumber(EncodeUleb(n)) == n && |EncodeUleb(n)| <= k
    decreases k
  {
    if n >= 0x80 {
      EncodedIsUleb(n / 0x80, k - 1);
    }
  }

  lemma TenBytesSuffice(n: u64)
    ensures n < Pow128(10)
    ensures Terminated(EncodeUleb(n)) && UlebNumber(EncodeUleb(n)) == n && |EncodeUleb(n)| <= 10
  {
    EncodedIsUleb(n, 10);
  }

  /** The encodings a linker may emit: the shortest one, or one padded to at most ten bytes. */
  predicate Encodes(bs: seq<byte>, n: u64) {
    bs == EncodeUleb(n) || (0 < |bs| <= 10 && n < Pow128(|bs|) && bs == PaddedUleb(n, |bs|))
  }

  /** Round trip: every 64-bit number, in its shortest or a padded encoding and followed by anything,
      is read back, and the cursor stops right after it. */
  lemma UlebRoundTrip(f: seq<byte>, p: nat, end: nat, n: u64, bs: seq<byte>)
    requires Encodes(bs, n)
    requires p + |bs| <= end <= |f| && f[p..p + |bs|] == bs
    ensures UlebValue(f, p, end) == n && UlebEnd(f, p, end) == p + |bs|
  {
    hide Pow128, Terminated, UlebNumber, EncodeUleb, PaddedUleb, UlebSum, UlebEnd, Wrap64;
    NoShift(n);
    TenBytesSuffice(n);
    if bs != EncodeUleb(n) {
      PaddedIsUleb(n, |bs|);
    }
    UlebReads(f, p, end, bs);
  }

  // ---------- Signed operands ----------

  /** The SLEB128 encoding: stop when the rest is all sign. Division rounds down, as an arithmetic
      right shift does. */
  function EncodeSleb(n: int): seq<byte>
    decreases if n < 0 then -n else n
  {
    if -0x40 <= n < 0x40 then [n % 0x80] else [n % 0x80 + 0x80] + EncodeSleb(n / 0x80)
  }

  function SlebNumber(bs: seq<byte>): int
    requires bs != []
  {
    if |bs| == 1 then (if bs[0] % 0x80 < 0x40 then bs[0] % 0x80 else bs[0] % 0x80 - 0x80)
    else bs[0] % 0x80 + 0x80 * SlebNumber(bs[1..])
  }

  /** `EncodeSleb` is a signed encoding of `n`, and it is terminated as an unsigned one is. */
  lemma {:induction false} EncodedIsSleb(n: int, k: nat)
    requires 0 < k && FitsSleb(n, k)
    ensures Terminated(EncodeSleb(n)) && SlebNumber(EncodeSleb(n)) == n && |EncodeSleb(n)| <= k
    decreases k
  {
    hide Terminated, Pow128, FitsSleb;
    SlebGroups(n, k);
    if !(-0x40 <= n < 0x40) {
      var rest := EncodeSleb(n / 0x80);
      EncodedIsSleb(n / 0x80, k - 1);
      Continued(n % 0x80 + 0x80, rest);
      assert ([n % 0x80 + 0x80] + rest)[1..] == rest;
    } else {
      LastGroup(n % 0x80);
    }
  }

  /** `n` fits the 7k bits of a signed encoding of `k` bytes. */
  predicate FitsSleb(n: int, k: nat)
    requires 0 < k
  {
    -(0x40 * Pow128(k - 1)) <= n < 0x40 * Pow128(k - 1)
  }

  lemma SlebGroups(n: int, k: nat)
    requires 0 < k && FitsSleb(n, k)
    ensures -0x40 <= n < 0x40 || (1 < k && FitsSleb(n / 0x80, k - 1))
  {
    if k > 1 {
      assert Pow128(k - 1) == 0x80 * Pow128(k - 2);
    }
  }

  lemma Continued(b: byte, rest: seq<byte>)
    requires b >= 0x80 && Terminated(rest)
    ensures Terminated([b] + rest)
  {
  }

  lemma LastGroup(b: byte)
    requires b < 0x80
    ensures Terminated([b])
  {
  }

  /** Every signed 64-bit number has a signed encoding of at most ten bytes. */
  lemma SlebFits(n: int)
    requires -0x8000_0000_0000_0000 <= n < 0x8000_0000_0000_0000
    ensures Terminated(EncodeSleb(n)) && SlebNumber(EncodeSleb(n)) == n && |EncodeSleb(n)| <= 10
  {
    assert Pow128(3) == 0x20_0000;
    assert Pow128(6) == 0x20_0000 * Pow128(3);
    assert Pow128(9) == 0x20_0000 * Pow128(6);
    EncodedIsSleb(n, 10);
  }

  /** The unsigned reader consumes exactly the bytes of every signed 64-bit operand. */
  lemma SlebSkipInSync(f: seq<byte>, p: nat, end: nat, n: int)
    requires -0x8000_0000_0000_0000 <= n < 0x8000_0000_0000_0000
    requires p + |EncodeSleb(n)| <= end <= |f| && f[p..p + |EncodeSleb(n)|] == EncodeSleb(n)
    ensures UlebEnd(f, p, end) == p + |EncodeSleb(n)| <= p + 10
  {
    SlebFits(n);
    UlebReads(f, p, end, EncodeSleb(n));
  }
}
