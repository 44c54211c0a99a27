/** The bit fields of a DYLD_CHAINED_PTR_64_OFFSET word, as the loader decodes them. */
module ChainFormat {
  import opened Memory

  // The accessors of main.c. A right shift is a division and a mask of low bits a remainder.

  function BindOrdinal(raw: u64): u32 {
    raw % 0x100_0000
  }

  /** The source keeps the addend in an int8_t. */
  function BindAddend(raw: u64): int {
    var b := raw / 0x100_0000 % 0x100;
    if b < 0x80 then b else b - 0x100
  }

  function RebaseTarget(raw: u64): u64 {
    raw % 0x10_0000_0000
  }

  /** The distance to the next word of the chain, in units of four bytes; zero ends the chain. */
  function Next(raw: u64): (n: nat)
    ensures n < 0x1000
  {
    raw / 0x8_0000_0000_0000 % 0x1000
  }

  predicate IsBind(raw: u64) {
    raw / 0x8000_0000_0000_0000 % 2 == 1
  }

  // The layouts of mach-o/fixup-chains.h, fields listed from the least significant bit.

  datatype Pointer =
    | Rebase(target: nat, high8: nat, reserved: nat, next: nat)
    | Bind(ordinal: nat, addend: nat, reserved: nat, next: nat)
  {
    predicate Valid() {
      && next < 0x1000
      && match this
         case Rebase(t, h, r, _) => t < 0x10_0000_0000 && h < 0x100 && r < 0x80
         case Bind(o, a, r, _) => o < 0x100_0000 && a < 0x100 && r < 0x8_0000
    }
  }

  function Pack(p: Pointer): u64
    requires p.Valid()
  {
    match p
    case Rebase(t, h, r, n) =>
      t + 0x10_0000_0000 * h + 0x1000_0000_0000 * r + 0x8_0000_0000_0000 * n
    case Bind(o, a, r, n) =>
      o + 0x100_0000 * a + 0x1_0000_0000 * r + 0x8_0000_0000_0000 * n + 0x8000_0000_0000_0000
  }

  /** Quotient and remainder are determined by the division equation. */
  lemma Divides(x: int, d: int, q: int, r: int)
    requires 0 <= r < d && x == q * d + r
    ensures x / d == q && x % d == r
  {
    var e := x / d - q;
    assert e * d == r - x % d;
    assert e >= 1 ==> e * d >= d;
    assert e <= -1 ==> e * d <= -d;
  }

  /** The accessors recover every field they read from the packed layout. */
  lemma AccessorsMatchLayout(p: Pointer)
    requires p.Valid()
    ensures IsBind(Pack(p)) == p.Bind?
    ensures Next(Pack(p)) == p.next
    ensures p.Rebase? ==> RebaseTarget(Pack(p)) == p.target
    ensures p.Bind? ==> BindOrdinal(Pack(p)) == p.ordinal
  {
    var raw := Pack(p);
    var bind := if p.Bind? then 1 else 0;
    var payload := raw - 0x8_0000_0000_0000 * (p.next + 0x1000 * bind);
    Divides(raw, 0x8_0000_0000_0000, p.next + 0x1000 * bind, payload);
    Divides(raw, 0x8000_0000_0000_0000, bind, payload + 0x8_0000_0000_0000 * p.next);
    match p
    case Rebase(t, h, r, n) =>
      Divides(raw, 0x10_0000_0000, h + 0x100 * r + 0x8000 * n, t);
    case Bind(o, a, r, n) =>
      Divides(raw, 0x100_0000, a + 0x100 * r + 0x800_0000 * n + 0x80_0000_0000, o);
  }

  /** Every word is a packed pointer. */
  lemma EveryWordIsPacked(raw: u64) returns (p: Pointer)
    ensures p.Valid() && Pack(p) == raw
  {
    var low := raw % 0x8_0000_0000_0000;
    HighFields(raw);
    if IsBind(raw) {
      p := Bind(low % 0x100_0000, low / 0x100_0000 % 0x100, low / 0x1_0000_0000, Next(raw));
      LowFields(low, 0x100_0000);
    } else {
      p := Rebase(low % 0x10_0000_0000, low / 0x10_0000_0000 % 0x100, low / 0x1000_0000_0000, Next(raw));
      LowFields(low, 0x10_0000_0000);
    }
  }

  lemma HighFields(raw: u64)
    ensures raw == raw % 0x8_0000_0000_0000 + 0x8_0000_0000_0000 * Next(raw)
                   + if IsBind(raw) then 0x8000_0000_0000_0000 else 0
  {
    var high := raw / 0x8_0000_0000_0000;
    assert raw / 0x8000_0000_0000_0000 == high / 0x1000;
    assert high < 0x2000 && high == high % 0x1000 + 0x1000 * (high / 0x1000);
  }

  lemma LowFields(low: nat, unit: nat)
    requires unit == 0x100_0000 || unit == 0x10_0000_0000
    ensures low == low % unit + unit * (low / unit % 0x100) + 0x100 * unit * (low / (0x100 * unit))
  {
    var high := low / unit;
    assert low / (0x100 * unit) == high / 0x100;
    assert high == high % 0x100 + 0x100 * (high / 0x100);
  }

  /** The header gives the addend as 0 to 255; the signed decoding agrees exactly below 128. */
  lemma AddendAgreesBelow128(p: Pointer)
    requires p.Valid() && p.Bind?
    ensures BindAddend(Pack(p)) == p.addend <==> p.addend < 0x80
    ensures BindAddend(Pack(p)) == if p.addend < 0x80 then p.addend else p.addend - 0x100
  {
    var high := p.reserved + 0x8_0000 * p.next + 0x8000_0000;
    Divides(Pack(p), 0x100_0000, p.addend + 0x100 * high, p.ordinal);
    Divides(p.addend + 0x100 * high, 0x100, high, p.addend);
  }

  /** The rebased value of the header: slide the target, with the top byte set before sliding. */
  function DocumentedRebase(base: u64, p: Pointer): u64
    requires p.Valid() && p.Rebase?
  {
    Wrap64(base + p.target + 0x100_0000_0000_0000 * p.high8)
  }

  /** The loader drops `high8`, so it meets the header exactly when that byte is zero. */
  lemma RebaseAgreesWithoutHigh8(base: u64, p: Pointer)
    requires p.Valid() && p.Rebase?
    ensures Wrap64(base + RebaseTarget(Pack(p))) == DocumentedRebase(base, p) <==> p.high8 == 0
  {
    AccessorsMatchLayout(p);
  }
}
