/** Bytes, little-endian words and C strings: the memory that the loader reads and patches.

    Machine integers are integers restricted to their width; wrap-around is written out with
    `Wrap64`. A file is an immutable byte sequence, and a read past its end gives zero, as the
    tail of its last mapped page does. */
module Memory {

  type byte = x: int | 0 <= x < 0x100
  type u16 = x: int | 0 <= x < 0x1_0000
  type u32 = x: int | 0 <= x < 0x1_0000_0000
  type u64 = x: int | 0 <= x < 0x1_0000_0000_0000_0000

  const TWO32 := 0x1_0000_0000
  const TWO64 := 0x1_0000_0000_0000_0000

  /** A NUL-terminated C string, without its NUL. */
  type Name = seq<byte>

  datatype Option<+T> = None | Some(value: T)

  function Wrap64(x: int): u64 {
    x % 0x1_0000_0000_0000_0000
  }

  function Inc32(x: u32): u32 {
    (x + 1) % 0x1_0000_0000
  }

  // ---------- Reading ----------

  function At(f: seq<byte>, i: int): byte {
    if 0 <= i < |f| then f[i] else 0
  }

  function Pow256(n: nat): nat {
    if n == 0 then 1 else 0x100 * Pow256(n - 1)
  }

  /** The little-endian number in the bytes from `p` up to `q`. */
  function LE(f: seq<byte>, p: int, q: int): nat
    decreases q - p
  {
    if p >= q then 0 else At(f, p) + 0x100 * LE(f, p + 1, q)
  }

  lemma {:induction false} LEBound(f: seq<byte>, p: int, n: nat)
    ensures LE(f, p, p + n) < Pow256(n)
    decreases n
  {
    if n > 0 {
      LEBound(f, p + 1, n - 1);
    }
  }

  function U16(f: seq<byte>, p: int): u16 {
    LEBound(f, p, 2);
    LE(f, p, p + 2)
  }

  function U32(f: seq<byte>, p: int): u32 {
    LEBound(f, p, 4);
    LE(f, p, p + 4)
  }

  function U64(f: seq<byte>, p: int): u64 {
    LEBound(f, p, 8);
    LE(f, p, p + 8)
  }

  /** The C string that starts at `p`. */
  function CString(f: seq<byte>, p: nat): Name
    decreases |f| - p
  {
    if p >= |f| || f[p] == 0 then [] else [f[p]] + CString(f, p + 1)
  }

  /** The code points of an ASCII literal. */
  function Ascii(s: string): Name
    requires forall i :: 0 <= i < |s| ==> s[i] < 128 as char
  {
    seq(|s|, i requires 0 <= i < |s| => s[i] as int)
  }

  // ---------- Writing ----------

  function EncLE(v: nat, n: nat): (b: seq<byte>)
    ensures |b| == n
  {
    if n == 0 then [] else [v % 0x100] + EncLE(v / 0x100, n - 1)
  }

  function Enc64(v: u64): (b: seq<byte>)
    ensures |b| == 8
  {
    EncLE(v, 8)
  }

  /** The memory after the 64-bit word `v` is stored at `off`; out of range nothing is stored. */
  function Store(mem: seq<byte>, off: nat, v: u64): (r: seq<byte>)
    ensures |r| == |mem|
    ensures forall i :: 0 <= i < |mem| && !(off <= i < off + 8) ==> r[i] == mem[i]
  {
    if off + 8 <= |mem| then mem[..off] + Enc64(v) + mem[off + 8..] else mem
  }

  /** Two 64-bit words at these offsets share no byte. */
  predicate Apart(a: int, b: int) {
    a + 8 <= b || b + 8 <= a
  }

  lemma {:induction false} AgreeLE(f: seq<byte>, g: seq<byte>, p: int, q: int)
    requires forall i :: p <= i < q ==> At(f, i) == At(g, i)
    ensures LE(f, p, q) == LE(g, p, q)
    decreases q - p
  {
    if p < q {
      AgreeLE(f, g, p + 1, q);
    }
  }

  /** A number determines its bytes. */
  lemma {:induction false} LEInjective(f: seq<byte>, g: seq<byte>, p: int, q: int)
    requires LE(f, p, q) == LE(g, p, q)
    ensures forall i :: p <= i < q ==> At(f, i) == At(g, i)
    decreases q - p
  {
    if p < q {
      LEInjective(f, g, p + 1, q);
    }
  }

  lemma {:induction false} LERoundTrip(f: seq<byte>, p: nat, v: nat, n: nat)
    requires v < Pow256(n) && p + n <= |f| && f[p..p + n] == EncLE(v, n)
    ensures LE(f, p, p + n) == v
    decreases n
  {
    if n > 0 {
      assert f[p + 1..p + n] == f[p..p + n][1..];
      assert f[p] == f[p..p + n][0];
      LERoundTrip(f, p + 1, v / 0x100, n - 1);
    }
  }

  lemma StoreHit(mem: seq<byte>, off: nat, v: u64)
    requires off + 8 <= |mem|
    ensures U64(Store(mem, off, v), off) == v
  {
    assert Store(mem, off, v)[off..off + 8] == Enc64(v);
    LERoundTrip(Store(mem, off, v), off, v, 8);
  }

  lemma StoreMiss(mem: seq<byte>, off: nat, v: u64, o: nat)
    requires Apart(off, o)
    ensures U64(Store(mem, off, v), o) == U64(mem, o)
  {
    AgreeLE(Store(mem, off, v), mem, o, o + 8);
  }

  // ---------- Bytes that stand in a file ----------

  /** `bs` stands in the file at `p`. */
  predicate Stands(file: seq<byte>, p: nat, bs: seq<byte>) {
    p + |bs| <= |file| && file[p..p + |bs|] == bs
  }

  lemma {:induction false} CStringReads(file: seq<byte>, p: nat, name: Name)
    requires 0 !in name && Stands(file, p, name + [0])
    ensures CString(file, p) == name
    decreases |name|
  {
    assert file[p] == (name + [0])[0];
    if name != [] {
      assert (name + [0])[1..] == name[1..] + [0];
      assert file[p + 1..p + 1 + |name[1..] + [0]|] == file[p..p + |name + [0]|][1..];
      CStringReads(file, p + 1, name[1..]);
    }
  }

  // ---------- Batches of word patches ----------

  /** One word to be written, or to be left as it is. */
  datatype Patch = Patch(off: nat, value: Option<u64>)

  function ApplyPatch(mem: seq<byte>, p: Patch): (r: seq<byte>)
    ensures |r| == |mem|
  {
    match p.value
    case Some(v) => Store(mem, p.off, v)
    case None => mem
  }

  function ApplyPatches(mem: seq<byte>, ps: seq<Patch>): (r: seq<byte>)
    ensures |r| == |mem|
    decreases |ps|
  {
    if ps == [] then mem else ApplyPatches(ApplyPatch(mem, ps[0]), ps[1..])
  }

  ghost predicate Disjoint(ps: seq<Patch>) {
    forall i, j :: 0 <= i < j < |ps| ==> Apart(ps[i].off, ps[j].off)
  }

  ghost predicate Misses(ps: seq<Patch>, i: int) {
    forall k :: 0 <= k < |ps| ==> !(ps[k].off <= i < ps[k].off + 8)
  }

  lemma {:induction false} PatchesMiss(mem: seq<byte>, ps: seq<Patch>, i: nat)
    requires i < |mem| && Misses(ps, i)
    ensures ApplyPatches(mem, ps)[i] == mem[i]
    decreases |ps|
  {
    if ps != [] {
      assert !(ps[0].off <= i < ps[0].off + 8);
      assert Misses(ps[1..], i);
      PatchesMiss(ApplyPatch(mem, ps[0]), ps[1..], i);
    }
  }

  lemma {:induction false} PatchesMissWord(mem: seq<byte>, ps: seq<Patch>, o: nat)
    requires forall k :: 0 <= k < |ps| ==> Apart(ps[k].off, o)
    ensures U64(ApplyPatches(mem, ps), o) == U64(mem, o)
    decreases |ps|
  {
    if ps != [] {
      var m := ApplyPatch(mem, ps[0]);
      if ps[0].value.Some? {
        StoreMiss(mem, ps[0].off, ps[0].value.value, o);
      }
      PatchesMissWord(m, ps[1..], o);
    }
  }

  /** Disjoint patches do not disturb each other: each patched word holds its own value. */
  lemma {:induction false} PatchesHit(mem: seq<byte>, ps: seq<Patch>, k: nat)
    requires k < |ps| && Disjoint(ps)
    requires ps[k].off + 8 <= |mem|
    ensures U64(ApplyPatches(mem, ps), ps[k].off)
         == if ps[k].value.Some? then ps[k].value.value else U64(mem, ps[k].off)
    decreases |ps|
  {
    var m := ApplyPatch(mem, ps[0]);
    if k == 0 {
      if ps[0].value.Some? {
        StoreHit(mem, ps[0].off, ps[0].value.value);
      }
      PatchesMissWord(m, ps[1..], ps[0].off);
    } else {
      if ps[0].value.Some? {
        StoreMiss(mem, ps[0].off, ps[0].value.value, ps[k].off);
      }
      PatchesHit(m, ps[1..], k - 1);
    }
  }
}
