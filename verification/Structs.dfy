/** C structures as a linker writes them: fields one after the other, numbers least significant byte
    first. The offsets at which the loader reads are not given here; they come out of the fields. */
module Structs {
  import opened Memory

  datatype Field =
    /** A number of `size` bytes. */
    | Number(size: nat, value: nat)
    /** A name in an array of `size` characters, padded with zeros. */
    | Text(size: nat, text: Name)
  {
    predicate Valid() {
      match this
      case Number(n, v) => v < Pow256(n)
      case Text(n, t) => |t| < n && 0 !in t
    }

    function Bytes(): (b: seq<byte>)
      requires Valid()
      ensures |b| == size
    {
      match this
      case Number(n, v) => EncLE(v, n)
      case Text(n, t) => t + seq<byte>(n - |t|, _ => 0)
    }
  }

  ghost predicate AllValid(fields: seq<Field>) {
    forall k :: 0 <= k < |fields| ==> fields[k].Valid()
  }

  function StructBytes(fields: seq<Field>): (b: seq<byte>)
    requires AllValid(fields)
  {
    if fields == [] then [] else fields[0].Bytes() + StructBytes(fields[1..])
  }

  /** The structure stands in the file at `p`. */
  ghost predicate Written(file: seq<byte>, p: nat, fields: seq<Field>) {
    AllValid(fields) && Stands(file, p, StructBytes(fields))
  }

  /** Where field `k` starts: after all fields before it. */
  function OffsetOf(fields: seq<Field>, k: nat): nat
    requires k <= |fields|
    decreases k
  {
    if k == 0 then 0 else OffsetOf(fields, k - 1) + fields[k - 1].size
  }

  /** An array of numbers of the same size. */
  function Numbers(size: nat, values: seq<nat>): (r: seq<Field>)
    ensures |r| == |values|
    ensures forall k :: 0 <= k < |r| ==> r[k] == Number(size, values[k])
  {
    seq(|values|, k requires 0 <= k < |values| => Number(size, values[k]))
  }

  lemma {:induction false} OffsetShift(fields: seq<Field>, k: nat)
    requires 0 < k <= |fields|
    ensures OffsetOf(fields, k) == fields[0].size + OffsetOf(fields[1..], k - 1)
    decreases k
  {
    if k > 1 {
      OffsetShift(fields, k - 1);
    }
  }

  /** What the field at `p` reads as. */
  predicate Reads(file: seq<byte>, p: nat, field: Field) {
    match field
    case Number(n, v) => LE(file, p, p + n) == v
    case Text(_, t) => CString(file, p) == t
  }

  lemma TextReads(file: seq<byte>, p: nat, field: Field)
    requires field.Text? && field.Valid() && Stands(file, p, field.Bytes())
    ensures CString(file, p) == field.text
  {
    var b := field.Bytes();
    assert field.text + [0] == b[..|field.text| + 1];
    assert file[p..p + |field.text| + 1] == file[p..p + |b|][..|field.text| + 1];
    CStringReads(file, p, field.text);
  }

  /** Each field of a written structure stands at its offset. */
  lemma {:induction false} FieldStands(file: seq<byte>, p: nat, fields: seq<Field>, k: nat)
    requires Written(file, p, fields) && k < |fields|
    ensures fields[k].Valid() && Stands(file, p + OffsetOf(fields, k), fields[k].Bytes())
    decreases k
  {
    hide Field.Valid, Field.Bytes;
    var first, rest := fields[0].Bytes(), StructBytes(fields[1..]);
    assert StructBytes(fields) == first + rest;
    if k == 0 {
      assert file[p..p + |first|] == (first + rest)[..|first|] == first;
    } else {
      assert file[p + |first|..p + |first| + |rest|] == (first + rest)[|first|..] == rest;
      OffsetShift(fields, k);
      FieldStands(file, p + |first|, fields[1..], k - 1);
    }
  }

  /** Each field of a written structure is read back at its offset. */
  lemma FieldReads(file: seq<byte>, p: nat, fields: seq<Field>, k: nat)
    requires Written(file, p, fields) && k < |fields|
    ensures Reads(file, p + OffsetOf(fields, k), fields[k])
  {
    hide Reads, Field.Bytes, StructBytes;
    FieldStands(file, p, fields, k);
    FirstReads(file, p + OffsetOf(fields, k), fields[k]);
  }

  lemma FirstReads(file: seq<byte>, p: nat, field: Field)
    requires field.Valid() && Stands(file, p, field.Bytes())
    ensures Reads(file, p, field)
  {
    if field.Number? {
      LERoundTrip(file, p, field.value, field.size);
    } else {
      TextReads(file, p, field);
    }
  }

  lemma {:induction false} NumbersOffset(size: nat, values: seq<nat>, k: nat)
    requires k <= |values|
    ensures OffsetOf(Numbers(size, values), k) == k * size
    decreases k
  {
    if k > 0 {
      NumbersOffset(size, values, k - 1);
      assert k * size == (k - 1) * size + size;
    }
  }

  /** Element `k` of a written array. */
  lemma ArrayReads(file: seq<byte>, p: nat, size: nat, values: seq<nat>, k: nat)
    requires Written(file, p, Numbers(size, values)) && k < |values|
    ensures LE(file, p + k * size, p + k * size + size) == values[k]
  {
    hide LE;
    FieldReads(file, p, Numbers(size, values), k);
    NumbersOffset(size, values, k);
    var q := p + k * size;
    assert Reads(file, q, Number(size, values[k]));
  }

  /** A written structure is as long as its fields. */
  lemma {:induction false} StructSize(fields: seq<Field>)
    requires AllValid(fields)
    ensures |StructBytes(fields)| == OffsetOf(fields, |fields|)
    decreases |fields|
  {
    hide Field.Valid, Field.Bytes;
    if fields != [] {
      StructSize(fields[1..]);
      OffsetShift(fields, |fields|);
    }
  }
}
