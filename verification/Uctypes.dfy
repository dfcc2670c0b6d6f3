/** Layout of C structures given by uctypes descriptors: the reported size of a descriptor, and where
    attribute and index accesses go. */
module Uctypes {
  import Arithmetic

  /** A scalar type number: UINT8 = 0 to INT64 = 7, bit fields 8 to 13, FLOAT32 = 14, FLOAT64 = 15. */
  type ValType = t: int | 0 <= t < 16
  const FLOAT32: ValType := 14
  /** The width of a pointer. */
  type Width = w: int | w == 4 || w == 8 witness 4

  /** A descriptor: a dictionary of fields, or a tuple describing an aggregate (whose own offset does
      not matter to its size). */
  datatype Desc = Dict(fields: seq<Field>) | Tuple(agg: Agg)
  /** A scalar field may be a bit field; both have the size of their scalar type. */
  datatype Field = Scalar(offset: nat, valType: ValType) | Aggregate(offset: nat, agg: Agg)
  datatype Agg = Struct(desc: Desc) | Ptr | ScalarArray(valType: ValType, len: nat) | Array(desc: Desc, len: nat)

  /** A size, and the size of the biggest field met so far. */
  datatype Sized = Sized(size: nat, max: nat)

  function Max(a: nat, b: nat): nat {
    if a < b then b else a
  }
  /** `uctypes_struct_scalar_size`. */
  function ScalarSize(t: ValType): (s: nat)
    ensures s == 1 || s == 2 || s == 4 || s == 8
  {
    if t == FLOAT32 then 4
    else if t % 8 < 2 then 1 else if t % 8 < 4 then 2 else if t % 8 < 6 then 4 else 8
  }
  /** `(total + m - 1) & ~(m - 1)`; for `m` zero the mask is empty. */
  function Aligned(total: nat, m: nat): nat {
    if m == 0 then 0 else Arithmetic.RoundUp(total, m)
  }

  /** What the functions below compute for any descriptor: sizes are taken field by field, each with
      the biggest field size met before it. */
  function DescSize(d: Desc, native: bool, w: Width, max: nat): Sized
    decreases d, 0
  {
    match d
    case Tuple(agg) => AggSize(agg, native, w, max)
    case Dict(fields) =>
      var r := FieldsSize(d, |fields|, native, w, max);
      if native then Sized(Aligned(r.size, r.max), r.max) else r
  }
  /** The first `k` fields of a dictionary, without the rounding. */
  function FieldsSize(d: Desc, k: nat, native: bool, w: Width, max: nat): Sized
    requires d.Dict? && k <= |d.fields|
    decreases d, 0, k
  {
    if k == 0 then Sized(0, max)
    else
      var before := FieldsSize(d, k - 1, native, w, max);
      var f := FieldSize(d.fields[k - 1], native, w, before.max);
      Sized(Max(before.size, d.fields[k - 1].offset + f.size), f.max)
  }
  function FieldSize(f: Field, native: bool, w: Width, max: nat): Sized
    decreases f, 0
  {
    match f
    case Scalar(_, t) => Sized(ScalarSize(t), Max(max, ScalarSize(t)))
    case Aggregate(_, agg) => AggSize(agg, native, w, max)
  }
  function AggSize(agg: Agg, native: bool, w: Width, max: nat): Sized
    decreases agg, 0
  {
    match agg
    case Struct(desc) => DescSize(desc, native, w, max)
    case Ptr => Sized(w, Max(max, w))
    case ScalarArray(t, len) => Sized(ScalarSize(t) * len, Max(max, ScalarSize(t)))
    case Array(desc, len) =>
      var item := DescSize(desc, native, w, max);
      Sized(item.size * len, item.max)
  }

  // ---- the size functions as they run ----

  /** `uctypes_struct_size`. */
  method StructSize(d: Desc, native: bool, w: Width, max: nat) returns (size: nat, max': nat)
    ensures Sized(size, max') == DescSize(d, native, w, max)
    decreases d, 1
  {
    if d.Tuple? {
      size, max' := AggregateSize(d.agg, native, w, max);
      return;
    }
    var totalSize: nat := 0;
    max' := max;
    var i := 0;
    while i < |d.fields|
      invariant i <= |d.fields| && Sized(totalSize, max') == FieldsSize(d, i, native, w, max)
    {
      var v := d.fields[i];
      var s: nat;
      if v.Scalar? {
        s := ScalarSize(v.valType);
        if s > max' {
          max' := s;
        }
      } else {
        s, max' := AggregateSize(v.agg, native, w, max');
      }
      if v.offset + s > totalSize {
        totalSize := v.offset + s;
      }
      i := i + 1;
    }
    if native {
      totalSize := Aligned(totalSize, max');
    }
    return totalSize, max';
  }
  /** `uctypes_struct_agg_size`. */
  method AggregateSize(agg: Agg, native: bool, w: Width, max: nat) returns (size: nat, max': nat)
    ensures Sized(size, max') == AggSize(agg, native, w, max)
    decreases agg, 1
  {
    max' := max;
    match agg
    case Struct(desc) =>
      size, max' := StructSize(desc, native, w, max);
    case Ptr =>
      if w > max' {
        max' := w;
      }
      size := w;
    case ScalarArray(t, len) =>
      var item := ScalarSize(t);
      if item > max' {
        max' := item;
      }
      size := item * len;
    case Array(desc, len) =>
      var item;
      item, max' := StructSize(desc, native, w, max);
      size := item * len;
  }

  // ---- sizes grow with the running field size ----

  /** Sizes of scalars are powers of two; none met yet is zero. */
  predicate Unit(m: nat) {
    m == 0 || m == 1 || m == 2 || m == 4 || m == 8
  }
  lemma AlignedIs(t: nat, m: nat) returns (q: nat)
    requires m > 0
    ensures Aligned(t, m) == q * m && t <= q * m < t + m && q * m % m == 0
  {
    q := (t + m - 1) / m;
  }
  lemma Ratio(m: nat, m': nat) returns (c: nat)
    requires Unit(m) && Unit(m') && 0 < m <= m'
    ensures m' == c * m
  {
    c := if m' == m then 1 else if m' == 2 * m then 2 else if m' == 4 * m then 4 else 8;
  }
  lemma AlignedGrows(t: nat, t': nat, m: nat, m': nat)
    requires t <= t' && m <= m' && Unit(m) && Unit(m')
    ensures Aligned(t, m) <= Aligned(t', m')
    ensures m > 0 ==> t <= Aligned(t, m) < t + m && Aligned(t, m) % m == 0
  {
    if m == 0 {
      assert Aligned(t, m) == 0;
    } else {
      hide Aligned, Unit;
      var q := AlignedIs(t, m);
      var q' := AlignedIs(t', m');
      var c := Ratio(m, m');
      Coarser(q, q', m, m', c);
    }
  }
  /** A multiple of the finer unit less than a unit above a multiple of the coarser is not above it. */
  lemma Coarser(q: nat, q': nat, m: nat, m': nat, c: nat)
    requires m > 0 && m' == c * m && q * m < q' * m' + m
    ensures q * m <= q' * m'
  {
    assert q' * m' == (q' * c) * m;
    assert (q - q' * c - 1) * m < 0;
    Arithmetic.MulSign(q - q' * c - 1, m);
    Arithmetic.MulMono(q, q' * c, m);
  }
  /** The running field size only grows, to the biggest field there is. */
  lemma {:induction false} DescMax(d: Desc, native: bool, w: Width, max: nat)
    requires Unit(max)
    ensures var r := DescSize(d, native, w, max); max <= r.max && Unit(r.max)
    ensures DescSize(d, native, w, max).max == Max(max, DescSize(d, native, w, 0).max)
    decreases d, 1
  {
    match d
    case Tuple(agg) => AggMax(agg, native, w, max);
    case Dict(fields) => FieldsMax(d, |fields|, native, w, max);
  }
  lemma {:induction false} FieldsMax(d: Desc, k: nat, native: bool, w: Width, max: nat)
    requires d.Dict? && k <= |d.fields| && Unit(max)
    ensures var r := FieldsSize(d, k, native, w, max); max <= r.max && Unit(r.max)
    ensures FieldsSize(d, k, native, w, max).max == Max(max, FieldsSize(d, k, native, w, 0).max)
    decreases d, 0, k
  {
    if k > 0 {
      FieldsMax(d, k - 1, native, w, max);
      FieldsMax(d, k - 1, native, w, 0);
      var f := d.fields[k - 1];
      if f.Aggregate? {
        AggMax(f.agg, native, w, FieldsSize(d, k - 1, native, w, max).max);
        AggMax(f.agg, native, w, FieldsSize(d, k - 1, native, w, 0).max);
      }
    }
  }
  lemma {:induction false} AggMax(agg: Agg, native: bool, w: Width, max: nat)
    requires Unit(max)
    ensures var r := AggSize(agg, native, w, max); max <= r.max && Unit(r.max)
    ensures AggSize(agg, native, w, max).max == Max(max, AggSize(agg, native, w, 0).max)
    decreases agg, 1
  {
    if agg.Struct? || agg.Array? {
      DescMax(agg.desc, native, w, max);
    }
  }

  /** The size is monotone in the incoming running field size. */
  lemma {:induction false} DescGrows(d: Desc, native: bool, w: Width, m: nat, m': nat)
    requires Unit(m) && Unit(m') && m <= m'
    ensures DescSize(d, native, w, m).size <= DescSize(d, native, w, m').size
    decreases d, 1
  {
    match d
    case Tuple(agg) => AggGrows(agg, native, w, m, m');
    case Dict(fields) =>
      var k := |fields|;
      FieldsGrow(d, k, native, w, m, m');
      FieldsMax(d, k, native, w, m);
      FieldsMax(d, k, native, w, m');
      AlignedGrows(FieldsSize(d, k, native, w, m).size, FieldsSize(d, k, native, w, m').size,
                   FieldsSize(d, k, native, w, m).max, FieldsSize(d, k, native, w, m').max);
  }
  lemma {:induction false} FieldsGrow(d: Desc, k: nat, native: bool, w: Width, m: nat, m': nat)
    requires d.Dict? && k <= |d.fields| && Unit(m) && Unit(m') && m <= m'
    ensures FieldsSize(d, k, native, w, m).size <= FieldsSize(d, k, native, w, m').size
    decreases d, 0, k
  {
    if k > 0 {
      FieldsGrow(d, k - 1, native, w, m, m');
      FieldsMax(d, k - 1, native, w, m);
      FieldsMax(d, k - 1, native, w, m');
      var f := d.fields[k - 1];
      if f.Aggregate? {
        AggGrows(f.agg, native, w, FieldsSize(d, k - 1, native, w, m).max, FieldsSize(d, k - 1, native, w, m').max);
      }
    }
  }
  lemma {:induction false} AggGrows(agg: Agg, native: bool, w: Width, m: nat, m': nat)
    requires Unit(m) && Unit(m') && m <= m'
    ensures AggSize(agg, native, w, m).size <= AggSize(agg, native, w, m').size
    decreases agg, 1
  {
    if agg.Struct? || agg.Array? {
      DescGrows(agg.desc, native, w, m, m');
      if agg.Array? {
        Arithmetic.MulMono(DescSize(agg.desc, native, w, m).size, DescSize(agg.desc, native, w, m').size, agg.len);
      }
    }
  }

  // ---- where accesses go ----

  /** The bytes an access is about, from the address of the structure it started at. */
  datatype Extent = Extent(start: nat, size: nat)
  datatype Option<+T> = Some(value: T) | None

  /** One access: attribute number `i` of a dictionary, or element `k` of an array. */
  datatype Access = Attr(i: nat) | Index(k: nat)

  /** The size an object reports for itself. */
  function Size(d: Desc, native: bool, w: Width): nat {
    DescSize(d, native, w, 0).size
  }
  /** Where a chain of accesses arrives: at a scalar, or at another structure or array, whose extent
      is what it reports as its size. An array of structures steps by the size the element reports,
      an array of scalars by the scalar size. Accesses the descriptor does not allow arrive nowhere. */
  function Arrives(d: Desc, path: seq<Access>, native: bool, w: Width): Option<Extent>
    decreases path, 0
  {
    if path == [] then Some(Extent(0, Size(d, native, w)))
    else match path[0]
      case Attr(i) =>
        if d.Tuple? || i >= |d.fields| then None
        else FieldArrives(d.fields[i], path[1..], native, w)
      case Index(k) =>
        if d.Dict? then None
        else match d.agg
          case ScalarArray(t, len) =>
            if k < len && |path| == 1 then Some(Extent(ScalarSize(t) * k, ScalarSize(t))) else None
          case Array(desc, len) =>
            if k < len then Moved(Size(desc, native, w) * k, Arrives(desc, path[1..], native, w)) else None
          case _ => None
  }
  /** Attributes that are structures are entered at once; other aggregates are objects of their own. */
  function FieldArrives(f: Field, rest: seq<Access>, native: bool, w: Width): Option<Extent>
    decreases rest, 1
  {
    match f
    case Scalar(offset, t) => if rest == [] then Some(Extent(offset, ScalarSize(t))) else None
    case Aggregate(offset, Struct(desc)) => Moved(offset, Arrives(desc, rest, native, w))
    case Aggregate(offset, agg) => Moved(offset, Arrives(Tuple(agg), rest, native, w))
  }
  function Moved(offset: nat, e: Option<Extent>): Option<Extent> {
    if e.Some? then Some(Extent(offset + e.value.start, e.value.size)) else None
  }

  /** A native structure of some size holds a scalar or a pointer. */
  lemma {:induction false} NothingNoSize(d: Desc, w: Width, max: nat)
    ensures DescSize(d, true, w, max).max == 0 ==> DescSize(d, true, w, max).size == 0
    decreases d, 1
  {
    if d.Tuple? {
      AggNoSize(d.agg, w, max);
    }
  }
  lemma {:induction false} AggNoSize(agg: Agg, w: Width, max: nat)
    ensures AggSize(agg, true, w, max).max == 0 ==> AggSize(agg, true, w, max).size == 0
    decreases agg, 1
  {
    if agg.Struct? || agg.Array? {
      NothingNoSize(agg.desc, w, max);
    }
  }

  /** A field that takes any room ends inside its structure. */
  lemma FieldInside(d: Desc, i: nat, native: bool, w: Width)
    requires d.Dict? && i < |d.fields|
    ensures var s := FieldSize(d.fields[i], native, w, 0).size;
            s > 0 ==> d.fields[i].offset + s <= Size(d, native, w)
  {
    var f, k := d.fields[i], |d.fields|;
    var before := FieldsSize(d, i, native, w, 0).max;
    FieldsMax(d, i, native, w, 0);
    FieldsMax(d, i + 1, native, w, 0);
    FieldsMax(d, k, native, w, 0);
    FieldsReach(d, i + 1, k, native, w);
    if f.Aggregate? {
      AggGrows(f.agg, native, w, 0, before);
      AggMax(f.agg, native, w, before);
      if native {
        AggNoSize(f.agg, w, before);
      }
    }
    var total := FieldsSize(d, k, native, w, 0);
    AlignedGrows(total.size, total.size, total.max, total.max);
  }
  lemma {:induction false} FieldsReach(d: Desc, i: nat, k: nat, native: bool, w: Width)
    requires d.Dict? && i <= k <= |d.fields|
    ensures FieldsSize(d, i, native, w, 0).size <= FieldsSize(d, k, native, w, 0).size
    ensures FieldsSize(d, i, native, w, 0).max <= FieldsSize(d, k, native, w, 0).max
    decreases k
  {
    if i < k {
      FieldsReach(d, i, k - 1, native, w);
      FieldsMax(d, k - 1, native, w, 0);
      var f := d.fields[k - 1];
      if f.Aggregate? {
        AggMax(f.agg, native, w, FieldsSize(d, k - 1, native, w, 0).max);
      }
    }
  }

  /** Whatever an access arrives at, if it takes any room, lies inside the size its structure
      reports. */
  lemma {:induction false} AccessInside(d: Desc, path: seq<Access>, native: bool, w: Width)
    ensures var e := Arrives(d, path, native, w);
            e.Some? && e.value.size > 0 ==> e.value.start + e.value.size <= Size(d, native, w)
    decreases path
  {
    if path != [] {
      match path[0]
      case Attr(i) =>
        if d.Dict? && i < |d.fields| {
          FieldInside(d, i, native, w);
          var f := d.fields[i];
          if f.Aggregate? {
            AccessInside(if f.agg.Struct? then f.agg.desc else Tuple(f.agg), path[1..], native, w);
          }
        }
      case Index(k) =>
        if d.Tuple? && d.agg.Array? && k < d.agg.len {
          AccessInside(d.agg.desc, path[1..], native, w);
          ElementInside(Size(d.agg.desc, native, w), k, d.agg.len);
          ArraySize(d.agg.desc, d.agg.len, native, w);
        }
        if d.Tuple? && d.agg.ScalarArray? && k < d.agg.len {
          ElementInside(ScalarSize(d.agg.valType), k, d.agg.len);
          ScalarArraySize(d.agg.valType, d.agg.len, native, w);
        }
    }
  }
  lemma ArraySize(desc: Desc, len: nat, native: bool, w: Width)
    ensures Size(Tuple(Array(desc, len)), native, w) == Size(desc, native, w) * len
  {
    assert DescSize(Tuple(Array(desc, len)), native, w, 0) == AggSize(Array(desc, len), native, w, 0);
  }
  lemma ScalarArraySize(t: ValType, len: nat, native: bool, w: Width)
    ensures Size(Tuple(ScalarArray(t, len)), native, w) == ScalarSize(t) * len
  {
    assert DescSize(Tuple(ScalarArray(t, len)), native, w, 0) == AggSize(ScalarArray(t, len), native, w, 0);
  }
  lemma ElementInside(size: nat, k: nat, len: nat)
    requires k < len
    ensures size * k + size <= size * len
  {
    Arithmetic.MulMono(k + 1, len, size);
  }

  /** The descriptor holds a scalar or a pointer somewhere. */
  predicate HasLeaf(d: Desc)
    decreases d, 0
  {
    match d
    case Tuple(agg) => HasLeafIn(agg)
    case Dict(fields) => exists i :: 0 <= i < |fields| && (fields[i].Scalar? || HasLeafIn(fields[i].agg))
  }
  predicate HasLeafIn(agg: Agg)
    decreases agg, 0
  {
    (agg.Struct? || agg.Array?) ==> HasLeaf(agg.desc)
  }
  /** Without scalars and pointers there is no biggest field, and with one there is. */
  lemma {:induction false} LeafMax(d: Desc, native: bool, w: Width)
    ensures DescSize(d, native, w, 0).max == 0 <==> !HasLeaf(d)
    decreases d, 1
  {
    match d
    case Tuple(agg) => LeafMaxIn(agg, native, w);
    case Dict(fields) => LeafMaxFields(d, |fields|, native, w);
  }
  lemma {:induction false} LeafMaxFields(d: Desc, k: nat, native: bool, w: Width)
    requires d.Dict? && k <= |d.fields|
    ensures FieldsSize(d, k, native, w, 0).max > 0
            <==> exists i :: 0 <= i < k && (d.fields[i].Scalar? || HasLeafIn(d.fields[i].agg))
    decreases d, 0, k
  {
    if k > 0 {
      LeafMaxFields(d, k - 1, native, w);
      FieldsMax(d, k - 1, native, w, 0);
      var f := d.fields[k - 1];
      if f.Aggregate? {
        LeafMaxIn(f.agg, native, w);
        AggMax(f.agg, native, w, FieldsSize(d, k - 1, native, w, 0).max);
      }
    }
  }
  lemma {:induction false} LeafMaxIn(agg: Agg, native: bool, w: Width)
    ensures AggSize(agg, native, w, 0).max == 0 <==> !HasLeafIn(agg)
    decreases agg, 1
  {
    if agg.Struct? || agg.Array? {
      LeafMax(agg.desc, native, w);
    }
  }
  /** A native structure is a multiple of its biggest field and of the biggest met before it; one that
      holds no scalar and no pointer, with none met before it, has size zero. */
  lemma NativeMultiple(d: Desc, w: Width, max: nat)
    requires d.Dict? && Unit(max)
    ensures var r := DescSize(d, true, w, max);
            && r.max == Max(max, DescSize(d, true, w, 0).max)
            && (r.max == 0 <==> max == 0 && !HasLeaf(d))
            && (max > 0 || HasLeaf(d) ==> r.size % r.max == 0)
            && (max == 0 && !HasLeaf(d) ==> r.size == 0)
  {
    DescMax(d, true, w, max);
    LeafMax(d, true, w);
    var r := FieldsSize(d, |d.fields|, true, w, max);
    AlignedGrows(r.size, r.size, r.max, r.max);
  }
}
