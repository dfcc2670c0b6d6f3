/** When the size of a uctypes structure depends on the biggest field met before it, and on the order
    of its fields. */
module UctypesOrder {
  import opened Arithmetic
  import opened Uctypes

  // ---- layouts that are not native ----

  /** Sizes that are not rounded never depend on what was met before. */
  lemma {:induction false} NeverMatters(d: Desc, w: Width, m: nat)
    ensures DescSize(d, false, w, m).size == DescSize(d, false, w, 0).size
    decreases d, 1
  {
    match d
    case Tuple(agg) => NeverMattersIn(agg, w, m);
    case Dict(fields) => NeverMattersFields(d, |fields|, w, m);
  }
  lemma {:induction false} NeverMattersFields(d: Desc, k: nat, w: Width, m: nat)
    requires d.Dict? && k <= |d.fields|
    ensures FieldsSize(d, k, false, w, m).size == FieldsSize(d, k, false, w, 0).size
    decreases d, 0, k
  {
    if k > 0 {
      NeverMattersFields(d, k - 1, w, m);
      var f := d.fields[k - 1];
      if f.Aggregate? {
        NeverMattersIn(f.agg, w, FieldsSize(d, k - 1, false, w, m).max);
        NeverMattersIn(f.agg, w, FieldsSize(d, k - 1, false, w, 0).max);
      }
    }
  }
  lemma {:induction false} NeverMattersIn(agg: Agg, w: Width, m: nat)
    ensures AggSize(agg, false, w, m).size == AggSize(agg, false, w, 0).size
    decreases agg, 1
  {
    if agg.Struct? || agg.Array? {
      NeverMatters(agg.desc, w, m);
    }
  }

  // ---- native layout ----

  /** Where field `i` ends when `m` is the biggest field met before it. */
  function EndOf(f: Field, native: bool, w: Width, m: nat): nat {
    f.offset + FieldSize(f, native, w, m).size
  }
  /** Where field `i` of a dictionary ends in the loop, which starts with `m`. */
  function EndAt(d: Desc, i: nat, native: bool, w: Width, m: nat): nat
    requires d.Dict? && i < |d.fields|
  {
    EndOf(d.fields[i], native, w, FieldsSize(d, i, native, w, m).max)
  }
  /** Every field, measured as the loop measures it, ends within `bound`. */
  ghost predicate EndsWithin(d: Desc, native: bool, w: Width, m: nat, bound: nat)
    requires d.Dict?
  {
    forall i :: 0 <= i < |d.fields| ==> EndAt(d, i, native, w, m) <= bound
  }
  /** The unrounded size is the farthest end. */
  lemma {:induction false} FarthestEnd(d: Desc, k: nat, native: bool, w: Width, m: nat, bound: nat)
    requires d.Dict? && k <= |d.fields|
    ensures FieldsSize(d, k, native, w, m).size <= bound
            <==> forall i :: 0 <= i < k ==> EndAt(d, i, native, w, m) <= bound
    decreases k
  {
    if k > 0 {
      FarthestEnd(d, k - 1, native, w, m, bound);
      assert FieldsSize(d, k, native, w, m).size
          == Max(FieldsSize(d, k - 1, native, w, m).size, EndAt(d, k - 1, native, w, m));
      hide FieldsSize, EndAt;
    }
  }
  /** A rounded size stays within a multiple of the unit exactly if what is rounded does. */
  lemma RoundsWithin(t: nat, m: nat, bound: nat)
    requires m > 0 && bound % m == 0
    ensures Aligned(t, m) <= bound <==> t <= bound
  {
    var q := AlignedIs(t, m);
    assert bound == bound / m * m;
    if t <= bound {
      MulSign(q - bound / m, m);
      assert (q - bound / m) * m == q * m - bound;
    }
  }
  /** The size of a dictionary is within a multiple of its biggest field exactly if all ends are. */
  lemma SizeWithin(d: Desc, w: Width, m: nat, bound: nat)
    requires d.Dict? && Unit(m)
    requires DescSize(d, true, w, m).max > 0 && bound % DescSize(d, true, w, m).max == 0
    ensures DescSize(d, true, w, m).size <= bound <==> EndsWithin(d, true, w, m, bound)
  {
    var r := FieldsSize(d, |d.fields|, true, w, m);
    FarthestEnd(d, |d.fields|, true, w, m, bound);
    RoundsWithin(r.size, r.max, bound);
  }

  /** When the size of a native dictionary is what it reports alone, although fields up to `m` have
      been met before it: the size must be a multiple of `m`, and every field, measured with what is
      met before it, must still end inside. */
  lemma MattersExactly(d: Desc, w: Width, m: nat)
    requires d.Dict? && Unit(m) && m > 0
    ensures DescSize(d, true, w, m).size == Size(d, true, w)
            <==> Size(d, true, w) % m == 0 && EndsWithin(d, true, w, m, Size(d, true, w))
  {
    var size, r := Size(d, true, w), DescSize(d, true, w, m);
    NativeMultiple(d, w, 0);
    NativeMultiple(d, w, m);
    DescMax(d, true, w, 0);
    DescMax(d, true, w, m);
    DescGrows(d, true, w, 0, m);
    MultipleOfBoth(size, r.size, m, DescSize(d, true, w, 0).max, r.max);
    if size % m == 0 {
      SizeWithin(d, w, m, size);
    }
  }
  lemma MultipleOfBoth(size: nat, size': nat, m: nat, own: nat, both: nat)
    requires Unit(m) && Unit(own) && m > 0 && both == Max(m, own)
    requires (own > 0 ==> size % own == 0) && (own == 0 ==> size == 0) && size' % both == 0
    ensures size % m == 0 <==> size % both == 0
    ensures size' == size ==> size % m == 0
  {
    if m < own {
      UnitDivides(own, m, size);
    } else if 0 < own {
      UnitDivides(m, own, size);
    }
  }
  /** Of two units the larger is a multiple of the smaller. */
  lemma UnitDivides(a: nat, b: nat, n: nat)
    requires Unit(a) && Unit(b) && 0 < b <= a
    ensures n % a == 0 ==> n % b == 0
  {
    if a == 8 {
      Eights(n);
    } else if a == 4 {
      Fours(n);
    }
  }
  lemma Eights(n: nat)
    ensures n % 8 == 0 ==> n % 4 == 0 && n % 2 == 0
  {
    if n % 8 == 0 {
      Arithmetic.DivUnique(n, 4, 2 * (n / 8), 0);
      Arithmetic.DivUnique(n, 2, 4 * (n / 8), 0);
    }
  }
  lemma Fours(n: nat)
    ensures n % 4 == 0 ==> n % 2 == 0
  {
    if n % 4 == 0 {
      Arithmetic.DivUnique(n, 2, 2 * (n / 4), 0);
    }
  }

  /** A field whose size is its own whatever was met before it. */
  predicate Plain(f: Field) {
    f.Scalar? || f.agg.Ptr? || f.agg.ScalarArray?
  }
  lemma PlainEnd(f: Field, native: bool, w: Width, m: nat)
    requires Plain(f)
    ensures EndOf(f, native, w, m) == EndOf(f, native, w, 0)
  {
    if f.Aggregate? {
      assert AggSize(f.agg, native, w, m).size == AggSize(f.agg, native, w, 0).size;
    }
  }
  /** For a dictionary of scalars, pointers and scalar arrays being a multiple is all there is to it. */
  lemma MattersFlat(d: Desc, w: Width, m: nat)
    requires d.Dict? && Unit(m) && m > 0 && forall i :: 0 <= i < |d.fields| ==> Plain(d.fields[i])
    ensures DescSize(d, true, w, m).size == Size(d, true, w) <==> Size(d, true, w) % m == 0
  {
    MattersExactly(d, w, m);
    if d.fields == [] {
      assert FieldsSize(d, 0, true, w, 0) == Sized(0, 0);
    } else {
      assert Plain(d.fields[0]);
      assert HasLeaf(d);
      EndsAlone(d, w);
      forall i | 0 <= i < |d.fields| ensures EndAt(d, i, true, w, m) <= Size(d, true, w) {
        PlainEnd(d.fields[i], true, w, FieldsSize(d, i, true, w, m).max);
        PlainEnd(d.fields[i], true, w, FieldsSize(d, i, true, w, 0).max);
        assert EndAt(d, i, true, w, 0) <= Size(d, true, w);
      }
    }
  }
  /** With nothing met before it every field of a dictionary that holds a scalar ends inside. */
  lemma EndsAlone(d: Desc, w: Width)
    requires d.Dict? && HasLeaf(d)
    ensures EndsWithin(d, true, w, 0, Size(d, true, w))
  {
    NativeMultiple(d, w, 0);
    SizeWithin(d, w, 0, Size(d, true, w));
  }

  /** A native dictionary has the same size wherever it stands if and only if the size is a multiple of
      eight and every field ends inside even when measured after an eight-byte field. */
  lemma NeverMattersExactly(d: Desc, w: Width)
    requires d.Dict?
    ensures (forall m :: Unit(m) ==> DescSize(d, true, w, m).size == Size(d, true, w))
            <==> Size(d, true, w) % 8 == 0 && forall i :: 0 <= i < |d.fields| ==> EndOf(d.fields[i], true, w, 8) <= Size(d, true, w)
  {
    var size := Size(d, true, w);
    MattersExactly(d, w, 8);
    forall i | 0 <= i < |d.fields| ensures EndAt(d, i, true, w, 8) == EndOf(d.fields[i], true, w, 8) {
      FieldsMax(d, i, true, w, 8);
    }
    assert Unit(8);
    if DescSize(d, true, w, 8).size == size {
      forall m | Unit(m) ensures DescSize(d, true, w, m).size == size {
        DescGrows(d, true, w, 0, m);
        DescGrows(d, true, w, m, 8);
      }
    }
  }

  // ---- two orders of the same fields ----

  ghost predicate SameFields(d: Desc, e: Desc) {
    d.Dict? && e.Dict? && multiset(d.fields) == multiset(e.fields)
  }
  lemma InSame(d: Desc, e: Desc, f: Field)
    requires SameFields(d, e) && f in d.fields
    ensures f in e.fields
  {
    assert f in multiset(d.fields);
  }
  /** The biggest field is within a bound exactly if all are, in any order. */
  lemma {:induction false} BiggestWithin(d: Desc, k: nat, w: Width, bound: nat)
    requires d.Dict? && k <= |d.fields|
    ensures FieldsSize(d, k, true, w, 0).max <= bound
            <==> forall i :: 0 <= i < k ==> FieldSize(d.fields[i], true, w, 0).max <= bound
    decreases k
  {
    if k > 0 {
      BiggestWithin(d, k - 1, w, bound);
      FieldMaxIs(d, k, w);
      hide FieldsSize, FieldSize;
    }
  }
  lemma FieldMaxIs(d: Desc, k: nat, w: Width)
    requires d.Dict? && 0 < k <= |d.fields|
    ensures FieldsSize(d, k, true, w, 0).max
         == Max(FieldsSize(d, k - 1, true, w, 0).max, FieldSize(d.fields[k - 1], true, w, 0).max)
  {
    FieldsMax(d, k - 1, true, w, 0);
    var f := d.fields[k - 1];
    if f.Aggregate? {
      AggMax(f.agg, true, w, FieldsSize(d, k - 1, true, w, 0).max);
    }
  }
  /** If every field met in one list is met in the other, the biggest there is at least as big. */
  lemma BiggestGrows(d: Desc, j: nat, e: Desc, k: nat, w: Width)
    requires d.Dict? && e.Dict? && j <= |d.fields| && k <= |e.fields|
    requires forall f :: f in d.fields[..j] ==> f in e.fields[..k]
    ensures FieldsSize(d, j, true, w, 0).max <= FieldsSize(e, k, true, w, 0).max
  {
    var bound := FieldsSize(e, k, true, w, 0).max;
    BiggestWithin(d, j, w, bound);
    BiggestWithin(e, k, w, bound);
    forall i | 0 <= i < j ensures FieldSize(d.fields[i], true, w, 0).max <= bound {
      assert d.fields[i] == d.fields[..j][i];
      var f := d.fields[i];
      assert f in e.fields[..k];
      var l :| 0 <= l < k && e.fields[..k][l] == f;
      assert e.fields[l] == f;
    }
  }
  lemma SameBiggest(d: Desc, e: Desc, w: Width)
    requires SameFields(d, e)
    ensures DescSize(d, true, w, 0).max == DescSize(e, true, w, 0).max
    ensures HasLeaf(d) <==> HasLeaf(e)
  {
    var n, k := |d.fields|, |e.fields|;
    assert d.fields[..n] == d.fields && e.fields[..k] == e.fields;
    forall f | f in d.fields ensures f in e.fields { InSame(d, e, f); }
    forall f | f in e.fields ensures f in d.fields { InSame(e, d, f); }
    BiggestGrows(d, n, e, k, w);
    BiggestGrows(e, k, d, n, w);
    LeafMax(d, true, w);
    LeafMax(e, true, w);
  }
  /** One order reports no more than another exactly if its fields, as it measures them, end within the
      size the other reports. */
  lemma NoMoreExactly(d: Desc, e: Desc, w: Width)
    requires SameFields(d, e) && HasLeaf(d)
    ensures Size(e, true, w) <= Size(d, true, w) <==> EndsWithin(e, true, w, 0, Size(d, true, w))
  {
    SameBiggest(d, e, w);
    NativeMultiple(d, w, 0);
    SizeWithin(e, w, 0, Size(d, true, w));
  }
  /** Two orders report the same size exactly if the fields of each end within the size of the other. */
  lemma SameSizeExactly(d: Desc, e: Desc, w: Width)
    requires SameFields(d, e)
    ensures Size(d, true, w) == Size(e, true, w)
            <==> !HasLeaf(d) || (EndsWithin(e, true, w, 0, Size(d, true, w)) && EndsWithin(d, true, w, 0, Size(e, true, w)))
  {
    SameBiggest(d, e, w);
    if HasLeaf(d) {
      NoMoreExactly(d, e, w);
      NoMoreExactly(e, d, w);
    } else {
      NativeMultiple(d, w, 0);
      NativeMultiple(e, w, 0);
    }
  }

  /** The dictionary with field `i` taken out, and with it moved to the end. */
  function Rest(d: Desc, i: nat): Desc
    requires d.Dict? && i < |d.fields|
  {
    Dict(d.fields[..i] + d.fields[i + 1..])
  }
  function MovedLast(d: Desc, i: nat): Desc
    requires d.Dict? && i < |d.fields|
  {
    Dict(Rest(d, i).fields + [d.fields[i]])
  }
  /** The biggest of the other fields. */
  function BiggestOther(d: Desc, i: nat, w: Width): nat
    requires d.Dict? && i < |d.fields|
  {
    FieldsSize(Rest(d, i), |d.fields| - 1, true, w, 0).max
  }
  lemma TakenOut(d: Desc, i: nat)
    requires d.Dict? && i < |d.fields|
    ensures multiset(d.fields) == multiset(Rest(d, i).fields) + multiset{d.fields[i]}
    ensures SameFields(d, MovedLast(d, i))
  {
    assert d.fields == d.fields[..i] + [d.fields[i]] + d.fields[i + 1..];
  }
  lemma {:induction false} PrefixSize(d: Desc, e: Desc, k: nat, w: Width, m: nat)
    requires d.Dict? && e.Dict? && k <= |d.fields| && k <= |e.fields| && d.fields[..k] == e.fields[..k]
    ensures FieldsSize(d, k, true, w, m) == FieldsSize(e, k, true, w, m)
    decreases k
  {
    if k > 0 {
      assert d.fields[..k - 1] == d.fields[..k][..k - 1] && e.fields[..k - 1] == e.fields[..k][..k - 1];
      assert d.fields[k - 1] == d.fields[..k][k - 1] && e.fields[k - 1] == e.fields[..k][k - 1];
      PrefixSize(d, e, k - 1, w, m);
    }
  }
  lemma LastEnd(d: Desc, i: nat, w: Width)
    requires d.Dict? && i < |d.fields|
    ensures EndAt(MovedLast(d, i), |d.fields| - 1, true, w, 0) == EndOf(d.fields[i], true, w, BiggestOther(d, i, w))
  {
    var r, e, k := Rest(d, i), MovedLast(d, i), |d.fields| - 1;
    assert r.fields[..k] == e.fields[..k];
    PrefixSize(r, e, k, w, 0);
  }
  lemma Remains<T>(all: seq<T>, rest: seq<T>, pre: seq<T>, x: T, post: seq<T>, y: T)
    requires all == pre + [x] + post && multiset(all) == multiset(rest) + multiset{x} && y in pre
    ensures y in rest
  {
    assert multiset(all) == multiset(pre) + multiset([x]) + multiset(post);
    assert multiset([x]) == multiset{x};
    assert multiset(rest) == multiset(all) - multiset{x};
    assert multiset(rest) == multiset(pre) + multiset(post);
    assert y in multiset(pre);
    assert y in multiset(rest);
  }
  /** Wherever a field stands, what is met before it is no bigger than the biggest of the others. */
  lemma MetBefore(d: Desc, e: Desc, j: nat, i: nat, w: Width)
    requires SameFields(d, e) && j < |e.fields| && i < |d.fields| && e.fields[j] == d.fields[i]
    ensures FieldsSize(e, j, true, w, 0).max <= BiggestOther(d, i, w)
  {
    hide FieldsSize;
    var r := Rest(d, i);
    OthersBefore(d, e, j, i);
    assert r.fields[..|d.fields| - 1] == r.fields;
    hide SameFields;
    BiggestGrows(e, j, r, |d.fields| - 1, w);
  }
  lemma OthersBefore(d: Desc, e: Desc, j: nat, i: nat)
    requires SameFields(d, e) && j < |e.fields| && i < |d.fields| && e.fields[j] == d.fields[i]
    ensures forall f :: f in e.fields[..j] ==> f in Rest(d, i).fields
  {
    TakenOut(d, i);
    var pre, post, rest := e.fields[..j], e.fields[j + 1..], Rest(d, i).fields;
    assert e.fields == pre + [e.fields[j]] + post;
    hide Rest;
    forall f | f in pre ensures f in rest {
      Remains(e.fields, rest, pre, e.fields[j], post, f);
    }
  }
  lemma EndGrows(f: Field, w: Width, m: nat, m': nat)
    requires Unit(m) && Unit(m') && m <= m'
    ensures EndOf(f, true, w, m) <= EndOf(f, true, w, m')
  {
    if f.Aggregate? {
      AggGrows(f.agg, true, w, m, m');
    }
  }
  /** No order reports more than this one if and only if every field, measured after all the others,
      still ends within the size this one reports. */
  lemma WorstOrderExactly(d: Desc, w: Width)
    requires d.Dict? && HasLeaf(d)
    ensures (forall e :: SameFields(d, e) ==> Size(e, true, w) <= Size(d, true, w))
            <==> forall i :: 0 <= i < |d.fields| ==>
                   EndOf(d.fields[i], true, w, BiggestOther(d, i, w)) <= Size(d, true, w)
  {
    var size := Size(d, true, w);
    if forall i :: 0 <= i < |d.fields| ==> EndOf(d.fields[i], true, w, BiggestOther(d, i, w)) <= size {
      forall e | SameFields(d, e) ensures Size(e, true, w) <= size {
        NoWorse(d, e, w);
      }
    } else {
      var i :| 0 <= i < |d.fields| && EndOf(d.fields[i], true, w, BiggestOther(d, i, w)) > size;
      var e := MovedLast(d, i);
      TakenOut(d, i);
      LastEnd(d, i, w);
      NoMoreExactly(d, e, w);
      assert EndAt(e, |d.fields| - 1, true, w, 0) > size;
      assert SameFields(d, e) && Size(e, true, w) > size;
    }
  }
  lemma NoWorse(d: Desc, e: Desc, w: Width)
    requires SameFields(d, e) && HasLeaf(d)
    requires forall i :: 0 <= i < |d.fields| ==> EndOf(d.fields[i], true, w, BiggestOther(d, i, w)) <= Size(d, true, w)
    ensures Size(e, true, w) <= Size(d, true, w)
  {
    hide Size, FieldsSize, FieldSize, EndOf, BiggestOther, HasLeaf, EndAt;
    NoMoreExactly(d, e, w);
    forall j | 0 <= j < |e.fields| ensures EndAt(e, j, true, w, 0) <= Size(d, true, w) {
      NoWorseAt(d, e, j, w);
    }
  }
  lemma NoWorseAt(d: Desc, e: Desc, j: nat, w: Width)
    requires SameFields(d, e) && j < |e.fields|
    requires forall i :: 0 <= i < |d.fields| ==> EndOf(d.fields[i], true, w, BiggestOther(d, i, w)) <= Size(d, true, w)
    ensures EndAt(e, j, true, w, 0) <= Size(d, true, w)
  {
    hide Size, FieldsSize, FieldSize, EndOf, BiggestOther;
    InSame(e, d, e.fields[j]);
    var i :| 0 <= i < |d.fields| && d.fields[i] == e.fields[j];
    MetBefore(d, e, j, i, w);
    FieldsMax(e, j, true, w, 0);
    OtherIsUnit(d, i, w);
    EndGrows(e.fields[j], w, FieldsSize(e, j, true, w, 0).max, BiggestOther(d, i, w));
  }
  lemma OtherIsUnit(d: Desc, i: nat, w: Width)
    requires d.Dict? && i < |d.fields|
    ensures Unit(BiggestOther(d, i, w))
  {
    FieldsMax(Rest(d, i), |d.fields| - 1, true, w, 0);
  }
  /** If no field's size depends on what is met before it, no order matters. */
  lemma PlainOrders(d: Desc, e: Desc, w: Width)
    requires SameFields(d, e) && forall f, m :: f in d.fields && Unit(m) ==> EndOf(f, true, w, m) == EndOf(f, true, w, 0)
    ensures Size(d, true, w) == Size(e, true, w)
  {
    SameSizeExactly(d, e, w);
    if HasLeaf(d) {
      SameBiggest(d, e, w);
      PlainWithin(d, e, w);
      forall f | f in e.fields ensures f in d.fields { InSame(e, d, f); }
      PlainWithin(e, d, w);
    }
  }
  lemma PlainWithin(d: Desc, e: Desc, w: Width)
    requires SameFields(d, e) && HasLeaf(d)
    requires forall f, m :: f in d.fields && Unit(m) ==> EndOf(f, true, w, m) == EndOf(f, true, w, 0)
    ensures EndsWithin(e, true, w, 0, Size(d, true, w))
  {
    EndsAlone(d, w);
    forall j | 0 <= j < |e.fields| ensures EndAt(e, j, true, w, 0) <= Size(d, true, w) {
      InSame(e, d, e.fields[j]);
      var i :| 0 <= i < |d.fields| && d.fields[i] == e.fields[j];
      FieldsMax(e, j, true, w, 0);
      FieldsMax(d, i, true, w, 0);
      assert EndAt(d, i, true, w, 0) <= Size(d, true, w);
    }
  }

  /** A descriptor whose size depends on the order: what comes after a big scalar is measured with that
      scalar's alignment. */
  lemma OrderMatters(w: Width)
    ensures var wide, bytes := Scalar(0, 6), Aggregate(8, Array(Dict([Scalar(0, 0)]), 4));
            && SameFields(Dict([wide, bytes]), Dict([bytes, wide]))
            && Size(Dict([wide, bytes]), true, w) == 40
            && Size(Dict([bytes, wide]), true, w) == 16
  {
    var wide, item := Scalar(0, 6), Dict([Scalar(0, 0)]);
    var bytes := Aggregate(8, Array(item, 4));
    assert FieldsSize(item, 1, true, w, 0) == Sized(1, 1);
    assert FieldsSize(item, 1, true, w, 8) == Sized(1, 8);
    var d, e := Dict([wide, bytes]), Dict([bytes, wide]);
    assert FieldsSize(d, 1, true, w, 0) == Sized(8, 8);
    assert FieldsSize(d, 2, true, w, 0) == Sized(40, 8);
    assert FieldsSize(e, 1, true, w, 0) == Sized(12, 1);
    assert FieldsSize(e, 2, true, w, 0) == Sized(12, 8);
  }
}
