/** Exactly when the loader's value is the one RFC 4627 gives the text: section 2.5 reads an
    escaped surrogate pair as one character, the loader reads two. */
module JsonSurrogates {
  import opened JsonText
  import opened JsonLoad
  import JsonCorrect

  function RfcMeaning(j: Json): Value
    requires Valid(j)
  {
    match j
    case JString(cs) => Str(RfcBytes(cs))
    case JArray(_, es) => List(RfcElems(es))
    case JObject(_, ms) => Dict(RfcMembers([], ms))
    case _ => Meaning(j)
  }
  function RfcElems(es: Elems): seq<Value>
    requires ValidElems(es)
  {
    if es.NoElems? then [] else [RfcMeaning(es.value)] + RfcElems(es.rest)
  }
  function RfcMembers(acc: seq<(Value, Value)>, ms: Members): seq<(Value, Value)>
    requires ValidMembers(ms)
    decreases ms
  {
    if ms.NoMembers? then acc
    else RfcMembers(Store(acc, Str(RfcBytes(ms.key)), RfcMeaning(ms.value)), ms.rest)
  }

  predicate NoPair(cs: seq<StrChar>) { forall i :: 0 <= i < |cs| ==> !PairAt(cs, i) }
  /** No string or key of the text holds an escaped surrogate pair. */
  predicate PairFree(j: Json) {
    match j
    case JString(cs) => NoPair(cs)
    case JArray(_, es) => PairFreeElems(es)
    case JObject(_, ms) => PairFreeMembers(ms)
    case _ => true
  }
  predicate PairFreeElems(es: Elems) {
    es.Elem? ==> PairFree(es.value) && PairFreeElems(es.rest)
  }
  predicate PairFreeMembers(ms: Members) {
    ms.Member? ==> NoPair(ms.key) && PairFree(ms.value) && PairFreeMembers(ms.rest)
  }

  /** No object of the text repeats a key (section 2.2 of RFC 4627 asks for this). */
  predicate DistinctKeys(j: Json)
    requires Valid(j)
  {
    match j
    case JArray(_, es) => DistinctElems(es)
    case JObject(_, ms) => DistinctMembers(ms, {})
    case _ => true
  }
  predicate DistinctElems(es: Elems)
    requires ValidElems(es)
  {
    es.Elem? ==> DistinctKeys(es.value) && DistinctElems(es.rest)
  }
  predicate DistinctMembers(ms: Members, seen: set<string>)
    requires ValidMembers(ms)
    decreases ms
  {
    ms.Member? ==>
      CharsBytes(ms.key) !in seen && DistinctKeys(ms.value)
      && DistinctMembers(ms.rest, seen + {CharsBytes(ms.key)})
  }

  // ---- without pairs the readings agree ----

  lemma {:induction false} PairFreeAgrees(j: Json)
    requires Valid(j) && PairFree(j)
    ensures RfcMeaning(j) == Meaning(j)
    decreases j
  {
    match j
    case JString(cs) => SurrogatePairsMatter(cs);
    case JArray(_, es) => PairFreeElemsAgree(es);
    case JObject(_, ms) => PairFreeMembersAgree([], ms);
    case _ =>
  }
  lemma {:induction false} PairFreeElemsAgree(es: Elems)
    requires ValidElems(es) && PairFreeElems(es)
    ensures RfcElems(es) == ElemsMeaning(es)
    decreases es
  {
    if es.Elem? {
      PairFreeAgrees(es.value);
      PairFreeElemsAgree(es.rest);
    }
  }
  lemma {:induction false} PairFreeMembersAgree(acc: seq<(Value, Value)>, ms: Members)
    requires ValidMembers(ms) && PairFreeMembers(ms)
    ensures RfcMembers(acc, ms) == MembersMeaning(acc, ms)
    decreases ms
  {
    if ms.Member? {
      SurrogatePairsMatter(ms.key);
      PairFreeAgrees(ms.value);
      PairFreeMembersAgree(Store(acc, Str(CharsBytes(ms.key)), Meaning(ms.value)), ms.rest);
    }
  }

  // ---- with a pair they differ: the RFC's value holds fewer string bytes ----

  function Weight(v: Value): nat
    decreases v, 1
  {
    match v
    case Str(bytes) => |bytes|
    case List(items) => WeightItems(items)
    case Dict(entries) => WeightEntries(entries)
    case _ => 0
  }
  function WeightItems(vs: seq<Value>): nat
    decreases vs, 0
  {
    if vs == [] then 0 else Weight(vs[0]) + WeightItems(vs[1..])
  }
  function WeightEntries(es: seq<(Value, Value)>): nat
    decreases es, 0
  {
    if es == [] then 0 else WeightEntry(es[0]) + WeightEntries(es[1..])
  }
  function WeightEntry(e: (Value, Value)): nat
    decreases e, 0
  {
    Weight(e.0) + Weight(e.1)
  }

  ghost predicate HasKey(es: seq<(Value, Value)>, k: Value) {
    exists i :: 0 <= i < |es| && es[i].0 == k
  }
  lemma {:induction false} StoreWeight(es: seq<(Value, Value)>, k: Value, v: Value)
    ensures WeightEntries(Store(es, k, v)) <= WeightEntries(es) + Weight(k) + Weight(v)
    ensures !HasKey(es, k) ==> WeightEntries(Store(es, k, v)) == WeightEntries(es) + Weight(k) + Weight(v)
    ensures forall k' :: HasKey(Store(es, k, v), k') ==> k' == k || HasKey(es, k')
  {
    if es == [] {
      assert WeightEntries([(k, v)]) == Weight(k) + Weight(v) + WeightEntries([]);
    } else if es[0].0 == k {
      assert HasKey(es, k);
      forall k' | HasKey(Store(es, k, v), k') ensures k' == k || HasKey(es, k') {
        var i :| 0 <= i < |Store(es, k, v)| && Store(es, k, v)[i].0 == k';
        assert es[i].0 == k';
      }
    } else {
      StoreWeight(es[1..], k, v);
      assert Store(es, k, v)[1..] == Store(es[1..], k, v);
      forall k' | HasKey(es[1..], k') ensures HasKey(es, k') {
        var i :| 0 <= i < |es[1..]| && es[1..][i].0 == k';
        assert es[i + 1].0 == k';
      }
      forall k' | HasKey(Store(es, k, v), k') ensures k' == k || HasKey(es, k') {
        var i :| 0 <= i < |Store(es, k, v)| && Store(es, k, v)[i].0 == k';
        assert i == 0 ==> HasKey(es, k');
        assert i > 0 ==> Store(es[1..], k, v)[i - 1].0 == k';
      }
    }
  }

  lemma {:induction false} RfcWeighsLess(j: Json)
    requires Valid(j) && DistinctKeys(j)
    ensures Weight(RfcMeaning(j)) <= Weight(Meaning(j))
    ensures !PairFree(j) ==> Weight(RfcMeaning(j)) < Weight(Meaning(j))
    decreases j
  {
    match j
    case JString(cs) => RfcNoLonger(cs);
    case JArray(_, es) => RfcElemsWeighLess(es);
    case JObject(_, ms) => RfcMembersWeighLess([], [], ms, {});
    case _ =>
  }
  lemma {:induction false} RfcElemsWeighLess(es: Elems)
    requires ValidElems(es) && DistinctElems(es)
    ensures WeightItems(RfcElems(es)) <= WeightItems(ElemsMeaning(es))
    ensures !PairFreeElems(es) ==> WeightItems(RfcElems(es)) < WeightItems(ElemsMeaning(es))
    decreases es
  {
    if es.Elem? {
      RfcWeighsLess(es.value);
      RfcElemsWeighLess(es.rest);
      assert RfcElems(es)[1..] == RfcElems(es.rest);
      assert ElemsMeaning(es)[1..] == ElemsMeaning(es.rest);
    }
  }
  lemma {:induction false} RfcMembersWeighLess(
      rfc: seq<(Value, Value)>, code: seq<(Value, Value)>, ms: Members, seen: set<string>)
    requires ValidMembers(ms) && DistinctMembers(ms, seen)
    requires WeightEntries(rfc) <= WeightEntries(code)
    requires forall k :: HasKey(code, k) ==> k.Str? && k.bytes in seen
    ensures var r, c := WeightEntries(RfcMembers(rfc, ms)), WeightEntries(MembersMeaning(code, ms));
            r <= c && (!PairFreeMembers(ms) || WeightEntries(rfc) < WeightEntries(code) ==> r < c)
    decreases ms
  {
    if ms.Member? {
      RfcNoLonger(ms.key);
      RfcWeighsLess(ms.value);
      var k, v := Str(CharsBytes(ms.key)), Meaning(ms.value);
      StoreWeight(rfc, Str(RfcBytes(ms.key)), RfcMeaning(ms.value));
      StoreWeight(code, k, v);
      RfcMembersWeighLess(Store(rfc, Str(RfcBytes(ms.key)), RfcMeaning(ms.value)),
                          Store(code, k, v), ms.rest, seen + {k.bytes});
    }
  }

  /** Over texts that repeat no key, the loader returns the RFC's value exactly for the texts
      without escaped surrogate pairs.  (The `if` part needs no condition on keys.) */
  method LoadRfc(ok: (bool, string) -> bool, text: string) returns (r: Result<(Heap, nat)>)
    ensures forall d :: ValidDocument(d) && NumbersOk(ok, d.root) && DocumentText(d) == text && PairFree(d.root)
                        ==> JsonCorrect.Loads(r, RfcMeaning(d.root))
    ensures forall d :: ValidDocument(d) && NumbersOk(ok, d.root) && DocumentText(d) == text && DistinctKeys(d.root)
                        ==> (JsonCorrect.Loads(r, RfcMeaning(d.root)) <==> PairFree(d.root))
  {
    r := JsonCorrect.LoadText(ok, text);
    forall d | ValidDocument(d) && NumbersOk(ok, d.root) && DocumentText(d) == text
      ensures PairFree(d.root) ==> JsonCorrect.Loads(r, RfcMeaning(d.root))
      ensures DistinctKeys(d.root) && !PairFree(d.root) ==> !JsonCorrect.Loads(r, RfcMeaning(d.root))
    {
      if PairFree(d.root) {
        PairFreeAgrees(d.root);
      } else if DistinctKeys(d.root) {
        RfcWeighsLess(d.root);
      }
    }
  }
}
