/** Every text the RFC 4627 grammar derives is loaded to the value it denotes. */
module JsonCorrect {
  import opened JsonText
  import opened JsonLoad

  // ---- the object heap: what a step elsewhere does not disturb ----

  /** Objects from `r` on are the same in both heaps. */
  ghost predicate SameFrom(h: Heap, h': Heap, r: int) {
    |h| <= |h'| && forall i :: 0 <= i < |h| && r <= i ==> h'[i] == h[i]
  }

  lemma {:induction false} ReifyFrame(h: Heap, h': Heap, r: nat)
    requires Ordered(h) && Ordered(h') && r < |h| && SameFrom(h, h', r)
    ensures Reify(h', r) == Reify(h, r)
    decreases |h| - r
  {
    forall c: nat | Refers(h[r], c) ensures c < |h| && Reify(h', c) == Reify(h, c) {
      ReifyFrame(h, h', c);
    }
    match h[r]
    case Prim(_) =>
    case ListObj(items) =>
      assert forall i :: 0 <= i < |items| ==> Refers(h[r], items[i]);
    case DictObj(entries) =>
      assert forall i :: 0 <= i < |entries| ==> Refers(h[r], entries[i].1);
  }

  /** What storing `v` does to the value of a container. */
  function PutValue(c: Value, key: Option<Value>, v: Value): Value
    requires c.List? || (c.Dict? && key.Some?)
  {
    if c.List? then List(c.items + [v]) else Dict(Store(c.entries, key.value, v))
  }

  /** Storing in two lists with the same keys: the lists keep the same keys, and each entry is the
      new one in both or an old one in both. */
  ghost predicate Alike<T, U>(es: seq<(Value, T)>, fs: seq<(Value, U)>) {
    |es| == |fs| && forall i :: 0 <= i < |es| ==> es[i].0 == fs[i].0
  }
  lemma {:induction false} StoreAlike<T, U>(es: seq<(Value, T)>, fs: seq<(Value, U)>, k: Value, x: T, y: U)
    requires Alike(es, fs)
    ensures Alike(Store(es, k, x), Store(fs, k, y))
  {
    if es != [] && es[0].0 != k {
      StoreAlike(es[1..], fs[1..], k, x, y);
    }
  }
  lemma {:induction false} StoreAt<T, U>(es: seq<(Value, T)>, fs: seq<(Value, U)>, k: Value, x: T, y: U, i: nat)
    requires Alike(es, fs) && i < |Store(es, k, x)| && i < |Store(fs, k, y)|
    ensures (Store(es, k, x)[i].1 == x && Store(fs, k, y)[i].1 == y)
            || (i < |es| && Store(es, k, x)[i] == es[i] && Store(fs, k, y)[i] == fs[i])
  {
    if es != [] && es[0].0 != k && i > 0 {
      StoreAt(es[1..], fs[1..], k, x, y, i - 1);
    }
  }
  lemma StoreIndex<T, U>(es: seq<(Value, T)>, fs: seq<(Value, U)>, k: Value, x: T, y: U)
    requires Alike(es, fs)
    ensures var es', fs' := Store(es, k, x), Store(fs, k, y);
            && Alike(es', fs')
            && forall i :: 0 <= i < |es'| ==>
                 (es'[i].1 == x && fs'[i].1 == y) || (i < |es| && es'[i] == es[i] && fs'[i] == fs[i])
  {
    hide Store;
    StoreAlike(es, fs, k, x, y);
    forall i | 0 <= i < |Store(es, k, x)|
      ensures (Store(es, k, x)[i].1 == x && Store(fs, k, y)[i].1 == y)
              || (i < |es| && Store(es, k, x)[i] == es[i] && Store(fs, k, y)[i] == fs[i])
    {
      StoreAt(es, fs, k, x, y, i);
    }
  }

  /** Object `t` of `h'` is `t` of `h` with `n` stored in it; older children are undisturbed. */
  lemma ReifyPut(h: Heap, h': Heap, t: nat, key: Option<Value>, n: nat)
    requires Ordered(h) && Ordered(h') && t < |h| <= n < |h'| && SameFrom(h, h', t + 1)
    requires !h[t].Prim? && (h[t].DictObj? ==> key.Some?)
    requires h'[t] == Put(h[t], key, n)
    ensures Reify(h', t) == PutValue(Reify(h, t), key, Reify(h', n))
  {
    forall c: nat | Refers(h[t], c) ensures c < |h| && Reify(h', c) == Reify(h, c) {
      ReifyFrame(h, h', c);
    }
    if h[t].ListObj? {
      var items := h[t].items;
      forall i | 0 <= i < |items| ensures Refers(h[t], items[i]) {}
      assert Reify(h', t).items == Reify(h, t).items + [Reify(h', n)];
    } else {
      var es := h[t].entries;
      var vs := Reify(h, t).entries;
      var v := Reify(h', n);
      forall i | 0 <= i < |es| ensures Refers(h[t], es[i].1) {}
      StoreIndex(es, vs, key.value, n, v);
      var es', vs' := Store(es, key.value, n), Store(vs, key.value, v);
      forall i | 0 <= i < |es'| ensures Reify(h', t).entries[i] == vs'[i] {
        assert Reify(h', t).entries[i] == (es'[i].0, Reify(h', es'[i].1));
      }
      assert Reify(h', t).entries == vs';
    }
  }

  // ---- tokens ----

  lemma OrStep(a: nat, b: nat)
    ensures BitOr(2 * a, b) == 2 * BitOr(a, b / 2) + b % 2
  {
    if a == 0 || b == 0 {
      assert BitOr(a, b / 2) == a + b / 2;
    }
  }
  lemma BitOrLow(n: nat, c: nat)
    requires c < 16
    ensures BitOr(16 * n, c) == 16 * n + c
  {
    hide BitOr;
    OrStep(8 * n, c);
    var c1 := c / 2;
    OrStep(4 * n, c1);
    var c2 := c1 / 2;
    OrStep(2 * n, c2);
    var c3 := c2 / 2;
    OrStep(n, c3);
    OrNothing(n);
  }
  lemma OrNothing(n: nat)
    ensures BitOr(n, 0) == n
  {}

  lemma HexByteIs(c: char)
    requires IsHex(c)
    ensures HexByte(c) == HexDigit(c) < 16
  {}
  lemma HexStep(s: string, num: nat, k: nat, x: char, c: char, tail: string)
    requires k > 0 && IsHex(c) && s == [x] + ([c] + tail)
    ensures HexRun(s, num, k) == HexRun([c] + tail, 16 * num + HexDigit(c), k - 1)
  {
    assert Next(s) == [c] + tail;
    HexByteIs(c);
    hide BitOr, HexByte, HexDigit, IsHex;
    BitOrLow(num, HexDigit(c));
  }

  lemma HexRunValue(ch: StrChar, tail: string)
    requires ch.Unicode? && GoodChar(ch)
    ensures HexRun(CharText(ch)[1..] + tail, 0, 4) == (CodeUnit(ch), [ch.h3] + tail)
  {
    hide HexRun, HexDigit;
    var t3 := [ch.h3] + tail;
    var t2 := [ch.h2] + t3;
    var t1 := [ch.h1] + t2;
    var t0 := [ch.h0] + t1;
    assert CharText(ch)[1..] + tail == ['u'] + t0;
    var n0 := HexDigit(ch.h0);
    var n1 := 16 * n0 + HexDigit(ch.h1);
    var n2 := 16 * n1 + HexDigit(ch.h2);
    HexStep(['u'] + t0, 0, 4, 'u', ch.h0, t1);
    HexStep(t0, n0, 3, ch.h0, ch.h1, t2);
    HexStep(t1, n1, 2, ch.h1, ch.h2, t3);
    HexStep(t2, n2, 1, ch.h2, ch.h3, tail);
    HexDone(t3, CodeUnit(ch));
  }
  lemma HexDone(s: string, num: nat)
    ensures HexRun(s, num, 0) == (num, s)
  {}

  lemma ScanChar(ch: StrChar, tail: string, acc: string)
    requires GoodChar(ch)
    ensures ScanString(CharText(ch) + tail, acc) == ScanString(tail, acc + CharBytes(ch))
  {
    var s := CharText(ch) + tail;
    assert s[0] == CharText(ch)[0] && Next(s) == CharText(ch)[1..] + tail;
    match ch
    case Plain(_) =>
      assert Next(s) == tail;
    case Escaped(c) =>
      assert Next(s) == [c] + tail && Next(Next(s)) == tail;
    case Unicode(_, _, _, _) =>
      HexRunValue(ch, tail);
      assert Next([ch.h3] + tail) == tail;
  }

  lemma ScanQuote(rest: string, acc: string)
    ensures ScanString("\"" + rest, acc) == Some((acc, rest))
  {
    assert Next("\"" + rest) == rest;
  }
  lemma {:induction false} ScanChars(cs: seq<StrChar>, rest: string, acc: string)
    requires GoodChars(cs)
    ensures ScanString(CharsText(cs) + ("\"" + rest), acc) == Some((acc + CharsBytes(cs), rest))
  {
    hide ScanString, CharText, CharBytes, GoodChar;
    if cs == [] {
      assert CharsText(cs) + ("\"" + rest) == "\"" + rest;
      ScanQuote(rest, acc);
      assert acc + CharsBytes(cs) == acc;
    } else {
      var tail := CharsText(cs[1..]) + ("\"" + rest);
      assert CharsText(cs) + ("\"" + rest) == CharText(cs[0]) + tail;
      ScanChar(cs[0], tail, acc);
      ScanChars(cs[1..], rest, acc + CharBytes(cs[0]));
      assert acc + CharBytes(cs[0]) + CharsBytes(cs[1..]) == acc + CharsBytes(cs);
    }
  }

  predicate HasMark(s: string) { exists c :: c in s && IsFloatMark(c) }

  lemma {:induction false} ScanDigits(t: string, rest: string, acc: string, flt: bool)
    requires (forall c :: c in t ==> IsNumberChar(c)) && !IsNumberChar(Cur(rest))
    ensures ScanNumber(t + rest, acc, flt) == (acc + t, flt || HasMark(t), rest)
  {
    if t == "" {
      assert t + rest == rest && acc + t == acc;
    } else {
      assert Next(t + rest) == t[1..] + rest;
      ScanDigits(t[1..], rest, acc + [t[0]], flt || IsFloatMark(t[0]));
      assert acc + [t[0]] + t[1..] == acc + t;
      assert HasMark(t) <==> IsFloatMark(t[0]) || HasMark(t[1..]) by {
        assert t == [t[0]] + t[1..];
      }
    }
  }

  predicate AllNumber(s: string) { forall c :: c in s ==> IsNumberChar(c) }
  lemma NumberCat(a: string, b: string)
    ensures AllNumber(a) && AllNumber(b) ==> AllNumber(a + b)
    ensures HasMark(a + b) <==> HasMark(a) || HasMark(b)
  {
    if HasMark(a) || HasMark(b) {
      var c :| (c in a || c in b) && IsFloatMark(c);
      assert c in a + b;
    }
  }
  function NumberHead(j: Json): string
    requires j.JNumber?
  {
    (if j.minus then "-" else "") + j.whole
  }
  lemma HeadShape(j: Json)
    requires j.JNumber? && Valid(j)
    ensures var h := NumberHead(j);
            h != "" && (h[0] == '-' || IsDigit(h[0])) && AllNumber(h) && !HasMark(h[1..])
  {
    var h := NumberHead(j);
    assert forall c :: c in h ==> c == '-' || IsDigit(c);
    assert forall c :: c in h[1..] ==> c in h;
  }
  lemma TailShape(mark: string, digits: string)
    requires mark != "" && IsFloatMark(mark[0]) && AllNumber(mark) && Digits(digits)
    ensures AllNumber(mark + digits) && HasMark(mark + digits)
  {
    NumberCat(mark, digits);
    assert mark[0] in mark;
  }
  function FracText(j: Json): string
    requires j.JNumber?
  {
    if j.frac.Some? then "." + j.frac.value else ""
  }
  function ExpText(j: Json): string
    requires j.JNumber?
  {
    if j.exp.Some? then [j.exp.value.e] + j.exp.value.sign + j.exp.value.digits else ""
  }
  lemma TailsShape(j: Json)
    requires j.JNumber? && Valid(j)
    ensures AllNumber(FracText(j)) && (HasMark(FracText(j)) <==> j.frac.Some?)
    ensures AllNumber(ExpText(j)) && (HasMark(ExpText(j)) <==> j.exp.Some?)
  {
    if j.frac.Some? {
      TailShape(".", j.frac.value);
    }
    if j.exp.Some? {
      TailShape([j.exp.value.e] + j.exp.value.sign, j.exp.value.digits);
    }
  }
  lemma NumberIs(j: Json)
    requires j.JNumber?
    ensures NumberText(j) == NumberHead(j) + FracText(j) + ExpText(j)
  {}
  lemma NumberShape(j: Json)
    requires j.JNumber? && Valid(j)
    ensures var t := NumberText(j);
            && t != "" && (t[0] == '-' || IsDigit(t[0]))
            && AllNumber(t) && (HasMark(t[1..]) <==> j.frac.Some? || j.exp.Some?)
  {
    hide *;
    var head, frac, exp := NumberHead(j), FracText(j), ExpText(j);
    NumberIs(j);
    HeadShape(j);
    TailsShape(j);
    NumberCat(head, frac);
    NumberCat(head + frac, exp);
    NumberCat(head[1..], frac);
    NumberCat(head[1..] + frac, exp);
    assert (head + frac + exp)[1..] == head[1..] + frac + exp;
  }

  predicate Primitive(j: Json) { !j.JArray? && !j.JObject? }

  lemma LexPrimitive(ok: (bool, string) -> bool, j: Json, rest: string)
    requires Primitive(j) && Valid(j) && NumbersOk(ok, j) && !IsNumberChar(Cur(rest))
    ensures Text(j) != "" && !AtEnd(Text(j))
    ensures Lex(ok, Text(j)[0], Text(j)[1..] + rest) == Token(Prim(Meaning(j)), false, rest)
  {
    hide ScanString, ScanNumber, Keyword, NumberText, CharsText, CharsBytes, GoodChars;
    match j
    case JNull =>
      KeywordMatch("ull", rest);
    case JFalse =>
      KeywordMatch("alse", rest);
    case JTrue =>
      KeywordMatch("rue", rest);
    case JNumber(_, _, frac, exp) =>
      LexNumber(ok, j, rest);
    case JString(cs) =>
      LexString(ok, cs, rest);
  }
  lemma LexNumber(ok: (bool, string) -> bool, j: Json, rest: string)
    requires j.JNumber? && Valid(j) && NumbersOk(ok, j) && !IsNumberChar(Cur(rest))
    ensures var t := NumberText(j);
            && t != "" && !AtEnd(t)
            && Lex(ok, t[0], t[1..] + rest) == Token(Prim(Number(j.frac.Some? || j.exp.Some?, t)), false, rest)
  {
    hide NumberText, ScanNumber, HasMark, Keyword, ScanString, Valid;
    NumberShape(j);
    var t := NumberText(j);
    ScanDigits(t[1..], rest, [t[0]], false);
    assert [t[0]] + t[1..] == t;
  }
  lemma LexString(ok: (bool, string) -> bool, cs: seq<StrChar>, rest: string)
    requires GoodChars(cs)
    ensures var t := StringText(cs); Lex(ok, t[0], t[1..] + rest) == Token(Prim(Str(CharsBytes(cs))), false, rest)
  {
    hide ScanString, CharsText, CharsBytes, GoodChars;
    assert StringText(cs)[1..] + rest == CharsText(cs) + ("\"" + rest);
    ScanChars(cs, rest, "");
    assert "" + CharsBytes(cs) == CharsBytes(cs);
  }
  lemma {:induction false} KeywordMatch(w: string, rest: string)
    ensures Keyword(w + rest, w) == Some(rest)
  {
    if w == "" {
      assert w + rest == rest;
    } else {
      assert Next(w + rest) == w[1..] + rest;
      KeywordMatch(w[1..], rest);
    }
  }

  // ---- the simulation ----

  lemma {:induction false} SkipAll(ok: (bool, string) -> bool, st: State, ws: string, rest: string)
    requires Good(st) && st.input == ws + rest && forall c :: c in ws ==> IsSkipped(c)
    ensures Run(ok, st) == Run(ok, st.(input := rest))
    decreases |ws|
  {
    if ws == "" {
      assert ws + rest == rest;
    } else {
      assert st.input[1..] == ws[1..] + rest && ws[0] in ws;
      SkipAll(ok, st.(input := ws[1..] + rest), ws[1..], rest);
    }
  }

  /** A value may be stored in the container on top. */
  ghost predicate Ready(st: State) {
    && Good(st) && st.top.Some?
    && (st.heap[st.top.value].ListObj? <==> st.key.None?)
  }
  ghost function Top(st: State): Value
    requires Good(st) && st.top.Some?
  {
    Reify(st.heap, st.top.value)
  }
  /** `st'` is `st` with `rest` left to read and `v` stored in the container on top. */
  ghost predicate Stored(st: State, st': State, v: Value, rest: string)
    requires Ready(st)
  {
    var t := st.top.value;
    && Good(st')
    && st'.input == rest && st'.stack == st.stack && st'.top == st.top && st'.key == None
    && |st.heap| < |st'.heap|
    && (forall i :: 0 <= i < |st.heap| && i != t ==> st'.heap[i] == st.heap[i])
    && (st'.heap[t].ListObj? <==> st.heap[t].ListObj?)
    && Top(st') == PutValue(Top(st), st.key, v)
  }

  lemma StorePrimitive(ok: (bool, string) -> bool, st: State, j: Json, rest: string) returns (st': State)
    requires Ready(st) && Primitive(j) && Valid(j) && NumbersOk(ok, j) && !IsNumberChar(Cur(rest))
    requires st.input == Text(j) + rest
    ensures Stored(st, st', Meaning(j), rest) && Run(ok, st) == Run(ok, st')
  {
    hide *;
    PrimitiveRead(ok, st, j, rest);
    var obj, t := Prim(Meaning(j)), st.top.value;
    st' := st.(input := rest, heap := (st.heap + [obj])[t := Put(st.heap[t], st.key, |st.heap|)], key := None);
    PutStep(ok, st, obj, rest);
    RunStep(ok, st, st');
    PutIsStored(st, st', Meaning(j), rest);
  }
  lemma PrimitiveRead(ok: (bool, string) -> bool, st: State, j: Json, rest: string)
    requires Ready(st) && Primitive(j) && Valid(j) && NumbersOk(ok, j) && !IsNumberChar(Cur(rest))
    requires st.input == Text(j) + rest
    ensures Good(st) && st.top.Some? && st.top.value < |st.heap| && !st.heap[st.top.value].Prim?
    ensures st.heap[st.top.value].ListObj? <==> st.key.None?
    ensures !AtEnd(st.input) && Lex(ok, st.input[0], st.input[1..]) == Token(Prim(Meaning(j)), false, rest)
  {
    hide Lex, Text, Meaning, Valid, NumbersOk, IsNumberChar, Primitive;
    LexPrimitive(ok, j, rest);
    assert st.input[0] == Text(j)[0] && st.input[1..] == Text(j)[1..] + rest;
  }
  lemma PutStep(ok: (bool, string) -> bool, st: State, obj: Obj, rest: string)
    requires st.top.Some? && st.top.value < |st.heap| && !st.heap[st.top.value].Prim? && obj.Prim?
    requires st.heap[st.top.value].ListObj? <==> st.key.None?
    requires !AtEnd(st.input) && Lex(ok, st.input[0], st.input[1..]) == Token(obj, false, rest)
    ensures var t := st.top.value;
            Step(ok, st) == Go(st.(input := rest, heap := (st.heap + [obj])[t := Put(st.heap[t], st.key, |st.heap|)],
                                   key := None))
  {
    hide Lex, Put;
  }
  lemma PutIsStored(st: State, st': State, v: Value, rest: string)
    requires Ready(st) && Good(st') && st.top.value < |st.heap|
    requires var t := st.top.value;
             st' == st.(input := rest, heap := (st.heap + [Prim(v)])[t := Put(st.heap[t], st.key, |st.heap|)], key := None)
    ensures Stored(st, st', v, rest)
  {
    ReifyPut(st.heap, st'.heap, st.top.value, st.key, |st.heap|);
  }

  /** After `[` or `{`: a new empty container on top, already stored in its parent. */
  ghost function Entered(st: State, obj: Obj, rest: string): State
    requires Ready(st)
  {
    var t, n := st.top.value, |st.heap|;
    State(rest, (st.heap + [obj])[t := Put(st.heap[t], st.key, n)], st.stack + [t], Some(n), None)
  }
  lemma EnterContainer(ok: (bool, string) -> bool, st: State, obj: Obj, rest: string)
    requires Ready(st) && obj in {ListObj([]), DictObj([])}
    requires st.input == (if obj.ListObj? then "[" else "{") + rest
    ensures Good(Entered(st, obj, rest)) && Run(ok, st) == Run(ok, Entered(st, obj, rest))
  {
    assert st.input[1..] == rest;
    assert Lex(ok, st.input[0], rest) == Token(obj, true, rest);
    StepGood(ok, st);
    assert Step(ok, st) == Go(Entered(st, obj, rest));
  }

  /** `inner` has filled the container that was entered from `st`; the bracket closes it. */
  lemma LeaveContainer(ok: (bool, string) -> bool, st: State, obj: Obj, r0: string, inner: State, v: Value,
                       rest: string) returns (st': State)
    requires Ready(st) && obj in {ListObj([]), DictObj([])} && Good(Entered(st, obj, r0))
    requires Filled(Entered(st, obj, r0), inner, v) && inner.input in {"]" + rest, "}" + rest}
    ensures Stored(st, st', v, rest) && Run(ok, inner) == Run(ok, st')
  {
    var t, n := st.top.value, |st.heap|;
    assert inner.input[1..] == rest;
    StepGood(ok, inner);
    st' := Step(ok, inner).st;
    ReifyPut(st.heap, st'.heap, t, st.key, n);
  }

  /** `st'` is `st` with the empty container on top filled to be `v`. */
  ghost predicate Filled(st: State, st': State, v: Value) {
    && Good(st) && Good(st') && st.top.Some?
    && st'.stack == st.stack && st'.top == st.top && st'.key == None
    && |st.heap| <= |st'.heap|
    && (forall i :: 0 <= i < |st.heap| && i != st.top.value ==> st'.heap[i] == st.heap[i])
    && Top(st') == v
  }

  lemma Cat(a: string, b: string, c: string)
    ensures (a + b) + c == a + (b + c)
  {}

  /** Skipped bytes do not continue a number. */
  lemma WsEndsNumber(ws: string, tail: string)
    requires (forall c :: c in ws ==> IsSkipped(c)) && !IsNumberChar(Cur(tail))
    ensures !IsNumberChar(Cur(ws + tail))
  {
    if ws == "" {
      assert ws + tail == tail;
    } else {
      assert ws[0] in ws;
    }
  }

  lemma {:induction false} ParseValue(ok: (bool, string) -> bool, st: State, j: Json, rest: string)
    returns (st': State)
    requires Ready(st) && Valid(j) && NumbersOk(ok, j) && !IsNumberChar(Cur(rest))
    requires st.input == Text(j) + rest
    ensures Stored(st, st', Meaning(j), rest) && Run(ok, st) == Run(ok, st')
    decreases j, 2
  {
    if j.JArray? {
      st' := ParseArray(ok, st, j, rest);
    } else if j.JObject? {
      st' := ParseObject(ok, st, j, rest);
    } else {
      st' := StorePrimitive(ok, st, j, rest);
    }
  }

  lemma {:induction false} ParseArray(ok: (bool, string) -> bool, st: State, j: Json, rest: string)
    returns (st': State)
    requires Ready(st) && j.JArray? && Valid(j) && NumbersOk(ok, j)
    requires st.input == Text(j) + rest
    ensures Stored(st, st', Meaning(j), rest) && Run(ok, st) == Run(ok, st')
    decreases j, 1
  {
    var close := "]" + rest;
    var tail := j.ws + (ElemsText(j.elems) + close);
    assert st.input == "[" + tail;
    EnterContainer(ok, st, ListObj([]), tail);
    var in0 := Entered(st, ListObj([]), tail);
    assert Top(in0).items == [];
    var inner := ParseElems(ok, in0, j.ws, j.elems, close);
    assert [] + ElemsMeaning(j.elems) == ElemsMeaning(j.elems);
    st' := LeaveContainer(ok, st, ListObj([]), tail, inner, Meaning(j), rest);
  }

  lemma {:induction false} ParseObject(ok: (bool, string) -> bool, st: State, j: Json, rest: string)
    returns (st': State)
    requires Ready(st) && j.JObject? && Valid(j) && NumbersOk(ok, j)
    requires st.input == Text(j) + rest
    ensures Stored(st, st', Meaning(j), rest) && Run(ok, st) == Run(ok, st')
    decreases j, 1
  {
    var close := "}" + rest;
    var tail := j.ws + (MembersText(j.members) + close);
    assert st.input == "{" + tail;
    EnterContainer(ok, st, DictObj([]), tail);
    var in0 := Entered(st, DictObj([]), tail);
    assert Top(in0).entries == [];
    var inner := ParseMembers(ok, in0, j.ws, j.members, close);
    st' := LeaveContainer(ok, st, DictObj([]), tail, inner, Meaning(j), rest);
  }

  lemma {:induction false} ParseElems(ok: (bool, string) -> bool, st: State, ws: string, es: Elems, rest: string)
    returns (st': State)
    requires Ready(st) && st.heap[st.top.value].ListObj? && (forall c :: c in ws ==> IsSkipped(c))
    requires ValidElems(es) && ElemsOk(ok, es) && !IsNumberChar(Cur(rest))
    requires st.input == ws + (ElemsText(es) + rest)
    ensures Filled(st, st', List(Top(st).items + ElemsMeaning(es)))
    ensures st'.input == rest && Run(ok, st) == Run(ok, st')
    decreases es, 0
  {
    hide *;
    ReadyIs(st);
    SkipAll(ok, st, ws, ElemsText(es) + rest);
    if es.NoElems? {
      st' := st.(input := rest);
      NoElemsLeft(st, es, rest);
    } else {
      var more := if es.rest.NoElems? then "" else ",";
      var r2 := more + (ElemsText(es.rest) + rest);
      var r1 := es.after + r2;
      ElemsSplit(es, rest, r1, r2, more);
      ElemParts(ok, es, rest, r2, more);
      WsEndsNumber(es.after, r2);
      ReadyInput(st, ElemsText(es) + rest);
      SkipAll(ok, st.(input := ElemsText(es) + rest), es.before, Text(es.value) + r1);
      var st1 := st.(input := Text(es.value) + r1);
      ReadyInput(st, Text(es.value) + r1);
      var st2 := ParseValue(ok, st1, es.value, r1);
      ElemStored(st1, st2, Meaning(es.value), r1);
      SkipAll(ok, st2, es.after, r2);
      ReadyInput(st2, r2);
      st' := ParseElems(ok, st2.(input := r2), more, es.rest, rest);
      FilledAfter(st, st1, st2, r1, r2, st', Meaning(es.value), ElemsMeaning(es.rest));
      ElemsMeaningIs(es);
    }
  }
  lemma ReadyIs(st: State)
    requires Ready(st)
    ensures Good(st) && st.top.Some? && st.top.value < |st.heap|
    ensures st.heap[st.top.value].ListObj? <==> Top(st).List?
  {}
  lemma ReadyInput(st: State, input: string)
    requires Ready(st)
    ensures Good(st.(input := input)) && Ready(st.(input := input)) && Top(st.(input := input)) == Top(st)
  {}
  lemma NoElemsLeft(st: State, es: Elems, rest: string)
    requires Ready(st) && st.heap[st.top.value].ListObj? && es.NoElems?
    ensures Top(st).List? && Filled(st, st.(input := rest), List(Top(st).items + ElemsMeaning(es)))
    ensures ElemsText(es) + rest == rest
  {
    assert Top(st).items + [] == Top(st).items;
  }
  lemma ElemParts(ok: (bool, string) -> bool, es: Elems, rest: string, r2: string, more: string)
    requires es.Elem? && ValidElems(es) && ElemsOk(ok, es) && !IsNumberChar(Cur(rest))
    requires more == (if es.rest.NoElems? then "" else ",") && r2 == more + (ElemsText(es.rest) + rest)
    ensures Valid(es.value) && NumbersOk(ok, es.value) && ValidElems(es.rest) && ElemsOk(ok, es.rest)
    ensures (forall c :: c in es.before ==> IsSkipped(c)) && (forall c :: c in es.after ==> IsSkipped(c))
    ensures (forall c :: c in more ==> IsSkipped(c)) && !IsNumberChar(Cur(r2))
  {
    hide Valid, NumbersOk;
    assert es.rest.NoElems? ==> r2 == rest;
  }
  lemma ElemStored(st1: State, st2: State, v: Value, r1: string)
    requires Ready(st1) && st1.heap[st1.top.value].ListObj? && Stored(st1, st2, v, r1)
    ensures Good(st2) && Ready(st2) && st2.input == r1
    ensures st2.heap[st2.top.value].ListObj? && Top(st2).List?
  {
    ReadyIs(st1);
    hide Reify;
  }
  lemma ElemsMeaningIs(es: Elems)
    requires ValidElems(es) && es.Elem?
    ensures ElemsMeaning(es) == [Meaning(es.value)] + ElemsMeaning(es.rest)
  {}
  lemma FilledAfter(st: State, st1: State, st2: State, r1: string, r2: string, st': State, v: Value, vs: seq<Value>)
    requires Ready(st) && Ready(st1) && st.heap[st.top.value].ListObj? && st1 == st.(input := st1.input)
    requires Stored(st1, st2, v, r1)
    requires Filled(st2.(input := r2), st', List(Top(st2).items + vs))
    ensures Filled(st, st', List(Top(st).items + ([v] + vs)))
  {
    assert Top(st2).items == Top(st).items + [v];
    assert Top(st).items + [v] + vs == Top(st).items + ([v] + vs);
  }
  lemma ElemsSplit(es: Elems, rest: string, r1: string, r2: string, more: string)
    requires es.Elem? && more == (if es.rest.NoElems? then "" else ",")
    requires r2 == more + (ElemsText(es.rest) + rest) && r1 == es.after + r2
    ensures ElemsText(es) + rest == es.before + (Text(es.value) + r1)
  {
    var m := if es.rest.NoElems? then "" else "," + ElemsText(es.rest);
    assert m + rest == r2 by {
      Cat(",", ElemsText(es.rest), rest);
    }
    Cat(es.after, m, rest);
    Cat(Text(es.value), es.after + m, rest);
    Cat(es.before, Text(es.value) + (es.after + m), rest);
  }

  lemma {:induction false} ParseMembers(ok: (bool, string) -> bool, st: State, ws: string, ms: Members, rest: string)
    returns (st': State)
    requires Good(st) && st.top.Some? && st.heap[st.top.value].DictObj? && st.key.None?
    requires forall c :: c in ws ==> IsSkipped(c)
    requires ValidMembers(ms) && MembersOk(ok, ms) && !IsNumberChar(Cur(rest))
    requires st.input == ws + (MembersText(ms) + rest)
    ensures Filled(st, st', Dict(MembersMeaning(Top(st).entries, ms)))
    ensures st'.input == rest && Run(ok, st) == Run(ok, st')
    decreases ms, 0
  {
    hide *;
    SkipAll(ok, st, ws, MembersText(ms) + rest);
    if ms.NoMembers? {
      st' := st.(input := rest);
      NoMembersLeft(st, ms, rest);
    } else {
      var more := if ms.rest.NoMembers? then "" else ",";
      var r2 := more + (MembersText(ms.rest) + rest);
      var r1 := ms.after + r2;
      MembersSplit(ms, rest, r1, r2, more);
      MemberParts(ok, ms, rest, r2, more);
      WsEndsNumber(ms.after, r2);
      SameInput(st, MembersText(ms) + rest);
      var st1 := ParseKey(ok, st.(input := MembersText(ms) + rest), ms, r1);
      var st2 := ParseValue(ok, st1, ms.value, r1);
      MemberStored(st, st1, st2, ms, r1, r2);
      SkipAll(ok, st2, ms.after, r2);
      st' := ParseMembers(ok, st2.(input := r2), more, ms.rest, rest);
      MemberFilled(st, st2, st', ms, r2);
    }
  }
  lemma SameInput(st: State, input: string)
    requires Good(st) && st.top.Some?
    ensures Good(st.(input := input)) && Top(st.(input := input)) == Top(st)
  {}
  lemma NoMembersLeft(st: State, ms: Members, rest: string)
    requires Good(st) && st.top.Some? && st.heap[st.top.value].DictObj? && st.key.None? && ms.NoMembers?
    ensures Filled(st, st.(input := rest), Dict(MembersMeaning(Top(st).entries, ms)))
    ensures MembersText(ms) + rest == rest
  {}
  /** What the conditions on a list of members say about the first. */
  lemma MemberParts(ok: (bool, string) -> bool, ms: Members, rest: string, r2: string, more: string)
    requires ms.Member? && ValidMembers(ms) && MembersOk(ok, ms) && !IsNumberChar(Cur(rest))
    requires more == (if ms.rest.NoMembers? then "" else ",") && r2 == more + (MembersText(ms.rest) + rest)
    ensures Valid(ms.value) && NumbersOk(ok, ms.value) && ValidMembers(ms.rest) && MembersOk(ok, ms.rest)
    ensures (forall c :: c in ms.after ==> IsSkipped(c)) && (forall c :: c in more ==> IsSkipped(c))
    ensures !IsNumberChar(Cur(r2))
  {
    assert ms.rest.NoMembers? ==> r2 == rest;
    hide Valid, NumbersOk;
  }

  /** After one member the dictionary waits for the next key. */
  lemma MemberStored(st: State, st1: State, st2: State, ms: Members, r1: string, r2: string)
    requires Good(st) && st.top.Some? && st.heap[st.top.value].DictObj? && ms.Member? && ValidMembers(ms)
    requires Ready(st1) && st1.key == Some(Str(CharsBytes(ms.key))) && st1.top == st.top && st1.stack == st.stack
    requires st.heap <= st1.heap && Top(st1) == Top(st)
    requires Stored(st1, st2, Meaning(ms.value), r1)
    ensures Good(st2) && st2.input == r1 && Good(st2.(input := r2)) && st2.heap[st2.top.value].DictObj? && st2.key.None?
    ensures st2.top == st.top && st2.stack == st.stack && |st.heap| <= |st2.heap|
    ensures forall i :: 0 <= i < |st.heap| && i != st.top.value ==> st2.heap[i] == st.heap[i]
    ensures Top(st2.(input := r2)).entries
         == Store(Top(st).entries, Str(CharsBytes(ms.key)), Meaning(ms.value))
  {
    assert Top(st).Dict?;
    hide Reify, Ordered, Store, Meaning, CharsBytes, Valid;
  }
  lemma MemberFilled(st: State, st2: State, st': State, ms: Members, r2: string)
    requires Good(st) && st.top.Some? && st.heap[st.top.value].DictObj? && ms.Member? && ValidMembers(ms)
    requires Good(st2.(input := r2)) && st2.top == st.top && st2.stack == st.stack && |st.heap| <= |st2.heap|
    requires forall i :: 0 <= i < |st.heap| && i != st.top.value ==> st2.heap[i] == st.heap[i]
    requires st2.heap[st2.top.value].DictObj?
    requires Top(st2.(input := r2)).entries
          == Store(Top(st).entries, Str(CharsBytes(ms.key)), Meaning(ms.value))
    requires Filled(st2.(input := r2), st', Dict(MembersMeaning(Top(st2.(input := r2)).entries, ms.rest)))
    ensures Filled(st, st', Dict(MembersMeaning(Top(st).entries, ms)))
  {
    assert MembersMeaning(Top(st).entries, ms)
        == MembersMeaning(Store(Top(st).entries, Str(CharsBytes(ms.key)), Meaning(ms.value)), ms.rest);
    hide Reify, Ordered, Store, Meaning, CharsBytes, Valid;
  }
  function MemberHead(ms: Members, r1: string): string
    requires ms.Member?
  {
    ms.before + (StringText(ms.key) + ((ms.mid0 + ":" + ms.mid1) + (Text(ms.value) + r1)))
  }
  lemma MembersSplit(ms: Members, rest: string, r1: string, r2: string, more: string)
    requires ms.Member? && more == (if ms.rest.NoMembers? then "" else ",")
    requires r2 == more + (MembersText(ms.rest) + rest) && r1 == ms.after + r2
    ensures MembersText(ms) + rest == MemberHead(ms, r1)
  {
    var m := if ms.rest.NoMembers? then "" else "," + MembersText(ms.rest);
    assert m + rest == r2 by {
      Cat(",", MembersText(ms.rest), rest);
    }
    var v := Text(ms.value) + (ms.after + m);
    var k := StringText(ms.key) + (ms.mid0 + (":" + (ms.mid1 + v)));
    Cat(ms.after, m, rest);
    Cat(Text(ms.value), ms.after + m, rest);
    assert v + rest == Text(ms.value) + r1;
    Cat(ms.mid0 + ":", ms.mid1, v);
    Cat(ms.mid0, ":", ms.mid1 + v);
    Cat(ms.mid0 + ":" + ms.mid1, v, rest);
    Cat(StringText(ms.key), ms.mid0 + (":" + (ms.mid1 + v)), rest);
    Cat(ms.before, k, rest);
  }
  /** White space, the key, the colon and white space again. */
  lemma ParseKey(ok: (bool, string) -> bool, st: State, ms: Members, r1: string) returns (st': State)
    requires Good(st) && st.top.Some? && st.heap[st.top.value].DictObj? && st.key.None?
    requires ms.Member? && ValidMembers(ms) && st.input == MemberHead(ms, r1)
    ensures Ready(st') && Run(ok, st) == Run(ok, st')
    ensures st'.key == Some(Str(CharsBytes(ms.key))) && st'.input == Text(ms.value) + r1
    ensures st'.top == st.top && st'.stack == st.stack && st.heap <= st'.heap
    ensures Top(st') == Top(st)
  {
    var colon := ms.mid0 + ":" + ms.mid1;
    var r := colon + (Text(ms.value) + r1);
    SkipAll(ok, st, ms.before, StringText(ms.key) + r);
    assert !IsNumberChar(Cur(r)) by {
      assert colon[0] in colon && r[0] == colon[0];
    }
    var st1 := ReadKey(ok, st.(input := StringText(ms.key) + r), ms.key, r);
    SkipAll(ok, st1, colon, Text(ms.value) + r1);
    st' := st1.(input := Text(ms.value) + r1);
  }

  /** A string where a dict waits for a key becomes the pending key. */
  lemma ReadKey(ok: (bool, string) -> bool, st: State, key: seq<StrChar>, rest: string) returns (st': State)
    requires Good(st) && st.top.Some? && st.heap[st.top.value].DictObj? && st.key.None?
    requires GoodChars(key) && st.input == StringText(key) + rest && !IsNumberChar(Cur(rest))
    ensures Ready(st') && Run(ok, st) == Run(ok, st')
    ensures st'.key == Some(Str(CharsBytes(key))) && st'.input == rest
    ensures st'.top == st.top && st'.stack == st.stack && st.heap <= st'.heap
    ensures Top(st') == Top(st)
  {
    hide *;
    KeyRead(ok, st, key, rest);
    KeyStep(ok, st, Prim(Str(CharsBytes(key))), rest);
    st' := st.(input := rest, heap := st.heap + [Prim(Str(CharsBytes(key)))], key := Some(Str(CharsBytes(key))));
    RunStep(ok, st, st');
    KeyWaits(st, st');
    ReifyFrame(st.heap, st'.heap, st.top.value);
  }
  lemma KeyRead(ok: (bool, string) -> bool, st: State, key: seq<StrChar>, rest: string)
    requires GoodChars(key) && st.input == StringText(key) + rest
    ensures !AtEnd(st.input)
    ensures Lex(ok, st.input[0], st.input[1..]) == Token(Prim(Str(CharsBytes(key))), false, rest)
  {
    hide Lex, CharsBytes, GoodChars;
    LexString(ok, key, rest);
    assert st.input[0] == StringText(key)[0] && st.input[1..] == StringText(key)[1..] + rest;
  }
  lemma RunStep(ok: (bool, string) -> bool, st: State, st': State)
    requires Good(st) && !AtEnd(st.input) && Step(ok, st) == Go(st')
    ensures Good(st') && Run(ok, st) == Run(ok, st')
  {
    StepGood(ok, st);
    hide Step;
  }
  lemma KeyWaits(st: State, st': State)
    requires Good(st) && Good(st') && st.top.Some? && st.heap[st.top.value].DictObj?
    requires st'.top == st.top && st'.key.Some? && st.heap <= st'.heap
    ensures Ready(st') && Ordered(st.heap) && Ordered(st'.heap) && st.top.value < |st.heap| && SameFrom(st.heap, st'.heap, st.top.value)
    ensures Top(st') == Reify(st'.heap, st.top.value) && Top(st) == Reify(st.heap, st.top.value)
  {
    hide Reify;
  }
  lemma KeyStep(ok: (bool, string) -> bool, st: State, obj: Obj, rest: string)
    requires Good(st) && st.top.Some? && st.heap[st.top.value].DictObj? && st.key.None? && obj.Prim?
    requires !AtEnd(st.input) && Lex(ok, st.input[0], st.input[1..]) == Token(obj, false, rest)
    ensures Step(ok, st) == Go(st.(input := rest, heap := st.heap + [obj], key := Some(obj.v)))
  {}

  // ---- whole documents ----

  lemma {:induction false} SkipTrailing(ws: string)
    requires AllWs(ws)
    ensures SkipSpace(ws) == ""
  {
    if ws != "" {
      assert ws[0] in ws;
      SkipTrailing(ws[1..]);
    }
  }

  ghost predicate Loads(r: Result<(Heap, nat)>, v: Value) {
    r.Ok? && Ordered(r.value.0) && r.value.1 < |r.value.0| && Reify(r.value.0, r.value.1) == v
  }

  lemma {:induction false} RunDocument(ok: (bool, string) -> bool, d: Document)
    requires ValidDocument(d) && NumbersOk(ok, d.root)
    ensures Loads(Run(ok, State(DocumentText(d), [], [], None, None)), Meaning(d.root))
  {
    SkipAll(ok, State(DocumentText(d), [], [], None, None), d.leading, Text(d.root) + d.trailing);
    assert !IsNumberChar(Cur(d.trailing)) by {
      assert d.trailing + "" == d.trailing;
      WsEndsNumber(d.trailing, "");
    }
    if d.root.JArray? {
      RunArray(ok, d);
    } else if d.root.JObject? {
      RunObject(ok, d);
    } else {
      RunPrimitive(ok, d);
    }
  }
  lemma RunPrimitive(ok: (bool, string) -> bool, d: Document)
    requires ValidDocument(d) && NumbersOk(ok, d.root) && Primitive(d.root) && !IsNumberChar(Cur(d.trailing))
    ensures Loads(Run(ok, State(Text(d.root) + d.trailing, [], [], None, None)), Meaning(d.root))
  {
    hide *;
    var st := State(Text(d.root) + d.trailing, [], [], None, None);
    RootRead(ok, d, st);
    SkipTrailing(d.trailing);
    var obj := Prim(Meaning(d.root));
    OnlyStep(ok, st, obj, d.trailing);
    OnlyRun(ok, st, st.(input := d.trailing, heap := [] + [obj], top := Some(0)), Meaning(d.root));
  }
  lemma RootRead(ok: (bool, string) -> bool, d: Document, st: State)
    requires ValidDocument(d) && NumbersOk(ok, d.root) && Primitive(d.root) && !IsNumberChar(Cur(d.trailing))
    requires st == State(Text(d.root) + d.trailing, [], [], None, None)
    ensures Good(st) && Valid(d.root) && AllWs(d.trailing)
    ensures !AtEnd(st.input) && Lex(ok, st.input[0], st.input[1..]) == Token(Prim(Meaning(d.root)), false, d.trailing)
  {
    hide Lex, Text, Meaning, Valid, NumbersOk, IsNumberChar, Primitive;
    LexPrimitive(ok, d.root, d.trailing);
    assert st.input[0] == Text(d.root)[0] && st.input[1..] == Text(d.root)[1..] + d.trailing;
  }
  lemma OnlyRun(ok: (bool, string) -> bool, st: State, st': State, v: Value)
    requires Good(st) && !AtEnd(st.input) && Step(ok, st) == Success(st') && SkipSpace(st'.input) == ""
    requires st'.heap == [] + [Prim(v)] && st'.top == Some(0) && st'.stack == []
    ensures Loads(Run(ok, st), v)
  {
    hide Step, SkipSpace;
    assert [] + [Prim(v)] == [Prim(v)];
    assert Ordered(st'.heap);
  }
  lemma OnlyStep(ok: (bool, string) -> bool, st: State, obj: Obj, rest: string)
    requires st.top.None? && st.heap == [] && obj.Prim?
    requires !AtEnd(st.input) && Lex(ok, st.input[0], st.input[1..]) == Token(obj, false, rest)
    ensures Step(ok, st) == Success(st.(input := rest, heap := [] + [obj], top := Some(0)))
  {}
  lemma RunOpen(ok: (bool, string) -> bool, obj: Obj, tail: string)
    requires obj in {ListObj([]), DictObj([])}
    ensures var st1 := State(tail, [obj], [], Some(0), None);
            && Good(st1) && !AtEnd((if obj.ListObj? then "[" else "{") + tail)
            && Run(ok, State((if obj.ListObj? then "[" else "{") + tail, [], [], None, None)) == Run(ok, st1)
  {
    var st := State((if obj.ListObj? then "[" else "{") + tail, [], [], None, None);
    assert st.input[1..] == tail;
    StepGood(ok, st);
    assert [] + [obj] == [obj];
    assert Step(ok, st) == Go(State(tail, [obj], [], Some(0), None));
  }
  lemma RunClose(ok: (bool, string) -> bool, st: State, ws: string)
    requires Good(st) && st.top.Some? && st.stack == [] && AllWs(ws) && st.input in {"]" + ws, "}" + ws}
    ensures Run(ok, st) == Ok((st.heap, st.top.value))
  {
    CloseStep(ok, st, ws);
    SkipTrailing(ws);
    hide Step, SkipSpace, IsWs;
  }
  lemma CloseStep(ok: (bool, string) -> bool, st: State, ws: string)
    requires Good(st) && st.top.Some? && st.stack == [] && st.input in {"]" + ws, "}" + ws}
    ensures Step(ok, st) == Success(st.(input := ws)) && !AtEnd(st.input)
  {
    assert st.input[1..] == ws;
  }
  lemma RunArray(ok: (bool, string) -> bool, d: Document)
    requires ValidDocument(d) && NumbersOk(ok, d.root) && d.root.JArray?
    ensures Loads(Run(ok, State(Text(d.root) + d.trailing, [], [], None, None)), Meaning(d.root))
  {
    var es, close := d.root.elems, "]" + d.trailing;
    var tail := d.root.ws + (ElemsText(es) + close);
    assert Text(d.root) + d.trailing == "[" + tail;
    RunOpen(ok, ListObj([]), tail);
    var st1 := State(tail, [ListObj([])], [], Some(0), None);
    assert Top(st1).items == [];
    var st2 := ParseElems(ok, st1, d.root.ws, es, close);
    assert [] + ElemsMeaning(es) == ElemsMeaning(es);
    RunClose(ok, st2, d.trailing);
  }
  lemma RunObject(ok: (bool, string) -> bool, d: Document)
    requires ValidDocument(d) && NumbersOk(ok, d.root) && d.root.JObject?
    ensures Loads(Run(ok, State(Text(d.root) + d.trailing, [], [], None, None)), Meaning(d.root))
  {
    var ms, close := d.root.members, "}" + d.trailing;
    var tail := d.root.ws + (MembersText(ms) + close);
    assert Text(d.root) + d.trailing == "{" + tail;
    RunOpen(ok, DictObj([]), tail);
    var st1 := State(tail, [DictObj([])], [], Some(0), None);
    assert Top(st1).entries == [];
    var st2 := ParseMembers(ok, st1, d.root.ws, ms, close);
    RunClose(ok, st2, d.trailing);
  }

  /** The loader on a text: if some derivation of the grammar has this text, the loader
      returns that derivation's value. */
  method LoadText(ok: (bool, string) -> bool, text: string) returns (r: Result<(Heap, nat)>)
    ensures forall d :: ValidDocument(d) && NumbersOk(ok, d.root) && DocumentText(d) == text
                        ==> Loads(r, Meaning(d.root))
  {
    r := Load(ok, text);
    forall d | ValidDocument(d) && NumbersOk(ok, d.root) && DocumentText(d) == text
      ensures Loads(r, Meaning(d.root))
    {
      RunDocument(ok, d);
    }
  }
}
