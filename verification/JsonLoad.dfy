/** `mod_json_load`: the one-pass, non-recursive JSON loader with its explicit stack. */
module JsonLoad {
  import opened JsonText

  // ---- the object heap ----

  /** A Python object.  Containers hold references, so a container that has already been
      stored in its parent is later filled in place, as in the source. */
  datatype Obj =
    | Prim(v: Value)
    | ListObj(items: seq<nat>)
    | DictObj(entries: seq<(Value, nat)>)
  type Heap = seq<Obj>

  predicate Refers(o: Obj, c: int) {
    match o
    case Prim(_) => false
    case ListObj(items) => c in items
    case DictObj(entries) => exists i :: 0 <= i < |entries| && entries[i].1 == c
  }
  /** Every reference points to a younger object, so the object graph has no cycle. */
  ghost predicate Ordered(h: Heap) {
    forall r, c :: 0 <= r < |h| && Refers(h[r], c) ==> r < c < |h|
  }

  /** The tree that hangs below a reference. */
  ghost function Reify(h: Heap, r: nat): Value
    requires Ordered(h) && r < |h|
    decreases |h| - r
  {
    match h[r]
    case Prim(v) => v
    case ListObj(items) =>
      List(seq(|items|, i requires 0 <= i < |items| => assert Refers(h[r], items[i]); Reify(h, items[i])))
    case DictObj(entries) =>
      Dict(seq(|entries|, i requires 0 <= i < |entries| =>
        assert Refers(h[r], entries[i].1); (entries[i].0, Reify(h, entries[i].1))))
  }

  // ---- the stream: the current byte followed by the unread ones ----

  const EOF: char := 0 as char
  function Cur(s: string): char { if s == "" then EOF else s[0] }
  function Next(s: string): string { if s == "" then "" else s[1..] }
  predicate AtEnd(s: string) { Cur(s) == EOF }

  // ---- tokens ----

  predicate IsSpace(c: char) { 9 as char <= c <= 13 as char || c == ' ' }
  predicate IsFloatMark(c: char) { c == '.' || c == 'E' || c == 'e' }
  predicate IsNumberChar(c: char) { IsFloatMark(c) || c == '+' || c == '-' || IsDigit(c) }

  /** Match the rest of a keyword, the first byte having been consumed. */
  function Keyword(s: string, w: string): Option<string> {
    if w == "" then Some(s) else if Cur(s) == w[0] then Keyword(Next(s), w[1..]) else None
  }

  function SetBit5(n: nat): nat { if n / 32 % 2 == 1 then n else n + 32 }
  /** `(c | 0x20) - '0'` in a byte, with the letters pulled down after the digits. */
  function HexByte(c: char): nat {
    var d := (SetBit5(c as int) + 208) % 256;
    if d > 9 then (d + 217) % 256 else d
  }
  function BitOr(a: nat, b: nat): (r: nat)
    ensures r <= a + b
  {
    if a == 0 then b
    else if b == 0 then a
    else 2 * BitOr(a / 2, b / 2) + (if a % 2 == 1 || b % 2 == 1 then 1 else 0)
  }
  /** `num = (num << 4) | c` for each of the next `k` bytes. */
  function HexRun(s: string, num: nat, k: nat): (r: (nat, string))
    ensures |r.1| <= |s|
    decreases k
  {
    if k == 0 then (num, s)
    else HexRun(Next(s), BitOr(16 * num, HexByte(Cur(Next(s)))), k - 1)
  }
  lemma HexRunBound(s: string)
    ensures HexRun(s, 0, 4).0 < 0x110000
  {
    var s1 := Next(s);
    var s2 := Next(s1);
    var s3 := Next(s2);
    assert HexRun(s, 0, 4) == HexRun(s1, HexByte(Cur(s1)), 3);
    var n2 := BitOr(16 * HexByte(Cur(s1)), HexByte(Cur(s2)));
    assert HexRun(s1, HexByte(Cur(s1)), 3) == HexRun(s2, n2, 2);
    var n3 := BitOr(16 * n2, HexByte(Cur(s3)));
    assert HexRun(s2, n2, 2) == HexRun(s3, n3, 1);
  }

  /** The string loop, entered behind the opening quote. */
  function ScanString(s: string, acc: string): (r: Option<(string, string)>)
    ensures r.Some? ==> |r.value.1| < |s|
    decreases |s|
  {
    if AtEnd(s) then None
    else if Cur(s) == '"' then Some((acc, Next(s)))
    else if Cur(s) != '\\' then ScanString(Next(s), acc + [Cur(s)])
    else if Cur(Next(s)) != 'u' then ScanString(Next(Next(s)), acc + [EscapeValue(Cur(Next(s)))])
    else
      HexRunBound(Next(s));
      var (num, s') := HexRun(Next(s), 0, 4);
      ScanString(Next(s'), acc + Utf8(num))
  }

  /** The number loop: the literal, whether it is a float, and the rest of the stream. */
  function ScanNumber(s: string, acc: string, flt: bool): (r: (string, bool, string))
    ensures |r.2| <= |s|
    decreases |s|
  {
    if !IsNumberChar(Cur(s)) then (acc, flt, s)
    else ScanNumber(Next(s), acc + [Cur(s)], flt || IsFloatMark(Cur(s)))
  }

  // ---- the loop as a transition function ----

  datatype State = State(input: string, heap: Heap, stack: seq<nat>, top: Option<nat>, key: Option<Value>)
  datatype Lexeme = Skip(rest: string) | Close(rest: string) | Token(obj: Obj, enter: bool, rest: string) | Bad
  datatype Outcome = Go(st: State) | Success(st: State) | Fail
  datatype Result<+T> = Ok(value: T) | SyntaxError

  predicate IsSkipped(c: char) { c == ',' || c == ':' || IsWs(c) }

  /** What the `switch` makes of the byte `cur` and the bytes that follow it.
      `ok(isFloat, literal)` says which literals the number parsers accept. */
  function Lex(ok: (bool, string) -> bool, cur: char, s: string): (lx: Lexeme)
    ensures !lx.Bad? ==> |lx.rest| <= |s|
  {
    if IsSkipped(cur) then Skip(s)
    else if cur == 'n' then KeywordToken(s, "ull", Null)
    else if cur == 'f' then KeywordToken(s, "alse", Bool(false))
    else if cur == 't' then KeywordToken(s, "rue", Bool(true))
    else if cur == '"' then
      var r := ScanString(s, "");
      if r.None? then Bad else Token(Prim(Str(r.value.0)), false, r.value.1)
    else if cur == '-' || IsDigit(cur) then
      var (literal, flt, rest) := ScanNumber(s, [cur], false);
      if ok(flt, literal) then Token(Prim(Number(flt, literal)), false, rest) else Bad
    else if cur == '[' then Token(ListObj([]), true, s)
    else if cur == '{' then Token(DictObj([]), true, s)
    else if cur == '}' || cur == ']' then Close(s)
    else Bad
  }
  function KeywordToken(s: string, w: string, v: Value): (lx: Lexeme)
    ensures !lx.Bad? ==> |lx.rest| <= |s|
  {
    KeywordShrinks(s, w);
    var r := Keyword(s, w);
    if r.None? then Bad else Token(Prim(v), false, r.value)
  }
  lemma KeywordShrinks(s: string, w: string)
    ensures Keyword(s, w).Some? ==> |Keyword(s, w).value| <= |s|
  {}

  /** The invariant of the loop. */
  ghost predicate Good(st: State) {
    && Ordered(st.heap)
    && (st.top.Some? ==> st.top.value < |st.heap| && !st.heap[st.top.value].Prim?)
    && (st.key.Some? ==> st.top.Some?)
    && (forall i :: 0 <= i < |st.stack| ==> st.stack[i] < |st.heap| && !st.heap[st.stack[i]].Prim?)
    && (st.stack != [] ==> st.top.Some?)
  }

  /** Store the object at reference `n` in container `o`, under `key` if it is a dict. */
  function Put(o: Obj, key: Option<Value>, n: nat): Obj
    requires !o.Prim? && (o.DictObj? ==> key.Some?)
  {
    if o.ListObj? then ListObj(o.items + [n]) else DictObj(Store(o.entries, key.value, n))
  }

  /** The part of the loop body below the `switch`. */
  function Place(st: State, obj: Obj, enter: bool): Outcome
    requires st.top.Some? ==> st.top.value < |st.heap| && !st.heap[st.top.value].Prim?
    requires !enter ==> obj.Prim?
  {
    var n := |st.heap|;
    var heap := st.heap + [obj];
    if st.top.None? then
      var st' := st.(heap := heap, top := Some(n));
      if enter then Go(st') else Success(st')
    else
      var t := st.top.value;
      if heap[t].DictObj? && st.key.None? then
        if enter then Fail else Go(st.(heap := heap, key := Some(obj.v)))
      else
        var st' := st.(heap := heap[t := Put(heap[t], st.key, n)],
                       key := if heap[t].DictObj? then None else st.key);
        if enter then Go(st'.(stack := st.stack + [t], top := Some(n))) else Go(st')
  }

  /** One round of the loop. */
  function Step(ok: (bool, string) -> bool, st: State): (o: Outcome)
    requires !AtEnd(st.input)
    requires st.top.Some? ==> st.top.value < |st.heap| && !st.heap[st.top.value].Prim?
    ensures o.Go? ==> |o.st.input| < |st.input|
  {
    match Lex(ok, st.input[0], st.input[1..])
    case Bad => Fail
    case Skip(rest) => Go(st.(input := rest))
    case Close(rest) =>
      var k := |st.stack|;
      if st.top.None? then Fail
      else if k == 0 then Success(st.(input := rest))
      else Go(st.(input := rest, stack := st.stack[..k - 1], top := Some(st.stack[k - 1])))
    case Token(obj, enter, rest) => Place(st.(input := rest), obj, enter)
  }

  lemma PutRefers(o: Obj, key: Option<Value>, n: nat, c: int)
    requires !o.Prim? && (o.DictObj? ==> key.Some?)
    requires Refers(Put(o, key, n), c)
    ensures c == n || Refers(o, c)
  {
    if o.DictObj? {
      var es := Store(o.entries, key.value, n);
      var i :| 0 <= i < |es| && es[i].1 == c;
      StoreRefers(o.entries, key.value, n, i);
    }
  }
  lemma {:induction false} StoreRefers<T>(es: seq<(Value, T)>, k: Value, v: T, i: nat)
    requires i < |Store(es, k, v)|
    ensures Store(es, k, v)[i].1 == v || exists j :: 0 <= j < |es| && es[j] == Store(es, k, v)[i]
  {
    if es != [] && es[0].0 != k {
      if i == 0 {
        assert es[0] == Store(es, k, v)[0];
      } else {
        StoreRefers(es[1..], k, v, i - 1);
        assert Store(es, k, v)[i] == Store(es[1..], k, v)[i - 1];
        if j :| 0 <= j < |es[1..]| && es[1..][j] == Store(es, k, v)[i] {
          assert es[j + 1] == Store(es, k, v)[i];
        }
      }
    } else if es != [] && i > 0 {
      assert es[i] == Store(es, k, v)[i];
    }
  }

  lemma PlaceGood(st: State, obj: Obj, enter: bool)
    requires Good(st) && (forall c :: !Refers(obj, c)) && (enter <==> !obj.Prim?)
    ensures Place(st, obj, enter).Go? ==> Good(Place(st, obj, enter).st)
    ensures Place(st, obj, enter).Success? ==> Ordered(Place(st, obj, enter).st.heap)
  {
    if st.top.Some? {
      var t, n := st.top.value, |st.heap|;
      var o := st.heap[t];
      if o.ListObj? || st.key.Some? {
        forall c | Refers(Put(o, st.key, n), c) ensures t < c <= n {
          PutRefers(o, st.key, n, c);
        }
      }
    }
  }
  lemma StepGood(ok: (bool, string) -> bool, st: State)
    requires Good(st) && !AtEnd(st.input)
    ensures Step(ok, st).Go? ==> Good(Step(ok, st).st)
    ensures Step(ok, st).Success? ==> Ordered(Step(ok, st).st.heap)
  {
    var lx := Lex(ok, st.input[0], st.input[1..]);
    if lx.Token? {
      PlaceGood(st.(input := lx.rest), lx.obj, lx.enter);
    }
  }

  function SkipSpace(s: string): string
    decreases |s|
  {
    if IsSpace(Cur(s)) then SkipSpace(Next(s)) else s
  }
  /** From label `success` on. */
  function Finish(st: State): Result<(Heap, nat)> {
    if !AtEnd(SkipSpace(st.input)) then SyntaxError
    else if st.top.None? || st.stack != [] then SyntaxError
    else Ok((st.heap, st.top.value))
  }
  ghost function Run(ok: (bool, string) -> bool, st: State): Result<(Heap, nat)>
    requires Good(st)
    decreases |st.input|
  {
    if AtEnd(st.input) then Finish(st)
    else
      StepGood(ok, st);
      match Step(ok, st)
      case Fail => SyntaxError
      case Success(st') => Finish(st')
      case Go(st') => Run(ok, st')
  }
  lemma RunOrdered(ok: (bool, string) -> bool, st: State)
    requires Good(st)
    ensures Run(ok, st).Ok? ==> Ordered(Run(ok, st).value.0) && Run(ok, st).value.1 < |Run(ok, st).value.0|
    decreases |st.input|
  {
    if !AtEnd(st.input) {
      StepGood(ok, st);
      if Step(ok, st).Go? {
        RunOrdered(ok, Step(ok, st).st);
      }
    }
  }

  // ---- the loops ----

  method HexEscape(s0: string) returns (num: nat, s: string)
    ensures (num, s) == HexRun(s0, 0, 4)
  {
    s, num := s0, 0;
    for i := 0 to 4
      invariant HexRun(s, num, 4 - i) == HexRun(s0, 0, 4)
    {
      s := Next(s);
      num := BitOr(16 * num, HexByte(Cur(s)));
    }
  }

  method ReadString(s0: string) returns (r: Option<(string, string)>)
    ensures r == ScanString(s0, "")
  {
    var s, vstr := s0, "";
    while !AtEnd(s) && Cur(s) != '"'
      invariant ScanString(s, vstr) == ScanString(s0, "")
      decreases |s|
    {
      var c := Cur(s);
      if c == '\\' {
        s := Next(s);
        c := Cur(s);
        if c == 'u' {
          HexRunBound(s);
          var num;
          num, s := HexEscape(s);
          vstr := vstr + Utf8(num);
          s := Next(s);
          continue;
        }
        c := EscapeValue(c);
      }
      vstr := vstr + [c];
      s := Next(s);
    }
    if AtEnd(s) {
      return None;
    }
    return Some((vstr, Next(s)));
  }

  method ReadNumber(first: char, s0: string) returns (literal: string, flt: bool, s: string)
    ensures (literal, flt, s) == ScanNumber(s0, [first], false)
  {
    var cur := first;
    s, literal, flt := s0, [], false;
    assert literal + [cur] == [first];
    while true
      invariant ScanNumber(s, literal + [cur], flt) == ScanNumber(s0, [first], false)
      decreases |s|
    {
      literal := literal + [cur];
      cur := Cur(s);
      if cur == '.' || cur == 'E' || cur == 'e' {
        flt := true;
      } else if cur == '+' || cur == '-' || IsDigit(cur) {
      } else {
        break;
      }
      s := Next(s);
    }
  }

  /** The `switch` of the loop. */
  method ReadToken(ok: (bool, string) -> bool, cur: char, s0: string) returns (lx: Lexeme)
    ensures lx == Lex(ok, cur, s0)
  {
    if IsSkipped(cur) {
      return Skip(s0);
    } else if cur == 'n' {
      return KeywordToken(s0, "ull", Null);
    } else if cur == 'f' {
      return KeywordToken(s0, "alse", Bool(false));
    } else if cur == 't' {
      return KeywordToken(s0, "rue", Bool(true));
    } else if cur == '"' {
      var str := ReadString(s0);
      return if str.None? then Bad else Token(Prim(Str(str.value.0)), false, str.value.1);
    } else if cur == '-' || IsDigit(cur) {
      var literal, flt, s := ReadNumber(cur, s0);
      return if ok(flt, literal) then Token(Prim(Number(flt, literal)), false, s) else Bad;
    } else if cur == '[' {
      return Token(ListObj([]), true, s0);
    } else if cur == '{' {
      return Token(DictObj([]), true, s0);
    } else if cur == '}' || cur == ']' {
      return Close(s0);
    } else {
      return Bad;
    }
  }

  /** The loader: the object heap it built and the reference it returns. */
  method Load(ok: (bool, string) -> bool, input: string) returns (r: Result<(Heap, nat)>)
    ensures r == Run(ok, State(input, [], [], None, None))
  {
    ghost var st0 := State(input, [], [], None, None);
    var s, heap: Heap, stack: seq<nat> := input, [], [];
    var top: Option<nat>, key: Option<Value> := None, None;
    while !AtEnd(s)
      invariant Good(State(s, heap, stack, top, key))
      invariant Run(ok, State(s, heap, stack, top, key)) == Run(ok, st0)
      decreases |s|
    {
      StepGood(ok, State(s, heap, stack, top, key));
      var cur := Cur(s);
      var lx := ReadToken(ok, cur, Next(s));
      if lx.Bad? {
        return SyntaxError;
      }
      s := lx.rest;
      if lx.Skip? {
        continue;
      }
      if lx.Close? {
        if top.None? {
          return SyntaxError;
        }
        if stack == [] {
          break;
        }
        top, stack := Some(stack[|stack| - 1]), stack[..|stack| - 1];
        continue;
      }
      var n := |heap|;
      heap := heap + [lx.obj];
      if top.None? {
        top := Some(n);
        if !lx.enter {
          break;
        }
      } else {
        var t := top.value;
        if heap[t].ListObj? {
          heap := heap[t := ListObj(heap[t].items + [n])];
        } else if key.None? {
          if lx.enter {
            return SyntaxError;
          }
          key := Some(lx.obj.v);
        } else {
          heap := heap[t := DictObj(Store<nat>(heap[t].entries, key.value, n))];
          key := None;
        }
        if lx.enter {
          stack := stack + [t];
          top := Some(n);
        }
      }
    }
    ghost var end := State(s, heap, stack, top, key);
    assert Run(ok, st0) == Finish(end);
    while IsSpace(Cur(s))
      invariant SkipSpace(s) == SkipSpace(end.input)
      decreases |s|
    {
      s := Next(s);
    }
    if !AtEnd(s) || top.None? || stack != [] {
      return SyntaxError;
    }
    return Ok((heap, top.value));
  }
}
