/** JSON texts as the grammar of RFC 4627 section 2 derives them, and what a
    recursive reading of such a text gives.  Bytes are `char`s below 256. */
module JsonText {

  /** Python objects the loader builds.  The conversion of a number literal is not
      interpreted: a number is its literal and whether it goes to the float parser. */
  datatype Value =
    | Null
    | Bool(b: bool)
    | Number(isFloat: bool, literal: string)
    | Str(bytes: string)
    | List(items: seq<Value>)
    | Dict(entries: seq<(Value, Value)>)

  /** `mp_obj_dict_store`: replace the value of an equal key, or add a new entry. */
  function Store<T>(entries: seq<(Value, T)>, key: Value, v: T): seq<(Value, T)> {
    if entries == [] then [(key, v)]
    else if entries[0].0 == key then [(key, v)] + entries[1..]
    else [entries[0]] + Store(entries[1..], key, v)
  }

  datatype Option<+T> = None | Some(value: T)

  /** One character of a JSON string as written. */
  datatype StrChar =
    | Plain(c: char)
    | Escaped(c: char)
    | Unicode(h0: char, h1: char, h2: char, h3: char)

  /** A derivation tree of the grammar, with the white space kept. */
  datatype Json =
    | JNull
    | JFalse
    | JTrue
    | JNumber(minus: bool, whole: string, frac: Option<string>, exp: Option<Exponent>)
    | JString(chars: seq<StrChar>)
    | JArray(ws: string, elems: Elems)
    | JObject(ws: string, members: Members)
  datatype Exponent = Exponent(e: char, sign: string, digits: string)
  datatype Elems =
    | NoElems
    | Elem(before: string, value: Json, after: string, rest: Elems)
  datatype Members =
    | NoMembers
    | Member(before: string, key: seq<StrChar>, mid0: string, mid1: string,
             value: Json, after: string, rest: Members)

  /** A whole text: a value with white space around it. */
  datatype Document = Document(leading: string, root: Json, trailing: string)

  // ---- well-formedness: the side conditions of the grammar ----

  predicate IsWs(c: char) { c == ' ' || c == '\t' || c == '\n' || c == '\r' }
  predicate IsDigit(c: char) { '0' <= c <= '9' }
  predicate IsHex(c: char) { IsDigit(c) || 'a' <= c <= 'f' || 'A' <= c <= 'F' }
  predicate AllWs(s: string) { forall c :: c in s ==> IsWs(c) }
  predicate Digits(s: string) { |s| > 0 && forall c :: c in s ==> IsDigit(c) }

  predicate GoodChar(ch: StrChar) {
    match ch
    case Plain(c) => ' ' <= c < 256 as char && c != '"' && c != '\\'
    case Escaped(c) => c in "\"\\/bfnrt"
    case Unicode(h0, h1, h2, h3) => IsHex(h0) && IsHex(h1) && IsHex(h2) && IsHex(h3)
  }
  predicate GoodChars(cs: seq<StrChar>) { forall c :: c in cs ==> GoodChar(c) }

  predicate Valid(j: Json) {
    match j
    case JNull | JFalse | JTrue => true
    case JNumber(_, whole, frac, exp) =>
      && Digits(whole) && (whole[0] == '0' ==> |whole| == 1)
      && (frac.Some? ==> Digits(frac.value))
      && (exp.Some? ==> exp.value.e in "eE" && exp.value.sign in ["", "+", "-"] && Digits(exp.value.digits))
    case JString(cs) => GoodChars(cs)
    case JArray(ws, es) => AllWs(ws) && ValidElems(es)
    case JObject(ws, ms) => AllWs(ws) && ValidMembers(ms)
  }
  predicate ValidElems(es: Elems) {
    es.Elem? ==> AllWs(es.before) && Valid(es.value) && AllWs(es.after) && ValidElems(es.rest)
  }
  predicate ValidMembers(ms: Members) {
    ms.Member? ==> AllWs(ms.before) && GoodChars(ms.key) && AllWs(ms.mid0) && AllWs(ms.mid1)
                   && Valid(ms.value) && AllWs(ms.after) && ValidMembers(ms.rest)
  }
  predicate ValidDocument(d: Document) { AllWs(d.leading) && Valid(d.root) && AllWs(d.trailing) }

  // ---- the text a derivation stands for ----

  function CharText(ch: StrChar): string {
    match ch
    case Plain(c) => [c]
    case Escaped(c) => ['\\', c]
    case Unicode(h0, h1, h2, h3) => ['\\', 'u', h0, h1, h2, h3]
  }
  function CharsText(cs: seq<StrChar>): string {
    if cs == [] then "" else CharText(cs[0]) + CharsText(cs[1..])
  }
  function StringText(cs: seq<StrChar>): string { "\"" + (CharsText(cs) + "\"") }
  function NumberText(j: Json): string
    requires j.JNumber?
  {
    (if j.minus then "-" else "") + j.whole
    + (if j.frac.Some? then "." + j.frac.value else "")
    + (if j.exp.Some? then [j.exp.value.e] + j.exp.value.sign + j.exp.value.digits else "")
  }
  function Text(j: Json): string {
    match j
    case JNull => "null"
    case JFalse => "false"
    case JTrue => "true"
    case JNumber(_, _, _, _) => NumberText(j)
    case JString(cs) => StringText(cs)
    case JArray(ws, es) => "[" + (ws + (ElemsText(es) + "]"))
    case JObject(ws, ms) => "{" + (ws + (MembersText(ms) + "}"))
  }
  function ElemsText(es: Elems): string {
    match es
    case NoElems => ""
    case Elem(before, v, after, rest) =>
      before + (Text(v) + (after + (if rest.NoElems? then "" else "," + ElemsText(rest))))
  }
  function MembersText(ms: Members): string {
    match ms
    case NoMembers => ""
    case Member(before, key, mid0, mid1, v, after, rest) =>
      before + (StringText(key) + (mid0 + (":" + (mid1 +
      (Text(v) + (after + (if rest.NoMembers? then "" else "," + MembersText(rest))))))))
  }
  function DocumentText(d: Document): string { d.leading + (Text(d.root) + d.trailing) }

  // ---- what the text means ----

  function HexDigit(c: char): nat
    requires IsHex(c)
  {
    if IsDigit(c) then c as int - '0' as int
    else if 'a' <= c <= 'f' then c as int - 'a' as int + 10
    else c as int - 'A' as int + 10
  }
  function CodeUnit(ch: StrChar): nat
    requires ch.Unicode? && GoodChar(ch)
  {
    4096 * HexDigit(ch.h0) + 256 * HexDigit(ch.h1) + 16 * HexDigit(ch.h2) + HexDigit(ch.h3)
  }
  function EscapeValue(c: char): char {
    if c == 'b' then 8 as char else if c == 'f' then 12 as char else if c == 'n' then 10 as char
    else if c == 'r' then 13 as char else if c == 't' then 9 as char else c
  }
  /** UTF-8 (RFC 3629 section 3), as `vstr_add_char` writes it. */
  function Utf8(n: nat): string
    requires n < 0x110000
  {
    if n < 0x80 then [n as char]
    else if n < 0x800 then [(0xC0 + n / 64) as char, (0x80 + n % 64) as char]
    else if n < 0x10000 then
      [(0xE0 + n / 4096) as char, (0x80 + n / 64 % 64) as char, (0x80 + n % 64) as char]
    else [(0xF0 + n / 262144) as char, (0x80 + n / 4096 % 64) as char,
          (0x80 + n / 64 % 64) as char, (0x80 + n % 64) as char]
  }
  function CharBytes(ch: StrChar): string
    requires GoodChar(ch)
  {
    match ch
    case Plain(c) => [c]
    case Escaped(c) => [EscapeValue(c)]
    case Unicode(_, _, _, _) => Utf8(CodeUnit(ch))
  }
  /** The bytes of a string, every escape read on its own. */
  function CharsBytes(cs: seq<StrChar>): string
    requires GoodChars(cs)
  {
    if cs == [] then "" else CharBytes(cs[0]) + CharsBytes(cs[1..])
  }

  function Meaning(j: Json): Value
    requires Valid(j)
  {
    match j
    case JNull => Null
    case JFalse => Bool(false)
    case JTrue => Bool(true)
    case JNumber(_, _, frac, exp) => Number(frac.Some? || exp.Some?, NumberText(j))
    case JString(cs) => Str(CharsBytes(cs))
    case JArray(_, es) => List(ElemsMeaning(es))
    case JObject(_, ms) => Dict(MembersMeaning([], ms))
  }
  function ElemsMeaning(es: Elems): seq<Value>
    requires ValidElems(es)
  {
    if es.NoElems? then [] else [Meaning(es.value)] + ElemsMeaning(es.rest)
  }
  function MembersMeaning(acc: seq<(Value, Value)>, ms: Members): seq<(Value, Value)>
    requires ValidMembers(ms)
    decreases ms
  {
    if ms.NoMembers? then acc
    else MembersMeaning(Store(acc, Str(CharsBytes(ms.key)), Meaning(ms.value)), ms.rest)
  }

  /** Every number literal of the text is one the number parsers accept. */
  predicate NumbersOk(ok: (bool, string) -> bool, j: Json) {
    match j
    case JNumber(_, _, frac, exp) => ok(frac.Some? || exp.Some?, NumberText(j))
    case JArray(_, es) => ElemsOk(ok, es)
    case JObject(_, ms) => MembersOk(ok, ms)
    case _ => true
  }
  predicate ElemsOk(ok: (bool, string) -> bool, es: Elems) {
    es.Elem? ==> NumbersOk(ok, es.value) && ElemsOk(ok, es.rest)
  }
  predicate MembersOk(ok: (bool, string) -> bool, ms: Members) {
    ms.Member? ==> NumbersOk(ok, ms.value) && MembersOk(ok, ms.rest)
  }

  // ---- surrogate pairs ----

  predicate IsHigh(ch: StrChar) { ch.Unicode? && GoodChar(ch) && 0xD800 <= CodeUnit(ch) < 0xDC00 }
  predicate IsLow(ch: StrChar) { ch.Unicode? && GoodChar(ch) && 0xDC00 <= CodeUnit(ch) < 0xE000 }
  predicate PairAt(cs: seq<StrChar>, i: int) { 0 <= i && i + 1 < |cs| && IsHigh(cs[i]) && IsLow(cs[i + 1]) }

  /** RFC 4627 section 2.5: an escaped surrogate pair is one character. */
  function RfcBytes(cs: seq<StrChar>): string
    requires GoodChars(cs)
  {
    if cs == [] then ""
    else if PairAt(cs, 0) then
      Utf8(0x10000 + 1024 * (CodeUnit(cs[0]) - 0xD800) + (CodeUnit(cs[1]) - 0xDC00)) + RfcBytes(cs[2..])
    else CharBytes(cs[0]) + RfcBytes(cs[1..])
  }

  lemma {:induction false} RfcNoLonger(cs: seq<StrChar>)
    requires GoodChars(cs)
    ensures |RfcBytes(cs)| <= |CharsBytes(cs)|
    ensures (exists i :: PairAt(cs, i)) ==> |RfcBytes(cs)| < |CharsBytes(cs)|
    ensures (forall i :: !PairAt(cs, i)) ==> RfcBytes(cs) == CharsBytes(cs)
  {
    if cs != [] {
      if PairAt(cs, 0) {
        RfcNoLonger(cs[2..]);
        PairShorter(cs);
      } else {
        hide IsHigh, IsLow, CodeUnit, Utf8, CharBytes, GoodChar;
        RfcNoLonger(cs[1..]);
        PairsBehind(cs);
      }
    }
  }
  lemma PairShorter(cs: seq<StrChar>)
    requires GoodChars(cs) && PairAt(cs, 0)
    ensures |RfcBytes(cs)| - |RfcBytes(cs[2..])| < |CharsBytes(cs)| - |CharsBytes(cs[2..])|
  {
    assert cs[1..][0] == cs[1] && cs[1..][1..] == cs[2..];
    assert CharsBytes(cs) == CharBytes(cs[0]) + (CharBytes(cs[1]) + CharsBytes(cs[2..]));
  }
  lemma PairsBehind(cs: seq<StrChar>)
    requires cs != [] && !PairAt(cs, 0)
    ensures (exists i :: PairAt(cs, i)) <==> (exists i :: PairAt(cs[1..], i))
  {
    hide IsHigh, IsLow;
    if i :| PairAt(cs, i) {
      assert PairAt(cs[1..], i - 1);
    }
    if i :| PairAt(cs[1..], i) {
      assert PairAt(cs, i + 1);
    }
  }

  /** Reading each `\u` escape on its own gives the RFC's string exactly when no escaped
      high surrogate is followed by an escaped low surrogate. */
  lemma SurrogatePairsMatter(cs: seq<StrChar>)
    requires GoodChars(cs)
    ensures CharsBytes(cs) == RfcBytes(cs) <==> forall i :: !PairAt(cs, i)
  {
    RfcNoLonger(cs);
  }

  /** A concrete text on which the two readings differ: `"\ud834\udd1e"`. */
  lemma SurrogatePairExample()
    ensures var cs := [Unicode('d', '8', '3', '4'), Unicode('d', 'd', '1', 'e')];
            GoodChars(cs) && CharsBytes(cs) != RfcBytes(cs)
  {
    var cs := [Unicode('d', '8', '3', '4'), Unicode('d', 'd', '1', 'e')];
    assert PairAt(cs, 0);
    SurrogatePairsMatter(cs);
  }
}
