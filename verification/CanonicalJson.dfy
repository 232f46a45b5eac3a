/**
 The canonical JSON text whose hash the statement carries, and the proof that it is unambiguous: two values
 print alike exactly when the printer shows the same of them.
 */
module CanonicalJson {
  import opened Bytes
  import opened Decimals
  import opened Json
  import opened KeyOrder
  import Sorting

  // ----- Strings -----

  function LowerHex(d: nat): (c: char)
    requires d < 16
  {
    if d < 10 then (d + '0' as int) as char else (d - 10 + 'a' as int) as char
  }

  /** One character inside a JSON string, as serde_json writes it. */
  function EscapeChar(c: char): (s: string)
    ensures s != "" && s[0] != '"'
  {
    if c == '"' then "\\\""
    else if c == '\\' then "\\\\"
    else if c as int == 8 then "\\b"
    else if c as int == 9 then "\\t"
    else if c as int == 10 then "\\n"
    else if c as int == 12 then "\\f"
    else if c as int == 13 then "\\r"
    else if c as int < 0x20 then "\\u00" + [LowerHex(c as int / 16), LowerHex(c as int % 16)]
    else [c]
  }

  function Escape(s: string): string {
    if s == "" then "" else EscapeChar(s[0]) + Escape(s[1..])
  }

  function Quote(s: string): string {
    ['"'] + Escape(s) + ['"']
  }

  // ----- Numbers -----

  function Decimal(i: int): (s: string)
    ensures s != ""
    ensures forall k :: 0 <= k < |s| ==> s[k] == '-' || '0' <= s[k] <= '9'
  {
    if i < 0 then ['-'] + Digits(-i) else Digits(i)
  }

  predicate NumberChar(c: char) {
    '0' <= c <= '9' || c == '-' || c == '+' || c == '.' || c == 'e' || c == 'E'
  }

  /** The shortest text of a finite floating-point number: it always shows a point or an exponent. */
  predicate FloatText(t: string) {
    && t != "" && (forall k :: 0 <= k < |t| ==> NumberChar(t[k]))
    && (exists k :: 0 <= k < |t| && (t[k] == '.' || t[k] == 'e'))
  }

  function NumberText(n: Number): string {
    match n
    case Int(i) => Decimal(i)
    case Float(t) => t
  }

  // ----- Values -----

  /** Every floating-point number in the value is a real one. */
  predicate WellFormed(v: Value)
    decreases v
  {
    match v
    case Num(Float(t)) => FloatText(t)
    case Arr(items) => forall i :: 0 <= i < |items| ==> WellFormed(items[i])
    case Obj(fields) => forall k :: k in fields ==> WellFormed(fields[k])
    case _ => true
  }

  /**
   `canonical_json` of the enclave and `canonicalJson` of the verifier: they list the keys of an object in their own
   ways.
   */
  function Print(q: Printer, v: Value): string
    decreases v, 2
  {
    match v
    case Null => "null"
    case Bool(b) => if b then "true" else "false"
    case Num(n) => NumberText(n)
    case Str(s) => Quote(s)
    case Arr(items) => ['['] + Items(q, items) + [']']
    case Obj(fields) => ['{'] + Members(q, v, Keys(q, fields.Keys)) + ['}']
  }

  function Items(q: Printer, items: seq<Value>): string
    decreases items
  {
    if items == [] then ""
    else if |items| == 1 then Print(q, items[0])
    else Print(q, items[0]) + [','] + Items(q, items[1..])
  }

  function Member(q: Printer, v: Value, key: string): string
    requires v.Obj? && key in v.fields
    decreases v, 0
  {
    Quote(key) + [':'] + Print(q, v.fields[key])
  }

  function Members(q: Printer, v: Value, keys: seq<string>): string
    requires v.Obj? && forall i :: 0 <= i < |keys| ==> keys[i] in v.fields
    decreases v, 1, |keys|
  {
    if keys == [] then ""
    else if |keys| == 1 then Member(q, v, keys[0])
    else Member(q, v, keys[0]) + [','] + Members(q, v, keys[1..])
  }

  /** What a printer shows of a value: the verifier's loses every entry that sets a prototype. */
  function Shown(q: Printer, v: Value): Value
    decreases v
  {
    match v
    case Arr(items) => Arr(seq(|items|, i requires 0 <= i < |items| => Shown(q, items[i])))
    case Obj(fields) => Obj(map k | k in fields && (q.Enclave? || k != PROTO) :: Shown(q, fields[k]))
    case _ => v
  }

  lemma {:induction false} EnclaveShowsAll(v: Value)
    ensures Shown(Enclave, v) == v
    decreases v
  {
    match v {
      case Arr(items) =>
        forall i | 0 <= i < |items|
          ensures Shown(Enclave, items[i]) == items[i]
        {
          EnclaveShowsAll(items[i]);
        }
      case Obj(fields) =>
        forall k | k in fields
          ensures Shown(Enclave, fields[k]) == fields[k]
        {
          EnclaveShowsAll(fields[k]);
        }
      case _ =>
    }
  }

  /** No object inside has an entry that sets a prototype. */
  predicate NoProto(v: Value)
    decreases v
  {
    match v
    case Arr(items) => forall i :: 0 <= i < |items| ==> NoProto(items[i])
    case Obj(fields) => forall k :: k in fields ==> k != PROTO && NoProto(fields[k])
    case _ => true
  }

  /** Exactly such values are shown in full by the verifier's printer. */
  lemma {:induction false} ShownInFullIff(v: Value)
    ensures Shown(Verifier, v) == v <==> NoProto(v)
    decreases v
  {
    match v {
      case Arr(items) =>
        forall i | 0 <= i < |items|
          ensures Shown(Verifier, items[i]) == items[i] <==> NoProto(items[i])
        {
          ShownInFullIff(items[i]);
        }
        if Shown(Verifier, v) == v {
          assert forall i :: 0 <= i < |items| ==> Shown(Verifier, v).items[i] == items[i];
        }
      case Obj(fields) =>
        forall k | k in fields
          ensures Shown(Verifier, fields[k]) == fields[k] <==> NoProto(fields[k])
        {
          ShownInFullIff(fields[k]);
        }
        if Shown(Verifier, v) == v {
          assert forall k :: k in fields ==> k in Shown(Verifier, v).fields && Shown(Verifier, v).fields[k] == fields[k];
        }
      case _ =>
    }
  }

  // ----- Unique reading -----

  lemma Cancel<T>(a: seq<T>, x: seq<T>, y: seq<T>)
    requires a + x == a + y
    ensures x == y
  {
    assert (a + x)[|a|..] == x;
    assert (a + y)[|a|..] == y;
  }

  /** Distinct characters never start the same way. */
  lemma EscapeCharUnique(c: char, d: char, x: string, y: string)
    requires EscapeChar(c) + x == EscapeChar(d) + y
    ensures c == d && x == y
  {
    var e, f := EscapeChar(c), EscapeChar(d);
    var u, v := e + x, f + y;
    assert u[0] == e[0] && v[0] == f[0];
    assert |e| >= 2 ==> u[1] == e[1];
    assert |f| >= 2 ==> v[1] == f[1];
    assert |e| == 6 ==> u[4] == e[4] && u[5] == e[5];
    assert |f| == 6 ==> v[4] == f[4] && v[5] == f[5];
    assert c == d;
    Cancel(e, x, y);
  }

  lemma {:induction false} EscapeUnique(s: string, t: string, x: string, y: string)
    requires Escape(s) + (['"'] + x) == Escape(t) + (['"'] + y)
    ensures s == t && x == y
    decreases |s|
  {
    hide EscapeChar;
    var u, v := Escape(s) + (['"'] + x), Escape(t) + (['"'] + y);
    if s != "" {
      assert u == EscapeChar(s[0]) + (Escape(s[1..]) + (['"'] + x));
      assert u[0] == EscapeChar(s[0])[0];
    }
    if t != "" {
      assert v == EscapeChar(t[0]) + (Escape(t[1..]) + (['"'] + y));
      assert v[0] == EscapeChar(t[0])[0];
    }
    if s == "" && t == "" {
      assert u == ['"'] + x && v == ['"'] + y;
      Cancel(['"'], x, y);
    } else if s != "" && t != "" {
      EscapeCharUnique(s[0], t[0], Escape(s[1..]) + (['"'] + x), Escape(t[1..]) + (['"'] + y));
      EscapeUnique(s[1..], t[1..], x, y);
      assert s == [s[0]] + s[1..] && t == [t[0]] + t[1..];
    }
  }

  lemma QuoteUnique(s: string, t: string, x: string, y: string)
    requires Quote(s) + x == Quote(t) + y
    ensures s == t && x == y
  {
    hide Escape;
    assert Quote(s) + x == ['"'] + (Escape(s) + (['"'] + x));
    assert Quote(t) + y == ['"'] + (Escape(t) + (['"'] + y));
    Cancel(['"'], Escape(s) + (['"'] + x), Escape(t) + (['"'] + y));
    EscapeUnique(s, t, x, y);
  }

  lemma Sign(i: int)
    ensures Decimal(i)[0] == '-' <==> i < 0
    ensures i < 0 ==> Decimal(i)[1..] == Digits(-i)
  {
  }

  lemma NumberUnique(a: Number, b: Number)
    requires NumberText(a) == NumberText(b)
    requires a.Float? ==> FloatText(a.text)
    requires b.Float? ==> FloatText(b.text)
    ensures a == b
  {
    if a.Int? && b.Int? {
      Sign(a.i);
      Sign(b.i);
      if a.i < 0 {
        DigitsUnique(-a.i, -b.i);
      } else {
        DigitsUnique(a.i, b.i);
      }
    }
  }

  /** What may follow a value inside a larger text. */
  predicate Ends(x: string) {
    x == "" || x[0] == ',' || x[0] == ']' || x[0] == '}'
  }

  /** A maximal run of number characters is determined by what it is a prefix of. */
  lemma {:induction false} RunUnique(u: string, v: string, x: string, y: string)
    requires forall k :: 0 <= k < |u| ==> NumberChar(u[k])
    requires forall k :: 0 <= k < |v| ==> NumberChar(v[k])
    requires Ends(x) && Ends(y) && u + x == v + y
    ensures u == v && x == y
  {
    var w := u + x;
    assert forall k :: 0 <= k < |u| ==> w[k] == u[k];
    assert forall k :: 0 <= k < |v| ==> w[k] == v[k];
    assert |u| < |w| ==> w[|u|] == x[0];
    assert |v| < |w| ==> w[|v|] == y[0];
    assert |u| == |v|;
    assert w[..|u|] == u && w[..|v|] == v;
    Cancel(u, x, y);
  }

  /** The first character tells the kinds of value apart; no value starts like the end of one. */
  function Kind(c: char): nat {
    if c == 'n' then 0 else if c == 't' || c == 'f' then 1 else if c == '"' then 3
    else if c == '[' then 4 else if c == '{' then 5 else 2
  }

  function KindOf(v: Value): nat {
    match v
    case Null => 0
    case Bool(_) => 1
    case Num(_) => 2
    case Str(_) => 3
    case Arr(_) => 4
    case Obj(_) => 5
  }

  lemma FirstChar(q: Printer, v: Value)
    requires WellFormed(v)
    ensures Print(q, v) != "" && Kind(Print(q, v)[0]) == KindOf(v) && !Ends(Print(q, v))
  {
    hide Members, Items, Escape;
  }

  /** Values of different kinds do not start alike. */
  lemma SameKind(q: Printer, r: Printer, a: Value, b: Value, x: string, y: string)
    requires WellFormed(a) && WellFormed(b) && Print(q, a) + x == Print(r, b) + y
    ensures KindOf(a) == KindOf(b)
  {
    hide Print, WellFormed, KindOf, Kind;
    FirstChar(q, a);
    FirstChar(r, b);
    assert (Print(q, a) + x)[0] == Print(q, a)[0] && (Print(r, b) + y)[0] == Print(r, b)[0];
  }

  /** Every object inside has its keys listed alike by both printers. */
  predicate KeysAlike(v: Value)
    decreases v
  {
    match v
    case Arr(items) => forall i :: 0 <= i < |items| ==> KeysAlike(items[i])
    case Obj(fields) => Alike(fields.Keys) && forall k :: k in fields ==> KeysAlike(fields[k])
    case _ => true
  }

  /** The two printers in this order. */
  predicate Across(q: Printer, r: Printer) {
    q.Enclave? && r.Verifier?
  }

  /**
   What is shown of a value in front of something that ends it can be read in only one way, and both printers
   write it only if its keys are alike.
   */
  lemma {:induction false} ValueUnique(q: Printer, r: Printer, a: Value, b: Value, x: string, y: string)
    requires WellFormed(a) && WellFormed(b) && Ends(x) && Ends(y)
    requires Print(q, a) + x == Print(r, b) + y
    ensures Shown(q, a) == Shown(r, b) && x == y
    ensures Across(q, r) ==> KeysAlike(a)
    decreases a, 2
  {
    hide Members, Items, Escape, WellFormed, Decimal, FloatText, Keys, Alike;
    SameKind(q, r, a, b, x, y);
    match a {
      case Null =>
        Cancel("null", x, y);
      case Bool(p) =>
        BoolUnique(p, b.b, x, y);
      case Num(n) =>
        NumberParts(a);
        NumberParts(b);
        RunUnique(NumberText(n), NumberText(b.n), x, y);
        NumberUnique(n, b.n);
      case Str(s) =>
        QuoteUnique(s, b.s, x, y);
      case Arr(items) =>
        ArrParts(a);
        ArrParts(b);
        Brackets('[', Items(q, items), ']', x, Items(r, b.items), y);
        ItemsUnique(q, r, items, b.items, x, y);
      case Obj(fields) =>
        ObjParts(a);
        ObjParts(b);
        var ks, ls := Keys(q, fields.Keys), Keys(r, b.fields.Keys);
        Brackets('{', Members(q, a, ks), '}', x, Members(r, b, ls), y);
        MembersUnique(q, r, a, b, ks, ls, x, y);
        SameFields(Shown(q, a).fields, Shown(r, b).fields, ks);
        if Across(q, r) {
          AlikeFields(fields.Keys, b.fields.Keys);
        }
    }
  }

  lemma BoolUnique(p: bool, q: bool, x: string, y: string)
    requires (if p then "true" else "false") + x == (if q then "true" else "false") + y
    ensures p == q && x == y
  {
    var u, v := (if p then "true" else "false") + x, (if q then "true" else "false") + y;
    assert u[0] == if p then 't' else 'f';
    assert v[0] == if q then 't' else 'f';
    Cancel(if p then "true" else "false", x, y);
  }

  lemma NumberParts(v: Value)
    requires v.Num? && WellFormed(v)
    ensures forall k :: 0 <= k < |NumberText(v.n)| ==> NumberChar(NumberText(v.n)[k])
    ensures v.n.Float? ==> FloatText(v.n.text)
  {
  }

  lemma ArrParts(v: Value)
    requires v.Arr? && WellFormed(v)
    ensures forall i :: 0 <= i < |v.items| ==> WellFormed(v.items[i])
  {
  }

  lemma ObjParts(v: Value)
    requires v.Obj? && WellFormed(v)
    ensures forall k :: k in v.fields ==> WellFormed(v.fields[k])
  {
  }

  lemma Brackets(open: char, u: string, close: char, x: string, v: string, y: string)
    requires [open] + u + [close] + x == [open] + v + [close] + y
    ensures u + ([close] + x) == v + ([close] + y)
  {
    assert [open] + u + [close] + x == [open] + (u + ([close] + x));
    assert [open] + v + [close] + y == [open] + (v + ([close] + y));
    Cancel([open], u + ([close] + x), v + ([close] + y));
  }

  /** A listing both sides have in common is a listing of alike keys. */
  lemma AlikeFields(s: set<string>, t: set<string>)
    requires Keys(Enclave, s) == Keys(Verifier, t)
    ensures Alike(s)
  {
    hide Alike;
    assert s == t - {PROTO} by {
      assert forall k :: k in s <==> k in Keys(Enclave, s);
    }
    KeysDrop(t);
    OrdersAgreeIff(s);
  }

  lemma SameFields(m: map<string, Value>, n: map<string, Value>, ks: seq<string>)
    requires forall k :: k in m <==> k in ks
    requires forall k :: k in n <==> k in ks
    requires forall i :: 0 <= i < |ks| ==> ks[i] in m && ks[i] in n && m[ks[i]] == n[ks[i]]
    ensures m == n
  {
    forall k | k in m
      ensures k in n && m[k] == n[k]
    {
      var i :| 0 <= i < |ks| && ks[i] == k;
    }
    assert m.Keys == n.Keys;
  }

  /** The text of the items followed by the closing bracket, one item at a time. */
  lemma ItemsStep(q: Printer, items: seq<Value>, x: string)
    requires items != []
    ensures Items(q, items) + ([']'] + x) ==
      Print(q, items[0]) + (if |items| == 1 then [']'] + x else [','] + (Items(q, items[1..]) + ([']'] + x)))
  {
    hide Print;
    if |items| > 1 {
      assert Print(q, items[0]) + [','] + Items(q, items[1..]) + ([']'] + x)
          == Print(q, items[0]) + ([','] + (Items(q, items[1..]) + ([']'] + x)));
    }
  }

  lemma {:induction false} ItemsUnique(q: Printer, r: Printer, a: seq<Value>, b: seq<Value>, x: string, y: string)
    requires forall i :: 0 <= i < |a| ==> WellFormed(a[i])
    requires forall i :: 0 <= i < |b| ==> WellFormed(b[i])
    requires Items(q, a) + ([']'] + x) == Items(r, b) + ([']'] + y)
    ensures |a| == |b| && x == y
    ensures forall i :: 0 <= i < |a| ==> Shown(q, a[i]) == Shown(r, b[i]) && (Across(q, r) ==> KeysAlike(a[i]))
    decreases a
  {
    hide Print, WellFormed, Shown, KeysAlike;
    var u, v := Items(q, a) + ([']'] + x), Items(r, b) + ([']'] + y);
    if a == [] {
      assert u == [']'] + x;
    } else {
      ItemsStep(q, a, x);
      FirstChar(q, a[0]);
      assert u[0] == Print(q, a[0])[0];
    }
    if b == [] {
      assert v == [']'] + y;
    } else {
      ItemsStep(r, b, y);
      FirstChar(r, b[0]);
      assert v[0] == Print(r, b[0])[0];
    }
    assert a == [] <==> b == [];
    if a == [] {
      Cancel([']'], x, y);
    } else {
      var u1 := if |a| == 1 then [']'] + x else [','] + (Items(q, a[1..]) + ([']'] + x));
      var v1 := if |b| == 1 then [']'] + y else [','] + (Items(r, b[1..]) + ([']'] + y));
      ValueUnique(q, r, a[0], b[0], u1, v1);
      assert u1[0] == v1[0];
      if |a| == 1 {
        Cancel([']'], x, y);
      } else {
        Cancel([','], Items(q, a[1..]) + ([']'] + x), Items(r, b[1..]) + ([']'] + y));
        ItemsUnique(q, r, a[1..], b[1..], x, y);
      }
      assert a == [a[0]] + a[1..] && b == [b[0]] + b[1..];
    }
  }

  lemma MembersStep(p: Printer, v: Value, keys: seq<string>, x: string)
    requires v.Obj? && keys != [] && forall i :: 0 <= i < |keys| ==> keys[i] in v.fields
    ensures Members(p, v, keys) + (['}'] + x) ==
      Quote(keys[0]) + ([':'] + (Print(p, v.fields[keys[0]])
        + (if |keys| == 1 then ['}'] + x else [','] + (Members(p, v, keys[1..]) + (['}'] + x)))))
  {
    hide Print, Quote;
    var q, c := Quote(keys[0]), Print(p, v.fields[keys[0]]);
    if |keys| > 1 {
      Regroup6(q, [':'], c, [','], Members(p, v, keys[1..]), ['}'] + x);
    } else {
      Regroup4(q, [':'], c, ['}'] + x);
    }
  }

  lemma Regroup4<T>(a: seq<T>, b: seq<T>, c: seq<T>, d: seq<T>)
    ensures a + b + c + d == a + (b + (c + d))
  {
  }

  lemma Regroup6<T>(a: seq<T>, b: seq<T>, c: seq<T>, d: seq<T>, e: seq<T>, f: seq<T>)
    ensures a + b + c + d + e + f == a + (b + (c + (d + (e + f))))
  {
    Regroup4(a + b + c, d, e, f);
    Regroup4(a, b, c, d + (e + f));
  }

  lemma MembersStart(p: Printer, v: Value, keys: seq<string>, x: string)
    requires v.Obj? && forall i :: 0 <= i < |keys| ==> keys[i] in v.fields
    ensures keys == [] ==> Members(p, v, keys) + (['}'] + x) == ['}'] + x
    ensures Members(p, v, keys) + (['}'] + x) != ""
    ensures (Members(p, v, keys) + (['}'] + x))[0] == if keys == [] then '}' else '"'
  {
    hide Print;
    if keys != [] {
      MembersStep(p, v, keys, x);
    }
  }

  lemma {:induction false} MembersUnique(q: Printer, r: Printer, a: Value, b: Value, ks: seq<string>, ls: seq<string>,
                                         x: string, y: string)
    requires a.Obj? && forall i :: 0 <= i < |ks| ==> ks[i] in a.fields
    requires b.Obj? && forall i :: 0 <= i < |ls| ==> ls[i] in b.fields
    requires forall k :: k in a.fields ==> WellFormed(a.fields[k])
    requires forall k :: k in b.fields ==> WellFormed(b.fields[k])
    requires Members(q, a, ks) + (['}'] + x) == Members(r, b, ls) + (['}'] + y)
    ensures ks == ls && x == y
    ensures forall i :: 0 <= i < |ks| ==>
              Shown(q, a.fields[ks[i]]) == Shown(r, b.fields[ks[i]]) && (Across(q, r) ==> KeysAlike(a.fields[ks[i]]))
    decreases a, 1, |ks|
  {
    hide Print, WellFormed, Members, Quote, Shown, KeysAlike;
    MembersStart(q, a, ks, x);
    MembersStart(r, b, ls, y);
    if ks == [] {
      Cancel(['}'], x, y);
    } else {
      var u1 := if |ks| == 1 then ['}'] + x else [','] + (Members(q, a, ks[1..]) + (['}'] + x));
      var v1 := if |ls| == 1 then ['}'] + y else [','] + (Members(r, b, ls[1..]) + (['}'] + y));
      var va, vb := a.fields[ks[0]], b.fields[ls[0]];
      MembersStep(q, a, ks, x);
      MembersStep(r, b, ls, y);
      QuoteUnique(ks[0], ls[0], [':'] + (Print(q, va) + u1), [':'] + (Print(r, vb) + v1));
      Cancel([':'], Print(q, va) + u1, Print(r, vb) + v1);
      ValueUnique(q, r, va, vb, u1, v1);
      assert u1[0] == v1[0];
      if |ks| == 1 {
        Cancel(['}'], x, y);
      } else {
        Cancel([','], Members(q, a, ks[1..]) + (['}'] + x), Members(r, b, ls[1..]) + (['}'] + y));
        MembersUnique(q, r, a, b, ks[1..], ls[1..], x, y);
      }
      assert ks == [ks[0]] + ks[1..] && ls == [ls[0]] + ls[1..];
    }
  }

  // ----- What a text says -----

  lemma {:induction false} PrintShown(v: Value)
    ensures Print(Verifier, Shown(Verifier, v)) == Print(Verifier, v)
    decreases v, 2
  {
    hide Keys, Quote;
    match v {
      case Arr(items) =>
        assert Shown(Verifier, v).items == ShownItems(items);
        ItemsShown(items);
      case Obj(fields) =>
        KeysDrop(fields.Keys);
        assert Shown(Verifier, v).fields.Keys == fields.Keys - {PROTO};
        MembersShown(v, Keys(Verifier, fields.Keys));
      case _ =>
    }
  }

  function ShownItems(items: seq<Value>): seq<Value> {
    seq(|items|, i requires 0 <= i < |items| => Shown(Verifier, items[i]))
  }

  lemma {:induction false} ItemsShown(items: seq<Value>)
    ensures Items(Verifier, ShownItems(items)) == Items(Verifier, items)
    decreases items
  {
    hide Print, Shown;
    if items != [] {
      PrintShown(items[0]);
      ItemsShown(items[1..]);
      assert ShownItems(items)[1..] == ShownItems(items[1..]);
    }
  }

  lemma {:induction false} MembersShown(v: Value, keys: seq<string>)
    requires v.Obj? && forall i :: 0 <= i < |keys| ==> keys[i] in v.fields && keys[i] != PROTO
    ensures Members(Verifier, Shown(Verifier, v), keys) == Members(Verifier, v, keys)
    decreases v, 1, |keys|
  {
    hide Print, Quote;
    if keys != [] {
      PrintShown(v.fields[keys[0]]);
      MembersShown(v, keys[1..]);
    }
  }

  /** The canonical text is unambiguous: it determines what its printer shows of the value, and nothing else. */
  lemma CanonicalIsInjective(q: Printer, a: Value, b: Value)
    requires WellFormed(a) && WellFormed(b)
    ensures Print(q, a) == Print(q, b) <==> Shown(q, a) == Shown(q, b)
    ensures q.Enclave? ==> (Print(q, a) == Print(q, b) <==> a == b)
  {
    hide Print, WellFormed;
    EnclaveShowsAll(a);
    EnclaveShowsAll(b);
    PrintShown(a);
    PrintShown(b);
    if Print(q, a) == Print(q, b) {
      assert Print(q, a) + "" == Print(q, b) + "";
      ValueUnique(q, q, a, b, "", "");
    }
  }

  /** Both printers write the same text exactly for the values whose keys are listed alike everywhere. */
  lemma PrintersAgreeIff(v: Value)
    requires WellFormed(v)
    ensures Print(Verifier, v) == Print(Enclave, v) <==> KeysAlike(v)
  {
    hide Print, WellFormed;
    if KeysAlike(v) {
      PrintersAgree(v);
    }
    if Print(Verifier, v) == Print(Enclave, v) {
      assert Print(Enclave, v) + "" == Print(Verifier, v) + "";
      ValueUnique(Enclave, Verifier, v, v, "", "");
    }
  }

  /** The text of the enclave is the text of the verifier exactly for an alike value that the verifier shows. */
  lemma SameTextIff(a: Value, b: Value)
    requires WellFormed(a) && WellFormed(b)
    ensures Print(Enclave, a) == Print(Verifier, b) <==> a == Shown(Verifier, b) && KeysAlike(a)
  {
    hide Print, WellFormed, Shown, KeysAlike;
    EnclaveShowsAll(a);
    PrintShown(b);
    PrintersAgreeIff(a);
    if Print(Enclave, a) == Print(Verifier, b) {
      assert Print(Enclave, a) + "" == Print(Verifier, b) + "";
      ValueUnique(Enclave, Verifier, a, b, "", "");
    }
  }

  /** Keys that are listed alike include none that sets a prototype. */
  lemma {:induction false} AlikeIsShown(v: Value)
    requires KeysAlike(v)
    ensures Shown(Verifier, v) == v
    decreases v
  {
    hide Before, Sorting.StrLe;
    match v {
      case Arr(items) =>
        forall i | 0 <= i < |items|
          ensures Shown(Verifier, items[i]) == items[i]
        {
          AlikeIsShown(items[i]);
        }
      case Obj(fields) =>
        forall k | k in fields
          ensures Shown(Verifier, fields[k]) == fields[k]
        {
          AlikeIsShown(fields[k]);
        }
      case _ =>
    }
  }

  /**
   So a value with such an entry, at any depth, prints like another one on one side and differently on the two
   sides.
   */
  lemma ProtoIsLost(v: Value)
    requires WellFormed(v) && !NoProto(v)
    ensures Shown(Verifier, v) != v && Print(Verifier, Shown(Verifier, v)) == Print(Verifier, v)
    ensures !KeysAlike(v) && Print(Verifier, v) != Print(Enclave, v)
  {
    hide Print, WellFormed, Shown, NoProto, KeysAlike;
    ShownInFullIff(v);
    PrintShown(v);
    PrintersAgreeIff(v);
    if KeysAlike(v) {
      AlikeIsShown(v);
    }
  }

  /** The verifier prints `{"__proto__":1}` like `{}`. */
  lemma ProtoPrintsEmpty()
    ensures var v := Obj(map[PROTO := Num(Int(1))]);
      && Shown(Verifier, v) == Obj(map[])
      && Print(Verifier, v) == Print(Verifier, Obj(map[]))
      && Print(Verifier, v) != Print(Enclave, v)
  {
    hide Print, KeysAlike;
    var v := Obj(map[PROTO := Num(Int(1))]);
    assert PROTO in v.fields;
    PrintShown(v);
    ProtoIsLost(v);
  }

  lemma {:induction false} PrintersAgree(v: Value)
    requires KeysAlike(v)
    ensures Print(Verifier, v) == Print(Enclave, v)
    decreases v, 2
  {
    hide Keys, Alike;
    match v {
      case Arr(items) => ItemsAgree(items);
      case Obj(fields) =>
        OrdersAgreeIff(fields.Keys);
        MembersAgree(v, Keys(Enclave, fields.Keys));
      case _ =>
    }
  }

  lemma {:induction false} ItemsAgree(items: seq<Value>)
    requires forall i :: 0 <= i < |items| ==> KeysAlike(items[i])
    ensures Items(Verifier, items) == Items(Enclave, items)
    decreases items
  {
    hide Print;
    if items != [] {
      PrintersAgree(items[0]);
      ItemsAgree(items[1..]);
    }
  }

  lemma {:induction false} MembersAgree(v: Value, keys: seq<string>)
    requires v.Obj? && KeysAlike(v) && forall i :: 0 <= i < |keys| ==> keys[i] in v.fields
    ensures Members(Verifier, v, keys) == Members(Enclave, v, keys)
    decreases v, 1, |keys|
  {
    hide Print, Alike;
    if keys != [] {
      PrintersAgree(v.fields[keys[0]]);
      MembersAgree(v, keys[1..]);
    }
  }

  /** A simple sufficient condition: every key inside is ordinary. */
  predicate OrdinaryKeys(v: Value)
    decreases v
  {
    match v
    case Arr(items) => forall i :: 0 <= i < |items| ==> OrdinaryKeys(items[i])
    case Obj(fields) => forall k :: k in fields ==> Ordinary(k) && OrdinaryKeys(fields[k])
    case _ => true
  }

  lemma {:induction false} OrdinaryKeysAlike(v: Value)
    requires OrdinaryKeys(v)
    ensures KeysAlike(v)
    decreases v
  {
    hide Alike, Ordinary;
    match v {
      case Arr(items) =>
        forall i | 0 <= i < |items|
          ensures KeysAlike(items[i])
        {
          OrdinaryKeysAlike(items[i]);
        }
      case Obj(fields) =>
        OrdinaryAlike(fields.Keys);
        forall k | k in fields
          ensures KeysAlike(fields[k])
        {
          OrdinaryKeysAlike(fields[k]);
        }
      case _ =>
    }
  }
}
