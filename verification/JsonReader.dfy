/**
 A reader of JSON text without white space (RFC 8259), written without reference to the printers, and the proof that
 it reads what each of them prints: the canonical text is the JSON text of the value that is shown.
 */
module JsonReader {
  import opened Bytes
  import opened CanonicalJson
  import opened Decimals
  import opened Json
  import opened KeyOrder

  // ----- The reader -----

  datatype Read<T> = Read(value: T, rest: string) | Wrong

  function Then(c: char, r: Read<string>): Read<string> {
    if r.Wrong? then Wrong else Read([c] + r.value, r.rest)
  }

  function HexValue(c: char): Option<nat> {
    if '0' <= c <= '9' then Some(c as int - '0' as int)
    else if 'a' <= c <= 'f' then Some(c as int - 'a' as int + 10)
    else if 'A' <= c <= 'F' then Some(c as int - 'A' as int + 10)
    else None
  }

  /** The code unit of a four-digit escape, unless it is half of a pair. */
  function FourHex(s: string): (c: Option<char>)
    requires |s| == 4
  {
    var a, b, c, d := HexValue(s[0]), HexValue(s[1]), HexValue(s[2]), HexValue(s[3]);
    if a.None? || b.None? || c.None? || d.None? then None
    else
      var n := ((a.value * 16 + b.value) * 16 + c.value) * 16 + d.value;
      if 0 <= n < 0xD800 || 0xE000 <= n < 0x1_0000 then Some(n as char) else None
  }

  /** The character a two-character escape stands for. */
  function ShortEscape(c: char): Option<char> {
    match c
    case '"' => Some('"')
    case '\\' => Some('\\')
    case '/' => Some('/')
    case 'b' => Some('\U{0008}')
    case 'f' => Some('\U{000C}')
    case 'n' => Some('\n')
    case 'r' => Some('\r')
    case 't' => Some('\t')
    case _ => None
  }

  /** The characters of a string up to its closing quote (section 7). */
  function ReadChars(s: string): (r: Read<string>)
    ensures r.Read? ==> |r.rest| < |s|
    decreases |s|
  {
    if s == "" || s[0] as int < 0x20 then Wrong
    else if s[0] == '"' then Read("", s[1..])
    else if s[0] != '\\' then Then(s[0], ReadChars(s[1..]))
    else if |s| < 2 then Wrong
    else if s[1] == 'u' then
      if |s| < 6 || FourHex(s[2..6]).None? then Wrong else Then(FourHex(s[2..6]).value, ReadChars(s[6..]))
    else if ShortEscape(s[1]).None? then Wrong
    else Then(ShortEscape(s[1]).value, ReadChars(s[2..]))
  }

  function NumberRun(s: string): (t: string)
    ensures t <= s
  {
    if s == "" || !NumberChar(s[0]) then "" else [s[0]] + NumberRun(s[1..])
  }

  /** A numeral without point or exponent is an integer (section 6). */
  function ReadInteger(t: string): Option<int> {
    var digits := if "-" <= t then t[1..] else t;
    if digits == "" || !AllDigits(digits) then None
    else
      var n: int := DecimalValue(digits);
      Some(if "-" <= t then -n else n)
  }

  function ReadNumber(s: string): (r: Read<Value>)
    ensures r.Read? ==> |r.rest| < |s|
  {
    var t := NumberRun(s);
    if t == "" then Wrong
    else Read(Num(if ReadInteger(t).Some? then Int(ReadInteger(t).value) else Float(t)), s[|t|..])
  }

  /** One value at the front of a text (section 3). */
  function ReadValue(s: string): (r: Read<Value>)
    ensures r.Read? ==> |r.rest| < |s|
    decreases |s|, 1
  {
    if s == "" then Wrong
    else if "null" <= s then Read(Null, s[4..])
    else if "true" <= s then Read(Bool(true), s[4..])
    else if "false" <= s then Read(Bool(false), s[5..])
    else if s[0] == '"' then
      var r := ReadChars(s[1..]);
      if r.Wrong? then Wrong else Read(Str(r.value), r.rest)
    else if "[]" <= s then Read(Arr([]), s[2..])
    else if s[0] == '[' then
      var r := ReadItems(s[1..]);
      if r.Wrong? then Wrong else Read(Arr(r.value), r.rest)
    else if "{}" <= s then Read(Obj(map[]), s[2..])
    else if s[0] == '{' then
      var r := ReadMembers(s[1..]);
      if r.Wrong? then Wrong else Read(Obj(r.value), r.rest)
    else ReadNumber(s)
  }

  /** The items of an array up to its closing bracket (section 5). */
  function ReadItems(s: string): (r: Read<seq<Value>>)
    ensures r.Read? ==> |r.rest| < |s|
    decreases |s|, 2
  {
    var first := ReadValue(s);
    if first.Wrong? || first.rest == "" then Wrong
    else if first.rest[0] == ']' then Read([first.value], first.rest[1..])
    else if first.rest[0] != ',' then Wrong
    else
      var more := ReadItems(first.rest[1..]);
      if more.Wrong? then Wrong else Read([first.value] + more.value, more.rest)
  }

  /** The members of an object up to its closing brace; of equal keys the last counts (section 4). */
  function ReadMembers(s: string): (r: Read<map<string, Value>>)
    ensures r.Read? ==> |r.rest| < |s|
    decreases |s|, 2
  {
    if s == "" || s[0] != '"' then Wrong
    else
      var key := ReadChars(s[1..]);
      if key.Wrong? || key.rest == "" || key.rest[0] != ':' then Wrong
      else
        var value := ReadValue(key.rest[1..]);
        if value.Wrong? || value.rest == "" then Wrong
        else if value.rest[0] == '}' then Read(map[key.value := value.value], value.rest[1..])
        else if value.rest[0] != ',' then Wrong
        else
          var more := ReadMembers(value.rest[1..]);
          if more.Wrong? then Wrong else Read(map[key.value := value.value] + more.value, more.rest)
  }

  // ----- Strings and numbers -----

  lemma EscapeCharRead(c: char, t: string)
    ensures ReadChars(EscapeChar(c) + t) == Then(c, ReadChars(t))
  {
    hide ReadChars, Then;
    if |EscapeChar(c)| == 1 {
      PlainRead(c, t);
    } else if |EscapeChar(c)| == 2 {
      ShortRead(c, t);
    } else {
      ControlEscape(c);
      ControlRead(c, EscapeChar(c), t);
    }
  }

  lemma PlainRead(c: char, t: string)
    requires c as int >= 0x20 && c != '"' && c != '\\'
    ensures ReadChars([c] + t) == Then(c, ReadChars(t))
  {
    hide Then;
    var s := [c] + t;
    assert s[0] == c && s[1..] == t;
  }

  lemma ShortRead(c: char, t: string)
    requires |EscapeChar(c)| == 2
    ensures ReadChars(EscapeChar(c) + t) == Then(c, ReadChars(t))
  {
    hide Then;
    var e := EscapeChar(c);
    assert e[0] == '\\' && e[1] != 'u' && ShortEscape(e[1]) == Some(c);
    hide EscapeChar, ShortEscape;
    var s := e + t;
    assert s[0] == e[0] && s[1] == e[1] && s[2..] == t;
  }

  lemma ControlRead(c: char, e: string, t: string)
    requires |e| == 6 && e[0] == '\\' && e[1] == 'u' && FourHex(e[2..6]) == Some(c)
    ensures ReadChars(e + t) == Then(c, ReadChars(t))
  {
    hide Then, FourHex;
    var s := e + t;
    assert s[0] == e[0] && s[1] == e[1] && s[2..6] == e[2..6] && s[6..] == t;
  }

  lemma ControlEscape(c: char)
    requires |EscapeChar(c)| == 6
    ensures FourHex(EscapeChar(c)[2..6]) == Some(c) && EscapeChar(c)[0] == '\\' && EscapeChar(c)[1] == 'u'
  {
    var n := c as int;
    assert n < 0x20 && n == n / 16 * 16 + n % 16;
    HexBack(n / 16);
    HexBack(n % 16);
    var f := EscapeChar(c)[2..6];
    assert f[0] == '0' && f[1] == '0' && f[2] == LowerHex(n / 16) && f[3] == LowerHex(n % 16);
  }

  lemma HexBack(d: nat)
    requires d < 16
    ensures HexValue(LowerHex(d)) == Some(d)
  {
  }

  lemma {:induction false} EscapeRead(s: string, x: string)
    ensures ReadChars(Escape(s) + (['"'] + x)) == Read(s, x)
    decreases |s|
  {
    hide EscapeChar;
    if s == "" {
      assert Escape(s) + (['"'] + x) == ['"'] + x;
      assert (['"'] + x)[1..] == x;
    } else {
      assert Escape(s) + (['"'] + x) == EscapeChar(s[0]) + (Escape(s[1..]) + (['"'] + x));
      EscapeCharRead(s[0], Escape(s[1..]) + (['"'] + x));
      EscapeRead(s[1..], x);
      assert [s[0]] + s[1..] == s;
    }
  }

  lemma {:induction false} RunRead(t: string, x: string)
    requires Ends(x) && forall k :: 0 <= k < |t| ==> NumberChar(t[k])
    ensures NumberRun(t + x) == t
    decreases |t|
  {
    if t == "" {
      assert t + x == x;
    } else {
      assert (t + x)[1..] == t[1..] + x;
      RunRead(t[1..], x);
    }
  }

  lemma DigitsPlain(n: nat)
    ensures AllDigits(Digits(n)) && Digits(n) != "" && !("-" <= Digits(n))
    ensures "-" <= ['-'] + Digits(n) && (['-'] + Digits(n))[1..] == Digits(n)
  {
    var d := Digits(n);
    assert d[0] != '-';
  }

  lemma IntegerRead(i: int)
    ensures ReadInteger(Decimal(i)) == Some(i)
  {
    hide Digits, DecimalValue, AllDigits;
    var n: nat := if i < 0 then -i else i;
    DigitsValue(n);
    DigitsPlain(n);
  }

  lemma FloatRead(t: string)
    requires FloatText(t)
    ensures ReadInteger(t).None?
  {
    var k :| 0 <= k < |t| && (t[k] == '.' || t[k] == 'e');
    if "-" <= t {
      assert t[0] == '-';
      assert t[1..][k - 1] == t[k];
    }
  }

  lemma NumberRead(n: Number, x: string)
    requires Ends(x) && (n.Float? ==> FloatText(n.text))
    ensures ReadNumber(NumberText(n) + x) == Read(Num(n), x)
  {
    hide FloatText, ReadInteger, NumberRun;
    var t := NumberText(n);
    NumberParts(Num(n));
    RunRead(t, x);
    assert (t + x)[|t|..] == x;
    if n.Int? {
      IntegerRead(n.i);
    } else {
      FloatRead(n.text);
      FloatIsSome(n.text);
    }
  }

  lemma FloatIsSome(t: string)
    requires FloatText(t)
    ensures t != ""
  {
  }

  // ----- Values -----

  /** How the first characters decide what is read. */
  lemma FrontOf(word: string, x: string)
    ensures word <= word + x && (word + x)[|word|..] == x
  {
  }

  lemma NumberStart(n: Number, x: string)
    requires n.Float? ==> FloatText(n.text)
    ensures var s := NumberText(n) + x;
      s != "" && !("null" <= s) && !("true" <= s) && !("false" <= s) && s[0] != '"' && s[0] != '[' && s[0] != '{'
  {
    NumberParts(Num(n));
    var s := NumberText(n) + x;
    assert s[0] == NumberText(n)[0];
  }

  /**
   Reading what a printer wrote of a value, in front of anything that may follow, gives what it shows of the value.
   */
  lemma {:induction false} ReadPrinted(q: Printer, v: Value, x: string)
    requires WellFormed(v) && Ends(x)
    ensures ReadValue(Print(q, v) + x) == Read(Shown(q, v), x)
    decreases v, 2
  {
    hide Members, Items, Quote, WellFormed, FloatText, Keys, ReadValue, Decimal;
    match v {
      case Null => NullRead(x);
      case Bool(b) => BoolRead(b, x);
      case Num(n) =>
        NumberParts(v);
        NumberValue(n, x);
      case Str(s) =>
        StringValue(s, x);
      case Arr(items) =>
        ArrParts(v);
        ArrayRead(q, v, x);
      case Obj(fields) =>
        ObjParts(v);
        ObjectRead(q, v, x);
    }
  }

  lemma NullRead(x: string)
    ensures ReadValue("null" + x) == Read(Null, x)
  {
    hide ReadItems, ReadMembers, ReadChars, ReadNumber;
    FrontOf("null", x);
  }

  lemma NumberValue(n: Number, x: string)
    requires Ends(x) && (n.Float? ==> FloatText(n.text))
    ensures ReadValue(NumberText(n) + x) == Read(Num(n), x)
  {
    hide FloatText, NumberText, ReadItems, ReadMembers, ReadChars, ReadNumber;
    NumberStart(n, x);
    NumberRead(n, x);
    var s := NumberText(n) + x;
    assert !("[]" <= s) && !("{}" <= s);
  }

  lemma StringValue(s: string, x: string)
    ensures ReadValue(Quote(s) + x) == Read(Str(s), x)
  {
    hide Escape, ReadItems, ReadMembers, ReadChars, ReadNumber;
    var t := Quote(s) + x;
    assert t == ['"'] + (Escape(s) + (['"'] + x));
    assert t[0] == '"' && t[1..] == Escape(s) + (['"'] + x);
    EscapeRead(s, x);
  }

  lemma BoolRead(b: bool, x: string)
    ensures ReadValue(Print(Enclave, Bool(b)) + x) == Read(Bool(b), x)
    ensures ReadValue(Print(Verifier, Bool(b)) + x) == Read(Bool(b), x)
  {
    hide ReadItems, ReadMembers, ReadChars, ReadNumber;
    FrontOf("true", x);
    FrontOf("false", x);
    assert ("true" + x)[0] == 't' && ("false" + x)[0] == 'f';
  }

  lemma BracketsOpen(open: char, u: string, close: char, x: string)
    ensures var s := [open] + u + [close] + x;
      s[0] == open && s[1..] == u + ([close] + x) && (u == "" ==> [open, close] <= s && s[2..] == x)
  {
    var s := [open] + u + [close] + x;
    assert s == [open] + (u + ([close] + x));
  }

  lemma ArrayText(s: string)
    requires s != "" && s[0] == '['
    ensures "[]" <= s ==> ReadValue(s) == Read(Arr([]), s[2..])
    ensures !("[]" <= s) ==> ReadValue(s) == var r := ReadItems(s[1..]); if r.Wrong? then Wrong else Read(Arr(r.value), r.rest)
  {
    hide ReadItems, ReadMembers, ReadChars, ReadNumber;
  }

  lemma ObjectText(s: string)
    requires s != "" && s[0] == '{'
    ensures "{}" <= s ==> ReadValue(s) == Read(Obj(map[]), s[2..])
    ensures !("{}" <= s) ==> ReadValue(s) == var r := ReadMembers(s[1..]); if r.Wrong? then Wrong else Read(Obj(r.value), r.rest)
  {
    hide ReadItems, ReadMembers, ReadChars, ReadNumber;
  }

  lemma {:induction false} ArrayRead(q: Printer, v: Value, x: string)
    requires v.Arr? && Ends(x) && forall i :: 0 <= i < |v.items| ==> WellFormed(v.items[i])
    ensures ReadValue(Print(q, v) + x) == Read(Shown(q, v), x)
    decreases v, 1
  {
    hide WellFormed, ReadValue, ReadItems;
    var items := v.items;
    var u := Items(q, items);
    BracketsOpen('[', u, ']', x);
    var s := ['['] + u + [']'] + x;
    ArrayText(s);
    assert Shown(q, v).items == ShownAll(q, items);
    if items != [] {
      ItemsRead(q, items, x);
      ItemsStart(q, items, x);
      NotShort(s, '[', ']');
    }
  }

  lemma NotShort(s: string, open: char, close: char)
    requires |s| >= 2 && s[0] == open && s[1] != close
    ensures !([open, close] <= s)
  {
  }

  lemma ItemsStart(q: Printer, items: seq<Value>, x: string)
    requires items != [] && WellFormed(items[0])
    ensures var t := Items(q, items) + ([']'] + x); t != "" && t[0] != ']'
  {
    hide Print, WellFormed;
    FirstChar(q, items[0]);
    ItemsStep(q, items, x);
  }

  function ShownAll(q: Printer, items: seq<Value>): seq<Value> {
    seq(|items|, i requires 0 <= i < |items| => Shown(q, items[i]))
  }

  lemma ItemsLast(s: string, v: Value, x: string)
    requires ReadValue(s) == Read(v, [']'] + x)
    ensures ReadItems(s) == Read([v], x)
  {
    hide ReadValue;
    assert ([']'] + x)[0] == ']' && ([']'] + x)[1..] == x;
  }

  lemma ItemsMore(s: string, v: Value, t: string, vs: seq<Value>, x: string)
    requires ReadValue(s) == Read(v, [','] + t) && ReadItems(t) == Read(vs, x)
    ensures ReadItems(s) == Read([v] + vs, x)
  {
    hide ReadValue;
    assert ([','] + t)[0] == ',' && ([','] + t)[1..] == t;
  }

  lemma DelimiterEnds(x: string)
    ensures Ends([']'] + x) && Ends([','] + x) && Ends(['}'] + x)
  {
  }

  lemma ShownCons(q: Printer, items: seq<Value>)
    requires items != []
    ensures ShownAll(q, items) == [Shown(q, items[0])] + ShownAll(q, items[1..])
    ensures |items| == 1 ==> ShownAll(q, items) == [Shown(q, items[0])]
  {
    hide Shown;
  }

  lemma {:induction false} ItemsRead(q: Printer, items: seq<Value>, x: string)
    requires items != [] && forall i :: 0 <= i < |items| ==> WellFormed(items[i])
    ensures ReadItems(Items(q, items) + ([']'] + x)) == Read(ShownAll(q, items), x)
    decreases items
  {
    hide Print, WellFormed, Shown, ReadValue, ReadItems, Items, Ends, ShownAll;
    ItemsStep(q, items, x);
    var s := Items(q, items) + ([']'] + x);
    var v := Shown(q, items[0]);
    DelimiterEnds(x);
    if |items| == 1 {
      ReadPrinted(q, items[0], [']'] + x);
      ItemsLast(s, v, x);
      ShownCons(q, items);
    } else {
      var t := Items(q, items[1..]) + ([']'] + x);
      DelimiterEnds(t);
      ReadPrinted(q, items[0], [','] + t);
      ItemsRead(q, items[1..], x);
      ItemsMore(s, v, t, ShownAll(q, items[1..]), x);
      ShownCons(q, items);
    }
  }

  lemma {:induction false} ObjectRead(q: Printer, v: Value, x: string)
    requires v.Obj? && Ends(x) && forall k :: k in v.fields ==> WellFormed(v.fields[k])
    ensures ReadValue(Print(q, v) + x) == Read(Shown(q, v), x)
    decreases v, 1, |Keys(q, v.fields.Keys)| + 1
  {
    hide WellFormed, ReadValue, ReadMembers, Keys, Members;
    var keys := Keys(q, v.fields.Keys);
    var u := Members(q, v, keys);
    BracketsOpen('{', u, '}', x);
    var s := ['{'] + u + ['}'] + x;
    ObjectText(s);
    ShownIsOf(q, v);
    NoMembers(q, v);
    MembersStart(q, v, keys, x);
    if keys != [] {
      MembersRead(q, v, keys, x);
      NotShort(s, '{', '}');
    }
  }

  lemma NoMembers(q: Printer, v: Value)
    requires v.Obj?
    ensures Members(q, v, []) == ""
  {
  }

  lemma ShownIsOf(q: Printer, v: Value)
    requires v.Obj?
    ensures Shown(q, v) == Obj(ShownOf(q, v, Keys(q, v.fields.Keys)))
  {
    hide Keys;
    assert Shown(q, v).fields == ShownOf(q, v, Keys(q, v.fields.Keys));
  }

  function ShownOf(q: Printer, v: Value, keys: seq<string>): map<string, Value>
    requires v.Obj? && forall i :: 0 <= i < |keys| ==> keys[i] in v.fields
  {
    map k | k in keys :: Shown(q, v.fields[k])
  }

  lemma {:induction false} MembersRead(q: Printer, v: Value, keys: seq<string>, x: string)
    requires v.Obj? && keys != [] && forall i :: 0 <= i < |keys| ==> keys[i] in v.fields
    requires forall k :: k in v.fields ==> WellFormed(v.fields[k])
    ensures ReadMembers(Members(q, v, keys) + (['}'] + x)) == Read(ShownOf(q, v, keys), x)
    decreases v, 1, |keys|
  {
    hide Print, WellFormed, Shown, ReadValue, ReadChars, Escape;
    var k := keys[0];
    var after := if |keys| == 1 then ['}'] + x else [','] + (Members(q, v, keys[1..]) + (['}'] + x));
    var colon := [':'] + (Print(q, v.fields[k]) + after);
    MembersStep(q, v, keys, x);
    assert Quote(k) + colon == ['"'] + (Escape(k) + (['"'] + colon));
    assert (['"'] + (Escape(k) + (['"'] + colon)))[1..] == Escape(k) + (['"'] + colon);
    EscapeRead(k, colon);
    assert colon[1..] == Print(q, v.fields[k]) + after;
    ReadPrinted(q, v.fields[k], after);
    assert after[1..] == if |keys| == 1 then x else Members(q, v, keys[1..]) + (['}'] + x);
    if |keys| > 1 {
      MembersRead(q, v, keys[1..], x);
      ShownMore(q, v, keys);
    } else {
      assert ShownOf(q, v, keys) == map[k := Shown(q, v.fields[k])];
    }
  }

  lemma ShownMore(q: Printer, v: Value, keys: seq<string>)
    requires v.Obj? && keys != [] && forall i :: 0 <= i < |keys| ==> keys[i] in v.fields
    ensures ShownOf(q, v, keys) == map[keys[0] := Shown(q, v.fields[keys[0]])] + ShownOf(q, v, keys[1..])
  {
    hide Shown;
    assert keys == [keys[0]] + keys[1..];
  }

  /** The canonical text of the enclave is the JSON text of the value, and of nothing else. */
  lemma CanonicalReads(v: Value)
    requires WellFormed(v)
    ensures ReadValue(Print(Enclave, v)) == Read(v, "")
    ensures ReadValue(Print(Verifier, v)) == Read(Shown(Verifier, v), "")
  {
    hide Print, ReadValue, WellFormed;
    ReadPrinted(Enclave, v, "");
    ReadPrinted(Verifier, v, "");
    EnclaveShowsAll(v);
    assert Print(Enclave, v) + "" == Print(Enclave, v) && Print(Verifier, v) + "" == Print(Verifier, v);
  }
}
