/**
 The brace scan looks at octets only. Here the JSON printer meets it: the text of every JSON object, whatever
 its strings hold, is balanced for the scan, and is therefore found in a capture as one span.
 */
module EnvelopeObjects {
  import opened Bytes
  import opened BraceSpans
  import opened CanonicalJson
  import opened Json
  import opened KeyOrder
  import Utf8

  function Inside(depth: nat): Walk {
    Walk(true, false, depth)
  }

  /** Read from outside any string, `s` leaves the walk where it was. */
  predicate Steady(s: string, depth: nat) {
    WalkOver(Utf8.Encode(s), Outside(depth)) == Some(Outside(depth))
  }

  // ----- Characters and strings -----

  lemma {:induction false} PlainWalk(t: seq<byte>, depth: nat)
    requires Plain(t)
    ensures WalkOver(t, Outside(depth)) == Some(Outside(depth))
    decreases |t|
  {
    if t != [] {
      PlainWalk(t[1..], depth);
    }
  }

  lemma {:induction false} InnerWalk(t: seq<byte>, depth: nat)
    requires QUOTE !in t && BACKSLASH !in t
    ensures WalkOver(t, Inside(depth)) == Some(Inside(depth))
    decreases |t|
  {
    if t != [] {
      InnerWalk(t[1..], depth);
    }
  }

  lemma PlainIsSteady(s: string, depth: nat)
    requires '"' !in s && '{' !in s && '}' !in s
    ensures Steady(s, depth)
  {
    hide WalkOver, Utf8.Encode;
    Utf8.OctetOf(s, QUOTE);
    Utf8.OctetOf(s, OPEN);
    Utf8.OctetOf(s, CLOSE);
    PlainWalk(Utf8.Encode(s), depth);
  }

  lemma SteadyConcat(s: string, t: string, depth: nat)
    requires Steady(s, depth) && Steady(t, depth)
    ensures Steady(s + t, depth)
  {
    hide WalkOver, Utf8.Encode;
    Utf8.EncodeConcat(s, t);
    WalkConcat(Utf8.Encode(s), Utf8.Encode(t), Outside(depth));
  }

  lemma EncodeFirst(c: char, s: string)
    requires c as int < 0x80
    ensures Utf8.Encode([c] + s) == [c as int] + Utf8.Encode(s)
  {
    assert ([c] + s)[1..] == s;
  }

  /** An escaped character never closes the string, and never leaves a backslash open. */
  lemma EscapedWalk(c: char, depth: nat)
    ensures WalkOver(Utf8.Encode(EscapeChar(c)), Inside(depth)) == Some(Inside(depth))
  {
    hide Utf8.Encode;
    var e := EscapeChar(c);
    if e[0] == '\\' {
      var rest := e[2..];
      assert e == ['\\'] + ([e[1]] + rest);
      EncodeFirst('\\', [e[1]] + rest);
      EncodeFirst(e[1], rest);
      Utf8.OctetOf(rest, QUOTE);
      Utf8.OctetOf(rest, BACKSLASH);
      var t := Utf8.Encode(rest);
      InnerWalk(t, depth);
      SkipEscape(e[1] as int, t, depth);
    } else {
      Utf8.OctetOf(e, QUOTE);
      Utf8.OctetOf(e, BACKSLASH);
      InnerWalk(Utf8.Encode(e), depth);
    }
  }

  lemma SkipEscape(b: byte, t: seq<byte>, depth: nat)
    ensures WalkOver([BACKSLASH] + ([b] + t), Inside(depth)) == WalkOver(t, Inside(depth))
  {
    assert ([BACKSLASH] + ([b] + t))[1..] == [b] + t;
    assert ([b] + t)[1..] == t;
    var w := Inside(depth).(escape := true);
    assert WalkOver([b] + t, w) == WalkOver(t, Inside(depth));
  }

  lemma {:induction false} EscapeWalk(s: string, depth: nat)
    ensures WalkOver(Utf8.Encode(Escape(s)), Inside(depth)) == Some(Inside(depth))
    decreases |s|
  {
    hide EscapeChar;
    if s != "" {
      EscapedWalk(s[0], depth);
      EscapeWalk(s[1..], depth);
      Utf8.EncodeConcat(EscapeChar(s[0]), Escape(s[1..]));
      WalkConcat(Utf8.Encode(EscapeChar(s[0])), Utf8.Encode(Escape(s[1..])), Inside(depth));
    }
  }

  /** A quoted string is skipped whole, whatever it holds. */
  lemma QuoteIsSteady(s: string, depth: nat)
    ensures Steady(Quote(s), depth)
  {
    hide Utf8.Encode, Escape;
    EscapeWalk(s, depth);
    var t := Utf8.Encode(Escape(s));
    var q := ['"'];
    assert Quote(s) == q + (Escape(s) + q);
    EncodeFirst('"', Escape(s) + q);
    Utf8.EncodeConcat(Escape(s), q);
    EncodeFirst('"', []);
    assert q + [] == q;
    Utf8.LossyOfEncode([]);
    EncodeNothing();
    assert Utf8.Encode(Quote(s)) == [QUOTE] + (t + [QUOTE]);
    WalkConcat(t, [QUOTE], Inside(depth));
    assert ([QUOTE] + (t + [QUOTE]))[1..] == t + [QUOTE];
    assert [QUOTE][1..] == [];
  }

  lemma EncodeNothing()
    ensures Utf8.Encode([]) == []
  {
  }

  // ----- Values -----

  lemma NumberIsSteady(n: Number, depth: nat)
    requires WellFormed(Num(n))
    ensures Steady(NumberText(n), depth)
  {
    hide Steady;
    PlainIsSteady(NumberText(n), depth);
  }

  lemma Steady3(a: string, b: string, c: string, depth: nat)
    requires Steady(a, depth) && Steady(b, depth) && Steady(c, depth)
    ensures Steady(a + b + c, depth)
  {
    hide Steady;
    SteadyConcat(a, b, depth);
    SteadyConcat(a + b, c, depth);
  }

  lemma {:induction false} PrintIsSteady(q: Printer, v: Value, depth: nat)
    requires WellFormed(v)
    ensures Steady(Print(q, v), depth)
    decreases v, 2
  {
    hide Steady, NumberText, Quote, Keys, Members, Items, FloatText;
    match v
    case Null => PlainIsSteady("null", depth);
    case Bool(b) =>
      PlainIsSteady("true", depth);
      PlainIsSteady("false", depth);
    case Num(n) => NumberIsSteady(n, depth);
    case Str(s) => QuoteIsSteady(s, depth);
    case Arr(items) =>
      PlainIsSteady("[", depth);
      PlainIsSteady("]", depth);
      ItemsAreSteady(q, items, depth);
      Steady3(['['], Items(q, items), [']'], depth);
    case Obj(fields) =>
      MembersAreSteady(q, v, Keys(q, fields.Keys), depth + 1);
      BracesAreSteady(Members(q, v, Keys(q, fields.Keys)), depth);
  }

  lemma {:induction false} ItemsAreSteady(q: Printer, items: seq<Value>, depth: nat)
    requires forall i :: 0 <= i < |items| ==> WellFormed(items[i])
    ensures Steady(Items(q, items), depth)
    decreases items
  {
    hide Steady, Print, WellFormed;
    PlainIsSteady("", depth);
    PlainIsSteady([','], depth);
    if items != [] {
      PrintIsSteady(q, items[0], depth);
      ItemsAreSteady(q, items[1..], depth);
      Steady3(Print(q, items[0]), [','], Items(q, items[1..]), depth);
    }
  }

  lemma {:induction false} MembersAreSteady(q: Printer, v: Value, keys: seq<string>, depth: nat)
    requires WellFormed(v) && v.Obj? && forall i :: 0 <= i < |keys| ==> keys[i] in v.fields
    ensures Steady(Members(q, v, keys), depth)
    decreases v, 1, |keys|
  {
    hide Steady, Print, Quote;
    PlainIsSteady("", depth);
    PlainIsSteady([','], depth);
    PlainIsSteady([':'], depth);
    if keys != [] {
      var value := v.fields[keys[0]];
      QuoteIsSteady(keys[0], depth);
      PrintIsSteady(q, value, depth);
      Steady3(Quote(keys[0]), [':'], Print(q, value), depth);
      MembersAreSteady(q, v, keys[1..], depth);
      Steady3(Member(q, v, keys[0]), [','], Members(q, v, keys[1..]), depth);
    }
  }

  lemma EncodeBraces(s: string)
    ensures Utf8.Encode(['{'] + s + ['}']) == Braces(Utf8.Encode(s))
  {
    hide Utf8.Encode;
    assert ['{'] + s + ['}'] == ['{'] + (s + ['}']);
    EncodeFirst('{', s + ['}']);
    Utf8.EncodeConcat(s, ['}']);
    EncodeFirst('}', []);
    assert ['}'] + [] == ['}'];
    EncodeNothing();
  }

  /** What is steady one brace deeper is steady in braces. */
  lemma BracesAreSteady(s: string, depth: nat)
    requires Steady(s, depth + 1)
    ensures Steady(['{'] + s + ['}'], depth)
  {
    EncodeBraces(s);
    var t := Utf8.Encode(s);
    WalkConcat(t, [CLOSE], Outside(depth + 1));
    assert Braces(t) == [OPEN] + (t + [CLOSE]);
    assert ([OPEN] + (t + [CLOSE]))[1..] == t + [CLOSE];
    assert [CLOSE][1..] == [];
  }

  /** The octets between the outer braces of a printed object. */
  function Content(q: Printer, v: Value): seq<byte>
    requires v.Obj?
  {
    Utf8.Encode(Members(q, v, Keys(q, v.fields.Keys)))
  }

  /** The printed text of a JSON object is braces around balanced content. */
  lemma ObjectIsBalanced(q: Printer, v: Value)
    requires v.Obj? && WellFormed(v)
    ensures Utf8.Encode(Print(q, v)) == Braces(Content(q, v)) && Balanced(Content(q, v))
  {
    hide Steady, Utf8.Encode, Members, Braces;
    var s := Members(q, v, Keys(q, v.fields.Keys));
    MembersAreSteady(q, v, Keys(q, v.fields.Keys), 0);
    EncodeBraces(s);
    SteadyIsBalanced(s);
  }

  lemma SteadyIsBalanced(s: string)
    requires Steady(s, 0)
    ensures Balanced(Utf8.Encode(s))
  {
    hide Utf8.Encode, WalkOver;
  }

  /**
   A capture of quote-free text, one printed JSON object and plain text yields that object as the last
   span, and every other span ends before it.
   */
  lemma PrintedObjectIsFound(q: Printer, pre: seq<byte>, v: Value, post: seq<byte>) returns (k: nat)
    requires QuoteFree(pre) && Plain(post) && v.Obj? && WellFormed(v)
    ensures var text := Utf8.Encode(Print(q, v));
            var capture := pre + text + post;
            var out := Outermost(Matched(capture));
            k == |out| - 1 && out[k].start <= out[k].end <= |capture| && capture[out[k].start..out[k].end] == text
            && forall m :: 0 <= m < k ==> out[m].end <= |pre|
  {
    hide Outermost, Matched, QuoteFree, Plain, WellFormed, Print, Utf8.Encode, Content, Braces, Balanced;
    ObjectIsBalanced(q, v);
    k := ObjectIsFound(pre, Content(q, v), post);
    SliceIs(pre, Utf8.Encode(Print(q, v)), post);
  }

  lemma SliceIs<T>(a: seq<T>, b: seq<T>, c: seq<T>)
    ensures (a + b + c)[|a|..|a| + |b|] == b
  {
  }
}
