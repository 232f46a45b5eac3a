/**
 What the chat aggregation promises, without its state: one choice per index, in ascending order, whose
 text fields are the in-order concatenation of the deltas of that index.
 */
module ChatSpec {
  import opened Bytes
  import opened Json
  import opened ChatFold
  import Sorting

  // ----- Independence of the way a stream was cut into events and choices -----

  function AllChoices(events: seq<Value>): seq<Value> {
    if events == [] then [] else RawChoices(events[0]) + AllChoices(events[1..])
  }

  /** Only the sequence of raw choices matters, not how it is spread over events. */
  lemma {:induction false} EventBoundariesVanish(st: State, events: seq<Value>)
    ensures EventFold(st, events).choices == ChoiceFold(st.choices, AllChoices(events))
    decreases |events|
  {
    if events != [] {
      EventBoundariesVanish(EventStep(st, events[0]), events[1..]);
      ChoiceFoldConcat(st.choices, RawChoices(events[0]), AllChoices(events[1..]));
      if !events[0].Obj? {
        assert RawChoices(events[0]) == [];
      }
    }
  }

  /** A choice that carries its index. */
  predicate Indexed(raw: Value) {
    raw.Obj? && AsI64(Json.Field(raw.fields, "index")).Some?
  }

  function Index(raw: Value): int
    requires Indexed(raw)
  {
    AsI64(Json.Field(raw.fields, "index")).value
  }

  /** Choices of different indices never interact, whatever they carry, so they may be interleaved freely. */
  lemma Interleave(c: Choices, before: seq<Value>, a: Value, b: Value, after: seq<Value>)
    requires Indexed(a) && Indexed(b) && Index(a) != Index(b)
    ensures ChoiceFold(c, before + [a, b] + after) == ChoiceFold(c, before + [b, a] + after)
  {
    hide ChoiceStep, ChoiceFold, Indexed;
    TwoSteps(c, before, a, b, after);
    TwoSteps(c, before, b, a, after);
    StepsCommute(ChoiceFold(c, before), a, b);
  }

  lemma StepsCommute(c: Choices, a: Value, b: Value)
    requires Indexed(a) && Indexed(b) && Index(a) != Index(b)
    ensures ChoiceStep(ChoiceStep(c, a), b) == ChoiceStep(ChoiceStep(c, b), a)
  {
    hide MergedChoice, FreshChoice;
    var i, j := Index(a), Index(b);
    var x := MergedChoice(if i in c then c[i] else FreshChoice(i), a.fields);
    var y := MergedChoice(if j in c then c[j] else FreshChoice(j), b.fields);
    assert ChoiceStep(c, a) == c[i := x] && ChoiceStep(c, b) == c[j := y];
    UpdatesCommute(c, i, x, j, y);
  }

  lemma TwoSteps(c: Choices, before: seq<Value>, a: Value, b: Value, after: seq<Value>)
    ensures ChoiceFold(c, before + [a, b] + after) == ChoiceFold(ChoiceStep(ChoiceStep(ChoiceFold(c, before), a), b), after)
  {
    ChoiceFoldConcat(c, before + [a, b], after);
    assert before + [a, b] == before + [a] + [b];
    ChoiceFoldSnoc(c, before + [a], b);
    ChoiceFoldSnoc(c, before, a);
  }

  /** A choice without a complete message, so that its delta is the only text it contributes. */
  predicate DeltaOnly(raw: Value) {
    Indexed(raw) && AsObj(Json.Field(raw.fields, "message")).None?
  }

  function WithContent(raw: Fields, s: string): Fields {
    raw["delta" := Obj(AsObj(Json.Field(raw, "delta")).GetOr(map[])["content" := Str(s)])]
  }

  /** A further delta of the same index that carries text and nothing else. */
  function TextOnly(raw: Fields, s: string): Fields
    requires "index" in raw
  {
    map["index" := raw["index"], "delta" := Obj(map["content" := Str(s)])]
  }

  /** Cutting the text of a delta in two, at any point, changes nothing. */
  lemma Resplit(c: Choices, before: seq<Value>, raw: Value, s: string, t: string, after: seq<Value>)
    requires DeltaOnly(raw)
    ensures ChoiceFold(c, before + [Obj(WithContent(raw.fields, s + t))] + after)
         == ChoiceFold(c, before + [Obj(WithContent(raw.fields, s)), Obj(TextOnly(raw.fields, t))] + after)
  {
    hide ChoiceStep, ChoiceFold, WithContent, TextOnly;
    var whole, first, second := Obj(WithContent(raw.fields, s + t)), Obj(WithContent(raw.fields, s)), Obj(TextOnly(raw.fields, t));
    ChoiceFoldConcat(c, before + [whole], after);
    ChoiceFoldSnoc(c, before, whole);
    TwoSteps(c, before, first, second, after);
    ResplitStep(ChoiceFold(c, before), raw, s, t);
  }

  lemma ResplitStep(c: Choices, raw: Value, s: string, t: string)
    requires DeltaOnly(raw)
    ensures ChoiceStep(ChoiceStep(c, Obj(WithContent(raw.fields, s))), Obj(TextOnly(raw.fields, t)))
         == ChoiceStep(c, Obj(WithContent(raw.fields, s + t)))
  {
    hide MergedChoice, FreshChoice;
    var index := Index(raw);
    var choice := if index in c then c[index] else FreshChoice(index);
    ResplitChoice(choice, raw.fields, s, t);
    WithContentFields(raw.fields, s);
    WithContentFields(raw.fields, s + t);
    TextOnlyFields(raw.fields, t);
    var x := MergedChoice(choice, WithContent(raw.fields, s));
    assert ChoiceStep(c, Obj(WithContent(raw.fields, s))) == c[index := x];
    UpdateTwice(c, index, x, MergedChoice(x, TextOnly(raw.fields, t)));
  }

  lemma UpdateTwice<K, V>(m: map<K, V>, k: K, v: V, w: V)
    ensures m[k := v][k := w] == m[k := w]
  {
  }

  /** `MergedChoice` after the message was computed. */
  function Finishing(choice: Fields, message: Fields, raw: Fields): Fields {
    var c0 := choice["message" := Obj(message)];
    var c1 := if "finish_reason" in raw && !raw["finish_reason"].Null? then c0["finish_reason" := raw["finish_reason"]] else c0;
    if "logprobs" in raw then c1["logprobs" := raw["logprobs"]] else c1
  }

  lemma MergedIsFinishing(choice: Fields, raw: Fields)
    requires DeltaOnly(Obj(raw))
    ensures MergedChoice(choice, raw)
         == Finishing(choice, MergedDelta(AsObj(Json.Field(choice, "message")).GetOr(map[]), AsObj(Json.Field(raw, "delta")).GetOr(map[])), raw)
  {
    MergeNothing(AsObj(Json.Field(choice, "message")).GetOr(map[]));
  }

  lemma MergeNothing(message: Fields)
    ensures MergedDelta(message, map[]) == message
  {
  }

  lemma FinishingMessage(choice: Fields, m: Fields, raw: Fields)
    ensures Json.Field(Finishing(choice, m, raw), "message") == Some(Obj(m))
  {
    assert "message" != "finish_reason" && "message" != "logprobs";
  }

  lemma FinishingAgain(choice: Fields, m: Fields, n: Fields, raw: Fields, second: Fields)
    requires "finish_reason" !in second && "logprobs" !in second
    ensures Finishing(Finishing(choice, m, raw), n, second) == Finishing(choice, n, raw)
  {
    assert "message" != "finish_reason" && "message" != "logprobs";
  }

  lemma WithContentFields(raw: Fields, s: string)
    requires DeltaOnly(Obj(raw))
    ensures DeltaOnly(Obj(WithContent(raw, s)))
    ensures AsObj(Json.Field(WithContent(raw, s), "delta"))
        == Some(AsObj(Json.Field(raw, "delta")).GetOr(map[])["content" := Str(s)])
    ensures forall choice, m :: Finishing(choice, m, WithContent(raw, s)) == Finishing(choice, m, raw)
  {
    assert "delta" != "index" && "delta" != "message" && "delta" != "finish_reason" && "delta" != "logprobs";
  }

  lemma TextOnlyFields(raw: Fields, t: string)
    requires DeltaOnly(Obj(raw))
    ensures DeltaOnly(Obj(TextOnly(raw, t)))
    ensures "finish_reason" !in TextOnly(raw, t) && "logprobs" !in TextOnly(raw, t)
    ensures AsObj(Json.Field(TextOnly(raw, t), "delta")) == Some(map["content" := Str(t)])
  {
    assert "delta" != "index" && "message" != "index" && "finish_reason" != "index" && "logprobs" != "index";
    assert "message" != "delta" && "finish_reason" != "delta" && "logprobs" != "delta";
  }

  lemma ResplitChoice(choice: Fields, raw: Fields, s: string, t: string)
    requires DeltaOnly(Obj(raw))
    ensures MergedChoice(MergedChoice(choice, WithContent(raw, s)), TextOnly(raw, t))
        == MergedChoice(choice, WithContent(raw, s + t))
  {
    var first, second, whole := WithContent(raw, s), TextOnly(raw, t), WithContent(raw, s + t);
    var m0 := AsObj(Json.Field(choice, "message")).GetOr(map[]);
    var delta := AsObj(Json.Field(raw, "delta")).GetOr(map[]);
    WithContentFields(raw, s);
    WithContentFields(raw, s + t);
    TextOnlyFields(raw, t);
    MergedIsFinishing(choice, first);
    MergedIsFinishing(choice, whole);
    var m1 := MergedDelta(m0, delta["content" := Str(s)]);
    FinishingMessage(choice, m1, raw);
    MergedIsFinishing(MergedChoice(choice, first), second);
    var m2 := MergedDelta(m1, map["content" := Str(t)]);
    FinishingAgain(choice, m1, m2, raw, second);
    ResplitMessage(m0, delta, s, t);
  }

  lemma ResplitMessage(m: Fields, delta: Fields, s: string, t: string)
    ensures MergedDelta(MergedDelta(m, delta["content" := Str(s)]), map["content" := Str(t)])
        == MergedDelta(m, delta["content" := Str(s + t)])
  {
    var d1, d2 := delta["content" := Str(s)], delta["content" := Str(s + t)];
    var m0 := WithRole(m, d1);
    var v := Json.Field(delta, "reasoning_content");
    var m1 := AppendStr(m0, "content", Some(Str(s)));
    var m2 := AppendStr(m1, "reasoning_content", v);
    assert MergedDelta(m, d1) == WithCalls(m2, delta);
    assert MergedDelta(m, d2) == WithCalls(AppendStr(AppendStr(m0, "content", Some(Str(s + t))), "reasoning_content", v), delta);
    AppendTwice(m0, "content", s, t);
    AppendCommutes(m1, "content", Some(Str(t)), "reasoning_content", v);
    CallsCommute(m2, "content", Some(Str(t)), delta);
    ContentOnly(MergedDelta(m, d1), t);
  }

  lemma ContentOnly(m: Fields, t: string)
    ensures MergedDelta(m, map["content" := Str(t)]) == AppendStr(m, "content", Some(Str(t)))
  {
  }

  lemma AppendTwice(m: Fields, field: string, s: string, t: string)
    ensures AppendStr(AppendStr(m, field, Some(Str(s))), field, Some(Str(t))) == AppendStr(m, field, Some(Str(s + t)))
  {
    var known := AsStr(Json.Field(m, field));
    assert known.Some? ==> known.value + s + t == known.value + (s + t);
  }

  lemma AppendCommutes(m: Fields, f: string, v: Option<Value>, g: string, w: Option<Value>)
    requires f != g
    ensures AppendStr(AppendStr(m, f, v), g, w) == AppendStr(AppendStr(m, g, w), f, v)
  {
  }

  lemma CallsCommute(m: Fields, f: string, v: Option<Value>, delta: Fields)
    requires f != "tool_calls"
    ensures AppendStr(WithCalls(m, delta), f, v) == WithCalls(AppendStr(m, f, v), delta)
  {
    assert Json.Field(AppendStr(m, f, v), "tool_calls") == Json.Field(m, "tool_calls");
  }

  // ----- The declarative result -----

  /** The choices carrying index i, in order. */
  function Of(raws: seq<Value>, i: int): seq<Fields>
    decreases |raws|
  {
    if raws == [] then []
    else
      var last := raws[|raws| - 1];
      Of(raws[..|raws| - 1], i) + (if Indexed(last) && Index(last) == i then [last.fields] else [])
  }

  function Indices(raws: seq<Value>): set<int> {
    set k | 0 <= k < |raws| && Indexed(raws[k]) :: Index(raws[k])
  }

  /** The string deltas of one field, in order. */
  function Texts(rs: seq<Fields>, field: string): seq<string>
    decreases |rs|
  {
    if rs == [] then []
    else
      var delta := AsObj(Json.Field(rs[|rs| - 1], "delta")).GetOr(map[]);
      var s := AsStr(Json.Field(delta, field));
      Texts(rs[..|rs| - 1], field) + (if s.Some? then [s.value] else [])
  }

  function Concatenated(texts: seq<string>): string
    decreases |texts|
  {
    if texts == [] then "" else Concatenated(texts[..|texts| - 1]) + texts[|texts| - 1]
  }

  function TextField(rs: seq<Fields>, field: string): Option<Value> {
    if Texts(rs, field) == [] then None else Some(Str(Concatenated(Texts(rs, field))))
  }

  /** The first role any delta names. */
  function RoleField(rs: seq<Fields>): Option<Value> {
    if Texts(rs, "role") == [] then None else Some(Str(Texts(rs, "role")[0]))
  }

  /** The last value of a field, ignoring nulls when asked to. */
  function LastField(rs: seq<Fields>, field: string, skipNull: bool): Option<Value>
    decreases |rs|
  {
    if rs == [] then None
    else
      var v := Json.Field(rs[|rs| - 1], field);
      if v.Some? && !(skipNull && v.value.Null?) then v else LastField(rs[..|rs| - 1], field, skipNull)
  }

  function Maybe(key: string, v: Option<Value>): Fields {
    if v.Some? then map[key := v.value] else map[]
  }

  /** A message with each of its three text fields present or absent. */
  function Message(role: Option<Value>, content: Option<Value>, reasoning: Option<Value>): Fields {
    Maybe("role", role) + Maybe("content", content) + Maybe("reasoning_content", reasoning)
  }

  /** A choice record with its optional fields present or absent. */
  function Choice(i: int, message: Fields, finish: Option<Value>, logprobs: Option<Value>): Fields {
    map["index" := Num(Int(i)), "message" := Obj(message)] + Maybe("finish_reason", finish) + Maybe("logprobs", logprobs)
  }

  function DeclaredMessage(rs: seq<Fields>): Fields {
    Message(RoleField(rs), TextField(rs, "content"), TextField(rs, "reasoning_content"))
  }

  function DeclaredChoice(i: int, rs: seq<Fields>): Fields {
    Choice(i, DeclaredMessage(rs), LastField(rs, "finish_reason", true), LastField(rs, "logprobs", false))
  }

  /** The stated domain: explicit integer indices, no complete message, no tool calls. Non-objects are allowed. */
  predicate Plain(raw: Value) {
    raw.Obj? ==>
      DeltaOnly(raw) && AsArr(Json.Field(AsObj(Json.Field(raw.fields, "delta")).GetOr(map[]), "tool_calls")).None?
  }

  function Appended(known: Option<Value>, s: Option<string>): Option<Value> {
    if s.None? then known else Some(Str(AsStr(known).GetOr("") + s.value))
  }

  lemma MessageStep(role: Option<Value>, content: Option<Value>, reasoning: Option<Value>, delta: Fields)
    requires AsArr(Json.Field(delta, "tool_calls")).None?
    requires content.Some? ==> content.value.Str?
    requires reasoning.Some? ==> reasoning.value.Str?
    ensures (var r := AsStr(Json.Field(delta, "role"));
             MergedDelta(Message(role, content, reasoning), delta)
             == Message(if role.None? && r.Some? then Some(Str(r.value)) else role,
                        Appended(content, AsStr(Json.Field(delta, "content"))),
                        Appended(reasoning, AsStr(Json.Field(delta, "reasoning_content")))))
  {
    var r := AsStr(Json.Field(delta, "role"));
    var role' := if role.None? && r.Some? then Some(Str(r.value)) else role;
    assert WithRole(Message(role, content, reasoning), delta) == Message(role', content, reasoning);
    AppendContent(role', content, reasoning, Json.Field(delta, "content"));
    var content' := Appended(content, AsStr(Json.Field(delta, "content")));
    AppendReasoning(role', content', reasoning, Json.Field(delta, "reasoning_content"));
  }

  lemma PutMiddle(k1: string, k2: string, k3: string, v1: Option<Value>, v2: Option<Value>, v3: Option<Value>)
    requires k1 != k2 && k2 != k3 && k1 != k3
    ensures var m := Maybe(k1, v1) + Maybe(k2, v2) + Maybe(k3, v3);
      && Json.Field(m, k2) == v2
      && forall w :: m[k2 := w] == Maybe(k1, v1) + Maybe(k2, Some(w)) + Maybe(k3, v3)
  {
  }

  lemma PutLast(k1: string, k2: string, k3: string, v1: Option<Value>, v2: Option<Value>, v3: Option<Value>)
    requires k1 != k2 && k2 != k3 && k1 != k3
    ensures var m := Maybe(k1, v1) + Maybe(k2, v2) + Maybe(k3, v3);
      && Json.Field(m, k3) == v3
      && forall w :: m[k3 := w] == Maybe(k1, v1) + Maybe(k2, v2) + Maybe(k3, Some(w))
  {
  }

  lemma AppendContent(role: Option<Value>, content: Option<Value>, reasoning: Option<Value>, v: Option<Value>)
    requires content.Some? ==> content.value.Str?
    ensures AppendStr(Message(role, content, reasoning), "content", v)
        == Message(role, Appended(content, AsStr(v)), reasoning)
  {
    assert v.Some? && v.value.Str? ==> "" + v.value.s == v.value.s;
    assert "role" != "content" && "content" != "reasoning_content" && "role" != "reasoning_content";
    PutMiddle("role", "content", "reasoning_content", role, content, reasoning);
  }

  lemma AppendReasoning(role: Option<Value>, content: Option<Value>, reasoning: Option<Value>, v: Option<Value>)
    requires reasoning.Some? ==> reasoning.value.Str?
    ensures AppendStr(Message(role, content, reasoning), "reasoning_content", v)
        == Message(role, content, Appended(reasoning, AsStr(v)))
  {
    assert v.Some? && v.value.Str? ==> "" + v.value.s == v.value.s;
    assert "role" != "content" && "content" != "reasoning_content" && "role" != "reasoning_content";
    PutLast("role", "content", "reasoning_content", role, content, reasoning);
  }

  lemma DeclaredMessageStep(rs: seq<Fields>, raw: Fields)
    requires Plain(Obj(raw))
    ensures MergedDelta(DeclaredMessage(rs), AsObj(Json.Field(raw, "delta")).GetOr(map[])) == DeclaredMessage(rs + [raw])
  {
    var all := rs + [raw];
    assert all[..|all| - 1] == rs;
    TextStep(rs, raw, "content");
    TextStep(rs, raw, "reasoning_content");
    MessageStep(RoleField(rs), TextField(rs, "content"), TextField(rs, "reasoning_content"), AsObj(Json.Field(raw, "delta")).GetOr(map[]));
  }

  lemma ChoiceFields(i: int, message: Fields, finish: Option<Value>, logprobs: Option<Value>, raw: Fields)
    requires DeltaOnly(Obj(raw))
    ensures MergedChoice(Choice(i, message, finish, logprobs), raw)
      == Choice(i, MergedDelta(message, AsObj(Json.Field(raw, "delta")).GetOr(map[])),
                if "finish_reason" in raw && !raw["finish_reason"].Null? then Some(raw["finish_reason"]) else finish,
                if "logprobs" in raw then Some(raw["logprobs"]) else logprobs)
  {
    var m := MergedDelta(message, AsObj(Json.Field(raw, "delta")).GetOr(map[]));
    var c := Choice(i, message, finish, logprobs);
    ChoiceHasMessage(i, message, finish, logprobs);
    MergedIsFinishing(c, raw);
    SetMessage(i, message, finish, logprobs, m);
    var f := if "finish_reason" in raw && !raw["finish_reason"].Null? then Some(raw["finish_reason"]) else finish;
    if f.Some? {
      SetFinish(i, m, finish, logprobs, f.value);
    }
    if "logprobs" in raw {
      SetLogprobs(i, m, f, logprobs, raw["logprobs"]);
    }
  }

  lemma ChoiceHasMessage(i: int, message: Fields, finish: Option<Value>, logprobs: Option<Value>)
    ensures Json.Field(Choice(i, message, finish, logprobs), "message") == Some(Obj(message))
  {
    assert "message" != "finish_reason" && "message" != "logprobs" && "message" != "index";
  }

  /** Updating a record in front of two optional fields, or the first of the two. */
  lemma PutBefore(base: Fields, k: string, k2: string, k3: string, f: Option<Value>, g: Option<Value>, v: Value)
    requires k2 != k3
    ensures k != k2 && k != k3 ==> (base + Maybe(k2, f) + Maybe(k3, g))[k := v] == base[k := v] + Maybe(k2, f) + Maybe(k3, g)
    ensures k == k2 ==> (base + Maybe(k2, f) + Maybe(k3, g))[k := v] == base + Maybe(k2, Some(v)) + Maybe(k3, g)
  {
  }

  lemma SetMessage(i: int, message: Fields, finish: Option<Value>, logprobs: Option<Value>, m: Fields)
    ensures Choice(i, message, finish, logprobs)["message" := Obj(m)] == Choice(i, m, finish, logprobs)
  {
    hide Maybe;
    assert "message" != "finish_reason" && "message" != "logprobs" && "message" != "index";
    assert "finish_reason" != "logprobs";
    var base: Fields := map["index" := Num(Int(i)), "message" := Obj(message)];
    assert base["message" := Obj(m)] == map["index" := Num(Int(i)), "message" := Obj(m)];
    PutBefore(base, "message", "finish_reason", "logprobs", finish, logprobs, Obj(m));
  }

  lemma SetFinish(i: int, message: Fields, finish: Option<Value>, logprobs: Option<Value>, v: Value)
    ensures Choice(i, message, finish, logprobs)["finish_reason" := v] == Choice(i, message, Some(v), logprobs)
  {
    hide Maybe;
    assert "finish_reason" != "logprobs";
    PutBefore(map["index" := Num(Int(i)), "message" := Obj(message)], "finish_reason", "finish_reason", "logprobs", finish, logprobs, v);
  }

  lemma SetLogprobs(i: int, message: Fields, finish: Option<Value>, logprobs: Option<Value>, v: Value)
    ensures Choice(i, message, finish, logprobs)["logprobs" := v] == Choice(i, message, finish, Some(v))
  {
    assert "logprobs" != "message" && "logprobs" != "finish_reason" && "logprobs" != "index";
  }

  lemma DeclaredStep(i: int, rs: seq<Fields>, raw: Fields)
    requires Plain(Obj(raw))
    ensures MergedChoice(DeclaredChoice(i, rs), raw) == DeclaredChoice(i, rs + [raw])
  {
    var all := rs + [raw];
    assert all[..|all| - 1] == rs;
    DeclaredMessageStep(rs, raw);
    ChoiceFields(i, DeclaredMessage(rs), LastField(rs, "finish_reason", true), LastField(rs, "logprobs", false), raw);
  }

  lemma TextStep(rs: seq<Fields>, raw: Fields, field: string)
    ensures TextField(rs + [raw], field)
         == Appended(TextField(rs, field), AsStr(Json.Field(AsObj(Json.Field(raw, "delta")).GetOr(map[]), field)))
  {
    var all := rs + [raw];
    assert all[..|all| - 1] == rs && all[|all| - 1] == raw;
    var s := AsStr(Json.Field(AsObj(Json.Field(raw, "delta")).GetOr(map[]), field));
    var texts := Texts(rs, field);
    if s.Some? {
      var more := texts + [s.value];
      assert Texts(all, field) == more;
      assert more[..|more| - 1] == texts && more[|more| - 1] == s.value;
      assert Concatenated(more) == Concatenated(texts) + s.value;
    } else {
      assert Texts(all, field) == texts + [] == texts;
    }
  }

  lemma OfSnoc(front: seq<Value>, last: Value, i: int)
    ensures Of(front + [last], i) == Of(front, i) + (if Indexed(last) && Index(last) == i then [last.fields] else [])
  {
    var raws := front + [last];
    assert raws[..|raws| - 1] == front && raws[|raws| - 1] == last;
  }

  lemma IndicesSnoc(front: seq<Value>, last: Value)
    ensures Indices(front + [last]) == Indices(front) + (if Indexed(last) then {Index(last)} else {})
  {
    var raws := front + [last];
    forall i
      ensures i in Indices(raws) <==> i in Indices(front) || (Indexed(last) && Index(last) == i)
    {
      if i in Indices(front) {
        var k :| 0 <= k < |front| && Indexed(front[k]) && Index(front[k]) == i;
        assert Indexed(raws[k]) && Index(raws[k]) == i;
      }
      if Indexed(last) && Index(last) == i {
        assert Indexed(raws[|front|]) && Index(raws[|front|]) == i;
      }
      if i in Indices(raws) {
        var k :| 0 <= k < |raws| && Indexed(raws[k]) && Index(raws[k]) == i;
        assert k < |front| ==> front[k] == raws[k];
      }
    }
  }

  lemma {:induction false} OfAbsent(raws: seq<Value>, i: int)
    requires i !in Indices(raws)
    ensures Of(raws, i) == []
    decreases |raws|
  {
    if raws != [] {
      var front, last := raws[..|raws| - 1], raws[|raws| - 1];
      assert raws == front + [last];
      IndicesSnoc(front, last);
      OfAbsent(front, i);
    }
  }

  lemma FreshIsDeclared(i: int)
    ensures FreshChoice(i) == DeclaredChoice(i, [])
  {
    assert DeclaredMessage([]) == map[];
  }

  function DeclaredChoices(raws: seq<Value>): (c: Choices)
    ensures c.Keys == Indices(raws)
    ensures forall i :: i in c ==> c[i] == DeclaredChoice(i, Of(raws, i))
  {
    map i | i in Indices(raws) :: DeclaredChoice(i, Of(raws, i))
  }

  lemma DeclaredChoicesStep(front: seq<Value>, last: Value)
    requires Plain(last)
    ensures ChoiceStep(DeclaredChoices(front), last) == DeclaredChoices(front + [last])
  {
    hide MergedChoice, DeclaredChoice;
    var before, declared := DeclaredChoices(front), DeclaredChoices(front + [last]);
    IndicesSnoc(front, last);
    forall i | i in before && !(Indexed(last) && Index(last) == i)
      ensures i in declared && declared[i] == before[i]
    {
      DeclaredKept(front, last, i);
    }
    if last.Obj? {
      DeclaredAt(front, last);
      SameElsewhere(before, declared, Index(last));
    } else {
      SameMaps(declared, before);
    }
  }

  lemma DeclaredKept(front: seq<Value>, last: Value, i: int)
    requires i in Indices(front) && !(Indexed(last) && Index(last) == i)
    ensures i in DeclaredChoices(front + [last]) && DeclaredChoices(front + [last])[i] == DeclaredChoices(front)[i]
  {
    IndicesSnoc(front, last);
    OfSnoc(front, last, i);
    assert Of(front, i) + [] == Of(front, i);
  }

  lemma SameElsewhere<K, V>(before: map<K, V>, after: map<K, V>, i: K)
    requires after.Keys == before.Keys + {i}
    requires forall k :: k in before && k != i ==> after[k] == before[k]
    ensures after == before[i := after[i]]
  {
  }

  lemma SameMaps<K, V>(a: map<K, V>, b: map<K, V>)
    requires a.Keys == b.Keys
    requires forall k :: k in a ==> a[k] == b[k]
    ensures a == b
  {
  }

  lemma DeclaredAt(front: seq<Value>, last: Value)
    requires Plain(last) && last.Obj?
    ensures Index(last) in DeclaredChoices(front + [last])
    ensures ChoiceStep(DeclaredChoices(front), last)
         == DeclaredChoices(front)[Index(last) := DeclaredChoices(front + [last])[Index(last)]]
  {
    hide MergedChoice, DeclaredChoice, FreshChoice;
    var i := Index(last);
    OfSnoc(front, last, i);
    IndicesSnoc(front, last);
    if i !in Indices(front) {
      OfAbsent(front, i);
      FreshIsDeclared(i);
    }
    DeclaredStep(i, Of(front, i), last.fields);
  }

  /** Every accumulated choice is the declared one, and there is one per index that occurs. */
  lemma {:induction false} ChoicesAreDeclared(raws: seq<Value>)
    requires forall k :: 0 <= k < |raws| ==> Plain(raws[k])
    ensures ChoiceFold(map[], raws) == DeclaredChoices(raws)
    decreases |raws|
  {
    if raws != [] {
      var front, last := raws[..|raws| - 1], raws[|raws| - 1];
      assert raws == front + [last];
      ChoicesAreDeclared(front);
      ChoiceFoldSnoc(map[], front, last);
      DeclaredChoicesStep(front, last);
    }
  }

  /** The declared choices of the given indices. */
  function Declared(raws: seq<Value>, keys: seq<int>): seq<Value> {
    seq(|keys|, p requires 0 <= p < |keys| => Obj(DeclaredChoice(keys[p], Of(raws, keys[p]))))
  }

  lemma InOrderOfDeclared(raws: seq<Value>)
    ensures InOrder(DeclaredChoices(raws), Sorting.SortedInts(DeclaredChoices(raws).Keys))
         == Declared(raws, Sorting.SortedInts(Indices(raws)))
  {
    hide DeclaredChoice, Of, Indices;
    var keys := Sorting.SortedInts(Indices(raws));
    assert forall i :: 0 <= i < |keys| ==> keys[i] in Indices(raws);
  }

  // ----- The scalar fields -----

  /** The first model any event names. */
  function FirstModel(events: seq<Value>): Option<Value>
    decreases |events|
  {
    if events == [] then None
    else
      var earlier, last := FirstModel(events[..|events| - 1]), events[|events| - 1];
      var model := AsStr(last.Get("model"));
      if earlier.Some? then earlier else if model.Some? then Some(Str(model.value)) else None
  }

  /** The last value any event gives a field, null included. */
  function LastValue(events: seq<Value>, key: string): Option<Value>
    decreases |events|
  {
    if events == [] then None
    else if events[|events| - 1].Get(key).Some? then events[|events| - 1].Get(key)
    else LastValue(events[..|events| - 1], key)
  }

  function Scalars(model: Option<Value>, usage: Option<Value>, error: Option<Value>): Fields {
    Maybe("model", model) + Maybe("usage", usage) + Maybe("error", error)
  }

  lemma PutFirst(k1: string, k2: string, k3: string, v1: Option<Value>, v2: Option<Value>, v3: Option<Value>)
    requires k1 != k2 && k2 != k3 && k1 != k3
    ensures var m := Maybe(k1, v1) + Maybe(k2, v2) + Maybe(k3, v3);
      && Json.Field(m, k1) == v1
      && forall w :: m[k1 := w] == Maybe(k1, Some(w)) + Maybe(k2, v2) + Maybe(k3, v3)
  {
  }

  lemma ScalarStep(model: Option<Value>, usage: Option<Value>, error: Option<Value>, chunk: Fields)
    ensures OutStep(Scalars(model, usage, error), chunk) == Scalars(
              if model.None? && AsStr(Json.Field(chunk, "model")).Some? then Some(Str(AsStr(Json.Field(chunk, "model")).value)) else model,
              if "usage" in chunk then Some(chunk["usage"]) else usage,
              if "error" in chunk then Some(chunk["error"]) else error)
  {
    hide Maybe;
    assert "model" != "usage" && "usage" != "error" && "model" != "error";
    var m := AsStr(Json.Field(chunk, "model"));
    PutFirst("model", "usage", "error", model, usage, error);
    var model' := if model.None? && m.Some? then Some(Str(m.value)) else model;
    PutMiddle("model", "usage", "error", model', usage, error);
    var usage' := if "usage" in chunk then Some(chunk["usage"]) else usage;
    PutLast("model", "usage", "error", model', usage', error);
  }

  /** Apart from the choices the view holds the first model and the last usage and error. */
  lemma {:induction false} ScalarsAreDeclared(events: seq<Value>)
    ensures EventFold(EMPTY, events).out == Scalars(FirstModel(events), LastValue(events, "usage"), LastValue(events, "error"))
    decreases |events|
  {
    hide Scalars, OutStep, ChoiceFold, RawChoices;
    if events == [] {
      NoScalars();
    } else {
      var front, last := events[..|events| - 1], events[|events| - 1];
      assert events == front + [last];
      ScalarsAreDeclared(front);
      EventFoldSnoc(EMPTY, front, last);
      if last.Obj? {
        ScalarStep(FirstModel(front), LastValue(front, "usage"), LastValue(front, "error"), last.fields);
      }
    }
  }

  lemma NoScalars()
    ensures Scalars(None, None, None) == map[]
  {
  }

  /**
   The whole view of a stream in the stated domain: the first model, the last usage and error, and one choice
   per index, ascending, each as declared.
   */
  lemma ViewIsDeclared(events: seq<Value>)
    requires forall k :: 0 <= k < |AllChoices(events)| ==> Plain(AllChoices(events)[k])
    ensures var keys := Sorting.SortedInts(Indices(AllChoices(events)));
      View(EventFold(EMPTY, events)) ==
        Obj(Scalars(FirstModel(events), LastValue(events, "usage"), LastValue(events, "error"))
            + Maybe("choices", if keys == [] then None else Some(Arr(Declared(AllChoices(events), keys)))))
  {
    hide Scalars, Plain, Declared, Indices, DeclaredChoices;
    var raws := AllChoices(events);
    EventBoundariesVanish(EMPTY, events);
    ChoicesAreDeclared(raws);
    ScalarsAreDeclared(events);
    InOrderOfDeclared(raws);
    ViewIs(EventFold(EMPTY, events));
    KeysOfDeclared(raws);
  }

  lemma KeysOfDeclared(raws: seq<Value>)
    ensures DeclaredChoices(raws).Keys == Indices(raws)
    ensures Sorting.SortedInts(Indices(raws)) == [] <==> DeclaredChoices(raws).Keys == {}
  {
  }

  lemma ViewIs(st: State)
    ensures View(st) == Obj(st.out + Maybe("choices", if st.choices.Keys == {} then None
                                                      else Some(Arr(InOrder(st.choices, Sorting.SortedInts(st.choices.Keys))))))
  {
    hide InOrder, Sorting.SortedInts;
    assert st.choices.Keys == {} <==> st.choices == map[];
    if st.choices.Keys != {} {
      AddOne(st.out, "choices", Arr(InOrder(st.choices, Sorting.SortedInts(st.choices.Keys))));
    } else {
      AddNone(st.out);
    }
  }

  lemma AddOne<K, V>(m: map<K, V>, k: K, v: V)
    ensures m[k := v] == m + map[k := v]
  {
  }

  lemma AddNone<K, V>(m: map<K, V>)
    ensures m + map[] == m
  {
  }
}
