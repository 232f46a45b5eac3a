/**
 The OpenAI chat stream aggregation of the enclave: the state object fed one event at a time, the
 whole-list aggregator, and what both compute, stated without reference to either.
 */
module ChatFold {
  import opened Bytes
  import opened Json
  import Sorting

  type Fields = map<string, Value>

  // ----- Merging one delta into a message -----

  /** `append_string_field`. */
  function AppendStr(target: Fields, field: string, v: Option<Value>): Fields {
    var s := AsStr(v);
    if s.None? then target
    else
      var existing := AsStr(Json.Field(target, field));
      target[field := Str(if existing.Some? then existing.value + s.value else s.value)]
  }

  /** One element of `merge_tool_calls`, as one update of the whole record. */
  function MergedCall(item: Fields, raw: Fields): Fields {
    var plain := item + (map k | k in raw && k != "index" && k != "function" :: raw[k]);
    var f := AsObj(Json.Field(raw, "function"));
    if f.None? then plain else plain["function" := MergedFunction(item, f.value)]
  }

  function MergedFunction(item: Fields, delta: Fields): Value {
    var known := AsObj(Json.Field(item, "function")).GetOr(map[]);
    Obj(AppendStr(AppendStr(known, "name", Json.Field(delta, "name")), "arguments", Json.Field(delta, "arguments")))
  }

  function Padded(current: seq<Value>, size: nat): seq<Value>
    decreases if size > |current| then size - |current| else 0
  {
    if |current| >= size then current else Padded(current + [Obj(map[])], size)
  }

  lemma {:induction false} PaddedLength(current: seq<Value>, size: nat)
    ensures |Padded(current, size)| == if |current| >= size then |current| else size
    decreases if size > |current| then size - |current| else 0
  {
    if |current| < size {
      PaddedLength(current + [Obj(map[])], size);
    }
  }

  lemma PaddedOne(current: seq<Value>, index: nat)
    requires index <= |current|
    ensures Padded(current, index + 1) == if index == |current| then current + [Obj(map[])] else current
  {
    if index == |current| {
      assert Padded(current + [Obj(map[])], index + 1) == current + [Obj(map[])];
    }
  }

  function MergedCalls(current: seq<Value>, delta: seq<Value>): seq<Value>
    decreases |delta|
  {
    if delta == [] then current
    else if !delta[0].Obj? then MergedCalls(current, delta[1..])
    else
      var raw := delta[0].fields;
      var index := AsIndex(Json.Field(raw, "index")).GetOr(|current|);
      var grown := Padded(current, index + 1);
      PaddedLength(current, index + 1);
      MergedCalls(grown[index := Obj(MergedCall(AsObj(Some(grown[index])).GetOr(map[]), raw))], delta[1..])
  }

  function WithRole(message: Fields, delta: Fields): Fields {
    var role := AsStr(Json.Field(delta, "role"));
    if "role" !in message && role.Some? then message["role" := Str(role.value)] else message
  }

  function WithCalls(message: Fields, delta: Fields): Fields {
    var calls := AsArr(Json.Field(delta, "tool_calls"));
    if calls.None? then message
    else message["tool_calls" := Arr(MergedCalls(AsArr(Json.Field(message, "tool_calls")).GetOr([]), calls.value))]
  }

  /** `merge_openai_chat_delta`. */
  function MergedDelta(message: Fields, delta: Fields): Fields {
    var m0 := WithRole(message, delta);
    var m1 := AppendStr(m0, "content", Json.Field(delta, "content"));
    var m2 := AppendStr(m1, "reasoning_content", Json.Field(delta, "reasoning_content"));
    WithCalls(m2, delta)
  }

  /** Text and role deltas do not touch the tool calls. */
  lemma CallsStay(message: Fields, delta: Fields)
    ensures var m := AppendStr(AppendStr(WithRole(message, delta), "content", Json.Field(delta, "content")),
                               "reasoning_content", Json.Field(delta, "reasoning_content"));
      Json.Field(m, "tool_calls") == Json.Field(message, "tool_calls")
  {
    assert "tool_calls" != "content" && "tool_calls" != "reasoning_content" && "tool_calls" != "role";
  }

  // ----- One choice, one event, a list of events -----

  type Choices = map<int, Fields>

  datatype State = State(out: Fields, choices: Choices)

  const EMPTY := State(map[], map[])

  function FreshChoice(index: int): Fields {
    map["index" := Num(Int(index)), "message" := Obj(map[])]
  }

  function ChoiceIndex(choices: Choices, raw: Fields): int {
    AsI64(Json.Field(raw, "index")).GetOr(|choices|)
  }

  /** The effect of one raw choice on the accumulated choice of its index. */
  function MergedChoice(choice: Fields, raw: Fields): Fields {
    var m0 := AsObj(Json.Field(choice, "message")).GetOr(map[]);
    var delta := AsObj(Json.Field(raw, "delta"));
    var m1 := if delta.Some? then MergedDelta(m0, delta.value) else m0;
    var full := AsObj(Json.Field(raw, "message"));
    var m2 := if full.Some? then m1 + full.value else m1;
    var c0 := choice["message" := Obj(m2)];
    var c1 := if "finish_reason" in raw && !raw["finish_reason"].Null? then c0["finish_reason" := raw["finish_reason"]] else c0;
    if "logprobs" in raw then c1["logprobs" := raw["logprobs"]] else c1
  }

  function ChoiceStep(choices: Choices, raw: Value): Choices {
    if !raw.Obj? then choices
    else
      var index := ChoiceIndex(choices, raw.fields);
      var choice := if index in choices then choices[index] else FreshChoice(index);
      choices[index := MergedChoice(choice, raw.fields)]
  }

  function ChoiceFold(choices: Choices, raws: seq<Value>): Choices
    decreases |raws|
  {
    if raws == [] then choices else ChoiceFold(ChoiceStep(choices, raws[0]), raws[1..])
  }

  function OutStep(out: Fields, chunk: Fields): Fields {
    var model := AsStr(Json.Field(chunk, "model"));
    var o0 := if "model" !in out && model.Some? then out["model" := Str(model.value)] else out;
    var o1 := if "usage" in chunk then o0["usage" := chunk["usage"]] else o0;
    if "error" in chunk then o1["error" := chunk["error"]] else o1
  }

  function RawChoices(event: Value): seq<Value> {
    if event.Obj? then AsArr(Json.Field(event.fields, "choices")).GetOr([]) else []
  }

  function EventStep(st: State, event: Value): State {
    if !event.Obj? then st
    else State(OutStep(st.out, event.fields), ChoiceFold(st.choices, RawChoices(event)))
  }

  function EventFold(st: State, events: seq<Value>): State
    decreases |events|
  {
    if events == [] then st else EventFold(EventStep(st, events[0]), events[1..])
  }

  /** `BTreeMap::into_values`. */
  function InOrder(choices: Choices, keys: seq<int>): (vs: seq<Value>)
    requires forall i :: 0 <= i < |keys| ==> keys[i] in choices
    ensures |vs| == |keys|
  {
    seq(|keys|, i requires 0 <= i < |keys| => Obj(choices[keys[i]]))
  }

  function View(st: State): Value {
    if st.choices == map[] then Obj(st.out)
    else Obj(st.out["choices" := Arr(InOrder(st.choices, Sorting.SortedInts(st.choices.Keys)))])
  }

  lemma {:induction false} EventFoldConcat(st: State, a: seq<Value>, b: seq<Value>)
    ensures EventFold(st, a + b) == EventFold(EventFold(st, a), b)
    decreases |a|
  {
    if a == [] {
      assert a + b == b;
    } else {
      assert (a + b)[1..] == a[1..] + b;
      EventFoldConcat(EventStep(st, a[0]), a[1..], b);
    }
  }

  lemma EventFoldSnoc(st: State, a: seq<Value>, e: Value)
    ensures EventFold(st, a + [e]) == EventStep(EventFold(st, a), e)
  {
    EventFoldConcat(st, a, [e]);
    assert EventFold(EventFold(st, a), [e]) == EventFold(EventStep(EventFold(st, a), e), [e][1..]);
  }

  lemma {:induction false} ChoiceFoldConcat(c: Choices, a: seq<Value>, b: seq<Value>)
    ensures ChoiceFold(c, a + b) == ChoiceFold(ChoiceFold(c, a), b)
    decreases |a|
  {
    if a == [] {
      assert a + b == b;
    } else {
      assert (a + b)[1..] == a[1..] + b;
      ChoiceFoldConcat(ChoiceStep(c, a[0]), a[1..], b);
    }
  }

  lemma ChoiceFoldSnoc(c: Choices, a: seq<Value>, e: Value)
    ensures ChoiceFold(c, a + [e]) == ChoiceStep(ChoiceFold(c, a), e)
  {
    ChoiceFoldConcat(c, a, [e]);
    assert ChoiceFold(ChoiceFold(c, a), [e]) == ChoiceFold(ChoiceStep(ChoiceFold(c, a), e), [e][1..]);
  }

  // ----- The imperative code -----

  /** `merge_tool_calls`. */
  method MergeToolCalls(given: seq<Value>, delta: seq<Value>) returns (current: seq<Value>)
    ensures current == MergedCalls(given, delta)
  {
    current := given;
    for i := 0 to |delta|
      invariant MergedCalls(current, delta[i..]) == MergedCalls(given, delta)
    {
      if !delta[i].Obj? {
        continue;
      }
      var raw := delta[i].fields;
      var index := AsIndex(Json.Field(raw, "index")).GetOr(|current|);
      ghost var grown := Padded(current, index + 1);
      PaddedLength(current, index + 1);
      while |current| <= index
        invariant Padded(current, index + 1) == grown
        decreases index - |current|
      {
        current := current + [Obj(map[])];
      }
      assert current == grown;
      var item := AsObj(Some(current[index])).GetOr(map[]);
      item := MergeToolCall(item, raw);
      current := current[index := Obj(item)];
    }
  }

  /** The loop over the fields of one tool-call delta; the visiting order is immaterial. */
  method MergeToolCall(given: Fields, raw: Fields) returns (item: Fields)
    ensures item == MergedCall(given, raw)
  {
    item := given;
    var rest := raw.Keys;
    while rest != {}
      invariant rest <= raw.Keys
      invariant item == CallSoFar(given, raw, raw.Keys - rest)
      decreases |rest|
    {
      var key :| key in rest;
      CallVisit(given, raw, raw.Keys - rest, key);
      assert raw.Keys - (rest - {key}) == raw.Keys - rest + {key};
      rest := rest - {key};
      if key == "index" {
        continue;
      }
      if key == "function" {
        var f := AsObj(Some(raw[key]));
        if f.Some? {
          var fn := AsObj(Json.Field(item, "function")).GetOr(map[]);
          fn := AppendStr(fn, "name", Json.Field(f.value, "name"));
          fn := AppendStr(fn, "arguments", Json.Field(f.value, "arguments"));
          item := item["function" := Obj(fn)];
        }
      } else {
        item := item[key := raw[key]];
      }
    }
    assert raw.Keys - rest == raw.Keys;
    assert (map k | k in raw && k in raw.Keys :: raw[k]) == raw;
  }

  /** Visiting one more field. */
  lemma CallVisit(item: Fields, raw: Fields, done: set<string>, key: string)
    requires done <= raw.Keys && key in raw && key !in done
    ensures CallSoFar(item, raw, done + {key}) ==
      var now := CallSoFar(item, raw, done);
      if key == "index" then now
      else if key != "function" then now[key := raw[key]]
      else if raw[key].Obj? then now[key := MergedFunction(now, raw[key].fields)]
      else now
  {
    hide MergedFunction, PlainPart;
    VisitPlain(item, raw, done, key);
    VisitFunction(raw, done, key);
    var r0 := map k | k in raw && k in done :: raw[k];
    var p0 := PlainPart(item, r0);
    CallIsPlain(item, r0);
    CallIsPlain(item, map k | k in raw && k in done + {key} :: raw[k]);
    if key == "function" && raw[key].Obj? {
      PlainKeepsFunction(item, r0, raw[key].fields);
    } else if key != "index" && key != "function" && "function" in done && raw["function"].Obj? {
      UpdatesCommute(p0, "function", MergedFunction(item, raw["function"].fields), key, raw[key]);
    }
  }

  lemma UpdatesCommute<K, V>(m: map<K, V>, k: K, v: V, l: K, w: V)
    requires k != l
    ensures m[k := v][l := w] == m[l := w][k := v]
  {
  }

  lemma CallIsPlain(item: Fields, raw: Fields)
    ensures MergedCall(item, raw) == (var f := AsObj(Json.Field(raw, "function"));
      if f.None? then PlainPart(item, raw) else PlainPart(item, raw)["function" := MergedFunction(item, f.value)])
  {
  }

  lemma PlainKeepsFunction(item: Fields, raw: Fields, delta: Fields)
    ensures MergedFunction(PlainPart(item, raw), delta) == MergedFunction(item, delta)
  {
    assert Json.Field(PlainPart(item, raw), "function") == Json.Field(item, "function");
  }

  /** The fields a tool-call delta replaces. */
  ghost function PlainPart(item: Fields, raw: Fields): Fields {
    item + (map k | k in raw && k != "index" && k != "function" :: raw[k])
  }

  lemma VisitPlain(item: Fields, raw: Fields, done: set<string>, key: string)
    requires done <= raw.Keys && key in raw && key !in done
    ensures PlainPart(item, map k | k in raw && k in done + {key} :: raw[k])
      == (var now := PlainPart(item, map k | k in raw && k in done :: raw[k]);
          if key == "index" || key == "function" then now else now[key := raw[key]])
  {
  }

  lemma VisitFunction(raw: Fields, done: set<string>, key: string)
    requires done <= raw.Keys && key in raw && key !in done
    ensures Json.Field(map k | k in raw && k in done + {key} :: raw[k], "function")
      == if "function" in done || key == "function" then Some(raw["function"]) else None
    ensures Json.Field(map k | k in raw && k in done :: raw[k], "function")
      == if "function" in done then Some(raw["function"]) else None
  {
  }

  /** The record after the fields in `done` were visited. */
  ghost function CallSoFar(item: Fields, raw: Fields, done: set<string>): Fields
    requires done <= raw.Keys
  {
    MergedCall(item, map k | k in raw && k in done :: raw[k])
  }

  /** `OpenAiChatStreamState`. */
  class OpenAiChatStreamState {
    var out: Fields
    var choices: Choices

    ghost function Model(): State
      reads this
    {
      State(out, choices)
    }

    constructor ()
      ensures Model() == EMPTY
    {
      out := map[];
      choices := map[];
    }

    method Apply(item: Value)
      modifies this
      ensures Model() == EventStep(old(Model()), item)
    {
      hide MergedChoice, FreshChoice, AsI64;
      if !item.Obj? {
        return;
      }
      var chunk := item.fields;
      if "model" !in out {
        var model := AsStr(Json.Field(chunk, "model"));
        if model.Some? {
          out := out["model" := Str(model.value)];
        }
      }
      if "usage" in chunk {
        out := out["usage" := chunk["usage"]];
      }
      if "error" in chunk {
        out := out["error" := chunk["error"]];
      }
      var raws := AsArr(Json.Field(chunk, "choices"));
      if raws.None? {
        return;
      }
      for i := 0 to |raws.value|
        invariant out == OutStep(old(out), chunk)
        invariant ChoiceFold(choices, raws.value[i..]) == ChoiceFold(old(choices), raws.value)
      {
        if !raws.value[i].Obj? {
          continue;
        }
        var raw := raws.value[i].fields;
        var index := AsI64(Json.Field(raw, "index")).GetOr(|choices|);
        var choice := if index in choices then choices[index] else FreshChoice(index);
        choice := MergeChoice(choice, raw);
        choices := choices[index := choice];
      }
    }

    method Finish() returns (view: Value)
      modifies this
      ensures view == View(old(Model())) && Model() == EMPTY
    {
      if choices != map[] {
        var taken := choices;
        choices := map[];
        out := out["choices" := Arr(InOrder(taken, Sorting.SortedInts(taken.Keys)))];
      }
      view := Obj(out);
      out := map[];
    }
  }

  /** The part of `apply` that updates one accumulated choice. */
  method MergeChoice(given: Fields, raw: Fields) returns (choice: Fields)
    ensures choice == MergedChoice(given, raw)
  {
    var message := AsObj(Json.Field(given, "message")).GetOr(map[]);
    var delta := AsObj(Json.Field(raw, "delta"));
    if delta.Some? {
      message := MergeDelta(message, delta.value);
    }
    var full := AsObj(Json.Field(raw, "message"));
    if full.Some? {
      message := message + full.value;
    }
    choice := given["message" := Obj(message)];
    if "finish_reason" in raw && !raw["finish_reason"].Null? {
      choice := choice["finish_reason" := raw["finish_reason"]];
    }
    if "logprobs" in raw {
      choice := choice["logprobs" := raw["logprobs"]];
    }
  }

  method MergeDelta(given: Fields, delta: Fields) returns (message: Fields)
    ensures message == MergedDelta(given, delta)
  {
    message := given;
    if "role" !in message {
      var role := AsStr(Json.Field(delta, "role"));
      if role.Some? {
        message := message["role" := Str(role.value)];
      }
    }
    message := AppendStr(message, "content", Json.Field(delta, "content"));
    message := AppendStr(message, "reasoning_content", Json.Field(delta, "reasoning_content"));
    var calls := AsArr(Json.Field(delta, "tool_calls"));
    if calls.Some? {
      var current := AsArr(Json.Field(message, "tool_calls")).GetOr([]);
      current := MergeToolCalls(current, calls.value);
      message := message["tool_calls" := Arr(current)];
    }
  }

  /** `aggregate_openai_chat_stream` on the events of a stream. */
  method AggregateStream(items: seq<Value>) returns (view: Value)
    ensures view == View(EventFold(EMPTY, items))
  {
    var state := new OpenAiChatStreamState();
    for i := 0 to |items|
      invariant state.Model() == EventFold(EMPTY, items[..i])
    {
      assert items[..i + 1] == items[..i] + [items[i]];
      EventFoldSnoc(EMPTY, items[..i], items[i]);
      state.Apply(items[i]);
    }
    assert items[..|items|] == items;
    view := state.Finish();
  }
}
