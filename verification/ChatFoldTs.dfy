/**
 The verifier's own chat aggregation (TypeScript), and when it agrees with the enclave's. An array hole is
 written as a null, which is how it prints; an entry of a message under `__proto__` is the prototype of the
 message, which reads fall back to and the printer does not show.
 */
module ChatFoldTs {
  import opened Bytes
  import opened Json
  import opened ChatFold
  import Sorting

  /** `typeof rawChoice.index === 'number' ? rawChoice.index : i`. */
  function IndexOr(v: Option<Value>, position: int): int {
    if v.Some? && v.value.Num? && v.value.n.Int? then v.value.n.i else position
  }

  /** One tool call; an entry under `__proto__` is stored only where it replaces one that was parsed. */
  function TsMergedCall(current: Fields, raw: Fields): Fields {
    var plain := current
      + (map k | k in raw && k != "index" && !(k == "function" && raw[k].Obj?) && (k != PROTO || PROTO in current) :: raw[k]);
    var f := AsObj(Json.Field(raw, "function"));
    if f.None? then plain else plain["function" := MergedFunction(current, f.value)]
  }

  function Holes(current: seq<Value>, size: nat): (r: seq<Value>)
    ensures |r| == if |current| >= size then |current| else size
  {
    if |current| >= size then current else current + seq(size - |current|, _ => Value.Null)
  }

  /** What an array stores as an element; any other number names a property that never prints. */
  predicate Element(index: int) {
    0 <= index < 0xFFFF_FFFF
  }

  /** `mergeToolCalls`. */
  function TsMergedCalls(existing: seq<Value>, delta: seq<Value>): seq<Value>
    decreases |delta|
  {
    if delta == [] then existing
    else if !delta[0].Obj? || !Element(IndexOr(Json.Field(delta[0].fields, "index"), |existing|)) then TsMergedCalls(existing, delta[1..])
    else
      var raw := delta[0].fields;
      var index: nat := IndexOr(Json.Field(raw, "index"), |existing|);
      var grown := Holes(existing, index + 1);
      TsMergedCalls(grown[index := Obj(TsMergedCall(AsObj(Some(grown[index])).GetOr(map[]), raw))], delta[1..])
  }

  /** A number that is no array index leaves the list as it is in the verifier. */
  lemma OutsideTheArray(existing: seq<Value>, raw: Fields, n: int)
    requires Json.Field(raw, "index") == Some(Num(Int(n))) && (n < 0 || n >= 0xFFFF_FFFF)
    ensures TsMergedCalls(existing, [Obj(raw)]) == existing
  {
    assert [Obj(raw)][1..] == [];
  }

  /**
   The enclave takes an index that does not fit 64 bits for none: the next free choice, a call at the end of the
   list.
   */
  lemma IndexTooLarge(choices: Choices, current: seq<Value>, raw: Fields, n: int)
    requires Json.Field(raw, "index") == Some(Num(Int(n)))
    ensures ChoiceIndex(choices, raw) == if -0x8000_0000_0000_0000 <= n <= 0x7FFF_FFFF_FFFF_FFFF then n else |choices|
    ensures n < 0 || n > 0xFFFF_FFFF_FFFF_FFFF ==>
              MergedCalls(current, [Obj(raw)]) == current + [Obj(MergedCall(map[], raw))]
  {
    hide MergedCall;
    if n < 0 || n > 0xFFFF_FFFF_FFFF_FFFF {
      assert [Obj(raw)][1..] == [];
      PaddedOne(current, |current|);
      assert (current + [Obj(map[])])[|current| := Obj(MergedCall(map[], raw))] == current + [Obj(MergedCall(map[], raw))];
    }
  }

  // ----- Messages with a prototype -----

  /** `message[key]`: its own entry or the one of its prototype. */
  function Read(message: Fields, key: string): Option<Value> {
    if key in message then Some(message[key])
    else Json.Field(AsObj(Json.Field(message, PROTO)).GetOr(map[]), key)
  }

  /** The prototype is null or has an entry `__proto__` of its own: assigning the key no longer changes it. */
  predicate Sealed(message: Fields) {
    PROTO in message && (message[PROTO].Null? || (message[PROTO].Obj? && PROTO in message[PROTO].fields))
  }

  /** `mergeObject`: every entry is assigned. */
  function TsAssigned(message: Fields, source: Fields): Fields {
    var plain := message + (map k | k in source && k != PROTO :: source[k]);
    if PROTO in source && !Sealed(message) && (source[PROTO].Obj? || source[PROTO].Arr? || source[PROTO].Null?)
    then plain[PROTO := source[PROTO]] else plain
  }

  /**
   What assigning does to later reads: an entry of the source is read back; `__proto__` with an object makes the
   entries of that object readable where there is none, with null it hides them for good, and with a value that is
   neither object, array nor null it does nothing.
   */
  lemma AssignedReads(message: Fields, source: Fields, later: Fields, key: string)
    requires key != PROTO && key !in message && key !in source && key !in later
    requires PROTO !in message && PROTO in source
    ensures forall k :: k in source && k != PROTO ==> Read(TsAssigned(message, source), k) == Some(source[k])
    ensures source[PROTO].Obj? ==> Read(TsAssigned(message, source), key) == Json.Field(source[PROTO].fields, key)
    ensures !source[PROTO].Obj? ==> Read(TsAssigned(message, source), key) == None
    ensures source[PROTO].Null? || (source[PROTO].Obj? && PROTO in source[PROTO].fields) ==>
              Read(TsAssigned(TsAssigned(message, source), later), key) == Read(TsAssigned(message, source), key)
    ensures source[PROTO].Arr? || (source[PROTO].Obj? && PROTO !in source[PROTO].fields) ==>
              Read(TsAssigned(TsAssigned(message, source), later), key) ==
                if PROTO in later && (later[PROTO].Obj? || later[PROTO].Arr? || later[PROTO].Null?)
                then Json.Field(AsObj(Some(later[PROTO])).GetOr(map[]), key)
                else Read(TsAssigned(message, source), key)
  {
  }

  function TsAppendStr(target: Fields, field: string, v: Option<Value>): Fields {
    var s := AsStr(v);
    if s.None? then target
    else
      var existing := AsStr(Read(target, field));
      target[field := Str(if existing.Some? then existing.value + s.value else s.value)]
  }

  function TsWithRole(message: Fields, delta: Fields): Fields {
    var role := AsStr(Json.Field(delta, "role"));
    if role.Some? && Read(message, "role").None? then message["role" := Str(role.value)] else message
  }

  function TsWithCalls(message: Fields, delta: Fields): Fields {
    if "tool_calls" !in delta then message
    else
      var existing := AsArr(Read(message, "tool_calls")).GetOr([]);
      message["tool_calls" := Arr(if delta["tool_calls"].Arr? then TsMergedCalls(existing, delta["tool_calls"].items) else existing)]
  }

  /** `mergeOpenAIChatDelta`. */
  function TsMergedDelta(message: Fields, delta: Fields): Fields {
    var m0 := TsWithRole(message, delta);
    var m1 := TsAppendStr(m0, "content", Json.Field(delta, "content"));
    var m2 := TsAppendStr(m1, "reasoning_content", Json.Field(delta, "reasoning_content"));
    TsWithCalls(m2, delta)
  }

  function TsMergedChoice(choice: Fields, raw: Fields): Fields {
    var m0 := MessageOf(choice);
    var delta := AsObj(Json.Field(raw, "delta"));
    var m1 := if delta.Some? then TsMergedDelta(m0, delta.value) else m0;
    var full := AsObj(Json.Field(raw, "message"));
    var m2 := if full.Some? then TsAssigned(m1, full.value) else m1;
    var c0 := choice["message" := Obj(m2)];
    var c1 := if "finish_reason" in raw && !raw["finish_reason"].Null? then c0["finish_reason" := raw["finish_reason"]] else c0;
    if "logprobs" in raw then c1["logprobs" := raw["logprobs"]] else c1
  }

  function MessageOf(choice: Fields): Fields {
    AsObj(Json.Field(choice, "message")).GetOr(map[])
  }

  function TsChoiceStep(choices: Choices, raw: Value, position: nat): Choices {
    if !raw.Obj? then choices
    else
      var index := IndexOr(Json.Field(raw.fields, "index"), position);
      var choice := if index in choices then choices[index] else FreshChoice(index);
      choices[index := TsMergedChoice(choice, raw.fields)]
  }

  function TsChoiceFold(choices: Choices, raws: seq<Value>, position: nat): Choices
    decreases |raws|
  {
    if raws == [] then choices else TsChoiceFold(TsChoiceStep(choices, raws[0], position), raws[1..], position + 1)
  }

  function TsEventStep(st: State, event: Value): State {
    if !event.Obj? then st
    else State(OutStep(st.out, event.fields), TsChoiceFold(st.choices, RawChoices(event), 0))
  }

  function TsEventFold(st: State, events: seq<Value>): State
    decreases |events|
  {
    if events == [] then st else TsEventFold(TsEventStep(st, events[0]), events[1..])
  }

  /** `aggregateOpenAIChatStream`. */
  method AggregateOpenAIChatStream(chunks: seq<Value>) returns (view: Value)
    ensures view == View(TsEventFold(EMPTY, chunks))
  {
    var out: Fields := map[];
    var choices: Choices := map[];
    for k := 0 to |chunks|
      invariant TsEventFold(State(out, choices), chunks[k..]) == TsEventFold(EMPTY, chunks)
    {
      if !chunks[k].Obj? {
        continue;
      }
      var chunk := chunks[k].fields;
      ghost var before := State(out, choices);
      if "model" !in out && AsStr(Json.Field(chunk, "model")).Some? {
        out := out["model" := chunk["model"]];
      }
      if "usage" in chunk {
        out := out["usage" := chunk["usage"]];
      }
      if "error" in chunk {
        out := out["error" := chunk["error"]];
      }
      var raws := AsArr(Json.Field(chunk, "choices")).GetOr([]);
      for i := 0 to |raws|
        invariant TsChoiceFold(choices, raws[i..], i) == TsChoiceFold(before.choices, raws, 0)
      {
        if raws[i].Obj? {
          var raw := raws[i].fields;
          var index := IndexOr(Json.Field(raw, "index"), i);
          var choice := if index in choices then choices[index] else FreshChoice(index);
          var message := MessageOf(choice);
          var delta := AsObj(Json.Field(raw, "delta"));
          if delta.Some? {
            message := TsMergedDelta(message, delta.value);
          }
          var full := AsObj(Json.Field(raw, "message"));
          if full.Some? {
            message := TsAssigned(message, full.value);
          }
          choice := choice["message" := Obj(message)];
          if "finish_reason" in raw && !raw["finish_reason"].Null? {
            choice := choice["finish_reason" := raw["finish_reason"]];
          }
          if "logprobs" in raw {
            choice := choice["logprobs" := raw["logprobs"]];
          }
          choices := choices[index := choice];
        }
      }
      assert State(out, choices) == TsEventStep(before, chunks[k]);
    }
    view := View(State(out, choices));
  }

  // ----- One tool call -----

  /** A piece both sides merge alike into a call. */
  predicate CallAlike(item: Fields, raw: Fields) {
    && (PROTO in raw ==> PROTO in item)
    && ("function" in raw && !raw["function"].Obj? ==> Json.Field(item, "function") == Some(raw["function"]))
  }

  /**
   A piece with a `function` that is no object, or with a prototype, is merged alike only if the call had it
   already.
   */
  lemma CallAgreesIff(item: Fields, raw: Fields)
    ensures TsMergedCall(item, raw) == MergedCall(item, raw) <==> CallAlike(item, raw)
  {
    hide MergedFunction;
    assert PROTO[0] == '_' && "function"[0] == 'f' && "index"[0] == 'i';
    var ts, rs := TsMergedCall(item, raw), MergedCall(item, raw);
    assert (PROTO in raw ==> PROTO in rs) && (PROTO in ts <==> PROTO in item);
    if "function" in raw && !raw["function"].Obj? {
      assert Json.Field(ts, "function") == Some(raw["function"]);
      assert Json.Field(rs, "function") == Json.Field(item, "function");
    }
    if CallAlike(item, raw) {
      CallAgrees(item, raw);
    }
  }

  lemma CallAgrees(item: Fields, raw: Fields)
    requires CallAlike(item, raw)
    ensures TsMergedCall(item, raw) == MergedCall(item, raw)
  {
    hide MergedFunction;
    var plain := map k | k in raw && k != "index" && k != "function" :: raw[k];
    var given := map k | k in raw && k != "index" && !(k == "function" && raw[k].Obj?) && (k != PROTO || PROTO in item) :: raw[k];
    if "function" in raw && !raw["function"].Obj? {
      assert given == plain["function" := raw["function"]];
      assert item + given == item + plain;
    } else {
      assert given == plain;
    }
  }

  // ----- A list of tool calls -----

  /** A gap opened by a later index is a hole in the verifier's array and an empty call in the enclave's list. */
  function Punch(list: seq<Value>, open: set<nat>): (r: seq<Value>)
    ensures |r| == |list|
  {
    seq(|list|, i requires 0 <= i < |list| => if i in open then Value.Null else list[i])
  }

  predicate Fits(list: seq<Value>, open: set<nat>) {
    forall p :: p in open ==> p < |list| && list[p] == Obj(map[])
  }

  /** Holes are seen. */
  lemma PunchedIff(list: seq<Value>, open: set<nat>)
    requires Fits(list, open)
    ensures Punch(list, open) == list <==> open == {}
  {
    if open != {} {
      var p := Sorting.Inhabited(open);
      assert Punch(list, open)[p] == Value.Null && list[p] == Obj(map[]);
    }
  }

  /** The places that later indices have opened and no piece has filled. */
  function Open(size: nat, open: set<nat>, delta: seq<Value>): set<nat>
    decreases |delta|
  {
    if delta == [] then open
    else if !delta[0].Obj? then Open(size, open, delta[1..])
    else
      var index := AsIndex(Json.Field(delta[0].fields, "index")).GetOr(size);
      Open(if index < size then size else index + 1, Opened(size, open, index), delta[1..])
  }

  function Between(low: nat, high: nat): (r: set<nat>)
    ensures forall p: nat :: p in r <==> low <= p < high
    decreases high - low
  {
    if low >= high then {} else {low} + Between(low + 1, high)
  }

  function Opened(size: nat, open: set<nat>, index: nat): set<nat> {
    (open + Between(size, index)) - {index}
  }

  function ItemAt(current: seq<Value>, index: nat): Fields {
    AsObj(if index < |current| then Some(current[index]) else None).GetOr(map[])
  }

  function CallsStep(current: seq<Value>, raw: Fields, index: nat): seq<Value> {
    PaddedLength(current, index + 1);
    Padded(current, index + 1)[index := Obj(MergedCall(ItemAt(current, index), raw))]
  }

  /** Pieces whose index both sides read alike and which they merge alike into the call at it. */
  predicate CallsAlike(current: seq<Value>, delta: seq<Value>)
    decreases |delta|
  {
    delta == [] ||
    if !delta[0].Obj? then CallsAlike(current, delta[1..])
    else
      var raw := delta[0].fields;
      var index := AsIndex(Json.Field(raw, "index")).GetOr(|current|);
      && IndexOr(Json.Field(raw, "index"), |current|) == index < 0xFFFF_FFFF
      && CallAlike(ItemAt(current, index), raw)
      && CallsAlike(CallsStep(current, raw, index), delta[1..])
  }

  lemma {:induction false} PaddedAre(current: seq<Value>, size: nat)
    ensures |Padded(current, size)| == if |current| >= size then |current| else size
    ensures forall i :: 0 <= i < |Padded(current, size)| ==>
        Padded(current, size)[i] == if i < |current| then current[i] else Obj(map[])
    decreases if size > |current| then size - |current| else 0
  {
    if |current| < size {
      PaddedAre(current + [Obj(map[])], size);
    }
  }

  /** One piece, on both sides. */
  lemma PiecePunched(current: seq<Value>, open: set<nat>, raw: Fields, index: nat)
    requires Fits(current, open) && CallAlike(ItemAt(current, index), raw)
    ensures var given := Punch(current, open);
      var grown := Holes(given, index + 1);
      && index < |grown|
      && grown[index := Obj(TsMergedCall(AsObj(Some(grown[index])).GetOr(map[]), raw))]
         == Punch(CallsStep(current, raw, index), Opened(|current|, open, index))
    ensures Fits(CallsStep(current, raw, index), Opened(|current|, open, index))
    ensures |CallsStep(current, raw, index)| == if index < |current| then |current| else index + 1
  {
    hide TsMergedCall, MergedCall, CallAlike, Padded;
    PaddedAre(current, index + 1);
    CallAgreesIff(ItemAt(current, index), raw);
    var given := Punch(current, open);
    var grown := Holes(given, index + 1);
    assert AsObj(Some(grown[index])).GetOr(map[]) == ItemAt(current, index);
  }

  /** What the verifier has is what the enclave has with the open places punched out. */
  lemma {:induction false} CallsPunched(current: seq<Value>, open: set<nat>, delta: seq<Value>)
    requires CallsAlike(current, delta) && Fits(current, open)
    ensures TsMergedCalls(Punch(current, open), delta) == Punch(MergedCalls(current, delta), Open(|current|, open, delta))
    ensures Fits(MergedCalls(current, delta), Open(|current|, open, delta))
    decreases |delta|
  {
    hide MergedCall, TsMergedCall, Padded, Holes, Punch, Fits, Opened, CallAlike;
    if delta == [] {
    } else if !delta[0].Obj? {
      CallsPunched(current, open, delta[1..]);
    } else {
      var raw := delta[0].fields;
      var index := AsIndex(Json.Field(raw, "index")).GetOr(|current|);
      PiecePunched(current, open, raw, index);
      PaddedAre(current, index + 1);
      assert ItemAt(current, index) == AsObj(Some(Padded(current, index + 1)[index])).GetOr(map[]);
      CallsPunched(CallsStep(current, raw, index), Opened(|current|, open, index), delta[1..]);
    }
  }

  /** The two lists are the same exactly when every place a later index opened is filled in the end. */
  lemma CallsAgreeIff(current: seq<Value>, delta: seq<Value>)
    requires CallsAlike(current, delta)
    ensures TsMergedCalls(current, delta) == MergedCalls(current, delta) <==> Open(|current|, {}, delta) == {}
  {
    hide CallsAlike, TsMergedCalls, MergedCalls, Open;
    assert Punch(current, {}) == current;
    CallsPunched(current, {}, delta);
    PunchedIff(MergedCalls(current, delta), Open(|current|, {}, delta));
  }

  // ----- Messages and choices -----

  function Calls(message: Fields): Option<seq<Value>> {
    AsArr(Json.Field(message, "tool_calls"))
  }

  function PunchMessage(message: Fields, open: set<nat>): Fields {
    if open == {} then message else message["tool_calls" := Arr(Punch(Calls(message).GetOr([]), open))]
  }

  predicate FitsMessage(message: Fields, open: set<nat>) {
    open != {} ==> Calls(message).Some? && Fits(Calls(message).value, open)
  }

  /**
   A delta both sides treat alike, up to places left open: its tool calls are alike, or they are no list and the
   message has a list already.
   */
  predicate CommonDelta(message: Fields, delta: Fields) {
    && PROTO !in message
    && ("tool_calls" in delta ==>
          if delta["tool_calls"].Arr? then CallsAlike(Calls(message).GetOr([]), delta["tool_calls"].items) else Calls(message).Some?)
  }

  function OpenDelta(message: Fields, open: set<nat>, delta: Fields): set<nat> {
    if Calls(delta).Some? then Open(|Calls(message).GetOr([])|, open, Calls(delta).value) else open
  }

  lemma NamesApart()
    ensures "tool_calls" != "content" && "tool_calls" != "reasoning_content" && "tool_calls" != "role" && "tool_calls" != PROTO
    ensures PROTO != "content" && PROTO != "reasoning_content" && PROTO != "role" && PROTO != "message"
  {
    assert PROTO[0] == '_' && "tool_calls"[0] == 't';
  }

  lemma RolePunched(message: Fields, open: set<nat>, delta: Fields)
    requires PROTO !in message
    ensures TsWithRole(PunchMessage(message, open), delta) == PunchMessage(WithRole(message, delta), open)
    ensures PROTO !in WithRole(message, delta) && Calls(WithRole(message, delta)) == Calls(message)
  {
    hide Punch;
    NamesApart();
  }

  lemma AppendPunched(message: Fields, open: set<nat>, field: string, v: Option<Value>)
    requires PROTO !in message && field != "tool_calls" && field != PROTO
    ensures TsAppendStr(PunchMessage(message, open), field, v) == PunchMessage(AppendStr(message, field, v), open)
    ensures PROTO !in AppendStr(message, field, v) && Calls(AppendStr(message, field, v)) == Calls(message)
  {
    hide Punch;
    assert Read(PunchMessage(message, open), field) == Json.Field(message, field);
  }

  /** The texts of a delta do not see the tool calls. */
  lemma TextsPunched(message: Fields, open: set<nat>, delta: Fields)
    requires PROTO !in message
    ensures var r := AppendStr(AppendStr(WithRole(message, delta), "content", Json.Field(delta, "content")),
                               "reasoning_content", Json.Field(delta, "reasoning_content"));
      && PROTO !in r && Calls(r) == Calls(message)
      && TsAppendStr(TsAppendStr(TsWithRole(PunchMessage(message, open), delta), "content", Json.Field(delta, "content")),
                     "reasoning_content", Json.Field(delta, "reasoning_content")) == PunchMessage(r, open)
  {
    hide PunchMessage, TsAppendStr, AppendStr, TsWithRole, WithRole;
    NamesApart();
    RolePunched(message, open, delta);
    var r0 := WithRole(message, delta);
    AppendPunched(r0, open, "content", Json.Field(delta, "content"));
    var r1 := AppendStr(r0, "content", Json.Field(delta, "content"));
    AppendPunched(r1, open, "reasoning_content", Json.Field(delta, "reasoning_content"));
  }

  lemma DeltaPunched(message: Fields, open: set<nat>, delta: Fields)
    requires CommonDelta(message, delta) && FitsMessage(message, open)
    ensures TsMergedDelta(PunchMessage(message, open), delta)
        == PunchMessage(MergedDelta(message, delta), OpenDelta(message, open, delta))
    ensures FitsMessage(MergedDelta(message, delta), OpenDelta(message, open, delta))
  {
    hide WithRole, AppendStr, TsWithRole, TsAppendStr, MergedCalls, TsMergedCalls, CallsAlike, Open, Punch, Fits;
    TextsPunched(message, open, delta);
    NamesApart();
    var list := Calls(message).GetOr([]);
    NothingPunched(list);
    if Calls(delta).Some? {
      CallsPunched(list, open, Calls(delta).value);
      NothingPunched(MergedCalls(list, Calls(delta).value));
    }
  }

  lemma NothingPunched(list: seq<Value>)
    ensures Punch(list, {}) == list && Fits(list, {})
  {
  }

  /** A `tool_calls` that is no list is ignored by the enclave; the verifier turns it into a list if there is none. */
  lemma NonListIff(message: Fields, delta: Fields)
    requires PROTO !in message && "tool_calls" in delta && !delta["tool_calls"].Arr?
    ensures TsMergedDelta(message, delta) == MergedDelta(message, delta) <==> Calls(message).Some?
  {
    hide WithRole, AppendStr, TsWithRole, TsAppendStr, TsMergedCalls, MergedCalls;
    TextsPunched(message, {}, delta);
    NamesApart();
    var m := AppendStr(AppendStr(WithRole(message, delta), "content", Json.Field(delta, "content")),
                       "reasoning_content", Json.Field(delta, "reasoning_content"));
    if TsMergedDelta(message, delta) == MergedDelta(message, delta) {
      assert Json.Field(TsMergedDelta(message, delta), "tool_calls").value.Arr?;
    }
  }

  function PunchChoice(choice: Fields, open: set<nat>): Fields {
    if open == {} then choice else choice["message" := Obj(PunchMessage(MessageOf(choice), open))]
  }

  /** A raw choice both sides treat alike in the choice it goes to, up to places left open. */
  predicate CommonRaw(choice: Fields, raw: Fields) {
    var delta, full := AsObj(Json.Field(raw, "delta")), AsObj(Json.Field(raw, "message"));
    && (delta.Some? ==> CommonDelta(MessageOf(choice), delta.value))
    && (full.Some? ==> PROTO !in full.value)
  }

  function OpenRaw(choice: Fields, open: set<nat>, raw: Fields): set<nat> {
    var delta, full := AsObj(Json.Field(raw, "delta")), AsObj(Json.Field(raw, "message"));
    if full.Some? && "tool_calls" in full.value then {}
    else if delta.Some? then OpenDelta(MessageOf(choice), open, delta.value)
    else open
  }

  lemma FullPunched(message: Fields, open: set<nat>, full: Fields)
    requires PROTO !in full && FitsMessage(message, open)
    ensures var left := if "tool_calls" in full then {} else open;
      TsAssigned(PunchMessage(message, open), full)
      == PunchMessage(message + full, left) && FitsMessage(message + full, left)
  {
    hide Punch, Fits;
    assert (map k | k in full && k != PROTO :: full[k]) == full;
    var given := PunchMessage(message, open);
    var left := if "tool_calls" in full then {} else open;
    assert Calls(message + full) == if "tool_calls" in full then Calls(full) else Calls(message);
    assert given + full == PunchMessage(message + full, left);
  }

  /** The message of a choice after a raw choice, on both sides. */
  function NextMessage(choice: Fields, raw: Fields): Fields {
    var delta, full := AsObj(Json.Field(raw, "delta")), AsObj(Json.Field(raw, "message"));
    var m := if delta.Some? then MergedDelta(MessageOf(choice), delta.value) else MessageOf(choice);
    if full.Some? then m + full.value else m
  }

  function TsNextMessage(choice: Fields, raw: Fields): Fields {
    var delta, full := AsObj(Json.Field(raw, "delta")), AsObj(Json.Field(raw, "message"));
    var m := if delta.Some? then TsMergedDelta(MessageOf(choice), delta.value) else MessageOf(choice);
    if full.Some? then TsAssigned(m, full.value) else m
  }

  /** The rest of a choice does not see its message. */
  function Rest(choice: Fields, raw: Fields): Fields {
    var c := if "finish_reason" in raw && !raw["finish_reason"].Null? then choice["finish_reason" := raw["finish_reason"]] else choice;
    if "logprobs" in raw then c["logprobs" := raw["logprobs"]] else c
  }

  lemma ByMessage(choice: Fields, raw: Fields)
    ensures MergedChoice(choice, raw) == Rest(choice["message" := Obj(NextMessage(choice, raw))], raw)
    ensures TsMergedChoice(choice, raw) == Rest(choice["message" := Obj(TsNextMessage(choice, raw))], raw)
  {
    hide MergedDelta, TsMergedDelta, TsAssigned;
  }

  lemma RestAside(choice: Fields, m: Fields, n: Fields, raw: Fields)
    ensures MessageOf(Rest(choice["message" := Obj(m)], raw)) == m
    ensures Rest(choice["message" := Obj(m)], raw)["message" := Obj(n)] == Rest(choice["message" := Obj(n)], raw)
  {
    assert "message"[0] == 'm' && "finish_reason"[0] == 'f' && "logprobs"[0] == 'l';
    var c := choice["message" := Obj(m)];
    var f := if "finish_reason" in raw && !raw["finish_reason"].Null? then c["finish_reason" := raw["finish_reason"]] else c;
    var d := choice["message" := Obj(n)];
    var g := if "finish_reason" in raw && !raw["finish_reason"].Null? then d["finish_reason" := raw["finish_reason"]] else d;
    assert f["message" := Obj(n)] == g;
  }

  lemma MessagePunched(choice: Fields, open: set<nat>, raw: Fields)
    requires CommonRaw(choice, raw) && FitsMessage(MessageOf(choice), open)
    ensures TsNextMessage(PunchChoice(choice, open), raw)
        == PunchMessage(NextMessage(choice, raw), OpenRaw(choice, open, raw))
    ensures FitsMessage(NextMessage(choice, raw), OpenRaw(choice, open, raw))
  {
    hide TsMergedDelta, MergedDelta, CommonDelta, OpenDelta, PunchMessage, FitsMessage, TsAssigned;
    var m := MessageOf(choice);
    var delta, full := AsObj(Json.Field(raw, "delta")), AsObj(Json.Field(raw, "message"));
    NonePunched(m);
    assert MessageOf(PunchChoice(choice, open)) == PunchMessage(m, open);
    if delta.Some? {
      DeltaPunched(m, open, delta.value);
    }
    if full.Some? {
      var o1 := if delta.Some? then OpenDelta(m, open, delta.value) else open;
      FullPunched(if delta.Some? then MergedDelta(m, delta.value) else m, o1, full.value);
    }
  }

  lemma NonePunched(message: Fields)
    ensures PunchMessage(message, {}) == message
  {
  }

  lemma ChoicePunched(choice: Fields, open: set<nat>, raw: Fields)
    requires CommonRaw(choice, raw) && FitsMessage(MessageOf(choice), open)
    ensures TsMergedChoice(PunchChoice(choice, open), raw)
        == PunchChoice(MergedChoice(choice, raw), OpenRaw(choice, open, raw))
    ensures FitsMessage(MessageOf(MergedChoice(choice, raw)), OpenRaw(choice, open, raw))
  {
    hide MergedChoice, TsMergedChoice, NextMessage, TsNextMessage, CommonRaw, OpenRaw, PunchMessage, FitsMessage, Rest,
         MessageOf;
    var m := NextMessage(choice, raw);
    var n := PunchMessage(m, OpenRaw(choice, open, raw));
    var c := PunchChoice(choice, open);
    MessagePunched(choice, open, raw);
    ByMessage(choice, raw);
    ByMessage(c, raw);
    RestAside(choice, m, n, raw);
    NonePunched(m);
    assert c["message" := Obj(n)] == choice["message" := Obj(n)];
  }

  // ----- Streams -----

  /** The two sides add a choice to the same place: an integer index, or none and as many choices as places. */
  predicate SamePlace(choices: Choices, raw: Fields, position: nat) {
    IndexOr(Json.Field(raw, "index"), position) == ChoiceIndex(choices, raw)
  }

  function ChoiceAt(choices: Choices, index: int): Fields {
    if index in choices then choices[index] else FreshChoice(index)
  }

  /** One raw choice the two aggregators treat alike in the state they are in. */
  predicate Common(choices: Choices, raw: Value, position: nat) {
    raw.Obj? ==> SamePlace(choices, raw.fields, position) && CommonRaw(ChoiceAt(choices, ChoiceIndex(choices, raw.fields)), raw.fields)
  }

  predicate CommonChoices(choices: Choices, raws: seq<Value>, position: nat)
    decreases |raws|
  {
    raws == [] || (Common(choices, raws[0], position) && CommonChoices(ChoiceStep(choices, raws[0]), raws[1..], position + 1))
  }

  /** The common domain of the two aggregators: every choice of every event is treated alike when it comes. */
  predicate CommonStream(st: State, events: seq<Value>)
    decreases |events|
  {
    events == [] || (CommonChoices(st.choices, RawChoices(events[0]), 0) && CommonStream(EventStep(st, events[0]), events[1..]))
  }

  /** The places left open in the tool calls of each choice. */
  type Gaps = map<int, set<nat>>

  function GapsAt(gaps: Gaps, index: int): set<nat> {
    if index in gaps then gaps[index] else {}
  }

  function GapsStep(choices: Choices, gaps: Gaps, raw: Value): Gaps {
    if !raw.Obj? then gaps
    else
      var index := ChoiceIndex(choices, raw.fields);
      gaps[index := OpenRaw(ChoiceAt(choices, index), GapsAt(gaps, index), raw.fields)]
  }

  function GapsFold(choices: Choices, gaps: Gaps, raws: seq<Value>): Gaps
    decreases |raws|
  {
    if raws == [] then gaps else GapsFold(ChoiceStep(choices, raws[0]), GapsStep(choices, gaps, raws[0]), raws[1..])
  }

  function GapsAfter(st: State, gaps: Gaps, events: seq<Value>): Gaps
    decreases |events|
  {
    if events == [] then gaps
    else GapsAfter(EventStep(st, events[0]), GapsFold(st.choices, gaps, RawChoices(events[0])), events[1..])
  }

  predicate NoGaps(gaps: Gaps) {
    forall i :: i in gaps ==> gaps[i] == {}
  }

  predicate FitsAll(choices: Choices, gaps: Gaps) {
    forall i :: i in gaps ==> i in choices && FitsMessage(MessageOf(choices[i]), gaps[i])
  }

  function PunchAll(choices: Choices, gaps: Gaps): (r: Choices)
    ensures r.Keys == choices.Keys
  {
    map i | i in choices :: PunchChoice(choices[i], GapsAt(gaps, i))
  }

  lemma StepPunched(choices: Choices, gaps: Gaps, raw: Value, position: nat)
    requires Common(choices, raw, position) && FitsAll(choices, gaps)
    ensures TsChoiceStep(PunchAll(choices, gaps), raw, position)
        == PunchAll(ChoiceStep(choices, raw), GapsStep(choices, gaps, raw))
    ensures FitsAll(ChoiceStep(choices, raw), GapsStep(choices, gaps, raw))
  {
    hide TsMergedChoice, MergedChoice, FreshChoice, CommonRaw, OpenRaw, PunchChoice, FitsMessage, MessageOf,
         ChoiceIndex, IndexOr;
    if raw.Obj? {
      var index := ChoiceIndex(choices, raw.fields);
      var choice, open := ChoiceAt(choices, index), GapsAt(gaps, index);
      NoneOpenFits(choice);
      ChoicePunched(choice, open, raw.fields);
      PunchUpdate(choices, gaps, index, MergedChoice(choice, raw.fields), OpenRaw(choice, open, raw.fields));
    }
  }

  lemma PunchUpdate(choices: Choices, gaps: Gaps, index: int, choice: Fields, open: set<nat>)
    ensures PunchAll(choices[index := choice], gaps[index := open])
        == PunchAll(choices, gaps)[index := PunchChoice(choice, open)]
  {
    hide PunchChoice;
    MapsEqual(PunchAll(choices[index := choice], gaps[index := open]), PunchAll(choices, gaps)[index := PunchChoice(choice, open)]);
  }

  lemma NoneOpenFits(choice: Fields)
    ensures FitsMessage(MessageOf(choice), {}) && PunchChoice(choice, {}) == choice
  {
  }

  lemma MapsEqual<K, V>(m: map<K, V>, n: map<K, V>)
    requires m.Keys == n.Keys && forall k :: k in m ==> m[k] == n[k]
    ensures m == n
  {
  }

  lemma {:induction false} ChoicesPunched(choices: Choices, gaps: Gaps, raws: seq<Value>, position: nat)
    requires CommonChoices(choices, raws, position) && FitsAll(choices, gaps)
    ensures TsChoiceFold(PunchAll(choices, gaps), raws, position)
        == PunchAll(ChoiceFold(choices, raws), GapsFold(choices, gaps, raws))
    ensures FitsAll(ChoiceFold(choices, raws), GapsFold(choices, gaps, raws))
    decreases |raws|
  {
    hide ChoiceStep, TsChoiceStep, Common, GapsStep, FitsAll, PunchAll;
    if raws != [] {
      StepPunched(choices, gaps, raws[0], position);
      ChoicesPunched(ChoiceStep(choices, raws[0]), GapsStep(choices, gaps, raws[0]), raws[1..], position + 1);
    }
  }

  function Punched(st: State, gaps: Gaps): State {
    State(st.out, PunchAll(st.choices, gaps))
  }

  /** At every moment of a common stream the verifier has what the enclave has with the open places punched out. */
  lemma {:induction false} StreamPunched(st: State, gaps: Gaps, events: seq<Value>)
    requires CommonStream(st, events) && FitsAll(st.choices, gaps)
    ensures TsEventFold(Punched(st, gaps), events) == Punched(EventFold(st, events), GapsAfter(st, gaps, events))
    ensures FitsAll(EventFold(st, events).choices, GapsAfter(st, gaps, events))
    decreases |events|
  {
    hide CommonChoices, ChoiceFold, TsChoiceFold, OutStep, FitsAll, PunchAll, GapsFold, RawChoices;
    if events != [] {
      RawsOfObject(events[0]);
      NoRaws(st.choices, gaps);
      ChoicesPunched(st.choices, gaps, RawChoices(events[0]), 0);
      StreamPunched(EventStep(st, events[0]), GapsFold(st.choices, gaps, RawChoices(events[0])), events[1..]);
    }
  }

  lemma RawsOfObject(event: Value)
    ensures !event.Obj? ==> RawChoices(event) == []
  {
  }

  lemma NoRaws(choices: Choices, gaps: Gaps)
    ensures GapsFold(choices, gaps, []) == gaps && ChoiceFold(choices, []) == choices
  {
  }

  /** Punched choices are the same exactly when nothing was left open. */
  lemma AllPunchedIff(choices: Choices, gaps: Gaps)
    requires FitsAll(choices, gaps)
    ensures PunchAll(choices, gaps) == choices <==> NoGaps(gaps)
  {
    hide MessageOf, PunchMessage, FitsMessage;
    if NoGaps(gaps) {
      MapsEqual(PunchAll(choices, gaps), choices);
    }
    if PunchAll(choices, gaps) == choices {
      forall i | i in gaps
        ensures gaps[i] == {}
      {
        assert PunchAll(choices, gaps)[i] == PunchChoice(choices[i], gaps[i]);
        ChoicePunchedIff(choices[i], gaps[i]);
      }
    }
  }

  lemma ChoicePunchedIff(choice: Fields, open: set<nat>)
    requires FitsMessage(MessageOf(choice), open)
    ensures PunchChoice(choice, open) == choice <==> open == {}
  {
    hide Punch, Fits;
    if open != {} {
      var m := MessageOf(choice);
      PunchedIff(Calls(m).value, open);
      assert MessageOf(PunchChoice(choice, open)) == PunchMessage(m, open);
      assert Calls(PunchMessage(m, open)) == Some(Punch(Calls(m).value, open));
    }
  }

  /** A view shows every accumulated choice. */
  lemma ViewShowsChoices(out: Fields, a: Choices, b: Choices)
    requires a.Keys == b.Keys
    ensures View(State(out, a)) == View(State(out, b)) <==> a == b
  {
    hide Sorting.SortedInts, InOrder;
    NoKeys(a);
    NoKeys(b);
    var ks := Sorting.SortedInts(a.Keys);
    if a != map[] {
      assert View(State(out, a)).fields["choices"] == Arr(InOrder(a, ks));
      assert View(State(out, b)).fields["choices"] == Arr(InOrder(b, ks));
      if InOrder(a, ks) == InOrder(b, ks) {
        InOrderShows(a, b, ks);
      }
    }
  }

  lemma NoKeys(choices: Choices)
    ensures choices.Keys == {} <==> choices == map[]
  {
  }

  lemma InOrderShows(a: Choices, b: Choices, ks: seq<int>)
    requires a.Keys == b.Keys && forall k :: k in ks <==> k in a.Keys
    requires forall i :: 0 <= i < |ks| ==> ks[i] in a.Keys
    requires InOrder(a, ks) == InOrder(b, ks)
    ensures a == b
  {
    forall k | k in a
      ensures a[k] == b[k]
    {
      assert k in ks;
      var i :| 0 <= i < |ks| && ks[i] == k;
      assert InOrder(a, ks)[i] == Obj(a[k]) && InOrder(b, ks)[i] == Obj(b[k]);
    }
    MapsEqual(a, b);
  }

  /** On the common domain both sides have the same view of a stream exactly when no gap is left at its end. */
  lemma ViewsAgreeIff(events: seq<Value>)
    requires CommonStream(EMPTY, events)
    ensures View(TsEventFold(EMPTY, events)) == View(EventFold(EMPTY, events)) <==> NoGaps(GapsAfter(EMPTY, map[], events))
    ensures TsEventFold(EMPTY, events) == EventFold(EMPTY, events) <==> NoGaps(GapsAfter(EMPTY, map[], events))
  {
    hide CommonStream, TsEventFold, EventFold, GapsAfter, FitsAll, View, NoGaps, PunchAll;
    NothingYet();
    StreamPunched(EMPTY, map[], events);
    var st, gaps := EventFold(EMPTY, events), GapsAfter(EMPTY, map[], events);
    AllPunchedIff(st.choices, gaps);
    ViewShowsChoices(st.out, PunchAll(st.choices, gaps), st.choices);
  }

  lemma NothingYet()
    ensures FitsAll(map[], map[]) && PunchAll(map[], map[]) == map[]
  {
  }

  // ----- A simple sufficient condition -----

  /**
   An explicit integer index, no tool calls in the delta and no prototype in the message: common in every state
   without one.
   */
  predicate Explicit(raw: Value) {
    raw.Obj? ==>
      && AsI64(Json.Field(raw.fields, "index")).Some?
      && "tool_calls" !in AsObj(Json.Field(raw.fields, "delta")).GetOr(map[])
      && PROTO !in AsObj(Json.Field(raw.fields, "message")).GetOr(map[])
  }

  predicate PlainMessages(choices: Choices) {
    forall i :: i in choices ==> PROTO !in MessageOf(choices[i])
  }

  lemma ExplicitStep(choices: Choices, gaps: Gaps, raw: Value, position: nat)
    requires Explicit(raw) && PlainMessages(choices) && NoGaps(gaps)
    ensures Common(choices, raw, position)
    ensures PlainMessages(ChoiceStep(choices, raw)) && NoGaps(GapsStep(choices, gaps, raw))
  {
    hide MergedDelta, FreshChoice, MergedChoice;
    if raw.Obj? {
      var index := ChoiceIndex(choices, raw.fields);
      FreshIsPlain(index);
      ExplicitMessage(ChoiceAt(choices, index), raw);
    }
  }

  lemma FreshIsPlain(index: int)
    ensures PROTO !in MessageOf(FreshChoice(index))
  {
  }

  lemma ExplicitMessage(choice: Fields, raw: Value)
    requires raw.Obj? && Explicit(raw) && PROTO !in MessageOf(choice)
    ensures PROTO !in MessageOf(MergedChoice(choice, raw.fields))
  {
    hide AppendStr, WithRole, MergedCalls, MergedChoice, MessageOf, Rest, TsNextMessage;
    var delta := AsObj(Json.Field(raw.fields, "delta")).GetOr(map[]);
    TextsPunched(MessageOf(choice), {}, delta);
    ByMessage(choice, raw.fields);
    RestAside(choice, NextMessage(choice, raw.fields), map[], raw.fields);
  }

  lemma {:induction false} ExplicitChoices(choices: Choices, gaps: Gaps, raws: seq<Value>, position: nat)
    requires forall k :: 0 <= k < |raws| ==> Explicit(raws[k])
    requires PlainMessages(choices) && NoGaps(gaps)
    ensures CommonChoices(choices, raws, position)
    ensures PlainMessages(ChoiceFold(choices, raws)) && NoGaps(GapsFold(choices, gaps, raws))
    decreases |raws|
  {
    hide ChoiceStep, GapsStep, Common, PlainMessages, NoGaps, Explicit;
    if raws != [] {
      ExplicitStep(choices, gaps, raws[0], position);
      ExplicitChoices(ChoiceStep(choices, raws[0]), GapsStep(choices, gaps, raws[0]), raws[1..], position + 1);
    }
  }

  lemma {:induction false} ExplicitStream(st: State, gaps: Gaps, events: seq<Value>)
    requires forall k, j :: 0 <= k < |events| && 0 <= j < |RawChoices(events[k])| ==> Explicit(RawChoices(events[k])[j])
    requires PlainMessages(st.choices) && NoGaps(gaps)
    ensures CommonStream(st, events) && NoGaps(GapsAfter(st, gaps, events))
    decreases |events|
  {
    hide CommonChoices, RawChoices, Explicit, PlainMessages, NoGaps, GapsFold, ChoiceFold, OutStep;
    if events != [] {
      RawsOfObject(events[0]);
      NoRaws(st.choices, gaps);
      ExplicitChoices(st.choices, gaps, RawChoices(events[0]), 0);
      ExplicitStream(EventStep(st, events[0]), GapsFold(st.choices, gaps, RawChoices(events[0])), events[1..]);
    }
  }

  // ----- Where they differ -----

  /** The accumulated choices have the indices 0, 1, 2 and so on. */
  ghost predicate Dense(choices: Choices) {
    forall i :: i in choices <==> 0 <= i < |choices|
  }

  /** A choice without an index reaches the same set of choices on both sides exactly at the next free place. */
  lemma MissingIndexIff(choices: Choices, raw: Value, position: nat)
    requires raw.Obj? && "index" !in raw.fields && Dense(choices)
    ensures ChoiceStep(choices, raw).Keys == TsChoiceStep(choices, raw, position).Keys <==> position == |choices|
    ensures SamePlace(choices, raw.fields, position) <==> position == |choices|
  {
    MissingIndexKeys(choices, raw, position);
    assert |choices| !in choices.Keys;
    SameInsert(choices.Keys, |choices|, position);
  }

  lemma SameInsert<T>(s: set<T>, a: T, b: T)
    requires a !in s
    ensures s + {a} == s + {b} <==> a == b
  {
    assert a in s + {a};
  }

  function Delta(content: string): Value {
    Obj(map["choices" := Arr([Obj(map["delta" := Obj(map["content" := Str(content)])])])])
  }

  /** Without indices the two differ: the enclave opens a second choice, the verifier continues the first. */
  lemma MissingIndexDiffers()
    ensures var events := [Delta("a"), Delta("b")];
      EventFold(EMPTY, events).choices.Keys == {0, 1} && TsEventFold(EMPTY, events).choices.Keys == {0}
  {
    hide ChoiceFold, TsChoiceFold, ChoiceStep, TsChoiceStep, RawChoices, OutStep;
    var raw := Obj(map["delta" := Obj(map["content" := Str("a")])]);
    var raw2 := Obj(map["delta" := Obj(map["content" := Str("b")])]);
    DeltaChoices("a");
    DeltaChoices("b");
    MissingIndexSteps(map[], raw, 0);
    var c1, t1 := ChoiceFold(map[], [raw]), TsChoiceFold(map[], [raw], 0);
    MissingIndexSteps(c1, raw2, 0);
    MissingIndexSteps(t1, raw2, 0);
    TwoEvents(Delta("a"), Delta("b"));
    assert |c1.Keys| == 1;
  }

  lemma DeltaChoices(content: string)
    ensures RawChoices(Delta(content)) == [Obj(map["delta" := Obj(map["content" := Str(content)])])]
  {
  }

  lemma TwoEvents(a: Value, b: Value)
    requires a.Obj? && b.Obj?
    ensures EventFold(EMPTY, [a, b]).choices == ChoiceFold(ChoiceFold(map[], RawChoices(a)), RawChoices(b))
    ensures TsEventFold(EMPTY, [a, b]).choices == TsChoiceFold(TsChoiceFold(map[], RawChoices(a), 0), RawChoices(b), 0)
  {
    hide ChoiceFold, TsChoiceFold, RawChoices, OutStep;
    assert [a, b][1..] == [b] && [b][1..] == [];
    var s, t := EventStep(EMPTY, a), TsEventStep(EMPTY, a);
    assert EventFold(EMPTY, [a, b]) == EventFold(s, [b]) == EventFold(EventStep(s, b), []);
    assert TsEventFold(EMPTY, [a, b]) == TsEventFold(t, [b]) == TsEventFold(TsEventStep(t, b), []);
  }

  lemma MissingIndexSteps(choices: Choices, raw: Value, position: nat)
    requires raw.Obj? && "index" !in raw.fields
    ensures ChoiceFold(choices, [raw]).Keys == choices.Keys + {|choices|}
    ensures TsChoiceFold(choices, [raw], position).Keys == choices.Keys + {position}
  {
    MissingIndexKeys(choices, raw, position);
    OneChoice(choices, raw, position);
  }

  lemma OneChoice(choices: Choices, raw: Value, position: nat)
    ensures ChoiceFold(choices, [raw]) == ChoiceStep(choices, raw)
    ensures TsChoiceFold(choices, [raw], position) == TsChoiceStep(choices, raw, position)
  {
    hide ChoiceStep, TsChoiceStep;
    assert [raw][1..] == [];
  }

  lemma MissingIndexKeys(choices: Choices, raw: Value, position: nat)
    requires raw.Obj? && "index" !in raw.fields
    ensures ChoiceStep(choices, raw).Keys == choices.Keys + {|choices|}
    ensures TsChoiceStep(choices, raw, position).Keys == choices.Keys + {position}
  {
    hide MergedChoice, TsMergedChoice, FreshChoice;
  }

  /** A null `tool_calls` in a first delta differs too: the verifier's message gains an empty list. */
  lemma NullToolCallsDiffer(message: Fields)
    requires "tool_calls" !in message && PROTO !in message
    ensures var delta := map["tool_calls" := Value.Null];
      && "tool_calls" !in MergedDelta(message, delta)
      && Json.Field(TsMergedDelta(message, delta), "tool_calls") == Some(Arr([]))
  {
    NamesApart();
  }

  function Piece(index: nat): Value {
    Obj(map["index" := Num(Int(index))])
  }

  /** A gap differs while it is open, and no longer once it is filled. */
  lemma GapThenFill()
    ensures Open(0, {}, [Piece(1)]) == {0} && Open(0, {}, [Piece(1), Piece(0)]) == {}
    ensures TsMergedCalls([], [Piece(1)]) != MergedCalls([], [Piece(1)])
    ensures TsMergedCalls([], [Piece(1), Piece(0)]) == MergedCalls([], [Piece(1), Piece(0)])
  {
    hide MergedCalls, TsMergedCalls, MergedCall, Padded;
    var a, b := [Piece(1)], [Piece(1), Piece(0)];
    assert a[1..] == [] && b[1..] == [Piece(0)] && b[1..][1..] == [];
    assert Opened(0, {}, 1) == {0} && Opened(2, {0}, 0) == {};
    assert Open(0, {}, b) == Open(2, {0}, [Piece(0)]);
    PiecesAlike(1);
    CallsAgreeIff([], a);
    CallsAgreeIff([], b);
  }

  lemma PiecesAlike(index: nat)
    requires index < 0xFFFF_FFFF
    ensures CallsAlike([], [Piece(index)]) && CallsAlike([], [Piece(index), Piece(0)])
  {
    hide MergedCall, Padded;
    PieceAlike([], index, []);
    PieceAlike([], index, [Piece(0)]);
    PieceAlike(CallsStep([], Piece(index).fields, index), 0, []);
  }

  lemma PieceAlike(current: seq<Value>, index: nat, rest: seq<Value>)
    requires index < 0xFFFF_FFFF
    ensures CallsAlike(current, [Piece(index)] + rest) <==> CallsAlike(CallsStep(current, Piece(index).fields, index), rest)
    ensures [Piece(index)] + [] == [Piece(index)] && [Piece(index)] + [Piece(0)] == [Piece(index), Piece(0)]
    ensures forall now :: CallsAlike(now, [])
  {
    hide CallsStep;
    var delta := [Piece(index)] + rest;
    assert delta[1..] == rest;
    assert PROTO[0] == '_' && "index"[0] == 'i' && "function"[0] == 'f';
    assert "function" !in Piece(index).fields && PROTO !in Piece(index).fields;
  }
}
