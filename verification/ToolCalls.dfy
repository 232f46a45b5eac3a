/**
 What merging tool-call deltas promises, without its state: name and arguments of a call are the in-order
 concatenations of the pieces sent for its index.
 */
module ToolCalls {
  import opened Bytes
  import opened ChatFold
  import opened ChatSpec
  import opened Json

  /** Merging two lists of deltas in turn is merging their concatenation. */
  lemma {:induction false} CallsConcat(current: seq<Value>, a: seq<Value>, b: seq<Value>)
    ensures MergedCalls(current, a + b) == MergedCalls(MergedCalls(current, a), b)
    decreases |a|
  {
    hide MergedCall, Padded;
    if a == [] {
      assert a + b == b;
    } else {
      assert (a + b)[1..] == a[1..] + b;
      if !a[0].Obj? {
        CallsConcat(current, a[1..], b);
      } else {
        var raw := a[0].fields;
        var index := AsIndex(Json.Field(raw, "index")).GetOr(|current|);
        var grown := Padded(current, index + 1);
        PaddedLength(current, index + 1);
        CallsConcat(grown[index := Obj(MergedCall(AsObj(Some(grown[index])).GetOr(map[]), raw))], a[1..], b);
      }
    }
  }

  /** A piece for call i. */
  predicate PieceOf(raw: Value, i: int) {
    raw.Obj? && AsIndex(Json.Field(raw.fields, "index")) == Some(i)
  }

  /** The pieces carry indices and leave no gap. */
  predicate Gapless(pieces: seq<Value>)
    decreases |pieces|
  {
    pieces == [] ||
    (var front, last := pieces[..|pieces| - 1], pieces[|pieces| - 1];
     && Gapless(front)
     && (last.Obj? ==> AsIndex(Json.Field(last.fields, "index")).Some?
                       && AsIndex(Json.Field(last.fields, "index")).value <= |MergedCalls([], front)|))
  }

  function FunctionPart(raw: Fields, field: string): Option<string> {
    AsStr(Json.Field(AsObj(Json.Field(raw, "function")).GetOr(map[]), field))
  }

  /** The strings sent for one field of the function of call i, in order. */
  function Parts(pieces: seq<Value>, i: int, field: string): seq<string>
    decreases |pieces|
  {
    if pieces == [] then []
    else
      var last := pieces[|pieces| - 1];
      var s := if PieceOf(last, i) then FunctionPart(last.fields, field) else None;
      Parts(pieces[..|pieces| - 1], i, field) + (if s.Some? then [s.value] else [])
  }

  /** A field of the function of a merged call. */
  function FunctionField(call: Value, field: string): Option<Value> {
    Json.Field(AsObj(call.Get("function")).GetOr(map[]), field)
  }

  function PartField(pieces: seq<Value>, i: int, field: string): Option<Value> {
    if Parts(pieces, i, field) == [] then None else Some(Str(Concatenated(Parts(pieces, i, field))))
  }

  lemma PartStep(front: seq<Value>, last: Value, i: int, field: string)
    ensures PartField(front + [last], i, field)
         == Appended(PartField(front, i, field), if PieceOf(last, i) then FunctionPart(last.fields, field) else None)
  {
    hide FunctionPart;
    var all := front + [last];
    assert all[..|all| - 1] == front && all[|all| - 1] == last;
    var s := if PieceOf(last, i) then FunctionPart(last.fields, field) else None;
    var texts := Parts(front, i, field);
    if s.Some? {
      var more := texts + [s.value];
      assert Parts(all, i, field) == more;
      assert more[..|more| - 1] == texts && more[|more| - 1] == s.value;
      assert Concatenated(more) == Concatenated(texts) + s.value;
      assert Concatenated([]) == "";
    } else {
      assert Parts(all, i, field) == texts + [] == texts;
    }
  }

  /** Name and arguments of one call grow by what a piece brings. */
  lemma CallGrows(item: Fields, raw: Fields, field: string)
    requires field == "name" || field == "arguments"
    requires FunctionField(Obj(item), field).Some? ==> FunctionField(Obj(item), field).value.Str?
    ensures FunctionField(Obj(MergedCall(item, raw)), field)
        == Appended(FunctionField(Obj(item), field), FunctionPart(raw, field))
  {
    assert "name" != "arguments";
    var f := AsObj(Json.Field(raw, "function"));
    assert Json.Field(item + (map k | k in raw && k != "index" && k != "function" :: raw[k]), "function") == Json.Field(item, "function");
    if f.Some? {
      var known := AsObj(Json.Field(item, "function")).GetOr(map[]);
      FunctionGrows(known, f.value, field);
    }
  }

  lemma FunctionGrows(known: Fields, delta: Fields, field: string)
    requires field == "name" || field == "arguments"
    requires Json.Field(known, field).Some? ==> Json.Field(known, field).value.Str?
    ensures Json.Field(AppendStr(AppendStr(known, "name", Json.Field(delta, "name")), "arguments", Json.Field(delta, "arguments")), field)
         == Appended(Json.Field(known, field), AsStr(Json.Field(delta, field)))
  {
    assert "name" != "arguments";
    var s := AsStr(Json.Field(delta, field));
    assert s.Some? ==> "" + s.value == s.value;
  }

  /** One more piece changes the call of its index only, and opens the next one if it is for that. */
  lemma OnePiece(current: seq<Value>, raw: Value)
    requires raw.Obj? && AsIndex(Json.Field(raw.fields, "index")).Some?
    requires AsIndex(Json.Field(raw.fields, "index")).value <= |current|
    ensures var index := AsIndex(Json.Field(raw.fields, "index")).value;
      var known := if index < |current| then AsObj(Some(current[index])).GetOr(map[]) else map[];
      var after := MergedCalls(current, [raw]);
      && |after| == (if index == |current| then |current| + 1 else |current|)
      && after[index] == Obj(MergedCall(known, raw.fields))
      && forall i :: 0 <= i < |after| && i != index ==> after[i] == current[i]
  {
    hide MergedCall, Padded;
    var index := AsIndex(Json.Field(raw.fields, "index")).value;
    PaddedOne(current, index);
    PaddedLength(current, index + 1);
    assert [raw][1..] == [];
    var grown := Padded(current, index + 1);
    var after := grown[index := Obj(MergedCall(AsObj(Some(grown[index])).GetOr(map[]), raw.fields))];
    assert MergedCalls(current, [raw]) == MergedCalls(after, []);
  }

  /** Call by call, name and arguments are the concatenations of their pieces. */
  lemma {:induction false} CallsAreDeclared(pieces: seq<Value>, field: string)
    requires Gapless(pieces) && (field == "name" || field == "arguments")
    ensures var calls := MergedCalls([], pieces);
      && (forall i :: 0 <= i < |calls| ==> calls[i].Obj? && FunctionField(calls[i], field) == PartField(pieces, i, field))
      && (forall i :: i >= |calls| ==> PartField(pieces, i, field) == None)
    decreases |pieces|
  {
    hide MergedCall, MergedCalls, PartField, FunctionField, FunctionPart;
    if pieces == [] {
      NoPieces(field);
    } else {
      var front, last := pieces[..|pieces| - 1], pieces[|pieces| - 1];
      assert pieces == front + [last];
      CallsAreDeclared(front, field);
      CallsConcat([], front, [last]);
      DeclaredNext(front, last, field);
    }
  }

  lemma NoPieces(field: string)
    ensures MergedCalls([], []) == [] && forall i :: PartField([], i, field) == None
  {
  }

  lemma DeclaredNext(front: seq<Value>, last: Value, field: string)
    requires field == "name" || field == "arguments"
    requires var calls := MergedCalls([], front);
      && (forall i :: 0 <= i < |calls| ==> calls[i].Obj? && FunctionField(calls[i], field) == PartField(front, i, field))
      && (forall i :: i >= |calls| ==> PartField(front, i, field) == None)
      && (last.Obj? ==> AsIndex(Json.Field(last.fields, "index")).Some? && AsIndex(Json.Field(last.fields, "index")).value <= |calls|)
    ensures var calls := MergedCalls(MergedCalls([], front), [last]);
      && (forall i :: 0 <= i < |calls| ==> calls[i].Obj? && FunctionField(calls[i], field) == PartField(front + [last], i, field))
      && (forall i :: i >= |calls| ==> PartField(front + [last], i, field) == None)
  {
    hide MergedCall, FunctionPart, Parts;
    var before := MergedCalls([], front);
    hide MergedCalls;
    var after := MergedCalls(before, [last]);
    forall i
      ensures PartField(front + [last], i, field)
           == Appended(PartField(front, i, field), if PieceOf(last, i) then FunctionPart(last.fields, field) else None)
    {
      PartStep(front, last, i, field);
    }
    if !last.Obj? {
      SkipsOther(before, last);
    } else {
      var index := AsIndex(Json.Field(last.fields, "index")).value;
      OnePiece(before, last);
      var known: Fields := if index < |before| then AsObj(Some(before[index])).GetOr(map[]) else map[];
      PartIsText(front, index, field);
      CallGrows(known, last.fields, field);
    }
  }

  lemma SkipsOther(current: seq<Value>, last: Value)
    requires !last.Obj?
    ensures MergedCalls(current, [last]) == current
  {
    assert [last][1..] == [];
    assert MergedCalls(current, [last]) == MergedCalls(current, []);
  }

  lemma PartIsText(pieces: seq<Value>, i: int, field: string)
    ensures PartField(pieces, i, field).Some? ==> PartField(pieces, i, field).value.Str?
  {
  }

  // ----- The tool calls of a message -----

  function DeltaFold(message: Fields, deltas: seq<Fields>): Fields
    decreases |deltas|
  {
    if deltas == [] then message else MergedDelta(DeltaFold(message, deltas[..|deltas| - 1]), deltas[|deltas| - 1])
  }

  /** All pieces of all deltas, in order; nothing when no delta brings a list. */
  function AllPieces(deltas: seq<Fields>): Option<seq<Value>>
    decreases |deltas|
  {
    if deltas == [] then None
    else
      var earlier, calls := AllPieces(deltas[..|deltas| - 1]), AsArr(Json.Field(deltas[|deltas| - 1], "tool_calls"));
      if calls.None? then earlier else Some(earlier.GetOr([]) + calls.value)
  }

  /** The tool calls of a message are merged from all pieces of its deltas, however they were cut. */
  lemma {:induction false} MessageCalls(deltas: seq<Fields>)
    ensures Json.Field(DeltaFold(map[], deltas), "tool_calls")
         == if AllPieces(deltas).None? then None else Some(Arr(MergedCalls([], AllPieces(deltas).value)))
    decreases |deltas|
  {
    hide MergedCalls, WithRole, AppendStr;
    if deltas != [] {
      var front, last := deltas[..|deltas| - 1], deltas[|deltas| - 1];
      MessageCalls(front);
      var m := DeltaFold(map[], front);
      CallsStay(m, last);
      var calls := AsArr(Json.Field(last, "tool_calls"));
      if calls.Some? {
        CallsConcat([], AllPieces(front).GetOr([]), calls.value);
        NoPieces("name");
      }
    }
  }
}
