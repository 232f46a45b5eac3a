/**
 CBOR as the QingTian verifier reads and writes it: a recursive decoder with an offset, an encoder for
 numbers, strings, octets and arrays, and the round trip of both with every kind of item the decoder reads.
 */
module Cbor {
  import opened Bytes
  import Utf8

  const SAFE: nat := 0x20_0000_0000_0000

  /** The JavaScript values the decoder builds; a map keeps its entries in insertion order. */
  datatype Item =
    | Number(n: int)
    | Octets(b: seq<byte>)
    | Text(s: string)
    | Array(items: seq<Item>)
    | Map(entries: seq<Entry>)
    | Tagged(tag: nat, value: Item)
    | Bool(bit: bool)
    | Null
    | Undefined
    | NotANumber

  datatype Entry = Entry(key: Item, val: Item)

  /** An offset into the buffer; a missing length octet turns it into NaN. */
  datatype Offset = At(p: nat) | NaN

  datatype Decoded = Ok(value: Item, next: Offset) | Err

  datatype Length = Len(n: nat, next: nat) | Missing(after: nat) | Bad

  /** `readCborLength`: a missing octet of the one-octet form reads as undefined, longer forms throw. */
  function ReadLength(buf: seq<byte>, p: nat, ai: nat): (r: Length)
    ensures r.Len? ==> p <= r.next
    ensures r.Missing? ==> ai == 24 && r.after == p + 1 && p >= |buf|
  {
    if ai < 24 then Len(ai, p)
    else if ai == 24 then (if p < |buf| then Len(buf[p], p + 1) else Missing(p + 1))
    else if ai == 25 then Wide(buf, p, 2)
    else if ai == 26 then Wide(buf, p, 4)
    else if ai == 27 then
      var r := Wide(buf, p, 8);
      if r.Len? && r.n >= SAFE then Bad else r
    else Bad
  }

  function Wide(buf: seq<byte>, p: nat, k: nat): (r: Length)
    ensures r.Len? ==> r.next == p + k && !r.Missing?
    ensures !r.Missing?
  {
    if p + k > |buf| then Bad else Len(FromBE(buf[p..p + k]), p + k)
  }

  /** `Map.set`: primitive keys are compared by value, others never match. */
  function MapSet(entries: seq<Entry>, k: Item, v: Item): seq<Entry> {
    if entries == [] then [Entry(k, v)]
    else if entries[0].key == k && !(k.Octets? || k.Array? || k.Map? || k.Tagged?) then [Entry(k, v)] + entries[1..]
    else [entries[0]] + MapSet(entries[1..], k, v)
  }

  /** How much of the buffer an offset leaves. */
  function Room(buf: seq<byte>, o: Offset): nat {
    if o.At? && o.p <= |buf| then |buf| + 1 - o.p else 0
  }

  /** `decodeCbor`. */
  function Decode(buf: seq<byte>, offset: Offset): (r: Decoded)
    ensures r.Ok? && offset.At? ==> offset.p < |buf| && (r.next.At? ==> r.next.p > offset.p)
    ensures r.Ok? ==> Room(buf, r.next) <= Room(buf, offset)
    decreases Room(buf, offset), 0
  {
    if offset.NaN? then Ok(Number(0), NaN)
    else if offset.p >= |buf| then Err
    else
      var first := buf[offset.p];
      var major, ai, p := first / 32, first % 32, offset.p + 1;
      if major == 7 then
        if ai == 20 then Ok(Bool(false), At(p))
        else if ai == 21 then Ok(Bool(true), At(p))
        else if ai == 22 then Ok(Null, At(p))
        else Err
      else
        match ReadLength(buf, p, ai)
        case Bad => Err
        case Missing(after) =>
          if major == 0 then Ok(Undefined, At(after))
          else if major == 1 then Ok(NotANumber, At(after))
          else if major == 2 then Ok(Octets([]), NaN)
          else if major == 3 then Ok(Text(""), NaN)
          else if major == 4 then Ok(Array([]), At(after))
          else if major == 5 then Ok(Map([]), At(after))
          else Err
        case Len(n, next) =>
          if major == 0 then Ok(Number(n), At(next))
          else if major == 1 then Ok(Number(-1 - n), At(next))
          else if major == 2 || major == 3 then
            if next + n > |buf| then Err
            else
              var b := buf[next..next + n];
              Ok(if major == 2 then Octets(b) else Text(Utf8.Lossy(b)), At(next + n))
          else if major == 4 then
            var items := DecodeItems(buf, At(next), n);
            if items.Many? then Ok(Array(items.values), items.next) else Err
          else if major == 5 then
            var pairs := DecodePairs(buf, At(next), n, []);
            if pairs.Pairs? then Ok(Map(pairs.entries), pairs.next) else Err
          else
            var tagged := Decode(buf, At(next));
            if tagged.Ok? then Ok(Tagged(n, tagged.value), tagged.next) else Err
  }

  datatype Sequence = Many(values: seq<Item>, next: Offset) | Pairs(entries: seq<Entry>, next: Offset) | Broken

  function DecodeItems(buf: seq<byte>, offset: Offset, n: nat): (r: Sequence)
    ensures !r.Pairs?
    ensures r.Many? ==> |r.values| == n && Room(buf, r.next) <= Room(buf, offset)
    ensures r.Many? && offset.At? && r.next.At? ==> r.next.p >= offset.p
    decreases Room(buf, offset), 1, n
  {
    if n == 0 then Many([], offset)
    else
      var item := Decode(buf, offset);
      if item.Err? then Broken
      else
        var rest := DecodeItems(buf, item.next, n - 1);
        if rest.Broken? then Broken else Many([item.value] + rest.values, rest.next)
  }

  function DecodePairs(buf: seq<byte>, offset: Offset, n: nat, entries: seq<Entry>): (r: Sequence)
    ensures !r.Many?
    ensures r.Pairs? ==> Room(buf, r.next) <= Room(buf, offset)
    ensures r.Pairs? && offset.At? && r.next.At? ==> r.next.p >= offset.p
    decreases Room(buf, offset), 1, n
  {
    if n == 0 then Pairs(entries, offset)
    else
      var key := Decode(buf, offset);
      if key.Err? then Broken
      else
        var val := Decode(buf, key.next);
        if val.Err? then Broken
        else DecodePairs(buf, val.next, n - 1, MapSet(entries, key.value, val.value))
  }

  function Prefixed(values: seq<Item>, r: Sequence): Sequence {
    if r.Many? then Many(values + r.values, r.next) else r
  }

  lemma PrefixedStep(values: seq<Item>, v: Item, r: Sequence)
    ensures Prefixed(values + [v], r) == Prefixed(values, Prefixed([v], r))
  {
    if r.Many? {
      assert values + [v] + r.values == values + ([v] + r.values);
    }
  }

  lemma PrefixedNone(r: Sequence)
    ensures Prefixed([], r) == r
  {
    if r.Many? {
      assert [] + r.values == r.values;
    }
  }

  /** `decodeCbor`; its loops over array items and map entries are the two methods below. */
  method DecodeCbor(buf: seq<byte>, offset: Offset) returns (r: Decoded)
    ensures r == Decode(buf, offset)
    decreases Room(buf, offset), 0
  {
    hide Utf8.Lossy, FromBE, MapSet, DecodeItems, DecodePairs;
    if offset.NaN? {
      return Ok(Number(0), NaN);
    }
    if offset.p >= |buf| {
      return Err;
    }
    var first := buf[offset.p];
    var major, ai, p := first / 32, first % 32, offset.p + 1;
    if major == 7 {
      return if ai == 20 then Ok(Bool(false), At(p)) else if ai == 21 then Ok(Bool(true), At(p))
             else if ai == 22 then Ok(Null, At(p)) else Err;
    }
    var length := ReadLength(buf, p, ai);
    if length.Bad? {
      return Err;
    }
    if length.Missing? {
      // An undefined length: no loop runs, and an end computed from it is NaN.
      return if major == 0 then Ok(Undefined, At(length.after)) else if major == 1 then Ok(NotANumber, At(length.after))
             else if major == 2 then Ok(Octets([]), NaN) else if major == 3 then Ok(Text(""), NaN)
             else if major == 4 then Ok(Array([]), At(length.after)) else if major == 5 then Ok(Map([]), At(length.after))
             else Err;
    }
    var n, next := length.n, length.next;
    if major == 0 {
      return Ok(Number(n), At(next));
    }
    if major == 1 {
      var value: int := n;
      return Ok(Number(-1 - value), At(next));
    }
    if major == 2 || major == 3 {
      var end := next + n;
      if end > |buf| {
        return Err;
      }
      var bytes := buf[next..end];
      return Ok(if major == 2 then Octets(bytes) else Text(Utf8.Lossy(bytes)), At(end));
    }
    if major == 4 {
      r := DecodeArray(buf, next, n);
      return;
    }
    if major == 5 {
      r := DecodeMap(buf, next, n);
      return;
    }
    var tagged := DecodeCbor(buf, At(next));
    r := if tagged.Ok? then Ok(Tagged(n, tagged.value), tagged.next) else Err;
  }

  /** The array loop of `decodeCbor`. */
  method DecodeArray(buf: seq<byte>, start: nat, n: nat) returns (r: Decoded)
    ensures var items := DecodeItems(buf, At(start), n);
      r == if items.Many? then Ok(Array(items.values), items.next) else Err
    decreases Room(buf, At(start)), 1
  {
    hide Decode, Room;
    var value: seq<Item> := [];
    var q := At(start);
    ghost var whole := DecodeItems(buf, q, n);
    PrefixedNone(whole);
    for i := 0 to n
      invariant Room(buf, q) <= Room(buf, At(start))
      invariant whole == Prefixed(value, DecodeItems(buf, q, n - i))
    {
      var item := DecodeCbor(buf, q);
      if item.Err? {
        return Err;
      }
      PrefixedStep(value, item.value, DecodeItems(buf, item.next, n - i - 1));
      value := value + [item.value];
      q := item.next;
    }
    assert value + [] == value;
    r := Ok(Array(value), q);
  }

  /** The map loop of `decodeCbor`. */
  method DecodeMap(buf: seq<byte>, start: nat, n: nat) returns (r: Decoded)
    ensures var pairs := DecodePairs(buf, At(start), n, []);
      r == if pairs.Pairs? then Ok(Map(pairs.entries), pairs.next) else Err
    decreases Room(buf, At(start)), 1
  {
    hide Decode, Room, MapSet;
    var value: seq<Entry> := [];
    var q := At(start);
    ghost var whole := DecodePairs(buf, q, n, []);
    for i := 0 to n
      invariant Room(buf, q) <= Room(buf, At(start))
      invariant whole == DecodePairs(buf, q, n - i, value)
    {
      var key := DecodeCbor(buf, q);
      if key.Err? {
        return Err;
      }
      var val := DecodeCbor(buf, key.next);
      if val.Err? {
        return Err;
      }
      value := MapSet(value, key.value, val.value);
      q := val.next;
    }
    r := Ok(Map(value), q);
  }

  // ----- Progress -----

  /** The last octet of the buffer announces a one-octet length that is missing, of something that is not a tag. */
  predicate EndsInsideHead(buf: seq<byte>) {
    buf != [] && buf[|buf| - 1] % 32 == 24 && buf[|buf| - 1] / 32 <= 5
  }

  /** Otherwise every successful decode moves strictly forward and stays inside the buffer. */
  lemma {:induction false} DecodeAdvances(buf: seq<byte>, p: nat)
    requires !EndsInsideHead(buf) && Decode(buf, At(p)).Ok?
    ensures var r := Decode(buf, At(p)); r.next.At? && p < r.next.p <= |buf|
    decreases Room(buf, At(p)), 0
  {
    hide Utf8.Lossy, FromBE, MapSet, DecodeItems, DecodePairs;
    var first := buf[p];
    var major, ai := first / 32, first % 32;
    if major != 7 {
      var length := ReadLength(buf, p + 1, ai);
      if length.Len? && major == 4 {
        ItemsAdvance(buf, length.next, length.n);
      } else if length.Len? && major == 5 {
        PairsAdvance(buf, length.next, length.n, []);
      } else if length.Len? && major == 6 {
        DecodeAdvances(buf, length.next);
      }
    }
  }

  lemma {:induction false} ItemsAdvance(buf: seq<byte>, p: nat, n: nat)
    requires !EndsInsideHead(buf) && p <= |buf| && DecodeItems(buf, At(p), n).Many?
    ensures var r := DecodeItems(buf, At(p), n); r.next.At? && p <= r.next.p <= |buf|
    decreases Room(buf, At(p)), 1, n
  {
    hide Decode;
    if n > 0 {
      DecodeAdvances(buf, p);
      ItemsAdvance(buf, Decode(buf, At(p)).next.p, n - 1);
    }
  }

  lemma {:induction false} PairsAdvance(buf: seq<byte>, p: nat, n: nat, entries: seq<Entry>)
    requires !EndsInsideHead(buf) && p <= |buf| && DecodePairs(buf, At(p), n, entries).Pairs?
    ensures var r := DecodePairs(buf, At(p), n, entries); r.next.At? && p <= r.next.p <= |buf|
    decreases Room(buf, At(p)), 1, n
  {
    hide Decode, MapSet;
    if n > 0 {
      DecodeAdvances(buf, p);
      var key := Decode(buf, At(p));
      DecodeAdvances(buf, key.next.p);
      var val := Decode(buf, key.next);
      PairsAdvance(buf, val.next.p, n - 1, MapSet(entries, key.value, val.value));
    }
  }

  /**
   A decode that starts at the last octet succeeds without staying inside the buffer exactly when that
   octet announces a one-octet length and is not a tag; for strings the new offset is not even a number.
   */
  lemma CutHeadAccepted(buf: seq<byte>)
    requires buf != []
    ensures var r, last := Decode(buf, At(|buf| - 1)), buf[|buf| - 1];
      && (r.Ok? && !(r.next.At? && r.next.p <= |buf|) <==> last % 32 == 24 && last / 32 <= 5)
      && (r.Ok? && r.next.NaN? <==> last == 0x58 || last == 0x78)
  {
    hide Utf8.Lossy, FromBE, MapSet;
    var p: nat := |buf| - 1;
    var first := buf[p];
    var length := ReadLength(buf, p + 1, first % 32);
    if length.Len? {
      assert length.next == p + 1 && length.n < 24;
      if first / 32 == 4 && length.n > 0 {
        assert DecodeItems(buf, At(p + 1), length.n).Broken?;
      }
      if first / 32 == 5 && length.n > 0 {
        assert DecodePairs(buf, At(p + 1), length.n, []).Broken?;
      }
    }
  }

  /** What is accepted there: undefined, NaN, and empty strings, arrays and maps. */
  lemma CutHeadValues(buf: seq<byte>)
    requires buf != []
    ensures var r, last, n := Decode(buf, At(|buf| - 1)), buf[|buf| - 1], |buf|;
      && (last == 0x18 ==> r == Ok(Undefined, At(n + 1))) && (last == 0x38 ==> r == Ok(NotANumber, At(n + 1)))
      && (last == 0x58 ==> r == Ok(Octets([]), NaN)) && (last == 0x78 ==> r == Ok(Text(""), NaN))
      && (last == 0x98 ==> r == Ok(Array([]), At(n + 1))) && (last == 0xB8 ==> r == Ok(Map([]), At(n + 1)))
  {
  }

  /** Behind such a string the array that holds it is filled up with zeros. */
  lemma CutStringInArray()
    ensures Decode([0x83, 0x78], At(0)) == Ok(Array([Text(""), Number(0), Number(0)]), NaN)
  {
    hide Utf8.Lossy, FromBE, DecodeItems;
    var buf: seq<byte> := [0x83, 0x78];
    CutHeadValues(buf);
    assert Decode(buf, NaN) == Ok(Number(0), NaN);
    NoItems(buf);
    ItemsStep(buf, NaN, 1);
    ItemsStep(buf, NaN, 2);
    ItemsStep(buf, At(1), 3);
    assert [Number(0)] + [] == [Number(0)] && [Number(0)] + [Number(0)] == [Number(0), Number(0)];
    assert [Text("")] + [Number(0), Number(0)] == [Text(""), Number(0), Number(0)];
  }

  lemma NoItems(buf: seq<byte>)
    ensures DecodeItems(buf, NaN, 0) == Many([], NaN)
  {
  }

  lemma ItemsStep(buf: seq<byte>, o: Offset, n: nat)
    requires n > 0 && Decode(buf, o).Ok? && DecodeItems(buf, Decode(buf, o).next, n - 1).Many?
    ensures var rest := DecodeItems(buf, Decode(buf, o).next, n - 1);
      DecodeItems(buf, o, n) == Many([Decode(buf, o).value] + rest.values, rest.next)
  {
    hide Decode;
  }

  /** A number is read from every width of head, except one of 53 bits or more, which throws. */
  lemma WideHeadBack(buf: seq<byte>, p: nat, major: nat, width: nat, n: nat)
    requires major < 7 && width <= 3
    requires n < Pow256(if width == 3 then 8 else if width == 2 then 4 else width + 1)
    requires var k := if width == 3 then 8 else if width == 2 then 4 else width + 1;
      Bytes.At(buf, [major * 32 + 24 + width] + BE(n, k), p)
    ensures var k := if width == 3 then 8 else if width == 2 then 4 else width + 1;
      && buf[p] / 32 == major
      && ReadLength(buf, p + 1, buf[p] % 32) == if n < 0x20_0000_0000_0000 then Len(n, p + 1 + k) else Bad
  {
    var k := if width == 3 then 8 else if width == 2 then 4 else width + 1;
    var h := [major * 32 + 24 + width] + BE(n, k);
    Powers();
    FromBEOfBE(n, k);
    assert buf[p..p + |h|][0] == buf[p];
    assert buf[p..p + |h|][1..] == buf[p + 1..p + 1 + k];
    if k == 1 {
      OneOctet(n, buf[p + 1..p + 2]);
    }
  }

  lemma OneOctet(n: nat, b: seq<byte>)
    requires n < 0x100 && b == BE(n, 1)
    ensures b[0] == n
  {
  }

  /** No decode, wherever it starts, leaves the buffer - if and only if the buffer does not end inside such a head. */
  lemma StaysInsideIff(buf: seq<byte>)
    ensures (forall p: nat :: Decode(buf, At(p)).Ok? ==> Decode(buf, At(p)).next.At? && p < Decode(buf, At(p)).next.p <= |buf|)
       <==> !EndsInsideHead(buf)
  {
    hide Decode;
    if EndsInsideHead(buf) {
      CutHeadAccepted(buf);
      var last := |buf| - 1;
      assert Decode(buf, At(last)).Ok? && !(Decode(buf, At(last)).next.At? && Decode(buf, At(last)).next.p <= |buf|);
    } else {
      forall p: nat | Decode(buf, At(p)).Ok?
        ensures Decode(buf, At(p)).next.At? && p < Decode(buf, At(p)).next.p <= |buf|
      {
        DecodeAdvances(buf, p);
      }
    }
  }

  // ----- Encoding -----

  /** `encodeCborHead`; a value above 32 bits makes the write throw. */
  function Head(major: nat, value: nat): (h: Option<seq<byte>>)
    requires major < 7
    ensures h.Some? ==> h.value != []
  {
    if value < 24 then Some([major * 32 + value])
    else if value <= 0xff then Some([major * 32 + 24, value])
    else if value <= 0xffff then Some([major * 32 + 25] + BE(value, 2))
    else if value <= 0xffff_ffff then Some([major * 32 + 26] + BE(value, 4))
    else None
  }

  function WithHead(major: nat, value: nat, body: seq<byte>): Option<seq<byte>>
    requires major < 7
  {
    var h := Head(major, value);
    if h.None? then None else Some(h.value + body)
  }

  /** `encodeCbor`. */
  function Encode(v: Item): Option<seq<byte>>
    decreases v
  {
    match v
    case Number(n) => if n >= 0 then Head(0, n) else Head(1, -1 - n)
    case Text(s) => WithHead(3, |Utf8.Encode(s)|, Utf8.Encode(s))
    case Octets(b) => WithHead(2, |b|, b)
    case Array(items) =>
      var body := EncodeAll(items);
      if body.None? then None else WithHead(4, |items|, body.value)
    case _ => None
  }

  function EncodeAll(items: seq<Item>): Option<seq<byte>>
    decreases items
  {
    if items == [] then Some([])
    else
      var first, rest := Encode(items[0]), EncodeAll(items[1..]);
      if first.None? || rest.None? then None else Some(first.value + rest.value)
  }

  /** A head in any buffer is read back at its end. */
  lemma HeadBack(buf: seq<byte>, p: nat, major: nat, value: nat)
    requires major < 7 && Head(major, value).Some? && Bytes.At(buf, Head(major, value).value, p)
    ensures p < |buf| && buf[p] / 32 == major
    ensures ReadLength(buf, p + 1, buf[p] % 32) == Len(value, p + |Head(major, value).value|)
  {
    var h := Head(major, value).value;
    assert buf[p..p + |h|][0] == buf[p];
    if value >= 24 {
      Powers();
      if value <= 0xff {
        assert buf[p..p + |h|][1] == buf[p + 1];
      } else if value <= 0xffff {
        assert buf[p..p + |h|][1..] == buf[p + 1..p + 3];
        FromBEOfBE(value, 2);
      } else {
        assert buf[p..p + |h|][1..] == buf[p + 1..p + 5];
        FromBEOfBE(value, 4);
      }
    }
  }

  /** No other head for the same number is shorter (section 4.2.1 of RFC 8949). */
  lemma HeadIsShortest(buf: seq<byte>, p: nat, major: nat, value: nat)
    requires major < 7 && p < |buf| && buf[p] / 32 == major && ReadLength(buf, p + 1, buf[p] % 32).Len?
    requires ReadLength(buf, p + 1, buf[p] % 32).n == value && Head(major, value).Some?
    ensures p + |Head(major, value).value| <= ReadLength(buf, p + 1, buf[p] % 32).next
  {
    Powers();
  }

  lemma AtFront(a: seq<byte>, b: seq<byte>, buf: seq<byte>, p: nat)
    requires Bytes.At(buf, a + b, p)
    ensures Bytes.At(buf, a, p) && Bytes.At(buf, b, p + |a|)
  {
    var s := buf[p..p + |a + b|];
    assert s[..|a|] == buf[p..p + |a|] && s[|a|..] == buf[p + |a|..p + |a| + |b|];
  }

  // ----- Everything the decoder reads -----

  /**
   An item as RFC 8949 writes it with the shortest heads, maps, tags and simple values (sections 3.1 to 3.4)
   included.
   */
  function Written(v: Item): Option<seq<byte>>
    decreases v
  {
    match v
    case Number(n) => if n >= 0 then Head(0, n) else Head(1, -1 - n)
    case Octets(b) => WithHead(2, |b|, b)
    case Text(s) => WithHead(3, |Utf8.Encode(s)|, Utf8.Encode(s))
    case Array(items) =>
      var body := WrittenAll(items);
      if body.None? then None else WithHead(4, |items|, body.value)
    case Map(entries) =>
      var body := WrittenPairs(entries);
      if body.None? then None else WithHead(5, |entries|, body.value)
    case Tagged(tag, value) =>
      var body := Written(value);
      if body.None? then None else WithHead(6, tag, body.value)
    case Bool(bit) => Some([if bit then 0xF5 else 0xF4])
    case Null => Some([0xF6])
    case _ => None
  }

  function WrittenAll(items: seq<Item>): Option<seq<byte>>
    decreases items
  {
    if items == [] then Some([])
    else
      var first, rest := Written(items[0]), WrittenAll(items[1..]);
      if first.None? || rest.None? then None else Some(first.value + rest.value)
  }

  function WrittenEntry(e: Entry): Option<seq<byte>>
    decreases e
  {
    var key, val := Written(e.key), Written(e.val);
    if key.None? || val.None? then None else Some(key.value + val.value)
  }

  function WrittenPairs(entries: seq<Entry>): Option<seq<byte>>
    decreases entries
  {
    if entries == [] then Some([])
    else
      var first, rest := WrittenEntry(entries[0]), WrittenPairs(entries[1..]);
      if first.None? || rest.None? then None else Some(first.value + rest.value)
  }

  /** A key that is compared by value. */
  predicate Primitive(k: Item) {
    k.Number? || k.Text? || k.Bool? || k.Null? || k.Undefined? || k.NotANumber?
  }

  /** No key compared by value occurs again behind itself. */
  predicate DistinctKeys(entries: seq<Entry>) {
    forall i, j :: 0 <= i < j < |entries| && Primitive(entries[j].key) ==> entries[i].key != entries[j].key
  }

  /** So in every map inside. */
  predicate WellKeyed(v: Item)
    decreases v
  {
    match v
    case Array(items) => forall i :: 0 <= i < |items| ==> WellKeyed(items[i])
    case Map(entries) => DistinctKeys(entries) && forall i :: 0 <= i < |entries| ==> WellKeyed(entries[i].key) && WellKeyed(entries[i].val)
    case Tagged(_, value) => WellKeyed(value)
    case _ => true
  }

  /** A new key goes to the end. */
  lemma {:induction false} MapSetNew(entries: seq<Entry>, k: Item, v: Item)
    requires Primitive(k) ==> forall i :: 0 <= i < |entries| ==> entries[i].key != k
    ensures MapSet(entries, k, v) == entries + [Entry(k, v)]
    decreases |entries|
  {
    if entries != [] {
      MapSetNew(entries[1..], k, v);
      assert [entries[0]] + (entries[1..] + [Entry(k, v)]) == entries + [Entry(k, v)];
    }
  }

  /** Decoding at the start of a written item, anywhere in a buffer, gives the item back and ends behind it. */
  lemma {:induction false} DecodeOfWritten(v: Item, buf: seq<byte>, p: nat)
    requires Written(v).Some? && WellKeyed(v) && Bytes.At(buf, Written(v).value, p)
    ensures Decode(buf, At(p)) == Ok(v, At(p + |Written(v).value|))
    decreases v
  {
    hide Head, ReadLength, Utf8.Encode, Utf8.Lossy, Decode, DecodeItems, DecodePairs, DistinctKeys;
    match v {
      case Number(n) =>
        NumberBack(n, buf, p);
      case Octets(b) =>
        StringBack(2, b, buf, p);
      case Text(s) =>
        StringBack(3, Utf8.Encode(s), buf, p);
        Utf8.LossyOfEncode(s);
      case Array(items) =>
        BodyBack(4, |items|, WrittenAll(items).value, buf, p);
        ItemsOfWritten(items, buf, p + |Head(4, |items|).value|);
      case Map(entries) =>
        BodyBack(5, |entries|, WrittenPairs(entries).value, buf, p);
        assert [] + entries == entries;
        PairsOfWritten([], entries, buf, p + |Head(5, |entries|).value|);
      case Tagged(tag, value) =>
        BodyBack(6, tag, Written(value).value, buf, p);
        DecodeOfWritten(value, buf, p + |Head(6, tag).value|);
      case Bool(bit) =>
        SimpleBack(v, buf, p);
      case Null =>
        SimpleBack(v, buf, p);
      case _ =>
    }
  }

  lemma NumberBack(n: int, buf: seq<byte>, p: nat)
    requires Written(Number(n)).Some? && Bytes.At(buf, Written(Number(n)).value, p)
    ensures Decode(buf, At(p)) == Ok(Number(n), At(p + |Written(Number(n)).value|))
  {
    hide Head, ReadLength;
    if n >= 0 {
      HeadBack(buf, p, 0, n);
    } else {
      HeadBack(buf, p, 1, -1 - n);
    }
  }

  /** A head decides what is decoded behind it. */
  lemma BodyBack(major: nat, n: nat, body: seq<byte>, buf: seq<byte>, p: nat)
    requires 4 <= major < 7 && WithHead(major, n, body).Some? && Bytes.At(buf, WithHead(major, n, body).value, p)
    ensures var next := p + |Head(major, n).value|;
      var items, pairs, tagged := DecodeItems(buf, At(next), n), DecodePairs(buf, At(next), n, []), Decode(buf, At(next));
      && Bytes.At(buf, body, next)
      && (major == 4 ==> Decode(buf, At(p)) == if items.Many? then Ok(Array(items.values), items.next) else Err)
      && (major == 5 ==> Decode(buf, At(p)) == if pairs.Pairs? then Ok(Map(pairs.entries), pairs.next) else Err)
      && (major == 6 ==> Decode(buf, At(p)) == if tagged.Ok? then Ok(Tagged(n, tagged.value), tagged.next) else Err)
  {
    hide Head, ReadLength, DecodeItems, DecodePairs;
    AtFront(Head(major, n).value, body, buf, p);
    HeadBack(buf, p, major, n);
  }

  /** The simple values false, true and null. */
  lemma SimpleBack(v: Item, buf: seq<byte>, p: nat)
    requires v.Bool? || v.Null?
    requires Bytes.At(buf, Written(v).value, p)
    ensures Decode(buf, At(p)) == Ok(v, At(p + 1)) && |Written(v).value| == 1
  {
    assert buf[p..p + 1][0] == buf[p];
  }

  lemma StringBack(major: nat, b: seq<byte>, buf: seq<byte>, p: nat)
    requires major == 2 || major == 3
    requires WithHead(major, |b|, b).Some? && Bytes.At(buf, WithHead(major, |b|, b).value, p)
    ensures Decode(buf, At(p)) == Ok(if major == 2 then Octets(b) else Text(Utf8.Lossy(b)), At(p + |WithHead(major, |b|, b).value|))
  {
    hide Head, ReadLength, Utf8.Lossy;
    var h := Head(major, |b|).value;
    AtFront(h, b, buf, p);
    HeadBack(buf, p, major, |b|);
  }

  lemma {:induction false} ItemsOfWritten(items: seq<Item>, buf: seq<byte>, p: nat)
    requires WrittenAll(items).Some? && Bytes.At(buf, WrittenAll(items).value, p)
    requires forall i :: 0 <= i < |items| ==> WellKeyed(items[i])
    ensures DecodeItems(buf, At(p), |items|) == Many(items, At(p + |WrittenAll(items).value|))
    decreases items
  {
    hide Decode, Written, WellKeyed;
    if items != [] {
      var a, b := Written(items[0]).value, WrittenAll(items[1..]).value;
      AtFront(a, b, buf, p);
      DecodeOfWritten(items[0], buf, p);
      ItemsOfWritten(items[1..], buf, p + |a|);
      assert [items[0]] + items[1..] == items;
    }
  }

  /** Pairs with new keys come back in order, behind the entries there are. */
  lemma {:induction false} PairsOfWritten(done: seq<Entry>, entries: seq<Entry>, buf: seq<byte>, p: nat)
    requires WrittenPairs(entries).Some? && Bytes.At(buf, WrittenPairs(entries).value, p) && DistinctKeys(done + entries)
    requires forall i :: 0 <= i < |entries| ==> WellKeyed(entries[i].key) && WellKeyed(entries[i].val)
    ensures DecodePairs(buf, At(p), |entries|, done) == Pairs(done + entries, At(p + |WrittenPairs(entries).value|))
    decreases entries
  {
    hide Decode, WrittenEntry, Written, WellKeyed, MapSet;
    if entries == [] {
      assert done + entries == done;
    } else {
      var e := entries[0];
      AtFront(WrittenEntry(e).value, WrittenPairs(entries[1..]).value, buf, p);
      EntryBack(e, buf, p);
      NewKey(done, entries);
      MapSetNew(done, e.key, e.val);
      assert done + [e] + entries[1..] == done + entries;
      PairsOfWritten(done + [e], entries[1..], buf, p + |WrittenEntry(e).value|);
    }
  }

  lemma NewKey(done: seq<Entry>, entries: seq<Entry>)
    requires entries != [] && DistinctKeys(done + entries)
    ensures Primitive(entries[0].key) ==> forall i :: 0 <= i < |done| ==> done[i].key != entries[0].key
  {
    var all := done + entries;
    assert all[|done|] == entries[0];
    assert forall i :: 0 <= i < |done| ==> all[i] == done[i];
  }

  /** A key and its value. */
  lemma {:induction false} EntryBack(e: Entry, buf: seq<byte>, p: nat)
    requires WrittenEntry(e).Some? && Bytes.At(buf, WrittenEntry(e).value, p) && WellKeyed(e.key) && WellKeyed(e.val)
    ensures var a := Written(e.key).value;
      && Decode(buf, At(p)) == Ok(e.key, At(p + |a|))
      && Decode(buf, At(p + |a|)) == Ok(e.val, At(p + |WrittenEntry(e).value|))
    decreases e
  {
    hide Decode, Written, WellKeyed;
    var a, b := Written(e.key).value, Written(e.val).value;
    AtFront(a, b, buf, p);
    DecodeOfWritten(e.key, buf, p);
    DecodeOfWritten(e.val, buf, p + |a|);
  }

  // ----- Repeated keys -----

  /** `Map.get`. */
  function Lookup(entries: seq<Entry>, k: Item): Option<Item> {
    if entries == [] then None
    else if entries[0].key == k then Some(entries[0].val)
    else Lookup(entries[1..], k)
  }

  /** The value of the last pair with a key. */
  function Last(pairs: seq<Entry>, k: Item): Option<Item> {
    if pairs == [] then None
    else
      var rest := Last(pairs[1..], k);
      if rest.Some? then rest else if pairs[0].key == k then Some(pairs[0].val) else None
  }

  lemma {:induction false} MapSetLookup(entries: seq<Entry>, k: Item, v: Item, j: Item)
    requires Primitive(k)
    ensures Lookup(MapSet(entries, k, v), j) == if j == k then Some(v) else Lookup(entries, j)
    decreases |entries|
  {
    if entries != [] {
      MapSetLookup(entries[1..], k, v, j);
    }
  }

  lemma {:induction false} MapSetDistinct(entries: seq<Entry>, k: Item, v: Item)
    requires Primitive(k) && DistinctKeys(entries)
    ensures DistinctKeys(MapSet(entries, k, v))
    ensures forall i :: 0 <= i < |MapSet(entries, k, v)| ==>
              MapSet(entries, k, v)[i].key == k || exists j :: 0 <= j < |entries| && entries[j].key == MapSet(entries, k, v)[i].key
    decreases |entries|
  {
    if entries != [] {
      var rest := entries[1..];
      assert forall j :: 0 <= j < |rest| ==> rest[j] == entries[j + 1];
      MapSetDistinct(rest, k, v);
      var r := MapSet(entries, k, v);
      if entries[0].key == k {
        assert forall i :: 0 < i < |r| ==> r[i] == entries[i];
      } else {
        var m := MapSet(rest, k, v);
        assert r == [entries[0]] + m;
        forall i | 0 <= i < |m|
          ensures m[i].key == k || exists j :: 0 <= j < |entries| && entries[j].key == m[i].key
          ensures Primitive(m[i].key) ==> m[i].key != entries[0].key
        {
          if m[i].key != k {
            var j :| 0 <= j < |rest| && rest[j].key == m[i].key;
            assert entries[j + 1].key == m[i].key;
          }
        }
      }
    }
  }

  lemma {:induction false} RepeatsFold(done: seq<Entry>, pairs: seq<Entry>, buf: seq<byte>, p: nat)
    requires WrittenPairs(pairs).Some? && Bytes.At(buf, WrittenPairs(pairs).value, p) && DistinctKeys(done)
    requires forall i :: 0 <= i < |pairs| ==> Primitive(pairs[i].key) && WellKeyed(pairs[i].val)
    ensures var r := DecodePairs(buf, At(p), |pairs|, done);
      && r.Pairs? && r.next == At(p + |WrittenPairs(pairs).value|) && DistinctKeys(r.entries)
      && forall k :: Lookup(r.entries, k) == if Last(pairs, k).Some? then Last(pairs, k) else Lookup(done, k)
    decreases |pairs|
  {
    hide Decode, WrittenEntry, Written, WellKeyed, MapSet, DistinctKeys, Lookup;
    if pairs != [] {
      var k, v := pairs[0].key, pairs[0].val;
      PrimitiveIsKeyed(k);
      AtFront(WrittenEntry(pairs[0]).value, WrittenPairs(pairs[1..]).value, buf, p);
      EntryBack(pairs[0], buf, p);
      MapSetDistinct(done, k, v);
      forall j
        ensures Lookup(MapSet(done, k, v), j) == if j == k then Some(v) else Lookup(done, j)
      {
        MapSetLookup(done, k, v, j);
      }
      RepeatsFold(MapSet(done, k, v), pairs[1..], buf, p + |WrittenEntry(pairs[0]).value|);
    }
  }

  lemma PrimitiveIsKeyed(k: Item)
    requires Primitive(k)
    ensures WellKeyed(k)
  {
  }

  /** With repeated keys the map holds every key once, with the value of its last pair. */
  lemma RepeatedKeys(pairs: seq<Entry>, buf: seq<byte>, p: nat)
    requires Written(Map(pairs)).Some? && Bytes.At(buf, Written(Map(pairs)).value, p)
    requires forall i :: 0 <= i < |pairs| ==> Primitive(pairs[i].key) && WellKeyed(pairs[i].val)
    ensures var r := Decode(buf, At(p));
      && r.Ok? && r.value.Map? && r.next == At(p + |Written(Map(pairs)).value|) && DistinctKeys(r.value.entries)
      && forall k :: Lookup(r.value.entries, k) == Last(pairs, k)
  {
    hide Head, ReadLength, DecodePairs, WrittenPairs, WellKeyed, Last, Primitive;
    BodyBack(5, |pairs|, WrittenPairs(pairs).value, buf, p);
    RepeatsFold([], pairs, buf, p + |Head(5, |pairs|).value|);
  }

  // ----- What the encoder writes -----

  /** The encoder writes some of these items, the same way. */
  lemma {:induction false} EncodeIsWritten(v: Item)
    ensures Encode(v).Some? ==> Written(v) == Encode(v) && WellKeyed(v)
    decreases v
  {
    hide Head, Utf8.Encode;
    if v.Array? {
      AllIsWritten(v.items);
    }
  }

  lemma {:induction false} AllIsWritten(items: seq<Item>)
    ensures EncodeAll(items).Some? ==>
              WrittenAll(items) == EncodeAll(items) && forall i :: 0 <= i < |items| ==> WellKeyed(items[i])
    decreases items
  {
    hide Encode, Written, WellKeyed;
    if items != [] {
      EncodeIsWritten(items[0]);
      AllIsWritten(items[1..]);
      assert forall i :: 0 < i < |items| ==> items[i] == items[1..][i - 1];
    }
  }

  /** What fits the heads of the encoder: numbers and lengths below 2^32. */
  predicate Fits(v: Item)
    decreases v
  {
    match v
    case Number(n) => -0x1_0000_0000 <= n < 0x1_0000_0000
    case Octets(b) => |b| < 0x1_0000_0000
    case Text(s) => |Utf8.Encode(s)| < 0x1_0000_0000
    case Array(items) => |items| < 0x1_0000_0000 && forall i :: 0 <= i < |items| ==> Fits(items[i])
    case Map(entries) => |entries| < 0x1_0000_0000 && forall i :: 0 <= i < |entries| ==> Fits(entries[i].key) && Fits(entries[i].val)
    case Tagged(tag, value) => tag < 0x1_0000_0000 && Fits(value)
    case Bool(_) => true
    case Null => true
    case _ => false
  }

  /** Only numbers, strings, octets and arrays of them are encoded by the source. */
  predicate Plain(v: Item)
    decreases v
  {
    match v
    case Number(_) => true
    case Octets(_) => true
    case Text(_) => true
    case Array(items) => forall i :: 0 <= i < |items| ==> Plain(items[i])
    case _ => false
  }

  /** Everything that fits is written, and nothing else. */
  lemma {:induction false} WrittenIff(v: Item)
    ensures Written(v).Some? <==> Fits(v)
    decreases v
  {
    hide Utf8.Encode;
    match v {
      case Array(items) => AllWrittenIff(items);
      case Map(entries) => PairsWrittenIff(entries);
      case Tagged(_, value) => WrittenIff(value);
      case _ =>
    }
  }

  lemma {:induction false} AllWrittenIff(items: seq<Item>)
    ensures WrittenAll(items).Some? <==> forall i :: 0 <= i < |items| ==> Fits(items[i])
    decreases items
  {
    hide Written, Fits;
    if items != [] {
      WrittenIff(items[0]);
      AllWrittenIff(items[1..]);
      assert forall i :: 0 < i < |items| ==> items[i] == items[1..][i - 1];
    }
  }

  lemma {:induction false} EntryWrittenIff(e: Entry)
    ensures WrittenEntry(e).Some? <==> Fits(e.key) && Fits(e.val)
    decreases e
  {
    hide Written, Fits;
    WrittenIff(e.key);
    WrittenIff(e.val);
  }

  lemma {:induction false} PairsWrittenIff(entries: seq<Entry>)
    ensures WrittenPairs(entries).Some? <==> forall i :: 0 <= i < |entries| ==> Fits(entries[i].key) && Fits(entries[i].val)
    decreases entries
  {
    hide WrittenEntry, Fits;
    if entries != [] {
      EntryWrittenIff(entries[0]);
      PairsWrittenIff(entries[1..]);
      assert forall i :: 0 < i < |entries| ==> entries[i] == entries[1..][i - 1];
    }
  }

  /** The source encodes exactly the plain items that fit. */
  lemma {:induction false} EncodesIff(v: Item)
    ensures Encode(v).Some? <==> Plain(v) && Fits(v)
    decreases v
  {
    hide Utf8.Encode;
    if v.Array? {
      AllEncodesIff(v.items);
    }
  }

  lemma {:induction false} AllEncodesIff(items: seq<Item>)
    ensures EncodeAll(items).Some? <==> forall i :: 0 <= i < |items| ==> Plain(items[i]) && Fits(items[i])
    decreases items
  {
    hide Encode, Fits, Plain;
    if items != [] {
      EncodesIff(items[0]);
      AllEncodesIff(items[1..]);
      assert forall i :: 0 < i < |items| ==> items[i] == items[1..][i - 1];
    }
  }

  /** Decoding at the start of an encoding, anywhere in a buffer, gives the value back and ends behind it. */
  lemma DecodeOfEncode(v: Item, buf: seq<byte>, p: nat)
    requires Encode(v).Some? && Bytes.At(buf, Encode(v).value, p)
    ensures Decode(buf, At(p)) == Ok(v, At(p + |Encode(v).value|))
  {
    hide Encode, Written, Decode, WellKeyed;
    EncodeIsWritten(v);
    DecodeOfWritten(v, buf, p);
  }

  /** `decodeCbor(encodeCbor(v) ++ rest)` at offset 0. */
  lemma RoundTrip(v: Item, rest: seq<byte>)
    requires Encode(v).Some?
    ensures Decode(Encode(v).value + rest, At(0)) == Ok(v, At(|Encode(v).value|))
  {
    hide Encode, Decode;
    var e := Encode(v).value;
    assert (e + rest)[0..|e|] == e;
    DecodeOfEncode(v, e + rest, 0);
  }

  /** No encoding is the beginning of another: what follows an encoding never changes what it means. */
  lemma PrefixFree(a: Item, b: Item, x: seq<byte>, y: seq<byte>)
    requires Encode(a).Some? && Encode(b).Some? && Encode(a).value + x == Encode(b).value + y
    ensures a == b && x == y
  {
    hide Encode, Decode;
    RoundTrip(a, x);
    RoundTrip(b, y);
    var e := Encode(a).value;
    assert (e + x)[|e|..] == x && (e + y)[|e|..] == y;
  }
}
