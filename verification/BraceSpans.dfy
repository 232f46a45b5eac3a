/**
 Locating JSON objects inside a captured response: a single scan with a stack finds every matched pair of
 braces outside strings, and a sweep keeps the outermost ones.
 */
module BraceSpans {
  import opened Bytes

  const QUOTE: byte := 0x22
  const BACKSLASH: byte := 0x5c
  const OPEN: byte := 0x7b
  const CLOSE: byte := 0x7d

  /** A half-open range of positions. */
  datatype Span = Span(start: nat, end: nat)

  // ----- The scan -----

  datatype Scan = Scan(stack: seq<nat>, inString: bool, escape: bool, spans: seq<Span>)

  const FRESH := Scan([], false, false, [])

  function ScanStep(s: Scan, b: byte, i: nat): Scan {
    if s.inString then
      if s.escape then s.(escape := false)
      else if b == BACKSLASH then s.(escape := true)
      else if b == QUOTE then s.(inString := false)
      else s
    else if b == QUOTE then s.(inString := true)
    else if b == OPEN then s.(stack := s.stack + [i])
    else if b == CLOSE && s.stack != [] then
      s.(stack := s.stack[..|s.stack| - 1], spans := s.spans + [Span(s.stack[|s.stack| - 1], i + 1)])
    else s
  }

  /** The scan of `bytes` whose first octet stands at position `i`. */
  function ScanFrom(s: Scan, bytes: seq<byte>, i: nat): Scan
    decreases |bytes|
  {
    if bytes == [] then s else ScanFrom(ScanStep(s, bytes[0], i), bytes[1..], i + 1)
  }

  function Matched(bytes: seq<byte>): seq<Span> {
    ScanFrom(FRESH, bytes, 0).spans
  }

  lemma {:induction false} ScanConcat(s: Scan, a: seq<byte>, b: seq<byte>, i: nat)
    ensures ScanFrom(s, a + b, i) == ScanFrom(ScanFrom(s, a, i), b, i + |a|)
    decreases |a|
  {
    if a == [] {
      assert a + b == b;
    } else {
      assert (a + b)[1..] == a[1..] + b;
      ScanConcat(ScanStep(s, a[0], i), a[1..], b, i + 1);
    }
  }

  // ----- The spans form a laminar family -----

  predicate Within(a: Span, b: Span) {
    b.start <= a.start && a.end <= b.end
  }

  /** Disjoint, or one strictly inside the other. */
  predicate Apart(a: Span, b: Span) {
    a.end <= b.start || b.end <= a.start || (a.start < b.start && b.end < a.end) || (b.start < a.start && a.end < b.end)
  }

  predicate Laminar(spans: seq<Span>) {
    && (forall i :: 0 <= i < |spans| ==> spans[i].start < spans[i].end)
    && (forall i, j :: 0 <= i < j < |spans| ==> Apart(spans[i], spans[j]))
  }

  /** What the scan keeps true in front of position n. */
  predicate ScanInv(s: Scan, n: nat) {
    && Laminar(s.spans)
    && (forall i :: 0 <= i < |s.spans| ==> s.spans[i].end <= n)
    && (forall k :: 0 <= k < |s.stack| ==> s.stack[k] < n)
    && (forall j, k :: 0 <= j < k < |s.stack| ==> s.stack[j] < s.stack[k])
    && (forall i, k :: 0 <= i < |s.spans| && 0 <= k < |s.stack| ==> s.spans[i].end <= s.stack[k] || s.stack[k] < s.spans[i].start)
  }

  lemma ScanStepKeeps(s: Scan, b: byte, n: nat)
    requires ScanInv(s, n)
    ensures ScanInv(ScanStep(s, b, n), n + 1)
  {
    hide Laminar;
    if !s.inString && b == CLOSE && s.stack != [] {
      CloseKeeps(s, n);
    }
  }

  /** Closing the innermost open brace: the new span contains what was opened after it and nothing else. */
  lemma CloseKeeps(s: Scan, n: nat)
    requires ScanInv(s, n) && s.stack != []
    ensures ScanInv(s.(stack := s.stack[..|s.stack| - 1], spans := s.spans + [Span(s.stack[|s.stack| - 1], n + 1)]), n + 1)
  {
    var top := s.stack[|s.stack| - 1];
    var x := Span(top, n + 1);
    var spans := s.spans + [x];
    forall i, j | 0 <= i < j < |spans|
      ensures Apart(spans[i], spans[j])
    {
      if j < |s.spans| {
        assert spans[i] == s.spans[i] && spans[j] == s.spans[j];
      } else {
        assert spans[i] == s.spans[i] && spans[j] == x;
      }
    }
  }

  lemma {:induction false} ScanKeeps(s: Scan, bytes: seq<byte>, n: nat)
    requires ScanInv(s, n)
    ensures ScanInv(ScanFrom(s, bytes, n), n + |bytes|)
    decreases |bytes|
  {
    if bytes != [] {
      ScanStepKeeps(s, bytes[0], n);
      ScanKeeps(ScanStep(s, bytes[0], n), bytes[1..], n + 1);
    }
  }

  /** Any two matched pairs are disjoint or nested. */
  lemma MatchedIsLaminar(bytes: seq<byte>)
    ensures Laminar(Matched(bytes))
    ensures forall i :: 0 <= i < |Matched(bytes)| ==> Matched(bytes)[i].end <= |bytes|
  {
    ScanKeeps(FRESH, bytes, 0);
  }

  // ----- Sorting and sweeping -----

  /** The comparison of the sort: by start, longer spans first. */
  predicate Before(a: Span, b: Span) {
    a.start < b.start || (a.start == b.start && a.end >= b.end)
  }

  predicate Ordered(spans: seq<Span>) {
    forall i, j :: 0 <= i < j < |spans| ==> Before(spans[i], spans[j])
  }

  function Insert(x: Span, spans: seq<Span>): seq<Span> {
    if spans == [] then [x]
    else if Before(x, spans[0]) then [x] + spans
    else [spans[0]] + Insert(x, spans[1..])
  }

  function Sort(spans: seq<Span>): seq<Span> {
    if spans == [] then [] else Insert(spans[0], Sort(spans[1..]))
  }

  lemma {:induction false} InsertCounts(x: Span, spans: seq<Span>)
    ensures multiset(Insert(x, spans)) == multiset{x} + multiset(spans)
    decreases |spans|
  {
    hide Before;
    if spans != [] {
      assert spans == [spans[0]] + spans[1..];
      InsertCounts(x, spans[1..]);
    }
  }

  lemma {:induction false} InsertOrders(x: Span, spans: seq<Span>)
    requires Ordered(spans)
    ensures Ordered(Insert(x, spans))
    decreases |spans|
  {
    if spans != [] && !Before(x, spans[0]) {
      var rest := spans[1..];
      InsertOrders(x, rest);
      InsertCounts(x, rest);
      forall k | 0 <= k < |Insert(x, rest)|
        ensures Before(spans[0], Insert(x, rest)[k])
      {
        FirstIsLeast(x, spans, Insert(x, rest)[k]);
      }
      PrependOrders(spans[0], Insert(x, rest));
    }
  }

  lemma FirstIsLeast(x: Span, spans: seq<Span>, y: Span)
    requires spans != [] && Ordered(spans) && !Before(x, spans[0])
    requires y in Insert(x, spans[1..]) && multiset(Insert(x, spans[1..])) == multiset{x} + multiset(spans[1..])
    ensures Before(spans[0], y)
  {
    hide Insert;
    assert y in multiset(Insert(x, spans[1..]));
    if y != x {
      assert y in multiset(spans[1..]);
    }
  }

  lemma PrependOrders(x: Span, spans: seq<Span>)
    requires Ordered(spans) && forall k :: 0 <= k < |spans| ==> Before(x, spans[k])
    ensures Ordered([x] + spans)
  {
    hide Before;
  }

  lemma {:induction false} SortSorts(spans: seq<Span>)
    ensures Ordered(Sort(spans)) && multiset(Sort(spans)) == multiset(spans)
    decreases |spans|
  {
    if spans != [] {
      SortSorts(spans[1..]);
      InsertCounts(spans[0], Sort(spans[1..]));
      InsertOrders(spans[0], Sort(spans[1..]));
      assert spans == [spans[0]] + spans[1..];
    }
  }

  /** The sweep: a span that ends inside what is covered is dropped. */
  function Sweep(ordered: seq<Span>, covered: int): seq<Span>
    decreases |ordered|
  {
    if ordered == [] then []
    else if ordered[0].end <= covered then Sweep(ordered[1..], covered)
    else [ordered[0]] + Sweep(ordered[1..], ordered[0].end)
  }

  function Outermost(spans: seq<Span>): seq<Span> {
    Sweep(Sort(spans), -1)
  }

  /** `outermostJsonEnvelopeSpans`. */
  method OutermostSpans(spans: seq<Span>) returns (outermost: seq<Span>)
    ensures outermost == Outermost(spans)
  {
    var ordered := Sort(spans);
    outermost := [];
    var coveredEnd: int := -1;
    for k := 0 to |ordered|
      invariant outermost + Sweep(ordered[k..], coveredEnd) == Outermost(spans)
    {
      assert ordered[k..][0] == ordered[k] && ordered[k..][1..] == ordered[k + 1..];
      if ordered[k].end <= coveredEnd {
        continue;
      }
      assert outermost + ([ordered[k]] + Sweep(ordered[k + 1..], ordered[k].end))
          == outermost + [ordered[k]] + Sweep(ordered[k + 1..], ordered[k].end);
      outermost := outermost + [ordered[k]];
      coveredEnd := ordered[k].end;
    }
    assert outermost + [] == outermost;
  }

  /** `findJsonEnvelopeSpans`. */
  method FindJsonEnvelopeSpans(bytes: seq<byte>) returns (found: seq<Span>)
    ensures found == Outermost(Matched(bytes))
  {
    var spans: seq<Span> := [];
    var stack: seq<nat> := [];
    var inString, escape := false, false;
    for i := 0 to |bytes|
      invariant ScanFrom(Scan(stack, inString, escape, spans), bytes[i..], i) == ScanFrom(FRESH, bytes, 0)
    {
      var b := bytes[i];
      assert bytes[i..][0] == b && bytes[i..][1..] == bytes[i + 1..];
      if inString {
        if escape {
          escape := false;
          continue;
        }
        if b == BACKSLASH {
          escape := true;
          continue;
        }
        if b == QUOTE {
          inString := false;
        }
        continue;
      }
      if b == QUOTE {
        inString := true;
        continue;
      }
      if b == OPEN {
        stack := stack + [i];
        continue;
      }
      if b == CLOSE && |stack| > 0 {
        var start := stack[|stack| - 1];
        stack := stack[..|stack| - 1];
        spans := spans + [Span(start, i + 1)];
      }
    }
    found := OutermostSpans(spans);
  }

  predicate SortedDisjoint(out: seq<Span>) {
    forall i, j :: 0 <= i < j < |out| ==> out[i].end <= out[j].start
  }

  /** Behind the first span of an ordered laminar family everything is inside it or after it. */
  lemma FirstContainsOrPrecedes(ordered: seq<Span>)
    requires ordered != [] && Ordered(ordered) && Laminar(ordered)
    ensures var rest := ordered[1..];
      && Ordered(rest) && Laminar(rest)
      && forall i :: 0 <= i < |rest| ==> Within(rest[i], ordered[0]) || ordered[0].end <= rest[i].start
  {
    var rest := ordered[1..];
    assert forall i :: 0 <= i < |rest| ==> rest[i] == ordered[i + 1];
  }

  lemma NoneIsDisjoint()
    ensures SortedDisjoint([])
  {
  }

  /** What the sweep of an ordered laminar family returns, given that `last` was kept before it. */
  lemma {:induction false} SweepIsOutermost(ordered: seq<Span>, last: Span)
    requires Ordered(ordered) && Laminar(ordered)
    requires forall i :: 0 <= i < |ordered| ==> Within(ordered[i], last) || last.end <= ordered[i].start
    ensures SortedDisjoint(Sweep(ordered, last.end))
    ensures forall k :: 0 <= k < |Sweep(ordered, last.end)| ==>
              Sweep(ordered, last.end)[k] in ordered && last.end <= Sweep(ordered, last.end)[k].start
    ensures forall i :: 0 <= i < |ordered| ==> Within(ordered[i], last) || Covered(ordered[i], Sweep(ordered, last.end))
    decreases |ordered|
  {
    hide Covered, SortedDisjoint, Apart, Ordered;
    NoneIsDisjoint();
    if ordered != [] {
      var x, rest := ordered[0], ordered[1..];
      FirstContainsOrPrecedes(ordered);
      assert ordered == [x] + rest;
      assert forall i :: 0 <= i < |rest| ==> rest[i] == ordered[i + 1];
      if x.end <= last.end {
        SweepIsOutermost(rest, last);
      } else {
        SweepIsOutermost(rest, x);
        KeptFirst(ordered, last, Sweep(rest, x.end));
      }
    }
  }

  predicate Covered(a: Span, out: seq<Span>) {
    exists k :: 0 <= k < |out| && Within(a, out[k])
  }

  lemma KeptFirst(ordered: seq<Span>, last: Span, more: seq<Span>)
    requires ordered != [] && last.end <= ordered[0].start < ordered[0].end
    requires SortedDisjoint(more)
    requires forall k :: 0 <= k < |more| ==> more[k] in ordered[1..] && ordered[0].end <= more[k].start
    requires forall i :: 0 <= i < |ordered| - 1 ==> Within(ordered[1..][i], ordered[0]) || Covered(ordered[1..][i], more)
    ensures var out := [ordered[0]] + more;
      && SortedDisjoint(out)
      && (forall k :: 0 <= k < |out| ==> out[k] in ordered && last.end <= out[k].start)
      && (forall i :: 0 <= i < |ordered| ==> Covered(ordered[i], out))
  {
    hide Covered, SortedDisjoint, Within;
    var x, rest := ordered[0], ordered[1..];
    var out := [x] + more;
    KeptDisjoint(x, more);
    forall i | 0 <= i < |ordered|
      ensures Covered(ordered[i], out)
    {
      if i > 0 {
        assert ordered[i] == rest[i - 1];
      }
      StillCovered(ordered[i], x, more, i == 0);
    }
    forall k | 0 <= k < |out|
      ensures out[k] in ordered && last.end <= out[k].start
    {
      if k > 0 {
        assert out[k] == more[k - 1] && more[k - 1] in rest;
      }
    }
  }

  lemma KeptDisjoint(x: Span, more: seq<Span>)
    requires SortedDisjoint(more) && forall k :: 0 <= k < |more| ==> x.end <= more[k].start
    ensures SortedDisjoint([x] + more)
  {
    var out := [x] + more;
    assert forall j :: 0 < j < |out| ==> out[j] == more[j - 1];
  }

  lemma StillCovered(a: Span, x: Span, more: seq<Span>, first: bool)
    requires (first && a == x) || Within(a, x) || Covered(a, more)
    ensures Covered(a, [x] + more)
  {
    var out := [x] + more;
    if (first && a == x) || Within(a, x) {
      assert Within(a, out[0]);
    } else {
      var k :| 0 <= k < |more| && Within(a, more[k]);
      assert out[k + 1] == more[k];
    }
  }

  /** Laminarity does not depend on the order of the family. */
  lemma LaminarSorted(spans: seq<Span>)
    requires Laminar(spans)
    ensures Laminar(Sort(spans))
  {
    SortSorts(spans);
    var r := Sort(spans);
    NoRepeats(spans);
    SameCounts(spans, r);
    forall i | 0 <= i < |r|
      ensures r[i].start < r[i].end
    {
      assert r[i] in multiset(spans);
    }
    forall i, j | 0 <= i < j < |r|
      ensures Apart(r[i], r[j])
    {
      assert r[i] in multiset(spans) && r[j] in multiset(spans);
      var a :| 0 <= a < |spans| && spans[a] == r[i];
      var b :| 0 <= b < |spans| && spans[b] == r[j];
      assert r[i] != r[j];
      assert a != b;
    }
  }

  predicate Distinct(spans: seq<Span>) {
    forall i, j :: 0 <= i < j < |spans| ==> spans[i] != spans[j]
  }

  lemma NoRepeats(spans: seq<Span>)
    requires Laminar(spans)
    ensures Distinct(spans)
  {
  }

  /** A rearrangement of distinct spans is distinct. */
  lemma SameCounts(a: seq<Span>, b: seq<Span>)
    requires Distinct(a) && multiset(a) == multiset(b)
    ensures Distinct(b)
  {
    forall x
      ensures multiset(a)[x] <= 1
    {
      AtMostOnce(a, x);
    }
    forall i, j | 0 <= i < j < |b|
      ensures b[i] != b[j]
    {
      assert b == b[..i] + [b[i]] + b[i + 1..j] + [b[j]] + b[j + 1..];
      assert multiset(b)[b[i]] >= (if b[i] == b[j] then 2 else 1);
    }
  }

  lemma {:induction false} AtMostOnce(a: seq<Span>, x: Span)
    requires Distinct(a)
    ensures multiset(a)[x] <= 1
    decreases |a|
  {
    if a != [] {
      var rest := a[1..];
      assert a == [a[0]] + rest;
      assert forall i :: 0 <= i < |rest| ==> rest[i] == a[i + 1];
      AtMostOnce(rest, x);
    }
  }

  /**
   The result of the search: sorted, pairwise disjoint, each a matched pair, no matched pair reaches
   outside, and every matched pair lies in exactly one of them.
   */
  lemma OutermostIsOutermost(bytes: seq<byte>)
    ensures var out, spans := Outermost(Matched(bytes)), Matched(bytes);
      && SortedDisjoint(out)
      && (forall k :: 0 <= k < |out| ==> out[k] in spans && out[k].start < out[k].end <= |bytes|)
      && (forall i :: 0 <= i < |spans| ==> Covered(spans[i], out))
      && (forall i, k, m | 0 <= i < |spans| && 0 <= k < |out| && 0 <= m < |out| ::
            Within(spans[i], out[k]) && Within(spans[i], out[m]) ==> k == m)
      && (forall i, k :: 0 <= i < |spans| && 0 <= k < |out| && Within(out[k], spans[i]) ==> spans[i] == out[k])
  {
    var spans := Matched(bytes);
    MatchedIsLaminar(bytes);
    LaminarSorted(spans);
    SortSorts(spans);
    var ordered := Sort(spans);
    SweepFromStart(ordered);
    SweepIsOutermost(ordered, Span(0, 0));
    OutermostFacts(spans, ordered, Outermost(spans));
  }

  lemma {:induction false} SweepFromStart(ordered: seq<Span>)
    requires Laminar(ordered)
    ensures Sweep(ordered, -1) == Sweep(ordered, 0)
  {
  }

  lemma OutermostFacts(spans: seq<Span>, ordered: seq<Span>, out: seq<Span>)
    requires Laminar(spans) && multiset(spans) == multiset(ordered) && SortedDisjoint(out)
    requires forall k :: 0 <= k < |out| ==> out[k] in ordered
    requires forall i :: 0 <= i < |ordered| ==>
        ordered[i].start < ordered[i].end && (Within(ordered[i], Span(0, 0)) || Covered(ordered[i], out))
    ensures forall k :: 0 <= k < |out| ==> out[k] in spans && out[k].start < out[k].end
    ensures forall i :: 0 <= i < |spans| ==> Covered(spans[i], out)
    ensures forall i, k, m | 0 <= i < |spans| && 0 <= k < |out| && 0 <= m < |out| ::
              Within(spans[i], out[k]) && Within(spans[i], out[m]) ==> k == m
    ensures forall i, k :: 0 <= i < |spans| && 0 <= k < |out| && Within(out[k], spans[i]) ==> spans[i] == out[k]
  {
    hide Apart, Covered, SortedDisjoint, Within;
    forall k | 0 <= k < |out|
      ensures out[k] in spans && out[k].start < out[k].end
    {
      assert out[k] in multiset(ordered);
      assert out[k] in multiset(spans);
    }
    forall i | 0 <= i < |spans|
      ensures Covered(spans[i], out)
    {
      assert spans[i] in multiset(spans);
      assert spans[i] in multiset(ordered);
      var j :| 0 <= j < |ordered| && ordered[j] == spans[i];
      NotInEmpty(ordered[j]);
    }
    forall i, k, m | 0 <= i < |spans| && 0 <= k < |out| && 0 <= m < |out| && Within(spans[i], out[k]) && Within(spans[i], out[m])
      ensures k == m
    {
      OnlyOne(spans[i], out, k, m);
    }
    forall i, k | 0 <= i < |spans| && 0 <= k < |out| && Within(out[k], spans[i])
      ensures spans[i] == out[k]
    {
      Maximal(spans[i], out, k);
    }
  }

  lemma NotInEmpty(a: Span)
    requires a.start < a.end
    ensures !Within(a, Span(0, 0))
  {
  }

  lemma OnlyOne(a: Span, out: seq<Span>, k: nat, m: nat)
    requires SortedDisjoint(out) && k < |out| && m < |out| && a.start < a.end
    requires Within(a, out[k]) && Within(a, out[m])
    ensures k == m
  {
  }

  lemma Maximal(a: Span, out: seq<Span>, k: nat)
    requires SortedDisjoint(out) && k < |out| && out[k].start < out[k].end
    requires Covered(a, out) && Within(out[k], a)
    ensures a == out[k]
  {
    var m :| 0 <= m < |out| && Within(a, out[m]);
    OnlyOne(out[k], out, k, m);
  }

  // ----- One JSON object in a capture -----

  /** A walk over JSON text: inside a string, after a backslash, and how many braces are open. */
  datatype Walk = Walk(inString: bool, escape: bool, depth: nat)

  /** The walk after `t`, or nothing when a brace closes that was not opened in `t`. */
  function WalkOver(t: seq<byte>, w: Walk): Option<Walk>
    decreases |t|
  {
    if t == [] then Some(w)
    else
      var b := t[0];
      if w.inString then
        WalkOver(t[1..], if w.escape then w.(escape := false) else if b == BACKSLASH then w.(escape := true)
                         else if b == QUOTE then w.(inString := false) else w)
      else if b == QUOTE then WalkOver(t[1..], w.(inString := true))
      else if b == OPEN then WalkOver(t[1..], w.(depth := w.depth + 1))
      else if b == CLOSE then (if w.depth == 0 then None else WalkOver(t[1..], w.(depth := w.depth - 1)))
      else WalkOver(t[1..], w)
  }

  function Outside(depth: nat): Walk {
    Walk(false, false, depth)
  }

  /** Strings are closed and the braces outside them match, as inside every JSON object. */
  predicate Balanced(t: seq<byte>) {
    WalkOver(t, Outside(0)) == Some(Outside(0))
  }

  lemma {:induction false} WalkConcat(a: seq<byte>, b: seq<byte>, w: Walk)
    ensures WalkOver(a + b, w) == if WalkOver(a, w).None? then None else WalkOver(b, WalkOver(a, w).value)
    decreases |a|
  {
    if a == [] {
      assert a + b == b;
    } else {
      assert (a + b)[1..] == a[1..] + b;
      var c := a[0];
      WalkConcat(a[1..], b, if w.inString then (if w.escape then w.(escape := false) else if c == BACKSLASH then w.(escape := true)
                                                else if c == QUOTE then w.(inString := false) else w)
                            else if c == QUOTE then w.(inString := true)
                            else if c == OPEN then w.(depth := w.depth + 1)
                            else if c == CLOSE && w.depth > 0 then w.(depth := w.depth - 1) else w);
    }
  }

  /** The scan of text that walks keeps what was open before and only adds spans behind position `i`. */
  lemma {:induction false} ScanFollowsWalk(base: seq<nat>, open: seq<nat>, known: seq<Span>, w: Walk, t: seq<byte>,
                                           i: nat, from: nat) returns (open': seq<nat>, more: seq<Span>)
    requires |open| == w.depth && WalkOver(t, w).Some? && from <= i
    requires forall k :: 0 <= k < |open| ==> from <= open[k]
    ensures var v := WalkOver(t, w).value;
      && |open'| == v.depth && (forall k :: 0 <= k < |open'| ==> from <= open'[k])
      && ScanFrom(Scan(base + open, w.inString, w.escape, known), t, i)
          == Scan(base + open', v.inString, v.escape, known + more)
    ensures forall k :: 0 <= k < |more| ==> from <= more[k].start
    decreases |t|
  {
    if t == [] {
      open', more := open, [];
      assert known + [] == known;
      return;
    }
    var s := Scan(base + open, w.inString, w.escape, known);
    var b := t[0];
    if w.inString || (b != OPEN && b != CLOSE) {
      var n := if w.inString then (if w.escape then w.(escape := false) else if b == BACKSLASH then w.(escape := true)
                                   else if b == QUOTE then w.(inString := false) else w)
               else if b == QUOTE then w.(inString := true) else w;
      assert ScanStep(s, b, i) == Scan(base + open, n.inString, n.escape, known);
      open', more := ScanFollowsWalk(base, open, known, n, t[1..], i + 1, from);
    } else if b == OPEN {
      assert base + open + [i] == base + (open + [i]);
      open', more := ScanFollowsWalk(base, open + [i], known, w.(depth := w.depth + 1), t[1..], i + 1, from);
    } else {
      var top := open[|open| - 1];
      var x := Span(top, i + 1);
      assert (base + open)[..|base + open| - 1] == base + open[..|open| - 1];
      open', more := ScanFollowsWalk(base, open[..|open| - 1], known + [x], w.(depth := w.depth - 1), t[1..], i + 1, from);
      assert known + [x] + more == known + ([x] + more);
      more := [x] + more;
    }
  }

  predicate QuoteFree(t: seq<byte>) {
    QUOTE !in t
  }

  lemma {:induction false} QuoteFreeScan(s: Scan, t: seq<byte>, i: nat)
    requires QuoteFree(t) && !s.inString && !s.escape
    ensures !ScanFrom(s, t, i).inString && !ScanFrom(s, t, i).escape
    decreases |t|
  {
    if t != [] {
      QuoteFreeScan(ScanStep(s, t[0], i), t[1..], i + 1);
    }
  }

  predicate Plain(t: seq<byte>) {
    QUOTE !in t && OPEN !in t && CLOSE !in t
  }

  lemma {:induction false} PlainScan(s: Scan, t: seq<byte>, i: nat)
    requires Plain(t) && !s.inString
    ensures ScanFrom(s, t, i) == s
    decreases |t|
  {
    if t != [] {
      PlainScan(s, t[1..], i + 1);
    }
  }

  function Braces(t: seq<byte>): seq<byte> {
    [OPEN] + t + [CLOSE]
  }

  /** Scanning one object changes nothing but the list of matched pairs. */
  lemma ScanObject(s: Scan, t: seq<byte>, i: nat) returns (inside: seq<Span>)
    requires ScanInv(s, i) && !s.inString && !s.escape && Balanced(t)
    ensures ScanFrom(s, Braces(t), i) == s.(spans := s.spans + inside + [Span(i, i + |Braces(t)|)])
    ensures forall k :: 0 <= k < |inside| ==> i < inside[k].start && inside[k].end <= i + |Braces(t)|
  {
    hide ScanInv;
    var s1 := s.(stack := s.stack + [i]);
    assert ScanStep(s, OPEN, i) == s1;
    var open';
    assert s1.stack + [] == s1.stack;
    open', inside := ScanFollowsWalk(s1.stack, [], s.spans, Outside(0), t, i + 1, i + 1);
    assert s1.stack + open' == s1.stack;
    var s2 := Scan(s1.stack, false, false, s.spans + inside);
    assert ScanFrom(s1, t, i + 1) == s2;
    InsideBound(s, s1, t, i, s2, inside);
    assert Braces(t) == [OPEN] + (t + [CLOSE]);
    assert ([OPEN] + (t + [CLOSE]))[1..] == t + [CLOSE];
    ScanConcat(s1, t, [CLOSE], i + 1);
    assert s2.stack[..|s2.stack| - 1] == s.stack;
    assert [CLOSE][1..] == [];
  }

  lemma InsideBound(s: Scan, s1: Scan, t: seq<byte>, i: nat, s2: Scan, inside: seq<Span>)
    requires ScanInv(s, i) && !s.inString && s1 == ScanStep(s, OPEN, i) && s2 == ScanFrom(s1, t, i + 1)
    requires s2.spans == s.spans + inside
    ensures forall k :: 0 <= k < |inside| ==> inside[k].end <= i + 1 + |t|
  {
    hide ScanStep, ScanFrom, Laminar;
    ScanStepKeeps(s, OPEN, i);
    ScanKeeps(s1, t, i + 1);
    assert forall k :: 0 <= k < |inside| ==> inside[k] == s2.spans[|s.spans| + k];
  }

  /** The matched pairs of a capture that holds one object: those before it, the ones inside it, and itself. */
  lemma MatchedAroundObject(pre: seq<byte>, t: seq<byte>, post: seq<byte>) returns (before: seq<Span>,
                            inside: seq<Span>)
    requires QuoteFree(pre) && Balanced(t) && Plain(post)
    ensures Matched(pre + Braces(t) + post) == before + inside + [Span(|pre|, |pre| + |Braces(t)|)]
    ensures forall k :: 0 <= k < |before| ==> before[k].end <= |pre|
    ensures forall k :: 0 <= k < |inside| ==> |pre| < inside[k].start && inside[k].end <= |pre| + |Braces(t)|
  {
    hide *;
    var s0 := ScanFrom(FRESH, pre, 0);
    ScanOfPrefix(pre);
    before := s0.spans;
    inside := ScanObject(s0, t, |pre|);
    Cut3(pre, Braces(t), post);
    ScanConcat(FRESH, pre, Braces(t) + post, 0);
    ScanConcat(s0, Braces(t), post, |pre|);
    PlainScan(ScanFrom(s0, Braces(t), |pre|), post, |pre| + |Braces(t)|);
    MatchedIs(pre + Braces(t) + post);
  }

  lemma Cut3<T>(a: seq<T>, b: seq<T>, c: seq<T>)
    ensures a + b + c == a + (b + c)
  {
  }

  lemma MatchedIs(bytes: seq<byte>)
    ensures Matched(bytes) == ScanFrom(FRESH, bytes, 0).spans
  {
  }

  lemma ScanOfPrefix(pre: seq<byte>)
    requires QuoteFree(pre)
    ensures var s := ScanFrom(FRESH, pre, 0);
      ScanInv(s, |pre|) && !s.inString && !s.escape && forall k :: 0 <= k < |s.spans| ==> s.spans[k].end <= |pre|
  {
    hide ScanFrom;
    QuoteFreeScan(FRESH, pre, 0);
    ScanKeeps(FRESH, pre, 0);
  }

  /**
   An object after quote-free text, even with unmatched braces in it, and before text without quotes and
   braces, is one of the returned spans; all the others end before it.
   */
  lemma ObjectIsFound(pre: seq<byte>, t: seq<byte>, post: seq<byte>) returns (k: nat)
    requires QuoteFree(pre) && Balanced(t) && Plain(post)
    ensures var out := Outermost(Matched(pre + Braces(t) + post));
      && k == |out| - 1 && out[k] == Span(|pre|, |pre| + |Braces(t)|)
      && forall m :: 0 <= m < k ==> out[m].end <= |pre|
  {
    hide Outermost, Matched, Sort, Braces, Balanced, Laminar, QuoteFree, Plain;
    var capture := pre + Braces(t) + post;
    var spans, out := Matched(capture), Outermost(Matched(capture));
    var before, inside := MatchedAroundObject(pre, t, post);
    OutermostIsOutermost(capture);
    BracesLength(t);
    k := ObjectIsLast(spans, out, before, inside, Span(|pre|, |pre| + |Braces(t)|));
  }

  lemma BracesLength(t: seq<byte>)
    ensures |Braces(t)| >= 2
  {
  }

  lemma ObjectIsLast(spans: seq<Span>, out: seq<Span>, before: seq<Span>, inside: seq<Span>, x: Span) returns (k: nat)
    requires spans == before + inside + [x] && x.start < x.end && SortedDisjoint(out)
    requires forall i :: 0 <= i < |before| ==> before[i].end <= x.start
    requires forall i :: 0 <= i < |inside| ==> x.start < inside[i].start && inside[i].end <= x.end
    requires forall i :: 0 <= i < |out| ==> out[i] in spans && out[i].start < out[i].end
    requires forall i :: 0 <= i < |spans| ==> Covered(spans[i], out)
    ensures k == |out| - 1 && out[k] == x
    ensures forall m :: 0 <= m < k ==> out[m].end <= x.start
  {
    assert spans[|spans| - 1] == x;
    assert Covered(x, out);
    k :| 0 <= k < |out| && Within(x, out[k]);
    forall i | 0 <= i < |out|
      ensures out[i].end <= x.end && (out[i].end <= x.start || x.start < out[i].start || out[i] == x)
    {
      WhichSpan(out[i], before, inside, x);
    }
    var l := out[|out| - 1];
    assert l.start < l.end <= x.end;
  }

  lemma WhichSpan(a: Span, before: seq<Span>, inside: seq<Span>, x: Span)
    requires a in before + inside + [x]
    requires forall i :: 0 <= i < |before| ==> before[i].end <= x.start
    requires forall i :: 0 <= i < |inside| ==> x.start < inside[i].start && inside[i].end <= x.end
    requires x.start < x.end
    ensures a.end <= x.end && (a.end <= x.start || x.start < a.start || a == x)
  {
  }
}
