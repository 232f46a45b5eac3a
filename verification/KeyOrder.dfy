/**
 The order in which the two printers list the keys of an object. The enclave sorts them by scalar value. The
 verifier sorts them by UTF-16 code units and puts them into a new object, which lists array indices first and
 never lists the key `__proto__`, since assigning it sets the prototype.
 */
module KeyOrder {
  import opened Bytes
  import opened Decimals
  import opened Json
  import Sorting

  datatype Printer = Enclave | Verifier

  // ----- UTF-16 order -----

  /** The code units of one character. */
  function Units(c: char): (u: seq<int>)
    ensures u != []
  {
    var n := c as int;
    if n < 0x1_0000 then [n] else [0xD800 + (n - 0x1_0000) / 0x400, 0xDC00 + (n - 0x1_0000) % 0x400]
  }

  function Utf16(s: string): seq<int> {
    if s == "" then [] else Units(s[0]) + Utf16(s[1..])
  }

  /** The comparison of `Array.prototype.sort` on strings. */
  predicate UnitsLe(a: seq<int>, b: seq<int>) {
    a == [] || (b != [] && (a[0] < b[0] || (a[0] == b[0] && UnitsLe(a[1..], b[1..]))))
  }

  /** A permutation of the characters that turns the order of code units into that of scalar values. */
  function Moved(c: char): char {
    var n := c as int;
    if n < 0xD800 then c else if n >= 0x1_0000 then (n - 0x2000) as char else (n + 0x10_0000) as char
  }

  function Back(c: char): (d: char)
    ensures Moved(d) == c
  {
    var n := c as int;
    if n < 0xD800 then c else if n < 0x10_E000 then (n + 0x2000) as char else (n - 0x10_0000) as char
  }

  function MovedAll(s: string): (t: string)
    ensures |t| == |s|
  {
    seq(|s|, i requires 0 <= i < |s| => Moved(s[i]))
  }

  function BackAll(s: string): (t: string)
    ensures |t| == |s| && MovedAll(t) == s
  {
    seq(|s|, i requires 0 <= i < |s| => Back(s[i]))
  }

  lemma MovedUnique(a: string, b: string)
    requires MovedAll(a) == MovedAll(b)
    ensures a == b
  {
    assert |a| == |b|;
    forall i | 0 <= i < |a|
      ensures a[i] == b[i]
    {
      assert MovedAll(a)[i] == MovedAll(b)[i];
    }
  }

  lemma UnitsOrder(c: char, d: char, x: seq<int>, y: seq<int>)
    ensures UnitsLe(Units(c) + x, Units(d) + y) <==> Moved(c) < Moved(d) || (c == d && UnitsLe(x, y))
  {
    var u, v := Units(c), Units(d);
    var a, b := u + x, v + y;
    assert a[0] == u[0] && b[0] == v[0];
    if |u| == 2 {
      assert a[1..][0] == u[1] && a[1..][1..] == x;
    } else {
      assert a[1..] == x;
    }
    if |v| == 2 {
      assert b[1..][0] == v[1] && b[1..][1..] == y;
    } else {
      assert b[1..] == y;
    }
    if |u| == 2 && |v| == 2 {
      Split(c as int - 0x1_0000);
      Split(d as int - 0x1_0000);
      assert UnitsLe(a, b) <==> a[0] < b[0] || (a[0] == b[0] && UnitsLe(a[1..], b[1..]));
    }
  }

  lemma Split(n: int)
    requires n >= 0
    ensures n == n / 0x400 * 0x400 + n % 0x400
  {
  }

  /** Moving the characters turns the one order into the other. */
  lemma {:induction false} MovedOrder(a: string, b: string)
    ensures UnitsLe(Utf16(a), Utf16(b)) <==> Sorting.StrLe(MovedAll(a), MovedAll(b))
    decreases |a|
  {
    hide Moved, Units;
    if a != "" && b != "" {
      UnitsOrder(a[0], b[0], Utf16(a[1..]), Utf16(b[1..]));
      MovedOrder(a[1..], b[1..]);
      assert MovedAll(a)[1..] == MovedAll(a[1..]) && MovedAll(b)[1..] == MovedAll(b[1..]);
      MovedCharUnique(a[0], b[0]);
    }
  }

  lemma MovedCharUnique(c: char, d: char)
    ensures Moved(c) == Moved(d) <==> c == d
  {
  }

  // ----- The two orders -----

  /** An array index, which an object lists before all other keys. */
  predicate IsIndex(k: string) {
    k != "" && AllDigits(k) && DecimalValue(k) < 0xFFFF_FFFF && Digits(DecimalValue(k)) == k
  }

  /** That is the decimal numeral of a number below 2^32 - 1. */
  lemma IndexIff(k: string)
    ensures IsIndex(k) <==> exists n: nat :: n < 0xFFFF_FFFF && k == Digits(n)
  {
    forall n: nat | k == Digits(n)
      ensures AllDigits(k) && DecimalValue(k) == n
    {
      DigitsValue(n);
    }
    if IsIndex(k) {
      assert k == Digits(DecimalValue(k));
    }
  }

  function Indices(s: set<string>): set<int> {
    set k | k in s && IsIndex(k) :: DecimalValue(k)
  }

  function Names(s: set<string>): set<string> {
    set k | k in s && !IsIndex(k) && k != PROTO :: MovedAll(k)
  }

  function IndexKeys(s: set<string>): (ks: seq<string>)
    ensures forall k :: k in ks <==> k in s && IsIndex(k)
  {
    var ns := Sorting.SortedInts(Indices(s));
    assert forall i :: 0 <= i < |ns| ==> ns[i] in Indices(s);
    var ks := seq(|ns|, i requires 0 <= i < |ns| => Digits(ns[i]));
    IndexKeysAre(s, ns, ks);
    ks
  }

  lemma IndexKeysAre(s: set<string>, ns: seq<int>, ks: seq<string>)
    requires forall n :: n in ns <==> n in Indices(s)
    requires |ks| == |ns| && forall i :: 0 <= i < |ns| ==> ns[i] >= 0 && ks[i] == Digits(ns[i])
    ensures forall k :: k in ks <==> k in s && IsIndex(k)
  {
    forall k | k in ks
      ensures k in s && IsIndex(k)
    {
      var i :| 0 <= i < |ks| && ks[i] == k;
      assert ns[i] in Indices(s);
      var j :| j in s && IsIndex(j) && DecimalValue(j) == ns[i];
    }
    forall k | k in s && IsIndex(k)
      ensures k in ks
    {
      assert DecimalValue(k) in Indices(s);
      var i :| 0 <= i < |ns| && ns[i] == DecimalValue(k);
      assert ks[i] == k;
    }
  }

  function NameKeys(s: set<string>): (ks: seq<string>)
    ensures forall k :: k in ks <==> k in s && !IsIndex(k) && k != PROTO
  {
    var ms := Sorting.SortedKeys(Names(s));
    var ks := seq(|ms|, i requires 0 <= i < |ms| => BackAll(ms[i]));
    NameKeysAre(s, ms, ks);
    ks
  }

  lemma NameKeysAre(s: set<string>, ms: seq<string>, ks: seq<string>)
    requires forall m :: m in ms <==> m in Names(s)
    requires |ks| == |ms| && forall i :: 0 <= i < |ms| ==> ks[i] == BackAll(ms[i])
    ensures forall k :: k in ks <==> k in s && !IsIndex(k) && k != PROTO
  {
    hide IsIndex;
    forall k | k in ks
      ensures k in s && !IsIndex(k) && k != PROTO
    {
      var i :| 0 <= i < |ks| && ks[i] == k;
      assert ms[i] in Names(s);
      var j :| j in s && !IsIndex(j) && j != PROTO && MovedAll(j) == ms[i];
      MovedUnique(j, k);
    }
    forall k | k in s && !IsIndex(k) && k != PROTO
      ensures k in ks
    {
      assert MovedAll(k) in Names(s);
      var i :| 0 <= i < |ms| && ms[i] == MovedAll(k);
      MovedUnique(k, ks[i]);
    }
  }

  lemma ProtoIsNoIndex()
    ensures !IsIndex(PROTO)
  {
    assert PROTO[0] == '_';
  }

  /** `Object.keys(value).sort()`, assigned to a new object and listed again. */
  function VerifierKeys(s: set<string>): (ks: seq<string>)
    ensures forall k :: k in ks <==> k in s && k != PROTO
  {
    ProtoIsNoIndex();
    IndexKeys(s) + NameKeys(s)
  }

  function Keys(q: Printer, s: set<string>): (ks: seq<string>)
    ensures forall k :: k in ks <==> k in s && (q.Enclave? || k != PROTO)
  {
    if q.Enclave? then Sorting.SortedKeys(s) else VerifierKeys(s)
  }

  /** Dropping the lost key changes nothing. */
  lemma KeysDrop(s: set<string>)
    ensures Keys(Verifier, s - {PROTO}) == Keys(Verifier, s)
  {
    hide IsIndex, MovedAll;
    ProtoIsNoIndex();
    assert Indices(s - {PROTO}) == Indices(s);
    assert Names(s - {PROTO}) == Names(s);
  }

  /** The order of the verifier's listing: array indices first, as numbers, then by code units. */
  predicate Before(a: string, b: string) {
    if IsIndex(a) then IsIndex(b) ==> DecimalValue(a) <= DecimalValue(b)
    else !IsIndex(b) && UnitsLe(Utf16(a), Utf16(b))
  }

  lemma UnitsTotal(a: string, b: string)
    ensures UnitsLe(Utf16(a), Utf16(a))
    ensures UnitsLe(Utf16(a), Utf16(b)) && UnitsLe(Utf16(b), Utf16(a)) ==> a == b
  {
    hide MovedAll;
    MovedOrder(a, a);
    MovedOrder(a, b);
    MovedOrder(b, a);
    Sorting.StrLeTotal(MovedAll(a), MovedAll(b));
    if MovedAll(a) == MovedAll(b) {
      MovedUnique(a, b);
    }
  }

  lemma NamesAscend(s: set<string>, i: nat, j: nat)
    requires i < j < |NameKeys(s)|
    ensures Before(NameKeys(s)[i], NameKeys(s)[j]) && !Before(NameKeys(s)[j], NameKeys(s)[i])
  {
    hide MovedAll, BackAll, IsIndex;
    var ms := Sorting.SortedKeys(Names(s));
    var a, b := NameKeys(s)[i], NameKeys(s)[j];
    assert a in NameKeys(s) && b in NameKeys(s);
    MovedOrder(a, b);
    assert MovedAll(a) == ms[i] && MovedAll(b) == ms[j];
    UnitsTotal(a, b);
  }

  lemma IndicesAscend(s: set<string>, i: nat, j: nat)
    requires i < j < |IndexKeys(s)|
    ensures Before(IndexKeys(s)[i], IndexKeys(s)[j]) && !Before(IndexKeys(s)[j], IndexKeys(s)[i])
  {
    hide Digits, DecimalValue, Sorting.SortedInts;
    var ns := Sorting.SortedInts(Indices(s));
    var a, b := IndexKeys(s)[i], IndexKeys(s)[j];
    assert a in IndexKeys(s) && b in IndexKeys(s);
    assert ns[i] in Indices(s) && ns[j] in Indices(s);
    assert a == Digits(ns[i]) && b == Digits(ns[j]);
    DigitsValue(ns[i]);
    DigitsValue(ns[j]);
  }

  /** The verifier's listing is strictly ascending in that order. */
  lemma KeysAscend(s: set<string>, i: nat, j: nat)
    requires i < j < |Keys(Verifier, s)|
    ensures Before(Keys(Verifier, s)[i], Keys(Verifier, s)[j]) && !Before(Keys(Verifier, s)[j], Keys(Verifier, s)[i])
  {
    hide IsIndex, IndexKeys, NameKeys, UnitsLe, Utf16, DecimalValue;
    var n, m := |IndexKeys(s)|, |NameKeys(s)|;
    if j < n {
      IndicesAscend(s, i, j);
    } else if n <= i {
      NamesAscend(s, i - n, j - n);
    } else {
      assert IndexKeys(s)[i] in IndexKeys(s) && NameKeys(s)[j - n] in NameKeys(s);
    }
  }

  // ----- When they agree -----

  /** No key is lost, and both orders rank every two of the keys alike. */
  predicate Alike(s: set<string>) {
    PROTO !in s && forall a, b :: a in s && b in s ==> (Before(a, b) <==> Sorting.StrLe(a, b))
  }

  /** A set of keys has the same listing on both sides exactly when it is alike. */
  lemma OrdersAgreeIff(s: set<string>)
    ensures Keys(Verifier, s) == Keys(Enclave, s) <==> Alike(s)
  {
    hide Before, Sorting.StrLe, VerifierKeys, Sorting.SortedKeys;
    var ks, ls := Keys(Verifier, s), Keys(Enclave, s);
    if ks == ls {
      assert forall k :: k in ls ==> k in ks;
      forall a, b | a in s && b in s
        ensures Before(a, b) <==> Sorting.StrLe(a, b)
      {
        var i :| 0 <= i < |ls| && ls[i] == a;
        var j :| 0 <= j < |ls| && ls[j] == b;
        SamePair(s, i, j);
      }
      assert PROTO !in ks;
    }
    if Alike(s) {
      forall i, j | 0 <= i < j < |ks|
        ensures Sorting.StrLe(ks[i], ks[j]) && ks[i] != ks[j]
      {
        KeysAscend(s, i, j);
        assert ks[i] in s && ks[j] in s;
      }
      Sorting.SortedUnique(ks, ls);
    }
  }

  lemma SamePair(s: set<string>, i: nat, j: nat)
    requires Keys(Verifier, s) == Keys(Enclave, s) && i < |Keys(Enclave, s)| && j < |Keys(Enclave, s)|
    ensures var ls := Keys(Enclave, s); Before(ls[i], ls[j]) <==> Sorting.StrLe(ls[i], ls[j])
  {
    hide UnitsLe, Utf16, IsIndex, DecimalValue, Sorting.StrLe, VerifierKeys, Sorting.SortedKeys;
    var ls := Keys(Enclave, s);
    Sorting.StrLeTotal(ls[i], ls[j]);
    UnitsTotal(ls[i], ls[i]);
    if i < j {
      KeysAscend(s, i, j);
    } else if j < i {
      KeysAscend(s, j, i);
    }
  }

  /** A key both sides treat alike whatever stands beside it: no array index, no character whose place differs. */
  predicate Ordinary(k: string) {
    !IsIndex(k) && k != PROTO && forall i :: 0 <= i < |k| ==> k[i] as int < 0xD800
  }

  lemma OrdinaryAlike(s: set<string>)
    requires forall k :: k in s ==> Ordinary(k)
    ensures Alike(s)
  {
    hide IsIndex, UnitsLe, Utf16, Sorting.StrLe;
    forall a, b | a in s && b in s
      ensures Before(a, b) <==> Sorting.StrLe(a, b)
    {
      assert MovedAll(a) == a && MovedAll(b) == b;
      MovedOrder(a, b);
    }
  }

  /** So has a single key, unless it is lost. */
  lemma SingleAlike(k: string)
    ensures Alike({k}) <==> k != PROTO
  {
    hide UnitsLe, Utf16, IsIndex, DecimalValue, Sorting.StrLe;
    Sorting.StrLeTotal(k, k);
    UnitsTotal(k, k);
  }

  lemma TwoOf<T>(ks: seq<T>, a: T, b: T)
    requires a != b && forall k :: k in ks <==> k == a || k == b
    requires |ks| == 2
    ensures ks == [a, b] || ks == [b, a]
  {
    assert a in ks && b in ks;
    assert ks[0] in ks && ks[1] in ks;
  }

  lemma SortedPair(a: string, b: string)
    requires a != b && !Sorting.StrLe(b, a)
    ensures Keys(Enclave, {a, b}) == [a, b]
  {
    hide Sorting.StrLe, Sorting.SortedKeys;
    TwoOf(Sorting.SortedKeys({a, b}), a, b);
  }

  lemma IndexPair(a: string, b: string)
    requires IsIndex(a) && IsIndex(b) && DecimalValue(a) < DecimalValue(b)
    ensures Keys(Verifier, {a, b}) == [a, b]
  {
    hide Sorting.SortedInts, Digits, BackAll;
    var s := {a, b};
    assert NameKeys(s) == [] by {
      Sorting.FirstIsIn(NameKeys(s));
    }
    var ns := Sorting.SortedInts(Indices(s));
    assert Indices(s) == {DecimalValue(a), DecimalValue(b)};
    TwoOf(ns, DecimalValue(a), DecimalValue(b));
    assert ns[0] < ns[1];
    assert ns == [DecimalValue(a), DecimalValue(b)];
    assert IndexKeys(s) == [a, b];
  }

  /** Numeric keys are listed as text by the enclave and as numbers by the verifier. */
  lemma OrdersDiffer()
    ensures Keys(Enclave, {"10", "9"}) == ["10", "9"] && Keys(Verifier, {"9", "10"}) == ["9", "10"]
  {
    hide Sorting.SortedKeys, VerifierKeys, IsIndex, DecimalValue;
    NumericKeys();
    assert "10"[0] == '1' && "9"[0] == '9';
    assert !Sorting.StrLe("9", "10");
    SortedPair("10", "9");
    IndexPair("9", "10");
  }

  lemma NumericKeys()
    ensures IsIndex("9") && DecimalValue("9") == 9 && Digits(9) == "9"
    ensures IsIndex("10") && DecimalValue("10") == 10 && Digits(10) == "10"
  {
    assert "9"[..0] == "" && "10"[..1] == "1" && "1"[..0] == "";
    assert Digits(10) == Digits(1) + ['0'];
    assert DecimalValue("1") == 1;
  }
}
