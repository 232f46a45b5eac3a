/** Ascending enumeration of finite sets of integers (`BTreeMap` order) and of strings (`sort`). */
module Sorting {
  lemma Inhabited<T>(s: set<T>) returns (x: T)
    requires s != {}
    ensures x in s
  {
    x :| x in s;
  }

  lemma {:induction false} LeastIntExists(s: set<int>)
    requires s != {}
    ensures exists m :: m in s && forall k :: k in s ==> m <= k
  {
    var x := Inhabited(s);
    var rest := s - {x};
    if rest == {} {
      assert s == {x};
      assert x in s && forall k :: k in s ==> x <= k;
    } else {
      LeastIntExists(rest);
      var m :| m in rest && forall k :: k in rest ==> m <= k;
      var least := if x <= m then x else m;
      assert forall k :: k in s ==> k == x || k in rest;
      assert least in s && forall k :: k in s ==> least <= k;
    }
  }

  function LeastInt(s: set<int>): (m: int)
    requires s != {}
    ensures m in s && forall k :: k in s ==> m <= k
  {
    LeastIntExists(s);
    var m :| m in s && forall k :: k in s ==> m <= k;
    m
  }

  lemma WithFirst<T>(s: set<T>, m: T, rest: seq<T>)
    requires m in s && forall k :: k in rest <==> k in s - {m}
    ensures forall i :: 0 <= i < |rest| ==> rest[i] in s && rest[i] != m
    ensures forall k :: k in [m] + rest <==> k in s
    ensures |s - {m}| == |s| - 1
  {
    forall i | 0 <= i < |rest|
      ensures rest[i] in s && rest[i] != m
    {
      assert rest[i] in s - {m};
    }
  }

  predicate Ascending(ks: seq<int>) {
    forall i, j :: 0 <= i < j < |ks| ==> ks[i] < ks[j]
  }

  lemma PrependAscending(m: int, rest: seq<int>)
    requires Ascending(rest) && forall i :: 0 <= i < |rest| ==> m < rest[i]
    ensures Ascending([m] + rest)
  {
  }

  function SortedInts(s: set<int>): (ks: seq<int>)
    ensures |ks| == |s|
    ensures forall k :: k in ks <==> k in s
    ensures Ascending(ks)
  {
    if s == {} then [] else
      var m := LeastInt(s);
      WithFirst(s, m, SortedInts(s - {m}));
      var rest := SortedInts(s - {m});
      PrependAscending(m, rest);
      [m] + rest
  }

  /** Lexicographic order by scalar value, which is also the order of the UTF-8 forms. */
  predicate StrLe(a: string, b: string) {
    a == "" || (b != "" && (a[0] < b[0] || (a[0] == b[0] && StrLe(a[1..], b[1..]))))
  }

  lemma {:induction false} StrLeTotal(a: string, b: string)
    ensures StrLe(a, a)
    ensures StrLe(a, b) || StrLe(b, a)
    ensures StrLe(a, b) && StrLe(b, a) ==> a == b
  {
    if a != "" {
      StrLeTotal(a[1..], if b == "" then "" else b[1..]);
      if b != "" {
        assert a == [a[0]] + a[1..] && b == [b[0]] + b[1..];
      }
    }
  }

  lemma {:induction false} StrLeTrans(a: string, b: string, c: string)
    requires StrLe(a, b) && StrLe(b, c)
    ensures StrLe(a, c)
  {
    if a != "" && a[0] == b[0] && b[0] == c[0] {
      StrLeTrans(a[1..], b[1..], c[1..]);
    }
  }

  lemma {:induction false} LeastStrExists(s: set<string>)
    requires s != {}
    ensures exists m :: m in s && forall k :: k in s ==> StrLe(m, k)
  {
    var x := Inhabited(s);
    var rest := s - {x};
    StrLeTotal(x, x);
    if rest != {} {
      LeastStrExists(rest);
      var m :| m in rest && forall k :: k in rest ==> StrLe(m, k);
      StrLeTotal(x, m);
      var least := if StrLe(x, m) then x else m;
      forall k | k in s
        ensures StrLe(least, k)
      {
        if k != x && StrLe(x, m) {
          StrLeTrans(x, m, k);
        }
      }
      assert least in s;
    } else {
      assert s == {x};
    }
  }

  predicate SortedStrs(ks: seq<string>) {
    forall i, j :: 0 <= i < j < |ks| ==> StrLe(ks[i], ks[j]) && ks[i] != ks[j]
  }

  lemma PrependSorted(m: string, rest: seq<string>)
    requires SortedStrs(rest) && forall i :: 0 <= i < |rest| ==> StrLe(m, rest[i]) && m != rest[i]
    ensures SortedStrs([m] + rest)
  {
    hide StrLe;
  }

  lemma LeastStrUnique(s: set<string>)
    ensures forall a, b | a in s && b in s && StrLe(a, b) && StrLe(b, a) :: a == b
  {
    forall a, b | a in s && b in s && StrLe(a, b) && StrLe(b, a)
      ensures a == b
    {
      StrLeTotal(a, b);
    }
  }

  function LeastStr(s: set<string>): (m: string)
    requires s != {}
    ensures m in s && forall k :: k in s ==> StrLe(m, k)
  {
    LeastStrExists(s);
    LeastStrUnique(s);
    var m :| m in s && forall k :: k in s ==> StrLe(m, k);
    m
  }

  /** `keys.sort()` on the keys of a map. */
  function SortedKeys(s: set<string>): (ks: seq<string>)
    ensures |ks| == |s|
    ensures forall k :: k in ks <==> k in s
    ensures SortedStrs(ks)
  {
    if s == {} then [] else
      var m := LeastStr(s);
      WithFirst(s, m, SortedKeys(s - {m}));
      var rest := SortedKeys(s - {m});
      PrependSorted(m, rest);
      [m] + rest
  }

  lemma FirstIsIn<T>(ks: seq<T>)
    ensures ks != [] ==> ks[0] in ks
  {
  }

  /** There is one sorted listing of the same keys. */
  lemma {:induction false} SortedUnique(ks: seq<string>, ls: seq<string>)
    requires SortedStrs(ks) && SortedStrs(ls) && forall k :: k in ks <==> k in ls
    ensures ks == ls
    decreases |ks|
  {
    hide StrLe;
    FirstIsIn(ks);
    FirstIsIn(ls);
    if ks != [] {
      assert ks[0] in ls && ls[0] in ks;
      StrLeTotal(ks[0], ls[0]);
      assert ks[0] == ls[0];
      assert forall k :: k in ks[1..] <==> k in ks && k != ks[0];
      assert forall k :: k in ls[1..] <==> k in ls && k != ls[0];
      SortedUnique(ks[1..], ls[1..]);
      assert ks == [ks[0]] + ks[1..] && ls == [ls[0]] + ls[1..];
    }
  }
}
