/**
 The canonical form a report is signed in: the keys of every JSON object sorted, at every depth,
 and array order left alone. Objects are unordered and arrays are ordered (sections 4 and 5 of
 RFC 8259); a parsed object holds each key once.
 */
module Signing {
  import opened Wrappers
  import opened Ordering

  datatype Json =
    | Null
    | Bool(b: bool)
    | Number(literal: string)
    | String(s: string)
    | Array(items: seq<Json>)
    | Object(members: seq<Member>)

  datatype Member = Member(key: string, value: Json)

  ghost predicate DistinctKeys(ms: seq<Member>) {
    forall i, j :: 0 <= i < j < |ms| ==> ms[i].key != ms[j].key
  }

  ghost predicate WellFormed(v: Json)
    decreases v
  {
    match v
    case Array(items) => forall i :: 0 <= i < |items| ==> WellFormed(items[i])
    case Object(ms) => DistinctKeys(ms) && forall i :: 0 <= i < |ms| ==> WellFormed(ms[i].value)
    case _ => true
  }

  predicate HasKey(ms: seq<Member>, key: string) { exists i :: 0 <= i < |ms| && ms[i].key == key }

  /** Member access. */
  function Get(ms: seq<Member>, key: string): Option<Json> {
    if ms == [] then None
    else if ms[0].key == key then Some(ms[0].value)
    else Get(ms[1..], key)
  }

  /** Inserting into a map that iterates in key order. */
  function Insert(ms: seq<Member>, m: Member): seq<Member> {
    if ms == [] then [m]
    else if m.key == ms[0].key then [m] + ms[1..]
    else if Less(m.key, ms[0].key) then [m] + ms
    else [ms[0]] + Insert(ms[1..], m)
  }

  function Canon(v: Json): Json
    decreases v, 1
  {
    match v
    case Array(items) => Array(CanonItems(items))
    case Object(ms) => Object(CanonMembers(ms))
    case _ => v
  }

  function CanonItems(items: seq<Json>): (r: seq<Json>)
    ensures |r| == |items|
    decreases items, 0
  {
    if items == [] then [] else CanonItems(items[..|items| - 1]) + [Canon(items[|items| - 1])]
  }

  function CanonMembers(ms: seq<Member>): seq<Member>
    decreases ms, 0
  {
    if ms == [] then []
    else
      var last := ms[|ms| - 1];
      Insert(CanonMembers(ms[..|ms| - 1]), Member(last.key, Canon(last.value)))
  }

  /** The recursive walk: each object is rebuilt from a sorted map, each array item by item. */
  method SortObjectKeys(v: Json) returns (r: Json)
    ensures r == Canon(v)
    decreases v
  {
    match v {
      case Object(ms) =>
        var sorted: seq<Member> := [];
        for i := 0 to |ms|
          invariant sorted == CanonMembers(ms[..i])
        {
          var value := SortObjectKeys(ms[i].value);
          assert ms[..i + 1][..i] == ms[..i];
          sorted := Insert(sorted, Member(ms[i].key, value));
        }
        assert ms[..|ms|] == ms;
        r := Object(sorted);
      case Array(items) =>
        var walked: seq<Json> := [];
        for i := 0 to |items|
          invariant walked == CanonItems(items[..i])
        {
          var item := SortObjectKeys(items[i]);
          assert items[..i + 1][..i] == items[..i];
          walked := walked + [item];
        }
        assert items[..|items|] == items;
        r := Array(walked);
      case _ =>
        r := v;
    }
  }

  // ---- The order-free reading of a value

  /** Equal up to the order of object keys, at every depth. */
  ghost predicate Same(a: Json, b: Json)
    decreases a
  {
    match a
    case Array(items) =>
      b.Array? && |items| == |b.items| && forall i :: 0 <= i < |items| ==> Same(items[i], b.items[i])
    case Object(ms) =>
      && b.Object?
      && (forall i :: 0 <= i < |ms| ==>
            Get(b.members, ms[i].key).Some? && Same(ms[i].value, Get(b.members, ms[i].key).value))
      && (forall i :: 0 <= i < |b.members| ==> HasKey(ms, b.members[i].key))
    case _ => a == b
  }

  // ---- Sorted members

  ghost predicate Sorted(ms: seq<Member>) {
    forall i, j :: 0 <= i < j < |ms| ==> Less(ms[i].key, ms[j].key)
  }

  lemma {:induction false} GetFinds(ms: seq<Member>, key: string)
    ensures Get(ms, key).Some? <==> HasKey(ms, key)
    ensures Get(ms, key).Some? ==> exists i :: 0 <= i < |ms| && ms[i] == Member(key, Get(ms, key).value)
    decreases |ms|
  {
    if ms != [] {
      GetFinds(ms[1..], key);
      if ms[0].key == key {
        assert ms[0] == Member(key, ms[0].value);
      } else {
        if HasKey(ms[1..], key) {
          var i :| 0 <= i < |ms| - 1 && ms[1..][i] == Member(key, Get(ms, key).value);
          assert ms[i + 1] == ms[1..][i];
        }
        assert forall i :: 1 <= i < |ms| ==> ms[i] == ms[1..][i - 1];
      }
    }
  }

  lemma {:induction false} GetAt(ms: seq<Member>, i: nat)
    requires DistinctKeys(ms) && i < |ms|
    ensures Get(ms, ms[i].key) == Some(ms[i].value)
    decreases |ms|
  {
    if i > 0 {
      GetAt(ms[1..], i - 1);
    }
  }

  lemma {:induction false} InsertGet(ms: seq<Member>, m: Member, key: string)
    ensures Get(Insert(ms, m), key) == if key == m.key then Some(m.value) else Get(ms, key)
    decreases |ms|
  {
    if ms != [] && m.key != ms[0].key && !Less(m.key, ms[0].key) {
      InsertGet(ms[1..], m, key);
      assert Insert(ms, m)[1..] == Insert(ms[1..], m);
    } else if ms != [] && m.key == ms[0].key {
      assert Insert(ms, m)[1..] == ms[1..];
    } else {
      assert Insert(ms, m)[1..] == ms;
    }
  }

  lemma {:induction false} InsertKeepsSorted(ms: seq<Member>, m: Member)
    requires Sorted(ms)
    ensures Sorted(Insert(ms, m))
    ensures forall i :: 0 <= i < |Insert(ms, m)| ==> Insert(ms, m)[i] == m || Insert(ms, m)[i] in ms
    decreases |ms|
  {
    if ms == [] {
    } else if m.key == ms[0].key {
    } else if Less(m.key, ms[0].key) {
      forall j | 1 <= j < |ms| ensures Less(m.key, ms[j].key) {
        LessTransitive(m.key, ms[0].key, ms[j].key);
      }
    } else {
      LessTotal(m.key, ms[0].key);
      InsertKeepsSorted(ms[1..], m);
      var r := Insert(ms[1..], m);
      forall j | 0 <= j < |r| ensures Less(ms[0].key, r[j].key) && (r[j] == m || r[j] in ms) {
        if r[j] != m {
          var k :| 0 <= k < |ms| - 1 && ms[1..][k] == r[j];
          assert ms[k + 1] == r[j];
        }
      }
    }
  }

  lemma {:induction false} CanonMembersFacts(ms: seq<Member>, key: string)
    requires DistinctKeys(ms)
    ensures Sorted(CanonMembers(ms))
    ensures Get(CanonMembers(ms), key)
         == match Get(ms, key) case Some(v) => Some(Canon(v)) case None => None
    decreases |ms|
  {
    if ms != [] {
      var n := |ms| - 1;
      var m := Member(ms[n].key, Canon(ms[n].value));
      CanonMembersFacts(ms[..n], key);
      InsertKeepsSorted(CanonMembers(ms[..n]), m);
      InsertGet(CanonMembers(ms[..n]), m, key);
      GetAppend(ms[..n], ms[n], key);
      assert ms == ms[..n] + [ms[n]];
      GetFinds(ms[..n], key);
      GetAt(ms, n);
    }
  }

  lemma {:induction false} GetAppend(ms: seq<Member>, m: Member, key: string)
    ensures Get(ms + [m], key)
         == if Get(ms, key).Some? then Get(ms, key) else if m.key == key then Some(m.value) else None
    decreases |ms|
  {
    if ms == [] {
      assert ms + [m] == [m] && [m][1..] == [];
    } else {
      assert (ms + [m])[1..] == ms[1..] + [m];
      GetAppend(ms[1..], m, key);
    }
  }

  lemma SortedIsDistinct(ms: seq<Member>)
    requires Sorted(ms)
    ensures DistinctKeys(ms)
  {
    forall i, j | 0 <= i < j < |ms| ensures ms[i].key != ms[j].key {
      LessIrreflexive(ms[i].key);
    }
  }

  function Keys(ms: seq<Member>): seq<string> { seq(|ms|, i requires 0 <= i < |ms| => ms[i].key) }

  /** A sorted member list is determined by its lookups. */
  lemma SortedIsUnique(a: seq<Member>, b: seq<Member>)
    requires Sorted(a) && Sorted(b)
    requires forall key :: Get(a, key) == Get(b, key)
    ensures a == b
  {
    SortedIsDistinct(a);
    SortedIsDistinct(b);
    assert Increasing(Keys(a)) && Increasing(Keys(b));
    forall key ensures key in Keys(a) <==> key in Keys(b) {
      InKeys(a, key);
      InKeys(b, key);
      GetFinds(a, key);
      GetFinds(b, key);
    }
    IncreasingIsUnique(Keys(a), Keys(b));
    assert |a| == |Keys(a)| == |Keys(b)| == |b|;
    forall i | 0 <= i < |a| ensures a[i] == b[i] {
      assert Keys(a)[i] == Keys(b)[i];
      GetAt(a, i);
      GetAt(b, i);
    }
  }

  lemma InKeys(ms: seq<Member>, key: string)
    ensures key in Keys(ms) <==> HasKey(ms, key)
  {
    if HasKey(ms, key) {
      var i :| 0 <= i < |ms| && ms[i].key == key;
      assert Keys(ms)[i] == key;
    }
  }

  // ---- Same canonical form if and only if same value

  lemma {:induction false} CanonItemsAt(items: seq<Json>, i: nat)
    requires i < |items|
    ensures CanonItems(items)[i] == Canon(items[i])
    decreases |items|
  {
    if i < |items| - 1 {
      CanonItemsAt(items[..|items| - 1], i);
    }
  }

  lemma {:induction false} SameMeansEqualCanon(a: Json, b: Json)
    requires WellFormed(a) && WellFormed(b) && Same(a, b)
    ensures Canon(a) == Canon(b)
    decreases a
  {
    match a {
      case Array(items) =>
        forall i | 0 <= i < |items| ensures CanonItems(items)[i] == CanonItems(b.items)[i] {
          SameMeansEqualCanon(items[i], b.items[i]);
          CanonItemsAt(items, i);
          CanonItemsAt(b.items, i);
        }
      case Object(ms) =>
        var ns := b.members;
        CanonMembersFacts(ms, "");
        CanonMembersFacts(ns, "");
        forall key ensures Get(CanonMembers(ms), key) == Get(CanonMembers(ns), key) {
          CanonMembersFacts(ms, key);
          CanonMembersFacts(ns, key);
          GetFinds(ms, key);
          GetFinds(ns, key);
          if HasKey(ms, key) {
            var i :| 0 <= i < |ms| && ms[i] == Member(key, Get(ms, key).value);
            GetIsWellFormed(ns, key);
            SameMeansEqualCanon(ms[i].value, Get(ns, key).value);
          }
        }
        SortedIsUnique(CanonMembers(ms), CanonMembers(ns));
      case _ =>
    }
  }

  lemma GetIsWellFormed(ms: seq<Member>, key: string)
    requires WellFormed(Object(ms)) && Get(ms, key).Some?
    ensures WellFormed(Get(ms, key).value)
  {
    GetFinds(ms, key);
    var i :| 0 <= i < |ms| && ms[i] == Member(key, Get(ms, key).value);
    assert WellFormed(ms[i].value);
  }

  lemma {:induction false} EqualCanonMeansSame(a: Json, b: Json)
    requires WellFormed(a) && WellFormed(b) && Canon(a) == Canon(b)
    ensures Same(a, b)
    decreases a
  {
    match a {
      case Array(items) =>
        forall i | 0 <= i < |items| ensures Same(items[i], b.items[i]) {
          CanonItemsAt(items, i);
          CanonItemsAt(b.items, i);
          EqualCanonMeansSame(items[i], b.items[i]);
        }
      case Object(ms) =>
        var ns := b.members;
        forall i | 0 <= i < |ms|
          ensures Get(ns, ms[i].key).Some? && Same(ms[i].value, Get(ns, ms[i].key).value)
        {
          CanonMembersFacts(ms, ms[i].key);
          CanonMembersFacts(ns, ms[i].key);
          GetAt(ms, i);
          GetIsWellFormed(ns, ms[i].key);
          EqualCanonMeansSame(ms[i].value, Get(ns, ms[i].key).value);
        }
        forall i | 0 <= i < |ns| ensures HasKey(ms, ns[i].key) {
          CanonMembersFacts(ms, ns[i].key);
          CanonMembersFacts(ns, ns[i].key);
          GetAt(ns, i);
          GetFinds(ms, ns[i].key);
        }
      case _ =>
    }
  }

  /** Two values have the same canonical form exactly when they are the same up to key order. */
  lemma CanonicalExactly(a: Json, b: Json)
    requires WellFormed(a) && WellFormed(b)
    ensures Canon(a) == Canon(b) <==> Same(a, b)
  {
    if Same(a, b) {
      SameMeansEqualCanon(a, b);
    }
    if Canon(a) == Canon(b) {
      EqualCanonMeansSame(a, b);
    }
  }

  /** A serialiser stays abstract; all that signing needs is that different values are written differently. */
  ghost predicate Injective(write: Json -> seq<int>) {
    forall x, y :: write(x) == write(y) ==> x == y
  }

  /** `canonicalize`: the bytes that are signed agree exactly for values that are the same up to key order. */
  lemma SignedBytesExactly(a: Json, b: Json, write: Json -> seq<int>)
    requires WellFormed(a) && WellFormed(b) && Injective(write)
    ensures write(Canon(a)) == write(Canon(b)) <==> Same(a, b)
  {
    CanonicalExactly(a, b);
  }

  /** Sorted keys in every object. */
  ghost predicate Canonical(v: Json)
    decreases v
  {
    match v
    case Array(items) => forall i :: 0 <= i < |items| ==> Canonical(items[i])
    case Object(ms) => Sorted(ms) && forall i :: 0 <= i < |ms| ==> Canonical(ms[i].value)
    case _ => true
  }

  lemma {:induction false} CanonIsCanonical(v: Json)
    requires WellFormed(v)
    ensures Canonical(Canon(v)) && WellFormed(Canon(v)) && Same(Canon(v), v)
    decreases v
  {
    match v {
      case Array(items) =>
        forall i | 0 <= i < |items| ensures
          var c := CanonItems(items)[i]; Canonical(c) && WellFormed(c) && Same(c, items[i])
        {
          CanonItemsAt(items, i);
          CanonIsCanonical(items[i]);
        }
      case Object(ms) =>
        var cs := CanonMembers(ms);
        CanonMembersFacts(ms, "");
        SortedIsDistinct(cs);
        forall i | 0 <= i < |cs|
          ensures Canonical(cs[i].value) && WellFormed(cs[i].value)
          ensures Get(ms, cs[i].key).Some? && Same(cs[i].value, Get(ms, cs[i].key).value)
        {
          GetAt(cs, i);
          CanonMembersFacts(ms, cs[i].key);
          GetIsWellFormed(ms, cs[i].key);
          GetFinds(ms, cs[i].key);
          var j :| 0 <= j < |ms| && ms[j] == Member(cs[i].key, Get(ms, cs[i].key).value);
          CanonIsCanonical(ms[j].value);
        }
        forall i | 0 <= i < |ms| ensures HasKey(cs, ms[i].key) {
          CanonMembersFacts(ms, ms[i].key);
          GetAt(ms, i);
          GetFinds(cs, ms[i].key);
        }
      case _ =>
    }
  }

  /** Canonicalising changes nothing the second time, and is the only canonical reading of a value. */
  lemma CanonIsTheOnlyOne(v: Json, w: Json)
    requires WellFormed(v) && WellFormed(w)
    ensures Canon(Canon(v)) == Canon(v)
    ensures Canonical(w) && Same(w, v) ==> w == Canon(v)
  {
    CanonIsCanonical(v);
    CanonicalExactly(Canon(v), v);
    if Canonical(w) && Same(w, v) {
      SameMeansEqualCanon(w, v);
      CanonicalIsFixed(w);
    }
  }

  lemma {:induction false} CanonicalIsFixed(v: Json)
    requires WellFormed(v) && Canonical(v)
    ensures Canon(v) == v
    decreases v
  {
    match v {
      case Array(items) =>
        forall i | 0 <= i < |items| ensures CanonItems(items)[i] == items[i] {
          CanonItemsAt(items, i);
          CanonicalIsFixed(items[i]);
        }
      case Object(ms) =>
        CanonMembersFacts(ms, "");
        forall key ensures Get(CanonMembers(ms), key) == Get(ms, key) {
          CanonMembersFacts(ms, key);
          if Get(ms, key).Some? {
            GetFinds(ms, key);
            var i :| 0 <= i < |ms| && ms[i] == Member(key, Get(ms, key).value);
            CanonicalIsFixed(ms[i].value);
          }
        }
        SortedIsUnique(CanonMembers(ms), ms);
      case _ =>
    }
  }
}
