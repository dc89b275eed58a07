/** `FieldMap`: a set of dotted keys in which a key stands for all the keys below it. */
module FieldMaps {
  import opened GoInts

  const DOT: byte := '.' as int

  /** k is p, or lies below p in the hierarchy of dotted keys. */
  predicate Covers(p: bytes, k: bytes) {
    p == k || p + [DOT] <= k
  }

  /** "1" covers "1.2" but not "12", and the last dot of "1.2.3" is the one at 3. */
  lemma DotExample()
    ensures Covers([0x31], [0x31, 0x2E, 0x32]) && !Covers([0x31], [0x31, 0x32])
    ensures LastDot([0x31, 0x2E, 0x32, 0x2E, 0x33]) == 3
  {
    var key: bytes := [0x31, 0x2E, 0x32, 0x2E, 0x33];
    var p: bytes := [0x31] + [DOT];
    assert p[1] == 0x2E;
    assert p <= key[..3] && key[..3] == [0x31, 0x2E, 0x32];
    assert key[3] == DOT && key[4] != DOT;
  }

  /** k is set in the fields, itself or through an ancestor. */
  ghost predicate IsSet(fields: set<bytes>, k: bytes) {
    exists p :: p in fields && Covers(p, k)
  }

  /** `strings.LastIndex(key, ".")`. */
  function LastDot(key: bytes): (idx: int)
    ensures -1 <= idx < |key|
    ensures idx >= 0 ==> key[idx] == DOT
    ensures forall j :: idx < j < |key| ==> key[j] != DOT
  {
    if key == [] then -1
    else if key[|key| - 1] == DOT then |key| - 1
    else LastDot(key[..|key| - 1])
  }

  //
  // Cutting a key at its last dot
  //

  /** The keys that cover k, other than k itself, are those that cover its parent. */
  lemma CoversParent(p: bytes, k: bytes)
    ensures LastDot(k) == -1 ==> (Covers(p, k) <==> p == k)
    ensures LastDot(k) >= 0 ==> (Covers(p, k) <==> p == k || Covers(p, k[..LastDot(k)]))
  {
    var idx := LastDot(k);
    if p + [DOT] <= k {
      assert k[|p|] == DOT;
      if |p| == idx {
        assert p == k[..idx];
      } else {
        assert p + [DOT] <= k[..idx];
      }
    }
    if idx >= 0 && p == k[..idx] {
      assert p + [DOT] == k[..idx + 1];
    }
  }

  /** Everything that holds for a key holds for its children. */
  lemma SetIsInherited(fields: set<bytes>, k: bytes, child: bytes)
    requires IsSet(fields, k)
    ensures IsSet(fields, k + [DOT] + child)
  {
    var p :| p in fields && Covers(p, k);
    CoversTransitive(p, k, k + [DOT] + child);
  }

  lemma CoversTransitive(p: bytes, q: bytes, k: bytes)
    requires Covers(p, q) && Covers(q, k)
    ensures Covers(p, k)
  {
    if p != q && q != k {
      assert p + [DOT] == q[..|p| + 1] == k[..|p| + 1];
    }
  }

  /** Clearing a key leaves it set exactly when a proper ancestor is stored. */
  lemma ClearedKey(fields: set<bytes>, k: bytes)
    ensures IsSet(fields - {k}, k) <==> exists p :: p in fields && p + [DOT] <= k
  {
    if IsSet(fields - {k}, k) {
      var p :| p in fields - {k} && Covers(p, k);
      assert p in fields && p + [DOT] <= k;
    }
    if exists p :: p in fields && p + [DOT] <= k {
      var p :| p in fields && p + [DOT] <= k;
      assert p in fields - {k} && Covers(p, k);
    }
  }

  /** Clearing a key changes the answer only for keys that it covers. */
  lemma ClearElsewhere(fields: set<bytes>, k: bytes, other: bytes)
    requires !Covers(k, other)
    ensures IsSet(fields - {k}, other) <==> IsSet(fields, other)
  {
    if IsSet(fields, other) {
      var p :| p in fields && Covers(p, other);
      assert p in fields - {k};
    }
  }

  /** Setting a key sets the keys that it covers, and no others. */
  lemma SetAdds(fields: set<bytes>, k: bytes, other: bytes)
    ensures IsSet(fields + {k}, other) <==> IsSet(fields, other) || Covers(k, other)
  {
    if IsSet(fields, other) {
      var p :| p in fields && Covers(p, other);
      assert p in fields + {k};
    } else if Covers(k, other) {
      assert k in fields + {k};
    }
  }

  //
  // The order of Fields
  //

  /** Go's `<` on strings. */
  predicate Less(a: bytes, b: bytes) {
    b != [] && (a == [] || a[0] < b[0] || (a[0] == b[0] && Less(a[1..], b[1..])))
  }

  /** The strings first differ at k, where a has the smaller byte. */
  ghost predicate SmallerAt(a: bytes, b: bytes, k: nat) {
    k < |a| && k < |b| && a[..k] == b[..k] && a[k] < b[k]
  }

  /** a is less than b if it is a proper prefix of b, or has the smaller byte where they first differ. */
  lemma {:induction false} LessIs(a: bytes, b: bytes)
    ensures Less(a, b) <==> a < b || exists k: nat :: SmallerAt(a, b, k)
    decreases |a|
  {
    hide SmallerAt;
    if a != [] && b != [] && a[0] == b[0] {
      LessIs(a[1..], b[1..]);
      assert a == [a[0]] + a[1..] && b == [b[0]] + b[1..];
      forall k: nat ensures SmallerAt(a, b, k) <==> k > 0 && SmallerAt(a[1..], b[1..], k - 1) {
        SmallerBehind(a, b, k);
      }
      if k: nat :| SmallerAt(a[1..], b[1..], k) {
        assert SmallerAt(a, b, k + 1);
      }
    } else {
      forall k: nat ensures SmallerAt(a, b, k) <==> k == 0 && a != [] && b != [] && a[0] < b[0] {
        SmallerHere(a, b, k);
      }
      assert a < b ==> a == [];
      assert SmallerAt(a, b, 0) <==> a != [] && b != [] && a[0] < b[0];
    }
  }

  lemma SmallerHere(a: bytes, b: bytes, k: nat)
    requires a == [] || b == [] || a[0] != b[0]
    ensures SmallerAt(a, b, k) <==> k == 0 && a != [] && b != [] && a[0] < b[0]
  {
    if 0 < k <= |a| && k <= |b| {
      assert a[..k][0] == a[0] && b[..k][0] == b[0];
    }
  }

  lemma SmallerBehind(a: bytes, b: bytes, k: nat)
    requires a != [] && b != [] && a[0] == b[0]
    ensures SmallerAt(a, b, k) <==> k > 0 && SmallerAt(a[1..], b[1..], k - 1)
  {
    if 0 < k <= |a| && k <= |b| {
      assert a[..k] == [a[0]] + a[1..][..k - 1] && b[..k] == [b[0]] + b[1..][..k - 1];
      assert a[..k][1..] == a[1..][..k - 1] && b[..k][1..] == b[1..][..k - 1];
    }
  }

  lemma {:induction false} LessTotal(a: bytes, b: bytes)
    ensures Less(a, b) || a == b || Less(b, a)
    decreases |a|
  {
    if a != [] && b != [] && a[0] == b[0] {
      LessTotal(a[1..], b[1..]);
      assert a == [a[0]] + a[1..] && b == [b[0]] + b[1..];
    }
  }

  lemma {:induction false} LessOrder(a: bytes, b: bytes, c: bytes)
    ensures !(Less(a, b) && Less(b, a)) && !Less(a, a)
    ensures Less(a, b) && Less(b, c) ==> Less(a, c)
    decreases |a|
  {
    if a != [] {
      LessOrder(a[1..], if b != [] then b[1..] else [], if c != [] then c[1..] else []);
    }
  }

  ghost predicate Increasing(s: seq<bytes>) {
    forall i, j :: 0 <= i < j < |s| ==> Less(s[i], s[j])
  }

  function Elements(s: seq<bytes>): set<bytes> {
    set x | x in s
  }

  lemma NoElements(s: seq<bytes>)
    ensures Elements(s) == {} <==> s == []
  {
    if s != [] {
      assert s[0] in Elements(s);
    }
  }

  lemma OneMore(s: seq<bytes>, x: bytes)
    ensures Elements(s + [x]) == Elements(s) + {x}
  {
    assert forall y :: y in s + [x] <==> y in s || y == x;
  }

  /** An increasing list is determined by its elements: `Fields` does not depend on the
      order in which the map is iterated. */
  lemma {:induction false} IncreasingUnique(s: seq<bytes>, t: seq<bytes>)
    requires Increasing(s) && Increasing(t) && Elements(s) == Elements(t)
    ensures s == t
    decreases |s|
  {
    NoElements(s);
    NoElements(t);
    if s != [] {
      SameLeast(s, t);
      forall x ensures x in Elements(s[1..]) <==> x in Elements(t[1..]) {
        RestElements(s, x);
        RestElements(t, x);
      }
      IncreasingUnique(s[1..], t[1..]);
      assert s == [s[0]] + s[1..] && t == [t[0]] + t[1..];
    }
  }

  lemma SameLeast(s: seq<bytes>, t: seq<bytes>)
    requires Increasing(s) && Increasing(t) && Elements(s) == Elements(t) && s != [] && t != []
    ensures s[0] == t[0]
  {
    assert s[0] in Elements(t) && t[0] in Elements(s);
    LessOrder(s[0], t[0], s[0]);
  }

  lemma RestElements(s: seq<bytes>, x: bytes)
    requires Increasing(s) && s != []
    ensures x in Elements(s[1..]) <==> x in Elements(s) && x != s[0]
  {
    LessOrder(s[0], s[0], s[0]);
    if x in Elements(s) && x != s[0] {
      var i :| 0 <= i < |s| && s[i] == x;
      assert s[1..][i - 1] == x;
    }
  }

  /** `sort.Strings`, on a list without duplicates: each element is inserted into the sorted
      list of those before it. */
  method SortStrings(s: seq<bytes>) returns (t: seq<bytes>)
    requires forall i, j :: 0 <= i < j < |s| ==> s[i] != s[j]
    ensures Increasing(t) && Elements(t) == Elements(s) && |t| == |s|
  {
    t := [];
    for k := 0 to |s|
      invariant Increasing(t) && |t| == k && Elements(t) == Elements(s[..k])
    {
      assert s[k] !in Elements(s[..k]);
      var i := 0;
      while i < |t| && Less(t[i], s[k])
        invariant 0 <= i <= |t|
        invariant forall j :: 0 <= j < i ==> Less(t[j], s[k])
      {
        i := i + 1;
      }
      InsertIncreasing(t, i, s[k]);
      assert s[..k + 1] == s[..k] + [s[k]];
      t := t[..i] + [s[k]] + t[i..];
    }
    assert s[..|s|] == s;
  }

  lemma InsertIncreasing(t: seq<bytes>, i: nat, x: bytes)
    requires Increasing(t) && x !in Elements(t) && i <= |t|
    requires forall j :: 0 <= j < i ==> Less(t[j], x)
    requires i < |t| ==> !Less(t[i], x)
    ensures Increasing(t[..i] + [x] + t[i..])
    ensures Elements(t[..i] + [x] + t[i..]) == Elements(t) + {x}
  {
    hide Less;
    var r := t[..i] + [x] + t[i..];
    forall j | i <= j < |t| ensures Less(x, t[j]) {
      assert t[i] in Elements(t);
      LessTotal(t[i], x);
      if i < j {
        LessOrder(x, t[i], t[j]);
      }
    }
    assert Elements(r) == Elements(t) + {x} by {
      assert forall y :: y in r <==> y in t[..i] || y == x || y in t[i..];
      assert t == t[..i] + t[i..];
    }
    forall j, k | 0 <= j < k < |r| ensures Less(r[j], r[k]) {
      assert r[j] == if j < i then t[j] else if j == i then x else t[j - 1];
      assert r[k] == if k < i then t[k] else if k == i then x else t[k - 1];
    }
  }

  class FieldMap {
    var fields: set<bytes>

    /** `MakeFieldMap`; a nil list is an empty one. */
    constructor Make(keys: seq<bytes>)
      ensures fields == Elements(keys)
    {
      var f := {};
      for k := 0 to |keys|
        invariant f == Elements(keys[..k])
      {
        assert keys[..k + 1] == keys[..k] + [keys[k]];
        f := f + {keys[k]};
      }
      assert keys[..|keys|] == keys;
      fields := f;
    }

    /** `NewFieldMap`, without the sharing of the map with the caller. */
    constructor (keys: set<bytes>)
      ensures fields == keys
    {
      fields := keys;
    }

    method Has(key: bytes) returns (has: bool)
      ensures has <==> IsSet(fields, key)
    {
      var k := key;
      while true
        invariant IsSet(fields, key) <==> IsSet(fields, k)
        decreases |k|
      {
        if k in fields {
          return true;
        }
        var idx := LastDot(k);
        forall p ensures LastDot(k) == -1 ==> (Covers(p, k) <==> p == k)
                 ensures LastDot(k) >= 0 ==> (Covers(p, k) <==> p == k || Covers(p, k[..LastDot(k)])) {
          CoversParent(p, k);
        }
        if idx == -1 {
          break;
        }
        k := k[..idx];
      }
      return false;
    }

    method HasOrHasChild(key: bytes) returns (has: bool)
      ensures has <==> exists p :: p in fields && (Covers(p, key) || Covers(key, p))
    {
      has := Has(key);
      if has {
        return;
      }
      var prefix := key + [DOT];
      var left := fields;
      while left != {}
        invariant left <= fields
        invariant forall p :: p in fields && p !in left ==> !(prefix <= p)
        decreases |left|
      {
        var k :| k in left;
        if prefix <= k {
          assert Covers(key, k);
          return true;
        }
        left := left - {k};
      }
      assert forall p :: p in fields && Covers(key, p) ==> Covers(p, key);
    }

    method Set(key: bytes)
      modifies this
      ensures fields == old(fields) + {key}
    {
      fields := fields + {key};
    }

    method Clear(key: bytes)
      modifies this
      ensures fields == old(fields) - {key}
    {
      fields := fields - {key};
    }

    method Fields() returns (keys: seq<bytes>)
      ensures Increasing(keys) && Elements(keys) == fields
      ensures forall i, j :: 0 <= i < j < |keys| ==>
                || keys[i] < keys[j]
                || exists k: nat :: SmallerAt(keys[i], keys[j], k)
    {
      keys := [];
      var left := fields;
      while left != {}
        invariant left <= fields && Elements(keys) == fields - left
        invariant forall i, j :: 0 <= i < j < |keys| ==> keys[i] != keys[j]
        decreases |left|
      {
        var k :| k in left;
        assert k !in Elements(keys);
        OneMore(keys, k);
        left := left - {k};
        keys := keys + [k];
      }
      keys := SortStrings(keys);
      forall i, j | 0 <= i < j < |keys|
        ensures keys[i] < keys[j] || exists k: nat :: SmallerAt(keys[i], keys[j], k)
      {
        LessIs(keys[i], keys[j]);
      }
    }

    method Count() returns (n: nat)
      ensures n == |fields|
    {
      n := |fields|;
    }

    /** `MakeFieldMap` of `Fields` is the same map again. */
    method Rebuild() returns (f: FieldMap)
      ensures fresh(f) && f.fields == fields
    {
      var keys := Fields();
      f := new FieldMap.Make(keys);
    }
  }
}
