/** The `Add*` functions of string lists: appending the strings that a list does not have. */
module StringLists {
  import opened GoInts
  import opened Schemas

  /** The strings of vals that are not in the list, in order. */
  function Absent(vals: seq<bytes>, list: seq<bytes>): seq<bytes> {
    if vals == [] then []
    else if vals[0] in list then Absent(vals[1..], list)
    else [vals[0]] + Absent(vals[1..], list)
  }

  /** The list after vals have been added; a nil list to which nothing is added stays nil. */
  function Added(list: Option<seq<bytes>>, vals: seq<bytes>): Option<seq<bytes>> {
    var missing := Absent(vals, Elems(list));
    if missing == [] then list else Some(Elems(list) + missing)
  }

  method AddStrings(list: Option<seq<bytes>>, vals: seq<bytes>) returns (added: Option<seq<bytes>>, changes: nat)
    ensures added == Added(list, vals) && changes == |Absent(vals, Elems(list))|
    ensures Elems(added) == Elems(list) + Absent(vals, Elems(list)) && (added == None ==> list == None)
    ensures changes == 0 ==> added == list
  {
    changes := 0;
    var cur := {};
    for k := 0 to |Elems(list)|
      invariant forall x :: x in cur <==> x in Elems(list)[..k]
    {
      assert Elems(list)[..k + 1] == Elems(list)[..k] + [Elems(list)[k]];
      cur := cur + {Elems(list)[k]};
    }
    assert Elems(list)[..|Elems(list)|] == Elems(list);
    added := list;
    for k := 0 to |vals|
      invariant added == Added(list, vals[..k]) && changes == |Absent(vals[..k], Elems(list))|
    {
      AbsentNext(vals, k, Elems(list));
      if vals[k] in cur {
        continue;
      }
      hide Absent;
      ghost var a := Absent(vals[..k], Elems(list));
      assert Elems(added) == Elems(list) + a;
      assert Elems(list) + (a + [vals[k]]) == Elems(list) + a + [vals[k]];
      added := Some(Elems(added) + [vals[k]]);
      changes := changes + 1;
    }
    assert vals[..|vals|] == vals;
  }

  /** The arguments are looked at one after the other, and keep their order. */
  lemma {:induction false} AbsentInOrder(vals: seq<bytes>, more: seq<bytes>, list: seq<bytes>)
    ensures Absent(vals + more, list) == Absent(vals, list) + Absent(more, list)
  {
    if vals == [] {
      assert vals + more == more;
    } else {
      AbsentInOrder(vals[1..], more, list);
      assert (vals + more)[1..] == vals[1..] + more;
    }
  }

  lemma AbsentNext(vals: seq<bytes>, k: nat, list: seq<bytes>)
    requires k < |vals|
    ensures Absent(vals[..k + 1], list) ==
            if vals[k] in list then Absent(vals[..k], list) else Absent(vals[..k], list) + [vals[k]]
  {
    assert vals[..k + 1] == vals[..k] + [vals[k]];
    AbsentInOrder(vals[..k], [vals[k]], list);
    assert Absent([vals[k]], list) == if vals[k] in list then [] else [vals[k]];
  }

  /** Exactly the arguments that are not in the list are appended, as often as they are given. */
  lemma {:induction false} AbsentCount(vals: seq<bytes>, list: seq<bytes>, x: bytes)
    ensures multiset(Absent(vals, list))[x] == if x in list then 0 else multiset(vals)[x]
  {
    if vals != [] {
      AbsentCount(vals[1..], list, x);
      assert vals == [vals[0]] + vals[1..];
    }
  }

  /** The elements of the list become the union of the old ones and the arguments. */
  lemma AddedElements(list: Option<seq<bytes>>, vals: seq<bytes>, x: bytes)
    ensures x in Elems(Added(list, vals)) <==> x in Elems(list) || x in vals
    ensures Elems(list) <= Elems(Added(list, vals))
  {
    AbsentCount(vals, Elems(list), x);
    assert x in Absent(vals, Elems(list)) <==> x in multiset(Absent(vals, Elems(list)));
    assert x in vals <==> x in multiset(vals);
  }

  /** Adding the same strings again adds nothing. */
  lemma AddedTwice(list: Option<seq<bytes>>, vals: seq<bytes>)
    ensures Added(Added(list, vals), vals) == Added(list, vals)
  {
    var longer := Elems(Added(list, vals));
    forall x | x in vals ensures x in longer {
      AddedElements(list, vals, x);
    }
    NoneAbsent(vals, longer);
  }

  lemma {:induction false} NoneAbsent(vals: seq<bytes>, list: seq<bytes>)
    requires forall x :: x in vals ==> x in list
    ensures Absent(vals, list) == []
  {
    if vals != [] {
      NoneAbsent(vals[1..], list);
    }
  }
}
