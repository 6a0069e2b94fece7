/** Facts about finite sets of row ids: extremes, the fresh-id rule and id order. */
module Keys {

  /** A set other than the empty set has an element. This is a solver aid only: `HasMax`
      and `HasMin` call it to pick an element with `:|`; it says nothing about the store. */
  lemma NonEmptyHasElement(s: set<int>)
    requires s != {}
    ensures exists x :: x in s
  {
    if forall x :: x !in s {
      assert false;
    }
  }

  lemma {:induction false} HasMax(ids: set<int>)
    requires ids != {}
    ensures exists m :: m in ids && forall k :: k in ids ==> k <= m
  {
    NonEmptyHasElement(ids);
    var x :| x in ids;
    if ids != {x} {
      HasMax(ids - {x});
      var m :| m in ids - {x} && forall k :: k in ids - {x} ==> k <= m;
      if x > m {
        forall k | k in ids ensures k <= x {
          if k != x { assert k in ids - {x}; }
        }
      } else {
        forall k | k in ids ensures k <= m {
          if k != x { assert k in ids - {x}; }
        }
      }
    }
  }

  lemma {:induction false} HasMin(ids: set<int>)
    requires ids != {}
    ensures exists m :: m in ids && forall k :: k in ids ==> m <= k
  {
    NonEmptyHasElement(ids);
    var x :| x in ids;
    if ids != {x} {
      HasMin(ids - {x});
      var m :| m in ids - {x} && forall k :: k in ids - {x} ==> m <= k;
      if x < m {
        forall k | k in ids ensures x <= k {
          if k != x { assert k in ids - {x}; }
        }
      } else {
        forall k | k in ids ensures m <= k {
          if k != x { assert k in ids - {x}; }
        }
      }
    }
  }

  /** The largest id of a non-empty set. */
  function Max(ids: set<int>): (m: int)
    requires ids != {}
    ensures m in ids
    ensures forall k :: k in ids ==> k <= m
  {
    HasMax(ids);
    var m :| m in ids && forall k :: k in ids ==> k <= m;
    m
  }

  /** The smallest id of a non-empty set. */
  function Min(ids: set<int>): (m: int)
    requires ids != {}
    ensures m in ids
    ensures forall k :: k in ids ==> m <= k
  {
    HasMin(ids);
    var m :| m in ids && forall k :: k in ids ==> m <= k;
    m
  }

  /** The id SQLite gives a row inserted without one: one past the largest id in
      use, and 1 in an empty table. */
  function FreshId(ids: set<int>): (r: int)
    ensures r !in ids
    ensures forall k :: k in ids ==> k < r
    ensures ids == {} ==> r == 1
    ensures ids != {} ==> r - 1 in ids
  {
    if ids == {} then 1 else Max(ids) + 1
  }

  /** Each id is larger than every id after it. */
  predicate StrictlyDescending(s: seq<int>) {
    forall i, j :: 0 <= i < j < |s| ==> s[i] > s[j]
  }

  /** The ids of a set, largest first: `ORDER BY id DESC`. */
  function Descending(ids: set<int>): (r: seq<int>)
    ensures StrictlyDescending(r)
    ensures forall k :: k in r <==> k in ids
    ensures |r| == |ids|
    decreases ids
  {
    if ids == {} then
      []
    else
      var m := Max(ids);
      var rest := Descending(ids - {m});
      var r := [m] + rest;
      assert forall j :: 0 < j < |r| ==> r[j] == rest[j - 1] && r[j] in ids - {m};
      r
  }

  /** The ids of the rows of `m` that satisfy `f`: the rows a `WHERE` clause selects. */
  function Matching<V>(m: map<int, V>, f: V -> bool): set<int> {
    set k | k in m && f(m[k])
  }

  /** The ids of `ids` whose rows satisfy `f`, in their original order. */
  function FilterIds<V>(ids: seq<int>, m: map<int, V>, f: V -> bool): (r: seq<int>)
    requires forall k :: k in ids ==> k in m
    ensures forall k :: k in r <==> k in ids && f(m[k])
    ensures StrictlyDescending(ids) ==> StrictlyDescending(r)
  {
    if ids == [] then
      []
    else
      var rest := FilterIds(ids[1..], m, f);
      assert forall k :: k in ids <==> k == ids[0] || k in ids[1..];
      if f(m[ids[0]]) then
        var r := [ids[0]] + rest;
        assert forall j :: 0 < j < |r| ==> r[j] == rest[j - 1] && r[j] in ids[1..];
        r
      else
        rest
  }

  /** A strictly descending sequence has as many elements as the set of its elements. */
  lemma {:induction false} DescendingCard(s: seq<int>)
    requires StrictlyDescending(s)
    ensures |set k | k in s| == |s|
  {
    if s != [] {
      DescendingCard(s[1..]);
      assert (set k | k in s) == {s[0]} + (set k | k in s[1..]);
      assert s[0] !in s[1..];
    }
  }

  /** The ids a filtered `ORDER BY id DESC` query returns: newest first, exactly the
      matching ids, each once. */
  lemma FilteredDescending<V>(m: map<int, V>, f: V -> bool, ids: seq<int>)
    requires ids == FilterIds(Descending(m.Keys), m, f)
    ensures StrictlyDescending(ids)
    ensures forall k :: k in ids <==> k in m && f(m[k])
    ensures |ids| == |Matching(m, f)|
  {
    FilteredMembers(m, f, Descending(m.Keys), ids);
    MembersAreMatching(m, f, ids);
    DescendingCard(ids);
  }

  lemma FilteredMembers<V>(m: map<int, V>, f: V -> bool, d: seq<int>, ids: seq<int>)
    requires d == Descending(m.Keys)
    requires ids == FilterIds(d, m, f)
    ensures forall k :: k in ids <==> k in m && f(m[k])
  {
  }

  lemma MembersAreMatching<V>(m: map<int, V>, f: V -> bool, ids: seq<int>)
    requires forall k :: k in ids <==> k in m && f(m[k])
    ensures (set k | k in ids) == Matching(m, f)
  {
    var elems := set k | k in ids;
    forall k ensures k in elems <==> k in Matching(m, f) {
      assert k in ids <==> k in m && f(m[k]);
    }
  }

  /** The rows stored under `ids`, in the order of `ids`. */
  function Rows<V>(ids: seq<int>, m: map<int, V>): (r: seq<V>)
    requires forall i :: 0 <= i < |ids| ==> ids[i] in m
    ensures |r| == |ids|
    ensures forall i :: 0 <= i < |ids| ==> r[i] == m[ids[i]]
  {
    seq(|ids|, i requires 0 <= i < |ids| => m[ids[i]])
  }

  /** Every row whose id is listed in `ids` is among the rows `Rows` returns. */
  lemma SelectedRowsComplete<V>(m: map<int, V>, f: V -> bool, ids: seq<int>)
    requires forall k :: k in ids <==> k in m && f(m[k])
    requires forall i :: 0 <= i < |ids| ==> ids[i] in m
    ensures forall k :: k in m && f(m[k]) ==> m[k] in Rows(ids, m)
  {
    var r := Rows(ids, m);
    forall k | k in m && f(m[k]) ensures m[k] in r {
      var i :| 0 <= i < |ids| && ids[i] == k;
      assert r[i] == m[k];
    }
  }
}
