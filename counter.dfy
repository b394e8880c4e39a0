/**
 * The histogram of src/counter.rs: a hash map from a value to the number
 * of times it was added.
 *
 * The ghost field `added` records every value passed to `Add`, in order;
 * `Valid` ties the map to it, so that each query is specified against the
 * history of additions.  The folds over the map's entries visit them in an
 * unspecified order; here each loop takes the remaining keys in whatever
 * order `:|` picks.
 */
module Counter {
  import opened Wrappers

  /** The map a sequence of additions produces. */
  function Tally(s: seq<nat>): map<nat, nat>
  {
    if s == [] then map[]
    else
      var t := Tally(s[..|s| - 1]);
      var x := s[|s| - 1];
      t[x := (if x in t then t[x] else 0) + 1]
  }

  function SeqSum(s: seq<nat>): nat
  {
    if s == [] then 0 else SeqSum(s[..|s| - 1]) + s[|s| - 1]
  }

  /** A value is a key of the tally exactly when it was added, and its
      tally is the number of times it was added. */
  lemma {:induction false} TallyCounts(s: seq<nat>, k: nat)
    ensures k in Tally(s) <==> k in s
    ensures k in Tally(s) ==> Tally(s)[k] == multiset(s)[k]
  {
    if s != [] {
      var p := s[..|s| - 1];
      TallyCounts(p, k);
      assert s == p + [s[|s| - 1]];
    }
  }

  /** The contribution of one entry to `sum` (key times tally) or to `count` (tally). */
  function Weight(key: nat, tally: nat, byKey: bool): nat
  {
    if byKey then key * tally else tally
  }

  lemma WeightStep(key: nat, tally: nat, byKey: bool)
    ensures Weight(key, tally + 1, byKey) == Weight(key, tally, byKey) + Weight(key, 1, byKey)
  {
  }

  /** Sum of `Weight` over the entries of `m`, in no particular order. */
  ghost function Fold(m: map<nat, nat>, byKey: bool): nat
    decreases |m|
  {
    if m == map[] then 0
    else
      var k :| k in m;
      assert |m - {k}| < |m| by { assert m.Keys - {k} < m.Keys; assert (m - {k}).Keys == m.Keys - {k}; }
      Weight(k, m[k], byKey) + Fold(m - {k}, byKey)
  }

  lemma MapRemoveSmaller(m: map<nat, nat>, k: nat)
    requires k in m
    ensures |m - {k}| == |m| - 1
  {
    assert (m - {k}).Keys == m.Keys - {k};
  }

  /** The fold does not depend on which key is taken first. */
  lemma {:induction false} FoldRemove(m: map<nat, nat>, byKey: bool, k: nat)
    requires k in m
    ensures Fold(m, byKey) == Weight(k, m[k], byKey) + Fold(m - {k}, byKey)
    decreases |m|
  {
    var j :| j in m && Fold(m, byKey) == Weight(j, m[j], byKey) + Fold(m - {j}, byKey);
    if j != k {
      MapRemoveSmaller(m, j);
      MapRemoveSmaller(m, k);
      FoldRemove(m - {j}, byKey, k);
      FoldRemove(m - {k}, byKey, j);
      assert m - {j} - {k} == m - {k} - {j};
    }
  }

  /** One more addition of `x` adds the weight of a single `x`. */
  lemma FoldAdd(m: map<nat, nat>, byKey: bool, x: nat)
    ensures Fold(m[x := (if x in m then m[x] else 0) + 1], byKey)
            == Fold(m, byKey) + Weight(x, 1, byKey)
  {
    var m' := m[x := (if x in m then m[x] else 0) + 1];
    FoldRemove(m', byKey, x);
    assert m' - {x} == m - {x};
    if x in m {
      FoldRemove(m, byKey, x);
      WeightStep(x, m[x], byKey);
    } else {
      assert m - {x} == m;
    }
  }

  /** The weighted fold of a tally is the sum of the additions (`byKey`)
      or their number. */
  lemma {:induction false} FoldTally(s: seq<nat>, byKey: bool)
    ensures Fold(Tally(s), byKey) == if byKey then SeqSum(s) else |s|
  {
    if s != [] {
      var p := s[..|s| - 1];
      FoldTally(p, byKey);
      FoldAdd(Tally(p), byKey, s[|s| - 1]);
    }
  }

  /** `k` is the least element of `s`. */
  predicate IsLeast(k: nat, s: set<nat>)
  {
    k in s && forall j :: j in s ==> k <= j
  }

  /** A finite non-empty set of naturals has a least element. */
  lemma {:induction false} HasLeast(s: set<nat>)
    requires s != {}
    ensures exists k :: IsLeast(k, s)
    decreases |s|
  {
    var x :| x in s;
    var rest := s - {x};
    if rest == {} {
      assert s == {x};
      assert IsLeast(x, s);
    } else {
      HasLeast(rest);
      var k :| IsLeast(k, rest);
      var least := if x < k then x else k;
      forall j | j in s ensures least <= j {
        if j != x {
          assert j in rest;
        }
      }
      assert IsLeast(least, s);
    }
  }

  /** The keys listed in `v`. */
  function KeysOf(v: seq<(nat, nat)>): set<nat>
  {
    if v == [] then {} else KeysOf(v[..|v| - 1]) + {v[|v| - 1].0}
  }

  lemma {:induction false} KeysOfListed(v: seq<(nat, nat)>, x: nat)
    requires x in KeysOf(v)
    ensures exists i :: 0 <= i < |v| && v[i].0 == x
  {
    if v[|v| - 1].0 != x {
      KeysOfListed(v[..|v| - 1], x);
      var i :| 0 <= i < |v| - 1 && v[..|v| - 1][i].0 == x;
      assert v[i].0 == x;
    }
  }

  lemma KeysOfSnoc(v: seq<(nat, nat)>, p: (nat, nat))
    ensures KeysOf(v + [p]) == KeysOf(v) + {p.0}
  {
    assert (v + [p])[..|v|] == v;
  }

  /** A listing of every entry of the tally of `s` lists every added value with its number of additions. */
  lemma ListingOfTally(s: seq<nat>, v: seq<(nat, nat)>)
    requires KeysOf(v) == Tally(s).Keys
    requires forall i :: 0 <= i < |v| ==> v[i].0 in Tally(s) && v[i].1 == Tally(s)[v[i].0]
    ensures forall i :: 0 <= i < |v| ==> v[i].0 in s && v[i].1 == multiset(s)[v[i].0]
    ensures forall x :: x in s ==> exists i :: 0 <= i < |v| && v[i].0 == x
  {
    forall i | 0 <= i < |v| ensures v[i].0 in s && v[i].1 == multiset(s)[v[i].0] {
      TallyCounts(s, v[i].0);
    }
    forall x | x in s ensures exists i :: 0 <= i < |v| && v[i].0 == x {
      TallyCounts(s, x);
      KeysOfListed(v, x);
    }
  }

  /** `v` lists, in ascending order and with their tallies, the keys of
      `counts` not in `keys`, all below those in `keys`. */
  ghost predicate Listing(v: seq<(nat, nat)>, counts: map<nat, nat>, keys: set<nat>)
  {
    && keys <= counts.Keys
    && KeysOf(v) == counts.Keys - keys
    && (forall i :: 0 <= i < |v| ==> v[i].0 in counts && v[i].1 == counts[v[i].0])
    && (forall i, j :: 0 <= i < j < |v| ==> v[i].0 < v[j].0)
    && (v != [] ==> forall k :: k in keys ==> v[|v| - 1].0 < k)
  }

  /** Listing the least remaining key next keeps the listing ascending. */
  lemma ListingStep(v: seq<(nat, nat)>, counts: map<nat, nat>, keys: set<nat>, k: nat)
    requires Listing(v, counts, keys) && IsLeast(k, keys)
    ensures Listing(v + [(k, counts[k])], counts, keys - {k})
  {
    KeysOfSnoc(v, (k, counts[k]));
  }

  method Least(keys: set<nat>) returns (k: nat)
    requires keys != {}
    ensures k in keys && forall j :: j in keys ==> k <= j
  {
    HasLeast(keys);
    k :| IsLeast(k, keys);
  }

  class Counter {
    var counts: map<nat, nat>
    ghost var added: seq<nat>

    ghost predicate Valid()
      reads this
    {
      counts == Tally(added)
    }

    /** `Counter::new`: nothing added yet. */
    constructor ()
      ensures Valid() && added == [] && counts == map[]
    {
      counts := map[];
      added := [];
    }

    /** `add`: one more occurrence of `count`; every other tally unchanged. */
    method Add(count: nat)
      requires Valid()
      modifies this
      ensures Valid() && added == old(added) + [count]
      ensures count in counts
      ensures counts[count] == (if count in old(counts) then old(counts)[count] else 0) + 1
      ensures forall k :: k != count ==> (k in counts <==> k in old(counts))
      ensures forall k :: k != count && k in counts ==> counts[k] == old(counts)[k]
    {
      counts := counts[count := (if count in counts then counts[count] else 0) + 1];
      added := added + [count];
      assert added[..|added| - 1] == old(added);
    }

    /** `get`: None if `count` was never added, else how often it was. */
    function Get(count: nat): (r: Option<nat>)
      reads this
      requires Valid()
      ensures r.None? <==> count !in added
      ensures r.Some? ==> r.value == multiset(added)[count]
    {
      TallyCounts(added, count);
      if count in counts then Some(counts[count]) else None
    }

    /** `sum`: the sum of all values added. */
    method Sum() returns (sum: nat)
      requires Valid()
      ensures sum == SeqSum(added)
    {
      sum := 0;
      var rest := counts;
      while rest != map[]
        invariant sum + Fold(rest, true) == Fold(counts, true)
        decreases |rest|
      {
        var k :| k in rest;
        FoldRemove(rest, true, k);
        MapRemoveSmaller(rest, k);
        sum := sum + k * rest[k];
        rest := rest - {k};
      }
      FoldTally(added, true);
    }

    /** `count`: the number of additions. */
    method Count() returns (count: nat)
      requires Valid()
      ensures count == |added|
    {
      count := 0;
      var rest := counts;
      while rest != map[]
        invariant count + Fold(rest, false) == Fold(counts, false)
        decreases |rest|
      {
        var k :| k in rest;
        FoldRemove(rest, false, k);
        MapRemoveSmaller(rest, k);
        count := count + rest[k];
        rest := rest - {k};
      }
      FoldTally(added, false);
    }

    /** `max`: the largest value added; it panics when nothing was added. */
    method Max() returns (max: nat)
      requires Valid() && added != []
      ensures max in added
      ensures forall x :: x in added ==> x <= max
    {
      TallyCounts(added, added[0]);
      var rest := counts.Keys;
      max :| max in rest;
      while rest != {}
        invariant rest <= counts.Keys && max in counts
        invariant forall k :: k in counts && k !in rest ==> k <= max
        decreases rest
      {
        var k :| k in rest;
        if max < k {
          max := k;
        }
        rest := rest - {k};
      }
      TallyCounts(added, max);
      forall x | x in added ensures x <= max {
        TallyCounts(added, x);
      }
    }

    /** `as_vec`: each distinct value with its tally, ascending by value. */
    method AsVec() returns (v: seq<(nat, nat)>)
      requires Valid()
      ensures forall i, j :: 0 <= i < j < |v| ==> v[i].0 < v[j].0
      ensures forall i :: 0 <= i < |v| ==> v[i].0 in added && v[i].1 == multiset(added)[v[i].0]
      ensures forall x :: x in added ==> exists i :: 0 <= i < |v| && v[i].0 == x
    {
      v := [];
      var keys := counts.Keys;
      while keys != {}
        invariant Listing(v, counts, keys)
        decreases keys
      {
        var k := Least(keys);
        ListingStep(v, counts, keys, k);
        v := v + [(k, counts[k])];
        keys := keys - {k};
      }
      ListingOfTally(added, v);
    }
  }
}
