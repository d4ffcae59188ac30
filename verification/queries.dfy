/**
 * The two scene queries the renderer writes with iterator adaptors, over any
 * sequence of items and any per-item test `probe`:
 *   nearest = items.iter().filter_map(probe).min()
 *   any     = items.iter().any(|item| probe(item).is_some())
 * `Iterator::min` folds the sequence with `std::cmp::min_by(acc, next, cmp)`,
 * which is `MinBy` here.
 */
module Queries {
  import opened Intersections

  /** `filter_map`: the present results, in item order. */
  function FilterMap<A, S>(probe: A -> Option<Intersection<S>>, items: seq<A>): (hits: seq<Intersection<S>>)
  {
    if |items| == 0 then []
    else
      var last := probe(items[|items| - 1]);
      FilterMap(probe, items[..|items| - 1]) + (if last.Some? then [last.value] else [])
  }

  /** `filter_map` keeps exactly the hits: each element is some item's hit,
      and every item's hit is among them. */
  lemma {:induction false} FilterMapKeepsTheHits<A, S>(probe: A -> Option<Intersection<S>>, items: seq<A>)
    ensures |FilterMap(probe, items)| <= |items|
    ensures forall k :: 0 <= k < |FilterMap(probe, items)| ==>
      exists i :: 0 <= i < |items| && probe(items[i]) == Some(FilterMap(probe, items)[k])
    ensures forall i :: 0 <= i < |items| && probe(items[i]).Some? ==> probe(items[i]).value in FilterMap(probe, items)
  {
    if |items| > 0 {
      var n := |items| - 1;
      var front := items[..n];
      var hs := FilterMap(probe, front);
      FilterMapKeepsTheHits(probe, front);
      assert forall i :: 0 <= i < n ==> front[i] == items[i];
      forall k | 0 <= k < |FilterMap(probe, items)|
        ensures exists i :: 0 <= i < |items| && probe(items[i]) == Some(FilterMap(probe, items)[k])
      {
        if k < |hs| {
          var i :| 0 <= i < |front| && probe(front[i]) == Some(hs[k]);
          assert probe(items[i]) == Some(FilterMap(probe, items)[k]);
        } else {
          assert probe(items[n]) == Some(FilterMap(probe, items)[k]);
        }
      }
    }
  }

  /** `Iterator::min`: `None` for no elements, otherwise the left fold of
      `MinBy` starting from the first element. */
  function MinOf<S>(hits: seq<Intersection<S>>): (r: Option<Intersection<S>>)
    ensures r.None? <==> |hits| == 0
    ensures r.Some? ==> forall j :: 0 <= j < |hits| ==> r.value.distance <= hits[j].distance
  {
    if |hits| == 0 then None
    else if |hits| == 1 then Some(hits[0])
    else
      var acc := MinOf(hits[..|hits| - 1]);
      Some(MinBy(acc.value, hits[|hits| - 1]))
  }

  /** `Iterator::min` under this `cmp` returns one of the hits, and the last
      of the nearest ones: every later hit is strictly farther. */
  lemma {:induction false} MinOfIsLastMinimal<S>(hits: seq<Intersection<S>>)
    requires |hits| > 0
    ensures exists k :: (0 <= k < |hits| && MinOf(hits).value == hits[k]
      && (forall j :: k < j < |hits| ==> hits[k].distance < hits[j].distance))
  {
    if |hits| > 1 {
      var n := |hits| - 1;
      var front := hits[..n];
      MinOfIsLastMinimal(front);
      var k :| 0 <= k < n && MinOf(front).value == front[k]
        && (forall j :: k < j < n ==> front[k].distance < front[j].distance);
      var r := MinBy(MinOf(front).value, hits[n]);
      assert MinOf(hits).value == r;
      if r == hits[n] {
        assert MinOf(hits).value == hits[n];
      } else {
        assert forall j :: k < j < n ==> hits[j] == front[j];
        assert hits[k] == front[k];
        assert hits[k].distance < hits[n].distance;
        assert forall j :: k < j < |hits| ==> hits[k].distance < hits[j].distance;
        assert MinOf(hits).value == hits[k];
      }
    } else {
      assert MinOf(hits).value == hits[0];
    }
  }

  /** `Iterator::any`, short-circuiting from the front. */
  function AnyHit<A, S>(probe: A -> Option<Intersection<S>>, items: seq<A>): (r: bool)
    ensures r <==> exists i :: 0 <= i < |items| && probe(items[i]).Some?
  {
    if |items| == 0 then false
    else probe(items[0]).Some? || AnyHit(probe, items[1..])
  }

  /** The reference meaning of the nearest query: `None` exactly when no item
      is hit; otherwise the result is the hit of some item `k`, no hit is
      nearer, and every later hit is strictly farther (so on exact ties the
      last of the nearest hits is the one returned). */
  ghost predicate IsNearestHit<A, S>(probe: A -> Option<Intersection<S>>, items: seq<A>, r: Option<Intersection<S>>)
  {
    && (r.None? <==> forall i :: 0 <= i < |items| ==> probe(items[i]).None?)
    && (r.Some? ==>
          exists k :: 0 <= k < |items| && IsLastNearest(probe, items, k, r.value))
  }

  ghost predicate IsLastNearest<A, S>(probe: A -> Option<Intersection<S>>, items: seq<A>, k: int, h: Intersection<S>)
    requires 0 <= k < |items|
  {
    && probe(items[k]) == Some(h)
    && (forall j :: 0 <= j < |items| && probe(items[j]).Some? ==> h.distance <= probe(items[j]).value.distance)
    && (forall j :: k < j < |items| && probe(items[j]).Some? ==> h.distance < probe(items[j]).value.distance)
  }

  /** The min-of-filter_map composition meets the reference meaning. */
  function Nearest<A, S>(probe: A -> Option<Intersection<S>>, items: seq<A>): (r: Option<Intersection<S>>)
    ensures IsNearestHit(probe, items, r)
  {
    NearestIsNearestHit(probe, items);
    MinOf(FilterMap(probe, items))
  }

  lemma {:induction false} NearestIsNearestHit<A, S>(probe: A -> Option<Intersection<S>>, items: seq<A>)
    ensures IsNearestHit(probe, items, MinOf(FilterMap(probe, items)))
    decreases |items|
  {
    if |items| == 0 {
      assert FilterMap(probe, items) == [];
    } else {
      var n := |items| - 1;
      var front := items[..n];
      var last := probe(items[n]);
      var hs := FilterMap(probe, front);
      NearestIsNearestHit(probe, front);
      var prev := MinOf(hs);
      if last.None? {
        assert FilterMap(probe, items) == hs;
        if prev.Some? {
          var k :| 0 <= k < |front| && IsLastNearest(probe, front, k, prev.value);
          ExtendByMiss(probe, items, k, prev.value);
        }
        assert forall i :: 0 <= i < n ==> items[i] == front[i];
      } else {
        assert FilterMap(probe, items) == hs + [last.value];
        MinOfSnoc(hs, last.value);
        if prev.None? {
          assert forall i :: 0 <= i < n ==> items[i] == front[i];
          assert IsLastNearest(probe, items, n, last.value);
        } else {
          var k :| 0 <= k < |front| && IsLastNearest(probe, front, k, prev.value);
          ExtendByHit(probe, items, k, prev.value, MinBy(prev.value, last.value));
        }
      }
    }
  }

  lemma MinOfSnoc<S>(hs: seq<Intersection<S>>, h: Intersection<S>)
    ensures MinOf(hs + [h]) == if |hs| == 0 then Some(h) else Some(MinBy(MinOf(hs).value, h))
  {
    assert (hs + [h])[..|hs|] == hs;
  }

  /** A last item that misses leaves the nearest hit of the others in place. */
  lemma ExtendByMiss<A, S>(probe: A -> Option<Intersection<S>>, items: seq<A>, k: int, h: Intersection<S>)
    requires |items| > 0 && probe(items[|items| - 1]).None?
    requires 0 <= k < |items| - 1 && IsLastNearest(probe, items[..|items| - 1], k, h)
    ensures IsLastNearest(probe, items, k, h)
  {
    var front := items[..|items| - 1];
    assert forall i :: 0 <= i < |front| ==> items[i] == front[i];
  }

  /** A last item that hits replaces the nearest hit of the others unless it
      is strictly farther. */
  lemma ExtendByHit<A, S>(probe: A -> Option<Intersection<S>>, items: seq<A>, k: int, h: Intersection<S>, m: Intersection<S>)
    requires |items| > 0 && probe(items[|items| - 1]).Some?
    requires 0 <= k < |items| - 1 && IsLastNearest(probe, items[..|items| - 1], k, h)
    requires m == MinBy(h, probe(items[|items| - 1]).value)
    ensures exists k' :: 0 <= k' < |items| && IsLastNearest(probe, items, k', m)
  {
    var front := items[..|items| - 1];
    var n := |items| - 1;
    var last := probe(items[n]).value;
    assert forall i :: 0 <= i < |front| ==> items[i] == front[i];
    if Cmp(h, last) == Greater {
      assert m == last;
      assert IsLastNearest(probe, items, n, m);
    } else {
      assert m == h;
      assert IsLastNearest(probe, items, k, m);
    }
  }

  /** The `any` query answers yes exactly when the nearest query finds a hit. */
  lemma AnyAgreesWithNearest<A, S>(probe: A -> Option<Intersection<S>>, items: seq<A>)
    ensures AnyHit(probe, items) <==> Nearest(probe, items).Some?
  {
  }
}
