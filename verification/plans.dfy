/**
 The plan half of the speed calculator: the catalog sorted by speed with
 a stable sort, and the choice of the first plan fast enough for a
 required speed, falling back to the fastest plan.
 */
module Plans {
  import opened Wrappers

  /** A plan offer. `speed` is the Mbps tier; the price is display text only. */
  datatype Plan = Plan(name: string, speed: nat, price: string, features: seq<string>, highlighted: bool)

  /** Ascending by speed. */
  predicate Sorted(s: seq<Plan>) {
    forall i, j :: 0 <= i < j < |s| ==> s[i].speed <= s[j].speed
  }

  /** The plans of one speed, in the order the list holds them. */
  function SpeedClass(s: seq<Plan>, v: nat): (r: seq<Plan>)
    ensures forall p :: p in r <==> p in s && p.speed == v
  {
    if |s| == 0 then []
    else (if s[0].speed == v then [s[0]] else []) + SpeedClass(s[1..], v)
  }

  // ---------------------------------------------------------------------------
  // The stable sort
  // ---------------------------------------------------------------------------

  /** Puts `p` in front of the first plan at least as fast, so that it precedes equally fast plans. */
  function Insert(p: Plan, sorted: seq<Plan>): (r: seq<Plan>)
    ensures multiset(r) == multiset(sorted) + multiset{p}
  {
    if |sorted| == 0 then [p]
    else if p.speed <= sorted[0].speed then [p] + sorted
    else
      assert sorted == [sorted[0]] + sorted[1..];
      [sorted[0]] + Insert(p, sorted[1..])
  }

  /** Every plan of a list is counted by its multiset. */
  lemma InMultiset(s: seq<Plan>, q: Plan)
    ensures q in s <==> q in multiset(s)
  {
  }

  /** Inserting into a sorted list keeps it sorted. */
  lemma {:induction false} InsertSorted(p: Plan, sorted: seq<Plan>)
    requires Sorted(sorted)
    ensures Sorted(Insert(p, sorted))
  {
    if |sorted| > 0 && p.speed > sorted[0].speed {
      var rest := Insert(p, sorted[1..]);
      InsertSorted(p, sorted[1..]);
      forall q | q in rest
        ensures sorted[0].speed <= q.speed
      {
        InMultiset(rest, q);
        InMultiset(sorted[1..], q);
      }
      assert Insert(p, sorted) == [sorted[0]] + rest;
    }
  }

  /** The catalog sorted ascending by speed; equally fast plans keep their catalog order. */
  function SortBySpeed(plans: seq<Plan>): (r: seq<Plan>)
    ensures multiset(r) == multiset(plans)
    ensures Sorted(r)
  {
    if |plans| == 0 then []
    else
      assert plans == [plans[0]] + plans[1..];
      var rest := SortBySpeed(plans[1..]);
      InsertSorted(plans[0], rest);
      Insert(plans[0], rest)
  }

  /** Sorting neither adds nor drops a plan. */
  lemma SortSameElements(plans: seq<Plan>)
    ensures |SortBySpeed(plans)| == |plans|
    ensures forall q :: q in plans <==> q in SortBySpeed(plans)
  {
    var sorted := SortBySpeed(plans);
    assert |sorted| == |multiset(sorted)| == |multiset(plans)| == |plans|;
    forall q
      ensures q in plans <==> q in sorted
    {
      InMultiset(plans, q);
      InMultiset(sorted, q);
    }
  }

  /** Inserting `p` puts it first among the plans of its speed and leaves the other speeds alone. */
  lemma {:induction false} InsertStable(p: Plan, sorted: seq<Plan>, v: nat)
    ensures SpeedClass(Insert(p, sorted), v) == SpeedClass([p], v) + SpeedClass(sorted, v)
  {
    if |sorted| == 0 {
      assert SpeedClass(sorted, v) == [];
      assert Insert(p, sorted) == [p];
    } else if p.speed <= sorted[0].speed {
      SpeedClassAppend([p], sorted, v);
    } else {
      var head, rest := [sorted[0]], sorted[1..];
      assert sorted == head + rest;
      assert Insert(p, sorted) == head + Insert(p, rest);
      InsertStable(p, rest, v);
      SpeedClassAppend(head, Insert(p, rest), v);
      SpeedClassAppend(head, rest, v);
      assert SpeedClass(head, v) == [] || SpeedClass([p], v) == [] by {
        assert SpeedClass(head, v) == (if sorted[0].speed == v then head else []);
        assert SpeedClass([p], v) == (if p.speed == v then [p] else []);
      }
      calc {
        SpeedClass(Insert(p, sorted), v);
        SpeedClass(head, v) + (SpeedClass([p], v) + SpeedClass(rest, v));
        SpeedClass([p], v) + (SpeedClass(head, v) + SpeedClass(rest, v));
        SpeedClass([p], v) + SpeedClass(sorted, v);
      }
    }
  }

  /** Taking a speed class distributes over concatenation. */
  lemma {:induction false} SpeedClassAppend(s: seq<Plan>, t: seq<Plan>, v: nat)
    ensures SpeedClass(s + t, v) == SpeedClass(s, v) + SpeedClass(t, v)
  {
    if |s| == 0 {
      assert s + t == t;
    } else {
      assert (s + t)[1..] == s[1..] + t;
      SpeedClassAppend(s[1..], t, v);
    }
  }

  /** Stability: for every speed, the sorted catalog lists the plans of that speed in catalog order. */
  lemma {:induction false} SortStable(plans: seq<Plan>, v: nat)
    ensures SpeedClass(SortBySpeed(plans), v) == SpeedClass(plans, v)
  {
    if |plans| > 0 {
      SortStable(plans[1..], v);
      InsertStable(plans[0], SortBySpeed(plans[1..]), v);
      SpeedClassAppend([plans[0]], plans[1..], v);
      assert plans == [plans[0]] + plans[1..];
    }
  }

  // ---------------------------------------------------------------------------
  // The recommendation
  // ---------------------------------------------------------------------------

  /** The scan over the sorted catalog: the first plan whose speed meets the requirement. */
  function FirstAtLeast(sorted: seq<Plan>, required: int): (r: Option<Plan>)
    ensures r.None? <==> forall i :: 0 <= i < |sorted| ==> sorted[i].speed < required
    ensures r.Some? ==> exists k :: 0 <= k < |sorted| && sorted[k] == r.value && r.value.speed >= required
                          && forall j :: 0 <= j < k ==> sorted[j].speed < required
  {
    if |sorted| == 0 then None
    else if sorted[0].speed >= required then Some(sorted[0])
    else
      var r := FirstAtLeast(sorted[1..], required);
      assert r.Some? ==> exists k :: 0 <= k < |sorted| && sorted[k] == r.value && r.value.speed >= required
                          && forall j :: 0 <= j < k ==> sorted[j].speed < required by {
        if r.Some? {
          var k :| 0 <= k < |sorted[1..]| && sorted[1..][k] == r.value && r.value.speed >= required
                   && forall j :: 0 <= j < k ==> sorted[1..][j].speed < required;
          assert sorted[k + 1] == r.value;
          assert forall j :: 0 <= j < k + 1 ==> sorted[j].speed < required by {
            forall j | 0 <= j < k + 1 ensures sorted[j].speed < required {
              if j > 0 {
                assert sorted[j] == sorted[1..][j - 1];
              }
            }
          }
        }
      }
      r
  }

  /** On a sorted list, the plan the scan finds is no faster than any other fast-enough plan. */
  lemma ScanMinimal(sorted: seq<Plan>, required: int)
    requires Sorted(sorted)
    ensures FirstAtLeast(sorted, required).Some? ==>
              forall q :: q in sorted && q.speed >= required ==> FirstAtLeast(sorted, required).value.speed <= q.speed
  {
    if FirstAtLeast(sorted, required).Some? {
      var p := FirstAtLeast(sorted, required).value;
      var k :| 0 <= k < |sorted| && sorted[k] == p && p.speed >= required
                && forall j :: 0 <= j < k ==> sorted[j].speed < required;
      forall q | q in sorted && q.speed >= required
        ensures p.speed <= q.speed
      {
        var m :| 0 <= m < |sorted| && sorted[m] == q;
        if m < k {
          assert sorted[m].speed < required;
        }
      }
    }
  }

  /** The last plan of a sorted list is at least as fast as every plan of it. */
  lemma LastIsFastest(sorted: seq<Plan>)
    requires Sorted(sorted)
    ensures |sorted| > 0 ==> forall q :: q in sorted ==> q.speed <= sorted[|sorted| - 1].speed
  {
    if |sorted| > 0 {
      forall q | q in sorted
        ensures q.speed <= sorted[|sorted| - 1].speed
      {
        var m :| 0 <= m < |sorted| && sorted[m] == q;
        if m < |sorted| - 1 {
          assert sorted[m].speed <= sorted[|sorted| - 1].speed;
        }
      }
    }
  }

  /** Sorting a list that is already ascending leaves it unchanged. */
  lemma {:induction false} SortOfSorted(plans: seq<Plan>)
    requires Sorted(plans)
    ensures SortBySpeed(plans) == plans
  {
    if |plans| > 0 {
      SortOfSorted(plans[1..]);
      assert plans == [plans[0]] + plans[1..];
    }
  }

  /**
   The plan recommended for a required speed: the first plan of the
   sorted catalog that is fast enough, otherwise the last (fastest) one.
   An empty catalog has no plan to return.
   */
  function Recommend(required: int, plans: seq<Plan>): (r: Option<Plan>)
    ensures r.None? <==> |plans| == 0
    ensures r.Some? ==> r.value in plans
    ensures r.Some? && (exists q :: q in plans && q.speed >= required) ==>
              r.value.speed >= required && forall q :: q in plans && q.speed >= required ==> r.value.speed <= q.speed
    ensures r.Some? && (forall q :: q in plans ==> q.speed < required) ==>
              forall q :: q in plans ==> q.speed <= r.value.speed
  {
    var sorted := SortBySpeed(plans);
    SortSameElements(plans);
    ScanMinimal(sorted, required);
    LastIsFastest(sorted);
    match FirstAtLeast(sorted, required)
    case Some(p) => Some(p)
    case None => if |sorted| == 0 then None else Some(sorted[|sorted| - 1])
  }

  /** Some plan of the catalog is fast enough. */
  ghost predicate SomeQualifies(required: int, plans: seq<Plan>) {
    exists q :: q in plans && q.speed >= required
  }

  /** `p` is the slowest fast-enough plan, and the earliest in the catalog among equally slow ones. */
  ghost predicate IsCheapestQualifying(required: int, plans: seq<Plan>, p: Plan) {
    exists i :: 0 <= i < |plans| && plans[i] == p && p.speed >= required
      && (forall q :: q in plans && q.speed >= required ==> p.speed <= q.speed)
      && (forall j :: 0 <= j < i ==> plans[j].speed != p.speed)
  }

  /** `p` is the fastest plan, and the latest in the catalog among equally fast ones. */
  ghost predicate IsFastestLast(plans: seq<Plan>, p: Plan) {
    exists i :: 0 <= i < |plans| && plans[i] == p
      && (forall q :: q in plans ==> q.speed <= p.speed)
      && (forall j :: i < j < |plans| ==> plans[j].speed != p.speed)
  }

  /**
   Reference definition of the recommendation, on the catalog as given:
   the cheapest qualifying plan when one qualifies, the fastest plan otherwise.
   */
  ghost predicate IsRecommendation(required: int, plans: seq<Plan>, p: Plan) {
    if SomeQualifies(required, plans) then IsCheapestQualifying(required, plans, p)
    else IsFastestLast(plans, p)
  }

  /** A plan at position `k` with no plan of its speed before it heads its speed class. */
  lemma {:induction false} ClassHead(s: seq<Plan>, k: int)
    requires 0 <= k < |s|
    requires forall j :: 0 <= j < k ==> s[j].speed != s[k].speed
    ensures |SpeedClass(s, s[k].speed)| > 0 && SpeedClass(s, s[k].speed)[0] == s[k]
  {
    if k > 0 {
      ClassHead(s[1..], k - 1);
    }
  }

  /** The head of a speed class sits at a position with no plan of that speed before it. */
  lemma {:induction false} ClassHeadPosition(s: seq<Plan>, v: nat)
    requires |SpeedClass(s, v)| > 0
    ensures exists i :: 0 <= i < |s| && s[i] == SpeedClass(s, v)[0]
              && forall j :: 0 <= j < i ==> s[j].speed != v
  {
    if s[0].speed != v {
      ClassHeadPosition(s[1..], v);
      var i :| 0 <= i < |s[1..]| && s[1..][i] == SpeedClass(s[1..], v)[0]
               && forall j :: 0 <= j < i ==> s[1..][j].speed != v;
      assert s[i + 1] == SpeedClass(s, v)[0];
      assert forall j :: 0 <= j < i + 1 ==> s[j].speed != v by {
        forall j | 0 <= j < i + 1 ensures s[j].speed != v {
          if j > 0 {
            assert s[j] == s[1..][j - 1];
          }
        }
      }
    } else {
      assert s[0] == SpeedClass(s, v)[0];
    }
  }

  /** A plan at position `k` with no plan of its speed after it ends its speed class. */
  lemma {:induction false} ClassLast(s: seq<Plan>, k: int)
    requires 0 <= k < |s|
    requires forall j :: k < j < |s| ==> s[j].speed != s[k].speed
    ensures |SpeedClass(s, s[k].speed)| > 0
    ensures SpeedClass(s, s[k].speed)[|SpeedClass(s, s[k].speed)| - 1] == s[k]
  {
    var v := s[k].speed;
    var pre, post := s[..k], s[k + 1..];
    assert s == pre + [s[k]] + post;
    SpeedClassAppend(pre + [s[k]], post, v);
    SpeedClassAppend(pre, [s[k]], v);
    ClassEmpty(post, v);
  }

  /** A list with no plan of speed `v` has an empty speed class for `v`. */
  lemma {:induction false} ClassEmpty(s: seq<Plan>, v: nat)
    requires forall j :: 0 <= j < |s| ==> s[j].speed != v
    ensures SpeedClass(s, v) == []
  {
    if |s| > 0 {
      ClassEmpty(s[1..], v);
    }
  }

  /** The last of a speed class sits at a position with no plan of that speed after it. */
  lemma {:induction false} ClassLastPosition(s: seq<Plan>, v: nat)
    requires |SpeedClass(s, v)| > 0
    ensures exists i :: 0 <= i < |s| && s[i] == SpeedClass(s, v)[|SpeedClass(s, v)| - 1]
              && forall j :: i < j < |s| ==> s[j].speed != v
  {
    var init, last := s[..|s| - 1], s[|s| - 1];
    assert s == init + [last];
    SpeedClassAppend(init, [last], v);
    if last.speed == v {
      assert s[|s| - 1] == SpeedClass(s, v)[|SpeedClass(s, v)| - 1];
    } else {
      assert SpeedClass(s, v) == SpeedClass(init, v);
      ClassLastPosition(init, v);
      var i :| 0 <= i < |init| && init[i] == SpeedClass(init, v)[|SpeedClass(init, v)| - 1]
               && forall j :: i < j < |init| ==> init[j].speed != v;
      assert s[i] == init[i];
    }
  }

  /** When the scan finds a plan, it is the cheapest qualifying one of the catalog. */
  lemma SoundWhenFound(required: int, plans: seq<Plan>)
    requires FirstAtLeast(SortBySpeed(plans), required).Some?
    ensures IsCheapestQualifying(required, plans, Recommend(required, plans).value)
  {
    var sorted := SortBySpeed(plans);
    var p := FirstAtLeast(sorted, required).value;
    assert Recommend(required, plans) == Some(p);
    SortStable(plans, p.speed);
    var k :| 0 <= k < |sorted| && sorted[k] == p && p.speed >= required
              && forall j :: 0 <= j < k ==> sorted[j].speed < required;
    ClassHead(sorted, k);
    ClassHeadPosition(plans, p.speed);
  }

  /** When the scan finds nothing, the last plan of the sorted catalog is the fastest, latest one. */
  lemma SoundWhenNotFound(required: int, plans: seq<Plan>)
    requires |plans| > 0
    requires FirstAtLeast(SortBySpeed(plans), required).None?
    ensures !SomeQualifies(required, plans)
    ensures IsFastestLast(plans, Recommend(required, plans).value)
  {
    var sorted := SortBySpeed(plans);
    SortSameElements(plans);
    var k := |sorted| - 1;
    var p := sorted[k];
    assert Recommend(required, plans) == Some(p);
    SortStable(plans, p.speed);
    ClassLast(sorted, k);
    ClassLastPosition(plans, p.speed);
  }

  /** The recommender meets its reference definition, tie-breaks included. */
  lemma RecommendSound(required: int, plans: seq<Plan>)
    requires |plans| > 0
    ensures IsRecommendation(required, plans, Recommend(required, plans).value)
  {
    if FirstAtLeast(SortBySpeed(plans), required).Some? {
      SoundWhenFound(required, plans);
    } else {
      SoundWhenNotFound(required, plans);
    }
  }

  /** At most one plan meets the reference definition. */
  lemma RecommendationUnique(required: int, plans: seq<Plan>, p: Plan, p': Plan)
    requires IsRecommendation(required, plans, p)
    requires IsRecommendation(required, plans, p')
    ensures p == p'
  {
    if SomeQualifies(required, plans) {
      var i :| 0 <= i < |plans| && plans[i] == p && p.speed >= required
        && (forall q :: q in plans && q.speed >= required ==> p.speed <= q.speed)
        && (forall j :: 0 <= j < i ==> plans[j].speed != p.speed);
      var i' :| 0 <= i' < |plans| && plans[i'] == p' && p'.speed >= required
        && (forall q :: q in plans && q.speed >= required ==> p'.speed <= q.speed)
        && (forall j :: 0 <= j < i' ==> plans[j].speed != p'.speed);
      assert p.speed == p'.speed;
      assert i == i';
    } else {
      var i :| 0 <= i < |plans| && plans[i] == p
        && (forall q :: q in plans ==> q.speed <= p.speed)
        && (forall j :: i < j < |plans| ==> plans[j].speed != p.speed);
      var i' :| 0 <= i' < |plans| && plans[i'] == p'
        && (forall q :: q in plans ==> q.speed <= p'.speed)
        && (forall j :: i' < j < |plans| ==> plans[j].speed != p'.speed);
      assert p.speed == p'.speed;
      assert i == i';
    }
  }

  /** The recommender returns a plan exactly when that plan meets the reference definition. */
  lemma RecommendIff(required: int, plans: seq<Plan>, p: Plan)
    ensures Recommend(required, plans) == Some(p) <==> IsRecommendation(required, plans, p)
  {
    if IsRecommendation(required, plans, p) {
      assert |plans| > 0;
      RecommendSound(required, plans);
      RecommendationUnique(required, plans, p, Recommend(required, plans).value);
    }
    if Recommend(required, plans) == Some(p) {
      RecommendSound(required, plans);
    }
  }

  /** A higher requirement never yields a slower recommendation. */
  lemma RecommendMonotone(r1: int, r2: int, plans: seq<Plan>)
    requires r1 <= r2
    requires |plans| > 0
    ensures Recommend(r1, plans).value.speed <= Recommend(r2, plans).value.speed
  {
    var p1, p2 := Recommend(r1, plans).value, Recommend(r2, plans).value;
    if exists q :: q in plans && q.speed >= r2 {
      var q :| q in plans && q.speed >= r2;
      assert p1.speed <= q.speed;
    }
  }

  /** A requirement above every plan's speed yields a plan of the catalog's top speed. */
  lemma RecommendFallback(required: int, plans: seq<Plan>, top: nat)
    requires |plans| > 0
    requires exists q :: q in plans && q.speed == top
    requires forall q :: q in plans ==> q.speed <= top
    requires top < required
    ensures Recommend(required, plans).value.speed == top
  {
  }
}
