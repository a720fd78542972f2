/**
 * The ATHIS GraphHopper service: the catalogue of intervention areas of
 * Uberaba, their ranking by priority for route planning, and the guard and
 * request of the route calculation that is delegated to the GraphHopper
 * routing API.
 */
module Routing {
  import opened Wrappers
  import opened Seqs

  /** A geographic point in decimal degrees. */
  datatype RoutePoint = RoutePoint(lat: real, lng: real)

  datatype Priority = Low | Medium | High | Critical

  datatype Infrastructure = Good | Poor | Inexistent

  /** An intervention area: a polygon given by its corner points, with its urgency. */
  datatype Area = Area(
    id: string,
    name: string,
    coordinates: seq<RoutePoint>,
    priority: Priority,
    population: nat,
    infrastructure: Infrastructure)

  // ---------------------------------------------------------------------------
  // Priority ranking (getOptimalRoute)
  // ---------------------------------------------------------------------------

  /** The weight table of the ranking: critical 4, high 3, medium 2, low 1. */
  function Weight(p: Priority): (w: int)
    ensures 1 <= w <= 4
  {
    match p
    case Critical => 4
    case High => 3
    case Medium => 2
    case Low => 1
  }

  /** Distinct priorities have distinct weights, ordered as the urgency they name. */
  lemma WeightTable(p: Priority, q: Priority)
    ensures Weight(p) == Weight(q) <==> p == q
    ensures Weight(Critical) > Weight(High) > Weight(Medium) > Weight(Low)
  {
  }

  /**
   * The comparator handed to `sort`: negative when `a` must come before `b`,
   * zero when the two may stay in either order.
   */
  function Compare(a: Area, b: Area): (c: int)
    ensures c < 0 <==> Weight(a.priority) > Weight(b.priority)
    ensures c == 0 <==> a.priority == b.priority
  {
    Weight(b.priority) - Weight(a.priority)
  }

  /** Non-increasing in priority weight: the most urgent areas first. */
  ghost predicate NonIncreasing(s: seq<Area>)
  {
    forall i, j :: 0 <= i < j < |s| ==> Weight(s[i].priority) >= Weight(s[j].priority)
  }

  /** `a` alone if it has priority `p`, nothing otherwise. */
  function Only(a: Area, p: Priority): (r: seq<Area>)
  {
    if a.priority == p then [a] else []
  }

  /** The areas of `s` of priority `p`, in their order in `s`. */
  function WithPriority(s: seq<Area>, p: Priority): (r: seq<Area>)
    ensures |r| <= |s|
  {
    if s == [] then [] else Only(s[0], p) + WithPriority(s[1..], p)
  }

  /** The class of `p` in a sequence of three areas. */
  lemma WithPriorityOfThree(x: Area, y: Area, z: Area, p: Priority)
    ensures WithPriority([x, y, z], p) == Only(x, p) + Only(y, p) + Only(z, p)
  {
    assert [x, y, z][1..] == [y, z];
    assert [y, z][1..] == [z];
    WithPrioritySingleton(z, p);
    assert WithPriority([y, z], p) == Only(y, p) + Only(z, p);
    assert WithPriority([x, y, z], p) == Only(x, p) + (Only(y, p) + Only(z, p));
  }

  /** The class of `p` in a sequence of four areas. */
  lemma WithPriorityOfFour(w: Area, x: Area, y: Area, z: Area, p: Priority)
    ensures WithPriority([w, x, y, z], p) == Only(w, p) + Only(x, p) + Only(y, p) + Only(z, p)
  {
    assert [w, x, y, z][1..] == [x, y, z];
    WithPriorityOfThree(x, y, z, p);
  }

  /** The class of `p` holds exactly the areas of `s` whose priority is `p`. */
  lemma {:induction false} WithPriorityMembers(s: seq<Area>, p: Priority, a: Area)
    ensures a in WithPriority(s, p) <==> a in s && a.priority == p
  {
    if s != [] {
      WithPriorityMembers(s[1..], p, a);
      assert a in s <==> a == s[0] || a in s[1..];
    }
  }

  /** The class of `p` in a one-element sequence. */
  lemma WithPrioritySingleton(x: Area, p: Priority)
    ensures WithPriority([x], p) == Only(x, p)
  {
    assert [x][1..] == [];
  }

  /** Selecting a priority from a concatenation selects from each part, in order. */
  lemma {:induction false} WithPriorityAppend(a: seq<Area>, b: seq<Area>, p: Priority)
    ensures WithPriority(a + b, p) == WithPriority(a, p) + WithPriority(b, p)
  {
    if a == [] {
      assert a + b == b;
    } else {
      var head := Only(a[0], p);
      calc {
        WithPriority(a + b, p);
        == { assert (a + b)[0] == a[0]; assert (a + b)[1..] == a[1..] + b; }
        head + WithPriority(a[1..] + b, p);
        == { WithPriorityAppend(a[1..], b, p); }
        head + (WithPriority(a[1..], p) + WithPriority(b, p));
        ==
        (head + WithPriority(a[1..], p)) + WithPriority(b, p);
      }
    }
  }

  /**
   * `r` holds the areas of `s` and, within each priority, in the same
   * order: what a stable sort keyed on priority leaves.
   */
  ghost predicate SamePerPriority(s: seq<Area>, r: seq<Area>)
  {
    forall p :: WithPriority(r, p) == WithPriority(s, p)
  }

  /** Agreeing on every priority class makes `r` a rearrangement of `s`. */
  lemma {:induction false} SamePerPriorityPermutes(s: seq<Area>, r: seq<Area>)
    requires SamePerPriority(s, r)
    ensures multiset(r) == multiset(s)
  {
    forall a ensures multiset(r)[a] == multiset(s)[a] {
      WithPriorityCount(r, a);
      WithPriorityCount(s, a);
      assert WithPriority(r, a.priority) == WithPriority(s, a.priority);
    }
  }

  /** An area occurs in its own priority class as often as in the whole sequence. */
  lemma {:induction false} WithPriorityCount(s: seq<Area>, a: Area)
    ensures multiset(WithPriority(s, a.priority))[a] == multiset(s)[a]
  {
    if s != [] {
      assert s == [s[0]] + s[1..];
      WithPriorityCount(s[1..], a);
    }
  }

  /**
   * Stable insertion of `x` after `t`: `x` moves in front of exactly those
   * trailing elements that the comparator puts after it.
   */
  function Insert(t: seq<Area>, x: Area): (r: seq<Area>)
    ensures |r| == |t| + 1
    ensures multiset(r) == multiset(t) + multiset{x}
    decreases |t|
  {
    if t == [] || Compare(t[|t| - 1], x) <= 0 then t + [x]
    else
      assert t == t[..|t| - 1] + [t[|t| - 1]];
      Insert(t[..|t| - 1], x) + [t[|t| - 1]]
  }

  /** Inserting into a ranked sequence keeps it ranked. */
  lemma {:induction false} InsertOrdered(t: seq<Area>, x: Area)
    requires NonIncreasing(t)
    ensures NonIncreasing(Insert(t, x))
  {
    if t == [] || Compare(t[|t| - 1], x) <= 0 {
      var r := t + [x];
      forall i, j | 0 <= i < j < |r| ensures Weight(r[i].priority) >= Weight(r[j].priority) {
        if j == |t| && i < |t| - 1 {
          assert Weight(t[i].priority) >= Weight(t[|t| - 1].priority);
        }
      }
    } else {
      var init, last := t[..|t| - 1], t[|t| - 1];
      assert NonIncreasing(init) by {
        forall i, j | 0 <= i < j < |init| ensures Weight(init[i].priority) >= Weight(init[j].priority) {
          assert init[i] == t[i] && init[j] == t[j];
        }
      }
      InsertOrdered(init, x);
      var ins := Insert(init, x);
      forall k | 0 <= k < |ins| ensures Weight(ins[k].priority) >= Weight(last.priority) {
        assert ins[k] in multiset(ins);
        if ins[k] != x {
          assert ins[k] in init;
          var m :| 0 <= m < |init| && init[m] == ins[k];
          assert t[m] == init[m];
        }
      }
      var r := ins + [last];
      forall i, j | 0 <= i < j < |r| ensures Weight(r[i].priority) >= Weight(r[j].priority) {
        if j < |ins| {
          assert r[i] == ins[i] && r[j] == ins[j];
        }
      }
    }
  }

  /** Insertion appends `x` to its own priority class and leaves the other classes alone. */
  lemma {:induction false} InsertPerPriority(t: seq<Area>, x: Area, p: Priority)
    ensures WithPriority(Insert(t, x), p) == WithPriority(t, p) + WithPriority([x], p)
  {
    if t == [] || Compare(t[|t| - 1], x) <= 0 {
      WithPriorityAppend(t, [x], p);
    } else {
      var init, last := t[..|t| - 1], t[|t| - 1];
      assert t == init + [last];
      InsertPerPriority(init, x, p);
      WithPriorityAppend(Insert(init, x), [last], p);
      WithPriorityAppend(init, [last], p);
      WithPrioritySingleton(x, p);
      WithPrioritySingleton(last, p);
    }
  }

  /** The reference ranking: insertion sort by descending priority weight. */
  function SortByPriority(s: seq<Area>): (r: seq<Area>)
    ensures |r| == |s|
    ensures multiset(r) == multiset(s)
    decreases |s|
  {
    if s == [] then []
    else
      assert s == s[..|s| - 1] + [s[|s| - 1]];
      Insert(SortByPriority(s[..|s| - 1]), s[|s| - 1])
  }

  /** The reference ranking is non-increasing in weight. */
  lemma {:induction false} SortByPriorityOrdered(s: seq<Area>)
    ensures NonIncreasing(SortByPriority(s))
  {
    if s != [] {
      SortByPriorityOrdered(s[..|s| - 1]);
      InsertOrdered(SortByPriority(s[..|s| - 1]), s[|s| - 1]);
    }
  }

  /** The reference ranking keeps the input order within every priority class. */
  lemma {:induction false} SortByPriorityStable(s: seq<Area>, p: Priority)
    ensures WithPriority(SortByPriority(s), p) == WithPriority(s, p)
  {
    if s != [] {
      var init, last := s[..|s| - 1], s[|s| - 1];
      assert s == init + [last];
      SortByPriorityStable(init, p);
      InsertPerPriority(SortByPriority(init), last, p);
      WithPriorityAppend(init, [last], p);
    }
  }

  /** The reference ranking is a stable sort: a ranked permutation that keeps ties in input order. */
  lemma SortByPriorityIsStableSort(s: seq<Area>)
    ensures NonIncreasing(SortByPriority(s))
    ensures SamePerPriority(s, SortByPriority(s))
    ensures multiset(SortByPriority(s)) == multiset(s)
  {
    SortByPriorityOrdered(s);
    forall p ensures WithPriority(SortByPriority(s), p) == WithPriority(s, p) {
      SortByPriorityStable(s, p);
    }
  }

  /** In a ranked sequence no area outweighs the first one. */
  lemma HeadOfRanked(r: seq<Area>, a: Area)
    requires NonIncreasing(r) && a in r
    ensures Weight(a.priority) <= Weight(r[0].priority)
  {
    var i :| 0 <= i < |r| && r[i] == a;
    if i > 0 {
      assert Weight(r[0].priority) >= Weight(r[i].priority);
    }
  }

  /**
   * Stable sorting by priority has one answer: two ranked sequences that
   * agree on the order within every priority class are equal.
   */
  lemma {:induction false} StableSortUnique(r1: seq<Area>, r2: seq<Area>)
    requires NonIncreasing(r1) && NonIncreasing(r2)
    requires SamePerPriority(r1, r2)
    ensures r1 == r2
  {
    if r1 == [] || r2 == [] {
      if r1 != [] {
        WithPriorityMembers(r1, r1[0].priority, r1[0]);
      } else if r2 != [] {
        WithPriorityMembers(r2, r2[0].priority, r2[0]);
      }
    } else {
      var a, b := r1[0], r2[0];
      WithPriorityMembers(r1, a.priority, a);
      WithPriorityMembers(r2, a.priority, a);
      WithPriorityMembers(r1, b.priority, b);
      WithPriorityMembers(r2, b.priority, b);
      HeadOfRanked(r2, a);
      HeadOfRanked(r1, b);
      WeightTable(a.priority, b.priority);
      assert WithPriority(r1, a.priority)[0] == a;
      assert WithPriority(r2, a.priority)[0] == b;
      assert WithPriority(r1, a.priority) == WithPriority(r2, a.priority);
      assert a == b;
      forall p ensures WithPriority(r1[1..], p) == WithPriority(r2[1..], p) {
        var head := Only(a, p);
        var w1, w2 := WithPriority(r1, p), WithPriority(r2, p);
        assert w1 == head + WithPriority(r1[1..], p);
        assert w2 == head + WithPriority(r2[1..], p);
        assert w1 == w2;
        assert WithPriority(r1[1..], p) == w1[|head|..];
        assert WithPriority(r2[1..], p) == w2[|head|..];
      }
      assert NonIncreasing(r1[1..]) by {
        forall i, j | 0 <= i < j < |r1[1..]| ensures Weight(r1[1..][i].priority) >= Weight(r1[1..][j].priority) {
          assert r1[1..][i] == r1[i + 1] && r1[1..][j] == r1[j + 1];
        }
      }
      assert NonIncreasing(r2[1..]) by {
        forall i, j | 0 <= i < j < |r2[1..]| ensures Weight(r2[1..][i].priority) >= Weight(r2[1..][j].priority) {
          assert r2[1..][i] == r2[i + 1] && r2[1..][j] == r2[j + 1];
        }
      }
      StableSortUnique(r1[1..], r2[1..]);
      assert r1 == [a] + r1[1..] && r2 == [b] + r2[1..];
    }
  }

  /**
   * Any arrangement of the areas that is ranked by weight and keeps input
   * order among equal priorities is the reference ranking.
   */
  lemma RankingIsTheStableSort(s: seq<Area>, r: seq<Area>)
    requires NonIncreasing(r) && SamePerPriority(s, r)
    ensures r == SortByPriority(s)
  {
    SortByPriorityIsStableSort(s);
    StableSortUnique(r, SortByPriority(s));
  }

  /** Areas with equal priority keep their input order: a critical pair ahead of medium and low. */
  lemma TiesKeepInputOrder(a: Area, b: Area, c: Area, d: Area)
    requires a.priority == Medium && b.priority == Critical
    requires c.priority == Critical && d.priority == Low
    ensures SortByPriority([a, b, c, d]) == [b, c, a, d]
  {
    var s, r := [a, b, c, d], [b, c, a, d];
    assert NonIncreasing(r);
    forall p ensures WithPriority(r, p) == WithPriority(s, p) {
      WithPriorityOfFour(a, b, c, d, p);
      WithPriorityOfFour(b, c, a, d, p);
    }
    RankingIsTheStableSort(s, r);
  }

  /**
   * `getOptimalRoute`: sorts the caller's array in place by descending
   * priority weight with a stable sort and returns that same array.
   */
  method GetOptimalRoute(areas: array<Area>) returns (priorityOrder: array<Area>)
    modifies areas
    ensures priorityOrder == areas
    ensures areas[..] == SortByPriority(old(areas[..]))
    ensures multiset(areas[..]) == multiset(old(areas[..]))
    ensures NonIncreasing(areas[..])
    ensures SamePerPriority(old(areas[..]), areas[..])
  {
    ghost var input := areas[..];
    for i := 0 to areas.Length
      invariant areas[..i] == SortByPriority(input[..i])
      invariant forall k :: i <= k < areas.Length ==> areas[k] == input[k]
    {
      SortByPriorityExtend(input, i);
      InsertAt(areas, i);
    }
    assert input[..areas.Length] == input;
    assert areas[..areas.Length] == areas[..];
    SortByPriorityIsStableSort(input);
    priorityOrder := areas;
  }

  /** Ranking one more element of the input inserts it into the ranking of the elements before it. */
  lemma SortByPriorityExtend(s: seq<Area>, i: nat)
    requires i < |s|
    ensures SortByPriority(s[..i + 1]) == Insert(SortByPriority(s[..i]), s[i])
  {
    assert s[..i + 1][..i] == s[..i];
  }

  /** One pass of the insertion sort: moves `a[i]` to its place among the ranked `a[..i]`. */
  method InsertAt(a: array<Area>, i: nat)
    requires i < a.Length
    modifies a
    ensures a[..i + 1] == Insert(old(a[..i]), old(a[i]))
    ensures forall k :: i < k < a.Length ==> a[k] == old(a[k])
  {
    ghost var t := a[..i];
    var x := a[i];
    var j := MakeRoom(a, i, x);
    a[j] := x;
    ShiftedIsSplit(a[..i + 1], t, x, j);
    InsertSplit(t, x, j);
  }

  /**
   * The inner loop of the insertion sort: shifts one place up every area of
   * `a[..i]`, from the back, that the comparator puts after `x`, and returns
   * the hole left behind.
   */
  method MakeRoom(a: array<Area>, i: nat, x: Area) returns (j: nat)
    requires i < a.Length
    modifies a
    ensures j <= i
    ensures forall k :: 0 <= k < j ==> a[k] == old(a[k])
    ensures forall k :: j < k <= i ==> a[k] == old(a[k - 1])
    ensures forall k :: i < k < a.Length ==> a[k] == old(a[k])
    ensures j == 0 || Compare(old(a[j - 1]), x) <= 0
    ensures forall m :: j <= m < i ==> Compare(old(a[m]), x) > 0
  {
    j := i;
    while j > 0 && Compare(a[j - 1], x) > 0
      invariant 0 <= j <= i
      invariant forall k :: 0 <= k < j ==> a[k] == old(a[k])
      invariant forall k :: j < k <= i ==> a[k] == old(a[k - 1])
      invariant forall k :: i < k < a.Length ==> a[k] == old(a[k])
      invariant forall m :: j <= m < i ==> Compare(old(a[m]), x) > 0
      decreases j
    {
      a[j] := a[j - 1];
      j := j - 1;
    }
  }

  /** A sequence holding `t[..j]`, then `x`, then the rest of `t` shifted one place up. */
  lemma ShiftedIsSplit(s: seq<Area>, t: seq<Area>, x: Area, j: nat)
    requires j <= |t| && |s| == |t| + 1
    requires forall k :: 0 <= k < j ==> s[k] == t[k]
    requires s[j] == x
    requires forall k :: j < k <= |t| ==> s[k] == t[k - 1]
    ensures s == t[..j] + [x] + t[j..]
  {
    var r := t[..j] + [x] + t[j..];
    forall k | 0 <= k < |s| ensures s[k] == r[k] {
      if k < j {
        assert r[k] == t[k];
      } else if k > j {
        assert r[k] == t[k - 1];
      }
    }
  }

  /**
   * Where Insert puts `x`: behind the longest prefix of `t` whose last element
   * the comparator does not put after `x`.
   */
  lemma {:induction false} InsertSplit(t: seq<Area>, x: Area, j: nat)
    requires j <= |t|
    requires j == 0 || Compare(t[j - 1], x) <= 0
    requires forall m :: j <= m < |t| ==> Compare(t[m], x) > 0
    ensures Insert(t, x) == t[..j] + [x] + t[j..]
    decreases |t|
  {
    if j == |t| {
      assert t[..j] == t && t[j..] == [];
    } else {
      var init, last := t[..|t| - 1], t[|t| - 1];
      assert Insert(t, x) == Insert(init, x) + [last] by {
        assert Compare(last, x) > 0;
      }
      assert j == 0 || Compare(init[j - 1], x) <= 0 by {
        if j > 0 {
          assert init[j - 1] == t[j - 1];
        }
      }
      assert forall m :: j <= m < |init| ==> Compare(init[m], x) > 0 by {
        forall m | j <= m < |init| ensures Compare(init[m], x) > 0 {
          assert init[m] == t[m];
        }
      }
      InsertSplit(init, x, j);
      SplitSnoc(t, x, j);
    }
  }

  /** Putting `x` at position `j` of `t` commutes with taking off the last element of `t`. */
  lemma SplitSnoc(t: seq<Area>, x: Area, j: nat)
    requires j < |t|
    ensures t[..|t| - 1][..j] + [x] + t[..|t| - 1][j..] + [t[|t| - 1]] == t[..j] + [x] + t[j..]
  {
    var init := t[..|t| - 1];
    assert t == init + [t[|t| - 1]];
    assert t[..j] == init[..j];
    assert t[j..] == init[j..] + [t[|t| - 1]];
  }

  // ---------------------------------------------------------------------------
  // Seed catalogue (getUberabaAreas)
  // ---------------------------------------------------------------------------

  /** The three intervention areas of Uberaba the service ships with. */
  function UberabaAreas(): (areas: seq<Area>)
  {
    [
      Area("industrial", "Zona Industrial",
        [RoutePoint(-19.740, -47.940), RoutePoint(-19.740, -47.935),
         RoutePoint(-19.745, -47.935), RoutePoint(-19.745, -47.940)],
        High, 12500, Poor),
      Area("periferia_norte", "Periferia Norte",
        [RoutePoint(-19.755, -47.925), RoutePoint(-19.755, -47.920),
         RoutePoint(-19.760, -47.920), RoutePoint(-19.760, -47.925)],
        Critical, 8900, Inexistent),
      Area("centro", "Centro Histórico",
        [RoutePoint(-19.747, -47.932), RoutePoint(-19.747, -47.927),
         RoutePoint(-19.752, -47.927), RoutePoint(-19.752, -47.932)],
        Medium, 15600, Good)
    ]
  }

  /** The identifiers of a sequence of areas, in order. */
  function Ids(s: seq<Area>): (ids: seq<string>)
    ensures |ids| == |s|
    ensures forall k :: 0 <= k < |s| ==> ids[k] == s[k].id
  {
    if s == [] then [] else [s[0].id] + Ids(s[1..])
  }

  /** The catalogue: three areas with distinct ids, each a quadrilateral. */
  lemma SeedCatalog()
    ensures Ids(UberabaAreas()) == ["industrial", "periferia_norte", "centro"]
    ensures UberabaAreas()[0].priority == High
    ensures UberabaAreas()[1].priority == Critical
    ensures UberabaAreas()[2].priority == Medium
    ensures forall k :: 0 <= k < |UberabaAreas()| ==> |UberabaAreas()[k].coordinates| == 4
  {
  }

  /** A critical area outranks a high one, which outranks a medium one, whatever their input order. */
  lemma RankHighCriticalMedium(x: Area, y: Area, z: Area)
    requires x.priority == High && y.priority == Critical && z.priority == Medium
    ensures SortByPriority([x, y, z]) == [y, x, z]
  {
    var s, r := [x, y, z], [y, x, z];
    assert NonIncreasing(r);
    forall p ensures WithPriority(r, p) == WithPriority(s, p) {
      WithPriorityOfThree(x, y, z, p);
      WithPriorityOfThree(y, x, z, p);
    }
    RankingIsTheStableSort(s, r);
  }

  /** Ranking the catalogue visits the north periphery, then the industrial zone, then the centre. */
  lemma SeedRanking()
    ensures Ids(SortByPriority(UberabaAreas())) == ["periferia_norte", "industrial", "centro"]
  {
    var s := UberabaAreas();
    var x, y, z := s[0], s[1], s[2];
    assert s == [x, y, z];
    RankHighCriticalMedium(x, y, z);
    IdsOfThree(y, x, z);
  }

  /** The identifiers of three areas. */
  lemma IdsOfThree(x: Area, y: Area, z: Area)
    ensures Ids([x, y, z]) == [x.id, y.id, z.id]
  {
  }

  // ---------------------------------------------------------------------------
  // Route calculation (calculateRoute)
  // ---------------------------------------------------------------------------

  /** A value of a query parameter of the routing request. */
  datatype ParamValue = Coordinates(point: RoutePoint) | Text(text: string)

  /** The query string of a request, as an ordered list of name/value pairs. */
  type Query = seq<(string, ParamValue)>

  /** The parsed JSON body of a successful routing reply; its content is not modelled. */
  datatype RouteData = RouteData(json: string)

  /** What the routing provider does with one request. */
  datatype Reply =
    | NetworkFailure
    | HttpReply(status: int, body: Option<RouteData>)

  datatype RouteError = MissingApiKey | ApiError(status: int) | NetworkError | MalformedBody

  /** `response.ok`: an HTTP status in the 2xx range. */
  predicate Ok(status: int)
  {
    200 <= status <= 299
  }

  /**
   * The entries of the object literal the request is built from, in source
   * order. Read as a query with repeated names, it is also the intended
   * request: both `point` parameters, start then end, followed by the travel
   * mode, the instruction and geometry flags and the key.
   */
  function RouteQuery(start: RoutePoint, end: RoutePoint, apiKey: string): (entries: Query)
  {
    [("point", Coordinates(start)), ("point", Coordinates(end)),
     ("vehicle", Text("car")), ("instructions", Text("true")),
     ("calc_points", Text("true")), ("key", Text(apiKey))]
  }

  /**
   * Defining the property `name` on an object whose properties are listed in
   * creation order: an existing property keeps its place and takes the new
   * value, a new one goes last.
   */
  function SetProperty(obj: Query, name: string, value: ParamValue): (r: Query)
    ensures |obj| <= |r| <= |obj| + 1
  {
    if obj == [] then [(name, value)]
    else if obj[0].0 == name then [(name, value)] + obj[1..]
    else [obj[0]] + SetProperty(obj[1..], name, value)
  }

  /** After the definition the property has the new value, and every other property its old one. */
  lemma {:induction false} SetPropertyLookup(obj: Query, name: string, value: ParamValue, other: string)
    ensures Lookup(SetProperty(obj, name, value), name) == Some(value)
    ensures other != name ==> Lookup(SetProperty(obj, name, value), other) == Lookup(obj, other)
  {
    if obj != [] && obj[0].0 != name {
      SetPropertyLookup(obj[1..], name, value, other);
    }
  }

  /** A property the object does not have yet goes last. */
  lemma {:induction false} SetPropertyNew(obj: Query, name: string, value: ParamValue)
    requires forall k :: 0 <= k < |obj| ==> obj[k].0 != name
    ensures SetProperty(obj, name, value) == obj + [(name, value)]
  {
    if obj != [] {
      SetPropertyNew(obj[1..], name, value);
      assert [obj[0]] + (obj[1..] + [(name, value)]) == obj + [(name, value)];
    }
  }

  /** The value the last entry named `name` gives, if any. */
  function LastValue(entries: Query, name: string): (v: Option<ParamValue>)
    ensures v.Some? ==> (name, v.value) in entries
  {
    if entries == [] then None
    else
      var later := LastValue(entries[1..], name);
      if later.Some? then later
      else if entries[0].0 == name then Some(entries[0].1)
      else None
  }

  /** Defining, one after the other, the properties the entries name on `obj`. */
  function DefineAll(obj: Query, entries: Query): (r: Query)
    ensures |r| <= |obj| + |entries|
    decreases entries
  {
    if entries == [] then obj
    else DefineAll(SetProperty(obj, entries[0].0, entries[0].1), entries[1..])
  }

  /**
   * The object a JavaScript object literal with these entries builds, with its
   * properties in creation order, which is the order `URLSearchParams` reads.
   */
  function ObjectLiteral(entries: Query): (obj: Query)
    ensures |obj| <= |entries|
  {
    DefineAll([], entries)
  }

  /** A property holds the value of the last entry with its name, or its old value if no entry names it. */
  lemma {:induction false} DefineAllLookup(obj: Query, entries: Query, name: string)
    ensures Lookup(DefineAll(obj, entries), name)
      == if LastValue(entries, name).Some? then LastValue(entries, name) else Lookup(obj, name)
    decreases entries
  {
    if entries != [] {
      var next := SetProperty(obj, entries[0].0, entries[0].1);
      DefineAllLookup(next, entries[1..], name);
      SetPropertyLookup(obj, entries[0].0, entries[0].1, name);
    }
  }

  /** Each property of the object holds the value of the last entry with its name. */
  lemma ObjectLiteralLookup(entries: Query, name: string)
    ensures Lookup(ObjectLiteral(entries), name) == LastValue(entries, name)
  {
    DefineAllLookup([], entries, name);
  }

  /** Entries whose names are new and distinct are appended in order. */
  lemma {:induction false} DefineAllFresh(obj: Query, entries: Query)
    requires forall i, j :: 0 <= i < j < |entries| ==> entries[i].0 != entries[j].0
    requires forall k, j :: 0 <= k < |obj| && 0 <= j < |entries| ==> obj[k].0 != entries[j].0
    ensures DefineAll(obj, entries) == obj + entries
    decreases entries
  {
    if entries != [] {
      var next := obj + [entries[0]];
      SetPropertyNew(obj, entries[0].0, entries[0].1);
      var rest := entries[1..];
      assert forall k, j :: 0 <= k < |next| && 0 <= j < |rest| ==> next[k].0 != rest[j].0 by {
        forall k, j | 0 <= k < |next| && 0 <= j < |rest| ensures next[k].0 != rest[j].0 {
          assert rest[j] == entries[j + 1];
          if k == |obj| {
            assert next[k] == entries[0];
          }
        }
      }
      assert forall i, j :: 0 <= i < j < |rest| ==> rest[i].0 != rest[j].0 by {
        forall i, j | 0 <= i < j < |rest| ensures rest[i].0 != rest[j].0 {
          assert rest[i] == entries[i + 1] && rest[j] == entries[j + 1];
        }
      }
      DefineAllFresh(next, rest);
      assert next + rest == obj + entries;
    }
  }

  /**
   * The query the source sends: `URLSearchParams` over the object literal in
   * which `point` is written twice.
   */
  function QueryAsWritten(start: RoutePoint, end: RoutePoint, apiKey: string): (q: Query)
  {
    ObjectLiteral(RouteQuery(start, end, apiKey))
  }

  /** As written, the second `point` replaces the first in its place: five parameters, one point. */
  lemma QueryAsWrittenShape(start: RoutePoint, end: RoutePoint, apiKey: string)
    ensures QueryAsWritten(start, end, apiKey)
      == [("point", Coordinates(end)), ("vehicle", Text("car")), ("instructions", Text("true")),
          ("calc_points", Text("true")), ("key", Text(apiKey))]
  {
    var e := RouteQuery(start, end, apiKey);
    var o1: Query := [("point", Coordinates(start))];
    var o2: Query := [("point", Coordinates(end))];
    var rest: Query := [("vehicle", Text("car")), ("instructions", Text("true")),
      ("calc_points", Text("true")), ("key", Text(apiKey))];
    assert e[1..][1..] == rest;
    assert DefineAll([], e) == DefineAll(o1, e[1..]);
    assert DefineAll(o1, e[1..]) == DefineAll(o2, rest);
    NamesOfRest(rest, apiKey);
    DefineAllFresh(o2, rest);
  }

  /** The names after the two points are distinct and none of them is `point`. */
  lemma NamesOfRest(rest: Query, apiKey: string)
    requires rest == [("vehicle", Text("car")), ("instructions", Text("true")),
      ("calc_points", Text("true")), ("key", Text(apiKey))]
    ensures forall i, j :: 0 <= i < j < |rest| ==> rest[i].0 != rest[j].0
    ensures forall j :: 0 <= j < |rest| ==> rest[j].0 != "point"
  {
  }

  /** As written, the only point the provider receives is the end point. */
  lemma StartPointDropped(start: RoutePoint, end: RoutePoint, apiKey: string)
    ensures PointsOf(QueryAsWritten(start, end, apiKey)) == [end]
  {
    QueryAsWrittenShape(start, end, apiKey);
    var q := QueryAsWritten(start, end, apiKey);
    var r1 := q[1..];
    var r2 := r1[1..];
    var r3 := r2[1..];
    var r4 := r3[1..];
    assert r4 == [("key", Text(apiKey))] && r4[1..] == [];
    assert PointsOf(r1) == PointsOf(r2) == PointsOf(r3) == PointsOf(r4) == [];
  }

  /** The points a query carries, in order: how the provider reads repeated `point` parameters. */
  function PointsOf(q: Query): (points: seq<RoutePoint>)
    ensures |points| <= |q|
  {
    if q == [] then []
    else
      (if q[0].0 == "point" && q[0].1.Coordinates? then [q[0].1.point] else []) + PointsOf(q[1..])
  }

  /** The value of the first parameter named `name`, if any. */
  function Lookup(q: Query, name: string): (v: Option<ParamValue>)
    ensures v.Some? ==> (name, v.value) in q
  {
    if q == [] then None
    else if q[0].0 == name then Some(q[0].1)
    else Lookup(q[1..], name)
  }

  /** The intended query carries the start point and then the end point. */
  lemma RouteQueryCarriesBothPoints(start: RoutePoint, end: RoutePoint, apiKey: string)
    ensures PointsOf(RouteQuery(start, end, apiKey)) == [start, end]
  {
    var q := RouteQuery(start, end, apiKey);
    var r2 := q[2..];
    assert q[1..][1..] == r2;
    var r3 := r2[1..];
    var r4 := r3[1..];
    var r5 := r4[1..];
    assert r5 == [("key", Text(apiKey))] && r5[1..] == [];
    assert PointsOf(r2) == PointsOf(r3) == PointsOf(r4) == PointsOf(r5) == [];
  }

  /** The intended query asks for a route by car and carries the key. */
  lemma RouteQuerySettings(start: RoutePoint, end: RoutePoint, apiKey: string)
    ensures Lookup(RouteQuery(start, end, apiKey), "vehicle") == Some(Text("car"))
    ensures Lookup(RouteQuery(start, end, apiKey), "key") == Some(Text(apiKey))
  {
    var q := RouteQuery(start, end, apiKey);
    var r2 := q[2..];
    assert q[1..][1..] == r2;
    var r3 := r2[1..];
    var r4 := r3[1..];
    var r5 := r4[1..];
    assert r5 == [("key", Text(apiKey))];
    assert Lookup(q, "vehicle") == Lookup(r2, "vehicle") == Some(Text("car"));
    assert Lookup(q, "key") == Lookup(r2, "key") == Lookup(r3, "key") == Lookup(r4, "key") == Lookup(r5, "key");
  }

  /** How the source turns the provider's reply into a value or a thrown error. */
  function HandleReply(reply: Reply): (r: Result<RouteData, RouteError>)
    ensures r.Success? <==> reply.HttpReply? && Ok(reply.status) && reply.body.Some?
    ensures r.Success? ==> r.value == reply.body.value
    ensures r.Failure? ==> r.error != MissingApiKey
  {
    match reply
    case NetworkFailure => Failure(NetworkError)
    case HttpReply(status, body) =>
      if !Ok(status) then Failure(ApiError(status))
      else if body.None? then Failure(MalformedBody)
      else Success(body.value)
  }

  /**
   * `calculateRoute`: refuses an empty API key; otherwise issues one request,
   * with the query as the source builds it, to the provider, given here as
   * the function `provider`, and hands back its reply.
   */
  function CalculateRoute(apiKey: string, start: RoutePoint, end: RoutePoint, provider: Query -> Reply)
    : (r: Result<RouteData, RouteError>)
    ensures r == Failure(MissingApiKey) <==> apiKey == ""
    ensures apiKey != "" ==>
      var reply := provider(QueryAsWritten(start, end, apiKey));
      && (r.Success? <==> reply.HttpReply? && Ok(reply.status) && reply.body.Some?)
      && (r.Success? ==> r.value == reply.body.value)
      && (reply.HttpReply? && !Ok(reply.status) ==> r == Failure(ApiError(reply.status)))
  {
    if apiKey == "" then Failure(MissingApiKey)
    else HandleReply(provider(QueryAsWritten(start, end, apiKey)))
  }

  /** With an empty key the outcome does not depend on the provider: no request is made. */
  lemma EmptyKeyFailsBeforeRequest(start: RoutePoint, end: RoutePoint, p1: Query -> Reply, p2: Query -> Reply)
    ensures CalculateRoute("", start, end, p1) == CalculateRoute("", start, end, p2) == Failure(MissingApiKey)
  {
  }

  /** As written, the start point has no influence on the outcome of a route request. */
  lemma StartPointIgnored(apiKey: string, start1: RoutePoint, start2: RoutePoint, end: RoutePoint, provider: Query -> Reply)
    ensures CalculateRoute(apiKey, start1, end, provider) == CalculateRoute(apiKey, start2, end, provider)
  {
    QueryAsWrittenShape(start1, end, apiKey);
    QueryAsWrittenShape(start2, end, apiKey);
  }

  /** A provider that answers a route only for a query with at least two points. */
  function NeedsTwoPoints(q: Query): (reply: Reply)
  {
    if |PointsOf(q)| >= 2 then HttpReply(200, Some(RouteData("{}"))) else HttpReply(400, None)
  }

  /**
   * A provider that needs a start and an end point rejects the request as
   * written, and answers the intended one.
   */
  lemma AsWrittenRequestIsRejected(apiKey: string, start: RoutePoint, end: RoutePoint)
    requires apiKey != ""
    ensures CalculateRoute(apiKey, start, end, NeedsTwoPoints) == Failure(ApiError(400))
    ensures HandleReply(NeedsTwoPoints(RouteQuery(start, end, apiKey))).Success?
  {
    StartPointDropped(start, end, apiKey);
    RouteQueryCarriesBothPoints(start, end, apiKey);
  }
}
