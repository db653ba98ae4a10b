/** Gradient stops and the list operations the editor performs on them: the
    stable sort by position, lookup by id, the filter that removes a stop, and
    the ids minted from the stop counter. */
module Stops {
  import opened Wrappers
  import opened Text

  /** One colour stop: its id token, its colour text, its position along the
      gradient in percent and its opacity in percent. */
  datatype Stop = Stop(id: string, color: string, position: int, opacity: int)

  predicate SortedByPosition(s: seq<Stop>) {
    forall i, j :: 0 <= i < j < |s| ==> s[i].position <= s[j].position
  }

  /** Places x after every stop of r whose position is not above x's: one step
      of a stable insertion sort. */
  function Insert(r: seq<Stop>, x: Stop): (t: seq<Stop>)
    ensures |t| == |r| + 1
    ensures multiset(t) == multiset(r) + multiset{x}
  {
    if |r| == 0 then [x]
    else if r[|r| - 1].position <= x.position then r + [x]
    else
      assert r == r[..|r| - 1] + [r[|r| - 1]];
      Insert(r[..|r| - 1], x) + [r[|r| - 1]]
  }

  lemma {:induction false} InsertKeepsSorted(r: seq<Stop>, x: Stop)
    requires SortedByPosition(r)
    ensures SortedByPosition(Insert(r, x))
    decreases |r|
  {
    if |r| > 0 && r[|r| - 1].position > x.position {
      var r', last := r[..|r| - 1], r[|r| - 1];
      InsertKeepsSorted(r', x);
      var t' := Insert(r', x);
      forall k | 0 <= k < |t'|
        ensures t'[k].position <= last.position
      {
        assert t'[k] in multiset(t');
        if t'[k] != x {
          assert t'[k] in r';
        }
      }
    }
  }

  /** The stops in ascending order of position; stops at equal positions keep
      their relative order (Array.prototype.sort is stable). */
  function SortByPosition(s: seq<Stop>): (t: seq<Stop>)
    ensures |t| == |s| && multiset(t) == multiset(s) && SortedByPosition(t)
  {
    if |s| == 0 then []
    else
      assert s == s[..|s| - 1] + [s[|s| - 1]];
      var sorted := SortByPosition(s[..|s| - 1]);
      InsertKeepsSorted(sorted, s[|s| - 1]);
      Insert(sorted, s[|s| - 1])
  }

  /** The stops at position p, in list order. */
  function AtPosition(s: seq<Stop>, p: int): seq<Stop>
  {
    if |s| == 0 then []
    else AtPosition(s[..|s| - 1], p) + (if s[|s| - 1].position == p then [s[|s| - 1]] else [])
  }

  lemma {:induction false} AtPositionAppend(a: seq<Stop>, b: seq<Stop>, p: int)
    ensures AtPosition(a + b, p) == AtPosition(a, p) + AtPosition(b, p)
    decreases |b|
  {
    if |b| == 0 {
      assert a + b == a;
    } else {
      assert (a + b)[..|a + b| - 1] == a + b[..|b| - 1];
      AtPositionAppend(a, b[..|b| - 1], p);
    }
  }

  lemma {:induction false} InsertStable(r: seq<Stop>, x: Stop, p: int)
    ensures AtPosition(Insert(r, x), p) == AtPosition(r, p) + (if x.position == p then [x] else [])
    decreases |r|
  {
    if |r| == 0 {
      assert [x][..0] == [];
    } else if r[|r| - 1].position <= x.position {
      var t := r + [x];
      assert t[..|t| - 1] == r && t[|t| - 1] == x;
    } else {
      InsertStable(r[..|r| - 1], x, p);
      InsertStableStep(r, x, p);
    }
  }

  /** Appending one stop adds it to the stops at its own position only. */
  lemma AtPositionSnoc(s: seq<Stop>, y: Stop, p: int)
    ensures AtPosition(s + [y], p) == AtPosition(s, p) + (if y.position == p then [y] else [])
  {
    var t := s + [y];
    assert t[..|t| - 1] == s && t[|t| - 1] == y;
  }

  /** Inserting in front of a last stop whose position is above x's. */
  lemma InsertBeforeLast(r: seq<Stop>, x: Stop)
    requires |r| > 0 && r[|r| - 1].position > x.position
    ensures Insert(r, x) == Insert(r[..|r| - 1], x) + [r[|r| - 1]]
  {
  }

  lemma SplitLast(r: seq<Stop>)
    requires |r| > 0
    ensures r[..|r| - 1] + [r[|r| - 1]] == r
  {
  }

  lemma SwapEmpty(a: seq<Stop>, xs: seq<Stop>, ls: seq<Stop>)
    requires xs == [] || ls == []
    ensures a + xs + ls == a + ls + xs
  {
    if xs == [] {
      assert a + xs + ls == a + ls == a + ls + xs;
    } else {
      assert a + xs + ls == a + xs == a + ls + xs;
    }
  }

  /** The inductive step of InsertStable: x goes in front of a last stop
      whose position is above x's. */
  lemma InsertStableStep(r: seq<Stop>, x: Stop, p: int)
    requires |r| > 0 && r[|r| - 1].position > x.position
    requires AtPosition(Insert(r[..|r| - 1], x), p)
          == AtPosition(r[..|r| - 1], p) + (if x.position == p then [x] else [])
    ensures AtPosition(Insert(r, x), p) == AtPosition(r, p) + (if x.position == p then [x] else [])
  {
    var xs := if x.position == p then [x] else [];
    var r', last := r[..|r| - 1], r[|r| - 1];
    var ls := if last.position == p then [last] else [];
    InsertBeforeLast(r, x);
    AtPositionSnoc(Insert(r', x), last, p);
    SplitLast(r);
    AtPositionSnoc(r', last, p);
    SwapEmpty(AtPosition(r', p), xs, ls);
  }

  /** Stability: for every position, the stops sitting there come out of the
      sort in the order they went in. */
  lemma {:induction false} SortIsStable(s: seq<Stop>, p: int)
    ensures AtPosition(SortByPosition(s), p) == AtPosition(s, p)
    decreases |s|
  {
    if |s| > 0 {
      SortIsStable(s[..|s| - 1], p);
      InsertStable(SortByPosition(s[..|s| - 1]), s[|s| - 1], p);
    }
  }

  /** Sorting a list that is already in position order leaves it unchanged. */
  lemma {:induction false} SortSortedIsIdentity(s: seq<Stop>)
    requires SortedByPosition(s)
    ensures SortByPosition(s) == s
    decreases |s|
  {
    if |s| > 0 {
      var s' := s[..|s| - 1];
      SortSortedIsIdentity(s');
      assert s' + [s[|s| - 1]] == s;
    }
  }

  lemma {:induction false} AtPositionMembers(s: seq<Stop>, p: int)
    ensures forall y :: y in AtPosition(s, p) ==> y in s && y.position == p
    decreases |s|
  {
    if |s| > 0 {
      AtPositionMembers(s[..|s| - 1], p);
      assert forall y :: y in s[..|s| - 1] ==> y in s;
    }
  }

  lemma {:induction false} AtPositionNone(s: seq<Stop>, p: int)
    requires forall j :: 0 <= j < |s| ==> s[j].position != p
    ensures AtPosition(s, p) == []
    decreases |s|
  {
    if |s| > 0 {
      AtPositionNone(s[..|s| - 1], p);
    }
  }

  /** The first stop at position p in list order is the one at the first index holding p. */
  lemma {:induction false} FirstAtPosition(s: seq<Stop>, p: int, k: nat)
    requires k < |s| && s[k].position == p
    requires forall j :: 0 <= j < k ==> s[j].position != p
    ensures |AtPosition(s, p)| > 0 && AtPosition(s, p)[0] == s[k]
    decreases |s|
  {
    var s' := s[..|s| - 1];
    if k < |s| - 1 {
      FirstAtPosition(s', p, k);
    } else {
      AtPositionNone(s', p);
    }
  }

  /** When no index after the first holds p, at most one stop sits at p. */
  lemma AtPositionAtMostFirst(s: seq<Stop>, p: int)
    requires |s| > 0
    requires forall j :: 1 <= j < |s| ==> s[j].position != p
    ensures |AtPosition(s, p)| <= 1
  {
    assert s == [s[0]] + s[1..];
    AtPositionAppend([s[0]], s[1..], p);
    AtPositionNone(s[1..], p);
    assert [s[0]][..0] == [];
  }

  /** The index of the first stop at position p, if any. */
  function FirstAt(s: seq<Stop>, p: int): (r: Option<nat>)
    ensures r.Some? ==> r.value < |s| && s[r.value].position == p
    ensures r.Some? ==> forall j :: 0 <= j < r.value ==> s[j].position != p
    ensures r.None? <==> forall j :: 0 <= j < |s| ==> s[j].position != p
  {
    if |s| == 0 then None
    else if s[0].position == p then Some(0)
    else match FirstAt(s[1..], p)
      case None => None
      case Some(i) => Some(i + 1)
  }

  /** Every id occurs at most once. */
  predicate UniqueIds(s: seq<Stop>) {
    forall i, j :: 0 <= i < j < |s| ==> s[i].id != s[j].id
  }

  lemma {:induction false} InsertKeepsIdsUnique(r: seq<Stop>, x: Stop)
    requires UniqueIds(r)
    requires forall y :: y in r ==> y.id != x.id
    ensures UniqueIds(Insert(r, x))
    decreases |r|
  {
    if |r| > 0 && r[|r| - 1].position > x.position {
      var r', last := r[..|r| - 1], r[|r| - 1];
      InsertKeepsIdsUnique(r', x);
      InsertAvoidsLastId(r, x);
      PushFreshKeepsIdsUnique(Insert(r', x), last);
    } else {
      PushFreshKeepsIdsUnique(r, x);
    }
  }

  /** Inserting into all but the last stop yields no stop with the last one's id. */
  lemma InsertAvoidsLastId(r: seq<Stop>, x: Stop)
    requires |r| > 0 && UniqueIds(r)
    requires forall y :: y in r ==> y.id != x.id
    ensures forall y :: y in Insert(r[..|r| - 1], x) ==> y.id != r[|r| - 1].id
  {
    var r' := r[..|r| - 1];
    var t' := Insert(r', x);
    forall y | y in t'
      ensures y.id != r[|r| - 1].id
    {
      assert y in multiset(t');
      if y != x {
        assert y in multiset(r');
        var k :| 0 <= k < |r'| && r'[k] == y;
        assert r[k] == y;
      }
    }
  }

  lemma {:induction false} SortKeepsIdsUnique(s: seq<Stop>)
    requires UniqueIds(s)
    ensures UniqueIds(SortByPosition(s))
    decreases |s|
  {
    if |s| > 0 {
      var s', last := s[..|s| - 1], s[|s| - 1];
      SortKeepsIdsUnique(s');
      forall y | y in SortByPosition(s') ensures y.id != last.id {
        assert y in multiset(SortByPosition(s'));
        var k :| 0 <= k < |s'| && s'[k] == y;
      }
      InsertKeepsIdsUnique(SortByPosition(s'), last);
    }
  }

  /** Pushing a stop whose id no stop has keeps the ids unique. */
  lemma PushFreshKeepsIdsUnique(s: seq<Stop>, x: Stop)
    requires UniqueIds(s) && forall y :: y in s ==> y.id != x.id
    ensures UniqueIds(s + [x])
  {
    var t := s + [x];
    forall i, j | 0 <= i < j < |t| ensures t[i].id != t[j].id {
      if j == |s| {
        assert t[i] in s;
      } else {
        assert t[i] == s[i] && t[j] == s[j];
      }
    }
  }

  /** Replacing a stop by one with the same id keeps the ids unique. */
  lemma UpdateKeepsIdsUnique(s: seq<Stop>, i: nat, y: Stop)
    requires UniqueIds(s) && i < |s| && y.id == s[i].id
    ensures UniqueIds(s[i := y])
  {
    var t := s[i := y];
    assert forall k :: 0 <= k < |t| ==> t[k].id == s[k].id;
  }

  /** A stop pushed onto a sorted list and sorted in goes after every stop at
      its position that was already there, and the rest keep their order. */
  lemma PushThenSort(s: seq<Stop>, x: Stop)
    requires SortedByPosition(s)
    ensures SortByPosition(s + [x]) == Insert(s, x)
    ensures AtPosition(SortByPosition(s + [x]), x.position) == AtPosition(s, x.position) + [x]
  {
    assert (s + [x])[..|s|] == s;
    SortSortedIsIdentity(s);
    SortIsStable(s + [x], x.position);
    AtPositionAppend(s, [x], x.position);
    assert [x][..0] == [];
  }

  /** Array.prototype.find by id, as an index: the first stop carrying id. */
  function FindStop(s: seq<Stop>, id: string): (r: Option<nat>)
    ensures r.Some? ==> r.value < |s| && s[r.value].id == id
    ensures r.Some? ==> forall j :: 0 <= j < r.value ==> s[j].id != id
    ensures r.None? <==> forall j :: 0 <= j < |s| ==> s[j].id != id
  {
    if |s| == 0 then None
    else if s[0].id == id then Some(0)
    else match FindStop(s[1..], id)
      case None => None
      case Some(i) => Some(i + 1)
  }

  /** With unique ids, looking up the id of the stop at k finds k. */
  lemma FindUniqueId(s: seq<Stop>, k: nat)
    requires UniqueIds(s) && k < |s|
    ensures FindStop(s, s[k].id) == Some(k)
  {
  }

  /** Array.prototype.filter(s => s.id !== id). */
  function WithoutId(s: seq<Stop>, id: string): seq<Stop>
  {
    if |s| == 0 then [] else (if s[0].id != id then [s[0]] else []) + WithoutId(s[1..], id)
  }

  lemma {:induction false} WithoutIdAppend(a: seq<Stop>, b: seq<Stop>, id: string)
    ensures WithoutId(a + b, id) == WithoutId(a, id) + WithoutId(b, id)
    decreases |a|
  {
    if |a| == 0 {
      assert a + b == b;
    } else {
      var head := if a[0].id != id then [a[0]] else [];
      assert (a + b)[0] == a[0] && (a + b)[1..] == a[1..] + b;
      assert WithoutId(a + b, id) == head + WithoutId(a[1..] + b, id);
      WithoutIdAppend(a[1..], b, id);
      assert WithoutId(a, id) == head + WithoutId(a[1..], id);
      assert head + (WithoutId(a[1..], id) + WithoutId(b, id))
          == (head + WithoutId(a[1..], id)) + WithoutId(b, id);
    }
  }

  lemma {:induction false} WithoutAbsentId(s: seq<Stop>, id: string)
    requires forall j :: 0 <= j < |s| ==> s[j].id != id
    ensures WithoutId(s, id) == s
    decreases |s|
  {
    if |s| > 0 {
      WithoutAbsentId(s[1..], id);
    }
  }

  /** With unique ids, filtering out the id of the stop at i removes exactly
      that stop and keeps the others in order. */
  lemma WithoutIdRemovesOne(s: seq<Stop>, i: nat)
    requires UniqueIds(s) && i < |s|
    ensures WithoutId(s, s[i].id) == s[..i] + s[i + 1..]
  {
    WithoutOthers(s, i);
    WithoutOnlyAt(s, i, s[i].id);
  }

  lemma WithoutOnlyAt(s: seq<Stop>, i: nat, id: string)
    requires i < |s| && s[i].id == id
    requires WithoutId(s[..i], id) == s[..i] && WithoutId(s[i + 1..], id) == s[i + 1..]
    ensures WithoutId(s, id) == s[..i] + s[i + 1..]
  {
    assert s == s[..i] + [s[i]] + s[i + 1..];
    WithoutMiddle(s[..i], s[i], s[i + 1..], id);
  }

  lemma WithoutMiddle(a: seq<Stop>, y: Stop, b: seq<Stop>, id: string)
    requires y.id == id && WithoutId(a, id) == a && WithoutId(b, id) == b
    ensures WithoutId(a + [y] + b, id) == a + b
  {
    WithoutOne(y, id);
    WithoutIdAppend(a, [y], id);
    assert a + [] == a;
    WithoutIdAppend(a + [y], b, id);
  }

  lemma WithoutOne(y: Stop, id: string)
    requires y.id == id
    ensures WithoutId([y], id) == []
  {
    assert [y][1..] == [];
  }

  lemma WithoutOthers(s: seq<Stop>, i: nat)
    requires UniqueIds(s) && i < |s|
    ensures WithoutId(s[..i], s[i].id) == s[..i]
    ensures WithoutId(s[i + 1..], s[i].id) == s[i + 1..]
  {
    var a, b := s[..i], s[i + 1..];
    assert forall j :: 0 <= j < |a| ==> a[j] == s[j];
    WithoutAbsentId(a, s[i].id);
    assert forall j :: 0 <= j < |b| ==> b[j] == s[i + 1 + j];
    WithoutAbsentId(b, s[i].id);
  }

  /** Removing one stop keeps the order by position and the uniqueness of ids. */
  lemma RemoveAtKeepsOrder(s: seq<Stop>, i: nat)
    requires i < |s|
    ensures var t := s[..i] + s[i + 1..];
      |t| == |s| - 1
      && (forall y :: y in t ==> y in s)
      && (SortedByPosition(s) ==> SortedByPosition(t))
      && (UniqueIds(s) ==> UniqueIds(t))
  {
    var t := s[..i] + s[i + 1..];
    assert forall k :: 0 <= k < |t| ==> t[k] == s[if k < i then k else k + 1];
  }

  /** The id minted from the stop counter: 'stop_' followed by the counter. */
  function StopId(k: nat): string
  {
    "stop_" + NatToString(k)
  }

  /** The counter value an id of the form 'stop_<digits>' was minted from. */
  function IdNumber(id: string): Option<nat>
  {
    if |id| > 5 && id[..5] == "stop_" && AllDigits(id[5..]) then Some(ParseDecimal(id[5..])) else None
  }

  lemma IdNumberOfStopId(k: nat)
    ensures IdNumber(StopId(k)) == Some(k)
  {
    var id := StopId(k);
    assert id[..5] == "stop_" && id[5..] == NatToString(k);
    ParseNatToString(k);
  }

  /** An id minted from a counter value above every earlier one differs from every earlier id. */
  lemma FreshStopId(id: string, k: nat)
    requires IdNumber(id).Some? && IdNumber(id).value < k
    ensures id != StopId(k)
  {
    IdNumberOfStopId(k);
  }
}
