/**
 * `GET /api/showcase`: the joined rows, ordered by sport and then time, are
 * partitioned into one `{sport_id, sport_name, results}` group per sport by a
 * loop that fills a dictionary keyed by sport id. Groups appear in the order
 * their sport first occurs in the stream; on a stream ordered by sport id
 * that is ascending sport id, the order `Object.values` gives integer keys.
 */
module Grouping {
  import opened Tables
  import opened Query

  datatype Group = Group(sportId: int, sportName: string, results: seq<Joined>)

  /** The rows of one sport, in stream order. */
  function OfSport(rows: seq<Joined>, id: int): seq<Joined>
  {
    if rows == [] then []
    else
      var p := rows[..|rows| - 1];
      var x := rows[|rows| - 1];
      assert rows == p + [x];
      OfSport(p, id) + (if x.sportId == id then [x] else [])
  }

  /** One sport's rows are exactly the stream's rows of that sport. */
  lemma {:induction false} OfSportMembers(rows: seq<Joined>, id: int)
    ensures forall x :: x in OfSport(rows, id) <==> x in rows && x.sportId == id
  {
    if rows != [] {
      var p := rows[..|rows| - 1];
      assert rows == p + [rows[|rows| - 1]];
      OfSportMembers(p, id);
    }
  }

  lemma OfSportSnoc(p: seq<Joined>, x: Joined, id: int)
    ensures OfSport(p + [x], id) == OfSport(p, id) + (if x.sportId == id then [x] else [])
  {
    assert (p + [x])[..|p|] == p;
  }

  /** Appending an element above all of a sorted sequence keeps it sorted. */
  lemma AppendSorted(o: Order, s: seq<Joined>, y: Joined)
    requires Sorted(o, s)
    requires forall z :: z in s ==> Le(o, z, y)
    ensures Sorted(o, s + [y])
  {
    var r := s + [y];
    forall i, j | 0 <= i < j < |r| ensures Le(o, r[i], r[j]) {
      assert r[i] == s[i];
      if j < |s| {
        assert r[j] == s[j];
      } else {
        assert s[i] in s;
      }
    }
  }

  /** Selecting one sport keeps the order of the stream. */
  lemma {:induction false} OfSportSorted(o: Order, rows: seq<Joined>, id: int)
    requires Sorted(o, rows)
    ensures Sorted(o, OfSport(rows, id))
  {
    if rows != [] {
      var p := rows[..|rows| - 1];
      var x := rows[|rows| - 1];
      assert rows == p + [x];
      assert Sorted(o, p);
      OfSportSorted(o, p, id);
      if x.sportId == id {
        OfSportMembers(p, id);
        forall z | z in OfSport(p, id) ensures Le(o, z, x) {
          var m :| 0 <= m < |p| && p[m] == z;
          assert rows[m] == z;
        }
        AppendSorted(o, OfSport(p, id), x);
      }
    }
  }

  /** The distinct sport ids of the stream, in order of first occurrence. */
  function SportIds(rows: seq<Joined>): (ids: seq<int>)
    ensures forall i, j :: 0 <= i < j < |ids| ==> ids[i] != ids[j]
  {
    if rows == [] then []
    else
      var p := rows[..|rows| - 1];
      var x := rows[|rows| - 1];
      assert rows == p + [x];
      var q := SportIds(p);
      if x.sportId in q then q else q + [x.sportId]
  }

  /** The sport ids listed are exactly those with rows. */
  lemma {:induction false} SportIdsMembers(rows: seq<Joined>)
    ensures forall id :: id in SportIds(rows) <==> OfSport(rows, id) != []
  {
    if rows != [] {
      var p := rows[..|rows| - 1];
      var x := rows[|rows| - 1];
      assert rows == p + [x];
      SportIdsMembers(p);
      SportIdsSnoc(p, x);
      forall id ensures OfSport(rows, id) == OfSport(p, id) + (if x.sportId == id then [x] else []) {
        OfSportSnoc(p, x, id);
      }
    }
  }

  lemma SportIdsSnoc(p: seq<Joined>, x: Joined)
    ensures SportIds(p + [x]) == if x.sportId in SportIds(p) then SportIds(p) else SportIds(p) + [x.sportId]
  {
    assert (p + [x])[..|p|] == p;
  }

  /** The group of one sport of the stream: named after its first row, holding all its rows in order. */
  function GroupOf(rows: seq<Joined>, id: int): Group {
    var r := OfSport(rows, id);
    Group(id, if r == [] then "" else r[0].sportName, r)
  }

  /** The groups the loop builds: one per sport id of the stream, in order of first occurrence. */
  function Groups(rows: seq<Joined>): (gs: seq<Group>)
    ensures |gs| == |SportIds(rows)|
    ensures forall k :: 0 <= k < |gs| ==> gs[k] == GroupOf(rows, SportIds(rows)[k])
  {
    var ids := SportIds(rows);
    seq(|ids|, k requires 0 <= k < |ids| => GroupOf(rows, ids[k]))
  }

  /** `groupedBySport[id].results.push(row)`. */
  function Extend(g: Group, x: Joined): Group {
    Group(g.sportId, g.sportName, g.results + [x])
  }

  /** One more row extends the group of its own sport, or starts it, and leaves every other group. */
  lemma GroupOfSnoc(p: seq<Joined>, x: Joined, id: int)
    ensures GroupOf(p + [x], id) ==
      if id != x.sportId then GroupOf(p, id)
      else if OfSport(p, id) == [] then Group(id, x.sportName, [x])
      else Extend(GroupOf(p, id), x)
  {
    OfSportSnoc(p, x, id);
  }

  /** A row of a sport already seen extends that sport's group and leaves the others. */
  lemma GroupsSeen(p: seq<Joined>, x: Joined, k: int)
    requires 0 <= k < |SportIds(p)| && SportIds(p)[k] == x.sportId
    ensures Groups(p + [x]) == Groups(p)[k := Extend(Groups(p)[k], x)]
  {
    SportIdsSnoc(p, x);
    SportIdsMembers(p);
    var ids := SportIds(p);
    var a := Groups(p + [x]);
    var b := Groups(p)[k := Extend(Groups(p)[k], x)];
    assert |a| == |b|;
    forall j | 0 <= j < |a| ensures a[j] == b[j] {
      GroupOfSnoc(p, x, ids[j]);
      assert ids[j] in ids;
    }
  }

  /** A row of a new sport opens a group at the end holding just that row. */
  lemma GroupsNew(p: seq<Joined>, x: Joined)
    requires x.sportId !in SportIds(p)
    ensures Groups(p + [x]) == Groups(p) + [Group(x.sportId, x.sportName, [x])]
  {
    SportIdsSnoc(p, x);
    assert OfSport(p, x.sportId) == [] by {
      SportIdsMembers(p);
    }
    var ids := SportIds(p + [x]);
    var a := Groups(p + [x]);
    var b := Groups(p) + [Group(x.sportId, x.sportName, [x])];
    assert |a| == |b|;
    forall j | 0 <= j < |a| ensures a[j] == b[j] {
      GroupOfSnoc(p, x, ids[j]);
      if j < |SportIds(p)| {
        assert ids[j] == SportIds(p)[j] && SportIds(p)[j] in SportIds(p);
      }
    }
  }

  /** `at` maps each sport id seen so far to the position of its group. */
  ghost predicate Indexes(at: map<int, nat>, ids: seq<int>) {
    && (forall id :: id in at <==> id in ids)
    && (forall id :: id in at ==> at[id] < |ids| && ids[at[id]] == id)
  }

  /** A new id goes at the next position. */
  lemma IndexesOpen(at: map<int, nat>, ids: seq<int>, id: int)
    requires Indexes(at, ids) && id !in at
    ensures Indexes(at[id := |ids|], ids + [id])
  {
    var ids2 := ids + [id];
    var at2 := at[id := |ids|];
    forall k | k in at2 ensures at2[k] < |ids2| && ids2[at2[k]] == k {
      if k != id {
        assert ids2[at[k]] == ids[at[k]];
      }
    }
  }

  /** Opening the group of a new sport and pushing the row onto it. */
  lemma OpenStep(p: seq<Joined>, x: Joined, at: map<int, nat>)
    requires Indexes(at, SportIds(p)) && x.sportId !in at
    ensures Indexes(at[x.sportId := |Groups(p)|], SportIds(p + [x]))
    ensures var gs := Groups(p) + [Group(x.sportId, x.sportName, [])];
      gs[|Groups(p)| := Extend(gs[|Groups(p)|], x)] == Groups(p + [x])
  {
    SportIdsSnoc(p, x);
    IndexesOpen(at, SportIds(p), x.sportId);
    GroupsNew(p, x);
    UpdateLast(Groups(p), Group(x.sportId, x.sportName, []), x);
  }

  lemma UpdateLast(gs: seq<Group>, g: Group, x: Joined)
    ensures (gs + [g])[|gs| := Extend((gs + [g])[|gs|], x)] == gs + [Extend(g, x)]
  {
  }

  /** Pushing the row onto the group of a sport already seen. */
  lemma PushStep(p: seq<Joined>, x: Joined, at: map<int, nat>)
    requires Indexes(at, SportIds(p)) && x.sportId in at
    ensures Indexes(at, SportIds(p + [x]))
    ensures Groups(p)[at[x.sportId] := Extend(Groups(p)[at[x.sportId]], x)] == Groups(p + [x])
  {
    SportIdsSnoc(p, x);
    GroupsSeen(p, x, at[x.sportId]);
  }

  /**
   * The `forEach` over the stream: `at` is the dictionary from sport id to
   * its group, a group is opened with no results the first time its sport is
   * seen, and every row is pushed onto its sport's group.
   */
  method GroupBySport(rows: seq<Joined>) returns (groups: seq<Group>)
    ensures groups == Groups(rows)
  {
    var at: map<int, nat> := map[];
    groups := [];
    var i := 0;
    while i < |rows|
      invariant 0 <= i <= |rows|
      invariant groups == Groups(rows[..i])
      invariant Indexes(at, SportIds(rows[..i]))
    {
      var row := rows[i];
      assert rows[..i + 1] == rows[..i] + [row];
      if row.sportId !in at {
        OpenStep(rows[..i], row, at);
        at := at[row.sportId := |groups|];
        groups := groups + [Group(row.sportId, row.sportName, [])];
      } else {
        PushStep(rows[..i], row, at);
      }
      var k := at[row.sportId];
      groups := groups[k := Extend(groups[k], row)];
      i := i + 1;
    }
    assert rows[..i] == rows;
  }

  /** Every row lies in exactly the one group of its sport, and every group holds rows of its sport only. */
  lemma EveryRowInItsGroup(rows: seq<Joined>)
    ensures var gs := Groups(rows);
      forall x :: x in rows ==>
        (exists k :: 0 <= k < |gs| && gs[k].sportId == x.sportId)
        && forall k :: 0 <= k < |gs| ==> (x in gs[k].results <==> gs[k].sportId == x.sportId)
    ensures var gs := Groups(rows);
      forall i, j :: 0 <= i < j < |gs| ==> gs[i].sportId != gs[j].sportId
    ensures var gs := Groups(rows);
      forall k, y :: 0 <= k < |gs| && y in gs[k].results ==> y in rows && y.sportId == gs[k].sportId
  {
    var gs := Groups(rows);
    var ids := SportIds(rows);
    SportIdsMembers(rows);
    forall id ensures forall x :: x in OfSport(rows, id) <==> x in rows && x.sportId == id {
      OfSportMembers(rows, id);
    }
    forall x | x in rows ensures exists k :: 0 <= k < |gs| && gs[k].sportId == x.sportId {
      assert x in OfSport(rows, x.sportId);
      var k :| 0 <= k < |ids| && ids[k] == x.sportId;
      assert gs[k].sportId == x.sportId;
    }
  }

  /** The concatenation of the groups' results, in group order. */
  function Concat(gs: seq<Group>): seq<Joined> {
    if gs == [] then [] else Concat(gs[..|gs| - 1]) + gs[|gs| - 1].results
  }

  /** The stream is ordered by sport id. */
  predicate SportsAscending(rows: seq<Joined>) {
    forall i, j :: 0 <= i < j < |rows| ==> rows[i].sportId <= rows[j].sportId
  }

  /** A listed sport id is the sport of some row. */
  lemma {:induction false} SportOccurs(p: seq<Joined>, id: int)
    requires id in SportIds(p)
    ensures exists m :: 0 <= m < |p| && p[m].sportId == id
  {
    var q := p[..|p| - 1];
    assert p == q + [p[|p| - 1]];
    if id in SportIds(q) {
      SportOccurs(q, id);
      var m :| 0 <= m < |q| && q[m].sportId == id;
      assert p[m] == q[m];
    } else {
      assert p[|p| - 1].sportId == id;
    }
  }

  /** On a stream ordered by sport id, a row whose sport was seen before has the sport of the last row. */
  lemma SeenSportIsLast(p: seq<Joined>, x: Joined)
    requires SportsAscending(p + [x])
    requires x.sportId in SportIds(p)
    ensures p != [] && x.sportId == p[|p| - 1].sportId
  {
    SportOccurs(p, x.sportId);
    var m :| 0 <= m < |p| && p[m].sportId == x.sportId;
    var r := p + [x];
    assert r[m] == p[m] && r[|p| - 1] == p[|p| - 1] && r[|p|] == x;
    AscendingAt(r, m, |p| - 1);
    AscendingAt(r, |p| - 1, |p|);
  }

  lemma AscendingAt(rows: seq<Joined>, i: int, j: int)
    requires SportsAscending(rows) && 0 <= i <= j < |rows|
    ensures rows[i].sportId <= rows[j].sportId
  {
  }

  /** On a stream ordered by sport id the sport ids ascend strictly and the last one is the last row's. */
  lemma {:induction false} SportIdsAscend(rows: seq<Joined>)
    requires SportsAscending(rows)
    ensures forall i, j :: 0 <= i < j < |SportIds(rows)| ==> SportIds(rows)[i] < SportIds(rows)[j]
    ensures rows != [] ==> SportIds(rows)[|SportIds(rows)| - 1] == rows[|rows| - 1].sportId
  {
    if rows != [] {
      var p := rows[..|rows| - 1];
      var x := rows[|rows| - 1];
      assert rows == p + [x];
      AscendingPrefix(p, x);
      SportIdsAscend(p);
      SportIdsSnoc(p, x);
      if x.sportId in SportIds(p) {
        SeenSportIsLast(p, x);
      } else {
        forall i | 0 <= i < |SportIds(p)| ensures SportIds(p)[i] < x.sportId {
          SportOccurs(p, SportIds(p)[i]);
          var m :| 0 <= m < |p| && p[m].sportId == SportIds(p)[i];
          assert rows[m] == p[m];
          AscendingAt(rows, m, |p|);
        }
      }
    }
  }

  lemma AscendingPrefix(p: seq<Joined>, x: Joined)
    requires SportsAscending(p + [x])
    ensures SportsAscending(p)
  {
    forall i, j | 0 <= i < j < |p| ensures p[i].sportId <= p[j].sportId {
      assert (p + [x])[i] == p[i] && (p + [x])[j] == p[j];
    }
  }

  /** On a stream ordered by sport id the groups laid end to end give back the stream itself. */
  lemma {:induction false} ConcatGroups(rows: seq<Joined>)
    requires SportsAscending(rows)
    ensures Concat(Groups(rows)) == rows
  {
    if rows != [] {
      var p := rows[..|rows| - 1];
      var x := rows[|rows| - 1];
      assert rows == p + [x];
      AscendingPrefix(p, x);
      ConcatGroups(p);
      ConcatStep(p, x);
    }
  }

  /** One more row of an ordered stream lands at the end of the concatenation. */
  lemma ConcatStep(p: seq<Joined>, x: Joined)
    requires SportsAscending(p + [x]) && Concat(Groups(p)) == p
    ensures Concat(Groups(p + [x])) == p + [x]
  {
    var gs := Groups(p);
    if x.sportId in SportIds(p) {
      SeenSportIsLast(p, x);
      AscendingPrefix(p, x);
      SportIdsAscend(p);
      GroupsSeen(p, x, |gs| - 1);
      ConcatExtendLast(gs, x);
    } else {
      GroupsNew(p, x);
      assert (gs + [Group(x.sportId, x.sportName, [x])])[..|gs|] == gs;
    }
  }

  /** Pushing onto the last group pushes onto the concatenation. */
  lemma ConcatExtendLast(gs: seq<Group>, x: Joined)
    requires gs != []
    ensures Concat(gs[|gs| - 1 := Extend(gs[|gs| - 1], x)]) == Concat(gs) + [x]
  {
    var hs := gs[|gs| - 1 := Extend(gs[|gs| - 1], x)];
    assert hs[..|hs| - 1] == gs[..|gs| - 1];
  }

  /** On a stream ordered by sport and then time, every group's results are ordered by time. */
  lemma GroupsOrderedByTime(rows: seq<Joined>)
    requires Sorted(BySportThenTime, rows)
    ensures forall k :: 0 <= k < |Groups(rows)| ==> Sorted(ByTime, Groups(rows)[k].results)
  {
    var gs := Groups(rows);
    forall k | 0 <= k < |gs| ensures Sorted(ByTime, gs[k].results) {
      var r := gs[k].results;
      OfSportSorted(BySportThenTime, rows, gs[k].sportId);
      OfSportMembers(rows, gs[k].sportId);
      forall i, j | 0 <= i < j < |r| ensures TimeLe(r[i], r[j]) {
        assert r[i] in r && r[j] in r;
        assert Le(BySportThenTime, r[i], r[j]);
      }
    }
  }

  /** Every group holds at least one row, and rows of its own sport only. */
  lemma GroupsNonEmpty(rows: seq<Joined>)
    ensures forall k :: 0 <= k < |Groups(rows)| ==>
      && Groups(rows)[k].results != []
      && forall y :: y in Groups(rows)[k].results ==> y.sportId == Groups(rows)[k].sportId
  {
    var gs := Groups(rows);
    SportIdsMembers(rows);
    forall k | 0 <= k < |gs|
      ensures gs[k].results != [] && forall y :: y in gs[k].results ==> y.sportId == gs[k].sportId
    {
      assert SportIds(rows)[k] in SportIds(rows);
      OfSportMembers(rows, gs[k].sportId);
    }
  }

  /** A stream ordered by sport and then time is ordered by sport id. */
  lemma SortedBySport(rows: seq<Joined>)
    requires Sorted(BySportThenTime, rows)
    ensures SportsAscending(rows)
  {
    forall i, j | 0 <= i < j < |rows| ensures rows[i].sportId <= rows[j].sportId {
      assert Le(BySportThenTime, rows[i], rows[j]);
    }
  }

  /** The showcase response over the current tables. */
  function Showcase(t: Tables): seq<Group>
    requires Valid(t)
  {
    Groups(ShowcaseStream(t))
  }

  /**
   * The showcase groups partition the join: laid end to end they are the
   * sport-then-time ordered stream, a permutation of the join; their sport
   * ids ascend; every group is non-empty, one sport, ordered by time.
   */
  lemma ShowcasePartitionsJoin(t: Tables)
    requires Valid(t)
    ensures var gs := Showcase(t);
      && Concat(gs) == ShowcaseStream(t)
      && multiset(Concat(gs)) == multiset(Join(t))
      && (forall i, j :: 0 <= i < j < |gs| ==> gs[i].sportId < gs[j].sportId)
      && forall k :: 0 <= k < |gs| ==>
        && gs[k].results != []
        && Sorted(ByTime, gs[k].results)
        && forall y :: y in gs[k].results ==> y.sportId == gs[k].sportId
  {
    var rows := ShowcaseStream(t);
    SortedBySport(rows);
    ConcatGroups(rows);
    SportIdsAscend(rows);
    GroupsOrderedByTime(rows);
    GroupsNonEmpty(rows);
  }
}
