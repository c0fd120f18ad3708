/**
 * The showcase page: a timer advances `currentIndex` through the sport
 * groups, and the page shows the current group's first ten results as
 * cards, a progress dot per group and the counter.
 */
module ShowcasePage {
  import opened Wrappers
  import opened Query
  import opened Grouping
  import opened Display
  import Tables

  /** The timer callback `(prevIndex + 1) % showcaseData.length`. */
  function Step(k: nat, n: nat): (r: nat)
    requires n > 0
    ensures r < n
  {
    (k + 1) % n
  }

  /** The index after `m` ticks, starting from 0. */
  function Ticks(n: nat, m: nat): nat
    requires n > 0
  {
    if m == 0 then 0 else Step(Ticks(n, m - 1), n)
  }

  /** The first `n` ticks show the groups in order, from the first. */
  lemma {:induction false} TicksCount(n: nat, m: nat)
    requires m < n
    ensures Ticks(n, m) == m
  {
    if m > 0 {
      TicksCount(n, m - 1);
      SmallMod(m, n);
    }
  }

  lemma SmallMod(x: nat, n: nat)
    requires x < n
    ensures x % n == x
  {
  }

  /** After `n` more ticks the same group is shown again: the rotation is periodic. */
  lemma {:induction false} TicksPeriodic(n: nat, m: nat)
    requires n > 0
    ensures Ticks(n, m + n) == Ticks(n, m)
  {
    if m == 0 {
      TicksCount(n, n - 1);
    } else {
      TicksPeriodic(n, m - 1);
    }
  }

  /** Every group is shown within the first `n` ticks, and after `n` ticks the first is shown again. */
  lemma EveryGroupShown(n: nat)
    requires n > 0
    ensures forall k :: 0 <= k < n ==> Ticks(n, k) == k
    ensures Ticks(n, n) == 0
  {
    forall k | 0 <= k < n ensures Ticks(n, k) == k {
      TicksCount(n, k);
    }
    TicksPeriodic(n, 0);
  }

  /**
   * `currentIndex` once the groups have arrived: it starts at 0; the timer
   * exists only when there is at least one group and then advances it once
   * per tick.
   */
  class Rotator {
    var index: nat
    const count: nat
    ghost var ticks: nat

    ghost predicate Valid()
      reads this
    {
      (count == 0 ==> index == 0) && (count > 0 ==> index < count && index == Ticks(count, ticks))
    }

    constructor(n: nat)
      ensures Valid() && count == n && index == 0 && ticks == 0
    {
      index := 0;
      count := n;
      ticks := 0;
    }

    /** One firing of the interval. */
    method Tick()
      requires Valid() && count > 0
      modifies this
      ensures Valid()
      ensures index == Step(old(index), count) && ticks == old(ticks) + 1
    {
      index := (index + 1) % count;
      ticks := ticks + 1;
    }
  }

  /** A result card. */
  datatype Card = Card(
    rank: nat, podium: bool, medal: Option<Medal>, photo: Option<string>,
    nameZh: string, className: string, studentNumber: string, time: string)

  /** The card for the result at `index`. */
  function CardAt(r: Joined, index: nat): (c: Card)
    ensures c.rank == index + 1
    ensures c.podium <==> index < 3
    ensures c.medal.Some? <==> index < 3
    ensures c.photo.Some? <==> ShowsPhoto(r.photo, index)
    ensures c.photo.Some? ==> c.photo == r.photo
    ensures c.time == FormatTime(r.timeMin, r.timeSec)
  {
    Card(index + 1, index < 3, MedalAt(index), if ShowsPhoto(r.photo, index) then r.photo else None,
         r.nameZh, r.className, r.studentNumber, FormatTime(r.timeMin, r.timeSec))
  }

  /** `results.slice(0, 10).map(...)`: the first ten results at most, in their order. */
  function Cards(results: seq<Joined>): (cs: seq<Card>)
    ensures |cs| == if |results| < 10 then |results| else 10
    ensures forall i :: 0 <= i < |cs| ==> cs[i] == CardAt(results[i], i)
  {
    var shown := if |results| < 10 then results else results[..10];
    seq(|shown|, i requires 0 <= i < |shown| => CardAt(shown[i], i))
  }

  /** The results area of the current sport. */
  datatype Body = NoResults | Grid(cards: seq<Card>)

  /** The page: "暫無數據" without groups, else the current group with its dots and counter. */
  datatype Screen =
    | NoData
    | Current(sportName: string, body: Body, dots: seq<bool>, position: nat, total: nat)

  function View(data: seq<Group>, index: nat): (s: Screen)
    requires data != [] ==> index < |data|
    ensures s.NoData? <==> data == []
    ensures s.Current? ==> s.sportName == data[index].sportName
    ensures s.Current? ==> (s.body.NoResults? <==> data[index].results == [])
    ensures s.Current? && s.body.Grid? ==> s.body.cards == Cards(data[index].results)
    ensures s.Current? ==> |s.dots| == |data| && forall k :: 0 <= k < |data| ==> (s.dots[k] <==> k == index)
    ensures s.Current? ==> s.position == index + 1 && s.total == |data| && 1 <= s.position <= s.total
  {
    if data == [] then NoData
    else
      var g := data[index];
      Current(g.sportName,
              if g.results == [] then NoResults else Grid(Cards(g.results)),
              seq(|data|, k requires 0 <= k < |data| => k == index),
              index + 1, |data|)
  }

  /** Whatever the number of ticks, the rotator's index names a group, so the page can show it. */
  lemma RotatorShowsAGroup(data: seq<Group>, r: Rotator)
    requires r.Valid() && r.count == |data|
    ensures data != [] ==> r.index < |data|
    ensures View(data, r.index).NoData? <==> data == []
  {
  }

  /**
   * On the server's showcase no group is empty, so "暫無成績" never shows;
   * the first card holds the group's best time, and no card is slower than
   * a later one.
   */
  lemma ServerShowcaseHasCards(t: Tables.Tables, index: nat)
    requires Tables.Valid(t) && index < |Showcase(t)|
    ensures var s := View(Showcase(t), index);
      && s.Current? && s.body.Grid? && s.body.cards != []
      && var rs := Showcase(t)[index].results;
        && (forall x :: x in rs ==> TimeLe(rs[0], x))
        && forall i, j :: 0 <= i < j < |s.body.cards| ==> TimeLe(rs[i], rs[j])
  {
    ShowcasePartitionsJoin(t);
    var rs := Showcase(t)[index].results;
    forall x | x in rs ensures TimeLe(rs[0], x) {
      var j :| 0 <= j < |rs| && rs[j] == x;
      if j > 0 {
        assert Le(ByTime, rs[0], rs[j]);
      }
    }
  }
}
