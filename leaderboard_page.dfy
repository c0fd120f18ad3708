/**
 * The leaderboard page: the query string it sends for the two drop-downs,
 * how the server reads that string back into a filter, and the table it
 * renders from the rows it receives.
 */
module LeaderboardPage {
  import opened Wrappers
  import opened JsString
  import opened Query
  import opened Display
  import Tables

  /**
   * `URLSearchParams` built in `fetchLeaderboard`: a selection is appended
   * only when it is not the empty "全部" option.
   */
  function QueryParams(selectedSport: string, selectedClass: string): (ps: seq<(string, string)>)
    ensures (exists i :: 0 <= i < |ps| && ps[i].0 == "sport_id") <==> selectedSport != ""
    ensures (exists i :: 0 <= i < |ps| && ps[i].0 == "class_id") <==> selectedClass != ""
    ensures forall i :: 0 <= i < |ps| ==>
      (ps[i].0 == "sport_id" && ps[i].1 == selectedSport) || (ps[i].0 == "class_id" && ps[i].1 == selectedClass)
    ensures forall i, j :: 0 <= i < j < |ps| ==> ps[i].0 != ps[j].0
  {
    var ps := (if selectedSport != "" then [("sport_id", selectedSport)] else [])
      + (if selectedClass != "" then [("class_id", selectedClass)] else []);
    assert "sport_id"[0] != "class_id"[0];
    assert selectedSport != "" ==> ps[0].0 == "sport_id";
    assert selectedClass != "" ==> ps[|ps| - 1].0 == "class_id";
    ps
  }

  /** The value of the first parameter named `key`. */
  function Lookup(ps: seq<(string, string)>, key: string): (r: Option<string>)
    ensures r.Some? <==> exists i :: 0 <= i < |ps| && ps[i].0 == key
    ensures r.Some? ==> exists i :: 0 <= i < |ps| && ps[i] == (key, r.value)
  {
    if ps == [] then None
    else if ps[0].0 == key then Some(ps[0].1)
    else
      var r := Lookup(ps[1..], key);
      assert forall i :: 0 <= i < |ps| - 1 ==> ps[1..][i] == ps[i + 1];
      r
  }

  /**
   * A parameter as the handler's `if (sport_id)` sees it: absent and empty
   * add no condition; a numeral is the id compared. `None` when a value is
   * given that is not a numeral, a case the model leaves open.
   */
  function ParamId(v: Option<string>): (r: Option<Option<int>>)
    ensures v.None? || v.value == "" ==> r == Some(None)
  {
    if v.None? || v.value == "" then Some(None)
    else
      match ReadInt(v.value)
      case None => None
      case Some(id) => Some(Some(id))
  }

  /** The filter `GET /api/leaderboard` applies for a query string. */
  function FilterOf(ps: seq<(string, string)>): Option<Filter> {
    match (ParamId(Lookup(ps, "sport_id")), ParamId(Lookup(ps, "class_id")))
    case (Some(sport), Some(cls)) => Some(Filter(sport, cls))
    case _ => None
  }

  /** The drop-down value for a selection: "" for "全部", the id's numeral otherwise. */
  function Selection(id: Option<int>): (v: string)
    ensures v == "" <==> id.None?
  {
    match id
    case None => ""
    case Some(n) => IntToString(n)
  }

  /** What the page selects is what the server filters on. */
  lemma SelectionsReachServer(sport: Option<int>, cls: Option<int>)
    ensures FilterOf(QueryParams(Selection(sport), Selection(cls))) == Some(Filter(sport, cls))
  {
    var ps := QueryParams(Selection(sport), Selection(cls));
    if sport.Some? {
      IntToStringRoundTrip(sport.value);
      assert ps[0] == ("sport_id", Selection(sport));
    }
    if cls.Some? {
      IntToStringRoundTrip(cls.value);
      assert ps[|ps| - 1] == ("class_id", Selection(cls));
    }
  }

  /** One rendered row of the table. */
  datatype Row = Row(
    rank: nat, medal: Option<Medal>, topFive: bool, photo: Option<string>,
    nameZh: string, className: string, studentNumber: string, sportName: string, time: string)

  /** The row for the entry at `index`. */
  function RowAt(e: Joined, index: nat): (r: Row)
    ensures r.rank == index + 1
    ensures r.medal.Some? <==> index < 3
    ensures r.topFive <==> index < 5
    ensures r.photo.Some? <==> ShowsPhoto(e.photo, index)
    ensures r.photo.Some? ==> r.photo == e.photo
    ensures r.time == FormatTime(e.timeMin, e.timeSec)
  {
    Row(index + 1, MedalAt(index), index < 5, if ShowsPhoto(e.photo, index) then e.photo else None,
        e.nameZh, e.className, e.studentNumber, e.sportName, FormatTime(e.timeMin, e.timeSec))
  }

  /** The page body: "暫無成績記錄" for no rows, else the table, one row per entry. */
  datatype Page = NoRecords | Table(rows: seq<Row>)

  function Render(entries: seq<Joined>): (p: Page)
    ensures p.NoRecords? <==> entries == []
    ensures p.Table? ==> |p.rows| == |entries| && forall i :: 0 <= i < |entries| ==> p.rows[i] == RowAt(entries[i], i)
  {
    if entries == [] then NoRecords
    else Table(seq(|entries|, i requires 0 <= i < |entries| => RowAt(entries[i], i)))
  }

  /**
   * Ranks count 1, 2, 3, …; each medal is shown once, on the first three
   * rows in gold, silver, bronze order; at most five rows show a photo.
   */
  lemma RenderedRanks(entries: seq<Joined>)
    ensures var p := Render(entries);
      p.Table? ==>
        && (forall i :: 0 <= i < |p.rows| ==> p.rows[i].rank == i + 1)
        && (forall i, j :: 0 <= i < j < |p.rows| && p.rows[i].medal.Some? ==> p.rows[i].medal != p.rows[j].medal)
        && (|p.rows| >= 3 ==> p.rows[0].medal == Some(Gold) && p.rows[1].medal == Some(Silver) && p.rows[2].medal == Some(Bronze))
        && (forall i :: 0 <= i < |p.rows| && p.rows[i].photo.Some? ==> i < 5)
  {
  }

  /**
   * On the server's leaderboard the gold row holds the best time of the
   * listing, and every rank is at least as fast as the ranks below it.
   */
  lemma GoldIsFastest(t: Tables.Tables, f: Filter)
    requires Tables.Valid(t)
    ensures var es := Leaderboard(t, f);
      forall i, j :: 0 <= i < j < |es| ==> TimeLe(es[i], es[j])
    ensures var es := Leaderboard(t, f);
      es != [] ==> Render(es).rows[0].medal == Some(Gold) && forall x :: x in es ==> TimeLe(es[0], x)
  {
    var es := Leaderboard(t, f);
    forall x | x in es ensures TimeLe(es[0], x) {
      var j :| 0 <= j < |es| && es[j] == x;
      if j > 0 {
        assert Le(ByTime, es[0], es[j]);
      }
    }
  }
}
