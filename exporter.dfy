/** `create_nba_csv` and `main` of S3Upload/main.py: for each player of the
    roster, in order, fetch the season's game log, skip it when empty, tag
    every game with the player's name, keep the games played on one of the
    target dates, and append them to the combined table; then upload the
    table under a collision-free variant of "nba_filtered_game_logs.csv".

    The stats API is the parameter `fetch` (player id to game log or error);
    dates arrive already normalised to YYYY-MM-DD. */
module Exporter {
  import opened Wrappers
  import Uploader

  /** One game of a player's log: its date (YYYY-MM-DD), the win/loss mark
      and the numeric stat columns by name. */
  datatype Game = Game(gameDate: string, wl: string, stats: map<string, int>)

  /** A row of the combined table: a game tagged with the player's name. */
  datatype Row = Row(player: string, game: Game)

  /** One entry of the `player_ids` dictionary, in its insertion order. */
  datatype PlayerEntry = PlayerEntry(name: string, id: string)

  /** The file the table is written to, and the key it is uploaded under. */
  const ExportKey: string := "nba_filtered_game_logs.csv"

  /** The configured inclusive range 2025-02-19 .. 2025-03-08, expanded day
      by day as `pd.date_range(...).strftime("%Y-%m-%d")` lists it. */
  const TargetDates: seq<string> := [
    "2025-02-19", "2025-02-20", "2025-02-21", "2025-02-22", "2025-02-23",
    "2025-02-24", "2025-02-25", "2025-02-26", "2025-02-27", "2025-02-28",
    "2025-03-01", "2025-03-02", "2025-03-03", "2025-03-04", "2025-03-05",
    "2025-03-06", "2025-03-07", "2025-03-08"]

  /** One player's contribution: the games on a target date, tagged, in log order. */
  function Tagged(name: string, log: seq<Game>, targets: seq<string>): (rows: seq<Row>)
    ensures |rows| <= |log|
  {
    if log == [] then []
    else
      (if log[0].gameDate in targets then [Row(name, log[0])] else [])
      + Tagged(name, log[1..], targets)
  }

  /** The combined table for the roster in order, or the first fetch error,
      which aborts the whole run. */
  function Combined(roster: seq<PlayerEntry>, fetch: string -> Result<seq<Game>, string>,
                    targets: seq<string>): Result<seq<Row>, string>
  {
    if roster == [] then Ok([])
    else
      var last := roster[|roster| - 1];
      match Combined(roster[..|roster| - 1], fetch, targets)
      case Err(e) => Err(e)
      case Ok(table) =>
        match fetch(last.id)
        case Err(e) => Err(e)
        case Ok(log) => Ok(table + Tagged(last.name, log, targets))
  }

  /** The row loop of `create_nba_csv`; the CSV write that follows it is not
      modelled, the table itself is returned. */
  method CreateNbaCsv(roster: seq<PlayerEntry>, fetch: string -> Result<seq<Game>, string>,
                      targets: seq<string>) returns (r: Result<seq<Row>, string>)
    ensures r == Combined(roster, fetch, targets)
  {
    var table: seq<Row> := [];
    for i := 0 to |roster|
      invariant Combined(roster[..i], fetch, targets) == Ok(table)
    {
      assert roster[..i + 1][..i] == roster[..i];
      var fetched := fetch(roster[i].id);
      if fetched.Err? {
        FailedPrefixDecides(roster, fetch, targets, i + 1);
        return Err(fetched.error);
      }
      var log := fetched.value;
      assert roster[..i + 1][i] == roster[i];
      if |log| > 0 {
        table := table + Tagged(roster[i].name, log, targets);
      } else {
        assert table + Tagged(roster[i].name, log, targets) == table;
      }
    }
    assert roster[..|roster|] == roster;
    r := Ok(table);
  }

  /** `main`: build the table, then upload it with a collision-free key. A
      fetch error ends the run before the bucket is touched. */
  method ExportAndUpload(store: Uploader.Store, roster: seq<PlayerEntry>,
                         fetch: string -> Result<seq<Game>, string>, targets: seq<string>)
    returns (r: Result<string, string>, after: Uploader.Store)
    ensures Combined(roster, fetch, targets).Err? ==>
      r == Err(Combined(roster, fetch, targets).error) && after == store
    ensures Combined(roster, fetch, targets).Ok? ==>
      match Uploader.FirstFree(store, ExportKey)
      case Free(n) =>
        r == Ok(Uploader.Candidate(ExportKey, n)) &&
        after == store.(objects := store.objects + {Uploader.Candidate(ExportKey, n)})
      case Failed(_, code) => r == Err(code) && after == store
  {
    var table := CreateNbaCsv(roster, fetch, targets);
    if table.Err? {
      return Err(table.error), store;
    }
    r, after := Uploader.UploadWithIncrement(store, ExportKey);
  }

  /** An error in a prefix of the roster is the error of the whole run. */
  lemma {:induction false} FailedPrefixDecides(roster: seq<PlayerEntry>, fetch: string -> Result<seq<Game>, string>,
                                               targets: seq<string>, j: nat)
    requires j <= |roster|
    requires Combined(roster[..j], fetch, targets).Err?
    ensures Combined(roster, fetch, targets) == Combined(roster[..j], fetch, targets)
    decreases |roster| - j
  {
    if j < |roster| {
      assert roster[..j + 1][..j] == roster[..j];
      FailedPrefixDecides(roster, fetch, targets, j + 1);
    } else {
      assert roster[..j] == roster;
    }
  }

  /** A row is in a player's contribution iff it carries the player's name
      and is a game of the log played on a target date. */
  lemma {:induction false} TaggedMembers(name: string, log: seq<Game>, targets: seq<string>, row: Row)
    ensures row in Tagged(name, log, targets) <==>
      row.player == name && row.game in log && row.game.gameDate in targets
  {
    if log != [] {
      TaggedMembers(name, log[1..], targets, row);
      assert log == [log[0]] + log[1..];
    }
  }

  /** Tagging keeps the log's order: it distributes over concatenation. */
  lemma {:induction false} TaggedConcat(name: string, a: seq<Game>, b: seq<Game>, targets: seq<string>)
    ensures Tagged(name, a + b, targets) == Tagged(name, a, targets) + Tagged(name, b, targets)
  {
    if a != [] {
      assert (a + b)[1..] == a[1..] + b;
      TaggedConcat(name, a[1..], b, targets);
    } else {
      assert a + b == b;
    }
  }

  /** Every game of a log either lands in the output or is off the target dates. */
  lemma {:induction false} TaggedCount(name: string, log: seq<Game>, targets: seq<string>)
    ensures (forall i :: 0 <= i < |log| ==> log[i].gameDate in targets) ==>
      |Tagged(name, log, targets)| == |log|
    ensures (forall i :: 0 <= i < |log| ==> log[i].gameDate !in targets) ==>
      Tagged(name, log, targets) == []
  {
    if log != [] {
      TaggedCount(name, log[1..], targets);
    }
  }

  /** Player `entry`'s log was fetched and holds `row`'s game on a target date
      under the player's name. */
  predicate KeptFrom(entry: PlayerEntry, fetch: string -> Result<seq<Game>, string>,
                     targets: seq<string>, row: Row)
  {
    fetch(entry.id).Ok? && row.player == entry.name &&
    row.game in fetch(entry.id).value && row.game.gameDate in targets
  }

  /** The combined table holds exactly the tagged on-date games of the roster's logs. */
  lemma {:induction false} CombinedMembers(roster: seq<PlayerEntry>, fetch: string -> Result<seq<Game>, string>,
                                           targets: seq<string>, row: Row)
    requires Combined(roster, fetch, targets).Ok?
    ensures row in Combined(roster, fetch, targets).value <==>
      exists i :: 0 <= i < |roster| && KeptFrom(roster[i], fetch, targets, row)
  {
    if roster != [] {
      var init := roster[..|roster| - 1];
      var last := roster[|roster| - 1];
      CombinedMembers(init, fetch, targets, row);
      TaggedMembers(last.name, fetch(last.id).value, targets, row);
      if exists i :: 0 <= i < |roster| && KeptFrom(roster[i], fetch, targets, row) {
        var i :| 0 <= i < |roster| && KeptFrom(roster[i], fetch, targets, row);
        if i < |roster| - 1 {
          assert init[i] == roster[i];
        }
      }
    }
  }

  /** The run fails iff some fetch fails, and then with the first such error. */
  lemma {:induction false} CombinedFails(roster: seq<PlayerEntry>, fetch: string -> Result<seq<Game>, string>,
                                         targets: seq<string>)
    ensures Combined(roster, fetch, targets).Ok? <==>
      forall i :: 0 <= i < |roster| ==> fetch(roster[i].id).Ok?
    ensures Combined(roster, fetch, targets).Err? ==>
      exists i :: 0 <= i < |roster| && fetch(roster[i].id) == Err(Combined(roster, fetch, targets).error) &&
        forall j :: 0 <= j < i ==> fetch(roster[j].id).Ok?
  {
    if roster != [] {
      var init := roster[..|roster| - 1];
      CombinedFails(init, fetch, targets);
      assert forall i :: 0 <= i < |init| ==> init[i] == roster[i];
    }
  }

  /** The scenario of one player "A" with games on 2025-02-20, 2025-02-25 and
      2025-03-10: only the first two make the table, tagged "A". */
  lemma OnePlayerScenario(g1: Game, g2: Game, g3: Game, fetch: string -> Result<seq<Game>, string>)
    requires g1.gameDate == "2025-02-20" && g2.gameDate == "2025-02-25" && g3.gameDate == "2025-03-10"
    requires fetch("1") == Ok([g1, g2, g3])
    ensures Combined([PlayerEntry("A", "1")], fetch, TargetDates) == Ok([Row("A", g1), Row("A", g2)])
  {
    assert "2025-02-20" == TargetDates[1];
    assert "2025-02-25" == TargetDates[6];
    assert "2025-03-10" !in TargetDates;
    var log := [g1, g2, g3];
    assert log[1..] == [g2, g3] && log[1..][1..] == [g3] && log[1..][1..][1..] == [];
    assert Tagged("A", [g3], TargetDates) == [];
    assert Tagged("A", [g2, g3], TargetDates) == [Row("A", g2)];
    assert Tagged("A", log, TargetDates) == [Row("A", g1), Row("A", g2)];
    var roster := [PlayerEntry("A", "1")];
    assert roster[..0] == [];
    assert Combined(roster[..0], fetch, TargetDates) == Ok([]);
    assert [] + [Row("A", g1), Row("A", g2)] == [Row("A", g1), Row("A", g2)];
  }

  /** The bounds of the range are inclusive: the first and last day are
      kept, the days just outside are not. */
  lemma RangeEnds()
    ensures "2025-02-18" !in TargetDates && "2025-02-19" in TargetDates
    ensures "2025-03-08" in TargetDates && "2025-03-09" !in TargetDates
  {
    assert TargetDates[0] == "2025-02-19";
    assert TargetDates[17] == "2025-03-08";
  }
}
