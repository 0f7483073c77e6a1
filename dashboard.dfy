/** The dashboard of app.py over the downloaded table: the player dropdown
    offers the distinct values of the "Player" column in order of first
    appearance, preselecting the first or nothing; `update_graph` draws a
    placeholder when no player is selected and otherwise a scatter plot of
    exactly the selected player's rows. */
module Dashboard {
  import opened Wrappers
  import opened Exporter

  /** The stat columns offered on both axes, and the axes preselected. */
  const StatOptions: seq<string> := ["PTS", "REB", "AST", "TOV", "FGA", "FTA", "FGM", "FTM"]
  const DefaultX: string := "PTS"
  const DefaultY: string := "REB"

  /** What `update_graph` returns: the empty "No Data Available" figure, or a
      scatter plot of `points` with stat `x` against stat `y`, coloured by
      win/loss. */
  datatype Figure =
    | Placeholder(title: string)
    | Scatter(title: string, x: string, y: string, points: seq<Row>)

  /** Position of the first occurrence of `x` in `s`. */
  function IndexOf(s: seq<string>, x: string): (i: nat)
    requires x in s
    ensures i < |s| && s[i] == x && x !in s[..i]
  {
    if s[0] == x then 0
    else
      var i := IndexOf(s[1..], x) + 1;
      assert s[..i] == [s[0]] + s[1..][..i - 1];
      i
  }

  /** `pd.Series.unique()`: each value once, in order of first appearance. */
  function Distinct(s: seq<string>): (r: seq<string>)
    ensures forall x :: x in r <==> x in s
    ensures forall i, j :: 0 <= i < j < |r| ==> r[i] != r[j]
    ensures forall i, j :: 0 <= i < j < |r| ==> IndexOf(s, r[i]) < IndexOf(s, r[j])
  {
    if s == [] then []
    else
      var init := s[..|s| - 1];
      var last := s[|s| - 1];
      var d := Distinct(init);
      assert s == init + [last];
      forall x | x in init ensures IndexOf(s, x) == IndexOf(init, x) {
        IndexOfExtend(init, [last], x);
      }
      if last in d then d
      else
        assert IndexOf(s, last) == |s| - 1 by {
          IndexOfExtend(init, [last], last);
        }
        d + [last]
  }

  /** Appending never moves the first occurrence of a value already present;
      a value first met in the appended part is found after the prefix. */
  lemma {:induction false} IndexOfExtend(s: seq<string>, t: seq<string>, x: string)
    requires x in s + t
    ensures x in s ==> IndexOf(s + t, x) == IndexOf(s, x)
    ensures x !in s ==> IndexOf(s + t, x) == |s| + IndexOf(t, x)
  {
    if s != [] && s[0] != x {
      assert (s + t)[1..] == s[1..] + t;
      IndexOfExtend(s[1..], t, x);
    } else if s == [] {
      assert s + t == t;
    }
  }

  /** The "Player" column. */
  function PlayerColumn(rows: seq<Row>): (col: seq<string>)
    ensures |col| == |rows| && forall i :: 0 <= i < |rows| ==> col[i] == rows[i].player
  {
    seq(|rows|, i requires 0 <= i < |rows| => rows[i].player)
  }

  /** `df["Player"].unique()`: the dropdown's options. */
  function PlayerOptions(rows: seq<Row>): seq<string>
  {
    Distinct(PlayerColumn(rows))
  }

  /** The options hold every player of the table once, in order of first appearance. */
  lemma PlayerOptionsSpec(rows: seq<Row>)
    ensures forall p :: p in PlayerOptions(rows) <==> exists i :: 0 <= i < |rows| && rows[i].player == p
    ensures forall i, j :: 0 <= i < j < |PlayerOptions(rows)| ==> PlayerOptions(rows)[i] != PlayerOptions(rows)[j]
    ensures forall i, j :: 0 <= i < j < |PlayerOptions(rows)| ==>
      IndexOf(PlayerColumn(rows), PlayerOptions(rows)[i]) < IndexOf(PlayerColumn(rows), PlayerOptions(rows)[j])
  {
    var col := PlayerColumn(rows);
    forall p ensures p in col <==> exists i :: 0 <= i < |rows| && rows[i].player == p {
      if p in col {
        var i :| 0 <= i < |col| && col[i] == p;
        assert rows[i].player == p;
      }
    }
  }

  /** The first distinct value is the first value. */
  lemma DistinctHead(s: seq<string>)
    requires s != []
    ensures Distinct(s) != [] && Distinct(s)[0] == s[0]
  {
    var r := Distinct(s);
    assert s[0] in r;
    var k :| 0 <= k < |r| && r[k] == s[0];
    var first, mine := IndexOf(s, r[0]), IndexOf(s, r[k]);
    assert mine == 0;
    assert k > 0 ==> first < mine;
  }

  /** `value=players[0] if len(players) > 0 else None`: the preselected
      player is the first row's, and there is none only for an empty table. */
  function DefaultPlayer(rows: seq<Row>): (selected: Option<string>)
    ensures selected.None? <==> rows == []
    ensures rows != [] ==> selected == Some(rows[0].player)
  {
    var options := PlayerOptions(rows);
    if rows != [] then DistinctHead(PlayerColumn(rows)); Some(options[0])
    else None
  }

  /** `df[df["Player"] == player]`: the player's rows in table order. */
  function RowsOf(rows: seq<Row>, player: string): (r: seq<Row>)
    ensures forall row :: row in r <==> row in rows && row.player == player
  {
    if rows == [] then []
    else (if rows[0].player == player then [rows[0]] else []) + RowsOf(rows[1..], player)
  }

  /** Filtering by player keeps the table's order: it distributes over concatenation. */
  lemma {:induction false} RowsOfConcat(a: seq<Row>, b: seq<Row>, player: string)
    ensures RowsOf(a + b, player) == RowsOf(a, player) + RowsOf(b, player)
  {
    if a == [] {
      assert a + b == b;
    } else {
      assert (a + b)[1..] == a[1..] + b;
      RowsOfConcat(a[1..], b, player);
    }
  }

  /** Filtering a table that holds only the player's rows changes nothing. */
  lemma {:induction false} RowsOfAll(rows: seq<Row>, player: string)
    requires forall i :: 0 <= i < |rows| ==> rows[i].player == player
    ensures RowsOf(rows, player) == rows
  {
    if rows != [] {
      RowsOfAll(rows[1..], player);
    }
  }

  /** `update_graph(selected_player, x_stat, y_stat)` on the loaded table. */
  function UpdateGraph(selected: Option<string>, x: string, y: string, rows: seq<Row>): (fig: Figure)
    ensures fig.Placeholder? <==> selected.None?
    ensures fig.Placeholder? ==> fig.title == "No Data Available"
    ensures fig.Scatter? ==> fig.x == x && fig.y == y
    ensures fig.Scatter? ==> forall row :: row in fig.points <==> row in rows && row.player == selected.value
    ensures selected.Some? ==>
      fig == Scatter(selected.value + ": " + x + " vs " + y, x, y, RowsOf(rows, selected.value))
  {
    match selected
    case None => Placeholder("No Data Available")
    case Some(player) => Scatter(player + ": " + x + " vs " + y, x, y, RowsOf(rows, player))
  }

  /** The names in the roster are distinct, as the keys of `player_ids` are. */
  predicate DistinctNames(roster: seq<PlayerEntry>) {
    forall i, j :: 0 <= i < j < |roster| ==> roster[i].name != roster[j].name
  }

  /** Selecting a player of the exported roster on the exported table plots
      exactly that player's on-date games, in the order of the player's log. */
  lemma {:induction false} SelectedPlayerSeesOwnLog(roster: seq<PlayerEntry>, fetch: string -> Result<seq<Game>, string>,
                                                    targets: seq<string>, k: nat)
    requires DistinctNames(roster) && k < |roster|
    requires Combined(roster, fetch, targets).Ok?
    ensures fetch(roster[k].id).Ok?
    ensures RowsOf(Combined(roster, fetch, targets).value, roster[k].name) ==
      Tagged(roster[k].name, fetch(roster[k].id).value, targets)
  {
    var init := roster[..|roster| - 1];
    var last := roster[|roster| - 1];
    var table := Combined(init, fetch, targets).value;
    var log := fetch(last.id).value;
    var name := roster[k].name;
    RowsOfConcat(table, Tagged(last.name, log, targets), name);
    TaggedRowsOf(last.name, log, targets, name);
    if k == |roster| - 1 {
      forall i | 0 <= i < |init| ensures init[i].name != name {
        assert init[i] == roster[i];
      }
      AbsentPlayerHasNoRows(init, fetch, targets, name);
    } else {
      assert init[k] == roster[k];
      SelectedPlayerSeesOwnLog(init, fetch, targets, k);
    }
  }

  /** A player's contribution, filtered by a player: all of it for that
      player's own name, nothing for another. */
  lemma TaggedRowsOf(name: string, log: seq<Game>, targets: seq<string>, player: string)
    ensures RowsOf(Tagged(name, log, targets), player) == if name == player then Tagged(name, log, targets) else []
  {
    var rows := Tagged(name, log, targets);
    forall i | 0 <= i < |rows| ensures rows[i].player == name {
      TaggedMembers(name, log, targets, rows[i]);
    }
    if name == player {
      RowsOfAll(rows, player);
    } else {
      RowsOfNone(rows, player);
    }
  }

  /** A name outside the roster has no rows in the table. */
  lemma AbsentPlayerHasNoRows(roster: seq<PlayerEntry>, fetch: string -> Result<seq<Game>, string>,
                              targets: seq<string>, player: string)
    requires Combined(roster, fetch, targets).Ok?
    requires forall i :: 0 <= i < |roster| ==> roster[i].name != player
    ensures RowsOf(Combined(roster, fetch, targets).value, player) == []
  {
    var table := Combined(roster, fetch, targets).value;
    forall row | row in table ensures row.player != player {
      CombinedMembers(roster, fetch, targets, row);
    }
    RowsOfNone(table, player);
  }

  /** Filtering a table without the player's rows leaves nothing. */
  lemma {:induction false} RowsOfNone(rows: seq<Row>, player: string)
    requires forall row :: row in rows ==> row.player != player
    ensures RowsOf(rows, player) == []
  {
    if rows != [] {
      RowsOfNone(rows[1..], player);
    }
  }
}
