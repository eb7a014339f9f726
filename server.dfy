/**
 * The bookkeeping of the game server (block-server.py, class `TetrisServer`):
 * the client table, the one waiting player, the high-score table, and the
 * message handlers that pair players, forward updates and record scores.
 * Sockets are replaced by an outbox of `(recipient, message)` pairs; a
 * message is queued only when its recipient is still in the client table,
 * as `send_message` checks. Each handler runs as one atomic step.
 */
module Server {
  import opened Options

  type ClientId = string

  /** One `[name, score]` row of the high-score table. */
  datatype ScoreEntry = ScoreEntry(name: string, score: int)

  /** The `game_state` a client last reported. */
  datatype GameState = GameState(grid: seq<seq<int>>, score: int)

  /** What the server keeps per client (its socket aside). */
  datatype ClientRecord = ClientRecord(name: string, opponent: Option<ClientId>, game: GameState, mode: string)

  /** The messages the server sends. */
  datatype ServerMsg =
    | PlayerId(id: ClientId)
    | HighScores(scores: seq<ScoreEntry>)
    | GameStart(opponentName: string)
    | OpponentUpdate(grid: seq<seq<int>>, score: int)
    | AddLines(lines: int)
    | GameOver(winner: ClientId)
    | OpponentDisconnected

  /** The server's whole state, as a value. */
  datatype State = State(clients: map<ClientId, ClientRecord>, waiting: Option<ClientId>,
                         highScores: seq<ScoreEntry>, outbox: seq<(ClientId, ServerMsg)>)

  /** The high-score table keeps this many rows. */
  const TableSize: int := 20

  const Multiplayer: string := "multiplayer"

  // ---------------------------------------------------------------------
  // The high-score table: append, stable sort by descending score, keep 20.

  ghost predicate Ranked(s: seq<ScoreEntry>) {
    forall i, j | 0 <= i < j < |s| :: s[i].score >= s[j].score
  }

  /** `e` goes after every leading entry that scores at least as much. */
  function InsertDesc(s: seq<ScoreEntry>, e: ScoreEntry): (r: seq<ScoreEntry>)
    ensures |r| == |s| + 1
  {
    if |s| == 0 then [e]
    else if s[0].score >= e.score then
      assert s == [s[0]] + s[1..];
      [s[0]] + InsertDesc(s[1..], e)
    else [e] + s
  }

  /**
   * `list.sort(key=score, reverse=True)`: a stable sort, so entries of equal
   * score keep their order; built here by inserting each entry in turn.
   */
  function SortDesc(s: seq<ScoreEntry>): (r: seq<ScoreEntry>)
    ensures |r| == |s|
  {
    if |s| == 0 then []
    else
      assert s == s[..|s| - 1] + [s[|s| - 1]];
      InsertDesc(SortDesc(s[..|s| - 1]), s[|s| - 1])
  }

  /** The first 20 rows, or all of them when there are fewer. */
  function Top(s: seq<ScoreEntry>): seq<ScoreEntry> {
    if |s| > TableSize then s[..TableSize] else s
  }

  /** `add_high_score(name, score)`: the new table. */
  function AddScore(hs: seq<ScoreEntry>, name: string, score: int): seq<ScoreEntry> {
    Top(SortDesc(hs + [ScoreEntry(name, score)]))
  }

  /** How many leading entries of s score at least as much as e. */
  function Rank(s: seq<ScoreEntry>, e: ScoreEntry): (k: nat)
    ensures k <= |s|
  {
    if |s| == 0 || s[0].score < e.score then 0 else 1 + Rank(s[1..], e)
  }

  lemma {:induction false} InsertDescRanked(s: seq<ScoreEntry>, e: ScoreEntry)
    requires Ranked(s)
    ensures Ranked(InsertDesc(s, e))
  {
    if |s| > 0 && s[0].score >= e.score {
      var t := s[1..];
      assert Ranked(t) by {
        forall i, j | 0 <= i < j < |t| ensures t[i].score >= t[j].score {
          assert t[i] == s[i + 1] && t[j] == s[j + 1];
        }
      }
      InsertDescRanked(t, e);
      var r := InsertDesc(t, e);
      forall j | 0 <= j < |t| ensures t[j].score <= s[0].score {
        assert t[j] == s[j + 1];
      }
      InsertDescBound(t, e, s[0].score);
      assert InsertDesc(s, e) == [s[0]] + r;
    } else if |s| > 0 {
      assert InsertDesc(s, e) == [e] + s;
    }
  }

  /** Inserting keeps every score under a bound that the table and the new row are under. */
  lemma {:induction false} InsertDescBound(s: seq<ScoreEntry>, e: ScoreEntry, b: int)
    requires e.score <= b && forall i | 0 <= i < |s| :: s[i].score <= b
    ensures forall j | 0 <= j < |InsertDesc(s, e)| :: InsertDesc(s, e)[j].score <= b
  {
    if |s| > 0 && s[0].score >= e.score {
      InsertDescBound(s[1..], e, b);
    }
  }

  lemma {:induction false} SortDescRanked(s: seq<ScoreEntry>)
    ensures Ranked(SortDesc(s))
  {
    if |s| > 0 {
      SortDescRanked(s[..|s| - 1]);
      InsertDescRanked(SortDesc(s[..|s| - 1]), s[|s| - 1]);
    }
  }

  /** Inserting e puts it right after the entries that score at least as much, the rest unchanged. */
  lemma {:induction false} InsertDescSplit(s: seq<ScoreEntry>, e: ScoreEntry)
    ensures var k := Rank(s, e); InsertDesc(s, e) == s[..k] + [e] + s[k..]
  {
    if |s| > 0 && s[0].score >= e.score {
      var t := s[1..];
      InsertDescSplit(t, e);
      var k := Rank(t, e);
      assert Rank(s, e) == k + 1;
      var head, tail := s[..k + 1], s[k + 1..];
      assert head == [s[0]] + t[..k];
      assert tail == t[k..];
      assert InsertDesc(s, e) == [s[0]] + (t[..k] + [e] + t[k..]);
      assert [s[0]] + (t[..k] + [e] + t[k..]) == head + [e] + tail;
    } else {
      assert Rank(s, e) == 0;
      assert s[..0] + [e] + s[0..] == [e] + s;
    }
  }

  /** In a ranked table, Rank splits the entries scoring at least e from those scoring less. */
  lemma {:induction false} RankSplits(s: seq<ScoreEntry>, e: ScoreEntry)
    requires Ranked(s)
    ensures var k := Rank(s, e);
      && (forall i | 0 <= i < k :: s[i].score >= e.score)
      && (forall i | k <= i < |s| :: s[i].score < e.score)
  {
    if |s| > 0 && s[0].score >= e.score {
      var t := s[1..];
      assert Ranked(t) by {
        forall i, j | 0 <= i < j < |t| ensures t[i].score >= t[j].score {
          assert t[i] == s[i + 1] && t[j] == s[j + 1];
        }
      }
      RankSplits(t, e);
      var k := Rank(t, e);
      forall i | 0 <= i < k + 1 ensures s[i].score >= e.score {
        if i > 0 { assert s[i] == t[i - 1]; }
      }
      forall i | k + 1 <= i < |s| ensures s[i].score < e.score {
        assert s[i] == t[i - 1];
      }
    }
  }

  /** A ranked table is left as it is by the stable sort. */
  lemma {:induction false} SortRankedUnchanged(s: seq<ScoreEntry>)
    requires Ranked(s)
    ensures SortDesc(s) == s
  {
    if |s| > 0 {
      var init, last := s[..|s| - 1], s[|s| - 1];
      RankedInit(s);
      SortRankedUnchanged(init);
      forall i | 0 <= i < |init| ensures init[i].score >= last.score {
        assert init[i] == s[i];
      }
      assert SortDesc(s) == InsertDesc(init, last);
      InsertDescLast(init, last);
      assert init + [last] == s;
    }
  }

  /** The entries of s that score exactly v, in their order in s. */
  function WithScore(s: seq<ScoreEntry>, v: int): (r: seq<ScoreEntry>)
    ensures |r| <= |s|
  {
    if |s| == 0 then [] else (if s[0].score == v then [s[0]] else []) + WithScore(s[1..], v)
  }

  lemma {:induction false} WithScoreAppend(a: seq<ScoreEntry>, b: seq<ScoreEntry>, v: int)
    ensures WithScore(a + b, v) == WithScore(a, v) + WithScore(b, v)
  {
    if |a| == 0 {
      assert a + b == b;
    } else {
      var h := if a[0].score == v then [a[0]] else [];
      var ab := a + b;
      assert ab[0] == a[0];
      assert ab[1..] == a[1..] + b;
      assert WithScore(ab, v) == h + WithScore(a[1..] + b, v);
      WithScoreAppend(a[1..], b, v);
      assert WithScore(a, v) == h + WithScore(a[1..], v);
      assert h + (WithScore(a[1..], v) + WithScore(b, v)) == (h + WithScore(a[1..], v)) + WithScore(b, v);
    }
  }

  lemma {:induction false} WithScoreNone(s: seq<ScoreEntry>, v: int)
    requires forall i | 0 <= i < |s| :: s[i].score != v
    ensures WithScore(s, v) == []
  {
    if |s| > 0 {
      assert forall i | 0 <= i < |s[1..]| :: s[1..][i] == s[i + 1];
      WithScoreNone(s[1..], v);
    }
  }

  /** Putting e between head and tail adds it after the entries of its score, when tail holds none of them. */
  lemma StableSplit(head: seq<ScoreEntry>, e: ScoreEntry, tail: seq<ScoreEntry>, v: int)
    requires e.score == v ==> forall i | 0 <= i < |tail| :: tail[i].score != v
    ensures WithScore(head + [e] + tail, v) == WithScore(head + tail, v) + (if e.score == v then [e] else [])
  {
    WithScoreAppend(head + [e], tail, v);
    WithScoreAppend(head, [e], v);
    WithScoreAppend(head, tail, v);
    assert [e][1..] == [];
    assert WithScore([e], v) == (if e.score == v then [e] else []) + WithScore([], v);
    if e.score == v {
      WithScoreNone(tail, v);
    }
  }

  /** In a ranked table, every entry from e's rank on scores less than e. */
  lemma RankTail(s: seq<ScoreEntry>, e: ScoreEntry)
    requires Ranked(s)
    ensures var tail := s[Rank(s, e)..]; forall i | 0 <= i < |tail| :: tail[i].score < e.score
  {
    var k := Rank(s, e);
    RankSplits(s, e);
    assert forall i | 0 <= i < |s[k..]| :: s[k..][i] == s[k + i];
  }

  /** Inserting e into a ranked table puts it after every entry of the same score. */
  lemma InsertDescStable(s: seq<ScoreEntry>, e: ScoreEntry, v: int)
    requires Ranked(s)
    ensures WithScore(InsertDesc(s, e), v) == WithScore(s, v) + (if e.score == v then [e] else [])
  {
    var k := Rank(s, e);
    RankTail(s, e);
    StableSplit(s[..k], e, s[k..], v);
    InsertDescSplit(s, e);
    assert s[..k] + s[k..] == s;
  }

  /**
   * The sort is stable for every input: for each score, the entries with
   * that score come out in the order they went in.
   */
  lemma {:induction false} SortDescStable(s: seq<ScoreEntry>, v: int)
    ensures WithScore(SortDesc(s), v) == WithScore(s, v)
  {
    if |s| > 0 {
      var init, last := s[..|s| - 1], s[|s| - 1];
      SortDescStable(init, v);
      SortDescRanked(init);
      InsertDescStable(SortDesc(init), last, v);
      assert s == init + [last];
      WithScoreAppend(init, [last], v);
      assert [last][1..] == [];
    }
  }

  /** Dropping the last row of a ranked table leaves it ranked, and that row scores no more than any other. */
  lemma RankedInit(s: seq<ScoreEntry>)
    requires Ranked(s) && |s| > 0
    ensures Ranked(s[..|s| - 1])
    ensures forall i | 0 <= i < |s| - 1 :: s[i].score >= s[|s| - 1].score
  {
    var init := s[..|s| - 1];
    forall i, j | 0 <= i < j < |init| ensures init[i].score >= init[j].score {
      assert init[i] == s[i] && init[j] == s[j];
    }
  }

  /** A row scoring no more than every other one is inserted at the end. */
  lemma {:induction false} InsertDescLast(s: seq<ScoreEntry>, e: ScoreEntry)
    requires forall i | 0 <= i < |s| :: s[i].score >= e.score
    ensures InsertDesc(s, e) == s + [e]
  {
    if |s| > 0 {
      InsertDescLast(s[1..], e);
      assert s == [s[0]] + s[1..];
    }
  }

  /** `add_high_score` always leaves at most 20 rows in descending score order. */
  lemma AddScoreRanked(hs: seq<ScoreEntry>, name: string, score: int)
    ensures var r := AddScore(hs, name, score);
      Ranked(r) && |r| <= TableSize && |r| == if |hs| + 1 > TableSize then TableSize else |hs| + 1
  {
    var s := SortDesc(hs + [ScoreEntry(name, score)]);
    SortDescRanked(hs + [ScoreEntry(name, score)]);
    var r := Top(s);
    forall i, j | 0 <= i < j < |r| ensures r[i].score >= r[j].score {
      assert r[i] == s[i] && r[j] == s[j];
    }
  }

  /** Inserting a row adds exactly that row. */
  lemma {:induction false} InsertDescPerm(s: seq<ScoreEntry>, e: ScoreEntry)
    ensures multiset(InsertDesc(s, e)) == multiset(s) + multiset{e}
  {
    if |s| > 0 && s[0].score >= e.score {
      InsertDescPerm(s[1..], e);
      assert s == [s[0]] + s[1..];
    }
  }

  /** The sort is a permutation. */
  lemma {:induction false} SortDescPerm(s: seq<ScoreEntry>)
    ensures multiset(SortDesc(s)) == multiset(s)
  {
    if |s| > 0 {
      var init, last := s[..|s| - 1], s[|s| - 1];
      assert SortDesc(s) == InsertDesc(SortDesc(init), last);
      SortDescPerm(init);
      InsertDescPerm(SortDesc(init), last);
      assert init + [last] == s;
      assert multiset(init + [last]) == multiset(init) + multiset{last};
    }
  }

  /**
   * The new table holds old rows and the new one, each at most as often as
   * before the cut: nothing is invented or duplicated.
   */
  lemma AddScoreRows(hs: seq<ScoreEntry>, name: string, score: int)
    ensures multiset(AddScore(hs, name, score)) <= multiset(hs) + multiset{ScoreEntry(name, score)}
    ensures forall x | x in AddScore(hs, name, score) :: x in hs || x == ScoreEntry(name, score)
  {
    var all := hs + [ScoreEntry(name, score)];
    var s := SortDesc(all);
    SortDescPerm(all);
    var r := AddScore(hs, name, score);
    if |s| > TableSize {
      assert s == r + s[TableSize..];
    }
    assert multiset(r) <= multiset(all);
    forall x | x in r
      ensures x in hs || x == ScoreEntry(name, score)
    {
      assert x in multiset(r);
    }
  }

  /**
   * On a ranked table, the new row goes in after every row with a score at
   * least as high (ties keep the older row first), and the table is then
   * cut to 20: the new row stays exactly when fewer than 20 rows score at
   * least as much, and otherwise the table is its first 20 rows.
   */
  lemma AddScoreToRanked(hs: seq<ScoreEntry>, name: string, score: int)
    requires Ranked(hs)
    ensures var e, k := ScoreEntry(name, score), Rank(hs, ScoreEntry(name, score));
      && AddScore(hs, name, score) == Top(hs[..k] + [e] + hs[k..])
      && (k < TableSize ==> AddScore(hs, name, score)[k] == e)
      && (k >= TableSize ==> AddScore(hs, name, score) == hs[..TableSize])
  {
    var e := ScoreEntry(name, score);
    SortAppendRanked(hs, e);
    TopOfInsert(hs, e, Rank(hs, e));
  }

  /** Cutting `hs` with `e` inserted at k to 20 rows keeps `e` when k < 20, and otherwise gives the first 20 rows of `hs`. */
  lemma TopOfInsert(hs: seq<ScoreEntry>, e: ScoreEntry, k: nat)
    requires k <= |hs|
    ensures k < TableSize ==> Top(hs[..k] + [e] + hs[k..])[k] == e
    ensures k >= TableSize ==> Top(hs[..k] + [e] + hs[k..]) == hs[..TableSize]
  {
    var ins := hs[..k] + [e] + hs[k..];
    if k >= TableSize {
      assert ins[..TableSize] == hs[..TableSize];
    } else {
      assert ins[k] == e;
    }
  }

  /** Sorting a ranked table with one row appended is inserting that row. */
  lemma SortAppendRanked(hs: seq<ScoreEntry>, e: ScoreEntry)
    requires Ranked(hs)
    ensures var k := Rank(hs, e); SortDesc(hs + [e]) == hs[..k] + [e] + hs[k..]
  {
    var s := hs + [e];
    assert s[..|s| - 1] == hs && s[|s| - 1] == e;
    SortRankedUnchanged(hs);
    InsertDescSplit(hs, e);
  }

  // ---------------------------------------------------------------------
  // The handlers, as functions of the state.

  /** `send_message`: queued only when the recipient is still a client. */
  function Send(st: State, to: ClientId, m: ServerMsg): State {
    if to in st.clients then st.(outbox := st.outbox + [(to, m)]) else st
  }

  /** Python's `if opponent_id and opponent_id in self.clients`: set, non-empty and known. */
  predicate Present(o: Option<ClientId>, clients: map<ClientId, ClientRecord>) {
    o.Some? && o.value != "" && o.value in clients
  }

  /** `handle_client`'s registration: a record named `Player_` plus the first 8 characters of the id. */
  function Register(st: State, cid: ClientId): State {
    var prefix := if |cid| >= 8 then cid[..8] else cid;
    st.(clients := st.clients[cid := ClientRecord("Player_" + prefix, None, GameState([], 0), "unknown")])
  }

  /** Links `cid` and `w` as opponents, clears the waiting slot, and tells both sides. */
  function Pair(st: State, cid: ClientId, w: ClientId): State
    requires cid in st.clients && w in st.clients
  {
    var c1 := st.clients[cid := st.clients[cid].(opponent := Some(w))];
    var c2 := c1[w := c1[w].(opponent := Some(cid))];
    var s := st.(clients := c2, waiting := None);
    Send(Send(s, cid, GameStart(c2[w].name)), w, GameStart(c2[cid].name))
  }

  /**
   * `handle_join`: an unknown id raises before any change. Otherwise the
   * name is replaced when given, the mode is set (default "single"), the
   * client gets its id and the table, and in multiplayer mode it is paired
   * with the waiting player if there is one (even when that is itself) or
   * becomes the waiting player.
   */
  function Join(st: State, cid: ClientId, name: Option<string>, mode: Option<string>): State {
    if cid !in st.clients then st
    else
      var s := Greet(st, cid, name, mode);
      if JoinMode(mode) != Multiplayer then s else Match(s, cid)
  }

  /** The mode a join asks for: "single" when the message has none. */
  function JoinMode(mode: Option<string>): string {
    if mode.Some? then mode.value else "single"
  }

  /** The first half of a join: record name and mode, then send the id and the table. */
  function Greet(st: State, cid: ClientId, name: Option<string>, mode: Option<string>): (r: State)
    requires cid in st.clients
    ensures cid in r.clients
  {
    var r := st.clients[cid];
    var r1 := (if name.Some? then r.(name := name.value) else r).(mode := JoinMode(mode));
    var s1 := st.(clients := st.clients[cid := r1]);
    Send(Send(s1, cid, PlayerId(cid)), cid, HighScores(s1.highScores))
  }

  /** The multiplayer half of a join: pair with a present waiting player, or wait. */
  function Match(st: State, cid: ClientId): State
    requires cid in st.clients
  {
    if Present(st.waiting, st.clients) then Pair(st, cid, st.waiting.value)
    else st.(waiting := Some(cid))
  }

  /** `handle_ready_for_new_game`: the pairing rule of a join, but never with itself, and only in multiplayer mode. */
  function Ready(st: State, cid: ClientId): State {
    if cid !in st.clients || st.clients[cid].mode != Multiplayer then st
    else if Present(st.waiting, st.clients) && st.waiting.value != cid then Pair(st, cid, st.waiting.value)
    else st.(waiting := Some(cid))
  }

  /**
   * `handle_client_disconnect`: for a known id, clear the waiting slot if it
   * was this client, tell a present opponent and unlink it, and remove the
   * client.
   */
  function Disconnect(st: State, cid: ClientId): State {
    if cid !in st.clients then st
    else
      var opp := st.clients[cid].opponent;
      var s1 := if st.waiting == Some(cid) then st.(waiting := None) else st;
      var s2 :=
        if Present(opp, s1.clients) then
          var s := Send(s1, opp.value, OpponentDisconnected);
          s.(clients := s.clients[opp.value := s.clients[opp.value].(opponent := None)])
        else s1;
      s2.(clients := s2.clients - {cid})
  }

  /**
   * `handle_grid_update`: the grid is stored (a missing grid raises before
   * any change), then the score (a missing score raises after the grid was
   * stored); the update is forwarded to a present opponent when the mode,
   * from the message or else from the record, is multiplayer.
   */
  function GridUpdate(st: State, cid: ClientId, grid: Option<seq<seq<int>>>, score: Option<int>,
                      mode: Option<string>): State {
    if cid !in st.clients || grid.None? then st
    else
      var r := st.clients[cid];
      var s1 := st.(clients := st.clients[cid := r.(game := r.game.(grid := grid.value))]);
      if score.None? then s1
      else
        var s2 := s1.(clients := s1.clients[cid := r.(game := GameState(grid.value, score.value))]);
        var gm := if mode.Some? then mode.value else r.mode;
        if gm == Multiplayer && Present(r.opponent, s2.clients) then
          Send(s2, r.opponent.value, OpponentUpdate(grid.value, score.value))
        else s2
  }

  /** `handle_clear_lines`: a multiplayer client's opponent is sent `lines` (default 0) junk rows. */
  function ClearLines(st: State, cid: ClientId, lines: Option<int>): State {
    if cid !in st.clients then st
    else
      var r := st.clients[cid];
      var n := if lines.Some? then lines.value else 0;
      if r.mode == Multiplayer && Present(r.opponent, st.clients) then Send(st, r.opponent.value, AddLines(n))
      else st
  }

  /**
   * `handle_game_over`: the score (default 0) always enters the table and the
   * client gets the new table; in multiplayer mode with a present opponent
   * both sides learn that the opponent won, the opponent gets the table
   * too, and both are unlinked.
   */
  function GameEnd(st: State, cid: ClientId, score: Option<int>): State {
    if cid !in st.clients then st
    else
      var r := st.clients[cid];
      var sc := if score.Some? then score.value else 0;
      var s1 := st.(highScores := AddScore(st.highScores, r.name, sc));
      var s2 := Send(s1, cid, HighScores(s1.highScores));
      if r.mode == Multiplayer && Present(r.opponent, s2.clients) then
        var o := r.opponent.value;
        var s3 := Send(Send(Send(s2, cid, GameOver(o)), o, GameOver(o)), o, HighScores(s2.highScores));
        var c1 := s3.clients[cid := s3.clients[cid].(opponent := None)];
        s3.(clients := c1[o := c1[o].(opponent := None)])
      else s2
  }

  // ---------------------------------------------------------------------
  // What the handlers promise.

  /** The waiting player, when there is one, is a connected client. */
  ghost predicate WaitingKnown(st: State) {
    st.waiting.Some? ==> st.waiting.value in st.clients
  }

  /** Registering adds exactly the new client and keeps the waiting slot valid. */
  lemma RegisterKeepsWaiting(st: State, cid: ClientId)
    requires WaitingKnown(st)
    ensures WaitingKnown(Register(st, cid)) && Register(st, cid).clients.Keys == st.clients.Keys + {cid}
  {
  }

  /** A join keeps the set of clients and a valid waiting slot. */
  lemma JoinKeepsClients(st: State, cid: ClientId, name: Option<string>, mode: Option<string>)
    requires WaitingKnown(st)
    ensures Join(st, cid, name, mode).clients.Keys == st.clients.Keys && WaitingKnown(Join(st, cid, name, mode))
  {
  }

  /** A ready message keeps the set of clients and a valid waiting slot. */
  lemma ReadyKeepsClients(st: State, cid: ClientId)
    requires WaitingKnown(st)
    ensures Ready(st, cid).clients.Keys == st.clients.Keys && WaitingKnown(Ready(st, cid))
  {
  }

  /** A disconnect removes exactly that client and keeps the waiting slot valid. */
  lemma DisconnectKeepsWaiting(st: State, cid: ClientId)
    requires WaitingKnown(st)
    ensures Disconnect(st, cid).clients.Keys == st.clients.Keys - {cid} && WaitingKnown(Disconnect(st, cid))
  {
  }

  /** A grid update keeps the set of clients and the waiting slot. */
  lemma GridUpdateKeepsClients(st: State, cid: ClientId, grid: Option<seq<seq<int>>>, score: Option<int>,
                               mode: Option<string>)
    ensures GridUpdate(st, cid, grid, score, mode).clients.Keys == st.clients.Keys
    ensures GridUpdate(st, cid, grid, score, mode).waiting == st.waiting
  {
  }

  /** A game over keeps the set of clients and the waiting slot. */
  lemma GameEndKeepsClients(st: State, cid: ClientId, score: Option<int>)
    ensures GameEnd(st, cid, score).clients.Keys == st.clients.Keys && GameEnd(st, cid, score).waiting == st.waiting
  {
  }

  /** A join of a known client first sends it its id, then the high-score table. */
  lemma JoinGreets(st: State, cid: ClientId, name: Option<string>, mode: Option<string>)
    requires cid in st.clients
    ensures var r := Join(st, cid, name, mode);
      && |r.outbox| >= |st.outbox| + 2
      && r.outbox[..|st.outbox| + 2] == st.outbox + [(cid, PlayerId(cid)), (cid, HighScores(st.highScores))]
      && r.clients[cid].name == (if name.Some? then name.value else st.clients[cid].name)
      && r.clients[cid].mode == (if mode.Some? then mode.value else "single")
      && r.highScores == st.highScores
  {
    var r := Join(st, cid, name, mode);
    var pre := st.outbox + [(cid, PlayerId(cid)), (cid, HighScores(st.highScores))];
    assert r.outbox[..|pre|] == pre;
  }

  /**
   * A multiplayer join with a waiting player w other than the joiner links
   * the two both ways, empties the waiting slot, and starts the game on
   * both sides, each told the other's name.
   */
  lemma JoinPairs(st: State, cid: ClientId, name: Option<string>, w: ClientId)
    requires cid in st.clients && st.waiting == Some(w) && w != "" && w in st.clients && w != cid
    ensures var r := Join(st, cid, name, Some(Multiplayer));
      && r.clients[cid].opponent == Some(w) && r.clients[w].opponent == Some(cid)
      && r.waiting == None
      && r.outbox == st.outbox + [(cid, PlayerId(cid)), (cid, HighScores(st.highScores)),
                                  (cid, GameStart(st.clients[w].name)), (w, GameStart(r.clients[cid].name))]
  {
  }

  /** With no usable waiting player, a multiplayer joiner becomes the waiting player. */
  lemma JoinWaits(st: State, cid: ClientId, name: Option<string>)
    requires cid in st.clients && !Present(st.waiting, st.clients)
    ensures var r := Join(st, cid, name, Some(Multiplayer));
      r.waiting == Some(cid) && r.clients[cid].opponent == st.clients[cid].opponent
  {
  }

  /** A join in any other mode leaves the waiting slot and every opponent link alone. */
  lemma JoinSingleKeepsWaiting(st: State, cid: ClientId, name: Option<string>, mode: Option<string>)
    requires mode != Some(Multiplayer)
    ensures var r := Join(st, cid, name, mode);
      r.waiting == st.waiting && forall c | c in st.clients :: r.clients[c].opponent == st.clients[c].opponent
  {
  }

  /** The join has no self-check: a waiting client that joins again in multiplayer mode is paired with itself. */
  lemma JoinSelfPairs(st: State, cid: ClientId, name: Option<string>)
    requires cid in st.clients && cid != "" && st.waiting == Some(cid)
    ensures var r := Join(st, cid, name, Some(Multiplayer));
      r.clients[cid].opponent == Some(cid) && r.waiting == None
  {
  }

  /** A ready client is never paired with itself: its own waiting slot is left as it is. */
  lemma ReadyNeverSelf(st: State, cid: ClientId)
    requires st.waiting == Some(cid)
    ensures Ready(st, cid) == st
  {
  }

  /** A ready multiplayer client is paired with another waiting player exactly as a join would. */
  lemma ReadyPairs(st: State, cid: ClientId, w: ClientId)
    requires cid in st.clients && st.clients[cid].mode == Multiplayer
    requires st.waiting == Some(w) && w != "" && w in st.clients && w != cid
    ensures var r := Ready(st, cid);
      && r.clients[cid].opponent == Some(w) && r.clients[w].opponent == Some(cid) && r.waiting == None
      && r.outbox == st.outbox + [(cid, GameStart(st.clients[w].name)), (w, GameStart(st.clients[cid].name))]
  {
  }

  /** A ready message from an unknown client or one not in multiplayer mode changes nothing. */
  lemma ReadyOtherModes(st: State, cid: ClientId)
    requires cid !in st.clients || st.clients[cid].mode != Multiplayer
    ensures Ready(st, cid) == st
  {
  }

  /**
   * A ready multiplayer client with no other present waiting player becomes
   * the waiting player; no link changes and nothing is sent.
   */
  lemma ReadyWaits(st: State, cid: ClientId)
    requires cid in st.clients && st.clients[cid].mode == Multiplayer
    requires !Present(st.waiting, st.clients) || st.waiting == Some(cid)
    ensures var r := Ready(st, cid);
      r.waiting == Some(cid) && r.clients == st.clients && r.outbox == st.outbox && r.highScores == st.highScores
  {
  }

  /**
   * A disconnect removes the client, never leaves it waiting, unlinks a
   * present opponent and queues `opponent_disconnected` for it; an unknown
   * id changes nothing.
   */
  lemma DisconnectEffects(st: State, cid: ClientId)
    ensures cid !in st.clients ==> Disconnect(st, cid) == st
    ensures var r := Disconnect(st, cid);
      && cid !in r.clients && r.highScores == st.highScores
      && (cid in st.clients ==> r.waiting != Some(cid))
    ensures var r := Disconnect(st, cid);
      cid in st.clients && Present(st.clients[cid].opponent, st.clients) && st.clients[cid].opponent != Some(cid) ==>
        var o := st.clients[cid].opponent.value;
        r.clients[o].opponent == None && r.outbox == st.outbox + [(o, OpponentDisconnected)]
  {
  }

  /**
   * A game over of a known client always records its score (default 0) and
   * sends it the new table; with a present multiplayer opponent o (not the
   * client itself), both learn that o won, o gets the table, and both are
   * unlinked.
   */
  lemma GameEndEffects(st: State, cid: ClientId, score: Option<int>)
    requires cid in st.clients
    ensures var r, hs := GameEnd(st, cid, score), AddScore(st.highScores, st.clients[cid].name, if score.Some? then score.value else 0);
      && r.highScores == hs
      && |r.outbox| > |st.outbox| && r.outbox[|st.outbox|] == (cid, HighScores(hs))
    ensures var r, hs := GameEnd(st, cid, score), AddScore(st.highScores, st.clients[cid].name, if score.Some? then score.value else 0);
      var rec := st.clients[cid];
      rec.mode == Multiplayer && Present(rec.opponent, st.clients) && rec.opponent != Some(cid) ==>
        var o := rec.opponent.value;
        && r.clients[cid].opponent == None && r.clients[o].opponent == None
        && r.outbox == st.outbox + [(cid, HighScores(hs)), (cid, GameOver(o)), (o, GameOver(o)), (o, HighScores(hs))]
  {
  }

  /** A grid update is stored, and forwarded to the opponent only for a multiplayer client with one present. */
  lemma GridUpdateEffects(st: State, cid: ClientId, grid: seq<seq<int>>, score: int, mode: Option<string>)
    requires cid in st.clients
    ensures var r, rec := GridUpdate(st, cid, Some(grid), Some(score), mode), st.clients[cid];
      var gm := if mode.Some? then mode.value else rec.mode;
      && r.clients[cid].game == GameState(grid, score)
      && r.outbox == st.outbox + (if gm == Multiplayer && Present(rec.opponent, st.clients)
                                  then [(rec.opponent.value, OpponentUpdate(grid, score))] else [])
  {
  }

  /** Cleared rows are passed on to a present opponent of a multiplayer client, and nothing else changes. */
  lemma ClearLinesEffects(st: State, cid: ClientId, lines: Option<int>)
    ensures var r := ClearLines(st, cid, lines);
      && r.clients == st.clients && r.waiting == st.waiting && r.highScores == st.highScores
      && (cid in st.clients && st.clients[cid].mode == Multiplayer && Present(st.clients[cid].opponent, st.clients) ==>
            r.outbox == st.outbox + [(st.clients[cid].opponent.value, AddLines(if lines.Some? then lines.value else 0))])
      && (cid !in st.clients || st.clients[cid].mode != Multiplayer ==> r.outbox == st.outbox)
  {
  }

  // ---------------------------------------------------------------------
  // The server object, handler for handler.

  class TetrisServer {
    var clients: map<ClientId, ClientRecord>
    var waiting: Option<ClientId>
    var highScores: seq<ScoreEntry>
    var outbox: seq<(ClientId, ServerMsg)>

    function Snapshot(): State
      reads this
    {
      State(clients, waiting, highScores, outbox)
    }

    /** `TetrisServer()`, with the table `load_high_scores` would read as a parameter. */
    constructor(loaded: seq<ScoreEntry>)
      ensures Snapshot() == State(map[], None, loaded, [])
    {
      clients := map[];
      waiting := None;
      highScores := loaded;
      outbox := [];
    }

    /** `send_message`: queue the message when the recipient is a client. */
    method SendMessage(to: ClientId, m: ServerMsg)
      modifies this`outbox
      ensures Snapshot() == Send(old(Snapshot()), to, m)
    {
      if to in clients {
        outbox := outbox + [(to, m)];
      }
    }

    /** The registration step of `handle_client`. */
    method Connect(cid: ClientId)
      modifies this`clients
      ensures Snapshot() == Register(old(Snapshot()), cid)
    {
      var prefix := if |cid| >= 8 then cid[..8] else cid;
      clients := clients[cid := ClientRecord("Player_" + prefix, None, GameState([], 0), "unknown")];
    }

    /** `add_high_score`: append, sort by descending score (stable), keep the first 20. */
    method AddHighScore(name: string, score: int)
      modifies this`highScores
      ensures highScores == AddScore(old(highScores), name, score)
      ensures Ranked(highScores) && |highScores| <= TableSize
    {
      highScores := highScores + [ScoreEntry(name, score)];
      highScores := SortDesc(highScores);
      if |highScores| > TableSize {
        highScores := highScores[..TableSize];
      }
      AddScoreRanked(old(highScores), name, score);
    }

    /** Links two clients as opponents, clears the waiting slot and sends both `game_start`. */
    method PairWith(cid: ClientId, opponentId: ClientId)
      requires cid in clients && opponentId in clients
      modifies this
      ensures Snapshot() == Pair(old(Snapshot()), cid, opponentId)
    {
      clients := clients[cid := clients[cid].(opponent := Some(opponentId))];
      clients := clients[opponentId := clients[opponentId].(opponent := Some(cid))];
      waiting := None;
      SendMessage(cid, GameStart(clients[opponentId].name));
      SendMessage(opponentId, GameStart(clients[cid].name));
    }

    method HandleJoin(cid: ClientId, name: Option<string>, mode: Option<string>)
      modifies this
      ensures Snapshot() == Join(old(Snapshot()), cid, name, mode)
    {
      if cid !in clients {
        return;
      }
      var gameMode := RecordJoin(cid, name, mode);
      if gameMode == Multiplayer {
        MatchOrWait(cid);
      }
    }

    /** The name and mode updates of `handle_join`, then its `player_id` and `high_scores` replies. */
    method RecordJoin(cid: ClientId, name: Option<string>, mode: Option<string>) returns (gameMode: string)
      requires cid in clients
      modifies this`clients, this`outbox
      ensures gameMode == JoinMode(mode)
      ensures Snapshot() == Greet(old(Snapshot()), cid, name, mode)
    {
      if name.Some? {
        clients := clients[cid := clients[cid].(name := name.value)];
      }
      gameMode := if mode.Some? then mode.value else "single";
      clients := clients[cid := clients[cid].(mode := gameMode)];
      SendMessage(cid, PlayerId(cid));
      SendMessage(cid, HighScores(highScores));
    }

    /** The multiplayer branch of `handle_join`: pair with the waiting player, or wait. */
    method MatchOrWait(cid: ClientId)
      requires cid in clients
      modifies this
      ensures Snapshot() == Match(old(Snapshot()), cid)
    {
      if Present(waiting, clients) {
        PairWith(cid, waiting.value);
      } else {
        waiting := Some(cid);
      }
    }

    method HandleGridUpdate(cid: ClientId, grid: Option<seq<seq<int>>>, score: Option<int>, mode: Option<string>)
      modifies this
      ensures Snapshot() == GridUpdate(old(Snapshot()), cid, grid, score, mode)
    {
      if cid !in clients || grid.None? {
        return;
      }
      var r := clients[cid];
      clients := clients[cid := r.(game := r.game.(grid := grid.value))];
      if score.None? {
        return;
      }
      clients := clients[cid := clients[cid].(game := clients[cid].game.(score := score.value))];
      var gameMode := if mode.Some? then mode.value else clients[cid].mode;
      if gameMode == Multiplayer {
        var opponentId := clients[cid].opponent;
        if Present(opponentId, clients) {
          SendMessage(opponentId.value, OpponentUpdate(grid.value, score.value));
        }
      }
    }

    method HandleClearLines(cid: ClientId, lines: Option<int>)
      modifies this`outbox
      ensures Snapshot() == ClearLines(old(Snapshot()), cid, lines)
    {
      if cid !in clients {
        return;
      }
      var linesCleared := if lines.Some? then lines.value else 0;
      if clients[cid].mode == Multiplayer {
        var opponentId := clients[cid].opponent;
        if Present(opponentId, clients) {
          SendMessage(opponentId.value, AddLines(linesCleared));
        }
      }
    }

    method HandleGameOver(cid: ClientId, score: Option<int>)
      modifies this
      ensures Snapshot() == GameEnd(old(Snapshot()), cid, score)
    {
      if cid !in clients {
        return;
      }
      var sc := if score.Some? then score.value else 0;
      var gameMode := clients[cid].mode;
      AddHighScore(clients[cid].name, sc);
      SendMessage(cid, HighScores(highScores));
      if gameMode == Multiplayer {
        var opponentId := clients[cid].opponent;
        if Present(opponentId, clients) {
          var o := opponentId.value;
          SendMessage(cid, GameOver(o));
          SendMessage(o, GameOver(o));
          SendMessage(o, HighScores(highScores));
          clients := clients[cid := clients[cid].(opponent := None)];
          clients := clients[o := clients[o].(opponent := None)];
        }
      }
    }

    method HandleReadyForNewGame(cid: ClientId)
      modifies this
      ensures Snapshot() == Ready(old(Snapshot()), cid)
    {
      if cid !in clients {
        return;
      }
      if clients[cid].mode == Multiplayer {
        if Present(waiting, clients) && waiting.value != cid {
          PairWith(cid, waiting.value);
        } else {
          waiting := Some(cid);
        }
      }
    }

    method HandleClientDisconnect(cid: ClientId)
      modifies this
      ensures Snapshot() == Disconnect(old(Snapshot()), cid)
    {
      if cid !in clients {
        return;
      }
      var opponentId := clients[cid].opponent;
      if waiting == Some(cid) {
        waiting := None;
      }
      if Present(opponentId, clients) {
        SendMessage(opponentId.value, OpponentDisconnected);
        clients := clients[opponentId.value := clients[opponentId.value].(opponent := None)];
      }
      clients := clients - {cid};
    }
  }
}
