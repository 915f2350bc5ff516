/**
  The append-only log of game turns: the queries the turn repository runs
  over it, the numbering discipline the services keep, and the repository
  that appends and updates its records.
 */
module TurnLog {
  import opened Records

  /** The turns of game `g`, in the order they were appended to the log. */
  function ForGame(s: seq<GameTurn>, g: GameId): (r: seq<GameTurn>)
    ensures |r| <= |s|
    ensures forall t :: t in r <==> t in s && t.gameId == g
  {
    if s == [] then []
    else
      var rest := ForGame(s[..|s| - 1], g);
      assert forall t :: t in s <==> t in s[..|s| - 1] || t == s[|s| - 1];
      if s[|s| - 1].gameId == g then rest + [s[|s| - 1]] else rest
  }

  predicate SortedByTurnNumber(s: seq<GameTurn>)
  {
    forall i, j :: 0 <= i < j < |s| ==> s[i].turnNumber <= s[j].turnNumber
  }

  /** Places `t` before the first turn whose number is not smaller. */
  function InsertByTurnNumber(t: GameTurn, s: seq<GameTurn>): (r: seq<GameTurn>)
    ensures multiset(r) == multiset(s) + multiset{t}
    ensures forall u :: u in r ==> u == t || u in s
  {
    if s == [] || t.turnNumber <= s[0].turnNumber then [t] + s
    else
      assert s == [s[0]] + s[1..];
      [s[0]] + InsertByTurnNumber(t, s[1..])
  }

  lemma {:induction false} InsertKeepsSorted(t: GameTurn, s: seq<GameTurn>)
    requires SortedByTurnNumber(s)
    ensures SortedByTurnNumber(InsertByTurnNumber(t, s))
  {
    if s != [] && s[0].turnNumber < t.turnNumber {
      var rest := InsertByTurnNumber(t, s[1..]);
      InsertKeepsSorted(t, s[1..]);
      forall j | 0 <= j < |rest| ensures s[0].turnNumber <= rest[j].turnNumber {
        assert rest[j] in rest;
      }
    }
  }

  /** A stable sort of turns by ascending turn number. */
  function SortByTurnNumber(s: seq<GameTurn>): (r: seq<GameTurn>)
    ensures SortedByTurnNumber(r)
    ensures multiset(r) == multiset(s)
  {
    if s == [] then []
    else
      assert s == [s[0]] + s[1..];
      InsertKeepsSorted(s[0], SortByTurnNumber(s[1..]));
      InsertByTurnNumber(s[0], SortByTurnNumber(s[1..]))
  }

  /**
    `findByGame`: exactly the turns of game `g`, ordered by ascending turn
    number.
   */
  function FindByGame(s: seq<GameTurn>, g: GameId): (r: seq<GameTurn>)
    ensures SortedByTurnNumber(r)
    ensures multiset(r) == multiset(ForGame(s, g))
    ensures |r| == |ForGame(s, g)|
    ensures forall t :: t in r <==> t in s && t.gameId == g
  {
    var r := SortByTurnNumber(ForGame(s, g));
    assert |multiset(r)| == |r|;
    assert forall t :: t in r <==> t in multiset(r);
    r
  }

  /** A turn that `findLastUnfinishedTurn` may return for game `g` and player `p`. */
  predicate IsPending(t: GameTurn, g: GameId, p: PlayerId)
  {
    t.gameId == g && t.playerId == p && !t.isTurnFinished
  }

  /**
    `findLastUnfinishedTurn`, as the position in the log of the unfinished
    turn of `g` and `p` with the greatest turn number (on a tie, the one
    appended last); `None` when there is none.
   */
  function FindLastUnfinishedTurn(s: seq<GameTurn>, g: GameId, p: PlayerId): (r: Option<nat>)
    ensures r.None? <==> forall j :: 0 <= j < |s| ==> !IsPending(s[j], g, p)
    ensures r.Some? ==> r.value < |s| && IsPending(s[r.value], g, p)
    ensures r.Some? ==> forall j :: 0 <= j < |s| && IsPending(s[j], g, p) ==>
                          s[j].turnNumber <= s[r.value].turnNumber
  {
    if s == [] then None
    else
      var n := |s| - 1;
      var rest := FindLastUnfinishedTurn(s[..n], g, p);
      if IsPending(s[n], g, p) && (rest.None? || s[rest.value].turnNumber <= s[n].turnNumber)
      then Some(n)
      else rest
  }

  /** The position of the first turn with id `id`, as `GameTurn.find` looks it up. */
  function IndexOfId(s: seq<GameTurn>, id: TurnId): (r: Option<nat>)
    ensures r.None? <==> forall j :: 0 <= j < |s| ==> s[j].id != id
    ensures r.Some? ==> r.value < |s| && s[r.value].id == id
    ensures r.Some? ==> forall j :: 0 <= j < r.value ==> s[j].id != id
  {
    if s == [] then None
    else if s[0].id == id then Some(0)
    else
      var rest := IndexOfId(s[1..], id);
      if rest.None? then None else Some(rest.value + 1)
  }

  /** The log after `finishTurn` on the turn at position `i`. */
  function MarkFinished(s: seq<GameTurn>, i: nat): (r: seq<GameTurn>)
    requires i < |s|
    ensures |r| == |s| && r[i].isTurnFinished
    ensures r[i] == s[i].(isTurnFinished := true)
    ensures forall j :: 0 <= j < |s| && j != i ==> r[j] == s[j]
  {
    s[i := s[i].(isTurnFinished := true)]
  }

  /** Finishing a turn twice leaves the log as finishing it once. */
  lemma MarkFinishedIdempotent(s: seq<GameTurn>, i: nat)
    requires i < |s|
    ensures MarkFinished(MarkFinished(s, i), i) == MarkFinished(s, i)
  {
  }

  /**
    The numbering the services keep: every turn's number is one more than
    the number of turns of the same game appended before it.
   */
  predicate WellNumbered(s: seq<GameTurn>)
  {
    s == [] ||
    var n := |s| - 1;
    WellNumbered(s[..n]) && s[n].turnNumber == |ForGame(s[..n], s[n].gameId)| + 1
  }

  /** In a well-numbered log the turns of one game are numbered 1, 2, 3, ... in log order. */
  lemma {:induction false} NumberedInLogOrder(s: seq<GameTurn>, g: GameId)
    requires WellNumbered(s)
    ensures forall k :: 0 <= k < |ForGame(s, g)| ==> ForGame(s, g)[k].turnNumber == k + 1
  {
    if s != [] {
      NumberedInLogOrder(s[..|s| - 1], g);
    }
  }

  /** Sorting a log that is already in turn-number order changes nothing. */
  lemma {:induction false} SortKeepsSorted(s: seq<GameTurn>)
    requires SortedByTurnNumber(s)
    ensures SortByTurnNumber(s) == s
  {
    if s != [] {
      assert SortedByTurnNumber(s[1..]);
      SortKeepsSorted(s[1..]);
      assert s == [s[0]] + s[1..];
    }
  }

  /** In a well-numbered log `findByGame` returns the game's turns in the order they were appended. */
  lemma FindByGameInLogOrder(s: seq<GameTurn>, g: GameId)
    requires WellNumbered(s)
    ensures FindByGame(s, g) == ForGame(s, g)
  {
    NumberedInLogOrder(s, g);
    SortKeepsSorted(ForGame(s, g));
  }

  /** Appending a turn numbered one past its game's count keeps the log well numbered. */
  lemma AppendKeepsNumbering(s: seq<GameTurn>, t: GameTurn)
    requires WellNumbered(s)
    requires t.turnNumber == |ForGame(s, t.gameId)| + 1
    ensures WellNumbered(s + [t])
  {
    assert (s + [t])[..|s|] == s;
  }

  /** The count of a game's turns depends only on the game ids along the log. */
  lemma {:induction false} ForGameCountByIds(s: seq<GameTurn>, s': seq<GameTurn>, g: GameId)
    requires |s| == |s'|
    requires forall j :: 0 <= j < |s| ==> s[j].gameId == s'[j].gameId
    ensures |ForGame(s, g)| == |ForGame(s', g)|
  {
    if s != [] {
      var n := |s| - 1;
      ForGameCountByIds(s[..n], s'[..n], g);
    }
  }

  /** A log with the same game ids and turn numbers everywhere is well numbered too. */
  lemma {:induction false} SameShapeKeepsNumbering(s: seq<GameTurn>, s': seq<GameTurn>)
    requires WellNumbered(s) && |s| == |s'|
    requires forall j :: 0 <= j < |s| ==> s[j].gameId == s'[j].gameId && s[j].turnNumber == s'[j].turnNumber
    ensures WellNumbered(s')
  {
    if s != [] {
      var n := |s| - 1;
      SameShapeKeepsNumbering(s[..n], s'[..n]);
      ForGameCountByIds(s[..n], s'[..n], s[n].gameId);
    }
  }

  /** Finishing a turn keeps the log well numbered. */
  lemma FinishKeepsNumbering(s: seq<GameTurn>, i: nat)
    requires WellNumbered(s) && i < |s|
    ensures WellNumbered(MarkFinished(s, i))
  {
    SameShapeKeepsNumbering(s, MarkFinished(s, i));
  }

  class GameTurnRepository {
    /** The game_turns table, in insertion order. */
    var turns: seq<GameTurn>
    /** The next id the table hands out; it stands for a fresh uuid. */
    var nextId: TurnId

    ghost predicate Valid()
      reads this
    {
      && (forall i :: 0 <= i < |turns| ==> turns[i].id < nextId)
      && (forall i, j :: 0 <= i < j < |turns| ==> turns[i].id != turns[j].id)
    }

    constructor ()
      ensures Valid() && turns == []
    {
      turns := [];
      nextId := 0;
    }

    /** `create`: exactly one new record with the given fields and a fresh id. */
    method Create(gameId: GameId, playerId: PlayerId, turnNumber: int, sequenceInput: seq<Color>,
                  isCorrect: bool, isTurnFinished: bool) returns (t: GameTurn)
      requires Valid()
      modifies this
      ensures Valid()
      ensures t == GameTurn(t.id, gameId, playerId, turnNumber, sequenceInput, isCorrect, isTurnFinished)
      ensures forall j :: 0 <= j < |old(turns)| ==> old(turns)[j].id != t.id
      ensures turns == old(turns) + [t]
    {
      t := GameTurn(nextId, gameId, playerId, turnNumber, sequenceInput, isCorrect, isTurnFinished);
      turns := turns + [t];
      nextId := nextId + 1;
    }

    /**
      `finishTurn`: the turn with the given id is marked finished and
      returned; an unknown id gives `None` and changes nothing.
     */
    method FinishTurn(turnId: TurnId) returns (r: Option<GameTurn>)
      requires Valid()
      modifies this
      ensures Valid() && nextId == old(nextId)
      ensures r.None? <==> forall j :: 0 <= j < |old(turns)| ==> old(turns)[j].id != turnId
      ensures var k := IndexOfId(old(turns), turnId);
              && (k.None? ==> r.None? && turns == old(turns))
              && (k.Some? ==> turns == MarkFinished(old(turns), k.value) && r == Some(turns[k.value]))
    {
      var k := IndexOfId(turns, turnId);
      if k.None? {
        return None;
      }
      turns := MarkFinished(turns, k.value);
      r := Some(turns[k.value]);
    }
  }
}
