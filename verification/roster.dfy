/**
 The server's player roster as values (Sphaira.Server/Program.cs): the
 player record, the choice of a new player's id (the smallest id no current
 player holds), the shape of a roster message, and the list queries the
 session code relies on.
 */
module Roster {
  import opened Wire

  /** One connected player: its id, its connection and its last reported position. */
  datatype PlayerInfo = PlayerInfo(id: u16, connection: Conn, position: Vec3)

  /** The players keyed by connection: each key is its record's connection, and no two players share an id. */
  ghost predicate WellFormed(players: map<Conn, PlayerInfo>)
  {
    && (forall c :: c in players ==> players[c].connection == c)
    && (forall c, d :: c in players && d in players && c != d ==> players[c].id != players[d].id)
  }

  /** Some current player holds id `x`. */
  predicate IdInUse(players: map<Conn, PlayerInfo>, x: int)
  {
    exists c :: c in players && players[c].id as int == x
  }

  /** The ids in use. */
  ghost function IdSet(players: map<Conn, PlayerInfo>): set<int>
  {
    set c | c in players :: players[c].id as int
  }

  /** There are no more ids in use than players. */
  lemma {:induction false} IdSetSize(players: map<Conn, PlayerInfo>)
    ensures |IdSet(players)| <= |players|
  {
    if players != map[] {
      var c :| c in players;
      var rest := players - {c};
      IdSetSize(rest);
      assert IdSet(players) <= IdSet(rest) + {players[c].id as int} by {
        forall x | x in IdSet(players) ensures x in IdSet(rest) + {players[c].id as int} {
          var d :| d in players && players[d].id as int == x;
          if d != c { assert d in rest; }
        }
      }
      SubsetSize(IdSet(players), IdSet(rest) + {players[c].id as int});
      assert |rest| == |players| - 1;
    }
  }

  /** The ids 0 .. n-1. */
  ghost function Below(n: nat): set<int>
  {
    if n == 0 then {} else Below(n - 1) + {n - 1}
  }

  lemma {:induction false} BelowSize(n: nat)
    ensures |Below(n)| == n
    ensures forall k :: k in Below(n) <==> 0 <= k < n
  {
    if n > 0 {
      BelowSize(n - 1);
    }
  }

  lemma SubsetSize(a: set<int>, b: set<int>)
    requires a <= b
    ensures |a| <= |b|
  {
    assert b == a + (b - a);
  }

  /** If every id from 0 to x is in use, there are more than x players: the search over 0 .. |players| cannot run out. */
  lemma AllUsedBelow(players: map<Conn, PlayerInfo>, x: nat)
    requires forall k :: 0 <= k <= x ==> IdInUse(players, k)
    ensures x < |players|
  {
    BelowSize(x + 1);
    forall k | k in Below(x + 1)
      ensures k in IdSet(players)
    {
      assert IdInUse(players, k);
      var c :| c in players && players[c].id as int == k;
    }
    SubsetSize(Below(x + 1), IdSet(players));
    IdSetSize(players);
  }

  /**
   The first id, counting up from `from`, that no player holds, when all
   below `from` are held: the smallest free id, and never beyond the number
   of players.
   */
  function FirstFreeId(players: map<Conn, PlayerInfo>, from: nat): (id: nat)
    requires from <= |players|
    requires forall k :: 0 <= k < from ==> IdInUse(players, k)
    ensures from <= id <= |players|
    ensures !IdInUse(players, id)
    ensures forall k :: 0 <= k < id ==> IdInUse(players, k)
    decreases |players| - from
  {
    if !IdInUse(players, from) then from
    else
      AllUsedBelow(players, from);
      FirstFreeId(players, from + 1)
  }

  /** The id fields of the players under `conns`. */
  ghost function IdFields(players: map<Conn, PlayerInfo>, conns: set<Conn>): set<Field>
    requires conns <= players.Keys
  {
    set c | c in conns :: U16(players[c].id)
  }

  /** The fields of a body after its leading count. */
  ghost function Entries(body: seq<Field>): set<Field>
    requires |body| >= 1
  {
    set f | f in body[1..]
  }

  /**
   A roster message body for `players`: the count, then each player's id
   exactly once (in the dictionary's enumeration order, which carries no
   meaning).
   */
  ghost predicate IsRoster(body: seq<Field>, players: map<Conn, PlayerInfo>)
  {
    && |players| < 0x1_0000
    && |body| == |players| + 1
    && body[0] == U16(|players| as u16)
    && (forall i, j :: 1 <= i < j < |body| ==> body[i] != body[j])
    && Entries(body) == IdFields(players, players.Keys)
  }

  /**
   The first part of a roster being written: the count, then the ids of the
   players not under `remaining`, each once.
   */
  ghost predicate RosterSoFar(body: seq<Field>, players: map<Conn, PlayerInfo>, remaining: set<Conn>)
  {
    && |players| < 0x1_0000
    && remaining <= players.Keys
    && |body| == 1 + |players.Keys - remaining|
    && body[0] == U16(|players| as u16)
    && (forall i, j :: 1 <= i < j < |body| ==> body[i] != body[j])
    && Entries(body) == IdFields(players, players.Keys - remaining)
  }

  /** Nothing but the count written yet. */
  lemma RosterSoFarStart(players: map<Conn, PlayerInfo>)
    requires |players| < 0x1_0000
    ensures RosterSoFar([U16(|players| as u16)], players, players.Keys)
  {
    assert players.Keys - players.Keys == {};
    assert Entries([U16(|players| as u16)]) == {};
  }

  lemma EntriesAppend(body: seq<Field>, f: Field)
    requires |body| >= 1
    ensures Entries(body + [f]) == Entries(body) + {f}
  {
    assert (body + [f])[1..] == body[1..] + [f];
  }

  /** A player's id is not among those of the other players. */
  lemma IdFieldsFresh(players: map<Conn, PlayerInfo>, written: set<Conn>, c: Conn)
    requires WellFormed(players) && written <= players.Keys && c in players && c !in written
    ensures IdFields(players, written + {c}) == IdFields(players, written) + {U16(players[c].id)}
    ensures U16(players[c].id) !in IdFields(players, written)
  {
    forall d | d in written
      ensures U16(players[d].id) != U16(players[c].id)
    {
      assert d != c;
    }
  }

  /** Writing one more player's id keeps the roster's ids distinct. */
  lemma RosterSoFarStep(body: seq<Field>, players: map<Conn, PlayerInfo>, remaining: set<Conn>, c: Conn)
    requires WellFormed(players) && RosterSoFar(body, players, remaining) && c in remaining
    ensures RosterSoFar(body + [U16(players[c].id)], players, remaining - {c})
  {
    var written := players.Keys - remaining;
    assert players.Keys - (remaining - {c}) == written + {c};
    var id := U16(players[c].id);
    EntriesAppend(body, id);
    IdFieldsFresh(players, written, c);
    var next := body + [id];
    forall i, j | 1 <= i < j < |next|
      ensures next[i] != next[j]
    {
      if j == |body| {
        assert next[i] in Entries(body);
      }
    }
  }

  /** A finished roster is a roster. */
  lemma RosterSoFarDone(body: seq<Field>, players: map<Conn, PlayerInfo>)
    requires RosterSoFar(body, players, {})
    ensures IsRoster(body, players)
  {
    assert players.Keys - {} == players.Keys;
    assert |players.Keys| == |players|;
  }

  /** A new player under a fresh connection and an id nobody holds keeps the map well formed. */
  lemma AddWellFormed(players: map<Conn, PlayerInfo>, player: PlayerInfo)
    requires WellFormed(players) && player.connection !in players && !IdInUse(players, player.id as int)
    ensures WellFormed(players[player.connection := player])
    ensures |players[player.connection := player]| == |players| + 1
  {
    forall c | c in players
      ensures players[c].id != player.id
    {
    }
  }

  /** Storing a new position on a player keeps the map well formed, with the same players. */
  lemma MoveWellFormed(players: map<Conn, PlayerInfo>, c: Conn, position: Vec3)
    requires WellFormed(players) && c in players
    ensures WellFormed(players[c := players[c].(position := position)])
    ensures players[c := players[c].(position := position)].Keys == players.Keys
  {
  }

  /** A roster lists ids only, so storing a new position on a player leaves it a roster of the players. */
  lemma RosterIgnoresPosition(body: seq<Field>, players: map<Conn, PlayerInfo>, c: Conn, position: Vec3)
    requires IsRoster(body, players) && c in players
    ensures IsRoster(body, players[c := players[c].(position := position)])
  {
    var moved := players[c := players[c].(position := position)];
    assert moved.Keys == players.Keys;
    assert IdFields(moved, moved.Keys) == IdFields(players, players.Keys) by {
      assert forall d :: d in moved ==> moved[d].id == players[d].id;
    }
  }

  /**
   Part way through removing the disconnected players: `kept` is `players`
   without the ones removed so far, and a player is removed exactly when its
   connection is not live and it is no longer pending.
   */
  ghost predicate Removing(kept: map<Conn, PlayerInfo>, players: map<Conn, PlayerInfo>, connected: seq<Conn>,
                           pending: set<PlayerInfo>)
  {
    && (forall c :: c in kept <==> c in players && (c in connected || players[c] in pending))
    && (forall c :: c in kept ==> kept[c] == players[c])
  }

  lemma RemovingStep(kept: map<Conn, PlayerInfo>, players: map<Conn, PlayerInfo>, connected: seq<Conn>,
                     pending: set<PlayerInfo>, player: PlayerInfo)
    requires WellFormed(players) && Removing(kept, players, connected, pending)
    requires player in pending && pending <= Disconnected(players, connected)
    ensures Removing(kept - {player.connection}, players, connected, pending - {player})
  {
    assert players[player.connection] == player;
  }

  /** Once nothing is pending, exactly the live players are kept, and the result is still well formed. */
  lemma RemovingDone(kept: map<Conn, PlayerInfo>, players: map<Conn, PlayerInfo>, connected: seq<Conn>)
    requires WellFormed(players) && Removing(kept, players, connected, {})
    ensures WellFormed(kept) && |kept| <= |players|
    ensures forall c :: c in kept <==> c in players && c in connected
  {
    assert kept.Keys <= players.Keys;
    assert players.Keys == kept.Keys + (players.Keys - kept.Keys);
  }

  /** Some player was removed exactly when some player was disconnected. */
  lemma RemovingChanged(kept: map<Conn, PlayerInfo>, players: map<Conn, PlayerInfo>, connected: seq<Conn>)
    requires WellFormed(players) && Removing(kept, players, connected, {})
    ensures Disconnected(players, connected) == {} <==> kept.Keys == players.Keys
  {
    assert kept.Keys <= players.Keys;
    if players.Keys - kept.Keys == {} {
      forall c | c in players
        ensures c in kept
      {
        assert c !in players.Keys - kept.Keys;
      }
      assert kept.Keys == players.Keys;
      forall c | c in players
        ensures players[c].connection in connected
      {
        assert c in kept;
      }
    } else {
      var c :| c in players.Keys - kept.Keys;
      assert players[c] in Disconnected(players, connected);
    }
  }

  /** The players whose connection is missing from the live list (the query of the main loop). */
  function Disconnected(players: map<Conn, PlayerInfo>, connected: seq<Conn>): (gone: set<PlayerInfo>)
    ensures forall c :: c in players && players[c].connection !in connected ==> players[c] in gone
    ensures forall p :: p in gone ==> p in players.Values && p.connection !in connected
  {
    set c | c in players && players[c].connection !in connected :: players[c]
  }

  /** `s` without its first occurrence of `x` (List.Remove). */
  function RemoveFirst(s: seq<Conn>, x: Conn): (r: seq<Conn>)
    ensures x in s ==> |r| == |s| - 1
    ensures x !in s ==> r == s
  {
    if s == [] then []
    else if s[0] == x then s[1..]
    else [s[0]] + RemoveFirst(s[1..], x)
  }

  /** Removing `x` takes away one occurrence of `x` and nothing else. */
  lemma {:induction false} RemoveFirstCount(s: seq<Conn>, x: Conn)
    ensures multiset(RemoveFirst(s, x)) == multiset(s) - multiset{x}
  {
    if s != [] {
      assert s == [s[0]] + s[1..];
      assert multiset(s) == multiset{s[0]} + multiset(s[1..]);
      if s[0] != x {
        RemoveFirstCount(s[1..], x);
        var rest := RemoveFirst(s[1..], x);
        assert multiset([s[0]] + rest) == multiset{s[0]} + multiset(rest);
      }
    }
  }

  /** In a list without repeats, removing `x` leaves exactly the other elements. */
  lemma {:induction false} RemoveFirstDistinct(s: seq<Conn>, x: Conn)
    requires Distinct(s)
    ensures x !in RemoveFirst(s, x)
    ensures forall y :: y != x ==> (y in RemoveFirst(s, x) <==> y in s)
  {
    if s != [] {
      assert s == [s[0]] + s[1..];
      if s[0] != x {
        assert Distinct(s[1..]) by {
          forall i, j | 0 <= i < j < |s| - 1 ensures s[1..][i] != s[1..][j] {
            assert s[i + 1] != s[j + 1];
          }
        }
        RemoveFirstDistinct(s[1..], x);
      }
    }
  }
}
