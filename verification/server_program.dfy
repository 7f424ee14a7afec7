/**
 The server's session bookkeeping (Sphaira.Server/Program.cs): players are
 created on the first message from an unseen connection under the smallest
 free id, every join and every detected departure is broadcast as a roster,
 a position update is stored and relayed to everyone else, and a world-info
 request is answered to the requester alone.

 The transport's live connection list is a parameter of each operation, and
 each message the server sends is returned as a `Send`.
 */
module ServerProgram {
  import opened Wire
  import opened Roster

  class GameServer {
    /** World parameters fixed at start-up and handed to every joining client. */
    const skySeed: i32
    const radius: Bits32
    const density: Bits32
    /** The players, keyed by their connection. */
    var players: map<Conn, PlayerInfo>

    ghost predicate Valid()
      reads this
    {
      WellFormed(players) && |players| < 0x1_0000
    }

    constructor (skySeed: i32, radius: Bits32, density: Bits32)
      ensures Valid()
      ensures this.skySeed == skySeed && this.radius == radius && this.density == density
      ensures players == map[]
    {
      this.skySeed := skySeed;
      this.radius := radius;
      this.density := density;
      players := map[];
    }

    /** The roster message to `recipients`: the number of players, then each player's id once. */
    method UpdatePlayers(recipients: seq<Conn>) returns (roster: Send)
      requires Valid()
      ensures roster.ident == "PlayerInfo" && roster.to == recipients
      ensures roster.mode == ReliableOrdered && roster.channel == 0
      ensures IsRoster(roster.body, players)
    {
      var body := [U16(|players| as u16)];
      var remaining := players.Keys;
      RosterSoFarStart(players);
      while remaining != {}
        invariant RosterSoFar(body, players, remaining)
        decreases remaining
      {
        // The dictionary's enumeration order is not specified: any remaining player may come next.
        var c :| c in remaining;
        RosterSoFarStep(body, players, remaining, c);
        body := body + [U16(players[c].id)];
        remaining := remaining - {c};
      }
      RosterSoFarDone(body, players);
      roster := Send("PlayerInfo", recipients, body, ReliableOrdered, 0);
    }

    /**
     Adds a player for `connection` under the smallest id no current player
     holds, then sends the new roster to every live connection.
     */
    method AddPlayer(connection: Conn, connections: seq<Conn>) returns (player: PlayerInfo, roster: Send)
      requires Valid() && connection !in players && |players| < 0xffff
      modifies this
      ensures Valid()
      ensures player.connection == connection && player.position == Origin
      ensures player.id as int <= |old(players)|
      ensures !IdInUse(old(players), player.id as int)
      ensures forall k :: 0 <= k < player.id as int ==> IdInUse(old(players), k)
      ensures players == old(players)[connection := player]
      ensures roster.ident == "PlayerInfo" && roster.to == connections && IsRoster(roster.body, players)
    {
      var id := FirstFreeId(players, 0) as u16;
      player := PlayerInfo(id, connection, Origin);
      AddWellFormed(players, player);
      players := players[connection := player];
      roster := UpdatePlayers(connections);
    }

    /**
     The player of `connection`: the existing record, with nothing changed
     and nothing sent, or else a new player added as by AddPlayer.
     */
    method GetPlayer(connection: Conn, connections: seq<Conn>) returns (player: PlayerInfo, sends: seq<Send>)
      requires Valid() && |players| < 0xffff
      modifies this
      ensures Valid()
      ensures connection in players && players[connection] == player
      ensures connection in old(players) ==> player == old(players)[connection] && players == old(players) && sends == []
      ensures connection !in old(players) ==>
        && players == old(players)[connection := player]
        && player.connection == connection && player.position == Origin
        && player.id as int <= |old(players)|
        && !IdInUse(old(players), player.id as int)
        && (forall k :: 0 <= k < player.id as int ==> IdInUse(old(players), k))
        && |sends| == 1 && sends[0].ident == "PlayerInfo" && sends[0].to == connections
        && IsRoster(sends[0].body, players)
    {
      // By Valid, the record whose connection is `connection` is the one under that key.
      if connection in players {
        return players[connection], [];
      }
      var roster;
      player, roster := AddPlayer(connection, connections);
      sends := [roster];
    }

    /**
     The WorldInfo handler: finds or creates the sender's player and replies,
     to the sender alone, with the world parameters, the server's elapsed
     time and the sender's player id.
     */
    method OnWorldInfo(sender: Conn, connections: seq<Conn>, elapsed: Bits64) returns (sends: seq<Send>)
      requires Valid() && |players| < 0xffff
      modifies this
      ensures Valid()
      ensures sender in players
      ensures |sends| == if sender in old(players) then 1 else 2
      ensures sender in old(players) ==> players == old(players)
      ensures sender !in old(players) ==>
        && players == old(players)[sender := players[sender]]
        && players[sender].connection == sender && players[sender].position == Origin
        && players[sender].id as int <= |old(players)|
        && !IdInUse(old(players), players[sender].id as int)
        && (forall k :: 0 <= k < players[sender].id as int ==> IdInUse(old(players), k))
        && sends[0].ident == "PlayerInfo" && sends[0].to == connections && IsRoster(sends[0].body, players)
      ensures sends[|sends| - 1] ==
        Send("WorldInfo", [sender],
             [I32(skySeed), F32(radius), F32(density), F64(elapsed), U16(players[sender].id)],
             ReliableOrdered, 0)
    {
      var player;
      player, sends := GetPlayer(sender, connections);
      var reply := Send("WorldInfo", [sender],
                        [I32(skySeed), F32(radius), F32(density), F64(elapsed), U16(player.id)],
                        ReliableOrdered, 0);
      sends := sends + [reply];
    }

    /** The position setter of a player record: only that player's position changes. */
    method SetPosition(connection: Conn, position: Vec3)
      requires Valid() && connection in players
      modifies this
      ensures Valid()
      ensures players == old(players)[connection := old(players)[connection].(position := position)]
    {
      MoveWellFormed(players, connection, position);
      players := players[connection := players[connection].(position := position)];
    }

    /**
     The PlayerPos handler: finds or creates the sender's player, stores the
     received position on it, and relays the sender's id and position to
     the live connections without the sender.
     */
    method OnPlayerPos(sender: Conn, position: Vec3, connections: seq<Conn>) returns (sends: seq<Send>)
      requires Valid() && |players| < 0xffff
      modifies this
      ensures Valid()
      ensures players.Keys == old(players).Keys + {sender}
      ensures forall c :: c in old(players) && c != sender ==> players[c] == old(players)[c]
      ensures players[sender].position == position
      ensures |sends| == if sender in old(players) then 1 else 2
      ensures sender in old(players) ==> players[sender] == old(players)[sender].(position := position)
      ensures sender !in old(players) ==>
        && players[sender].connection == sender
        && !IdInUse(old(players), players[sender].id as int)
        && (forall k :: 0 <= k < players[sender].id as int ==> IdInUse(old(players), k))
        && sends[0].ident == "PlayerInfo" && sends[0].to == connections && IsRoster(sends[0].body, players)
      ensures sends[|sends| - 1] ==
        Send("PlayerPos", RemoveFirst(connections, sender),
             [U16(players[sender].id), F32(position.x), F32(position.y), F32(position.z)],
             ReliableSequenced, 1)
    {
      var player;
      player, sends := GetPlayer(sender, connections);
      if sends != [] {
        RosterIgnoresPosition(sends[0].body, players, sender, position);
      }
      SetPosition(sender, position);
      player := players[sender];

      var others := RemoveFirst(connections, sender);
      var relay := Send("PlayerPos", others,
                        [U16(player.id), F32(position.x), F32(position.y), F32(position.z)],
                        ReliableSequenced, 1);
      sends := sends + [relay];
    }

    /**
     One tick of the main loop after polling: removes every player whose
     connection is no longer live, and, only when at least one was removed,
     sends the new roster to the live connections.
     */
    method Reconcile(connected: seq<Conn>) returns (sends: seq<Send>)
      requires Valid()
      modifies this
      ensures Valid()
      ensures forall c :: c in players <==> c in old(players) && c in connected
      ensures forall c :: c in players ==> players[c] == old(players)[c]
      ensures sends != [] <==> players.Keys != old(players).Keys
      ensures |sends| <= 1
      ensures sends != [] ==>
        sends[0].ident == "PlayerInfo" && sends[0].to == connected && IsRoster(sends[0].body, players)
    {
      var all := players;
      var disconnected := Disconnected(all, connected);
      var kept := all;
      var pending := disconnected;
      while pending != {}
        invariant pending <= disconnected
        invariant Removing(kept, all, connected, pending)
        decreases pending
      {
        var player :| player in pending;
        RemovingStep(kept, all, connected, pending, player);
        kept := kept - {player.connection};
        pending := pending - {player};
      }
      RemovingDone(kept, all, connected);
      RemovingChanged(kept, all, connected);
      players := kept;

      if disconnected != {} {
        var roster := UpdatePlayers(connected);
        sends := [roster];
      } else {
        sends := [];
      }
    }
  }
}
