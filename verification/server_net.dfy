/**
 The server's message registry and dispatcher (Sphaira.Server/Network/NetWrapper.cs):
 names registered with a handler get dense codes in registration order, the
 table of names is sent to any peer that asks with the sentinel code, and any
 other code is routed to the handler at that position.
 */
module ServerNet {
  import opened Wire
  import opened TypeTable

  /** A reply addressed to a single connection. */
  datatype Reply = Reply(to: Conn, payload: seq<Field>, mode: Delivery)

  /**
   What one incoming data message does: the reply it sends, the handler it
   invokes, and whether the "Unhandled message type" line is logged.
   */
  datatype Step<H> = Step(reply: Option<Reply>, invoked: Option<H>, loggedUnhandled: bool)

  /** The first position of `x` in `s` (List.IndexOf). */
  function IndexOf<T(==)>(s: seq<T>, x: T): (k: nat)
    requires x in s
    ensures k < |s| && s[k] == x && x !in s[..k]
  {
    if s[0] == x then 0
    else
      assert s == [s[0]] + s[1..];
      1 + IndexOf(s[1..], x)
  }

  /**
   The registry's invariant over its four tables: the names are distinct,
   each name's code is its position (cast to 16 bits), and the handler at
   each position is the one last registered under the name at that position.
   */
  ghost predicate Tables<H>(handlersIdent: map<string, H>, indices: map<string, u16>, idents: seq<string>, handlers: seq<H>)
  {
    && |handlers| == |idents|
    && Distinct(idents)
    && Positions(indices, idents)
    && handlersIdent.Keys == (set x | x in idents)
    && forall i :: 0 <= i < |idents| ==> handlers[i] == handlersIdent[idents[i]]
  }

  /** Registering a new name appends it, with the next code. */
  lemma RegisterNewKeepsTables<H>(handlersIdent: map<string, H>, indices: map<string, u16>, idents: seq<string>,
                                  handlers: seq<H>, ident: string, handler: H)
    requires Tables(handlersIdent, indices, idents, handlers) && ident !in idents
    ensures Tables(handlersIdent[ident := handler], indices[ident := (|idents| % 0x1_0000) as u16],
                   idents + [ident], handlers + [handler])
    ensures IndexOf(idents + [ident], ident) == |idents|
  {
    var names := idents + [ident];
    assert Distinct(names);
    PositionsSnoc(indices, idents, ident);
    assert names[|idents|] == ident;
  }

  /** Registering a known name changes only its handler slot. */
  lemma RegisterKnownKeepsTables<H>(handlersIdent: map<string, H>, indices: map<string, u16>, idents: seq<string>,
                                    handlers: seq<H>, ident: string, handler: H)
    requires Tables(handlersIdent, indices, idents, handlers) && ident in idents
    ensures Tables(handlersIdent[ident := handler], indices, idents, handlers[IndexOf(idents, ident) := handler])
    ensures indices[ident] as int == IndexOf(idents, ident) % 0x1_0000
  {
  }

  class MessageRegistry<H> {
    /** The handler last registered under each name. */
    var handlersIdent: map<string, H>
    /** The code of each name. */
    var indices: map<string, u16>
    /** The names, in registration order. */
    var idents: seq<string>
    /** The handlers, indexed by code. */
    var handlers: seq<H>

    /**
     The names are distinct, each name's code is its position (cast to 16
     bits), and the handler at each position is the one last registered
     under the name at that position.
     */
    ghost predicate Valid()
      reads this
    {
      Tables(handlersIdent, indices, idents, handlers)
    }

    constructor ()
      ensures Valid()
      ensures handlersIdent == map[] && indices == map[] && idents == [] && handlers == []
    {
      handlersIdent := map[];
      indices := map[];
      idents := [];
      handlers := [];
    }

    /**
     Binds `handler` to `ident`. A new name is appended and gets the next
     code; a known name keeps its code and only its handler slot changes.
     */
    method RegisterMessageHandler(ident: string, handler: H)
      requires Valid()
      modifies this
      ensures Valid()
      ensures handlersIdent == old(handlersIdent)[ident := handler]
      ensures ident !in old(idents) ==>
        && idents == old(idents) + [ident]
        && handlers == old(handlers) + [handler]
        && indices == old(indices)[ident := (|old(idents)| % 0x1_0000) as u16]
      ensures ident in old(idents) ==>
        && idents == old(idents)
        && indices == old(indices)
        && handlers == old(handlers)[IndexOf(old(idents), ident) := handler]
      ensures indices[ident] as int == IndexOf(idents, ident) % 0x1_0000
    {
      // Dictionary.Add for a new name, the indexer for a known one: both bind the name.
      if ident !in idents {
        RegisterNewKeepsTables(handlersIdent, indices, idents, handlers, ident, handler);
        handlersIdent, indices, idents, handlers :=
          handlersIdent[ident := handler], indices[ident := (|idents| % 0x1_0000) as u16],
          idents + [ident], handlers + [handler];
      } else {
        var k := IndexOf(idents, ident);
        RegisterKnownKeepsTables(handlersIdent, indices, idents, handlers, ident, handler);
        handlersIdent, handlers := handlersIdent[ident := handler], handlers[k := handler];
      }
    }

    /** Starts an outgoing message with the code of `ident`; an unregistered name is a failed lookup. */
    method CreateMessage(ident: string) returns (r: Result<seq<Field>>)
      requires Valid()
      ensures r.Ok? <==> ident in idents
      ensures r.Ok? ==> r.value == [U16(indices[ident])]
      ensures r.Ok? && |idents| <= 0x1_0000 ==>
        (indices[ident] as int) < |idents| && idents[indices[ident]] == ident
      ensures r.Err? ==> r.error == KeyNotFound(ident)
    {
      if ident !in indices {
        return Err(KeyNotFound(ident));
      }
      r := Ok([U16(indices[ident])]);
      if |idents| <= 0x1_0000 {
        PositionsInverse(indices, idents, ident);
      }
    }

    /** Writes the table: the count, then every name in registration order. */
    method SendMessageTypes() returns (table: seq<Field>)
      requires Valid()
      ensures table == Encode(idents)
      ensures |idents| < 0x1_0000 ==> Parse(table) == Some(idents)
    {
      table := [U16((|idents| % 0x1_0000) as u16)];
      for i := 0 to |idents|
        invariant table == [U16((|idents| % 0x1_0000) as u16)] + Strs(idents[..i])
      {
        assert Strs(idents[..i + 1]) == Strs(idents[..i]) + [Str(idents[i])];
        table := table + [Str(idents[i])];
      }
      assert idents[..|idents|] == idents;
      if |idents| < 0x1_0000 {
        ParseEncode(idents);
      }
    }

    /**
     One data message with leading code `code` from `sender`: the sentinel
     is answered with the table, to the sender only; a code below the number
     of handlers invokes the handler at that position. Every code other than
     the sentinel then logs "Unhandled message type", since the source does
     not stop after invoking a handler.
     */
    method Dispatch(code: u16, sender: Conn) returns (step: Step<H>)
      requires Valid()
      ensures step.reply.Some? <==> code == Sentinel
      ensures code == Sentinel ==>
        step.reply.value == Reply(sender, [U16(Sentinel)] + Encode(idents), ReliableUnordered)
      ensures step.invoked.Some? <==> code != Sentinel && (code as int) < |idents|
      ensures step.invoked.Some? ==> step.invoked.value == handlersIdent[idents[code]]
      ensures step.loggedUnhandled <==> code != Sentinel
    {
      if code == Sentinel {
        var table := SendMessageTypes();
        step := Step(Some(Reply(sender, [U16(code)] + table, ReliableUnordered)), None, false);
        return;
      }

      var invoked := None;
      if (code as int) < |handlers| {
        invoked := Some(handlers[code]);
      }
      step := Step(None, invoked, true);
    }
  }
}
