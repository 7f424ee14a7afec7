/**
 The client's message registry and dispatcher (Sphaira.Client/Network/NetWrapper.cs):
 handlers are registered by name at any time; the codes come from the
 server's table, which rebuilds the name-to-code map and the code-indexed
 handler array; an incoming code is dispatched only when it is in range and
 a handler is bound to it.
 */
module ClientNet {
  import opened Wire
  import opened TypeTable

  /** What one incoming data message leads to on the client. */
  datatype Dispatch<H> =
    | Renegotiate          // the sentinel: the body is the server's table
    | Invoke(handler: H)   // an application handler is called with the message
    | Unhandled(code: u16) // logged and dropped

  /** A message the client hands to its connection: the payload, the delivery mode and the sequence channel. */
  datatype Outgoing = Outgoing(payload: seq<Field>, mode: Delivery, channel: nat)

  /** The handler registered under `name`, if any (an unbound slot is null in the source). */
  function Bound<H>(handlersIdent: map<string, H>, name: string): Option<H>
  {
    if name in handlersIdent then Some(handlersIdent[name]) else None
  }

  class MessageRegistry<H> {
    /** The handler last registered under each name. */
    var handlersIdent: map<string, H>
    /** The code of each name, as given by the last table received. */
    var indices: map<string, u16>
    /** The handlers, indexed by code; null until a table arrives (and while a new one is awaited). */
    var handlers: array?<Option<H>>
    /** The names of the last table received, in the server's order. */
    ghost var negotiated: seq<string>

    /**
     The codes are the positions of the last table's names, and, when the
     handler array exists, its slot for each code holds whatever is
     registered under that code's name.
     */
    ghost predicate Valid()
      reads this, handlers
    {
      && Distinct(negotiated)
      && |negotiated| < 0x1_0000
      && Positions(indices, negotiated)
      // Follows from the two lines above by PositionsInverse; stated so that callers need not derive it.
      && (forall x :: x in indices ==> (indices[x] as int) < |negotiated| && negotiated[indices[x]] == x)
      && (handlers != null ==>
            && handlers.Length == |negotiated|
            && forall i :: 0 <= i < |negotiated| ==> handlers[i] == Bound(handlersIdent, negotiated[i]))
    }

    constructor ()
      ensures Valid()
      ensures handlersIdent == map[] && indices == map[] && handlers == null && negotiated == []
    {
      handlersIdent := map[];
      indices := map[];
      handlers := null;
      negotiated := [];
    }

    /**
     Binds `handler` to `ident`, and, when `ident` already has a code, puts
     it in that slot of the handler array. A negotiated name while the array
     is null (a table has been requested but not yet received) dereferences
     null after the name has been bound.
     */
    method RegisterMessageHandler(ident: string, handler: H) returns (r: Result<()>)
      requires Valid()
      modifies this, handlers
      ensures Valid()
      ensures handlersIdent == old(handlersIdent)[ident := handler]
      ensures indices == old(indices) && handlers == old(handlers) && negotiated == old(negotiated)
      ensures r.Err? <==> ident in indices && handlers == null
      ensures r.Err? ==> r.error == NullReference
      ensures handlers != null && ident in indices ==>
        handlers[..] == old(handlers[..])[indices[ident] as int := Some(handler)]
      ensures handlers != null && ident !in indices ==> handlers[..] == old(handlers[..])
    {
      handlersIdent := handlersIdent[ident := handler];

      if ident in indices {
        if handlers == null {
          return Err(NullReference);
        }
        PositionsInverse(indices, negotiated, ident);
        handlers[indices[ident]] := Some(handler);
      }
      r := Ok(());
    }

    /**
     Asks the server for its table: the message is the bare sentinel, sent
     reliably and in order on channel 0, and the handler array is dropped
     until the reply.
     */
    method RequestMessageTypes() returns (request: Outgoing)
      requires Valid()
      modifies this
      ensures Valid()
      ensures request == Outgoing([U16(Sentinel)], ReliableOrdered, 0)
      ensures handlers == null
      ensures handlersIdent == old(handlersIdent) && indices == old(indices) && negotiated == old(negotiated)
    {
      request := Outgoing([U16(Sentinel)], ReliableOrdered, 0);
      handlers := null;
    }

    /**
     Rebuilds the tables from the server's list of names: a fresh array with
     one slot per name, the map cleared and refilled with each name's
     position, and each slot bound to the handler registered under its name.
     */
    method ReceiveMessageTypes(names: seq<string>)
      requires Valid()
      requires Distinct(names) && |names| < 0x1_0000
      modifies this
      ensures Valid()
      ensures fresh(handlers) && negotiated == names
      ensures handlersIdent == old(handlersIdent)
      ensures Positions(indices, names)
      ensures handlers != null && handlers.Length == |names|
      ensures forall i :: 0 <= i < |names| ==> handlers[i] == Bound(handlersIdent, names[i])
    {
      var table := new Option<H>[|names|](_ => None);
      var codes: map<string, u16> := map[];

      for i := 0 to table.Length
        modifies table
        invariant Positions(codes, names[..i])
        invariant forall k :: 0 <= k < i ==> table[k] == Bound(handlersIdent, names[k])
        invariant forall k :: i <= k < table.Length ==> table[k] == None
      {
        var ident := names[i];
        assert names[..i + 1] == names[..i] + [ident];
        codes := codes[ident := i as u16];
        if ident in handlersIdent {
          table[i] := Some(handlersIdent[ident]);
        }
      }

      assert names[..|names|] == names;
      forall x | x in codes
        ensures (codes[x] as int) < |names| && names[codes[x]] == x
      {
        PositionsInverse(codes, names, x);
      }
      handlers, indices, negotiated := table, codes, names;
    }

    /**
     Routes a code: the sentinel goes to table rebuilding; any other code
     reaches a handler exactly when the array exists, the code is in range
     and a handler is bound there; everything else is dropped.
     */
    method Dispatch(code: u16) returns (d: Dispatch<H>)
      requires Valid()
      ensures d == Renegotiate <==> code == Sentinel
      ensures d.Invoke? <==>
        code != Sentinel && handlers != null && (code as int) < handlers.Length && handlers[code].Some?
      ensures d.Invoke? <==>
        code != Sentinel && handlers != null && (code as int) < |negotiated| && negotiated[code] in handlersIdent
      ensures d.Invoke? ==> d.handler == handlersIdent[negotiated[code]]
      ensures d.Unhandled? ==> d.code == code
    {
      if code == Sentinel {
        return Renegotiate;
      }
      if handlers != null && (code as int) < handlers.Length {
        var handler := handlers[code];
        if handler.Some? {
          return Invoke(handler.value);
        }
      }
      d := Unhandled(code);
    }

    /**
     The data branch of the receive loop for one message: dispatch its
     code, and rebuild the tables when it carries the server's table.
     */
    method CheckData(code: u16, payload: seq<Field>) returns (d: Dispatch<H>)
      requires Valid()
      requires code == Sentinel ==> Parse(payload).Some? && Distinct(Parse(payload).value)
      modifies this, handlers
      ensures Valid()
      ensures handlersIdent == old(handlersIdent)
      ensures d == Renegotiate <==> code == Sentinel
      ensures code == Sentinel ==> negotiated == Parse(payload).value && fresh(handlers)
      ensures code != Sentinel ==>
        && indices == old(indices) && handlers == old(handlers) && negotiated == old(negotiated)
        && (handlers != null ==> handlers[..] == old(handlers[..]))
      ensures d.Invoke? <==> code != Sentinel && handlers != null
                                && (code as int) < |negotiated| && negotiated[code] in handlersIdent
      ensures d.Invoke? ==> d.handler == handlersIdent[negotiated[code]]
    {
      d := Dispatch(code);
      if d == Renegotiate {
        ReceiveMessageTypes(Parse(payload).value);
      }
    }

    /**
     Sends a message: the code of `ident` from the last table, then the
     body, with the caller's delivery mode and sequence channel (0 when the
     caller names none). A name missing from the table is a failed lookup.
     */
    method SendMessage(ident: string, body: seq<Field>, mode: Delivery, channel: nat) returns (r: Result<Outgoing>)
      requires Valid()
      ensures r.Ok? <==> ident in negotiated
      ensures r.Ok? ==> r.value == Outgoing([U16(indices[ident])] + body, mode, channel)
      ensures r.Ok? ==> (indices[ident] as int) < |negotiated| && negotiated[indices[ident]] == ident
      ensures r.Err? ==> r.error == KeyNotFound(ident)
    {
      if ident !in indices {
        return Err(KeyNotFound(ident));
      }
      PositionsInverse(indices, negotiated, ident);
      r := Ok(Outgoing([U16(indices[ident])] + body, mode, channel));
    }
  }
}
