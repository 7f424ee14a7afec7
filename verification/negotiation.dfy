/**
 The two registries together: a client that asks for the server's table and
 rebuilds its own from the reply ends up with the server's codes, and from
 then on a message sent by name on one side reaches the handler registered
 under that name on the other.
 */
module Negotiation {
  import opened Wire
  import opened TypeTable
  import ServerNet
  import ClientNet

  /**
   One negotiation: the client sends the bare sentinel, the server answers
   with its table, and the client's receive loop rebuilds its tables from the
   answer. Afterwards the client's codes are the server's, and each slot of
   its handler array holds the client's handler for the server's name there.
   */
  method Negotiate<HS, HC>(server: ServerNet.MessageRegistry<HS>, client: ClientNet.MessageRegistry<HC>, conn: Conn)
    requires server.Valid() && client.Valid()
    requires |server.idents| < 0x1_0000
    modifies client
    ensures client.Valid()
    ensures client.negotiated == server.idents
    ensures client.indices == server.indices
    ensures client.handlersIdent == old(client.handlersIdent)
    ensures client.handlers != null && fresh(client.handlers)
    ensures forall x :: x in server.indices ==>
      client.handlers[client.indices[x]] == ClientNet.Bound(client.handlersIdent, x)
  {
    var request := client.RequestMessageTypes();
    var step := server.Dispatch(request.payload[0].v, conn);
    var reply := step.reply.value;
    assert reply.to == conn;

    ParseEncode(server.idents);
    assert reply.payload[1..] == Encode(server.idents);
    var d := client.CheckData(reply.payload[0].v, reply.payload[1..]);
    assert d == ClientNet.Renegotiate;
    PositionsUnique(client.indices, server.indices, server.idents);

    forall x | x in server.indices
      ensures client.handlers[client.indices[x]] == ClientNet.Bound(client.handlersIdent, x)
    {
      PositionsInverse(server.indices, server.idents, x);
    }
  }

  /**
   A message the client sends by name, after negotiating with this server,
   invokes exactly the handler the server last registered under that name.
   */
  method DeliverToServer<HS, HC>(client: ClientNet.MessageRegistry<HC>, server: ServerNet.MessageRegistry<HS>,
                                 ident: string, body: seq<Field>, mode: Delivery, channel: nat, sender: Conn)
    returns (invoked: Option<HS>)
    requires client.Valid() && server.Valid()
    requires client.negotiated == server.idents
    requires ident in server.idents
    ensures invoked == Some(server.handlersIdent[ident])
  {
    var msg := client.SendMessage(ident, body, mode, channel);
    var step := server.Dispatch(msg.value.payload[0].v, sender);
    invoked := step.invoked;
  }

  /**
   A message the server starts by name reaches the client's handler for that
   name when the client registered one, and is dropped as unhandled
   otherwise.
   */
  method DeliverToClient<HS, HC>(server: ServerNet.MessageRegistry<HS>, client: ClientNet.MessageRegistry<HC>,
                                 ident: string)
    returns (d: ClientNet.Dispatch<HC>)
    requires server.Valid() && client.Valid()
    requires client.negotiated == server.idents && client.handlers != null
    requires ident in server.idents
    ensures d.Invoke? <==> ident in client.handlersIdent
    ensures d.Invoke? ==> d.handler == client.handlersIdent[ident]
    ensures !d.Invoke? ==> d == ClientNet.Unhandled(server.indices[ident])
  {
    var msg := server.CreateMessage(ident);
    d := client.Dispatch(msg.value[0].v);
  }

  /**
   The 65536th name the server registers gets the code of the sentinel: a
   message the server then starts under that name is taken by the client
   as the answer to a table request.
   */
  method RegisterAtSentinel<HS, HC>(server: ServerNet.MessageRegistry<HS>, client: ClientNet.MessageRegistry<HC>,
                                    ident: string, handler: HS)
    returns (d: ClientNet.Dispatch<HC>)
    requires server.Valid() && client.Valid()
    requires |server.idents| == 0xffff && ident !in server.idents
    modifies server
    ensures server.Valid()
    ensures server.idents == old(server.idents) + [ident]
    ensures server.indices[ident] == Sentinel
    ensures d == ClientNet.Renegotiate
  {
    server.RegisterMessageHandler(ident, handler);
    var msg := server.CreateMessage(ident);
    d := client.Dispatch(msg.value[0].v);
  }
}
