/**
  Clients of SocketHelper that follow the console program's turn order: the
  client speaks first, the host answers. Each proves from the contracts alone
  what the two endpoints see.
 */
module Scenarios {
  import opened Wrappers
  import opened Framing
  import opened Sockets

  const LOOPBACK: IPAddress := IPAddress([127, 0, 0, 1])

  /** An IPAddress.TryParse that knows only the loopback literal. */
  function ParseLoopback(s: string): Option<IPAddress> {
    if s == "127.0.0.1" then Some(LOOPBACK) else None
  }

  /** The host binds to 127.0.0.1 and waits; the client connects; both end up connected. */
  method Connect() returns (host: SocketHelper, client: SocketHelper)
    ensures fresh(host) && fresh(host.buffer) && fresh(client) && fresh(client.buffer)
    ensures host.Valid() && client.Valid() && host.IsHost && !client.IsHost
    ensures host.IsConnected() && client.IsConnected()
    ensures host.listener == Some(Listener(Some(EndPoint(LOOPBACK, PORT)), Some(BACKLOG), false))
  {
    var hostPoint := EndPoint(LOOPBACK, PORT);
    var clientPoint := EndPoint(LOOPBACK, 50000);
    host := new SocketHelper(true);
    var s := host.BindToAddress("127.0.0.1", ParseLoopback, [LOOPBACK], true);
    client := new SocketHelper(false);
    s := client.EstablishConnection("127.0.0.1", ParseLoopback, Some(clientPoint));
    var accepted := [Peer(true, false, Some(clientPoint), Some(hostPoint))];
    assert accepted[0].connected;
    s := host.WaitForConnection(accepted);
    assert s == Done;
  }

  /**
    One turn: the sender sets Message and sends it, the network delivers the frame
    in pieces of `size` bytes, and the receiver's Receive leaves the same text in
    its Message.
   */
  method Transfer(from: SocketHelper, to: SocketHelper, text: string, size: nat) returns (heard: Option<string>)
    requires from.IsConnected() && to.IsConnected() && to.Valid()
    requires IsAscii(text) && !Contains(text, END_FLAG) && !IsNullOrWhiteSpace(Some(text))
    requires 0 < size <= BUFFER
    modifies from`Message, to`Message, to.buffer
    ensures heard == Some(text)
  {
    from.Message := Some(text);
    var wire := from.Send();
    assert wire == Ok(Frame(text));
    var chunks := Segments(wire.value, size);
    assert ChunksFit(chunks);
    assert Deliver(chunks).Delivered? && Deliver(chunks).text == text by {
      assert chunks[..|chunks|] == chunks;
      RoundTrip(text, chunks, |chunks|);
    }
    var s, consumed := to.Receive(chunks);
    heard := to.Message;
  }

  /**
    The client sends "ping" and the host receives it, the host answers "pong" and the
    client receives it. Blank text is refused, and after closing nothing can be sent.
   */
  method PingPong() returns (hostHeard: Option<string>, clientHeard: Option<string>,
                             blank: Result<seq<byte>>, afterClose: Result<seq<byte>>)
    ensures hostHeard == Some("ping") && clientHeard == Some("pong")
    ensures blank == Err(NullReferenceException(EmptyMessage))
    ensures afterClose == Err(InvalidOperationException(NotConnected))
  {
    var host, client := Connect();
    client.Message := Some("   ");
    blank := client.Send();
    assert !IsWhiteSpace("ping"[0]) && !IsWhiteSpace("pong"[0]);
    hostHeard := Transfer(client, host, "ping", BUFFER);
    clientHeard := Transfer(host, client, "pong", 3);
    var s := client.CloseConnection();
    afterClose := client.Send();
  }

  /** A host that never bound cannot wait for a connection; a client can neither bind nor wait; a host cannot connect. */
  method MisusedRoles() returns (unbound: Status, clientBind: Status, clientWait: Status, hostConnect: Status)
    ensures unbound == Threw(NullReferenceException(NoListener))
    ensures clientBind == Threw(InvalidOperationException(HostOnly))
    ensures clientWait == Threw(InvalidOperationException(HostOnly))
    ensures hostConnect == Threw(InvalidOperationException(ClientOnly))
  {
    var host := new SocketHelper(true);
    unbound := host.WaitForConnection([]);
    hostConnect := host.EstablishConnection("127.0.0.1", ParseLoopback, None);
    var client := new SocketHelper(false);
    clientBind := client.BindToAddress("127.0.0.1", ParseLoopback, [LOOPBACK], true);
    clientWait := client.WaitForConnection([]);
  }

  /** Binding to an address that does not parse, or that this machine does not own, leaves no listener. */
  method RejectedAddresses() returns (malformed: Status, foreign: Status, listenerAfter: Option<Listener>)
    ensures malformed == Threw(ArgumentException)
    ensures foreign == Threw(InvalidOperationException(NotLocalAddress))
    ensures listenerAfter.None?
  {
    var host := new SocketHelper(true);
    malformed := host.BindToAddress("localhost", ParseLoopback, [LOOPBACK], true);
    foreign := host.BindToAddress("127.0.0.1", ParseLoopback, [IPAddress([10, 0, 0, 7])], true);
    listenerAfter := host.listener;
  }
}
