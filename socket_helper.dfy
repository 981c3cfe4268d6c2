/**
  The SocketHelper class: one TCP endpoint acting either as host (bind, listen,
  accept one peer) or as client (connect to a host), with framed Send/Receive
  over the single connection.

  The operating system is not called: what it would answer is passed in.
  - `tryParse` stands for IPAddress.TryParse,
  - `addressList` for the host entry of this machine (Dns.GetHostEntry),
  - `bindSucceeds` for whether Bind succeeds,
  - `handshake` for the outcome of Connect (the local end point on success),
  - `incoming` for the sockets successive Accept calls return,
  - `stream` for the chunks successive Receive calls on the socket return.
  When these inputs run out while the source would still be blocked in a
  system call, the operation reports Blocked.
 */
module Sockets {
  import opened Wrappers
  import opened Framing

  /** The TCP port hosts listen on and clients connect to. */
  const PORT: nat := 11000
  /** The backlog the host listens with. */
  const BACKLOG: nat := 1

  datatype IPAddress = IPAddress(bytes: seq<byte>)

  datatype EndPoint = EndPoint(address: IPAddress, port: nat)

  /** A connection socket (the `sender` field). */
  datatype Peer = Peer(connected: bool, disposed: bool, remote: Option<EndPoint>, local: Option<EndPoint>)
  {
    /** A connected socket is open and knows both of its ends. */
    predicate Valid() {
      connected ==> !disposed && remote.Some? && local.Some?
    }
  }

  /** The host's listening socket: where it is bound and its backlog once it listens. */
  datatype Listener = Listener(bound: Option<EndPoint>, backlog: Option<nat>, disposed: bool)

  /** Why an InvalidOperationException is thrown. */
  datatype Misuse = HostOnly | ClientOnly | AlreadyConnected | NotConnected | NotLocalAddress | NotListening

  /** What was null when a NullReferenceException is thrown. */
  datatype NullCause = NoListener | EmptyMessage | NoEndPoint

  /** The exceptions the operations throw. */
  datatype Exception =
    | InvalidOperationException(misuse: Misuse)
    | ArgumentException
    | NullReferenceException(cause: NullCause)
    | ObjectDisposedException
    | SocketException

  datatype Result<T> = Ok(value: T) | Err(error: Exception)

  /** How a void operation ends: it returns, it throws, or it is still blocked when the inputs run out. */
  datatype Status = Done | Threw(error: Exception) | Blocked

  /** char.IsWhiteSpace: the Unicode space separators, line and paragraph separators, U+0009 to U+000D and U+0085. */
  predicate IsWhiteSpace(c: char): (r: bool)
    ensures IsAsciiChar(c) ==> (r <==> c == ' ' || '\t' <= c <= '\r')
    ensures r ==> c as int <= 0x3000
  {
    || c == ' ' || ('\t' <= c <= '\r') || c == '\U{0085}' || c == '\U{00A0}' || c == '\U{1680}'
    || ('\U{2000}' <= c <= '\U{200A}') || c == '\U{2028}' || c == '\U{2029}' || c == '\U{202F}'
    || c == '\U{205F}' || c == '\U{3000}'
  }

  /** string.IsNullOrWhiteSpace. */
  predicate IsNullOrWhiteSpace(s: Option<string>): (r: bool)
    ensures s.None? ==> r
    ensures s == Some("") ==> r
    ensures s.Some? && (exists i :: 0 <= i < |s.value| && !IsWhiteSpace(s.value[i])) ==> !r
  {
    s.None? || forall i :: 0 <= i < |s.value| ==> IsWhiteSpace(s.value[i])
  }

  /** What Accept throws on this listener, if anything. */
  function AcceptFault(listener: Option<Listener>): (r: Option<Exception>)
    ensures r.None? <==> listener.Some? && !listener.value.disposed && listener.value.backlog.Some?
  {
    match listener
    case None => Some(NullReferenceException(NoListener))
    case Some(l) =>
      if l.disposed then Some(ObjectDisposedException)
      else if l.backlog.None? then Some(InvalidOperationException(NotListening))
      else None
  }

  /** Reading an end point of a socket: disposed sockets throw, a missing end point cannot be formatted. */
  function EndPointOf(p: Peer, e: Option<EndPoint>): (r: Result<Option<EndPoint>>) {
    if p.disposed then Err(ObjectDisposedException)
    else if e.None? then Err(NullReferenceException(NoEndPoint))
    else Ok(e)
  }

  class SocketHelper {
    /** Whether this endpoint is the host; set once, by the constructor. */
    const IsHost: bool
    /** The text to send next, or the text last received. */
    var Message: Option<string>
    var endPoint: Option<EndPoint>
    var sender: Option<Peer>
    var listener: Option<Listener>
    const buffer: array<byte>

    ghost predicate Valid()
      reads this
    {
      && buffer.Length == BUFFER
      && (sender.Some? ==> sender.value.Valid())
      && (!IsHost ==> listener.None?)
    }

    /** Connected exactly when there is a sender socket and it is connected. */
    predicate IsConnected(): (r: bool)
      reads this
      ensures r ==> sender.Some? && sender.value.connected
      ensures r && Valid() ==> !sender.value.disposed && sender.value.remote.Some? && sender.value.local.Some?
    {
      sender.Some? && sender.value.connected
    }

    /** The remote end of the connection; None stands for the empty string of the source. */
    function RemoteEndpoint(): (r: Result<Option<EndPoint>>)
      requires Valid()
      reads this
      ensures sender.None? ==> r == Ok(None)
      ensures IsConnected() ==> r.Ok? && r.value.Some? && r.value == sender.value.remote
      ensures sender.Some? && sender.value.disposed ==> r == Err(ObjectDisposedException)
      ensures sender.Some? && !sender.value.disposed && sender.value.remote.None? ==>
        r == Err(NullReferenceException(NoEndPoint))
    {
      match sender
      case None => Ok(None)
      case Some(p) => EndPointOf(p, p.remote)
    }

    /** The local end of the connection; None stands for the empty string of the source. */
    function LocalEndpoint(): (r: Result<Option<EndPoint>>)
      requires Valid()
      reads this
      ensures sender.None? ==> r == Ok(None)
      ensures IsConnected() ==> r.Ok? && r.value.Some? && r.value == sender.value.local
      ensures sender.Some? && sender.value.disposed ==> r == Err(ObjectDisposedException)
      ensures sender.Some? && !sender.value.disposed && sender.value.local.None? ==>
        r == Err(NullReferenceException(NoEndPoint))
    {
      match sender
      case None => Ok(None)
      case Some(p) => EndPointOf(p, p.local)
    }

    constructor (isHost: bool)
      ensures Valid() && fresh(buffer)
      ensures IsHost == isHost && Message == Some("") && buffer.Length == BUFFER
      ensures sender.None? && listener.None? && endPoint.None? && !IsConnected()
    {
      IsHost := isHost;
      Message := Some("");
      buffer := new byte[BUFFER];
      endPoint, sender, listener := None, None, None;
    }

    /** Host only: bind to one of this machine's addresses on PORT and listen with a backlog of one. */
    method BindToAddress(ip: string, tryParse: string -> Option<IPAddress>, addressList: seq<IPAddress>, bindSucceeds: bool)
      returns (status: Status)
      requires Valid()
      modifies this
      ensures Valid() && Message == old(Message) && sender == old(sender)
      ensures !IsHost ==>
        status == Threw(InvalidOperationException(HostOnly)) && unchanged(this)
      ensures IsHost && old(IsConnected()) ==>
        status == Threw(InvalidOperationException(AlreadyConnected)) && unchanged(this)
      ensures IsHost && !old(IsConnected()) && tryParse(ip).None? ==>
        status == Threw(ArgumentException) && unchanged(this)
      ensures IsHost && !old(IsConnected()) && tryParse(ip).Some? && tryParse(ip).value !in addressList ==>
        status == Threw(InvalidOperationException(NotLocalAddress)) && unchanged(this)
      ensures IsHost && !old(IsConnected()) && tryParse(ip).Some? && tryParse(ip).value in addressList ==>
        && endPoint == Some(EndPoint(tryParse(ip).value, PORT))
        && (bindSucceeds ==> status == Done && listener == Some(Listener(endPoint, Some(BACKLOG), false)))
        && (!bindSucceeds ==> status == Threw(SocketException) && listener == Some(Listener(None, None, false)))
      ensures listener != old(listener) ==> IsHost && tryParse(ip).Some? && tryParse(ip).value in addressList
    {
      if !IsHost {
        return Threw(InvalidOperationException(HostOnly));
      }
      if IsConnected() {
        return Threw(InvalidOperationException(AlreadyConnected));
      }
      var addr := tryParse(ip);
      if addr.None? {
        return Threw(ArgumentException);
      }
      if addr.value !in addressList {
        return Threw(InvalidOperationException(NotLocalAddress));
      }
      endPoint := Some(EndPoint(addr.value, PORT));
      if !bindSucceeds {
        // the new socket is stored before Bind throws
        listener := Some(Listener(None, None, false));
        return Threw(SocketException);
      }
      listener := Some(Listener(endPoint, Some(BACKLOG), false));
      status := Done;
    }

    /** Host only: accept until the sender socket is connected. */
    method WaitForConnection(incoming: seq<Peer>) returns (status: Status)
      requires Valid()
      requires forall i :: 0 <= i < |incoming| ==> incoming[i].Valid()
      modifies this
      ensures Valid()
      ensures Message == old(Message) && listener == old(listener) && endPoint == old(endPoint)
      ensures !IsHost ==>
        status == Threw(InvalidOperationException(HostOnly)) && sender == old(sender)
      ensures IsHost && old(IsConnected()) ==>
        status == Threw(InvalidOperationException(AlreadyConnected)) && sender == old(sender)
      ensures IsHost && !old(IsConnected()) && AcceptFault(listener).Some? ==>
        status == Threw(AcceptFault(listener).value) && sender == old(sender)
      ensures IsHost && !old(IsConnected()) && AcceptFault(listener).None? ==>
        && (status == Done <==> exists i :: 0 <= i < |incoming| && incoming[i].connected)
        && (status == Done ==> IsConnected() && exists i :: (0 <= i < |incoming| && sender == Some(incoming[i])
              && forall j :: 0 <= j < i ==> !incoming[j].connected))
        && (status == Blocked ==> sender == if incoming == [] then old(sender) else Some(incoming[|incoming| - 1]))
        && (status == Done || status == Blocked)
    {
      if !IsHost {
        return Threw(InvalidOperationException(HostOnly));
      }
      if IsConnected() {
        return Threw(InvalidOperationException(AlreadyConnected));
      }
      var i := 0;
      while !IsConnected()
        invariant Valid() && Message == old(Message) && listener == old(listener) && endPoint == old(endPoint)
        invariant 0 <= i <= |incoming|
        invariant i == 0 ==> sender == old(sender)
        invariant i > 0 ==> sender == Some(incoming[i - 1]) && AcceptFault(listener).None?
        invariant forall j :: 0 <= j < i - 1 ==> !incoming[j].connected
        decreases |incoming| - i
      {
        var fault := AcceptFault(listener);
        if fault.Some? {
          return Threw(fault.value);
        }
        if i == |incoming| {
          // Accept blocks: no further peer arrives
          return Blocked;
        }
        sender := Some(incoming[i]);
        i := i + 1;
      }
      status := Done;
    }

    /** Client only: connect to the host at `ip` on PORT. */
    method EstablishConnection(ip: string, tryParse: string -> Option<IPAddress>, handshake: Option<EndPoint>)
      returns (status: Status)
      requires Valid()
      modifies this
      ensures Valid() && Message == old(Message) && listener == old(listener)
      ensures IsHost ==>
        status == Threw(InvalidOperationException(ClientOnly)) && unchanged(this)
      ensures !IsHost && old(IsConnected()) ==>
        status == Threw(InvalidOperationException(AlreadyConnected)) && unchanged(this)
      ensures !IsHost && !old(IsConnected()) && tryParse(ip).None? ==>
        status == Threw(ArgumentException) && unchanged(this)
      ensures !IsHost && !old(IsConnected()) && tryParse(ip).Some? ==>
        var ep := EndPoint(tryParse(ip).value, PORT);
        && endPoint == Some(ep)
        && (handshake.Some? ==> status == Done && IsConnected() && sender == Some(Peer(true, false, Some(ep), handshake)))
        && (handshake.None? ==> status == Threw(SocketException) && !IsConnected() && sender == Some(Peer(false, false, None, None)))
    {
      if IsHost {
        return Threw(InvalidOperationException(ClientOnly));
      }
      if IsConnected() {
        return Threw(InvalidOperationException(AlreadyConnected));
      }
      var addr := tryParse(ip);
      if addr.None? {
        return Threw(ArgumentException);
      }
      var ep := EndPoint(addr.value, PORT);
      endPoint := Some(ep);
      if handshake.None? {
        // the new socket is stored before Connect throws
        sender := Some(Peer(false, false, None, None));
        return Threw(SocketException);
      }
      sender := Some(Peer(true, false, Some(ep), handshake));
      status := Done;
    }

    /** Write Message and the terminator, ASCII-encoded, to the connection; `written` holds the bytes written. */
    method Send() returns (written: Result<seq<byte>>)
      ensures !IsConnected() ==> written == Err(InvalidOperationException(NotConnected))
      ensures IsConnected() && IsNullOrWhiteSpace(Message) ==> written == Err(NullReferenceException(EmptyMessage))
      ensures IsConnected() && !IsNullOrWhiteSpace(Message) ==> written == Ok(Frame(Message.value))
      ensures written.Ok? ==>
        && |written.value| == |Message.value| + |END_FLAG|
        && Decode(written.value) == Sanitize(Message.value) + END_FLAG
    {
      if !IsConnected() {
        return Err(InvalidOperationException(NotConnected));
      }
      if IsNullOrWhiteSpace(Message) {
        return Err(NullReferenceException(EmptyMessage));
      }
      FrameText(Message.value);
      written := Ok(Encode(Message.value + END_FLAG));
    }

    /** One socket read: the bytes that arrived are copied to the front of the buffer. */
    method ReadInto(chunk: seq<byte>) returns (received: nat)
      requires |chunk| <= buffer.Length
      modifies buffer
      ensures received == |chunk| && buffer[..received] == chunk
      ensures buffer[received..] == old(buffer[received..])
    {
      forall k | 0 <= k < |chunk| {
        buffer[k] := chunk[k];
      }
      received := |chunk|;
    }

    /**
      Read chunks from the connection into the buffer, appending their text to Message,
      until Message ends with the terminator; then cut Message at its first terminator.
      `consumed` is the number of chunks read.
     */
    method Receive(stream: seq<seq<byte>>) returns (status: Status, consumed: nat)
      requires Valid() && ChunksFit(stream)
      modifies this`Message, buffer
      ensures Valid()
      ensures !IsConnected() ==>
        status == Threw(InvalidOperationException(NotConnected)) && consumed == 0 && Message == old(Message)
      ensures IsConnected() ==>
        match Deliver(stream)
        case Delivered(text, k) => status == Done && consumed == k && Message == Some(text)
        case Starved(text) => status == Blocked && consumed == |stream| && Message == Some(text)
    {
      if !IsConnected() {
        return Threw(InvalidOperationException(NotConnected)), 0;
      }
      Message := Some("");
      consumed := 0;
      while consumed < |stream|
        invariant 0 <= consumed <= |stream|
        invariant Message == Some(Accumulated(stream[..consumed]))
        invariant forall k :: 1 <= k <= consumed ==> !StopsAt(stream, k)
      {
        var chunk := stream[consumed];
        var received := ReadInto(chunk);
        Message := Some(Message.value + Decode(buffer[..received]));
        assert Message.value == Accumulated(stream[..consumed + 1]) by {
          AccumulatedStep(stream, consumed);
        }
        consumed := consumed + 1;
        if EndsWith(Message.value, END_FLAG) {
          assert Deliver(stream) == Delivered(CutAtFlag(Message.value), consumed) by {
            assert StopsAt(stream, consumed);
            DeliverAtFirstStop(stream, consumed);
          }
          Message := Some(CutAtFlag(Message.value));
          return Done, consumed;
        }
        assert !StopsAt(stream, consumed);
      }
      assert stream[..consumed] == stream;
      DeliverWithoutStop(stream);
      status := Blocked;
    }

    /** Shut down and close the connection, close the host's listener, and clear Message. */
    method CloseConnection() returns (status: Status)
      requires Valid()
      modifies this
      ensures Valid() && !IsConnected() && endPoint == old(endPoint)
      ensures sender == if old(IsConnected()) then Some(old(sender).value.(connected := false, disposed := true)) else old(sender)
      ensures IsHost && old(listener).None? ==>
        status == Threw(NullReferenceException(NoListener)) && Message == old(Message) && listener == old(listener)
      ensures !(IsHost && old(listener).None?) ==>
        && status == Done && Message == Some("")
        && listener == if IsHost then Some(old(listener).value.(disposed := true)) else old(listener)
    {
      if IsConnected() {
        sender := Some(sender.value.(connected := false, disposed := true));
      }
      if IsHost {
        if listener.None? {
          return Threw(NullReferenceException(NoListener));
        }
        listener := Some(listener.value.(disposed := true));
      }
      Message := Some("");
      status := Done;
    }
  }
}
