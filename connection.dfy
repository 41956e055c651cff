/**
 * The client's TCP transport: a connection to one host and port that owns at
 * most one socket. The socket calls of the operating system (name
 * resolution, connecting with a timeout, writing everything, reading to the
 * end) are not modelled; a `Network` value stands for their answers, and a
 * ghost log records which calls the connection made, in order.
 */
module Connection {
  import opened Common
  import Utf8

  // ---------------------------------------------------------------------
  // Decimal rendering of a port, as `u16::to_string` writes it

  function DigitChar(d: int): (c: char)
    requires 0 <= d < 10
    ensures '0' <= c <= '9'
  {
    ('0' as int + d) as char
  }

  /** The decimal digits of `n`, most significant first, with no leading
      zero. */
  function Decimal(n: nat): (r: string)
    ensures |r| >= 1
    ensures forall i :: 0 <= i < |r| ==> '0' <= r[i] <= '9'
    ensures r[0] == '0' ==> n == 0
  {
    if n < 10 then [DigitChar(n)] else Decimal(n / 10) + [DigitChar(n % 10)]
  }

  /** The number a string of decimal digits denotes. */
  function DecimalValue(s: string): int
    requires forall i :: 0 <= i < |s| ==> '0' <= s[i] <= '9'
  {
    if s == [] then 0 else DecimalValue(s[..|s| - 1]) * 10 + (s[|s| - 1] as int - '0' as int)
  }

  /** Reading the digits back gives the number. */
  lemma {:induction false} DecimalValueOf(n: nat)
    ensures DecimalValue(Decimal(n)) == n
  {
    var r := Decimal(n);
    if n < 10 {
      assert r[..0] == [];
    } else {
      DecimalValueOf(n / 10);
      assert r[..|r| - 1] == Decimal(n / 10);
    }
  }

  /** `get_connect_str`: the host, a colon, and the port in decimal. */
  function ConnectString(host: string, port: Port): string
  {
    host + ":" + Decimal(port)
  }

  /** The host is recovered as the part before position `|host|`, and the port
      from the digits after the colon there. */
  lemma ConnectStringParts(host: string, port: Port)
    ensures var s := ConnectString(host, port);
      |s| > |host| + 1 && s[..|host|] == host && s[|host|] == ':'
      && (forall i :: |host| < i < |s| ==> '0' <= s[i] <= '9')
      && DecimalValue(s[|host| + 1..]) == port
  {
    var s := ConnectString(host, port);
    assert s[|host| + 1..] == Decimal(port);
    DecimalValueOf(port);
  }

  /** The connect string of the unit test: host `localhost`, port 8080. */
  lemma ConnectStringLocalhost()
    ensures ConnectString("localhost", 8080) == "localhost:8080"
  {
    assert Decimal(8080) == "8080" by {
      assert Decimal(8) == "8";
      assert Decimal(80) == "80";
      assert Decimal(808) == "808";
    }
  }

  // ---------------------------------------------------------------------
  // The socket calls

  datatype SocketAddr = SocketAddr(ip: seq<byte>, port: Port)

  /** A connected socket. */
  datatype TcpStream = TcpStream(handle: nat, peer: SocketAddr)

  /** The answers of the socket calls: `to_socket_addrs` (the addresses in
      order, or the error's text), `TcpStream::connect_timeout`, whether
      `write_all` succeeded, and `read_to_end` under a read timeout (the text
      read, or the error's text). */
  datatype Network = Network(
    resolve: string -> Result<seq<SocketAddr>, string>,
    open: (SocketAddr, Duration) -> Result<TcpStream, string>,
    writeAll: (TcpStream, seq<byte>) -> bool,
    readToEnd: (TcpStream, Duration) -> Result<string, string>)

  /** One socket call the connection made. */
  datatype Event =
    | Resolved(target: string)
    | Opened(addr: SocketAddr, timeout: Duration)
    | Wrote(stream: TcpStream, data: seq<byte>)
    | ReadAll(stream: TcpStream, timeout: Duration)

  /** The read timeout `read` sets: `Duration::from_secs(5)`. */
  const ReadTimeout: Duration := 5000

  // ---------------------------------------------------------------------
  // The outcome of each operation

  /** The stream `connect` obtains, or its error. */
  function ConnectOutcome(net: Network, host: string, port: Port, timeout: Duration): Result<TcpStream, ClientError>
  {
    match net.resolve(ConnectString(host, port))
    case Err(err) => Err(ClientError(IncorrectSocketAddr, err))
    case Ok(addrs) =>
      if |addrs| == 0 then Err(ClientError(IncorrectSocketAddr, "Could not get socket address"))
      else
        match net.open(addrs[0], timeout)
        case Err(err) => Err(ClientError(ConnectionFailure, err))
        case Ok(stream) => Ok(stream)
  }

  /** The socket calls `connect` makes: resolve, then open the first address
      if there is one. */
  function ConnectEvents(net: Network, host: string, port: Port, timeout: Duration): seq<Event>
  {
    var target := ConnectString(host, port);
    match net.resolve(target)
    case Err(_) => [Resolved(target)]
    case Ok(addrs) => if |addrs| == 0 then [Resolved(target)] else [Resolved(target), Opened(addrs[0], timeout)]
  }

  /** The outcome of `write` on a stream slot. */
  function WriteOutcome(net: Network, slot: Option<TcpStream>, data: seq<byte>): Result<(), ClientError>
  {
    match slot
    case None => Err(ClientError(NoAvailableTcpStream, "Could not retrieve tcp stream"))
    case Some(stream) =>
      if net.writeAll(stream, data) then Ok(()) else Err(ClientError(WriteError, "Could not write data"))
  }

  /** The outcome of `read` on a stream slot. */
  function ReadOutcome(net: Network, slot: Option<TcpStream>): Result<string, ClientError>
  {
    match slot
    case None => Err(ClientError(NoAvailableTcpStream, "Could not retrieve tcp stream"))
    case Some(stream) =>
      match net.readToEnd(stream, ReadTimeout)
      case Ok(text) => Ok(text)
      case Err(_) => Err(ClientError(WriteError, "Could not read data"))
  }

  /** Every way `connect` fails reports an address or connection failure; a
      success is the stream opened on the first resolved address. */
  lemma ConnectOutcomeCases(net: Network, host: string, port: Port, timeout: Duration)
    ensures var r := ConnectOutcome(net, host, port, timeout);
      var resolved := net.resolve(ConnectString(host, port));
      && (r.Err? && r.error.errorType == IncorrectSocketAddr <==> resolved.Err? || |resolved.value| == 0)
      && (r.Err? && r.error.errorType == ConnectionFailure <==>
            resolved.Ok? && |resolved.value| > 0 && net.open(resolved.value[0], timeout).Err?)
      && (r.Ok? <==> resolved.Ok? && |resolved.value| > 0 && net.open(resolved.value[0], timeout).Ok?)
      && (r.Ok? ==> r.value == net.open(resolved.value[0], timeout).value)
      && (r.Ok? ==> ConnectEvents(net, host, port, timeout)
                      == [Resolved(ConnectString(host, port)), Opened(resolved.value[0], timeout)])
  {
  }

  /** Writing and reading without a stream fail alike; with one, a failure
      of either call is reported as `WriteError`. */
  lemma TransferOutcomeCases(net: Network, slot: Option<TcpStream>, data: seq<byte>)
    ensures slot.None? ==> WriteOutcome(net, slot, data).Err? && ReadOutcome(net, slot).Err?
    ensures slot.None? ==> WriteOutcome(net, slot, data).error == ReadOutcome(net, slot).error
                             == ClientError(NoAvailableTcpStream, "Could not retrieve tcp stream")
    ensures WriteOutcome(net, slot, data).Err? && slot.Some? ==> WriteOutcome(net, slot, data).error.errorType == WriteError
    ensures ReadOutcome(net, slot).Err? && slot.Some? ==> ReadOutcome(net, slot).error.errorType == WriteError
    ensures ReadOutcome(net, slot).Ok? ==> slot.Some? && ReadOutcome(net, slot).value == net.readToEnd(slot.value, ReadTimeout).value
  {
  }

  // ---------------------------------------------------------------------
  // The connection

  class TcpConnection {
    const host: string
    const port: Port
    const connectionTimeout: Duration
    var tcpStream: Option<TcpStream>
    /** The socket calls made so far, in order. */
    ghost var log: seq<Event>
    /** Set once `read` has taken the connection by value. */
    ghost var consumed: bool

    /** `new`: a connection that holds no stream yet. */
    constructor(host: string, port: Port, connectionTimeout: Duration)
      ensures this.host == host && this.port == port && this.connectionTimeout == connectionTimeout
      ensures tcpStream == None && IsNotConnected()
      ensures log == [] && !consumed
    {
      this.host := host;
      this.port := port;
      this.connectionTimeout := connectionTimeout;
      tcpStream := None;
      log := [];
      consumed := false;
    }

    /** `is_not_connected`: whether the stream slot is empty. */
    function IsNotConnected(): (r: bool)
      reads this
      ensures r <==> tcpStream == None
    {
      !tcpStream.Some?
    }

    /** `get_connect_str`, appending to an empty string. */
    method GetConnectStr() returns (connectStr: string)
      ensures connectStr == ConnectString(host, port)
    {
      connectStr := "";
      connectStr := connectStr + host;
      connectStr := connectStr + [':'];
      connectStr := connectStr + Decimal(port);
    }

    /** `connect`: resolve the connect string, open the first address with
        the connection timeout, and keep the stream. On any failure the slot
        keeps what it held. */
    method Connect(net: Network) returns (r: Result<(), ClientError>)
      requires !consumed
      modifies this
      ensures !consumed
      ensures var outcome := ConnectOutcome(net, host, port, connectionTimeout);
        && (r.Ok? <==> outcome.Ok?)
        && (r.Err? ==> r.error == outcome.error && tcpStream == old(tcpStream))
        && (r.Ok? ==> tcpStream == Some(outcome.value))
      ensures log == old(log) + ConnectEvents(net, host, port, connectionTimeout)
    {
      var connectStr := GetConnectStr();
      log := log + [Resolved(connectStr)];
      var resolved := net.resolve(connectStr);
      var socketAddr;
      match resolved {
        case Err(err) =>
          return Err(ClientError(IncorrectSocketAddr, err));
        case Ok(addrs) =>
          if |addrs| == 0 {
            return Err(ClientError(IncorrectSocketAddr, "Could not get socket address"));
          }
          socketAddr := addrs[0];
      }
      log := log + [Opened(socketAddr, connectionTimeout)];
      var streamResult := net.open(socketAddr, connectionTimeout);
      match streamResult {
        case Err(err) =>
          return Err(ClientError(ConnectionFailure, err));
        case Ok(stream) =>
          tcpStream := Some(stream);
      }
      r := Ok(());
    }

    /** `write`: send the UTF-8 bytes of the request on the stream. */
    method Write(net: Network, requestStr: string) returns (r: Result<(), ClientError>)
      requires !consumed
      modifies this`log
      ensures r == WriteOutcome(net, tcpStream, Utf8.EncodeString(requestStr))
      ensures log == old(log) + (if tcpStream.Some? then [Wrote(tcpStream.value, Utf8.EncodeString(requestStr))] else [])
    {
      match tcpStream {
        case None =>
          return Err(ClientError(NoAvailableTcpStream, "Could not retrieve tcp stream"));
        case Some(stream) =>
          var bytes := Utf8.EncodeString(requestStr);
          log := log + [Wrote(stream, bytes)];
          var writeResult := net.writeAll(stream, bytes);
          if writeResult {
            r := Ok(());
          } else {
            r := Err(ClientError(WriteError, "Could not write data"));
          }
      }
    }

    /** `read`: take the connection, set the read timeout, read to the end.
        The connection and its stream are gone afterwards. */
    method Read(net: Network) returns (r: Result<string, ClientError>)
      requires !consumed
      modifies this`log, this`consumed, this`tcpStream
      ensures consumed && tcpStream == None
      ensures r == ReadOutcome(net, old(tcpStream))
      ensures log == old(log) + (if old(tcpStream).Some? then [ReadAll(old(tcpStream).value, ReadTimeout)] else [])
    {
      consumed := true;
      var slot := tcpStream;
      tcpStream := None;
      match slot {
        case None =>
          return Err(ClientError(NoAvailableTcpStream, "Could not retrieve tcp stream"));
        case Some(stream) =>
          log := log + [ReadAll(stream, ReadTimeout)];
          var readResult := net.readToEnd(stream, ReadTimeout);
          match readResult {
            case Ok(text) =>
              r := Ok(text);
            case Err(_) =>
              r := Err(ClientError(WriteError, "Could not read data"));
          }
      }
    }
  }
}
