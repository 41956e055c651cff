/**
 * The HTTP client: the request value, the text it is serialised to, and the
 * send sequence over the TCP transport (connect when not connected, write
 * the request, read the reply).
 *
 * The request's headers are a `HashMap`, whose iteration order is not
 * specified. Every operation that walks them takes the order as a
 * parameter, `order`, any sequence that lists each header name exactly once
 * (`Enumerates`); the properties hold for every such order.
 */
module Http {
  import opened Common
  import opened Connection
  import Utf8

  /** `HttpRequest`; `HttpRequest::new` is its constructor. */
  datatype HttpRequest = HttpRequest(path: string, httpMethod: string, headers: map<string, string>, body: Option<string>)

  /** `order` lists every header name of `headers` once, and nothing else. */
  predicate Enumerates(order: seq<string>, headers: map<string, string>)
  {
    && (forall i, j :: 0 <= i < j < |order| ==> order[i] != order[j])
    && (forall k :: k in headers ==> k in order)
    && (forall i :: 0 <= i < |order| ==> order[i] in headers)
  }

  // ---------------------------------------------------------------------
  // The request text

  /** `METHOD SP path SP "HTTP/1.1" LF`. */
  function RequestLine(httpMethod: string, path: string): string
  {
    httpMethod + " " + path + " HTTP/1.1\n"
  }

  /** One header as the source writes it: name, colon, space, value, and no
      line terminator. */
  function HeaderLine(name: string, value: string): string
  {
    name + ": " + value
  }

  /** The header lines in the order `order` visits the names. */
  function HeaderLines(headers: map<string, string>, order: seq<string>): (lines: seq<string>)
    requires forall k :: k in order ==> k in headers
    ensures |lines| == |order|
    ensures forall i :: 0 <= i < |order| ==> lines[i] == HeaderLine(order[i], headers[order[i]])
  {
    if order == [] then []
    else
      var last := order[|order| - 1];
      HeaderLines(headers, order[..|order| - 1]) + [HeaderLine(last, headers[last])]
  }

  /** The parts joined with no separator. */
  function Concat(parts: seq<string>): string
  {
    if parts == [] then [] else Concat(parts[..|parts| - 1]) + parts[|parts| - 1]
  }

  /** `get_request_string`: the request line, every header line with nothing
      between them, then two line feeds. The body takes no part. */
  function RequestString(request: HttpRequest, order: seq<string>): string
    requires Enumerates(order, request.headers)
  {
    RequestLine(request.httpMethod, request.path) + Concat(HeaderLines(request.headers, order)) + "\n\n"
  }

  /** Appending a header's three pieces to a request prefix appends its
      header line to the header block. */
  lemma AppendHeader(line: string, block: string, name: string, value: string)
    ensures line + block + name + ": " + value == line + (block + HeaderLine(name, value))
  {
  }

  lemma ConcatSnoc(parts: seq<string>, s: string)
    ensures Concat(parts + [s]) == Concat(parts) + s
  {
    assert (parts + [s])[..|parts|] == parts;
  }

  /** The request text is the request line, then the header block, then
      `"\n\n"`. */
  lemma RequestStringShape(request: HttpRequest, order: seq<string>)
    requires Enumerates(order, request.headers)
    ensures var s, line := RequestString(request, order), RequestLine(request.httpMethod, request.path);
      && |s| >= |line| + 2
      && s[..|line|] == request.httpMethod + " " + request.path + " HTTP/1.1\n"
      && s[|line|..|s| - 2] == Concat(HeaderLines(request.headers, order))
      && s[|s| - 2..] == "\n\n"
  {
    var s, line := RequestString(request, order), RequestLine(request.httpMethod, request.path);
    var block := Concat(HeaderLines(request.headers, order));
    assert s == line + block + "\n\n";
    assert s[..|line|] == line;
    assert s[|line|..|s| - 2] == block;
  }

  /** Without headers the request text is the request line and two line
      feeds. */
  lemma RequestStringNoHeaders(request: HttpRequest, order: seq<string>)
    requires Enumerates(order, request.headers) && request.headers == map[]
    ensures RequestString(request, order) == request.httpMethod + " " + request.path + " HTTP/1.1\n\n\n"
  {
    HeaderLinesSize(request.headers, order);
    assert Concat(HeaderLines(request.headers, order)) == [];
  }

  /** The body never reaches the request text. */
  lemma RequestStringIgnoresBody(request: HttpRequest, order: seq<string>, body: Option<string>)
    requires Enumerates(order, request.headers)
    ensures RequestString(request.(body := body), order) == RequestString(request, order)
  {
  }

  // ---------------------------------------------------------------------
  // What does not depend on the order

  /** The name an order-free measure takes first. */
  ghost function Pick(headers: map<string, string>): (k: string)
    requires |headers| > 0
    ensures k in headers
  {
    var k :| k in headers; k
  }

  /** The total length of the header lines, independent of any order. */
  ghost function HeadersSize(headers: map<string, string>): nat
    decreases |headers|
  {
    if |headers| == 0 then 0
    else
      var k := Pick(headers);
      |HeaderLine(k, headers[k])| + HeadersSize(headers - {k})
  }

  /** The header lines as a bag, independent of any order. */
  ghost function HeaderBag(headers: map<string, string>): multiset<string>
    decreases |headers|
  {
    if |headers| == 0 then multiset{}
    else
      var k := Pick(headers);
      multiset{HeaderLine(k, headers[k])} + HeaderBag(headers - {k})
  }

  /** The total length can take any name first. */
  lemma {:induction false} HeadersSizeRemove(headers: map<string, string>, k: string)
    requires k in headers
    ensures HeadersSize(headers) == |HeaderLine(k, headers[k])| + HeadersSize(headers - {k})
    decreases |headers|
  {
    var j := Pick(headers);
    if j != k {
      assert headers - {j} - {k} == headers - {k} - {j};
      HeadersSizeRemove(headers - {j}, k);
      HeadersSizeRemove(headers - {k}, j);
    }
  }

  /** The bag can take any name first. */
  lemma {:induction false} HeaderBagRemove(headers: map<string, string>, k: string)
    requires k in headers
    ensures HeaderBag(headers) == multiset{HeaderLine(k, headers[k])} + HeaderBag(headers - {k})
    decreases |headers|
  {
    var j := Pick(headers);
    if j != k {
      assert headers - {j} - {k} == headers - {k} - {j};
      HeaderBagRemove(headers - {j}, k);
      HeaderBagRemove(headers - {k}, j);
    }
  }

  /** Dropping the last name of an enumeration enumerates the headers
      without it, and leaves the lines of the other names as they were. */
  lemma EnumerationInit(headers: map<string, string>, order: seq<string>)
    requires Enumerates(order, headers) && order != []
    ensures var init, last := order[..|order| - 1], order[|order| - 1];
      && Enumerates(init, headers - {last})
      && HeaderLines(headers, init) == HeaderLines(headers - {last}, init)
      && HeaderLines(headers, order) == HeaderLines(headers - {last}, init) + [HeaderLine(last, headers[last])]
  {
    var init, last := order[..|order| - 1], order[|order| - 1];
    var rest := headers - {last};
    forall k | k in init ensures k in headers && k != last {
      var i :| 0 <= i < |init| && init[i] == k;
      assert order[i] == k;
    }
    forall k | k in rest ensures k in init {
      var i :| 0 <= i < |order| && order[i] == k;
      assert i != |order| - 1;
    }
    assert forall i :: 0 <= i < |init| ==> init[i] in init;
  }

  lemma {:induction false} HeaderLinesSize(headers: map<string, string>, order: seq<string>)
    requires Enumerates(order, headers)
    ensures |Concat(HeaderLines(headers, order))| == HeadersSize(headers)
    decreases |order|
  {
    if order == [] {
      assert |headers| > 0 ==> Pick(headers) in order;
    } else {
      var init, last := order[..|order| - 1], order[|order| - 1];
      EnumerationInit(headers, order);
      HeaderLinesSize(headers - {last}, init);
      HeadersSizeRemove(headers, last);
      ConcatSnoc(HeaderLines(headers - {last}, init), HeaderLine(last, headers[last]));
    }
  }

  /** Walking the headers in any order meets every header line once. */
  lemma {:induction false} HeaderLinesBag(headers: map<string, string>, order: seq<string>)
    requires Enumerates(order, headers)
    ensures multiset(HeaderLines(headers, order)) == HeaderBag(headers)
    decreases |order|
  {
    if order == [] {
      assert |headers| > 0 ==> Pick(headers) in order;
    } else {
      var init, last := order[..|order| - 1], order[|order| - 1];
      EnumerationInit(headers, order);
      HeaderLinesBag(headers - {last}, init);
      HeaderBagRemove(headers, last);
    }
  }

  /** The length of the request text: the request line is 11 characters
      longer than method and path, the tail adds 2, and each header adds its
      name, `": "` and its value; in whatever order the headers come. */
  lemma RequestStringLength(request: HttpRequest, order: seq<string>)
    requires Enumerates(order, request.headers)
    ensures |RequestString(request, order)| == |request.httpMethod| + |request.path| + 13 + HeadersSize(request.headers)
  {
    HeaderLinesSize(request.headers, order);
  }

  /** Two orders give the same header lines, each as often, and request
      texts of the same length. */
  lemma HeaderOrderIrrelevant(request: HttpRequest, order1: seq<string>, order2: seq<string>)
    requires Enumerates(order1, request.headers) && Enumerates(order2, request.headers)
    ensures multiset(HeaderLines(request.headers, order1)) == multiset(HeaderLines(request.headers, order2))
    ensures |RequestString(request, order1)| == |RequestString(request, order2)|
  {
    HeaderLinesBag(request.headers, order1);
    HeaderLinesBag(request.headers, order2);
    RequestStringLength(request, order1);
    RequestStringLength(request, order2);
  }

  // ---------------------------------------------------------------------
  // The send sequence

  /** The stream `send` writes on: the one held, or else the one `connect`
      obtains. */
  function SendStream(net: Network, slot: Option<TcpStream>, host: string, port: Port, timeout: Duration): Result<TcpStream, ClientError>
  {
    if slot.None? then ConnectOutcome(net, host, port, timeout) else Ok(slot.value)
  }

  /** The result of `send`: the first error of connect, write and read, or
      `Ok(())` whatever was read. */
  function SendOutcome(net: Network, slot: Option<TcpStream>, host: string, port: Port, timeout: Duration, data: seq<byte>): Result<(), ClientError>
  {
    match SendStream(net, slot, host, port, timeout)
    case Err(e) => Err(e)
    case Ok(stream) =>
      match WriteOutcome(net, Some(stream), data)
      case Err(e) => Err(e)
      case Ok(_) =>
        match ReadOutcome(net, Some(stream))
        case Err(e) => Err(e)
        case Ok(_) => Ok(())
  }

  /** The socket calls `send` makes, in order. */
  function SendEvents(net: Network, slot: Option<TcpStream>, host: string, port: Port, timeout: Duration, data: seq<byte>): seq<Event>
  {
    (if slot.None? then ConnectEvents(net, host, port, timeout) else [])
    + match SendStream(net, slot, host, port, timeout)
      case Err(_) => []
      case Ok(stream) =>
        [Wrote(stream, data)] + if net.writeAll(stream, data) then [ReadAll(stream, ReadTimeout)] else []
  }

  /** `send` resolves and connects only when it holds no stream, and then
      first of all. */
  lemma SendConnectsOnlyWhenNotConnected(net: Network, slot: Option<TcpStream>, host: string, port: Port, timeout: Duration, data: seq<byte>)
    ensures var events := SendEvents(net, slot, host, port, timeout, data);
      && (slot.Some? ==> forall i :: 0 <= i < |events| ==> !events[i].Resolved? && !events[i].Opened?)
      && (slot.None? ==> |events| >= 1 && events[0] == Resolved(ConnectString(host, port)))
  {
  }

  /** On success `send` wrote the request and then read, on the stream it
      held or else connected. */
  lemma SendWritesThenReads(net: Network, slot: Option<TcpStream>, host: string, port: Port, timeout: Duration, data: seq<byte>)
    ensures var events := SendEvents(net, slot, host, port, timeout, data);
      SendOutcome(net, slot, host, port, timeout, data).Ok? ==>
        var stream := SendStream(net, slot, host, port, timeout).value;
        && (slot.Some? ==> stream == slot.value)
        && |events| >= 2 && events[|events| - 2..] == [Wrote(stream, data), ReadAll(stream, ReadTimeout)]
  {
    var events := SendEvents(net, slot, host, port, timeout, data);
    if SendOutcome(net, slot, host, port, timeout, data).Ok? {
      var stream := SendStream(net, slot, host, port, timeout).value;
      var connecting := if slot.None? then ConnectEvents(net, host, port, timeout) else [];
      assert net.writeAll(stream, data);
      assert events == connecting + [Wrote(stream, data), ReadAll(stream, ReadTimeout)];
    }
  }

  /** The errors of `send` are those of connect, write and read, unchanged,
      the first one to happen winning. */
  lemma SendFirstError(net: Network, slot: Option<TcpStream>, host: string, port: Port, timeout: Duration, data: seq<byte>)
    ensures var r, s := SendOutcome(net, slot, host, port, timeout, data), SendStream(net, slot, host, port, timeout);
      && (slot.None? && ConnectOutcome(net, host, port, timeout).Err? ==> r == Err(ConnectOutcome(net, host, port, timeout).error))
      && (s.Ok? && WriteOutcome(net, Some(s.value), data).Err? ==> r == Err(WriteOutcome(net, Some(s.value), data).error))
      && (s.Ok? && WriteOutcome(net, Some(s.value), data).Ok? ==>
            (r.Ok? <==> ReadOutcome(net, Some(s.value)).Ok?)
            && (r.Err? ==> r.error == ReadOutcome(net, Some(s.value)).error))
  {
  }

  /** What the server replies makes no difference to the result: two read
      answers that succeed and fail alike give the same result. */
  lemma SendIgnoresReply(net: Network, readToEnd: (TcpStream, Duration) -> Result<string, string>,
                         slot: Option<TcpStream>, host: string, port: Port, timeout: Duration, data: seq<byte>)
    requires forall stream: TcpStream :: net.readToEnd(stream, ReadTimeout).Ok? == readToEnd(stream, ReadTimeout).Ok?
    ensures SendOutcome(net, slot, host, port, timeout, data)
         == SendOutcome(net.(readToEnd := readToEnd), slot, host, port, timeout, data)
  {
  }

  // ---------------------------------------------------------------------
  // The client

  class HttpClient {
    const tcpConnection: TcpConnection

    /** `new`: a client over a fresh, unconnected transport. */
    constructor(host: string, port: Port, connectionTimeout: Duration)
      ensures fresh(tcpConnection)
      ensures tcpConnection.host == host && tcpConnection.port == port
      ensures tcpConnection.connectionTimeout == connectionTimeout
      ensures tcpConnection.tcpStream == None && tcpConnection.log == [] && !tcpConnection.consumed
    {
      tcpConnection := new TcpConnection(host, port, connectionTimeout);
    }

    /** `get_request_string`, appending piece by piece. */
    method GetRequestString(request: HttpRequest, order: seq<string>) returns (requestString: string)
      requires Enumerates(order, request.headers)
      ensures requestString == RequestString(request, order)
    {
      var line := RequestLine(request.httpMethod, request.path);
      requestString := request.httpMethod;
      requestString := requestString + " ";
      requestString := requestString + request.path;
      requestString := requestString + " HTTP/1.1\n";
      assert requestString == line;
      var i := 0;
      while i < |order|
        invariant 0 <= i <= |order|
        invariant requestString == line + Concat(HeaderLines(request.headers, order[..i]))
      {
        var name := order[i];
        assert name in order;
        var value := request.headers[name];
        ghost var before := HeaderLines(request.headers, order[..i]);
        assert order[..i + 1][..i] == order[..i];
        assert HeaderLines(request.headers, order[..i + 1]) == before + [HeaderLine(name, value)];
        ConcatSnoc(before, HeaderLine(name, value));
        requestString := requestString + name;
        requestString := requestString + ": ";
        requestString := requestString + value;
        AppendHeader(line, Concat(before), name, value);
        i := i + 1;
      }
      assert order[..|order|] == order;
      requestString := requestString + "\n\n";
    }

    /** `send`: connect if not connected, write the request text, read the
        reply; the first error is returned as is, otherwise `Ok(())`. */
    method Send(net: Network, httpRequest: HttpRequest, order: seq<string>) returns (r: Result<(), ClientError>)
      requires Enumerates(order, httpRequest.headers) && !tcpConnection.consumed
      modifies tcpConnection
      ensures var data := Utf8.EncodeString(RequestString(httpRequest, order));
        var connection := tcpConnection;
        && r == SendOutcome(net, old(connection.tcpStream), connection.host, connection.port, connection.connectionTimeout, data)
        && connection.log == old(connection.log)
             + SendEvents(net, old(connection.tcpStream), connection.host, connection.port, connection.connectionTimeout, data)
    {
      if tcpConnection.IsNotConnected() {
        var connected := tcpConnection.Connect(net);
        if connected.Err? {
          return Err(connected.error);
        }
      }
      var requestStr := GetRequestString(httpRequest, order);
      var written := tcpConnection.Write(net, requestStr);
      if written.Err? {
        return Err(written.error);
      }
      var readResult := tcpConnection.Read(net);
      if readResult.Err? {
        return Err(readResult.error);
      }
      var body := if |readResult.value| > 0 then Some(readResult.value) else None;
      r := Ok(());
    }
  }
}
