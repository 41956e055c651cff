/**
 * `get_http_client`: the choice of client by URL scheme. "http" and "https"
 * build the same plain-TCP client; any other scheme is refused.
 */
module Dispatch {
  import opened Common
  import opened Http

  /** The resolved parameters `get_http_client` reads. */
  datatype Parameters = Parameters(scheme: string, connectHost: string, connectPort: Port, connectionTimeout: Duration)

  /** The schemes with a client, compared character for character. */
  predicate SupportedScheme(scheme: string)
  {
    scheme == "http" || scheme == "https"
  }

  /** The error for any other scheme. */
  const UnsupportedSchemeError: ClientError := ClientError(UnsupportedScheme, "Unsupported scheme")

  /** The comparison is exact: a scheme is supported only if it is one of the
      two lower-case names, so "HTTP", "Http" and "tcp" are refused. */
  lemma SupportedSchemeExact(scheme: string)
    ensures SupportedScheme(scheme) <==> scheme in {"http", "https"}
    ensures !SupportedScheme("HTTP") && !SupportedScheme("Http") && !SupportedScheme("tcp")
  {
    assert "HTTP" != "http" by { assert "HTTP"[0] != "http"[0]; }
    assert "Http" != "http" by { assert "Http"[0] != "http"[0]; }
    assert "tcp" != "http" by { assert "tcp"[0] != "http"[0]; }
  }

  /** `get_http_client`: a new client on the connect host, port and timeout,
      unchanged, for "http" and "https"; `UnsupportedScheme` otherwise. */
  method GetHttpClient(parameters: Parameters) returns (r: Result<HttpClient, ClientError>)
    ensures r.Ok? <==> SupportedScheme(parameters.scheme)
    ensures r.Err? ==> r.error == UnsupportedSchemeError
    ensures r.Ok? ==> var connection := r.value.tcpConnection;
      && fresh(r.value) && fresh(connection)
      && connection.host == parameters.connectHost
      && connection.port == parameters.connectPort
      && connection.connectionTimeout == parameters.connectionTimeout
      && connection.tcpStream == None && connection.log == [] && !connection.consumed
  {
    if parameters.scheme == "http" {
      var client := new HttpClient(parameters.connectHost, parameters.connectPort, parameters.connectionTimeout);
      r := Ok(client);
    } else if parameters.scheme == "https" {
      var client := new HttpClient(parameters.connectHost, parameters.connectPort, parameters.connectionTimeout);
      r := Ok(client);
    } else {
      r := Err(UnsupportedSchemeError);
    }
  }
}
