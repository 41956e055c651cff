# http-client in Dafny

This project models the core of a small command-line HTTP probe client written in Rust:

- two stand-alone codec functions of the crate: a Base64 encoder (section 4 of RFC 4648) and a URL percent-encoder (section 2 of RFC 3986). The client code around them does not call either; only their own unit tests do;
- the request serialiser and the `send` sequence of the HTTP client;
- the TCP connection and its single stream slot;
- the scheme dispatch that builds a client.

## Modules

| file | module | what it holds |
|---|---|---|
| `common.dfy` | `Common` | `byte` and `Port` (the Rust `u8` and `u16`), `Duration` in milliseconds, `Option` and `Result`, and the error kinds and `ClientError`. |
| `utf8.dfy` | `Utf8` | The UTF-8 encoding of a character and of a string (section 3 of RFC 3629), with a decoder as its partner. It gives a Rust `&str` its bytes (`as_bytes`). |
| `base64.dfy` | `Base64` | The source's bit-packing encoder as an imperative method over `bv8` (Rust's `u8` shifts drop the bits shifted out). It is proved equal to the group-wise encoding of section 4 of RFC 4648. |
| `base64_vectors.dfy` | `Base64Vectors` | The expected outputs of the encoder's unit tests. |
| `urlencode.dfy` | `UrlEncode` | The percent-encoder exactly as written, including the unpadded `{:X}` hex (see Findings). It also holds the two-digit encoding of RFC 3986 with the decoder used to prove that encoding injective. |
| `urlencode_vectors.dfy` | `UrlEncodeVectors` | The expected outputs of the encoder's unit tests. |
| `connection.dfy` | `Connection` | The class `TcpConnection`: immutable host, port and timeout, plus a stream slot. |
| `http.dfy` | `Http` | `HttpRequest`, the request string and the class `HttpClient` with `GetRequestString` and `Send`. |
| `dispatch.dfy` | `Dispatch` | `get_http_client`. |

## How the socket is modelled

The operating system's socket calls are answered by a `Network` value, a record of four functions:

- `to_socket_addrs`: the addresses in order, or the error's text;
- `TcpStream::connect_timeout`: a stream, or the error's text;
- `write_all`: whether it succeeded;
- `read_to_end`: the text read, or the error's text.

Answers are functions of the call's arguments. Each method of `TcpConnection` states its result as a pure function (`ConnectOutcome`, `WriteOutcome`, `ReadOutcome`). A ghost `log` records the socket calls made, in order, so `Send`'s contract says which calls were made and when.

Rust moves the connection into `read(self)`. The model sets a ghost flag `consumed` there, and every later call requires the flag to be clear.

A Rust `HashMap` iterates in an unspecified order. The headers are therefore a Dafny `map`, and the serialiser takes the iteration order as a parameter `order`. The predicate `Http.Enumerates` requires `order` to list every key exactly once. Every property of the request string holds for every such order, and `HeaderOrderIrrelevant` states what does not depend on it at all.

## Behaviour of the code worth knowing

- There is no `disconnect` operation. Only `read` ends a connection, because it consumes it.
- `send` does not parse the reply, and an empty reply is not an error. It reads, rebuilds the optional `body` without using it, and returns `Ok(())` (src/http/http.rs:29-35).
- Headers are written in the map's iteration order. Entries are not separated from each other.
- The error enum in src/common/common.rs:3-8 has four kinds, but the connection uses two more, `NoAvailableTcpStream` and `WriteError`. `Common.ClientErrorType` has all six.
- The only schemes are "http" and "https". Any other, "tcp" included, is rejected (src/main.rs:40-48).
- The request text is `method + " " + path + " HTTP/1.1\n" + headers + "\n\n"`. Its length is therefore `|method| + |path| + 13` plus, for each header, `|name| + 2 + |value|`.
- Section 2.1 of RFC 3986 requires two hex digits per byte. The code writes one for bytes below 0x10, and so does the model's `Encoding`. The two-digit encoding is proved beside it (Findings).

## Model

| member | source | states |
|---|---|---|
| Base64.Base64Encode | src/common/base64.rs:14-58 | The encoder's output for a string is the RFC 4648 section 4 encoding of the string's UTF-8 bytes. |
| Base64.EncodeBytes | src/common/base64.rs:18-44 | After the byte loop, the output is the characters of every sextet completed so far. The carried bits are the input's leftover bits. The bit counter is 0, 2 or 4 according to the input length mod 3. |
| Base64.EncodeByte | src/common/base64.rs:19-43 | One loop iteration with Rust's `u8` shift and masking semantics, and no counter overflow. It pushes the sextets this byte completes and leaves the bits it does not use. The counter moves to the next position of the 3-byte group. |
| Base64.EncoderStep | src/common/base64.rs:18-44 | The loop invariant: what has been pushed, the carried bits and the counter after the first `i` bytes are preserved by one iteration. |
| Base64.EncoderEnd | src/common/base64.rs:46-54 | After the loop, no tail character is needed exactly when `8n mod 6 == 0`, and the output is then complete. Otherwise the leftover bits shifted into a last sextet complete it. The `=` count `8n mod 3` is the RFC padding. |
| Base64.PushPadding | src/common/base64.rs:52-54 | The padding loop appends exactly `count` `=` characters. |
| Base64.PaddingArithmetic | src/common/base64.rs:46-54 | A tail character is emitted iff `n mod 3 != 0`; the number of `=` characters `8n mod 3` equals `(3 - n mod 3) mod 3`. |
| Base64.TableRows | src/common/base64.rs:3-12 | The 64-entry table built from the RFC's ranges equals the source table, row by row. |
| Base64.QuantumIsBigEndian | src/common/base64.rs:18-44 | The four sextets of a 3-byte group are the base-64 digits, most significant first, of the bytes read as one big-endian 24-bit number. |
| Base64.PushedIsEmitted | src/common/base64.rs:18-44 | What the byte loop pushes for any input equals the complete groups' sextets plus the whole sextets of the unfinished group. |
| Base64.SextetsFromPushed | src/common/base64.rs:46-50 | The RFC sextets are what the loop pushed, followed by the tail character's sextet when bits are left over. |
| Base64.EncodingLength | src/common/base64.rs:14-58 | The output has length `4 * ceil(n / 3)`. |
| Base64.EncodingAlphabet | src/common/base64.rs:14-58 | Every output character before the padding is in the table; the last ones, as many as the padding length, are `=`. |
| Base64Vectors.VectorEmpty | src/common/base64.rs:72 | The empty string encodes to the empty string. |
| Base64Vectors.VectorTesting100 | src/common/base64.rs:67 | The string "Testing100" encodes to "VGVzdGluZzEwMA==". |
| Base64Vectors.VectorTesting10 | src/common/base64.rs:68 | The string "Testing10" encodes to "VGVzdGluZzEw". |
| Base64Vectors.VectorTesting1 | src/common/base64.rs:69 | The string "Testing1" encodes to "VGVzdGluZzE=". |
| Base64Vectors.VectorTesting | src/common/base64.rs:70 | The string "Testing" encodes to "VGVzdGluZw==". |
| Base64Vectors.VectorTestin | src/common/base64.rs:71 | The string "Testin" encodes to "VGVzdGlu". |
| Base64Vectors.VectorLong | src/common/base64.rs:73 | The string "This is a very long line." encodes to "VGhpcyBpcyBhIHZlcnkgbG9uZyBsaW5lLg==". |
| Utf8.EncodeChar | src/common/urlencode.rs:41-42 | A character's UTF-8 bytes: one to four of them, a single byte exactly below U+0080, lead and continuation bytes in their ranges. |
| Utf8.DecodeEncodeString | src/common/urlencode.rs:41-42 | Decoding the UTF-8 bytes of a string gives the string back. |
| Utf8.EncodeStringAppend | src/common/base64.rs:18 | The bytes of a concatenation are the concatenation of the bytes. |
| Utf8.EncodeStringAscii | src/common/base64.rs:18 | An ASCII string's bytes are its character codes. |
| UrlEncode.UnreservedRows | src/common/urlencode.rs:7-13 | The 66-entry unreserved table equals the source listing, row by row. |
| UrlEncode.UnreservedTable | src/common/urlencode.rs:7-13 | A character is in the table iff it is unreserved per section 2.3 of RFC 3986: a letter, a digit, `-`, `.`, `_` or `~`. |
| UrlEncode.UpperHex | src/common/urlencode.rs:60 | `{:X}` of a byte: upper-case hex digits with no leading zero, two of them exactly when the byte is at least 0x10. |
| UrlEncode.UpperHexValue | src/common/urlencode.rs:60 | Reading the hex digits back gives the byte. |
| UrlEncode.EncodeNonReservedChar | src/common/urlencode.rs:56-63 | The loop's result is `%` followed by the `{:X}` digits, for each byte in order. |
| UrlEncode.Encode | src/common/urlencode.rs:22-28 | The loop's result is the encodings of the input's characters, joined in order. |
| UrlEncode.EncodeCharCases | src/common/urlencode.rs:37-46 | An unreserved character is emitted unchanged; any other becomes the escapes of its UTF-8 bytes. |
| UrlEncode.EncodingOne | src/common/urlencode.rs:24-26 | A one-character string encodes as its character does. |
| UrlEncode.EncodingAppend | src/common/urlencode.rs:24-27 | `encode(s + t) == encode(s) + encode(t)`. |
| UrlEncode.ByteEscapesAppend | src/common/urlencode.rs:58-61 | Escaping a concatenation of bytes is the concatenation of the escapes. |
| UrlEncode.EncodingAlphabet | src/common/urlencode.rs:37-63 | The output contains only unreserved characters, `%` and `0-9A-F`. |
| UrlEncode.EncodeCharLength | src/common/urlencode.rs:37-46 | A character encodes to at least one character, and to exactly one iff it is unreserved. |
| UrlEncode.EncodingLength | src/common/urlencode.rs:22-46 | The output is at least as long as the input, and exactly as long iff every character is unreserved. |
| UrlEncode.EncodingUnreserved | src/common/urlencode.rs:38-39 | A string of unreserved characters encodes to itself. |
| UrlEncode.EscapeBelowSixteen | src/common/urlencode.rs:60 | A character below U+0010 becomes `%` and one hex digit. |
| UrlEncode.EncodingCollision | src/common/urlencode.rs:60 | Two different strings, U+0001 `A` and U+001A, both encode to "%1A". |
| UrlEncode.HexOctet | src/common/urlencode.rs:60 | The corrected rendering: always two upper-case hex digits. |
| UrlEncode.PercentEncodingDecode | src/common/urlencode.rs:22-63 | Percent-decoding the corrected encoding of a string gives its UTF-8 bytes. |
| UrlEncode.PercentEncodingInjective | src/common/urlencode.rs:22-63 | Under the corrected encoding, different strings have different encodings. |
| UrlEncode.EncodingAgrees | src/common/urlencode.rs:60 | For strings with no character below U+0010, the source's encoding and the corrected one are equal. |
| UrlEncodeVectors.VectorLocalhost | src/common/urlencode.rs:70 | "http://localhost:8080" encodes to "http%3A%2F%2Flocalhost%3A8080". |
| UrlEncodeVectors.VectorGunter | src/common/urlencode.rs:71 | "Hello Günter" encodes to "Hello%20G%C3%BCnter". |
| UrlEncodeVectors.VectorSymbols | src/common/urlencode.rs:72 | "æøåÆØÅ,.-;:_!\"#¤%" encodes to the expected string of escapes. |
| Connection.Decimal | src/connection/connection.rs:106 | The port's decimal digits: at least one, all digits, no leading zero. |
| Connection.DecimalValueOf | src/connection/connection.rs:106 | Reading the decimal digits back gives the number. |
| Connection.ConnectStringParts | src/connection/connection.rs:102-108 | The connect string is the host, then `:` at position `|host|`, then digits that read back as the port. |
| Connection.ConnectStringLocalhost | src/connection/connection.rs:118-121 | Host "localhost" and port 8080 give "localhost:8080". |
| Connection.ConnectOutcomeCases | src/connection/connection.rs:37-54 | A resolution error or an empty address list gives `IncorrectSocketAddr`. A connect failure on the first address gives `ConnectionFailure`. Otherwise the result is the stream opened on the first address, and exactly that address is tried. |
| Connection.TransferOutcomeCases | src/connection/connection.rs:60-91 | With an empty slot, `write` and `read` both fail with `NoAvailableTcpStream`. With a stream, a failed write and a failed read are both reported as `WriteError`. A successful read is the text read under the 5-second timeout. |
| Connection.TcpConnection.constructor | src/connection/connection.rs:24-31 | `new` keeps host, port and timeout and starts with an empty slot, so the connection is not connected. |
| Connection.TcpConnection.IsNotConnected | src/connection/connection.rs:95-97 | `is_not_connected` holds iff the stream slot is empty, so it is true after `new` (the constructor ensures it). |
| Connection.TcpConnection.GetConnectStr | src/connection/connection.rs:102-108 | The pushed string is host, `:` and the port in decimal. |
| Connection.TcpConnection.Connect | src/connection/connection.rs:37-54 | Succeeds iff the connect outcome does, and then fills the slot with that stream. On failure it returns that error and leaves the slot unchanged. The log gains the resolution and, if there was an address, the connect attempt. |
| Connection.TcpConnection.Write | src/connection/connection.rs:60-70 | The result is the write outcome on the slot for the string's UTF-8 bytes; the slot is unchanged. The log gains the write when there was a stream. |
| Connection.TcpConnection.Read | src/connection/connection.rs:76-91 | The result is the read outcome on the slot. The connection is consumed and gives up its stream. |
| Http.RequestStringShape | src/http/http.rs:38-50 | The request text starts with `method + " " + path + " HTTP/1.1\n"`, ends with `"\n\n"`, and between them holds exactly the header lines joined without separators. |
| Http.HeaderLines | src/http/http.rs:43-47 | There is one line per enumerated header, in the enumeration order, each `name + ": " + value`. |
| Http.HttpClient.GetRequestString | src/http/http.rs:38-50 | The string the loop builds is the request text for the given header order. |
| Http.RequestStringNoHeaders | src/http/http.rs:39-48 | With no headers the text is `method + " " + path + " HTTP/1.1\n\n\n"`. |
| Http.RequestStringIgnoresBody | src/http/http.rs:38-50 | The body never affects the request text. |
| Http.RequestStringLength | src/http/http.rs:39-48 | The length is `|method| + |path| + 13 + sum over headers of (|name| + 2 + |value|)`. |
| Http.HeaderOrderIrrelevant | src/http/http.rs:43 | Any two orders give the same header lines, each as often, and texts of the same length. |
| Http.SendConnectsOnlyWhenNotConnected | src/http/http.rs:24-26 | `send` resolves and connects only when it holds no stream, and then first. |
| Http.SendWritesThenReads | src/http/http.rs:27-29 | When `send` succeeds, its last two socket calls are a write of the request and then a read, on the stream it held or else the one it connected. |
| Http.SendFirstError | src/http/http.rs:24-35 | The error of `send` is the first error of connect, write and read, unchanged. |
| Http.SendIgnoresReply | src/http/http.rs:29-35 | Two read answers that succeed and fail on the same streams give `send` the same result, whatever text or error message they carry. |
| Http.HttpClient.constructor | src/http/http.rs:16-21 | `new` makes a client over a fresh, unconnected transport with the given host, port and timeout. |
| Http.HttpClient.Send | src/http/http.rs:23-36 | The result is `SendOutcome` for the stream held before the call and the UTF-8 bytes of the request text. The log gains exactly the calls `SendEvents` lists. |
| Dispatch.SupportedSchemeExact | src/main.rs:40-48 | The match is exact: only "http" and "https" are supported, so "HTTP", "Http" and "tcp" are not. |
| Dispatch.GetHttpClient | src/main.rs:39-49 | Succeeds iff the scheme is supported, with a fresh client on the connect host, port and timeout unchanged. Otherwise it fails with `UnsupportedScheme` and the message "Unsupported scheme". |

## Left out

- Base64.Base64Encode: the products `str.as_bytes().len() * 8` at src/common/base64.rs:46 and :52 are Rust `usize` values, but the model takes them as unbounded integers. Past `usize::MAX / 8` input bytes (2^29 bytes on a 32-bit target) the source's product overflows. A debug build then panics; a release build wraps, so the tail character and `=` padding come out wrong (2^29 bytes give a product of 0: no tail and no padding, although 2^29 mod 3 = 2). The ensures describe the source only for inputs below that size.
- Real sockets: name resolution, connecting, writing and reading are answers of a `Network` value, as functions of their arguments. The model has no network state between calls and no partial writes.
- Timeouts are not enforced: the connection timeout and the 5-second read timeout are only passed to the `Network` functions.
- Connection.TcpConnection.Read: the result of `set_read_timeout` is ignored, as in the source, and is not modelled as a separate call.
- Connection.TcpConnection.Read: the `String::from_utf8(buffer).unwrap()` panic is not modelled; the `Network` read returns text.
- Reading decides nothing for `send`: `Http.HttpClient.Send` reads the reply into `body` and drops it.
- Rust's move semantics: the ghost `consumed` flag stands for the connection having been moved into `read`.
- `main`, `send_request`, their `println!` output, the command-line `Arguments` and `Parameters::new`: these are command-line plumbing outside the client's core. `Dispatch.Parameters` holds only the fields `get_http_client` reads.
- The integration test at src/connection/connection.rs:124-131: it needs a live server.
- The unused `result` local of `encode_char` (src/common/urlencode.rs:43) has no effect and is not modelled.
- `DisconnectionFailed` is declared but no core operation returns it.
- No response parsing, Base64 decoding or parameter resolution is modelled, because none of them is in the code. `UrlEncode.PercentDecode` is not an operation of the source: it is the decoder used to prove the corrected encoding injective.

## Findings

| source | as written | input that shows it | evidently intended | confidence | as-written member | corrected member |
|---|---|---|---|---|---|---|
| src/common/urlencode.rs:60 | `format!("{:X}", byte)` writes bytes below 0x10 with a single hex digit | the strings U+0001 `A` and U+001A both encode to "%1A"; a line feed encodes to "%A" | every byte as `%` and exactly two hex digits (section 2.1 of RFC 3986), which is decodable and injective | not executed | UrlEncode.EncodingCollision | UrlEncode.PercentEncodingInjective |
