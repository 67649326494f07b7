/**
 * One item's download, as `download` decides it.  The network and the disk are not modelled:
 * what the HTTP client reports and whether writing the staged file worked are inputs.
 */
module Fetch {
  import opened Wrappers
  import opened Text
  import opened Naming

  /** The bytes a response body delivers before it ends, and the read error it ends with, if any. */
  datatype Body = Body(bytes: seq<byte>, failure: Option<string>)

  /** What the HTTP client reports for one GET of an item URL. */
  datatype Exchange =
    | NoResponse(reason: string)         // building the request or sending it failed
    | Response(status: int, body: Body)

  /** How the outside world answers one fetch: the exchange, then the outcome of writing the file. */
  datatype Reply = Reply(exchange: Exchange, writeFailure: Option<string>)

  const StatusOK := 200

  /** The byte ceiling `limitMB * 1024 * 1024`. */
  function SizeLimit(limitMB: nat): (n: nat)
  {
    limitMB * 1024 * 1024
  }

  /**
   * `io.ReadAll(io.LimitReader(body, n))`: the first `n` bytes of the body, or all of it when it
   * is shorter; a read error of the body is only met when the body ends before `n` bytes.
   */
  function ReadLimited(body: Body, n: nat): (r: Result<seq<byte>, string>)
    ensures r.Ok? ==> r.value <= body.bytes && |r.value| == if |body.bytes| < n then |body.bytes| else n
    ensures r.Err? <==> |body.bytes| < n && body.failure.Some?
  {
    if |body.bytes| >= n then Ok(body.bytes[..n])
    else if body.failure.Some? then Err(body.failure.value)
    else Ok(body.bytes)
  }

  function TooLargeMessage(limitMB: nat): (m: string)
  {
    "file too large (> " + Decimal(limitMB) + " MB)"
  }

  /**
   * The body handling of `download`: read one byte past the ceiling and refuse what reaches it.
   * A body is accepted exactly when it fits the ceiling and reads to its end without error, and
   * then it is accepted whole; a longer body is refused as too large (never truncated), even
   * when it would later have failed to read.
   */
  function ReadBody(body: Body, limitMB: nat): (r: Result<seq<byte>, string>)
    ensures r.Ok? <==> |body.bytes| <= SizeLimit(limitMB) && body.failure.None?
    ensures r.Ok? ==> r.value == body.bytes
    ensures |body.bytes| > SizeLimit(limitMB) ==> r == Err(TooLargeMessage(limitMB))
    ensures |body.bytes| <= SizeLimit(limitMB) && body.failure.Some? ==> r == Err(body.failure.value)
  {
    match ReadLimited(body, SizeLimit(limitMB) + 1)
    case Err(e) => Err(e)
    case Ok(data) => if |data| > SizeLimit(limitMB) then Err(TooLargeMessage(limitMB)) else Ok(data)
  }

  /**
   * `download`: the staged path of the item, or the message of what went wrong, checked in the
   * order of the code: the request, the HTTP status, the body and its ceiling, then the write.
   * It succeeds only on a 200 answer whose file could be written, and never when the body
   * exceeds the ceiling (`DownloadSucceeds` gives the exact condition and the path).
   */
  function Download(u: string, dir: string, reply: Reply, limitMB: nat): (r: Result<string, string>)
    ensures r.Ok? ==> reply.exchange.Response? && reply.exchange.status == StatusOK && reply.writeFailure.None?
    ensures r.Ok? ==> |reply.exchange.body.bytes| <= limitMB * 1024 * 1024
  {
    match reply.exchange
    case NoResponse(reason) => Err(reason)
    case Response(status, body) =>
      if status != StatusOK then Err("status " + Decimal(status))
      else
        match ReadBody(body, limitMB)
        case Err(e) => Err(e)
        case Ok(_) =>
          if reply.writeFailure.Some? then Err(reply.writeFailure.value)
          else Ok(JoinPath(dir, LocalName(u)))
  }

  /**
   * The server answered 200 with a body that fits the ceiling and reads through, and the file
   * could be written.
   */
  predicate Accepted(reply: Reply, limitMB: nat)
  {
    && reply.exchange.Response?
    && reply.exchange.status == StatusOK
    && |reply.exchange.body.bytes| <= SizeLimit(limitMB)
    && reply.exchange.body.failure.None?
    && reply.writeFailure.None?
  }

  /**
   * A download succeeds exactly when the reply is accepted, and the file then is the URL's
   * local name in the staging directory (a single safe path element for an accepted URL, by
   * `LocalName`).
   */
  lemma DownloadSucceeds(u: string, dir: string, reply: Reply, limitMB: nat)
    ensures Download(u, dir, reply, limitMB).Ok? <==> Accepted(reply, limitMB)
    ensures Download(u, dir, reply, limitMB).Ok? ==>
      Download(u, dir, reply, limitMB).value == dir + "/" + LocalName(u)
  {
  }

  /** A server that answers with any status but 200 fails the item with that status' number. */
  lemma DownloadBadStatus(u: string, dir: string, status: int, body: Body, w: Option<string>, limitMB: nat)
    requires status != StatusOK
    ensures Download(u, dir, Reply(Response(status, body), w), limitMB) == Err("status " + Decimal(status))
    ensures status == 404 ==> Download(u, dir, Reply(Response(status, body), w), limitMB) == Err("status 404")
  {
    if status == 404 {
      assert DigitChar(4) == '4' && DigitChar(0) == '0';
      assert NatDigits(4) == "4";
      assert NatDigits(40) == NatDigits(4) + ['0'] == "40";
      assert NatDigits(404) == NatDigits(40) + ['4'] == "404";
      assert Decimal(404) == "404";
      assert "status " + Decimal(status) == "status 404";
    }
  }

  /** With the manager's 25 MB ceiling, a body of more than 25 MiB fails as too large. */
  lemma DownloadTooLarge(u: string, dir: string, body: Body, w: Option<string>)
    requires |body.bytes| > 25 * 1024 * 1024
    ensures Download(u, dir, Reply(Response(StatusOK, body), w), 25) == Err("file too large (> 25 MB)")
  {
    assert DigitChar(2) == '2' && DigitChar(5) == '5';
    assert NatDigits(2) == "2";
    assert NatDigits(25) == NatDigits(2) + ['5'] == "25";
    assert Decimal(25) == "25";
    assert "file too large (> " + "25" + " MB)" == "file too large (> 25 MB)";
  }
}
