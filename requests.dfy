/**
 * performPostRequest and performGetRequest of HttpAuthenticationService over the fake transport:
 * the primary response body if it can be read, otherwise the error page if the server sent one,
 * otherwise the original IOException; every stream opened is closed on every path.
 */
module Requests {
  import opened Wrappers
  import opened Transport
  import Utf8
  import Decimal

  const TimeoutMillis := 15000

  // ---- Specification -------------------------------------------------------------------------

  /** Whether getInputStream() and reading the response body both succeed. */
  predicate PrimaryReads(b: Behaviour)
  {
    b.openResponseBody.None? && b.readResponseBody.Done?
  }

  /** The IOException caught when the primary body cannot be read. */
  function PrimaryError(b: Behaviour): IoError
    requires !PrimaryReads(b)
  {
    if b.openResponseBody.Some? then b.openResponseBody.value else b.readResponseBody.error
  }

  /** The result of reading the response, shared by GET and POST. */
  function ResponseOutcome(b: Behaviour): (r: Attempt<string>)
  {
    if PrimaryReads(b) then b.readResponseBody
    else if b.errorBody.Some? then b.errorBody.value
    else Threw(PrimaryError(b))
  }

  /** The streams reading the response opens and closes, in order. */
  function ResponseEvents(b: Behaviour): (events: seq<Event>)
  {
    var primary := if b.openResponseBody.None? then [Opened(ResponseBody), Closed(ResponseBody)] else [];
    primary + if !PrimaryReads(b) && b.errorBody.Some? then [Opened(ErrorBody), Closed(ErrorBody)] else []
  }

  /** The IOException that ends a POST before the response is read, if any. */
  function WriteFailure(b: Behaviour): Option<IoError>
  {
    if b.openRequestBody.Some? then b.openRequestBody else b.writeRequestBody
  }

  /** The result of a POST: the write's exception, or else the response as for GET. */
  function PostOutcome(b: Behaviour): (r: Attempt<string>)
  {
    if WriteFailure(b).Some? then Threw(WriteFailure(b).value) else ResponseOutcome(b)
  }

  /** The streams a POST opens and closes, in order. */
  function PostEvents(b: Behaviour): (events: seq<Event>)
  {
    var request := if b.openRequestBody.None? then [Opened(RequestBody), Closed(RequestBody)] else [];
    request + if WriteFailure(b).None? then ResponseEvents(b) else []
  }

  /** The Content-Type header value of a POST. */
  function ContentType(contentType: string): (value: string)
    ensures |value| == |contentType| + 15
    ensures value[..|contentType|] == contentType
    ensures value[|contentType|..] == "; charset=utf-8"
  {
    contentType + "; charset=utf-8"
  }

  /** The Content-Length header value of a POST: the number of UTF-8 bytes of the body, in decimal. */
  function ContentLength(post: string): (value: string)
    ensures forall i :: 0 <= i < |value| ==> Decimal.IsDigit(value[i])
  {
    Decimal.ToDecimal(|Utf8.Encode(post)|)
  }

  /**
   * Streams are used properly: a stream is opened only when it is not open and closed only when
   * it is.
   */
  predicate Disciplined(events: seq<Event>)
  {
    if events == [] then true
    else
      var before := events[..|events| - 1];
      var last := events[|events| - 1];
      && Disciplined(before)
      && (last.Opened? <==> last.stream !in OpenStreams(before))
  }

  // ---- Properties of the response rule -------------------------------------------------------

  /** Opening a stream that is not open and then closing it changes nothing and is proper use. */
  lemma OpenClose(events: seq<Event>, s: Stream)
    requires s !in OpenStreams(events)
    ensures OpenStreams(events + [Opened(s), Closed(s)]) == OpenStreams(events)
    ensures Disciplined(events + [Opened(s), Closed(s)]) == Disciplined(events)
  {
    var afterOpen := events + [Opened(s)];
    OpenStreamsSnoc(events, Opened(s));
    OpenStreamsSnoc(afterOpen, Closed(s));
    assert afterOpen + [Closed(s)] == events + [Opened(s), Closed(s)];
    assert (events + [Opened(s), Closed(s)])[..|afterOpen|] == afterOpen;
    assert afterOpen[..|events|] == events;
  }

  /**
   * Reading the response succeeds exactly when one of the two bodies can be read, and then its
   * text is that body's, the primary body's whenever it reads; it fails with the original exception when there is no error page.
   */
  lemma ResponseRule(b: Behaviour)
    ensures ResponseOutcome(b).Done? <==>
              PrimaryReads(b) || (!PrimaryReads(b) && b.errorBody.Some? && b.errorBody.value.Done?)
    ensures forall body :: ResponseOutcome(b) == Done(body) ==>
              (PrimaryReads(b) && b.readResponseBody == Done(body)) || b.errorBody == Some(Done(body))
    ensures PrimaryReads(b) ==> ResponseOutcome(b) == b.readResponseBody
    ensures !PrimaryReads(b) && b.errorBody.None? ==> ResponseOutcome(b) == Threw(PrimaryError(b))
  {
  }

  /** GET and POST read the response the same way once the request body is written. */
  lemma PostReadsLikeGet(b: Behaviour)
    requires WriteFailure(b).None?
    ensures PostOutcome(b) == ResponseOutcome(b)
    ensures PostEvents(b) == [Opened(RequestBody), Closed(RequestBody)] + ResponseEvents(b)
  {
  }

  /** Reading the response closes every stream it opens, and uses them properly. */
  lemma ResponseClosesAll(before: seq<Event>, b: Behaviour)
    requires Disciplined(before) && OpenStreams(before) == {}
    ensures OpenStreams(before + ResponseEvents(b)) == {}
    ensures Disciplined(before + ResponseEvents(b))
  {
    var afterPrimary := before;
    if b.openResponseBody.None? {
      OpenClose(before, ResponseBody);
      afterPrimary := before + [Opened(ResponseBody), Closed(ResponseBody)];
    }
    var all := afterPrimary;
    if !PrimaryReads(b) && b.errorBody.Some? {
      OpenClose(afterPrimary, ErrorBody);
      all := afterPrimary + [Opened(ErrorBody), Closed(ErrorBody)];
    }
    assert all == before + ResponseEvents(b);
  }

  /** A POST closes every stream it opens, and uses them properly. */
  lemma PostClosesAll(b: Behaviour)
    ensures OpenStreams(PostEvents(b)) == {}
    ensures Disciplined(PostEvents(b))
  {
    var request: seq<Event> := [];
    if b.openRequestBody.None? {
      OpenClose([], RequestBody);
      request := [Opened(RequestBody), Closed(RequestBody)];
    }
    if WriteFailure(b).None? {
      ResponseClosesAll(request, b);
    } else {
      assert PostEvents(b) == request;
    }
  }

  /** When the error page is fetched, no other stream is open: the failed response body was closed first. */
  lemma ErrorPageFetchedAfterClose(b: Behaviour)
    ensures forall i :: 0 <= i < |ResponseEvents(b)| && ResponseEvents(b)[i] == Opened(ErrorBody) ==>
              OpenStreams(ResponseEvents(b)[..i]) == {}
  {
    var events := ResponseEvents(b);
    forall i | 0 <= i < |events| && events[i] == Opened(ErrorBody)
      ensures OpenStreams(events[..i]) == {}
    {
      if b.openResponseBody.None? {
        assert i == 2;
        OpenClose([], ResponseBody);
        assert events[..i] == [] + [Opened(ResponseBody), Closed(ResponseBody)];
      } else {
        assert i == 0;
      }
    }
  }

  /** The Content-Length value reads back as the number of UTF-8 bytes of the body. */
  lemma ContentLengthValue(post: string)
    ensures Decimal.Value(ContentLength(post)) == |Utf8.Encode(post)|
    ensures |post| <= Decimal.Value(ContentLength(post)) <= 4 * |post|
  {
    Decimal.ValueToDecimal(|Utf8.Encode(post)|);
  }

  // ---- The operations ------------------------------------------------------------------------

  /** createUrlConnection: a new connection to the server, with fixed timeouts and caching off. */
  method CreateUrlConnection(server: Behaviour) returns (c: Connection)
    ensures fresh(c) && c.behaviour == server
    ensures c.connectTimeout == TimeoutMillis && c.readTimeout == TimeoutMillis && !c.useCaches
    ensures !c.doOutput && c.requestProperties == map[] && c.sent == [] && c.events == []
  {
    c := new Connection(server);
    c.SetConnectTimeout(TimeoutMillis);
    c.SetReadTimeout(TimeoutMillis);
    c.SetUseCaches(false);
  }

  /**
   * The try/catch/finally that reads the response: the body of getInputStream(); on an
   * IOException, close that stream and read getErrorStream() instead, or rethrow when it is null;
   * finally close whichever stream is held.
   */
  method ReadResponse(c: Connection) returns (r: Attempt<string>)
    modifies c`events
    ensures r == ResponseOutcome(c.behaviour)
    ensures c.events == old(c.events) + ResponseEvents(c.behaviour)
  {
    var inputStream: Option<Stream> := None;
    var primary: Attempt<string>;
    var attempt := c.GetInputStream();
    if attempt.Threw? {
      primary := Threw(attempt.error);
    } else {
      inputStream := Some(attempt.value);
      OpenStreamsSnoc(old(c.events), Opened(ResponseBody));
      primary := c.ReadAll(attempt.value);
    }
    if primary.Done? {
      r := primary;
    } else {
      // catch (IOException e)
      c.CloseQuietly(inputStream);
      ghost var beforeErrorPage := c.events;
      inputStream := c.GetErrorStream();
      if inputStream.Some? {
        OpenStreamsSnoc(beforeErrorPage, Opened(ErrorBody));
        r := c.ReadAll(inputStream.value);
      } else {
        r := Threw(primary.error);
      }
    }
    // finally
    c.CloseQuietly(inputStream);
  }

  /**
   * The try/finally that writes the POST body: getOutputStream(), write the bytes, and close the
   * output stream whatever happens.
   */
  method WriteRequestBody(c: Connection, postAsBytes: seq<Utf8.byte>) returns (failure: Option<IoError>)
    modifies c`events, c`sent
    ensures failure == WriteFailure(c.behaviour)
    ensures c.events == old(c.events) +
              if c.behaviour.openRequestBody.None? then [Opened(RequestBody), Closed(RequestBody)] else []
    ensures c.sent == if failure.None? then old(c.sent) + postAsBytes else old(c.sent)
  {
    var outputStream: Option<Stream> := None;
    var attempt := c.GetOutputStream();
    if attempt.Threw? {
      failure := Some(attempt.error);
    } else {
      outputStream := Some(attempt.value);
      OpenStreamsSnoc(old(c.events), Opened(RequestBody));
      failure := c.Write(attempt.value, postAsBytes);
    }
    // finally
    c.CloseQuietly(outputStream);
  }

  /**
   * performPostRequest: sets Content-Type and Content-Length, writes the UTF-8 body (closing the
   * output stream whatever happens), then reads the response as for GET. Returns the connection
   * too, so that its final state can be stated.
   */
  method PerformPostRequest(server: Behaviour, post: string, contentType: string)
    returns (r: Attempt<string>, c: Connection)
    ensures fresh(c) && c.behaviour == server
    ensures r == PostOutcome(server)
    ensures c.events == PostEvents(server)
    ensures OpenStreams(c.events) == {} && Disciplined(c.events)
    ensures c.requestProperties == map["Content-Type" := ContentType(contentType), "Content-Length" := ContentLength(post)]
    ensures c.doOutput
    ensures c.sent == if WriteFailure(server).None? then Utf8.Encode(post) else []
    ensures c.connectTimeout == TimeoutMillis && c.readTimeout == TimeoutMillis && !c.useCaches
  {
    c := CreateUrlConnection(server);
    var postAsBytes := Utf8.Encode(post);
    c.SetRequestProperty("Content-Type", contentType + "; charset=utf-8");
    c.SetRequestProperty("Content-Length", Decimal.ToDecimal(|postAsBytes|));
    c.SetDoOutput(true);

    var failure := WriteRequestBody(c, postAsBytes);
    ghost var written := c.events;
    assert written + (if failure.None? then ResponseEvents(server) else []) == PostEvents(server);
    if failure.Some? {
      r := Threw(failure.value);
    } else {
      r := ReadResponse(c);
    }
    PostClosesAll(server);
  }

  /**
   * performGetRequest(url, authentication): sets Authorization only when it is given, then reads
   * the response. Returns the connection too, so that its final state can be stated.
   */
  method PerformGetRequest(server: Behaviour, authentication: Option<string>)
    returns (r: Attempt<string>, c: Connection)
    ensures fresh(c) && c.behaviour == server
    ensures r == ResponseOutcome(server)
    ensures c.events == ResponseEvents(server)
    ensures OpenStreams(c.events) == {} && Disciplined(c.events)
    ensures c.requestProperties == if authentication.Some? then map["Authorization" := authentication.value] else map[]
    ensures !c.doOutput && c.sent == []
    ensures c.connectTimeout == TimeoutMillis && c.readTimeout == TimeoutMillis && !c.useCaches
  {
    c := CreateUrlConnection(server);
    if authentication.Some? {
      c.SetRequestProperty("Authorization", authentication.value);
    }
    r := ReadResponse(c);
    ResponseClosesAll([], server);
    assert [] + ResponseEvents(server) == ResponseEvents(server);
  }

  /** performGetRequest(url): the same request with no Authorization header. */
  method PerformGetRequestWithoutAuthentication(server: Behaviour) returns (r: Attempt<string>, c: Connection)
    ensures fresh(c) && c.behaviour == server
    ensures r == ResponseOutcome(server)
    ensures c.events == ResponseEvents(server) && OpenStreams(c.events) == {} && Disciplined(c.events)
    ensures c.requestProperties == map[]
    ensures !c.doOutput && c.sent == []
    ensures c.connectTimeout == TimeoutMillis && c.readTimeout == TimeoutMillis && !c.useCaches
  {
    r, c := PerformGetRequest(server, None);
  }
}
