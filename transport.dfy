/**
 * A fake HttpURLConnection: the network is replaced by a scripted behaviour, and the connection
 * records which streams were opened and closed, in order.
 */
module Transport {
  import opened Wrappers
  import Utf8

  /** An IOException, known only by its message. */
  datatype IoError = IoError(message: string)

  /** A call that returns a value or throws an IOException. */
  datatype Attempt<+T> = Done(value: T) | Threw(error: IoError)

  /** The streams a connection hands out: the request body, the response body and the error page. */
  datatype Stream = RequestBody | ResponseBody | ErrorBody

  datatype Event = Opened(stream: Stream) | Closed(stream: Stream)

  /** What the server and the network do, call by call. */
  datatype Behaviour = Behaviour(
    openRequestBody: Option<IoError>,       // getOutputStream() throws this
    writeRequestBody: Option<IoError>,      // writing the body throws this
    openResponseBody: Option<IoError>,      // getInputStream() throws this (e.g. on an error status)
    readResponseBody: Attempt<string>,      // reading the response body to a string
    errorBody: Option<Attempt<string>>)     // getErrorStream(): null, or a stream whose read gives this

  /** The streams still open after the events, in order. */
  function OpenStreams(events: seq<Event>): (open: set<Stream>)
  {
    if events == [] then {}
    else
      var before := OpenStreams(events[..|events| - 1]);
      var last := events[|events| - 1];
      if last.Opened? then before + {last.stream} else before - {last.stream}
  }

  lemma OpenStreamsSnoc(events: seq<Event>, e: Event)
    ensures OpenStreams(events + [e]) ==
            if e.Opened? then OpenStreams(events) + {e.stream} else OpenStreams(events) - {e.stream}
  {
    assert (events + [e])[..|events|] == events;
  }

  /** The connection a request works on, after url.openConnection(proxy). */
  class Connection {
    const behaviour: Behaviour
    var connectTimeout: int
    var readTimeout: int
    var useCaches: bool
    var doOutput: bool
    var requestProperties: map<string, string>
    var sent: seq<Utf8.byte>
    var events: seq<Event>

    /** A connection as HttpURLConnection hands it out: no timeouts, caching on, nothing set or sent. */
    constructor(behaviour: Behaviour)
      ensures this.behaviour == behaviour
      ensures connectTimeout == 0 && readTimeout == 0 && useCaches && !doOutput
      ensures requestProperties == map[] && sent == [] && events == []
    {
      this.behaviour := behaviour;
      connectTimeout, readTimeout, useCaches, doOutput := 0, 0, true, false;
      requestProperties, sent, events := map[], [], [];
    }

    method SetConnectTimeout(ms: int)
      modifies this`connectTimeout
      ensures connectTimeout == ms
    {
      connectTimeout := ms;
    }

    method SetReadTimeout(ms: int)
      modifies this`readTimeout
      ensures readTimeout == ms
    {
      readTimeout := ms;
    }

    method SetUseCaches(on: bool)
      modifies this`useCaches
      ensures useCaches == on
    {
      useCaches := on;
    }

    method SetDoOutput(on: bool)
      modifies this`doOutput
      ensures doOutput == on
    {
      doOutput := on;
    }

    /** setRequestProperty: the key now has this value, replacing any earlier one. */
    method SetRequestProperty(key: string, value: string)
      modifies this`requestProperties
      ensures requestProperties == old(requestProperties)[key := value]
    {
      requestProperties := requestProperties[key := value];
    }

    /** getOutputStream(): the request body stream, opened, or the behaviour's exception. */
    method GetOutputStream() returns (r: Attempt<Stream>)
      modifies this`events
      ensures behaviour.openRequestBody.Some? ==>
                r == Threw(behaviour.openRequestBody.value) && events == old(events)
      ensures behaviour.openRequestBody.None? ==>
                r == Done(RequestBody) && events == old(events) + [Opened(RequestBody)]
    {
      if behaviour.openRequestBody.Some? {
        r := Threw(behaviour.openRequestBody.value);
      } else {
        r := Done(RequestBody);
        events := events + [Opened(RequestBody)];
      }
    }

    /** Writes the whole request body, or throws the behaviour's exception. */
    method Write(s: Stream, bytes: seq<Utf8.byte>) returns (failure: Option<IoError>)
      requires s == RequestBody && s in OpenStreams(events)
      modifies this`sent
      ensures failure == behaviour.writeRequestBody
      ensures sent == if failure.None? then old(sent) + bytes else old(sent)
    {
      failure := behaviour.writeRequestBody;
      if failure.None? {
        sent := sent + bytes;
      }
    }

    /** getInputStream(): the response body stream, opened, or the behaviour's exception. */
    method GetInputStream() returns (r: Attempt<Stream>)
      modifies this`events
      ensures behaviour.openResponseBody.Some? ==>
                r == Threw(behaviour.openResponseBody.value) && events == old(events)
      ensures behaviour.openResponseBody.None? ==>
                r == Done(ResponseBody) && events == old(events) + [Opened(ResponseBody)]
    {
      if behaviour.openResponseBody.Some? {
        r := Threw(behaviour.openResponseBody.value);
      } else {
        r := Done(ResponseBody);
        events := events + [Opened(ResponseBody)];
      }
    }

    /** getErrorStream(): the error page stream, opened, or null when the server sent none. */
    method GetErrorStream() returns (r: Option<Stream>)
      modifies this`events
      ensures behaviour.errorBody.None? ==> r.None? && events == old(events)
      ensures behaviour.errorBody.Some? ==> r == Some(ErrorBody) && events == old(events) + [Opened(ErrorBody)]
    {
      if behaviour.errorBody.Some? {
        r := Some(ErrorBody);
        events := events + [Opened(ErrorBody)];
      } else {
        r := None;
      }
    }

    /** IOUtils.toString(stream, UTF_8): the whole text of an open response or error stream. */
    method ReadAll(s: Stream) returns (r: Attempt<string>)
      requires s in OpenStreams(events)
      requires s == ResponseBody || (s == ErrorBody && behaviour.errorBody.Some?)
      ensures r == if s == ResponseBody then behaviour.readResponseBody else behaviour.errorBody.value
    {
      r := if s == ResponseBody then behaviour.readResponseBody else behaviour.errorBody.value;
    }

    /** IOUtils.closeQuietly(stream): closes the stream, and does nothing for null. */
    method CloseQuietly(s: Option<Stream>)
      modifies this`events
      ensures events == old(events) + (if s.Some? then [Closed(s.value)] else [])
    {
      if s.Some? {
        events := events + [Closed(s.value)];
      }
    }
  }
}
