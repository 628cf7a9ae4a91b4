// One bounded request: the body is streamed into a sink under a cap, and checked against the
// length that was declared for it.
module BoundedHttp {
  import opened Common
  import Redirects

  const CHUNK_SIZE := 65536

  // ---- What a connection yields ------------------------------------------------------------

  // What reads give: bytes, the connection failing, or http.client.IncompleteRead, which is how
  // a chunked body that is cut off or malformed ends. What such a read had of the body goes with
  // it, and it is no OSError. Bytes that are none are the end.
  datatype Arrival = Data(bytes: Bytes) | Broken | Incomplete

  /** Everything that can be read before the end or a failure. */
  function Body(arrivals: seq<Arrival>): Bytes {
    if arrivals == [] || !arrivals[0].Data? || arrivals[0].bytes == [] then []
    else arrivals[0].bytes + Body(arrivals[1..])
  }

  // How a body ends: by itself, or with what the read after it raises.
  datatype Ending = Complete | Failed(error: ReadError)
  datatype ReadError = ConnectionLost | IncompleteRead

  function EndingOf(arrivals: seq<Arrival>): Ending {
    if arrivals == [] then Complete
    else
      match arrivals[0]
      case Broken => Failed(ConnectionLost)
      case Incomplete => Failed(IncompleteRead)
      case Data(bytes) => if bytes == [] then Complete else EndingOf(arrivals[1..])
  }

  function Arriving(pieces: seq<Bytes>, ending: Ending): seq<Arrival> {
    if pieces != [] then [Data(pieces[0])] + Arriving(pieces[1..], ending)
    else
      match ending
      case Complete => []
      case Failed(ConnectionLost) => [Broken]
      case Failed(IncompleteRead) => [Incomplete]
  }

  /** However a body is cut into pieces on its way, it is that body, and ends as it does. */
  lemma {:induction false} AnyChunking(pieces: seq<Bytes>, ending: Ending)
    requires forall p :: p in pieces ==> p != []
    ensures Body(Arriving(pieces, ending)) == Join([], pieces)
    ensures EndingOf(Arriving(pieces, ending)) == ending
  {
    if pieces != [] {
      assert pieces[0] in pieces && forall p :: p in pieces[1..] ==> p in pieces;
      AnyChunking(pieces[1..], ending);
      var arrivals := Arriving(pieces, ending);
      assert arrivals[0] == Data(pieces[0]) && arrivals[1..] == Arriving(pieces[1..], ending);
      assert pieces[0] + [] == pieces[0];
    }
  }

  class Source {
    var arrivals: seq<Arrival>

    constructor (arrivals: seq<Arrival>)
      ensures this.arrivals == arrivals
    {
      this.arrivals := arrivals;
    }

    /** read(n): the next bytes, at most n of them; none at the end; or what it raises. */
    method Read(n: nat) returns (chunk: Result<Bytes, ReadError>)
      requires n > 0
      modifies this
      ensures chunk.Err? ==> old(Body(arrivals)) == [] && old(EndingOf(arrivals)) == Failed(chunk.error)
      ensures chunk.Ok? ==>
                && |chunk.value| <= n && old(Body(arrivals)) == chunk.value + Body(arrivals)
                && EndingOf(arrivals) == old(EndingOf(arrivals))
                && (chunk.value == [] ==> Body(arrivals) == [] && EndingOf(arrivals) == Complete)
    {
      if arrivals == [] {
        return Ok([]);
      }
      match arrivals[0] {
        case Broken => return Err(ConnectionLost);
        case Incomplete => return Err(IncompleteRead);
        case Data(first) =>
          if first == [] {
            return Ok([]);
          }
          if |first| <= n {
            arrivals := arrivals[1..];
            return Ok(first);
          }
          assert first[..n] + first[n..] == first;
          ghost var rest := Body(arrivals[1..]);
          assert first + rest == first[..n] + (first[n..] + rest);
          arrivals := [Data(first[n..])] + arrivals[1..];
          assert arrivals[1..] == old(arrivals)[1..];
          return Ok(first[..n]);
      }
    }
  }

  class Sink {
    var data: Bytes
    const room: nat    // how many bytes can be written before writing raises

    constructor (data: Bytes, room: nat)
      ensures this.data == data && this.room == room
    {
      this.data, this.room := data, room;
    }

    method Write(chunk: Bytes) returns (ok: bool)
      modifies this
      ensures ok == (|old(data)| + |chunk| <= room)
      ensures data == if ok then old(data) + chunk else old(data)
    {
      ok := |data| + |chunk| <= room;
      if ok {
        data := data + chunk;
      }
    }
  }

  // ---- Streaming ------------------------------------------------------------------------------

  datatype HttpError = SizeExceeded | DownloadFailed | Uncaught

  // Written are the first bytes of the body, and no more than the cap.
  ghost predicate Streamed(before: Bytes, after: Bytes, body: Bytes, cap: int, written: nat) {
    written <= |body| && after == before + body[..written] && (written > 0 ==> written <= cap)
  }

  /** The whole body is within the cap, and the sink has room for it. */
  predicate Fits(body: Bytes, cap: int, before: Bytes, room: nat) {
    body != [] ==> |body| <= cap && |before| + |body| <= room
  }

  /** What request() makes of the end of a body: it catches what is an OSError, and no other. */
  function AtEnd(ending: Ending, length: nat): Result<nat, HttpError> {
    match ending
    case Complete => Ok(length)
    case Failed(ConnectionLost) => Err(DownloadFailed)
    case Failed(IncompleteRead) => Err(Uncaught)
  }

  /** _stream_capped, its failures as they leave request(). For every way a body may arrive: if it
      is within the cap and fits, the outcome is as it ends, and all of it is in the sink. At no
      time is more there than the cap allows, or anything but the first bytes of the body; and the
      cap is exceeded only by a body that exceeds it. */
  method StreamCapped(source: Source, dest: Sink, cap: int) returns (r: Result<nat, HttpError>)
    modifies source, dest
    ensures exists n :: Streamed(old(dest.data), dest.data, old(Body(source.arrivals)), cap, n)
    ensures var body := old(Body(source.arrivals));
            && (Fits(body, cap, old(dest.data), dest.room) ==>
                  r == AtEnd(old(EndingOf(source.arrivals)), |body|) && dest.data == old(dest.data) + body)
            && (!Fits(body, cap, old(dest.data), dest.room) ==> r == Err(SizeExceeded) || r == Err(DownloadFailed))
            && (r == Err(SizeExceeded) ==> |body| > cap)
            && (|body| > cap && body != [] && |old(dest.data)| + |body| <= dest.room ==> r == Err(SizeExceeded))
  {
    ghost var body, before := Body(source.arrivals), dest.data;
    var total := 0;
    while true
      invariant total + |Body(source.arrivals)| == |body|
      invariant body[total..] == Body(source.arrivals)
      invariant EndingOf(source.arrivals) == old(EndingOf(source.arrivals))
      invariant Streamed(before, dest.data, body, cap, total)
      invariant total > 0 ==> |before| + total <= dest.room
      decreases |Body(source.arrivals)|
    {
      var chunk := source.Read(CHUNK_SIZE);
      if chunk.Err? {
        assert body[..total] == body;
        return Err(if chunk.error.IncompleteRead? then Uncaught else DownloadFailed);
      }
      if chunk.value == [] {
        assert body[..total] == body;
        return Ok(total);
      }
      var next := total + |chunk.value|;
      NextChunk(body, total, chunk.value, Body(source.arrivals));
      if next > cap {
        return Err(SizeExceeded);
      }
      var ok := dest.Write(chunk.value);
      if !ok {
        return Err(DownloadFailed);
      }
      Regroup(before, body[..total], chunk.value);
      total := next;
    }
  }

  lemma NextChunk(body: Bytes, total: nat, chunk: Bytes, rest: Bytes)
    requires total <= |body| && body[total..] == chunk + rest
    ensures total + |chunk| <= |body| && body[..total + |chunk|] == body[..total] + chunk
    ensures body[total + |chunk|..] == rest
  {
    assert body == body[..total] + (chunk + rest);
  }

  lemma Regroup(a: Bytes, b: Bytes, c: Bytes)
    ensures (a + b) + c == a + (b + c)
  {
  }

  // ---- The declared length ------------------------------------------------------------------------

  type Items = seq<(string, string)>

  /** The header map the items make: the last value of a spelling, the first of the spellings. */
  function Header(items: Items, name: string): Option<string> {
    match FirstSpelling(items, name)
    case None => None
    case Some(key) => LastValue(items, key)
  }

  function FirstSpelling(items: Items, name: string): Option<string> {
    if items == [] then None
    else if Redirects.Lower(items[0].0) == Redirects.Lower(name) then Some(items[0].0)
    else FirstSpelling(items[1..], name)
  }

  function LastValue(items: Items, key: string): Option<string> {
    if items == [] then None
    else
      var last := items[|items| - 1];
      if last.0 == key then Some(last.1) else LastValue(items[..|items| - 1], key)
  }

  predicate Spells(items: Items, name: string, i: nat)
    requires i < |items|
  {
    Redirects.Lower(items[i].0) == Redirects.Lower(name)
  }

  lemma {:induction false} FirstSpellingIs(items: Items, name: string)
    ensures FirstSpelling(items, name).None? <==> forall i :: 0 <= i < |items| ==> !Spells(items, name, i)
    ensures FirstSpelling(items, name).Some? ==>
              exists i :: 0 <= i < |items| && Spells(items, name, i) && items[i].0 == FirstSpelling(items, name).value
                          && forall j :: 0 <= j < i ==> !Spells(items, name, j)
  {
    if items != [] && !Spells(items, name, 0) {
      var rest := items[1..];
      FirstSpellingIs(rest, name);
      assert forall i :: 0 <= i < |rest| ==> (Spells(rest, name, i) <==> Spells(items, name, i + 1));
      assert forall i :: 1 <= i < |items| ==> (Spells(items, name, i) <==> Spells(rest, name, i - 1));
    }
  }

  lemma {:induction false} LastValueIs(items: Items, key: string)
    ensures LastValue(items, key).None? <==> forall it :: it in items ==> it.0 != key
    ensures LastValue(items, key).Some? ==> (key, LastValue(items, key).value) in items
  {
    if items != [] {
      var n := |items| - 1;
      LastValueIs(items[..n], key);
      assert forall it :: it in items <==> it in items[..n] || it == items[n];
    }
  }

  /** Header names are looked up in any spelling: there is a value exactly if some item's name
      differs from the one asked for in case only, and then it is such an item's value. */
  lemma HeaderIsCaseInsensitive(items: Items, name: string)
    ensures Header(items, name).Some? <==> exists i :: 0 <= i < |items| && Spells(items, name, i)
    ensures Header(items, name).Some? ==>
              exists i :: 0 <= i < |items| && Spells(items, name, i) && items[i].1 == Header(items, name).value
  {
    FirstSpellingIs(items, name);
    if FirstSpelling(items, name).Some? {
      var key := FirstSpelling(items, name).value;
      LastValueIs(items, key);
      var i :| 0 <= i < |items| && Spells(items, name, i) && items[i].0 == key;
      assert items[i] in items;
      var j :| 0 <= j < |items| && items[j] == (key, LastValue(items, key).value);
      assert Spells(items, name, j);
    }
  }

  // int(), which raises on what is no number; any function will do.
  type ReadInt = string -> Option<int>

  /** The length the response is held to: the declared one, if it is a number and within the cap. */
  function Expected(items: Items, parse: ReadInt, cap: int): Option<int> {
    match Header(items, "Content-Length")
    case None => None
    case Some(text) =>
      match parse(text)
      case None => None
      case Some(n) => if n > cap then None else Some(n)
  }

  /** _reject_if_truncated */
  predicate Truncated(items: Items, parse: ReadInt, received: nat, cap: int) {
    Expected(items, parse, cap).Some? && Expected(items, parse, cap).value != received
  }

  // ---- The request -----------------------------------------------------------------------------------

  // What opening comes to: a response, whatever its status; a chain of redirects without end; a
  // transport failure; or an exception nothing here catches.
  datatype Opened = Response(status: nat, headers: Items, body: Source) | RedirectsExhausted | NoConnection | Raises

  datatype HttpResponse = HttpResponse(status: nat, headers: Items)

  /** request(): if it returns, everything the server sent is in the sink, it is within the cap,
      and it is as long as was declared, if that was a number within the cap. It fails for
      nothing else but that, the connection, the redirects and the sink. One failure of the
      transport is not reported as such, and its condition is exact: an incomplete read of a body
      that is within the cap and fits as far as it came. */
  method SendRequest(open: Opened, dest: Sink, cap: int, parse: ReadInt) returns (r: Result<HttpResponse, HttpError>)
    modifies dest, if open.Response? then {open.body} else {}
    ensures open.RedirectsExhausted? || open.NoConnection? ==> r == Err(DownloadFailed) && dest.data == old(dest.data)
    ensures open.Raises? ==> r == Err(Uncaught) && dest.data == old(dest.data)
    ensures open.Response? ==>
              var body := old(Body(open.body.arrivals));
              && (exists n :: Streamed(old(dest.data), dest.data, body, cap, n))
              && (r.Ok? ==> && r.value == HttpResponse(open.status, open.headers)
                            && dest.data == old(dest.data) + body && (body != [] ==> |body| <= cap)
                            && (Expected(open.headers, parse, cap).Some? ==>
                                  |body| == Expected(open.headers, parse, cap).value))
              && (r.Ok? <==> && old(EndingOf(open.body.arrivals)) == Complete
                             && Fits(body, cap, old(dest.data), dest.room)
                             && !Truncated(open.headers, parse, |body|, cap))
              && (r == Err(Uncaught) <==> && old(EndingOf(open.body.arrivals)) == Failed(IncompleteRead)
                                          && Fits(body, cap, old(dest.data), dest.room))
              && (r == Err(SizeExceeded) ==> |body| > cap)
  {
    match open {
      case RedirectsExhausted => return Err(DownloadFailed);
      case NoConnection => return Err(DownloadFailed);
      case Raises => return Err(Uncaught);
      case Response(status, headers, source) =>
        var received := StreamCapped(source, dest, cap);
        if received.Err? {
          return Err(received.error);
        }
        if Truncated(headers, parse, received.value, cap) {
          return Err(DownloadFailed);
        }
        return Ok(HttpResponse(status, headers));
    }
  }
}
