/**
 * The per-connection handler of the TCP ingest server (`handle_client`): one read of at
 * most 1024 bytes, a log line, the acknowledgement, closing the socket, parsing the bytes
 * as JSON and inserting the document into the readings collection.
 */
module Ingest {
  import opened Wrappers
  import opened Utf8
  import opened Documents
  import Query

  /** The buffer size passed to `recv`. */
  const RecvBufSize := 1024

  /** The text sent back to every client whose message decodes. */
  const AckMessage: string := "Temperature storage has received the package!"

  /** Every effect a handler has outside its own thread, in the order it can have them. */
  datatype Event =
    | Recv(request: seq<Byte>)     // client_socket.recv(1024) returned `request`
    | LogReceived(text: string)    // print of the decoded request
    | SendAck(message: string)     // client_socket.send(message.encode('utf-8'))
    | Close                        // client_socket.close()
    | Insert(doc: Record)          // readings_collection.insert_one(...) is called
    | LogStored                    // print after the insert returned

  /**
   * Where a handler thread ends early: `UnicodeDecodeError` is raised by the decode before
   * the ack; `ParseError` is whatever `json.loads` raises (its own encoding detection can
   * raise a `UnicodeDecodeError` too); `StoreError` is whatever `insert_one` raises.
   */
  datatype Exception = UnicodeDecodeError | ParseError | StoreError

  datatype Outcome = Completed | Raised(exception: Exception)

  /** The position of each kind of event in the handler's fixed order. */
  function Rank(e: Event): nat {
    match e
    case Recv(_) => 0
    case LogReceived(_) => 1
    case SendAck(_) => 2
    case Close => 3
    case Insert(_) => 4
    case LogStored => 5
  }

  function Min(a: int, b: int): int {
    if a < b then a else b
  }

  /**
   * `client_socket.recv(1024)`: a single read of the bytes `peer` sent. `delivered` is how
   * many of them had arrived when the read returned; the read waits for at least one byte
   * unless the peer sent nothing, so when the peer sent anything 0 is read as 1. It never
   * returns more than the buffer size.
   */
  function Received(peer: seq<Byte>, delivered: nat): (request: seq<Byte>)
    ensures request <= peer
    ensures |request| <= RecvBufSize
    ensures peer != [] ==> request != []
    ensures delivered >= |peer| ==> |request| == Min(|peer|, RecvBufSize)
    ensures 0 < delivered <= |peer| ==> |request| == Min(delivered, RecvBufSize)
  {
    var n := Min(Min(|peer|, RecvBufSize), if delivered == 0 then 1 else delivered);
    peer[..n]
  }

  /** `insert_one` gives a document without `_id` the new ObjectId `oid` and stores it. */
  function WithId(doc: Record, oid: nat): (stored: Record)
    ensures IdField in stored
    ensures IdField in doc ==> stored == doc
    ensures IdField !in doc ==> stored[IdField] == ObjectId(oid)
    ensures forall k :: k != IdField ==> (k in stored <==> k in doc)
    ensures forall k :: k in doc && k != IdField ==> stored[k] == doc[k]
  {
    if IdField in doc then doc else doc[IdField := ObjectId(oid)]
  }

  /**
   * The six effects of a connection that goes well, in the order of the handler's lines.
   * A field that only a later step could fill in is a placeholder; `Trace` cuts it off.
   */
  function Effects(request: seq<Byte>, parse: seq<Byte> -> Option<Record>): (e: seq<Event>)
    ensures |e| == 6 && e[0] == Recv(request) && e[2] == SendAck(AckMessage) && e[3] == Close
  {
    [ Recv(request), LogReceived(Decode(request).GetOr("")), SendAck(AckMessage), Close,
      Insert(parse(request).GetOr(map[])), LogStored ]
  }

  /** How many of those effects happen before the thread ends. */
  function Progress(request: seq<Byte>, parse: seq<Byte> -> Option<Record>, storeOk: bool): (n: nat)
    ensures n == 1 || n == 4 || n == 5 || n == 6
    ensures n == 1 <==> Decode(request).None?
  {
    if Decode(request).None? then 1       // request.decode('utf-8') raises
    else if parse(request).None? then 4   // json.loads(request) raises
    else if !storeOk then 5               // insert_one raises
    else 6
  }

  /** The effects of one connection: the fixed order, truncated where an exception is raised. */
  function Trace(request: seq<Byte>, parse: seq<Byte> -> Option<Record>, storeOk: bool): (t: seq<Event>)
    ensures t != [] && t[0] == Recv(request) && t <= Effects(request, parse)
  {
    Effects(request, parse)[..Progress(request, parse, storeOk)]
  }

  /** How the thread ends: normally after the last effect, or with the exception of the step that failed. */
  function OutcomeOf(request: seq<Byte>, parse: seq<Byte> -> Option<Record>, storeOk: bool): (o: Outcome)
    ensures o == Completed <==> |Trace(request, parse, storeOk)| == 6
    ensures o == Raised(UnicodeDecodeError) <==> Decode(request).None?
    ensures o == Raised(ParseError) <==> Decode(request).Some? && parse(request).None?
    ensures o == Raised(StoreError) <==> Decode(request).Some? && parse(request).Some? && !storeOk
  {
    match Progress(request, parse, storeOk)
    case 1 => Raised(UnicodeDecodeError)
    case 4 => Raised(ParseError)
    case 5 => Raised(StoreError)
    case _ => Completed
  }

  /** The documents one connection adds to the readings collection. */
  function StoredBy(request: seq<Byte>, parse: seq<Byte> -> Option<Record>, storeOk: bool, oid: nat): (s: seq<Record>)
    ensures |s| <= 1
    ensures s != [] <==> Decode(request).Some? && parse(request).Some? && storeOk
    ensures s != [] ==> s[0] == WithId(parse(request).value, oid)
  {
    if Progress(request, parse, storeOk) == 6 then [WithId(parse(request).value, oid)] else []
  }

  /**
   * What one handler thread changes: the effects it has (socket, log, store calls) and the
   * readings collection. JSON parsing and whether the store accepts the insert are inputs.
   */
  class Handler {
    var trace: seq<Event>
    var readings: seq<Record>

    constructor (initial: seq<Record>)
      ensures trace == [] && readings == initial
    {
      trace := [];
      readings := initial;
    }

    /** `handle_client(client_socket)` for a peer that sends `peer`. */
    method HandleClient(peer: seq<Byte>, delivered: nat, parse: seq<Byte> -> Option<Record>,
                        storeOk: bool, oid: nat) returns (outcome: Outcome)
      modifies this
      ensures var request := Received(peer, delivered);
        && trace == old(trace) + Trace(request, parse, storeOk)
        && readings == old(readings) + StoredBy(request, parse, storeOk, oid)
        && outcome == OutcomeOf(request, parse, storeOk)
    {
      var request := Received(peer, delivered);
      trace := trace + [Recv(request)];
      var text := Decode(request);
      if text.None? {
        return Raised(UnicodeDecodeError);
      }
      trace := trace + [LogReceived(text.value)];
      var returnMessage := AckMessage;
      trace := trace + [SendAck(returnMessage)];
      trace := trace + [Close];
      var doc := parse(request);
      if doc.None? {
        assert trace == old(trace) + Effects(request, parse)[..4];
        return Raised(ParseError);
      }
      trace := trace + [Insert(doc.value)];
      if !storeOk {
        assert trace == old(trace) + Effects(request, parse)[..5];
        return Raised(StoreError);
      }
      readings := readings + [WithId(doc.value, oid)];
      trace := trace + [LogStored];
      outcome := Completed;
    }
  }

  /** The events of a connection come in the handler's fixed order, each kind at most once. */
  lemma TraceOrder(request: seq<Byte>, parse: seq<Byte> -> Option<Record>, storeOk: bool)
    ensures var t := Trace(request, parse, storeOk);
      && t != [] && t[0] == Recv(request)
      && (forall i :: 0 <= i < |t| ==> Rank(t[i]) == i)
      && (forall i, j :: 0 <= i < j < |t| ==> Rank(t[i]) < Rank(t[j]))
  {
  }

  /** The acknowledgement is sent, and the socket closed, exactly when the request decodes. */
  lemma AckIffDecodes(request: seq<Byte>, parse: seq<Byte> -> Option<Record>, storeOk: bool)
    ensures SendAck(AckMessage) in Trace(request, parse, storeOk) <==> Decode(request).Some?
    ensures Close in Trace(request, parse, storeOk) <==> Decode(request).Some?
    ensures forall e :: e in Trace(request, parse, storeOk) && e.SendAck? ==> e.message == AckMessage
  {
    var t := Trace(request, parse, storeOk);
    if Decode(request).Some? {
      assert t[2] == SendAck(AckMessage) && t[3] == Close;
    }
  }

  /** A request that does not decode ends the thread at the decode: no ack, no close, nothing stored. */
  lemma DecodeFailureAborts(request: seq<Byte>, parse: seq<Byte> -> Option<Record>, storeOk: bool, oid: nat)
    requires Decode(request).None?
    ensures Trace(request, parse, storeOk) == [Recv(request)]
    ensures OutcomeOf(request, parse, storeOk) == Raised(UnicodeDecodeError)
    ensures StoredBy(request, parse, storeOk, oid) == []
  {
  }

  /**
   * A UTF-8 message cut inside a multi-byte character by the single read (the 1024-byte
   * limit, or a short first segment) is treated as undecodable: the client never gets the ack.
   */
  lemma CutMessageGetsNoAck(text: string, delivered: nat, parse: seq<Byte> -> Option<Record>, storeOk: bool)
    requires forall j :: 0 <= j <= |text| ==> |Encode(text[..j])| != |Received(Encode(text), delivered)|
    ensures var request := Received(Encode(text), delivered);
      Trace(request, parse, storeOk) == [Recv(request)]
  {
    var peer := Encode(text);
    var request := Received(peer, delivered);
    assert request == peer[..|request|];
    TruncatedDecode(text, |request|);
  }

  /** A message of at most 1024 bytes that has fully arrived is read whole and logged as sent. */
  lemma WholeMessageIsLogged(text: string, delivered: nat, parse: seq<Byte> -> Option<Record>, storeOk: bool)
    requires |Encode(text)| <= RecvBufSize && delivered >= |Encode(text)|
    ensures Received(Encode(text), delivered) == Encode(text)
    ensures var t := Trace(Encode(text), parse, storeOk);
      |t| >= 4 && t[1] == LogReceived(text) && t[2] == SendAck(AckMessage)
  {
    var b := Encode(text);
    assert Received(b, delivered) == b[..|b|] == b;
    DecodeEncode(text);
    assert Decode(b).GetOr("") == text;
    assert Progress(b, parse, storeOk) >= 4;
    assert Effects(b, parse)[1] == LogReceived(text);
  }

  /** An insert is attempted exactly when the request decodes and parses, and it is of the parse result. */
  lemma InsertIffParsed(request: seq<Byte>, parse: seq<Byte> -> Option<Record>, storeOk: bool)
    ensures (exists d :: Insert(d) in Trace(request, parse, storeOk))
            <==> Decode(request).Some? && parse(request).Some?
    ensures forall d :: Insert(d) in Trace(request, parse, storeOk) ==> parse(request) == Some(d)
  {
    var t := Trace(request, parse, storeOk);
    if Decode(request).Some? && parse(request).Some? {
      assert t[4] == Insert(parse(request).value);
    }
    forall d | Insert(d) in t ensures parse(request) == Some(d) {
      var i :| 0 <= i < |t| && t[i] == Insert(d);
      assert i == 4;
    }
  }

  /** A document is stored exactly when "Reading stored" is logged, and it is the parsed document. */
  lemma StoredIffLogged(request: seq<Byte>, parse: seq<Byte> -> Option<Record>, storeOk: bool, oid: nat)
    ensures |StoredBy(request, parse, storeOk, oid)| <= 1
    ensures StoredBy(request, parse, storeOk, oid) != [] <==> LogStored in Trace(request, parse, storeOk)
    ensures StoredBy(request, parse, storeOk, oid) != [] <==>
      Decode(request).Some? && parse(request).Some? && storeOk
    ensures StoredBy(request, parse, storeOk, oid) != [] ==>
      StoredBy(request, parse, storeOk, oid)[0] == WithId(parse(request).value, oid)
  {
    var t := Trace(request, parse, storeOk);
    TraceOrder(request, parse, storeOk);
    if LogStored in t {
      var i :| 0 <= i < |t| && t[i] == LogStored;
      assert Rank(t[i]) == i == 5;
    }
    if Progress(request, parse, storeOk) == 6 {
      assert t[5] == LogStored;
    }
  }

  /**
   * A decodable, parseable request whose insert succeeds: all six effects in order, the
   * acknowledgement before anything is stored, and one new reading.
   */
  lemma SuccessfulConnection(request: seq<Byte>, parse: seq<Byte> -> Option<Record>, oid: nat, text: string, doc: Record)
    requires Decode(request) == Some(text) && parse(request) == Some(doc)
    ensures Trace(request, parse, true)
      == [Recv(request), LogReceived(text), SendAck(AckMessage), Close, Insert(doc), LogStored]
    ensures OutcomeOf(request, parse, true) == Completed
    ensures StoredBy(request, parse, true, oid) == [WithId(doc, oid)]
  {
  }

  /**
   * A temperature reading ingested with a timestamp no stored temperature reading exceeds
   * is what the query endpoints serve next: rendered, and without the `_id` the store gave it.
   */
  lemma IngestedNewestIsServed(store: seq<Record>, request: seq<Byte>, parse: seq<Byte> -> Option<Record>,
                               oid: nat, render: int -> string, doc: Record)
    requires Decode(request).Some? && parse(request) == Some(doc)
    requires IsOfType(doc, Temperature) && HasIntTimestamp(doc)
    requires forall r :: r in store && IsOfType(r, Temperature) ==>
      HasIntTimestamp(r) && Timestamp(r) <= Timestamp(doc)
    ensures Query.LatestReading(store + StoredBy(request, parse, true, oid), render)
            == Ok(Query.Projected(WithId(doc, oid), render))
  {
    var stored := WithId(doc, oid);
    assert StoredBy(request, parse, true, oid) == [stored];
    assert stored[SensorTypeField] == doc[SensorTypeField] && stored[TimestampField] == doc[TimestampField];
    Query.StoredNewestIsServed(store, stored, render);
  }
}
