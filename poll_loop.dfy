/**
 * One pass of the endless loop in `main`: announce the configured port,
 * enumerate the serial ports, and for every port whose name is the
 * configured one open it, read one buffer, extract a reading and post it.
 * The serial ports and the HTTP client are outside the model: what they do
 * is given by a `World`, and what the pass does is recorded as a trace of
 * events.
 */
module PollLoop {
  import opened Wrappers
  import opened Json
  import opened Parser
  import opened Delivery
  import opened Text

  /** The size of the buffer the serial port is read into. */
  const BufferSize: nat := 256

  /** The configuration read at start-up (`PROBE_ID`, `URL`, `TOKEN`,
      `COM_PORT`). */
  datatype Config = Config(probeId: i32, url: string, token: string, comPort: string)

  /** The serial ports and the controller, as seen from the pass: for the
      port at position `i` of the enumeration, whether opening it succeeds,
      the bytes one read delivers (none when the read fails or times out),
      and what the HTTP client returns for the reading posted from it. */
  datatype World = World(opens: nat -> bool, incoming: nat -> seq<byte>, http: nat -> HttpResult)

  /** What the pass does, in order. */
  datatype Event =
    | Waiting(port: string)
    | EnumerationFailed(message: string)
    | Found(name: string)
    | OpenAttempt(index: nat, ok: bool)
    | Read(buffer: seq<byte>)
    | Decoded(reading: TemperatureReading)
    | Undecoded(error: DecodeError)
    | Posted(request: Request, outcome: Outcome)

  // ---------------------------------------------------------------------
  // Reading into the buffer

  /** The buffer after a read: the bytes that arrived overwrite its front,
      as many as fit; the rest keeps its old contents. */
  function Overlay(buf: seq<byte>, incoming: seq<byte>): (r: seq<byte>)
    ensures |r| == |buf|
    ensures forall k :: 0 <= k < |buf| ==> r[k] == if k < |incoming| then incoming[k] else buf[k]
  {
    var n := if |incoming| < |buf| then |incoming| else |buf|;
    incoming[..n] + buf[n..]
  }

  /** `port.read(serial_buf.as_mut_slice())`. */
  method ReadInto(buf: array<byte>, incoming: seq<byte>)
    modifies buf
    ensures buf[..] == Overlay(old(buf[..]), incoming)
  {
    var n := if |incoming| < buf.Length then |incoming| else buf.Length;
    for i := 0 to n
      invariant forall k :: 0 <= k < i ==> buf[k] == incoming[k]
      invariant forall k :: i <= k < buf.Length ==> buf[k] == old(buf[k])
    {
      buf[i] := incoming[i];
    }
  }

  function Zeros(n: nat): (z: seq<byte>)
    ensures |z| == n && forall k :: 0 <= k < n ==> z[k] == 0
  {
    seq(n, _ => 0)
  }

  /** The freshly zeroed buffer after one read. */
  function Filled(incoming: seq<byte>): seq<byte> {
    Overlay(Zeros(BufferSize), incoming)
  }

  /** Bytes that fit are followed by zeros up to the buffer size. */
  lemma {:induction false} FilledPads(incoming: seq<byte>)
    requires |incoming| <= BufferSize
    ensures Filled(incoming) == incoming + Zeros(BufferSize - |incoming|)
  {
    var f := Filled(incoming);
    var g := incoming + Zeros(BufferSize - |incoming|);
    assert forall k :: 0 <= k < BufferSize ==> f[k] == g[k];
  }

  // ---------------------------------------------------------------------
  // What one pass does

  /** How a buffer is turned into a reading; the pass uses `ProcessData`.
      The lemmas below hold whatever the extraction. */
  type Extraction = seq<byte> -> Result<TemperatureReading, DecodeError>

  function RequestFor(cfg: Config, reading: TemperatureReading): Request {
    MakeRequest(reading, cfg.probeId, cfg.url, cfg.token)
  }

  /** After the buffer was read: a reading is posted, or the parse error is
      reported. */
  function Handle(cfg: Config, parsed: Result<TemperatureReading, DecodeError>, i: nat, w: World): seq<Event> {
    match parsed
    case Ok(reading) => [Decoded(reading), Posted(RequestFor(cfg, reading), Deliver(w.http(i)))]
    case Err(e) => [Undecoded(e)]
  }

  /** Opening the matching port at position `i`, then reading and handling
      one buffer if it opened. */
  function Attempt(cfg: Config, i: nat, w: World, x: Extraction): seq<Event> {
    if w.opens(i) then
      var buffer := Filled(w.incoming(i));
      [OpenAttempt(i, true), Read(buffer)] + Handle(cfg, x(buffer), i, w)
    else
      [OpenAttempt(i, false)]
  }

  /** The port at position `i`, named `name`. */
  function Visit(cfg: Config, name: string, i: nat, w: World, x: Extraction): seq<Event> {
    [Found(name)] + if name == cfg.comPort then Attempt(cfg, i, w, x) else []
  }

  /** The events of the first `n` enumerated ports. */
  function Steps(cfg: Config, ports: seq<string>, n: nat, w: World, x: Extraction): seq<Event>
    requires n <= |ports|
  {
    if n == 0 then [] else Steps(cfg, ports, n - 1, w, x) + Visit(cfg, ports[n - 1], n - 1, w, x)
  }

  /** The whole pass. A failed enumeration ends the process with its message. */
  function PassTrace(cfg: Config, ports: Result<seq<string>, string>, w: World, x: Extraction): seq<Event> {
    [Waiting(cfg.comPort)] +
      match ports
      case Err(m) => [EnumerationFailed(m)]
      case Ok(ps) => Steps(cfg, ps, |ps|, w, x)
  }

  /** The events of a port with another name. */
  lemma {:induction false} VisitOther(cfg: Config, name: string, i: nat, w: World, x: Extraction)
    requires name != cfg.comPort
    ensures Visit(cfg, name, i, w, x) == [Found(name)]
  {
    assert [Found(name)] + [] == [Found(name)];
  }

  /** The events of the matching port when it does not open. */
  lemma {:induction false} VisitClosed(cfg: Config, name: string, i: nat, w: World, x: Extraction)
    requires name == cfg.comPort && !w.opens(i)
    ensures Visit(cfg, name, i, w, x) == [Found(name), OpenAttempt(i, false)]
  {
  }

  /** The events of the matching port when it opens. */
  lemma {:induction false} VisitOpened(cfg: Config, name: string, i: nat, w: World, x: Extraction)
    requires name == cfg.comPort && w.opens(i)
    ensures Visit(cfg, name, i, w, x)
         == [Found(name), OpenAttempt(i, true), Read(Filled(w.incoming(i)))]
            + Handle(cfg, x(Filled(w.incoming(i))), i, w)
  {
  }

  /** The body of the loop in `main`, after the pause, with the buffer
      handed to `ProcessData`. */
  method LoopBody(cfg: Config, ports: Result<seq<string>, string>, w: World) returns (trace: seq<Event>)
    ensures trace == PassTrace(cfg, ports, w, ProcessData)
  {
    trace := Pass(cfg, ports, w, ProcessData);
  }

  /** One pass, with each buffer read handed to `x`. */
  method Pass(cfg: Config, ports: Result<seq<string>, string>, w: World, x: Extraction) returns (trace: seq<Event>)
    ensures trace == PassTrace(cfg, ports, w, x)
  {
    trace := [Waiting(cfg.comPort)];
    if ports.Err? {
      trace := trace + [EnumerationFailed(ports.error)];
      return;
    }
    var ps := ports.value;
    for i := 0 to |ps|
      invariant trace == [Waiting(cfg.comPort)] + Steps(cfg, ps, i, w, x)
    {
      var events := VisitPort(cfg, ps[i], i, w, x);
      trace := trace + events;
    }
    assert ps[..|ps|] == ps;
  }

  /** The body of the `for` loop: report the port, and if it has the
      configured name open it, read a fresh buffer and handle it. */
  method VisitPort(cfg: Config, name: string, i: nat, w: World, x: Extraction) returns (events: seq<Event>)
    ensures events == Visit(cfg, name, i, w, x)
  {
    events := [Found(name)];
    if name == cfg.comPort {
      var ok := w.opens(i);
      events := events + [OpenAttempt(i, ok)];
      if ok {
        var buf := new byte[BufferSize](_ => 0);
        assert buf[..] == Zeros(BufferSize);
        ReadInto(buf, w.incoming(i));
        var buffer := buf[..];
        events := events + [Read(buffer)];
        var parsed := x(buffer);
        if parsed.Ok? {
          var reading := parsed.value;
          events := events + [Decoded(reading)];
          var outcome := Deliver(w.http(i));
          events := events + [Posted(RequestFor(cfg, reading), outcome)];
        } else {
          events := events + [Undecoded(parsed.error)];
        }
        VisitOpened(cfg, name, i, w, x);
      } else {
        VisitClosed(cfg, name, i, w, x);
      }
    } else {
      VisitOther(cfg, name, i, w, x);
    }
  }

  // ---------------------------------------------------------------------
  // Which ports are opened

  /** The positions of the ports named `port` among the first `n`, in
      enumeration order. */
  function Matching(ps: seq<string>, port: string, n: nat): (m: seq<nat>)
    requires n <= |ps|
    ensures forall k: nat :: k in m <==> k < n && ps[k] == port
    ensures forall a, b :: 0 <= a < b < |m| ==> m[a] < m[b]
    ensures forall a :: 0 <= a < |m| ==> m[a] < n
  {
    if n == 0 then []
    else
      var m := Matching(ps, port, n - 1);
      if ps[n - 1] == port then
        assert forall k: nat :: k in m + [n - 1] <==> k in m || k == n - 1;
        m + [n - 1]
      else
        m
  }

  /** The positions named by the open attempts of a trace, in order. */
  function OpenIndices(t: seq<Event>): seq<nat> {
    if t == [] then []
    else (if t[0].OpenAttempt? then [t[0].index] else []) + OpenIndices(t[1..])
  }

  lemma {:induction false} OpenIndicesAppend(a: seq<Event>, b: seq<Event>)
    ensures OpenIndices(a + b) == OpenIndices(a) + OpenIndices(b)
    decreases |a|
  {
    if a != [] {
      assert (a + b)[1..] == a[1..] + b;
      OpenIndicesAppend(a[1..], b);
    } else {
      assert a + b == b;
    }
  }

  /** Events other than open attempts name no position. */
  lemma {:induction false} OpenIndicesNone(t: seq<Event>)
    requires forall k :: 0 <= k < |t| ==> !t[k].OpenAttempt?
    ensures OpenIndices(t) == []
    decreases |t|
  {
    if t != [] {
      OpenIndicesNone(t[1..]);
    }
  }

  lemma {:induction false} VisitOpens(cfg: Config, name: string, i: nat, w: World, x: Extraction)
    ensures OpenIndices(Visit(cfg, name, i, w, x)) == if name == cfg.comPort then [i] else []
  {
    var v := Visit(cfg, name, i, w, x);
    if name != cfg.comPort {
      VisitOther(cfg, name, i, w, x);
      OpenIndicesNone(v);
    } else {
      var rest := if w.opens(i) then [Read(Filled(w.incoming(i)))] + Handle(cfg, x(Filled(w.incoming(i))), i, w) else [];
      if w.opens(i) {
        VisitOpened(cfg, name, i, w, x);
      } else {
        VisitClosed(cfg, name, i, w, x);
      }
      assert v == [Found(name), OpenAttempt(i, w.opens(i))] + rest;
      OpenIndicesAppend([Found(name), OpenAttempt(i, w.opens(i))], rest);
      OpenIndicesNone(rest);
      assert OpenIndices([Found(name), OpenAttempt(i, w.opens(i))]) == [i] by {
        assert [Found(name), OpenAttempt(i, w.opens(i))][1..] == [OpenAttempt(i, w.opens(i))];
        assert [OpenAttempt(i, w.opens(i))][1..] == [];
      }
    }
  }

  /** An open is attempted once for each port whose name is the configured
      one, in enumeration order, and for no other. */
  lemma {:induction false} OpensFollowMatches(cfg: Config, ps: seq<string>, n: nat, w: World, x: Extraction)
    requires n <= |ps|
    ensures OpenIndices(Steps(cfg, ps, n, w, x)) == Matching(ps, cfg.comPort, n)
  {
    if n > 0 {
      OpensFollowMatches(cfg, ps, n - 1, w, x);
      OpenIndicesAppend(Steps(cfg, ps, n - 1, w, x), Visit(cfg, ps[n - 1], n - 1, w, x));
      VisitOpens(cfg, ps[n - 1], n - 1, w, x);
    }
  }

  /** The same for the whole pass. */
  lemma {:induction false} PassOpensFollowMatches(cfg: Config, ps: seq<string>, w: World, x: Extraction)
    ensures OpenIndices(PassTrace(cfg, Ok(ps), w, x)) == Matching(ps, cfg.comPort, |ps|)
  {
    OpenIndicesAppend([Waiting(cfg.comPort)], Steps(cfg, ps, |ps|, w, x));
    OpenIndicesNone([Waiting(cfg.comPort)]);
    OpensFollowMatches(cfg, ps, |ps|, w, x);
  }

  /** When no port has the configured name, the pass only reports the ports
      it found: nothing is opened, read or posted. */
  lemma {:induction false} NoMatchOnlyFinds(cfg: Config, ps: seq<string>, n: nat, w: World, x: Extraction)
    requires n <= |ps|
    requires forall k :: 0 <= k < |ps| ==> ps[k] != cfg.comPort
    ensures Steps(cfg, ps, n, w, x) == seq(n, k requires 0 <= k < n => Found(ps[k]))
  {
    if n > 0 {
      NoMatchOnlyFinds(cfg, ps, n - 1, w, x);
      VisitOther(cfg, ps[n - 1], n - 1, w, x);
    }
  }

  // ---------------------------------------------------------------------
  // When a reading is posted

  /** The event at `j` is a post that directly follows a successful open,
      the read of a buffer and the reading extracted from that buffer; what
      is posted is the request for that reading, and its outcome is what the
      client returned for that port. */
  ghost predicate PostJustifiedAt(cfg: Config, w: World, x: Extraction, t: seq<Event>, j: int)
    requires 0 <= j < |t| && t[j].Posted?
  {
    && 3 <= j
    && t[j - 3].OpenAttempt? && t[j - 3].ok
    && t[j - 2].Read? && t[j - 1].Decoded?
    && x(t[j - 2].buffer) == Ok(t[j - 1].reading)
    && t[j].request == RequestFor(cfg, t[j - 1].reading)
    && t[j].outcome == Deliver(w.http(t[j - 3].index))
  }

  /** Every read directly follows a successful open, and every post is
      justified as above. */
  ghost predicate PostsJustified(cfg: Config, w: World, x: Extraction, t: seq<Event>) {
    && (forall j :: 0 <= j < |t| && t[j].Read? ==> 1 <= j && t[j - 1].OpenAttempt? && t[j - 1].ok)
    && (forall j :: 0 <= j < |t| && t[j].Posted? ==> PostJustifiedAt(cfg, w, x, t, j))
  }

  lemma {:induction false} JustifiedAppend(cfg: Config, w: World, x: Extraction, a: seq<Event>, b: seq<Event>)
    requires PostsJustified(cfg, w, x, a) && PostsJustified(cfg, w, x, b)
    ensures PostsJustified(cfg, w, x, a + b)
  {
    var t := a + b;
    forall j | 0 <= j < |t| && t[j].Read?
      ensures 1 <= j && t[j - 1].OpenAttempt? && t[j - 1].ok
    {
      if j >= |a| {
        assert t[j] == b[j - |a|];
        assert t[j - 1] == b[j - |a| - 1];
      }
    }
    forall j | 0 <= j < |t| && t[j].Posted?
      ensures PostJustifiedAt(cfg, w, x, t, j)
    {
      if j >= |a| {
        var i := j - |a|;
        assert t[j] == b[i];
        assert PostJustifiedAt(cfg, w, x, b, i);
        assert t[j - 1] == b[i - 1] && t[j - 2] == b[i - 2] && t[j - 3] == b[i - 3];
      } else {
        assert PostJustifiedAt(cfg, w, x, a, j);
      }
    }
  }

  lemma {:induction false} VisitJustified(cfg: Config, name: string, i: nat, w: World, x: Extraction)
    ensures PostsJustified(cfg, w, x, Visit(cfg, name, i, w, x))
  {
    var v := Visit(cfg, name, i, w, x);
    if name == cfg.comPort && w.opens(i) {
      VisitOpened(cfg, name, i, w, x);
      var buffer := Filled(w.incoming(i));
      if x(buffer).Ok? {
        var r := x(buffer).value;
        assert v == [Found(name), OpenAttempt(i, true), Read(buffer), Decoded(r), Posted(RequestFor(cfg, r), Deliver(w.http(i)))];
        assert PostJustifiedAt(cfg, w, x, v, 4);
      } else {
        assert v == [Found(name), OpenAttempt(i, true), Read(buffer), Undecoded(x(buffer).error)];
      }
    } else if name == cfg.comPort {
      VisitClosed(cfg, name, i, w, x);
    } else {
      VisitOther(cfg, name, i, w, x);
    }
  }

  /** A reading is posted only after the port opened and the buffer read
      from it gave that reading. */
  lemma {:induction false} StepsJustified(cfg: Config, ps: seq<string>, n: nat, w: World, x: Extraction)
    requires n <= |ps|
    ensures PostsJustified(cfg, w, x, Steps(cfg, ps, n, w, x))
  {
    if n > 0 {
      StepsJustified(cfg, ps, n - 1, w, x);
      VisitJustified(cfg, ps[n - 1], n - 1, w, x);
      JustifiedAppend(cfg, w, x, Steps(cfg, ps, n - 1, w, x), Visit(cfg, ps[n - 1], n - 1, w, x));
    }
  }

  /** The same for the whole pass. */
  lemma {:induction false} PassJustified(cfg: Config, ports: Result<seq<string>, string>, w: World, x: Extraction)
    ensures PostsJustified(cfg, w, x, PassTrace(cfg, ports, w, x))
  {
    var first: seq<Event> := [Waiting(cfg.comPort)];
    assert PostsJustified(cfg, w, x, first);
    match ports {
      case Err(m) =>
        assert PassTrace(cfg, ports, w, x) == [Waiting(cfg.comPort), EnumerationFailed(m)];
      case Ok(ps) =>
        StepsJustified(cfg, ps, |ps|, w, x);
        JustifiedAppend(cfg, w, x, first, Steps(cfg, ps, |ps|, w, x));
    }
  }

  // ---------------------------------------------------------------------
  // How often a reading is posted

  function CountPosts(t: seq<Event>): nat {
    if t == [] then 0 else (if t[0].Posted? then 1 else 0) + CountPosts(t[1..])
  }

  function CountOpened(t: seq<Event>): nat {
    if t == [] then 0 else (if t[0].OpenAttempt? && t[0].ok then 1 else 0) + CountOpened(t[1..])
  }

  lemma {:induction false} CountsAppend(a: seq<Event>, b: seq<Event>)
    ensures CountPosts(a + b) == CountPosts(a) + CountPosts(b)
    ensures CountOpened(a + b) == CountOpened(a) + CountOpened(b)
    decreases |a|
  {
    if a != [] {
      assert (a + b)[1..] == a[1..] + b;
      CountsAppend(a[1..], b);
    } else {
      assert a + b == b;
    }
  }

  lemma {:induction false} CountsOfOne(e: Event)
    ensures CountPosts([e]) == if e.Posted? then 1 else 0
    ensures CountOpened([e]) == if e.OpenAttempt? && e.ok then 1 else 0
  {
    assert [e][1..] == [];
  }

  /** A trace without posts counts none. */
  lemma {:induction false} CountPostsNone(t: seq<Event>)
    requires forall k :: 0 <= k < |t| ==> !t[k].Posted?
    ensures CountPosts(t) == 0
    decreases |t|
  {
    if t != [] {
      CountPostsNone(t[1..]);
    }
  }

  /** Each port yields at most one post, only when it opened, and it opens
      only when it matches. */
  lemma {:induction false} VisitCounts(cfg: Config, name: string, i: nat, w: World, x: Extraction)
    ensures CountPosts(Visit(cfg, name, i, w, x)) <= CountOpened(Visit(cfg, name, i, w, x))
    ensures CountOpened(Visit(cfg, name, i, w, x)) <= if name == cfg.comPort then 1 else 0
  {
    var v := Visit(cfg, name, i, w, x);
    if name == cfg.comPort && w.opens(i) {
      VisitOpened(cfg, name, i, w, x);
      var buffer := Filled(w.incoming(i));
      var h := Handle(cfg, x(buffer), i, w);
      var front := [Found(name), OpenAttempt(i, true), Read(buffer)];
      CountsAppend(front, h);
      assert CountPosts(front) == 0 && CountOpened(front) == 1 by {
        CountsAppend([Found(name), OpenAttempt(i, true)], [Read(buffer)]);
        CountsAppend([Found(name)], [OpenAttempt(i, true)]);
        assert [Found(name)] + [OpenAttempt(i, true)] + [Read(buffer)] == front;
        CountsOfOne(Found(name));
        CountsOfOne(OpenAttempt(i, true));
        CountsOfOne(Read(buffer));
      }
      if x(buffer).Ok? {
        assert h[1..][1..] == [];
      } else {
        assert h[1..] == [];
      }
    } else if name == cfg.comPort {
      VisitClosed(cfg, name, i, w, x);
      assert v[1..][1..] == [];
    } else {
      VisitOther(cfg, name, i, w, x);
      assert v[1..] == [];
    }
  }

  /** A pass posts at most once per port it opened, and opens each matching
      port at most once: nothing is retried. */
  lemma {:induction false} PostsAtMostOpens(cfg: Config, ps: seq<string>, n: nat, w: World, x: Extraction)
    requires n <= |ps|
    ensures CountPosts(Steps(cfg, ps, n, w, x)) <= CountOpened(Steps(cfg, ps, n, w, x))
    ensures CountOpened(Steps(cfg, ps, n, w, x)) <= |Matching(ps, cfg.comPort, n)|
  {
    if n > 0 {
      var prev := Steps(cfg, ps, n - 1, w, x);
      var v := Visit(cfg, ps[n - 1], n - 1, w, x);
      PostsAtMostOpens(cfg, ps, n - 1, w, x);
      CountsAppend(prev, v);
      VisitCounts(cfg, ps[n - 1], n - 1, w, x);
      assert |Matching(ps, cfg.comPort, n)|
          == |Matching(ps, cfg.comPort, n - 1)| + if ps[n - 1] == cfg.comPort then 1 else 0;
    }
  }

  // ---------------------------------------------------------------------
  // Scenarios

  /** A pass over the configured port alone, when that port does not open,
      yields only its discovery and the failed open: nothing is read or
      posted. */
  lemma {:induction false} OpenFailureStops(cfg: Config, ps: seq<string>, w: World)
    requires ps == [cfg.comPort] && !w.opens(0)
    ensures PassTrace(cfg, Ok(ps), w, ProcessData) == [Waiting(cfg.comPort), Found(cfg.comPort), OpenAttempt(0, false)]
  {
    VisitClosed(cfg, cfg.comPort, 0, w, ProcessData);
    assert Steps(cfg, ps, 0, w, ProcessData) == [];
  }

  /** A pass over the configured port alone, when it opens and the buffer
      gives a reading. */
  lemma {:induction false} SinglePortPass(cfg: Config, w: World, x: Extraction, r: TemperatureReading)
    requires w.opens(0) && x(Filled(w.incoming(0))) == Ok(r)
    ensures PassTrace(cfg, Ok([cfg.comPort]), w, x) ==
      [ Waiting(cfg.comPort), Found(cfg.comPort), OpenAttempt(0, true), Read(Filled(w.incoming(0))),
        Decoded(r), Posted(RequestFor(cfg, r), Deliver(w.http(0))) ]
  {
    var ps := [cfg.comPort];
    VisitOpened(cfg, cfg.comPort, 0, w, x);
    assert Steps(cfg, ps, 0, w, x) == [];
  }

  /** The device sends a banner line, the reading and two NULs; the reading
      is posted as `{"id": probeId, "temp": 22}`. */
  lemma {:induction false} BannerScenario(cfg: Config, w: World, text: string)
    requires w.opens(0)
    requires w.incoming(0) == AsciiBytes("BANNER") + [13, 10] + AsciiBytes(Encode(TemperatureReading(45, 22))) + [0, 0]
    requires w.http(0) == Response(200, text)
    ensures PassTrace(cfg, Ok([cfg.comPort]), w, ProcessData) ==
      [ Waiting(cfg.comPort), Found(cfg.comPort), OpenAttempt(0, true), Read(Filled(w.incoming(0))),
        Decoded(TemperatureReading(45, 22)),
        Posted(Request(cfg.url, cfg.token, map["id" := cfg.probeId, "temp" := 22]), Delivered) ]
  {
    var r := TemperatureReading(45, 22);
    assert ProcessData(Filled(w.incoming(0))) == Ok(r) by {
      BannerBufferExtracted(w.incoming(0));
    }
    SinglePortPass(cfg, w, ProcessData, r);
    BodyIsIdAndTemp(r, cfg.probeId);
  }

  lemma {:induction false} BannerBufferExtracted(incoming: seq<byte>)
    requires incoming == AsciiBytes("BANNER") + [13, 10] + AsciiBytes(Encode(TemperatureReading(45, 22))) + [0, 0]
    ensures ProcessData(Filled(incoming)) == Ok(TemperatureReading(45, 22))
  {
    var r := TemperatureReading(45, 22);
    var banner := AsciiBytes("BANNER");
    var tail := [0, 0] + Zeros(BufferSize - |incoming|);
    FilledPads(incoming);
    assert Filled(incoming) == banner + [13, 10] + AsciiBytes(Encode(r)) + tail;
    assert !ContainsCrlf(Lossy(banner)) by {
      assert Lossy(banner) == "BANNER";
      assert forall k :: 0 <= k < 6 ==> "BANNER"[k] != '\r';
    }
    assert AllPadding(tail);
    FramedReadingExtracted(banner, r, tail);
  }

  /** The controller answers 500: the outcome is a server rejection and the
      reading is posted once. */
  lemma {:induction false} ServerErrorScenario(cfg: Config, w: World, x: Extraction, text: string, r: TemperatureReading)
    requires w.opens(0)
    requires x(Filled(w.incoming(0))) == Ok(r)
    requires w.http(0) == Response(500, text)
    ensures PassTrace(cfg, Ok([cfg.comPort]), w, x)[5] == Posted(RequestFor(cfg, r), ServerRejected)
    ensures CountPosts(PassTrace(cfg, Ok([cfg.comPort]), w, x)) == 1
  {
    SinglePortPass(cfg, w, x, r);
    var t := PassTrace(cfg, Ok([cfg.comPort]), w, x);
    assert t == t[..5] + [t[5]];
    CountPostsNone(t[..5]);
    CountsAppend(t[..5], [t[5]]);
    CountsOfOne(t[5]);
  }
}
