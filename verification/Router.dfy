/** Routes from process data objects to MQTT topics (app/comm/router.c). */
module Router {
  import opened Bytes
  import opened Mqtt

  const MAX_ROUTES := 128
  const MAX_DATA := 8
  const MAX_TOPIC := 38

  type Data = d: seq<Byte> | |d| == MAX_DATA witness Zeros(MAX_DATA)

  datatype Route = Route(
    isMqttToPdo: bool, data: Data, dataPrev: Data, type_: nat, topic: seq<Byte>, canId: Byte, pdoN: Byte,
    offset: nat, interval: int, lastPubTd: U32, qos: Byte, retain: Byte, flagNewMsg: bool)

  const BLANK := Route(false, Zeros(MAX_DATA), Zeros(MAX_DATA), 0, [], 0, 0, 0, 0, 0, 0, 0, false)

  /** A `key=value` pair, after `atoi` and the data type lookup; None is an unknown type. */
  datatype Pair =
    | Id(id: int)
    | Off(off: int)
    | Pdo(pdo: int)
    | Retain
    | Qos(qos: int)
    | Interval(ms: int)
    | Topic(name: seq<Byte>)
    | Type(index: Option<Byte>)
    | IsCmd
    | Unknown

  datatype Parse = Parse(route: Route, error: int)

  function CutTopic(name: seq<Byte>): seq<Byte> {
    if |name| > MAX_TOPIC then name[..MAX_TOPIC] else name
  }

  function ApplyField(r: Route, f: Pair): Parse {
    match f
    case Id(id) => Parse(r.(canId := id % 0x100), if id <= 1 || id > 127 then -3 else 0)
    case Off(off) => Parse(r.(offset := off % 0x100), if off < 0 || off > 7 then -4 else 0)
    case Pdo(pdo) => Parse(r.(pdoN := pdo % 0x100), if pdo < 0 || pdo > 3 then -5 else 0)
    case Retain => Parse(r.(retain := 1), 0)
    case Qos(qos) => Parse(r.(qos := qos % 0x100), if qos < 0 || qos > 2 then -6 else 0)
    case Interval(ms) => Parse(r.(interval := ms), 0)
    case Topic(name) => Parse(r.(topic := CutTopic(name)), 0)
    case Type(index) => if index == None then Parse(r, -7) else Parse(r.(type_ := index.value), 0)
    case IsCmd => Parse(r.(isMqttToPdo := true), 0)
    case Unknown => Parse(r, -2)
  }

  /** A route as a user may ask for it. */
  ghost predicate WellFormed(r: Route, lens: seq<nat>) {
    && 0 < r.type_ < |lens| && r.offset + lens[r.type_] <= MAX_DATA
    && (r.canId == 0 || 1 < r.canId <= 127) && r.pdoN <= 3 && r.qos <= 2 && |r.topic| <= MAX_TOPIC
  }

  function PayloadOf(r: Route, lens: seq<nat>): seq<Byte>
    requires WellFormed(r, lens)
  {
    r.data[..lens[r.type_]]
  }

  // ----- What the queue accepted -----

  /** The payload of the last accepted message on a topic. */
  function LastOn(msgs: seq<Msg>, topic: seq<Byte>): Option<seq<Byte>> {
    if msgs == [] then None
    else if msgs[|msgs| - 1].topic == topic then Some(msgs[|msgs| - 1].payload)
    else LastOn(msgs[..|msgs| - 1], topic)
  }

  lemma LastOnMore(msgs: seq<Msg>, m: Msg, topic: seq<Byte>)
    ensures LastOn(msgs + [m], topic) == if m.topic == topic then Some(m.payload) else LastOn(msgs, topic)
  {
    assert (msgs + [m])[..|msgs|] == msgs;
  }

  // ----- The invariant of one route -----

  /** `ever` tells whether a message was ever flagged on the route. */
  ghost predicate RouteOk(r: Route, lens: seq<nat>, accepted: seq<Msg>, ever: bool) {
    && WellFormed(r, lens)
    && PayloadOf(r, lens) == r.dataPrev[..lens[r.type_]]
    && (r.flagNewMsg ==> ever)
    && (!ever ==> PayloadOf(r, lens) == Zeros(lens[r.type_]))
    && (!r.flagNewMsg && ever ==> LastOn(accepted, r.topic) == Some(PayloadOf(r, lens)))
  }

  // ----- Adding a route -----

  /** The first `n` pairs, up to the first error. */
  function ParseAll(fields: seq<Pair>, n: nat): Parse
    requires n <= |fields|
  {
    if n == 0 then Parse(BLANK, 0)
    else
      var before := ParseAll(fields, n - 1);
      if before.error != 0 then before else ApplyField(before.route, fields[n - 1])
  }

  lemma {:induction false} ParseStops(fields: seq<Pair>, n: nat, m: nat)
    requires n <= m <= |fields| && ParseAll(fields, n).error != 0
    ensures ParseAll(fields, m) == ParseAll(fields, n)
    decreases m
  {
    if n < m {
      ParseStops(fields, n, m - 1);
    }
  }

  /** Settings within their ranges, and nothing received or sent yet. */
  ghost predicate Unused(r: Route) {
    && (r.canId == 0 || 1 < r.canId <= 127) && r.pdoN <= 3 && r.qos <= 2 && |r.topic| <= MAX_TOPIC
    && r.data == r.dataPrev == Zeros(MAX_DATA) && !r.flagNewMsg && r.lastPubTd == 0
  }

  lemma FieldKeeps(r: Route, f: Pair)
    requires Unused(r) && ApplyField(r, f).error == 0
    ensures Unused(ApplyField(r, f).route)
  {}

  lemma {:induction false} ParsedFields(fields: seq<Pair>, n: nat)
    requires n <= |fields| && ParseAll(fields, n).error == 0
    ensures Unused(ParseAll(fields, n).route)
  {
    hide ApplyField, Unused;
    if n > 0 {
      ParsedFields(fields, n - 1);
      FieldKeeps(ParseAll(fields, n - 1).route, fields[n - 1]);
    } else {
      BlankIsUnused();
    }
  }

  lemma BlankIsUnused()
    ensures Unused(BLANK)
  {}

  ghost predicate Taken(routes: seq<Route>, topic: seq<Byte>) {
    exists i :: 0 <= i < |routes| && routes[i].topic == topic
  }

  /** The answer of `router_add_entry`. */
  ghost function RefusalCode(fields: seq<Pair>, lens: seq<nat>, routes: seq<Route>): int {
    var p := ParseAll(fields, |fields|);
    if |routes| + 1 >= MAX_ROUTES then -1
    else if p.error != 0 then p.error
    else if p.route.type_ == 0 || p.route.type_ >= |lens| then -7
    else if p.route.offset + lens[p.route.type_] > MAX_DATA then -8
    else if Taken(routes, p.route.topic) then -9
    else 0
  }

  /** A route is only added when it is well formed and its topic is new. */
  lemma AddedIsWellFormed(fields: seq<Pair>, lens: seq<nat>, routes: seq<Route>, accepted: seq<Msg>)
    requires RefusalCode(fields, lens, routes) == 0
    ensures var r := ParseAll(fields, |fields|).route;
            WellFormed(r, lens) && !Taken(routes, r.topic) && RouteOk(r, lens, accepted, false)
  {
    ParsedFields(fields, |fields|);
  }

  // ----- What the pairs of a route mean -----

  datatype Kind = ID | OFFSET | PDO | RETAIN | QOS | INTERVAL | TOPIC | TYPE | CMD | OTHER

  function KindOf(f: Pair): Kind {
    match f
    case Id(_) => ID
    case Off(_) => OFFSET
    case Pdo(_) => PDO
    case Retain => RETAIN
    case Qos(_) => QOS
    case Interval(_) => INTERVAL
    case Topic(_) => TOPIC
    case Type(_) => TYPE
    case IsCmd => CMD
    case Unknown => OTHER
  }

  /** The last pair of a kind, None if there is none. */
  function LastOf(fields: seq<Pair>, kind: Kind): (f: Option<Pair>)
    ensures f.Some? ==> f.value in fields && KindOf(f.value) == kind
    ensures f == None ==> forall k :: 0 <= k < |fields| ==> KindOf(fields[k]) != kind
  {
    if fields == [] then None
    else if KindOf(fields[|fields| - 1]) == kind then Some(fields[|fields| - 1])
    else LastOf(fields[..|fields| - 1], kind)
  }

  lemma LastOfMore(fields: seq<Pair>, f: Pair, kind: Kind)
    ensures LastOf(fields + [f], kind) == if KindOf(f) == kind then Some(f) else LastOf(fields, kind)
  {
    assert (fields + [f])[..|fields|] == fields;
  }

  /** A pair that is out of its range, of an unknown type or under an unknown key. */
  predicate BadPair(f: Pair) {
    match f
    case Id(id) => id < 2 || id > 127
    case Off(off) => off < 0 || off > 7
    case Pdo(pdo) => pdo < 0 || pdo > 3
    case Qos(qos) => qos < 0 || qos > 2
    case Type(index) => index == None
    case Unknown => true
    case _ => false
  }

  function PairCode(f: Pair): int {
    match f
    case Id(_) => -3
    case Off(_) => -4
    case Pdo(_) => -5
    case Qos(_) => -6
    case Type(_) => -7
    case _ => -2
  }

  /** The route has what the last pair of each kind gave, and nothing where there was none. */
  ghost predicate AsGiven(fields: seq<Pair>, r: Route) {
    NumbersGiven(fields, r) && OthersGiven(fields, r)
  }

  ghost predicate NumbersGiven(fields: seq<Pair>, r: Route) {
    && r.canId == (match LastOf(fields, ID) case None => 0 case Some(f) => f.id)
    && r.offset == (match LastOf(fields, OFFSET) case None => 0 case Some(f) => f.off)
    && r.pdoN == (match LastOf(fields, PDO) case None => 0 case Some(f) => f.pdo)
    && r.qos == (match LastOf(fields, QOS) case None => 0 case Some(f) => f.qos)
    && r.interval == (match LastOf(fields, INTERVAL) case None => 0 case Some(f) => f.ms)
  }

  ghost predicate OthersGiven(fields: seq<Pair>, r: Route) {
    && Some(r.type_) == (match LastOf(fields, TYPE) case None => Some(0) case Some(f) => f.index)
    && r.topic == (match LastOf(fields, TOPIC)
                   case None => []
                   case Some(f) => if |f.name| <= 38 then f.name else f.name[..38])
    && r.retain == (if LastOf(fields, RETAIN) == None then 0 else 1)
    && r.isMqttToPdo == (LastOf(fields, CMD) != None)
  }

  ghost predicate NoneBad(fields: seq<Pair>, n: nat)
    requires n <= |fields|
  {
    forall k :: 0 <= k < n ==> !BadPair(fields[k])
  }

  lemma FieldGives(fields: seq<Pair>, r: Route, f: Pair)
    requires AsGiven(fields, r) && !BadPair(f)
    ensures AsGiven(fields + [f], ApplyField(r, f).route)
  {
    hide ApplyField, NumbersGiven, OthersGiven, BadPair;
    NumberGives(fields, r, f);
    OtherGives(fields, r, f);
  }

  lemma NumberGives(fields: seq<Pair>, r: Route, f: Pair)
    requires NumbersGiven(fields, r) && !BadPair(f)
    ensures NumbersGiven(fields + [f], ApplyField(r, f).route)
  {
    hide LastOf, CutTopic;
    AllMore(fields, f);
  }

  lemma OtherGives(fields: seq<Pair>, r: Route, f: Pair)
    requires OthersGiven(fields, r) && !BadPair(f)
    ensures OthersGiven(fields + [f], ApplyField(r, f).route)
  {
    hide LastOf;
    AllMore(fields, f);
  }

  lemma AllMore(fields: seq<Pair>, f: Pair)
    ensures forall kind :: LastOf(fields + [f], kind) == if KindOf(f) == kind then Some(f) else LastOf(fields, kind)
  {
    forall kind
      ensures LastOf(fields + [f], kind) == if KindOf(f) == kind then Some(f) else LastOf(fields, kind)
    {
      LastOfMore(fields, f, kind);
    }
  }

  lemma FieldCode(r: Route, f: Pair)
    ensures ApplyField(r, f).error == if BadPair(f) then PairCode(f) else 0
  {}

  lemma BlankAsGiven()
    ensures AsGiven([], BLANK)
  {}

  lemma {:induction false} ParsedAsGiven(fields: seq<Pair>, n: nat)
    requires n <= |fields| && NoneBad(fields, n)
    ensures ParseAll(fields, n).error == 0 && AsGiven(fields[..n], ParseAll(fields, n).route)
  {
    hide ApplyField, AsGiven, BadPair;
    if n == 0 {
      BlankAsGiven();
      assert fields[..0] == [];
    } else {
      ParsedAsGiven(fields, n - 1);
      FieldCode(ParseAll(fields, n - 1).route, fields[n - 1]);
      FieldGives(fields[..n - 1], ParseAll(fields, n - 1).route, fields[n - 1]);
      assert fields[..n] == fields[..n - 1] + [fields[n - 1]];
    }
  }

  /** The first bad pair decides the answer; without one every setting is the one given last. */
  lemma Settings(fields: seq<Pair>)
    ensures NoneBad(fields, |fields|) ==>
              ParseAll(fields, |fields|).error == 0 && AsGiven(fields, ParseAll(fields, |fields|).route)
    ensures forall k :: 0 <= k < |fields| && NoneBad(fields, k) && BadPair(fields[k]) ==>
              ParseAll(fields, |fields|).error == PairCode(fields[k])
  {
    hide ApplyField, AsGiven, BadPair, PairCode;
    assert fields[..|fields|] == fields;
    if NoneBad(fields, |fields|) {
      ParsedAsGiven(fields, |fields|);
    }
    forall k | 0 <= k < |fields| && NoneBad(fields, k) && BadPair(fields[k])
      ensures ParseAll(fields, |fields|).error == PairCode(fields[k])
    {
      ParsedAsGiven(fields, k);
      FieldCode(ParseAll(fields, k).route, fields[k]);
      CodeIsError(fields[k]);
      ParseStops(fields, k + 1, |fields|);
    }
  }

  lemma CodeIsError(f: Pair)
    ensures PairCode(f) < 0
  {}

  lemma {:induction false} FirstBadPair(fields: seq<Pair>, n: nat) returns (k: nat)
    requires n <= |fields| && !NoneBad(fields, n)
    ensures k < n && NoneBad(fields, k) && BadPair(fields[k])
  {
    hide BadPair;
    if NoneBad(fields, n - 1) {
      k := n - 1;
    } else {
      k := FirstBadPair(fields, n - 1);
    }
  }

  /** When a route is added, and why not: the table is full; a pair is bad; no usable type; the value does
      not fit behind its offset; the topic is taken. */
  lemma AddedExactly(fields: seq<Pair>, lens: seq<nat>, routes: seq<Route>)
    ensures |routes| >= 127 ==> RefusalCode(fields, lens, routes) == -1
    ensures |routes| < 127 && !NoneBad(fields, |fields|) ==>
              exists k :: 0 <= k < |fields| && NoneBad(fields, k) && BadPair(fields[k])
                          && RefusalCode(fields, lens, routes) == PairCode(fields[k])
    ensures forall r :: |routes| < 127 && NoneBad(fields, |fields|) && r == ParseAll(fields, |fields|).route ==>
              && AsGiven(fields, r)
              && RefusalCode(fields, lens, routes) ==
                 if !(0 < r.type_ < |lens|) then -7
                 else if r.offset + lens[r.type_] > 8 then -8
                 else if exists i :: 0 <= i < |routes| && routes[i].topic == r.topic then -9
                 else 0
  {
    hide ParseAll, AsGiven, BadPair, PairCode;
    Settings(fields);
    if |routes| < 127 && !NoneBad(fields, |fields|) {
      var k := FirstBadPair(fields, |fields|);
      CodeIsError(fields[k]);
    }
  }

  // ----- What a step does to one route -----

  /** `sent` says, route by route, whose message the queue accepted in the step. */
  datatype RouterStep =
    | Adds(fields: seq<Pair>)
    | Object(id: nat, rpdoN: Byte, data: Data, sent: seq<bool>)
    | Polls(ms: U32, sent: seq<bool>)
    | Completion(taken: bool)

  predicate MeantFor(r: Route, id: nat, rpdoN: Byte) {
    r.pdoN == rpdoN && r.canId == id % 0x80
  }

  /** `memcpy` over the beginning. */
  function Copied(d: Data, s: seq<Byte>): Data
    requires |s| <= MAX_DATA
  {
    s + d[|s|..]
  }

  /** The route's part of an object. */
  function Part(r: Route, lens: seq<nat>, data: Data): seq<Byte>
    requires WellFormed(r, lens)
  {
    data[r.offset..r.offset + lens[r.type_]]
  }

  /** The interval allows a message. */
  predicate Due(r: Route) {
    r.interval <= 0 || r.lastPubTd >= r.interval
  }

  /** A message is flagged: the object is the route's, and unless it is an on-change route nothing more
      is asked; on-change routes want other data than before. */
  ghost predicate FlagsMessage(lens: seq<nat>, step: RouterStep, r: Route)
    requires WellFormed(r, lens)
  {
    match step
    case Object(id, rpdoN, data, _) =>
      MeantFor(r, id, rpdoN) && (r.interval >= 0 || Part(r, lens, data) != r.dataPrev[..lens[r.type_]])
    case _ => false
  }

  function Ticked(r: Route, ms: U32): Route {
    r.(lastPubTd := (r.lastPubTd + ms) % U32_MOD)
  }

  /** The route as the step leaves it, before a message is tried. */
  ghost function Moved(lens: seq<nat>, step: RouterStep, r: Route): Route
    requires WellFormed(r, lens)
  {
    match step
    case Object(id, rpdoN, data, _) =>
      if !MeantFor(r, id, rpdoN) then r
      else
        var part := Part(r, lens, data);
        var got := r.(data := Copied(r.data, part));
        if FlagsMessage(lens, step, r) then got.(dataPrev := Copied(r.dataPrev, part), flagNewMsg := true) else got
    case Polls(ms, _) => Ticked(r, ms)
    case _ => r
  }

  /** The route would send: a message was flagged just now, or is polled for, and the interval allows it. */
  ghost predicate Wants(lens: seq<nat>, step: RouterStep, r: Route)
    requires WellFormed(r, lens)
  {
    match step
    case Object(_, _, _, _) => FlagsMessage(lens, step, r) && Due(r)
    case Polls(ms, _) => r.flagNewMsg && Due(Ticked(r, ms))
    case _ => false
  }

  /** After the queue accepted, the flag and the time are reset. */
  function Tried(r: Route, sent: bool): Route {
    if sent then r.(flagNewMsg := false, lastPubTd := 0) else r
  }

  function MessageOf(r: Route, lens: seq<nat>): Msg
    requires WellFormed(r, lens)
  {
    Msg(r.topic, PayloadOf(r, lens), r.qos, r.retain)
  }

  lemma MovedFits(lens: seq<nat>, step: RouterStep, r: Route, sent: bool)
    requires WellFormed(r, lens)
    ensures var r1 := Tried(Moved(lens, step, r), sent);
            WellFormed(r1, lens) && r1.topic == r.topic && r1.interval == r.interval
            && MessageOf(r1, lens) == MessageOf(Moved(lens, step, r), lens)
  {}

  /** A step keeps the invariant of a route, if it sends only what is wanted. */
  lemma RouteKeeps(lens: seq<nat>, step: RouterStep, r: Route, ever: bool, accepted: seq<Msg>, sent: bool,
                   after: seq<Msg>)
    requires RouteOk(r, lens, accepted, ever) && (sent ==> Wants(lens, step, r))
    requires WellFormed(Moved(lens, step, r), lens)
    requires LastOn(after, r.topic) ==
             if sent then Some(PayloadOf(Moved(lens, step, r), lens)) else LastOn(accepted, r.topic)
    ensures RouteOk(Tried(Moved(lens, step, r), sent), lens, after, ever || FlagsMessage(lens, step, r))
  {
    hide LastOn;
  }

  // ----- The table -----

  datatype RouterState = RouterState(routes: seq<Route>, ever: seq<bool>, queue: Fifo) {
    ghost predicate Shaped(lens: seq<nat>) {
      |ever| == |routes| < MAX_ROUTES && AllWellFormed(routes, lens) && queue.Inv()
    }

    /** No two routes share a topic, and every route is fresh. */
    ghost predicate Ok(lens: seq<nat>) {
      && Shaped(lens) && Distinct(routes)
      && forall j :: 0 <= j < |routes| ==> RouteOk(routes[j], lens, queue.accepted, ever[j])
    }
  }

  const NO_ROUTES := RouterState([], [], EMPTY)

  ghost predicate AllWellFormed(routes: seq<Route>, lens: seq<nat>) {
    forall j :: 0 <= j < |routes| ==> WellFormed(routes[j], lens)
  }

  ghost predicate Distinct(routes: seq<Route>) {
    forall i, j :: 0 <= i < j < |routes| ==> routes[i].topic != routes[j].topic
  }

  /** The messages of the routes that sent, in the order of the table. */
  ghost function Batch(routes: seq<Route>, lens: seq<nat>, sent: seq<bool>): seq<Msg>
    requires AllWellFormed(routes, lens) && |sent| <= |routes|
  {
    if sent == [] then []
    else
      var n := |sent| - 1;
      Batch(routes, lens, sent[..n]) + if sent[n] then [MessageOf(routes[n], lens)] else []
  }

  /** The queue accepted these messages and none was completed meanwhile. */
  ghost predicate Grew(before: Fifo, after: Fifo, msgs: seq<Msg>) {
    && after.accepted == before.accepted + msgs
    && after.completed == before.completed && before.calls <= after.calls
    && after.Inv() && (before.Full() ==> after.Full())
  }

  /** An object or a poll has been dealt with for the first `|sent|` routes. A route that wants to send
      does, unless the queue is full. */
  ghost predicate Round(lens: seq<nat>, s: RouterState, step: RouterStep, t: RouterState, sent: seq<bool>) {
    && s.Shaped(lens) && t.Shaped(lens) && |sent| <= |s.routes| == |t.routes|
    && (forall j :: 0 <= j < |sent| ==>
          && (sent[j] ==> Wants(lens, step, s.routes[j]))
          && t.routes[j] == Tried(Moved(lens, step, s.routes[j]), sent[j])
          && t.ever[j] == (s.ever[j] || FlagsMessage(lens, step, s.routes[j])))
    && (forall j :: |sent| <= j < |s.routes| ==> t.routes[j] == s.routes[j] && t.ever[j] == s.ever[j])
    && Grew(s.queue, t.queue, Batch(t.routes, lens, sent))
    && (t.queue.Full() || forall j :: 0 <= j < |sent| ==> Wants(lens, step, s.routes[j]) ==> sent[j])
  }

  ghost predicate RouterNext(lens: seq<nat>, s: RouterState, step: RouterStep, t: RouterState) {
    match step
    case Adds(fields) =>
      t == if RefusalCode(fields, lens, s.routes) == 0
           then s.(routes := s.routes + [ParseAll(fields, |fields|).route], ever := s.ever + [false])
           else s
    case Completion(taken) => s.queue.busy && s.queue.pending != [] && t == s.(queue := s.queue.Complete(taken))
    case _ => |step.sent| == |s.routes| && Round(lens, s, step, t, step.sent)
  }

  lemma RoundStart(lens: seq<nat>, s: RouterState, step: RouterStep)
    requires s.Shaped(lens)
    ensures Round(lens, s, step, s, [])
  {}

  /** One more route: what happened to it, and to the queue. */
  lemma RoundMore(lens: seq<nat>, s: RouterState, step: RouterStep, t: RouterState, sent: seq<bool>, b: bool,
                  u: RouterState)
    requires Round(lens, s, step, t, sent) && |sent| < |s.routes| && u.Shaped(lens)
    requires var k := |sent|; var r := s.routes[k];
             && (b ==> Wants(lens, step, r)) && (Wants(lens, step, r) && !u.queue.Full() ==> b)
             && u.routes == t.routes[k := Tried(Moved(lens, step, r), b)]
             && u.ever == t.ever[k := s.ever[k] || FlagsMessage(lens, step, r)]
             && Grew(t.queue, u.queue, if b then [MessageOf(u.routes[k], lens)] else [])
    ensures Round(lens, s, step, u, sent + [b])
  {
    hide FlagsMessage, Wants, Moved, WellFormed, Tried, MessageOf, Fifo.Inv, Batch, Grew;
    var more := sent + [b];
    assert more[..|sent|] == sent;
    BatchMore(t.routes, u.routes, lens, sent, b);
    GrewTwice(s.queue, t.queue, u.queue, Batch(t.routes, lens, sent),
              if b then [MessageOf(u.routes[|sent|], lens)] else []);
  }

  lemma GrewTwice(f: Fifo, g: Fifo, h: Fifo, a: seq<Msg>, b: seq<Msg>)
    requires Grew(f, g, a) && Grew(g, h, b)
    ensures Grew(f, h, a + b) && (g.Full() ==> h.Full())
  {
    hide Fifo.Inv;
  }

  lemma BatchMore(a: seq<Route>, b: seq<Route>, lens: seq<nat>, sent: seq<bool>, last: bool)
    requires AllWellFormed(a, lens) && AllWellFormed(b, lens) && |sent| < |a| == |b|
    requires forall j :: 0 <= j < |sent| ==> a[j] == b[j]
    ensures Batch(b, lens, sent + [last]) ==
            Batch(a, lens, sent) + if last then [MessageOf(b[|sent|], lens)] else []
  {
    hide WellFormed, MessageOf;
    assert (sent + [last])[..|sent|] == sent;
    SameBatch(a, b, lens, sent);
  }

  lemma {:induction false} SameBatch(a: seq<Route>, b: seq<Route>, lens: seq<nat>, sent: seq<bool>)
    requires AllWellFormed(a, lens) && AllWellFormed(b, lens) && |sent| <= |a| == |b|
    requires forall j :: 0 <= j < |sent| ==> a[j] == b[j]
    ensures Batch(a, lens, sent) == Batch(b, lens, sent)
  {
    hide WellFormed, MessageOf;
    if sent != [] {
      SameBatch(a, b, lens, sent[..|sent| - 1]);
    }
  }

  /** A batch leaves on each topic the payload of the route that sent, if it did. */
  lemma {:induction false} LastOnBatch(msgs: seq<Msg>, routes: seq<Route>, lens: seq<nat>, sent: seq<bool>, j: nat)
    requires AllWellFormed(routes, lens) && Distinct(routes) && |sent| <= |routes| && j < |routes|
    ensures LastOn(msgs + Batch(routes, lens, sent), routes[j].topic) ==
            if j < |sent| && sent[j] then Some(PayloadOf(routes[j], lens)) else LastOn(msgs, routes[j].topic)
  {
    hide WellFormed, PayloadOf;
    if sent == [] {
      assert msgs + Batch(routes, lens, sent) == msgs;
    } else {
      var n := |sent| - 1;
      LastOnBatch(msgs, routes, lens, sent[..n], j);
      var before := msgs + Batch(routes, lens, sent[..n]);
      if sent[n] {
        LastOnMore(before, MessageOf(routes[n], lens), routes[j].topic);
        assert msgs + Batch(routes, lens, sent) == before + [MessageOf(routes[n], lens)];
        assert j != n ==> routes[j].topic != routes[n].topic;
      } else {
        assert msgs + Batch(routes, lens, sent) == before;
      }
    }
  }

  lemma RoundKeeps(lens: seq<nat>, s: RouterState, step: RouterStep, t: RouterState, sent: seq<bool>)
    requires s.Ok(lens) && Round(lens, s, step, t, sent) && |sent| == |s.routes|
    ensures t.Ok(lens)
  {
    hide FlagsMessage, Wants, Moved, WellFormed, Tried, RouteOk, MessageOf, PayloadOf, LastOn, Batch;
    forall j | 0 <= j < |s.routes|
      ensures t.routes[j].topic == s.routes[j].topic
    {
      MovedFits(lens, step, s.routes[j], sent[j]);
    }
    forall j | 0 <= j < |s.routes|
      ensures RouteOk(t.routes[j], lens, t.queue.accepted, t.ever[j])
    {
      MovedFits(lens, step, s.routes[j], sent[j]);
      MovedFits(lens, step, s.routes[j], false);
      UnsentSame(lens, step, s.routes[j], sent[j]);
      LastOnBatch(s.queue.accepted, t.routes, lens, sent, j);
      RouteKeeps(lens, step, s.routes[j], s.ever[j], s.queue.accepted, sent[j], t.queue.accepted);
    }
  }

  lemma UnsentSame(lens: seq<nat>, step: RouterStep, r: Route, sent: bool)
    requires WellFormed(r, lens)
    ensures WellFormed(Moved(lens, step, r), lens) && WellFormed(Tried(Moved(lens, step, r), sent), lens)
    ensures PayloadOf(Tried(Moved(lens, step, r), sent), lens) == PayloadOf(Moved(lens, step, r), lens)
  {}

  lemma AddKeeps(lens: seq<nat>, s: RouterState, fields: seq<Pair>)
    requires s.Ok(lens) && RefusalCode(fields, lens, s.routes) == 0
    ensures s.(routes := s.routes + [ParseAll(fields, |fields|).route], ever := s.ever + [false]).Ok(lens)
  {
    hide WellFormed, RouteOk, ParseAll, RefusalCode, Distinct, Taken, Fifo.Inv;
    var r := ParseAll(fields, |fields|).route;
    AddedIsWellFormed(fields, lens, s.routes, s.queue.accepted);
    RefusedWhenMany(fields, lens, s.routes);
    DistinctMore(s.routes, r);
    var t := s.(routes := s.routes + [r], ever := s.ever + [false]);
    forall j | 0 <= j < |t.routes|
      ensures WellFormed(t.routes[j], lens) && RouteOk(t.routes[j], lens, t.queue.accepted, t.ever[j])
    {
      if j < |s.routes| {
        assert t.routes[j] == s.routes[j] && t.ever[j] == s.ever[j];
      }
    }
  }

  lemma DistinctMore(routes: seq<Route>, r: Route)
    requires Distinct(routes) && !Taken(routes, r.topic)
    ensures Distinct(routes + [r])
  {
    var more := routes + [r];
    forall i, j | 0 <= i < j < |more|
      ensures more[i].topic != more[j].topic
    {
      assert more[i] == routes[i];
    }
  }

  lemma RefusedWhenMany(fields: seq<Pair>, lens: seq<nat>, routes: seq<Route>)
    requires RefusalCode(fields, lens, routes) == 0
    ensures |routes| + 1 < MAX_ROUTES
  {}

  lemma NextKeeps(lens: seq<nat>, s: RouterState, step: RouterStep, t: RouterState)
    requires s.Ok(lens) && RouterNext(lens, s, step, t)
    ensures t.Ok(lens)
  {
    hide WellFormed, RouteOk, RefusalCode, ParseAll, Round, FlagsMessage, Wants, Moved;
    match step
    case Adds(fields) =>
      if RefusalCode(fields, lens, s.routes) == 0 {
        AddKeeps(lens, s, fields);
      }
    case Completion(taken) =>
      CompletionKeeps(s.queue, taken);
    case _ => RoundKeeps(lens, s, step, t, step.sent);
  }

  lemma CompletionKeeps(f: Fifo, taken: bool)
    requires f.Inv() && f.busy && f.pending != []
    ensures f.Complete(taken).Inv() && f.Complete(taken).accepted == f.accepted
  {
    StepKeeps(f, FifoEvent.Completes(taken));
  }

  // ----- Runs -----

  ghost predicate RouterRun(lens: seq<nat>, states: seq<RouterState>, steps: seq<RouterStep>) {
    && |states| == |steps| + 1 && states[0] == NO_ROUTES
    && forall i :: 0 <= i < |steps| ==> RouterNext(lens, states[i], steps[i], states[i + 1])
  }

  lemma {:induction false} RunOk(lens: seq<nat>, states: seq<RouterState>, steps: seq<RouterStep>, n: nat)
    requires RouterRun(lens, states, steps) && n <= |steps|
    ensures states[n].Ok(lens)
  {
    hide RouterNext;
    if n > 0 {
      RunOk(lens, states, steps, n - 1);
      NextKeeps(lens, states[n - 1], steps[n - 1], states[n]);
    }
  }

  /** A message was flagged on route `j` in one of the first `n` steps. */
  ghost predicate EverFlagged(lens: seq<nat>, states: seq<RouterState>, steps: seq<RouterStep>, n: nat, j: nat)
    requires n <= |steps| < |states|
  {
    exists m :: 0 <= m < n && FlaggedIn(lens, states[m], steps[m], j)
  }

  ghost predicate FlaggedIn(lens: seq<nat>, s: RouterState, step: RouterStep, j: nat) {
    j < |s.routes| && WellFormed(s.routes[j], lens) && FlagsMessage(lens, step, s.routes[j])
  }

  lemma StepFlags(lens: seq<nat>, s: RouterState, step: RouterStep, t: RouterState, j: nat)
    requires s.Ok(lens) && RouterNext(lens, s, step, t) && t.Ok(lens)
    ensures |s.routes| <= |t.routes|
    ensures j < |s.routes| ==> t.ever[j] == (s.ever[j] || FlaggedIn(lens, s, step, j))
    ensures |s.routes| <= j < |t.routes| ==> !t.ever[j]
  {
    hide WellFormed, RouteOk, RefusalCode, ParseAll, Moved, Tried, Batch, Grew;
    if j < |s.routes| {
      assert RouteOk(s.routes[j], lens, s.queue.accepted, s.ever[j]);
      OkIsWellFormed(s.routes[j], lens, s.queue.accepted, s.ever[j]);
    }
  }

  lemma OkIsWellFormed(r: Route, lens: seq<nat>, accepted: seq<Msg>, ever: bool)
    requires RouteOk(r, lens, accepted, ever)
    ensures WellFormed(r, lens)
  {}

  lemma {:induction false} EverIsHistory(lens: seq<nat>, states: seq<RouterState>, steps: seq<RouterStep>, n: nat,
                                         j: nat)
    requires RouterRun(lens, states, steps) && n <= |steps| && j < |states[n].routes|
    ensures |states[n].ever| == |states[n].routes|
    ensures states[n].ever[j] <==> EverFlagged(lens, states, steps, n, j)
  {
    hide RouterNext, FlaggedIn, RouteOk, WellFormed;
    RunOk(lens, states, steps, n);
    if n > 0 {
      RunOk(lens, states, steps, n - 1);
      StepFlags(lens, states[n - 1], steps[n - 1], states[n], j);
      if j < |states[n - 1].routes| {
        EverIsHistory(lens, states, steps, n - 1, j);
      } else {
        NotYetFlagged(lens, states, steps, n - 1, j);
        NotThereYet(lens, states[n - 1], steps[n - 1], j);
      }
      assert EverFlagged(lens, states, steps, n, j) <==>
             EverFlagged(lens, states, steps, n - 1, j) || FlaggedIn(lens, states[n - 1], steps[n - 1], j);
    }
  }

  lemma NotThereYet(lens: seq<nat>, s: RouterState, step: RouterStep, j: nat)
    requires |s.routes| <= j
    ensures !FlaggedIn(lens, s, step, j)
  {}

  lemma {:induction false} NotYetFlagged(lens: seq<nat>, states: seq<RouterState>, steps: seq<RouterStep>, n: nat,
                                         j: nat)
    requires RouterRun(lens, states, steps) && n <= |steps| && |states[n].routes| <= j
    ensures !EverFlagged(lens, states, steps, n, j)
  {
    hide RouterNext, RouteOk, WellFormed;
    if n > 0 {
      RunOk(lens, states, steps, n - 1);
      RunOk(lens, states, steps, n);
      StepFlags(lens, states[n - 1], steps[n - 1], states[n], j);
      NotYetFlagged(lens, states, steps, n - 1, j);
    }
  }

  /** In every state of every run: current and previous data of a route agree over its length, and while
      no message is flagged the last payload the queue accepted on its topic is its current data, or
      none was ever flagged, and then nothing but zeros has been seen. */
  lemma Freshness(lens: seq<nat>, states: seq<RouterState>, steps: seq<RouterStep>, n: nat, j: nat)
    requires RouterRun(lens, states, steps) && n <= |steps| && j < |states[n].routes|
    ensures var r := states[n].routes[j];
            && WellFormed(r, lens) && PayloadOf(r, lens) == r.dataPrev[..lens[r.type_]]
            && (!r.flagNewMsg ==>
                  if EverFlagged(lens, states, steps, n, j)
                  then LastOn(states[n].queue.accepted, r.topic) == Some(PayloadOf(r, lens))
                  else PayloadOf(r, lens) == Zeros(lens[r.type_]))
  {
    hide RouterRun, EverFlagged, LastOn;
    RunOk(lens, states, steps, n);
    EverIsHistory(lens, states, steps, n, j);
  }

  // ----- What an object and a poll do -----

  /** How many of the first `j` routes sent. */
  function Senders(sent: seq<bool>, j: nat): nat
    requires j <= |sent|
  {
    if j == 0 then 0 else Senders(sent, j - 1) + if sent[j - 1] then 1 else 0
  }

  /** The queue accepted `m` for route `j`, in its place among the messages of the step. */
  ghost predicate InBatch(s: RouterState, sent: seq<bool>, t: RouterState, j: nat, m: Msg)
    requires j < |sent|
  {
    var k := |s.queue.accepted| + Senders(sent, j);
    k < |t.queue.accepted| && t.queue.accepted[k] == m
  }

  lemma {:induction false} BatchAt(routes: seq<Route>, lens: seq<nat>, sent: seq<bool>, j: nat)
    requires AllWellFormed(routes, lens) && j < |sent| <= |routes|
    ensures |Batch(routes, lens, sent)| == Senders(sent, |sent|)
    ensures sent[j] ==> Senders(sent, j) < |Batch(routes, lens, sent)|
                        && Batch(routes, lens, sent)[Senders(sent, j)] == MessageOf(routes[j], lens)
    decreases |sent|
  {
    hide WellFormed, MessageOf;
    var n := |sent| - 1;
    SameSenders(sent, n);
    if j < n {
      BatchAt(routes, lens, sent[..n], j);
      SameSendersAt(sent, n, j);
    } else if n > 0 {
      BatchAt(routes, lens, sent[..n], 0);
    }
  }

  lemma {:induction false} SameSendersAt(sent: seq<bool>, n: nat, j: nat)
    requires j <= n <= |sent|
    ensures Senders(sent[..n], j) == Senders(sent, j)
  {
    if j > 0 {
      SameSendersAt(sent, n, j - 1);
    }
  }

  lemma SameSenders(sent: seq<bool>, n: nat)
    requires n <= |sent|
    ensures Senders(sent[..n], n) == Senders(sent, n)
  {
    SameSendersAt(sent, n, n);
  }

  lemma AcceptedOf(lens: seq<nat>, s: RouterState, step: RouterStep, t: RouterState, sent: seq<bool>, j: nat)
    requires Round(lens, s, step, t, sent) && j < |sent| && sent[j]
    ensures AllWellFormed(t.routes, lens) && InBatch(s, sent, t, j, MessageOf(t.routes[j], lens))
    ensures |t.queue.accepted| == |s.queue.accepted| + Senders(sent, |sent|)
  {
    hide WellFormed, MessageOf, Round, Batch, Fifo.Inv;
    RoundGrew(lens, s, step, t, sent);
    BatchAt(t.routes, lens, sent, j);
  }

  lemma RoundGrew(lens: seq<nat>, s: RouterState, step: RouterStep, t: RouterState, sent: seq<bool>)
    requires Round(lens, s, step, t, sent)
    ensures |sent| <= |t.routes| && AllWellFormed(t.routes, lens) && Grew(s.queue, t.queue, Batch(t.routes, lens, sent))
  {
    hide WellFormed, Wants, Moved, FlagsMessage, Tried, Fifo.Inv, Batch, Grew;
  }

  /** What a round did to one of its routes. */
  lemma RoundDid(lens: seq<nat>, s: RouterState, step: RouterStep, t: RouterState, sent: seq<bool>, j: nat)
    requires s.Ok(lens) && Round(lens, s, step, t, sent) && j < |sent|
    ensures j < |s.routes| == |t.routes| && WellFormed(s.routes[j], lens) && t.queue.Inv()
    ensures s.routes[j].data[..lens[s.routes[j].type_]] == s.routes[j].dataPrev[..lens[s.routes[j].type_]]
    ensures sent[j] ==> Wants(lens, step, s.routes[j])
    ensures t.routes[j] == Tried(Moved(lens, step, s.routes[j]), sent[j])
    ensures Wants(lens, step, s.routes[j]) && !sent[j] ==> t.queue.Full()
  {
    hide Wants, Moved, FlagsMessage, Tried, Fifo.Inv, Batch, LastOn;
    RouteFacts(lens, s, j);
  }

  lemma ObjectMoves(lens: seq<nat>, r: Route, id: nat, rpdoN: Byte, data: Data, sent: seq<bool>, b: bool)
    requires WellFormed(r, lens) && r.data[..lens[r.type_]] == r.dataPrev[..lens[r.type_]]
    ensures var step, len := Object(id, rpdoN, data, sent), lens[r.type_];
            var u := Tried(Moved(lens, step, r), b);
            if !(r.pdoN == rpdoN && r.canId == id % 128) then (!b ==> u == r) && !Wants(lens, step, r)
            else
              var part := data[r.offset..r.offset + len];
              var flags := r.interval >= 0 || part != r.data[..len];
              && Wants(lens, step, r) == (flags && (r.interval <= 0 || r.lastPubTd >= r.interval))
              && u == r.(data := part + r.data[len..], dataPrev := part + r.dataPrev[len..],
                         flagNewMsg := u.flagNewMsg, lastPubTd := u.lastPubTd)
              && u.flagNewMsg == ((r.flagNewMsg || flags) && !b) && u.lastPubTd == (if b then 0 else r.lastPubTd)
              && WellFormed(u, lens) && MessageOf(u, lens) == Msg(r.topic, part, r.qos, r.retain)
  {
    hide MessageOf;
    var step, len := Object(id, rpdoN, data, sent), lens[r.type_];
    var part := data[r.offset..r.offset + len];
    if MeantFor(r, id, rpdoN) {
      assert Part(r, lens, data) == part;
      SamePart(r.data, r.dataPrev, part);
      MessageMoved(lens, r, Tried(Moved(lens, step, r), b), part);
    }
  }

  lemma SamePart(data: Data, prev: Data, part: seq<Byte>)
    requires |part| <= MAX_DATA && data[..|part|] == prev[..|part|]
    ensures Copied(data, part) == part + data[|part|..] && Copied(prev, part) == part + prev[|part|..]
    ensures part == data[..|part|] ==> Copied(prev, part) == prev
  {}

  lemma MessageMoved(lens: seq<nat>, r: Route, u: Route, part: seq<Byte>)
    requires WellFormed(r, lens) && |part| == lens[r.type_]
    requires u == r.(data := Copied(r.data, part), dataPrev := u.dataPrev,
                     flagNewMsg := u.flagNewMsg, lastPubTd := u.lastPubTd)
    ensures WellFormed(u, lens) && MessageOf(u, lens) == Msg(r.topic, part, r.qos, r.retain)
  {
    assert Copied(r.data, part)[..|part|] == part;
  }

  /** What an object does to a route. If it is not the route's, nothing. Otherwise the route has its bytes,
      and a message is flagged unless the route is one on change and they are what it had; it is accepted if
      the interval is over, unless the queue is full, and then the flag is down and the interval begins. */
  lemma ObjectEffect(lens: seq<nat>, s: RouterState, id: nat, rpdoN: Byte, data: Data, sent: seq<bool>, t: RouterState,
                     j: nat)
    requires s.Ok(lens) && RouterNext(lens, s, Object(id, rpdoN, data, sent), t) && j < |s.routes|
    ensures j < |sent| && j < |t.routes| && WellFormed(s.routes[j], lens)
    ensures var r, u := s.routes[j], t.routes[j];
            var len := lens[r.type_];
            if !(r.pdoN == rpdoN && r.canId == id % 128) then u == r && !sent[j]
            else
              var part := data[r.offset..r.offset + len];
              var flags := r.interval >= 0 || part != r.data[..len];
              var due := r.interval <= 0 || r.lastPubTd >= r.interval;
              && u == r.(data := part + r.data[len..], dataPrev := part + r.dataPrev[len..],
                         flagNewMsg := u.flagNewMsg, lastPubTd := u.lastPubTd)
              && u.flagNewMsg == ((r.flagNewMsg || flags) && !sent[j])
              && u.lastPubTd == (if sent[j] then 0 else r.lastPubTd)
              && (sent[j] ==> flags && due && InBatch(s, sent, t, j, Msg(r.topic, part, r.qos, r.retain)))
              && (flags && due && !sent[j] ==> |t.queue.pending| == 63)
  {
    hide WellFormed, Moved, Wants, FlagsMessage, Tried, Round, RouterState.Ok, MessageOf, Fifo.Inv, Fifo.Full, InBatch;
    var step := Object(id, rpdoN, data, sent);
    RoundDid(lens, s, step, t, sent, j);
    InRange(s.routes[j], lens);
    ObjectMoves(lens, s.routes[j], id, rpdoN, data, sent, sent[j]);
    FullIs63(t.queue);
    if sent[j] {
      AcceptedOf(lens, s, step, t, sent, j);
    }
  }

  lemma InRange(r: Route, lens: seq<nat>)
    requires WellFormed(r, lens)
    ensures 0 < r.type_ < |lens| && r.offset + lens[r.type_] <= MAX_DATA
  {}

  lemma RouteFacts(lens: seq<nat>, s: RouterState, j: nat)
    requires s.Ok(lens) && j < |s.routes|
    ensures var r := s.routes[j]; WellFormed(r, lens) && r.data[..lens[r.type_]] == r.dataPrev[..lens[r.type_]]
  {
    hide LastOn;
    assert RouteOk(s.routes[j], lens, s.queue.accepted, s.ever[j]);
  }

  lemma FullIs63(f: Fifo)
    requires f.Inv()
    ensures f.Full() <==> |f.pending| == 63
  {
    hide TakenOf;
  }

  /** What a poll does to a route: time passes for it, and a flagged message is accepted if the interval is
      over, unless the queue is full. */
  lemma PollEffect(lens: seq<nat>, s: RouterState, ms: U32, sent: seq<bool>, t: RouterState, j: nat)
    requires s.Ok(lens) && RouterNext(lens, s, Polls(ms, sent), t) && j < |s.routes|
    ensures j < |sent| && j < |t.routes| && WellFormed(s.routes[j], lens)
    ensures var r, u := s.routes[j], t.routes[j];
            var time := (r.lastPubTd + ms) % 0x1_0000_0000;
            var wants := r.flagNewMsg && (r.interval <= 0 || time >= r.interval);
            && u == r.(flagNewMsg := r.flagNewMsg && !sent[j], lastPubTd := if sent[j] then 0 else time)
            && (sent[j] ==> wants && InBatch(s, sent, t, j, Msg(r.topic, r.data[..lens[r.type_]], r.qos, r.retain)))
            && (wants && !sent[j] ==> |t.queue.pending| == 63)
  {
    hide WellFormed, Moved, Wants, FlagsMessage, Tried, Round, RouterState.Ok, MessageOf, Fifo.Inv, Fifo.Full, InBatch;
    RoundDid(lens, s, Polls(ms, sent), t, sent, j);
    InRange(s.routes[j], lens);
    PollMoves(lens, s.routes[j], ms, sent, sent[j]);
    FullIs63(t.queue);
    if sent[j] {
      AcceptedOf(lens, s, Polls(ms, sent), t, sent, j);
    }
  }

  lemma PollMoves(lens: seq<nat>, r: Route, ms: U32, sent: seq<bool>, b: bool)
    requires WellFormed(r, lens)
    ensures var step, time := Polls(ms, sent), (r.lastPubTd + ms) % 0x1_0000_0000;
            var u := Tried(Moved(lens, step, r), b);
            && Wants(lens, step, r) == (r.flagNewMsg && (r.interval <= 0 || time >= r.interval))
            && u == r.(flagNewMsg := r.flagNewMsg && !b, lastPubTd := if b then 0 else time)
            && WellFormed(u, lens) && MessageOf(u, lens) == Msg(r.topic, r.data[..lens[r.type_]], r.qos, r.retain)
  {}

  // ----- Rate limit -----

  /** The message of route `j` is accepted in the step. */
  predicate SendsAt(step: RouterStep, j: nat) {
    (step.Object? || step.Polls?) && j < |step.sent| && step.sent[j]
  }

  /** Milliseconds that were polled. */
  function PollTime(steps: seq<RouterStep>): nat {
    if steps == [] then 0
    else PollTime(steps[..|steps| - 1]) + StepTime(steps[|steps| - 1])
  }

  function StepTime(step: RouterStep): nat {
    if step.Polls? then step.ms else 0
  }

  /** What a step does to the time of a route. */
  lemma StepClock(lens: seq<nat>, s: RouterState, step: RouterStep, t: RouterState, j: nat)
    requires s.Ok(lens) && RouterNext(lens, s, step, t) && j < |s.routes|
    ensures j < |t.routes| && t.routes[j].interval == s.routes[j].interval
    ensures t.routes[j].lastPubTd <= s.routes[j].lastPubTd + StepTime(step)
    ensures SendsAt(step, j) ==> t.routes[j].lastPubTd == 0
    ensures SendsAt(step, j) && s.routes[j].interval > 0 ==>
              s.routes[j].lastPubTd + StepTime(step) >= s.routes[j].interval
  {
    hide RefusalCode, ParseAll, Batch, Grew, RouteOk;
  }

  lemma {:induction false} ClockBound(lens: seq<nat>, states: seq<RouterState>, steps: seq<RouterStep>, a: nat, n: nat,
                                      j: nat)
    requires RouterRun(lens, states, steps) && a < n <= |steps| && j < |states[a].routes| && SendsAt(steps[a], j)
    ensures j < |states[n].routes| && states[n].routes[j].interval == states[a].routes[j].interval
    ensures states[n].routes[j].lastPubTd <= PollTime(steps[a + 1..n])
    decreases n
  {
    hide RouterNext, SendsAt;
    if n == a + 1 {
      RunOk(lens, states, steps, a);
      StepClock(lens, states[a], steps[a], states[n], j);
    } else {
      ClockBound(lens, states, steps, a, n - 1, j);
      RunOk(lens, states, steps, n - 1);
      StepClock(lens, states[n - 1], steps[n - 1], states[n], j);
      assert steps[a + 1..n][..n - 1 - (a + 1)] == steps[a + 1..n - 1];
    }
  }

  /** Any two messages of a route that the queue accepts are separated by polls whose times add up to
      at least the route's interval, also across wraps of its 32-bit counter. */
  lemma RateLimit(lens: seq<nat>, states: seq<RouterState>, steps: seq<RouterStep>, a: nat, b: nat, j: nat)
    requires RouterRun(lens, states, steps) && a < b < |steps| && j < |states[a].routes|
    requires SendsAt(steps[a], j) && SendsAt(steps[b], j) && states[a].routes[j].interval > 0
    ensures PollTime(steps[a + 1..b + 1]) >= states[a].routes[j].interval
  {
    hide RouterNext, SendsAt;
    ClockBound(lens, states, steps, a, b, j);
    RunOk(lens, states, steps, b);
    StepClock(lens, states[b], steps[b], states[b + 1], j);
    assert steps[a + 1..b + 1][..b - (a + 1)] == steps[a + 1..b];
  }

  // ----- The router -----

  class RouteTable {
    /** The length of each data type; type 0 is not one. */
    const lens: seq<nat>
    const queue: MqttQueue
    var routes: seq<Route>
    ghost var ever: seq<bool>

    ghost function State(): RouterState
      requires queue.Valid()
      reads this, queue, queue.storage
    {
      RouterState(routes, ever, queue.State())
    }

    ghost predicate Shaped()
      reads this, queue, queue.storage
    {
      queue.Valid() && State().Shaped(lens)
    }

    ghost predicate Valid()
      reads this, queue, queue.storage
    {
      queue.Valid() && State().Ok(lens)
    }

    constructor (lens: seq<nat>, queue: MqttQueue)
      requires queue.Valid()
      ensures Valid() && State() == RouterState([], [], queue.State()) && this.queue == queue && this.lens == lens
    {
      this.lens, this.queue := lens, queue;
      routes, ever := [], [];
    }

    method AddEntry(fields: seq<Pair>) returns (sts: int)
      requires Valid()
      modifies this`routes, this`ever
      ensures Valid()
      ensures sts == RefusalCode(fields, lens, old(routes))
      ensures RouterNext(lens, old(State()), Adds(fields), State())
    {
      hide RouteOk, ApplyField, WellFormed, MqttQueue.Valid, Fifo.Inv;
      if |routes| + 1 >= MAX_ROUTES {
        return -1;
      }
      var r := BLANK;
      var k := 0;
      while k < |fields|
        invariant 0 <= k <= |fields| && ParseAll(fields, k) == Parse(r, 0)
      {
        var p := ApplyField(r, fields[k]);
        if p.error != 0 {
          ParseStops(fields, k + 1, |fields|);
          return p.error;
        }
        r := p.route;
        k := k + 1;
      }
      if r.type_ == 0 || r.type_ >= |lens| {
        return -7;
      }
      if r.offset + lens[r.type_] > MAX_DATA {
        return -8;
      }
      var i := 0;
      while i < |routes|
        invariant 0 <= i <= |routes| && !Taken(routes[..i], r.topic)
      {
        if r.topic == routes[i].topic {
          return -9;
        }
        i := i + 1;
      }
      assert routes[..|routes|] == routes;
      AddKeeps(lens, State(), fields);
      routes, ever := routes + [r], ever + [false];
      return 0;
    }

    /** `check_try_send`: keeps to the interval, and forgets the flag only when the queue accepts. `taken`, here
        and below, is lwIP's answer should the queue call it. */
    method CheckTrySend(it: nat, taken: bool) returns (ghost sent: bool)
      requires Shaped() && it < |routes|
      modifies this`routes, queue`head, queue`isSending, queue`accepted, queue`calls, queue.storage
      ensures Shaped() && WellFormed(old(routes[it]), lens)
      ensures sent <==> Due(old(routes[it])) && !old(State()).queue.Full()
      ensures routes == old(routes)[it := Tried(old(routes[it]), sent)]
      ensures Grew(old(State()).queue, State().queue, if sent then [MessageOf(old(routes[it]), lens)] else [])
    {
      hide WellFormed, PayloadOf, MessageOf, Stored, TakenOf, Fifo.Publish;
      sent := false;
      var r := routes[it];
      assert WellFormed(r, lens);
      NoMessage();
      TypeInRange(r, lens);
      if r.interval > 0 {
        if r.lastPubTd < r.interval {
          return;
        }
      }
      NothingCut(r, lens);
      PublishGrows(queue.State(), MessageOf(r, lens));
      var sts := queue.Publish(r.topic, r.data[..lens[r.type_]], r.qos, r.retain, taken);
      if sts >= 0 {
        sent := true;
        TriedFits(r, lens);
        routes := routes[it := r.(flagNewMsg := false, lastPubTd := 0)];
      }
    }

    /** One round of the loop over the routes: a matching route takes its bytes of the object; on-change
        routes stay quiet if they are the same. */
    method OfferTo(it: nat, id: nat, rpdoN: Byte, data: Data, taken: bool) returns (ghost sent: bool)
      requires Shaped() && it < |routes|
      modifies this`routes, this`ever, queue`head, queue`isSending, queue`accepted, queue`calls, queue.storage
      ensures Shaped() && WellFormed(old(routes[it]), lens)
      ensures var step, r := Object(id, rpdoN, data, []), old(routes[it]);
              && WellFormed(Moved(lens, step, r), lens)
              && (sent <==> Wants(lens, step, r) && !old(State()).queue.Full())
              && routes == old(routes)[it := Tried(Moved(lens, step, r), sent)]
              && ever == old(ever)[it := old(ever[it]) || FlagsMessage(lens, step, r)]
              && Grew(old(State()).queue, State().queue, if sent then [MessageOf(Moved(lens, step, r), lens)] else [])
    {
      hide WellFormed, MqttQueue.Valid, Fifo.Inv, MessageOf, PayloadOf, Moved, FlagsMessage, Wants;
      sent := false;
      var r := routes[it];
      assert WellFormed(r, lens);
      NoMessage();
      OthersStay(r, lens, id, rpdoN, data);
      assert ever[it := ever[it]] == ever && routes[it := r] == routes;
      if r.pdoN == rpdoN && r.canId == id % 0x80 {
        var flagged := Take(it, id, rpdoN, data);
        if flagged {
          sent := CheckTrySend(it, taken);
        }
      }
    }

    /** The bytes of the object, and whether they are to be sent. */
    method Take(it: nat, ghost id: nat, ghost rpdoN: Byte, data: Data) returns (flagged: bool)
      requires Shaped() && it < |routes| && MeantFor(routes[it], id, rpdoN)
      modifies this`routes, this`ever
      ensures Shaped() && WellFormed(old(routes[it]), lens)
      ensures var step, r := Object(id, rpdoN, data, []), old(routes[it]);
              && flagged == FlagsMessage(lens, step, r)
              && routes == old(routes)[it := Moved(lens, step, r)]
              && ever == old(ever)[it := old(ever[it]) || flagged]
    {
      hide WellFormed, MqttQueue.Valid, Fifo.Inv;
      var r := routes[it];
      assert WellFormed(r, lens);
      MovedFits(lens, Object(id, rpdoN, data, []), r, false);
      PartFits(r, lens, data);
      var len := lens[r.type_];
      var got := r.(data := Copied(r.data, data[r.offset..r.offset + len]));
      if got.interval < 0 {
        if got.data[..len] == got.dataPrev[..len] {
          routes := routes[it := got];
          assert ever[it := ever[it]] == ever;
          return false;
        }
      }
      got := got.(dataPrev := Copied(got.dataPrev, got.data[..len]), flagNewMsg := true);
      routes, ever := routes[it := got], ever[it := true];
      return true;
    }

    /** `router_add_pdo` for object `rpdoN` of the node in the message identifier. */
    method AddPdo(id: nat, rpdoN: Byte, data: Data, taken: seq<bool>) returns (ghost sent: seq<bool>)
      requires Valid() && |taken| == |routes|
      modifies this`routes, this`ever, queue`head, queue`isSending, queue`accepted, queue`calls, queue.storage
      ensures Valid()
      ensures RouterNext(lens, old(State()), Object(id, rpdoN, data, sent), State())
    {
      hide WellFormed, RouteOk, MqttQueue.Valid, Fifo.Inv, Round, FlagsMessage, Wants, Moved, Distinct;
      sent := [];
      ghost var start, step := State(), Object(id, rpdoN, data, []);
      RoundStart(lens, start, step);
      var i := 0;
      while i < |routes|
        invariant 0 <= i == |sent| <= |routes| == |start.routes| && Shaped()
        invariant Round(lens, start, step, State(), sent)
      {
        ghost var before := State();
        RoundAt(lens, start, step, before, sent);
        ghost var b := OfferTo(i, id, rpdoN, data, taken[i]);
        MovedFits(lens, step, start.routes[i], b);
        RoundMore(lens, start, step, before, sent, b, State());
        sent := sent + [b];
        i := i + 1;
      }
      ObjectRound(lens, start, id, rpdoN, data, State(), sent);
      RoundKeeps(lens, start, Object(id, rpdoN, data, sent), State(), sent);
    }

    /** One round of the polling loop. */
    method PollOne(it: nat, diffMs: U32, taken: bool) returns (ghost sent: bool)
      requires Shaped() && it < |routes|
      modifies this`routes, queue`head, queue`isSending, queue`accepted, queue`calls, queue.storage
      ensures Shaped() && WellFormed(old(routes[it]), lens)
      ensures var step, r := Polls(diffMs, []), old(routes[it]);
              && WellFormed(Moved(lens, step, r), lens)
              && (sent <==> Wants(lens, step, r) && !old(State()).queue.Full())
              && routes == old(routes)[it := Tried(Moved(lens, step, r), sent)]
              && Grew(old(State()).queue, State().queue, if sent then [MessageOf(Moved(lens, step, r), lens)] else [])
    {
      hide WellFormed, MqttQueue.Valid, Fifo.Inv, MessageOf, PayloadOf;
      sent := false;
      var r := routes[it];
      assert WellFormed(r, lens);
      NoMessage();
      MovedFits(lens, Polls(diffMs, []), r, false);
      routes := routes[it := r.(lastPubTd := (r.lastPubTd + diffMs) % U32_MOD)];
      if routes[it].flagNewMsg {
        sent := CheckTrySend(it, taken);
      }
    }

    /** `router_poll`: time passes for every route, then flagged ones try again. */
    method Poll(diffMs: U32, taken: seq<bool>) returns (ghost sent: seq<bool>)
      requires Valid() && |taken| == |routes|
      modifies this`routes, queue`head, queue`isSending, queue`accepted, queue`calls, queue.storage
      ensures Valid()
      ensures RouterNext(lens, old(State()), Polls(diffMs, sent), State())
    {
      hide WellFormed, RouteOk, MqttQueue.Valid, Fifo.Inv, Round, FlagsMessage, Wants, Moved, Distinct;
      sent := [];
      ghost var start, step := State(), Polls(diffMs, []);
      RoundStart(lens, start, step);
      var i := 0;
      while i < |routes|
        invariant 0 <= i == |sent| <= |routes| == |start.routes| && Shaped()
        invariant Round(lens, start, step, State(), sent)
      {
        ghost var before := State();
        RoundAt(lens, start, step, before, sent);
        ghost var b := PollOne(i, diffMs, taken[i]);
        MovedFits(lens, step, start.routes[i], b);
        NoneFlagged(lens, diffMs, start.routes[i]);
        assert before.ever[i := before.ever[i]] == before.ever;
        RoundMore(lens, start, step, before, sent, b, State());
        sent := sent + [b];
        i := i + 1;
      }
      PollRound(lens, start, diffMs, State(), sent);
      RoundKeeps(lens, start, Polls(diffMs, sent), State(), sent);
    }

    lemma NoMessage()
      requires Shaped()
      ensures Grew(State().queue, State().queue, [])
    {}

    /** lwIP reports the outstanding request back, between any two of the calls above. */
    method Complete(taken: bool)
      requires Valid() && queue.isSending
      modifies queue`tail, queue`isSending, queue`calls, queue`completed
      ensures Valid()
      ensures RouterNext(lens, old(State()), Completion(taken), State())
    {
      hide WellFormed, RouteOk;
      queue.PubRequestCb(taken);
      CompletionKeeps(old(queue.State()), taken);
    }
  }

  /** The route next in line is as the round found it. */
  lemma RoundAt(lens: seq<nat>, s: RouterState, step: RouterStep, t: RouterState, sent: seq<bool>)
    requires Round(lens, s, step, t, sent) && |sent| < |s.routes|
    ensures |t.routes| == |s.routes| == |t.ever| == |s.ever| && s.Shaped(lens)
    ensures t.routes[|sent|] == s.routes[|sent|] && t.ever[|sent|] == s.ever[|sent|]
    ensures WellFormed(s.routes[|sent|], lens)
  {}

  /** Routes the object is not meant for stay as they are; a flagged one wants to send when it is due. */
  lemma OthersStay(r: Route, lens: seq<nat>, id: nat, rpdoN: Byte, data: Data)
    requires WellFormed(r, lens)
    ensures var step := Object(id, rpdoN, data, []);
            && WellFormed(Moved(lens, step, r), lens)
            && (!MeantFor(r, id, rpdoN) ==> Moved(lens, step, r) == r && !FlagsMessage(lens, step, r))
            && (Wants(lens, step, r) <==> FlagsMessage(lens, step, r) && Due(Moved(lens, step, r)))
  {
    MovedFits(lens, Object(id, rpdoN, data, []), r, false);
  }

  lemma NoneFlagged(lens: seq<nat>, ms: U32, r: Route)
    requires WellFormed(r, lens)
    ensures !FlagsMessage(lens, Polls(ms, []), r)
  {}

  /** The record of what was sent is not looked at. */
  lemma ObjectRound(lens: seq<nat>, s: RouterState, id: nat, rpdoN: Byte, data: Data, t: RouterState, sent: seq<bool>)
    requires Round(lens, s, Object(id, rpdoN, data, []), t, sent)
    ensures Round(lens, s, Object(id, rpdoN, data, sent), t, sent)
  {
    hide WellFormed, Batch, Grew, Tried, Wants, Moved, FlagsMessage;
    forall j | 0 <= j < |sent|
      ensures WellFormed(s.routes[j], lens)
      ensures var x, y, r := Object(id, rpdoN, data, []), Object(id, rpdoN, data, sent), s.routes[j];
              Wants(lens, y, r) == Wants(lens, x, r) && Moved(lens, y, r) == Moved(lens, x, r)
              && FlagsMessage(lens, y, r) == FlagsMessage(lens, x, r)
    {
      SameObject(lens, id, rpdoN, data, [], sent, s.routes[j]);
    }
  }

  lemma PollRound(lens: seq<nat>, s: RouterState, ms: U32, t: RouterState, sent: seq<bool>)
    requires Round(lens, s, Polls(ms, []), t, sent)
    ensures Round(lens, s, Polls(ms, sent), t, sent)
  {
    hide WellFormed, Batch, Grew, Tried, Wants, Moved, FlagsMessage;
    forall j | 0 <= j < |sent|
      ensures WellFormed(s.routes[j], lens)
      ensures var x, y, r := Polls(ms, []), Polls(ms, sent), s.routes[j];
              Wants(lens, y, r) == Wants(lens, x, r) && Moved(lens, y, r) == Moved(lens, x, r)
              && FlagsMessage(lens, y, r) == FlagsMessage(lens, x, r)
    {
      SamePoll(lens, ms, [], sent, s.routes[j]);
    }
  }

  lemma SameObject(lens: seq<nat>, id: nat, rpdoN: Byte, data: Data, a: seq<bool>, b: seq<bool>, r: Route)
    requires WellFormed(r, lens)
    ensures var x, y := Object(id, rpdoN, data, a), Object(id, rpdoN, data, b);
            Wants(lens, x, r) == Wants(lens, y, r) && Moved(lens, x, r) == Moved(lens, y, r)
            && FlagsMessage(lens, x, r) == FlagsMessage(lens, y, r)
  {}

  lemma SamePoll(lens: seq<nat>, ms: U32, a: seq<bool>, b: seq<bool>, r: Route)
    requires WellFormed(r, lens)
    ensures var x, y := Polls(ms, a), Polls(ms, b);
            Wants(lens, x, r) == Wants(lens, y, r) && Moved(lens, x, r) == Moved(lens, y, r)
            && FlagsMessage(lens, x, r) == FlagsMessage(lens, y, r)
  {}

  lemma PublishGrows(f: Fifo, m: Msg)
    requires f.Inv()
    ensures forall taken :: Grew(f, f.Publish(m, taken), if f.Full() then [] else [m])
  {
    forall taken
      ensures Grew(f, f.Publish(m, taken), if f.Full() then [] else [m])
    {
      StepKeeps(f, Publishes(m, taken));
    }
  }

  lemma TypeInRange(r: Route, lens: seq<nat>)
    requires WellFormed(r, lens)
    ensures r.type_ < |lens| && lens[r.type_] <= MAX_DATA && r.data[..lens[r.type_]] == PayloadOf(r, lens)
  {}

  lemma TriedFits(r: Route, lens: seq<nat>)
    requires WellFormed(r, lens)
    ensures WellFormed(Tried(r, true), lens)
  {}

  lemma PartFits(r: Route, lens: seq<nat>, data: Data)
    requires WellFormed(r, lens)
    ensures r.type_ < |lens| && lens[r.type_] <= MAX_DATA && r.offset + lens[r.type_] <= MAX_DATA
    ensures Copied(r.data, Part(r, lens, data))[..lens[r.type_]] == Part(r, lens, data)
  {}

  lemma NothingCut(r: Route, lens: seq<nat>)
    requires WellFormed(r, lens)
    ensures Stored(r.topic, PayloadOf(r, lens), r.qos, r.retain) == MessageOf(r, lens)
  {}
}
