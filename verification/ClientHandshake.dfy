/** The client's handshake state machine for TLS 1.2 and below, DTLS included, as it suspends and resumes (RFC 5246,
    section 7.3). Message contents, callbacks and cryptography are arbitrary. */
module ClientHandshake {
  import opened Bytes

  datatype HandshakeState =
    | StartConnect | EnterEarlyData | ReadHelloVerifyRequest | ReadServerHello
    | ReadServerCertificate | ReadCertificateStatus | VerifyServerCertificate | ReadServerKeyExchange
    | ReadCertificateRequest | ReadServerHelloDone | SendClientCertificate | SendClientKeyExchange
    | SendClientCertificateVerify | SendClientFinished | FinishFlight | ReadSessionTicket | ProcessChangeCipherSpec
    | ReadServerFinished | FinishClientHandshake | Done

  datatype Wait =
    | Ok | Error | Flush | ForServerHello | ForMessage | ForChangeCipherSpec
    | X509Lookup | ChannelIdLookup | PrivateKeyOperation | CertificateVerify | EarlyReturn

  datatype Message =
    | ClientHello | HelloVerifyRequest | ServerHello | Certificate | EmptyCertificate | CertificateStatus
    | ServerKeyExchange
    | CertificateRequest | ServerHelloDone | ClientKeyExchange | CertVerify | NextProto | ChannelId | NewSessionTicket
    | Finished | OtherMessage

  /** What happens on the connection. */
  datatype Event =
    | Sent(message: Message) | SentNoCertificateAlert | SentChangeCipherSpec | Flushed | Read(message: Message)
    | OpenedChangeCipherSpec | ChangedReadKeys | ChangedWriteKeys | VerifiedChain | VerifiedSignature | MatchedFinished
    | Completed

  datatype KeyExchange = Rsa | Ecdhe | Psk

  /** What the messages of the server settle: key exchange and `certificateAuth` describe the cipher, `ssl3` the
      version, the next four the extensions that were accepted; `certRequest` is set by a CertificateRequest. */
  datatype Params = Params(
    keyExchange: KeyExchange, certificateAuth: bool, ssl3: bool,
    status: bool, ticket: bool, channelId: bool, nextProto: bool, certRequest: bool)

  /** What the rest depends on: whether a HelloVerifyRequest came, a CertificateStatus, a ServerKeyExchange; whether the
      application had a certificate when one was sent, and when its possession was to be proved. */
  datatype Choices = Choices(cookie: bool, stapled: bool, exchange: bool, certificate: bool, proved: bool)

  const NO_PARAMS := Params(Rsa, false, false, false, false, false, false, false)
  const NO_CHOICES := Choices(false, false, false, false, false)

  // --- The order of states ----------------------------------------------------------------------

  /** The one successor of a state; `resumed` says whether the ServerHello resumed a session. */
  function Next(s: HandshakeState, dtls: bool, resumed: bool): HandshakeState {
    match s
    case StartConnect => EnterEarlyData
    case EnterEarlyData => if dtls then ReadHelloVerifyRequest else ReadServerHello
    case ReadHelloVerifyRequest => ReadServerHello
    case ReadServerHello => if resumed then ReadSessionTicket else ReadServerCertificate
    case ReadServerCertificate => ReadCertificateStatus
    case ReadCertificateStatus => VerifyServerCertificate
    case VerifyServerCertificate => ReadServerKeyExchange
    case ReadServerKeyExchange => ReadCertificateRequest
    case ReadCertificateRequest => ReadServerHelloDone
    case ReadServerHelloDone => SendClientCertificate
    case SendClientCertificate => SendClientKeyExchange
    case SendClientKeyExchange => SendClientCertificateVerify
    case SendClientCertificateVerify => SendClientFinished
    case SendClientFinished => FinishFlight
    case FinishFlight => if resumed then FinishClientHandshake else ReadSessionTicket
    case ReadSessionTicket => ProcessChangeCipherSpec
    case ProcessChangeCipherSpec => ReadServerFinished
    case ReadServerFinished => if resumed then SendClientFinished else FinishClientHandshake
    case FinishClientHandshake => Done
    case Done => Done
  }

  /** How many state changes are still to come, at most. */
  function Rank(s: HandshakeState, resumed: bool): nat {
    match s
    case StartConnect => 19
    case EnterEarlyData => 18
    case ReadHelloVerifyRequest => 17
    case ReadServerHello => 16
    case ReadServerCertificate => 15
    case ReadCertificateStatus => 14
    case VerifyServerCertificate => 13
    case ReadServerKeyExchange => 12
    case ReadCertificateRequest => 11
    case ReadServerHelloDone => 10
    case SendClientCertificate => 9
    case SendClientKeyExchange => 8
    case SendClientCertificateVerify => 7
    case SendClientFinished => if resumed then 3 else 6
    case FinishFlight => if resumed then 2 else 5
    case ReadSessionTicket => if resumed then 6 else 4
    case ProcessChangeCipherSpec => if resumed then 5 else 3
    case ReadServerFinished => if resumed then 4 else 2
    case FinishClientHandshake => 1
    case Done => 0
  }

  /** The rank drops at every state change, in full and in resumed handshakes. */
  lemma RankDrops(s: HandshakeState, dtls: bool, resumed: bool)
    requires s != Done
    ensures Rank(Next(s, dtls, resumed), resumed) < Rank(s, resumed)
  {
  }

  /** The states from `s` on. */
  function Route(s: HandshakeState, dtls: bool, resumed: bool): seq<HandshakeState>
    decreases Rank(s, resumed)
  {
    if s == Done then [] else RankDrops(s, dtls, resumed); [s] + Route(Next(s, dtls, resumed), dtls, resumed)
  }

  // --- What a state contributes to the trace ----------------------------------------------------

  ghost function Optionally(b: bool, e: Event): seq<Event> {
    if b then [e] else []
  }

  /** The events of a state that has been left. */
  ghost function EventsOf(s: HandshakeState, p: Params, c: Choices): seq<Event> {
    match s
    case StartConnect => [Sent(ClientHello)]
    case EnterEarlyData => [Flushed]
    case ReadHelloVerifyRequest => if c.cookie then [Read(HelloVerifyRequest), Sent(ClientHello)] else []
    case ReadServerHello => if c.cookie then [Flushed, Read(ServerHello)] else [Read(ServerHello)]
    case ReadServerCertificate => Optionally(p.certificateAuth, Read(Certificate))
    case ReadCertificateStatus => Optionally(c.stapled, Read(CertificateStatus))
    case VerifyServerCertificate => Optionally(p.certificateAuth, VerifiedChain)
    case ReadServerKeyExchange => ExchangeEvents(p, c.exchange)
    case ReadCertificateRequest => Optionally(p.certRequest, Read(CertificateRequest))
    case ReadServerHelloDone => [Read(ServerHelloDone)]
    case SendClientCertificate => if p.certRequest then [ClientCertificate(p.ssl3, c.certificate)] else []
    case SendClientKeyExchange => [Sent(ClientKeyExchange)]
    case SendClientCertificateVerify => Optionally(p.certRequest && c.proved, Sent(CertVerify))
    case SendClientFinished => FinishEvents(p.nextProto, p.channelId)
    case FinishFlight => [Flushed]
    case ReadSessionTicket => Optionally(p.ticket, Read(NewSessionTicket))
    case ProcessChangeCipherSpec => [OpenedChangeCipherSpec, ChangedReadKeys]
    case ReadServerFinished => [MatchedFinished, Read(Finished)]
    case FinishClientHandshake => [Completed]
    case Done => []
  }

  ghost function ExchangeEvents(p: Params, exchange: bool): seq<Event> {
    if !exchange then []
    else if p.certificateAuth then [VerifiedSignature, Read(ServerKeyExchange)] else [Read(ServerKeyExchange)]
  }

  /** Without a certificate an empty message is sent, in SSL 3.0 an alert instead. */
  ghost function ClientCertificate(ssl3: bool, certificate: bool): Event {
    if certificate then Sent(Certificate) else if ssl3 then SentNoCertificateAlert else Sent(EmptyCertificate)
  }

  /** What must not be: a status that was not asked for, a key exchange where the cipher has none and none where it
      needs one, a request for a certificate by a server without one. */
  ghost predicate Legal(s: HandshakeState, p: Params, c: Choices) {
    match s
    case ReadCertificateStatus => c.stapled ==> p.status
    case ReadServerKeyExchange => (p.keyExchange.Ecdhe? ==> c.exchange) && (p.keyExchange.Rsa? ==> !c.exchange)
    case ReadCertificateRequest => p.certRequest ==> p.certificateAuth
    case Done => false
    case _ => true
  }

  ghost predicate Allowed(s: HandshakeState, events: seq<Event>, p: Params, c: Choices) {
    events == EventsOf(s, p, c) && Legal(s, p, c)
  }

  ghost function FinishEvents(npn: bool, channelId: bool): seq<Event> {
    [SentChangeCipherSpec, ChangedWriteKeys] + Optionally(npn, Sent(NextProto)) + Optionally(channelId, Sent(ChannelId))
    + [Sent(Finished)]
  }

  /** What has already happened in a state that is about to run. */
  ghost predicate Arriving(s: HandshakeState, current: seq<Event>, cookie: bool) {
    match s
    case EnterEarlyData => current == [Flushed]
    case FinishFlight => current == [Flushed]
    case ProcessChangeCipherSpec => current == [OpenedChangeCipherSpec]
    case ReadServerHello => current == if cookie then [Flushed] else []
    case _ => current == []
  }

  /** The handshake is suspended in state `s` and waits for `w`. */
  ghost predicate Suspended(s: HandshakeState, w: Wait, current: seq<Event>, cookie: bool) {
    match s
    case EnterEarlyData => w == Flush && current == []
    case FinishFlight => w == Flush && current == []
    case ProcessChangeCipherSpec => w == ForChangeCipherSpec && current == []
    case ReadServerHello =>
      || (w == Flush && current == [] && cookie)
      || (w == ForServerHello && current == if cookie then [Flushed] else [])
    case _ =>
      && current == [] && w != Flush && w != ForServerHello && w != ForChangeCipherSpec
      && (w == EarlyReturn ==> s == ReadSessionTicket)
  }

  /** A cookie can still be asked for. */
  ghost predicate Greeting(s: HandshakeState) {
    s == StartConnect || s == EnterEarlyData || s == ReadHelloVerifyRequest
  }

  ghost predicate Early(s: HandshakeState) {
    s == StartConnect || s == EnterEarlyData || s == ReadHelloVerifyRequest || s == ReadServerHello
  }

  /** The states of a full handshake that a resumption skips. */
  ghost predicate FullOnly(s: HandshakeState) {
    7 <= Rank(s, true) <= 15
  }

  ghost function EarlyPath(s: HandshakeState, dtls: bool): seq<HandshakeState> {
    match s
    case EnterEarlyData => [StartConnect]
    case ReadHelloVerifyRequest => [StartConnect, EnterEarlyData]
    case ReadServerHello =>
      if dtls then [StartConnect, EnterEarlyData, ReadHelloVerifyRequest] else [StartConnect, EnterEarlyData]
    case _ => []
  }

  /** Everything that happened in the states left so far, in order. */
  ghost function Flatten(segments: seq<seq<Event>>): seq<Event> {
    if segments == [] then [] else segments[0] + Flatten(segments[1..])
  }

  /** The history of a handshake: the states left and the events of each. */
  datatype History = History(path: seq<HandshakeState>, segments: seq<seq<Event>>)

  ghost predicate Sound(h: History, s: HandshakeState, dtls: bool, resumed: bool, p: Params, c: Choices) {
    && |h.path| == |h.segments|
    && h.path + Route(s, dtls, resumed) == Route(StartConnect, dtls, resumed)
    && (Early(s) ==> h.path == EarlyPath(s, dtls))
    && (s == ReadHelloVerifyRequest ==> dtls) && (FullOnly(s) ==> !resumed)
    && (forall i :: 0 <= i < |h.path| ==> Rank(h.path[i], resumed) > Rank(s, resumed))
    && (forall i, j :: 0 <= i < j < |h.path| ==> Rank(h.path[i], resumed) > Rank(h.path[j], resumed))
    && (forall i :: 0 <= i < |h.path| ==> Allowed(h.path[i], h.segments[i], p, c))
    && (p.certRequest ==> !resumed && Rank(s, false) < 11)
    && (c.cookie ==> dtls && !Greeting(s))
  }

  function Append(h: History, s: HandshakeState, events: seq<Event>): History {
    History(h.path + [s], h.segments + [events])
  }

  lemma EarlyNext(s: HandshakeState, dtls: bool, resumed: bool)
    requires s == ReadHelloVerifyRequest ==> dtls
    ensures var next := Next(s, dtls, resumed);
            && (Early(next) ==> Early(s) && EarlyPath(next, dtls) == EarlyPath(s, dtls) + [s])
            && (next == ReadHelloVerifyRequest ==> dtls)
            && ((FullOnly(s) ==> !resumed) ==> (FullOnly(next) ==> !resumed))
  {
  }

  lemma RouteUnfolds(s: HandshakeState, dtls: bool, resumed: bool)
    requires s != Done
    ensures Route(s, dtls, resumed) == [s] + Route(Next(s, dtls, resumed), dtls, resumed)
  {
  }

  lemma NothingYet(dtls: bool, offered: bool)
    ensures Sound(History([], []), StartConnect, dtls, offered, NO_PARAMS, NO_CHOICES)
  {
    hide Route;
    assert [] + Route(StartConnect, dtls, offered) == Route(StartConnect, dtls, offered);
  }

  /** What may be settled when state `s` is left; the ServerHello settles its own. */
  ghost predicate Settles(s: HandshakeState, p: Params, c: Choices, p': Params, c': Choices) {
    && p' == (if s == ReadCertificateRequest then p.(certRequest := p'.certRequest) else p)
    && match s
       case ReadHelloVerifyRequest => c' == c.(cookie := c'.cookie)
       case ReadCertificateStatus => c' == c.(stapled := c'.stapled)
       case ReadServerKeyExchange => c' == c.(exchange := c'.exchange)
       case SendClientCertificate => c' == c.(certificate := c'.certificate)
       case SendClientCertificateVerify => c' == c.(proved := c'.proved)
       case _ => c' == c
  }

  /** Nothing of this matters to the states before. */
  lemma SettledLater(q: HandshakeState, events: seq<Event>, s: HandshakeState, resumed: bool, p: Params, c: Choices,
                     p': Params, c': Choices)
    requires Allowed(q, events, p, c) && Settles(s, p, c, p', c') && Rank(q, resumed) > Rank(s, resumed)
    ensures Allowed(q, events, p', c')
  {
    hide FinishEvents;
  }

  /** Leaving a state for its successor with the events it allows keeps the history sound. */
  lemma LeaveIsSound(h: History, s: HandshakeState, dtls: bool, resumed: bool, p: Params, c: Choices,
                     events: seq<Event>, p': Params, c': Choices)
    requires Sound(h, s, dtls, resumed, p, c) && s != Done && Settles(s, p, c, p', c') && Allowed(s, events, p', c')
    requires s == ReadServerHello ==> !p.certRequest
    ensures Sound(Append(h, s, events), Next(s, dtls, resumed), dtls, resumed, p', c')
  {
    hide Allowed, Next, Rank, Route, Early, EarlyPath, FullOnly, Greeting, Settles;
    RankDrops(s, dtls, resumed);
    RankDrops(s, dtls, false);
    EarlyNext(s, dtls, resumed);
    RouteUnfolds(s, dtls, resumed);
    SettledInTime(s, dtls, resumed, p, c, p', c');
    var h' := Append(h, s, events);
    assert h'.path + Route(Next(s, dtls, resumed), dtls, resumed) == h.path + Route(s, dtls, resumed);
    forall i | 0 <= i < |h.path| ensures Allowed(h.path[i], h.segments[i], p', c') {
      SettledLater(h.path[i], h.segments[i], s, resumed, p, c, p', c');
    }
  }

  lemma SettledInTime(s: HandshakeState, dtls: bool, resumed: bool, p: Params, c: Choices, p': Params, c': Choices)
    requires s != Done && Settles(s, p, c, p', c')
    requires (s == ReadHelloVerifyRequest ==> dtls) && (FullOnly(s) ==> !resumed)
    requires c.cookie ==> dtls && !Greeting(s)
    ensures p'.certRequest && !p.certRequest ==> !resumed && Rank(Next(s, dtls, resumed), false) < 11
    ensures c'.cookie ==> dtls && !Greeting(Next(s, dtls, resumed))
  {
  }

  /** The ServerHello decides whether a session is resumed and which cipher is used. */
  lemma HelloDecides(h: History, dtls: bool, offered: bool, resumed: bool, p: Params, p': Params, c: Choices)
    requires Sound(h, ReadServerHello, dtls, offered, p, c) && !p'.certRequest
    ensures Sound(h, ReadServerHello, dtls, resumed, p', c)
  {
    hide Allowed, Route;
    RouteToHello(dtls, resumed);
    EarlyRanks(dtls, resumed);
    forall i | 0 <= i < |h.path| ensures Allowed(h.path[i], h.segments[i], p', c) {
      EarlyAllowed(h.path[i], h.segments[i], p, p', c);
    }
  }

  lemma EarlyAllowed(s: HandshakeState, events: seq<Event>, p: Params, p': Params, c: Choices)
    requires Early(s) && s != ReadServerHello && Allowed(s, events, p, c)
    ensures Allowed(s, events, p', c)
  {
  }

  lemma EarlyRanks(dtls: bool, resumed: bool)
    ensures var path := EarlyPath(ReadServerHello, dtls);
            && (forall i :: 0 <= i < |path| ==> Early(path[i]) && path[i] != ReadServerHello)
            && (forall i :: 0 <= i < |path| ==> Rank(path[i], resumed) > Rank(ReadServerHello, resumed))
            && (forall i, j :: 0 <= i < j < |path| ==> Rank(path[i], resumed) > Rank(path[j], resumed))
  {
  }

  lemma RouteToHello(dtls: bool, resumed: bool)
    ensures EarlyPath(ReadServerHello, dtls) + Route(ReadServerHello, dtls, resumed)
            == Route(StartConnect, dtls, resumed)
  {
    hide Next, Route;
    NextEarly(dtls, resumed);
    RouteUnfolds(StartConnect, dtls, resumed);
    RouteUnfolds(EnterEarlyData, dtls, resumed);
    RouteUnfolds(ReadHelloVerifyRequest, dtls, resumed);
  }

  lemma NextEarly(dtls: bool, resumed: bool)
    ensures Next(StartConnect, dtls, resumed) == EnterEarlyData
    ensures Next(EnterEarlyData, dtls, resumed) == if dtls then ReadHelloVerifyRequest else ReadServerHello
    ensures Next(ReadHelloVerifyRequest, dtls, resumed) == ReadServerHello
  {
  }

  // --- One call of a state function -------------------------------------------------------------

  /** What a ServerHello settles. */
  datatype Hello = Hello(
    sameId: bool, keyExchange: KeyExchange, certificateAuth: bool, ssl3: bool,
    status: bool, ticket: bool, channelId: bool, nextProto: bool)

  /** All that a state function learns from outside: the next complete message, how many of the operations it performs
      one after the other succeed, and the choices of callbacks and configuration. */
  datatype Answers = Answers(
    message: Option<Message>, successes: nat, hello: Hello, keep: bool, retry: bool, callback: int,
    hasCertificate: bool, haveKey: bool, emptyTicket: bool, canFalseStart: bool)

  /** What the state functions read and write. */
  datatype Data = Data(
    state: HandshakeState, session: bool, params: Params, ticketExpected: bool, choices: Choices)

  /** What one call leaves, returns and does. */
  datatype Effect = Effect(data: Data, ret: Wait, events: seq<Event>)

  ghost function Leave(d: Data, dtls: bool, ret: Wait, events: seq<Event>): Effect {
    Effect(d.(state := Next(d.state, dtls, d.session)), ret, events)
  }

  function ParamsOf(hello: Hello): Params {
    Params(hello.keyExchange, hello.certificateAuth, hello.ssl3,
           hello.status, hello.ticket, hello.channelId, hello.nextProto, false)
  }

  ghost function Negotiated(d: Data, hello: Hello): Data {
    d.(session := d.session && hello.sameId, params := ParamsOf(hello), ticketExpected := hello.ticket)
  }

  /** The rank drops when the state is left. */
  ghost predicate Descends(d: Data, e: Effect) {
    var before, after := Rank(d.state, d.session), Rank(e.data.state, e.data.session);
    if e.data.state != d.state then after < before else e.ret != Error ==> after == before
  }

  /** The loops can go on from the effect: a success has moved on to a state that can run at once, a wait is one that
      its state may be suspended with, and the state has been left wherever the loop counts on it. */
  ghost predicate GoesOn(d: Data, e: Effect) {
    var s, left := e.data.state, e.data.state != d.state;
    && (e.ret == Ok ==> left && Arriving(s, [], e.data.choices.cookie))
    && (e.ret != Ok && e.ret != Error ==>
          s != Done && if left then Suspended(s, e.ret, [], e.data.choices.cookie) else OwnWait(s, e.ret))
    && (!left ==> e.data.choices == d.choices)
    && (e.ret == Flush || e.ret == ForChangeCipherSpec || e.ret == EarlyReturn ==> left)
  }

  ghost predicate Advances(d: Data, e: Effect) {
    e.ret != Error && e.data.state != d.state
  }

  /** What a state function may wait for without leaving its state. */
  ghost predicate OwnWait(s: HandshakeState, w: Wait) {
    match s
    case EnterEarlyData => false
    case FinishFlight => false
    case ProcessChangeCipherSpec => false
    case ReadServerHello => w == ForServerHello
    case _ => w != Flush && w != ForServerHello && w != ForChangeCipherSpec && w != EarlyReturn
  }

  /** Only DTLS reads a HelloVerifyRequest, and only one that was read has settled that there is a cookie. */
  ghost predicate Placed(d: Data, dtls: bool) {
    && (d.state == ReadHelloVerifyRequest ==> dtls)
    && (d.choices.cookie ==> dtls && !Greeting(d.state))
  }

  /** One call of the state function for `d.state`. */
  ghost function StepOn(d: Data, dtls: bool, falseStart: bool, a: Answers): (e: Effect)
    ensures d.state != Done ==> Descends(d, e) && (Placed(d, dtls) ==> GoesOn(d, e) && Placed(e.data, dtls))
    ensures d.state != Done && a == Way(d) ==> Advances(d, e)
  {
    match d.state
    case StartConnect => OnStartConnect(d, dtls, a)
    case EnterEarlyData => OnEnterEarlyData(d, dtls, a)
    case ReadHelloVerifyRequest => OnReadHelloVerifyRequest(d, dtls, a)
    case ReadServerHello => OnReadServerHello(d, dtls, a)
    case ReadServerCertificate => OnReadServerCertificate(d, dtls, a)
    case ReadCertificateStatus => OnReadCertificateStatus(d, dtls, a)
    case VerifyServerCertificate => OnVerifyServerCertificate(d, dtls, a)
    case ReadServerKeyExchange => OnKeyExchange(d, dtls, a)
    case ReadCertificateRequest => OnReadCertificateRequest(d, dtls, a)
    case ReadServerHelloDone => OnReadServerHelloDone(d, dtls, a)
    case SendClientCertificate => OnSendClientCertificate(d, dtls, a)
    case SendClientKeyExchange => OnSendClientKeyExchange(d, dtls, a)
    case SendClientCertificateVerify => OnSendClientCertificateVerify(d, dtls, a)
    case SendClientFinished => OnSendFinished(d, dtls, a)
    case FinishFlight => OnFinishFlight(d, dtls, falseStart, a)
    case ReadSessionTicket => OnReadSessionTicket(d, dtls, a)
    case ProcessChangeCipherSpec => OnProcessChangeCipherSpec(d, dtls, a)
    case ReadServerFinished => OnReadServerFinished(d, dtls, a)
    case FinishClientHandshake => OnFinishClientHandshake(d, dtls, a)
    case Done => Effect(d, Ok, [])
  }

  ghost function OnStartConnect(d: Data, dtls: bool, a: Answers): (e: Effect)
    requires d.state == StartConnect
    ensures Descends(d, e) && (Placed(d, dtls) ==> GoesOn(d, e) && Placed(e.data, dtls))
    ensures a == Way(d) ==> Advances(d, e)
  {
    var kept := if a.keep then d else d.(session := false);
    if a.successes < 1 then Effect(kept, Error, []) else Leave(kept, dtls, Flush, [Sent(ClientHello)])
  }

  ghost function OnEnterEarlyData(d: Data, dtls: bool, a: Answers): (e: Effect)
    requires d.state == EnterEarlyData
    ensures Descends(d, e) && (Placed(d, dtls) ==> GoesOn(d, e) && Placed(e.data, dtls))
    ensures a == Way(d) ==> Advances(d, e)
  {
    Leave(d, dtls, Ok, [])
  }

  ghost function OnReadHelloVerifyRequest(d: Data, dtls: bool, a: Answers): (e: Effect)
    requires d.state == ReadHelloVerifyRequest
    ensures Descends(d, e) && (Placed(d, dtls) ==> GoesOn(d, e) && Placed(e.data, dtls))
    ensures a == Way(d) ==> Advances(d, e)
  {
    if a.message.None? then Effect(d, ForMessage, [])
    else if a.message.value != HelloVerifyRequest then Leave(d.(choices := d.choices.(cookie := false)), dtls, Ok, [])
    else OnVerifyRequest(d, dtls, a.successes)
  }

  ghost function OnVerifyRequest(d: Data, dtls: bool, successes: nat): (e: Effect)
    requires d.state == ReadHelloVerifyRequest
    ensures Descends(d, e) && (Placed(d, dtls) ==> GoesOn(d, e) && Placed(e.data, dtls))
  {
    if successes < 1 then Effect(d, Error, [])
    else if successes < 2 then Effect(d, Error, [Read(HelloVerifyRequest)])
    else Leave(d.(choices := d.choices.(cookie := true)), dtls, Flush, [Read(HelloVerifyRequest), Sent(ClientHello)])
  }

  ghost function OnReadServerHello(d: Data, dtls: bool, a: Answers): (e: Effect)
    requires d.state == ReadServerHello
    ensures Descends(d, e) && (Placed(d, dtls) ==> GoesOn(d, e) && Placed(e.data, dtls))
    ensures a == Way(d) ==> Advances(d, e)
  {
    if a.message.None? then Effect(d, ForServerHello, [])
    else if a.message.value != ServerHello || a.successes < 1 then Effect(d, Error, [])
    else if a.successes < 2 then Effect(Negotiated(d, a.hello), Error, [])
    else Leave(Negotiated(d, a.hello), dtls, Ok, [Read(ServerHello)])
  }

  ghost function OnReadServerCertificate(d: Data, dtls: bool, a: Answers): (e: Effect)
    requires d.state == ReadServerCertificate
    ensures Descends(d, e) && (Placed(d, dtls) ==> GoesOn(d, e) && Placed(e.data, dtls))
    ensures a == Way(d) ==> Advances(d, e)
  {
    if !d.params.certificateAuth then Leave(d, dtls, Ok, [])
    else if a.message.None? then Effect(d, ForMessage, [])
    else if a.message.value != Certificate || a.successes < 1 then Effect(d, Error, [])
    else Leave(d, dtls, Ok, [Read(Certificate)])
  }

  ghost function OnReadCertificateStatus(d: Data, dtls: bool, a: Answers): (e: Effect)
    requires d.state == ReadCertificateStatus
    ensures Descends(d, e) && (Placed(d, dtls) ==> GoesOn(d, e) && Placed(e.data, dtls))
    ensures a == Way(d) ==> Advances(d, e)
  {
    if !d.params.status then Leave(d.(choices := d.choices.(stapled := false)), dtls, Ok, [])
    else if a.message.None? then Effect(d, ForMessage, [])
    else if a.message.value != CertificateStatus then Leave(d.(choices := d.choices.(stapled := false)), dtls, Ok, [])
    else if a.successes < 1 then Effect(d, Error, [])
    else Leave(d.(choices := d.choices.(stapled := true)), dtls, Ok, [Read(CertificateStatus)])
  }

  ghost function OnVerifyServerCertificate(d: Data, dtls: bool, a: Answers): (e: Effect)
    requires d.state == VerifyServerCertificate
    ensures Descends(d, e) && (Placed(d, dtls) ==> GoesOn(d, e) && Placed(e.data, dtls))
    ensures a == Way(d) ==> Advances(d, e)
  {
    if !d.params.certificateAuth then Leave(d, dtls, Ok, [])
    else if a.retry then Effect(d, CertificateVerify, [])
    else if a.successes < 1 then Effect(d, Error, [])
    else Leave(d, dtls, Ok, [VerifiedChain])
  }

  ghost function OnReadCertificateRequest(d: Data, dtls: bool, a: Answers): (e: Effect)
    requires d.state == ReadCertificateRequest
    ensures Descends(d, e) && (Placed(d, dtls) ==> GoesOn(d, e) && Placed(e.data, dtls))
    ensures a == Way(d) ==> Advances(d, e)
  {
    if !d.params.certificateAuth then Leave(d, dtls, Ok, []) else OnPossibleRequest(d, dtls, a)
  }

  ghost function OnPossibleRequest(d: Data, dtls: bool, a: Answers): (e: Effect)
    requires d.state == ReadCertificateRequest
    ensures Descends(d, e) && (Placed(d, dtls) ==> GoesOn(d, e) && Placed(e.data, dtls))
    ensures a == Way(d) ==> Advances(d, e)
  {
    if a.message.None? then Effect(d, ForMessage, [])
    else if a.message.value == ServerHelloDone then Leave(d, dtls, Ok, [])
    else OnRequest(d, dtls, a.message.value == CertificateRequest && a.successes >= 1)
  }

  ghost function OnRequest(d: Data, dtls: bool, parsed: bool): (e: Effect)
    requires d.state == ReadCertificateRequest
    ensures Descends(d, e) && (Placed(d, dtls) ==> GoesOn(d, e) && Placed(e.data, dtls))
  {
    if !parsed then Effect(d, Error, [])
    else Leave(d.(params := d.params.(certRequest := true)), dtls, Ok, [Read(CertificateRequest)])
  }

  ghost function OnReadServerHelloDone(d: Data, dtls: bool, a: Answers): (e: Effect)
    requires d.state == ReadServerHelloDone
    ensures Descends(d, e) && (Placed(d, dtls) ==> GoesOn(d, e) && Placed(e.data, dtls))
    ensures a == Way(d) ==> Advances(d, e)
  {
    if a.message.None? then Effect(d, ForMessage, [])
    else if a.message.value != ServerHelloDone || a.successes < 1 then Effect(d, Error, [])
    else Leave(d, dtls, Ok, [Read(ServerHelloDone)])
  }

  ghost function OnSendClientCertificate(d: Data, dtls: bool, a: Answers): (e: Effect)
    requires d.state == SendClientCertificate
    ensures Descends(d, e) && (Placed(d, dtls) ==> GoesOn(d, e) && Placed(e.data, dtls))
    ensures a == Way(d) ==> Advances(d, e)
  {
    if !d.params.certRequest then Leave(d, dtls, Ok, [])
    else OnRequestedCertificate(d, dtls, a)
  }

  ghost function OnRequestedCertificate(d: Data, dtls: bool, a: Answers): (e: Effect)
    requires d.state == SendClientCertificate
    ensures Descends(d, e) && (Placed(d, dtls) ==> GoesOn(d, e) && Placed(e.data, dtls))
    ensures a == Way(d) ==> Advances(d, e)
  {
    if a.callback < 0 then Effect(d, X509Lookup, [])
    else if a.callback == 0 || a.successes < 1 then Effect(d, Error, [])
    else Leave(d.(choices := d.choices.(certificate := a.hasCertificate)), dtls, Ok,
               [if a.hasCertificate then Sent(Certificate)
                else if d.params.ssl3 then SentNoCertificateAlert else Sent(EmptyCertificate)])
  }

  ghost function OnSendClientKeyExchange(d: Data, dtls: bool, a: Answers): (e: Effect)
    requires d.state == SendClientKeyExchange
    ensures Descends(d, e) && (Placed(d, dtls) ==> GoesOn(d, e) && Placed(e.data, dtls))
    ensures a == Way(d) ==> Advances(d, e)
  {
    if a.successes < 1 then Effect(d, Error, [])
    else if a.successes < 2 then Effect(d, Error, [Sent(ClientKeyExchange)])
    else Leave(d, dtls, Ok, [Sent(ClientKeyExchange)])
  }

  ghost function OnSendClientCertificateVerify(d: Data, dtls: bool, a: Answers): (e: Effect)
    requires d.state == SendClientCertificateVerify
    ensures Descends(d, e) && (Placed(d, dtls) ==> GoesOn(d, e) && Placed(e.data, dtls))
    ensures a == Way(d) ==> Advances(d, e)
  {
    if !d.params.certRequest || !a.hasCertificate then
      Leave(d.(choices := d.choices.(proved := a.hasCertificate)), dtls, Ok, [])
    else if a.retry then Effect(d, PrivateKeyOperation, [])
    else if a.successes < 1 then Effect(d, Error, [])
    else Leave(d.(choices := d.choices.(proved := true)), dtls, Ok, [Sent(CertVerify)])
  }

  ghost function OnFinishFlight(d: Data, dtls: bool, falseStart: bool, a: Answers): (e: Effect)
    requires d.state == FinishFlight
    ensures Descends(d, e) && (Placed(d, dtls) ==> GoesOn(d, e) && Placed(e.data, dtls))
    ensures a == Way(d) ==> Advances(d, e)
  {
    if d.session then Leave(d, dtls, Ok, [])
    else if a.successes < 1 then Effect(d, Error, [])
    else Leave(d, dtls, if falseStart && a.canFalseStart then EarlyReturn else Ok, [])
  }

  ghost function OnReadSessionTicket(d: Data, dtls: bool, a: Answers): (e: Effect)
    requires d.state == ReadSessionTicket
    ensures Descends(d, e) && (Placed(d, dtls) ==> GoesOn(d, e) && Placed(e.data, dtls))
    ensures a == Way(d) ==> Advances(d, e)
  {
    if !d.ticketExpected then Leave(d, dtls, ForChangeCipherSpec, [])
    else if a.message.None? then Effect(d, ForMessage, [])
    else if a.message.value != NewSessionTicket || a.successes < 1 then Effect(d, Error, [])
    else Leave(d.(ticketExpected := !a.emptyTicket), dtls, ForChangeCipherSpec, [Read(NewSessionTicket)])
  }

  ghost function OnProcessChangeCipherSpec(d: Data, dtls: bool, a: Answers): (e: Effect)
    requires d.state == ProcessChangeCipherSpec
    ensures Descends(d, e) && (Placed(d, dtls) ==> GoesOn(d, e) && Placed(e.data, dtls))
    ensures a == Way(d) ==> Advances(d, e)
  {
    if a.successes < 1 then Effect(d, Error, []) else Leave(d, dtls, Ok, [ChangedReadKeys])
  }

  ghost function OnReadServerFinished(d: Data, dtls: bool, a: Answers): (e: Effect)
    requires d.state == ReadServerFinished
    ensures Descends(d, e) && (Placed(d, dtls) ==> GoesOn(d, e) && Placed(e.data, dtls))
    ensures a == Way(d) ==> Advances(d, e)
  {
    if a.message.None? then Effect(d, ForMessage, [])
    else if a.message.value != Finished || a.successes < 2 then Effect(d, Error, [])
    else Leave(d, dtls, Ok, [MatchedFinished, Read(Finished)])
  }

  ghost function OnFinishClientHandshake(d: Data, dtls: bool, a: Answers): (e: Effect)
    requires d.state == FinishClientHandshake
    ensures Descends(d, e) && (Placed(d, dtls) ==> GoesOn(d, e) && Placed(e.data, dtls))
    ensures a == Way(d) ==> Advances(d, e)
  {
    if a.successes < 1 && !d.session then Effect(d, Error, []) else Leave(d, dtls, Ok, [Completed])
  }

  ghost function OnKeyExchange(d: Data, dtls: bool, a: Answers): (e: Effect)
    requires d.state == ReadServerKeyExchange
    ensures Descends(d, e) && (Placed(d, dtls) ==> GoesOn(d, e) && Placed(e.data, dtls))
    ensures a == Way(d) ==> Advances(d, e)
  {
    if a.message.None? then Effect(d, ForMessage, [])
    else if a.message.value != ServerKeyExchange then
      if d.params.keyExchange.Ecdhe? then Effect(d, Error, [])
      else Leave(d.(choices := d.choices.(exchange := false)), dtls, Ok, [])
    else OnPresentKeyExchange(d, dtls, a.successes)
  }

  ghost function OnPresentKeyExchange(d: Data, dtls: bool, successes: nat): (e: Effect)
    requires d.state == ReadServerKeyExchange
    ensures Descends(d, e) && (Placed(d, dtls) ==> GoesOn(d, e) && Placed(e.data, dtls))
    ensures successes >= 3 && !d.params.keyExchange.Rsa? ==> Advances(d, e)
  {
    if successes < 1 || d.params.keyExchange.Rsa? then Effect(d, Error, [])
    else if d.params.certificateAuth then
      if successes < 2 then Effect(d, Error, [])
      else if successes < 3 then Effect(d, Error, [VerifiedSignature])
      else Leave(d.(choices := d.choices.(exchange := true)), dtls, Ok, [VerifiedSignature, Read(ServerKeyExchange)])
    else if successes < 2 then Effect(d, Error, [])
    else Leave(d.(choices := d.choices.(exchange := true)), dtls, Ok, [Read(ServerKeyExchange)])
  }

  /** Every operation of the last flight that succeeds is one event of it. */
  ghost function OnSendFinished(d: Data, dtls: bool, a: Answers): (e: Effect)
    requires d.state == SendClientFinished
    ensures Descends(d, e) && (Placed(d, dtls) ==> GoesOn(d, e) && Placed(e.data, dtls))
    ensures a == Way(d) ==> Advances(d, e)
  {
    var all := FinishEvents(d.params.nextProto, d.params.channelId);
    if d.params.channelId && a.successes < 1 then Effect(d, Error, [])
    else if d.params.channelId && !a.haveKey then Effect(d, ChannelIdLookup, [])
    else
      var n: nat := if d.params.channelId then a.successes - 1 else a.successes;
      if n < |all| then Effect(d, Error, all[..n]) else Leave(d, dtls, Flush, all)
  }

  /** Calls of the state functions one after the other, whatever they wait for coming in between, up to an error. */
  ghost function RunOn(d: Data, dtls: bool, falseStart: bool, answers: seq<Answers>): (Data, Wait)
    decreases |answers|
  {
    if answers == [] then (d, Ok)
    else
      var e := StepOn(d, dtls, falseStart, answers[0]);
      if e.ret == Error then (e.data, Error) else RunOn(e.data, dtls, falseStart, answers[1..])
  }

  /** Answers that let a state function succeed: every operation does, and the next message is one it can use. */
  function Way(d: Data): Answers {
    Answers(Some(Wanted(d)), 10, Hello(true, Ecdhe, true, false, true, true, true, true),
            true, false, 1, true, true, false, false)
  }

  function Wanted(d: Data): Message {
    match d.state
    case ReadHelloVerifyRequest => ServerHello
    case ReadServerHello => ServerHello
    case ReadServerCertificate => Certificate
    case ReadCertificateStatus => CertificateStatus
    case ReadServerKeyExchange => if d.params.keyExchange.Rsa? then OtherMessage else ServerKeyExchange
    case ReadCertificateRequest => ServerHelloDone
    case ReadServerHelloDone => ServerHelloDone
    case ReadSessionTicket => NewSessionTicket
    case ReadServerFinished => Finished
    case _ => OtherMessage
  }

  lemma LeftIsLower(d: Data, e: Effect)
    requires Descends(d, e) && e.data.state != d.state
    ensures Rank(e.data.state, e.data.session) < Rank(d.state, d.session)
  {
    hide Rank;
  }

  /** From every point of every handshake some answers of the peer, the callbacks and the transport lead the state
      functions to completion. */
  lemma {:induction false} NoDeadEnds(d: Data, dtls: bool, falseStart: bool) returns (answers: seq<Answers>)
    ensures var (done, ret) := RunOn(d, dtls, falseStart, answers); ret != Error && done.state == Done
    decreases Rank(d.state, d.session)
  {
    hide StepOn, Rank, Way;
    if d.state == Done {
      answers := [];
    } else {
      var e := StepOn(d, dtls, falseStart, Way(d));
      assert Descends(d, e) && Advances(d, e);
      var rest := NoDeadEnds(e.data, dtls, falseStart);
      answers := [Way(d)] + rest;
      assert answers[1..] == rest;
    }
  }

  // --- Every call, by tables --------------------------------------------------------------------

  /** Whether the state reads a message. */
  predicate Reads(d: Data) {
    match d.state
    case ReadHelloVerifyRequest | ReadServerHello | ReadServerKeyExchange => true
    case ReadServerHelloDone | ReadServerFinished => true
    case ReadServerCertificate | ReadCertificateRequest => d.params.certificateAuth
    case ReadCertificateStatus => d.params.status
    case ReadSessionTicket => d.ticketExpected
    case _ => false
  }

  predicate Brings(a: Answers, m: Message) {
    a.message == Some(m)
  }

  /** What the call waits for, if it does. */
  function WaitOf(d: Data, a: Answers): Option<Wait> {
    if Reads(d) && a.message.None? then Some(if d.state == ReadServerHello then ForServerHello else ForMessage)
    else if d.state == VerifyServerCertificate && d.params.certificateAuth && a.retry then Some(CertificateVerify)
    else if d.state == SendClientCertificate && d.params.certRequest && a.callback < 0 then Some(X509Lookup)
    else if d.state == SendClientCertificateVerify && d.params.certRequest && a.hasCertificate && a.retry then
      Some(PrivateKeyOperation)
    else if d.state == SendClientFinished && d.params.channelId && !a.haveKey && a.successes >= 1 then
      Some(ChannelIdLookup)
    else None
  }

  /** The message is not one that may come here, or the application refuses. */
  predicate Refused(d: Data, a: Answers) {
    match d.state
    case ReadServerHello => !Brings(a, ServerHello)
    case ReadServerCertificate => d.params.certificateAuth && !Brings(a, Certificate)
    case ReadServerKeyExchange =>
      if Brings(a, ServerKeyExchange) then d.params.keyExchange.Rsa? else d.params.keyExchange.Ecdhe?
    case ReadCertificateRequest =>
      d.params.certificateAuth && !Brings(a, ServerHelloDone) && !Brings(a, CertificateRequest)
    case ReadServerHelloDone => !Brings(a, ServerHelloDone)
    case SendClientCertificate => d.params.certRequest && a.callback == 0
    case ReadSessionTicket => d.ticketExpected && !Brings(a, NewSessionTicket)
    case ReadServerFinished => !Brings(a, Finished)
    case _ => false
  }

  /** How many operations must succeed: a message is parsed and used, a message is added, keys are derived. */
  function Operations(d: Data, a: Answers): nat {
    match d.state
    case StartConnect => 1
    case ReadHelloVerifyRequest => if Brings(a, HelloVerifyRequest) then 2 else 0
    case ReadServerHello => 2
    case ReadServerCertificate => if d.params.certificateAuth then 1 else 0
    case ReadCertificateStatus => if d.params.status && Brings(a, CertificateStatus) then 1 else 0
    case VerifyServerCertificate => if d.params.certificateAuth then 1 else 0
    case ReadServerKeyExchange => if !Brings(a, ServerKeyExchange) then 0 else if d.params.certificateAuth then 3 else 2
    case ReadCertificateRequest => if d.params.certificateAuth && Brings(a, CertificateRequest) then 1 else 0
    case ReadServerHelloDone => 1
    case SendClientCertificate => if d.params.certRequest then 1 else 0
    case SendClientKeyExchange => 2
    case SendClientCertificateVerify => if d.params.certRequest && a.hasCertificate then 1 else 0
    case SendClientFinished => 3 + (if d.params.nextProto then 1 else 0) + (if d.params.channelId then 2 else 0)
    case FinishFlight => if d.session then 0 else 1
    case ReadSessionTicket => if d.ticketExpected then 1 else 0
    case ProcessChangeCipherSpec => 1
    case ReadServerFinished => 2
    case FinishClientHandshake => if d.session then 0 else 1
    case _ => 0
  }

  predicate CanAdvance(d: Data, a: Answers) {
    WaitOf(d, a).None? && !Refused(d, a) && a.successes >= Operations(d, a)
  }

  /** What is settled by leaving the state. */
  function Settled(d: Data, a: Answers): Data {
    match d.state
    case StartConnect => d.(session := d.session && a.keep)
    case ReadHelloVerifyRequest => d.(choices := d.choices.(cookie := Brings(a, HelloVerifyRequest)))
    case ReadServerHello => Agreed(d, a.hello)
    case ReadCertificateStatus =>
      d.(choices := d.choices.(stapled := d.params.status && Brings(a, CertificateStatus)))
    case ReadServerKeyExchange => d.(choices := d.choices.(exchange := Brings(a, ServerKeyExchange)))
    case ReadCertificateRequest =>
      if d.params.certificateAuth && Brings(a, CertificateRequest) then d.(params := d.params.(certRequest := true))
      else d
    case SendClientCertificate =>
      if d.params.certRequest then d.(choices := d.choices.(certificate := a.hasCertificate)) else d
    case SendClientCertificateVerify => d.(choices := d.choices.(proved := a.hasCertificate))
    case ReadSessionTicket => d.(ticketExpected := d.ticketExpected && !a.emptyTicket)
    case _ => d
  }

  function Agreed(d: Data, hello: Hello): Data {
    Data(d.state, d.session && hello.sameId,
         Params(hello.keyExchange, hello.certificateAuth, hello.ssl3,
                hello.status, hello.ticket, hello.channelId, hello.nextProto, false),
         hello.ticket, d.choices)
  }

  /** What the call does when it advances. */
  function Deeds(d: Data, a: Answers): seq<Event> {
    match d.state
    case StartConnect => [Sent(ClientHello)]
    case ReadHelloVerifyRequest =>
      if Brings(a, HelloVerifyRequest) then [Read(HelloVerifyRequest), Sent(ClientHello)] else []
    case ReadServerHello => [Read(ServerHello)]
    case ReadServerCertificate => if d.params.certificateAuth then [Read(Certificate)] else []
    case ReadCertificateStatus =>
      if d.params.status && Brings(a, CertificateStatus) then [Read(CertificateStatus)] else []
    case VerifyServerCertificate => if d.params.certificateAuth then [VerifiedChain] else []
    case ReadServerKeyExchange =>
      if !Brings(a, ServerKeyExchange) then []
      else if d.params.certificateAuth then [VerifiedSignature, Read(ServerKeyExchange)]
      else [Read(ServerKeyExchange)]
    case ReadCertificateRequest =>
      if d.params.certificateAuth && Brings(a, CertificateRequest) then [Read(CertificateRequest)] else []
    case ReadServerHelloDone => [Read(ServerHelloDone)]
    case SendClientCertificate =>
      if !d.params.certRequest then []
      else if a.hasCertificate then [Sent(Certificate)]
      else if d.params.ssl3 then [SentNoCertificateAlert]
      else [Sent(EmptyCertificate)]
    case SendClientKeyExchange => [Sent(ClientKeyExchange)]
    case SendClientCertificateVerify => if d.params.certRequest && a.hasCertificate then [Sent(CertVerify)] else []
    case SendClientFinished =>
      [SentChangeCipherSpec, ChangedWriteKeys] + (if d.params.nextProto then [Sent(NextProto)] else [])
      + (if d.params.channelId then [Sent(ChannelId)] else []) + [Sent(Finished)]
    case ReadSessionTicket => if d.ticketExpected then [Read(NewSessionTicket)] else []
    case ProcessChangeCipherSpec => [ChangedReadKeys]
    case ReadServerFinished => [MatchedFinished, Read(Finished)]
    case FinishClientHandshake => [Completed]
    case _ => []
  }

  /** How much of it a call that fails has done. */
  function Attempted(d: Data, a: Answers): nat {
    match d.state
    case ReadHelloVerifyRequest => a.successes
    case ReadServerKeyExchange => if !Refused(d, a) && d.params.certificateAuth && a.successes == 2 then 1 else 0
    case SendClientKeyExchange => a.successes
    case SendClientFinished => if d.params.channelId && a.successes > 0 then a.successes - 1 else a.successes
    case _ => 0
  }

  function WaitAfter(d: Data, falseStart: bool, a: Answers): Wait {
    match d.state
    case StartConnect => Flush
    case ReadHelloVerifyRequest => if Brings(a, HelloVerifyRequest) then Flush else Ok
    case SendClientFinished => Flush
    case FinishFlight => if !d.session && falseStart && a.canFalseStart then EarlyReturn else Ok
    case ReadSessionTicket => ForChangeCipherSpec
    case _ => Ok
  }

  /** What a failing call leaves behind: a session that is not to be offered, a ServerHello that was parsed. */
  function LeftBehind(d: Data, a: Answers): Data {
    if d.state == StartConnect then d.(session := d.session && a.keep)
    else if d.state == ReadServerHello && Brings(a, ServerHello) && a.successes == 1 then Agreed(d, a.hello)
    else d
  }

  ghost predicate Exactly(d: Data, dtls: bool, falseStart: bool, a: Answers, e: Effect) {
    if WaitOf(d, a).Some? then e == Effect(d, WaitOf(d, a).value, [])
    else if CanAdvance(d, a) then
      var to := Settled(d, a);
      e == Effect(to.(state := Next(d.state, dtls, to.session)), WaitAfter(d, falseStart, a), Deeds(d, a))
    else
      && Attempted(d, a) <= |Deeds(d, a)|
      && e == Effect(LeftBehind(d, a), Error, Deeds(d, a)[..Attempted(d, a)])
  }

  /** A call waits if and only if it has to, advances if and only if it can, and does what the tables say. */
  lemma StepIsExact(d: Data, dtls: bool, falseStart: bool, a: Answers)
    requires d.state != Done
    ensures Exactly(d, dtls, falseStart, a, StepOn(d, dtls, falseStart, a))
  {
    hide Exactly, StepOn;
    if d.state == ReadServerHello {
      HelloIsExact(d, dtls, falseStart, a);
    } else if d.state == ReadServerKeyExchange {
      ExchangeIsExact(d, dtls, falseStart, a);
    } else if d.state == SendClientFinished {
      LastFlightIsExact(d, dtls, falseStart, a);
    } else if Early(d.state) {
      GreetingIsExact(d, dtls, falseStart, a);
    } else if Rank(d.state, false) >= 12 {
      ServerFlightIsExact(d, dtls, falseStart, a);
    } else if Rank(d.state, false) >= 9 {
      RequestIsExact(d, dtls, falseStart, a);
    } else if Rank(d.state, false) >= 6 {
      ClientFlightIsExact(d, dtls, falseStart, a);
    } else {
      FinishIsExact(d, dtls, falseStart, a);
    }
  }

  lemma GreetingIsExact(d: Data, dtls: bool, falseStart: bool, a: Answers)
    requires Early(d.state) && d.state != ReadServerHello
    ensures Exactly(d, dtls, falseStart, a, StepOn(d, dtls, falseStart, a))
  {
    hide GoesOn, Descends, Placed, Advances, Way;
  }

  lemma HelloIsExact(d: Data, dtls: bool, falseStart: bool, a: Answers)
    requires d.state == ReadServerHello
    ensures Exactly(d, dtls, falseStart, a, StepOn(d, dtls, falseStart, a))
  {
    hide GoesOn, Descends, Placed, Advances, Way;
  }

  lemma ExchangeIsExact(d: Data, dtls: bool, falseStart: bool, a: Answers)
    requires d.state == ReadServerKeyExchange
    ensures Exactly(d, dtls, falseStart, a, StepOn(d, dtls, falseStart, a))
  {
    hide GoesOn, Descends, Placed, Advances, Way;
  }

  lemma LastFlightIsExact(d: Data, dtls: bool, falseStart: bool, a: Answers)
    requires d.state == SendClientFinished
    ensures Exactly(d, dtls, falseStart, a, StepOn(d, dtls, falseStart, a))
  {
    hide GoesOn, Descends, Placed, Advances, Way;
  }

  lemma ServerFlightIsExact(d: Data, dtls: bool, falseStart: bool, a: Answers)
    requires 13 <= Rank(d.state, false) <= 15
    ensures Exactly(d, dtls, falseStart, a, StepOn(d, dtls, falseStart, a))
  {
    hide GoesOn, Descends, Placed, Advances, Way;
  }

  lemma RequestIsExact(d: Data, dtls: bool, falseStart: bool, a: Answers)
    requires 9 <= Rank(d.state, false) <= 11
    ensures Exactly(d, dtls, falseStart, a, StepOn(d, dtls, falseStart, a))
  {
    hide GoesOn, Descends, Placed, Advances, Way;
  }

  lemma ClientFlightIsExact(d: Data, dtls: bool, falseStart: bool, a: Answers)
    requires 7 <= Rank(d.state, false) <= 8
    ensures Exactly(d, dtls, falseStart, a, StepOn(d, dtls, falseStart, a))
  {
    hide GoesOn, Descends, Placed, Advances, Way;
  }

  lemma FinishIsExact(d: Data, dtls: bool, falseStart: bool, a: Answers)
    requires d.state != Done && Rank(d.state, false) <= 5
    ensures Exactly(d, dtls, falseStart, a, StepOn(d, dtls, falseStart, a))
  {
    hide GoesOn, Descends, Placed, Advances, Way;
  }

  /** The application has to act. */
  predicate ForApplication(w: Wait) {
    w == X509Lookup || w == ChannelIdLookup || w == PrivateKeyOperation || w == CertificateVerify
  }

  /** The transport has to act. */
  predicate Outside(w: Wait) {
    w == Flush || w == ForServerHello || w == ForMessage || w == ForChangeCipherSpec
  }

  /** An operation or the application says no, and not only the next message is missing. */
  predicate Refuses(d: Data, a: Answers) {
    !CanAdvance(d, a) && !(Reads(d) && a.message.None?)
  }

  lemma RefusalIsOutside(d: Data, dtls: bool, falseStart: bool, a: Answers)
    requires d.state != Done
    ensures var ret := StepOn(d, dtls, falseStart, a).ret; Refuses(d, a) <==> ret == Error || ForApplication(ret)
  {
    hide StepOn, Operations, Refused, Deeds, Settled, LeftBehind, Attempted;
    StepIsExact(d, dtls, falseStart, a);
  }

  /** What resolving a wait comes to: the state machine goes on, the record is read again, or the call returns. */
  datatype Resolution = Proceed | Again | Return(ret: int, early: bool)

  // --- The handshake object ---------------------------------------------------------------------

  class Handshake {
    const dtls: bool
    const falseStart: bool          // SSL_MODE_ENABLE_FALSE_START and what else it takes
    var state: HandshakeState
    var wait: Wait
    var session: bool               // a session is offered, and after the ServerHello: is resumed
    var params: Params
    var ticketExpected: bool
    var choices: Choices
    var records: nat                // records that still arrive
    ghost var refusals: nat         // how often a flush, a record, an operation or the application said no
    ghost var refusal: int          // what the last of them returned
    ghost var history: History
    ghost var current: seq<Event>   // the events of the state that is running

    /** All events so far, in order. */
    ghost function Trace(): seq<Event>
      reads this`history, this`current
    {
      Flatten(history.segments) + current
    }

    ghost predicate Core()
      reads this`history, this`state, this`session, this`params, this`choices, this`ticketExpected
    {
      Sound(history, state, dtls, session, params, choices) && TicketDue(state, session, params, ticketExpected)
    }

    /** Between two calls: an error is final; completed means completed; otherwise the state waits for something. */
    ghost predicate Valid()
      reads this
    {
      && Core()
      && (wait != Error ==>
            if state == Done then wait == Ok && current == [] else Suspended(state, wait, current, choices.cookie))
      && (wait == EarlyReturn ==> falseStart && !session)
    }

    /** The transport, the peer, an operation or the application has said no. */
    twostate predicate Refused(ret: int)
      reads this`refusals, this`refusal
    {
      refusals > old(refusals) && refusal == ret
    }

    /** A state that is left is left with its events filed away; one that is not has added none, errors aside. */
    ghost predicate Kept(ret: Wait, was: HandshakeState, before: seq<Event>)
      reads this
    {
      Core() && (ret != Error ==> current == if state == was then before else [])
    }

    /** What a state function leaves behind for the loops. */
    ghost predicate Outcome(ret: Wait, before: nat)
      reads this
    {
      && Core()
      && (ret == Ok ==> Arriving(state, current, choices.cookie) && Rank(state, session) < before)
      && (ret != Ok && ret != Error ==>
            state != Done && Suspended(state, ret, current, choices.cookie) && Rank(state, session) <= before)
      && (ret == Flush || ret == ForChangeCipherSpec || ret == EarlyReturn ==> Rank(state, session) < before)
      && (ret == EarlyReturn ==> falseStart && !session)
    }

    constructor (isDtls: bool, falseStartAllowed: bool, sessionOffered: bool, arriving: nat)
      ensures Valid() && state == StartConnect && wait == Ok && Trace() == []
      ensures dtls == isDtls && records == arriving
    {
      dtls, falseStart, state, wait, session := isDtls, falseStartAllowed, StartConnect, Ok, sessionOffered;
      params, choices, ticketExpected, records := NO_PARAMS, NO_CHOICES, false, arriving;
      history := History([], []);
      current := [];
      new;
      hide Sound;
      NothingYet(dtls, session);
    }

    function View(): Data
      reads this
    {
      Data(state, session, params, ticketExpected, choices)
    }

    /** The call has left, returned and done exactly this. */
    ghost predicate Does(trace: seq<Event>, ret: Wait, e: Effect)
      reads this
    {
      View() == e.data && ret == e.ret && Trace() == trace + e.events
    }

    ghost method Emit(e: Event)
      modifies this`current
      ensures current == old(current) + [e] && Trace() == old(Trace()) + [e]
      ensures old(current) == [] ==> current == [e]
    {
      current := current + [e];
      assert Trace() == old(Trace()) + [e];
    }

    /** Leaves the state, with what it has settled. */
    method GoWith(next: HandshakeState, p: Params, c: Choices)
      requires Core() && state != Done && next == Next(state, dtls, session) && Settles(state, params, choices, p, c)
      requires Allowed(state, current, p, c) && (state == ReadServerHello ==> !params.certRequest)
      modifies this`state, this`history, this`current, this`params, this`choices
      ensures Core() && state == next && params == p && choices == c && current == [] && Trace() == old(Trace())
      ensures Rank(state, session) < Rank(old(state), old(session))
    {
      hide Sound, TicketDue, Allowed, Settles, TicketDue;
      FlattenAppend(history.segments, current);
      LeaveIsSound(history, state, dtls, session, params, choices, current, p, c);
      RankDrops(state, dtls, session);
      StillDue(state, dtls, session, params, choices, p, c, ticketExpected);
      history, current, state, params, choices := Append(history, state, current), [], next, p, c;
    }

    /** Leaves a state that settles nothing. */
    method GoTo(next: HandshakeState)
      requires Core() && state != Done && next == Next(state, dtls, session)
      requires Allowed(state, current, params, choices) && (state == ReadServerHello ==> !params.certRequest)
      modifies this`state, this`history, this`current
      ensures Core() && state == next && current == [] && Trace() == old(Trace())
      ensures Rank(state, session) < Rank(old(state), old(session))
    {
      hide Sound, TicketDue, Allowed, Settles, TicketDue;
      NothingSettled(state, params, choices);
      FlattenAppend(history.segments, current);
      LeaveIsSound(history, state, dtls, session, params, choices, current, params, choices);
      RankDrops(state, dtls, session);
      StillDue(state, dtls, session, params, choices, params, choices, ticketExpected);
      history, current, state := Append(history, state, current), [], next;
    }

    /** A state whose one event is its last. */
    method EmitAndGo(ghost e: Event, next: HandshakeState)
      requires Core() && state != Done && state != ReadServerHello && next == Next(state, dtls, session)
      requires current == [] && Allowed(state, [e], params, choices)
      modifies this`state, this`history, this`current
      ensures Core() && state == next && current == [] && Trace() == old(Trace()) + [e]
    {
      hide Sound, TicketDue, Allowed, Next, Rank, Trace;
      Emit(e);
      GoTo(next);
    }

    // --- State functions ------------------------------------------------------------------------

    /** The session is no longer offered. */
    method DropSession()
      requires Core() && state == StartConnect
      modifies this`session
      ensures Core() && !session
    {
      hide Sound;
      SessionDropped(history, dtls, session, params, choices);
      session := false;
    }

    method StartConnectStep(a: Answers) returns (ret: Wait)
      requires Core() && state == StartConnect && Arriving(state, current, choices.cookie)
      modifies this`state, this`history, this`current, this`session
      ensures Kept(ret, old(state), old(current))
      ensures Does(old(Trace()), ret, OnStartConnect(old(View()), dtls, a))
    {
      hide Sound, TicketDue, Allowed, Next, GoesOn, Descends, Way, Advances, Rank, Trace;
      AddNothing(Trace());
      AfterStart(params, choices);
      if !a.keep {
        DropSession();
      }
      if a.successes < 1 {
        return Error;
      }
      EmitAndGo(Sent(ClientHello), EnterEarlyData);
      ret := Flush;
    }

    method EnterEarlyDataStep(a: Answers) returns (ret: Wait)
      requires Core() && state == EnterEarlyData && Arriving(state, current, choices.cookie)
      modifies this`state, this`history, this`current
      ensures Kept(ret, old(state), old(current))
      ensures Does(old(Trace()), ret, OnEnterEarlyData(old(View()), dtls, a))
    {
      hide Sound, TicketDue, GoesOn, Descends, Way, Advances, Rank, Trace;
      AddNothing(Trace());
      if dtls {
        GoTo(ReadHelloVerifyRequest);
      } else {
        GoTo(ReadServerHello);
      }
      ret := Ok;
    }

    method ReadHelloVerifyRequestStep(a: Answers) returns (ret: Wait)
      requires Core() && state == ReadHelloVerifyRequest && Arriving(state, current, choices.cookie)
      modifies this`state, this`history, this`current, this`params, this`choices
      ensures Kept(ret, old(state), old(current))
      ensures Does(old(Trace()), ret, OnReadHelloVerifyRequest(old(View()), dtls, a))
    {
      hide Settles, Sound, TicketDue, Allowed, Next, GoesOn, Descends, Way, Advances, Rank, OnVerifyRequest, Trace;
      AddNothing(Trace());
      AfterVerifyRequest(params, choices);
      if a.message.None? {
        return ForMessage;
      }
      if a.message.value != HelloVerifyRequest {
        GoWith(ReadServerHello, params, choices.(cookie := false));
        return Ok;
      }
      ret := AnswerVerifyRequest(a.successes);
    }

    /** A HelloVerifyRequest: its cookie is taken, and a second ClientHello sent with it. */
    method AnswerVerifyRequest(successes: nat) returns (ret: Wait)
      requires Core() && state == ReadHelloVerifyRequest && current == []
      modifies this`state, this`history, this`current, this`params, this`choices
      ensures Kept(ret, old(state), old(current))
      ensures Does(old(Trace()), ret, OnVerifyRequest(old(View()), dtls, successes))
    {
      hide Settles, Sound, TicketDue, Allowed, Next, GoesOn, Descends, Way, Advances, Rank, Trace;
      AddNothing(Trace());
      AfterVerifyRequest(params, choices);
      if successes < 1 {
        return Error;
      }
      Emit(Read(HelloVerifyRequest));
      if successes < 2 {
        return Error;
      }
      SendSecondHello();
      AddTwo(old(Trace()), Read(HelloVerifyRequest), Sent(ClientHello));
      ret := Flush;
    }

    method SendSecondHello()
      requires Core() && state == ReadHelloVerifyRequest && current == [Read(HelloVerifyRequest)]
      modifies this`state, this`history, this`current, this`params, this`choices
      ensures Core() && current == [] && Trace() == old(Trace()) + [Sent(ClientHello)]
      ensures View() == old(View()).(state := ReadServerHello, choices := old(choices).(cookie := true))
    {
      hide Settles, Sound, TicketDue, Allowed, Next, Rank, Trace;
      AfterVerifyRequest(params, choices);
      Emit(Sent(ClientHello));
      assert current == [Read(HelloVerifyRequest), Sent(ClientHello)];
      GoWith(ReadServerHello, params, choices.(cookie := true));
    }

    /** What the ServerHello settles: whether the offered session is resumed, the cipher and the extensions. */
    method Negotiate(hello: Hello)
      requires Core() && state == ReadServerHello
      modifies this`session, this`params, this`ticketExpected
      ensures Core() && View() == Negotiated(old(View()), hello)
    {
      hide Sound, GoesOn, Descends, Way, Advances, Rank;
      var p := Params(hello.keyExchange, hello.certificateAuth, hello.ssl3,
                      hello.status, hello.ticket, hello.channelId, hello.nextProto, false);
      HelloDecides(history, dtls, session, session && hello.sameId, params, p, choices);
      session := session && hello.sameId;
      params, ticketExpected := p, hello.ticket;
    }

    /** A ServerHello that can be parsed. */
    method AcceptHello(a: Answers) returns (ret: Wait)
      requires Core() && state == ReadServerHello && Arriving(state, current, choices.cookie)
      modifies this`state, this`history, this`current, this`session, this`params, this`ticketExpected
      ensures Core() && (ret == Error || ret == Ok)
      ensures ret == Ok ==> current == [] && state == if session then ReadSessionTicket else ReadServerCertificate
      ensures Does(old(Trace()), ret,
                   if a.successes < 2 then Effect(Negotiated(old(View()), a.hello), Error, [])
                   else Leave(Negotiated(old(View()), a.hello), dtls, Ok, [Read(ServerHello)]))
    {
      hide Sound, TicketDue, Allowed, Rank, GoesOn, Descends, Way, Advances, Trace;
      AddNothing(Trace());
      Negotiate(a.hello);
      if a.successes < 2 {
        return Error;
      }
      Emit(Read(ServerHello));
      HelloAllowed(current, params, choices);
      GoTo(if session then ReadSessionTicket else ReadServerCertificate);
      ret := Ok;
    }

    method ReadServerHelloStep(a: Answers) returns (ret: Wait)
      requires Core() && state == ReadServerHello && Arriving(state, current, choices.cookie)
      modifies this`state, this`history, this`current, this`session, this`params, this`ticketExpected
      ensures Kept(ret, old(state), old(current))
      ensures Does(old(Trace()), ret, OnReadServerHello(old(View()), dtls, a))
    {
      hide Sound, TicketDue, Leave, Negotiated, GoesOn, Descends, Way, Advances, Rank, Trace;
      AddNothing(Trace());
      if a.message.None? {
        return ForServerHello;
      }
      if a.message.value != ServerHello || a.successes < 1 {
        return Error;
      }
      ret := AcceptHello(a);
    }

    method ReadServerCertificateStep(a: Answers) returns (ret: Wait)
      requires Core() && state == ReadServerCertificate && Arriving(state, current, choices.cookie)
      modifies this`state, this`history, this`current
      ensures Kept(ret, old(state), old(current))
      ensures Does(old(Trace()), ret, OnReadServerCertificate(old(View()), dtls, a))
    {
      hide Sound, TicketDue, Allowed, Next, GoesOn, Descends, Way, Advances, Rank, Trace;
      AddNothing(Trace());
      AfterCertificate(params, choices);
      if !params.certificateAuth {
        GoTo(ReadCertificateStatus);
        return Ok;
      }
      if a.message.None? {
        return ForMessage;
      }
      if a.message.value != Certificate || a.successes < 1 {
        return Error;
      }
      EmitAndGo(Read(Certificate), ReadCertificateStatus);
      ret := Ok;
    }

    method ReadCertificateStatusStep(a: Answers) returns (ret: Wait)
      requires Core() && state == ReadCertificateStatus && Arriving(state, current, choices.cookie)
      modifies this`state, this`history, this`current, this`params, this`choices
      ensures Kept(ret, old(state), old(current))
      ensures Does(old(Trace()), ret, OnReadCertificateStatus(old(View()), dtls, a))
    {
      hide Settles, Sound, TicketDue, Allowed, Next, GoesOn, Descends, Way, Advances, Rank, Trace;
      AddNothing(Trace());
      AfterStatus(params, choices);
      if !params.status {
        GoWith(VerifyServerCertificate, params, choices.(stapled := false));
        return Ok;
      }
      if a.message.None? {
        return ForMessage;
      }
      if a.message.value != CertificateStatus {
        GoWith(VerifyServerCertificate, params, choices.(stapled := false));
        return Ok;
      }
      if a.successes < 1 {
        return Error;
      }
      Emit(Read(CertificateStatus));
      GoWith(VerifyServerCertificate, params, choices.(stapled := true));
      ret := Ok;
    }

    method VerifyServerCertificateStep(a: Answers) returns (ret: Wait)
      requires Core() && state == VerifyServerCertificate && Arriving(state, current, choices.cookie)
      modifies this`state, this`history, this`current
      ensures Kept(ret, old(state), old(current))
      ensures Does(old(Trace()), ret, OnVerifyServerCertificate(old(View()), dtls, a))
    {
      hide Sound, TicketDue, Allowed, Next, GoesOn, Descends, Way, Advances, Rank, Trace;
      AddNothing(Trace());
      AfterVerification(params, choices);
      if !params.certificateAuth {
        GoTo(ReadServerKeyExchange);
        return Ok;
      }
      if a.retry {
        return CertificateVerify;
      }
      if a.successes < 1 {
        return Error;
      }
      EmitAndGo(VerifiedChain, ReadServerKeyExchange);
      ret := Ok;
    }

    method ReadServerKeyExchangeStep(a: Answers) returns (ret: Wait)
      requires Core() && state == ReadServerKeyExchange && Arriving(state, current, choices.cookie)
      modifies this`state, this`history, this`current, this`params, this`choices
      ensures Kept(ret, old(state), old(current))
      ensures Does(old(Trace()), ret, OnKeyExchange(old(View()), dtls, a))
    {
      hide Settles, Sound, TicketDue, Allowed, GoesOn, Descends, Way, Advances, Rank, OnPresentKeyExchange, Trace;
      AddNothing(Trace());
      KeyExchangeAllowed(params, choices);
      if a.message.None? {
        return ForMessage;
      }
      if a.message.value != ServerKeyExchange {
        if params.keyExchange.Ecdhe? {
          return Error;
        }
        GoOnWithoutKey();
        return Ok;
      }
      ret := AcceptKeyExchange(a.successes);
    }

    /** The cipher can do without a ServerKeyExchange. */
    method GoOnWithoutKey()
      requires Core() && state == ReadServerKeyExchange && current == [] && !params.keyExchange.Ecdhe?
      modifies this`state, this`history, this`current, this`params, this`choices
      ensures Core() && current == [] && Trace() == old(Trace())
      ensures View() == old(View()).(state := ReadCertificateRequest, choices := old(choices).(exchange := false))
    {
      hide Settles, Sound, TicketDue, Allowed, Rank, Trace;
      KeyExchangeAllowed(params, choices);
      GoWith(ReadCertificateRequest, params, choices.(exchange := false));
    }

    /** A ServerKeyExchange: it is parsed, its signature checked where the cipher has one, and its key taken. */
    method AcceptKeyExchange(successes: nat) returns (ret: Wait)
      requires Core() && state == ReadServerKeyExchange && current == []
      modifies this`state, this`history, this`current, this`params, this`choices
      ensures Kept(ret, old(state), old(current))
      ensures Does(old(Trace()), ret, OnPresentKeyExchange(old(View()), dtls, successes))
    {
      hide Settles, Sound, TicketDue, Allowed, GoesOn, Descends, Way, Advances, Rank, Trace;
      AddNothing(Trace());
      KeyExchangeAllowed(params, choices);
      if successes < 1 || params.keyExchange.Rsa? {
        return Error;
      }
      var used := 1;
      if params.certificateAuth {
        if successes < 2 {
          return Error;
        }
        Emit(VerifiedSignature);
        used := 2;
      }
      if successes <= used {
        return Error;
      }
      Emit(Read(ServerKeyExchange));
      AddTwo(old(Trace()), VerifiedSignature, Read(ServerKeyExchange));
      assert current == if params.certificateAuth then [VerifiedSignature, Read(ServerKeyExchange)]
                        else [Read(ServerKeyExchange)];
      GoWith(ReadCertificateRequest, params, choices.(exchange := true));
      ret := Ok;
    }

    method ReadCertificateRequestStep(a: Answers) returns (ret: Wait)
      requires Core() && state == ReadCertificateRequest && Arriving(state, current, choices.cookie)
      modifies this`state, this`history, this`current, this`params, this`choices
      ensures Kept(ret, old(state), old(current))
      ensures Does(old(Trace()), ret, OnReadCertificateRequest(old(View()), dtls, a))
    {
      hide Sound, TicketDue, Allowed, GoesOn, Descends, Way, Advances, Rank, OnPossibleRequest, Trace;
      AddNothing(Trace());
      NotYetRequested(history, dtls, session, params, choices);
      NoRequestAllowed(params, choices);
      if !params.certificateAuth {
        GoTo(ReadServerHelloDone);
        return Ok;
      }
      ret := RequestIfSent(a);
    }

    /** With a certificate cipher the server may ask for a certificate or be done. */
    method RequestIfSent(a: Answers) returns (ret: Wait)
      requires Core() && state == ReadCertificateRequest && current == []
      requires params.certificateAuth && !params.certRequest
      modifies this`state, this`history, this`current, this`params, this`choices
      ensures Kept(ret, old(state), old(current))
      ensures Does(old(Trace()), ret, OnPossibleRequest(old(View()), dtls, a))
    {
      hide Sound, TicketDue, Allowed, GoesOn, Descends, Way, Advances, Rank, Trace;
      AddNothing(Trace());
      NoRequestAllowed(params, choices);
      if a.message.None? {
        return ForMessage;
      }
      if a.message.value == ServerHelloDone {
        GoTo(ReadServerHelloDone);
        return Ok;
      }
      if a.message.value != CertificateRequest || a.successes < 1 {
        return Error;
      }
      AcceptRequest();
      ret := Ok;
    }

    /** A CertificateRequest that can be parsed. */
    method AcceptRequest()
      requires Core() && state == ReadCertificateRequest && current == [] && params.certificateAuth
      modifies this`state, this`history, this`current, this`params, this`choices
      ensures Core() && current == [] && Trace() == old(Trace()) + [Read(CertificateRequest)]
      ensures View() == old(View()).(params := old(params).(certRequest := true), state := ReadServerHelloDone)
    {
      hide Sound, TicketDue, Allowed, Settles, Next, Rank, Trace;
      RequestAllowed(params, choices);
      Emit(Read(CertificateRequest));
      GoWith(ReadServerHelloDone, params.(certRequest := true), choices);
    }

    method ReadServerHelloDoneStep(a: Answers) returns (ret: Wait)
      requires Core() && state == ReadServerHelloDone && Arriving(state, current, choices.cookie)
      modifies this`state, this`history, this`current
      ensures Kept(ret, old(state), old(current))
      ensures Does(old(Trace()), ret, OnReadServerHelloDone(old(View()), dtls, a))
    {
      hide Sound, TicketDue, Allowed, Next, GoesOn, Descends, Way, Advances, Rank, Trace;
      AddNothing(Trace());
      AfterHelloDone(params, choices);
      if a.message.None? {
        return ForMessage;
      }
      if a.message.value != ServerHelloDone || a.successes < 1 {
        return Error;
      }
      EmitAndGo(Read(ServerHelloDone), SendClientCertificate);
      ret := Ok;
    }

    method SendClientCertificateStep(a: Answers) returns (ret: Wait)
      requires Core() && state == SendClientCertificate && Arriving(state, current, choices.cookie)
      modifies this`state, this`history, this`current, this`params, this`choices
      ensures Kept(ret, old(state), old(current))
      ensures Does(old(Trace()), ret, OnSendClientCertificate(old(View()), dtls, a))
    {
      hide Sound, TicketDue, Allowed, GoesOn, Descends, Way, Advances, Rank, OnRequestedCertificate, Trace;
      AddNothing(Trace());
      if !params.certRequest {
        ClientCertificateAllowed(params, choices, false);
        GoTo(SendClientKeyExchange);
        return Ok;
      }
      ret := AnswerRequest(a);
    }

    /** The application's certificate, an empty one, or in SSL 3.0 an alert instead. */
    method AnswerRequest(a: Answers) returns (ret: Wait)
      requires Core() && state == SendClientCertificate && current == [] && params.certRequest
      modifies this`state, this`history, this`current, this`params, this`choices
      ensures Kept(ret, old(state), old(current))
      ensures Does(old(Trace()), ret, OnRequestedCertificate(old(View()), dtls, a))
    {
      hide Settles, Sound, TicketDue, Allowed, GoesOn, Descends, Way, Advances, Rank, Trace;
      AddNothing(Trace());
      if a.callback == 0 {
        return Error;
      }
      if a.callback < 0 {
        return X509Lookup;
      }
      if a.successes < 1 {
        return Error;
      }
      ClientCertificateAllowed(params, choices, a.hasCertificate);
      SendCertificate(a.hasCertificate);
      GoWith(SendClientKeyExchange, params, choices.(certificate := a.hasCertificate));
      ret := Ok;
    }

    /** The Certificate message, or what stands for it without a certificate. */
    method SendCertificate(hasCertificate: bool)
      requires current == []
      modifies this`current
      ensures current == [ClientCertificate(params.ssl3, hasCertificate)] && Trace() == old(Trace()) + current
    {
      hide Trace;
      if hasCertificate {
        Emit(Sent(Certificate));
      } else if params.ssl3 {
        Emit(SentNoCertificateAlert);
      } else {
        Emit(Sent(EmptyCertificate));
      }
    }

    method SendClientKeyExchangeStep(a: Answers) returns (ret: Wait)
      requires Core() && state == SendClientKeyExchange && Arriving(state, current, choices.cookie)
      modifies this`state, this`history, this`current
      ensures Kept(ret, old(state), old(current))
      ensures Does(old(Trace()), ret, OnSendClientKeyExchange(old(View()), dtls, a))
    {
      hide Sound, TicketDue, Allowed, Next, GoesOn, Descends, Way, Advances, Rank, Trace;
      AddNothing(Trace());
      AfterClientKey(params, choices);
      if a.successes < 1 {
        return Error;
      }
      Emit(Sent(ClientKeyExchange));
      if a.successes < 2 {
        // No master secret.
        return Error;
      }
      GoTo(SendClientCertificateVerify);
      ret := Ok;
    }

    method SendClientCertificateVerifyStep(a: Answers) returns (ret: Wait)
      requires Core() && state == SendClientCertificateVerify && Arriving(state, current, choices.cookie)
      modifies this`state, this`history, this`current, this`params, this`choices
      ensures Kept(ret, old(state), old(current))
      ensures Does(old(Trace()), ret, OnSendClientCertificateVerify(old(View()), dtls, a))
    {
      hide Sound, TicketDue, Allowed, Next, GoesOn, Descends, Way, Advances, Rank, Trace;
      AddNothing(Trace());
      AfterProof(params, choices.(proved := a.hasCertificate));
      if !params.certRequest || !a.hasCertificate {
        GoWith(SendClientFinished, params, choices.(proved := a.hasCertificate));
        return Ok;
      }
      if a.retry {
        return PrivateKeyOperation;
      }
      if a.successes < 1 {
        return Error;
      }
      Emit(Sent(CertVerify));
      GoWith(SendClientFinished, params, choices.(proved := true));
      ret := Ok;
    }

    /** ChangeCipherSpec, new write keys, the two extension messages where negotiated, and Finished, as far as the
        operations succeed. */
    method SendFinishedMessages(successes: nat) returns (ok: bool)
      modifies this`current
      ensures var all := FinishEvents(params.nextProto, params.channelId);
              var n := if successes < |all| then successes else |all|;
              && ok == (successes >= |all|)
              && current == old(current) + all[..n] && Trace() == old(Trace()) + all[..n]
    {
      hide Trace;
      ghost var all := FinishEvents(params.nextProto, params.channelId);
      var n := 0;
      ok := false;
      AddNothing(Trace());
      AddNothing(current);
      if successes <= n {
        return;
      }
      EmitNext(all, n, old(current), old(Trace()), SentChangeCipherSpec);
      n := n + 1;
      if successes <= n {
        return;
      }
      EmitNext(all, n, old(current), old(Trace()), ChangedWriteKeys);
      n := n + 1;
      ok, n := SendExtensions(successes, n, all, old(current), old(Trace()));
      if !ok || successes <= n {
        return false;
      }
      EmitNext(all, n, old(current), old(Trace()), Sent(Finished));
    }

    /** The two extension messages between the ChangeCipherSpec and Finished. */
    method SendExtensions(successes: nat, sent: nat, ghost all: seq<Event>, ghost was: seq<Event>,
                          ghost trace: seq<Event>)
      returns (ok: bool, n: nat)
      requires all == FinishEvents(params.nextProto, params.channelId) && sent == 2 <= successes
      requires current == was + all[..sent] && Trace() == trace + all[..sent]
      modifies this`current
      ensures n <= successes && if ok then n == |all| - 1 else n < |all| - 1 && n == successes
      ensures current == was + all[..n] && Trace() == trace + all[..n]
    {
      hide Trace;
      n := sent;
      if params.nextProto {
        if successes <= n {
          return false, n;
        }
        EmitNext(all, n, was, trace, Sent(NextProto));
        n := n + 1;
      }
      if params.channelId {
        if successes <= n {
          return false, n;
        }
        EmitNext(all, n, was, trace, Sent(ChannelId));
        n := n + 1;
      }
      ok := true;
    }

    /** The next of a run of events. */
    ghost method EmitNext(all: seq<Event>, n: nat, was: seq<Event>, trace: seq<Event>, e: Event)
      requires n < |all| && all[n] == e && current == was + all[..n] && Trace() == trace + all[..n]
      modifies this`current
      ensures current == was + all[..n + 1] && Trace() == trace + all[..n + 1]
    {
      Emit(e);
      assert all[..n + 1] == all[..n] + [e];
    }

    /** The last flight with so many operations succeeding: cut short, or complete and the state left. */
    method SendLastFlight(n: nat) returns (ret: Wait)
      requires Core() && state == SendClientFinished && current == []
      modifies this`state, this`history, this`current
      ensures Core() && (ret == Error || ret == Flush)
      ensures var all := FinishEvents(params.nextProto, params.channelId);
              if n < |all| then ret == Error && state == SendClientFinished && Trace() == old(Trace()) + all[..n]
              else ret == Flush && state == FinishFlight && current == [] && Trace() == old(Trace()) + all
    {
      hide Sound, TicketDue, Allowed, FinishEvents, Rank, GoesOn, Descends, Way, Advances, Trace;
      ghost var all := FinishEvents(params.nextProto, params.channelId);
      var ok := SendFinishedMessages(n);
      if !ok {
        return Error;
      }
      assert all[..|all|] == all && [] + all == all;
      FinishAllowed(params, choices);
      GoTo(FinishFlight);
      ret := Flush;
    }

    method SendClientFinishedStep(a: Answers) returns (ret: Wait)
      requires Core() && state == SendClientFinished && Arriving(state, current, choices.cookie)
      modifies this`state, this`history, this`current
      ensures Kept(ret, old(state), old(current))
      ensures Does(old(Trace()), ret, OnSendFinished(old(View()), dtls, a))
    {
      hide Does, Sound, GoesOn, Descends, Way, Advances, Rank, Trace;
      ret := KeyAndLastFlight(a);
    }

    /** The Channel ID key where one was negotiated, then the last flight. */
    method KeyAndLastFlight(a: Answers) returns (ret: Wait)
      requires Core() && state == SendClientFinished && current == []
      modifies this`state, this`history, this`current
      ensures Core() && Does(old(Trace()), ret, OnSendFinished(old(View()), dtls, a))
      ensures ret == Error || (ret == ChannelIdLookup && state == SendClientFinished && current == [])
                           || (ret == Flush && state == FinishFlight && current == [])
    {
      hide Sound, TicketDue, FinishEvents, GoesOn, Descends, Way, Advances, Rank, Trace;
      AddNothing(Trace());
      var left := a.successes;
      if params.channelId {
        if left < 1 {
          return Error;
        }
        if !a.haveKey {
          return ChannelIdLookup;
        }
        left := left - 1;
      }
      ret := SendLastFlight(left);
    }

    method FinishFlightStep(a: Answers) returns (ret: Wait)
      requires Core() && state == FinishFlight && Arriving(state, current, choices.cookie)
      modifies this`state, this`history, this`current
      ensures Kept(ret, old(state), old(current))
      ensures Does(old(Trace()), ret, OnFinishFlight(old(View()), dtls, falseStart, a))
    {
      hide Sound, TicketDue, Allowed, GoesOn, Descends, Way, Advances, Rank, Trace;
      AddNothing(Trace());
      FlushAllowed(params, choices);
      if session {
        GoTo(FinishClientHandshake);
        return Ok;
      }
      if a.successes < 1 {
        return Error;
      }
      GoTo(ReadSessionTicket);
      ret := if falseStart && a.canFalseStart then EarlyReturn else Ok;
    }

    /** A NewSessionTicket that can be parsed; an empty one means that there is none after all. */
    method AcceptTicket(emptyTicket: bool)
      requires Core() && state == ReadSessionTicket && current == [] && ticketExpected
      modifies this`state, this`history, this`current, this`ticketExpected
      ensures Core() && current == [] && state == ProcessChangeCipherSpec
      ensures Does(old(Trace()), ForChangeCipherSpec,
                   Leave(old(View()).(ticketExpected := !emptyTicket), dtls, ForChangeCipherSpec,
                         [Read(NewSessionTicket)]))
    {
      hide Sound, TicketDue, Allowed, Rank, GoesOn, Descends, Way, Advances, Trace;
      TicketAllowed(params, choices);
      TicketIsDue(session, params, ticketExpected);
      Emit(Read(NewSessionTicket));
      assert current == [Read(NewSessionTicket)];
      GoTo(ProcessChangeCipherSpec);
      NoTicketDue(session, params);
      if emptyTicket {
        ticketExpected := false;
      }
    }

    method ReadSessionTicketStep(a: Answers) returns (ret: Wait)
      requires Core() && state == ReadSessionTicket && Arriving(state, current, choices.cookie)
      modifies this`state, this`history, this`current, this`ticketExpected
      ensures Kept(ret, old(state), old(current))
      ensures Does(old(Trace()), ret, OnReadSessionTicket(old(View()), dtls, a))
    {
      hide Sound, TicketDue, Does, OnReadSessionTicket, GoesOn, Descends, Way, Advances, Rank, Trace;
      ret := TicketIfExpected(a);
    }

    method TicketIfExpected(a: Answers) returns (ret: Wait)
      requires Core() && state == ReadSessionTicket && current == []
      modifies this`state, this`history, this`current, this`ticketExpected
      ensures Core() && current == [] && Does(old(Trace()), ret, OnReadSessionTicket(old(View()), dtls, a))
      ensures || (ret == ForChangeCipherSpec && state == ProcessChangeCipherSpec)
              || ((ret == ForMessage || ret == Error) && state == ReadSessionTicket)
    {
      hide Sound, TicketDue, Allowed, Rank, GoesOn, Descends, Way, Advances, Trace;
      AddNothing(Trace());
      TicketAllowed(params, choices);
      TicketIsDue(session, params, ticketExpected);
      if !ticketExpected {
        GoTo(ProcessChangeCipherSpec);
        return ForChangeCipherSpec;
      }
      if a.message.None? {
        return ForMessage;
      }
      if a.message.value != NewSessionTicket || a.successes < 1 {
        return Error;
      }
      AcceptTicket(a.emptyTicket);
      ret := ForChangeCipherSpec;
    }

    method ProcessChangeCipherSpecStep(a: Answers) returns (ret: Wait)
      requires Core() && state == ProcessChangeCipherSpec && Arriving(state, current, choices.cookie)
      modifies this`state, this`history, this`current
      ensures Kept(ret, old(state), old(current))
      ensures Does(old(Trace()), ret, OnProcessChangeCipherSpec(old(View()), dtls, a))
    {
      hide Sound, TicketDue, GoesOn, Descends, Way, Advances, Rank, Trace;
      AddNothing(Trace());
      if a.successes < 1 {
        return Error;
      }
      Emit(ChangedReadKeys);
      GoTo(ReadServerFinished);
      ret := Ok;
    }

    /** The peer's Finished must be the expected one. */
    method GetFinished(a: Answers) returns (ret: Wait)
      modifies this`current
      ensures ret == if a.message.None? then ForMessage
                     else if a.message.value == Finished && a.successes >= 2 then Ok else Error
      ensures current == old(current) + (if ret == Ok then [MatchedFinished, Read(Finished)] else [])
      ensures Trace() == old(Trace()) + (if ret == Ok then [MatchedFinished, Read(Finished)] else [])
    {
      AddNothing(Trace());
      AddNothing(current);
      if a.message.None? {
        return ForMessage;
      }
      if a.message.value != Finished || a.successes < 1 {
        return Error;
      }
      if a.successes < 2 {
        // It does not match.
        return Error;
      }
      Emit(MatchedFinished);
      Emit(Read(Finished));
      AddTwo(old(Trace()), MatchedFinished, Read(Finished));
      AddTwo(old(current), MatchedFinished, Read(Finished));
      ret := Ok;
    }

    method ReadServerFinishedStep(a: Answers) returns (ret: Wait)
      requires Core() && state == ReadServerFinished && Arriving(state, current, choices.cookie)
      modifies this`state, this`history, this`current
      ensures Kept(ret, old(state), old(current))
      ensures Does(old(Trace()), ret, OnReadServerFinished(old(View()), dtls, a))
    {
      hide Sound, TicketDue, Does, OnReadServerFinished, GoesOn, Descends, Way, Advances, Rank, Trace;
      ret := FinishedThenOn(a);
    }

    method FinishedThenOn(a: Answers) returns (ret: Wait)
      requires Core() && state == ReadServerFinished && current == []
      modifies this`state, this`history, this`current
      ensures Core() && current == [] && Does(old(Trace()), ret, OnReadServerFinished(old(View()), dtls, a))
      ensures || (ret == Ok && state == if session then SendClientFinished else FinishClientHandshake)
              || ((ret == ForMessage || ret == Error) && state == ReadServerFinished)
    {
      hide Sound, TicketDue, Allowed, Rank, GoesOn, Descends, Way, Advances, Trace;
      ret := GetFinished(a);
      if ret != Ok {
        return;
      }
      assert current == [MatchedFinished, Read(Finished)];
      FinishedAllowed(params, choices);
      GoTo(if session then SendClientFinished else FinishClientHandshake);
    }

    method FinishClientHandshakeStep(a: Answers) returns (ret: Wait)
      requires Core() && state == FinishClientHandshake && Arriving(state, current, choices.cookie)
      modifies this`state, this`history, this`current
      ensures Kept(ret, old(state), old(current))
      ensures Does(old(Trace()), ret, OnFinishClientHandshake(old(View()), dtls, a))
    {
      hide Sound, TicketDue, Allowed, GoesOn, Descends, Way, Advances, Rank, Trace;
      AddNothing(Trace());
      CompletedAllowed(params, choices);
      if a.successes < 1 && !session {
        return Error;
      }
      EmitAndGo(Completed, Done);
      ret := Ok;
    }

    // --- The two loops --------------------------------------------------------------------------

    method StateStep(a: Answers) returns (ret: Wait)
      requires Core() && state != Done && Arriving(state, current, choices.cookie)
      modifies this
      ensures Outcome(ret, Rank(old(state), old(session))) && unchanged(`records, `refusals, `refusal)
      ensures Does(old(Trace()), ret, StepOn(old(View()), dtls, falseStart, a))
    {
      hide Sound, TicketDue, Arriving, Suspended, Rank, GoesOn, Descends, Way, Advances, StepOn;
      ghost var d, before := View(), current;
      SoundIsPlaced(history, d, dtls);
      EarlyOnlyInFalseStart(d, dtls, falseStart, a);
      ret := Dispatch(a);
      GoesOnIsOutcome(d, StepOn(d, dtls, falseStart, a), before);
    }

    /** Calls the function of the state. */
    method Dispatch(a: Answers) returns (ret: Wait)
      requires Core() && state != Done && Arriving(state, current, choices.cookie)
      modifies this
      ensures Kept(ret, old(state), old(current)) && unchanged(`records, `refusals, `refusal)
      ensures Does(old(Trace()), ret, StepOn(old(View()), dtls, falseStart, a))
    {
      hide Sound, TicketDue, Allowed, Arriving, Suspended, Next, Rank, GoesOn, Descends, Way, Advances, Does, Kept,
           Leave, Trace;
      hide OnStartConnect, OnEnterEarlyData, OnReadHelloVerifyRequest, OnReadServerHello, OnReadServerCertificate,
           OnReadCertificateStatus, OnVerifyServerCertificate, OnReadCertificateRequest, OnReadServerHelloDone,
           OnSendClientCertificate, OnSendClientKeyExchange, OnSendClientCertificateVerify, OnFinishFlight,
           OnReadSessionTicket, OnProcessChangeCipherSpec, OnReadServerFinished, OnFinishClientHandshake,
           OnKeyExchange, OnSendFinished;
      match state {
      case StartConnect => ret := StartConnectStep(a);
      case EnterEarlyData => ret := EnterEarlyDataStep(a);
      case ReadHelloVerifyRequest => ret := ReadHelloVerifyRequestStep(a);
      case ReadServerHello => ret := ReadServerHelloStep(a);
      case ReadServerCertificate => ret := ReadServerCertificateStep(a);
      case ReadCertificateStatus => ret := ReadCertificateStatusStep(a);
      case VerifyServerCertificate => ret := VerifyServerCertificateStep(a);
      case ReadServerKeyExchange => ret := ReadServerKeyExchangeStep(a);
      case ReadCertificateRequest => ret := ReadCertificateRequestStep(a);
      case ReadServerHelloDone => ret := ReadServerHelloDoneStep(a);
      case SendClientCertificate => ret := SendClientCertificateStep(a);
      case SendClientKeyExchange => ret := SendClientKeyExchangeStep(a);
      case SendClientCertificateVerify => ret := SendClientCertificateVerifyStep(a);
      case SendClientFinished => ret := SendClientFinishedStep(a);
      case FinishFlight => ret := FinishFlightStep(a);
      case ReadSessionTicket => ret := ReadSessionTicketStep(a);
      case ProcessChangeCipherSpec => ret := ProcessChangeCipherSpecStep(a);
      case ReadServerFinished => ret := ReadServerFinishedStep(a);
      case FinishClientHandshake => ret := FinishClientHandshakeStep(a);
      }
    }

    /** Calls the function of the state with whatever the peer, the callbacks and the operations answer. */
    method CallState() returns (ret: Wait)
      requires Core() && state != Done && Arriving(state, current, choices.cookie)
      modifies this
      ensures Outcome(ret, Rank(old(state), old(session))) && unchanged(`records)
      ensures if ret == Error || ForApplication(ret) then Refused(-1) else unchanged(`refusals, `refusal)
    {
      hide Sound, TicketDue, Arriving, Suspended, Rank, StepOn, CanAdvance, WaitOf, WaitAfter;
      var a: Answers :| true;
      ghost var d := View();
      ret := StateStep(a);
      StepIsExact(d, dtls, falseStart, a);
      RefusalIsOutside(d, dtls, falseStart, a);
      if Refuses(d, a) {
        refusals, refusal := refusals + 1, -1;
      }
    }

    /** Runs state functions until one does not report success; each success has moved to the next state. */
    method ClientLoop() returns (ret: Wait)
      requires Core() && Arriving(state, current, choices.cookie)
      modifies this
      ensures Core() && unchanged(`records)
      ensures ret == Ok ==> state == Done && current == []
      ensures ret != Ok && ret != Error ==>
                && state != Done && Suspended(state, ret, current, choices.cookie)
                && Rank(state, session) <= Rank(old(state), old(session))
      ensures ret == Flush || ret == ForChangeCipherSpec || ret == EarlyReturn ==>
                Rank(state, session) < Rank(old(state), old(session))
      ensures ret == EarlyReturn ==> falseStart && !session
      ensures if ret == Error || ForApplication(ret) then Refused(-1) else unchanged(`refusals, `refusal)
    {
      hide Sound, TicketDue, Suspended, Rank;
      while state != Done
        invariant Core() && Arriving(state, current, choices.cookie) && unchanged(`records, `refusals, `refusal)
        invariant Rank(state, session) <= Rank(old(state), old(session))
        decreases Rank(state, session)
      {
        ret := CallState();
        if ret != Ok {
          return;
        }
      }
      ret := Ok;
    }

    /** Whether the loop of `Run` has to resolve something the peer or the application provides. */
    static function Progress(w: Wait): nat {
      if w == Ok || w == Flush then 1 else 0
    }

    /** Hands the flight to the transport. */
    method FlushFlight() returns (ret: int)
      modifies this`refusals, this`refusal
      ensures if ret <= 0 then Refused(ret) else unchanged(`refusals, `refusal)
    {
      ret :| true;
      if ret <= 0 {
        refusals, refusal := refusals + 1, ret;
      }
    }

    /** Opens the next record: what was waited for arrives, or the loop retries, or the call returns. */
    method OpenRecord() returns (ret: int, retry: bool)
      modifies this`records, this`refusals, this`refusal
      ensures records <= old(records) && (ret > 0 ==> records < old(records))
      ensures if ret <= 0 then Refused(ret) else unchanged(`refusals, `refusal)
    {
      ret, retry :| true;
      if records == 0 {
        ret := 0;
      } else {
        records := records - 1;
      }
      if ret <= 0 {
        refusals, refusal := refusals + 1, ret;
      }
    }

    /** Resolves what the handshake waits for; only what the peer or the transport provides can be resolved here. */
    method ResolveWait() returns (r: Resolution)
      requires Valid()
      modifies this`wait, this`records, this`current, this`refusals, this`refusal
      ensures records <= old(records) && (r.Proceed? || r.Again? ==> wait == old(wait))
      ensures r.Proceed? ==> Core() && Arriving(state, current, choices.cookie)
      ensures r.Proceed? ==> (Progress(wait) == 0 ==> records < old(records))
      ensures !r.Proceed? ==> Valid() && current == old(current)
      ensures r.Again? ==> records < old(records)
      ensures r.Return? && r.ret > 0 ==> r.early && wait == Ok
      ensures r.Return? && r.early ==> r.ret == 1 && falseStart && !session && state == ReadSessionTicket
      ensures r.Return? && wait == Error ==> r.ret <= 0
      ensures old(wait) == Error ==> r == Return(-1, false) && unchanged(this)
      ensures r.Return? ==> if old(wait) == Error || Outside(old(wait)) then wait == old(wait) else wait == Ok
      ensures if r.Return? && Outside(old(wait)) then r.ret <= 0 && Refused(r.ret) else unchanged(`refusals, `refusal)
      ensures old(wait) == EarlyReturn ==> r == Return(1, true)
      ensures ForApplication(old(wait)) ==> r == Return(-1, false)
      ensures old(wait) == Ok ==> r.Proceed?
    {
      hide Sound, TicketDue, Rank, Allowed;
      if wait == Error {
        return Return(-1, false);
      } else if wait == Flush {
        var ret := FlushFlight();
        if ret <= 0 {
          return Return(ret, false);
        }
        Emit(Flushed);
      } else if wait == ForServerHello || wait == ForMessage || wait == ForChangeCipherSpec {
        r := ReceiveRecord();
        return;
      } else if wait == EarlyReturn {
        wait := Ok;
        return Return(1, true);
      } else if wait != Ok {
        // X509Lookup, ChannelIdLookup, PrivateKeyOperation or CertificateVerify: the application has to act.
        wait := Ok;
        return Return(-1, false);
      }
      r := Proceed;
    }

    /** The next record, where the handshake waits for a message or a ChangeCipherSpec. */
    method ReceiveRecord() returns (r: Resolution)
      requires Valid() && (wait == ForServerHello || wait == ForMessage || wait == ForChangeCipherSpec)
      modifies this`records, this`current, this`refusals, this`refusal
      ensures records <= old(records) && (r.Proceed? || r.Again? ==> records < old(records))
      ensures r.Proceed? ==> Core() && Arriving(state, current, choices.cookie)
      ensures !r.Proceed? ==> Valid() && current == old(current)
      ensures if r.Return? then !r.early && r.ret <= 0 && Refused(r.ret) else unchanged(`refusals, `refusal)
    {
      hide Sound, TicketDue, Rank, Allowed;
      var ret, retry := OpenRecord();
      if ret <= 0 {
        return Return(ret, false);
      }
      if retry {
        return Again;
      }
      if wait == ForChangeCipherSpec {
        Emit(OpenedChangeCipherSpec);
      }
      r := Proceed;
    }

    /** `ssl_run_handshake`: resolves what the handshake waits for and runs the state machine, until it must return to
        the caller. Completion is reported only in the final state. */
    method Run() returns (ret: int, early: bool)
      requires Valid()
      modifies this
      ensures Valid()
      ensures ret > 0 && !early ==> state == Done && wait == Ok
      ensures early ==> ret == 1 && falseStart && !session && state == ReadSessionTicket
      ensures old(wait) == Error ==> ret == -1 && unchanged(this)
      ensures wait == Error ==> ret <= 0
      ensures wait == Ok || wait == Error || Outside(wait)
      ensures if ret > 0 then unchanged(`refusals, `refusal)
              else || Refused(ret)
                   || (unchanged(`refusals, `refusal) && ret == -1 && (old(wait) == Error || ForApplication(old(wait))))
    {
      hide Sound, TicketDue, Rank, Allowed, Arriving, Suspended, Trace;
      ghost var first := true;
      while true
        invariant Valid()
        invariant old(wait) == Error ==> unchanged(this)
        invariant (first ==> unchanged(this)) && (wait == Error ==> first)
        invariant ForApplication(wait) && !first ==> Refused(-1)
        invariant !ForApplication(wait) ==> unchanged(`refusals, `refusal)
        decreases records, Rank(state, session), Progress(wait)
      {
        var r := ResolveWait();
        if r.Return? {
          return r.ret, r.early;
        }
        first := false;
        if r.Proceed? {
          wait := ClientLoop();
          if wait == Error {
            return -1, false;
          }
          if wait == Ok {
            return 1, false;
          }
        }
      }
    }

    /** Between two calls of state functions: the next one can run, or what it waits for is still to come. */
    ghost predicate Resumable()
      reads this
    {
      && Core() && wait != Error
      && if state == Done then wait == Ok && current == []
         else if wait == Ok then Arriving(state, current, choices.cookie)
         else Suspended(state, wait, current, choices.cookie)
    }

    /** The same on the object: wherever a handshake without an error stands, it can be completed. */
    method Complete()
      requires Valid() && wait != Error
      modifies this
      ensures Valid() && state == Done && wait == Ok && old(Trace()) <= Trace()
    {
      hide Sound, TicketDue, Rank, Trace;
      ghost var before := Trace();
      while state != Done
        invariant Resumable() && before <= Trace()
        decreases Rank(state, session)
      {
        StepOnWay();
      }
    }

    /** What was waited for has come, and the state function gets what lets it succeed. */
    method StepOnWay()
      requires Resumable() && state != Done
      modifies this
      ensures Resumable() && old(Trace()) <= Trace() && Rank(state, session) < Rank(old(state), old(session))
    {
      hide Sound, TicketDue, StepOn, Way, Rank, Resumable, Suspended, Arriving;
      Resolve();
      ghost var d := View();
      var a := Way(View());
      wait := StateStep(a);
      LeftIsLower(d, StepOn(d, dtls, falseStart, a));
      IsResumable();
    }

    method Resolve()
      requires Resumable() && state != Done
      modifies this`current
      ensures Core() && Arriving(state, current, choices.cookie) && old(Trace()) <= Trace()
    {
      hide Sound, TicketDue;
      if wait == Flush {
        Emit(Flushed);
      } else if wait == ForChangeCipherSpec {
        Emit(OpenedChangeCipherSpec);
      }
    }

    lemma IsResumable()
      requires Core() && wait != Error
      requires wait == Ok ==> Arriving(state, current, choices.cookie)
      requires wait != Ok ==> state != Done && Suspended(state, wait, current, choices.cookie)
      ensures Resumable()
    {
      hide Sound, TicketDue;
    }

    /** Any number of calls: whatever the peer, the callbacks and the transport do, a handshake that completes has gone
        through exactly one of the two orders. */
    method Connect(calls: nat) returns (completed: bool)
      requires Valid()
      modifies this
      ensures Valid()
      ensures completed ==> state == Done && current == []
      ensures completed ==> Trace() == FullTrace(session, params, choices) && Consistent(session, params, choices)
    {
      hide Sound, TicketDue, FullTrace;
      var i := 0;
      while i < calls
        invariant Valid()
      {
        var ret, early := Run();
        if ret > 0 && !early {
          CompletedTrace(history, dtls, session, params, choices);
          AddNothing(Flatten(history.segments));
          return true;
        }
        i := i + 1;
      }
      completed := false;
    }
  }

  // --- What a completed handshake has done ------------------------------------------------------

  /** The whole course of a completed handshake (RFC 5246, section 7.3; RFC 6347, section 4.2.1). In a full handshake
      the chain is verified and the signature of any ServerKeyExchange checked before the client's key exchange;
      possession of a certificate is proved between the key exchange and the ChangeCipherSpec; the client's Finished
      goes out before the server's is matched, and the read keys change once, after the ChangeCipherSpec was opened. A
      resumption does the last two the other way around. */
  ghost function FullTrace(resumed: bool, p: Params, c: Choices): seq<Event> {
    Greetings(c.cookie) + [Read(ServerHello)]
    + if resumed then ServerFinish(p) + ClientFinish(p) + [Completed]
      else ServerFlight(p, c) + ClientFlight(p, c) + ClientFinish(p) + ServerFinish(p) + [Completed]
  }

  ghost function Greetings(cookie: bool): seq<Event> {
    if cookie then [Sent(ClientHello), Flushed, Read(HelloVerifyRequest), Sent(ClientHello), Flushed]
    else [Sent(ClientHello), Flushed]
  }

  ghost function ServerFlight(p: Params, c: Choices): seq<Event> {
    (if p.certificateAuth then [Read(Certificate)] else [])
    + (if c.stapled then [Read(CertificateStatus)] else [])
    + (if p.certificateAuth then [VerifiedChain] else [])
    + (if c.exchange && p.certificateAuth then [VerifiedSignature] else [])
    + (if c.exchange then [Read(ServerKeyExchange)] else [])
    + (if p.certRequest then [Read(CertificateRequest)] else [])
    + [Read(ServerHelloDone)]
  }

  ghost function ClientFlight(p: Params, c: Choices): seq<Event> {
    (if !p.certRequest then []
     else if c.certificate then [Sent(Certificate)]
     else if p.ssl3 then [SentNoCertificateAlert] else [Sent(EmptyCertificate)])
    + [Sent(ClientKeyExchange)]
    + if p.certRequest && c.proved then [Sent(CertVerify)] else []
  }

  ghost function ClientFinish(p: Params): seq<Event> {
    [SentChangeCipherSpec, ChangedWriteKeys]
    + (if p.nextProto then [Sent(NextProto)] else [])
    + (if p.channelId then [Sent(ChannelId)] else [])
    + [Sent(Finished), Flushed]
  }

  ghost function ServerFinish(p: Params): seq<Event> {
    (if p.ticket then [Read(NewSessionTicket)] else [])
    + [OpenedChangeCipherSpec, ChangedReadKeys, MatchedFinished, Read(Finished)]
  }

  /** An ephemeral key exchange has had its ServerKeyExchange, RSA none; a status was announced; only a server with a
      certificate has asked for one, and only in a full handshake. */
  ghost predicate Consistent(resumed: bool, p: Params, c: Choices) {
    && (!resumed && p.keyExchange.Ecdhe? ==> c.exchange)
    && (!resumed && p.keyExchange.Rsa? ==> !c.exchange)
    && (!resumed && c.stapled ==> p.status)
    && (p.certRequest ==> !resumed && p.certificateAuth)
  }

  /** The events of the states in `path`. */
  ghost function EventsAlong(path: seq<HandshakeState>, p: Params, c: Choices): seq<Event> {
    if path == [] then [] else EventsOf(path[0], p, c) + EventsAlong(path[1..], p, c)
  }

  lemma {:induction false} EventsOfSegments(path: seq<HandshakeState>, segments: seq<seq<Event>>, p: Params, c: Choices)
    requires |path| == |segments|
    requires forall i :: 0 <= i < |path| ==> segments[i] == EventsOf(path[i], p, c)
    ensures Flatten(segments) == EventsAlong(path, p, c)
    decreases |path|
  {
    hide EventsOf;
    if path != [] {
      EventsOfSegments(path[1..], segments[1..], p, c);
    }
  }

  lemma EventsAlongStep(s: HandshakeState, dtls: bool, resumed: bool, p: Params, c: Choices)
    requires s != Done
    ensures EventsAlong(Route(s, dtls, resumed), p, c) ==
            EventsOf(s, p, c) + EventsAlong(Route(Next(s, dtls, resumed), dtls, resumed), p, c)
  {
    hide Route, EventsOf;
    RouteUnfolds(s, dtls, resumed);
    var r := Route(Next(s, dtls, resumed), dtls, resumed);
    assert ([s] + r)[1..] == r;
  }

  lemma NothingAfterDone(dtls: bool, resumed: bool, p: Params, c: Choices)
    ensures EventsAlong(Route(Done, dtls, resumed), p, c) == []
  {
  }

  lemma Regroup(a: seq<Event>, b: seq<Event>, rest: seq<Event>)
    ensures a + (b + rest) == a + b + rest
  {
  }

  lemma EventsToHello(dtls: bool, resumed: bool, p: Params, c: Choices)
    requires c.cookie ==> dtls
    ensures EventsAlong(Route(StartConnect, dtls, resumed), p, c) ==
            Greetings(c.cookie) + [Read(ServerHello)]
            + EventsAlong(Route(Next(ReadServerHello, dtls, resumed), dtls, resumed), p, c)
  {
    hide EventsAlong, Route;
    EventsAlongStep(StartConnect, dtls, resumed, p, c);
    EventsAlongStep(EnterEarlyData, dtls, resumed, p, c);
    EventsAlongStep(ReadHelloVerifyRequest, dtls, resumed, p, c);
    EventsAlongStep(ReadServerHello, dtls, resumed, p, c);
    var rest := EventsAlong(Route(Next(ReadServerHello, dtls, resumed), dtls, resumed), p, c);
    if c.cookie {
      assert [Sent(ClientHello)] + ([Flushed] + ([Read(HelloVerifyRequest), Sent(ClientHello)]
             + ([Flushed, Read(ServerHello)] + rest))) == Greetings(true) + [Read(ServerHello)] + rest;
    } else {
      assert [Sent(ClientHello)] + ([Flushed] + ([] + ([Read(ServerHello)] + rest)))
             == Greetings(false) + [Read(ServerHello)] + rest;
      assert [] + ([Read(ServerHello)] + rest) == [Read(ServerHello)] + rest;
    }
  }

  lemma EventsOfServerFlight(dtls: bool, p: Params, c: Choices)
    ensures EventsAlong(Route(ReadServerCertificate, dtls, false), p, c) ==
            ServerFlight(p, c) + EventsAlong(Route(SendClientCertificate, dtls, false), p, c)
  {
    hide EventsAlong, Route;
    EventsOfCertificates(dtls, p, c);
    EventsOfExchange(dtls, p, c);
    var rest := EventsAlong(Route(SendClientCertificate, dtls, false), p, c);
    ServerFlightParts(p, c);
    Regroup(CertificatePart(p, c), ExchangePart(p, c), rest);
  }

  ghost function CertificatePart(p: Params, c: Choices): seq<Event> {
    EventsOf(ReadServerCertificate, p, c) + EventsOf(ReadCertificateStatus, p, c)
    + EventsOf(VerifyServerCertificate, p, c)
  }

  ghost function ExchangePart(p: Params, c: Choices): seq<Event> {
    EventsOf(ReadServerKeyExchange, p, c) + EventsOf(ReadCertificateRequest, p, c) + EventsOf(ReadServerHelloDone, p, c)
  }

  lemma ServerFlightParts(p: Params, c: Choices)
    ensures CertificatePart(p, c) + ExchangePart(p, c) == ServerFlight(p, c)
  {
    var chain, checked := if p.certificateAuth then [Read(Certificate)] else [],
                          if p.certificateAuth then [VerifiedChain] else [];
    var status := if c.stapled then [Read(CertificateStatus)] else [];
    var signed := if c.exchange && p.certificateAuth then [VerifiedSignature] else [];
    var exchange := if c.exchange then [Read(ServerKeyExchange)] else [];
    var request := if p.certRequest then [Read(CertificateRequest)] else [];
    assert ExchangePart(p, c) == (signed + exchange) + request + [Read(ServerHelloDone)];
    assert CertificatePart(p, c) == chain + status + checked;
    GroupParts(chain + status + checked, signed, exchange, request, [Read(ServerHelloDone)]);
  }

  lemma GroupParts(start: seq<Event>, a: seq<Event>, b: seq<Event>, c: seq<Event>, d: seq<Event>)
    ensures start + ((a + b) + c + d) == start + a + b + c + d
  {
  }

  lemma EventsOfCertificates(dtls: bool, p: Params, c: Choices)
    ensures EventsAlong(Route(ReadServerCertificate, dtls, false), p, c) ==
            CertificatePart(p, c) + EventsAlong(Route(ReadServerKeyExchange, dtls, false), p, c)
  {
    hide EventsAlong, Route, EventsOf;
    EventsAlongStep(ReadServerCertificate, dtls, false, p, c);
    EventsAlongStep(ReadCertificateStatus, dtls, false, p, c);
    EventsAlongStep(VerifyServerCertificate, dtls, false, p, c);
    GroupThree(EventsOf(ReadServerCertificate, p, c), EventsOf(ReadCertificateStatus, p, c),
               EventsOf(VerifyServerCertificate, p, c), EventsAlong(Route(ReadServerKeyExchange, dtls, false), p, c));
  }

  lemma EventsOfExchange(dtls: bool, p: Params, c: Choices)
    ensures EventsAlong(Route(ReadServerKeyExchange, dtls, false), p, c) ==
            ExchangePart(p, c) + EventsAlong(Route(SendClientCertificate, dtls, false), p, c)
  {
    hide EventsAlong, Route, EventsOf;
    EventsAlongStep(ReadServerKeyExchange, dtls, false, p, c);
    EventsAlongStep(ReadCertificateRequest, dtls, false, p, c);
    EventsAlongStep(ReadServerHelloDone, dtls, false, p, c);
    GroupThree(EventsOf(ReadServerKeyExchange, p, c), EventsOf(ReadCertificateRequest, p, c),
               EventsOf(ReadServerHelloDone, p, c), EventsAlong(Route(SendClientCertificate, dtls, false), p, c));
  }

  lemma GroupThree(x: seq<Event>, y: seq<Event>, z: seq<Event>, rest: seq<Event>)
    ensures x + (y + (z + rest)) == x + y + z + rest
  {
  }

  lemma EventsOfClientFlight(dtls: bool, p: Params, c: Choices)
    ensures EventsAlong(Route(SendClientCertificate, dtls, false), p, c) ==
            ClientFlight(p, c) + EventsAlong(Route(SendClientFinished, dtls, false), p, c)
  {
    hide EventsAlong, Route;
    ClientFlightParts(p, c);
    {
      hide EventsOf, ClientFlight;
      EventsAlongStep(SendClientCertificate, dtls, false, p, c);
      EventsAlongStep(SendClientKeyExchange, dtls, false, p, c);
      EventsAlongStep(SendClientCertificateVerify, dtls, false, p, c);
      GroupThree(EventsOf(SendClientCertificate, p, c), EventsOf(SendClientKeyExchange, p, c),
                 EventsOf(SendClientCertificateVerify, p, c),
                 EventsAlong(Route(SendClientFinished, dtls, false), p, c));
    }
  }

  lemma ClientFlightParts(p: Params, c: Choices)
    ensures ClientFlight(p, c) == EventsOf(SendClientCertificate, p, c) + EventsOf(SendClientKeyExchange, p, c)
                                  + EventsOf(SendClientCertificateVerify, p, c)
  {
  }

  lemma EventsOfClientFinish(dtls: bool, resumed: bool, p: Params, c: Choices)
    ensures EventsAlong(Route(SendClientFinished, dtls, resumed), p, c) ==
            ClientFinish(p) + EventsAlong(Route(Next(FinishFlight, dtls, resumed), dtls, resumed), p, c)
  {
    hide EventsAlong, Route;
    ClientFinishParts(p, c);
    {
      hide EventsOf, ClientFinish;
      EventsAlongStep(SendClientFinished, dtls, resumed, p, c);
      EventsAlongStep(FinishFlight, dtls, resumed, p, c);
      Regroup(EventsOf(SendClientFinished, p, c), EventsOf(FinishFlight, p, c),
              EventsAlong(Route(Next(FinishFlight, dtls, resumed), dtls, resumed), p, c));
    }
  }

  lemma ClientFinishParts(p: Params, c: Choices)
    ensures ClientFinish(p) == EventsOf(SendClientFinished, p, c) + EventsOf(FinishFlight, p, c)
  {
  }

  lemma EventsOfServerFinish(dtls: bool, resumed: bool, p: Params, c: Choices)
    ensures EventsAlong(Route(ReadSessionTicket, dtls, resumed), p, c) ==
            ServerFinish(p) + EventsAlong(Route(Next(ReadServerFinished, dtls, resumed), dtls, resumed), p, c)
  {
    hide EventsAlong, Route;
    ServerFinishParts(p, c);
    {
      hide EventsOf, ServerFinish;
      EventsAlongStep(ReadSessionTicket, dtls, resumed, p, c);
      EventsAlongStep(ProcessChangeCipherSpec, dtls, resumed, p, c);
      EventsAlongStep(ReadServerFinished, dtls, resumed, p, c);
      GroupThree(EventsOf(ReadSessionTicket, p, c), EventsOf(ProcessChangeCipherSpec, p, c),
                 EventsOf(ReadServerFinished, p, c),
                 EventsAlong(Route(Next(ReadServerFinished, dtls, resumed), dtls, resumed), p, c));
    }
  }

  lemma ServerFinishParts(p: Params, c: Choices)
    ensures ServerFinish(p) == EventsOf(ReadSessionTicket, p, c) + EventsOf(ProcessChangeCipherSpec, p, c)
                               + EventsOf(ReadServerFinished, p, c)
  {
  }

  lemma LastEvent(dtls: bool, resumed: bool, p: Params, c: Choices)
    ensures EventsAlong(Route(FinishClientHandshake, dtls, resumed), p, c) == [Completed]
  {
    hide EventsAlong, Route;
    NothingAfterDone(dtls, resumed, p, c);
    EventsAlongStep(FinishClientHandshake, dtls, resumed, p, c);
  }

  lemma EventsOfResumption(dtls: bool, p: Params, c: Choices)
    requires c.cookie ==> dtls
    ensures EventsAlong(Route(StartConnect, dtls, true), p, c) == FullTrace(true, p, c)
  {
    hide EventsAlong, Route, EventsOf, ServerFinish, ClientFinish, Greetings;
    EventsToHello(dtls, true, p, c);
    EventsOfServerFinish(dtls, true, p, c);
    EventsOfClientFinish(dtls, true, p, c);
    LastEvent(dtls, true, p, c);
    GroupThree(Greetings(c.cookie) + [Read(ServerHello)], ServerFinish(p), ClientFinish(p), [Completed]);
    Regroup(Greetings(c.cookie) + [Read(ServerHello)], ServerFinish(p) + ClientFinish(p), [Completed]);
  }

  lemma EventsOfFullHandshake(dtls: bool, p: Params, c: Choices)
    requires c.cookie ==> dtls
    ensures EventsAlong(Route(StartConnect, dtls, false), p, c) == FullTrace(false, p, c)
  {
    hide EventsAlong, Route, EventsOf, ServerFlight, ClientFlight, ServerFinish, ClientFinish, Greetings;
    EventsToHello(dtls, false, p, c);
    EventsOfServerFlight(dtls, p, c);
    EventsOfClientFlight(dtls, p, c);
    EventsOfClientFinish(dtls, false, p, c);
    EventsOfServerFinish(dtls, false, p, c);
    LastEvent(dtls, false, p, c);
    var rest := ServerFinish(p) + [Completed];
    GroupThree(ServerFlight(p, c), ClientFlight(p, c), ClientFinish(p), rest);
    Regroup(ServerFlight(p, c) + ClientFlight(p, c) + ClientFinish(p), ServerFinish(p), [Completed]);
  }

  lemma {:induction false} EventsAlongSum(a: seq<HandshakeState>, b: seq<HandshakeState>, p: Params, c: Choices)
    ensures EventsAlong(a + b, p, c) == EventsAlong(a, p, c) + EventsAlong(b, p, c)
    decreases |a|
  {
    hide EventsOf;
    if a == [] {
      assert a + b == b;
    } else {
      EventsAlongSum(a[1..], b, p, c);
      assert (a + b)[1..] == a[1..] + b;
      Regroup(EventsOf(a[0], p, c), EventsAlong(a[1..], p, c), EventsAlong(b, p, c));
    }
  }

  /** Wherever a handshake stands, what it has done is how the one course begins that its parameters and choices so far
      describe. */
  lemma CourseSoFar(h: History, s: HandshakeState, dtls: bool, resumed: bool, p: Params, c: Choices)
    requires Sound(h, s, dtls, resumed, p, c)
    ensures Flatten(h.segments) <= FullTrace(resumed, p, c)
    ensures Flatten(h.segments) + EventsAlong(Route(s, dtls, resumed), p, c) == FullTrace(resumed, p, c)
  {
    hide EventsAlong, FullTrace, EventsOf, Route;
    EventsOfSegments(h.path, h.segments, p, c);
    EventsAlongSum(h.path, Route(s, dtls, resumed), p, c);
    if resumed {
      EventsOfResumption(dtls, p, c);
    } else {
      EventsOfFullHandshake(dtls, p, c);
    }
  }

  /** A completed handshake has done exactly this, in this order, and what decides it is consistent. */
  lemma CompletedTrace(h: History, dtls: bool, resumed: bool, p: Params, c: Choices)
    requires Sound(h, Done, dtls, resumed, p, c)
    ensures Flatten(h.segments) == FullTrace(resumed, p, c) && Consistent(resumed, p, c)
  {
    hide EventsAlong, FullTrace, EventsOf, Flatten;
    CourseSoFar(h, Done, dtls, resumed, p, c);
    NothingAfterDone(dtls, resumed, p, c);
    AddNothing(Flatten(h.segments));
    assert h.path == Route(StartConnect, dtls, resumed) by {
      assert Route(Done, dtls, resumed) == [];
      assert h.path + [] == h.path;
    }
    hide Route;
    if !resumed {
      FullRoute(dtls, h.path);
      LegalThroughout(h, dtls, p, c);
    }
  }

  lemma LegalThroughout(h: History, dtls: bool, p: Params, c: Choices)
    requires Sound(h, Done, dtls, false, p, c)
    requires ReadCertificateStatus in h.path && ReadServerKeyExchange in h.path && ReadCertificateRequest in h.path
    ensures Consistent(false, p, c)
  {
    hide Route, EventsOf;
    assert forall s :: s in h.path ==> Legal(s, p, c);
  }

  lemma FullRoute(dtls: bool, path: seq<HandshakeState>)
    requires path == Route(StartConnect, dtls, false)
    ensures ReadCertificateStatus in path && ReadServerKeyExchange in path && ReadCertificateRequest in path
  {
    hide Route;
    RouteUnfolds(StartConnect, dtls, false);
    RouteUnfolds(EnterEarlyData, dtls, false);
    RouteUnfolds(ReadHelloVerifyRequest, dtls, false);
    RouteUnfolds(ReadServerHello, dtls, false);
    RouteUnfolds(ReadServerCertificate, dtls, false);
    RouteUnfolds(ReadCertificateStatus, dtls, false);
    RouteUnfolds(VerifyServerCertificate, dtls, false);
    RouteUnfolds(ReadServerKeyExchange, dtls, false);
    RouteUnfolds(ReadCertificateRequest, dtls, false);
    assert ReadCertificateRequest in Route(ReadCertificateRequest, dtls, false);
  }

  // --- Whole runs -------------------------------------------------------------------------------

  /** What happened before the state function that leaves the state was called. */
  ghost function Arrival(s: HandshakeState, cookie: bool): seq<Event> {
    match s
    case EnterEarlyData => [Flushed]
    case ReadServerHello => if cookie then [Flushed] else []
    case FinishFlight => [Flushed]
    case ProcessChangeCipherSpec => [OpenedChangeCipherSpec]
    case _ => []
  }

  /** What a call that advances does, with what came before it, is what the state contributes. */
  lemma DeedsAreAllowed(d: Data, a: Answers)
    requires d.state != Done && CanAdvance(d, a) && (d.state == ReadCertificateRequest ==> !d.params.certRequest)
    requires d.state == ReadSessionTicket ==> d.ticketExpected == d.params.ticket
    ensures var to := Settled(d, a);
            Allowed(d.state, Arrival(d.state, d.choices.cookie) + Deeds(d, a), to.params, to.choices)
  {
    hide Settled, CanAdvance, Deeds, Arrival, EventsOf, Legal;
    IsLegal(d, a);
    if Early(d.state) {
      EarlierDeeds(d, a);
    } else if Rank(d.state, false) >= 12 {
      ServerDeeds(d, a);
    } else {
      LaterDeeds(d, a);
    }
  }

  lemma IsLegal(d: Data, a: Answers)
    requires d.state != Done && CanAdvance(d, a) && (d.state == ReadCertificateRequest ==> !d.params.certRequest)
    ensures var to := Settled(d, a); Legal(d.state, to.params, to.choices)
  {
    hide WaitOf, Operations;
  }

  lemma EarlierDeeds(d: Data, a: Answers)
    requires Early(d.state)
    ensures var to := Settled(d, a);
            Arrival(d.state, d.choices.cookie) + Deeds(d, a) == EventsOf(d.state, to.params, to.choices)
  {
  }

  lemma ServerDeeds(d: Data, a: Answers)
    requires 12 <= Rank(d.state, false) <= 15
    ensures var to := Settled(d, a);
            Arrival(d.state, d.choices.cookie) + Deeds(d, a) == EventsOf(d.state, to.params, to.choices)
  {
  }

  lemma LaterDeeds(d: Data, a: Answers)
    requires d.state != Done && Rank(d.state, false) < 12
    requires d.state == ReadCertificateRequest ==> !d.params.certRequest
    requires d.state == ReadSessionTicket ==> d.ticketExpected == d.params.ticket
    ensures var to := Settled(d, a);
            Arrival(d.state, d.choices.cookie) + Deeds(d, a) == EventsOf(d.state, to.params, to.choices)
  {
  }

  lemma SettledSettles(d: Data, a: Answers)
    requires d.state != Done && d.state != ReadServerHello
    ensures var to := Settled(d, a); Settles(d.state, d.params, d.choices, to.params, to.choices)
  {
  }

  lemma SettledKeeps(d: Data, a: Answers)
    requires d.state != Done && d.state != ReadServerHello
    ensures var to := Settled(d, a);
            to.state == d.state && (d.state != StartConnect ==> to.session == d.session) && (to.session ==> d.session)
    ensures d.state != ReadSessionTicket ==> Settled(d, a).ticketExpected == d.ticketExpected
  {
  }

  /** The history is sound for the data. */
  ghost predicate SoundFor(h: History, d: Data, dtls: bool) {
    && Sound(h, d.state, dtls, d.session, d.params, d.choices)
    && TicketDue(d.state, d.session, d.params, d.ticketExpected)
  }

  lemma AgreedIsSound(h: History, d: Data, dtls: bool, hello: Hello)
    requires SoundFor(h, d, dtls) && d.state == ReadServerHello
    ensures SoundFor(h, Agreed(d, hello), dtls)
  {
    hide Sound;
    var to := Agreed(d, hello);
    HelloDecides(h, dtls, d.session, to.session, d.params, to.params, d.choices);
  }

  lemma OfferIsSound(h: History, d: Data, dtls: bool, keep: bool)
    requires SoundFor(h, d, dtls) && d.state == StartConnect
    ensures SoundFor(h, d.(session := d.session && keep), dtls)
  {
    hide Sound;
    if d.session && !keep {
      SessionDropped(h, dtls, d.session, d.params, d.choices);
    }
  }

  /** What the state has settled before its events are filed: the session and, by the ServerHello, everything. */
  lemma BeforeLeaving(h: History, d: Data, dtls: bool, a: Answers)
    requires SoundFor(h, d, dtls)
    ensures d.state == ReadServerHello ==> SoundFor(h, Settled(d, a), dtls) && !Settled(d, a).params.certRequest
    ensures d.state == StartConnect ==> SoundFor(h, Settled(d, a), dtls)
  {
    hide Sound, TicketDue;
    if d.state == ReadServerHello {
      AgreedIsSound(h, d, dtls, a.hello);
    } else if d.state == StartConnect {
      OfferIsSound(h, d, dtls, a.keep);
    }
  }

  lemma AdvanceIsSound(h: History, d: Data, dtls: bool, a: Answers)
    requires SoundFor(h, d, dtls) && d.state != Done && CanAdvance(d, a)
    ensures var to := Settled(d, a);
            SoundFor(Append(h, d.state, Arrival(d.state, d.choices.cookie) + Deeds(d, a)),
                     to.(state := Next(d.state, dtls, to.session)), dtls)
  {
    hide Sound, TicketDue, Settles, Allowed, Settled, Deeds, Arrival, CanAdvance, Next, Rank;
    BeforeLeaving(h, d, dtls, a);
    Readiness(h, d, dtls);
    DeedsAreAllowed(d, a);
    var to, events := Settled(d, a), Arrival(d.state, d.choices.cookie) + Deeds(d, a);
    if d.state == ReadServerHello {
      HelloSettlesAll(d, a);
      NothingSettled(d.state, to.params, to.choices);
      LeaveIsSound(h, d.state, dtls, to.session, to.params, to.choices, events, to.params, to.choices);
      StillDue(d.state, dtls, to.session, to.params, to.choices, to.params, to.choices, to.ticketExpected);
    } else {
      SettledSettles(d, a);
      SettledKeeps(d, a);
      LeaveIsSound(h, d.state, dtls, to.session, d.params, d.choices, events, to.params, to.choices);
      if d.state == ReadSessionTicket {
        AfterTicket(dtls, to.session, to.params);
      } else {
        StillDue(d.state, dtls, to.session, d.params, d.choices, to.params, to.choices, to.ticketExpected);
      }
    }
  }

  lemma HelloSettlesAll(d: Data, a: Answers)
    requires d.state == ReadServerHello
    ensures Settled(d, a).state == d.state
  {
  }

  lemma AfterTicket(dtls: bool, resumed: bool, p: Params)
    ensures forall ticketExpected :: TicketDue(Next(ReadSessionTicket, dtls, resumed), resumed, p, ticketExpected)
  {
  }

  lemma Readiness(h: History, d: Data, dtls: bool)
    requires SoundFor(h, d, dtls)
    ensures d.state == ReadCertificateRequest ==> !d.params.certRequest
    ensures d.state == ReadSessionTicket ==> d.ticketExpected == d.params.ticket
  {
    hide Sound;
    if d.state == ReadCertificateRequest {
      NotYetRequested(h, dtls, d.session, d.params, d.choices);
    }
  }

  /** One call more: filed if it leaves its state. */
  ghost function HistoryAfter(h: History, d: Data, e: Effect): History {
    if e.data.state == d.state then h else Append(h, d.state, Arrival(d.state, d.choices.cookie) + e.events)
  }

  lemma StepIsSound(h: History, d: Data, dtls: bool, falseStart: bool, a: Answers)
    requires SoundFor(h, d, dtls) && d.state != Done
    ensures var e := StepOn(d, dtls, falseStart, a); SoundFor(HistoryAfter(h, d, e), e.data, dtls)
  {
    hide SoundFor, StepOn, CanAdvance, WaitOf, Settled, Deeds, Attempted, Next, Rank, Arrival;
    StepIsExact(d, dtls, falseStart, a);
    if WaitOf(d, a).Some? {
    } else if CanAdvance(d, a) {
      AdvanceIsSound(h, d, dtls, a);
      NeverNextToItself(d, dtls, a);
    } else if d.state == StartConnect {
      OfferIsSound(h, d, dtls, a.keep);
    } else if LeftBehind(d, a) != d {
      AgreedIsSound(h, d, dtls, a.hello);
    }
  }

  lemma NeverNextToItself(d: Data, dtls: bool, a: Answers)
    requires d.state != Done
    ensures Next(d.state, dtls, Settled(d, a).session) != d.state
  {
    hide Settled;
  }

  ghost function RunHistory(h: History, d: Data, dtls: bool, falseStart: bool, answers: seq<Answers>): History
    decreases |answers|
  {
    if answers == [] then h
    else
      var e := StepOn(d, dtls, falseStart, answers[0]);
      var h' := HistoryAfter(h, d, e);
      if e.ret == Error then h' else RunHistory(h', e.data, dtls, falseStart, answers[1..])
  }

  /** A handshake that has not started, with or without a session to offer. */
  function Fresh(offered: bool): Data {
    Data(StartConnect, offered, NO_PARAMS, false, NO_CHOICES)
  }

  /** What a run from the start has done in the states it has left. */
  ghost function Course(offered: bool, dtls: bool, falseStart: bool, answers: seq<Answers>): seq<Event> {
    Flatten(RunHistory(History([], []), Fresh(offered), dtls, falseStart, answers).segments)
  }

  lemma {:induction false} RunStaysSound(h: History, d: Data, dtls: bool, falseStart: bool, answers: seq<Answers>)
    requires SoundFor(h, d, dtls)
    ensures SoundFor(RunHistory(h, d, dtls, falseStart, answers), RunOn(d, dtls, falseStart, answers).0, dtls)
    decreases |answers|
  {
    hide SoundFor, StepOn;
    if answers != [] {
      var e := StepOn(d, dtls, falseStart, answers[0]);
      StepFromAnywhere(h, d, dtls, falseStart, answers[0]);
      if e.ret != Error {
        RunStaysSound(HistoryAfter(h, d, e), e.data, dtls, falseStart, answers[1..]);
      }
    }
  }

  lemma StepFromAnywhere(h: History, d: Data, dtls: bool, falseStart: bool, a: Answers)
    requires SoundFor(h, d, dtls)
    ensures var e := StepOn(d, dtls, falseStart, a); SoundFor(HistoryAfter(h, d, e), e.data, dtls)
  {
    hide SoundFor;
    if d.state != Done {
      hide StepOn;
      StepIsSound(h, d, dtls, falseStart, a);
    }
  }

  /** Every run, whatever it is answered: at every point it has followed the course that its parameters and choices so
      far describe, and where it is completed it has done all of it. */
  lemma RunFollowsCourse(offered: bool, dtls: bool, falseStart: bool, answers: seq<Answers>)
    ensures var (d, ret) := RunOn(Fresh(offered), dtls, falseStart, answers);
            var course := Course(offered, dtls, falseStart, answers);
            && course <= FullTrace(d.session, d.params, d.choices)
            && (d.state == Done ==> course == FullTrace(d.session, d.params, d.choices)
                                    && Consistent(d.session, d.params, d.choices))
  {
    hide FullTrace, Sound, RunOn, RunHistory, Flatten, Route, EventsAlong;
    NothingYet(dtls, offered);
    var h := RunHistory(History([], []), Fresh(offered), dtls, falseStart, answers);
    var (d, ret) := RunOn(Fresh(offered), dtls, falseStart, answers);
    RunStaysSound(History([], []), Fresh(offered), dtls, falseStart, answers);
    CourseSoFar(h, d.state, dtls, d.session, d.params, d.choices);
    if d.state == Done {
      CompletedTrace(h, dtls, d.session, d.params, d.choices);
    }
  }

  // --- Proof of possession ----------------------------------------------------------------------

  /** The client has been certain of its certificate: whether it has one did not change. */
  ghost predicate Shown(d: Data, has: bool) {
    !d.session ==>
      && (d.params.certRequest && Rank(d.state, false) < 9 ==> d.choices.certificate == has)
      && (Rank(d.state, false) < 7 ==> d.choices.proved == has)
  }

  lemma StepShows(d: Data, dtls: bool, falseStart: bool, a: Answers)
    requires Shown(d, a.hasCertificate)
    ensures Shown(StepOn(d, dtls, falseStart, a).data, a.hasCertificate)
  {
    if d.state != Done {
      hide StepOn;
      StepIsExact(d, dtls, falseStart, a);
      SettledShows(d, dtls, a);
    }
  }

  lemma SettledShows(d: Data, dtls: bool, a: Answers)
    requires Shown(d, a.hasCertificate) && d.state != Done
    ensures var to := Settled(d, a); Shown(to.(state := Next(d.state, dtls, to.session)), a.hasCertificate)
    ensures Shown(LeftBehind(d, a), a.hasCertificate)
  {
  }

  lemma {:induction false} RunShows(d: Data, dtls: bool, falseStart: bool, answers: seq<Answers>, has: bool)
    requires Shown(d, has) && forall a :: a in answers ==> a.hasCertificate == has
    ensures Shown(RunOn(d, dtls, falseStart, answers).0, has)
    decreases |answers|
  {
    hide StepOn, Shown;
    if answers != [] {
      assert answers[0] in answers;
      StepShows(d, dtls, falseStart, answers[0]);
      var e := StepOn(d, dtls, falseStart, answers[0]);
      if e.ret != Error {
        RunShows(e.data, dtls, falseStart, answers[1..], has);
      }
    }
  }

  /** The event happens once, right after the client's key exchange and right before its ChangeCipherSpec. */
  ghost predicate OnceInPlace(t: seq<Event>, e: Event) {
    exists i :: 0 < i < |t| - 1 && t[i] == e && t[i - 1] == Sent(ClientKeyExchange) && t[i + 1] == SentChangeCipherSpec
                && e !in t[..i] && e !in t[i + 1..]
  }

  /** What the course of a completed handshake says about certificates. */
  ghost predicate SaysOfCertificates(t: seq<Event>, p: Params, c: Choices) {
    && (Read(CertificateRequest) in t <==> p.certRequest)
    && (Sent(Certificate) in t <==> p.certRequest && c.certificate)
    && (Sent(CertVerify) in t <==> p.certRequest && c.proved)
    && (Sent(CertVerify) in t ==> OnceInPlace(t, Sent(CertVerify)))
  }

  lemma CertificatesInTrace(resumed: bool, p: Params, c: Choices)
    requires Consistent(resumed, p, c)
    ensures SaysOfCertificates(FullTrace(resumed, p, c), p, c)
  {
    hide Greetings, ServerFlight, ClientFlight, ClientFinish, ServerFinish;
    RestIsBare(p);
    GreetingsAreBare(c.cookie);
    if !resumed {
      CertificatesInFullTrace(p, c);
    }
  }

  lemma CertificatesInFullTrace(p: Params, c: Choices)
    ensures SaysOfCertificates(FullTrace(false, p, c), p, c)
  {
    hide FullTrace, OnceInPlace;
    var shown := ShownCertificate(p, c);
    var start := Greetings(c.cookie) + [Read(ServerHello)] + ServerFlight(p, c) + shown;
    var proof := if p.certRequest && c.proved then [Sent(CertVerify)] else [];
    var rest := ClientFinish(p) + ServerFinish(p) + [Completed];
    StartIsBare(p, c);
    EndIsBare(p);
    ClientFlightIsShown(p, c, proof);
    FullTraceParts(p, c, shown, proof);
    ProofInPlace(FullTrace(false, p, c), start, proof, rest);
  }

  ghost function ShownCertificate(p: Params, c: Choices): seq<Event> {
    if p.certRequest then [ClientCertificate(p.ssl3, c.certificate)] else []
  }

  lemma ClientFlightIsShown(p: Params, c: Choices, proof: seq<Event>)
    requires proof == if p.certRequest && c.proved then [Sent(CertVerify)] else []
    ensures ClientFlight(p, c) == ShownCertificate(p, c) + [Sent(ClientKeyExchange)] + proof
  {
  }

  lemma StartIsBare(p: Params, c: Choices)
    ensures var start := Greetings(c.cookie) + [Read(ServerHello)] + ServerFlight(p, c) + ShownCertificate(p, c);
            && Sent(CertVerify) !in start
            && (Read(CertificateRequest) in start <==> p.certRequest)
            && (Sent(Certificate) in start <==> p.certRequest && c.certificate)
  {
    hide Greetings, ServerFlight;
    GreetingsAreBare(c.cookie);
    FlightIsBare(p, c);
  }

  lemma EndIsBare(p: Params)
    ensures var rest := ClientFinish(p) + ServerFinish(p) + [Completed];
            && Bare(rest) && Read(CertificateRequest) !in rest && rest != [] && rest[0] == SentChangeCipherSpec
  {
    hide ClientFinish, ServerFinish;
    RestIsBare(p);
  }

  lemma FullTraceParts(p: Params, c: Choices, shown: seq<Event>, proof: seq<Event>)
    requires ClientFlight(p, c) == shown + [Sent(ClientKeyExchange)] + proof
    ensures FullTrace(false, p, c) ==
            (Greetings(c.cookie) + [Read(ServerHello)] + ServerFlight(p, c) + shown) + [Sent(ClientKeyExchange)] + proof
            + (ClientFinish(p) + ServerFinish(p) + [Completed])
  {
    hide Greetings, ServerFlight, ClientFlight, ClientFinish, ServerFinish;
  }

  ghost predicate Bare(t: seq<Event>) {
    Sent(Certificate) !in t && Sent(CertVerify) !in t
  }

  lemma RestIsBare(p: Params)
    ensures Bare(ClientFinish(p)) && Bare(ServerFinish(p))
    ensures Read(CertificateRequest) !in ClientFinish(p) && Read(CertificateRequest) !in ServerFinish(p)
    ensures ClientFinish(p) != [] && ClientFinish(p)[0] == SentChangeCipherSpec
  {
  }

  lemma FlightIsBare(p: Params, c: Choices)
    ensures Bare(ServerFlight(p, c)) && (Read(CertificateRequest) in ServerFlight(p, c) <==> p.certRequest)
  {
  }

  lemma GreetingsAreBare(cookie: bool)
    ensures Bare(Greetings(cookie)) && Read(CertificateRequest) !in Greetings(cookie)
  {
  }

  lemma ProofInPlace(t: seq<Event>, start: seq<Event>, proof: seq<Event>, rest: seq<Event>)
    requires t == start + [Sent(ClientKeyExchange)] + proof + rest
    requires proof == [Sent(CertVerify)] || proof == []
    requires Sent(CertVerify) !in start && Sent(CertVerify) !in rest && rest != [] && rest[0] == SentChangeCipherSpec
    ensures Sent(CertVerify) in t <==> proof != []
    ensures forall e :: e != Sent(ClientKeyExchange) && e != Sent(CertVerify) ==> (e in t <==> e in start || e in rest)
    ensures proof != [] ==> OnceInPlace(t, Sent(CertVerify))
  {
    if proof != [] {
      var i := |start| + 1;
      assert t[i] == Sent(CertVerify) && t[i - 1] == Sent(ClientKeyExchange) && t[i + 1] == rest[0];
      assert t[..i] == start + [Sent(ClientKeyExchange)] && t[i + 1..] == rest;
    }
  }

  /** A client that has a certificate throughout, or none throughout: wherever its handshake is completed, it has proved
      possession of the certificate, once and between its key exchange and its ChangeCipherSpec, if and only if one was
      asked for and a real one was sent. */
  lemma CertVerifyExactly(offered: bool, dtls: bool, falseStart: bool, answers: seq<Answers>, has: bool)
    requires forall a :: a in answers ==> a.hasCertificate == has
    requires RunOn(Fresh(offered), dtls, falseStart, answers).0.state == Done
    ensures var t := Course(offered, dtls, falseStart, answers);
            if Read(CertificateRequest) in t && Sent(Certificate) in t then OnceInPlace(t, Sent(CertVerify))
            else Sent(CertVerify) !in t
  {
    hide FullTrace, RunOn, Course, OnceInPlace;
    var (d, ret) := RunOn(Fresh(offered), dtls, falseStart, answers);
    RunShows(Fresh(offered), dtls, falseStart, answers, has);
    RunFollowsCourse(offered, dtls, falseStart, answers);
    CertificatesInTrace(d.session, d.params, d.choices);
  }

  /** For every client: the CertificateVerify is there exactly when the certificate is if and only if the client did not
      gain or lose its certificate after the one was asked for. */
  lemma ProvedIffShown(offered: bool, dtls: bool, falseStart: bool, answers: seq<Answers>)
    requires RunOn(Fresh(offered), dtls, falseStart, answers).0.state == Done
    ensures var t := Course(offered, dtls, falseStart, answers);
            var c := RunOn(Fresh(offered), dtls, falseStart, answers).0.choices;
            (Sent(CertVerify) in t <==> Sent(Certificate) in t) <==>
              (Read(CertificateRequest) in t ==> c.certificate == c.proved)
  {
    hide FullTrace, RunOn, Course, OnceInPlace;
    var (d, ret) := RunOn(Fresh(offered), dtls, falseStart, answers);
    RunFollowsCourse(offered, dtls, falseStart, answers);
    CertificatesInTrace(d.session, d.params, d.choices);
  }

  /** A certificate that is there when it is sent and gone when its possession is to be proved. */
  function Withdrawing(d: Data): Answers {
    Way(d).(message := Some(if d.state == ReadCertificateRequest then CertificateRequest else Wanted(d)),
            hasCertificate := d.state != SendClientCertificateVerify)
  }

  ghost predicate Withdrawn(d: Data) {
    && !d.session
    && (Rank(d.state, false) < 16 ==> d.params.certificateAuth)
    && (Rank(d.state, false) < 11 ==> d.params.certRequest)
    && (Rank(d.state, false) < 9 ==> d.choices.certificate)
    && (Rank(d.state, false) < 7 ==> !d.choices.proved)
  }

  lemma StepWithdraws(d: Data, dtls: bool, falseStart: bool)
    requires Withdrawn(d) && d.state != Done
    ensures var e := StepOn(d, dtls, falseStart, Withdrawing(d));
            e.ret != Error && Withdrawn(e.data) && Rank(e.data.state, false) < Rank(d.state, false)
  {
    hide StepOn;
    StepIsExact(d, dtls, falseStart, Withdrawing(d));
    RankDrops(d.state, dtls, false);
    WithdrawingAdvances(d);
  }

  lemma WithdrawingAdvances(d: Data)
    requires Withdrawn(d) && d.state != Done
    ensures CanAdvance(d, Withdrawing(d))
  {
  }

  lemma {:induction false} RunWithdraws(d: Data, dtls: bool, falseStart: bool) returns (answers: seq<Answers>)
    requires Withdrawn(d)
    ensures var end := RunOn(d, dtls, falseStart, answers).0; end.state == Done && Withdrawn(end)
    decreases Rank(d.state, false)
  {
    hide StepOn, Withdrawn, Withdrawing;
    if d.state == Done {
      answers := [];
    } else {
      StepWithdraws(d, dtls, falseStart);
      var e := StepOn(d, dtls, falseStart, Withdrawing(d));
      var rest := RunWithdraws(e.data, dtls, falseStart);
      answers := [Withdrawing(d)] + rest;
      assert answers[1..] == rest;
    }
  }

  /** Both states ask anew whether there is a certificate: one that is withdrawn in between has been sent, and its
      possession is never proved. */
  lemma WithdrawnIsNotProved(dtls: bool, falseStart: bool) returns (answers: seq<Answers>)
    ensures RunOn(Fresh(false), dtls, falseStart, answers).0.state == Done
    ensures var t := Course(false, dtls, falseStart, answers);
            Read(CertificateRequest) in t && Sent(Certificate) in t && Sent(CertVerify) !in t
  {
    hide FullTrace, RunOn, Course, OnceInPlace;
    answers := RunWithdraws(Fresh(false), dtls, falseStart);
    var (d, ret) := RunOn(Fresh(false), dtls, falseStart, answers);
    RunFollowsCourse(false, dtls, falseStart, answers);
    CertificatesInTrace(d.session, d.params, d.choices);
  }

  lemma {:induction false} FlattenAppend(segments: seq<seq<Event>>, last: seq<Event>)
    ensures Flatten(segments + [last]) == Flatten(segments) + last
    ensures Flatten(segments + [last]) + [] == Flatten(segments) + last
  {
    if segments == [] {
      assert Flatten([last]) == last + Flatten([]);
    } else {
      FlattenAppend(segments[1..], last);
      assert (segments + [last])[1..] == segments[1..] + [last];
    }
  }


  lemma SessionDropped(h: History, dtls: bool, offered: bool, p: Params, c: Choices)
    requires Sound(h, StartConnect, dtls, offered, p, c)
    ensures Sound(h, StartConnect, dtls, false, p, c)
  {
  }

  lemma SoundIsPlaced(h: History, d: Data, dtls: bool)
    requires Sound(h, d.state, dtls, d.session, d.params, d.choices)
    ensures Placed(d, dtls)
  {
    hide Route;
  }

  // --- Tickets ----------------------------------------------------------------------------------

  /** Until a NewSessionTicket may come, whether one is expected is what the ServerHello said. */
  ghost predicate TicketDue(s: HandshakeState, resumed: bool, p: Params, ticketExpected: bool) {
    Rank(s, resumed) >= Rank(ReadSessionTicket, resumed) ==> ticketExpected == p.ticket
  }

  lemma StillDue(s: HandshakeState, dtls: bool, resumed: bool, p: Params, c: Choices, p': Params, c': Choices,
                 ticketExpected: bool)
    requires s != Done && TicketDue(s, resumed, p, ticketExpected) && Settles(s, p, c, p', c')
    ensures TicketDue(Next(s, dtls, resumed), resumed, p', ticketExpected)
  {
    hide Rank, Next;
    RankDrops(s, dtls, resumed);
  }

  lemma TicketIsDue(resumed: bool, p: Params, ticketExpected: bool)
    requires TicketDue(ReadSessionTicket, resumed, p, ticketExpected)
    ensures ticketExpected == p.ticket
  {
  }

  lemma NoTicketDue(resumed: bool, p: Params)
    ensures forall ticketExpected :: TicketDue(ProcessChangeCipherSpec, resumed, p, ticketExpected)
  {
  }

  // --- Leaving a state --------------------------------------------------------------------------

  lemma NothingSettled(s: HandshakeState, p: Params, c: Choices)
    ensures Settles(s, p, c, p, c)
  {
  }

  lemma NotYetRequested(h: History, dtls: bool, resumed: bool, p: Params, c: Choices)
    requires Sound(h, ReadCertificateRequest, dtls, resumed, p, c)
    ensures !p.certRequest
  {
  }

  lemma GoesOnIsOutcome(d: Data, e: Effect, current: seq<Event>)
    requires d.state != Done && Arriving(d.state, current, d.choices.cookie) && GoesOn(d, e) && Descends(d, e)
    ensures e.ret == Ok ==> e.data.state != d.state && Arriving(e.data.state, [], e.data.choices.cookie)
    ensures e.ret != Ok && e.ret != Error ==>
              && e.data.state != Done
              && Suspended(e.data.state, e.ret, if e.data.state == d.state then current else [], e.data.choices.cookie)
    ensures e.ret == Ok || e.ret == Flush || e.ret == ForChangeCipherSpec || e.ret == EarlyReturn ==>
              Rank(e.data.state, e.data.session) < Rank(d.state, d.session)
    ensures e.ret != Error ==> Rank(e.data.state, e.data.session) <= Rank(d.state, d.session)
  {
    hide Rank;
  }

  lemma EarlyOnlyInFalseStart(d: Data, dtls: bool, falseStart: bool, a: Answers)
    ensures var e := StepOn(d, dtls, falseStart, a); e.ret == EarlyReturn ==> falseStart && !e.data.session
  {
    hide GoesOn, Descends, Placed, Advances, Way;
  }

  lemma AfterStart(p: Params, c: Choices)
    ensures Allowed(StartConnect, [Sent(ClientHello)], p, c)
    ensures forall dtls, resumed :: Next(StartConnect, dtls, resumed) == EnterEarlyData
  {
  }

  lemma AfterVerifyRequest(p: Params, c: Choices)
    ensures forall cookie :: Settles(ReadHelloVerifyRequest, p, c, p, c.(cookie := cookie))
    ensures Allowed(ReadHelloVerifyRequest, [], p, c.(cookie := false))
    ensures Allowed(ReadHelloVerifyRequest, [Read(HelloVerifyRequest), Sent(ClientHello)], p, c.(cookie := true))
    ensures forall dtls, resumed :: Next(ReadHelloVerifyRequest, dtls, resumed) == ReadServerHello
  {
  }

  lemma HelloAllowed(events: seq<Event>, p: Params, c: Choices)
    requires events == if c.cookie then [Flushed, Read(ServerHello)] else [Read(ServerHello)]
    ensures Allowed(ReadServerHello, events, p, c)
  {
  }

  lemma AfterCertificate(p: Params, c: Choices)
    ensures Allowed(ReadServerCertificate, if p.certificateAuth then [Read(Certificate)] else [], p, c)
    ensures forall dtls, resumed :: Next(ReadServerCertificate, dtls, resumed) == ReadCertificateStatus
  {
  }

  lemma AfterStatus(p: Params, c: Choices)
    ensures forall stapled :: Settles(ReadCertificateStatus, p, c, p, c.(stapled := stapled))
    ensures Allowed(ReadCertificateStatus, [], p, c.(stapled := false))
    ensures p.status ==> Allowed(ReadCertificateStatus, [Read(CertificateStatus)], p, c.(stapled := true))
    ensures forall dtls, resumed :: Next(ReadCertificateStatus, dtls, resumed) == VerifyServerCertificate
  {
  }

  lemma AfterVerification(p: Params, c: Choices)
    ensures Allowed(VerifyServerCertificate, if p.certificateAuth then [VerifiedChain] else [], p, c)
    ensures forall dtls, resumed :: Next(VerifyServerCertificate, dtls, resumed) == ReadServerKeyExchange
  {
  }

  lemma KeyExchangeAllowed(p: Params, c: Choices)
    ensures forall exchange :: Settles(ReadServerKeyExchange, p, c, p, c.(exchange := exchange))
    ensures !p.keyExchange.Ecdhe? ==> Allowed(ReadServerKeyExchange, [], p, c.(exchange := false))
    ensures !p.keyExchange.Rsa? ==>
              Allowed(ReadServerKeyExchange,
                      if p.certificateAuth then [VerifiedSignature, Read(ServerKeyExchange)]
                      else [Read(ServerKeyExchange)], p, c.(exchange := true))
  {
  }

  lemma NoRequestAllowed(p: Params, c: Choices)
    requires !p.certRequest
    ensures Allowed(ReadCertificateRequest, [], p, c)
  {
  }

  lemma RequestAllowed(p: Params, c: Choices)
    requires p.certificateAuth
    ensures var p' := p.(certRequest := true);
            && Allowed(ReadCertificateRequest, [Read(CertificateRequest)], p', c)
            && Settles(ReadCertificateRequest, p, c, p', c)
    ensures forall dtls, resumed :: Next(ReadCertificateRequest, dtls, resumed) == ReadServerHelloDone
  {
  }

  lemma AfterHelloDone(p: Params, c: Choices)
    ensures Allowed(ReadServerHelloDone, [Read(ServerHelloDone)], p, c)
    ensures forall dtls, resumed :: Next(ReadServerHelloDone, dtls, resumed) == SendClientCertificate
  {
  }

  lemma ClientCertificateAllowed(p: Params, c: Choices, has: bool)
    ensures Settles(SendClientCertificate, p, c, p, c.(certificate := has))
    ensures !p.certRequest ==> Allowed(SendClientCertificate, [], p, c)
    ensures p.certRequest ==>
              Allowed(SendClientCertificate, [ClientCertificate(p.ssl3, has)], p, c.(certificate := has))
  {
  }

  lemma AfterClientKey(p: Params, c: Choices)
    ensures Allowed(SendClientKeyExchange, [Sent(ClientKeyExchange)], p, c)
    ensures forall dtls, resumed :: Next(SendClientKeyExchange, dtls, resumed) == SendClientCertificateVerify
  {
  }

  lemma AfterProof(p: Params, c: Choices)
    ensures !p.certRequest || !c.proved ==> Allowed(SendClientCertificateVerify, [], p, c)
    ensures p.certRequest && c.proved ==> Allowed(SendClientCertificateVerify, [Sent(CertVerify)], p, c)
    ensures forall dtls, resumed :: Next(SendClientCertificateVerify, dtls, resumed) == SendClientFinished
  {
  }

  lemma FinishAllowed(p: Params, c: Choices)
    ensures Allowed(SendClientFinished, FinishEvents(p.nextProto, p.channelId), p, c)
  {
  }

  lemma FlushAllowed(p: Params, c: Choices)
    ensures Allowed(FinishFlight, [Flushed], p, c)
  {
  }

  lemma TicketAllowed(p: Params, c: Choices)
    ensures Allowed(ReadSessionTicket, if p.ticket then [Read(NewSessionTicket)] else [], p, c)
  {
  }

  lemma FinishedAllowed(p: Params, c: Choices)
    ensures Allowed(ReadServerFinished, [MatchedFinished, Read(Finished)], p, c)
  {
  }

  lemma CompletedAllowed(p: Params, c: Choices)
    ensures Allowed(FinishClientHandshake, [Completed], p, c)
  {
  }

  lemma AddNothing(t: seq<Event>)
    ensures t + [] == t
  {
  }

  lemma AddTwo(t: seq<Event>, a: Event, b: Event)
    ensures t + [a] + [b] == t + [a, b]
  {
  }
}
