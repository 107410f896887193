/** Many clients and one lock directory: mutual exclusion over every interleaving of delayed atomic
    commands, lost commands, lost replies and crashes. */
module LeaseProtocol {
  import opened Model
  import opened LeaseLock

  datatype Kind = Acquiring | Renewing | Releasing

  /** A command captured at one instant; it may arrive at any later one, or never. Times are in nanoseconds. */
  datatype Command = Command(kind: Kind, token: string, at: nat, ttl: nat) {
    function Expires(): nat { at + ttl }
  }

  datatype Phase = Seeking | Holding | Ending | Gone

  /** One Acquire call and, once granted, its lease. waiting is the one outstanding command; renewing says the
      renewal loop is still alive; released is the lease object's own flag. */
  datatype Client = Client(phase: Phase, ttl: nat, expiresAt: nat, waiting: Option<Command>, renewing: bool, released: bool)

  /** removed records the tokens whose release script has removed the lock; it steers nothing. */
  datatype State = State(
    now: nat,
    lock: Lock,
    clients: map<string, Client>,
    inFlight: set<Command>,
    replies: map<Command, Reply>,
    removed: set<string>)

  datatype Event =
    | Tick(nanos: nat)
    | Start(token: string, ttl: nat)
    | Retry(token: string)
    | SendRenew(token: string)
    | SendRelease(token: string)
    | Arrive(command: Command)
    | LoseCommand(command: Command)
    | Answer(token: string)
    | NoAnswer(token: string)
    | Crash(token: string)

  predicate Idle(s: State, token: string, phase: Phase)
  {
    token in s.clients && s.clients[token].phase == phase && s.clients[token].waiting.None?
  }

  predicate Enabled(s: State, e: Event)
  {
    match e
    case Tick(_) => true
    case Start(token, ttl) => token !in s.clients && ttl >= NANOS_PER_SECOND
    case Retry(token) => Idle(s, token, Seeking)
    case SendRenew(token) => Idle(s, token, Holding) && s.clients[token].renewing
    case SendRelease(token) => Idle(s, token, Holding)
    case Arrive(command) => command in s.inFlight
    case LoseCommand(command) => command in s.inFlight
    case Answer(token) =>
      token in s.clients && s.clients[token].waiting.Some? && s.clients[token].waiting.value in s.replies
    case NoAnswer(token) => token in s.clients && s.clients[token].waiting.Some?
    case Crash(token) => token in s.clients
  }

  /** Run one command's script at the moment it arrives, with the times it captured. */
  function Execute(lock: Lock, command: Command, now: nat): (Lock, Reply)
  {
    SecondsMono(command.at, command.Expires());
    match command.kind
    case Acquiring => AcquireScript(lock, command.token, Seconds(command.at), Seconds(command.Expires()), Seconds(now))
    case Renewing => RenewScript(lock, command.token, Seconds(command.at), Seconds(command.Expires()))
    case Releasing => ReleaseScript(lock, command.token, Seconds(command.at))
  }

  function Send(s: State, token: string, client: Client, kind: Kind): State
  {
    var command := Command(kind, token, s.now, client.ttl);
    s.(clients := s.clients[token := client.(waiting := Some(command))], inFlight := s.inFlight + {command})
  }

  /** What the client does with a reply. */
  function Receive(client: Client, command: Command, reply: Reply): Client
  {
    var c := client.(waiting := None);
    match command.kind
    case Acquiring => if reply == Granted then c.(phase := Holding, expiresAt := command.Expires(), renewing := true) else c
    case Renewing => if reply == Granted then c.(expiresAt := command.Expires()) else c.(renewing := false)
    case Releasing => c.(phase := Gone, released := reply != Refused)
  }

  /** What the client does when the command failed: Acquire and Release give up, renewing ends. */
  function GiveUp(client: Client, command: Command): Client
  {
    var c := client.(waiting := None);
    match command.kind
    case Acquiring => c.(phase := Gone)
    case Renewing => c.(renewing := false)
    case Releasing => c.(phase := Gone)
  }

  function Next(s: State, e: Event): State
    requires Enabled(s, e)
  {
    match e
    case Tick(nanos) => s.(now := s.now + nanos)
    case Start(token, ttl) => Send(s, token, Client(Seeking, ttl, 0, None, false, false), Acquiring)
    case Retry(token) => Send(s, token, s.clients[token], Acquiring)
    case SendRenew(token) => Send(s, token, s.clients[token], Renewing)
    case SendRelease(token) => Send(s, token, s.clients[token].(phase := Ending), Releasing)
    case Arrive(command) =>
      var (lock, reply) := Execute(s.lock, command, s.now);
      s.(lock := lock, inFlight := s.inFlight - {command}, replies := s.replies[command := reply],
         removed := if command.kind == Releasing && reply == Granted then s.removed + {command.token} else s.removed)
    case LoseCommand(command) => s.(inFlight := s.inFlight - {command})
    case Answer(token) =>
      var command := s.clients[token].waiting.value;
      s.(clients := s.clients[token := Receive(s.clients[token], command, s.replies[command])],
         replies := s.replies - {command})
    case NoAnswer(token) =>
      s.(clients := s.clients[token := GiveUp(s.clients[token], s.clients[token].waiting.value)])
    case Crash(token) => s.(clients := s.clients[token := s.clients[token].(phase := Gone, waiting := None)])
  }

  predicate Run(s: State, events: seq<Event>)
    decreases |events|
  {
    events == [] || (Enabled(s, events[0]) && Run(Next(s, events[0]), events[1..]))
  }

  function After(s: State, events: seq<Event>): State
    requires Run(s, events)
    decreases |events|
  {
    if events == [] then s else After(Next(s, events[0]), events[1..])
  }

  predicate Initial(s: State)
  {
    s.clients == map[] && s.inFlight == {} && s.replies == map[] && s.removed == {}
  }

  /** While its own view has not expired in whole seconds, the lock directory names this token with at least that expiry. */
  predicate Guarded(s: State, token: string, expires: nat)
  {
    Seconds(s.now) < Seconds(expires) ==>
      s.lock.Some? && s.lock.value.owner == token && s.lock.value.expiry.Some? && s.lock.value.expiry.value >= Seconds(expires)
  }

  /** A command was captured in the past, with its client's lifetime. */
  predicate CommandOk(s: State, c: Command)
  {
    c.token in s.clients && c.at <= s.now && c.ttl == s.clients[c.token].ttl
  }

  /** A client that is still seeking or renewing knows all its commands. Once granted, whatever became of the
      client, it has no acquisition abroad, and its renewals reach at least as far as its own view. */
  predicate Expected(client: Client, c: Command)
  {
    && (client.phase == Seeking ==> client.waiting == Some(c))
    && (client.phase == Holding ==> c.kind == Renewing && (client.renewing ==> client.waiting == Some(c)))
    && (client.expiresAt > 0 ==> c.kind != Acquiring && (c.kind == Renewing ==> client.expiresAt <= c.Expires()))
  }

  predicate InFlightOk(s: State, c: Command)
  {
    CommandOk(s, c) && c !in s.replies && Expected(s.clients[c.token], c)
  }

  /** The lease is over: its release removed the lock, or its own view has expired in whole seconds. */
  predicate Over(s: State, token: string)
    requires token in s.clients
  {
    token in s.removed || Seconds(s.now) >= Seconds(s.clients[token].expiresAt)
  }

  predicate ReplyOk(s: State, c: Command)
    requires c in s.replies
  {
    CommandOk(s, c) && Expected(s.clients[c.token], c) && (c.kind == Releasing && s.replies[c] != Refused ==> Over(s, c.token))
  }

  predicate WaitingOk(s: State, token: string, client: Client, c: Command)
  {
    && c.token == token && CommandOk(s, c)
    && (client.phase == Seeking ==> c.kind == Acquiring)
    && (client.phase == Holding ==> c.kind == Renewing && client.renewing && client.expiresAt <= c.Expires())
    && (client.phase == Ending ==> c.kind == Releasing)
    && client.phase != Gone
    && (c in s.replies && s.replies[c] == Granted && c.kind != Releasing ==> Guarded(s, token, c.Expires()))
  }

  /** No release of the lease has removed the lock, whether its holder works, has crashed or has given up. */
  predicate Unreleased(s: State, token: string)
  {
    token in s.clients && token !in s.removed
  }

  predicate ClientOk(s: State, token: string)
    requires token in s.clients
  {
    var client := s.clients[token];
    && (Unreleased(s, token) ==> Guarded(s, token, client.expiresAt))
    && client.expiresAt <= s.now + client.ttl
    && (client.phase == Seeking ==> client.expiresAt == 0)
    && (client.phase == Seeking || client.phase == Holding ==> Unreleased(s, token) && !client.released)
    && (client.released ==> Over(s, token))
    && (client.waiting.Some? ==> WaitingOk(s, token, client, client.waiting.value))
  }

  predicate Inv(s: State)
  {
    && (forall c :: c in s.inFlight ==> InFlightOk(s, c))
    && (forall c :: c in s.replies ==> ReplyOk(s, c))
    && (forall t :: t in s.clients ==> ClientOk(s, t))
    && (forall t :: t in s.removed ==> t in s.clients)
  }

  lemma InitialInv(s: State)
    requires Initial(s)
    ensures Inv(s)
  {
  }

  lemma TickInv(s: State, nanos: nat)
    requires Inv(s)
    ensures Inv(s.(now := s.now + nanos))
  {
    var t := s.(now := s.now + nanos);
    SecondsMono(s.now, t.now);
    forall c | c in t.inFlight ensures InFlightOk(t, c) {
      assert InFlightOk(s, c);
    }
    forall c | c in t.replies ensures ReplyOk(t, c) {
      assert ReplyOk(s, c);
    }
    forall k | k in t.clients ensures ClientOk(t, k) {
      assert ClientOk(s, k);
    }
  }

  /** What sending from an idle client may assume. */
  predicate MaySend(s: State, token: string, client: Client, kind: Kind)
  {
    && client.waiting.None?
    && client.phase == (match kind case Acquiring => Seeking case Renewing => Holding case Releasing => Ending)
    && (kind == Renewing ==> client.renewing)
    && (token in s.clients ==> s.clients[token].waiting.None?)
    && (token in s.clients && client.phase != Ending ==> s.clients[token] == client)
    && (token in s.clients && client.phase == Ending ==>
          s.clients[token].phase == Holding && client == s.clients[token].(phase := Ending))
    && (token !in s.clients ==> client.phase == Seeking && client.expiresAt == 0 && !client.released)
  }

  /** Sending a command from a client that has none outstanding. */
  lemma SendInv(s: State, token: string, client: Client, kind: Kind)
    requires Inv(s) && MaySend(s, token, client, kind)
    ensures Inv(Send(s, token, client, kind))
  {
    var t, command := Send(s, token, client, kind), Command(kind, token, s.now, client.ttl);
    if token in s.clients { assert ClientOk(s, token); }
    hide ReplyOk, InFlightOk, ClientOk;
    forall c | c in s.replies ensures c != command && ReplyOk(t, c) {
      SendReply(s, token, client, kind, c);
    }
    forall c | c in t.inFlight ensures InFlightOk(t, c) {
      SendInFlight(s, token, client, kind, c);
    }
    forall k | k in t.clients ensures ClientOk(t, k) {
      SendClient(s, token, client, kind, k);
    }
  }

  lemma SendReply(s: State, token: string, client: Client, kind: Kind, c: Command)
    requires Inv(s) && MaySend(s, token, client, kind) && c in s.replies
    ensures c != Command(kind, token, s.now, client.ttl) && ReplyOk(Send(s, token, client, kind), c)
  {
    hide InFlightOk, ClientOk;
    assert ReplyOk(s, c);
  }

  lemma SendInFlight(s: State, token: string, client: Client, kind: Kind, c: Command)
    requires Inv(s) && MaySend(s, token, client, kind) && c in Send(s, token, client, kind).inFlight
    requires c == Command(kind, token, s.now, client.ttl) ==> c !in s.replies
    ensures InFlightOk(Send(s, token, client, kind), c)
  {
    hide ReplyOk;
    if c != Command(kind, token, s.now, client.ttl) {
      assert InFlightOk(s, c);
    } else if token in s.clients {
      assert ClientOk(s, token);
    }
  }

  lemma SendClient(s: State, token: string, client: Client, kind: Kind, k: string)
    requires Inv(s) && MaySend(s, token, client, kind) && k in Send(s, token, client, kind).clients
    requires Command(kind, token, s.now, client.ttl) !in s.replies
    ensures ClientOk(Send(s, token, client, kind), k)
  {
    hide ReplyOk, InFlightOk;
    if k in s.clients { assert ClientOk(s, k); }
  }

  /** The heart of the protocol: a script arriving late never takes the lock from a guarded token. */
  lemma GuardSurvives(s: State, command: Command, token: string, expires: nat)
    requires Inv(s) && command in s.inFlight
    requires Guarded(s, token, expires)
    requires command.token == token ==>
               (command.kind == Renewing && expires <= command.Expires()) ||
               (command.kind == Releasing && Execute(s.lock, command, s.now).1 != Granted)
    ensures Guarded(s.(lock := Execute(s.lock, command, s.now).0), token, expires)
  {
    assert InFlightOk(s, command);
    SecondsMono(command.at, s.now);
    if command.token == token && command.kind == Renewing {
      SecondsMono(expires, command.Expires());
    }
  }

  lemma ArriveInv(s: State, command: Command)
    requires Inv(s) && command in s.inFlight
    ensures Inv(Next(s, Arrive(command)))
  {
    var t := Next(s, Arrive(command));
    assert InFlightOk(s, command);
    forall c | c in t.inFlight ensures InFlightOk(t, c) {
      assert InFlightOk(s, c);
    }
    forall c | c in t.replies ensures ReplyOk(t, c) {
      if c != command { assert ReplyOk(s, c); }
    }
    forall k | k in t.clients ensures ClientOk(t, k) {
      assert ClientOk(s, k);
      ArriveClient(s, command, k);
    }
  }

  lemma ArriveClient(s: State, command: Command, k: string)
    requires Inv(s) && command in s.inFlight && k in s.clients
    ensures ClientOk(Next(s, Arrive(command)), k)
  {
    var t, client := Next(s, Arrive(command)), s.clients[k];
    assert InFlightOk(s, command) && ClientOk(s, k);
    ArriveGuard(s, command, k);
    if client.waiting.Some? { ArriveWaiting(s, command, k, client.waiting.value); }
    ArriveRemoves(s, command, k);
    hide Guarded, WaitingOk, Execute, InFlightOk, Inv, Seconds;
  }

  /** An arriving command leaves an unreleased lease guarded. */
  lemma ArriveGuard(s: State, command: Command, k: string)
    requires Inv(s) && command in s.inFlight && k in s.clients
    ensures Unreleased(Next(s, Arrive(command)), k) ==> Guarded(Next(s, Arrive(command)), k, s.clients[k].expiresAt)
  {
    assert InFlightOk(s, command) && ClientOk(s, k);
    if Unreleased(Next(s, Arrive(command)), k) && s.clients[k].expiresAt > 0 {
      GuardSurvives(s, command, k, s.clients[k].expiresAt);
    }
  }

  lemma ArriveWaiting(s: State, command: Command, k: string, c: Command)
    requires Inv(s) && command in s.inFlight && k in s.clients && s.clients[k].waiting == Some(c)
    ensures WaitingOk(Next(s, Arrive(command)), k, s.clients[k], c)
  {
    assert InFlightOk(s, command) && ClientOk(s, k);
    if c != command && c in s.replies && s.replies[c] == Granted && c.kind != Releasing {
      assert ReplyOk(s, c);
      GuardSurvives(s, command, k, c.Expires());
    }
  }

  /** Only a release removes a lease, and only when its holder asked for it. */
  lemma ArriveRemoves(s: State, command: Command, k: string)
    requires Inv(s) && command in s.inFlight && k in s.clients
    ensures var t := Next(s, Arrive(command)); t.clients == s.clients && t.now == s.now && s.removed <= t.removed
    ensures k in Next(s, Arrive(command)).removed && k !in s.removed ==> s.clients[k].phase !in {Seeking, Holding}
  {
    assert InFlightOk(s, command) && ClientOk(s, k);
  }

  lemma LoseInv(s: State, command: Command)
    requires Inv(s)
    ensures Inv(s.(inFlight := s.inFlight - {command}))
  {
    var t := s.(inFlight := s.inFlight - {command});
    forall c | c in t.inFlight ensures InFlightOk(t, c) { assert InFlightOk(s, c); }
    forall c | c in t.replies ensures ReplyOk(t, c) { assert ReplyOk(s, c); }
    forall k | k in t.clients ensures ClientOk(t, k) { assert ClientOk(s, k); }
  }

  /** Changing one client to one that is idle, keeps every other command expected, and is guarded if it holds. */
  lemma SettleInv(s: State, token: string, client: Client, answered: set<Command>)
    requires Inv(s) && token in s.clients && client.waiting.None? && client.ttl == s.clients[token].ttl
    requires client.phase == Holding && client != s.clients[token] ==>
               Unreleased(s, token) && !client.released && Guarded(s, token, client.expiresAt)
    requires client.phase != Holding ==> client.expiresAt == s.clients[token].expiresAt
    requires client.expiresAt <= s.now + client.ttl
    requires client.phase == Seeking ==> s.clients[token].phase == Seeking && client.released == s.clients[token].released
    requires client.released ==> Over(s, token)
    requires forall c :: c in answered ==> c.token == token
    requires forall c :: c in s.inFlight && c.token == token ==> Expected(client, c)
    requires forall c :: c in s.replies && c.token == token && c !in answered ==> Expected(client, c)
    ensures Inv(s.(clients := s.clients[token := client], replies := s.replies - answered))
  {
    var t := s.(clients := s.clients[token := client], replies := s.replies - answered);
    forall c | c in t.inFlight ensures InFlightOk(t, c) { assert InFlightOk(s, c); }
    forall c | c in t.replies ensures ReplyOk(t, c) { assert ReplyOk(s, c); }
    forall k | k in t.clients ensures ClientOk(t, k) { assert ClientOk(s, k); }
  }

  lemma AnswerInv(s: State, token: string)
    requires Inv(s) && Enabled(s, Answer(token))
    ensures Inv(Next(s, Answer(token)))
  {
    var old' := s.clients[token];
    var command := old'.waiting.value;
    var client := Receive(old', command, s.replies[command]);
    assert ClientOk(s, token) && WaitingOk(s, token, old', command);
    forall c | c in s.inFlight && c.token == token ensures Expected(client, c) {
      assert InFlightOk(s, c);
    }
    forall c | c in s.replies && c.token == token && c !in {command} ensures Expected(client, c) {
      assert ReplyOk(s, c);
    }
    SettleInv(s, token, client, {command});
  }

  lemma NoAnswerInv(s: State, token: string)
    requires Inv(s) && Enabled(s, NoAnswer(token))
    ensures Inv(Next(s, NoAnswer(token)))
  {
    var old' := s.clients[token];
    var client := GiveUp(old', old'.waiting.value);
    assert ClientOk(s, token);
    forall c | c in s.inFlight && c.token == token ensures Expected(client, c) {
      assert InFlightOk(s, c);
    }
    forall c | c in s.replies && c.token == token && c !in {} ensures Expected(client, c) {
      assert ReplyOk(s, c);
    }
    SettleInv(s, token, client, {});
    assert s.replies - {} == s.replies;
  }

  lemma CrashInv(s: State, token: string)
    requires Inv(s) && token in s.clients
    ensures Inv(Next(s, Event.Crash(token)))
  {
    SettleInv(s, token, s.clients[token].(phase := Gone, waiting := None), {});
    assert s.replies - {} == s.replies;
  }

  lemma NextInv(s: State, e: Event)
    requires Inv(s) && Enabled(s, e)
    ensures Inv(Next(s, e))
  {
    match e {
      case Tick(nanos) => TickInv(s, nanos);
      case Start(token, ttl) => SendInv(s, token, Client(Seeking, ttl, 0, None, false, false), Acquiring);
      case Retry(token) => SendInv(s, token, s.clients[token], Acquiring);
      case SendRenew(token) => SendInv(s, token, s.clients[token], Renewing);
      case SendRelease(token) => SendInv(s, token, s.clients[token].(phase := Ending), Releasing);
      case Arrive(command) => ArriveInv(s, command);
      case LoseCommand(command) => LoseInv(s, command);
      case Answer(token) => AnswerInv(s, token);
      case NoAnswer(token) => NoAnswerInv(s, token);
      case Crash(token) => CrashInv(s, token);
    }
  }

  lemma {:induction false} RunInv(s: State, events: seq<Event>)
    requires Inv(s) && Run(s, events)
    ensures Inv(After(s, events))
    decreases |events|
  {
    if events != [] {
      NextInv(s, events[0]);
      RunInv(Next(s, events[0]), events[1..]);
    }
  }

  /** A lease that no release has ended, unexpired in whole seconds in its holder's own view. */
  predicate HoldsNow(s: State, token: string)
  {
    Unreleased(s, token) && Seconds(s.now) < Seconds(s.clients[token].expiresAt)
  }

  predicate Names(lock: Lock, token: string)
  {
    lock.Some? && lock.value.owner == token
  }

  /** Mutual exclusion over every run: at most one lease that no release has ended is unexpired in whole seconds,
      whether its holder works, has crashed or has given up, and the lock directory names it. */
  lemma MutualExclusion(s0: State, events: seq<Event>, a: string, b: string)
    requires Initial(s0) && Run(s0, events)
    requires HoldsNow(After(s0, events), a) && HoldsNow(After(s0, events), b)
    ensures a == b
    ensures var s := After(s0, events);
            Names(s.lock, a) && s.lock.value.expiry.Some? && s.lock.value.expiry.value >= Seconds(s.clients[a].expiresAt)
  {
    InitialInv(s0);
    RunInv(s0, events);
    assert ClientOk(After(s0, events), a) && ClientOk(After(s0, events), b);
  }

  /** In nanoseconds, two such leases overlap by strictly less than one second: the one that the lock directory
      does not name is in its last second. */
  lemma OverlapUnderOneSecond(s0: State, events: seq<Event>, a: string, b: string)
    requires Initial(s0) && Run(s0, events) && a != b
    requires var s := After(s0, events);
             && Unreleased(s, a) && s.now < s.clients[a].expiresAt
             && Unreleased(s, b) && s.now < s.clients[b].expiresAt
    ensures var s := After(s0, events);
            && !(Names(s.lock, a) && Names(s.lock, b))
            && (!Names(s.lock, a) ==> s.clients[a].expiresAt - s.now < NANOS_PER_SECOND)
            && (!Names(s.lock, b) ==> s.clients[b].expiresAt - s.now < NANOS_PER_SECOND)
  {
    LastSecond(s0, events, a);
    LastSecond(s0, events, b);
  }

  lemma LastSecond(s0: State, events: seq<Event>, token: string)
    requires Initial(s0) && Run(s0, events)
    requires Unreleased(After(s0, events), token)
    ensures var s := After(s0, events); !Names(s.lock, token) ==> s.clients[token].expiresAt < s.now + NANOS_PER_SECOND
  {
    var s := After(s0, events);
    if HoldsNow(s, token) {
      MutualExclusion(s0, events, token, token);
    } else {
      WithinSecond(s.now, s.clients[token].expiresAt);
    }
  }

  /** A lease's own flag never claims too much: once set, the lease is over. */
  lemma SetFlagIsTrue(s0: State, events: seq<Event>, token: string)
    requires Initial(s0) && Run(s0, events)
    requires token in After(s0, events).clients && After(s0, events).clients[token].released
    ensures !HoldsNow(After(s0, events), token)
  {
    InitialInv(s0);
    RunInv(s0, events);
    assert ClientOk(After(s0, events), token);
  }

  /** A clear flag can claim too little, but only after a release: of two unexpired leases whose flags are clear,
      the release of one has already removed the lock. */
  lemma ClearFlagsOverlapAfterRelease(s0: State, events: seq<Event>, a: string, b: string)
    requires Initial(s0) && Run(s0, events) && a != b
    requires var s := After(s0, events);
             forall t :: t in {a, b} ==>
               t in s.clients && !s.clients[t].released && Seconds(s.now) < Seconds(s.clients[t].expiresAt)
    ensures a in After(s0, events).removed || b in After(s0, events).removed
  {
    assert a in {a, b} && b in {a, b};
    if a !in After(s0, events).removed && b !in After(s0, events).removed {
      MutualExclusion(s0, events, a, b);
    }
  }

  lemma WithinSecond(now: nat, expires: nat)
    requires Seconds(now) >= Seconds(expires)
    ensures expires < now + NANOS_PER_SECOND
  {
  }

  lemma {:induction false} RunExtend(s: State, events: seq<Event>, e: Event)
    requires Run(s, events) && Enabled(After(s, events), e)
    ensures Run(s, events + [e]) && After(s, events + [e]) == Next(After(s, events), e)
    decreases |events|
  {
    hide Enabled, Next;
    if events == [] {
      assert events + [e] == [e];
    } else {
      RunExtend(Next(s, events[0]), events[1..], e);
      assert (events + [e])[1..] == events[1..] + [e];
    }
  }

  /** A free lock is granted to a newcomer whose command meets no delay. */
  lemma Acquires(s0: State, events: seq<Event>, token: string, ttl: nat) returns (more: seq<Event>, s: State)
    requires Run(s0, events) && ttl >= NANOS_PER_SECOND
    requires var b := After(s0, events);
             b.lock.None? && token !in b.clients && forall c :: c in b.inFlight || c in b.replies ==> c.token != token
    ensures Run(s0, more) && s == After(s0, more)
    ensures var b := After(s0, events);
            s == b.(lock := Some(LockDir(token, Some(Seconds(b.now + ttl)), Seconds(b.now))),
                    clients := b.clients[token := Client(Holding, ttl, b.now + ttl, None, true, false)])
  {
    hide Run, After, Seconds;
    var b := After(s0, events);
    var command := Command(Acquiring, token, b.now, ttl);
    RunExtend(s0, events, Start(token, ttl));
    more := events + [Start(token, ttl)];
    RunExtend(s0, more, Arrive(command));
    more := more + [Arrive(command)];
    RunExtend(s0, more, Answer(token));
    more := more + [Answer(token)];
    s := After(s0, more);
    assert s.inFlight == b.inFlight && s.replies == b.replies;
  }

  /** A holder's release runs, and its reply is still on the way. */
  lemma Releases(s0: State, events: seq<Event>, token: string) returns (more: seq<Event>, s: State)
    requires Run(s0, events) && Idle(After(s0, events), token, Holding)
    requires var b := After(s0, events); Owns(b.lock, token, Seconds(b.now)) && b.inFlight == {} && b.replies == map[]
    ensures Run(s0, more) && s == After(s0, more)
    ensures var b := After(s0, events);
            var command := Command(Releasing, token, b.now, b.clients[token].ttl);
            s == b.(lock := None, replies := map[command := Granted], removed := b.removed + {token},
                    clients := b.clients[token := b.clients[token].(phase := Ending, waiting := Some(command))])
  {
    hide Run, After, Seconds;
    var b := After(s0, events);
    var command := Command(Releasing, token, b.now, b.clients[token].ttl);
    RunExtend(s0, events, SendRelease(token));
    more := events + [SendRelease(token)];
    RunExtend(s0, more, Arrive(command));
    more := more + [Arrive(command)];
    s := After(s0, more);
    assert s.inFlight == {};
  }

  /** The lease object's own released flag lags behind: it is set only by the reply, so two leases can both
      carry a clear flag and be unexpired between the moment a release runs and the moment its reply is read. */
  lemma ReleasedFlagLags() returns (events: seq<Event>, s: State)
    ensures var s0 := State(0, None, map[], {}, map[], {}); Initial(s0) && Run(s0, events) && s == After(s0, events)
    ensures "a" in s.clients && !s.clients["a"].released && Seconds(s.now) < Seconds(s.clients["a"].expiresAt)
    ensures "b" in s.clients && !s.clients["b"].released && Seconds(s.now) < Seconds(s.clients["b"].expiresAt)
    ensures s.clients["a"].phase == Ending && s.clients["b"].phase == Holding
  {
    var ttl := NANOS_PER_SECOND;
    var s0 := State(0, None, map[], {}, map[], {});
    events, s := Acquires(s0, [], "a", ttl);
    events, s := Releases(s0, events, "a");
    events, s := Acquires(s0, events, "b", ttl);
  }
}
