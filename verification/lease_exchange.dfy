/** One undisturbed exchange of the lease protocol: what a client asks, what its script does whenever it arrives, and
    what the client makes of the reply. */
module LeaseExchange {
  import opened Model
  import opened LeaseLock
  import opened LeaseProtocol

  /** A command is sent, arrives after some time, and its reply is read after some more. */
  function Exchange(first: Event, token: string, command: Command, there: nat, back: nat): seq<Event>
  {
    [first, Tick(there), Arrive(command), Tick(back), Answer(token)]
  }

  /** Once sent, an undisturbed exchange runs to its end. */
  lemma Exchanged(s: State, first: Event, token: string, command: Command, there: nat, back: nat)
    requires Enabled(s, first)
    requires var sent := Next(s, first);
             && sent.now == s.now && sent.lock == s.lock && command in sent.inFlight
             && token in sent.clients && sent.clients[token].waiting == Some(command)
    ensures var events, sent := Exchange(first, token, command, there, back), Next(s, first);
            Run(s, events) &&
            var t, executed := After(s, events), Execute(s.lock, command, s.now + there);
            && t.now == s.now + there + back && t.lock == executed.0
            && token in t.clients && t.clients[token] == Receive(sent.clients[token], command, executed.1)
            && t.inFlight == sent.inFlight - {command}
            && (forall other :: other in s.clients && other != token && other in sent.clients && sent.clients[other] == s.clients[other] ==>
                  other in t.clients && t.clients[other] == s.clients[other])
  {
    hide Run, After, Execute, Receive;
    var events := Exchange(first, token, command, there, back);
    var a := Next(s, first);
    var b := Next(a, Tick(there));
    var c := Next(b, Arrive(command));
    var d := Next(c, Tick(back));
    OneStep(d, events[4], []);
    OneStep(c, events[3], [events[4]]);
    OneStep(b, events[2], [events[3], events[4]]);
    OneStep(a, events[1], [events[2], events[3], events[4]]);
    OneStep(s, events[0], [events[1], events[2], events[3], events[4]]);
    assert [events[4]] + [] == [events[4]];
    assert [events[3]] + [events[4]] == [events[3], events[4]];
    assert [events[2]] + [events[3], events[4]] == [events[2], events[3], events[4]];
    assert [events[1]] + [events[2], events[3], events[4]] == [events[1], events[2], events[3], events[4]];
    assert [events[0]] + [events[1], events[2], events[3], events[4]] == events;
    NoSteps(Next(d, events[4]));
  }

  lemma OneStep(s: State, e: Event, rest: seq<Event>)
    requires Enabled(s, e)
    ensures Run(s, [e] + rest) <==> Run(Next(s, e), rest)
    ensures Run(Next(s, e), rest) ==> After(s, [e] + rest) == After(Next(s, e), rest)
  {
    hide Enabled, Next;
    assert ([e] + rest)[1..] == rest;
  }

  lemma NoSteps(s: State)
    ensures Run(s, []) && After(s, []) == s
  {
  }

  /** Acquiring, by a newcomer or once more: the lock is granted exactly when it was free or over at the moment the
      command was built; then the directory names the token until ttl after that moment, and so does the client's view,
      however long the exchange took. */
  lemma AcquireExchange(s: State, token: string, ttl: nat, there: nat, back: nat) returns (events: seq<Event>)
    requires if token in s.clients then Idle(s, token, Seeking) && s.clients[token].ttl == ttl else ttl >= NANOS_PER_SECOND
    ensures Run(s, events)
    ensures var t := After(s, events);
            && t.now == s.now + there + back && token in t.clients && t.clients[token].waiting.None?
            && if Grants(s.lock, s.now, ttl) then
                 && OwnsUntil(t.lock, token, Seconds(s.now + ttl))
                 && t.clients[token].phase == Holding && t.clients[token].expiresAt == s.now + ttl && t.clients[token].renewing
               else
                 && t.lock == s.lock && t.clients[token].phase == Seeking
                 && (token in s.clients ==> t.clients[token] == s.clients[token])
  {
    var command := Command(Acquiring, token, s.now, ttl);
    var first := if token in s.clients then Retry(token) else Start(token, ttl);
    events := Exchange(first, token, command, there, back);
    Exchanged(s, first, token, command, there, back);
    hide Run, After, OwnsUntil, Seconds;
    AcquireMeans(s.lock, token, s.now, ttl, s.now + there);
  }

  lemma AcquireMeans(lock: Lock, token: string, built: nat, ttl: nat, arrived: nat)
    ensures var executed := Execute(lock, Command(Acquiring, token, built, ttl), arrived);
            && (executed.1 == Granted <==> Grants(lock, built, ttl))
            && (executed.1 == Granted ==> OwnsUntil(executed.0, token, Seconds(built + ttl)))
            && (executed.1 != Granted ==> executed.0 == lock)
  {
    SecondsMono(built, built + ttl);
    hide Seconds;
  }

  /** Renewing: exactly the owner at the moment the command was built is extended to ttl after that moment, in the
      directory and in its own view; anyone else changes nothing and stops renewing. */
  lemma RenewExchange(s: State, token: string, there: nat, back: nat) returns (events: seq<Event>)
    requires Idle(s, token, Holding) && s.clients[token].renewing
    ensures Run(s, events)
    ensures var t, ttl := After(s, events), s.clients[token].ttl;
            && t.now == s.now + there + back && token in t.clients
            && if Owns(s.lock, token, Seconds(s.now)) then
                 && OwnsUntil(t.lock, token, Seconds(s.now + ttl))
                 && t.clients[token] == s.clients[token].(expiresAt := s.now + ttl)
               else
                 t.lock == s.lock && t.clients[token] == s.clients[token].(renewing := false)
  {
    var command := Command(Renewing, token, s.now, s.clients[token].ttl);
    events := Exchange(SendRenew(token), token, command, there, back);
    Exchanged(s, SendRenew(token), token, command, there, back);
    hide Run, After, Seconds;
  }

  /** Releasing: exactly the owner at the moment the command was built removes the lock, and the flag is set when it did
      or when there was no lock. */
  lemma ReleaseExchange(s: State, token: string, there: nat, back: nat) returns (events: seq<Event>)
    requires Idle(s, token, Holding)
    ensures Run(s, events)
    ensures var t := After(s, events);
            && t.now == s.now + there + back && token in t.clients
            && t.lock == (if Owns(s.lock, token, Seconds(s.now)) then None else s.lock)
            && t.clients[token].phase == Gone && t.clients[token].expiresAt == s.clients[token].expiresAt
            && (t.clients[token].released <==> s.lock.None? || Owns(s.lock, token, Seconds(s.now)))
  {
    var command := Command(Releasing, token, s.now, s.clients[token].ttl);
    events := Exchange(SendRelease(token), token, command, there, back);
    Exchanged(s, SendRelease(token), token, command, there, back);
    hide Run, After, Seconds;
  }

  /** The surroundings may at any moment let time pass, deliver or lose any command that is under way, withhold any
      answer, and crash any client. Without an answer a renewal ends the renewing, and anything else the client. */
  lemma SurroundingsMay(s: State)
    ensures forall nanos: nat :: Enabled(s, Tick(nanos)) && Next(s, Tick(nanos)) == s.(now := s.now + nanos)
    ensures forall c :: c in s.inFlight ==> Enabled(s, Arrive(c))
    ensures forall c :: c in s.inFlight ==> Enabled(s, LoseCommand(c)) && Next(s, LoseCommand(c)) == s.(inFlight := s.inFlight - {c})
    ensures forall t :: t in s.clients && s.clients[t].waiting.Some? ==>
              var client := s.clients[t];
              && Enabled(s, NoAnswer(t)) && Next(s, NoAnswer(t)).lock == s.lock && Next(s, NoAnswer(t)).inFlight == s.inFlight
              && Next(s, NoAnswer(t)).clients ==
                 s.clients[t := if client.waiting.value.kind == Renewing then client.(waiting := None, renewing := false)
                                else client.(waiting := None, phase := Gone)]
    ensures forall t :: t in s.clients ==>
              && Enabled(s, Event.Crash(t)) && Next(s, Event.Crash(t)).lock == s.lock && Next(s, Event.Crash(t)).inFlight == s.inFlight
              && Next(s, Event.Crash(t)).clients == s.clients[t := s.clients[t].(phase := Gone, waiting := None)]
  {
  }
}
