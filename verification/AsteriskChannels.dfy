/**
 The life of Asterisk channels: concurrently running handlers share a cache of charging
 events, which they fill after an authorization and update in place afterwards.
 */
module AsteriskChannels {
  import opened Wrappers

  /** A time stamp as the event carries it: it may not parse, and it may be the zero time. */
  datatype Stamp = Unparsable | ZeroTime | At(t: int)

  datatype Usage = None0s | Lasted(d: int)

  /** The parts of a cached charging event that handlers change. */
  datatype Event = Event(answerTime: Option<Stamp>, usage: Option<Usage>)

  /** The usage at a channel's end, or nothing if a time does not parse. */
  function UsageOf(answer: Option<Stamp>, end: Stamp): Option<Usage> {
    match answer
    case None => Some(None0s)
    case Some(Unparsable) => None
    case Some(ZeroTime) => Some(None0s)
    case Some(At(t)) =>
      match end
      case Unparsable => None
      case ZeroTime => Some(Lasted(0 - t))
      case At(e) => Some(Lasted(e - t))
  }

  datatype Task =
    | Starting(chan: string, given: Event)      // given: AnswerTime and Usage among the stasis arguments
    | Authorized(chan: string, given: Event)
    | Changing(chan: string, stamp: Stamp)
    | Answering(chan: string, stamp: Stamp, event: nat)
    | Initiating(chan: string, event: nat)
    | Ending(chan: string, stamp: Stamp)
    | Closing(chan: string, stamp: Stamp, event: nat)
    | Terminating(chan: string, event: nat)
    | Billing(chan: string, event: nat)
    | Over

  /** What happened, in the order in which it happened; calls carry the shared event as it is then. */
  datatype Note =
    | AuthorizedNote(chan: string)
    | CachedNote(chan: string, event: nat, given: Event)
    | AnsweredNote(chan: string, event: nat, stamp: Stamp)
    | ClosedNote(h: nat, chan: string, event: nat, stamp: Stamp, usage: Option<Usage>)
    | InitiateCall(chan: string, event: nat, sent: Event)
    | TerminateCall(h: nat, chan: string, event: nat, sent: Event)
    | CdrCall(h: nat, chan: string, event: nat, sent: Event)

  /** Events are objects: the cache and the handlers hold their numbers. */
  datatype State = State(cache: map<string, nat>, events: seq<Event>, tasks: map<nat, Task>, log: seq<Note>)

  datatype Action =
    | StasisStart(h: nat, chan: string, given: Event)
    | StateChange(h: nat, chan: string, up: bool, stamp: Stamp)
    | Destroyed(h: nat, chan: string, stamp: Stamp)
    | Authorize(h: nat, ok: bool)         // subscribing, authorizing, setting the variables, leaving stasis
    | Store(h: nat)
    | Look(h: nat)
    | Update(h: nat)
    | Call(h: nat)
    | Bill(h: nat, createCdr: bool)

  predicate Enabled(s: State, a: Action) {
    match a
    case StasisStart(h, _, _) => h !in s.tasks
    case StateChange(h, _, _, _) => h !in s.tasks
    case Destroyed(h, _, _) => h !in s.tasks
    case Authorize(h, _) => h in s.tasks && s.tasks[h].Starting?
    case Store(h) => h in s.tasks && s.tasks[h].Authorized?
    case Look(h) => h in s.tasks && (s.tasks[h].Changing? || s.tasks[h].Ending?)
    case Update(h) =>
      && h in s.tasks && (s.tasks[h].Answering? || s.tasks[h].Closing?)
      && s.tasks[h].event < |s.events|
    case Call(h) =>
      && h in s.tasks && (s.tasks[h].Initiating? || s.tasks[h].Terminating?)
      && s.tasks[h].event < |s.events|
    case Bill(h, _) => h in s.tasks && s.tasks[h].Billing? && s.tasks[h].event < |s.events|
  }

  function Moved(s: State, h: nat, t: Task): State {
    s.(tasks := s.tasks[h := t])
  }

  function Noted(s: State, note: Note): State {
    s.(log := s.log + [note])
  }

  /** The update that a handler makes on a cached event, under the lock. */
  function Updated(s: State, h: nat): State
    requires Enabled(s, Update(h))
  {
    var t := s.tasks[h];
    var ev := s.events[t.event];
    if t.Answering? then
      Noted(Moved(s.(events := s.events[t.event := ev.(answerTime := Some(t.stamp))]), h, Initiating(t.chan, t.event)),
            AnsweredNote(t.chan, t.event, t.stamp))
    else
      var usage := UsageOf(ev.answerTime, t.stamp);
      var s' := if usage.Some? then s.(events := s.events[t.event := ev.(usage := usage)]) else s;
      Noted(Moved(s', h, if usage.Some? then Terminating(t.chan, t.event) else Over),
            ClosedNote(h, t.chan, t.event, t.stamp, usage))
  }

  /** One atomic step. */
  function Next(s: State, a: Action): State
    requires Enabled(s, a)
  {
    match a
    case StasisStart(h, chan, given) => Moved(s, h, Starting(chan, given))
    case StateChange(h, chan, up, stamp) => Moved(s, h, if up then Changing(chan, stamp) else Over)
    case Destroyed(h, chan, stamp) => Moved(s, h, Ending(chan, stamp))
    case Authorize(h, ok) =>
      var t := s.tasks[h];
      if ok then Noted(Moved(s, h, Authorized(t.chan, t.given)), AuthorizedNote(t.chan))
      else Moved(s, h, Over)
    case Store(h) =>
      var t := s.tasks[h];
      var id := |s.events|;
      Noted(Moved(s.(events := s.events + [t.given], cache := s.cache[t.chan := id]), h, Over),
            CachedNote(t.chan, id, t.given))
    case Look(h) =>
      var t := s.tasks[h];
      if t.chan !in s.cache then Moved(s, h, Over)
      else if t.Changing? then Moved(s, h, Answering(t.chan, t.stamp, s.cache[t.chan]))
      else Moved(s, h, Closing(t.chan, t.stamp, s.cache[t.chan]))
    case Update(h) => Updated(s, h)
    case Call(h) =>
      var t := s.tasks[h];
      if t.Initiating? then Noted(Moved(s, h, Over), InitiateCall(t.chan, t.event, s.events[t.event]))
      else Noted(Moved(s, h, Billing(t.chan, t.event)), TerminateCall(h, t.chan, t.event, s.events[t.event]))
    case Bill(h, createCdr) =>
      var t := s.tasks[h];
      if createCdr then Noted(Moved(s, h, Over), CdrCall(h, t.chan, t.event, s.events[t.event])) else Moved(s, h, Over)
  }

  function Run(s: State, actions: seq<Action>): Option<State>
    decreases |actions|
  {
    if actions == [] then Some(s)
    else if !Enabled(s, actions[0]) then Option.None
    else Run(Next(s, actions[0]), actions[1..])
  }

  const START := State(map[], [], map[], [])

  // ----- what must have happened before

  ghost predicate HasCached(log: seq<Note>, chan: string, event: nat) {
    exists given :: CachedNote(chan, event, given) in log
  }

  ghost predicate HasAnswered(log: seq<Note>, chan: string, event: nat) {
    exists stamp :: AnsweredNote(chan, event, stamp) in log
  }

  /** The handler closed the event with a usage. */
  ghost predicate HasClosed(log: seq<Note>, h: nat, chan: string, event: nat) {
    exists stamp, usage :: ClosedNote(h, chan, event, stamp, Some(usage)) in log
  }

  ghost predicate HasTerminated(log: seq<Note>, h: nat, chan: string, event: nat) {
    exists sent :: TerminateCall(h, chan, event, sent) in log
  }

  /** Nothing has happened to the event yet. */
  ghost predicate IsNew(log: seq<Note>, event: nat) {
    forall note :: note in log && !note.AuthorizedNote? ==> note.event != event
  }

  /** The direct cause of a note is in the log. */
  ghost predicate Caused(log: seq<Note>, note: Note) {
    match note
    case AuthorizedNote(_) => true
    case CachedNote(chan, event, _) => AuthorizedNote(chan) in log && IsNew(log, event)
    case AnsweredNote(chan, event, _) => HasCached(log, chan, event)
    case ClosedNote(_, chan, event, _, _) => HasCached(log, chan, event)
    case InitiateCall(chan, event, _) => HasAnswered(log, chan, event)
    case TerminateCall(h, chan, event, _) => HasClosed(log, h, chan, event)
    case CdrCall(h, chan, event, _) => HasTerminated(log, h, chan, event)
  }

  ghost predicate Ordered(log: seq<Note>) {
    forall i :: 0 <= i < |log| ==> Caused(log[..i], log[i])
  }

  /** What a handler's progress says about the log. */
  ghost predicate TaskInv(log: seq<Note>, h: nat, t: Task) {
    match t
    case Authorized(chan, _) => AuthorizedNote(chan) in log
    case Answering(chan, _, event) => HasCached(log, chan, event)
    case Initiating(chan, event) => HasAnswered(log, chan, event)
    case Closing(chan, _, event) => HasCached(log, chan, event)
    case Terminating(chan, event) => HasClosed(log, h, chan, event)
    case Billing(chan, event) => HasTerminated(log, h, chan, event)
    case _ => true
  }

  /** What a note makes of an event. */
  function Touched(note: Note, event: nat, was: Event): Event {
    match note
    case CachedNote(_, e, given) => if e == event then given else was
    case AnsweredNote(_, e, stamp) => if e == event then was.(answerTime := Some(stamp)) else was
    case ClosedNote(_, _, e, _, usage) => if e == event && usage.Some? then was.(usage := usage) else was
    case _ => was
  }

  const UNTOUCHED := Event(Option.None, Option.None)

  /** The event as the log leaves it. */
  function Replay(log: seq<Note>, event: nat): Event
    decreases |log|
  {
    if log == [] then UNTOUCHED
    else Touched(log[|log| - 1], event, Replay(log[..|log| - 1], event))
  }

  predicate IsSessionCall(note: Note) {
    note.InitiateCall? || note.TerminateCall? || note.CdrCall?
  }

  /** A closing carries the usage, and a call the event, that the notes before it give. */
  predicate TrueTo(log: seq<Note>, note: Note) {
    && (note.ClosedNote? ==> note.usage == UsageOf(Replay(log, note.event).answerTime, note.stamp))
    && (IsSessionCall(note) ==> note.sent == Replay(log, note.event))
  }

  ghost predicate AllTrue(log: seq<Note>) {
    forall i :: 0 <= i < |log| ==> TrueTo(log[..i], log[i])
  }

  /** Handlers and cache refer to what is in the log. */
  ghost predicate FactsInv(log: seq<Note>, tasks: map<nat, Task>, cache: map<string, nat>) {
    && (forall h :: h in tasks ==> TaskInv(log, h, tasks[h]))
    && (forall chan :: chan in cache ==> HasCached(log, chan, cache[chan]))
  }

  /** The events of the log exist, and are what the log leaves of them. */
  ghost predicate EventsInv(log: seq<Note>, events: seq<Event>) {
    && (forall note :: note in log && !note.AuthorizedNote? ==> note.event < |events|)
    && (forall e :: 0 <= e < |events| ==> events[e] == Replay(log, e))
  }

  ghost predicate Inv(s: State) {
    Ordered(s.log) && AllTrue(s.log) && FactsInv(s.log, s.tasks, s.cache) && EventsInv(s.log, s.events)
  }

  lemma NotedKeepsFacts(log: seq<Note>, note: Note, h: nat, t: Task)
    requires TaskInv(log, h, t)
    ensures TaskInv(log + [note], h, t)
  {
  }

  lemma NotedKeepsOrder(log: seq<Note>, note: Note)
    requires Ordered(log) && AllTrue(log) && Caused(log, note) && TrueTo(log, note)
    ensures Ordered(log + [note]) && AllTrue(log + [note])
  {
    hide Caused, TrueTo;
    var all := log + [note];
    assert all[..|log|] == log;
    forall i | 0 <= i < |all| ensures Caused(all[..i], all[i]) && TrueTo(all[..i], all[i]) {
      if i < |log| {
        assert all[..i] == log[..i] && all[i] == log[i];
      }
    }
  }

  lemma ReplayAfter(log: seq<Note>, note: Note, event: nat)
    ensures Replay(log + [note], event) == Touched(note, event, Replay(log, event))
  {
    assert (log + [note])[..|log|] == log;
  }

  /** An event nothing has happened to. */
  lemma {:induction false} ReplayNew(log: seq<Note>, event: nat)
    requires IsNew(log, event)
    ensures Replay(log, event) == UNTOUCHED
    decreases |log|
  {
    if log != [] {
      assert log[|log| - 1] in log;
      assert forall note :: note in log[..|log| - 1] ==> note in log;
      ReplayNew(log[..|log| - 1], event);
    }
  }

  lemma MovedKeepsInv(s: State, h: nat, t: Task)
    requires Inv(s) && TaskInv(s.log, h, t)
    ensures Inv(Moved(s, h, t))
  {
    hide TaskInv, HasCached, Ordered, AllTrue, EventsInv;
  }

  lemma HasCachedStays(log: seq<Note>, note: Note, chan: string, event: nat)
    requires HasCached(log, chan, event)
    ensures HasCached(log + [note], chan, event)
  {
    var given :| CachedNote(chan, event, given) in log;
    assert CachedNote(chan, event, given) in log + [note];
  }

  lemma FactsStay(log: seq<Note>, note: Note, tasks: map<nat, Task>, cache: map<string, nat>)
    requires FactsInv(log, tasks, cache)
    ensures FactsInv(log + [note], tasks, cache)
  {
    hide TaskInv, HasCached;
    forall h | h in tasks ensures TaskInv(log + [note], h, tasks[h]) {
      NotedKeepsFacts(log, note, h, tasks[h]);
    }
    forall chan | chan in cache ensures HasCached(log + [note], chan, cache[chan]) {
      HasCachedStays(log, note, chan, cache[chan]);
    }
  }

  /** Events that change as the note says are again what the log leaves of them. */
  lemma EventsStay(log: seq<Note>, note: Note, events: seq<Event>, events': seq<Event>)
    requires EventsInv(log, events) && |events| <= |events'|
    requires !note.AuthorizedNote? ==> note.event < |events'|
    requires forall e :: 0 <= e < |events'| ==>
               events'[e] == Touched(note, e, if e < |events| then events[e] else UNTOUCHED)
    ensures EventsInv(log + [note], events')
  {
    hide Replay, Touched;
    forall e | 0 <= e < |events'| ensures events'[e] == Replay(log + [note], e) {
      ReplayAfter(log, note, e);
      if e >= |events| {
        ReplayNew(log, e);
      }
    }
  }

  /** A step that adds a note, and changes events and cache as the note says. */
  lemma NotedKeepsInv(s: State, note: Note, events: seq<Event>, cache: map<string, nat>)
    requires Inv(s) && Caused(s.log, note) && TrueTo(s.log, note)
    requires EventsInv(s.log + [note], events)
    requires forall chan :: chan in cache ==>
               (chan in s.cache && cache[chan] == s.cache[chan]) || HasCached(s.log + [note], chan, cache[chan])
    ensures Inv(Noted(s.(events := events, cache := cache), note))
  {
    hide TaskInv, HasCached, Ordered, AllTrue, EventsInv, Caused, TrueTo;
    FactsStay(s.log, note, s.tasks, s.cache);
    NotedKeepsOrder(s.log, note);
  }

  /** A call, or an authorization, changes no event. */
  lemma PlainNoteKeepsInv(s: State, note: Note)
    requires Inv(s) && Caused(s.log, note) && TrueTo(s.log, note)
    requires note.AuthorizedNote? || (IsSessionCall(note) && note.event < |s.events|)
    ensures Inv(Noted(s, note))
  {
    EventsStay(s.log, note, s.events, s.events);
    hide Inv, EventsInv, Caused, TrueTo, HasCached;
    NotedKeepsInv(s, note, s.events, s.cache);
  }

  /** What a handler may rely on: the event it works on exists and is what the log leaves of it. */
  lemma TaskFacts(s: State, h: nat)
    requires Inv(s) && h in s.tasks
    ensures TaskInv(s.log, h, s.tasks[h])
    ensures match s.tasks[h]
            case Answering(_, _, e) => e < |s.events| && s.events[e] == Replay(s.log, e)
            case Initiating(_, e) => e < |s.events| && s.events[e] == Replay(s.log, e)
            case Closing(_, _, e) => e < |s.events| && s.events[e] == Replay(s.log, e)
            case Terminating(_, e) => e < |s.events| && s.events[e] == Replay(s.log, e)
            case Billing(_, e) => e < |s.events| && s.events[e] == Replay(s.log, e)
            case _ => true
  {
    hide Ordered, AllTrue, Replay;
  }

  lemma StoreKeepsInv(s: State, h: nat)
    requires Inv(s) && Enabled(s, Store(h))
    ensures Inv(Next(s, Store(h)))
  {
    hide Inv, EventsInv, HasCached, Replay;
    var t := s.tasks[h];
    TaskFacts(s, h);
    var id := |s.events|;
    var note := CachedNote(t.chan, id, t.given);
    var events := s.events + [t.given];
    EventsOf(s);
    EventsStay(s.log, note, s.events, events);
    NowCached(s.log, note);
    var cache := s.cache[t.chan := id];
    NotedKeepsInv(s, note, events, cache);
    MovedKeepsInv(Noted(s.(events := events, cache := cache), note), h, Over);
  }

  lemma EventsOf(s: State)
    requires Inv(s)
    ensures EventsInv(s.log, s.events) && IsNew(s.log, |s.events|)
  {
    hide Replay;
  }

  lemma NowCached(log: seq<Note>, note: Note)
    requires note.CachedNote?
    ensures HasCached(log + [note], note.chan, note.event)
  {
    assert CachedNote(note.chan, note.event, note.given) in log + [note];
  }

  lemma AnswerKeepsInv(s: State, h: nat)
    requires Inv(s) && Enabled(s, Update(h)) && s.tasks[h].Answering?
    ensures Inv(Updated(s, h))
  {
    hide Inv, EventsInv, Replay, HasCached;
    var t := s.tasks[h];
    TaskFacts(s, h);
    var note := AnsweredNote(t.chan, t.event, t.stamp);
    var events := s.events[t.event := s.events[t.event].(answerTime := Some(t.stamp))];
    EventsOf(s);
    EventsStay(s.log, note, s.events, events);
    NotedKeepsInv(s, note, events, s.cache);
    var s' := Noted(s.(events := events), note);
    assert note in s'.log;
    MovedKeepsInv(s', h, Initiating(t.chan, t.event));
  }

  lemma CloseKeepsInv(s: State, h: nat)
    requires Inv(s) && Enabled(s, Update(h)) && s.tasks[h].Closing?
    ensures Inv(Updated(s, h))
  {
    hide Inv, EventsInv, Replay, HasCached, UsageOf;
    var t := s.tasks[h];
    TaskFacts(s, h);
    var ev := s.events[t.event];
    var usage := UsageOf(ev.answerTime, t.stamp);
    var note := ClosedNote(h, t.chan, t.event, t.stamp, usage);
    var events := if usage.Some? then s.events[t.event := ev.(usage := usage)] else s.events;
    EventsOf(s);
    EventsStay(s.log, note, s.events, events);
    NotedKeepsInv(s, note, events, s.cache);
    var s' := Noted(s.(events := events), note);
    assert note in s'.log;
    if usage.Some? {
      assert ClosedNote(h, t.chan, t.event, t.stamp, Some(usage.value)) in s'.log;
    }
    MovedKeepsInv(s', h, if usage.Some? then Terminating(t.chan, t.event) else Over);
  }

  lemma LookKeepsInv(s: State, h: nat)
    requires Inv(s) && Enabled(s, Look(h))
    ensures Inv(Next(s, Look(h)))
  {
    hide Ordered, AllTrue, EventsInv, HasCached;
    MovedKeepsInv(s, h, Next(s, Look(h)).tasks[h]);
  }

  lemma CallKeepsInv(s: State, h: nat, createCdr: bool)
    requires Inv(s)
    ensures Enabled(s, Call(h)) ==> Inv(Next(s, Call(h)))
    ensures Enabled(s, Bill(h, createCdr)) ==> Inv(Next(s, Bill(h, createCdr)))
  {
    hide Inv, HasCached, HasAnswered, HasClosed, Replay;
    if Enabled(s, Call(h)) || Enabled(s, Bill(h, createCdr)) {
      var t := s.tasks[h];
      TaskFacts(s, h);
      var ev := s.events[t.event];
      var note := if t.Initiating? then InitiateCall(t.chan, t.event, ev)
                  else if t.Terminating? then TerminateCall(h, t.chan, t.event, ev)
                  else CdrCall(h, t.chan, t.event, ev);
      PlainNoteKeepsInv(s, note);
      var s' := Noted(s, note);
      assert note in s'.log;
      assert t.Terminating? ==> TerminateCall(h, t.chan, t.event, ev) in s'.log;
      MovedKeepsInv(s', h, if t.Terminating? then Billing(t.chan, t.event) else Over);
      MovedKeepsInv(s, h, Over);
    }
  }

  lemma AuthorizeKeepsInv(s: State, h: nat, ok: bool)
    requires Inv(s) && Enabled(s, Authorize(h, ok))
    ensures Inv(Next(s, Authorize(h, ok)))
  {
    hide Inv;
    var t := s.tasks[h];
    var note := AuthorizedNote(t.chan);
    PlainNoteKeepsInv(s, note);
    var s' := Noted(s, note);
    assert note in s'.log;
    MovedKeepsInv(s', h, Authorized(t.chan, t.given));
    MovedKeepsInv(s, h, Over);
  }

  /** Every handler's step keeps the order of the log, the values it carries and the events it leaves. */
  lemma StepKeepsInv(s: State, a: Action)
    requires Inv(s) && Enabled(s, a)
    ensures Inv(Next(s, a))
  {
    hide Inv;
    match a {
      case StasisStart(h, chan, given) => MovedKeepsInv(s, h, Starting(chan, given));
      case StateChange(h, chan, up, stamp) => MovedKeepsInv(s, h, if up then Changing(chan, stamp) else Over);
      case Destroyed(h, chan, stamp) => MovedKeepsInv(s, h, Ending(chan, stamp));
      case Authorize(h, ok) => AuthorizeKeepsInv(s, h, ok);
      case Store(h) => StoreKeepsInv(s, h);
      case Look(h) => LookKeepsInv(s, h);
      case Update(h) => if s.tasks[h].Answering? { AnswerKeepsInv(s, h); } else { CloseKeepsInv(s, h); }
      case Call(h) => CallKeepsInv(s, h, false);
      case Bill(h, createCdr) => CallKeepsInv(s, h, createCdr);
    }
  }

  /** In a state that handlers can bring about, a step that waits for its event never waits in vain. */
  lemma EventIsThere(s: State, h: nat)
    requires Inv(s) && h in s.tasks
    ensures s.tasks[h].Answering? || s.tasks[h].Closing? ==> Enabled(s, Update(h))
    ensures s.tasks[h].Initiating? || s.tasks[h].Terminating? ==> Enabled(s, Call(h))
    ensures s.tasks[h].Billing? ==> forall createCdr :: Enabled(s, Bill(h, createCdr))
  {
    hide Inv, Replay;
    TaskFacts(s, h);
  }

  lemma {:induction false} RunKeepsInv(s: State, actions: seq<Action>)
    requires Inv(s) && Run(s, actions).Some?
    ensures Inv(Run(s, actions).value)
    decreases |actions|
  {
    hide Inv, Enabled, Next;
    if actions != [] {
      StepKeepsInv(s, actions[0]);
      RunKeepsInv(Next(s, actions[0]), actions[1..]);
    }
  }

  // ----- safety over whole runs

  /** A caching of the channel, with an authorization of the channel before it. */
  ghost predicate AuthorizedAndCached(log: seq<Note>, chan: string, event: nat) {
    exists j :: 0 <= j < |log| && log[j].CachedNote? && log[j].chan == chan && log[j].event == event
                && AuthorizedNote(chan) in log[..j]
  }

  /** The causes of a session call lead back to a caching and to an authorization. */
  lemma {:induction false} CausesLeadBack(log: seq<Note>, i: nat)
    requires Ordered(log) && i < |log|
    requires !log[i].AuthorizedNote? && !log[i].CachedNote?
    ensures AuthorizedAndCached(log[..i], log[i].chan, log[i].event)
    decreases i
  {
    hide Ordered, IsNew, HasAnswered, HasClosed, HasTerminated;
    var note := log[i];
    CausedAt(log, i);
    if note.AnsweredNote? || note.ClosedNote? {
      var given :| CachedNote(note.chan, note.event, given) in log[..i];
      var j :| 0 <= j < i && log[..i][j] == CachedNote(note.chan, note.event, given);
      assert log[j] == log[..i][j];
      CausedAt(log, j);
      assert log[..i][..j] == log[..j];
      assert AuthorizedNote(note.chan) in log[..i][..j];
    } else {
      var j := CauseOf(log, i);
      CausesLeadBack(log, j);
      assert log[..i][..j] == log[..j];
      EarlierStays(log[..i], j, note.chan, note.event);
    }
  }

  lemma EarlierStays(log: seq<Note>, j: nat, chan: string, event: nat)
    requires j <= |log| && AuthorizedAndCached(log[..j], chan, event)
    ensures AuthorizedAndCached(log, chan, event)
  {
    var k :| 0 <= k < j && log[..j][k].CachedNote? && log[..j][k].chan == chan && log[..j][k].event == event
             && AuthorizedNote(chan) in log[..j][..k];
    assert log[..j][..k] == log[..k];
    assert log[k] == log[..j][k];
  }

  lemma CausedAt(log: seq<Note>, i: nat)
    requires Ordered(log) && i < |log|
    ensures Caused(log[..i], log[i])
  {
    hide Caused;
  }

  /** The note that directly caused a session call; for the calls at a channel's end, by the same handler. */
  lemma CauseOf(log: seq<Note>, i: nat) returns (j: nat)
    requires Ordered(log) && i < |log| && IsSessionCall(log[i])
    ensures j < i && log[j].chan == log[i].chan
    ensures !log[j].AuthorizedNote? && !log[j].CachedNote? && log[j].event == log[i].event
    ensures log[i].TerminateCall? ==> log[j].ClosedNote? && log[j].h == log[i].h && log[j].usage.Some?
    ensures log[i].CdrCall? ==> log[j].TerminateCall? && log[j].h == log[i].h
  {
    hide Ordered, IsNew, HasCached;
    var note, before := log[i], log[..i];
    CausedAt(log, i);
    var cause: Note;
    match note {
      case InitiateCall(chan, event, _) =>
        var stamp :| AnsweredNote(chan, event, stamp) in before;
        cause := AnsweredNote(chan, event, stamp);
      case TerminateCall(h, chan, event, _) =>
        var stamp, usage :| ClosedNote(h, chan, event, stamp, Some(usage)) in before;
        cause := ClosedNote(h, chan, event, stamp, Some(usage));
      case CdrCall(h, chan, event, _) =>
        var sent :| TerminateCall(h, chan, event, sent) in before;
        cause := TerminateCall(h, chan, event, sent);
    }
    j :| 0 <= j < |before| && before[j] == cause;
    assert log[j] == before[j];
  }

  /**
   In every run, an initiate, terminate or CDR call for a channel comes after an
   authorization of that channel that ran to completion and after its event was cached.
   */
  lemma CallsAreAuthorized(actions: seq<Action>, i: nat)
    requires Run(START, actions).Some? && i < |Run(START, actions).value.log|
    requires IsSessionCall(Run(START, actions).value.log[i])
    ensures var log := Run(START, actions).value.log;
            AuthorizedAndCached(log[..i], log[i].chan, log[i].event)
  {
    hide Run;
    RunKeepsInv(START, actions);
    CausesLeadBack(Run(START, actions).value.log, i);
  }

  // ----- which actions the log is due to

  /** The actions that leave a note. */
  predicate IsNoting(a: Action) {
    match a
    case Authorize(_, ok) => ok
    case Store(_) => true
    case Update(_) => true
    case Call(_) => true
    case Bill(_, createCdr) => createCdr
    case _ => false
  }

  /** The positions of the noting actions, in order. */
  function Makers(actions: seq<Action>): seq<nat>
    decreases |actions|
  {
    if actions == [] then []
    else
      var n := |actions| - 1;
      Makers(actions[..n]) + if IsNoting(actions[n]) then [n] else []
  }

  /** Action `a` was taken, and after it action `b`. */
  ghost predicate InOrder(actions: seq<Action>, a: Action, b: Action) {
    exists j :: 0 <= j < |actions| && actions[j] == b && a in actions[..j]
  }

  lemma OrderStays(actions: seq<Action>, a: Action, b: Action, more: Action)
    ensures InOrder(actions, a, b) ==> InOrder(actions + [more], a, b)
    ensures b == more && a in actions ==> InOrder(actions + [more], a, b)
  {
    var all := actions + [more];
    if InOrder(actions, a, b) {
      var j :| 0 <= j < |actions| && actions[j] == b && a in actions[..j];
      assert all[j] == b && all[..j] == actions[..j];
    }
    if b == more && a in actions {
      assert all[|actions|] == b && all[..|actions|] == actions;
    }
  }

  /** The actions that brought a handler where it is. */
  ghost predicate TaskDueTo(actions: seq<Action>, h: nat, t: Task) {
    match t
    case Starting(chan, given) => StasisStart(h, chan, given) in actions
    case Authorized(chan, given) => InOrder(actions, StasisStart(h, chan, given), Authorize(h, true))
    case Changing(chan, stamp) => StateChange(h, chan, true, stamp) in actions
    case Answering(chan, stamp, _) => StateChange(h, chan, true, stamp) in actions
    case Initiating(chan, _) => exists stamp :: InOrder(actions, StateChange(h, chan, true, stamp), Update(h))
    case Ending(chan, stamp) => Destroyed(h, chan, stamp) in actions
    case Closing(chan, stamp, _) => Destroyed(h, chan, stamp) in actions
    case Terminating(chan, _) => exists stamp :: InOrder(actions, Destroyed(h, chan, stamp), Update(h))
    case Billing(chan, _) => exists stamp :: InOrder(actions, Destroyed(h, chan, stamp), Update(h))
    case Over => true
  }

  /** The action `a`, taken after `before`, leaves the note. */
  ghost predicate NoteDueTo(before: seq<Action>, a: Action, note: Note) {
    match note
    case AuthorizedNote(chan) =>
      a.Authorize? && a.ok && exists given :: StasisStart(a.h, chan, given) in before
    case CachedNote(chan, _, given) =>
      a.Store? && InOrder(before, StasisStart(a.h, chan, given), Authorize(a.h, true))
    case AnsweredNote(chan, _, stamp) => a.Update? && StateChange(a.h, chan, true, stamp) in before
    case ClosedNote(h, chan, _, stamp, _) => a == Update(h) && Destroyed(h, chan, stamp) in before
    case InitiateCall(chan, _, _) =>
      a.Call? && exists stamp :: InOrder(before, StateChange(a.h, chan, true, stamp), Update(a.h))
    case TerminateCall(h, chan, _, _) =>
      a == Call(h) && exists stamp :: InOrder(before, Destroyed(h, chan, stamp), Update(h))
    case CdrCall(h, chan, _, _) =>
      a == Bill(h, true) && exists stamp :: InOrder(before, Destroyed(h, chan, stamp), Update(h))
  }

  ghost predicate TasksDueTo(actions: seq<Action>, tasks: map<nat, Task>) {
    forall h :: h in tasks ==> TaskDueTo(actions, h, tasks[h])
  }

  /** Every note is due to the noting action with its number. */
  ghost predicate LogDueTo(actions: seq<Action>, log: seq<Note>) {
    && |log| == |Makers(actions)|
    && forall l :: 0 <= l < |log| ==>
         var m := Makers(actions)[l];
         m < |actions| && NoteDueTo(actions[..m], actions[m], log[l])
  }

  lemma TaskStaysDue(actions: seq<Action>, h: nat, t: Task, more: Action)
    requires TaskDueTo(actions, h, t)
    ensures TaskDueTo(actions + [more], h, t)
  {
    hide InOrder;
    match t {
      case Authorized(chan, given) => OrderStays(actions, StasisStart(h, chan, given), Authorize(h, true), more);
      case Initiating(chan, _) =>
        var stamp :| InOrder(actions, StateChange(h, chan, true, stamp), Update(h));
        OrderStays(actions, StateChange(h, chan, true, stamp), Update(h), more);
      case Terminating(chan, _) =>
        var stamp :| InOrder(actions, Destroyed(h, chan, stamp), Update(h));
        OrderStays(actions, Destroyed(h, chan, stamp), Update(h), more);
      case Billing(chan, _) =>
        var stamp :| InOrder(actions, Destroyed(h, chan, stamp), Update(h));
        OrderStays(actions, Destroyed(h, chan, stamp), Update(h), more);
      case _ =>
    }
  }

  /** A step moves one handler, on the strength of the actions taken so far. */
  lemma StepIsDue(s: State, actions: seq<Action>, a: Action)
    requires Enabled(s, a) && (a.h in s.tasks ==> TaskDueTo(actions, a.h, s.tasks[a.h]))
    ensures var s' := Next(s, a);
            && a.h in s'.tasks && s'.tasks == s.tasks[a.h := s'.tasks[a.h]]
            && TaskDueTo(actions + [a], a.h, s'.tasks[a.h])
            && (if IsNoting(a) then |s'.log| == |s.log| + 1 && s'.log[..|s.log|] == s.log
                                    && NoteDueTo(actions, a, s'.log[|s.log|])
                else s'.log == s.log)
  {
    hide InOrder, UsageOf;
    var all := actions + [a];
    assert a in all;
    match a {
      case StasisStart(h, chan, given) =>
      case StateChange(h, chan, up, stamp) =>
      case Destroyed(h, chan, stamp) =>
      case Authorize(h, ok) =>
        OrderStays(actions, StasisStart(h, s.tasks[h].chan, s.tasks[h].given), a, a);
      case Store(h) =>
      case Look(h) =>
      case Update(h) =>
        var t := s.tasks[h];
        OrderStays(actions, StateChange(h, t.chan, true, t.stamp), a, a);
        OrderStays(actions, Destroyed(h, t.chan, t.stamp), a, a);
      case Call(h) =>
        TaskStaysDue(actions, h, s.tasks[h], a);
      case Bill(h, createCdr) =>
    }
  }

  lemma MakersSnoc(actions: seq<Action>, a: Action)
    ensures Makers(actions + [a]) == Makers(actions) + if IsNoting(a) then [|actions|] else []
  {
    assert (actions + [a])[..|actions|] == actions;
  }

  lemma LogStaysDue(actions: seq<Action>, a: Action, log: seq<Note>, log': seq<Note>)
    requires LogDueTo(actions, log)
    requires if IsNoting(a) then |log'| == |log| + 1 && log'[..|log|] == log && NoteDueTo(actions, a, log'[|log|])
             else log' == log
    ensures LogDueTo(actions + [a], log')
  {
    hide NoteDueTo, Makers, IsNoting;
    var all := actions + [a];
    MakersSnoc(actions, a);
    assert all[..|actions|] == actions;
    forall l | 0 <= l < |log'| ensures var m := Makers(all)[l]; m < |all| && NoteDueTo(all[..m], all[m], log'[l]) {
      if l < |log| {
        assert log'[l] == log[l];
        var m := Makers(actions)[l];
        assert Makers(all)[l] == m && all[..m] == actions[..m] && all[m] == actions[m];
      } else {
        assert Makers(all)[l] == |actions|;
      }
    }
  }

  lemma TasksStayDue(actions: seq<Action>, a: Action, tasks: map<nat, Task>, tasks': map<nat, Task>)
    requires TasksDueTo(actions, tasks) && a.h in tasks' && tasks' == tasks[a.h := tasks'[a.h]]
    requires TaskDueTo(actions + [a], a.h, tasks'[a.h])
    ensures TasksDueTo(actions + [a], tasks')
  {
    hide TaskDueTo;
    forall h | h in tasks' ensures TaskDueTo(actions + [a], h, tasks'[h]) {
      if h != a.h {
        TaskStaysDue(actions, h, tasks[h], a);
      }
    }
  }

  lemma DueStays(s: State, actions: seq<Action>, a: Action)
    requires Enabled(s, a) && TasksDueTo(actions, s.tasks) && LogDueTo(actions, s.log)
    ensures TasksDueTo(actions + [a], Next(s, a).tasks) && LogDueTo(actions + [a], Next(s, a).log)
  {
    hide Enabled, Next, TaskDueTo, NoteDueTo, LogDueTo, IsNoting;
    StepIsDue(s, actions, a);
    var s' := Next(s, a);
    TasksStayDue(actions, a, s.tasks, s'.tasks);
    LogStaysDue(actions, a, s.log, s'.log);
  }

  /** In every run, the log holds one note for every noting action, and each is due to the actions it should be due to. */
  lemma {:induction false} Provenance(actions: seq<Action>)
    requires Run(START, actions).Some?
    ensures TasksDueTo(actions, Run(START, actions).value.tasks) && LogDueTo(actions, Run(START, actions).value.log)
    decreases |actions|
  {
    hide Enabled, Next, TasksDueTo, LogDueTo, Run;
    if actions == [] {
      NothingDue();
    } else {
      var n := |actions| - 1;
      var front, a := actions[..n], actions[n];
      assert actions == front + [a];
      RunSnoc(START, front, a);
      Provenance(front);
      DueStays(Run(START, front).value, front, a);
    }
  }

  lemma NothingDue()
    ensures Run(START, []) == Some(START) && TasksDueTo([], START.tasks) && LogDueTo([], START.log)
  {
  }

  lemma {:induction false} RunSnoc(s: State, actions: seq<Action>, a: Action)
    requires Run(s, actions + [a]).Some?
    ensures Run(s, actions).Some? && Enabled(Run(s, actions).value, a)
    ensures Run(s, actions + [a]) == Some(Next(Run(s, actions).value, a))
    decreases |actions|
  {
    hide Enabled, Next;
    if actions == [] {
      assert actions + [a] == [a] && [a][1..] == [];
    } else {
      assert (actions + [a])[1..] == actions[1..] + [a];
      RunSnoc(Next(s, actions[0]), actions[1..], a);
    }
  }

  lemma {:induction false} MakersIncrease(actions: seq<Action>, i: nat, j: nat)
    requires i < j < |Makers(actions)|
    ensures Makers(actions)[i] < Makers(actions)[j] < |actions|
    decreases |actions|
  {
    var front := actions[..|actions| - 1];
    if j < |Makers(front)| {
      MakersIncrease(front, i, j);
    } else {
      MakersInRange(front, i);
    }
  }

  lemma {:induction false} MakersInRange(actions: seq<Action>, i: nat)
    requires i < |Makers(actions)|
    ensures Makers(actions)[i] < |actions| && IsNoting(actions[Makers(actions)[i]])
    decreases |actions|
  {
    var front := actions[..|actions| - 1];
    if i < |Makers(front)| {
      MakersInRange(front, i);
      assert actions[Makers(front)[i]] == front[Makers(front)[i]];
    }
  }

  /** Before action number `k` a handler started on the channel, was authorized and stored its event, in this order. */
  ghost predicate AuthorizedBefore(actions: seq<Action>, k: nat, chan: string) {
    exists h, given, m :: 0 <= m < k <= |actions| && actions[m] == Store(h)
                          && InOrder(actions[..m], StasisStart(h, chan, given), Authorize(h, true))
  }

  /**
   In every run, a note of an initiate, terminate or CDR call for a channel is left by an
   action that comes after a handler's start on that channel, its successful authorization
   and the storing of its event, in this order.
   */
  lemma CallsFollowAuthorization(actions: seq<Action>, l: nat)
    requires Run(START, actions).Some? && l < |Run(START, actions).value.log|
    requires var note := Run(START, actions).value.log[l]; note.InitiateCall? || note.TerminateCall? || note.CdrCall?
    ensures l < |Makers(actions)| && Makers(actions)[l] < |actions|
    ensures AuthorizedBefore(actions, Makers(actions)[l], Run(START, actions).value.log[l].chan)
  {
    hide Run, InOrder;
    Provenance(actions);
    CallsAreAuthorized(actions, l);
    var log := Run(START, actions).value.log;
    var chan, event := log[l].chan, log[l].event;
    var before := log[..l];
    var j :| 0 <= j < |before| && before[j].CachedNote? && before[j].chan == chan && before[j].event == event
             && AuthorizedNote(chan) in before[..j];
    assert log[j] == before[j];
    MakersIncrease(actions, j, l);
    var m := Makers(actions)[j];
    assert NoteDueTo(actions[..m], actions[m], log[j]);
    assert actions[m] == Store(actions[m].h);
  }

  /** The event that the log leaves in the cache for a channel. */
  function LastCached(log: seq<Note>, chan: string): Option<nat>
    decreases |log|
  {
    if log == [] then Option.None
    else
      var last := log[|log| - 1];
      if last.CachedNote? && last.chan == chan then Some(last.event) else LastCached(log[..|log| - 1], chan)
  }

  ghost predicate CacheIs(log: seq<Note>, cache: map<string, nat>) {
    forall chan :: LastCached(log, chan) == if chan in cache then Some(cache[chan]) else Option.None
  }

  lemma CacheStep(s: State, a: Action)
    requires Enabled(s, a) && CacheIs(s.log, s.cache)
    ensures CacheIs(Next(s, a).log, Next(s, a).cache)
  {
    var s' := Next(s, a);
    if s'.log != s.log {
      assert s'.log[..|s'.log| - 1] == s.log;
    }
  }

  /** In every run, the cache holds for each channel the event that was cached for it last. */
  lemma {:induction false} CacheFollowsLog(actions: seq<Action>)
    requires Run(START, actions).Some?
    ensures CacheIs(Run(START, actions).value.log, Run(START, actions).value.cache)
    decreases |actions|
  {
    hide Enabled, Next, CacheIs, Run;
    if actions == [] {
      NothingDue();
      NothingCached();
    } else {
      var n := |actions| - 1;
      assert actions == actions[..n] + [actions[n]];
      RunSnoc(START, actions[..n], actions[n]);
      CacheFollowsLog(actions[..n]);
      CacheStep(Run(START, actions[..n]).value, actions[n]);
    }
  }

  lemma NothingCached()
    ensures CacheIs(START.log, START.cache)
  {
  }

  /** In every run, the cached events are what the log leaves of them, usage and answer time. */
  lemma EventsFollowLog(actions: seq<Action>, e: nat)
    requires Run(START, actions).Some? && e < |Run(START, actions).value.events|
    ensures var s := Run(START, actions).value; s.events[e] == Replay(s.log, e)
  {
    hide Run, Replay;
    RunKeepsInv(START, actions);
  }

  /**
   In every run, an event is closed with the usage 0s if no answer was recorded on it since
   it was cached or the answer time is zero, and otherwise with the time from the last
   recorded answer to the channel's end; and that usage stands on the event right after.
   */
  lemma UsageIsFromLastAnswer(actions: seq<Action>, i: nat)
    requires Run(START, actions).Some? && i < |Run(START, actions).value.log|
    requires Run(START, actions).value.log[i].ClosedNote?
    ensures var log := Run(START, actions).value.log;
            && log[i].usage == UsageOf(Replay(log[..i], log[i].event).answerTime, log[i].stamp)
            && (log[i].usage.Some? ==> Replay(log[..i + 1], log[i].event).usage == log[i].usage)
    ensures var log := Run(START, actions).value.log;
            match Replay(log[..i], log[i].event).answerTime
            case None => log[i].usage == Some(None0s)
            case Some(ZeroTime) => log[i].usage == Some(None0s)
            case Some(Unparsable) => log[i].usage == Option.None
            case Some(At(t)) =>
              (match log[i].stamp
               case At(e) => log[i].usage == Some(Lasted(e - t))
               case ZeroTime => log[i].usage == Some(Lasted(0 - t))
               case Unparsable => log[i].usage == Option.None)
  {
    hide Run, Replay, Ordered;
    LogOfRun(actions);
    var log := Run(START, actions).value.log;
    assert TrueTo(log[..i], log[i]);
    ReplayAfter(log[..i], log[i], log[i].event);
    assert log[..i] + [log[i]] == log[..i + 1];
  }

  predicate SetsAnswer(note: Note, event: nat) {
    (note.AnsweredNote? || note.CachedNote?) && note.event == event
  }

  /** A last answer is either a recorded one with no later one, or the time given when the event was cached. */
  lemma {:induction false} LastAnswerIsLast(log: seq<Note>, event: nat) returns (i: int)
    ensures Replay(log, event).answerTime.Some? ==> 0 <= i < |log|
    ensures 0 <= i ==>
              && i < |log| && SetsAnswer(log[i], event)
              && Replay(log, event).answerTime ==
                 if log[i].AnsweredNote? then Some(log[i].stamp) else log[i].given.answerTime
    ensures forall j :: 0 <= j < |log| && j > i ==> !SetsAnswer(log[j], event)
    decreases |log|
  {
    i := -1;
    if log != [] {
      if SetsAnswer(log[|log| - 1], event) {
        i := |log| - 1;
      } else {
        i := LastAnswerIsLast(log[..|log| - 1], event);
        assert forall j :: 0 <= j < |log| - 1 ==> log[..|log| - 1][j] == log[j];
      }
    }
  }

  // ----- what the calls at a channel's end carry

  /** A closing of the event that set its usage. */
  predicate Closes(note: Note, event: nat) {
    note.ClosedNote? && note.event == event && note.usage.Some?
  }

  /** The last closing of the event before `i`. */
  ghost predicate IsLastClosing(log: seq<Note>, event: nat, i: nat, k: nat) {
    && k < i <= |log| && Closes(log[k], event)
    && forall m :: k < m < i ==> !Closes(log[m], event)
  }

  /** Behind a closing, the usage on the event is that of the last closing. */
  lemma {:induction false} UsageIsLastClosing(log: seq<Note>, event: nat, j: nat, i: nat) returns (k: nat)
    requires Ordered(log) && j < i <= |log| && Closes(log[j], event)
    ensures j <= k && IsLastClosing(log, event, i, k)
    ensures Replay(log[..i], event).usage == log[k].usage
    decreases i
  {
    hide Replay, Ordered;
    var front := log[..i - 1];
    assert log[..i] == front + [log[i - 1]];
    ReplayAfter(front, log[i - 1], event);
    if Closes(log[i - 1], event) {
      k := i - 1;
    } else {
      k := UsageIsLastClosing(log, event, j, i - 1);
      NotCachedAgain(log, i - 1, j, event);
    }
  }

  lemma NotCachedAgain(log: seq<Note>, i: nat, j: nat, event: nat)
    requires Ordered(log) && j < i < |log| && Closes(log[j], event)
    ensures !(log[i].CachedNote? && log[i].event == event)
  {
    hide Replay;
    assert Caused(log[..i], log[i]);
    assert log[j] == log[..i][j];
    assert log[j] in log[..i];
  }

  /** The handler's own closing, behind a call it makes at a channel's end. */
  lemma OwnClosing(log: seq<Note>, i: nat) returns (own: nat)
    requires Ordered(log) && i < |log| && (log[i].TerminateCall? || log[i].CdrCall?)
    ensures own < i && Closes(log[own], log[i].event) && log[own].h == log[i].h && log[own].chan == log[i].chan
  {
    hide Ordered;
    own := CauseOf(log, i);
    if log[i].CdrCall? {
      own := CauseOf(log, own);
    }
  }

  /**
   In every run, a terminate or CDR call sends the usage of the last closing of its event.
   That is the usage which the calling handler itself computed if and only if no other
   closing with a different usage came last in between.
   */
  lemma CallsSendLastClosing(actions: seq<Action>, i: nat) returns (own: nat, last: nat)
    requires Run(START, actions).Some? && i < |Run(START, actions).value.log|
    requires var note := Run(START, actions).value.log[i]; note.TerminateCall? || note.CdrCall?
    ensures var log := Run(START, actions).value.log;
            && own <= last < i
            && Closes(log[own], log[i].event) && log[own].h == log[i].h
            && IsLastClosing(log, log[i].event, i, last)
            && log[i].sent.usage == log[last].usage
            && (log[i].sent.usage == log[own].usage <==>
                forall k :: own < k && IsLastClosing(log, log[i].event, i, k) ==> log[k].usage == log[own].usage)
  {
    hide Run, Ordered, AllTrue;
    LogOfRun(actions);
    own, last := SentUsage(Run(START, actions).value.log, i);
  }

  lemma LogOfRun(actions: seq<Action>)
    requires Run(START, actions).Some?
    ensures Ordered(Run(START, actions).value.log) && AllTrue(Run(START, actions).value.log)
  {
    hide Run;
    RunKeepsInv(START, actions);
  }

  lemma SentUsage(log: seq<Note>, i: nat) returns (own: nat, last: nat)
    requires Ordered(log) && AllTrue(log) && i < |log| && (log[i].TerminateCall? || log[i].CdrCall?)
    ensures own <= last < i
    ensures Closes(log[own], log[i].event) && log[own].h == log[i].h
    ensures IsLastClosing(log, log[i].event, i, last)
    ensures log[i].sent.usage == log[last].usage
    ensures log[i].sent.usage == log[own].usage <==>
            forall k :: own < k && IsLastClosing(log, log[i].event, i, k) ==> log[k].usage == log[own].usage
  {
    hide Ordered, Replay;
    own := OwnClosing(log, i);
    last := UsageIsLastClosing(log, log[i].event, own, i);
    assert TrueTo(log[..i], log[i]);
  }

  /** Two handlers close one event, and the first one's terminate call carries the second one's usage. */
  lemma OvertakenUsage(s: State, h: nat, h': nat, chan: string, e: nat, answer: int, end: int, end': int)
    requires h in s.tasks && s.tasks[h] == Closing(chan, At(end), e)
    requires h' in s.tasks && s.tasks[h'] == Closing(chan, At(end'), e) && h != h'
    requires e < |s.events| && s.events[e].answerTime == Some(At(answer))
    ensures var after := Run(s, [Update(h), Update(h'), Call(h)]);
            after.Some? && after.value.log ==
            s.log + [ClosedNote(h, chan, e, At(end), Some(Lasted(end - answer))),
                     ClosedNote(h', chan, e, At(end'), Some(Lasted(end' - answer))),
                     TerminateCall(h, chan, e, Event(Some(At(answer)), Some(Lasted(end' - answer))))]
  {
    hide Run, Next, Enabled;
    ClosingStep(s, h, chan, e, answer, end);
    var s1 := Next(s, Update(h));
    ClosingStep(s1, h', chan, e, answer, end');
    var s2 := Next(s1, Update(h'));
    TerminateStep(s2, h, chan, e);
    assert [Update(h), Update(h'), Call(h)] == [Update(h)] + [Update(h'), Call(h)];
    assert [Update(h'), Call(h)] == [Update(h')] + [Call(h)];
    assert [Call(h)] == [Call(h)] + [];
    RunStep(s, Update(h), [Update(h'), Call(h)]);
    RunStep(s1, Update(h'), [Call(h)]);
    RunStep(s2, Call(h), []);
  }

  /** A run that gets there: an answered channel, and two notices of its end. */
  lemma OvertakenRun(chan: string, answer: int, end: int, end': int) returns (actions: seq<Action>)
    ensures var after := Run(START, actions);
            && after.Some? && |after.value.log| == 6
            && after.value.log[3] == ClosedNote(2, chan, 0, At(end), Some(Lasted(end - answer)))
            && after.value.log[5].TerminateCall? && after.value.log[5].h == 2
            && after.value.log[5].sent.usage == Some(Lasted(end' - answer))
  {
    hide Run;
    var log := [AuthorizedNote(chan), CachedNote(chan, 0, UNTOUCHED), AnsweredNote(chan, 0, At(answer))];
    var last := [Update(2), Update(3), Call(2)];
    StartingRun(chan);
    assert log == log[..2] + [log[2]] && log[..2] == [log[0], log[1]];
    var s3 := State(map[chan := 0], [UNTOUCHED], map[0 := Over], log[..2]);
    AnsweringRun(s3, chan, answer);
    var s6 := State(s3.cache, [Event(Some(At(answer)), Option.None)], map[0 := Over, 1 := Initiating(chan, 0)], log);
    EndingRun(s6, chan, 2, end);
    var s8 := s6.(tasks := s6.tasks[2 := Closing(chan, At(end), 0)]);
    EndingRun(s8, chan, 3, end');
    var s10 := s8.(tasks := s8.tasks[3 := Closing(chan, At(end'), 0)]);
    OvertakenUsage(s10, 2, 3, chan, 0, answer, end, end');
    RunConcat(s8, [Destroyed(3, chan, At(end')), Look(3)], last);
    RunConcat(s6, [Destroyed(2, chan, At(end)), Look(2)], [Destroyed(3, chan, At(end')), Look(3)] + last);
    var rest := [Destroyed(2, chan, At(end)), Look(2)] + ([Destroyed(3, chan, At(end')), Look(3)] + last);
    RunConcat(s3, [StateChange(1, chan, true, At(answer)), Look(1), Update(1)], rest);
    actions := [StateChange(1, chan, true, At(answer)), Look(1), Update(1)] + rest;
    RunConcat(START, [StasisStart(0, chan, UNTOUCHED), Authorize(0, true), Store(0)], actions);
    actions := [StasisStart(0, chan, UNTOUCHED), Authorize(0, true), Store(0)] + actions;
  }

  lemma {:induction false} RunConcat(s: State, a: seq<Action>, b: seq<Action>)
    requires Run(s, a).Some?
    ensures Run(s, a + b) == Run(Run(s, a).value, b)
    decreases |a|
  {
    hide Enabled, Next;
    if a == [] {
      assert a + b == b;
    } else {
      assert (a + b)[1..] == a[1..] + b;
      RunConcat(Next(s, a[0]), a[1..], b);
    }
  }

  lemma RunThree(s: State, a: Action, b: Action, c: Action)
    requires Enabled(s, a) && Enabled(Next(s, a), b) && Enabled(Next(Next(s, a), b), c)
    ensures Run(s, [a, b, c]) == Some(Next(Next(Next(s, a), b), c))
    ensures Run(s, [a, b]) == Some(Next(Next(s, a), b))
  {
    hide Enabled, Next, Run;
    assert [a, b, c] == [a] + [b, c] && [b, c] == [b] + [c] && [c] == [c] + [];
    assert [a, b] == [a] + [b] && [b] == [b] + [];
    RunStep(s, a, [b, c]);
    RunStep(s, a, [b]);
    RunStep(Next(s, a), b, [c]);
    RunStep(Next(s, a), b, []);
    RunStep(Next(Next(s, a), b), c, []);
  }

  lemma StartingRun(chan: string)
    ensures Run(START, [StasisStart(0, chan, UNTOUCHED), Authorize(0, true), Store(0)]) ==
            Some(State(map[chan := 0], [UNTOUCHED], map[0 := Over], [AuthorizedNote(chan), CachedNote(chan, 0, UNTOUCHED)]))
  {
    hide Run;
    RunThree(START, StasisStart(0, chan, UNTOUCHED), Authorize(0, true), Store(0));
    var s := Next(Next(Next(START, StasisStart(0, chan, UNTOUCHED)), Authorize(0, true)), Store(0));
    assert s.cache == map[chan := 0] && s.events == [UNTOUCHED] && s.tasks == map[0 := Over];
    assert s.log == [AuthorizedNote(chan), CachedNote(chan, 0, UNTOUCHED)];
  }

  lemma AnsweringRun(s: State, chan: string, answer: int)
    requires s.tasks == map[0 := Over] && s.cache == map[chan := 0] && s.events == [UNTOUCHED]
    ensures Run(s, [StateChange(1, chan, true, At(answer)), Look(1), Update(1)]) ==
            Some(State(s.cache, [Event(Some(At(answer)), Option.None)], map[0 := Over, 1 := Initiating(chan, 0)],
                       s.log + [AnsweredNote(chan, 0, At(answer))]))
  {
    hide Run;
    RunThree(s, StateChange(1, chan, true, At(answer)), Look(1), Update(1));
    var s' := Next(Next(Next(s, StateChange(1, chan, true, At(answer))), Look(1)), Update(1));
    assert s'.events == [Event(Some(At(answer)), Option.None)] && s'.tasks == map[0 := Over, 1 := Initiating(chan, 0)];
  }

  lemma EndingRun(s: State, chan: string, h: nat, end: int)
    requires h !in s.tasks && s.cache == map[chan := 0] && |s.events| > 0 && s.events[0].answerTime.Some?
    ensures Run(s, [Destroyed(h, chan, At(end)), Look(h)]) == Some(s.(tasks := s.tasks[h := Closing(chan, At(end), 0)]))
  {
    hide Run;
    RunThree(s, Destroyed(h, chan, At(end)), Look(h), Update(h));
    assert Next(Next(s, Destroyed(h, chan, At(end))), Look(h)).tasks == s.tasks[h := Closing(chan, At(end), 0)];
  }

  lemma ClosingStep(s: State, h: nat, chan: string, e: nat, answer: int, end: int)
    requires h in s.tasks && s.tasks[h] == Closing(chan, At(end), e)
    requires e < |s.events| && s.events[e].answerTime == Some(At(answer))
    ensures Enabled(s, Update(h))
    ensures var usage := Some(Lasted(end - answer));
            Next(s, Update(h)) == State(s.cache, s.events[e := Event(Some(At(answer)), usage)],
                                        s.tasks[h := Terminating(chan, e)],
                                        s.log + [ClosedNote(h, chan, e, At(end), usage)])
  {
  }

  lemma TerminateStep(s: State, h: nat, chan: string, e: nat)
    requires h in s.tasks && s.tasks[h] == Terminating(chan, e) && e < |s.events|
    ensures Enabled(s, Call(h))
    ensures Next(s, Call(h)).log == s.log + [TerminateCall(h, chan, e, s.events[e])]
  {
  }

  lemma RunStep(s: State, a: Action, actions: seq<Action>)
    requires Enabled(s, a)
    ensures Run(s, [a] + actions) == Run(Next(s, a), actions)
    ensures Run(s, []) == Some(s) && Run(Next(s, a), []) == Some(Next(s, a))
  {
    hide Enabled, Next;
    assert ([a] + actions)[1..] == actions;
  }

  // ----- handlers that are through

  lemma {:induction false} OverForGood(s: State, h: nat, more: seq<Action>)
    requires h in s.tasks && s.tasks[h] == Over && Run(s, more).Some?
    ensures forall a :: a in more ==> a.h != h
    decreases |more|
  {
    hide Enabled, Next;
    if more != [] {
      OverStays(s, more[0], h);
      OverForGood(Next(s, more[0]), h, more[1..]);
    }
  }

  lemma OverStays(s: State, a: Action, h: nat)
    requires Enabled(s, a) && h in s.tasks && s.tasks[h] == Over
    ensures a.h != h && h in Next(s, a).tasks && Next(s, a).tasks[h] == Over
  {
  }

  /**
   A handler does nothing more once its channel was refused, its event is stored, its channel
   changed to a state other than up, or the decision about the CDR is made.
   */
  lemma ThroughForGood(s: State, a: Action, more: seq<Action>)
    requires Enabled(s, a) && Run(Next(s, a), more).Some?
    requires (a.Authorize? && !a.ok) || a.Store? || (a.StateChange? && !a.up) || a.Bill?
    ensures forall b :: b in more ==> b.h != a.h
  {
    hide Run;
    OverForGood(Next(s, a), a.h, more);
  }
}
