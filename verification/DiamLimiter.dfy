/**
 The Diameter request handlers as interleaved atomic steps: the limiter counts the
 handlers it admits, and every handler answers its request.
 */
module DiamLimiter {
  import opened Wrappers

  datatype Sent = BareError | ErrorAnswer | ReplyAnswer

  /** Where a handler stands; the steps between two phases touch shared state at most once. */
  datatype Phase =
    | Received
    | ErrorBuilt                                // the negative answer is at hand
    | Cached                                    // about to read whether there is a limit
    | AtLimiter                                 // about to take the lock
    | Processing(processed: bool)
    | Finished(processed: bool, failed: bool)   // the processor loop is over
    | Answered                                  // about to run the deferred decrement, if any
    | Done

  /** `stumbled`: the Session-Id was unreadable although an ASR template is set. */
  datatype Handler = Handler(phase: Phase, counted: bool, stumbled: bool, sent: seq<Sent>)

  datatype State = State(aReqs: int, limit: int, asrTemplate: bool, handlers: map<nat, Handler>)

  datatype Decoding = UnknownApp | UnknownCommand | ErrorTemplateFails | Decoded

  datatype Action =
    | Arrive(h: nat)
    | Reload(limit: int, asrTemplate: bool)
    | Decode(h: nat, outcome: Decoding)
    | CacheForAsr(h: nat, readable: bool)
    | ReadLimit(h: nat)
    | Enter(h: nat)
    | Process(h: nat, lclProcessed: bool, failed: bool, goOn: bool)
    | EndOfProcessors(h: nat)
    | Answer(h: nat, built: bool)
    | Leave(h: nat)

  predicate InPhase(s: State, h: nat, phase: Phase) {
    h in s.handlers && s.handlers[h].phase == phase
  }

  predicate IsProcessing(s: State, h: nat) {
    h in s.handlers && s.handlers[h].phase.Processing?
  }

  predicate Enabled(s: State, a: Action) {
    match a
    case Arrive(h) => h !in s.handlers
    case Reload(_, _) => true
    case Decode(h, _) => InPhase(s, h, Received)
    case CacheForAsr(h, _) => InPhase(s, h, ErrorBuilt)
    case ReadLimit(h) => InPhase(s, h, Cached)
    case Enter(h) => InPhase(s, h, AtLimiter)
    case Process(h, _, _, _) => IsProcessing(s, h)
    case EndOfProcessors(h) => IsProcessing(s, h)
    case Answer(h, _) => h in s.handlers && s.handlers[h].phase.Finished?
    case Leave(h) => InPhase(s, h, Answered)
  }

  function Moved(s: State, h: nat, x: Handler): State {
    s.(handlers := s.handlers[h := x])
  }

  /** One atomic step. */
  function Next(s: State, a: Action): State
    requires Enabled(s, a)
  {
    match a
    case Arrive(h) => Moved(s, h, Handler(Received, false, false, []))
    case Reload(limit, asrTemplate) => s.(limit := limit, asrTemplate := asrTemplate)
    case Decode(h, outcome) =>
      var x := s.handlers[h];
      if outcome == Decoded then Moved(s, h, x.(phase := ErrorBuilt))
      else Moved(s, h, x.(phase := Done, sent := x.sent + [BareError]))
    case CacheForAsr(h, readable) =>
      var x := s.handlers[h];
      if s.asrTemplate && !readable
      then Moved(s, h, x.(phase := Cached, stumbled := true, sent := x.sent + [ErrorAnswer]))
      else Moved(s, h, x.(phase := Cached))
    case ReadLimit(h) =>
      var x := s.handlers[h];
      Moved(s, h, x.(phase := if s.limit != -1 then AtLimiter else Processing(false)))
    case Enter(h) =>
      var x := s.handlers[h];
      if s.aReqs == s.limit then Moved(s, h, x.(phase := Done, sent := x.sent + [ErrorAnswer]))
      else Moved(s, h, x.(phase := Processing(false), counted := true)).(aReqs := s.aReqs + 1)
    case Process(h, lclProcessed, failed, goOn) =>
      var x := s.handlers[h];
      var processed := x.phase.processed || lclProcessed;
      if failed || (lclProcessed && !goOn) then Moved(s, h, x.(phase := Finished(processed, failed)))
      else Moved(s, h, x.(phase := Processing(processed)))
    case EndOfProcessors(h) =>
      var x := s.handlers[h];
      Moved(s, h, x.(phase := Finished(x.phase.processed, false)))
    case Answer(h, built) =>
      var x := s.handlers[h];
      var ok := !x.phase.failed && x.phase.processed && built;
      Moved(s, h, x.(phase := Answered, sent := x.sent + [if ok then ReplyAnswer else ErrorAnswer]))
    case Leave(h) =>
      var x := s.handlers[h];
      var gone := Moved(s, h, x.(phase := Done, counted := false));
      if x.counted then gone.(aReqs := s.aReqs - 1) else gone
  }

  /** The state after a run, if every step of it was enabled. */
  function Run(s: State, actions: seq<Action>): Option<State>
    decreases |actions|
  {
    if actions == [] then Some(s)
    else if !Enabled(s, actions[0]) then None
    else Run(Next(s, actions[0]), actions[1..])
  }

  function Start(limit: int, asrTemplate: bool): State {
    State(0, limit, asrTemplate, map[])
  }

  // ----- accounting

  ghost function Counted(handlers: map<nat, Handler>): set<nat> {
    set h | h in handlers && handlers[h].counted
  }

  lemma CountedAfter(handlers: map<nat, Handler>, h: nat, x: Handler)
    ensures var before, after := Counted(handlers), Counted(handlers[h := x]);
            && after == (if x.counted then before + {h} else before - {h})
            && (h in before <==> h in handlers && handlers[h].counted)
            && |after| == |before| + (if x.counted && h !in before then 1 else 0)
                          - (if !x.counted && h in before then 1 else 0)
  {
    var before, after := Counted(handlers), Counted(handlers[h := x]);
    assert after == if x.counted then before + {h} else before - {h};
  }

  /** Answers sent before the last one: one too early when the handler stumbled. */
  function Early(x: Handler): nat {
    if x.stumbled then 1 else 0
  }

  ghost predicate HandlerInv(x: Handler) {
    && (x.counted ==> x.phase.Processing? || x.phase.Finished? || x.phase.Answered?)
    && (x.phase.Received? || x.phase.ErrorBuilt? ==> !x.stumbled)
    && (x.phase.Answered? || x.phase.Done? ==> |x.sent| == Early(x) + 1)
    && (!(x.phase.Answered? || x.phase.Done?) ==> |x.sent| == Early(x))
  }

  ghost predicate Inv(s: State) {
    && s.aReqs == |Counted(s.handlers)|
    && forall h :: h in s.handlers ==> HandlerInv(s.handlers[h])
  }

  predicate IsCounted(s: State, h: nat) {
    h in s.handlers && s.handlers[h].counted
  }

  /** A handler's step changes that handler only, and the counter together with its counted mark. */
  lemma HandlerStep(s: State, a: Action)
    requires !a.Reload? && Enabled(s, a) && forall h :: h in s.handlers ==> HandlerInv(s.handlers[h])
    ensures var h, s' := a.h, Next(s, a);
            && h in s'.handlers && HandlerInv(s'.handlers[h])
            && s'.handlers == s.handlers[h := s'.handlers[h]]
            && s'.aReqs == s.aReqs + (if IsCounted(s', h) && !IsCounted(s, h) then 1 else 0)
                           - (if !IsCounted(s', h) && IsCounted(s, h) then 1 else 0)
  {
  }

  /** Every step keeps the count and the answers right. */
  lemma StepKeepsInv(s: State, a: Action)
    requires Inv(s) && Enabled(s, a)
    ensures Inv(Next(s, a))
  {
    if !a.Reload? {
      hide Next, Enabled, HandlerInv, Counted;
      HandlerStep(s, a);
      CountedAfter(s.handlers, a.h, Next(s, a).handlers[a.h]);
    }
  }

  /** What holds at the start and is kept by every step holds after every run. */
  lemma {:induction false} RunKeepsInv(s: State, actions: seq<Action>)
    requires Inv(s) && Run(s, actions).Some?
    ensures Inv(Run(s, actions).value)
    decreases |actions|
  {
    hide Inv, Enabled, Next;
    if actions != [] {
      StepKeepsInv(s, actions[0]);
      RunKeepsInv(Next(s, actions[0]), actions[1..]);
    }
  }

  /**
   After any run, whatever the interleaving and however the configuration was reloaded,
   the counter is the number of admitted handlers that have not left, and a handler that
   is done has sent one answer, or two exactly when its Session-Id was unreadable while
   an ASR template was set.
   */
  lemma Accounting(limit: int, asrTemplate: bool, actions: seq<Action>)
    requires Run(Start(limit, asrTemplate), actions).Some?
    ensures var s := Run(Start(limit, asrTemplate), actions).value;
            && s.aReqs == |Counted(s.handlers)|
            && forall h :: h in s.handlers && s.handlers[h].phase == Done ==>
                 && h !in Counted(s.handlers)
                 && |s.handlers[h].sent| == (if s.handlers[h].stumbled then 2 else 1)
  {
    assert Counted(map[]) == {};
    RunKeepsInv(Start(limit, asrTemplate), actions);
  }

  /** A run in which a handler answers twice: an ASR template is set and the Session-Id is unreadable. */
  lemma TwoAnswers(h: nat)
    ensures var actions := [Arrive(h), Decode(h, Decoded), CacheForAsr(h, false), ReadLimit(h), EndOfProcessors(h),
                            Answer(h, false), Leave(h)];
            var after := Run(Start(-1, true), actions);
            && after.Some? && h in after.value.handlers
            && after.value.handlers[h] == Handler(Done, false, true, [ErrorAnswer, ErrorAnswer])
  {
    hide Run, Next, Enabled;
    var actions := [Arrive(h), Decode(h, Decoded), CacheForAsr(h, false), ReadLimit(h), EndOfProcessors(h),
                    Answer(h, false), Leave(h)];
    var s := Start(-1, true);
    assert Enabled(s, Arrive(h)) && Next(s, Arrive(h)) == Alone(h, Handler(Received, false, false, [])) by { Arrives(h); }
    RunStep(s, actions);
    StumblingSteps(h);
    RunStep(Alone(h, Handler(Received, false, false, [])), actions[1..]);
    RunStep(Alone(h, Handler(ErrorBuilt, false, false, [])), actions[2..]);
    RunStep(Alone(h, Handler(Cached, false, true, [ErrorAnswer])), actions[3..]);
    RunStep(Alone(h, Handler(Processing(false), false, true, [ErrorAnswer])), actions[4..]);
    RunStep(Alone(h, Handler(Finished(false, false), false, true, [ErrorAnswer])), actions[5..]);
    RunStep(Alone(h, Handler(Answered, false, true, [ErrorAnswer, ErrorAnswer])), actions[6..]);
    RunEnds(Alone(h, Handler(Done, false, true, [ErrorAnswer, ErrorAnswer])), actions[7..]);
  }

  /** One handler, no limit, and an ASR template. */
  function Alone(h: nat, x: Handler): State {
    State(0, -1, true, map[h := x])
  }

  lemma Arrives(h: nat)
    ensures Enabled(Start(-1, true), Arrive(h))
    ensures Next(Start(-1, true), Arrive(h)) == Alone(h, Handler(Received, false, false, []))
  {
  }

  predicate StepsTo(h: nat, x: Handler, a: Action, x': Handler) {
    Enabled(Alone(h, x), a) && Next(Alone(h, x), a) == Alone(h, x')
  }

  lemma StumblingSteps(h: nat)
    ensures StepsTo(h, Handler(Received, false, false, []), Decode(h, Decoded), Handler(ErrorBuilt, false, false, []))
    ensures StepsTo(h, Handler(ErrorBuilt, false, false, []), CacheForAsr(h, false),
                    Handler(Cached, false, true, [ErrorAnswer]))
    ensures StepsTo(h, Handler(Cached, false, true, [ErrorAnswer]), ReadLimit(h),
                    Handler(Processing(false), false, true, [ErrorAnswer]))
    ensures StepsTo(h, Handler(Processing(false), false, true, [ErrorAnswer]), EndOfProcessors(h),
                    Handler(Finished(false, false), false, true, [ErrorAnswer]))
    ensures StepsTo(h, Handler(Finished(false, false), false, true, [ErrorAnswer]), Answer(h, false),
                    Handler(Answered, false, true, [ErrorAnswer, ErrorAnswer]))
    ensures StepsTo(h, Handler(Answered, false, true, [ErrorAnswer, ErrorAnswer]), Leave(h),
                    Handler(Done, false, true, [ErrorAnswer, ErrorAnswer]))
  {
    forall x: Handler, y: Handler ensures map[h := x][h := y] == map[h := y] {
    }
    assert [] + [ErrorAnswer] == [ErrorAnswer] && [ErrorAnswer] + [ErrorAnswer] == [ErrorAnswer, ErrorAnswer];
  }

  lemma RunStep(s: State, actions: seq<Action>)
    requires actions != [] && Enabled(s, actions[0])
    ensures Run(s, actions) == Run(Next(s, actions[0]), actions[1..])
  {
    hide Enabled, Next;
  }

  lemma RunEnds(s: State, actions: seq<Action>)
    requires actions == []
    ensures Run(s, actions) == Some(s)
  {
  }

  /** No handler stumbles without an ASR template or with readable Session-Ids. */
  lemma {:induction false} NobodyStumbles(s: State, actions: seq<Action>)
    requires Run(s, actions).Some?
    requires forall h :: h in s.handlers ==> !s.handlers[h].stumbled
    requires
      || (!s.asrTemplate && forall a :: a in actions && a.Reload? ==> !a.asrTemplate)
      || (forall a :: a in actions && a.CacheForAsr? ==> a.readable)
    ensures forall h :: h in Run(s, actions).value.handlers ==> !Run(s, actions).value.handlers[h].stumbled
    decreases |actions|
  {
    if actions != [] {
      assert actions[0] in actions;
      NobodyStumbles(Next(s, actions[0]), actions[1..]);
    }
  }

  // ----- the limit

  /** Within the limit, if there is one. */
  predicate WithinLimit(s: State) {
    s.limit >= 0 ==> s.aReqs <= s.limit
  }

  /** A reload does not put the limit below the requests already admitted. */
  predicate SafeReload(s: State, a: Action) {
    a.Reload? && a.limit >= 0 ==> s.aReqs <= a.limit
  }

  ghost predicate AllWithin(s: State, actions: seq<Action>)
    requires Run(s, actions).Some?
    decreases |actions|
  {
    WithinLimit(s) && (actions != [] ==> AllWithin(Next(s, actions[0]), actions[1..]))
  }

  ghost predicate AllReloadsSafe(s: State, actions: seq<Action>)
    requires Run(s, actions).Some?
    decreases |actions|
  {
    actions != [] ==> SafeReload(s, actions[0]) && AllReloadsSafe(Next(s, actions[0]), actions[1..])
  }

  /**
   The limit holds in every state of a run exactly when no reload puts it below the
   requests already admitted.
   */
  lemma {:induction false} LimitHolds(s: State, actions: seq<Action>)
    requires Inv(s) && WithinLimit(s) && Run(s, actions).Some?
    ensures AllWithin(s, actions) <==> AllReloadsSafe(s, actions)
    decreases |actions|
  {
    if actions != [] {
      var a := actions[0];
      StepKeepsInv(s, a);
      var s' := Next(s, a);
      assert WithinLimit(s') <==> SafeReload(s, a);
      if SafeReload(s, a) {
        LimitHolds(s', actions[1..]);
      }
    }
  }

  /** With a fixed limit the counter stays between zero and the limit. */
  lemma {:induction false} FixedLimit(s: State, actions: seq<Action>)
    requires Inv(s) && WithinLimit(s) && s.limit >= 0 && Run(s, actions).Some?
    requires forall a :: a in actions && a.Reload? ==> a.limit == s.limit
    ensures var e := Run(s, actions).value; e.limit == s.limit && 0 <= e.aReqs <= s.limit
    decreases |actions|
  {
    if actions != [] {
      assert actions[0] in actions;
      StepKeepsInv(s, actions[0]);
      FixedLimit(Next(s, actions[0]), actions[1..]);
    }
  }

  /** The steps that take handler `h` from its arrival into the limiter and past it. */
  function Admission(h: nat): seq<Action> {
    [Arrive(h), Decode(h, Decoded), CacheForAsr(h, true), ReadLimit(h), Enter(h)]
  }

  lemma OneMoreIsAdmitted(s: State, h: nat)
    requires s.limit >= 0 && s.aReqs > s.limit && h !in s.handlers
    ensures var r := Run(s, Admission(h));
            r.Some? && r.value == Moved(s, h, Handler(Processing(false), true, false, [])).(aReqs := s.aReqs + 1)
  {
    hide Run, Next, Enabled;
    var a, x := Admission(h), Handler(Received, false, false, []);
    AdmissionSteps(s, h, x);
    RunStep(s, a);
    RunStep(Moved(s, h, x), a[1..]);
    RunStep(Moved(s, h, x.(phase := ErrorBuilt)), a[2..]);
    RunStep(Moved(s, h, x.(phase := Cached)), a[3..]);
    RunStep(Moved(s, h, x.(phase := AtLimiter)), a[4..]);
    RunEnds(Next(Moved(s, h, x.(phase := AtLimiter)), Enter(h)), a[5..]);
  }

  /** The steps of a request that is admitted. */
  lemma AdmissionSteps(s: State, h: nat, x: Handler)
    requires s.limit >= 0 && s.aReqs > s.limit && h !in s.handlers && x == Handler(Received, false, false, [])
    ensures Enabled(s, Arrive(h)) && Next(s, Arrive(h)) == Moved(s, h, x)
    ensures var s1, s2 := Moved(s, h, x), Moved(s, h, x.(phase := ErrorBuilt));
            Enabled(s1, Decode(h, Decoded)) && Next(s1, Decode(h, Decoded)) == s2
    ensures var s2, s3 := Moved(s, h, x.(phase := ErrorBuilt)), Moved(s, h, x.(phase := Cached));
            Enabled(s2, CacheForAsr(h, true)) && Next(s2, CacheForAsr(h, true)) == s3
    ensures var s3, s4 := Moved(s, h, x.(phase := Cached)), Moved(s, h, x.(phase := AtLimiter));
            Enabled(s3, ReadLimit(h)) && Next(s3, ReadLimit(h)) == s4
    ensures var s4 := Moved(s, h, x.(phase := AtLimiter));
            && Enabled(s4, Enter(h))
            && Next(s4, Enter(h)) == Moved(s, h, Handler(Processing(false), true, false, [])).(aReqs := s.aReqs + 1)
  {
    MovedTwice(s, h, x, x.(phase := ErrorBuilt));
    MovedTwice(s, h, x.(phase := ErrorBuilt), x.(phase := Cached));
    MovedTwice(s, h, x.(phase := Cached), x.(phase := AtLimiter));
    MovedTwice(s, h, x.(phase := AtLimiter), Handler(Processing(false), true, false, []));
  }

  lemma MovedTwice(s: State, h: nat, x: Handler, y: Handler)
    ensures Moved(Moved(s, h, x), h, y) == Moved(s, h, y)
  {
    assert s.handlers[h := x][h := y] == s.handlers[h := y];
  }

  /**
   Once a reload has put the limit below the counter the equality test never fires:
   any number of further requests is admitted.
   */
  lemma {:induction false} LoweredLimitAdmitsAll(s: State, n: nat, h: nat) returns (actions: seq<Action>)
    requires s.limit >= 0 && s.aReqs > s.limit && forall k :: k >= h ==> k !in s.handlers
    ensures var r := Run(s, actions); r.Some? && r.value.limit == s.limit && r.value.aReqs == s.aReqs + n
    decreases n
  {
    if n == 0 {
      actions := [];
    } else {
      OneMoreIsAdmitted(s, h);
      var s' := Run(s, Admission(h)).value;
      var rest := LoweredLimitAdmitsAll(s', n - 1, h + 1);
      RunConcat(s, Admission(h), rest);
      actions := Admission(h) + rest;
    }
  }

  lemma {:induction false} RunConcat(s: State, a: seq<Action>, b: seq<Action>)
    requires Run(s, a).Some?
    ensures Run(s, a + b) == Run(Run(s, a).value, b)
    decreases |a|
  {
    hide Next, Enabled;
    if a == [] {
      assert a + b == b;
    } else {
      assert (a + b)[1..] == a[1..] + b;
      RunConcat(Next(s, a[0]), a[1..], b);
    }
  }

  // ----- which answer is sent

  /** Some request processor dealt with the request of `h`. */
  ghost predicate SomeProcessed(actions: seq<Action>, h: nat) {
    exists failed, goOn :: Process(h, true, failed, goOn) in actions
  }

  ghost predicate SomeFailed(actions: seq<Action>, h: nat) {
    exists lclProcessed, goOn :: Process(h, lclProcessed, true, goOn) in actions
  }

  ghost predicate SomeAnswer(actions: seq<Action>, h: nat) {
    exists built :: Answer(h, built) in actions
  }

  /** The request could not be decoded. */
  ghost predicate SomeUndecoded(actions: seq<Action>, h: nat) {
    exists outcome :: outcome != Decoded && Decode(h, outcome) in actions
  }

  /** A reply could be built from what the processors left. */
  ghost predicate Succeeded(actions: seq<Action>, h: nat) {
    SomeProcessed(actions, h) && !SomeFailed(actions, h) && Answer(h, true) in actions
  }

  /** What the actions so far have made of a handler. */
  ghost predicate HandlerDueTo(actions: seq<Action>, h: nat, x: Handler) {
    var early := if x.stumbled then [ErrorAnswer] else [];
    match x.phase
    case Processing(processed) =>
      && x.sent == early && !SomeAnswer(actions, h) && !SomeUndecoded(actions, h)
      && (processed <==> SomeProcessed(actions, h)) && !SomeFailed(actions, h)
    case Finished(processed, failed) =>
      && x.sent == early && !SomeAnswer(actions, h) && !SomeUndecoded(actions, h)
      && (processed <==> SomeProcessed(actions, h)) && (failed <==> SomeFailed(actions, h))
    case Answered =>
      && x.sent == early + [if Succeeded(actions, h) then ReplyAnswer else ErrorAnswer]
      && !SomeUndecoded(actions, h) && SomeAnswer(actions, h)
    case Done =>
      if SomeUndecoded(actions, h) then x.sent == [BareError] && !SomeAnswer(actions, h)
      else if SomeAnswer(actions, h)
      then x.sent == early + [if Succeeded(actions, h) then ReplyAnswer else ErrorAnswer]
      else x.sent == early + [ErrorAnswer] && Enter(h) in actions
    case _ =>
      && x.sent == early && !SomeAnswer(actions, h) && !SomeUndecoded(actions, h)
      && !SomeProcessed(actions, h) && !SomeFailed(actions, h)
  }

  ghost predicate Untouched(actions: seq<Action>, h: nat) {
    !SomeAnswer(actions, h) && !SomeUndecoded(actions, h) && !SomeProcessed(actions, h) && !SomeFailed(actions, h)
  }

  ghost predicate AllDueTo(actions: seq<Action>, handlers: map<nat, Handler>) {
    forall h :: if h in handlers then HandlerDueTo(actions, h, handlers[h]) else Untouched(actions, h)
  }

  /** One more action. */
  lemma OneMore(actions: seq<Action>, a: Action, h: nat)
    ensures SomeProcessed(actions + [a], h) <==>
            SomeProcessed(actions, h) || (a.Process? && a.h == h && a.lclProcessed)
    ensures SomeFailed(actions + [a], h) <==> SomeFailed(actions, h) || (a.Process? && a.h == h && a.failed)
    ensures SomeAnswer(actions + [a], h) <==> SomeAnswer(actions, h) || (a.Answer? && a.h == h)
    ensures SomeUndecoded(actions + [a], h) <==>
            SomeUndecoded(actions, h) || (a.Decode? && a.h == h && a.outcome != Decoded)
    ensures Answer(h, true) in actions ==> SomeAnswer(actions, h)
  {
    var all := actions + [a];
    assert a in all && forall b :: b in actions ==> b in all;
    assert forall b :: b in all ==> b == a || b in actions;
    if a.Process? && a.h == h {
      assert a == Process(h, a.lclProcessed, a.failed, a.goOn);
    }
    if a.Answer? && a.h == h {
      assert a == Answer(h, a.built);
    }
    if a.Decode? && a.h == h {
      assert a == Decode(h, a.outcome);
    }
  }

  lemma HandlerStaysDue(actions: seq<Action>, a: Action, h: nat, x: Handler)
    requires HandlerDueTo(actions, h, x) && (a.Reload? || a.h != h)
    ensures HandlerDueTo(actions + [a], h, x)
  {
    hide SomeProcessed, SomeFailed, SomeAnswer, SomeUndecoded;
    OneMore(actions, a, h);
  }

  /** The steps of a handler up to the limiter. */
  lemma EarlyStepIsDue(s: State, actions: seq<Action>, a: Action)
    requires (a.Arrive? || a.Decode? || a.CacheForAsr? || a.ReadLimit? || a.Enter?) && Enabled(s, a)
    requires a.h in s.handlers ==> HandlerInv(s.handlers[a.h])
    requires if a.h in s.handlers then HandlerDueTo(actions, a.h, s.handlers[a.h]) else Untouched(actions, a.h)
    ensures var s' := Next(s, a); a.h in s'.handlers && HandlerDueTo(actions + [a], a.h, s'.handlers[a.h])
  {
    hide SomeProcessed, SomeFailed, SomeAnswer, SomeUndecoded;
    OneMore(actions, a, a.h);
    assert a in actions + [a];
  }

  /** Its steps from there on. */
  lemma LateStepIsDue(s: State, actions: seq<Action>, a: Action)
    requires (a.Process? || a.EndOfProcessors? || a.Answer? || a.Leave?) && Enabled(s, a)
    requires if a.h in s.handlers then HandlerDueTo(actions, a.h, s.handlers[a.h]) else Untouched(actions, a.h)
    ensures var s' := Next(s, a); a.h in s'.handlers && HandlerDueTo(actions + [a], a.h, s'.handlers[a.h])
  {
    hide SomeProcessed, SomeFailed, SomeAnswer, SomeUndecoded;
    OneMore(actions, a, a.h);
    assert a in actions + [a];
  }

  lemma DueStays(s: State, actions: seq<Action>, a: Action)
    requires Enabled(s, a) && Inv(s) && AllDueTo(actions, s.handlers)
    ensures AllDueTo(actions + [a], Next(s, a).handlers)
  {
    hide HandlerDueTo, Untouched, Enabled, Next, HandlerInv, Counted;
    var s' := Next(s, a);
    if a.Arrive? || a.Decode? || a.CacheForAsr? || a.ReadLimit? || a.Enter? {
      EarlyStepIsDue(s, actions, a);
    } else if !a.Reload? {
      LateStepIsDue(s, actions, a);
    }
    forall h | a.Reload? || h != a.h
      ensures if h in s'.handlers then HandlerDueTo(actions + [a], h, s'.handlers[h]) else Untouched(actions + [a], h)
    {
      SameHandler(s, a, h);
      if h in s.handlers {
        HandlerStaysDue(actions, a, h, s.handlers[h]);
      } else {
        StaysUntouched(actions, a, h);
      }
    }
  }

  lemma SameHandler(s: State, a: Action, h: nat)
    requires Enabled(s, a) && (a.Reload? || h != a.h)
    ensures h in Next(s, a).handlers <==> h in s.handlers
    ensures h in s.handlers ==> Next(s, a).handlers[h] == s.handlers[h]
  {
  }

  lemma StaysUntouched(actions: seq<Action>, a: Action, h: nat)
    requires Untouched(actions, h) && (a.Reload? || a.h != h)
    ensures Untouched(actions + [a], h)
  {
    hide SomeProcessed, SomeFailed, SomeAnswer, SomeUndecoded;
    OneMore(actions, a, h);
  }

  lemma {:induction false} RunSnoc(s: State, actions: seq<Action>, a: Action)
    requires Run(s, actions + [a]).Some?
    ensures Run(s, actions).Some? && Enabled(Run(s, actions).value, a)
    ensures Run(s, actions + [a]) == Some(Next(Run(s, actions).value, a))
    decreases |actions|
  {
    hide Enabled, Next;
    if actions == [] {
      assert actions + [a] == [a] && [a][1..] == [];
    } else {
      assert (actions + [a])[1..] == actions[1..] + [a];
      RunSnoc(Next(s, actions[0]), actions[1..], a);
    }
  }

  lemma {:induction false} RunIsDue(limit: int, asrTemplate: bool, actions: seq<Action>)
    requires Run(Start(limit, asrTemplate), actions).Some?
    ensures AllDueTo(actions, Run(Start(limit, asrTemplate), actions).value.handlers)
    ensures Inv(Run(Start(limit, asrTemplate), actions).value)
    decreases |actions|
  {
    hide Enabled, Next, AllDueTo, Run, Inv;
    StartIsDue(limit, asrTemplate);
    if actions == [] {
      RunEnds(Start(limit, asrTemplate), actions);
    } else {
      var n := |actions| - 1;
      assert actions == actions[..n] + [actions[n]];
      RunSnoc(Start(limit, asrTemplate), actions[..n], actions[n]);
      RunIsDue(limit, asrTemplate, actions[..n]);
      var s := Run(Start(limit, asrTemplate), actions[..n]).value;
      DueStays(s, actions[..n], actions[n]);
      StepKeepsInv(s, actions[n]);
    }
  }

  lemma StartIsDue(limit: int, asrTemplate: bool)
    ensures AllDueTo([], Start(limit, asrTemplate).handlers) && Inv(Start(limit, asrTemplate))
  {
    assert Counted(map[]) == {};
  }

  /**
   The last answer that a handler which is done has sent: the reply if and only if some
   processor dealt with the request, none failed and the reply could be built; a bare error
   if and only if the request could not be decoded; and the error answer otherwise.
   */
  lemma LastAnswer(limit: int, asrTemplate: bool, actions: seq<Action>, h: nat)
    requires Run(Start(limit, asrTemplate), actions).Some?
    requires var s := Run(Start(limit, asrTemplate), actions).value; h in s.handlers && s.handlers[h].phase == Done
    ensures var sent := Run(Start(limit, asrTemplate), actions).value.handlers[h].sent;
            && sent != []
            && (sent[|sent| - 1] == ReplyAnswer <==>
                && (exists failed, goOn :: Process(h, true, failed, goOn) in actions)
                && (forall lclProcessed, goOn :: Process(h, lclProcessed, true, goOn) !in actions)
                && Answer(h, true) in actions)
            && (sent[|sent| - 1] == BareError <==> exists outcome :: outcome != Decoded && Decode(h, outcome) in actions)
  {
    hide Run;
    RunIsDue(limit, asrTemplate, actions);
    var s := Run(Start(limit, asrTemplate), actions).value;
    assert HandlerDueTo(actions, h, s.handlers[h]);
    OneMore(actions, Reload(0, false), h);
  }

  /** The limiter refuses a request exactly when as many are admitted as the limit says, and counts it otherwise. */
  lemma RefusedAtLimit(s: State, h: nat)
    requires Inv(s) && Enabled(s, Enter(h))
    ensures var s' := Next(s, Enter(h));
            if |Counted(s.handlers)| == s.limit
            then s'.handlers[h].phase == Done && h !in Counted(s'.handlers) && |Counted(s'.handlers)| == s.limit
            else s'.handlers[h].phase == Processing(false) && Counted(s'.handlers) == Counted(s.handlers) + {h}
  {
    StepKeepsInv(s, Enter(h));
    CountedAfter(s.handlers, h, Next(s, Enter(h)).handlers[h]);
    hide Counted;
    assert HandlerInv(s.handlers[h]);
  }

  /** Without a limit nothing is counted and nothing waits at the limiter. */
  lemma {:induction false} Unlimited(s: State, actions: seq<Action>)
    requires Run(s, actions).Some? && s.limit == -1 && s.aReqs == 0
    requires forall h :: h in s.handlers ==> !s.handlers[h].counted && s.handlers[h].phase != AtLimiter
    requires forall a :: a in actions && a.Reload? ==> a.limit == -1
    ensures var s' := Run(s, actions).value;
            s'.aReqs == 0 && forall h :: h in s'.handlers ==> !s'.handlers[h].counted && s'.handlers[h].phase != AtLimiter
    decreases |actions|
  {
    if actions != [] {
      assert actions[0] in actions;
      Unlimited(Next(s, actions[0]), actions[1..]);
    }
  }

  // ----- the processor loop

  predicate IsPast(s: State, h: nat) {
    h in s.handlers && (s.handlers[h].phase.Finished? || s.handlers[h].phase.Answered? || s.handlers[h].phase.Done?)
  }

  lemma StaysPast(s: State, a: Action, h: nat)
    requires Enabled(s, a) && IsPast(s, h)
    ensures IsPast(Next(s, a), h) && !(a.Process? && a.h == h)
  {
  }

  lemma {:induction false} PastForGood(s: State, h: nat, more: seq<Action>)
    requires IsPast(s, h) && Run(s, more).Some?
    ensures forall a :: a in more ==> !(a.Process? && a.h == h)
    decreases |more|
  {
    hide Enabled, Next, IsPast;
    if more != [] {
      StaysPast(s, more[0], h);
      PastForGood(Next(s, more[0]), h, more[1..]);
    }
  }

  /**
   A processor that fails, or that deals with the request without asking for the next one, is
   the last to be run for it; behind any other the next one can be run.
   */
  lemma LastProcessor(s: State, h: nat, lclProcessed: bool, failed: bool, goOn: bool, more: seq<Action>)
    requires Enabled(s, Process(h, lclProcessed, failed, goOn))
    requires Run(Next(s, Process(h, lclProcessed, failed, goOn)), more).Some?
    ensures failed || (lclProcessed && !goOn) ==> forall a :: a in more ==> !(a.Process? && a.h == h)
    ensures !failed && (!lclProcessed || goOn) ==>
              forall p, f, g :: Enabled(Next(s, Process(h, lclProcessed, failed, goOn)), Process(h, p, f, g))
  {
    hide Run;
    if failed || (lclProcessed && !goOn) {
      PastForGood(Next(s, Process(h, lclProcessed, failed, goOn)), h, more);
    }
  }

  /** Past the limiter and not yet gone. */
  predicate IsActive(x: Handler) {
    x.phase.Processing? || x.phase.Finished? || x.phase.Answered?
  }

  /** As long as there is a limit, every handler that is past the limiter is counted, and no other. */
  lemma {:induction false} ActiveAreCounted(s: State, actions: seq<Action>)
    requires Run(s, actions).Some? && s.limit != -1
    requires forall h :: h in s.handlers ==> (s.handlers[h].counted <==> IsActive(s.handlers[h]))
    requires forall a :: a in actions && a.Reload? ==> a.limit != -1
    ensures var s' := Run(s, actions).value;
            forall h :: h in s'.handlers ==> (s'.handlers[h].counted <==> IsActive(s'.handlers[h]))
    decreases |actions|
  {
    if actions != [] {
      assert actions[0] in actions;
      ActiveAreCounted(Next(s, actions[0]), actions[1..]);
    }
  }
}
