/**
  The login controller of `pk11_login`: read the token information; log in
  only when the token asks for it, either through the protected
  authentication path or by prompting for a PIN until the token stops
  answering CKR_PIN_INCORRECT. The result is 0 on success and -1 otherwise.
 */
module TokenLogin {
  import opened Pkcs11
  import opened FixedText
  import opened Token

  datatype LoginRun = LoginRun(rc: int, trace: seq<Event>)

  /** The PIN-callback flags for a token whose latest flags are `tokenFlags`. */
  function PinFlags(tokenFlags: bv64): (f: bv32)
    ensures (f & NE_SSL_P11PIN_COUNT_LOW != 0) <==> (tokenFlags & CKF_USER_PIN_COUNT_LOW != 0)
    ensures (f & NE_SSL_P11PIN_FINAL_TRY != 0) <==> (tokenFlags & CKF_USER_PIN_FINAL_TRY != 0)
    ensures f & !(NE_SSL_P11PIN_COUNT_LOW | NE_SSL_P11PIN_FINAL_TRY) == 0
  {
    (if tokenFlags & CKF_USER_PIN_COUNT_LOW != 0 then NE_SSL_P11PIN_COUNT_LOW else 0)
    | (if tokenFlags & CKF_USER_PIN_FINAL_TRY != 0 then NE_SSL_P11PIN_FINAL_TRY else 0)
  }

  predicate IsPrompt(e: Event) { e.Prompt? }

  predicate IsLoginCall(e: Event) { e.LoginCall? }

  function Prompts(trace: seq<Event>): (r: seq<Event>)
    ensures forall i :: 0 <= i < |r| ==> r[i].Prompt?
  {
    Filter(trace, IsPrompt)
  }

  function LoginCalls(trace: seq<Event>): (r: seq<Event>)
    ensures forall i :: 0 <= i < |r| ==> r[i].LoginCall?
  {
    Filter(trace, IsLoginCall)
  }

  function Last(trace: seq<Event>): Event
    requires |trace| >= 1
  {
    trace[|trace| - 1]
  }

  /** The calls a login makes on slot `id`. */
  predicate LoginEventOf(id: nat, e: Event) {
    || (e.GetTokenInfo? && e.slot == id)
    || (e.LoginCall? && e.slot == id)
    || e.Prompt?
  }

  /** How a round of the PIN loop ends: with another round, or with a result. */
  datatype RoundEnd = Retry | Finished(rc: int)

  datatype Round = Round(end: RoundEnd, trace: seq<Event>)

  /**
    Round `attempt` of the PIN loop. Every round but the first re-reads the
    token information; the round works from answer number `attempt - 1`,
    which for round 1 is the answer `Login` read. The round's login call
    gets login answer number `attempt - 1`.
   */
  function PinRound(slot: Slot, description: seq<byte>, pin: PinCallback, attempt: nat): (r: Round)
    requires attempt >= 1
    ensures r.end.Retry? ==> LoginAnswer(slot, attempt - 1) == CKR_PIN_INCORRECT
    ensures r.end.Finished? ==> r.end.rc == 0 || r.end.rc == -1
    ensures r.end == Finished(0) ==> LoginAnswer(slot, attempt - 1) == CKR_OK
  {
    var info := TokenInfoAnswer(slot, attempt - 1);
    var refetch := if attempt > 1 then [GetTokenInfo(slot.id, info.Some?)] else [];
    if info.None? then Round(Finished(-1), refetch)
    else
      var tokenLabel := Visible(info.value.tokenLabel);
      var flags := PinFlags(info.value.flags);
      var prompt := Prompt(attempt, description, tokenLabel, flags);
      match pin(attempt, description, tokenLabel, flags)
      case Abort => Round(Finished(-1), refetch + [prompt])
      case Entered(p) =>
        var rv := LoginAnswer(slot, attempt - 1);
        var round := refetch + [prompt, LoginCall(slot.id, Some(CStr(p)), rv)];
        if rv == CKR_PIN_INCORRECT then Round(Retry, round)
        else Round(Finished(if rv == CKR_OK then 0 else -1), round)
  }

  /** The PIN loop from round `attempt` on. */
  function PinLoop(slot: Slot, description: seq<byte>, pin: PinCallback, attempt: nat): (run: LoginRun)
    requires attempt >= 1
    ensures run.rc == 0 || run.rc == -1
    decreases |slot.logins| - attempt + 1
  {
    var round := PinRound(slot, description, pin, attempt);
    match round.end
    case Retry =>
      var rest := PinLoop(slot, description, pin, attempt + 1);
      LoginRun(rest.rc, round.trace + rest.trace)
    case Finished(rc) => LoginRun(rc, round.trace)
  }

  /** `pk11_login` on a freshly opened session on `slot`. */
  function Login(slot: Slot, description: Description, pin: Option<PinCallback>): (run: LoginRun)
    ensures run.rc == 0 || run.rc == -1
    ensures |run.trace| >= 1 && run.trace[0] == GetTokenInfo(slot.id, TokenInfoAnswer(slot, 0).Some?)
  {
    var info := TokenInfoAnswer(slot, 0);
    var query := [GetTokenInfo(slot.id, info.Some?)];
    if info.None? then LoginRun(-1, query)
    else if info.value.flags & CKF_LOGIN_REQUIRED == 0 then LoginRun(0, query)
    else if info.value.flags & CKF_PROTECTED_AUTHENTICATION_PATH != 0 then
      var rv := LoginAnswer(slot, 0);
      LoginRun(if rv == CKR_OK then 0 else -1, query + [LoginCall(slot.id, None, rv)])
    else if pin.None? then LoginRun(-1, query)
    else
      var loop := PinLoop(slot, Visible(description), pin.value, 1);
      LoginRun(loop.rc, query + loop.trace)
  }

  // Facts about the traces of the PIN loop.

  /** Prompt `e` shows the description and the token's answer number `attempt - 1`. */
  predicate FromLatestSnapshot(slot: Slot, description: seq<byte>, e: Event)
    requires e.Prompt?
  {
    && e.attempt >= 1
    && var info := TokenInfoAnswer(slot, e.attempt - 1);
    && info.Some?
    && e.description == description
    && e.tokenLabel == Visible(info.value.tokenLabel)
    && e.flags == PinFlags(info.value.flags)
  }

  /** Login call `e` passes the PIN the callback entered for prompt `p`. */
  predicate PassesEnteredPin(pin: PinCallback, p: Event, e: Event)
    requires p.Prompt? && e.LoginCall?
  {
    var answer := pin(p.attempt, p.description, p.tokenLabel, p.flags);
    answer.Entered? && e.pin == Some(CStr(answer.pin))
  }

  /** The facts about position `i` of a PIN-loop trace. */
  predicate PinLoopStep(slot: Slot, description: seq<byte>, pin: PinCallback, trace: seq<Event>, i: int)
    requires 0 <= i < |trace|
  {
    && LoginEventOf(slot.id, trace[i])
    && (trace[i].Prompt? ==>
          && FromLatestSnapshot(slot, description, trace[i])
          && (trace[i].attempt > 1 ==> i >= 1 && trace[i - 1] == GetTokenInfo(slot.id, true)))
    && (trace[i].LoginCall? ==> i >= 1 && trace[i - 1].Prompt? && PassesEnteredPin(pin, trace[i - 1], trace[i]))
    && (trace[i].GetTokenInfo? && !trace[i].ok ==> i == |trace| - 1)
    && (trace[i].GetTokenInfo? && i >= 1 ==> trace[i - 1].LoginCall? && trace[i - 1].rv == CKR_PIN_INCORRECT)
    && (trace[i].Prompt? ==>
          (pin(trace[i].attempt, trace[i].description, trace[i].tokenLabel, trace[i].flags).Abort? ==> i == |trace| - 1))
  }

  /**
    Login calls `calls`, made on `slot`, received the login answers numbered
    `first`, `first + 1`, ... and all but the last were CKR_PIN_INCORRECT.
   */
  predicate ConsumesLoginAnswers(slot: Slot, first: nat, calls: seq<Event>)
    requires forall i :: 0 <= i < |calls| ==> calls[i].LoginCall?
  {
    && (forall i :: 0 <= i < |calls| ==> calls[i].slot == slot.id && calls[i].rv == LoginAnswer(slot, first + i))
    && (forall i :: 0 <= i < |calls| - 1 ==> calls[i].rv == CKR_PIN_INCORRECT)
  }

  /** A trace that ends on a login call ends on an answer other than CKR_PIN_INCORRECT. */
  predicate StopsOnlyWhenNotIncorrect(trace: seq<Event>) {
    |trace| >= 1 && Last(trace).LoginCall? ==> Last(trace).rv != CKR_PIN_INCORRECT
  }

  /** The result is 0 exactly when the trace ends on a login call answered CKR_OK. */
  predicate SucceedsOnOkLogin(rc: int, trace: seq<Event>) {
    && (rc == 0 || rc == -1)
    && (rc == 0 <==> |trace| >= 1 && Last(trace).LoginCall? && Last(trace).rv == CKR_OK)
  }

  /**
    The trace ends where `pk11_login` returns: on a failed re-read of the
    token information, on a prompt the callback aborts, or on a login call
    answered with anything but CKR_PIN_INCORRECT.
   */
  predicate EndsOnStop(pin: PinCallback, trace: seq<Event>) {
    && |trace| >= 1
    && var e := Last(trace);
       || (e.GetTokenInfo? && !e.ok)
       || (e.Prompt? && pin(e.attempt, e.description, e.tokenLabel, e.flags).Abort?)
       || (e.LoginCall? && e.rv != CKR_PIN_INCORRECT)
  }

  lemma RefetchProjections(refetch: seq<Event>)
    requires forall i :: 0 <= i < |refetch| ==> refetch[i].GetTokenInfo?
    ensures Prompts(refetch) == [] && LoginCalls(refetch) == []
  {
    FilterNone(refetch, IsPrompt);
    FilterNone(refetch, IsLoginCall);
  }

  lemma AbortProjections(refetch: seq<Event>, prompt: Event)
    requires forall i :: 0 <= i < |refetch| ==> refetch[i].GetTokenInfo?
    requires prompt.Prompt?
    ensures Prompts(refetch + [prompt]) == [prompt]
    ensures LoginCalls(refetch + [prompt]) == []
  {
    RefetchProjections(refetch);
    FilterAppend(refetch, [prompt], IsPrompt);
    FilterAppend(refetch, [prompt], IsLoginCall);
    assert Filter([prompt], IsPrompt) == [prompt] + Filter([], IsPrompt);
    assert Filter([prompt], IsLoginCall) == Filter([], IsLoginCall);
  }

  lemma LoginRoundProjections(refetch: seq<Event>, prompt: Event, call: Event)
    requires forall i :: 0 <= i < |refetch| ==> refetch[i].GetTokenInfo?
    requires prompt.Prompt? && call.LoginCall?
    ensures Prompts(refetch + [prompt, call]) == [prompt]
    ensures LoginCalls(refetch + [prompt, call]) == [call]
  {
    RefetchProjections(refetch);
    FilterAppend(refetch, [prompt, call], IsPrompt);
    FilterAppend(refetch, [prompt, call], IsLoginCall);
    assert [prompt, call][1..] == [call];
    assert [call][1..] == [];
    assert Filter([call], IsPrompt) == [];
    assert Filter([prompt, call], IsPrompt) == [prompt];
    assert Filter([call], IsLoginCall) == [call] + Filter([], IsLoginCall);
    assert Filter([prompt, call], IsLoginCall) == [call];
  }

  lemma RoundProjections(slot: Slot, description: seq<byte>, pin: PinCallback, attempt: nat)
    requires attempt >= 1
    ensures var r := PinRound(slot, description, pin, attempt);
            && (|Prompts(r.trace)| == 0 || (|Prompts(r.trace)| == 1 && Prompts(r.trace)[0].attempt == attempt))
            && |LoginCalls(r.trace)| <= |Prompts(r.trace)|
            && (r.end.Retry? ==> |LoginCalls(r.trace)| == 1 && LoginCalls(r.trace)[0].rv == CKR_PIN_INCORRECT)
            && ConsumesLoginAnswers(slot, attempt - 1, LoginCalls(r.trace))
  {
    var r := PinRound(slot, description, pin, attempt);
    var info := TokenInfoAnswer(slot, attempt - 1);
    var refetch := if attempt > 1 then [GetTokenInfo(slot.id, info.Some?)] else [];
    if info.None? {
      assert r.trace == refetch;
      RefetchProjections(refetch);
    } else {
      var tokenLabel := Visible(info.value.tokenLabel);
      var flags := PinFlags(info.value.flags);
      var prompt := Prompt(attempt, description, tokenLabel, flags);
      var answer := pin(attempt, description, tokenLabel, flags);
      if answer.Abort? {
        assert r.trace == refetch + [prompt];
        AbortProjections(refetch, prompt);
      } else {
        var rv := LoginAnswer(slot, attempt - 1);
        var call := LoginCall(slot.id, Some(CStr(answer.pin)), rv);
        assert r.trace == refetch + [prompt, call];
        LoginRoundProjections(refetch, prompt, call);
      }
    }
  }

  lemma RoundSteps(slot: Slot, description: seq<byte>, pin: PinCallback, attempt: nat)
    requires attempt >= 1
    ensures var r := PinRound(slot, description, pin, attempt);
            && (attempt > 1 ==> |r.trace| >= 1 && r.trace[0] == GetTokenInfo(slot.id, TokenInfoAnswer(slot, attempt - 1).Some?))
            && (forall i :: 0 <= i < |r.trace| ==> PinLoopStep(slot, description, pin, r.trace, i))
            && (r.end.Retry? ==> |r.trace| >= 1 && Last(r.trace).LoginCall?)
            && (r.end.Finished? ==> StopsOnlyWhenNotIncorrect(r.trace) && SucceedsOnOkLogin(r.end.rc, r.trace))
  {
    var r := PinRound(slot, description, pin, attempt);
    var info := TokenInfoAnswer(slot, attempt - 1);
    var refetch := if attempt > 1 then [GetTokenInfo(slot.id, info.Some?)] else [];
    if info.None? {
      assert r.trace == refetch;
    } else {
      var tokenLabel := Visible(info.value.tokenLabel);
      var flags := PinFlags(info.value.flags);
      var prompt := Prompt(attempt, description, tokenLabel, flags);
      var answer := pin(attempt, description, tokenLabel, flags);
      if answer.Abort? {
        assert r.trace == refetch + [prompt];
        assert Last(r.trace) == prompt;
      } else {
        var rv := LoginAnswer(slot, attempt - 1);
        var call := LoginCall(slot.id, Some(CStr(answer.pin)), rv);
        assert r.trace == refetch + [prompt, call];
        assert Last(r.trace) == call;
        assert PinLoopStep(slot, description, pin, r.trace, |r.trace| - 1);
      }
    }
  }

  /**
    The prompts of the PIN loop carry the attempt numbers `attempt`,
    `attempt + 1`, ... in order, and each prompt is followed by one login
    call unless the callback gave up.
   */
  lemma {:induction false} PinLoopAttempts(slot: Slot, description: seq<byte>, pin: PinCallback, attempt: nat)
    requires attempt >= 1
    ensures var trace := PinLoop(slot, description, pin, attempt).trace;
            && (forall i :: 0 <= i < |Prompts(trace)| ==> Prompts(trace)[i].attempt == attempt + i)
            && |LoginCalls(trace)| <= |Prompts(trace)| <= |LoginCalls(trace)| + 1
    decreases |slot.logins| - attempt + 1
  {
    var round := PinRound(slot, description, pin, attempt);
    RoundProjections(slot, description, pin, attempt);
    if round.end.Retry? {
      var rest := PinLoop(slot, description, pin, attempt + 1);
      PinLoopAttempts(slot, description, pin, attempt + 1);
      FilterAppend(round.trace, rest.trace, IsPrompt);
      FilterAppend(round.trace, rest.trace, IsLoginCall);
    }
  }

  lemma ConsumesLoginAnswersAppend(slot: Slot, first: nat, call: Event, rest: seq<Event>)
    requires call.LoginCall? && call.slot == slot.id && call.rv == LoginAnswer(slot, first)
    requires call.rv == CKR_PIN_INCORRECT
    requires forall i :: 0 <= i < |rest| ==> rest[i].LoginCall?
    requires ConsumesLoginAnswers(slot, first + 1, rest)
    ensures ConsumesLoginAnswers(slot, first, [call] + rest)
  {
    var calls := [call] + rest;
    forall i | 1 <= i < |calls|
      ensures calls[i].slot == slot.id && calls[i].rv == LoginAnswer(slot, first + i)
    {
      assert calls[i] == rest[i - 1];
    }
  }

  /** The login calls of the PIN loop consume the token's login answers in order. */
  lemma {:induction false} PinLoopConsumes(slot: Slot, description: seq<byte>, pin: PinCallback, attempt: nat)
    requires attempt >= 1
    ensures ConsumesLoginAnswers(slot, attempt - 1, LoginCalls(PinLoop(slot, description, pin, attempt).trace))
    decreases |slot.logins| - attempt + 1
  {
    var run := PinLoop(slot, description, pin, attempt);
    var round := PinRound(slot, description, pin, attempt);
    RoundProjections(slot, description, pin, attempt);
    if round.end.Retry? {
      var rest := PinLoop(slot, description, pin, attempt + 1);
      assert run.trace == round.trace + rest.trace;
      PinLoopConsumes(slot, description, pin, attempt + 1);
      FilterAppend(round.trace, rest.trace, IsLoginCall);
      var call := LoginCalls(round.trace)[0];
      assert LoginCalls(round.trace) == [call];
      assert LoginCalls(run.trace) == [call] + LoginCalls(rest.trace);
      ConsumesLoginAnswersAppend(slot, attempt - 1, call, LoginCalls(rest.trace));
    } else {
      assert run.trace == round.trace;
    }
  }

  /** The PIN loop goes round again only after CKR_PIN_INCORRECT, and stops on any other answer. */
  lemma {:induction false} PinLoopStops(slot: Slot, description: seq<byte>, pin: PinCallback, attempt: nat)
    requires attempt >= 1
    ensures StopsOnlyWhenNotIncorrect(PinLoop(slot, description, pin, attempt).trace)
    decreases |slot.logins| - attempt + 1
  {
    var run := PinLoop(slot, description, pin, attempt);
    var round := PinRound(slot, description, pin, attempt);
    RoundSteps(slot, description, pin, attempt);
    if round.end.Retry? {
      var rest := PinLoop(slot, description, pin, attempt + 1);
      assert run.trace == round.trace + rest.trace;
      PinLoopStops(slot, description, pin, attempt + 1);
      PinLoopResult(slot, description, pin, attempt + 1);
      assert Last(run.trace) == Last(rest.trace);
    } else {
      assert run.trace == round.trace;
    }
  }

  /**
    The PIN loop stops only where `pk11_login` returns. Round 1 works from
    the token information `Login` read, so it needs that read to have succeeded.
   */
  lemma {:induction false} PinLoopEnds(slot: Slot, description: seq<byte>, pin: PinCallback, attempt: nat)
    requires attempt >= 1
    requires attempt > 1 || TokenInfoAnswer(slot, 0).Some?
    ensures EndsOnStop(pin, PinLoop(slot, description, pin, attempt).trace)
    decreases |slot.logins| - attempt + 1
  {
    var run := PinLoop(slot, description, pin, attempt);
    var round := PinRound(slot, description, pin, attempt);
    if round.end.Retry? {
      var rest := PinLoop(slot, description, pin, attempt + 1);
      assert run.trace == round.trace + rest.trace;
      PinLoopEnds(slot, description, pin, attempt + 1);
      assert Last(run.trace) == Last(rest.trace);
    } else {
      assert run.trace == round.trace;
    }
  }

  /**
    The result of the PIN loop is 0 exactly when its last login call was
    answered CKR_OK; every round after the first starts by re-reading the
    token information.
   */
  lemma {:induction false} PinLoopResult(slot: Slot, description: seq<byte>, pin: PinCallback, attempt: nat)
    requires attempt >= 1
    ensures var run := PinLoop(slot, description, pin, attempt);
            && SucceedsOnOkLogin(run.rc, run.trace)
            && (attempt > 1 ==> |run.trace| >= 1 && run.trace[0] == GetTokenInfo(slot.id, TokenInfoAnswer(slot, attempt - 1).Some?))
    decreases |slot.logins| - attempt + 1
  {
    var run := PinLoop(slot, description, pin, attempt);
    var round := PinRound(slot, description, pin, attempt);
    RoundSteps(slot, description, pin, attempt);
    if round.end.Retry? {
      var rest := PinLoop(slot, description, pin, attempt + 1);
      assert run.trace == round.trace + rest.trace;
      PinLoopResult(slot, description, pin, attempt + 1);
      assert Last(run.trace) == Last(rest.trace);
    }
  }

  /**
    Every prompt after the first comes right after a successful re-read of
    the token information and shows that latest snapshot's label and flags;
    every login call passes the PIN just entered; a failed re-read ends the loop.
   */
  lemma {:induction false} PinLoopRounds(slot: Slot, description: seq<byte>, pin: PinCallback, attempt: nat)
    requires attempt >= 1
    ensures var trace := PinLoop(slot, description, pin, attempt).trace;
            forall i :: 0 <= i < |trace| ==> PinLoopStep(slot, description, pin, trace, i)
    decreases |slot.logins| - attempt + 1
  {
    var run := PinLoop(slot, description, pin, attempt);
    var round := PinRound(slot, description, pin, attempt);
    RoundSteps(slot, description, pin, attempt);
    if round.end.Retry? {
      var rest := PinLoop(slot, description, pin, attempt + 1);
      assert run.trace == round.trace + rest.trace;
      PinLoopRounds(slot, description, pin, attempt + 1);
      PinLoopResult(slot, description, pin, attempt + 1);
      forall i | 0 <= i < |run.trace|
        ensures PinLoopStep(slot, description, pin, run.trace, i)
      {
        if i < |round.trace| {
          assert run.trace[i] == round.trace[i];
          assert PinLoopStep(slot, description, pin, round.trace, i);
          if i >= 1 {
            assert run.trace[i - 1] == round.trace[i - 1];
          }
        } else {
          var j := i - |round.trace|;
          assert run.trace[i] == rest.trace[j];
          assert PinLoopStep(slot, description, pin, rest.trace, j);
          if j >= 1 {
            assert run.trace[i - 1] == rest.trace[j - 1];
          }
        }
      }
    }
  }

  // The four paths of `pk11_login`.

  /** A failed token-information query gives -1 before any prompt or login. */
  lemma LoginQueryFailure(slot: Slot, description: Description, pin: Option<PinCallback>)
    requires TokenInfoAnswer(slot, 0).None?
    ensures var run := Login(slot, description, pin);
            run.rc == -1 && Prompts(run.trace) == [] && LoginCalls(run.trace) == []
  {
    RefetchProjections(Login(slot, description, pin).trace);
  }

  /** A token that does not require login gives 0 without prompting or logging in. */
  lemma LoginNotRequired(slot: Slot, description: Description, pin: Option<PinCallback>)
    requires TokenInfoAnswer(slot, 0).Some?
    requires TokenInfoAnswer(slot, 0).value.flags & CKF_LOGIN_REQUIRED == 0
    ensures var run := Login(slot, description, pin);
            run.rc == 0 && Prompts(run.trace) == [] && LoginCalls(run.trace) == []
  {
    RefetchProjections(Login(slot, description, pin).trace);
  }

  /**
    The protected authentication path makes exactly one login call, without
    a PIN and without a prompt, and succeeds exactly when that call does.
   */
  lemma LoginProtectedPath(slot: Slot, description: Description, pin: Option<PinCallback>)
    requires TokenInfoAnswer(slot, 0).Some?
    requires TokenInfoAnswer(slot, 0).value.flags & CKF_LOGIN_REQUIRED != 0
    requires TokenInfoAnswer(slot, 0).value.flags & CKF_PROTECTED_AUTHENTICATION_PATH != 0
    ensures var run := Login(slot, description, pin);
            && Prompts(run.trace) == []
            && LoginCalls(run.trace) == [LoginCall(slot.id, None, LoginAnswer(slot, 0))]
            && (run.rc == 0 <==> LoginAnswer(slot, 0) == CKR_OK)
            && (run.rc != 0 ==> run.rc == -1)
  {
    var run := Login(slot, description, pin);
    var query := [GetTokenInfo(slot.id, true)];
    var call := LoginCall(slot.id, None, LoginAnswer(slot, 0));
    assert run.trace == query + [call];
    RefetchProjections(query);
    FilterAppend(query, [call], IsPrompt);
    FilterAppend(query, [call], IsLoginCall);
    assert Filter([call], IsPrompt) == Filter([], IsPrompt);
    assert Filter([call], IsLoginCall) == [call] + Filter([], IsLoginCall);
  }

  /** Without a PIN callback a token that needs a PIN gives -1 before any prompt. */
  lemma LoginNoCallback(slot: Slot, description: Description)
    requires TokenInfoAnswer(slot, 0).Some?
    requires TokenInfoAnswer(slot, 0).value.flags & CKF_LOGIN_REQUIRED != 0
    requires TokenInfoAnswer(slot, 0).value.flags & CKF_PROTECTED_AUTHENTICATION_PATH == 0
    ensures var run := Login(slot, description, None);
            run.rc == -1 && Prompts(run.trace) == [] && LoginCalls(run.trace) == []
  {
    RefetchProjections(Login(slot, description, None).trace);
  }

  /** On the interactive path the trace is the token-information read followed by the PIN loop. */
  lemma InteractiveTrace(slot: Slot, description: Description, pin: PinCallback)
    requires TokenInfoAnswer(slot, 0).Some?
    requires TokenInfoAnswer(slot, 0).value.flags & CKF_LOGIN_REQUIRED != 0
    requires TokenInfoAnswer(slot, 0).value.flags & CKF_PROTECTED_AUTHENTICATION_PATH == 0
    ensures var run := Login(slot, description, Some(pin));
            var loop := PinLoop(slot, Visible(description), pin, 1);
            && run.rc == loop.rc
            && run.trace == [GetTokenInfo(slot.id, true)] + loop.trace
            && Prompts(run.trace) == Prompts(loop.trace)
            && LoginCalls(run.trace) == LoginCalls(loop.trace)
  {
    var run := Login(slot, description, Some(pin));
    var query := [GetTokenInfo(slot.id, true)];
    var loop := PinLoop(slot, Visible(description), pin, 1);
    RefetchProjections(query);
    FilterAppend(query, loop.trace, IsPrompt);
    FilterAppend(query, loop.trace, IsLoginCall);
  }

  /**
    The interactive path: prompts carry attempts 1, 2, ...; the login calls
    consume the login answers in order; the loop goes round again exactly
    after CKR_PIN_INCORRECT and stops only where `pk11_login` returns; the
    result is 0 exactly when the last login call was answered CKR_OK.
   */
  lemma LoginInteractive(slot: Slot, description: Description, pin: PinCallback)
    requires TokenInfoAnswer(slot, 0).Some?
    requires TokenInfoAnswer(slot, 0).value.flags & CKF_LOGIN_REQUIRED != 0
    requires TokenInfoAnswer(slot, 0).value.flags & CKF_PROTECTED_AUTHENTICATION_PATH == 0
    ensures var run := Login(slot, description, Some(pin));
            && (forall i :: 0 <= i < |Prompts(run.trace)| ==> Prompts(run.trace)[i].attempt == i + 1)
            && |LoginCalls(run.trace)| <= |Prompts(run.trace)| <= |LoginCalls(run.trace)| + 1
            && ConsumesLoginAnswers(slot, 0, LoginCalls(run.trace))
            && StopsOnlyWhenNotIncorrect(run.trace)
            && EndsOnStop(pin, run.trace)
            && SucceedsOnOkLogin(run.rc, run.trace)
  {
    var run := Login(slot, description, Some(pin));
    var text := Visible(description);
    var loop := PinLoop(slot, text, pin, 1);
    InteractiveTrace(slot, description, pin);
    PinLoopEnds(slot, text, pin, 1);
    PinLoopAttempts(slot, text, pin, 1);
    PinLoopConsumes(slot, text, pin, 1);
    PinLoopStops(slot, text, pin, 1);
    PinLoopResult(slot, text, pin, 1);
    if |loop.trace| >= 1 {
      assert Last(run.trace) == Last(loop.trace);
    }
  }

  /**
    On the interactive path every prompt shows the trimmed slot description
    and the label and flags of the latest token-information snapshot, every
    prompt after the first comes right after a successful re-read, every
    login call passes the PIN just entered, and a failed re-read ends the login.
   */
  lemma LoginInteractiveSteps(slot: Slot, description: Description, pin: PinCallback)
    requires TokenInfoAnswer(slot, 0).Some?
    requires TokenInfoAnswer(slot, 0).value.flags & CKF_LOGIN_REQUIRED != 0
    requires TokenInfoAnswer(slot, 0).value.flags & CKF_PROTECTED_AUTHENTICATION_PATH == 0
    ensures var trace := Login(slot, description, Some(pin)).trace;
            forall i :: 0 <= i < |trace| ==> PinLoopStep(slot, Visible(description), pin, trace, i)
  {
    var run := Login(slot, description, Some(pin));
    var text := Visible(description);
    var loop := PinLoop(slot, text, pin, 1);
    InteractiveTrace(slot, description, pin);
    PinLoopRounds(slot, text, pin, 1);
    forall i | 0 <= i < |run.trace|
      ensures PinLoopStep(slot, text, pin, run.trace, i)
    {
      if i >= 1 {
        assert run.trace[i] == loop.trace[i - 1];
        assert PinLoopStep(slot, text, pin, loop.trace, i - 1);
        if i >= 2 {
          assert run.trace[i - 1] == loop.trace[i - 2];
        }
      }
    }
  }

  /** A login only reads token information, prompts, and logs in on its own slot. */
  lemma LoginEvents(slot: Slot, description: Description, pin: Option<PinCallback>)
    ensures var trace := Login(slot, description, pin).trace;
            forall i :: 0 <= i < |trace| ==> LoginEventOf(slot.id, trace[i])
  {
    var info := TokenInfoAnswer(slot, 0);
    if && info.Some? && info.value.flags & CKF_LOGIN_REQUIRED != 0
       && info.value.flags & CKF_PROTECTED_AUTHENTICATION_PATH == 0 && pin.Some? {
      assert pin == Some(pin.value);
      LoginInteractiveSteps(slot, description, pin.value);
      var trace := Login(slot, description, pin).trace;
      forall i | 0 <= i < |trace|
        ensures LoginEventOf(slot.id, trace[i])
      {
        assert PinLoopStep(slot, Visible(description), pin.value, trace, i);
      }
    } else {
      var trace := Login(slot, description, pin).trace;
      assert |trace| <= 2;
    }
  }
}
