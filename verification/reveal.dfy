/** Revealing a stored value: `decryptWithSignature`, which asks the wallet to
    sign the challenge before decoding, and the Decrypt/Hide button of the
    detail view that drives it. The wallet is an input: whether it is
    connected, and whether the signature request succeeds. */
module Reveal {
  import opened Wrappers
  import opened Numbers
  import Codec
  import Challenge
  import Records

  /** How the wallet settles a signature request: signed, or refused (the
      user rejects it or the call throws). */
  datatype SignOutcome = Signed | Refused

  /** One call of `decryptWithSignature`: the message the wallet is asked to
      sign, if any, and the value returned (`None` is `null`). */
  datatype Decryption = Decryption(signRequest: Option<string>, value: Option<JsNumber>)

  /** `decryptWithSignature`: without a connected wallet, `null` and no
      signature request; otherwise the challenge is put to the wallet, a
      refusal gives `null`, and a signature gives the decoded value, or `null`
      when decoding throws (caught by the same `try`). */
  function DecryptWithSignature(
    connected: bool, session: Challenge.SessionParams, sign: SignOutcome,
    encryptedData: string, fmt: NumberText): (r: Decryption)
    ensures r.signRequest.Some? <==> connected
    ensures r.signRequest.Some? ==> r.signRequest.value == Challenge.Message(session)
    ensures r.value.Some? <==> connected && sign == Signed && Codec.Decrypt(fmt, encryptedData).Some?
    ensures r.value.Some? ==> r.value == Codec.Decrypt(fmt, encryptedData)
  {
    if !connected then Decryption(None, None)
    else
      var request := Some(Challenge.Message(session));
      match sign
      case Refused => Decryption(request, None)
      case Signed => Decryption(request, Codec.Decrypt(fmt, encryptedData))
  }

  /** With a signature, a value stored by the encoder always comes back: the
      runtime's reading of its own text for the number. */
  lemma RevealEncrypted(session: Challenge.SessionParams, fmt: NumberText, x: real)
    ensures DecryptWithSignature(true, session, Signed, Codec.Encrypt(fmt, x), fmt).value
      == Some(fmt.parse(fmt.show(x)))
  {
    Codec.DecryptInvertsEncrypt(fmt, x);
  }

  // ---------------------------------------------------------------------
  // The Decrypt/Hide button
  // ---------------------------------------------------------------------

  /** A press of the Decrypt/Hide button, the wallet settling the pending
      request, the close button of the detail modal, or a click on the `i`-th
      record of the list. */
  datatype Event = Press | Settled(outcome: SignOutcome) | Close | Select(i: nat)

  /** What the flow reads and never writes: the wallet's connectivity, the
      session, and the runtime's number conversions. */
  datatype Env = Env(connected: bool, session: Challenge.SessionParams, fmt: NumberText)

  /** The component state the flow touches: the record list, `selectedAgent`
      (the open detail modal), `decryptedData` (the value shown), and the
      record whose `decryptWithSignature` call is pending (`isDecrypting` is
      `pending.Some?`). */
  datatype View = View(
    agents: seq<Records.Agent>,
    selected: Option<Records.Agent>,
    shown: Option<JsNumber>,
    pending: Option<Records.Agent>)

  /** Nothing selected, shown or pending: the state after mounting. */
  function Initial(agents: seq<Records.Agent>): (v: View)
    ensures v.agents == agents && v.selected.None? && v.shown.None? && v.pending.None?
  {
    View(agents, None, None, None)
  }

  /** Whether the Decrypt/Hide button can be pressed: it exists only in an
      open modal and is disabled while a call is pending. */
  predicate CanPress(v: View) {
    v.selected.Some? && v.pending.None?
  }

  /** The challenge the wallet is asked to sign in reaction to an event, if
      any: only a press while nothing is shown, and only with a connected
      wallet. */
  function SignRequest(env: Env, v: View, e: Event): (r: Option<string>)
    ensures r.Some? <==> e.Press? && CanPress(v) && v.shown.None? && env.connected
    ensures r.Some? ==> r.value == Challenge.Message(env.session)
    ensures r.Some? ==>
      r == DecryptWithSignature(env.connected, env.session, Signed, v.selected.value.encryptedData, env.fmt).signRequest
      && r == DecryptWithSignature(env.connected, env.session, Refused, v.selected.value.encryptedData, env.fmt).signRequest
  {
    if e.Press? && CanPress(v) && v.shown.None? && env.connected then Some(Challenge.Message(env.session))
    else None
  }

  /** The handlers as the component writes them. A press hides a shown value,
      or starts `decryptWithSignature` on the selected record (without a
      wallet the call returns `null` at once and nothing changes). When the
      call settles, a non-null result goes into `decryptedData`, whatever
      record is selected by then. Closing clears the selection and the value
      but does not cancel a pending call; a click on a record selects it. */
  function StepAsWritten(env: Env, v: View, e: Event): (r: View)
    ensures r.agents == v.agents
    ensures e.Close? ==> r.selected.None? && r.shown.None? && r.pending == v.pending
    ensures r.shown.Some? && r.shown != v.shown ==>
      e == Settled(Signed) && v.pending.Some?
      && r.shown == Codec.Decrypt(env.fmt, v.pending.value.encryptedData)
    ensures e.Settled? && v.pending.Some? ==>
      r.pending.None? && r.selected == v.selected
      && r.shown == (if e.outcome == Signed && env.connected
                        && Codec.Decrypt(env.fmt, v.pending.value.encryptedData).Some?
                     then Codec.Decrypt(env.fmt, v.pending.value.encryptedData) else v.shown)
  {
    match e
    case Press =>
      if !CanPress(v) then v
      else if v.shown.Some? then v.(shown := None)
      else if env.connected then v.(pending := v.selected)
      else v
    case Settled(outcome) =>
      if v.pending.None? then v
      else
        var d := DecryptWithSignature(env.connected, env.session, outcome, v.pending.value.encryptedData, env.fmt);
        v.(pending := None, shown := if d.value.Some? then d.value else v.shown)
    case Close => v.(selected := None, shown := None)
    case Select(i) => if i < |v.agents| then v.(selected := Some(v.agents[i])) else v
  }

  function RunAsWritten(env: Env, v: View, events: seq<Event>): View
    decreases |events|
  {
    if |events| == 0 then v else RunAsWritten(env, StepAsWritten(env, v, events[0]), events[1..])
  }

  /** The handlers with a settled result kept only for the record it was
      requested for: a result that settles after the modal was closed, or
      after another record was selected, is dropped, and selecting a record
      starts with nothing shown. Everything else is as written. */
  function Step(env: Env, v: View, e: Event): (r: View)
    ensures r.agents == v.agents
    ensures e.Press? && CanPress(v) && v.shown.Some? ==> r.shown.None? && r.pending.None?
    ensures (r.pending.Some? && v.pending.None?) <==> SignRequest(env, v, e).Some?
    ensures e.Close? ==> r.selected.None? && r.shown.None?
    ensures r.shown.Some? && r.shown != v.shown ==>
      e == Settled(Signed) && v.pending.Some? && v.selected == v.pending
      && r.shown == Codec.Decrypt(env.fmt, v.pending.value.encryptedData)
  {
    match e
    case Press =>
      if !CanPress(v) then v
      else if v.shown.Some? then v.(shown := None)
      else if env.connected then v.(pending := v.selected)
      else v
    case Settled(outcome) =>
      if v.pending.None? then v
      else if v.selected != v.pending then v.(pending := None)
      else
        var d := DecryptWithSignature(env.connected, env.session, outcome, v.pending.value.encryptedData, env.fmt);
        v.(pending := None, shown := if d.value.Some? then d.value else v.shown)
    case Close => v.(selected := None, shown := None)
    case Select(i) => if i < |v.agents| then v.(selected := Some(v.agents[i]), shown := None) else v
  }

  /** The view after a sequence of events. */
  function Run(env: Env, v: View, events: seq<Event>): (r: View)
    decreases |events|
  {
    if |events| == 0 then v else Run(env, Step(env, v, events[0]), events[1..])
  }

  /** The record list is the same after any sequence of events. */
  lemma {:induction false} RunKeepsRecords(env: Env, v: View, events: seq<Event>)
    ensures Run(env, v, events).agents == v.agents
    decreases |events|
  {
    if |events| > 0 {
      RunKeepsRecords(env, Step(env, v, events[0]), events[1..]);
    }
  }

  /** What the view may hold: a pending call only with a connected wallet and
      nothing shown, and a shown value only in an open modal, as the decoding
      of its record, with a connected wallet. */
  predicate Consistent(env: Env, v: View) {
    (v.pending.Some? ==> env.connected && v.shown.None?)
    && (v.shown.Some? ==>
          env.connected && v.selected.Some?
          && Codec.Decrypt(env.fmt, v.selected.value.encryptedData) == v.shown)
  }

  lemma StepConsistent(env: Env, v: View, e: Event)
    requires Consistent(env, v)
    ensures Consistent(env, Step(env, v, e))
  {
  }

  /** Starting from a consistent view, every reachable view is consistent: a
      shown value is always the decoding of the record whose modal is open. */
  lemma {:induction false} RunConsistent(env: Env, v: View, events: seq<Event>)
    requires Consistent(env, v)
    ensures Consistent(env, Run(env, v, events))
    decreases |events|
  {
    if |events| > 0 {
      StepConsistent(env, v, events[0]);
      RunConsistent(env, Step(env, v, events[0]), events[1..]);
    }
  }

  /** The trace of the stale result: open record 0, press Decrypt, close the
      modal, open record 1, then the wallet signs. */
  const StaleTrace: seq<Event> := [Select(0), Press, Close, Select(1), Settled(Signed)]

  /** As written, the stale result is shown in the modal of the other record:
      whenever the two records decode differently, the view reached is not
      consistent. */
  lemma AsWrittenShowsOtherRecord(env: Env, a: Records.Agent, b: Records.Agent)
    requires env.connected
    requires Codec.Decrypt(env.fmt, a.encryptedData).Some?
    requires Codec.Decrypt(env.fmt, a.encryptedData) != Codec.Decrypt(env.fmt, b.encryptedData)
    ensures Consistent(env, Initial([a, b]))
    ensures RunAsWritten(env, Initial([a, b]), StaleTrace).selected == Some(b)
    ensures RunAsWritten(env, Initial([a, b]), StaleTrace).shown == Codec.Decrypt(env.fmt, a.encryptedData)
    ensures !Consistent(env, RunAsWritten(env, Initial([a, b]), StaleTrace))
  {
    var v0 := Initial([a, b]);
    var v1 := StepAsWritten(env, v0, Select(0));
    var v2 := StepAsWritten(env, v1, Press);
    var v3 := StepAsWritten(env, v2, Close);
    var v4 := StepAsWritten(env, v3, Select(1));
    var v5 := StepAsWritten(env, v4, Settled(Signed));
    assert v4.pending == Some(a) && v4.selected == Some(b);
    assert StaleTrace[1..] == [Press, Close, Select(1), Settled(Signed)];
    assert StaleTrace[1..][1..] == [Close, Select(1), Settled(Signed)];
    assert StaleTrace[1..][1..][1..] == [Select(1), Settled(Signed)];
    assert StaleTrace[1..][1..][1..][1..] == [Settled(Signed)];
    assert RunAsWritten(env, v4, [Settled(Signed)]) == v5;
    assert RunAsWritten(env, v3, [Select(1), Settled(Signed)]) == v5;
    assert RunAsWritten(env, v2, [Close, Select(1), Settled(Signed)]) == v5;
    assert RunAsWritten(env, v1, [Press, Close, Select(1), Settled(Signed)]) == v5;
  }

  /** Runtime conversions under which "1" and "2" read as different numbers. */
  function DistinctReadings(): (fmt: NumberText)
    ensures fmt.parse("1") != fmt.parse("2")
  {
    NumberText(x => "", t => if t == "1" then Num(1.0) else Num(2.0))
  }

  /** Two concrete records, stored untagged as "1" and "2", on which the
      as-written handlers show the first record's value under the second. */
  lemma StaleResultWitness()
    ensures var env := Env(true, Challenge.SessionParams("", "", 0, 0, 30), DistinctReadings());
      var a := Records.Agent("agent-1", "A", "1", 0, "");
      var b := Records.Agent("agent-2", "B", "2", 0, "");
      !Consistent(env, RunAsWritten(env, Initial([a, b]), StaleTrace))
  {
    var env := Env(true, Challenge.SessionParams("", "", 0, 0, 30), DistinctReadings());
    var a := Records.Agent("agent-1", "A", "1", 0, "");
    var b := Records.Agent("agent-2", "B", "2", 0, "");
    assert !Codec.HasTag("1") && !Codec.HasTag("2");
    assert Codec.Decrypt(env.fmt, "1") == Some(env.fmt.parse("1"));
    assert Codec.Decrypt(env.fmt, "2") == Some(env.fmt.parse("2"));
    AsWrittenShowsOtherRecord(env, a, b);
  }

  /** On the same trace the corrected handlers drop the stale result. */
  lemma StaleResultDropped(env: Env, a: Records.Agent, b: Records.Agent)
    requires a != b
    ensures Run(env, Initial([a, b]), StaleTrace).shown.None?
    ensures Run(env, Initial([a, b]), StaleTrace).pending.None?
    ensures Run(env, Initial([a, b]), StaleTrace).selected == Some(b)
  {
    var v0 := Initial([a, b]);
    var v1 := Step(env, v0, Select(0));
    var v2 := Step(env, v1, Press);
    var v3 := Step(env, v2, Close);
    var v4 := Step(env, v3, Select(1));
    var v5 := Step(env, v4, Settled(Signed));
    assert v5.shown.None? && v5.selected == Some(b);
    assert StaleTrace[1..] == [Press, Close, Select(1), Settled(Signed)];
    assert StaleTrace[1..][1..] == [Close, Select(1), Settled(Signed)];
    assert StaleTrace[1..][1..][1..] == [Select(1), Settled(Signed)];
    assert StaleTrace[1..][1..][1..][1..] == [Settled(Signed)];
    assert Run(env, v4, [Settled(Signed)]) == v5;
    assert Run(env, v3, [Select(1), Settled(Signed)]) == v5;
    assert Run(env, v2, [Close, Select(1), Settled(Signed)]) == v5;
    assert Run(env, v1, [Press, Close, Select(1), Settled(Signed)]) == v5;
  }

  /** From a view with nothing shown, no value is ever shown unless some
      signature settled as signed. */
  lemma {:induction false} ShownNeedsSignedEvent(env: Env, v: View, events: seq<Event>)
    requires v.shown.None?
    requires Run(env, v, events).shown.Some?
    ensures Settled(Signed) in events
    decreases |events|
  {
    if |events| > 0 {
      var w := Step(env, v, events[0]);
      if w.shown.Some? {
        assert events[0] == Settled(Signed);
      } else {
        ShownNeedsSignedEvent(env, w, events[1..]);
        assert events == [events[0]] + events[1..];
      }
    }
  }

  /** Without a wallet nothing is ever decrypted: with nothing shown or
      pending, nothing is shown or pending after any events. */
  lemma {:induction false} DisconnectedStaysHidden(env: Env, v: View, events: seq<Event>)
    requires !env.connected && v.shown.None? && v.pending.None?
    ensures Run(env, v, events).shown.None? && Run(env, v, events).pending.None?
    decreases |events|
  {
    if |events| > 0 {
      DisconnectedStaysHidden(env, Step(env, v, events[0]), events[1..]);
    }
  }

  /** The three properties above hold of the handlers as written too: the
      record list never changes, */
  lemma {:induction false} AsWrittenKeepsRecords(env: Env, v: View, events: seq<Event>)
    ensures RunAsWritten(env, v, events).agents == v.agents
    decreases |events|
  {
    if |events| > 0 {
      AsWrittenKeepsRecords(env, StepAsWritten(env, v, events[0]), events[1..]);
    }
  }

  /** a value is shown only after a signature settled as signed, */
  lemma {:induction false} AsWrittenShownNeedsSignedEvent(env: Env, v: View, events: seq<Event>)
    requires v.shown.None?
    requires RunAsWritten(env, v, events).shown.Some?
    ensures Settled(Signed) in events
    decreases |events|
  {
    if |events| > 0 {
      var w := StepAsWritten(env, v, events[0]);
      if w.shown.Some? {
        assert events[0] == Settled(Signed);
      } else {
        AsWrittenShownNeedsSignedEvent(env, w, events[1..]);
        assert events == [events[0]] + events[1..];
      }
    }
  }

  /** and without a wallet nothing is shown or pending. */
  lemma {:induction false} AsWrittenDisconnectedStaysHidden(env: Env, v: View, events: seq<Event>)
    requires !env.connected && v.shown.None? && v.pending.None?
    ensures RunAsWritten(env, v, events).shown.None? && RunAsWritten(env, v, events).pending.None?
    decreases |events|
  {
    if |events| > 0 {
      AsWrittenDisconnectedStaysHidden(env, StepAsWritten(env, v, events[0]), events[1..]);
    }
  }

  /** The toggle: in an open modal with nothing shown, a press followed by a
      signature shows the decoding of the record (nothing when it does not
      decode), and a press followed by a refusal shows nothing. */
  lemma PressThenSign(env: Env, v: View)
    requires env.connected && CanPress(v) && v.shown.None?
    ensures Run(env, v, [Press, Settled(Signed)]).shown == Codec.Decrypt(env.fmt, v.selected.value.encryptedData)
    ensures Run(env, v, [Press, Settled(Refused)]).shown.None?
  {
    var w := Step(env, v, Press);
    assert [Press, Settled(Signed)][1..] == [Settled(Signed)];
    assert [Press, Settled(Refused)][1..] == [Settled(Refused)];
    assert Run(env, w, [Settled(Signed)]) == Step(env, w, Settled(Signed));
    assert Run(env, w, [Settled(Refused)]) == Step(env, w, Settled(Refused));
  }

  /** Hiding a shown value asks for no signature and decodes nothing. */
  lemma PressHides(env: Env, v: View)
    requires CanPress(v) && v.shown.Some?
    ensures SignRequest(env, v, Press).None?
    ensures Step(env, v, Press) == v.(shown := None)
  {
  }
}
