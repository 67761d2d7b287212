/**
 * The legacy accessory `EcoforestThermostat` (index.js): each handler stops
 * the pull timer, sends one request to the heater and restarts the timer when
 * the answer has been handled. A status answer that `JSON.parse` rejects
 * throws inside the request callback, so neither the timer nor the host's
 * callback is ever called again for that request.
 */
module Legacy {
  import opened Wrappers
  import opened Numbers
  import opened Characteristics
  import opened Device
  import opened Codec
  import opened LegacyCodec
  import NumberText
  import HeaterStates

  /** What the HTTP client hands the request callback: an error, or a response. */
  datatype HttpReply = TransportError | HttpResponse(statusCode: int, body: string)

  /** The callbacks' error test: a transport error or a status code of 300 or more. */
  predicate IsError(reply: HttpReply)
  {
    reply.TransportError? || reply.statusCode >= 300
  }

  /**
   * How a handler ends: its host callback gets a value, or gets an error, or
   * is never called because parsing the answer threw.
   */
  datatype Outcome<T> = Done(value: T) | Errored | Lost

  /** The characteristic values the legacy accessory reads and updates. */
  datatype LegacyValues = LegacyValues(active: int, mode: HeaterCoolerState, current: Num, threshold: Num)

  /** What one refresh leaves: the new values and the notifications pushed, in order. */
  datatype Refresh = Refresh(values: LegacyValues, notes: seq<Notification>)

  /** The pull timer and the requests, in the order they happen. */
  datatype Event = TimerStopped | TimerStarted | Sent(command: Command)

  /** One exchange with the heater: stop the timer, send, and restart it unless the answer threw. */
  function Exchange(command: Command, lost: bool): (events: seq<Event>)
    ensures |events| == if lost then 2 else 3
    ensures events[..2] == [TimerStopped, Sent(command)]
    ensures !lost ==> events[2] == TimerStarted
  {
    [TimerStopped, Sent(command)] + if lost then [] else [TimerStarted]
  }

  /** `parseFloat(json[key])`: an absent field is `undefined`, which parses as NaN. */
  function FieldNumber(fields: map<string, string>, key: string): (r: Num)
    ensures key !in fields ==> r.NaN?
  {
    match Field(fields, key)
    case None => NaN
    case Some(text) => ParseFloat(text)
  }

  /**
   * The body of `refreshEcoforestThermostatStatus` after a good parse: each
   * of the four characteristics is updated, and notified, only when the new
   * value differs from the old one (`!=`, which holds for NaN).
   */
  function Refreshed(v: LegacyValues, fields: map<string, string>): (r: Refresh)
    ensures r.values.current == FieldNumber(fields, "temperatura")
    ensures r.values.threshold == FieldNumber(fields, "consigna_temperatura")
    ensures r.values.active == LegacyActiveState(Field(fields, "estado"))
    ensures r.values.mode == LegacyMode(Field(fields, "estado"))
  {
    var estado := Field(fields, "estado");
    Compared(v, FieldNumber(fields, "temperatura"), FieldNumber(fields, "consigna_temperatura"),
             LegacyActiveState(estado), LegacyMode(estado))
  }

  /** The four compare-and-update steps, in the order the source takes them. */
  function Compared(v: LegacyValues, t: Num, c: Num, a: int, m: HeaterCoolerState): (r: Refresh)
    ensures r.values == LegacyValues(a, m, t, c)
    ensures |r.notes| <= 4
    ensures forall x :: TemperatureChanged(x) in r.notes <==> x == t && !Eq(t, v.current)
    ensures forall x :: ThresholdChanged(x) in r.notes <==> x == c && !Eq(c, v.threshold)
    ensures forall x :: ActiveChanged(x) in r.notes <==> x == a && a != v.active
    ensures forall x :: ModeChanged(x) in r.notes <==> x == m && m != v.mode
  {
    var v1 := if !Eq(t, v.current) then v.(current := t) else v;
    var v2 := if !Eq(c, v1.threshold) then v1.(threshold := c) else v1;
    var v3 := if a != v2.active then v2.(active := a) else v2;
    var v4 := if m != v3.mode then v3.(mode := m) else v3;
    Refresh(v4,
      (if !Eq(t, v.current) then [TemperatureChanged(t)] else [])
      + (if !Eq(c, v1.threshold) then [ThresholdChanged(c)] else [])
      + (if a != v2.active then [ActiveChanged(a)] else [])
      + (if m != v3.mode then [ModeChanged(m)] else []))
  }

  /** A refresh: nothing changes on an error, and a reply that does not parse is lost. */
  function RefreshOutcome(v: LegacyValues, reply: HttpReply): (o: Outcome<Refresh>)
    ensures o.Errored? <==> IsError(reply)
    ensures o.Lost? ==> LegacyParse(reply.body).None?
  {
    if IsError(reply) then Errored
    else
      match LegacyParse(reply.body)
      case None => Lost
      case Some(fields) => Done(Refreshed(v, fields))
  }

  /** `getActive`: the active state the status answer reports. */
  function ActiveOutcome(reply: HttpReply): (o: Outcome<int>)
    ensures o.Errored? <==> IsError(reply)
    ensures o.Done? ==> o.value == ACTIVE || o.value == INACTIVE
  {
    if IsError(reply) then Errored
    else
      match LegacyParse(reply.body)
      case None => Lost
      case Some(fields) => Done(LegacyActiveState(Field(fields, "estado")))
  }

  /** `getCurrentTemperature`: the room temperature the status answer reports. */
  function TemperatureOutcome(reply: HttpReply): (o: Outcome<Num>)
    ensures o.Errored? <==> IsError(reply)
    ensures o.Done? ==> LegacyParse(reply.body).Some? && (o.value.Val? ==> "temperatura" in LegacyParse(reply.body).value)
  {
    if IsError(reply) then Errored
    else
      match LegacyParse(reply.body)
      case None => Lost
      case Some(fields) => Done(FieldNumber(fields, "temperatura"))
  }

  /** The mode `setActive` writes once the heater accepted the switch: HEATING for a truthy value. */
  function SwitchedMode(value: int): (m: HeaterCoolerState)
    ensures m != Idle && (m == Inactive <==> value == INACTIVE)
  {
    if value != 0 then Heating else Inactive
  }

  class EcoforestThermostat {
    var values: LegacyValues
    var pullTimerRunning: bool
    /** Timer stops and starts and the requests sent, oldest first. */
    ghost var trace: seq<Event>
    /** The `updateValue` notifications pushed to the host framework, oldest first. */
    ghost var notifications: seq<Notification>

    /**
     * Starts the pull timer. The initial characteristic values are the host
     * framework's defaults, given here as `initial`.
     */
    constructor(initial: LegacyValues)
      ensures values == initial && pullTimerRunning
      ensures trace == [TimerStarted] && notifications == []
    {
      values := initial;
      pullTimerRunning := true;
      trace := [TimerStarted];
      notifications := [];
    }

    /** `refreshEcoforestThermostatStatus`, the pull timer's callback. */
    method RefreshEcoforestThermostatStatus(reply: HttpReply)
      modifies this
      ensures var o := RefreshOutcome(old(values), reply);
        && values == (if o.Done? then o.value.values else old(values))
        && notifications == old(notifications) + (if o.Done? then o.value.notes else [])
        && pullTimerRunning == !o.Lost?
        && trace == old(trace) + Exchange(GetStatus, o.Lost?)
    {
      pullTimerRunning := false;
      trace := trace + [TimerStopped, Sent(GetStatus)];
      if IsError(reply) {
        pullTimerRunning := true;
        trace := trace + [TimerStarted];
        return;
      }
      var json := LegacyParse(reply.body);
      if json.None? {
        return;
      }
      Update(json.value);
      pullTimerRunning := true;
      trace := trace + [TimerStarted];
    }

    /** The four compare-and-update steps of a refresh whose answer parsed. */
    method Update(fields: map<string, string>)
      modifies this
      ensures values == Refreshed(old(values), fields).values
      ensures notifications == old(notifications) + Refreshed(old(values), fields).notes
      ensures pullTimerRunning == old(pullTimerRunning) && trace == old(trace)
    {
      var newCurrentTemperature := FieldNumber(fields, "temperatura");
      var newHeatingThresholdTemperature := FieldNumber(fields, "consigna_temperatura");
      var newHeaterActiveStatus := LegacyActiveState(Field(fields, "estado"));
      var newCurrentHeaterCoolerState := LegacyMode(Field(fields, "estado"));
      Compare(newCurrentTemperature, newHeatingThresholdTemperature, newHeaterActiveStatus, newCurrentHeaterCoolerState);
    }

    /** `Compared`, one characteristic at a time. */
    method Compare(t: Num, c: Num, a: int, m: HeaterCoolerState)
      modifies this
      ensures values == Compared(old(values), t, c, a, m).values
      ensures notifications == old(notifications) + Compared(old(values), t, c, a, m).notes
      ensures pullTimerRunning == old(pullTimerRunning) && trace == old(trace)
    {
      var w := values;
      ghost var n1, n2, n3, n4 := [], [], [], [];
      if !Eq(t, w.current) {
        w := w.(current := t);
        n1 := [TemperatureChanged(t)];
      }
      if !Eq(c, w.threshold) {
        w := w.(threshold := c);
        n2 := [ThresholdChanged(c)];
      }
      if a != w.active {
        w := w.(active := a);
        n3 := [ActiveChanged(a)];
      }
      if m != w.mode {
        w := w.(mode := m);
        n4 := [ModeChanged(m)];
      }
      values := w;
      notifications := notifications + (n1 + n2 + n3 + n4);
    }

    /** `getActive`: reads the state from the heater without storing it. */
    method GetActive(reply: HttpReply) returns (r: Outcome<int>)
      modifies this
      ensures r == ActiveOutcome(reply)
      ensures values == old(values) && notifications == old(notifications)
      ensures pullTimerRunning == !r.Lost? && trace == old(trace) + Exchange(GetStatus, r.Lost?)
    {
      pullTimerRunning := false;
      trace := trace + [TimerStopped, Sent(GetStatus)];
      if IsError(reply) {
        pullTimerRunning := true;
        trace := trace + [TimerStarted];
        return Errored;
      }
      var json := LegacyParse(reply.body);
      if json.None? {
        return Lost;
      }
      var heaterActiveStatus := LegacyActiveState(Field(json.value, "estado"));
      pullTimerRunning := true;
      trace := trace + [TimerStarted];
      return Done(heaterActiveStatus);
    }

    /**
     * `setActive`: a value equal to the stored one is acknowledged without a
     * request (and without a value); otherwise the switch is sent, and once
     * the heater accepts it the mode follows the requested value.
     */
    method SetActive(value: int, reply: HttpReply) returns (r: Outcome<Option<int>>)
      modifies this
      ensures old(values).active == value ==>
        r == Done(None) && values == old(values) && notifications == old(notifications)
        && pullTimerRunning == old(pullTimerRunning) && trace == old(trace)
      ensures old(values).active != value ==>
        && r == (if IsError(reply) then Errored else Done(Some(value)))
        && values == (if IsError(reply) then old(values) else old(values).(mode := SwitchedMode(value)))
        && notifications == old(notifications) + (if IsError(reply) then [] else [ModeChanged(SwitchedMode(value))])
        && pullTimerRunning && trace == old(trace) + Exchange(SetOnOff(value), false)
    {
      if values.active == value {
        return Done(None);
      }
      pullTimerRunning := false;
      trace := trace + [TimerStopped, Sent(SetOnOff(value))];
      if IsError(reply) {
        pullTimerRunning := true;
        trace := trace + [TimerStarted];
        return Errored;
      }
      var mode := if value != 0 then Heating else Inactive;
      values := values.(mode := mode);
      notifications := notifications + [ModeChanged(mode)];
      pullTimerRunning := true;
      trace := trace + [TimerStarted];
      return Done(Some(value));
    }

    /** `getCurrentTemperature`: reads the room temperature without storing it. */
    method GetCurrentTemperature(reply: HttpReply) returns (r: Outcome<Num>)
      modifies this
      ensures r == TemperatureOutcome(reply)
      ensures values == old(values) && notifications == old(notifications)
      ensures pullTimerRunning == !r.Lost? && trace == old(trace) + Exchange(GetStatus, r.Lost?)
    {
      pullTimerRunning := false;
      trace := trace + [TimerStopped, Sent(GetStatus)];
      if IsError(reply) {
        pullTimerRunning := true;
        trace := trace + [TimerStarted];
        return Errored;
      }
      var json := LegacyParse(reply.body);
      if json.None? {
        return Lost;
      }
      var currentTemperature := FieldNumber(json.value, "temperatura");
      pullTimerRunning := true;
      trace := trace + [TimerStarted];
      return Done(currentTemperature);
    }

    /** `setHeatingThresholdTemperature`: sends the new threshold and reports it back on success. */
    method SetHeatingThresholdTemperature(value: Num, reply: HttpReply) returns (r: Outcome<Num>)
      modifies this
      ensures r == (if IsError(reply) then Errored else Done(value))
      ensures values == old(values) && notifications == old(notifications)
      ensures pullTimerRunning && trace == old(trace) + Exchange(SetTemperature(value), false)
    {
      pullTimerRunning := false;
      trace := trace + [TimerStopped, Sent(SetTemperature(value))];
      pullTimerRunning := true;
      trace := trace + [TimerStarted];
      if IsError(reply) {
        return Errored;
      }
      return Done(value);
    }
  }

  // Properties of the refresh

  /**
   * Whatever the old values, a refresh ends holding what the heater
   * reported: the parsed temperatures and the state and mode of its code.
   */
  lemma RefreshedValues(v: LegacyValues, fields: map<string, string>)
    ensures Refreshed(v, fields).values == LegacyValues(
      LegacyActiveState(Field(fields, "estado")), LegacyMode(Field(fields, "estado")),
      FieldNumber(fields, "temperatura"), FieldNumber(fields, "consigna_temperatura"))
  {
  }

  /** After a refresh the mode is INACTIVE exactly when the heater is not ACTIVE. */
  lemma RefreshedConsistent(v: LegacyValues, fields: map<string, string>)
    ensures var w := Refreshed(v, fields).values;
      w.mode == Inactive <==> w.active == INACTIVE
  {
    RefreshedValues(v, fields);
    LegacyModeCases(Field(fields, "estado"));
  }

  /**
   * With numeric temperatures a refresh is silent exactly when it changes
   * nothing: every notification reports a value that changed.
   */
  lemma RefreshedQuietIffUnchanged(v: LegacyValues, fields: map<string, string>)
    requires FieldNumber(fields, "temperatura").Val? && FieldNumber(fields, "consigna_temperatura").Val?
    ensures Refreshed(v, fields).notes == [] <==> Refreshed(v, fields).values == v
  {
    RefreshedValues(v, fields);
  }

  /** With numeric temperatures a second refresh from the same answer changes and notifies nothing. */
  lemma RefreshedIdempotent(v: LegacyValues, fields: map<string, string>)
    requires FieldNumber(fields, "temperatura").Val? && FieldNumber(fields, "consigna_temperatura").Val?
    ensures var w := Refreshed(v, fields).values;
      Refreshed(w, fields) == Refresh(w, [])
  {
    var w := Refreshed(v, fields).values;
    RefreshedValues(v, fields);
    RefreshedValues(w, fields);
    RefreshedQuietIffUnchanged(w, fields);
  }

  /** An answer without `temperatura` stores NaN, and notifies it again on every refresh. */
  lemma MissingTemperatureRenotifies(v: LegacyValues, fields: map<string, string>)
    requires "temperatura" !in fields
    ensures var r := Refreshed(v, fields);
      r.values.current.NaN? && |r.notes| >= 1 && r.notes[0] == TemperatureChanged(NaN)
  {
  }

  /** A failed request changes nothing and keeps the timer going; an answer that does not parse stops it. */
  lemma RefreshFailures(v: LegacyValues, reply: HttpReply)
    ensures IsError(reply) ==> RefreshOutcome(v, reply) == Errored
    ensures !IsError(reply) && LegacyParse(reply.body).None? ==> RefreshOutcome(v, reply) == Lost
    ensures RefreshOutcome(v, reply).Lost? <==> ActiveOutcome(reply).Lost?
    ensures RefreshOutcome(v, reply).Lost? <==> TemperatureOutcome(reply).Lost?
  {
  }

  /** `getActive` reports the active state a refresh from the same answer stores. */
  lemma ActiveAgreesWithRefresh(v: LegacyValues, reply: HttpReply)
    ensures ActiveOutcome(reply).Done? <==> RefreshOutcome(v, reply).Done?
    ensures ActiveOutcome(reply).Done? ==>
      ActiveOutcome(reply).value == RefreshOutcome(v, reply).value.values.active
    ensures TemperatureOutcome(reply).Done? ==>
      TemperatureOutcome(reply).value == RefreshOutcome(v, reply).value.values.current
  {
    if !IsError(reply) && LegacyParse(reply.body).Some? {
      RefreshedValues(v, LegacyParse(reply.body).value);
    }
  }

  /** The mode `setActive` writes agrees with the active state the value asks for. */
  lemma SwitchedModeConsistent(value: int)
    requires value == INACTIVE || value == ACTIVE
    ensures SwitchedMode(value) == Inactive <==> value == INACTIVE
    ensures SwitchedMode(value) != Idle
  {
  }

  // A status answer, end to end

  /** The pairs of a status answer holding the state code, the room temperature and the threshold. */
  function LegacyStatusEntries(estado: string, temperature: int, threshold: int): seq<Entry>
  {
    [Entry("estado", estado),
      Entry("temperatura", TenthsText(temperature)),
      Entry("consigna_temperatura", TenthsText(threshold))]
  }

  lemma TenthsTextLegacyPlain(k: int)
    ensures LegacyPlain(TenthsText(k))
  {
    NumberText.TenthsTextAlphabet(k);
    var t := TenthsText(k);
    forall i | 0 <= i < |t|
      ensures t[i] != '=' && t[i] != '\\' && t[i] >= ' '
    {
      assert t[i] in t;
    }
  }

  lemma IdentifierLegacyPlain(s: string)
    requires HeaterStates.Identifier(s)
    ensures LegacyPlain(s)
  {
  }

  lemma LegacyStatusEntriesPlain(estado: string, temperature: int, threshold: int)
    requires LegacyPlain(estado)
    ensures var es := LegacyStatusEntries(estado, temperature, threshold);
      forall i :: 0 <= i < |es| ==> LegacyPlain(es[i].key) && LegacyPlain(es[i].value)
  {
    TenthsTextLegacyPlain(temperature);
    TenthsTextLegacyPlain(threshold);
    IdentifierLegacyPlain("estado");
    IdentifierLegacyPlain("temperatura");
    IdentifierLegacyPlain("consigna_temperatura");
  }

  /** The object the legacy decoder builds from such an answer. */
  lemma LegacyStatusMap(estado: string, temperature: int, threshold: int, footer: string)
    requires LegacyPlain(estado)
    requires footer != [] && NoLineTerminator(footer)
    ensures LegacyParse(Render(LegacyStatusEntries(estado, temperature, threshold)) + footer)
      == Some(map["estado" := estado, "temperatura" := TenthsText(temperature),
                  "consigna_temperatura" := TenthsText(threshold)])
  {
    var es := LegacyStatusEntries(estado, temperature, threshold);
    LegacyStatusEntriesPlain(estado, temperature, threshold);
    LegacyDecodeRender(es, footer);
    HeaterStates.FromThreeEntries(es[0], es[1], es[2]);
    assert es == [es[0], es[1], es[2]];
  }

  /** `parseFloat` of a field holding rendered tenths gives their value. */
  lemma FieldNumberOfTenths(fields: map<string, string>, key: string, k: int)
    requires key in fields && fields[key] == TenthsText(k)
    ensures FieldNumber(fields, key) == Val(k as real / 10.0)
  {
    NumberText.ParseFloatOfTenthsText(k, []);
    assert TenthsText(k) + [] == TenthsText(k);
  }

  /** The fields the legacy decoder reads from such an answer, with the numbers `parseFloat` gives. */
  lemma LegacyStatusFields(estado: string, temperature: int, threshold: int, footer: string)
    requires LegacyPlain(estado)
    requires footer != [] && NoLineTerminator(footer)
    ensures var parsed := LegacyParse(Render(LegacyStatusEntries(estado, temperature, threshold)) + footer);
      && parsed.Some?
      && Field(parsed.value, "estado") == Some(estado)
      && FieldNumber(parsed.value, "temperatura") == Val(temperature as real / 10.0)
      && FieldNumber(parsed.value, "consigna_temperatura") == Val(threshold as real / 10.0)
  {
    LegacyStatusMap(estado, temperature, threshold, footer);
    var fields := map["estado" := estado, "temperatura" := TenthsText(temperature),
                      "consigna_temperatura" := TenthsText(threshold)];
    FieldNumberOfTenths(fields, "temperatura", temperature);
    FieldNumberOfTenths(fields, "consigna_temperatura", threshold);
  }

  /**
   * A refresh answered by such a status answer ends holding the reported
   * temperatures, the active state of the code and its mode, whatever it held before.
   */
  lemma RefreshStatusAnswer(v: LegacyValues, estado: string, temperature: int, threshold: int, footer: string)
    requires LegacyPlain(estado)
    requires footer != [] && NoLineTerminator(footer)
    ensures var o := RefreshOutcome(v, HttpResponse(200, Render(LegacyStatusEntries(estado, temperature, threshold)) + footer));
      && o.Done?
      && o.value.values == LegacyValues(LegacyActiveState(Some(estado)), LegacyMode(Some(estado)),
                                        Val(temperature as real / 10.0), Val(threshold as real / 10.0))
  {
    var body := Render(LegacyStatusEntries(estado, temperature, threshold)) + footer;
    LegacyStatusFields(estado, temperature, threshold, footer);
    RefreshedValues(v, LegacyParse(body).value);
  }
}
