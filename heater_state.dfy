/**
 * The accessory's `heaterState` record and what each of its operations does
 * to it (src/platformAccessory.ts), as functions from the state before, the
 * operation's arguments and the heater's reply to the state after and the
 * notifications pushed to the host framework on the way.
 */
module HeaterStates {
  import opened Wrappers
  import opened Text
  import opened Numbers
  import opened Characteristics
  import opened Device
  import opened Codec
  import opened Control
  import opened TemperatureFile
  import NumberText

  datatype HeaterState = HeaterState(
    active: int,               // Active
    mode: HeaterCoolerState,   // CurrentHeaterCoolerState
    target: int,               // TargetHeaterCoolerState
    current: Num,              // CurrentTemperature
    threshold: Num,            // HeatingThresholdTemperature
    power: Num)                // CurrentPower

  /** The record's initial values. */
  const Initial := HeaterState(INACTIVE, Inactive, HEAT, Val(20.2), Val(22.5), Val(1.0))

  /** A new state and the notifications (`updateValue` calls) pushed while reaching it. */
  datatype Step = Step(state: HeaterState, notes: seq<Notification>)

  /** The stored mode is the one the active flag and the temperatures call for. */
  predicate ModeConsistent(s: HeaterState)
  {
    s.mode == DeriveMode(s.active, s.current, s.threshold)
  }

  /** `refreshCurrentHeaterCoolerState`: writes and pushes the derived mode when it differs. */
  function RefreshMode(s: HeaterState): (r: Step)
    ensures ModeConsistent(r.state) && r.state.(mode := s.mode) == s
    ensures r.notes == (if r.state.mode == s.mode then [] else [ModeChanged(r.state.mode)])
  {
    var m := DeriveMode(s.active, s.current, s.threshold);
    if m == s.mode then Step(s, []) else Step(s.(mode := m), [ModeChanged(m)])
  }

  /** `Number(x)` of a field that may be missing (`Number(undefined)` is NaN). */
  function NumberOf(field: Option<string>): (n: Num)
    ensures field.None? ==> n.NaN?
  {
    match field
    case None => NaN
    case Some(text) => JsNumber(text)
  }

  /** The request `setActiveState` sends: none when the value is already the stored one. */
  function SetActiveCommands(s: HeaterState, value: int): (cs: seq<Command>)
    ensures |cs| <= 1 && (cs == [] <==> s.active == value)
  {
    if s.active == value then [] else [SetOnOff(value)]
  }

  /** `setActiveState`: on a successful on/off request, stores the value and re-derives the mode. */
  function SetActive(s: HeaterState, value: int, reply: Reply): (r: Step)
    ensures r.state.(active := s.active, mode := s.mode) == s
    ensures r.state.active == s.active || r.state.active == value
  {
    if s.active == value || reply.Failed? then Step(s, [])
    else RefreshMode(s.(active := value))
  }

  /** `getActiveState`: on a status reply, stores the classified status; the mode is not re-derived. */
  function GetActive(s: HeaterState, reply: Reply): (r: HeaterState)
    ensures r.(active := s.active) == s
    ensures reply.Answered? ==> r.active == ACTIVE || r.active == INACTIVE
  {
    match reply
    case Failed => s
    case Answered(body) => s.(active := DetermineHeaterActiveState(Field(Decode(body), "estado")))
  }

  /**
   * `setTargetHeatingCoolingState`: stores the value; an inactive heater is
   * also switched on, and the Active value pushed right after is the one
   * stored before that request completes.
   */
  function SetTarget(s: HeaterState, value: int, reply: Reply): (r: Step)
    ensures r.state.target == value
    ensures r.state.(active := s.active, mode := s.mode, target := s.target) == s
  {
    var s1 := s.(target := value);
    if s.active == INACTIVE then
      var on := SetActive(s1, ACTIVE, reply);
      Step(on.state, [ActiveChanged(s1.active)] + on.notes)
    else Step(s1, [])
  }

  /** `setCurrentTemperature`: stores the value rounded to one decimal and re-derives the mode. */
  function SetCurrentTemperature(s: HeaterState, value: Num): (r: Step)
    ensures r.state.current == Round1(value) && ModeConsistent(r.state)
    ensures r.state.(current := s.current, mode := s.mode) == s
  {
    RefreshMode(s.(current := Round1(value)))
  }

  /** `setHeatingThresholdTemperature`: on success stores the value rounded to one decimal. */
  function SetThreshold(s: HeaterState, value: Num, reply: Reply): (r: Step)
    ensures r.state.(threshold := s.threshold, mode := s.mode) == s
    ensures r.state.threshold == s.threshold || r.state.threshold == Round1(value)
  {
    if reply.Failed? then Step(s, []) else RefreshMode(s.(threshold := Round1(value)))
  }

  /** `setHeaterPower`: on success stores the level. */
  function SetHeaterPower(s: HeaterState, value: Num, reply: Reply): (r: HeaterState)
    ensures r.(power := s.power) == s
    ensures reply.Failed? ==> r == s
    ensures reply.Answered? ==> r.power == value
  {
    if reply.Failed? then s else s.(power := value)
  }

  /**
   * `updateStatusFromHeater`: a failed status request changes nothing; a
   * reply is decoded and reconciled with the state.
   */
  function Poll(s: HeaterState, reply: Reply): (r: Step)
    ensures r.state.current == s.current && r.state.target == s.target
    ensures reply.Failed? ==> r == Step(s, [])
    ensures reply.Answered? ==> var fields := Decode(reply.body);
      && r.state.power == NumberOf(Field(fields, "consigna_potencia"))
      && r.state.threshold == NumberOf(Field(fields, "consigna_temperatura"))
      && r.state.active == DetermineHeaterActiveState(Field(fields, "estado"))
      && ModeConsistent(r.state)
  {
    match reply
    case Failed => Step(s, [])
    case Answered(body) => Reconcile(s, Decode(body))
  }

  /**
   * Takes power, threshold and active flag from the decoded fields, pushes
   * the threshold and the flag where they changed, and re-derives the mode.
   */
  function Reconcile(s: HeaterState, fields: map<string, string>): (r: Step)
    ensures ModeConsistent(r.state)
    ensures r.state.current == s.current && r.state.target == s.target
    ensures r.state.power == NumberOf(Field(fields, "consigna_potencia"))
    ensures r.state.threshold == NumberOf(Field(fields, "consigna_temperatura"))
    ensures r.state.active == DetermineHeaterActiveState(Field(fields, "estado"))
    ensures r.state.active == ACTIVE || r.state.active == INACTIVE
  {
    var power := NumberOf(Field(fields, "consigna_potencia"));
    var threshold := NumberOf(Field(fields, "consigna_temperatura"));
    var active := DetermineHeaterActiveState(Field(fields, "estado"));
    var pushed := (if Eq(threshold, s.threshold) then [] else [ThresholdChanged(threshold)])
      + (if active == s.active then [] else [ActiveChanged(active)]);
    var m := RefreshMode(s.(power := power, threshold := threshold, active := active));
    Step(m.state, pushed + m.notes)
  }

  /**
   * `updateTemperatureFromFile`: without a configured file, on a read error
   * and for a blank file nothing changes; otherwise the reading replaces the
   * room temperature and is pushed when it differs. The mode is not re-derived.
   */
  function FileUpdate(s: HeaterState, hasFile: bool, read: FileRead): (r: Step)
    ensures r.state.(current := s.current) == s
    ensures !hasFile ==> r == Step(s, [])
  {
    if !hasFile || read.ReadError? then Step(s, [])
    else
      match FileTemperature(read.data)
      case None => Step(s, [])
      case Some(t) => if Eq(t, s.current) then Step(s, []) else Step(s.(current := t), [TemperatureChanged(t)])
  }

  /** The power levels `updatePowerIfNeeded` requests in state `s`. */
  function PowerLevels(cfg: PowerConfig, s: HeaterState): (levels: seq<Num>)
    ensures s.active != ACTIVE ==> levels == []
  {
    PowerCommands(cfg, s.active, s.current, s.threshold, s.power)
  }

  /**
   * `updatePowerIfNeeded`: the requested levels are sent in order, the first
   * answered by `first` and a second by `second`; each successful one is stored.
   */
  function PowerUpdate(cfg: PowerConfig, s: HeaterState, first: Reply, second: Reply): (r: HeaterState)
    ensures r.(power := s.power) == s
  {
    var levels := PowerLevels(cfg, s);
    if |levels| == 0 then s
    else if |levels| == 1 then SetHeaterPower(s, levels[0], first)
    else SetHeaterPower(SetHeaterPower(s, levels[0], first), levels[1], second)
  }

  /** The configuration of one accessory that the refresh cycle depends on. */
  datatype Settings = Settings(power: PowerConfig, hasTemperatureFile: bool)

  /**
   * `refreshAccessoryStatus`: the status poll, then the file reading, then the
   * power decision, then the mode.
   */
  function Cycle(cfg: Settings, s: HeaterState, poll: Reply, read: FileRead, first: Reply, second: Reply): (r: Step)
    ensures ModeConsistent(r.state) && r.state.target == s.target
  {
    var p := Poll(s, poll);
    var f := FileUpdate(p.state, cfg.hasTemperatureFile, read);
    var w := PowerUpdate(cfg.power, f.state, first, second);
    var m := RefreshMode(w);
    Step(m.state, p.notes + f.notes + m.notes)
  }

  /** The requests of one refresh cycle: the status poll and the power levels. */
  function CycleCommands(cfg: Settings, s: HeaterState, poll: Reply, read: FileRead): (cs: seq<Command>)
    ensures 1 <= |cs| <= 3 && cs[0] == GetStatus
  {
    var f := FileUpdate(Poll(s, poll).state, cfg.hasTemperatureFile, read).state;
    CommandsAreBounds(cfg.power, f.active, f.current, f.threshold, f.power);
    [GetStatus] + SetPowerCommands(PowerLevels(cfg.power, f))
  }

  function SetPowerCommands(levels: seq<Num>): (cs: seq<Command>)
    ensures |cs| == |levels|
  {
    seq(|levels|, i requires 0 <= i < |levels| => SetPower(levels[i]))
  }

  // Properties of the mode refresh

  /** Re-deriving the mode establishes the mode invariant and touches nothing else. */
  lemma RefreshModeSpec(s: HeaterState)
    ensures var r := RefreshMode(s);
      && ModeConsistent(r.state) && r.state.(mode := s.mode) == s
      && (r.notes == [] <==> ModeConsistent(s))
  {
  }

  /** Refreshing twice is refreshing once: the second call writes and pushes nothing. */
  lemma RefreshModeIdempotent(s: HeaterState)
    ensures RefreshMode(RefreshMode(s).state) == Step(RefreshMode(s).state, [])
  {
  }

  // Properties of the setters

  /** Asking for the Active value already stored sends nothing and changes nothing. */
  lemma SetActiveUnchangedValue(s: HeaterState, value: int, reply: Reply)
    requires s.active == value
    ensures SetActiveCommands(s, value) == [] && SetActive(s, value, reply) == Step(s, [])
  {
  }

  /**
   * A new Active value is requested; it is stored, with the mode re-derived,
   * exactly when the request succeeds, and nothing changes when it fails.
   */
  lemma SetActiveOutcome(s: HeaterState, value: int, reply: Reply)
    requires s.active != value
    ensures SetActiveCommands(s, value) == [SetOnOff(value)]
    ensures var r := SetActive(s, value, reply).state;
      && (reply.Answered? ==> r.active == value && ModeConsistent(r) && r.(active := s.active, mode := s.mode) == s)
      && (reply.Failed? ==> r == s)
  {
    RefreshModeSpec(s.(active := value));
  }

  /** After a successful switch, asking for the same value again is a no-op. */
  lemma SetActiveIdempotent(s: HeaterState, value: int, reply: Reply, again: Reply)
    requires reply.Answered?
    ensures var r := SetActive(s, value, reply).state;
      SetActiveCommands(r, value) == [] && SetActive(r, value, again) == Step(r, [])
  {
  }

  /** A status reply sets Active from the status code and leaves the mode as it was. */
  lemma GetActiveOutcome(s: HeaterState, reply: Reply)
    ensures reply.Failed? ==> GetActive(s, reply) == s
    ensures reply.Answered? ==> var r := GetActive(s, reply);
      && r.mode == s.mode && r.(active := s.active) == s
      && (r.active == ACTIVE <==>
            (Field(Decode(reply.body), "estado").Some? && Field(Decode(reply.body), "estado").value in ActiveCodes))
  {
    if reply.Answered? {
      var estado := Field(Decode(reply.body), "estado");
      if estado.Some? {
        ActiveCodesAreRunningCodes(estado.value);
      }
    }
  }

  /**
   * Choosing a target mode stores it; an inactive heater is switched on, and
   * the first notification pushes the Active value from before the switch.
   */
  lemma SetTargetOutcome(s: HeaterState, value: int, reply: Reply)
    ensures SetTarget(s, value, reply).state.target == value
    ensures s.active != INACTIVE ==> SetTarget(s, value, reply) == Step(s.(target := value), [])
    ensures s.active == INACTIVE ==> var r := SetTarget(s, value, reply);
      && r.notes != [] && r.notes[0] == ActiveChanged(INACTIVE)
      && (reply.Answered? ==>
            r.state.active == ACTIVE && ModeConsistent(r.state)
            && r.state.(active := s.active, mode := s.mode) == s.(target := value))
      && (reply.Failed? ==> r.state == s.(target := value))
  {
    if s.active == INACTIVE {
      SetActiveOutcome(s.(target := value), ACTIVE, reply);
    }
  }

  /** A threshold is stored, rounded to one decimal, only when the request succeeds. */
  lemma SetThresholdOutcome(s: HeaterState, value: Num, reply: Reply)
    ensures var r := SetThreshold(s, value, reply).state;
      && (reply.Failed? ==> r == s)
      && (reply.Answered? ==>
            r.threshold == Round1(value) && ModeConsistent(r) && r.(threshold := s.threshold, mode := s.mode) == s)
      && (reply.Answered? && value.Val? ==> IsTenth(r.threshold.v) && value.v - 0.05 < r.threshold.v <= value.v + 0.05)
  {
    RefreshModeSpec(s.(threshold := Round1(value)));
  }

  /** Setting the same threshold twice is setting it once. */
  lemma SetThresholdIdempotent(s: HeaterState, value: Num, reply: Reply, again: Reply)
    requires reply.Answered? && again.Answered?
    ensures var r := SetThreshold(s, value, reply).state;
      SetThreshold(r, value, again) == Step(r, [])
  {
    var r := SetThreshold(s, value, reply).state;
    RefreshModeSpec(s.(threshold := Round1(value)));
    assert r.(threshold := Round1(value)) == r;
  }

  /** A room temperature set by the host is stored rounded to one decimal with the mode re-derived. */
  lemma SetCurrentTemperatureOutcome(s: HeaterState, value: Num)
    ensures var r := SetCurrentTemperature(s, value).state;
      && r.current == Round1(value) && ModeConsistent(r)
      && r.(current := s.current, mode := s.mode) == s
  {
    RefreshModeSpec(s.(current := Round1(value)));
  }

  // Properties of the poll

  /** A poll leaves the temperature and the target alone; a successful one establishes the mode invariant. */
  lemma PollOutcome(s: HeaterState, reply: Reply)
    ensures var r := Poll(s, reply).state;
      && r.current == s.current && r.target == s.target
      && (reply.Failed? ==> Poll(s, reply) == Step(s, []))
      && (reply.Answered? ==> ModeConsistent(r))
  {
    if reply.Answered? {
      var fields := Decode(reply.body);
      RefreshModeSpec(s.(power := NumberOf(Field(fields, "consigna_potencia")),
        threshold := NumberOf(Field(fields, "consigna_temperatura")),
        active := DetermineHeaterActiveState(Field(fields, "estado"))));
    }
  }

  /**
   * What a status answer pushes: the threshold and Active exactly when the
   * reported value differs from the stored one, the mode exactly when the
   * re-derived mode differs, and nothing else.
   */
  lemma ReconcilePushes(s: HeaterState, fields: map<string, string>)
    ensures var r := Reconcile(s, fields);
      && (forall x :: ThresholdChanged(x) in r.notes <==> x == r.state.threshold && !Eq(x, s.threshold))
      && (forall a :: ActiveChanged(a) in r.notes <==> a == r.state.active && a != s.active)
      && (forall m :: ModeChanged(m) in r.notes <==> m == r.state.mode && m != s.mode)
      && (forall n :: n in r.notes ==> !n.TemperatureChanged?)
  {
    var u := s.(power := NumberOf(Field(fields, "consigna_potencia")),
      threshold := NumberOf(Field(fields, "consigna_temperatura")),
      active := DetermineHeaterActiveState(Field(fields, "estado")));
    var m := RefreshMode(u);
    assert m.notes == [] || m.notes == [ModeChanged(m.state.mode)];
  }

  /**
   * A status answer sets power, threshold and Active to the reported fields
   * (`Number` of the two numbers, the classified `estado`), re-derives the
   * mode, and pushes exactly what changed.
   */
  lemma PollAnswered(s: HeaterState, body: string)
    ensures var r := Poll(s, Answered(body)); var fields := Decode(body);
      && r.state == s.(power := NumberOf(Field(fields, "consigna_potencia")),
                       threshold := NumberOf(Field(fields, "consigna_temperatura")),
                       active := DetermineHeaterActiveState(Field(fields, "estado")),
                       mode := r.state.mode)
      && ModeConsistent(r.state)
      && (forall x :: ThresholdChanged(x) in r.notes <==> x == r.state.threshold && !Eq(x, s.threshold))
      && (forall a :: ActiveChanged(a) in r.notes <==> a == r.state.active && a != s.active)
      && (forall m :: ModeChanged(m) in r.notes <==> m == r.state.mode && m != s.mode)
      && (forall n :: n in r.notes ==> !n.TemperatureChanged?)
  {
    ReconcilePushes(s, Decode(body));
  }

  /**
   * Fields are written and pushed only when they change: repeating a poll
   * with the same reply changes and pushes nothing, provided the reported
   * threshold is a number (NaN never compares equal).
   */
  lemma PollIdempotent(s: HeaterState, reply: Reply, again: Reply)
    requires reply.Answered? && again == reply
    requires NumberOf(Field(Decode(reply.body), "consigna_temperatura")).Val?
    ensures var r := Poll(s, reply).state;
      Poll(r, again) == Step(r, [])
  {
    var fields := Decode(reply.body);
    var u := s.(power := NumberOf(Field(fields, "consigna_potencia")),
      threshold := NumberOf(Field(fields, "consigna_temperatura")),
      active := DetermineHeaterActiveState(Field(fields, "estado")));
    RefreshModeSpec(u);
    var r := Poll(s, reply).state;
    assert r.(power := u.power, threshold := u.threshold, active := u.active) == r;
  }

  /**
   * An answer that is empty or a single line after trimming decodes to no
   * fields at all, and the poll still goes ahead: `Number(undefined)` makes
   * power and threshold NaN, the threshold is pushed, and a missing status
   * code switches the heater's Active value and mode to INACTIVE.
   */
  lemma PollWithoutFields(s: HeaterState, body: string)
    requires '\n' !in Trim(body)
    ensures var r := Poll(s, Answered(body));
      && r.state == s.(power := NaN, threshold := NaN, active := INACTIVE, mode := Inactive)
      && r.notes != [] && r.notes[0] == ThresholdChanged(NaN)
  {
    SingleLineDecodesEmpty(body);
    RefreshModeSpec(s.(power := NaN, threshold := NaN, active := INACTIVE));
  }

  /**
   * The status reply of a heater reporting `estado`, a whole power level and
   * a threshold in tenths of a degree, before its footer.
   */
  function StatusReply(estado: string, power: nat, threshold: int, footer: string): string
  {
    Render(StatusEntries(estado, power, threshold)) + footer
  }

  /** Rendered tenths can stand as a value in the heater's response. */
  lemma TenthsTextPlain(k: int)
    ensures Plain(TenthsText(k))
  {
    NumberText.TenthsTextAlphabet(k);
    var t := TenthsText(k);
    forall i | 0 <= i < |t|
      ensures !IsSpace(t[i]) && t[i] != '='
    {
      assert t[i] in t;
    }
  }

  /** The map of three pairs with different keys. */
  lemma FromThreeEntries(a: Entry, b: Entry, c: Entry)
    requires a.key != b.key && a.key != c.key && b.key != c.key
    ensures FromEntries([a, b, c]) == map[a.key := a.value, b.key := b.value, c.key := c.value]
  {
    assert [a, b, c][..2] == [a, b];
    assert [a, b][..1] == [a];
    assert [a][..0] == [];
    assert FromEntries([a]) == map[a.key := a.value];
    assert FromEntries([a, b]) == map[a.key := a.value, b.key := b.value];
  }

  /** A power level's digits can stand as a value in the heater's response. */
  lemma NatTextPlain(n: nat)
    ensures Plain(NatText(n))
  {
    var t := NatText(n);
    forall i | 0 <= i < |t|
      ensures !IsSpace(t[i]) && t[i] != '='
    {
      assert IsDigit(t[i]);
    }
  }

  /** Lower-case letters and underscores, as in the heater's field names. */
  predicate Identifier(s: string)
  {
    forall i :: 0 <= i < |s| ==> 'a' <= s[i] <= 'z' || s[i] == '_'
  }

  lemma IdentifierPlain(s: string)
    requires s != [] && Identifier(s)
    ensures s != [] && Plain(s)
  {
  }

  /** The pairs of a status reply. */
  function StatusEntries(estado: string, power: nat, threshold: int): seq<Entry>
  {
    [Entry("estado", estado),
      Entry("consigna_potencia", NatText(power)),
      Entry("consigna_temperatura", TenthsText(threshold))]
  }

  lemma StatusEntriesPlain(estado: string, power: nat, threshold: int)
    requires estado != [] && Plain(estado)
    ensures var es := StatusEntries(estado, power, threshold);
      forall i :: 0 <= i < |es| ==> PlainEntry(es[i])
  {
    NatTextPlain(power);
    TenthsTextPlain(threshold);
    IdentifierPlain("estado");
    IdentifierPlain("consigna_potencia");
    IdentifierPlain("consigna_temperatura");
    var es := StatusEntries(estado, power, threshold);
    assert PlainEntry(es[0]) && PlainEntry(es[1]) && PlainEntry(es[2]);
  }

  /** The fields the heater's status reply decodes to. */
  lemma DecodeStatusReply(estado: string, power: nat, threshold: int, footer: string)
    requires estado != [] && Plain(estado)
    requires footer != [] && !IsSpace(footer[0]) && '\n' !in TrimEnd(footer)
    ensures var fields := Decode(StatusReply(estado, power, threshold, footer));
      && Field(fields, "estado") == Some(estado)
      && Field(fields, "consigna_potencia") == Some(NatText(power))
      && Field(fields, "consigna_temperatura") == Some(TenthsText(threshold))
  {
    var es := StatusEntries(estado, power, threshold);
    StatusEntriesPlain(estado, power, threshold);
    DecodeRender(es, footer);
    assert StatusReply(estado, power, threshold, footer) == Render(es) + footer;
    FromThreeEntries(es[0], es[1], es[2]);
    assert es == [es[0], es[1], es[2]];
  }

  /**
   * Decoding, number reading and classification compose: a poll answered by
   * such a reply stores exactly the reported power, threshold and running state.
   */
  lemma PollStatusReply(s: HeaterState, estado: string, power: nat, threshold: int, footer: string)
    requires estado != [] && Plain(estado)
    requires footer != [] && !IsSpace(footer[0]) && '\n' !in TrimEnd(footer)
    ensures var r := Poll(s, Answered(StatusReply(estado, power, threshold, footer))).state;
      && r.power == Val(power as real)
      && r.threshold == Val(threshold as real / 10.0)
      && (r.active == ACTIVE <==> estado in ActiveCodes)
  {
    DecodeStatusReply(estado, power, threshold, footer);
    NumberText.NumberOfNatText(power);
    NumberText.NumberOfTenthsText(threshold);
    ActiveCodesAreRunningCodes(estado);
  }

  // Properties of the file reading and the power update

  /**
   * Only the room temperature can change, and only to the file's reading; a
   * reading that differs from the stored temperature (NaN always does)
   * replaces it and is pushed, and an equal one changes and pushes nothing.
   */
  lemma FileUpdateOutcome(s: HeaterState, hasFile: bool, read: FileRead)
    ensures var r := FileUpdate(s, hasFile, read);
      && r.state.(current := s.current) == s
      && (!hasFile || read.ReadError? ==> r == Step(s, []))
      && (r.state.current != s.current ==> read.Content? && FileTemperature(read.data) == Some(r.state.current))
      && (r.notes == [] || r.notes == [TemperatureChanged(r.state.current)])
      && (r.state != s ==> r.notes != [])
    ensures hasFile && read.Content? && FileTemperature(read.data).None? ==> FileUpdate(s, hasFile, read) == Step(s, [])
    ensures hasFile && read.Content? && FileTemperature(read.data).Some? ==>
      var t := FileTemperature(read.data).value;
      && (!Eq(t, s.current) ==> FileUpdate(s, hasFile, read) == Step(s.(current := t), [TemperatureChanged(t)]))
      && (Eq(t, s.current) ==> FileUpdate(s, hasFile, read) == Step(s, []))
  {
  }

  /** The power update changes only the power, and only to a level it requested. */
  lemma PowerUpdateOutcome(cfg: PowerConfig, s: HeaterState, first: Reply, second: Reply)
    ensures var r := PowerUpdate(cfg, s, first, second);
      && r.(power := s.power) == s
      && (r.power == s.power || r.power == cfg.minPower || r.power == cfg.maxPower)
      && (first.Failed? && second.Failed? ==> r == s)
  {
    CommandsAreBounds(cfg, s.active, s.current, s.threshold, s.power);
  }

  /**
   * With sane tolerances at most one level is requested, and once it is
   * stored the same temperatures request nothing more.
   */
  lemma PowerUpdateSettles(cfg: PowerConfig, s: HeaterState, first: Reply, second: Reply)
    requires SaneTolerances(cfg) && cfg.minPower.Val? && cfg.maxPower.Val?
    requires first.Answered?
    ensures PowerLevels(cfg, PowerUpdate(cfg, s, first, second)) == []
  {
    if s.active == ACTIVE {
      CommandSettles(cfg, s.current, s.threshold, s.power);
    }
  }

  // Properties of the refresh cycle

  /** Whatever the replies, a refresh cycle ends with the mode invariant holding. */
  lemma CycleModeConsistent(cfg: Settings, s: HeaterState, poll: Reply, read: FileRead, first: Reply, second: Reply)
    ensures ModeConsistent(Cycle(cfg, s, poll, read, first, second).state)
  {
    var p := Poll(s, poll);
    var f := FileUpdate(p.state, cfg.hasTemperatureFile, read);
    RefreshModeSpec(PowerUpdate(cfg.power, f.state, first, second));
  }

  /** Without a temperature file a refresh cycle keeps the room temperature. */
  lemma CycleWithoutFileKeepsTemperature(cfg: Settings, s: HeaterState, poll: Reply, read: FileRead, first: Reply, second: Reply)
    requires !cfg.hasTemperatureFile
    ensures Cycle(cfg, s, poll, read, first, second).state.current == s.current
  {
    PollOutcome(s, poll);
    var f := FileUpdate(Poll(s, poll).state, false, read);
    PowerUpdateOutcome(cfg.power, f.state, first, second);
    RefreshModeSpec(PowerUpdate(cfg.power, f.state, first, second));
  }

  /**
   * With a temperature file configured, a reading in the file is the room
   * temperature the cycle ends with, whatever the poll and the power requests did.
   */
  lemma CycleWithFileAdoptsReading(cfg: Settings, s: HeaterState, poll: Reply, read: FileRead, first: Reply, second: Reply)
    requires cfg.hasTemperatureFile && read.Content? && FileTemperature(read.data).Some?
    ensures Cycle(cfg, s, poll, read, first, second).state.current == FileTemperature(read.data).value
  {
    var p := Poll(s, poll);
    FileUpdateOutcome(p.state, true, read);
    var f := FileUpdate(p.state, true, read);
    PowerUpdateOutcome(cfg.power, f.state, first, second);
    RefreshModeSpec(PowerUpdate(cfg.power, f.state, first, second));
  }

  /**
   * A failed poll does not stop the rest of the cycle: the file reading, the
   * power decision and the mode run on the state as it was.
   */
  lemma CycleAfterFailedPoll(cfg: Settings, s: HeaterState, read: FileRead, first: Reply, second: Reply)
    ensures var f := FileUpdate(s, cfg.hasTemperatureFile, read);
      Cycle(cfg, s, Failed, read, first, second).state == RefreshMode(PowerUpdate(cfg.power, f.state, first, second)).state
      && CycleCommands(cfg, s, Failed, read) == [GetStatus] + SetPowerCommands(PowerLevels(cfg.power, f.state))
  {
  }

  /**
   * A heater that was off reports running status `3`, power 4 and threshold
   * 21.0; there is no temperature file, the room is at 20.0 and the
   * tolerances are 0.5 with power levels 1 to 9. The cycle stores the
   * reported values, finds the room too cold and asks for power 9, and ends
   * HEATING.
   */
  lemma CycleScenario(s: HeaterState, footer: string, read: FileRead, first: Reply, second: Reply)
    requires s.active == INACTIVE && s.current == Val(20.0) && s.threshold == Val(22.0) && s.power == Val(7.0)
    requires footer != [] && !IsSpace(footer[0]) && '\n' !in TrimEnd(footer)
    requires first.Answered?
    ensures var cfg := Settings(PowerConfig(Val(0.5), Val(0.5), Val(1.0), Val(9.0)), false);
      var r := Cycle(cfg, s, Answered(StatusReply("3", 4, 210, footer)), read, first, second).state;
      && CycleCommands(cfg, s, Answered(StatusReply("3", 4, 210, footer)), read) == [GetStatus, SetPower(Val(9.0))]
      && r.active == ACTIVE && r.threshold == Val(21.0) && r.power == Val(9.0) && r.mode == Heating
  {
    var cfg := Settings(PowerConfig(Val(0.5), Val(0.5), Val(1.0), Val(9.0)), false);
    var reply := Answered(StatusReply("3", 4, 210, footer));
    ScenarioPoll(s, footer);
    var p := Poll(s, reply);
    ScenarioAfterPoll(p.state, read, first, second);
  }

  /** The poll of the scenario: the heater is on, at power 4 and threshold 21.0. */
  lemma ScenarioPoll(s: HeaterState, footer: string)
    requires s.current == Val(20.0)
    requires footer != [] && !IsSpace(footer[0]) && '\n' !in TrimEnd(footer)
    ensures var p := Poll(s, Answered(StatusReply("3", 4, 210, footer))).state;
      p.active == ACTIVE && p.threshold == Val(21.0) && p.power == Val(4.0) && p.current == Val(20.0)
  {
    assert Plain("3");
    PollStatusReply(s, "3", 4, 210, footer);
    assert "3" in ActiveCodes;
    PollOutcome(s, Answered(StatusReply("3", 4, 210, footer)));
  }

  /** The rest of the scenario's cycle: no file, the maximum level requested and stored, and HEATING. */
  lemma ScenarioAfterPoll(p: HeaterState, read: FileRead, first: Reply, second: Reply)
    requires p.active == ACTIVE && p.threshold == Val(21.0) && p.power == Val(4.0) && p.current == Val(20.0)
    requires first.Answered?
    ensures var cfg := PowerConfig(Val(0.5), Val(0.5), Val(1.0), Val(9.0));
      var f := FileUpdate(p, false, read).state;
      var r := RefreshMode(PowerUpdate(cfg, f, first, second)).state;
      && PowerLevels(cfg, f) == [Val(9.0)]
      && r.active == ACTIVE && r.threshold == Val(21.0) && r.power == Val(9.0) && r.mode == Heating
  {
    var cfg := PowerConfig(Val(0.5), Val(0.5), Val(1.0), Val(9.0));
    assert FileUpdate(p, false, read) == Step(p, []);
    TooColdCommandsMax(cfg, p.current, p.threshold, p.power);
    assert PowerLevels(cfg, p) == [Val(9.0)];
    var w := PowerUpdate(cfg, p, first, second);
    assert w == p.(power := Val(9.0));
    assert DeriveMode(w.active, w.current, w.threshold) == Heating;
  }
}
