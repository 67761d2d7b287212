# Ecoforest thermostat accessory, modelled in Dafny

This project models the accessory that connects an Ecoforest pellet heater to
a home-automation host (HomeKit through Homebridge). It covers two versions.

The current accessory is `EcoforestThermostatAccessory` in
`src/platformAccessory.ts`. It keeps a `heaterState` record and has these jobs:

- It decodes the heater's `key=value` status answers.
- It reconciles the record with them and pushes only real changes to the host.
- It reads the room temperature from an optional sensor file.
- It runs a hysteresis rule that sets the heater's power to its minimum or
  maximum level.
- It derives the operating mode (INACTIVE, IDLE or HEATING) from the active
  flag and the temperatures.

The legacy accessory is `EcoforestThermostat` in `index.js`. It decodes the
same answers by turning them into JSON text. It classifies the state code
itself, and it stops and restarts a pull timer around every request.

## Structure

- `text.dfy` (`Text`): JavaScript's `trim`, with its white-space set, and
  `split` on one character. Includes the split/join laws.
- `numbers.dfy` (`Numbers`) and `number_text.dfy` (`NumberText`): JavaScript
  numbers, written `Num = Val(real) | NaN`.
  - Comparisons are false whenever NaN is involved, and `+`/`-` propagate NaN.
  - `Number(text)` is `JsNumber`, `parseFloat` is `ParseFloat`, and
    `Math.round(x * 10) / 10` is `Round1`.
  - It also gives the text of a number with one decimal, proved to read back
    as that number.
- `characteristics.dfy`, `device.dfy`: the host's characteristic values and
  notifications, and the heater's commands.
  - A call to the heater is one atomic step.
  - Its reply is an input of the operation that makes it (`Reply`).
- `codec.dfy` (`Codec`): `parseEcoforestResponse` and
  `determineHeaterActiveState`, with the encoding the heater uses (`Render`).
- `control.dfy` (`Control`): the mode rule of `refreshCurrentHeaterCoolerState`
  and the power rule of `updatePowerIfNeeded`.
- `temperature_file.dfy` (`TemperatureFile`): the parsing part of
  `updateTemperatureFromFile`. It is a loop over the lines, as in the source.
- `heater_state.dfy` (`HeaterStates`): what each operation does to the
  `heaterState` record, as a function.
  - The inputs are the state before, the arguments and the heater's reply.
  - The outputs are the state after and the notifications (`updateValue`
    calls) pushed on the way.
- `accessory.dfy` (`Accessory`): the class with the record as a mutable field.
  Each method is proved to update it, the ghost log of requests sent and the
  ghost log of notifications exactly as the functions of `HeaterStates` say.
- `legacy_codec.dfy` (`LegacyCodec`) and `legacy.dfy` (`Legacy`): the legacy
  decoder and classifiers, and the legacy class with its characteristic
  values, its pull-timer flag and a ghost trace of timer stops, timer starts
  and requests.

Decisions worth knowing when reading the proofs:

- Temperatures and power levels are exact rationals. Binary floating-point
  rounding is not modelled.
- Requests the source does not await (`setHeaterPower` inside
  `updatePowerIfNeeded`, `setActiveState` inside
  `setTargetHeatingCoolingState`) are modelled by the order of their effects.
  - Every decision is taken on the state before any of those requests
    completes.
  - The requests then complete one after the other.
- The model follows the code as written, including these behaviours:
  - `updatePowerIfNeeded` tests "too hot" and "too cold" with two separate
    `if`s, not with `else if`. With sane tolerances (`SaneTolerances`) both
    can never hold, which `Control.NotHotAndCold` proves.
  - A failed `setActiveState` request is logged and not reported to the host.
    The model leaves the state unchanged and reports nothing.
  - An answer with no fields is not treated as a failed request.
    `updateStatusFromHeater` applies it like any other answer, so power and
    threshold become NaN and the heater reads as INACTIVE
    (`HeaterStates.PollWithoutFields`).

## Model

| member | source | states |
|---|---|---|
| Codec.LineEntry | src/platformAccessory.ts:356-361 | A line without `=` gives nothing; a pair taken from a line has a trimmed key and value, neither holding `=`. |
| Codec.ParseEcoforestResponse | src/platformAccessory.ts:350-366 | The loop over all lines but the last of the trimmed answer builds exactly the map `Decode` denotes. |
| Codec.CollectKeys | src/platformAccessory.ts:355-363 | A key is in the decoded map exactly when some kept line yields a pair with that key. |
| Codec.CollectLastWins | src/platformAccessory.ts:355-363 | When a key repeats, the value of its last line wins. |
| Codec.SingleLineDecodesEmpty | src/platformAccessory.ts:351-355 | An answer of one line (after trimming) decodes to the empty map, because the last line is always dropped. |
| Codec.FooterIgnored | src/platformAccessory.ts:351-355 | The footer line does not reach the map: the result depends only on the lines before it. |
| Codec.SecondSeparatorTruncates | src/platformAccessory.ts:358-360 | Only the text between the first and the second `=` is kept as the value. |
| Codec.PlainLineEntry | src/platformAccessory.ts:356-360 | A `key=value` line of plain text gives back its pair. |
| Codec.DecodeRender | src/platformAccessory.ts:350-366 | Round trip: decoding the heater's encoding of plain pairs, followed by a one-line footer that starts with a non-space and may end in white space or line breaks, gives back their map (a repeated key keeps its last value). |
| Codec.DecodeRenderWithoutFooter | src/platformAccessory.ts:350-366 | Without a footer, or with only white space after the pairs, `trim` removes the final line break, so the last pair is the line dropped and only the pairs before it come back. |
| Codec.SplitRendered | src/platformAccessory.ts:351 | Splitting a rendered answer at `\n` gives its lines followed by the footer. |
| Codec.DetermineHeaterActiveState | src/platformAccessory.ts:368-373 | ACTIVE exactly for the codes 1 to 7, 10 and 20, INACTIVE otherwise, including a missing code. |
| Codec.ActiveCodesAreRunningCodes | src/platformAccessory.ts:369-370 | The listed codes are exactly the decimal numerals without leading zeros whose value is 1 to 7, 10 or 20. |
| Codec.Field | src/platformAccessory.ts:229 | A field is present exactly when its key is in the decoded map, and then it is that key's value. |
| Control.DeriveMode | src/platformAccessory.ts:375-386 | INACTIVE exactly when the heater is not ACTIVE; HEATING exactly when it is ACTIVE and the room is at or below the threshold (a NaN comparison is false); IDLE otherwise. |
| Control.PowerCommands | src/platformAccessory.ts:301-320 | An inactive heater is asked for nothing; every requested level is the minimum with the room too hot and the power not already at the minimum, or the maximum with the room too cold and the power not already at the maximum. |
| Control.HeatingMonotone | src/platformAccessory.ts:379-383 | Lowering the room temperature or raising the threshold keeps HEATING. |
| Control.BoundaryIsHeating | src/platformAccessory.ts:381 | A room temperature equal to the threshold is HEATING (`<=`). |
| Control.UnknownTemperatureIsIdle | src/platformAccessory.ts:381-383 | An active heater with a NaN temperature or threshold is IDLE. |
| Control.InactiveCommandsNothing | src/platformAccessory.ts:304 | An inactive heater is never asked for a power level. |
| Control.CommandsAreBounds | src/platformAccessory.ts:306-318 | At most two levels are requested, each the minimum or the maximum. |
| Control.InBandCommandsNothing | src/platformAccessory.ts:306-318 | Inside the tolerance band, boundaries included, nothing is requested. |
| Control.HotBoundaryCommandsNothing | src/platformAccessory.ts:306 | A reading exactly at threshold plus hot tolerance requests nothing (strict `>`). |
| Control.ColdBoundaryCommandsNothing | src/platformAccessory.ts:313 | A reading exactly at threshold minus cold tolerance requests nothing (strict `<`). |
| Control.NotHotAndCold | src/platformAccessory.ts:306-318 | With numeric tolerances of non-negative sum, the room is never too hot and too cold at once. |
| Control.TooHotCommandsMin | src/platformAccessory.ts:306-311 | Too hot with the power off its minimum requests exactly the minimum. |
| Control.TooColdCommandsMax | src/platformAccessory.ts:313-318 | Too cold with the power off its maximum requests exactly the maximum. |
| Control.CommandSettles | src/platformAccessory.ts:301-320 | At most one level is requested, and once it is in place the same temperatures request nothing more. |
| Control.CommandAgreesWithMode | src/platformAccessory.ts:301-320 | With non-negative tolerances the maximum is only requested while the mode is HEATING, the minimum only while it is IDLE. |
| Control.HysteresisExamples | src/platformAccessory.ts:301-320 | Threshold 22.5, tolerances 0.5, levels 1 and 9: 23.1 requests 1, 21.9 requests 9, 22.6 nothing, an inactive heater nothing. |
| TemperatureFile.FileTemperature | src/platformAccessory.ts:266-288 | There is a reading exactly when the file is not blank, and every numeric reading has one decimal. |
| TemperatureFile.ReadTemperature | src/platformAccessory.ts:266-288 | The loop over the lines yields the reading `FileTemperature` defines: none for a blank file, the whole file for a bare first line, else the last `temperature:` line or 0. |
| TemperatureFile.ScannedLastWins | src/platformAccessory.ts:280-287 | The last `temperature:` line wins over earlier ones. |
| TemperatureFile.ScannedDefault | src/platformAccessory.ts:266 | Without a `temperature:` line the reading is 0. |
| TemperatureFile.BlankFileKeepsTemperature | src/platformAccessory.ts:271-274 | An empty or blank file gives no reading. |
| TemperatureFile.TemperatureLineReading | src/platformAccessory.ts:281-285 | A `temperature:<t>` line reads as the value of `t`. |
| TemperatureFile.TemperatureFileReading | src/platformAccessory.ts:276-288 | A file holding only `temperature:<t>` reads as `t`. |
| TemperatureFile.BareFileReading | src/platformAccessory.ts:277-278 | A file holding only a non-negative one-decimal number reads as that number. |
| TemperatureFile.NegativeBareFileReadsZero | src/platformAccessory.ts:266-288 | A file holding only a negative number fails the first-line pattern, has no `temperature:` line, and reads as 0. |
| HeaterStates.RefreshMode | src/platformAccessory.ts:375-393 | The stored mode ends up as the rule derives it, and nothing else changes. |
| HeaterStates.NumberOf | src/platformAccessory.ts:229-236 | A missing field reads as NaN (`Number(undefined)`). |
| HeaterStates.SetActiveCommands | src/platformAccessory.ts:117-121 | At most one request, and none exactly when the value is the stored one. |
| HeaterStates.SetActive | src/platformAccessory.ts:117-131 | Only Active and the mode can change, and Active only to the requested value. |
| HeaterStates.GetActive | src/platformAccessory.ts:133-139 | Only Active can change, and a status reply makes it ACTIVE or INACTIVE. |
| HeaterStates.SetTarget | src/platformAccessory.ts:147-156 | The target is stored; besides it only Active and the mode can change. |
| HeaterStates.SetCurrentTemperature | src/platformAccessory.ts:164-168 | The rounded value is stored and the mode is consistent with it; nothing else changes. |
| HeaterStates.SetThreshold | src/platformAccessory.ts:176-185 | Only the threshold and the mode can change, and the threshold only to the rounded request. |
| HeaterStates.SetHeaterPower | src/platformAccessory.ts:193-203 | A failed request leaves the state as it was; a successful one stores the requested level, and nothing but the power ever changes. |
| HeaterStates.Poll | src/platformAccessory.ts:222-257 | A failed status request changes and pushes nothing; an answer stores `Number` of `consigna_potencia` and `consigna_temperatura` and the classified `estado`, and leaves the mode consistent; the room temperature and target never change. |
| HeaterStates.PollAnswered | src/platformAccessory.ts:228-256 | For any answer, only power, threshold, Active and mode change, to the reported values; the threshold and Active are pushed exactly when they differ from the stored ones, the mode exactly when it changes, the temperature never. |
| HeaterStates.Reconcile | src/platformAccessory.ts:228-254 | Power, threshold and Active take the decoded fields (Active always ACTIVE or INACTIVE), the mode is made consistent, and the room temperature and target are kept. |
| HeaterStates.ReconcilePushes | src/platformAccessory.ts:228-254 | The threshold is pushed exactly when the reported one differs (`!=`, so a NaN threshold always is), Active exactly when it differs, the mode exactly when re-derivation changes it, and no temperature. |
| HeaterStates.FileUpdate | src/platformAccessory.ts:259-299 | Only the room temperature can change, and nothing changes without a configured file. |
| HeaterStates.PowerLevels | src/platformAccessory.ts:301-304 | An inactive heater is asked for no level. |
| HeaterStates.PowerUpdate | src/platformAccessory.ts:301-320 | Only the power can change. |
| HeaterStates.Cycle | src/platformAccessory.ts:72-78 | Every cycle ends with the mode consistent and the target unchanged. |
| HeaterStates.CycleCommands | src/platformAccessory.ts:72-78 | A cycle sends the status request first and at most two power requests after it. |
| HeaterStates.RefreshModeSpec | src/platformAccessory.ts:375-393 | Re-deriving the mode establishes the mode invariant, changes nothing else, and pushes the mode exactly when it changed. |
| HeaterStates.RefreshModeIdempotent | src/platformAccessory.ts:375-393 | A second re-derivation writes and pushes nothing. |
| HeaterStates.SetActiveUnchangedValue | src/platformAccessory.ts:118-121 | Setting the stored Active value sends nothing and changes nothing. |
| HeaterStates.SetActiveOutcome | src/platformAccessory.ts:117-131 | Otherwise one on/off request is sent; on success the value is stored and the mode re-derived, and on failure nothing changes. |
| HeaterStates.SetActiveIdempotent | src/platformAccessory.ts:117-131 | After a successful switch, setting the same value again is a no-op. |
| HeaterStates.GetActiveOutcome | src/platformAccessory.ts:133-139 | A status reply stores the classified Active value and leaves the mode as it was; a failure changes nothing. |
| HeaterStates.SetTargetOutcome | src/platformAccessory.ts:147-156 | The target is stored. An inactive heater is also switched on, and the Active value pushed is the inactive one stored before the switch completes. A successful switch changes only Active and the re-derived mode besides the target; a failed one only the target. |
| HeaterStates.SetThresholdOutcome | src/platformAccessory.ts:176-185 | The threshold is stored only when the request succeeds, rounded to a value with one decimal within 0.05 of the request; nothing else but the re-derived mode changes. |
| HeaterStates.SetThresholdIdempotent | src/platformAccessory.ts:176-185 | Setting the same threshold twice is setting it once. |
| HeaterStates.SetCurrentTemperatureOutcome | src/platformAccessory.ts:164-168 | A temperature set by the host is stored rounded to one decimal, with the mode re-derived. |
| HeaterStates.PollOutcome | src/platformAccessory.ts:222-257 | A poll leaves temperature and target alone; a failed one changes and pushes nothing; a successful one establishes the mode invariant. |
| HeaterStates.PollWithoutFields | src/platformAccessory.ts:222-257 | An empty or one-line answer decodes to no fields and is still applied: power and threshold become NaN, the threshold is pushed, and Active and the mode become INACTIVE. |
| HeaterStates.PollIdempotent | src/platformAccessory.ts:222-257 | Polling twice with the same answer, whose threshold is a number, changes and pushes nothing the second time. |
| HeaterStates.DecodeStatusReply | src/platformAccessory.ts:226-244 | A status answer with code, a whole power level written as plain digits (`4`) and a one-decimal threshold, followed by a one-line footer (trailing white space and line breaks allowed), decodes to those three fields. |
| HeaterStates.PollStatusReply | src/platformAccessory.ts:222-257 | A poll answered by such an answer stores exactly the reported power and threshold, and ACTIVE exactly for a running code. |
| HeaterStates.FileUpdateOutcome | src/platformAccessory.ts:259-299 | With a file configured and read, a reading that differs from the stored temperature (NaN always does) is stored and pushed, and an equal one or a blank file changes nothing. Without a file or on a read error nothing changes. Only the room temperature ever changes, and a change is always pushed. |
| HeaterStates.CycleWithFileAdoptsReading | src/platformAccessory.ts:72-78 | With a temperature file configured, a cycle ends with the file's reading as the room temperature, whatever the poll and the power requests did. |
| HeaterStates.PowerUpdateOutcome | src/platformAccessory.ts:301-320 | The power update changes only the power, only to the minimum or the maximum, and nothing when both requests fail. |
| HeaterStates.PowerUpdateSettles | src/platformAccessory.ts:301-320 | With sane tolerances, once the requested level succeeded the next decision requests nothing. |
| HeaterStates.CycleModeConsistent | src/platformAccessory.ts:72-78 | Whatever the replies, a refresh cycle ends with the mode invariant holding. |
| HeaterStates.CycleWithoutFileKeepsTemperature | src/platformAccessory.ts:259-262 | Without a temperature file a refresh cycle keeps the room temperature. |
| HeaterStates.CycleAfterFailedPoll | src/platformAccessory.ts:72-78 | A failed poll makes the cycle the file update, the power rule and the mode on the unchanged state. |
| HeaterStates.CycleScenario | src/platformAccessory.ts:72-78 | End to end: from an inactive heater at 20.0 with threshold 22.0 and power 7, the answer `estado=3`, power 4, threshold 21.0 leads to ACTIVE, threshold 21.0, the maximum level requested and stored, and HEATING. |
| Numbers.JsNumber | src/platformAccessory.ts:229-236 | Blank text is 0, and text that cannot start a decimal numeral is NaN. |
| Numbers.ParseFloat | index.js:99-106 | Text whose first non-space character cannot start a decimal numeral is NaN. |
| Numbers.Round1 | src/platformAccessory.ts:165 | The result has one decimal and lies within 0.05 of the input; NaN stays NaN. |
| NumberText.NumberOfTenthsText | src/platformAccessory.ts:236 | `Number` reads back exactly the value a one-decimal text was written from. |
| NumberText.NumberOfNatText | src/platformAccessory.ts:229 | `Number` reads back exactly the value of plain digits. |
| NumberText.ParseFloatOfTenthsText | index.js:99-106 | `parseFloat` reads a one-decimal text back exactly, whatever non-digit text follows it. |
| NumberText.RoundedNumberOfTenthsText | src/platformAccessory.ts:284 | Rounding a one-decimal reading to one decimal leaves it unchanged. |
| Accessory.OrDefault | src/platformAccessory.ts:48-49 | A configured non-zero power bound is kept; a missing, zero or NaN one falls back to its default. |
| Accessory.ConfigNumber | src/platformAccessory.ts:46-47 | A configured tolerance is used as it is; a missing one is NaN. |
| Accessory.EcoforestThermostatAccessory.constructor | src/platformAccessory.ts:26-49 | The record starts at its initial values, with the configured tolerances and power bounds. |
| Accessory.EcoforestThermostatAccessory.RefreshCurrentHeaterCoolerState | src/platformAccessory.ts:375-393 | Updates the record and pushes as `RefreshMode` says. |
| Accessory.EcoforestThermostatAccessory.SetActiveState | src/platformAccessory.ts:117-131 | Updates the record, the requests and the pushes as `SetActive` says. |
| Accessory.EcoforestThermostatAccessory.GetActiveState | src/platformAccessory.ts:133-139 | Sends a status request, stores the classified value and returns it, or returns nothing on failure. |
| Accessory.EcoforestThermostatAccessory.SetTargetHeatingCoolingState | src/platformAccessory.ts:147-156 | Updates the record as `SetTarget` says; the switch-on request is sent only for an inactive heater. |
| Accessory.EcoforestThermostatAccessory.SetCurrentTemperature | src/platformAccessory.ts:164-168 | Updates the record as `SetCurrentTemperature` says, without a request. |
| Accessory.EcoforestThermostatAccessory.SetHeatingThresholdTemperature | src/platformAccessory.ts:176-185 | Sends the threshold and updates the record as `SetThreshold` says. |
| Accessory.EcoforestThermostatAccessory.SetHeaterPower | src/platformAccessory.ts:193-203 | Sends the level and stores it on success, without a push. |
| Accessory.EcoforestThermostatAccessory.UpdateStatusFromHeater | src/platformAccessory.ts:222-257 | Sends a status request and reconciles the record with the answer as `Poll` says. |
| Accessory.EcoforestThermostatAccessory.UpdateTemperatureFromFile | src/platformAccessory.ts:259-299 | Updates the room temperature from the file as `FileUpdate` says, without a request. |
| Accessory.EcoforestThermostatAccessory.UpdatePowerIfNeeded | src/platformAccessory.ts:301-320 | Sends the levels the rule decides on the state before, in order, and stores each successful one. |
| Accessory.EcoforestThermostatAccessory.RefreshAccessoryStatus | src/platformAccessory.ts:72-78 | Poll, file, power and mode in that order, with the requests and pushes of `Cycle`. |
| LegacyCodec.StripFooter | index.js:66 | The result is a prefix of the answer; when something is cut, it is a `\n` and a last line without line terminators. |
| LegacyCodec.LinePair | index.js:66-67 | The key and the value of a line's pair hold no `=`. |
| LegacyCodec.Pairs | index.js:66-67 | No key or value of the parsed object holds `=`. |
| LegacyCodec.LegacyParse | index.js:65-68 | A parsed object has no `=` in its keys or values, and a backslash in the kept text makes the parse fail. |
| LegacyCodec.LegacyActiveState | index.js:70-75 | ACTIVE exactly for a present running code (1 to 7, 10, 20 without leading zeros), INACTIVE otherwise; the same list as the current accessory, so it is the shared rule Codec.DetermineHeaterActiveState. |
| LegacyCodec.LegacyMode | index.js:77-82 | INACTIVE exactly when the legacy state is INACTIVE, and IDLE exactly for code `20`. |
| LegacyCodec.StripWithoutNewline | index.js:66 | An answer without `\n` loses nothing to the footer cut. |
| LegacyCodec.StripTrailingNewline | index.js:66 | A final `\n` is all that is cut, so a footer followed by `\n` survives. |
| LegacyCodec.StripFooterLine | index.js:66 | A last line without line terminators is cut together with the `\n` before it. |
| LegacyCodec.CarriageReturnKeepsFooter | index.js:66 | A last line holding `\r` is not cut at all. |
| LegacyCodec.PlainLinePair | index.js:66-67 | A `key=value` line without `=`, backslash or control characters in its parts is accepted and gives back its untrimmed pair. |
| LegacyCodec.LegacyDecodeRender | index.js:65-68 | Round trip: the heater's encoding of such pairs followed by a one-line footer decodes to their map. |
| LegacyCodec.LineWithoutSeparatorFails | index.js:66-67 | A kept line without `=` makes the parse fail. |
| LegacyCodec.SecondSeparatorFails | index.js:66-67 | A kept line with a second `=` makes the parse fail. |
| LegacyCodec.LegacyModeCases | index.js:77-82 | INACTIVE exactly for codes that are not running, IDLE exactly for `20`, HEATING for the other running codes. |
| Legacy.EcoforestThermostat.constructor | index.js:42-43 | The pull timer is started. |
| Legacy.EcoforestThermostat.RefreshEcoforestThermostatStatus | index.js:84-130 | Stops the timer and sends a status request. An error changes nothing. A parse failure leaves the timer stopped. Otherwise the values and pushes are those of `Refreshed` and the timer restarts. |
| Legacy.EcoforestThermostat.Compare | index.js:99-125 | The four compare-and-update steps store and push exactly what `Compared` says. |
| Legacy.EcoforestThermostat.GetActive | index.js:132-156 | Reports the classified code, or an error, or never answers when the parse fails; nothing is stored. |
| Legacy.EcoforestThermostat.SetActive | index.js:158-188 | The stored value is acknowledged without a request and without touching the timer. Otherwise the switch is sent, and on success the mode becomes HEATING for a non-zero value and INACTIVE for zero. |
| Legacy.EcoforestThermostat.GetCurrentTemperature | index.js:190-214 | Reports `parseFloat` of `temperatura`, NaN when it is missing, or an error, or never answers when the parse fails. |
| Legacy.EcoforestThermostat.SetHeatingThresholdTemperature | index.js:216-237 | Sends the threshold, restarts the timer, and reports the value back unless the request failed. |
| Legacy.Compared | index.js:99-125 | The four steps end holding the four new values; each characteristic is pushed, with its new value, exactly when that value differs (`!=`) from the one held before. |
| Legacy.Refreshed | index.js:98-125 | A refresh holds `parseFloat` of the two temperatures and the active state and mode of the code. |
| Legacy.FieldNumber | index.js:99-106 | A missing field reads as NaN. |
| Legacy.Exchange | index.js:84-130 | Each exchange stops the timer and sends the request, and restarts the timer unless the answer threw. |
| Legacy.RefreshOutcome | index.js:84-130 | A refresh errs exactly on a transport or HTTP error, and is lost only when the parse fails. |
| Legacy.ActiveOutcome | index.js:132-156 | Errs exactly on a transport or HTTP error, and reports only ACTIVE or INACTIVE. |
| Legacy.TemperatureOutcome | index.js:190-214 | Errs exactly on a transport or HTTP error; a numeric report comes from a parsed `temperatura` field. |
| Legacy.SwitchedMode | index.js:181-182 | Never IDLE, and INACTIVE exactly for the value INACTIVE. |
| Legacy.RefreshedValues | index.js:98-125 | Whatever it held before, a refresh ends holding the parsed temperatures and the state and mode of the code. |
| Legacy.RefreshedConsistent | index.js:113-125 | After a refresh the mode is INACTIVE exactly when the heater is not ACTIVE. |
| Legacy.RefreshedQuietIffUnchanged | index.js:99-125 | With numeric temperatures a refresh pushes nothing exactly when it changes nothing. |
| Legacy.RefreshedIdempotent | index.js:99-125 | With numeric temperatures a second refresh from the same answer changes and pushes nothing. |
| Legacy.MissingTemperatureRenotifies | index.js:99-104 | A missing `temperatura` stores NaN and is pushed again on every refresh, because NaN differs from itself. |
| Legacy.RefreshFailures | index.js:84-98 | An error changes nothing. An answer that does not parse is lost, for the refresh and for both getters alike. |
| Legacy.ActiveAgreesWithRefresh | index.js:132-156 | `getActive` and `getCurrentTemperature` report what a refresh from the same answer stores. |
| Legacy.SwitchedModeConsistent | index.js:181-182 | The mode `setActive` writes is INACTIVE exactly for the value INACTIVE, and never IDLE. |
| Legacy.LegacyStatusFields | index.js:98-113 | A status answer with code, temperature and threshold parses, and its numbers read as those values. |
| Legacy.RefreshStatusAnswer | index.js:84-130 | A refresh answered by such an answer ends holding the reported temperatures, the code's active state and its mode. |

## Left out

- The single-flight mutex, HTTP transport, authentication, TLS and time-outs
  are not modelled. Each request is one atomic step whose reply is an input.
  Concurrent interleavings of handlers are not modelled.
- Timers are not modelled beyond their effects. This covers `setInterval` in
  `startRefreshTimer` and the legacy `PullTimer`'s firing. The legacy model
  keeps only whether the timer runs and the order of stops and starts.
- Logging is not modelled.
- The Homebridge wiring is left out: `initializeHeaterCoolerCharacteristics`,
  `getServices`, `identify` and the pure getters that return a stored value.
- `initializaAccessoryInformationCharacteristics` and its information request
  (operation 1020) are left out. It only copies information fields (model,
  serial number, firmware) to the host.
- Reading the file itself is an input (`FileRead`). A read error and a missing
  file behave alike.
- The host framework records the value a set or get handler reports. That
  bookkeeping belongs to the host and is not modelled: the legacy class keeps
  only the values its handlers write themselves.
- An exception thrown by a failed legacy parse escapes the request callback.
  The model records only that neither the timer nor the host callback is
  called again. What the process does with the uncaught exception is outside
  the model.
- Numbers.JsNumber: exponents, hexadecimal, binary and octal forms,
  `Infinity` and signed zero are not modelled. It covers decimal numerals with
  an optional sign and fraction, as the heater and the sensor file write them,
  and reads any other text as NaN (JavaScript reads `1e3` as 1000).
- Numbers.ParseFloat: it reads the longest prefix of the form sign, digits,
  point, digits and stops at the first character outside it. So an exponent
  is ignored rather than read (`1e3` gives 1, where JavaScript gives 1000),
  `Infinity` gives NaN, and signed zero is not modelled. Only text with no
  digit in that prefix gives NaN.
- LegacyCodec.LegacyParse: a line holding a backslash is treated as a parse
  failure, although `JSON.parse` accepts some backslash escapes. Quotes are
  escaped by the source, so they are accepted like other characters.
- Accessory.OrDefault: a power bound configured as a string is not modelled;
  configured bounds are numbers or absent.
- Temperatures are exact rationals. The last-bit effects of binary floating
  point in `Math.round(x * 10) / 10` and in `+`/`-` are not modelled.
