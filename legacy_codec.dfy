/**
 * The legacy accessory's decoder and status rules (index.js): the footer is
 * cut with a regular expression, the remaining `key=value` lines are turned
 * into a JSON object text and handed to `JSON.parse`, which throws on any
 * line that is not exactly one `key=value` pair.
 */
module LegacyCodec {
  import opened Wrappers
  import opened Text
  import opened Characteristics
  import opened Codec

  /** The characters `.` does not match in a regular expression: the line terminators. */
  predicate IsLineTerminator(c: char)
  {
    c == '\n' || c == '\r' || c == '\U{2028}' || c == '\U{2029}'
  }

  predicate NoLineTerminator(s: string)
  {
    forall i :: 0 <= i < |s| ==> !IsLineTerminator(s[i])
  }

  /** Where the last line starts: just after the last `\n`, or 0 when there is none. */
  function LastLineStart(s: string): (n: nat)
    ensures n <= |s|
    ensures n > 0 ==> s[n - 1] == '\n'
    ensures '\n' !in s[n..]
  {
    if s == [] then 0
    else if s[|s| - 1] == '\n' then |s|
    else
      var n := LastLineStart(s[..|s| - 1]);
      assert s[n..] == s[..|s| - 1][n..] + [s[|s| - 1]];
      n
  }

  /**
   * `replace(/\n.*$/, '')`: removes the last `\n` and what follows it, but
   * only when what follows holds no line terminator; otherwise nothing.
   */
  function StripFooter(response: string): (r: string)
    ensures |r| <= |response| && r == response[..|r|]
    ensures r != response ==> response[|r|] == '\n' && NoLineTerminator(response[|r| + 1..])
  {
    var n := LastLineStart(response);
    if n > 0 && NoLineTerminator(response[n..]) then response[..n - 1] else response
  }

  /** The number of times `c` occurs in `s`. */
  function Occurrences(s: string, c: char): nat
  {
    if s == [] then 0 else (if s[0] == c then 1 else 0) + Occurrences(s[1..], c)
  }

  /**
   * A line that becomes a valid JSON member: exactly one `=`, and neither a
   * backslash (which would start an escape) nor a control character (which a
   * JSON string cannot hold).
   */
  predicate WellFormedLine(line: string)
  {
    Occurrences(line, '=') == 1
    && forall i :: 0 <= i < |line| ==> line[i] != '\\' && line[i] >= ' '
  }

  /** The untrimmed pair of a well-formed line: the text before and after its `=`. */
  function LinePair(line: string): (e: Entry)
    ensures '=' !in e.key && '=' !in e.value
  {
    var parts := Split(line, '=');
    SplitJoin(line, '=');
    Entry(parts[0], if |parts| >= 2 then parts[1] else [])
  }

  /** The object `JSON.parse` builds: a later member with the same key overrides an earlier one. */
  function Pairs(lines: seq<string>): (m: map<string, string>)
    ensures forall k :: k in m ==> '=' !in k && '=' !in m[k]
  {
    if lines == [] then map[]
    else
      var e := LinePair(lines[|lines| - 1]);
      Pairs(lines[..|lines| - 1])[e.key := e.value]
  }

  /** `parseEcoforestResponse`; None when `JSON.parse` throws. */
  function LegacyParse(response: string): (r: Option<map<string, string>>)
    ensures r.Some? ==> forall k :: k in r.value ==> '=' !in k && '=' !in r.value[k]
    ensures '\\' in StripFooter(response) ==> r.None?
  {
    var lines := Split(StripFooter(response), '\n');
    SplitJoin(StripFooter(response), '\n');
    InJoin(lines, '\n', '\\');
    if forall i :: 0 <= i < |lines| ==> WellFormedLine(lines[i]) then Some(Pairs(lines)) else None
  }

  /**
   * `getEcoforestHeaterActiveState`: the legacy accessory checks the same list
   * of running codes as the current one, so the rule is shared.
   */
  function LegacyActiveState(estado: Option<string>): (r: int)
    ensures r == ACTIVE || r == INACTIVE
    ensures r == ACTIVE <==> estado.Some? && IsRunningCode(estado.value)
  {
    DetermineHeaterActiveState(estado)
  }

  /** `getEcoforestCurrentHeaterCoolerState`: code `20` means IDLE, other running codes HEATING. */
  function LegacyMode(estado: Option<string>): (m: HeaterCoolerState)
    ensures m == Inactive <==> LegacyActiveState(estado) == INACTIVE
    ensures m == Idle <==> estado == Some("20")
  {
    if LegacyActiveState(estado) != INACTIVE then
      if estado == Some("20") then Idle else Heating
    else Inactive
  }

  // Properties of the footer cut

  /** Text without a `\n` is kept whole. */
  lemma StripWithoutNewline(s: string)
    requires '\n' !in s
    ensures StripFooter(s) == s
  {
  }

  /** A final `\n` is all that is cut: the footer line before it survives. */
  lemma StripTrailingNewline(s: string)
    ensures StripFooter(s + "\n") == s
  {
    var t := s + "\n";
    assert t[..|t| - 1] == s;
  }

  /** A footer line without line terminators is cut together with the `\n` before it. */
  lemma StripFooterLine(body: string, footer: string)
    requires footer != [] && NoLineTerminator(footer)
    ensures StripFooter(body + "\n" + footer) == body
  {
    var t := body + "\n" + footer;
    var n := LastLineStart(t);
    assert t[|body|] == '\n';
    assert t[n..] == footer;
    assert t[..n - 1] == body;
  }

  /** A footer holding a carriage return is not cut at all. */
  lemma CarriageReturnKeepsFooter(body: string, footer: string)
    requires '\n' !in footer && '\r' in footer
    ensures StripFooter(body + "\n" + footer) == body + "\n" + footer
  {
    var t := body + "\n" + footer;
    var n := LastLineStart(t);
    assert t[|body|] == '\n';
    assert t[n..] == footer;
    var j :| 0 <= j < |footer| && footer[j] == '\r';
    assert !NoLineTerminator(t[n..]) by {
      assert IsLineTerminator(t[n..][j]);
    }
  }

  // Properties of the decoded object

  lemma {:induction false} OccurrencesAppend(a: string, b: string, c: char)
    ensures Occurrences(a + b, c) == Occurrences(a, c) + Occurrences(b, c)
  {
    if a != [] {
      assert (a + b)[0] == a[0] && (a + b)[1..] == a[1..] + b;
      OccurrencesAppend(a[1..], b, c);
    } else {
      assert a + b == b;
    }
  }

  lemma {:induction false} NoOccurrences(s: string, c: char)
    requires c !in s
    ensures Occurrences(s, c) == 0
  {
    if s != [] {
      NoOccurrences(s[1..], c);
    }
  }

  /** Text the heater can send as a key or a value of the legacy decoder. */
  predicate LegacyPlain(s: string)
  {
    forall i :: 0 <= i < |s| ==> s[i] != '=' && s[i] != '\\' && s[i] >= ' '
  }

  /** A `key=value` line of legacy-plain text is well formed and gives back its pair, untrimmed. */
  lemma PlainLinePair(e: Entry)
    requires LegacyPlain(e.key) && LegacyPlain(e.value)
    ensures WellFormedLine(EntryLine(e)) && LinePair(EntryLine(e)) == e
  {
    var line := EntryLine(e);
    assert '=' !in e.key && '=' !in e.value;
    assert line == e.key + (['='] + e.value);
    OccurrencesAppend(e.key, ['='] + e.value, '=');
    OccurrencesAppend(['='], e.value, '=');
    NoOccurrences(e.key, '=');
    NoOccurrences(e.value, '=');
    assert Occurrences(['='], '=') == 1;
    assert line == e.key + ['='] + e.value;
    SplitAtSeparator(e.key, e.value, '=');
    SplitWithoutSeparator(e.key, '=');
    SplitWithoutSeparator(e.value, '=');
  }

  /** A non-empty rendering ends with the `\n` of its last line. */
  lemma {:induction false} RenderEndsWithNewline(es: seq<Entry>)
    requires es != []
    ensures |Render(es)| > 0 && Render(es)[|Render(es)| - 1] == '\n'
  {
    var line := EntryLine(es[0]);
    if |es| == 1 {
      assert Render(es) == line + "\n" + Render([]);
    } else {
      RenderEndsWithNewline(es[1..]);
      assert Render(es) == line + "\n" + Render(es[1..]);
    }
  }

  lemma {:induction false} PairsOfEntryLines(es: seq<Entry>)
    requires forall i :: 0 <= i < |es| ==> LegacyPlain(es[i].key) && LegacyPlain(es[i].value)
    ensures Pairs(EntryLines(es)) == FromEntries(es)
  {
    if es != [] {
      var n := |es| - 1;
      assert EntryLines(es)[..n] == EntryLines(es[..n]);
      PairsOfEntryLines(es[..n]);
      PlainLinePair(es[n]);
    }
  }

  /** A text ending with `\n` is what precedes it followed by that `\n`. */
  lemma DropLastNewline(s: string)
    requires s != [] && s[|s| - 1] == '\n'
    ensures s == s[..|s| - 1] + "\n"
  {
  }

  /** The lines of a rendering without its final `\n` are the entries' lines. */
  lemma SplitRenderedBody(es: seq<Entry>)
    requires es != [] && SingleLineEntries(es)
    ensures |Render(es)| > 0
    ensures Split(Render(es)[..|Render(es)| - 1], '\n') == EntryLines(es)
  {
    RenderEndsWithNewline(es);
    var r := Render(es);
    var body := r[..|r| - 1];
    assert r + [] == body + ['\n'] + [];
    SplitRendered(es, []);
    SplitAtSeparator(body, [], '\n');
    var lines := Split(body, '\n');
    assert lines + [[]] == EntryLines(es) + [[]];
    assert lines == (lines + [[]])[..|lines|];
  }

  /** Lines of legacy-plain pairs hold no line break and are well formed. */
  lemma PlainLines(es: seq<Entry>)
    requires forall i :: 0 <= i < |es| ==> LegacyPlain(es[i].key) && LegacyPlain(es[i].value)
    ensures SingleLineEntries(es)
    ensures forall i :: 0 <= i < |es| ==> WellFormedLine(EntryLine(es[i]))
  {
    forall i | 0 <= i < |es|
      ensures '\n' !in EntryLine(es[i]) && WellFormedLine(EntryLine(es[i]))
    {
      PlainLinePair(es[i]);
      var line := EntryLine(es[i]);
      assert forall j :: 0 <= j < |line| ==> line[j] != '\n';
    }
  }

  /** Well-formed lines before a footer line decode to their pairs. */
  lemma ParseBeforeFooter(body: string, footer: string)
    requires footer != [] && NoLineTerminator(footer)
    requires var lines := Split(body, '\n'); forall i :: 0 <= i < |lines| ==> WellFormedLine(lines[i])
    ensures LegacyParse(body + "\n" + footer) == Some(Pairs(Split(body, '\n')))
  {
    StripFooterLine(body, footer);
  }

  /**
   * The legacy decoder inverts the heater's encoding: the untrimmed pairs
   * before a footer without line terminators come back as their map.
   */
  lemma LegacyDecodeRender(es: seq<Entry>, footer: string)
    requires es != []
    requires forall i :: 0 <= i < |es| ==> LegacyPlain(es[i].key) && LegacyPlain(es[i].value)
    requires footer != [] && NoLineTerminator(footer)
    ensures LegacyParse(Render(es) + footer) == Some(FromEntries(es))
  {
    PlainLines(es);
    var body := RenderedBody(es, footer);
    var lines := Split(body, '\n');
    assert forall i :: 0 <= i < |lines| ==> WellFormedLine(lines[i]) by {
      forall i | 0 <= i < |lines|
        ensures WellFormedLine(lines[i])
      {
        assert lines[i] == EntryLine(es[i]);
      }
    }
    ParseBeforeFooter(body, footer);
    PairsOfEntryLines(es);
  }

  /** A rendering followed by a footer is the entries' lines, a `\n` and the footer. */
  lemma RenderedBody(es: seq<Entry>, footer: string) returns (body: string)
    requires es != [] && SingleLineEntries(es)
    ensures Render(es) + footer == body + "\n" + footer
    ensures Split(body, '\n') == EntryLines(es)
  {
    RenderEndsWithNewline(es);
    SplitRenderedBody(es);
    var r := Render(es);
    body := r[..|r| - 1];
    DropLastNewline(r);
  }

  /** A kept line without `=` makes `JSON.parse` throw. */
  lemma LineWithoutSeparatorFails(response: string, i: int)
    requires var lines := Split(StripFooter(response), '\n'); 0 <= i < |lines| && '=' !in lines[i]
    ensures LegacyParse(response) == None
  {
    var lines := Split(StripFooter(response), '\n');
    NoOccurrences(lines[i], '=');
  }

  /** A kept line with a second `=` makes `JSON.parse` throw. */
  lemma SecondSeparatorFails(e: Entry, extra: string, footer: string)
    requires LegacyPlain(e.key) && LegacyPlain(e.value) && LegacyPlain(extra)
    requires footer != [] && NoLineTerminator(footer)
    ensures LegacyParse(EntryLine(e) + "=" + extra + "\n" + footer) == None
  {
    var line := EntryLine(e) + "=" + extra;
    StripFooterLine(line, footer);
    assert '\n' !in line by {
      assert forall i :: 0 <= i < |line| ==> line[i] >= ' ' || line[i] == '=';
    }
    SplitWithoutSeparator(line, '\n');
    PlainLinePair(e);
    assert '=' !in extra;
    NoOccurrences(extra, '=');
    assert line == EntryLine(e) + ("=" + extra);
    OccurrencesAppend(EntryLine(e), "=" + extra, '=');
    OccurrencesAppend("=", extra, '=');
    assert Occurrences("=", '=') == 1;
    assert !WellFormedLine(line);
    assert Split(StripFooter(EntryLine(e) + "=" + extra + "\n" + footer), '\n')[0] == line;
  }

  // Properties of the status rules

  /**
   * The legacy mode is INACTIVE exactly for codes that are not running, IDLE
   * exactly for `20`, and HEATING for the other running codes.
   */
  lemma LegacyModeCases(estado: Option<string>)
    ensures LegacyMode(estado) == Inactive <==> LegacyActiveState(estado) == INACTIVE
    ensures LegacyMode(estado) == Idle <==> estado == Some("20")
    ensures LegacyMode(estado) == Heating <==> estado.Some? && estado.value in ActiveCodes - {"20"}
  {
  }
}
