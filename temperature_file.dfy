/**
 * The room temperature read from the configured file
 * (`updateTemperatureFromFile` in src/platformAccessory.ts): either the whole
 * file is one bare number, or the last `temperature:<value>` line wins.
 */
module TemperatureFile {
  import opened Wrappers
  import opened Text
  import opened Numbers
  import opened NumberText

  /** What reading the file gives: its text, or an error (missing file, no permission). */
  datatype FileRead = Content(data: string) | ReadError

  /** One `\r` at the end of a line is part of its `\r\n` terminator. */
  function DropCarriageReturn(s: string): string
  {
    if s != [] && s[|s| - 1] == '\r' then s[..|s| - 1] else s
  }

  /** `data.split(/\r?\n/)`: lines ended by `\n` or `\r\n`; the last piece has no terminator. */
  function SplitLines(data: string): (r: seq<string>)
    ensures |r| == |Split(data, '\n')| && |r| >= 1
    ensures r[|r| - 1] == Split(data, '\n')[|r| - 1]
  {
    var pieces := Split(data, '\n');
    seq(|pieces|, i requires 0 <= i < |pieces| =>
      if i < |pieces| - 1 then DropCarriageReturn(pieces[i]) else pieces[i])
  }

  /** The number of leading `.` characters. */
  function LeadingDots(s: string): (n: nat)
    ensures n <= |s|
  {
    if s != [] && s[0] == '.' then 1 + LeadingDots(s[1..]) else 0
  }

  /** The first-line test `/^[0-9]+\.*[0-9]*$/`: digits, any number of points, digits. */
  predicate BareNumber(line: string)
  {
    var n := LeadingDigits(line);
    n > 0 && AllDigits(line[n..][LeadingDots(line[n..])..])
  }

  /**
   * A `temperature:<value>` line: one holding `:` whose text before the first
   * `:` is exactly `temperature`; its reading is the text between the first
   * and the second `:`, rounded to one decimal.
   */
  function LineTemperature(line: string): Option<Num>
  {
    if ':' in line then
      SplitOfContaining(line, ':');
      var value := Split(line, ':');
      if value[0] == "temperature" then Some(Round1(JsNumber(value[1]))) else None
    else None
  }

  /** The reading of the last `temperature:` line, or 0 when there is none. */
  function Scanned(lines: seq<string>): (t: Num)
    ensures t.NaN? || IsTenth(t.v)
  {
    if lines == [] then Val(0.0)
    else
      match LineTemperature(lines[|lines| - 1])
      case Some(t) => t
      case None => Scanned(lines[..|lines| - 1])
  }

  /**
   * The new room temperature the file gives, or None when the file is empty
   * or blank and the previous temperature is kept.
   */
  function FileTemperature(data: string): (r: Option<Num>)
    ensures r.None? <==> Trim(data) == []
    ensures r.Some? ==> r.value.NaN? || IsTenth(r.value.v)
  {
    if Trim(data) == [] then None
    else
      var lines := SplitLines(data);
      if BareNumber(lines[0]) then Some(Round1(JsNumber(data)))
      else Some(Scanned(lines))
  }

  /** The file-reading part of `updateTemperatureFromFile`, scanning the lines in order. */
  method ReadTemperature(data: string) returns (r: Option<Num>)
    ensures r == FileTemperature(data)
  {
    if Trim(data) == [] {
      return None;
    }
    var lines := SplitLines(data);
    if BareNumber(lines[0]) {
      return Some(Round1(JsNumber(data)));
    }
    var newCurrentTemperature := Val(0.0);
    var i := 0;
    while i < |lines|
      invariant 0 <= i <= |lines|
      invariant newCurrentTemperature == Scanned(lines[..i])
    {
      var line := lines[i];
      if ':' in line {
        SplitOfContaining(line, ':');
        var value := Split(line, ':');
        if value[0] == "temperature" {
          newCurrentTemperature := Round1(JsNumber(value[1]));
        }
      }
      assert lines[..i + 1][..i] == lines[..i];
      i := i + 1;
    }
    assert lines[..|lines|] == lines;
    return Some(newCurrentTemperature);
  }

  /** The last `temperature:` line wins: later lines without a reading do not matter. */
  lemma {:induction false} ScannedLastWins(lines: seq<string>, i: int)
    requires 0 <= i < |lines| && LineTemperature(lines[i]).Some?
    requires forall j :: i < j < |lines| ==> LineTemperature(lines[j]).None?
    ensures Scanned(lines) == LineTemperature(lines[i]).value
  {
    if i < |lines| - 1 {
      var init := lines[..|lines| - 1];
      assert init[i] == lines[i];
      forall j | i < j < |init|
        ensures LineTemperature(init[j]).None?
      {
        assert init[j] == lines[j];
      }
      ScannedLastWins(init, i);
    }
  }

  /** Without any `temperature:` line the reading is 0. */
  lemma {:induction false} ScannedDefault(lines: seq<string>)
    requires forall j :: 0 <= j < |lines| ==> LineTemperature(lines[j]).None?
    ensures Scanned(lines) == Val(0.0)
  {
    if lines != [] {
      var init := lines[..|lines| - 1];
      forall j | 0 <= j < |init|
        ensures LineTemperature(init[j]).None?
      {
        assert init[j] == lines[j];
      }
      ScannedDefault(init);
    }
  }

  /** A blank file gives no reading, so the temperature is kept. */
  lemma BlankFileKeepsTemperature(data: string)
    requires forall i :: 0 <= i < |data| ==> IsSpace(data[i])
    ensures FileTemperature(data) == None
  {
    TrimEmptyIffBlank(data);
  }

  /** A text with no line terminator is a single line. */
  lemma SingleLine(data: string)
    requires '\n' !in data
    ensures SplitLines(data) == [data]
  {
    SplitWithoutSeparator(data, '\n');
  }

  /** A text that starts with a character that is not white space does not trim to nothing. */
  lemma NotBlank(data: string)
    requires data != [] && !IsSpace(data[0])
    ensures Trim(data) != []
  {
    TrimEmptyIffBlank(data);
  }

  /** The line `temperature:<t>` reads as the value `t` stands for. */
  lemma TemperatureLineReading(k: int)
    ensures LineTemperature("temperature:" + TenthsText(k)) == Some(Val(k as real / 10.0))
  {
    var t := TenthsText(k);
    var line := "temperature:" + t;
    TenthsTextAlphabet(k);
    assert ':' !in t;
    assert line == "temperature" + [':'] + t;
    SplitAtSeparator("temperature", t, ':');
    SplitWithoutSeparator("temperature", ':');
    SplitWithoutSeparator(t, ':');
    assert line[11] == ':';
    RoundedNumberOfTenthsText(k);
  }

  /** A file holding just `temperature:<t>` gives `t`. */
  lemma TemperatureFileReading(k: int)
    ensures FileTemperature("temperature:" + TenthsText(k)) == Some(Val(k as real / 10.0))
  {
    var data := "temperature:" + TenthsText(k);
    TenthsTextAlphabet(k);
    assert '\n' !in data;
    SingleLine(data);
    NotBlank(data);
    assert LeadingDigits(data) == 0;
    TemperatureLineReading(k);
    assert [data][..0] == [];
  }

  /** A file holding just a non-negative number with one decimal gives that number. */
  lemma BareFileReading(k: int)
    requires k >= 0
    ensures FileTemperature(TenthsText(k)) == Some(Val(k as real / 10.0))
  {
    var data := TenthsText(k);
    var ip, fp := NatText(k / 10), [DigitChar(k % 10)];
    assert data == ip + ("." + fp);
    TenthsTextAlphabet(k);
    assert '\n' !in data;
    SingleLine(data);
    NotBlank(data);
    LeadingDigitsOf(ip, "." + fp);
    assert data[|ip|..] == "." + fp;
    assert LeadingDots("." + fp) == 1;
    assert BareNumber(data);
    RoundedNumberOfTenthsText(k);
  }

  /**
   * A file holding just a negative number fails the first-line test and has no
   * `temperature:` line, so it reads as 0.
   */
  lemma NegativeBareFileReadsZero(k: int)
    requires k < 0
    ensures FileTemperature(TenthsText(k)) == Some(Val(0.0))
  {
    var data := TenthsText(k);
    TenthsTextShape(k);
    TenthsTextAlphabet(k);
    assert data[0] == '-';
    assert '\n' !in data && ':' !in data;
    SingleLine(data);
    NotBlank(data);
    assert !BareNumber(data);
    assert LineTemperature(data) == None;
    assert [data][..0] == [];
    assert Scanned([data]) == Scanned([]);
  }
}
