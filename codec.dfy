/**
 * The decoder for the heater's `key=value` response text and the
 * classification of its status code (src/platformAccessory.ts).
 */
module Codec {
  import opened Wrappers
  import opened Text
  import opened Numbers
  import opened Characteristics

  datatype Entry = Entry(key: string, value: string)

  /**
   * What one kept line contributes: the line is trimmed; blank lines, lines
   * without `=` and lines with nothing before the first `=` give nothing;
   * otherwise the key is the trimmed text before the first `=` and the value
   * the trimmed text between the first and the second `=`.
   */
  function LineEntry(line: string): (r: Option<Entry>)
    ensures '=' !in line ==> r.None?
    ensures r.Some? ==> && '=' !in r.value.key && '=' !in r.value.value
                        && IsTrimmed(r.value.key) && IsTrimmed(r.value.value)
  {
    var t := Trim(line);
    TrimWithout(line, '=');
    if t == [] then None
    else
      var parts := Split(t, '=');
      SplitCount(t, '=');
      SplitJoin(t, '=');
      if parts[0] != [] && |parts| >= 2 then
        TrimWithout(parts[0], '=');
        TrimWithout(parts[1], '=');
        TrimIsTrimmed(parts[0]);
        TrimIsTrimmed(parts[1]);
        Some(Entry(Trim(parts[0]), Trim(parts[1])))
      else None
  }

  /** What each line contributes. */
  function Entries(lines: seq<string>): (es: seq<Option<Entry>>)
    ensures |es| == |lines|
  {
    seq(|lines|, i requires 0 <= i < |lines| => LineEntry(lines[i]))
  }

  /** The map the entries build in order, a later entry overriding an earlier one with the same key. */
  function Collect(es: seq<Option<Entry>>): map<string, string>
  {
    if es == [] then map[]
    else
      var m := Collect(es[..|es| - 1]);
      match es[|es| - 1]
      case None => m
      case Some(e) => m[e.key := e.value]
  }

  /** The lines of the trimmed response. */
  function Lines(output: string): (r: seq<string>)
    ensures |r| >= 1
  {
    Split(Trim(output), '\n')
  }

  /** Every line but the last, which is the heater's footer. */
  function KeptLines(output: string): seq<string>
  {
    var lines := Lines(output);
    lines[..|lines| - 1]
  }

  /** The decoded response. */
  function Decode(output: string): map<string, string>
  {
    Collect(Entries(KeptLines(output)))
  }

  /** `parseEcoforestResponse`: fills the map line by line, skipping the footer. */
  method ParseEcoforestResponse(output: string) returns (fields: map<string, string>)
    ensures fields == Decode(output)
  {
    var lines := Split(Trim(output), '\n');
    ghost var entries := Entries(lines);
    fields := map[];
    var i := 0;
    while i < |lines| - 1
      invariant 0 <= i <= |lines| - 1
      invariant fields == Collect(entries[..i])
    {
      ghost var before := fields;
      var trimmedLine := Trim(lines[i]);
      if trimmedLine != [] {
        var parts := Split(trimmedLine, '=');
        var key := parts[0];
        if key != [] && |parts| >= 2 {
          fields := fields[Trim(key) := Trim(parts[1])];
        }
      }
      assert entries[..i + 1][..i] == entries[..i];
      assert entries[i] == LineEntry(lines[i]);
      assert fields == match LineEntry(lines[i])
        case None => before
        case Some(e) => before[e.key := e.value];
      i := i + 1;
    }
    assert entries[..|lines| - 1] == Entries(KeptLines(output));
  }

  /** Entry `es[i]` is a pair with key `k`. */
  predicate Defines(es: seq<Option<Entry>>, i: int, k: string)
    requires 0 <= i < |es|
  {
    es[i].Some? && es[i].value.key == k
  }

  /** A key is in the map exactly when some entry defines it. */
  lemma {:induction false} CollectKeys(es: seq<Option<Entry>>, k: string)
    ensures k in Collect(es) <==> exists i :: 0 <= i < |es| && Defines(es, i, k)
  {
    if es != [] {
      var n := |es| - 1;
      var init := es[..n];
      CollectKeys(init, k);
      if !Defines(es, n, k) {
        if k in Collect(init) {
          var i :| 0 <= i < n && Defines(init, i, k);
          assert Defines(es, i, k);
        }
        if exists i :: 0 <= i < |es| && Defines(es, i, k) {
          var i :| 0 <= i < |es| && Defines(es, i, k);
          assert Defines(init, i, k);
        }
      }
    }
  }

  /** The value of a key is the one from the last entry that defines it. */
  lemma {:induction false} CollectLastWins(es: seq<Option<Entry>>, i: int, k: string)
    requires 0 <= i < |es| && Defines(es, i, k)
    requires forall j :: i < j < |es| ==> !Defines(es, j, k)
    ensures k in Collect(es) && Collect(es)[k] == es[i].value.value
  {
    var n := |es| - 1;
    var init := es[..n];
    if i < n {
      assert Defines(init, i, k);
      forall j | i < j < n
        ensures !Defines(init, j, k)
      {
        assert !Defines(es, j, k);
      }
      CollectLastWins(init, i, k);
      assert !Defines(es, n, k);
    }
  }

  /** A response with at most one line after trimming, the empty one included, decodes to nothing. */
  lemma SingleLineDecodesEmpty(output: string)
    requires '\n' !in Trim(output)
    ensures Decode(output) == map[]
  {
    SplitWithoutSeparator(Trim(output), '\n');
  }

  /** Nothing from the footer reaches the map: the result depends only on the lines before it. */
  lemma FooterIgnored(body: string, footer: string)
    requires body != [] && !IsSpace(body[0])
    requires footer != [] && !IsSpace(footer[|footer| - 1]) && '\n' !in footer
    ensures Decode(body + "\n" + footer) == Collect(Entries(Split(body, '\n')))
  {
    var text := body + "\n" + footer;
    assert IsTrimmed(text);
    TrimOfTrimmed(text);
    assert text == body + ['\n'] + footer;
    SplitAtSeparator(body, footer, '\n');
    SplitWithoutSeparator(footer, '\n');
    assert Lines(text) == Split(body, '\n') + [footer];
  }

  /** Text the heater can send as a key or a value: no white space, no `=`. */
  predicate Plain(s: string)
  {
    forall i :: 0 <= i < |s| ==> !IsSpace(s[i]) && s[i] != '='
  }

  predicate PlainEntry(e: Entry)
  {
    e.key != [] && Plain(e.key) && Plain(e.value)
  }

  function EntryLine(e: Entry): string
  {
    e.key + "=" + e.value
  }

  /** The value is the text between the first and the second `=`; anything after a second `=` is lost. */
  lemma {:induction false} SecondSeparatorTruncates(e: Entry, extra: string)
    requires PlainEntry(e) && Plain(extra)
    ensures LineEntry(EntryLine(e) + "=" + extra) == Some(e)
  {
    var k, v := e.key, e.value;
    var line := EntryLine(e) + "=" + extra;
    assert line == k + ['='] + (v + ['='] + extra);
    assert IsTrimmed(line);
    TrimOfTrimmed(line);
    SplitAtSeparator(k, v + ['='] + extra, '=');
    SplitAtSeparator(v, extra, '=');
    SplitWithoutSeparator(k, '=');
    SplitWithoutSeparator(v, '=');
    assert Split(line, '=')[0] == k && Split(line, '=')[1] == v;
    assert IsTrimmed(k) && IsTrimmed(v);
    TrimOfTrimmed(k);
    TrimOfTrimmed(v);
  }

  /** A plain `key=value` line contributes exactly that pair. */
  lemma {:induction false} PlainLineEntry(e: Entry)
    requires PlainEntry(e)
    ensures LineEntry(EntryLine(e)) == Some(e)
  {
    var k, v := e.key, e.value;
    var line := EntryLine(e);
    assert line == k + ['='] + v;
    assert IsTrimmed(line);
    TrimOfTrimmed(line);
    SplitAtSeparator(k, v, '=');
    SplitWithoutSeparator(k, '=');
    SplitWithoutSeparator(v, '=');
    assert IsTrimmed(k) && IsTrimmed(v);
    TrimOfTrimmed(k);
    TrimOfTrimmed(v);
  }

  /** `k1=v1\nk2=v2\n...` as the heater writes it before its footer. */
  function Render(es: seq<Entry>): string
  {
    if es == [] then [] else EntryLine(es[0]) + "\n" + Render(es[1..])
  }

  function EntryLines(es: seq<Entry>): (r: seq<string>)
    ensures |r| == |es|
  {
    seq(|es|, i requires 0 <= i < |es| => EntryLine(es[i]))
  }

  /** The map a list of pairs denotes, a later pair overriding an earlier one. */
  function FromEntries(es: seq<Entry>): map<string, string>
  {
    if es == [] then map[] else FromEntries(es[..|es| - 1])[es[|es| - 1].key := es[|es| - 1].value]
  }

  /** Entries whose lines hold no line break. */
  predicate SingleLineEntries(es: seq<Entry>)
  {
    forall i :: 0 <= i < |es| ==> '\n' !in EntryLine(es[i])
  }

  lemma {:induction false} SplitRendered(es: seq<Entry>, footer: string)
    requires SingleLineEntries(es)
    requires '\n' !in footer
    ensures Split(Render(es) + footer, '\n') == EntryLines(es) + [footer]
  {
    if es == [] {
      assert Render(es) + footer == footer;
      SplitWithoutSeparator(footer, '\n');
      assert EntryLines(es) == [];
    } else {
      var line := EntryLine(es[0]);
      var rest := Render(es[1..]) + footer;
      assert Render(es) + footer == line + ['\n'] + rest;
      SplitAtSeparator(line, rest, '\n');
      assert '\n' !in line;
      SplitWithoutSeparator(line, '\n');
      SplitRendered(es[1..], footer);
      assert EntryLines(es) == [line] + EntryLines(es[1..]);
    }
  }

  lemma {:induction false} CollectEntryLines(es: seq<Entry>)
    requires forall i :: 0 <= i < |es| ==> PlainEntry(es[i])
    ensures Collect(Entries(EntryLines(es))) == FromEntries(es)
  {
    if es != [] {
      var n := |es| - 1;
      assert Entries(EntryLines(es))[..n] == Entries(EntryLines(es[..n]));
      CollectEntryLines(es[..n]);
      PlainLineEntry(es[n]);
    }
  }

  /** The encoding of pairs followed by one more pair. */
  lemma {:induction false} RenderAppend(es: seq<Entry>, e: Entry)
    ensures Render(es + [e]) == Render(es) + EntryLine(e) + "\n"
  {
    if es == [] {
      assert [] + [e] == [e];
    } else {
      assert (es + [e])[1..] == es[1..] + [e];
      RenderAppend(es[1..], e);
    }
  }

  /**
   * Decoding inverts the heater's encoding: the pairs before a footer come
   * back as their map, whatever the footer says and whatever white space
   * (line breaks included) follows it.
   */
  lemma {:induction false} DecodeRender(es: seq<Entry>, footer: string)
    requires forall i :: 0 <= i < |es| ==> PlainEntry(es[i])
    requires footer != [] && !IsSpace(footer[0]) && '\n' !in TrimEnd(footer)
    ensures Decode(Render(es) + footer) == FromEntries(es)
  {
    var text := Render(es) + footer;
    var last := TrimEnd(footer);
    TrimEndSpec(footer);
    assert last != [] && last[0] == footer[0];
    TrimEndAppend(Render(es), footer);
    assert TrimStart(text) == text by {
      if es != [] {
        assert text[0] == es[0].key[0];
      }
    }
    assert Trim(text) == Render(es) + last;
    forall i | 0 <= i < |es|
      ensures '\n' !in EntryLine(es[i])
    {
      var line := EntryLine(es[i]);
      assert forall j :: 0 <= j < |line| ==> line[j] != '\n';
    }
    SplitRendered(es, last);
    assert KeptLines(text) == EntryLines(es);
    CollectEntryLines(es);
  }

  /**
   * An answer whose footer is missing or blank loses its last pair: `trim`
   * removes the final line break, so that pair's line is the one dropped.
   */
  lemma DecodeRenderWithoutFooter(es: seq<Entry>, blank: string)
    requires forall i :: 0 <= i < |es| ==> PlainEntry(es[i])
    requires es != [] && forall i :: 0 <= i < |blank| ==> IsSpace(blank[i])
    ensures Decode(Render(es) + blank) == FromEntries(es[..|es| - 1])
  {
    var n := |es| - 1;
    var e := es[n];
    var footer := EntryLine(e) + ("\n" + blank);
    RenderLastAsFooter(es, blank);
    PairAsFooter(e, blank);
    var init := es[..n];
    assert forall i :: 0 <= i < |init| ==> PlainEntry(init[i]);
    DecodeRender(init, footer);
  }

  /** The encoding of pairs, cut before the last pair's line. */
  lemma RenderLastAsFooter(es: seq<Entry>, blank: string)
    requires es != []
    ensures Render(es) + blank == Render(es[..|es| - 1]) + (EntryLine(es[|es| - 1]) + ("\n" + blank))
  {
    var n := |es| - 1;
    assert es == es[..n] + [es[n]];
    RenderAppend(es[..n], es[n]);
    Regroup(Render(es[..n]), EntryLine(es[n]), blank);
  }

  lemma Regroup(a: string, line: string, b: string)
    ensures a + line + "\n" + b == a + (line + ("\n" + b))
  {
  }

  /** A pair's line followed by a line break and white space can stand as a footer. */
  lemma PairAsFooter(e: Entry, blank: string)
    requires PlainEntry(e) && forall i :: 0 <= i < |blank| ==> IsSpace(blank[i])
    ensures var footer := EntryLine(e) + ("\n" + blank);
      footer != [] && !IsSpace(footer[0]) && '\n' !in TrimEnd(footer)
  {
    var line := EntryLine(e);
    var footer := line + ("\n" + blank);
    TrimEndOfSpaces(line, "\n" + blank);
    assert !IsSpace(line[|line| - 1]) by {
      assert line[|line| - 1] in line;
    }
    assert TrimEnd(footer) == line;
    assert '\n' !in line by {
      assert forall j :: 0 <= j < |line| ==> line[j] != '\n';
    }
    assert footer[0] == e.key[0];
  }

  /** The heater's status codes that mean it is running. */
  const ActiveCodes: set<string> := {"1", "2", "3", "4", "5", "6", "7", "10", "20"}

  /** A decimal numeral without leading zeros whose value is a running status: 1 to 7, 10 or 20. */
  predicate IsRunningCode(s: string)
  {
    && s != [] && AllDigits(s) && s[0] != '0'
    && var n := DigitsValue(s); (1 <= n <= 7 || n == 10 || n == 20)
  }

  lemma {:induction false} DigitsValueLowerBound(s: string)
    requires s != [] && AllDigits(s) && s[0] != '0'
    ensures DigitsValue(s) >= Pow10(|s| - 1)
  {
    if |s| > 1 {
      var init := s[..|s| - 1];
      DigitsValueLowerBound(init);
    }
  }

  /** The code set is exactly the canonical numerals of the running statuses ("01" or " 1" are not running). */
  lemma ActiveCodesAreRunningCodes(s: string)
    ensures s in ActiveCodes <==> IsRunningCode(s)
  {
    if s in ActiveCodes {
      assert "10"[..1] == "1" && "20"[..1] == "2";
      assert DigitsValue("1") == 1 && DigitsValue("10") == 10 && DigitsValue("20") == 20;
    }
    if IsRunningCode(s) {
      DigitsValueLowerBound(s);
      if |s| >= 3 {
        assert Pow10(|s| - 1) >= Pow10(2) by { Pow10Monotone(2, |s| - 1); }
      } else if |s| == 2 {
        assert s[..1] == [s[0]];
        assert s == [s[0], s[1]];
      } else {
        assert s == [s[0]];
      }
    }
  }

  lemma {:induction false} Pow10Monotone(i: nat, j: nat)
    requires i <= j
    ensures Pow10(i) <= Pow10(j)
  {
    if i < j {
      Pow10Monotone(i, j - 1);
    }
  }

  /**
   * `determineHeaterActiveState`: ACTIVE exactly when the status code is one
   * of the running statuses; an absent code is INACTIVE.
   */
  function DetermineHeaterActiveState(estado: Option<string>): (r: int)
    ensures r == ACTIVE || r == INACTIVE
    ensures r == ACTIVE <==> estado.Some? && IsRunningCode(estado.value)
  {
    if estado.Some? then ActiveCodesAreRunningCodes(estado.value); (if estado.value in ActiveCodes then ACTIVE else INACTIVE)
    else INACTIVE
  }

  /** The value of a response field, absent when the response does not have it. */
  function Field(fields: map<string, string>, key: string): (r: Option<string>)
    ensures r.Some? <==> key in fields
    ensures r.Some? ==> r.value == fields[key]
  {
    if key in fields then Some(fields[key]) else None
  }
}
