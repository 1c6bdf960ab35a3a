/** The command layer of `src/lib.rs` that has behaviour of its own:

      - `add-bulk` reads `series=value` lines and stores each one with
        `measure`, skipping blank lines and warning about lines without `=`;
      - `plot --table` labels the rows of the newest-first listing `len - i`;
      - `plot` draws the measurements oldest first, behind an origin point.

    The value parser (`str::parse::<f64>`) is a parameter `parse`, and the
    clock reading each `measure` call takes is given per line in `times`. */
module Lib {
  import opened Outcomes
  import Data

  // ---------------------------------------------------------------------------
  // Splitting one bulk input line
  // ---------------------------------------------------------------------------

  /** A bulk input line, as the `add-bulk` loop classifies it. */
  datatype LineKind = Blank | NoSeparator | Entry(series: string, valueText: string)

  /** `line.find('=')`: the position of the first `=`. */
  function FindEq(s: string): (r: Option<nat>)
    ensures r.None? <==> '=' !in s
    ensures r.Some? ==> r.value < |s| && s[r.value] == '=' &&
                        forall j | 0 <= j < r.value :: s[j] != '='
  {
    if s == [] then None
    else if s[0] == '=' then Some(0)
    else match FindEq(s[1..])
      case None => None
      case Some(i) => Some(i + 1)
  }

  /** The number of `=` signs at the start of the text. */
  function LeadingEq(s: string): (n: nat)
    ensures n <= |s| && (n == |s| || s[n] != '=')
    ensures forall i | 0 <= i < n :: s[i] == '='
  {
    if s != [] && s[0] == '=' then 1 + LeadingEq(s[1..]) else 0
  }

  /** `trim_start_matches('=')`: the text without its leading `=` signs. */
  function TrimStartEq(s: string): string
  {
    s[LeadingEq(s)..]
  }

  /** `n` equals signs. */
  function Equals(n: nat): (r: string)
    ensures |r| == n && forall c | c in r :: c == '='
  {
    seq(n, _ => '=')
  }

  /** The body of the `add-bulk` loop up to the parse: an empty line is
      skipped; a line without `=` draws a warning; otherwise the series name
      is the text before the first `=` and the value text is the rest with
      all leading `=` removed. */
  function SplitLine(line: string): LineKind
  {
    if line == [] then Blank
    else match FindEq(line)
      case None => NoSeparator
      case Some(i) => Entry(line[..i], TrimStartEq(line[i..]))
  }

  /** The three cases are told apart exactly by emptiness and by the presence
      of `=`. */
  lemma SplitLineCases(line: string)
    ensures SplitLine(line) == Blank <==> line == []
    ensures SplitLine(line) == NoSeparator <==> line != [] && '=' !in line
    ensures SplitLine(line).Entry? <==> '=' in line
  {
  }

  /** An entry's name holds no `=`, its value text does not start with `=`,
      and the line is the name, one or more `=`, and the value text. */
  lemma SplitLineEntry(line: string)
    requires SplitLine(line).Entry?
    ensures var e := SplitLine(line);
      var run := |line| - |e.series| - |e.valueText|;
      '=' !in e.series &&
      (e.valueText == [] || e.valueText[0] != '=') &&
      run >= 1 && line == e.series + Equals(run) + e.valueText
  {
    var i := FindEq(line).value;
    var rest := line[i..];
    var n := LeadingEq(rest);
    assert rest[0] == '=';
    assert SplitLine(line) == Entry(line[..i], rest[n..]);
    assert '=' !in line[..i] by {
      forall j | 0 <= j < i ensures line[..i][j] != '=' { }
    }
    assert rest[..n] == Equals(n);
    assert line == line[..i] + rest[..n] + rest[n..];
  }

  /** Splitting undoes joining: a name without `=`, one or more `=`, and a
      value text that does not start with `=` split back into that name and
      that value text. */
  lemma SplitJoin(series: string, run: nat, valueText: string)
    requires '=' !in series && run >= 1
    requires valueText == [] || valueText[0] != '='
    ensures SplitLine(series + Equals(run) + valueText) == Entry(series, valueText)
  {
    var rest := Equals(run) + valueText;
    var line := series + rest;
    assert series + Equals(run) + valueText == line;
    FindEqJoin(series, rest);
    assert line[..|series|] == series && line[|series|..] == rest;
    TrimEquals(run, valueText);
    assert SplitLine(line) == Entry(line[..|series|], TrimStartEq(line[|series|..]));
  }

  lemma {:induction false} FindEqJoin(series: string, rest: string)
    requires '=' !in series && rest != [] && rest[0] == '='
    ensures FindEq(series + rest) == Some(|series|)
    decreases |series|
  {
    if series != [] {
      assert (series + rest)[1..] == series[1..] + rest;
      FindEqJoin(series[1..], rest);
    }
  }

  lemma {:induction false} TrimEquals(run: nat, valueText: string)
    requires valueText == [] || valueText[0] != '='
    ensures TrimStartEq(Equals(run) + valueText) == valueText
  {
    LeadingEquals(run, valueText);
    assert (Equals(run) + valueText)[run..] == valueText;
  }

  lemma {:induction false} LeadingEquals(run: nat, valueText: string)
    requires valueText == [] || valueText[0] != '='
    ensures LeadingEq(Equals(run) + valueText) == run
    decreases run
  {
    if run > 0 {
      assert (Equals(run) + valueText)[1..] == Equals(run - 1) + valueText;
      LeadingEquals(run - 1, valueText);
    } else {
      assert Equals(0) + valueText == valueText;
    }
  }

  /** `a==5` is series `a` with value text `5`. */
  lemma SplitExample()
    ensures SplitLine("a==5") == Entry("a", "5")
  {
    assert "a==5" == "a" + Equals(2) + "5";
    SplitJoin("a", 2, "5");
  }

  // ---------------------------------------------------------------------------
  // The `add-bulk` loop
  // ---------------------------------------------------------------------------

  /** The store after a bulk run, the lines warned about (in input order), and
      how the run ended: `Ok(n)` after storing n measurements, or `Exit(1)`
      when a value did not parse or `measure` ended the process. */
  datatype Bulk = Bulk(tables: Data.Tables, warnings: seq<string>, outcome: Outcome<nat>)

  /** The run of the remaining lines, behind `warnings` already given and
      `stored` measurements already made. */
  function Behind(warnings: seq<string>, stored: nat, b: Bulk): Bulk
  {
    Bulk(b.tables, warnings + b.warnings,
         match b.outcome
         case Ok(n) => Ok(stored + n)
         case Exit(code) => Exit(code))
  }

  /** `add-bulk`: each line in order, the i-th `measure` call reading the
      clock as `times[i]`. */
  function BulkEffect(t: Data.Tables, lines: seq<string>, create: bool,
                      parse: string -> Option<Data.Float64>, times: seq<nat>): Bulk
    requires |times| == |lines|
    decreases |lines|
  {
    if lines == [] then Bulk(t, [], Ok(0))
    else
      var rest := BulkEffect(t, lines[1..], create, parse, times[1..]);
      match SplitLine(lines[0])
      case Blank => rest
      case NoSeparator =>
        // `warn!("Invalid input format: '{}'", line)`
        Behind([lines[0]], 0, rest)
      case Entry(series, text) =>
        match parse(text)
        case None => Bulk(t, [], Exit(1))   // "Error parsing value"
        case Some(v) =>
          var e := Data.MeasureEffect(t, series, v, create, times[0]);
          if e.outcome.Exit? then Bulk(e.tables, [], Exit(1))
          else Behind([], 1, BulkEffect(e.tables, lines[1..], create, parse, times[1..]))
  }

  /** The lines of a batch that have an `=`. */
  function Entries(lines: seq<string>): (r: nat)
    ensures r <= |lines|
  {
    if lines == [] then 0
    else (if SplitLine(lines[0]).Entry? then 1 else 0) + Entries(lines[1..])
  }

  /** The non-empty lines of a batch that have no `=`, in order. */
  function Malformed(lines: seq<string>): (r: seq<string>)
    ensures |r| <= |lines|
  {
    if lines == [] then []
    else (if SplitLine(lines[0]) == NoSeparator then [lines[0]] else []) + Malformed(lines[1..])
  }

  /** Every value text of the batch parses. */
  ghost predicate AllParse(lines: seq<string>, parse: string -> Option<Data.Float64>)
  {
    forall l | l in lines :: SplitLine(l).Entry? ==> parse(SplitLine(l).valueText).Some?
  }

  /** A bulk run only appends: whatever it stores, earlier rows of both
      tables stay as they were, at the front, even when it stops early. */
  lemma {:induction false} BulkKeepsEarlierRows(t: Data.Tables, lines: seq<string>, create: bool,
                                                parse: string -> Option<Data.Float64>, times: seq<nat>)
    requires |times| == |lines|
    ensures var r := BulkEffect(t, lines, create, parse, times);
      t.series <= r.tables.series && t.measurements <= r.tables.measurements
    decreases |lines|
  {
    if lines != [] {
      BulkKeepsEarlierRows(t, lines[1..], create, parse, times[1..]);
      match SplitLine(lines[0])
      case Blank =>
      case NoSeparator =>
      case Entry(series, text) =>
        match parse(text)
        case None =>
        case Some(v) =>
          Data.MeasureAppendsOnly(t, series, v, create, times[0]);
          var e := Data.MeasureEffect(t, series, v, create, times[0]);
          BulkKeepsEarlierRows(e.tables, lines[1..], create, parse, times[1..]);
    }
  }

  /** A bulk run keeps the store's invariant. */
  lemma {:induction false} BulkPreservesWellFormed(t: Data.Tables, lines: seq<string>, create: bool,
                                                   parse: string -> Option<Data.Float64>, times: seq<nat>)
    requires Data.WellFormed(t) && |times| == |lines|
    ensures Data.WellFormed(BulkEffect(t, lines, create, parse, times).tables)
    decreases |lines|
  {
    if lines != [] {
      BulkPreservesWellFormed(t, lines[1..], create, parse, times[1..]);
      match SplitLine(lines[0])
      case Blank =>
      case NoSeparator =>
      case Entry(series, text) =>
        match parse(text)
        case None =>
        case Some(v) =>
          Data.MeasurePreservesWellFormed(t, series, v, create, times[0]);
          var e := Data.MeasureEffect(t, series, v, create, times[0]);
          BulkPreservesWellFormed(e.tables, lines[1..], create, parse, times[1..]);
    }
  }

  /** A batch that runs to the end warns about exactly the non-empty lines
      without `=`, in input order: a malformed line never stops the batch. */
  lemma {:induction false} BulkWarnsMalformed(t: Data.Tables, lines: seq<string>, create: bool,
                                              parse: string -> Option<Data.Float64>, times: seq<nat>)
    requires |times| == |lines|
    ensures var r := BulkEffect(t, lines, create, parse, times);
      r.outcome.Ok? ==> r.warnings == Malformed(lines)
    decreases |lines|
  {
    if lines != [] {
      BulkWarnsMalformed(t, lines[1..], create, parse, times[1..]);
      match SplitLine(lines[0])
      case Blank =>
      case NoSeparator =>
      case Entry(series, text) =>
        match parse(text)
        case None =>
        case Some(v) =>
          var e := Data.MeasureEffect(t, series, v, create, times[0]);
          BulkWarnsMalformed(e.tables, lines[1..], create, parse, times[1..]);
    }
  }

  /** With auto-creation and every value parsing, the batch runs to the end
      and stores exactly one measurement per line that has an `=`. */
  lemma {:induction false} BulkStoresEveryEntry(t: Data.Tables, lines: seq<string>,
                                                parse: string -> Option<Data.Float64>, times: seq<nat>)
    requires |times| == |lines| && AllParse(lines, parse)
    ensures var r := BulkEffect(t, lines, true, parse, times);
      r.outcome == Ok(Entries(lines)) &&
      |r.tables.measurements| == |t.measurements| + Entries(lines)
    decreases |lines|
  {
    if lines != [] {
      assert AllParse(lines[1..], parse) by {
        forall l | l in lines[1..] ensures l in lines { }
      }
      assert lines[0] in lines;
      match SplitLine(lines[0])
      case Blank =>
        BulkStoresEveryEntry(t, lines[1..], parse, times[1..]);
      case NoSeparator =>
        BulkStoresEveryEntry(t, lines[1..], parse, times[1..]);
      case Entry(series, text) =>
        var v := parse(text).value;
        Data.MeasureAppendsOnly(t, series, v, true, times[0]);
        var e := Data.MeasureEffect(t, series, v, true, times[0]);
        BulkStoresEveryEntry(e.tables, lines[1..], parse, times[1..]);
    }
  }

  /** One `measure(series, value, create)` call of a bulk run, at clock
      reading `now`. */
  datatype Call = Call(series: string, value: Data.Float64, now: nat)

  /** The `measure` calls the entry lines of a batch ask for, in input order:
      one per line with an `=` whose value text parses. */
  function Calls(lines: seq<string>, parse: string -> Option<Data.Float64>, times: seq<nat>): seq<Call>
    requires |times| == |lines|
    decreases |lines|
  {
    if lines == [] then []
    else
      var first := match SplitLine(lines[0])
        case Entry(series, text) =>
          (match parse(text)
           case Some(v) => [Call(series, v, times[0])]
           case None => [])
        case _ => [];
      first + Calls(lines[1..], parse, times[1..])
  }

  /** Row `row` of store `t` is what `call` stored: its value and clock
      reading, under the series that the call's name finds. */
  ghost predicate StoredAs(t: Data.Tables, row: Data.MeasurementRow, call: Call)
  {
    row.value == call.value && row.timestamp == call.now &&
    Data.Lookup(t, call.series).Some? && Data.Lookup(t, call.series).value.id == row.series
  }

  /** The rows of `r` after those of `t` are, one for one, what `calls`
      stored. */
  ghost predicate StoresInOrder(t: Data.Tables, r: Data.Tables, calls: seq<Call>)
  {
    |r.measurements| == |t.measurements| + |calls| &&
    forall k | 0 <= k < |calls| :: StoredAs(r, r.measurements[|t.measurements| + k], calls[k])
  }

  /** One stored call in front of calls stored after it, in a store that only
      grew since, is stored in order too. */
  lemma StoresInOrderCons(t: Data.Tables, e: Data.Tables, r: Data.Tables, call: Call, calls: seq<Call>)
    requires |e.measurements| == |t.measurements| + 1
    requires StoredAs(e, e.measurements[|t.measurements|], call)
    requires e.series <= r.series && e.measurements <= r.measurements
    requires StoresInOrder(e, r, calls)
    ensures StoresInOrder(t, r, [call] + calls)
  {
    Data.LookupKeptByAppend(e, r, call.series);
    var all := [call] + calls;
    forall k | 0 <= k < |all|
      ensures StoredAs(r, r.measurements[|t.measurements| + k], all[k])
    {
      if k == 0 {
        assert r.measurements[|t.measurements|] == e.measurements[|t.measurements|];
      } else {
        assert all[k] == calls[k - 1];
        assert |t.measurements| + k == |e.measurements| + (k - 1);
      }
    }
  }

  /** With auto-creation and every value parsing, the rows a batch appends
      are, one for one and in input order, the measurements of its entry
      lines: the k-th new row carries the k-th entry's parsed value and clock
      reading, and belongs to the series its name finds (or created). */
  lemma {:induction false} BulkStoresEntriesInOrder(t: Data.Tables, lines: seq<string>,
                                                    parse: string -> Option<Data.Float64>, times: seq<nat>)
    requires |times| == |lines| && AllParse(lines, parse)
    ensures var c := Calls(lines, parse, times);
      |c| == Entries(lines) &&
      StoresInOrder(t, BulkEffect(t, lines, true, parse, times).tables, c)
    decreases |lines|
  {
    if lines != [] {
      assert AllParse(lines[1..], parse) by {
        forall l | l in lines[1..] ensures l in lines { }
      }
      assert lines[0] in lines;
      var c := Calls(lines, parse, times);
      var c1 := Calls(lines[1..], parse, times[1..]);
      match SplitLine(lines[0])
      case Blank =>
        assert c == c1;
        BulkStoresEntriesInOrder(t, lines[1..], parse, times[1..]);
      case NoSeparator =>
        assert c == c1;
        BulkStoresEntriesInOrder(t, lines[1..], parse, times[1..]);
      case Entry(series, text) =>
        var v := parse(text).value;
        assert c == [Call(series, v, times[0])] + c1;
        Data.MeasureAppendsOnly(t, series, v, true, times[0]);
        Data.MeasureStoresUnderName(t, series, v, times[0]);
        var e := Data.MeasureEffect(t, series, v, true, times[0]);
        var rest := BulkEffect(e.tables, lines[1..], true, parse, times[1..]);
        assert BulkEffect(t, lines, true, parse, times).tables == rest.tables;
        BulkStoresEntriesInOrder(e.tables, lines[1..], parse, times[1..]);
        BulkKeepsEarlierRows(e.tables, lines[1..], true, parse, times[1..]);
        StoresInOrderCons(t, e.tables, rest.tables, Call(series, v, times[0]), c1);
    }
  }

  /** Whatever `create` is, a batch that ends with `Ok` has stored, one for
      one and in input order, the measurements of its entry lines, and
      reports that many. */
  lemma {:induction false} BulkOkStoresCallsInOrder(t: Data.Tables, lines: seq<string>, create: bool,
                                                    parse: string -> Option<Data.Float64>, times: seq<nat>)
    requires |times| == |lines|
    ensures var r := BulkEffect(t, lines, create, parse, times);
      var c := Calls(lines, parse, times);
      r.outcome.Ok? ==> r.outcome == Ok(|c|) && StoresInOrder(t, r.tables, c)
    decreases |lines|
  {
    var r := BulkEffect(t, lines, create, parse, times);
    if lines != [] && r.outcome.Ok? {
      var c := Calls(lines, parse, times);
      var c1 := Calls(lines[1..], parse, times[1..]);
      match SplitLine(lines[0])
      case Blank =>
        assert c == c1;
        BulkOkStoresCallsInOrder(t, lines[1..], create, parse, times[1..]);
      case NoSeparator =>
        assert c == c1;
        BulkOkStoresCallsInOrder(t, lines[1..], create, parse, times[1..]);
      case Entry(series, text) =>
        var v := parse(text).value;
        assert c == [Call(series, v, times[0])] + c1;
        var e := Data.MeasureEffect(t, series, v, create, times[0]);
        var rest := BulkEffect(e.tables, lines[1..], create, parse, times[1..]);
        assert r == Behind([], 1, rest);
        BulkOkStoresCallsInOrder(e.tables, lines[1..], create, parse, times[1..]);
        BulkKeepsEarlierRows(e.tables, lines[1..], create, parse, times[1..]);
        MeasuredThenStored(t, series, v, create, times[0], rest.tables, c1);
    }
  }

  /** A successful `measure` call followed by calls stored in order is stored
      in order in front of them. */
  lemma MeasuredThenStored(t: Data.Tables, series: string, v: Data.Float64, create: bool, now: nat,
                           r: Data.Tables, calls: seq<Call>)
    requires Data.MeasureEffect(t, series, v, create, now).outcome.Ok?
    requires var e := Data.MeasureEffect(t, series, v, create, now).tables;
      e.series <= r.series && e.measurements <= r.measurements && StoresInOrder(e, r, calls)
    ensures StoresInOrder(t, r, [Call(series, v, now)] + calls)
  {
    var e := Data.MeasureEffect(t, series, v, create, now).tables;
    Data.MeasureOkStoresUnderName(t, series, v, create, now);
    StoresInOrderCons(t, e, r, Call(series, v, now), calls);
  }

  /** A line whose value text does not parse ends the batch with exit code 1,
      if nothing before it has already done so; the lines after it are never
      read, and the store is left as the lines before it made it. */
  lemma {:induction false} BulkStopsAtBadValue(t: Data.Tables, lines: seq<string>, create: bool,
                                               parse: string -> Option<Data.Float64>, times: seq<nat>, k: nat)
    requires |times| == |lines| && k < |lines|
    requires SplitLine(lines[k]).Entry? && parse(SplitLine(lines[k]).valueText).None?
    ensures BulkEffect(t, lines, create, parse, times).outcome == Exit(1)
    ensures BulkEffect(t, lines, create, parse, times).tables ==
            BulkEffect(t, lines[..k], create, parse, times[..k]).tables
    decreases k
  {
    if k > 0 {
      assert lines[1..][k - 1] == lines[k];
      assert lines[..k][1..] == lines[1..][..k - 1];
      assert times[..k][1..] == times[1..][..k - 1];
      assert lines[..k][0] == lines[0] && times[..k][0] == times[0];
      match SplitLine(lines[0])
      case Blank =>
        BulkStopsAtBadValue(t, lines[1..], create, parse, times[1..], k - 1);
      case NoSeparator =>
        BulkStopsAtBadValue(t, lines[1..], create, parse, times[1..], k - 1);
      case Entry(series, text) =>
        match parse(text)
        case None =>
        case Some(v) =>
          var e := Data.MeasureEffect(t, series, v, create, times[0]);
          if e.outcome.Ok? {
            BulkStopsAtBadValue(e.tables, lines[1..], create, parse, times[1..], k - 1);
          }
    }
  }

  /** Nothing in front changes nothing. */
  lemma BehindNothing(b: Bulk)
    ensures Behind([], 0, b) == b
  {
    assert [] + b.warnings == b.warnings;
  }

  /** Warnings and counts behind warnings and counts add up. */
  lemma BehindBehind(w1: seq<string>, s1: nat, w2: seq<string>, s2: nat, b: Bulk)
    ensures Behind(w1, s1, Behind(w2, s2, b)) == Behind(w1 + w2, s1 + s2, b)
  {
    assert w1 + (w2 + b.warnings) == (w1 + w2) + b.warnings;
  }

  // One step of the `add-bulk` loop: how the run of the batch from line i
  // on relates to the run from line i + 1 on, one lemma per kind of line.

  lemma StepBlank(goal: Bulk, warnings: seq<string>, stored: nat, t: Data.Tables, lines: seq<string>,
                  create: bool, parse: string -> Option<Data.Float64>, times: seq<nat>, i: nat)
    requires |times| == |lines| && i < |lines| && SplitLine(lines[i]) == Blank
    requires goal == Behind(warnings, stored, BulkEffect(t, lines[i..], create, parse, times[i..]))
    ensures goal == Behind(warnings, stored, BulkEffect(t, lines[i + 1..], create, parse, times[i + 1..]))
  {
    assert lines[i..][1..] == lines[i + 1..] && times[i..][1..] == times[i + 1..];
  }

  lemma StepWarn(goal: Bulk, warnings: seq<string>, stored: nat, t: Data.Tables, lines: seq<string>,
                 create: bool, parse: string -> Option<Data.Float64>, times: seq<nat>, i: nat)
    requires |times| == |lines| && i < |lines| && SplitLine(lines[i]) == NoSeparator
    requires goal == Behind(warnings, stored, BulkEffect(t, lines[i..], create, parse, times[i..]))
    ensures goal == Behind(warnings + [lines[i]], stored, BulkEffect(t, lines[i + 1..], create, parse, times[i + 1..]))
  {
    assert lines[i..][1..] == lines[i + 1..] && times[i..][1..] == times[i + 1..];
    BehindBehind(warnings, stored, [lines[i]], 0, BulkEffect(t, lines[i + 1..], create, parse, times[i + 1..]));
  }

  lemma StepBadValue(goal: Bulk, warnings: seq<string>, stored: nat, t: Data.Tables, lines: seq<string>,
                     create: bool, parse: string -> Option<Data.Float64>, times: seq<nat>, i: nat)
    requires |times| == |lines| && i < |lines| && SplitLine(lines[i]).Entry?
    requires parse(SplitLine(lines[i]).valueText).None?
    requires goal == Behind(warnings, stored, BulkEffect(t, lines[i..], create, parse, times[i..]))
    ensures goal == Bulk(t, warnings, Exit(1))
  {
    assert warnings + [] == warnings;
  }

  lemma StepMeasured(goal: Bulk, warnings: seq<string>, stored: nat, t: Data.Tables, lines: seq<string>,
                     create: bool, parse: string -> Option<Data.Float64>, times: seq<nat>, i: nat)
    requires |times| == |lines| && i < |lines| && SplitLine(lines[i]).Entry?
    requires parse(SplitLine(lines[i]).valueText).Some?
    requires goal == Behind(warnings, stored, BulkEffect(t, lines[i..], create, parse, times[i..]))
    ensures var e := Data.MeasureEffect(t, SplitLine(lines[i]).series, parse(SplitLine(lines[i]).valueText).value,
                                        create, times[i]);
      if e.outcome.Exit? then goal == Bulk(e.tables, warnings, Exit(1))
      else goal == Behind(warnings, stored + 1, BulkEffect(e.tables, lines[i + 1..], create, parse, times[i + 1..]))
  {
    assert lines[i..][1..] == lines[i + 1..] && times[i..][1..] == times[i + 1..];
    var e := Data.MeasureEffect(t, SplitLine(lines[i]).series, parse(SplitLine(lines[i]).valueText).value,
                                create, times[i]);
    assert warnings + [] == warnings;
    if e.outcome.Ok? {
      BehindBehind(warnings, stored, [], 1, BulkEffect(e.tables, lines[i + 1..], create, parse, times[i + 1..]));
    }
  }

  /** The handling of one line that has an `=`: its value text is parsed and,
      when that succeeds, stored through `DataSource::measure`. `stored` says
      whether the batch goes on. */
  method AddEntry(db: Data.DataSource, series: string, text: string, create: bool,
                  parse: string -> Option<Data.Float64>, now: nat)
    returns (stored: bool)
    requires db.Valid()
    modifies db
    ensures db.Valid()
    ensures parse(text).None? ==> !stored && db.State() == old(db.State())
    ensures parse(text).Some? ==>
      var e := Data.MeasureEffect(old(db.State()), series, parse(text).value, create, now);
      db.State() == e.tables && (stored <==> e.outcome.Ok?)
  {
    var v := parse(text);
    if v.None? {
      return false;
    }
    var m := db.Measure(series, v.value, create, now);
    stored := m.Ok?;
  }

  /** The `add-bulk` arm of `run`, over the lines of standard input. Each
      well-formed line goes through `DataSource::measure`; the lines warned
      about are returned. */
  method AddBulk(db: Data.DataSource, lines: seq<string>, create: bool,
                 parse: string -> Option<Data.Float64>, times: seq<nat>)
    returns (r: Outcome<nat>, warnings: seq<string>)
    requires db.Valid() && |times| == |lines|
    modifies db
    ensures db.Valid()
    ensures Bulk(db.State(), warnings, r) == BulkEffect(old(db.State()), lines, create, parse, times)
  {
    ghost var goal := BulkEffect(db.State(), lines, create, parse, times);
    assert lines[0..] == lines && times[0..] == times;
    BehindNothing(goal);
    warnings := [];
    var stored := 0;
    var i := 0;
    while i < |lines|
      invariant i <= |lines| && db.Valid()
      invariant goal == Behind(warnings, stored, BulkEffect(db.State(), lines[i..], create, parse, times[i..]))
    {
      var kind := SplitLine(lines[i]);
      if kind == Blank {
        StepBlank(goal, warnings, stored, db.State(), lines, create, parse, times, i);
      } else if kind == NoSeparator {
        StepWarn(goal, warnings, stored, db.State(), lines, create, parse, times, i);
        warnings := warnings + [lines[i]];
      } else {
        if parse(kind.valueText).None? {
          StepBadValue(goal, warnings, stored, db.State(), lines, create, parse, times, i);
        } else {
          StepMeasured(goal, warnings, stored, db.State(), lines, create, parse, times, i);
        }
        var ok := AddEntry(db, kind.series, kind.valueText, create, parse, times[i]);
        if !ok {
          return Exit(1), warnings;
        }
        stored := stored + 1;
      }
      i := i + 1;
    }
    assert warnings + [] == warnings;
    r := Ok(stored);
  }

  // ---------------------------------------------------------------------------
  // `plot`: the table and the points
  // ---------------------------------------------------------------------------

  /** A row of the `--table` listing: the `#` label, the timestamp and the
      value. */
  datatype TableRow = TableRow(number: nat, timestamp: nat, value: Data.Float64)

  /** The rows `plot --table` prints for measurements listed newest first:
      row i is labelled `len - i`. */
  function TableRows(ms: seq<Data.Measurement>): seq<TableRow>
  {
    seq(|ms|, i requires 0 <= i < |ms| => TableRow(|ms| - i, ms[i].timestamp, ms[i].measurement))
  }

  /** The labels count down from the number of rows to 1, one per row, each
      row keeping its measurement's timestamp and value. They are positions
      in the listing: the stored run numbers play no part, so two listings of
      the same length carry the same labels. */
  lemma TableLabelsCountDown(ms: seq<Data.Measurement>, other: seq<Data.Measurement>)
    requires |other| == |ms|
    ensures var rows := TableRows(ms);
      |rows| == |ms| &&
      (ms != [] ==> rows[0].number == |ms| && rows[|ms| - 1].number == 1) &&
      (forall i | 0 <= i < |rows| ::
         1 <= rows[i].number <= |ms| &&
         rows[i].timestamp == ms[i].timestamp && rows[i].value == ms[i].measurement) &&
      (forall i | 0 <= i < |rows| - 1 :: rows[i].number == rows[i + 1].number + 1) &&
      (forall i | 0 <= i < |rows| :: rows[i].number == TableRows(other)[i].number)
  {
  }

  /** The table, built row by row as the `for_each` over the listing does. */
  method BuildTable(ms: seq<Data.Measurement>) returns (rows: seq<TableRow>)
    ensures rows == TableRows(ms)
  {
    rows := [];
    for i := 0 to |ms|
      invariant |rows| == i
      invariant forall k | 0 <= k < i :: rows[k] == TableRow(|ms| - k, ms[k].timestamp, ms[k].measurement)
    {
      rows := rows + [TableRow(|ms| - i, ms[i].timestamp, ms[i].measurement)];
    }
  }

  /** A point of the line plot. The `f32` casts are not modelled: `y` is the
      measurement itself. */
  datatype Point = Point(x: nat, y: Data.Float64)

  /** The origin, `(0.0, 0.0)`. */
  const Origin := Point(0, Data.Float64(0))

  /** The points `plot` draws for measurements listed newest first: the
      listing reversed and numbered from 0, behind the origin point. */
  function PlotPoints(ms: seq<Data.Measurement>): seq<Point>
  {
    [Origin] + seq(|ms|, i requires 0 <= i < |ms| => Point(i, ms[|ms| - 1 - i].measurement))
  }

  /** There is one point per measurement plus the origin in front; the points
      after it run oldest first, so the newest measurement is the last point;
      the oldest one shares x = 0 with the origin; and every x lies below the
      chart width `len + 1`. */
  lemma PlotPointsShape(ms: seq<Data.Measurement>)
    ensures var p := PlotPoints(ms);
      |p| == |ms| + 1 && p[0] == Origin &&
      (forall j | 0 <= j < |ms| :: p[|ms| - j] == Point(|ms| - 1 - j, ms[j].measurement)) &&
      (ms != [] ==> p[1].x == 0 && p[|ms|].y == ms[0].measurement) &&
      (forall k | 0 <= k < |p| :: p[k].x < |p|)
  {
  }
}
