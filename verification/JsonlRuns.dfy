/** Whole runs of the file sink. */
module JsonlRuns {
  import opened GoStrings
  import opened JsonlSink

  /** The outcomes of successive writes; a panic ends the run. */
  function Outcomes(path: Path, rotate: bool, s: SinkState, writes: seq<Attempt>): (r: seq<Outcome>)
    ensures |r| <= |writes|
    decreases |writes|
  {
    if writes == [] then []
    else
      var o := OutcomeOf(s, rotate, writes[0]);
      if o == Panicked then [o]
      else [o] + Outcomes(path, rotate, WriteOnce(s, path, rotate, writes[0]), writes[1..])
  }

  /** The sink after those writes, up to a panic. */
  function After(path: Path, rotate: bool, s: SinkState, writes: seq<Attempt>): SinkState
    decreases |writes|
  {
    if writes == [] || OutcomeOf(s, rotate, writes[0]) == Panicked then s
    else After(path, rotate, WriteOnce(s, path, rotate, writes[0]), writes[1..])
  }

  /** The open file is the one the day key names. */
  ghost predicate Named(path: Path, rotate: bool, s: SinkState) {
    s.file.Some? ==> s.file.value == PathFor(path, rotate, s.dayKey)
  }

  /** What one write adds to file p. */
  function Record(path: Path, rotate: bool, p: Path, a: Attempt, o: Outcome): string {
    if o == Written && a.json.Some? && PathFor(path, rotate, a.day) == p then a.json.value + "\n" else ""
  }

  /** The records that file p owes to the writes that returned without error. */
  function Records(path: Path, rotate: bool, p: Path, writes: seq<Attempt>, outcomes: seq<Outcome>): string
    requires |outcomes| <= |writes|
  {
    if outcomes == [] then ""
    else
      Record(path, rotate, p, writes[0], outcomes[0]) +
      Records(path, rotate, p, writes[1..], outcomes[1..])
  }

  lemma NamedAfterWrite(path: Path, rotate: bool, s: SinkState, a: Attempt)
    requires Named(path, rotate, s)
    ensures Named(path, rotate, WriteOnce(s, path, rotate, a))
  {
  }

  /** One write touches the file of its own day only, and adds its record and newline exactly when it
      returns without error. */
  lemma WriteEffect(path: Path, rotate: bool, s: SinkState, a: Attempt, p: Path)
    requires Named(path, rotate, s) && OutcomeOf(s, rotate, a) != Panicked
    ensures Content(WriteOnce(s, path, rotate, a).files, p) ==
            Content(s.files, p) + Record(path, rotate, p, a, OutcomeOf(s, rotate, a))
  {
    var t := Rotated(s, path, rotate, a);
    assert Content(t.files, p) == Content(s.files, p);
    if OutcomeOf(s, rotate, a) == Written {
      var q := PathFor(path, rotate, a.day);
      assert t.file == Some(q);
      var c := Content(t.files, q);
      assert c + a.json.value + "\n" == c + (a.json.value + "\n");
    }
  }

  /** Whatever opens fail, and if the clock moves backwards too: a file holds what it held before and
      then, in order, the newline-terminated records of exactly the writes of its days that succeeded. */
  lemma {:induction false} FileContents(path: Path, rotate: bool, s: SinkState, writes: seq<Attempt>, p: Path)
    requires Named(path, rotate, s)
    ensures Named(path, rotate, After(path, rotate, s, writes))
    ensures Content(After(path, rotate, s, writes).files, p) ==
            Content(s.files, p) + Records(path, rotate, p, writes, Outcomes(path, rotate, s, writes))
    decreases |writes|
  {
    if writes != [] {
      var a, o := writes[0], OutcomeOf(s, rotate, writes[0]);
      var outcomes := Outcomes(path, rotate, s, writes);
      if o == Panicked {
        assert Records(path, rotate, p, writes[1..], outcomes[1..]) == "";
      } else {
        var t := WriteOnce(s, path, rotate, a);
        WriteEffect(path, rotate, s, a, p);
        NamedAfterWrite(path, rotate, s, a);
        FileContents(path, rotate, t, writes[1..], p);
        var rest := Outcomes(path, rotate, t, writes[1..]);
        assert outcomes == [o] + rest && outcomes[1..] == rest;
        Regroup(Content(s.files, p), Record(path, rotate, p, a, o), Records(path, rotate, p, writes[1..], rest));
      }
    }
  }

  /** The records of one day. */
  function DayRecords(day: Day, writes: seq<Attempt>): string {
    if writes == [] then ""
    else (if writes[0].day == day && writes[0].json.Some? then writes[0].json.value + "\n" else "") +
         DayRecords(day, writes[1..])
  }

  ghost predicate OpensSucceed(writes: seq<Attempt>) {
    forall i :: 0 <= i < |writes| ==> writes[i].openOk
  }

  lemma {:induction false} NoPanicWhenOpensSucceed(path: Path, rotate: bool, s: SinkState, writes: seq<Attempt>)
    requires s.file.Some? && OpensSucceed(writes)
    ensures |Outcomes(path, rotate, s, writes)| == |writes|
    ensures forall i :: 0 <= i < |writes| ==>
              Outcomes(path, rotate, s, writes)[i] == if writes[i].json.Some? then Written else Failed
    decreases |writes|
  {
    if writes != [] {
      NoPanicWhenOpensSucceed(path, rotate, WriteOnce(s, path, rotate, writes[0]), writes[1..]);
    }
  }

  lemma {:induction false} RecordsOfDay(path: Path, day: Day, writes: seq<Attempt>, outcomes: seq<Outcome>)
    requires |outcomes| == |writes|
    requires forall i :: 0 <= i < |writes| ==> outcomes[i] == if writes[i].json.Some? then Written else Failed
    ensures Records(path, true, PathFor(path, true, day), writes, outcomes) == DayRecords(day, writes)
  {
    if writes != [] {
      PathForInjective(path, writes[0].day, day);
      RecordsOfDay(path, day, writes[1..], outcomes[1..]);
    }
  }

  /** With every open successful, no write panics, and each day's file gains exactly the records of that
      day's writes, in order. */
  lemma DayFiles(path: Path, s: SinkState, writes: seq<Attempt>, day: Day)
    requires Named(path, true, s) && s.file.Some? && OpensSucceed(writes)
    ensures Panicked !in Outcomes(path, true, s, writes)
    ensures var p := PathFor(path, true, day);
            Content(After(path, true, s, writes).files, p) == Content(s.files, p) + DayRecords(day, writes)
  {
    FileContents(path, true, s, writes, PathFor(path, true, day));
    NoPanicWhenOpensSucceed(path, true, s, writes);
    RecordsOfDay(path, day, writes, Outcomes(path, true, s, writes));
  }

  function DayList(day: Day, writes: seq<Attempt>): seq<string> {
    if writes == [] then []
    else if writes[0].day == day && writes[0].json.Some? then [writes[0].json.value] + DayList(day, writes[1..])
    else DayList(day, writes[1..])
  }

  lemma {:induction false} RecordsAreLines(day: Day, writes: seq<Attempt>)
    ensures DayRecords(day, writes) == Join(DayList(day, writes) + [""], "\n")
  {
    if writes != [] {
      RecordsAreLines(day, writes[1..]);
      var rest, all := DayList(day, writes[1..]) + [""], DayList(day, writes) + [""];
      if writes[0].day == day && writes[0].json.Some? {
        var r := writes[0].json.value;
        assert all[0] == r && all[1..] == rest;
        assert (r + "\n") + Join(rest, "\n") == r + "\n" + Join(rest, "\n");
      } else {
        assert all == rest;
      }
    }
  }

  /** One record per line: a day's file that starts empty, cut at its newlines, is that day's list of
      records (and the empty text after the last newline) exactly when no record holds a newline. */
  lemma LinesReadBack(path: Path, s: SinkState, writes: seq<Attempt>, day: Day)
    requires Named(path, true, s) && s.file.Some? && OpensSucceed(writes)
    requires Content(s.files, PathFor(path, true, day)) == ""
    ensures var lines := DayList(day, writes);
            Split(Content(After(path, true, s, writes).files, PathFor(path, true, day)), "\n") == lines + [""] <==>
            forall i :: 0 <= i < |lines| ==> '\n' !in lines[i]
  {
    var lines := DayList(day, writes);
    var parts := lines + [""];
    DayFiles(path, s, writes, day);
    RecordsAreLines(day, writes);
    assert "" + DayRecords(day, writes) == DayRecords(day, writes);
    assert ['\n'] == "\n";
    SplitJoinOne(parts, '\n');
    assert forall i :: 0 <= i < |lines| ==> parts[i] == lines[i];
    if forall i :: 0 <= i < |lines| ==> '\n' !in lines[i] {
      forall i | 0 <= i < |parts| ensures '\n' !in parts[i] {
        assert parts[i] == if i < |lines| then lines[i] else "";
      }
    }
  }

  // ---- the nil writer

  /** Write i met a new day and could not open its file, and the day has not changed since. */
  ghost predicate StuckSince(key: Day, writes: seq<Attempt>, i: int) {
    0 <= i < |writes| && !writes[i].openOk &&
    writes[i].day != (if i == 0 then key else writes[i - 1].day) &&
    forall j :: i < j < |writes| ==> writes[j].day == writes[i].day
  }

  ghost predicate Stuck(key: Day, writes: seq<Attempt>) {
    exists i :: StuckSince(key, writes, i)
  }

  function LastDay(key: Day, writes: seq<Attempt>): Day {
    if writes == [] then key else writes[|writes| - 1].day
  }

  lemma StuckCons(key: Day, a: Attempt, rest: seq<Attempt>)
    ensures Stuck(key, [a] + rest) <==>
            Stuck(a.day, rest) || (a.day != key && !a.openOk && forall j :: 0 <= j < |rest| ==> rest[j].day == a.day)
  {
    var all := [a] + rest;
    forall i | 0 <= i < |rest| ensures StuckSince(a.day, rest, i) <==> StuckSince(key, all, i + 1) {
      assert rest[i] == all[i + 1];
      if StuckSince(a.day, rest, i) {
        forall j | i + 1 < j < |all| ensures all[j].day == all[i + 1].day {
          assert all[j] == rest[j - 1];
        }
      }
      if StuckSince(key, all, i + 1) {
        forall j | i < j < |rest| ensures rest[j].day == rest[i].day {
          assert rest[j] == all[j + 1];
        }
      }
    }
    if Stuck(key, all) {
      var i :| StuckSince(key, all, i);
      if i > 0 {
        assert StuckSince(a.day, rest, i - 1);
      } else {
        forall j | 0 <= j < |rest| ensures rest[j].day == a.day {
          assert rest[j] == all[j + 1];
        }
      }
    }
    if Stuck(a.day, rest) {
      var i :| StuckSince(a.day, rest, i);
      assert StuckSince(key, all, i + 1);
    }
    if a.day != key && !a.openOk && forall j :: 0 <= j < |rest| ==> rest[j].day == a.day {
      assert StuckSince(key, all, 0);
    }
  }

  lemma {:induction false} WriterNil(path: Path, s: SinkState, writes: seq<Attempt>)
    requires Panicked !in Outcomes(path, true, s, writes)
    ensures var t := After(path, true, s, writes);
            t.dayKey == LastDay(s.dayKey, writes) &&
            (t.file.None? <==>
               Stuck(s.dayKey, writes) ||
               (s.file.None? && forall j :: 0 <= j < |writes| ==> writes[j].day == s.dayKey))
    decreases |writes|
  {
    if writes != [] {
      var a, rest := writes[0], writes[1..];
      var t := WriteOnce(s, path, true, a);
      assert Outcomes(path, true, s, writes)[0] == OutcomeOf(s, true, a);
      assert Outcomes(path, true, s, writes)[1..] == Outcomes(path, true, t, rest);
      assert writes == [a] + rest;
      StuckCons(s.dayKey, a, rest);
      WriterNil(path, t, rest);
      assert t.dayKey == a.day;
      assert LastDay(a.day, rest) == LastDay(s.dayKey, writes);
    }
  }

  /** A rotating sink that started with its file open panics at a write exactly when the event
      marshals, the day is still that of the write before, and that day's file could not be opened when
      the day began: the failed open has already moved the day key, so no later write of the day tries
      again. */
  lemma PanicsExactly(path: Path, s: SinkState, writes: seq<Attempt>, a: Attempt)
    requires s.file.Some? && Panicked !in Outcomes(path, true, s, writes)
    ensures OutcomeOf(After(path, true, s, writes), true, a) == Panicked <==>
            a.json.Some? && a.day == LastDay(s.dayKey, writes) && Stuck(s.dayKey, writes)
  {
    WriterNil(path, s, writes);
  }

  /** The sink after writes of which some may panic, should a caller recover: a panic changes nothing. */
  function AfterAll(path: Path, s: SinkState, writes: seq<Attempt>): SinkState
    decreases |writes|
  {
    if writes == [] then s else AfterAll(path, WriteOnce(s, path, true, writes[0]), writes[1..])
  }

  /** Without a writer every later write of the same day panics or fails to marshal, and whether a file could
      be opened by then plays no part: the sink stays as it is. */
  lemma {:induction false} StuckForTheDay(path: Path, s: SinkState, writes: seq<Attempt>, i: nat)
    requires s.file.None? && i < |writes| && forall j :: 0 <= j < |writes| ==> writes[j].day == s.dayKey
    ensures AfterAll(path, s, writes[..i]) == s
    ensures OutcomeOf(AfterAll(path, s, writes[..i]), true, writes[i]) ==
            if writes[i].json.Some? then Panicked else Failed
    decreases i
  {
    if i > 0 {
      var tail := writes[1..];
      StuckForTheDay(path, s, tail, i - 1);
      assert writes[..i][1..] == tail[..i - 1] && WriteOnce(s, path, true, writes[0]) == s;
    }
  }

  /** Such a run: the file of the first day is open, that of the second day cannot be opened, and the next
      event of the second day is written through a nil writer. */
  lemma PanicsOnce(path: Path, files: map<Path, string>)
    ensures var first, second := "20240101", "20240102";
            var s := SinkState(files, Some(PathFor(path, true, first)), first);
            Outcomes(path, true, s, [Attempt(second, false, Some("a")), Attempt(second, true, Some("b"))]) ==
            [Failed, Panicked]
  {
    var first, second := "20240101", "20240102";
    var s := SinkState(files, Some(PathFor(path, true, first)), first);
    var a, b := Attempt(second, false, Some("a")), Attempt(second, true, Some("b"));
    assert first[7] != second[7];
    var t := WriteOnce(s, path, true, a);
    assert t.dayKey == second && t.file.None?;
    assert [a, b][1..] == [b] && [b][1..] == [];
    assert Outcomes(path, true, t, [b]) == [Panicked];
  }
}
