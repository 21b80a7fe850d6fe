/** The JSON-lines file sink: one record per event, one file per day when rotation is on. The clock,
    the outcome of opening a file and the marshalled event come in as parameters of each call. */
module JsonlSink {
  import opened GoStrings

  type Path = string
  type Day = string

  /** What a call of Write meets: the day it falls on, whether a file can be opened (directory
      included), and the event as JSON, or None where marshalling fails. */
  datatype Attempt = Attempt(day: Day, openOk: bool, json: Option<string>)

  /** Panicked: the write goes through a nil writer. */
  datatype Outcome = Written | Failed | Panicked

  const BUFFER_SIZE := 64 * 1024

  function Content(files: map<Path, string>, p: Path): string {
    if p in files then files[p] else ""
  }

  // ---- file names

  /** filepath.Ext: from the last dot of the last path element. */
  function ExtFrom(path: string, i: nat): (r: string)
    requires i <= |path|
    ensures |r| <= |path| && r == path[|path| - |r|..]
  {
    if i == 0 || path[i - 1] == '/' then ""
    else if path[i - 1] == '.' then path[i - 1..]
    else ExtFrom(path, i - 1)
  }

  function PathFor(path: Path, rotate: bool, day: Day): Path {
    if !rotate then path
    else
      var ext := ExtFrom(path, |path|);
      path[..|path| - |ext|] + "_" + day + ext
  }

  /** Position k is that of the last element's last dot, or the path's end where that element has none. */
  ghost predicate ExtensionAt(path: string, k: nat) {
    k <= |path| && (forall i :: k < i < |path| ==> path[i] != '.' && path[i] != '/') &&
    if k < |path| then path[k] == '.' else forall i :: 0 <= i < |path| && path[i] == '.' ==> '/' in path[i..]
  }

  lemma {:induction false} ExtensionFound(path: string, i: nat)
    requires i <= |path| && forall j :: i <= j < |path| ==> path[j] != '.' && path[j] != '/'
    ensures ExtensionAt(path, |path| - |ExtFrom(path, i)|)
  {
    if i == 0 {
    } else if path[i - 1] == '/' {
      forall j | 0 <= j < |path| && path[j] == '.' ensures '/' in path[j..] {
        assert path[j..][i - 1 - j] == '/';
      }
    } else if path[i - 1] != '.' {
      ExtensionFound(path, i - 1);
    }
  }

  /** A rotated file's name: the day, after an underscore, in front of the extension. */
  lemma DatedName(path: Path, day: Day) returns (k: nat)
    ensures ExtensionAt(path, k)
    ensures PathFor(path, true, day) == path[..k] + "_" + day + path[k..]
    ensures PathFor(path, false, day) == path
  {
    var ext := ExtFrom(path, |path|);
    ExtensionFound(path, |path|);
    k := |path| - |ext|;
  }

  /** Different days have different files. */
  lemma PathForInjective(path: Path, a: Day, b: Day)
    ensures PathFor(path, true, a) == PathFor(path, true, b) <==> a == b
  {
    var ext := ExtFrom(path, |path|);
    var base := path[..|path| - |ext|] + "_";
    var pa, pb := base + a + ext, base + b + ext;
    if pa == pb {
      assert |a| == |b|;
      assert a == pa[|base|..|base| + |a|] == pb[|base|..|base| + |b|] == b;
    }
  }

  // ---- what one call does

  /** A sink between calls: the open file, if any (the writer is nil exactly when there is none, and
      its buffer is empty), and the day last rotated to. */
  datatype SinkState = SinkState(files: map<Path, string>, file: Option<Path>, dayKey: Day)

  function Opened(s: SinkState, path: Path, rotate: bool, day: Day, openOk: bool): SinkState {
    var key := if rotate then day else s.dayKey;
    var p := PathFor(path, rotate, day);
    if openOk then SinkState(s.files[p := Content(s.files, p)], Some(p), key)
    else s.(dayKey := key)
  }

  function Rotated(s: SinkState, path: Path, rotate: bool, a: Attempt): SinkState {
    if rotate && a.day != s.dayKey then Opened(s.(file := None), path, rotate, a.day, a.openOk) else s
  }

  function OutcomeOf(s: SinkState, rotate: bool, a: Attempt): Outcome {
    if rotate && a.day != s.dayKey && !a.openOk then Failed
    else if a.json.None? then Failed
    else if s.file.None? && !(rotate && a.day != s.dayKey) then Panicked
    else Written
  }

  function WriteOnce(s: SinkState, path: Path, rotate: bool, a: Attempt): SinkState {
    var t := Rotated(s, path, rotate, a);
    if OutcomeOf(s, rotate, a) == Written && t.file.Some?
    then t.(files := t.files[t.file.value := Content(t.files, t.file.value) + a.json.value + "\n"])
    else t
  }

  lemma PassesThrough(f: string, rest: string, start: string, out: string)
    requires f + "" == start + out
    ensures (f + rest) + "" == start + (out + rest)
  {
    assert f + "" == f && (f + rest) + "" == f + rest;
    Regroup(start, out, rest);
  }

  lemma FillsUp(f: string, b: string, now: string, start: string, out: string)
    requires f + b == start + out
    ensures (f + (b + now)) + "" == start + (out + now)
  {
    Regroup(f, b, now);
    Regroup(start, out, now);
  }

  class Disk {
    var files: map<Path, string>

    constructor ()
      ensures files == map[]
    {
      files := map[];
    }
  }

  class Sink {
    const path: Path
    const rotate: bool
    const disk: Disk
    var file: Option<Path>
    var buffer: Option<string>
    var dayKey: Day

    /** The writer exists with the file; what it has buffered fits its buffer. */
    ghost predicate Linked()
      reads this
    {
      (file.Some? <==> buffer.Some?) && (buffer.Some? ==> |buffer.value| <= BUFFER_SIZE)
    }

    /** Between calls nothing is left in the buffer, and the open file is the one dayKey names. */
    ghost predicate Valid()
      reads this
    {
      Linked() && (buffer.Some? ==> buffer.value == "") &&
      (file.Some? ==> file.value == PathFor(path, rotate, dayKey))
    }

    ghost function State(): SinkState
      reads this, disk
    {
      SinkState(disk.files, file, dayKey)
    }

    constructor (path: Path, rotate: bool, disk: Disk)
      ensures this.path == (if path == "" then "session_trace.jsonl" else path)
      ensures this.rotate == rotate && this.disk == disk && Valid()
      ensures State() == SinkState(disk.files, None, "")
    {
      this.path := if path == "" then "session_trace.jsonl" else path;
      this.rotate, this.disk := rotate, disk;
      file, buffer, dayKey := None, None, "";
    }

    /** New: a sink with today's file open, or none where that fails. */
    static method New(path: Path, rotate: bool, disk: Disk, today: Day, openOk: bool) returns (s: Option<Sink>)
      modifies disk
      ensures s.Some? <==> openOk
      ensures s.Some? ==>
        var p := if path == "" then "session_trace.jsonl" else path;
        fresh(s.value) && s.value.path == p && s.value.rotate == rotate && s.value.disk == disk && s.value.Valid() &&
        s.value.State() == Opened(SinkState(old(disk.files), None, ""), p, rotate, today, true)
      ensures s.None? ==> disk.files == old(disk.files)
    {
      var sink := new Sink(path, rotate, disk);
      var ok := sink.OpenLocked(today, openOk);
      return if ok then Some(sink) else None;
    }

    method OpenLocked(now: Day, openOk: bool) returns (ok: bool)
      requires Valid() && file.None?
      modifies this`file, this`buffer, this`dayKey, disk
      ensures Valid() && ok == openOk
      ensures State() == Opened(old(State()), path, rotate, now, openOk)
    {
      var p := PathFor(path, rotate, now);
      if rotate {
        dayKey := now;
      }
      if !openOk {
        return false;
      }
      disk.files := disk.files[p := Content(disk.files, p)];
      file, buffer := Some(p), Some("");
      return true;
    }

    method Flush()
      requires Linked() && file.Some?
      modifies this`buffer, disk
      ensures Linked() && buffer == Some("")
      ensures disk.files == old(disk.files)[file.value := Content(old(disk.files), file.value) + old(buffer.value)]
    {
      disk.files := disk.files[file.value := Content(disk.files, file.value) + buffer.value];
      buffer := Some("");
    }

    /** The buffered writer's Write: what does not fit is passed on to the file. */
    method BufferedWrite(p: string)
      requires Linked() && file.Some? && file.value in disk.files
      modifies this`buffer, disk
      ensures Linked() && buffer.Some?
      ensures disk.files.Keys == old(disk.files.Keys)
      ensures forall f :: f in disk.files && f != file.value ==> disk.files[f] == old(disk.files)[f]
      ensures disk.files[file.value] + buffer.value == old(disk.files[file.value] + buffer.value) + p
    {
      var rest := p;
      ghost var out, start := "", disk.files[file.value] + buffer.value;
      while |rest| > BUFFER_SIZE - |buffer.value|
        invariant Linked() && buffer.Some?
        invariant disk.files.Keys == old(disk.files.Keys) && p == out + rest
        invariant forall f :: f in disk.files && f != file.value ==> disk.files[f] == old(disk.files)[f]
        invariant disk.files[file.value] + buffer.value == start + out
        decreases |rest|, |buffer.value|
      {
        if buffer.value == "" {
          ghost var f := disk.files[file.value];
          disk.files := disk.files[file.value := disk.files[file.value] + rest];
          PassesThrough(f, rest, start, out);
          out, rest := out + rest, "";
        } else {
          var n := BUFFER_SIZE - |buffer.value|;
          var now := rest[..n];
          ghost var f, b := disk.files[file.value], buffer.value;
          buffer := Some(buffer.value + now);
          Flush();
          FillsUp(f, b, now, start, out);
          HeadMoves(out, rest, n);
          out, rest := out + now, rest[n..];
        }
      }
      ghost var f, b := disk.files[file.value], buffer.value;
      buffer := Some(buffer.value + rest);
      Regroup(f, b, rest);
      Regroup(start, out, rest);
    }

    method CloseLocked()
      requires Valid() && (file.Some? ==> file.value in disk.files)
      modifies this`file, this`buffer, disk
      ensures Valid() && State() == old(State()).(file := None)
    {
      if buffer.Some? {
        ghost var f := disk.files[file.value];
        Flush();
        assert f + "" == f;
        assert disk.files == old(disk.files);
      }
      file, buffer := None, None;
    }

    method Write(a: Attempt) returns (r: Outcome)
      requires Valid() && (file.Some? ==> file.value in disk.files)
      modifies this, disk
      ensures r == OutcomeOf(old(State()), rotate, a)
      ensures Valid() && State() == WriteOnce(old(State()), path, rotate, a)
      ensures r == Panicked ==> State() == old(State())
      ensures file.Some? ==> file.value in disk.files
    {
      if rotate && a.day != dayKey {
        CloseLocked();
        var ok := OpenLocked(a.day, a.openOk);
        if !ok {
          return Failed;
        }
      }
      if a.json.None? {
        return Failed;
      }
      if buffer.None? {
        return Panicked;
      }
      WriteRecord(a.json.value);
      return Written;
    }

    /** The record and its newline, through the buffer and out to the file. */
    method WriteRecord(record: string)
      requires Valid() && file.Some? && file.value in disk.files
      modifies this`buffer, disk
      ensures Valid() && file.value in disk.files
      ensures disk.files == old(disk.files)[file.value := old(disk.files)[file.value] + record + "\n"]
    {
      ghost var before := disk.files[file.value];
      BufferedWrite(record);
      assert before + "" == before;
      ghost var f, b := disk.files[file.value], buffer.value;
      if BUFFER_SIZE - |buffer.value| <= 0 {
        Flush();
        assert (f + b) + "" == f + b;
      }
      assert disk.files[file.value] + buffer.value == before + record;
      f, b := disk.files[file.value], buffer.value;
      buffer := Some(buffer.value + "\n");
      Flush();
      assert f + (b + "\n") == (f + b) + "\n";
      assert disk.files[file.value] == before + record + "\n";
      assert disk.files == old(disk.files)[file.value := before + record + "\n"];
    }

    method Close()
      requires Valid() && (file.Some? ==> file.value in disk.files)
      modifies this`file, this`buffer, disk
      ensures Valid() && State() == old(State()).(file := None)
    {
      CloseLocked();
    }
  }
}
