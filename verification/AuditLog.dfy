/** The rotating audit log of audit.py.

    A file is the sequence of its lines; a line is a record with a size in bytes. The archive of a
    rotation is named after the second it happens in, so a second rotation in that second replaces it.
    A line is written in strict UTF-8: one with a lone surrogate in it raises and is not written. */
module AuditLog {
  import opened Options
  import opened Redaction
  import opened Sequences
  import Utf8

  datatype Outcome = Success | Denied | Error

  datatype Record = Record(
    event: string, outcome: Outcome, tokenId: string, project: Points, tool: string,
    args: Option<map<Points, Value>>, errorClass: string, errorMessage: Points, outcomeDetail: string)

  // ----- Policy ----------------------------------------------------------------------------------

  const AUDITED_AUTH_EVENTS: set<string> := {"auth.failed", "auth.rate_limited"}

  const AUDITED_REJECTED_EVENTS: set<string> := {"command.rejected", "path.rejected"}

  const AUDITED_WRITE_EVENTS: set<string> :=
    {"tool.write_file", "tool.apply_patch", "tool.git_commit", "tool.git_push", "tool.git_create_branch",
     "tool.run_command", "tool.run_tests", "tool.run_lint", "tool.run_build"}

  const AUDITED_READ_EVENTS: set<string> :=
    {"tool.read_file", "tool.list_projects", "tool.list_directory", "tool.search_files", "tool.git_status",
     "tool.git_diff", "tool.git_log", "tool.git_branch_current", "tool.tail_log", "tool.read_journalctl",
     "tool.list_systemd_services", "tool.get_system_info"}

  /** should_audit: unknown events are audited. */
  predicate ShouldAudit(event: string, auditReads: bool) {
    if event in AUDITED_AUTH_EVENTS then true
    else if event in AUDITED_REJECTED_EVENTS then true
    else if event in AUDITED_WRITE_EVENTS then true
    else if event in AUDITED_READ_EVENTS then auditReads
    else true
  }

  /** Whether log writes a line; only a success is subject to the policy. */
  predicate IsLogged(r: Record, auditReads: bool) {
    !(r.outcome == Success && !ShouldAudit(r.event, auditReads))
  }

  /** The record as written, its arguments redacted. */
  function LineOf(r: Record): Record {
    match r.args
    case None => r
    case Some(args) => r.(args := if args == map[] then None else Some(Sanitize(Dict(args)).entries))
  }

  /** The line can be encoded: no text that a client chose has a lone surrogate. */
  predicate Encodable(line: Record) {
    && Utf8.IsScalarText(line.project) && Utf8.IsScalarText(line.errorMessage)
    && (line.args.Some? ==> ScalarValue(Dict(line.args.value)))
  }

  /** The call leaves a line. */
  predicate IsWritten(r: Record, auditReads: bool) {
    IsLogged(r, auditReads) && Encodable(LineOf(r))
  }

  /** The call raises instead. */
  predicate Raises(r: Record, auditReads: bool) {
    IsLogged(r, auditReads) && !Encodable(LineOf(r))
  }

  /** Whether a record can be written, told from its arguments before redaction. */
  lemma EncodableExactly(r: Record)
    ensures Encodable(LineOf(r)) <==>
            && Utf8.IsScalarText(r.project) && Utf8.IsScalarText(r.errorMessage)
            && (r.args.Some? ==> Loggable(Dict(r.args.value)))
  {
    if r.args.Some? { SanitizeIsScalar(Dict(r.args.value)); }
  }

  /** Redaction is all that a record goes through: a line keeps every field but its arguments, which it
      keeps key by key, sensitive ones as the placeholder and the rest redacted; no arguments are none. */
  lemma LineKeeps(r: Record)
    ensures var line := LineOf(r);
            && line.event == r.event && line.outcome == r.outcome && line.tokenId == r.tokenId
            && line.project == r.project && line.tool == r.tool && line.errorClass == r.errorClass
            && line.errorMessage == r.errorMessage && line.outcomeDetail == r.outcomeDetail
            && (line.args.None? <==> r.args.None? || r.args.value == map[])
            && (line.args.Some? ==>
                  && line.args.value.Keys == r.args.value.Keys
                  && forall k :: k in line.args.value ==>
                       line.args.value[k] == if IsRedactKey(k) then PLACEHOLDER else Sanitize(r.args.value[k]))
  {
    if r.args.Some? { assert Sanitize(Dict(r.args.value)).entries.Keys == r.args.value.Keys; }
  }

  // ----- The log as a value ----------------------------------------------------------------------

  /** audit-<second>.log.gz */
  datatype Name = Name(second: int)

  datatype Archive = Archive(second: int, lines: seq<Record>, mtime: real)

  /** What became of an archive: it is there, retention removed it, or a later one took its name. */
  datatype Fate = OnDisk | Purged | Overwritten

  datatype Entry = Entry(archive: Archive, fate: Fate)

  /** The current file, if it exists, and every archive ever written, in rotation order. */
  datatype LogState = LogState(current: Option<seq<Record>>, ledger: seq<Entry>)

  const EMPTY_LOG := LogState(None, [])

  /** The archives that a directory holds at the start. */
  function FoundArchives(archives: seq<Archive>): seq<Entry> {
    seq(|archives|, i requires 0 <= i < |archives| => Entry(archives[i], OnDisk))
  }

  datatype Config = Config(sizeOf: Record -> nat, rotationSize: nat, retentionSeconds: real, auditReads: bool)

  function SizeOf(cfg: Config, lines: seq<Record>): nat {
    if lines == [] then 0 else SizeOf(cfg, lines[..|lines| - 1]) + cfg.sizeOf(lines[|lines| - 1])
  }

  function CurrentLines(s: LogState): seq<Record> {
    if s.current.Some? then s.current.value else []
  }

  function PurgeEntry(e: Entry, cutoff: real): Entry {
    if e.fate == OnDisk && e.archive.mtime < cutoff then e.(fate := Purged) else e
  }

  /** _cleanup_old_files */
  function Purge(ledger: seq<Entry>, cutoff: real): seq<Entry> {
    seq(|ledger|, i requires 0 <= i < |ledger| => PurgeEntry(ledger[i], cutoff))
  }

  function OverwriteEntry(e: Entry, second: int): Entry {
    if e.fate == OnDisk && e.archive.second == second then e.(fate := Overwritten) else e
  }

  /** Writing an archive takes the place of one on disk with the same name. */
  function Overwrite(ledger: seq<Entry>, second: int): seq<Entry> {
    seq(|ledger|, i requires 0 <= i < |ledger| => OverwriteEntry(ledger[i], second))
  }

  predicate NeedsRotation(cfg: Config, s: LogState) {
    s.current.Some? && SizeOf(cfg, s.current.value) >= cfg.rotationSize
  }

  function Rotate(cfg: Config, s: LogState, now: real): LogState
    requires s.current.Some?
  {
    var archive := Archive(now.Floor, s.current.value, now);
    LogState(None, Purge(Overwrite(s.ledger, now.Floor) + [Entry(archive, OnDisk)], now - cfg.retentionSeconds))
  }

  /** Rotation if it is due, then the append. The file is opened, and so made, in any case. */
  function WriteLine(cfg: Config, s: LogState, line: Record, now: real): LogState {
    var r := if NeedsRotation(cfg, s) then Rotate(cfg, s, now) else s;
    r.(current := Some(CurrentLines(r) + if Encodable(line) then [line] else []))
  }

  /** AuditLogger.log */
  function LogStep(cfg: Config, s: LogState, r: Record, now: real): LogState {
    if IsLogged(r, cfg.auditReads) then WriteLine(cfg, s, LineOf(r), now) else s
  }

  /** The archives on disk are exactly those of the ledger that are said to be there. */
  ghost predicate InStep(disk: map<Name, Archive>, ledger: seq<Entry>) {
    && (forall e :: e in ledger && e.fate == OnDisk ==>
          Name(e.archive.second) in disk && disk[Name(e.archive.second)] == e.archive)
    && (forall name :: name in disk ==>
          disk[name].second == name.second && Entry(disk[name], OnDisk) in ledger)
  }

  predicate DistinctSeconds(archives: seq<Archive>) {
    forall i, j :: 0 <= i < j < |archives| ==> archives[i].second != archives[j].second
  }

  function DiskOf(archives: seq<Archive>): map<Name, Archive>
    requires DistinctSeconds(archives)
  {
    map i | 0 <= i < |archives| :: Name(archives[i].second) := archives[i]
  }

  lemma FoundInStep(archives: seq<Archive>)
    requires DistinctSeconds(archives)
    ensures InStep(DiskOf(archives), FoundArchives(archives))
  {
    var disk, ledger := DiskOf(archives), FoundArchives(archives);
    forall e | e in ledger ensures Name(e.archive.second) in disk && disk[Name(e.archive.second)] == e.archive {
      var i :| 0 <= i < |archives| && ledger[i] == e;
      assert Name(archives[i].second) in disk;
    }
    forall name | name in disk ensures disk[name].second == name.second && Entry(disk[name], OnDisk) in ledger {
      var i :| 0 <= i < |archives| && Name(archives[i].second) == name;
      assert ledger[i] in ledger && disk[name] == archives[i];
    }
  }

  // ----- The logger ------------------------------------------------------------------------------

  class AuditLogger {
    const cfg: Config
    var current: Option<seq<Record>>
    var disk: map<Name, Archive>
    ghost var ledger: seq<Entry>

    ghost function State(): LogState
      reads this
    {
      LogState(current, ledger)
    }

    ghost predicate Valid()
      reads this
    {
      InStep(disk, ledger)
    }

    /** On a directory that may hold a current file and archives, whose names differ: clean-up. */
    constructor (cfg: Config, current: Option<seq<Record>>, archives: seq<Archive>, now: real)
      requires DistinctSeconds(archives)
      ensures this.cfg == cfg && Valid()
      ensures State() == LogState(current, Purge(FoundArchives(archives), now - cfg.retentionSeconds))
    {
      this.cfg := cfg;
      this.current := current;
      disk := DiskOf(archives);
      ledger := FoundArchives(archives);
      new;
      FoundInStep(archives);
      CleanupOldFiles(now - cfg.retentionSeconds);
    }

    /** Whether the append raised. */
    method Log(r: Record, now: real) returns (raised: bool)
      requires Valid()
      modifies this
      ensures Valid() && State() == LogStep(cfg, old(State()), r, now)
      ensures raised <==> Raises(r, cfg.auditReads)
    {
      if r.outcome == Success && !ShouldAudit(r.event, cfg.auditReads) {
        return false;
      }
      var line := LineOf(r);
      MaybeRotate(now);
      if current == None {
        current := Some([]);
      }
      if !Encodable(line) {
        AppendNothing(current.value);
        return true;
      }
      current := Some(current.value + [line]);
      return false;
    }

    method MaybeRotate(now: real)
      requires Valid()
      modifies this
      ensures Valid()
      ensures State() == if NeedsRotation(cfg, old(State())) then Rotate(cfg, old(State()), now) else old(State())
    {
      if current == None {
        return;
      }
      var size := SizeOf(cfg, current.value);
      if size < cfg.rotationSize {
        return;
      }
      var archive := Archive(now.Floor, current.value, now);
      current := None;
      disk := disk[Name(now.Floor) := archive];
      ledger := Overwrite(ledger, now.Floor) + [Entry(archive, OnDisk)];
      forall e | e in ledger && e.fate == OnDisk
        ensures Name(e.archive.second) in disk && disk[Name(e.archive.second)] == e.archive
      {
        var k :| 0 <= k < |ledger| && ledger[k] == e;
        if k < |old(ledger)| { assert old(ledger)[k] == e && e in old(ledger); }
      }
      forall s | s in disk ensures disk[s].second == s.second && Entry(disk[s], OnDisk) in ledger {
        if s == Name(now.Floor) {
          assert ledger[|ledger| - 1] == Entry(disk[s], OnDisk);
        } else {
          var k :| 0 <= k < |old(ledger)| && old(ledger)[k] == Entry(disk[s], OnDisk);
          assert ledger[k] == old(ledger)[k];
        }
      }
      CleanupOldFiles(now - cfg.retentionSeconds);
    }

    method CleanupOldFiles(cutoff: real)
      requires Valid()
      modifies this`disk, this`ledger
      ensures Valid() && ledger == Purge(old(ledger), cutoff)
    {
      var left := disk.Keys;
      while left != {}
        invariant ledger == old(ledger)
        invariant left <= disk.Keys && disk.Keys <= old(disk).Keys
        invariant forall s :: s in disk ==> disk[s] == old(disk)[s]
        invariant forall s :: s in old(disk) && s !in left ==> (s in disk <==> old(disk)[s].mtime >= cutoff)
        decreases left
      {
        var s :| s in left;
        left := left - {s};
        if disk[s].mtime < cutoff {
          disk := disk - {s};
        }
      }
      ledger := Purge(ledger, cutoff);
      forall s | s in disk ensures disk[s].second == s.second && Entry(disk[s], OnDisk) in ledger {
        assert Entry(old(disk)[s], OnDisk) in old(ledger);
        var k :| 0 <= k < |old(ledger)| && old(ledger)[k] == Entry(disk[s], OnDisk);
        assert ledger[k] == Entry(disk[s], OnDisk);
      }
      forall e | e in ledger && e.fate == OnDisk
        ensures Name(e.archive.second) in disk && disk[Name(e.archive.second)] == e.archive
      {
        var k :| 0 <= k < |ledger| && ledger[k] == e;
        assert PurgeEntry(old(ledger)[k], cutoff) == e;
        assert old(ledger)[k] == e && e in old(ledger);
      }
    }
  }

  // ----- Runs ------------------------------------------------------------------------------------

  datatype Call = Call(record: Record, time: real)

  function LogFrom(cfg: Config, start: LogState, calls: seq<Call>): LogState {
    if calls == [] then start
    else
      var n := |calls| - 1;
      LogStep(cfg, LogFrom(cfg, start, calls[..n]), calls[n].record, calls[n].time)
  }

  /** From an empty directory. */
  function LogAfter(cfg: Config, calls: seq<Call>): LogState {
    LogFrom(cfg, EMPTY_LOG, calls)
  }

  /** The lines that a run should have written, in order. */
  function Logged(cfg: Config, calls: seq<Call>): seq<Record> {
    if calls == [] then []
    else
      var n := |calls| - 1;
      Logged(cfg, calls[..n]) +
      (if IsWritten(calls[n].record, cfg.auditReads) then [LineOf(calls[n].record)] else [])
  }

  /** The lines of all archives, in rotation order. */
  function ArchivedLines(ledger: seq<Entry>): seq<Record> {
    if ledger == [] then []
    else ArchivedLines(ledger[..|ledger| - 1]) + ledger[|ledger| - 1].archive.lines
  }

  function AllLines(s: LogState): seq<Record> {
    ArchivedLines(s.ledger) + CurrentLines(s)
  }

  predicate SameArchives(a: seq<Entry>, b: seq<Entry>) {
    |a| == |b| && forall i :: 0 <= i < |a| ==> a[i].archive == b[i].archive
  }

  lemma {:induction false} SameArchivesSameLines(a: seq<Entry>, b: seq<Entry>)
    requires SameArchives(a, b)
    ensures ArchivedLines(a) == ArchivedLines(b)
  {
    if a != [] { SameArchivesSameLines(a[..|a| - 1], b[..|b| - 1]); }
  }

  /** Rotation moves the current lines to the end of the archives. */
  lemma RotateKeepsLines(cfg: Config, s: LogState, now: real)
    requires s.current.Some?
    ensures AllLines(Rotate(cfg, s, now)) == AllLines(s)
  {
    var r := Rotate(cfg, s, now);
    var moved := s.ledger + [Entry(Archive(now.Floor, s.current.value, now), OnDisk)];
    SameArchivesSameLines(r.ledger, moved);
    assert moved[..|s.ledger|] == s.ledger;
    assert ArchivedLines(r.ledger) + [] == ArchivedLines(r.ledger);
  }

  lemma WriteAddsOneLine(cfg: Config, s: LogState, line: Record, now: real)
    ensures AllLines(WriteLine(cfg, s, line, now)) == AllLines(s) + (if Encodable(line) then [line] else [])
  {
    var r := if NeedsRotation(cfg, s) then Rotate(cfg, s, now) else s;
    if NeedsRotation(cfg, s) { RotateKeepsLines(cfg, s, now); }
    ConcatAssociative(ArchivedLines(r.ledger), CurrentLines(r), if Encodable(line) then [line] else []);
  }

  /** A call adds its line exactly when it is under the policy and can be encoded. */
  lemma LogStepAdds(cfg: Config, s: LogState, r: Record, now: real)
    ensures AllLines(LogStep(cfg, s, r, now)) ==
            AllLines(s) + (if IsWritten(r, cfg.auditReads) then [LineOf(r)] else [])
  {
    if IsLogged(r, cfg.auditReads) {
      WriteAddsOneLine(cfg, s, LineOf(r), now);
    } else {
      AppendNothing(AllLines(s));
    }
  }

  /** When a call rotates: exactly when the policy wants its line and the file has reached the size, whether
      or not the line can then be encoded. The archive is the whole file, under the second of the call; a
      call that the policy does not want touches nothing. */
  lemma RotatesExactly(cfg: Config, s: LogState, r: Record, now: real)
    ensures var after := LogStep(cfg, s, r, now);
            var wanted := r.outcome != Success || ShouldAudit(r.event, cfg.auditReads);
            var full := s.current.Some? && SizeOf(cfg, s.current.value) >= cfg.rotationSize;
            && (!wanted ==> after == s)
            && (wanted && !full ==> after.ledger == s.ledger && CurrentLines(s) <= CurrentLines(after))
            && (wanted && full ==>
                  && |after.ledger| == |s.ledger| + 1
                  && after.ledger[|s.ledger|].archive == Archive(now.Floor, s.current.value, now)
                  && (forall k :: 0 <= k < |s.ledger| ==> after.ledger[k].archive == s.ledger[k].archive)
                  && |CurrentLines(after)| <= 1)
            && (wanted ==> after.current.Some?)
  {
  }

  /** Conservation: the archives in rotation order, whatever became of them since, followed by the
      current file are what was there at the start followed by exactly all lines written, in order. */
  lemma {:induction false} LinesConserved(cfg: Config, start: LogState, calls: seq<Call>)
    ensures AllLines(LogFrom(cfg, start, calls)) == AllLines(start) + Logged(cfg, calls)
  {
    if calls == [] {
      AppendNothing(AllLines(start));
    } else {
      var n := |calls| - 1;
      LinesConserved(cfg, start, calls[..n]);
      LogStepAdds(cfg, LogFrom(cfg, start, calls[..n]), calls[n].record, calls[n].time);
      ConcatAssociative(AllLines(start), Logged(cfg, calls[..n]),
                        if IsWritten(calls[n].record, cfg.auditReads) then [LineOf(calls[n].record)] else []);
    }
  }

  // ----- What is lost ----------------------------------------------------------------------------

  function Archives(ledger: seq<Entry>): seq<Archive> {
    seq(|ledger|, i requires 0 <= i < |ledger| => ledger[i].archive)
  }

  /** A rotation from archive i's own on, and before archive j's, finds archive i too old. */
  predicate PurgedBefore(retention: real, archives: seq<Archive>, i: nat, j: nat) {
    i < |archives| && exists m :: i <= m < j && m < |archives| && archives[i].mtime < archives[m].mtime - retention
  }

  /** Archive j bears the name of archive i, which is still there. */
  predicate Replaces(retention: real, archives: seq<Archive>, i: nat, j: nat) {
    i < j < |archives| && archives[i].second == archives[j].second && !PurgedBefore(retention, archives, i, j)
  }

  predicate Replaced(retention: real, archives: seq<Archive>, i: nat) {
    exists j :: i < j < |archives| && Replaces(retention, archives, i, j)
  }

  /** What must have become of archive i, told by names and times alone. */
  function DueFate(retention: real, archives: seq<Archive>, i: nat): Fate {
    if Replaced(retention, archives, i) then Overwritten
    else if PurgedBefore(retention, archives, i, |archives|) then Purged
    else OnDisk
  }

  predicate FatesExact(retention: real, ledger: seq<Entry>) {
    forall i :: 0 <= i < |ledger| ==>
      && ledger[i].archive.second == ledger[i].archive.mtime.Floor
      && ledger[i].fate == DueFate(retention, Archives(ledger), i)
  }

  lemma PurgedBeforeLater(retention: real, archives: seq<Archive>, next: Archive, i: nat, j: nat)
    requires i < |archives| && j <= |archives|
    ensures PurgedBefore(retention, archives + [next], i, j) <==> PurgedBefore(retention, archives, i, j)
    ensures PurgedBefore(retention, archives + [next], i, |archives| + 1) <==>
            PurgedBefore(retention, archives, i, |archives|) || archives[i].mtime < next.mtime - retention
  {
    var all := archives + [next];
    assert all[i] == archives[i] && all[|archives|] == next;
    assert forall m :: 0 <= m < |archives| ==> all[m] == archives[m];
  }

  lemma ReplacedLater(retention: real, archives: seq<Archive>, next: Archive, i: nat)
    requires i < |archives|
    ensures Replaced(retention, archives + [next], i) <==>
            || Replaced(retention, archives, i)
            || (archives[i].second == next.second && !PurgedBefore(retention, archives, i, |archives|))
  {
    var all, n := archives + [next], |archives|;
    assert forall m :: 0 <= m < n ==> all[m] == archives[m];
    forall j | i < j < n ensures Replaces(retention, all, i, j) <==> Replaces(retention, archives, i, j) {
      PurgedBeforeLater(retention, archives, next, i, j);
    }
    PurgedBeforeLater(retention, archives, next, i, n);
    assert Replaces(retention, all, i, n) <==>
           archives[i].second == next.second && !PurgedBefore(retention, archives, i, n);
  }

  lemma NewestFate(retention: real, archives: seq<Archive>, next: Archive)
    ensures DueFate(retention, archives + [next], |archives|) ==
            if next.mtime < next.mtime - retention then Purged else OnDisk
  {
    assert (archives + [next])[|archives|] == next;
  }

  lemma RotateFates(cfg: Config, s: LogState, now: real)
    requires s.current.Some? && FatesExact(cfg.retentionSeconds, s.ledger)
    ensures FatesExact(cfg.retentionSeconds, Rotate(cfg, s, now).ledger)
  {
    var ledger, n := Rotate(cfg, s, now).ledger, |s.ledger|;
    var archives, next := Archives(s.ledger), Archive(now.Floor, s.current.value, now);
    assert Archives(ledger) == archives + [next];
    forall i | 0 <= i <= n ensures ledger[i].fate == DueFate(cfg.retentionSeconds, archives + [next], i) {
      if i < n {
        ReplacedLater(cfg.retentionSeconds, archives, next, i);
        PurgedBeforeLater(cfg.retentionSeconds, archives, next, i, n);
      } else {
        NewestFate(cfg.retentionSeconds, archives, next);
      }
    }
  }

  /** Over every run, whatever the clock does, each archive has the fate that names and times give it:
      replaced by the next of its name that comes while it is there, removed by the first rotation
      that finds it too old, or on disk. */
  lemma {:induction false} RunFates(cfg: Config, calls: seq<Call>)
    ensures FatesExact(cfg.retentionSeconds, LogAfter(cfg, calls).ledger)
  {
    if calls != [] {
      var n := |calls| - 1;
      RunFates(cfg, calls[..n]);
      var s := LogAfter(cfg, calls[..n]);
      if IsLogged(calls[n].record, cfg.auditReads) && NeedsRotation(cfg, s) {
        RotateFates(cfg, s, calls[n].time);
      }
    }
  }

  predicate Lossless(ledger: seq<Entry>) {
    forall e :: e in ledger ==> e.fate != Overwritten
  }

  /** No archived line is lost, save to retention, exactly when every archive whose name comes up
      again had been removed before. */
  lemma LosslessExactly(cfg: Config, calls: seq<Call>)
    ensures var ledger := LogAfter(cfg, calls).ledger; var archives := Archives(ledger);
            Lossless(ledger) <==>
              forall i, j :: 0 <= i < j < |archives| && archives[i].second == archives[j].second ==>
                PurgedBefore(cfg.retentionSeconds, archives, i, j)
  {
    RunFates(cfg, calls);
    LosslessLedger(cfg.retentionSeconds, LogAfter(cfg, calls).ledger);
  }

  lemma LosslessLedger(retention: real, ledger: seq<Entry>)
    requires FatesExact(retention, ledger)
    ensures var archives := Archives(ledger);
            Lossless(ledger) <==>
              forall i, j :: 0 <= i < j < |archives| && archives[i].second == archives[j].second ==>
                PurgedBefore(retention, archives, i, j)
  {
    var archives := Archives(ledger);
    if Lossless(ledger) {
      forall i, j | 0 <= i < j < |archives| && archives[i].second == archives[j].second
        ensures PurgedBefore(retention, archives, i, j)
      {
        assert ledger[i] in ledger;
        assert !Replaces(retention, archives, i, j);
      }
    } else {
      var e :| e in ledger && e.fate == Overwritten;
      var i :| 0 <= i < |ledger| && ledger[i] == e;
      assert Replaced(retention, archives, i);
    }
  }

  predicate ClockForward(calls: seq<Call>) {
    forall j, k :: 0 <= j < k < |calls| ==> calls[j].time <= calls[k].time
  }

  /** Rotations in distinct seconds lose nothing, whatever the clock does. With a clock that does not
      go back they are the only way to lose nothing, retention being counted in days. */
  lemma DistinctSecondsExactly(cfg: Config, calls: seq<Call>)
    ensures var ledger := LogAfter(cfg, calls).ledger;
            && (DistinctSeconds(Archives(ledger)) ==> Lossless(ledger))
            && (ClockForward(calls) && cfg.retentionSeconds >= 1.0 && Lossless(ledger) ==>
                  DistinctSeconds(Archives(ledger)))
  {
    RunFates(cfg, calls);
    var ledger := LogAfter(cfg, calls).ledger;
    if DistinctSeconds(Archives(ledger)) { DistinctIsLossless(cfg.retentionSeconds, ledger); }
    if ClockForward(calls) && cfg.retentionSeconds >= 1.0 && Lossless(ledger) {
      ArchivesForward(cfg, calls);
      LosslessIsDistinct(cfg.retentionSeconds, ledger);
    }
  }

  lemma DistinctIsLossless(retention: real, ledger: seq<Entry>)
    requires FatesExact(retention, ledger) && DistinctSeconds(Archives(ledger))
    ensures Lossless(ledger)
  {
    LosslessLedger(retention, ledger);
  }

  lemma LosslessIsDistinct(retention: real, ledger: seq<Entry>)
    requires FatesExact(retention, ledger) && TimesForward(Archives(ledger)) && retention >= 1.0
    requires Lossless(ledger)
    ensures DistinctSeconds(Archives(ledger))
  {
    var archives := Archives(ledger);
    LosslessLedger(retention, ledger);
    forall i, j | 0 <= i < j < |archives| ensures archives[i].second != archives[j].second {
      if archives[i].second == archives[j].second { RepeatNotPurged(retention, archives, i, j); }
    }
  }

  predicate TimesForward(archives: seq<Archive>) {
    forall i, j :: 0 <= i <= j < |archives| ==> archives[i].mtime <= archives[j].mtime
  }

  lemma {:induction false} ArchivesForward(cfg: Config, calls: seq<Call>)
    requires ClockForward(calls)
    ensures var archives := Archives(LogAfter(cfg, calls).ledger);
            && TimesForward(archives)
            && forall i :: 0 <= i < |archives| ==> calls != [] && archives[i].mtime <= calls[|calls| - 1].time
  {
    if calls != [] {
      var n := |calls| - 1;
      ArchivesForward(cfg, calls[..n]);
      var s := LogAfter(cfg, calls[..n]);
      if IsLogged(calls[n].record, cfg.auditReads) && NeedsRotation(cfg, s) {
        assert Archives(Rotate(cfg, s, calls[n].time).ledger) ==
               Archives(s.ledger) + [Archive(calls[n].time.Floor, s.current.value, calls[n].time)];
      }
    }
  }

  /** An archive less than a second old when its name comes up again has not been removed. */
  lemma RepeatNotPurged(retention: real, archives: seq<Archive>, i: nat, j: nat)
    requires TimesForward(archives) && retention >= 1.0 && i < j < |archives|
    requires archives[i].second == archives[i].mtime.Floor && archives[j].second == archives[j].mtime.Floor
    requires archives[i].second == archives[j].second
    ensures !PurgedBefore(retention, archives, i, j)
  {
    assert archives[j].mtime < archives[j].mtime.Floor as real + 1.0;
    assert archives[i].mtime.Floor as real <= archives[i].mtime;
  }

  /** Lines are lost: three calls at one instant whose lines reach the rotation size by themselves, as
      a patch with long texts does, leave the first line in no file. */
  lemma SameSecondLoses(cfg: Config, r: Record, t: real)
    requires IsWritten(r, cfg.auditReads) && cfg.sizeOf(LineOf(r)) >= cfg.rotationSize > 0
    requires cfg.retentionSeconds >= 0.0
    ensures var call := Call(r, t); var line := LineOf(r);
            LogAfter(cfg, [call, call, call]) ==
            LogState(Some([line]), [Entry(Archive(t.Floor, [line], t), Overwritten),
                                    Entry(Archive(t.Floor, [line], t), OnDisk)])
  {
    var call, line := Call(r, t), LineOf(r);
    SizeOfOne(cfg, line);
    RunThree(cfg, call);
    AppendNothing([line]);
    assert LogStep(cfg, EMPTY_LOG, r, t) == LogState(Some([line]), []);
    FirstRotation(cfg, line, t);
    SecondRotation(cfg, line, t);
    LargeStep(cfg, LogState(Some([line]), []), r, t);
    LargeStep(cfg, LogState(Some([line]), [Entry(Archive(t.Floor, [line], t), OnDisk)]), r, t);
  }

  lemma FirstRotation(cfg: Config, line: Record, t: real)
    requires cfg.retentionSeconds >= 0.0
    ensures Rotate(cfg, LogState(Some([line]), []), t) ==
            LogState(None, [Entry(Archive(t.Floor, [line], t), OnDisk)])
  {
  }

  /** The second archive of a second takes the place of the first. */
  lemma SecondRotation(cfg: Config, line: Record, t: real)
    requires cfg.retentionSeconds >= 0.0
    ensures var archive := Archive(t.Floor, [line], t);
            Rotate(cfg, LogState(Some([line]), [Entry(archive, OnDisk)]), t) ==
            LogState(None, [Entry(archive, Overwritten), Entry(archive, OnDisk)])
  {
  }

  lemma SizeOfOne(cfg: Config, line: Record)
    ensures SizeOf(cfg, [line]) == cfg.sizeOf(line)
  {
    assert [line][..0] == [];
  }

  lemma RunThree(cfg: Config, call: Call)
    ensures LogAfter(cfg, [call, call, call]) ==
            LogStep(cfg, LogStep(cfg, LogStep(cfg, EMPTY_LOG, call.record, call.time), call.record, call.time),
                    call.record, call.time)
  {
    assert [call, call, call][..2] == [call, call] && [call, call][..1] == [call] && [call][..0] == [];
    assert LogFrom(cfg, EMPTY_LOG, [call]) == LogStep(cfg, EMPTY_LOG, call.record, call.time);
    assert LogFrom(cfg, EMPTY_LOG, [call, call]) ==
           LogStep(cfg, LogFrom(cfg, EMPTY_LOG, [call]), call.record, call.time);
  }

  /** A call on a full file starts a new one. */
  lemma LargeStep(cfg: Config, s: LogState, r: Record, now: real)
    requires IsWritten(r, cfg.auditReads) && NeedsRotation(cfg, s)
    ensures LogStep(cfg, s, r, now) == Rotate(cfg, s, now).(current := Some([LineOf(r)]))
  {
    assert [] + [LineOf(r)] == [LineOf(r)];
  }

  // ----- Sizes -----------------------------------------------------------------------------------

  /** All but the last line stayed below the rotation size. */
  predicate GrewFromBelow(cfg: Config, lines: seq<Record>) {
    lines != [] ==> SizeOf(cfg, lines[..|lines| - 1]) < cfg.rotationSize
  }

  predicate SizesOk(cfg: Config, s: LogState) {
    && GrewFromBelow(cfg, CurrentLines(s))
    && forall i :: 0 <= i < |s.ledger| ==>
         GrewFromBelow(cfg, s.ledger[i].archive.lines) && SizeOf(cfg, s.ledger[i].archive.lines) >= cfg.rotationSize
  }

  /** Each archive reached the rotation size with its last line and not before; the current file is
      below rotation size plus last line. */
  lemma {:induction false} RunSizes(cfg: Config, calls: seq<Call>)
    requires cfg.rotationSize > 0
    ensures SizesOk(cfg, LogAfter(cfg, calls))
    ensures var lines := CurrentLines(LogAfter(cfg, calls));
            lines != [] ==> SizeOf(cfg, lines) < cfg.rotationSize + cfg.sizeOf(lines[|lines| - 1])
  {
    if calls != [] {
      var n := |calls| - 1;
      RunSizes(cfg, calls[..n]);
      var s := LogAfter(cfg, calls[..n]);
      if IsLogged(calls[n].record, cfg.auditReads) {
        WriteSizes(cfg, s, LineOf(calls[n].record), calls[n].time);
      }
    }
  }

  lemma WriteSizes(cfg: Config, s: LogState, line: Record, now: real)
    requires cfg.rotationSize > 0 && SizesOk(cfg, s)
    ensures SizesOk(cfg, WriteLine(cfg, s, line, now))
  {
    var r := if NeedsRotation(cfg, s) then Rotate(cfg, s, now) else s;
    DropLast(CurrentLines(r), line);
    AppendNothing(CurrentLines(r));
  }

  // ----- Nothing secret on any line --------------------------------------------------------------

  predicate CleanLine(line: Record) {
    line.args.Some? ==> Clean(Dict(line.args.value))
  }

  lemma LineOfIsClean(r: Record)
    ensures CleanLine(LineOf(r))
  {
    if r.args.Some? { SanitizeCleans(Dict(r.args.value)); }
  }

  /** Every line of the current file and of every archive is free of secrets. */
  lemma {:induction false} RunIsClean(cfg: Config, calls: seq<Call>)
    ensures forall line :: line in AllLines(LogAfter(cfg, calls)) ==> CleanLine(line)
  {
    LinesConserved(cfg, EMPTY_LOG, calls);
    LoggedClean(cfg, calls);
  }

  lemma {:induction false} LoggedClean(cfg: Config, calls: seq<Call>)
    ensures forall line :: line in Logged(cfg, calls) ==> CleanLine(line)
  {
    if calls != [] {
      var n := |calls| - 1;
      LoggedClean(cfg, calls[..n]);
      LineOfIsClean(calls[n].record);
    }
  }
}
