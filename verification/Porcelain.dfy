/** Parsers of NUL- and control-separated git output in tools/git.py: porcelain v1 status and the log. */
module Porcelain {
  import opened Options
  import opened Sequences
  import opened Text
  import opened BranchHeader

  const NUL := '\0'

  // ----- Status: the parser ----------------------------------------------------------------------

  datatype Staged = Staged(code: char, path: string, orig: Option<string>)
  datatype Unstaged = Unstaged(code: char, path: string)

  /** The three lists that the parser fills. */
  datatype Views = Views(staged: seq<Staged>, unstaged: seq<Unstaged>, untracked: seq<string>)
  {
    function Then(next: Views): Views {
      Views(staged + next.staged, unstaged + next.unstaged, untracked + next.untracked)
    }
  }

  datatype Status = Status(head: Head, views: Views, clean: bool)

  predicate IsRename(x: char, y: char) {
    x in {'R', 'C'} || y in {'R', 'C'}
  }

  /** What one entry contributes, given the source path when it has one. */
  function EntryViews(entry: string, orig: Option<string>): Views
    requires |entry| >= 3
  {
    var x, y, path := entry[0], entry[1], entry[3..];
    if x == '?' && y == '?' then Views([], [], [path])
    else
      Views(if x !in {' ', '?'} then [Staged(x, path, orig)] else [],
            if y !in {' ', '?'} then [Unstaged(y, path)] else [], [])
  }

  /** How many entries the one at the head uses up: two for a rename or copy that has a successor. */
  function EntryWidth(entries: seq<string>): (n: nat)
    requires entries != []
    ensures 1 <= n <= |entries|
  {
    if |entries[0]| >= 3 && IsRename(entries[0][0], entries[0][1]) && |entries| > 1 then 2 else 1
  }

  function ParseEntries(entries: seq<string>): Views {
    if entries == [] then Views([], [], [])
    else
      var rest := ParseEntries(entries[EntryWidth(entries)..]);
      if |entries[0]| < 3 then rest
      else EntryViews(entries[0], if EntryWidth(entries) == 2 then Some(entries[1]) else None).Then(rest)
  }

  /** [e for e in entries if e != ""] */
  function DropEmpty(entries: seq<string>): (kept: seq<string>)
    ensures |kept| <= |entries|
  {
    if entries == [] then []
    else (if entries[0] == "" then [] else [entries[0]]) + DropEmpty(entries[1..])
  }

  const HEADER := "## "
  const NO_HEAD := Head(None, None, 0, 0, false)

  /** The header, if there is one, and the rest of the output. */
  function CutHeader(output: string): (Head, string) {
    if !(HEADER <= output) then (NO_HEAD, output)
    else
      var nul := IndexOf(output, NUL);
      if nul < |output| then (ParseBranchHeader(output[3..nul]), output[nul + 1..])
      else (ParseBranchHeader(output[3..]), "")
  }

  function ParsedStatus(output: string): Status {
    var (head, raw) := CutHeader(output);
    var views := ParseEntries(DropEmpty(Split(raw, NUL)));
    Status(head, views, views == Views([], [], []))
  }

  lemma ThenAssociative(a: Views, b: Views, c: Views)
    ensures a.Then(b).Then(c) == a.Then(b.Then(c))
  {
    ConcatAssociative(a.staged, b.staged, c.staged);
    ConcatAssociative(a.unstaged, b.unstaged, c.unstaged);
    ConcatAssociative(a.untracked, b.untracked, c.untracked);
  }

  lemma ThenNothing(a: Views)
    ensures a.Then(Views([], [], [])) == a == Views([], [], []).Then(a)
  {
  }

  /** The views of the entries before `i`, and those of the rest, are those of all. */
  predicate Collected(entries: seq<string>, i: nat, views: Views) {
    i <= |entries| && views.Then(ParseEntries(entries[i..])) == ParseEntries(entries)
  }

  function OrigAt(entries: seq<string>, i: nat): Option<string>
    requires i < |entries| && |entries[i]| >= 3
  {
    if IsRename(entries[i][0], entries[i][1]) && i + 1 < |entries| then Some(entries[i + 1]) else None
  }

  /** One turn of the loop: the entry at `i` adds its views and the index moves on by its width. */
  lemma ParseStep(entries: seq<string>, i: nat, before: Views, after: Views)
    requires i < |entries| && |entries[i]| >= 3 && Collected(entries, i, before)
    requires after == before.Then(EntryViews(entries[i], OrigAt(entries, i)))
    ensures Collected(entries, i + (if OrigAt(entries, i).Some? then 2 else 1), after)
  {
    var rest := entries[i..];
    var w := EntryWidth(rest);
    assert rest[0] == entries[i] && (w == 2 ==> rest[1] == entries[i + 1]);
    assert rest[w..] == entries[i + w..];
    ThenAssociative(before, EntryViews(entries[i], OrigAt(entries, i)), ParseEntries(rest[w..]));
  }

  lemma SkipStep(entries: seq<string>, i: nat, before: Views)
    requires i < |entries| && |entries[i]| < 3 && Collected(entries, i, before)
    ensures Collected(entries, i + 1, before)
  {
    var rest := entries[i..];
    assert rest[0] == entries[i] && rest[1..] == entries[i + 1..];
  }

  /** The entry's additions, list by list. */
  lemma EntryAdds(before: Views, entry: string, orig: Option<string>, after: Views)
    requires |entry| >= 3 && !(entry[0] == '?' && entry[1] == '?')
    requires after.staged ==
             if entry[0] in {' ', '?'} then before.staged else before.staged + [Staged(entry[0], entry[3..], orig)]
    requires after.unstaged ==
             if entry[1] in {' ', '?'} then before.unstaged else before.unstaged + [Unstaged(entry[1], entry[3..])]
    requires after.untracked == before.untracked
    ensures after == before.Then(EntryViews(entry, orig))
  {
  }

  lemma UntrackedAdds(before: Views, entry: string, after: Views)
    requires |entry| >= 3 && entry[0] == '?' && entry[1] == '?'
    requires after == before.(untracked := before.untracked + [entry[3..]])
    ensures after == before.Then(EntryViews(entry, None))
  {
  }

  /** The while loop of _parse_porcelain_v1. */
  method CollectEntries(entries: seq<string>) returns (views: Views)
    ensures views == ParseEntries(entries)
  {
    var staged: seq<Staged>, unstaged: seq<Unstaged>, untracked: seq<string> := [], [], [];
    var i := 0;
    ThenNothing(ParseEntries(entries));
    assert entries[0..] == entries;
    while i < |entries|
      invariant Collected(entries, i, Views(staged, unstaged, untracked))
    {
      var entry := entries[i];
      ghost var at, before := i, Views(staged, unstaged, untracked);
      if |entry| < 3 {
        SkipStep(entries, at, before);
        i := i + 1;
        continue;
      }
      var x, y, path := entry[0], entry[1], entry[3..];
      if x == '?' && y == '?' {
        untracked := untracked + [path];
        UntrackedAdds(before, entry, Views(staged, unstaged, untracked));
        ParseStep(entries, at, before, Views(staged, unstaged, untracked));
        i := i + 1;
        continue;
      }
      var orig: Option<string> := None;
      if IsRename(x, y) {
        if i + 1 < |entries| {
          orig := Some(entries[i + 1]);
          i := i + 1;
        }
      }
      if x !in {' ', '?'} {
        staged := staged + [Staged(x, path, orig)];
      }
      if y !in {' ', '?'} {
        unstaged := unstaged + [Unstaged(y, path)];
      }
      EntryAdds(before, entry, orig, Views(staged, unstaged, untracked));
      ParseStep(entries, at, before, Views(staged, unstaged, untracked));
      i := i + 1;
    }
    views := Views(staged, unstaged, untracked);
    ThenNothing(views);
  }

  /** _parse_porcelain_v1 */
  method ParsePorcelainV1(output: string) returns (status: Status)
    ensures status == ParsedStatus(output)
  {
    var (head, raw) := CutHeader(output);
    var views := CollectEntries(DropEmpty(Split(raw, NUL)));
    status := Status(head, views, views.staged == [] && views.unstaged == [] && views.untracked == []);
  }

  // ----- Status: what git prints -----------------------------------------------------------------

  /** One changed path; `orig` is printed for renames and copies only. */
  datatype Record = Record(x: char, y: char, path: string, orig: string)
  {
    predicate Untracked() { x == '?' && y == '?' }

    predicate Moved() { x == 'R' || x == 'C' || y == 'R' || y == 'C' }

    predicate Valid() {
      && path != "" && NUL !in path
      && (Moved() ==> orig != "" && NUL !in orig)
      && (Untracked() || (IsCode(x) && IsCode(y) && !(x == ' ' && y == ' ')))
    }

    /** The NUL-terminated fields that git prints for the record. */
    function Fields(): seq<string> {
      [[x, y, ' '] + path] + (if Moved() then [orig] else [])
    }
  }

  predicate IsCode(c: char) {
    c in {' ', 'M', 'T', 'A', 'D', 'R', 'C', 'U'}
  }

  predicate AllValid(records: seq<Record>) {
    forall k :: 0 <= k < |records| ==> records[k].Valid()
  }

  function AllFields(records: seq<Record>): seq<string> {
    if records == [] then [] else records[0].Fields() + AllFields(records[1..])
  }

  /** git status --porcelain=v1 -z */
  function PrintRecords(records: seq<Record>): string {
    Terminated(AllFields(records), '\0')
  }

  /** git status --porcelain=v1 --branch -z */
  function PrintStatus(state: State, records: seq<Record>): string {
    "## " + PrintHeader(state) + ['\0'] + PrintRecords(records)
  }

  // The three views, each read off the list of records on its own.

  function StagedView(records: seq<Record>): seq<Staged> {
    if records == [] then []
    else
      var r := records[0];
      (if r.x in {' ', '?'} then []
       else [Staged(r.x, r.path, if r.Moved() then Some(r.orig) else None)]) + StagedView(records[1..])
  }

  function UnstagedView(records: seq<Record>): seq<Unstaged> {
    if records == [] then []
    else
      var r := records[0];
      (if r.y in {' ', '?'} then [] else [Unstaged(r.y, r.path)]) + UnstagedView(records[1..])
  }

  function UntrackedView(records: seq<Record>): seq<string> {
    if records == [] then []
    else (if records[0].Untracked() then [records[0].path] else []) + UntrackedView(records[1..])
  }

  function ViewsOf(records: seq<Record>): Views {
    Views(StagedView(records), UnstagedView(records), UntrackedView(records))
  }

  // ----- Status: round trip ----------------------------------------------------------------------

  lemma {:induction false} FieldsAreClean(records: seq<Record>)
    requires AllValid(records)
    ensures forall k :: 0 <= k < |AllFields(records)| ==> AllFields(records)[k] != "" && NUL !in AllFields(records)[k]
  {
    if records != [] {
      assert records[0].Valid();
      FieldsAreClean(records[1..]);
    }
  }

  lemma {:induction false} DropEmptyKeeps(fields: seq<string>)
    requires forall k :: 0 <= k < |fields| ==> fields[k] != ""
    ensures DropEmpty(fields + [[]]) == fields
  {
    if fields == [] {
      assert fields + [[]] == [[]];
      assert DropEmpty([[]]) == [] + DropEmpty([]);
    } else {
      assert (fields + [[]])[1..] == fields[1..] + [[]];
      DropEmptyKeeps(fields[1..]);
    }
  }

  /** Each record is read back whole: its source path is never taken for an entry, whatever it says. */
  lemma {:induction false} ParseFields(records: seq<Record>)
    requires AllValid(records)
    ensures ParseEntries(AllFields(records)) == ViewsOf(records)
  {
    if records != [] {
      var r := records[0];
      assert r.Valid();
      var fields := AllFields(records);
      assert fields[0] == [r.x, r.y, ' '] + r.path;
      assert fields[0][3..] == r.path;
      assert fields[EntryWidth(fields)..] == AllFields(records[1..]);
      ParseFields(records[1..]);
    }
  }

  lemma ParsePrintedRecords(records: seq<Record>)
    requires AllValid(records)
    ensures ParseEntries(DropEmpty(Split(PrintRecords(records), NUL))) == ViewsOf(records)
  {
    FieldsAreClean(records);
    SplitTerminated(AllFields(records), NUL);
    DropEmptyKeeps(AllFields(records));
    ParseFields(records);
  }

  lemma CutPrintedHeader(header: string, rest: string)
    requires NUL !in header
    ensures CutHeader(HEADER + header + [NUL] + rest) == (ParseBranchHeader(header), rest)
  {
    var output := HEADER + header + [NUL] + rest;
    IndexOfAfter(HEADER + header, NUL, rest);
    assert output[3..|HEADER + header|] == header;
    assert output[|HEADER + header| + 1..] == rest;
    assert output[..3] == HEADER;
  }

  /** No view at all means no record at all: every valid record shows in one of the views. */
  lemma EveryRecordShows(records: seq<Record>)
    requires AllValid(records)
    ensures ViewsOf(records) == Views([], [], []) <==> records == []
  {
    if records != [] {
      var r := records[0];
      assert r.Valid();
      assert |StagedView(records)| + |UnstagedView(records)| + |UntrackedView(records)| > 0;
    }
  }

  /** Porcelain round trip: for every list of status records with valid paths, what git prints is
      parsed back into exactly the staged, unstaged and untracked views of that list, in order, and
      `clean` holds exactly when the list is empty. */
  lemma {:induction false} StatusRoundTrip(state: State, records: seq<Record>)
    requires AllValid(records) && NUL !in PrintHeader(state)
    ensures var status := ParsedStatus(PrintStatus(state, records));
            && status.head == ParseBranchHeader(PrintHeader(state))
            && status.views == ViewsOf(records)
            && (status.clean <==> records == [])
  {
    CutPrintedHeader(PrintHeader(state), PrintRecords(records));
    ParsePrintedRecords(records);
    EveryRecordShows(records);
  }

  /** The same without a header: no record is mistaken for one. */
  lemma HeaderlessRoundTrip(records: seq<Record>)
    requires AllValid(records)
    ensures var status := ParsedStatus(PrintRecords(records));
            && status.head == NO_HEAD && status.views == ViewsOf(records) && (status.clean <==> records == [])
  {
    if records != [] {
      assert records[0].Valid();
      assert PrintRecords(records)[0] == records[0].x != '#';
    }
    assert !(HEADER <= PrintRecords(records));
    ParsePrintedRecords(records);
    EveryRecordShows(records);
  }

  /** A valid state prints no NUL, so the round trip of a whole status is exact as its header is. */
  lemma {:induction false} WholeStatusRoundTrip(state: State, records: seq<Record>)
    requires AllValid(records) && ValidState(state)
    ensures ParsedStatus(PrintStatus(state, records)) == Status(Report(state), ViewsOf(records), records == [])
            <==> TrimmedNames(state)
  {
    HeaderHasNoNul(state);
    StatusRoundTrip(state, records);
    HeaderRoundTrip(state);
  }

  lemma HeaderHasNoNul(state: State)
    requires ValidState(state)
    ensures NUL !in PrintHeader(state)
  {
    match state
    case Detached =>
    case Unborn(name) => RefNameAvoids(name, NUL);
    case OnBranch(name, NoUpstream) => RefNameAvoids(name, NUL);
    case OnBranch(name, Gone(upstream)) => NamesAvoidNul(name, upstream);
    case OnBranch(name, Tracks(upstream, ahead, behind)) =>
      NamesAvoidNul(name, upstream);
      CountsAvoidNul(ahead, behind);
  }

  lemma NamesAvoidNul(name: string, upstream: string)
    requires RefName(name) && RefName(upstream)
    ensures NUL !in name + "..." + upstream
  {
    RefNameAvoids(name, NUL);
    RefNameAvoids(upstream, NUL);
  }

  lemma CountsAvoidNul(ahead: nat, behind: nat)
    ensures NUL !in CountsText(ahead, behind)
  {
    NumberedAvoids(NUL, "behind", behind, "");
    NumberedAvoids(NUL, "ahead", ahead, "");
    NumberedAvoids(NUL, "ahead", ahead, ", " + Numbered("behind", behind, ""));
  }

  // ----- Unmerged records ------------------------------------------------------------------------

  /** _CONFLICT_CODES of tools/notes.py */
  predicate IsConflictCode(x: char, y: char) {
    [x, y] in {"DD", "AU", "UD", "UA", "DU", "AA", "UU"}
  }

  /** Unmerged, in the words of git: both sides are added, deleted or updated, and one of them is updated or
      both are alike. */
  lemma ConflictCodeExactly(x: char, y: char)
    ensures IsConflictCode(x, y) <==>
              x in {'A', 'D', 'U'} && y in {'A', 'D', 'U'} && (x == 'U' || y == 'U' || x == y)
  {
    var code := [x, y];
    assert code[0] == x && code[1] == y;
    assert x == 'A' && y == 'A' ==> code == "AA";
    assert x == 'D' && y == 'D' ==> code == "DD";
    assert x == 'U' && y == 'U' ==> code == "UU";
    assert x == 'A' && y == 'U' ==> code == "AU";
    assert x == 'U' && y == 'A' ==> code == "UA";
    assert x == 'D' && y == 'U' ==> code == "DU";
    assert x == 'U' && y == 'D' ==> code == "UD";
  }

  predicate StartsWithConflict(entry: string) {
    |entry| >= 2 && IsConflictCode(entry[0], entry[1])
  }

  /** The scan of _ensure_tree_not_conflicted over the status output. */
  predicate ReportsConflict(output: string) {
    exists entry | entry in Split(output, NUL) :: StartsWithConflict(entry)
  }

  lemma {:induction false} FieldOrigin(records: seq<Record>, entry: string)
    ensures entry in AllFields(records) <==>
              exists r :: r in records && entry in r.Fields()
  {
    if records != [] {
      FieldOrigin(records[1..], entry);
      assert records == [records[0]] + records[1..];
    }
  }

  /** The record is unmerged, or is a rename or copy whose source path starts like a conflict code. */
  predicate LooksUnmerged(r: Record) {
    IsConflictCode(r.x, r.y) || (r.Moved() && |r.orig| >= 2 && IsConflictCode(r.orig[0], r.orig[1]))
  }

  lemma ConflictInFields(r: Record)
    ensures LooksUnmerged(r) <==> exists f :: f in r.Fields() && StartsWithConflict(f)
  {
    var entry := [r.x, r.y, ' '] + r.path;
    assert entry in r.Fields();
    assert r.Moved() ==> r.orig in r.Fields();
    assert StartsWithConflict(entry) <==> IsConflictCode(r.x, r.y);
  }

  lemma SplitOfPrinted(records: seq<Record>, entry: string)
    requires AllValid(records) && StartsWithConflict(entry)
    ensures entry in Split(PrintRecords(records), NUL) <==> entry in AllFields(records)
  {
    FieldsAreClean(records);
    SplitTerminated(AllFields(records), NUL);
  }

  /** A write is refused exactly when some record is unmerged, or the source path of some rename or
      copy happens to start with the two letters of a conflict code. */
  lemma ConflictRefusal(records: seq<Record>)
    requires AllValid(records)
    ensures ReportsConflict(PrintRecords(records)) <==> exists r :: r in records && LooksUnmerged(r)
  {
    if ReportsConflict(PrintRecords(records)) {
      var entry :| entry in Split(PrintRecords(records), NUL) && StartsWithConflict(entry);
      SplitOfPrinted(records, entry);
      FieldOrigin(records, entry);
      var r :| r in records && entry in r.Fields();
      ConflictInFields(r);
    }
    if r :| r in records && LooksUnmerged(r) {
      ConflictInFields(r);
      var entry :| entry in r.Fields() && StartsWithConflict(entry);
      FieldOrigin(records, entry);
      SplitOfPrinted(records, entry);
    }
  }

  /** The refusal is one-sided: a staged rename with nothing unmerged is refused too. */
  lemma RenameSourceRefused() returns (records: seq<Record>)
    ensures AllValid(records) && ReportsConflict(PrintRecords(records))
    ensures forall r :: r in records ==> !IsConflictCode(r.x, r.y)
  {
    var r := Record('R', ' ', "b.md", "UUID.md");
    records := [r];
    assert r in records && StartsWithConflict(r.orig);
    ConflictRefusal(records);
  }

  // ----- Log -------------------------------------------------------------------------------------

  const LOG_FS := '\U{1F}'
  const LOG_RS := '\U{1E}'

  datatype Commit = Commit(
    hash: string, shortHash: string, author: string, email: string, date: string, subject: string)
  {
    function Fields(): seq<string> {
      [hash, shortHash, author, email, date, subject]
    }

    /** Git prints a hash first, and a subject, which is one line, last. */
    predicate Printable() {
      hash != "" && hash[0] != '\n' && (subject == "" || subject[|subject| - 1] != '\n')
    }

    /** No field holds one of the two characters that the output is split at; git allows both. */
    predicate NoSeparator() {
      forall k :: 0 <= k < 6 ==> LOG_FS !in Fields()[k] && LOG_RS !in Fields()[k]
    }

    predicate Valid() {
      Printable() && NoSeparator()
    }
  }

  function LStripNewlines(s: string): string {
    if s != [] && s[0] == '\n' then LStripNewlines(s[1..]) else s
  }

  function RStripNewlines(s: string): string {
    if s != [] && s[|s| - 1] == '\n' then RStripNewlines(s[..|s| - 1]) else s
  }

  /** record.strip("\n"), split into fields */
  function RecordParts(record: string): seq<string> {
    Split(RStripNewlines(LStripNewlines(record)), LOG_FS)
  }

  function ParseRecord(record: string): Option<Commit> {
    var p := RecordParts(record);
    if RStripNewlines(LStripNewlines(record)) == "" || |p| < 6 then None
    else Some(Commit(p[0], p[1], p[2], p[3], p[4], p[5]))
  }

  function ParseLog(records: seq<string>): seq<Commit> {
    if records == [] then []
    else
      ToSeq(ParseRecord(records[0])) + ParseLog(records[1..])
  }

  function ToSeq<T>(x: Option<T>): seq<T> {
    if x.Some? then [x.value] else []
  }

  lemma ParseLogStep(records: seq<string>, i: nat, before: seq<Commit>)
    requires i < |records|
    requires before + ParseLog(records[i..]) == ParseLog(records)
    ensures before + ToSeq(ParseRecord(records[i])) + ParseLog(records[i + 1..]) == ParseLog(records)
  {
    assert records[i..][1..] == records[i + 1..];
    ConcatAssociative(before, ToSeq(ParseRecord(records[i])), ParseLog(records[i + 1..]));
  }

  /** The loop of git_log over the output of git. */
  method GitLog(stdout: string) returns (commits: seq<Commit>)
    ensures commits == ParseLog(Split(stdout, LOG_RS))
  {
    var records := Split(stdout, LOG_RS);
    commits := [];
    assert records[0..] == records;
    for i := 0 to |records|
      invariant commits + ParseLog(records[i..]) == ParseLog(records)
    {
      ParseLogStep(records, i, commits);
      ghost var before := commits;
      var record := RStripNewlines(LStripNewlines(records[i]));
      if record == "" {
        assert before + ToSeq(None) == commits;
        continue;
      }
      var parts := Split(record, LOG_FS);
      if |parts| < 6 {
        assert before + ToSeq(None) == commits;
        continue;
      }
      commits := commits + [Commit(parts[0], parts[1], parts[2], parts[3], parts[4], parts[5])];
    }
  }

  /** git log --pretty=format: puts a newline between records, in front of every one but the first. */
  function PrintedRecords(commits: seq<Commit>, lead: string): seq<string> {
    if commits == [] then []
    else [lead + Join(commits[0].Fields(), [LOG_FS])] + PrintedRecords(commits[1..], "\n")
  }

  function PrintLog(commits: seq<Commit>): string {
    Terminated(PrintedRecords(commits, ""), LOG_RS)
  }

  lemma {:induction false} JoinAvoids(parts: seq<string>, sep: string, c: char)
    requires c !in sep && forall k :: 0 <= k < |parts| ==> c !in parts[k]
    ensures c !in Join(parts, sep)
  {
    if |parts| > 1 { JoinAvoids(parts[1..], sep, c); }
  }

  lemma RecordText(commit: Commit)
    requires commit.Valid()
    ensures var text := Join(commit.Fields(), [LOG_FS]);
            && LOG_RS !in text && text != "" && text[0] != '\n' && text[|text| - 1] != '\n'
  {
    var f := commit.Fields();
    var text := Join(f, [LOG_FS]);
    assert forall k :: 0 <= k < |f| ==> LOG_RS !in f[k];
    JoinAvoids(f, [LOG_FS], LOG_RS);
    JoinHead(f, [LOG_FS]);
    JoinLast(f, [LOG_FS]);
    assert text[0] == f[0][0];
    assert f[5] != "" ==> text[|text| - 1] == f[5][|f[5]| - 1];
    assert f[5] == "" ==> text[|text| - 1] == LOG_FS;
  }

  lemma JoinHead<T>(parts: seq<seq<T>>, sep: seq<T>)
    requires parts != []
    ensures parts[0] <= Join(parts, sep)
  {
  }

  lemma {:induction false} JoinLast<T>(parts: seq<seq<T>>, sep: seq<T>)
    requires |parts| > 1
    ensures var last := sep + parts[|parts| - 1]; var text := Join(parts, sep);
            |last| <= |text| && text[|text| - |last|..] == last
  {
    if |parts| > 2 {
      JoinLast(parts[1..], sep);
    } else {
      assert Join(parts[1..], sep) == parts[1];
    }
  }

  lemma ParsePrintedRecord(commit: Commit, lead: string)
    requires commit.Valid() && lead in {"", "\n"}
    ensures ParseRecord(lead + Join(commit.Fields(), [LOG_FS])) == Some(commit)
  {
    var text := Join(commit.Fields(), [LOG_FS]);
    RecordText(commit);
    var f := commit.Fields();
    assert forall k :: 0 <= k < |f| ==> LOG_FS !in f[k];
    SplitJoin(f, LOG_FS);
    StripLead(lead, text);
  }

  lemma StripLead(lead: string, text: string)
    requires lead in {"", "\n"} && text != "" && text[0] != '\n' && text[|text| - 1] != '\n'
    ensures RStripNewlines(LStripNewlines(lead + text)) == text
  {
    assert lead == "" ==> lead + text == text;
    assert lead == "\n" ==> (lead + text)[1..] == text;
    assert RStripNewlines(text) == text;
  }

  /** Log round trip: the log comes back, field by field and in order, exactly when no field of any
      commit holds a separator. */
  lemma LogRoundTrip(commits: seq<Commit>)
    requires forall k :: 0 <= k < |commits| ==> commits[k].Printable()
    ensures ParseLog(Split(PrintLog(commits), LOG_RS)) == commits <==>
            forall k :: 0 <= k < |commits| ==> commits[k].NoSeparator()
  {
    if forall k :: 0 <= k < |commits| ==> commits[k].NoSeparator() {
      PrintedRecordsAvoid(commits, "");
      SplitTerminated(PrintedRecords(commits, ""), LOG_RS);
      ParsePrintedLog(commits, "");
    }
    SplitAvoids(PrintLog(commits), LOG_RS);
    ParsedHasNoSeparator(Split(PrintLog(commits), LOG_RS));
  }

  /** Whatever git printed, no field of a parsed commit holds a separator. */
  lemma {:induction false} ParsedHasNoSeparator(records: seq<string>)
    requires forall k :: 0 <= k < |records| ==> LOG_RS !in records[k]
    ensures forall k :: 0 <= k < |ParseLog(records)| ==> ParseLog(records)[k].NoSeparator()
  {
    if records != [] {
      ParsedHasNoSeparator(records[1..]);
      if ParseRecord(records[0]).Some? { RecordHasNoSeparator(records[0]); }
    }
  }

  lemma RecordHasNoSeparator(record: string)
    requires LOG_RS !in record && ParseRecord(record).Some?
    ensures ParseRecord(record).value.NoSeparator()
  {
    var text := RStripNewlines(LStripNewlines(record));
    StrippedNewlines(record);
    SplitAvoids(text, LOG_FS);
    var commit, parts := ParseRecord(record).value, RecordParts(record);
    assert forall k :: 0 <= k < 6 ==> commit.Fields()[k] == parts[k];
  }

  lemma StrippedNewlines(s: string)
    ensures forall c :: c in RStripNewlines(LStripNewlines(s)) ==> c in s
  {
    LStrippedNewlines(s);
    RStrippedNewlines(LStripNewlines(s));
  }

  lemma {:induction false} LStrippedNewlines(s: string)
    ensures forall c :: c in LStripNewlines(s) ==> c in s
  {
    if s != [] && s[0] == '\n' { LStrippedNewlines(s[1..]); }
  }

  lemma {:induction false} RStrippedNewlines(s: string)
    ensures forall c :: c in RStripNewlines(s) ==> c in s
  {
    if s != [] && s[|s| - 1] == '\n' { RStrippedNewlines(s[..|s| - 1]); }
  }

  lemma {:induction false} PrintedRecordsAvoid(commits: seq<Commit>, lead: string)
    requires lead in {"", "\n"}
    requires forall k :: 0 <= k < |commits| ==> commits[k].Valid()
    ensures forall k :: 0 <= k < |PrintedRecords(commits, lead)| ==> LOG_RS !in PrintedRecords(commits, lead)[k]
  {
    if commits != [] {
      RecordText(commits[0]);
      PrintedRecordsAvoid(commits[1..], "\n");
    }
  }

  lemma {:induction false} ParsePrintedLog(commits: seq<Commit>, lead: string)
    requires lead in {"", "\n"}
    requires forall k :: 0 <= k < |commits| ==> commits[k].Valid()
    ensures ParseLog(PrintedRecords(commits, lead) + [[]]) == commits
  {
    if commits == [] {
      assert PrintedRecords(commits, lead) + [[]] == [[]];
      assert ParseRecord("") == None;
      assert ParseLog([[]]) == [] + ParseLog([]);
    } else {
      var head, tail := lead + Join(commits[0].Fields(), [LOG_FS]), PrintedRecords(commits[1..], "\n");
      ConcatAssociative([head], tail, [[]]);
      ParsePrintedRecord(commits[0], lead);
      ParsePrintedLog(commits[1..], "\n");
      ParseLogHead(head, tail + [[]], commits[0]);
      SplitHead(commits);
    }
  }

  lemma ParseLogHead(record: string, rest: seq<string>, commit: Commit)
    requires ParseRecord(record) == Some(commit)
    ensures ParseLog([record] + rest) == [commit] + ParseLog(rest)
  {
    assert ([record] + rest)[1..] == rest;
  }
}
