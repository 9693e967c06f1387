/** The notes vault of tools/notes.py: notes_write and notes_sync_pull against a remote that other
    clones push to.

    Git is an abstract machine. A history is the sequence of its patches, and a commit is identified
    by the history it ends, as a hash chain is. What the network, other clones and a merge decide is
    an argument of each step, so that a statement about all steps is one about every interleaving. */
module NotesSync {
  import opened Options
  import opened Text
  import opened Sequences
  import PR = PathResolution
  import PO = Porcelain

  type Path = seq<string>

  datatype Author = Bridge | OtherClone

  /** A commit's own change: the new content of each path it touches, None where it deletes. */
  datatype Patch = Patch(author: Author, message: string, changes: map<Path, Option<string>>)

  type History = seq<Patch>

  type Files = map<Path, string>

  // ----- Histories -------------------------------------------------------------------------------

  function ApplyPatch(files: Files, p: Patch): Files {
    map q | q in files.Keys + p.changes.Keys && (q in p.changes ==> p.changes[q].Some?) ::
      if q in p.changes then p.changes[q].value else files[q]
  }

  /** The committed content of every path. */
  function Checkout(h: History): Files {
    if h == [] then map[] else ApplyPatch(Checkout(h[..|h| - 1]), h[|h| - 1])
  }

  /** Length of the longest common prefix: the merge base. */
  function Common(a: History, b: History): (c: nat)
    ensures c <= |a| && c <= |b| && a[..c] == b[..c]
    ensures c < |a| && c < |b| ==> a[c] != b[c]
  {
    if a == [] || b == [] || a[0] != b[0] then 0
    else
      var c := Common(a[1..], b[1..]);
      assert a[..c + 1] == [a[0]] + a[1..][..c] && b[..c + 1] == [b[0]] + b[1..][..c];
      c + 1
  }

  predicate AllBy(h: History, author: Author) {
    forall i :: 0 <= i < |h| ==> h[i].author == author
  }

  /** The bridge's own commits, in order, each seen through `view`. */
  function Own<T>(view: Patch -> T, h: History): seq<T> {
    if h == [] then [] else Own(view, h[..|h| - 1]) + OwnLabel(view, h[|h| - 1])
  }

  function OwnLabel<T>(view: Patch -> T, p: Patch): seq<T> {
    if p.author == Bridge then [view(p)] else []
  }

  /** A commit seen whole, and seen as its message: what was done to which path. */
  function Whole(p: Patch): Patch { p }

  function MessageOf(p: Patch): string { p.message }

  function Touched(h: History): set<Path> {
    if h == [] then {} else Touched(h[..|h| - 1]) + h[|h| - 1].changes.Keys
  }

  // ----- The vault and its remote ----------------------------------------------------------------

  /** The remote branch; the vault's branch; the files of the working tree; and whether a rebase is in
      progress. */
  datatype World = World(remote: History, local: History, files: Files, stuck: bool)

  /** Local-only commits. */
  function Pending(w: World): History {
    w.local[Common(w.local, w.remote)..]
  }

  /** Remote commits that the vault does not have. */
  function Incoming(w: World): History {
    w.remote[Common(w.local, w.remote)..]
  }

  /** No file differs from its commit. */
  predicate Clean(w: World) {
    w.files == Checkout(w.local)
  }

  function ContentAt(files: Files, rel: Path): Option<string> {
    if rel in files then Some(files[rel]) else None
  }

  // ----- git pull --rebase --autostash -----------------------------------------------------------

  /** What a replay makes of a local-only commit. */
  datatype Replayed = Kept(patch: Patch) | Dropped

  function KeptOf(replay: seq<Replayed>): History {
    if replay == [] then []
    else KeptOf(replay[..|replay| - 1]) + (if replay[|replay| - 1].Kept? then [replay[|replay| - 1].patch] else [])
  }

  /** How a pull goes. `replay` are the local-only commits as replayed; `restored` is the working tree
      with autostash put back; `aborted` says whether rebase --abort works after a failure; `left` is
      the working tree that git leaves where it stops half-way. */
  datatype PullRun =
    | Unreachable(aborted: bool, left: Files)
    | Fetched(replay: seq<Replayed>, restored: Files, inTime: bool, aborted: bool, left: Files)
    | TimedOut(midRebase: bool, left: Files)

  /** A replay keeps author and message of a commit, and keeps it whole when nothing incoming touches
      its paths. Of a commit that incoming ones overlap it may merge the content, follow a note to the
      name that it has been given, or drop the commit when it finds its change there already. */
  predicate ReplaysAs(p: Patch, incoming: History, r: Replayed) {
    match r
    case Kept(q) =>
      && q.author == p.author && q.message == p.message
      && (p.changes.Keys !! Touched(incoming) ==> q == p)
    case Dropped => !(p.changes.Keys !! Touched(incoming))
  }

  predicate Replays(pending: History, incoming: History, replay: seq<Replayed>) {
    |replay| == |pending| && forall i :: 0 <= i < |pending| ==> ReplaysAs(pending[i], incoming, replay[i])
  }

  /** The rebase succeeds: none is in progress and the commits replay without conflict. Of a clean
      working tree it makes a clean one. */
  predicate Rebases(w: World, run: PullRun) {
    && run.Fetched?
    && !w.stuck
    && Replays(Pending(w), Incoming(w), run.replay)
    && (Clean(w) ==> run.restored == Checkout(w.remote + KeptOf(run.replay)))
  }

  /** How many commits the pull drops. */
  function DropsOf(w: World, run: PullRun): nat
    ensures DropsOf(w, run) <= |Pending(w)|
  {
    if Rebases(w, run) && |KeptOf(run.replay)| <= |Pending(w)| then |Pending(w)| - |KeptOf(run.replay)| else 0
  }

  /** A pull that exits with an error, after rebase --abort. A fetch that fails touches nothing, unless
      the abort then ends a rebase that was in progress; an abort of this pull's own rebase brings the
      working tree back; without it the rebase stays in progress. */
  function FailPull(w: World, fetched: bool, aborted: bool, left: Files): World {
    if aborted then w.(stuck := false, files := if w.stuck then left else w.files)
    else if fetched then w.(stuck := true, files := left)
    else w
  }

  /** _pull_rebase: the new world, and whether the call returns rather than raises. A pull that
      times out is not aborted. */
  function PullStep(w: World, run: PullRun): (World, bool) {
    if Rebases(w, run) then
      (w.(local := w.remote + KeptOf(run.replay), files := run.restored), run.inTime)
    else
      match run
      case Unreachable(aborted, left) => (FailPull(w, false, aborted, left), false)
      case Fetched(_, _, _, aborted, left) => (FailPull(w, true, aborted, left), false)
      case TimedOut(midRebase, left) => (w.(stuck := w.stuck || midRebase, files := left), false)
  }

  // ----- notes_write -----------------------------------------------------------------------------

  datatype Setup = Setup(root: seq<string>, writeDirs: seq<string>)

  datatype WriteRequest = WriteRequest(mode: string, path: string, content: string)

  /** A change that another clone commits and pushes. */
  datatype Edit = Edit(message: string, changes: map<Path, Option<string>>)

  datatype CommitRun = CommitFails | CommitRuns(inTime: bool)

  datatype PushRun = NoPush | PushFails | PushReaches(reported: bool)

  /** Everything outside the call: the file layout that paths resolve in, the status output (None
      when git status fails), the pull, what others push before our push, the commit, the push. */
  datatype WriteRun = WriteRun(
    layout: PR.Tree, status: Option<string>, pull: PullRun, others: seq<Edit>, commit: CommitRun, push: PushRun)

  datatype Response =
    | Pushed(path: Path, commit: History)
    | Pulled(updated: bool)
    | BadMode
    | PathRejected(verdict: PR.Verdict)
    | FileError
    | WriteNotAllowed
    | SyncError

  const CREATE := "create"
  const OVERWRITE := "overwrite"
  const APPEND := "append"

  predicate ValidMode(mode: string) {
    mode == CREATE || mode == OVERWRITE || mode == APPEND
  }

  /** Path.suffix of a file name: from the last dot, if that is neither first nor last. */
  function Suffix(name: string): string {
    var i := LastDot(name);
    if 0 < i < |name| - 1 then name[i..] else ""
  }

  function LastDot(s: string): (i: nat)
    ensures i <= |s| && (i < |s| ==> s[i] == '.')
    ensures i < |s| ==> '.' !in s[i + 1..]
    ensures i == |s| ==> '.' !in s
  {
    if s == [] then 0
    else if s[|s| - 1] == '.' then |s| - 1
    else
      assert s == s[..|s| - 1] + [s[|s| - 1]];
      var i := LastDot(s[..|s| - 1]);
      assert i < |s| - 1 ==> s[i + 1..] == s[..|s| - 1][i + 1..] + [s[|s| - 1]];
      if i == |s| - 1 then |s| else i
  }

  predicate IsMarkdown(target: Path) {
    target != [] && Lower(Suffix(target[|target| - 1])) == ".md"
  }

  datatype Resolution = Note(rel: Path) | Refused(response: Response)

  /** _resolve_md: containment, then the extension. */
  function ResolveMd(setup: Setup, layout: PR.Tree, path: string): Resolution {
    ResolveNote(setup, layout, PR.ParsePath(path))
  }

  function ResolveNote(setup: Setup, layout: PR.Tree, path: PR.RawPath): Resolution {
    var verdict := PR.ResolveWithin(layout, setup.root, path);
    if !verdict.Resolved? then Refused(PathRejected(verdict))
    else if !IsMarkdown(verdict.path) then Refused(FileError)
    else Note(verdict.path[|PR.Resolve(layout, true, [], setup.root, {}).path|..])
  }

  predicate InWriteDirs(setup: Setup, rel: Path) {
    rel != [] && rel[0] in setup.writeDirs && |rel| >= 2
  }

  /** The checks before anything is touched. */
  function Admit(setup: Setup, w: World, req: WriteRequest, run: WriteRun): Resolution {
    if !ValidMode(req.mode) then Refused(BadMode)
    else
      var md := ResolveMd(setup, run.layout, req.path);
      if md.Refused? then md
      else if !InWriteDirs(setup, md.rel) then Refused(WriteNotAllowed)
      else if w.stuck || run.status.None? || PO.ReportsConflict(run.status.value) then Refused(SyncError)
      else md
  }

  function CommitMessage(mode: string, rel: Path): string {
    "notes(mcp): " + mode + " " + Join(rel, "/")
  }

  /** The content that the call writes. */
  function NewContent(w: World, req: WriteRequest, rel: Path): string {
    if req.mode == APPEND && rel in w.files then w.files[rel] + req.content else req.content
  }

  function WriteFile(w: World, rel: Path, text: string): World {
    w.(files := w.files[rel := text])
  }

  /** The commit of a note. */
  function NotePatch(message: string, rel: Path, text: string): Patch {
    Patch(Bridge, message, map[rel := Some(text)])
  }

  function OthersPatches(edits: seq<Edit>): History {
    seq(|edits|, i requires 0 <= i < |edits| => Patch(OtherClone, edits[i].message, edits[i].changes))
  }

  function OthersPush(w: World, edits: seq<Edit>): World {
    w.(remote := w.remote + OthersPatches(edits))
  }

  /** git add and git commit of one path; git refuses when there is nothing to commit. */
  predicate Commits(w: World, rel: Path, run: CommitRun) {
    run.CommitRuns? && rel in w.files && ContentAt(Checkout(w.local), rel) != Some(w.files[rel])
  }

  function CommitStep(w: World, rel: Path, message: string): World
    requires rel in w.files
  {
    w.(local := w.local + [NotePatch(message, rel, w.files[rel])])
  }

  /** A plain push succeeds only as a fast-forward. */
  predicate PushLands(w: World, run: PushRun) {
    run.PushReaches? && w.remote <= w.local
  }

  function PushStep(w: World, run: PushRun): World {
    if PushLands(w, run) then w.(remote := w.local) else w
  }

  /** How far a write got. */
  datatype Stage =
    | Stopped(response: Response)
    | PullFailed
    | AlreadyExists
    | NotCommitted
    | Committed(rel: Path, landed: bool, reported: bool)

  /** The world that the pull leaves, with what others push from then on. */
  function AfterPull(w: World, run: WriteRun): World {
    OthersPush(PullStep(w, run.pull).0, run.others)
  }

  /** Commit and push of a written file. */
  function CommitStages(written: World, rel: Path, message: string, run: WriteRun): (World, Stage) {
    if !Commits(written, rel, run.commit) then (written, NotCommitted)
    else
      var committed := CommitStep(written, rel, message);
      if !run.commit.inTime then (committed, Committed(rel, false, false))
      else
        var landed := PushLands(committed, run.push);
        (PushStep(committed, run.push), Committed(rel, landed, landed && run.push.reported))
  }

  /** From the pulled tree on. */
  function NoteStages(pulled: World, req: WriteRequest, rel: Path, run: WriteRun): (World, Stage) {
    if req.mode == CREATE && rel in pulled.files then (pulled, AlreadyExists)
    else
      CommitStages(WriteFile(pulled, rel, NewContent(pulled, req, rel)), rel, CommitMessage(req.mode, rel), run)
  }

  /** An admitted write: pull before anything is touched. */
  function PullStages(w: World, req: WriteRequest, rel: Path, run: WriteRun): (World, Stage) {
    if !PullStep(w, run.pull).1 then (PullStep(w, run.pull).0, PullFailed)
    else NoteStages(AfterPull(w, run), req, rel, run)
  }

  function WriteStages(setup: Setup, w: World, req: WriteRequest, run: WriteRun): (World, Stage) {
    match Admit(setup, w, req, run)
    case Refused(response) => (w, Stopped(response))
    case Note(rel) => PullStages(w, req, rel, run)
  }

  function Respond(after: World, stage: Stage): Response {
    match stage
    case Stopped(response) => response
    case AlreadyExists => FileError
    case Committed(rel, _, reported) => if reported then Pushed(rel, after.local) else SyncError
    case _ => SyncError
  }

  /** notes_write */
  function WriteStep(setup: Setup, w: World, req: WriteRequest, run: WriteRun): (World, Response) {
    var (after, stage) := WriteStages(setup, w, req, run);
    (after, Respond(after, stage))
  }

  // ----- The vault as the tools act on it --------------------------------------------------------

  class NotesVault {
    const setup: Setup
    var remote: History
    var local: History
    var files: Files
    var stuck: bool

    constructor (setup: Setup, history: History)
      ensures this.setup == setup && TheWorld() == World(history, history, Checkout(history), false)
    {
      this.setup := setup;
      remote, local, files, stuck := history, history, Checkout(history), false;
    }

    ghost function TheWorld(): World
      reads this
    {
      World(remote, local, files, stuck)
    }

    function Snapshot(): (w: World)
      reads this
      ensures w == TheWorld()
    {
      World(remote, local, files, stuck)
    }

    method PullRebase(run: PullRun) returns (ok: bool)
      modifies this
      ensures (TheWorld(), ok) == PullStep(old(TheWorld()), run)
    {
      if Rebases(Snapshot(), run) {
        local, files := remote + KeptOf(run.replay), run.restored;
        return run.inTime;
      }
      match run {
        case TimedOut(midRebase, left) =>
          stuck, files := stuck || midRebase, left;
        case Unreachable(aborted, left) =>
          if aborted && stuck {
            stuck, files := false, left;
          }
        case Fetched(_, _, _, aborted, left) =>
          if !aborted || stuck {
            stuck, files := !aborted, left;
          }
      }
      return false;
    }

    method WriteText(rel: Path, text: string)
      modifies this`files
      ensures TheWorld() == WriteFile(old(TheWorld()), rel, text)
    {
      files := files[rel := text];
    }

    method Commit(rel: Path, message: string, run: CommitRun) returns (ok: bool)
      modifies this`local
      ensures ok == Commits(old(TheWorld()), rel, run)
      ensures TheWorld() == if ok then CommitStep(old(TheWorld()), rel, message) else old(TheWorld())
    {
      if run.CommitFails? || rel !in files || ContentAt(Checkout(local), rel) == Some(files[rel]) {
        return false;
      }
      local := local + [NotePatch(message, rel, files[rel])];
      return true;
    }

    method Push(run: PushRun) returns (landed: bool)
      modifies this`remote
      ensures landed == PushLands(old(TheWorld()), run) && TheWorld() == PushStep(old(TheWorld()), run)
    {
      if run.PushReaches? && remote <= local {
        remote := local;
        return true;
      }
      return false;
    }

    method NotesWrite(req: WriteRequest, run: WriteRun) returns (response: Response)
      modifies this
      ensures (TheWorld(), response) == WriteStep(setup, old(TheWorld()), req, run)
    {
      var md := Admit(setup, Snapshot(), req, run);
      if md.Refused? {
        return md.response;
      }
      response := PullAndWrite(req, md.rel, run);
    }

    method PullAndWrite(req: WriteRequest, rel: Path, run: WriteRun) returns (response: Response)
      modifies this
      ensures var (after, stage) := PullStages(old(TheWorld()), req, rel, run);
              TheWorld() == after && response == Respond(after, stage)
    {
      var ok := PullRebase(run.pull);
      if !ok {
        return SyncError;
      }
      remote := remote + OthersPatches(run.others);
      if req.mode == CREATE && rel in files {
        return FileError;
      }
      var text := if req.mode == APPEND && rel in files then files[rel] + req.content else req.content;
      WriteText(rel, text);
      response := CommitAndPush(rel, CommitMessage(req.mode, rel), run);
    }

    method CommitAndPush(rel: Path, message: string, run: WriteRun) returns (response: Response)
      modifies this
      ensures var (after, stage) := CommitStages(old(TheWorld()), rel, message, run);
              TheWorld() == after && response == Respond(after, stage)
    {
      var ok := Commit(rel, message, run.commit);
      if !ok || !run.commit.inTime {
        return SyncError;
      }
      var landed := Push(run.push);
      if !landed || !run.push.reported {
        return SyncError;
      }
      return Pushed(rel, local);
    }

    method NotesSyncPull(run: PullRun) returns (response: Response)
      modifies this
      ensures (TheWorld(), response) == SyncPullStep(old(TheWorld()), run)
    {
      var before := local;
      var ok := PullRebase(run);
      if !ok {
        return SyncError;
      }
      return Pulled(local != before);
    }
  }

  /** notes_sync_pull */
  function SyncPullStep(w: World, run: PullRun): (World, Response) {
    var (after, ok) := PullStep(w, run);
    (after, if ok then Pulled(after.local != w.local) else SyncError)
  }

  // ----- Runs ------------------------------------------------------------------------------------

  datatype Action =
    | Write(req: WriteRequest, writeRun: WriteRun)
    | SyncPull(pullRun: PullRun)
    | Others(edits: seq<Edit>)

  function Step(setup: Setup, w: World, a: Action): World {
    match a
    case Write(req, run) => WriteStep(setup, w, req, run).0
    case SyncPull(run) => SyncPullStep(w, run).0
    case Others(edits) => OthersPush(w, edits)
  }

  function WorldAfter(setup: Setup, start: World, actions: seq<Action>): World {
    if actions == [] then start
    else Step(setup, WorldAfter(setup, start, actions[..|actions| - 1]), actions[|actions| - 1])
  }

  /** A new clone: the vault has a prefix of the remote, all committed. */
  predicate Cloned(w: World) {
    w.local <= w.remote && Clean(w) && !w.stuck
  }

  /** The commit that a write makes. */
  function NoteCommit(pulled: World, req: WriteRequest, rel: Path): Patch {
    NotePatch(CommitMessage(req.mode, rel), rel, NewContent(pulled, req, rel))
  }

  /** The commit that the action makes, if it makes one. */
  function CommitOf<T>(view: Patch -> T, setup: Setup, w: World, a: Action): seq<T> {
    if a.Write? && WriteStages(setup, w, a.req, a.writeRun).1.Committed? then
      [view(NoteCommit(AfterPull(w, a.writeRun), a.req, WriteStages(setup, w, a.req, a.writeRun).1.rel))]
    else []
  }

  /** All commits made in the run, in order. */
  function CommittedIn<T>(view: Patch -> T, setup: Setup, start: World, actions: seq<Action>): seq<T> {
    if actions == [] then []
    else
      var before := actions[..|actions| - 1];
      CommittedIn(view, setup, start, before) +
      CommitOf(view, setup, WorldAfter(setup, start, before), actions[|actions| - 1])
  }

  /** How many commits the replays of the run drop. */
  function DropsAt(setup: Setup, w: World, a: Action): nat {
    match a
    case Write(req, run) => if Admit(setup, w, req, run).Note? then DropsOf(w, run.pull) else 0
    case SyncPull(run) => DropsOf(w, run)
    case Others(_) => 0
  }

  function DropsIn(setup: Setup, start: World, actions: seq<Action>): nat {
    if actions == [] then 0
    else
      var before := actions[..|actions| - 1];
      DropsIn(setup, start, before) + DropsAt(setup, WorldAfter(setup, start, before), actions[|actions| - 1])
  }

  /** The replay, if there is one, leaves the labels of the commits that it keeps as they are. */
  predicate ReplayKeeps<T(==)>(view: Patch -> T, w: World, run: PullRun) {
    Rebases(w, run) ==>
      forall i :: 0 <= i < |Pending(w)| && run.replay[i].Kept? ==> view(run.replay[i].patch) == view(Pending(w)[i])
  }

  predicate ActionKeeps<T(==)>(view: Patch -> T, w: World, a: Action) {
    match a
    case Write(_, run) => ReplayKeeps(view, w, run.pull)
    case SyncPull(run) => ReplayKeeps(view, w, run)
    case Others(_) => true
  }

  predicate RunKeeps<T(==)>(view: Patch -> T, setup: Setup, start: World, actions: seq<Action>) {
    actions != [] ==>
      var before := actions[..|actions| - 1];
      RunKeeps(view, setup, start, before) &&
      ActionKeeps(view, WorldAfter(setup, start, before), actions[|actions| - 1])
  }
}
