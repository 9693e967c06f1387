/** When a write lands, what it publishes, and which of its answers it gives. */
module NotesAnswers {
  import opened NotesConservation
  import opened NotesContract
  import opened NotesSync
  import opened Options
  import opened Sequences
  import PR = PathResolution
  import PO = Porcelain

  // ----- Pulls -----------------------------------------------------------------------------------

  /** A pull returns exactly when no rebase is in progress, it fetches and ends in time, every local-only
      commit is replayed under its author and message, and one that nothing fetched touches is replayed
      as it was; a clean working tree is then clean again. */
  lemma PullReturnsExactly(w: World, run: PullRun)
    ensures PullStep(w, run).1 <==>
              && !w.stuck && run.Fetched? && run.inTime
              && |run.replay| == |Pending(w)|
              && (forall i :: 0 <= i < |Pending(w)| ==>
                    var p, r := Pending(w)[i], run.replay[i];
                    if forall q :: q in p.changes ==> q !in Touched(Incoming(w)) then r == Kept(p)
                    else r.Kept? ==> r.patch.author == p.author && r.patch.message == p.message)
              && (w.files == Checkout(w.local) ==> run.restored == Checkout(w.remote + KeptOf(run.replay)))
  {
    forall p: Patch, h: History
      ensures p.changes.Keys !! Touched(h) <==> forall q :: q in p.changes ==> q !in Touched(h)
    {
    }
  }

  // ----- When a write lands ----------------------------------------------------------------------

  /** On top of a history that nobody else has pushed to since, and only there, a branch with commits of
      the bridge fast-forwards, however many they are. */
  lemma FastForwards(remote: History, kept: History, others: seq<Edit>)
    requires AllBy(kept, Bridge) && kept != []
    ensures remote + OthersPatches(others) <= remote + kept <==> others == []
  {
    var n := |remote|;
    assert (remote + kept)[n].author == Bridge;
    if others == [] {
      AppendNothing(remote);
    } else {
      assert (remote + OthersPatches(others))[n].author == OtherClone;
    }
  }

  /** Nothing stops the write before the push, and nobody else pushes in between: it is admitted, its pull
      returns, a note to be created is not there yet, and the note's text is not committed already. */
  predicate Unhindered(setup: Setup, w: World, req: WriteRequest, run: WriteRun, rel: Path) {
    var pulled := PullStep(w, run.pull).0;
    var text := if req.mode == APPEND && rel in pulled.files then pulled.files[rel] + req.content else req.content;
    && Admit(setup, w, req, run) == Note(rel)
    && PullStep(w, run.pull).1
    && !(req.mode == CREATE && rel in pulled.files)
    && run.commit == CommitRuns(true)
    && !(rel in Checkout(pulled.local) && Checkout(pulled.local)[rel] == text)
    && run.others == []
  }

  /** The last stage of a write is a push that lands, reported or not, exactly when nothing stops the write
      before, nobody else has pushed since the pull, and the push reaches the remote. How many commits
      wait to be published does not matter. */
  lemma {:induction false} LandsExactly(
    setup: Setup, w: World, req: WriteRequest, run: WriteRun, rel: Path, reported: bool)
    requires Inv(w)
    ensures WriteStages(setup, w, req, run).1 == Committed(rel, true, reported) <==>
              Unhindered(setup, w, req, run, rel) && run.push == PushReaches(reported)
  {
    if Admit(setup, w, req, run) == Note(rel) && PullStep(w, run.pull).1 {
      NoteLands(w, req, rel, run, reported);
    }
  }

  lemma CommitLands(written: World, rel: Path, message: string, run: WriteRun, reported: bool)
    requires rel in written.files
    ensures CommitStages(written, rel, message, run).1 == Committed(rel, true, reported) <==>
              && Commits(written, rel, run.commit) && run.commit.inTime
              && written.remote <= written.local + [NotePatch(message, rel, written.files[rel])]
              && run.push == PushReaches(reported)
  {
  }

  lemma NoteLands(w: World, req: WriteRequest, rel: Path, run: WriteRun, reported: bool)
    requires Inv(w) && PullStep(w, run.pull).1
    ensures var pulled := PullStep(w, run.pull).0;
            NoteStages(AfterPull(w, run), req, rel, run).1 == Committed(rel, true, reported) <==>
              && !(req.mode == CREATE && rel in pulled.files)
              && run.commit == CommitRuns(true)
              && ContentAt(Checkout(pulled.local), rel) != Some(NewContent(pulled, req, rel))
              && run.others == [] && run.push == PushReaches(reported)
  {
    var pulled := AfterPull(w, run);
    if !(req.mode == CREATE && rel in pulled.files) {
      var text := NewContent(pulled, req, rel);
      CommitsWritten(pulled, rel, text, run.commit);
      CommitLands(WriteFile(pulled, rel, text), rel, CommitMessage(req.mode, rel), run, reported);
      ForwardsUnlessPushed(w, run, NoteCommit(pulled, req, rel));
    }
  }

  lemma ForwardsUnlessPushed(w: World, run: WriteRun, note: Patch)
    requires Inv(w) && PullStep(w, run.pull).1 && note.author == Bridge
    ensures AfterPull(w, run).remote <= AfterPull(w, run).local + [note] <==> run.others == []
  {
    var kept := KeptOf(run.pull.replay);
    KeptByBridge(Pending(w), Incoming(w), run.pull.replay);
    ConcatAssociative(w.remote, kept, [note]);
    FastForwards(w.remote, kept + [note], run.others);
  }

  /** The caller is told of a push exactly when it lands and the report gets through. */
  lemma {:induction false} PushedExactly(setup: Setup, w: World, req: WriteRequest, run: WriteRun)
    requires Inv(w)
    ensures WriteStep(setup, w, req, run).1.Pushed? <==>
              exists rel :: Unhindered(setup, w, req, run, rel) && run.push == PushReaches(true)
  {
    var (after, stage) := WriteStages(setup, w, req, run);
    StageReported(setup, w, req, run);
    if WriteStep(setup, w, req, run).1.Pushed? {
      RespondPushed(after, stage);
      LandsExactly(setup, w, req, run, stage.rel, true);
    }
    if rel :| Unhindered(setup, w, req, run, rel) && run.push == PushReaches(true) {
      LandsExactly(setup, w, req, run, rel, true);
    }
  }

  /** What a write that lands publishes: on top of the whole remote and in order, the local-only commits as
      replayed and then its own. With nothing fetched that is the vault's own branch and the new commit,
      so that commits of earlier pushes that failed go with it. */
  lemma {:induction false} PublishedExactly(
    setup: Setup, w: World, req: WriteRequest, run: WriteRun, rel: Path)
    requires Inv(w) && Unhindered(setup, w, req, run, rel) && run.push.PushReaches?
    ensures var after := WriteStep(setup, w, req, run).0;
            var pulled := PullStep(w, run.pull).0;
            var text := if req.mode == APPEND && rel in pulled.files then pulled.files[rel] + req.content
                        else req.content;
            var note := Patch(Bridge, CommitMessage(req.mode, rel), map[rel := Some(text)]);
            && after.remote == after.local == w.remote + KeptOf(run.pull.replay) + [note]
            && (Incoming(w) == [] ==> after.remote == w.local + [note])
  {
    LandsExactly(setup, w, req, run, rel, run.push.reported);
    CommittedWrite(setup, w, req, run);
    WriteKeeps(setup, w, req, run);
    PullKeeps(w, run.pull);
    AppendNothing(w.remote);
    if Incoming(w) == [] { NothingFetched(w, run.pull); }
  }

  /** Any other write publishes nothing: the remote is what it was, with what others push once the pull has
      returned. */
  lemma {:induction false} UnpublishedExactly(setup: Setup, w: World, req: WriteRequest, run: WriteRun)
    requires Inv(w)
    requires !exists rel :: Unhindered(setup, w, req, run, rel) && run.push.PushReaches?
    ensures WriteStep(setup, w, req, run).0.remote ==
            if Admit(setup, w, req, run).Note? && PullStep(w, run.pull).1 then w.remote + OthersPatches(run.others)
            else w.remote
  {
    match Admit(setup, w, req, run)
    case Refused(_) =>
    case Note(rel) =>
      PullKeeps(w, run.pull);
      if run.push.PushReaches? { LandsExactly(setup, w, req, run, rel, run.push.reported); }
      NotLanded(AfterPull(w, run), req, rel, run);
  }

  lemma NotLanded(pulled: World, req: WriteRequest, rel: Path, run: WriteRun)
    ensures var (after, stage) := NoteStages(pulled, req, rel, run);
            && (stage.Committed? ==> stage.rel == rel)
            && (stage.Committed? && stage.landed ==> run.push == PushReaches(stage.reported))
            && (!(stage.Committed? && stage.landed) ==> after.remote == pulled.remote)
  {
  }

  /** With nothing fetched a pull that returns leaves the branch as it was. */
  lemma NothingFetched(w: World, run: PullRun)
    requires Incoming(w) == [] && Rebases(w, run)
    ensures KeptOf(run.replay) == Pending(w) && w.remote + KeptOf(run.replay) == w.local
  {
    forall i | 0 <= i < |Pending(w)| ensures run.replay[i] == Kept(Pending(w)[i]) {
      assert ReplaysAs(Pending(w)[i], Incoming(w), run.replay[i]);
    }
    AllKept(Pending(w), run.replay);
    var c := Common(w.local, w.remote);
    assert w.remote == w.remote[..c] == w.local[..c];
    SplitAt(w.local, c);
  }

  lemma {:induction false} AllKept(pending: History, replay: seq<Replayed>)
    requires |replay| == |pending| && forall i :: 0 <= i < |pending| ==> replay[i] == Kept(pending[i])
    ensures KeptOf(replay) == pending
  {
    if pending != [] {
      var n := |pending| - 1;
      AllKept(pending[..n], replay[..n]);
      SplitLast(pending);
    }
  }

  /** notes_sync_pull answers exactly when the pull returns, and says updated exactly when the remote had
      commits that the vault did not have. */
  lemma UpdatedExactly(w: World, run: PullRun)
    ensures SyncPullStep(w, run).1 ==
            if PullStep(w, run).1 then Pulled(Incoming(w) != []) else SyncError
  {
    if PullStep(w, run).1 {
      if Incoming(w) == [] {
        NothingFetched(w, run);
      } else if w.remote + KeptOf(run.replay) == w.local {
        RemoteIsPrefix(w);
      }
    }
  }

  lemma RemoteIsPrefix(w: World)
    requires w.remote <= w.local
    ensures Incoming(w) == []
  {
    CommonIs(w.local, w.remote, |w.remote|);
  }

  // ----- Which answer a write gets ---------------------------------------------------------------

  /** The path resolves, inside the vault, to a name with the extension. */
  predicate NamesNote(verdict: PR.Verdict) {
    verdict.Resolved? && verdict.path != [] && MarkdownName(verdict.path[|verdict.path| - 1])
  }

  lemma NoteNamed(setup: Setup, layout: PR.Tree, path: PR.RawPath)
    ensures var verdict := PR.ResolveWithin(layout, setup.root, path);
            var root := PR.Resolve(layout, true, [], setup.root, {});
            && (verdict.Resolved? ==> root.Ok? && root.path <= verdict.path)
            && ResolveNote(setup, layout, path) ==
               if !verdict.Resolved? then Refused(PathRejected(verdict))
               else if NamesNote(verdict) then Note(verdict.path[|root.path|..])
               else Refused(FileError)
  {
    var verdict := PR.ResolveWithin(layout, setup.root, path);
    if verdict.Resolved? && verdict.path != [] { MarkdownExactly(verdict.path[|verdict.path| - 1]); }
  }

  /** Which refusal a write meets before anything is touched: by the mode, by the path, by the extension,
      by the directory, and only then by the state of the vault. */
  lemma RefusedExactly(setup: Setup, w: World, req: WriteRequest, run: WriteRun)
    ensures var md := Admit(setup, w, req, run);
            var root := PR.Resolve(run.layout, true, [], setup.root, {});
            var verdict := PR.ResolveWithin(run.layout, setup.root, PR.ParsePath(req.path));
            var known := req.mode in {"create", "overwrite", "append"};
            var named := known && NamesNote(verdict);
            && (md == Refused(BadMode) <==> !known)
            && (md == Refused(PathRejected(verdict)) <==> known && !verdict.Resolved?)
            && (md == Refused(FileError) <==> known && verdict.Resolved? && !named)
            && (named ==>
                  && root.Ok? && root.path <= verdict.path
                  && var rel := verdict.path[|root.path|..];
                  && (md == Refused(WriteNotAllowed) <==> |rel| < 2 || rel[0] !in setup.writeDirs)
                  && (md == Refused(SyncError) <==>
                        && |rel| >= 2 && rel[0] in setup.writeDirs
                        && (w.stuck || run.status.None? || PO.ReportsConflict(run.status.value)))
                  && (md.Note? ==> md.rel == rel))
            && (md.Note? ==> named)
            && (md.Refused? ==> md.response in {BadMode, PathRejected(verdict), FileError, WriteNotAllowed, SyncError})
  {
    NoteNamed(setup, run.layout, PR.ParsePath(req.path));
  }

  /** Every answer of a write. A file error is also the answer to a note to be created that the pulled tree
      has already; a sync error that of every admitted write which is neither that nor pushed. */
  lemma {:induction false} AnswersExactly(setup: Setup, w: World, req: WriteRequest, run: WriteRun)
    requires Inv(w)
    ensures var md, response := Admit(setup, w, req, run), WriteStep(setup, w, req, run).1;
            var pulls := md.Note? && PullStep(w, run.pull).1;
            var existing := pulls && req.mode == CREATE && md.rel in PullStep(w, run.pull).0.files;
            var pushed := md.Note? && Unhindered(setup, w, req, run, md.rel) && run.push == PushReaches(true);
            response ==
              if md.Refused? then md.response
              else if existing then FileError
              else if pushed then Pushed(md.rel, WriteStep(setup, w, req, run).0.remote)
              else SyncError
  {
    var (after, stage) := WriteStages(setup, w, req, run);
    match Admit(setup, w, req, run)
    case Refused(_) =>
    case Note(rel) =>
      LandsExactly(setup, w, req, run, rel, true);
      WriteKeeps(setup, w, req, run);
      if PullStep(w, run.pull).1 { NoteAnswers(AfterPull(w, run), req, rel, run); }
  }

  lemma NoteAnswers(pulled: World, req: WriteRequest, rel: Path, run: WriteRun)
    ensures var (after, stage) := NoteStages(pulled, req, rel, run);
            Respond(after, stage) ==
              if req.mode == CREATE && rel in pulled.files then FileError
              else if stage == Committed(rel, true, true) then Pushed(rel, after.local)
              else SyncError
  {
  }

  // ----- What a message tells --------------------------------------------------------------------

  /** No component of a path holds a slash. */
  predicate IsPath(p: Path) {
    p != [] && forall i :: 0 <= i < |p| ==> '/' !in p[i]
  }

  /** Commits of different notes, or of different modes, have different messages. */
  lemma MessageTells(mode: string, rel: Path, other: string, path: Path)
    requires mode in {"create", "overwrite", "append"} && other in {"create", "overwrite", "append"}
    requires IsPath(rel) && IsPath(path)
    ensures CommitMessage(mode, rel) == CommitMessage(other, path) <==> mode == other && rel == path
  {
    if CommitMessage(mode, rel) == CommitMessage(other, path) {
      var a, b := Join(rel, "/"), Join(path, "/");
      SplitJoin(rel, '/');
      SplitJoin(path, '/');
      SameFields("notes(mcp): ", mode, ' ', a, other, b);
    }
  }

  lemma SameFields(lead: string, a: string, sep: char, s: string, b: string, t: string)
    requires sep !in a && sep !in b && lead + a + [sep] + s == lead + b + [sep] + t
    ensures a == b && s == t
  {
    DropPrefix(lead, a + [sep] + s);
    DropPrefix(lead, b + [sep] + t);
    assert lead + a + [sep] + s == lead + (a + [sep] + s) && lead + b + [sep] + t == lead + (b + [sep] + t);
    IndexOfAfter(a, sep, s);
    IndexOfAfter(b, sep, t);
    DropPrefix(a + [sep], s);
    DropPrefix(b + [sep], t);
    assert (a + [sep] + s)[..|a|] == a && (b + [sep] + t)[..|b|] == b;
  }

  lemma MessageOfNote()
    ensures CommitMessage("create", ["llm", "a.md"]) == "notes(mcp): create llm/a.md"
  {
    assert ["llm", "a.md"][1..] == ["a.md"];
    assert "notes(mcp): " + "create" + " " + "llm/a.md" == "notes(mcp): create llm/a.md";
  }
}
