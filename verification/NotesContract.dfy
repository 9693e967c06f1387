/** What one call of notes_write promises, over all states of the vault, and what its responses tell. */
module NotesContract {
  import opened NotesConservation
  import opened NotesSync
  import opened Options
  import opened Sequences
  import opened Text
  import Containment
  import PR = PathResolution
  import PO = Porcelain

  // ----- The contract of one write ---------------------------------------------------------------

  lemma CheckoutSnoc(h: History, p: Patch)
    ensures Checkout(h + [p]) == ApplyPatch(Checkout(h), p)
  {
    assert (h + [p])[..|h|] == h;
  }

  /** What a caller can tell from the response. A pushed note is written. One that is refused by mode,
      path or directory changes nothing at all; a file error leaves the vault as it was, or as the pull
      left it. A sync error can mean any of three things: the call was refused and changed nothing; the
      pull raised, and left what it left; or the note is written, on top of the pulled tree. */
  lemma {:induction false} FailedWriteLeavesVault(setup: Setup, w: World, req: WriteRequest, run: WriteRun)
    ensures var (after, response) := WriteStep(setup, w, req, run);
            var md, pulled := Admit(setup, w, req, run), AfterPull(w, run);
            && (response.BadMode? || response.PathRejected? || response.WriteNotAllowed? ==> after == w)
            && (response.FileError? ==> after == w || (md.Note? && PullStep(w, run.pull).1 && after == pulled))
            && (response.Pushed? ==> md.Note? && after.files == Written(pulled, req, md.rel))
            && (response.SyncError? ==>
                  if md.Refused? then after == w
                  else if !PullStep(w, run.pull).1 then after == PullStep(w, run.pull).0
                  else after.files == Written(pulled, req, md.rel))
  {
    match Admit(setup, w, req, run)
    case Refused(_) =>
    case Note(rel) => if PullStep(w, run.pull).1 { NoteStagesFiles(AfterPull(w, run), req, rel, run); }
  }

  /** The files with the note written. */
  function Written(pulled: World, req: WriteRequest, rel: Path): Files {
    pulled.files[rel := NewContent(pulled, req, rel)]
  }

  lemma NoteStagesFiles(pulled: World, req: WriteRequest, rel: Path, run: WriteRun)
    ensures var (after, stage) := NoteStages(pulled, req, rel, run);
            if stage.AlreadyExists? then after == pulled else after.files == Written(pulled, req, rel)
    ensures NoteStages(pulled, req, rel, run).1.AlreadyExists? <==> req.mode == CREATE && rel in pulled.files
    ensures !NoteStages(pulled, req, rel, run).1.Stopped? && !NoteStages(pulled, req, rel, run).1.PullFailed?
  {
  }

  /** The tree that the call found, once the pull is over. */
  function FoundFiles(setup: Setup, w: World, req: WriteRequest, run: WriteRun): Files {
    if Admit(setup, w, req, run).Refused? then w.files
    else if !PullStep(w, run.pull).1 then PullStep(w, run.pull).0.files
    else AfterPull(w, run).files
  }

  /** A sync error is documented to mean that the file is not written. It does, exactly when the call was
      refused before the pull, or the pull raised, or there was nothing to change. */
  lemma {:induction false} SyncErrorUnwritten(setup: Setup, w: World, req: WriteRequest, run: WriteRun)
    requires WriteStep(setup, w, req, run).1 == SyncError
    ensures var md, pulled := Admit(setup, w, req, run), AfterPull(w, run);
            WriteStep(setup, w, req, run).0.files == FoundFiles(setup, w, req, run) <==>
              || md.Refused?
              || !PullStep(w, run.pull).1
              || ContentAt(pulled.files, md.rel) == Some(NewContent(pulled, req, md.rel))
  {
    FailedWriteLeavesVault(setup, w, req, run);
    var md := Admit(setup, w, req, run);
    if md.Note? && PullStep(w, run.pull).1 {
      UpdateUnchanged(AfterPull(w, run).files, md.rel, NewContent(AfterPull(w, run), req, md.rel));
    }
  }

  lemma UpdateUnchanged(files: Files, rel: Path, text: string)
    ensures files[rel := text] == files <==> ContentAt(files, rel) == Some(text)
  {
    if ContentAt(files, rel) != Some(text) {
      assert files[rel := text][rel] == text;
    }
  }

  /** A written note whose commit fails, or has nothing to commit, stays in the working tree without a
      commit, and the caller is told of a sync error. */
  lemma {:induction false} UncommittedWriteStays(setup: Setup, w: World, req: WriteRequest, run: WriteRun)
    ensures var (after, stage) := WriteStages(setup, w, req, run);
            var md, pulled := Admit(setup, w, req, run), AfterPull(w, run);
            stage == NotCommitted <==>
              && md.Note? && PullStep(w, run.pull).1 && !(req.mode == CREATE && md.rel in pulled.files)
              && (run.commit.CommitFails?
                  || ContentAt(Checkout(pulled.local), md.rel) == Some(NewContent(pulled, req, md.rel)))
    ensures var (after, stage) := WriteStages(setup, w, req, run);
            var pulled := AfterPull(w, run);
            stage == NotCommitted ==>
              && after == pulled.(files := Written(pulled, req, Admit(setup, w, req, run).rel))
              && WriteStep(setup, w, req, run).1 == SyncError
  {
    match Admit(setup, w, req, run)
    case Refused(_) =>
    case Note(rel) => if PullStep(w, run.pull).1 { UncommittedNote(AfterPull(w, run), req, rel, run); }
  }

  lemma UncommittedNote(pulled: World, req: WriteRequest, rel: Path, run: WriteRun)
    ensures NoteStages(pulled, req, rel, run).1 == NotCommitted <==>
              && !(req.mode == CREATE && rel in pulled.files)
              && (run.commit.CommitFails?
                  || ContentAt(Checkout(pulled.local), rel) == Some(NewContent(pulled, req, rel)))
    ensures NoteStages(pulled, req, rel, run).1 == NotCommitted ==>
              NoteStages(pulled, req, rel, run).0 == pulled.(files := Written(pulled, req, rel))
  {
    CommitsWritten(pulled, rel, NewContent(pulled, req, rel), run.commit);
  }

  lemma CommitsWritten(pulled: World, rel: Path, text: string, run: CommitRun)
    ensures Commits(WriteFile(pulled, rel, text), rel, run) <==>
            run.CommitRuns? && ContentAt(Checkout(pulled.local), rel) != Some(text)
  {
  }

  /** Such calls exist, in an empty vault: the note is created, its commit fails, and the caller is told
      of a sync error. */
  lemma SyncErrorWritten(content: string) returns (setup: Setup, w: World, req: WriteRequest, run: WriteRun)
    ensures Cloned(w) && w.files == map[] && req.mode == CREATE && req.content == content
    ensures var (after, response) := WriteStep(setup, w, req, run);
            response == SyncError && after.local == w.local && after.files == map[["llm", "a.md"] := content]
  {
    var layout: PR.Tree := map[[] := PR.Dir, ["v"] := PR.Dir];
    setup := Setup(["v"], ["llm"]);
    w := World([], [], map[], false);
    req := WriteRequest(CREATE, "llm/a.md", content);
    run := WriteRun(layout, Some(""), Fetched([], map[], true, true, map[]), [], CommitFails, NoPush);
    AdmittedInDirectory(setup, w, req, run);
    EmptyPull(w, run);
    UncommittedWriteStays(setup, w, req, run);
  }

  lemma EmptyPull(w: World, run: WriteRun)
    requires w.local == w.remote == [] && !w.stuck
    requires run.pull == Fetched([], w.files, true, true, map[]) && run.others == []
    ensures PullStep(w, run.pull).1 && AfterPull(w, run) == w
  {
    var none: History := [];
    CommonIs(w.local, w.remote, 0);
    assert Pending(w) == none && KeptOf([]) == none && none + none == none;
    assert Checkout(none) == map[];
    assert Rebases(w, run.pull);
    assert PullStep(w, run.pull) == (w, true);
    assert OthersPatches([]) == none;
  }

  lemma NoteInDirectory(setup: Setup, layout: PR.Tree)
    requires setup == Setup(["v"], ["llm"]) && layout == map[[] := PR.Dir, ["v"] := PR.Dir]
    ensures ResolvesTo(setup, layout, PR.ParsePath("llm/a.md"), ["llm", "a.md"]) && MarkdownName("a.md")
  {
    PathOfNote();
    WalkOne(layout);
    WalkThree(layout);
    TwoWalks(setup, layout, PR.RawPath(false, ["llm", "a.md"]), ["v"], ["llm", "a.md"]);
    assert "a.md"[1..] == ".md";
  }

  lemma TwoWalks(setup: Setup, layout: PR.Tree, path: PR.RawPath, base: PR.Path, rel: Path)
    requires PR.Walk(layout, PR.Strict, [], setup.root, 1) == PR.Done(PR.Ok(base))
    requires PR.Walk(layout, PR.Lenient, [], PR.Joined(base, path), 3) == PR.Done(PR.Ok(base + rel))
    ensures ResolvesTo(setup, layout, path, rel)
  {
  }

  lemma WalkOne(layout: PR.Tree)
    requires layout == map[[] := PR.Dir, ["v"] := PR.Dir]
    ensures PR.Walk(layout, PR.Strict, [], ["v"], 1) == PR.Done(PR.Ok(["v"]))
  {
    assert [] + ["v"] == ["v"] && ["v"][1..] == [];
  }

  lemma WalkThree(layout: PR.Tree)
    requires layout == map[[] := PR.Dir, ["v"] := PR.Dir]
    ensures PR.Walk(layout, PR.Lenient, [], ["v"] + ["llm", "a.md"], 3) == PR.Done(PR.Ok(["v"] + ["llm", "a.md"]))
  {
    var v, l, a := "v", "llm", "a.md";
    assert PR.UP == ".." && v != PR.UP && l != PR.UP && a[0] != PR.UP[0] && a != PR.UP;
    var none: seq<string> := [];
    assert ([v] + [l, a])[1..] == [l, a] && [l, a][1..] == [a] && [a][1..] == none;
    assert none + [v] == [v] && [v] + [l] == [v, l] && [v, l] + [a] == [v, l, a] == [v] + [l, a];
    assert PR.Walk(layout, PR.Lenient, [v, l], [a], 1) == PR.Done(PR.Ok([v, l, a]));
    assert PR.Walk(layout, PR.Lenient, [v], [l, a], 2) == PR.Done(PR.Ok([v, l, a]));
  }

  lemma PathOfNote()
    ensures PR.ParsePath("llm/a.md") == PR.RawPath(false, ["llm", "a.md"])
  {
    var parts := ["llm", "a.md"];
    assert parts[1..] == ["a.md"] && Join(parts, ['/']) == "llm/a.md";
    Containment.ParsePrinted(parts);
  }

  /** A failed append that has written its note is not safe to repeat: when the retry finds the note as
      the first call left it, it commits the content twice. */
  lemma {:induction false} RetriedAppend(setup: Setup, w: World, req: WriteRequest, first: WriteRun, second: WriteRun)
    requires req.mode == APPEND && WriteStep(setup, w, req, first).1 == SyncError
    requires Admit(setup, w, req, first).Note? && PullStep(w, first.pull).1
    requires var rel, between := Admit(setup, w, req, first).rel, WriteStep(setup, w, req, first).0;
             && Admit(setup, between, req, second) == Note(rel)
             && WriteStages(setup, between, req, second).1.Committed?
             && ContentAt(AfterPull(between, second).files, rel) == ContentAt(between.files, rel)
    ensures var rel, between := Admit(setup, w, req, first).rel, WriteStep(setup, w, req, first).0;
            var held := ContentAt(AfterPull(w, first).files, rel);
            var base := if held.Some? then held.value else "";
            WriteStep(setup, between, req, second).0.local ==
            AfterPull(between, second).local +
              [NotePatch(CommitMessage(APPEND, rel), rel, base + req.content + req.content)]
  {
    var between := WriteStep(setup, w, req, first).0;
    FailedWriteLeavesVault(setup, w, req, first);
    CommittedWrite(setup, between, req, second);
    assert "" + req.content == req.content;
  }

  /** Such calls exist, in an empty vault: the commit of the first append fails, and that of the retry has
      the content twice. */
  lemma AppendedTwice(content: string)
    returns (setup: Setup, w: World, req: WriteRequest, first: WriteRun, second: WriteRun)
    ensures Cloned(w) && w.files == map[] && req.mode == APPEND && req.content == content
    ensures WriteStep(setup, w, req, first).1 == SyncError
    ensures var between := WriteStep(setup, w, req, first).0;
            var rel := ["llm", "a.md"];
            && WriteStages(setup, between, req, second).1.Committed?
            && WriteStep(setup, between, req, second).0.local ==
               [NotePatch(CommitMessage(APPEND, rel), rel, content + content)]
  {
    var layout: PR.Tree := map[[] := PR.Dir, ["v"] := PR.Dir];
    var rel := ["llm", "a.md"];
    setup := Setup(["v"], ["llm"]);
    w := World([], [], map[], false);
    req := WriteRequest(APPEND, "llm/a.md", content);
    first := WriteRun(layout, Some(""), Fetched([], map[], true, true, map[]), [], CommitFails, NoPush);
    second := first.(pull := Fetched([], map[rel := content], true, true, map[]), commit := CommitRuns(true));
    AdmittedInDirectory(setup, w, req, first);
    EmptyPull(w, first);
    UncommittedWriteStays(setup, w, req, first);
    var between := WriteStep(setup, w, req, first).0;
    assert between == World([], [], map[rel := content], false);
    AdmittedInDirectory(setup, between, req, second);
    EmptyPull(between, second);
    NewNoteCommitted(between, req, rel, second);
    RetriedAppend(setup, w, req, first, second);
    NotYetThere(between, rel, content);
  }

  lemma NotYetThere(between: World, rel: Path, content: string)
    requires between.local == []
    ensures var patch := NotePatch(CommitMessage(APPEND, rel), rel, "" + content + content);
            between.local + [patch] == [NotePatch(CommitMessage(APPEND, rel), rel, content + content)]
  {
    assert "" + content + content == content + content;
  }

  lemma AdmittedInDirectory(setup: Setup, w: World, req: WriteRequest, run: WriteRun)
    requires setup == Setup(["v"], ["llm"]) && run.layout == map[[] := PR.Dir, ["v"] := PR.Dir]
    requires ValidMode(req.mode) && req.path == "llm/a.md" && run.status == Some("") && !w.stuck
    ensures Admit(setup, w, req, run) == Note(["llm", "a.md"])
  {
    NoteInDirectory(setup, run.layout);
    assert PO.PrintRecords([]) == "";
    AdmittedWrite(setup, w, req, run, [], ["llm", "a.md"]);
  }

  lemma NewNoteCommitted(pulled: World, req: WriteRequest, rel: Path, run: WriteRun)
    requires pulled.local == [] && req.mode != CREATE && run.commit.CommitRuns?
    ensures NoteStages(pulled, req, rel, run).1.Committed? && NoteStages(pulled, req, rel, run).1.rel == rel
  {
    CommitsWritten(pulled, rel, NewContent(pulled, req, rel), run.commit);
  }

  /** One contract for every commit that a write makes, over all states of the vault: it sits on top
      of the pulled history, touches only the path that was admitted, and its content is the given
      content or, for append, what the pulled working tree held followed by it; no other file of the
      working tree changes, and a clean tree stays clean. */
  lemma {:induction false} CommittedWrite(setup: Setup, w: World, req: WriteRequest, run: WriteRun)
    requires WriteStages(setup, w, req, run).1.Committed?
    ensures var (after, stage) := WriteStages(setup, w, req, run);
            var pulled := AfterPull(w, run);
            var held := pulled.files;
            var text := if req.mode == APPEND && stage.rel in held then held[stage.rel] + req.content else req.content;
            && Admit(setup, w, req, run) == Note(stage.rel)
            && PullStep(w, run.pull).1
            && (req.mode == CREATE ==> stage.rel !in held)
            && after.local == pulled.local +
                 [Patch(Bridge, CommitMessage(req.mode, stage.rel), map[stage.rel := Some(text)])]
            && after.files == held[stage.rel := text]
            && (Clean(pulled) ==> Clean(after))
  {
    CommittedNote(AfterPull(w, run), req, Admit(setup, w, req, run).rel, run);
  }

  lemma CommittedNote(pulled: World, req: WriteRequest, rel: Path, run: WriteRun)
    requires NoteStages(pulled, req, rel, run).1.Committed?
    ensures var (after, stage) := NoteStages(pulled, req, rel, run);
            && stage.rel == rel && (req.mode == CREATE ==> rel !in pulled.files)
            && after.local == pulled.local + [NoteCommit(pulled, req, rel)]
            && after.files == Written(pulled, req, rel)
            && (Clean(pulled) ==> Clean(after))
  {
    var text := NewContent(pulled, req, rel);
    CleanCommit(pulled.local, CommitMessage(req.mode, rel), rel, text);
  }

  lemma CleanCommit(h: History, message: string, rel: Path, text: string)
    ensures Checkout(h + [NotePatch(message, rel, text)]) == Checkout(h)[rel := text]
  {
    CheckoutSnoc(h, NotePatch(message, rel, text));
  }

  /** The note's path resolved below the vault root, so the file written is the root's, whatever the
      request's spelling; and its name ends in .md in any case. */
  lemma NotePathContained(setup: Setup, layout: PR.Tree, path: PR.RawPath)
    requires PR.WellFormed(layout) && ResolveNote(setup, layout, path).Note?
    ensures var rel := ResolveNote(setup, layout, path).rel;
            var base := PR.Resolve(layout, true, [], setup.root, {});
            && base.Ok? && PR.Canonical(layout, base.path + rel)
            && PR.ResolveWithin(layout, setup.root, path) == PR.Resolved(base.path + rel)
            && IsMarkdown(base.path + rel)
  {
    var base := NoteAccepted(setup, layout, path, ResolveNote(setup, layout, path).rel);
    PR.ResolveWithinIsCanonical(layout, setup.root, path);
  }

  /** An append goes to the note as committed last, the pulled one, whenever the note is not dirty after
      the pull, whatever other files are; a clean vault has no dirty note after a pull that succeeds. */
  lemma {:induction false} CleanAppend(setup: Setup, w: World, req: WriteRequest, run: WriteRun)
    requires WriteStages(setup, w, req, run).1.Committed? && req.mode == APPEND
    ensures var (after, stage) := WriteStages(setup, w, req, run);
            var pulled := AfterPull(w, run);
            var committed := ContentAt(Checkout(pulled.local), stage.rel);
            && (Clean(w) ==> Clean(pulled))
            && (ContentAt(pulled.files, stage.rel) == committed ==>
                  after.local == pulled.local +
                    [NotePatch(CommitMessage(APPEND, stage.rel), stage.rel,
                               (if committed.Some? then committed.value else "") + req.content)])
  {
    CommittedWrite(setup, w, req, run);
    assert "" + req.content == req.content;
  }

  /** A commit whose push does not land is kept as the last local-only commit, and the caller is told. */
  lemma {:induction false} UnpushedCommitKept(setup: Setup, w: World, req: WriteRequest, run: WriteRun)
    requires Inv(w)
    requires var stage := WriteStages(setup, w, req, run).1; stage.Committed? && !stage.landed
    ensures var (after, stage) := WriteStages(setup, w, req, run);
            && Pending(after) == Pending(AfterPull(w, run)) + [NoteCommit(AfterPull(w, run), req, stage.rel)]
            && WriteStep(setup, w, req, run).1 == SyncError
  {
    AfterPullDiverged(w, run);
    UnpushedNoteKept(AfterPull(w, run), |w.remote|, req, Admit(setup, w, req, run).rel, run);
  }

  lemma UnpushedNoteKept(pulled: World, base: nat, req: WriteRequest, rel: Path, run: WriteRun)
    requires Diverged(pulled, base)
    requires var stage := NoteStages(pulled, req, rel, run).1; stage.Committed? && !stage.landed
    ensures var (after, stage) := NoteStages(pulled, req, rel, run);
            && stage.rel == rel
            && Pending(after) == Pending(pulled) + [NoteCommit(pulled, req, rel)]
            && Respond(after, stage) == SyncError
  {
    var text := NewContent(pulled, req, rel);
    WriteFileKeeps(pulled, base, rel, text);
    CommitKeeps(WriteFile(pulled, rel, text), base, rel, CommitMessage(req.mode, rel));
  }

  // ----- Which writes are admitted ---------------------------------------------------------------

  /** A stem and one of the spellings of the extension. */
  predicate MarkdownName(name: string) {
    |name| > 3 && name[|name| - 3..] in {".md", ".mD", ".Md", ".MD"}
  }

  /** The first character of a lowered text, for those that only a letter and its capital give. */
  lemma LowerHead(s: string, c: char, rest: string)
    requires c in {'.', 'm', 'd'} && Lower(s) == [c] + rest
    ensures s != [] && Lower(s[1..]) == rest
    ensures s[0] == c || (c == 'm' && s[0] == 'M') || (c == 'd' && s[0] == 'D')
  {
    var head := LowerChar(s[0]);
    assert head + Lower(s[1..]) == [c] + rest;
    assert (head + Lower(s[1..]))[0] == head[0] && ([c] + rest)[0] == c;
    DropPrefix(head, Lower(s[1..]));
    DropPrefix([c], rest);
  }

  lemma LoweredExtension(s: string)
    ensures Lower(s) == ".md" ==> s in {".md", ".mD", ".Md", ".MD"}
  {
    if Lower(s) == ".md" {
      var m, d := ['m', 'd'], ['d'];
      assert ".md" == ['.'] + m && m == ['m'] + d && d == ['d'] + [];
      LowerHead(s, '.', m);
      LowerHead(s[1..], 'm', d);
      LowerHead(s[1..][1..], 'd', []);
      assert s[1..][1..][1..] == [];
      assert s == [s[0], s[1], s[2]];
    }
  }

  lemma LoweredSpelling(s: string)
    requires |s| == 3 && s[0] == '.' && s[1] in {'m', 'M'} && s[2] in {'d', 'D'}
    ensures Lower(s) == ".md"
  {
    assert s[1..][1..][1..] == [];
    assert Lower(s[1..][1..]) == ['d'] && Lower(s[1..]) == ['m', 'd'];
  }

  lemma MarkdownExactly(name: string)
    ensures Lower(Suffix(name)) == ".md" <==> MarkdownName(name)
  {
    var n, i := |name|, LastDot(name);
    LoweredExtension(Suffix(name));
    if MarkdownName(name) {
      var end := name[n - 3..];
      LoweredSpelling(end);
      assert end[0] == '.' && end[1] != '.' && end[2] != '.';
      assert name[n - 3] == end[0] && name[n - 2] == end[1] && name[n - 1] == end[2];
    }
  }

  /** Pathname resolution of the vault root ends in a directory entry, and that of the request's path,
      missing components left alone, ends at `rel` below it. */
  ghost predicate ResolvesTo(setup: Setup, layout: PR.Tree, path: PR.RawPath, rel: Path) {
    exists base: PR.Path ::
      && PR.WalksTo(layout, PR.Strict, [], setup.root, PR.Ok(base))
      && PR.WalksTo(layout, PR.Lenient, [], PR.Joined(base, path), PR.Ok(base + rel))
  }

  lemma NoteResolved(setup: Setup, layout: PR.Tree, path: PR.RawPath, rel: Path)
    requires rel != []
    ensures ResolveNote(setup, layout, path) == Note(rel) <==>
            ResolvesTo(setup, layout, path, rel) && MarkdownName(rel[|rel| - 1])
  {
    if ResolveNote(setup, layout, path) == Note(rel) {
      var base := NoteAccepted(setup, layout, path, rel);
      AcceptedNote(setup, layout, path, base, rel);
      AcceptedResolves(setup, layout, path, base, rel);
    }
    if ResolvesTo(setup, layout, path, rel) {
      var base := ResolvesAccepted(setup, layout, path, rel);
      AcceptedNote(setup, layout, path, base, rel);
    }
  }

  lemma NoteAccepted(setup: Setup, layout: PR.Tree, path: PR.RawPath, rel: Path) returns (base: PR.Path)
    requires ResolveNote(setup, layout, path) == Note(rel)
    ensures PR.Resolve(layout, true, [], setup.root, {}) == PR.Ok(base)
    ensures PR.ResolveWithin(layout, setup.root, path) == PR.Resolved(base + rel)
  {
    base := PR.Resolve(layout, true, [], setup.root, {}).path;
    SplitAt(PR.ResolveWithin(layout, setup.root, path).path, |base|);
  }

  lemma AcceptedNote(setup: Setup, layout: PR.Tree, path: PR.RawPath, base: PR.Path, rel: Path)
    requires rel != [] && PR.Resolve(layout, true, [], setup.root, {}) == PR.Ok(base)
    requires PR.ResolveWithin(layout, setup.root, path) == PR.Resolved(base + rel)
    ensures ResolveNote(setup, layout, path) ==
            if MarkdownName(rel[|rel| - 1]) then Note(rel) else Refused(FileError)
  {
    MarkdownExactly(rel[|rel| - 1]);
    DropPrefix(base, rel);
    assert (base + rel)[|base + rel| - 1] == rel[|rel| - 1];
  }

  lemma AcceptedResolves(setup: Setup, layout: PR.Tree, path: PR.RawPath, base: PR.Path, rel: Path)
    requires PR.Resolve(layout, true, [], setup.root, {}) == PR.Ok(base)
    requires PR.ResolveWithin(layout, setup.root, path) == PR.Resolved(base + rel)
    ensures ResolvesTo(setup, layout, path, rel)
  {
    PR.ResolveIsWalk(layout, true, setup.root, PR.Ok(base));
    PR.ResolveIsWalk(layout, false, PR.Joined(base, path), PR.Ok(base + rel));
  }

  lemma ResolvesAccepted(setup: Setup, layout: PR.Tree, path: PR.RawPath, rel: Path) returns (base: PR.Path)
    requires ResolvesTo(setup, layout, path, rel)
    ensures PR.Resolve(layout, true, [], setup.root, {}) == PR.Ok(base)
    ensures PR.ResolveWithin(layout, setup.root, path) == PR.Resolved(base + rel)
  {
    base :| && PR.WalksTo(layout, PR.Strict, [], setup.root, PR.Ok(base))
            && PR.WalksTo(layout, PR.Lenient, [], PR.Joined(base, path), PR.Ok(base + rel));
    PR.ResolveIsWalk(layout, true, setup.root, PR.Ok(base));
    PR.ResolveIsWalk(layout, false, PR.Joined(base, path), PR.Ok(base + rel));
    DropPrefix(base, rel);
  }

  /** A write is admitted exactly when its mode is known, pathname resolution of its path ends strictly
      below a write directory of the vault at a name with the extension in any case, no rebase is in
      progress, and no record of the status is unmerged or a rename that looks so. */
  lemma {:induction false} AdmittedWrite(
    setup: Setup, w: World, req: WriteRequest, run: WriteRun, records: seq<PO.Record>, rel: Path)
    requires PO.AllValid(records) && run.status == Some(PO.PrintRecords(records))
    ensures Admit(setup, w, req, run) == Note(rel) <==>
            && ValidMode(req.mode)
            && |rel| >= 2 && rel[0] in setup.writeDirs && MarkdownName(rel[|rel| - 1])
            && ResolvesTo(setup, run.layout, PR.ParsePath(req.path), rel)
            && !w.stuck && forall r :: r in records ==> !PO.LooksUnmerged(r)
  {
    PO.ConflictRefusal(records);
    if |rel| >= 2 { NoteResolved(setup, run.layout, PR.ParsePath(req.path), rel); }
  }

  /** Whatever else the status shows, one unmerged record stops every write before the pull. */
  lemma UnmergedStopsWrite(
    setup: Setup, w: World, req: WriteRequest, run: WriteRun, records: seq<PO.Record>, r: PO.Record)
    requires PO.AllValid(records) && run.status == Some(PO.PrintRecords(records))
    requires r in records && PO.IsConflictCode(r.x, r.y)
    ensures WriteStages(setup, w, req, run).0 == w && WriteStages(setup, w, req, run).1.Stopped?
  {
    assert PO.LooksUnmerged(r);
    PO.ConflictRefusal(records);
  }

  // ----- A vault in the middle of a rebase -------------------------------------------------------

  /** The pull exits with an error and the rebase --abort after it works. */
  predicate Recovers(a: Action) {
    a.SyncPull? && !a.pullRun.TimedOut? && a.pullRun.aborted
  }

  /** No write gets a vault out of the middle of a rebase, or changes anything there; only a pull does
      that exits with an error and is then aborted. */
  lemma {:induction false} StuckStep(setup: Setup, w: World, a: Action)
    requires w.stuck
    ensures Step(setup, w, a).stuck <==> !Recovers(a)
    ensures a.Write? ==> Step(setup, w, a) == w && !WriteStep(setup, w, a.req, a.writeRun).1.Pushed?
    ensures Step(setup, w, a).local == w.local
    ensures Step(setup, w, a).remote == w.remote + if a.Others? then OthersPatches(a.edits) else []
  {
    AppendNothing(w.remote);
  }

  /** How a vault gets there: a pull by itself or of an admitted write that times out half-way, or fails
      and is not aborted. */
  lemma {:induction false} BecomesStuck(setup: Setup, w: World, a: Action)
    requires !w.stuck
    ensures Step(setup, w, a).stuck <==>
            match a
            case Write(req, run) => Admit(setup, w, req, run).Note? && LeavesRebase(w, run.pull)
            case SyncPull(run) => LeavesRebase(w, run)
            case Others(_) => false
  {
    if a.Write? {
      match Admit(setup, w, a.req, a.writeRun)
      case Refused(_) =>
      case Note(rel) => NoteStagesStuck(AfterPull(w, a.writeRun), a.req, rel, a.writeRun);
    }
  }

  predicate LeavesRebase(w: World, run: PullRun) {
    match run
    case Unreachable(_, _) => false
    case Fetched(_, _, _, aborted, _) => !Rebases(w, run) && !aborted
    case TimedOut(midRebase, _) => midRebase
  }

  lemma NoteStagesStuck(pulled: World, req: WriteRequest, rel: Path, run: WriteRun)
    ensures NoteStages(pulled, req, rel, run).0.stuck == pulled.stuck
  {
  }

  function PushedByOthers(actions: seq<Action>): History {
    if actions == [] then []
    else
      var last := actions[|actions| - 1];
      PushedByOthers(actions[..|actions| - 1]) + if last.Others? then OthersPatches(last.edits) else []
  }

  predicate NoneRecovers(actions: seq<Action>) {
    forall k :: 0 <= k < |actions| ==> !Recovers(actions[k])
  }

  /** A rebase is in progress before, between and after all actions of the run. */
  predicate StuckThroughout(setup: Setup, start: World, actions: seq<Action>) {
    WorldAfter(setup, start, actions).stuck &&
    (actions != [] ==> StuckThroughout(setup, start, actions[..|actions| - 1]))
  }

  /** A run leaves the vault in the middle of the rebase all the while exactly when no pull of it
      recovers; until then the branch stands still and only other clones push. */
  lemma {:induction false} StuckRun(setup: Setup, start: World, actions: seq<Action>)
    requires start.stuck
    ensures NoneRecovers(actions) <==> StuckThroughout(setup, start, actions)
    ensures NoneRecovers(actions) ==>
              var w := WorldAfter(setup, start, actions);
              w.local == start.local && w.remote == start.remote + PushedByOthers(actions)
  {
    if actions == [] {
      AppendNothing(start.remote);
    } else {
      var n := |actions| - 1;
      StuckRun(setup, start, actions[..n]);
      NoneRecoversSnoc(actions);
      if NoneRecovers(actions[..n]) { StuckSnoc(setup, start, actions); }
    }
  }

  lemma NoneRecoversSnoc(actions: seq<Action>)
    requires actions != []
    ensures NoneRecovers(actions) <==> NoneRecovers(actions[..|actions| - 1]) && !Recovers(actions[|actions| - 1])
  {
    assert forall k :: 0 <= k < |actions| - 1 ==> actions[..|actions| - 1][k] == actions[k];
  }

  lemma StuckSnoc(setup: Setup, start: World, actions: seq<Action>)
    requires actions != []
    requires var before := actions[..|actions| - 1];
             var w := WorldAfter(setup, start, before);
             w.stuck && w.local == start.local && w.remote == start.remote + PushedByOthers(before)
    ensures var w := WorldAfter(setup, start, actions);
            && (w.stuck <==> !Recovers(actions[|actions| - 1]))
            && w.local == start.local && w.remote == start.remote + PushedByOthers(actions)
  {
    var before, last := actions[..|actions| - 1], actions[|actions| - 1];
    StuckStep(setup, WorldAfter(setup, start, before), last);
    var pushed: History := if last.Others? then OthersPatches(last.edits) else [];
    ConcatAssociative(start.remote, PushedByOthers(before), pushed);
  }
}
