/** What every run of the notes vault keeps: no commit is lost, and the remote only grows. */
module NotesConservation {
  import opened NotesSync
  import opened Sequences

  // ----- Lemmas on histories ---------------------------------------------------------------------

  lemma {:induction false} CommonIs(a: History, b: History, c: nat)
    requires c <= |a| && c <= |b| && a[..c] == b[..c]
    requires c == |a| || c == |b| || a[c] != b[c]
    ensures Common(a, b) == c
  {
    if c > 0 {
      assert a[0] == a[..c][0] == b[..c][0] == b[0];
      assert a[1..][..c - 1] == a[..c][1..] && b[1..][..c - 1] == b[..c][1..];
      CommonIs(a[1..], b[1..], c - 1);
    }
  }

  lemma {:induction false} TouchedExactly(h: History, q: Path)
    ensures q in Touched(h) <==> exists i :: 0 <= i < |h| && q in h[i].changes
  {
    if h != [] {
      var n := |h| - 1;
      TouchedExactly(h[..n], q);
      if i :| 0 <= i < |h| && q in h[i].changes {
        assert i < n ==> q in h[..n][i].changes;
      }
      if i :| 0 <= i < n && q in h[..n][i].changes {
        assert q in h[i].changes;
      }
    }
  }

  /** The committed content of a path is what the last commit that touches it says. */
  lemma {:induction false} CheckoutExactly(h: History, q: Path)
    ensures q !in Touched(h) ==> q !in Checkout(h)
    ensures forall i :: 0 <= i < |h| && q in h[i].changes && q !in Touched(h[i + 1..]) ==>
              ContentAt(Checkout(h), q) == h[i].changes[q]
  {
    if h != [] {
      var n := |h| - 1;
      CheckoutExactly(h[..n], q);
      forall i | 0 <= i < |h| && q in h[i].changes && q !in Touched(h[i + 1..])
        ensures ContentAt(Checkout(h), q) == h[i].changes[q]
      {
        TouchedExactly(h[i + 1..], q);
        if i < n { TouchedFront(h, i, q); }
      }
    }
  }

  lemma TouchedFront(h: History, i: nat, q: Path)
    requires i < |h| - 1 && q !in Touched(h[i + 1..])
    ensures q !in Touched(h[..|h| - 1][i + 1..]) && q !in h[|h| - 1].changes
  {
    var front := h[..|h| - 1][i + 1..];
    TouchedExactly(front, q);
    TouchedExactly(h[i + 1..], q);
    assert forall j :: 0 <= j < |front| ==> front[j] == h[i + 1..][j];
    assert h[i + 1..][|h| - 2 - i] == h[|h| - 1];
  }

  lemma {:induction false} OwnConcat<T>(view: Patch -> T, a: History, b: History)
    ensures Own(view, a + b) == Own(view, a) + Own(view, b)
  {
    if b == [] {
      assert a + b == a;
    } else {
      assert (a + b)[..|a + b| - 1] == a + b[..|b| - 1];
      OwnConcat(view, a, b[..|b| - 1]);
      ConcatAssociative(Own(view, a), Own(view, b[..|b| - 1]), OwnLabel(view, b[|b| - 1]));
    }
  }

  lemma {:induction false} OthersOwnNothing<T>(view: Patch -> T, h: History)
    requires AllBy(h, OtherClone)
    ensures Own(view, h) == []
  {
    if h != [] { OthersOwnNothing(view, h[..|h| - 1]); }
  }

  /** What is kept of a replayed history is what it was, with the dropped commits left out. */
  lemma {:induction false} KeptOwn<T>(view: Patch -> T, pending: History, replay: seq<Replayed>)
    requires |replay| == |pending| && AllBy(pending, Bridge)
    requires forall i :: 0 <= i < |pending| && replay[i].Kept? ==>
               replay[i].patch.author == Bridge && view(replay[i].patch) == view(pending[i])
    ensures AllBy(KeptOf(replay), Bridge) && |KeptOf(replay)| <= |pending|
    ensures Shrinks(Own(view, pending), Own(view, KeptOf(replay)), |pending| - |KeptOf(replay)|)
  {
    if pending != [] {
      var n := |pending| - 1;
      KeptOwn(view, pending[..n], replay[..n]);
      var before, after := Own(view, pending[..n]), Own(view, KeptOf(replay[..n]));
      if replay[n].Kept? {
        OwnConcat(view, KeptOf(replay[..n]), [replay[n].patch]);
        OwnSingle(view, replay[n].patch);
        ShrinksConcat(before, after, n - |KeptOf(replay[..n])|, [view(pending[n])]);
      } else {
        AppendNothing(KeptOf(replay[..n]));
        ShrinksDrop(before, after, n - |KeptOf(replay[..n])|, view(pending[n]));
      }
    }
  }

  /** `after` is `before` with n elements left out. */
  predicate Shrinks<T(==)>(before: seq<T>, after: seq<T>, n: nat) {
    Subsequence(after, before) && |after| + n == |before|
  }

  lemma ShrinksSelf<T>(s: seq<T>)
    ensures Shrinks(s, s, 0)
  {
    SubsequenceSelf(s);
  }

  lemma ShrinksConcat<T>(before: seq<T>, after: seq<T>, n: nat, more: seq<T>)
    requires Shrinks(before, after, n)
    ensures Shrinks(before + more, after + more, n)
  {
    SubsequenceSelf(more);
    SubsequenceConcat(after, before, more, more);
  }

  lemma ShrinksDrop<T>(before: seq<T>, after: seq<T>, n: nat, x: T)
    requires Shrinks(before, after, n)
    ensures Shrinks(before + [x], after, n + 1)
  {
    DropLast(before, x);
  }

  lemma ShrinksTwice<T>(a: seq<T>, b: seq<T>, c: seq<T>, m: nat, n: nat)
    requires Shrinks(a, b, m) && Shrinks(b, c, n)
    ensures Shrinks(a, c, m + n)
  {
    SubsequenceOf(c, b, a);
  }

  // ----- The invariant ---------------------------------------------------------------------------

  /** Only the bridge commits in the vault, and what it has not got from the remote is by others. */
  predicate Inv(w: World) {
    && AllBy(Pending(w), Bridge)
    && (Pending(w) != [] ==> AllBy(Incoming(w), OtherClone))
  }

  /** Published commits of the bridge, then the local-only ones. */
  function Account<T>(view: Patch -> T, w: World): seq<T> {
    Own(view, w.remote) + Own(view, Pending(w))
  }

  /** The vault is a base that the remote has too, then commits by the bridge; the remote is that
      base, then commits by others. */
  predicate Diverged(w: World, base: nat) {
    && base <= |w.local| && base <= |w.remote| && w.local[..base] == w.remote[..base]
    && AllBy(w.local[base..], Bridge) && AllBy(w.remote[base..], OtherClone)
  }

  lemma DivergedInv(w: World, base: nat)
    requires Diverged(w, base)
    ensures Common(w.local, w.remote) == base && Inv(w)
  {
    if base < |w.local| && base < |w.remote| {
      assert w.local[base..][0].author == Bridge && w.remote[base..][0].author == OtherClone;
    }
    CommonIs(w.local, w.remote, base);
  }

  lemma OthersAppend(remote: History, edits: seq<Edit>, base: nat)
    requires base <= |remote|
    ensures AllBy(remote[base..], OtherClone) ==> AllBy((remote + OthersPatches(edits))[base..], OtherClone)
    ensures (remote + OthersPatches(edits))[..base] == remote[..base]
  {
    assert (remote + OthersPatches(edits))[base..] == remote[base..] + OthersPatches(edits);
  }

  /** Pushes of other clones leave the local-only commits as they are. */
  lemma OthersKeep(w: World, edits: seq<Edit>)
    requires Inv(w)
    ensures Inv(OthersPush(w, edits)) && Pending(OthersPush(w, edits)) == Pending(w)
  {
    var base := Common(w.local, w.remote);
    var after := OthersPush(w, edits);
    OthersAppend(w.remote, edits, base);
    if Pending(w) != [] {
      DivergedInv(after, base);
    } else {
      CommonIs(after.local, after.remote, base);
    }
  }

  lemma OthersAccount<T>(view: Patch -> T, w: World, edits: seq<Edit>)
    requires Inv(w)
    ensures Account(view, OthersPush(w, edits)) == Account(view, w)
  {
    OthersKeep(w, edits);
    OwnConcat(view, w.remote, OthersPatches(edits));
    OthersOwnNothing(view, OthersPatches(edits));
    assert Own(view, w.remote) + [] == Own(view, w.remote);
  }

  lemma {:induction false} KeptByBridge(pending: History, incoming: History, replay: seq<Replayed>)
    requires AllBy(pending, Bridge) && Replays(pending, incoming, replay)
    ensures AllBy(KeptOf(replay), Bridge) && |KeptOf(replay)| <= |pending|
    ensures (forall i :: 0 <= i < |replay| ==> replay[i].Kept?) ==> |KeptOf(replay)| == |pending|
  {
    if pending != [] {
      var n := |pending| - 1;
      assert forall i :: 0 <= i < n ==> ReplaysAs(pending[..n][i], incoming, replay[..n][i]);
      KeptByBridge(pending[..n], incoming, replay[..n]);
      assert ReplaysAs(pending[n], incoming, replay[n]);
    }
  }

  /** A pull puts the local-only commits, as replayed and in order, on top of the whole remote, or
      leaves the history as it was. A failure that git aborts, and one to reach the remote, leave all
      as it was, unless a rebase had been in progress. */
  lemma PullKeeps(w: World, run: PullRun)
    requires Inv(w)
    ensures var (after, ok) := PullStep(w, run);
            && after.remote == w.remote && Inv(after)
            && (if Rebases(w, run) then
                  && after.local == w.remote + Pending(after) && Pending(after) == KeptOf(run.replay)
                  && |Pending(after)| + DropsOf(w, run) == |Pending(w)| && Diverged(after, |w.remote|)
                else after.local == w.local && !ok)
            && (!w.stuck && !Rebases(w, run) && !run.TimedOut? && !after.stuck ==> after == w)
            && (Clean(w) && Rebases(w, run) ==> Clean(after))
  {
    if Rebases(w, run) { RebaseKeeps(w, run); }
  }

  lemma RebaseKeeps(w: World, run: PullRun)
    requires Inv(w) && Rebases(w, run)
    ensures var after := PullStep(w, run).0;
            && Diverged(after, |w.remote|) && Inv(after) && Pending(after) == KeptOf(run.replay)
            && |Pending(after)| + DropsOf(w, run) == |Pending(w)|
  {
    var after := PullStep(w, run).0;
    KeptByBridge(Pending(w), Incoming(w), run.replay);
    DropPrefix(w.remote, KeptOf(run.replay));
    assert after.local[..|w.remote|] == w.remote == after.remote[..|w.remote|] && after.remote[|w.remote|..] == [];
    DivergedInv(after, |w.remote|);
  }

  lemma PullAccount<T>(view: Patch -> T, w: World, run: PullRun)
    requires Inv(w) && ReplayKeeps(view, w, run)
    ensures Shrinks(Account(view, w), Account(view, PullStep(w, run).0), DropsOf(w, run))
  {
    PullKeeps(w, run);
    if Rebases(w, run) {
      ReplayAccount(view, w, run);
    } else {
      ShrinksSelf(Account(view, w));
    }
  }

  lemma ReplayAccount<T>(view: Patch -> T, w: World, run: PullRun)
    requires Inv(w) && ReplayKeeps(view, w, run) && Rebases(w, run)
    ensures Shrinks(Own(view, w.remote) + Own(view, Pending(w)), Own(view, w.remote) + Own(view, KeptOf(run.replay)),
                    DropsOf(w, run))
  {
    forall i | 0 <= i < |Pending(w)| && run.replay[i].Kept? ensures run.replay[i].patch.author == Bridge {
      assert ReplaysAs(Pending(w)[i], Incoming(w), run.replay[i]);
    }
    KeptOwn(view, Pending(w), run.replay);
    SubsequenceSelf(Own(view, w.remote));
    SubsequenceConcat(Own(view, w.remote), Own(view, w.remote), Own(view, KeptOf(run.replay)), Own(view, Pending(w)));
  }

  /** After a pull that succeeds, and pushes of others since, the two histories diverge cleanly. */
  lemma AfterPullDiverged(w: World, run: WriteRun)
    requires Inv(w) && PullStep(w, run.pull).1
    ensures Diverged(AfterPull(w, run), |w.remote|) && w.remote <= AfterPull(w, run).remote
  {
    PullKeeps(w, run.pull);
    OthersAppend(w.remote, run.others, |w.remote|);
  }

  lemma AfterPullAccount<T>(view: Patch -> T, w: World, run: WriteRun)
    requires Inv(w) && ReplayKeeps(view, w, run.pull)
    ensures Shrinks(Account(view, w), Account(view, AfterPull(w, run)), DropsOf(w, run.pull))
  {
    PullKeeps(w, run.pull);
    PullAccount(view, w, run.pull);
    OthersAccount(view, PullStep(w, run.pull).0, run.others);
  }

  lemma WriteFileKeeps(w: World, base: nat, rel: Path, text: string)
    requires Diverged(w, base)
    ensures Diverged(WriteFile(w, rel, text), base)
    ensures WriteFile(w, rel, text).remote == w.remote && WriteFile(w, rel, text).local == w.local
  {
  }

  lemma CommitKeeps(w: World, base: nat, rel: Path, message: string)
    requires Diverged(w, base) && rel in w.files
    ensures var after := CommitStep(w, rel, message);
            Diverged(after, base) && Pending(after) == Pending(w) + [NotePatch(message, rel, w.files[rel])]
  {
    var after := CommitStep(w, rel, message);
    assert after.local[..base] == w.local[..base];
    assert after.local[base..] == w.local[base..] + [NotePatch(message, rel, w.files[rel])];
    DivergedInv(w, base);
    DivergedInv(after, base);
  }

  lemma CommitAccount<T>(view: Patch -> T, w: World, base: nat, rel: Path, message: string)
    requires Diverged(w, base) && rel in w.files
    ensures Account(view, CommitStep(w, rel, message)) ==
            Account(view, w) + [view(NotePatch(message, rel, w.files[rel]))]
  {
    var patch := NotePatch(message, rel, w.files[rel]);
    CommitKeeps(w, base, rel, message);
    OwnConcat(view, Pending(w), [patch]);
    OwnSingle(view, patch);
    ConcatAssociative(Own(view, w.remote), Own(view, Pending(w)), [view(patch)]);
  }

  lemma OwnSingle<T>(view: Patch -> T, p: Patch)
    requires p.author == Bridge
    ensures Own(view, [p]) == [view(p)]
  {
    assert [p][..0] == [];
  }

  /** A push that lands publishes all local-only commits. */
  lemma PushKeeps(w: World, run: PushRun)
    requires Inv(w)
    ensures var after := PushStep(w, run);
            && Inv(after) && w.remote <= after.remote
            && (PushLands(w, run) ==> Pending(after) == [] && after.remote == after.local == w.remote + Pending(w))
  {
    if PushLands(w, run) {
      var after := PushStep(w, run);
      assert w.local[..|w.remote|] == w.remote;
      CommonIs(w.local, w.remote, |w.remote|);
      CommonIs(after.local, after.remote, |w.local|);
      assert w.local == w.remote + Pending(w);
    }
  }

  lemma PushAccount<T>(view: Patch -> T, w: World, run: PushRun)
    requires Inv(w)
    ensures Account(view, PushStep(w, run)) == Account(view, w)
  {
    if PushLands(w, run) {
      PushKeeps(w, run);
      OwnConcat(view, w.remote, Pending(w));
      assert Own(view, w.local) + [] == Own(view, w.local);
    }
  }

  lemma CommitStagesKeep(w: World, base: nat, rel: Path, message: string, run: WriteRun)
    requires Diverged(w, base)
    ensures var (after, stage) := CommitStages(w, rel, message, run);
            && Inv(after) && w.remote <= after.remote
            && (stage.Committed? ==> stage.rel == rel)
            && (stage.Committed? && stage.landed ==> Pending(after) == [] && after.remote == after.local)
  {
    DivergedInv(w, base);
    if Commits(w, rel, run.commit) {
      CommitKeeps(w, base, rel, message);
      DivergedInv(CommitStep(w, rel, message), base);
      PushKeeps(CommitStep(w, rel, message), run.push);
    }
  }

  lemma CommitStagesAccount<T>(view: Patch -> T, w: World, base: nat, rel: Path, message: string, run: WriteRun)
    requires Diverged(w, base) && rel in w.files
    ensures var (after, stage) := CommitStages(w, rel, message, run);
            Account(view, after) ==
            Account(view, w) + (if stage.Committed? then [view(NotePatch(message, rel, w.files[rel]))] else [])
  {
    if Commits(w, rel, run.commit) {
      CommitAccount(view, w, base, rel, message);
      CommitKeeps(w, base, rel, message);
      DivergedInv(CommitStep(w, rel, message), base);
      PushAccount(view, CommitStep(w, rel, message), run.push);
    } else {
      assert Account(view, w) + [] == Account(view, w);
    }
  }

  lemma NoteKeeps(pulled: World, base: nat, req: WriteRequest, rel: Path, run: WriteRun)
    requires Diverged(pulled, base)
    ensures var (after, stage) := NoteStages(pulled, req, rel, run);
            && Inv(after) && pulled.remote <= after.remote
            && (stage.Committed? ==> stage.rel == rel)
            && (stage.Committed? && stage.landed ==> Pending(after) == [] && after.remote == after.local)
  {
    DivergedInv(pulled, base);
    if !(req.mode == CREATE && rel in pulled.files) {
      var text := NewContent(pulled, req, rel);
      WriteFileKeeps(pulled, base, rel, text);
      CommitStagesKeep(WriteFile(pulled, rel, text), base, rel, CommitMessage(req.mode, rel), run);
    }
  }

  lemma NoteAccount<T>(view: Patch -> T, pulled: World, base: nat, req: WriteRequest, rel: Path, run: WriteRun)
    requires Diverged(pulled, base)
    ensures var (after, stage) := NoteStages(pulled, req, rel, run);
            Account(view, after) ==
            Account(view, pulled) + (if stage.Committed? then [view(NoteCommit(pulled, req, rel))] else [])
  {
    if !(req.mode == CREATE && rel in pulled.files) {
      var text := NewContent(pulled, req, rel);
      WriteFileKeeps(pulled, base, rel, text);
      CommitStagesAccount(view, WriteFile(pulled, rel, text), base, rel, CommitMessage(req.mode, rel), run);
    } else {
      assert Account(view, pulled) + [] == Account(view, pulled);
    }
  }

  /** notes_write keeps the invariant and lets the remote only grow; when its push lands, nothing is
      local-only any more. */
  lemma {:induction false} WriteKeeps(setup: Setup, w: World, req: WriteRequest, run: WriteRun)
    requires Inv(w)
    ensures var (after, stage) := WriteStages(setup, w, req, run);
            && Inv(after) && w.remote <= after.remote
            && (stage.Committed? && stage.landed ==> Pending(after) == [] && after.remote == after.local)
  {
    match Admit(setup, w, req, run)
    case Refused(_) =>
    case Note(rel) => PullStagesKeep(w, req, rel, run);
  }

  lemma PullStagesKeep(w: World, req: WriteRequest, rel: Path, run: WriteRun)
    requires Inv(w)
    ensures var (after, stage) := PullStages(w, req, rel, run);
            && Inv(after) && w.remote <= after.remote
            && (stage.Committed? ==> stage.rel == rel)
            && (stage.Committed? && stage.landed ==> Pending(after) == [] && after.remote == after.local)
  {
    PullKeeps(w, run.pull);
    if PullStep(w, run.pull).1 {
      AfterPullDiverged(w, run);
      NoteKeeps(AfterPull(w, run), |w.remote|, req, rel, run);
    }
  }

  /** notes_write adds to the account exactly the commit it makes, and takes off what its pull drops. */
  lemma {:induction false} WriteAccount<T>(
    view: Patch -> T, setup: Setup, w: World, req: WriteRequest, run: WriteRun)
    requires Inv(w) && ReplayKeeps(view, w, run.pull)
    ensures Shrinks(Account(view, w) + CommitOf(view, setup, w, Write(req, run)),
                    Account(view, WriteStages(setup, w, req, run).0), DropsAt(setup, w, Write(req, run)))
  {
    match Admit(setup, w, req, run)
    case Refused(_) =>
      AppendNothing(Account(view, w));
      ShrinksSelf(Account(view, w));
    case Note(rel) =>
      PullStagesKeep(w, req, rel, run);
      PullStagesAccount(view, w, req, rel, run);
  }

  lemma PullStagesAccount<T>(view: Patch -> T, w: World, req: WriteRequest, rel: Path, run: WriteRun)
    requires Inv(w) && ReplayKeeps(view, w, run.pull)
    ensures var (after, stage) := PullStages(w, req, rel, run);
            Shrinks(Account(view, w) +
                      (if stage.Committed? then [view(NoteCommit(AfterPull(w, run), req, rel))] else []),
                    Account(view, after), DropsOf(w, run.pull))
  {
    if PullStep(w, run.pull).1 {
      AfterPullDiverged(w, run);
      AfterPullAccount(view, w, run);
      NoteAccount(view, AfterPull(w, run), |w.remote|, req, rel, run);
      var stage := PullStages(w, req, rel, run).1;
      ShrinksConcat(Account(view, w), Account(view, AfterPull(w, run)), DropsOf(w, run.pull),
                    if stage.Committed? then [view(NoteCommit(AfterPull(w, run), req, rel))] else []);
    } else {
      PullAccount(view, w, run.pull);
      AppendNothing(Account(view, w));
    }
  }

  lemma StepKeeps(setup: Setup, w: World, a: Action)
    requires Inv(w)
    ensures Inv(Step(setup, w, a)) && w.remote <= Step(setup, w, a).remote
  {
    match a
    case Write(req, run) => WriteKeeps(setup, w, req, run);
    case SyncPull(run) => PullKeeps(w, run);
    case Others(edits) => OthersKeep(w, edits);
  }

  lemma StepAccount<T>(view: Patch -> T, setup: Setup, w: World, a: Action)
    requires Inv(w) && ActionKeeps(view, w, a)
    ensures Shrinks(Account(view, w) + CommitOf(view, setup, w, a), Account(view, Step(setup, w, a)),
                    DropsAt(setup, w, a))
  {
    AppendNothing(Account(view, w));
    match a
    case Write(req, run) => WriteAccount(view, setup, w, req, run);
    case SyncPull(run) => PullAccount(view, w, run);
    case Others(edits) =>
      OthersAccount(view, w, edits);
      ShrinksSelf(Account(view, w));
  }

  // ----- Main results ----------------------------------------------------------------------------

  lemma {:induction false} RunKeepsInv(setup: Setup, start: World, actions: seq<Action>)
    requires Cloned(start)
    ensures Inv(WorldAfter(setup, start, actions))
  {
    if actions == [] {
      CommonIs(start.local, start.remote, |start.local|);
    } else {
      RunKeepsInv(setup, start, actions[..|actions| - 1]);
      StepKeeps(setup, WorldAfter(setup, start, actions[..|actions| - 1]), actions[|actions| - 1]);
    }
  }

  /** What was there at the start, and then what the run committed. */
  function Told<T>(view: Patch -> T, setup: Setup, start: World, actions: seq<Action>): seq<T> {
    Own(view, start.remote) + CommittedIn(view, setup, start, actions)
  }

  /** The account after the run is that, save the commits that replays dropped. */
  predicate Balanced<T(==)>(view: Patch -> T, setup: Setup, start: World, actions: seq<Action>) {
    Shrinks(Told(view, setup, start, actions), Account(view, WorldAfter(setup, start, actions)),
            DropsIn(setup, start, actions))
  }

  lemma {:induction false} RunAccount<T>(view: Patch -> T, setup: Setup, start: World, actions: seq<Action>)
    requires Cloned(start) && RunKeeps(view, setup, start, actions)
    ensures Balanced(view, setup, start, actions)
  {
    if actions == [] {
      StartBalanced(view, setup, start);
    } else {
      var before := actions[..|actions| - 1];
      RunAccount(view, setup, start, before);
      RunKeepsInv(setup, start, before);
      StaysBalanced(view, setup, start, actions);
    }
  }

  lemma StaysBalanced<T>(view: Patch -> T, setup: Setup, start: World, actions: seq<Action>)
    requires actions != []
    requires var before := actions[..|actions| - 1];
             var w := WorldAfter(setup, start, before);
             Balanced(view, setup, start, before) && Inv(w) && ActionKeeps(view, w, actions[|actions| - 1])
    ensures Balanced(view, setup, start, actions)
  {
    var before, last := actions[..|actions| - 1], actions[|actions| - 1];
    var w := WorldAfter(setup, start, before);
    var commit := CommitOf(view, setup, w, last);
    StepAccount(view, setup, w, last);
    ConcatAssociative(Own(view, start.remote), CommittedIn(view, setup, start, before), commit);
    ShrinksConcat(Told(view, setup, start, before), Account(view, w), DropsIn(setup, start, before), commit);
    ShrinksTwice(Told(view, setup, start, before) + commit, Account(view, w) + commit,
                 Account(view, Step(setup, w, last)), DropsIn(setup, start, before), DropsAt(setup, w, last));
  }

  lemma StartBalanced<T>(view: Patch -> T, setup: Setup, start: World)
    requires Cloned(start)
    ensures Balanced(view, setup, start, [])
  {
    CommonIs(start.local, start.remote, |start.local|);
    AppendNothing(Own(view, start.remote));
    ShrinksSelf(Own(view, start.remote));
  }

  /** Over every interleaving of writes, pulls, pushes of other clones and failing network steps, no
      note is lost, repeated or reordered: the bridge's commits in the remote, followed by the
      local-only ones, are those that were there at the start followed by exactly the writes committed
      in the run, in order, each told by its message, what was done to which path. What is missing is
      exactly what git dropped on replay, its change being upstream already. */
  lemma {:induction false} NotesConserved(setup: Setup, start: World, actions: seq<Action>)
    requires Cloned(start)
    ensures var w := WorldAfter(setup, start, actions);
            var held := Own(MessageOf, w.remote) + Own(MessageOf, Pending(w));
            var told := Own(MessageOf, start.remote) + CommittedIn(MessageOf, setup, start, actions);
            && Subsequence(held, told) && |held| + DropsIn(setup, start, actions) == |told|
            && (DropsIn(setup, start, actions) == 0 ==> held == told)
  {
    MessagesKept(setup, start, actions);
    RunAccount(MessageOf, setup, start, actions);
    SubsequenceLength(Account(MessageOf, WorldAfter(setup, start, actions)), Told(MessageOf, setup, start, actions));
  }

  /** A replay keeps the messages, so every run does. */
  lemma {:induction false} MessagesKept(setup: Setup, start: World, actions: seq<Action>)
    ensures RunKeeps(MessageOf, setup, start, actions)
  {
    if actions != [] {
      var before, last := actions[..|actions| - 1], actions[|actions| - 1];
      MessagesKept(setup, start, before);
      var w := WorldAfter(setup, start, before);
      match last
      case Write(_, run) => ReplayKeepsMessages(w, run.pull);
      case SyncPull(run) => ReplayKeepsMessages(w, run);
      case Others(_) =>
    }
  }

  lemma ReplayKeepsMessages(w: World, run: PullRun)
    ensures ReplayKeeps(MessageOf, w, run)
  {
    if Rebases(w, run) {
      assert forall i :: 0 <= i < |Pending(w)| ==> ReplaysAs(Pending(w)[i], Incoming(w), run.replay[i]);
    }
  }

  /** The action fetches no commit that touches a path of a local-only commit. */
  predicate NoOverlap(w: World, a: Action) {
    a.Others? || forall i :: 0 <= i < |Pending(w)| ==> Pending(w)[i].changes.Keys !! Touched(Incoming(w))
  }

  predicate NoOverlapInRun(setup: Setup, start: World, actions: seq<Action>) {
    actions != [] ==>
      var before := actions[..|actions| - 1];
      NoOverlapInRun(setup, start, before) && NoOverlap(WorldAfter(setup, start, before), actions[|actions| - 1])
  }

  /** As long as nobody else touches a note that waits to be published, no commit is dropped and all are
      conserved whole, content included. */
  lemma {:induction false} ContentConserved(setup: Setup, start: World, actions: seq<Action>)
    requires Cloned(start) && NoOverlapInRun(setup, start, actions)
    ensures var w := WorldAfter(setup, start, actions);
            Own(Whole, w.remote) + Own(Whole, Pending(w)) ==
            Own(Whole, start.remote) + CommittedIn(Whole, setup, start, actions)
  {
    ContentKept(setup, start, actions);
    RunAccount(Whole, setup, start, actions);
    SubsequenceLength(Account(Whole, WorldAfter(setup, start, actions)), Told(Whole, setup, start, actions));
  }

  lemma {:induction false} ContentKept(setup: Setup, start: World, actions: seq<Action>)
    requires Cloned(start) && NoOverlapInRun(setup, start, actions)
    ensures RunKeeps(Whole, setup, start, actions) && DropsIn(setup, start, actions) == 0
  {
    if actions != [] {
      var before, last := actions[..|actions| - 1], actions[|actions| - 1];
      ContentKept(setup, start, before);
      RunKeepsInv(setup, start, before);
      var w := WorldAfter(setup, start, before);
      match last
      case Write(_, run) => ReplayKeepsContent(w, run.pull);
      case SyncPull(run) => ReplayKeepsContent(w, run);
      case Others(_) =>
    }
  }

  lemma ReplayKeepsContent(w: World, run: PullRun)
    requires Inv(w)
    requires forall i :: 0 <= i < |Pending(w)| ==> Pending(w)[i].changes.Keys !! Touched(Incoming(w))
    ensures ReplayKeeps(Whole, w, run) && DropsOf(w, run) == 0
  {
    if Rebases(w, run) {
      assert forall i :: 0 <= i < |Pending(w)| ==> ReplaysAs(Pending(w)[i], Incoming(w), run.replay[i]);
      KeptByBridge(Pending(w), Incoming(w), run.replay);
    }
  }

  /** Each earlier remote history is a prefix of each later one. */
  lemma {:induction false} RemoteOnlyGrows(setup: Setup, start: World, actions: seq<Action>, k: nat)
    requires Cloned(start) && k <= |actions|
    ensures WorldAfter(setup, start, actions[..k]).remote <= WorldAfter(setup, start, actions).remote
    decreases |actions|
  {
    if k == |actions| {
      assert actions[..k] == actions;
    } else {
      var before := actions[..|actions| - 1];
      assert before[..k] == actions[..k];
      RemoteOnlyGrows(setup, start, before, k);
      RunKeepsInv(setup, start, before);
      StepKeeps(setup, WorldAfter(setup, start, before), actions[|actions| - 1]);
      PrefixTransitive(WorldAfter(setup, start, actions[..k]).remote, WorldAfter(setup, start, before).remote,
                       WorldAfter(setup, start, actions).remote);
    }
  }

  /** A write that gets through to a report has landed, and no refusal looks like a success. */
  lemma StageReported(setup: Setup, w: World, req: WriteRequest, run: WriteRun)
    ensures var stage := WriteStages(setup, w, req, run).1;
            && (stage.Stopped? ==> !stage.response.Pushed?)
            && (stage.Committed? && stage.reported ==> stage.landed)
  {
    match Admit(setup, w, req, run)
    case Refused(_) =>
    case Note(rel) =>
  }

  lemma RespondPushed(after: World, stage: Stage)
    requires Respond(after, stage).Pushed? && !(stage.Stopped? && stage.response.Pushed?)
    ensures stage.Committed? && stage.reported && Respond(after, stage).commit == after.local
  {
  }

  /** When a write returns pushed, every local-only commit is published with it. */
  lemma {:induction false} PushedPublishesAll(setup: Setup, w: World, req: WriteRequest, run: WriteRun)
    requires Inv(w) && WriteStep(setup, w, req, run).1.Pushed?
    ensures var (after, response) := WriteStep(setup, w, req, run);
            Pending(after) == [] && after.local == after.remote == response.commit
  {
    var (after, stage) := WriteStages(setup, w, req, run);
    StageReported(setup, w, req, run);
    RespondPushed(after, stage);
    WriteKeeps(setup, w, req, run);
  }

  /** A commit returned as pushed is in the remote history of every later state. */
  lemma {:induction false} PushedStays(setup: Setup, start: World, actions: seq<Action>, k: nat)
    requires Cloned(start) && k < |actions| && actions[k].Write?
    requires WriteStep(setup, WorldAfter(setup, start, actions[..k]), actions[k].req, actions[k].writeRun).1.Pushed?
    ensures WriteStep(setup, WorldAfter(setup, start, actions[..k]), actions[k].req, actions[k].writeRun).1.commit
            <= WorldAfter(setup, start, actions).remote
  {
    var w := WorldAfter(setup, start, actions[..k]);
    RunKeepsInv(setup, start, actions[..k]);
    PushedPublishesAll(setup, w, actions[k].req, actions[k].writeRun);
    RunSnoc(setup, start, actions, k);
    RemoteOnlyGrows(setup, start, actions, k + 1);
  }

  lemma RunSnoc(setup: Setup, start: World, actions: seq<Action>, k: nat)
    requires k < |actions|
    ensures WorldAfter(setup, start, actions[..k + 1]) ==
            Step(setup, WorldAfter(setup, start, actions[..k]), actions[k])
  {
    assert actions[..k + 1][..k] == actions[..k];
  }
}
