/** Which verdict the containment checks give, refusals included, and what refusals do not tell. */
module Containment {
  import opened PathResolution
  import opened Sequences

  // ----- How the two modes fail ------------------------------------------------------------------

  /** Without strict nothing fails but a loop. */
  lemma {:induction false} LenientEnds(tree: Tree, dir: Path, rest: seq<string>, open: set<Path>)
    ensures Resolve(tree, false, dir, rest, open).Ok? || Resolve(tree, false, dir, rest, open) == Loop
    decreases |Links(tree) - open|, |rest|
  {
    if rest != [] {
      var next := dir + [rest[0]];
      if rest[0] == UP {
        LenientEnds(tree, Parent(dir), rest[1..], open);
      } else if !IsLink(tree, next) {
        LenientEnds(tree, next, rest[1..], open);
      } else if next !in open {
        OpeningShrinks(tree, open, next);
        var start := LinkStart(tree[next], dir);
        LenientEnds(tree, start, tree[next].target, open + {next});
        var target := Resolve(tree, false, start, tree[next].target, open + {next});
        if target.Ok? { LenientEnds(tree, target.path, rest[1..], open); }
      }
    }
  }

  /** What loops strictly loops without strict. */
  lemma {:induction false} StrictLoopIsLoop(tree: Tree, dir: Path, rest: seq<string>, open: set<Path>)
    requires Resolve(tree, true, dir, rest, open) == Loop
    ensures Resolve(tree, false, dir, rest, open) == Loop
    decreases |Links(tree) - open|, |rest|
  {
    var next := dir + [rest[0]];
    if rest[0] == UP {
      StrictLoopIsLoop(tree, Parent(dir), rest[1..], open);
    } else if !IsLink(tree, next) {
      StrictLoopIsLoop(tree, next, rest[1..], open);
    } else if next !in open {
      OpeningShrinks(tree, open, next);
      var start := LinkStart(tree[next], dir);
      var target := Resolve(tree, true, start, tree[next].target, open + {next});
      if target.Ok? {
        StrictAgrees(tree, start, tree[next].target, open + {next});
        StrictLoopIsLoop(tree, target.path, rest[1..], open);
      } else {
        StrictLoopIsLoop(tree, start, tree[next].target, open + {next});
      }
    }
  }

  /** The machine takes more than any number of steps. */
  ghost predicate NeverEnds(tree: Tree, rules: Rules, pending: seq<string>) {
    forall n: nat :: Walk(tree, rules, [], pending, n).Running?
  }

  lemma WalkOutcomes(tree: Tree, strict: bool, rest: seq<string>)
    ensures var r := Resolve(tree, strict, [], rest, {});
            && (r == Loop <==> NeverEnds(tree, RulesOf(strict), rest))
            && forall o :: WalksTo(tree, RulesOf(strict), [], rest, o) <==> o == r && r != Loop
  {
    var r := Resolve(tree, strict, [], rest, {});
    if r == Loop {
      forall n: nat ensures Walk(tree, RulesOf(strict), [], rest, n).Running? {
        WalkDecides(tree, strict, rest, n);
      }
    } else {
      ResolveEnds(tree, strict, rest);
      var n: nat :| Walk(tree, RulesOf(strict), [], rest, n) == Done(r);
      assert !Walk(tree, RulesOf(strict), [], rest, n).Running?;
    }
    forall o ensures WalksTo(tree, RulesOf(strict), [], rest, o) <==> o == r && r != Loop {
      ResolveIsWalk(tree, strict, rest, o);
      if n: nat :| Walk(tree, RulesOf(strict), [], rest, n) == Done(o) {
        WalkNeverLoops(tree, RulesOf(strict), [], rest, n);
      }
    }
  }

  // ----- resolve_within --------------------------------------------------------------------------

  /** The refusals of resolve_within, by pathname resolution alone. */
  lemma ResolveWithinRefuses(tree: Tree, root: seq<string>, candidate: RawPath)
    ensures ResolveWithin(tree, root, candidate) == PathSecurityError <==>
              || WalksTo(tree, Strict, [], root, Missing)
              || exists base, t :: && WalksTo(tree, Strict, [], root, Ok(base))
                                   && WalksTo(tree, Lenient, [], Joined(base, candidate), Ok(t))
                                   && !(base <= t)
    ensures ResolveWithin(tree, root, candidate) == NotADirectoryError <==>
              WalksTo(tree, Strict, [], root, NotADirectory)
    ensures ResolveWithin(tree, root, candidate) == SymlinkLoop <==>
              || NeverEnds(tree, Strict, root)
              || exists base :: && WalksTo(tree, Strict, [], root, Ok(base))
                                && NeverEnds(tree, Lenient, Joined(base, candidate))
    ensures ResolveWithin(tree, root, candidate) != FileNotFound
  {
    var base := Resolve(tree, true, [], root, {});
    WalkOutcomes(tree, true, root);
    if base.Ok? {
      LenientEnds(tree, [], Joined(base.path, candidate), {});
      WalkOutcomes(tree, false, Joined(base.path, candidate));
    }
  }

  /** The verdict on a candidate that resolves to `end`. */
  function Contained(base: Path, end: Outcome): Verdict {
    if !end.Ok? then SymlinkLoop else if base <= end.path then Resolved(end.path) else PathSecurityError
  }

  /** A relative candidate is looked up from the root, an absolute one from the root of the file system. */
  lemma CandidateVerdict(tree: Tree, root: seq<string>, base: Path, parts: seq<string>)
    requires Resolve(tree, true, [], root, {}) == Ok(base)
    ensures ResolveWithin(tree, root, RawPath(false, parts)) ==
            Contained(base, Resolve(tree, false, [], base + parts, {}))
    ensures ResolveWithin(tree, root, RawPath(true, parts)) == Contained(base, Resolve(tree, false, [], parts, {}))
  {
    LenientEnds(tree, [], base + parts, {});
    LenientEnds(tree, [], parts, {});
  }

  lemma Regrouped(base: Path, sub: seq<string>, name: string, more: seq<string>)
    ensures base + (sub + [name] + more) == base + sub + [name] + more
  {
  }

  /** A candidate that goes through a link inside the root stands for the rest of its path behind the
      link's target: it is accepted exactly when that ends below the root. */
  lemma LinkContained(tree: Tree, root: seq<string>, base: Path, sub: seq<string>, name: string, more: seq<string>)
    requires WellFormed(tree) && Resolve(tree, true, [], root, {}) == Ok(base)
    requires Canonical(tree, base + sub) && base + sub + [name] in tree && tree[base + sub + [name]].Link?
    ensures var link := tree[base + sub + [name]];
            ResolveWithin(tree, root, RawPath(false, sub + [name] + more)) ==
            Contained(base, if link.absolute then Resolve(tree, false, [], link.target + more, {})
                            else Resolve(tree, false, [], base + sub + link.target + more, {}))
  {
    LinkMeans(tree, false, base + sub, name, more);
    Regrouped(base, sub, name, more);
    CandidateVerdict(tree, root, base, sub + [name] + more);
  }

  /** A link that leaves the root is refused, wherever in the root it stands and whatever follows it. */
  lemma EscapingLinkRefused(
    tree: Tree, root: seq<string>, base: Path, sub: seq<string>, name: string, more: seq<string>)
    requires WellFormed(tree) && Resolve(tree, true, [], root, {}) == Ok(base)
    requires Canonical(tree, base + sub) && base + sub + [name] in tree
    requires var link := tree[base + sub + [name]];
             link.Link? && link.absolute && Canonical(tree, link.target + more) && !(base <= link.target + more)
    ensures ResolveWithin(tree, root, RawPath(false, sub + [name] + more)) == PathSecurityError
  {
    var end := tree[base + sub + [name]].target + more;
    LinkContained(tree, root, base, sub, name, more);
    RootIsCanonical(tree);
    assert [] + end == end;
    CanonicalResolves(tree, false, [], end);
  }

  // ----- resolve_within_any ----------------------------------------------------------------------

  /** The first of the broken roots fails in this way. */
  predicate FirstBroken(tree: Tree, roots: seq<seq<string>>, o: Outcome) {
    exists k :: 0 <= k < |roots| && FirstBrokenAt(tree, roots, k, o)
  }

  predicate FirstBrokenAt(tree: Tree, roots: seq<seq<string>>, k: nat, o: Outcome)
    requires k < |roots|
  {
    && Broken(tree, roots[k]) && Resolve(tree, true, [], roots[k], {}) == o
    && forall j :: 0 <= j < k ==> !Broken(tree, roots[j])
  }

  predicate AnyBroken(tree: Tree, roots: seq<seq<string>>) {
    exists root :: root in roots && Broken(tree, root)
  }

  /** The path is that of some root that exists, or below it. */
  predicate BelowAny(tree: Tree, roots: seq<seq<string>>, t: Path) {
    exists root :: root in roots && HasPrefix(Resolve(tree, true, [], root, {}), t)
  }

  lemma {:induction false} FirstFailure(tree: Tree, roots: seq<seq<string>>, o: Outcome)
    requires o == NotADirectory || o == Loop
    ensures ResolveRoots(tree, roots) == RootFailure(Raised(o)) <==> FirstBroken(tree, roots, o)
  {
    if roots != [] {
      var first := Resolve(tree, true, [], roots[0], {});
      if Broken(tree, roots[0]) {
        assert ResolveRoots(tree, roots) == RootFailure(Raised(first));
        if first == o { assert FirstBrokenAt(tree, roots, 0, o); }
      } else {
        FirstFailure(tree, roots[1..], o);
        FirstBrokenTail(tree, roots, o);
      }
    }
  }

  lemma FirstBrokenTail(tree: Tree, roots: seq<seq<string>>, o: Outcome)
    requires roots != [] && !Broken(tree, roots[0])
    ensures FirstBroken(tree, roots, o) <==> FirstBroken(tree, roots[1..], o)
  {
    var rest := roots[1..];
    forall k | 0 <= k < |rest| ensures FirstBrokenAt(tree, rest, k, o) <==> FirstBrokenAt(tree, roots, k + 1, o) {
      assert roots[k + 1] == rest[k];
      assert forall j :: 0 <= j < k ==> rest[j] == roots[j + 1];
    }
    if k :| 0 <= k < |roots| && FirstBrokenAt(tree, roots, k, o) {
      assert FirstBrokenAt(tree, rest, k - 1, o);
    }
  }

  /** Which refusal is given, for every candidate and every list of roots. Existence is told of paths below
      a root alone. */
  lemma WithinAnyRefuses(tree: Tree, candidate: RawPath, roots: seq<seq<string>>)
    ensures var v := WithinAny(tree, candidate, roots);
            var normalized := Resolve(tree, false, [], candidate.parts, {});
            var strict := Resolve(tree, true, [], candidate.parts, {});
            var healthy := candidate.absolute && !AnyBroken(tree, roots);
            && (v == PathSecurityError <==>
                  || !candidate.absolute
                  || (healthy && normalized.Ok? && !BelowAny(tree, roots, normalized.path)))
            && (v == FileNotFound <==>
                  healthy && normalized.Ok? && BelowAny(tree, roots, normalized.path) && strict == Missing)
            && (v == NotADirectoryError <==>
                  || (candidate.absolute && FirstBroken(tree, roots, NotADirectory))
                  || (healthy && normalized.Ok? && BelowAny(tree, roots, normalized.path) && strict == NotADirectory))
            && (v == SymlinkLoop <==>
                  || (candidate.absolute && FirstBroken(tree, roots, Loop))
                  || (healthy && normalized == Loop))
  {
    var normalized := Resolve(tree, false, [], candidate.parts, {});
    ResolvedRoots(tree, roots);
    FirstFailure(tree, roots, NotADirectory);
    FirstFailure(tree, roots, Loop);
    LenientEnds(tree, [], candidate.parts, {});
    if ResolveRoots(tree, roots).Roots? && normalized.Ok? {
      UnderAnyOf(tree, roots, normalized.path);
      AfterFirstCheck(tree, candidate, roots);
    }
  }

  /** What is left once the roots are known and the candidate does not loop. */
  lemma AfterFirstCheck(tree: Tree, candidate: RawPath, roots: seq<seq<string>>)
    requires ResolveRoots(tree, roots).Roots? && Resolve(tree, false, [], candidate.parts, {}).Ok?
    ensures Resolve(tree, true, [], candidate.parts, {}) != Loop
    ensures candidate.absolute
            && UnderAny(Resolve(tree, false, [], candidate.parts, {}).path, ResolveRoots(tree, roots).resolved) ==>
              var strict := Resolve(tree, true, [], candidate.parts, {});
              WithinAny(tree, candidate, roots) == if strict.Ok? then Resolved(strict.path) else Raised(strict)
  {
    if Resolve(tree, true, [], candidate.parts, {}) == Loop {
      StrictLoopIsLoop(tree, [], candidate.parts, {});
    } else if Resolve(tree, true, [], candidate.parts, {}).Ok? {
      StrictAgrees(tree, [], candidate.parts, {});
    }
  }

  /** Outside the roots nothing is told: two file systems that resolve the roots alike give the same verdict
      on a path that resolves below none of them in either, whatever exists there. */
  lemma OutsideTellsNothing(tree: Tree, other: Tree, candidate: RawPath, roots: seq<seq<string>>)
    requires forall root :: root in roots ==>
               Resolve(tree, true, [], root, {}) == Resolve(other, true, [], root, {})
    requires var n, m := Resolve(tree, false, [], candidate.parts, {}), Resolve(other, false, [], candidate.parts, {});
             && n.Ok? && !BelowAny(tree, roots, n.path)
             && m.Ok? && !BelowAny(other, roots, m.path)
    ensures WithinAny(tree, candidate, roots) == WithinAny(other, candidate, roots)
  {
    SameRoots(tree, other, roots);
    WithinAnyRefuses(tree, candidate, roots);
    WithinAnyRefuses(other, candidate, roots);
    ResolvedRoots(tree, roots);
    ResolvedRoots(other, roots);
  }

  lemma {:induction false} SameRoots(tree: Tree, other: Tree, roots: seq<seq<string>>)
    requires forall root :: root in roots ==>
               Resolve(tree, true, [], root, {}) == Resolve(other, true, [], root, {})
    ensures ResolveRoots(tree, roots) == ResolveRoots(other, roots)
  {
    if roots != [] {
      assert roots[0] in roots;
      SameRoots(tree, other, roots[1..]);
    }
  }

  // ----- Path(s) ---------------------------------------------------------------------------------

  /** Components that a path keeps. */
  predicate PlainParts(parts: seq<string>) {
    forall i :: 0 <= i < |parts| ==> '/' !in parts[i] && parts[i] != "" && parts[i] != "."
  }

  /** A path reads back from its text, with or without a slash in front. */
  lemma ParsePrinted(parts: seq<string>)
    requires parts != [] && PlainParts(parts)
    ensures ParsePath(Join(parts, "/")) == RawPath(false, parts)
    ensures ParsePath("/" + Join(parts, "/")) == RawPath(true, parts)
  {
    var text := Join(parts, "/");
    SplitJoin(parts, '/');
    DropDotsKeeps(parts);
    assert [] + ['/'] + text == "/" + text;
    SplitFirst([], '/', text);
    assert ([[]] + parts)[1..] == parts;
    FirstIsNoSlash(parts);
  }

  lemma FirstIsNoSlash(parts: seq<string>)
    requires parts != [] && PlainParts(parts)
    ensures !("/" <= Join(parts, "/"))
  {
    assert Join(parts, "/")[0] == parts[0][0];
    assert parts[0][0] in parts[0];
  }

  lemma {:induction false} DropDotsKeeps(parts: seq<string>)
    requires PlainParts(parts)
    ensures DropDots(parts) == parts
  {
    if parts != [] {
      DropDotsKeeps(parts[1..]);
      SplitHead(parts);
    }
  }

  /** Single dots and repeated slashes change nothing, wherever they stand. */
  lemma {:induction false} DotsIgnored(before: seq<string>, dot: string, after: seq<string>)
    requires dot == "" || dot == "."
    ensures DropDots(before + [dot] + after) == DropDots(before + after)
  {
    if before == [] {
      assert before + [dot] + after == [dot] + after && before + after == after;
      assert ([dot] + after)[1..] == after;
    } else {
      assert (before + [dot] + after)[1..] == before[1..] + [dot] + after;
      assert (before + after)[1..] == before[1..] + after;
      DotsIgnored(before[1..], dot, after);
    }
  }
}
