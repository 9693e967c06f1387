/** Path resolution over a fixed file tree, and the containment checks of security/paths.py.

    `Resolve` follows symbolic links the way os.path.realpath does: by recursion into each link's
    target, with the set of links being expanded as loop detection. `Walk` is the reference it is
    proved against: the pathname resolution of section 4.13 of POSIX.1-2017 (Base Definitions) as a
    one-component-at-a-time machine that puts a link's target in front of what is left to resolve. */
module PathResolution {
  import opened Sequences

  /** Components below the file-system root. A canonical path holds no dot-dot. */
  type Path = seq<string>

  datatype Node = Dir | File | Link(absolute: bool, target: seq<string>)

  type Tree = map<Path, Node>

  datatype Outcome = Ok(path: Path) | Missing | NotADirectory | Loop

  const UP := ".."

  function Parent(p: Path): Path {
    if p == [] then [] else p[..|p| - 1]
  }

  /** Every entry lies in a directory of the tree, and no entry is called dot-dot. */
  ghost predicate WellFormed(tree: Tree) {
    && [] in tree && tree[[]] == Dir
    && forall p :: p in tree && p != [] ==>
         Parent(p) in tree && tree[Parent(p)] == Dir && p[|p| - 1] != UP
  }

  predicate IsLink(tree: Tree, p: Path) {
    p in tree && tree[p].Link?
  }

  function Links(tree: Tree): set<Path> {
    set p | p in tree && tree[p].Link?
  }

  /** Where a link found in directory `dir` starts being resolved. */
  function LinkStart(link: Node, dir: Path): Path
    requires link.Link?
  {
    if link.absolute then [] else dir
  }

  /** The failed look-up of a name in `dir`. */
  function LookupError(tree: Tree, dir: Path): Outcome {
    if dir in tree && tree[dir].File? then NotADirectory else Missing
  }

  /** Path.resolve(strict): `dir` is resolved already, `rest` is not, `open` are the links whose
      targets are being resolved. Without strict, a missing component stays as it is. */
  function Resolve(tree: Tree, strict: bool, dir: Path, rest: seq<string>, open: set<Path>): Outcome
    decreases |Links(tree) - open|, |rest|
  {
    if rest == [] then Ok(dir)
    else if rest[0] == UP then Resolve(tree, strict, Parent(dir), rest[1..], open)
    else
      var next := dir + [rest[0]];
      if IsLink(tree, next) then
        if next in open then Loop
        else
          OpeningShrinks(tree, open, next);
          var target := Resolve(tree, strict, LinkStart(tree[next], dir), tree[next].target, open + {next});
          if target.Ok? then Resolve(tree, strict, target.path, rest[1..], open) else target
      else if strict && next !in tree then LookupError(tree, dir)
      else Resolve(tree, strict, next, rest[1..], open)
  }

  lemma OpeningShrinks(tree: Tree, open: set<Path>, link: Path)
    requires IsLink(tree, link) && link !in open
    ensures |Links(tree) - (open + {link})| < |Links(tree) - open|
  {
    assert Links(tree) - open == (Links(tree) - (open + {link})) + {link};
  }

  // ----- The reference: pathname resolution step by step -----------------------------------------

  /** How strictly the machine treats what it passes through: realpath's two modes, and POSIX,
      where dot-dot too needs a directory to start from. */
  datatype Rules = Lenient | Strict | Posix

  function RulesOf(strict: bool): Rules {
    if strict then Strict else Lenient
  }

  /** The outcome of resolving `pending` from `dir` in at most n steps; None when it takes more. */
  datatype Progress = Running | Done(outcome: Outcome)

  function Walk(tree: Tree, rules: Rules, dir: Path, pending: seq<string>, n: nat): Progress
    decreases n
  {
    if pending == [] then Done(Ok(dir))
    else if n == 0 then Running
    else if rules == Posix && dir !in tree then Done(Missing)
    else if rules == Posix && !tree[dir].Dir? then Done(if tree[dir].File? then NotADirectory else Missing)
    else if pending[0] == ".." then Walk(tree, rules, if dir == [] then [] else dir[..|dir| - 1], pending[1..], n - 1)
    else
      var next := dir + [pending[0]];
      if next in tree && tree[next].Link? then
        Walk(tree, rules, if tree[next].absolute then [] else dir, tree[next].target + pending[1..], n - 1)
      else if rules == Lenient || next in tree then Walk(tree, rules, next, pending[1..], n - 1)
      else Done(if dir in tree && tree[dir] == File then NotADirectory else Missing)
  }

  ghost predicate WalksTo(tree: Tree, rules: Rules, dir: Path, pending: seq<string>, o: Outcome) {
    exists n: nat :: Walk(tree, rules, dir, pending, n) == Done(o)
  }

  lemma {:induction false} WalkLonger(tree: Tree, rules: Rules, dir: Path, pending: seq<string>, n: nat, m: nat)
    requires n <= m && Walk(tree, rules, dir, pending, n).Done?
    ensures Walk(tree, rules, dir, pending, m) == Walk(tree, rules, dir, pending, n)
    decreases n
  {
    if pending != [] && !(rules == Posix && (dir !in tree || !tree[dir].Dir?)) {
      if pending[0] == UP {
        WalkLonger(tree, rules, Parent(dir), pending[1..], n - 1, m - 1);
      } else {
        var next := dir + [pending[0]];
        if IsLink(tree, next) {
          WalkLonger(tree, rules, LinkStart(tree[next], dir), tree[next].target + pending[1..], n - 1, m - 1);
        } else if !(rules != Lenient && next !in tree) {
          WalkLonger(tree, rules, next, pending[1..], n - 1, m - 1);
        }
      }
    }
  }

  /** n steps over rest + tail lead to where m steps over the tail alone lead from the outcome `o`. */
  predicate Simulates(
    tree: Tree, strict: bool, dir: Path, rest: seq<string>, tail: seq<string>, o: Outcome, m: nat, n: nat)
  {
    Walk(tree, RulesOf(strict), dir, rest + tail, n) ==
    if o.Ok? then Walk(tree, RulesOf(strict), o.path, tail, m) else Done(o)
  }

  lemma SimulatesLink(
    tree: Tree, strict: bool, dir: Path, rest: seq<string>, tail: seq<string>,
    target: Outcome, o: Outcome, m: nat, k: nat, n: nat)
    requires rest != [] && rest[0] != UP && IsLink(tree, dir + [rest[0]])
    requires var link := tree[dir + [rest[0]]];
             Simulates(tree, strict, LinkStart(link, dir), link.target, rest[1..] + tail, target, k, n)
    requires if target.Ok? then Simulates(tree, strict, target.path, rest[1..], tail, o, m, k) else o == target
    ensures Simulates(tree, strict, dir, rest, tail, o, m, n + 1)
  {
    assert rest + tail == [rest[0]] + (rest[1..] + tail);
    WalkStep(tree, RulesOf(strict), dir, rest[0], rest[1..] + tail, n);
  }

  lemma SimulatesPlain(
    tree: Tree, strict: bool, dir: Path, rest: seq<string>, tail: seq<string>, o: Outcome, m: nat, n: nat)
    requires rest != [] && (rest[0] == UP || !IsLink(tree, dir + [rest[0]]))
    requires var next := if rest[0] == UP then Parent(dir) else dir + [rest[0]];
             if rest[0] != UP && strict && next !in tree then o == LookupError(tree, dir)
             else Simulates(tree, strict, next, rest[1..], tail, o, m, n)
    ensures Simulates(tree, strict, dir, rest, tail, o, m, n + 1)
  {
    assert rest + tail == [rest[0]] + (rest[1..] + tail);
    WalkStep(tree, RulesOf(strict), dir, rest[0], rest[1..] + tail, n);
  }

  lemma SimulatesNothing(tree: Tree, strict: bool, dir: Path, tail: seq<string>, m: nat)
    ensures Simulates(tree, strict, dir, [], tail, Ok(dir), m, m)
  {
    assert [] + tail == tail;
  }

  /** The recursion does what the machine does, in front of any further components. */
  lemma {:induction false} ResolveWalks(
    tree: Tree, strict: bool, dir: Path, rest: seq<string>, open: set<Path>, tail: seq<string>, m: nat)
    returns (n: nat)
    requires Resolve(tree, strict, dir, rest, open) != Loop
    ensures Simulates(tree, strict, dir, rest, tail, Resolve(tree, strict, dir, rest, open), m, n)
    decreases |Links(tree) - open|, |rest|, 1
  {
    if rest == [] {
      SimulatesNothing(tree, strict, dir, tail, m);
      n := m;
    } else if rest[0] != UP && IsLink(tree, dir + [rest[0]]) {
      n := ResolveWalksLink(tree, strict, dir, rest, open, tail, m);
    } else {
      n := ResolveWalksPlain(tree, strict, dir, rest, open, tail, m);
    }
  }

  lemma {:induction false} ResolveWalksLink(
    tree: Tree, strict: bool, dir: Path, rest: seq<string>, open: set<Path>, tail: seq<string>, m: nat)
    returns (n: nat)
    requires rest != [] && rest[0] != UP && IsLink(tree, dir + [rest[0]])
    requires Resolve(tree, strict, dir, rest, open) != Loop
    ensures Simulates(tree, strict, dir, rest, tail, Resolve(tree, strict, dir, rest, open), m, n)
    decreases |Links(tree) - open|, |rest|, 0
  {
    var next := dir + [rest[0]];
    OpeningShrinks(tree, open, next);
    var start, inner := LinkStart(tree[next], dir), tree[next].target;
    var target := Resolve(tree, strict, start, inner, open + {next});
    var o := Resolve(tree, strict, dir, rest, open);
    assert o == if target.Ok? then Resolve(tree, strict, target.path, rest[1..], open) else target;
    var k := 0;
    if target.Ok? {
      k := ResolveWalks(tree, strict, target.path, rest[1..], open, tail, m);
    }
    n := ResolveWalks(tree, strict, start, inner, open + {next}, rest[1..] + tail, k);
    SimulatesLink(tree, strict, dir, rest, tail, target, o, m, k, n);
    n := n + 1;
  }

  lemma {:induction false} ResolveWalksPlain(
    tree: Tree, strict: bool, dir: Path, rest: seq<string>, open: set<Path>, tail: seq<string>, m: nat)
    returns (n: nat)
    requires rest != [] && (rest[0] == UP || !IsLink(tree, dir + [rest[0]]))
    requires Resolve(tree, strict, dir, rest, open) != Loop
    ensures Simulates(tree, strict, dir, rest, tail, Resolve(tree, strict, dir, rest, open), m, n)
    decreases |Links(tree) - open|, |rest|, 0
  {
    var next := if rest[0] == UP then Parent(dir) else dir + [rest[0]];
    var o := Resolve(tree, strict, dir, rest, open);
    n := 0;
    if rest[0] == UP || !strict || next in tree {
      assert o == Resolve(tree, strict, next, rest[1..], open);
      n := ResolveWalks(tree, strict, next, rest[1..], open, tail, m);
    }
    SimulatesPlain(tree, strict, dir, rest, tail, o, m, n);
    n := n + 1;
  }

  /** One step of the machine under realpath's rules. */
  lemma WalkStep(tree: Tree, rules: Rules, dir: Path, name: string, more: seq<string>, n: nat)
    requires rules != Posix
    ensures var next := dir + [name];
            Walk(tree, rules, dir, [name] + more, n + 1) ==
            if name == UP then Walk(tree, rules, Parent(dir), more, n)
            else if IsLink(tree, next) then
              Walk(tree, rules, LinkStart(tree[next], dir), tree[next].target + more, n)
            else if rules != Lenient && next !in tree then Done(LookupError(tree, dir))
            else Walk(tree, rules, next, more, n)
  {
    assert ([name] + more)[1..] == more;
  }

  /** A finished walk over a + b has, on the way, finished a: in j steps and not in fewer. */
  lemma {:induction false} WalkSplit(
    tree: Tree, rules: Rules, dir: Path, a: seq<string>, b: seq<string>, n: nat) returns (j: nat)
    requires Walk(tree, rules, dir, a + b, n).Done?
    ensures j <= n
    ensures Walk(tree, rules, dir, a, j).Done?
    ensures j > 0 ==> Walk(tree, rules, dir, a, j - 1).Running?
    ensures var o := Walk(tree, rules, dir, a, j).outcome;
            Walk(tree, rules, dir, a + b, n) == if o.Ok? then Walk(tree, rules, o.path, b, n - j) else Done(o)
    decreases n
  {
    if a == [] {
      j := 0;
      assert a + b == b;
    } else {
      assert (a + b)[1..] == a[1..] + b;
      var next := dir + [a[0]];
      if rules == Posix && (dir !in tree || !tree[dir].Dir?) {
        j := 1;
      } else if a[0] == UP {
        j := WalkSplit(tree, rules, Parent(dir), a[1..], b, n - 1);
        j := j + 1;
      } else if IsLink(tree, next) {
        var inner := tree[next].target;
        assert inner + (a[1..] + b) == (inner + a[1..]) + b;
        j := WalkSplit(tree, rules, LinkStart(tree[next], dir), inner + a[1..], b, n - 1);
        j := j + 1;
      } else if rules != Lenient && next !in tree {
        j := 1;
      } else {
        j := WalkSplit(tree, rules, next, a[1..], b, n - 1);
        j := j + 1;
      }
    }
  }

  /** Following the link alone takes more than n steps. */
  predicate SlowLink(tree: Tree, rules: Rules, link: Path, n: nat) {
    link != [] && Walk(tree, rules, Parent(link), [link[|link| - 1]], n).Running?
  }

  lemma FollowLink(tree: Tree, rules: Rules, dir: Path, name: string, n: nat)
    requires name != UP && IsLink(tree, dir + [name]) && rules != Posix
    ensures var link := dir + [name];
            SlowLink(tree, rules, link, n) <==>
            n == 0 || Walk(tree, rules, LinkStart(tree[link], dir), tree[link].target, n - 1).Running?
  {
    var link := dir + [name];
    assert Parent(link) == dir && [link[|link| - 1]] == [name] && dir + [name] == link;
    assert tree[link].target + [name][1..] == tree[link].target;
  }

  /** Where the machine stops, the recursion gives the same outcome: no link is met again while it
      is open, because following it inside itself would take fewer steps than following it. */
  lemma {:induction false} WalkResolves(
    tree: Tree, strict: bool, dir: Path, rest: seq<string>, open: set<Path>, n: nat, o: Outcome)
    requires Walk(tree, RulesOf(strict), dir, rest, n) == Done(o)
    requires forall link :: link in open ==> SlowLink(tree, RulesOf(strict), link, n)
    ensures Resolve(tree, strict, dir, rest, open) == o
    decreases n
  {
    var rules := RulesOf(strict);
    if rest != [] {
      forall link, m: nat | link in open && m <= n ensures SlowLink(tree, rules, link, m) {
        SlowForLess(tree, rules, link, n, m);
      }
      var next := dir + [rest[0]];
      if rest[0] == UP {
        WalkResolves(tree, strict, Parent(dir), rest[1..], open, n - 1, o);
      } else if IsLink(tree, next) {
        var start, inner := LinkStart(tree[next], dir), tree[next].target;
        var j := WalkSplit(tree, rules, start, inner, rest[1..], n - 1);
        FollowLink(tree, rules, dir, rest[0], n);
        WalkLonger(tree, rules, start, inner, j, n - 1);
        assert next !in open;
        FollowLink(tree, rules, dir, rest[0], j);
        var target := Walk(tree, rules, start, inner, j).outcome;
        WalkResolves(tree, strict, start, inner, open + {next}, j, target);
        if target.Ok? {
          WalkResolves(tree, strict, target.path, rest[1..], open, n - 1 - j, o);
        }
      } else if !(strict && next !in tree) {
        WalkResolves(tree, strict, next, rest[1..], open, n - 1, o);
      }
    }
  }

  lemma SlowForLess(tree: Tree, rules: Rules, link: Path, n: nat, m: nat)
    requires SlowLink(tree, rules, link, n) && m <= n
    ensures SlowLink(tree, rules, link, m)
  {
    if Walk(tree, rules, Parent(link), [link[|link| - 1]], m).Done? {
      WalkLonger(tree, rules, Parent(link), [link[|link| - 1]], m, n);
    }
  }

  lemma {:induction false} WalkNeverLoops(tree: Tree, rules: Rules, dir: Path, pending: seq<string>, n: nat)
    ensures Walk(tree, rules, dir, pending, n) != Done(Loop)
    decreases n
  {
    if pending != [] && n > 0 && !(rules == Posix && (dir !in tree || !tree[dir].Dir?)) {
      var next := dir + [pending[0]];
      if pending[0] == UP {
        WalkNeverLoops(tree, rules, Parent(dir), pending[1..], n - 1);
      } else if IsLink(tree, next) {
        WalkNeverLoops(tree, rules, LinkStart(tree[next], dir), tree[next].target + pending[1..], n - 1);
      } else {
        WalkNeverLoops(tree, rules, next, pending[1..], n - 1);
      }
    }
  }

  /** Resolution is pathname resolution: it has outcome `o` exactly when the machine stops with `o`,
      and it reports a loop exactly when the machine never stops. This holds in every tree. */
  lemma ResolveIsWalk(tree: Tree, strict: bool, rest: seq<string>, o: Outcome)
    ensures o != Loop ==>
              (Resolve(tree, strict, [], rest, {}) == o <==> WalksTo(tree, RulesOf(strict), [], rest, o))
    ensures Resolve(tree, strict, [], rest, {}) == Loop <==>
              forall n: nat :: Walk(tree, RulesOf(strict), [], rest, n).Running?
  {
    var r := Resolve(tree, strict, [], rest, {});
    if WalksTo(tree, RulesOf(strict), [], rest, o) {
      var n: nat :| Walk(tree, RulesOf(strict), [], rest, n) == Done(o);
      WalkDecides(tree, strict, rest, n);
    }
    if r == Loop {
      forall n: nat ensures Walk(tree, RulesOf(strict), [], rest, n).Running? {
        WalkDecides(tree, strict, rest, n);
      }
    } else {
      ResolveEnds(tree, strict, rest);
      var n: nat :| Walk(tree, RulesOf(strict), [], rest, n) == Done(r);
      assert !Walk(tree, RulesOf(strict), [], rest, n).Running?;
    }
  }

  lemma WalkDecides(tree: Tree, strict: bool, rest: seq<string>, n: nat)
    ensures var w, r := Walk(tree, RulesOf(strict), [], rest, n), Resolve(tree, strict, [], rest, {});
            w.Done? ==> w.outcome == r && r != Loop
  {
    var w := Walk(tree, RulesOf(strict), [], rest, n);
    if w.Done? {
      WalkResolves(tree, strict, [], rest, {}, n, w.outcome);
      WalkNeverLoops(tree, RulesOf(strict), [], rest, n);
    }
  }

  lemma ResolveEnds(tree: Tree, strict: bool, rest: seq<string>)
    requires Resolve(tree, strict, [], rest, {}) != Loop
    ensures WalksTo(tree, RulesOf(strict), [], rest, Resolve(tree, strict, [], rest, {}))
  {
    var n := ResolveWalks(tree, strict, [], rest, {}, [], 0);
    assert rest + [] == rest;
  }

  /** Whatever the operating system resolves, under the rules of POSIX, both modes resolve alike. */
  lemma {:induction false} PosixAgrees(tree: Tree, dir: Path, pending: seq<string>, n: nat)
    requires Walk(tree, Posix, dir, pending, n).Done? && Walk(tree, Posix, dir, pending, n).outcome.Ok?
    ensures Walk(tree, Strict, dir, pending, n) == Walk(tree, Posix, dir, pending, n)
    ensures Walk(tree, Lenient, dir, pending, n) == Walk(tree, Posix, dir, pending, n)
    decreases n
  {
    if pending != [] {
      var next := dir + [pending[0]];
      if pending[0] == UP {
        PosixAgrees(tree, Parent(dir), pending[1..], n - 1);
      } else if IsLink(tree, next) {
        PosixAgrees(tree, LinkStart(tree[next], dir), tree[next].target + pending[1..], n - 1);
      } else {
        PosixAgrees(tree, next, pending[1..], n - 1);
      }
    }
  }

  // ----- Canonical results -----------------------------------------------------------------------

  /** No dot-dot, and no prefix is a symbolic link. */
  predicate Canonical(tree: Tree, p: Path) {
    UP !in p && forall k :: 0 <= k <= |p| ==> !IsLink(tree, p[..k])
  }

  lemma CanonicalChild(tree: Tree, dir: Path, name: string)
    requires Canonical(tree, dir) && name != UP && !IsLink(tree, dir + [name])
    ensures Canonical(tree, dir + [name])
  {
    var p := dir + [name];
    forall k | 0 <= k <= |p| ensures !IsLink(tree, p[..k]) {
      if k <= |dir| { assert p[..k] == dir[..k]; } else { assert p[..k] == p; }
    }
  }

  lemma CanonicalParent(tree: Tree, dir: Path)
    requires Canonical(tree, dir)
    ensures Canonical(tree, Parent(dir))
  {
    forall k | 0 <= k <= |Parent(dir)| ensures !IsLink(tree, Parent(dir)[..k]) {
      assert Parent(dir)[..k] == dir[..k];
    }
  }

  lemma {:induction false} ResolveIsCanonical(tree: Tree, strict: bool, dir: Path, rest: seq<string>, open: set<Path>)
    requires WellFormed(tree) && Canonical(tree, dir)
    requires strict ==> dir in tree
    ensures var o := Resolve(tree, strict, dir, rest, open);
            o.Ok? ==> Canonical(tree, o.path) && (strict ==> o.path in tree)
    decreases |Links(tree) - open|, |rest|
  {
    if rest != [] {
      var next := dir + [rest[0]];
      if rest[0] == UP {
        CanonicalParent(tree, dir);
        ResolveIsCanonical(tree, strict, Parent(dir), rest[1..], open);
      } else if IsLink(tree, next) {
        if next !in open {
          OpeningShrinks(tree, open, next);
          var start := LinkStart(tree[next], dir);
          RootIsCanonical(tree);
          ResolveIsCanonical(tree, strict, start, tree[next].target, open + {next});
          var target := Resolve(tree, strict, start, tree[next].target, open + {next});
          if target.Ok? { ResolveIsCanonical(tree, strict, target.path, rest[1..], open); }
        }
      } else if !(strict && next !in tree) {
        CanonicalChild(tree, dir, rest[0]);
        ResolveIsCanonical(tree, strict, next, rest[1..], open);
      }
    }
  }

  /** Strict resolution, where it succeeds, gives what non-strict resolution gives. */
  lemma {:induction false} StrictAgrees(tree: Tree, dir: Path, rest: seq<string>, open: set<Path>)
    requires Resolve(tree, true, dir, rest, open).Ok?
    ensures Resolve(tree, false, dir, rest, open) == Resolve(tree, true, dir, rest, open)
    decreases |Links(tree) - open|, |rest|
  {
    if rest != [] {
      var next := dir + [rest[0]];
      if rest[0] == UP {
        StrictAgrees(tree, Parent(dir), rest[1..], open);
      } else if IsLink(tree, next) {
        OpeningShrinks(tree, open, next);
        var start := LinkStart(tree[next], dir);
        StrictAgrees(tree, start, tree[next].target, open + {next});
        StrictAgrees(tree, Resolve(tree, true, start, tree[next].target, open + {next}).path, rest[1..], open);
      } else {
        StrictAgrees(tree, next, rest[1..], open);
      }
    }
  }

  /** A canonical path resolves to itself; strictly so exactly when it is in the tree. */
  lemma {:induction false} CanonicalResolves(tree: Tree, strict: bool, dir: Path, rest: seq<string>)
    requires WellFormed(tree) && Canonical(tree, dir + rest)
    requires strict ==> dir in tree
    ensures !strict ==> Resolve(tree, strict, dir, rest, {}) == Ok(dir + rest)
    ensures strict ==> (Resolve(tree, strict, dir, rest, {}).Ok? <==> dir + rest in tree)
    ensures strict && dir + rest in tree ==> Resolve(tree, strict, dir, rest, {}) == Ok(dir + rest)
    decreases |rest|
  {
    if rest == [] {
      assert dir + rest == dir;
    } else {
      var next := dir + [rest[0]];
      assert rest[0] in dir + rest;
      assert next + rest[1..] == dir + rest;
      assert (dir + rest)[..|dir| + 1] == next;
      if strict && next !in tree {
        PrefixInTree(tree, dir + rest, |dir| + 1);
      } else {
        CanonicalResolves(tree, strict, next, rest[1..]);
      }
    }
  }

  lemma {:induction false} PrefixInTree(tree: Tree, p: Path, k: nat)
    requires WellFormed(tree) && k <= |p|
    ensures p in tree ==> p[..k] in tree
    decreases |p|
  {
    if p in tree {
      if k == |p| {
        assert p[..k] == p;
      } else {
        PrefixInTree(tree, Parent(p), k);
        assert Parent(p)[..k] == p[..k];
      }
    }
  }

  lemma RootIsCanonical(tree: Tree)
    requires WellFormed(tree)
    ensures Canonical(tree, [])
  {
  }

  // ----- What a component means ------------------------------------------------------------------

  /** A directory that resolution has reached: canonical and, in the strict mode, in the tree. */
  predicate Reached(tree: Tree, strict: bool, dir: Path) {
    Canonical(tree, dir) && (strict ==> dir in tree)
  }

  lemma ReachedParent(tree: Tree, strict: bool, dir: Path)
    requires WellFormed(tree) && Reached(tree, strict, dir) && dir != []
    ensures var init, last := dir[..|dir| - 1], dir[|dir| - 1];
            && Reached(tree, strict, init) && dir == init + [last]
            && last != UP && !IsLink(tree, dir) && (strict ==> dir in tree)
  {
    CanonicalParent(tree, dir);
    assert dir[..|dir|] == dir;
  }

  lemma WalkInto(tree: Tree, strict: bool, dir: Path, rest: seq<string>, n: nat)
    requires WellFormed(tree) && Reached(tree, strict, dir) && dir != []
    ensures var init, last := dir[..|dir| - 1], dir[|dir| - 1];
            Walk(tree, RulesOf(strict), init, [last] + rest, n + 1) == Walk(tree, RulesOf(strict), dir, rest, n)
  {
    ReachedParent(tree, strict, dir);
    WalkStep(tree, RulesOf(strict), dir[..|dir| - 1], dir[|dir| - 1], rest, n);
  }

  /** The machine walks through a directory that is reached one component a step. */
  lemma {:induction false} WalkReaches(tree: Tree, strict: bool, dir: Path, rest: seq<string>, n: nat, m: nat)
    requires WellFormed(tree) && Reached(tree, strict, dir) && m == |dir| + n
    ensures Walk(tree, RulesOf(strict), [], dir + rest, m) == Walk(tree, RulesOf(strict), dir, rest, n)
    decreases |dir|
  {
    if dir == [] {
      assert dir + rest == rest;
    } else {
      var init, last := dir[..|dir| - 1], dir[|dir| - 1];
      ReachedParent(tree, strict, dir);
      ConcatAssociative(init, [last], rest);
      WalkReaches(tree, strict, init, [last] + rest, n + 1, m);
      WalkInto(tree, strict, dir, rest, n);
    }
  }

  /** Two walks of which one is some steps ahead of the other end alike. */
  lemma AheadWalksTo(
    tree: Tree, rules: Rules, dir: Path, whole: seq<string>, start: Path, pending: seq<string>, ahead: nat, o: Outcome)
    requires forall n: nat :: Walk(tree, rules, dir, whole, n + ahead) == Walk(tree, rules, start, pending, n)
    ensures WalksTo(tree, rules, dir, whole, o) <==> WalksTo(tree, rules, start, pending, o)
  {
    if n: nat :| Walk(tree, rules, dir, whole, n) == Done(o) {
      WalkLonger(tree, rules, dir, whole, n, n + ahead);
      assert Walk(tree, rules, start, pending, n) == Done(o);
    }
    if n: nat :| Walk(tree, rules, start, pending, n) == Done(o) {
      assert Walk(tree, rules, dir, whole, n + ahead) == Done(o);
    }
  }

  lemma ReachedWalksTo(tree: Tree, strict: bool, dir: Path, rest: seq<string>, o: Outcome)
    requires WellFormed(tree) && Reached(tree, strict, dir)
    ensures WalksTo(tree, RulesOf(strict), [], dir + rest, o) <==> WalksTo(tree, RulesOf(strict), dir, rest, o)
  {
    var rules, whole, ahead := RulesOf(strict), dir + rest, |dir|;
    forall n: nat ensures Walk(tree, rules, [], whole, n + ahead) == Walk(tree, rules, dir, rest, n) {
      WalkReaches(tree, strict, dir, rest, n, n + ahead);
    }
    AheadWalksTo(tree, rules, [], whole, dir, rest, ahead, o);
  }

  lemma LinkWalksTo(tree: Tree, strict: bool, dir: Path, name: string, more: seq<string>, o: Outcome)
    requires dir + [name] in tree && tree[dir + [name]].Link? && name != UP
    ensures var link := tree[dir + [name]];
            WalksTo(tree, RulesOf(strict), dir, [name] + more, o) <==>
            WalksTo(tree, RulesOf(strict), if link.absolute then [] else dir, link.target + more, o)
  {
    var link := tree[dir + [name]];
    var rules, whole, pending := RulesOf(strict), [name] + more, link.target + more;
    var start := if link.absolute then [] else dir;
    forall n: nat ensures Walk(tree, rules, dir, whole, n + 1) == Walk(tree, rules, start, pending, n) {
      WalkStep(tree, rules, dir, name, more, n);
    }
    AheadWalksTo(tree, rules, dir, whole, start, pending, 1, o);
  }

  lemma UpWalksTo(tree: Tree, strict: bool, dir: Path, name: string, more: seq<string>, o: Outcome)
    ensures WalksTo(tree, RulesOf(strict), dir + [name], [".."] + more, o) <==>
            WalksTo(tree, RulesOf(strict), dir, more, o)
    ensures WalksTo(tree, RulesOf(strict), [], [".."] + more, o) <==> WalksTo(tree, RulesOf(strict), [], more, o)
  {
    var rules, whole, child := RulesOf(strict), [".."] + more, dir + [name];
    DropLast(dir, name);
    forall n: nat ensures Walk(tree, rules, child, whole, n + 1) == Walk(tree, rules, dir, more, n) {
      WalkStep(tree, rules, child, "..", more, n);
    }
    AheadWalksTo(tree, rules, child, whole, dir, more, 1, o);
    forall n: nat ensures Walk(tree, rules, [], whole, n + 1) == Walk(tree, rules, [], more, n) {
      WalkStep(tree, rules, [], "..", more, n);
    }
    AheadWalksTo(tree, rules, [], whole, [], more, 1, o);
  }

  /** Paths that the machine walks to the same end, if to any, resolve alike, loops included. */
  lemma SameOutcome(tree: Tree, strict: bool, a: seq<string>, b: seq<string>)
    requires forall o :: WalksTo(tree, RulesOf(strict), [], a, o) <==> WalksTo(tree, RulesOf(strict), [], b, o)
    ensures Resolve(tree, strict, [], a, {}) == Resolve(tree, strict, [], b, {})
  {
    ResolveIsWalk(tree, strict, a, Resolve(tree, strict, [], a, {}));
    ResolveIsWalk(tree, strict, b, Resolve(tree, strict, [], a, {}));
    ResolveIsWalk(tree, strict, b, Resolve(tree, strict, [], b, {}));
    ResolveIsWalk(tree, strict, a, Resolve(tree, strict, [], b, {}));
  }

  /** What a link means: the rest of the path behind its target, which an absolute link starts at the
      root and a relative one in its own directory. This holds for both modes, and for loops. */
  lemma LinkMeans(tree: Tree, strict: bool, dir: Path, name: string, more: seq<string>)
    requires WellFormed(tree) && Reached(tree, strict, dir)
    requires dir + [name] in tree && tree[dir + [name]].Link?
    ensures var link := tree[dir + [name]];
            Resolve(tree, strict, [], dir + [name] + more, {}) ==
            if link.absolute then Resolve(tree, strict, [], link.target + more, {})
            else Resolve(tree, strict, [], dir + link.target + more, {})
  {
    var link := tree[dir + [name]];
    assert name != UP by { assert (dir + [name])[|dir|] == name; }
    ConcatAssociative(dir, [name], more);
    ConcatAssociative(dir, link.target, more);
    var end := if link.absolute then link.target + more else dir + (link.target + more);
    forall o
      ensures WalksTo(tree, RulesOf(strict), [], dir + ([name] + more), o) <==>
              WalksTo(tree, RulesOf(strict), [], end, o)
    {
      ReachedWalksTo(tree, strict, dir, [name] + more, o);
      LinkWalksTo(tree, strict, dir, name, more, o);
      if !link.absolute { ReachedWalksTo(tree, strict, dir, link.target + more, o); }
    }
    SameOutcome(tree, strict, dir + ([name] + more), end);
  }

  /** What dot-dot means: it takes the directory before it away, and at the root nothing. */
  lemma UpMeans(tree: Tree, strict: bool, dir: Path, name: string, more: seq<string>)
    requires WellFormed(tree) && Reached(tree, strict, dir + [name])
    ensures Resolve(tree, strict, [], dir + [name, ".."] + more, {}) == Resolve(tree, strict, [], dir + more, {})
    ensures Resolve(tree, strict, [], [".."] + more, {}) == Resolve(tree, strict, [], more, {})
  {
    ReachedParent(tree, strict, dir + [name]);
    assert dir + [name, ".."] + more == dir + [name] + ([".."] + more);
    DropLast(dir, name);
    forall o
      ensures WalksTo(tree, RulesOf(strict), [], dir + [name] + ([".."] + more), o) <==>
              WalksTo(tree, RulesOf(strict), [], dir + more, o)
      ensures WalksTo(tree, RulesOf(strict), [], [".."] + more, o) <==> WalksTo(tree, RulesOf(strict), [], more, o)
    {
      ReachedWalksTo(tree, strict, dir + [name], [".."] + more, o);
      UpWalksTo(tree, strict, dir, name, more, o);
      ReachedWalksTo(tree, strict, dir, more, o);
    }
    SameOutcome(tree, strict, dir + [name] + ([".."] + more), dir + more);
    SameOutcome(tree, strict, [".."] + more, more);
  }

  /** What a missing name means: an end to strict resolution, by the kind of what it was looked for in. */
  lemma MissingMeans(tree: Tree, dir: Path, name: string, more: seq<string>)
    requires WellFormed(tree) && Reached(tree, true, dir) && name != ".." && dir + [name] !in tree
    ensures Resolve(tree, true, [], dir + [name] + more, {}) ==
            if tree[dir] == File then NotADirectory else Missing
  {
    var o := if tree[dir] == File then NotADirectory else Missing;
    ConcatAssociative(dir, [name], more);
    WalkStep(tree, Strict, dir, name, more, 0);
    ReachedWalksTo(tree, true, dir, [name] + more, o);
    ResolveIsWalk(tree, true, dir + ([name] + more), o);
  }

  // ----- resolve_within --------------------------------------------------------------------------

  datatype RawPath = RawPath(absolute: bool, parts: seq<string>)

  function DropDots(parts: seq<string>): seq<string> {
    if parts == [] then []
    else (if parts[0] == "" || parts[0] == "." then [] else [parts[0]]) + DropDots(parts[1..])
  }

  /** Path(s): the components between slashes, save empty ones and single dots. */
  function ParsePath(s: string): RawPath {
    RawPath("/" <= s, DropDots(Split(s, '/')))
  }

  datatype Verdict = Resolved(path: Path) | PathSecurityError | FileNotFound | NotADirectoryError | SymlinkLoop

  /** The exception with which a failed resolution surfaces when nobody translates it. */
  function Raised(o: Outcome): Verdict
    requires !o.Ok?
  {
    match o
    case Missing => FileNotFound
    case NotADirectory => NotADirectoryError
    case Loop => SymlinkLoop
  }

  /** resolve_within(project_root, candidate), for an absolute project root. */
  function ResolveWithin(tree: Tree, root: seq<string>, candidate: RawPath): Verdict {
    var base := Resolve(tree, true, [], root, {});
    if base == Missing then PathSecurityError
    else if !base.Ok? then Raised(base)
    else
      var target := Resolve(tree, false, [], Joined(base.path, candidate), {});
      if !target.Ok? then Raised(target)
      else if base.path <= target.path then Resolved(target.path)
      else PathSecurityError
  }

  /** root / candidate, where an absolute candidate stands for itself */
  function Joined(root: Path, candidate: RawPath): seq<string> {
    if candidate.absolute then candidate.parts else root + candidate.parts
  }

  /** A path is accepted exactly when pathname resolution of the root ends in some directory entry
      and that of the candidate, missing components left alone, ends at the path, below the root. */
  lemma ResolveWithinAccepts(tree: Tree, root: seq<string>, candidate: RawPath, t: Path)
    ensures ResolveWithin(tree, root, candidate) == Resolved(t) <==>
            exists base :: && WalksTo(tree, Strict, [], root, Ok(base))
                           && WalksTo(tree, Lenient, [], Joined(base, candidate), Ok(t))
                           && base <= t
  {
    var base := Resolve(tree, true, [], root, {});
    if ResolveWithin(tree, root, candidate) == Resolved(t) {
      ResolveIsWalk(tree, true, root, base);
      ResolveIsWalk(tree, false, Joined(base.path, candidate), Ok(t));
    }
    if b :| && WalksTo(tree, Strict, [], root, Ok(b)) && WalksTo(tree, Lenient, [], Joined(b, candidate), Ok(t))
            && b <= t {
      ResolveIsWalk(tree, true, root, Ok(b));
      ResolveIsWalk(tree, false, Joined(b, candidate), Ok(t));
    }
  }

  /** The accepted path is canonical and extends the resolved root; resolving it again, alone or
      under the same root, gives itself. */
  lemma ResolveWithinIsCanonical(tree: Tree, root: seq<string>, candidate: RawPath)
    requires WellFormed(tree) && ResolveWithin(tree, root, candidate).Resolved?
    ensures var t := ResolveWithin(tree, root, candidate).path; var base := Resolve(tree, true, [], root, {});
            && base.Ok? && base.path <= t && base.path in tree
            && Canonical(tree, base.path) && Canonical(tree, t)
            && Resolve(tree, false, [], t, {}) == Ok(t)
            && ResolveWithin(tree, root, RawPath(true, t)) == Resolved(t)
  {
    var t := ResolveWithin(tree, root, candidate).path;
    var base := Resolve(tree, true, [], root, {}).path;
    RootIsCanonical(tree);
    ResolveIsCanonical(tree, true, [], root, {});
    ResolveIsCanonical(tree, false, [], Joined(base, candidate), {});
    assert [] + t == t;
    CanonicalResolves(tree, false, [], t);
  }

  /** What the operating system opens under the candidate's own name is the accepted path, so it
      lies below the root whatever links the name goes through. */
  lemma AcceptedIsWhatIsOpened(tree: Tree, root: seq<string>, candidate: RawPath, reached: Path)
    requires ResolveWithin(tree, root, candidate).Resolved?
    requires WalksTo(tree, Posix, [], Joined(Resolve(tree, true, [], root, {}).path, candidate), Ok(reached))
    ensures reached == ResolveWithin(tree, root, candidate).path
    ensures Resolve(tree, true, [], root, {}).path <= reached
  {
    var pending := Joined(Resolve(tree, true, [], root, {}).path, candidate);
    var n: nat :| Walk(tree, Posix, [], pending, n) == Done(Ok(reached));
    PosixAgrees(tree, [], pending, n);
    ResolveIsWalk(tree, false, pending, Ok(reached));
  }

  // ----- resolve_within_any ----------------------------------------------------------------------

  datatype Roots = Roots(resolved: seq<Path>) | RootFailure(raised: Verdict)

  /** `done` in front of what the other roots resolve to. */
  function Prepend(done: seq<Path>, rest: Roots): Roots {
    if rest.Roots? then Roots(done + rest.resolved) else rest
  }

  /** The loop over the allowed roots: missing ones are skipped, any other failure propagates. */
  function ResolveRoots(tree: Tree, roots: seq<seq<string>>): Roots {
    if roots == [] then Roots([])
    else
      var first := Resolve(tree, true, [], roots[0], {});
      if first == Missing then ResolveRoots(tree, roots[1..])
      else if !first.Ok? then RootFailure(Raised(first))
      else
        Prepend([first.path], ResolveRoots(tree, roots[1..]))
  }

  predicate UnderAny(target: Path, roots: seq<Path>) {
    exists k :: 0 <= k < |roots| && roots[k] <= target
  }

  /** resolve_within_any(candidate, allowed_roots) */
  function WithinAny(tree: Tree, candidate: RawPath, roots: seq<seq<string>>): Verdict {
    if !candidate.absolute then PathSecurityError
    else
      match ResolveRoots(tree, roots)
      case RootFailure(raised) => raised
      case Roots(resolved) =>
        var normalized := Resolve(tree, false, [], candidate.parts, {});
        if !normalized.Ok? then Raised(normalized)
        else if !UnderAny(normalized.path, resolved) then PathSecurityError
        else
          var target := Resolve(tree, true, [], candidate.parts, {});
          if !target.Ok? then Raised(target)
          else if !UnderAny(target.path, resolved) then PathSecurityError
          else Resolved(target.path)
  }

  method IsUnderAny(target: Path, roots: seq<Path>) returns (under: bool)
    ensures under <==> UnderAny(target, roots)
  {
    for i := 0 to |roots|
      invariant forall k :: 0 <= k < i ==> !(roots[k] <= target)
    {
      if roots[i] <= target {
        return true;
      }
    }
    return false;
  }

  method ResolveWithinAny(tree: Tree, candidate: RawPath, allowedRoots: seq<seq<string>>) returns (verdict: Verdict)
    ensures verdict == WithinAny(tree, candidate, allowedRoots)
  {
    if !candidate.absolute {
      return PathSecurityError;
    }
    var rootsResolved: seq<Path> := [];
    assert allowedRoots[0..] == allowedRoots;
    for i := 0 to |allowedRoots|
      invariant ResolveRoots(tree, allowedRoots) == Prepend(rootsResolved, ResolveRoots(tree, allowedRoots[i..]))
    {
      assert allowedRoots[i..][1..] == allowedRoots[i + 1..];
      var root := Resolve(tree, true, [], allowedRoots[i], {});
      if root == Missing {
        continue;
      }
      if !root.Ok? {
        return Raised(root);
      }
      PrependStep(rootsResolved, root, ResolveRoots(tree, allowedRoots[i + 1..]));
      rootsResolved := rootsResolved + [root.path];
    }
    assert Prepend(rootsResolved, Roots([])) == Roots(rootsResolved);
    var normalized := Resolve(tree, false, [], candidate.parts, {});
    if !normalized.Ok? {
      return Raised(normalized);
    }
    var under := IsUnderAny(normalized.path, rootsResolved);
    if !under {
      return PathSecurityError;
    }
    var target := Resolve(tree, true, [], candidate.parts, {});
    if !target.Ok? {
      return Raised(target);
    }
    under := IsUnderAny(target.path, rootsResolved);
    if !under {
      return PathSecurityError;
    }
    return Resolved(target.path);
  }

  lemma PrependStep(done: seq<Path>, root: Outcome, rest: Roots)
    requires root.Ok?
    ensures Prepend(done + [root.path], rest) == Prepend(done, Prepend([root.path], rest))
  {
    if rest.Roots? {
      assert done + [root.path] + rest.resolved == done + ([root.path] + rest.resolved);
    }
  }

  /** A root whose resolution fails in another way than by being missing. */
  predicate Broken(tree: Tree, root: seq<string>) {
    var o := Resolve(tree, true, [], root, {});
    o == NotADirectory || o == Loop
  }

  lemma {:induction false} ResolvedRoots(tree: Tree, roots: seq<seq<string>>)
    ensures ResolveRoots(tree, roots).RootFailure? <==> exists root :: root in roots && Broken(tree, root)
    ensures ResolveRoots(tree, roots).RootFailure? ==>
              ResolveRoots(tree, roots).raised in {NotADirectoryError, SymlinkLoop}
  {
    if roots != [] {
      ResolvedRoots(tree, roots[1..]);
      assert roots[0] in roots;
      if root :| root in roots && Broken(tree, root) {
        assert root == roots[0] || root in roots[1..];
      }
    }
  }

  lemma {:induction false} ResolvedRootsMembers(tree: Tree, roots: seq<seq<string>>, p: Path)
    requires ResolveRoots(tree, roots).Roots?
    ensures p in ResolveRoots(tree, roots).resolved <==>
              exists root :: root in roots && Resolve(tree, true, [], root, {}) == Ok(p)
  {
    if roots != [] {
      ResolvedRootsMembers(tree, roots[1..], p);
      assert roots[0] in roots;
      if root :| root in roots && Resolve(tree, true, [], root, {}) == Ok(p) {
        assert root == roots[0] || root in roots[1..];
      }
    }
  }

  /** A path is accepted exactly when no root is broken, the candidate is absolute and resolves
      strictly to it, and it lies below some root that exists. */
  lemma WithinAnyAccepts(tree: Tree, candidate: RawPath, roots: seq<seq<string>>, t: Path)
    ensures WithinAny(tree, candidate, roots) == Resolved(t) <==>
            && candidate.absolute
            && (forall root :: root in roots ==> !Broken(tree, root))
            && Resolve(tree, true, [], candidate.parts, {}) == Ok(t)
            && exists root :: root in roots && HasPrefix(Resolve(tree, true, [], root, {}), t)
  {
    ResolvedRoots(tree, roots);
    if Resolve(tree, true, [], candidate.parts, {}).Ok? {
      StrictAgrees(tree, [], candidate.parts, {});
    }
    if ResolveRoots(tree, roots).Roots? {
      UnderAnyOf(tree, roots, t);
    }
  }

  predicate HasPrefix(root: Outcome, t: Path) {
    root.Ok? && root.path <= t
  }

  lemma UnderAnyOf(tree: Tree, roots: seq<seq<string>>, t: Path)
    requires ResolveRoots(tree, roots).Roots?
    ensures UnderAny(t, ResolveRoots(tree, roots).resolved) <==>
            exists root :: root in roots && HasPrefix(Resolve(tree, true, [], root, {}), t)
  {
    var resolved := ResolveRoots(tree, roots).resolved;
    if k :| 0 <= k < |resolved| && resolved[k] <= t {
      ResolvedRootsMembers(tree, roots, resolved[k]);
      assert resolved[k] in resolved;
      var root :| root in roots && Resolve(tree, true, [], root, {}) == Ok(resolved[k]);
      assert HasPrefix(Resolve(tree, true, [], root, {}), t);
    }
    if root :| root in roots && HasPrefix(Resolve(tree, true, [], root, {}), t) {
      ResolvedRootsMembers(tree, roots, Resolve(tree, true, [], root, {}).path);
    }
  }

  /** Strict resolution never leads elsewhere than the first check looked: in a fixed tree the
      second whitelist check changes no verdict. */
  lemma SecondCheckIsRedundant(tree: Tree, candidate: RawPath, roots: seq<seq<string>>)
    requires candidate.absolute && ResolveRoots(tree, roots).Roots?
    requires Resolve(tree, false, [], candidate.parts, {}).Ok?
    requires UnderAny(Resolve(tree, false, [], candidate.parts, {}).path, ResolveRoots(tree, roots).resolved)
    ensures var target := Resolve(tree, true, [], candidate.parts, {});
            WithinAny(tree, candidate, roots) == if target.Ok? then Resolved(target.path) else Raised(target)
  {
    if Resolve(tree, true, [], candidate.parts, {}).Ok? {
      StrictAgrees(tree, [], candidate.parts, {});
    }
  }

  /** The two lists name the same roots, except for roots that do not exist. */
  predicate SameExistingRoots(tree: Tree, roots: seq<seq<string>>, others: seq<seq<string>>) {
    && (forall root :: root in roots && Resolve(tree, true, [], root, {}) != Missing ==> root in others)
    && (forall root :: root in others && Resolve(tree, true, [], root, {}) != Missing ==> root in roots)
  }

  /** Order, repetition and missing entries of the root list do not matter: the verdict is the same
      whenever no root is broken, and an accepted path is accepted alike in every case. A broken
      root is never skipped; which one is reported depends on the order. */
  lemma RootOrderIrrelevant(tree: Tree, candidate: RawPath, roots: seq<seq<string>>, others: seq<seq<string>>)
    requires SameExistingRoots(tree, roots, others)
    ensures var v, w := WithinAny(tree, candidate, roots), WithinAny(tree, candidate, others);
            v == w || (v in {NotADirectoryError, SymlinkLoop} && w in {NotADirectoryError, SymlinkLoop})
    ensures (forall root :: root in roots ==> !Broken(tree, root)) ==>
              WithinAny(tree, candidate, roots) == WithinAny(tree, candidate, others)
  {
    ResolvedRoots(tree, roots);
    ResolvedRoots(tree, others);
    forall root | root in roots && Broken(tree, root) ensures root in others {}
    forall root | root in others && Broken(tree, root) ensures root in roots {}
    if ResolveRoots(tree, roots).Roots? {
      forall t: Path
        ensures UnderAny(t, ResolveRoots(tree, roots).resolved) <==> UnderAny(t, ResolveRoots(tree, others).resolved)
      {
        UnderAnyOf(tree, roots, t);
        UnderAnyOf(tree, others, t);
      }
    }
  }
}
