/** The branch header of `git status --branch`: _parse_branch_header of tools/git.py, and what git prints. */
module BranchHeader {
  import opened Options
  import opened Sequences
  import opened Text

  datatype Head = Head(local: Option<string>, upstream: Option<string>, ahead: nat, behind: nat, detached: bool)

  const DETACHED := "HEAD (no branch)"
  const UNBORN := "No commits yet on "
  const DOTS := "..."

  // ----- The parser ------------------------------------------------------------------------------

  /** s or None */
  function NonEmpty(s: string): Option<string> {
    if s == [] then None else Some(s)
  }

  /** Position of the last `c`, or |s| when there is none. */
  function LastIndexOf(s: string, c: char): (i: nat)
    ensures i <= |s| && (i < |s| ==> s[i] == c)
    ensures i == |s| ==> c !in s
    ensures i < |s| ==> c !in s[i + 1..]
  {
    if s == [] then 0
    else if s[|s| - 1] == c then |s| - 1
    else
      assert s == s[..|s| - 1] + [s[|s| - 1]];
      var i := LastIndexOf(s[..|s| - 1], c);
      assert i < |s| - 1 ==> s[i + 1..] == s[..|s| - 1][i + 1..] + [s[|s| - 1]];
      if i == |s| - 1 then |s| else i
  }

  /** s.rstrip(c) */
  function RStripChar(s: string, c: char): string {
    if s != [] && s[|s| - 1] == c then RStripChar(s[..|s| - 1], c) else s
  }

  /** The number that the pattern `word\s+(\d+)` captures when it matches at the start of `s`. */
  function CountAt(word: string, s: string): Option<nat> {
    if !(word <= s) then None
    else
      var gap := s[|word|..];
      var digits := LeadingDigits(LStrip(gap));
      if gap == [] || !IsSpace(gap[0]) || digits == [] then None else Some(ParseNat(digits))
  }

  /** The number captured by the first match of that pattern, 0 when there is none. */
  function SearchCount(word: string, s: string): nat {
    match CountAt(word, s)
    case Some(n) => n
    case None => if s == [] then 0 else SearchCount(word, s[1..])
  }

  /** The header without its bracket, and what stands between the brackets. */
  function SplitBracket(header: string): (string, string) {
    var open := LastIndexOf(header, '[');
    if open < |header| && header[|header| - 1] == ']' then
      (Strip(header[..open]), RStripChar(header[open + 1..], ']'))
    else
      (header, "")
  }

  /** Local name and upstream, cut at a triple dot found at `dots`. */
  function CutNames(rest: string, dots: nat): (Option<string>, Option<string>)
    requires dots <= |rest| ==> dots + |DOTS| <= |rest|
  {
    if dots <= |rest| then (NonEmpty(Strip(rest[..dots])), NonEmpty(Strip(rest[dots + |DOTS|..])))
    else (NonEmpty(Strip(rest)), None)
  }

  function SplitNames(rest: string): (Option<string>, Option<string>) {
    CutNames(rest, Find(rest, DOTS, 0))
  }

  function ParseBranchHeader(header: string): Head {
    if DETACHED <= header then Head(None, None, 0, 0, true)
    else if UNBORN <= header then Head(NonEmpty(Strip(header[|UNBORN|..])), None, 0, 0, false)
    else ParseNamed(header)
  }

  function ParseNamed(header: string): Head {
    var (rest, bracket) := SplitBracket(header);
    var (local, upstream) := SplitNames(rest);
    Head(local, upstream, SearchCount("ahead", bracket), SearchCount("behind", bracket), false)
  }

  // ----- What git prints -------------------------------------------------------------------------

  datatype Tracking = NoUpstream | Gone(upstream: string) | Tracks(upstream: string, ahead: nat, behind: nat)

  datatype State = Detached | Unborn(name: string) | OnBranch(name: string, tracking: Tracking)

  /** `word n` in front of `rest`. */
  function Numbered(word: string, n: nat, rest: string): string {
    word + ([' '] + (PrintNat(n) + rest))
  }

  /** The text between the brackets. */
  function CountsText(ahead: nat, behind: nat): string {
    if behind == 0 then Numbered("ahead", ahead, "")
    else if ahead == 0 then Numbered("behind", behind, "")
    else Numbered("ahead", ahead, ", " + Numbered("behind", behind, ""))
  }

  function Bracketed(text: string): string {
    [' ', '['] + text + [']']
  }

  function PrintHeader(state: State): string {
    match state
    case Detached => "HEAD (no branch)"
    case Unborn(name) => "No commits yet on " + name
    case OnBranch(name, NoUpstream) => name
    case OnBranch(name, Gone(upstream)) => name + "..." + upstream + Bracketed("gone")
    case OnBranch(name, Tracks(upstream, ahead, behind)) =>
      name + "..." + upstream + (if ahead == 0 && behind == 0 then "" else Bracketed(CountsText(ahead, behind)))
  }

  predicate NoDoubleDot(s: string) {
    forall i :: 0 <= i < |s| - 1 ==> !(s[i] == '.' && s[i + 1] == '.')
  }

  predicate BarredInRefs(c: char) {
    c <= ' ' || c in {'~', '^', ':', '?', '*', '[', '\\', '\U{7F}'}
  }

  /** What every name that git-check-ref-format accepts satisfies: not empty, no double dot, no dot
      at the end, and none of the characters it bars. White space beyond ASCII is not barred. */
  predicate RefName(s: string) {
    && s != []
    && s[|s| - 1] != '.'
    && NoDoubleDot(s)
    && (forall i :: 0 <= i < |s| ==> !BarredInRefs(s[i]))
  }

  predicate ValidState(state: State) {
    match state
    case Detached => true
    case Unborn(name) => RefName(name)
    case OnBranch(name, NoUpstream) => RefName(name)
    case OnBranch(name, Gone(upstream)) => RefName(name) && RefName(upstream)
    case OnBranch(name, Tracks(upstream, _, _)) => RefName(name) && RefName(upstream)
  }

  /** The state as git_status reports it. */
  function Report(state: State): Head {
    match state
    case Detached => Head(None, None, 0, 0, true)
    case Unborn(name) => Head(Some(name), None, 0, 0, false)
    case OnBranch(name, NoUpstream) => Head(Some(name), None, 0, 0, false)
    case OnBranch(name, Gone(upstream)) => Head(Some(name), Some(upstream), 0, 0, false)
    case OnBranch(name, Tracks(upstream, ahead, behind)) => Head(Some(name), Some(upstream), ahead, behind, false)
  }

  /** No name of the state has white space (necessarily non-ASCII) at an edge. */
  predicate TrimmedNames(state: State) {
    match state
    case Detached => true
    case Unborn(name) => Trimmed(name)
    case OnBranch(name, NoUpstream) => Trimmed(name)
    case OnBranch(name, Gone(upstream)) => Trimmed(name) && Trimmed(upstream)
    case OnBranch(name, Tracks(upstream, _, _)) => Trimmed(name) && Trimmed(upstream)
  }

  /** Report with every name stripped. */
  function StrippedReport(state: State): Head {
    var r := Report(state);
    r.(local := if r.local.Some? then NonEmpty(Strip(r.local.value)) else None,
       upstream := if r.upstream.Some? then NonEmpty(Strip(r.upstream.value)) else None)
  }

  // ----- Counts ----------------------------------------------------------------------------------

  lemma CountAtPrinted(word: string, n: nat, rest: string)
    requires rest == [] || !IsDigit(rest[0])
    ensures CountAt(word, Numbered(word, n, rest)) == Some(n)
  {
    var text := PrintNat(n) + rest;
    DropPrefix(word, [' '] + text);
    SkipBlank(text);
    LeadingDigitsOf(PrintNat(n), rest);
    ParsePrintNat(n);
  }

  lemma SkipBlank(s: string)
    requires s != [] && IsDigit(s[0])
    ensures LStrip([' '] + s) == s
  {
    assert ([' '] + s)[1..] == s;
  }

  /** A search passes over characters with which the word does not start. */
  lemma {:induction false} SearchSkips(word: string, skipped: string, s: string)
    requires word != []
    requires word[0] !in skipped
    ensures SearchCount(word, skipped + s) == SearchCount(word, s)
  {
    if skipped == [] {
      assert skipped + s == s;
    } else {
      SearchSkips(word, skipped[1..], s);
      ConcatHead(skipped, s);
      SearchSkipsOne(word, skipped[0], skipped[1..] + s);
    }
  }

  lemma ConcatHead<T>(a: seq<T>, b: seq<T>)
    requires a != []
    ensures a + b == [a[0]] + (a[1..] + b)
  {
  }

  lemma SearchSkipsOne(word: string, c: char, s: string)
    requires word != [] && c != word[0]
    ensures SearchCount(word, [c] + s) == SearchCount(word, s)
  {
    assert !(word <= [c] + s);
    assert ([c] + s)[1..] == s;
  }

  lemma {:induction false} SearchAbsent(word: string, s: string)
    requires word != [] && word[0] !in s
    ensures SearchCount(word, s) == 0
  {
    if s != [] { SearchAbsent(word, s[1..]); }
  }

  /** A search that reaches the word reads the number behind it. */
  lemma SearchFinds(word: string, skipped: string, n: nat, rest: string)
    requires word != [] && word[0] !in skipped
    requires rest == [] || !IsDigit(rest[0])
    ensures SearchCount(word, skipped + Numbered(word, n, rest)) == n
  {
    SearchSkips(word, skipped, Numbered(word, n, rest));
    CountAtPrinted(word, n, rest);
  }

  lemma NumberedAvoids(c: char, word: string, n: nat, rest: string)
    requires c !in word && c !in rest && c != ' ' && !IsDigit(c)
    ensures c !in Numbered(word, n, rest)
  {
  }

  lemma SearchNumbered(word: string, n: nat, rest: string)
    requires word != [] && (rest == [] || !IsDigit(rest[0]))
    ensures SearchCount(word, Numbered(word, n, rest)) == n
  {
    SearchFinds(word, [], n, rest);
    assert [] + Numbered(word, n, rest) == Numbered(word, n, rest);
  }

  lemma SearchSecond(first: string, m: nat, gap: string, word: string, n: nat)
    requires word != [] && word[0] !in first && word[0] !in gap && word[0] != ' ' && !IsDigit(word[0])
    ensures SearchCount(word, Numbered(first, m, gap + Numbered(word, n, ""))) == n
  {
    NumberedAvoids(word[0], first, m, gap);
    SearchFinds(word, Numbered(first, m, gap), n, "");
    NumberedConcat(first, m, gap, Numbered(word, n, ""));
  }

  lemma NumberedConcat(word: string, n: nat, gap: string, rest: string)
    ensures Numbered(word, n, gap + rest) == Numbered(word, n, gap) + rest
  {
    assert PrintNat(n) + (gap + rest) == PrintNat(n) + gap + rest;
  }

  lemma SearchCounts(ahead: nat, behind: nat)
    requires ahead > 0 || behind > 0
    ensures SearchCount("ahead", CountsText(ahead, behind)) == ahead
    ensures SearchCount("behind", CountsText(ahead, behind)) == behind
  {
    var a, b := "ahead", "behind";
    assert a[0] == 'a' && b[0] == 'b' && 'a' !in b && 'b' !in a && 'b' !in ", ";
    if behind == 0 {
      SearchNumbered(a, ahead, "");
      NumberedAvoids('b', a, ahead, "");
      SearchAbsent(b, Numbered(a, ahead, ""));
    } else if ahead == 0 {
      SearchNumbered(b, behind, "");
      NumberedAvoids('a', b, behind, "");
      SearchAbsent(a, Numbered(b, behind, ""));
    } else {
      SearchNumbered(a, ahead, ", " + Numbered(b, behind, ""));
      SearchSecond(a, ahead, ", ", b, behind);
    }
  }

  // ----- Names -----------------------------------------------------------------------------------

  lemma RefNameAvoids(s: string, c: char)
    requires RefName(s) && BarredInRefs(c)
    ensures c !in s
  {
  }

  lemma OccursDots(s: string, i: nat)
    ensures Occurs(s, DOTS, i) <==> i + 3 <= |s| && s[i] == '.' && s[i + 1] == '.' && s[i + 2] == '.'
  {
    if i + 3 <= |s| {
      assert s[i..i + 3] == [s[i], s[i + 1], s[i + 2]];
    }
  }

  lemma NoDotsInside(name: string, rest: string, i: nat)
    requires NoDoubleDot(name) && (name == [] || name[|name| - 1] != '.')
    requires i < |name|
    ensures !Occurs(name + rest, DOTS, i)
  {
    var s := name + rest;
    OccursDots(s, i);
    assert s[i] == name[i];
    if i + 1 < |name| {
      assert s[i + 1] == name[i + 1];
    }
  }

  /** The first triple dot after a local name is the one git printed there. */
  lemma DotsAfterName(name: string, rest: string)
    requires NoDoubleDot(name) && (name == [] || name[|name| - 1] != '.')
    ensures Find(name + (DOTS + rest), DOTS, 0) == |name|
  {
    var s := name + (DOTS + rest);
    OccursDots(s, |name|);
    forall i {:trigger Occurs(s, DOTS, i)} | 0 <= i < |name| ensures !Occurs(s, DOTS, i) {
      NoDotsInside(name, DOTS + rest, i);
    }
  }

  lemma NoDotsInName(name: string)
    requires RefName(name)
    ensures Find(name, DOTS, 0) == |name| + 1
  {
    assert name + [] == name;
    forall i {:trigger Occurs(name, DOTS, i)} | 0 <= i <= |name| ensures !Occurs(name, DOTS, i) {
      if i < |name| { NoDotsInside(name, [], i); }
    }
  }

  /** strip() of `name...upstream ` only reaches the outer edges of the two names. */
  lemma StripPair(name: string, dots: string, upstream: string)
    requires dots != [] && Trimmed(dots)
    ensures Strip(name + (dots + (upstream + [' ']))) == LStrip(name) + (dots + RStrip(upstream))
  {
    var lead := LeadingSpace(name);
    var trail := TrailingSpace(upstream);
    StripPairOf(name, upstream, lead, LStrip(name), RStrip(upstream), trail, dots);
  }

  lemma LeadingSpace(s: string) returns (lead: string)
    ensures s == lead + LStrip(s) && AllSpace(lead)
  {
    lead := LStripRest(s);
  }

  lemma TrailingSpace(s: string) returns (trail: string)
    ensures s == RStrip(s) + trail && AllSpace(trail)
  {
    trail := RStripRest(s);
  }

  lemma StripPairOf(name: string, upstream: string, lead: string, l: string, u: string, trail: string, dots: string)
    requires name == lead + l && upstream == u + trail
    requires AllSpace(lead) && AllSpace(trail)
    requires dots != [] && Trimmed(dots)
    requires (l == [] || !IsSpace(l[0])) && (u == [] || !IsSpace(u[|u| - 1]))
    ensures Strip(name + (dots + (upstream + [' ']))) == l + (dots + u)
  {
    PairTrimmed(l, dots, u);
    StripUnique(lead, l + (dots + u), trail + [' ']);
    RegroupPair(lead, l, dots, u, trail, [' ']);
  }

  lemma PairTrimmed(l: string, dots: string, u: string)
    requires dots != [] && Trimmed(dots)
    requires (l == [] || !IsSpace(l[0])) && (u == [] || !IsSpace(u[|u| - 1]))
    ensures Trimmed(l + (dots + u))
  {
  }

  lemma RegroupPair(lead: string, l: string, dots: string, u: string, trail: string, end: string)
    ensures (lead + l) + (dots + ((u + trail) + end)) == lead + (l + (dots + u)) + (trail + end)
  {
  }

  /** A fixed form has a space where a name, or the dot behind it, would be. */
  lemma NotAFixedForm(name: string, rest: string, fixed: string, k: nat)
    requires ' ' !in name && (rest == [] || rest[0] == '.')
    requires k < |fixed| && fixed[k] == ' ' && '.' !in fixed[..k]
    ensures !(fixed <= name + rest)
  {
    var s := name + rest;
    assert forall i :: 0 <= i < |name| ==> s[i] in name;
    assert forall i :: 0 <= i < k ==> fixed[i] in fixed[..k];
    assert rest != [] ==> s[|name|] == '.';
  }

  lemma NotFixed(name: string, rest: string)
    requires RefName(name) && (rest == [] || rest[0] == '.')
    ensures !(DETACHED <= name + rest) && !(UNBORN <= name + rest)
  {
    RefNameAvoids(name, ' ');
    NotAFixedForm(name, rest, DETACHED, 4);
    NotAFixedForm(name, rest, UNBORN, 2);
  }

  lemma {:induction false} LastIndexAfter(head: string, c: char, tail: string)
    requires c !in tail
    ensures LastIndexOf(head + ([c] + tail), c) == |head|
  {
    var s := head + ([c] + tail);
    if tail == [] {
      assert s[|s| - 1] == c;
    } else {
      assert s[..|s| - 1] == head + ([c] + tail[..|tail| - 1]);
      LastIndexAfter(head, c, tail[..|tail| - 1]);
    }
  }

  lemma SplitPair(name: string, upstream: string)
    requires NoDoubleDot(name) && (name == [] || name[|name| - 1] != '.')
    ensures SplitNames(name + (DOTS + upstream)) == (NonEmpty(Strip(name)), NonEmpty(Strip(upstream)))
  {
    DotsAfterName(name, upstream);
    CutPair(name, upstream);
  }

  lemma CutPair(name: string, upstream: string)
    ensures CutNames(name + (DOTS + upstream), |name|) == (NonEmpty(Strip(name)), NonEmpty(Strip(upstream)))
  {
    PairParts(name, DOTS, upstream);
  }

  lemma PairParts<T>(a: seq<T>, dots: seq<T>, b: seq<T>)
    ensures (a + (dots + b))[..|a|] == a && (a + (dots + b))[|a| + |dots|..] == b
  {
  }

  lemma RStripCharOnce(s: string, c: char)
    requires s == [] || s[|s| - 1] != c
    ensures RStripChar(s + [c], c) == s
  {
    assert (s + [c])[..|s|] == s;
  }

  /** A header with a bracket is cut in front of it, and the names are read without it. */
  lemma CutBracket(names: string, bracket: string)
    requires '[' !in bracket && bracket != [] && bracket[|bracket| - 1] != ']'
    ensures SplitBracket(names + (['['] + (bracket + [']']))) == (Strip(names), bracket)
  {
    LastIndexAfter(names, '[', bracket + [']']);
    PairParts(names, ['['], bracket + [']']);
    RStripCharOnce(bracket, ']');
    LastElement(names, ['['], bracket, ']');
  }

  lemma LastElement<T>(a: seq<T>, b: seq<T>, c: seq<T>, x: T)
    ensures var s := a + (b + (c + [x])); |a| < |s| && s[|s| - 1] == x
  {
  }

  lemma NamesWithBracket(name: string, upstream: string, bracket: string)
    requires RefName(name) && RefName(upstream)
    requires '[' !in bracket && bracket != [] && bracket[|bracket| - 1] != ']'
    ensures ParseBranchHeader(name + DOTS + upstream + Bracketed(bracket)) ==
            Head(NonEmpty(Strip(name)), NonEmpty(Strip(upstream)),
                 SearchCount("ahead", bracket), SearchCount("behind", bracket), false)
  {
    GroupByName(name, DOTS, upstream, bracket);
    NotFixed(name, DOTS + (upstream + Bracketed(bracket)));
    NamedWithBracket(name, upstream, bracket);
  }

  lemma NamedWithBracket(name: string, upstream: string, bracket: string)
    requires RefName(name)
    requires '[' !in bracket && bracket != [] && bracket[|bracket| - 1] != ']'
    ensures ParseNamed((name + (DOTS + (upstream + [' ']))) + (['['] + (bracket + [']']))) ==
            Head(NonEmpty(Strip(name)), NonEmpty(Strip(upstream)),
                 SearchCount("ahead", bracket), SearchCount("behind", bracket), false)
  {
    var names := name + (DOTS + (upstream + [' ']));
    CutBracket(names, bracket);
    SplitStripped(name, upstream);
  }

  lemma SplitStripped(name: string, upstream: string)
    requires RefName(name)
    ensures SplitNames(Strip(name + (DOTS + (upstream + [' '])))) == (NonEmpty(Strip(name)), NonEmpty(Strip(upstream)))
  {
    StripPair(name, DOTS, upstream);
    var lead := LeadingSpace(name);
    SuffixIsDotless(lead, LStrip(name));
    SplitPair(LStrip(name), RStrip(upstream));
    StripLStrip(name);
    StripRStrip(upstream);
  }

  lemma SuffixIsDotless(lead: string, s: string)
    requires RefName(lead + s)
    ensures NoDoubleDot(s) && (s == [] || s[|s| - 1] != '.')
  {
    var name := lead + s;
    assert forall i :: 0 <= i < |s| ==> s[i] == name[|lead| + i];
  }

  lemma GroupByName(name: string, dots: string, upstream: string, bracket: string)
    ensures name + dots + upstream + Bracketed(bracket) == name + (dots + (upstream + Bracketed(bracket)))
    ensures name + dots + upstream + Bracketed(bracket) ==
            (name + (dots + (upstream + [' ']))) + (['['] + (bracket + [']']))
  {
  }

  lemma NamesWithoutBracket(name: string, upstream: string)
    requires RefName(name) && RefName(upstream)
    ensures ParseBranchHeader(name + DOTS + upstream) ==
            Head(NonEmpty(Strip(name)), NonEmpty(Strip(upstream)), 0, 0, false)
  {
    ConcatAssociative(name, DOTS, upstream);
    NotFixed(name, DOTS + upstream);
    RefNameAvoids(name, '[');
    RefNameAvoids(upstream, '[');
    SplitPair(name, upstream);
    NoBracket(name + DOTS + upstream);
  }

  lemma NameAlone(name: string)
    requires RefName(name)
    ensures ParseBranchHeader(name) == Head(NonEmpty(Strip(name)), None, 0, 0, false)
  {
    assert name + [] == name;
    NotFixed(name, []);
    RefNameAvoids(name, '[');
    NoBracket(name);
    NoDotsInName(name);
  }

  lemma UnbornName(name: string)
    ensures ParseBranchHeader(UNBORN + name) == Head(NonEmpty(Strip(name)), None, 0, 0, false)
  {
    assert (UNBORN + name)[0] == UNBORN[0];
    DropPrefix(UNBORN, name);
  }

  lemma NoBracket(header: string)
    requires '[' !in header
    ensures SplitBracket(header) == (header, "")
  {
  }

  // ----- Round trip ------------------------------------------------------------------------------

  /** Parsing what git printed gives the state back, its names stripped. */
  lemma {:induction false} ParsePrinted(state: State)
    requires ValidState(state)
    ensures ParseBranchHeader(PrintHeader(state)) == StrippedReport(state)
  {
    match state
    case Detached =>
    case Unborn(name) =>
      UnbornName(name);
    case OnBranch(name, NoUpstream) =>
      NameAlone(name);
    case OnBranch(name, Gone(upstream)) =>
      NamesWithBracket(name, upstream, "gone");
      SearchAbsent("ahead", "gone");
      SearchAbsent("behind", "gone");
    case OnBranch(name, Tracks(upstream, ahead, behind)) =>
      NamesWithCounts(name, upstream, ahead, behind);
  }

  lemma NamesWithCounts(name: string, upstream: string, ahead: nat, behind: nat)
    requires RefName(name) && RefName(upstream)
    ensures ParseBranchHeader(PrintHeader(OnBranch(name, Tracks(upstream, ahead, behind)))) ==
            Head(NonEmpty(Strip(name)), NonEmpty(Strip(upstream)), ahead, behind, false)
  {
    if ahead == 0 && behind == 0 {
      NamesWithoutBracket(name, upstream);
      assert name + DOTS + upstream + "" == name + DOTS + upstream;
    } else {
      CountsTextShape(ahead, behind);
      NamesWithBracket(name, upstream, CountsText(ahead, behind));
      SearchCounts(ahead, behind);
    }
  }

  lemma CountsTextShape(ahead: nat, behind: nat)
    ensures var text := CountsText(ahead, behind);
            '[' !in text && text != [] && text[|text| - 1] != ']'
  {
  }

  /** The header round trip holds exactly when no name has white space at an edge. */
  lemma {:induction false} HeaderRoundTrip(state: State)
    requires ValidState(state)
    ensures ParseBranchHeader(PrintHeader(state)) == Report(state) <==> TrimmedNames(state)
  {
    ParsePrinted(state);
    match state
    case Detached =>
    case Unborn(name) => StripFixpoint(name);
    case OnBranch(name, NoUpstream) => StripFixpoint(name);
    case OnBranch(name, Gone(upstream)) => StripFixpoint(name); StripFixpoint(upstream);
    case OnBranch(name, Tracks(upstream, _, _)) => StripFixpoint(name); StripFixpoint(upstream);
  }

  /** Such names exist: git accepts a branch named NO-BREAK SPACE, x, and the parser loses the space. */
  lemma EdgeSpaceIsLost() returns (state: State)
    ensures ValidState(state) && ParseBranchHeader(PrintHeader(state)) != Report(state)
  {
    state := OnBranch(['\U{A0}', 'x'], NoUpstream);
    HeaderRoundTrip(state);
  }

  /** On a branch without commits git prints the upstream too; the parser then takes the whole rest
      for the local name, whatever the names are. */
  lemma UnbornWithUpstreamMisread(name: string, rest: string)
    requires RefName(name)
    ensures var head := ParseBranchHeader(UNBORN + (name + (DOTS + rest)));
            head.upstream == None && head.local != Some(name)
  {
    var s := name + (DOTS + rest);
    UnbornName(s);
    var lead, trail := StripTrims(s);
    if Strip(s) == name {
      DotsSurviveStrip(lead, name, trail, rest);
    }
  }

  lemma DotsSurviveStrip(lead: string, body: string, trail: string, rest: string)
    requires AllSpace(lead) && AllSpace(trail) && RefName(body)
    ensures body + (DOTS + rest) != lead + body + trail
  {
    var s, t := body + (DOTS + rest), lead + body + trail;
    assert s[|body|] == '.' && s[|body| + 1] == '.';
    if |lead| <= |body| {
      assert forall i :: 0 <= i < |body| ==> t[|lead| + i] == body[i];
      assert forall i :: 0 <= i < |trail| ==> t[|lead| + |body| + i] == trail[i];
    } else {
      assert t[|body|] == lead[|body|];
    }
  }
}
