/** Command validation and execution: security/commands.py and the argv building of tools/execution.py. */
module CommandCheck {
  import opened Shlex
  import opened Text

  // ----- Deny list -------------------------------------------------------------------------------

  const DANGER_PATHS: set<string> :=
    {"/", "~", "$HOME", "/home", "/etc", "/usr", "/var", "/boot", "/root", "/sys", "/proc", "/dev",
     "/lib", "/lib64", "/sbin", "/bin", "/opt"}

  const DANGER_PATH_PREFIXES: set<string> :=
    {"/dev/", "/etc/", "/boot/", "/usr/", "/var/", "/root/", "/sys/", "/proc/", "/lib/", "/lib64/",
     "/sbin/", "/bin/", "/opt/"}

  function RStripSlashes(s: string): string {
    if s != [] && s[|s| - 1] == '/' then RStripSlashes(s[..|s| - 1]) else s
  }

  predicate IsDangerPath(arg: string) {
    arg in DANGER_PATHS || (RStripSlashes(arg) in DANGER_PATHS && RStripSlashes(arg) != "")
  }

  /** Short flags in one word, with one of the letters among them. */
  predicate IsCombinedFlag(arg: string, letters: set<char>) {
    "-" <= arg && !("--" <= arg) && |arg| >= 2 && exists c | c in letters :: c in arg[1..]
  }

  predicate IsRecursiveFlag(arg: string, letters: set<char>) {
    || arg == "--recursive"
    || (exists c | c in letters :: arg == ['-', c])
    || IsCombinedFlag(arg, letters)
  }

  predicate HasRecursiveFlag(args: seq<string>, letters: set<char>) {
    exists arg | arg in args :: IsRecursiveFlag(arg, letters)
  }

  predicate RmDenied(argv: seq<string>) {
    && argv != [] && argv[0] == "rm"
    && ("--no-preserve-root" in argv
        || (HasRecursiveFlag(argv[1..], {'r', 'R'}) && exists arg | arg in argv[1..] :: IsDangerPath(arg)))
  }

  predicate ChownChmodDenied(argv: seq<string>) {
    && argv != [] && argv[0] in {"chown", "chmod"}
    && HasRecursiveFlag(argv[1..], {'R'}) && exists arg | arg in argv[1..] :: IsDangerPath(arg)
  }

  predicate IsDangerousOf(arg: string) {
    && "of=" <= arg
    && (arg[3..] == "/" || exists prefix | prefix in DANGER_PATH_PREFIXES :: prefix <= arg[3..])
  }

  predicate DdDenied(argv: seq<string>) {
    argv != [] && argv[0] == "dd" && exists arg | arg in argv[1..] :: IsDangerousOf(arg)
  }

  predicate MvDenied(argv: seq<string>) {
    && argv != [] && argv[0] == "mv"
    && exists arg | arg in argv[1..] :: !("-" <= arg) && (IsDangerPath(arg) || arg == "/dev/null")
  }

  predicate KillInitDenied(argv: seq<string>) {
    argv != [] && argv[0] == "kill" && "1" in argv[1..]
  }

  predicate MkfsDenied(argv: seq<string>) {
    argv != [] && "mkfs" <= argv[0] && exists arg | arg in argv[1..] :: "/dev/" <= arg
  }

  /** _check_deny_tokenize */
  predicate TokensDenied(argv: seq<string>) {
    || RmDenied(argv) || ChownChmodDenied(argv) || DdDenied(argv)
    || MvDenied(argv) || KillInitDenied(argv) || MkfsDenied(argv)
  }

  /** The same program with the same arguments, in any order and number. */
  ghost predicate SameArguments(argv: seq<string>, other: seq<string>) {
    && argv != [] && other != [] && argv[0] == other[0]
    && forall arg :: arg in argv[1..] <==> arg in other[1..]
  }

  /** The deny list looks at the program and the set of its arguments: neither the order nor the
      number of flags and paths gets a command past it. */
  lemma DenyIgnoresOrder(argv: seq<string>, other: seq<string>)
    requires SameArguments(argv, other)
    ensures TokensDenied(argv) <==> TokensDenied(other)
  {
    assert "--no-preserve-root" in argv <==> argv[0] == "--no-preserve-root" || "--no-preserve-root" in argv[1..];
    assert "--no-preserve-root" in other <==> other[0] == "--no-preserve-root" || "--no-preserve-root" in other[1..];
  }

  // ----- check_deny_list, check_command, _run_subprocess -----------------------------------------

  datatype Check = Passed | EmptyCommand | Unparseable | DeniedTokens | DeniedPattern | NoWhitelist | NotWhitelisted

  /** check_deny_list; `denyPattern` says whether one of the fixed regular expressions matches. */
  function CheckDenyList(denyPattern: string -> bool, command: string): Check {
    var stripped := Strip(command);
    if stripped == [] then EmptyCommand
    else
      match Split(stripped)
      case Argv(argv) =>
        if TokensDenied(argv) then DeniedTokens
        else if denyPattern(stripped) then DeniedPattern
        else Passed
      case _ => Unparseable
  }

  /** check_command; a whitelist pattern is the predicate of the texts that it matches in full. */
  function CheckCommand(denyPattern: string -> bool, whitelist: seq<string -> bool>, command: string): Check {
    var denied := CheckDenyList(denyPattern, command);
    if denied != Passed then denied
    else if whitelist == [] then NoWhitelist
    else if exists k :: 0 <= k < |whitelist| && whitelist[k](Strip(command)) then Passed
    else NotWhitelisted
  }

  datatype Execution = Executed(argv: seq<string>) | Rejected(check: Check) | ExecutableNotFound

  /** The argv of _run_subprocess: tokens of the command as given, the program resolved by `which`
      (empty when it finds nothing). */
  function RunSubprocess(which: string -> string, command: string): Execution {
    match Split(command)
    case Argv(argv) =>
      if argv == [] then Rejected(EmptyCommand)
      else if which(argv[0]) == "" then ExecutableNotFound
      else Executed([which(argv[0])] + argv[1..])
    case _ => Rejected(Unparseable)
  }

  /** run_command after its permission and timeout checks. */
  function RunCommand(
    denyPattern: string -> bool, whitelist: seq<string -> bool>, which: string -> string, command: string): Execution
  {
    var check := CheckCommand(denyPattern, whitelist, command);
    if check != Passed then Rejected(check) else RunSubprocess(which, command)
  }

  // ----- What white space the two tokenizations disagree on --------------------------------------

  /** White space for strip() that is an ordinary character for shlex. */
  predicate IsExotic(c: char) {
    IsSpace(c) && !IsShlexSpace(c)
  }

  function ExoticOf(c: char): nat {
    if IsExotic(c) then 1 else 0
  }

  function ExoticIn(s: string): nat {
    if s == [] then 0 else ExoticIn(s[..|s| - 1]) + ExoticOf(s[|s| - 1])
  }

  function ExoticInAll(argv: seq<string>): nat {
    if argv == [] then 0 else ExoticInAll(argv[..|argv| - 1]) + ExoticIn(argv[|argv| - 1])
  }

  lemma {:induction false} ExoticConcat(a: string, b: string)
    ensures ExoticIn(a + b) == ExoticIn(a) + ExoticIn(b)
  {
    if b == [] {
      assert a + b == a;
    } else {
      assert (a + b)[..|a + b| - 1] == a + b[..|b| - 1];
      ExoticConcat(a, b[..|b| - 1]);
    }
  }

  lemma ExoticAppend(token: string, c: char)
    ensures ExoticIn(token + [c]) == ExoticIn(token) + ExoticOf(c)
  {
    assert (token + [c])[..|token|] == token;
  }

  lemma ExoticPush(argv: seq<string>, token: string)
    ensures ExoticInAll(argv + [token]) == ExoticInAll(argv) + ExoticIn(token)
  {
    assert (argv + [token])[..|argv|] == argv;
  }

  /** How much exotic white space the tokenizer holds, in finished words and in the current one. */
  function ExoticHeld(s: Lexer): nat {
    ExoticInAll(s.argv) + ExoticIn(s.token)
  }

  lemma ExoticStep(s: Lexer, c: char)
    requires Reachable(s)
    ensures ExoticHeld(Feed(s, c)) == ExoticHeld(s) + ExoticOf(c)
  {
    SpecialsNotSpace();
    match s.mode
    case Blank => ExoticBetweenWords(s, c);
    case Word => ExoticInWord(s, c);
    case Quoted(_) => ExoticAppend(s.token, c);
    case Escaped(_) => ExoticEscaped(s, c);
  }

  lemma ExoticBetweenWords(s: Lexer, c: char)
    requires Reachable(s) && s.mode.Blank?
    ensures ExoticHeld(Feed(s, c)) == ExoticHeld(s) + ExoticOf(c)
  {
    SpecialsNotSpace();
    ExoticAppend([], c);
    assert [] + [c] == [c];
  }

  lemma ExoticInWord(s: Lexer, c: char)
    requires s.mode.Word?
    ensures ExoticHeld(Feed(s, c)) == ExoticHeld(s) + ExoticOf(c)
  {
    SpecialsNotSpace();
    ExoticAppend(s.token, c);
    ExoticPush(s.argv, s.token);
  }

  lemma ExoticEscaped(s: Lexer, c: char)
    requires s.mode.Escaped?
    ensures ExoticHeld(Feed(s, c)) == ExoticHeld(s) + ExoticOf(c)
  {
    ExoticAppend(s.token, c);
    ExoticAppend(s.token, BACKSLASH);
    ExoticAppend(s.token + [BACKSLASH], c);
    assert s.token + [BACKSLASH] + [c] == s.token + [BACKSLASH, c];
    SpecialsNotSpace();
  }

  /** Exotic white space is never dropped: the tokens hold as much of it as the text. */
  lemma {:induction false} ExoticKept(text: string)
    ensures ExoticHeld(FeedAll(START, text)) == ExoticIn(text)
    ensures Split(text).Argv? ==> ExoticInAll(Split(text).argv) == ExoticIn(text)
  {
    if text != [] {
      ExoticKept(text[..|text| - 1]);
      FeedReachable(START, text[..|text| - 1]);
      ExoticStep(FeedAll(START, text[..|text| - 1]), text[|text| - 1]);
    }
    FeedReachable(START, text);
    var s := FeedAll(START, text);
    assert (s.argv + [s.token])[..|s.argv|] == s.argv;
  }

  lemma {:induction false} ExoticCounts(spaces: string)
    requires AllSpace(spaces)
    ensures ExoticIn(spaces) == 0 <==> AllShlexSpace(spaces)
  {
    if spaces != [] {
      ExoticCounts(spaces[..|spaces| - 1]);
      assert forall i :: 0 <= i < |spaces| - 1 ==> spaces[..|spaces| - 1][i] == spaces[i];
    }
  }

  /** Everything that strip() takes off is space, tab, CR or LF. */
  predicate PlainEdges(command: string) {
    AllShlexSpace(StripLead(command)) && AllShlexSpace(StripTrail(command))
  }

  /** What is checked is what is run, exactly when the edges are plain: for an accepted command, the
      argv built from the command as given equals the argv that was checked, on the stripped one, if
      and only if strip() removed nothing but space, tab, CR and LF. The argv is then not empty. */
  lemma CheckedIsRun(denyPattern: string -> bool, command: string)
    requires CheckDenyList(denyPattern, command) == Passed
    ensures Split(Strip(command)).Argv? && Split(Strip(command)).argv != []
    ensures Split(command) == Split(Strip(command)) <==> PlainEdges(command)
  {
    var lead, trail := StripTrims(command);
    SomeToken(Strip(command));
    EdgesDecide(lead, Strip(command), trail);
  }

  /** White space around a text that tokenizes is ignored exactly when none of it is exotic. */
  lemma EdgesDecide(lead: string, text: string, trail: string)
    requires AllSpace(lead) && AllSpace(trail) && Split(text).Argv?
    ensures Split(lead + text + trail) == Split(text) <==> AllShlexSpace(lead) && AllShlexSpace(trail)
  {
    if AllShlexSpace(lead) && AllShlexSpace(trail) {
      SpacesAroundIgnored(lead, text, trail);
    } else {
      ExoticKept(lead + text + trail);
      ExoticKept(text);
      ExoticConcat(lead + text, trail);
      ExoticConcat(lead, text);
      ExoticCounts(lead);
      ExoticCounts(trail);
    }
  }

  /** Such commands exist: a vertical tab in front is stripped before the check and run as part of
      the program name. */
  lemma ExoticEdgeDiffers() returns (command: string)
    ensures CheckDenyList(_ => false, command) == Passed && !PlainEdges(command)
    ensures Split(command) != Split(Strip(command))
  {
    var edge, body := ['\U{0B}'], ['l', 's'];
    command := edge + body;
    EdgeStripped(edge[0], body);
    assert !IsShlexSpace(StripLead(command)[0]);
    SplitPlainWord(body);
    PlainWordNotDenied(body);
    CheckedIsRun(_ => false, command);
  }

  lemma EdgeStripped(edge: char, body: string)
    requires IsSpace(edge) && body != [] && Trimmed(body)
    ensures Strip([edge] + body) == body && StripLead([edge] + body) == [edge]
  {
    var s := [edge] + body;
    assert s[1..] == body;
    assert LStrip(s) == LStrip(body) == body;
    assert RStrip(body) == body;
  }

  lemma PlainWordNotDenied(word: string)
    requires word == ['l', 's']
    ensures !TokensDenied([word])
  {
    var argv := [word];
    assert word[1] == 's' && "rm"[1] == 'm' && "dd"[1] == 'd' && "mv"[1] == 'v';
    assert |"mkfs"| > 2 && |"kill"| > 2 && |"chown"| > 2 && |"chmod"| > 2;
  }

  lemma SplitPlainWord(word: string)
    requires word == ['l', 's']
    ensures Split(word) == Argv([word])
  {
    assert word[..1] == ['l'] && ['l'][..0] == [];
    assert FeedAll(START, ['l']) == Lexer(Word, [], ['l'], false);
    assert ['l'] + ['s'] == word;
  }

  // ----- What runs when the edges are not plain --------------------------------------------------

  predicate AllExotic(s: string) {
    forall i :: 0 <= i < |s| ==> IsExotic(s[i])
  }

  /** The word with exotic white space behind it, or nothing. */
  predicate Grown(word: string, from: string) {
    from <= word && AllExotic(word[|from|..])
  }

  /** The argv with its last word grown, and with words of exotic white space behind it. */
  predicate GrownArgv(words: seq<string>, argv: seq<string>) {
    && argv != [] && |words| >= |argv|
    && (forall i :: 0 <= i < |argv| ==> Grown(words[i], argv[i]))
    && forall i :: |argv| <= i < |words| ==> words[i] != [] && AllExotic(words[i])
  }

  lemma GrownSelf(argv: seq<string>)
    requires argv != []
    ensures GrownArgv(argv, argv)
  {
  }

  lemma GrownAgain(word: string, from: string, c: char)
    requires Grown(word, from) && IsExotic(c)
    ensures Grown(word + [c], from)
  {
    var end := word[|from|..];
    assert (word + [c])[|from|..] == end + [c];
  }

  lemma GrowLast(words: seq<string>, argv: seq<string>, c: char)
    requires GrownArgv(words, argv) && IsExotic(c)
    ensures var n := |words| - 1; GrownArgv(words[..n] + [words[n] + [c]], argv)
  {
    var n := |words| - 1;
    if n < |argv| { GrownAgain(words[n], argv[n], c); }
  }

  lemma GrowByWord(words: seq<string>, argv: seq<string>, c: char)
    requires GrownArgv(words, argv) && IsExotic(c)
    ensures GrownArgv(words + [[c]], argv)
  {
  }

  /** White space behind a text makes its words grow that way. */
  lemma {:induction false} TrailGrows(s: Lexer, trail: string, argv: seq<string>)
    requires AllSpace(trail) && Reachable(s) && BetweenPieces(s.mode) && GrownArgv(Finish(s).argv, argv)
    ensures var t := FeedAll(s, trail);
            Reachable(t) && BetweenPieces(t.mode) && GrownArgv(Finish(t).argv, argv)
  {
    if trail != [] {
      var n := |trail| - 1;
      var t, c := FeedAll(s, trail[..n]), trail[n];
      TrailGrows(s, trail[..n], argv);
      assert IsSpace(c);
      SpecialsNotSpace();
      if IsShlexSpace(c) {
      } else if t.mode.Blank? {
        GrowByWord(Finish(t).argv, argv, c);
      } else {
        GrowLast(Finish(t).argv, argv, c);
        assert (t.argv + [t.token])[..|t.argv|] == t.argv;
      }
    }
  }

  /** The first word, or what there is of it, starts with the character. */
  predicate FirstStartsWith(s: Lexer, c: char) {
    if s.argv == [] then !s.mode.Blank? && s.token != [] && s.token[0] == c else s.argv[0] != [] && s.argv[0][0] == c
  }

  lemma {:induction false} FirstStays(s: Lexer, text: string, c: char)
    requires FirstStartsWith(s, c)
    ensures FirstStartsWith(FeedAll(s, text), c)
  {
    if text != [] { FirstStays(s, text[..|text| - 1], c); }
  }

  /** Exotic white space in front is the start of the program's name. */
  lemma LeadStartsProgram(lead: string, rest: string)
    requires AllSpace(lead) && !AllShlexSpace(lead) && Split(lead + rest).Argv?
    ensures var argv := Split(lead + rest).argv; argv != [] && argv[0] != [] && IsExotic(argv[0][0])
  {
    var i := OtherFound(lead);
    var start, c, after := lead[..i], lead[i], lead[i + 1..] + rest;
    StartsExotic(start, c);
    AroundElement(lead, i, rest);
    FeedConcat(START, start + [c], after);
    FirstToken(FeedAll(START, start + [c]), after, c);
  }

  lemma AroundElement<T>(s: seq<T>, i: nat, rest: seq<T>)
    requires i < |s|
    ensures s + rest == s[..i] + [s[i]] + (s[i + 1..] + rest)
  {
  }

  lemma FirstToken(s: Lexer, after: string, c: char)
    requires FirstStartsWith(s, c) && Finish(FeedAll(s, after)).Argv?
    ensures var argv := Finish(FeedAll(s, after)).argv; argv != [] && argv[0] != [] && argv[0][0] == c
  {
    FirstStays(s, after, c);
  }

  lemma StartsExotic(spaces: string, c: char)
    requires AllShlexSpace(spaces) && IsExotic(c)
    ensures FirstStartsWith(FeedAll(START, spaces + [c]), c)
  {
    FeedSpaces(START, spaces);
    FeedConcat(START, spaces, [c]);
    FeedOne(START, c);
    SpecialsNotSpace();
  }

  lemma FeedOne(s: Lexer, c: char)
    ensures FeedAll(s, [c]) == Feed(s, c)
  {
    assert [c][..0] == [];
  }

  // What the deny rules look for has no exotic white space in it.

  /** Every character lies in ASCII, from the exclamation mark on. */
  predicate Printable(s: string) {
    forall i :: 0 <= i < |s| ==> '!' <= s[i] <= '~'
  }

  lemma GrownAt(word: string, from: string, i: nat)
    requires Grown(word, from) && |from| <= i < |word|
    ensures IsExotic(word[i])
  {
    assert word[|from|..][i - |from|] == word[i];
  }

  lemma GrownPrefix(pattern: string, word: string, from: string)
    requires Grown(word, from) && Printable(pattern) && pattern <= word
    ensures pattern <= from && (word == pattern ==> from == pattern)
  {
    if |pattern| > |from| { GrownAt(word, from, |from|); }
  }

  lemma GrownPrintable(word: string, from: string)
    requires Grown(word, from) && Printable(word)
    ensures word == from
  {
    GrownPrefix(word, word, from);
  }

  lemma {:induction false} SlashesPrintable(arg: string)
    requires Printable(RStripSlashes(arg))
    ensures Printable(arg)
  {
    if arg != [] && arg[|arg| - 1] == '/' { SlashesPrintable(arg[..|arg| - 1]); }
  }

  lemma DangerIsPrintable(arg: string)
    requires IsDangerPath(arg)
    ensures Printable(arg)
  {
    if arg !in DANGER_PATHS { SlashesPrintable(arg); }
  }

  lemma GrownDanger(word: string, from: string)
    requires Grown(word, from) && IsDangerPath(word)
    ensures word == from
  {
    DangerIsPrintable(word);
    GrownPrintable(word, from);
  }

  lemma GrownRecursive(word: string, from: string, letters: set<char>)
    requires Grown(word, from) && letters <= {'r', 'R'} && IsRecursiveFlag(word, letters)
    ensures IsRecursiveFlag(from, letters)
  {
    if word == "--recursive" {
      GrownPrintable(word, from);
    } else if IsCombinedFlag(word, letters) {
      GrownCombined(word, from, letters);
    } else {
      var c :| c in letters && word == ['-', c];
      assert c == 'r' || c == 'R';
      GrownPrintable(word, from);
    }
  }

  lemma GrownCombined(word: string, from: string, letters: set<char>)
    requires Grown(word, from) && letters <= {'r', 'R'} && IsCombinedFlag(word, letters)
    ensures IsCombinedFlag(from, letters)
  {
    var c :| c in letters && c in word[1..];
    assert c == 'r' || c == 'R';
    var k :| 0 <= k < |word[1..]| && word[1..][k] == c;
    LetterBefore(word, from, k + 1);
    LetterBefore(word, from, 0);
    assert from[1..][k] == c;
  }

  lemma LetterBefore(word: string, from: string, i: nat)
    requires Grown(word, from) && i < |word| && '!' <= word[i] <= '~'
    ensures i < |from| && from[i] == word[i]
  {
    if i >= |from| { GrownAt(word, from, i); }
  }

  lemma GrownOf(word: string, from: string)
    requires Grown(word, from) && IsDangerousOf(word)
    ensures IsDangerousOf(from)
  {
    GrownPrefix("of=", word, from);
    GrownTarget(word, from);
    if word[3..] == "/" {
      GrownPrefix("/", word[3..], from[3..]);
    } else {
      var prefix :| prefix in DANGER_PATH_PREFIXES && prefix <= word[3..];
      PrefixIsPrintable(prefix);
      GrownPrefix(prefix, word[3..], from[3..]);
    }
  }

  lemma GrownTarget(word: string, from: string)
    requires Grown(word, from) && |from| >= 3
    ensures Grown(word[3..], from[3..])
  {
    assert word[3..][|from| - 3..] == word[|from|..];
  }

  lemma PrefixIsPrintable(prefix: string)
    requires prefix in DANGER_PATH_PREFIXES
    ensures Printable(prefix)
  {
  }

  /** Every argument has grown from one of those checked, or from nothing. */
  lemma ArgumentOrigin(words: seq<string>, argv: seq<string>, arg: string) returns (from: string)
    requires GrownArgv(words, argv) && arg in words[1..]
    ensures Grown(arg, from) && (from == "" || from in argv[1..])
  {
    var i :| 1 <= i < |words| && words[i] == arg;
    if i < |argv| {
      from := argv[i];
      assert argv[1..][i - 1] == from;
    } else {
      from := "";
      assert arg[0..] == arg;
    }
  }

  lemma ProgramOrigin(words: seq<string>, argv: seq<string>, name: string)
    requires GrownArgv(words, argv) && words[0] == name && Printable(name)
    ensures argv[0] == name
  {
    GrownPrintable(words[0], argv[0]);
  }

  lemma GrownRecursiveFlag(words: seq<string>, argv: seq<string>, letters: set<char>)
    requires GrownArgv(words, argv) && letters <= {'r', 'R'} && HasRecursiveFlag(words[1..], letters)
    ensures HasRecursiveFlag(argv[1..], letters)
  {
    var arg :| arg in words[1..] && IsRecursiveFlag(arg, letters);
    var from := ArgumentOrigin(words, argv, arg);
    GrownRecursive(arg, from, letters);
  }

  lemma GrownDangerPath(words: seq<string>, argv: seq<string>, arg: string)
    requires GrownArgv(words, argv) && arg in words[1..] && IsDangerPath(arg)
    ensures arg in argv[1..]
  {
    var from := ArgumentOrigin(words, argv, arg);
    GrownDanger(arg, from);
  }

  lemma GrownNamed(words: seq<string>, argv: seq<string>, arg: string)
    requires GrownArgv(words, argv) && arg in words[1..] && Printable(arg) && arg != ""
    ensures arg in argv[1..]
  {
    var from := ArgumentOrigin(words, argv, arg);
    GrownPrintable(arg, from);
  }

  lemma GrownRm(words: seq<string>, argv: seq<string>)
    requires GrownArgv(words, argv) && RmDenied(words)
    ensures RmDenied(argv)
  {
    ProgramOrigin(words, argv, "rm");
    if "--no-preserve-root" in words {
      assert words[0] != "--no-preserve-root";
      assert "--no-preserve-root" in words[1..];
      GrownNamed(words, argv, "--no-preserve-root");
    } else {
      GrownRecursiveFlag(words, argv, {'r', 'R'});
      var arg :| arg in words[1..] && IsDangerPath(arg);
      GrownDangerPath(words, argv, arg);
    }
  }

  lemma GrownChownChmod(words: seq<string>, argv: seq<string>)
    requires GrownArgv(words, argv) && ChownChmodDenied(words)
    ensures ChownChmodDenied(argv)
  {
    ProgramOrigin(words, argv, words[0]);
    GrownRecursiveFlag(words, argv, {'R'});
    var arg :| arg in words[1..] && IsDangerPath(arg);
    GrownDangerPath(words, argv, arg);
  }

  lemma GrownDd(words: seq<string>, argv: seq<string>)
    requires GrownArgv(words, argv) && DdDenied(words)
    ensures DdDenied(argv)
  {
    ProgramOrigin(words, argv, "dd");
    var arg :| arg in words[1..] && IsDangerousOf(arg);
    var from := ArgumentOrigin(words, argv, arg);
    GrownOf(arg, from);
  }

  lemma GrownMv(words: seq<string>, argv: seq<string>)
    requires GrownArgv(words, argv) && MvDenied(words)
    ensures MvDenied(argv)
  {
    ProgramOrigin(words, argv, "mv");
    var arg :| arg in words[1..] && !("-" <= arg) && (IsDangerPath(arg) || arg == "/dev/null");
    MvTargetPrintable(arg);
    GrownNamed(words, argv, arg);
  }

  lemma MvTargetPrintable(arg: string)
    requires IsDangerPath(arg) || arg == "/dev/null"
    ensures Printable(arg) && arg != ""
  {
    if IsDangerPath(arg) { DangerIsPrintable(arg); }
  }

  lemma GrownKill(words: seq<string>, argv: seq<string>)
    requires GrownArgv(words, argv) && KillInitDenied(words)
    ensures KillInitDenied(argv)
  {
    ProgramOrigin(words, argv, "kill");
    GrownNamed(words, argv, "1");
  }

  lemma GrownMkfs(words: seq<string>, argv: seq<string>)
    requires GrownArgv(words, argv) && MkfsDenied(words)
    ensures MkfsDenied(argv)
  {
    GrownPrefix("mkfs", words[0], argv[0]);
    var arg :| arg in words[1..] && "/dev/" <= arg;
    var from := ArgumentOrigin(words, argv, arg);
    GrownPrefix("/dev/", arg, from);
  }

  /** Growing gets no argv past a rule the other way either: none holds that did not hold before. */
  lemma GrownNotDenied(words: seq<string>, argv: seq<string>)
    requires GrownArgv(words, argv) && !TokensDenied(argv)
    ensures !TokensDenied(words)
  {
    if RmDenied(words) { GrownRm(words, argv); }
    if ChownChmodDenied(words) { GrownChownChmod(words, argv); }
    if DdDenied(words) { GrownDd(words, argv); }
    if MvDenied(words) { GrownMv(words, argv); }
    if KillInitDenied(words) { GrownKill(words, argv); }
    if MkfsDenied(words) { GrownMkfs(words, argv); }
  }

  /** No rule is about a program whose name starts with white space. */
  lemma ExoticProgramNotDenied(argv: seq<string>)
    requires argv != [] && argv[0] != [] && IsExotic(argv[0][0])
    ensures !TokensDenied(argv)
  {
    var c := argv[0][0];
    assert c != 'r' && c != 'c' && c != 'd' && c != 'm' && c != 'k';
    assert "rm"[0] == 'r' && "chown"[0] == 'c' && "chmod"[0] == 'c' && "dd"[0] == 'd' && "mv"[0] == 'm';
    assert "kill"[0] == 'k' && "mkfs"[0] == 'm';
  }

  /** For every accepted command, whatever strip() took off, the text as given tokenizes, has a token,
      and no deny rule holds of the argv that is run. */
  lemma RunNotDenied(denyPattern: string -> bool, command: string)
    requires CheckDenyList(denyPattern, command) == Passed
    ensures var run := Split(command); run.Argv? && run.argv != [] && !TokensDenied(run.argv)
  {
    var lead, trail := StripTrims(command);
    var text := Strip(command);
    SpacesAroundTokenize(lead, text, trail);
    OtherStays(lead, text, trail);
    SomeTokenIn(command);
    if AllShlexSpace(lead) {
      TrailNotDenied(lead, text, trail);
    } else {
      LeadNotDenied(lead, text, trail);
    }
  }

  lemma LeadNotDenied(lead: string, text: string, trail: string)
    requires AllSpace(lead) && !AllShlexSpace(lead) && Split(lead + text + trail).Argv?
    ensures !TokensDenied(Split(lead + text + trail).argv)
  {
    assert lead + text + trail == lead + (text + trail);
    LeadStartsProgram(lead, text + trail);
    ExoticProgramNotDenied(Split(lead + text + trail).argv);
  }

  lemma OtherStays(lead: string, text: string, trail: string)
    requires text != [] && !IsSpace(text[0])
    ensures !AllShlexSpace(lead + text + trail)
  {
    assert (lead + text + trail)[|lead|] == text[0];
  }

  lemma TrailNotDenied(lead: string, text: string, trail: string)
    requires AllShlexSpace(lead) && AllSpace(trail)
    requires text != [] && !IsSpace(text[0]) && Split(text).Argv? && !TokensDenied(Split(text).argv)
    ensures Split(lead + text + trail).Argv? && !TokensDenied(Split(lead + text + trail).argv)
  {
    var s := FeedAll(START, text);
    FeedSpaces(START, lead);
    FeedConcat(START, lead, text);
    FeedConcat(START, lead + text, trail);
    FeedReachable(START, text);
    SomeToken(text);
    GrownSelf(Split(text).argv);
    TrailGrows(s, trail, Split(text).argv);
    GrownNotDenied(Finish(FeedAll(s, trail)).argv, Split(text).argv);
  }

  /** A command that is executed was checked. The program that runs is the resolved first token of the
      text as given, no deny rule holds of its argv, and the stripped text matches the whitelist; with
      plain edges that argv is the one that was checked. */
  lemma ExecutedWasChecked(
    denyPattern: string -> bool, whitelist: seq<string -> bool>, which: string -> string, command: string)
    requires RunCommand(denyPattern, whitelist, which, command).Executed?
    ensures var run := RunCommand(denyPattern, whitelist, which, command).argv;
            var given, checked := Split(command), Split(Strip(command));
            && given.Argv? && given.argv != [] && checked.Argv? && checked.argv != []
            && run == [which(given.argv[0])] + given.argv[1..]
            && !TokensDenied(given.argv) && !TokensDenied(checked.argv) && !denyPattern(Strip(command))
            && (exists k :: 0 <= k < |whitelist| && whitelist[k](Strip(command)))
            && (given.argv == checked.argv <==> PlainEdges(command))
  {
    CheckedIsRun(denyPattern, command);
    RunNotDenied(denyPattern, command);
  }

  /** An accepted command never fails to tokenize and is never empty when run. */
  lemma AcceptedRuns(denyPattern: string -> bool, which: string -> string, command: string)
    requires CheckDenyList(denyPattern, command) == Passed
    ensures RunSubprocess(which, command).Executed? || RunSubprocess(which, command).ExecutableNotFound?
  {
    RunNotDenied(denyPattern, command);
  }

  // ----- What counts as a path of the system -----------------------------------------------------

  predicate IsSlashes(s: string) {
    forall i :: 0 <= i < |s| ==> s[i] == '/'
  }

  lemma {:induction false} StrippedSlashes(arg: string) returns (slashes: string)
    ensures arg == RStripSlashes(arg) + slashes && IsSlashes(slashes)
  {
    slashes := [];
    if arg != [] && arg[|arg| - 1] == '/' {
      slashes := StrippedSlashes(arg[..|arg| - 1]);
      slashes := slashes + ['/'];
    }
  }

  lemma {:induction false} SlashesStripped(path: string, slashes: string)
    requires path != [] && path[|path| - 1] != '/' && IsSlashes(slashes)
    ensures RStripSlashes(path + slashes) == path
  {
    if slashes == [] {
      assert path + slashes == path;
    } else {
      var n := |slashes| - 1;
      assert (path + slashes)[..|path + slashes| - 1] == path + slashes[..n];
      SlashesStripped(path, slashes[..n]);
    }
  }

  /** A path counts exactly when it is the root as one slash, or another listed path with any number of
      slashes behind it. The root as two slashes does not. */
  lemma DangerPathExactly(arg: string)
    ensures IsDangerPath(arg) <==>
            || arg == "/"
            || exists path, slashes ::
                 path in DANGER_PATHS && path != "/" && IsSlashes(slashes) && arg == path + slashes
    ensures !IsDangerPath("//")
  {
    if IsDangerPath(arg) && arg != "/" {
      var slashes := StrippedSlashes(arg);
      if arg in DANGER_PATHS {
        assert arg == arg + [];
        assert IsSlashes([]);
      } else {
        assert IsSlashes(slashes);
        LongestStripped(arg);
      }
    }
    if path, slashes :| path in DANGER_PATHS && path != "/" && IsSlashes(slashes) && arg == path + slashes {
      ListedPaths(path);
      SlashesStripped(path, slashes);
    }
    assert "//"[..1] == "/" && "/"[..0] == "";
    assert RStripSlashes("/") == "";
  }

  lemma {:induction false} LongestStripped(arg: string)
    ensures RStripSlashes(arg) != "/"
  {
    if arg != [] && arg[|arg| - 1] == '/' { LongestStripped(arg[..|arg| - 1]); }
  }

  lemma ListedPaths(path: string)
    requires path in DANGER_PATHS && path != "/"
    ensures path != [] && path[|path| - 1] != '/'
  {
  }
}
