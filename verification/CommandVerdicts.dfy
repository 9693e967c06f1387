/** Which verdict a command gets: what the deny list refuses, what the whitelist accepts, and what is then
    executed. */
module CommandVerdicts {
  import opened CommandCheck
  import Sequences
  import opened Shlex
  import opened Text

  // ----- What the token rules refuse -------------------------------------------------------------

  /** The long recursive flag, or a single dash and behind it one of the letters, wherever. */
  predicate RecursiveFlag(arg: string, letters: set<char>) {
    || arg == "--recursive"
    || (|arg| > 1 && arg[0] == '-' && arg[1] != '-' && exists i :: 1 <= i < |arg| && arg[i] in letters)
  }

  lemma RecursiveFlagExactly(arg: string, letters: set<char>)
    requires '-' !in letters
    ensures IsRecursiveFlag(arg, letters) <==> RecursiveFlag(arg, letters)
  {
    if c :| c in letters && arg == ['-', c] {
      assert arg[1] == c;
    }
    if IsCombinedFlag(arg, letters) {
      var c :| c in letters && c in arg[1..];
      assert arg[1 + Sequences.IndexOf(arg[1..], c)] == c;
    }
    if i :| 1 <= i < |arg| && arg[i] in letters {
      assert arg[1..][i - 1] == arg[i];
    }
  }

  /** The root as one slash, or a path of the system with any number of slashes behind it. */
  ghost predicate NamesSystemPath(arg: string) {
    || arg == "/"
    || exists path, slashes ::
         && path in {"~", "$HOME", "/home", "/etc", "/usr", "/var", "/boot", "/root", "/sys", "/proc", "/dev",
                     "/lib", "/lib64", "/sbin", "/bin", "/opt"}
         && IsSlashes(slashes) && arg == path + slashes
  }

  lemma SystemPathExactly(arg: string)
    ensures IsDangerPath(arg) <==> NamesSystemPath(arg)
  {
    DangerPathExactly(arg);
    if path, slashes :| path in DANGER_PATHS && path != "/" && IsSlashes(slashes) && arg == path + slashes {
      assert NamesSystemPath(arg);
    }
  }

  /** An of= operand that names the root, or something in a directory of the system. */
  predicate WritesSystemPath(arg: string) {
    && "of=" <= arg
    && var to := arg[3..];
       || to == "/"
       || "/dev/" <= to || "/etc/" <= to || "/boot/" <= to || "/usr/" <= to || "/var/" <= to || "/root/" <= to
       || "/sys/" <= to || "/proc/" <= to || "/lib/" <= to || "/lib64/" <= to || "/sbin/" <= to || "/bin/" <= to
       || "/opt/" <= to
  }

  lemma WritesSystemPathExactly(arg: string)
    ensures IsDangerousOf(arg) <==> WritesSystemPath(arg)
  {
  }

  /** The rules, each by its program and its arguments. */
  ghost predicate RulesDeny(program: string, args: seq<string>) {
    || (program == "rm" && "--no-preserve-root" in args)
    || (program == "rm" && Recurses(args, {'r', 'R'}) && exists arg :: arg in args && NamesSystemPath(arg))
    || (program in {"chown", "chmod"} && Recurses(args, {'R'}) && exists arg :: arg in args && NamesSystemPath(arg))
    || (program == "dd" && exists arg :: arg in args && WritesSystemPath(arg))
    || (program == "mv" &&
        exists arg :: arg in args && !("-" <= arg) && (NamesSystemPath(arg) || arg == "/dev/null"))
    || (program == "kill" && "1" in args)
    || ("mkfs" <= program && exists arg :: arg in args && "/dev/" <= arg)
  }

  /** Some argument is the long recursive flag, or has one of the letters behind a single dash. */
  ghost predicate Recurses(args: seq<string>, letters: set<char>) {
    exists arg :: arg in args && RecursiveFlag(arg, letters)
  }

  lemma RecursesExactly(args: seq<string>, letters: set<char>)
    requires '-' !in letters
    ensures HasRecursiveFlag(args, letters) <==> Recurses(args, letters)
  {
    forall arg ensures IsRecursiveFlag(arg, letters) <==> RecursiveFlag(arg, letters) {
      RecursiveFlagExactly(arg, letters);
    }
  }

  /** What the token rules refuse, told from the program and its arguments. */
  lemma TokensDeniedExactly(program: string, args: seq<string>)
    ensures TokensDenied([program] + args) <==> RulesDeny(program, args)
    ensures !TokensDenied([])
  {
    var argv := [program] + args;
    assert argv[1..] == args;
    RecursesExactly(args, {'r', 'R'});
    RecursesExactly(args, {'R'});
    forall arg ensures IsDangerPath(arg) <==> NamesSystemPath(arg) { SystemPathExactly(arg); }
    forall arg ensures IsDangerousOf(arg) <==> WritesSystemPath(arg) { WritesSystemPathExactly(arg); }
    assert program == "rm" ==> program != "--no-preserve-root";
  }

  // ----- check_deny_list and check_command -------------------------------------------------------

  /** The verdict of the deny list, for every command: it passes exactly when the stripped text is not
      blank and tokenizes, no rule refuses its argv, and no fixed expression matches it. */
  lemma DenyListExactly(denyPattern: string -> bool, command: string)
    ensures var text := Strip(command);
            var check := CheckDenyList(denyPattern, command);
            && (check == EmptyCommand <==> AllSpace(command))
            && (check == Unparseable <==> !AllSpace(command) && !Split(text).Argv?)
            && (!AllSpace(command) && Split(text).Argv? ==>
                  var argv := Split(text).argv;
                  && argv != []
                  && (check == DeniedTokens <==> RulesDeny(argv[0], argv[1..]))
                  && (check == DeniedPattern <==> !RulesDeny(argv[0], argv[1..]) && denyPattern(text))
                  && (check == Passed <==> !RulesDeny(argv[0], argv[1..]) && !denyPattern(text)))
  {
    var text := Strip(command);
    BlankExactly(command);
    if text != [] && Split(text).Argv? {
      var lead, trail := StripTrims(command);
      SomeToken(text);
      var argv := Split(text).argv;
      Sequences.SplitHead(argv);
      TokensDeniedExactly(argv[0], argv[1..]);
    }
  }

  lemma BlankExactly(s: string)
    ensures Strip(s) == [] <==> AllSpace(s)
  {
    var lead, trail := StripTrims(s);
    if Strip(s) == [] {
      assert s == lead + trail;
    } else if AllSpace(s) {
      LStripSpaces(s);
    }
  }

  /** Some pattern of the whitelist matches the whole of the stripped command. */
  ghost predicate Whitelisted(whitelist: seq<string -> bool>, command: string) {
    exists pattern :: pattern in whitelist && pattern(Strip(command))
  }

  /** The verdict on a command: the deny list's refusal if it has one; then accepted exactly when one pattern
      matches, whichever. */
  lemma CheckExactly(denyPattern: string -> bool, whitelist: seq<string -> bool>, command: string)
    ensures var check := CheckCommand(denyPattern, whitelist, command);
            var denied := CheckDenyList(denyPattern, command);
            && (check == Passed <==> denied == Passed && Whitelisted(whitelist, command))
            && (check == NoWhitelist <==> denied == Passed && whitelist == [])
            && (check == NotWhitelisted <==> denied == Passed && whitelist != [] && !Whitelisted(whitelist, command))
            && (denied != Passed ==> check == denied)
  {
    if k :| 0 <= k < |whitelist| && whitelist[k](Strip(command)) {
      assert whitelist[k] in whitelist;
    }
  }

  /** Patterns only add up: more of them, in any order, never take an acceptance away, and the deny list's
      refusals do not depend on them. */
  lemma WhitelistOnlyAdds(
    denyPattern: string -> bool, whitelist: seq<string -> bool>, more: seq<string -> bool>, command: string)
    requires forall pattern :: pattern in whitelist ==> pattern in more
    ensures CheckCommand(denyPattern, whitelist, command) == Passed ==>
              CheckCommand(denyPattern, more, command) == Passed
    ensures CheckDenyList(denyPattern, command) != Passed ==>
              CheckCommand(denyPattern, whitelist, command) == CheckCommand(denyPattern, more, command)
  {
    CheckExactly(denyPattern, whitelist, command);
    CheckExactly(denyPattern, more, command);
  }

  // ----- run_command -----------------------------------------------------------------------------

  /** What happens to a command: it is executed exactly when it is accepted and its program is found, as
      the resolved program with the other tokens of the text as given; an accepted one whose program is not
      found says so; every other is rejected with its verdict. */
  lemma RunExactly(
    denyPattern: string -> bool, whitelist: seq<string -> bool>, which: string -> string, command: string)
    ensures var check := CheckCommand(denyPattern, whitelist, command);
            var run := RunCommand(denyPattern, whitelist, which, command);
            if check != Passed then run == Rejected(check)
            else
              && Split(command).Argv? && Split(command).argv != []
              && var argv := Split(command).argv;
              && (run == ExecutableNotFound <==> which(argv[0]) == "")
              && (run.Executed? <==> which(argv[0]) != "")
              && (run.Executed? ==> |run.argv| == |argv| && run.argv[0] == which(argv[0]) && run.argv[1..] == argv[1..])
  {
    if CheckCommand(denyPattern, whitelist, command) == Passed {
      RunNotDenied(denyPattern, command);
    }
  }
}
