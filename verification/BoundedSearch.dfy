/** The searches that stop early: notes_search of tools/notes.py and the match loop of search_files
    in tools/filesystem.py, against the full search. */
module BoundedSearch {
  import opened Sequences
  import opened Text

  const MAX_SEARCH_LINES := 200

  // ----- notes_search ----------------------------------------------------------------------------

  /** A note in path order, its text split into lines. */
  datatype Note = Note(path: string, isSymlink: bool, lines: seq<string>)

  datatype Match = Match(path: string, lineNumber: nat, line: string)

  datatype SearchResult = EmptyQuery | Found(matches: seq<Match>, truncated: bool)

  /** needle in line.lower(), for the case folding `lower` of the runtime */
  predicate Hits(lower: string -> string, query: string, line: string) {
    Contains(lower(line), lower(query))
  }

  /** The matching lines from line index `from` on. */
  function LineMatches(lower: string -> string, query: string, note: Note, from: nat): seq<Match>
    requires from <= |note.lines|
    decreases |note.lines| - from
  {
    if from == |note.lines| then []
    else
      (if Hits(lower, query, note.lines[from]) then [Match(note.path, from + 1, note.lines[from])] else []) +
      LineMatches(lower, query, note, from + 1)
  }

  function NoteMatches(lower: string -> string, query: string, note: Note): seq<Match> {
    if note.isSymlink then [] else LineMatches(lower, query, note, 0)
  }

  /** The full search: every matching line of every note that is not a symlink, in order. */
  function AllMatches(lower: string -> string, query: string, notes: seq<Note>): seq<Match> {
    if notes == [] then [] else NoteMatches(lower, query, notes[0]) + AllMatches(lower, query, notes[1..])
  }

  function FirstOf<T>(s: seq<T>, n: nat): seq<T> {
    if |s| <= n then s else s[..n]
  }

  /** What stands after the prefix `done` of a whole is `rest`. */
  lemma PrefixOfWhole<T>(done: seq<T>, rest: seq<T>, n: nat)
    requires |done| == n && rest != []
    ensures FirstOf(done + rest, n) == done && |done + rest| > n
  {
  }

  /** The inner loop over the lines of one note, with `done` matches so far. */
  method SearchNote(lower: string -> string, query: string, note: Note, done: seq<Match>)
    returns (matches: seq<Match>, truncated: bool)
    requires |done| <= MAX_SEARCH_LINES
    ensures matches == FirstOf(done + LineMatches(lower, query, note, 0), MAX_SEARCH_LINES)
    ensures truncated <==> |done + LineMatches(lower, query, note, 0)| > MAX_SEARCH_LINES
  {
    matches := done;
    ghost var all := done + LineMatches(lower, query, note, 0);
    for j := 0 to |note.lines|
      invariant |matches| <= MAX_SEARCH_LINES
      invariant matches + LineMatches(lower, query, note, j) == all
    {
      ghost var rest := LineMatches(lower, query, note, j + 1);
      if Hits(lower, query, note.lines[j]) {
        var found := Match(note.path, j + 1, note.lines[j]);
        ConcatAssociative(matches, [found], rest);
        if |matches| >= MAX_SEARCH_LINES {
          PrefixOfWhole(matches, [found] + rest, MAX_SEARCH_LINES);
          return matches, true;
        }
        matches := matches + [found];
      } else {
        assert [] + rest == rest;
      }
    }
    assert matches + [] == matches;
    return matches, false;
  }

  /** Matches cut off in one note are cut off in the whole. */
  lemma CutStaysCut<T>(found: seq<T>, later: seq<T>, n: nat)
    requires |found| > n
    ensures FirstOf(found + later, n) == FirstOf(found, n)
  {
  }

  method NotesSearch(lower: string -> string, notes: seq<Note>, query: string) returns (r: SearchResult)
    ensures r.EmptyQuery? <==> Strip(query) == []
    ensures r.Found? ==>
              && r.matches == FirstOf(AllMatches(lower, query, notes), 200)
              && (r.truncated <==> |AllMatches(lower, query, notes)| > 200)
  {
    if query == [] || Strip(query) == [] {
      return EmptyQuery;
    }
    var matches, truncated := ScanNotes(lower, notes, query);
    return Found(matches, truncated);
  }

  /** The outer loop over the notes. */
  method ScanNotes(lower: string -> string, notes: seq<Note>, query: string)
    returns (matches: seq<Match>, truncated: bool)
    ensures matches == FirstOf(AllMatches(lower, query, notes), MAX_SEARCH_LINES)
    ensures truncated <==> |AllMatches(lower, query, notes)| > MAX_SEARCH_LINES
  {
    matches, truncated := [], false;
    assert notes[0..] == notes;
    for i := 0 to |notes|
      invariant |matches| <= MAX_SEARCH_LINES && !truncated
      invariant matches + AllMatches(lower, query, notes[i..]) == AllMatches(lower, query, notes)
    {
      NextNote(lower, query, notes, i, matches);
      if notes[i].isSymlink {
        AppendNothing(matches);
        continue;
      }
      ghost var found := matches + NoteMatches(lower, query, notes[i]);
      matches, truncated := SearchNote(lower, query, notes[i], matches);
      if truncated {
        CutStaysCut(found, AllMatches(lower, query, notes[i + 1..]), MAX_SEARCH_LINES);
        return;
      }
    }
    AppendNothing(matches);
  }

  lemma NextNote(lower: string -> string, query: string, notes: seq<Note>, i: nat, done: seq<Match>)
    requires i < |notes|
    ensures done + AllMatches(lower, query, notes[i..]) ==
            done + NoteMatches(lower, query, notes[i]) + AllMatches(lower, query, notes[i + 1..])
  {
    assert notes[i..][1..] == notes[i + 1..];
    ConcatAssociative(done, NoteMatches(lower, query, notes[i]), AllMatches(lower, query, notes[i + 1..]));
  }

  // ----- search_files ----------------------------------------------------------------------------

  /** A line of ripgrep's JSON output: nothing, text that is no JSON, another event, or a match. */
  datatype OutputLine = Blank | NotJson | OtherEvent | MatchEvent(found: Match)

  datatype FilesResult = BadLimit | Files(matches: seq<Match>, truncated: bool)

  function Events(lines: seq<OutputLine>): seq<Match> {
    if lines == [] then []
    else (if lines[0].MatchEvent? then [lines[0].found] else []) + Events(lines[1..])
  }

  /** The events of the output are its matches, and nothing else, in order. */
  lemma {:induction false} EventsExact(lines: seq<OutputLine>, last: OutputLine)
    ensures Events([]) == []
    ensures Events(lines + [last]) == match last case MatchEvent(m) => Events(lines) + [m] case _ => Events(lines)
  {
    if lines == [] {
      assert lines + [last] == [last];
      assert [last][1..] == [];
    } else {
      assert (lines + [last])[1..] == lines[1..] + [last];
      EventsExact(lines[1..], last);
    }
  }

  lemma {:induction false} EventsMembers(lines: seq<OutputLine>, m: Match)
    ensures m in Events(lines) <==> MatchEvent(m) in lines
  {
    if lines != [] {
      EventsMembers(lines[1..], m);
      SplitHead(lines);
    }
  }

  /** search_files flags truncation as soon as the limit is reached, whether or not more follows. */
  method SearchFiles(lines: seq<OutputLine>, maxMatches: int) returns (r: FilesResult)
    ensures r.BadLimit? <==> maxMatches < 1
    ensures r.Files? ==>
              && r.matches == FirstOf(Events(lines), maxMatches)
              && (r.truncated <==> |Events(lines)| >= maxMatches)
  {
    if maxMatches < 1 {
      return BadLimit;
    }
    var matches: seq<Match> := [];
    assert lines[0..] == lines;
    for i := 0 to |lines|
      invariant |matches| < maxMatches
      invariant matches + Events(lines[i..]) == Events(lines)
    {
      assert lines[i..][1..] == lines[i + 1..];
      ghost var rest := Events(lines[i + 1..]);
      if !lines[i].MatchEvent? {
        assert [] + rest == rest;
        continue;
      }
      ConcatAssociative(matches, [lines[i].found], rest);
      matches := matches + [lines[i].found];
      if |matches| >= maxMatches {
        assert (matches + rest)[..maxMatches] == matches;
        return Files(matches, true);
      }
    }
    assert matches + [] == matches;
    return Files(matches, false);
  }

  // ----- The full search is the set of hits ------------------------------------------------------

  lemma {:induction false} LineMatchesExact(lower: string -> string, query: string, note: Note, from: nat, m: Match)
    requires from <= |note.lines|
    ensures m in LineMatches(lower, query, note, from) <==>
            && m.path == note.path && from < m.lineNumber <= |note.lines|
            && m.line == note.lines[m.lineNumber - 1] && Hits(lower, query, m.line)
    decreases |note.lines| - from
  {
    if from < |note.lines| { LineMatchesExact(lower, query, note, from + 1, m); }
  }

  /** A match is reported by the full search exactly when it is a line, under its own number, of a
      note that is no symlink, and the folded query occurs in the folded line. */
  lemma {:induction false} AllMatchesExact(lower: string -> string, query: string, notes: seq<Note>, m: Match)
    ensures m in AllMatches(lower, query, notes) <==>
            exists note :: note in notes && !note.isSymlink && m.path == note.path &&
                           1 <= m.lineNumber <= |note.lines| && m.line == note.lines[m.lineNumber - 1] &&
                           exists i: nat :: Occurs(lower(m.line), lower(query), i)
  {
    ContainsExactly(lower(m.line), lower(query));
    if notes != [] {
      LineMatchesExact(lower, query, notes[0], 0, m);
      AllMatchesExact(lower, query, notes[1..], m);
      assert notes == [notes[0]] + notes[1..];
    }
  }

  predicate Ascending(found: seq<Match>) {
    forall i, j :: 0 <= i < j < |found| ==> found[i].lineNumber < found[j].lineNumber
  }

  lemma AscendingStep(head: seq<Match>, rest: seq<Match>)
    requires |head| <= 1 && Ascending(rest)
    requires forall k :: 0 <= k < |rest| ==> head == [] || head[0].lineNumber < rest[k].lineNumber
    ensures Ascending(head + rest)
  {
  }

  /** Matches of one note come in the order of its lines. */
  lemma {:induction false} LinesInOrder(lower: string -> string, query: string, note: Note, from: nat)
    requires from <= |note.lines|
    ensures Ascending(LineMatches(lower, query, note, from))
    decreases |note.lines| - from
  {
    if from < |note.lines| {
      var line := note.lines[from];
      var head := if Hits(lower, query, line) then [Match(note.path, from + 1, line)] else [];
      var rest := LineMatches(lower, query, note, from + 1);
      LinesInOrder(lower, query, note, from + 1);
      forall k | 0 <= k < |rest| ensures rest[k].lineNumber > from + 1 {
        LineMatchesExact(lower, query, note, from + 1, rest[k]);
      }
      AscendingStep(head, rest);
    }
  }

  /** Matches of earlier notes come before those of later ones. */
  lemma {:induction false} NotesInOrder(lower: string -> string, query: string, notes: seq<Note>, later: seq<Note>)
    ensures AllMatches(lower, query, notes + later) == AllMatches(lower, query, notes) + AllMatches(lower, query, later)
  {
    if notes == [] {
      assert notes + later == later;
    } else {
      assert (notes + later)[1..] == notes[1..] + later;
      NotesInOrder(lower, query, notes[1..], later);
      ConcatAssociative(NoteMatches(lower, query, notes[0]), AllMatches(lower, query, notes[1..]),
                        AllMatches(lower, query, later));
    }
  }
}
