/** shlex.split(command, posix=True), which tokenizes a command once to check it and once to run it.

    White space separates words, quotes and backslash are the only special characters, and comments
    are off. `Split` is the tokenizer's machine; the grammar below it says what commands mean. */
module Shlex {
  import opened Sequences
  import opened Text

  // ----- The tokenizer ---------------------------------------------------------------------------

  predicate IsShlexSpace(c: char) {
    c == ' ' || c == '\t' || c == '\r' || c == '\n'
  }

  predicate IsQuote(c: char) {
    c == '\'' || c == '"'
  }

  const BACKSLASH := '\\'

  /** Where the tokenizer is: between words, in a word, inside quotes, or right after a backslash,
      which returns to a word or into double quotes. */
  datatype Mode = Blank | Word | Quoted(quote: char) | Escaped(inQuotes: bool)

  /** Finished words, and the word being read. `quoted` says that the word has had quotes, so that
      it counts even when empty. */
  datatype Lexer = Lexer(mode: Mode, argv: seq<string>, token: string, quoted: bool)

  const START := Lexer(Blank, [], [], false)

  function Feed(s: Lexer, c: char): Lexer {
    match s.mode
    case Blank =>
      if IsShlexSpace(c) then s
      else if c == BACKSLASH then s.(mode := Escaped(false))
      else if IsQuote(c) then s.(mode := Quoted(c), quoted := true)
      else s.(mode := Word, token := [c])
    case Word =>
      if IsShlexSpace(c) then
        if s.token != [] || s.quoted then Lexer(Blank, s.argv + [s.token], [], false) else s.(mode := Blank)
      else if IsQuote(c) then s.(mode := Quoted(c), quoted := true)
      else if c == BACKSLASH then s.(mode := Escaped(false))
      else s.(token := s.token + [c])
    case Quoted(q) =>
      if c == q then s.(mode := Word)
      else if c == BACKSLASH && q == '"' then s.(mode := Escaped(true))
      else s.(token := s.token + [c])
    case Escaped(inQuotes) =>
      if inQuotes then
        s.(mode := Quoted('"'), token := s.token + (if c != BACKSLASH && c != '"' then [BACKSLASH, c] else [c]))
      else s.(mode := Word, token := s.token + [c])
  }

  function FeedAll(s: Lexer, text: string): Lexer {
    if text == [] then s else Feed(FeedAll(s, text[..|text| - 1]), text[|text| - 1])
  }

  datatype Tokens = Argv(argv: seq<string>) | NoClosingQuotation | NoEscapedCharacter

  /** The end of the text: an open quote or a trailing backslash is an error. */
  function Finish(s: Lexer): Tokens {
    match s.mode
    case Blank => Argv(s.argv)
    case Word => Argv(if s.token != [] || s.quoted then s.argv + [s.token] else s.argv)
    case Quoted(_) => NoClosingQuotation
    case Escaped(_) => NoEscapedCharacter
  }

  function Split(text: string): Tokens {
    Finish(FeedAll(START, text))
  }

  // ----- Runs of the tokenizer -------------------------------------------------------------------

  lemma {:induction false} FeedConcat(s: Lexer, a: string, b: string)
    ensures FeedAll(s, a + b) == FeedAll(FeedAll(s, a), b)
  {
    if b == [] {
      assert a + b == a;
    } else {
      assert (a + b)[..|a + b| - 1] == a + b[..|b| - 1];
      FeedConcat(s, a, b[..|b| - 1]);
    }
  }

  predicate AllShlexSpace(s: string) {
    forall i :: 0 <= i < |s| ==> IsShlexSpace(s[i])
  }

  lemma {:induction false} FeedSpaces(s: Lexer, spaces: string)
    requires AllShlexSpace(spaces) && (s.mode.Blank? || s.mode.Word?) && Reachable(s)
    ensures var t := FeedAll(s, spaces); (t.mode.Blank? || t.mode.Word?) && Reachable(t) && Finish(t) == Finish(s)
    ensures s.mode.Blank? ==> FeedAll(s, spaces) == s
  {
    if spaces != [] {
      FeedSpaces(s, spaces[..|spaces| - 1]);
    }
  }

  /** Between words there is no half-read word; a word that has begun is not empty unless quoted. */
  predicate Reachable(s: Lexer) {
    && (s.mode.Blank? ==> s.token == [] && !s.quoted)
    && (s.mode.Word? ==> s.token != [] || s.quoted)
    && (s.mode.Quoted? ==> s.quoted && IsQuote(s.mode.quote))
    && (s.mode == Escaped(true) ==> s.quoted)
  }

  lemma {:induction false} FeedReachable(s: Lexer, text: string)
    requires Reachable(s)
    ensures Reachable(FeedAll(s, text))
  {
    if text != [] { FeedReachable(s, text[..|text| - 1]); }
  }

  /** Shlex white space around a text that tokenizes changes nothing. */
  lemma SpacesAroundIgnored(lead: string, text: string, trail: string)
    requires AllShlexSpace(lead) && AllShlexSpace(trail) && Split(text).Argv?
    ensures Split(lead + text + trail) == Split(text)
  {
    FeedSpaces(START, lead);
    FeedConcat(START, lead + text, trail);
    FeedConcat(START, lead, text);
    FeedReachable(START, text);
    FeedSpaces(FeedAll(START, text), trail);
  }

  lemma {:induction false} WordsOnlyGrow(s: Lexer, text: string)
    requires Reachable(s)
    ensures |FeedAll(s, text).argv| >= |s.argv|
    ensures !s.mode.Blank? && FeedAll(s, text).mode.Blank? ==> |FeedAll(s, text).argv| > |s.argv|
  {
    if text != [] {
      WordsOnlyGrow(s, text[..|text| - 1]);
      FeedReachable(s, text[..|text| - 1]);
    }
  }

  /** A text that starts with something else than shlex white space has at least one token. */
  lemma SomeToken(text: string)
    requires text != [] && !IsShlexSpace(text[0]) && Split(text).Argv?
    ensures Split(text).argv != []
  {
    var first := FeedAll(START, [text[0]]);
    assert text == [text[0]] + text[1..];
    FeedConcat(START, [text[0]], text[1..]);
    assert [text[0]][..0] == [];
    assert first == Feed(START, text[0]);
    FeedReachable(START, [text[0]]);
    FeedReachable(first, text[1..]);
    WordsOnlyGrow(first, text[1..]);
  }

  // ----- White space of either kind around a text ------------------------------------------------

  predicate BetweenPieces(m: Mode) {
    m.Blank? || m.Word?
  }

  /** Two states that differ only in whether a word has begun. */
  predicate SameMode(s: Lexer, t: Lexer) {
    (BetweenPieces(s.mode) && BetweenPieces(t.mode)) || s.mode == t.mode
  }

  lemma {:induction false} SameModeAfter(s: Lexer, t: Lexer, text: string)
    requires SameMode(s, t)
    ensures SameMode(FeedAll(s, text), FeedAll(t, text))
  {
    if text != [] { SameModeAfter(s, t, text[..|text| - 1]); }
  }

  /** White space, of whichever kind, opens no quotes. */
  lemma {:induction false} SpaceStaysBetween(s: Lexer, spaces: string)
    requires BetweenPieces(s.mode) && AllSpace(spaces)
    ensures BetweenPieces(FeedAll(s, spaces).mode)
  {
    if spaces != [] {
      var n := |spaces| - 1;
      SpaceStaysBetween(s, spaces[..n]);
      assert IsSpace(spaces[n]);
      SpecialsNotSpace();
    }
  }

  lemma SpecialsNotSpace()
    ensures !IsSpace('\\') && !IsSpace('"') && !IsSpace('\'')
  {
    assert ' ' < '\\' < '\U{85}' && ' ' < '"' < '\U{85}' && ' ' < '\'' < '\U{85}';
  }

  /** A text that tokenizes still does with white space of either kind around it. */
  lemma SpacesAroundTokenize(lead: string, text: string, trail: string)
    requires AllSpace(lead) && AllSpace(trail) && Split(text).Argv?
    ensures Split(lead + text + trail).Argv?
  {
    FeedConcat(START, lead + text, trail);
    FeedConcat(START, lead, text);
    SpaceStaysBetween(START, lead);
    SameModeAfter(START, FeedAll(START, lead), text);
    SpaceStaysBetween(FeedAll(START, lead + text), trail);
  }

  /** Where the first character stands that is no white space for the tokenizer. */
  function FirstOther(text: string): (i: nat)
    ensures i <= |text| && AllShlexSpace(text[..i])
    ensures i < |text| ==> !IsShlexSpace(text[i])
  {
    if text == [] || !IsShlexSpace(text[0]) then 0
    else
      var i := 1 + FirstOther(text[1..]);
      assert text[..i] == [text[0]] + text[1..][..i - 1];
      i
  }

  lemma OtherFound(text: string) returns (i: nat)
    requires !AllShlexSpace(text)
    ensures i == FirstOther(text) < |text|
  {
    i := FirstOther(text);
    assert text[..|text|] == text;
  }

  /** Any text that tokenizes and is not all white space of the tokenizer has a token. */
  lemma SomeTokenIn(text: string)
    requires Split(text).Argv? && !AllShlexSpace(text)
    ensures Split(text).argv != []
  {
    var i := OtherFound(text);
    FeedSpaces(START, text[..i]);
    FeedConcat(START, text[..i], text[i..]);
    SplitAt(text, i);
    SomeToken(text[i..]);
  }

  // ----- The quoting grammar ---------------------------------------------------------------------

  /** Inside double quotes: a character as it is, or behind a backslash. */
  datatype QuotedChar = Verbatim(c: char) | Backslashed(c: char)

  /** What words are made of. */
  datatype Piece = Bare(c: char) | Escape(c: char) | Single(text: string) | Double(chars: seq<QuotedChar>)

  /** A word with the white space in front of it. */
  datatype Item = Item(gap: string, word: seq<Piece>)

  /** What stands behind the last whole piece when a text stops in the middle of one. */
  datatype Tail =
    | Whole
    | OpenSingle(text: string)
    | OpenDouble(chars: seq<QuotedChar>)
    | OpenEscape
    | OpenDoubleEscape(chars: seq<QuotedChar>)

  /** A command line, perhaps unfinished: finished words, white space, a word being written. */
  datatype Line = Line(done: seq<Item>, gap: string, word: seq<Piece>, tail: Tail)

  const NOTHING := Line([], [], [], Whole)

  /** A gap is space, tab, CR and LF. */
  predicate ValidGap(gap: string) {
    forall i :: 0 <= i < |gap| ==> gap[i] in {' ', '\t', '\r', '\n'}
  }

  predicate ValidChars(chars: seq<QuotedChar>) {
    forall i :: 0 <= i < |chars| && chars[i].Verbatim? ==> chars[i].c !in {'"', '\\'}
  }

  predicate ValidPiece(p: Piece) {
    match p
    case Bare(c) => c !in {' ', '\t', '\r', '\n', '\'', '"', '\\'}
    case Escape(_) => true
    case Single(text) => '\'' !in text
    case Double(chars) => ValidChars(chars)
  }

  predicate ValidWord(word: seq<Piece>) {
    forall i :: 0 <= i < |word| ==> ValidPiece(word[i])
  }

  /** Words are not empty, and white space stands between any two. */
  predicate ValidItems(items: seq<Item>) {
    forall i :: 0 <= i < |items| ==>
      && ValidGap(items[i].gap) && (i > 0 ==> items[i].gap != [])
      && items[i].word != [] && ValidWord(items[i].word)
  }

  predicate ValidTail(t: Tail) {
    match t
    case OpenSingle(text) => '\'' !in text
    case OpenDouble(chars) => ValidChars(chars)
    case OpenDoubleEscape(chars) => ValidChars(chars)
    case _ => true
  }

  predicate ValidLine(l: Line) {
    && ValidItems(l.done) && ValidGap(l.gap) && (l.done != [] ==> l.gap != [])
    && ValidWord(l.word) && ValidTail(l.tail)
  }

  // How the grammar is written.

  function SpellChar(q: QuotedChar): string {
    if q.Verbatim? then [q.c] else ['\\', q.c]
  }

  function SpellChars(chars: seq<QuotedChar>): string {
    if chars == [] then [] else SpellChars(chars[..|chars| - 1]) + SpellChar(chars[|chars| - 1])
  }

  function SpellPiece(p: Piece): string {
    match p
    case Bare(c) => [c]
    case Escape(c) => ['\\', c]
    case Single(text) => ['\''] + text + ['\'']
    case Double(chars) => ['"'] + SpellChars(chars) + ['"']
  }

  function SpellWord(word: seq<Piece>): string {
    if word == [] then [] else SpellWord(word[..|word| - 1]) + SpellPiece(word[|word| - 1])
  }

  function SpellItems(items: seq<Item>): string {
    if items == [] then []
    else
      var last := items[|items| - 1];
      SpellItems(items[..|items| - 1]) + (last.gap + SpellWord(last.word))
  }

  function SpellTail(t: Tail): string {
    match t
    case Whole => []
    case OpenSingle(text) => ['\''] + text
    case OpenDouble(chars) => ['"'] + SpellChars(chars)
    case OpenEscape => ['\\']
    case OpenDoubleEscape(chars) => ['"'] + SpellChars(chars) + ['\\']
  }

  function Spell(l: Line): string {
    SpellItems(l.done) + (l.gap + SpellWord(l.word)) + SpellTail(l.tail)
  }

  // What it means: quotes and backslashes go, save a backslash that does not escape inside quotes.

  function MeanChar(q: QuotedChar): string {
    if q.Backslashed? && q.c !in {'"', '\\'} then ['\\', q.c] else [q.c]
  }

  function MeanChars(chars: seq<QuotedChar>): string {
    if chars == [] then [] else MeanChars(chars[..|chars| - 1]) + MeanChar(chars[|chars| - 1])
  }

  function MeanPiece(p: Piece): string {
    match p
    case Bare(c) => [c]
    case Escape(c) => [c]
    case Single(text) => text
    case Double(chars) => MeanChars(chars)
  }

  function MeanWord(word: seq<Piece>): string {
    if word == [] then [] else MeanWord(word[..|word| - 1]) + MeanPiece(word[|word| - 1])
  }

  function MeanItems(items: seq<Item>): seq<string> {
    if items == [] then [] else MeanItems(items[..|items| - 1]) + [MeanWord(items[|items| - 1].word)]
  }

  /** The words of the line, or the error of a line that stops inside quotes or behind a backslash. */
  function Meaning(l: Line): Tokens {
    match l.tail
    case Whole => Argv(MeanItems(l.done) + if l.word == [] then [] else [MeanWord(l.word)])
    case OpenSingle(_) => NoClosingQuotation
    case OpenDouble(_) => NoClosingQuotation
    case _ => NoEscapedCharacter
  }

  // ----- The tokenizer reads the grammar ---------------------------------------------------------

  predicate HasQuotes(word: seq<Piece>) {
    exists i :: 0 <= i < |word| && (word[i].Single? || word[i].Double?)
  }

  /** The state of the tokenizer after the line. */
  function StateOf(l: Line): Lexer {
    var argv, token := MeanItems(l.done), MeanWord(l.word);
    match l.tail
    case Whole => Lexer(if l.word == [] then Blank else Word, argv, token, HasQuotes(l.word))
    case OpenSingle(text) => Lexer(Quoted('\''), argv, token + text, true)
    case OpenDouble(chars) => Lexer(Quoted('"'), argv, token + MeanChars(chars), true)
    case OpenEscape => Lexer(Escaped(false), argv, token, HasQuotes(l.word))
    case OpenDoubleEscape(chars) => Lexer(Escaped(true), argv, token + MeanChars(chars), true)
  }

  /** The line with one character more. */
  function Extend(l: Line, c: char): Line {
    match l.tail
    case Whole =>
      if IsShlexSpace(c) then
        if l.word == [] then l.(gap := l.gap + [c]) else Line(l.done + [Item(l.gap, l.word)], [c], [], Whole)
      else if c == BACKSLASH then l.(tail := OpenEscape)
      else if c == '\'' then l.(tail := OpenSingle([]))
      else if c == '"' then l.(tail := OpenDouble([]))
      else l.(word := l.word + [Bare(c)])
    case OpenSingle(text) =>
      if c == '\'' then l.(word := l.word + [Single(text)], tail := Whole) else l.(tail := OpenSingle(text + [c]))
    case OpenDouble(chars) =>
      if c == '"' then l.(word := l.word + [Double(chars)], tail := Whole)
      else if c == BACKSLASH then l.(tail := OpenDoubleEscape(chars))
      else l.(tail := OpenDouble(chars + [Verbatim(c)]))
    case OpenEscape => l.(word := l.word + [Escape(c)], tail := Whole)
    case OpenDoubleEscape(chars) => l.(tail := OpenDouble(chars + [Backslashed(c)]))
  }

  lemma SnocPiece(word: seq<Piece>, p: Piece)
    ensures SpellWord(word + [p]) == SpellWord(word) + SpellPiece(p)
    ensures MeanWord(word + [p]) == MeanWord(word) + MeanPiece(p)
    ensures HasQuotes(word + [p]) == (HasQuotes(word) || p.Single? || p.Double?)
  {
    DropLast(word, p);
    if HasQuotes(word) {
      var i :| 0 <= i < |word| && (word[i].Single? || word[i].Double?);
      assert (word + [p])[i] == word[i];
    }
    assert (word + [p])[|word|] == p;
  }

  lemma SnocChar(chars: seq<QuotedChar>, q: QuotedChar)
    ensures SpellChars(chars + [q]) == SpellChars(chars) + SpellChar(q)
    ensures MeanChars(chars + [q]) == MeanChars(chars) + MeanChar(q)
  {
    DropLast(chars, q);
  }

  lemma SnocItem(items: seq<Item>, item: Item)
    ensures SpellItems(items + [item]) == SpellItems(items) + (item.gap + SpellWord(item.word))
    ensures MeanItems(items + [item]) == MeanItems(items) + [MeanWord(item.word)]
  {
    DropLast(items, item);
  }

  lemma ExtendIsValid(l: Line, c: char)
    requires ValidLine(l)
    ensures ValidLine(Extend(l, c))
  {
  }

  /** The text in front of the tail, and its growth by what a tail turns into. */
  function Front(l: Line): string {
    SpellItems(l.done) + (l.gap + SpellWord(l.word))
  }

  lemma FrontSnoc(l: Line, p: Piece)
    ensures Front(l.(word := l.word + [p])) == Front(l) + SpellPiece(p)
    ensures Front(l.(word := l.word + [p], tail := Whole)) == Front(l) + SpellPiece(p)
  {
    SnocPiece(l.word, p);
    ConcatAssociative(l.gap, SpellWord(l.word), SpellPiece(p));
    ConcatAssociative(SpellItems(l.done), l.gap + SpellWord(l.word), SpellPiece(p));
  }

  lemma FrontGap(l: Line, c: char)
    requires l.word == []
    ensures Front(l.(gap := l.gap + [c])) == Front(l) + [c]
  {
    AppendNothing(l.gap);
    AppendNothing(l.gap + [c]);
    ConcatAssociative(SpellItems(l.done), l.gap, [c]);
  }

  lemma FrontNewGap(l: Line, c: char)
    ensures Front(Line(l.done + [Item(l.gap, l.word)], [c], [], Whole)) == Front(l) + [c]
  {
    SnocItem(l.done, Item(l.gap, l.word));
    AppendNothing([c]);
  }

  lemma ExtendSpells(l: Line, c: char)
    ensures Spell(Extend(l, c)) == Spell(l) + [c]
  {
    match l.tail
    case Whole =>
      AppendNothing(Front(l));
      if IsShlexSpace(c) {
        if l.word == [] { FrontGap(l, c); } else { FrontNewGap(l, c); }
        AppendNothing(Front(Extend(l, c)));
      } else if c == BACKSLASH || IsQuote(c) {
        assert SpellTail(Extend(l, c).tail) == [c];
      } else {
        FrontSnoc(l, Bare(c));
        AppendNothing(Front(Extend(l, c)));
      }
    case _ =>
      TailGrows(l, c);
  }

  lemma TailGrows(l: Line, c: char)
    requires l.tail != Whole
    ensures Spell(Extend(l, c)) == Spell(l) + [c]
  {
    var after := Extend(l, c);
    ConcatAssociative(Front(l), SpellTail(l.tail), [c]);
    if after.tail == Whole {
      var p := TailCloses(l, c);
      FrontSnoc(l, p);
      AppendNothing(Front(after));
    } else {
      OpenTailGrows(l, c);
    }
  }

  lemma TailCloses(l: Line, c: char) returns (p: Piece)
    requires l.tail != Whole && Extend(l, c).tail == Whole
    ensures Extend(l, c) == l.(word := l.word + [p], tail := Whole)
    ensures SpellPiece(p) == SpellTail(l.tail) + [c]
  {
    match l.tail
    case OpenSingle(text) => p := Single(text);
    case OpenDouble(chars) => p := Double(chars);
    case OpenEscape => p := Escape(c);
  }

  lemma OpenTailGrows(l: Line, c: char)
    requires l.tail != Whole && Extend(l, c).tail != Whole
    ensures SpellTail(Extend(l, c).tail) == SpellTail(l.tail) + [c]
  {
    match l.tail
    case OpenSingle(text) => ConcatAssociative(['\''], text, [c]);
    case OpenDouble(chars) =>
      if c != BACKSLASH {
        SnocChar(chars, Verbatim(c));
        ConcatAssociative(['"'], SpellChars(chars), [c]);
      }
    case OpenDoubleEscape(chars) =>
      SnocChar(chars, Backslashed(c));
      BackslashGrows(['"'], SpellChars(chars), BACKSLASH, c);
  }

  lemma BackslashGrows<T>(quote: seq<T>, chars: seq<T>, backslash: T, c: T)
    ensures quote + (chars + [backslash, c]) == quote + chars + [backslash] + [c]
  {
  }

  lemma WordCounts(word: seq<Piece>)
    requires word != []
    ensures MeanWord(word) != [] || HasQuotes(word)
  {
    var last := word[|word| - 1];
    assert last.Single? || last.Double? ==> HasQuotes(word);
  }

  /** The tokenizer takes the step that the grammar takes. */
  lemma ExtendFeeds(l: Line, c: char)
    requires ValidLine(l)
    ensures StateOf(Extend(l, c)) == Feed(StateOf(l), c)
  {
    match l.tail
    case Whole => ExtendFeedsWhole(l, c);
    case OpenSingle(text) => ExtendFeedsSingle(l, text, c);
    case OpenDouble(chars) => ExtendFeedsDouble(l, chars, c);
    case OpenEscape => SnocPiece(l.word, Escape(c));
    case OpenDoubleEscape(chars) =>
      SnocChar(chars, Backslashed(c));
      ConcatAssociative(MeanWord(l.word), MeanChars(chars), MeanChar(Backslashed(c)));
  }

  lemma ExtendFeedsWhole(l: Line, c: char)
    requires l.tail == Whole
    ensures StateOf(Extend(l, c)) == Feed(StateOf(l), c)
  {
    if IsShlexSpace(c) {
      if l.word != [] {
        WordCounts(l.word);
        SnocItem(l.done, Item(l.gap, l.word));
      }
    } else if c == BACKSLASH || IsQuote(c) {
      AppendNothing(MeanWord(l.word));
    } else {
      SnocPiece(l.word, Bare(c));
    }
  }

  lemma ExtendFeedsSingle(l: Line, text: string, c: char)
    requires l.tail == OpenSingle(text)
    ensures StateOf(Extend(l, c)) == Feed(StateOf(l), c)
  {
    SnocPiece(l.word, Single(text));
    ConcatAssociative(MeanWord(l.word), text, [c]);
  }

  lemma ExtendFeedsDouble(l: Line, chars: seq<QuotedChar>, c: char)
    requires l.tail == OpenDouble(chars)
    ensures StateOf(Extend(l, c)) == Feed(StateOf(l), c)
  {
    if c == '"' {
      DoubleCloses(l, chars);
    } else if c != BACKSLASH {
      DoubleGrows(l, chars, c);
    }
  }

  lemma DoubleCloses(l: Line, chars: seq<QuotedChar>)
    requires l.tail == OpenDouble(chars)
    ensures StateOf(Extend(l, '"')) == Feed(StateOf(l), '"')
  {
    SnocPiece(l.word, Double(chars));
  }

  lemma DoubleGrows(l: Line, chars: seq<QuotedChar>, c: char)
    requires l.tail == OpenDouble(chars) && c != '"' && c != BACKSLASH
    ensures StateOf(Extend(l, c)) == Feed(StateOf(l), c)
  {
    SnocChar(chars, Verbatim(c));
    ConcatAssociative(MeanWord(l.word), MeanChars(chars), [c]);
  }

  /** The line that a text spells. */
  function Derive(text: string): Line {
    if text == [] then NOTHING else Extend(Derive(text[..|text| - 1]), text[|text| - 1])
  }

  /** Every text spells a line, and the tokenizer is then in that line's state. */
  lemma {:induction false} DeriveSpells(text: string)
    ensures ValidLine(Derive(text)) && Spell(Derive(text)) == text && StateOf(Derive(text)) == FeedAll(START, text)
  {
    if text != [] {
      var before, c := text[..|text| - 1], text[|text| - 1];
      DeriveSpells(before);
      ExtendIsValid(Derive(before), c);
      ExtendSpells(Derive(before), c);
      ExtendFeeds(Derive(before), c);
      SplitLast(text);
    }
  }

  /** The line without its last character, and that character. */
  function Shrink(l: Line): (Line, char)
    requires l != NOTHING && ValidLine(l)
  {
    match l.tail
    case OpenSingle(text) =>
      if text == [] then (l.(tail := Whole), '\'')
      else (l.(tail := OpenSingle(text[..|text| - 1])), text[|text| - 1])
    case OpenDouble(chars) =>
      if chars == [] then (l.(tail := Whole), '"')
      else
        var init, last := chars[..|chars| - 1], chars[|chars| - 1];
        (l.(tail := if last.Verbatim? then OpenDouble(init) else OpenDoubleEscape(init)), last.c)
    case OpenEscape => (l.(tail := Whole), BACKSLASH)
    case OpenDoubleEscape(chars) => (l.(tail := OpenDouble(chars)), BACKSLASH)
    case Whole =>
      if l.word != [] then ShrinkWord(l)
      else if |l.gap| > 1 || l.done == [] then (l.(gap := l.gap[..|l.gap| - 1]), l.gap[|l.gap| - 1])
      else
        var last := l.done[|l.done| - 1];
        (Line(l.done[..|l.done| - 1], last.gap, last.word, Whole), l.gap[0])
  }

  function ShrinkWord(l: Line): (Line, char)
    requires l.word != []
  {
    var init := l.(word := l.word[..|l.word| - 1]);
    match l.word[|l.word| - 1]
    case Bare(c) => (init, c)
    case Escape(c) => (init.(tail := OpenEscape), c)
    case Single(text) => (init.(tail := OpenSingle(text)), '\'')
    case Double(chars) => (init.(tail := OpenDouble(chars)), '"')
  }

  lemma ShrinkExtends(l: Line)
    requires l != NOTHING && ValidLine(l)
    ensures var (before, c) := Shrink(l); ValidLine(before) && Extend(before, c) == l
  {
    if l.tail != Whole {
      ShrinkTailExtends(l);
    } else if l.word != [] {
      ShrinkWordExtends(l);
    } else {
      ShrinkGapExtends(l);
    }
  }

  lemma ShrinkGapExtends(l: Line)
    requires l != NOTHING && ValidLine(l) && l.tail == Whole && l.word == []
    ensures var (before, c) := Shrink(l); ValidLine(before) && Extend(before, c) == l
  {
    if |l.gap| > 1 || l.done == [] {
      SplitLast(l.gap);
    } else {
      SplitLast(l.done);
      assert l.gap == [l.gap[0]];
    }
  }

  lemma ShrinkTailExtends(l: Line)
    requires l.tail != Whole && ValidLine(l)
    ensures var (before, c) := Shrink(l); ValidLine(before) && Extend(before, c) == l
  {
    match l.tail
    case OpenSingle(text) => if text != [] { SplitLast(text); }
    case OpenDouble(chars) => if chars != [] { SplitLast(chars); }
    case _ =>
  }

  lemma ShrinkWordExtends(l: Line)
    requires l.word != [] && l.tail == Whole && ValidLine(l)
    ensures var (before, c) := ShrinkWord(l); ValidLine(before) && Extend(before, c) == l
  {
    SplitLast(l.word);
  }

  /** A line is read back from its spelling: no text spells two lines. */
  lemma {:induction false} SpellDerives(l: Line)
    requires ValidLine(l)
    ensures Derive(Spell(l)) == l
    decreases |Spell(l)|
  {
    if l != NOTHING {
      var (before, c) := Shrink(l);
      ShrinkExtends(l);
      ExtendSpells(before, c);
      SpellDerives(before);
      DropLast(Spell(before), c);
    }
  }

  /** shlex.split reads the grammar, all of it and nothing else: a text is spelled by exactly one
      line, finished or not, and splitting the text gives what that line means. */
  lemma {:induction false} SplitIsMeaning(text: string, l: Line)
    ensures ValidLine(l) && Spell(l) == text <==> l == Derive(text)
    ensures Split(text) == Meaning(Derive(text))
  {
    DeriveSpells(text);
    if ValidLine(l) && Spell(l) == text { SpellDerives(l); }
    StateMeans(Derive(text));
  }

  lemma StateMeans(l: Line)
    ensures Finish(StateOf(l)) == Meaning(l)
  {
    if l.word != [] { WordCounts(l.word); } else { AppendNothing(MeanItems(l.done)); }
  }
}
