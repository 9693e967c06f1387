/** The parts of Python's str that the parsers lean on: white space, stripping, decimal numbers. */
module Text {
  import opened Sequences

  /** str.isspace: the characters that strip() removes and \s matches. */
  predicate IsSpace(c: char) {
    || '\t' <= c <= '\r'
    || '\U{1C}' <= c <= ' '
    || c == '\U{85}' || c == '\U{A0}' || c == '\U{1680}'
    || '\U{2000}' <= c <= '\U{200A}'
    || c == '\U{2028}' || c == '\U{2029}' || c == '\U{202F}' || c == '\U{205F}' || c == '\U{3000}'
  }

  /** The white space of Unicode and the four separators of ASCII: these, and nothing else. */
  lemma SpaceExactly(c: char)
    ensures IsSpace(c) <==>
              c in {'\t', '\n', '\U{0B}', '\U{0C}', '\r', '\U{1C}', '\U{1D}', '\U{1E}', '\U{1F}', ' ', '\U{85}',
                    '\U{A0}', '\U{1680}', '\U{2000}', '\U{2001}', '\U{2002}', '\U{2003}', '\U{2004}',
                    '\U{2005}', '\U{2006}', '\U{2007}', '\U{2008}', '\U{2009}', '\U{200A}', '\U{2028}',
                    '\U{2029}', '\U{202F}', '\U{205F}', '\U{3000}'}
  {
    if IsSpace(c) { assert c as int <= 0x3000; }
  }

  predicate AllSpace(s: string) {
    forall i :: 0 <= i < |s| ==> IsSpace(s[i])
  }

  function LStrip(s: string): (r: string)
    ensures |r| <= |s|
    ensures r == [] || !IsSpace(r[0])
  {
    if s != [] && IsSpace(s[0]) then LStrip(s[1..]) else s
  }

  function RStrip(s: string): (r: string)
    ensures r <= s
    ensures r == [] || !IsSpace(r[|r| - 1])
  {
    if s != [] && IsSpace(s[|s| - 1]) then RStrip(s[..|s| - 1]) else s
  }

  /** str.strip() */
  function Strip(s: string): (r: string) {
    RStrip(LStrip(s))
  }

  predicate Trimmed(s: string) {
    s == [] || (!IsSpace(s[0]) && !IsSpace(s[|s| - 1]))
  }

  /** What strip() takes off in front, and behind. */
  function StripLead(s: string): string {
    s[..|s| - |LStrip(s)|]
  }

  function StripTrail(s: string): string {
    LStrip(s)[|RStrip(LStrip(s))|..]
  }

  lemma StripTrims(s: string) returns (lead: string, trail: string)
    ensures lead == StripLead(s) && trail == StripTrail(s)
    ensures s == lead + Strip(s) + trail && AllSpace(lead) && AllSpace(trail)
    ensures Trimmed(Strip(s))
  {
    StripEdges(s);
    RStripTrims(LStrip(s));
    lead, trail := StripLead(s), StripTrail(s);
  }

  lemma StripEdges(s: string)
    ensures s == StripLead(s) + Strip(s) + StripTrail(s) && AllSpace(StripLead(s)) && AllSpace(StripTrail(s))
  {
    var lead := LStripRest(s);
    var trail := RStripRest(LStrip(s));
    ConcatAssociative(lead, Strip(s), trail);
  }

  lemma {:induction false} LStripRest(s: string) returns (lead: string)
    ensures lead == StripLead(s) && s == lead + LStrip(s) && AllSpace(lead)
  {
    lead := [];
    if s != [] && IsSpace(s[0]) {
      lead := LStripRest(s[1..]);
      SplitFront(s, lead, LStrip(s));
      lead := [s[0]] + lead;
    }
    DropPrefix(lead, LStrip(s));
    TakePrefix(lead, LStrip(s));
  }

  lemma SplitFront<T>(s: seq<T>, a: seq<T>, b: seq<T>)
    requires s != [] && s[1..] == a + b
    ensures s == [s[0]] + a + b
  {
    assert s == [s[0]] + s[1..];
  }

  lemma TakePrefix<T>(a: seq<T>, b: seq<T>)
    ensures (a + b)[..|a + b| - |b|] == a
  {
  }

  lemma {:induction false} RStripRest(s: string) returns (trail: string)
    ensures trail == s[|RStrip(s)|..] && s == RStrip(s) + trail && AllSpace(trail)
  {
    trail := [];
    if s != [] && IsSpace(s[|s| - 1]) {
      trail := RStripRest(s[..|s| - 1]);
      SplitLast(s);
      ConcatAssociative(RStrip(s), trail, [s[|s| - 1]]);
      trail := trail + [s[|s| - 1]];
    }
    DropPrefix(RStrip(s), trail);
  }

  lemma RStripTrims(s: string)
    requires s == [] || !IsSpace(s[0])
    ensures Trimmed(RStrip(s))
  {
    var r := RStrip(s);
    assert r != [] ==> r[0] == s[0];
  }

  lemma StripOfTrimmed(s: string)
    requires Trimmed(s)
    ensures Strip(s) == s
  {
  }

  lemma StripFixpoint(s: string)
    ensures Strip(s) == s <==> Trimmed(s)
  {
    var _, _ := StripTrims(s);
    if Trimmed(s) { StripOfTrimmed(s); }
  }

  /** Stripping is determined by its outcome: white space around a trimmed text. */
  lemma {:induction false} StripUnique(lead: string, body: string, trail: string)
    requires AllSpace(lead) && AllSpace(trail) && Trimmed(body)
    ensures Strip(lead + body + trail) == body
  {
    if lead != [] {
      assert (lead + body + trail)[1..] == lead[1..] + body + trail;
      StripUnique(lead[1..], body, trail);
    } else if body == [] {
      assert lead + body + trail == trail;
      LStripSpaces(trail);
    } else {
      assert lead + body + trail == body + trail;
      assert LStrip(body + trail) == body + trail;
      RStripSpaces(body, trail);
    }
  }

  lemma {:induction false} LStripSpaces(s: string)
    requires AllSpace(s)
    ensures LStrip(s) == []
  {
    if s != [] { LStripSpaces(s[1..]); }
  }

  lemma {:induction false} RStripSpaces(body: string, trail: string)
    requires AllSpace(trail)
    ensures RStrip(body + trail) == RStrip(body)
  {
    if trail == [] {
      assert body + trail == body;
    } else {
      assert (body + trail)[..|body + trail| - 1] == body + trail[..|trail| - 1];
      RStripSpaces(body, trail[..|trail| - 1]);
    }
  }

  lemma Regroup<T>(a: seq<T>, b: seq<T>, c: seq<T>, d: seq<T>, e: seq<T>)
    ensures a + (b + c + d) + e == (a + b) + c + (d + e)
  {
  }

  /** Spaces added or removed around a text do not matter to strip(). */
  lemma StripIgnoresSpaces(lead: string, s: string, trail: string)
    requires AllSpace(lead) && AllSpace(trail)
    ensures Strip(lead + s + trail) == Strip(s)
  {
    var l, t := StripTrims(s);
    Regroup(lead, l, Strip(s), t, trail);
    StripUnique(lead + l, Strip(s), t + trail);
  }

  lemma StripLStrip(s: string)
    ensures Strip(LStrip(s)) == Strip(s)
  {
    var lead := LStripRest(s);
    assert lead + LStrip(s) == lead + LStrip(s) + [];
    StripIgnoresSpaces(lead, LStrip(s), []);
  }

  lemma StripIgnoresTrail(s: string, trail: string)
    requires AllSpace(trail)
    ensures Strip(s + trail) == Strip(s)
  {
    assert [] + s + trail == s + trail;
    StripIgnoresSpaces([], s, trail);
  }

  lemma StripRStrip(s: string)
    ensures Strip(RStrip(s)) == Strip(s)
  {
    var trail := RStripRest(s);
    StripIgnoresTrail(RStrip(s), trail);
  }

  /** str.lower() of one character, exact for every character whose lower case holds an ASCII letter. */
  function LowerChar(c: char): string {
    if 'A' <= c <= 'Z' then [((c as int) + 32) as char]
    else if c == '\U{212A}' then "k"
    else if c == '\U{130}' then "i\U{307}"
    else [c]
  }

  function Lower(s: string): string {
    if s == [] then [] else LowerChar(s[0]) + Lower(s[1..])
  }

  /** The characters whose lower case is this one letter or sign. */
  predicate SameLetter(c: char, small: char) {
    || c == small
    || ('a' <= small <= 'z' && 'A' <= c <= 'Z' && c as int - 'A' as int == small as int - 'a' as int)
    || (small == 'k' && c == '\U{212A}')
  }

  /** The text spells the word in some mixture of cases. */
  predicate Spells(s: string, word: string) {
    |s| == |word| && forall i :: 0 <= i < |s| ==> SameLetter(s[i], word[i])
  }

  /** A word of small ASCII letters and underscores, the last of which is no i: lowering the capital I with
      a dot gives that letter and a mark behind it. */
  predicate Needle(word: string) {
    && (forall i :: 0 <= i < |word| ==> 'a' <= word[i] <= 'z' || word[i] == '_' || word[i] == '.')
    && (word != [] ==> word[|word| - 1] != 'i')
  }

  /** The lowered text starts with the word exactly when the text starts with a spelling of it. */
  lemma {:induction false} LowerStarts(s: string, word: string)
    requires Needle(word)
    ensures word <= Lower(s) <==> |word| <= |s| && Spells(s[..|word|], word)
    decreases |s|
  {
    if word == [] {
      assert Spells(s[..0], word);
    } else if s != [] {
      var rest := word[1..];
      assert Needle(rest);
      assert word == [word[0]] + rest;
      LowerStarts(s[1..], rest);
      StartsLetter(LowerChar(s[0]), Lower(s[1..]), word);
      SpellsTail(s, word);
    }
  }

  lemma StartsLetter(head: string, tail: string, word: string)
    requires head != [] && word != []
    ensures |head| == 1 ==> (word <= head + tail <==> word[0] == head[0] && word[1..] <= tail)
    ensures word <= head + tail ==> word[0] == head[0] && (|head| > 1 && |word| > 1 ==> word[1] == head[1])
  {
    if word <= head + tail {
      assert word[0] == (head + tail)[0];
      assert |word| > 1 ==> word[1] == (head + tail)[1];
    }
    if |head| == 1 {
      assert (head + tail)[1..] == tail;
      assert word[1..] <= tail && word[0] == head[0] ==> word == [word[0]] + word[1..];
    }
  }

  lemma SpellsTail(s: string, word: string)
    requires s != [] && word != []
    ensures |word| <= |s| && Spells(s[..|word|], word) <==>
            SameLetter(s[0], word[0]) && |word| - 1 <= |s[1..]| && Spells(s[1..][..|word| - 1], word[1..])
  {
    if |word| <= |s| {
      assert s[..|word|] == [s[0]] + s[1..][..|word| - 1];
      assert word == [word[0]] + word[1..];
    }
  }

  lemma {:induction false} LowerLength(s: string)
    ensures |Lower(s)| >= |s|
    ensures '\U{130}' !in s ==> |Lower(s)| == |s|
  {
    if s != [] {
      LowerLength(s[1..]);
      SplitHead(s);
    }
  }

  /** The lowered text is the word exactly when the text is a spelling of it. */
  lemma LowerIs(s: string, word: string)
    requires Needle(word)
    ensures Lower(s) == word <==> Spells(s, word)
  {
    LowerStarts(s, word);
    LowerLength(s);
    assert |s| == |word| ==> s[..|word|] == s;
    if Spells(s, word) {
      assert forall i :: 0 <= i < |s| ==> SameLetter(s[i], word[i]);
    }
  }

  /** A window of the text spells the word. */
  predicate SpelledAt(s: string, word: string, i: nat) {
    i + |word| <= |s| && Spells(s[i..i + |word|], word)
  }

  /** The lowered text has the word in it exactly when some window of the text spells it. */
  lemma LowerContains(s: string, word: string)
    requires Needle(word) && word != []
    ensures Contains(Lower(s), word) <==> exists i: nat :: SpelledAt(s, word, i)
  {
    ContainsExactly(Lower(s), word);
    if j: nat :| Occurs(Lower(s), word, j) {
      var i := SpellingAt(s, word, j);
      assert SpelledAt(s, word, i);
    }
    if i: nat :| SpelledAt(s, word, i) {
      SpelledOccurs(s, word, i);
    }
  }

  lemma SpelledOccurs(s: string, word: string, i: nat)
    requires Needle(word) && SpelledAt(s, word, i)
    ensures exists j: nat :: Occurs(Lower(s), word, j)
  {
    var before, window, after := s[..i], s[i..i + |word|], s[i + |word|..];
    assert s == before + (window + after);
    LowerConcat(before, window + after);
    LowerConcat(window, after);
    LowerIs(window, word);
    OccursAfter(Lower(before), word, Lower(after));
  }

  lemma {:induction false} LowerConcat(a: string, b: string)
    ensures Lower(a + b) == Lower(a) + Lower(b)
  {
    if a == [] {
      assert a + b == b;
    } else {
      assert (a + b)[1..] == a[1..] + b;
      LowerConcat(a[1..], b);
      ConcatAssociative(LowerChar(a[0]), Lower(a[1..]), Lower(b));
    }
  }

  /** Where the word stands in the lowered text, a spelling of it stands in the text. */
  lemma {:induction false} SpellingAt(s: string, word: string, j: nat) returns (i: nat)
    requires Needle(word) && word != [] && Occurs(Lower(s), word, j)
    ensures i + |word| <= |s| && Spells(s[i..i + |word|], word)
    decreases |s|
  {
    if j == 0 {
      assert word <= Lower(s);
      LowerStarts(s, word);
      i := 0;
    } else {
      var head, tail := LowerChar(s[0]), Lower(s[1..]);
      assert Lower(s)[j] == word[0];
      assert j >= |head|;
      OccursBehind(head, tail, word, j);
      i := SpellingAt(s[1..], word, j - |head|);
      assert s[i + 1..i + 1 + |word|] == s[1..][i..i + |word|];
      i := i + 1;
    }
  }

  lemma OccursBehind<T>(head: seq<T>, tail: seq<T>, pat: seq<T>, j: nat)
    requires |head| <= j && Occurs(head + tail, pat, j)
    ensures Occurs(tail, pat, j - |head|)
  {
    assert tail[j - |head|..j - |head| + |pat|] == (head + tail)[j..j + |pat|];
  }

  // ----- Decimal numbers -------------------------------------------------------------------------

  predicate IsDigit(c: char) {
    '0' <= c <= '9'
  }

  predicate AllDigits(s: string) {
    forall i :: 0 <= i < |s| ==> IsDigit(s[i])
  }

  function DigitChar(d: nat): (c: char)
    requires d < 10
    ensures IsDigit(c) && (c as int) - ('0' as int) == d
  {
    (d + '0' as int) as char
  }

  function PrintNat(n: nat): (s: string)
    ensures s != [] && AllDigits(s)
  {
    if n < 10 then [DigitChar(n)] else PrintNat(n / 10) + [DigitChar(n % 10)]
  }

  /** int(s) */
  function ParseNat(s: string): nat
    requires AllDigits(s)
  {
    if s == [] then 0 else ParseNat(s[..|s| - 1]) * 10 + (s[|s| - 1] as int - '0' as int)
  }

  lemma {:induction false} ParsePrintNat(n: nat)
    ensures ParseNat(PrintNat(n)) == n
  {
    if n >= 10 {
      ParsePrintNat(n / 10);
      assert PrintNat(n)[..|PrintNat(n)| - 1] == PrintNat(n / 10);
    }
  }

  /** The longest run of digits at the start. */
  function LeadingDigits(s: string): (r: string)
    ensures r <= s && AllDigits(r)
    ensures |r| < |s| ==> !IsDigit(s[|r|])
  {
    if s != [] && IsDigit(s[0]) then [s[0]] + LeadingDigits(s[1..]) else []
  }

  lemma {:induction false} LeadingDigitsOf(digits: string, rest: string)
    requires AllDigits(digits) && (rest == [] || !IsDigit(rest[0]))
    ensures LeadingDigits(digits + rest) == digits
  {
    if digits == [] {
      assert digits + rest == rest;
    } else {
      assert (digits + rest)[1..] == digits[1..] + rest;
      LeadingDigitsOf(digits[1..], rest);
    }
  }
}
