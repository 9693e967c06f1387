/** Redaction of audit arguments: sanitize_args and _sanitize_value of audit.py. */
module Redaction {
  import opened Sequences
  import opened Text
  import Utf8

  /** A text of the client: code points, among which lone surrogates may be. */
  type Points = seq<Utf8.CodePoint>

  /** The text in characters. No name that is looked for has a surrogate in it, so that any other
      such character can stand for one. */
  function Chars(s: Points): string {
    seq(|s|, i requires 0 <= i < |s| => if Utf8.IsSurrogate(s[i]) then '\U{FFFD}' else s[i] as char)
  }

  function PointsOf(s: string): Points {
    seq(|s|, i requires 0 <= i < |s| => s[i] as Utf8.CodePoint)
  }

  lemma CharsOfPoints(s: string)
    ensures Chars(PointsOf(s)) == s && Utf8.IsScalarText(PointsOf(s))
  {
  }

  /** Every character but the stand-in is the code point itself. */
  lemma CharsFaithful(s: Points)
    ensures |Chars(s)| == |s|
    ensures forall i :: 0 <= i < |s| ==>
              if 0xD800 <= s[i] <= 0xDFFF then Chars(s)[i] == '\U{FFFD}' else Chars(s)[i] as int == s[i]
  {
  }

  /** A JSON-like argument. Numbers, booleans and null carry nothing that is redacted. */
  datatype Value =
    | Dict(entries: map<Points, Value>)
    | List(items: seq<Value>)
    | Tuple(items: seq<Value>)
    | Str(text: Points)
    | Scalar(n: int)

  const REDACTED := "<redacted>"
  const REDACTED_PATH := "<redacted-path>"

  const REDACT_KEY_SUBSTRINGS: set<string> :=
    {"token", "password", "passwd", "secret", "api_key", "apikey", "private_key"}

  const REDACT_PATH_SEGMENTS: set<string> :=
    {".env", "secrets", "credentials", ".aws", ".ssh", ".gnupg", ".kube", ".docker"}

  predicate IsRedactKey(key: Points) {
    exists sub | sub in REDACT_KEY_SUBSTRINGS :: Contains(Lower(Chars(key)), sub)
  }

  predicate IsAsciiLetter(c: char) {
    'a' <= c <= 'z' || 'A' <= c <= 'Z'
  }

  /** The pattern ^(/|\.{0,2}/|~/|[a-zA-Z]:[\\/]) */
  predicate LooksLikePath(s: string) {
    || "/" <= s || "./" <= s || "../" <= s || "~/" <= s
    || StartsWithDrive(s)
  }

  predicate StartsWithDrive(s: string) {
    |s| >= 3 && IsAsciiLetter(s[0]) && s[1] == ':' && s[2] in {'\\', '/'}
  }

  /** Path(value).parts holds the slash-separated components, save empty ones and dots. */
  predicate PathHasSecretSegment(s: Points) {
    LooksLikePath(Chars(s)) && HasSecretSegment(Chars(s))
  }

  predicate HasSecretSegment(s: string) {
    exists seg | seg in Split(s, '/') :: seg in REDACT_PATH_SEGMENTS
  }

  function SanitizeText(s: Points): Points {
    if PathHasSecretSegment(s) then PointsOf(REDACTED_PATH) else s
  }

  const PLACEHOLDER := Str(PointsOf(REDACTED))

  /** _sanitize_value */
  function Sanitize(v: Value): Value {
    match v
    case Dict(entries) =>
      Dict(map k | k in entries :: if IsRedactKey(k) then PLACEHOLDER else Sanitize(entries[k]))
    case List(items) => List(seq(|items|, i requires 0 <= i < |items| => Sanitize(items[i])))
    case Tuple(items) => Tuple(seq(|items|, i requires 0 <= i < |items| => Sanitize(items[i])))
    case Str(text) => Str(SanitizeText(text))
    case Scalar(_) => v
  }

  /** What stands in the place of a secret. */
  lemma PlaceholderTexts(text: Points)
    ensures PLACEHOLDER.Str? && Chars(PLACEHOLDER.text) == "<redacted>"
    ensures PathHasSecretSegment(text) ==> Chars(SanitizeText(text)) == "<redacted-path>"
  {
    CharsOfPoints("<redacted>");
    CharsOfPoints("<redacted-path>");
  }

  /** What one entry of a mapping becomes. */
  function SanitizeEntry(key: Points, v: Value): Value {
    if IsRedactKey(key) then PLACEHOLDER else Sanitize(v)
  }

  lemma SanitizedEntries(args: map<Points, Value>, out: map<Points, Value>)
    requires out.Keys == args.Keys && forall k :: k in out ==> out[k] == SanitizeEntry(k, args[k])
    ensures Dict(out) == Sanitize(Dict(args))
  {
    assert out == Sanitize(Dict(args)).entries;
  }

  /** The loop of sanitize_args over one mapping. */
  method SanitizeArgs(args: map<Points, Value>) returns (out: map<Points, Value>)
    ensures Dict(out) == Sanitize(Dict(args))
  {
    out := map[];
    var left := args.Keys;
    while left != {}
      invariant left <= args.Keys
      invariant out.Keys == args.Keys - left
      invariant forall k :: k in out ==> out[k] == SanitizeEntry(k, args[k])
      decreases left
    {
      var k :| k in left;
      left := left - {k};
      if IsRedactKey(k) {
        out := out[k := PLACEHOLDER];
        continue;
      }
      out := out[k := Sanitize(args[k])];
    }
    SanitizedEntries(args, out);
  }

  // ----- What redaction guarantees ---------------------------------------------------------------

  /** Nothing secret is left: at every depth a sensitive key holds only the placeholder, and no
      other string is a path with a secret segment. */
  predicate Clean(v: Value) {
    match v
    case Dict(entries) =>
      forall k :: k in entries ==> if IsRedactKey(k) then entries[k] == PLACEHOLDER else Clean(entries[k])
    case List(items) => forall i :: 0 <= i < |items| ==> Clean(items[i])
    case Tuple(items) => forall i :: 0 <= i < |items| ==> Clean(items[i])
    case Str(text) => !PathHasSecretSegment(text)
    case Scalar(_) => true
  }

  lemma PlaceholdersAreNoPaths()
    ensures !LooksLikePath(Chars(PointsOf(REDACTED))) && !LooksLikePath(Chars(PointsOf(REDACTED_PATH)))
  {
    CharsOfPoints(REDACTED);
    CharsOfPoints(REDACTED_PATH);
    assert REDACTED[0] == '<' && REDACTED_PATH[0] == '<';
  }

  /** The result of redaction is clean. */
  lemma {:induction false} SanitizeCleans(v: Value)
    ensures Clean(Sanitize(v))
  {
    match v
    case Dict(entries) =>
      forall k | k in entries ensures !IsRedactKey(k) ==> Clean(Sanitize(entries[k])) {
        SanitizeCleans(entries[k]);
      }
    case List(items) =>
      forall i | 0 <= i < |items| ensures Clean(Sanitize(items[i])) { SanitizeCleans(items[i]); }
    case Tuple(items) =>
      forall i | 0 <= i < |items| ensures Clean(Sanitize(items[i])) { SanitizeCleans(items[i]); }
    case Str(text) => PlaceholdersAreNoPaths();
    case Scalar(_) =>
  }

  /** Redaction leaves a value alone exactly when it is clean. */
  lemma {:induction false} SanitizeFixesClean(v: Value)
    ensures Sanitize(v) == v <==> Clean(v)
  {
    SanitizeCleans(v);
    if Clean(v) { CleanStays(v); }
  }

  lemma {:induction false} CleanStays(v: Value)
    requires Clean(v)
    ensures Sanitize(v) == v
  {
    match v
    case Dict(entries) =>
      forall k | k in entries ensures SanitizeEntry(k, entries[k]) == entries[k] {
        if !IsRedactKey(k) { CleanStays(entries[k]); }
      }
      SanitizedEntries(entries, entries);
    case List(items) =>
      forall i | 0 <= i < |items| ensures Sanitize(items[i]) == items[i] { CleanStays(items[i]); }
      assert Sanitize(v).items == items;
    case Tuple(items) =>
      forall i | 0 <= i < |items| ensures Sanitize(items[i]) == items[i] { CleanStays(items[i]); }
      assert Sanitize(v).items == items;
    case Str(_) =>
    case Scalar(_) =>
  }

  lemma {:induction false} SanitizeIdempotent(v: Value)
    ensures Sanitize(Sanitize(v)) == Sanitize(v)
  {
    SanitizeCleans(v);
    SanitizeFixesClean(Sanitize(v));
  }

  // ----- Nothing else changes --------------------------------------------------------------------

  datatype Step = Key(key: Points) | Index(index: nat)

  datatype Found = Absent | Present(value: Value)

  function Child(v: Value, step: Step): Found {
    match (v, step)
    case (Dict(entries), Key(k)) => if k in entries then Present(entries[k]) else Absent
    case (List(items), Index(i)) => if i < |items| then Present(items[i]) else Absent
    case (Tuple(items), Index(i)) => if i < |items| then Present(items[i]) else Absent
    case _ => Absent
  }

  /** What stands at a position inside a value. */
  function Lookup(v: Value, path: seq<Step>): Found {
    if path == [] then Present(v)
    else
      match Child(v, path[0])
      case Absent => Absent
      case Present(child) => Lookup(child, path[1..])
  }

  predicate Redacts(step: Step) {
    step.Key? && IsRedactKey(step.key)
  }

  /** The same positions exist before and after redaction, except below a sensitive key; and what
      stands at a position that no sensitive key leads to is the redaction of what stood there. */
  lemma {:induction false} SanitizeInPlace(v: Value, path: seq<Step>)
    requires forall i :: 0 <= i < |path| ==> !Redacts(path[i])
    ensures Lookup(Sanitize(v), path) ==
            match Lookup(v, path) case Absent => Absent case Present(x) => Present(Sanitize(x))
    decreases |path|
  {
    if path != [] {
      var before, after := Child(v, path[0]), Child(Sanitize(v), path[0]);
      assert after == match before case Absent => Absent case Present(x) => Present(Sanitize(x));
      if before.Present? { SanitizeInPlace(before.value, path[1..]); }
    }
  }

  /** Under the first sensitive key on the way stands the placeholder, and nothing below it. */
  lemma {:induction false} RedactedPosition(v: Value, path: seq<Step>, key: Points, below: seq<Step>)
    requires forall i :: 0 <= i < |path| ==> !Redacts(path[i])
    requires IsRedactKey(key) && Lookup(v, path + [Key(key)]).Present?
    ensures Lookup(Sanitize(v), path + [Key(key)]) == Present(PLACEHOLDER)
    ensures below != [] ==> Lookup(Sanitize(v), path + [Key(key)] + below) == Absent
  {
    var step := [Key(key)];
    LookupConcat(v, path, step);
    SanitizeInPlace(v, path);
    RedactedChild(Lookup(v, path).value, key);
    PlaceholderAt(Sanitize(v), path, step, Lookup(Sanitize(v), path).value);
    if below != [] { NothingBelow(Sanitize(v), path + step, below); }
  }

  lemma PlaceholderAt(v: Value, path: seq<Step>, step: seq<Step>, child: Value)
    requires Lookup(v, path) == Present(child) && Lookup(child, step) == Present(PLACEHOLDER)
    ensures Lookup(v, path + step) == Present(PLACEHOLDER)
  {
    LookupConcat(v, path, step);
  }

  lemma NothingBelow(v: Value, path: seq<Step>, below: seq<Step>)
    requires Lookup(v, path) == Present(PLACEHOLDER) && below != []
    ensures Lookup(v, path + below) == Absent
  {
    LookupConcat(v, path, below);
  }

  lemma RedactedChild(v: Value, key: Points)
    requires IsRedactKey(key) && Lookup(v, [Key(key)]).Present?
    ensures Lookup(Sanitize(v), [Key(key)]) == Present(PLACEHOLDER)
  {
    assert [Key(key)][1..] == [];
    assert Child(v, Key(key)).Present?;
  }

  lemma {:induction false} LookupConcat(v: Value, a: seq<Step>, b: seq<Step>)
    ensures Lookup(v, a + b) ==
            match Lookup(v, a) case Absent => Absent case Present(x) => Lookup(x, b)
    decreases |a|
  {
    if a == [] {
      assert a + b == b;
    } else {
      assert (a + b)[0] == a[0] && (a + b)[1..] == a[1..] + b;
      match Child(v, a[0])
      case Absent =>
      case Present(child) => LookupConcat(child, a[1..], b);
    }
  }

  /** Key sets and lengths: redaction keeps them at every level above a redacted subtree. */
  lemma SanitizeKeepsShape(v: Value)
    ensures v.Dict? ==> Sanitize(v).Dict? && Sanitize(v).entries.Keys == v.entries.Keys
    ensures v.List? ==> Sanitize(v).List? && |Sanitize(v).items| == |v.items|
    ensures v.Tuple? ==> Sanitize(v).Tuple? && |Sanitize(v).items| == |v.items|
    ensures v.Str? ==> Sanitize(v).Str? && (Sanitize(v) == v || PathHasSecretSegment(v.text))
    ensures v.Scalar? ==> Sanitize(v) == v
  {
    if v.Str? && PathHasSecretSegment(v.text) { PlaceholdersAreNoPaths(); }
  }

  // ----- Which keys are redacted -----------------------------------------------------------------

  /** A key is sensitive exactly when one of the words stands somewhere in it, in any mixture of cases. */
  lemma RedactKeyExactly(key: Points)
    ensures IsRedactKey(key) <==>
              exists word, i: nat ::
                && word in {"token", "password", "passwd", "secret", "api_key", "apikey", "private_key"}
                && SpelledAt(Chars(key), word, i)
  {
    forall word | word in REDACT_KEY_SUBSTRINGS
      ensures Contains(Lower(Chars(key)), word) <==> exists i: nat :: SpelledAt(Chars(key), word, i)
    {
      KeyWordIsNeedle(word);
      LowerContains(Chars(key), word);
    }
  }

  lemma KeyWordIsNeedle(word: string)
    requires word in REDACT_KEY_SUBSTRINGS
    ensures Needle(word) && word != []
  {
  }

  // ----- Which paths are redacted ----------------------------------------------------------------

  /** The first of several components is empty, one dot, two dots or a tilde. */
  predicate Anchored(s: string) {
    |Split(s, '/')| > 1 && Split(s, '/')[0] in {"", ".", "..", "~"}
  }

  lemma AnchoredBy(s: string, first: string)
    requires '/' !in first
    ensures |Split(s, '/')| > 1 && Split(s, '/')[0] == first <==> first + ['/'] <= s
  {
    var i := IndexOf(s, '/');
    if first + ['/'] <= s {
      assert s == first + ['/'] + s[|first| + 1..];
      SplitFirst(first, '/', s[|first| + 1..]);
    }
    if i < |s| && s[..i] == first {
      assert s[..i + 1] == first + ['/'];
    }
  }

  lemma LooksLikePathExactly(s: string)
    ensures LooksLikePath(s) <==>
              || Anchored(s)
              || (|s| > 2 && ('a' <= s[0] <= 'z' || 'A' <= s[0] <= 'Z') && s[1] == ':' && (s[2] == '/' || s[2] == '\\'))
  {
    AnchoredBy(s, "");
    AnchoredBy(s, ".");
    AnchoredBy(s, "..");
    AnchoredBy(s, "~");
    assert "" + ['/'] == "/" && "." + ['/'] == "./" && ".." + ['/'] == "../" && "~" + ['/'] == "~/";
  }

  /** A segment is secret when, between slashes or the ends of the text, it is one of the listed names. */
  lemma SecretSegmentExactly(s: string)
    ensures HasSecretSegment(s) <==>
              exists name, i: nat ::
                && name in {".env", "secrets", "credentials", ".aws", ".ssh", ".gnupg", ".kube", ".docker"}
                && PartAt(s, '/', name, i)
  {
    forall name ensures name in Split(s, '/') <==> HasPart(s, '/', name) {
      SplitParts(s, '/', name);
    }
  }

  /** Not every path with a secret segment is redacted: of all texts, exactly those that have one and
      start with the root, a dot, two dots, a tilde or a drive. */
  lemma PathRedactedExactly(s: Points)
    ensures SanitizeText(s) != s <==>
            HasSecretSegment(Chars(s)) && (Anchored(Chars(s)) || StartsWithDrive(Chars(s)))
  {
    LooksLikePathExactly(Chars(s));
    PlaceholdersAreNoPaths();
  }

  /** A path relative to its project, the usual argument of a tool, is not among them. */
  lemma RelativePathKept()
    ensures var path := PointsOf("config/.env");
            HasSecretSegment(Chars(path)) && Sanitize(Str(path)) == Str(path)
  {
    var path := "config/.env";
    CharsOfPoints(path);
    assert "config" + ['/'] + ".env" == path;
    SegmentBehind("config", ".env");
    PlainStart(path);
  }

  lemma SegmentBehind(dir: string, name: string)
    requires '/' !in dir && '/' !in name && name in REDACT_PATH_SEGMENTS
    ensures HasSecretSegment(dir + ['/'] + name)
  {
    SplitFirst(dir, '/', name);
    SplitJoin([name], '/');
    assert ([dir] + [name])[1] == name;
  }

  lemma PlainStart(s: string)
    requires |s| > 1 && IsAsciiLetter(s[0]) && s[1] != ':'
    ensures !LooksLikePath(s)
  {
  }

  // ----- Texts that can be written ---------------------------------------------------------------

  /** Every text of the value can be encoded: none has a lone surrogate. */
  predicate ScalarValue(v: Value) {
    match v
    case Dict(entries) => forall k :: k in entries ==> Utf8.IsScalarText(k) && ScalarValue(entries[k])
    case List(items) => forall i :: 0 <= i < |items| ==> ScalarValue(items[i])
    case Tuple(items) => forall i :: 0 <= i < |items| ==> ScalarValue(items[i])
    case Str(text) => Utf8.IsScalarText(text)
    case Scalar(_) => true
  }

  /** Every text that redaction lets through can be encoded. */
  predicate Loggable(v: Value) {
    match v
    case Dict(entries) =>
      forall k :: k in entries ==> Utf8.IsScalarText(k) && (IsRedactKey(k) || Loggable(entries[k]))
    case List(items) => forall i :: 0 <= i < |items| ==> Loggable(items[i])
    case Tuple(items) => forall i :: 0 <= i < |items| ==> Loggable(items[i])
    case Str(text) => Utf8.IsScalarText(text) || PathHasSecretSegment(text)
    case Scalar(_) => true
  }

  /** What can be encoded after redaction, told before it: a surrogate below a sensitive key or in a
      path with a secret segment is gone, any other is still there. */
  lemma {:induction false} SanitizeIsScalar(v: Value)
    ensures ScalarValue(Sanitize(v)) <==> Loggable(v)
  {
    match v
    case Dict(entries) =>
      CharsOfPoints(REDACTED);
      var out := Sanitize(v).entries;
      forall k | k in entries
        ensures ScalarValue(out[k]) <==> IsRedactKey(k) || Loggable(entries[k])
      {
        if !IsRedactKey(k) { SanitizeIsScalar(entries[k]); }
      }
    case List(items) =>
      forall i | 0 <= i < |items| ensures ScalarValue(Sanitize(items[i])) <==> Loggable(items[i]) {
        SanitizeIsScalar(items[i]);
      }
      assert forall i :: 0 <= i < |items| ==> Sanitize(v).items[i] == Sanitize(items[i]);
    case Tuple(items) =>
      forall i | 0 <= i < |items| ensures ScalarValue(Sanitize(items[i])) <==> Loggable(items[i]) {
        SanitizeIsScalar(items[i]);
      }
      assert forall i :: 0 <= i < |items| ==> Sanitize(v).items[i] == Sanitize(items[i]);
    case Str(text) => CharsOfPoints(REDACTED_PATH);
    case Scalar(_) =>
  }
}
