/** apply_patch of tools/filesystem.py: the literal replacement of a text in a UTF-8 file. */
module Patch {
  import opened Sequences
  import opened Utf8

  const BINARY_SNIFF_BYTES := 8 * 1024

  // ----- str.count and str.replace ---------------------------------------------------------------

  /** text.count(old) */
  function Count<T(==)>(text: seq<T>, pat: seq<T>): nat
    decreases |text|
  {
    if pat == [] then |text| + 1
    else
      var i := Find(text, pat, 0);
      if i > |text| then 0 else 1 + Count(text[i + |pat|..], pat)
  }

  /** text.replace(old, new); an empty `pat` puts `sub` before every element and at the end. */
  function Replace<T(==)>(text: seq<T>, pat: seq<T>, sub: seq<T>): seq<T>
    decreases |text|
  {
    if pat == [] then
      if text == [] then sub else sub + [text[0]] + Replace(text[1..], pat, sub)
    else
      var i := Find(text, pat, 0);
      if i > |text| then text else text[..i] + sub + Replace(text[i + |pat|..], pat, sub)
  }

  // ----- What is replaced ------------------------------------------------------------------------

  function Singles<T>(text: seq<T>): seq<seq<T>> {
    seq(|text|, i requires 0 <= i < |text| => [text[i]])
  }

  /** The parts of `text` between the replaced occurrences. */
  function Pieces<T(==)>(text: seq<T>, pat: seq<T>): (pieces: seq<seq<T>>)
    ensures pieces != []
    decreases |text|
  {
    if pat == [] then [[]] + Singles(text) + [[]]
    else
      var i := Find(text, pat, 0);
      if i > |text| then [text] else [text[..i]] + Pieces(text[i + |pat|..], pat)
  }

  lemma {:induction false} SinglesJoin<T>(text: seq<T>, sub: seq<T>)
    ensures Join([[]] + Singles(text) + [[]], sub) == Replace(text, [], sub)
  {
    if text == [] {
      assert [[]] + Singles(text) + [[]] == [[], []];
      JoinCons([], [[]], sub);
      assert Join([[]], sub) == [] && [] + sub + [] == sub;
    } else {
      var rest := Singles(text[1..]) + [[]];
      SinglesJoin(text[1..], sub);
      assert [[]] + Singles(text[1..]) + [[]] == [[]] + rest;
      JoinCons([], rest, sub);
      assert [[]] + Singles(text) + [[]] == [[]] + ([[text[0]]] + rest);
      JoinCons([], [[text[0]]] + rest, sub);
      JoinCons([text[0]], rest, sub);
      assert [] + sub + Join(rest, sub) == sub + Join(rest, sub);
      assert [] + sub + ([text[0]] + sub + Join(rest, sub)) == sub + [text[0]] + (sub + Join(rest, sub));
    }
  }

  lemma {:induction false} ReplaceEmptyByEmpty<T>(text: seq<T>)
    ensures Replace(text, [], []) == text
  {
    if text != [] {
      ReplaceEmptyByEmpty(text[1..]);
      assert [] + [text[0]] + text[1..] == text;
    }
  }

  /** Replacement swaps the separator between fixed pieces and touches nothing else; the pieces
      number one more than the reported count. */
  lemma {:induction false} ReplaceSwapsSeparators<T>(text: seq<T>, pat: seq<T>, sub: seq<T>)
    ensures var pieces := Pieces(text, pat);
            && |pieces| == Count(text, pat) + 1
            && Join(pieces, pat) == text
            && Join(pieces, sub) == Replace(text, pat, sub)
    decreases |text|
  {
    if pat == [] {
      EmptySwaps(text, sub);
    } else if Find(text, pat, 0) <= |text| {
      ReplaceSwapsSeparators(text[Find(text, pat, 0) + |pat|..], pat, sub);
      SwapsStep(text, pat, sub);
    }
  }

  lemma EmptySwaps<T>(text: seq<T>, sub: seq<T>)
    ensures var pieces := Pieces(text, []);
            && |pieces| == Count(text, []) + 1
            && Join(pieces, []) == text
            && Join(pieces, sub) == Replace(text, [], sub)
  {
    SinglesJoin(text, sub);
    SinglesJoin(text, []);
    ReplaceEmptyByEmpty(text);
  }

  lemma AroundOccurrence<T>(text: seq<T>, pat: seq<T>, i: nat)
    requires Occurs(text, pat, i)
    ensures text == text[..i] + pat + text[i + |pat|..]
  {
  }

  lemma SwapsStep<T>(text: seq<T>, pat: seq<T>, sub: seq<T>)
    requires pat != [] && Find(text, pat, 0) <= |text|
    requires var rest := text[Find(text, pat, 0) + |pat|..];
             && |Pieces(rest, pat)| == Count(rest, pat) + 1
             && Join(Pieces(rest, pat), pat) == rest
             && Join(Pieces(rest, pat), sub) == Replace(rest, pat, sub)
    ensures var pieces := Pieces(text, pat);
            && |pieces| == Count(text, pat) + 1
            && Join(pieces, pat) == text
            && Join(pieces, sub) == Replace(text, pat, sub)
  {
    var i := Find(text, pat, 0);
    var parts := Pieces(text[i + |pat|..], pat);
    JoinCons(text[..i], parts, pat);
    JoinCons(text[..i], parts, sub);
    AroundOccurrence(text, pat, i);
  }

  /** Each replaced occurrence is the leftmost one of what is left, and none is left at the end. */
  lemma {:induction false} PiecesAreLeftmost<T>(text: seq<T>, pat: seq<T>, k: nat, i: nat)
    requires pat != []
    requires k < |Pieces(text, pat)|
    requires k < |Pieces(text, pat)| - 1 ==> i < |Pieces(text, pat)[k]|
    ensures !Occurs(Join(Pieces(text, pat)[k..], pat), pat, i)
    decreases |text|
  {
    var pieces := Pieces(text, pat);
    var first := Find(text, pat, 0);
    if k == 0 {
      ReplaceSwapsSeparators(text, pat, pat);
      assert pieces[0..] == pieces;
      if first <= |text| {
        assert |pieces| > 1;
        assert i < first;
      }
    } else {
      assert pieces[k..] == Pieces(text[first + |pat|..], pat)[k - 1..];
      PiecesAreLeftmost(text[first + |pat|..], pat, k - 1, i);
    }
  }

  /** No way to cut the text at non-overlapping occurrences of `pat` has more of them. */
  lemma {:induction false} CountIsMaximal<T>(text: seq<T>, pat: seq<T>, parts: seq<seq<T>>)
    requires pat != [] && parts != []
    requires Join(parts, pat) == text
    ensures |parts| - 1 <= Count(text, pat)
    decreases |text|
  {
    if |parts| > 1 {
      var at := |parts[0]|;
      CutAtSecond(parts, pat);
      assert Occurs(text, pat, at);
      var i := Find(text, pat, 0);
      // what follows the leftmost occurrence: the shifted end of parts[0], then the other parts
      var shifted := text[i + |pat|..at + |pat|];
      JoinPrepend(shifted, parts[1..], pat);
      TakeDrop(text, i + |pat|, at + |pat|);
      CountIsMaximal(text[i + |pat|..], pat, [shifted + parts[1]] + parts[1..][1..]);
    }
  }

  lemma CutAtSecond<T>(parts: seq<seq<T>>, sep: seq<T>)
    requires |parts| > 1
    ensures var text := Join(parts, sep); var end := |parts[0]| + |sep|;
            end <= |text| && text[|parts[0]|..end] == sep && text[end..] == Join(parts[1..], sep)
  {
  }

  lemma TakeDrop<T>(s: seq<T>, i: nat, j: nat)
    requires i <= j <= |s|
    ensures s[i..] == s[i..j] + s[j..]
  {
  }

  // ----- The bytes of the file -------------------------------------------------------------------

  function EncodeAll(parts: seq<seq<CodePoint>>): (all: seq<seq<Byte>>)
    ensures |all| == |parts|
  {
    seq(|parts|, i requires 0 <= i < |parts| => Encode(parts[i]))
  }

  lemma {:induction false} EncodeJoin(parts: seq<seq<CodePoint>>, sep: seq<CodePoint>)
    ensures Encode(Join(parts, sep)) == Join(EncodeAll(parts), Encode(sep))
  {
    if |parts| > 1 {
      EncodeJoin(parts[1..], sep);
      assert EncodeAll(parts)[1..] == EncodeAll(parts[1..]);
      EncodeConcat(parts[0] + sep, Join(parts[1..], sep));
      EncodeConcat(parts[0], sep);
    }
  }

  /** In bytes as in text, only the separators change, and the size changes by that much. */
  lemma ReplaceBytes(text: seq<CodePoint>, pat: seq<CodePoint>, sub: seq<CodePoint>)
    ensures var kept := EncodeAll(Pieces(text, pat));
            && |kept| == Count(text, pat) + 1
            && Encode(text) == Join(kept, Encode(pat))
            && Encode(Replace(text, pat, sub)) == Join(kept, Encode(sub))
    ensures |Encode(Replace(text, pat, sub))| ==
            |Encode(text)| + Count(text, pat) * (|Encode(sub)| - |Encode(pat)|)
  {
    var kept := EncodeAll(Pieces(text, pat));
    ReplaceSwapsSeparators(text, pat, sub);
    EncodeJoin(Pieces(text, pat), pat);
    EncodeJoin(Pieces(text, pat), sub);
    JoinDifference(kept, Encode(pat), Encode(sub));
  }

  // ----- The tool --------------------------------------------------------------------------------

  datatype Node = Absent | Directory | Regular(data: seq<Byte>)

  datatype PatchResult =
    | Patched(occurrencesReplaced: nat, bytesBefore: nat, bytesAfter: nat)
    | WriteNotAllowed
    | IdenticalTexts
    | FileNotFound
    | IsADirectory
    | BinaryFile
    | UnicodeDecodeError
    | OldNotFound
    | UnicodeEncodeError

  predicate LooksBinary(data: seq<Byte>) {
    0 in if |data| <= BINARY_SNIFF_BYTES then data else data[..BINARY_SNIFF_BYTES]
  }

  /** A file counts as binary exactly when there is a zero among its first 8192 bytes. */
  lemma BinaryExactly(data: seq<Byte>)
    ensures LooksBinary(data) <==> exists i :: 0 <= i < |data| && i < 8192 && data[i] == 0
  {
    var head := if |data| <= 8192 then data else data[..8192];
    assert forall i :: 0 <= i < |head| ==> head[i] == data[i];
  }

  /** A path that resolve_within accepted, in a project that may be read-only. */
  class ProjectFile {
    const writeEnabled: bool
    var node: Node

    constructor (writeEnabled: bool, node: Node)
      ensures this.writeEnabled == writeEnabled && this.node == node
    {
      this.writeEnabled := writeEnabled;
      this.node := node;
    }

    ghost predicate Opened(pat: seq<CodePoint>, sub: seq<CodePoint>)
      reads this
    {
      writeEnabled && pat != sub && node.Regular?
    }

    ghost predicate Readable(pat: seq<CodePoint>, sub: seq<CodePoint>)
      reads this
    {
      Opened(pat, sub) && !LooksBinary(node.data) && DecodeStrict(node.data).Text?
    }

    /** On success the new file is the old one with exactly `occurrencesReplaced` separators
        swapped between fixed runs of bytes; on every failure the file is as it was. */
    method ApplyPatch(pat: seq<CodePoint>, sub: seq<CodePoint>) returns (r: PatchResult)
      modifies this
      ensures !r.Patched? ==> node == old(node)
      ensures r.WriteNotAllowed? <==> !writeEnabled
      ensures r.IdenticalTexts? <==> writeEnabled && pat == sub
      ensures r.FileNotFound? <==> writeEnabled && pat != sub && old(node).Absent?
      ensures r.IsADirectory? <==> writeEnabled && pat != sub && old(node).Directory?
      ensures r.BinaryFile? <==> old(Opened(pat, sub)) && LooksBinary(old(node).data)
      ensures r.UnicodeDecodeError? <==>
              old(Opened(pat, sub)) && !LooksBinary(old(node).data) && DecodeStrict(old(node).data).DecodeError?
      ensures r.OldNotFound? <==> old(Readable(pat, sub)) && !Contains(DecodeStrict(old(node).data).text, pat)
      ensures r.UnicodeEncodeError? <==>
              old(Readable(pat, sub)) && Contains(DecodeStrict(old(node).data).text, pat) && !IsScalarText(sub)
      ensures r.Patched? ==>
                && old(Readable(pat, sub)) && node.Regular?
                && var before := DecodeStrict(old(node).data).text;
                   var kept := EncodeAll(Pieces(before, pat));
                && |kept| == r.occurrencesReplaced + 1 > 1
                && old(node).data == Join(kept, Encode(pat))
                && node.data == Join(kept, Encode(sub))
                && DecodeStrict(node.data) == Text(Replace(before, pat, sub))
      ensures r.Patched? ==>
                && r.bytesBefore == |old(node).data| && r.bytesAfter == |node.data|
                && r.bytesAfter == r.bytesBefore + r.occurrencesReplaced * (|Encode(sub)| - |Encode(pat)|)
    {
      if !writeEnabled {
        return WriteNotAllowed;
      }
      if pat == sub {
        return IdenticalTexts;
      }
      match node {
        case Absent => return FileNotFound;
        case Directory => return IsADirectory;
        case Regular(_) =>
      }
      var dataBefore := node.data;
      if LooksBinary(dataBefore) {
        return BinaryFile;
      }
      var decoded := DecodeStrict(dataBefore);
      if decoded.DecodeError? {
        return UnicodeDecodeError;
      }
      var textBefore := decoded.text;
      var occurrences := Count(textBefore, pat);
      if occurrences == 0 {
        return OldNotFound;
      }
      var textAfter := Replace(textBefore, pat, sub);
      StrictDecodesEncodings(dataBefore);
      ReplaceBytes(textBefore, pat, sub);
      ReplaceScalars(textBefore, pat, sub);
      if !IsScalarText(textAfter) {
        return UnicodeEncodeError;
      }
      var dataAfter := Encode(textAfter);
      StrictRoundTrip(textAfter);
      node := Regular(dataAfter);
      return Patched(occurrences, |dataBefore|, |dataAfter|);
    }
  }

  /** The patched text can be encoded exactly when the replacement can. */
  lemma {:induction false} ReplaceScalars(text: seq<CodePoint>, pat: seq<CodePoint>, sub: seq<CodePoint>)
    requires IsScalarText(text)
    ensures Count(text, pat) > 0 ==> (IsScalarText(Replace(text, pat, sub)) <==> IsScalarText(sub))
    ensures IsScalarText(sub) ==> IsScalarText(Replace(text, pat, sub))
    decreases |text|
  {
    if pat == [] {
      if text != [] {
        ReplaceScalars(text[1..], pat, sub);
        ScalarConcat(sub + [text[0]], Replace(text[1..], pat, sub));
        ScalarConcat(sub, [text[0]]);
      }
    } else {
      var i := Find(text, pat, 0);
      if i <= |text| {
        var rest := text[i + |pat|..];
        ReplaceScalars(rest, pat, sub);
        ScalarConcat(text[..i] + sub, Replace(rest, pat, sub));
        ScalarConcat(text[..i], sub);
      }
    }
  }

  lemma ScalarConcat(a: seq<CodePoint>, b: seq<CodePoint>)
    ensures IsScalarText(a + b) <==> IsScalarText(a) && IsScalarText(b)
  {
    assert forall i :: 0 <= i < |a| ==> (a + b)[i] == a[i];
    assert forall i :: 0 <= i < |b| ==> b[i] == (a + b)[|a| + i];
  }
}
