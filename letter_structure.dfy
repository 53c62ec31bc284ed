/**
 * `extract_cover_letter_structure`: the textual summary of the existing
 * cover letters that is put into the prompt. Each letter gets a numbered
 * block; each of its paragraphs (the pieces between blank-line separators
 * `"\n\n"`) gets a numbered line holding its first 100 characters.
 */
module LetterStructure {
  import opened Wrappers
  import opened Strings

  /** The fixed first line of every summary. */
  const Header: string := "Structure commune observée:\n"

  /** The paragraph separator passed to `str.split`. */
  const Separator: string := "\n\n"

  /** How many characters of a paragraph its preview keeps (`para[:100]`). */
  const PreviewLength: nat := 100

  // ---------------------------------------------------------------------
  // `letter.split('\n\n')`

  /** A separator starts at index `i` of `s`. */
  predicate SeparatorAt(s: string, i: int) {
    0 <= i && i + 1 < |s| && s[i] == '\n' && s[i + 1] == '\n'
  }

  predicate NoSeparator(s: string) {
    forall i :: 0 <= i < |s| ==> !SeparatorAt(s, i)
  }

  /** Index of the leftmost separator in `s`, as `str.find` reports it. */
  function FindSeparator(s: string): (k: Option<nat>)
    ensures k.Some? ==> SeparatorAt(s, k.value)
    ensures k.Some? ==> forall i :: 0 <= i < k.value ==> !SeparatorAt(s, i)
    ensures k.None? ==> NoSeparator(s)
    decreases |s|
  {
    if |s| < 2 then None
    else if s[0] == '\n' && s[1] == '\n' then Some(0)
    else
      assert forall i {:trigger SeparatorAt(s[1..], i)} :: SeparatorAt(s[1..], i) <==> SeparatorAt(s, i + 1);
      assert forall i {:trigger SeparatorAt(s, i)} :: SeparatorAt(s, i) ==> i == 0 || SeparatorAt(s[1..], i - 1);
      match FindSeparator(s[1..])
      case None => None
      case Some(k) => Some(k + 1)
  }

  /**
   * `s.split('\n\n')`: cut at the leftmost separator, then go on after it;
   * the part after the last separator is the last piece, so there is always
   * at least one piece and the empty string gives `[""]`.
   */
  function Split(s: string): (pieces: seq<string>)
    ensures |pieces| >= 1
    ensures s == [] ==> pieces == [[]]
    decreases |s|
  {
    match FindSeparator(s)
    case None => [s]
    case Some(k) => [s[..k]] + Split(s[k + 2..])
  }

  /** `'\n\n'.join(pieces)`. */
  function Join(pieces: seq<string>): string
    decreases |pieces|
  {
    if |pieces| == 0 then []
    else if |pieces| == 1 then pieces[0]
    else pieces[0] + Separator + Join(pieces[1..])
  }

  /** Joining the pieces with the separator gives back the letter. */
  lemma {:induction false} JoinSplit(s: string)
    ensures Join(Split(s)) == s
    decreases |s|
  {
    match FindSeparator(s)
    case None =>
    case Some(k) =>
      var tail := s[k + 2..];
      JoinSplit(tail);
      assert Split(s)[1..] == Split(tail);
      assert s == s[..k] + Separator + tail;
  }

  /** No piece contains a separator. */
  lemma {:induction false} SplitPiecesHaveNoSeparator(s: string)
    ensures forall j :: 0 <= j < |Split(s)| ==> NoSeparator(Split(s)[j])
    decreases |s|
  {
    match FindSeparator(s)
    case None =>
    case Some(k) =>
      var head := s[..k];
      forall i ensures !SeparatorAt(head, i) {
        if SeparatorAt(head, i) {
          assert SeparatorAt(s, i);
        }
      }
      SplitPiecesHaveNoSeparator(s[k + 2..]);
      assert Split(s) == [head] + Split(s[k + 2..]);
  }

  /**
   * Every piece but the last ends in something other than a newline: a
   * separator is always taken at its leftmost position.
   */
  lemma {:induction false} SplitPiecesLeftmost(s: string)
    ensures forall j :: 0 <= j < |Split(s)| - 1 ==> Split(s)[j] == [] || Split(s)[j][|Split(s)[j]| - 1] != '\n'
    decreases |s|
  {
    match FindSeparator(s)
    case None =>
    case Some(k) =>
      var head := s[..k];
      assert k > 0 ==> !SeparatorAt(s, k - 1);
      assert head == [] || head[|head| - 1] != '\n';
      SplitPiecesLeftmost(s[k + 2..]);
      assert Split(s) == [head] + Split(s[k + 2..]);
  }

  /** Pieces a split could have produced. */
  predicate SplitShaped(pieces: seq<string>) {
    && |pieces| >= 1
    && (forall j :: 0 <= j < |pieces| ==> NoSeparator(pieces[j]))
    && (forall j :: 0 <= j < |pieces| - 1 ==> pieces[j] == [] || pieces[j][|pieces[j]| - 1] != '\n')
  }

  /**
   * The other round trip: splitting the join of such pieces gives them
   * back, so `Split` is the only decomposition with those properties.
   */
  lemma {:induction false} SplitJoin(pieces: seq<string>)
    requires SplitShaped(pieces)
    ensures Split(Join(pieces)) == pieces
    decreases |pieces|
  {
    var s := Join(pieces);
    var head := pieces[0];
    if |pieces| == 1 {
      assert NoSeparator(head);
    } else {
      var rest := Join(pieces[1..]);
      assert s == head + Separator + rest;
      assert SeparatorAt(s, |head|);
      forall i | 0 <= i < |head| ensures !SeparatorAt(s, i) {
        if i < |head| - 1 {
          assert !SeparatorAt(head, i);
        }
      }
      match FindSeparator(s)
      case None =>
      case Some(k) =>
        assert k == |head|;
        assert s[..k] == head;
        assert s[k + 2..] == rest;
        assert SplitShaped(pieces[1..]) by {
          forall j | 0 <= j < |pieces[1..]| ensures NoSeparator(pieces[1..][j]) {
            assert pieces[1..][j] == pieces[j + 1];
          }
        }
        SplitJoin(pieces[1..]);
    }
  }

  /** `s.count('\n\n')`: non-overlapping occurrences, counted left to right. */
  function CountSeparators(s: string): nat
    decreases |s|
  {
    if |s| < 2 then 0
    else if s[0] == '\n' && s[1] == '\n' then 1 + CountSeparators(s[2..])
    else CountSeparators(s[1..])
  }

  /** Skipping a stretch where no separator starts does not change the count. */
  lemma {:induction false} CountSkip(s: string, k: nat)
    requires k <= |s|
    requires forall i :: 0 <= i < k ==> !SeparatorAt(s, i)
    ensures CountSeparators(s) == CountSeparators(s[k..])
    decreases k
  {
    if k > 0 {
      if |s| >= 2 {
        assert !SeparatorAt(s, 0);
        forall i | 0 <= i < k - 1 ensures !SeparatorAt(s[1..], i) {
          assert !SeparatorAt(s, i + 1);
        }
        CountSkip(s[1..], k - 1);
        assert s[1..][k - 1..] == s[k..];
      }
    }
  }

  /** A letter has one paragraph more than it has separators. */
  lemma {:induction false} SplitCount(s: string)
    ensures |Split(s)| == CountSeparators(s) + 1
    decreases |s|
  {
    match FindSeparator(s)
    case None =>
      CountSkip(s, |s|);
    case Some(k) =>
      CountSkip(s, k);
      assert s[k..][2..] == s[k + 2..];
      SplitCount(s[k + 2..]);
  }

  // ---------------------------------------------------------------------
  // The summary lines.

  /** `para[:100]`: at most the first 100 characters. */
  function Preview(para: string): (r: string)
    ensures r <= para
    ensures |r| <= PreviewLength
    ensures |para| <= PreviewLength ==> r == para
    ensures |para| > PreviewLength ==> |r| == PreviewLength
  {
    if |para| <= PreviewLength then para else para[..PreviewLength]
  }

  /** The line `- Paragraphe j: <preview>...` for paragraph number `j`. */
  function ParagraphLine(j: nat, para: string): string {
    "- Paragraphe " + NatToString(j) + ": " + Preview(para) + "...\n"
  }

  /** A paragraph line holds its label, the number `j` and the preview, each at its place. */
  lemma ParagraphLineLayout(j: nat, para: string)
    ensures var line := ParagraphLine(j, para);
      && |line| == |NatToString(j)| + |Preview(para)| + 19
      && line[..13] == "- Paragraphe "
      && line[13..13 + |NatToString(j)|] == NatToString(j)
      && line[15 + |NatToString(j)|..|line| - 4] == Preview(para)
      && line[|line| - 4..] == "...\n"
  {
    FivePartsAt("- Paragraphe ", NatToString(j), ": ", Preview(para), "...\n");
  }

  /** Where each part of a five-part concatenation sits. */
  lemma FivePartsAt(a: string, b: string, c: string, d: string, e: string)
    ensures var s := a + b + c + d + e;
      && |s| == |a| + |b| + |c| + |d| + |e|
      && s[..|a|] == a
      && s[|a|..|a| + |b|] == b
      && s[|a| + |b| + |c|..|s| - |e|] == d
      && s[|s| - |e|..] == e
  {
  }

  /** The line `Lettre i:` that opens the block of letter number `i`, after a blank line. */
  function LetterHeading(i: nat): string {
    "\nLettre " + NatToString(i) + ":\n"
  }

  /** A letter heading holds the number `i` between its fixed parts. */
  lemma LetterHeadingLayout(i: nat)
    ensures var heading := LetterHeading(i);
      && |heading| == |NatToString(i)| + 10
      && heading[..8] == "\nLettre "
      && heading[8..|heading| - 2] == NatToString(i)
      && heading[|heading| - 2..] == ":\n"
  {
  }

  /** The lines for `paras`, numbered from 1. */
  function ParagraphLines(paras: seq<string>): string
    decreases |paras|
  {
    if paras == [] then []
    else ParagraphLines(paras[..|paras| - 1]) + ParagraphLine(|paras|, paras[|paras| - 1])
  }

  /** The block for letter number `i`. */
  function LetterBlock(i: nat, letter: string): string {
    LetterHeading(i) + ParagraphLines(Split(letter))
  }

  /** The blocks for `letters`, numbered from 1. */
  function LetterBlocks(letters: seq<string>): string
    decreases |letters|
  {
    if letters == [] then []
    else LetterBlocks(letters[..|letters| - 1]) + LetterBlock(|letters|, letters[|letters| - 1])
  }

  /** What `extract_cover_letter_structure` returns. */
  function Structure(letters: seq<string>): (r: string)
    ensures Header <= r
    ensures letters == [] ==> r == Header
  {
    Header + LetterBlocks(letters)
  }

  /**
   * `extract_cover_letter_structure(cover_letters)`: starts from the header
   * and appends, letter by letter and paragraph by paragraph, the heading of
   * each letter and the line of each of its paragraphs.
   */
  method ExtractCoverLetterStructure(coverLetters: seq<string>) returns (structure: string)
    ensures structure == Structure(coverLetters)
  {
    structure := Header;
    var i := 0;
    while i < |coverLetters|
      invariant 0 <= i <= |coverLetters|
      invariant structure == Header + LetterBlocks(coverLetters[..i])
    {
      var letter := coverLetters[i];
      var paragraphs := Split(letter);
      ghost var before := structure;
      structure := structure + LetterHeading(i + 1);
      var j := 0;
      while j < |paragraphs|
        invariant 0 <= j <= |paragraphs|
        invariant structure == before + LetterHeading(i + 1) + ParagraphLines(paragraphs[..j])
      {
        var line := ParagraphLine(j + 1, paragraphs[j]);
        ParagraphLinesStep(paragraphs, j);
        AppendAssociative(before + LetterHeading(i + 1), ParagraphLines(paragraphs[..j]), line);
        structure := structure + line;
        j := j + 1;
      }
      assert paragraphs[..j] == paragraphs;
      LetterBlocksStep(coverLetters, i);
      AppendAssociative(Header, LetterBlocks(coverLetters[..i]), LetterHeading(i + 1));
      AppendAssociative(Header, LetterBlocks(coverLetters[..i]) + LetterHeading(i + 1), ParagraphLines(paragraphs));
      i := i + 1;
    }
    assert coverLetters[..i] == coverLetters;
  }

  lemma AppendAssociative(a: string, b: string, c: string)
    ensures a + b + c == a + (b + c)
  {
  }

  lemma ParagraphLinesStep(paras: seq<string>, j: nat)
    requires j < |paras|
    ensures ParagraphLines(paras[..j + 1]) == ParagraphLines(paras[..j]) + ParagraphLine(j + 1, paras[j])
  {
    assert paras[..j + 1][..j] == paras[..j];
  }

  lemma LetterBlocksStep(letters: seq<string>, i: nat)
    requires i < |letters|
    ensures LetterBlocks(letters[..i + 1]) == LetterBlocks(letters[..i]) + LetterHeading(i + 1) + ParagraphLines(Split(letters[i]))
  {
    assert letters[..i + 1][..i] == letters[..i];
  }

  // ---------------------------------------------------------------------
  // Properties of the summary.

  /** The paragraph lines are line 1, line 2, ... of the paragraphs in order. */
  lemma {:induction false} ParagraphLinesEnumerate(paras: seq<string>)
    ensures ParagraphLines(paras) == Concat(seq(|paras|, j requires 0 <= j < |paras| => ParagraphLine(j + 1, paras[j])))
    decreases |paras|
  {
    if paras != [] {
      var n := |paras| - 1;
      var init := paras[..n];
      var lines := seq(|paras|, j requires 0 <= j < |paras| => ParagraphLine(j + 1, paras[j]));
      var initLines := seq(n, j requires 0 <= j < n => ParagraphLine(j + 1, init[j]));
      ParagraphLinesEnumerate(init);
      assert lines == initLines + [ParagraphLine(n + 1, paras[n])];
      ConcatSnoc(initLines, ParagraphLine(n + 1, paras[n]));
    }
  }

  /** The letter blocks are block 1, block 2, ... of the letters in order. */
  lemma {:induction false} LetterBlocksEnumerate(letters: seq<string>)
    ensures LetterBlocks(letters) == Concat(seq(|letters|, i requires 0 <= i < |letters| => LetterBlock(i + 1, letters[i])))
    decreases |letters|
  {
    if letters != [] {
      var n := |letters| - 1;
      var init := letters[..n];
      var blocks := seq(|letters|, i requires 0 <= i < |letters| => LetterBlock(i + 1, letters[i]));
      var initBlocks := seq(n, i requires 0 <= i < n => LetterBlock(i + 1, init[i]));
      LetterBlocksEnumerate(init);
      assert blocks == initBlocks + [LetterBlock(n + 1, letters[n])];
      ConcatSnoc(initBlocks, LetterBlock(n + 1, letters[n]));
    }
  }

  /**
   * The summary is the header followed by exactly one block per letter,
   * block `i` for the `i`-th letter; a block is the letter's heading followed
   * by one line per paragraph, line `j` for the `j`-th paragraph, and a letter
   * has one paragraph more than it has separators.
   */
  lemma StructureShape(letters: seq<string>)
    ensures Structure(letters) == Header + Concat(seq(|letters|, i requires 0 <= i < |letters| => LetterBlock(i + 1, letters[i])))
    ensures forall i :: 0 <= i < |letters| ==>
      var paras := Split(letters[i]);
      && |paras| == CountSeparators(letters[i]) + 1
      && LetterBlock(i + 1, letters[i]) == LetterHeading(i + 1) + Concat(seq(|paras|, j requires 0 <= j < |paras| => ParagraphLine(j + 1, paras[j])))
  {
    LetterBlocksEnumerate(letters);
    forall i | 0 <= i < |letters|
      ensures
        var paras := Split(letters[i]);
        && |paras| == CountSeparators(letters[i]) + 1
        && LetterBlock(i + 1, letters[i]) == LetterHeading(i + 1) + Concat(seq(|paras|, j requires 0 <= j < |paras| => ParagraphLine(j + 1, paras[j])))
    {
      SplitCount(letters[i]);
      ParagraphLinesEnumerate(Split(letters[i]));
    }
  }

  /** Adding a letter at the end appends its block and leaves the summary before it unchanged. */
  lemma StructureSnoc(letters: seq<string>, letter: string)
    ensures Structure(letters + [letter]) == Structure(letters) + LetterBlock(|letters| + 1, letter)
  {
    assert (letters + [letter])[..|letters|] == letters;
  }

  /** An empty letter still gets one line, with an empty preview. */
  lemma EmptyLetterBlock(i: nat)
    ensures LetterBlock(i, "") == LetterHeading(i) + "- Paragraphe 1: ...\n"
  {
  }

  /** The previews of the paragraphs, in order. */
  function Previews(paras: seq<string>): seq<string> {
    seq(|paras|, j requires 0 <= j < |paras| => Preview(paras[j]))
  }

  /**
   * When no paragraph is longer than the preview, nothing is cut: the
   * previews, joined by the separator, give back the letter.
   */
  lemma ShortParagraphsKeptWhole(letter: string)
    requires forall j :: 0 <= j < |Split(letter)| ==> |Split(letter)[j]| <= PreviewLength
    ensures Join(Previews(Split(letter))) == letter
  {
    var paras := Split(letter);
    assert Previews(paras) == paras;
    JoinSplit(letter);
  }
}
