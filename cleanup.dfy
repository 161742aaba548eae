/** The post-processing of generated text in `Phi2Model.generate`
    (app/model.py). The tokenizer and the language model are not modelled:
    the decoded continuation is a parameter, `generated`. Each step of the
    clean-up is a function; `Clean` composes them in the source's order and
    `Generate` is the step-by-step method, proved equal to `Clean`. */
module Cleanup {
  import opened Text

  /** Phrases deleted because they would reveal that stored knowledge was used. */
  const Phrases: seq<string> := [
    "I know", "I understand", "I learned", "I remember",
    "Based on", "According to", "From what", "As I recall"
  ]

  /** Speaker labels at which the text is cut. */
  const Labels: seq<string> := [
    "User:", "Human:", "Assistant:", "Question:", "Answer:", "Response:", "Q:", "A:"
  ]

  /** Sentence separators, in the order they are tried. */
  const Separators: seq<string> := [". ", "! ", "? ", "\n"]

  /** The length above which the reply is shortened. */
  const MaxReply := 60

  /** The three canned replies used when too little text is left. */
  const Greeting := "Hello!"
  const OfferHelp := "I can help with that."
  const StandBy := "I'm here to help."

  // ---------------------------------------------------------------- prompt

  /** The text handed to the tokenizer: whatever the retrieved context is,
      both branches that mention it rebuild the prompt alone. */
  method BuildPrompt(prompt: string, context: string) returns (fullPrompt: string)
    ensures fullPrompt == prompt
  {
    if context != [] {
      fullPrompt := prompt;
    } else {
      fullPrompt := prompt;
    }
    if context != [] {
      fullPrompt := prompt;
    }
  }

  // ---------------------------------------------------------------- echoed prompt

  /** The condition under which the echoed prompt is removed: the prompt
      occurs ignoring case, and the text is more than ten characters longer. */
  predicate EchoGuard(cleaned: string, prompt: string) {
    Contains(Lower(cleaned), Lower(prompt)) && |cleaned| > |prompt| + 10
  }

  function RemoveEcho(cleaned: string, prompt: string): string {
    if EchoGuard(cleaned, prompt) then Strip(RemoveAll(cleaned, prompt)) else cleaned
  }

  /** On stripped text, the echo step changes something only when the guard
      holds and the prompt occurs with its exact case: the test ignores case,
      the removal does not. */
  lemma EchoChangesOnlyExactOccurrence(s: string, prompt: string)
    requires Stripped(s)
    ensures RemoveEcho(s, prompt) != s ==> EchoGuard(s, prompt) && prompt != [] && Contains(s, prompt)
  {
    StripUnchangedIff(s);
    if EchoGuard(s, prompt) && prompt != [] && !Contains(s, prompt) {
      RemoveAllUnchangedIff(s, prompt);
    }
  }

  /** When the echo step runs, it keeps exactly the pieces between the
      occurrences of the prompt: the text is those pieces joined by the
      prompt, and no piece still holds the prompt. */
  lemma EchoRemovesEveryOccurrence(s: string, prompt: string)
    requires EchoGuard(s, prompt) && prompt != []
    ensures var pieces := Split(s, prompt);
      && JoinWith(pieces, prompt) == s
      && (forall k :: 0 <= k < |pieces| ==> !Contains(pieces[k], prompt))
      && RemoveEcho(s, prompt) == Strip(Concat(pieces))
  {
    SplitJoin(s, prompt);
    SplitPartsFree(s, prompt);
  }

  // ---------------------------------------------------------------- revealing phrases

  /** The regular-expression anchor `\b` at position `i`: exactly one of the
      neighbouring characters is a word character (outside the string counts
      as a non-word character). */
  predicate AtBoundary(s: string, i: int)
    requires 0 <= i <= |s|
  {
    (i > 0 && IsWordChar(s[i - 1])) != (i < |s| && IsWordChar(s[i]))
  }

  /** The pattern `\b<p>\b` with `re.IGNORECASE` matches at position `i`. */
  predicate WholeWordAt(s: string, p: string, i: int)
    requires 0 <= i <= |s|
  {
    i + |p| <= |s| && Lower(s[i..i + |p|]) == Lower(p) && AtBoundary(s, i) && AtBoundary(s, i + |p|)
  }

  ghost predicate HasWholeWord(s: string, p: string) {
    exists i :: 0 <= i <= |s| && WholeWordAt(s, p, i)
  }

  /** The rest of the `re.sub(r'\b<p>\b', '', s, flags=re.IGNORECASE)` scan
      over `s`, from position `i`: a match is dropped and the scan resumes after it,
      otherwise one character is kept. The anchors look at the original
      text, not at what has been kept. An empty `p` deletes nothing. */
  function DeleteWholeWords(s: string, p: string, i: nat): string
    requires i <= |s|
    decreases |s| - i
  {
    if i == |s| then []
    else if |p| > 0 && WholeWordAt(s, p, i) then DeleteWholeWords(s, p, i + |p|)
    else [s[i]] + DeleteWholeWords(s, p, i + 1)
  }

  /** One iteration of the phrase loop. */
  function RemovePhrase(s: string, phrase: string): string {
    if Contains(Lower(s), Lower(phrase)) then Strip(DeleteWholeWords(s, phrase, 0)) else s
  }

  /** The phrase loop, over the phrases in order. */
  function RemovePhrases(s: string, phrases: seq<string>): string
    decreases |phrases|
  {
    if phrases == [] then s else RemovePhrases(RemovePhrase(s, phrases[0]), phrases[1..])
  }

  lemma {:induction false} DeleteIsSubsequence(s: string, p: string, i: nat)
    requires i <= |s|
    ensures IsSubsequence(DeleteWholeWords(s, p, i), s[i..])
    decreases |s| - i
  {
    if i < |s| {
      if |p| > 0 && WholeWordAt(s, p, i) {
        DeleteIsSubsequence(s, p, i + |p|);
        DeleteSkipsMatch(s, p, i);
      } else {
        DeleteIsSubsequence(s, p, i + 1);
        DeleteKeepsChar(s, p, i);
      }
    }
  }

  lemma DeleteSkipsMatch(s: string, p: string, i: nat)
    requires i <= |s| && |p| > 0 && WholeWordAt(s, p, i)
    requires IsSubsequence(DeleteWholeWords(s, p, i + |p|), s[i + |p|..])
    ensures IsSubsequence(DeleteWholeWords(s, p, i), s[i..])
  {
    var d := DeleteWholeWords(s, p, i + |p|);
    assert DeleteWholeWords(s, p, i) == d;
    assert s[i + |p|..] == s[i..][|p|..];
    SubsequenceOfSuffix(d, s[i..], |p|);
  }

  lemma DeleteKeepsChar(s: string, p: string, i: nat)
    requires i < |s| && !(|p| > 0 && WholeWordAt(s, p, i))
    requires IsSubsequence(DeleteWholeWords(s, p, i + 1), s[i + 1..])
    ensures IsSubsequence(DeleteWholeWords(s, p, i), s[i..])
  {
    var d := DeleteWholeWords(s, p, i + 1);
    assert DeleteWholeWords(s, p, i) == [s[i]] + d;
    assert s[i..] == [s[i]] + s[i + 1..];
    SubsequenceCons(s[i], d, s[i + 1..]);
  }

  lemma {:induction false} DeleteLength(s: string, p: string, i: nat)
    requires i <= |s|
    ensures |DeleteWholeWords(s, p, i)| <= |s| - i
    decreases |s| - i
  {
    if i < |s| {
      if |p| > 0 && WholeWordAt(s, p, i) {
        DeleteLength(s, p, i + |p|);
      } else {
        DeleteLength(s, p, i + 1);
      }
    }
  }

  /** With no whole-word match ahead, the scan keeps the rest verbatim. */
  lemma {:induction false} DeleteWithoutMatch(s: string, p: string, i: nat)
    requires i <= |s|
    requires forall j :: i <= j <= |s| ==> !WholeWordAt(s, p, j)
    ensures DeleteWholeWords(s, p, i) == s[i..]
    decreases |s| - i
  {
    if i < |s| {
      DeleteWithoutMatch(s, p, i + 1);
      assert s[i..] == [s[i]] + s[i + 1..];
    }
  }

  /** If a whole-word match lies ahead of the scan, the scan drops
      something: the first match is never skipped. */
  lemma {:induction false} DeleteWithMatch(s: string, p: string, i: nat, j: nat)
    requires |p| > 0 && i <= j <= |s| && WholeWordAt(s, p, j)
    ensures |DeleteWholeWords(s, p, i)| < |s| - i
    decreases |s| - i
  {
    if WholeWordAt(s, p, i) {
      DeleteLength(s, p, i + |p|);
    } else {
      DeleteWithMatch(s, p, i + 1, j);
    }
  }

  /** The scan keeps the text before the first whole-word match verbatim,
      drops the match, and carries on after it. */
  lemma DeleteFirstMatch(s: string, p: string, i: nat, j: nat)
    requires |p| > 0 && i <= j <= |s| && WholeWordAt(s, p, j)
    requires forall k :: i <= k < j ==> !WholeWordAt(s, p, k)
    ensures DeleteWholeWords(s, p, i) == s[i..j] + DeleteWholeWords(s, p, j + |p|)
  {
    DeleteKeepsRun(s, p, i, j);
    DeleteDrop(s, p, j);
  }

  /** A stretch with no match starting in it is kept as one piece. */
  lemma {:induction false} DeleteKeepsRun(s: string, p: string, a: nat, b: nat)
    requires a <= b <= |s|
    requires forall k :: a <= k < b ==> !(|p| > 0 && WholeWordAt(s, p, k))
    ensures DeleteWholeWords(s, p, a) == s[a..b] + DeleteWholeWords(s, p, b)
    decreases b - a
  {
    if a < b {
      DeleteKeep(s, p, a);
      DeleteKeepsRun(s, p, a + 1, b);
      ConcatAssoc([s[a]], s[a + 1..b], DeleteWholeWords(s, p, b));
      assert [s[a]] + s[a + 1..b] == s[a..b];
    }
  }

  lemma ConcatAssoc(x: string, y: string, z: string)
    ensures x + (y + z) == (x + y) + z
  {
  }

  /** One step of the scan past a position where no match starts. */
  lemma DeleteKeep(s: string, p: string, i: nat)
    requires i < |s| && !(|p| > 0 && WholeWordAt(s, p, i))
    ensures DeleteWholeWords(s, p, i) == [s[i]] + DeleteWholeWords(s, p, i + 1)
  {
  }

  /** One step of the scan over a match. */
  lemma DeleteDrop(s: string, p: string, i: nat)
    requires i <= |s| && |p| > 0 && WholeWordAt(s, p, i)
    ensures DeleteWholeWords(s, p, i) == DeleteWholeWords(s, p, i + |p|)
  {
  }

  /** Every stretch of the text that no match overlaps survives the scan
      as one contiguous piece, wherever the other matches lie. */
  lemma {:induction false} DeleteKeepsSegment(s: string, p: string, i: nat, a: nat, b: nat)
    requires |p| > 0 && i <= a <= b <= |s|
    requires forall k :: i <= k < b && a < k + |p| ==> !WholeWordAt(s, p, k)
    ensures exists u, w :: DeleteWholeWords(s, p, i) == u + s[a..b] + w
    decreases a - i
  {
    if i == a {
      DeleteKeepsRun(s, p, a, b);
      assert DeleteWholeWords(s, p, i) == [] + s[a..b] + DeleteWholeWords(s, p, b);
    } else if WholeWordAt(s, p, i) {
      assert i + |p| <= a;
      DeleteDrop(s, p, i);
      DeleteKeepsSegment(s, p, i + |p|, a, b);
    } else {
      DeleteKeep(s, p, i);
      DeleteKeepsSegment(s, p, i + 1, a, b);
      var u, w :| DeleteWholeWords(s, p, i + 1) == u + s[a..b] + w;
      ConcatAssoc([s[i]], u + s[a..b], w);
      ConcatAssoc([s[i]], u, s[a..b]);
      assert DeleteWholeWords(s, p, i) == ([s[i]] + u) + s[a..b] + w;
    }
  }

  lemma LowerSlice(s: string, a: nat, b: nat)
    requires a <= b <= |s|
    ensures Lower(s[a..b]) == Lower(s)[a..b]
  {
  }

  /** Phrase removal only deletes characters, never inserts them. */
  lemma RemovePhraseIsSubsequence(s: string, phrase: string)
    ensures IsSubsequence(RemovePhrase(s, phrase), s)
  {
    if Contains(Lower(s), Lower(phrase)) {
      var d := DeleteWholeWords(s, phrase, 0);
      DeleteIsSubsequence(s, phrase, 0);
      assert s[0..] == s;
      StripIsSubsequence(d);
      SubsequenceTrans(Strip(d), d, s);
    } else {
      SubsequenceRefl(s);
    }
  }

  /** On stripped text, the step changes the text exactly when the phrase
      occurs as a whole word, ignoring case; text whose only occurrences lie
      inside longer words is left as it is. */
  lemma RemovePhraseUnchangedIff(s: string, phrase: string)
    requires Stripped(s) && |phrase| > 0
    ensures RemovePhrase(s, phrase) == s <==> !HasWholeWord(s, phrase)
  {
    if HasWholeWord(s, phrase) {
      var j :| 0 <= j <= |s| && WholeWordAt(s, phrase, j);
      PhraseMatchShrinks(s, phrase, j);
    } else {
      PhraseNoMatchKeeps(s, phrase);
    }
  }

  lemma PhraseMatchShrinks(s: string, phrase: string, j: nat)
    requires |phrase| > 0 && j <= |s| && WholeWordAt(s, phrase, j)
    ensures |RemovePhrase(s, phrase)| < |s|
  {
    LowerSlice(s, j, j + |phrase|);
    assert OccursAt(Lower(s), Lower(phrase), j);
    DeleteWithMatch(s, phrase, 0, j);
  }

  lemma PhraseNoMatchKeeps(s: string, phrase: string)
    requires Stripped(s) && !HasWholeWord(s, phrase)
    ensures RemovePhrase(s, phrase) == s
  {
    if Contains(Lower(s), Lower(phrase)) {
      assert forall j :: 0 <= j <= |s| ==> !WholeWordAt(s, phrase, j);
      DeleteWithoutMatch(s, phrase, 0);
      assert DeleteWholeWords(s, phrase, 0) == s by {
        assert s[0..] == s;
      }
      StripUnchangedIff(s);
    }
  }

  /** When the first whole-word match is at `j`, the step keeps everything
      before it verbatim, drops it, and scans on after it. */
  lemma RemovePhraseFirstMatch(s: string, phrase: string, j: nat)
    requires |phrase| > 0 && j <= |s| && WholeWordAt(s, phrase, j)
    requires forall k :: 0 <= k < j ==> !WholeWordAt(s, phrase, k)
    ensures RemovePhrase(s, phrase) == Strip(s[..j] + DeleteWholeWords(s, phrase, j + |phrase|))
  {
    LowerSlice(s, j, j + |phrase|);
    assert OccursAt(Lower(s), Lower(phrase), j);
    DeleteFirstMatch(s, phrase, 0, j);
    assert s[0..j] == s[..j];
  }

  /** An occurrence of the phrase that is not a whole word, and that no
      whole-word match overlaps, is kept, even when whole-word matches
      elsewhere in the text are deleted. */
  lemma RemovePhraseKeepsEmbedded(s: string, phrase: string, j: nat)
    requires |phrase| > 0 && IsWordChar(phrase[0]) && IsWordChar(phrase[|phrase| - 1])
    requires j + |phrase| <= |s| && Lower(s[j..j + |phrase|]) == Lower(phrase)
    requires forall k :: 0 <= k <= |s| && j < k + |phrase| && k < j + |phrase| ==> !WholeWordAt(s, phrase, k)
    ensures Contains(RemovePhrase(s, phrase), s[j..j + |phrase|])
  {
    var m := s[j..j + |phrase|];
    if Contains(Lower(s), Lower(phrase)) {
      DeleteKeepsSegment(s, phrase, 0, j, j + |phrase|);
      var u, w :| DeleteWholeWords(s, phrase, 0) == u + m + w;
      assert LowerChar(m[0]) == Lower(m)[0] == LowerChar(phrase[0]);
      assert LowerChar(m[|m| - 1]) == Lower(m)[|m| - 1] == LowerChar(phrase[|phrase| - 1]);
      WordCharLower(m[0], phrase[0]);
      WordCharLower(m[|m| - 1], phrase[|phrase| - 1]);
      StripKeepsInner(u, m, w);
    } else {
      assert OccursAt(s, m, j);
    }
  }

  /** A character whose lower case is that of a word character is one. */
  lemma WordCharLower(c: char, d: char)
    requires LowerChar(c) == LowerChar(d) && IsWordChar(d)
    ensures IsWordChar(c) && !IsSpace(c)
  {
  }

  /** For a phrase that begins and ends with a word character, `\b` reduces
      to "at the start or end of the text, or next to a non-word character". */
  lemma WholeWordNeighbours(s: string, p: string, i: nat)
    requires |p| > 0 && IsWordChar(p[0]) && IsWordChar(p[|p| - 1])
    requires i + |p| <= |s| && Lower(s[i..i + |p|]) == Lower(p)
    ensures WholeWordAt(s, p, i) <==>
      (i == 0 || !IsWordChar(s[i - 1])) && (i + |p| == |s| || !IsWordChar(s[i + |p|]))
  {
    assert LowerChar(s[i]) == Lower(s[i..i + |p|])[0] == LowerChar(p[0]);
    assert LowerChar(s[i + |p| - 1]) == Lower(s[i..i + |p|])[|p| - 1] == LowerChar(p[|p| - 1]);
  }

  /** "I know" inside "I knowledge" is not a whole word, so nothing is
      deleted. */
  lemma EmbeddedPhraseKept()
    ensures RemovePhrase("I knowledge", "I know") == "I knowledge"
  {
    var s := "I knowledge";
    var p := "I know";
    forall i | 0 <= i <= |s|
      ensures !WholeWordAt(s, p, i)
    {
      if i == 0 {
        assert !AtBoundary(s, 6);
      } else if i + |p| <= |s| {
        assert Lower(s[i..i + |p|])[0] == LowerChar(s[i]) != 'i';
      }
    }
    RemovePhraseUnchangedIff(s, p);
  }

  lemma PhrasesAreWordBounded()
    ensures forall k :: 0 <= k < |Phrases| ==>
      |Phrases[k]| > 0 && IsWordChar(Phrases[k][0]) && IsWordChar(Phrases[k][|Phrases[k]| - 1])
  {
  }

  lemma {:induction false} RemovePhrasesIsSubsequence(s: string, phrases: seq<string>)
    ensures IsSubsequence(RemovePhrases(s, phrases), s)
    decreases |phrases|
  {
    if phrases != [] {
      var s' := RemovePhrase(s, phrases[0]);
      RemovePhraseIsSubsequence(s, phrases[0]);
      RemovePhrasesIsSubsequence(s', phrases[1..]);
      assert RemovePhrases(s, phrases) == RemovePhrases(s', phrases[1..]);
      SubsequenceTrans(RemovePhrases(s', phrases[1..]), s', s);
    } else {
      SubsequenceRefl(s);
    }
  }

  lemma {:induction false} RemovePhrasesStripped(s: string, phrases: seq<string>)
    requires Stripped(s)
    ensures Stripped(RemovePhrases(s, phrases))
    decreases |phrases|
  {
    if phrases != [] {
      RemovePhrasesStripped(RemovePhrase(s, phrases[0]), phrases[1..]);
    }
  }

  // ---------------------------------------------------------------- speaker labels

  /** One iteration of the label loop: keep what follows the last
      occurrence of the label. */
  function CutAtLabel(s: string, tag: string): string
    requires |tag| > 0
  {
    if Contains(s, tag) then
      var parts := Split(s, tag);
      if |parts| > 1 then Strip(parts[|parts| - 1]) else Strip(RemoveAll(s, tag))
    else s
  }

  predicate NonEmptyAll(labels: seq<string>) {
    forall k :: 0 <= k < |labels| ==> |labels[k]| > 0
  }

  /** The label loop, over the labels in order. */
  function CutAtLabels(s: string, labels: seq<string>): string
    requires NonEmptyAll(labels)
    decreases |labels|
  {
    if labels == [] then s else CutAtLabels(CutAtLabel(s, labels[0]), labels[1..])
  }

  predicate IsSuffix(t: string, s: string) {
    |t| <= |s| && s[|s| - |t|..] == t
  }

  /** One cut keeps a stripped suffix that no longer holds the label. */
  lemma CutAtLabelSuffix(s: string, tag: string)
    requires Stripped(s) && |tag| > 0
    ensures var r := CutAtLabel(s, tag);
      IsSuffix(r, s) && Stripped(r) && !Contains(r, tag)
  {
    if Contains(s, tag) {
      SplitManyIff(s, tag);
      var parts := Split(s, tag);
      assert CutAtLabel(s, tag) == Strip(parts[|parts| - 1]);
      LastPartSuffix(s, tag);
    }
  }

  lemma LastPartSuffix(s: string, tag: string)
    requires Stripped(s) && |tag| > 0
    ensures var last := Split(s, tag)[|Split(s, tag)| - 1];
      IsSuffix(Strip(last), s) && !Contains(Strip(last), tag)
  {
    var parts := Split(s, tag);
    var last := parts[|parts| - 1];
    SplitLastIsSuffix(s, tag);
    SplitPartsFree(s, tag);
    StripSuffix(s, last);
    StripKeepsAbsence(last, tag);
  }

  /** A label step keeps exactly the text after the last occurrence of the
      label that the left-to-right split finds, stripped; text without the
      label is left as it is. */
  lemma CutAtLabelKeepsLastPart(s: string, tag: string)
    requires |tag| > 0
    ensures !Contains(s, tag) ==> CutAtLabel(s, tag) == s
    ensures Contains(s, tag) ==>
      exists u, t :: s == u + tag + t && !Contains(t, tag) && CutAtLabel(s, tag) == Strip(t)
  {
    if Contains(s, tag) {
      var parts := Split(s, tag);
      var n := |parts|;
      SplitManyIff(s, tag);
      SplitJoin(s, tag);
      SplitPartsFree(s, tag);
      JoinWithLast(parts, tag);
      var u := JoinWith(parts[..n - 1], tag);
      var t := parts[n - 1];
      assert s == u + tag + t;
      assert !Contains(t, tag);
      assert CutAtLabel(s, tag) == Strip(t);
    }
  }

  /** Stripping a suffix of stripped text gives a suffix of that text. */
  lemma StripSuffix(s: string, t: string)
    requires Stripped(s) && IsSuffix(t, s)
    ensures IsSuffix(Strip(t), s)
  {
    assert t == [] || t[|t| - 1] == s[|s| - 1];
    StripKeepsEnd(t);
    var r := Strip(t);
    assert s[|s| - |r|..] == t[|t| - |r|..];
  }

  /** A suffix of a suffix is a suffix. */
  lemma SuffixTrans(r: string, t: string, s: string)
    requires IsSuffix(r, t) && IsSuffix(t, s)
    ensures IsSuffix(r, s)
  {
    assert s[|s| - |r|..] == t[|t| - |r|..];
  }

  /** A suffix of text without a pattern is without it too. */
  lemma SuffixKeepsAbsence(r: string, t: string, p: string)
    requires IsSuffix(r, t) && !Contains(t, p)
    ensures !Contains(r, p)
  {
    NotContainsSlice(t, p, |t| - |r|, |t|);
    assert t[|t| - |r|..|t|] == r;
  }

  /** After the label loop the text is a stripped suffix of its input and
      holds none of the labels. */
  lemma {:induction false} CutAtLabelsSuffix(s: string, labels: seq<string>)
    requires Stripped(s) && NonEmptyAll(labels)
    ensures var r := CutAtLabels(s, labels);
      IsSuffix(r, s) && Stripped(r) && forall k :: 0 <= k < |labels| ==> !Contains(r, labels[k])
    decreases |labels|
  {
    if labels != [] {
      var s' := CutAtLabel(s, labels[0]);
      CutAtLabelSuffix(s, labels[0]);
      var rest := labels[1..];
      CutAtLabelsSuffix(s', rest);
      var r := CutAtLabels(s', rest);
      SuffixTrans(r, s', s);
      SuffixKeepsAbsence(r, s', labels[0]);
      AbsentFromAll(r, labels);
    }
  }

  lemma AbsentFromAll(r: string, labels: seq<string>)
    requires labels != [] && !Contains(r, labels[0])
    requires forall k :: 0 <= k < |labels[1..]| ==> !Contains(r, labels[1..][k])
    ensures forall k :: 0 <= k < |labels| ==> !Contains(r, labels[k])
  {
    forall k | 1 <= k < |labels|
      ensures !Contains(r, labels[k])
    {
      assert labels[k] == labels[1..][k - 1];
    }
  }

  /** The two checks after the label loop (a leading "Assistant:", a
      "Human:" anywhere). */
  function DropFewShotMarkers(s: string): string {
    var t := if StartsWith(s, "Assistant:") then Strip(s[10..]) else s;
    if Contains(t, "Human:") then Strip(Split(t, "Human:")[0]) else t
  }

  /** Text without either label passes the two checks unchanged; after the
      label loop this is always the case. */
  lemma DropFewShotMarkersUnchanged(s: string)
    requires !Contains(s, "Assistant:") && !Contains(s, "Human:")
    ensures DropFewShotMarkers(s) == s
  {
    if StartsWith(s, "Assistant:") {
      assert OccursAt(s, "Assistant:", 0);
    }
  }

  lemma LabelsAreNonEmpty()
    ensures NonEmptyAll(Labels)
    ensures Labels[1] == "Human:" && Labels[2] == "Assistant:"
  {
  }

  // ---------------------------------------------------------------- first sentence

  /** What a separator contributes after the sentence (`sep.strip()`, or a
      full stop for a line break). */
  function Punctuation(sep: string): string {
    if sep != "\n" then Strip(sep) else "."
  }

  /** The stripped text before the first occurrence of `sep`. */
  function Sentence(s: string, sep: string): string
    requires |sep| > 0
  {
    Strip(Split(s, sep)[0])
  }

  /** A separator is taken when it occurs and the sentence before it is
      longer than eight characters. */
  predicate Qualifies(s: string, sep: string)
    requires |sep| > 0
  {
    Contains(s, sep) && |Sentence(s, sep)| > 8
  }

  predicate EndsWithMark(t: string) {
    t != [] && t[|t| - 1] in {'.', '!', '?'}
  }

  /** The fallback of the separator loop: the first sixty characters,
      stripped, closed by a full stop unless they already end with one of
      `.`, `!`, `?`. */
  function Truncate(s: string): (r: string)
    ensures 1 <= |r| <= MaxReply + 1 && EndsWithMark(r)
    ensures var t := Strip(if |s| <= MaxReply then s else s[..MaxReply]);
      (r == t || r == t + ".") && (EndsWithMark(t) ==> r == t)
  {
    var t := Strip(if |s| <= MaxReply then s else s[..MaxReply]);
    if EndsWithMark(t) then t else t + "."
  }

  /** The separator loop, trying `seps` in order. */
  function FirstSentence(s: string, seps: seq<string>): string
    requires NonEmptyAll(seps)
    decreases |seps|
  {
    if seps == [] then Truncate(s)
    else if Qualifies(s, seps[0]) then Sentence(s, seps[0]) + Punctuation(seps[0])
    else FirstSentence(s, seps[1..])
  }

  lemma SeparatorsAreNonEmpty()
    ensures NonEmptyAll(Separators)
  {
  }

  /** Shortening of a reply longer than sixty characters. */
  function Shorten(s: string): string {
    SeparatorsAreNonEmpty();
    if |s| > MaxReply then FirstSentence(s, Separators) else s
  }

  lemma {:induction false} FirstSentenceAt(s: string, seps: seq<string>, k: nat)
    requires NonEmptyAll(seps) && k < |seps|
    requires Qualifies(s, seps[k]) && forall j :: 0 <= j < k ==> !Qualifies(s, seps[j])
    ensures FirstSentence(s, seps) == Sentence(s, seps[k]) + Punctuation(seps[k])
    decreases k
  {
    if k > 0 {
      assert !Qualifies(s, seps[0]);
      FirstSentenceAt(s, seps[1..], k - 1);
    }
  }

  lemma {:induction false} FirstSentenceNone(s: string, seps: seq<string>)
    requires NonEmptyAll(seps)
    requires forall j :: 0 <= j < |seps| ==> !Qualifies(s, seps[j])
    ensures FirstSentence(s, seps) == Truncate(s)
    decreases |seps|
  {
    if seps != [] {
      assert !Qualifies(s, seps[0]);
      FirstSentenceNone(s, seps[1..]);
    }
  }

  /** Separators are tried in the fixed order `". "`, `"! "`, `"? "`, line
      break: the first one whose sentence is longer than eight characters
      wins, and the reply is that sentence followed by the separator's mark. */
  lemma ShortenFirstQualifyingWins(s: string, k: nat)
    requires |s| > MaxReply && k < |Separators|
    requires Qualifies(s, Separators[k]) && forall j :: 0 <= j < k ==> !Qualifies(s, Separators[j])
    ensures Shorten(s) == Sentence(s, Separators[k]) + Punctuation(Separators[k])
  {
    FirstSentenceAt(s, Separators, k);
  }

  /** When no separator qualifies the reply is the truncated text, at most
      sixty-one characters long. */
  lemma ShortenNoSeparator(s: string)
    requires |s| > MaxReply
    requires forall j :: 0 <= j < |Separators| ==> !Qualifies(s, Separators[j])
    ensures Shorten(s) == Truncate(s) && |Shorten(s)| <= MaxReply + 1
  {
    FirstSentenceNone(s, Separators);
  }

  /** Shortening never lengthens the text. */
  lemma {:induction false} FirstSentenceNotLonger(s: string, seps: seq<string>)
    requires |s| > MaxReply && NonEmptyAll(seps)
    requires forall j :: 0 <= j < |seps| ==> |Punctuation(seps[j])| <= |seps[j]|
    ensures |FirstSentence(s, seps)| <= |s|
    decreases |seps|
  {
    if seps != [] {
      if Qualifies(s, seps[0]) {
        var parts := Split(s, seps[0]);
        SplitManyIff(s, seps[0]);
        SplitJoin(s, seps[0]);
        assert s == parts[0] + seps[0] + JoinWith(parts[1..], seps[0]);
      } else {
        FirstSentenceNotLonger(s, seps[1..]);
      }
    }
  }

  lemma ShortenNotLonger(s: string)
    ensures |Shorten(s)| <= |s|
  {
    if |s| > MaxReply {
      SeparatorsAreNonEmpty();
      PunctuationMarks();
      FirstSentenceNotLonger(s, Separators);
    }
  }

  /** The line-break separator never applies: the collapse before it
      leaves no line break in the text. */
  lemma LineBreakNeverQualifies(s: string)
    requires SingleSpaced(s)
    ensures !Qualifies(s, Separators[3])
  {
    assert Separators[3] == "\n";
  }

  lemma ShortenKeepsShort(s: string)
    requires |s| <= MaxReply
    ensures Shorten(s) == s
  {
  }

  /** Stripping a slice of text in normal form stays in normal form. */
  lemma StripSliceSingleSpaced(s: string, lo: nat, hi: nat)
    requires SingleSpaced(s) && lo <= hi <= |s|
    ensures SingleSpaced(Strip(s[lo..hi]))
  {
    var u := s[lo..hi];
    var a := LeadingSpace(u);
    var r := Strip(u);
    SliceOfSlice(s, lo, hi, a, a + |r|);
    StrippedSliceSingleSpaced(s, lo + a, lo + a + |r|);
  }

  /** A slice of text in normal form that neither begins nor ends with
      whitespace is in normal form. */
  lemma StrippedSliceSingleSpaced(s: string, lo: nat, hi: nat)
    requires SingleSpaced(s) && lo <= hi <= |s| && Stripped(s[lo..hi])
    ensures SingleSpaced(s[lo..hi])
  {
    var r := s[lo..hi];
    forall i | 0 <= i < |r| && IsSpace(r[i])
      ensures r[i] == ' ' && 0 < i < |r| - 1 && !IsSpace(r[i + 1])
    {
      assert r[i] == s[lo + i];
      assert i != 0 && i != |r| - 1;
      assert r[i + 1] == s[lo + i + 1];
    }
  }

  lemma AppendMarkSingleSpaced(t: string, mark: string)
    requires SingleSpaced(t) && IsMark(mark)
    ensures SingleSpaced(t + mark)
  {
    var r := t + mark;
    forall i | 0 <= i < |r| && IsSpace(r[i])
      ensures r[i] == ' ' && 0 < i < |r| - 1 && !IsSpace(r[i + 1])
    {
      assert i < |t| && r[i] == t[i];
    }
  }

  lemma {:induction false} FirstSentenceSingleSpaced(s: string, seps: seq<string>)
    requires SingleSpaced(s) && NonEmptyAll(seps)
    requires forall j :: 0 <= j < |seps| ==> IsMark(Punctuation(seps[j]))
    ensures SingleSpaced(FirstSentence(s, seps))
    decreases |seps|
  {
    if seps == [] {
      var n := if |s| <= MaxReply then |s| else MaxReply;
      assert (if |s| <= MaxReply then s else s[..MaxReply]) == s[0..n];
      StripSliceSingleSpaced(s, 0, n);
      var t := Strip(s[0..n]);
      if !EndsWithMark(t) {
        AppendMarkSingleSpaced(t, ".");
      }
    } else if Qualifies(s, seps[0]) {
      var first := Split(s, seps[0])[0];
      SplitFirstIsPrefix(s, seps[0]);
      assert first == s[0..|first|];
      StripSliceSingleSpaced(s, 0, |first|);
      AppendMarkSingleSpaced(Sentence(s, seps[0]), Punctuation(seps[0]));
    } else {
      FirstSentenceSingleSpaced(s, seps[1..]);
    }
  }

  /** A single character other than whitespace. */
  predicate IsMark(m: string) {
    |m| == 1 && !IsSpace(m[0])
  }

  /** The marks the separators contribute: `.`, `!`, `?`, and `.` for a
      line break. */
  lemma PunctuationMarks()
    ensures Punctuation(Separators[0]) == "." && Punctuation(Separators[1]) == "!"
    ensures Punctuation(Separators[2]) == "?" && Punctuation(Separators[3]) == "."
    ensures forall j :: 0 <= j < |Separators| ==> IsMark(Punctuation(Separators[j]))
  {
    FullStopMark();
    ExclamationMark();
    QuestionMark();
    LineBreakMark();
    forall j | 0 <= j < |Separators|
      ensures IsMark(Punctuation(Separators[j]))
    {
      MarkAt(j);
    }
  }

  /** The mark of the separator at index `j` is one non-space character. */
  lemma MarkAt(j: nat)
    requires j < |Separators|
    ensures IsMark(Punctuation(Separators[j]))
  {
    if j == 0 {
      FullStopMark();
    } else if j == 1 {
      ExclamationMark();
    } else if j == 2 {
      QuestionMark();
    } else {
      LineBreakMark();
    }
  }

  lemma LineBreakMark()
    ensures Punctuation(Separators[3]) == "."
  {
    assert Separators[3] == "\n";
  }

  lemma FullStopMark()
    ensures Punctuation(Separators[0]) == "."
  {
    assert Separators[0] == ['.', ' '];
    StripMark('.');
  }

  lemma ExclamationMark()
    ensures Punctuation(Separators[1]) == "!"
  {
    assert Separators[1] == ['!', ' '];
    StripMark('!');
  }

  lemma QuestionMark()
    ensures Punctuation(Separators[2]) == "?"
  {
    assert Separators[2] == ['?', ' '];
    StripMark('?');
  }

  /** A mark followed by a space contributes the mark. */
  lemma StripMark(c: char)
    requires !IsSpace(c)
    ensures Punctuation([c, ' ']) == [c]
  {
    var s := [c, ' '];
    assert s != "\n";
    assert LeadingSpace(s) == 0;
    assert s[0..] == s;
    assert TrailingSpace(s) == 1 by {
      assert s[..1] == [c];
    }
  }

  /** Shortening keeps the whitespace normal form. */
  lemma ShortenSingleSpaced(s: string)
    requires SingleSpaced(s)
    ensures SingleSpaced(Shorten(s))
  {
    if |s| > MaxReply {
      SeparatorsAreNonEmpty();
      PunctuationMarks();
      FirstSentenceSingleSpaced(s, Separators);
    }
  }

  // ---------------------------------------------------------------- fallback

  predicate IsGreeting(prompt: string) {
    var lower := Lower(prompt);
    Contains(lower, "hi") || Contains(lower, "hello") || Contains(lower, "hey")
  }

  /** The reply when fewer than five characters are left. */
  function Fallback(s: string, prompt: string): (r: string)
    ensures |r| >= 5
    ensures |s| >= 5 ==> r == s
    ensures |s| < 5 ==> r in {Greeting, OfferHelp, StandBy}
  {
    if s == [] || |s| < 5 then
      if IsGreeting(prompt) then Greeting
      else if Contains(prompt, "?") then OfferHelp
      else StandBy
    else s
  }

  /** Which canned reply replaces a too-short text is decided by the prompt
      alone: a greeting first, then a question mark. */
  lemma FallbackChoice(s: string, prompt: string)
    requires |s| < 5
    ensures Fallback(s, prompt) == Greeting <==> IsGreeting(prompt)
    ensures Fallback(s, prompt) == OfferHelp <==> !IsGreeting(prompt) && Contains(prompt, "?")
    ensures Fallback(s, prompt) == StandBy <==> !IsGreeting(prompt) && !Contains(prompt, "?")
  {
  }

  lemma CannedRepliesSingleSpaced()
    ensures SingleSpaced(Greeting) && SingleSpaced(OfferHelp) && SingleSpaced(StandBy)
  {
    GreetingSingleSpaced();
    OfferHelpSingleSpaced();
    StandBySingleSpaced();
  }

  lemma GreetingSingleSpaced()
    ensures SingleSpaced(Greeting)
  {
  }

  lemma OfferHelpSingleSpaced()
    ensures SingleSpaced(OfferHelp)
  {
    var s := OfferHelp;
    forall i | 0 <= i < |s| && IsSpace(s[i])
      ensures s[i] == ' ' && 0 < i < |s| - 1 && !IsSpace(s[i + 1])
    {
      assert i == 1 || i == 5 || i == 10 || i == 15;
    }
  }

  lemma StandBySingleSpaced()
    ensures SingleSpaced(StandBy)
  {
    var s := StandBy;
    forall i | 0 <= i < |s| && IsSpace(s[i])
      ensures s[i] == ' ' && 0 < i < |s| - 1 && !IsSpace(s[i + 1])
    {
      assert i == 3 || i == 8 || i == 11;
    }
  }

  // ---------------------------------------------------------------- the whole clean-up

  /** The text after the label loop, before the whitespace collapse. */
  function CleanBeforeCollapse(generated: string, prompt: string): string {
    LabelsAreNonEmpty();
    var stripped := Strip(generated);
    var unechoed := RemoveEcho(stripped, prompt);
    var unrevealed := RemovePhrases(unechoed, Phrases);
    var unlabelled := CutAtLabels(unrevealed, Labels);
    DropFewShotMarkers(unlabelled)
  }

  /** The response `Phi2Model.generate` returns for the decoded continuation
      `generated` of `prompt`. */
  function Clean(generated: string, prompt: string): string {
    Fallback(Shorten(Collapse(CleanBeforeCollapse(generated, prompt))), prompt)
  }

  /** After the label loop the text holds none of the labels and is a suffix
      of the text after the phrase loop, so the "Assistant:" and "Human:"
      checks never change it. */
  lemma LabelStageProperties(generated: string, prompt: string)
    ensures NonEmptyAll(Labels)
    ensures var unrevealed := RemovePhrases(RemoveEcho(Strip(generated), prompt), Phrases);
      var unlabelled := CutAtLabels(unrevealed, Labels);
      && IsSuffix(unlabelled, unrevealed)
      && (forall k :: 0 <= k < |Labels| ==> !Contains(unlabelled, Labels[k]))
      && CleanBeforeCollapse(generated, prompt) == unlabelled
  {
    LabelsAreNonEmpty();
    var unechoed := RemoveEcho(Strip(generated), prompt);
    RemovePhrasesStripped(unechoed, Phrases);
    var unrevealed := RemovePhrases(unechoed, Phrases);
    CutAtLabelsSuffix(unrevealed, Labels);
    var unlabelled := CutAtLabels(unrevealed, Labels);
    assert !Contains(unlabelled, Labels[1]) && !Contains(unlabelled, Labels[2]);
    DropFewShotMarkersUnchanged(unlabelled);
  }

  /** Every response is at least five characters long and in whitespace
      normal form: no leading or trailing whitespace, no two adjacent
      spaces, no line break. */
  lemma CleanNormalForm(generated: string, prompt: string)
    ensures var r := Clean(generated, prompt);
      && |r| >= 5
      && SingleSpaced(r)
      && Stripped(r)
      && (forall i :: 0 <= i < |r| ==> r[i] != '\n')
      && (forall i :: 0 <= i < |r| - 1 ==> !(r[i] == ' ' && r[i + 1] == ' '))
  {
    var collapsed := Collapse(CleanBeforeCollapse(generated, prompt));
    CollapseSingleSpaced(CleanBeforeCollapse(generated, prompt));
    ShortenSingleSpaced(collapsed);
    CannedRepliesSingleSpaced();
    var r := Clean(generated, prompt);
    assert SingleSpaced(r);
    SingleSpacedIsStripped(r);
  }

  // ---------------------------------------------------------------- the method

  /** The clean-up of `Phi2Model.generate`, step by step as the source
      reassigns its local `cleaned`; the three loops are the methods below.
      `generated` stands for the decoded output of the language model for
      `fullPrompt`. */
  method Generate(prompt: string, context: string, generated: string)
    returns (fullPrompt: string, response: string)
    ensures fullPrompt == prompt
    ensures response == Clean(generated, prompt)
    ensures |response| >= 5 && SingleSpaced(response)
  {
    fullPrompt := BuildPrompt(prompt, context);

    var cleaned := Strip(generated);
    if Contains(Lower(cleaned), Lower(prompt)) && |cleaned| > |prompt| + 10 {
      cleaned := Strip(RemoveAll(cleaned, prompt));
    }
    cleaned := RemoveRevealingPhrases(cleaned);
    cleaned := CutAtSpeakerLabels(cleaned);
    cleaned := DropFewShotMarkers(cleaned);
    assert cleaned == CleanBeforeCollapse(generated, prompt);

    cleaned := JoinWith(Words(cleaned), " ");
    cleaned := ShortenReply(cleaned);
    cleaned := Fallback(cleaned, prompt);

    response := cleaned;
    CleanNormalForm(generated, prompt);
  }

  /** The phrase loop (app/model.py:146-150). */
  method RemoveRevealingPhrases(text: string) returns (cleaned: string)
    ensures cleaned == RemovePhrases(text, Phrases)
  {
    cleaned := text;
    var i := 0;
    while i < |Phrases|
      invariant 0 <= i <= |Phrases|
      invariant RemovePhrases(cleaned, Phrases[i..]) == RemovePhrases(text, Phrases)
    {
      var phrase := Phrases[i];
      RemovePhrasesStep(cleaned, Phrases, i);
      if Contains(Lower(cleaned), Lower(phrase)) {
        cleaned := Strip(DeleteWholeWords(cleaned, phrase, 0));
      }
      i := i + 1;
    }
    assert Phrases[i..] == [];
  }

  /** The label loop (app/model.py:153-159). */
  method CutAtSpeakerLabels(text: string) returns (cleaned: string)
    ensures NonEmptyAll(Labels) && cleaned == CutAtLabels(text, Labels)
  {
    LabelsAreNonEmpty();
    cleaned := text;
    var j := 0;
    while j < |Labels|
      invariant 0 <= j <= |Labels|
      invariant CutAtLabels(cleaned, Labels[j..]) == CutAtLabels(text, Labels)
    {
      var tag := Labels[j];
      CutAtLabelsStep(cleaned, Labels, j);
      if Contains(cleaned, tag) {
        var parts := Split(cleaned, tag);
        if |parts| > 1 {
          cleaned := Strip(parts[|parts| - 1]);
        } else {
          cleaned := Strip(RemoveAll(cleaned, tag));
        }
      }
      j := j + 1;
    }
    assert Labels[j..] == [];
  }

  /** The first-sentence loop with its `else` clause (app/model.py:171-181). */
  method ShortenReply(text: string) returns (cleaned: string)
    ensures cleaned == Shorten(text)
  {
    SeparatorsAreNonEmpty();
    cleaned := text;
    if |cleaned| > MaxReply {
      var found := false;
      var k := 0;
      while k < |Separators|
        invariant 0 <= k <= |Separators|
        invariant !found && cleaned == text
        invariant FirstSentence(text, Separators[k..]) == FirstSentence(text, Separators)
      {
        var sep := Separators[k];
        FirstSentenceStep(text, Separators, k);
        if Contains(cleaned, sep) {
          var firstPart := Strip(Split(cleaned, sep)[0]);
          if |firstPart| > 8 {
            cleaned := firstPart + (if sep != "\n" then Strip(sep) else ".");
            found := true;
            break;
          }
        }
        k := k + 1;
      }
      if !found {
        assert Separators[k..] == [];
        cleaned := Strip(cleaned[..MaxReply]);
        if !EndsWithMark(cleaned) {
          cleaned := cleaned + ".";
        }
      }
    }
  }

  lemma RemovePhrasesStep(s: string, phrases: seq<string>, i: nat)
    requires i < |phrases|
    ensures RemovePhrases(s, phrases[i..]) == RemovePhrases(RemovePhrase(s, phrases[i]), phrases[i + 1..])
  {
    assert phrases[i..][1..] == phrases[i + 1..];
  }

  lemma CutAtLabelsStep(s: string, labels: seq<string>, j: nat)
    requires NonEmptyAll(labels) && j < |labels|
    ensures NonEmptyAll(labels[j + 1..])
    ensures CutAtLabels(s, labels[j..]) == CutAtLabels(CutAtLabel(s, labels[j]), labels[j + 1..])
  {
    assert labels[j..][1..] == labels[j + 1..];
  }

  lemma FirstSentenceStep(s: string, seps: seq<string>, k: nat)
    requires NonEmptyAll(seps) && k < |seps|
    ensures NonEmptyAll(seps[k + 1..])
    ensures FirstSentence(s, seps[k..]) ==
      if Qualifies(s, seps[k]) then Sentence(s, seps[k]) + Punctuation(seps[k])
      else FirstSentence(s, seps[k + 1..])
  {
    assert seps[k..][1..] == seps[k + 1..];
  }
}
