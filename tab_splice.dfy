/**
 * The text computation of the Tab handler in js/main.js (`n.onkeydown`): with
 * the caret on a space or at the end of the text, the word just before the
 * caret is replaced by an opening and a closing tag of that name, and the
 * caret moves in between them. Every failed check leaves text and caret as
 * they were.
 *
 * The string built-ins the handler uses (`lastIndexOf`, `find` over the
 * characters) are modelled as functions whose contracts state what they find;
 * `OnTab` is the handler's computation, and the lemmas characterise it against
 * an independent description of the word before the caret (`IsWordStart`).
 */
module TabSplice {

  datatype Option<T> = None | Some(value: T)

  /** The handler's outcome: the new text, the new caret, and whether a tag
      was made. */
  datatype Edit = Edit(text: string, caret: nat, applied: bool)

  // ---------------------------------------------------------------------------
  // String built-ins
  // ---------------------------------------------------------------------------

  /** The greatest index below `end` holding `c`, or -1 when there is none. */
  function LastBefore(s: string, c: char, end: nat): (r: int)
    requires end <= |s|
    ensures -1 <= r < end
    ensures r >= 0 ==> s[r] == c
    ensures forall k :: r < k < end ==> s[k] != c
  {
    if end == 0 then -1
    else if s[end - 1] == c then end - 1
    else LastBefore(s, c, end - 1)
  }

  /** `s.lastIndexOf(c, from)` for a one-character `c`: the search starts at
      `from` clamped to the string (a negative `from` still looks at index 0)
      and goes left. */
  function LastIndexOf(s: string, c: char, from: int): (r: int)
    ensures var top := if from < 0 then 0 else from;
      && -1 <= r <= top && r < |s|
      && (r >= 0 ==> s[r] == c)
      && (forall k :: r < k <= top && k < |s| ==> s[k] != c)
  {
    var top := if from < 0 then 0 else from;
    LastBefore(s, c, if top + 1 < |s| then top + 1 else |s|)
  }

  /** `w.split('').find(val => val < bound)`: the first character of `w` below
      `bound`, or nothing when every character is at least `bound`. */
  function FindBelow(w: string, bound: char): (r: Option<char>)
    ensures r == None <==> forall k :: 0 <= k < |w| ==> w[k] >= bound
    ensures r.Some? ==>
      && r.value < bound
      && exists i :: 0 <= i < |w| && w[i] == r.value && forall j :: 0 <= j < i ==> w[j] >= bound
  {
    if w == [] then None
    else if w[0] < bound then Some(w[0])
    else
      var rest := FindBelow(w[1..], bound);
      assert forall k :: 1 <= k < |w| ==> w[k] == w[1..][k - 1];
      assert rest.Some? ==> exists i :: 0 <= i < |w| && w[i] == rest.value && forall j :: 0 <= j < i ==> w[j] >= bound by {
        if rest.Some? {
          var i :| 0 <= i < |w| - 1 && w[1..][i] == rest.value && forall j :: 0 <= j < i ==> w[1..][j] >= bound;
          assert w[i + 1] == rest.value && forall j :: 0 <= j < i + 1 ==> w[j] >= bound;
        }
      }
      rest
  }

  // ---------------------------------------------------------------------------
  // The handler's computation
  // ---------------------------------------------------------------------------

  /** The handler only acts with the caret after at least one character and
      either on a space or at the very end of the text. */
  predicate Eligible(text: string, caret: nat): (b: bool)
    requires caret <= |text|
    ensures b <==> caret > 0 && (text[caret..] == [] || text[caret..][0] == ' ')
  {
    caret > 0 && ((caret < |text| && text[caret] == ' ') || caret == |text|)
  }

  /** An independent description of where the word before the caret starts:
      at the beginning of the text or just after a space, with no space from
      there up to the caret. */
  ghost predicate IsWordStart(text: string, caret: nat, start: nat)
    requires caret <= |text|
  {
    && start <= caret
    && (start == 0 || text[start - 1] == ' ')
    && forall k :: start <= k < caret ==> text[k] != ' '
  }

  /** `prevPos`: one past the last space at or before `caret - 1`, or 0. */
  function SpanStart(text: string, caret: nat): (start: nat)
    requires 0 < caret <= |text|
    ensures IsWordStart(text, caret, start)
  {
    var prev := LastIndexOf(text, ' ', caret - 1);
    if prev == -1 then 0 else prev + 1
  }

  /** The opening and closing tag made from `w`. */
  function Wrap(w: string): (t: string)
    ensures |t| == 2 * |w| + 5
  {
    "<" + w + "></" + w + ">"
  }

  /** The Tab handler on the text and the caret offset. */
  function OnTab(text: string, caret: nat): (r: Edit)
    requires caret <= |text|
    ensures r.caret <= |r.text|
  {
    if Eligible(text, caret) then
      var start := SpanStart(text, caret);
      if start < caret then
        var tag := text[start..caret];
        if FindBelow(tag, 'A') == None then
          Edit(text[..start] + Wrap(tag) + text[caret..], caret + 2, true)
        else
          Edit(text, caret, false)
      else
        Edit(text, caret, false)
    else
      Edit(text, caret, false)
  }

  // ---------------------------------------------------------------------------
  // Lemmas
  // ---------------------------------------------------------------------------

  /** There is only one place the word before the caret can start. */
  lemma WordStartUnique(text: string, caret: nat, s1: nat, s2: nat)
    requires caret <= |text|
    requires IsWordStart(text, caret, s1) && IsWordStart(text, caret, s2)
    ensures s1 == s2
  {
  }

  /** `find` over a slice looks at exactly the characters in that range. */
  lemma NoneBelowInSlice(text: string, start: nat, end: nat, bound: char)
    requires start <= end <= |text|
    ensures FindBelow(text[start..end], bound) == None
            <==> forall k :: start <= k < end ==> text[k] >= bound
  {
    var w := text[start..end];
    assert forall k :: start <= k < end ==> text[k] == w[k - start];
  }

  /** The handler, described without `lastIndexOf`: a tag is made exactly when
      the caret is eligible, the word before it is not empty and none of its
      characters is below 'A'; then the word is replaced by its tags and the
      caret lands after the opening tag. Otherwise nothing changes. */
  lemma OnTabMeaning(text: string, caret: nat, start: nat)
    requires caret <= |text|
    requires IsWordStart(text, caret, start)
    ensures var r := OnTab(text, caret);
      && (r.applied <==>
            Eligible(text, caret) && start < caret
            && forall k :: start <= k < caret ==> text[k] >= 'A')
      && (r.applied ==>
            r.text == text[..start] + Wrap(text[start..caret]) + text[caret..]
            && r.caret == caret + 2)
      && (!r.applied ==> r.text == text && r.caret == caret)
  {
    if Eligible(text, caret) {
      WordStartUnique(text, caret, start, SpanStart(text, caret));
      if start < caret {
        NoneBelowInSlice(text, start, caret, 'A');
      }
    }
  }

  /** No tag when the caret is at 0 or inside a word. */
  lemma IneligibleNoOp(text: string, caret: nat)
    requires caret <= |text|
    requires caret == 0 || (caret < |text| && text[caret] != ' ')
    ensures OnTab(text, caret) == Edit(text, caret, false)
  {
  }

  /** No tag when the caret directly follows a space: the word is empty. */
  lemma EmptyWordNoOp(text: string, caret: nat)
    requires 0 < caret <= |text| && text[caret - 1] == ' '
    ensures OnTab(text, caret) == Edit(text, caret, false)
  {
    OnTabMeaning(text, caret, caret);
  }

  /** No tag when a character of the word is below 'A' (a digit, punctuation,
      a newline). */
  lemma LowCharNoOp(text: string, caret: nat, start: nat, k: nat)
    requires caret <= |text|
    requires IsWordStart(text, caret, start)
    requires start <= k < caret && text[k] < 'A'
    ensures OnTab(text, caret) == Edit(text, caret, false)
  {
    OnTabMeaning(text, caret, start);
  }

  /** The three parts of a concatenation can be sliced back out. */
  lemma SplitThree(a: string, b: string, c: string)
    ensures (a + b + c)[..|a|] == a
    ensures (a + b + c)[|a|..|a| + |b|] == b
    ensures (a + b + c)[|a| + |b|..] == c
    ensures forall i :: 0 <= i <= |c| ==> (a + b + c)[|a| + |b| + i..] == c[i..]
  {
  }

  /** Replacing `text[start..caret]` by its tags keeps what lies around it. */
  lemma SpliceShape(text: string, start: nat, caret: nat)
    requires start <= caret <= |text|
    ensures var t, w := text[..start] + Wrap(text[start..caret]) + text[caret..], text[start..caret];
      && |t| == |text| + |w| + 5
      && caret + 2 < |t|
      && t[..start] == text[..start]
      && t[start..caret + 2] == "<" + w + ">"
      && t[caret + 2..] == "</" + w + ">" + text[caret..]
      && t[|t| - (|text| - caret)..] == text[caret..]
  {
    var w := text[start..caret];
    var before, open, rest := text[..start], "<" + w + ">", "</" + w + ">" + text[caret..];
    assert text[..start] + Wrap(w) + text[caret..] == before + open + rest;
    SplitThree(before, open, rest);
    assert rest[|rest| - (|text| - caret)..] == text[caret..];
  }

  /** After a tag is made: the text before the word and after the caret is
      kept, the word becomes `<w></w>`, the text grows by |w| + 5, and the new
      caret sits right after `<w>`, inside the text. */
  lemma AppliedShape(text: string, caret: nat, start: nat)
    requires caret <= |text|
    requires IsWordStart(text, caret, start)
    requires OnTab(text, caret).applied
    ensures var r := OnTab(text, caret);
      var w := text[start..caret];
      && |r.text| == |text| + |w| + 5
      && r.caret == caret + 2 < |r.text|
      && r.text[..start] == text[..start]
      && r.text[start..r.caret] == "<" + w + ">"
      && r.text[r.caret..] == "</" + w + ">" + text[caret..]
      && r.text[|r.text| - (|text| - caret)..] == text[caret..]
  {
    OnTabMeaning(text, caret, start);
    SpliceShape(text, start, caret);
  }

  /** A second Tab right after a made tag does nothing: the caret now sits on
      the '<' of the closing tag, which is not a space. */
  lemma SecondTabNoOp(text: string, caret: nat)
    requires caret <= |text|
    requires OnTab(text, caret).applied
    ensures var r := OnTab(text, caret);
      OnTab(r.text, r.caret) == Edit(r.text, r.caret, false)
  {
    var start := SpanStart(text, caret);
    AppliedShape(text, caret, start);
    var r := OnTab(text, caret);
    assert r.text[r.caret] == r.text[r.caret..][0] == '<';
  }

  /** A Tab that did nothing, repeated, still does nothing. */
  lemma NoOpRepeats(text: string, caret: nat)
    requires caret <= |text|
    requires !OnTab(text, caret).applied
    ensures var r := OnTab(text, caret);
      OnTab(r.text, r.caret) == r
  {
    var start := if caret == 0 then 0 else SpanStart(text, caret);
    OnTabMeaning(text, caret, start);
  }

  /** The tags made from the page's sample word (js/main.js:430). */
  lemma WrapExample()
    ensures Wrap("asd") == "<asd></asd>"
  {
  }

  // The example lemmas below take the text as a parameter fixed by `requires`
  // rather than as a literal argument: with a literal, the solver unfolds
  // `OnTab` on it too far and runs out of resources.

  /** The word at the end of the text: `"type word"` becomes
      `"type <word></word>"`, with the caret after `<word>`. */
  lemma ExampleAtEnd(text: string)
    requires text == "type " + "word"
    ensures OnTab(text, 9) == Edit("type " + Wrap("word"), 11, true)
  {
    assert text[..5] == "type " && text[5..9] == "word" && text[9..] == "";
    assert text[4] == ' ' && text[5] == 'w' && text[6] == 'o' && text[7] == 'r' && text[8] == 'd';
    OnTabMeaning(text, 9, 5);
  }

  /** A word ending on a space: `"type word"` becomes `"<type></type> word"`. */
  lemma ExampleOnSpace(text: string)
    requires text == "type" + " word"
    ensures OnTab(text, 4) == Edit(Wrap("type") + " word", 6, true)
  {
    assert text[..0] == "" && text[0..4] == "type" && text[4..] == " word";
    assert text[0] == 't' && text[1] == 'y' && text[2] == 'p' && text[3] == 'e' && text[4] == ' ';
    OnTabMeaning(text, 4, 0);
  }

  /** A lowercase word passes: `"asd"` becomes `"<asd></asd>"`. */
  lemma ExampleLowercase(text: string)
    requires text == "asd"
    ensures OnTab(text, 3) == Edit(Wrap("asd"), 5, true)
  {
    assert text[..0] == "" && text[0..3] == "asd" && text[3..] == "";
    assert text[0] == 'a' && text[1] == 's' && text[2] == 'd';
    OnTabMeaning(text, 3, 0);
  }

  /** A caret right after a space, and a word holding a digit. */
  lemma ExamplesNoOp(text1: string, text2: string)
    requires text1 == "hello " && text2 == "x1 cd"
    ensures OnTab(text1, 6) == Edit(text1, 6, false)
    ensures OnTab(text2, 2) == Edit(text2, 2, false)
  {
    EmptyWordNoOp(text1, 6);
    assert text2[1] == '1';
    LowCharNoOp(text2, 2, 0, 1);
  }
}
