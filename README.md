# Heading/paragraph collector and word-to-tag splice

A verified model of the two algorithms in `js/main.js` of a small teaching
page.

- **`tagCollect`** (module `TagCollect`, `tag_collect.dfy`) walks a tree of
  tagged elements depth-first in pre-order. An element whose tag is exactly
  `P` goes to `paragraphs`. Any other element whose first two characters are
  `H` followed by `1`..`6` goes to `headings`. The children of every element
  are visited. The closure's two arrays are the fields of a `Collector` object.
  `Collector.Collect` models `collect`, and `Collector.CollectChildren` models
  the `forEach` over the children. Both are proved to append exactly the filter
  `Pick` of the tree's pre-order flattening `Preorder`. The lemmas then say what
  that filter holds: exactly the matching elements, with multiplicity, in
  document order, and never more entries than the tree has elements.
- **The Tab handler** (module `TabSplice`, `tab_splice.dfy`) takes the
  editable region's text and caret offset. `OnTab` is the handler's
  computation, a pure function returning the new text, the new caret and
  whether a tag was made. `lastIndexOf` and `find` are modelled as
  functions whose contracts say what they find. `OnTabMeaning` characterises
  the handler against `IsWordStart`, an independent description of where the
  word before the caret starts. Further lemmas cover each no-op path, the
  shape of a successful splice, and the no-op of a second Tab.

After a tag is made, `setCaret(curPos + 2)` (js/main.js:508) puts the caret
right after `<w>`, between the opening and the closing tag (`AppliedShape`).

## Model

| member | source | states |
|---|---|---|
| `TagCollect.TagCollect` | js/main.js:403-419 | the returned lists are the filtered pre-order flattening; `paragraphs` holds exactly the elements of the tree tagged `P`, `headings` exactly the non-`P` elements passing the heading test, and together they hold at most one entry per element |
| `TagCollect.Collector.Collect` | js/main.js:407-415 | one call appends to each list exactly that list's entries for the subtree of `n`, in pre-order, after what was already there |
| `TagCollect.Collector.CollectChildren` | js/main.js:414 | visiting the children in order appends each child's entries after those of the earlier children |
| `TagCollect.Collector.constructor` | js/main.js:404-405 | both lists start empty |
| `TagCollect.IsHeadingTag` | js/main.js:411-412 | the heading test holds exactly when the tag's first two characters are one of `H1`..`H6` |
| `TagCollect.Classify` | js/main.js:408-412 | a tag is a paragraph exactly when it is `P`, and a heading exactly when it passes the heading test (testing `P` first never hides a heading) |
| `TagCollect.HeadingTestFirstTwo` | js/main.js:411-412 | tags that agree on their first two characters agree on the heading test, and a one-character tag is never a heading |
| `TagCollect.PickMembers` | js/main.js:408-412 | an element is in a list exactly when it occurs in the traversal and has that list's kind |
| `TagCollect.PreorderMembers` | js/main.js:414 | the traversal reaches exactly the elements of the tree: every element, including the children of unmatched elements |
| `TagCollect.PreorderLength` | js/main.js:407-416 | the traversal visits each element once: its length is the tree's element count |
| `TagCollect.PickPartition` | js/main.js:408-412 | every visited element lands in exactly one of paragraphs, headings or unclassified, counted with multiplicity |
| `TagCollect.PickPreorder` | js/main.js:407-416 | an element's own entry comes before every entry from its descendants |
| `TagCollect.SiblingOrder` | js/main.js:414 | among siblings, the entries from an earlier sibling's subtree all come before those from a later sibling's subtree, with the siblings in between collected in between |
| `TagCollect.CollectedMeaning` | js/main.js:408-418 | the two lists are disjoint, hold exactly the `P` and the `H1`..`H6` elements of the tree, and their lengths sum to at most the element count |
| `TagCollect.NoMatchNoneCollected` | js/main.js:418 | a tree with no matching tag yields two empty lists |
| `TagCollect.SiblingsExample` | js/main.js:407-416 | a root with children `P`, `H2`, `P` gives paragraphs `[P, P]` and headings `[H2]`, in document order |
| `TabSplice.LastBefore` | js/main.js:500 | the result is -1 or an index below the bound holding the character, and no later index below the bound holds it |
| `TabSplice.LastIndexOf` | js/main.js:500 | `lastIndexOf` finds the last occurrence at or before the clamped start index, or -1 when there is none |
| `TabSplice.FindBelow` | js/main.js:505 | `find` yields nothing exactly when every character is at least the bound; otherwise it yields a character below the bound that is preceded only by characters at least the bound |
| `TabSplice.Eligible` | js/main.js:499 | the handler acts exactly when the caret follows at least one character and the text after the caret is empty or begins with a space |
| `TabSplice.SpanStart` | js/main.js:500-501 | the word starts at 0 or just after a space, and contains no space up to the caret |
| `TabSplice.Wrap` | js/main.js:506 | the tag pair of a word `w` is `2·|w| + 5` characters long |
| `TabSplice.OnTab` | js/main.js:499-508 | the new caret always lies within the new text |
| `TabSplice.WordStartUnique` | js/main.js:500-502 | the word before the caret has only one possible start |
| `TabSplice.OnTabMeaning` | js/main.js:499-508 | a tag is made exactly when the caret is eligible, the word is non-empty and none of its characters is below `'A'`; then the word is replaced by `<w></w>` and the caret becomes `caret + 2`; otherwise text and caret are unchanged |
| `TabSplice.IneligibleNoOp` | js/main.js:499 | with the caret at 0, or inside the text on a non-space, nothing changes |
| `TabSplice.EmptyWordNoOp` | js/main.js:502 | with the caret right after a space, the word is empty and nothing changes |
| `TabSplice.LowCharNoOp` | js/main.js:505 | any word character below `'A'` leaves text and caret unchanged |
| `TabSplice.SpliceShape` | js/main.js:506-507 | replacing the word keeps the prefix and the suffix, grows the text by `|w| + 5`, and puts `<w>` at the old word's place |
| `TabSplice.AppliedShape` | js/main.js:503-508 | after a tag is made, the text before the word and after the caret is kept, the text grows by `|w| + 5`, and the new caret is inside the text, right after `<w>` |
| `TabSplice.SecondTabNoOp` | js/main.js:499 | a second Tab at the new caret does nothing, because the caret now sits on `<` |
| `TabSplice.NoOpRepeats` | js/main.js:499-505 | a Tab that changed nothing changes nothing when repeated |
| `TabSplice.WrapExample` | js/main.js:506 | the sample word `asd` becomes `<asd></asd>` |
| `TabSplice.ExampleAtEnd` | js/main.js:499-508 | `"type word"` with caret 9 gives `"type "` followed by the tags of `word` (`"type <word></word>"`), with caret 11 |
| `TabSplice.ExampleOnSpace` | js/main.js:499-508 | `"type word"` with caret 4 gives the tags of `type` followed by `" word"` (`"<type></type> word"`), with caret 6 |
| `TabSplice.ExampleLowercase` | js/main.js:503-508 | a lowercase word passes: `"asd"` with caret 3 gives the tags of `asd` with caret 5 |
| `TabSplice.ExamplesNoOp` | js/main.js:502-505 | `"hello "` with caret 6 and `"x1 cd"` with caret 2 are left unchanged |

## Left out

- `makeTag` and `writeHeader` (js/main.js:23-60) build DOM elements through browser APIs. They are not modelled.
- The `usersList` sample data and the card layout (js/main.js:67-386) are static data and view building. They are not modelled.
- `getCaret` and `setCaret` (js/main.js:448-491) use the browser's Selection and Range API. The model takes the caret as a number between 0 and the text length and returns the new one.
- `e.preventDefault()`, the `e.key === 'Tab'` test, the writes to `textContent` and focus handling are event plumbing. `OnTab` returns the text and caret that the handler writes back.
- The DOM is live and host-mutable. The model treats the tree as an immutable value: `children` is a sequence, and identical subtrees are equal values. "Each element once" is stated with multiplicity (`PickPartition`, `PreorderLength`) rather than by object identity.
- The default argument `document.body` becomes an explicit root parameter.
- `TagCollect.TagCollect`: the root is assumed to be an element. A root without `tagName` (for example `document`) makes the destructuring at js/main.js:411 throw; that error path is not modelled, since every `Node` has a tag.
- Text is a sequence of Unicode scalar values. UTF-16 surrogate pairs are not modelled, including the code-point iteration of `const [char0, char1] = n.tagName` and the code-unit split of `tag.split('')`. Neither is `textContent`/`innerText` normalisation.
