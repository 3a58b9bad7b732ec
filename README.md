# Hashtag ranges of the rich-text editor

The editor component in `src/components/RichText.jsx` decorates hashtags in
the text of every content block. Its decorator strategy,
`findHashTagEntities`, runs the global regular expression
`/#[\w\u0590-\u05ff]+/g` over the block's text. It calls `exec` until `exec`
returns `null`, and hands every match to the decorator callback as the
half-open range `[index, index + length)`.

This project models that scanner over UTF-16 code units and proves what it
reports:

- `hashtag_pattern.dfy`, module `HashTagPattern`: the specification. It
  holds the tag-character class: `\w` without the `u` and `i` flags, so
  `[A-Za-z0-9_]`, plus the Hebrew block U+0590..U+05FF. It defines a
  declarative hashtag: a `#`, then a non-empty, maximal run of tag
  characters. It also gives a reference scanner `HashTags` for the greedy,
  leftmost, non-overlapping matches of the global pattern. The lemmas prove
  three things. The reported ranges are exactly the hashtags of the text.
  They come in increasing order without overlap. A position starts a
  reported range if and only if it holds `#` followed by a tag character.
  The lemmas also prove that being ordered and having exactly the hashtags
  as members determines the output.
- `rich_text.dfy`, module `RichText`: the code. `TagPattern` is the regular
  expression object, with the `lastIndex` field that its global flag makes
  `exec` read and update. `TagPattern.Exec` is `exec` for this one pattern.
  It finds the leftmost match at or after `lastIndex`, then sets `lastIndex`
  to the end of the match, or back to 0 when there is no match. A
  `lastIndex` past the end of the text fails the match and resets
  `lastIndex` to 0, as in JavaScript; `FindHashTagEntities` never reaches
  that case.
  `FindHashTagEntities` is the `while` loop of the source. The callback is
  modelled as the sequence of ranges it receives, and that sequence is
  proved equal to `HashTags(text)`.

## Model

| member | source | states |
|---|---|---|
| `HashTagPattern.HashIsNotTagChar` | src/components/RichText.jsx:49 | `#` is not in the character class `[\w\u0590-\u05ff]`, so a `#` never sits inside a tag |
| `HashTagPattern.RunEnd` | src/components/RichText.jsx:49 | the greedy `+` stops at a position at or after its start and inside the text; every code unit it passes is a tag character; it stops at the end of the text or before a non-tag character |
| `HashTagPattern.HashTagAt` | src/components/RichText.jsx:49 | a range is a hashtag iff a `#` followed by a tag character stands at its start and its end is where the greedy run after the `#` stops |
| `HashTagPattern.SkipNonStarts` | src/components/RichText.jsx:49-52 | resuming the search anywhere in a stretch with no `#`-plus-tag-character finds the same matches |
| `HashTagPattern.NoStartsNoTags` | src/components/RichText.jsx:51-52 | with no `#` followed by a tag character at or after the resume point, the search finds nothing |
| `HashTagPattern.LeftmostStep` | src/components/RichText.jsx:52-55 | when the leftmost hashtag after the resume point is `r`, the search reports `r` and resumes at `r`'s end |
| `HashTagPattern.TagsFromSound` | src/components/RichText.jsx:49-54 | every range found from a resume point is a hashtag and starts at or after that point |
| `HashTagPattern.TagsFromComplete` | src/components/RichText.jsx:49-55 | every hashtag starting at or after the resume point is found; no earlier match can jump past it, because its `#` ends every earlier run |
| `HashTagPattern.TagsFromOrdered` | src/components/RichText.jsx:52-55 | the ranges found from any resume point come left to right, each starting at or after the previous one's end |
| `HashTagPattern.HashTagsExact` | src/components/RichText.jsx:48-56 | a range is reported iff it is a hashtag of the text (both directions) |
| `HashTagPattern.HashTagsInBounds` | src/components/RichText.jsx:49-54 | every reported range satisfies `0 <= start < start + 2 <= end <= length` and begins with `#` |
| `HashTagPattern.HashTagsOrdered` | src/components/RichText.jsx:49-55 | the reported ranges are in increasing order and do not overlap |
| `HashTagPattern.HashTagsStarts` | src/components/RichText.jsx:49-55 | a position starts a reported range iff it holds `#` followed by a tag character |
| `HashTagPattern.HashTagsEmpty` | src/components/RichText.jsx:51-52 | nothing is reported iff no `#` is followed by a tag character; empty text is one such case |
| `HashTagPattern.OrderedSameMembers` | src/components/RichText.jsx:52-55 | two ordered sequences of non-empty ranges with the same members are equal, so the callback's sequence is fixed by its members and its order |
| `HashTagPattern.HashTagsUnique` | src/components/RichText.jsx:48-56 | any ordered sequence whose members are exactly the hashtags of the text is the reported sequence |
| `HashTagPattern.AdjacentTags` | src/components/RichText.jsx:49-55 | `#a#b` is reported as the two ranges `[0,2)` and `[2,4)` |
| `HashTagPattern.HashThenSpace` | src/components/RichText.jsx:49 | `# a` is no hashtag |
| `HashTagPattern.DoubleHash` | src/components/RichText.jsx:49-55 | in `##a` the tag is `[1,3)`: the first `#` is followed by a non-tag character |
| `HashTagPattern.HebrewTag` | src/components/RichText.jsx:49 | Hebrew letters are tag characters: `#`, two Hebrew letters and a space give the range `[0,3)` |
| `RichText.TagPattern.constructor` | src/components/RichText.jsx:49 | a fresh regular expression object starts its search at `lastIndex` 0 |
| `RichText.TagPattern.Exec` | src/components/RichText.jsx:52 | `exec` returns the leftmost match at or after `lastIndex`: a hashtag whose matched text is the text's slice; it returns no match iff no `#` followed by a tag character stands at or after `lastIndex`; afterwards `lastIndex` is the match's end, or 0 when there is none |
| `RichText.ResumeAt` | src/components/RichText.jsx:52-55 | a failed `exec` from a resume point means nothing is left to report; a successful one means the search continues at the match, a hashtag at or after the resume point |
| `RichText.FindHashTagEntities` | src/components/RichText.jsx:48-56 | the ranges passed to the callback equal `HashTags(text)`: exactly the hashtags of the text, each once, in increasing non-overlapping order; the loop ends because every match is at least two code units long |

## Left out

- The React components `wrapButton`, `BtnLink`, `BtnUndo`, `BtnBold`, `Link`, `HashTag`, `Img` and the `render` method: markup only, no logic.
- `findLinkEntities`: it delegates to the editing framework's `findEntityRanges` and entity lookup. That library is not part of this model.
- `findImgEntities`: it calls the callback with no arguments. What that means depends on the framework's decorator internals, which are not part of this model.
- `onBtnLinkClick`, `onBtnBoldClick`, `handleKeyCommand`, `onChange` and the empty `onBtnUndoClick`: thin wrappers over the framework's entity, style and key-command calls and over React state. The framework is not part of this model.
- Focus handling (src/components/RichText.jsx:154-156), the `console.log(command, editorState)` in `handleKeyCommand` (src/components/RichText.jsx:136) and the CSS import (src/components/RichText.jsx:10): DOM side effects and I/O.
- `contentBlock.getText()` becomes the `text` parameter. The callback becomes the returned sequence of ranges. The `contentState` argument is unused by the scanner.
- General regular-expression semantics: only this one pattern is modelled, with its greedy, leftmost, non-overlapping search. `TagPattern.Exec` returns the match index and matched text, not the whole match array of `exec`.
