# Docx Converter core in Dafny

Docx Converter turns a Word document into clean HTML for a content editor. The
server first converts the document to HTML with an external converter. It then
cleans that HTML (`limpiarHTML`) and restructures it (`convertirHTML`). Headings
are demoted two levels and upper-cased in bold. Lower headings and short
paragraphs become title-cased paragraphs in bold and/or underline. Paragraphs
holding an image are centred, and the image is fitted to the width. The
conversion also has an image callback that chooses the data-URI extension and
cleans the image's alternative text. In the browser, `formatHTML` re-indents the
returned HTML for display.

This project models that core:

- `JsString`: the JavaScript string primitives the core relies on. These are
  `trim` with ECMAScript white space and line terminators, UTF-16 length,
  `split`/`join` on one character, ASCII case folding for regular expressions
  with the `i` flag, and Unicode case mapping. The case mapping is left
  uninterpreted as a `Casing` record.
- `Sanitizer`: `limpiarHTML`. Each of its five global replacements is the
  left-to-right scan that `String.prototype.replace` performs with the `g` flag.
  Every pattern's matcher is proved equal to a declarative description of what
  the regular expression matches.
- `TitleCase`: `toTitleCase`. The string is lower-cased, then every letter at an
  ASCII `\b` word boundary is upper-cased.
- `Dom`: the part of the DOM the converter touches. A node is an element (tag,
  inline style as a property map, children) or a text node. Nodes are addressed
  by child-index paths. `querySelectorAll` is a pre-order list of paths.
- `Remap`: the heading and paragraph `switch` of `convertirHTML`. It is written
  as a recursive rewrite of the body (`RemapBody`), plus `Within(V)`, the same
  rewrite applied only at the visited paths `V`.
- `Walk`: the proof that the in-place walk computes `RemapBody`. The walk goes
  over a snapshot of the elements and replaces nodes, so later nodes of the
  snapshot may be detached. `Walk` proves this equal to the recursive rewrite.
- `Images`: the image pass of `convertirHTML`. `ImagePassOf` gives its effect
  element by element.
- `Converter`: the `Document` class whose body both passes change in place, one
  snapshot element at a time, and `ConvertTree`, which runs both passes.
- `ImageCallback`: the extension taken from the image content type, and the
  clean-up of the alternative text.
- `Indenter`: `formatHTML`, as a loop that threads the indent counter, proved
  against a recursive `Render`.

Four facts about the code as written are proved in the model:

- `limpiarHTML`'s span rule is not idempotent. In `<span><span>c</span></span>`
  the lazy `(.*?)` stops at the first `</span>`, so one pass leaves
  `<span>c</span>` and a second pass leaves `c` (`Sanitizer.NestedSpans`).
- An empty paragraph that carries an attribute is not removed. For every
  value `v` on one line without a double quote, `limpiarHTML` turns
  `<p style="v">&nbsp;</p>` into `<p >&nbsp;</p>`
  (`Sanitizer.StyledEmptyParagraphKept`). The attribute rule cuts out
  `style="v"` and leaves the space before it
  (`Sanitizer.StyledParagraphAttributeStep`). The empty-paragraph rule needs
  exactly `<p>`, so it matches nowhere in what is left
  (`Sanitizer.StyledEmptyParagraphStays`). The step underneath, that a
  quoted attribute in a text with no other `=` is cut out whole, is
  `Sanitizer.AttributeStripped`.
- The caption clean-up of the alternative text is not idempotent either. A
  caption followed by a line break is not matched, because `.` stops at line
  terminators. `trim` then removes the break, and a second pass cuts the caption:
  "x El contenido generado por IA\n" gives "x El contenido generado por IA",
  which gives "x" (`ImageCallback.CleanAltTwice`).
- The opening-tag test of `formatHTML` (`/^<\w[^>]*[^\/]>$/`) needs four
  characters at least. So `<p>` and `<b>` do not raise the indent, while
  `<h3>` and `<div class=x>` do (`Indenter.NonOpeningExamples`,
  `Indenter.OpeningExamples`).

## Model

| member | source | states |
|---|---|---|
| `JsString.Trim` | server.cjs:46 | the trimmed string is no longer than its input and neither starts nor ends with white space or a line terminator |
| `JsString.TrimEmpty` | server.cjs:66-70 | `trim` gives "" exactly when the text is all white space, which is how `text.length > 0` rejects blank elements |
| `JsString.TrimExact` | server.cjs:46 | white space around a core that neither starts nor ends with white space is removed, and the core is kept exactly |
| `JsString.TrimIsInfix` | server.cjs:46 | the trimmed string is a contiguous part of the input with only white space before and after it |
| `JsString.TrimDrawsFromInput` | server.cjs:46 | every character of the trimmed string comes from the input (multiset inclusion) |
| `JsString.Utf16Length` | server.cjs:125 | `length` counts UTF-16 units: between the number of code points and twice that |
| `JsString.Split` | public/main.js:82 | `split` gives at least one piece and no piece contains the separator |
| `JsString.JoinSplit` | public/main.js:82-96 | joining the pieces of a split with the same separator gives back the string |
| `JsString.SplitJoin` | public/main.js:82-96 | splitting a join of separator-free pieces gives back the pieces |
| `JsString.SplitFree` | public/main.js:82 | a string without the separator splits into itself alone |
| `JsString.SplitPrefix` | server.cjs:180 | the pieces of `head + sep + tail` are `head` followed by the pieces of `tail` |
| `Sanitizer.LazyScan` | server.cjs:36-42 | the lazy `(.*?)` stops at the first occurrence of the closing text, and only if no line terminator comes before it; none otherwise |
| `Sanitizer.FindGreater` | server.cjs:42 | `[^>]*>` ends at the first `>` after the start, and there is no match when no `>` follows |
| `Sanitizer.FillerEnd` | server.cjs:44 | the filler group of the empty-paragraph rule consumes the longest run of white space and `&nbsp;` (any case) |
| `Sanitizer.MatchAttribute` | server.cjs:36-40 | a match of an attribute rule lies within the text from `i`, consumes at least one character and keeps nothing |
| `Sanitizer.MatchSpan` | server.cjs:42 | a span match lies within the text from `i`, consumes at least one character, and keeps a part that ends seven characters (`</span>`) before the match ends |
| `Sanitizer.MatchEmptyParagraph` | server.cjs:44 | an empty-paragraph match lies within the text from `i`, consumes at least one character and keeps nothing |
| `Sanitizer.Scan` | server.cjs:36-44 | the scan of a global replace from `i` gives no more than the remaining `|s| - i` characters |
| `Sanitizer.ReplaceAll` | server.cjs:36-44 | a global replace by part of the match never lengthens the text |
| `Sanitizer.StripMarkup` | server.cjs:34-44 | the five replacements together never lengthen the HTML |
| `Sanitizer.LimpiarHtml` | server.cjs:33-47 | the cleaned HTML neither starts nor ends with white space |
| `Sanitizer.ScanLeftmost` | server.cjs:36-44 | a global replace keeps the text up to the leftmost match, emits the replacement, and resumes after the match |
| `Sanitizer.ScanNoMatch` | server.cjs:36-44 | with no match from `i` on, the replace keeps the rest of the text unchanged |
| `Sanitizer.ReplaceWithoutMatch` | server.cjs:36-44 | a replacement whose pattern matches nowhere leaves the text unchanged |
| `Sanitizer.ScanDrawsFromInput` | server.cjs:36-44 | the scan only deletes: its output draws its characters from the input (multiset inclusion) |
| `Sanitizer.DrawsFromInput` | server.cjs:36-44 | each of the five replacements only removes characters, never adds any |
| `Sanitizer.LimpiarDrawsFromInput` | server.cjs:33-47 | the cleaner only removes characters: the multiset of the output is included in that of the input |
| `Sanitizer.AttributeMatch` | server.cjs:36-40 | `NAME=(["'])(.*?)\1` (any case) matches at `i` and ends at `e` iff the name and `=`, a quote, a line-free value without that quote and the same quote are there; the match is replaced by nothing |
| `Sanitizer.QuoteMatches` | server.cjs:36 | the back-reference `\1` to a quote matches that very quote only, since quotes have no case |
| `Sanitizer.SpanMatch` | server.cjs:42 | `<span[^>]*>(.*?)<\/span>` (any case) matches at `i`, with the tag closing at `g` and the match ending at `e`, iff `SpanAt` holds; the match is replaced by the content between the tags |
| `Sanitizer.EmptyParagraphMatch` | server.cjs:44 | the empty-paragraph rule (any case) matches at `i` and ends at `e` iff the body between `<p>` and `</p>` is white space and `&nbsp;` only; the match is deleted |
| `Sanitizer.AttributeNeedsEquals` | server.cjs:36-40 | an attribute match needs `=` right after the attribute name |
| `Sanitizer.SpanNeedsS` | server.cjs:42 | a span match needs an `s` (any case) right after its `<` |
| `Sanitizer.NoAttributes` | server.cjs:36-40 | text without `=` is left unchanged by an attribute rule |
| `Sanitizer.NoSpans` | server.cjs:42 | text without an `s` in any case is left unchanged by the span rule |
| `Sanitizer.TextParagraphKept` | server.cjs:44 | a `<p>` whose first character is text (not white space, `&` or `<`) is not an empty paragraph |
| `Sanitizer.StyledEmptyParagraphStays` | server.cjs:44 | the empty-paragraph rule leaves `<p >&nbsp;</p>` unchanged |
| `Sanitizer.NoEqualsNoAttribute` | server.cjs:36-40 | an attribute rule matches nowhere that lacks `=` right after the name |
| `Sanitizer.AttributeStripped` | server.cjs:36-40 | an attribute matched at `i`, in a text with no other `=`, is cut out whole and the rest is kept as it was |
| `Sanitizer.StyledParagraphAttributeAt` | server.cjs:36 | for a value `v` on one line without `"`, the `style` rule's match in `<p style="v">&nbsp;</p>` runs from index 3 to just past the closing quote |
| `Sanitizer.StyledParagraphOneEquals` | server.cjs:36 | `<p style="v">&nbsp;</p>` has no `=` before the attribute or after its closing quote |
| `Sanitizer.StyledParagraphOutside` | server.cjs:36 | what precedes the attribute is `<p ` and what follows it is `>&nbsp;</p>` |
| `Sanitizer.StyledParagraphAttributeStep` | server.cjs:36 | for such a `v`, the `style` rule turns `<p style="v">&nbsp;</p>` into `<p >&nbsp;</p>` |
| `Sanitizer.NotSpanAt` | server.cjs:42 | the span rule fails at `i` when a character of `<span` differs there, ignoring ASCII case |
| `Sanitizer.AttributelessParagraphHasNoSpan` | server.cjs:42 | the span rule leaves `<p >&nbsp;</p>` unchanged |
| `Sanitizer.StyledParagraphStripped` | server.cjs:35-44 | for such a `v`, the five replacements take `<p style="v">&nbsp;</p>` to `<p >&nbsp;</p>` |
| `Sanitizer.LimpiarWithoutSpaceAtEnds` | server.cjs:46 | when the replacements leave no white space at either end, the final `trim` changes nothing |
| `Sanitizer.StyledEmptyParagraphKept` | server.cjs:33-47 | for such a `v`, `limpiarHTML` turns `<p style="v">&nbsp;</p>` into `<p >&nbsp;</p>`, so the empty paragraph stays |
| `Sanitizer.LeadingSpan` | server.cjs:42 | a leading `<span>w</span>`, whose content holds no line terminator and no `</span>`, with no span match after it, is unwrapped to `w` and the rest is kept |
| `Sanitizer.SpanUnwraps` | server.cjs:42 | a span around text with no `<` and no line terminator is replaced by that text |
| `Sanitizer.NestedSpans` | server.cjs:42 | one pass over `<span><span>c</span></span>` leaves `<span>c</span>`; a second pass leaves `c` |
| `TitleCase.CapitaliseFrom` | server.cjs:52 | the `/\b\p{L}/gu` replace keeps the length and upper-cases exactly the letters at a word boundary |
| `TitleCase.ToTitleCase` | server.cjs:50-53 | `toTitleCase` keeps the length; each character is the lower-cased one, upper-cased when it is a letter at an ASCII word boundary |
| `TitleCase.OnlyBoundaryLettersChange` | server.cjs:52 | after lower-casing, only letters at a word boundary change |
| `TitleCase.SplitAtNonWord` | server.cjs:52 | title-casing distributes over a concatenation split at a non-word character |
| `TitleCase.AsciiWord` | server.cjs:50-53 | an ASCII word gets its first letter upper-cased and the rest lower-cased |
| `TitleCase.TwoAsciiWords` | server.cjs:50-53 | two ASCII words separated by a space are each capitalised |
| `TitleCase.HelloWorld` | server.cjs:50-53 | "hELLO wORLD" becomes "Hello World" |
| `TitleCase.Cancion` | server.cjs:50-53 | "canción" becomes "CanciÓN": the ASCII `\b` sees a boundary after the non-ASCII "ó" |
| `Dom.TextContent` | server.cjs:66 | an element's `textContent` is at least as long as that of each of its children |
| `Dom.ReplaceAt` | server.cjs:78 | after `replaceWith` the new node is at the old node's path, and the root keeps its tag, style and number of children |
| `Dom.ReplaceElsewhere` | server.cjs:78 | `replaceWith` leaves every node outside the replaced subtree and its ancestors as it was, and every ancestor keeps its tag, style and number of children |
| `Dom.RestyleAt` | server.cjs:143-151 | setting style properties on one element keeps the tree's shape and overrides that element's declarations with the new ones |
| `Dom.RestyleElsewhere` | server.cjs:143-151 | setting style properties on one element leaves every other element's style unchanged |
| `Dom.ShapeAt` | server.cjs:139-141 | trees of the same shape have, at each path, nodes of the same kind, tag and shape |
| `Dom.ElemPathsMember` | server.cjs:64 | the pre-order element list holds exactly the paths of the elements of the tree |
| `Dom.ElemPathsOrder` | server.cjs:64 | the pre-order element list starts at the root and lists no node before an ancestor |
| `Dom.Descendants` | server.cjs:64 | `querySelectorAll("*")` lists every element below the body exactly once, never before its ancestors, and never the body itself |
| `Dom.ElemPathsShape` | server.cjs:139 | restyling does not change the list `querySelectorAll` gives |
| `Dom.AtConcat` | server.cjs:140-147 | the element found inside a found element is at the concatenated path |
| `Remap.Rewrite` | server.cjs:73-134 | the switch replaces exactly H1-H7, and a P whose text starts with "subdivisi" (any case) or is shorter than 60 UTF-16 units; the new node is an H3-H6 or P element without style, holding one child |
| `Remap.Fires` | server.cjs:64-73 | a node is replaced only when it is an element with a tag of the switch and no ancestor is a list item or table cell |
| `Remap.RemapNode` | server.cjs:64-136 | a text node stays; an element not replaced keeps its tag, style and number of children; an element stays an element with its own tag or a tag from H3-H6 and P |
| `Remap.RemapBody` | server.cjs:64 | the body itself is never replaced: it keeps its tag, style and number of children, and its text children stay |
| `Remap.InsideUnchanged` | server.cjs:67-70 | nothing inside a list item or table cell is rewritten |
| `Remap.ListOrCellUnchanged` | server.cjs:67-70 | an LI or TD element and everything inside it stay as they are |
| `Remap.BlankUnchanged` | server.cjs:66-70 | an element whose text is all white space, and everything inside it, stays as it is |
| `Remap.OtherTagsStay` | server.cjs:132-133 | a tag other than H1-H7 and P is never replaced |
| `Remap.HeadingsShift` | server.cjs:74-100 | H1-H4 become the heading two levels lower, holding a STRONG with the upper-cased text |
| `Remap.ParagraphRule` | server.cjs:123-130 | a paragraph is replaced iff its text starts with "subdivisi" (any case) or is shorter than 60 UTF-16 units; it becomes an underlined paragraph with the title-cased text |
| `Remap.ParaText` | server.cjs:102-127 | a built replacement holds exactly the given text, and no image |
| `Remap.RewriteKeepsOnlyText` | server.cjs:73-134 | a replacement's text is the element's trimmed text, upper-cased for H1-H4 and title-cased otherwise, and it holds no image |
| `Walk.WithinUntouched` | server.cjs:64 | before any element at or below a node is visited, the node is as it was |
| `Walk.WithinAll` | server.cjs:64-136 | once every element of a subtree is visited, the subtree is its recursive rewrite |
| `Walk.WithinFrame` | server.cjs:64-136 | the state of a subtree depends only on which of its own elements were visited |
| `Walk.BlockedSevered` | server.cjs:64-78 | a node is cut off by a replaced visited ancestor in the rewrite iff it is severed in the original tree |
| `Walk.WithinStep` | server.cjs:64-136 | visiting one more node changes nothing if it is cut off; otherwise the node is found as in the original under the same ancestors, and it is replaced exactly when the switch fires |
| `Walk.RecordStep` | server.cjs:78 | after a visit, the replaced set still tells exactly which nodes are detached |
| `Walk.WalkDone` | server.cjs:64-136 | once every element below the body is visited, the body is `RemapBody` |
| `Walk.WalkStep` | server.cjs:64-136 | one visit keeps the walk invariant: a node that is not detached is found as in the original and replaced exactly when the rewrite says so |
| `Walk.SnapshotStep` | server.cjs:64 | each element of the snapshot is an element below the body, and nothing visited earlier lies below it |
| `Walk.SnapshotDone` | server.cjs:64-136 | after the whole snapshot is visited, the body is the recursive rewrite `RemapBody` |
| `Images.FindImage` | server.cjs:140 | the search returns the first index of an IMG in the list, or none when there is no IMG |
| `Images.FirstImage` | server.cjs:140 | `querySelector("img")` returns a path to an IMG strictly below the paragraph, or none |
| `Images.FirstImageFirst` | server.cjs:140 | when an IMG is found below a paragraph, the first one in document order is returned |
| `Images.ImageFound` | server.cjs:140-141 | a paragraph with an IMG below it has a first image |
| `Images.FirstImageShape` | server.cjs:140 | restyling does not change which image `querySelector` finds |
| `Images.Matching` | server.cjs:139 | filtering by tag keeps exactly the listed elements with that tag |
| `Images.Paragraphs` | server.cjs:139 | `querySelectorAll("p")` gives paths to P elements |
| `Images.ParagraphsMember` | server.cjs:139 | a path is in the paragraph snapshot iff it is a P element below the body |
| `Images.ImagePassOf` | server.cjs:139-153 | after the image pass the body is still an element with the same tag and number of children |
| `Images.StyleStep` | server.cjs:143-151 | styling one paragraph and its image moves the pass state from the paragraphs done so far to one more |
| `Images.ImageParagraphsMember` | server.cjs:139-141 | the styled paragraphs are exactly the P elements below the body that contain an IMG |
| `Images.ImageTargetOf` | server.cjs:140-151 | the first image of every styled paragraph is styled |
| `Images.ImageTargetOwner` | server.cjs:140-151 | every styled image is an IMG, and the first image of a styled paragraph |
| `Images.ImagePassEffects` | server.cjs:139-153 | the pass keeps the tree's shape; an image paragraph is centred with margin `10px 0`; its image gets max-width 100%, auto height and inline-block display; other elements keep their style |
| `Converter.Document.constructor` | server.cjs:58-61 | the document's body is the parsed body |
| `Converter.Document.ReplaceWith` | server.cjs:78 | `replaceWith` puts the new node in place of the node at the path |
| `Converter.Document.SetStyle` | server.cjs:143-151 | the style properties are set on the element at the path |
| `Converter.Document.Remap` | server.cjs:64-136 | the in-place walk over the snapshot of all elements leaves the body equal to the recursive rewrite `RemapBody` |
| `Converter.Document.Visit` | server.cjs:64-135 | one callback of the walk keeps the walk invariant |
| `Converter.Document.StyleImages` | server.cjs:139-153 | the in-place pass over the paragraph snapshot leaves the body as `ImagePassOf` describes |
| `Converter.Document.StyleParagraph` | server.cjs:140-152 | one callback of the image pass styles the paragraph and its first image when there is one |
| `Converter.ConvertTree` | server.cjs:56-153 | the body after both passes is the image pass applied to the remapped body |
| `ImageCallback.Ext` | server.cjs:180 | the extension is never empty and never contains `/` |
| `ImageCallback.ExtSegment` | server.cjs:180 | the extension is the text between the first `/` and the next one, or "png" when there is no `/` or that text is empty |
| `ImageCallback.SplitHead` | server.cjs:180 | the first piece of a split ends at the first separator |
| `ImageCallback.ExtOfSubtype` | server.cjs:180 | "type/subtype" gives "subtype" |
| `ImageCallback.ExtFallback` | server.cjs:180 | a content type without `/`, or with nothing after it, gives "png" |
| `ImageCallback.FindDisclaimer` | server.cjs:183 | the caption regex matches first at the returned index (any case, no line terminator up to the end), and nowhere before it |
| `ImageCallback.StripDisclaimer` | server.cjs:183 | the replace keeps a beginning of the text: the whole text exactly when the caption pattern matches nowhere, otherwise the text up to the leftmost match |
| `ImageCallback.CleanAlt` | server.cjs:182-183 | a missing alternative text gives ""; the result is no longer than the text and neither starts nor ends with white space |
| `ImageCallback.CleanAltNoCaption` | server.cjs:183 | without the caption the alternative text is only trimmed |
| `ImageCallback.CleanAltCuts` | server.cjs:183 | at the leftmost caption match, the caption and everything after it are cut off, then the rest is trimmed |
| `ImageCallback.CaptionLineFree` | server.cjs:183 | a caption match holds no line terminator |
| `ImageCallback.StripLeavesNoCaption` | server.cjs:183 | after the cut, the text holds no caption match anywhere |
| `ImageCallback.CleanAltPrefix` | server.cjs:182-183 | the cleaned text is a trimmed beginning of the original |
| `ImageCallback.CaptionBeforeBreakKept` | server.cjs:183 | a text ending in a line break never loses a caption: it is only trimmed |
| `ImageCallback.CaptionThenBreakKept` | server.cjs:183 | a letter, a space and the caption, then a line break, come back without the break and with the caption |
| `ImageCallback.CaptionAtEndCut` | server.cjs:183 | a letter, a space and the caption at the end of the text give the letter alone |
| `ImageCallback.CleanAltTwice` | server.cjs:183 | "x El contenido generado por IA" and a line break clean to "x El contenido generado por IA", which cleans to "x" |
| `Indenter.BreakTags` | public/main.js:81 | adding the line breaks never shortens the text |
| `Indenter.BreakTagsFirst` | public/main.js:81 | the first character of the text stays first |
| `Indenter.BreakTagsNoPair` | public/main.js:81 | after the replace no `>` is directly followed by `<` |
| `Indenter.DropBreaks` | public/main.js:81 | removing the line breaks leaves no line break |
| `Indenter.BreakTagsOnlyBreaks` | public/main.js:81 | the replace only inserts line breaks: without them the text is the input without its own line breaks |
| `Indenter.BreakTagsConcat` | public/main.js:81 | the replace distributes over a concatenation that does not join a `>` to a `<` |
| `Indenter.Closes` | public/main.js:85 | a closing-tag line is never an opening-tag line |
| `Indenter.OpenTagLine` | public/main.js:92 | an opening-tag line has four characters at least, its second is not `/`, and its last is `>` |
| `Indenter.Opens` | public/main.js:92 | a line that raises the level never also lowers it |
| `Indenter.LevelOf` | public/main.js:85-86 | the level a line is printed at is never negative, never more than the level before it and at most two less; without a closing tag it is the level before it |
| `Indenter.NextLevel` | public/main.js:85-92 | the level after a line is never negative and moves by at most two; it is two or more after an opening line and unchanged after a line that neither opens nor closes |
| `Indenter.Pieces` | public/main.js:81-82 | there is at least one line and none contains a line break |
| `Indenter.Render` | public/main.js:83-95 | one output line per input line |
| `Indenter.Levels` | public/main.js:78-92 | one level per line, none negative |
| `Indenter.FormatHtml` | public/main.js:77-97 | the loop's output is the join of the recursively defined rendered lines |
| `Indenter.LevelEven` | public/main.js:85-92 | the counter stays non-negative and even across one line |
| `Indenter.LevelsEven` | public/main.js:78-92 | every level a line is printed at is non-negative and even |
| `Indenter.RenderLines` | public/main.js:89 | each printed line is its input line with exactly its level of spaces in front |
| `Indenter.FirstLineFlush` | public/main.js:78-89 | the first line is never indented |
| `Indenter.OneLinePerPiece` | public/main.js:77-97 | splitting the output on line breaks gives one line per piece: that piece behind its level of spaces |
| `Indenter.BreakTagsNone` | public/main.js:81 | without `><` the line-break step changes nothing |
| `Indenter.Unchanged` | public/main.js:77-97 | text with neither `><` nor a line break comes back unchanged |
| `Indenter.EmptyStaysEmpty` | public/main.js:77-97 | "" gives "" |
| `Indenter.ClosingLine` | public/main.js:85-86 | a closing-tag line is printed two less than the level before it, never below zero, and never raises the level |
| `Indenter.RaisingLine` | public/main.js:92 | a line raises the level by two iff it is an opening-tag line holding no `</`; otherwise the level is unchanged |
| `Indenter.TextLine` | public/main.js:85-92 | a line not starting with `<` keeps the level |
| `Indenter.OpeningExamples` | public/main.js:92 | `<h3>` and `<div class=x>` open a level |
| `Indenter.NonOpeningExamples` | public/main.js:92 | `<p>`, `<b>`, `<br/>` and `<strong>X</strong>` do not open a level |

## Left out

- The HTTP server, the upload handling, the temporary files and the responses
  are I/O. The external Word-to-HTML conversion, its style map and
  `image.read("base64")` are foreign code. All of them are left out. The image
  callback's data URI is modelled only through its extension and alternative
  text.
- HTML parsing and serialisation by the DOM library, `innerHTML` and the final
  `beautify.html` call are left out. The tree passes work on the parsed tree
  (`Dom.Node`), and the new nodes are built directly as trees. So the model
  assumes the text put into `innerHTML` holds no markup or entity (no `<` or
  `&`).
- Element attributes other than the inline style are not represented. Style
  properties are a map from property name to value. CSS shorthand expansion
  (`margin` into four longhands) and serialisation are not modelled, and the
  camel-cased properties are written under their CSS names.
- Unicode case mapping and the `\p{L}` class are the uninterpreted `Casing`
  record, which maps one code point to one code point. Expanding mappings such
  as "ß" to "SS" are not modelled, and neither is context-sensitive
  lower-casing such as a word-final "Σ" becoming "ς" under `toLowerCase`, which
  reaches `toTitleCase` (server.cjs:52). Strings holding lone surrogates are outside
  the model, since a Dafny `char` is a Unicode scalar value. Astral characters
  are single characters, and only `Utf16Length` counts them as two units.
- `Converter.Document.Remap` skips detached nodes instead of replacing them. In
  the source, the replacement of a detached node happens outside the document
  and is invisible, so the resulting body is the same. The aliasing of detached
  node objects is not modelled.
- The browser page (file selection, `fetch`, the preview, the clipboard button)
  is I/O and is left out. Only `formatHTML` is modelled.
- As written, `limpiarHTML` is not idempotent (see above), and no idempotence
  is claimed for it.
