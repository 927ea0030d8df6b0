# A verified model of the rich-text editor's core

The editor is a single React component, `src/Editor.jsx`. Most of it drives the browser's own
editing commands. What remains are the deterministic routines the component implements itself,
and this project models those in Dafny and proves what they promise:

- **The tag policy**:
  - the compliance check that decides whether edited markup is sanitised again;
  - which toolbar and plugin buttons are shown;
  - how the caller's allow-list is merged with the tags that plugins declare;
  - the list edits of the tag selector.
- **Hand-written tree edits on the editing surface**:
  - unwrapping a blockquote or a formatting element into its parent;
  - the walks from a node up to its nearest paragraph, block or list item;
  - the Enter key's new paragraph;
  - clearing the search markers (replacement by text, then `Node.normalize()`);
  - dropping attribute-less spans from pasted Word markup.
- **The search cursor**:
  - next and previous with wrap-around;
  - the single "current" marker;
  - escaping the query into a literal regular expression.
- **String builders and parsers**:
  - the table markup of `insertTable`;
  - the `formatBlock` argument cleaning;
  - Word heading levels;
  - `rgbToHex`.
- **Image editing**:
  - the size computed on each move of a resize drag;
  - the aspect-ratio link between the width and height fields of the image dialog;
  - the mapping between alignment and the image's float, display and margin styles.

The document is a tree of values (`Dom.Node`: text nodes and elements with attributes and
ordered children). A node inside the editor is addressed by a path of child indices; the empty
path is the editor element. The component's state that its handlers update in place is modelled
by classes:

- the editing surface is `Editing.Surface`, holding the editor's child list;
- the search state is `Search.SearchCursor`, holding the current index and the number of results;
  the markers in the document are passed to its methods as an array of "current" flags;
- the selected image is `Image.ImageElement`, holding its style fields.

Each of their methods is proved against a specification function. The properties are proved
about those functions.

Modules:

| file | module | what |
|---|---|---|
| wrappers.dfy | Wrappers | `Option` |
| strings.dfy | Strings | ASCII lower-casing, digit runs, decimals, `parseInt`, character filtering |
| dom.dfy | Dom | nodes, `textContent`, `querySelectorAll('*')`, attributes and classes, paths |
| tag_policy.dfy | TagPolicy | compliance, buttons, plugins, the allow-list merge, tag selector |
| tree_edits.dfy | TreeEdits | unwrapping, ancestor walks, normalisation, markers, Word spans |
| editing.dfy | Editing | edits anywhere in the tree, and the `Surface` class |
| search.dfy | Search | navigation arithmetic, the cursor class, regex escaping |
| markup.dfy | Markup | table markup, `formatBlock` argument, Word headings, `rgbToHex` |
| image.dfy | Image | resize step, dialog linkage, alignment, the `ImageElement` class |

Two details of the code shape what is proved:

- During a locked resize, only the dimension the pointer drives is held at 20 pixels. The
  derived dimension is not floored (`Image.DerivedSideNotFloored`), so the minimum size is not
  per dimension.
- Clearing the search markers calls `normalize()` on the editor element, so the whole editor is
  normalised, not only the text around the markers.

## Model

| member | source | states |
|---|---|---|
| TagPolicy.ContainsOnlyAllowedTags | src/Editor.jsx:27-41 | false when the allow-list is missing or empty; otherwise true exactly when every element's lower-cased tag is in the list |
| TagPolicy.TextNeverFails | src/Editor.jsx:33-38 | adding or removing a text node never changes compliance |
| TagPolicy.OnlyAllowedTagsIff | src/Editor.jsx:33-38 | compliance over the listed tags is the same as compliance of the element at every valid path of the tree |
| TagPolicy.ShouldShowButtonCases | src/Editor.jsx:346-386 | an action command is shown iff its pseudo-tag is allowed; a tag command iff its tag is allowed; a name that an object literal inherits (such as `toString` or `constructor`) never; any other command always |
| TagPolicy.EmptyListShowsOnlyUnmapped | src/Editor.jsx:346-386 | with an empty allow-list, exactly the commands in neither map and not inherited by an object literal are shown |
| TagPolicy.ShouldShowPlugin | src/Editor.jsx:731-736 | a plugin is shown iff it has no tag or its tag is allowed |
| TagPolicy.PluginTags | src/Editor.jsx:414-418 | holds exactly the non-empty tags of the plugins, and is no longer than the plugin list |
| TagPolicy.Dedup | src/Editor.jsx:447 | `[...new Set(s)]` has no duplicates, holds exactly the values of `s`, and lists them in first-occurrence order |
| TagPolicy.MergeTagsSpec | src/Editor.jsx:445-448 | the merged allow-list (also built at line 680) is duplicate-free, holds every caller tag and every plugin tag and nothing else, in first-occurrence order |
| TagPolicy.PluginsShownInitially | src/Editor.jsx:434-450 | every plugin is shown under the initial allow-list, with or without a caller list |
| TagPolicy.DefaultsShowEveryButton | src/Editor.jsx:284-328 | under the default allow-list (lines 434-450) every one of the toolbar's commands is shown |
| TagPolicy.ToggleTag | src/Editor.jsx:49-55 | the tag becomes listed iff it was not; no other tag changes membership |
| TagPolicy.ToggleTwice | src/Editor.jsx:49-55 | toggling twice restores the list as a set, and restores it exactly when the tag was not listed |
| TagPolicy.SelectAll | src/Editor.jsx:57-59 | every offered tag is allowed |
| TagPolicy.SelectNone | src/Editor.jsx:61-63 | no tag is allowed |
| TagPolicy.FilteredTagsPartition | src/Editor.jsx:65-74 | the "selected" view holds the offered tags that are allowed, the "deselected" view those that are not, and together they are as long as the offered list |
| TreeEdits.UnwrapChild | src/Editor.jsx:1458-1462 | the loop moving the wrapper's first child before it, then removing it, yields the siblings before, the wrapper's children in order, then the siblings after |
| TreeEdits.UnwrappedText | src/Editor.jsx:1626-1631 | unwrapping keeps the parent's concatenated text |
| TreeEdits.UnwrappedTags | src/Editor.jsx:1626-1631 | unwrapping removes exactly the wrapper's element and keeps every other element |
| TreeEdits.UnwrapKeepsCompliance | src/Editor.jsx:1458-1462 | unwrapping never makes a compliant tree non-compliant |
| TreeEdits.NearestAncestor | src/Editor.jsx:1614-1621 | the result is the editor or an element with one of the tags |
| TreeEdits.NearestAncestorSpec | src/Editor.jsx:889-895 | the result is on the path from the node up to the editor, is a matching element unless it is the editor, and nothing before it on the way up matches |
| TreeEdits.WalkUp | src/Editor.jsx:889-895 | the parent-walk loop finds the nearest matching ancestor |
| TreeEdits.BlockParent | src/Editor.jsx:1565-1574 | `getBlockParent` returns the nearest block-level ancestor on the way up, or the editor when there is none |
| TreeEdits.NormalizeChildren | src/Editor.jsx:1301 | the normalising loop computes the normalisation of the child list |
| TreeEdits.NormalizeIntoNormalizes | src/Editor.jsx:1301 | after normalisation there are no empty and no adjacent text nodes, at any depth |
| TreeEdits.NormalizeIntoText | src/Editor.jsx:1301 | normalisation keeps the text |
| TreeEdits.NormalizeIntoTags | src/Editor.jsx:1301 | normalisation keeps every element, in order |
| TreeEdits.NormalizeIntoNoMarkers | src/Editor.jsx:1301 | normalisation introduces no search marker |
| TreeEdits.NormalizeIntoNormalized | src/Editor.jsx:1301 | an already normalised list is left exactly as it is |
| TreeEdits.NormalizeIdempotent | src/Editor.jsx:1301 | normalising twice is the same as once |
| TreeEdits.ReplaceMarkersSpec | src/Editor.jsx:1290-1299 | after each marker is replaced by a text node with its text, no marker remains and the text is unchanged; without markers nothing changes |
| TreeEdits.StripPlainSpansSpec | src/Editor.jsx:1178-1188 | after the span pass no attribute-less span remains and the text is unchanged; markup without such spans is left as it is |
| TreeEdits.StripPlainSpansTags | src/Editor.jsx:1178-1188 | the span pass removes exactly the plain spans: the elements after it, plus one SPAN per plain span, are the elements before it |
| TreeEdits.StripPlainSpansTagCounts | src/Editor.jsx:1178-1188 | every tag other than SPAN keeps its count, and SPAN loses exactly one per plain span |
| Editing.UnwrapAtSpec | src/Editor.jsx:1457-1462 | unwrapping anywhere in the tree puts the wrapper's children at its place among its siblings, keeps the editor's text, and keeps compliance |
| Editing.ElementOf | src/Editor.jsx:1454 | a text node is read as its parent element; the result is the editor or an element |
| Editing.ParentHasTag | src/Editor.jsx:1625-1626 | when the focus node's parent has the tag, that parent is an element below the editor |
| Editing.InsertParagraphSpec | src/Editor.jsx:897-903 | the block's parent's children are the old ones with the new `<p><br></p>` spliced in right after the block; without a block it is appended to the editor's children; the editor's text is unchanged |
| Editing.ClearedSpec | src/Editor.jsx:1287-1301 | after clearing no marker is left and the text is unchanged; when there were markers the editor is normalised |
| Editing.Surface.UnwrapEnclosingBlockquote | src/Editor.jsx:1453-1462 | the nearest blockquote around the common ancestor is unwrapped into its parent; nothing changes when there is none |
| Editing.Surface.RemoveFormatting | src/Editor.jsx:1611-1632 | when the common ancestor lies inside an element with the tag, the focus node's parent is unwrapped if it has that tag; otherwise nothing changes |
| Editing.Surface.EnterKey | src/Editor.jsx:853-903 | inside a list item nothing changes; otherwise the new paragraph goes right after the nearest P or DIV around the start container, or at the end of the editor |
| Editing.Surface.ClearHighlights | src/Editor.jsx:1287-1301 | reports whether there were markers, and leaves the cleared tree |
| Search.JsRem | src/Editor.jsx:1338 | JavaScript's `%`: lies strictly between -n and n, agrees with the Euclidean remainder on non-negative operands, is never positive on negative ones, and differs from the operand by a multiple of n, which pins the value |
| Search.NavigationInRange | src/Editor.jsx:1335-1349 | from any index the cursor can hold, including -1, next and previous land on a result |
| Search.NavigationWraps | src/Editor.jsx:1335-1349 | next steps forward and wraps from the last result to the first; previous does the reverse |
| Search.NavigationInverse | src/Editor.jsx:1335-1349 | next and previous undo each other |
| Search.CurrentFlagsCount | src/Editor.jsx:1312-1321 | exactly one marker is current when the index is in range, and none otherwise |
| Search.MoveMarksOne | src/Editor.jsx:1335-1349 | while the markers are those the search found, either move leaves exactly one marker current, the one the new index names |
| Search.StaleIndexMarksNone | src/Editor.jsx:1318-1321 | when markers have gone since the search and the index lies past those left, no marker is current |
| Search.SearchCursor.constructor | src/Editor.jsx:455-456 | before any search there are no results and the index is -1 |
| Search.SearchCursor.Found | src/Editor.jsx:1265-1282 | after a search the results are the markers found; with some, the index is 0 and the first marker becomes current; without, the index is -1 |
| Search.SearchCursor.Reset | src/Editor.jsx:1247-1252 | an empty query leaves no results and the index -1 |
| Search.SearchCursor.HighlightCurrent | src/Editor.jsx:1305-1333 | the markers now in the document get the flags of the index; nothing changes without markers |
| Search.SearchCursor.GoToNext | src/Editor.jsx:1335-1341 | with results, the index becomes index + 1 modulo the number of results, and the markers now in the document are highlighted for it; without results nothing changes |
| Search.SearchCursor.GoToPrev | src/Editor.jsx:1343-1349 | with results, the index becomes index - 1 modulo the number of results, and the markers now in the document are highlighted for it; without results nothing changes |
| Search.EscapeRegex | src/Editor.jsx:1258 | escaping at most doubles the query's length |
| Search.EscapeRegexLiteral | src/Editor.jsx:1258 | the escaped query is a pattern of literal atoms that matches exactly the query |
| Markup.InsertTable | src/Editor.jsx:1902-1912 | the nested loops build the table markup |
| Markup.TableRoundTrip | src/Editor.jsx:1902-1912 | the markup starts with the table's opening tag, ends with `</table><br/>`, and reads back as `rows` rows of `cols` cells each |
| Markup.CleanFormatBlockArg | src/Editor.jsx:1698 | a missing argument stays missing; a given one has no angle bracket left |
| Markup.CleanFormatBlockArgSpec | src/Editor.jsx:1698 | `<name>` and `name` both clean to `name` |
| Markup.HeadingTag | src/Editor.jsx:1163-1170 | the tag is `p` or `h1` to `h6` |
| Markup.DigitsOfLevel | src/Editor.jsx:1166 | stripping non-digits from a level with one number among digit-free text leaves that number |
| Markup.HeadingTagOfNumber | src/Editor.jsx:1162-1170 | a level holding the number k among digit-free text gives `h`k for 1 to 6 and `p` otherwise |
| Markup.HexRoundTrip | src/Editor.jsx:1082 | `toString(16)` reads back as the number |
| Markup.PaddedHexRoundTrip | src/Editor.jsx:1082-1083 | the padded channel reads back as the number |
| Markup.RgbToHex | src/Editor.jsx:1075-1085 | the result is always a `#` colour of at least seven characters |
| Markup.RgbToHexOfNotation | src/Editor.jsx:1078-1084 | for `rgb` followed by three numbers and separators, the result is `#` and the three numbers as padded hex |
| Markup.RgbToHexOfDecimals | src/Editor.jsx:1075-1085 | `rgb(r, g, b)` converts to `#` and the three padded hex channels |
| Markup.RgbToHexChannels | src/Editor.jsx:1075-1085 | for channels 0 to 255 the result has seven characters and each channel reads back |
| Strings.ParseIntOfDecimal | src/Editor.jsx:1092 | `parseInt` reads back a number written in decimal, with a suffix such as `px` |
| Strings.FilterCounts | src/Editor.jsx:1166 | character removal keeps each kept character's count and removes every other one |
| Image.ResizeStep | src/Editor.jsx:987-1015 | a driven dimension is at least 20 when the lock does not apply |
| Image.ResizeStepFree | src/Editor.jsx:990-998 | without the lock, a driven dimension is max(20, start + delta) and the other keeps its start value; N, W and NW change nothing |
| Image.ResizeStepLocked | src/Editor.jsx:1000-1015 | under the lock, E, S and SE keep the start ratio of width to height, and the driven side is max(20, start + delta) |
| Image.DerivedSideNotFloored | src/Editor.jsx:1003-1004 | a derived dimension can fall below 20: E on a 100 by 10 image dragged 80 to the left gives 20 by 2 |
| Image.Round | src/Editor.jsx:1094 | `Math.round` is within half of its argument |
| Image.LinkedHeightSpec | src/Editor.jsx:1091-1096 | the derived height is written in pixels, reads back, and is within half a pixel of width over ratio |
| Image.LinkedWidthSpec | src/Editor.jsx:1097-1102 | the derived width is written in pixels, reads back, and is within half a pixel of height times ratio |
| Image.ChangeSizeLocked | src/Editor.jsx:1087-1106 | under the lock, a positive width sets the width and the derived height and nothing else, and likewise for height; a value that does not read as positive changes only its own field |
| Image.ChangePropUnlinked | src/Editor.jsx:1089 | without the lock, or for any other field, only the edited field changes |
| Image.AlignmentStyle | src/Editor.jsx:1121-1137 | a non-empty margin is kept; the margin is never empty |
| Image.AlignmentRoundTrip | src/Editor.jsx:1068-1073 | reading the alignment back from its styles gives left, right and none back, and centre only when the margin is exactly `0 auto` |
| Image.ImageElement.ResizeMove | src/Editor.jsx:984-1018 | the image's width and height become the resize step's size, and no other field changes |
| Image.ImageElement.ApplyImageChanges | src/Editor.jsx:1109-1137 | the dialog's values are written, and the alignment's float, display and margin are set, so the image reads back the alignment the styles stand for |

## Left out

- `sanitizeHTML` (DOMPurify) is not part of this model: its behaviour lives in the library.
  Compliance is modelled on the tree it produces.
- Every `document.execCommand` path: formatBlock, lists, links, justify, rules, `insertHTML`,
  `insertText`, `insertImage`, and the collapsed-selection and multi-block formatting toggles.
  These are the browser's editing behaviour.
- The branch of `applyBlockquote` that creates a blockquote, and the formatting toggle's
  wrapping branch. Both are Range operations (`deleteContents`, `insertNode`, `surroundContents`).
  `Editing.Surface.UnwrapEnclosingBlockquote` and `Editing.Surface.RemoveFormatting` return
  false there and change nothing.
- Selection and Range save and restore, cursor placement after Enter, and `queryCommandState`.
  The selection's common ancestor, start container and focus node are parameters given as paths.
- `Editing.Surface.RemoveFormatting`: a focus on the editor element itself is treated as
  unformatted. Its parent lies outside the editor and is not modelled.
- `element.closest()` can match above the editor. The model's walks stop at the editor element.
- Asynchronous work: clipboard promises, `FileReader` image insertion, the deferred list
  styling, `scrollIntoView` timers.
- The `handleChange` calls after each edit, the overlay update, and the `imageProps` update during a drag.
- Persistence and theme (localStorage, `matchMedia`, `document.body`), JSX rendering, the tag
  selector and dropdown UI, the emoji picker, and overlay geometry.
- The search itself is not modelled: its case-insensitive regex replace over `innerHTML` can also
  wrap matches inside tag names and attributes. So no search-then-clear round trip is claimed.
  Only the escaping of the query and the cursor are modelled.
- The whole-document case transform on raw markup.
- The steps of `cleanWordHTML` other than headings and spans:
  - the removal of `o:` elements;
  - the removal of empty `class` attributes;
  - the final re-sanitisation.
- The heading replacement itself: the new element copying the old one's children and class.
  Only the level-to-tag rule (`Markup.HeadingTag`) is modelled.
- `Strings.ToLower`: lower-cases ASCII letters only. Tag names are ASCII.
- `Image.ResizeStep`: uses exact reals. IEEE-double rounding is not modelled, and neither are
  a zero start size or an infinite ratio: the lock requires positive start sizes.
- `Image.Round`: `Math.round` on exact reals. Its IEEE rounding of halves is not modelled.
- `Image.ChangeProp`: requires a positive aspect ratio when the lock applies. The `Infinity` and
  `NaN` a zero-sized image would produce are not modelled.
- `Image.ImageElement.ResizeMove`: writes the size as a number of pixels (`Pixels`). It does not
  model how JavaScript formats a fractional number into `${newWidth}px`.
- The resize drag is unreachable in the component as written: `setIsResizing(true)` and
  `setResizeData` are never called. It is modelled as written all the same.
- The resize handle is one of the eight compass handles. A missing handle is not modelled.
- `Markup.RgbToHexChannels`: the read-back is proved for whole channels written as `rgb(r, g, b)`.
  Other spellings, such as percentages or `rgba`, are covered only by `Markup.RgbToHexOfNotation`'s
  digit-run rule.
- `Strings.ParseInt`: covers base 10 only: leading JavaScript white space and line terminators
  (`Strings.IsJsSpace`), a sign, then digits. Radix prefixes such as `0x` are not modelled.
- `Image.AlignmentRoundTrip`: style values are stored verbatim; CSS serialisation is not
  modelled. A browser reads `margin: 0 auto` back as `0px auto`, so there centre is never read
  back. The image dialog's alignment select (src/Editor.jsx:2075-2077) offers no centre option.
- `Image.ImageElement.ApplyImageChanges`: writes the style values verbatim, as above; a browser
  also drops values it cannot parse.
