# tuituirss: a verified model of its text, layout and state logic

tuituirss is a terminal reader for Tiny Tiny RSS. This project models, in Dafny, the parts of it that
carry the logic: turning untrusted bytes into safe text, wrapping that text into columns, moving through
the sidebar, the headline list and the article's links, the session protocol, the response buffer and the
one-line editor. Each loop of the C source is a Dafny method proved against a specification function, and
the properties the program relies on are proved about those functions for all inputs and all runs.

| files | models |
|---|---|
| `Bytes.dfy` | C strings (`Char` is a nonzero byte), raw buffers (`Byte`), searching |
| `Utf8.dfy`, `Sanitize.dfy`, `StrBuf.dfy`, `Entity.dfy`, `References.dfy` | decoder, encoder, in-place filter, string buffer, character references and what each kind stands for |
| `HtmlScan.dfy`, `HtmlDoc.dfy`, `HtmlLaws.dfy`, `Normalize.dfy`, `HtmlText.dfy` | markup scanner, documents and their meaning, each kind of markup in bytes, whitespace normalizer, the whole conversion |
| `Urls.dfy` | address extraction |
| `Cells.dfy`, `Wrap.dfy`, `WrapProof.dfy`, `WrapOptimal.dfy`, `WrapLaws.dfy`, `WrapBuffer.dfy`, `WrapCode.dfy` | columns, the line wrapper, its guarantees, its optimality, its treatment of long words, the room in its line buffer, its loops |
| `Ranks.dfy`, `Sidebar.dfy`, `SidebarBuild.dfy`, `SidebarOrder.dfy`, `SidebarCode.dfy` | the collapsible sidebar |
| `Headlines.dfy`, `HeadlinesCode.dfy` | the paged headline list |
| `Session.dfy`, `SessionCode.dfy`, `Response.dfy` | the API session and the response buffer |
| `Links.dfy`, `LinkCursor.dfy` | the article's links and scrolling |
| `Editor.dfy` | the input dialog's line editor |

Conventions. A text is a `seq<Char>` and so never holds NUL; buffers that C overwrites in place are
arrays. Shifts and masks of the UTF-8 code are written as division and remainder by powers of two.
32-bit accumulation in numeric references is written out as `% TWO32`. `wcwidth` is a function parameter
`wc`, arbitrary unless a member says otherwise (`AtMostTwo`, `CellsOf(wc, SP) == 1`). White space is the
ASCII set of the C locale. The network is an oracle that gives the outcome of the n-th attempt; since it
is arbitrary it also covers networks that react to what was sent. Invalid bytes are dropped one at a time
by the filter; in the width functions each costs what `wcwidth` gives for U+FFFD, as in the source.

Results worth knowing before reading:

- `Normalized` is stated as a byte-level state machine and proved equal to laying out the words of the
  text, each with its line breaks capped at two. The comment at src/util/util.c:446-447 says leading blank
  lines are dropped; the code keeps up to two of them, and drops them all exactly when there are none
  (`Normalize.LeadingGapExact`). The model follows the code. src/util/util.h:42 speaks of removing `\r`; the code turns it into a space in
  single-line fields, and the model follows the code.
- Decimal references round trip below 2^32. `Entity.EntityRoundTripExact` says exactly which lists of
  numbers, of any size, round trip, and `Entity.EntityAlias` gives a number that comes out as a letter.
- A '<' in the final text was always written as a reference, and the two are equally many
  (`HtmlText.LessComesFromReferences`); references inside markup are not decoded and do not count.
- `render_wrap` terminates exactly when no word has a code point wider than the line
  (`WrapCode.WrappableIffNarrow`); width 2 is enough for every text, width 1 is not for a two-column character
  (`WrapCode.OneCharacterWrappable`).
- The line is filled in a buffer of `width * 4 + 1` bytes. That is enough exactly when each word passes a
  length test as it is placed (`WrapBuffer.LineFitsIff`), which `WrapCode.RenderWrap` therefore requires. It is
  not enough for a letter with two combining accents per column (`WrapBuffer.AccentedFits`), and it is for
  every text whose code points all take a column (`WrapBuffer.LineBufferSuffices`). The other wrapping results
  speak of the lines themselves and hold of every text.
- Wrapping keeps all visible bytes exactly when no zero-width word meets an empty or a full line
  (`WrapProof.WrapKeepsInk`); `WrapProof.ThinTextVanishes` is a text that disappears.
- With a pane of one row, loading the sidebar or jumping to its start leaves the selection out of view;
  with two rows it never is (`Sidebar.HomeKeeps`, `Sidebar.LoadKeeps`, `Sidebar.RunKeepsView`).
- A failed first page leaves an empty headline list that says there is no more; only a list whose first
  page arrived promises completeness (`loaded` in `Headlines.Agrees`).

## Model

| member | source | states |
|---|---|---|
| Utf8.Utf8Decode | src/util/util.c:740-779 | the decoding loop returns the length and code point of the piece in front: a complete sequence (overlong forms, surrogates and values above 0x10FFFF included), or one invalid byte as U+FFFD |
| Utf8.DecodedNumbers | src/util/util.c:740-779 | an ASCII byte is itself, a lead byte with its continuation bytes is the number they spell in base 64 whatever its size, any other byte is U+FFFD on its own |
| Utf8.CutAtBoundary | src/util/util.c:740-779 | cutting a text between two pieces changes no piece on either side, invalid bytes included |
| Utf8.SegmentsConcat | src/util/util.c:740-779 | appending anything that does not start with a continuation byte leaves the pieces before it as they were, even a truncated sequence |
| Utf8.EncodeDecode | src/util/util.c:259-273 | for every number the encoder accepts, decoding its encoding gives it back, whatever follows |
| Utf8.EncodeStrict | src/util/util.c:251-274 | an encoding is a character of RFC 3629 (section 4) exactly when the number is no surrogate |
| Utf8.EncodeOnto | src/util/util.c:259-273 | every RFC 3629 character is the encoding of the number it decodes to and of no other |
| Sanitize.StrLen | src/util/util.c:152 | length of the C string in a buffer |
| Sanitize.MoveDown | src/util/util.c:178 | an overlapping move downwards delivers the old bytes and leaves those not yet read |
| Sanitize.EmitAscii | src/util/util.c:156-165 | what each ASCII byte leaves in the output, in both newline modes, without touching unread input |
| Sanitize.FilterPiece | src/util/util.c:154-183 | one turn reads exactly one decoded piece, writes what it leaves, and the write position stays at or below the read position |
| Sanitize.FilterLoop | src/util/util.c:150-183 | overwriting the buffer it reads, the loop produces the pure filter of the original bytes |
| Sanitize.SanitizeInPlace | src/util/util.c:146-185 | the string in the buffer becomes the filter of the string it held |
| Sanitize.FilterShrinks | src/util/util.c:146-185 | the filter never lengthens a text |
| Sanitize.FilterClean | src/util/util.c:108-185 | the output decodes with no invalid byte and no forbidden code point, tab and (when kept) newline aside |
| Sanitize.FilterResegments | src/util/util.c:171-180 | the decoder cuts the output into exactly the pieces that were kept: none merge, none split |
| Sanitize.FilterFixed | src/util/util.c:146-185 | a text is left alone exactly when it is already clean |
| Sanitize.FilterIdempotent | src/util/util.c:146-185 | a second run changes nothing |
| Sanitize.ForbiddenNumbers | src/util/util.c:112-141 | the forbidden code points, as numbers |
| Sanitize.FilterConcat | src/util/util.c:146-185 | the filter takes a text apart wherever no continuation byte follows |
| Sanitize.FilterNewline | src/util/util.c:157-158 | a newline is kept in an article and becomes a space in a single line |
| Sanitize.FilterReturn | src/util/util.c:159-162 | a carriage return is dropped in an article and becomes a space in a single line |
| Sanitize.FilterCharacter | src/util/util.c:146-185 | for every character and any text around it, exactly what is left: itself, a newline or space, or nothing |
| Sanitize.FilterInvalid | src/util/util.c:171-175 | an invalid byte is dropped on its own |
| Sanitize.FilterSequence | src/util/util.c:170-182 | a decoded sequence, overlong or out of range though it may be, is kept or dropped whole by its number |
| Sanitize.CleanConcat | src/util/util.c:146-185 | clean texts put together are clean |
| StrBuf.Substitute | src/util/util.c:254-257 | whatever is emitted is a permitted scalar value other than NUL, and the number itself unless it became U+FFFD |
| StrBuf.Buffer.Grow | src/util/util.c:243-246 | capacity stays 256 doubled, contents are kept, and there is room for a byte and the terminator |
| StrBuf.Buffer.Put | src/util/util.c:242-249 | appends one byte, always terminated |
| StrBuf.Buffer.PutCp | src/util/util.c:251-274 | appends the encoding of the substituted code point |
| Entity.EntityLookup | src/util/util.c:291-299 | first table entry with that name, U+FFFD otherwise |
| Entity.ParseDigits | src/util/util.c:310-332 | the 32-bit digit loop computes the number the digits denote modulo 2^32, and rejects any other byte |
| Entity.DecodeEntity | src/util/util.c:303-339 | recognises the reference in front of a text, within 12 bytes of the '&' |
| Entity.NumericReference | src/util/util.c:305-334 | any digit string stands for its value modulo 2^32 while the body keeps within 12 bytes, and for no reference beyond |
| Entity.UnescapeLoop | src/util/util.c:345-357 | the loop collects the decoded text |
| Entity.FinishFiltered | src/util/util.c:361-362 | the collected string is filtered in place and handed out |
| Entity.HtmlEntityDecode | src/util/util.c:341-363 | decoding followed by the single-line filter |
| Entity.ReferencesDecode | src/util/util.c:303-363 | any list of numbers of at most 11 digits written as decimal references decodes to the UTF-8 text of their values modulo 2^32, the refused ones replaced |
| Entity.EntityRoundTrip | src/util/util.c:303-363 | for every list of values below 2^32 the result is exactly the UTF-8 text of the list |
| Entity.AnyReferencesDecode | src/util/util.c:303-363 | any list of numbers written as decimal references decodes, number by number, to a character up to 11 digits and to the reference's own text beyond |
| Entity.EntityRoundTripExact | src/util/util.c:303-363 | a list of numbers comes back as its UTF-8 text exactly when each number is below 2^32, or has at most 11 digits and is refused both as it is and modulo 2^32 |
| Entity.EntityAlias | src/util/util.c:310-331 | 2^32 + 65 written as a reference comes out as the letter A |
| References.SubstituteNumbers | src/util/util.c:254-257 | exactly which numbers are replaced by U+FFFD |
| References.EveryNameFound | src/util/util.c:291-299 | no table entry hides another: each name selects its own character |
| References.NamedReference | src/util/util.c:335-338 | a named reference decodes to its character, whatever follows |
| References.OtherReference | src/util/util.c:291-338 | any other name, the empty one included, is a reference to U+FFFD |
| References.NamedCharacters | src/util/util.c:279-289 | the thirty names and their characters |
| References.HexReference | src/util/util.c:311-326 | a number in hexadecimal, small or capital, stands for itself modulo 2^32 up to ten digits, and for no reference beyond |
| References.NoSemicolon | src/util/util.c:305-309 | without a ';' among the next 13 bytes an '&' is no reference |
| References.BadDigit | src/util/util.c:326-329 | nor is a decimal reference with a byte that is no digit |
| References.BadHexDigit | src/util/util.c:311-324 | nor a hexadecimal one |
| References.BareAmpersand | src/util/util.c:345-357 | such an '&' stays in the text and decoding goes on right after it |
| HtmlScan.StrIContains | src/util/util.c:209-223 | finds the first occurrence up to ASCII case |
| HtmlScan.NameLength | src/util/util.c:404-409 | length of the tag name |
| HtmlScan.ReadTag | src/util/util.c:392-425 | how far a tag reaches, script and style content skipped, and whether it breaks the line |
| HtmlScan.ReadMarkup | src/util/util.c:386-426 | how far a '<' reaches: comment, tag, or just itself |
| HtmlScan.MarkupAdvances | src/util/util.c:385-426 | the scanner always advances |
| HtmlScan.ScanStep | src/util/util.c:385-436 | one turn of the loop keeps "collected plus scan of the rest" equal to the whole scan |
| HtmlScan.ScanLoop | src/util/util.c:383-437 | the loop collects the scan of the document |
| HtmlDoc.ScanTag | src/util/util.c:392-425 | a complete tag contributes a newline if it is a break and nothing otherwise, whatever follows |
| HtmlDoc.ScanComment | src/util/util.c:387-391 | a comment closed by the first "-->" contributes nothing |
| HtmlDoc.ScanHidden | src/util/util.c:411-420 | a script or style element, in any case, with attributes without '>' and content without its closing marker, contributes nothing |
| HtmlDoc.ScanDoc | src/util/util.c:383-437 | a document written from proper nodes scans to the concatenated meanings of its nodes, followed by the scan of whatever follows |
| HtmlDoc.NoTrace | src/util/util.c:383-437 | inserting a node without meaning after any proper document leaves the scan unchanged |
| HtmlLaws.BreakNames | src/util/util.c:365-377 | the elements that break a line, in any case of letters |
| HtmlLaws.TagScans | src/util/util.c:397-425 | any other tag, opening or closing, with or without attributes, is a newline exactly if its name is one of those, and nothing otherwise |
| HtmlLaws.LoneLess | src/util/util.c:392-396 | a '<' with no '>' after it is dropped alone |
| HtmlLaws.OpenComment | src/util/util.c:387-391 | a comment that is not closed swallows the rest of the document |
| HtmlLaws.ClosedComment | src/util/util.c:387-391 | a closed comment is dropped |
| HtmlLaws.UnclosedElement | src/util/util.c:411-420 | of a script or style element that is never closed only the opening tag is dropped |
| HtmlLaws.ClosedElement | src/util/util.c:411-420 | a closed one is dropped with everything in it |
| HtmlLaws.ScanAmpersand | src/util/util.c:427-436 | an '&' that starts no reference stays |
| Normalize.StripLoop | src/util/util.c:453-455 | the two trimming loops |
| Normalize.StepInPlace | src/util/util.c:452-471 | one byte of the loop, on the output array, never ahead of the input |
| Normalize.NormalizeText | src/util/util.c:448-476 | the loop over output array, position and newline counter computes the normalized text |
| Normalize.NormalizedIsLayout | src/util/util.c:446-476 | the state machine lays out exactly the words of its input with their line breaks capped at two, and nothing else |
| Normalize.RenderRoundTrip | src/util/util.c:446-476 | reading a layout back gives the words and breaks it was made from |
| Normalize.NormalizedTidy | src/util/util.c:446-475 | no tab, no leading or doubled space, no space next to a newline, at most two newlines in a row, no trailing gap |
| Normalize.NormalizedKeepsWords | src/util/util.c:446-476 | words and breaks survive in order, and a second pass changes nothing |
| Normalize.NormalizedClean | src/util/util.c:442-476 | normalizing clean text gives clean text |
| Normalize.LeadingNewlinesStay | src/util/util.c:452-461 | a gap before a single word leaves its newlines, up to two |
| Normalize.LeadingGapExact | src/util/util.c:446-476 | for every text, the result starts with exactly the newlines of the leading gap, two at most, so with a newline exactly when the gap has one |
| Normalize.NormalizedJoin | src/util/util.c:446-471 | between words a gap becomes one space, one newline or two, by its newlines, and what is around it stays itself |
| Normalize.NormalizedEnds | src/util/util.c:446-475 | a gap at the end is dropped, one at the start keeps its newlines, two at most |
| Normalize.NormalizedWord | src/util/util.c:469-470 | a text without gaps is left alone |
| HtmlText.HtmlToText | src/util/util.c:379-479 | scan, filter keeping newlines, normalize |
| HtmlText.PlainTextStable | src/util/util.c:442-478 | the result is a fixed point of the filter and of the normalizer, and clean |
| HtmlText.PlainTextTidy | src/util/util.c:442-478 | its white space is tidy, and the words of the sanitized scan survive in order with their line breaks |
| HtmlText.MarkupVanishes | src/util/util.c:379-479 | markup without meaning leaves the final text unchanged, after any proper document and before any text |
| HtmlText.LessComesFromReferences | src/util/util.c:379-479 | the final text has exactly as many '<' as the scanner decodes references to '<', those inside markup not counting, so no markup reaches it |
| HtmlText.NoRawLessOut | src/util/util.c:386-437 | no '<' at all if no '&' of the document starts such a reference |
| HtmlText.EscapeRoundTrip | src/util/util.c:427-437 | escaped text is scanned back to itself, so only filter and layout act on it |
| HtmlText.ConvertedTextSurvives | src/util/util.c:379-479 | converted text, escaped and converted again, comes back unchanged |
| Cells.WidthCut | src/util/util.c:801-820 | widths add up across a decoder boundary |
| Cells.WidthConcat | src/util/util.c:801-820 | widths add up when the second text does not start with a continuation byte |
| Cells.Utf8Width | src/util/util.c:801-820 | the loop sums the columns of the decoded pieces |
| Cells.CopyFits | src/util/util.c:835-856 | the copy ends on a decoder boundary within the byte and the column limit |
| Cells.CopyLongest | src/util/util.c:835-856 | no longer prefix ending on a boundary fits both limits |
| Cells.Utf8CopyCells | src/util/util.c:822-859 | the buffer holds that prefix, terminated, and the result is its width; nothing happens without room |
| WrapLaws.WidthOfCharacter | src/util/util.c:813-815 | a character costs what `wcwidth` says, one column if that is negative |
| WrapLaws.WidthOfInvalid | src/util/util.c:808-815 | an invalid byte costs what U+FFFD does |
| Wrap.BreakEndsIffNarrow | src/ui/render.c:282-289 | breaking a word ends exactly when none of its code points is wider than the line |
| WrapProof.BreakParts | src/ui/render.c:282-291 | chunks and rest make up the word, all fit, no chunk is empty, and a visible word leaves a visible rest |
| WrapLaws.BreakIsGreedy | src/ui/render.c:282-291 | each line taken from a long word is its longest piece of whole characters within `width` columns and 4095 bytes, and breaking stops as soon as the rest fits |
| WrapLaws.OneWordLines | src/ui/render.c:264-302 | a text of one visible word becomes its pieces and what is left, line by line |
| WrapLaws.LongWordBetween | src/ui/render.c:270-291 | a long word starts a line of its own, and the next word follows on its last line if it fits there |
| WrapLaws.LettersWrap | src/ui/render.c:282-302 | a word of one-column letters is cut every `width` letters |
| WrapLaws.CutCount | src/ui/render.c:282-302 | so n letters take ceil(n / width) lines, all but the last of exactly `width` |
| WrapLaws.WordsSeparated | src/ui/render.c:249-269 | between two words a space, a tab and a single newline mean the same; an empty paragraph is a blank line |
| WrapProof.LinesFit | src/ui/render.c:266-302 | no line is wider than the given width |
| WrapProof.WrapKeepsInk | src/ui/render.c:271-291 | the non-white bytes of the lines are those of the text, in order, exactly when no zero-width word arrives at an empty or full line |
| WrapProof.VisibleTextKept | src/ui/render.c:264-302 | so nothing is lost when every word takes a column |
| WrapProof.ThinTextVanishes | src/ui/render.c:290-302 | a text that is one zero-width word produces no line |
| WrapProof.BlankLines | src/ui/render.c:256-262 | as many empty lines as empty paragraphs |
| WrapOptimal.GreedyMinimal | src/ui/render.c:271-292 | greedy filling needs no more lines than any division into lines that fit |
| WrapOptimal.LinesAreLayout | src/ui/render.c:249-302 | the lines, row by row, are a layout of the words and blank lines: in order, joined by single spaces, within the width |
| WrapOptimal.WrapOptimal | src/ui/render.c:249-302 | when every word takes between one column and a line, no layout of the items has fewer lines |
| WrapBuffer.RoomyIff | src/ui/render.c:245-291 | from any state, every word passes the length test of the branch that places it exactly when the line is never longer than the buffer |
| WrapBuffer.LineFitsIff | src/ui/render.c:245-302 | a text never fills the line past its buffer of `width * 4 + 1` bytes exactly when every word passes that test |
| WrapBuffer.LineFitsByLines | src/ui/render.c:271-302 | when every word takes between one column and a line, that is exactly when each finished line has at most `width * 4` bytes |
| WrapBuffer.OneWordFits | src/ui/render.c:282-291 | a text of one word fits exactly when what breaking leaves of it has at most `width * 4` bytes; unbroken, when the word has |
| WrapBuffer.DenseSuffices | src/ui/render.c:271-291 | words of at most four bytes per column keep the line at four bytes per column, and so always fit |
| WrapBuffer.LineBufferSuffices | src/ui/render.c:245-302 | a text whose code points all take a column fits |
| WrapBuffer.AccentedFits | src/ui/render.c:245-291 | a letter with n combining accents, one column wide, fits exactly when n is less than twice the width |
| WrapCode.LineList.PushLine | src/ui/render.c:225-234 | appends one line, doubling from 32 |
| WrapCode.BreakLoop | src/ui/render.c:282-289 | pushes the chunks of a long word through the 4096-byte scratch buffer and returns the rest with its width |
| WrapCode.CopyText | src/ui/render.c:290 | replaces the C string in the line buffer |
| WrapCode.AppendText | src/ui/render.c:272-273 | appends to the C string in the line buffer, within its size |
| WrapCode.FlushLine | src/ui/render.c:277-281 | pushes the line if it has anything in it and clears the buffer |
| WrapCode.PlaceWord | src/ui/render.c:270-291 | one word is appended to the line in the buffer or starts a new one, every write staying within the buffer |
| WrapCode.WrapParagraph | src/ui/render.c:264-292 | the `strsep` loop places the words of a paragraph |
| WrapCode.WrapOne | src/ui/render.c:256-293 | an empty paragraph flushes the line and pushes a blank one |
| WrapCode.ParagraphLoop | src/ui/render.c:249-298 | the loop over paragraphs, single newlines being gaps |
| WrapCode.RenderWrap | src/ui/render.c:236-303 | for a text that breaking can finish and that fits the line buffer, appends exactly the wrapped lines, with their attribute, to the list; widths below 1 count as 1 |
| WrapCode.WrappableIffNarrow | src/ui/render.c:282-289 | the call terminates exactly on texts none of whose words has a code point wider than the line |
| WrapCode.OneCharacterWrappable | src/ui/render.c:282-289 | a text of one character terminates exactly when the character is no wider than the line; a two-column character never does at width 1 |
| WrapCode.WideEnough | src/ui/article.c:66-69 | from width 2 on that is every text |
| Urls.ParenDepth | src/util/util.c:520-527 | balance of parentheses |
| Urls.TrimLoop | src/util/util.c:512-534 | cuts back to the last position that needs no trimming |
| Urls.TrimKeepsSchemes | src/util/util.c:507-534 | trimming never cuts into a scheme, wherever in the run it stands |
| Urls.UrlExtract | src/util/util.c:494-546 | returns the text of each extracted range in order |
| Urls.ExtractExact | src/util/util.c:502-544 | results are in order and disjoint; each starts with a scheme it contains whole, lies in its delimiter-free run, and is the longest prefix of it that needs no trimming |
| Urls.TrimmableIff | src/util/util.c:512-534 | an address is trimmed exactly while it ends in . , ; : ! ? ] } ' or in a ')' and holds more ')' than '(' |
| Urls.ExtractPlain | src/util/util.c:487-544 | in bytes: each result starts with http:// or https:// and is the longest piece of its run that ends well; a run that ends well, balanced parentheses included, is taken whole |
| Urls.ExtractComplete | src/util/util.c:502-544 | every occurrence of a scheme starts a result or lies inside one, whole |
| Sidebar.RowsInvert | src/ui/feedlist.c:149-172 | rows and visible items correspond one to one |
| Sidebar.AlwaysVisible | src/ui/feedlist.c:134-146 | items of depth 0 are always visible, and everything is while all categories are open |
| Sidebar.MoveRank | src/ui/feedlist.c:198-217 | from rank k among selectable items a move lands on rank clamp(k + delta, 0, count - 1) |
| Sidebar.ClampTopFits | src/ui/feedlist.c:174-185 | clamping the top brings a visible selection into view whatever the top was |
| Sidebar.ClampTopNearest | src/ui/feedlist.c:174-185 | the top moves only if it has to: to a selection above it, or so that a selection below ends on the last row |
| Sidebar.MoveKeeps | src/ui/feedlist.c:198-217 | a move keeps selection and top visible, top above selection, and the selection in view |
| Sidebar.HomeKeeps | src/ui/feedlist.c:219-225 | the start keeps them too, and shows the selection exactly when there are two rows (or nothing to select) |
| Sidebar.EndKeeps | src/ui/feedlist.c:227-233 | the end selects the last rank and keeps it in view |
| Sidebar.ActivateKeeps | src/ui/feedlist.c:310-318 | opening or closing a category keeps the selection and the top visible and in place |
| Sidebar.ActivateToggles | src/ui/feedlist.c:310-318 | exactly the items of the activated category appear or disappear, nothing else changes, and activating it again undoes that |
| Sidebar.LoadKeeps | src/ui/feedlist.c:113-121 | a new list selects its first entry, in view exactly when there are two rows |
| Sidebar.FailedLoad | src/ui/feedlist.c:43-64 | after a failed load the list is empty, the cursor stale, and moves and toggles do nothing |
| Sidebar.RunKeepsCore | src/ui/feedlist.c:43-318 | over every run of loads, failures, moves, jumps, toggles and resizes the selection is never hidden and the top is visible and above it |
| Sidebar.RunKeepsView | src/ui/feedlist.c:174-233 | with two rows or more and a pane that never shrinks, every run also keeps the selection in view |
| Sidebar.RunThenMove | src/ui/feedlist.c:174-233 | after any run at all, a move or a jump to the end brings the selection into view |
| SidebarBuild.BuiltShape | src/ui/feedlist.c:66-108 | a built list starts with a header followed by an entry of depth 0, and categories have depth 0 |
| SidebarBuild.NoFeedTwice | src/ui/feedlist.c:66-108 | with distinct category ids no feed appears twice in the three sections |
| SidebarBuild.FeedsShown | src/ui/feedlist.c:66-108 | a feed appears exactly when its `cat_id` and id make it virtual or a label, or it is an ordinary feed of a listed category with id >= 0 |
| SidebarBuild.HiddenWithItsCategory | src/ui/feedlist.c:134-146 | an indented feed's nearest item of depth 0 is the category named by its own cat_id, and it is hidden exactly when that category is collapsed |
| SidebarOrder.SectionsInOrder | src/ui/feedlist.c:66-108 | virtual feeds, labels, categories each with its feeds behind it, all in the server's order; headers for the first two exactly if they are not empty |
| SidebarOrder.BuiltItems | src/ui/feedlist.c:20-41 | each item shows the id, title and unread count the server sent; a new list has all categories open and every item visible |
| SidebarBuild.RunKeepsTree | src/ui/feedlist.c:198-318 | until the next load a run changes a built list only by opening and closing categories |
| SidebarCode.Pane.ItemVisible | src/ui/feedlist.c:134-146 | the backward loop decides visibility |
| SidebarCode.Pane.VisibleRow | src/ui/feedlist.c:149-157 | the counting loop gives the row of an item |
| SidebarCode.Pane.ItemAtRow | src/ui/feedlist.c:160-172 | the counting loop gives the item on a row |
| SidebarCode.Pane.NextChoice | src/ui/feedlist.c:187-196 | the next selectable item in a direction |
| SidebarCode.Pane.ClampView | src/ui/feedlist.c:174-185 | only the top changes, as specified |
| SidebarCode.Pane.MoveBy | src/ui/feedlist.c:198-217 | only selection and top change, as the move specifies |
| SidebarCode.Pane.GoHome | src/ui/feedlist.c:219-225 | jump to the start |
| SidebarCode.Pane.GoEnd | src/ui/feedlist.c:227-233 | jump to the end |
| SidebarCode.Pane.ActivateCategory | src/ui/feedlist.c:310-318 | toggles the selected category and nothing else |
| SidebarCode.Pane.AddGroup | src/ui/feedlist.c:67-91 | the loops over virtual feeds and labels append the section, its header only if it has a feed |
| SidebarCode.Pane.AddFeeds | src/ui/feedlist.c:101-107 | the inner loop appends the category's ordinary feeds |
| SidebarCode.Pane.AddCategories | src/ui/feedlist.c:95-108 | the outer loop appends categories with id >= 0, each followed by its feeds |
| SidebarCode.Pane.Load | src/ui/feedlist.c:43-124 | rebuilds the list and resets cursor and view; a failed request leaves an empty list and the old cursor |
| Headlines.LoadKeeps | src/ui/headlines.c:16-51 | opening a view gives a prefix of its list, the selection in range and in the window |
| Headlines.LoadSelects | src/ui/headlines.c:24-48 | a view opens with one page, 20 headlines while the pane has no rows, and the first unread of them selected, the first if there is none |
| Headlines.LoadMoreKeeps | src/ui/headlines.c:53-84 | one more page keeps a prefix of the server's list and what was loaded before |
| Headlines.PageSize | src/ui/headlines.c:53-84 | a further page brings what is left, up to the page size, and says there is more exactly if it was full |
| Headlines.ResizedPage | src/ui/screen.c:148-151 | after a resize pages have the height of the pane, if it has rows |
| Headlines.MoveClamps | src/ui/headlines.c:93-111 | a move is clamped arithmetic on what is loaded after at most one more page, and nothing moves if that page fails |
| Headlines.EndLoadsAll | src/ui/headlines.c:125-130 | the load loop ends with the server's whole list, or at a request that failed; with no failures always with the whole list |
| Headlines.JumpsSelect | src/ui/headlines.c:120-137 | the jumps select the first headline, and the last of what is then loaded |
| Headlines.WindowFollows | src/ui/headlines.c:93-118 | the window moves only to take in the selection, by its first or its last row |
| Headlines.NextUnreadFinds | src/ui/screen.c:270-290 | if any headline is unread, an unread one ends selected and none passed on the way there, around the list, is unread; otherwise nothing changes |
| Headlines.RunAgrees | src/ui/headlines.c:16-137 | over every run, failures and resizes included, the loaded list is a prefix of the server's and complete once it says so, and the selection is in range |
| Headlines.RunInWindow | src/ui/headlines.c:16-137 | while the pane keeps its height every run keeps the selection in the window |
| HeadlinesCode.ListPane.LoadView | src/ui/headlines.c:16-51 | opening a view |
| HeadlinesCode.ListPane.SelectUnread | src/ui/headlines.c:42-48 | the loop that pre-selects the first unread headline |
| HeadlinesCode.ListPane.FetchMore | src/ui/headlines.c:53-84 | fetching a page |
| HeadlinesCode.ListPane.MoveBy | src/ui/headlines.c:93-118 | a move |
| HeadlinesCode.ListPane.GoEnd | src/ui/headlines.c:125-137 | the loop over pages terminates and the last headline is selected |
| HeadlinesCode.ListPane.GoUnread | src/ui/screen.c:270-290 | the cyclic search |
| Session.ErrorFromCode | src/api/api.c:157-183 | a server error is never "none", and NOT_LOGGED_IN exactly for that code |
| Session.ErrorCodes | src/api/api.c:157-183 | each of the server's seven codes and only that code gives its error |
| Session.Verdicts | src/api/api.c:274-357 | which error each failure of an attempt is recorded as |
| Session.CallShape | src/api/api.c:252-401 | one call sends its request and at most a login and one replay; a replay follows only a login that brought a new id and carries it |
| Session.CallExact | src/api/api.c:361-401 | a login is attempted exactly when the first answer is NOT_LOGGED_IN and credentials are stored, a replay exactly when the login's reply brings an id, and the replay carries that id |
| Session.CallOutcome | src/api/api.c:361-401 | what a call returns and records is what the last reply says: the first, or that of the replay; after a failed renewal nothing and the error of the login |
| Session.LogoutExact | src/api/api.c:403-411 | a logout is one call and then drops the id |
| Session.RenewsWithRemembered | src/api/api.c:132-144 | a session is renewed with the credentials last set |
| Session.LoginShape | src/api/api.c:380-401 | a login is one attempt and never renews; on success the new id is set, otherwise the old one stays |
| Session.ContentMeansOk | src/api/api.c:252-374 | content is returned exactly when the recorded error is none |
| Session.LoginMeansOk | src/api/api.c:380-401 | the same for a login |
| Session.RunDisciplined | src/api/api.c:123-411 | over every run each request but a login carries the id most recently set or obtained, none after a logout, and logins carry none |
| SessionCode.ApiClient.Once | src/api/api.c:252-359 | one attempt on the client object |
| SessionCode.ApiClient.Invoke | src/api/api.c:361-374 | a call with renewal and replay; the mutual recursion with the login ends |
| SessionCode.ApiClient.DoLogin | src/api/api.c:380-401 | a login |
| SessionCode.ApiClient.DoLogout | src/api/api.c:403-411 | a logout drops the id whether or not it succeeds |
| SessionCode.ApiClient.Restore | src/api/api.c:123-130 | setting a session |
| Response.AllOrTooLarge | src/api/api.c:47-68 | all chunks arrive whole and in order, or the body is marked too large, which happens exactly when together they exceed 2^24 bytes |
| Response.OneChunk | src/api/api.c:51-55 | a chunk is taken whole if everything stays within 2^24 bytes, and changes no byte otherwise |
| Response.ResponseBuffer.NextCap | src/api/api.c:57-60 | doubling from 4096 reaches the needed size and never passes 2^25 |
| Response.ResponseBuffer.Write | src/api/api.c:47-68 | an accepted chunk is appended and terminated; a rejected one changes neither contents, length nor capacity |
| Response.ResponseBuffer.Begin | src/api/api.c:258-262 | a new request starts empty on the same buffer and capacity |
| Links.CollectedLinks | src/ui/article.c:137-151 | the link list holds each nonempty candidate once, in first-seen order, and nothing else |
| Links.LinksOfArticle | src/ui/article.c:137-151 | the links of an article are exactly its nonempty addresses: its own first, then comments, attachments and those in its text |
| Links.UrlAdd | src/ui/article.c:39-53 | adds an address unless it is empty or present |
| Links.ArticleUrls | src/ui/article.c:137-151 | the candidates are the article's address, its comments, its attachments and the addresses in its text, in that order |
| Links.RangesContiguous | src/ui/article.c:158-165 | line ranges follow one another and end at the last line |
| Links.ContiguousDisjoint | src/ui/article.c:158-165 | so they are disjoint, in order and inside the article |
| Links.LayOutLinks | src/ui/article.c:158-165 | the loop appends each wrapped address and records exactly the lines it occupies |
| LinkCursor.MovesCompose | src/ui/article.c:241-256 | a selection move is addition modulo the number of links, so moves add up, opposite moves cancel and a full turn changes nothing |
| LinkCursor.FirstMove | src/ui/article.c:248-249 | with nothing selected forward takes the first link and backward the last |
| LinkCursor.ScrollMoves | src/ui/article.c:197-213 | scrolling goes exactly as far as asked, stopping with the first line on the first row or the last on the last |
| LinkCursor.RevealNearest | src/ui/article.c:216-239 | showing a link moves as little as needed |
| LinkCursor.RevealShows | src/ui/article.c:216-239 | the scroll ends in bounds, a link that fits the pane ends fully visible, and a visible one does not scroll |
| LinkCursor.MoveShows | src/ui/article.c:216-257 | the same after every move, from any scroll |
| LinkCursor.RunKeeps | src/ui/article.c:197-257 | over every run the scroll stays in bounds and the selection names a link or nothing |
| LinkCursor.ArticlePane.ScrollLines | src/ui/article.c:197-213 | scrolling |
| LinkCursor.ArticlePane.RevealLink | src/ui/article.c:216-239 | scrolling to the selected link |
| LinkCursor.ArticlePane.MoveLink | src/ui/article.c:241-257 | moving the selection |
| Editor.RunFits | src/ui/dialog.c:41-97 | under every key sequence the text stays within 1023 bytes, and Enter returns what is left and right of the cursor |
| Editor.StartText | src/ui/dialog.c:41-43 | the cursor starts behind the initial text, of which 1023 bytes fit |
| Editor.KeyEffects | src/ui/dialog.c:56-96 | every key on every text and cursor position, and which keys end the dialog |
| Editor.InsertErase | src/ui/dialog.c:65-94 | insert then backspace, right then left, left then right restore text and cursor |
| Editor.CursorKeepsText | src/ui/dialog.c:73-88 | cursor keys never change the text |
| Editor.TypedText | src/ui/dialog.c:89-95 | printable text that fits is inserted at the cursor in order |
| Editor.TypeAndEnter | src/ui/dialog.c:41-97 | typing a text into an empty dialog and pressing Enter returns it |
| Editor.LineEditor.constructor | src/ui/dialog.c:41-43 | starts with the initial text cut to the buffer and the cursor at its end |
| Editor.LineEditor.Erase | src/ui/dialog.c:65-72 | closes the gap in the buffer, terminator included |
| Editor.LineEditor.Insert | src/ui/dialog.c:89-94 | opens a gap and fills it if there is room |
| Editor.LineEditor.HandleKey | src/ui/dialog.c:56-96 | each key does to the buffer what it does to the zipper |
| Editor.LineEditor.EditLoop | src/ui/dialog.c:47-97 | the key loop refines the zipper under every key sequence |

## Left out

- libcurl, HTTP options, JSON parsing and dumping, SHA-1: the network is an oracle over outcomes; whether a request could be serialized is one of them.
- ncurses drawing, windows, themes, layout arithmetic: the panes' heights are inputs (`Resize`, `Layout`, constructor arguments).
- Files, processes, configuration, key bindings, logging: I/O.
- Allocation failure and freeing; growing arrays carry an explicit capacity in the string buffer, the line list and the response buffer, while the lists of sidebar items, headlines, addresses and links are sequences without one.
- 32-bit overflow of `int` counters (rows, selections, the newline counter), which would need more than 2^31 items.
- NULL arguments, which the functions answer with an empty result; empty texts cover what callers see of them.
- Headline flags changed after loading (marking, catch-up): paging never reads them, and the toggles from the list pane follow no uniform law (src/ui/screen.c:246-253).
- The article's title, meta line, labels and body are wrapped by the modelled `RenderWrap`, but their assembly (src/ui/article.c:75-135) is not modelled; `Links.LayOutLinks` takes the lines before the links as given.
- `str_trim`, `utf8_len`, paths, ages and dates: settled by reading a few lines.
- The numeric values of the terminal's named keys belong to ncurses and are not part of this model; the editor's keys are a datatype.
