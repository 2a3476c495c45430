# rappit core, modelled in Dafny

rappit is a desktop REST client. This project models the logic behind its windows and proves properties of it:

- **Formatter** (`formatter.dfy`, `indenter.dfy`, `rewrite.dfy`). Covers:
  - detecting JSON, XML and HTML;
  - pretty-printing by a MIME hint, falling back to detection;
  - the trailing-comma repair of broken JSON;
  - the two hand-written indenters used when no parser helps;
  - minification.
- **Syntax** (`syntax.dfy`). The language id chosen for highlighting a response.
- **Request** (`request.dfy`). Covers what `send_request` prepares for the HTTP session:
  - the headers;
  - the body, its `json=`/`data=` split and the timeout;
  - the record built from the reply or from a request error.
- **History** (`history.dfy`). Covers `HistoryManager`:
  - at most 20 entries, keyed by method and URL;
  - a request made again moves its row to the top;
  - the oldest entry is evicted.
- **Search** (`search.dfy`). Covers `SearchPanel`:
  - case-insensitive matches in the response text;
  - the current match, with wrap-around navigation;
  - the button state and the placeholder text.
- **Headers** (`headers.dfy`). Covers `HeadersPanel`:
  - the default rows, added rows and deleted rows;
  - the dictionary collected from them.

Support modules:

- `pystr.dfy` holds Python's `str` primitives: `strip`, `lower`, `split`, `join`, `in` and `startswith`.
- `json.dfy` is the interface to Python's `json` module.
- `optional.dfy` holds `Option`.

`str.isspace` and the regular-expression class `\s` share one whitespace set, `PyStr.IsSpace`: characters 9-13 and 28-32, U+0085, U+00A0, the Unicode space separators, and the line and paragraph separators U+2028 and U+2029.

The foreign code is passed in as parameters, so every property holds for every choice of them:

- Python's JSON decoder and encoders are a `Codec`.
- `xml.dom.minidom`'s pretty printer is a `Dom`.
- The HTTP session is `session`.
- The clock reading is `elapsedMs`.
- GTK's case-insensitive comparison is `fold`.

The classes (`HistoryManager`, `SearchPanel`, `HeadersPanel`) keep the source's fields and update them in place:

- Each `HistoryManager` method is proved against a function on an abstract `Store` value.
- Lemmas about that function show what the source promises: consistency, the size bound, and which entry is evicted.
- Every regular expression of the formatter is written out as a recursive function. Each pass except comment removal is proved to keep every character that is not whitespace (nor, for the comma repair, a comma). Comment removal is proved to drop a comment that follows comment-free text and to keep text without `<!--`. Only the whitespace passes of the minifier are also proved to give their output a shape: single plain spaces, and no gap between `>` and `<`. The line breaking of `BreakTags` has no shape lemma.

Where the code does something a reader might not expect, the model follows the code:

- Eviction removes the entry *created* earliest, even if it was used again since. Proved as `History.EvictsEarliestCreatedEvenIfRecent`.
- The fallback XML indenter cannot fail, so `format_xml` never returns its error marker once the DOM parser has failed. Proved as `Formatter.FormatXmlFallback`.
- The JSON error text carries the *repaired* text, not the original.
- The character class `[>\\s]` of the XML start pattern is a raw string. It matches `>`, a backslash or the letter `s`, not whitespace, so `<note id="1">` is not XML. Proved as `Formatter.XmlAttributeRejected` and `Formatter.XmlAttributeAccepted`.
- One comment-removal pass can form a new comment opening: `<!<!--x-->--` becomes `<!--`. Proved as `Rewrite.RemovalCanFormOpening`. This is why `MinifyMarkupKeepsText` requires that no comment opening is present.
- A JSON hint whose formatting fails goes straight to detection, never to the XML or HTML hint.

## Model

| member | source | states |
|---|---|---|
| Formatter.IsJsonExactly | src/app/formatter.py:57-86 | content is JSON iff its stripped text is bracketed by `{}`/`[]` and either decodes or contains a double quote |
| Formatter.XmlStartPatternExactly | src/app/formatter.py:103-109 | the pattern `<[a-zA-Z][a-zA-Z0-9]*[>\\s]` matches iff the letter `s` occurs in the alphanumeric run, or the run is followed by `>` or a backslash |
| Formatter.IsXmlStartsWithAngle | src/app/formatter.py:88-117 | whatever is classified as XML starts with `<` after stripping |
| Formatter.XmlAttributeRejected | src/app/formatter.py:103-109 | `<note id="1">` does not match the XML start pattern |
| Formatter.XmlAttributeAccepted | src/app/formatter.py:103-109 | `<notes id="1">` does match it (the `s` of the class) |
| Formatter.IsHtmlExactly | src/app/formatter.py:119-148 | content is HTML iff its lower-cased text contains one of the HTML markers; stripping first changes nothing |
| Formatter.JsonError | src/app/formatter.py:172-174 | the JSON error text starts with the marker that `format_content` tests |
| Formatter.FormatJsonRepair | src/app/formatter.py:163-172 | on a decode error the repair removes only commas and whitespace, and is the identity on text without commas; the repaired text is pretty-printed if it decodes, otherwise the error carries the first message and the repaired text |
| Formatter.FormatJsonFails | src/app/formatter.py:150-174 | when the encoder never emits the marker, the result is an error iff decoding fails and, for a decode error, the repaired text also fails |
| Formatter.XmlDocument | src/app/formatter.py:190-191 | the text handed to the DOM parser always starts with an XML declaration |
| Formatter.DropBlankLinesKeeps | src/app/formatter.py:197-198 | exactly the lines that are not blank are kept |
| Formatter.FormatXmlPretty | src/app/formatter.py:194-199 | with a DOM result, the output is its non-blank lines joined by line breaks |
| Formatter.FormatXmlFallback | src/app/formatter.py:201-206 | when the DOM parser fails, the result starts with the declaration and never with the XML error marker |
| Formatter.DeclarationIsNoMarker | src/app/formatter.py:201-206 | a text starting with the XML declaration cannot start with the XML error marker |
| Formatter.FormatContentBlank | src/app/formatter.py:27-28 | blank content is returned unchanged |
| Formatter.FormatContentStrips | src/app/formatter.py:30 | formatting content is formatting its stripped text |
| Formatter.FormatContentDetects | src/app/formatter.py:48-55 | without a usable hint the result is the JSON, XML or HTML formatting, in that priority, or the stripped text |
| Formatter.DetectionIgnoresStrip | src/app/formatter.py:57-148 | the three detectors give the same answer on the text and on its stripped form |
| Formatter.FormatContentJsonHint | src/app/formatter.py:33-55 | with a JSON hint, the JSON formatting is returned unless it is an error, in which case detection decides |
| Formatter.FormatContentXmlHintFallback | src/app/formatter.py:38-41 | with an XML hint and a failing DOM parser, the hand indenter's layout of the declared document is returned |
| Formatter.StripLowerCommute | src/app/formatter.py:129 | the lowered, stripped text that `_is_html` inspects is the same whether or not the content was stripped first |
| Formatter.MinifyMarkupShape | src/app/formatter.py:349-354 | minified markup has no leading or trailing whitespace, no two whitespace characters in a row, only plain spaces, and no whitespace between `>` and `<` |
| Formatter.MinifyMarkupKeepsText | src/app/formatter.py:349-354 | without comments, minifying keeps every character that is not whitespace, in order |
| Formatter.MinifyMarkupDropsComment | src/app/formatter.py:351 | a leading comment is removed entirely |
| Formatter.MinifyMarkupDropsInnerComment | src/app/formatter.py:349-354 | a comment after comment-free text, as in `<a><!-- x --></a>`, is removed before the whitespace passes; the text before it is kept as it is |
| Formatter.MinifyContentJson | src/app/formatter.py:341-346 | JSON (detected or hinted) is re-encoded compactly, or returned unchanged when it does not decode |
| Formatter.MinifyContentUnchanged | src/app/formatter.py:336-356 | empty content, and content that is neither JSON nor markup, is returned unchanged |
| Indenter.Pad | src/app/formatter.py:238 | the indent of depth n is exactly 2n spaces |
| Indenter.PadCopy | src/app/formatter.py:238 | a padded line is an indented copy of the line, at that depth |
| Indenter.FoldKeepsLines | src/app/formatter.py:225-250 | the indenting loop outputs one line per non-blank input line: that line stripped, behind an even indent; lines the rule puts at depth 0 come out unindented |
| Indenter.SimpleXmlFormat | src/app/formatter.py:208-252 | the method returns the XML layout of its input |
| Indenter.IndentXmlLines | src/app/formatter.py:225-250 | the XML loop computes the fold of its lines |
| Indenter.XmlFoldKeepsLines | src/app/formatter.py:225-250 | XML output lines are the stripped non-blank input lines, indented; declarations are not indented |
| Indenter.KeptFirst | src/app/formatter.py:226-228 | the first non-blank line comes first in the output |
| Indenter.XmlLayoutKeepsDeclaration | src/app/formatter.py:219-232 | a document that starts with a declaration is laid out starting with it |
| Indenter.XmlRuleIndent | src/app/formatter.py:230-250 | a closing tag lowers the level by one, but not below 0; the level rises by one exactly for a `<` line (not a declaration or a closing tag) that neither ends with `/>` nor contains `</` |
| Indenter.AlnumRun | src/app/formatter.py:315 | the run is the longest prefix of ASCII letters and digits |
| Indenter.TagName | src/app/formatter.py:315-319 | a tag name found is non-empty, starts with an ASCII letter, and follows `<` at the start of the line |
| Indenter.SimpleHtmlFormat | src/app/formatter.py:269-324 | the method returns the HTML layout of its input |
| Indenter.IndentHtmlLines | src/app/formatter.py:289-322 | the HTML loop computes the fold of its lines |
| Indenter.HtmlFoldKeepsLines | src/app/formatter.py:289-324 | HTML output lines are the stripped non-blank input lines, indented; doctype lines are not indented |
| Indenter.HtmlRuleIndent | src/app/formatter.py:294-322 | doctype and comment lines leave the level alone; a closing line lowers it, but not below 0; it rises by one exactly for a `<` line that is no doctype, comment, closing or self-closing line, whose lower-cased tag name is not void and that does not close that tag on the same line |
| Rewrite.DropCommaKeepsSolid | src/app/formatter.py:167-168 | removing a comma before a closing bracket keeps every character that is neither a comma nor whitespace |
| Rewrite.DropCommaWithoutComma | src/app/formatter.py:167-168 | text without commas is left unchanged |
| Rewrite.RepairKeepsSolid | src/app/formatter.py:167-168 | both repair passes keep every character that is neither a comma nor whitespace, in order |
| Rewrite.BreakTagsKeepsText | src/app/formatter.py:219 | breaking `>`…`<` gaps into line breaks keeps every character that is not whitespace |
| Rewrite.BreakTagsKeepsPrefix | src/app/formatter.py:219 | a prefix without `>` survives the line breaking |
| Rewrite.FindFrom | src/app/formatter.py:351 | the search for `-->` returns the first occurrence at or after the start |
| Rewrite.RemoveComments | src/app/formatter.py:351 | removing comments never lengthens the text |
| Rewrite.RemoveCommentsWithoutOpening | src/app/formatter.py:351 | text without `<!--` is left unchanged |
| Rewrite.RemoveLeadingComment | src/app/formatter.py:351 | a leading comment is removed up to the first `-->` |
| Rewrite.RemoveCommentAfter | src/app/formatter.py:351 | a comment that follows text without a comment opening is removed up to its first `-->`; the text before it is kept unchanged |
| Rewrite.RemovalCanFormOpening | src/app/formatter.py:351 | removing the comment of `<!<!--x-->--` leaves `<!--` |
| Rewrite.CollapseSpaceShape | src/app/formatter.py:352 | after collapsing, no two whitespace characters are adjacent and every whitespace character is a plain space |
| Rewrite.CollapseSpaceKeepsText | src/app/formatter.py:352 | collapsing keeps every character that is not whitespace |
| Rewrite.CloseGapsShape | src/app/formatter.py:353 | after closing gaps no whitespace lies between `>` and `<`; the collapsed shape is kept |
| Rewrite.CloseGapsKeepsText | src/app/formatter.py:353 | closing gaps keeps every character that is not whitespace |
| Rewrite.StripKeepsText | src/app/formatter.py:354 | the final strip keeps every character that is not whitespace |
| Rewrite.StripKeepsShape | src/app/formatter.py:354 | the final strip keeps the collapsed and gap-free shape |
| Syntax.DetectLanguage | src/app/syntax_highlighter.py:86-133 | the result is always one of `json`, `xml`, `html`, `text` |
| Syntax.DetectByHint | src/app/syntax_highlighter.py:98-111 | empty content is `text`; otherwise a content type naming json, xml or html decides, in that priority |
| Syntax.HintCaseInsensitive | src/app/syntax_highlighter.py:104-111 | the content type is compared case-insensitively, with json before xml |
| Syntax.ShapesExclusive | src/app/syntax_highlighter.py:116-130 | a text starting with a bracket does not start with `<` |
| Syntax.DetectByShape | src/app/syntax_highlighter.py:116-133 | without a hint, a bracketed text is `json` iff it decodes and `text` otherwise; a text starting with `<` is `html` iff it contains `<html` ignoring case, `xml` otherwise; any other text is `text` |
| Syntax.DetectBlank | src/app/syntax_highlighter.py:98-133 | blank content without a hint is `text` |
| Request.PrepareHeadersSpec | src/app/request_handler.py:42-47 | the caller's headers are copied unchanged; only a Content-Type is ever added, exactly when none was given and a body goes with POST, PUT or PATCH |
| Request.ChoosePayloadBlank | src/app/request_handler.py:45-61 | a blank body is sent as no body, though it still triggers the Content-Type default; there is no payload exactly when the body is absent, blank, or JSON `null` sent with the JSON content type |
| Request.ChoosePayloadByType | src/app/request_handler.py:50-61 | only the exact JSON content type decodes the body, and a decoded `null` is no payload; otherwise, or on a decode error, the raw text is sent; any other decoder failure escapes |
| Request.SendArgsSplit | src/app/request_handler.py:72-73 | a decoded object goes as `json=`, anything else as `data=`, never both |
| Request.ErrorRecord | src/app/request_handler.py:96-103 | a request error gives status 0, time 0 and a body that is the prefix followed by the message |
| Request.SendRequestSpec | src/app/request_handler.py:63-103 | the session gets the prepared headers, the split payload and timeout 30; a reply's status, text and size are copied together with the method and time; an exception gives the error record |
| History.ErrorRecordShownAsFailure | src/app/history_manager.py:90-96 | a request error is shown with the failure style; 2xx is success, 3xx redirect |
| History.Without | src/app/history_manager.py:184-192 | removing a key from an order keeps exactly the other keys |
| History.WithoutDistinct | src/app/history_manager.py:184-192 | removal keeps the keys distinct and shortens the order by one exactly when the key was in it |
| History.WithoutFirst | src/app/history_manager.py:173-182 | removing the first key of a distinct order drops its head |
| History.DistinctCard | src/app/history_manager.py:141 | a distinct order has as many keys as elements |
| History.SizeIsOrderLength | src/app/history_manager.py:141 | in a consistent store the dict size, the insertion order and the row list agree in length |
| History.RemoveItemSpec | src/app/history_manager.py:184-192 | removal of a stored key drops it from the data, the order and the rows and keeps the other entries; removing an absent key changes nothing |
| History.AddValid | src/app/history_manager.py:30-50 | adding keeps the store consistent and never above 20 entries |
| History.DistinctAdd | src/app/history_manager.py:126-138 | a new key at either end keeps an order distinct and adds it to the key set |
| History.GrowSpec | src/app/history_manager.py:126-138 | storing a new key keeps the store consistent and adds one entry |
| History.UpdateSpec | src/app/history_manager.py:144-171 | updating keeps the store consistent, its keys and its size |
| History.CreateValid | src/app/history_manager.py:84-142 | creating keeps the store valid |
| History.AddWithoutUrl | src/app/history_manager.py:41-42 | a request with an empty URL is not recorded |
| History.AddExisting | src/app/history_manager.py:44-48 | a request made again replaces the stored response and subtitle, keeps method, URL, body and headers, moves its row to the top and leaves every other entry and the insertion order alone |
| History.CreateSpec | src/app/history_manager.py:84-142 | a new request is stored with all its fields, its row on top; below 20 nothing else changes; at 20 exactly the earliest inserted entry goes and the count stays 20 |
| History.CreateAtBound | src/app/history_manager.py:141-142 | at the bound, growing then evicting replaces the first key of the insertion order by the new one |
| History.CreateAtBoundSize | src/app/history_manager.py:141-142 | at the bound the store size stays 20 after a creation |
| History.EvictsEarliestCreatedEvenIfRecent | src/app/history_manager.py:141-182 | re-using the oldest entry puts its row on top, yet the next new request still evicts it |
| History.HistoryManager.constructor | src/app/history_manager.py:16-26 | a new manager is empty and valid |
| History.HistoryManager.AddToHistory | src/app/history_manager.py:30-50 | the new state is the abstract Add of the old one |
| History.HistoryManager.ClearHistory | src/app/history_manager.py:52-57 | everything is removed |
| History.HistoryManager.GetHistoryData | src/app/history_manager.py:59-61 | the entry for a key, present iff stored |
| History.HistoryManager.GetRequestKeyFromRow | src/app/history_manager.py:67-80 | a row gives its key iff it is stored |
| History.HistoryManager.CreateHistoryItem | src/app/history_manager.py:84-142 | the new state is the abstract Create of the old one |
| History.HistoryManager.UpdateHistoryItem | src/app/history_manager.py:144-171 | the new state is the abstract Update of the old one |
| History.HistoryManager.RemoveOldestItem | src/app/history_manager.py:173-182 | the new state is the abstract RemoveOldest of the old one, still consistent |
| History.HistoryManager.RemoveHistoryItem | src/app/history_manager.py:184-192 | the new state is the abstract RemoveItem of the old one, still consistent |
| Search.ForwardSearch | src/app/search_panel.py:132-142 | the result is the first case-insensitive match at or after the start, with its end; none means no match from there |
| Search.AllMatchesSound | src/app/search_panel.py:130-146 | every recorded match is a real match of the query |
| Search.AllMatchesOrdered | src/app/search_panel.py:130-146 | the matches are in increasing order and do not overlap |
| Search.AllMatchesComplete | src/app/search_panel.py:130-146 | every match position is the start of a recorded match or lies under one |
| Search.FindMatches | src/app/search_panel.py:130-146 | the search loop records exactly the non-overlapping forward matches |
| Search.NextIndex | src/app/search_panel.py:157-162 | the next index stays in range |
| Search.PrevIndex | src/app/search_panel.py:169-174 | the previous index stays in range |
| Search.NextIndexValue | src/app/search_panel.py:157-162 | next is the successor, wrapping from the last match to the first |
| Search.PrevIndexValue | src/app/search_panel.py:169-174 | previous is the predecessor, wrapping from the first match to the last |
| Search.NavigationWraps | src/app/search_panel.py:152-174 | next and previous undo each other and wrap at both ends |
| Search.PlaceholderShowsCount | src/app/search_panel.py:196-201 | with a current match the placeholder shows its 1-based position and the total; otherwise the idle text |
| Search.SearchPanel.constructor | src/app/search_panel.py:24-62 | no matches, no current match, idle placeholder, both buttons insensitive |
| Search.SearchPanel.ClearHighlights | src/app/search_panel.py:82-96 | matches, current match, highlights and selection are reset; the buttons turn off |
| Search.SearchPanel.OnSearchChanged | src/app/search_panel.py:100-118 | the matches are those of the stripped entry text (none when blank), all highlighted; the first is current and selected; buttons and placeholder follow |
| Search.SearchPanel.HighlightAllMatches | src/app/search_panel.py:120-148 | the matches of the query are recorded and highlighted; nothing else changes |
| Search.SearchPanel.OnNextMatch | src/app/search_panel.py:152-162 | with a current match the next one, wrapping, becomes current and selected, and the buttons and placeholder follow; otherwise the cursor, selection, placeholder and buttons are unchanged; the cursor always names a match |
| Search.SearchPanel.OnPrevMatch | src/app/search_panel.py:164-174 | with a current match the previous one, wrapping, becomes current and selected, and the buttons and placeholder follow; otherwise the cursor, selection, placeholder and buttons are unchanged; the cursor always names a match |
| Search.SearchPanel.UpdateButtons | src/app/search_panel.py:187-201 | both buttons are sensitive iff there are matches; the placeholder follows the current match |
| Search.SearchPanel.OnCloseSearch | src/app/search_panel.py:203-209 | the entry is cleared, matches, cursor, highlights and selection are reset, both buttons turn off, the idle placeholder returns and the panel is hidden |
| Headers.Entries | src/app/headers_panel.py:58-94 | the (key, value) pairs of the rows, in row order |
| Headers.RemoveRowSpec | src/app/headers_panel.py:100-102 | deleting a row removes exactly that row and keeps the others in order; an unknown row changes nothing |
| Headers.RemoveRowKeeps | src/app/headers_panel.py:100-102 | deletion only removes rows and keeps row identities distinct |
| Headers.Cleaned | src/app/headers_panel.py:123-124 | every key and value is stripped, row by row |
| Headers.GatherKeys | src/app/headers_panel.py:114-130 | a key is collected iff some pair with it has both key and value non-empty |
| Headers.GatherLastWins | src/app/headers_panel.py:114-130 | a repeated key takes the value of its last non-empty pair |
| Headers.CollectKeys | src/app/headers_panel.py:104-132 | the collected keys are exactly the stripped keys of rows with non-blank key and value |
| Headers.CollectLastWins | src/app/headers_panel.py:104-132 | each collected value is the stripped value of the last such row with that key |
| Headers.CollectClean | src/app/headers_panel.py:123-128 | collected keys and values are non-empty and already stripped |
| Headers.DefaultsCollect | src/app/headers_panel.py:45-56 | the default rows collect into Content-Type `application/json`, User-Agent `Rappit/1.0`, Accept `*/*` |
| Headers.DefaultsUnpadded | src/app/headers_panel.py:49-53 | the default keys and values are non-empty and have no surrounding whitespace |
| Headers.GatherDefaults | src/app/headers_panel.py:49-53 | the default pairs gather into the three default headers |
| Headers.HeadersPanel.constructor | src/app/headers_panel.py:15-43 | a new panel holds exactly the default rows |
| Headers.HeadersPanel.AddDefaultHeaders | src/app/headers_panel.py:45-56 | the three default rows are appended after the existing ones |
| Headers.HeadersPanel.AddHeaderRow | src/app/headers_panel.py:58-94 | one row with the given key and value and a fresh identity is appended |
| Headers.HeadersPanel.OnAddHeader | src/app/headers_panel.py:96-98 | one empty row is appended |
| Headers.HeadersPanel.OnDeleteHeader | src/app/headers_panel.py:100-102 | exactly the clicked row is removed |
| Headers.HeadersPanel.GetHeaders | src/app/headers_panel.py:104-132 | the returned dictionary is the collection of the current rows |
| PyStr.LStrip | src/app/formatter.py:30 | the result is a suffix, what was dropped is whitespace, and it does not start with whitespace |
| PyStr.RStrip | src/app/formatter.py:309 | the result is a prefix, what was dropped is whitespace, and it does not end with whitespace |
| PyStr.StripSlice | src/app/formatter.py:30 | `strip()` is the slice between the leading and the trailing whitespace |
| PyStr.StripTrims | src/app/formatter.py:27-30 | the strip is empty iff the text is blank; otherwise it neither starts nor ends with whitespace |
| PyStr.StripIdempotent | src/app/formatter.py:30 | stripping twice is stripping once |
| PyStr.ContainsStrip | src/app/formatter.py:113-148 | for a pattern without edge whitespace, containment is unaffected by stripping |
| PyStr.Lower | src/app/formatter.py:129 | lower-casing maps each character and keeps the length |
| PyStr.LowerIdempotent | src/app/formatter.py:129 | lowering twice is lowering once |
| PyStr.StripLower | src/app/formatter.py:129 | stripping and lowering commute |
| PyStr.Split | src/app/formatter.py:220 | `split` gives at least one part and no part contains the separator |
| PyStr.JoinSplit | src/app/formatter.py:220-252 | joining the parts with the separator gives back the text |
| PyStr.NatToString | src/app/search_panel.py:198 | a count prints as decimal digits without a leading zero |
| PyStr.DecimalRoundTrip | src/app/search_panel.py:198 | reading the printed count back gives the count |

## Left out

- Widgets, layout, styling, labels, tooltips, icons and signal wiring are not modelled. Only the state the handlers read and write is.
- Threads and I/O are not modelled: the HTTP call, the clock and the minidom parser are parameters.
- `round(x, 2)` of the response time is not modelled. The elapsed milliseconds are a parameter, copied as given.
- The Python `json` module is not modelled. Its decoder and encoders are a `Codec` parameter, and an encoder failure is not modelled.
- `xml.dom.minidom.parseString(...).toprettyxml(...)` is not modelled. It is a `Dom` parameter that gives the pretty text or a failure.
- The syntax_highlighter.py widget code is not part of this model; only `detect_language` is. The same goes for the rest of request_handler.py: URL validation, `set_ssl_verification`, `last_response` and the session set-up.
- History.SubtitleOf: responses always carry a status code in the model, so the `get(..., 0)` default is not exercised.
- History.HistoryManager.GetRequestKeyFromRow: a row widget is identified by its key, so the row lookup by widget identity and its child walk are not modelled.
- History.HistoryManager.CreateHistoryItem requires the key to be absent: the method is private, and `add_to_history` only calls it so.
- History.HistoryManager: the `connect_history_activated` callback and the row widgets' contents are left out.
- Search.SearchPanel.HighlightAllMatches requires a non-empty query, which its only caller guarantees.
- Search: GTK's case-insensitive comparison is the parameter `fold`. Text iterators are character offsets. Creating the highlight tag and its colour, and scrolling to the selection (`select_match`), are left out.
- Search.SearchPanel.OnCloseSearch does not model the nested `search-changed` signal that `set_text("")` fires. Its effect, clearing the highlights, is already part of the method's postcondition.
- Search.FindMatches, Indenter.IndentXmlLines and Indenter.IndentHtmlLines hold, as module-level methods over a sequence, the loops the source runs inside instance methods and `_simple_*_format`.
- Headers.HeadersPanel.GetHeaders: every row is a full key/value row, so the `isinstance` and child checks of the widget walk are not modelled.
- PyStr.Lower lowers ASCII letters only. Every use compares the result against ASCII patterns, and no non-ASCII character lowers to one of their letters except U+0130 and U+212A. Those two are not modelled.
- Indenter: the literal layout of `<a><b>x</b></a>` (three lines, the middle one indented by two spaces) is not proved by evaluation. Unfolding the splitting and the fold on a literal is too costly for the verifier. `XmlFoldKeepsLines` and `XmlRuleIndent` state the rule that gives it.
- Formatter.MinifyMarkupKeepsText requires the input to contain no `<!--`. Removing a comment can join the text around it into a new `<!--` (`Rewrite.RemovalCanFormOpening`), and the lemma does not state what is kept in general once comments are present. `MinifyMarkupDropsInnerComment` covers a comment after comment-free text.
- Headers.Collect is a map, so the insertion order of the dictionary `get_headers` builds is not modelled. Only its keys and values are.
- Request.ChoosePayload: other falsy decoded values (`false`, `0`, `[]`, `""`) are passed as `data=` as in the code. That `requests` then sends no body for them is not modelled.
