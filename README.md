# Google Scholar alert parser — a Dafny model

`check_email.py` reads Google Scholar alert e-mails and extracts the papers they
announce. It keeps an insertion-ordered title→link dictionary on disk (the
"workfile"). For each mail whose subject is an alert subject, it parses either
the plain-text body or the first HTML part. It merges the extracted records into
the dictionary, counts the titles it had already seen ("doubles") and rewrites
the workfile at the end.

The model is split into six modules:

- `PyStr` (`pystr.dfy`): the Python string operations the parser relies on.
  - `in` is `Contains`, built on `Find`.
  - `split(sep)[0]` is `Before`; `split(sep)[1]` is `SecondField`, with `None` standing for the IndexError.
  - `replace` is `Replace`: left to right, non-overlapping.
  - `strip()` and `strip(chars)` are `Strip` and `StripChars`. The argument of `strip` is a character set.
  - `Result<T>` is `Ok(value)` or `IndexError`.
- `Filters` (`filters.dfy`): the blacklist and the subject whitelist, and the substring checks over them.
- `Papers` (`papers.dfy`): records and the insertion-ordered dict.
  - A dict is a `seq<Paper>` with distinct titles.
  - `Put` is `d[title] = link`: an existing key keeps its position, a new key is appended.
  - `PutAll` assigns a sequence of pairs in order. `Doubles` counts the assignments that hit a key already present.
- `PlainBody` (`plain_body.dfy`): `parse_plain_body`.
  - It works on the list of body lines.
  - The title uses Python's negative-index wrap-around for `msg[i-3]`.
  - The scan is proved against a specification function: the per-line outcomes, then `Collect`.
- `HtmlBody` (`html_body.dfy`): `fetch_title_link_from_elements` and `parse_html_body`.
  - An element of the lxml tree is an `Element`: its tag, its serialized markup, its tail text (`None` or a string) and its children. The markup is what `etree.tostring` returns by default, so it already ends with the tail text.
  - `html.unescape` is a function parameter.
  - The depth-first walk is written once, generically (`Walk`). It is instantiated with the result-anchor test and the record extraction (`Fetch`).
- `Store` (`paper_store.dfy`): the workfile and the mail handling of `scan_email_starttls`.
  - A workfile line is `title;link\n`. `LoadLine` is the loader's split.
  - The save/load round trip is proved.
  - A mail body is a `Body` (plain text lines, multipart parts, or anything else).
  - `PaperStore` is a class holding the dict and the doubles counter. `Load` is proved against `PutAll` and `Loaded` and leaves the doubles counter unchanged. `Merge` and `Ingest` are proved against `PutAll` and `Doubles`, and `Save` against `SaveLines`.

Behaviours of the code that a reader might not expect, which the model keeps:

- `.strip("[PDF]")` and `.strip("[HTML]")` trim *character sets*, not the literal tokens. `TrimTitle` does the same, so a title such as `PDF risk models` loses its leading `PDF`.
- The plain-text link always gets `.pdf` appended after cutting at the first `.pdf` (`RawLink`), even when the URL had no `.pdf`.
- The title takes the three raw lines before the link line. Blank and noise lines count too.
- Near the top of the body, `msg[i-3]` wraps around to the end of the list (`PyIndex`). No clamping happens.
- The scan raises IndexError when the index lies before `-len(msg)`. This happens only for a link line at index 0 of a body of one or two lines (`PlainBodyRaisesIff`).
- An HTML link is cut at `.pdf` and `&` only when the text holds the redirect marker.
- `etree.tostring` includes the element's tail by default. The anchor text therefore holds the tail twice: once in the markup and once appended as `str(element.tail)`. The noise-word test already sees the tail too.
- A record whose anchor text lacks `>` or a space raises IndexError (`AnchorRecord`). So does one whose text mentions the redirect marker when the marker is missing from the second space-separated field once `href=` is removed (`AnchorLink`).

## Model

| member | source | states |
|---|---|---|
| Filters.CheckBlacklist | check_email.py:24-29 | a line is noise exactly when some blacklist word occurs in it |
| Filters.CheckSubjectWhitelist | check_email.py:31-36 | a subject is accepted exactly when some whitelist phrase occurs in it |
| Filters.EmptyNotBlacklisted | check_email.py:24-29 | the empty string is never noise |
| Filters.BlacklistSuperstring | check_email.py:24-29 | any text containing a noise line is noise |
| Filters.EmptySubjectRejected | check_email.py:31-36 | an empty subject is never accepted |
| Filters.WhitelistSuperstring | check_email.py:31-36 | any subject containing an accepted subject is accepted |
| PyStr.StartsWith | check_email.py:57 | `s.startswith(p)`: `p` is the prefix of `s` of its length, as at check_email.py:57 and check_email.py:82 |
| PyStr.Find | check_email.py:58 | the result is an occurrence of the pattern with none before it, and `None` means no occurrence at all |
| PyStr.Contains | check_email.py:58 | `p in s` holds exactly when `p` occurs at some index of `s` |
| PyStr.Before | check_email.py:62 | `split(sep)[0]` is a prefix free of `sep`, followed by `sep` when `sep` occurs, and the whole string otherwise |
| PyStr.FieldInPlace | check_email.py:131 | the first field of a suffix sits at the suffix's start and is followed by `sep` or by the end of the string |
| PyStr.FieldFrom | check_email.py:131 | the field starting at an index is free of `sep`, sits there, and runs up to the next `sep` or the end |
| PyStr.SecondField | check_email.py:131 | `split(sep)[1]` exists exactly when `sep` occurs; it is free of `sep`, sits right after the first `sep`, and runs up to the second `sep` or the end of the string |
| PyStr.SplitAtFirst | check_email.py:131 | splitting at the first occurrence of a character gives the text before it and the field after it |
| PyStr.Replace | check_email.py:62 | replacing a pattern that does not occur leaves the string unchanged |
| PyStr.ReplaceAll | check_email.py:62 | a chain of `replace` calls applied in order, as at check_email.py:62 and check_email.py:87; `ReplaceDeletesChar` and `UnwrapDropsBrackets` state what it removes |
| PyStr.ReplaceChars | check_email.py:62 | replacing introduces no character that was in neither the string nor the replacement |
| PyStr.ReplaceDeletesChar | check_email.py:62 | deleting a one-character pattern leaves no occurrence of that character |
| PyStr.DropTrailingChar | check_email.py:131 | deleting the newline from a field that ends in its only newline drops exactly that newline |
| PyStr.StripChars | check_email.py:66 | the stripped string neither starts nor ends with a character of the set |
| PyStr.StripCharsInfix | check_email.py:66 | stripping removes only characters of the set, from the two ends |
| PyStr.StripAllInfix | check_email.py:66-67 | a chain of strips yields an infix of its input |
| PyStr.StripAll | check_email.py:66-67 | a chain of strips applied in order; the result neither starts nor ends with a character of the last set |
| PyStr.Strip | check_email.py:55 | the stripped line neither starts nor ends with whitespace |
| PyStr.ContainsAny | check_email.py:84 | true exactly when one of the words occurs |
| PyStr.ContainsAnyInfix | check_email.py:84 | a text containing a matching text matches too |
| Papers.ToMap | check_email.py:117-118 | the keys of the mapping a dict denotes are exactly its titles |
| Papers.ToMapLastWins | check_email.py:117-118 | a pair not followed by its title again gives the value the mapping holds for that title |
| Papers.DictLookup | check_email.py:189-193 | in a dict, every stored pair is the mapping's entry for its title |
| Papers.DictEntry | check_email.py:189-193 | every key of a dict comes with its value as a stored pair |
| Papers.Put | check_email.py:68 | assignment keeps the existing keys in place and appends a new key at the end |
| Papers.PutDistinct | check_email.py:68 | assignment keeps the titles of a dict distinct |
| Papers.PutUpdates | check_email.py:68 | assignment updates the denoted mapping at exactly one key |
| Papers.PutPresent | check_email.py:193 | assigning a pair the dict already holds changes nothing |
| Papers.PutAll | check_email.py:117-118 | assigning pairs to a dict in order; `MergeContents` and `MergeKeepsOrder` state its result |
| Papers.PutAllSnoc | check_email.py:117-118 | assigning pairs in order is a left fold of single assignments |
| Papers.MergeContents | check_email.py:189-193 | merging pairs into a dict keeps titles distinct; the denoted mapping is the old one overridden by the pairs' mapping |
| Papers.MergeKeepsOrder | check_email.py:189-193 | a merge keeps the existing titles in their insertion order at the front |
| Papers.FromPairs | check_email.py:117-118 | `ret[k] = v` for each pair in order into a fresh dict; `FromPairsLastWins`, `FromPairsEntries` and `FromPairsKeys` state its content |
| Papers.FromPairsLastWins | check_email.py:117-118 | in the dict built from pairs, the last pair for a title wins |
| Papers.FromPairsEntries | check_email.py:117-118 | the dict built from pairs has distinct titles and holds only pairs it was given |
| Papers.FromPairsKeys | check_email.py:117-118 | the keys of the dict built from pairs are exactly the titles among the pairs |
| Papers.PutFrom | check_email.py:68 | after an assignment every pair is the assigned one or an old one |
| Papers.PutAllFrom | check_email.py:117-118 | after a merge every pair is an old one or one of the merged pairs |
| Papers.AssignPairs | check_email.py:117-118 | the assignment loop builds exactly the dict of the pairs |
| Papers.PutAllDistinct | check_email.py:130-131 | assigning pairs with new, distinct titles appends them in order |
| Papers.Doubles | check_email.py:189-193 | the number of assignments, in order, whose title the dict already holds at that moment; `DoublesCountKnownTitles` and `MergePresent` state its value |
| Papers.CountKnown | check_email.py:190-191 | the reference count that `DoublesCountKnownTitles` equates with `Doubles`: the records whose title is a key of the starting dict, at most the number of records |
| Papers.CountKnownSame | check_email.py:190-191 | the count depends only on which record titles are keys |
| Papers.DoublesCountKnownTitles | check_email.py:189-193 | for records with distinct titles, the doubles of a merge are the records whose title the dict already held |
| Papers.MergePresent | check_email.py:189-193 | merging records the dict already holds changes nothing and counts every record as a double |
| Papers.MergeTwice | check_email.py:189-193 | merging the same records twice changes nothing the second time, and the second pass counts every record as a double |
| PlainBody.IsLinkLine | check_email.py:49-60 | a line becomes a record when it is non-empty, not noise, starts with `<htt` once stripped, and does not mention `patent` |
| PlainBody.RawLink | check_email.py:62 | the redirect prefix and the angle brackets come off, the link is cut before the first `.pdf` of the unwrapped line (the whole line when it has none), and `.pdf` is appended; `RawLinkShape` states this |
| PlainBody.PdfAppendedOnce | check_email.py:62 | appending `.pdf` to text without `.pdf` yields exactly one occurrence, at the end |
| PlainBody.UnwrapTailDropsBrackets | check_email.py:62 | removing `<` and then `>` leaves no angle bracket |
| PlainBody.UnwrapDropsBrackets | check_email.py:62 | the whole replace chain leaves no angle bracket |
| PlainBody.RawLinkShape | check_email.py:62 | the link is a prefix of the unwrapped line followed by `.pdf`; when the unwrapped line holds `.pdf`, the cut is at its first `.pdf`, otherwise the link is the whole unwrapped line plus `.pdf`; it has no angle brackets, ends in `.pdf` and holds no other `.pdf` |
| PlainBody.PlainLink | check_email.py:62-64 | the final link is the raw link up to its first `&hl`, or the whole raw link when it holds none; it holds no `&hl` |
| PlainBody.TrimTitle | check_email.py:66-67 | the title neither starts nor ends with whitespace |
| PlainBody.TrimTitleInfix | check_email.py:65-67 | the title is an infix of the joined lines |
| PlainBody.PyIndex | check_email.py:65 | Python indexing: negative indices count from the end, anything outside `-len..len-1` raises |
| PlainBody.PlainTitle | check_email.py:65 | the title exists exactly when `i-3 >= -len(msg)` |
| PlainBody.PlainTitleWindow | check_email.py:65 | the title is built from lines `i-3..i-1`, or from the last three lines when `i` is 0 |
| PlainBody.LineRecord | check_email.py:49-68 | a line yields nothing exactly when it is not a link line; it raises exactly when it is a link line and `msg[i-3]` is out of range |
| PlainBody.ScanLine | check_email.py:49-68 | one pass of the loop body yields the line's outcome |
| PlainBody.Collect | check_email.py:48-68 | the scan over line outcomes collects the records in line order until the first IndexError; `CollectRaise`, `CollectMembers` and `CollectLastWins` state its behaviour |
| PlainBody.PlainRecords | check_email.py:39-75 | `parse_plain_body` returns the dict built from the collected records, or raises; `PlainBodyRaisesIff` and `PlainBodyKeys` state what it holds |
| PlainBody.ParsePlainBody | check_email.py:39-75 | the scan returns the dict of the collected records in line order, or raises |
| PlainBody.CollectRaise | check_email.py:48-68 | the scan raises exactly when some line raises |
| PlainBody.CollectMembers | check_email.py:48-68 | the collected records are exactly the records of the lines |
| PlainBody.CollectNothing | check_email.py:48-68 | with no records and no error, the scan collects nothing |
| PlainBody.CollectLastWins | check_email.py:68 | the last line with a given title decides its link |
| PlainBody.CollectTitles | check_email.py:48-68 | the collected titles are exactly the titles of the lines' records |
| PlainBody.CollectKeys | check_email.py:48-68 | the keys of the resulting dict are exactly the titles of the lines' records |
| PlainBody.PlainBodyRaisesIff | check_email.py:65 | the parser raises exactly when the body has one or two lines and its first line is a link line |
| PlainBody.PlainBodyWithoutLinks | check_email.py:48-75 | a body without link lines gives the empty dict |
| PlainBody.PlainLastLineWins | check_email.py:68 | a link line's record is in the result unless a later link line has the same title |
| PlainBody.PlainBodyKeys | check_email.py:48-68 | the result has distinct titles, and its keys are exactly the titles of the link lines' records |
| HtmlBody.IsResultAnchor | check_email.py:82-84 | an element is a result anchor when its markup starts with `<a href=` and mentions none of the four noise words |
| HtmlBody.TailText | check_email.py:86 | `str(element.tail)` is the tail text when there is one, and `None` when there is none |
| HtmlBody.AnchorText | check_email.py:86-87 | the anchor text is the markup and the tail, with the four substitutions applied in order, then unescaped |
| HtmlBody.AnchorTitle | check_email.py:89 | the title exists exactly when the text has a `>`; it is the stripped run between the first `>` and the next `<` or `>` (or the end), so it holds no angle bracket and has no surrounding whitespace |
| HtmlBody.TitleSpanOf | check_email.py:89 | the field after the first `>`, cut at its first `<` and stripped, is the stripped run between the first `>` and the next `<` or `>` (or the end) |
| HtmlBody.RedirectTarget | check_email.py:91-94 | the redirect target exists exactly when the marker occurs; it is the text after the marker cut before its first `.pdf`, with `.pdf` appended, then cut before its first `&`, so it holds no `&` |
| HtmlBody.AnchorLink | check_email.py:90-94 | the link is the second space-separated field with `href=` removed, or, when the text mentions the redirect marker, that field's redirect target; it raises exactly when the text has no space, or the text mentions the marker and that field does not |
| HtmlBody.AnchorRecord | check_email.py:86-95 | a result anchor yields a record exactly when both the title and the link exist |
| HtmlBody.Walk | check_email.py:77-104 | an accepted element yields its own record or raises; any other element yields its children's records in order (instantiated by `Fetch`) |
| HtmlBody.WalkAll | check_email.py:99-104 | `return_list.extend(...)` over the children in order; the first IndexError ends it |
| HtmlBody.InTreeTrans | check_email.py:99-102 | a descendant of a descendant is a descendant |
| HtmlBody.WalkSound | check_email.py:77-104 | every record the walk returns comes from an accepted element of the subtree |
| HtmlBody.WalkAllSound | check_email.py:99-104 | every record from a list of children comes from an accepted element under one of them |
| HtmlBody.WalkAllRaise | check_email.py:99-104 | walking children raises exactly when walking one of them raises |
| HtmlBody.WalkAllHas | check_email.py:99-104 | when the walk over a list succeeds, each element's walk succeeds and all its records are in the result |
| HtmlBody.Parsed | check_email.py:113-118 | the walk from every anchor in order, its records assigned to a fresh dict, or the first IndexError |
| HtmlBody.ParseAnchors | check_email.py:113-118 | the two loops return the dict of all the records of all the anchors, or raise |
| HtmlBody.ParsedRaisesIff | check_email.py:113-115 | parsing raises exactly when the walk of some anchor raises |
| HtmlBody.ParsedSound | check_email.py:113-118 | the result has distinct titles, and every record comes from an accepted element under one of the anchors |
| HtmlBody.ParsedLastWins | check_email.py:117-118 | the last record with a title decides its link |
| HtmlBody.Fetch | check_email.py:77-104 | `fetch_title_link_from_elements` is the walk with the result-anchor test and the anchor record; `FetchAccepted`, `FetchRejected` and `FetchSound` state its behaviour |
| HtmlBody.FetchAccepted | check_email.py:82-95 | a result anchor gives exactly its own record, or raises, and its children are never visited |
| HtmlBody.FetchRejected | check_email.py:99-104 | any other element gives the records of its children in order, and a leaf gives none |
| HtmlBody.FetchSound | check_email.py:77-104 | every record comes from a result anchor in the subtree, and never from a markup mentioning "patent" |
| HtmlBody.IterAnchors | check_email.py:113 | `iter('a')` lists the `a` elements of the tree in document order, an element before its descendants |
| HtmlBody.IterAnchorsInTree | check_email.py:113 | `iter('a')` yields only `a` elements of the document |
| HtmlBody.IterAnchorsAllInForest | check_email.py:113 | the iteration over a list of children yields only `a` elements under those children |
| HtmlBody.IterAnchorsAll | check_email.py:113 | the `a` elements under a list of children, tree after tree in document order |
| HtmlBody.IterAnchorsComplete | check_email.py:113 | every `a` element of the tree is yielded by `iter('a')` |
| HtmlBody.IterAnchorsAllHas | check_email.py:113 | every `a` element under one of the children is yielded by the iteration over them |
| HtmlBody.HtmlRecords | check_email.py:106-121 | `parse_html_body` returns the dict of the records of every `a` element in document order, or raises; `HtmlBodySound` states what it holds |
| HtmlBody.ParseHtmlBody | check_email.py:106-121 | the parser returns the dict built from the records of every `a` element in document order, or raises |
| HtmlBody.HtmlBodySound | check_email.py:106-121 | the result has distinct titles, and each record comes from a result anchor of the document |
| HtmlBody.HtmlBodyComplete | check_email.py:106-121 | when the parse succeeds, every result anchor of the document yields a record whose title is a key of the result |
| Store.SaveLine | check_email.py:221 | a dict entry is written as `title;link\n` |
| Store.SaveLines | check_email.py:219-221 | one `title;link\n` line per dict entry, in dict order |
| Store.LoadLine | check_email.py:131 | a line loads exactly when it holds `;`; the title is the line up to its first `;`; the link is the second `;`-field with its newlines removed, so it holds no `;` and no newline |
| Store.Loaded | check_email.py:130-131 | the records of the workfile lines in order, as long as each line holds `;` |
| Store.LoadSavedLine | check_email.py:131 | loading a saved line gives back the record when neither field holds `;` or a newline |
| Store.SavedLinesLoadable | check_email.py:130-131 | every saved line can be loaded |
| Store.LoadSavedLines | check_email.py:130-131 | loading the saved lines gives back the records in order |
| Store.SaveLoadRoundTrip | check_email.py:219-221 | saving a dict and loading the file again gives back the same dict, order included |
| Store.ReadLines | check_email.py:130 | `readlines` splits the file text after each newline, keeping it, with a last line without newline if any |
| Store.Written | check_email.py:221 | the file text written is the concatenation of the lines in order |
| Store.ReadLinesCons | check_email.py:130 | `readlines` ends a line at its newline and keeps it |
| Store.ReadSavedLines | check_email.py:130 | reading back the written file gives exactly the saved lines |
| Store.FirstHtml | check_email.py:195-202 | the chosen part is the first HTML part of the mail (every part before it is not HTML), and none is chosen exactly when there is no HTML part |
| Store.PartsRecords | check_email.py:194-202 | a multipart mail contributes the parse of its first HTML part, and nothing when it has none |
| Store.MailRecords | check_email.py:180-202 | the records of a mail: none for a subject off the whitelist, else the plain-text parse, the first HTML part's parse, or none |
| Store.ParseParts | check_email.py:195-202 | the loop parses only the first HTML part |
| Store.ParseMail | check_email.py:180-202 | the records of a mail are those of its plain body or of its first HTML part, or none when the subject is not an alert subject |
| Store.UnlistedMailIgnored | check_email.py:180 | a mail with a subject off the whitelist contributes nothing |
| Store.MailRecordsDistinct | check_email.py:188-197 | the records a mail contributes have distinct titles |
| Store.PaperStore.constructor | check_email.py:126-141 | the run starts with an empty dict and no doubles |
| Store.PaperStore.Load | check_email.py:128-131 | loading assigns the loaded records in file order; it fails exactly when some line lacks `;`, and then keeps the lines before it |
| Store.PaperStore.Merge | check_email.py:189-193 | the merge loop assigns each record in order and counts each title already present |
| Store.PaperStore.Save | check_email.py:219-221 | the lines written are the saved form of the dict |
| Store.PaperStore.Ingest | check_email.py:180-202 | a mail's records are merged with their doubles counted; a raising parser leaves the store unchanged |
| Store.MergeOutcome | check_email.py:189-193 | after a merge the titles are distinct, every record is present, untouched titles keep their link, and the doubles are the records already known |

## Left out

- IMAP session (login, inbox selection, UID search, fetching, copying to the trash, expunge): network I/O. `PaperStore.Ingest` models the handling of one fetched mail, and the run is a sequence of `Ingest` calls.
- The per-UID loop in reverse order is left out; the caller's sequence of `Ingest` calls plays its part.
- The check that the fetched data is non-empty is left out too. A caller skips an empty fetch by not calling `Ingest`.
- Subject header decoding (`email.header.decode_header` and the `\r`, `\n`, `\xa0` clean-up): foreign library code. The subject is an input string.
- MIME parsing, content types, `get_payload` and transfer decoding: foreign library code. The body arrives already classified as a `Body`.
- `splitlines()` of the plain payload: the plain body arrives as its list of lines.
- `etree.HTML`, `etree.tostring` and lxml's tree: foreign library code. Each `Element` carries its serialized markup, and the parse is its input.
- `html.unescape`: foreign library code, passed in as a function parameter.
- Opening, reading, writing and closing the workfile: file I/O. `Load` takes the lines and `Save` returns them; `ReadLines` and `Written` model `readlines` and `write` on the file text.
- A missing workfile is left out. The program aborts with FileNotFoundError there.
- The universal-newline translation of `\r` by text-mode reads is left out.
- Store.PaperStore.Load: returns `false` at the first line without `;`, after loading the lines before it. The program itself stops there with an IndexError and saves nothing.
- Store.PaperStore.Ingest: returns `false` when a parser raises, leaving the store unchanged. The program itself aborts the whole run, and the workfile is not rewritten.
- Printing the progress, the error messages, the exit codes and the final doubles count: console output. The count is the `doubles` field.
- Python's width-free integers and strings need no wrap-around. Unicode case and normalisation play no part: every comparison is exact.
