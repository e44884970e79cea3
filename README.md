# Study Bible: a verified model of its core

Study Bible is a Bible reader with a "related verses" panel. Its core is four
programs:

- **`ml/prepare_data.py`** cleans verse text and analysis paragraphs. `clean_text` removes the characters outside `\w`, `\s` and `.,;:()[]{}`, collapses runs of whitespace and strips the ends. `split_into_paragraphs` splits on blank lines. The per-line loop parses `book,chapter,verse,text` rows.
- **`ml/generate_embeddings.py`** flattens the corpus. Every verse of every chapter of every book gets one metadata entry with 1-based chapter and verse numbers. It also gets one embedding of the text `"{name} {chapter}:{verse} {text}"`.
- **`server/app.py`** serves `POST /api/similar_verses`:
  - a request lacking a truthy `book`, `chapter` or `verse` gets a 400;
  - otherwise the server finds the first metadata entry for that verse and asks the index for its 51 nearest neighbours;
  - it answers with those neighbours as citations, the queried verse left out.
- **`client/src/StudyBible.tsx`** is the reader: book and chapter selection, hover and click on verses, the request for related verses, and what the two panes render.

## How each part is modelled

| file | what it holds |
|---|---|
| `wrappers.dfy` | `Option` and `Result`. |
| `decimal.dfy` | Integers printed in decimal, and Python's `int()` on decimal text. |
| `api.dfy` | The request and reply records that the reader and the endpoint share, and the citation format `"{book} {chapter}:{verse}"`. |
| `prepare_data.dfy` | Functions for `clean_text` and `split_into_paragraphs`. The regular expressions are written out as character-level recursions. The line loop is a method proved against a function (`Collect`). |
| `generate_embeddings.dfy` | The triple loop as three methods, one per loop level. Each is proved against a function from the nested corpus to the flat metadata list (`CorpusMeta`). The embedding model is a function parameter. |
| `server.dfy` | The endpoint. JSON field values are a small `Json` datatype, with Python's `int()` of a boolean giving 0 or 1. `int(chapter)` can fail; that failure is the 500 outcome. The vector index is a parameter `search` that maps a query position to the 51 positions the index returns. |
| `reader.dfy` | The React component as a class `StudyBible`: its fields are the component's state; `Commit` runs the chapter-load effect when the selected book or chapter changed since its last run; `Click` is the click handler up to its `await` and returns the request it sends; `Complete` applies the request's outcome. The rendering decisions are functions of the state. Event-sequence methods drive one instance through the interactions that matter. |

The reader does not guard against stale responses, keeps the selection across
chapter changes and shares one error field between its two panes; the model
follows the code:

- A related-verses response is applied whenever it arrives, with no check against the current selection. `LateResponseWins` shows a late answer for verse 1 listed under verse 2. `ToggleOffWhileLoading` shows that deselecting leaves the loading card up.
- Changing chapter clears neither the selection nor the related list. The verse with the selected number stays highlighted in the new chapter (`ChapterChangeKeepsSelection`).
- The chapter load and the request share one `error` field. A failed request therefore replaces the chapter text with its message (`FailureHidesChapter`).
- The chapter-load effect never awaits, so `isLoading` is never left set and the spinner of the left pane is never rendered. This is the `!isLoading` part of `StudyBible.Valid`.

## Model

| member | source | states |
|---|---|---|
| `Decimal.NatToString` | ml/generate_embeddings.py:29 | A natural number prints as a non-empty string of digits, with a leading `0` only for zero. |
| `Decimal.IntToString` | ml/generate_embeddings.py:29 | An integer prints non-empty, and starts with `-` exactly when it is negative. |
| `Decimal.ParseNat` | ml/prepare_data.py:20-22 | `int()` on unsigned text succeeds exactly on non-empty all-digit text. |
| `Decimal.ParseInt` | ml/prepare_data.py:20-22 | `int()` fails on empty text. On text not starting with `-`, it succeeds exactly when the text is all digits. |
| `Decimal.DigitsValueOfNatToString` | ml/generate_embeddings.py:29 | The digits printed for `n` have value `n`. |
| `Decimal.ParseNatOfNatToString` | ml/prepare_data.py:20-22 | Reading back a printed natural number gives it again. |
| `Decimal.ParseIntOfIntToString` | ml/prepare_data.py:20-22 | Reading back a printed integer gives it again. |
| `Decimal.IntToStringInjective` | server/app.py:28 | Distinct integers print differently. |
| `Api.Reference` | server/app.py:28 | A citation is longer than its book name plus the three separator and digit characters. |
| `Api.ReferenceInjective` | server/app.py:28 | Within one book, a citation determines its chapter and verse. |
| `Api.NoColon` | server/app.py:28 | A printed integer holds no `:`, so the last colon of a citation separates chapter from verse. |
| `PrepareData.RemoveDisallowedSpec` | ml/prepare_data.py:5 | After the first substitution only allowed characters remain, and text already made of them is unchanged. |
| `PrepareData.RemoveDisallowedAppend` | ml/prepare_data.py:5 | The first substitution works piecewise and keeps the surviving characters in their original order: the result for a concatenation is the concatenation of the results. |
| `PrepareData.RemoveDisallowedChar` | ml/prepare_data.py:5 | A single character survives the first substitution exactly when it is allowed. |
| `PrepareData.DropLeadingSpaceSpec` | ml/prepare_data.py:6 | Left strip removes exactly the leading whitespace: the result is a suffix that does not start with whitespace. |
| `PrepareData.DropTrailingSpaceSpec` | ml/prepare_data.py:6 | Right strip removes exactly the trailing whitespace: the result is a prefix that does not end with whitespace. |
| `PrepareData.TakeWordSpec` | ml/prepare_data.py:6 | A word is the longest whitespace-free prefix. |
| `PrepareData.WordsWellFormed` | ml/prepare_data.py:6 | The words of a text are non-empty and hold no whitespace. |
| `PrepareData.WordsSkipSpace` | ml/prepare_data.py:6 | Leading whitespace does not change the words of a text. |
| `PrepareData.CollapseJoinsWords` | ml/prepare_data.py:6 | Collapsing whitespace runs and removing the trailing space gives the words joined by single spaces. |
| `PrepareData.StripCollapseIsJoinedWords` | ml/prepare_data.py:6 | `re.sub(r'\s+', ' ', t).strip()` is the words of `t` joined by single spaces. |
| `PrepareData.CleanTextIsJoinedWords` | ml/prepare_data.py:4-7 | `clean_text` is the words of the filtered text joined by single spaces. |
| `PrepareData.JoinWordsNormalized` | ml/prepare_data.py:6 | Joining well-formed words gives text with no leading, trailing or doubled space and no other whitespace. |
| `PrepareData.WordCharsAllowed` | ml/prepare_data.py:5-6 | Splitting allowed text into words keeps every character allowed. |
| `PrepareData.JoinWordsAllowed` | ml/prepare_data.py:6 | Joining words of allowed characters gives allowed text. |
| `PrepareData.CleanTextShape` | ml/prepare_data.py:4-7 | Cleaned text has only allowed characters and single inner spaces, and no leading or trailing space. |
| `PrepareData.TakeWordOfJoin` | ml/prepare_data.py:6 | The first word of a word followed by whitespace is that word. |
| `PrepareData.WordsOfJoinWords` | ml/prepare_data.py:6 | Splitting joined well-formed words gives the words back. |
| `PrepareData.CleanTextIdempotent` | ml/prepare_data.py:4-7 | Cleaning cleaned text changes nothing. |
| `PrepareData.RunEndSpec` | ml/prepare_data.py:10 | `\s*` consumes the whole whitespace run and stops at a non-space or at the end. |
| `PrepareData.LastNewlineSpec` | ml/prepare_data.py:10 | Finds the last newline in a window, or reports that the window has none. |
| `PrepareData.MatchAtSound` | ml/prepare_data.py:10 | A match of `\n\s*\n` found at a position really is one. |
| `PrepareData.MatchAtComplete` | ml/prepare_data.py:10 | The match found is the longest (greedy) one starting at that position. |
| `PrepareData.FindSepSpec` | ml/prepare_data.py:10 | The separator found is the leftmost one, and none is reported only when there is none. |
| `PrepareData.PiecesReassemble` | ml/prepare_data.py:10 | `re.split` loses nothing: the pieces interleaved with the separators give the text back. |
| `PrepareData.SeparatorsMatch` | ml/prepare_data.py:10 | Every separator removed by the split matches `\n\s*\n`. |
| `PrepareData.PiecesHaveNoSeparator` | ml/prepare_data.py:10 | No piece contains a match of `\n\s*\n`. |
| `PrepareData.NotBlankIffHasNonSpace` | ml/prepare_data.py:11 | A piece is kept exactly when it has a non-whitespace character. |
| `PrepareData.CleanNonBlankNormalized` | ml/prepare_data.py:11 | Every kept paragraph is whitespace-normalised. |
| `PrepareData.ParagraphsAreClean` | ml/prepare_data.py:9-11 | There is at most one paragraph per piece, and each is normalised with only allowed characters. |
| `PrepareData.ParagraphsAllowed` | ml/prepare_data.py:11 | Every kept paragraph has only allowed characters. |
| `PrepareData.CleanNonBlankAppend` | ml/prepare_data.py:11 | Paragraph selection keeps the order of the pieces. |
| `PrepareData.KeptPieceMayCleanToEmpty` | ml/prepare_data.py:9-11 | A piece that is not blank can still clean to an empty paragraph (`"#"` gives `[""]`). |
| `PrepareData.IndexOfCommaSpec` | ml/prepare_data.py:17 | Finds the first comma, or reports that there is none. |
| `PrepareData.SplitCommaSpec` | ml/prepare_data.py:17 | `split(',', n)` rejoined with commas is the text. The fields before the last hold no comma. There are `n + 1` fields exactly when the text has at least `n` commas. |
| `PrepareData.StripQuotes` | ml/prepare_data.py:23 | `strip('"')` leaves no quote at either end. |
| `PrepareData.StripQuotesSpec` | ml/prepare_data.py:23 | `strip('"')` cuts only quote characters, and only from the ends: the result is a slice of the field with nothing but quotes before and after it. With the no-quote-at-the-ends contract of `StripQuotes`, this is the widest such cut. |
| `PrepareData.Fields` | ml/prepare_data.py:17 | A stripped line splits into one to four fields. |
| `PrepareData.ParseLineSpec` | ml/prepare_data.py:17-25 | A line is skipped exactly when it has fewer than three commas. It yields a record exactly when its first three fields are integers; the record holds those integers and the cleaned, unquoted fourth field. Otherwise the run aborts. |
| `PrepareData.FieldsOfRow` | ml/prepare_data.py:17 | A row `b,c,v,text` splits back into its four fields, commas in the text and an empty text included. |
| `PrepareData.ParseLineOfRow` | ml/prepare_data.py:17-25 | Printing a verse as a row and parsing it gives the verse back, with its text cleaned and unquoted. |
| `PrepareData.CollectAppend` | ml/prepare_data.py:14-25 | The outcome of a file is that of its first part combined with that of the rest: records concatenate, and the first error wins. |
| `PrepareData.RecordsInLineOrder` | ml/prepare_data.py:14-25 | The records of two consecutive groups of lines come in line order. |
| `PrepareData.OutcomesAppend` | ml/prepare_data.py:16 | Line outcomes are computed line by line. |
| `PrepareData.SingleLine` | ml/prepare_data.py:16-25 | A single line contributes its record, nothing, or its error. |
| `PrepareData.CollectVerses` | ml/prepare_data.py:14-25 | The loop returns the records of all lines in order, or the first `int()` failure. |
| `PrepareData.AbortIsFinal` | ml/prepare_data.py:20-22 | Once a prefix of the file fails, the whole file fails with the same field. |
| `GenerateEmbeddings.SumOfMonotone` | ml/generate_embeddings.py:26-28 | Verse counts of prefixes grow with the prefix. |
| `GenerateEmbeddings.VersesMetaSpec` | ml/generate_embeddings.py:28-37 | Verse `v` of a chapter gets entry `v` with verse number `v + 1` and its text. |
| `GenerateEmbeddings.ChaptersMetaLength` | ml/generate_embeddings.py:27-37 | A book yields one entry per verse. |
| `GenerateEmbeddings.ChaptersMetaAt` | ml/generate_embeddings.py:27-37 | Verse `v` of chapter `c` sits after all verses of earlier chapters, numbered `c + 1` and `v + 1`. |
| `GenerateEmbeddings.CorpusMetaLength` | ml/generate_embeddings.py:26-37 | The metadata list has one entry per verse of the corpus. |
| `GenerateEmbeddings.CorpusMetaAt` | ml/generate_embeddings.py:26-37 | The entry at a verse's position holds its book name, 1-based chapter and verse numbers, and its text. |
| `GenerateEmbeddings.ChaptersMetaNumbers` | ml/generate_embeddings.py:27-37 | Every entry of a book carries the book's name, a chapter number in `1..chapters` and a verse number of at least 1. |
| `GenerateEmbeddings.CorpusMetaNumbers` | ml/generate_embeddings.py:26-37 | Every entry's chapter and verse numbers are at least 1. |
| `GenerateEmbeddings.ChaptersMetaLocate` | ml/generate_embeddings.py:27-37 | Every entry of a book comes from some verse of it. |
| `GenerateEmbeddings.CorpusMetaLocate` | ml/generate_embeddings.py:26-37 | Every entry comes from some verse of the corpus: nothing is invented. |
| `GenerateEmbeddings.EntryIdentifiesVerse` | ml/generate_embeddings.py:32-37 | With distinct book names, an entry's book, chapter and verse identify its position. |
| `GenerateEmbeddings.OffsetOrdered` | ml/generate_embeddings.py:26-28 | Entries follow book, then chapter, then verse order. |
| `GenerateEmbeddings.VersesMetaSnoc` | ml/generate_embeddings.py:28-37 | One iteration of the verse loop appends exactly that verse's entry. |
| `GenerateEmbeddings.ChaptersMetaSnoc` | ml/generate_embeddings.py:27-37 | One iteration of the chapter loop appends exactly that chapter's entries. |
| `GenerateEmbeddings.CorpusMetaSnoc` | ml/generate_embeddings.py:26-37 | One iteration of the book loop appends exactly that book's entries. |
| `GenerateEmbeddings.AlignedAppend` | ml/generate_embeddings.py:30-37 | Appending an embedding and its entry together keeps the two lists aligned. |
| `GenerateEmbeddings.EmbedChapter` | ml/generate_embeddings.py:28-37 | The verse loop appends the chapter's entries and keeps each embedding aligned with the text of its entry. |
| `GenerateEmbeddings.EmbedBook` | ml/generate_embeddings.py:27-37 | The chapter loop appends the book's entries, aligned as above. |
| `GenerateEmbeddings.BuildIndex` | ml/generate_embeddings.py:23-37 | The whole loop yields the flattened corpus as metadata and, at each position, the embedding of `"{name} {chapter}:{verse} {text}"` for that entry. |
| `Server.ToInt` | server/app.py:16 | `int(x)` fails with the offending value, and is the identity on integers. |
| `Server.FirstMatch` | server/app.py:15-16 | A found position lies in the searched range. |
| `Server.FirstMatchSpec` | server/app.py:15-18 | With integer chapter and verse, the lookup is the least matching position, and nothing is found exactly when no entry matches. |
| `Server.UnknownBookFindsNothing` | server/app.py:15-18 | A book no entry has finds nothing, whatever the chapter and verse. |
| `Server.BadChapterFails` | server/app.py:15-16 | A chapter `int()` rejects fails exactly when some entry has the book, because `int()` is only evaluated after the book compares equal. |
| `Server.KeptSpec` | server/app.py:24-25 | The neighbour filter removes every occurrence of the query and keeps every other position as often as it occurs. |
| `Server.KeptAppend` | server/app.py:24-25 | The filter keeps the order of the neighbours. |
| `Server.KeptWithoutQuery` | server/app.py:24-25 | Without the query among the neighbours, all are kept. |
| `Server.EntryCitesItsVerse` | server/app.py:27-30 | Within a book, two reply entries with the same citation come from the same verse. |
| `Server.CollectSimilar` | server/app.py:23-30 | The reply lists, in order, the citation and text of each neighbour other than the query. |
| `Server.GetSimilarVerses` | server/app.py:13-32 | An `int()` failure propagates. No match gives `[]`. A match gives `K + 1` minus the query's occurrences entries, none of them the query, each the citation of its neighbour. |
| `Server.SimilarVerses` | server/app.py:34-44 | 400 with the fixed message exactly when a field is missing or falsy. 500 exactly when the fields are present and `int()` fails during lookup. `[]` when no verse matches. When a verse matches, the 200 reply is exactly the citations of its kept neighbours, in search order and without the query, so every listed verse is an entry of the metadata. |
| `Server.RequestValidity` | server/app.py:40-41 | A request from the reader passes the field check exactly when its book is non-empty and its chapter and verse are non-zero. |
| `Server.LookupFindsVerse` | server/app.py:15-16 | With distinct book names, looking up a verse that the flattening produced finds its own position. |
| `Reader.ChapterOptionsLoadable` | client/src/StudyBible.tsx:114-139 | The chapter select offers exactly the chapters that load without error, in increasing order. |
| `Reader.HighlightsUnique` | client/src/StudyBible.tsx:171-179 | The span at index `i` shows number `i + 1` and text `content[i]`. It is hover-flagged exactly when the hovered verse is `i + 1` and selected-flagged exactly when the selected verse number is `i + 1`, so at most one span carries each flag. |
| `Reader.ClickedVerseIsSelected` | client/src/StudyBible.tsx:171-177 | After clicking the span at index `i`, that span and no other is highlighted as selected. |
| `Reader.RelatedPanelCases` | client/src/StudyBible.tsx:194-214 | The card shows the loading line exactly while a request is pending. Otherwise it shows the list, in order, exactly when a verse is selected and the list is non-empty; "none found" when a verse is selected and the list is empty; and the prompt when nothing is selected. |
| `Reader.StudyBible.constructor` | client/src/StudyBible.tsx:24-33 | The initial state: the first book key, chapter 1, nothing loaded, selected, hovered or pending. |
| `Reader.StudyBible.Commit` | client/src/StudyBible.tsx:35-59 | When the book or chapter changed, the chapter text is that chapter, or empty with the book or chapter error message. Otherwise nothing changes. Loading ends unset, and the invariant `Valid` is kept. |
| `Reader.StudyBible.BookChange` | client/src/StudyBible.tsx:61-66 | Selects the book and chapter 1, and clears the selection and the related list. Nothing else changes. |
| `Reader.StudyBible.ChangeChapter` | client/src/StudyBible.tsx:133 | Selects the chapter. Nothing else changes. |
| `Reader.StudyBible.Hover` | client/src/StudyBible.tsx:68-70 | Sets the hovered verse. Nothing else changes. |
| `Reader.StudyBible.Unhover` | client/src/StudyBible.tsx:175 | Clears the hovered verse. Nothing else changes. |
| `Reader.StudyBible.Click` | client/src/StudyBible.tsx:72-92 | Re-clicking the selected verse deselects it, clears the list and sends nothing. Any other click selects the verse, clears the error and sends `{book name, chapter, verse}` while loading. With a missing book, the click instead reports the `TypeError` without sending. |
| `Reader.StudyBible.Complete` | client/src/StudyBible.tsx:93-105 | Loading ends. Success shows the data. A non-OK reply or a throw clears the list and sets the prefixed, passed-through or default message. The selection is untouched. |
| `Reader.StudyBible.Main` | client/src/StudyBible.tsx:159-184 | Between events the left pane is never the spinner. It shows the verses exactly when the error is absent or empty (an empty string is falsy), and otherwise an alert with the error's text. |
| `Reader.Mount` | client/src/StudyBible.tsx:24-59 | Mounting shows chapter 1 of the first book, or the book or chapter error, and the click prompt. |
| `Reader.RoundTrip` | client/src/StudyBible.tsx:72-107 | Clicking verse 1 sends one request for it and lists the answer. Clicking it again sends nothing and brings back the prompt. |
| `Reader.LateResponseWins` | client/src/StudyBible.tsx:93-98 | After clicking verses 1 then 2, a late answer for verse 1 is listed under the selection of verse 2. |
| `Reader.FailureHidesChapter` | client/src/StudyBible.tsx:99-102 | A failed request replaces the chapter pane with its error while the chapter text is kept. |
| `Reader.EmptyErrorKeepsChapter` | client/src/StudyBible.tsx:99-102 | A throw with an empty message empties the related list, yet the chapter stays shown because the empty error is falsy. |
| `Reader.ToggleOffWhileLoading` | client/src/StudyBible.tsx:73-78 | Deselecting while a request is pending keeps the loading card. The late answer fills a hidden list under the prompt. |
| `Reader.ChapterChangeKeepsSelection` | client/src/StudyBible.tsx:133 | After a chapter change the selection and list stay, and the same verse number is highlighted in the new chapter. |
| `Reader.OpenBook` | client/src/StudyBible.tsx:61-66 | Choosing a book shows its first chapter with nothing selected and the prompt. |

## Left out

- File reading and writing, `json.dump`, `np.save`, the progress bars and the `print` calls of the two ML scripts are not modelled. The models start from the lines or text already read and end at the lists that would be written.
- The BERT tokenizer and model (`generate_embedding`) are a function parameter; the floating-point vectors they produce are opaque values.
- The faiss index is a parameter `search` from a query position to the 51 positions it returns. Distances, `reconstruct`, and the `-1` padding faiss uses when the index holds fewer than 51 vectors are not modelled: `search` must return in-range positions.
- Flask routing, CORS, JSON encoding and decoding, and a request body that is not a JSON object are not modelled. Field values are null, booleans, integers and strings; floats, lists and objects are left out.
- Python's `int()` is modelled on ASCII decimal text with an optional `-`. Surrounding whitespace, `+`, underscores and non-ASCII digits are not modelled.
- `\w` and `\s` are classified as Python does below U+0080: `\s` there is space, tab, newline, carriage return, vertical tab, form feed and U+001C to U+001F. Letters, digits and spaces from U+0080 up (such as U+00A0 or U+2028) are not classified as Python does.
- The reader's `fetch`, `await` and `console.error` are the split between `Click` and `Complete`. Concurrency is limited to responses arriving in any order.
- `Reader.StudyBible.Click`: the `TypeError` text for a missing book is V8's wording. Other engines word it differently.
- `Reader.StudyBible.ChangeChapter` takes the chapter number that `parseInt` gives for an option's value; parsing of arbitrary strings (NaN) is not modelled.
- Object keys inherited from JavaScript's prototype (such as `constructor`) are not treated as book keys.
- The font-size slider and its state, the book select's list of keys, and all styling are not modelled.
- The error text `'An unknown error occurred'` of the chapter load is not reachable in the model: both of its throws raise an `Error`.
- `ml/finetune_bert.py` and `ml/store_embeddings.py` are not part of this model. `client/src/bible-data.d.ts` only declares the JSON module's type.
