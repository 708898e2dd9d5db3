# Reuters-21578 SGM extraction, modelled in Dafny

This project models the extraction core of `ExtractReutersSGM`. That class reads
the Reuters-21578 `.sgm` files line by line and writes each news record to the
`reuters_sgm` table. The model has four parts:

- **Line loop of `extractFile`.** `ExtractFile.Assembler` holds the two pieces
  of state the loop keeps: the `StringBuilder buffer` and the `document`
  variable. `Assembler.Feed` is one pass of the loop body. It appends a line
  without `</REUTERS` plus one space, and starts a fresh `Document` when the
  line holds `<REUTERS`. On a line with `</REUTERS` it runs the pattern loops,
  writes the document when its body is not `null`, and empties the buffer.
  `ExtractFile.ExtractLines` is the `while (readLine)` loop over a file's
  lines. Both methods are proved against the pure functions `Step` and
  `RunLines`, and the lemmas about the loop are stated over those.
- **Pattern loops.** `TagScan` models `Pattern.compile("<T>(.*?)</T>")` with
  its `while (matcher.find())` loop for a literal tag. It finds the opening
  tag, then the first closing tag that the lazy group reaches without
  crossing a line terminator, and then resumes after the match.
  `FindNextSound`, `MatchAtComplete` and `FindNextLeftmost` tie this to the
  regex engine's notion of a match. `LayoutCaptured` shows that a sequence of
  tagged blocks yields exactly their contents, in order. TITLE and BODY
  matches overwrite the field one after another (`ScanFieldInto`). Each
  non-blank TOPICS block replaces the topic list with its `<D>` items
  (`ScanTopicsInto`, `CollectItems`).
- **Normalisation chains.** `Normalise.NormTitle` and `Normalise.NormBody`
  are built from `String.trim()`, `replaceAll("\\s+", " ")` and literal
  `replaceAll` in `JavaStrings`. The model uses Java's definitions: `\s` is
  `[ \t\n\x0B\f\r]`, and `trim()` removes every character up to U+0020.
- **`Document.writeToDb`.** `Documents.Document.WriteToDb` inserts into a
  `Sink`, which stands in for the JDBC connection and keeps the inserted rows
  in order. Without topics it writes one row with no category. With topics it
  writes one row per topic, in list order.

The model follows the code as written, including these behaviours:

- An empty capture still overwrites TITLE or BODY.
- A document is written when its body is not `null`, even when the body is
  empty.
- The `Reuter &#3;` and `REUTER &#3;` sign-offs are deleted after the trim,
  so the space before them stays (`A&lt;B Reuter &#3;` becomes `A<B `).
- A TOPICS block that is non-blank but holds no `<D>` items leaves an empty
  topic list, and the document is then written zero times.
- Every TITLE, BODY or TOPICS match overwrites the earlier ones; no values are
  merged.
- The document is not cleared after it is written. A second `</REUTERS` line
  without a new `<REUTERS` line extracts into it again and writes it again.

## Model

| member | source | states |
|---|---|---|
| `ExtractFile.Assembler.constructor` | src/main/java/au/edu/unsw/cse/ExtractReutersSGM.java:222-225 | the loop starts with an empty buffer and a `null` document |
| `ExtractFile.Assembler.Feed` | src/main/java/au/edu/unsw/cse/ExtractReutersSGM.java:228-314 | one pass of the loop body takes the state to `Step` of the old state; it fails, writing nothing, exactly when a `</REUTERS` line arrives before any document; a new document is a fresh object |
| `ExtractFile.ExtractLines` | src/main/java/au/edu/unsw/cse/ExtractReutersSGM.java:177-317 | the file's rows are appended to the sink in the order `RunLines` gives them; the result is `false` exactly when the loop throws, and the rows written before that stay |
| `ExtractFile.Step` | src/main/java/au/edu/unsw/cse/ExtractReutersSGM.java:228-314 | one pass of the loop body on values: a line without `</REUTERS` is appended with a space and may start a new document; a close line fails without a document, and otherwise extracts, writes and empties the buffer; nothing changes after a failure |
| `ExtractFile.RunLines` | src/main/java/au/edu/unsw/cse/ExtractReutersSGM.java:228-314 | the loop state after the lines in order, from an empty buffer and a `null` document; the lemmas below state its properties |
| `ExtractFile.IsClose` | src/main/java/au/edu/unsw/cse/ExtractReutersSGM.java:231 | a line closes a record exactly when `indexOf("</REUTERS")` finds the marker somewhere in it (`Contains`, from `IndexOf`) |
| `ExtractFile.IsOpen` | src/main/java/au/edu/unsw/cse/ExtractReutersSGM.java:236 | a line opens a record exactly when it contains `<REUTERS`; `OpenStartsDocument` states what such a line does |
| `ExtractFile.BufferSinceClose` | src/main/java/au/edu/unsw/cse/ExtractReutersSGM.java:231-313 | the buffer is every line since the last `</REUTERS` line (or since the start), each followed by exactly one space, `<REUTERS` lines included; the close line is never appended, and the buffer is empty right after it |
| `ExtractFile.OpenStartsDocument` | src/main/java/au/edu/unsw/cse/ExtractReutersSGM.java:236-239 | right after a line with `<REUTERS` and without `</REUTERS`, the document is a new one with every field `null` |
| `ExtractFile.CloseKeepsDocument` | src/main/java/au/edu/unsw/cse/ExtractReutersSGM.java:252-314 | a close line extracts into the current document as it stands, fields from earlier records included, writes it if its body is not `null`, empties the buffer, and keeps the document |
| `ExtractFile.Written` | src/main/java/au/edu/unsw/cse/ExtractReutersSGM.java:307-310 | the rows a close line writes: the fan-out of the extracted document when its body is not `null`, none otherwise; `CloseWrites` states it for the loop |
| `ExtractFile.CloseBeforeOpenFails` | src/main/java/au/edu/unsw/cse/ExtractReutersSGM.java:225-310 | a `</REUTERS` line before any `<REUTERS` line dereferences the `null` document, and the run ends in failure whatever follows |
| `ExtractFile.OpenBeforeCloseSucceeds` | src/main/java/au/edu/unsw/cse/ExtractReutersSGM.java:225-310 | conversely, when a `<REUTERS` line comes before every `</REUTERS` line, the run never fails and ends with a document |
| `ExtractFile.DocumentStays` | src/main/java/au/edu/unsw/cse/ExtractReutersSGM.java:228-310 | once a document exists and nothing has failed, later lines never make the loop fail or drop the document |
| `ExtractFile.FailureStays` | src/main/java/au/edu/unsw/cse/ExtractReutersSGM.java:228-310 | after the exception, later lines change nothing |
| `ExtractFile.TrailingWritesNothing` | src/main/java/au/edu/unsw/cse/ExtractReutersSGM.java:228-233 | lines without `</REUTERS` add no row, so a trailing record without a close line is never written |
| `ExtractFile.CloseWrites` | src/main/java/au/edu/unsw/cse/ExtractReutersSGM.java:307-310 | a close line writes the fan-out of the extracted document if its body is not `null` and nothing otherwise; the body is not `null` exactly when it was set before or the buffer holds a `<BODY>…</BODY>` block, an empty one included |
| `ExtractFile.BodyDecidesWrite` | src/main/java/au/edu/unsw/cse/ExtractReutersSGM.java:255-310 | after extraction the body is non-`null` iff it was already non-`null` or at least one BODY match exists |
| `ExtractFile.StepRebase` | src/main/java/au/edu/unsw/cse/ExtractReutersSGM.java:228-314 | a loop step that does not fail does not depend on the rows written before it |
| `ExtractFile.Extracted` | src/main/java/au/edu/unsw/cse/ExtractReutersSGM.java:254-305 | the pattern loops of a close line in source order: TITLE, then BODY, then TOPICS; `BodyDecidesWrite` and `CloseWrites` state what it means for the write |
| `ExtractFile.ExtractInto` | src/main/java/au/edu/unsw/cse/ExtractReutersSGM.java:254-305 | the pattern loops leave the document as `Extracted` of its old value: TITLE, then BODY, then TOPICS |
| `ExtractFile.ScanField` | src/main/java/au/edu/unsw/cse/ExtractReutersSGM.java:255-273 | the `find()` loop of the TITLE or BODY pattern assigns the normalised group of each match in turn; `ScanFieldLastWins` states that the last match wins |
| `ExtractFile.ScanFieldInto` | src/main/java/au/edu/unsw/cse/ExtractReutersSGM.java:255-273 | the `find()` loop of one single-valued pattern assigns the normalised capture of every match in turn, and leaves the other fields alone |
| `ExtractFile.SetField` | src/main/java/au/edu/unsw/cse/ExtractReutersSGM.java:265-269 | the assignment sets exactly the TITLE or BODY field that the pattern names |
| `ExtractFile.Overwrite` | src/main/java/au/edu/unsw/cse/ExtractReutersSGM.java:257-269 | the field after one assignment per value, in order, from its old value; `OverwriteLastWins` states that the last value wins |
| `ExtractFile.OverwriteLastWins` | src/main/java/au/edu/unsw/cse/ExtractReutersSGM.java:257-269 | after a series of assignments the field holds the last value, and with no assignment it keeps its old value |
| `ExtractFile.ScanFieldLastWins` | src/main/java/au/edu/unsw/cse/ExtractReutersSGM.java:255-273 | last match wins: the field holds the normalisation of the last capture in buffer order, an empty capture included, and zero matches leave it as it was |
| `ExtractFile.Field.SetTwice` | src/main/java/au/edu/unsw/cse/ExtractReutersSGM.java:265-269 | a second assignment to a field discards the first |
| `ExtractFile.BlankIsTrimEmpty` | src/main/java/au/edu/unsw/cse/ExtractReutersSGM.java:287 | `Blank(text)` holds exactly when `text.trim().isEmpty()` |
| `ExtractFile.BlankAll` | src/main/java/au/edu/unsw/cse/ExtractReutersSGM.java:287 | a text is blank exactly when every character is one `trim()` removes |
| `ExtractFile.CollectItems` | src/main/java/au/edu/unsw/cse/ExtractReutersSGM.java:288-298 | the `<D>` loop returns exactly the item captures of the block, in source order |
| `ExtractFile.TopicsBlockInto` | src/main/java/au/edu/unsw/cse/ExtractReutersSGM.java:286-300 | a blank TOPICS block leaves `topics` alone; any other block replaces it with its `<D>` items |
| `ExtractFile.ScanTopicsInto` | src/main/java/au/edu/unsw/cse/ExtractReutersSGM.java:276-305 | the TOPICS loop handles every block in order, and title and body stay unchanged |
| `ExtractFile.LastNonBlank` | src/main/java/au/edu/unsw/cse/ExtractReutersSGM.java:286-300 | the chosen block is not blank and is one of the blocks, and every block after it is blank, so it is the last non-blank block; with none chosen, every block is blank |
| `ExtractFile.ScanTopics` | src/main/java/au/edu/unsw/cse/ExtractReutersSGM.java:276-305 | the TOPICS loop over the buffer: `TopicsAfter` over every TOPICS capture, title and body unchanged; `TopicsLastNonBlank` states that the last non-blank block wins |
| `ExtractFile.TopicsNext` | src/main/java/au/edu/unsw/cse/ExtractReutersSGM.java:286-300 | one TOPICS block: a blank block leaves the list, any other block replaces it with the block's `<D>` items; `TopicsSnoc` states it as the step of `TopicsAfter` |
| `ExtractFile.TopicsAfter` | src/main/java/au/edu/unsw/cse/ExtractReutersSGM.java:276-305 | the TOPICS loop handles each block in turn, a blank block changing nothing and any other block replacing the list with its `<D>` items; `TopicsLastNonBlank` and `TopicsSnoc` state its properties |
| `ExtractFile.TopicsLastNonBlank` | src/main/java/au/edu/unsw/cse/ExtractReutersSGM.java:276-305 | the last non-blank TOPICS block wins and gives its `<D>` items in source order; if every block is blank, `topics` is unchanged |
| `ExtractFile.TopicsSnoc` | src/main/java/au/edu/unsw/cse/ExtractReutersSGM.java:286-300 | handling one more block either changes nothing (blank) or sets the list to that block's items |
| `Documents.Document.constructor` | src/main/java/au/edu/unsw/cse/ExtractReutersSGM.java:63-67 | a new `Document` has `title`, `body` and `topics` all `null` |
| `Documents.Document.WriteToDb` | src/main/java/au/edu/unsw/cse/ExtractReutersSGM.java:72-93 | the sink gains exactly `FanOut` of the document's fields, in order |
| `Documents.Sink.Insert` | src/main/java/au/edu/unsw/cse/ExtractReutersSGM.java:76-90 | one executed insert appends one row to the table |
| `Documents.FanOut` | src/main/java/au/edu/unsw/cse/ExtractReutersSGM.java:72-93 | the rows `writeToDb` inserts: one row without a category when `topics` is `null`, the topic rows otherwise; `FanOutNoTopics`, `FanOutTopics` and `FanOutCopiesText` state its properties |
| `Documents.TopicRows` | src/main/java/au/edu/unsw/cse/ExtractReutersSGM.java:85-91 | the rows the topic loop inserts, one per topic in list order; `TopicRowsAt` states the correspondence |
| `Documents.FanOutNoTopics` | src/main/java/au/edu/unsw/cse/ExtractReutersSGM.java:75-81 | with `topics == null`, exactly one row is written: no category, plus the title and body |
| `Documents.FanOutTopics` | src/main/java/au/edu/unsw/cse/ExtractReutersSGM.java:82-92 | with a topic list, exactly one row per topic is written, the k-th carrying the k-th topic and the same title and body; an empty list writes no row |
| `Documents.TopicRowsAt` | src/main/java/au/edu/unsw/cse/ExtractReutersSGM.java:85-91 | the rows of the topic loop correspond one to one with the topics, in order |
| `Documents.FanOutCopiesText` | src/main/java/au/edu/unsw/cse/ExtractReutersSGM.java:75-92 | every row written carries the document's title and body unchanged |
| `TagScan.LazyClose` | src/main/java/au/edu/unsw/cse/ExtractReutersSGM.java:183 | the lazy group `(.*?)` stops at the first closing tag it reaches, and fails at a line terminator or the end of the text; a reported close lies inside the text |
| `TagScan.MatchAt` | src/main/java/au/edu/unsw/cse/ExtractReutersSGM.java:183 | a match attempted at one position is the opening tag there, the lazy group and the closing tag, and a reported match has that shape |
| `TagScan.FindNext` | src/main/java/au/edu/unsw/cse/ExtractReutersSGM.java:256-257 | `matcher.find()` reports a match of that shape starting at or after the resume position |
| `TagScan.CapturesFrom` | src/main/java/au/edu/unsw/cse/ExtractReutersSGM.java:256-259 | the groups of every match the `find()` loop reports from a position on, in order, resuming after each match; `FindLoopStep` and `CapturesClean` state its properties |
| `TagScan.Captures` | src/main/java/au/edu/unsw/cse/ExtractReutersSGM.java:256-259 | the groups of the whole `find()` loop over the buffer; `LayoutCaptured` states which groups a laid-out text yields |
| `TagScan.MatchAtSound` | src/main/java/au/edu/unsw/cse/ExtractReutersSGM.java:183 | a reported match is the opening tag, a group without line terminators that holds no closing tag, and the closing tag |
| `TagScan.MatchAtComplete` | src/main/java/au/edu/unsw/cse/ExtractReutersSGM.java:183 | every such match starting at a position is the one reported there, so the lazy group stops at the first closing tag |
| `TagScan.FindNextSound` | src/main/java/au/edu/unsw/cse/ExtractReutersSGM.java:256-257 | what `find()` reports is a regex match |
| `TagScan.FindNextLeftmost` | src/main/java/au/edu/unsw/cse/ExtractReutersSGM.java:256-257 | `find()` reports the leftmost match after the previous one, and reports nothing only when no match starts there |
| `TagScan.FindLoopStep` | src/main/java/au/edu/unsw/cse/ExtractReutersSGM.java:257-259 | each turn of the `find()` loop moves strictly forward and contributes its group as the next capture |
| `TagScan.CapturesClean` | src/main/java/au/edu/unsw/cse/ExtractReutersSGM.java:257-259 | no capture contains a line terminator or the closing tag |
| `TagScan.LayoutCaptured` | src/main/java/au/edu/unsw/cse/ExtractReutersSGM.java:290-298 | text made of tag blocks with plain contents, separated by text without '<', yields exactly those contents in source order, whatever lies between them |
| `TagScan.LaidOutCaptured` | src/main/java/au/edu/unsw/cse/ExtractReutersSGM.java:255-257 | scanning blocks laid out one after another yields the contents of the remaining blocks |
| `JavaStrings.Contains` | src/main/java/au/edu/unsw/cse/ExtractReutersSGM.java:236 | `contains(p)` holds exactly when `indexOf(p)` finds an occurrence; `IndexOf` states where |
| `JavaStrings.IndexOf` | src/main/java/au/edu/unsw/cse/ExtractReutersSGM.java:231 | `indexOf` returns the first occurrence at or after the start, or reports that there is none |
| `JavaStrings.CollapseWs` | src/main/java/au/edu/unsw/cse/ExtractReutersSGM.java:266 | after `replaceAll("\\s+", " ")`, every whitespace character is a single space with no whitespace next to it; the result is empty only for the empty string, and starts or ends with a space exactly when the input does |
| `JavaStrings.CollapseKeepsText` | src/main/java/au/edu/unsw/cse/ExtractReutersSGM.java:266 | collapsing whitespace keeps every non-whitespace character, in order |
| `JavaStrings.CollapseSplit` | src/main/java/au/edu/unsw/cse/ExtractReutersSGM.java:266 | a run of whitespace between two non-whitespace characters (or an end of the string) becomes exactly one space, and the text on either side collapses on its own, so whitespace is replaced and never deleted (`"a\tb"` becomes `"a b"`) |
| `JavaStrings.CollapseFixesCollapsed` | src/main/java/au/edu/unsw/cse/ExtractReutersSGM.java:266 | an already collapsed string is unchanged |
| `JavaStrings.CollapseIdempotent` | src/main/java/au/edu/unsw/cse/ExtractReutersSGM.java:266 | collapsing twice equals collapsing once |
| `JavaStrings.Trim` | src/main/java/au/edu/unsw/cse/ExtractReutersSGM.java:266 | `trim()` leaves neither end trimmable, and gives the empty string exactly when every character is trimmable |
| `JavaStrings.TrimIsSlice` | src/main/java/au/edu/unsw/cse/ExtractReutersSGM.java:266 | `trim()` returns a piece `s[i..j]` of its input, and everything removed before `i` and after `j` is trimmable |
| `JavaStrings.NormaliseWs` | src/main/java/au/edu/unsw/cse/ExtractReutersSGM.java:266 | `replaceAll("\\s+", " ").trim()`: collapse the whitespace, then trim; `NormaliseWsTidy` states the result is trimmed and collapsed, `NormaliseWsIdempotent` that it is idempotent |
| `JavaStrings.NormaliseWsTidy` | src/main/java/au/edu/unsw/cse/ExtractReutersSGM.java:266 | collapsing then trimming gives a string that is trimmed and collapsed |
| `JavaStrings.NormaliseWsIdempotent` | src/main/java/au/edu/unsw/cse/ExtractReutersSGM.java:266 | collapsing then trimming twice equals doing it once |
| `JavaStrings.ReplaceAll` | src/main/java/au/edu/unsw/cse/ExtractReutersSGM.java:266-268 | literal `replaceAll` as used for the entities and sign-offs: scanning left to right, each occurrence of the pattern not overlapping an earlier one is replaced; its properties are `ReplaceFirst`, `ReplaceLeavesNone` and `ReplaceShrinks` |
| `JavaStrings.ReplaceFirst` | src/main/java/au/edu/unsw/cse/ExtractReutersSGM.java:266 | literal `replaceAll` replaces the first occurrence and carries on after it |
| `JavaStrings.ReplaceLeavesNone` | src/main/java/au/edu/unsw/cse/ExtractReutersSGM.java:266 | with a non-empty replacement that shares no character with the pattern, no occurrence of the pattern is left |
| `JavaStrings.ReplaceShrinks` | src/main/java/au/edu/unsw/cse/ExtractReutersSGM.java:268 | a replacement no longer than the pattern never lengthens the string |
| `Normalise.NormTitle` | src/main/java/au/edu/unsw/cse/ExtractReutersSGM.java:266 | the title chain (collapse whitespace, trim, decode `&lt;`) gives a title with no leading or trailing blank, no two adjacent whitespace characters, no whitespace other than ' ', no `&lt;`, and no longer than the capture |
| `Normalise.TitleIdempotent` | src/main/java/au/edu/unsw/cse/ExtractReutersSGM.java:266 | normalising a normalised title changes nothing |
| `Normalise.BodyText` | src/main/java/au/edu/unsw/cse/ExtractReutersSGM.java:268 | the body chain up to the sign-off deletions (`&#127;` to space, collapse, trim, decode `&lt;`) gives a body that is trimmed and collapsed, holds no `&lt;`, and is no longer than the capture |
| `Normalise.NormBody` | src/main/java/au/edu/unsw/cse/ExtractReutersSGM.java:268 | the whole body chain, with the `Reuter &#3;` and `REUTER &#3;` deletions last and nothing trimmed after them, never gives a body longer than the capture |
| `Normalise.BodyWithoutSignOff` | src/main/java/au/edu/unsw/cse/ExtractReutersSGM.java:268 | without a sign-off, the body is the trimmed, collapsed, decoded text |
| `Normalise.BodyKeepsTrailingSpace` | src/main/java/au/edu/unsw/cse/ExtractReutersSGM.java:268 | because the deletions come after the trim, tidy text followed by ` Reuter &#3;` keeps the space before the sign-off |
| `Normalise.BodyLtExample` | src/main/java/au/edu/unsw/cse/ExtractReutersSGM.java:268 | a capture such as `A&lt;B Reuter &#3;` becomes `A<B `, with the entity decoded and the trailing space kept |

## Left out

- `main` and the `ExtractReutersSGM` constructor are not part of this model: argument parsing, listing `.sgm` files, loading the JDBC driver, and opening and closing the connection.
- JDBC is replaced by `Documents.Sink`, an in-order list of inserted rows. SQL text, `SQLException` and the table's `NOT NULL` constraint on `title` are left out. A document with a `null` title is modelled as a row whose title is `None`; the database would reject that insert, and the `SQLException` would leave `extractFile` and also `main`'s loop over the files (`ExtractReutersSGM.java:156-162`), so the whole run would stop and later files would not be read.
- `BufferedReader`/`FileReader` are left out. A file is a sequence of lines with their terminators already removed, and read errors are not modelled.
- The DATE, DATELINE, UNKNOWN, ORGS, PLACES, PEOPLE, EXCHANGES and COMPANIES loops are left out. They match but change no state. The commented-out header parsing is left out too.
- General Java regex is left out. Only the `<T>(.*?)</T>` shape with literal tags is modelled.
- Java strings are UTF-16 code units. The model uses one `char` per code point, and no tag or entity involves surrogates.
- The three remaining sources are not part of this model. `BuildWordVectorsFromDatabase` does Word2Vec training through library calls with floating-point numerics. `WordVectorChecker` is an interactive similarity query loop. `StripSpecialCharactersPreprocessor` extends DL4J's `CommonPreprocessor`, and `StemWordsPreprocessor` adds the Snowball `EnglishStemmer`; both libraries lie outside this repository.
