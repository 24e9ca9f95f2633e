# Networking coursework servers, modelled in Dafny

This project models the logic of five small Python programs from a
networking course and proves properties of that logic:

- **the broadcast chat server** (`assignment_01/messaging_server.py`): a
  registry of connected writers, a history capped at 100 entries, an
  identity-to-name table, and each connection's session (join and replay the
  history, read and classify frames, stamp, store and broadcast chat lines,
  deregister on exit). The model is `Chat.dfy`.
- **the browser's search engine** (`assignment_02/search_engine.py`):
  discovery of the local `.html` template pages, ranking of search results
  (matching local pages first, then a Google search), the choice of what a
  tab loads for the text typed in its address bar, and the rule that keeps
  at least one tab open. The model is `Search.dfy`.
- **the toy FTP server** (`lab_00/ftp_asyncio.py`): a per-connection loop
  that answers LIST, GET, PUT and QUIT, in any case, against the entries of
  a root directory. The model is `Ftp.dfy`.
- **the registration web server** (`assignment_02/server.py`): dispatch of
  (method, path) to a template, a 404 or a 405; a template server that
  answers 404 for a missing file; and a registration handler that checks the
  two form fields and appends one line to the user database. The model is
  `Http.dfy`.
- **the requirements explainer** (`lab_00/01_streams_read_requirements.py`):
  each `name==version` line becomes a numbered entry in an output file. The
  model is `Requirements.dfy`.

Three more files are shared by all of them:

- `PyText.dfy` models the Python string operations the programs use:
  `strip`, `split()`, `split(sep)`, `join`, `lower` and `upper`, `in`,
  `startswith`, `endswith`, `replace`, `rstrip` and `str(int)`. Most have a
  partner lemma: a round trip, idempotence, or an independent
  characterisation. `startswith` and `endswith` are stated directly as
  slice comparisons, and `lower` and `upper` only character by character.
- `Seqs.dfy` holds lists without repeats, `list.remove`, and concatenation
  identities.
- `Wrappers.dfy` holds `Option`.

Several things are inputs of the model rather than parts of it: the network,
the clock, the SHA-1 identity, `quote_plus`, `str.title`, UTF-8 decoding,
directory walks and file contents. The network becomes a sequence of read
events. Functions such as `quote_plus` are function parameters. Directories
are maps or lists of folders. Each section the chat server runs under its
lock is one atomic method.

Where the source mutates state, the model is imperative:

- `ChatServer`, `SearchEngine`, `BrowserTab`, `BrowserWindow`, `FtpServer`,
  the registration `Server` and the `OutputFile` are classes, and their
  methods update fields.
- Each loop of the source is a `while` or `for` loop. It is proved against a
  specification function: `Outcome`, `Ranked`, `WalkPages`, `Run`,
  `Explained`, `Survivors`/`Deliver`.

## Model

| member | source | states |
|---|---|---|
| Chat.FormatTimeRoundTrip | assignment_01/messaging_server.py:31 | `%H:%M:%S` always gives 8 characters with ':' at positions 2 and 5, and reads back as the same time |
| Chat.ReplayedAsBroadcast | assignment_01/messaging_server.py:29-30 | a message just kept in the history is replayed to the next joiner as exactly the line broadcast for it (same stamp, display name and text), just before the footer |
| Chat.FormatLineFields | assignment_01/messaging_server.py:56 | a chat line is "[", the time, "] ", the name, ": ", the text and "\n"; time, name and text are recovered from their positions |
| Chat.RenderLines | assignment_01/messaging_server.py:29-32 | one replay line per history entry, in log order, each formatted with the entry's display name |
| Chat.ReplayShape | assignment_01/messaging_server.py:26-33 | nothing is replayed for an empty history; otherwise header, one line per entry in order, then footer |
| Chat.Recent | assignment_01/messaging_server.py:61-62 | the retained history never holds more than 100 entries |
| Chat.AppendCappedRecent | assignment_01/messaging_server.py:59-62 | append-then-evict on the retained history equals keeping the last 100 of the whole log extended by the entry |
| Chat.AppendCappedShape | assignment_01/messaging_server.py:59-62 | below 100 entries the entry is appended; at 100 the oldest (index 0) is dropped and the rest keep their order; the new entry is always last |
| Chat.ClassifySpec | assignment_01/messaging_server.py:43-52 | a frame is blank iff all whitespace; a quit iff its stripped lower-case text is quit(), close() or exit(); otherwise a message whose text is the stripped frame |
| Chat.CommandEnds | assignment_01/messaging_server.py:50 | a text whose lower case is a quit command starts and ends with a non-space character |
| Chat.ClassifyCommandPadded | assignment_01/messaging_server.py:46-52 | a quit command in any case, surrounded by any whitespace, ends the session |
| Chat.ClassifyMessagePadded | assignment_01/messaging_server.py:46-56 | the surrounding whitespace of a chat message is dropped and nothing else |
| Chat.Survivors | assignment_01/messaging_server.py:85-92 | the registry after a fan-out holds exactly the snapshot's writers whose write did not fail |
| Chat.SurvivorsNoDuplicates | assignment_01/messaging_server.py:89-92 | the fan-out keeps the registry free of repeated writers |
| Chat.DeliverSpec | assignment_01/messaging_server.py:85-88 | each reached writer receives the line exactly once, after what it already had; every other writer receives nothing |
| Chat.FirstEndSpec | assignment_01/messaging_server.py:39-68 | a session is reading iff no read so far ended it; otherwise it ended at the first read that did, for that read's reason |
| Chat.OutcomeSpec | assignment_01/messaging_server.py:39-68 | the same, for the session's events: peer close, quit command, timeout or connection error end it; blank frames and messages do not |
| Chat.OutcomeStep | assignment_01/messaging_server.py:39-68 | one more event decides the outcome exactly when no earlier one did |
| Chat.OutcomeAfterEnd | assignment_01/messaging_server.py:39-68 | events after the one that ended the session change nothing |
| Chat.Said | assignment_01/messaging_server.py:54-60 | a session adds at most one history entry per event, each with the session's own identity |
| Chat.SaidOnlyMessages | assignment_01/messaging_server.py:46-52 | a session whose frames are all empty, blank or quit commands adds nothing to the history |
| Chat.ChatServer.constructor | assignment_01/messaging_server.py:7-11 | the registry, history and name table start empty |
| Chat.ChatServer.Send | assignment_01/messaging_server.py:22 | writing adds the message to the end of that writer's transcript and changes nothing else |
| Chat.ChatServer.Join | assignment_01/messaging_server.py:18-34 | the writer is appended to the registry and sent the welcome with its identity, then the history block (only if the history is non-empty); nothing else changes |
| Chat.ChatServer.SendHistory | assignment_01/messaging_server.py:26-33 | with an empty history nothing is sent; otherwise the header, one line per entry in order, and the footer |
| Chat.ChatServer.Deregister | assignment_01/messaging_server.py:73-75 | the writer is removed if present (a no-op otherwise); no other member is touched |
| Chat.ChatServer.AppendHistory | assignment_01/messaging_server.py:59-62 | one entry appended with FIFO eviction; the history stays the last 100 of all entries ever appended |
| Chat.ChatServer.Broadcast | assignment_01/messaging_server.py:80-97 | every writer of the snapshot, sender included, is attempted; a failing writer is removed and later ones are still attempted; the survivors each receive the line once |
| Chat.ChatServer.WriteOne | assignment_01/messaging_server.py:86-94 | one recipient: a success delivers the line, a ConnectionError removes only that recipient |
| Chat.ChatServer.ProcessFrame | assignment_01/messaging_server.py:46-64 | blank and quit frames change nothing; a message adds (identity, text, time) to the history and is broadcast as "[HH:MM:SS] name: text\n" |
| Chat.ChatServer.Session | assignment_01/messaging_server.py:13-78 | join, then read until an event ends the session; the history gains exactly the messages read before the end; the registry and transcripts are those of the join followed by `Heard` of the consumed events, with the writer removed on end; the writer's transcript begins with what it had, the welcome and the history replay; the name table is unchanged |
| Chat.ChatServer.ReadLoop | assignment_01/messaging_server.py:38-71 | the loop's outcome is `Outcome` of the events, the log gains `Said` of the consumed events, and the registry and transcripts are `Heard` of them |
| Chat.ChatServer.HandleRead | assignment_01/messaging_server.py:40-68 | one event: it reports whether and why it ends the session and appends the entry of a message and nothing else to the log; a message keeps the writers whose write succeeds and appends its line to exactly their transcripts, any other event leaves registry and transcripts unchanged |
| Chat.HeardByInbox | assignment_01/messaging_server.py:85-93 | one chat message reaches each registered writer whose write succeeds exactly once, as its last line, and no one else |
| Chat.HeardExtends | assignment_01/messaging_server.py:38-71 | reads only append to transcripts and only drop writers from the registry |
| Chat.ChatServer.Shutdown | assignment_01/messaging_server.py:113-116 | on shutdown every registered writer is closed, in registry order |
| Search.Stem | assignment_02/search_engine.py:28 | `splitext(file)[0]` of an ".html" name is the whole name exactly when the part before ".html" is only dots, and otherwise the name without ".html" |
| Search.PageFor | assignment_02/search_engine.py:24-30 | a page's path is the relative path of its file, and its URL is the base, "/", then the path with separators replaced by "/" |
| Search.FilePagesComplete | assignment_02/search_engine.py:22-30 | every ".html" file of a folder yields its page |
| Search.FilePagesSound | assignment_02/search_engine.py:22-30 | every page of a folder is the page of one of its ".html" files |
| Search.WalkPagesComplete | assignment_02/search_engine.py:21-30 | every ".html" file met by the walk yields its page |
| Search.WalkPagesSound | assignment_02/search_engine.py:21-30 | every discovered page comes from an ".html" file met by the walk |
| Search.WalkPagesIff | assignment_02/search_engine.py:17-31 | the discovered pages are exactly the pages of the ".html" files of the walk |
| Search.DiscoverLocalPages | assignment_02/search_engine.py:17-31 | no pages when the directory does not exist; otherwise the pages of the walk in walk order |
| Search.MatchPositionsPick | assignment_02/search_engine.py:38-39 | the matching pages are the pages at the matching positions |
| Search.MatchPositionsIncreasing | assignment_02/search_engine.py:38 | matching pages keep the order of `local_pages` |
| Search.MatchPositionsCover | assignment_02/search_engine.py:39 | a page is included iff the lower-case query occurs in its lower-case title or path |
| Search.MatchingSpec | assignment_02/search_engine.py:38-39 | the three facts above together |
| Search.LocalResultsStep | assignment_02/search_engine.py:38-45 | one more page adds its local result exactly when it matches |
| Search.LocalResults | assignment_02/search_engine.py:40-45 | one local result per matching page, in order, with priority 1 |
| Search.InsertByPriority | assignment_02/search_engine.py:57 | insertion keeps every result |
| Search.SortByPriority | assignment_02/search_engine.py:57 | the sort is a permutation |
| Search.InsertBounded | assignment_02/search_engine.py:57 | insertion keeps every priority under a common bound |
| Search.InsertKeepsOrder | assignment_02/search_engine.py:57 | insertion into a list in descending priority keeps it in descending priority |
| Search.SortSpec | assignment_02/search_engine.py:57 | the sort orders by descending priority and is a permutation |
| Search.SortKeepsSorted | assignment_02/search_engine.py:57 | a list already in descending priority is left unchanged (stability on sorted input) |
| Search.RankedSpec | assignment_02/search_engine.py:33-59 | the sort leaves the results unchanged; there is one result per matching page plus one; local results come first in page order; the last is the Google result, with priority 0 and URL "https://www.google.com/search?q=" + quote_plus(query) |
| Search.SearchEngine.constructor | assignment_02/search_engine.py:11-14 | the server URL loses its trailing "/"s, and the pages are those discovered under that URL |
| Search.SearchEngine.Search | assignment_02/search_engine.py:33-59 | the search loop and the sort return the ranking `Ranked` |
| Search.NavigateSpec | assignment_02/search_engine.py:111-138 | blank text loads about:blank; an http://, https:// or file:// address loads unchanged; anything else loads the first matching local page, else the Google search for it |
| Search.BrowserTab.constructor | assignment_02/search_engine.py:64-67 | a new tab shows about:blank |
| Search.BrowserTab.NavigateToUrl | assignment_02/search_engine.py:111-138 | the tab hides its status label and loads the target chosen for the typed text |
| Search.BrowserWindow.constructor | assignment_02/search_engine.py:160-172 | the window opens with a single "Home" tab |
| Search.BrowserWindow.AddTab | assignment_02/search_engine.py:179-187 | a new blank tab is added at the end of the tab bar |
| Search.BrowserWindow.CloseTab | assignment_02/search_engine.py:189-194 | the tab at the index is removed only when more than one tab exists, so at least one tab always remains |
| Ftp.ParseBlank | lab_00/ftp_asyncio.py:21-24 | a command is blank (no reply, read on) iff its text is all whitespace |
| Ftp.ParseWords | lab_00/ftp_asyncio.py:21-22 | the words of a command are recovered whatever whitespace surrounds them |
| Ftp.ParseAnySpacing | lab_00/ftp_asyncio.py:21-22 | the words of a command are recovered whatever runs of whitespace surround and separate them, so "GET  f" and "GET\tf" ask for the same file as "GET f" |
| Ftp.ParseCaseInsensitive | lab_00/ftp_asyncio.py:26 | two commands whose first words have the same upper case mean the same |
| Ftp.CommandOfCase | lab_00/ftp_asyncio.py:26 | the dispatch looks at the command word only through its upper case |
| Ftp.ExtraArgsIgnored | lab_00/ftp_asyncio.py:35 | words after the file name change nothing |
| Ftp.CommandOfWords | lab_00/ftp_asyncio.py:26-61 | LIST, GET name, PUT name and QUIT in any case; GET or PUT without a name is a missing filename; any other word is unknown |
| Ftp.ListingNames | lab_00/ftp_asyncio.py:29-30 | a listing of names without newlines splits back into the names, in order |
| Ftp.ListingAmbiguous | lab_00/ftp_asyncio.py:30 | an empty directory and one holding just a file named "Empty" get the same LIST reply |
| Ftp.StoredSpec | lab_00/ftp_asyncio.py:51-53 | after PUT the file holds exactly the data, which replaces what it held; other entries are unchanged; a new name is listed last and the listing stays exact |
| Ftp.StepFor | lab_00/ftp_asyncio.py:26-64 | a pass continues at the next read, or two reads on after a PUT that received data |
| Ftp.StepAt | lab_00/ftp_asyncio.py:17-24 | a continuing pass moves forward and stays within the reads |
| Ftp.StepForData | lab_00/ftp_asyncio.py:48-50 | only a PUT reads the next chunk |
| Ftp.StepBlank | lab_00/ftp_asyncio.py:21-24 | a whitespace-only command gets no reply and the loop continues |
| Ftp.StepCommand | lab_00/ftp_asyncio.py:17-26 | a command read as words, in any case and with any surrounding whitespace, gets the pass its words choose |
| Ftp.StepForWords | lab_00/ftp_asyncio.py:26-64 | LIST replies with the names joined by "\n" or "Empty"; GET/PUT without a name reply "ERROR: Missing filename"; GET sends exactly the file's bytes or "ERROR: File not found"; PUT sends READY, stores the next read and replies OK; GET or PUT of a directory (a folder entry or ".", the root itself) raises and ends the session; QUIT replies BYE and ends; otherwise "ERROR: Unknown command"; only PUT changes the directory |
| Ftp.StepWellListed | lab_00/ftp_asyncio.py:26-64 | every pass keeps the listing of the directory exact |
| Ftp.RunWellListed | lab_00/ftp_asyncio.py:11-64 | a whole session keeps the listing exact |
| Ftp.StepExtend | lab_00/ftp_asyncio.py:17-50 | unless a PUT is still waiting for its data, later reads do not change a pass |
| Ftp.RunIgnoresLaterReads | lab_00/ftp_asyncio.py:18-19 | a session that ended on QUIT, on peer close or on an exception is the same whatever reads follow |
| Ftp.FtpServer.constructor | lab_00/ftp_asyncio.py:7-9 | the server starts on the given root directory |
| Ftp.FtpServer.Put | lab_00/ftp_asyncio.py:51-53 | the directory becomes `Stored(old, name, data)` and its listing stays exact |
| Ftp.FtpServer.Serve | lab_00/ftp_asyncio.py:17-64 | one pass of the loop does what `StepAt` says, and leaves the directory it names |
| Ftp.FtpServer.HandleClient | lab_00/ftp_asyncio.py:11-64 | the replies, final directory and ending of the loop are those of `Run` |
| Http.ServeHtml | assignment_02/server.py:11-19 | the content type is text/html iff the template exists; an existing template is served with the given status; a missing one is 404 "404: File Not Found" |
| Http.RouteSpec | assignment_02/server.py:48-64 | GET / and GET /index.html serve index.html; GET /register.html serves register.html; any other GET is not found; POST to /register.html or /submit.html registers; anything else is not allowed (each an iff) |
| Http.AnswerSpec | assignment_02/server.py:50-64 | / and /index.html answer the same page; other GET paths answer 404 "404: Not Found"; other methods answer 405 |
| Http.Field | assignment_02/server.py:24-25 | a field is blank iff it is missing or all whitespace; a non-blank field has no surrounding whitespace |
| Http.RecordLineFields | assignment_02/server.py:37 | a database line is one line ending in "\n" that splits on two spaces back into user name and e-mail (for fields without spaces) |
| Http.SuccessAsWrittenLosesLink | assignment_02/server.py:40 | as written, the success response's content type is not text/html and its body lacks the Return Home link |
| Http.SuccessSpec | assignment_02/server.py:40 | the corrected success response is text/html with status 200, and its body is the message followed by the link |
| Http.Server.constructor | assignment_02/server.py:7-9 | the server starts from the given templates and database lines |
| Http.Server.HandleRegistration | assignment_02/server.py:21-46 | a blank field gives 400 with the database unchanged; a failed write gives 500 "Error saving data: " + the error, unchanged; otherwise one line username + "  " + email + "\n" is appended |
| Http.Server.HandleRequest | assignment_02/server.py:48-64 | registration routes behave as `HandleRegistration`; every other route answers its template, 404 or 405 and leaves the database unchanged |
| Http.RegistrationSpec | assignment_02/server.py:27-46 | the database either stays or gains exactly one line after the old ones; status 200 iff it changed; 400 iff a field is blank |
| Requirements.LineLength | lab_00/01_streams_read_requirements.py:6 | the first line ends at the first newline, which it keeps, or at the end of the text |
| Requirements.ReadLines | lab_00/01_streams_read_requirements.py:6 | lines are non-empty, every line but the last ends with "\n", and no line has a newline before its end |
| Requirements.ReadLinesConcat | lab_00/01_streams_read_requirements.py:6 | the lines together are the whole text |
| Requirements.EntryIff | lab_00/01_streams_read_requirements.py:13-14 | a line has an entry iff it contains "=="; otherwise `split("==")[1]` raises |
| Requirements.EntryOfPair | lab_00/01_streams_read_requirements.py:13-17 | the entry of name==version is the number, " .\t", name, "\n\t", version, for every name without "==" that does not end in "=" and every version without "==" (single "=" characters are allowed, as `split("==")` keeps them) |
| Requirements.VersionNotRemainder | lab_00/01_streams_read_requirements.py:14 | the version is the text between the first and second "==", not the whole remainder, whatever the remainder holds |
| Requirements.EntryEnds | lab_00/01_streams_read_requirements.py:17 | the format adds no separator: an entry ends with the last character of the version (same fields as `EntryOfPair`) |
| Requirements.EntryNumber | lab_00/01_streams_read_requirements.py:12-17 | entry `i` opens with the decimal numeral of i+1, which reads back as i+1, followed by " .\t" |
| Requirements.ExplainedFailure | lab_00/01_streams_read_requirements.py:12-19 | the loop fails iff some line lacks "=="; it stops at the first such line; what it writes is exactly the entries of the lines before the stopping point (or of all lines), one after the other |
| Requirements.OutputFile.Write | lab_00/01_streams_read_requirements.py:19 | a write appends to the file's content |
| Requirements.Explain | lab_00/01_streams_read_requirements.py:3-22 | the file gains the entries of the lines in input order up to the first failing line, and the failing index is reported |
| PyText.Strip | assignment_01/messaging_server.py:46 | `strip()` removes exactly the leading and trailing whitespace; the result is empty iff the text was all whitespace |
| PyText.StripIdempotent | assignment_01/messaging_server.py:46 | stripping twice is stripping once |
| PyText.StripPadded | lab_00/ftp_asyncio.py:21 | a text with no whitespace at its ends, padded with whitespace, strips back to itself |
| PyText.Words | lab_00/ftp_asyncio.py:22 | `split()` gives non-empty words without whitespace, and none iff the text is all whitespace |
| PyText.WordsOfJoin | lab_00/ftp_asyncio.py:22 | splitting words joined by single spaces gives back the words |
| PyText.WordsOfGapJoin | lab_00/ftp_asyncio.py:22 | splitting words joined by any non-empty runs of whitespace gives back the words |
| PyText.ContainsIff | assignment_02/search_engine.py:39 | `needle in hay` iff the needle occurs at some position |
| PyText.SplitOn | lab_00/01_streams_read_requirements.py:13 | `split(sep)` gives at least one piece, and no piece contains the separator |
| PyText.JoinSplitOn | lab_00/01_streams_read_requirements.py:13-14 | joining the pieces of a split with the separator gives back the text |
| PyText.SplitOnJoin | lab_00/ftp_asyncio.py:30 | splitting a join of pieces that share no character with the separator gives back the pieces |
| PyText.SplitOnFirst | lab_00/01_streams_read_requirements.py:14 | when the first occurrence of the separator is the one right after `p`, the split is `p` followed by the split of the rest |
| PyText.ReplaceChar | assignment_02/search_engine.py:25 | `replace(a, b)` on one character changes exactly the occurrences of a |
| PyText.RStripChar | assignment_02/search_engine.py:12 | `rstrip(c)` removes exactly the trailing run of c |
| PyText.ParseNatToString | lab_00/01_streams_read_requirements.py:17 | the decimal numeral of a number reads back as the number |

## Left out

- Networking and concurrency are left out: asyncio streams, `drain`, `gather`, `wait_closed`, `serve_forever`, aiohttp's `web.Response` and `run_app`, and the interleaving of concurrent sessions. Each locked section of the chat server is one atomic method, and a session is one call over its sequence of events.
- Chat.ChatServer.Broadcast: the snapshot and the writes are one atomic step, so a session that joins or leaves during a broadcast is not modelled. The `gather` of the drains and the closing of failed writers are not modelled.
- The clock, the SHA-1 identity (an 8-character lower-case hex string), `quote_plus`, `str.title`, UTF-8 decoding and the 300-second timeout are inputs: a time per message, an identity per session, function parameters, and a timeout event.
- Case mapping (`lower`, `upper`) covers ASCII letters only. Python also maps other Unicode letters, for example 'ı' to 'I'.
- Read sizes are not enforced: the chat server's 1024, the FTP command's 100 and the PUT data's 4096. Each read is one element of the input sequence.
- In the FTP model, file names are plain entry names of the root directory. The name "." is the root directory itself, so GET and PUT of it raise as for a folder. Path separators, "..", and absolute names are not modelled, and neither are subfolders other than as entries. The `iterdir` order is the given listing order; a new file is listed last.
- Ftp.StepAt: a PUT whose data read has not arrived ends the model with `Waiting`, where the server would block.
- The `print` calls to standard output are left out in every program, including the explainer's echo of each entry.
- `os.makedirs` is assumed to succeed, both in the FTP constructor and before the database write. Only opening the database can fail.
- Http.Server.HandleRegistration: a failed write is modelled as writing nothing. A write that fails part-way is not modelled.
- Http.Server.HandleRegistration: a valid registration answers the corrected success page `Http.Success`, not the response line 40 builds as written (`Http.SuccessAsWritten`, whose content type swallows the link); see Findings.
- Http.Server.HandleRequest: answers registrations as `HandleRegistration` does, so with the corrected success page as well.
- Chat.ChatServer.Join: a `drain` that fails during the join (lines 23 and 34, before the `try` at line 38) ends `handle_client` with the writer still in the registry and without closing it. The model's join cannot fail, so this leak is not modelled.
- Requirements.ReadLines: the text is what Python's text mode reads, after universal-newline translation of "\r\n" and "\r" into "\n". That translation is not modelled.
- aiohttp's router, which only registers some of the paths, is left out. Only the handler's own logic is modelled.
- The templates folder and the requirements and database files are values: a map of contents, a text, and a list of lines.
- Search: `_handle_search_query` builds a fresh `CustomSearchEngine()` with its default URL and folder. The model passes the engine to `NavigateToUrl` instead.
- Search: the tab's current index, the page-load handler `_handle_load_finished`, and all widget layout are left out.
- Search.SortByPriority: stability is proved only on input already in descending priority, which is the only arrangement `search` can produce. A general stability theorem is not proved.
- Search.BrowserWindow.CloseTab: an index out of range makes Qt's `widget(index)` return nothing and the call raise. That is modelled as no change.
- The messaging client, the echo servers and clients, the demo HTTP servers and clients, and the timing demos of the other labs are not part of this model. They contain only socket I/O and sleeps.

## Findings

| source | as written | input that shows it | evidently intended | confidence | as-written member | corrected member |
|---|---|---|---|---|---|---|
| assignment_02/server.py:40 | two adjacent string literals after `content_type=` are one literal in Python, so the response's content type is "text/html" followed by the Return Home link, and the body is only "Registration successful!" | any valid registration, e.g. username "ann" and email "a@b.c" | an HTML page whose body is the success message followed by the Return Home link, with content type text/html | not executed | Http.SuccessAsWrittenLosesLink | Http.SuccessSpec |
