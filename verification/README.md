# ora-ora-ora in Dafny

This project models the core of ora-ora-ora, a terminal note-taking tool that
uses an LLM to answer questions about your notes. It also proves properties
of that model. The model covers:

- **Notes:** the in-memory note store, hashtag extraction, UUID v4 ids, and
  writing a note as a Markdown file with YAML front matter.
- **Search:** the in-memory search index, which does substring search with
  tag filters and excerpts.
- **Asking:** the `ask` pipeline. It covers tag parsing, the context builder,
  the LLM call with its fallback, output sanitising, and the two-section
  prompt template file.
- **Interactive screens:**
  - the add-note wizard, with hashtags, a trailing `tags:` clause, a summary
    and confirmation, and save;
  - the one-line add form;
  - the multi-line input area;
  - the list/detail/create screen;
  - the chat screen's settings panel.
- **Configuration:** loading the YAML configuration.

Everything is a pure function over immutable datatypes, except a few loops
written as methods. Anything the program reads from outside comes in as a
parameter:

- **Clock:** the clock's reading.
- **Random bytes:** what the random source gave, or its failure.
- **Files:** whether a file read or write succeeded.
- **Map order:** the order Go happens to iterate a map in.
- **Widgets:** the value a text widget holds after an edit.
- **LLM:** the provider's reply.
- **Connection check:** the result of the connection probe.

| Dafny file | module | source |
|---|---|---|
| text.dfy | Text | `strings` helpers: `TrimSpace`, `Fields`, `Split`, `Join`, `Index`, `ToLower`, `ReplaceAll` |
| hex.dfy | Hex | `hex.EncodeToString` and `%0Nx` formatting |
| wrappers.dfy | Wrappers | `Option` / `Result` |
| notestore.dfy | NoteStore | storage/storage.go |
| search.dfy | Search | search/search.go |
| cli.dfy | Cli | cmd/cmd.go |
| ask.dfy | Ask | cmd/core/ask.go |
| template.dfy | AskTemplate | cmd/ask.go |
| wizard.dfy | AddWizard | tui/add_wizard.go (parsing) |
| wizardflow.dfy | WizardFlow | tui/add_wizard.go (dialogue) |
| addnote.dfy | AddNote | tui/add_note.go |
| inputarea.dfy | InputArea | internal/tui/input_area.go |
| listview.dfy | ListView | internal/tui/model.go |
| settings.dfy | ChatSettings | tui/chat_model.go (settings panel) |
| notefile.dfy | NoteFile | internal/storage/notes.go |
| config.dfy | Config | config/load.go, config/defaults.go |

## Model

| member | source | states |
|---|---|---|
| NoteStore.NewInMemory | storage/storage.go:36-38 | a new store holds no notes |
| NoteStore.Save | storage/storage.go:41-44 | saving always succeeds, stores the note under its id, and leaves every other id's note untouched |
| NoteStore.SaveIdempotent | storage/storage.go:41-44 | saving the same note twice is the same as saving it once |
| NoteStore.SaveCommutes | storage/storage.go:41-44 | saves of notes with different ids can happen in either order |
| NoteStore.InsertByAgeSorted | storage/storage.go:52-54 | inserting one note into a newest-first list keeps it newest-first |
| NoteStore.SortNewestFirst | storage/storage.go:52-54 | the sort gives a newest-first permutation of its input |
| NoteStore.List | storage/storage.go:47-56 | the listing holds every stored note exactly once (a permutation of the map's values), newest first |
| NoteStore.ExtractTags | storage/storage.go:59-68 | every extracted tag is non-empty and holds no whitespace |
| NoteStore.ExtractTagsRoundTrip | storage/storage.go:59-68 | writing tags as `#tag` words separated by spaces and extracting them gives back the same tags, in order, duplicates included |
| NoteStore.TagsOfFieldsShape | storage/storage.go:61-67 | the tags taken from whitespace-free fields are non-empty and whitespace-free |
| NoteStore.StampV4 | storage/storage.go:77-79 | the stamped bytes carry version 4 in byte 6 and the RFC 4122 variant in byte 8 |
| NoteStore.NewID | storage/storage.go:72-87 | the id is an error exactly when the random read fails; otherwise it has the 8-4-4-4-12 lower-case hex layout with version digit 4 and variant digit 8, 9, a or b |
| NoteStore.NewIDIsLayout | storage/storage.go:80-86 | the five `%08x-%04x-…` groups of stamped bytes form a version-4 UUID |
| NoteStore.GroupsAreEncoding | storage/storage.go:80-86 | the five formatted groups are the hex encoding of the 16 bytes, cut by dashes |
| Search.OpenOrCreate | search/search.go:28-30 | opening always succeeds with an empty index |
| Search.OpenOrCreateIgnoresPath | search/search.go:28-30 | the path plays no part in the in-memory index |
| Search.IndexNote | search/search.go:37-40 | indexing always succeeds and files the note under its id, adding only that id |
| Search.IndexNoteIdempotent | search/search.go:37-40 | indexing a note twice is indexing it once |
| Search.Close | search/search.go:68 | closing never fails |
| Search.NormalizeQuery | search/search.go:43 | the normalised query is lower case, and empty exactly when the query is all whitespace |
| Search.AnyTagMatch | search/search.go:70-84 | true exactly when some filter tag equals some note tag, ignoring case |
| Search.Intersect | search/search.go:86-101 | every kept tag comes from the second list and matches a tag of the first list, ignoring case; every tag of the second list that matches one of the first is kept |
| Search.IntersectDistributes | search/search.go:94-99 | the matched tags of two joined lists are the matched tags of each, in order: the second list is filtered in its own order, duplicates kept |
| Search.IntersectSingle | search/search.go:94-99 | one requested tag is kept, in its own spelling, exactly when the note carries it in some case |
| Search.IntersectEmptyIff | search/search.go:86-101 | the intersection is empty exactly when no tag of the second list matches one of the first |
| Search.Keeps | search/search.go:47-54 | a note is kept exactly when its tags meet the filter (or there is no filter) and its content contains the query, ignoring case (or the query is blank) |
| Search.HitsSound | search/search.go:46-60 | every hit is a matching note, in iteration order |
| Search.HitsComplete | search/search.go:46-60 | every matching note is a hit |
| Search.HitsDistinct | search/search.go:46-60 | no note is reported twice |
| Search.QueryUnlimited | search/search.go:42-66 | with a top-K of zero or less, the query returns every matching note |
| Search.QueryLimited | search/search.go:61-63 | with a positive top-K, the query returns the first top-K matching notes: exactly top-K of them when more match, all of them otherwise |
| Search.IndexedNoteIsFound | search/search.go:37-66 | a note just indexed is found by a query for a piece of its content |
| Search.ExcerptWithoutQuery | search/search.go:103-111 | without a query, the excerpt is the content cut to the width |
| Search.ExcerptAtFirstHit | search/search.go:112-130 | with a query, the window starts half a width before the first case-insensitive hit (or at 0) and is one width long (or runs to the end) |
| Search.ExcerptWithoutHit | search/search.go:112-120 | a query that never occurs gives the first width characters |
| Search.ExcerptContainsHit | search/search.go:103-130 | when the hit fits in the half window, the excerpt contains the query, ignoring case |
| Cli.ParseTags | cmd/cmd.go:240-257 | every parsed tag is non-empty, trimmed and free of commas; a blank string gives no tags |
| Cli.ParseTagsOfJoin | cmd/cmd.go:240-257 | joining clean tags with commas and parsing gives them back |
| Cli.ParseTagsRoundTrip | cmd/cmd.go:240-257 | parsing is a fixed point after one join |
| Cli.BuildAskContext | cmd/cmd.go:261-286 | the context is the entries joined by blank lines, cut to the limit when the limit is positive |
| Cli.FullContextShape | cmd/cmd.go:261-286 | the context is empty exactly when there are no snippets, and starts with the first snippet's id line |
| Cli.GenUuidV4 | cmd/cmd.go:221-237 | with random bytes, the id is a version-4 UUID |
| Cli.GenUuidV4IsNewID | cmd/cmd.go:221-237 | with random bytes it agrees with the store's id generator |
| Cli.FallbackIsNotUuid | cmd/cmd.go:223-227 | the clock-based fallback id is at most 17 characters and never a UUID |
| Ask.AskLLM | cmd/core/ask.go:56-69 | an unsupported mode or a missing provider is an error; a provider error with fallback on becomes the fallback text with no error; otherwise the provider's reply passes through unchanged |
| Ask.AskLLMSucceedsOnlyThroughProvider | cmd/core/ask.go:56-69 | the call succeeds exactly in chat-only mode with a provider that answered, or with fallback enabled |
| Ask.FallbackHidesProviderError | cmd/core/ask.go:63-68 | with fallback enabled, a provider error becomes the fallback text and a good reply passes through |
| Ask.MockPrompt | cmd/core/ask.go:78-91 | the mock keeps its scripts and advances its cursor by at most one |
| Ask.MockCursor | cmd/core/ask.go:78-91 | after k calls the cursor is at k, capped at the longer script |
| Ask.MockNthCall | cmd/core/ask.go:78-91 | the k-th call gives the k-th scripted error, else the k-th response, else the default content |
| Ask.AskCmdTags | cmd/core/ask.go:179-188 | every tag is non-empty, trimmed and comma-free |
| Ask.AskCmdTagsIsParseTags | cmd/core/ask.go:179-188 | the ask command parses tags exactly as the CLI helper does |
| Ask.JoinExcerpts | cmd/core/ask.go:207-214 | the text is the excerpts in order, separated by `---` lines |
| Ask.JoinExcerptsRecoverable | cmd/core/ask.go:207-214 | read line by line, a context of single-line excerpts is the excerpts with a `---` line between each two, so every other line gives the excerpts back |
| Ask.SanitizeLLMOutput | cmd/core/ask.go:263-274 | the result is a suffix of the reply and never starts with one of the cut characters |
| Ask.SanitizeKeepsPlainText | cmd/core/ask.go:263-274 | a reply with no leading decoration and no role prefix is kept as it is |
| Ask.SanitizeAt | cmd/core/ask.go:263-274 | the first matching role prefix is removed, with the punctuation after it |
| Ask.SanitizeStripsRole | cmd/core/ask.go:263-274 | after a role prefix and one separator, exactly the rest of the reply is kept |
| Ask.SanitizeRoleDot | cmd/core/ask_sanitize_test.go:5-21 | `**.assistant` before a list is removed |
| Ask.SanitizeRoleStars | cmd/core/ask_sanitize_test.go:5-21 | `**assistant ` is removed |
| Ask.SanitizeRoleColon | cmd/core/ask_sanitize_test.go:5-21 | `assistant: ` is removed |
| Ask.SanitizeRoleCapital | cmd/core/ask_sanitize_test.go:5-21 | `Assistant: ` is removed |
| Ask.SanitizeRoleTag | cmd/core/ask_sanitize_test.go:5-21 | `<\|assistant\|> ` is removed |
| Ask.SanitizeRoleBare | cmd/core/ask_sanitize_test.go:5-21 | a bare `assistant ` is removed |
| Ask.SanitizePlain | cmd/core/ask_sanitize_test.go:5-21 | plain text is unchanged |
| Ask.FallbackCount | cmd/core/ask.go:281-286 | a positive n is capped at the number of snippets; a non-positive n counts as 3, also capped at the number of snippets |
| Ask.Label | cmd/core/ask.go:290-293 | a blank excerpt shows the note id; any other shows its trimmed, non-empty excerpt |
| Ask.FallbackFromSnippets | cmd/core/ask.go:277-301 | no snippets give the fixed no-reply text; otherwise the header followed by one `- ` line for each of the first FallbackCount snippets |
| Ask.FallbackLineCount | cmd/core/ask.go:277-301 | the fallback body splits back into exactly FallbackCount lines, at least one |
| AskTemplate.DefaultAskTemplate | cmd/ask.go:124-129 | both default sections are non-empty, and the user section carries the question and context slots |
| AskTemplate.LoadAskTemplateOrDefault | cmd/ask.go:136-174 | a blank path or unreadable file gives the default; otherwise the parsed file; both sections are always non-empty |
| AskTemplate.ParseTemplate | cmd/ask.go:144-173 | a parsed template is the default or has two trimmed non-empty sections |
| AskTemplate.Chosen | cmd/ask.go:168-173 | two non-empty sections are kept as they are; otherwise the default |
| AskTemplate.ContentIgnored | cmd/ask.go:147-167 | content lines before any header are dropped |
| AskTemplate.SystemContent | cmd/ask.go:147-167 | content lines under `system:` are appended to the system section, in order |
| AskTemplate.UserContent | cmd/ask.go:147-167 | content lines under `user:` are appended to the user section, in order |
| AskTemplate.RepeatedHeaderAppends | cmd/ask.go:147-167 | a repeated header continues its section rather than restarting it |
| AskTemplate.WithoutUserSectionIsDefault | cmd/ask.go:168-173 | a file with no `user:` header gives the default template |
| AskTemplate.SystemLineOnlyIsDefault | cmd/ask.go:168-173 | a lone system header line gives the default |
| AskTemplate.SystemSLineIsDefault | cmd/ask.go:168-173 | `system: s` on one line gives the default |
| AskTemplate.LoadRoundTrip | cmd/ask.go:136-174 | writing a template with trimmed non-empty sections in the block layout and loading it gives it back |
| AskTemplate.RenderTemplate | cmd/ask.go:176-183 | a section without slots renders as itself |
| AskTemplate.RenderFillsSlots | cmd/ask.go:176-183 | a section with a question slot and then a context slot renders as its text with the question and the context put in the slots, whatever the context holds |
| Text.ReplaceAll | cmd/ask.go:178-179 | text without the pattern's first character, or a replacement equal to the pattern, leaves the text unchanged |
| Text.ReplaceAllHead | cmd/ask.go:178-179 | an occurrence at the front is replaced and the scan continues after it |
| AskTemplate.RenderAbsent | cmd/ask.go:176-183 | rendering leaves slot-free text unchanged |
| AskTemplate.QuestionBeforeContext | cmd/ask.go:176-183 | the question is substituted first, so a question holding the context slot receives the context |
| AddWizard.ScanHashtags | tui/add_wizard.go:248-255 | every name found is a word |
| AddWizard.ScanHashtagsShape | tui/add_wizard.go:248-255 | no hashtag is left in the rest, and every character is either in the rest or in a removed `#name` |
| AddWizard.ScanHashtagsIdempotent | tui/add_wizard.go:248-255 | scanning the rest again finds nothing and changes nothing |
| AddWizard.FindClause | tui/add_wizard.go:257-259 | the clause found is the leftmost `tags:` / `標籤:` match, and there is none when no position matches |
| AddWizard.ClauseItems | tui/add_wizard.go:260-266 | every clause item is a lower-case, non-empty tag |
| AddWizard.SortTags | tui/add_wizard.go:271-276 | the result is strictly sorted (so duplicate-free) and holds exactly the input's tags |
| AddWizard.SortTagsOrderFree | tui/add_wizard.go:271-276 | two lists with the same tags sort to the same result |
| AddWizard.RemainderCases | tui/add_wizard.go:255-268 | the clause is cut from the text only when it is still there after the hashtags are removed |
| AddWizard.ParseAddInput | tui/add_wizard.go:244-278 | the content is trimmed; the tags are sorted, unique, lower case, and exactly the hashtags and clause items |
| AddWizard.ParseTrailingClause | tui/add_wizard.go:244-278 | a text ending in a `tags:` clause parses to its lead and the lowered, sorted clause words |
| WizardFlow.ShownContent | tui/add_wizard.go:288-293 | blank content is shown as the empty-content marker |
| WizardFlow.TagLine | tui/add_wizard.go:282-285 | no tags are shown as the no-tags marker, otherwise joined by commas |
| WizardFlow.SummaryRoundTrip | tui/add_wizard.go:281-298 | a summary of a parse whose content is not the marker can be read back to that parse |
| WizardFlow.SummaryOfParseRoundTrip | tui/add_wizard.go:281-298 | every summary of a parsed input reads back to that parse, unless its content is the marker `(空)` |
| WizardFlow.SummaryBlankAmbiguous | tui/add_wizard.go:288-293 | blank content and content equal to the marker give the same summary |
| WizardFlow.GenID | tui/add_wizard.go:301-304 | the id is non-empty and all digits for a non-negative clock |
| WizardFlow.DraftNote | tui/add_wizard.go:121-127 | the confirmed note's id is `genID` of the clock: non-empty, and all digits for a non-negative clock |
| WizardFlow.GenIDInjective | tui/add_wizard.go:301-304 | different clock readings give different ids |
| WizardFlow.NewWizard | tui/add_wizard.go:39-69 | the dialogue starts with the introduction, empty input and nothing pending |
| WizardFlow.NewWizardConsistent | tui/add_wizard.go:39-69 | the initial dialogue satisfies the history invariant |
| WizardFlow.Update | tui/add_wizard.go:73-193 | the history only grows, the dependencies never change, and quitting is permanent |
| WizardFlow.SaveExactlyOnConfirm | tui/add_wizard.go:109-138 | a save is requested exactly on Enter with a pending summary, both dependencies, and a yes-word; it saves the last parse under the non-empty id `genID` gives |
| WizardFlow.SubmitSavesOnConfirm | tui/add_wizard.go:112-138 | a submitted reply saves exactly when a summary is pending, both dependencies are there, and the reply is a yes-word |
| WizardFlow.BlankSubmitIsNoOp | tui/add_wizard.go:105-107 | Enter on blank input changes nothing |
| WizardFlow.AltEnterAddsNewline | tui/add_wizard.go:89-92 | Alt+Enter adds a line break to the input |
| WizardFlow.SubmitReparses | tui/add_wizard.go:144-166 | any other reply is parsed and summarised, and asks for confirmation |
| WizardFlow.CancelQuits | tui/add_wizard.go:139-143 | a cancel word ends the dialogue with a farewell |
| WizardFlow.ConfirmWithoutDeps | tui/add_wizard.go:115-119 | confirming without a store or index reports it and drops the pending summary |
| WizardFlow.RunSave | tui/add_wizard.go:130-138 | the note is indexed only when the save succeeded; success is reported only when both succeeded |
| WizardFlow.SaveOutcome | tui/add_wizard.go:180-190 | a successful save ends the dialogue with the id; a failure keeps the summary pending |
| WizardFlow.UpdateConsistent | tui/add_wizard.go:146-166 | every step keeps the invariant that the pending parse is the parse of the last typed reply |
| WizardFlow.SavedNoteIsLastParse | tui/add_wizard.go:121-127 | a saved note holds the parse of the last described text |
| WizardFlow.DescribeThenConfirm | tui/add_wizard.go:112-166 | describing a note and answering `ok` saves that note's parse |
| AddNote.NewAddNote | tui/add_note.go:21-33 | a new form is empty and not quitting |
| AddNote.Update | tui/add_note.go:41-72 | every key except an edit quits; Enter takes the typed text and its `#` words; nothing else touches the note |
| AddNote.LeaveKeepsNothing | tui/add_note.go:59-62 | Esc and Ctrl+C quit without taking a note |
| AddNote.TagsRoundTrip | tui/add_note.go:50-55 | tags typed as `#tag` words come back in order |
| AddNote.HashWordsVsExtract | tui/add_note.go:50-55 | the form's tags are the store's extracted tags plus the empty ones a bare `#` gives |
| AddNote.BareHash | tui/add_note.go:50-55 | a bare `#` is an empty tag here and no tag for the store |
| AddNote.HelloWorld | tui/add_note.go:50-55 | entering `hello #world` keeps the text and the tag `world` |
| AddNote.View | tui/add_note.go:75-86 | nothing is shown once the form has quit; otherwise the widget is framed by the heading and footer |
| InputArea.NewInputArea | internal/tui/input_area.go:18-25 | a new area is empty and shows its placeholder |
| InputArea.InsertRunes | internal/tui/input_area.go:84-91 | the inserted text lands at the index, with the old text around it |
| InputArea.Update | internal/tui/input_area.go:33-65 | the cursor stays within the text; only Enter submits, and it submits the text unchanged |
| InputArea.TypingInserts | internal/tui/input_area.go:37-40 | typed characters go in at the cursor, which moves past them |
| InputArea.BackspaceRemovesOne | internal/tui/input_area.go:41-46 | backspace removes the character before the cursor, or nothing at the start |
| InputArea.ArrowsMoveCursor | internal/tui/input_area.go:47-54 | the arrows move the cursor by one within the text and leave the text alone |
| InputArea.CtrlJIsNewline | internal/tui/input_area.go:58-61 | Ctrl+J types a line break |
| InputArea.BackspaceUndoesTyping | internal/tui/input_area.go:37-46 | typing a character and deleting it restores the area |
| InputArea.RightUndoesLeft | internal/tui/input_area.go:47-54 | Right undoes Left away from the start |
| InputArea.View | internal/tui/input_area.go:68-75 | an empty area shows the placeholder; otherwise the text with a bar at the cursor |
| InputArea.ViewWithoutCursor | internal/tui/input_area.go:68-75 | removing the bar from the view leaves the prompt and the text |
| ListView.InitialModel | internal/tui/model.go:41-55 | the screen starts on the list, at the top, with the notes or with the load error |
| ListView.Update | internal/tui/model.go:65-149 | only the quit keys quit; keys keep the notes and the input area valid; a cursor on a row stays on a row; only a submission with a non-blank title saves a note, and it is the title and content the submission splits into |
| ListView.CursorMoves | internal/tui/model.go:72-84 | up and down move the cursor by one within the list |
| ListView.EnterOpensNote | internal/tui/model.go:86-96 | Enter shows the selected note, or reports the read error |
| ListView.EscReturns | internal/tui/model.go:97-103 | Esc goes back to the list, clearing a shown note |
| ListView.NewNoteKey | internal/tui/model.go:104-116 | `n` opens an empty create screen, and the key is also typed into the editor |
| ListView.SubmissionParts | internal/tui/model.go:122-128 | the first line, trimmed, is the title and the rest is the body |
| ListView.Submit | internal/tui/model.go:121-145 | a blank title is refused; a successful save reloads the list and returns to it; any failure keeps the screen and shows an error |
| ListView.BlankTitleRefused | internal/tui/model.go:122-128 | a blank first line is refused whatever the body, and nothing is saved |
| ListView.SubmitSavesDraft | internal/tui/model.go:121-134 | a submission saves its trimmed first line as the title and the rest, as typed, as the content, unless that line is blank |
| ListView.SubmitKeepsCursor | internal/tui/model.go:134-145 | the cursor survives a save that does not shrink the list |
| ListView.ShorterReloadStrandsCursor | internal/tui/model.go:86-145 | a reload shorter than the cursor leaves it past the last row, where Enter would index out of range |
| ListView.Render | internal/tui/model.go:153-191 | errors replace the screen; the list shows one row per note, or the empty-list text |
| ListView.OneRowMarked | internal/tui/model.go:169-175 | exactly the cursor's row is marked |
| ChatSettings.NewChat | tui/chat_model.go:144-169 | the chat starts with the panel closed, the LLM off and the default top-K |
| ChatSettings.OpenSettings | tui/chat_model.go:542-564 | opening copies the applied values into the temporaries, defaulting a missing top-K |
| ChatSettings.Apply | tui/chat_model.go:205-227 | a blank host is refused; otherwise the temporaries are applied, a non-positive top-K is ignored, and the host is trimmed |
| ChatSettings.BlankHostRefused | tui/chat_model.go:205-211 | with a blank host, Enter keeps the panel open with an error and applies nothing |
| ChatSettings.EscDiscards | tui/chat_model.go:228-231 | Esc closes the panel and applies nothing |
| ChatSettings.ToggleLLM | tui/chat_model.go:236-238 | `l` and `L` flip the temporary LLM switch |
| ChatSettings.BracketDown | tui/chat_model.go:247-254 | `[` lowers the temporary top-K, never below 1 |
| ChatSettings.BracketUp | tui/chat_model.go:255-260 | `]` raises the temporary top-K by one |
| ChatSettings.PanelRune | tui/chat_model.go:232-271 | a panel character key keeps the state valid and changes no applied setting |
| ChatSettings.TabSwitchesFocus | tui/chat_model.go:277-287 | Tab and Shift+Tab move the focus to the other input |
| ChatSettings.Update | tui/chat_model.go:199-354 | every key keeps the state valid; only Esc or Ctrl+C with the panel closed quits; F2 opens the panel |
| ChatSettings.OnlyApplyChanges | tui/chat_model.go:199-354 | only Enter with a non-blank host changes the applied settings |
| ChatSettings.EffectiveTopK | tui/chat_model.go:463-466 | the top-K used is positive, and a positive setting is used as it is |
| ChatSettings.RetrievalReply | tui/chat_model.go:446-483 | no hits give the nothing-found reply; hits start with the header naming the top-K used |
| ChatSettings.IdLinesSplit | tui/chat_model.go:474-480 | read line by line, the reply body is one `- <id>` line per snippet, in query order |
| ChatSettings.HeaderShowsTopK | tui/chat_model.go:463-475 | the header's number reads back as the top-K used |
| ChatSettings.RaiseTopKExample | tui/chat_model.go:199-260 | F2, `]`, Enter raises the top-K from 5 to 6 and closes the panel |
| ChatSettings.EnableLLMExample | tui/chat_model.go:199-238 | F2, `l`, Enter turns the LLM on |
| NoteFile.SaveNote | internal/storage/notes.go:15-51 | the directory error comes first, then an illegal title, then the write error; otherwise the note is written under `<stamp>-<title>.md` |
| NoteFile.FileName | internal/storage/notes.go:29 | the name is the stamp, a dash, the title and `.md` |
| NoteFile.FileNameRoundTrip | internal/storage/notes.go:29 | the title can be read back out of the file name |
| NoteFile.BodyIsHeaderAndContent | internal/storage/notes.go:33-42 | the file is its front-matter lines, a blank line and the content untouched |
| NoteFile.HeaderLinesSplit | internal/storage/notes.go:33-42 | the front-matter lines can be split back out when the fields hold no line break |
| NoteFile.TagsLineIffTags | internal/storage/notes.go:38-40 | there is a `tags:` line exactly when the note has tags |
| NoteFile.TitleRoundTrip | internal/storage/notes.go:36 | the title reads back from its front-matter line |
| NoteFile.ThreeTagsLine | internal/storage/notes.go:39 | tags are written as `tags: [a, b, c]` |
| NoteFile.SlashRefused | internal/storage/notes.go:22-26 | a title with `/` is refused |
| NoteFile.EmptyTitleAllowed | internal/storage/notes.go:28-31 | an empty title gives `<stamp>-.md` |
| Config.DefaultConfig | config/defaults.go:11-23 | the defaults name the loopback host, `llama3`, the data directories and width 80 |
| Config.DefaultHostIsNumeric | config/defaults.go:11-23 | the default host is `127.0.0.1`, not `localhost` |
| Config.Load | config/load.go:40-65 | no path or an unreadable file gives the defaults; a parse error is the only error; a parsed file is merged |
| Config.YamlConfigOverride | config/load.go:68-96 | the merge yields the file's values, field by field |
| Config.OverrideIdempotent | config/load.go:68-96 | merging twice is merging once |
| Config.OverrideIgnoresBase | config/load.go:68-96 | the merge's result does not depend on the defaults it starts from |
| Config.FullFileOverlays | config/load.go:40-65 | a file giving every field loads as exactly those values |
| Config.MissingFieldsNotDefaulted | config/load.go:68-96 | a field the file leaves out stays zero instead of taking its default |

## Left out

- **Text handling:**
  - `ToLower` lowers ASCII letters only.
  - Strings are sequences of characters, not UTF-8 bytes, so byte offsets in `excerpt` and the `[:maxLen]` cut in `buildAskContext` count characters.
- **Floating point:** the temperature, the `<` and `>` keys and the clamp on apply are left out. The search score is a constant.
- **Network and I/O:**
  - The network, `connProbe`, and the Ollama and OpenCode providers are left out. A provider's reply and the probe's answer are parameters.
  - The clock, random bytes, file reads and writes, and the data-directory lookup are parameters.
  - `filepath.Join`'s cleaning of `.`, `..` and repeated separators is not modelled.
- **Go map iteration order:** it is a parameter (any order listing each key once).
- **nil versus empty:** nil and empty slices are the same value.
- **Widgets and rendering:**
  - Bubble Tea widgets (text input, textarea, viewport, spinner) are not modelled. Their value after an edit is a parameter.
  - Screen rendering is modelled only for the list screen, the input area and the add form.
- **The rest of the chat screen:** the message history, scrolling, the LLM chat command and the closed-panel keys are left out. The retrieval reply is kept.
  - The second Enter handler at tui/chat_model.go:289-325 cannot be reached, because Enter always returns earlier.
  - 't' probes the trimmed host.
- **config/config.go:** it declares a second, conflicting configuration type and is not part of this model.
- **Config.YamlConfigOverride:** it returns the parsed file, not the merge. Fields the file omits stay zero, contrary to the comment on `Load`.
  - The load test expects `http://localhost:11434` as the default host, while `DefaultConfig` gives `http://127.0.0.1:11434`. The model follows `DefaultConfig`.
- **ListView.Update:**
  - After a reload the cursor is not reset. A shorter list can leave it past the last row, and Enter then reads out of range. The model states this (ShorterReloadStrandsCursor) and requires a valid row only where a row is read.
  - The `n` key also reaches the editor.
- **AddNote.Update:** a bare `#` becomes an empty tag.
- AddWizard.FindClause: Go's `(?i)` matches by Unicode simple case folding, so `ſ` (U+017F) matches `s` and the Kelvin sign (U+212A) matches `k`, in the keyword and in the list class. The model matches ASCII case only, so a text such as `taſs: a` has a clause in the program and none here.
- AddWizard.ParseAddInput: for the same reason, such a text keeps its clause as content here instead of yielding the tag `a`.
- **Cli.ParseTags:** the CLI help describes tag filters as AND, but the search keeps a note when ANY tag matches. The model follows the search.
- **ChatSettings.Update, InputArea.Update:**
  - They take as a precondition the invariant (`Valid`) that the constructors establish and every step keeps. Their callers hold no other state.
  - `ListView.Update` requires a valid input area, and a cursor on a row only where Enter reads a row.
