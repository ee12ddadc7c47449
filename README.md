# Sibyl: a verified model of the bot's library, bookmark and note logic

Sibyl is a chat bot that controls an XBMC/Kodi media player. Users send it commands.
Most of its code forwards these commands to the player over JSON-RPC. This project
models the parts that compute something and proves what they promise:

- **Query matcher** (`query.dfy`). `matches` splits a query into terms, honouring double
  quotes. It keeps the library entries that every term admits, in `checkall`'s sense:
  a plain term must occur ignoring case, and a `-term` must not. It returns them sorted.
- **Path reducer** (`pathtree.dfy`). `reducetree` collapses a match list to its shortest
  entry when every entry starts with it.
- **Bookmark store** (`bookmarks.dfy`). This holds:
  - the record codec `bm_format`/`bm_unformat`, seven tab-separated fields;
  - the file parser `bm_parse`;
  - the dictionary and the file of lines mirroring it, as the class `BookmarkStore`
    with `bm_add`, `bm_remove`, `bm_update` and `bm_recent`.

  Its central invariant is `Mirrors`: the file's lines decode to exactly the
  dictionary. Every mutator preserves it for storable bookmarks (see "## Left out");
  reading the file (`bm_parse`) installs the dict it decodes to but does not by
  itself establish the invariant.
- **Time strings** (`clock.dfy`). These are `time2str` and `sec2str`. The parser in
  `seek` is proved to invert them.
- **Access rules** (`access.dfy`). This covers validation of the configured
  black/white list, the allow-everything default rule put in front, and the rule loop of
  `callback_message`, where the last applying rule decides.
- **Notes** (`notes.dfy`). This covers the argument handling of `note` and the note
  list with its file (`note_parse`, `note_write`). Users number notes from 1.
- **Commands** (`commands.dfy`). This covers:
  - the trailing track number of `files`;
  - `file`;
  - the `last_played` session that `files` sets and `file` clears;
  - `bookmark set`/`remove`;
  - `resume` with its trailing `next`, which is proved to send `files` a request
    that reads back as the bookmarked directory and position, for a directory with
    no `"` and no space at either end.

`text.dfy` models the Python string operations the code relies on: `strip`,
`split(sep)`, `join`, `lower` (ASCII), `in`, `str(int)`, `int(str)`, `zfill`, `find`
and `rfind`. `common.dfy` holds `Option` and `Result`.

The player's answers are parameters of the methods that need them. These are whether
a directory or file opened, the position, the time and the file name.

Where the bot changes state, the model is imperative:
- the query loop and the filter loop of `matches`;
- the loop of `bm_parse`;
- the running maximum of `bm_recent`;
- the rule loop;
- the bookmark dictionary and file;
- the note list;
- `last_played`.

Each such method is proved against a function that specifies it.

## Model

| member | source | states |
|---|---|---|
| Query.QuoteBlock | sibylbot.py:1328-1347 | the quote-blocking loop computes exactly the terms `Terms` defines, branch for branch |
| Query.TermsOfRender | sibylbot.py:1328-1347 | a query typed as words and quoted phrases (words free of `"`, phrases joined by single spaces) is read back as exactly those words and phrases |
| Query.TermsOfPart | sibylbot.py:1328-1347 | one well-formed word or quoted phrase becomes one term, and quote blocking carries on unchanged after it |
| Query.StrayClosingQuote | sibylbot.py:1337-1341 | a token ending in `"` with no quote open becomes a term with a leading space, and quote blocking carries on unchanged after it |
| Query.UnterminatedQuote | sibylbot.py:1342-1347 | an unterminated quote yields one term: the accumulated words, space-joined, with every `"` removed |
| Query.TermsInsideQuote | sibylbot.py:1342-1343 | inside an open quote, quote-free tokens are appended to the accumulator, each after a single space |
| Query.InsideQuoteStep | sibylbot.py:1342-1343 | inside an open quote, one token without a '"' is appended to the accumulated term after a space |
| Query.OpenQuote | sibylbot.py:1334-1336 | a token that starts with '"' but does not end with one opens a quote whose term begins with the token's text after the '"' |
| Query.CloseQuote | sibylbot.py:1337-1341 | inside an open quote, a token ending in '"' completes the term (accumulated text, a space, the token without its '"'), and the quote is closed |
| Query.CheckAllMeaning | sibylbot.py:1624-1632 | checkall accepts a path iff every term is non-empty and admits the path; it raises only when some term is empty |
| Query.BareDashIsNoOp | sibylbot.py:1624-1632 | inserting a bare `-` anywhere in the terms changes no verdict |
| Query.SelectedCount | sibylbot.py:1350-1356 | the filter keeps each accepted entry as many times as the library holds it and drops every other entry (an empty term drops all) |
| Query.Insert | sibylbot.py:1357 | inserting into a sorted list yields a sorted list with one more element and that element added to its multiset |
| Query.Sort | sibylbot.py:1357 | sorting yields a sorted permutation of its input |
| Query.SortedUnique | sibylbot.py:1357 | two sorted lists with the same elements are equal, so the match list does not depend on the sort algorithm |
| Query.BelowTotal | sibylbot.py:1357 | string order is total |
| Query.BelowAntisymmetric | sibylbot.py:1357 | string order is antisymmetric |
| Query.BelowTransitive | sibylbot.py:1357 | string order is transitive |
| Query.MatchSetMembers | sibylbot.py:1324-1358 | a string is in the match list iff it is a library entry that satisfies every term |
| Query.Matches | sibylbot.py:1324-1358 | matches returns the library entries that satisfy the terms, duplicates included, sorted ascending |
| PathTree.ShortestIndex | sibylbot.py:1657 | the index stable sorting by length puts first: a path of minimum length, before which every path is longer |
| PathTree.ReduceTreeCollapses | sibylbot.py:1654-1661 | when some path is a prefix of every path, the list reduces to that path alone |
| PathTree.ReduceTreeKeeps | sibylbot.py:1654-1661 | when no path is a prefix of all the others, the list is returned unchanged |
| PathTree.ReduceTreeSubset | sibylbot.py:1654-1661 | the result is non-empty and made of input paths only |
| PathTree.ReduceTreeIdempotent | sibylbot.py:1654-1661 | reducing twice is reducing once |
| PathTree.SubdirectoriesCollapse | sibylbot.py:1263-1267 | a directory and its subdirectories reduce to the directory |
| PathTree.SiblingsKept | sibylbot.py:1654-1661 | unrelated directories are all kept |
| PathTree.TextualPrefix | sibylbot.py:1654-1661 | the test is textual: `/a/b` absorbs its sibling `/a/bc` |
| Bookmarks.UnformatFormat | sibylbot.py:1471-1490 | bm_unformat reads back what bm_format wrote (with or without the line break) for a non-blank name without leading whitespace and text fields free of tabs and line breaks |
| Bookmarks.EmptyNameUnreadable | sibylbot.py:1471-1490 | a bookmark with an empty name is written as a line that strip() shortens to six fields, so it cannot be read back |
| Bookmarks.SplitFormat | sibylbot.py:1471-1477 | a formatted line splits on tabs into name, path, pid, pos, file, time and add, in that order |
| Bookmarks.ParseLinesErrPrefix | sibylbot.py:1416-1418 | once a line fails to decode, parsing raises that error whatever follows |
| Bookmarks.KeepOthers | sibylbot.py:1461 | the filter keeps exactly the lines whose first tab field is not the name |
| Bookmarks.ParseKeepOthers | sibylbot.py:1443-1469 | dropping the lines of a name from a file of named lines removes exactly that name from the parsed dict |
| Bookmarks.MirrorsRemove | sibylbot.py:1443-1469 | bm_remove's filtering keeps the file and the dict in step |
| Bookmarks.MirrorsAppend | sibylbot.py:1433-1441 | appending a storable bookmark's line keeps the file and the dict in step (a mirrored file always ends in a line break, so the line starts a new one) |
| Bookmarks.AppendTextFlatten | sibylbot.py:1439-1441 | a mode-'a' write adds exactly the written text at the end of the file's text, whatever line breaks it holds |
| Bookmarks.FlattenReadLines | sibylbot.py:1414 | readlines() loses nothing: its lines put back together are the file's text |
| Bookmarks.ReadLinesFlatten | sibylbot.py:1414 | a file written as single lines, each with one line break at its end, is read back by readlines() as exactly those lines |
| Bookmarks.AppendLine | sibylbot.py:1439-1441 | writing one line to a file of single lines adds it as the new last line |
| Bookmarks.AppendContinues | sibylbot.py:1439-1441 | writing one line to a file whose last line lacks its line break continues that line instead of starting a new one |
| Bookmarks.AppendTwoLines | sibylbot.py:1439-1441 | writing text that holds two line breaks (a name or field with a line break in it) adds two lines, cut where readlines() cuts |
| Bookmarks.StorableLine | sibylbot.py:1440-1441 | the line written for a storable bookmark has its one line break at the end, is named by its first field, and decodes back to that name and record |
| Bookmarks.MirrorsReplace | sibylbot.py:1425-1441 | bm_update's remove-then-append keeps the file and the dict in step |
| Bookmarks.StepNames | sibylbot.py:1416-1418 | one parsing step adds exactly the name of the line it reads |
| Bookmarks.ParseNames | sibylbot.py:1409-1423 | a name is in the parsed dict iff some non-blank line has it as its first tab field |
| Bookmarks.MirrorsNames | sibylbot.py:1409-1469 | while the store is in step, a name is in the dict iff some non-blank line has it as its first tab field |
| Bookmarks.AbsentNameKeepsFile | sibylbot.py:1453-1461 | filtering the file for a name the dict lacks leaves the file unchanged |
| Bookmarks.BookmarkStore.Parse | sibylbot.py:1409-1423 | bm_parse replaces the dict by the parsed file, or raises the first line's error and leaves the dict alone |
| Bookmarks.BookmarkStore.Remove | sibylbot.py:1443-1469 | `*` empties dict and file and returns true; an absent name returns false and changes nothing; otherwise the key and exactly its lines go, the others kept in order; the mirror invariant is kept |
| Bookmarks.BookmarkStore.Add | sibylbot.py:1433-1441 | the dict maps the name to the record, and the file is what readlines() gives after the record's line is written at its end; for a storable bookmark on a mirrored file that is exactly one new line |
| Bookmarks.BookmarkStore.Update | sibylbot.py:1425-1431 | returns whether the name was present; then the dict maps it to the record, and the file is what readlines() gives after the new line is written at the end of the file holding its other lines; for the name `*` the store is wiped first |
| Bookmarks.BookmarkStore.Recent | sibylbot.py:1492-1503 | None iff no bookmark has add > 0; otherwise a bookmark with add > 0 and no other bookmark's add is greater |
| Clock.Decompose | sibylbot.py:1569-1579 | sec2str's floor-division split adds back up to the total, with minutes and seconds in 0..59 |
| Clock.SeekThreeFields | sibylbot.py:800-810 | seek on `h:m:s` parses the three fields |
| Clock.SeekTwoFields | sibylbot.py:800-808 | seek on `m:s` parses minutes and seconds with hours 0 |
| Clock.SeekWordAt | sibylbot.py:801-809 | for a word with its first ':' and its last ':' at two different known places, seek reads hours, minutes and seconds from the three slices, and fails when any of them is not an integer |
| Clock.SeekTimeWord | sibylbot.py:800 | arguments without a space are a single word, and that word is the one seek parses |
| Clock.SeekTimeInvertsTime2Str | sibylbot.py:1550-1567 | seek reads back every field time2str writes, with hours <= 0 read back as 0 |
| Clock.SeekTimeInvertsSec2Str | sibylbot.py:1569-1579 | for a non-negative number of seconds, seek reads sec2str's text back as the same number of seconds |
| Text.ParseIntStr | sibylbot.py:1483-1484 | int() reads back what str() writes for an integer |
| Text.ParseIntZFill | sibylbot.py:1560-1563 | int() reads back a zero-filled str() |
| Text.ParseIntSpaceAfterSign | sibylbot.py:550 | int() skips whitespace between the sign and the digits, as CPython 2 does: "+ 2" is 2 and "- 1" is -1 |
| Text.JoinSplit | sibylbot.py:523 | joining the words of a split with the separator gives back the text |
| Text.SplitJoin | sibylbot.py:1175-1179 | splitting words joined with the separator gives back the words, when none holds the separator |
| Text.StripLeftShape | sibylbot.py:1414 | lstrip keeps the suffix that starts at the first non-whitespace character, and drops only whitespace |
| Text.StripRightShape | sibylbot.py:1482 | rstrip keeps the prefix that ends at the last non-whitespace character, and drops only whitespace |
| Text.SplitConcat | sibylbot.py:1246 | splitting texts joined by one separator concatenates their splits |
| Access.Validate | sibylbot.py:154-163 | accepted lists keep their length |
| Access.ValidateMeaning | sibylbot.py:154-163 | validation accepts iff every item has three members and a first member `b` or `w`, keeping the items as rules in order; otherwise it names the first bad item, counted from 1 |
| Access.Configure | sibylbot.py:48 | the default allow-all rule goes in front of the configured rules |
| Access.Resolve | sibylbot.py:241-248 | the rule loop leaves the last applying rule, or none |
| Access.LastApplyingMeaning | sibylbot.py:241-248 | the rule found applies and no later rule does; none is found iff no rule applies |
| Access.LastApplyingPrefix | sibylbot.py:241-248 | any applying rule after a prefix overrides the prefix |
| Access.ConfiguredAlwaysDecides | sibylbot.py:48 | with the default in front, some rule always applies, and a command is allowed iff no configured rule applies or the last one that does is `w` |
| Access.BlacklistLast | sibylbot.py:241-254 | a `b` rule for a user, listed last, denies that user every command |
| Notes.NoteArgs | sibylbot.py:511-524 | the verb is always one of show, add, playing and remove |
| Notes.NoteArgsVerb | sibylbot.py:511-524 | a verb, a space and a body give that verb and exactly that body |
| Notes.NoteArgsBareVerb | sibylbot.py:521-522 | a bare verb has an empty body |
| Notes.NoteArgsShow | sibylbot.py:516-524 | arguments that do not start with a verb all become the body of show |
| Notes.PlayingBody | sibylbot.py:527-536 | the playing body extends the given body and is never blank, so note playing always adds |
| Notes.NoteFile | sibylbot.py:1511-1519 | note_write writes every note on its own line, then one blank line |
| Notes.NoteParseFile | sibylbot.py:1505-1519 | note_parse reads back what note_write wrote, for non-empty notes without line breaks or surrounding whitespace |
| Notes.PaddedNoteReadsBackStripped | sibylbot.py:1505-1509 | a note with a leading space reads back stripped |
| Notes.NoteList.Add | sibylbot.py:539-544 | a blank body is refused and changes nothing; otherwise the note is appended, the file rewritten, and the new count returned |
| Notes.NoteList.Remove | sibylbot.py:548-559 | a non-integer or out-of-range number is refused and changes nothing; otherwise note n (counted from 1) is deleted, the file rewritten, and n and the note returned |
| Notes.NoteList.Command | sibylbot.py:508-559 | show changes nothing; playing always adds the extended body; add refuses exactly a blank body; remove refuses exactly an argument int() rejects or a number outside 1..count |
| Notes.RemoveSpacedSign | sibylbot.py:523-559 | `note remove + 2` names note 2, so with two or more notes the second is removed |
| Commands.TrackArgsWithNumber | sibylbot.py:1246-1258 | a query followed by a space and an integer n is read as that query, starting at 0-based position n - 1 |
| Commands.ResumeArgsNext | sibylbot.py:1175-1184 | `name next` resumes the named bookmark at its next entry |
| Commands.ResumeArgsBareNext | sibylbot.py:1175-1189 | a bare `next` leaves an empty name, so the most recent bookmark is used |
| Commands.QuotedSplit | sibylbot.py:1200 | splitting the quoted path gives the tokens of a quoted phrase |
| Commands.QuotedPathTerms | sibylbot.py:1200 | quote blocking reads the quoted path back as the path, when it holds no `"` and no space at either end |
| Commands.ResumeRequestParses | sibylbot.py:1198-1201 | files reads resume's request as exactly the bookmarked directory and the bookmarked 0-based position |
| Commands.PathQueryFindsPath | sibylbot.py:1262-1267 | a query of a library entry's own path selects it, and the playlist reduces to it when every entry containing the path lies under it |
| Commands.SingleRoot | sibylbot.py:1262-1273 | the one directory a match list reduces to is a library entry that satisfies the query |
| Commands.Sibyl.Files | sibylbot.py:1242-1291 | no matches iff the match list is empty; several reduced matches are listed when max_matches allows; otherwise the single reduced directory is opened at the parsed position and becomes last_played, which changes only then |
| Commands.Sibyl.File | sibylbot.py:1293-1322 | no matches iff the match list is empty; several are listed when max_matches allows; a single match is played and clears last_played, which changes only then |
| Commands.Sibyl.Bookmark | sibylbot.py:1102-1136 | set needs last_played; the name defaults to its directory; the record is stored and the file updated as bm_update does. remove follows bm_remove. Every other word changes nothing, and the mirror invariant is kept |
| Commands.Sibyl.Store | sibylbot.py:1128-1129 | storing a bookmark sets its entry in the in-memory store, rewrites the file with the other lines kept, then writes the new line at its end, the file being what readlines() then gives ("*" clears the store), and keeps the file and the store in agreement for a storable bookmark |
| Commands.Sibyl.Resume | sibylbot.py:1167-1213 | no bookmarks iff the store is empty; the name given, or else the most recent bookmark, is re-opened through audios or videos; for a quotable path the match, position and last_played follow; the stored time is sought unless `next` was given |
| Commands.Sibyl.Reopen | sibylbot.py:1199-1206 | for a quotable bookmarked path, the reply is "no matches" exactly when no entry of the audio or video library (chosen by pid) matches the path; a directory it opens, or fails to open, is the one left after reducing the matches; a playlist starts at the bookmarked position; the last-played playlist changes only when the playlist opens |

## Left out

- Chat transport and the JSON-RPC player are not part of this model: XMPP dispatch, MUC, reply text, `xbmc` calls and logging. The player's answers are method parameters; replies are datatypes, not strings.
- Crawling and persistence are not part of this model: the library crawl, the Samba client, `os.walk`, pickling, file and directory checks, subprocesses and randomness. Libraries are given sequences of paths, and files are sequences of lines.
- The show branches of `bookmark` and `note` are not modelled (listing and searching text); only their "nothing changes" behaviour is.
- `list2str` and the text of the "Found n matches" replies are not modelled; only whether the list is included.
- The `remove` reply for a missing bookmark refers to an unbound name and raises. The model records this as `RemoveRaised`; the error text is not modelled.
- Commands.Sibyl.Bookmark: the record's `add` is an integer. The bot uses the float `time.time()` and reads it back with `float()`. The model formats and parses it with `str`/`int`, so float formatting is not modelled. In the bot, Python 2's `str` of a float keeps 12 significant digits, so the `add` written to the file is a rounding of the one kept in the dict: the bot's file decodes to its dict only up to that rounding, while the model's decodes to it exactly.
- Bookmarks.BookmarkStore.Recent: the dict's iteration order is unspecified, so among bookmarks tied for the greatest `add` the model promises some one, not the first iterated.
- Bookmarks.BookmarkStore.Add: the mirror invariant is promised only for storable bookmarks: non-blank name without leading whitespace, and no tabs or line breaks in text fields. The bot does not check this; other bookmarks can break the file and are not excluded by any precondition. The file itself is still stated exactly for every bookmark, as readlines() reads it after the write (a line break in a name or field cuts the record into several lines).
- Bookmarks.BookmarkStore.Remove: the filtered lines are kept as the new file; that reading them back after writelines() gives the same list is proved only for files of single lines (ReadLinesFlatten), not for one whose last line lacks its line break.
- Notes.NoteFile: the note file is the list of strings note_write writes; a note holding a line break would read back as two notes, which is why NoteParseFile requires clean notes.
- Bookmarks.BookmarkStore.Update: the mirror invariant is promised only for storable bookmarks, as for Add.
- Commands.Sibyl.Resume: the match and position guarantees are promised only for quotable paths (no `"`, no space at either end); other paths are passed to files as the bot passes them, with no promise about what they match.
- Commands.Sibyl.Reopen: the match and position guarantees are promised only for quotable paths, as for Resume.
- Commands.Sibyl.Resume: seek's result is recorded as the time to seek to, or as unparsable; the player's handling of it is not modelled.
- Access.Validate: the type checks of the items (tuple, str members) are not modelled, so items are given as sequences of strings.
- `Text.Lower` folds ASCII letters only; Unicode case folding is not modelled.
- The matcher's in-place `sort()` is modelled on values: the match list is built as a new sequence and sorted by insertion.
- protocols/sibyl_matrix.py and tests/mock_log.py are not part of this model: a thin wrapper over a foreign client and a logger mock.
