# Verified models of Synchronet's JavaScript modules

This project models the parts of Synchronet's `default_config/exec` scripts whose behaviour is hard to
see from any single function, and proves what they keep, lose or promise. `dafny verify dfyconfig.toml`
checks everything.

| module | models |
|---|---|
| `Document`, `Reflow`, `Cursor`, `Widths`, `Rewrapping`, `BreakWeights`, `BreakEnds`, `Breaks`, `BreakFlags`, `Editor`, `WrapRules`, `RewrapRules`, `ReflowLimits` | the full-screen editor's line wrapping in `fseditor.js`: the document as a sequence of `Line` objects that are spliced and overwritten in place, `wrap_line`, `unwrap_line`, `rewrap` and the cursor |
| `ColourCodes`, `ColourFile`, `ColourRules` | the Ctrl-A colour codes that `make_strings` writes and `make_lines` reads |
| `ServerTree`, `ChannelRelay`, `FanOut` | a channel message spreading over a network of IRC daemons (`ircd.js`) |
| `BanMask`, `BanMaskRules`, `IrcQueues`, `IrcQueueRules`, `UserModes`, `UserModeRules` | ban masks, send and receive queues, and user modes of one IRC daemon |
| `ImapParser`, `ImapParserRules`, `ImapSearch`, `ImapSequence`, `ImapSequenceRules`, `ImapSession`, `ImapSessionRules` | the command parser, search, sequence sets and session states of `imapservice.js` |
| `ScreenWrap`, `NickCompletion` | the IRC client's word wrap and nick completion (`irc.js`) |
| `ListExport`, `ListExportRules` | the export pointer of the mailing-list server (`listserver.js`) |
| `PartsDatabase`, `PartsRules` | collecting and combining multi-part binaries (`binarydecoder.js`) |
| `JavaScript`, `JavaScriptRules` | the pieces of the language that several modules use: `parseInt`, `toUpperCase` on ASCII letters, an optional value |

How the source is represented:

- Code that updates objects is a class whose methods carry out the updates. Each method is proved
  against a function on values (`Wrap`, `Unwrap`, `Export`, `Added`, `Worked`, ...), and the lemmas
  speak about that function, about runs of it, or about what it conserves. The modules whose names end
  in `Rules` say what these functions compute in terms of characters, rows, names and numbers alone.
- Regular expressions are written out as scanners. Editor text holds no line terminators and its
  attributes are bytes. A document has two streams: `Chars`, its characters with attributes, and
  `Stream`, the same with a `Break` for every hard return.
- What comes from the host (message bases, sockets, clocks, credentials, the signal to stop) is a
  parameter.

Where the code does less than its comments or tests promise, the code is modelled as it is, a lemma
gives an input that shows it, and the property is proved with the condition under which it holds:

- A hard return on the last line moves when that line overflows (`WrapMovesBreak`, exactly
  `CutsHardLast`), and an empty soft line above another makes `wrap_line` give up (`WrapGivesUp`,
  exactly `ReachesBlank`).
- `unwrap_line` on a line cut inside a word may run on past a hard return (`UnwrapJoinsParagraphs`,
  exactly `HarmsBreak`) or read a line that is gone (`UnwrapFails`, exactly `RunsOut`).
- `rewrap` shifts the cursor when it stands behind the characters moved up (`CursorSlips`, exactly as
  `UnwrapAboveExact` says) or its line is cut twice in front of it (`CursorTwoBehind`, exactly
  `CutTwice`), and leaves it on no line at all when it was on an empty last line that the line above
  absorbs (`CursorLeft`, exactly `RowGoes`).
- `rewrap` does not wrap a line after moving its first words up, however long the rest is
  (`RowLeftWide`, exactly `LeavesWide`).
- `sbbsdefs.js` defines `WHITE` as 15, so the colour writer never emits the code for light gray
  (`ColourLost`; exactly `LosesColour` for one line, exactly `FileMeets` for a whole text).
- `parse_quotedstring` does not undo the backslashes that `encode_string` writes (`BackslashDoubled`).
- `NOT` hands one argument to the predicate it negates, and `OR` compares a type with a function and
  therefore always makes a predicate of three arguments. A negated `OR` is evaluated with the index
  alone: it throws where it comes to an operand that needs more (`WideNotThrows`, exactly as
  `NotOrExact` says). `SENTSINCE` reads an undeclared name (imapservice.js:1725) and throws whenever it
  is evaluated, which is why a leaf may throw in the model.
- A server that hears of a new operator or administrator over a link that is not a hub leaves the
  letter out (`OperatorUnheard`, exactly as `ServersAgree` says).
- In UID mode `*` is the last number of the base, which need not be in the index (`StarIsLast`).
- The client's word wrap takes position 0 for a space it has seen, so a first word that fills the row is
  cut behind its first letter (`LongWordAlone`, exactly `FirstAlone`).
- An empty line put into a send queue is overtaken (`EmptyLineOvertaken`, over whole runs exactly as
  `OrderExact` says).
- A mailing-list run told to stop at its loop guard skips a message for good (`GuardLosesMessage`,
  exactly `Skips`).
- A part number that is no number counts as a part (`NaNCountsAsPart`, exactly as `AddExact` says). A
  failed combination breaks the count (exactly as `CombineExact` says) and makes an entry that can
  never be completed once the part is added again (`FailureIsFinal`).

## Model

| member | source | states |
|---|---|---|
| Document.RunEnd | default_config/exec/fseditor.js:340 | a whitespace run ends at the first character that is not a space |
| Document.TrimmedLen | default_config/exec/fseditor.js:347 | the length without trailing whitespace: nothing but spaces behind it, no space at its end |
| Document.LastGap | default_config/exec/fseditor.js:340 | the largest position up to the margin where a gap between two words starts, 0 when there is none |
| Document.WordEnd | default_config/exec/fseditor.js:249 | the longest piece of a word that fits the room |
| Document.LastStop | default_config/exec/fseditor.js:276 | the largest position up to the room at which whole words end |
| Reflow.CutAt | default_config/exec/fseditor.js:355-363 | a cut of a non-empty line leaves something on it, so every cut makes progress |
| Reflow.WrapKeepsChars | default_config/exec/fseditor.js:333-393 | wrapping keeps every character with its attribute, in order, for every document and width |
| Reflow.WrapKeepsStream | default_config/exec/fseditor.js:333-393 | wrapping also keeps every paragraph break at its place exactly when no overflowing hard last line is cut |
| Reflow.BreaksProtected | default_config/exec/fseditor.js:365-375 | a hard line that is not last, or a soft last line, protects all breaks below the starting line |
| Reflow.WrapOkExact | default_config/exec/fseditor.js:348-390 | the "impossible" exit is taken exactly when the cascade of cuts reaches an empty soft line with another below it |
| Reflow.WrapSucceeds | default_config/exec/fseditor.js:385-390 | a document in which only the last line may be empty and soft is wrapped without that exit and stays one |
| Reflow.CutWidth | default_config/exec/fseditor.js:355-379 | what stays on a cut line is narrower than the screen without its trailing spaces |
| Reflow.WrapWidths | default_config/exec/fseditor.js:343-391 | every line visited ends narrower than the screen |
| Reflow.WrapLeavesRest | default_config/exec/fseditor.js:343-391 | lines behind the last one visited are the old ones, unchanged |
| Reflow.WrapNonEmpty | default_config/exec/fseditor.js:343-391 | wrapping visits at least one line, never loses one, and adds lines only among those visited |
| Reflow.WrapCutsCleanly | default_config/exec/fseditor.js:340-391 | between two visited lines the cut follows a gap and precedes a word, or the upper line is marked as cut inside a word; the first character stays first |
| Reflow.WrapSettles | default_config/exec/fseditor.js:333-393 | wrapping what has been wrapped changes nothing |
| Reflow.UnwrapMoved | default_config/exec/fseditor.js:224-327 | the returned number is how many characters the first line gained, -1 for none |
| Reflow.UnwrapNothing | default_config/exec/fseditor.js:296-312 | a result of -1 in front of a non-empty line leaves that line and the number of lines alone |
| Reflow.UnwrapKeepsChars | default_config/exec/fseditor.js:224-327 | unwrapping keeps every character with its attribute, in order |
| Reflow.UnwrapKeepsStream | default_config/exec/fseditor.js:224-327 | unwrapping keeps every paragraph break exactly when the join of a cut word does not pull a hard return into a line that is filled further |
| Reflow.UnwrapOkExact | default_config/exec/fseditor.js:248-300 | a line that is gone is read exactly when a cut word is completed with the whole text of the last line |
| Reflow.UnwrapSafe | default_config/exec/fseditor.js:242-312 | lines not cut inside words are unwrapped without reading a missing line and without harm to a break |
| Reflow.UnwrapWidths | default_config/exec/fseditor.js:244-293 | every line that is extended ends narrower than the screen |
| WrapRules.WrapCutsWhen | default_config/exec/fseditor.js:346-354 | a line is cut exactly if something other than whitespace stands at the margin or behind it, or it is soft, above another and does not end in whitespace; otherwise the document and the result -1 are left as they are |
| WrapRules.WrapRound | default_config/exec/fseditor.js:355-384 | the cut is the last one between words that leaves the line inside the margin, or at the margin if there is none; the rest goes to the front of the next line, or to a line of its own behind a hard return or at the end; the result is the length moved |
| WrapRules.UnwrapStays | default_config/exec/fseditor.js:235-246 | a last line, a hard one and one without room are left alone |
| WrapRules.UnwrapRound | default_config/exec/fseditor.js:246-317 | a cut word is completed with as many of its characters as there is room for and the whitespace behind them, and the line is then filled with all whole words that fit; an emptied line goes and leaves its hard return |
| WrapRules.UnwrapTakes | default_config/exec/fseditor.js:271-312 | without a cut word nothing moves exactly if no whole word fits, and otherwise all that fit do, with the whitespace behind them |
| Cursor.RoundCuts | default_config/exec/fseditor.js:355-384 | one cut and the same loop from the next line give the same document as wrapping from here |
| Cursor.CutOpened | default_config/exec/fseditor.js:365-379 | pushing or splicing in a line, moving the tail down and overwriting the two lines is the cut of the specification |
| Cursor.WrapBranch | default_config/exec/fseditor.js:457-467 | after a wrap the corrected cursor stands on the same character of the document |
| Cursor.UnwrapPrevCursor | default_config/exec/fseditor.js:425-441 | after unwrapping the line above, the corrected cursor stands on the same character; without the correction it slips by exactly the number of characters moved |
| Cursor.UnwrapIdle | default_config/exec/fseditor.js:425-446 | when nothing moves up, a safe cursor whose row number still exists stands inside a row it may be wrapped from |
| Cursor.UnwrapPlain | default_config/exec/fseditor.js:224-327 | on a plain document (no cut words, the last line soft) unwrapping succeeds, keeps the breaks and leaves it plain |
| Cursor.WrapPlain | default_config/exec/fseditor.js:333-393 | on a plain document wrapping keeps the breaks |
| Editor.Line.constructor | default_config/exec/fseditor.js:42-58 | a new line is empty, soft and not cut |
| Editor.Editor.InsertBlank | default_config/exec/fseditor.js:124-135 | inserting a line leaves all others the same objects with the same contents |
| Editor.Editor.Remove | default_config/exec/fseditor.js:262 | removing a line leaves the others as they are |
| Editor.Editor.CutLine | default_config/exec/fseditor.js:355-383 | one cut in place, with text and attributes kept equally long, is the cut of the specification |
| Editor.Editor.WrapRound | default_config/exec/fseditor.js:344-390 | a round ends the loop with the specified document or continues it with strictly fewer characters ahead, which is why it ends |
| Editor.Editor.WrapLine | default_config/exec/fseditor.js:333-393 | the loop over the mutable lines ends with the specified document and return value, and fails where the specification does |
| Editor.Editor.AbsorbNext | default_config/exec/fseditor.js:290-293 | an emptied line is removed and its hard return kept |
| Editor.Editor.UnkludgeLine | default_config/exec/fseditor.js:247-270 | joining a cut word in place changes the document as specified |
| Editor.Editor.RefillLine | default_config/exec/fseditor.js:271-312 | taking whole words from the next line in place changes the document as specified |
| Editor.Editor.UnwrapRound | default_config/exec/fseditor.js:235-317 | a round ends the loop with the specified document or continues it on the next line |
| Editor.Editor.UnwrapLine | default_config/exec/fseditor.js:224-327 | the loop over the mutable lines ends with the specified document and return value, and reads a missing line exactly where the specification says |
| Editor.Editor.NextLine | default_config/exec/fseditor.js:140-151 | the cursor goes to an existing or a new empty line, within its text |
| Editor.Editor.TryPrevLine | default_config/exec/fseditor.js:157-172 | the cursor goes up if there is a line, within its text |
| Rewrapping.RewrapKeepsText | default_config/exec/fseditor.js:410-471 | whatever branches run, all characters and attributes are conserved; on a document without cut words and with a soft last line, all breaks are kept and no unwrap fails |
| BreakWeights.UnwrapWeight | default_config/exec/fseditor.js:224-327 | an unwrap never moves a break earlier in the text, and moves or drops one exactly when it fills a line behind a break |
| BreakEnds.CutEndsInInk | default_config/exec/fseditor.js:365-375 | a wrap that cuts the hard last line leaves a text that no longer ends in a break |
| Breaks.RewrapKeepsStream | default_config/exec/fseditor.js:410-471 | on every document, cut words included, with every cursor and all flags, `rewrap` keeps every paragraph break at its place exactly when no unwrap that it makes fills a line behind a break and no wrap that it makes cuts a hard last line |
| Breaks.UnkludgedMovesBreak | default_config/exec/fseditor.js:410-471 | without lines cut inside words, only the wrap of a hard last line can move a break |
| BreakFlags.RewrapKeepsBreaks | default_config/exec/fseditor.js:410-471 | without such lines all breaks are kept if the last line is soft, or a hard line that is not the last stands below the cursor's, or is the cursor's while the line above is not unwrapped |
| Rewrapping.RewrapOutcome | default_config/exec/fseditor.js:410-471 | `rewrap` fails exactly where an unwrap it makes completes a word with the whole last line, exits exactly where the wrap it makes reaches an empty soft line, and returns otherwise |
| Rewrapping.RewrapReturns | default_config/exec/fseditor.js:410-471 | without lines cut inside words, and with no empty soft line above the last, `rewrap` returns |
| Rewrapping.RewrapKeepsCursor | default_config/exec/fseditor.js:425-469 | whenever `rewrap` returns, as it does on such a document, a safe cursor without a remembered column ends in front of the same character, and on a line of the document exactly unless its line was an empty last one that is absorbed |
| Rewrapping.UnwrapAboveExact | default_config/exec/fseditor.js:429-441 | the unwrap-previous branch keeps the cursor's place exactly when `xpos` is at most the number of characters moved, or none moved |
| Rewrapping.WrapAtExact | default_config/exec/fseditor.js:457-467 | the wrap branch keeps the cursor's place exactly when its line is not cut twice in front of the cursor |
| Rewrapping.RewrapFits | default_config/exec/fseditor.js:457-470 | when wrapping is allowed and `rewrap` returns, as it does on such a document, without a change, the cursor's row fits the screen and wrapping again changes nothing |
| Rewrapping.RewrapNarrow | default_config/exec/fseditor.js:410-471 | when only the edited line may be too wide and wrapping is allowed, `rewrap` leaves all lines left of the margin exactly unless it moves words of that line up and the rest still is too wide; never if the line has at most as many characters as the screen is wide |
| RewrapRules.RewrapAbove | default_config/exec/fseditor.js:425-446 | after unwrapping the line above, the cursor goes along and `rewrap` ends with true if it was among the characters moved; if its line is gone it ends with false; otherwise it goes on from there |
| RewrapRules.RewrapHere | default_config/exec/fseditor.js:447-470 | the cursor's line is unwrapped, and wrapped if nothing moved; the cursor follows what is wrapped away, and the answer is true exactly if the unwrap moved characters or the wrap moved the cursor |
| RewrapRules.RedrawnChanges | default_config/exec/fseditor.js:410-471 | an answer of true means that the document or the cursor has changed |
| RewrapRules.NotRedrawnStays | default_config/exec/fseditor.js:410-471 | an answer of false leaves the cursor where it was, and if that is on a line, no unwrap moved a character |
| Widths.UnwrapNarrow | default_config/exec/fseditor.js:235-317 | unwrapping keeps narrow lines narrow and does not touch a first line that is too wide |
| Widths.UnwrapSecond | default_config/exec/fseditor.js:224-327 | unwrapping in front of one line of any width makes all lines narrow, if characters move, exactly unless its remainder is too wide |
| Widths.WrapNarrow | default_config/exec/fseditor.js:343-391 | wrapping from a line of any width in front of narrow ones makes all lines narrow |
| Editor.Editor.UnwrapPrev | default_config/exec/fseditor.js:425-446 | the branch in place leaves the specified document and cursor |
| Editor.Editor.UnwrapHere | default_config/exec/fseditor.js:448-456 | the branch in place leaves the specified document and cursor |
| Editor.Editor.WrapHere | default_config/exec/fseditor.js:457-469 | the branch in place leaves the specified document and cursor |
| Editor.Editor.Rewrap | default_config/exec/fseditor.js:410-471 | the three branches on the mutable document leave the specified document, cursor, outcome and result |
| ReflowLimits.WrapMovesBreak | default_config/exec/fseditor.js:365-375 | a hard last line that overflows loses its break |
| ReflowLimits.WrapGivesUp | default_config/exec/fseditor.js:385-390 | an empty soft line above another reaches the "impossible" exit |
| ReflowLimits.UnwrapFails | default_config/exec/fseditor.js:248-277 | joining the last cut word reads a line that has just been removed, though no break is harmed |
| ReflowLimits.UnwrapJoinsParagraphs | default_config/exec/fseditor.js:259-293 | joining a cut word makes two paragraphs one |
| ReflowLimits.CursorSlips | default_config/exec/fseditor.js:435-439 | with `xpos` beyond the characters moved, the cursor ends on another character |
| ReflowLimits.CursorTwoBehind | default_config/exec/fseditor.js:461-463 | a cursor at the end of a word of more than two lines ends on another character |
| ReflowLimits.CursorLeft | default_config/exec/fseditor.js:300-304 | a cursor on an empty last line ends on no line |
| ReflowLimits.RowLeftWide | default_config/exec/fseditor.js:458 | a long word behind one that fits the line above is left too wide |
| ColourCodes.AfterIsRebuilt | default_config/exec/fseditor.js:806-873 | executing the codes written for a change of attribute computes the attribute bit field by bit field |
| ColourCodes.CodesMeet | default_config/exec/fseditor.js:972-1039 | the codes for a change of attribute bring a reader at any attribute to the new one exactly when each field is written with a code that exists or is right already |
| ColourCodes.InStep | default_config/exec/fseditor.js:972-1039 | a reader in step with the writer is in step after the change, exactly unless the change needs a light gray code |
| ColourRules.WriterTable | default_config/exec/fseditor.js:983-1036 | the letter or digit written for each colour |
| ColourRules.CodesWritten | default_config/exec/fseditor.js:972-1039 | normal comes first if blink or intensity ends, and then exactly the codes for what changes |
| ColourRules.ReaderForeground | default_config/exec/fseditor.js:809-832 | each letter sets the foreground and nothing else |
| ColourRules.ReaderSwitches | default_config/exec/fseditor.js:857-865 | `H`, `I` and `N` add intensity, add blink and go back to normal |
| ColourFile.WriteLine | default_config/exec/fseditor.js:971-1041 | the loop over one line writes each character behind the codes that lead to its attribute |
| ColourFile.MakeStrings | default_config/exec/fseditor.js:958-1064 | the loop over all lines writes the paragraphs, each trimmed of trailing blanks and ended by its line end |
| ColourFile.MakeLine | default_config/exec/fseditor.js:796-878 | reading one line in place consumes text up to its line end |
| ColourFile.MakeLines | default_config/exec/fseditor.js:785-878 | reading the whole text gives one line for each line end, and always ends |
| ColourRules.TabReads | default_config/exec/fseditor.js:909-917 | a tab reads as spaces up to the next multiple of eight |
| ColourRules.CharReads | default_config/exec/fseditor.js:803-942 | what each other character does to the line being read |
| ColourRules.CodeReads | default_config/exec/fseditor.js:806-873 | a code changes the attribute and is not read as text; Ctrl-A twice is a Ctrl-A |
| ColourRules.HardParas | default_config/exec/fseditor.js:1046-1061 | what is written spells the text of all lines, with a line end exactly behind each hard line |
| ColourFile.EncodeReads | default_config/exec/fseditor.js:802-873 | written cells are read back with their characters and with the attributes the codes lead to |
| ColourFile.ReplayExact | default_config/exec/fseditor.js:972-1039 | all attributes survive exactly when no change of attribute is lossy |
| ColourFile.TrimEncode | default_config/exec/fseditor.js:1047-1055 | trimming the written text drops trailing blanks up to the last colour code, and only those |
| ColourFile.ParaRereads | default_config/exec/fseditor.js:793-878 | any paragraph of printable text is read back as the replay of its surviving cells, wherever the reader starts |
| ColourFile.ParaReads | default_config/exec/fseditor.js:793-878 | a paragraph written and read back is its surviving cells, with the reader in step for the next |
| ColourFile.RoundTrip | default_config/exec/fseditor.js:785-873 | any number of clean paragraphs, written and read back, are the saved paragraphs |
| ColourFile.LineExact | default_config/exec/fseditor.js:958-1042 | a line of plain text comes back as it was exactly when no change of colour is lossy |
| ColourFile.FileExact | default_config/exec/fseditor.js:785-1064 | in a whole text of printable characters that fit the screen, every surviving character has its colour back exactly when the reader meets every attribute the writer passes |
| ColourFile.SaveAndLoad | default_config/exec/fseditor.js:785-1064 | writer and reader run one after the other: the lines read are the replay of those written, and restore all colours under that exact condition |
| ColourFile.ColourLost | default_config/exec/load/sbbsdefs.js:195 | light gray behind red is read back as red |
| ServerTree.Net.LooksBack | default_config/exec/load/ircd_server.js:684-685 | the neighbour a message comes from is the receiver's own next hop towards its origin |
| ServerTree.Net.NoBounce | default_config/exec/ircd.js:1348 | a server reached on the way to the origin does not look back |
| ServerTree.Net.HopCloser | default_config/exec/ircd.js:1348-1350 | every hop comes nearer to its goal |
| ChannelRelay.BcastToChannel | default_config/exec/ircd.js:1334-1341 | each local member gets one copy, the sender none |
| ChannelRelay.BcastToChannelServers | default_config/exec/ircd.js:1343-1353 | each link with a remote member behind it gets one copy, the link to the sender none |
| ChannelRelay.DoMsg | default_config/exec/ircd.js:1503-1538 | outsiders of a `+n` channel are turned down, and of the others those neither voiced nor opped in a moderated channel and, named after that, those banned; a refused message goes nowhere; any other goes once to each local member and once into each link that leads to a member and away from the sender |
| FanOut.SentAway | default_config/exec/ircd.js:1347-1350 | what is sent into a link leads away from the sender's server |
| FanOut.InitInv | default_config/exec/ircd.js:1535-1538 | the invariant holds once the sender's server has handled the message |
| FanOut.StepInv | default_config/exec/load/ircd_server.js:681-695 | it is kept when any server handles any arriving copy, and that server had not handled one before |
| FanOut.AtMostOnce | default_config/exec/ircd.js:1334-1353 | in every state of every run no member has the message twice, no link carries it twice or both ways, and only towards a member |
| FanOut.RunsEnd | default_config/exec/ircd.js:1343-1353 | a run has fewer steps than there are servers |
| FanOut.StillComing | default_config/exec/ircd.js:1343-1353 | while a member's server has not handled the message, a copy is on its way |
| FanOut.ExactlyOnce | default_config/exec/ircd.js:1334-1353 | when nothing is on its way any more, every member but the sender has the message exactly once, in whatever order the copies were handled |
| FanOut.CanGoOn | default_config/exec/load/ircd_server.js:681-695 | a copy on its way can always be handled |
| BanMask.CollapseNoPair | default_config/exec/ircd.js:569-571 | the collapsing loop ends without `**` and never empties a mask |
| BanMask.CollapseMatches | default_config/exec/ircd.js:569-571 | collapsing `**` leaves the set of matching strings unchanged, for every comparison of characters |
| BanMask.CreateBanMask | default_config/exec/ircd.js:517-573 | the character loop and the collapsing loop compute the specified mask |
| BanMask.MaskNormal | default_config/exec/ircd.js:517-573 | a mask is `n!u@h`, or `u@h` for K-lines, of non-empty clean parts within 30, 10 and 80 characters without `**`, and matches what the uncollapsed one matches |
| BanMask.FullMask | default_config/exec/ircd.js:526-571 | a complete mask keeps its parts, cut and collapsed |
| BanMask.BareMask | default_config/exec/ircd.js:551-563 | a bare word is a host if it holds a dot and a nick otherwise |
| BanMask.Idempotent | default_config/exec/ircd.js:517-573 | a mask given again is returned unchanged |
| BanMask.NoiseIgnored | default_config/exec/ircd.js:526-548 | characters that are neither mask characters nor separators make no difference |
| BanMaskRules.MaskIs | default_config/exec/ircd.js:517-573 | for every text: split at the separators it is `n!u@h`, `u@h` with any nick, or a lone word, other characters dropped, missing parts starred, the parts cut, and stars collapsed |
| BanMaskRules.MaskCharMeans | default_config/exec/ircd.js:524 | the characters a mask may hold |
| BanMaskRules.UserAtHost | default_config/exec/ircd.js:538-544 | `user@host` stands for any nick |
| IrcQueues.Queue.Add | default_config/exec/ircd.js:982-985 | appends and counts |
| IrcQueues.Queue.Del | default_config/exec/ircd.js:987-992 | takes the oldest line and counts it off |
| IrcQueues.Client.RawOut | default_config/exec/ircd.js:908-932 | a line is sent only if none is waiting and the socket takes it, and queued otherwise |
| IrcQueues.Client.OriginatorOut | default_config/exec/ircd.js:934-959 | the same, under the name of the origin |
| IrcQueues.Client.IrcOut | default_config/exec/ircd.js:961-980 | the same, under the name of this server |
| IrcQueues.Client.Work | default_config/exec/load/ircd_user.js:255-275 | a user's command is executed or, as the fifth in a burst, put off |
| IrcQueues.Client.Receive | default_config/exec/ircd.js:266-274 | a command is put behind those waiting or worked on at once |
| IrcQueues.Client.CheckQueues | default_config/exec/ircd.js:2869-2881 | at most one waiting line is sent and at most one waiting command worked on |
| IrcQueues.SendExact | default_config/exec/ircd.js:930-931 | a line is delivered in order exactly unless only empty lines are waiting and the socket takes it |
| IrcQueues.PollExact | default_config/exec/ircd.js:2870-2874 | a poll loses nothing exactly unless a socket reported ready does not take the line |
| IrcQueues.NoOvertaking | default_config/exec/ircd.js:908-992 | over any run of non-empty lines and polls, lines accepted followed by the queue are the lines produced, and `bytes` is the sum of the queue |
| IrcQueues.OrderExact | default_config/exec/ircd.js:908-992 | over any run, lines accepted followed by the queue are the lines produced exactly when no line overtakes empty ones and no ready socket refuses a line: nothing heals later |
| IrcQueues.Drains | default_config/exec/ircd.js:2869-2874 | as many good polls as lines waiting deliver everything |
| IrcQueues.EmptyLineOvertaken | default_config/exec/ircd.js:930-931 | an empty line that is queued is overtaken by the next one |
| IrcQueues.CommandsInOrder | default_config/exec/ircd.js:266-274 | over any run of commands and clock ticks, commands executed followed by the queue are the commands received, although working on a command may queue it |
| IrcQueueRules.UnhurriedRuns | default_config/exec/load/ircd_user.js:263-275 | commands more than two seconds apart are all executed at once |
| IrcQueues.BurstIsHeld | default_config/exec/load/ircd_user.js:261-275 | of commands no more than two seconds apart at most four are executed |
| IrcQueueRules.BurstExact | default_config/exec/load/ircd_user.js:263-275 | of a burst exactly the first four commands are executed, fewer if others went before, and the rest waits |
| IrcQueueRules.TickMeans | default_config/exec/ircd.js:2875-2880 | a waiting command is worked on exactly when two seconds have passed |
| UserModes.User.ReadModes | default_config/exec/ircd.js:2757-2815 | the loop over the string collects the requested flags and notices an unknown letter |
| UserModes.User.SetUserMode | default_config/exec/ircd.js:2757-2854 | new modes and announcements are those specified |
| UserModes.ReadDisjoint | default_config/exec/ircd.js:2741-2749 | flags to set and flags to clear stay disjoint |
| UserModes.LastSignWins | default_config/exec/ircd.js:2757-2834 | every letter ends as its last heard request says, and as it was without one |
| UserModeRules.HeardTable | default_config/exec/ircd.js:2777-2816 | who may set and clear which letter |
| UserModeRules.LetterTable | default_config/exec/load/ircd_user.js:44-67 | the order in which letters are announced and those that are told to other servers |
| UserModeRules.AnnouncementForm | default_config/exec/ircd.js:2825-2853 | letters set stand behind a plus, letters cleared behind a minus, and exactly those that change are named |
| UserModes.AnnouncementRepeats | default_config/exec/ircd.js:2814-2854 | the announced `+X-Y` names exactly the letters that changed, is empty exactly without a change, and asked for from the old modes makes the same change with the same announcements |
| UserModes.ServersAgree | default_config/exec/ircd.js:2791-2853 | servers that agreed on the broadcast letters agree again, once one has applied what the other broadcasts, exactly if it hears every letter of the change |
| UserModes.HubsHear | default_config/exec/ircd.js:2791-2808 | a server behind a hub hears every letter |
| UserModes.OperatorUnheard | default_config/exec/ircd.js:2791-2798 | a server behind a link that is not a hub leaves a new operator out |
| ImapParser.Parser.ParseAtom | default_config/exec/imapservice.js:664-681 | takes the word from the shared buffer and the space behind it |
| ImapParser.Parser.ParseQuotedString | default_config/exec/imapservice.js:695-711 | takes the text up to the next quote |
| ImapParser.Parser.ParseLine | default_config/exec/imapservice.js:656-737 | the recursive parser over the shared buffer ends and gives the specified tree and rest |
| ImapParser.TokenParse | default_config/exec/imapservice.js:60-69 | a printed token without quotes or backslashes is read back as it was |
| ImapParser.TokenWrong | default_config/exec/imapservice.js:47-58 | any other token is not |
| ImapParser.TreeParse | default_config/exec/imapservice.js:713-736 | a printed tree is read back in front of anything that may follow it |
| ImapParser.RoundTrip | default_config/exec/imapservice.js:42-69 | parsing what is printed returns the same arguments and consumes the whole line exactly when all leaves are free of quotes, backslashes and literals |
| ImapParser.BackslashDoubled | default_config/exec/imapservice.js:53 | a backslash comes back twice |
| ImapParserRules.TokenWritten | default_config/exec/imapservice.js:48-69 | a token is printed bare, in quotes or behind its length, in that order of choice |
| ImapParserRules.LengthReads | default_config/exec/imapservice.js:42-46 | the length printed in front of a token reads back |
| ImapParserRules.QuotesRead | default_config/exec/imapservice.js:696-711 | whatever stands between quotes, or behind one that is not closed, is one argument |
| ImapParserRules.WordRead | default_config/exec/imapservice.js:665-683 | any other argument goes up to a space or a closing parenthesis |
| ImapParserRules.MarksRead | default_config/exec/imapservice.js:713-736 | what spaces, parentheses, the start of a literal and the end of the line do |
| ImapSearch.ReadWritten | default_config/exec/imapservice.js:1623-1803 | a well-formed prefix key, however nested, is read as itself and nothing behind it is consumed |
| ImapSearch.CompileCorrect | default_config/exec/imapservice.js:1757-1797 | a compiled key applied to the arguments of its bucket gives the truth of the key, or throws, exactly as specified |
| ImapSearch.NarrowNotSafe | default_config/exec/imapservice.js:1757-1797 | keys that negate only single-part or index-only keys throw exactly where a leaf does |
| ImapSearch.NotOrExact | default_config/exec/imapservice.js:1757-1797 | a negated `OR` throws exactly when its first operand, given the index alone, does, or is false and the second does |
| ImapSearch.WideNotThrows | default_config/exec/imapservice.js:1760 | `NOT (OR SEEN TO x)` throws on every message that has not been seen |
| ImapSearch.KeyTable | default_config/exec/imapservice.js:1628-1803 | which part of a message each key looks at, and how many arguments it takes |
| ImapSearch.AnyCase | default_config/exec/imapservice.js:1628 | keys may be written in small letters |
| ImapSearch.ArgList.GetFunc | default_config/exec/imapservice.js:1623-1803 | the recursive compiler takes one key from the arguments and gives its bucket and predicate |
| ImapSearch.CompileAll | default_config/exec/imapservice.js:1809-1812 | every key lands in the bucket of its part |
| ImapSearch.Examine | default_config/exec/imapservice.js:1814-1861 | stage by stage filtering accepts a message exactly when it satisfies all keys and can be read as far as they need, and throws exactly when a stage that is reached does |
| ImapSearch.SoundAnswers | default_config/exec/imapservice.js:1814-1861 | a message whose body can be read, and keys that neither negate wide keys nor have a throwing leaf, are answered |
| ImapSearch.DoSearch | default_config/exec/imapservice.js:1614-1864 | the messages that satisfy all keys, and whose header can be read if a key asks for it, are at ascending places, and the result lists exactly these, by number for a UID search and by position otherwise; the search throws exactly when a key is incomplete or cannot be built or examining one of the messages throws |
| ImapSequence.ReadIndex | default_config/exec/imapservice.js:1192-1231 | numbers and positions of the visible messages are inverse to each other and ascending |
| ImapSequence.ParseChunk | default_config/exec/imapservice.js:577-600 | a range gives exactly the indexed messages it covers, in either order of its bounds |
| ImapSequence.Dedupe | default_config/exec/imapservice.js:602-607 | splicing out equal neighbours leaves an ascending list of the same numbers |
| ImapSequence.ParseSeqSet | default_config/exec/imapservice.js:563-609 | the result is strictly ascending and holds exactly the indexed messages that some range covers |
| ImapSequence.ModesAgree | default_config/exec/imapservice.js:573-598 | sequence-number mode gives the numbers of exactly the positions the set covers, in the same order |
| ImapSequence.StarIsLast | default_config/exec/imapservice.js:573-586 | in UID mode `*` is the last indexed message exactly when the last number of the base is indexed, and nothing otherwise |
| ImapSequenceRules.ListCovers | default_config/exec/imapservice.js:564-577 | a list covers what its ranges cover |
| ImapSequenceRules.OneCovers | default_config/exec/imapservice.js:577-590 | a single bound covers its number, `*` the highest |
| ImapSequenceRules.RangeCovers | default_config/exec/imapservice.js:577-590 | two bounds cover what lies between them, whichever comes first |
| ImapSequenceRules.VisibleMeans | default_config/exec/imapservice.js:1209-1228 | the index holds the records that are there, and in the mail base those addressed to the user |
| ImapSession.Session.Handle | default_config/exec/imapservice.js:1336-1364 | the effect of each handler (login, select, close, logout and idle) on state, mailbox and session; every other leaves them alone |
| ImapSession.Session.Execute | default_config/exec/imapservice.js:611-654 | a line is executed by the first table of the state that serves it and turned down exactly if none does |
| ImapSessionRules.CommandTable | default_config/exec/imapservice.js:744-2009 | the commands each table serves, with their numbers of arguments |
| ImapSessionRules.TablesOf | default_config/exec/imapservice.js:611-654 | the order in which tables are looked at in each state |
| ImapSessionRules.Leads | default_config/exec/imapservice.js:744-2009 | where the commands lead that change a session, all others leaving it alone |
| ImapSession.RunSafe | default_config/exec/imapservice.js:611-654 | on every run a mailbox is open exactly in the selected state, mailbox commands follow a login, message commands have a mailbox, and a login is never undone |
| ImapSession.NoEntryWithoutLogin | default_config/exec/imapservice.js:799-847 | without a granted login no run executes anything but the commands served before it |
| ScreenWrap.CodeStep | default_config/exec/irc.js:1211-1214 | a colour code is skipped as a whole and takes no place |
| ScreenWrap.CutStep | default_config/exec/irc.js:1218-1234 | the piece cut off when the row is full fits a line, and the position goes back to its end |
| ScreenWrap.Screen.PrintLine | default_config/exec/irc.js:1207-1242 | the loop that rewinds its index ends; a text is cut exactly when it has more than 78 characters and fills a row; the pieces are consecutive and join to the text; each line printed or kept is its piece and shows at most 79 characters, printed behind the colours kept with the line before, and kept behind the codes met up to where that line's row was full, codes met again after going back counting again; every piece but the last ends in a space or is full, or is the first and a lone character, which it is exactly when the first row is full before a space shows behind that character; the row was full before another space came; the screen is scrolled by the lines kept |
| ScreenWrap.LongWordAlone | default_config/exec/irc.js:1218-1231 | in a text of at least 78 characters without a space or a colour code the first row is full before a space shows, so that it is cut behind its first letter if it has more |
| NickCompletion.LongestMore | default_config/exec/irc.js:902-905 | cutting down to what one more nick shares gives the longest common prefix |
| NickCompletion.LongestUnique | default_config/exec/irc.js:902-905 | the longest common prefix is one string up to case |
| NickCompletion.MatchingNext | default_config/exec/irc.js:889-890 | a nick matches if it extends the typed text in upper or lower case |
| NickCompletion.Channel.MatchNick | default_config/exec/irc.js:875-918 | the result is the longest common prefix of all nicks extending the typed text, taken from the last of them; there is none exactly when nothing is typed, none matches, or several match and share no more than what is typed |
| ListExport.Exporter.Run | default_config/exec/listserver.js:225-348 | the loop over the pointer sends and saves what is specified |
| ListExport.Collect | default_config/exec/listserver.js:301-319 | the recipients are the active subscribers in order |
| ListExport.MailTo | default_config/exec/listserver.js:301-336 | every mail sent goes to all active subscribers |
| ListExportRules.RecipientsMean | default_config/exec/listserver.js:304-319 | a subscriber gets mail unless disabled or without an address, under the name or else the address |
| ListExportRules.LoopStep | default_config/exec/listserver.js:263-340 | what the loop does with each message: skip it, stop in front of it or send it to all |
| ListExportRules.RunMeans | default_config/exec/listserver.js:233-348 | where a run starts from and what it saves |
| ListExport.GuardExact | default_config/exec/listserver.js:263-340 | whether and where the loop guard ends a run, told from the base, the subscribers and the signal |
| ListExport.RunExact | default_config/exec/listserver.js:256-340 | a run sends each due message between its old and its new pointer once and in order, exactly unless the loop guard ends it on a due message |
| ListExport.HoldsExact | default_config/exec/listserver.js:281-286 | a run passes no unvalidated moderated message, exactly unless the loop guard ends it on one |
| ListExport.RunReaches | default_config/exec/listserver.js:263-345 | a run not told to stop ends at the last message or in front of an unvalidated one |
| ListExport.FirstRun | default_config/exec/listserver.js:256-257 | a first run sends nothing and starts at the newest message |
| ListExport.LedgerExact | default_config/exec/listserver.js:233-348 | over any runs and changes of the base, the messages sent are those due when the pointer passed, and none was held, exactly when no run skipped a message; later runs never make up for it |
| ListExport.ExactlyOnce | default_config/exec/listserver.js:233-348 | what is sent is ascending, a number is sent exactly if its message was due when passed, and no unvalidated message is passed |
| ListExport.SteadyIsSent | default_config/exec/listserver.js:233-348 | a message that is due whenever it is there has been sent exactly when the pointer has passed it |
| ListExport.GuardLosesMessage | default_config/exec/listserver.js:263 | a run stopped at the loop guard loses the message there |
| PartsDatabase.Database.AddPart | default_config/exec/binarydecoder.js:446-562 | the list changes as specified and the call is turned down exactly where the numbers do not fit |
| PartsDatabase.Database.PartExists | default_config/exec/binarydecoder.js:564-577 | finds exactly the parts stored |
| PartsDatabase.Database.CombineParts | default_config/exec/binarydecoder.js:582-679 | the loop that splices its list keeps every entry in order or turns it into a file, each once |
| PartsDatabase.ResolvedRange | default_config/exec/binarydecoder.js:451-478 | a part number accepted is between 1 and the total |
| PartsRules.NumbersMean | default_config/exec/binarydecoder.js:451-478 | numbers of at least one count as given; otherwise the subject is looked at |
| PartsRules.SubjectMeans | default_config/exec/binarydecoder.js:452-472 | the subject's numbers stand behind its last opening parenthesis, or bracket if it has none |
| PartsRules.MatchMeans | default_config/exec/binarydecoder.js:481-488 | an entry takes parts of the same name, codec and total, and of the same size and checksum if known |
| PartsRules.AddStores | default_config/exec/binarydecoder.js:481-562 | a new part goes to the first entry that takes it, or to a new one at the end, and nothing else changes |
| PartsDatabase.CountMeans | default_config/exec/binarydecoder.js:586 | `parts` never exceeds `total` and equals it exactly when every part 1..total is there |
| PartsDatabase.AddExact | default_config/exec/binarydecoder.js:446-562 | a call keeps the accounting right exactly when it is turned down, repeats a part, or brings numbers and a message id |
| PartsDatabase.RunAccounted | default_config/exec/binarydecoder.js:446-562 | over any run of calls every count is right exactly when each call was proper or repeated a part |
| PartsDatabase.RunGrows | default_config/exec/binarydecoder.js:481-562 | no call loses or replaces a stored part or an entry |
| PartsDatabase.TakenIsFound | default_config/exec/binarydecoder.js:564-577 | a part taken with its size is found after any further calls |
| PartsDatabase.FileIsWhole | default_config/exec/binarydecoder.js:582-679 | every file written is all parts of one entry in order, and an accounted entry had them all |
| PartsRules.LinesMean | default_config/exec/binarydecoder.js:623-630 | the lines of a part are those from its first to its last, as far as the message has them |
| PartsRules.FilesAre | default_config/exec/binarydecoder.js:585-679 | exactly the entries that have reached their total, can be read and pass the check become files, in order |
| PartsRules.KeptAre | default_config/exec/binarydecoder.js:585-679 | the others stay, in order, and a complete one that cannot be read loses the id of its first part that cannot |
| PartsDatabase.NaNCountsAsPart | default_config/exec/binarydecoder.js:451-478 | a subject with a part that is no number makes a file look complete without its second part |
| PartsDatabase.CombineExact | default_config/exec/binarydecoder.js:582-679 | combining leaves every count right exactly when all parts of every complete entry can be read |
| PartsDatabase.FailureIsFinal | default_config/exec/binarydecoder.js:645-650 | a failed combination breaks the count, and once the part is added again no calls complete the entry |

## Left out

- Editor: redrawing, scrolling, selections and quoting; `add_char` and the key loop, whose edits are followed by `rewrap`.
- Rewrapping.RewrapKeepsCursor: says nothing about a remembered column, as moving up or down then jumps to it.
- Rewrapping.RewrapNarrow: says nothing when the caller forbids wrapping.
- ColourFile.MakeLines: models hard newlines (`nl_is_hardcr`); the guess between hard and soft newlines, a separate attribute string, and the wrap of over-wide text are not modelled, and text that would need that wrap makes the model stop.
- ColourFile.MakeStrings: works on the values of the lines and with colours embedded; the separate attribute string is not modelled.
- ColourFile.FileExact: control characters in the text and text right of the margin are not covered.
- FanOut.ExactlyOnce: assumes that all servers have the same view of the channel, links do not fail while the message travels, and names are compared in one case; `@#chan` and `+#chan`, operator masks, netsplits and quits are not modelled.
- IrcQueues.NoOvertaking: a send takes a whole line or nothing of it; remote clients share the queue of their server and are not modelled.
- IrcQueues.Client.Work: what executing a command does is not modelled, so a command that disconnects the user is not either.
- UserModes.User.SetUserMode: gives the announcements as values; whether they are sent (local users only) and the delivery are not modelled.
- ImapParser.Parser.ParseLine: stops where a literal would be read from the client.
- ImapSearch.DoSearch: a leading sequence set, parenthesised keys and CHARSET are not modelled; leaves are opaque predicates, and `ReadKey` gives a key the table does not know the same predicate as the source, which never holds.
- ImapSequence.ReadIndex: the base lists its records by ascending number; flags and the `\Seen` bookkeeping are not modelled.
- ImapSession.Session.Handle: handlers that leave state and mailbox alone have no other effect in the model; FETCH, STORE and STATUS replies, scan pointers and saved configurations are not modelled.
- ScreenWrap.Screen.PrintLine: the translation of mIRC colours is not modelled.
- NickCompletion.Channel.MatchNick: upper case is that of ASCII letters; the notices on the screen are not modelled.
- ListExport.ExactlyOnce: the base does not take back message numbers, the pointer is saved, mail is accepted, and a run with subscribers has an active one; `LedgerExact` says what runs stopped at their loop guard do.
- PartsDatabase.Database.AddPart: timestamps, and writing the database to its file and reading it back, are not modelled.
- PartsDatabase.NaNCountsAsPart: takes the number written for NaN in a property name to be 0; what the host writes is not known here, and the results need only a number outside 1..total.
- PartsDatabase.Database.CombineParts: the messages removed from their bases, decoding, and the history of files are not modelled; a body whose decoded length is not the announced one counts as unreadable.
- Screens, menus, sockets, message bases, user records, configuration files and logs are the host's and not modelled.
