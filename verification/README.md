# Verified models of the repository's gates and of its expression language

This Dafny project models the parts of the repository that decide something:
the scripts that gate money, deploys, documents and commits, and the template
expression language of the design prototype. Each module models one script (or
one part of one); the properties are stated over all inputs, all runs or all
reachable states. `dafny verify dfyconfig.toml` checks everything.

For the main operations there are two kinds of results. The laws say what an
operation is for: a round trip, an invariant of every run, a transformation that
changes nothing. Beside them stand exact statements of its outcome, on all inputs,
in terms of the input alone and with the constants written out: which evidence
cell gives which state, which files make the command write, which windows give
which verdict, which lines declare a flag. A result that names another function of
the model for the same step would follow that function wherever it went; these do
not.

| module | what it models |
|---|---|
| `Text`, `Json` | strings, lines, trimming, splitting; JSON values |
| `Expressions`, `ExpressionRoundTrip` | the evaluator `resolve`, the trees it reads, its tokens and the texts that mean nothing |
| `Posture`, `PostureParsing`, `PostureRuns` | declared live-execution windows, when parsing them succeeds, refuses or raises, comments, the posture decision, and runs of the whole system |
| `PostureVerdicts`, `PostureWords` | the decision and its completeness said over the readings, the windows and the comments alone; what a comment has to say to count; the gates on a committed flag |
| `FlyToml`, `FlyTomlProofs`, `FlyTomlLines` | turning a flag off in the text of `fly.toml`, and the lines that declare a flag piece by piece |
| `CloseWindow`, `CloseWindowProofs`, `CloseWindowExact` | closing a window: entries edited in place, then two ordered file writes; what the command decides and leaves, by its two files |
| `MarkerVisibility`, `MarkerBlocks` | which lines of a decision record can carry an authorisation, and what is left of a record block by block |
| `RootPrompts`, `RootPromptsProofs` | the stack machine over HTML events that looks for a process line |
| `OpenWork`, `OpenWorkProofs`, `OpenWorkEvidence` | the open-work board: parse, derive, render, write; its rows, evidence cells, anchor and counts as they are written |
| `MutationScope`, `MutationScopeProofs`, `MutationPatterns` | which changed functions get a mutant pattern, which count as inert, and the patterns spelled out |
| `DeployGate`, `DeployGateRuns` | the bounded wait for green workflows, the runs it counts, its exit |
| `DeployDrift` | how long production has been behind `main` |
| `FrCompleteness`, `FrCompletenessProofs`, `FrCompletenessLines`, `FrCompletenessTables`, `FrCompletenessTitle` | what a reader of a requirement document sees, its lines as they are written, its tables line by line, the title section read again, and the rows that count |
| `CloseKeywords`, `CloseKeywordsWritten` | code spans, the close references outside them, the words before a close verb, and which of them negate it |
| `SecurityScan` | range compression, span search, fragment joining, the home-folder search |
| `DocReachability` | breadth-first hops over document links |

Code that updates variables in a loop is a method with invariants; an object
whose methods update its fields is a class; each is proved against a function,
and the properties are lemmas about that function. Regular expressions are
modelled by what they match, except where the section at the end says that a
match is an input.

## What the proofs found

These are properties that the code or its documentation leads a reader to
expect and that fail. Each is proved with the exact condition under which it
holds and with a concrete input that breaks it.

- **A string literal is not opaque to the operator search.** On its own it is
  read as its text if and only if no equality operator is found inside its
  quotes (`LiteralReadExactly`); before an operator, that operator is the one
  found if and only if, besides, the literal closes as many brackets as it opens
  (`LiteralOnTheLeft`). `'a=='` is read as a comparison of two broken halves
  (`OperatorInsideQuotesWitness`), and `'('` hides the operator after it
  (`BracketInsideQuotes`). After an operator the first condition alone
  is exact (`LiteralOnTheRight`). The round trip holds at every place of a tree for
  the literals whose brackets are all matched and that show no operator outside
  them; inside a negation, parentheses or a key this is sufficient, not exact.
- **Closing a window at the instant it opened** leaves an entry that ends when
  it starts, which the parser refuses, so the whole declaration is no longer
  trusted: exactly when some closed window opened at that instant
  (`ClosingKeepsTrust`), as a declaration of one fresh window shows
  (`OpenedNowIsRefused`).
- **An unclosed string of the peer flag can hold the live flag's line.** The
  second edit then takes that line away: the run ends with the declaration
  closed and no live flag in the file (`BothEdited`, `SwallowedIsUnsafe`,
  `SwallowingText`). In every other text the write order is safe
  (`EveryStepIsSafe`). The header of `close_live_window.py` makes the claim
  without that condition.
- **Parsing a declaration can raise.** The docstring of `parse_windows` promises
  a list or `None`. It raises if and only if an entry does and every entry before
  it is a window (`DeclarationRaises`). An entry whose owner and reason are in
  order raises if and only if its opening cannot be written in UTC, or its mode
  is a list or an object, or it is time-boxed, all else is in order and its
  expiry cannot be written in UTC (`RaisesExactly`; one input for each in
  `ModeListRaises`, `EarlyOpeningRaises` and `LateExpiryRaises`). The closing
  command ends with an exception before any write if and only if a time-boxed
  entry has an instant that cannot be written in UTC, whatever else is open or
  standing, or nothing is open or standing and the parser raises
  (`FaultBeforeWriting`, `LateExpiryFaults`, `UnscannedEntryFaults`).
- **Reading the re-affirmations can raise,** where the docstring of
  `parse_reaffirmations` promises a list or `None`: if and only if a comment does
  and every comment before it is well formed (`CommentsRaise`). Over comments as
  GitHub records them it raises if and only if one of them, by a person and not
  dated after now, names an instant that cannot be written in UTC
  (`ReadingStops`, `OneCommentStops`).
- **`no_mutable_content` passes over four things:** default values, the targets
  of comprehensions, the name that a `with` binds, and the quotes of a leading
  string, of which the script's own comment excuses triple ones only. Nothing in
  a function can be mutated if and only if the script says so and all of these,
  in the function and in those nested in it, are safe (`SafeFunctionExact`). Each
  of the four breaks the claim (`DefaultIsMissed`, `UnsafeTargetsAreMissed`,
  `BoundNameIsMissed`, `PlainDocstringIsMissed`). What can be mutated is what the
  script's lists and comments name, and any node of a kind they do not name; a
  string counts unless it is a leading one in triple quotes.
- **A comment that ends on the title line** can make rows count that a reader
  does not see, because the title section is cut out and read again without the
  open comment. However a document goes on below its title line, the section
  read again has the tables that the document shows if and only if reading that
  line with nothing open leaves the same mode and starts no table
  (`TitleAlikeExact`). A requirement is then traced if and only if a reader sees
  a whole row for it (`TracedExactly`). Without the condition every requirement
  can be traced by a row that is commented out (`CommentedRowIsTraced`).
- **Wrapping a line can lose the negation found,** and never brings one in or
  changes it: it is lost if and only if the wrapping makes a blank line that cuts
  the clause and no near word after it negates (`WrapLosesExactly`,
  `BlankLineCutsNegation`).
- **A host is lost** if and only if the host read before it ends in the colon of
  its `://` (`EverySchemeIsRead`, `ColonBeforeSchemeHidesHost`).
- **Stripping uncommitted prose twice** changes a text if and only if its last
  emitted line is empty and not the only one (`StrippedTwice`,
  `BlankEndIsDropped`).
- **The order in which windows are listed can change the verdict,** if and only
  if two of the covering windows tie for first and do not agree: the issue of
  one alone cannot be read, or their modes differ and nothing that all the
  windows share decides before the mode (`TiesExactly`, `TiesDependOnOrder`).

## Model

| member | source | states |
|---|---|---|
| Expressions.ParensWrapWhole | design_handoff_quorum_ui/support.js:235-245 | true exactly when no closing round bracket before the last character brings the bracket level back to zero |
| Expressions.FindTopLevelEquality | design_handoff_quorum_ui/support.js:246-260 | the index found is the first place, at bracket level 0, where an equality operator starts that is not part of an earlier one and has an operand before it; none if there is no such place |
| Expressions.Evaluate | design_handoff_quorum_ui/support.js:203-234 | the loops and the mutual recursion terminate on the text's length and compute the function that the following rows characterise: the meaning of every printed tree, operator by operator, and nothing for texts that are no tokens |
| Expressions.EvaluatePath | design_handoff_quorum_ui/support.js:261-292 | the path loop with its bracket-matching inner loop computes the walk along dotted and bracketed keys |
| ExpressionRoundTrip.RoundTrip | design_handoff_quorum_ui/support.js:203-292 | printing any well-formed tree, with any blanks, and evaluating the text gives the meaning of the tree in every environment and for every host |
| ExpressionRoundTrip.PathPrefix | design_handoff_quorum_ui/support.js:261-292 | reading a path that is continued reaches the end of the first path with that path's meaning, nested bracket keys included |
| ExpressionRoundTrip.ChainsGroupRight | design_handoff_quorum_ui/support.js:209-222 | a chain of two equalities without parentheses groups to the right |
| ExpressionRoundTrip.LiteralReadExactly | design_handoff_quorum_ui/support.js:203-234 | a quoted literal evaluates to its text if and only if no operator is found inside its quotes (as in JavaScript, no text is a truth value) |
| ExpressionRoundTrip.LiteralOnTheLeft | design_handoff_quorum_ui/support.js:209-260 | the operator after a literal is the one found if and only if none is found inside the quotes and the literal closes as many brackets as it opens; it then compares the literal's text |
| ExpressionRoundTrip.LiteralOnTheRight | design_handoff_quorum_ui/support.js:209-260 | after any tree that is no comparison and an operator, a literal with any brackets counts as its text if and only if no operator is found inside its quotes; otherwise as its two broken halves |
| ExpressionRoundTrip.BracketInsideQuotes | design_handoff_quorum_ui/support.js:246-260 | the literal `'('` hides the comparison that follows it when the other side never closes that bracket: the whole is one literal if the other side ends in the same quote, and undefined otherwise |
| ExpressionRoundTrip.BracketJoinsLiterals | design_handoff_quorum_ui/support.js:246-260 | `'('=='x'` is read as one literal |
| ExpressionRoundTrip.OperatorInsideQuotes | design_handoff_quorum_ui/support.js:246-260 | an equality operator between two half literals is found inside the quotes: the result compares two undefined values |
| ExpressionRoundTrip.OperatorInsideQuotesWitness | design_handoff_quorum_ui/support.js:246-260 | the quoted literal `'a=='` is such an input |
| ExpressionRoundTrip.OperatorsExactly | design_handoff_quorum_ui/support.js:246-260 | the operator found is the first `==` or `!=` that is not the tail of another, stands behind text that is not blank, and has as many brackets opened as closed before it; it is three characters long when one more equals sign follows |
| ExpressionRoundTrip.NamesExactly | design_handoff_quorum_ui/support.js:201-272 | a path starts with a letter, `_` or `$` and goes on with these and digits; after a dot digits alone will do |
| ExpressionRoundTrip.NumbersExactly | design_handoff_quorum_ui/support.js:202-229 | a number is an optional minus sign, digits, and an optional point with digits |
| ExpressionRoundTrip.BrokenPathIsNothing | design_handoff_quorum_ui/support.js:265-289 | a path that goes on with a dot and no name, a bracket that is never closed, or anything else that is no path, is undefined |
| ExpressionRoundTrip.UnknownIsNothing | design_handoff_quorum_ui/support.js:223-264 | a trimmed text with no operator that is no bracket, negation, name, number or literal is undefined |
| ExpressionRoundTrip.BlankIsNothing | design_handoff_quorum_ui/support.js:203-205 | a blank text is undefined |
| Json.InstantExactly | scripts/live_posture_check.py:835-852 | a value is an instant if and only if it is a text, not blank, that Python reads with an offset, and the local time less the offset lies in Python's calendar; outside the calendar it raises |
| PostureParsing.NamesExactly | scripts/live_posture_check.py:724-745 | the owner is blanks, at signs, a login of 1 to 39 letters, digits and single inner hyphens, and blanks, and the reason says something |
| PostureParsing.ParsesExactly | scripts/live_posture_check.py:724-832 | an entry parses to a window if and only if it spells out that window field by field and the window is one that may be declared: standing under an authorised record that is not the mechanism's own, with an issue and no end, or time-boxed, ending after it starts, within a day when it names no issue |
| PostureParsing.RaisesExactly | scripts/live_posture_check.py:724-852 | parsing an entry raises if and only if its owner and reason are in order and its opening overflows on conversion to UTC, or with the opening in order its mode is a list or an object, or it is time-boxed with all else in order and its expiry overflows |
| PostureParsing.DeclarationParses | scripts/live_posture_check.py:692-721 | the declaration parses to a list of windows if and only if its entries spell them out, one by one and in order |
| PostureParsing.DeclarationRaises | scripts/live_posture_check.py:692-721 | parsing the declaration raises if and only if an entry does and every entry before it is a window |
| PostureParsing.ModeListRaises | scripts/live_posture_check.py:751-753 | an entry with a list for its mode, with any instant as its opening, makes the whole declaration raise |
| PostureParsing.EarlyOpeningRaises | scripts/live_posture_check.py:743-852 | so does the opening `0001-01-01T00:00:00+01:00`, whatever the mode and the expiry |
| PostureParsing.LateExpiryRaises | scripts/live_posture_check.py:808-852 | and the expiry `9999-12-31T23:59:59-12:00` of a time-boxed entry |
| PostureParsing.CommentsRaise | scripts/live_posture_check.py:855-953 | reading comments raises if and only if one of them does and every one before it is well formed |
| PostureParsing.CommentExactly | scripts/live_posture_check.py:896-921 | a comment is refused if and only if its poster, type, text or date is missing, and yields an entry if and only if a person posted it, not through an app and not after now, and its text names an instant |
| PostureParsing.CommentsRefuse | scripts/live_posture_check.py:890-921 | reading comments gives nothing if and only if one is malformed and every one before it is well formed |
| PostureRuns.ReadingStops | scripts/live_posture_check.py:855-953 | a reading of comments as GitHub records them is never refused, and raises if and only if a person's comment in it, not dated after now, names an instant that overflows |
| PostureRuns.OneCommentStops | scripts/live_posture_check.py:932-953 | every reading that includes the comment `REAFFIRM live-execution 0001-01-01T00:00:00+01:00` raises, whoever posted it |
| Posture.ParseReaffirmations | scripts/live_posture_check.py:855-921 | the loop keeps, in order, the comments by people that name a window and are not dated after now; the first malformed comment makes it give nothing at all, and the first that names an instant that overflows makes it raise |
| Posture.AttendedSince | scripts/live_posture_check.py:476-501 | the loop finds the later of the opening and the latest matching re-affirmation |
| PostureRuns.EntryOrigin | scripts/live_posture_check.py:476-501 | in every run, an entry that attends a window is a comment posted earlier in the run by the window's own owner, a person, not through an app, naming that window |
| PostureRuns.SilenceMeansAttended | scripts/live_posture_check.py:1145-1410 | over every run of clock ticks, declarations and comments by anyone, a live posture without an alert has a covering window, every covering window was opened or re-affirmed by its own owner less than 24 hours ago, and a judge that is on is declared |
| PostureRuns.AttentionIsNotForwardDated | scripts/live_posture_check.py:855-921 | no kept entry places a covering window's attention after now |
| PostureRuns.NoDecoys | scripts/live_posture_check.py:1254-1410 | if the verdict is "re-affirmation lapsed", any list that still holds those windows alerts, and so does an unreadable list |
| PostureRuns.OrderDoesNotMatter | scripts/live_posture_check.py:1254-1418 | reordering windows never changes the verdict when covering windows differ in (floating-point cover end, opening, owner) |
| PostureRuns.OrderExactly | scripts/live_posture_check.py:1254-1418 | two orders of one list give the same result if and only if the windows that govern them agree, where covering windows decide at all |
| PostureRuns.TiesExactly | scripts/live_posture_check.py:1254-1418 | no order of the list changes the result if and only if any two covering windows that tie for first agree: both issues are unreadable or neither is, and the modes are equal or something all the windows share decides |
| PostureRuns.TiesDependOnOrder | scripts/live_posture_check.py:1417-1418 | two windows that differ in their issue only give two verdicts, by which is listed first |
| PostureVerdicts.VerdictExactly | scripts/live_posture_check.py:1145-1415 | each of the eight decisions is given if and only if its conditions on the probes, the windows, the comments and the judges hold: unknown, off, past its windows, undeclared, not kept, judge undeclared, standing, inside a window |
| PostureVerdicts.CompleteExactly | scripts/live_posture_check.py:1145-1415 | a verdict is complete, and may retire an alert, if and only if every host and every judge asked answered, some host was asked, and it is not live inside a window with the governing issue unread or no judge read |
| PostureVerdicts.SilenceExactly | scripts/live_posture_check.py:1145-1415 | no alert is raised if and only if the posture is known to be off, or lies inside a window with every covering window opened or attended within a day and a judge that is on declared |
| PostureVerdicts.GoverningAt | scripts/live_posture_check.py:1308-1418 | the window picked covers now and is outranked by no other: the later end by its floating-point timestamp, then the earlier opening, then the owner, then the place in the list |
| PostureVerdicts.GovernsOnce | scripts/live_posture_check.py:1308-1418 | only one place of the list is such |
| PostureWords.NamingIsRead | scripts/live_posture_check.py:924-953 | a line of Markdown marks and blanks, the token, a blank, and an instant that may stand between marks, with anything behind it, names that instant |
| PostureWords.NoTokenNoWord | scripts/live_posture_check.py:932-953 | a line that does not start with the token, after Markdown marks and blanks, names nothing |
| PostureWords.BodyNames | scripts/live_posture_check.py:932-953 | the first line of a comment that names an instant decides what the comment names |
| PostureWords.OwnersWordKeeps | scripts/live_posture_check.py:476-501 | a window whose owner names it in a comment, not through an app, on the window's own issue, is kept for a day from then |
| PostureWords.OwnerIsLogin | scripts/live_posture_check.py:476-501 | the owner is compared without at signs and in lower case |
| PostureWords.NoteExactly | scripts/live_posture_check.py:987-1025 | the note's own reading of the probes is "on" if and only if some host reports a known live state, and "off" if and only if every host answered, and with off |
| PostureWords.GatesExactly | scripts/live_posture_check.py:1428-1529 | the live flag is refused if and only if the declaration cannot be read, or the flag is on and no window covers now; the peer flag if and only if it is on and the live flag is not |
| PostureRuns.LiveVerdictAgrees | scripts/live_posture_check.py:987-1025 | the note reads "off" exactly where the decision is off and every host answered, where the verdict is complete exactly when every judge answered too; it is never "on" where the decision is off |
| MarkerVisibility.RemoveComments | scripts/live_posture_check.py:607-624 | the inner loop terminates because the line shrinks, and removes comments as the specification does, text rejoined round a comment included |
| MarkerVisibility.StripUncommittedProse | scripts/live_posture_check.py:580-642 | the line loop with its three flags emits the lines of the specification |
| MarkerVisibility.EmittedAreCommitted | scripts/live_posture_check.py:580-642 | no emitted line holds a comment opener, starts a fence or `<pre`, or is an indented block |
| MarkerVisibility.EmittedTwice | scripts/live_posture_check.py:580-642 | running over the emitted lines again returns them unchanged |
| MarkerVisibility.StrippedTwice | scripts/live_posture_check.py:642 | the emitted text is a fixpoint if and only if its last line is not an empty line after another |
| MarkerVisibility.BlankEndIsDropped | scripts/live_posture_check.py:642 | a text of a letter and two line ends, stripped once and then twice, gives two texts |
| MarkerVisibility.CommentHides | scripts/live_posture_check.py:612-616 | nothing is emitted inside an open comment until a line closes it |
| MarkerVisibility.FenceHides | scripts/live_posture_check.py:626-636 | nothing is emitted inside a fence until a line starts with that fence's own marker |
| MarkerBlocks.WrittenIsStripped | scripts/live_posture_check.py:580-642 | of a record written as prose, indented lines, fences, `<pre>` blocks and comments inside a line or over several, what is left is exactly the prose with the comments out of it, in order |
| FlyTomlProofs.EditTurnsOff | scripts/close_live_window.py:235-271 | once an edit succeeds, the same edit again changes nothing |
| FlyTomlLines.EditExactly | scripts/close_live_window.py:101-271 | the edit succeeds if and only if one line, spelled out piece by piece, declares the flag and all others of the kind start inside it; it then replaces that line, and only when its value is not an off word, by its own indent, the key and "false"; it reports a missing flag if and only if no line declares it |
| FlyTomlLines.EditReadsOff | scripts/close_live_window.py:235-271 | after an edit that succeeds one line declares the flag, with an off word |
| FlyTomlLines.EditAndOther | scripts/close_live_window.py:235-271 | the edit of one flag leaves the other reading off, if it did, if and only if the edited line does not run over the other's |
| CloseWindow.FindOpenWindows | scripts/close_live_window.py:118-168 | the loop returns the entries themselves, in order, that are time-boxed and contain now, and stops with an exception exactly when a time-boxed entry has an instant that overflows |
| CloseWindow.CloseWindows | scripts/close_live_window.py:220-232 | stamps exactly the open entries in place and changes nothing else of any entry; when the scan stops nothing changes |
| CloseWindow.Run | scripts/close_live_window.py:274-480 | the command makes the writes of its plan, in order, on the disk and no others, whatever a broken write leaves, and exits as the plan says; the next rows say which plan that is |
| CloseWindowExact.PlanExactly | scripts/close_live_window.py:274-480 | the flags alone are written if and only if the entries spell out windows, none is open now or standing, and each flag is declared once, not both off; flags and declaration if and only if some entry is open now and each flag is declared once; it stops with nothing to do, refuses or faults if and only if the other conditions hold, case by case |
| CloseWindowExact.EditBothExactly | scripts/close_live_window.py:333-420 | both flags can be edited if and only if one line declares the live flag and, with that turned off, one line the peer flag; the text changes if and only if they do not both read off |
| CloseWindowExact.WholeRunLeaves | scripts/close_live_window.py:274-480 | with whole writes, every writing plan leaves both flags turned off and nothing else of the text changed, the covering one also the declaration with its open entries expired in their places and all else as it was; the command ends well if and only if the plan writes |
| CloseWindowProofs.FindsExactlyTheCovering | scripts/close_live_window.py:135-168 | on a trusted declaration the raw scan does not stop and picks exactly the time-boxed windows whose parsed form covers now |
| CloseWindowProofs.ClosingKeepsTrust | scripts/close_live_window.py:220-232 | after closing, the file parses to the same windows in the same order with only the picked expiries changed, unless a picked window opened at now; then it is refused |
| CloseWindowProofs.OpenedNowIsRefused | scripts/close_live_window.py:220-232 | a declaration of one window that opens now is trusted, and refused once it is closed now |
| CloseWindowProofs.FaultBeforeWriting | scripts/close_live_window.py:274-480 | the command ends with an exception before any write if and only if the declaration is an object and a time-boxed entry of it has an instant that overflows, or nothing in it is open or standing and an entry that raises has windows only before it |
| CloseWindowProofs.LateExpiryFaults | scripts/close_live_window.py:118-168 | one time-boxed entry with the expiry `9999-12-31T23:59:59-12:00` ends the command that way, whatever else the declaration holds |
| CloseWindowProofs.UnscannedEntryFaults | scripts/close_live_window.py:307-350 | so does a declaration of one entry with a list for its mode, or with the opening `0001-01-01T00:00:00+01:00` under a mode that is neither of the two |
| CloseWindowProofs.ClosedForGood | scripts/live_posture_check.py:464-474 | a closed window covers neither now nor any later instant |
| CloseWindowProofs.BothEdited | scripts/close_live_window.py:235-271 | the text after both edits reads off in both flags if and only if the peer value does not swallow the live flag, and a second edit changes nothing |
| CloseWindowProofs.EveryStepIsSafe | scripts/close_live_window.py:307-480 | at every point of every run, torn writes included, the declaration is unchanged or both flags read off, unless the peer value swallows the live flag |
| CloseWindowProofs.SwallowedIsUnsafe | scripts/close_live_window.py:307-480 | in that one case the run does end with the declaration changed and the flags not both off |
| CloseWindowProofs.SwallowingText | scripts/close_live_window.py:101-114 | a concrete text of that case: an unclosed peer string above a live flag that is on |
| CloseWindowProofs.LapsedPath | scripts/close_live_window.py:307-480 | the flags are turned off alone only under a trusted declaration with nothing covering now and nothing standing, and the declaration is never written |
| CloseWindowProofs.SecondRunWritesNothing | scripts/close_live_window.py:274-480 | running again at the same instant writes nothing |
| CloseWindowProofs.StoppedRunIsFinished | scripts/close_live_window.py:307-480 | a run stopped between the two writes is finished by a second run, which reaches the same disk, if and only if the peer value does not swallow the live flag |
| CloseWindowProofs.ClosedFilesPassTheGates | scripts/live_posture_check.py:1428-1529 | after closing a trusted declaration in which no picked window opened at now, beside a text in which nothing is swallowed, neither the undeclared-flag gate nor the peer gate refuses the two files |
| RootPrompts.ProcessParagraphs.HandleStart | scripts/check_root_prompts.py:147-158 | the handler changes the stack and the innermost paragraph as the specification does, void elements included |
| RootPrompts.ProcessParagraphs.HandleEnd | scripts/check_root_prompts.py:165-170 | an end tag closes the paragraph's label or spoils it, then pops to its element |
| RootPrompts.ProcessParagraphs.HandleData | scripts/check_root_prompts.py:172-182 | text goes to the innermost paragraph only through plain inline elements |
| RootPrompts.ProcessParagraphs.CloseTo | scripts/check_root_prompts.py:184-194 | the loop pops to the tag, judging every paragraph it closes |
| RootPromptsProofs.FoundIffShown | scripts/check_root_prompts.py:119-194 | over every event sequence, found exactly when some bare `p` or `li` inside plain containers only was closed, led with a plain bold `Process:`, and shows the skill path in its own plain text |
| RootPrompts.ProcessParagraphs.Feed | scripts/check_root_prompts.py:204-211 | feeding a list of events, after those already fed, leaves the object in the state of the whole list |
| RootPromptsProofs.HasProcessLine | scripts/check_root_prompts.py:197-212 | a fresh walker fed with the events of a page answers true if and only if the page shows a process paragraph |
| RootPromptsProofs.FoundStays | scripts/check_root_prompts.py:119-194 | once found, no later event takes it back |
| OpenWork.ParseBoard | scripts/check_open_work.py:262-291 | the row loop gives the anchor, the stated counts and every row of the text |
| OpenWork.StripComments | scripts/check_open_work.py:230-244 | every line is cut at its first comment |
| OpenWork.DeriveStates | scripts/check_open_work.py:294-343 | the loop gives the state of every id, the rows that failed, and the number of needles read, which the next rows characterise |
| OpenWorkEvidence.StateExactly | scripts/check_open_work.py:304-342 | an em dash gives UNPINNED; a pin whose needle has 12 or more characters and no backtick and whose file exists gives DONE when it says absent and the needle occurs, or says present and it does not, and PENDING otherwise; anything else fails |
| OpenWorkEvidence.PinIsRead | scripts/check_open_work.py:177 | a cell written as `ABSENT`, `PRESENT` or `PRESENT@` with 7 to 40 hexadecimal digits, a blank, a path, ` :: ` and a needle is read so |
| OpenWorkEvidence.ReadIsPin | scripts/check_open_work.py:177 | and every cell that is read is written so |
| OpenWorkEvidence.LastRowDecides | scripts/check_open_work.py:294-343 | the last row of an id decides its state, or leaves it to the rows before when its evidence fails |
| OpenWorkEvidence.WrittenRowDecides | scripts/check_open_work.py:294-343 | so a pinned row written on the board, after which its id does not come again, is DONE if and only if its needle occurs and it says absent, or does not occur and it says present |
| OpenWorkEvidence.CountsExactly | scripts/check_open_work.py:294-343 | the failures are the ids of the rows without a state, in order, and the count of needles is that of the rows whose needle was looked for |
| OpenWorkEvidence.RowIsRead | scripts/check_open_work.py:215-281 | a row written with its six cells, the evidence perhaps in backticks, is read as those cells |
| OpenWorkEvidence.RowLineExactly | scripts/check_open_work.py:173 | a line is a row of an id if and only if it is a pipe, the id between blanks, a pipe, and something more |
| OpenWorkEvidence.RowIsRendered | scripts/check_open_work.py:346-363 | a written row is rendered with the state of its id and nothing else changed, and stays as it is when its id has no state |
| OpenWorkEvidence.BoardAnchor | scripts/check_open_work.py:167-264 | the anchor is that of the first line that holds forty hexadecimal digits as it should |
| OpenWorkEvidence.BoardCounts | scripts/check_open_work.py:170-266 | the stated counts are the two decimal numbers of the line that states them, when no line before it starts so |
| OpenWorkEvidence.AllCodeExactly | scripts/check_open_work.py:183-244 | a line is all code if and only if none of its hashes stands at its start or behind a blank |
| OpenWork.RenderBoard | scripts/check_open_work.py:346-363 | the loop rewrites the State cell of the rows whose id has a state |
| OpenWork.BoardFile.WriteStates | scripts/check_open_work.py:860-869 | the file holds the rendered board afterwards, and the result says whether it changed |
| OpenWorkProofs.StateCellsAreNotRead | scripts/check_open_work.py:262-343 | whatever pipe-free text the State cells hold, the anchor, the counts, every other cell and every derived state are the same |
| OpenWorkProofs.RenderedBoard | scripts/check_open_work.py:346-363 | the rendered board derives the same states, renders to itself, and differs from the board before in State cells only |
| OpenWorkProofs.EveryRowShowsItsState | scripts/check_open_work.py:809-826 | every row that derives shows its derived state on the rendered board, and every line that is not a row is unchanged |
| OpenWorkProofs.RenderTwice | scripts/check_open_work.py:346-363 | rendering with any clean states is idempotent |
| OpenWorkProofs.CommentIsNotCode | scripts/check_open_work.py:230-244 | a comment added at the end of a line is not evidence |
| MutationScope.Walker.Walk | scripts/replay_mutation_scope.py:288-336 | the recursive walk leaves the counters of the functions that stand in the module or in classes, frozen under any decorated class |
| MutationScope.Scope | scripts/replay_mutation_scope.py:260-358 | the loop over changed files gives the union of their patterns and the count of their reasons; the next rows spell the patterns out |
| MutationPatterns.ModuleExactly | scripts/replay_mutation_scope.py:280 | the module of a path is the path without a leading `src/` and a trailing `.py`, with dots for slashes |
| MutationPatterns.PairExactly | scripts/replay_mutation_scope.py:332-335 | a function gets the patterns `module.copy__mutmut_*` and `*module.copy`, where the copy of `f` is `x_f` in a module and `xǁCǁf` in the class `C` |
| MutationPatterns.PatternsSpelled | scripts/replay_mutation_scope.py:260-358 | the patterns of a diff are these two of every named function of every changed file, and no others |
| MutationPatterns.PatternsTellApart | scripts/replay_mutation_scope.py:332-335 | two functions of a module share a pattern only if they have the same class and the same name, when no class name holds `ǁ` |
| MutationPatterns.TouchedExactly | scripts/replay_mutation_scope.py:318-321 | a function is touched if and only if a changed line lies between its first and its last |
| MutationPatterns.SkippedWhole | scripts/replay_mutation_scope.py:66-86 | a function is skipped whole if and only if it is decorated, other than by a lone bare `staticmethod` or `classmethod` |
| MutationScopeProofs.SafeExprExact | scripts/replay_mutation_scope.py:154-205 | no place in an expression, at any depth and comprehension targets included, is one an operator applies to, if and only if the gate calls the expression safe and all those targets are safe |
| MutationScopeProofs.SafeFunctionExact | scripts/replay_mutation_scope.py:208-257 | nothing in a function can be mutated if and only if the gate calls it inert and all that the gate passes over, in it and in functions nested in it, is safe: default values, comprehension targets, names bound by a `with`, leading strings in plain quotes |
| MutationScopeProofs.DefaultIsMissed | scripts/replay_mutation_scope.py:208-257 | a function with a default value that can be mutated: the gate calls it inert, on its own and nested in another |
| MutationScopeProofs.TargetIsMissed | scripts/replay_mutation_scope.py:102-114 | a function with any unsafe comprehension target, which the gate calls inert |
| MutationScopeProofs.UnsafeTargetsAreMissed | scripts/replay_mutation_scope.py:102-124 | two such: `d["k"]`, and the name that the tool rewrites |
| MutationScopeProofs.BoundNameIsMissed | scripts/replay_mutation_scope.py:235-244 | a function that binds that name in a `with`, which the gate calls inert |
| MutationScopeProofs.PlainDocstringIsMissed | scripts/replay_mutation_scope.py:214-225 | a function with a leading string in plain quotes, which the gate calls inert |
| MutationScopeProofs.NamedHasMutants | scripts/replay_mutation_scope.py:314-331 | every function that is named has a mutant; one left out as inert has none if and only if all that the gate passes over in it is safe |
| MutationScopeProofs.MembersExact | scripts/replay_mutation_scope.py:300-336 | the walk meets exactly the functions reached through class bodies, under the classes on the way |
| MutationScopeProofs.WalkAccounts | scripts/replay_mutation_scope.py:311-331 | the touched functions split exactly into those named by a pattern pair and those counted as skipped |
| MutationScopeProofs.EveryFileIsAccounted | scripts/replay_mutation_scope.py:338-356 | a changed file ends with patterns or with exactly one reason, never both, never neither, never "other" |
| MutationScopeProofs.DiffIsAccounted | scripts/replay_mutation_scope.py:260-358 | reasons given plus files named are the changed files, and the patterns are those of the named functions |
| DeployGate.EvaluateGate | scripts/deploy_gate.py:118-180 | proceeds if and only if the required set is not empty and every first non-pending answer is green and came before a round saw the timeout; blocks as failed if and only if some first answer is not green in time; stops within the ceiling of timeout over poll rounds after the first |
| DeployGateRuns.SelectionIsLatest | scripts/deploy_gate.py:183-223 | the conclusion is that of a genuine run that no genuine run is later than, once completed |
| DeployGateRuns.SelectionExactly | scripts/deploy_gate.py:183-223 | the answer is the conclusion of the run that counts, a push to this repository's `main` for the workflow that started last, by the larger id when two started together and the first listed when they tie, once it is completed with a conclusion that is not empty; otherwise there is none |
| DeployGateRuns.SpoofsChangeNothing | scripts/deploy_gate.py:183-223 | runs that are not pushes to this repository's `main` for the workflow change nothing, wherever they stand |
| DeployGateRuns.OnlyGenuineRunsDecide | scripts/deploy_gate.py:183-257 | two histories of the run list with the same genuine runs give the gate the same verdict |
| DeployGateRuns.OneQuestionPerName | scripts/deploy_gate.py:149-152 | with distinct names a round's answer is the answer to its one question |
| DeployGateRuns.Decide | scripts/deploy_gate.py:294-358 | `proceed` is written exactly for a dispatch from `main` or a verified commit, and a blocked gate fails the job exactly when `main` is not known to have moved on |
| DeployDrift.DriftIsNotLaundered | scripts/deploy_drift_check.py:119-188 | once production has lacked a commit for the grace period, every check reports drift until a deploy includes that commit, whatever is merged or rolled back meanwhile |
| DeployDrift.DeployingTheTipEndsDrift | scripts/deploy_drift_check.py:152-153 | right after a deploy of the tip the check is in sync |
| DeployDrift.VerdictExact | scripts/deploy_drift_check.py:256-273 | in sync exactly when production serves the tip, otherwise decided by the age of the oldest commit it lacks |
| DeployDrift.TipClockWouldHide | scripts/deploy_drift_check.py:128-134 | the age of the tip would be below the grace period after a fresh merge, while the check still reports drift |
| DeployDrift.DecisionExactly | scripts/deploy_drift_check.py:119-188 | in sync if and only if both SHAs were read and are the same; when they differ the age decides, unknown when it is missing or negative; unknown when a SHA is missing |
| DeployDrift.QuietOnlyWhenKnown | scripts/deploy_drift_check.py:289-319 | the check is quiet if and only if both SHAs were read and are equal, or the age is known, not negative and below the grace period |
| FrCompleteness.StripComments | scripts/validate_fr_completeness.py:136-160 | jumping from marker to marker equals reading one character at a time |
| FrCompleteness.VisibleLines | scripts/validate_fr_completeness.py:163-189 | one slot per line, hidden or seen, with the fence and comment flags carried along |
| FrCompleteness.Tables | scripts/validate_fr_completeness.py:192-221 | the loop gives every table with its header and its rows, the first row of an id deciding |
| FrCompleteness.Check | scripts/validate_fr_completeness.py:288-334 | no problem if and only if every requirement document declares something and every declared requirement has a whole row in the evidence table of every evidence document; and a problem is reported if and only if it is there: a document without sections, or else a document without an evidence table, a missing row, a row with another number of cells than its header, or one with an empty cell |
| FrCompletenessLines.CellsAreRead | scripts/validate_fr_completeness.py:108-115 | a row written with any cells, escaped pipes and empty cells included, is read as those cells |
| FrCompletenessLines.RuleIsSeparator | scripts/validate_fr_completeness.py:118-119 | a written row is a separator if and only if it has cells, none empty, of hyphens and colons only |
| FrCompletenessLines.PipeRowExactly | scripts/validate_fr_completeness.py:203-209 | a line is a row if and only if a pipe is the first thing on it |
| FrCompletenessLines.FenceExactly | scripts/validate_fr_completeness.py:70-186 | a line is a fence if and only if three backticks or three tildes are the first thing on it |
| FrCompletenessLines.HeadingLineExactly | scripts/validate_fr_completeness.py:78 | a heading is one to six hashes and a blank |
| FrCompletenessLines.TitleLineExactly | scripts/validate_fr_completeness.py:77 | a title is one hash and a blank |
| FrCompletenessLines.HeadingExactly | scripts/validate_fr_completeness.py:68-105 | a line declares a requirement if and only if it is two hashes, blanks, `FR-` or `NFR-` with three digits, and nothing that goes on a word |
| FrCompletenessLines.DeclaredExactly | scripts/validate_fr_completeness.py:89-105 | the requirements are those that a line a reader sees declares, each once |
| FrCompletenessLines.PlainIsSeen | scripts/validate_fr_completeness.py:163-189 | a line outside fences and comments that opens neither is seen as it is |
| FrCompletenessLines.FencedIsHidden | scripts/validate_fr_completeness.py:163-189 | a fence hides its own two lines and all between them, and nothing is open after it |
| FrCompletenessLines.CommentIsHidden | scripts/validate_fr_completeness.py:136-189 | of a line with a comment in it the text round it is seen, or nothing when that is blank |
| FrCompletenessProofs.CarriedFlagIsExact | scripts/validate_fr_completeness.py:136-189 | carrying the comment flag line by line equals stripping the newline-joined text at once, a newline being kept exactly outside comments |
| FrCompletenessProofs.SeenByPrefix | scripts/validate_fr_completeness.py:163-189 | what is seen of a line is decided by the lines up to it |
| FrCompletenessProofs.EvidenceIsDecidedByTheTitleSection | scripts/validate_fr_completeness.py:224-273 | documents that agree up to and including the first live heading after the title have the same evidence table |
| FrCompletenessTables.TablesExact | scripts/validate_fr_completeness.py:192-221 | the tables found are those of the header lines, in order, each with the first row of every id that has a row below it while it is open, and no others |
| FrCompletenessTables.WholeRowExact | scripts/validate_fr_completeness.py:253-334 | the evidence table has a whole row for an id if and only if, under the first seen `Req ID` header, the first row of that id has as many cells as the header and none empty |
| FrCompletenessTitle.SectionReadsAsSeen | scripts/validate_fr_completeness.py:224-250 | the section cut out and read again has the tables the document shows, when its title line reads alike |
| FrCompletenessTitle.TitleAlikeExact | scripts/validate_fr_completeness.py:224-250 | the title line reads alike if and only if, for every document with the same lines up to it, the section read again has the tables the document shows |
| FrCompletenessTitle.TracedExactly | scripts/validate_fr_completeness.py:253-334 | in a document with no title, or whose title line reads alike, a requirement is traced if and only if a reader sees a whole row for it in the title section |
| FrCompletenessTitle.CommentedRowIsTraced | scripts/validate_fr_completeness.py:224-334 | for every requirement id a document of five lines that shows its title and nothing else, and traces the requirement by a row that is commented out |
| CloseKeywords.PrecedingNegation | scripts/check_close_keywords.py:208-251 | the backwards walk returns the nearest negation among the last three white-space words, emphasis deleted, after the latest clause mark or blank line |
| CloseKeywords.FindReferences | scripts/check_close_keywords.py:193-205 | the references that no code span covers, in order |
| CloseKeywords.NegatedCloses | scripts/check_close_keywords.py:262-276 | the findings are the references outside code that have a negation, in order |
| CloseKeywordsWritten.WordsAreRead | scripts/check_close_keywords.py:208-245 | the words of a written clause are its words with the emphasis marks out of them |
| CloseKeywordsWritten.WrittenNegation | scripts/check_close_keywords.py:208-251 | a verb behind a clause, written after a clause mark or at the start of the text, is negated if and only if one of its last three words, inside brackets and quotes, is one of the eight negations or ends in `n't`; the last such word is the one reported |
| CloseKeywordsWritten.FindingsExactly | scripts/check_close_keywords.py:102-276 | the findings are, in order, the references outside the fences and outside the inline spans of the text with the fences blanked whose verb is negated, each with its issue, its verb in lower case and the negation |
| CloseKeywords.Mask | scripts/check_close_keywords.py:116-121 | the loops blank exactly the code spans in place and keep every newline |
| CloseKeywords.GatheredWords | scripts/check_close_keywords.py:220-245 | reading backwards letter by letter gathers the words of a split, last word first |
| CloseKeywords.RewrapKeepsNegation | scripts/check_close_keywords.py:224-238 | turning one space into a newline that makes no blank line never changes the negation found |
| CloseKeywords.RewrapKeepsFindings | scripts/check_close_keywords.py:262-276 | nor the findings of a whole text, when the references outside code stay at their places |
| CloseKeywords.WrapKeepsPrefix | scripts/check_close_keywords.py:224-245 | wrapping at any space leaves the nearest words or the first of them, exactly those after the cut |
| CloseKeywords.WrapLosesExactly | scripts/check_close_keywords.py:208-251 | wrapping at any space keeps the negation or loses it; it is lost if and only if the wrapping cuts the clause and none of the nearest words after the cut negates |
| CloseKeywords.BlankLineCuts | scripts/check_close_keywords.py:224-236 | a blank line that wrapping makes cuts off all that stands before it |
| CloseKeywords.BlankLineCutsNegation | scripts/check_close_keywords.py:224-236 | a concrete text whose negation wrapping removes that way |
| SecurityScan.CombiningMarkRanges | scripts/security_scan.py:476-496 | the ranges are in order, disjoint, with a gap between any two, and hold a code exactly when it is a mark |
| SecurityScan.CanonicalIsUnique | scripts/security_scan.py:476-496 | there is only one such list of ranges for a set of codes |
| SecurityScan.HostsAreHosts | scripts/security_scan.py:631-639 | the spans are in order and never meet, and each is the host after a `://` |
| SecurityScan.EverySchemeIsRead | scripts/security_scan.py:631-639 | a `://` gives its host if and only if its colon does not end a host read before it |
| SecurityScan.ColonBeforeSchemeHidesHost | scripts/security_scan.py:622-639 | of the two hosts of `://a://b` only the first is read |
| SecurityScan.InSpan | scripts/security_scan.py:642-644 | the binary search answers like a scan over all spans |
| SecurityScan.ContainsHomeDirectoryPath | scripts/security_scan.py:661-671 | true if and only if some match does not start after a port colon inside a host; the search terminates |
| SecurityScan.HomeExactly | scripts/security_scan.py:642-671 | a match counts unless its path follows a colon inside the host of a `://` that is read |
| SecurityScan.GapExactly | scripts/security_scan.py:352-358 | a gap is blanks, or blanks round one plus sign |
| SecurityScan.JoinedFragments | scripts/security_scan.py:361-383 | the loop computes the runs that the next row characterises |
| SecurityScan.RunsExact | scripts/security_scan.py:361-383 | the strings are those of the maximal runs of two or more fragments with only gaps between them, all of them, each once and in the order of the line |
| DocReachability.MeasureDocs | scripts/measure_doc_reachability.py:49-64 | a file has hop h exactly when its shortest chain of links has h links and h is within the limit; the counts and the unreachable rest add up to the tracked files |
| DocReachability.NextLevel | scripts/measure_doc_reachability.py:54-57 | a file is at the next distance exactly when it is not nearer and a file at this distance links to it |

## Left out

- Network, `gh`, `git`, Docker, argument parsing, printing and report strings; what they return is an input.
- Reading the text of an ISO instant into a local time and an offset, writing an instant, lower-casing, and the float of an instant (`Python` in `Json`): any functions do. Where a property needs that writing an instant and reading it back gives the instant, or what Python reads in two given texts, it says so.
- The net in `main` of `live_posture_check.py` that reports an exception as UNKNOWN.
- Key order of JSON objects, and text encodings: a payload is a map and a string a sequence of characters.
- `\d` and `\w` are ASCII only; the case folding of flag keys adds the two other forms of I.
- JavaScript's values, number parsing and property lookup: any host does.
- `design_handoff_quorum_ui/support.js` outside the expression language: attribute encoding, rendering, streams.
- `_TopLevelHeadings` of `check_root_prompts.py`: a smaller machine of the same shape. HTML tokenizing and Markdown rendering are inputs (events).
- Paragraphs in the stack of `ProcessParagraphs` are values inside the stack, so sharing a paragraph object between two places is not modelled.
- The checks of the board's anchor, counts, structure and freshness against git history, and the tokenizer that strips Python comments.
- `changed_lines` of the scope replay, and mutant sources that its comments do not list: whether the tool mutates annotations, type parameters, and the names of attributes, parameters and functions, the repository does not say.
- DeployGateRuns.SelectConclusion: a start time is a string or absent and an id an integer or absent, as GitHub sends them; other JSON in those two fields raises or compares by Python's own rules.
- DeployGate.EvaluateGate: times are real numbers, so rounding of floating point is not modelled.
- What the patterns for close references, fences and inline code spans of `check_close_keywords.py` match in a text are inputs (`Patterns`), so that a newline that starts a fence hides a reference shows only as a change of that input; `_expected_closes` and `_premerge` are not modelled.
- The pattern of a home folder and Unicode normalisation are inputs of `ContainsHomeDirectoryPath`.
- `_adr_status_is_live` and the search for ADR headings.
- FrCompleteness.Check: a document that does not exist, the order of the report and the floor on the number of requirements are not modelled.
- The table rows that `tables` fills in place are values, so aliasing of the open table and its entry in the list is not modelled.
- DocReachability.MeasureDocs: the limit is a natural number, and the links of a file are an input.
