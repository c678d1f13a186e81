# SmartSimulator, verified

SmartSimulator answers requests by rules. A `.sim` script is read into pairs of a request
template and response templates, an incoming request is matched against them, and a repository
runs the simulators that host the scripts. This project models that logic in Dafny and proves
what it does.

| files | part of the program |
|---|---|
| `Tokenizer.dfy`, `Matcher.dfy`, `Captures.dfy`, `Template.dfy`, `FoldExact.dfy`, `Spelling.dfy` | the reverse-template engine: placeholders, backtracking matcher, captures, several lines |
| `ScriptLoader.dfy`, `ResponseTemplates.dfy`, `RequestTemplates.dfy`, `Lines.dfy`, `Text.dfy` | reading `.sim` scripts |
| `RequestMatch.dfy`, `RuleSelection.dfy` | matching a request, choosing the rule |
| `Connections.dfy` | the index of WebSocket connections |
| `Lifecycle.dfy`, `Monitoring.dfy`, `Repository.dfy`, `Stopping.dfy` | simulators, listeners, message counters, the repository |
| `ZipWalk.dfy`, `FolderScan.dfy`, `ZipFolders.dfy` | rebuilding a folder tree from a zip archive |
| `FrameDecoder.dfy` | cutting a byte stream into frames |
| `BeanRepository.dfy`, `IdGenerator.dfy` | the bean cache and the identifier counter |
| `JavaInts.dfy`, `Outcomes.dfy` | 32-bit integers, `Option`, `Result` and notions about lists |

Code that changes things step by step is a method or a class here, tied by its `ensures` to a
function of the inputs or of the old state; the laws of that function are lemmas. What is
independent of the code in each part:

- **Matching.** `ValidSplit` says what a match is without any search, `Overrun` what a probe past
  the end of the line is. The matcher gives the verdict on the first of these events in the
  lexicographic order of lengths. It is complete for every template: it finds a split whenever
  there is one, and runs out of range only on lines that have none. Whether a split that was
  found ends in a class-cast failure depends on the template alone.
- **Tokenizing.** `Tiles` says what a tokenization is; it determines the tokens.
- **Scripts.** Printing is defined apart from reading; reading what was printed gives it back,
  except for the padding of a body. Every text is some layout of padded sections between
  separators, and what loading it comes to is stated over that layout.
- **Matching a request.** A request is accepted part by part, from the splits of its lines alone;
  the context in which a rule is tried is built from what the earlier rules matched.
- **Connections.** `Registry` is the plain bookkeeping of who is open under which id. The heap
  model keeps the alias between the list of unidentified connections and its bucket until closing
  the only unidentified connection drops the key; from then on a connection that claims an id is
  listed once more among the unidentified, for good.
- **Lifecycle.** The history of events says what the counters should show. The class invariant
  holds the claim that every running simulator made so far is the registered one.
- **Zip walk.** `Reachable` and the announced order are stated over paths, without the shared list.
- **Frames.** Every consumed byte is filed as a piece; the stream's frames are defined on the
  whole stream, without calls or chunks.

Where the code differs from what a reader would expect, the model follows the code and a lemma
gives the exact condition or an input:

- A line without a valid split raises an exception instead of not matching if a bounded variable
  can reach past its end (`Matcher.OutOfRangeIff`, `Matcher.ShortLineRunsOut`).
- No token is tried on an empty rest, so a line that fits a template does not match it if its last
  piece is empty (`Matcher.ValidSplitIff`, `Matcher.EveryFitMatchesIff`, `Matcher.EmptyLineFails`).
- Using a name both as scalar and as array can fail or lose captures
  (`CaptureLaws.CollectIsFoldIff`, `CaptureLaws.ClassCastIff`, `FoldExact.ClashingLine`), and can
  keep array items that a scalar on a later line should have replaced (`FoldExact.ParseIsFoldIff`,
  `FoldExact.StaleTemplate`).
- Empty lines at the ends of a body are lost, at the end one by each of the two readers
  (`ResponseTemplates.ParsePrinted`, `ScriptLoader.KeptOfSectionIff`).
- A lookup of all WebSocket connections can list closed connections
  (`Registries.ClosedConnectionLeftBehind`, `Registries.NoLeftoversIff`).
- Message counters wrap around at 32 bits (`EventLog.LiveTally`, `EventLog.LiveTotal`); so does the
  length of a frame being discarded (`Frames.DroppedIsExactIff`).
- A delivered frame can exceed the maximum when the delimiter is left on it
  (`Frames.FramesFitIff`, `Frames.OverlongFrameDelivered`), and the late complaint about a long
  frame does not count the bytes before the delimiter in the last call (`Frames.LateComplaint`).
- If closing one bean throws, the beans after it are never closed (`BeanHistory.AllClosedIff`,
  `BeanHistory.SecondLeftOpen`), and a simulator being stopped keeps running without its beans
  (`Stopping.StopAndClose`).
- Above 18 digits the limit of the identifier counter overflows, and suffixes repeat too early for
  every width (`IdGenerator.DistinctIff`).

## Model

| member | source | states |
|---|---|---|
| Placeholders.ScanIffPlaceholder | src/main/java/io/github/lujian213/simulator/SimTemplate.java:143-144 | a span of text is a placeholder of the pattern's grammar if and only if scanning at its start finds that very span |
| Placeholders.NoOverlap | src/main/java/io/github/lujian213/simulator/SimTemplate.java:143-144 | no placeholder starts inside another one |
| Tokenizer.ParseTemplateLine | src/main/java/io/github/lujian213/simulator/SimTemplate.java:230-260 | the loop over the pattern's matches yields the tokens of the tokenization function, or its number-format failure |
| Tokenizer.TokenizeIffTiles | src/main/java/io/github/lujian213/simulator/SimTemplate.java:230-260 | a token list is the answer if and only if it tiles the line: contiguous spans, no empty literal, no two adjacent literals, no placeholder inside a literal; so the tiling exists at most once |
| Tokenizer.TokenizeFails | src/main/java/io/github/lujian213/simulator/SimTemplate.java:226-260 | tokenizing fails if and only if a placeholder of the line has a bound over 32 bits |
| Tokenizer.TextsAreTheLine | src/main/java/io/github/lujian213/simulator/SimTemplate.java:230-260 | the token texts concatenate to the line |
| Spelling.SpelledIsRead | src/main/java/io/github/lujian213/simulator/SimTemplate.java:226-260 | a placeholder written out from any name, array mark and bounds is read as the variable with exactly that name, mark and bounds |
| Matcher.ParseLine | src/main/java/io/github/lujian213/simulator/SimTemplate.java:263-300 | the recursive method with its loop over lengths gives the outcome (match, no match, exception) of the search specification |
| Matcher.MatchLineIsFirstEvent | src/main/java/io/github/lujian213/simulator/SimTemplate.java:263-300 | the outcome is the verdict on the lexicographically first event: the captures of that valid split, or out of range for an overrun |
| Matcher.NoMatchIffNoEvent | src/main/java/io/github/lujian213/simulator/SimTemplate.java:263-300 | no match if and only if there is neither a valid split nor an overrun; otherwise a first event exists |
| Matcher.FirstIsUnique | src/main/java/io/github/lujian213/simulator/SimTemplate.java:274-298 | there is only one first event, so the answer is determined by the splits alone |
| Matcher.OutcomeIff | src/main/java/io/github/lujian213/simulator/SimTemplate.java:263-300 | for every line and token list: a split is found if and only if the line has a valid split; out of range if and only if it has none but a probe can pass its end; no match otherwise |
| Matcher.UnboundedMatch | src/main/java/io/github/lujian213/simulator/SimTemplate.java:263-300 | without upper bounds nothing is out of range, so matching fails if and only if the line has no valid split |
| Matcher.OutOfRangeIff | src/main/java/io/github/lujian213/simulator/SimTemplate.java:274-278 | the substring exception is raised if and only if the line has no valid split and some probe passes its end, which is then the first event |
| Matcher.ShortLineRunsOut | src/main/java/io/github/lujian213/simulator/SimTemplate.java:230-278 | the template line of one placeholder for exactly three characters raises the exception on a line of two |
| Matcher.ValidSplitIff | src/main/java/io/github/lujian213/simulator/SimTemplate.java:263-300 | the matcher accepts exactly the cuts of a line into fitting pieces whose last piece is not empty |
| Matcher.EveryFitMatchesIff | src/main/java/io/github/lujian213/simulator/SimTemplate.java:263-300 | every line that can be cut into fitting pieces matches if and only if the template line is empty, its last token needs a character, or some bounds cannot be met by any line |
| Matcher.EmptyLineFails | src/main/java/io/github/lujian213/simulator/SimTemplate.java:230-268 | the template line of one unbounded placeholder does not match the empty line, which fits it |
| CaptureLaws.CollectKinds | src/main/java/io/github/lujian213/simulator/SimTemplate.java:276-296 | which names are bound, and to a scalar or an array, follows from the template alone, and recording fails exactly for templates that clash |
| CaptureLaws.ClassCastIff | src/main/java/io/github/lujian213/simulator/SimTemplate.java:263-300 | the class-cast exception is raised if and only if the line has a valid split and the template clashes; the match succeeds if and only if it has one and the template does not |
| CaptureLaws.MergedCollectIsFold | src/main/java/io/github/lujian213/simulator/SimTemplate.java:203-215 | recording right to left and merging into earlier lines equals folding left to right, if no scalar follows an array of its name |
| CaptureLaws.CollectIsFoldIff | src/main/java/io/github/lujian213/simulator/SimTemplate.java:276-296 | for one line and whatever the pieces are, the captures are the left-to-right fold if and only if no scalar follows an array of its name |
| CaptureLaws.RenderUndoesMatch | src/main/java/io/github/lujian213/simulator/SimTemplate.java:230-300 | for distinct scalar names, substituting the captures into the tokens, arrays in order, reproduces the matched line |
| Template.Init | src/main/java/io/github/lujian213/simulator/SimTemplate.java:217-224 | the token lists are those of the template's lines, or the first failure |
| Template.CompileIff | src/main/java/io/github/lujian213/simulator/SimTemplate.java:217-224 | a template compiles to the token lists of its lines one by one, and fails if and only if one of its lines cannot be tokenized |
| Template.Merge | src/main/java/io/github/lujian213/simulator/SimTemplate.java:203-215 | the loop over the source map appends arrays and overwrites scalars |
| Template.Parse | src/main/java/io/github/lujian213/simulator/SimTemplate.java:177-201 | the loop over content lines gives the outcome of the specification, of which `Template.ParseTextOutcome` says what it is for any text |
| Template.ParseSucceedsIff | src/main/java/io/github/lujian213/simulator/SimTemplate.java:177-201 | a text matches if and only if it has as many lines as the template and each line has a valid split by its template line, which does not clash |
| Template.ParseTextOutcome | src/main/java/io/github/lujian213/simulator/SimTemplate.java:168-201 | what any text gets back, decided at its first line that is missing, has no template line, or is not matched by it: a match if both end there, out of range or class cast if that line overruns or clashes, no match otherwise or without a text |
| Template.ParseIsFold | src/main/java/io/github/lujian213/simulator/SimTemplate.java:177-215 | with one kind per name, the result is one left-to-right fold over all captures of all lines: scalars overwritten, arrays appended |
| FoldExact.ParseIsFoldIff | src/main/java/io/github/lujian213/simulator/SimTemplate.java:177-215 | for any template whose text matches, the result is that fold if and only if no name keeps array items past a later scalar, a condition on the template alone |
| FoldExact.StaleTemplate | src/main/java/io/github/lujian213/simulator/SimTemplate.java:177-215 | a compiled template of two lines and a text that matches it with captures that are not the fold over all lines |
| FoldExact.ClashingLine | src/main/java/io/github/lujian213/simulator/SimTemplate.java:230-296 | a template line with a name as array and then as scalar raises the class-cast exception on a line it fits |
| Lines.ConcatContent | src/main/java/io/github/lujian213/simulator/util/SimUtils.java:312-328 | the buffer loop joins the lines by the delimiter |
| Lines.ReadJoined | src/main/java/io/github/lujian213/simulator/util/SimUtils.java:312-328 | reading lines undoes joining them, except that one empty line at the end is lost |
| Lines.LinesOfAnyBreak | src/main/java/io/github/lujian213/simulator/SimTemplate.java:181 | each of the three line breaks ends a line, a carriage return with its newline being one |
| ResponseTemplates.Init | src/main/java/io/github/lujian213/simulator/SimResponseTemplate.java:30-69 | the line loop fills code, headers and body as the specification says, with its failures |
| ResponseTemplates.ParsePrinted | src/main/java/io/github/lujian213/simulator/SimResponseTemplate.java:30-69 | a response printed with any body lines, joined into one text, gives back its code, trimmed headers and the body without its padding, which is the whole body if and only if it is not padded by empty lines |
| ResponseTemplates.BodyOfAnyInput | src/main/java/io/github/lujian213/simulator/SimResponseTemplate.java:30-60 | for any text that parses: if line n is the first empty one after the first line and line s the first that is not empty after it, the body is the join of the lines from s on; without an empty line it is empty |
| ResponseTemplates.CodeOfAnyLine | src/main/java/io/github/lujian213/simulator/SimResponseTemplate.java:61-68 | for any first line: the code is the number between its first space and the next or the end, so a line without a reason has one; there is none if only spaces follow the first space |
| Text.ParseIntForms | src/main/java/io/github/lujian213/simulator/SimResponseTemplate.java:63-65 | digits with at most one sign before them are a number if and only if it has 32 bits |
| Text.NoOtherNumber | src/main/java/io/github/lujian213/simulator/SimResponseTemplate.java:63-65 | no other text is a number |
| ResponseTemplates.HeaderOfAnyLine | src/main/java/io/github/lujian213/simulator/SimResponseTemplate.java:40-45 | a line with a colon sets the header named before the first one to what follows it without the blanks around, and a line without one sets nothing |
| ResponseTemplates.ResponseOfAnyLines | src/main/java/io/github/lujian213/simulator/SimResponseTemplate.java:30-69 | any lines are read as the code of the first and the headers of the lines with a colon before the first empty one, the last of a name counting; reading fails if and only if there is no code, with that error |
| RequestTemplates.Init | src/main/java/io/github/lujian213/simulator/SimRequestTemplate.java:68-112 | the line loop fills top line, headers, extra headers, authentication line and body as the specification says, or fails on the first bad line, which a pattern that does not compile is |
| RequestTemplates.ParsePrinted | src/main/java/io/github/lujian213/simulator/SimRequestTemplate.java:68-112 | a request printed with a top line that compiles and any body lines gives back its top line, its items with optional and internal markers, and the body without its padding, which is the whole body if and only if it is not padded |
| RequestTemplates.BodyOfAnyRequest | src/main/java/io/github/lujian213/simulator/SimRequestTemplate.java:68-112 | for any text that parses: the body is the join of the lines from the first that is not empty after the first empty line of the header area, and absent without such lines |
| RequestTemplates.TopOfAnyLine | src/main/java/io/github/lujian213/simulator/SimRequestTemplate.java:74-80 | for any first line: a pattern if and only if it stands between slashes and compiles, a reverse template if and only if it does not and compiles as one, and the error otherwise |
| RequestTemplates.RequestOfAnyLines | src/main/java/io/github/lujian213/simulator/SimRequestTemplate.java:68-112 | any lines are read as their first line and the items of the lines with a colon before the first empty one, in order; reading fails only with the error of the first line or of an item that cannot be compiled |
| RequestTemplates.FiledItems | src/main/java/io/github/lujian213/simulator/SimRequestTemplate.java:80-104 | under each kind stands exactly the last item of each name of that kind, and nothing of another kind |
| ScriptLoader.LoadReqResp | src/main/java/io/github/lujian213/simulator/SimScript.java:464-504 | the reader loop returns the sections up to the next separator and leaves exactly the lines after it unread, so a returned block has consumed input |
| ScriptLoader.Load | src/main/java/io/github/lujian213/simulator/SimScript.java:430-444 | the load loop terminates and gives the pairs of the specification, or its first failure |
| ScriptLoader.SectionsOfLaidOut | src/main/java/io/github/lujian213/simulator/SimScript.java:464-504 | reading up to a separator or the end returns exactly the sections laid out there, whatever empty line stands before the first and after each of them, and leaves what follows |
| ScriptLoader.EveryScript | src/main/java/io/github/lujian213/simulator/SimScript.java:430-504 | every text is a sequence of blocks of such sections between separators |
| ScriptLoader.LoadOutcome | src/main/java/io/github/lujian213/simulator/SimScript.java:430-504 | loading any blocks gives one rule for each, in order, up to the end or an empty block; it fails at the first other block, for a missing response if that has one section and with the error of its first unreadable section if it has more |
| ScriptLoader.MissingResponseIff | src/main/java/io/github/lujian213/simulator/SimScript.java:430-504 | a response is missing if and only if some block has exactly one section and every block before it is a readable rule |
| ScriptLoader.LoadPrintedRules | src/main/java/io/github/lujian213/simulator/SimScript.java:430-504 | a whole script printed from rules, each with or without an empty line before it, loads to those rules: every request and response of every rule, in order, bodies without padding |
| ScriptLoader.KeptOfSectionIff | src/main/java/io/github/lujian213/simulator/SimScript.java:490-504 | a body in a script comes back whole if and only if it is not padded by empty lines |
| RequestMatch.MatchRequest | src/main/java/io/github/lujian213/simulator/SimRequestTemplate.java:130-169 | the loop over the header map in any order gives the answer of some order, and a match exactly when the request is accepted |
| RequestMatch.MatchesIff | src/main/java/io/github/lujian213/simulator/SimRequestTemplate.java:130-169 | for every header order, a request matches if and only if the lines of each part that is not optional, the top line on one line, have valid splits by its template that do not clash, each optional part does too or just misses, and the body matches |
| RequestMatch.MatchOutcome | src/main/java/io/github/lujian213/simulator/SimRequestTemplate.java:130-169 | for every request and header order: a match binds each name as the last part that captures it does, and no other; a mismatch or an exception is that of the first part that does not pass, body and authentication line included |
| RequestMatch.EndsInOneWay | src/main/java/io/github/lujian213/simulator/SimRequestTemplate.java:130-169 | only one kind of answer fits the parts of a request, so these conditions hold in both directions |
| RequestMatch.AbsentHeader | src/main/java/io/github/lujian213/simulator/SimRequestTemplate.java:140-149 | a header the request does not have is accepted if and only if it is optional |
| RequestMatch.LinesOnOneLine | src/main/java/io/github/lujian213/simulator/SimRequestTemplate.java:132 | the top line is put on one line by a space for each line break, and is otherwise unchanged |
| RequestMatch.HeaderOrderIrrelevantIff | src/main/java/io/github/lujian213/simulator/SimRequestTemplate.java:142-153 | the header captures do not depend on the order if and only if headers that capture the same name capture the same value |
| RequestMatch.MatchOrderIrrelevant | src/main/java/io/github/lujian213/simulator/SimRequestTemplate.java:130-169 | then the whole answer, context included, is the same in every order |
| RuleSelection.GenResponse | src/main/java/io/github/lujian213/simulator/SimScript.java:519-549 | the loop over the pairs, accumulating the context, gives the result of the specification, which the laws below determine |
| RuleSelection.GenAnswersIff | src/main/java/io/github/lujian213/simulator/SimScript.java:519-549 | the answer is a list of responses if and only if some pair matches and yields exactly these, one per response template in order, and every earlier pair is passed over, in the context of the config and, for each earlier pair that matched, its captures and the convertor's |
| RuleSelection.GenNoRuleIff | src/main/java/io/github/lujian213/simulator/SimScript.java:519-549 | the no-match failure happens if and only if every pair is passed over |
| RuleSelection.GenFailsIff | src/main/java/io/github/lujian213/simulator/SimScript.java:519-549 | any other failure happens if and only if, all earlier pairs being passed over, matching a pair raises an exception or one of its responses fails before any asks to skip |
| RuleSelection.AnsweredByAccepting | src/main/java/io/github/lujian213/simulator/SimScript.java:519-549 | with request matching in place: the answer is a list of responses if and only if the first rule not passed over accepts the request and its response templates yield exactly these |
| RuleSelection.PassedOverIff | src/main/java/io/github/lujian213/simulator/SimScript.java:526-545 | a rule is passed over if and only if its first part that does not pass is a plain mismatch, or it accepts the request and a response asks to skip before any fails |
| RuleSelection.NearerRulesFirst | src/main/java/io/github/lujian213/simulator/SimScript.java:450-458 | inherited rules never change what a nearer rule decides, and otherwise see the context the nearer ones leave |
| RuleSelection.SimScript.GetEffectiveTemplatePairs | src/main/java/io/github/lujian213/simulator/SimScript.java:450-458 | the walk up the parents lists own pairs first, then those of each ancestor, nearest first |
| RuleSelection.RulesInTurn | src/main/java/io/github/lujian213/simulator/SimScript.java:450-458 | the rules of several ancestors are those of each in turn |
| RuleSelection.Respond | src/main/java/io/github/lujian213/simulator/SimScript.java:519-549 | a request to a script is answered by its own rules, then by those of its ancestors: what the nearest ones decide, no farther one changes |
| Registries.FirstClaimWins | src/main/java/io/github/lujian213/simulator/webbit/WebbitWSHandler.java:54-62 | in every run an open connection holds the id of its first claim |
| Registries.OpenIff | src/main/java/io/github/lujian213/simulator/webbit/WebbitWSHandler.java:85-106 | in every run a connection is open if and only if it was opened and not closed since |
| Registries.SeveredIff | src/main/java/io/github/lujian213/simulator/webbit/WebbitWSHandler.java:96-106 | the key of the unidentified is dropped if and only if some event closed the only unidentified connection |
| Registries.StaleIff | src/main/java/io/github/lujian213/simulator/webbit/WebbitWSHandler.java:54-62 | a connection is left over if and only if it claimed an id after the drop |
| Registries.NoLeftoversIff | src/main/java/io/github/lujian213/simulator/webbit/WebbitWSHandler.java:54-140 | lookups of all are exact if and only if no connection claims an id after a drop; always so when the key is never dropped |
| Registries.ClosedConnectionLeftBehind | src/main/java/io/github/lujian213/simulator/webbit/WebbitWSHandler.java:54-106 | a run of five events after which a closed connection is still listed |
| Connections.CloseKeeps | src/main/java/io/github/lujian213/simulator/webbit/WebbitWSHandler.java:96-106 | closing leaves in each bucket exactly the connections that belong there, each once, and drops an emptied key |
| Connections.ClaimKeeps | src/main/java/io/github/lujian213/simulator/webbit/WebbitWSHandler.java:54-62 | a claim keeps the buckets exact, with the alias or, after a drop, with the left-over entry in the unidentified bucket only |
| Connections.AllListed | src/main/java/io/github/lujian213/simulator/webbit/WebbitWSHandler.java:122-131 | over all buckets every open connection is listed once and every left-over one once more |
| Connections.ConnectionBundle.constructor | src/main/java/io/github/lujian213/simulator/webbit/WebbitWSHandler.java:78-83 | a new bundle is valid and its unidentified bucket is the very list it also holds directly |
| Connections.ConnectionBundle.AddConnection | src/main/java/io/github/lujian213/simulator/webbit/WebbitWSHandler.java:85-94 | the connection goes to the end of the bucket of its id, a new list if there was none, and no other list changes |
| Connections.ConnectionBundle.SetId | src/main/java/io/github/lujian213/simulator/webbit/WebbitWSHandler.java:54-62 | the first claim moves the connection from the directly held list to the bucket of its id; the invariant holds after it, drop or no drop |
| Connections.ConnectionBundle.RemoveConnection | src/main/java/io/github/lujian213/simulator/webbit/WebbitWSHandler.java:96-106 | closing takes the connection out of its bucket; the invariant holds after it and the alias ends exactly when the unidentified bucket empties |
| Connections.ConnectionBundle.FindConnection | src/main/java/io/github/lujian213/simulator/webbit/WebbitWSHandler.java:108-120 | finds the wrapper of every open connection, and one at all exactly for open or left-over ones |
| Connections.ConnectionBundle.FindConnections | src/main/java/io/github/lujian213/simulator/webbit/WebbitWSHandler.java:122-140 | for an id: exactly the open connections holding it, each once, null if and only if there are none; for the all-marker: the open ones once each, plus the left-over ones once each |
| Connections.Replay | src/main/java/io/github/lujian213/simulator/webbit/WebbitWSHandler.java:182-275 | a new bundle handling any legal run ends valid, in the state of the run |
| LifecycleSpec.CountersAreExact | src/main/java/io/github/lujian213/simulator/monitor/MessageCounter.java:64-92 | after any run of start, stop, refresh, restart and messages, a running simulator's counter exists and shows, in 32 bits, the messages handled since its latest start |
| LifecycleSpec.OthersUntouched | src/main/java/io/github/lujian213/simulator/SimulatorRepository.java:116-146 | refresh, and any action on other names, neither stops a running simulator nor changes its counts |
| LifecycleSpec.LoadAllLaw | src/main/java/io/github/lujian213/simulator/SimulatorRepository.java:116-146 | loading scripts keeps every simulator there is, makes one stopped simulator for each other name, reports each once, and goes through if and only if each script that is the first of a free name can be built |
| LifecycleSpec.FoundFirst | src/main/java/io/github/lujian213/simulator/SimulatorRepository.java:148-172 | restarting takes the first script of the name |
| EventLog.LiveTally | src/main/java/io/github/lujian213/simulator/monitor/MessageCounter.java:64-92 | for any history that last started a name, its two counters are the successes and failures since then |
| EventLog.TallyIff | src/main/java/io/github/lujian213/simulator/monitor/MessageCounter.java:64-92 | for any history and name: a counter stands if and only if the name was made or started and not stopped since, and shows the messages since then |
| EventLog.LiveTotal | src/main/java/io/github/lujian213/simulator/monitor/MessageCounter.java:43-50 | successes plus failures shown is the number of messages since the start if and only if neither count exceeds 32 bits |
| Monitoring.MessageCounter.On | src/main/java/io/github/lujian213/simulator/monitor/MessageCounter.java:64-92 | after an event the counter table shows the replay of the history with that event |
| Monitoring.ListenerProxy.On | src/main/java/io/github/lujian213/simulator/monitor/SimulatorListenerProxy.java:26-64 | for any set of registered listeners, each is told the event once, and no other listener is |
| Monitoring.ListenerHub.FireEvent | src/main/java/io/github/lujian213/simulator/util/ListenerHub.java:74-93 | every listener behind any set of fixed proxies that share none, and every floating listener, is told once; no other floating listener is told |
| Monitoring.Monitor.ReportCreated | src/main/java/io/github/lujian213/simulator/SimulatorRepository.java:138-146 | making a simulator resets its own counter, and registering the shared counter again changes nothing else |
| Repository.SimSimulator.Start | src/main/java/io/github/lujian213/simulator/SimSimulator.java:41-82 | runs exactly if it ran or the transport and every configured listener start; reports one start if it was not running, and then has exactly the configured listeners besides those it had; a failure leaves it stopped without listeners |
| Repository.SimSimulator.Stop | src/main/java/io/github/lujian213/simulator/SimSimulator.java:84-103 | stopped, reported once and stripped of listeners even if the transport's stop throws, unless closing the beans throws |
| Stopping.StopAndClose | src/main/java/io/github/lujian213/simulator/SimSimulator.java:84-103 | with the bean repository in place: stopping goes through if and only if no listening bean of the simulator throws when closed; otherwise the simulator keeps running and its beans are gone |
| Repository.SimSimulator.GetRunningURL | src/main/java/io/github/lujian213/simulator/SimSimulator.java:109-115 | there is an address only while running |
| Repository.SimulatorRepository.StartSimulator | src/main/java/io/github/lujian213/simulator/SimulatorRepository.java:88-100 | done if and only if the name is registered and ran or starts well, and then it runs; one start is reported if and only if it did not run before; missing if and only if not registered; others stay, and the invariant holds, failures included |
| Repository.SimulatorRepository.StopSimulator | src/main/java/io/github/lujian213/simulator/SimulatorRepository.java:102-114 | the name stops running unless closing its beans throws; one stop is reported if and only if it ran and stops; others stay, and the invariant holds, failures included |
| Repository.SimulatorRepository.Refresh | src/main/java/io/github/lujian213/simulator/SimulatorRepository.java:116-136 | stopped simulators go, missing names of the scripts are made again and are stopped, running ones stay the same objects; done if and only if every script needed can be built; the invariant holds also when a script fails half way |
| Repository.SimulatorRepository.RestartSimulator | src/main/java/io/github/lujian213/simulator/SimulatorRepository.java:148-172 | done if and only if the name could be stopped, a script of it can be built and starts well, and then a new object runs under the name; the stop, making and start are reported as far as it came; other names keep their objects, and no running simulator is orphaned |
| Repository.SimulatorRepository.Perform | src/main/java/io/github/lujian213/simulator/SimulatorRepository.java:88-172 | any action of a run takes the valid repository to the specified state and keeps it valid |
| Repository.Replay | src/main/java/io/github/lujian213/simulator/SimulatorRepository.java:88-172 | a new repository performing any run of start, stop, refresh, restart and messages, with any of them failing, ends valid and in the state of the run |
| Repository.SimulatorRepository.OneRunningPerName | src/main/java/io/github/lujian213/simulator/SimulatorRepository.java:88-172 | two running simulators of one name, among all ever made, are the same object, the registered one |
| Repository.SimulatorRepository.CounterOfRunning | src/main/java/io/github/lujian213/simulator/monitor/MessageCounter.java:64-92 | in a valid state of a run, a running simulator's counter object exists and shows its messages since its latest start |
| Paths.PathOfName | src/main/java/io/github/lujian213/simulator/util/ZipFileVisitor.java:72-90 | the path of a name counts runs of slashes once and drops one at the end |
| Paths.ParentOfPath | src/main/java/io/github/lujian213/simulator/util/ZipFileVisitor.java:72-90 | the parent of a path is what stands before its last part, the root directory or nothing at the top |
| ZipWalk.TakeChildren | src/main/java/io/github/lujian213/simulator/util/ZipFileVisitor.java:72-90 | one pass over the shared list removes the children of a root, hands its files to the handler and returns its directories |
| ZipWalk.HandleOneLevelDown | src/main/java/io/github/lujian213/simulator/util/ZipFileVisitor.java:72-96 | the recursion terminates and makes the calls, and leaves the list, of the walk; comparing parents is safe because no top-level entry is left when the root is not null |
| ZipWalk.Visit | src/main/java/io/github/lujian213/simulator/util/ZipFileVisitor.java:60-70 | visiting any list of entries terminates and makes the calls of the walk from the top |
| ZipWalk.WalkLeavesUnreached | src/main/java/io/github/lujian213/simulator/util/ZipFileVisitor.java:72-96 | what stays on the list is, in order, exactly what no root reaches |
| ZipWalk.WalkConserves | src/main/java/io/github/lujian213/simulator/util/ZipFileVisitor.java:72-96 | every entry is handled exactly once or stays on the list |
| ZipWalk.VisitHandles | src/main/java/io/github/lujian213/simulator/util/ZipFileVisitor.java:60-96 | each entry whose ancestor directories are all entries is handled exactly once, and no other entry |
| ZipWalk.VisitOrder | src/main/java/io/github/lujian213/simulator/util/ZipFileVisitor.java:60-96 | at every call the handler's parent is the entry's own directory, handled before |
| FolderScan.PrepareFiles | src/main/java/io/github/lujian213/simulator/manager/SimulatorFolder.java:102-112 | the scan collects, in order, the entries that pass its name test |
| FolderScan.PrepareSimulatorFolder | src/main/java/io/github/lujian213/simulator/manager/SimulatorFolder.java:101-119 | the recursion over sub-scripts builds the folder of the specification, with the name prefix extended at every level |
| FolderScan.ScannedIffLies | src/main/java/io/github/lujian213/simulator/manager/SimulatorFolder.java:101-119 | for normalised names the string-prefix test holds exactly for script files lying directly in the directory |
| FolderScan.ScanAgreesWithWalk | src/main/java/io/github/lujian213/simulator/manager/SimulatorFolder.java:101-172 | for every directory the walk reaches, the scan collects exactly the files the walk hands over under it |
| FolderScan.FoldersAgreeWithWalk | src/main/java/io/github/lujian213/simulator/manager/SimulatorFolder.java:101-172 | at every depth of a script tree made from the archive's directories, the folder built by prefixes holds exactly the files the walk hands over under that directory |
| ZipFolders.FolderHandler.HandleDir | src/main/java/io/github/lujian213/simulator/manager/SimulatorFolder.java:149-155 | a directory becomes a new folder at the end of its parent's sub-folders; every other folder stays as it was |
| ZipFolders.FolderHandler.HandleFile | src/main/java/io/github/lujian213/simulator/manager/SimulatorFolder.java:157-170 | a file of a kept kind goes to the end of its parent's files, and any other file changes no folder |
| ZipFolders.FolderOfZip | src/main/java/io/github/lujian213/simulator/manager/SimulatorFolder.java:138-173 | the walk builds a folder object for exactly the archive itself and the directories it reaches, each with the files and sub-folders of the calls made under it |
| ZipFolders.FolderHolds | src/main/java/io/github/lujian213/simulator/manager/SimulatorFolder.java:138-173 | those are, for every directory, exactly the archive's files of a kept kind and its directories directly in it |
| ZipFolders.ScanFindsFolder | src/main/java/io/github/lujian213/simulator/manager/SimulatorFolder.java:101-173 | the scan by name prefixes finds exactly the files of that folder, but for the ignore files |
| Frames.NearestIff | src/test/java/io/github/lujian213/simulator/socket/CustomFrameDecoder.java:69-81 | the loop's choice is a match that starts before those of earlier patterns and no later than those of later ones; none if and only if there is no match |
| Frames.RunConserves | src/test/java/io/github/lujian213/simulator/socket/CustomFrameDecoder.java:69-132 | over any sequence of decode calls, every byte is once and in order part of a frame, a delimiter, what was discarded, or unread |
| Frames.RunSound | src/test/java/io/github/lujian213/simulator/socket/CustomFrameDecoder.java:69-132 | in every run: delivered frames are those of the pieces; while discarding the buffer is drained and the field is the 32-bit view of the bytes dropped, more than the maximum; each long frame is complained about exactly once |
| Frames.DroppedIsExactIff | src/test/java/io/github/lujian213/simulator/socket/CustomFrameDecoder.java:114-130 | the field is the number of bytes dropped since discarding began if and only if that fits in 32 bits |
| Frames.LateComplaint | src/test/java/io/github/lujian213/simulator/socket/CustomFrameDecoder.java:86-98 | the late complaint gives the frame's whole length if and only if the delimiter comes first in the last buffer |
| Frames.ComplaintLength | src/test/java/io/github/lujian213/simulator/socket/CustomFrameDecoder.java:83-132 | in every run, when a call complains, and of which length: the bytes at hand where discarding starts, the dropped ones where it ends, the bytes before the delimiter for a long frame that is complete |
| Frames.FramesFitIff | src/test/java/io/github/lujian213/simulator/socket/CustomFrameDecoder.java:100-112 | every frame of every run keeps to the maximum if and only if delimiters are stripped or no byte string has a nearest delimiter that starts within the maximum and ends beyond it |
| Frames.OverlongFrameDelivered | src/test/java/io/github/lujian213/simulator/socket/CustomFrameDecoder.java:100-112 | a run of one chunk with a one-byte delimiter left on that delivers a frame over the maximum |
| Frames.ChunkingIrrelevant | src/test/java/io/github/lujian213/simulator/socket/CustomFrameDecoder.java:69-132 | for delimiters recognised wherever the stream is cut, the delivered frames are a prefix of those of the whole stream, and all of them once no delimiter is unread, whatever the chunks |
| Frames.OneByteIsIncremental | src/test/java/io/github/lujian213/simulator/socket/CustomFrameDecoder.java:134-158 | a one-byte delimiter is recognised wherever the stream is cut |
| FrameDecoding.FrameDecoder.FindDelimiter | src/test/java/io/github/lujian213/simulator/socket/CustomFrameDecoder.java:70-81 | start and length of the nearest delimiter, or length -1 |
| FrameDecoding.FrameDecoder.Decode | src/test/java/io/github/lujian213/simulator/socket/CustomFrameDecoder.java:69-132 | the fields, the unread bytes and the outcome (frame, exception, nothing) are those of the decode specification |
| FrameDecoding.Replay | src/test/java/io/github/lujian213/simulator/socket/CustomFrameDecoder.java:69-132 | a new decoder called after each chunk gives the outcomes and unread bytes of the run |
| BeanRepositories.BeanRepository.AddBean | src/main/java/io/github/lujian213/simulator/util/BeanRepository.java:52-75 | returns the current bean if there is one, otherwise makes one with a new identity; nothing is kept if making it throws |
| BeanRepositories.BeanRepository.RemoveSimulatorBeans | src/main/java/io/github/lujian213/simulator/util/BeanRepository.java:103-115 | exactly the simulator's current beans are removed and closed in some order, up to the first closing that throws |
| BeanHistory.OneBeanBetweenRemovals | src/main/java/io/github/lujian213/simulator/util/BeanRepository.java:52-115 | between two beans of one simulator and class lies a removal of the simulator's beans |
| BeanHistory.CurrentStays | src/main/java/io/github/lujian213/simulator/util/BeanRepository.java:52-75 | until the simulator's beans are removed, its current bean of a class stays the same |
| BeanHistory.ClosedIsGone | src/main/java/io/github/lujian213/simulator/util/BeanRepository.java:103-115 | a closed bean was made before and is never current again |
| BeanHistory.ClosedAtMostOnce | src/main/java/io/github/lujian213/simulator/util/BeanRepository.java:103-115 | no bean is closed twice |
| BeanHistory.AllClosedIff | src/main/java/io/github/lujian213/simulator/util/BeanRepository.java:108-114 | every listening bean is closed if and only if none that throws is followed by another |
| BeanHistory.SecondLeftOpen | src/main/java/io/github/lujian213/simulator/util/BeanRepository.java:108-114 | two listening beans of which the first throws and the second is never closed |
| IdGenerator.SuffixDigits | src/main/java/io/github/lujian213/simulator/util/SimUtils.java:71-90 | for every width every suffix has exactly that many digits and reads as the call's number modulo the period |
| IdGenerator.SuffixesRepeatIff | src/main/java/io/github/lujian213/simulator/util/SimUtils.java:71-90 | for every width two calls get the same suffix if and only if a multiple of the period lies between them |
| IdGenerator.DistinctIff | src/main/java/io/github/lujian213/simulator/util/SimUtils.java:71-90 | any 10^k - 1 consecutive suffixes are distinct if and only if the width k is at most 18 |
| IdGenerator.NineteenDigitsStuck | src/main/java/io/github/lujian213/simulator/util/SimUtils.java:71-90 | with 19 digits the counter is always zero |
| IdGenerator.Generator.NextID | src/main/java/io/github/lujian213/simulator/util/SimUtils.java:81-90 | the n-th call appends the n-th suffix |

## Left out

- Transport (HTTP, WebSocket and socket servers, messaging, file monitoring, proxying, TLS): starting and stopping it are steps that may succeed or throw.
- Response generation by Velocity, Groovy and Java classes, and body matching by XPath, JSON paths and regular expressions: parameters that answer with an outcome. The model of rule selection therefore says nothing about what a response contains.
- Regular-expression templates (`SimRegexTemplate`) and regular expressions in general: parameters; only the fixed placeholder pattern is modelled, for ASCII digits.
- Files, zip decompression, property files, class loading, character sets, clocks and logging. Lines of text are read as by a line reader over `\n`, `\r` and `\r\n`.
- Threads: every operation under a lock is one step.
- What user-written listeners do with an event: fixed ones are modelled by message counters, floating ones by the events they were told; exceptions they raise are caught and logged.
- Loading a script folder into a script, with its `lib` and ignored folders; a failure to load is a parameter of refresh and restart.
- Folder-backed `SimulatorFolder`, and path separators other than `/`.
- ZipFolders.FolderOfZip: archives that list one directory path twice, for which the walk wraps both entries apart.
- Monitoring.ListenerHub.FireEvent: fixed proxies that share a listener, which is told once by each.
- WebSocket callbacks for a connection that never got a wrapper, which dereference null, and opening the same connection twice.
- Connections.ConnectionBundle.FindConnections: the returned list is a copy, so a caller's changes to it are not modelled.
- Repository.Replay: messages go to names registered at the time; a message that still reaches a simulator already replaced is covered by `Repository.SimulatorRepository.HandleMessage` alone.
- The start time kept by a message counter.
- A bean's constructor that itself asks the repository for beans; the wiring of constructor and method parameters by annotations.
- Frames.ChunkingIrrelevant: not claimed for patterns that can match more when more bytes arrive, such as `10=.*`.
- IdGenerator.Generator.NextID: a width of 0 is rejected by the format string and excluded by a precondition.
