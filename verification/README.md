# Termweave: a verified model of its protocols and parsers

This project models, in Dafny, the parts of the repository where behaviour is decided by state,
recursion or interleaving, and proves what they are relied on for:

- the "when" language of keybinding rules (tokenizer, depth-limited parser over a shared index,
  printer, evaluator) and the shortcut text beside it, with the start-up merge of default rules;
- `WsTransport`, the reconnecting request/response transport;
- the IPv6 text parser behind `isLoopbackHost` (sections 2.2 and 2.5 of RFC 4291);
- settings persistence: the sparse file format and the split of sensitive variables into a secret
  store (base64url as in section 5 of RFC 4648);
- workspace search: bounded top-k by binary insertion, greedy subsequence scoring, the cooperative
  worker pool, and listings read from output that may have been cut;
- the terminal client's message queue, one Codex app-server session over JSON-RPC, and the SSH
  attach that keeps a tunnel up;
- the views derived from a thread's activities: pending approvals, pending user inputs, work log.

Code that changes state step by step is modelled by classes and loops with invariants, proved
against specification functions; the theorems are about those functions and about histories.
Where a protocol has a history, it is a datatype with the newest entry outermost: a method's
`ensures` says what it appends, a `Lawful` (or `Legal`) history obeys local rules, and the
whole-run theorems are proved by induction over lawful histories.

Results where the code and what one might expect of it differ:

- Filling a stripped settings tree from the defaults gives the tree back if and only if the tree
  has the default keys at every struct level (`SparseSettings.SparseRoundTrip`).
- When variable names repeat inside an instance a newly supplied sensitive value can be lost;
  `ProviderSecrets.SuppliedIsReturnedExactly` says exactly when it is not.
- An empty output chunk that arrives when the limit has been reached sets the truncation flag
  although nothing is lost (`ProcessOutput.FlaggedWithoutLoss`); the flag is right exactly when
  bytes were lost or there was no such chunk (`ProcessOutput.FlagIsLossExactly`).
- Moving a queued message works on the queue of all threads, not on the thread's own: it changes
  the thread's order exactly when its neighbour belongs to the same thread, and where messages
  were in their order of enqueueing it leaves them so exactly when it does not
  (`MessageQueue.MoveKeepsOrderExactly`).
- When a Codex request cannot be written its promise is rejected but the request stays registered
  until its timer fires, so pending and settled requests overlap in exactly those
  (`CodexSession.ReachableState`). When the Codex process exits by itself nothing is settled: open
  requests wait for their timeouts and open approvals can no longer be answered.

## Model

| member | source | states |
|---|---|---|
| WhenGrammar.RecognizesExactly | apps/server/src/keybindings.ts:216-299 | the recursive descent returns a derivation with nothing left over exactly when that derivation derives the token list within the depth limits |
| WhenGrammar.Unambiguous | apps/server/src/keybindings.ts:216-299 | a token list has at most one derivation in the grammar, whatever the limits |
| WhenGrammar.DisjunctionReading | apps/tui/src/keybindings.ts:89-102 | the left-associated tree of a disjunction is true exactly when some alternative is |
| WhenGrammar.ConjunctionReading | apps/tui/src/keybindings.ts:89-102 | the left-associated tree of a conjunction is true exactly when every part is |
| WhenGrammar.NegationReading | apps/tui/src/keybindings.ts:89-102 | n negations flip the value exactly when n is odd |
| WhenGrammar.IdentifierReading | apps/tui/src/keybindings.ts:89-94 | "true" and "false" are constants, every other name has the value looked up |
| WhenTokenizer.TokenizeWhenExpression | apps/server/src/keybindings.ts:167-214 | the scanning loop computes the token list of the text, or null |
| WhenTokenizer.LayoutRead | apps/server/src/keybindings.ts:167-214 | every layout of a token list, with blanks wherever the language allows them, is read back as that list |
| WhenTokenizer.ReadIsLayout | apps/server/src/keybindings.ts:167-214 | whatever the tokenizer accepts is a layout of the tokens it returns |
| WhenParser.Parser.ParsePrimary | apps/server/src/keybindings.ts:221-245 | advances the shared index over one primary and returns its tree, or fails, as the grammar and the nesting limit say |
| WhenParser.Parser.ParseUnary | apps/server/src/keybindings.ts:247-266 | counts at most 64 negations and wraps the primary in them |
| WhenParser.Parser.ParseAnd | apps/server/src/keybindings.ts:268-280 | the loop builds the left-associated tree of a conjunction |
| WhenParser.Parser.ParseOr | apps/server/src/keybindings.ts:282-294 | the loop builds the left-associated tree of a disjunction |
| WhenParser.WhenTreeIsUnique | apps/server/src/keybindings.ts:216-299 | the tree of a text is that of any of its derivations within the limits |
| WhenParser.ParseKeybindingWhenExpression | apps/server/src/keybindings.ts:216-299 | returns the tree of the text's derivation, and null exactly when it has none |
| WhenParser.RoundTrip | apps/server/src/keybindings.ts:413-424 | printing a lexically valid tree and parsing the text gives the tree if its height is at most 64, and null if it is greater |
| Shortcuts.ParseKeybindingShortcut | apps/server/src/keybindings.ts:103-165 | the loop over tokens finds exactly one key and the modifiers given, or fails |
| Shortcuts.KindExactly | apps/server/src/keybindings.ts:96-160 | which tokens name which modifier, and that "space" and "esc" are the only keys renamed |
| Shortcuts.ParsedIsCanonical | apps/server/src/keybindings.ts:103-165 | the key of every parsed shortcut is in canonical form |
| Shortcuts.CanonicalRoundTrip | apps/server/src/keybindings.ts:400-411 | every shortcut with a canonical key is printed, and read back unchanged |
| Shortcuts.RoundTrip | apps/server/src/keybindings.ts:400-411 | parse(encode(parse(v))) = parse(v) whenever v parses |
| ShortcutContexts.SameContextExactly | apps/server/src/keybindings.ts:385-398 | any two rules share a context exactly when their parsed shortcuts and conditions agree, or the NUL of one context lies inside the printed shortcut of the other |
| ShortcutContexts.SameContextOfCompiled | apps/server/src/keybindings.ts:385-398 | rules whose conditions tokenize, as those of every compiled rule do, share a context exactly when their parsed shortcuts and conditions agree |
| ShortcutContexts.SameContextOfPlainKeys | apps/server/src/keybindings.ts:385-398 | so do rules whose keys hold no NUL, whatever their conditions |
| ShortcutContexts.CompiledDoNotStraddle | apps/server/src/keybindings.ts:385-398 | the second case of SameContextExactly never occurs for rules whose conditions tokenize |
| ShortcutContexts.TokenizedHasNoNul | apps/server/src/keybindings.ts:167-214 | a condition the tokenizer accepts holds no NUL |
| ShortcutContexts.StraddlingExample | apps/server/src/keybindings.ts:385-398 | as a statement about texts the second case is not empty; by CompiledDoNotStraddle no compiled rule reaches it |
| KeybindingSync.SyncDefaultKeybindingsOnStartup | apps/server/src/keybindings.ts:738-826 | absent file: all defaults are written; issues: nothing is; otherwise the user's rules followed by the missing, unblocked defaults, and beyond 256 rules exactly the oldest user rules go |
| KeybindingSync.EveryDefaultAccountedFor | apps/server/src/keybindings.ts:763-826 | untruncated: the user's rules are a prefix, every default command is bound or its rule blocked by a user rule, and nothing else is added |
| KeybindingSync.MissingInOrder | apps/server/src/keybindings.ts:763-826 | each default whose command is missing and whose context is free is added in its place, nothing else is |
| KeybindingSync.BlockedExactly | apps/server/src/keybindings.ts:772-775 | for rules that compile, a default is blocked exactly when some user rule has its parsed shortcut and its condition |
| KeybindingSync.StartupAccountsForEveryDefault | apps/server/src/keybindings.ts:738-826 | end to end for rules that compile, untruncated: the user's rules are a prefix; every default command is bound, or its shortcut taken under its condition by a user rule; whatever was added is a default with both free |
| KeybindingSync.SyncIsIdempotent | apps/server/src/keybindings.ts:738-826 | untruncated: synchronising the synchronised configuration changes nothing |
| WsHistory.Conservation | packages/client-core/src/wsTransport.ts:144-176 | issued ids are the disjoint union of outstanding and settled ones; unwritten ids are ascending and above all written ones; live timers are those of outstanding requests that have one |
| WsHistory.WholeRun | packages/client-core/src/wsTransport.ts:157-176 | over a whole run ids are issued and written in strictly increasing order, none is written twice, and nothing is written or settled after it has been settled |
| WsTransport.Transport.constructor | packages/client-core/src/wsTransport.ts:123-131 | a new transport is connecting, with nothing pending |
| WsTransport.Transport.Request | packages/client-core/src/wsTransport.ts:144-176 | rejects an empty method; otherwise the next id is pending and is written at once when the socket is open, queued last when not |
| WsTransport.Transport.Dispose | packages/client-core/src/wsTransport.ts:218-237 | every pending promise is settled once, the queue is emptied, the socket is closed and let go, no timer remains |
| WsTransport.Transport.StopReconnecting | packages/client-core/src/wsTransport.ts:239-252 | the same, socket closed, with the state suspended; a no-op when disposed or suspended |
| WsTransport.Transport.Reconnect | packages/client-core/src/wsTransport.ts:254-265 | closes the stale socket and starts a fresh first attempt on a new one without settling anything; a no-op when disposed, open or connecting |
| WsTransport.Transport.SocketOpens | packages/client-core/src/wsTransport.ts:285-300 | the current socket flushes the queue in order; the open event of a superseded one, arriving after it was told to close, changes nothing |
| WsTransport.Transport.SocketMessage | packages/client-core/src/wsTransport.ts:302-306 | a response on the current socket, closing or not, settles its pending request once; unknown ids and messages of superseded sockets change nothing |
| WsTransport.Transport.SocketCloses | packages/client-core/src/wsTransport.ts:308-321 | losing the current socket settles everything and arms one timer with the next delay; a superseded socket's close changes nothing |
| WsTransport.Transport.RequestTimeout | packages/client-core/src/wsTransport.ts:161-170 | a live timeout settles its request and takes it out of the queue |
| WsTransport.Transport.ReconnectTimerFires | packages/client-core/src/wsTransport.ts:418-429 | a live reconnect timer exists only in the closed state and leads to reconnecting |
| WsTransport.ReachableState | packages/client-core/src/wsTransport.ts:144-176 | in every reachable state: pending and settled partition the ids; outside open the queue is exactly the pending ids in ascending order; never both socket and timer; every superseded socket is closing or closed |
| WsTransport.ReconnectDelayExactly | packages/client-core/src/wsTransport.ts:418-421 | the delay is half a second, doubled with every attempt up to eight seconds |
| WsTransport.Run | packages/client-core/src/wsTransport.ts:117-429 | whatever order calls, socket events and timers come in, the invariant and the lawful history hold |
| HostAddress.ParseIpv6Side | apps/server/src/config.ts:14-38 | the loop over segments computes the groups of one side, or fails, whatever `Number` reads in a dotted part |
| HostAddress.ParseIpv6Groups | apps/server/src/config.ts:40-50 | returns the eight groups of the text, or fails |
| HostAddress.TextIsRead | apps/server/src/config.ts:40-50 | every text form of an address (leading zeros, either case, one "::", dotted-decimal tail) is read as its groups, given that `Number` reads decimal octets |
| HostAddress.OneAddressPerText | apps/server/src/config.ts:40-50 | no text is a form of two addresses |
| HostAddress.PackedOctets | apps/server/src/config.ts:31-31 | on octets the shift and the bitwise or are multiplication by 256 and addition |
| HostAddress.AcceptedExactly | apps/server/src/config.ts:14-50 | for every `Number` function: the parser by itself returns an address exactly for texts of section 2.2 with a wider notion of quad, namely four or more parts of which `Number` reads the first four as integers up to 255 |
| HostAddress.DotlessExactly | apps/server/src/config.ts:14-50 | text without a dot is accepted exactly when it is a form of the address returned |
| HostAddress.LoopbackByValue | apps/server/src/config.ts:64-69 | the test on the groups holds exactly for the values ::1 and IPv4-mapped 127/8 |
| HostAddress.LoopbackDependsOnValue | apps/server/src/config.ts:52-70 | for every text form of an address, with any case, brackets, zone and blanks around it, the answer is that of its value |
| HostAddress.LoopbackExactly | apps/server/src/config.ts:52-70 | for every host, when the platform classifies only texts of section 2.2 as IPv6: loopback exactly for "localhost", IPv4 text beginning with 127, and IPv6 text of a loopback value |
| Base64Url.EncodeInjective | apps/server/src/serverSettings.ts:68-73 | base64url of ASCII text determines the text |
| Base64Url.EncodeBits | apps/server/src/serverSettings.ts:68-73 | at every third character the text goes on with the base-64 spelling of the bits of the next block, padded with zeros at the end |
| Base64Url.DigitExactly | apps/server/src/serverSettings.ts:68-73 | the digits are those of the URL-safe alphabet, in its order |
| Base64Url.DashExactly | apps/server/src/serverSettings.ts:68-73 | base64url of ASCII text contains "-" exactly when some third character is ">" or "~" |
| SecretNames.NoDash | packages/contracts/src/providerInstance.ts:11-19 | base64url of a valid instance id or variable name never contains "-" |
| SecretNames.SecretNameInjective | apps/server/src/serverSettings.ts:68-73 | different (instance, variable) pairs have different secret names |
| ProviderSecrets.SettingsService.Persist | apps/server/src/serverSettings.ts:341-423 | the loops compute the persisted settings and the new store, stale secrets removed |
| ProviderSecrets.SettingsService.Materialize | apps/server/src/serverSettings.ts:300-339 | the loops fill redacted variables from the store |
| ProviderSecrets.SettingsService.UpdateSettings | apps/server/src/serverSettings.ts:520-535 | an update keeps the store within the sensitive variables of the settings it leaves behind and returns those settings materialised |
| ProviderSecrets.SecretsAreCurrent | apps/server/src/serverSettings.ts:341-423 | after any run of updates a variable has a secret only while the current settings hold it as sensitive |
| ProviderSecrets.PersistedHoldsNoSecret | apps/server/src/serverSettings.ts:341-400 | whatever the next settings are, no sensitive variable of what is written has a value |
| ProviderSecrets.FileHoldsNoSecret | apps/server/src/serverSettings.ts:520-535 | over any run of updates the settings file never holds a sensitive value |
| ProviderSecrets.UpdateReturns | apps/server/src/serverSettings.ts:300-423 | with unique names each variable returned has the value supplied or, when redacted, the secret stored before |
| ProviderSecrets.RestIsKept | apps/server/src/serverSettings.ts:300-423 | whatever is updated: ids, names, sensitivity, plain values and all other fields are written and returned unchanged, and a variable is flagged as redacted exactly when a secret was given for it |
| ProviderSecrets.SuppliedIsReturnedExactly | apps/server/src/serverSettings.ts:341-400 | names unique or not: a newly supplied sensitive value is returned exactly when the last variable of that name that is not redacted is sensitive with the same value |
| ProviderSecrets.RedactedSecretSurvives | apps/server/src/serverSettings.ts:520-535 | over any run of updates that each hold a sensitive variable and give it no new value, its secret stays as it was, whatever else changes |
| ProviderSecrets.DuplicateNamesLoseValue | apps/server/src/serverSettings.ts:341-400 | a sensitive value followed by a plain variable of the same name is lost |
| SparseSettings.StripDefaultServerSettings | apps/server/src/serverSettings.ts:192-229 | the recursive loops compute the part of the tree that differs from the defaults |
| SparseSettings.StrippedIsSparse | apps/server/src/serverSettings.ts:192-229 | what is written is sparse and made of current values: at every struct level each key kept is unknown to the defaults, differs from its default, or is a non-empty struct that is itself sparse |
| SparseSettings.OnlySparse | apps/server/src/serverSettings.ts:192-229 | a sparse tree read back and stripped again is itself, so only one sparse tree is read back as the current settings |
| SparseSettings.SparseRoundTrip | apps/server/src/serverSettings.ts:192-229 | filling the stripped tree from the defaults gives the tree back if and only if it has the default keys at every struct level |
| SparseSettings.NothingLeftExactly | apps/server/src/serverSettings.ts:192-229 | nothing is left exactly when every field agrees with its default, atomic keys compared as a whole |
| SparseSettings.UndefinedExactlyWhenEqual | apps/server/src/serverSettings.ts:425-432 | on trees with the default keys, nothing is left exactly when the tree is the default tree |
| SparseSettings.MissingKeysAreRestored | apps/server/src/serverSettings.ts:192-229 | off those trees both fail: an empty struct is stripped away and read back as the default |
| TopRanked.RankedList.FindInsertionIndex | apps/server/src/workspaceEntries.ts:153-175 | binary search returns the place behind everything that does not come after the candidate |
| TopRanked.RankedList.Insert | apps/server/src/workspaceEntries.ts:177-198 | after each insertion the list is the selection of the first `limit` of everything offered |
| TopRanked.SelectionIsPrefix | apps/server/src/workspaceEntries.ts:177-198 | a selection is the prefix of the stable sort |
| TopRanked.StableSortExists | apps/server/src/workspaceEntries.ts:144-151 | for every total preorder there is a stable sort |
| WorkspaceSearch.ScoreSubsequenceMatch | apps/server/src/workspaceEntries.ts:84-114 | the greedy loop scores a match by first occurrence and shortest prefix; each skipped character counts once as gap (three) and once as span (one); null exactly when the query is no subsequence |
| WorkspaceSearch.ScoredExactly | apps/server/src/workspaceEntries.ts:116-142 | an entry is scored, that is matches, exactly when its lower-cased path has the query as a subsequence; TierExactly says with what |
| WorkspaceSearch.BasenameExactly | apps/server/src/workspaceEntries.ts:60-66 | the name is the slash-free text that is the path or follows a slash at its end |
| WorkspaceSearch.TierExactly | apps/server/src/workspaceEntries.ts:116-142 | the score is the place of the best of seven criteria on name and path (exact name, exact path, name prefix, path prefix, behind a slash, in the name, in the path); without any it is the fuzzy score of the name from 100 on, or of the path from 200 on |
| WorkspaceSearch.RankingLaw | apps/server/src/workspaceEntries.ts:116-142 | an entry that meets a criterion outranks every match that meets neither it nor a better one, all fuzzy matches included |
| WorkspaceSearch.EmptyQueryRanking | apps/server/src/workspaceEntries.ts:116-119 | without a query everything matches and exactly directories outrank files |
| WorkspaceSearch.MatchesExactly | apps/server/src/workspaceEntries.ts:551-559 | the matches are the indexed entries whose path has the query as a subsequence, each as often and in the order it is indexed |
| WorkspaceSearch.SearchWorkspaceEntries | apps/server/src/workspaceEntries.ts:542-565 | returns the first `limit` entries of the stable sort of the matches; each has a smaller score than those behind it and the matches left out, or the same score and no greater path; truncation is reported exactly when the index was truncated or more matched |
| WorkerPool.Pool.constructor | apps/server/src/workspaceEntries.ts:237-239 | max(1, min(concurrency, n)) workers, no result yet |
| WorkerPool.Pool.StartWorker | apps/server/src/workspaceEntries.ts:241-247 | a starting worker claims the next index or ends |
| WorkerPool.Pool.Resolve | apps/server/src/workspaceEntries.ts:242-246 | a fulfilled call stores its own result and the worker claims the next index or ends |
| WorkerPool.Pool.Reject | apps/server/src/workspaceEntries.ts:245-249 | a rejected call ends its worker and touches nothing else |
| WorkerPool.InFlight | apps/server/src/workspaceEntries.ts:236-249 | in every reachable state at most as many calls are in flight as there are workers, each for a different index |
| WorkerPool.Complete | apps/server/src/workspaceEntries.ts:249-250 | when no worker runs or has failed, every result is the mapper's value for its item |
| WorkerPool.ClaimedOnce | apps/server/src/workspaceEntries.ts:239-247 | in every reachable state exactly the indices below the next one are claimed, each by one worker, and one without result is in flight with that worker or was rejected |
| WorkerPool.Run | apps/server/src/workspaceEntries.ts:228-251 | over any run of starts, fulfilments and rejections no claim changes hands and no result is overwritten |
| WorkerPool.MapWithConcurrency | apps/server/src/workspaceEntries.ts:228-251 | whichever call is fulfilled next, the run ends with the mapper's values in item order |
| ProcessOutput.Stream.OnData | apps/server/src/processRunner.ts:113-139 | after every chunk the text is the first `limit` bytes of everything received and the flag is exact |
| ProcessOutput.FlagIsLossExactly | apps/server/src/processRunner.ts:113-139 | the flag says that bytes were lost exactly when they were or every empty chunk came before the limit was reached; in particular for non-empty chunks |
| ProcessOutput.FlaggedWithoutLoss | apps/server/src/processRunner.ts:113-139 | an empty chunk at limit zero is flagged though nothing is lost |
| ProcessOutput.CutListing | apps/server/src/workspaceEntries.ts:206-216 | a listing cut anywhere gives exactly the paths that are wholly there |
| ProcessOutput.CapturedListing | apps/server/src/workspaceEntries.ts:206-216 | the paths read from a captured listing are a prefix of the true list, and all of it unless flagged |
| MessageQueue.ResolveQueuePumpDecision | apps/tui/src/messageQueue.ts:213-240 | idle exactly when the thread runs or has nothing queued; blocked exactly when one of its entries is dispatching; otherwise its first entry is dispatched, or the time left to its retry is returned |
| MessageQueue.EventEffects | apps/tui/src/messageQueue.ts:88-172 | field by field, what each event makes of any waiting message in any run: only a dispatch, an edit, a removal, a failed send or a reconcile pass for it changes it, and these change only the fields named |
| MessageQueue.PumpMarksHead | apps/tui/src/messageQueue.ts:142-160 | a pump that dispatches leaves its head dispatching since now, text and payload unchanged, and the thread's next pump dispatches nothing |
| MessageQueue.RequeuedBetweenDispatches | apps/tui/src/messageQueue.ts:142-172 | in every run, between two dispatches of one message its send failed or a reconcile pass requeued it |
| MessageQueue.MovedOnePlace | apps/tui/src/messageQueue.ts:112-129 | a message moves one place to the front or to the end, changing places with its neighbour, if it has one |
| MessageQueue.MovedForThread | apps/tui/src/messageQueue.ts:112-129 | a move keeps every message and changes a thread's order exactly when it exchanges two of its messages |
| MessageQueue.Conservation | apps/tui/src/messageQueue.ts:88-172 | in every run the ids enqueued are the disjoint union of waiting, removed and completed ones |
| MessageQueue.OneDispatchAtATime | apps/tui/src/messageQueue.ts:213-240 | in every run each thread has at most one dispatching message |
| MessageQueue.FirstInFirstOut | apps/tui/src/messageQueue.ts:142-172 | while no move exchanges two of a thread's messages: completed messages followed by waiting ones are those enqueued and not removed, in order, and only the first may be dispatching, whatever is requeued |
| MessageQueue.MoveKeepsOrderExactly | apps/tui/src/messageQueue.ts:112-129 | in any run, where a thread's messages are in their order of enqueueing a move leaves them so exactly when it exchanges no two of them |
| MessageQueue.FlagsAreHistory | apps/tui/src/messageQueue.ts:35-45 | in every run an entry's dispatch time and running flag are those of its last dispatch |
| MessageQueue.DispatchOutcome | apps/tui/src/messageQueue.ts:280-295 | a dispatching message is completed, requeued or kept exactly as the whole history since its dispatch and the current observation say |
| ActivityOrder.OrderIsTotal | packages/client-core/src/sessionLogic.ts:1001-1040 | the comparison is a total preorder that is zero only for ids the collation does not tell apart |
| ActivityOrder.OrderIsLexicographic | packages/client-core/src/sessionLogic.ts:1001-1040 | one activity is read before another exactly when it has no sequence number and the other has, or the smaller one, or on a tie the earlier time, or the earlier phase (starts before everything else, finishes after), or the smaller id |
| ActivityOrder.ToSortedStable | packages/client-core/src/sessionLogic.ts:250-250 | the sort keeps the order of what compares equal |
| ActivityOrder.ToSortedFacts | packages/client-core/src/sessionLogic.ts:250-250 | the stable sort is sorted and keeps every element |
| ActivityOrder.ArrivalOrderIsIrrelevant | packages/client-core/src/sessionLogic.ts:1001-1040 | every arrival order of a log is read in the same order |
| PendingRequests.DerivePendingApprovals | packages/client-core/src/sessionLogic.ts:246-300 | the loop over an insertion-ordered map computes the pending approvals |
| PendingRequests.DerivePendingUserInputs | packages/client-core/src/sessionLogic.ts:351-398 | the loop over an insertion-ordered map computes the pending user inputs |
| PendingRequests.PendingExactlyWhenOpen | packages/client-core/src/sessionLogic.ts:252-295 | a request is pending exactly when some activity opens it and every activity that resolves it or finds it stale precedes that one by sequence, time, phase and id |
| PendingRequests.PendingApprovalsExactly | packages/client-core/src/sessionLogic.ts:246-300 | an approval is listed, once, exactly when an activity requests it with this kind, time and detail and everything else about it precedes that activity; the list is ordered by time |
| PendingRequests.PendingUserInputsExactly | packages/client-core/src/sessionLogic.ts:351-398 | the same for user inputs and their questions |
| PendingRequests.ResolvedIsNotPending | packages/client-core/src/sessionLogic.ts:246-300 | an approval resolved at a sequence number above those of its requests is not listed |
| PendingRequests.RequestKindExactly | packages/client-core/src/sessionLogic.ts:216-230 | an approval is of the kind its payload names or, when it names none, of the kind its request type belongs to |
| PendingRequests.ApprovalChangeExactly | packages/client-core/src/sessionLogic.ts:246-295 | an activity opens or closes an approval exactly when its kind, request id and payload say so |
| PendingRequests.UserInputChangeExactly | packages/client-core/src/sessionLogic.ts:351-392 | the same for user inputs |
| PendingRequests.QuestionsInOrder | packages/client-core/src/sessionLogic.ts:302-349 | questions are read one by one, in order |
| PendingRequests.QuestionExactly | packages/client-core/src/sessionLogic.ts:302-349 | a question is taken over exactly when it is complete and has a complete option |
| PendingRequests.OptionsInOrder | packages/client-core/src/sessionLogic.ts:302-349 | so are options |
| PendingRequests.OptionExactly | packages/client-core/src/sessionLogic.ts:302-349 | an option is taken over exactly when it is complete |
| PendingRequests.ArrivalOrder | packages/client-core/src/sessionLogic.ts:246-398 | both lists are the same for every permutation of the log |
| WorkLog.CollapseDerivedWorkLogEntries | packages/client-core/src/sessionLogic.ts:602-615 | overwriting the last slot computes one merged entry per run |
| WorkLog.RunsAreRuns | packages/client-core/src/sessionLogic.ts:602-631 | the runs partition the list, each is updates of one key closed by at most one completion, and none could go on into the next |
| WorkLog.OnlyRuns | packages/client-core/src/sessionLogic.ts:602-631 | there is only one such partition |
| WorkLog.RunShape | packages/client-core/src/sessionLogic.ts:617-631 | a run is one entry, or updates with one collapse key followed by one more update or a completion with that key |
| WorkLog.MergedRunSays | packages/client-core/src/sessionLogic.ts:633-668 | a merged run has identity and time of its last entry, the last given value of each optional field, and the ordered duplicate-free union of the changed files |
| WorkLog.LastGivenExactly | packages/client-core/src/sessionLogic.ts:633-668 | the value given last is that of an entry no later one follows with a value; none is given exactly when no entry has one |
| WorkLog.DistinctGrows | packages/client-core/src/sessionLogic.ts:633-668 | the duplicate-free list of files keeps each file where it first occurred |
| WorkLog.CollapsingTwice | packages/client-core/src/sessionLogic.ts:602-631 | no two neighbours of the result are collapsible, so collapsing twice is collapsing once |
| WorkLog.DeriveWorkLogEntries | packages/client-core/src/sessionLogic.ts:521-537 | the log holds one merged entry per run of the entries of exactly the activities that pass the filters, each as often as it occurs and in order |
| WorkLog.IsLoggedExactly | packages/client-core/src/sessionLogic.ts:526-545 | which activities pass the filters: those of the turn asked for that are neither bookkeeping nor the end of plan mode |
| WorkLog.ArrivalOrder | packages/client-core/src/sessionLogic.ts:521-537 | the work log is the same for every permutation of the activities |
| CodexHistory.Conservation | apps/server/src/codexAppServerManager.ts:1279-1326 | ids sent are the disjoint union of outstanding and settled ones; only a request just received can be unsupported and unanswered |
| CodexHistory.WholeRun | apps/server/src/codexAppServerManager.ts:1212-1326 | over a whole run each promise settles once, ids are sent in order, and no server request is answered twice or after being dropped |
| CodexHistory.ReplyMatches | apps/server/src/codexAppServerManager.ts:1212-1277 | every reply carries the JSON-RPC id of the one request it answers, in the form that request calls for; -32601 follows an unsupported request at once |
| CodexSession.Session.SendRequest | apps/server/src/codexAppServerManager.ts:1297-1335 | the next id is registered and written; when it cannot be written the promise is rejected and the id stays registered |
| CodexSession.Session.RequestTimeout | apps/server/src/codexAppServerManager.ts:1307-1310 | a live timer unregisters its request and settles it if it was not settled |
| CodexSession.Session.HandleResponse | apps/server/src/codexAppServerManager.ts:1279-1295 | a response whose id, printed, is the decimal spelling of a registered request settles exactly that one; any other response changes nothing |
| CodexSession.KeyExactly | apps/server/src/codexAppServerManager.ts:1279-1281 | the key a response names is the number whose decimal spelling is its id, whether the id is a number or a text |
| CodexSession.Session.HandleServerRequest | apps/server/src/codexAppServerManager.ts:1212-1277 | an approval or user input waits under a fresh id; anything else is refused at once with -32601 |
| CodexSession.ExpectedReplyExactly | apps/server/src/codexAppServerManager.ts:1212-1277 | which methods wait for which decision, which for answers, and that all others are refused |
| CodexSession.Session.RespondToRequest | apps/server/src/codexAppServerManager.ts:905-941 | answers a waiting approval once with its own JSON-RPC id; unknown session or request is refused; an answer that cannot be written is lost for good |
| CodexSession.Session.RespondToUserInput | apps/server/src/codexAppServerManager.ts:943-978 | the same for user inputs |
| CodexSession.Session.StopSession | apps/server/src/codexAppServerManager.ts:980-1008 | every open promise is rejected, every open server request dropped, nothing is left waiting |
| CodexSession.Session.ProcessExits | apps/server/src/codexAppServerManager.ts:1066-1079 | an exit of its own makes the session unknown and settles nothing |
| CodexSession.ReachableState | apps/server/src/codexAppServerManager.ts:905-1326 | in every reachable state each id is pending or settled, both exactly for failed writes whose timer has not fired, and each server request is waiting or was answered or dropped |
| CodexSession.Run | apps/server/src/codexAppServerManager.ts:905-1335 | whatever order calls, server lines, timers and the exit come in, the invariant and the lawful history hold |
| SshAttach.Attach.constructor | apps/tui/src/tuiCli.ts:81-134 | after the first tunnel is up it is watched, or a reconnect is armed if it has already exited |
| SshAttach.Attach.TunnelExits | apps/tui/src/tuiCli.ts:100-115 | the exit of the current tunnel arms one timer; of any other, nothing |
| SshAttach.Attach.ReconnectTimerFires | apps/tui/src/tuiCli.ts:92-121 | a firing timer begins one startup on the first tunnel's port |
| SshAttach.Attach.StartupSucceeds | apps/tui/src/tuiCli.ts:117-132 | the new tunnel becomes current, or is stopped at once after stop(), or leads to the next timer if it has already exited |
| SshAttach.Attach.StartupFails | apps/tui/src/tuiCli.ts:127-131 | a failed startup arms the next timer unless stopped |
| SshAttach.Attach.Stop | apps/tui/src/tuiCli.ts:138-147 | stops the tunnel, clears the timer and aborts the startup |
| SshAttach.Run | apps/tui/src/tuiCli.ts:72-149 | over any run, once stopped it stays stopped and no timer or startup ever begins again |
| SshAttach.ReachableState | apps/tui/src/tuiCli.ts:72-149 | until stop() exactly one of tunnel, timer and startup is there; afterwards none but a startup still to settle, every tunnel ever started is stopped, and all startups ask for the same port |

## Left out

- Text is a sequence of single-unit characters and one character stands for one byte of output; multi-byte characters split across chunks are not modelled.
- Lower-casing is ASCII lower-casing, and trimming removes the blanks listed in `Text.IsSpace`.
- `localeCompare` is a parameter: any total preorder that tells the ids of a log apart.
- Keybindings: schema decoding, compiled-rule merging, upserting and file access; the default rules are a parameter.
- WsTransport: push subscriptions, state listeners, warnings and JSON; ids are numbers rather than decimal strings; the order in which several promises are rejected together is not fixed; close events come after `close()` returns, `send` on an open socket does not throw, listeners do not call back, and on the current socket the server answers only ids it was sent.
- HostAddress: the platform's `isIP` and `Number` are parameters.
- Settings: the patched settings are the input of an update; normalising, caching, change events, file access and failures of the store are not modelled.
- WorkspaceSearch: query normalisation, building and caching the index, and ignore filtering.
- WorkerPool.MapWithConcurrency: calls are fulfilled in any order but not rejected; WorkerPool.Pool.Reject models one rejection, and which reason the caller sees is not modelled.
- ProcessOutput: only the truncating output mode; spawning, exit codes and timeouts are not modelled.
- MessageQueue: the pump's decision and its mark are one step, where the client decides on the rendered queue; previews, status texts and the retry backoff are not modelled.
- PendingRequests: the check that a request id is trimmed and not empty is reduced to the test for the empty text.
- WorkLog.DeriveWorkLogEntries: how an activity's payload becomes an entry, including its collapse key, is a parameter.
- CodexSession: notifications, session status, events sent to the rest of the server, JSON, and reading of route fields; server requests get random ids that never repeat.
- SshAttach: profile parsing and the tunnel process itself; stopping a tunnel is a flag.
