# Verified model of the satellites client and authorization server

This project models the parts of the `satellites` repository that keep state or parse text, and
proves what they keep, over all inputs and over all runs. `dafny verify dfyconfig.toml` checks it.

| files | models |
|---|---|
| `SkillStamp`, `Reconcile`, `SkillTree`, `SyncProperties` | `skill sync`: the identity stamp printer and parser, the verdicts and the plan, the apply step on the skill tree, and what one run and any two runs guarantee |
| `ShellQuotes`, `ShellSegments`, `Heredoc`, `HeredocWords`, `ShellWords`, `ShellScan` | the commit gate: the quote automaton, the segment splitter, the heredoc stripper and the text of its operators, the words of a command, the redirect, command and git scanners |
| `OAuthStore`, `OAuthProtocol`, `OAuthGrants`, `OAuthRotation`, `OAuthLogins`, `OAuthServer`, `ClientRegistry`, `LoginState` | the authorization server: atomic store statements, any number of requests interleaved statement by statement, the handlers that run them, client registration, login states |
| `ApiKeys` | API-key slots under issue, revoke and validate |
| `LibraryStamp` | the provenance stamp of a published skill |
| `TaskSync` | consuming the tasks of a publisher as project rows |
| `Inbox` | flushing staged review signals behind a high-water mark |
| `ContextBudget` | the bounded session context |
| `Text` | the Go string functions the parsers call |

## How it is modelled

- A `string` is a Go string: one `char` for each byte. ASCII white space is white space.
- SHA-256, the stamp JSON codec and the PKCE transform are parameters. Where a result needs it, the
  codec is trusted at the one stamp concerned: to decode it back, and to encode it as one JSON object
  line without `>`, as `json.Marshal` does when the strings of the stamp are valid UTF-8. No hash is
  assumed injective, except in hypotheses that say so.
- Methods follow the loops and the effects of the source and are proved equal to recursive
  specification functions; the lemmas are about those functions. The skill tree is a map from a name
  to the bytes of its SKILL.md and its backups.
- Each SQL statement is one atomic step on tables with their unique indexes. A flag says whether the
  database carries it out, so the error path of every statement is a path of the model. Random refresh tokens and
  random session ids are assumed not to repeat, also after their rows are deleted; codes need no such
  assumption, for the primary key refuses a repeated code and codes are never deleted.
- The conflict policy after the prompt is answered is a choice for each name, so policy `local`, policy
  `force` and every mixture of answers are covered.
- Regular expressions are hand-written matchers with the same leftmost, greedy choice.

## Where the code and its comments disagree

The model follows the code.

- A malformed stamp is never reported as a stamp, so the two tests of `Malformed` in `reconcileAction`
  cannot fire on a file read from disk: the file is handled as unstamped
  (`Reconcile.MalformedReadsAsUnstamped`).
- The comment on `resolveConflict` says the operator's edit is never lost. The backup lives in the
  directory a later removal deletes (`SyncProperties.ForcedEditGoesWithItsRow`, and
  `SyncProperties.ForcedEditIsLost` for two runs); the exact condition is
  `SyncProperties.BackupsSurviveExactly` for a run and `SyncProperties.BackupsSurviveHistoryExactly` for
  any history.
- A body whose closing `---` ends the file without a newline is printed with the stamp glued to that
  line and is never read back (`SkillStamp.RoundTripExactly`); such a name never settles at `current`
  (`SyncProperties.WrittenThenCurrent`).
- The comment on `flushLocalInbox` says a later run flushes a failed row again. The mark passes it
  (`Inbox.FlushSettlesExactly`). A `local_ref` key in the payload of a message replaces the reference
  (`Inbox.LocalRefExactly`).
- Rotation ignores the outcome of its delete and of its save. When the delete fails, or overlaps another
  of the same token, and the new token is minted and stored while one of its lineage is live, the lineage
  has two live refresh tokens (`OAuthRotation.OneLiveTokenExactly` has the exact condition,
  `OAuthRotation.ForksAreReachable` two runs).
- `CompleteAuthorization` does not claim its session before it saves a code: two logins on one session
  both save one (`OAuthLogins.OneCodePerSessionExactly` has the exact condition).
- `createAuthSession` takes a failed client lookup for an unknown client and overwrites its row
  (`ClientRegistry.FailedLookupReplacesRow`); `ClientRegistry.SessionsRegisteredExactly` has the exact
  condition for every session to stay registered, `ClientRegistry.StrandingRun` a run that breaks it, and
  `ClientRegistry.SessionOutsideExactly` the condition for a session outside the URIs its client
  registered itself.
- `issueWithRaw` reads the row back in a second statement. When only that one fails, the caller gets an
  error although the slot is rotated and its old key is gone (`ApiKeys.KeyStore.IssueWithRaw`).
- Task sync creates a source twice when it is listed twice, and again on every run when it ends in white
  space (`TaskSync.RunKeepsForksUniqueExactly`, `TaskSync.SecondRunCreatesNothingExactly`, with
  `TaskSync.RepeatedSourceIsCreatedTwice` and `TaskSync.PaddedNameIsCreatedAgain`).

## Model

| member | source | states |
|---|---|---|
| SkillStamp.SplitAfterFrontmatter | internal/cli/cmd_skill_sync.go:210-235 | The offset/rest loop terminates and computes the split at the first closing line |
| SkillStamp.FrontIsWhole | internal/cli/cmd_skill_sync.go:206-235 | Head and body together are the whole text, found or not |
| SkillStamp.FrontCutsAtFirstClosing | internal/cli/cmd_skill_sync.go:206-235 | A block is found only when the text opens one and a later line is `---` up to carriage returns, and the cut is right after the first such line; otherwise no line closes it |
| SkillStamp.FrontOfLines | internal/cli/cmd_skill_sync.go:206-235 | Line by line: after either opening line, the first line of three dashes and carriage returns closes the block, at the end of the text too, and the body is what follows it |
| SkillStamp.NoFrontOfLines | internal/cli/cmd_skill_sync.go:206-235 | And with no such line there is no block |
| SkillStamp.FrontReplacesBody | internal/cli/cmd_skill_sync.go:206-235 | When the head ends in a newline, replacing the body by any text x splits again into (head, x, found) |
| SkillStamp.EndAfterBegin | internal/cli/cmd_skill_sync.go:241-246 | No end marker can start inside the begin marker, so the slice between the two is always in range |
| SkillStamp.CutPrintedBlock | internal/cli/cmd_skill_sync.go:200-253 | Cutting a printed block, whatever follows it, gives back the stamp and exactly what follows; an empty document id is reported malformed |
| Text.TrimSpaceIs | internal/cli/cmd_skill_sync.go:246 | Trimming gives back the text between any runs of the six ASCII white-space bytes |
| SkillStamp.StampParses | internal/cli/cmd_skill_sync.go:237-276 | Any stamp with a document id, spelled out in front of any text or behind its frontmatter, is read back with that text, legacy exactly in front |
| SkillStamp.StampOnlyInItsPlaces | internal/cli/cmd_skill_sync.go:255-276 | A stamp is found, or found malformed, if and only if the marker starts the text or what follows its frontmatter; a marker anywhere else is text |
| SkillStamp.BadStampParses | internal/cli/cmd_skill_sync.go:237-276 | A block that does not decode, or has no document id, is malformed, and the text around it is the body |
| SkillStamp.UnendedStampParses | internal/cli/cmd_skill_sync.go:237-246 | A begin marker with no end marker after it is malformed, and nothing is cut |
| SkillStamp.PrintThenParse | internal/cli/cmd_skill_sync.go:264-289 | For every row and every codec lawful at the stamp of the row, what splitStamp reads back off materialise: stamp, body and flags in each of the four cases |
| SkillStamp.RoundTripExactly | internal/cli/cmd_skill_sync.go:264-289 | The document id, version, body hash and publisher of the row, and its body, come back, legacy exactly without frontmatter, if and only if the document id is set and no frontmatter block ends the body without a newline |
| SkillStamp.GluedExample | internal/cli/cmd_skill_sync.go:206-235 | There is a body for which it fails: two lines of dashes and no last newline |
| Reconcile.LocalNamesEqualExactly | internal/cli/cmd_skill_sync.go:170-182 | Two rows share a directory if and only if they have one name or one name is the other with the owner prefix before it |
| Reconcile.MalformedReadsAsUnstamped | internal/cli/cmd_skill_sync.go:294-345 | A file with a malformed stamp gets the verdict of an unstamped file: the two malformed branches never fire on a file read from disk |
| Reconcile.LastRowIsKept | internal/cli/cmd_skill_sync.go:388-394 | The last row of a name is the one the keyed map holds |
| Reconcile.KeptRowIsLast | internal/cli/cmd_skill_sync.go:388-394 | Every row the keyed map holds is the last of its name |
| Reconcile.MergeByPrecedence | internal/cli/cmd_skill_sync.go:443-455 | Whatever order the map is walked in, the merged rows have distinct names and key to the last-set-wins map of all the sets |
| Reconcile.SortNames | internal/cli/cmd_skill_sync.go:408-412 | The names come out strictly increasing in byte order, none lost and none added |
| Reconcile.ReconcileSkills | internal/cli/cmd_skill_sync.go:388-434 | The plan names exactly the substrate names and the stamped locals, strictly increasing, each with its one verdict and row |
| Reconcile.PlanIsUnique | internal/cli/cmd_skill_sync.go:374-378 | Two plans for the same keyed rows and locals are equal, so listing and map order cannot show |
| Reconcile.PlanNeverLeaves | internal/cli/cmd_skill_sync.go:374-378 | The verdict leave is never planned |
| SkillTree.Skills.ReadLocalSkill | internal/cli/cmd_skill_sync.go:347-372 | Reads the classification of the file under a name, none when there is no file |
| SkillTree.Skills.ReadStampedLocalSkills | internal/cli/cmd_skill_sync.go:815-840 | The scan finds every stamped directory and no other |
| SkillTree.Skills.BackupSkill | internal/cli/cmd_skill_sync.go:769-786 | The exact bytes of SKILL.md are appended to the backups, nothing else changes |
| SkillTree.Skills.ApplySyncItem | internal/cli/cmd_skill_sync.go:788-813 | Writes, removes or leaves one directory by its verdict and touches no other |
| SkillTree.Skills.ResolveConflict | internal/cli/cmd_skill_sync.go:719-752 | A forced conflict with a row is backed up and then overwritten, any other is left alone |
| SkillTree.Skills.ReadLocals | internal/cli/cmd_skill_sync.go:640-663 | The locals handed to the plan agree with the tree on every row name and on everything stamped |
| SkillTree.Skills.ApplyPlan | internal/cli/cmd_skill_sync.go:665-683 | Applying the plan item by item, each on the tree the earlier ones left, gives every name the result computed from the tree before the run |
| SkillTree.Skills.SyncSkills | internal/cli/cmd_skill_sync.go:640-683 | Read, plan and apply together leave under every name what the pure one-run function of the old tree gives there |
| SkillTree.Skills.SyncScopes | internal/cli/cmd_skill_sync.go:615-683 | The whole run: the install set the scope flag selects, removal guarded by the names of every scope |
| SkillTree.RunsToOneTree | internal/cli/cmd_skill_sync.go:640-683 | A run has one outcome: the relation the run methods establish determines the whole tree |
| SkillTree.RunHasOutcome | internal/cli/cmd_skill_sync.go:640-683 | And it has one, on every tree, for all rows and answers |
| SkillTree.PlanMatchesTree | internal/cli/cmd_skill_sync.go:665-683 | A plan from the locals read off a tree has, for each name, the verdict of that tree and no name twice |
| SyncProperties.RunTrichotomy | internal/cli/cmd_skill_sync.go:788-813 | Under every name a run writes the row file, removes the directory, or changes nothing |
| SyncProperties.RowWithoutFileIsInstalled | internal/cli/cmd_skill_sync.go:294-297 | A row without a SKILL.md gets its file, the backups stay |
| SyncProperties.UneditedFileFollowsRow | internal/cli/cmd_skill_sync.go:299-334 | An unedited stamped file is rewritten exactly for a newer version, another document id or the legacy layout, and otherwise stays byte for byte |
| SyncProperties.AuthoredFileMeetsRow | internal/cli/cmd_skill_sync.go:299-318 | An unstamped or edited file is adopted exactly when it is unstamped with the body hash of the row, and is otherwise backed up and overwritten exactly when that is the choice |
| SyncProperties.FileWithoutRow | internal/cli/cmd_skill_sync.go:335-345 | Without a row a directory goes exactly when its file is stamped, unedited and in no scope, and is otherwise left alone |
| SyncProperties.InstallsNearestScope | internal/cli/cmd_skill_sync.go:604-638 | The row installed under a name is that of the scope chosen, or for all scopes that of the project, else the workspace, else the system, else the library |
| SyncProperties.SecondRunKeepsEveryFile | internal/cli/cmd_skill_sync.go:665-683 | For any tree, rows, codec, hash and conflict choices, a second run leaves every SKILL.md byte-identical |
| SyncProperties.FreshFileVerdict | internal/cli/cmd_skill_sync.go:294-345 | The verdict of the next run on a freshly written file, for every row |
| SyncProperties.WrittenThenCurrent | internal/cli/cmd_skill_sync.go:294-345 | A written name is planned current by the next run if and only if its row has a document id and a newline-terminated frontmatter block |
| SyncProperties.GluedRowNeverSettles | internal/cli/cmd_skill_sync.go:294-345 | A row for which it fails: installed, it is a conflict or adopted again in the next run |
| SyncProperties.NoTextIsLost | internal/cli/cmd_skill_sync.go:719-752 | Whenever a run changes or removes a file, the file was stamped and unedited, or had the body hash of its row, or its exact bytes are now the newest backup |
| SyncProperties.LocalPolicyKeepsAuthoredText | internal/cli/cmd_skill_sync.go:299-318 | Keeping local edits: an unstamped or edited file is left byte for byte unless it is unstamped with the body hash of the row, and adoption keeps the authored body if and only if the row is not glued |
| SyncProperties.ForceBacksUpThenOverwrites | internal/cli/cmd_skill_sync.go:734-748 | Forcing any conflict leaves the row file with the exact old bytes as the newest backup |
| SyncProperties.OperatorSkillsUntouched | internal/cli/cmd_skill_sync.go:374-378 | A name with neither a row nor a stamp is never touched |
| SyncProperties.RemovedExactlyWhenOrphaned | internal/cli/cmd_skill_sync.go:604-638 | Whatever the scope flag selects, a directory is deleted if and only if it is stamped, unedited and claimed by none of the four scopes |
| SyncProperties.BackupsSurviveExactly | internal/cli/cmd_skill_sync.go:805-808 | The backups under a name survive a run if and only if not: no row, no scope claims the name, and its file is stamped and unedited |
| SyncProperties.BackupsSurviveHistoryExactly | internal/cli/cmd_skill_sync.go:719-813 | Over any history of runs, with operator edits between them, every run keeps the backups if and only if none of them retires the name so |
| SyncProperties.ForcedEditGoesWithItsRow | internal/cli/cmd_skill_sync.go:719-748 | Against the comment that an edit is never lost: force an edit, drop the row, and the next run deletes the backup with the directory |
| SyncProperties.ForcedEditIsLost | internal/cli/cmd_skill_sync.go:719-748 | Two runs in which that happens |
| ShellQuotes.QuoteMask | internal/cli/cmd_hook_commitgate.go:425-449 | The array written in place is the mask of the quote automaton |
| ShellQuotes.UnquotedText | internal/cli/cmd_hook_commitgate.go:425-449 | A text with neither quote is all unmasked |
| ShellQuotes.QuotedSpan | internal/cli/cmd_hook_commitgate.go:425-449 | A single or double quote masks everything up to the next quote of its kind, both included, and what follows is masked as if it stood alone |
| ShellQuotes.OpenSpan | internal/cli/cmd_hook_commitgate.go:425-449 | With no other quote of its kind the span goes on to the end |
| ShellQuotes.MaskAppend | internal/cli/cmd_hook_commitgate.go:425-449 | The mask of a concatenation is the mask of the first part and the mask of the second read in the state the first leaves |
| ShellQuotes.SplitShellSegments | internal/cli/cmd_hook_commitgate.go:399-423 | The index loop over the mask computes the recursive splitter |
| ShellSegments.SegmentsPartition | internal/cli/cmd_hook_commitgate.go:393-423 | Segments and removed separators rebuild the command; each segment starts outside quotes, its own mask is the slice of the whole mask, and no unquoted separator is left in it |
| ShellSegments.SegmentsOfLine | internal/cli/cmd_hook_commitgate.go:393-423 | Splitting undoes printing: commands made of bare and quoted pieces, with `&&`, `||`, `;`, `|` or a newline between them, split into just these commands |
| ShellSegments.QuotedBreakJoins | internal/cli/cmd_hook_commitgate.go:393-423 | A break inside quotes makes no segment: the segment it falls in grows |
| ShellSegments.SegmentsHomomorphism | internal/cli/cmd_hook_commitgate.go:399-423 | Splitting at `;` or a newline concatenates the segments of the two sides if and only if the left side ends outside quotes |
| ShellSegments.SegmentsHomomorphismAtAnd | internal/cli/cmd_hook_commitgate.go:399-423 | Splitting at `&&` concatenates the segments of the two sides if and only if the left side ends outside quotes and not in an odd run of `&` |
| Heredoc.StripHeredocs | internal/cli/cmd_hook_commitgate.go:178-215 | The two nested line loops compute the line automaton |
| HeredocWords.HeredocClosedByItsWord | internal/cli/cmd_hook_commitgate.go:161-215 | The delimiter is the word the operator names, in either quotes or bare; the body goes up to and with the first line that is that word, behind tabs only for `<<-`, and what follows is stripped on its own |
| HeredocWords.HeredocRunsToTheEnd | internal/cli/cmd_hook_commitgate.go:161-215 | With no such line everything after the operator line is body |
| HeredocWords.NoWordNoHeredoc | internal/cli/cmd_hook_commitgate.go:161-189 | A `<<` that names no word is left where it is |
| HeredocWords.HereStringIsDropped | internal/cli/cmd_hook_commitgate.go:163-183 | A here-string goes with its one operand, quoted or bare, and the rest of the line stays |
| Heredoc.EveryLineOnce | internal/cli/cmd_hook_commitgate.go:178-215 | Each line is emitted once, or dropped once as heredoc body or closing line, in order |
| Heredoc.EraseKeepsStrip | internal/cli/cmd_hook_commitgate.go:167-177 | Deleting every body line of every heredoc does not change the stripped text |
| Heredoc.HeredocBodiesAreData | internal/cli/cmd_hook_commitgate.go:167-177 | Commands that agree once heredoc bodies are deleted strip to the same text |
| Heredoc.BodyLinesDoNotMatter | internal/cli/cmd_hook_commitgate.go:167-177 | Replacing the body of any open heredoc by any lines that do not close it changes nothing |
| Heredoc.StripIsIdentityExactly | internal/cli/cmd_hook_commitgate.go:178-215 | A command comes through unchanged if and only if no line has a heredoc operator or a here-string |
| Heredoc.NoOperatorNoChange | internal/cli/cmd_hook_commitgate.go:178-215 | In particular every command without `<<` |
| ShellScan.RedirectTargets | internal/cli/cmd_hook_commitgate.go:245-267 | The match loop reports the operands of the unmasked operators, in order |
| ShellScan.RedirectIsReported | internal/cli/cmd_hook_commitgate.go:150-267 | The operand of a redirection outside quotes, quoted or bare, is reported unless it is empty, a descriptor or a device, and nothing else is |
| ShellScan.NumberedIsNoRedirect | internal/cli/cmd_hook_commitgate.go:150-154 | Behind a digit or `&` there is no redirection |
| ShellScan.CommandMutationTargets | internal/cli/cmd_hook_commitgate.go:271-315 | The prefix loop and the dispatch by command compute the targets function |
| ShellScan.CommandWrites | internal/cli/cmd_hook_commitgate.go:269-315 | Past assignments and wrapper commands: every argument of mv, rm and tee that is no flag, the last of cp and of an in-place sed, what follows the mv of git, and nothing by another command |
| ShellScan.OnlyPrefixWritesNothing | internal/cli/cmd_hook_commitgate.go:271-289 | Without a command nothing is written |
| ShellScan.CollectNonFlags | internal/cli/cmd_hook_commitgate.go:317-327 | The loop keeps the arguments that are no flags |
| ShellScan.NonFlagsInOrder | internal/cli/cmd_hook_commitgate.go:317-327 | In order, each without its quotes |
| ShellScan.CollectMvArgs | internal/cli/cmd_hook_commitgate.go:339-347 | The loop finds the arguments of git mv |
| ShellScan.MvSkips | internal/cli/cmd_hook_commitgate.go:339-347 | Those after the first mv, and none without one |
| ShellWords.UnquoteArgIs | internal/cli/cmd_hook_commitgate.go:357-365 | One layer of matching quotes comes off and nothing else |
| ShellWords.BaseNameIs | internal/cli/cmd_hook_commitgate.go:349-355 | Whatever directory stands before it, the base name is what follows the last slash |
| ShellWords.FieldsOfSpaced | internal/cli/cmd_hook_commitgate.go:456-457 | Splitting into words undoes printing them with white space between |
| ShellScan.BashMutationTargets | internal/cli/cmd_hook_commitgate.go:236-243 | The targets are those of the segments, concatenated in order |
| ShellScan.TargetsHomomorphism | internal/cli/cmd_hook_commitgate.go:236-243 | The targets of `a;b` are those of `a` and then those of `b` when `a` ends outside quotes |
| ShellScan.TargetsHomomorphismAtAnd | internal/cli/cmd_hook_commitgate.go:236-243 | The targets of `a && b` are those of `a` and then those of `b` when `a` ends outside quotes and not in an odd run of `&` |
| ShellScan.RedirectInCommand | internal/cli/cmd_hook_commitgate.go:245-258 | A redirection of a segment is the redirection of the whole command at the shifted place, although the mask is recomputed per segment |
| ShellScan.ReportedRedirectIsUnquoted | internal/cli/cmd_hook_commitgate.go:245-267 | Every redirect target reported for any segment is the operand of a `>` of the command that lies outside all quotes of the command |
| ShellScan.GitSubcommand | internal/cli/cmd_hook_commitgate.go:456-481 | The two nested index loops compute the subcommand function |
| ShellScan.GlobalOptionsAreSkipped | internal/cli/cmd_hook_commitgate.go:451-481 | Whatever words come before git and whatever global options after it, five of them with a value in the next word, the subcommand is the next word |
| ShellScan.GitCommandIsGated | internal/cli/cmd_hook_commitgate.go:377-481 | End to end, for one git command in bare words: push or gated commit exactly when the word after git and its global options is that word in any case |
| ShellScan.ClassifyGitCommand | internal/cli/cmd_hook_commitgate.go:377-391 | Push if some segment pushes, else commit if gated and some segment commits, else none |
| ShellScan.ClassificationHomomorphism | internal/cli/cmd_hook_commitgate.go:367-391 | The classification of `a;b` is the stronger of the two, push over commit over none |
| ShellScan.ClassificationHomomorphismAtAnd | internal/cli/cmd_hook_commitgate.go:367-391 | The same for `a && b`, the compound that commits and then pushes |
| ShellScan.ScanCommand | internal/cli/cmd_hook_commitgate.go:83-131 | Both scans of the hook read the one stripped text of the trimmed command; an empty command passes unread |
| ShellScan.ScanIgnoresHeredocBodies | internal/cli/cmd_hook_commitgate.go:87-93 | Neither the targets nor the classification of a trimmed command depend on heredoc body lines |
| OAuthStore.Store.SaveSession | internal/auth/oauth_store_postgres.go:68-79 | Inserts a session, refused when the key is taken |
| OAuthStore.Store.GetSession | internal/auth/oauth_store_postgres.go:81-87 | Reads a session, not found apart from failed |
| OAuthStore.Store.DeleteSession | internal/auth/oauth_store_postgres.go:98-104 | Deletes a session, silently when there is none |
| OAuthStore.Store.SaveCode | internal/auth/oauth_store_postgres.go:106-116 | Inserts a code, refused when the key is taken |
| OAuthStore.Store.GetCode | internal/auth/oauth_store_postgres.go:118-138 | Finds a code only when it is there, unused and unexpired |
| OAuthStore.Store.MarkCodeUsed | internal/auth/oauth_store_postgres.go:140-154 | Compare-and-set: succeeds if and only if the code was unused, and it is used afterwards |
| OAuthStore.Store.SaveRefreshToken | internal/auth/oauth_store_postgres.go:156-165 | Inserts a refresh token, refused when the key is taken |
| OAuthStore.Store.GetRefreshToken | internal/auth/oauth_store_postgres.go:167-183 | Finds a refresh token only when it is there and unexpired |
| OAuthStore.Store.DeleteRefreshToken | internal/auth/oauth_store_postgres.go:185-191 | Deletes a refresh token and does not say whether there was one |
| OAuthServer.HandleAuthCodeGrant | internal/auth/oauth_server.go:362-417 | The handler, statement by statement, ends as its protocol thread does when run uninterrupted, whichever statements fail: an answer exactly for a code that is there, unused, unexpired, of this client and redirect URI, with a verifier whose transform is its challenge, and the tables afterwards |
| OAuthServer.HandleRefreshTokenGrant | internal/auth/oauth_server.go:419-462 | The same for the refresh grant, whose delete and save errors are ignored: an answer exactly for a token that is there, unexpired and of this client, and the tables afterwards |
| OAuthServer.CompleteAuthorization | internal/auth/oauth_server.go:306-339 | The same for the end of the login flow: a code with the client, redirect URI, challenge and scope of the session exactly when the session is there and the code is saved |
| OAuthProtocol.StepKeeps | internal/auth/oauth_server.go:362-462 | Every event, any statement of any request interleaved with any other, keeps the invariant on codes, threads, sessions and the token log |
| OAuthProtocol.RunKeeps | internal/auth/oauth_server.go:362-462 | So does every run, at each of its states |
| OAuthProtocol.TraceIsRunAll | internal/auth/oauth_server.go:362-462 | The states of a run are those its events lead to, one atomic statement at a time |
| OAuthGrants.AtMostOneTokenPerCode | internal/auth/oauth_server.go:374-416 | In every interleaving each authorization code is answered with a token at most once (section 4.1.2 of RFC 6749) |
| OAuthGrants.TokenTracesToAuthorization | internal/auth/oauth_server.go:374-416 | That answer carries the user, client and scope of the code, to a request with the client, redirect URI and verifier of the authorize session, looked up before expiry (section 4.1.3 of RFC 6749, section 4.6 of RFC 7636) |
| OAuthGrants.RootGrants | internal/auth/oauth_server.go:452-459 | Following parents from any stored refresh token ends at a used code with the same user, client and scope |
| OAuthGrants.RefreshTokensKeepTheirGrant | internal/auth/oauth_server.go:407-459 | Every refresh token ever stored descends from one redeemed code and keeps its grant; no code roots two tokens |
| OAuthGrants.RefreshRepliesKeepTheirGrant | internal/auth/oauth_server.go:419-462 | Every refresh response has the grant of the code its old token descends from |
| OAuthRotation.MarkKeepsOneHolder | internal/auth/oauth_server.go:391-394 | Marking a code starts a lineage with one holder and adds none to another |
| OAuthRotation.ReplyKeepsOneHolder | internal/auth/oauth_server.go:396-459 | Storing the new token passes the lineage on from the request to the token |
| OAuthRotation.DeleteKeepsOneHolderExactly | internal/auth/oauth_server.go:439 | Counting a request about to store a token as a holder, the delete of a rotation keeps one holder a lineage if and only if it removed the row or the lineage had no holder left |
| OAuthRotation.FirstTokenKeepsOneLiveToken | internal/auth/oauth_server.go:396-416 | The token of a redeemed code starts a lineage of its own, so it never makes a second live one |
| OAuthRotation.RotationKeepsOneLiveTokenExactly | internal/auth/oauth_server.go:439-459 | The reply of a rotation keeps one live token a lineage if and only if it stores no token or no token of its lineage is live by then |
| OAuthRotation.StepKeepsOneLiveTokenExactly | internal/auth/oauth_server.go:362-462 | Over any step: one live token a lineage is kept if and only if the step is no such storing reply |
| OAuthRotation.OneLiveTokenExactly | internal/auth/oauth_server.go:362-462 | Over every run, one live token a lineage all along if and only if every rotation that stores a token finds its lineage without a live one (section 6 of RFC 6749) |
| OAuthRotation.CleanRunHasOneLiveToken | internal/auth/oauth_server.go:419-462 | In particular over every run whose deletes remove their row |
| OAuthRotation.SerialRotationHasOneLiveToken | internal/auth/oauth_server.go:419-462 | And when refresh grants run one at a time and their deletes succeed |
| OAuthRotation.FailedDeleteForksLineage | internal/auth/oauth_server.go:439-459 | From every reachable state with a live token: a rotation whose delete fails and whose save succeeds leaves the old and the new token live |
| OAuthRotation.OverlappingRotationsForkLineage | internal/auth/oauth_server.go:429-459 | From every such state: two rotations of one token that overlap both succeed and leave two live tokens |
| OAuthRotation.ForksAreReachable | internal/auth/oauth_server.go:362-462 | Both are reached by a run from the empty tables |
| OAuthLogins.TwoCodesExactlyWhenReachable | internal/auth/oauth_server.go:306-339 | In every reachable state a session has two codes if and only if two logins that read it both saved one |
| OAuthLogins.StepKeepsOneCodeExactly | internal/auth/oauth_server.go:306-339 | A session keeps one code over a step if and only if the step saves no code for a session that another login has saved one for |
| OAuthLogins.OneCodePerSessionExactly | internal/auth/oauth_server.go:302-339 | Over every run, a session yields at most one code all along if and only if no login does that |
| OAuthLogins.SerialLoginsYieldOneCode | internal/auth/oauth_server.go:302-339 | In particular when the logins of a session run one at a time and their session deletes succeed |
| OAuthLogins.OverlappingLoginsSaveTwoCodes | internal/auth/oauth_server.go:306-339 | From every reachable state: two logins that both read a session save two codes for it, one for each user |
| OAuthLogins.TwoCodesAreReachable | internal/auth/oauth_server.go:306-339 | And a run from the empty tables does so |
| ClientRegistry.Registry.GetClient | internal/auth/oauth_store_postgres.go:43-66 | Reads a client, not found apart from failed |
| ClientRegistry.Registry.PutClient | internal/auth/oauth_store_postgres.go:21-41 | Upserts a client, overwriting the row that is there |
| ClientRegistry.Registry.HandleRegister | internal/auth/oauth_server.go:110-163 | Registers a client under the id drawn, and none without a redirect URI |
| ClientRegistry.Registry.CreateAuthSession | internal/auth/oauth_server.go:226-268 | The handler, statement by statement, ends as its protocol thread does when run uninterrupted: a session exactly when the redirect URI is one of the client, or the client is found unknown and can be registered with it, and the tables afterwards |
| ClientRegistry.SessionsRedirectToRegisteredUris | internal/auth/oauth_server.go:226-268 | In every interleaving, whatever statements fail, every session redirects to a URI that its own client registered or a request registered for it |
| ClientRegistry.OwnSessionsStayOwn | internal/auth/oauth_server.go:226-268 | Once the URIs of a client are its own, and as long as its lookups are answered, every session started for it redirects to a URI it registered itself |
| ClientRegistry.SessionOutsideExactly | internal/auth/oauth_server.go:226-268 | A request served alone starts a session outside those if and only if its URI is not one of them and the lookup fails, the client has no row, or its row has the URI from an earlier request |
| ClientRegistry.SessionsRegisteredExactly | internal/auth/oauth_server.go:226-268 | Over every run, every session redirects to a URI its client has registered at that time if and only if no event writes a row that leaves a session of its client out, or starts a session whose URI has gone from the row |
| ClientRegistry.StepKeepsSessionsRegisteredExactly | internal/auth/oauth_server.go:226-268 | The same for one step |
| ClientRegistry.FreshRegistrationStrandsNone | internal/auth/oauth_server.go:125-129 | A registration under a fresh client id, as HandleRegister draws it, leaves no session out |
| ClientRegistry.StrandingRun | internal/auth/oauth_server.go:226-268 | A run from the empty tables in which a failed lookup leaves a session out |
| ClientRegistry.SessionsStayRegistered | internal/auth/oauth_server.go:226-268 | In particular over every run that overwrites no client row |
| ClientRegistry.OverwriteKeepsRegisteredExactly | internal/auth/oauth_server.go:227-242 | An auto-registration that overwrites a row keeps every session, and every one about to start, registered if and only if each of that client has its redirect URI |
| ClientRegistry.FailedLookupReplacesRow | internal/auth/oauth_server.go:227-242 | A failed lookup is taken for an unknown client: the URIs of a registered client are replaced by the one of the request |
| LoginState.StateStore.constructor | internal/auth/oauth_state_store_postgres.go:23-30 | Binds to the table as it is; a positive lifetime is kept, any other picks ten minutes |
| LoginState.StateStore.MintState | internal/auth/oauth_state_store_postgres.go:35-48 | Inserts a state with its expiry, refused when the key is taken |
| LoginState.StateStore.ConsumeState | internal/auth/oauth_state_store_postgres.go:50-72 | Deletes and returns in one step; an expired row is deleted too |
| LoginState.StatesAreConserved | internal/auth/oauth_state_store_postgres.go:32-72 | Over every interleaving on any table, mints of a state and its row before equal its successful consumes, its expired consumes and its pending row |
| LoginState.ConsumedAtMostOnce | internal/auth/oauth_state_store_postgres.go:50-72 | A state drawn once is consumed successfully at most once, however many callbacks present it |
| ApiKeys.KeyStore.IssueWithRaw | internal/auth/store.go:332-385 | The insert is refused if and only if another row has the id or the hash; else a project key is the one row of its slot, an unbound key adds one row or is there already, and no row of another slot changes; a key is returned if and only if both statements succeed, so an error of the second leaves the slot rotated |
| ApiKeys.KeyStore.ValidateKeyWithRole | internal/auth/store.go:399-423 | Answers if and only if an unrevoked, unexpired row has the hash, with the user, role and project of that row; tells an invalid key from a failed statement |
| ApiKeys.KeyStore.RevokeKey | internal/auth/store.go:425-437 | Revokes once; the key under that id never validates by that row again |
| ApiKeys.KeyStore.RevokeKeyForUser | internal/auth/store.go:264-278 | Revokes only a row of that user |
| ApiKeys.RunKeepsUnique | internal/auth/store.go:342-369 | Every run of issues and revocations keeps hashes and slots unique |
| ApiKeys.SlotHoldsLastIssued | internal/auth/store.go:342-349 | Over every run a slot has at most one row: the key of the last issue that took it, revoked if it was since |
| ApiKeys.NewestKeyValidatesExactly | internal/auth/store.go:342-423 | After any run a raw key validates on a slot if and only if it has the hash of the newest key issued there, which was not revoked since and has not expired; and it speaks for the user and project of the slot in the role of that issue |
| ApiKeys.OnlyNewestKeyValidates | internal/auth/store.go:342-369 | So only the newest raw key of a slot can validate |
| ApiKeys.RevokedUnboundNeverValidates | internal/auth/store.go:351-357 | A revoked key without a project never validates again, even re-issued with the same raw value |
| ApiKeys.ReissueRevivesSlot | internal/auth/store.go:342-369 | A revoked project key is revived by its next issue |
| LibraryStamp.RenderIsOneStamp | internal/cli/cmd_skill_publish.go:420-433 | A rendered stamp is one line and the pattern matches all of it |
| LibraryStamp.StampedExactly | internal/cli/cmd_skill_publish.go:431-433 | A line is stamped if and only if it starts with the begin marker and an end marker stands behind it, and what comes off ends with the last end marker |
| LibraryStamp.StripsOneStamp | internal/cli/cmd_skill_publish.go:431-433 | A stamp in front of other text comes off that text, and takes the line with it when it is nothing else |
| LibraryStamp.StripIsIdempotent | internal/cli/cmd_skill_publish.go:431-433 | Stripping leaves no stamp line, also none glued together by the stripping, and is idempotent |
| LibraryStamp.InsertsAtLineStart | internal/cli/cmd_skill_publish.go:439-452 | The insertion point is always at the start of a line |
| LibraryStamp.StampGoesAfterFrontmatter | internal/cli/cmd_skill_publish.go:435-449 | The stamp becomes the line after the one that closes the frontmatter |
| LibraryStamp.StampGoesOnTop | internal/cli/cmd_skill_publish.go:439-452 | And the first line of a body without frontmatter, or with one that never closes or ends the body |
| LibraryStamp.StripUndoesInject | internal/cli/cmd_skill_publish.go:435-452 | Stripping an injected body gives the stripped body, and injection adds one line to it |
| LibraryStamp.LastStampWins | internal/cli/cmd_skill_publish.go:435-452 | Injecting one stamp and then another is injecting the other alone |
| LibraryStamp.ExactlyOneStamp | internal/cli/cmd_skill_publish.go:435-452 | The result has exactly one stamp line, the new one |
| LibraryStamp.AdoptGivesBackBody | internal/cli/cmd_skill_search_adopt.go:247-250 | Stripping on adoption gives back a stamp-free author body byte for byte |
| TaskSync.TagReadsBack | internal/cli/cmd_task_sync.go:242-264 | The tag written for a source reads back as the source if and only if it has no outer white space, and never as a local task |
| TaskSync.FirstForkTagCounts | internal/cli/cmd_task_sync.go:242-253 | Of several tags the first that names a source is read |
| TaskSync.Project.ReconcileTasks | internal/cli/cmd_task_sync.go:101-166 | The two loops compute the run, whatever order the rows are listed in: created, patched and skipped rows exactly, the row listed last being the one patched; the first refused upsert stops it |
| TaskSync.RunWritesEntry | internal/cli/cmd_task_sync.go:135-164 | An entry whose source no other has: the row of its source gets its name, body and tag; with none, and no local task of its name, there is a new row with just these; with a local task of its name no row appears |
| TaskSync.StoppedRunIsRun | internal/cli/cmd_task_sync.go:145-162 | A run that stops early is a run over the entries it dealt with |
| TaskSync.RunKeepsRows | internal/cli/cmd_task_sync.go:135-164 | A run deletes nothing, changes no local task, and keeps the id and source of every row it updates |
| TaskSync.RunKeepsForksUniqueExactly | internal/cli/cmd_task_sync.go:125-164 | One run leaves at most one row a source if and only if that held before and no created entry reads back as the source of another or of an old row |
| TaskSync.RepeatedSourceIsCreatedTwice | internal/cli/cmd_task_sync.go:103-164 | A run for which it fails: a publisher listed twice |
| TaskSync.SourcesDifferExactly | internal/cli/cmd_task_sync.go:137 | For publishers without a slash two tasks have one source if and only if they have one publisher and one name |
| TaskSync.SlashedSourcesMeet | internal/cli/cmd_task_sync.go:137 | With a slash in a publisher or a name, two tasks of different publishers and names can have one source |
| TaskSync.TasksHaveDistinctSources | internal/cli/cmd_task_sync.go:103-137 | Unique trimmed names under trimmed publishers without a slash have distinct trimmed sources |
| TaskSync.DistinctSourcesNeverClash | internal/cli/cmd_task_sync.go:125-164 | Distinct trimmed sources never clash |
| TaskSync.DistinctSourcesKeepForksUnique | internal/cli/cmd_task_sync.go:98-164 | So one run keeps at most one row a source |
| TaskSync.SecondRunCreatesNothingExactly | internal/cli/cmd_task_sync.go:135-164 | A second run over the same library creates nothing if and only if every source the first run created a row for is trimmed |
| TaskSync.PaddedNameIsCreatedAgain | internal/cli/cmd_task_sync.go:135-164 | Two runs for which it fails: a name that ends in white space |
| TaskSync.SyncConverges | internal/cli/cmd_task_sync.go:98-166 | With distinct trimmed sources, and one row a source before, a second run changes nothing at all, however its rows are listed |
| Inbox.LocalRefExactly | internal/cli/cmd_story_review.go:830-838 | The ledger entry has the kind and body of the message, the payload every key of the message, and it names the message in local_ref unless the message has that key itself |
| Inbox.ReferenceIsOverridden | internal/cli/cmd_story_review.go:830-838 | A message whose own key replaces the reference |
| Inbox.ReviewLoop.InboxAppend | internal/workstate/inbox.go:56-75 | Stages a message under a number above every earlier one |
| Inbox.ReviewLoop.AdvanceInboxFlush | internal/workstate/inbox.go:180-198 | Raises the mark and never lowers it |
| Inbox.ReviewLoop.FlushLocalInbox | internal/cli/cmd_story_review.go:814-851 | The loop appends the messages above the mark in order and raises the mark to the newest |
| Inbox.ExactlyOnce | internal/cli/cmd_story_review.go:807-813 | Over every run whose appends and mark updates succeed, the ledger is the messages up to the mark, in order |
| Inbox.ExactlyOnceByNumber | internal/cli/cmd_story_review.go:807-813 | So each such message is in the ledger once, and no other message at all |
| Inbox.LedgerInOrder | internal/cli/cmd_story_review.go:807-838 | In the order they were staged, each with the kind, body and payload of its message |
| Inbox.FlushWritesAboveMark | internal/cli/cmd_story_review.go:826-845 | A flush, whatever fails in it, writes only messages above the mark and each at most once |
| Inbox.SettledForGood | internal/cli/cmd_story_review.go:826-850 | A message at or below the mark is never written again by any later run |
| Inbox.FlushSettlesExactly | internal/cli/cmd_story_review.go:807-850 | A marked flush settles what it read for every later run: written if the append succeeded, else never retried, against the comment |
| Inbox.FailedAppendIsLost | internal/cli/cmd_story_review.go:807-850 | Runs in which a message whose append failed is never in the ledger |
| ContextBudget.BoundAlwaysParts | internal/cli/cmd_hook_context.go:402-424 | The longest prefix of parts whose join fits, truncation reported exactly when it is proper |
| ContextBudget.JoinPartsIsBlankLineJoin | internal/cli/cmd_hook_context.go:402-424 | For non-empty parts the builder is the blank-line join |
| ContextBudget.AddItems | internal/cli/cmd_hook_context.go:239-248 | The inner loop keeps the index map in agreement with the slice and the slice a merge of what was read |
| ContextBudget.MergeAlwaysItems | internal/cli/cmd_hook_context.go:231-252 | Every name once, in order of first appearance, with its last item |
| ContextBudget.MergeIsUnique | internal/cli/cmd_hook_context.go:231-252 | Only one list fits that description |
| ContextBudget.TruncateExplicit | internal/cli/cmd_hook_context.go:384-400 | Cut at the last rune start that leaves room for the marker; fits if and only if the text or the marker does; whole runes stay whole |
| ContextBudget.Utf8IsWholeRunes | internal/cli/cmd_hook_context.go:384-400 | Every text in UTF-8 (section 3 of RFC 3629) is whole runes |
| ContextBudget.TruncationKeepsPoints | internal/cli/cmd_hook_context.go:390-399 | What is kept of a text in UTF-8 is its first code points, whole |

## Left out

- ShellScan.RedirectTargets: redirects of the shell language the pattern does not match, and several on one segment, are only as the pattern has them.
- HeredocWords.HeredocClosedByItsWord: is about lines with one operator; of a line with several, which the source calls exotic, only the automaton is stated.
- ShellScan.GitSubcommand: lower-casing of non-ASCII letters is not modelled.
- SkillTree.Skills.SyncScopes: file-system errors, the stop at the first error, directory modes and the texts printed are not modelled; the rows are given after the `sync:true` filter.
- SkillTree.Skills.BackupSkill: backup names are not modelled, only their order; two backups in one millisecond would share a name. A missing SKILL.md, an error in the source, cannot occur for a conflict and is excluded.
- SkillTree.Skills.ReadLocalSkill: the frontmatter scope it also records is not modelled, no verdict reads it.
- Reconcile.SortNames: `sort.Strings` is a selection sort here, with the order it must produce.
- Text.TrimPadded: white space beyond ASCII is not modelled.
- ShellScan.ScanIgnoresHeredocBodies: is about the trimmed text; when nothing but white space follows the operator, the trim itself may reach into that line.
- OAuthServer.CompleteAuthorization: the redirect URL it builds after the last statement, and the failure to parse it, are not modelled.
- ClientRegistry.Registry.PutClient: of a client row only the redirect URIs are modelled.
- ApiKeys.KeyStore.IssueWithRaw: another call between its two statements is not modelled.
- ApiKeys.KeyStore.ValidateKeyWithRole: the join with the users table is not modelled; every key's user is taken to exist, and only its id is returned.
- TaskSync.Project.ReconcileTasks: the rows are listed completely and the library is taken in any order, so its sort by name, the 200 and 500 row limits and errors of the listings are not modelled.
- Inbox.ReviewLoop.FlushLocalInbox: deleting the rows of a finished story (`CleanupWork`) and the JSON codec of payloads are not modelled; a payload is a map, empty when it does not parse.
- LibraryStamp.AdoptGivesBackBody: the forked-from line adoption writes afterwards is not modelled.
- ContextBudget.BoundAlwaysParts: fetching the parts is not modelled.
- HTTP parsing, cookies, command-line flags and all printed text.
- The `GetSessionByClientID` resume of an authorize request without a redirect URI.
- Workflow sync, `publishBatch`, and the deciders of one branch.
