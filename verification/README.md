# A verified model of the SMTP credential broker

The broker is a management plane for a Postfix relay: a web application keeps users, senders,
upstream accounts and certificates in a database, and drives a Postfix container through a small
control surface. Most of it is thin; a handful of stateful protocols are not. This project models
those protocols in Dafny and proves what they are for.

`dafny verify dfyconfig.toml` checks everything.

| file | what it models |
|---|---|
| `LimiterSpec.dfy` | the sending limits as a function of the permits given so far, and the arithmetic bounds they imply |
| `DeferStreak.dfy` | the defer streak as a property of the history of decisions |
| `PolicyService.dfy` | the limiter as it is: counter, bucket and streak columns, lazy refill, daily cleanup, auto-disable, alerts; refines the two above |
| `PolicyWire.dfy`, `PolicyConnection.dfy` | the Postfix policy protocol: reading requests from a byte stream, and answering them |
| `ConfigMaps.dfy`, `MapMeaning.dfy` | rendering of the five lookup maps; what they mean when read back; the checksums |
| `ControlSurface.dfy` | applying a configuration: staged maps, two-file install, ordered activation, restart, roll back |
| `ConfigProtocol.dfy` | generations recorded in the database, and the health check that relies on them |
| `Credentials.dfy` | database, live sasldb2 and its copy on the volume, with every step free to fail |
| `LogTail.dfy` | reading the mail log through a persisted cursor across rotations |
| `MailParser.dfy`, `MailLines.dfy` | the line parser, and the lines Postfix writes |
| `MailIngest.dfy`, `MailTable.dfy` | correlation of events into one row per message; the whole path from log to table, and what the table shows of a message |
| `LoginLockout.dfy` | the login lockout ladder and the login itself |
| `Certificates.dfy` | installing, issuing and renewing the TLS certificate |
| `KeyRotation.dfy` | re-encryption of every stored secret |
| `Text.dfy`, `Prelude.dfy` | text and option helpers |

## Conventions

- Time is a number of microseconds. Bucket tokens are counted in units of 1/3 600 000 000 of a
  token, so that the refill per microsecond is a whole number and nothing is rounded.
- External commands, the network, clocks and random draws are parameters that a caller may choose
  freely; where a property needs an assumption about them it is a named predicate.
- Code that changes state is a class whose methods do what the code does, proved against a
  function or a history that says what it means. Runs are sequences of events over that function,
  or of calls on an object whose invariant is the property.
- SHA-256 is injective and authenticated encryption opens with its own key only.

## What the proofs turned up

Each of these is a property that the code does not have, with an input that shows it and the exact
condition under which it holds.

- `backend/app/core/config_generator.py:107-111` says that only accounts that opted out lose
  certificate verification. The map is keyed by host and port, so an account sharing both with one
  that opted out loses it too: `MapMeaning.SharedNexthopLosesVerification`,
  `MapMeaning.OnlyOptedOutIffNoSharedNexthop`.
- A failed configuration request is meant to leave both files as they were. An install that breaks
  off between them is not undone, and a file that did not exist before is not removed again:
  `ControlSurface.FailuresThatKeepNewFiles`, `ControlSurface.FailureKeepsFilesIff`.
- `regenerate_password` does not look at the `enabled` flag, so regenerating for a disabled user
  gives a disabled user a known password: `Credentials.DisabledUserGetsPassword`,
  `Credentials.RegenerateIsSafeIffEnabled`.
- A generation whose reply is lost leaves no row, after which the health check can report "ok" for
  a relay that has another configuration: `ConfigProtocol.LostReplyDeceivesHealth`,
  `ConfigProtocol.LostReplyHarmlessIff`.
- `backend/app/core/rate_limit.py:102-106` says that the lockout cannot be used to find out which
  emails have an account. One counter serves all unknown emails, while each account has its own, so
  after five guesses at unknown emails the next unknown one is refused and a known one is not:
  `LoginLockout.UnknownEmailIsToldApart`, `LoginLockout.AlikeNowIff`, `LoginLockout.AlikeForeverIff`.
- A line of the mail log longer than one read is never consumed, nor anything after it:
  `LogTail.LongLineBlocks`, `LogTail.StuckForeverIff`.
- A call that rotates the log and is then not committed loses what it handed out:
  `LogTail.LastLineLost`, `LogTail.UncommittedRotationLosesText`.
- The text `sasl_username=` anywhere in a message with a queue id, even in a recipient chosen by a
  client, makes it an authentication: `MailLines.AddressesTakenForUsers`, `MailLines.AuthIffUsername`,
  `MailLines.DeliveryIffNoUsername`, `MailLines.EnqueuedIffNoUsername`.
- The renewal gate is measured from the moment it was closed, and the order is placed afterwards, so
  two orders can be less than a day apart: `Certificates.OrdersLessThanADayApart`,
  `Certificates.OrdersAreSpaced`, `Certificates.ADayApartIffAtOnce`.
- A manual order is checked for expiry before the wait for its record, so it can be handed in when
  it has expired: `Certificates.ExpiredOrderIsHandedIn`, `Certificates.UnexpiredAtHandInIff`.
- Key rotation sets the `updated_at` columns of the rows it updates as well, because they are
  declared with `onupdate` (`backend/app/models/upstream.py:50`): `KeyRotation.UpdateTimeChanges`,
  `KeyRotation.OtherCellsStay`.

## Model

| member | source | states |
|---|---|---|
| `LimiterSpec.WindowStartIsUnique` | backend/app/core/rate_limit_policy.py:66-67 | the top of the hour is the only whole hour whose hour contains the instant |
| `LimiterSpec.CountInIsCardinality` | backend/app/core/rate_limit_policy.py:95-111 | the count of an interval is the number of permits in it |
| `LimiterSpec.RunsAreLegal` | backend/app/core/rate_limit_policy.py:80-157 | over a clock that does not run backwards, every permit was allowed by the permits before it, whatever run came before |
| `LimiterSpec.HourlyBound` | backend/app/core/rate_limit_policy.py:18-20 | no clock hour holds more than N permits |
| `LimiterSpec.Paid` | backend/app/core/rate_limit_policy.py:70-77 | permits since any instant plus the bucket level are covered by capacity and refill since then |
| `LimiterSpec.BurstBound` | backend/app/core/rate_limit_policy.py:21-31 | permits in any closed interval are at most the burst plus the refill of that interval |
| `LimiterSpec.SlidingHourBound` | backend/app/core/rate_limit_policy.py:16-31 | any half-open hour holds at most 2N permits, and fewer than N + B with burst protection |
| `LimiterSpec.HourlyCeilingAloneReachesTwice` | backend/app/core/rate_limit_policy.py:24-31 | without burst protection 2N within an hour is reached, for every N |
| `LimiterSpec.LegalBounds` | backend/app/core/rate_limit_policy.py:16-40 | the bounds follow from each permit having been allowed |
| `LimiterSpec.RunBounds` | backend/app/core/rate_limit_policy.py:16-40 | all four bounds hold for every run of attempts, continuing any other |
| `LimiterSpec.LevelIsAllowance` | backend/app/core/rate_limit_policy.py:70-77 | the bucket level in terms of the permits since each earlier permit, without a bucket |
| `LimiterSpec.BurstDecisionIsExact` | backend/app/core/rate_limit_policy.py:112-125 | burst protection lets a message through if and only if no interval ending now would exceed its bound |
| `LimiterSpec.LevelAdvances` | backend/app/core/rate_limit_policy.py:70-77 | refilling lazily in several steps equals refilling once |
| `LimiterSpec.PermitsContinue` | backend/app/core/rate_limit_policy.py:80-157 | a run can be cut anywhere and continued from its permits |
| `LimiterSpec.DeferredAttemptsAreFree` | backend/app/core/rate_limit_policy.py:33-37 | leaving any deferred attempts out of a run changes no other decision |
| `DeferStreak.StreakIsMaximalChain` | backend/app/core/rate_limit_policy.py:134-144 | a recorded streak is the longest chain of defers at most ten minutes apart that ends the history |
| `DeferStreak.MaximalChainIsStreak` | backend/app/core/rate_limit_policy.py:134-144 | and any such chain is the recorded streak |
| `DeferStreak.ThrottledMeansContinuously` | backend/app/core/rate_limit_abuse.py:51-63 | a throttled user had no permit and no re-enable since the cutoff, and an unbroken chain of defers from then to the recent past |
| `DeferStreak.ThrottledIff` | backend/app/core/rate_limit_abuse.py:51-63 | throttled if and only if some chain of defers at most ten minutes apart reaches from the cutoff or earlier to the recent past |
| `DeferStreak.SilenceEndsThrottling` | backend/app/core/rate_limit_abuse.py:51-63 | a rejection followed by ten minutes of silence is not throttling |
| `PolicyService.RowsAreIdeal` | backend/app/core/rate_limit_policy.py:95-125 | the counter row is the number of permits of this hour, the refilled bucket row the level of the ideal bucket |
| `PolicyService.VerdictSaysWhy` | backend/app/core/rate_limit_policy.py:112-148 | the hourly limit is named, with its number, if and only if the hour's permits are used up, whatever the bucket says; the burst limit if and only if they are not and some interval would exceed its bound |
| `PolicyService.RefillIsIdeal` | backend/app/core/rate_limit_policy.py:70-77 | the lazy refill of a row that was right when written is right now |
| `PolicyService.PermitFits` | backend/app/core/rate_limit_policy.py:150-156 | counting and spending on a permit keeps every row equal to what the history implies |
| `PolicyService.DeferFits` | backend/app/core/rate_limit_policy.py:127-145 | so does keeping the refill and advancing the streak on a defer |
| `PolicyService.DefaultRowsFit` | backend/app/core/rate_limit_policy.py:104-123 | creating a missing counter at zero or a missing bucket full changes no answer |
| `PolicyService.StillFits` | backend/app/core/rate_limit_cleanup.py:22-36 | rows of other users and past hours do not matter |
| `PolicyService.OneUserStep` | backend/app/core/rate_limit_policy.py:80-157 | evaluating one user's message disturbs nobody else's limits |
| `PolicyService.PredictionAdvances` | backend/app/core/rate_limit_policy.py:271-286 | request by request, the answers on a connection are those of the history-based specification |
| `PolicyService.AnsweredNext` | backend/app/core/rate_limit_policy.py:271-286 | one more answered request keeps all answers as predicted |
| `PolicyService.ServedWithinBounds` | backend/app/core/rate_limit_policy.py:16-40 | whatever arrives on a connection and whatever came before it, each user's permits obey all four bounds |
| `PolicyService.EveryStateWithinBounds` | backend/app/core/rate_limit_policy.py:16-40 | they do in every reachable state of the service, across connections, cleanups, re-enables and auto-disables |
| `PolicyService.StaysLegal` | backend/app/core/rate_limit_policy.py:127-157 | one more decision keeps every user's permits allowed by the limits |
| `PolicyService.CandidateRowsAreThrottled` | backend/app/core/rate_limit_abuse.py:51-63 | the query over the streak columns selects exactly the users throttled by their history |
| `PolicyService.CleanupFits` | backend/app/core/rate_limit_cleanup.py:28-36 | the cleanup removes no row that can still matter |
| `PolicyService.LimiterStore.Evaluate` | backend/app/core/rate_limit_policy.py:80-157 | the verdict is the one the user's earlier permits imply; the history grows by exactly this decision |
| `PolicyService.LimiterStore.CheckLimits` | backend/app/core/rate_limit_policy.py:95-125 | both checks equal their history-based meaning, whichever rows were missing |
| `PolicyService.LimiterStore.RecordDefer` | backend/app/core/rate_limit_policy.py:127-148 | a defer spends from neither budget and is recorded in the streak |
| `PolicyService.LimiterStore.RecordPermit` | backend/app/core/rate_limit_policy.py:150-157 | a permit is counted once, costs one token and ends the streak |
| `PolicyService.LimiterStore.HandleConnection` | backend/app/core/rate_limit_policy.py:259-288 | every answer of a connection is what that user's permits call for; a request that fails, or concerns no limited user, is let through |
| `PolicyService.LimiterStore.RunCleanup` | backend/app/core/rate_limit_cleanup.py:28-36 | exactly the counter rows older than three hours go, and no decision changes |
| `PolicyService.LimiterStore.CleanupTick` | backend/app/core/rate_limit_cleanup.py:39-54 | either nothing changes, or exactly the old counters go; over every run the cleanups are 24 hours or more apart |
| `PolicyService.LimiterStore.CurrentUsage` | backend/app/core/rate_limit_policy.py:160-174 | the read-out is the number of permits this hour, for any user, and agrees with the decision for limited ones |
| `PolicyService.LimiterStore.CurrentBurstTokens` | backend/app/core/rate_limit_policy.py:177-186 | the read-out is the ideal level, between 0 and the burst, and agrees with the decision |
| `PolicyService.LimiterStore.ClearStreakOnReEnable` | backend/app/api/routes/local_users.py:230-239 | re-enabling clears the streak, so throttling has to build up anew |
| `PolicyService.LimiterStore.RunAbuseDetection` | backend/app/core/rate_limit_abuse.py:41-89 | disabled are exactly the throttled enabled users whose credential could be removed, each once, none with a permit or re-enable since the cutoff |
| `PolicyService.LimiterStore.ThrottledAlerts` | backend/app/core/alerts.py:92-131 | the enabled users shown are exactly the auto-disable candidates of that instant |
| `PolicyWire.ReadRequest` | backend/app/core/rate_limit_policy.py:240-256 | the reading loop computes the request at the head of the stream, and ends |
| `PolicyWire.ParseAttributes` | backend/app/core/rate_limit_policy.py:189-199 | the attribute map of a request, a later line winning over an earlier one |
| `PolicyWire.HandleConnection` | backend/app/core/rate_limit_policy.py:271-286 | the connection loop ends on every byte stream and evaluates exactly the requests in it |
| `PolicyWire.ReadsWhole` | backend/app/core/rate_limit_policy.py:240-256 | an encoded request is read back as its lines, and nothing after it is consumed |
| `PolicyWire.AttributesSurvive` | backend/app/core/rate_limit_policy.py:189-199 | and parsed back to the attributes it was made of |
| `PolicyWire.LineWithoutEqualsIsSkipped` | backend/app/core/rate_limit_policy.py:189-199 | a line without `=` has no effect, wherever it stands |
| `PolicyWire.CarriageReturnIsIgnored` | backend/app/core/rate_limit_policy.py:244-256 | a carriage return before the line feed makes no difference |
| `PolicyWire.RequestsSurvive` | backend/app/core/rate_limit_policy.py:271-286 | round trip for any list of requests on one connection |
| `PolicyWire.CutOffIsNotRead` | backend/app/core/rate_limit_policy.py:244-250 | a request cut off anywhere is not evaluated |
| `PolicyWire.OnlyWholeRequestsCount` | backend/app/core/rate_limit_policy.py:271-286 | a connection that dies inside a request had exactly the complete ones evaluated |
| `PolicyWire.LimitsHold` | backend/app/core/rate_limit_policy.py:202-205 | no evaluated request exceeds 100 lines or 2048 bytes in a line |
| `PolicyConnection.Serve` | backend/app/core/rate_limit_policy.py:259-288 | the bytes of a connection get the verdicts that the users' permits call for, one for each request that can be read |
| `PolicyConnection.ServeRequests` | backend/app/core/rate_limit_policy.py:259-288 | end to end: encoded requests get one verdict each, in order, as predicted from the users' permits |
| `PolicyConnection.ServedStreamWithinBounds` | backend/app/core/rate_limit_policy.py:16-40 | whatever bytes arrive, each user's permits obey all four bounds |
| `ConfigMaps.SenderLoginMap` | backend/app/core/permissions.py:9-31 | the keys are the authorised addresses, each with exactly its enabled owners in order |
| `ConfigMaps.GroupsEveryOwner` | backend/app/core/permissions.py:28-31 | grouping the joined rows collects each address's owners, none lost or mixed |
| `ConfigMaps.SenderLines` | backend/app/core/config_generator.py:100-122 | one line per routed sender in each of three maps; the policy covers exactly the nexthops that opted out |
| `ConfigMaps.Warnings` | backend/app/core/config_generator.py:124-133 | each enabled sender without a route is warned about exactly once, nobody else |
| `ConfigMaps.BuildMaps` | backend/app/core/config_generator.py:87-142 | all five maps equal the declarative rendering; every enabled sender is routed or warned about |
| `ConfigMaps.PacedAccountMap` | backend/app/core/config_generator.py:68-84 | the accounts that pace some routed sender, once each |
| `ConfigMaps.RateLimitedAccountTransports` | backend/app/core/config_generator.py:68-84 | exactly those accounts, sorted by id without repeats, with their delays |
| `MapMeaning.MapTextIsLossless` | backend/app/core/config_generator.py:32-33 | a rendered map reads back entry by entry |
| `MapMeaning.NexthopIsLossless` | backend/app/core/config_generator.py:114 | host and port are recovered from a nexthop |
| `MapMeaning.CredentialsAreLossless` | backend/app/core/config_generator.py:115-116 | user name and password are recovered at the first colon, colons in passwords included |
| `MapMeaning.TransportIsLossless` | backend/app/core/config_generator.py:36-52 | the kind of transport and the paced account are recovered from its name |
| `MapMeaning.MapsAreLossless` | backend/app/core/config_generator.py:87-142 | reading the maps back gives the routing and authorisations of the database, for every database the schemas admit |
| `MapMeaning.RoutesOfTheTables` | backend/app/core/config_generator.py:87-142 | an address has a route, exactly one, if and only if its sender and account are enabled; it is that account's host, port, login and transport |
| `MapMeaning.OwnersOfTheTables` | backend/app/core/permissions.py:9-31 | a user may send as an address if and only if the address is routed and the user is enabled and was granted it |
| `MapMeaning.AuthorisedAreRouted` | backend/app/core/permissions.py:14-18 | no address can be sent as without having a route, in any database |
| `MapMeaning.ReferencedTransportsAreDeclared` | backend/app/core/config_generator.py:68-84 | the paced transports used by senders are exactly those given to master.cf |
| `MapMeaning.PolicyIsLossless` | backend/app/core/config_generator.py:140 | the policy map reads back as exactly the nexthops without verification, each with `encrypt` |
| `MapMeaning.VerificationIsPerNexthop` | backend/app/core/config_generator.py:107-122 | verification is off for a sender if and only if some routed account with its host and port opted out |
| `MapMeaning.OnlyOptedOutIffNoSharedNexthop` | backend/app/core/config_generator.py:107-111 | the comment's claim holds if and only if no account shares a nexthop with one that opted out |
| `MapMeaning.SharedNexthopLosesVerification` | backend/app/core/config_generator.py:107-122 | a database in which the claim fails |
| `MapMeaning.ConfigChecksumIdentifies` | backend/app/core/config_generator.py:160-161 | equal preimages mean equal main.cf and master.cf |
| `MapMeaning.MapsChecksumIdentifies` | backend/app/core/config_generator.py:164-166 | equal preimages mean equal maps, although upstream login names, and so the password map, may contain the separator |
| `MapMeaning.EqualMapsChecksumsMeanEqualRouting` | backend/app/core/config_generator.py:164-166 | equal maps checksums mean equal routing and authorisations |
| `MapMeaning.PacingKeepsTheRate` | backend/app/core/config_generator.py:55-58 | deliveries spaced by the delay never exceed N in any half-open hour |
| `MapMeaning.DelayIsCeiling` | backend/app/core/config_generator.py:55-58 | the delay is the least whole number of seconds with N of them filling the hour |
| `ControlSurface.LoginComesLast` | postfix/control_surface.py:256-276 | the stable sort activates the four routing maps first and authorisation last |
| `ControlSurface.RejectionChangesNothing` | postfix/control_surface.py:322-396 | a failed validation or dry run changes nothing live |
| `ControlSurface.SuccessInstallsEverything` | postfix/control_surface.py:322-396 | success means the requested files and maps are live, and loaded if a restart was requested |
| `ControlSurface.FailureRestoresFiles` | postfix/control_surface.py:311-396 | a reported failure restores both files, if both existed and the install was not cut in half |
| `ControlSurface.FailureKeepsFilesIff` | postfix/control_surface.py:291-396 | exactly when both files survive a reported failure, whether or not they existed before |
| `ControlSurface.FailuresThatKeepNewFiles` | postfix/control_surface.py:291-396 | two failures after which they do not |
| `ControlSurface.SucceedsIff` | postfix/control_surface.py:322-396 | a request succeeds if and only if it validates, installs, activates and, if a restart was asked for, stops and starts; it says so, and whether it restarted |
| `ControlSurface.NoRestartNoChange` | postfix/control_surface.py:322-352 | a request that does not get as far as a restart stops nothing and loads nothing |
| `ControlSurface.RunsAfterFailedRestart` | postfix/control_surface.py:364-394 | after a failed restart Postfix runs if and only if it could not be stopped, or there were previous files and it starts with them; and what it then has loaded |
| `ControlSurface.LiveMapsAfter` | postfix/control_surface.py:256-276 | the live maps after any request, in particular after an activation that stopped at any map |
| `ControlSurface.PostfixContainer.StageMaps` | postfix/control_surface.py:236-253 | the dry run succeeds if and only if every map builds, and touches nothing live |
| `ControlSurface.PostfixContainer.InstallConfig` | postfix/control_surface.py:291-308 | both files are replaced and the old ones returned, or how far it got |
| `ControlSurface.PostfixContainer.ActivateMaps` | postfix/control_surface.py:256-276 | the live maps afterwards, also after a partial failure; at each instant authorisation changes last |
| `ControlSurface.PostfixContainer.ApplyConfig` | postfix/control_surface.py:322-396 | the whole call equals its closed form, of which the rows above say what it means; the instant-by-instant invariant holds over all calls |
| `ConfigProtocol.ConfigGenerator.GenerateAndApply` | backend/app/core/config_generator.py:189-265 | the call and the row it records equal one step of the protocol, and a reported one keeps the rows truthful |
| `ConfigProtocol.GenerateSucceeds` | backend/app/core/config_generator.py:189-265 | a successful generation leaves the host with exactly what its row stands for |
| `ConfigProtocol.GenerateFails` | backend/app/core/config_generator.py:189-265 | a failed one leaves a failed row, which the next decision takes into account |
| `ConfigProtocol.OneRowPerAnswer` | backend/app/core/config_generator.py:189-265 | one row for each answer, with the checksums of what was sent and whether it was applied; none without an answer, for a dry run or an undecryptable password |
| `ConfigProtocol.NoNeedlessRestart` | backend/app/core/config_generator.py:205-238 | a running relay is not restarted, whatever fails, if only maps changed |
| `ConfigProtocol.NeededRestart` | backend/app/core/config_generator.py:205-238 | a successful call leaves Postfix running with the new files if they changed, or if Postfix was down or could not be asked |
| `ConfigProtocol.SameDigestsSameRendering` | backend/app/core/config_generator.py:160-178 | matching checksums mean matching renderings |
| `ConfigProtocol.StepKeepsConsistent` | backend/app/core/config_generator.py:189-265 | every edit, reported generation and crash keeps the rows truthful about the host |
| `ConfigProtocol.RunsStayConsistent` | backend/app/core/config_generator.py:189-265 | so does every run |
| `ConfigProtocol.HealthTellsTheTruth` | backend/app/core/health.py:43-109 | over every run, "ok" from a control surface that was reached, after something was applied, means Postfix runs with the files and maps of the current database |
| `ConfigProtocol.ReportIsHonest` | backend/app/core/health.py:43-109 | in any state, reached or not: "ok" needs an answer and a last generation that did not fail, and each part of the report is what it says |
| `ConfigProtocol.HealthIsOkIff` | backend/app/core/health.py:43-109 | in every reachable state "ok" if and only if the control surface was reached and either nothing was ever generated, or the last generation passed and Postfix runs with the files and maps of the current database |
| `ConfigProtocol.SuccessIsHealthy` | backend/app/core/health.py:43-109 | a successful generation without a crash is reported as "ok" |
| `ConfigProtocol.AuthorizationNeverLeads` | postfix/control_surface.py:256-276 | whenever the live authorisation map changes, every address it authorises has its route, credentials and transport live |
| `ConfigProtocol.LostReplyDeceivesHealth` | backend/app/core/config_generator.py:189-265 | a lost reply can make "ok" false, by a concrete run |
| `ConfigProtocol.LostReplyHarmlessIff` | backend/app/core/config_generator.py:189-265 | editing, losing a reply and editing back leaves the health check truthful under all outcomes if and only if nothing was edited or the rows were not settled before |
| `Credentials.DeleteKeeps` | postfix/control_surface.py:179-196 | deleting a credential never makes another one usable, however it fails |
| `Credentials.DeletingKeeps` | backend/app/core/rate_limit_abuse.py:65-89 | nor does a series of deletions, and whoever was confirmed is gone |
| `Credentials.StepKeepsSafe` | backend/app/api/routes/local_users.py:118-328 | each route, job and recreation keeps the credential invariant under every failure |
| `Credentials.RunsStaySafe` | backend/app/api/routes/local_users.py:118-328 | over every run, a user not enabled never has a password that was shown to an administrator, live or in the copy |
| `Credentials.RegenerateIsSafeIffEnabled` | backend/app/api/routes/local_users.py:262-293 | regenerating keeps the invariant under all outcomes if and only if the user is enabled |
| `Credentials.DisabledUserGetsPassword` | backend/app/api/routes/local_users.py:262-293 | a disabled user who can log in after it |
| `Credentials.ShownPasswordsWork` | backend/app/api/routes/local_users.py:124-172 | a password that was shown works, live and after a recreation |
| `Credentials.RevokedMeansGone` | backend/app/api/routes/local_users.py:308-328 | a confirmed revocation left no credential, live or in the copy |
| `Credentials.ReconcileRemovesStrangers` | backend/app/core/sasldb_reconcile.py:22-44 | an undisturbed reconciliation leaves only enabled users in sasldb2 |
| `Credentials.ReconcileKeepsEnabled` | backend/app/core/sasldb_reconcile.py:33-36 | no reconciliation, however it fails, touches an enabled user's password |
| `Credentials.OthersKeepTheirCredentials` | backend/app/api/routes/local_users.py:118-328 | no route or job changes the flag or the password of a user it is not about, live or, but for being brought up to date, in the copy |
| `Credentials.WorkingRoutesWork` | backend/app/api/routes/local_users.py:118-328 | a route that meets no failure does all of what it is for, in the database, live and in the copy; one that does not apply does nothing |
| `Credentials.WorkingAutoDisable` | backend/app/core/rate_limit_abuse.py:65-89 | an auto-disable that meets no failure disables exactly the enabled candidates and removes their credentials |
| `Credentials.FailuresShowNothing` | backend/app/api/routes/local_users.py:95-328 | a route that fails anywhere shows no password and changes no flag |
| `Credentials.NamesStayApart` | backend/app/api/routes/local_users.py:130-134 | over every run no two user names differ in case only, so none is the same login to Postfix as another |
| `Credentials.CredentialStores.SaslSetUser` | postfix/control_surface.py:147-162 | the new state of both copies for each place it can fail |
| `Credentials.CredentialStores.SaslDeleteUser` | postfix/control_surface.py:165-196 | the same for a deletion, which syncs even if the name was already gone |
| `Credentials.CredentialStores.CreateUser` | backend/app/api/routes/local_users.py:118-172 | the route equals its step and keeps the credential invariant: nothing is shown unless all of it worked |
| `Credentials.CredentialStores.SetEnabled` | backend/app/api/routes/local_users.py:181-259 | the route equals its step and keeps the invariant: disabling revokes first, enabling gets a new password |
| `Credentials.CredentialStores.RegeneratePassword` | backend/app/api/routes/local_users.py:262-293 | the route equals its step, and keeps the invariant for an enabled user |
| `Credentials.CredentialStores.DeleteUserRoute` | backend/app/api/routes/local_users.py:308-328 | the route equals its step and keeps the invariant: the credential goes before the row |
| `Credentials.CredentialStores.RunAutoDisable` | backend/app/core/rate_limit_abuse.py:65-89 | the job equals its step and keeps the invariant: only users whose deletion was confirmed are disabled |
| `Credentials.CredentialStores.ReconcileSasldb` | backend/app/core/sasldb_reconcile.py:22-44 | the job equals its step and keeps the invariant; enabled names are skipped and their passwords stay |
| `LogTail.LinesOfPieces` | postfix/control_surface.py:522-528 | cutting the log after line feeds cuts its list of lines |
| `LogTail.LinesSurvive` | postfix/control_surface.py:522-528 | lines written one after another are read back as they were |
| `LogTail.TailIsASlice` | postfix/control_surface.py:513-533 | what is handed out is the file from the start to the new offset, complete lines only |
| `LogTail.TailMakesProgressIff` | postfix/control_surface.py:519-528 | a call hands out a line if and only if one ends within one read of the cursor |
| `LogTail.RotatesIff` | postfix/control_surface.py:513-533 | a rotation is asked for if and only if the file has reached its size and nothing of it is left behind |
| `LogTail.StepKeepsExact` | backend/app/core/mail_log_ingest.py:84-162 | one append, ingestion or rotation keeps consumption exact |
| `LogTail.ConsumedIsPrefix` | postfix/control_surface.py:487-552 | exactly once: over every orderly run, what was consumed is a prefix of all that was logged, ending at a line |
| `LogTail.UncommittedRotationLosesText` | postfix/control_surface.py:530-552 | a rotation without a commit keeps that if and only if the cursor was at the end of the file |
| `LogTail.LastLineLost` | postfix/control_surface.py:530-552 | a log that loses its last line that way |
| `LogTail.RunStaysBlocked` | postfix/control_surface.py:519-528 | with a line longer than one read ahead, no run consumes anything |
| `LogTail.StuckForeverIff` | postfix/control_surface.py:519-528 | no run ever consumes anything again if and only if such a line lies ahead |
| `LogTail.LongLineBlocks` | postfix/control_surface.py:519-528 | a file with such a line |
| `LogTail.NothingIsConsumedTwice` | postfix/control_surface.py:487-552 | at most once, with no assumption on commits or inodes |
| `MailParser.EventsAreWellFormed` | backend/app/core/mail_log_parser.py:143-235 | rejects have no queue id, all others a well-formed one; no kind carries another kind's fields; which lines become events is stated in the rows below |
| `MailParser.UsernamesAreTokens` | backend/app/core/mail_log_parser.py:68 | a user name found is a token: not empty, no white space |
| `MailLines.HeaderIsRead` | backend/app/core/mail_log_parser.py:45-55 | every header Postfix writes is recognised and the message recovered |
| `MailLines.QueueIdIsNoReject` | backend/app/core/mail_log_parser.py:67-97 | a message with a queue id matches none of the four reject patterns |
| `MailLines.SearchFinds` | backend/app/core/mail_log_parser.py:68-72 | an unanchored search finds the attribute where it was written |
| `MailLines.AuthRoundTrip` | backend/app/core/mail_log_parser.py:206-208 | print and parse: authentication |
| `MailLines.EnqueuedRoundTrip` | backend/app/core/mail_log_parser.py:210-217 | print and parse: enqueued |
| `MailLines.AuthIffUsername` | backend/app/core/mail_log_parser.py:206-235 | any message with a queue id is an authentication if and only if a user name is found in it |
| `MailLines.KindOfMessage` | backend/app/core/mail_log_parser.py:201-235 | any message with a queue id, in full: what it is read as, and that it is no event if and only if it has no user name and starts with neither `from=` nor `to=` |
| `MailLines.RemovedIsNoEvent` | backend/app/core/mail_log_parser.py:235 | the queue manager's `removed` is no event |
| `MailLines.NothingElseIsAnEvent` | backend/app/core/mail_log_parser.py:138-204 | a rejection looks like one of the four kinds of them, and any other event starts with a queue id |
| `MailLines.ConnectIsNoEvent` | backend/app/core/mail_log_parser.py:138-141 | a client that connects is no event |
| `MailLines.EnqueuedIffNoUsername` | backend/app/core/mail_log_parser.py:206-217 | a `from=` line is read as enqueued if and only if none is |
| `MailLines.DeliveryIffNoUsername` | backend/app/core/mail_log_parser.py:206-233 | a `to=` line is read as the delivery it reports if and only if none is |
| `MailLines.AddressesTakenForUsers` | backend/app/core/mail_log_parser.py:206-208 | a recipient and a sender that are taken for user names |
| `MailLines.DeliveryRoundTrip` | backend/app/core/mail_log_parser.py:219-233 | print and parse: delivery, with relay, status and detail |
| `MailLines.RejectRoundTrip` | backend/app/core/mail_log_parser.py:153-171 | print and parse: reject |
| `MailLines.AuthFailedRoundTrip` | backend/app/core/mail_log_parser.py:173-183 | print and parse: failed authentication, the user name taken out of the reason |
| `MailLines.TlsFailedRoundTrip` | backend/app/core/mail_log_parser.py:185-191 | print and parse: failed TLS handshake |
| `MailLines.LostConnectionRoundTrip` | backend/app/core/mail_log_parser.py:193-199 | print and parse: lost connection |
| `MailIngest.LastKnownIsLast` | backend/app/core/mail_log_ingest.py:143-157 | the summarised value is that of the last event that reports one |
| `MailIngest.RecipientsInFirstSeenOrder` | backend/app/core/mail_log_ingest.py:149-150 | recipients are exactly the delivered ones, once each, in order of first mention |
| `MailIngest.QueueIdsAreNotSynthetic` | backend/app/core/mail_log_ingest.py:124-128 | no queue id equals the identifier made up for a reject |
| `MailIngest.SummaryOfMore` | backend/app/core/mail_log_ingest.py:139-157 | the summary of one more event is the in-place update of the summary |
| `MailIngest.TableGrows` | backend/app/core/mail_log_ingest.py:113-157 | updating one row turns the table of a history into that of the history with one more event |
| `MailIngest.OnlyOwnEventsCount` | backend/app/core/mail_log_ingest.py:6-13 | a row depends on its own message's events only |
| `MailIngest.DifferentMessagesCommute` | backend/app/core/mail_log_ingest.py:6-13 | events of different messages commute |
| `MailIngest.RowsOfMessagesAreDetermined` | backend/app/core/mail_log_ingest.py:6-13 | rows of queued messages depend neither on batches nor on random identifiers |
| `MailIngest.MailLogStore.UpdateRow` | backend/app/core/mail_log_ingest.py:143-157 | what an event changes in its row, and that no other row changes |
| `MailIngest.MailLogStore.ApplyEvent` | backend/app/core/mail_log_ingest.py:113-157 | the table stays the summary of all events; only a taken identifier can fail |
| `MailIngest.MailLogStore.ApplyLines` | backend/app/core/mail_log_ingest.py:113-157 | the same for a batch of lines |
| `MailIngest.MailLogStore.IngestNewLogLines` | backend/app/core/mail_log_ingest.py:84-162 | cursor and table advance together or not at all; the table is always that of the lines consumed |
| `MailIngest.MailLogStore.IngestUntilCaughtUp` | backend/app/core/mail_log_ingest.py:164-183 | at most fifty rounds, the total is the number of lines consumed, and stopping early leaves no complete line unread |
| `MailIngest.TableSummarisesAPrefix` | backend/app/core/mail_log_ingest.py:84-162 | end to end: the table is the summary of a prefix of everything logged |
| `MailTable.MessageIsShown` | backend/app/core/mail_log_ingest.py:139-157 | a message of which all lines were read, among whatever else was logged, is shown with its user, sender, recipients, account, last known status and last problem |
| `MailTable.LinesAreShown` | backend/app/core/mail_log_ingest.py:84-162 | from the text of those lines to that row |
| `MailTable.RefusalIsShown` | backend/app/core/mail_log_ingest.py:118-137 | from the text of a rejection to a row of its own, and no other row changes |
| `LoginLockout.LockoutSecondsFor` | backend/app/core/rate_limit.py:63-68 | the loop over the thresholds returns the highest one met |
| `LoginLockout.WorstCase` | backend/app/core/rate_limit.py:71-85 | the wait of one counter, in truncated seconds |
| `LoginLockout.CheckRateLimit` | backend/app/core/rate_limit.py:88-140 | the stricter of the counters that apply |
| `LoginLockout.SuccessClears` | backend/app/core/rate_limit.py:107-108 | a login clears the counters of its account |
| `LoginLockout.OthersDoNotMatter` | backend/app/core/rate_limit.py:94-106 | no attempt at another account, nor at an unknown email from another address, changes a check |
| `LoginLockout.FewFailuresAreFree` | backend/app/core/rate_limit.py:96-101 | guessing from elsewhere does not lock an administrator out before twenty failures within the hour |
| `LoginLockout.RunsAreAdmitted` | backend/app/api/routes/auth.py:64-94 | one attempt at a time, every recorded attempt passed a check against all earlier ones |
| `LoginLockout.FailuresAreSpaced` | backend/app/core/rate_limit.py:63-85 | the n-th failure within an hour comes no sooner than the ladder allows |
| `LoginLockout.HourlyFailureBound` | backend/app/config.py:23-28 | any closed hour without a login holds at most 17 failures per source and 48 per account |
| `LoginLockout.BoundIsReached` | backend/app/config.py:23-28 | both bounds are reached by a run |
| `LoginLockout.RetryAfterIsHonest` | backend/app/core/rate_limit.py:84-85 | after the announced wait the same check lets through |
| `LoginLockout.LockoutEnds` | backend/app/core/rate_limit.py:71-85 | a lockout ends 900 s after the last recorded failure at the latest, however many attempts are refused meanwhile |
| `LoginLockout.RefusedAttemptsAreFree` | backend/app/api/routes/auth.py:76-84 | attempts refused by a lockout record nothing and so never extend it: without them every record is the same |
| `LoginLockout.UnknownEmailLooksTheSame` | backend/app/core/rate_limit.py:102-106 | guesses at an account at rest and at an unknown email meet the same refusals and waits, from an address that has guessed at no unknown email for an hour |
| `LoginLockout.UnknownEmailIsToldApart` | backend/app/core/rate_limit.py:113-125 | a run after which they do not |
| `LoginLockout.AlikeNowIff` | backend/app/core/rate_limit.py:113-140 | for one look: alike if and only if fewer than five guesses at unknown emails count, or the lockout after the last has run out |
| `LoginLockout.AlikeForeverIff` | backend/app/core/rate_limit.py:113-140 | through every sequence of guesses: if and only if none counts |
| `LoginLockout.VerifyTotp` | backend/app/core/totp.py:19-30 | the earliest step of the drift window that is newer than the last one used and matches, if there is one |
| `LoginLockout.OneMoreCode` | backend/app/api/routes/auth.py:109-123 | accepting a newer step keeps the accepted steps of each account strictly increasing |
| `LoginLockout.LoginService.Login` | backend/app/api/routes/auth.py:71-130 | which of the five answers is given, as an if and only if for each; what is recorded and what changes, in every case; no code is accepted twice |
| `LoginLockout.LoginService.RequireCurrentPassword` | backend/app/api/routes/admins.py:36-55 | asking for the password uses and feeds the same counters |
| `Certificates.PostfixTls.InstallTlsCertificate` | postfix/control_surface.py:424-484 | success puts the pair live; a failed check changes nothing; a failed start brings the old pair back if and only if both files existed |
| `Certificates.CertificateService.Install` | backend/app/core/acme_tls.py:305-316 | the outcome as the backend sees it, also when the reply is lost, with the condition for each |
| `Certificates.CertificateService.FinishIssuance` | backend/app/core/acme_tls.py:287-352 | recorded if the answer never came or Postfix took it, and not if Postfix refused it; success means that Postfix serves it |
| `Certificates.CertificateService.IssueOrRenew` | backend/app/core/acme_tls.py:355-406 | recorded certificate, key and domain come from this one issuance, or nothing changes |
| `Certificates.CertificateService.BeginManualDnsChallenge` | backend/app/core/acme_tls.py:409-479 | a live challenge for the domain is never replaced, and otherwise a new one lasts 24 hours |
| `Certificates.CertificateService.FinalizeManualDnsChallenge` | backend/app/core/acme_tls.py:482-548 | each order is handed in at most once, only if unexpired when checked and for the configured domain; when the challenge survives |
| `Certificates.ExpiredOrderIsHandedIn` | backend/app/core/acme_tls.py:491-536 | an order that has expired by the time it is handed in |
| `Certificates.UnexpiredAtHandInIff` | backend/app/core/acme_tls.py:491-536 | no order is handed in expired, for every wait up to a bound, if and only if it outlives that bound |
| `Certificates.CertificateService.SyncCertificateToPostfix` | backend/app/core/acme_tls.py:551-570 | lost files are healed from the record, matching ones left alone without a restart |
| `Certificates.CertificateService.CertRenewalTick` | backend/app/core/cert_renewal.py:23-72 | attempts a renewal if and only if enabled, a day after the gate closed and due; the gate stays closed even if the attempt raises |
| `Certificates.CertificateService.AttemptRenewal` | backend/app/core/cert_renewal.py:54-70 | what an attempt records and reports; an exception discards everything since the gate was closed |
| `Certificates.RenewalsPerDay` | backend/app/core/cert_renewal.py:29-53 | over any period the gate is closed at most once a day, plus once |
| `Certificates.OrdersPerDay` | backend/app/core/cert_renewal.py:29-54 | and at most one order a day is placed, plus two |
| `Certificates.OrdersAreSpaced` | backend/app/core/cert_renewal.py:29-54 | two orders are a day apart for each attempt between, less the delay of the first |
| `Certificates.OrdersLessThanADayApart` | backend/app/core/cert_renewal.py:29-54 | two orders of admissible ticks less than a day apart |
| `Certificates.ADayApartIffAtOnce` | backend/app/core/cert_renewal.py:29-54 | every next order is a day or more later if and only if this one was placed when the gate was closed |
| `KeyRotation.EncryptedColumns` | backend/app/cli.py:187-198 | exactly the columns named so, each once |
| `KeyRotation.EncryptWithKey` | backend/app/core/encryption.py:68-89 | opens with its own key only, to what was encrypted |
| `KeyRotation.OneMoreRotated` | backend/app/cli.py:169-172 | one update re-encrypts one secret and touches no other row's cells |
| `KeyRotation.Database.RotateEncryptionKey` | backend/app/cli.py:146-184 | succeeds if and only if every secret opens with the old key; otherwise the database is unchanged |
| `KeyRotation.SecretsSurvive` | backend/app/cli.py:151-158 | every secret opens with the new key to its old plaintext, and no longer with the old key |
| `KeyRotation.OtherCellsStay` | backend/app/cli.py:169-172 | any other cell changes if and only if it is an update time in a row with a secret |
| `KeyRotation.UpdateTimeChanges` | backend/app/cli.py:169-172 | a rotation that changes when an account was last updated |
| `KeyRotation.SchemaStays` | backend/app/cli.py:166-172 | tables keep their shape and keys, so a rotation can follow |
| `KeyRotation.RotationsCompose` | backend/app/cli.py:151-158 | two rotations in a row are one |

## Left out

- Limits changed in the middle of a run: the bounds are for a fixed hourly limit and burst per user.
- Rounding of the bucket level, which the program keeps as a floating-point number.
- Which peers may connect to the policy service (`_peer_is_allowed`), and the wording of its answers.
- The limiter's event loop: the lock around evaluation makes requests sequential, and they are modelled so.
- The templates of main.cf and master.cf: functions of what is passed to them.
- Postfix's own rules for map sources, such as comment lines and case folding.
- Operating-system errors while a configuration file or certificate is being written or restored, other than the install breaking off between two files.
- ConfigProtocol.HealthTellsTheTruth: excludes generations that record no row (lost reply, command timeout), recreation of the container's own configuration, and an install that breaks off half way; generation times are strictly increasing.
- Credentials.RunsStaySafe: assumes that passwords are regenerated for enabled users only, which the route itself does not check, and that generated passwords do not repeat.
- The check whether a user name was deleted since the last generation (`_deleted_since_last_apply`).
- LogTail.ConsumedIsPrefix: assumes that the log file exists, is not truncated in place, that consecutive files differ in inode, and that a call that rotates is committed.
- Decoding of log bytes to text and the wider character classes of Unicode; the parser's classes are those of ASCII.
- The year of a log line's time stamp: an event keeps the stamp as it is written.
- MailIngest.MailLogStore.IngestUntilCaughtUp: user and sender tables do not change meanwhile, and old rows are not removed by retention.
- Sessions, cookies, password hashing and the enrolment of a second factor; enrolling again forgets the last step used.
- Login attempts outside the lock, and audit rows of other kinds.
- Certificates.CertificateService.FinalizeManualDnsChallenge: every transaction commits; without that a finalized order would stay pending and be handed in again.
- Certificates.CertificateService.BeginManualDnsChallenge: the authority does not hand out an order that was already finalized.
- Audit rows, log messages and texts shown to administrators.
- The authority, DNS and the control surface's transport: each is an outcome chosen freely.
- KeyRotation.Database.RotateEncryptionKey: the format of key files, and the cipher itself, whose blobs open with one key or with none.
- The React front end, request plumbing, CSV export, alert mail, update checks, connection diagnostics, retention: interval gates, input and output.
