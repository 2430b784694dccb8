# Verified model of the ops panel's library layer

The panel deploys containers blue/green, watches their health, raises alerts, bills AI usage, scans ports, follows job
logs, reads test reports and grades AI output. This project models the algorithms and state machines behind that in Dafny
and proves what they promise, for every input, every run and every interleaving.

`dafny verify dfyconfig.toml` checks everything.

| file | what it models |
|---|---|
| `TextDistance.dfy`, `Similarity.dfy` | the two-row edit distance against edit scripts, and the score built on it |
| `Entities.dfy`, `Spelling.dfy`, `Xml.dfy`, `XmlRoundTrip.dfy`, `XmlProlog.dfy`, `Junit.dfy` | the XML reader, the escaper, every spelling of a text, a canonical printer, what is removed before reading, and the report counts |
| `DeployTraffic.dfy`, `Proxy.dfy`, `Health.dfy` | one deploy seen from the traffic: containers, proxy target, drain, health checks, rollback |
| `DeployLock.dfy`, `DeployTable.dfy` | the per-environment lock over all interleavings, and the table of deployments as a stack |
| `Alerts.dfy`, `Budgets.dfy`, `Ingest.dfy`, `Billing.dfy` | cooldown and suppression, budget marks, exactly-once ingest, spend and reconciliation |
| `Totp.dfy`, `Streams.dfy`, `Utf8.dfy` | base32 on 32-bit integers, one-time codes, Docker frames, line buffers and the UTF-8 decoder under them |
| `Ports.dfy`, `Duplication.dfy`, `JobLog.dfy` | the port table as a function of its scans, the duplicate marker, the log follower |
| `Prelude.dfy` | options and results, JavaScript strings as UTF-16 code units, bytes and words, rounding |

Conventions. A JavaScript string is a sequence of UTF-16 code units. A `number` that counts is an integer, a 32-bit operator
is written out with its wrap-around, and money and percentages are reals with `Math.round` as round-half-up. A database
table is a map or a sequence. The clock, HTTP answers, digests, UTF-8 decoding and case lowering are parameters, and each
property is proved for every value of them. Where code runs concurrently, each `await` is the end of a step. A method follows
its source statement by statement and is proved against a function; the lemmas then say what that function means.

## Findings

Where the code falls short of what one would expect, the lemmas named here give the condition under which it does not, an
input that shows it, or both.

- Similarity is not always 0 for texts that share no character after lower-casing, because the edit distance is taken before
  it: a capital sigma that ends a word becomes a final sigma and any other a plain one
  (`Similarity.FinalSigmaCounterexample`). Before rounding it is 0 for such texts exactly when their edit distance is as
  large as it can be (`Similarity.LoweredApartIff`), which holds when they share no character before lowering either
  (`Similarity.NothingInCommon`). The rounded score is 1 from 0.99995 on (`Similarity.ScoreOneIff`).
- The XML reader drops blank text and an attribute named `__proto__`; printed trees come back exactly when they have neither
  (`XmlRoundTrip.RoundTripIff`).
- The reader removes what looks like a comment, an instruction or a document type before it looks for CDATA sections, so a
  section loses such a part of its text (`XmlProlog.SectionLosesComment`). Elsewhere they are ignored as they should be
  (`XmlProlog.AnnotatedParse`).
- A numeric reference to an ampersand is read twice: `&#38;amp;` becomes `&` (`Spelling.AmpersandReadTwice`). Any other
  spelling of a text is read as what it means (`Spelling.DecodeSpelled`).
- A deploy that fails once blue is gone loses traffic when its rollback succeeds, because green is removed while the
  proxy still points at it (`DeployTraffic.RunDeploy`, and `DeployTraffic.FailedRecordCutsTraffic` for such a run). While
  blue is up, no failure does.
- A rollback by hand, or the automatic one of a degraded release, points the proxy at blue and removes green. A deploy that
  succeeded has removed blue, so the rollback then takes the service down (`DeployTraffic.RollBackAfterDeploy`). With a
  running blue it serves the traffic throughout, without one it ends with nothing served (`DeployTraffic.RollBack`).
- All environments share one proxy, since its listen port is one setting: a deploy of another environment takes it away
  from a container that goes on running (`DeployTraffic.OtherDeployTakesProxy`).
- A second deploy under the default names has a step that serves nothing, because the live container has the name of its
  green by then and is removed before the new one starts (`DeployTraffic.SecondDeployCutsTraffic`).
- The blue/green play shipped with the panel stops blue before the panel switches the proxy
  (`DeployTraffic.ShippedPlayCutsTraffic`), against the comment in src/lib/proxy.ts that blue is stopped only after the
  switch. From the switch on, green serves the traffic under it too (`DeployTraffic.ShippedPlayKeepsApart`).
- A health watch writes `degraded` and raises its alert before it calls its rollback hook; when one of the two fails, the
  hook is not called (`Health.WatchedRun.Degrade`).
- An error after a run has written `SUCCEEDED` starts the catch block outside the lock (`DeployLock.LateFailureOverlaps`,
  `DeployLock.OnlyLateFailures`).
- A run that ends by an error at its lock check, while it is refused or inside its catch block stays `RUNNING`, and every
  new run of the environment is refused until somebody cancels or rolls back that one (`DeployLock.StuckIff`,
  `DeployLock.StuckDeniesOthers`).
- Deploys alone need no care (`DeployLock.DeploysAreCareful`). With rollbacks, cancels and posted deployments, lock and
  table are safe under a condition that the code leaves to its callers (`DeployLock.EveryRunIsSafe`): no run is
  cancelled from its `RUNNING` write to its first final state, a manual rollback has its environment to itself from its
  first lookup to its last write, and no deployment is posted while a run or a rollback of its environment is between its
  lookup and its last write to the table, or while another one is posted. The lock alone only needs that nobody writes the
  state of a run on its way (`DeployLock.AtMostOneRunInside`). Each part is needed:
  - Cancelling a run does not stop its pipeline and frees the lock, which is what the refusal of a locked deploy tells its
    user to do (`DeployLock.CancelUnlocks`, `DeployLock.CancelBeforeCheckUnlocks`).
  - That the environment is idle when a rollback begins is not enough: a deploy or another rollback in between leaves two
    active deployments (`DeployLock.DeployDuringRollback`, `DeployLock.RollbackDuringRollback`), and a run that enters in
    between loses its lock (`DeployLock.QueuedRunLosesTheLock`, `DeployLock.CarelessRollbackUnlocks`). The automatic
    rollback of a degraded release (src/lib/deploy.ts, lines 707 to 709) starts without looking at any of this.
  - A posted deployment in the middle of a run, of a rollback or of another posted one leaves two active deployments
    (`DeployLock.PostDuringRecord`, `DeployLock.PostDuringRollback`, `DeployLock.PostDuringPost`).
- The proxy's request counter is right exactly as long as every request that ends is finished once
  (`Proxy.CounterExactIff`). Finished twice, by the end of its answer and by an error, it hides an open request from the
  drain (`Proxy.DoubleFinishHidesARequest`); dropped in the middle of its answer, it stays counted and the drain
  waits for nothing (`Proxy.DroppedAnswerStaysCounted`, `Proxy.LeakStays`).
- The comment on `raiseAlert` speaks of open or snoozed events; the code suppresses into the latest matching event in any
  state. Both mean the same event exactly when that one is open or snoozed (`Alerts.MostRecentIsOpenIff`); a resolved one
  swallows the call (`Alerts.SwallowedByResolved`).
- The same comment says that the cooldown is per rule and container; the code keeps one time per rule. A call that
  has an event to go into is suppressed exactly when the latest event of the rule, for any container, is in the cooldown;
  its own event is then out of it only if a later one of another container moved the time on
  (`Alerts.CooldownIsPerRule`, `Alerts.OtherContainerProlongs`).
- A new billing period whose first check is already at the lowest threshold does not reset the mark, so the thresholds up
  to the old mark stay silent. Every reached threshold alerts once in a period exactly when the mark was 0 or the first
  check is below the lowest threshold (`Budgets.OncePerPeriodIff`).
- Concurrent `recordEvent` calls with one id all return the id of the one row, since the lookup after a conflict always finds
  it (`Ingest.ServedExactlyOnce`). An empty id is not looked up, so all but one of them throw (`Ingest.EmptyIdThrowsIff`).
- A delivery of whose first attempt nothing can be written stays pending, and the retries only take queued ones
  (`Alerts.DeliveredIffAnswered`).
- The comment on `detectConflicts` speaks of distinct owners; the code reports any two rows of one port and protocol
  (`Ports.DetectConflicts`), also of one owner (`Ports.SameOwnerReported`).
- The duplicate marker trusts its digest. It marks the right lines exactly when every collision on the windows of the text
  at hand is harmless (`Duplication.MarksExactIff`); it never misses a duplicate (`Duplication.DuplicatedIsCovered`).
- Reconciliation keeps one cost per model name, so a model that is missing and a model called "unknown" overwrite each
  other, and the breakdown can then hide a drift (`Reconciliation.OverwrittenIff`, `Reconciliation.CollidingModelsHideDrift`).
- `hostSpawn` decodes every chunk on its own, so a character cut by a chunk end is lost; the lines are those of the whole
  stream exactly when no chunk ends inside a character that the next one goes on with (`Lines.ReceivedIff`,
  `Lines.CutCharacter`).
- `demuxInto` reads every chunk as if it began with a frame. The lines are right when every chunk ends at a frame boundary
  (`DockerFrames.IngestedLines`). Of a frame cut by a chunk end the first part is dropped and the rest is read as a header:
  if it does not look like one, the whole next chunk comes out raw, later headers included
  (`DockerFrames.CutBetweenChunks`, and `DockerFrames.CutTextShown` for wrong lines at every such cut).
- Two log appends that overlap lose a line (`JobLog.OverlappingAppendsLoseALine`); every write adds its own line exactly when
  none overlap (`JobLog.LinesKeptIff`). A stream that ends while an append is under way misses its line, in any world
  (`JobLog.LateLineMissed`).

## Model

| member | source | states |
|---|---|---|
| `TextDistance.Levenshtein` | src/lib/aiquality.ts:178-193 | the two-row loop, with its three early returns, computes the distance that the metric and script lemmas below are about |
| `TextDistance.FillRow` | src/lib/aiquality.ts:186-190 | one turn of the outer loop turns row i - 1 of the table into row i |
| `TextDistance.LevIsLeastScript` | src/lib/aiquality.ts:178-193 | some script of inserts, deletes and substitutions from a to b has exactly this length, and no script is shorter |
| `TextDistance.ShortestScript` | src/lib/aiquality.ts:183-191 | every entry of the table is the length of a script between the two prefixes |
| `TextDistance.NoShorterScript` | src/lib/aiquality.ts:178-193 | no edit script at all beats the distance |
| `TextDistance.LevIsMetric` | src/lib/aiquality.ts:178-193 | zero iff equal, symmetric, triangle inequality, between the length difference and the larger length |
| `TextDistance.EntryTriangle` | src/lib/aiquality.ts:185-190 | the triangle inequality for all three prefixes at once |
| `TextDistance.EntryDisjoint` | src/lib/aiquality.ts:185-190 | without a common unit the distance is the larger length |
| `Similarity.Similarity` | src/lib/aiquality.ts:207-225 | the source's computation, clamps included, returns the unclamped score |
| `Similarity.CountShared` | src/lib/aiquality.ts:215-216 | the counting loop yields the size of the intersection of the token sets |
| `Similarity.TokensIff` | src/lib/aiquality.ts:166-175 | the tokens of a text are exactly the maximal non-empty stretches of its lowered form that hold token units and no white space |
| `Similarity.TokenUnits` | src/lib/aiquality.ts:166-175 | the units of a token, one range after the other |
| `JsText.SpacesListed` | src/lib/aiquality.ts:208-209 | white space is that of ECMAScript, one by one |
| `Similarity.NormalizeSpread` | src/lib/aiquality.ts:208-209 | however the words of a text are spaced, its normal form is the words in order with single spaces between them |
| `Similarity.WordsOfSpread` | src/lib/aiquality.ts:173-174 | splitting at white space gives back exactly the words that a text was spread from |
| `Similarity.EveryTextSpreads` | src/lib/aiquality.ts:208-209 | every text is spread from some words with white space between and around them |
| `Similarity.RawFormula` | src/lib/aiquality.ts:212-224 | for different non-empty texts the score before rounding is half the share of common tokens plus half of one minus the edit distance over the larger length |
| `Similarity.SameTokens` | src/lib/aiquality.ts:212-224 | texts with the same tokens, and some, get one less half the relative edit distance, whatever the order of the words |
| `Similarity.BlendRange` | src/lib/aiquality.ts:217-224 | for different non-empty texts the blend lies in [0, 1), so neither clamp ever changes it |
| `Similarity.ScoreSymmetric` | src/lib/aiquality.ts:207-225 | the score does not depend on the order of the texts |
| `Similarity.ScoreRange` | src/lib/aiquality.ts:207-225 | the score lies between 0 and 1 |
| `Similarity.ScoreOneIff` | src/lib/aiquality.ts:207-225 | before rounding 1 means equal after normalisation; after it, 1 means at least 0.99995 |
| `Similarity.RawZeroIff` | src/lib/aiquality.ts:207-225 | for different texts, 0 means one is empty, or no common token and the largest possible distance |
| `Similarity.NothingInCommon` | src/lib/aiquality.ts:207-225 | two non-empty texts that share no character, neither before nor after lowering, score 0, whatever the lowering does |
| `Similarity.LoweredApartIff` | src/lib/aiquality.ts:207-225 | with nothing shared after lowering, the score before rounding is 0 iff the edit distance of the texts as they were is the larger length |
| `Similarity.FinalSigmaCounterexample` | src/lib/aiquality.ts:166-175 | under any lowering that turns a word-final capital sigma into the final one, a concrete pair shares nothing after lowering and still scores above 0 |
| `Entities.EscIsUnitwise` | src/lib/report.ts:653-659 | the chain of four replacements escapes every special character exactly once, none twice |
| `Entities.DecodeEsc` | src/lib/junit.ts:43-54 | decoding undoes escaping on every string, despite the seven sequential passes |
| `Entities.EscShape` | src/lib/report.ts:653-659 | escaped text holds no markup, and is blank or empty exactly when the text is |
| `Entities.DecimalReference` | src/lib/junit.ts:49 | a decimal reference decodes to its code point and throws exactly when there is none |
| `Spelling.DecodeSpelled` | src/lib/junit.ts:43-54 | a text spelled with bare units, named entities and decimal or hexadecimal references in any mixture decodes to what the spelling means |
| `Spelling.AmpersandReadTwice` | src/lib/junit.ts:43-54 | the one exception: a numeric reference to an ampersand is read again by the last pass |
| `Spelling.DigitValues` | src/lib/junit.ts:49-52 | the sixteen digits in either case have the values they say |
| `Spelling.NumberSnoc` | src/lib/junit.ts:49-52 | digits stand for powers of ten or sixteen |
| `Spelling.CodePointUnits` | src/lib/junit.ts:49-52 | a code point is one unit, or the two surrogates that make it up |
| `Xml.ParseAttrs` | src/lib/junit.ts:56-64 | the `exec` loop reads the attributes that the recursive reading of the text finds, or throws as it does |
| `Spelling.StyledRead` | src/lib/junit.ts:56-64 | attributes in single or double quotes, with any white space around the equals sign and values in any spelling, are read one by one |
| `Xml.ScanXml` | src/lib/junit.ts:80-129 | on any input the scan index strictly grows, the root is never popped, and the result is that of the recursive reading |
| `Xml.ParseXml` | src/lib/junit.ts:68-131 | the whole reader, from stripping the prolog on; the result is a root with the root's own tag and no attributes |
| `Xml.MarkupSpelled` | src/lib/junit.ts:70-95 | the markup that the reader looks for, spelled out |
| `Xml.NameUnits` | src/lib/junit.ts:58 | the units of an attribute name |
| `XmlRoundTrip.AttrsRead` | src/lib/junit.ts:56-64 | the printed attributes, with any values, are read back one by one |
| `XmlRoundTrip.TextParsed` | src/lib/junit.ts:88-92 | escaped text before a tag ends up, decoded, in the innermost open element, unless it is blank |
| `XmlRoundTrip.SectionParsed` | src/lib/junit.ts:93-103 | the text of a CDATA section is added to the innermost open element as it is, blank or not |
| `XmlRoundTrip.ElementParsed` | src/lib/junit.ts:80-129 | a printed element is read as one more child of whatever is open, whatever follows it |
| `XmlRoundTrip.ParsePrint` | src/lib/junit.ts:68-131 | parsing a printed tree never throws and yields exactly the one tree that reading describes |
| `XmlRoundTrip.WholeMapKeeps` | src/lib/junit.ts:56-64 | with distinct names the attribute map holds every attribute with its value |
| `XmlRoundTrip.RoundTripIff` | src/lib/junit.ts:68-131 | printing and parsing gives the tree back iff no text outside a CDATA section is blank and non-empty and no attribute is called `__proto__` |
| `XmlProlog.PrologStripped` | src/lib/junit.ts:70-74 | of a document with comments, instructions and document types between pieces of markup, and a byte order mark or none, exactly the markup is left |
| `XmlProlog.AnnotatedParse` | src/lib/junit.ts:68-131 | a printed tree with any of these between its parts parses to the same document as without them |
| `XmlProlog.AnnotatedCounts` | src/lib/junit.ts:192-264 | and its test cases are counted the same |
| `XmlProlog.SectionLosesComment` | src/lib/junit.ts:73 | what looks like a comment inside a CDATA section is taken out of its text |
| `Junit.Walk` | src/lib/junit.ts:133-143 | the recursive walk pushes all descendants with the tag, in document order |
| `Junit.ParseJunit` | src/lib/junit.ts:192-264 | the counts are those of the test cases in the document and add up to the total; it throws iff the reader throws |
| `Junit.ReportCounts` | src/lib/junit.ts:192-264 | a printed report is counted as its own test cases say, by the tags of their children, whatever its texts and attribute values contain |
| `Junit.ReadStatus` | src/lib/junit.ts:208-230 | a case is failed, skipped or passed by the tags of its children alone, failure before skip, also after printing and reading |
| `Junit.TagsSpelled` | src/lib/junit.ts:192-212 | the tags that are counted, spelled out |
| `DeployTraffic.RunDeploy` | src/lib/deploy.ts:531-765 | on any host, under any plays and whichever call fails: the proxy leaves its target only at the switch, for a port that was free and passed its consecutive 2xx, and green serves from then on unless the play starts blue on its port; no call of a deploy that succeeds has failed but those that stop or remove a container; a rollback whose calls succeed removes green exactly if it was started, so a green that does not pass its health check is started and taken away again. Started on a running blue that the plays leave alone, traffic is served after every step unless blue is gone when the run fails, and then a successful rollback cuts it; a successful rollback of a run whose blue is up ends on blue; without failures green takes over whenever a port is free; if only the record step fails, traffic is lost |
| `DeployTraffic.Prepare` | src/lib/deploy.ts:539-643 | up to the health check the proxy stays where it is and, after the play on a free port, only green changes; a port is handed on only when it was free, is served and is healthy, and it is handed on when nothing fails; without ansible, `greenStarted` says whether green ran on its port after some step, healthy or not |
| `DeployTraffic.PlayKeepsBlue` | src/lib/deploy.ts:539-643 | over those steps a blue that the play leaves alone stays up, on another port than green |
| `DeployTraffic.Launch` | src/lib/deploy.ts:539-632 | the same up to the start of green: it fails on the first failing call but that which stops an old green |
| `DeployTraffic.UntilPlay` | src/lib/deploy.ts:539-614 | under any deploy play at all: the play gets a free port and is the only thing that changes containers before the direct start |
| `DeployTraffic.SwitchAndFinish` | src/lib/deploy.ts:645-718 | from the switch on green serves every step if blue is not on its port; blue is as before, stopped or gone, and gone when nothing but the record step fails |
| `DeployTraffic.SwitchOver` | src/lib/deploy.ts:645-748 | the switch with the catch block behind it: served throughout while blue is up, cut by a successful rollback when it is gone |
| `DeployTraffic.FailEarly` | src/lib/deploy.ts:720-748 | an error before the switch: the proxy stays where it is, a running blue serves throughout, and a started green is taken away before the rollback play, which comes last |
| `DeployTraffic.CatchRollback` | src/lib/deploy.ts:720-748 | the proxy moves only to a running blue, green is removed only after that, and the play comes last; the first failing call ends it, unless it stops green |
| `DeployTraffic.Host.StopAndRemove` | src/lib/deploy.ts:378-391 | only the named container changes; it is gone when every call made succeeds, and still running only if nothing happened |
| `DeployTraffic.Host.StartContainer` | src/lib/deploy.ts:397-418 | success means the container runs on the port; it succeeds when every call made does and the port is free, and a container of that name is gone for a step before |
| `DeployTraffic.Host.PickFreePort` | src/lib/deploy.ts:771-788 | the lowest free port of 8400 to 8599 other than the proxy's, and none exactly when there is none |
| `DeployTraffic.CatchKeepsBlue` | src/lib/deploy.ts:724-748 | a running blue is up after every step of the catch block |
| `DeployTraffic.FailedRecordCutsTraffic` | src/lib/deploy.ts:674-748 | a concrete healthy deploy whose only failure is the record step ends failed and had a step that served no traffic |
| `DeployTraffic.RollBack` | src/lib/deploy.ts:829-851 | with a running blue traffic is served after every step, whichever call fails, and ends on blue when all succeed; without one, a green that alone serves the target is removed and nothing serves it |
| `DeployTraffic.RollBackAfterDeploy` | src/lib/deploy.ts:705-709 | a sound deploy followed by a rollback, every call succeeding, ends with nothing behind the proxy |
| `DeployTraffic.OtherDeployTakesProxy` | src/lib/deploy.ts:544-650 | a deploy that succeeds moves the proxy off the running container of another environment, which goes on running |
| `DeployTraffic.SecondDeployCutsTraffic` | src/lib/deploy.ts:539-620 | a deploy whose green has the name of the live container, run up to the start of green, has a step that serves no traffic whenever its calls succeed and a port is free |
| `DeployTraffic.ShippedPlayCutsTraffic` | ansible/playbooks/deploy/blue_green.yml:53-62 | every run under the shipped play that gets to it has a step after which nothing serves the traffic |
| `Proxy.CounterExactIff` | src/lib/proxy.ts:50-79 | the counter equals the number of open requests at all times iff no request is dropped without being finished and none is finished twice while others are counted |
| `Proxy.OvercountsOnlyLeaks` | src/lib/proxy.ts:50-79 | the counter exceeds the number of open requests by at most the number of dropped ones |
| `Proxy.LeakStays` | src/lib/proxy.ts:50-79 | after a drop the counter stays above zero for good unless something is finished twice, and the drain waits its whole grace |
| `Proxy.DoubleFinishHidesARequest` | src/lib/proxy.ts:67-76 | an answer that ends and then errors makes the counter 0 while a request is open |
| `Proxy.DroppedAnswerStaysCounted` | src/lib/proxy.ts:63-71 | an answer that breaks off leaves the counter at 1 with nothing open |
| `Proxy.Drain` | src/lib/proxy.ts:101-106 | the wait ends at the first look that shows no request in flight or the grace over |
| `Proxy.Registry.Ensure` | src/lib/proxy.ts:123-136 | one proxy per port, shared and re-pointed in place; other proxies keep their target; an unusable port registers nothing |
| `Health.WaitHealthy` | src/lib/deploy.ts:278-306 | succeeds iff some block of N consecutive 2xx lies within the first 6N + 20 probes, and stops at the earliest one |
| `Health.HealthyIff` | src/lib/deploy.ts:284-296 | a good probe is an answer from 200 to 299 |
| `Health.WatchedRun.RunWatch` | src/lib/healthwatch.ts:35-122 | whichever call fails: a watch that ends by itself is degraded iff some block of failThreshold consecutive failures occurs, at the earliest one, and has run the hook once; the first failing call but the log line behind the hook ends it, and the hook runs only after such a block |
| `Health.WatchedRun.Degrade` | src/lib/healthwatch.ts:84-108 | the hook is run only if the status, the alert and the log line before it are written |
| `Health.WatchedRun.StartHealthWatch` | src/lib/healthwatch.ts:20-33 | a watch that a failing call ends is marked `error` if that can be written; otherwise it is degraded or healthy as the checks say |
| `Health.BlockIffStreak` | src/lib/deploy.ts:284-296 | the running counter reaches N exactly at the end of a block of N |
| `DeployLock.EveryRunIsSafe` | src/lib/deploy.ts:497-864 | every interleaving, access by access, of any number of runs, manual rollbacks, cancels and posted deployments keeps the invariant of lock and table, if no run is cancelled on its way and rollbacks and posted deployments are kept apart over their whole span |
| `DeployLock.AtMostOneRunInside` | src/lib/deploy.ts:523-529 | at most one run per environment is between its lock check and its first write of a final state, as long as no cancel and no last write of a rollback hits a run on its way, whatever is posted or rolled back otherwise |
| `DeployLock.CarefulRespectsLock` | src/lib/deploy.ts:523-529 | the condition of the invariant is enough for that |
| `DeployLock.DeploysAreCareful` | src/lib/deploy.ts:497-764 | any interleaving of deploys alone, with any failures, meets the condition and is safe |
| `DeployLock.StuckIff` | src/lib/deploy.ts:515-529 | a run that is over still holds the lock iff one of its own accesses failed at the lock check, at the refusal or in the catch block and neither a cancel nor a rollback of it came afterwards |
| `DeployLock.StuckDeniesOthers` | src/lib/deploy.ts:523-529 | while it does, every other new run of the environment ends refused |
| `DeployLock.StateIff` | src/lib/deploy.ts:497-862 | over every event sequence the state of a run is the one that the last write of its state wrote: its own accesses by phase, a cancel, or the last access of a rollback of it |
| `DeployLock.SucceededIff` | src/lib/deploy.ts:693-756 | a run is SUCCEEDED iff it got past its record step and neither a completed catch block nor a cancel nor a rollback of it came afterwards |
| `DeployLock.FailedIsNotSuccessful` | src/lib/deploy.ts:720-756 | a run with a failing access between its lock check and its final state is never SUCCEEDED afterwards |
| `DeployLock.CaughtIsRolledBack` | src/lib/deploy.ts:753-756 | once its catch block went through it is ROLLED_BACK for good unless somebody cancels it |
| `DeployLock.AtMostOneDeploymentActive` | src/lib/deploy.ts:674-692 | under that condition at most one deployment per environment is ever active |
| `DeployLock.MoveKeepsTable` | src/lib/deploy.ts:674-696 | a run changes the table only while it is inside, and only for its own environment |
| `DeployLock.UndoKeepsTable` | src/lib/deploy.ts:819-860 | each access of a rollback keeps at most one deployment active and what the rollback knows of the table |
| `DeployLock.RollBackThrows` | src/lib/deploy.ts:820-827 | a manual rollback that fails or finds nothing to go back to is over and has changed nothing by that |
| `DeployLock.RollBackEnds` | src/lib/deploy.ts:862-865 | its last access ends it and marks its run |
| `DeployLock.AloneSucceeds` | src/lib/deploy.ts:497-696 | in any world without another RUNNING run of its environment, a run gets from creation to `SUCCEEDED`, pushes its commit over the active one and leaves everything else alone |
| `DeployLock.OnlyLateFailures` | src/lib/deploy.ts:693-764 | the rollback runs outside the lock only after a failure behind the `SUCCEEDED` write |
| `DeployLock.LateFailureOverlaps` | src/lib/deploy.ts:698-756 | in any world, such a failure lets the rollback of one run overlap the pipeline of the next |
| `DeployLock.CarelessRollbackUnlocks` | src/lib/deploy.ts:819-860 | a manual rollback of a run that is inside lets a second one in |
| `DeployLock.QueuedRunLosesTheLock` | src/lib/deploy.ts:819-860 | so does the rollback of a queued run that enters before the last write of that rollback, although the environment was idle when it began |
| `DeployLock.DeployDuringRollback` | src/lib/deploy.ts:819-855 | a deploy between the lookups and the writes of a rollback leaves two active deployments |
| `DeployLock.RollbackDuringRollback` | src/lib/deploy.ts:819-855 | a rollback between the two lookups of another leaves two active deployments, without any run |
| `DeployLock.CancelUnlocks` | src/app/api/deploy/runs/[id]/cancel/route.ts:12-22 | in any world, cancelling the run that holds the lock lets the next one in while the first is still inside |
| `DeployLock.CancelBeforeCheckUnlocks` | src/app/api/deploy/runs/[id]/cancel/route.ts:12-22 | so does cancelling a run before its lock check: both get in |
| `DeployLock.PostedKeepsTable` | src/app/api/deployments/route.ts:38-55 | a posted deployment that found every active row of its environment keeps at most one active and touches no other environment |
| `DeployLock.PostOnce` | src/app/api/deployments/route.ts:38-55 | a transaction that is given up leaves the table alone, and none is committed twice |
| `DeployLock.PostDuringRecord` | src/lib/deploy.ts:674-692 | a deployment posted between the lookup and the create of a run leaves two active deployments |
| `DeployLock.PostDuringRollback` | src/app/api/deployments/[id]/rollback/route.ts:21-38 | one posted between the lookups and the writes of a rollback leaves two active deployments |
| `DeployLock.PostDuringPost` | src/app/api/deployments/route.ts:38-55 | two posted at once, each not seeing the row of the other, leave two active deployments |
| `DeployTable.DeploymentTable.Record` | src/lib/deploy.ts:674-692 | recording a deploy pushes its commit and keeps the table well-formed |
| `DeployTable.DeploymentTable.Rollback` | src/lib/deploy.ts:819-864 | pops and restores the commit beneath; throws and changes nothing iff there is none |
| `DeployTable.TableRefinesStack` | src/lib/deploy.ts:674-864 | over every run of deploys and rollbacks the table reads as a stack of commits |
| `DeployTable.RollbackUndoesDeploy` | src/lib/deploy.ts:819-864 | a rollback right after a deploy restores exactly the commit that was live before it |
| `DeployTable.ActiveIsNewest` | src/lib/deploy.ts:820-827 | the active row is newer than every superseded row, so ordering by time finds the right ones |
| `Alerts.AlertStore.RaiseAlert` | src/lib/alerts.ts:238-312 | suppressed or new, the state after it, and one delivery, attempted once, per eligible channel |
| `Alerts.SuppressIntoIff` | src/lib/alerts.ts:239-275 | a call is suppressed into an event iff it names a known rule with a cooldown that fired less than that ago and the event is the latest of its source, an empty container name counting as none |
| `Alerts.NewEventStored` | src/lib/alerts.ts:277-290 | otherwise there is one new event, open, with the call's own container name over the one in its payload |
| `Alerts.AlertStore.Deliver` | src/lib/alerts.ts:369-497 | delivered only on a good answer that is saved, queued otherwise, unchanged when nothing can be written, and a delivered row is left alone |
| `Alerts.AlertStore.FlushQueued` | src/lib/alerts.ts:500-518 | each queued row is tried once; the counts add up and equal the rows that changed and the rows still queued |
| `Alerts.DeliveredIffAnswered` | src/lib/alerts.ts:369-497 | over any attempts a delivery is delivered iff a good answer was saved, and pending iff nothing was ever written; no attempt is made after the saved one, and every earlier good answer is one whose saving failed |
| `Alerts.EventsAreSpaced` | src/lib/alerts.ts:238-275 | with a clock that does not run backwards, events of one rule and container are at least the cooldown apart, whatever people do with the events in between |
| `Alerts.EveryRaiseCounted` | src/lib/alerts.ts:244-271 | one plus the suppressed count, summed over all events, is the number of calls |
| `Alerts.DeliveredIff` | src/lib/alerts.ts:299-312 | over any run of calls and markings an event goes to exactly the enabled channels whose minimum it reaches, INFO being the least severity, then WARN, ERROR and CRITICAL |
| `Alerts.DeliveredOnce` | src/lib/alerts.ts:296-309 | and to none of them twice |
| `Alerts.MostRecentIsOpenIff` | src/lib/alerts.ts:231-258 | the event a call is suppressed into is the one the comment names iff the latest matching event is open or snoozed, or there is none |
| `Alerts.SwallowedByResolved` | src/lib/alerts.ts:231-271 | a call within the cooldown of a resolved event is counted into that event, where the comment knows of no event at all |
| `Alerts.CooldownIsPerRule` | src/lib/alerts.ts:231-275 | after any run, a call with an event of its own source is suppressed iff the latest event of the rule for any container is in the cooldown; its own one is out of it only if that latest event is a later one of another container |
| `Alerts.OtherContainerProlongs` | src/lib/alerts.ts:231-275 | events for a at 0 and b at 50 s under a cooldown of 60 s suppress a call for a at 70 s into the old event |
| `Budgets.BillingConfig.CheckBudgets` | src/lib/billing.ts:538-621 | the loop, with its deferred write, leaves the marks, alerts and pauses of checking the budgets one after the other |
| `Budgets.EachBudgetChecksAlone` | src/lib/billing.ts:554-600 | with one budget per period, mark and alerts of each key are those of a single check of its own budget, and a key without a budget sees nothing |
| `Budgets.MarkIsPeak` | src/lib/billing.ts:538-621 | over any sequence of calls over any budgets, the mark of a fixed budget is the highest threshold reached since its last reset, and its alerts since then are exactly the thresholds up to it, each once |
| `Budgets.CallsFollowRun` | src/lib/billing.ts:538-621 | marks and alerts of a key follow the run of checks of its own budget, whatever the other budgets and calls do |
| `Budgets.ResetIff` | src/lib/billing.ts:590-594 | a reset happens exactly when the percentage falls below the lowest threshold after a crossing |
| `Budgets.NoThresholds` | src/lib/billing.ts:590 | without thresholds a mark that is left over is cleared below 50 percent |
| `Budgets.PeriodFacts` | src/lib/billing.ts:553-594 | over the checks of a period the mark is the highest threshold reached or the one it started from, and the alerts are the thresholds between the two |
| `Budgets.OncePerPeriodIff` | src/lib/billing.ts:553-594 | every threshold reached in a period alerts exactly once in it iff nothing was crossed before or the first check is below the lowest threshold |
| `Budgets.PctReaches` | src/lib/billing.ts:555 | a threshold is reached when the spend is that many percent of the limit, and never without a limit |
| `Budgets.PausedIff` | src/lib/billing.ts:596-603 | a provider is paused iff one of its budgets that asks for it is spent |
| `Ingest.ExactlyOnce` | src/lib/billing.ts:346-471 | for any number of concurrent callers: at most one row per generation, all that return get the same id, and non-hits equal rows added, also for an empty generation id |
| `Ingest.OneNonHit` | src/lib/billing.ts:355-444 | once a caller has returned, there is one row and exactly one caller that is not a hit |
| `Ingest.ServedExactlyOnce` | src/lib/billing.ts:346-471 | once any caller with an id to look up has made three moves without a failing access of its own, there is exactly one row, every such caller has returned its id, and exactly one caller made it, none if it was there before, wherever the others are or fail |
| `Ingest.CallerReturns` | src/lib/billing.ts:354-443 | such a caller never throws and returns within three moves, whatever the others do |
| `Ingest.KnownReturnsAtOnce` | src/lib/billing.ts:355-370 | a caller whose row is there returns it by its first lookup, as a hit, and inserts nothing |
| `Ingest.ThrowsIff` | src/lib/billing.ts:355-443 | a caller throws iff an access of its own fails or its insert of an empty id meets a row; the lookup after a conflict always finds the row |
| `Ingest.EmptyIdThrowsIff` | src/lib/billing.ts:355-443 | of the callers with an empty id whose accesses do not fail, exactly those throw that did not make the row |
| `Ingest.StepKeeps` | src/lib/billing.ts:355-444 | every step of every caller keeps the unique index and the accounting of owners |
| `Spend.Accumulate` | src/lib/billing.ts:1225-1268 | one pass over the events yields the totals and, per key in order of first use, the sums of that key in all six columns |
| `Spend.ColumnsOfClasses` | src/lib/billing.ts:1248-1267 | what each column adds up: costs of paid events, of those on a key of the user and of the others, all requests and the free ones, tokens out with those for reasoning |
| `Spend.RowsSumToTotal` | src/lib/billing.ts:1225-1268 | for every grouping and every column the rows sum to the total |
| `Spend.TotalIsByokPlusDirect` | src/lib/billing.ts:1252-1266 | the total is BYOK plus direct, and the requests are the events |
| `Spend.ReportedRowsMatchTotal` | src/lib/billing.ts:1269-1283 | after rounding, rows and total differ by at most half a millionth per rounding |
| `Spend.ReportedTotalSplits` | src/lib/billing.ts:1275-1279 | the reported total is the reported BYOK and direct totals up to one millionth |
| `Millionths.Round6Error` | src/lib/billing.ts:1062-1064 | rounding moves a number by at most half a millionth, upwards at a tie |
| `Millionths.Round6OfDifference` | src/lib/billing.ts:1013 | the difference of two rounded totals needs no rounding |
| `Reconciliation.ColumnSum` | src/lib/billing.ts:990-995 | the per-model column sums to the total less what repeated names overwrote |
| `Reconciliation.OverwrittenIff` | src/lib/billing.ts:990-995 | nothing is lost iff no group that costs something is followed by another of its model name |
| `Reconciliation.CapturedSide` | src/lib/billing.ts:990-1007 | the line of a captured model shows its last captured cost on that side, and 0 for a provider that does not list it |
| `Reconciliation.AllModelsListed` | src/lib/billing.ts:990-996 | the models of the breakdown are those of both lists, the captured ones first |
| `Reconciliation.BreakdownLines` | src/lib/billing.ts:997-1007 | it has one line for each of them, in that order |
| `Reconciliation.ProviderSide` | src/lib/billing.ts:990-1007 | the same for a model that the provider lists |
| `Reconciliation.ReportFigures` | src/lib/billing.ts:1003-1026 | the totals are those of the two lists to half a millionth, the percentage is of the provider total, and a report is flagged iff its drift is above both thresholds |
| `Reconciliation.DriftBound` | src/lib/billing.ts:990-1013 | when no repeated name loses anything, the overall drift is at most the sum of the model drifts plus (n + 2)/2 millionths |
| `Reconciliation.CollidingModelsHideDrift` | src/lib/billing.ts:990-1013 | with a repeated name the models can show no drift while the totals do |
| `Base32.Encode` | src/lib/totp.ts:71-87 | the encoder on a wrapping 32-bit buffer writes the encoding of section 6 of RFC 4648 for any length, in multiples of 8, and the same as reading all bytes as one unbounded number |
| `Base32.UnboundedIsRfc` | src/lib/totp.ts:71-87 | the bytes as one number of any size, shifted to whole symbols and written in base 32, are an encoding by the standard |
| `Base32.DecodeEncoding` | src/lib/totp.ts:71-87 | a decoder for section 6 of RFC 4648 returns the original bytes |
| `Base32.EncodingUnique` | src/lib/totp.ts:71-87 | the bytes have one encoding by the standard |
| `Base32.TakeByte` | src/lib/totp.ts:76-77 | shifting in a byte keeps the low bits although the buffer wraps |
| `Hotp.CounterBytesValue` | src/lib/totp.ts:11-16 | the eight bytes are the counter in big-endian order for every safe integer, also above 32 bits |
| `Hotp.TruncateIsDynamicTruncation` | src/lib/totp.ts:18-24 | the code is the dynamic truncation of section 5.3 of RFC 4226 modulo 10^6 |
| `Hotp.CodeIsSixDigits` | src/lib/totp.ts:25 | the code has exactly six characters and reads as the truncated value |
| `Lines.LineBuffer.Flush` | src/lib/server.ts:26-32 | the lines handed out and the new buffer are one split of the old buffer and the chunk |
| `Lines.ChunkingIndependent` | src/lib/server.ts:26-32 | over any chunks, lines and leftover are one newline split of the whole stream |
| `Lines.SameLines` | src/lib/server.ts:26-32 | two cuttings of one text hand out the same lines and the same leftover |
| `Lines.LineBuffer.Receive` | src/lib/server.ts:26-35 | each chunk of bytes is decoded on its own and then split |
| `Utf8.DecodeEncoding` | src/lib/server.ts:34-35 | the encoding of a code point is read as that code point, whatever follows |
| `Utf8.SurrogatePair` | src/lib/server.ts:34-35 | a code point is one unit or the two surrogates that make it up |
| `Utf8.SecondIff` | src/lib/server.ts:34-35 | the table of second bytes is exactly that of the encodings: none that is too long, of a surrogate or above the last code point |
| `Utf8.NoLead` | src/lib/server.ts:34-35 | a byte that begins no encoding becomes a replacement character |
| `Utf8.NoSecond` | src/lib/server.ts:34-35 | a sequence broken off behind its first byte becomes one, and the next byte is read afresh |
| `Utf8.NoThird` | src/lib/server.ts:34-35 | so does one broken off behind its second byte |
| `Utf8.NoFourth` | src/lib/server.ts:34-35 | and behind its third |
| `Utf8.CutIff` | src/lib/server.ts:34-35 | decoding two parts of a byte stream one by one is decoding them at once iff the cut does not fall inside a character that goes on behind it |
| `Lines.ReceivedIff` | src/lib/server.ts:26-35 | lines and leftover over the chunks of a byte stream are one split of the decoded stream iff every cut is such a clean one |
| `Lines.SameLinesOfBytes` | src/lib/server.ts:26-35 | two clean cuttings of one byte stream hand out the same lines |
| `Lines.CutCharacter` | src/lib/server.ts:34-35 | one character in one chunk comes out as itself, cut in two it comes out as two replacement characters |
| `DockerFrames.DemuxDockerStream` | src/lib/docker.ts:216-240 | the loop decodes the payload bytes that the frame-by-frame reading finds, with its fallbacks for unframed data |
| `DockerFrames.DemuxEncoded` | src/lib/docker.ts:216-240 | a stream of whole frames comes back as the concatenated payloads |
| `DockerFrames.DemuxCut` | src/lib/docker.ts:233-235 | a stream cut inside its last frame yields the payload bytes that arrived; a cut header yields none |
| `DockerFrames.DemuxUnframed` | src/lib/docker.ts:216-220 | data without frames is shown as it is |
| `DockerFrames.DemuxBroken` | src/lib/docker.ts:223-231 | behind whole frames, bytes that begin no frame are shown as they are |
| `DockerFrames.Ingestion.DemuxInto` | src/lib/alerts.ts:622-643 | lines and leftover of one container follow its own text; other containers keep theirs |
| `DockerFrames.Follow` | src/lib/alerts.ts:622-643 | over any chunks of one container each goes on with what the ones before left over, and other containers keep theirs |
| `DockerFrames.IngestedLines` | src/lib/alerts.ts:622-643 | for any grouping of whole frames into chunks, lines and leftover are one split of all payload texts |
| `DockerFrames.CutBetweenChunks` | src/lib/alerts.ts:622-643 | the first part of a frame cut by a chunk end adds nothing; the rest, with all that follows it in the next chunk, comes out raw unless it looks like a header or is shorter than one |
| `DockerFrames.CutTextShown` | src/lib/alerts.ts:622-643 | for a frame of ASCII text cut anywhere in its payload and followed by another, lines and leftover are those of the raw rest and never those of the payload texts |
| `Ports.Dedupe` | src/lib/serverPorts.ts:37-51 | keeps the set of keys, each once, and shows the first non-empty process name of each |
| `Ports.Merged` | src/lib/serverPorts.ts:37-51 | of two observations of one port the first is kept unless only the second has a process name, and takes over container and service if it has no container |
| `Ports.NamedIff` | src/lib/serverPorts.ts:46-48 | a name counts when it is there and not empty |
| `Ports.SecondDedupeIsIdentity` | src/lib/serverPorts.ts:54-118 | after container names are attached, the second dedupe changes nothing |
| `Ports.AttachedOwner` | src/lib/serverPorts.ts:54-88 | an observed port gets the name of the last container that publishes it and that service unless it has one; other ports stay as they are |
| `Ports.PortTable.Reconcile` | src/lib/serverPorts.ts:159-231 | a scan upserts what it saw, marks the host's other active rows stale, and touches nothing else |
| `Ports.HistoryDecides` | src/lib/serverPorts.ts:159-231 | after any scans of any servers and hosts a row exists iff it was ever seen, with the first and last times, active iff the latest scan of its own host saw it |
| `Ports.TakenIsEverSeen` | src/lib/serverPorts.ts:330-334 | the ports taken on a server are those ever observed on any of its hosts |
| `Ports.PortTable.NextFreePort` | src/lib/serverPorts.ts:325-339 | the least port of the range that no row of the server ever held, none iff all are held |
| `Ports.NextFreeNeverDecreases` | src/lib/serverPorts.ts:325-339 | over any number of scans the free port of a fixed range never goes down |
| `Ports.DetectConflicts` | src/lib/serverPorts.ts:251-293 | the conflicts are exactly the ports and protocols with at least two rows, each once, with all their rows |
| `Ports.OwnerOf` | src/lib/serverPorts.ts:262-270 | the owner of a row is its container, else its service, else its process, else unknown on its interface |
| `Ports.SameOwnerReported` | src/lib/serverPorts.ts:262-279 | two rows of one owner on two interfaces are reported |
| `Duplication.CountWindows` | src/lib/codeanalysis.ts:115-122 | the first pass counts for every digest the windows that have it |
| `Duplication.NormOfLine` | src/lib/codeanalysis.ts:109-114 | a line counts without the white space around it, and a blank one does not count |
| `Duplication.NormAppend` | src/lib/codeanalysis.ts:109-114 | the lines keep their order and each stands for itself |
| `Duplication.MarkWindows` | src/lib/codeanalysis.ts:123-132 | the second pass marks a line iff a window covering it was counted more than once |
| `Duplication.CoveredIffDuplicated` | src/lib/codeanalysis.ts:109-135 | with no harmful collision on the windows of the text, a line is marked iff some window covering it equals a window at another position |
| `Duplication.MarksExactIff` | src/lib/codeanalysis.ts:109-135 | all marks are exact iff every pair of windows with one digest covers only lines that are duplicated anyway |
| `Duplication.DuplicatedIsCovered` | src/lib/codeanalysis.ts:109-135 | whatever the digest, a duplicated line is marked |
| `Duplication.CollisionlessIsHarmless` | src/lib/codeanalysis.ts:109-135 | a digest that tells the windows of this text apart has no harmful collision on it |
| `Duplication.DuplicationPercent` | src/lib/codeanalysis.ts:109-135 | under the same condition the result is the percentage of duplicated lines, rounded to two places, 0 for texts shorter than a window |
| `Duplication.PercentRange` | src/lib/codeanalysis.ts:133-134 | it lies in 0 to 100, and is 100 exactly from 99.995 percent on |
| `Duplication.SelfCopyScores100` | src/lib/codeanalysis.ts:109-135 | a text of at least one window followed by itself scores 100 |
| `JobLog.StreamsSendPrefixes` | src/lib/jobs.ts:112-144 | with awaited appends, what a stream has sent is a prefix of the log in every interleaving |
| `JobLog.TerminalPollSendsAll` | src/lib/jobs.ts:120-140 | the poll that ends the stream has sent the whole log as it was, and a poll ends it iff the job succeeded, failed, was cancelled or rolled back |
| `JobLog.EndedStays` | src/lib/jobs.ts:120-140 | what a stream that has ended sent is final |
| `JobLog.StateChanges` | src/lib/jobs.ts:78-106 | a job changes its state until that is terminal, and then never again |
| `JobLog.EndedStreamHoldsFinalLog` | src/lib/jobs.ts:78-140 | if the terminal state is written with no append under way and none begins afterwards, every ended stream holds the final log |
| `JobLog.LateLineMissed` | src/lib/jobs.ts:78-140 | in any world, a stream that ends while an append with a non-empty line is under way holds the log without that line |
| `JobLog.LogGrows` | src/lib/jobs.ts:49-62 | the log only grows |
| `JobLog.OverlappingAppendsLoseALine` | src/lib/jobs.ts:49-62 | two overlapping appends lose a line, and a stream may have sent what the log no longer holds |
| `JobLog.LinesKeptIff` | src/lib/jobs.ts:49-62 | with non-empty lines, successful writes and nothing left under way, every write adds exactly its own line iff no append begins while another is under way |

## Left out

- DeployTraffic.RunDeploy: the managed proxy listens or can; green and blue have different names, as the source gives them. A container that crashes by itself is not modelled.
- DeployTraffic.Prepare: migrations, git and progress writes are calls that may fail and change neither containers nor proxy.
- DeployTraffic.SwitchAndFinish: the drain changes neither containers nor proxy, so what it waits for is modelled on its own in `Proxy`; the switch in nginx or traefik mode, which in the source only writes a log line, is not modelled.
- DeployLock.EveryRunIsSafe: holds under the condition on callers stated above, which the traces beside it show to be needed; the docker calls of a rollback are not accesses of the tables, a posted deployment is the rows it found and a commit, and the state check of a cancel is not repeated when it writes.
- Proxy.Registry.Ensure: two calls that overlap before the first one listens, of which the second fails to bind the port.
- DeployTable.TableRefinesStack: deploys get strictly increasing times; two deployments in one millisecond are not ordered by the source either.
- Xml.ParseXml: a closed element is attached to its parent when it is closed rather than shared with it from the start, and attributes are a map without order; nodes are values, so aliasing is not modelled.
- XmlProlog.PrologStripped: an instruction inside a comment, a document type with angle brackets inside, and markup split inside `<!` or `<?`.
- Duplication.CoveredIffDuplicated: SHA-1 is a parameter; that its collisions on the windows of a given text are harmless is the condition, and not proved of it.
- Health.WaitHealthy: a log write that fails counts as a failed probe; the wait between probes takes no time.
- Alerts.AlertStore.Deliver: the HTTP exchange with a channel is one outcome, and an email channel always has the bad one.
- Alerts.AlertStore.RaiseAlert: errors of the database in the middle of a call.
- Alerts.EventsAreSpaced: calls come one after the other; concurrent calls of one rule can both pass the cooldown.
- Alerts.CooldownIsPerRule: rules are not edited during a run.
- Alerts.DeliveredIff: the test message of src/app/api/alerts/channels/[id]/test/route.ts, an event of its own with one delivery to the tested channel, whatever its rank and switch.
- Budgets.BillingConfig.CheckBudgets: an alert that cannot be raised counts as raised, as in the source, where its error is swallowed, the mark moves on and that threshold is not raised again; two calls that overlap read the same settings, and the one that writes last wins.
- Budgets.MarkIsPeak: thresholds are distinct and positive and arrive sorted; the spend of a period is an input.
- Reconciliation.DriftBound: the percentage and the flag are defined as in the source, with no claim beyond the drift.
- Base32.Encode: starts at the bytes; decoding base64url is not part of this model.
- Hotp.CodeIsSixDigits: HMAC-SHA-1 is an arbitrary sequence of 20 bytes.
- Utf8.CutIff: the decoder is that of the WHATWG Encoding Standard, which `Buffer.toString` follows; standard output and standard error share one buffer, so a stream is what arrives from both, in that order.
- DockerFrames.DemuxDockerStream: UTF-8 decoding is an arbitrary function on bytes here, so the results hold for any.
- JobLog.StreamsSendPrefixes: the SSE framing, the cancel registry and deleted jobs.
- Ports.HistoryDecides: ports registered by hand (src/app/api/ports/manual/route.ts, src/app/api/servers/[id]/ports/manual/route.ts) or found by the service discovery, which add rows that no scan saw.
- Ports.PortTable.Reconcile: the columns that follow the latest observation, such as the public flag, and the host row.
- Floating-point error: reals are exact.
- `computeCost`, pricing, token normalisation and code smells of `recordEvent`: straight-line arithmetic.
- Sorting of spend rows and message texts of alerts and logs.
- `inferType`, log line formats, migration patterns and image classification: tables of patterns.
- Authentication, sessions, encryption, the pages, and the thin wrappers around Docker, SSH, git and Redis.
