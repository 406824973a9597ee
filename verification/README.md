# AWDSoc: alert pipeline, incidents and the SLA clock

This project models what AWDSoc does with a security alert from the signed request
to the incident an analyst works on, and proves what the system keeps over every run.

One state machine carries the main part. Producers append entries to a stream;
consumers read, commit, acknowledge, crash and reclaim; each commit inserts its batch
idempotently and groups what landed into incidents; analysts edit cases in between;
every incident carries an SLA clock. Five smaller machines surround it: the admission
gate (authentication, replay nonce, rate window), the tenant cache in front of it, the
evidence snapshot folded onto a case, the monthly partitions, and the agent cache.

Each operation that changes state is a method on an object with the source's fields
and loops, proved equal to a function on values; the theorems over runs are lemmas
about those functions.

| file | contents |
|---|---|
| `sla_policy.dfy`, `model.dfy`, `sla.dfy`, `sla_runs.dfy` | policies, the incident, the clock, and what the clock keeps over every run |
| `evidence.dfy`, `related.dfy`, `fingerprint.dfy`, `parser.dfy`, `entities.dfy`, `grouping.dfy`, `database.dfy`, `ingest_consumer.dfy`, `commits.dfy` | one alert from raw text to its incident, one whole transaction, and when it can commit |
| `table_laws.dfy`, `exactly_once.dfy`, `batching.dfy`, `joining.dfy` | unique index, numbering, exact counts, any batching, any order |
| `incidents_api.dfy`, `delivery.dfy` | analysts' requests and the whole system |
| `gathering.dfy`, `order_free.dfy`, `summaries.dfy`, `pipeline_sla.dfy`, `system_sla.dfy`, `reachable_clocks.dfy` | the promises lifted to every run of the system |
| `landing_order.dfy` | in which order the alerts of a batch join a case, and what that decides |
| `acknowledged.dfy` | which entries are acknowledged, over every run |
| `progress.dfy` | partitions and tenants against delivery: what can commit and what never will |
| `admission.dfy`, `tenant_cache.dfy` | the gate and its cache |
| `partitions.dfy`, `agent_sync.dfy` | partition lifecycle, agent cache |
| `wrappers.dfy`, `sorting.dfy`, `decimal.dfy` | shared helpers |

Proofs that do not need a definition hide it, which keeps each of them small and steady
over solver seeds.

Time is an integer number of microseconds. Clock readings are inputs; where a theorem
needs a clock that never goes back it says so.

## Where the code and its comments differ

The model follows the code.

- A redelivered alert is said never to inflate a count. Two copies of one new key in a
  single batch both pass the filter on landed keys and are both grouped, so counts are
  exact if and only if no batch brings a new key of a grouped tenant twice
  (`ExactlyOnce.CommitIsExactIffClean`, `Delivery.ExactlyOnceIffClean`); one alert
  published twice and read in one batch counts two (`Gathering.PublishedTwiceCountsTwo`).
- An unparseable timestamp is replaced by the time of receipt, so the dedup key is
  stable exactly when the timestamp parses (`Parser.KeyIsStableIffTimestampParses`).
- The id made up for an alert without one can be borne by another, so the two share a
  dedup key (`Parser.SameKeyExactly`, `Parser.MadeUpIdCollides`).
- Attaching lowers `first_seen` without recomputing deadlines, so deadlines are tied to
  the anchor of the last computation. They match the present `first_seen` if and only if
  no alert joined from before it since they were last computed
  (`SlaRuns.MatchKeptExactly`, `SlaRuns.LateAlertLeavesDeadlines`).
- Escalation is said only to tighten. Once a severity is lowered by hand it can loosen
  (`SlaRuns.LoweringCanLoosen`); `SlaRuns.NeverLaterExactly` says exactly when it does not.
- `resume` moves the response deadline even after the answer, so a late answer can come
  to read as met (`SlaRuns.LateAnswerCanReadAsMet`); the exact verdict is
  `SlaRuns.ResponseVerdictExactly`. A resolution breach can lapse only by an escalation
  of an unanswered case (`SlaRuns.BreachLapsesExactly`).
- The escalation after a manual severity change never changes a case, because the status
  change before it has always answered it (`SlaRuns.ManualEscalationNeverFires`).
- A policy must tighten the response target with severity; the resolution target may
  lengthen (`SlaPolicy.ResolveTargetMayLengthen`), and does not if and only if no
  neighbouring rows lengthen it (`SlaPolicy.ResolvesNoLaterExactly`).
- Evidence is said to be capped at 32 KiB. The second rung is measured before its flag is
  added, and the last rung is not measured; `Evidence.OverLimitExactly` says exactly when
  the cap is passed, and `Evidence.FlagCanOvershoot` an alert for which it is.
- The fingerprint joins its parts with a separator that agent ids and entities may
  contain, so two agents can share one (`Fingerprint.SeparatorCollides`);
  `Fingerprint.AmbiguousExactly` says exactly which pairs can be confused.
- The agent sync is said never to raise. It raises exactly when the read holds an item
  that is no object, repeats an id, or has an address the column does not take or a field
  that must be a text and is none (`AgentSync.AgentTable.SyncTenant`,
  `AgentSync.SyncCanRaise`). A manager that reports no total is read for one page only
  (`AgentSync.NoTotalReadsOnePage`).
- One bad tenant is said not to stop the sweep over tenants. A sync that raises ends it,
  and every later tenant goes unsynced (`AgentSync.SweepExactly`,
  `AgentSync.SecondIsStarved`).
- A rotated secret is said to stop working at once. A lookup whose read came before the
  change may store it after the invalidation, and the invalidation is issued before the
  change commits; `TenantCache.OldAnswersExactly` and `TenantCache.OldCanBeAnsweredExactly`
  say exactly when an old answer is given, `TenantCache.LateStoreOutlivesInvalidation` and
  `TenantCache.LookupOutlivesRotation` are runs in which one is.
- An alert of an unknown tenant is said to be stored and not grouped. The statistics row
  of the same transaction refers to the tenant, so that transaction never commits: every
  stored alert is in an incident (`Progress.NoAlertIsLeftOut`). An entry that cannot
  commit, of an unknown tenant or of a date without a partition, keeps every entry always
  read with it from being acknowledged (`Progress.CommitsExactly`,
  `Progress.HeldCanCommitExactly`, `Progress.OneEntryHoldsUpTheRest`).
- A partition whose name reads as a month outside 1 to 12, as any month of the year 0 or
  as December 9999 makes the sweep raise rather than be skipped
  (`Partitions.RaisesExactly`, `Partitions.ThreeNamesRaise`).

## Model

| member | source | states |
|---|---|---|
| SlaPolicy.ValidatePolicy | backend/app/schemas/tenant.py:82-116 | a submission is accepted if and only if it has at most 16 valid bands, no floor twice and no looser response at a higher floor; what is stored is the same bands in strictly rising order |
| SlaPolicy.NeighboursTighten | backend/app/schemas/tenant.py:110-115 | comparing neighbours of the sorted bands decides every pair |
| SlaPolicy.FindBand | backend/app/incidents/sla.py:50-64 | the early-exit loop returns the band of the leading run of floors not above the severity, on any list |
| SlaPolicy.MatchIsHighestFloor | backend/app/incidents/sla.py:50-64 | on a stored policy that band is the highest floor not above the severity, and there is one exactly when some floor is not above it |
| SlaPolicy.HigherSeverityIsTighter | backend/app/schemas/tenant.py:108-115 | under one stored policy a higher severity never loses its band and never gets more response time |
| SlaPolicy.ResolveTargetMayLengthen | backend/app/schemas/tenant.py:110-115 | an accepted policy that gives a higher severity longer to resolve |
| SlaPolicy.ResolvesNoLaterExactly | backend/app/schemas/tenant.py:110-115 | no higher severity gets longer to resolve if and only if no neighbouring stored rows lengthen it |
| SlaPolicy.BandIsOrdered | backend/app/schemas/tenant.py:87-91 | every band of a stored policy has a positive response target, not above its resolution target |
| Model.Incident.constructor | backend/app/incidents/grouping.py:145-151 | a loaded incident holds exactly the stored row |
| Sla.ApplyOnCreate | backend/app/incidents/sla.py:67-81 | sets both deadlines from the first sighting and the band, or neither, and nothing else of the clock |
| Sla.ApplyOnEscalation | backend/app/incidents/sla.py:84-95 | recomputes from first sighting, band and held seconds only while unanswered and only with a band; otherwise changes nothing |
| Sla.MarkFirstResponse | backend/app/incidents/sla.py:98-106 | stamps once, tells whether it did, and never restamps |
| Sla.Pause | backend/app/incidents/sla.py:109-111 | stamps the pause only if none is running |
| Sla.Resume | backend/app/incidents/sla.py:114-127 | moves each deadline present and the held total by the same whole seconds, ends the pause, and returns those seconds |
| Sla.ApplyStatusTransition | backend/app/incidents/sla.py:130-157 | the whole new clock after a status change; the audit detail names both statuses, whether it paused, whether this was the first response, and on a case paused exactly while pending whether a hold ended and the very seconds added |
| Sla.EditClock | backend/app/api/v1/incidents.py:282-309 | the clock part of one edit, statement by statement, equals the edit step the run theorems are about |
| SlaRuns.TransitionTable | backend/app/incidents/sla.py:130-157 | every field after any status change of a case whose status and clock agree: one hold counted once, whichever branch resumes it |
| SlaRuns.EditTable | backend/app/api/v1/incidents.py:282-309 | every clock field after any edit of such a case |
| SlaRuns.ManualEscalationNeverFires | backend/app/api/v1/incidents.py:307-309 | whatever the policy, an edit of such a case does what it would do with no policy at all |
| SlaRuns.StepKeepsCoupling | backend/app/incidents/sla.py:98-157 | no step breaks the agreement of status and clock, restamps the answer or lowers the held seconds |
| SlaRuns.CouplingOverRun | backend/app/incidents/sla.py:98-157 | over every run: paused exactly while pending, closed stamp exactly while closed, unanswered means new and never held, the first response never changes |
| SlaRuns.DeadlinesConserved | backend/app/incidents/sla.py:67-127 | over every run, even with a clock going back, both deadlines are absent or each equals anchor plus band target plus exactly the recorded held seconds |
| SlaRuns.RespondBeforeResolve | backend/app/incidents/sla.py:67-95 | over every run under accepted policies the response deadline is never after the resolution deadline |
| SlaRuns.RecordedHoldMatchesLog | backend/app/incidents/sla.py:114-150 | the recorded seconds are exactly the stays in pending of the status log, each rounded down and counted once |
| SlaRuns.HeldTimeRounding | backend/app/incidents/sla.py:114-127 | with a clock that never goes back, k completed pauses lose at least 0 and less than k seconds, and nothing when k is 0 |
| SlaRuns.ResolutionBreachIsOvertime | backend/app/incidents/sla.py:171-178 | in every reachable state the resolution test holds exactly when time since the anchor, read from the status log and less the held whole seconds, exceeds the target |
| SlaRuns.ResponseBreachIsOvertime | backend/app/incidents/sla.py:160-168 | the same for the response test, answered or not |
| SlaRuns.BreachLapsesExactly | backend/app/incidents/sla.py:171-178 | one step clears a resolution breach if and only if it is an alert that escalates an unanswered case onto a deadline not yet reached |
| SlaRuns.ResolutionBreachIsPermanent | backend/app/incidents/sla.py:171-178 | once answered, a resolution breach holds at every later time through any pauses, resumes, closes, reopens and alerts |
| SlaRuns.BreachStaysFromCreation | backend/app/incidents/sla.py:171-178 | the same for any case from its creation on, whatever led to the breach |
| SlaRuns.UnansweredBreachCanLapse | backend/app/incidents/sla.py:84-95 | unanswered, a resolution breach can lapse |
| SlaRuns.ResponseVerdictExactly | backend/app/incidents/sla.py:121-122 | after any run an answered case is late if and only if the answer came after the deadline moved forward by every second held since |
| SlaRuns.MetResponseStaysMet | backend/app/incidents/sla.py:160-164 | a case answered in time stays answered in time |
| SlaRuns.LateAnswerCanReadAsMet | backend/app/incidents/sla.py:121-122 | a run in which a late answer comes to read as met |
| SlaRuns.EscalationOnlyTightens | backend/app/incidents/grouping.py:181-185 | under one accepted policy, while unanswered and not lowered by hand, the response deadline never moves later and never goes away, whatever alerts join in whatever order |
| SlaRuns.StartIsFromPolicy | backend/app/incidents/grouping.py:226 | every new case satisfies the premise of that theorem |
| SlaRuns.LoweringCanLoosen | backend/app/api/v1/incidents.py:299-301 | lowered by hand, the severity can rise again onto a looser deadline |
| SlaRuns.LoosensExactly | backend/app/incidents/sla.py:84-95 | one step of a case that stays unanswered moves its response deadline later, or away, if and only if it is an escalation onto a later deadline |
| SlaRuns.NeverLaterExactly | backend/app/incidents/sla.py:84-95 | over any run of a case that stays unanswered the response deadline never moves later, at any step, if and only if no step is such an escalation |
| SlaRuns.MatchExactly | backend/app/incidents/grouping.py:173-185 | after one step the deadlines match the present first sighting if and only if they were computed anew, or there are none, or they matched and no earlier alert joined |
| SlaRuns.MatchKeptExactly | backend/app/incidents/grouping.py:173-185 | over any run from creation they match if and only if no earlier alert joined since they were last computed |
| SlaRuns.LateAlertLeavesDeadlines | backend/app/incidents/grouping.py:173 | an alert an hour older lowers the first sighting and leaves the deadlines |
| Evidence.TrimEcs | backend/app/incidents/evidence.py:22-30 | keeps the first 40 fields in order and cuts long texts to 512 characters and a mark |
| Evidence.UpdateInPlace | backend/app/incidents/evidence.py:46-92 | the in-place shedding ladder equals the ladder written rung by rung |
| Evidence.TrimmedIs | backend/app/incidents/evidence.py:22-30 | the trimmed document, exactly: the first 40 fields, a text over 512 characters cut there and marked, everything else as it was |
| Evidence.MergedExactly | backend/app/incidents/evidence.py:33-39 | a joined list is exactly the first fifty of the different values of both lists, in their order |
| Evidence.UpdateExactly | backend/app/incidents/evidence.py:46-92 | everything is kept if it fits in 32 KiB; else the first of three snapshots that fits, shedding the latest body, then the lists to five, then the first body, or the last; flagged if anything was shed |
| Evidence.FirstIsTheFirstAlert | backend/app/incidents/evidence.py:59-72 | over any fold, `first` keeps the first alert's time, description and level, its body is that alert's trimmed body or nothing; `latest` is about the last alert |
| Evidence.FirstBodyGoesLast | backend/app/incidents/evidence.py:78-92 | the first body is emptied only when all three earlier rungs are over the limit, and never comes back |
| Evidence.EntityListsOverFold | backend/app/incidents/evidence.py:33-39 | over any fold the lists hold no duplicates and at most 50; each alert extends every list by its own values, losing none but to the cap, unless the lists are cut to five and are prefixes of that |
| Evidence.OverLimitExactly | backend/app/incidents/evidence.py:75-92 | a result is over 32 KiB if and only if the unflagged second rung had less than the flag's room left or even the last rung did not fit; beyond the flag's room nothing is left to shed |
| Evidence.AddingUpChargesForFlag | backend/app/incidents/evidence.py:42-43 | an encoder that adds up the text of the snapshot charges the 19 characters of the flag, as the cap theorem supposes |
| Evidence.FlagCanOvershoot | backend/app/incidents/evidence.py:82-84 | for an encoder that adds up the text of the snapshot, an alert whose snapshot the flag carries over the limit |
| Related.Collector.Add | backend/app/normalisation/related.py:97-107 | appends the cleaned value exactly when it is usable and not held in any letter case |
| Related.CollectAll | backend/app/normalisation/related.py:119-122 | collecting candidates one by one gives the collected list |
| Related.CollectedOnce | backend/app/normalisation/related.py:85-107 | the list is pairwise different ignoring case, holds only usable candidates as first spelt, and leaves none out |
| Related.CollectedExactly | backend/app/normalisation/related.py:97-107 | the list is the cleaned text of exactly those candidates that are not empty, no spelling of "empty", and not spelt by an earlier one ignoring case, in their order |
| Fingerprint.SameMaterialExactly | backend/app/incidents/grouping.py:49-57 | two alerts share a fingerprint if and only if tenant, rule and the joined rest agree, so never across tenants or rules |
| Fingerprint.SameFingerprintExactly | backend/app/incidents/grouping.py:49-57 | for agent ids without the separator a fingerprint is shared if and only if tenant, rule, agent and entity agree |
| Fingerprint.AmbiguousExactly | backend/app/incidents/grouping.py:56 | an agent and entity can be confused with another pair if and only if either holds the separator |
| Fingerprint.SeparatorCollides | backend/app/incidents/grouping.py:56 | two different agents and entities with one fingerprint |
| Fingerprint.PrimaryEntityIs | backend/app/incidents/grouping.py:60-75 | the primary entity is the text of the first of source.ip, user.name and host.name whose value is no structure, not null and not empty, and the empty text when none is |
| Parser.Clamp | backend/app/ingest/parser.py:94-97 | the level lies in 0 to 15 and is unchanged when it did already |
| Parser.KeyIsStableIffTimestampParses | backend/app/ingest/parser.py:88-103 | the dedup key is the same at every time of receipt if and only if the timestamp parses |
| Parser.SameKeyExactly | backend/app/ingest/parser.py:99-103 | two alerts of a client with parseable timestamps share a key if and only if they agree on the instant and on the id, or one has none and the other bears the id made up for that instant |
| Parser.MadeUpIdCollides | backend/app/ingest/parser.py:101-103 | an alert without an id and one that bears its made-up id share a key |
| Decimal.MillionthsReadBack | backend/app/ingest/parser.py:103 | the six-decimal text an id is made up from reads back as the very number of microseconds |
| Parser.SameFingerprintOfAlerts | backend/app/workers/ingest_consumer.py:71-76 | two parsed alerts whose agent ids lack the separator share a fingerprint if and only if tenant, rule, agent and primary entity agree |
| Parser.ParsedIs | backend/app/ingest/parser.py:88-125 | what an alert carries: its own instant or that of receipt, its level within 0 to 15, at most 2000 characters of description and never none, its document, its collected entities and the primary entity of that document |
| EntityStore.UpsertAndLink | backend/app/incidents/entities.py:30-77 | the nested loops write every listed entity once per listing and link it, and report how many: exactly the entities named among the first fifty values of each kind are added and linked |
| EntityStore.ListedExactly | backend/app/incidents/entities.py:42-47 | an alert lists exactly the entities of its tenant whose value is not empty and among the first fifty of their kind, for every kind |
| EntityStore.UpsertCounts | backend/app/incidents/entities.py:47-65 | each entity's count rises by exactly its occurrences in the list, and exactly the listed ones appear |
| EntityStore.UpsertWidens | backend/app/incidents/entities.py:58-62 | an entity's times widen just enough to hold the alert's; unlisted entities are untouched |
| EntityStore.LinkAllHolds | backend/app/incidents/entities.py:69-74 | exactly the listed entities become linked; an existing link keeps its role, a new one is the source's exactly when it is the primary entity |
| EntityStore.ListedIsDistinct | backend/app/incidents/entities.py:42-45 | duplicate-free lists give a duplicate-free list of entities, so an alert adds at most one to any |
| Grouping.FindOpen | backend/app/incidents/grouping.py:145-151 | finds an open incident of the tenant and fingerprint, and none only if there is none |
| Grouping.RecentResolved | backend/app/incidents/grouping.py:102-121 | the most recently closed case of the last seven days, and none only if there is none |
| Grouping.NextIncidentNumber | backend/app/incidents/grouping.py:80-99 | hands out the next number and leaves the counter one above it |
| Grouping.Attach | backend/app/incidents/grouping.py:163-196 | the whole incident after an alert joins it |
| Grouping.AttachOrCreate | backend/app/incidents/grouping.py:124-234 | attaches to the open incident or opens one: the whole new incident table and counter |
| Grouping.OpenedCaseIs | backend/app/incidents/grouping.py:199-234 | the case an alert opens: the tenant's next number, title of at most 200 characters, level, instant, one alert of its rule, both deadlines from the stored row with the highest floor not above the level or none, linked to the case closed last within seven days if there is one; no other row changes |
| IngestConsumer.InsertRows | backend/app/workers/ingest_consumer.py:109-119 | inserts on no conflict, the first copy of a key winning, and returns exactly the keys that were new |
| IngestConsumer.Group | backend/app/workers/ingest_consumer.py:154-240 | groups in timestamp order, equal instants as they came, tenant settings read once, unknown tenants skipped |
| LandingOrder.JoinInOrder | backend/app/workers/ingest_consumer.py:157-167 | whatever the batch, a case is joined by exactly its newly stored alerts, by timestamp and at the same instant by position in the batch |
| LandingOrder.OpenedByTheEarliest | backend/app/incidents/grouping.py:199-234 | a case opened by a commit takes its title and first sighting from its earliest landed alert, its first evidence is about that one, and its last sighting and latest evidence are of the latest |
| LandingOrder.JoinedByTheLatest | backend/app/incidents/grouping.py:163-196 | an open case joined by a commit keeps its title, its sightings widen to the earliest and latest landed alert, and its latest evidence is about the latest |
| Commits.WriteBatch | backend/app/workers/ingest_consumer.py:82-151 | the whole transaction, statistics included: it commits if and only if every row's date has a partition and its tenant is known; committed, it leaves exactly the two stages the theorems below are about and the day's statistics, aborted nothing |
| Commits.SizeCounts | backend/app/workers/ingest_consumer.py:103-104 | the alert count gathered for a tenant is exactly its rows of the batch |
| Commits.CountedHolds | backend/app/workers/ingest_consumer.py:121-134 | today's statistics of each tenant of the batch rise by its alerts and bytes; every other day and tenant is as it was |
| Commits.SizesAddUp | backend/app/workers/ingest_consumer.py:103-104 | the sizes of a batch's tenants add up to all its well-formed entries and all their text |
| TableLaws.PlaceKeepsUniqueOpen | backend/alembic/versions/0001_initial_schema.py:184-187 | placing an alert never breaks the open-fingerprint index and leaves every closed incident and every other fingerprint's as it was |
| TableLaws.PlaceKeepsNumbered | backend/app/incidents/grouping.py:80-99 | each incident's number is its position among its tenant's, and the counter the next |
| TableLaws.NumbersIncrease | backend/app/incidents/grouping.py:80-99 | later incidents of a tenant have higher numbers, all below the counter |
| TableLaws.NoNumberSkipped | backend/app/incidents/grouping.py:80-99 | every number from 1 to just below the counter belongs to an incident of the tenant |
| TableLaws.RecurrenceLowersNumber | backend/app/incidents/grouping.py:228-230 | a recurrence link leads to a lower number of the same tenant and fingerprint, so chains are acyclic |
| TableLaws.PlaceAddsOne | backend/app/incidents/grouping.py:124-174 | one alert adds one to its own fingerprint's open count and nothing to any other |
| ExactlyOnce.GroupOneIsExact | backend/app/workers/ingest_consumer.py:175-238 | grouping a stored ungrouped row keeps every count exact: incident, its rules, its first and last sighting, each entity and its times, the links to exactly the entities named, and links of the same fingerprint |
| ExactlyOnce.GroupedAlertLinks | backend/app/incidents/entities.py:67-74 | one grouped alert links its incident to exactly what it names, as the source if that is its primary entity, and every link there was keeps its role |
| ExactlyOnce.CommitKeepsTables | backend/app/workers/ingest_consumer.py:82-151 | any batch, repeats or not, keeps index, numbering, recurrence, clocks and links sound, and no incident's count falls below its linked alerts |
| ExactlyOnce.CommitStores | backend/app/workers/ingest_consumer.py:109-119 | after a commit exactly the old keys and the batch's keys are stored |
| ExactlyOnce.CommitLinksAll | backend/app/workers/ingest_consumer.py:224-229 | no stored alert of a grouped tenant is left without an incident |
| ExactlyOnce.CommitIsExactIffClean | backend/app/workers/ingest_consumer.py:113-163 | from exact tables (incident counts, per-rule counts and times against the linked alerts, entity counts and times against those that list them) a commit leaves exact tables if and only if no new key of a grouped tenant comes in it twice |
| ExactlyOnce.UnchangedIffAllStored | backend/app/workers/ingest_consumer.py:113-115 | a commit changes nothing at all if and only if every row is stored already |
| Batching.GroupAllOpens | backend/app/incidents/grouping.py:145-160 | after grouping any rows a case of a fingerprint is open if and only if one was or some row is of it, and one that was open still is |
| Batching.CommitGathers | backend/app/workers/ingest_consumer.py:154-240 | a batch without a new key of this tenant twice raises the open count of a fingerprint by exactly the alerts of it newly stored, and a case is open if and only if one was or any landed |
| Batching.OneIncidentInAnyBatching | backend/app/incidents/grouping.py:124-160 | over any split into such batches at most one incident is open, one is if any landed or one was, and its count rose by exactly the N alerts newly stored |
| Gathering.OneIncidentInAnyRun | backend/app/incidents/grouping.py:124-160 | the same over any run of the system, with crashes, edits, comments and settings changed, in which no case of the fingerprint is closed or reopened |
| Gathering.PublishedTwiceCountsTwo | backend/app/workers/ingest_consumer.py:163 | one alert published twice and read in one batch is stored once and counted twice |
| Joining.GroupAllJoins | backend/app/incidents/grouping.py:124-234 | grouping any rows: the open case of a fingerprint becomes the old one joined by exactly its rows in order, or the one the first opens and the rest join |
| Joining.CommitsJoin | backend/app/workers/ingest_consumer.py:154-240 | the same over any number of commits of any batches |
| Joining.JoinedEvidence | backend/app/incidents/grouping.py:187-195 | the evidence of a joined case is the evidence fold over its alerts in the order they joined |
| Joining.JoinedIs | backend/app/incidents/grouping.py:163-182 | for a case opened and joined under one configuration: its count, severity, first and last seen, late arrivals and per-rule counts in closed form; late arrivals at most count minus one |
| Joining.OrderDoesNotMatter | backend/app/incidents/grouping.py:163-182 | any two orders of the same alerts agree on count, severity, first and last seen and per-rule counts |
| Joining.OrderOfJoiningDoesNotMatter | backend/app/incidents/grouping.py:163-182 | the same for alerts that join a case already open |
| OrderFree.SeverityIsHighest | backend/app/incidents/grouping.py:181-182 | over every clean run without a severity set by hand, severity is the highest level among the linked alerts |
| OrderFree.SameAlertsMakeTheSameCase | backend/app/incidents/grouping.py:163-182 | two incidents of any two clean runs with the same linked alerts agree on count, first and last sighting, per-rule counts and, unless set by hand, severity |
| Joining.RuleCountsAddUp | backend/app/incidents/grouping.py:166-179 | the per-rule counts of a case opened and joined by alerts sum to its alert count |
| Summaries.EveryIncidentAddsUp | backend/app/incidents/grouping.py:163-182 | from an empty system, over every run, clean or not and with settings changed in between, each incident's per-rule counts sum to its alert count and its late arrivals are at most that minus one |
| Joining.EntityOrderDoesNotMatter | backend/app/incidents/entities.py:55-64 | two alerts leave the same entity rows whichever is written first |
| IncidentsApi.UpdateIncident | backend/app/api/v1/incidents.py:267-324 | one case's clock edited and committed if the case exists and the index does not refuse, and only then reported so; otherwise nothing changed |
| IncidentsApi.BulkUpdate | backend/app/api/v1/incidents.py:573-628 | all cases edited in turn in one transaction, or none, reported as which; exactly the changed ones listed as updated and exactly the others as skipped |
| IncidentsApi.PostComment | backend/app/api/v1/incidents.py:442-466 | a staff comment answers the case, a client's does not; never refused by the index |
| IncidentsApi.CommentAnswers | backend/app/api/v1/incidents.py:454 | on the tables: a staff comment sets the first response of its case if there was none and changes nothing else; a client's comment changes nothing |
| IncidentsApi.UpdateTakesEffect | backend/app/api/v1/incidents.py:282-309 | on the tables: an update not refused gives its case the status and severity asked for and answers it if it was assigned or its status changed, and touches no other |
| IncidentsApi.BulkTakesEffect | backend/app/api/v1/incidents.py:573-628 | the same for every listed case of a bulk request, listed once or more |
| IncidentsApi.ReportedExactly | backend/app/api/v1/incidents.py:585-611 | in a selection without repeats an id is reported as updated if and only if its case exists and a field is set for it or its status differs from the one asked for, and as skipped otherwise, each once |
| IncidentsApi.EachIsEditedOnce | backend/app/api/v1/incidents.py:585-611 | in a selection without repeats each listed case takes the step once and no other is touched |
| IncidentsApi.RequestKeepsTables | backend/app/api/v1/incidents.py:267-324 | no request changes a count, summary, piece of evidence or any table's soundness: only clocks differ |
| IncidentsApi.RefusedExactly | backend/alembic/versions/0001_initial_schema.py:184-187 | an update is refused if and only if it reopens a closed case whose fingerprint already has an open one |
| IncidentsApi.BulkRefusedExactly | backend/alembic/versions/0001_initial_schema.py:184-187 | a bulk request is refused if and only if it sets an open status and would leave two cases of one fingerprint open |
| Delivery.NothingIsLost | backend/app/workers/ingest_consumer.py:243-297 | over every run with crashes anywhere: each entry is undelivered, pending or acked and only one of these, an acked one is stored or was malformed, stored alerts stay, tables stay sound, no count too low |
| Delivery.ExactlyOnceIffClean | backend/app/workers/ingest_consumer.py:82-297 | at the end of any run every incident and entity count is exact if and only if no committed batch brought a new key of a grouped tenant twice |
| Delivery.AckedAlertIsCounted | backend/app/workers/ingest_consumer.py:262-268 | from an empty system, an acked well-formed entry with a parseable timestamp and a configured tenant is stored under its one key, linked to an incident of its tenant, one of the alerts linked to it, all of which that incident counts |
| Acknowledged.AckTakesOut | backend/app/workers/ingest_consumer.py:262-268 | an acknowledgement takes every pending entry its consumer holds out of the pending list and marks it done; every other entry keeps its state |
| Acknowledged.TakingHolds | backend/app/workers/ingest_consumer.py:243-257 | a consumer that reads or reclaims holds exactly what it took, uncommitted, all of it pending with that consumer, and every other entry stays where it was |
| Acknowledged.CrashForgets | backend/app/workers/ingest_consumer.py:271-297 | a consumer that dies can neither commit nor acknowledge before it takes entries again, and what it held stays pending |
| Acknowledged.StreamIsPublished | backend/app/ingest/stream.py:52-56 | over every run the stream is what was published, in order |
| Acknowledged.AckedExactly | backend/app/workers/ingest_consumer.py:243-297 | from an empty system over every run: an entry is acknowledged if and only if some consumer read or reclaimed it, then committed and then acknowledged without dying in between |
| Acknowledged.AckedStays | backend/app/workers/ingest_consumer.py:262-268 | an acknowledged entry stays so |
| Acknowledged.WritesTakeEffect | backend/app/api/v1/incidents.py:267-324 | a request or a change of settings takes effect on the tables and on nothing of the delivery |
| Progress.CanBeAckedExactly | backend/app/workers/ingest_consumer.py:243-297 | up to 200 undelivered entries that a free consumer reads on, or pending ones it reclaims, can be committed and acknowledged, all of them, if and only if each is malformed or has a known tenant and a date in a held partition |
| Progress.CommitsExactly | backend/alembic/versions/0001_initial_schema.py:248-254 | a batch commits if and only if each of its entries, parsed when it was, is malformed or has a known tenant and a date in a held partition |
| Progress.HeldCanCommitExactly | backend/app/workers/ingest_consumer.py:243-268 | what a consumer holds can commit at some readings of the clock if and only if each entry of it could alone |
| Progress.CoveredExactly | backend/app/workers/partitions.py:34-51 | with the partitions of an interval of months, a date has one if and only if its month lies in the interval |
| Progress.MaintainedCoversExactly | backend/app/workers/partitions.py:86-90 | after steady maintenance of the monthly partitions a date has one if and only if its month is not below the lowest kept nor above those made ahead |
| Progress.NoAlertIsLeftOut | backend/app/workers/ingest_consumer.py:179-183 | in every run of transactions that do commit each stored alert is of a known tenant and in an incident, so the branch for an unknown tenant leaves nothing stored |
| Progress.OneEntryHoldsUpTheRest | backend/app/workers/ingest_consumer.py:262-268 | an entry that can never commit keeps every entry always taken with it from ever being acknowledged |
| Delivery.RedeliveryOfLanded | backend/app/workers/ingest_consumer.py:262-263 | committing entries that already landed and whose timestamps parse changes no table |
| PipelineSla.ClosedCaseIsFrozen | backend/app/incidents/grouping.py:107-110 | over any run, while a case is closed nothing of it changes but its clock, and that only by a request |
| PipelineSla.SystemBreachIsPermanent | backend/app/incidents/sla.py:171-178 | in the running system a resolution breach of an answered case holds at every later time |
| SystemSla.ResponseIsDueFirst | backend/app/incidents/sla.py:67-95 | in the running system, while configured policies are accepted ones, no incident's response is due after its resolution |
| SystemSla.DeadlineOnlyTightens | backend/app/incidents/grouping.py:181-185 | in the running system, under one accepted policy of its tenant and while nobody lowers its severity, an incident still unanswered has its response due no later than it was at any earlier point |
| SystemSla.FreshIsFrom | backend/app/incidents/grouping.py:226 | every newly opened incident meets the premise of that theorem |
| ReachableClocks.EveryClockIsKept | backend/app/incidents/sla.py:67-157 | from an empty system every incident's clock is that of a run that keeps conservation, coupling, the status log and the rounding bound |
| Admission.Authenticate | backend/app/ingest/auth.py:196-240 | accepts if and only if the lookup found an active tenant, the prefix is there, the time is fresh, the signature is the tenant's and the address is allowed; for every other request exactly which reason is given |
| Admission.FreshExactly | backend/app/ingest/auth.py:150-160 | a timestamp is fresh if and only if it reads as seconds not more than the skew before or after now |
| Admission.Store.Publish | backend/app/ingest/stream.py:38-57 | the whole effect of the script: which of replay, over the limit and queued it answers, the nonce for twice the skew and five seconds, the counter and when it expires, and the whole batch appended or nothing |
| Admission.NoRequestIsQueuedTwice | backend/app/ingest/stream.py:77-81 | in any run whose requests go from check to publish within five seconds no signature is queued twice for a tenant |
| Admission.SafeExactlyWithinSlack | backend/app/ingest/stream.py:80-81 | all runs within a latency are safe if and only if the latency is at most the five seconds added to the nonce |
| Admission.PublishKeepsRate | backend/app/ingest/stream.py:43-50 | one publish keeps the rate invariant in each case of the counter: absent, expired, live at zero, in use |
| Admission.RateBound | backend/app/ingest/stream.py:43-50 | in any run every counter has an expiry, at most the limit is queued in its lifetime and at most twice the limit in any interval of one window |
| Admission.QuietTenantIsServed | backend/app/ingest/stream.py:43-56 | after any run a fresh, never presented request is queued whole whenever what its tenant presented in the last window, with it, is within the limit |
| Admission.VerdictsAreTheTenantsOwn | backend/app/ingest/stream.py:69-74 | a tenant's verdicts in any run are those it would get alone |
| TenantCache.TenantAuthCache.Get | backend/app/ingest/auth.py:88-118 | one lookup: answered from an entry younger than the soft limit, or the negative one for no tenant; else loaded and stored; else, on a failing load, answered from an entry not past the hard limit; else an error; and it is its two halves, up to the load and after it |
| TenantCache.TenantAuthCache.Invalidate | backend/app/ingest/auth.py:82-86 | drops one slug or everything, and nothing else |
| TenantCache.AnswersAreRecent | backend/app/ingest/auth.py:88-118 | over any interleaving of lookups, their reads and stores, updates, outages and invalidations every answer is what the database held when it was read, no earlier than the hard limit before the lookup began, and the soft or negative limit when no load failed |
| TenantCache.OldAnswersExactly | backend/app/ingest/auth.py:82-118 | after an invalidation an answer read before it is given if and only if a lookup then in flight ends with a load that had read before, or serves its fallback |
| TenantCache.OldCanBeAnsweredExactly | backend/app/ingest/auth.py:88-118 | in any reachable state an answer read before now can still be given if and only if one is cached and not past the hard limit, or a lookup in flight began before now or holds a fallback read before |
| TenantCache.LateStoreOutlivesInvalidation | backend/app/ingest/auth.py:104-117 | a run in which a load reads, the value changes, the slug is invalidated, the load stores, and the old answer is given |
| TenantCache.LookupOutlivesRotation | backend/app/api/v1/tenants.py:277-278 | a run in which a lookup between the invalidation and the commit of a rotation brings the old secret back |
| TenantCache.RefusedExactly | backend/app/ingest/auth.py:102-115 | a failing load is an error if and only if nothing was cached or it was older than the hard limit |
| Partitions.AddMonthsComposes | backend/app/workers/partitions.py:25-27 | adding months composes, whatever the signs |
| Partitions.MonthsTile | backend/app/workers/partitions.py:25-45 | a date lies in a month's range if and only if that is its month: no gap, no overlap |
| Partitions.NameReadsBackIffFourDigits | backend/app/workers/partitions.py:30-31 | a partition's name reads back as its month if and only if the year has four digits |
| Partitions.Maintainer.EnsurePartitions | backend/app/workers/partitions.py:34-51 | creates, where missing, this month and each premade one, and lists their names in order |
| Partitions.Maintainer.DropExpired | backend/app/workers/partitions.py:54-83 | drops exactly the partitions that ended by the cutoff, whatever order they are listed in; raises, changing nothing, if and only if some name is one that raises |
| Partitions.RaisesExactly | backend/app/workers/partitions.py:70-76 | a name raises if and only if it reads as a month outside 1 to 12, a month of the year 0, or December 9999 |
| Partitions.ThreeNamesRaise | backend/app/workers/partitions.py:70-76 | a name of each kind that raises |
| Partitions.MonthlyNamesAreFaithful | backend/app/workers/partitions.py:30-76 | from the year 1000 to November 9999 no two months share a name, and a name is dropped exactly when its month ended by the cutoff |
| Partitions.IntervalHolds | backend/app/workers/partitions.py:34-51 | the interval catalogue holds exactly the months of the interval, each with its own bounds |
| Partitions.PartitionsStayContiguous | backend/app/workers/partitions.py:86-90 | after any steady sequence of runs, each of which may die between its two commits, the partitions are exactly one interval of months, up to the premade ones |
| Partitions.NoSweepRaises | backend/app/workers/partitions.py:69-76 | and no sweep of such a sequence raises |
| Partitions.WindowIsCovered | backend/app/workers/partitions.py:34-51 | every month of that interval has its partition with its own bounds, and there is no other partition |
| Partitions.MonthlyPartitionsStayContiguous | backend/app/workers/partitions.py:30-90 | both hold of the program's own monthly names |
| Partitions.LateRunLeavesAGap | backend/app/workers/partitions.py:34-51 | the month after the last one held stays missing if and only if the next run comes more than one month late |
| Partitions.DroppedIsOutsideRetention | backend/app/workers/partitions.py:54-59 | by count of days every date of a dropped partition is older than the retention window |
| Partitions.DroppedExactly | backend/app/workers/partitions.py:61-77 | a month's partition is dropped if and only if the month ended, by count of days, by the start of the month that holds the oldest day of the window |
| Partitions.DaysBeforeCounts | backend/app/workers/partitions.py:61 | going back n days goes back by exactly n in the count of days |
| Partitions.BeforeIsFewerDays | backend/app/workers/partitions.py:61-77 | dates are in the order of their count of days |
| Partitions.NamesInOrder | backend/app/workers/partitions.py:34-51 | the names made are those of this month and of the months after it, in order |
| AgentSync.Agents | backend/app/wazuh/manager_client.py:157-182 | against any manager at most 10000 requests are made and at most 10000 agents returned |
| AgentSync.WholeFleetIsRead | backend/app/wazuh/manager_client.py:166-182 | whatever its page sizes, a manager with a true or overstated total is read to the end or the ceiling; one that understates it, at least that far and less than a page further |
| AgentSync.FilledPagesAreRead | backend/app/wazuh/manager_client.py:166-182 | a manager that fills its pages, whatever total it reports, is read exactly to the end of the page that reaches that total, so whole if and only if that page does |
| AgentSync.NoTotalReadsOnePage | backend/app/wazuh/manager_client.py:176-181 | without a reported total only the first page is read, so the fleet is complete exactly when that page holds it |
| AgentSync.AgentTable.SyncTenant | backend/app/wazuh/sync.py:87-155 | a failed read changes no agent row and notes the error; an item that is no object, a repeated id, an unfit address or a field that is no text raises, exactly then, with nothing committed; any other read leaves its mirror, and reports how many rows were read and how many cached agents went |
| AgentSync.SyncMirrorsTheRead | backend/app/wazuh/sync.py:115-145 | after a successful sync the tenant has exactly the agents read, each as read, and other tenants' rows are as they were |
| AgentSync.RowHolds | backend/app/wazuh/sync.py:47-84 | what is stored of an agent: its name or else its id, its address without blanks around it unless blank or no text, its check-in time as read unless absent or of the year 9999, the rest as reported |
| AgentSync.UsableIsRead | backend/app/wazuh/sync.py:66-69 | exactly the agents with an id are used |
| AgentSync.SyncCanRaise | backend/app/wazuh/sync.py:94 | an item that is no object, a repeated id, an address the column does not take or a version that is no text cannot be stored |
| AgentSync.AgentTable.SyncAll | backend/app/wazuh/sync.py:158-180 | the sweep makes every visit up to the first that raises, and says whether one did |
| AgentSync.SweepExactly | backend/app/wazuh/sync.py:158-180 | a tenant is left with the mirror of its read if it was read and no visit up to its own raises, with the error noted if its read failed, and untouched if its own or an earlier visit raises; other tenants never matter otherwise |
| AgentSync.SecondIsStarved | backend/app/wazuh/sync.py:158-180 | two tenants of which the first raises and the second, well answered, goes unsynced |

## Left out

Assumptions of the model:

- Transactions are serialised; two overlapping edits of one incident are not modelled.
- A commit is all or nothing. A missing partition and the foreign key of the statistics row abort it in `Commits.WriteBatch` and in the runs of `progress.dfy`; any other cause (a lost connection, a number out of its column's range) is the crash event, as are those two in the other theorems over runs, which hold whichever commits happen.
- The date of an instant is an arbitrary function of it.
- The cache's clock and the history of the database share one time line.
- HMAC (section 2 of RFC 2104) and SHA-256 are injective functions; a fingerprint is the text digested.
- The stream is never trimmed, and stored alerts of the delivery machine are not dropped by retention.
- One clock is used for the freshness check and for the store's expiries; keys in the store are structured, not text.
- The encoded size of a snapshot is an arbitrary function; only what the flag adds to it is fixed where a theorem needs it.
- Text operations (cleaning, case folding, placeholders, time and address readings) are arbitrary functions.
- `total_seconds` is exact; it is so below about 270 years.
- PostgreSQL refuses an `ON CONFLICT DO UPDATE` that would touch one row twice; the driver's limit on parameters of one statement is not modelled.

Not part of this model:

- Events, audit rows, logging, HTTP plumbing, roles and tenant scope of requests.
- Assignee, title and classification edits of an incident, which do not touch its clock or counts.
- Keyset pagination and reprocessing, whose comparison depends on a library not shown; reports, coverage, overview, rules and user administration.
- Normalisation maps, the routing of fields to collectors, nested values, and the address and hash patterns.
- Sharing of one nested dictionary between two snapshots: documents are values here.
- The made-up id is the exact decimal of the timestamp; the source prints a float, the same to six decimals until about the year 2106.
- A shared instant of closing among recently closed cases: the lowest position is taken where the database may take any.
- Address allowlists and proxy hops: whether the address is allowed is an input.
- The library's stable in-place sort of a list: a function here, so the loop over the sorted rows is modelled and the sort itself is not.
- The warning a sync of an empty group adds.
- Token renewal and authentication of the manager client; the group parameter; agents shared by several tenants.
- White space beyond blank, tab and line ends in an agent's address.
- Maintenance dates whose next months leave the calendar, and `int` readings of partition names with signs, blanks or inner underscores.
