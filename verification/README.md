# Zombienet: models and proofs

Zombienet spawns ephemeral networks of Substrate nodes. Most of it drives other programs; under that sit
some algorithms and protocols that decide what a network looks like and how long it lives. This project
models those in Dafny, each in the form the TypeScript has (loops over local variables, objects whose
methods change their fields, module-level tables shared by interleaved callers), and proves what they
promise.

| module | what it models |
|---|---|
| `Sampling` | drawing without replacement over a sparse array, a partial Fisher-Yates shuffle |
| `LineParser`, `LineLaws` | the character machine that reads one line of the Prometheus text exposition format 0.0.4 (section "Text format details"), and what it makes of lines no printer prints |
| `MetricIndex`, `SeriesKeys`, `StrippedKeys` | the two-level metric index with its lookups, and what its keys stand for, with the namespace and without |
| `Histogram`, `HistogramLaws` | histogram buckets with their counts, and which lines of a text enter them |
| `Overlay` | genesis overrides laid over the JSON tree of a chain specification |
| `Genesis`, `GenesisLaws`, `GenesisOutcome` | the relay chain's genesis pipeline, and what it leaves: authorities, solvency, nominations, amounts |
| `Series`, `Scheduler` | the batch scheduler over promise generators, as a step system over all completion orders and as an object |
| `PortLease` | the port lease table shared by interleaved callers |
| `Cleaner` | the dead-man's switch: two daily cron jobs that are postponed while the network lives |
| `Flags`, `Sanitize`, `SanitizeTables`, `CollatorPorts` | rewriting of command-line arguments |
| `UniqueNames` | node names made unique by a global counter |
| `Registry` | the indices of a running network, its dump and its reconstruction |
| `CliVersion` | detection of a binary's argument version, once for every image and command |
| `OrderedMap`, `Text`, `Wrappers` | JavaScript's insertion-ordered maps, its string operations, option and result |

Methods follow the source statement by statement and are proved equal to specification functions; the
lemmas then say what these functions mean without their bodies: round trips, conservation laws, an
equivalent formulation without the carried state, or an invariant of every run. Where a property one would
expect does not hold of the code, a lemma gives the exact condition under which it does, and another one a
concrete input on which it does not:

- A line with blanks after a comma between labels, which the exposition format allows, is refused exactly when
  a named label or the closing brace follows (`LineParser.LegalSamplesRoundTrip`, `LineLaws.TrailingComma`,
  `LineParser.BlankAfterCommaRefused`). A comma directly before the brace is read.
- A line that ends early is no error: a label that was not finished is dropped (`LineLaws.UnfinishedIsRead`), as
  is a label name without a value (`LineLaws.BareNameDropped`).
- Index keys do not escape quotes, so two series can share a key, and a node that serves both can answer with
  the other one's value. A key has one reading exactly when the series has no labels, or one whose value does
  not look as if another label followed (`SeriesKeys.KeyIsUniqueIff`, `SeriesKeys.AlwaysFoundIff`,
  `SeriesKeys.KeysCollide`).
- A histogram query that two series answer mixes them. Every run of buckets telescopes exactly when lines with
  the same `le` differ from the line before by the same amount (`Histogram.AllTelescopeIff`,
  `Histogram.TwoSeriesMix`).
- Two genesis overrides in a row are one merged override exactly when the first one loses nothing at an array
  of the configuration (`Overlay.ComposeIffFits`, `Overlay.MisfitShows`).
- Genesis balances list an account twice exactly when generated nominators coincide or own something already
  (`GenesisLaws.NoAccountTwiceIff`, `GenesisLaws.OwningNominatorIsListedTwice`). The configured maximum of
  nominations is never reached unless it is one (`GenesisLaws.NominationsAreWellFormed`).
- With a concurrency below one the scheduler never settles (`Series.NoConcurrencyNeverSettles`).
- The relay part of a collator's command line gets a port flag twice when the user chose a free port
  (`CollatorPorts.FlagOnceIff`, `CollatorPorts.FreePortComesTwice`).
- Excluding flags in two passes, as a collator's command line is treated, is one pass with both sets exactly
  when the first pass brings no plain word next to a flag of the second (`Flags.TwoPassesAreOneIff`,
  `Flags.TwoPassesAreNotOne`).
- Names repeat exactly when a requested name is another one with a dash and a count already given out
  (`UniqueNames.NamesDifferIffNoClash`, `UniqueNames.SuffixAskedFor`).
- Rebuilding a dumped network lists companions among the relay nodes
  (`Registry.RebuildRestoresTheLists`, `Registry.CompanionBecomesRelay`), forgets the metrics prefix, and passes
  a node's user-defined types where its address belongs (`Registry.RevivedKeeps`).
- Version detection stops looking at a parachain's collators at the first one that has a version, so the final
  lookup can miss (`CliVersion.NothingMissingIff`, `CliVersion.PresetHidesUnset`). Keys join image and command
  with an underscore that either may contain, and one key has one kind of chain: a node gets what its own
  binary tells exactly when the first candidate of its key has its image, command and kind of chain
  (`CliVersion.KeysEqualIff`, `CliVersion.OwnAnswerIff`, `CliVersion.KeysCollide`). A collator that shares image
  and command with an unset relay node is judged by the relay rule (`CliVersion.CollatorJudgedAsRelay`).

What comes from outside (random numbers, clock readings, ports the operating system answers, derived
addresses, help texts, fetched texts, `parseInt`) is a parameter over which every statement quantifies.

## Model

| member | source | states |
|---|---|---|
| Sampling.Draw | javascript/packages/utils/src/misc.ts:149 | a draw is one of the live slots, for every answer of the random source |
| Sampling.GetRandom | javascript/packages/utils/src/misc.ts:144-154 | for every array, every number asked for and all random answers: up to the length of the array the lazily filled sparse array yields the very sample that eager swap-with-last Fisher-Yates draws; beyond it the last element drawn once more, then nothing |
| Sampling.TakenRepresentsSlots | javascript/packages/utils/src/misc.ts:146-151 | after every round a hole of the sparse array stands for its own index and a filled place for what was moved there, slot by slot of the eager permutation |
| Sampling.RoundDraws | javascript/packages/utils/src/misc.ts:148-152 | the element looked up through the sparse array in a round is the one the eager algorithm picks in that round |
| Sampling.Round | javascript/packages/utils/src/misc.ts:149-151 | one pass of the loop writes what the eager algorithm answers in that round and leaves the sparse array of the next, also once there are no slots left |
| Sampling.RoundResult | javascript/packages/utils/src/misc.ts:148-152 | with more rounds than elements the first one too many repeats the last element drawn and the others find none, whatever negative places they draw |
| Sampling.ResultsAreSample | javascript/packages/utils/src/misc.ts:146-153 | filled from the end, the answers of all rounds are the eager sample in order |
| Sampling.SampleConserves | javascript/packages/utils/src/misc.ts:144-154 | drawn and remaining elements together are the array, counted with multiplicity: nothing is drawn twice or made up |
| Sampling.SampleIsSelection | javascript/packages/utils/src/misc.ts:144-154 | from distinct elements every choice vector yields distinct elements of the array |
| Sampling.PicksAreInjective | javascript/packages/utils/src/misc.ts:144-154 | two different choice vectors never give the same ordered selection |
| Sampling.EverySelectionExactlyOnce | javascript/packages/utils/src/misc.ts:144-154 | every ordered selection without repetition comes from exactly one choice vector, so none is unreachable or counted twice |
| Sampling.DrawInterval | javascript/packages/utils/src/misc.ts:149 | slot x is drawn exactly for random answers in its own interval of width one over the number of live slots |
| Sampling.EveryChoiceIsDrawn | javascript/packages/utils/src/misc.ts:148-152 | for every choice vector there are random answers that make it happen |
| LineParser.ParseLine | javascript/packages/orchestrator/src/metrics/parseLine.ts:16-144 | the loop over characters answers what the twelve-state machine answers, errors included; every printed sample is read back and every sample read is well formed |
| LineParser.RoundTrip | javascript/packages/orchestrator/src/metrics/parseLine.ts:25-131 | printing any well-formed sample with any blanks in any place, and with a comma after the last label or not, gives exactly name, labels in order, value and timestamp back, unless blanks after a comma precede a named label or the closing brace: then it is an invalid line |
| LineParser.BareRoundTrip | javascript/packages/orchestrator/src/metrics/parseLine.ts:27-43 | a sample without labels reads back without braces too |
| LineParser.LegalSamplesRoundTrip | javascript/packages/orchestrator/src/metrics/parseLine.ts:16-144 | for all legal metric and label names and arbitrary label values the round trip holds exactly when no blanks stand between a comma and what follows it, another label or the closing brace |
| LineParser.BlankAfterCommaRefused | javascript/packages/orchestrator/src/metrics/parseLine.ts:53-70 | a concrete line of the format, two labels with a blank after the comma, that is an invalid line |
| LineParser.RunEscaped | javascript/packages/orchestrator/src/metrics/parseLine.ts:79-100 | an escaped label value of any characters is read back unchanged inside the quotes |
| LineParser.RunReaches | javascript/packages/orchestrator/src/metrics/parseLine.ts:25-131 | an invariant of every reachable state: which fields are filled, which characters they can hold, and that label names stay distinct |
| LineParser.AcceptedLinesNormalise | javascript/packages/orchestrator/src/metrics/parseLine.ts:16-144 | for every accepted line, printing what was read and reading that again gives the same sample |
| LineParser.RoundTripIff | javascript/packages/orchestrator/src/metrics/parseLine.ts:16-144 | the samples that survive print and parse are exactly the well-formed ones, the parser's possible results |
| LineLaws.TrailingComma | javascript/packages/orchestrator/src/metrics/parseLine.ts:53-62 | for every sample with labels: a comma directly before the closing brace, or a comma and a bare name there, is read as if it were not there; a comma and blanks there are an invalid line |
| LineLaws.BareNameDropped | javascript/packages/orchestrator/src/metrics/parseLine.ts:53-57 | a label name without a value before the closing brace gives no label |
| LineLaws.EscapesRead | javascript/packages/orchestrator/src/metrics/parseLine.ts:90-100 | anywhere in a label value a backslash with `n`, a quote or a backslash is read as the one character meant, with any other character as both |
| LineLaws.NameEndsAtBlank | javascript/packages/orchestrator/src/metrics/parseLine.ts:27-43 | a name ends at a space, a tab or an opening brace and at no other character |
| LineLaws.MissingEqualsRefused | javascript/packages/orchestrator/src/metrics/parseLine.ts:63-70 | after a label name and blanks anything but an equals sign is an invalid line |
| LineLaws.MissingQuoteRefused | javascript/packages/orchestrator/src/metrics/parseLine.ts:71-78 | after the equals sign and any blanks anything but a quote is an invalid line |
| LineLaws.MissingCommaRefused | javascript/packages/orchestrator/src/metrics/parseLine.ts:101-110 | after a label and any blanks anything but a comma or a closing brace is an invalid line |
| LineLaws.LastValueStays | javascript/packages/orchestrator/src/metrics/parseLine.ts:82-86 | of two values for one label the last one is read |
| LineLaws.TimestampsRunTogether | javascript/packages/orchestrator/src/metrics/parseLine.ts:124-129 | what follows the value is one timestamp, its blanks left out |
| LineLaws.UnfinishedIsRead | javascript/packages/orchestrator/src/metrics/parseLine.ts:25-143 | a line that ends within its labels is read, with the labels that were closed |
| MetricIndex.FileUnder | javascript/packages/orchestrator/src/metrics/index.ts:164-184 | a sample's value is stored under its key with all labels and its key without the chain label, in one table |
| MetricIndex.FileSample | javascript/packages/orchestrator/src/metrics/index.ts:150-184 | a sample goes into the table of its namespace under its stripped name and into the raw table under its full name |
| MetricIndex.OneLineReads | javascript/packages/orchestrator/src/metrics/index.ts:146-148 | a line that is empty or starts with a hash sign gives nothing, any other its sample, or the error of the whole text |
| MetricIndex.LinesReadInOrder | javascript/packages/orchestrator/src/metrics/index.ts:145-148 | two texts one after the other give the samples of both in order, and fail when either does |
| MetricIndex.ExtractMetrics | javascript/packages/orchestrator/src/metrics/index.ts:142-188 | fails exactly when a line that is neither empty nor a comment does not parse; otherwise every lookup in the tables equals a scan over the samples |
| MetricIndex.IndexAgrees | javascript/packages/orchestrator/src/metrics/index.ts:142-188 | the raw table comes first, namespaces follow in the order first seen, and each table holds for each key the last sample filed there |
| MetricIndex.LookupIsScan | javascript/packages/orchestrator/src/networkNode.ts:668-678 | a lookup answers the last sample with the full key, else the last match of the stripped key in the first-seen namespace that has one, else nothing |
| MetricIndex.NetworkNode.FetchMetrics | javascript/packages/orchestrator/src/metrics/index.ts:24-58 | a failed fetch and a text that does not parse leave an empty index, any other an index whose lookups are scans of the text |
| MetricIndex.NetworkNode.CleanMetricsCache | javascript/packages/orchestrator/src/networkNode.ts:640-642 | no metrics are available afterwards |
| MetricIndex.NetworkNode.GetMetric | javascript/packages/orchestrator/src/networkNode.ts:662-680 | without a cache an error; else the value of the first table that has the name; a missing name is an error exactly when it should exist |
| SeriesKeys.ExpositionReadsBack | javascript/packages/orchestrator/src/metrics/index.ts:145-147 | a text of printed samples with any label values, one a line, is read back as those samples |
| SeriesKeys.KeyParses | javascript/packages/orchestrator/src/metrics/index.ts:155-174 | an index key of label values that need no escape parses back to the name and the labels it was built from |
| SeriesKeys.KeysDiffer | javascript/packages/orchestrator/src/metrics/index.ts:155-184 | without double quotes in values, two keys are equal exactly when names and label lists are |
| SeriesKeys.KeyIsUniqueIff | javascript/packages/orchestrator/src/metrics/index.ts:155-184 | no other series the format allows has the key exactly when there are no labels, or one whose value does not read as if a differently named label followed |
| SeriesKeys.KeyNamesSeries | javascript/packages/orchestrator/src/metrics/index.ts:155-184 | without double quotes in values a key hits exactly the samples of that name and those labels, a chain label aside |
| SeriesKeys.LastRawIsLastOfSeries | javascript/packages/orchestrator/src/metrics/index.ts:164-184 | where a key hits the samples of its series and no others, the last sample filed under it is the last one of the series |
| SeriesKeys.SeriesIsFound | javascript/packages/orchestrator/src/metrics/index.ts:142-188 | from text to lookup: without double quotes in label values, asking for a series by its key answers the value of its last line, whatever other series the text holds |
| SeriesKeys.AlwaysFoundIff | javascript/packages/orchestrator/src/metrics/index.ts:142-188 | a series is answered with its own last value in every text the format allows exactly when its key has one reading |
| SeriesKeys.WrongAnswer | javascript/packages/orchestrator/src/metrics/index.ts:142-188 | for any two series that share a key, a text of two lines on which a node asked for the first answers the value of the second |
| SeriesKeys.KeysCollide | javascript/packages/orchestrator/src/metrics/index.ts:157-160 | two concrete label lists with the same key, and a text of both whose lookup answers the wrong one |
| StrippedKeys.NameSplits | javascript/packages/orchestrator/src/metrics/index.ts:150-153 | namespace and stripped name of a name are `ns` and `rest` exactly when it is `ns`, an underscore and `rest` with no underscore in `ns`, or has no underscore, is `ns` and `rest` is empty |
| StrippedKeys.StrippedHits | javascript/packages/orchestrator/src/metrics/index.ts:150-184 | without double quotes in values a key is filed in a namespace exactly for samples whose name is the namespace, an underscore and the key's name, with the key's labels, a chain label aside |
| StrippedKeys.ChainIsLeftOut | javascript/packages/orchestrator/src/metrics/index.ts:157-160 | exactly the labels called `chain` are left out, the others stay in order |
| StrippedKeys.LastInIsLastOfSeries | javascript/packages/orchestrator/src/metrics/index.ts:164-184 | in a text where only one namespace has the series, the last sample filed there under the stripped key is the last of the series |
| StrippedKeys.SeriesIsFoundStripped | javascript/packages/orchestrator/src/metrics/index.ts:142-188 | from text to lookup without the namespace: asking for `rest` and its labels answers the last value of the series `ns_rest`, or nothing where the text has no such series, when no other namespace has a series of that rest and none goes by it bare |
| StrippedKeys.BestBlockIsFound | javascript/packages/orchestrator/src/metrics/index.ts:17-22 | the tool's own query for the best block height is answered whatever the namespace and the chain of the node are |
| StrippedKeys.SeenInOrder | javascript/packages/orchestrator/src/metrics/index.ts:162 | namespaces come once each, those of earlier lines before those of later ones |
| StrippedKeys.EarlierNamespaceWins | javascript/packages/orchestrator/src/networkNode.ts:668-678 | where several namespaces have a series of the key that of the first line answers, with its last value in the whole text |
| Histogram.MatchesQuery | javascript/packages/orchestrator/src/metrics/index.ts:91-102 | a line matches exactly when it has the query's name and every label of the query with the same value |
| Histogram.TakeLine | javascript/packages/orchestrator/src/metrics/index.ts:91-109 | a matching line sets the bucket of its label to the difference from the last matching line, any other line changes nothing |
| Histogram.GetHistogramBuckets | javascript/packages/orchestrator/src/metrics/index.ts:77-113 | fails exactly when the query or a line does not parse; otherwise the buckets are the differences of the matching lines' counts, and with what repeated labels overwrote they add up to the last cumulative count |
| Histogram.GetSamplesCount | javascript/packages/orchestrator/src/networkNode.ts:682-693 | succeeds exactly when every chosen bucket is there, and then gives their sum |
| HistogramLaws.FirstMissingIsNamed | javascript/packages/orchestrator/src/networkNode.ts:682-693 | counting stops at the first bucket that is not there, and names it |
| Histogram.NothingIsLost | javascript/packages/orchestrator/src/metrics/index.ts:79-110 | for all cumulative counts, with any repetition of labels: sum of the buckets plus overwritten differences is the last count |
| Histogram.BucketsAreDifferences | javascript/packages/orchestrator/src/metrics/index.ts:104-107 | with distinct labels the buckets are the differences of neighbouring counts, in line order, and nothing is overwritten |
| Histogram.RunTelescopes | javascript/packages/orchestrator/src/networkNode.ts:682-693 | where repeated labels repeat their difference, counting any contiguous run of buckets gives the difference of the cumulative counts at its two ends |
| Histogram.AllTelescopeIff | javascript/packages/orchestrator/src/networkNode.ts:682-693 | every contiguous run telescopes exactly when lines with the same label differ from the line before them by the same amount |
| Histogram.BucketReads | javascript/packages/orchestrator/src/metrics/index.ts:104-107 | whatever labels repeat, a bucket holds the difference at the last line with its label |
| Histogram.AllBucketsCount | javascript/packages/orchestrator/src/networkNode.ts:682-693 | counting all buckets gives the last cumulative count |
| Histogram.NonNegativeIffMonotone | javascript/packages/orchestrator/src/metrics/index.ts:104-107 | no bucket is negative exactly when the counts start at zero or above and never decrease |
| Histogram.TwoSeriesMix | javascript/packages/orchestrator/src/metrics/index.ts:77-113 | a concrete text of two series and a query both answer: one bucket comes out negative and what the first series counted is lost |
| HistogramLaws.QueryName | javascript/packages/orchestrator/src/metrics/index.ts:82-84 | a query that holds `_bucket` anywhere is taken as it is, any other with that appended to its text |
| HistogramLaws.OtherNameDoesNotCount | javascript/packages/orchestrator/src/metrics/index.ts:91 | a line of another metric adds no count |
| HistogramLaws.MissingLabelDoesNotCount | javascript/packages/orchestrator/src/metrics/index.ts:94-102 | a line that lacks a label of the query, or has another value for it, adds no count |
| HistogramLaws.MatchingLineCounts | javascript/packages/orchestrator/src/metrics/index.ts:91-107 | a line of that metric with all labels of the query adds its value under its own `le`, wherever that stands, or under `undefined` without one |
| HistogramLaws.LinesCountInOrder | javascript/packages/orchestrator/src/metrics/index.ts:87-110 | the counts of two texts one after the other are those of the first followed by those of the second |
| HistogramLaws.OtherMetricsDoNotMatter | javascript/packages/orchestrator/src/metrics/index.ts:77-113 | deleting every line of other metrics from a text that is read leaves the buckets of a query as they are |
| Overlay.FindAndReplaceConfig | javascript/packages/orchestrator/src/chainSpec.ts:615-666 | in whatever order keys are visited, the update is laid over the configuration, or fails exactly when it must go into a scalar |
| Overlay.AppliesIff | javascript/packages/orchestrator/src/chainSpec.ts:615-666 | an update goes through exactly when at no path a non-empty object of it meets a scalar of the configuration |
| Overlay.ChainSpecFile.ChangeGenesisConfig | javascript/packages/orchestrator/src/chainSpec.ts:489-507 | the file is rewritten only when there is a genesis and the whole update went through |
| Overlay.OutsideIsKept | javascript/packages/orchestrator/src/chainSpec.ts:615-666 | every path that steps out of the update reads what it read before |
| Overlay.LeavesAreWritten | javascript/packages/orchestrator/src/chainSpec.ts:615-666 | every leaf of the update is read back at its path exactly when no array of the configuration lies on the way |
| Overlay.ObjectsAreLaid | javascript/packages/orchestrator/src/chainSpec.ts:621-652 | an object of the update leaves itself where nothing was and itself laid over what was there otherwise |
| Overlay.OthersStay | javascript/packages/orchestrator/src/chainSpec.ts:621-652 | an array, or a scalar under an empty object of the update, reads what it read before |
| Overlay.TwiceIsOnce | javascript/packages/orchestrator/src/chainSpec.ts:615-666 | applying an update again succeeds and changes nothing |
| Overlay.FittingUpdatesCompose | javascript/packages/orchestrator/src/chainSpec.ts:615-666 | one update after another equals the second laid over the first applied once, failures included, when the first fits the configuration |
| Overlay.ComposeIffFits | javascript/packages/orchestrator/src/chainSpec.ts:615-666 | that law holds for every second update exactly when the first loses no scalar at an array of the configuration |
| Overlay.MisfitShows | javascript/packages/orchestrator/src/chainSpec.ts:615-666 | for a first update that does not fit, a second one for which the two sides of the law differ |
| Genesis.ChainSpec.ClearAuthorities | javascript/packages/orchestrator/src/chainSpec.ts:61-100 | all authority lists present are emptied, staking too unless it is a parachain's, and the bond of the first staker found there is remembered, else the remembered one stays |
| Genesis.ChainSpec.AddBalances | javascript/packages/orchestrator/src/chainSpec.ts:102-156 | each node with a balance has its stash set to its balance or twice the bond, over the earlier entries with later duplicates winning |
| Genesis.ChainSpec.AddAuthority | javascript/packages/orchestrator/src/chainSpec.ts:195-227 | the key is appended to the session keys if there are any |
| Genesis.ChainSpec.AddStaking | javascript/packages/orchestrator/src/chainSpec.ts:230-267 | the node's stash is appended as a validator with the bond or the default one, counted, and made invulnerable if asked |
| Genesis.ChainSpec.AddAuraAuthority | javascript/packages/orchestrator/src/chainSpec.ts:301-333 | the account is appended to the aura authorities if there are any |
| Genesis.ChainSpec.AddGrandpaAuthority | javascript/packages/orchestrator/src/chainSpec.ts:335-363 | the account with weight one is appended to the grandpa authorities if there are any |
| Genesis.NominationCount | javascript/packages/orchestrator/src/chainSpec.ts:377-402 | a nominator asks for at least one and at most as many validators as there are, fewer than the maximum unless for one |
| Genesis.ChainSpec.MakeNominator | javascript/packages/orchestrator/src/chainSpec.ts:400-411 | one nominator with the bond, backing the sample of validators its random answers draw |
| Genesis.ChainSpec.GenerateNominators | javascript/packages/orchestrator/src/chainSpec.ts:365-429 | all nominators are added, each backing a sample of the validators, or none: a missing bond, missing balances, no validators or a maximum of zero is an error that leaves the file as it was |
| Genesis.ChainSpec.CustomizePlainRelayChain | javascript/packages/orchestrator/src/chainSpec.ts:739-806 | the whole pipeline with the carried bond, from the file it is given: the kind of keys is told before the overrides, and on an error the file is as the last finished step left it |
| GenesisLaws.FinishesIff | javascript/packages/orchestrator/src/chainSpec.ts:365-429 | the pipeline stops early exactly when nominators are asked for but bond, balances, validators or a positive maximum is missing |
| GenesisLaws.ValidatorsClosed | javascript/packages/orchestrator/src/chainSpec.ts:761-785 | the loop over nodes in closed form: every list grows by one entry a validator, in node order |
| GenesisLaws.AuthoritiesAreConsistent | javascript/packages/orchestrator/src/chainSpec.ts:739-794 | one session key a validator node in order; the validator count is that of validator nodes and of stakers tagged so; invulnerables are the invulnerable validators' stashes; stakers are the validators and the requested nominators |
| GenesisLaws.AuraAuthorities | javascript/packages/orchestrator/src/chainSpec.ts:778-781 | without session keys each of aura and grandpa that is there lists one authority a validator node in order, whatever the specification listed before |
| GenesisOutcome.SessionKeysWritten | javascript/packages/orchestrator/src/chainSpec.ts:745-777 | a file that has session keys, or a pallet that stands for them, before the overrides ends with one session key a validator node in order, and with aura and grandpa emptied |
| GenesisOutcome.AuraAndGrandpaWritten | javascript/packages/orchestrator/src/chainSpec.ts:745-781 | a file with none of these ends with one aura and one grandpa authority a validator node in order, each if the section is there, and with no session key |
| GenesisOutcome.KeysWithoutOverrides | javascript/packages/orchestrator/src/chainSpec.ts:745-781 | without overrides the section the file has is the section that is written, and none is added |
| GenesisOutcome.OverridesComeFirst | javascript/packages/orchestrator/src/chainSpec.ts:750-753 | overrides that go through give what the overridden file would have given when it has the same kind of keys; overrides that fail stop the run |
| GenesisOutcome.ValidatorsInOrder | javascript/packages/orchestrator/src/chainSpec.ts:761-765 | the validators are the nodes marked so, in the order of the nodes |
| GenesisOutcome.CollatorsAreCleared | javascript/packages/orchestrator/src/chainSpec.ts:73-75 | invulnerables of the collator selection are gone |
| GenesisOutcome.StakersAre | javascript/packages/orchestrator/src/chainSpec.ts:237-248 | every validator node stakes from its stash with the first staker's bond of the file, else the one carried over, else ten to the twelfth where that is missing or zero; every nominator with the bond itself |
| GenesisOutcome.ParachainStakingIsKept | javascript/packages/orchestrator/src/chainSpec.ts:77-87 | with a parachain's staking the validators join its stakers and its count, and the carried bond is used |
| GenesisLaws.OthersKeepTheirBalance | javascript/packages/orchestrator/src/chainSpec.ts:115-147 | an account that is no funded node's stash and no nominator reads the balance it had |
| GenesisOutcome.LastEntryCounts | javascript/packages/orchestrator/src/chainSpec.ts:115-125 | of several entries of an account the last is the one that is read |
| GenesisOutcome.NodeOwns | javascript/packages/orchestrator/src/chainSpec.ts:127-139 | a funded node ends with its own balance where there is no bond or it validates and owns more, else with twice the bond; the last node of a stash counts |
| GenesisOutcome.NominatorsOwn | javascript/packages/orchestrator/src/chainSpec.ts:394-399 | the balances end with one entry a nominator in order, one unit above the bond |
| GenesisLaws.SolventIffValidatorsOwn | javascript/packages/orchestrator/src/chainSpec.ts:739-794 | with any bond found, carried over or defaulted, every staker owns more than its bond exactly when every validator's stash does after the grants or is a nominator's account that does |
| GenesisLaws.SolventIffFunded | javascript/packages/orchestrator/src/chainSpec.ts:739-794 | with a positive bond the result is solvent exactly when each validator's stash is funded by some node, owned more than the bond before, or is a nominator's account |
| GenesisLaws.FundedValidatorsAreSolvent | javascript/packages/orchestrator/src/chainSpec.ts:739-794 | with a positive bond and a balance for every validator node, every staker, validator or nominator, has a balance strictly above its bond |
| GenesisLaws.NoAccountTwiceIff | javascript/packages/orchestrator/src/chainSpec.ts:394-399 | no account is listed twice in the balances exactly when the nominators are pairwise distinct and own nothing before |
| GenesisLaws.OwningNominatorIsListedTwice | javascript/packages/orchestrator/src/chainSpec.ts:394-399 | a concrete network whose one nominator owns a balance in the specification and ends up listed twice |
| GenesisLaws.NominationsAreWellFormed | javascript/packages/orchestrator/src/chainSpec.ts:393-412 | each nominator backs between one and max(1, min(maximum, validators) - 1) pairwise distinct validators of this genesis |
| GenesisOutcome.NominationsCounted | javascript/packages/orchestrator/src/chainSpec.ts:393-402 | a nominator backs as many validators as its random number modulo the smaller of maximum and validators, or one for none |
| GenesisOutcome.NominationsDrawn | javascript/packages/orchestrator/src/chainSpec.ts:400-411 | each nominator backs the validators its own random answers draw, one after the other among those not drawn before |
| GenesisOutcome.WhichError | javascript/packages/orchestrator/src/chainSpec.ts:365-429 | nominators without a bond or balances stop with one error, nominators without validators or a maximum with the other |
| Series.RunsKeepInv | javascript/packages/utils/src/promiseSeries.ts:10-41 | over every order in which promises settle, results are the values of the finished batches, the running batch is one full batch, and outcome, list and log agree |
| Series.RunsAreOrderly | javascript/packages/utils/src/promiseSeries.ts:10-41 | at every moment of every run at most `concurrency` promises are in flight, generators are called in list order and each call and settlement was allowed when it happened |
| Series.NeverMoreInFlight | javascript/packages/utils/src/promiseSeries.ts:16-32 | no orderly log ever has more than `concurrency` promises in flight |
| Series.StartsInListOrder | javascript/packages/utils/src/promiseSeries.ts:20-22 | the i-th generator called is the i-th of the list, each at most once |
| Series.NoStartAfterFailure | javascript/packages/utils/src/promiseSeries.ts:34 | no generator is called after a promise was rejected |
| Series.BatchesAreBarriers | javascript/packages/utils/src/promiseSeries.ts:34 | a generator is called only after every promise of the earlier batches was fulfilled |
| Series.ResolvedMeansAllValues | javascript/packages/utils/src/promiseSeries.ts:13-36 | on success there is one result an entry, result i is the one value promise i gave, and nothing failed |
| Series.RejectionHasCause | javascript/packages/utils/src/promiseSeries.ts:21-34 | a run is rejected exactly when a promise was rejected or the last entry taken threw or was no function |
| Series.SettledWhenQuiet | javascript/packages/utils/src/promiseSeries.ts:34-36 | when nothing is in flight and no batch is left to hand over, the series has settled |
| Series.RunsEnd | javascript/packages/utils/src/promiseSeries.ts:10-41 | every run has at most two events an entry and one more |
| Series.NoConcurrencyNeverSettles | javascript/packages/utils/src/promiseSeries.ts:15-34 | with a concurrency below one and a non-empty list only empty batches follow each other and the state never changes |
| Scheduler.BatchScheduler.constructor | javascript/packages/utils/src/promiseSeries.ts:1-10 | the caller's array is copied and left alone, and the first batch is started |
| Scheduler.BatchScheduler.TakeOne | javascript/packages/utils/src/promiseSeries.ts:20-31 | one entry leaves the list: it joins the batch, or the series is rejected |
| Scheduler.BatchScheduler.Next | javascript/packages/utils/src/promiseSeries.ts:11-38 | the finished batch's values join the results, then the next batch is started or the series resolves |
| Scheduler.BatchScheduler.Fulfil | javascript/packages/utils/src/promiseSeries.ts:34 | a promise fulfils: the object takes the step of the system and keeps its invariant |
| Scheduler.BatchScheduler.Fail | javascript/packages/utils/src/promiseSeries.ts:34 | a promise rejects: the first rejection rejects the series, a later one changes no outcome |
| Scheduler.BatchScheduler.BatchDone | javascript/packages/utils/src/promiseSeries.ts:34 | once all promises of the batch are fulfilled their values are handed over in batch order and the invariant is kept |
| Scheduler.BatchScheduler.Collected | javascript/packages/utils/src/promiseSeries.ts:34 | what `Promise.all` resolves with: the values of the batch in list order |
| PortLease.PortTable.Open | javascript/packages/utils/src/net.ts:43-48 | a call with defaults for options left out or zero waits for a port, or is over at once without retries |
| PortLease.PortTable.Resume | javascript/packages/utils/src/net.ts:46-62 | from one answer to the next wait: the port is leased and granted, or another try is made, or the call gives up |
| PortLease.PortTable.GetRandomPort | javascript/packages/utils/src/net.ts:25-63 | an uninterrupted call succeeds exactly when one of its allowed answers is free, leases the first such one, and otherwise leaves the table alone |
| PortLease.RunsKeepInv | javascript/packages/utils/src/net.ts:10-63 | over every interleaving the table holds the latest lease end of each port ever granted, and each call's state follows from its probes |
| PortLease.LeasesDoNotOverlap | javascript/packages/utils/src/net.ts:46-53 | a port granted again, however much later, was granted after the earlier lease had run out |
| PortLease.RefusedIffLeased | javascript/packages/utils/src/net.ts:51-57 | a port is refused exactly when an earlier lease of it, by any call, is still running |
| PortLease.CallsAreBounded | javascript/packages/utils/src/net.ts:46-62 | a call looks at most at `maxRetries` ports and gives up only after exactly that many, all leased; a granted call has exactly one granted probe, its last, and all before were refused for a running lease |
| PortLease.CallsGoByOptions | javascript/packages/utils/src/net.ts:43-52 | every call goes by its own options, ten tries and ten minutes of lease where they are left out or zero, in every interleaving |
| PortLease.LeaseLastsAsAsked | javascript/packages/utils/src/net.ts:43-53 | a port granted to a call is granted again only after the time that call asked for, or ten minutes |
| Cleaner.AddMinutes | javascript/packages/utils/src/misc.ts:36-42 | hour and minute are in range for every base time, before the epoch too |
| Cleaner.KubeClient.UpsertCronJob | javascript/packages/orchestrator/src/providers/k8s/kubeClient.ts:660-681 | an active refresh sets the namespace's schedule one minute after the pod monitor's, which is set only where there is one; an inactive one changes nothing |
| Cleaner.KubeClient.SetupCleaner | javascript/packages/orchestrator/src/providers/k8s/kubeClient.ts:637-649 | after setting up, the pod monitor's job next fires in the tenth minute from now and the namespace's exactly one minute later |
| Cleaner.NextFireIsFirst | javascript/packages/orchestrator/src/providers/k8s/kubeClient.ts:666 | the computed next firing of a daily schedule is the first one, within a day |
| Cleaner.NextFireAfterRefresh | javascript/packages/orchestrator/src/providers/k8s/kubeClient.ts:663-678 | a schedule n minutes ahead next fires more than n - 1 and at most n minutes from now, across midnight too |
| Cleaner.GapIsSafeIff | javascript/packages/orchestrator/src/providers/k8s/kubeClient.ts:644-647 | a pause after a refresh is safe at every time of day exactly when it is at most one minute short of the delay |
| Cleaner.NothingDeletedWhileKeptAlive | javascript/packages/orchestrator/src/providers/k8s/kubeClient.ts:637-681 | over any run of refreshes each in force within nine minutes of the clock reading before it, nothing is deleted |
| Cleaner.BothDeletedAfterTheLast | javascript/packages/orchestrator/src/providers/k8s/kubeClient.ts:637-681 | after the last refresh both deletions fire within eleven minutes, the pod monitor's first and the namespace's exactly one minute later |
| Cleaner.TimerKeepsAlive | javascript/packages/orchestrator/src/providers/k8s/kubeClient.ts:644-647 | the eight-minute timer meets that condition when lateness and latency together stay within a minute |
| Flags.ExcludedFlag | javascript/packages/orchestrator/src/cmdGenerator.ts:27-36 | an excluded flag always starts with two dashes, given or added |
| Flags.ParseExclusionFlags | javascript/packages/orchestrator/src/cmdGenerator.ts:19-43 | the exclusions are exactly the flags of exclusion tokens, each once; the other arguments stay in order |
| Flags.ExclusionNames | javascript/packages/orchestrator/src/cmdGenerator.ts:27-36 | an exclusion token is a dash, a colon and a flag, whose two dashes are added when left out |
| Flags.FilterExcludedFlags | javascript/packages/orchestrator/src/cmdGenerator.ts:51-90 | the tokens left are, in order, exactly those that survive by themselves and the token before them |
| Flags.SurvivorsAreExact | javascript/packages/orchestrator/src/cmdGenerator.ts:51-90 | the pass with its carried skip flag equals a selection by a condition on two neighbouring tokens |
| Flags.FlagsSurviveIffNotExcluded | javascript/packages/orchestrator/src/cmdGenerator.ts:60-87 | a token starting with a dash survives exactly when it is no excluded flag and starts with none followed by an equals sign; another one exactly when the token before it is no excluded flag without an equals sign |
| Flags.NoExcludedLeft | javascript/packages/orchestrator/src/cmdGenerator.ts:51-90 | no excluded token is left |
| Flags.FilterIsIdempotent | javascript/packages/orchestrator/src/cmdGenerator.ts:51-90 | filtering again changes nothing |
| Flags.FlagOrderIsIrrelevant | javascript/packages/orchestrator/src/cmdGenerator.ts:68-82 | the order of the set of exclusions does not matter |
| Flags.TwoPassesAreOneIff | javascript/packages/orchestrator/src/cmdGenerator.ts:229-285 | filtering with one set of flags and then with another equals filtering once with both exactly when the first pass does not remove everything between a valueless flag of the second and a plain word |
| Flags.TwoPassesAreNotOne | javascript/packages/orchestrator/src/cmdGenerator.ts:229-285 | a concrete input on which filtering with one set and then another drops more than filtering with both at once |
| Sanitize.BeforeSeparator | javascript/packages/orchestrator/src/configGenerator.ts:845-847 | the part before the first separator holds none |
| Sanitize.SeparatorIndex | javascript/packages/orchestrator/src/configGenerator.ts:845 | the loop finds the first separator, or the end |
| Sanitize.SanitizeArgs | javascript/packages/orchestrator/src/configGenerator.ts:834-880 | everything from the first separator on stays; before it exactly the tokens stay that are neither removable nor the value of a two-part argument |
| Sanitize.StayingIsExact | javascript/packages/orchestrator/src/configGenerator.ts:848-872 | the pass with its carried flag equals a selection by position |
| Sanitize.NoRemovableLeft | javascript/packages/orchestrator/src/configGenerator.ts:848-872 | nothing removable is left |
| Sanitize.SanitizeIsIdempotent | javascript/packages/orchestrator/src/configGenerator.ts:834-880 | sanitizing again with the same tables and context changes nothing, separator and tail included |
| Sanitize.OnlyTheOwnAccountIsListed | javascript/packages/orchestrator/src/configGenerator.ts:855-868 | a listed argument that is left before the separator is the development account a validator is named after |
| Sanitize.DashesDoNotMatter | javascript/packages/orchestrator/src/configGenerator.ts:854 | with or without leading dashes an argument is looked up under the same name, and `-d` as `d` |
| Sanitize.PairsGo | javascript/packages/orchestrator/src/configGenerator.ts:854 | pairs of dashes are taken out from the left, wherever they stand, and everything else stays |
| SanitizeTables.WhatIsListed | javascript/packages/orchestrator/src/constants.ts:96-113 | the names listed are those sixteen, except where the caller's table says otherwise |
| SanitizeTables.WhoseValueGoes | javascript/packages/orchestrator/src/configGenerator.ts:867 | an argument takes its value with it exactly when it goes itself and the caller's table says two, or is silent and it is one of the seven that come with a value |
| SanitizeTables.FlagAndValueDropped | javascript/packages/orchestrator/src/configGenerator.ts:848-872 | each of the seven flags that come with a value, `-d` among them, goes together with its value and what follows is treated as if they were not there |
| SanitizeTables.AccountDroppedUnlessOwn | javascript/packages/orchestrator/src/configGenerator.ts:855-868 | the flag of each of the eight development accounts goes, except for a validator of that name |
| SanitizeTables.PrometheusDropped | javascript/packages/orchestrator/src/configGenerator.ts:848-872 | `--prometheus-external` goes alone, whoever is concerned |
| SanitizeTables.OthersStay | javascript/packages/orchestrator/src/configGenerator.ts:869-871 | every argument of another name stays |
| CollatorPorts.ReplaceTaken | javascript/packages/orchestrator/src/cmdGenerator.ts:243-268 | exactly the values of port flags that the parachain part uses are replaced, by the next ports in turn, and exactly those flags count as dealt with |
| CollatorPorts.AddMissing | javascript/packages/orchestrator/src/cmdGenerator.ts:270-278 | every flag not dealt with is appended, in order, each with the next port |
| CollatorPorts.ResolvePorts | javascript/packages/orchestrator/src/cmdGenerator.ts:241-280 | the user's occurrences of a port flag stay, and one more comes in exactly when none of them conflicted |
| CollatorPorts.FlagOnceIff | javascript/packages/orchestrator/src/cmdGenerator.ts:241-280 | a port flag is on the command line exactly once if and only if the user left it out, or gave it once with a port in use |
| CollatorPorts.CollatorWorldIsSane | javascript/packages/orchestrator/src/cmdGenerator.ts:187-192 | with the default ports and those of the parachain part, reading numerals as `parseInt` does, none of the three port flags reads as a number and every port printed reads back |
| CollatorPorts.FreePortComesTwice | javascript/packages/orchestrator/src/cmdGenerator.ts:241-280 | a user's `--port` with any port that is neither a default one nor the parachain part's is on the command line twice |
| CollatorPorts.TakenPortReplaced | javascript/packages/orchestrator/src/cmdGenerator.ts:245-268 | a user's `--port` with a default port, or one of the parachain part, gets the first fresh port |
| CollatorPorts.AllFlagsAdded | javascript/packages/orchestrator/src/cmdGenerator.ts:272-280 | without arguments exactly the three port flags come in, in order, with the first three ports |
| Text.ParseIntReadsBack | javascript/packages/orchestrator/src/cmdGenerator.ts:249 | a port printed in decimal is read back by `parseInt` |
| CollatorPorts.NoTakenPortLeft | javascript/packages/orchestrator/src/cmdGenerator.ts:241-280 | no port flag is left with a port of the parachain part |
| UniqueNames.SanitizeName | javascript/packages/orchestrator/src/configGenerator.ts:565-570 | blanks become dashes, every other character stays |
| UniqueNames.NameTable.GetUniqueName | javascript/packages/orchestrator/src/configGenerator.ts:572-600 | the k-th repetition of a name gets the suffix k, and both counter tables keep counting the requests |
| UniqueNames.NameTable.CanUseSanitizedNameAsSeed | javascript/packages/orchestrator/src/configGenerator.ts:602-610 | allowed exactly while the parachain asked for the name at most once, and always for no parachain |
| UniqueNames.SuffixedIsInjective | javascript/packages/orchestrator/src/configGenerator.ts:582 | name and count can be read off a suffixed name, for all names and counts |
| UniqueNames.RepeatIsClash | javascript/packages/orchestrator/src/configGenerator.ts:572-600 | two requests that get one name come from a requested name that is another one with a count given out |
| UniqueNames.ClashIsRepeat | javascript/packages/orchestrator/src/configGenerator.ts:572-600 | such a request does repeat a name, in whatever order they come |
| UniqueNames.NamesDifferIffNoClash | javascript/packages/orchestrator/src/configGenerator.ts:572-600 | over any run all names differ exactly when no requested name is another with a dash and a count below its number of requests |
| UniqueNames.SuffixAskedFor | javascript/packages/orchestrator/src/configGenerator.ts:572-600 | a concrete run: asked for `a` twice and then for `a-1`, the table gives `a-1` twice |
| UniqueNames.PlainNamesDiffer | javascript/packages/orchestrator/src/configGenerator.ts:572-600 | when no requested name has that form relative to another all names differ |
| Registry.Network.AddPara | javascript/packages/orchestrator/src/network.ts:120-134 | a parachain is registered once; a second registration changes nothing |
| Registry.Network.AddNode | javascript/packages/orchestrator/src/network.ts:136-154 | the node enters the list of its scope, the table by name and its group; a collator of an unknown parachain is refused and nothing changes |
| Registry.Network.GetNodes | javascript/packages/orchestrator/src/network.ts:263-274 | a name is looked up before a group of the same name, and a missing one is an error |
| Registry.RunAgrees | javascript/packages/orchestrator/src/network.ts:120-154 | after any run with unique names every index is the matching selection, in order, of the nodes added |
| Registry.RunIsRefusedIff | javascript/packages/orchestrator/src/network.ts:120-154 | a run is refused exactly when a collator comes without a parachain number or before its parachain was added; the parachains known are those added |
| Registry.EveryNodeIsInItsListOnly | javascript/packages/orchestrator/src/network.ts:136-154 | every node is in exactly the list of its scope and parachain, in its group, and found by its name |
| Registry.LookupFinds | javascript/packages/orchestrator/src/network.ts:263-274 | after any such run a lookup gives the node of that name, else the members of that group, else an error |
| Registry.RebuildNetwork | javascript/packages/orchestrator/src/network.ts:34-80 | every dumped node is put back and none is refused |
| Registry.RebuiltAgrees | javascript/packages/orchestrator/src/network.ts:57-74 | the rebuilt indices agree with the dumped nodes, and exactly the parachains that have nodes come back |
| Registry.RebuiltRelay | javascript/packages/orchestrator/src/network.ts:57-74 | all dumped nodes without a parachain end up on the relay list |
| Registry.RebuildRestoresTheLists | javascript/packages/orchestrator/src/network.ts:34-154 | dump and rebuild after any run gives the same parachain lists and groups; the relay list comes back exactly when there is no companion |
| Registry.CompanionBecomesRelay | javascript/packages/orchestrator/src/network.ts:57-74 | a concrete network: one companion comes back on the relay list as well |
| Registry.RevivedKeeps | javascript/packages/orchestrator/src/network.ts:59-72 | a rebuilt node keeps name, addresses to connect to, parachain and group; its address is what its types were, its types are gone and its prefix is the default, so it is the same node exactly if it had neither address nor types and that prefix |
| Registry.NothingForgottenIff | javascript/packages/orchestrator/src/network.ts:148 | the table by name lists every added node exactly when all names differ |
| CliVersion.Visible | javascript/packages/orchestrator/src/substrateCliArgsHelper.ts:48-49 | the collators looked at are those before the first one of their parachain with a version |
| CliVersion.ComputedNetwork.CollectKeys | javascript/packages/orchestrator/src/substrateCliArgsHelper.ts:34-59 | the table holds each image and command of unset relay nodes and visible collators once, in order |
| CliVersion.ComputedNetwork.Probe | javascript/packages/orchestrator/src/substrateCliArgsHelper.ts:61-73 | every entry is asked, in order, up to the first that fails |
| CliVersion.ComputedNetwork.SetNodes | javascript/packages/orchestrator/src/substrateCliArgsHelper.ts:77-81 | unset nodes get the version of their key and the others stay; at the first missing key it stops with the versions before it set |
| CliVersion.ComputedNetwork.SetParas | javascript/packages/orchestrator/src/substrateCliArgsHelper.ts:83-89 | the same over all parachains, ending in the first one with a missing key |
| CliVersion.ComputedNetwork.SetVersions | javascript/packages/orchestrator/src/substrateCliArgsHelper.ts:10-90 | nothing is asked when nothing is needed; a failed probe changes no node; otherwise it succeeds exactly when no parachain's key is missing, and then sets every version |
| CliVersion.RegisteredIff | javascript/packages/orchestrator/src/substrateCliArgsHelper.ts:34-59 | a key is registered exactly when an unset relay node or a visible collator has it |
| CliVersion.EachAskedOnce | javascript/packages/orchestrator/src/substrateCliArgsHelper.ts:37-71 | no image and command is asked twice |
| CliVersion.RegisteredIsFirst | javascript/packages/orchestrator/src/substrateCliArgsHelper.ts:34-59 | a key stands for the first node that has it, relay nodes before collators |
| CliVersion.VersionComesFromTheFirst | javascript/packages/orchestrator/src/substrateCliArgsHelper.ts:61-90 | a version that is set and not zero never changes; an unset node gets what the first node of its key is told, so unset nodes of one key agree |
| CliVersion.VersionTable | javascript/packages/orchestrator/src/substrateCliArgsHelper.ts:92-124 | the table of versions for every help text: zero exactly with the websocket port; else for relay nodes two exactly with the insecure validator flag and one without; else for collators three exactly with the export of the genesis head and two without |
| CliVersion.RelayNodeGets | javascript/packages/orchestrator/src/substrateCliArgsHelper.ts:61-110 | an unset relay node ends with zero, one or two by what the help text of the first node of its key shows |
| CliVersion.CollatorGets | javascript/packages/orchestrator/src/substrateCliArgsHelper.ts:61-118 | an unset collator whose key no unset relay node has ends with zero, two or three by what the help text of the first node of its key shows |
| CliVersion.NothingMissingIff | javascript/packages/orchestrator/src/substrateCliArgsHelper.ts:47-89 | no lookup misses exactly when every unset collator behind a preset one shares its key with an unset relay node or a visible collator |
| CliVersion.PresetHidesUnset | javascript/packages/orchestrator/src/substrateCliArgsHelper.ts:47-89 | a concrete network: an unset collator of its own key behind a preset one has no key in the table |
| CliVersion.KeysEqualIff | javascript/packages/orchestrator/src/substrateCliArgsHelper.ts:37 | two nodes share a key exactly when image and command agree, or an underscore within one image ends the other and the rest of that image begins the other command |
| CliVersion.KeysDiffer | javascript/packages/orchestrator/src/substrateCliArgsHelper.ts:37 | so among commands without an underscore a key tells image and command apart |
| CliVersion.OwnAnswerIff | javascript/packages/orchestrator/src/substrateCliArgsHelper.ts:35-90 | an unset node gets, for all help texts, what its own binary tells by its own rule exactly when the first candidate of its key has its image, command and kind of chain |
| CliVersion.CollatorJudgedAsRelay | javascript/packages/orchestrator/src/substrateCliArgsHelper.ts:35-90 | a collator that shares its key with an unset relay node is judged by the relay rule and so never gets its own answer for all help texts |
| CliVersion.KeysCollide | javascript/packages/orchestrator/src/substrateCliArgsHelper.ts:37-43 | two concrete images and commands with one key: the first gets its own answer, the second always the first one's |

## Left out

- Sampling.DrawInterval: random answers are real numbers in [0, 1), so the rounding of double precision products is not modelled.
- LineParser.ParseLine: characters are Unicode scalar values where JavaScript walks UTF-16 units; all special characters are one unit in both.
- MetricIndex.LookupIsScan: keys are visited in insertion order; JavaScript visits integer-like namespaces first and finds prototype names such as `constructor` in every object.
- Histogram.GetHistogramBuckets: counts are integers; `parseInt` answers that are no number are not modelled, nor is the order in which JavaScript lists integer-like `le` keys.
- Overlay.FindAndReplaceConfig: trees are values, so key order and objects shared between update and configuration are not modelled, nor properties named like array indices, `length` or prototype members, nor updates holding big integers.
- Genesis.ChainSpec.CustomizePlainRelayChain: the error that the code logs and swallows is its result; where the runtime configuration lies in the file, HRMP channels and log tables are not modelled.
- Genesis.ChainSpec.AddAuthority: the key comes from a parameter that stands for the per-chain decorators.
- Scheduler.BatchScheduler.BatchDone: promises are their settlements; the microtask queue is not modelled beyond any order of events.
- PortLease.PortTable.Resume: whether the operating system's port is really free for others, and processes other than this one, are outside.
- Cleaner.NothingDeletedWhileKeptAlive: the cron controller is taken to fire at the start of the scheduled minute in UTC, and a replaced schedule to take effect at one moment; refreshes that find the namespace inactive or whose command fails are not steps of a run.
- CollatorPorts.ResolvePorts: only the branch with arguments after the separator; without them the same flags are appended to an empty list. `parseInt` is a parameter that reads numerals back and reads no number from a flag; `Text.ParseInt` is one, up to blanks outside ASCII.
- Flags.FilterExcludedFlags: the command lines that are filtered are arbitrary; how each node kind assembles its own is not modelled.
- Registry.Network.AddPara: WASM and state paths; a dump carries no chain specification path, so a rebuilt parachain has none.
- Registry.RebuildRestoresTheLists: names that look like integers, which JavaScript would list first in the dump.
- CliVersion.ComputedNetwork.Probe: help texts are asked for four at a time; after a failure a few later entries may have been asked too. The version for scopes other than relay chain and parachain is never used here.
- Sanitize.SanitizeArgs: argument names equal to JavaScript prototype members, which every object appears to list.
- HTTP fetching, timers, kubectl, podman and native processes, files and JSON text: only their answers appear, as parameters.
- polkadot.js and libp2p, key derivation, keystores and chain upgrades: addresses are opaque strings.
- The DSL parser, whose grammar is not part of this model, and the per-chain decorators: field copying only.
- The generated spawn orchestration, CLI, tables, mocha reporter, setup downloads and cleanup scripts: user interface and input/output.
