# A verified model of the protocol gateway

The gateway polls field devices (inverters, batteries, meters), decodes their registers and forwards
the values. This project models the parts of it that keep state over time or transform data, and
proves what they promise:

- **Polling** (`ScrapeGroups`, `Scheduling`, `SchedulingRuns`, `SchedulingSafety`,
  `SchedulingTheorems`, `TickTheorems`, `ServiceRounds`, `Gateway`). Scrape groups, the sequential, concurrent and interleaved modes, the
  table of active cycles and the table of concurrent futures are one step system over ticks, worker
  progress, time-outs, cancellations and reconnects. `Gateway` holds the classes whose methods are
  proved to take exactly these steps in place; the theorems are about every run: what never happens, and what every
  tick owes the groups that are ready.
- **Reload** (`Reload`). The manager that stops, builds and falls back.
- **Registers** (`Bytes`, `Texts`, `RegisterMap`, `Decoding`, `DecodedRanges`, `TextFields`, `FieldLaws`, `Batching`,
  `BatchingTheorems`, `PollSchedule`, `Concatenation`, `OutputValues`). The batcher and its schedule, the two decoders, the four word orders, and the joining of
  concatenated ranges. The wire convention is section 4.2 (Data Encoding) of the MODBUS Application
  Protocol Specification V1.1b3; the order of words across registers is the gateway's own.
- **Discovery** (`SunSpecChain`, `SunSpecAnchors`, `SunSpecDiscovery`, `ChainLaws`, `SubBlocks`, `Decimals`, `DynamicMaps`,
  `DynamicMapsTheorems`, `MapContents`, `CodeTables`, `CodeTablesExact`, `StaleDescriptions`, `DiscoveredMaps`). The SunSpec
  model chain and its printer, the anchors built from it and their names, the register maps rebuilt from anchors with
  the code tables they collect, and the way from a device to its map.
- **Transport defaults** (`Inheritance`, `DefaultsSync`, `SyncResults`). `$extends` inheritance with `--key` removals,
  and the merge of scanned keys.
- **Serial frames** (`Framing`, `FramingTheorems`). The incremental reader between start and end markers.
- **EG4 identification** (`Eg4Cache`, `Eg4Results`). The cache with its back-off and reconnect refresh.

`Options` and `Numbers` hold what they share.

Code that updates things step by step is modelled by classes and loops, each proved equal to a function on
values; the theorems are about these functions. Clocks, device answers, the file system and worker
progress are parameters or events.

## Where the code differs from what it says of itself

- The guard against overlapping cycles compares sets of due members, and its comments reason with time. The
  proof shows more: exclusivity holds for any clock readings, because the due sets of one group at any
  two times share a member (`DueSetsOverlap`).
- A reload that skips an unchanged file reports success, and so does one that is disabled. After an edit that did
  not build (and no usable backup) or a stop that timed out, the old gateway is gone or told to stop; undoing
  the edit is then "unchanged", reports success, and serves nothing (`UndoneEditStaysOffline`), and a reload
  after the setting was switched off does the same (`DisabledReloadStaysOffline`). `ReloadIsHonest` gives the
  exact condition. The manager keeps no record of its last real attempt, but whoever watches its statuses
  can tell: it is the last one that is about neither a disabled nor a skipped reload (`LastTryIsShown`). A gateway
  whose thread had not entered its loop when it was released starts polling afterwards (`ReleasedForGood`), and
  never stops (`EarlyReleasePollsOn`).
- The batcher is documented to cover all addresses of an explicit list. On its own an entry gets none below
  its first one (`DescendingListIsMissed`, `ReversedPairIsMissed`); `WellPlacedIsExact` says which entries are
  covered on their own, `EnclosedIsExact` which are among others.
- The bytes decoder returns a huge positive number for a negative bit field (`NegativeFieldIsHuge`), the high
  byte for a byte (`HighByteIsTaken`), and raises for a bit field without an offset (`MissingOffsetRaises`).
  `DecodersAgree` gives the exact condition of agreement. It also leaves text in the order of the wire.
- Anchors are documented as never accumulated across discoveries, and for what is read from the device that holds
  (`LastDiscoveryDecides`, `LastDiscoveryDecidesThePoll`). But the code tables that rows bring are kept when the
  rows go, and each load describes the entries for which it knows a table. So an entry can keep a description
  whose table came from equipment that has gone (`DescriptionOutlivesItsRow`), or get one at the first rebuild from
  a type that loads later (`RebuildAddsDescription`). `NoHistoryExactly` says for which protocol files this cannot
  happen.
- The EG4 lookups say they never raise. They raise from the moment 1025 attempts have failed, because the
  next delay is computed from a power of two that has no floating-point value (`GetFailsExactly` for the
  metadata, `SerialsFailExactly` for the battery serials), and nothing is then retried
  (`UnidentifiedForGood`, `SerialsUnreadForGood`).
- Synchronizing defaults is documented as never changing an existing default. It holds exactly for scans
  without a name that reads as a directive (`ConservativeExactly`). It needs no acyclic inheritance. A
  scanned name that is no setting (it starts with `$`, or with `--`) is covered only by accident: merging covers
  a scan, and merging it again is idle, for every defaults file exactly when all of its names are settings
  (`CoversExactly`, `SecondMergeIsIdleExactly`). A name that stays neither resolved nor removed is
  written and counted again by every merge (`UncoveredIsAddedAgain`).
- The frame client describes itself as one with empty markers. With an empty end marker the background reader's inner
  loop ends only on a buffer without a start marker (`LoopEndsExactly`). The reader is modelled for non-empty
  end markers.
- The synchronous reader answers more than one frame with the list it collects them in, which belongs to the class: the
  next read of any client empties it and fills it again (`Framing.SerialFrameClient.Read`).

## Model

| member | source | states |
|---|---|---|
| ScrapeGroups.PrimaryIsFastest | protocol_gateway.py:306-331 | After any additions the primary is the earliest of the members with the smallest positive interval, which is the group's scrape interval |
| ScrapeGroups.DueNested | protocol_gateway.py:333-341 | The due sets of one group at two times are nested, whichever time is later |
| ScrapeGroups.DueSetsOverlap | protocol_gateway.py:333-351 | Two non-empty due sets of one group at any two clock readings share a member |
| ScrapeGroups.MarkDueKeepsCadence | protocol_gateway.py:343-351 | Marking a due member keeps its marks an interval apart |
| ScrapeGroups.ForwardAllServes | protocol_gateway.py:929-958 | A read without errors marks every due member that has data, once |
| ScrapeGroups.ForwardDueKeepsCadence | protocol_gateway.py:884-958 | Forwarding one read to the due members, stopped by an error or not, keeps every member's cadence |
| ScrapeGroups.GroupHoldsItsDevice | protocol_gateway.py:1433-1457 | The group of a device holds exactly that device's scrapers, in order |
| ScrapeGroups.GroupsPartition | protocol_gateway.py:1433-1457 | The groups partition the scrapers by target: no scraper in two groups, every scraper in one, all members of a group on its device, no two groups on a device |
| SchedulingSafety.OneReadPerDispatch | protocol_gateway.py:1592-1615 | Whatever members of a ready group are due, dispatching them submits exactly one read, on the group's device |
| SchedulingSafety.GuardIsPerGroup | protocol_gateway.py:1562-1574 | The guard on due members blocks a group exactly when a cycle of that same group is active |
| SchedulingSafety.RouteTouchesOneGroup | protocol_gateway.py:1748-1828 | Routing a finished read changes the marks of its own group only, and keeps their cadence |
| SchedulingSafety.PollDelivers | protocol_gateway.py:1459-1521 | A poll routes exactly the finished reads of cycles not timed out, once each in table order, and drops a cycle exactly when its read has finished or been cancelled |
| SchedulingSafety.StartCycleKeepsInv | protocol_gateway.py:1523-1708 | Starting a cycle keeps one read per group and the log of read ids |
| SchedulingTheorems.StepKeepsInv | protocol_gateway.py:1830-1902 | Every tick, worker step, time-out and reconnect keeps the scheduler's invariant |
| SchedulingTheorems.OneReadPerDevice | protocol_gateway.py:1459-1574 | On every run with any clock readings, active cycles have disjoint member sets, and no two unfinished reads or concurrent jobs are on one device |
| SchedulingTheorems.CadenceIsKept | protocol_gateway.py:884-958 | On every run in every mode, n forwards of a member after another take n of its intervals |
| SchedulingTheorems.RoutedAtMostOnce | protocol_gateway.py:1476-1521 | However a run goes on, no read is routed twice, and none after its cycle timed out |
| SchedulingTheorems.SeenDoneIsRouted | protocol_gateway.py:1476-1521 | A read that a tick finds finished before its cycle timed out is routed by that tick |
| TickTheorems.TickServes | protocol_gateway.py:1864-1893 | A tick takes up exactly the groups whose smallest positive member interval has passed since their primary was read, and stamps exactly these primaries. Sequentially it serves them; otherwise their device has a job or, if someone waits, a cycle afterwards: the old one, or a new queued read. Nothing else is started or lost |
| TickTheorems.ScanIsExact | protocol_gateway.py:1867-1871 | The scan finds exactly the ready groups and stamps their primaries |
| TickTheorems.ForwardServesExactly | protocol_gateway.py:884-958 | One read marks exactly the members that wait and have data, in order, up to the first bridge that raises |
| TickTheorems.PollServes | protocol_gateway.py:1459-1521 | A poll serves the group of every read that finished in time, as of its cycle's own time, and changes no other group |
| TickTheorems.PollLeaves | protocol_gateway.py:1476-1521 | A poll keeps exactly the cycles whose read is not done, unchanged unless they are overdue for the first time |
| TickTheorems.StartsExactly | protocol_gateway.py:1562-1622 | A dispatched group gets a new cycle exactly if someone waits in it and it has none |
| ServiceRounds.ConcurrentRound | protocol_gateway.py:1298-1336 | A ready group whose device is idle is read by a job, and its worker then serves exactly those who wait |
| ServiceRounds.InterleavedRound | protocol_gateway.py:1523-1622 | A ready group that is not busy gets a cycle, and the tick after its read has finished serves exactly those who wait |
| ServiceRounds.WorkerServes | protocol_gateway.py:884-958 | Once its read is over a worker serves those who wait, returns, and changes nothing else |
| ServiceRounds.StrayEventIsIgnored | protocol_gateway.py:1624-1640 | Progress of a read that is not in the table, or not at that stage, changes nothing |
| Gateway.ScrapeGroup.Add | protocol_gateway.py:306-324 | Adding a member gives the group the specification describes, primary included |
| Gateway.ScrapeGroup.MembersDueNow | protocol_gateway.py:333-341 | The due members, in order |
| Gateway.BuildScrapeGroups | protocol_gateway.py:1433-1457 | Builds the partition that GroupsPartition is about |
| Gateway.ProtocolGateway.PollInterleavedCycles | protocol_gateway.py:1459-1521 | Takes the poll step on the gateway's own tables |
| Gateway.ProtocolGateway.ProcessTransportsInterleaved | protocol_gateway.py:1523-1708 | Starts the cycle of the specification, or none if the guard blocks it |
| Gateway.ProtocolGateway.RouteInterleavedState | protocol_gateway.py:1748-1828 | Routes one read's data to the members it belongs to |
| Gateway.ProtocolGateway.SubmitConcurrentGroupRead | protocol_gateway.py:1298-1336 | Submits a device's job unless its last one is still running |
| Gateway.ProtocolGateway.RunTick | protocol_gateway.py:1830-1902 | One turn of the main loop is the tick of the step system, keeps its invariant, and does all that a tick owes (see TickServes) |
| Reload.OneGatewayAtATime | protocol_gateway.py:2071-2261 | On every orderly run of starts and reloads, whatever stops, builds and fallbacks do, all gateways but the current one have released their transports and left their loops |
| Reload.ReleasedForGood | protocol_gateway.py:1904-1951 | A gateway a reload has released never polls again, exactly if its thread had entered the loop |
| Reload.EarlyReleasePollsOn | protocol_gateway.py:1904-1951 | One whose thread had not entered the loop polls on for ever, whatever follows |
| Reload.ReloadIsHonest | protocol_gateway.py:2079-2186 | On every orderly run, a reload that reports success leaves a gateway serving, except exactly when it is disabled or skips an unchanged file while the last status about neither says that nothing was brought up |
| Reload.UndoneEditStaysOffline | protocol_gateway.py:2108-2124 | The first exception happens: undoing an edit that took the gateway offline reports success and serves nothing |
| Reload.DisabledReloadStaysOffline | protocol_gateway.py:2083-2096 | So does the other: a disabled reload after such an edit reports success and serves nothing |
| Reload.LastTryIsShown | protocol_gateway.py:2071-2261 | How the last start or reload that was carried out ended is the last status shown that is about no disabled or skipped reload |
| Reload.StatusIsTrue | protocol_gateway.py:2126-2258 | After a reload that was carried out: success exactly if the new configuration runs, fallback exactly if the stored one does, fatal exactly if neither was built, and none of these if the old gateway did not stop in time |
| Reload.IdleReload | protocol_gateway.py:2083-2124 | A disabled or skipped reload changes nothing but the status |
| Reload.RepeatedTriggerIsSkipped | protocol_gateway.py:2097-2124 | After a successful reload, any number of triggers for the same content, with threads getting on in between, build nothing, and the next changes nothing but the status |
| Reload.GatewayManager.ReloadConfig | protocol_gateway.py:2071-2186 | The manager takes the reload step, and builds only while no other gateway holds its transports |
| Decoding.RegisterWordsToBytes | classes/protocol_settings.py:2426-2488 | Collecting, reversing in place and serializing gives the bytes of the listed words in the word order, or nothing if one is missing |
| Decoding.OrdersAgree | classes/protocol_settings.py:2158-2175 | Reordering words before serializing and reordering the bytes of their wire image are the same, in all four orders |
| Decoding.DecodersAgree | classes/protocol_settings.py:2154-2348 | The bytes decoder and the integer decoder give the same result for the same registers if and only if the agreement condition holds |
| Decoding.NegativeFieldIsHuge | classes/protocol_settings.py:2306-2318 | A four-bit signed field holding -1 is a huge positive number to the bytes decoder |
| Decoding.HighByteIsTaken | classes/protocol_settings.py:2320-2325 | A byte in a register with two different halves is decoded differently |
| Decoding.MissingOffsetRaises | classes/protocol_settings.py:2327-2335 | A bit field without an offset is read from bit 0 by one decoder and raises in the other |
| Decoding.TextsAgree | classes/protocol_settings.py:2337-2344 | A text or hexadecimal entry whose payload is exactly its registers is decoded alike when the word order reorders nothing |
| Decoding.HexAgreesExactly | classes/protocol_settings.py:2337-2338 | A hexadecimal register is decoded alike if and only if its bytes are not exchanged or equal |
| TextFields.RegistersGiveText | classes/protocol_settings.py:2692-2712 | Registers that hold a printable text, a NUL and anything behind it, in any word order, decode to the text |
| TextFields.BytesGiveText | classes/protocol_settings.py:2340-2344 | So do the raw bytes of such an entry |
| TextFields.RangeRegisterGivesPair | classes/protocol_settings.py:2494-2533 | A register of an ASCII range decodes to its printable characters in order: NULs and unprintable bytes are skipped, spaces at the end dropped |
| TextFields.RangeBytesGivePair | classes/protocol_settings.py:2340-2341 | So do its two raw bytes |
| TextFields.LoneCharacterIsKept | classes/protocol_settings.py:2494-2504 | A visible character in either half of such a register is that character, in every word order |
| FieldLaws.WordsHoldTheBytes | classes/protocol_settings.py:2389-2424 | An entry occupies the registers it lists, or as many as the bytes of its type or size take |
| FieldLaws.FlagsAreBits | classes/protocol_settings.py:2611-2644 | Flags are one character per bit of the registers' value, in any word order |
| FieldLaws.FloatsKeepTheirBits | classes/protocol_settings.py:2535-2610 | Floating-point entries keep the bytes of their registers, most significant first |
| FieldLaws.HexIsFourDigits | classes/protocol_settings.py:2685-2689 | A hexadecimal register is its four digits |
| FieldLaws.MissingRegister | classes/protocol_settings.py:2535-2716 | A missing register is an exception where one register is read directly, and a partial read elsewhere |
| FieldLaws.OffsetChoosesBytes | classes/protocol_settings.py:2114-2153 | A byte offset and a size choose the bytes that are decoded, and nothing else |
| FieldLaws.BytesFailExactly | classes/protocol_settings.py:2154-2348 | The bytes decoder raises exactly for payloads too short for their type and for bit fields without an offset |
| Bytes.WordAndByteReversal | classes/protocol_settings.py:2158-2175 | Word reversal and byte swap commute, and together read the string backwards |
| Bytes.ReversalsUndoThemselves | classes/protocol_settings.py:2158-2175 | Each of the two undoes itself |
| DecodedRanges.DecodesToExactly | classes/protocol_settings.py:2535-2716 | A snapshot decodes to v exactly when v is in the type's declared range and the registers hold the one encoding of v: a bijection for every whole-register type and word order |
| DecodedRanges.RangeOfType | classes/protocol_settings.py:203-242 | The declared range of a type is what its number of words can hold |
| DecodedRanges.BitFieldsStayInRange | classes/protocol_settings.py:2646-2675 | A bit field's value is always in the range its type declares |
| DecodedRanges.BitFieldsReachTheirRange | classes/protocol_settings.py:2646-2675 | A bit field wholly inside its register takes every value of the declared range, from the register that holds the value's bits at the field's place |
| DecodedRanges.FlagAt | classes/protocol_settings.py:2611-2644 | Flags are listed one character per bit, lowest first |
| DecodedRanges.TextIsReadBack | classes/protocol_settings.py:2703-2712 | A printable text stored in the registers of a string entry, in any word order, is decoded as it is |
| Batching.CalculateRegistryRanges | classes/protocol_settings.py:1987-2044 | Returns the ranges of the specification; every entry that may be read, lies in reach and is due is put off to one interval after the call, every other is left alone, and the first load moves none |
| BatchingTheorems.RangesAreTight | classes/protocol_settings.py:2010-2044 | Each range begins at a selected entry and ends with one; each window with a selected entry has its one range; starts strictly increase |
| BatchingTheorems.BatchingSuffices | classes/protocol_settings.py:1987-2044 | Whatever else is polled, a well-placed selected entry decodes from a snapshot that holds the ranges |
| BatchingTheorems.WellPlacedIsExact | classes/protocol_settings.py:2031-2039 | Polled alone, an entry decodes from exactly what was fetched if and only if it is well placed |
| BatchingTheorems.EnclosedIsExact | classes/protocol_settings.py:2010-2044 | Polled with others, an entry decodes from exactly what was fetched if and only if each of its words lies between registers of selected entries of one window |
| BatchingTheorems.InitialPollSuffices | classes/protocol_settings.py:2101-2112 | The first poll of a loaded map, up to the highest register computed for it, fetches all that its readable, well-placed entries need |
| BatchingTheorems.OrdinaryEntriesDecode | classes/protocol_settings.py:2101-2112 | After it every readable entry at consecutive registers, or with a full list that has its smallest address first, decodes |
| Batching.RegistryMapSize | classes/protocol_settings.py:2101-2110 | The loop computes the map size that MapSizeIsHighest characterizes |
| BatchingTheorems.MapSizeIsHighest | classes/protocol_settings.py:2101-2110 | The size is the highest register any entry reaches, and some entry reaches it unless it is 0 |
| BatchingTheorems.DescendingListIsMissed | classes/protocol_settings.py:2031-2039 | Polled alone, any entry whose decoder needs a listed address below the first is a partial read |
| BatchingTheorems.ReversedPairIsMissed | classes/protocol_settings.py:2031-2039 | The plainest such entry: 41 then 40 |
| BatchingTheorems.DecodesWhenPresent | classes/protocol_settings.py:2535-2716 | The integer decoder succeeds exactly when all words of the entry are there |
| BatchingTheorems.SmallestFirstIsWellPlaced | classes/protocol_settings.py:2389-2424 | A list of the type's word count with its smallest address first is well placed |
| BatchingTheorems.NothingIsDueTwice | classes/protocol_settings.py:2024-2026 | The same call at the same time again reads nothing and puts nothing off |
| BatchingTheorems.ReadsKeepTheInterval | classes/protocol_settings.py:2024-2026 | Over any run of polls an entry is read again only after more than its interval |
| PollSchedule.ReadAgainExactly | classes/protocol_settings.py:2024-2026 | After a read, and until the next, a call in whose reach the entry lies reads it if and only if more than its interval has passed or the call is a first load |
| PollSchedule.PolledIsFetched | classes/protocol_settings.py:1987-2044 | Every register of an entry that is polled is in a range, whatever else is polled |
| PollSchedule.AloneExactly | classes/protocol_settings.py:1987-2044 | On its own an entry gets exactly one range if it is polled, its own registers, and none otherwise |
| PollSchedule.OddWindows | classes/protocol_settings.py:1998-2012 | Only a window length of zero raises; a negative one reads nothing |
| Concatenation.ProcessRegistery | classes/protocol_settings.py:2744-2803 | The decoding loop gives the values that PlainRowsExactly, NamesAreOfRows and RangeText are about |
| Concatenation.RangeIsJoined | classes/protocol_settings.py:2779-2800 | A range is in the output exactly when all of its registers were read, as its fragments in listed order, however rows are ordered or mixed |
| Concatenation.RangeIsEmittedOnce | classes/protocol_settings.py:2779-2800 | No range is put out twice |
| OutputValues.PlainRowsExactly | classes/protocol_settings.py:2799-2800 | A name of single registers is put out exactly if one of its rows was read, with the value of the last of them |
| OutputValues.PlainRowExactly | classes/protocol_settings.py:2799-2800 | A row alone in using its name is put out exactly if it was read, with its value |
| OutputValues.NamesAreOfRows | classes/protocol_settings.py:2744-2803 | Nothing is put out under a name that no row read has |
| OutputValues.RangeText | classes/protocol_settings.py:2787-2797 | A joined range is its fragments side by side, each where the lengths of those listed before it put it; for ASCII without the blanks at its ends and with spaces for NULs |
| OutputValues.WhiteSpaceExactly | classes/protocol_settings.py:2795-2796 | What counts as white space |
| Concatenation.LoadRange | classes/protocol_settings.py:1645-1740 | A range cell loads as one row per register in address order, each listing the whole range in reading order |
| Concatenation.LoadedRangeIsOne | classes/protocol_settings.py:1645-1740 | The rows of a range cell, anywhere among rows of other names and registers, form one range |
| SunSpecChain.WalkChain | classes/discovery/sunspec.py:220-241 | The walker finds the models of the image from the marker on |
| SunSpecChain.ChainImage | pytests/discovery_helpers.py:43-54 | The printer writes the image of a chain |
| SunSpecChain.FakeReader.ReadDiscoveryRegisters | pytests/discovery_helpers.py:35-40 | Answers only what it holds, and records every read |
| SunSpecChain.WalkFindsExactly | classes/discovery/sunspec.py:220-241 | On any register image, whatever data lies between the headers, the walk finds a given chain if and only if it is walkable, its headers are in place, and no further header follows |
| SunSpecChain.WalkIgnoresData | classes/discovery/sunspec.py:220-241 | A printed chain over any data registers walks to exactly its models if and only if it is walkable |
| SunSpecChain.WalkUndoesPrinting | classes/discovery/sunspec.py:220-241 | Walking a printed chain gives its models with their header addresses, with or without end marker, if and only if the chain is walkable |
| SunSpecChain.ModelsTile | classes/discovery/sunspec.py:220-241 | On any image the models found are what it holds, tile the addresses from the marker on, and stop only for a reason |
| ChainLaws.WalkExactly | classes/discovery/sunspec.py:220-241 | The walk in the numbers of the source: from two registers behind the marker, model by model, until 64 are found, the address space ends, a header cannot be read, or it has an ID of all ones or zeros throughout |
| ChainLaws.MarkerSpellsSunS | classes/discovery/sunspec.py:137-140 | The marker is the text SunS |
| SunSpecAnchors.BuildAnchors | classes/discovery/sunspec.py:152-196 | Every anchor has exactly the value its instance has in the chain: instances are numbered densely from 1 in chain order, and nothing else is named; how many sub-blocks there are is BuiltDescribesBlocks |
| SunSpecAnchors.AliasCountIsSum | classes/discovery/sunspec.py:177-184 | The count of a kind of equipment is the sum over its models |
| ChainLaws.EquipmentIds | classes/discovery/sunspec.py:101-106 | Which model IDs are which equipment |
| ChainLaws.InstancesExactly | classes/discovery/sunspec.py:166-184 | The instances of a family are its models, in chain order, none left out |
| SunSpecAnchors.BlocksLieInside | classes/discovery/sunspec.py:186-195 | Every reported sub-block lies in its model's declared span |
| SunSpecAnchors.BlocksAreApart | classes/discovery/sunspec.py:186-195 | The sub-blocks of a walked chain do not overlap, within a model or across models |
| SubBlocks.BuiltDescribesBlocks | classes/discovery/sunspec.py:186-195 | For every chain and any counts: a model 160 has as many sub-blocks as counted if 8 + 20 for each fit its length, otherwise as many as fit; they begin 10 behind its header, 20 apart, and are numbered on from model to model; no others are published |
| SubBlocks.DeviceDescribesBlocks | classes/discovery/sunspec.py:198-218 | End to end, with the count registers of any device with a marker |
| SunSpecDiscovery.ReadBlockCounts | classes/discovery/sunspec.py:198-218 | The readable, plausible block counts by header |
| SunSpecDiscovery.Discover | classes/discovery/sunspec.py:129-150 | The first candidate with a marker is walked, counted and described |
| SunSpecDiscovery.DiscoveredIfMarked | classes/discovery/sunspec.py:129-150 | Discovery succeeds exactly on devices with a marker at some candidate address |
| SunSpecDiscovery.DiscoveryDescribesTheDevice | classes/discovery/sunspec.py:129-150 | On any register image, every anchor is that of the models the walk finds from the first marker on and of the block counts they report, and sub-blocks never overlap |
| SunSpecDiscovery.DiscoveryDescribesTheChain | classes/discovery/sunspec.py:129-150 | A device that carries a walkable chain, with any data registers between its headers, is described as that chain |
| SunSpecDiscovery.ImageIsAMarkedChain | pytests/discovery_helpers.py:43-54 | A printed chain over any data registers is such a device |
| SunSpecDiscovery.NameIsUnique | classes/discovery/sunspec.py:152-196 | No two anchors share a name |
| SunSpecDiscovery.PublishedIsOwned | classes/discovery/sunspec.py:114-127 | Every published name matches the provider's pattern |
| DynamicMaps.ProtocolSettings.LoadRegistryMap | classes/protocol_settings.py:2070-2112 | Loading a map replaces its entries, descriptions included, its size, the ranges of its first poll, its deferred rows and its dynamic mark, and adds the code tables of its rows to those kept from earlier loads |
| DynamicMaps.AddDescriptions | classes/protocol_settings.py:1929-1985 | The loop appends the specified description entries: for each entry with a known table, unless the name is taken or screened |
| DynamicMaps.ProtocolSettings.ApplyAnchors | classes/protocol_settings.py:2968-2993 | Takes the apply step on anchors, maps, deferred rows, dynamic types and code tables, and rebuilds exactly when the anchors change |
| DynamicMaps.ProtocolSettings.ResolveDynamicRegistryEntries | classes/protocol_settings.py:3084-3104 | Takes the step for live values, see LiveValuesAreTaken |
| DynamicMapsTheorems.RebuildMakesFresh | classes/protocol_settings.py:2995-3008 | Reloading the dynamic types alone leaves every map as a load under the new anchors would, with descriptions from tables of the protocol or of rows, and forgets no table |
| DynamicMapsTheorems.MapsFollowAnchors | classes/protocol_settings.py:2968-3008 | After any sequence of discoveries and live values, every map is that of a load under the current anchors for some tables: those of the protocol, those of all rows now there, and possibly some of rows that are not |
| DynamicMapsTheorems.LastDiscoveryDecides | classes/protocol_settings.py:2968-2993 | Anchors, all entries but descriptions, deferred rows and dynamic types after a discovery are those of a protocol loaded with its anchors from the start |
| DynamicMapsTheorems.LastDiscoveryDecidesThePoll | classes/protocol_settings.py:2101-2112 | And so are the size and the first poll of every map of valid entries, descriptions or not |
| CodeTables.SettledHasNoHistory | classes/protocol_settings.py:1194-1205 | If every entry the files may yield is settled, whole maps with their descriptions have no history, for any selection of entries and any screen |
| CodeTablesExact.NoHistoryExactly | classes/protocol_settings.py:1929-1985 | Whole maps have no history for every selection of entries if and only if every entry the files may yield is settled: its table is certain to be known when it loads, or can never have been brought before |
| StaleDescriptions.DescriptionOutlivesItsRow | classes/protocol_settings.py:1503-1510 | A run after which an entry has a description whose table came from equipment that has gone |
| StaleDescriptions.RebuildAddsDescription | classes/protocol_settings.py:2995-3008 | A protocol in which every discovery that moves a register adds a description that the first load does not give it |
| DynamicMapsTheorems.FirstPollSuffices | classes/protocol_settings.py:2101-2112 | After any sequence of discoveries and live values, the first poll of each map fetches what its readable, well-placed entries need |
| MapContents.EntriesAreOfRows | classes/protocol_settings.py:2915-2966 | A map, before masks, holds an entry exactly for every row, or instance of one, whose register its cell or anchors give, with its names and that register |
| MapContents.EntriesAreInOrder | classes/protocol_settings.py:2915-2966 | In the order of the rows and their instances |
| MapContents.DeferredAreWaiting | classes/protocol_settings.py:1630-1641 | The deferred rows are exactly those whose anchor is unknown, or is text where a number is added |
| MapContents.DescriptionsExactly | classes/protocol_settings.py:1929-1985 | An entry is described exactly if it has a code table that is not empty and the name for it is free and not screened; no name is described twice |
| MapContents.DiscoveredAnchors | classes/protocol_settings.py:2985-2990 | After a discovery an anchor is what was discovered, or a default whose name the provider does not own |
| MapContents.LiveValuesAreTaken | classes/protocol_settings.py:3096-3101 | Live values overlay the anchors if anything waits, and the maps are then as loaded with them |
| MapContents.LiveValuesAreNotNeeded | classes/protocol_settings.py:3096-3097 | If nothing waits nothing changes |
| MapContents.WaitingRowIsResolved | classes/protocol_settings.py:3084-3104 | So a row that waited for live values only is in its map afterwards |
| MapContents.SizeIsHighest | classes/protocol_settings.py:2101-2110 | In every reachable state the size of a map is the highest register one of its entries reaches, or 0 |
| MapContents.FirstPollReads | classes/protocol_settings.py:2101-2112 | And its first poll reads every register of every entry that may be read |
| DiscoveredMaps.RowsFollowTheChain | classes/protocol_settings.py:2915-2966 | After a discovery a template row yields one line per instance in the chain, at its header plus the offset, whatever came before |
| DiscoveredMaps.RowsFollowTheBlocks | classes/protocol_settings.py:2915-2966 | And a row for repeating blocks one line per sub-block |
| DiscoveredMaps.DeviceDecidesTheMap | classes/protocol_settings.py:2968-2993 | End to end, any device with a marker decides the lines of every template row for equipment, from its registers alone |
| DiscoveredMaps.DeviceDecidesTheBlocks | classes/protocol_settings.py:2968-2993 | And of every row for repeating blocks, with the block counts read from the device |
| DiscoveredMaps.ChainDecidesTheMap | classes/protocol_settings.py:2968-2993 | For a device carrying a known chain, with any data between its headers, they are the lines of that chain |
| Inheritance.ResolveTransport | classes/WebServer/transport_registry.py:209-263 | The recursive resolution terminates on every raw map and gives the specified entry |
| Inheritance.ResolveIsLookup | classes/WebServer/transport_registry.py:209-263 | Merging whole entries equals looking each key up level by level, cycles included |
| Inheritance.NearestDefinitionWins | classes/WebServer/transport_registry.py:209-263 | A key resolves to its nearest definition on the chain, unless a level up to it removes it |
| DefaultsSync.SyncFromLibrary | classes/WebServer/transport_registry.py:442-501 | The merge loop gives the merged map and the counts of what it added |
| DefaultsSync.MergeIsConservative | classes/WebServer/transport_registry.py:442-501 | No key resolved for any transport changes value, cyclic inheritance included |
| DefaultsSync.MergeCoversTheLibrary | classes/WebServer/transport_registry.py:442-501 | Afterwards every scanned key is resolved or explicitly removed |
| DefaultsSync.SecondMergeDoesNothing | classes/WebServer/transport_registry.py:442-501 | A second merge changes and counts nothing |
| DefaultsSync.RemovalsStay | classes/WebServer/transport_registry.py:479-501 | An explicit removal survives every merge |
| DefaultsSync.CoversExactly | classes/WebServer/transport_registry.py:479-501 | Merging covers a scan for every defaults file if and only if all of its names are settings |
| DefaultsSync.SecondMergeIsIdleExactly | classes/WebServer/transport_registry.py:479-501 | Merging a scan a second time adds and counts nothing, for every defaults file, if and only if all of its names are settings |
| DefaultsSync.UncoveredIsAddedAgain | classes/WebServer/transport_registry.py:492-501 | A scanned name neither resolved nor removed is written and counted again |
| DefaultsSync.ConservativeExactly | classes/WebServer/transport_registry.py:487-501 | Merging a scan is conservative for every defaults file if and only if no scanned name reads as a directive |
| SyncResults.MergeOneExactly | classes/WebServer/transport_registry.py:453-501 | Merging one scan adds exactly the keys nothing resolves or removes, with the default found or an empty text, and changes nothing else |
| SyncResults.MergedResolvesExactly | classes/WebServer/transport_registry.py:479-501 | A scanned key resolves to what it did before, to nothing if it is removed, and otherwise to the default found |
| SyncResults.AddedValueStays | classes/WebServer/transport_registry.py:442-501 | However many scans follow |
| SyncResults.StatsCountAdditions | classes/WebServer/transport_registry.py:442-501 | The counts are the numbers of transports and of keys that were not there before |
| SyncResults.NamesAreRead | classes/WebServer/transport_registry.py:199-206 | How names are read: private, removal, or setting |
| Framing.SerialFrameClient.ReadThread | tools/serial_frame_client.py:134-181 | The background reader hands over the frames of the specification |
| Framing.SerialFrameClient.Read | tools/serial_frame_client.py:86-131 | Answers with the first of the frames the background reader would deliver: one by itself, more as the list shared by all clients, whose contents it replaces |
| Framing.SerialFrameClient.Write | tools/serial_frame_client.py:81-84 | Keeps what has been sent the line of all payloads written so far, which WritesAreDelivered is about |
| FramingTheorems.LoopEndsExactly | tools/serial_frame_client.py:148-170 | For any markers, the reader's inner loop ends if and only if the end marker is not empty or the buffer holds no start marker |
| FramingTheorems.RoundTrip | tools/serial_frame_client.py:81-84 | Every payload written between markers is delivered once, in order, whatever noise is between frames and however the reads cut the line |
| FramingTheorems.WritesAreDelivered | tools/serial_frame_client.py:81-84 | Any payloads written one after the other are delivered once, in order, however the reads cut the line, an empty start marker included |
| FramingTheorems.OneByteFramesAreClean | tools/serial_frame_client.py:81-84 | Distinct one-byte markers need only noise without the start marker and payloads without the end marker |
| FramingTheorems.FitsIsExact | tools/serial_frame_client.py:166-170 | Read byte by byte, a frame is delivered if and only if its payload is shorter than the size limit |
| Eg4Cache.Eg4Transport.GetCachedMetadata | classes/eg4_metadata.py:812-844 | Takes the retry step, and says when the device was asked |
| Eg4Cache.Eg4Transport.RefreshIdentification | classes/eg4_metadata.py:847-876 | Takes the refresh step |
| Eg4Cache.Eg4Transport.GetCachedBatterySerials | classes/eg4_metadata.py:879-908 | Takes the step for the battery serials |
| Eg4Cache.RetriesSpanTheDelays | classes/eg4_metadata.py:812-876 | From any outcome of connecting, successive retries span at least the sum of the delays between them, even with refreshes in between |
| Eg4Cache.AtMostSixAnHour | classes/eg4_metadata.py:360-364 | An unidentified device is retried at most six times in any hour |
| Eg4Cache.LongRunSum | classes/eg4_metadata.py:360-364 | What the delays of a long run add up to |
| Eg4Cache.CacheOnlyImproves | classes/eg4_metadata.py:835-876 | A complete identification never becomes incomplete, and no battery serial is lost |
| Eg4Cache.CompleteIsNotRetried | classes/eg4_metadata.py:822-824 | A complete identification is never retried |
| Eg4Cache.LoadedSerialsAreKept | classes/eg4_metadata.py:889-908 | Battery serials once loaded are not read again until a refresh |
| Eg4Cache.RefreshesAreSpaced | classes/eg4_metadata.py:857-863 | Refreshes of the device are at least five minutes apart on every run |
| Eg4Cache.GetFailsExactly | classes/eg4_metadata.py:812-844 | The lookup raises if and only if the device is unidentified after 1025 attempts |
| Eg4Cache.RetriesEnd | classes/eg4_metadata.py:822-831 | On every run there are at most 1025 retries |
| Eg4Cache.SerialsFailExactly | classes/eg4_metadata.py:879-898 | The battery-serials lookup raises if and only if the serials are not loaded after 1025 attempts |
| Eg4Cache.SerialsUnreadForGood | classes/eg4_metadata.py:879-898 | Serials that fail to read every hour get there, and are then not read again by lookups |
| Eg4Cache.UnidentifiedForGood | classes/eg4_metadata.py:360-364 | A device that fails every hour gets there, and is then neither identified nor retried by lookups |
| Eg4Results.AskedExactly | classes/eg4_metadata.py:822-831 | A lookup asks the device if and only if its identification is incomplete and never tried, or tried at most 1024 times and last long enough ago: 1, 2, 4, 8, 16, 32 minutes, then an hour |
| Eg4Results.SerialsAskedExactly | classes/eg4_metadata.py:889-898 | The battery serials in the same rhythm, while no pass was complete |
| Eg4Results.RefreshedExactly | classes/eg4_metadata.py:853-861 | A reconnect asks if and only if it is an inverter's and no attempt was made in the last five minutes |
| Eg4Results.RetryTakesTheBetter | classes/eg4_metadata.py:831-844 | A retry replaces what is known exactly by something better |
| Eg4Results.RefreshTakesTheNewer | classes/eg4_metadata.py:861-876 | A refresh replaces it by anything not worse, and has the serials read again |
| Eg4Results.FoundIsKept | classes/eg4_metadata.py:812-844 | A device once found is answered by every later lookup until a refresh, and not asked again |
| Eg4Results.IdleLookup | classes/eg4_metadata.py:822-831 | A lookup that does not ask answers from the cache |
| Eg4Results.PassAddsWhatItReads | classes/eg4_metadata.py:894-908 | A pass adds what it reads, is final if it was complete, and is repeated after the wait otherwise |
| Eg4Results.FailedPassCounts | classes/eg4_metadata.py:899-904 | A pass that fails adds nothing and counts |
| Eg4Results.CompletePassIsKept | classes/eg4_metadata.py:889-908 | What a complete pass has read is answered until the next refresh |

## Left out

- Interleaved cycles and futures: they are values in a table, not objects; that two tables could share one
  object is not modelled. A read's worker is a sequence of events, so locks and thread pools are not modelled.
- The cycle time-out and read interval of a transport are constants of a run.
- Reconnect hooks: only what they reset (`last_read_time`, register timestamps) is modelled. Bridges, masks of
  forwarded values and logging are not.
- A gateway's constructor is atomic: one that raises after opening some connections, and threads still reading
  after their loop has ended, are not modelled. Configuration hashes are compared as equal or not.
- The manager's shutdown (`GatewayManager.stop`) and the storage of backups.
- DecodersAgree: entries with an address list, a byte offset or a byte size are not compared, because one decoder sees
  only the bytes stored at the entry's own register for them.
- TextsAgree: text in a word order that reorders something is compared only for hexadecimal registers.
- DecodesToExactly: scaling, offsets and context adjustments come after it and are not modelled;
  floating-point values are kept as their bit patterns.
- Code tables for flags: flags are modelled as strings of ones and zeros.
- Reading and parsing CSV, JSON and register expressions: rows start as cells, and expressions as an anchor with an
  optional offset. Explicit address lists in template cells, range tokens (`[x~y]`), override files, a read-window
  length of zero (with which loading raises), text anchor values that spell a number, and
  fractional anchor values are not modelled.
- Pair merging, masks and screens of a loaded map are one unknown function of the parsed rows; NoHistoryExactly is
  about those that select entries, as masks and screens do, while pair merging renames them.
- NoHistoryExactly: asks that no two rows bring tables for one name of which only one is empty; which of them is kept
  then depends on their order as well.
- Context adjustments and description entries after the decoding loop.
- WellPlacedIsExact: is for an entry polled alone; with others it may be covered by them (EnclosedIsExact).
- ReadsKeepTheInterval: is about calls that keep the schedule; an initial load and a reset after a reconnect read
  every entry at once.
- Purging removed keys and transports, setting descriptions and the caches of the defaults registry.
- MergeCoversTheLibrary: is for libraries whose scanned names are all settings; CoversExactly says that no
  scan with another name is covered for every defaults file.
- Protocol probes other than SunSpec, the configured base address and the choice of register space.
- RoundTrip: asks for an end marker that is not empty, as the reader's loop does not end at a start marker otherwise.
- Reading a device: identification, register reads and battery serial reads are inputs.
- The web server, database export, messaging, CAN and serial transports, and the configuration writer.
