# libbgp: a verified model

A Dafny 4.11 model of the parts of libbgp, a BGP-4 library in C, that carry its hardest promises, with
proofs of those promises. `dafny verify dfyconfig.toml` checks everything.

| files | part of the library |
|---|---|
| `Prefix4`, `Radix4`, `HashMap` | IPv4 prefixes, the binary trie, the chained hash map |
| `BestPath`, `BestCache` | the route comparison and the cached best route of a prefix group |
| `RibIndex`, `Rib4` | the IPv4 routing table: one set of entries in four linked structures |
| `UpdateJournal` | applying an UPDATE as a transaction, with rollback and a stream of events |
| `Publishing` | what a subscriber knows when reports overtake each other or go missing |
| `As4Path`, `As4Update`, `As4Message`, `As4Sendable` | carrying four-octet AS numbers through two-octet speakers |
| `Session`, `SessionHistory`, `SessionLife`, `SessionTimers`, `SessionRoutes`, `Collision` | the session state machine, what its runs say about the handshake, how long a session lives and on what terms, the timers and the peer's routes, and collisions |
| `PeerTable`, `Fsm` | a session's account of its peers' routes and the table, and the session object over a routing table |
| `Framing`, `Sink` | cutting a byte stream into packets |
| `PathAttr`, `Wire`, `AttrCodec`, `UpdateCodec`, `UpdateMessage` | the UPDATE parser and printer |
| `WireLayout`, `UpdateLayout` | the layout of an UPDATE octet by octet, which the parser accepts exactly |
| `RouteTemplate` | the route an UPDATE announces, from its bytes to the table |
| `Filter` | route filters and their attribute table |
| `Wrappers` | options, results, error codes, allocation |

## How it is modelled

Code that changes things in place is a class whose methods are proved against functions of the old state.
An allocation is `TryAlloc`: it may fail whenever it is not declared plentiful, so every undo path is real.
Table entries are objects, so "the same entry" means the same object, as the pointers of the C code do. An
IPv4 address is four bytes in memory order; one lemma ties its masks to the bits the trie walks.

In the session every region that runs under the lock is one step. A send is a step that begins it and a
later one that ends it, and any steps may run in between; so is the discard of the peer's routes, which a
teardown makes only after it has given up the lock. `Session` has the steps as functions and what every step
keeps; `SessionHistory`, `SessionTimers` and `SessionRoutes` have the theorems over all runs, stated in terms
of the steps taken, and so does `SessionLife`; `Fsm` has the fields and methods, each proved to take the step of its name. An object
writes down its steps, and is always where they lead, so the theorems over runs are about the object. The
session state has the routes themselves, and the object's invariant is that, of all sources that others do not
write, the table has exactly those.

Sessions share a routing table. A session object is given the set of sources that others write, now or
later; it only touches routes of its own peer, and the others may write at any time.

## Main results

- **Routing table.** Every operation, with every allocation failure, keeps hash map, per-source index,
  prefix groups and trie in agreement with one set of entries, and changes the map from (source, prefix) to
  route exactly as it should. Lookup is longest-prefix match over that set. While the routes of each group
  have comparable MEDs (`Orderly`), no operation, no UPDATE, no rollback and no teardown leaves a cached best
  wrong (`BestsKept`).
- **Best route.** The winner of a comparable set is said step by step, without the comparison: none has a greater
  weight, and among equals none a greater preference, a shorter path, a lower origin, a lower MED from the same
  neighbouring AS, and so on to the source (`WithstandsIff`, `ScanWithstands`; `Lookup` and `BestExact` promise it of
  what they return). MED is compared only between routes of one neighbouring AS, so the comparison has cycles
  (`MedCycle`). A scan is independent of order if and only if one route beats all others
  (`OrderIndependentIff`). The best cached in a group can go stale when a route is replaced (`StaleBest`);
  `ReplaceStandsIff`, `AddStandsIff` and `RemoveStandsIff` say exactly when it does not.
- **UPDATE transaction.** A failed UPDATE leaves the very same entries, hence the same update ids, provided
  putting entries back does not run out of memory; if it does, only routes of that peer for prefixes that the
  UPDATE names are lost. With the same entries back, right cached bests of comparable routes and the trie are the
  old ones too. A rollback that comes late, after other changes to the table, neither removes nor replaces a
  newer route (`NewerRouteStays`); but it brings an old route back exactly where there is no newer one
  (`RevivedIff`), so also one that the peer has withdrawn since (`LateRollbackRevives`).
- **Events.** After a successful UPDATE a subscriber that follows the published events knows exactly the new best
  routes, and reports published in the order of the table changes add up (`ReportsAddUp`). Published in any other
  order, or not all, they leave a subscriber right if and only if for every prefix the last published report
  about it left its best route as it now is (`PublishedRightIff`); two sessions can publish the wrong way round
  (`OvertakenReport`).
- **AS4.** A four-octet path downgraded, carried through any number of two-octet speakers that prepend
  short or long AS numbers, and restored is the same path with theirs in front. Downgrading fails if and
  only if the first long AS number stands inside an AS_SET and is not its first (`DowngradeCarries`,
  `DowngradeRefusesSet`). Of every other message, too, each of the three operations is said exactly: when it fails,
  with which error, and what the paths are hop by hop when it does not (`DowngradeMeaning`, `PrependWide`,
  `PrependShort`, `PrependLong`, `RestoreMeaning`). A sendable message stays sendable (`DowngradeSends`,
  `PrependSends`, `RestoreSends`).
- **Handshake.** Whatever interleaves, established means that the peer's KEEPALIVE of that attempt was
  received. The local KEEPALIVE was sent if and only if the peer's was not handled between two adjacent
  locked regions of the passive handshake (`EstablishedKeepalives`); without threads nothing runs there
  (`EstablishedHasBothKeepalives`), and with them a session can be established and never send its KEEPALIVE
  (`EstablishedWithoutKeepalive`). A passive session has sent its OPEN. An active one has, unless the peer
  answered while it was being sent and that send did not then succeed (`EstablishedOpens`); that exception
  is real (`EstablishedAfterFailedOpen`). Ends of old sends are inert, so the second case of the
  failed-handshake rollback never happens.
- **Life of a session.** In every run a handshake or session is alive if and only if some step was an acceptable
  OPEN and no later step was harmful, both said field by field, and then its peer, AS number and hold time are those
  of that OPEN and the configuration (`AliveIff`). The hold time is the smaller offer, none if either side offers
  none, and the keepalive interval the longest that fits three times (`HoldTimeIsSane`).
- **Timers.** The two timer fields are, in every run, what the run's accepted messages, finished KEEPALIVEs
  and ticks say (`TimersAreEvents`). Once an attempt with a positive hold time has had a tick, its peer was
  heard less than a hold time ago wherever the run stands, the attempt's first tick counting as hearing it
  (`AliveIsHeard`), and one that stays silent is dropped (`SilentPeerIsDropped`).
- **Session and table.** Over the whole life of a session object, of every peer that others do not write, the
  table has exactly what the peer has last told for each prefix, less what a discard or a rollback short of
  memory has taken since (`TableIsTold`, `RoutesAreEvents`, `MissingMeaning`). Outside ESTABLISHED only peers with
  a pending discard have routes, so none is left once no discard is pending (`NoPeerRoutes`,
  `NoRoutesOutsideEstablished`). While rollbacks have memory, an established session can lose what its peer tells
  if and only if a discard of its own peer is still pending (`LossIff`). Both exceptions are real: a late discard
  takes the routes of the same peer's next session (`LateDiscardLosesRoutes`), and so does a rollback that runs
  out of memory again (`ShortMemoryLosesRoutes`).
- **Collisions.** Two sessions can come to confirm one peer if and only if their configurations clash: the
  local ids of two that can confirm a peer of some id lie on different sides of it (`ConfirmTwiceIff`).
- **Sink.** The packets, the bytes left and the error are those of cutting the stream into whole packets up to where
  framing must stop (`FrameMeaning`). What a stream delivers and leaves is independent of how it is cut if and only if it is good
  frames followed by an incomplete one, by a bad header with no byte behind it, or by a frame that does not
  parse with an incomplete one behind it (`CutFreeIff`). A bad header in front of a good frame gives different
  packets under two cuts (`BadHeaderDependsOnSplit`). A sink whose own arrays cannot grow loses no byte; bytes
  are lost if and only if framing ends in an error (`Feed`, `ContinuesIff`), and a parser that runs out of
  memory is one: its frame is gone for good (`StarvedParserLosesFrame`).
- **Codec.** Parsing then printing gives the same bytes apart from cleared host bits; printing then parsing
  gives the message back, up to host bits and the extended-length flag, if and only if each attribute has no
  empty path segment, has the session's AS number width, and is not an unknown one that would be taken for a
  known one (`AttrRound`, `UpdateRound`); besides type code and AFI/SAFI the last depends on its flags. The parser is
  also the layout of section 4.3 of RFC 4271: it accepts a body as a message if and only if the octets are laid out
  as that message, for each type code and flag octet (`UpdateMeaning`, `AttrMeaning`), and refuses every other body
  with the error of its first fault (`UpdateFaultMeaning`).
- **From bytes to the table.** Each announced and permitted prefix of an UPDATE's bytes ends in the table with a route
  of that peer whose path length, origin, MED and preference are those the bytes give (`BytesToTable`).
- **Filters.** A route is permitted if and only if the last rule that asks for it permits it, where what a rule asks is
  said by the bits of prefixes and the numbers in attributes (`DecideMeaning`).

## Model

| member | source | states |
|---|---|---|
| `Prefix4.MaskedEqual` | src/prefix4.c:33-49 | two addresses agree under the mask of a length exactly when their leading bits agree |
| `Prefix4.NormalizeMeaning` | src/rib4.c:98-109 | normalising is idempotent, keeps the bit string, and identifies exactly the prefixes with equal bit strings |
| `Prefix4.MatchMeaning` | src/rib4.c:494-503 | an address matches a prefix exactly when the prefix's bits lead the address |
| `Prefix4.IncludesMeaning` | src/prefix4.c:134-149 | one prefix includes another exactly when its bits lead the other's |
| `Radix4.Tree.Insert` | src/radix4.c:66-115 | binds exactly one key; running out of memory at any depth leaves the tree as it was |
| `Radix4.Tree.Remove` | src/radix4.c:117-166 | unbinds exactly one key, prunes, and says not-found exactly when the key was unbound |
| `Radix4.Tree.LookupLpm` | src/radix4.c:168-194 | the walk gives the longest bound prefix of the address |
| `Radix4.LongestMatchMeaning` | src/radix4.c:168-194 | what longest match means: none exactly when no key leads the address, else a key no matching key exceeds |
| `Radix4.Tree.NodesArePrefixesOfKeys` | src/radix4.c:66-166 | every node lies on the way to a bound key: no empty leaf survives |
| `HashMap.MaskIsRemainder` | src/hashmap.c:15-25 | for a power of two the bucket by mask is the bucket by remainder |
| `HashMap.Map.Resize` | src/hashmap.c:41-68 | relinking keeps every entry, each in the bucket of its hash |
| `HashMap.Map.Insert` | src/hashmap.c:143-178 | adds one new entry and loses none; failure changes nothing |
| `HashMap.Map.Unlink` | src/rib4.c:522-542 | takes out exactly the given entry |
| `BestPath.BetterCached` | src/rib4.c:440-492 | reading the neighbour AS lazily through a cache never changes the comparison; what the comparison decides is `BestPath.WithstandsIff` |
| `BestPath.WithstandsIff` | src/rib4.c:455-492 | a route is not better than another exactly if the other withstands it: weight, preference with 0 counting as 100, path length, origin, MED from the same neighbour, eBGP before iBGP, age, source, each only among equals in those before |
| `BestPath.FirstSequenceHeadMeaning` | src/rib4.c:424-433 | the first number of the first non-empty AS_SEQUENCE, none exactly when there is no such segment |
| `BestPath.NeighborAsMeaning` | src/rib4.c:405-438 | the neighbouring AS is that number of the first AS_PATH attribute, and of no later one |
| `BestPath.BetterIsTournament` | src/rib4.c:455-492 | of two routes that differ in update id or source exactly one is better |
| `BestPath.BetterIsTransitive` | src/rib4.c:455-492 | with comparable MEDs the comparison is transitive |
| `BestPath.MedCycle` | src/rib4.c:405-492 | three routes over two neighbouring ASes form a cycle |
| `BestPath.ScanBest` | src/rib4.c:818-837 | the loop ends on the route of the reference scan |
| `BestPath.ScanFindsWinner` | src/rib4.c:818-837 | a route that beats all others is found in any order |
| `BestPath.ScanIsBest` | src/rib4.c:818-837 | with comparable MEDs the scan ends on the route that beats all others |
| `BestPath.ScanWithstands` | src/rib4.c:818-837 | with comparable MEDs the scan's route withstands every other route, step by step of the decision |
| `BestPath.OrderIndependentIff` | src/rib4.c:818-837 | the scan is order independent exactly when some route beats all others |
| `BestPath.ComparableIsOrderIndependent` | src/rib4.c:818-837 | with comparable MEDs it is |
| `BestCache.AddStandsIff` | src/rib4.c:949-986 | after an addition the cached best is right exactly when a route that takes over is beaten by none |
| `BestCache.RemoveStandsIff` | src/rib4.c:850-888 | after a removal it is right unless the best was removed and every other route is beaten |
| `BestCache.ReplaceStandsIff` | src/rib4.c:1202-1280 | the same for a replacement, which adds before it removes |
| `BestCache.StaleBest` | src/rib4.c:1245-1268 | a replacement after which the cached best is beaten by a comparable route |
| `BestCache.StandingBestIsRescan` | src/rib4.c:818-837 | a right cached best is what a rescan finds in any order |
| `BestCache.ForwardedIsAnnounced` | src/rib4.c:774-837 | on comparable routes with canonical prefixes the group's best is the best for the exact prefix |
| `Rib4.Rib.SourceIndexAdd` | src/rib4.c:256-320 | lists the entry once under its source, or changes nothing |
| `Rib4.Rib.SourceIndexRemove` | src/rib4.c:322-349 | takes the entry off its source's list and drops an empty list |
| `Rib4.Rib.LpmIndexAdd` | src/rib4.c:890-988 | files the entry in its group, keeps group best and trie in step, or changes nothing |
| `Rib4.Rib.LpmIndexRemove` | src/rib4.c:850-888 | takes the entry out of its group, rescans if it was the best, drops an empty group and its trie key |
| `Rib4.Rib.Find` | src/rib4.c:751-772 | finds the route of a source for a prefix exactly when there is one |
| `Rib4.Rib.BestExact` | src/rib4.c:774-803 | a route for exactly this prefix that withstands every other one, decision step by decision step, when MEDs are comparable |
| `Rib4.Rib.Insert` | src/rib4.c:1202-1280 | the structures keep agreeing, the map gets exactly the stored route, failure changes nothing, cached bests stay right for comparable routes |
| `Rib4.Rib.Withdraw` | src/rib4.c:632-670 | removes exactly the route of that source and prefix, keeping the entry; cached bests stay right for comparable routes |
| `Rib4.Rib.AttachDetached` | src/rib4.c:711-740 | puts an entry back unless its source has another route for the prefix; cached bests stay right for comparable routes |
| `Rib4.Rib.RemoveSource` | src/rib4.c:569-595 | removes all and only the routes of a source and counts them; cached bests stay right for comparable routes |
| `Rib4.Rib.InsertTrackBest` | src/rib4.c:1291-1362 | the reported change turns the old best-route map into the new one; cached bests stay right for comparable routes |
| `Rib4.Rib.WithdrawTrackBest` | src/rib4.c:1401-1462 | the same for a withdrawal; a missing route is no error |
| `Rib4.Rib.WithdrawIfUpdateId` | src/rib4.c:1885-1907 | removes a route exactly if it still has the given update id; cached bests stay right for comparable routes |
| `Rib4.Rib.RestoreIfAbsent` | src/rib4.c:1945-1977 | puts a saved entry back if its key is free, else changes nothing; cached bests stay right for comparable routes |
| `Rib4.Rib.DiscardCollect` | src/rib4.c:1759-1824 | drops all and only a source's routes and reports each prefix whose best changed once: unreachable, or with its new best; cached bests stay right for comparable routes |
| `RibIndex.DiscardReport` | src/rib4.c:1774-1815 | why that report is complete and says nothing else |
| `RibIndex.MirrorOfTrueEvents` | src/fsm.c:2649-2679 | a subscriber that follows true events is right about every prefix they were about |
| `RibIndex.ReportsAddUp` | src/fsm.c:2542-2699 | true reports, by whichever sessions, published in the order of the table changes: following all events gives the best routes of the last table |
| `Publishing.HeardAt` | src/fsm.c:2542-2699 | reports published in any order, some perhaps not at all: a subscriber believes of each prefix what the table had when the last published report about it was made |
| `Publishing.RightIff` | src/fsm.c:2542-2699 | so it is right if and only if for every prefix that report left the best route as it now is |
| `Publishing.PublishedRightIff` | src/fsm.c:2542-2699 | the same of the table and the sessions that change it |
| `Publishing.LastWordSuffices` | src/fsm.c:2542-2699 | it is enough that for every prefix the last published report about it is the last one made |
| `Publishing.OvertakenReport` | src/fsm.c:5058-5065 | two reports published the wrong way round leave the subscriber with a route that is gone |
| `RibIndex.InsertKeepsBests` | src/rib4.c:1202-1280 | a replacement, which adds before it removes, leaves every cached best right when the routes of each group are comparable |
| `RibIndex.SameBests` | src/rib4.c:818-837 | two groupings of the same entries whose cached bests are all right have the same bests |
| `RibIndex.BestWithstands` | src/rib4.c:774-803 | the best route of a prefix withstands every route for it, when their MEDs are comparable |
| `RibIndex.CanonicalOrderly` | src/rib4.c:98-109 | with canonical prefixes groups are exact prefixes, so comparable per prefix is comparable per group |
| `Rib4.Rib.Lookup` | src/rib4.c:1579-1600 | the cached best of the longest matching prefix, which, while cached bests are right, withstands every matching route of that length; not-found exactly when no route matches |
| `Rib4.Rib.LookupScoped` | src/rib4.c:1527-1577 | the longest match among one source's routes, and of equally long comparable ones a route that withstands them all |
| `Rib4.KeepLongest` | src/rib4.c:1527-1577 | why keeping the better of two equally long matches leaves one that none beats |
| `RibIndex.ScopedMatchUnique` | src/rib4.c:1527-1577 | with canonical prefixes that match is unique |
| `UpdateJournal.Journal.RecordWithdraw` | src/fsm.c:1205-1263 | withdraws and journals, or undoes the withdrawal; cached bests stay right for comparable routes |
| `UpdateJournal.Journal.ApplyRoute` | src/fsm.c:2267-2333 | announces and journals, or undoes the insertion and puts the replaced route back; cached bests stay right when the route is comparable with its group |
| `UpdateJournal.ReplacedIsOld` | src/fsm.c:1167-1184 | a displaced route is from before the UPDATE exactly when the journal does not have it |
| `UpdateJournal.Journal.RemoveInsertions` | src/fsm.c:1325-1354 | takes out exactly the journaled insertions still there, whatever else has happened to the table |
| `UpdateJournal.Journal.Rollback` | src/fsm.c:1406-1415 | whatever has happened since: what is not a journaled insertion stays, only saved routes come in, and with memory every saved route has its prefix served; cached bests stay right for comparable routes |
| `UpdateJournal.Journal.RollbackAtOnce` | src/fsm.c:1406-1415 | at once, the table holds exactly the entries it held before the UPDATE, or for want of memory lacks some of the peer's own for prefixes that the UPDATE names |
| `UpdateJournal.NewerRouteStays` | src/rib4.c:1885-1977 | a late rollback neither removes nor replaces a route that is not a journaled insertion |
| `UpdateJournal.RevivedIff` | src/rib4.c:1945-1977 | a late rollback brings an old route back if and only if its key has no newer one |
| `UpdateJournal.LateRollbackRevives` | src/fsm.c:5037-5042 | a late rollback that brings back a route the peer has withdrawn since |
| `UpdateJournal.Journal.Publish` | src/fsm.c:2542-2646 | publishes the journaled events in order |
| `UpdateJournal.ApplyUpdate` | src/fsm.c:2184-2333 | all or nothing: the table of the specification and events that mirror it, or the table as before with the same bests and trie, or for want of memory without some of the peer's routes that the UPDATE names; cached bests stay right either way when the UPDATE's routes are comparable with their groups |
| `UpdateJournal.ReadyTakes` | src/fsm.c:2267-2333 | announcing one prefix of an UPDATE leaves a table that is ready for all of them |
| `UpdateJournal.WelcomesIsReady` | src/fsm.c:2184-2333 | with canonical prefixes, routes comparable per prefix are all that needs |
| `UpdateJournal.AnnounceMeaning` | src/fsm.c:2267-2333 | an announced prefix whose route the filter permits ends with the template's route field by field: that prefix, preference 100 if it had none, a new update id, all else as in the template; nothing else changes |
| `UpdateJournal.WithdrawMeaning` | src/fsm.c:2249-2265 | withdrawn prefixes lose the peer's route, nothing else changes |
| `As4Update.DowngradeCarries` | src/update.c:1089-1155 | downgrading succeeds exactly unless the first long number is inside an AS_SET, and then stands for the path |
| `As4Update.PrependCarries` | src/update.c:578-664 | a two-octet prepend never fails on such a message and puts the number in front of the path it stands for |
| `As4Update.RestoreCarries` | src/update.c:1038-1087 | restoring gives exactly that path, and no AS4_PATH |
| `As4Update.DowngradeMeaning` | src/update.c:1089-1155 | of every message: invalid segments or a cut set fail with their error; else the path is narrowed hop by hop, 23456 for what does not fit, and AS4_PATH is the path from the first such hop on, or gone |
| `As4Update.PrependWide` | src/update.c:578-664 | a four-octet prepend works exactly without AS4_PATH, on a valid four-octet path or with code 2 free, and puts the number in front of the old hops; the error otherwise |
| `As4Update.PrependShort` | src/update.c:578-664 | a short number in front of a two-octet path: when it works, its errors, the new hops, AS4_PATH untouched |
| `As4Update.PrependLong` | src/update.c:578-664 | a long number in front of a two-octet path: 23456 in front of it, and AS4_PATH is the number, the hops before the old AS4_PATH, and that |
| `As4Update.RestoreMeaning` | src/update.c:1038-1087 | of every message: its errors, and the restored path as tail replacement or, if the AS_TRANS places are as many as AS4_PATH has numbers and the tails differ, as filling in order |
| `As4Path.CutsSetMeaning` | src/update.c:769-779 | a place cuts a set exactly if some AS_SET begins before it and ends after it |
| `As4Path.FillSegsMeaning` | src/update.c:894-945 | filling gives hop by hop the k-th given number at the k-th place that says 23456, and keeps all else |
| `As4Path.TransCountMeaning` | src/update.c:825-844 | the number of places that say 23456 |
| `As4Sendable.SegsOkIff` | src/update.c:367-409 | segments can be printed exactly if each is a set or sequence of at most 255 numbers and all numbers fit the form |
| `As4Sendable.DowngradeSends` | src/update.c:1089-1155 | what can be sent can be sent downgraded: type codes, flags and numbers stay acceptable to the printer |
| `As4Sendable.PrependSends` | src/update.c:578-664 | the same for prepending |
| `As4Sendable.RestoreSends` | src/update.c:1038-1087 | the same for restoring |
| `As4Path.ShadowsRestore` | src/update.c:846-892 | the wide tail always matches, so the sparse way of restoring is never taken |
| `As4Update.RelayIsFaithful` | src/update.c:578-1155 | downgrade, any prepends, restore: the same path with the prepended numbers in front, other attributes unchanged |
| `As4Update.DowngradeRefusesSet` | src/update.c:769-779 | a legal path that cannot be downgraded |
| `As4Message.Message.Downgrade` | src/update.c:1089-1155 | the loops compute that function; a failure leaves the message as it was |
| `As4Message.Message.Prepend` | src/update.c:578-664 | the loops compute the function that `As4Update.PrependWide`, `PrependShort` and `PrependLong` describe; a failure leaves the message as it was |
| `As4Message.Message.Restore` | src/update.c:1038-1087 | the same for restoring |
| `As4Message.ValidateSegs` | src/update.c:367-409 | valid exactly when every segment is, with the number of AS numbers |
| `As4Message.FirstShadowIndex` | src/update.c:686-715 | the position of the first long AS number |
| `As4Message.CloneSuffix` | src/update.c:743-823 | the segments from a position on |
| `As4Message.RebuildSuffix` | src/update.c:947-1036 | the first numbers of one path continued by another |
| `As4Message.MatchSuffix` | src/update.c:846-892 | the two-cursor walk decides whether the tails match |
| `As4Message.FillSparse` | src/update.c:894-945 | the places that say AS_TRANS filled in order |
| `Session.NextKeeps` | src/fsm.c:4475-5333 | every step keeps the invariant of flags, sends, hold time and routes |
| `Session.StateChangeRaisesGeneration` | src/fsm.c:4475-5333 | every change of state raises the generation |
| `Session.StaleDoneIsInert` | src/fsm.c:4599-4640 | the end of a send of an older generation changes nothing; an older discard still takes its peer's routes |
| `SessionHistory.EstablishedKeepalives` | src/fsm.c:4599-4943 | in every run, established only after the peer's KEEPALIVE of that attempt, and the local one was sent if and only if the peer's was not handled between the two regions |
| `SessionHistory.EstablishedHasBothKeepalives` | src/fsm.c:4599-4943 | in every run where nothing runs between the two regions, established only after both KEEPALIVEs of that attempt |
| `SessionHistory.EstablishedWithoutKeepalive` | src/fsm.c:4828-4848 | for every configuration and acceptable OPEN, a run that ends established with no caller left and the local KEEPALIVE never sent |
| `SessionHistory.GapIsFinal` | src/fsm.c:4838-4848 | after a KEEPALIVE handled between the two regions the local one of that attempt is never sent |
| `SessionHistory.EstablishedOpens` | src/fsm.c:4475-4882 | in every run an established attempt was entered in one of two ways; a passive one has sent its OPEN, an active one has not if and only if the peer answered early and the send did not then succeed |
| `SessionHistory.EstablishedAfterFailedOpen` | src/fsm.c:4475-4538 | for every configuration and acceptable OPEN, a run that is established while its own OPEN is being sent and stays so when that send fails |
| `Session.HoldTimeIsSane` | src/fsm.c:701-721 | in every run the hold time in force is the smaller of the two offers, 0 exactly if one is 0, and at least 3 otherwise; the keepalive interval is the longest that fits three times into it and is not above the configured one |
| `SessionLife.StepLife` | src/fsm.c:4884-5322 | a step ends a running handshake or session exactly if it is harmful, and otherwise leaves it on its terms |
| `SessionLife.StepBegins` | src/fsm.c:4642-4880 | outside one, a step begins a handshake exactly if it is an OPEN with version 4, an acceptable hold time and id, the expected AS number, a sound configuration and no lost collision, and then on its terms |
| `SessionLife.AliveIff` | src/fsm.c:4642-5322 | in every run a handshake or session is alive exactly if some step began it and no later one was harmful; its peer, AS number and hold time are those of that OPEN |
| `SessionTimers.TimersAreEvents` | src/fsm.c:5228-5322 | in every run the timer fields are the times of the last accepted message, the last finished KEEPALIVE and the last tick |
| `SessionTimers.AliveIsHeard` | src/fsm.c:5255-5279 | wherever a run stands, if the hold time is positive and the attempt has had a tick, the peer was heard less than a hold time ago, where the attempt's first tick counts as hearing it |
| `SessionTimers.TickExpiresExactly` | src/fsm.c:5255-5279 | in every run a tick ends a handshake or session exactly when a hold time has passed since the last accepted KEEPALIVE or UPDATE, or the attempt's first tick |
| `SessionTimers.SurvivingTick` | src/fsm.c:5255-5322 | in every run, what survives a tick was heard within the hold time and sent a KEEPALIVE within the interval or begins one; once sent, the interval starts at that tick |
| `SessionTimers.SilentPeerIsDropped` | src/fsm.c:5255-5279 | in every run, confirming or established, a peer that stays silent for a hold time is dropped whatever else happens |
| `SessionRoutes.RoutesAreEvents` | src/fsm.c:2649-2739 | in every run a peer's routes are exactly what it has last told for each prefix, less what discards and rollbacks have taken since |
| `SessionRoutes.MissingMeaning` | src/fsm.c:2649-2739 | a prefix is missing if and only if some discard or rollback took it and no applied UPDATE has named it since |
| `SessionRoutes.KeepsIff` | src/fsm.c:2649-2739 | the table has all that a peer told if and only if nothing of it is missing |
| `SessionRoutes.NoRoutesOutsideEstablished` | src/fsm.c:2649-2739 | in every run, outside ESTABLISHED only peers with a pending discard have routes; none is left if and only if all that such peers told is missing, and so once no discard is pending |
| `SessionRoutes.LateDiscardLosesRoutes` | src/fsm.c:5255-5279 | for every configuration, acceptable OPEN and route, a run that ends established with the route it has just learnt gone |
| `SessionRoutes.LossIff` | src/fsm.c:2649-2739 | while rollbacks have memory, an established session can come to lack what its peer told if and only if a discard of its own peer is pending |
| `SessionRoutes.CalmKeeps` | src/fsm.c:2649-2739 | however it goes on, a session has exactly what its peer told if no discard of its peer is pending and rollbacks have memory |
| `SessionRoutes.ShortMemoryLoses` | src/fsm.c:1356-1415 | every established session can come to lack what its peer told, without any discard, by a rollback short of memory |
| `SessionRoutes.ShortMemoryLosesRoutes` | src/fsm.c:1356-1415 | the same as a run from rest, for every configuration, acceptable OPEN and route |
| `Collision.CollisionOutcome` | src/fsm.c:3706-3775 | which of two colliding sessions goes on, by router id; exactly one when ids lie on one side |
| `Collision.OneConfirmationPerPeer` | src/fsm.c:3706-3775 | in every run of any number of sessions from rest at most one confirms any peer, if no OPEN received in it comes from a peer over which the configurations clash |
| `Collision.MixedIdsKeepBoth` | src/fsm.c:3706-3775 | from rest, among any sessions, two whose local ids lie on different sides of the peer's both end up confirming it |
| `Collision.ConfirmTwiceIff` | src/fsm.c:3706-3775 | some run from rest has two sessions confirming one peer if and only if the configurations clash over some peer |
| `Collision.OneSpeakerNeverClashes` | src/fsm.c:3706-3775 | sessions with one local id never clash |
| `Fsm.Fsm.TearDown` | src/fsm.c:2701-2739 | the teardown step, and whether the peer's routes are to be discarded; the table is not touched |
| `Fsm.Fsm.DiscardPeer` | src/fsm.c:2649-2699 | drops exactly the peer's routes even if collecting the report fails; the events mirror the new best routes; cached bests stay right for comparable routes |
| `Fsm.Fsm.DiscardDone` | src/fsm.c:5272-5279 | takes the step that ends a pending discard: exactly that peer's routes go, mirrored by the events; cached bests stay right for comparable routes |
| `Fsm.Fsm.Start` | src/fsm.c:4475-4525 | takes the start step |
| `Fsm.Fsm.StartDone` | src/fsm.c:4523-4537 | takes the step that ends the OPEN of an active attempt |
| `Fsm.Fsm.EnterPreOpen` | src/fsm.c:4431-4463 | takes that step, and refuses outside the states before OPEN |
| `Fsm.Fsm.Reset` | src/fsm.c:4540-4582 | takes the reset step and says whether the peer's routes are to be discarded; the table is not touched |
| `Fsm.Fsm.OnOpen` | src/fsm.c:4642-4814 | takes the step for an OPEN that may start a confirmation, with its error |
| `Fsm.Fsm.ActiveKeepDone` | src/fsm.c:4723-4740 | takes the step that ends the KEEPALIVE of an active attempt |
| `Fsm.Fsm.PassiveOpenDone` | src/fsm.c:4824-4837 | takes the step that ends the OPEN of a passive attempt |
| `Fsm.Fsm.PassiveGapDone` | src/fsm.c:4838-4848 | takes the step of the second locked region, and says whether a KEEPALIVE is to be sent |
| `Fsm.Fsm.PassiveKeepDone` | src/fsm.c:4849-4882 | takes the step that ends its KEEPALIVE |
| `Fsm.Fsm.OnOpenConfirm` | src/fsm.c:4884-4943 | takes the step for a packet in OPEN_CONFIRM |
| `Fsm.Fsm.OnUpdate` | src/fsm.c:4986-5069 | takes the step for an UPDATE; applied, the table is the specification's; refused or rolled back, it is as before, or for want of memory without some of the peer's routes that the UPDATE names; the step says which; with events and cached bests to match |
| `Fsm.Fsm.OnEstablished` | src/fsm.c:4964-4985 | takes the step for any other packet in ESTABLISHED and says whether the peer's routes are to be discarded; the table is not touched |
| `Fsm.Fsm.OnBadBytes` | src/fsm.c:5205-5225 | takes the teardown step for bytes that do not parse and says whether the peer's routes are to be discarded; the table is not touched |
| `Fsm.Fsm.OnPacket` | src/fsm.c:5071-5146 | takes the step for a packet in any state and says whether the peer's routes are to be discarded; the table is not touched |
| `Fsm.Fsm.OnCollision` | src/fsm.c:3706-3740 | takes the step for a collision notice, and says whether this session answers it |
| `Fsm.Fsm.Tick` | src/fsm.c:5228-5292 | takes the tick step; tells the caller exactly when to send a KEEPALIVE and when to discard the peer's routes |
| `Fsm.Fsm.TickDone` | src/fsm.c:5294-5322 | takes the step that ends the tick's KEEPALIVE and says whether the peer's routes are to be discarded; the table is not touched |
| `Fsm.Fsm.AdvertiseDone` | src/fsm.c:3641-3704 | takes the step that ends advertising the table and says whether the peer's routes are to be discarded; the table is not touched |
| `Fsm.Fsm.NoPeerRoutes` | src/fsm.c:2649-2739 | outside ESTABLISHED the table holds no route of any source that others do not write and that has no discard pending |
| `Fsm.Fsm.TableIsTold` | src/fsm.c:2649-2739 | of every source that others do not write, the table has exactly what the UPDATEs in the object's life have told, less what discards and rollbacks short of memory have taken since |
| `PeerTable.UpdateMeans` | src/fsm.c:2249-2333 | applying an UPDATE to the table is its withdrawals, then its permitted announcements, on the peer's routes: per prefix the template's route with preference 100 for none, nothing, or what was there |
| `PeerTable.LossMeans` | src/fsm.c:1356-1415 | entries of one source that are gone are exactly those prefixes gone from its routes |
| `PeerTable.DiscardMeans` | src/fsm.c:2649-2699 | discarding a source takes exactly its routes from the table |
| `Fsm.Fsm.OthersMayWrite` | src/fsm.c:2649-2739 | a session stays valid when others change the routes of their own sources and leave its own alone |
| `Framing.Compose` | src/sink.c:207-255 | looking at the first bytes early makes no difference unless it fails |
| `Framing.SplitIndependent` | src/sink.c:312-336 | a stream that settles gives the same packets and leaves the same bytes however it is cut, errors included |
| `Framing.CutFreeIff` | src/sink.c:207-336 | packets and rest are independent of the cut if and only if the stream settles: good frames, then an incomplete one, a bad header with no byte behind it, or an unparsable frame with an incomplete one behind it |
| `Framing.UnsettledCut` | src/sink.c:207-336 | a cut that changes the outcome of any other stream |
| `Framing.GoodStreamSettles` | src/sink.c:207-255 | every stream that frames without an error settles |
| `Framing.RestIsShort` | src/sink.c:207-255 | fewer bytes than a packet can have are left, and they hold no further packet |
| `Framing.BadHeaderDependsOnSplit` | src/sink.c:217-228 | one stream and two cuts of it that deliver different packets: a bad header drops whatever was fed with it |
| `Framing.FrameMeaning` | src/sink.c:207-255 | framing is the only way to cut the stream into whole packets, each with sixteen octets 0xff and its own length between 19 and 4096, and a place to stop: an incomplete packet, a bad header, or one the parser refuses |
| `Framing.ContinuesIff` | src/sink.c:207-255 | framing loses bytes if and only if it ends in an error: otherwise whatever comes next is framed as if all bytes were still there |
| `Framing.StarvedParserLosesFrame` | src/sink.c:238-242 | a frame that gives a packet is lost for good when the parser runs out of memory |
| `Sink.Sink.ReserveBuf` | src/sink.c:71-129 | makes room by compacting or growing and keeps bytes and queue |
| `Sink.Sink.ReservePackets` | src/sink.c:131-169 | a larger ring holds the same queue, straightened out |
| `Sink.Sink.Feed` | src/sink.c:312-336 | packets, bytes and error are those of framing old bytes and new, errors before or not; out of memory, the bytes were not taken, or wait in the buffer, or were dropped by a parser's own out-of-memory error; bytes taken in are lost if and only if framing ended in an error |
| `Sink.Sink.Pop` | src/sink.c:351-375 | hands out the oldest packet |
| `Wire.ParseWritten` | src/prefix4.c:51-123 | printing then parsing a prefix clears its host bits and uses exactly what was printed |
| `Wire.WriteParsed` | src/prefix4.c:51-123 | parsing then printing a prefix gives the same bytes with host bits cleared |
| `Wire.ParseWrittenList` | src/update.c:1236-1269 | the same for lists, printing first |
| `Wire.WriteParsedList` | src/update.c:1428-1448 | the same for lists, parsing first |
| `Wire.ReadPrefixes` | src/update.c:1236-1269 | the parsing loop computes the list or its first error |
| `Wire.ClearHostsNormalizes` | src/prefix4.c:69-79 | clearing host bits on the wire is the table's normalisation |
| `AttrCodec.SegsRound` | src/pattr.c:495-589 | parsing printed segments gives them back, if none is empty |
| `AttrCodec.SegsBytes` | src/pattr.c:1047-1068 | printing parsed segments gives the same bytes |
| `AttrCodec.ReadSegs` | src/pattr.c:512-541 | the parsing loop computes the segments or their first error |
| `AttrCodec.ValueRound` | src/pattr.c:1121-1225 | printing then parsing a value of any known type gives it back with host bits cleared; which octets stand for which value is `UpdateLayout.ValueMeaning` |
| `AttrCodec.ValueBytes` | src/pattr.c:785-862 | parsing then printing a value gives the same bytes with host bits cleared; which value they stand for is `UpdateLayout.ValueMeaning` |
| `UpdateCodec.AttrRound` | src/pattr.c:1227-1264 | printing then parsing an attribute gives it back if and only if it has no empty segment, the session's width, and would not be taken for a known one |
| `UpdateCodec.AttrBytes` | src/pattr.c:743-880 | parsing then printing an attribute gives the same bytes with host bits cleared |
| `UpdateCodec.ReadAttrs` | src/update.c:1271-1308 | the parsing loop computes the attributes or the first error, a repeated type code included |
| `UpdateMessage.FindFaults` | src/update.c:220-278 | the one-pass check finds the first faulty and the first repeated attribute |
| `UpdateMessage.UpdateRound` | src/update.c:1450-1520 | parsing a printed message gives it back, up to host bits and the extended-length flag, if and only if each attribute comes back |
| `UpdateMessage.ReadComesBack` | src/update.c:1310-1372 | the attributes of a parsed message come back |
| `UpdateMessage.UpdateBytes` | src/update.c:1310-1372 | printing a parsed message gives bytes of the same length, the same apart from cleared host bits |
| `UpdateMessage.ParsedPrefixesAreCanonical` | src/update.c:1310-1372 | the prefixes of a parsed message are canonical |
| `WireLayout.SegsMeaning` | src/pattr.c:495-589 | the parser accepts exactly segments one after the other: kind 1 or 2, a count that is not 0, and big-endian numbers of two or four octets |
| `WireLayout.SegsFaultMeaning` | src/pattr.c:495-589 | and otherwise fails with the error of the first segment that cannot be read |
| `WireLayout.PrefixesMeaning` | src/update.c:1236-1269 | the parser accepts exactly prefixes one after the other: a length in bits, as many octets as hold them, an address with those bits and zeros behind |
| `WireLayout.PrefixesFaultMeaning` | src/update.c:1236-1269 | and otherwise fails with the error of the first prefix that cannot be read |
| `UpdateLayout.ValueMeaning` | src/pattr.c:14-44 | what the octets of a value stand for, for each of the twelve type codes and all others, and with which error they are refused |
| `UpdateLayout.FlagsMeaning` | src/pattr.c:166-199 | the flag octets each type code may have, listed |
| `UpdateLayout.AttrMeaning` | src/pattr.c:743-880 | an attribute is flags, code, a length of one or two octets by bit 0x10, and a value; else the error |
| `UpdateLayout.AttrsMeaning` | src/update.c:1271-1308 | the attribute loop accepts exactly attributes of different types one after the other |
| `UpdateLayout.AttrsFaultMeaning` | src/update.c:1271-1308 | and otherwise fails at the first that is faulty or repeats a type |
| `UpdateLayout.ValidateMeaning` | src/update.c:220-294 | validation passes exactly if every attribute is sound, none repeats and what is announced has ORIGIN, AS_PATH and, for IPv4, NEXT_HOP; else which error |
| `UpdateLayout.UpdateMeaning` | src/update.c:1310-1372 | the parser gives a message exactly if the bytes are laid out as that message |
| `UpdateLayout.UpdateFaultMeaning` | src/update.c:1310-1372 | and otherwise the error of the first fault, part by part |
| `UpdateLayout.WrittenIsLaid` | src/update.c:1450-1520 | what the printer writes is laid out as the message that comes back |
| `RouteTemplate.BuildView` | src/attr_view.h:29-71 | the view holds the first attribute of each type code |
| `RouteTemplate.ByCodeMeaning` | src/attr_view.h:46-54 | that attribute has the code and none before it does; none exactly if no attribute has it |
| `RouteTemplate.CountHops` | src/fsm.c:1439-1472 | the loop computes the path length |
| `RouteTemplate.PathLenMeaning` | src/fsm.c:1439-1472 | the path length is the number of hops: every place of a sequence, and one for each set |
| `RouteTemplate.FillRoute` | src/fsm.c:1836-1872 | the route is filled from the view |
| `RouteTemplate.FilledCarries` | src/fsm.c:1836-1872 | preference only from an internal peer and else 100, path length in hops, origin and MED are those of the attributes, 0 for no MED |
| `RouteTemplate.BytesToTable` | src/fsm.c:2267-2333 | an UPDATE's bytes, parsed, filled in and announced, put in the table for each permitted prefix the route whose fields the bytes give |
| `Filter.AttrState.Add` | src/attr_view.h:29-44 | the table stays a description of the attributes seen |
| `Filter.AsnAgrees` | src/filter.c:261-275 | without repeated or mismatched codes the table's AS test is the scan's |
| `Filter.CommunityAgrees` | src/filter.c:277-290 | the same for communities |
| `Filter.OriginAgrees` | src/filter.c:292-308 | the same for the origin AS when paths are of one type |
| `Filter.HasAsn` | src/filter.c:261-275 | on every attribute list the test is a scan by type |
| `Filter.HasCommunity` | src/filter.c:277-290 | the same |
| `Filter.FindOrigin` | src/filter.c:292-308 | the same |
| `Filter.LastMatchDecides` | src/filter.c:497-525 | the last matching rule decides when each matching rule overrides the ones before |
| `Filter.MatchesMeaning` | src/filter.c:310-374 | what each kind of rule asks: the bits of the prefixes, a number in some segment, the last number of the last sequence of the first path that has one, a community value |
| `Filter.DecideMeaning` | src/filter.c:497-525 | a route is permitted exactly if the last rule that asks for it permits it, or none asks and the default does |
| `Filter.RouteFilter.Apply` | src/filter.c:497-525 | the backward search gives that decision |

## Left out

- The IPv6 routing table and trie, and the IPv6 half of the journal and of filters: the same algorithms at 128 bits.
- OPEN, capability, NOTIFICATION, KEEPALIVE and packet-header codecs; parsing one packet is a parameter of the sink.
- Output handlers, sockets, logging, text formatting and the event bus beyond delivering collision notices.
- Sessions with collision detection switched off; `Collision` has it on everywhere.
- Which NOTIFICATION a session sends, and the error codes of its packet handler beyond those for an OPEN.
- Locks, reference counts, destroying a session and the dispatch of state-change callbacks; a step is atomic. Rolling back a failed UPDATE, which the code does after giving up the lock, is part of its step; what a later rollback does is said of the journal alone. Publishing is no step: `Publishing` has any order and any omission instead.
- Wrap-around of 64-bit update ids and generations, and size computations that overflow the address space.
- Next-hop rewriting, advertisement of the table to a new peer, the limit on the local AS in a path, and configuration setters; whether an UPDATE is refused is an input of the session model.
- Downgrade and restore of AGGREGATOR, which change one number.
- Capacities of growable arrays: an append may fail whenever memory is not plentiful. The per-source and per-prefix indexes are finite maps rather than hash maps of their own, and lists in the routing table are sequences.
- Reference counting of attributes and aliasing between messages that share them; attribute lists are values.
- Writing into a caller's buffer: the printers return the bytes, and the buffer size is only compared with their number.
- Route fields that neither the comparison nor the filters read.
- SessionRoutes.LossIff: leaves out runs with a rollback short of memory, by which every established session can lose routes (`SessionRoutes.ShortMemoryLoses`).
- SessionTimers.AliveIsHeard: says nothing of an attempt without a hold time or before its first tick, when the code keeps no time.
- Rib4.Rib.Lookup: says that no matching route of that length beats the result only while cached bests are right; BestCache says exactly when they are.
- Rib4.Rib.AttachDetached: like every table operation, promises that cached bests stay right while the MEDs of each group are comparable; for other routes BestCache says exactly when they do.
- UpdateJournal.ApplyUpdate: the event stream is proved to mirror the best routes when the MEDs of the routes it meets are comparable.
