# OpenOffload session and tunnel tables: a verified model

OpenOffload lets a firewall hand established sessions, and IP tunnels, to an offload
device over gRPC. This project models the four places where the repository keeps state
of its own, and proves what each is for.

**The hash table under the C session server** (`uthash.h`). Every record sits on two
linked structures at once: the application-order list, and the chain of the bucket its
hash selects. Nodes are objects with four links and buckets are an array, updated in
place as the macros do; ghost sequences say what the list and the chains hold. For any
sequence of adds, deletes and finds, and any hash function, the table refines an ordered
sequence of records and the map it indexes. Bucket expansion is followed link by link,
with its accounting in closed form, and so is the bottom-up merge sort, whose result is
shown to be the one stable sorted arrangement. The header's own integrity check is
modelled as it is written and shown to be exact.
(`Bits`, `Seqs`, `Redistribution`, `Links`, `Expansion`, `MergeSort`, `ListSort`,
`UtHash`, `TableSpec`, `TableRuns`)

**The C session server and its clients** (`opof_server_test.c`,
`opof_session_server.cc`, `opof_session_client.cc`, `opof_run_tests.c`). The server is a
class around that table with its static paging cursor. The client loops run against it:
the clean-up that deletes the very records the cursor has walked past, adding in chunks,
the destructive paged drain, and paging. Two loops do not do what they promise for every
id, and the exact conditions are theorems: `CleanupSpec.EmptiesIff` and
`PagingSpec.PagingEndsIff`. Writes past the 64-entry arrays are an outcome of their own,
with its exact condition, and the cursor is followed over any sequence of requests.
(`SessionSpec`, `Chunking`, `DrainSpec`, `PagingSpec`, `CleanupSpec`, `AddLoopSpec`,
`SessionServer`, `SessionClient`, `CursorRuns`)

**The firewall and the offload device of the Python simulators**
(`fw_sessions_client_simulator.py`, `nos_sessions_server_simulator.py`). A transition
system whose steps are one firewall batch, one visit of the traffic process to one
record, one collection of closed sessions, or one explicit delete. Invariants hold over
every interleaving and every table size. The handlers of both parties are classes, proved
against the steps.
(`Device`, `DeviceRuns`, `DeviceAdds`, `DeviceServer`, `Protocol`, `Conservation`, `FirewallClient`)

**Tunnel chain reconstruction and statistics batching** (`tunnels_server.py`). The
one-pass summary is compared with the match graph: `TunnelChains.SummaryRightIff` gives
the exact class of tables it gets right, and what is right is shown to be unique.
`TunnelFailures.SummaryFailsIff` says, for every table, when it fails, at which tunnel and
with what; `TunnelSummary.SummaryIs` says, for every table, what it holds when it does not.
(`TunnelSpec`, `TunnelChains`, `TunnelFailures`, `TunnelSummary`, `TunnelServer`)

## How to read it

- A `...Spec` module, `Device` and `Protocol` hold functions on values that say what one
  operation or one loop does, and lemmas about them. The classes carry the loops and
  field updates of the source, and each method's `ensures` ties its new state to those
  functions.
- `HashTable.Valid` is the table's invariant. `Homed` (in `Redistribution`) says that
  every element is in exactly one chain, the one its hash selects; `GrowthOk` ties the
  growth counters to `history`, which records for each expansion whether it was
  ineffective.
- One RPC is atomic and succeeds. Clocks, random counters and random addresses are
  parameters. The hash is an arbitrary function of the key.
- Verify with `dafny verify dfyconfig.toml`.

## Where the code and its promise part

- The session table holds 1001 records, not `HASHTABLE_SIZE`, because the test is
  `> 1000` (`opof_server_test.c:155`).
- New records enter the C server's table closed, so a drain reports everything that was
  added (`opof_server_test.c:182`).
- `opof_delete_all_sessions` keeps ids in an `int`; it empties the table if and only if
  every id survives that, and otherwise leaves the others in place.
- The start key that resets the paging cursor is also a possible id. The paging loop never
  ends when a page ends on it.
- The C server pages by 64 whatever page size is asked for.
- The server writes a drain's reply, and the client an add's errors, into arrays of 64
  without a check. A drain overruns exactly when its page size is not 1 to 64 and more than
  64 records are closed (`SessionServer.Server.GetClosedSessions`); the adding loop exactly
  when some stream has more than 64 rejected requests (`SessionClient.AddInChunks`).
- A drain or a delete can free the record the paging cursor stands on. Continuing the
  paging then follows a freed record, exactly when no page was asked for from the start in
  between (`CursorRuns.FreedIff`, `DefinedIff`).
- The firewall's id allocator wraps only when its start equals the maximum on entry. A
  first batch of more than 999000 sessions, and no shorter one, is given ids above the
  maximum (`Protocol.IdsPassMaximum`, `FirstBatchPassesIff`).
- The device runs its slot allocator, and moves its start, even for a request it is about
  to refuse as a duplicate.
- The tunnel summary is wrong for tables created out of order. The condition is weaker
  than "every matched tunnel was created earlier": a tunnel that matches none may come
  after the one matching it (`TunnelChains.SummaryRightIff`, `OutOfOrder`).
- It passes over a tunnel that an earlier one matches, and with it the check that the
  tunnel's own match exists; and it fails when a tunnel matches one whose first chain is a
  pair that also matches on addresses. `TunnelFailures.SummaryFailsIff` gives both
  conditions exactly, with `MissingMatchPassed` and `PairBreaks` as witnesses.

## Model

| member | source | states |
|---|---|---|
| UtHash.HashTable.constructor | openoffload/cpp/framework/include/uthash.h:220-250 | a table starts empty and valid: no head, no element |
| UtHash.HashTable.MakeTable | openoffload/cpp/framework/include/uthash.h:220-250 | a new table has 32 empty buckets, all with multiplier 0, no expansion behind it, and its first element as tail |
| UtHash.HashTable.Add | openoffload/cpp/framework/include/uthash.h:404-423 | adding an absent key keeps every link, count and chain right, appends the element at the tail, and expands the table exactly when its bucket is due, with exact accounts; a first element starts a table of 32 buckets; an add that is not due leaves the number of buckets, the multipliers and the accounts as they were |
| UtHash.HashTable.AppendList | openoffload/cpp/framework/include/uthash.h:286-292 | the list is relinked with the new element last, tail included |
| UtHash.HashTable.AddToTable | openoffload/cpp/framework/include/uthash.h:345-353 | the element is filed in the chain of its hash, and the table expands exactly when that bucket is due and expansion is not inhibited; otherwise sizes, multipliers and accounts are as they were |
| UtHash.HashTable.PushOnBucket | openoffload/cpp/framework/include/uthash.h:777-786 | the element is in front of the chain its hash selects, and the bucket counts it |
| UtHash.HashTable.AddInorder | openoffload/cpp/framework/include/uthash.h:358-389 | the element goes just before the first one that compares greater, in the front, middle and end cases, with head, tail and links right; the same growth as an add at the tail |
| UtHash.HashTable.InsertList | openoffload/cpp/framework/include/uthash.h:294-301 | the search loop and the three splicing cases give that position |
| UtHash.HashTable.SpliceBefore | openoffload/cpp/framework/include/uthash.h:375-382 | splicing before an element repairs its neighbours, or the head |
| UtHash.InsertPosIs | openoffload/cpp/framework/include/uthash.h:294-301 | the place of an in-order add is the only one with no greater element before it and a greater one, or the end, at it |
| UtHash.InorderKeepsSorted | openoffload/cpp/framework/include/uthash.h:358-389 | an in-order add into a sorted list keeps it sorted and comes after every element that compares equal |
| UtHash.HashTable.FindByHashValue | openoffload/cpp/framework/include/uthash.h:161-171 | finds an element with the key if and only if there is one, for any hash function |
| UtHash.FindInBkt | openoffload/cpp/framework/include/uthash.h:755-775 | walking one chain finds the key if and only if it is there |
| UtHash.HashTable.Delete | openoffload/cpp/framework/include/uthash.h:458-485 | removes exactly that element, keeps the order of the rest and every invariant, in the head, tail, middle and last-element cases; sizes, multipliers and accounts are as they were unless the table is emptied |
| UtHash.HashTable.DeleteShared | openoffload/cpp/framework/include/uthash.h:467-483 | the branch that leaves other elements behind |
| UtHash.HashTable.UnlinkList | openoffload/cpp/framework/include/uthash.h:469-479 | head, tail and neighbours after the list is patched |
| UtHash.HashTable.UnlinkBucket | openoffload/cpp/framework/include/uthash.h:480-481 | the element leaves the chain its hash selects, found from the hash and the bucket count; the multipliers stay |
| UtHash.HashTable.ExpandBuckets | openoffload/cpp/framework/include/uthash.h:843-893 | twice the buckets, every element in exactly one new chain in a stated order, exact ideal length, non-ideal count and multipliers, exact inhibition |
| UtHash.Doubled | openoffload/cpp/framework/include/uthash.h:849-880 | the new bucket array holds, at b, what the old chain b mod n held for it, and its accounts are exact |
| UtHash.IdealChainMaxlen | openoffload/cpp/framework/include/uthash.h:856-858 | the shift-and-mask expression is the ceiling of n / 2b |
| UtHash.HashTable.JudgeExpansion | openoffload/cpp/framework/include/uthash.h:885-890 | an expansion is ineffective when over half the items sit beyond the ideal; two in a row inhibit expansion |
| UtHash.NoexpandIff | openoffload/cpp/framework/include/uthash.h:882-890 | for a table's record of its expansions, kept by every add and delete: inhibited if and only if the last two were ineffective, and 32 times 2 to their number of buckets |
| UtHash.HashTable.Sort | openoffload/cpp/framework/include/uthash.h:900-982 | sorting relinks the list, head and tail only, to the merge sort of the old order; chains and buckets are not in its frame, and the table stays valid |
| UtHash.HashTable.SortList | openoffload/cpp/framework/include/uthash.h:900-982 | the list after the sort, with both link directions |
| UtHash.HashTable.Fsck | openoffload/cpp/framework/include/uthash.h:524-571 | the header's own check passes if and only if every back link, every bucket count and both item counts are right |
| UtHash.WalkChain | openoffload/cpp/framework/include/uthash.h:531-543 | the check of one chain passes if and only if its back links are right |
| UtHash.WalkList | openoffload/cpp/framework/include/uthash.h:554-565 | the check of the list passes if and only if its back links are right |
| UtHash.HashTable.ValidPassesFsck | openoffload/cpp/framework/include/uthash.h:524-571 | a table kept by the operations always passes the header's check |
| UtHash.HashTable.Count | openoffload/cpp/framework/include/uthash.h:1077 | the item count is the length of the list |
| Links.LinkFront | openoffload/cpp/framework/include/uthash.h:781-786 | an element threaded in front of a chain |
| Links.Unlink | openoffload/cpp/framework/include/uthash.h:803-811 | an element taken out of a chain, wherever it stands |
| Links.AddToBucket | openoffload/cpp/framework/include/uthash.h:777-786 | bucket count and chain after a push, all other buckets untouched |
| Links.DelInBucket | openoffload/cpp/framework/include/uthash.h:799-812 | bucket count and chain after a removal, all other buckets untouched |
| Expansion.MoveNode | openoffload/cpp/framework/include/uthash.h:866-877 | moving one element keeps the running non-ideal count and multiplier exact |
| Expansion.AccountsPush | openoffload/cpp/framework/include/uthash.h:866-871 | the accounts after one more element |
| Expansion.RehashOne | openoffload/cpp/framework/include/uthash.h:863-878 | the inner loop's body moves one element to its new bucket |
| Expansion.RehashChain | openoffload/cpp/framework/include/uthash.h:861-879 | a whole old chain is moved, in order, although the links it follows are being rewritten |
| Expansion.RehashAll | openoffload/cpp/framework/include/uthash.h:860-880 | all old chains are moved, in bucket order |
| Redistribution.ExpansionPreserves | openoffload/cpp/framework/include/uthash.h:843-893 | doubling loses and duplicates nothing: each element is in exactly one chain, items of old bucket i land only in i or i + b, and the order inside a new chain is the reverse of the old |
| Redistribution.DistIsReversedFilter | openoffload/cpp/framework/include/uthash.h:860-880 | a chain filled by pushing is the reverse of the elements that hash to it |
| Redistribution.DistHomed | openoffload/cpp/framework/include/uthash.h:860-880 | distributing by hash puts each element in exactly one chain, the right one |
| Redistribution.PushHomed | openoffload/cpp/framework/include/uthash.h:777-786 | pushing a new element on its chain keeps every element in exactly one chain |
| Redistribution.RemoveHomed | openoffload/cpp/framework/include/uthash.h:799-812 | so does removing one |
| Redistribution.ExcessPush | openoffload/cpp/framework/include/uthash.h:866-867 | the non-ideal count of all chains grows by one exactly when the pushed chain is beyond the ideal |
| Redistribution.ExpandMultStep | openoffload/cpp/framework/include/uthash.h:866-871 | the multiplier's step, as the macro computes it, matches its closed form |
| Redistribution.ExpandMultBounds | openoffload/cpp/framework/include/uthash.h:866-871 | multiplier 0 if and only if the count is within the ideal, else (m - 1) I < count <= m I + 1 |
| Bits.MaskIsMod | openoffload/cpp/framework/include/uthash.h:438-441 | masking with 2^k - 1 is the remainder |
| Bits.ShiftMaskCeil | openoffload/cpp/framework/include/uthash.h:856-858 | shift plus a mask test is the rounded-up quotient |
| Bits.SplitMod | openoffload/cpp/framework/include/uthash.h:864 | a hash modulo 2b lands in i or i + b when it lands in i modulo b |
| MergeSort.SortIsStable | openoffload/cpp/framework/include/uthash.h:900-982 | for any total preorder the result is sorted and a stable permutation |
| MergeSort.SortPermutes | openoffload/cpp/framework/include/uthash.h:900-982 | for any comparator at all the result is a permutation |
| MergeSort.StableSortUnique | openoffload/cpp/framework/include/uthash.h:900-982 | there is only one sorted stable arrangement, so the two properties determine the result |
| MergeSort.MergeSorted | openoffload/cpp/framework/include/uthash.h:927-967 | a merge of two sorted runs is sorted |
| MergeSort.MergeStable | openoffload/cpp/framework/include/uthash.h:927-967 | a merge keeps elements that compare equal in order, left run first |
| MergeSort.PassRuns | openoffload/cpp/framework/include/uthash.h:914-969 | one pass turns sorted runs of k into sorted runs of 2k |
| MergeSort.PassStable | openoffload/cpp/framework/include/uthash.h:914-969 | one pass keeps elements that compare equal in order |
| ListSort.MergeRuns | openoffload/cpp/framework/include/uthash.h:926-967 | the relinking loop builds the merge of its two runs |
| ListSort.FindRight | openoffload/cpp/framework/include/uthash.h:916-925 | counting off the left run finds where the right one starts |
| ListSort.MergePass | openoffload/cpp/framework/include/uthash.h:910-972 | one pass over the list, with its merge count |
| ListSort.SortNodes | openoffload/cpp/framework/include/uthash.h:900-982 | the doubling passes stop after at most one merge, with the list sorted and both link directions repaired |
| TableRuns.Find | openoffload/cpp/framework/include/uthash.h:173-181 | the find macro answers what the ordered sequence of records answers |
| TableRuns.AddRecord | openoffload/cpp/framework/include/uthash.h:404-436 | an add is an append to the sequence of records, and an expansion exactly when due |
| TableRuns.DeleteNode | openoffload/cpp/framework/include/uthash.h:455-485 | a delete is the removal of the record with that id |
| TableRuns.Apply | openoffload/cpp/framework/include/uthash.h:404-485 | one guarded operation refines its specification; the table grows only as an expansion does, and its record of expansions with it; a table never expanded keeps 32 buckets, and goes to 64 exactly with the add that brings a bucket to 10 |
| TableRuns.Run | openoffload/cpp/framework/include/uthash.h:404-485 | any sequence of adds, deletes and finds refines the ordered sequence, answer by answer; over the trace of the run, a table is inhibited if and only if the last two expansions of its life were ineffective, its size counts them, and an inhibited one keeps its size until it is emptied; at every moment a table not expanded in its life has 32 buckets with fewer than 10 records each, and its first expansion, to 64, is the add that brings one to 10 |
| TableRuns.FirstExpansion | openoffload/cpp/framework/include/uthash.h:777-790 | a table with no expansion behind it has 32 buckets, fewer than 10 records hashing to each, and an add expands it if and only if 9 records share its bucket already |
| TableRuns.ChainIsLoad | openoffload/cpp/framework/include/uthash.h:438-441 | a chain is as long as the number of the table's records that hash to its bucket |
| TableSpec.LookupIsMap | openoffload/cpp/framework/include/uthash.h:161-171 | looking up in the sequence is looking up in the map of its records |
| TableSpec.AddIsMap | openoffload/cpp/framework/include/uthash.h:404-423 | an append of an absent id is a map insertion |
| TableSpec.RemoveIsMap | openoffload/cpp/framework/include/uthash.h:458-485 | a removal is a map removal |
| SessionServer.Server.AddSession | openoffload/cpp/framework/src/opof_server_test.c:137-189 | capacity test (more than 1000), then duplicate test, then an append of a closed record with no close code |
| SessionServer.Server.AddStream | openoffload/cpp/framework/src/opof_session_server.cc:43-74 | a streamed add folds the single add and reports the rejected requests |
| SessionServer.Server.GetSession | openoffload/cpp/framework/src/opof_server_test.c:203-222 | the record's state and close code, or not found |
| SessionServer.Server.DelSession | openoffload/cpp/framework/src/opof_server_test.c:236-258 | removes that record; the paging cursor stays live unless it stood on it |
| SessionServer.Server.GetAllSessions | openoffload/cpp/framework/src/opof_server_test.c:42-80 | one page of at most 64 from the static cursor, each response with the id and state of the record at its position and close code timeout; the cursor left on the record after it, the key of its last record handed back |
| SessionServer.CollectPage | openoffload/cpp/framework/src/opof_server_test.c:59-79 | the copying loop stops at 64 or at the end of the list |
| SessionServer.Server.GetClosedSessions | openoffload/cpp/framework/src/opof_server_test.c:272-297 | reports and removes the first closed records: every response has its record's id, state closed and close code timeout, the table before is reported and kept records interleaved, and nothing closed is left unless the reply is full; overruns its 64-entry array if and only if the page size is not 1 to 64 and more than 64 records are closed; the cursor stays live if and only if its record was not reported |
| SessionServer.Server.TakeClosed | openoffload/cpp/framework/src/opof_server_test.c:272-297 | the iteration with deletion, to its end, its page size or the overrun |
| DrainSpec.DrainFitsIff | openoffload/cpp/framework/src/opof_server_test.c:272-297 | a reply has at most 64 records if and only if the page size is 1 to 64 or at most 64 are closed |
| DrainSpec.DrainApart | openoffload/cpp/framework/src/opof_server_test.c:272-297 | a record is reported or kept, never both |
| CursorRuns.ServeOne | openoffload/cpp/framework/src/opof_server_test.c:41-297 | one request of any kind, and where it leaves table and cursor |
| CursorRuns.ServeAll | openoffload/cpp/framework/src/opof_server_test.c:41-297 | after any sequence of defined requests the cursor is live if and only if it does not stand on a freed record |
| CursorRuns.FreedIff | openoffload/cpp/framework/src/opof_server_test.c:41-297 | it stands on a freed record if and only if some delete or drain freed the record it stood on and no page was asked for since |
| CursorRuns.DefinedIff | openoffload/cpp/framework/src/opof_server_test.c:41-297 | a sequence is defined throughout if and only if no page is continued from a freed record and no drain overruns its reply |
| SessionServer.Server.VisitClosed | openoffload/cpp/framework/src/opof_server_test.c:278-294 | one turn of that iteration, its successor saved before the record is freed |
| SessionSpec.AddAllIsTake | openoffload/cpp/framework/src/opof_server_test.c:137-189 | a stream appends exactly the first fresh ids that fit, in order |
| SessionSpec.AddAllErrors | openoffload/cpp/framework/src/opof_session_server.cc:59-71 | a stream reports exactly the rejected requests, in order, with the code each deserves |
| SessionSpec.AddAllBounded | openoffload/cpp/framework/src/opof_server_test.c:155-158 | the table never exceeds 1001 records |
| SessionSpec.AdmitsExactly | openoffload/cpp/framework/src/opof_server_test.c:155-170 | k records plus distinct fresh ids: exactly the first 1001 - k are admitted |
| SessionSpec.ResendRefused | openoffload/cpp/framework/src/opof_server_test.c:155-166 | sending the ids again changes nothing and is refused on every request |
| SessionSpec.AddAllAppend | openoffload/cpp/framework/src/opof_session_server.cc:59-71 | one stream or several in a row make no difference |
| DrainSpec.DrainedIs | openoffload/cpp/framework/src/opof_server_test.c:272-297 | a reply holds the first closed records in order, at most the page size, and everything else survives in order |
| DrainSpec.DrainStates | openoffload/cpp/framework/src/opof_server_test.c:272-297 | every record a reply holds is closed, and none it leaves is unless the reply is full; the table before is the two interleaved |
| DrainSpec.DrainTurn | openoffload/cpp/framework/src/opof_run_tests.c:559-575 | each non-empty reply is a page cut off the closed records |
| PagingSpec.PagingEndsIff | openoffload/cpp/framework/src/opof_run_tests.c:642-661 | the paging loop ends if and only if no page ends on the id UINT_MAX, and then its pages are the whole list in pages of 64 |
| PagingSpec.AfterRounds | openoffload/cpp/framework/src/opof_server_test.c:42-80 | where the cursor stands and what has been handed out after any number of requests |
| PagingSpec.NeverEnds | openoffload/cpp/framework/src/opof_server_test.c:46-48 | an id of UINT_MAX at a page end sends the cursor back to the head for ever |
| CleanupSpec.EmptiesIff | openoffload/cpp/framework/src/opof_run_tests.c:153-197 | the cleanup empties the table if and only if every id survives the conversions to int and back; it then never follows a freed cursor |
| CleanupSpec.CleanupRounds | openoffload/cpp/framework/src/opof_run_tests.c:162-194 | after n turns exactly n pages are gone and the cursor is on the first record left |
| CleanupSpec.WireIff | openoffload/cpp/framework/src/opof_session_client.cc:124-135 | an id survives unsigned long to int to 64-bit if and only if it is below 2^31 or within 2^31 of 2^64 |
| CleanupSpec.WireRange | openoffload/cpp/framework/src/opof_session_client.cc:124-135 | the id a delete request carries is the one that survives and agrees with the id in its low 32 bits |
| CleanupSpec.DeletePage | openoffload/cpp/framework/src/opof_run_tests.c:177-193 | deleting a page whose ids survive leaves what followed, with the cursor on its first record |
| CleanupSpec.Survives | openoffload/cpp/framework/src/opof_run_tests.c:177-193 | a record whose id does not survive is never deleted |
| SessionClient.DeleteAllSessions | openoffload/cpp/framework/src/opof_run_tests.c:153-197 | the client loop against the server ends with an empty table, no cursor ever dangling when used |
| SessionClient.CleanupTurn | openoffload/cpp/framework/src/opof_run_tests.c:162-194 | one page and its deletes do to the server what the value model says |
| SessionClient.DeletePageIds | openoffload/cpp/framework/src/opof_run_tests.c:177-193 | the deletes of one page, following the static cursor |
| SessionClient.PageAll | openoffload/cpp/framework/src/opof_run_tests.c:642-661 | the pages of the client loop against the server are the table's ids in pages of 64 |
| SessionClient.DrainAll | openoffload/cpp/framework/src/opof_run_tests.c:559-575 | overruns if and only if the page size is not 1 to 64 and more than 64 records are closed; else the drain ends, its replies are the closed ids present at the start, once each and in order, in pages of the size asked for, and other records stay in order |
| SessionClient.AddInChunks | openoffload/cpp/framework/src/opof_run_tests.c:530-554 | overruns the client's 64-entry array if and only if some stream has more than 64 rejected requests; else adding in streams is one stream of consecutive ids |
| SessionClient.CopyErrors | openoffload/cpp/framework/src/opof_util.cc:90-101 | the errors of a reply are copied into the client's array, which is to hold them |
| AddLoopSpec.FitsFromEmptyIff | openoffload/cpp/framework/src/opof_run_tests.c:530-554 | from an empty table, the sizes for which no stream has more than 64 rejected requests |
| AddLoopSpec.RejectedFromEmpty | openoffload/cpp/framework/src/opof_run_tests.c:530-554 | how many requests of a stream are rejected: those past the 1001st id |
| SessionClient.Test1 | openoffload/cpp/framework/src/opof_run_tests.c:499-581 | from a table whose ids all survive the clean-up's conversions: clean-up, add, drain, with the exact replies and nothing left, unless more than 64 sessions are sent with a page size above 64, which overruns an array |
| SessionClient.Test2 | openoffload/cpp/framework/src/opof_run_tests.c:583-664 | from such a table: clean-up, add, page, with the exact pages, unless the adding loop overruns, and exactly when it does |
| Device.AllocatorComplete | tests/pythonSimulator/nos_sessions_server_simulator.py:63-77 | for every size and start the allocator returns -1 if and only if every slot of 1..M-1 is taken, and otherwise the first free one counted circularly from the start, which becomes the next start; a refusal leaves the start where it was |
| Device.ProbesCover | tests/pythonSimulator/nos_sessions_server_simulator.py:63-77 | the M - 1 circular probes visit every slot of 1..M-1 exactly once |
| Device.ProbeIs | tests/pythonSimulator/nos_sessions_server_simulator.py:63-77 | the allocator stops at the first free probe |
| DeviceRuns.AddOneOutcome | tests/pythonSimulator/nos_sessions_server_simulator.py:119-170 | a request inserts one record or appends errors for it, never both; each error if and only if its cause holds; the slot is the first free one from the start, and a refusal for want of one leaves the start |
| DeviceRuns.TupleTruthy | tests/pythonSimulator/nos_sessions_server_simulator.py:119-122 | slots are never 0, so the truth test on a found slot is a test for presence |
| DeviceRuns.FindTupleIff | tests/pythonSimulator/nos_sessions_server_simulator.py:241-252 | the search finds a slot if and only if some record has the 7-tuple |
| DeviceRuns.AddAllOk | tests/pythonSimulator/nos_sessions_server_simulator.py:80-173 | a stream of adds keeps the device invariant |
| DeviceRuns.AddAllEntries | tests/pythonSimulator/nos_sessions_server_simulator.py:144-170 | old records stay as they were; new ones are fresh sessions of the stream in slots that were free |
| DeviceAdds.AddAllAdmits | tests/pythonSimulator/nos_sessions_server_simulator.py:80-173 | a stream enters exactly the first requests with new 7-tuples that fit, in order, each as a fresh established session with counters 0; its errors are those each request deserves, in order, the duplicate before the full table |
| DeviceAdds.AddOneErrors | tests/pythonSimulator/nos_sessions_server_simulator.py:119-142 | the exact error list of one request |
| DeviceAdds.FullIff | tests/pythonSimulator/nos_sessions_server_simulator.py:63-77 | no slot is free if and only if M - 1 sessions are live |
| DeviceRuns.TrafficOk | tests/pythonSimulator/nos_sessions_server_simulator.py:264-311 | a traffic visit keeps the device invariant |
| DeviceRuns.DrainOk | tests/pythonSimulator/nos_sessions_server_simulator.py:317-324 | so does a drain |
| DeviceRuns.DeleteOk | tests/pythonSimulator/nos_sessions_server_simulator.py:205-239 | so does a delete |
| DeviceRuns.RunOk | tests/pythonSimulator/nos_sessions_server_simulator.py:43-361 | over every run: no two live records share a 7-tuple or a slot, slots are in 1..M-1, at most M - 1 are live, closed if and only if a close code is set if and only if an end time is set |
| DeviceRuns.VisitOk | tests/pythonSimulator/nos_sessions_server_simulator.py:264-311 | a visit never reopens a record or lowers a counter, and does not touch a closed one |
| DeviceRuns.ReplayOnward | tests/pythonSimulator/nos_sessions_server_simulator.py:264-311 | over any further visits closed never reverts, a closed record is frozen, counters never decrease |
| DeviceRuns.ReplayIs | tests/pythonSimulator/nos_sessions_server_simulator.py:264-311 | a record's counters are the sum of the increments before its first closing action, which fixes its code and end time |
| DeviceRuns.SumIs | tests/pythonSimulator/nos_sessions_server_simulator.py:273-277 | each of the four counters is summed by itself, from 0 |
| DeviceRuns.RecordsReplay | tests/pythonSimulator/nos_sessions_server_simulator.py:148-311 | at every moment of every run each record is what the visits since its own insertion make of a fresh one |
| DeviceRuns.DrainReportsSums | tests/pythonSimulator/nos_sessions_server_simulator.py:317-324 | the counters a drain reports are all the increments the record met before it closed |
| DeviceServer.OffloadDevice.constructor | tests/pythonSimulator/nos_sessions_server_simulator.py:41-56 | the table starts empty, the allocator at slot 1 |
| DeviceServer.OffloadDevice.NextSessionId | tests/pythonSimulator/nos_sessions_server_simulator.py:63-77 | the slot and the new start of the allocator: the first free slot from the start, or -1 with the start unmoved |
| DeviceServer.OffloadDevice.FindSessionByTuple | tests/pythonSimulator/nos_sessions_server_simulator.py:241-252 | the first slot with the 7-tuple |
| DeviceServer.OffloadDevice.AddRequest | tests/pythonSimulator/nos_sessions_server_simulator.py:83-170 | one request of the stream, the allocator run even for a known 7-tuple |
| DeviceServer.OffloadDevice.AddSession | tests/pythonSimulator/nos_sessions_server_simulator.py:80-173 | the stream's effect and its error list |
| DeviceServer.OffloadDevice.GetSession | tests/pythonSimulator/nos_sessions_server_simulator.py:178-201 | answers if and only if a record has this client id, with the first one |
| DeviceServer.OffloadDevice.DeleteSession | tests/pythonSimulator/nos_sessions_server_simulator.py:205-239 | removes the first record with this client id if there is one, and says so |
| DeviceServer.OffloadDevice.VisitSession | tests/pythonSimulator/nos_sessions_server_simulator.py:264-311 | the traffic process at one record |
| DeviceServer.OffloadDevice.SimulateSessionsTraffic | tests/pythonSimulator/nos_sessions_server_simulator.py:259-314 | one pass visits every record once, each with its own action, and counts the records that were closed |
| DeviceServer.OffloadDevice.GetClosedSessions | tests/pythonSimulator/nos_sessions_server_simulator.py:317-324 | no record left is closed, every reported one is, and the table before is the two interleaved, in order |
| DeviceServer.DrainStates | tests/pythonSimulator/nos_sessions_server_simulator.py:317-324 | taking the records in state closed, in order, and leaving the others |
| DeviceServer.ClosedCount | tests/pythonSimulator/nos_sessions_server_simulator.py:264-267 | what the pass counts is the number of records in state closed |
| DeviceServer.OffloadDevice.GetAllSessions | tests/pythonSimulator/nos_sessions_server_simulator.py:326-360 | the slice the handler computes; everything for a zero page size or number |
| DeviceServer.PageIsChunk | tests/pythonSimulator/nos_sessions_server_simulator.py:334-342 | page number i is the i-th piece of the full listing |
| DeviceServer.PagesPartition | tests/pythonSimulator/nos_sessions_server_simulator.py:326-360 | pages 1..ceil(n/p) make up the listing for p = 0, and later pages are empty |
| Protocol.LocalAddIs | tests/pythonSimulator/fw_sessions_client_simulator.py:78-130 | a batch enters its sessions under fresh, distinct ids, all offloaded, and changes no other |
| Protocol.IdsPassMaximum | tests/pythonSimulator/fw_sessions_client_simulator.py:65-74 | an id above the maximum is given out if and only if the start is already above it or every id up to it is in use |
| Protocol.FirstBatchIds | tests/pythonSimulator/fw_sessions_client_simulator.py:65-130 | the first batch, of any length, gets exactly the ids from 1000 on |
| Protocol.FirstBatchPassesIff | tests/pythonSimulator/fw_sessions_client_simulator.py:65-147 | a run of one batch has an id above the maximum if and only if the batch has more than 999000 sessions |
| Protocol.IdAboveMaximum | tests/pythonSimulator/fw_sessions_client_simulator.py:65-147 | a run that gives out 1000000 |
| Protocol.AddAllIds | tests/pythonSimulator/nos_sessions_server_simulator.py:80-173 | of a batch with fresh ids the device takes exactly those it reports no error for |
| Protocol.OffloadOk | tests/pythonSimulator/fw_sessions_client_simulator.py:78-147 | a batch keeps the two-party invariant, and every reported error names an id in the firewall's table |
| Protocol.BatchIs | tests/pythonSimulator/fw_sessions_client_simulator.py:78-147 | a batch leaves every older session as it was and enters one for each 7-tuple under a new id, marked offloaded if and only if the device took it; a refused one stays in the firewall's table |
| Protocol.DrainIds | tests/pythonSimulator/nos_sessions_server_simulator.py:317-324 | a drain removes from the device exactly the ids it reports |
| Protocol.SysStepOk | tests/pythonSimulator/fw_sessions_client_simulator.py:78-199 | every step keeps the two-party invariant |
| Protocol.TwoParty | tests/pythonSimulator/fw_sessions_client_simulator.py:78-199 | over every interleaving of batches, traffic, drains and deletes: device ids are distinct, and the firewall's offloaded ids are the device's plus the ones deleted by hand |
| Protocol.OffloadedIsDevice | tests/pythonSimulator/fw_sessions_client_simulator.py:78-199 | offloaded ids and device ids agree if and only if no delete has been accepted |
| Protocol.NoDeletes | tests/pythonSimulator/fw_sessions_client_simulator.py:155-157 | without delete requests none has been accepted |
| Protocol.DrainsAreKnown | tests/pythonSimulator/fw_sessions_client_simulator.py:184-185 | a drain reports only ids in the firewall's table, so the error branch is never taken |
| Protocol.FetchSucceeds | tests/pythonSimulator/fw_sessions_client_simulator.py:150-153 | a fetch succeeds if and only if the id is offloaded and was not deleted |
| Conservation.PartiesAgree | tests/pythonSimulator/fw_sessions_client_simulator.py:108-124 | the device's records carry the 7-tuples the firewall entered under their ids |
| Conservation.Conserved | tests/pythonSimulator/fw_sessions_client_simulator.py:78-199 | over every run the ids accepted are, with multiplicity, those live, those reported and those deleted |
| Conservation.StepConserves | tests/pythonSimulator/fw_sessions_client_simulator.py:78-199 | the same balance for one step |
| Conservation.ReportedOnce | tests/pythonSimulator/nos_sessions_server_simulator.py:317-324 | a drain reports no id twice |
| FirewallClient.Firewall.NextSessionId | tests/pythonSimulator/fw_sessions_client_simulator.py:65-74 | the first free id from the start, which wraps only when it equals the maximum |
| FirewallClient.Firewall.EnterSessions | tests/pythonSimulator/fw_sessions_client_simulator.py:83-130 | the local half of a batch |
| FirewallClient.Firewall.MarkRefused | tests/pythonSimulator/fw_sessions_client_simulator.py:144-147 | exactly the refused sessions lose their offloaded mark |
| FirewallClient.Firewall.SessionAddSessions | tests/pythonSimulator/fw_sessions_client_simulator.py:78-147 | a batch against the device is the system step, and keeps the invariant; older sessions stay as they were, and a new one is offloaded if and only if the device took it |
| FirewallClient.Firewall.Forget | tests/pythonSimulator/fw_sessions_client_simulator.py:181-199 | the reported sessions leave the table, and the unknown ones are counted |
| FirewallClient.Firewall.SessionClosedSessions | tests/pythonSimulator/fw_sessions_client_simulator.py:177-199 | collecting is the system step, and never meets an unknown id; exactly the sessions whose device record is closed leave the table, the others as they were |
| FirewallClient.Firewall.FetchOffloaded | tests/pythonSimulator/fw_sessions_client_simulator.py:287-290 | without deletes every offloaded session is found, under its 7-tuple |
| FirewallClient.Firewall.SessionDeleteSession | tests/pythonSimulator/fw_sessions_client_simulator.py:155-157 | a delete is the system step |
| TunnelServer.PrintTunnelSummary | tests/basicIPT/tunnels_server.py:252-289 | the one-pass loops compute the summary or its failure; with distinct ids, exactly the stand-alone tunnels and the chains that the matches give |
| TunnelServer.FindChain | tests/basicIPT/tunnels_server.py:280-283 | the inner loop finds the first chain that takes the tunnel |
| TunnelChains.SummaryRightIff | tests/basicIPT/tunnels_server.py:252-289 | without address matching: the summary lists every tunnel once, in maximal match paths and isolated tunnels, if and only if every match exists, none is shared, and a tunnel that itself matches comes before the one matching it |
| TunnelChains.RightSummaryUnique | tests/basicIPT/tunnels_server.py:252-289 | two right summaries of a table have the same chains and the same stand-alone tunnels |
| TunnelChains.ScanKeeps | tests/basicIPT/tunnels_server.py:257-289 | for tables in that order, what holds after every turn of the loop |
| TunnelChains.CorrectIsInOrder | tests/basicIPT/tunnels_server.py:257-289 | a right summary only comes of a table in that order |
| TunnelChains.ScanHeads | tests/basicIPT/tunnels_server.py:257-289 | for any table, a tunnel that matches one not yet reached leaves one of the two as the head of a chain |
| TunnelChains.OutOfOrder | tests/basicIPT/tunnels_server.py:259-266 | a witness: three tunnels created against the order get a wrong summary |
| TunnelFailures.SummaryFailsIff | tests/basicIPT/tunnels_server.py:257-288 | for every table: the summary fails if and only if some tunnel fails, and then names the first one; a missing match is reported if and only if its tunnel is that one and is not passed over; a pair fails it if and only if the first tunnel to put the matched one on a chain matches on addresses |
| TunnelFailures.SkippedIff | tests/basicIPT/tunnels_server.py:259-260 | at every tunnel it reaches, the loop passes it over if and only if an earlier tunnel, itself not passed over, matches it |
| TunnelFailures.TurnFails | tests/basicIPT/tunnels_server.py:259-288 | whether a turn fails, from the table alone |
| TunnelFailures.KindsNext | tests/basicIPT/tunnels_server.py:276-289 | what decides whether the first chain with an id is a pair |
| TunnelFailures.MissingMatchPassed | tests/basicIPT/tunnels_server.py:259-271 | a witness: a match that does not exist goes unnoticed because its tunnel is passed over |
| TunnelFailures.PairBreaks | tests/basicIPT/tunnels_server.py:280-288 | a witness: a tunnel that matches one listed in a pair fails the summary |
| TunnelSummary.SummaryIs | tests/basicIPT/tunnels_server.py:257-289 | for every table with distinct ids and a summary: the exact stand-alone tunnels and the exact chains, in order, from the matches alone |
| TunnelSummary.StandAloneIff | tests/basicIPT/tunnels_server.py:263-278 | an id is stand-alone if and only if its tunnel matches none, is not passed over, and no tunnel that is not passed over matches it |
| TunnelSummary.AloneOffChains | tests/basicIPT/tunnels_server.py:263-289 | no stand-alone tunnel is on a chain |
| TunnelSummary.PairsIff | tests/basicIPT/tunnels_server.py:276-289 | the pairs are exactly the matched tunnel and the tunnel, for every tunnel that matches on addresses and is not passed over |
| TunnelChains.NothingDropped | tests/basicIPT/tunnels_server.py:257-289 | any summary that succeeds lists every tunnel |
| TunnelChains.FailureMeans | tests/basicIPT/tunnels_server.py:269-288 | for every list of tunnels, even with repeated ids, a failure names a tunnel whose match is missing, or comes of address matching |
| TunnelServer.IpTunnelService.CreateIpTunnel | tests/basicIPT/tunnels_server.py:330-354 | requests are applied up to the first that raises, whose predecessors stay; else the summary is of the resulting table |
| TunnelServer.IpTunnelService.ApplyRequest | tests/basicIPT/tunnels_server.py:333-351 | one request's effect on the table; it raises if and only if it creates from an invalid message or updates an unknown id |
| TunnelServer.ApplyLookup | tests/basicIPT/tunnels_server.py:333-351 | a request changes the tunnel with its own id and no other |
| TunnelServer.ApplyOrder | tests/basicIPT/tunnels_server.py:333-351 | a new id comes last, an id created again keeps its place, a removed one leaves the order of the others, and removing an unknown one does nothing |
| TunnelServer.CreateInOrderIff | tests/basicIPT/tunnels_server.py:341-342 | a creation, under a new id or one the table has, keeps the table in order if and only if the tunnel fits its place: it matches none, or one that exists, is matched by no other and is rightly placed |
| TunnelServer.RemoveInOrderIff | tests/basicIPT/tunnels_server.py:348-351 | a removal keeps it in order if and only if none matches the removed tunnel |
| TunnelServer.CreateRightIff | tests/basicIPT/tunnels_server.py:341-354 | after a right summary, the one after a creation is right under exactly that condition |
| TunnelServer.IpTunnelService.GetAllIpTunnelsStats | tests/basicIPT/tunnels_server.py:420-449 | the messages are the tunnels cut into batches; with a count of 0 one message, or none for an empty table |
| TunnelServer.StatsBatches | tests/basicIPT/tunnels_server.py:420-449 | batches are non-empty, all but the last are full, together they are all tunnels in order, and there are ceil(n / k) |

## Left out

- gRPC, TLS, channels, deadlines, cancellation, retries with sleep, process control, argument parsing, printing: input and output only. Interleaving inside one RPC is not modelled either.
- The structure converters, and the response fields that are plain copies (addresses, interfaces, start time, timeout, action): field copies with easy round trips. Counters of the C server are random in the source and are not modelled.
- 32-bit wrap-around of the hash table's counts: counts are unbounded, which agrees with the source below 2^31 elements.
- Concrete hash functions, the Bloom filter, key emission, out-of-memory branches, HASH_SELECT, HASH_REPLACE, HASH_CLEAR and secondary handles: disabled, unused by the session table, or compositions of the operations modelled. Key type and length: the key is the session id.
- Offset arithmetic between an element and its handle: they are one object.
- Freed memory: a freed record is one that has left the list; using the cursor requires it to stand on a record of the list or at its end.
- UtHash.HashTable.Add: the order inside the chains after an expansion is stated by ExpandBuckets and not repeated.
- UtHash.HashTable.Delete: says nothing of the bucket array of an emptied table, which the source frees.
- SessionServer.Server.GetClosedSessions: says when the source writes past its 64-entry array, which it does not check, and nothing of what that does; the method stops there.
- SessionClient.AddInChunks: the same for the client's array of errors. A page size is taken to be below 2^31, and 0 only with nothing to add, for which the source's loop does not end.
- SessionClient.DeleteAllSessions: covers the ids for which the loop ends; the other ids are covered on values by CleanupSpec.EmptiesIff.
- SessionClient.PageAll: covers the tables on which the loop ends; the others are covered on values by PagingSpec.PagingEndsIff.
- The rejection of device requests with missing fields: the fields of the message are never absent, so that branch is dead. IPv6 addresses are not part of the 7-tuple the device compares.
- Python errors from changing a dictionary while another thread iterates over it: steps are atomic instead.
- Dictionaries of the device and of the tunnel service are sequences of items with distinct keys, in insertion order.
- The mirror-session call of the firewall client (it cannot run as written) and the firewall's own counters and start times.
- Tunnel field validators: single checks of one message, represented by one boolean of a create request. An update changes IPsec parameters, which are not part of the model.
- TunnelChains.SummaryRightIff: is about tables without address matching; for tables with it, TunnelSummary.SummaryIs says what the summary is and TunnelFailures.SummaryFailsIff when there is none.
- TunnelChains.FailureMeans: one way only; both ways, for distinct ids, in TunnelFailures.SummaryFailsIff.
- Tunnel statistics carry random counters: the batches are modelled as batches of tunnels.
- The servers and clients under tests/basic (canned replies without state) and the configuration parser.
