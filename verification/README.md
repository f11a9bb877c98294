# Verified model of the file storage server

The repository is an in-memory file storage server with a client library. This project models its
core in Dafny and proves what that core keeps over every run:

* **Storage** – a hash table of sorted chains of file objects (`HashTable.dfy`, `FileStorage.dfy`),
  with wrapping `size_t` accounts. The objects are updated in place; every method is proved against a
  function on values (`Chains.dfy`, `Store.dfy`).
* **Eviction** – the plan that `fu_evict_files` makes (`EvictPlan.dfy`, over the growable array of
  `Arrays.dfy`), the loop of `server_evict`, and what it removes (`Eviction.dfy`).
* **Request handlers** – `Server.dfy` runs every handler on the objects and proves each to be one step
  of the storage as a value; `serve` dispatches an arbitrary request word. `Runs.dfy` proves what every
  run of steps by any number of clients keeps: exact accounts, ownership, contents.
* **Streams** – the framed streams of an eviction and of `readNFiles`, and the client loops that decode
  them (`Streams.dfy`); `Client.dfy` puts client, request word, server and answer together.
* **Dispatcher and workers** – the hand-over of descriptors between the poll array and the workers, in
  fine steps (`PollArray.dfy`, `Dispatcher.dfy`, `ServerInfos.dfy`).
* **Answers and accesses** – what every word of every answer says about the storage (`Answers.dfy`), and
  what the access counts mean on which the eviction order rests (`Accesses.dfy`).
* **Connections** – storage, dispatcher and workers in one system (`Connections.dfy`), which tells
  whether the number in a file's `client` field still stands for the connection that opened it.
* **Readers/writer lock** – the monitor of `TEST/src/thread_utils.c` for unboundedly many threads with
  spurious wakeups (`ReadersWriter.dfy`).
* **Sorted list** – `SortedList.dfy`.

`Words.dfy` and `Paths.dfy` hold machine words, the request word, path comparison and hash.

## How the parts fit

`Servers.Serve` is the top: whatever request word arrives, the new state of the objects in memory and
the bytes sent are those of `Store.Step`, for an order of the stored files that the environment chooses
(the order of the chains, or the order in which `qsort` leaves the plan), and `Store.Inv` holds again.
The theorems of `Runs.dfy` are about all sequences of such steps, and `Servers.ServeRun` serves any
sequence of requests on the objects and proves that they go through such a run. To the storage a client
is the number of a descriptor. A request with its ghost choices is
`Store.Request`; `Store.Legal` says only that the chosen order lists every stored file once.

## Where the code falls short of its intent

Each of these is stated with the exact condition under which the code does what it should.

* A file's `client` is a descriptor number, and nothing clears it when the client hangs up. Whoever is
  accepted at the same number next passes every ownership test. The number in a file stands for the
  connection that opened it exactly as long as accept returns no number that still stands in a file:
  `Connections.OwnershipIsPerConnectionIff`, with a run in which it happens, `Connections.NumbersAreReused`.
* `sapi_sendop` joins the flag byte with the operation unmasked. `openFile` asks for an opening exactly
  when that byte is below 0x10, and for an append when it is 0x10: `Clients.OpenArrives`,
  `Clients.OpenBecomesAppend`.
* `su_string_compare` takes a string for equal to each of its prefixes. The table answers every
  history of insertions and removals correctly exactly for sets of paths in which no path is a prefix
  of another one of its bucket: `PathTable.TableTrustedIffPrefixFree`. The storage assumes such a set.
* `fu_evict_compare` cuts unsigned differences to `int`. It orders as intended exactly below 2^31
  accesses and bytes, and beyond that it can go round in a circle: `Eviction.CompareIsSoundIff`,
  `Eviction.CompareCanCycle`.
* An empty evicted file is announced, but its data frame is never sent: `Streams.EvictRoundTrip`. If
  another file follows, the client waits for data that never come: `Streams.EmptyFileBlocks`. A
  client that does not want the evicted files leaves one word of the answer unread:
  `Clients.AppendEndToEnd`.
* The zero that ends the answer to `readNFiles` is meant as the end of the list (serverapi.c:485-492),
  but `sapi_get_path` reports it as an error and the client exits: `Streams.ReadRoundTrip`. The model
  follows the code. The request word carries only 24 bits of the number asked for, and a
  file with an empty path ends the list as well: `Clients.ReadNFilesEndToEnd`.
* Opening with `O_LOCK` is meant to set a bit of `data_info` and clears the access count instead:
  `Accesses.LockingClearsTheCount`. Without such an open `data_info` is the access count:
  `Accesses.InfoIsTheAccessCount`.
* A failed `accept` is polled like a client, and its slot of the poll array is never given back:
  `Dispatcher.FailedAcceptsStay`.
* `lu_index_of_obj` gives an index also for an absent element when some element sorts after it:
  `SortedLists.IndexIsFirst`.

## Model

| member | source | states |
|---|---|---|
| `Servers.Serve` | src/server.c:307-350 | for every request word, the objects in memory, the return value and the bytes sent are one legal step of the storage as a value; an evicting request uses an order that is the eviction order whenever the comparison can tell it; the accounts are exact again |
| `Servers.ServeRun` | src/server.c:225-270 | any number of requests, served one after the other with any mutexes taken: the objects go through a legal run of the storage, and the answers are those of the run |
| `Servers.WriteOrAppend` | src/server.c:939-1151 | a write or append on the objects does what the value says, error answers included; the plan of its eviction lists every file once, in eviction order |
| `Servers.WriteOwn` | src/server.c:974-1043 | the part after the ownership test: space check, eviction, capacity test, answers |
| `Servers.MakeRoom` | src/server.c:974-1003 | the space is there or is made by an eviction that passes over the target, which is still stored |
| `Servers.FinishWriting` | src/server.c:1021-1043 | data goes in at offset 0 or at the end, and the last word says whether it did |
| `Servers.ServerEvict` | src/server.c:1221-1296 | removes from the objects exactly the files that the value says, and sends exactly its bytes |
| `Servers.EvictLoop` | src/server.c:1243-1281 | after the loop the storage lacks exactly the victims, in order; what is still needed and the frames sent are exact; every other file object is untouched |
| `Servers.EvictRound` | src/server.c:1243-1281 | one round takes the file or passes over it, and the loop on what is left is still the same loop |
| `Servers.EvictNext` | src/server.c:1251-1276 | one file: passed over when another client holds it, otherwise framed, counted and removed |
| `Servers.EvictOne` | src/server.c:1274-1276 | the mark on an evicted file goes with it, and only this file goes |
| `Servers.OpenFile` | src/server.c:692-772 | open and create on the objects, with every error answer |
| `Servers.CreateFile` | src/server.c:741-767 | a new file object enters table and accounts or nothing changes |
| `Servers.CloseFile` | src/server.c:774-814 | close on the objects, with every error answer |
| `Servers.ReadFile` | src/server.c:816-853 | read on the objects: the access is counted and the whole contents are sent |
| `Servers.RemoveFile` | src/server.c:1175-1219 | removal on the objects, with every error answer |
| `Servers.ReadNFiles` | src/server.c:855-937 | the traversal order lists every stored file once, and the answer and the access counts are those of the value for that order |
| `Servers.SendFiles` | src/server.c:872-925 | the traversal counts and sends the first n files that it can lock and that have data |
| `Servers.StoredPathsAreKnown` | libs/LSO_LIB/hash_utils.c:60-81 | nothing is stored under a path that nobody used |
| `Servers.OneMore` | src/server.c:307-350 | a run with one more legal request is a run, and ends and answers accordingly |
| `Runs.AccountsAreExact` | libs/LSO_LIB/file_utils.c:93-154 | from an empty storage with given limits, over every run, both counters equal the number and the bytes of what is stored, these stay within the limits that were given, and no request changes the limits |
| `Runs.StepKeepsInv` | src/server.c:307-350 | every request keeps the accounts exact |
| `Runs.HeldFileBelongsToHolder` | src/server.c:718-739 | over every run, a file that its holder does not give up still belongs to it, with exactly the holder's own successful writes and appends applied in order |
| `Runs.SilentHolderLosesNothing` | src/server.c:964-969 | no run of requests from other descriptors changes, removes or evicts a file that holds the number of a descriptor |
| `Runs.StepRespectsHolder` | src/server.c:802-809 | a client stops holding a file exactly by its own close or removal of it, or by a write to another of its files whose eviction has this one among its victims |
| `Runs.WriteIsSeen` | src/server.c:974-1043 | a write by anybody removes exactly the victims of its eviction, succeeds for the holder only, and changes no holder and no contents but the target's |
| `Runs.SparedInWrite` | src/server.c:1251-1256 | neither the file written nor a file that another client holds is among the victims |
| `Runs.WriteSparesHeldFile` | src/server.c:1251-1256 | a write by another client, or of another file, changes neither contents nor holder, and another client's does not evict |
| `Runs.OnlyOpenMakesAHolder` | src/server.c:718-739 | only a successful open of a file that is free or new makes its client the holder |
| `Runs.CreateSucceedsIff` | src/server.c:709-766 | an open of a path that is not stored succeeds exactly when creation is asked for and there is a free slot and a free byte; then there is one more file, empty and held by the client, otherwise the storage is exactly what it was |
| `Runs.OpenSucceedsIff` | src/server.c:718-739 | a stored file is opened exactly when nobody has it open; its contents and all other files are untouched |
| `Runs.RemoveUndoesCreate` | src/server.c:741-767 | creating a file and removing it gives back the storage exactly, counters included |
| `Runs.CloseUndoesOpen` | src/server.c:802-811 | opening and closing gives back the storage but for the access count and lock bit of that file |
| `Runs.RemoveIsExact` | src/server.c:1175-1219 | a stored file is removed exactly for its holder; nothing else changes and both counters fall by exactly that file |
| `Runs.OnlyTheHolderReads` | src/server.c:837-843 | in every reachable state a read succeeds exactly for the holder, whatever the lock bit |
| `Runs.HolderReadsItsWrites` | src/server.c:845-846 | the holder reads back what it found, with its own writes applied in order, whatever other clients did |
| `Runs.ZeroOwnsNothing` | src/server.c:695-700 | descriptor 0 never becomes the client of a file |
| `Answers.AnswersTellTheTruth` | src/server.c:692-1219 | the first word of every answer about a path: FNF exactly when it is not stored, ALREADY or LOCKED exactly when somebody is in the way, SUCCESS exactly when the request was done |
| `Answers.HolderIsAnswered` | src/server.c:974-1043 | to a write or an append of the holder: first SUCCESS, EVICT or FAILURE exactly by the space; the last word is 0 exactly when there was data and the files that have to stay left room |
| `Answers.RefusedWriteAnswer` | src/server.c:957-969 | a write of a client that does not hold the file is refused in one word, and only counts the lookup |
| `Answers.OpenAnswer` | src/server.c:709-769 | one word: FNF, FAILURE, ALREADY and SUCCESS each under its exact condition |
| `Answers.CloseAnswer` | src/server.c:793-813 | one word; exactly the holder's close frees the file, and nothing else changes holder or contents |
| `Answers.ReadAnswer` | src/server.c:833-850 | one word, and to the holder the length and the contents, or nothing more when the file is empty |
| `Answers.RemoveAnswer` | src/server.c:1194-1218 | one word; SUCCESS exactly when the file was there and is gone |
| `Answers.OtherAnswer` | src/server.c:307-350 | stubs, unknown operations and descriptor 0 change nothing, and what they are answered |
| `Accesses.InfoIsTheAccessCount` | libs/LSO_LIB/file_utils.c:155-167 | over every run in which nobody opens the file with O_LOCK, `data_info` is the number of accesses since the file was created, modulo 2^32: lookups by path, writes that go through, and sendings by readNFiles, counted from the requests |
| `Accesses.StepCounts` | libs/LSO_LIB/file_utils.c:331-375 | each request counts exactly its accesses |
| `Accesses.LockingClearsTheCount` | src/server.c:732-736 | a successful open with O_LOCK leaves of the count only the bit of value 2 |
| `Accesses.NewFilesAreUncounted` | src/server.c:741-746 | a file that appears is empty, held by the client and without accesses |
| `Accesses.EvictsTheMostAccessed` | libs/LSO_LIB/file_utils.c:523-579 | after any run without O_LOCK, with counts and sizes below 2^31: of two files that may be taken, of which one is evicted and the other is not, the evicted one was accessed more often, or as often and is no smaller |
| `Accesses.MostAccessedGoFirst` | src/server.c:1243-1281 | the same on one storage, by the stored counts |
| `Eviction.WriteSucceedsIff` | src/server.c:974-1033 | the holder's write succeeds exactly when there is data and the files that have to stay (the target, files with a taken mutex, files of other clients) leave room for it, whatever the order of eviction; the capacity test after the space check never fails |
| `Eviction.RoomIffKeptLeaveIt` | src/server.c:1243-1281 | what the loop can free suffices exactly when the files that have to stay leave room |
| `Eviction.WriteChangesOnlyItsFile` | src/server.c:974-1043 | after success the file is exactly new, or old followed by new; after failure exactly old; exactly the victims of the eviction are gone, none of which another client holds, all other files are unchanged, the accounts are exact |
| `Eviction.WriteHeldIsExact` | src/server.c:1081-1150 | the same for the part of the handler after the ownership test, in one statement |
| `Eviction.FinishWriteSucceeds` | libs/LSO_LIB/file_utils.c:331-375 | when the space is there only an empty write fails, and the target alone changes |
| `Eviction.EvictSucceedsIff` | src/server.c:1221-1296 | an eviction succeeds exactly when the files it may take cover the request together, and then takes the shortest covering run of them in the order of the plan |
| `Eviction.EvictConserves` | libs/LSO_LIB/file_utils.c:128-154 | what an eviction leaves is untouched, and both counters fall by exactly what is gone |
| `Eviction.EvictMakesRoom` | src/server.c:976-990 | after a successful eviction the space asked for is free in addition to what was free, and no file that may not be taken is gone |
| `Eviction.VictimsAreShortestCover` | src/server.c:1243-1281 | the loop takes exactly the shortest run of eligible files that covers the need, or all of them; nothing is left to free exactly when together they suffice |
| `Eviction.VictimsDistinct` | src/server.c:1243-1281 | no file is taken twice |
| `Eviction.CompareIsSoundIff` | libs/LSO_LIB/file_utils.c:523-537 | the comparison orders by descending accesses, then descending size, exactly when both are below 2^31 |
| `Eviction.CompareAsIntended` | libs/LSO_LIB/file_utils.c:523-537 | below 2^31 the comparison is the intended difference itself |
| `Eviction.CompareCanCycle` | libs/LSO_LIB/file_utils.c:523-537 | three access counts for which the comparison goes round in a circle |
| `Eviction.SortedPlanIsInOrder` | libs/LSO_LIB/file_utils.c:553 | a plan sorted by the comparison is in eviction order when all files are in range |
| `EvictPlans.EvictFiles` | libs/LSO_LIB/file_utils.c:544-579 | there is no plan exactly when all stored bytes are too few; the plan fills exactly curr_files slots, lists every stored file once, and is in eviction order when the comparison can tell it |
| `EvictPlans.FillPlan` | libs/LSO_LIB/file_utils.c:547-551 | the traversal fills the array to its last slot with every stored file, once |
| `EvictPlans.SortPlan` | libs/LSO_LIB/file_utils.c:553 | sorting loses and repeats no file, whatever the comparison does |
| `EvictPlans.PlanCoversIff` | libs/LSO_LIB/file_utils.c:560-576 | counting the request down reaches zero exactly when all stored bytes cover it |
| `EvictPlans.CountDown` | libs/LSO_LIB/file_utils.c:560-571 | the loop ends with what is left of the request |
| `EvictPlans.ShuffleKeepsPlan` | libs/LSO_LIB/file_utils.c:553 | every rearrangement of a plan is a plan |
| `EvictPlans.InRangeIsPreorder` | libs/LSO_LIB/file_utils.c:523-537 | on files in range the comparison is a total preorder, as qsort demands |
| `Accounts.NewTotalIsExact` | libs/LSO_LIB/file_utils.c:360-370 | the new total through wrapping differences is the exact one modulo 2^64, also when a file shrinks |
| `Accounts.WriteKeepsInv` | libs/LSO_LIB/file_utils.c:331-375 | a write keeps the accounts exact, and is accepted exactly when there is data, the offset is in the file and the exact total is within the maximum |
| `Accounts.AddKeepsInv` | libs/LSO_LIB/file_utils.c:93-127 | an addition keeps the accounts exact, and is accepted exactly when a slot and the bytes are free |
| `Accounts.RemoveKeepsInv` | libs/LSO_LIB/file_utils.c:128-154 | a removal lowers both counters by exactly one file and its bytes |
| `Accounts.RemoveAllCounts` | src/server.c:1243-1281 | removing distinct files lowers both counters by exactly their number and bytes |
| `Accounts.BytesWithout` | libs/LSO_LIB/file_utils.c:128-154 | the sum of the sizes does not depend on the order in which files are taken out |
| `FileStorages.InitFileStorage` | libs/LSO_LIB/file_utils.c:26-57 | a new storage is empty, has the two limits as they were given and max_files / 4 + 1 buckets; refused exactly when a maximum is zero |
| `FileStorages.FileStorage.GetFile` | libs/LSO_LIB/file_utils.c:155-167 | finds exactly the file stored under the path, and counts the access on the object (see `Accesses.StepCounts` for what the count amounts to) |
| `FileStorages.FileStorage.AddFile` | libs/LSO_LIB/file_utils.c:93-127 | the object enters table and accounts exactly when it fits, otherwise nothing changes |
| `FileStorages.FileStorage.RemoveFile` | libs/LSO_LIB/file_utils.c:128-154 | exactly the file of the path leaves table and accounts; every other object stays as it was |
| `FileStorages.FileStorage.WriteFile` | libs/LSO_LIB/file_utils.c:331-375 | accepts exactly the writes that the value accepts; the file then ends where the written bytes end |
| `FileStorages.FileStorage.SetContents` | libs/LSO_LIB/file_utils.c:360-370 | one object gets new contents and the storage a new total; no other object changes |
| `PathTable.TableTrustedIffPrefixFree` | libs/LSO_LIB/string_utils.c:125-135 | over every history the table answers every lookup correctly exactly when no path is a prefix of another one of its bucket |
| `PathTable.RelatedPathsConfuse` | libs/LSO_LIB/hash_utils.c:126-150 | for any two related paths of a bucket, storing one makes the lookup of the other wrong |
| `PathTable.PrefixFreeIsOrdered` | libs/LSO_LIB/string_utils.c:125-135 | on a prefix-free set the comparison is a total order, zero only on equality |
| `Paths.CompareZero` | libs/LSO_LIB/string_utils.c:125-135 | zero exactly when one string is a prefix of the other |
| `Paths.CompareAntisymmetric` | libs/LSO_LIB/string_utils.c:125-135 | swapping the arguments negates the result |
| `Paths.CompareTransitive` | libs/LSO_LIB/string_utils.c:125-135 | transitive on strings that are not prefixes of one another |
| `Paths.CompareIsLexicographic` | libs/LSO_LIB/string_utils.c:125-135 | the sign is that of the first two bytes that differ, taken as unsigned |
| `Paths.CompareIsNoOrder` | libs/LSO_LIB/string_utils.c:125-135 | three strings for which comparing equal is not transitive |
| `Paths.HashString` | libs/LSO_LIB/hash_utils.c:11-30 | shifting and adding modulo 2^64 at every step is multiplication by 33, from 5381 |
| `Paths.HashIsDigits` | libs/LSO_LIB/hash_utils.c:11-30 | the hash is the remainder modulo 2^64 of the number with the characters as digits of base 33 after 5381, wherever the wrap-around happens |
| `Chains.InsertRefinesPush` | libs/LSO_LIB/hash_utils.c:60-81 | insertion pushes on the stack of its key and touches no other key; chains stay sorted, items in the bucket of their hash |
| `Chains.RemoveRefinesPop` | libs/LSO_LIB/hash_utils.c:83-125 | removal pops the stack of its key and touches no other key; chains stay sorted, items in their bucket |
| `Chains.GetRefinesPeek` | libs/LSO_LIB/hash_utils.c:126-150 | a lookup sees the top of the stack of its key |
| `Chains.HistoryIsFaithful` | libs/LSO_LIB/hash_utils.c:60-150 | over every history the table is a map from keys to stacks |
| `Chains.ReplayRefines` | libs/LSO_LIB/hash_utils.c:60-125 | after every history the chains are sorted and hold exactly the stacks that the history leaves |
| `Chains.SearchIsExact` | libs/LSO_LIB/hash_utils.c:228-244 | the search in a sorted chain finds a key exactly when it is there |
| `Chains.RemoveItemIsPop` | libs/LSO_LIB/hash_utils.c:83-125 | on one chain, removal takes the first item of its key and lookup returns it |
| `Chains.InsertItemKeepsSorted` | libs/LSO_LIB/hash_utils.c:60-81 | a chain stays sorted under insertion |
| `Chains.RemoveItemKeepsSorted` | libs/LSO_LIB/hash_utils.c:83-125 | a chain stays sorted under removal |
| `TableMap.TraversalIsExact` | libs/LSO_LIB/hash_utils.h:11-18 | the traversal visits every stored entry once and nothing else |
| `TableMap.TraversalInOrder` | libs/LSO_LIB/hash_utils.h:11-18 | the buckets come in ascending order, and the keys of a bucket in theirs |
| `TableMap.InsertIntoMap` | libs/LSO_LIB/hash_utils.c:60-81 | for a key that is not stored, insertion is insertion into a map |
| `TableMap.RemoveFromMap` | libs/LSO_LIB/hash_utils.c:83-125 | when no key is stored twice, removal is removal from a map |
| `HashTables.HashTable.Put` | libs/LSO_LIB/hash_utils.c:60-81 | the relinked chains hold exactly the table with the item inserted; acyclic, each node in one chain |
| `HashTables.HashTable.Delete` | libs/LSO_LIB/hash_utils.c:83-125 | the relinked chains hold exactly the table with the item removed; an error exactly when there is none |
| `HashTables.HashTable.Find` | libs/LSO_LIB/hash_utils.c:126-150 | the lookup in the nodes is the lookup in the table as a value |
| `HashTables.HashTable.IsEmpty` | libs/LSO_LIB/hash_utils.c:152-173 | true exactly when every chain is empty |
| `HashTables.HashTable.Traverse` | libs/LSO_LIB/hash_utils.h:11-18 | visits bucket after bucket, each chain in order |
| `HashTables.Navigate` | libs/LSO_LIB/hash_utils.c:228-244 | stops at the first item that the key does not sort after, with its predecessor |
| `HashTables.ChainUnique` | libs/LSO_LIB/hash_utils.c:228-244 | a chain is determined by its head, so it has no cycle |
| `Arrays.UArr.Insert` | libs/LSO_LIB/array_utils.c:54-72 | appends one element or refuses when full; the flag is cleared |
| `Arrays.UArr.IndexOf` | libs/LSO_LIB/array_utils.c:123-138 | finds a matching index exactly when there is one, by either search |
| `Arrays.UArr.Remove` | libs/LSO_LIB/array_utils.c:73-97 | the multiset loses exactly one matching element; fails exactly when none matches |
| `Arrays.UArr.Sort` | libs/LSO_LIB/array_utils.c:148-162 | the same elements, sorted; nothing is done when the flag says they are |
| `Arrays.UArr.Extend` | libs/LSO_LIB/array_utils.c:163-176 | elements that no longer fit are cut off, the flag stays true to the contents |
| `Arrays.BinarySearch` | libs/LSO_LIB/array_utils.c:123-138 | in a sorted array, finds a match exactly when there is one |
| `Arrays.LinearSearch` | libs/LSO_LIB/array_utils.c:123-138 | finds a match exactly when there is one |
| `Arrays.SortSeqSorted` | libs/LSO_LIB/array_utils.c:148-162 | sorting by a total preorder gives a sorted sequence |
| `SortedLists.InsertRefines` | libs/LSO_LIB/list_utils.c:46-69 | insertion keeps the list sorted and adds exactly one element |
| `SortedLists.FoundIffPresent` | libs/LSO_LIB/list_utils.c:86-92 | removal finds an equal element exactly when there is one |
| `SortedLists.RemoveRefines` | libs/LSO_LIB/list_utils.c:70-110 | removal takes out one equal element and nothing else, and keeps the list sorted |
| `SortedLists.IndexIsFirst` | libs/LSO_LIB/list_utils.c:122-140 | for a present element the index of the first equal one; for an absent one not -1 exactly when some element sorts after it |
| `SortedLists.LinkedList.Insert` | libs/LSO_LIB/list_utils.c:46-69 | the relinked nodes, each once and counted, hold the list with the element inserted |
| `SortedLists.LinkedList.Remove` | libs/LSO_LIB/list_utils.c:70-110 | the relinked nodes, all of them old ones, hold the list with the element removed; false exactly when none is equal |
| `SortedLists.LinkedList.IndexOfObj` | libs/LSO_LIB/list_utils.c:122-140 | the walk gives the index as specified |
| `SortedLists.LinkedList.Get` | libs/LSO_LIB/list_utils.c:152-174 | the element at the index, or nothing outside the list |
| `Streams.EvictRoundTrip` | src/serverapi.c:31-79 | the client recovers exactly the evicted files, in order, and stops exactly after the final word, if and only if none has an empty path or empty contents |
| `Streams.ReadRoundTrip` | src/serverapi.c:465-533 | the client recovers exactly the files sent and leaves the rest alone if and only if no path is empty; in every case it ends with the error that a zero length is to it |
| `Streams.ReadStreamDecodes` | src/serverapi.c:483-532 | the client recovers the files before the first one with an empty path |
| `Streams.RecoveredIsSendable` | src/serverapi.c:31-79 | a client that recovers the evicted files, however it ends, was sent no empty path and no empty file |
| `Streams.TakeSentParcel` | src/serverapi.c:196-273 | a sent path and its data are read back, up to the byte |
| `Streams.ZeroLengthIsSkipped` | src/serverapi.c:231-273 | a frame with an explicit length of zero is passed over by both loops |
| `Streams.EmptyFileBlocks` | src/server.c:1400-1421 | an empty evicted file that is followed by another leaves the client waiting |
| `Streams.CutEvictStreamBlocks` | src/serverapi.c:31-79 | the stream tells its own end: of a part of it, however long, the client waits for the rest |
| `Streams.CutReadStreamBlocks` | src/serverapi.c:483-532 | the same for the answer to readNFiles |
| `Streams.SendablePrefix` | src/serverapi.c:31-79 | files with path and data are recovered whatever follows them |
| `Streams.EmptyStringEndsReading` | src/serverapi.c:485-492 | a path that starts with the terminating NUL ends the loop |
| `Streams.SapiEvict` | src/serverapi.c:31-79 | the loop decodes every stream, well formed or not, as the specification does |
| `Streams.ReadNFiles` | src/serverapi.c:483-532 | the loop decodes every stream, well formed or not, as the specification does |
| `Words.RequestWordRoundTrip` | include/server_message.h:27-33 | for every flag byte: its two low bits always arrive, the operation exactly when the other bits are bits of the operation already, the length exactly when it is below 2^24 |
| `Words.DecodeEncode` | src/server.c:1383-1398 | a word that fits survives the wire |
| `Words.EncodeIsLittleEndian` | src/server.c:1383-1398 | the bytes on the wire are those of the number, the lowest first |
| `Clients.RequestsArrive` | src/serverapi.c:116-134 | the word that the client packs without flags arrives as the request that was meant, for every operation |
| `Clients.OpenArrives` | src/serverapi.c:360 | for every value of the flags, an opening arrives as the one that was meant exactly when the byte sent is below 0x10 |
| `Clients.OpenBecomesAppend` | src/serverapi.c:360 | with the flag 0x10 the request is an append |
| `Clients.OthersAreUnknown` | src/server.c:315-347 | an operation is unknown to the server exactly when it lies outside OPENFILE to REMOVEFILE |
| `Clients.ReadNFilesEndToEnd` | src/server.c:864-934 | the client recovers, each once and in table order, the first N files that can be locked and have data, exactly when the 24 bits of N that arrive suffice and no path is empty; it never returns their number |
| `Clients.PickedIsPrefix` | src/server.c:872-925 | the files sent are the first n of those that can be sent |
| `Clients.AppendEndToEnd` | src/serverapi.c:659-717 | from the request word to the verdict: a stranger sees the refusal; the holder sees the true result, saves exactly the evicted files and reads exactly its answer, if and only if no eviction was announced or it saves the files and none is empty or without a path |
| `Clients.AppendToFile` | src/serverapi.c:677-717 | the client reads every answer as the specification does |
| `Clients.CutAnswerWaits` | src/serverapi.c:677-717 | as long as something of the answer is missing the client waits |
| `Clients.NamelessFileBreaks` | src/serverapi.c:31-40 | an evicted file with an empty path makes the client report failure, with the files before it saved |
| `Clients.LockableOnce` | src/server.c:872-925 | no file is sent twice, and none whose mutex is taken |
| `Clients.AnswerIsSent` | src/server.c:974-1150 | the exact bytes of the answer to a write or an append of the holder |
| `PollArrays.AddRemoveAreExact` | src/poll_utils.c:38-85 | adding counts one more entry of the descriptor if there is room, removing one less if there is one, and nothing else changes |
| `PollArrays.EntriesAreExact` | src/poll_utils.c:38-85 | in whole entries: the one added has the events asked for and none received, the one removed is the last of its descriptor, and the entries before it stay in place |
| `PollArrays.PolledIffPresent` | src/poll_utils.c:57-85 | a descriptor is polled exactly when some slot in use holds it |
| `PollArrays.PollArr.Add` | src/poll_utils.c:38-55 | appends in place unless full; the slots past the end stay zero |
| `PollArrays.PollArr.Remove` | src/poll_utils.c:57-85 | takes out the last entry of the descriptor; with no entries and the flag down it matches nothing and does not underflow |
| `Connections.OwnershipIsPerConnectionIff` | src/server.c:147-182 | over every run of dispatcher, workers and handlers, the number in a file stands for the connection that opened it, at every moment, if and only if accept returns no number that still stands in a file |
| `Connections.StepIsProperIff` | src/server.c:158-163 | the same for one step |
| `Connections.OnlyTheOpenerIsServed` | src/server.c:802-809 | until then every ownership test is passed by the opener only |
| `Connections.ReuseSteals` | src/server.c:1205-1217 | afterwards a stranger reads and removes the file |
| `Connections.NumbersAreReused` | src/server.c:147-163 | a run from the start in which it happens |
| `Connections.OrphanStays` | src/server.c:149-153 | a file whose opener hung up stays as it is, out of everybody's reach, until the number is given out again |
| `Connections.RunKeepsSound` | src/server.c:127-270 | over every run the invariants of storage and dispatcher hold together, connected are exactly the open descriptors, and the opener of every held file is known |
| `Dispatcher.ServedByAtMostOne` | src/server.c:147-182 | in every interleaving a client is served by at most one worker, while it is live, and is not polled meanwhile except between assignment and removal |
| `Dispatcher.DispatcherTouchesOnlyIdleClients` | src/server.c:147-182 | the dispatcher closes and assigns only clients that no worker serves |
| `Dispatcher.LiveClientIsSomewhere` | src/server.c:225-264 | a live client is always polled or served |
| `Dispatcher.EveryEntryIsWatched` | src/server.c:158-163 | over every run, every entry of the poll array asks for input |
| `Dispatcher.AnyClientCanBeAccepted` | src/server.c:156-163 | while the listener is polled and there is room, any closed descriptor can become that of a new, polled client, and nobody else is concerned |
| `Dispatcher.AnyClientCanBeServed` | src/server.c:225-264 | any polled client can be given to any worker within three actions |
| `Dispatcher.AnyClientCanHangUp` | src/server.c:149-153 | any polled client can hang up; its descriptor is closed and polled no more, and no other entry goes |
| `Dispatcher.AnyClientCanBeLost` | src/server.c:226-237 | a served client whose request cannot be read leaves a free worker and an open descriptor that is never polled again |
| `Dispatcher.FailedAcceptsStay` | src/server.c:158-163 | over every run, every failed accept for which there was room takes one slot of the poll array for ever |
| `Dispatcher.ListenerIsPolledUntilStopped` | src/server.c:139-140 | the listener is polled until the dispatcher stops listening and never after, so nobody is accepted after that |
| `Dispatcher.ActionKeepsInv` | src/server.c:147-182 | poll entries plus serving workers equal one if the client is live plus one if it is being moved, after every action |
| `ServerData.ServerInfos.AddClient` | src/server.c:158-163 | accept and pu_add on the shared data are one action of the model |
| `ServerData.ServerInfos.AssignClient` | src/server.c:401-441 | a round of the search succeeds exactly when a worker is free, takes the first free one from where the last search stopped, and changes its slot alone; otherwise nothing changes |
| `ServerData.ServerInfos.TakeAssigned` | src/server.c:174-177 | the entry removed is the one that was assigned, although workers may have added entries since |
| `ServerData.ServerInfos.DropHungUp` | src/server.c:149-153 | one action of the model |
| `ServerData.ServerInfos.WorkerPutsBack` | src/server.c:257-260 | the client is polled again, or dropped when the array is full |
| `ServerData.ServerInfos.WorkerFrees` | src/server.c:226-264 | the slot is cleared, and the client is lost if it was not put back |
| `ReadersWriter.ReachableStatesAreSafe` | TEST/src/thread_utils.c:9-74 | in every reachable state the three counters count exactly their threads, readers and a writer exclude each other, and every sleeper still has to wait |
| `ReadersWriter.SleepersAreWaitingForSomeone` | TEST/src/thread_utils.c:34-38 | whenever a thread sleeps, another holds the lock or is runnable |
| `ReadersWriter.WriterPreference` | TEST/src/thread_utils.c:17-21 | while a writer waits no thread starts to read; the readers of the end are readers of the start, less those that left |
| `ReadersWriter.WaitingWriterCanEnter` | TEST/src/thread_utils.c:52-57 | from every safe state the active writer or the readers in place can leave and a waiting writer then enters |
| `ReadersWriter.ReadersShare` | TEST/src/thread_utils.c:17-21 | from every safe state with no writer waiting or writing, any idle threads can all be reading after one action each, besides those that read already |
| `ReadersWriter.ReaderEntersIff` | TEST/src/thread_utils.c:17-21 | a reader gets in exactly when both writer counters are zero, however many read, and otherwise sleeps |
| `ReadersWriter.WriterEntersIff` | TEST/src/thread_utils.c:51-57 | a writer gets in exactly when nobody reads or writes, however many wait, and is counted as waiting until then |
| `ReadersWriter.LeavingWakes` | TEST/src/thread_utils.c:34-38 | leaving wakes every sleeper when nobody is left in the lock, and nobody otherwise |
| `ReadersWriter.ActionKeepsInv` | TEST/src/thread_utils.c:9-74 | every critical section and every spurious wakeup keeps the invariant |
| `ReadersWriter.MrswMutex.LockReader` | TEST/src/thread_utils.c:9-24 | enters exactly when `waiting_writers` and `writing` are zero; the update of the counters is the action of the model |
| `ReadersWriter.MrswMutex.UnlockReader` | TEST/src/thread_utils.c:26-41 | the update of the counters is the action of the model |
| `ReadersWriter.MrswMutex.LockWriter` | TEST/src/thread_utils.c:43-60 | enters exactly when `active_readers` and `writing` are zero; the update of the counters is the action of the model |
| `ReadersWriter.MrswMutex.UnlockWriter` | TEST/src/thread_utils.c:62-74 | the update of the counters is the action of the model |

## Left out

- Servers.Serve: each handler is taken as one atomic step. The code looks a file up before it takes the storage mutex (server.c:708, 748), updates the byte counter after releasing it (server.c:1000, 1021), and does not release it on the branch for a file of another client (server.c:964-969, 1071-1076).
- Servers.Serve: the paths in use are assumed prefix-free within each bucket of the table; `PathTable.TableTrustedIffPrefixFree` says that the table is not to be trusted otherwise.
- Servers.Serve: reading the path, the data and the save-back flag always succeeds, and the client of a request that is refused or not known sends nothing more. (A client that sends its data after a refusal leaves it in the socket for the next request.)
- Servers.RemoveFile: the path is used after it is freed (server.c:1194, 1214); the model keeps its value.
- Servers.ReadNFiles: the items are collected first and visited then; the handler visits them inside the traversal. No handler changes the chains in between.
- FileStorages.FileStorage.AddFile: a path that is already stored, which the insertion would shadow, is not modelled; the one caller has looked before. `Chains.InsertRefinesPush` covers shadowing in the table.
- FileStorages.InitFileStorage: the zeroed storage that the source returns for a maximum of zero is null here.
- Eviction.CompareIsSoundIff: negation of the least `int`, undefined in C, is taken to leave it unchanged.
- Runs.AccountsAreExact: the allocator's limit of 2^22 bytes and its exit on failure are not modelled.
- Dispatcher.ServedByAtMostOne: liveness of the dispatcher and of the workers depends on fair scheduling and is not stated; the timed wait of a worker and the shutdown flags are not modelled.
- ReadersWriter.ReachableStatesAreSafe: the counters are unbounded, and only threads that call the functions in matching order are modelled.
- ServerData.ServerInfos.AssignClient: one round of the search; the source makes rounds until a worker is free.
- The path of a file on the wire is its bytes without the terminating NUL; a file's data and length are one sequence.
- Sockets, poll, signals, threads, logging, settings, `client.c`, the statistics, and all disk access (`dir_utils.c`, `fu_file_read`, `fu_file_write`, `fu_ensure_path`, saving decoded files).
- `writeFile` of the client library, which sends its flag twice and then no data when files are evicted (serverapi.c:585-607).
- `server_lockFile` and `server_unlockFile` are stubs in the source and do nothing in the model.
- `au_shrinks`, `fu_nreadfile`, `fu_readfile`, the growable string of `string_utils.c` and `lu_plain_arr`: they would only add easy members.
