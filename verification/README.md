# A verified model of the chat server

The repository is a chat server in C: clients register, log in, and create, join and leave groups; each group has a
multicast address. The server stands on its own generic containers. This project models it from the containers up to
the exchange between client and server and proves what each layer promises to the next, over whole runs.

| layer | modules | the C files |
|---|---|---|
| lists and iterators | `LinkedList`, `ListItr`, `ListFunctions` | `GenericDLinkedList/LinkedListGeneric.c`, `GeneticListIter/LinkedListGenericIter.c`, `ListFunction/ListFunctionGen.c` |
| hash map | `Primes`, `HashTable`, `GenericHash` | `GenericHash/GenericHash.c` |
| queue and address pool | `RingQueue`, `GenericQueue`, `AddressPool`, `PoolAddr` | `GenericQueue/GenericQueue.c`, `PoolAddr/PoolMultyCastAdd.c` |
| select loop | `SelectLoop`, `ServerTCP` | `ServerTCP/server_tcp.c` |
| database | `DatabaseKeys`, `ChatState`, `ChatRuns`, `UserDatabase`, `GroupDatabase`, `DataBase`, `SharedKeys` | `ServerDB/DataBase.c` |
| messages | `Wire`, `Protocol`, `ServerApp`, `Application`, `Client` | `Protocol/Protocol.c`, `ServerApp/ServerApp.c`, `Client/Client.c` |

An object that the C code updates in place is a class here, and its methods have the C code's loops and branches. A
method is proved against a function on values: what the function means is then proved in lemmas, up to runs of any
length. `GenericHash.HashMap`, `GenericQueue.Queue`, `PoolAddr.IPPoolAddr`, `DataBase.ChatDataBase` and
`ServerTCP.Server` are such objects; `HashTable`, `RingQueue`, `AddressPool`, `ChatState` and `SelectLoop` hold their
functions, `ChatRuns` the theorems about runs of the database. The objects stack up as in the C code: the server's list
and the hash map's chains are heap lists of `LinkedList`, walked with the iterators of `ListItr`; the database holds
hash maps of user and group records, each user record a hash map of its own, and an address pool over a queue; and the
server holds the application, with the receive buffer and the database behind it, and calls it between recv and send.

`dafny verify dfyconfig.toml` checks everything.

## Main results

- **Select loop.** In every state the loop reaches, the clients' expiry times read from head to tail first fall and
  then rise (`RunKeepsInv`, `ValleyShape`); the descriptor set is exactly the open descriptors and exactly the listed
  clients and the master socket; the list never exceeds 1001 clients. A serving pass misses no ready client although
  it stops when its count is used up, and leaves the served ones in reverse before the idle ones (`ReceiveAndSend`,
  `ServedExactly`). The expiry check is all or nothing (`ExpiryAllOrNothing`), and the oldest client is not always the
  head (`OldestOutstays`). `TimeoutExactly`, `ActivityExactly` and `AcceptedExactly` say what a turn does to every
  client.
- **Hash map.** For every hash that agrees with the equality, any run of operations gets from the table the replies of
  a finite map (`FreshRunRefines`), and the object computes the table (`HashMap.Insert` and the others).
- **Primes.** The table size is the least prime from the capacity on; the search ends because there is always one.
- **Lists.** All operations keep the links mutual inverses from sentinel to sentinel and act as sequence operations.
  Comparing iterators by data is an exact end test. A splice in one list moves its range in order exactly if
  `ListFunctions.Clear` holds of its positions (`SpliceWithin`). For every other destination (`ClearIff`) it fails
  (`SpliceTurns`): at the first item or directly behind it the loop frees the destination's node, and further on, up to
  the stop item itself, it is still running after any number of turns.
- **Queue and pool.** The ring is a bounded queue in every run that takes nothing from an empty ring, and keeps its
  tail equation in every run (`RunKeepsBalance`). In a disciplined run of the pool each generated address is either
  queued or out, exactly once. The generator counts in base 254 from 229.1.0.1 on (`AddressText`), and its addresses
  differ up to 254 * 256.
- **Database.** Login succeeds exactly with the first password registered, for ever. Two groups share an address
  exactly when their numbers agree modulo 50; joiners are told the creator's address. A group's participant count is
  one plus joins minus leaves, and only its creator can leave it, once (`LeaveSucceedsIff`). The object that
  does this changes records in place that its hash maps point to.
- **Messages.** For register, login, create and join, and hosts of either byte order, the client's result is the
  database's outcome (`UserRegister`, `UserLogIn`, `CreateNewGroup`, `JoinToGroup`). A leave request arrives intact
  exactly under the condition of `LeaveRequestReadAsIff`. Every byte of an answer that says something is fixed
  (`GetFromClientAndSendToServer`).
- **Everything together.** Over every possible run of the select loop, the database ends as after serving the requests
  received, in the order in which the loop serves its clients, and each was answered as the database answers it at that
  point (`Server.RunServer`), so the theorems about runs of the database hold of it. Whoever receives such an answer
  reads that outcome off it (`EveryAnswerReads`).

## Assumptions

- The data of list sentinels is NULL. The C code never sets it (GenericDLinkedList/LinkedListGeneric.c:37-50).
- The next node is read before a node is removed and freed; the C code reads it after (ServerTCP/server_tcp.c:319-323).
- The queue's head, tail and counter start at 0; the C code leaves them as malloc does (GenericQueue/GenericQueue.c:34-50).
- The keys of the database are copies of the names; in the C code they point into the receive buffer
  (ServerDB/DataBase.c:203, 374). What registering and logging in do with the pointers is in `SharedKeys`: a name is
  then taken as soon as any registered name falls in its bucket.
- Allocation succeeds. Memory from malloc holds arbitrary bytes. Arguments are not NULL and magic numbers are right.
- Names and passwords have at most 16 characters, none of them NUL: the database's buffers hold 17 bytes
  (ServerDB/DataBase.c:15-33).
- `size_t` is unbounded in the prime search and in the table. The queue's and the pool's counters wrap at 2^64.
- Time is an integer and does not run backwards. What select, accept, recv and send return is the argument of a turn;
  select reports a nonempty part of the descriptors it was given, and accept returns a descriptor not in use.
- Structs are laid out as compilers for machines with aligned 32-bit enumerations do: answers at offset 4 or 20.
- A message arrives whole, at the start of the receiver's buffer; the bytes behind it are arbitrary.

## Where code and documentation disagree

The model follows the code.

- ServerTCP/server_tcp.c:545 calls the head of the list the oldest client. After the first service it need not be:
  `SelectLoop.HeadIsOldestIff`, `SelectLoop.OldestOutstays`.
- ServerTCP/server_tcp.h:66 allows 1000 clients. The test at ServerTCP/server_tcp.c:433 lets the 1001st in:
  `SelectLoop.FullHouse`.
- ListFunction/list_functions.h:102-105 rules out a destination between begin and end, and so allows the end itself. In
  one list, with two items or more to move, a splice in front of its own end never ends: `ListFunctions.SpliceTurns`.
- GeneticListIter/list_itr.h:28 says that equal iterators refer to the same node. The code compares data:
  `ListItr.EqualsIsIdentityIffDistinct`.
- GeneticListIter/list_itr.h:40-41 says that stepping back from the first element returns it. The code reaches the
  head sentinel: `ListItr.Prev`.
- GenericHash/HashMap.h:12-13 promises a prime size and eager lists. Capacity 1 gives size 1, and a chain is created
  when its bucket is first used: `GenericHash.Create`, `GenericHash.HashMap.CreateChain`.
- ServerDB/DataBase.c:124-129 speaks of clients already connected. Nobody ever is: `ChatRuns.LoginExact`.

## Model

| member | source | states |
|---|---|---|
| LinkedList.List.constructor | GenericDLinkedList/LinkedListGeneric.c:32-51 | a new list is two sentinels linked to each other, with no elements between |
| LinkedList.List.PushHead | GenericDLinkedList/LinkedListGeneric.c:83-114 | one new node directly after the head sentinel, every other node in its place; NULL is refused and changes nothing |
| LinkedList.List.PushTail | GenericDLinkedList/LinkedListGeneric.c:117-142 | one new node directly before the tail sentinel, every other node in its place; NULL is refused |
| LinkedList.List.PopHead | GenericDLinkedList/LinkedListGeneric.c:144-168 | the first element comes out and its node is gone; an empty list says so and stays |
| LinkedList.List.PopTail | GenericDLinkedList/LinkedListGeneric.c:171-195 | the last element comes out and its node is gone; an empty list says so and stays |
| LinkedList.List.Size | GenericDLinkedList/LinkedListGeneric.c:197-216 | the counting walk ends at the tail sentinel and has counted the elements |
| ListItr.Begin | GeneticListIter/LinkedListGenericIter.c:19-28 | the first element, or the tail sentinel of an empty list |
| ListItr.End | GeneticListIter/LinkedListGenericIter.c:29-42 | the tail sentinel |
| ListItr.Next | GeneticListIter/LinkedListGenericIter.c:59-66 | one position towards the tail; the tail stays |
| ListItr.Prev | GeneticListIter/LinkedListGenericIter.c:68-82 | one position towards the head; the guard against a self-linked node never applies |
| ListItr.Get | GeneticListIter/LinkedListGenericIter.c:84-93 | the element at the position, nothing at a sentinel |
| ListItr.Set | GeneticListIter/LinkedListGenericIter.c:95-106 | replaces one element and returns the old one; exactly a NULL element or an element position leaves the list valid |
| ListItr.InsertBefore | GeneticListIter/LinkedListGenericIter.c:108-129 | one new node before the position, all other nodes and elements in order |
| ListItr.Remove | GeneticListIter/LinkedListGenericIter.c:131-148 | the node of the position is gone, all others stay in order; at the tail nothing happens |
| ListItr.EndTestExact | GeneticListIter/LinkedListGenericIter.c:44-57 | comparing with the end by data agrees with comparing nodes at every position but the head sentinel |
| ListItr.EqualsIsIdentityIffDistinct | GeneticListIter/LinkedListGenericIter.c:44-57 | between elements, data comparison is node identity exactly when no element occurs twice |
| ListItr.InsertThenRemove | GeneticListIter/LinkedListGenericIter.c:108-148 | inserting before an iterator and removing what was inserted gives the list back, node for node |
| ListItr.RemoveThenInsert | GeneticListIter/LinkedListGenericIter.c:108-148 | removing an element and inserting it before the one behind it gives the elements back |
| ListFunctions.StopAt | ListFunction/ListFunctionGen.c:137 | the first item of the range that carries the end's data: there the data comparison ends the loop |
| ListFunctions.SplicedStep | ListFunction/ListFunctionGen.c:139-141 | one turn of the loop carries one more item of the range over, and where iterator and destination stand then |
| ListFunctions.GuardExact | ListFunction/ListFunctionGen.c:137 | in one list the loop goes on exactly until the cursor is at the stop item |
| ListFunctions.SpliceWithin | ListFunction/ListFunctionGen.c:127-146 | in one list, the loop ends and the items up to the stop item stand before the destination, in order, all others in their order |
| ListFunctions.SpliceAcross | ListFunction/ListFunctionGen.c:127-146 | between two lists, the items leave one and stand before the destination in the other, in order |
| ListFunctions.WholeRangeMoves | ListFunction/ListFunctionGen.c:137 | the whole range moves exactly when none of its items repeats the end item |
| ListFunctions.SplicedIsPermutation | ListFunction/ListFunctionGen.c:127-146 | a splice in one list loses and duplicates nothing |
| ListFunctions.SplicedIs | ListFunction/ListFunctionGen.c:127-146 | the result of a splice cut into four pieces of the old list |
| ListFunctions.ClearIff | ListFunction/ListFunctionGen.c:137-142 | the destinations for which a splice in one list fails: the first item, the one behind it, or any further one up to the stop item, when there is more to move |
| ListFunctions.SpliceTurn | ListFunction/ListFunctionGen.c:139-141 | one turn, at any positions: it frees the destination's node exactly if the iterator stands there, and otherwise carries the item over |
| ListFunctions.SpliceTurns | ListFunction/ListFunctionGen.c:127-146 | for exactly those destinations, after any number of turns: the destination's node is freed in the first or second turn, or the loop is still running |
| ListFunctions.SpliceNeverEnds | ListFunction/ListFunctionGen.c:137-142 | rotating the items in front of the destination never brings an item that carries the end's data to the cursor |
| Primes.CheckIfPrime | GenericHash/GenericHash.c:58-83 | trial division by 2 and odd numbers up to the root decides primality exactly, but for 1 |
| Primes.FindPrimeLargerThan | GenericHash/GenericHash.c:86-94 | terminates for every number; from 2 on the result is the least prime not below it, 0 and 1 give 1 |
| Primes.PrimeAbove | GenericHash/GenericHash.c:86-94 | there is a prime from every number on, so the search ends |
| HashTable.SearchIsLookup | GenericHash/GenericHash.c:384-402 | the chain search finds a pair exactly if the map knows the key, and it is the pair stored under it |
| HashTable.FindRefines | GenericHash/GenericHash.c:353-406 | finding gives the value the map has under the key, or nothing |
| HashTable.InItsBucket | GenericHash/GenericHash.c:224 | every pair lies in the bucket of its hash modulo the size |
| HashTable.InsertRefines | GenericHash/GenericHash.c:198-268 | inserting adds the pair to the map, or reports a duplicate and changes nothing; pairs stay in their buckets, no two keys equal, the count exact |
| HashTable.InsertKeepsOk | GenericHash/GenericHash.c:224-260 | a pair put at the head of its chain after a failed search keeps the table in order, whatever the equality does |
| HashTable.RemoveKeepsOk | GenericHash/GenericHash.c:324-330 | taking a pair out of any chain keeps the table in order |
| HashTable.RemoveRefines | GenericHash/GenericHash.c:275-332 | removing hands out the stored key and value and takes that key from the map, or finds nothing and changes nothing |
| HashTable.StepRefines | GenericHash/GenericHash.c:198-406 | every operation answers as the map does and keeps table and map in step |
| HashTable.RunRefines | GenericHash/GenericHash.c:198-406 | so does every run, from any table that stores a map |
| HashTable.FreshRunRefines | GenericHash/GenericHash.c:100-406 | so does every run from a new table of any size |
| GenericHash.HashMap.constructor | GenericHash/GenericHash.c:119-133 | a new map has empty chains, none of them created |
| GenericHash.HashMap.SearchChain | GenericHash/GenericHash.c:231-242 | the walk over the heap list ends at the first equal key or at the end |
| GenericHash.HashMap.CreateChain | GenericHash/GenericHash.c:225-228 | creating a chain at first use leaves the contents as they were |
| GenericHash.HashMap.Insert | GenericHash/GenericHash.c:198-268 | the object's chains become exactly those of the table function, with its result code |
| GenericHash.HashMap.Remove | GenericHash/GenericHash.c:275-332 | the same for removing |
| GenericHash.HashMap.Find | GenericHash/GenericHash.c:353-406 | the same for finding, which changes nothing |
| GenericHash.HashMap.Size | GenericHash/GenericHash.c:339-347 | the counter is the sum of the chain lengths |
| GenericHash.Create | GenericHash/GenericHash.c:100-134 | no map for capacity 0; otherwise no prime is skipped, and the size is prime exactly from capacity 2 on |
| RingQueue.InsertKeepsBalance | GenericQueue/GenericQueue.c:86-98 | one insertion keeps the tail equal to head plus insertions minus removals modulo the size |
| RingQueue.RemoveKeepsBalance | GenericQueue/GenericQueue.c:108-119 | one removal keeps it as well, also from an empty ring |
| RingQueue.RunKeepsBalance | GenericQueue/GenericQueue.c:78-137 | so does every run, starved or not: the tail is head plus successful insertions minus removals, the counter that difference modulo 2^64 |
| RingQueue.InsertIsEnqueue | GenericQueue/GenericQueue.c:78-99 | overflow exactly when full, else the item is the last of the queue |
| RingQueue.RemoveIsDequeue | GenericQueue/GenericQueue.c:101-120 | from a nonempty ring the oldest item comes out |
| RingQueue.EmptyTestExact | GenericQueue/GenericQueue.c:122-137 | a ring that holds a queue is found empty exactly when the queue is |
| RingQueue.HoldsIsBalanced | GenericQueue/GenericQueue.c:94-117 | a ring holding a queue has tail = (head + items) modulo the size |
| RingQueue.RemoveKeepsQueueIff | GenericQueue/GenericQueue.c:108-119 | removing leaves a queue exactly when there was an item; else the counter wraps around and the ring no longer counts as empty |
| RingQueue.RunRefines | GenericQueue/GenericQueue.c:78-137 | every run that takes nothing from an empty ring gets the replies of a bounded first-in first-out queue |
| GenericQueue.Create | GenericQueue/GenericQueue.c:25-53 | no queue of fewer than two cells; otherwise an empty one of that size |
| GenericQueue.Queue.Insert | GenericQueue/GenericQueue.c:78-99 | the object becomes what the ring function says, with its result |
| GenericQueue.Queue.Remove | GenericQueue/GenericQueue.c:101-120 | the same for removing, on empty rings as well |
| GenericQueue.Queue.IsEmpty | GenericQueue/GenericQueue.c:122-137 | the empty test of the ring |
| AddressPool.NextAddress | PoolAddr/PoolMultyCastAdd.c:134-139 | the two unsigned chars step from address i to address i + 1 |
| AddressPool.BytesCount | PoolAddr/PoolMultyCastAdd.c:113-140 | i = 254 * addr0 + (addr1 - 1) with 1 <= addr1 <= 254, below 254 * 256 |
| AddressPool.AddressText | PoolAddr/PoolMultyCastAdd.c:107-144 | address i is 229.1.a.b in decimal, with i = 254 * a + b - 1 and 1 <= b <= 254: the first is 229.1.0.1 |
| AddressPool.DecimalDenotes | PoolAddr/PoolMultyCastAdd.c:125 | the digits printed denote the number and have no leading zero |
| AddressPool.DottedInjective | PoolAddr/PoolMultyCastAdd.c:125 | different bytes print different addresses |
| AddressPool.AddressFits | PoolAddr/PoolMultyCastAdd.c:118-125 | every printed address fits its buffer with the terminator |
| AddressPool.AddressesDistinctIff | PoolAddr/PoolMultyCastAdd.c:107-144 | the generated addresses are pairwise different exactly up to 254 * 256 of them |
| AddressPool.GetCycles | PoolAddr/PoolMultyCastAdd.c:61-83 | in a pool only taken from, the k-th address taken is address k modulo 50 |
| AddressPool.CounterFalls | PoolAddr/PoolMultyCastAdd.c:61-105 | in every run the counter falls by one for each address taken, modulo 2^64; giving back does not raise it |
| AddressPool.GiveFailsIff | PoolAddr/PoolMultyCastAdd.c:94-98 | giving back fails, and destroys the pool, exactly when it is full |
| AddressPool.RunConserves | PoolAddr/PoolMultyCastAdd.c:61-105 | under the discipline, queued and handed-out addresses together stay the same multiset and giving back never finds the pool full |
| AddressPool.FilledPoolConserves | PoolAddr/PoolMultyCastAdd.c:26-105 | from the filled pool on, every generated address is queued or out, once, and the destroying branch is never taken |
| PoolAddr.IPPoolAddr.constructor | PoolAddr/PoolMultyCastAdd.c:26-47 | the new pool holds the first addresses in order |
| PoolAddr.IPPoolAddr.InsertAllIPAddrToList | PoolAddr/PoolMultyCastAdd.c:107-144 | the loop over two wrapping bytes fills the queue with addresses 0 to capacity - 1 |
| PoolAddr.IPPoolAddr.GetIPAddress | PoolAddr/PoolMultyCastAdd.c:61-83 | the pool becomes what the pool function says |
| PoolAddr.IPPoolAddr.ReturnIPAddress | PoolAddr/PoolMultyCastAdd.c:85-105 | the same; the caller's pointer is cleared exactly on success, and a full pool is destroyed |
| SelectLoop.ReadyCounted | ServerTCP/server_tcp.c:170-176 | the number of ready clients is the size of the ready part of their sockets: nobody is counted twice |
| SelectLoop.ActivitySuffices | ServerTCP/server_tcp.c:192-200 | select's count covers every ready client, also after a new one has joined the list |
| SelectLoop.PassStep | ServerTCP/server_tcp.c:309-336 | the loop body takes the list of the first n clients looked at to that of n + 1 |
| SelectLoop.PassSettled | ServerTCP/server_tcp.c:309 | stopping early, when the count is used up, changes nothing |
| SelectLoop.ServedExactly | ServerTCP/server_tcp.c:295-338 | every ready client is served once, by the service of its rank: with something received and the answer sent it stands in the list renewed, otherwise it is gone from it; what it sent has reached the application; the others stand in it unchanged |
| SelectLoop.ServedOrder | ServerTCP/server_tcp.c:327-331 | after the pass, whoever was served stands before everybody who stood before it; whoever was not ready stands behind them still |
| SelectLoop.AskedGrows | ServerTCP/server_tcp.c:346-359 | the application is asked, client by client, what the ready clients sent, if recv got it |
| SelectLoop.TimeoutExactly | ServerTCP/server_tcp.c:185-189 | a turn with a timeout keeps everybody if the head is live, and otherwise exactly the live clients; the others are closed and out of the descriptor set; a failed select changes nothing |
| SelectLoop.ActivityExactly | ServerTCP/server_tcp.c:191-200 | a turn with activity serves every ready client, also when a new one is accepted in it: it is renewed if recv got something and send did not fail, and otherwise closed and removed; what it sent reaches the application; the others stay |
| SelectLoop.AcceptedExactly | ServerTCP/server_tcp.c:192-195 | the same turn takes in the new connection with its expiry time, descriptor and maximum, up to 1001 clients; otherwise it brings nobody in |
| SelectLoop.ServeKeepsInv | ServerTCP/server_tcp.c:295-338 | serving keeps the invariant of the loop |
| SelectLoop.AcceptKeepsInv | ServerTCP/server_tcp.c:417-495 | so does accepting, and never beyond 1001 clients |
| SelectLoop.ExpireKeepsInv | ServerTCP/server_tcp.c:231-284 | so does removing clients whose time is up |
| SelectLoop.StepKeepsInv | ServerTCP/server_tcp.c:163-201 | so does every turn the operating system can cause, and time does not run backwards |
| SelectLoop.RunKeepsInv | ServerTCP/server_tcp.c:146-205 | in every reachable state: expiry times fall, then rise; sockets differ; descriptor set = open descriptors = master and listed clients, all up to the maximum; at most 1001 clients |
| SelectLoop.ValleyShape | ServerTCP/server_tcp.c:327-331 | the shape kept is exactly: nonincreasing up to some client, nondecreasing from there |
| SelectLoop.HeadIsOldestIff | ServerTCP/server_tcp.c:545-565 | the head is the oldest client exactly when the list only rises |
| SelectLoop.FullHouse | ServerTCP/server_tcp.c:432-437 | every number of clients up to 1001 is reached by some run |
| SelectLoop.OldestOutstays | ServerTCP/server_tcp.c:545-565 | from every start, a reachable state whose oldest client is not the head and survives the check after its time |
| SelectLoop.ExpiryAllOrNothing | ServerTCP/server_tcp.c:252-268 | the check keeps everybody if the head is live, and otherwise exactly the live clients in their order |
| SelectLoop.ExpiryCompleteIff | ServerTCP/server_tcp.c:252-268 | it clears out everybody whose time is up exactly when the head's is, or nobody's is |
| ServerTCP.Server.constructor | ServerTCP/server_tcp.c:128-161 | the loop starts with no clients and the master socket alone |
| ServerTCP.Server.UpdateTimeForClient | ServerTCP/server_tcp.c:376-384 | the record expires one waiting time from now |
| ServerTCP.Server.ActionFuncSndRcv | ServerTCP/server_tcp.c:341-373 | -1 exactly if recv got nothing or send failed, and then the socket is closed and the expiry time stays; otherwise it is renewed; a message received is served by the application either way |
| ServerTCP.Server.ServeClient | ServerTCP/server_tcp.c:313-334 | a served client moves to the head with a new expiry time, a failed one leaves list and descriptor set; the iterator goes on to the next client |
| ServerTCP.Server.ReceiveAndSend | ServerTCP/server_tcp.c:295-338 | the pass ends; the application was asked what the ready clients sent, in the order of service; the heap list holds the served in reverse, then the idle in order; all failed sockets are gone; the count has dropped by the ready clients |
| ServerTCP.Server.AcceptClient | ServerTCP/server_tcp.c:417-461 | a new record outside the list, descriptor set and maximum updated; nothing when refused or beyond the limit |
| ServerTCP.Server.AddClientToTheList | ServerTCP/server_tcp.c:477-495 | the accepted client stands at the tail with its expiry time |
| ServerTCP.Server.RemoveClientOnTimeout | ServerTCP/server_tcp.c:271-284 | the head client leaves list, descriptor set and open descriptors; the iterator is the new head |
| ServerTCP.Server.CheckExpiryOfClients | ServerTCP/server_tcp.c:231-269 | exactly the expired prefix of the list is removed |
| ServerTCP.Server.TurnOfLoop | ServerTCP/server_tcp.c:163-201 | the object takes the step of the turn; after a timeout its records are those that TimeoutExactly tells, and after a failed select nothing has changed |
| ServerTCP.Server.RunServer | ServerTCP/server_tcp.c:146-205 | after any possible sequence of turns the object is in the state of that run, and the invariant holds; the database is as after serving all requests received, in the order of service, and every answer given is the database's at that point |
| ChatRuns.RunInvariant | ServerDB/DataBase.c:101-386 | in every reachable state: users are those registered with their first password, held groups exist and have one holder, groups have their addresses, counts are exact |
| ChatRuns.LoginExact | ServerDB/DataBase.c:131-169 | login succeeds exactly with the first password registered for the name, never changes the state, and never finds anyone connected |
| ChatRuns.RegisterExact | ServerDB/DataBase.c:101-122 | a name can be registered exactly once |
| ChatRuns.ParticipantsExact | ServerDB/DataBase.c:172-290 | a group's count is 1 + joins - leaves, not below the number of its holders; at most one leave succeeds and at most one user holds it |
| ChatRuns.CreateExact | ServerDB/DataBase.c:172-216 | creating succeeds exactly for a new name and gives the k-th group address k modulo 50 |
| ChatRuns.JoinExact | ServerDB/DataBase.c:218-252 | joining succeeds exactly for the groups created and tells the k-th its address |
| ChatRuns.SharedAddressIff | ServerDB/DataBase.c:197-210 | two groups share an address exactly when their creation numbers agree modulo 50 |
| ChatRuns.AddressStays | ServerDB/DataBase.c:172-290 | no later request removes a group or changes its address |
| ChatRuns.JoinGetsCreatorsAddress | ServerDB/DataBase.c:218-252 | whoever joins, at any later time, is told the address the creator was told |
| ChatRuns.HoldersExact | ServerDB/DataBase.c:254-316 | the holder of a group is its creator, if registered at the time, until that user leaves it |
| ChatRuns.LeaveExact | ServerDB/DataBase.c:254-290 | leaving succeeds exactly for that user, who is told the group's address |
| ChatRuns.LeaveSucceedsIff | ServerDB/DataBase.c:254-290 | read off the requests alone: leaving succeeds exactly for the user who created the group first, had registered before, and has not asked to leave since |
| ChatRuns.MayLeaveIff | ServerDB/DataBase.c:254-316 | that user is the one the history says may leave |
| ChatRuns.FirstPasswordIs | ServerDB/DataBase.c:101-122 | the first password is that of the first request to register the name |
| ChatRuns.CreatedGrows | ServerDB/DataBase.c:172-216 | the groups created are those of the create requests, each in the place of its first one |
| ChatRuns.CreatedIff | ServerDB/DataBase.c:172-216 | a group is among them exactly if some request was to create it |
| ChatRuns.CountsGrow | ServerDB/DataBase.c:218-290 | a join counts if the group was created before, a leave if its user may leave |
| DatabaseKeys.HashFunctionUsers | ServerDB/DataBase.c:447-460 | the loop sums the signed characters; a negative sum wraps to a size_t |
| DatabaseKeys.CharSumIs | ServerDB/DataBase.c:447-460 | one more character adds its code, less 256 from 128 on |
| DatabaseKeys.KeysMakeMaps | ServerDB/DataBase.c:433-460 | hash and equality of the database agree, so runs of insert, remove, find and size answer as a map keyed by the names |
| DatabaseKeys.CreateMap | ServerDB/DataBase.c:327 | a new hash map object with these keys holds the empty map |
| DatabaseKeys.FindIn | ServerDB/DataBase.c:106 | the object finds what the map has under the name |
| DatabaseKeys.InsertIn | ServerDB/DataBase.c:374 | the object inserts under a new name, and reports a duplicate and stays for a known one |
| DatabaseKeys.RemoveFrom | ServerDB/DataBase.c:274 | the object gives up what the map has under the name, or finds nothing |
| UserDatabase.InsertInto | ServerDB/DataBase.c:314 | the hash map inside one user record takes in the group, or has it already |
| UserDatabase.TakeFrom | ServerDB/DataBase.c:274 | the hash map inside one user record gives up the group, or does not have it |
| UserDatabase.UsersDB.constructor | ServerDB/DataBase.c:318-334 | a new user map has no users |
| UserDatabase.UsersDB.FindUser | ServerDB/DataBase.c:142 | the record stored under the name, with the user it holds |
| UserDatabase.UsersDB.AddUser | ServerDB/DataBase.c:368-378 | a new record with a hash map of its own goes under a new name; all records and their hash maps stay apart and the others hold what they held |
| UserDatabase.UsersDB.InsertGroup | ServerDB/DataBase.c:314 | one user's groups grow in place, the other records hold what they held |
| UserDatabase.UsersDB.RemoveGroup | ServerDB/DataBase.c:274-277 | one user's groups shrink in place, the other records hold what they held |
| GroupDatabase.GroupsDB.constructor | ServerDB/DataBase.c:388-407 | a new group map has no groups |
| GroupDatabase.GroupsDB.FindGroup | ServerDB/DataBase.c:228-235 | the record stored under the name, with the group it holds |
| GroupDatabase.GroupsDB.AddGroup | ServerDB/DataBase.c:203 | a new record goes under a new name, the others hold what they held |
| GroupDatabase.GroupsDB.AddToCount | ServerDB/DataBase.c:245-285 | the count changes inside the record the hash map points to; table and other records stay |
| DataBase.ChatDataBase.constructor | ServerDB/DataBase.c:70-87 | a new database has an empty user map, an empty group map and a filled pool, made of different objects |
| DataBase.ChatDataBase.InsertUserToList | ServerDB/DataBase.c:348-386 | a new record with a new hash map is stored under a new name; with the status of a login it is dropped |
| DataBase.ChatDataBase.IsUserNameUnique | ServerDB/DataBase.c:101-122 | hash maps, records and pool take the step of a registration, with its answer |
| DataBase.ChatDataBase.CheckClientStatusAndConnect | ServerDB/DataBase.c:131-169 | the answer of a login, read from the record found; all records hold what they held |
| DataBase.ChatDataBase.UpdateGroupDetailsForUser | ServerDB/DataBase.c:293-316 | the hash map of a registered user's record has the group afterwards, all other records hold what they held |
| DataBase.ChatDataBase.CheckGroupNameAndInsert | ServerDB/DataBase.c:172-216 | hash maps, records and pool take the step of creating a group |
| DataBase.ChatDataBase.TryToJoinToGroup | ServerDB/DataBase.c:218-252 | the step of joining, by a write through the record found |
| DataBase.ChatDataBase.TryToLeaveToGroup | ServerDB/DataBase.c:254-290 | the step of leaving, by a removal from the user's own hash map and a write through the group's record |
| SharedKeys.LookupFindsBucket | ServerDB/DataBase.c:106-374 | with keys that are one pointer into the receive buffer, a register or login lookup finds the first user registered in the name's bucket |
| SharedKeys.TakenIff | ServerDB/DataBase.c:106-374 | so a name is taken exactly if some registered name falls in its bucket |
| SharedKeys.AnagramTaken | ServerDB/DataBase.c:447-460 | after ab has registered, the name ba is taken, in a table of any size |
| Wire.StrCpyReads | Client/Client.c:475-476 | strcpy writes what is then read there as a C string, and nothing else |
| Wire.CodeBytes | Protocol/Protocol.h:39-54 | the four bytes of an enumeration constant on a host of either order |
| Protocol.Pack | Protocol/Protocol.c:7-73 | the buffer is tagged and the answer field of the type converted in place; a leave request falls through; other types change nothing |
| Protocol.UnPack | Protocol/Protocol.c:76-133 | the type is read and the answer field converted in place, for a leave answer as well |
| Protocol.AnswerRoundTrip | Protocol/Protocol.c:33-120 | for the four packed answers the receiver reads type, answer and all other bytes as the sender wrote them |
| Protocol.OthersStay | Protocol/Protocol.c:12-126 | the types that are not handled leave every byte as it was, the leave answer when packed among them |
| Protocol.LeaveAnswerIff | Protocol/Protocol.c:62-126 | a leave answer is read rightly exactly from a big-endian sender, or if it is 0 |
| Protocol.UserRequestReads | Client/Client.c:465-480 | the server reads the type, name and password the client wrote |
| Protocol.GroupRequestReads | Client/Client.c:449-463 | the server reads the type, group and user name the client wrote |
| Protocol.LeaveRequestIff | Protocol/Protocol.c:28-40 | the server reads the right group name from a leave request exactly from a big-endian client, or if the converted bytes read the same backwards as far as the name reaches |
| Protocol.LeaveNameMangled | Protocol/Protocol.c:28-40 | a leave request for abcdefg from a little-endian client names abcgfed |
| ServerApp.CheckUserNameOnDB | ServerApp/ServerApp.c:135-209 | the database takes the step of the request in the buffer, and the answer holds the type after that of the request and the code, byte by byte in the order of the host |
| ServerApp.ANSForGroupRequests | ServerApp/ServerApp.c:62-131 | the same for group requests, with the address the database gave, or an empty one if it gave none, except when the name was taken: then the address field is not written |
| ServerApp.GetFromClientAndSendToServer | ServerApp/ServerApp.c:18-58 | the packed answer has the type after that of the request and says byte by byte, in network order but for a leave, what the database answered, with the address, or the empty text, from byte 1 on; other messages have no answer and no effect |
| ServerApp.RequestLayout | Protocol/Protocol.h:57-70 | where the types, names and passwords lie in a request, in bytes |
| ServerApp.AnswerNumbers | Protocol/Protocol.h:39-54 | the number on the wire of every outcome; a successful leave has that of a join |
| ServerApp.TypesFollow | Protocol/Protocol.h:18-37 | an answer has the type that follows its request |
| ServerApp.SaysBytes | Protocol/Protocol.c:33-73 | the packed answers carry 0, 0, 0 and the number, the leave answer the same in the order of the host |
| ServerApp.AddressesAlwaysFit | ServerApp/ServerApp.c:65-68 | in every reachable database all addresses fit the application's 16-byte buffers |
| Application.ToldOneMore | ServerApp/ServerApp.c:18-58 | one more request, answered in the state the others have led to, keeps every answer the database's at its point |
| Application.Application.constructor | ServerTCP/server_tcp.c:120-132 | the application starts with a new database, asked nothing |
| Application.Application.Serve | ServerTCP/server_tcp.c:346-359 | a message received into the buffer is served: database, requests asked and answers told grow by it together |
| Client.CreateUserDetails | Client/Client.c:465-480 | the packed struct is read by the server as that registration or login |
| Client.InitGroupStruct | Client/Client.c:449-463 | the packed struct is read by the server as that request |
| Client.LeaveRequestReadAsIff | Protocol/Protocol.c:28-40 | the server takes a leave request for the group and user that the client wrote exactly from a big-endian client, for names of at most two characters, or if the converted bytes read the same backwards |
| Client.Exchange | Client/Client.c:130-138 | the unpacked reply tells how the database has served the request |
| Client.UserRegister | Client/Client.c:104-151 | the client's result is success exactly if the database took the name |
| Client.UserLogIn | Client/Client.c:154-207 | each of the four results exactly for the corresponding outcome of the database |
| Client.CreateNewGroup | Client/Client.c:209-258 | success with the database's address, or failure if the name was taken |
| Client.JoinToGroup | Client/Client.c:260-312 | success with the group's address, or failure if there is no such group |
| Client.Converse | Client/Client.c:104-312 | any sequence of registrations, logins, creations and joins leaves a new database as after serving them in order, and each reply tells the database's answer at that point |
| Client.EveryAnswerReads | Client/Client.c:137-311 | whoever receives an answer of the server's loop reads off it what the database answers to that request after those before it |

## Left out

- ListFunctions.SpliceWithin: its precondition is `Clear`; `ListFunctions.SpliceTurns` says what happens otherwise. After the destination's node is freed the C code goes on to use it, and the model stops. NULL iterators are left out.
- ListItr.Prev: the branch that returns the iterator itself is not in the body, because its guard is false in every valid list; the contract says so.
- ListItr.Remove: does not free the node. The C code's node of `ListItr_InsertBefore` is allocated too small, which is not modelled either.
- LinkedList.List.Size: the counter is an int in C; lists of 2^31 elements are not modelled.
- SelectLoop.OldestOutstays: its run is one of the loop with any application; the message that it serves is not a request.
- ServerTCP.Server.ActionFuncSndRcv: a message received must be a whole request; for any other the C code reads its type through a NULL pointer (ServerApp/ServerApp.c:55). The callbacks for welcome and goodbye are left out.
- ServerTCP.Server.constructor: the checks of `CreateServer`'s parameters and the set-up of the master socket are left out.
- ServerTCP.Server.RunServer: the stop signal is the end of the given turns, and `DestroyServer` is left out. The bound on descriptors that an `fd_set` holds is not modelled.
- ChatRuns.ParticipantsExact: the count is an int in C; 2^31 joins are not modelled.
- DataBase.ChatDataBase.TryToJoinToGroup: the C code looks the group up a second time and copies its address to two buffers; the model looks it up once and returns the address.
- DataBase.ChatDataBase.InsertUserToList: the record built for a login and dropped is garbage here and leaked memory in C.
- SharedKeys.LookupFindsBucket: covers registering and logging in. The names in a request about a group lie elsewhere in the buffer, where stored keys read as something else.
- DatabaseKeys.HashFunctionUsers: the sum is an int in C; names are too short for it to overflow.
- Client.UserRegister: failures of the connection are left out, and so is opening the chat windows in creating and joining.
- Leaving through the client (`Leave_Group_Conversation`): its request and its answer do not survive the wire in general, as `Protocol.LeaveRequestIff` and `Protocol.LeaveAnswerIff` state exactly; the database's side is modelled.
- `GetTTL`: the timeout of select is an input of the turn. Its claim about the oldest client is refuted in `SelectLoop`.
- `HashMap_Destroy`, `List_Destroy`, `QueueDestroy`, `DestroyDB`: reclaiming memory.
- `ListItr_CountIf`, `ListItr_FindFirst`, `ListItr_ForEach`, `ListItr_Sort`, `ListItr_Cut`, `ListItr_Unique`: not used by the server.
- `HashMap_Rehash`, `HashMap_ForEach`, statistics and `ListItr_Merge`: declared without a body.
- NULL arguments, magic numbers and failing allocation: each is one early return.
- Sockets, the user interface, chat windows, process ids and signals.
