# Verified model of the hlib containers, event helpers and codecs

This project models the parts of the hlib C++ library, and of the polynomial generator in `anitmt/utils`, in which a wrong index,
a lost bit or a wrong order would go unnoticed, and proves what they are for. Code that works in place is modelled in place: classes
with the source's fields, arrays, and loops with invariants. Every such method is proved against a specification on values, and
the properties of the specification are proved as lemmas.

| files | part of the library |
|---|---|
| `SortedSeq`, `BTreeNode`, `BTreeSiblings`, `BTreeShape`, `BTree` | the B-tree `HLBTree` |
| `LinearAlgebra`, `GaussJordan`, `Polynomial`, `GenPoly` | the polynomial generator |
| `HTime`, `TimeoutClients`, `TimeoutRound`, `TimeoutManager` | times, and the timeout manager with its cached minimum and its callbacks |
| `Fifo`, `PumpPolicy`, `CopyPump`, `CopyRuns` | the ring buffer and the descriptor-to-descriptor pump |
| `Bytes`, `Base64Enc`, `Base64Dec`, `Base64` | streaming base64 |
| `ParamArgs`, `StringList`, `StringGrammar` | arguments and parameters, the printer and parser of string lists, and all the ways to write such a list |
| `StringHash` | the chained string hash |
| `Sequences` | lists in general |

## How the parts are modelled

**B-tree.** A node has its element count, an array of 2m slots and, unless it is a leaf, an array of 2m+1 children. A slot is raw or
holds a live element, and the operator plugin's `ini`, `ass` and `clr` may only be called on a raw, a live and a live slot; they count
their calls. `Good(t, m, h, lo)` says that the nodes on the heap represent the ghost tree `t`: between lo (m below the root, 1 at the
root) and 2m keys, one more child than keys, raw slots and NULL children behind the used ones, all leaves at depth h, no memory shared.
`Valid` adds that the in-order contents are strictly sorted, that the temporary is raw between calls, and that the plugin's balance is
the number of elements. An element is an integer key, which stands for any strict total order (a run only ever compares finitely many
keys), and a payload that distinguishes equal elements. The main result, `BTree.Run`, says that over any run of Store, Remove,
RemoveSmallest and RemoveLargest the tree answers as a finite map does; `BTree.RunsAgree` says that this leaves no answer open.

**Polynomial generator.** Exact reals. A division by a zero pivot, which fills the floating point result with non-finite values, is the
"illegal info" return. `Generate` succeeds exactly when every first part of the list of facts determines the first coefficients
(`GenPoly.Determined`), because the elimination never exchanges rows. So facts that determine the polynomial can be refused when they
are given in an unlucky order: `GenPoly.OrderMatters` gives two facts that are refused in one order and accepted in the other.

**Times.** `Div` divides the seconds, and then their remainder with the microseconds. A time below zero has negative seconds and
microseconds from zero up, so the result is rounded down if the factor divides the seconds and up if it does not: it is not always
truncated toward zero (`HTime.DividedExactly`).

**Timeout manager.** Each client has its sorted list of enabled and its list of disabled timeouts; the manager has the list of clients and
the reorder lock. The linked lists are sequence fields. `Manager.Valid` says that the lists are in order, that each timeout is in exactly
one list of its owner, and that, unless reordering is locked, the first timeout of the first client is the earliest of all. Every public
operation starts and ends in such a state. The conditions asserted at lines 167, 379 and 427 of `timeoutmanager.cc` are proved. The one
at line 260 holds exactly if reordering is not locked or the client is in front already: a callback that installs a timeout earlier
than all others for another client trips it (`InstallTimeout` states when).

When the timer expires, the clients are told what is due while reordering is locked, and a callback may call back into the manager.
A callback is a list of calls that install, change or kill timeouts of any client and add or remove clients; the n-th client told runs
the n-th list of a script. `TimeoutRound` describes such a round as a state machine, and `Manager.TimerNotify` is proved to perform a
complete run of it for every manager, time and script, and to end with the earliest timeout in front. About all complete runs it is
proved that of the timeouts the callbacks leave alone exactly the due ones of the clients served are told, each once disabled and with
its time (`ToldExactly`), and that no client served keeps a due timeout unless a callback gave it its time (`NothingLeft`).

Not every client is served if one leaves while it is being served. The source means to allow that (the comment at
`hlib/fd/timeoutmanager.h:71-73`), but takes the client out of the list first, which clears its link (`hlib/cpp/linkedlist.h:159`), and
then follows the link (`timeoutmanager.cc:418-423`): the walk is over, and the clients behind it are not told (`NobodyToldAfter`). So
"every due timeout left alone is told" is false of the code, and `MissedExactly` says when: such a timeout is missed exactly if its client
is behind one that leaves while it is being served. If the callbacks take no client out of the list, nothing is missed
(`EverybodyServed`). `LeaverEndsRound` gives a family of inputs: if the first callback only removes its own client, it is the only one
run, whatever else is due. The front is still right after that, so the timer is armed with 0 and the rest is told one round later.

A round need not end in the source: a callback that gives a timeout of the client being served a time that is due already is told again,
as the comment at `timeoutmanager.cc:127-131` says. Scripts are finite, so the rounds modelled here end; `ToldAtMost` bounds the
tellings by the timeouts due at the start and the due times the callbacks give, and `AgainAndAgain` shows that one such callback is run
as often as the script allows, whatever its length.

**Ring buffer and pump.** What `read` and `write` do is a parameter: any number of bytes up to the request, the end of the input, or an
error. Ghost fields record all bytes read and written. `PumpPolicy` describes a job by its fill, the bytes read and what is polled;
`CopyRuns.Play` drives the pump itself through every run of that description.
Three facts about the source stand out. A limit of 0 is documented as "unlimited", but `_StartSetup` then sets the buffer size to 0 and
refuses the job; `PumpPolicy.StartsExactly` states when a job can start. And the threshold checks do not force the order that the
comment at `fdcppump_fd.cc:458-463` demands, so a job can start and then stop in both directions. `PumpPolicy.StallsExactly` says
when: some run of a job does so exactly if the source has at least `highRead` bytes and, besides, either `highWrite > highRead`, or
`lowWrite > lowRead` with `highRead` below the limit. `CopyRuns.Stall` drives a started pump there; in every other case
`CopyRuns.CopyAll` runs the job against any schedule of events and any partial transfers, and it ends, within 2n+1 events, with
exactly the first n bytes copied. Default thresholds and buffers below 32 bytes are never in the first case (`ChosenNeverStall`).
A hangup of the input is another way to get stuck, with any thresholds: the job is left flushing, but what is polled is not decided again
(`fdcppump_fd.cc:227-238, 540-570`), so the bytes in the buffer are written exactly if the output was polled at that moment
(`CopyRuns.HangUp`). A source that hangs up before `highWrite` bytes have come leaves them in the buffer with neither end polled
(`CopyRuns.HangUpEarly`). Readiness together with a hangup, the usual POLLIN and POLLHUP, reads once and then treats the input as ended.
A hangup at a stopped end is ignored (`CopyRuns.Ignore`). Continuing both ends of a job of which only one is stopped does nothing and
returns 1 (`Control`; `fdcppump_fd.cc:423-425`).
`ReadBuf` and `WriteBuf` return the number of bytes behind the end of the ring when they wrap, not the number copied; their contracts
say what is returned and, apart from that, what is copied.

**Base64.** Shifts and masks are written as multiplication, division and remainder; that nothing is shifted out of the 32-bit state is
proved (`PackFits`, `PackDecFits`). At the end of a text of whole quartets the encoder asks for room for two characters although it
writes one; its contract says so. Line widths go up to 2^14, as the header demands. What the decoder makes of texts that no encoder
wrote is fixed by `ScanEssential`, `EndsExactly`, `TextBack` and `RestIsFirstPart`, with the alphabet and the characters skipped
enumerated.

**String lists.** A C string is a byte sequence without its terminator. The parser's working copy is an array that is overwritten in
place while it is read; `Unread` says that the part from the read pointer on is still the original text. `StringGrammar.Line` describes
the ways to write a list: strings within quotes or begun outside them, characters as themselves or behind a backslash, white space
between, and a comment in a file. Every text is one of these (`EveryText`), each is read as what it means (`WrittenValue`), and the
printed form is one of them (`PrintedIs`). How an argument of the command
line is spelled, with its dashes, name, sign and value, is `ParamArgs.Spelled`; the constructor reads back what is spelled
(`ParamArgs.SpelledBack`), and an argument has an assignment mode exactly if it spells an assignment (`ModeIfSpelled`). So an option has
none, and the value it takes from the next argument is marked as done and then never assigned: with assertions the program ends at
`defstrlsthdl.cc:231`, where a comment says this should not happen, and without them the mode is refused. With `-` for a mode the
program always ends, as removing strings is not implemented.

**String hash.** A chain is a sequence; a ghost field holds the finite map. The header promises that `remove` stores the value of the
entry in the caller's variable; the source assigns the variable to the entry it deletes, and the variable keeps its value.

## Model

| member | source | states |
|---|---|---|
| BTree.Run | hlib/cpp/btree.h:598-641 | over any sequence of commands the return codes, the elements copied out and the final contents are those of a finite map, and the tree stays valid |
| BTree.RunsAgree | hlib/cpp/btree.h:598-641 | a run on a map has one outcome, so trees of every node size answer alike |
| BTree.RunThen | hlib/cpp/btree.h:598-641 | a run can be extended by one command at its end |
| BTree.StepAgree | hlib/cpp/btree.h:615-641 | one command on a map has one reply and one resulting map |
| BTree.Execute | hlib/cpp/btree.h:598-641 | each public command acts on the tree as on a finite map and keeps it valid |
| BTree.HLBTree.constructor | hlib/cpp/btree.h:533-534 | a new tree is valid and empty and its minimum fill is at least 2 |
| BTree.HLBTree.Store | hlib/cpp/btree.h:598-613 | the map with the key set, 1 exactly if the key was there; sorted, shaped and with exact lifetimes, also after the root splits |
| BTree.HLBTree.StoreAt | hlib/cpp/btree.h:303-365 | a subtree with the element put in, or two good subtrees and a separator whose contents together are that |
| BTree.HLBTree.StoreLeaf | hlib/cpp/btree.h:308-328 | the same for a leaf |
| BTree.HLBTree.StoreBranch | hlib/cpp/btree.h:329-364 | the same for an inner node, whatever its child did |
| BTree.HLBTree.SplitLeaf | hlib/cpp/btree.h:311-327 | wherever the new element falls, m elements go left, one to the temporary and m stay, in order, each slot constructed once |
| BTree.HLBTree.SplitInner | hlib/cpp/btree.h:333-364 | the same with the children, the new one left of its separator, and NULL behind the last child |
| BTree.HLBTree.SplitNode | hlib/cpp/btree.h:333-364 | the two halves of a full inner node are good trees and their contents around the temporary are those before |
| BTree.HLBTree.AddChild | hlib/cpp/btree.h:331-332 | a split child and its separator go into a node with room; contents and shape are kept |
| BTree.HLBTree.HandleUnderflow | hlib/cpp/btree.h:371-414 | exactly one child at m-1 is repaired by a transfer or a merge; the contents stay, and 1 is returned exactly if the node itself falls below m |
| BTree.HLBTree.HandleRootUnderflow | hlib/cpp/btree.h:417-423 | an empty root is replaced by its only child or by no tree |
| BTree.HLBTree.MoveSmallest | hlib/cpp/btree.h:429-436 | the first element of a subtree overwrites a live slot elsewhere and is gone from the subtree |
| BTree.HLBTree.RemoveAt | hlib/cpp/btree.h:442-457 | the subtree without the key, the element found, 2 exactly on underflow and 1 exactly if the key is missing |
| BTree.HLBTree.RemoveSL | hlib/cpp/btree.h:460-471 | the subtree without its first or last element, which is returned |
| BTree.HLBTree.Remove | hlib/cpp/btree.h:624-629 | the map without the key; 0 and the element if it was there, 1 and nothing otherwise |
| BTree.HLBTree.DoRemoveSL | hlib/cpp/btree.h:474-479 | the map without its least or greatest key, or 1 if it is empty |
| BTree.HLBTree.RemoveSmallest | hlib/cpp/btree.h:638-639 | the map without its least key |
| BTree.HLBTree.RemoveLargest | hlib/cpp/btree.h:640-641 | the map without its greatest key |
| BTree.HLBTree.Find | hlib/cpp/btree.h:566-567 | the element of the map under the key, or nothing |
| BTree.HLBTree.FindBelow | hlib/cpp/btree.h:240-248 | the search down one path finds what is in the whole contents |
| BTree.HLBTree.FindSmallest | hlib/cpp/btree.h:251-257 | the first element of the contents |
| BTree.HLBTree.FindLargest | hlib/cpp/btree.h:253-259 | the last element of the contents |
| BTree.HLBTree.FindNeighbours | hlib/cpp/btree.h:576-580 | the match, the greatest key below and the least key above over the whole map, nothing exactly if there is none |
| BTree.HLBTree.NeighboursBelow | hlib/cpp/btree.h:262-277 | the same for a subtree, although each level sees one node |
| BTree.HLBTree.CountElements | hlib/cpp/btree.h:547-548 | the size of the map |
| BTree.HLBTree.CountNodes | hlib/cpp/btree.h:551-552 | the number of nodes of the tree |
| BTree.HLBTree.SizeBounds | hlib/cpp/btree.h:41-50 | L levels hold at least 2(m+1)^(L-1)-1 elements, and N nodes hold between (N-1)m+1 and 2mN |
| BTree.HLBTree.LifetimesExact | hlib/cpp/defop.h:42-49 | constructions minus destructions is the number of elements, and the temporary is raw |
| BTree.HLBTree.DeleteTree | hlib/cpp/btree.h:230-237 | each element of a subtree is destroyed once |
| BTree.HLBTree.Clear | hlib/cpp/btree.h:538-539 | the empty map, and every element constructed has been destroyed |
| BTreeShape.HeightBound | hlib/cpp/btree.h:41-50 | the least number of elements of a tree of a given height |
| BTreeShape.NodeBounds | hlib/cpp/btree.h:41-50 | the elements of a tree bounded by its nodes, both ways |
| BTreeShape.DealtContents | hlib/cpp/btree.h:371-414 | however the keys and children of two siblings and their separator are dealt, the contents stay |
| BTreeShape.PutInChild | hlib/cpp/btree.h:303-365 | putting an element into the child the search chose is putting it into the whole tree |
| BTreeShape.DropInChild | hlib/cpp/btree.h:442-457 | dropping a key from the child the search chose is dropping it from the whole tree |
| BTreeShape.DropSeparator | hlib/cpp/btree.h:445-453 | replacing a separator by the first element of its right subtree, and dropping that there, drops the separator |
| BTreeShape.NeighboursMid | hlib/cpp/btree.h:273-276 | the neighbours in one child, completed by the separators beside it, are the neighbours in the whole contents |
| BTreeNode.Node.LBI | hlib/cpp/btree.h:82-107 | the binary search returns the match or the only index with smaller keys before and greater keys behind |
| BTreeNode.Node.INSLeafNS | hlib/cpp/btree.h:115-121 | the element inserted at the index, one construction |
| BTreeNode.Node.OpenGap | hlib/cpp/btree.h:132-138 | elements and children from the index on are one place higher |
| BTreeNode.Node.INSNS | hlib/cpp/btree.h:130-140 | the element and its left child inserted at the index, one construction |
| BTreeNode.Node.DELLeaf | hlib/cpp/btree.h:143-149 | the element at the index deleted, one destruction |
| BTreeNode.Node.DELL | hlib/cpp/btree.h:153-162 | the element at the index and its left child deleted |
| BTreeNode.Node.DELR | hlib/cpp/btree.h:165-174 | the element at the index and its right child deleted |
| BTreeSiblings.TransferFromRight | hlib/cpp/btree.h:374-386 | the separator goes to the left sibling, the first element and child of the right one take its place |
| BTreeSiblings.TransferFromLeft | hlib/cpp/btree.h:388-400 | the separator goes to the right sibling, the last element and child of the left one take its place |
| BTreeSiblings.Merge | hlib/cpp/btree.h:402-413 | left keys, separator and right keys in the left node, which keeps all children; the right one is left empty |
| SortedSeq.PutIsMapUpdate | hlib/cpp/btree.h:589-594 | putting into a sorted sequence is updating its map, and the length grows exactly if the key was missing |
| SortedSeq.DropIsMapRemove | hlib/cpp/btree.h:615-623 | dropping from a sorted sequence is removing from its map |
| SortedSeq.LookupIsMapGet | hlib/cpp/btree.h:560-567 | searching a sorted sequence is looking up its map |
| SortedSeq.SortedUnique | hlib/cpp/btree.h:41-50 | a map has one sorted sequence, so in-order contents and map determine each other |
| SortedSeq.PutMid | hlib/cpp/btree.h:303-365 | putting acts only on the part of a sorted sequence between the bounds of the key |
| SortedSeq.DropMid | hlib/cpp/btree.h:442-457 | dropping acts only there |
| SortedSeq.LookupMid | hlib/cpp/btree.h:240-248 | so does searching |
| GaussJordan.InvertMatrix | anitmt/utils/genpoly.cpp:65-87 | success exactly if every leading block is regular, and then x solves M x = b exactly if x is the computed matrix times b |
| GaussJordan.Pivot | anitmt/utils/genpoly.cpp:69-86 | one elimination step: the pivot row divided, its multiples subtracted from the others, on both matrices |
| GaussJordan.ScaleRow | anitmt/utils/genpoly.cpp:71-76 | one row of both matrices divided by the pivot read before the loop |
| GaussJordan.SubtractRow | anitmt/utils/genpoly.cpp:77-85 | a multiple of the pivot row subtracted from one row of both matrices |
| GaussJordan.MatrixMulVect | anitmt/utils/genpoly.cpp:101-110 | each entry is the dot product of a row and the vector |
| GaussJordan.SolutionFromIdentity | anitmt/utils/genpoly.cpp:168-180 | once the matrix is the identity, the equivalent system reads off the only solution |
| LinearAlgebra.PivotKeeps | anitmt/utils/genpoly.cpp:69-86 | a step keeps the set of solutions for every right-hand side, in both directions |
| LinearAlgebra.PivotClears | anitmt/utils/genpoly.cpp:69-86 | a step makes one more column a unit column |
| LinearAlgebra.PivotIffRegular | anitmt/utils/genpoly.cpp:71-75 | the next pivot is zero exactly if the next leading block has a kernel |
| Polynomial.RowIsDerivative | anitmt/utils/genpoly.cpp:127-133 | the row stored for an info, times the coefficients, is the a-th derivative at px |
| Polynomial.FallingIsQuotient | anitmt/utils/genpoly.cpp:90-97 | the falling product is n!/d! |
| GenPoly.FacFrac | anitmt/utils/genpoly.cpp:90-97 | the loop computes n!/d! |
| GenPoly.GenPoly.AddInfo | anitmt/utils/genpoly.cpp:122-137 | -1 when full, -2 for an order out of range, else the info and its row are appended |
| GenPoly.GenPoly.Generate | anitmt/utils/genpoly.cpp:139-208 | 0 exactly if all infos are given and each prefix is determined, and then the only coefficients whose derivatives have all the given values; else -1, or 1 and zeros |
| GenPoly.SolvesIsSatisfies | anitmt/utils/genpoly.cpp:168-180 | solving the linear system is having the given derivatives |
| GenPoly.RegularIsDetermined | anitmt/utils/genpoly.cpp:183-191 | a leading block is regular exactly if the first facts determine the first coefficients |
| GenPoly.OrderMatters | anitmt/utils/genpoly.cpp:183-191 | two facts with one solution that are refused in one order and accepted in the other |
| HTime.NormalizeExactly | hlib/fd/htime.h:64-66 | the total is kept, and the result is normalised unless the usec part is a negative whole number of seconds |
| HTime.OrderIsTotal | hlib/fd/htime.h:173-190 | on normalised times the comparisons are those of the totals |
| HTime.Minus | hlib/fd/htimecalc.cc:25-37 | exact difference, normalised; invalid absorbs |
| HTime.Plus | hlib/fd/htimecalc.cc:56-68 | exact sum, normalised; invalid absorbs |
| HTime.HTime.SubAssign | hlib/fd/htimecalc.cc:39-53 | the same in place |
| HTime.HTime.AddAssign | hlib/fd/htimecalc.cc:70-84 | the same in place |
| HTime.HTime.Negate | hlib/fd/htimecalc.cc:87-96 | exact negation, normalised |
| HTime.HTime.Div | hlib/fd/htimecalc.cc:99-123 | the exact quotient, normalised: the total divided and rounded down, unless the time is negative and its seconds leave a remainder, then rounded up; a negative factor divides the negated time; a zero factor gives invalid |
| HTime.DivExact | hlib/fd/htimecalc.cc:117-119 | dividing seconds and remainder separately is that division of the total |
| HTime.DividedExactly | hlib/fd/htimecalc.cc:117-119 | the error is below a microsecond, and when exactly the result is the quotient truncated toward zero |
| TimeoutManager.Manager.ShortestIsEarliest | hlib/fd/timeoutbase.h:122-126 | the first timeout of the first client is the earliest of all, and there is none exactly if nothing is enabled |
| TimeoutManager.Manager.TBListToFront | hlib/fd/timeoutbase.h:128-135 | moves a client to the front and counts, or only counts under the lock; makes the front right if that client has the earliest timeout |
| TimeoutManager.Manager.ReOrderTBList | hlib/fd/timeoutmanager.cc:190-228 | from lists in order to a state whose front client has the earliest timeout, the first in the list of several such clients, moving at most that client |
| TimeoutManager.Manager.InsertActiveTimer | hlib/fd/timeoutmanager.cc:177-185 | queued before the first later timeout, behind those of equal time |
| TimeoutClients.InsertedKeeps | hlib/fd/timeoutmanager.cc:177-185 | such an insertion keeps order and adds exactly that timeout |
| TimeoutManager.Manager.InstallTimeout | hlib/fd/timeoutmanager.cc:231-265 | a new timeout in the list its time demands, locked or not; one earlier than all is the shortest exactly if the order is not locked or its client is in front; the front stays right |
| TimeoutManager.Manager.UpdateTimeout | hlib/fd/timeoutmanager.cc:280-348 | all return codes; the timeout has the new time, is in the right list at its place, at most one client moves, none under the lock, and the front stays right although most changes skip the search |
| TimeoutManager.Manager.KillTimeout | hlib/fd/timeoutmanager.cc:351-383 | the timeout is in no list, the others keep their order, the front stays right |
| TimeoutManager.Manager.Register | hlib/fd/timeoutmanager.cc:386-392 | appended once |
| TimeoutManager.Manager.Unregister | hlib/fd/timeoutmanager.cc:394-428 | the client and its timeouts are gone, the front stays right, and a walk that is serving the client has no next one |
| TimeoutManager.Manager.Expire | hlib/fd/timeoutmanager.cc:139-150 | the first enabled timeout of a client is disabled before its notification, and the lock counts it |
| TimeoutManager.Manager.Perform | hlib/fd/timeoutmanager.cc:152-153 | each call of a callback is the step of the round that it asks for, on the lists and on the walk |
| TimeoutManager.Manager.Callback | hlib/fd/timeoutmanager.cc:152-153 | so is a whole callback; it tells nobody and keeps the manager valid |
| TimeoutManager.Manager.Serve | hlib/fd/timeoutmanager.cc:132-159 | one client's part of a round, up to its first timeout that is not due or until it has left, for every finite script; a timeout that becomes due again is told again |
| TimeoutManager.Manager.TimerNotify | hlib/fd/timeoutmanager.cc:94-173 | a complete run of a round with any script of callbacks; the front is right after unlocking; a timeout left alone is told exactly if it is due and its client is not behind one that leaves while it is served; a due timeout is left only if a callback gave it its time or its client was not served, and without removals all are; the number of tellings is bounded; with callbacks that do nothing, what is told is exactly what is due, in order |
| TimeoutRound.ToldExactly | hlib/fd/timeoutmanager.cc:94-173 | in every complete round, of the timeouts left alone by the callbacks exactly the due ones of the clients served are told, with their times, and disabled; all others stay enabled |
| TimeoutRound.MissedExactly | hlib/fd/timeoutmanager.cc:418-423 | in every complete round a due timeout left alone is missed exactly if at some event the client being served leaves with the owner behind it |
| TimeoutRound.BehindExactly | hlib/fd/timeoutmanager.cc:418-423 | the client of a timeout left alone is not served exactly in that case |
| TimeoutRound.EverybodyServed | hlib/fd/timeoutmanager.cc:123-159 | if no callback of the script removes a client, every client is served and a timeout left alone is told exactly if it is due |
| TimeoutRound.ServedAlways | hlib/fd/timeoutmanager.cc:123-131 | at any moment of any round a timeout left alone is still enabled with its time, or it was due, was told with its time, and is disabled |
| TimeoutRound.NothingLeft | hlib/fd/timeoutmanager.cc:127-143 | at the end of every complete round a client that was served has a due timeout only if a callback gave it its time; unless the walk was ended early all were served |
| TimeoutRound.NobodyToldAfter | hlib/fd/timeoutmanager.cc:418-423 | once a client has left while it was served, nobody is told any more |
| TimeoutRound.LeaverEndsRound | hlib/fd/timeoutmanager.cc:418-423 | if the first callback only removes its own client, the round has one run: that client is told, and all others keep their timeouts, due or not |
| TimeoutRound.ToldAtMost | hlib/fd/timeoutmanager.cc:127-143 | tellings and timeouts still due at the end are together at most the timeouts due at the start and the due times given by callbacks |
| TimeoutRound.AgainAndAgain | hlib/fd/timeoutmanager.cc:127-131 | a callback that gives its timeout a due time again and again is told as often as the script is long |
| TimeoutRound.QuietRound | hlib/fd/timeoutmanager.cc:94-173 | if the callbacks do nothing, each client loses exactly its due first part to its disabled list, and what is told is that, client by client |
| TimeoutRound.QueuedInOrder | hlib/fd/timeoutmanager.cc:177-185 | the place of a timeout in a sorted list is unique |
| TimeoutManager.Manager.NoneDue | hlib/fd/timeoutmanager.cc:132-137 | stopping at the first later timeout of a sorted list misses none |
| TimeoutManager.Manager.SetFDBaseTimer | hlib/fd/timeoutmanager.cc:49-91 | the timer is off exactly if nothing is enabled, else armed with the whole milliseconds to the earliest timeout of all clients, ten days at most; it is left alone exactly if it is running and within a millisecond of a delay of at least 20 |
| TimeoutManager.Manager.Activate | hlib/fd/timeoutmanager.cc:246-262 | a timeout that just got a time is queued; its client goes to the front exactly when it is earlier than all, and then it is the shortest |
| Fifo.FifoBuffer.ReadFD | hlib/fd/fdfifobuf.cc:41-81 | the contents and then the bytes read, over the wrap too |
| Fifo.FifoBuffer.WriteFD | hlib/fd/fdfifobuf.cc:111-158 | the bytes taken are the first of the contents, the rest stays |
| Fifo.FifoBuffer.ReadBuf | hlib/fd/fdfifobuf.cc:85-107 | the contents and then as much as fits; the value returned is the part behind the end if it wraps |
| Fifo.FifoBuffer.WriteBuf | hlib/fd/fdfifobuf.cc:162-195 | the first bytes are copied out and gone; the value returned is the part behind the end if it wraps |
| Fifo.Appended | hlib/fd/fdfifobuf.cc:50-77 | bytes stored behind a window in two pieces extend it |
| Fifo.Parts | hlib/fd/fdfifobuf.cc:120-147 | a window is its first part and the window behind that |
| CopyRuns.CopyAll | hlib/fd/fdcppump_fd.cc:51-298 | for every source, limit, event order and partial transfers a started job that cannot stall ends within 2n+1 events and has copied exactly the first n bytes, n the smaller of limit and source length; the final status names no failure, and the end of the source exactly if that came before the limit |
| CopyRuns.Play | hlib/fd/fdcppump_fd.cc:175-316 | every run of a job that the thresholds allow is a run of the pump, event by event, and leaves it in the state the thresholds say |
| CopyRuns.Stall | hlib/fd/fdcppump_fd.cc:245-298 | a started pump whose job can stall gets to a state where it is not flushing, has not reached its limit and polls neither end |
| CopyRuns.HangUp | hlib/fd/fdcppump_fd.cc:175-242 | after a hangup of the input the buffer is written out exactly if it is empty or the output was polled; otherwise the job stays with bytes unwritten and neither end polled |
| CopyRuns.HangUpEarly | hlib/fd/fdcppump_fd.cc:537-589 | any started job whose source hangs up after fewer bytes than highWrite and the limit ends there, with none of them written |
| CopyRuns.PauseAndResume | hlib/fd/fdcppump_fd.cc:194-209 | a job stopped at one end or both, sent any events there and continued is as before; nothing was moved or told, and only the polling is decided anew |
| CopyRuns.Ignore | hlib/fd/fdcppump_fd.cc:194-209 | no event at a stopped end, be it readiness, hangup or poll error, changes anything |
| PumpPolicy.StallsExactly | hlib/fd/fdcppump_fd.cc:245-298 | some run of a job stops in both directions exactly if the source can switch reading off and then writing is not on, or goes off before reading goes on again |
| PumpPolicy.NeverStuck | hlib/fd/fdcppump_fd.cc:245-298 | every state that a job which cannot stall can reach polls a direction |
| PumpPolicy.LeftShrinks | hlib/fd/fdcppump_fd.cc:51-298 | every event brings a job closer to its end, whether or not it can stall |
| PumpPolicy.ChosenNeverStall | hlib/fd/fdcppump_fd.cc:470-500 | no job with default or small-buffer thresholds can stall |
| PumpPolicy.StartsExactly | hlib/fd/fdcppump_fd.cc:439-528 | a job without a positive limit is never started; with one below 32 or with default thresholds it always is; with thresholds of its own, exactly if they lie in order within the buffer and high writing is more than 4 above low reading |
| PumpPolicy.StaysLively | hlib/fd/fdcppump_fd.cc:245-298 | with the low and high thresholds of writing at most those of reading, a polled read has room, a polled write has bytes, and one of them is polled |
| PumpPolicy.ChosenOrdered | hlib/fd/fdcppump_fd.cc:470-515 | default and small-buffer thresholds pass the checks and have that order |
| PumpPolicy.SizeIs | hlib/fd/fdcppump_fd.cc:445-451 | the size of the buffer by the size asked for, the limit and the minimum of 32 |
| PumpPolicy.ChosenFractions | hlib/fd/fdcppump_fd.cc:470-500 | the default and small-buffer thresholds as parts of the buffer |
| CopyPump.Pump.CheckSetup | hlib/fd/fdcppump_fd.cc:439-515 | 0 exactly if the job can start, with the buffer size and thresholds it will use |
| CopyPump.Pump.StartSetup | hlib/fd/fdcppump_fd.cc:439-528 | 0 exactly if the job can start and there is room for the buffer, else -5 or -4 |
| CopyPump.Pump.StartJob | hlib/fd/fdcppump_fd.cc:349-405 | starts reading with an empty buffer, or returns 1, -1, -3, -4 or -5, each exactly when its check fails, without starting the job |
| CopyPump.Pump.ReDecidePollEvents | hlib/fd/fdcppump_fd.cc:245-316 | both directions by the four thresholds, flushing and stops; never stuck with ordered thresholds |
| CopyPump.Pump.ReadInData | hlib/fd/fdcppump_fd.cc:51-113 | the bytes are appended to what was read, the limit is kept, and exactly the last read leaves a flushing or an ended job, with its status code told |
| CopyPump.Pump.WriteOutData | hlib/fd/fdcppump_fd.cc:116-172 | the bytes written are the next of those read, a job that ends by its last write has written everything, and exactly the endings that do not are told as failures |
| CopyPump.Pump.FinishJob | hlib/fd/fdcppump_fd.cc:537-589 | with bytes left after the input only flushing is set, else the job ends, with the status told to the client |
| CopyPump.Pump.HandleFDNotify | hlib/fd/fdcppump_fd.cc:175-242 | every event keeps: read = written + buffered, limit kept, final status once and last, and all written unless it names an output failure; how much a read asks for; which status is told for readiness, hangup, poll error and their combinations at either end, and what is polled afterwards; an event at a stopped end changes nothing |
| CopyPump.Pump.CodesNameCauses | hlib/fd/fdcppump_fd.cc:51-242 | each status told for a read, a write or a poll event names one cause |
| CopyPump.Pump.StopContJob | hlib/fd/fdcppump_fd.cc:408-436 | a direction stopped is not polled; 1 if nothing changes |
| CopyPump.Pump.Control | hlib/fd/fdcppump_fd.cc:320-346 | every command keeps the same, moves no byte, and is refused on a dead or idle pump; stopping and continuing change exactly the flags of the ends named and poll anew, or return 1 and change nothing; the codes told when a job is ended or killed; when starting is refused; exactly when continuing both ends, or ending the input, leaves nothing polled |
| Base64.RoundTrip | hlib/crypto/base64dec.c:57-121 | decoding undoes encoding for every message and line width, and no earlier character ends the text |
| Base64.EncodeStream | hlib/crypto/base64enc.c:54-135 | a message in any chunks is encoded as at once |
| Base64.DecodeStream | hlib/crypto/base64dec.c:57-121 | an encoded text, with skipped characters put in or taken out anywhere and cut into any parts, is decoded to the message |
| Base64.SpacedBack | hlib/crypto/base64dec.c:18-33 | such a text has one end character, before which it goes on and behind which only skipped characters stand |
| Base64.TextBack | hlib/crypto/base64dec.c:69-93 | encoding the bytes of any text of whole quartets gives the text |
| Base64.RestIsFirstPart | hlib/crypto/base64dec.c:104-118 | a rest of two or three characters gives the first bytes of every quartet that starts with it |
| Base64.Transfer | hlib/crypto/base64enc.c:32-41 | chunks in, text cut anywhere, the message out |
| Base64.FeedBack | hlib/crypto/base64dec.c:69-93 | the quartets of a text give the bytes of the whole triples back |
| Base64.QuadBack | hlib/crypto/base64dec.c:73-84 | four characters give their three bytes back |
| Base64Enc.Base64Encode | hlib/crypto/base64enc.c:54-135 | the text of the stream so far and the packed carry, or -4 exactly if it does not fit; nothing behind the text is written |
| Base64Enc.PackFits | hlib/crypto/base64enc.c:65-72 | the packed state fits 32 bits and unpacks to what was packed |
| Base64Enc.FeedSplit | hlib/crypto/base64enc.c:100-107 | two calls in sequence produce the text of one |
| Base64Enc.Layout | hlib/crypto/base64enc.c:74-98 | quartet q is at 4q plus the newlines before it, and every lwidth-th is followed by a newline |
| Base64Enc.EncodedLength | hlib/crypto/base64enc.c:112-131 | the length of the text from the length of the message and the line width |
| Base64Enc.QuadBits | hlib/crypto/base64enc.c:85-88 | the shifts and masks take the four sextets of three bytes |
| Base64Enc.AlphabetIs | hlib/crypto/base64enc.c:21-25 | the 64 characters, by enumeration |
| Base64Dec.Base64Decode | hlib/crypto/base64dec.c:57-121 | the bytes of the stream so far and the packed carry, the rest of the message at an end, and exactly when -2, -3 and -4 are returned; nothing behind the bytes is written |
| Base64Dec.PackDecFits | hlib/crypto/base64dec.c:67-68 | the packed state fits 32 bits and unpacks to what was packed |
| Base64Dec.CharBack | hlib/crypto/base64dec.c:25-33 | the decoder's table inverts the encoder's alphabet |
| Base64Dec.TableIs | hlib/crypto/base64dec.c:21-33 | the decoder's table, by enumeration: the digits of the alphabet, the characters skipped, the end, and nothing else |
| Base64Dec.ScanEssential | hlib/crypto/base64dec.c:21-33 | the nine characters that are skipped change nothing, wherever they stand |
| Base64Dec.EndsExactly | hlib/crypto/base64dec.c:65-101 | a text is refused exactly if a character that is neither of the alphabet nor skipped comes before any =, and ended exactly if a = comes before any such character |
| Base64Dec.ScanSplit | hlib/crypto/base64dec.c:97-101 | two calls in sequence read what one reads |
| Base64Dec.TripleBits | hlib/crypto/base64dec.c:80-82 | the shifts and masks take the three bytes of four sextets |
| StringList.RoundTrip | hlib/par/defstrlsthdl.cc:141-217 | reading the printed form of any list gives the list, from a file or not |
| StringList.PrintThenParse | hlib/par/defstrlsthdl.cc:251-300 | a parameter with the printed list as its value assigns or appends the list that was printed |
| StringList.PrintThenPass | hlib/par/defstrlsthdl.cc:251-300 | so does an argument of the command line that spells it, with any dashes and name |
| StringList.NeedIsExact | hlib/par/defstrlsthdl.cc:256-270 | the space computed is that of the text and its terminator, no less and no more |
| StringList.ComputeNeed | hlib/par/defstrlsthdl.cc:256-270 | the loops compute that space |
| StringList.Print | hlib/par/defstrlsthdl.cc:251-300 | the text and its terminator, in the buffer passed if it fits, nothing behind touched |
| StringList.ReadQuoted | hlib/par/defstrlsthdl.cc:153-179 | the in-place unescape yields the string and leaves the unread part intact |
| StringList.ReadBare | hlib/par/defstrlsthdl.cc:180-214 | the same for a string without quotes around it |
| StringList.Split | hlib/par/defstrlsthdl.cc:141-217 | the strings of a text, read in place |
| StringList.Trim | hlib/par/defstrlsthdl.cc:106-132 | the value without the spaces around it, but with one behind a last backslash |
| StringList.Parse | hlib/par/defstrlsthdl.cc:87-248 | the list assigned or appended and the state returned in every mode; an unclosed string is dropped, those before it are not; which argument the value is taken from, and that one is marked as done; from an argument that is no assignment nothing is ever assigned |
| StringGrammar.ValueMeans | hlib/par/defstrlsthdl.cc:106-217 | every value is written as a list of strings in some way, and the parser reads those strings; it is refused exactly if it ends within quotes |
| StringGrammar.WrittenValue | hlib/par/defstrlsthdl.cc:106-217 | whatever way a list is written, bare, quoted or mixed, with escapes, white space and a comment, the parser reads that list |
| StringGrammar.EveryText | hlib/par/defstrlsthdl.cc:141-217 | every text is written in one of these ways |
| StringGrammar.LineRead | hlib/par/defstrlsthdl.cc:141-217 | a text written in one of these ways is read as the strings that are meant |
| StringGrammar.TrimHarmless | hlib/par/defstrlsthdl.cc:106-132 | cutting the spaces around a value, and keeping one behind a last backslash, does not change what is read |
| StringGrammar.PrintedIs | hlib/par/defstrlsthdl.cc:251-300 | the printer writes every string within quotes, one space between two, and a backslash before quotes and backslashes only |
| ParamArgs.ParamArg.CmdLine | hlib/par/paramarg.cc:93-136 | the kind of an argument; an assignment has the name, mode and value it spells, any other argument has neither mode nor value |
| ParamArgs.SplitAssignment | hlib/par/paramarg.cc:116-128 | every assignment is some dashes, a name, the sign of its mode, = and its value |
| ParamArgs.SpelledBack | hlib/par/paramarg.cc:93-136 | an assignment that is spelled from dashes, name, mode and value has that name, mode and value |
| ParamArgs.SpelledOnce | hlib/par/paramarg.cc:111-128 | an argument spells one assignment only |
| ParamArgs.ModeIfSpelled | hlib/par/paramarg.cc:106-130 | an argument of the command line has an assignment mode exactly if it spells an assignment |
| ParamArgs.KindExactly | hlib/par/paramarg.cc:59-71 | the kind of an argument by its characters, in any order |
| StringHash.RefStringHash.Store | hlib/cpp/refstrhash.cc:78-105 | the map with the key set, 1 exactly if it was there, -2 for an empty key; without a search too, for a key that is not there |
| StringHash.RefStringHash.Lookup | hlib/cpp/refstrhash.h:147-152 | the value of the map; the map is unchanged by the move to the front |
| StringHash.RefStringHash.Remove | hlib/cpp/refstrhash.cc:108-123 | the map without the key, 1 exactly if it was missing; a variable passed for the value keeps its own |
| StringHash.RefStringHash.Search | hlib/cpp/refstrhash.cc:40-57 | finds the entry of its key; it moves to the front exactly if that is asked for, which changes the order of one chain only |
| StringHash.RefStringHash.Clear | hlib/cpp/refstrhash.cc:126-140 | the empty map |
| StringHash.RefStringHash.Count | hlib/cpp/refstrhash.cc:143-152 | the number of keys of the map |
| StringHash.RefStringHash.DoHash | hlib/cpp/refstrhash.cc:22-37 | the bucket of a key, within the table |
| StringHash.AccBound | hlib/cpp/refstrhash.cc:27-33 | the accumulator stays below 2^28, with the 32-bit wrap of the addition |
| StringHash.ChainChanged | hlib/cpp/refstrhash.cc:78-123 | a table and its map may change together in one chain |

## Left out

- Allocation failures everywhere: allocation is taken to succeed, so the -1 and -2 returns of the B-tree's `Store` and the alloc returns of the other parts do not occur.
- The B-tree's dump and check printing, its compiled-out parent pointers, and `btree-old.h`.
- The B-tree's pointers to found elements: elements are returned by value, and the optional output pointer of the removals is always used.
- Memory reuse after a node is freed: a freed node is one that nothing points to and whose slots are raw.
- GenPoly.GenPoly.Generate: exact reals instead of doubles, so rounding and overflow to infinity are not modelled; the finiteness test is a test for a zero pivot.
- The command-line parser and the output of the polynomial generator.
- HTime.HTime.Div: unbounded integers, so the overflow the source warns of for large factors is not modelled.
- Setting a time from a number with a unit, reading the clock, and printing and reading dates.
- TimeoutManager.Manager.TimerNotify: the clock is a parameter; a callback's calls are fixed before the round and name clients and timeouts by their places, and the list of calls of each callback is finite.
- TimeoutManager.Manager.Serve: it ends because the script is finite; the source's loop goes on for as long as callbacks give timeouts of the client times that are due already.
- TimeoutManager.Manager.Perform: a client that is added is new and has no timeouts, and one that is removed is not added again.
- The wrap-around of the manager's change counter, and the timer node of the descriptor manager; the time left and the new setting are parameter and result.
- CopyRuns.CopyAll: no stop, termination, hangup or error during the job, since those can end it. They are in `HangUp`, `HandleFDNotify` and `Control`. Continuing both directions polls nothing exactly if the job is not flushing and the fill is between `lowRead` and `highWrite`, and ending the input polls nothing exactly if the output was not polled, because polling is not decided again there. Interrupted calls, which change nothing, are not counted as events.
- CopyPump.Pump.StartJob: the descriptor base class; whether it grants the start and sets the events is a parameter.
- CopyPump.Pump.HandleFDNotify: no input event once the job is flushing, because the source descriptor has been released by then.
- Progress calls of the pump, its missing start timeout, and reuse of a pump for another job.
- Fifo.FifoBuffer.ResizeBuf: only for an empty buffer; the source does not implement the other case.
- Base64Enc.Base64Encode: line widths above 2^14, which the header excludes, and states that no earlier call produced.
- Base64Dec.Base64Decode: states that no earlier call produced.
- ParamArgs.ParamArg.Setting: how the line of a file or the environment is taken apart; name, mode and value are parameters there. An argument's successor is set when it is made.
- The lookup by plain string and the aliasing of hash entries handed out to callers.
- The other containers (`orderedarray.h`, `heap.h`, `binsearch.h`), reference counted strings, process management and the library wrappers.
