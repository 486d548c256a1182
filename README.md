# systemd-networkd netdev engine and netlink bus bookkeeping, in Dafny

This project models two cores of a systemd-networkd tree and proves properties of the models.

**The netdev engine** is `src/network/netdev/netdev.c`. It manages the virtual network devices described by `.netdev` files:
- a registry of records keyed by interface name;
- each record's reference count and its state (INVALID, LOADING, CREATING, READY, FAILED, LINGER);
- the queue of links waiting to be enslaved;
- the creation request sent to the kernel;
- the check of the kernel's RTM_NEWLINK reply;
- the predictable MAC address;
- loading the configuration.

It is spread over five modules:
- `Common` holds errno values, message types and Option/Result.
- `NetDevKind` holds the kind name table.
- `NetDevMac` holds the MAC derivation.
- `NetDevSpec` holds values and pure functions: the set_ifindex verdict, the creation attributes and the file outcomes.
- `NetDev` holds the classes `NetDev` and `Manager`, proved against specification functions. The outside world is an `Env` object whose logs record what the engine did: requests sent, callbacks invoked, link references taken and dropped.

**The netlink bus** is `src/libsystemd/sd-netlink/sd-netlink.c`. Only its in-memory bookkeeping is modelled:
- the serial counter that stamps requests;
- the bounded read queues, which are arrays with a size;
- the registry of reply callbacks, keyed by serial, with its priority queue of deadlines;
- the list of match callbacks for broadcasts;
- the dispatch of one message.

It is spread over two modules:
- `NetlinkTime` holds `calc_elapse`, `timeout_compare` and the priority queue, kept as a sorted sequence.
- `NetlinkBus` holds the class `Netlink`.

The socket, the clock and the callbacks' own code are parameters. Examples are the status a write returns, the current time, and what a handler returns.

Behaviours of the code a reader may not expect, which the model follows:
- **Duplicate names.** Two files naming the same interface make `netdev_load` fail with -EEXIST, and neither record stays registered. The second record's teardown unregisters the name, without checking which record holds it (netdev.c:148-149, 768-770, 852-854).
- **Send failures while enslaving.** A failed send in `netdev_enslave_ready` returns 0 because `log_netdev_error` is called without an errno (netdev.c:268-270). The drain therefore goes on with the next entry.
- **Join order.** Queued joins are served newest first.
- **Two names per file.** The first parse reads the file with its drop-ins and decides whether the file is loaded at all. The full record is a fresh allocation whose name comes from the second parse, which reads the main file alone (netdev.c:699-745). The registry, the duplicate check and the teardown use that second name (netdev.c:148-149, 768). So a `Name=` in a drop-in does not override the main file's name. A second parse that fails before it reaches `Name=` leaves the registry as it was. `NetDevFile.fullIfname` is that second name.
- **Reload while a create is pending.** `netdev_create` without a link gives the pending reply callback a reference to the record (netdev.c:616-623). `netdev_load` unrefs every registered record until it leaves the registry (netdev.c:843-844), and that drops the callback's reference too. `Manager.Clear` states this: each record is freed. If a reload runs while a create request is pending, the later reply runs `netdev_create_handler` on a freed record. `NetDev.NetDev.CreateHandler` requires a live record, so the model does not describe that call.
- **Rule matches.** `sd_netlink_remove_match` removes a RULE match but reports -EOPNOTSUPP and keeps the group references that `sd_netlink_add_match` took (sd-netlink.c:1008-1063).

## Model

| member | source | states |
|---|---|---|
| NetDevKind.KindNamesDistinct | src/network/netdev/netdev.c:82-108 | the table has 25 kinds and no two share a name |
| NetDevKind.KindRoundTrip | src/network/netdev/netdev.c:82-110 | looking up the name of a kind gives that kind back |
| NetDevKind.KindToStringInjective | src/network/netdev/netdev.c:82-110 | different kinds have different names |
| NetDevKind.KindFromStringUnknown | src/network/netdev/netdev.c:110 | a string that names no kind is not found |
| NetDevKind.ScanFindsMember | src/network/netdev/netdev.c:110 | the lookup scan finds every kind in the table by its name |
| NetDevMac.GetMac | src/network/netdev/netdev.c:488-531 | fails exactly when the machine id is unavailable, with its error; otherwise gives 6 octets |
| NetDevMac.GetMacUnicastLocal | src/network/netdev/netdev.c:524-525 | the first octet has the multicast bit clear and the locally-administered bit set |
| NetDevMac.GetMacIsHash | src/network/netdev/netdev.c:508-525 | the address is the hash of machine id followed by name, except for the two adjusted bits |
| NetDevMac.GetMacStable | src/network/netdev/netdev.c:508-521 | the address depends only on the machine id and the interface name |
| NetDevSpec.AdoptIff | src/network/netdev/netdev.c:381-484 | the index is adopted exactly when the message is an RTM_NEWLINK with a positive index, no index is set yet, and the name and the kind ("tun" for TAP) match |
| NetDevSpec.WrongTypeRejected | src/network/netdev/netdev.c:392-400 | a message that is not RTM_NEWLINK is rejected with -EINVAL |
| NetDevSpec.SecondIndex | src/network/netdev/netdev.c:416-428 | a different second index fails with -EEXIST; the same index again changes nothing |
| NetDevSpec.MismatchReturnsNonNegative | src/network/netdev/netdev.c:430-476 | a name or kind mismatch enters FAILED with a non-negative return; every other failure returns a negative code |
| NetDevSpec.CreateAttrsShape | src/network/netdev/netdev.c:558-605 | the creation request has IFNAME first and LINKINFO{kind} last; ADDRESS iff a MAC is set, MTU iff non-zero, LINK iff a backing link is given |
| NetDev.UnrefOpsBalance | src/network/netdev/netdev.c:113-139 | cancelling releases one link reference per queued entry |
| NetDev.ServedSpec | src/network/netdev/netdev.c:294-301 | the drain serves entries from the head while their enslave succeeds, and stops at the first failure |
| NetDev.ServedStops | src/network/netdev/netdev.c:298-300 | an entry whose enslave fails ends the drain there |
| NetDev.DrainTransfersRefs | src/network/netdev/netdev.c:239-301 | when every enslave takes its link reference, the drain leaves every link's count where it was: the queue's reference moves to the enslaved link |
| NetDev.NetDev.CancelCallbacks | src/network/netdev/netdev.c:113-139 | empties the queue, drops one link reference per entry, and invokes each callback once with -ENODEV only if the synthetic message can be built |
| NetDev.NetDev.Free | src/network/netdev/netdev.c:141-176 | cancels the queue, unregisters the record's name, and runs done() only for a record whose state was initialised |
| NetDev.NetDev.Unref | src/network/netdev/netdev.c:178-184 | drops one reference, and frees the record when none is left |
| NetDev.NetDev.Ref | src/network/netdev/netdev.c:186-192 | adds one reference |
| NetDev.NetDev.Drop | src/network/netdev/netdev.c:194-208 | does nothing in LINGER; otherwise enters LINGER, cancels the queue and drops one reference |
| NetDev.NetDev.EnterFailed | src/network/netdev/netdev.c:230-237 | enters FAILED with the queue cancelled, and returns 0 |
| NetDev.NetDev.EnslaveReady | src/network/netdev/netdev.c:239-277 | brings an up link down, then sends RTM_SETLINK with the master index; takes a link reference only after a successful send |
| NetDev.NetDev.Enslave | src/network/netdev/netdev.c:337-379 | READY enslaves now; LINGER/FAILED invoke the callback with -ENODEV and queue nothing; any other state prepends the entry and takes a link reference |
| NetDev.NetDev.ServeHead | src/network/netdev/netdev.c:294-302 | serves the queue head: enslaves it, then releases and removes it on success, or leaves the queue as it was on failure |
| NetDev.NetDev.DrainQueue | src/network/netdev/netdev.c:294-302 | serves exactly the Served prefix; fails with the first failing entry's error and leaves that entry and the later ones queued |
| NetDev.NetDev.EnterReady | src/network/netdev/netdev.c:279-311 | outside CREATING changes nothing; otherwise enters READY, drains the queue, and runs post_create once only if every entry was served |
| NetDev.NetDev.CreateHandler | src/network/netdev/netdev.c:314-335 | -EEXIST and success keep the state; any other error enters LINGER; the handler's own reference is dropped in every case and 1 is returned |
| NetDev.NetDev.SetIfindex | src/network/netdev/netdev.c:381-484 | acts on the verdict: reject changes nothing; a failure enters FAILED without writing the index; only an adopted index is written, followed by enter_ready |
| NetDev.NetDev.Create | src/network/netdev/netdev.c:533-631 | the custom create hook leaves the state alone; the generic path sends the request and, on success only, enters CREATING with a reference on the link, or else on the record |
| NetDev.NetDev.Join | src/network/netdev/netdev.c:634-662 | master kinds enslave; stacked kinds create with the link |
| NetDev.Manager.Get | src/network/netdev/netdev.c:210-228 | finds the record registered under the name, or returns -ENOENT |
| NetDev.Manager.LoadOneTouchesOwnName | src/network/netdev/netdev.c:664-832 | loading a file only registers or unregisters the name its second parse read, and an error never leaves it registered |
| NetDev.Manager.NamelessLeavesRegistry | src/network/netdev/netdev.c:742-745 | a record the second parse leaves without a name never registers or unregisters anything, because teardown skips a NULL name (netdev.c:148-149) |
| NetDev.Manager.DropInNameReachesNull | src/network/netdev/netdev.c:742-768 | a bridge whose `Name=` sits only in a drop-in passes the first parse, and its full record gets past config_verify with no name; the model ignores it and returns 0 |
| NetDev.Manager.IgnoredFileChangesNothing | src/network/netdev/netdev.c:675-724 | a missing or empty file, one for another host, or one without Kind= or Name= is skipped with 0 |
| NetDev.Manager.LoadBackwardsNames | src/network/netdev/netdev.c:850-855 | the reload registers only names from the listed files and unregisters only such names |
| NetDev.Manager.IgnoredListing | src/network/netdev/netdev.c:850-857 | a listing of skipped files loads nothing and returns 0 |
| NetDev.Manager.DuplicateNamesAbort | src/network/netdev/netdev.c:768-770 | two loadable files with the same name make the load fail with -EEXIST, and neither stays registered |
| NetDev.Manager.Prepare | src/network/netdev/netdev.c:742-766 | a full parse failure is returned; a config_verify failure skips the file with 0; a record without a second-parse name is skipped with 0 (see Findings); a device other than VLAN gets a MAC generated from that name when it has none |
| NetDev.Manager.CreateLoaded | src/network/netdev/netdev.c:781-828 | master and independent kinds, and tunnels with Independent=, are created through netdev_create, a tunnel that is both twice; the first failure is returned; without a create hook each request sent puts the record in CREATING with one reference per request, and a failed send changes neither; with a hook nothing is sent and the state is kept |
| NetDev.Manager.Register | src/network/netdev/netdev.c:742-831 | registers the record under its second-parse name, or tears it down on any failure, which unregisters that name if it has one; the duplicate case returns -EEXIST; master, independent and Independent= tunnels are created: exactly the creation requests of a registered file are sent, and its record is then CREATING, otherwise LOADING |
| NetDev.Manager.LoadOne | src/network/netdev/netdev.c:664-832 | the registry's names and the return value are those of the file-by-file specification, keyed on the second-parse name; the first-parse record is released without touching the registry; new entries are fresh records of the file's kind with its MAC; the requests sent are exactly the file's creation requests when it registers, and a new record is CREATING exactly when one was sent |
| NetDev.Manager.Evict | src/network/netdev/netdev.c:843-844 | unrefs one record until it leaves the registry: it is freed, its join queue is cancelled, no request is sent, and every other record is untouched |
| NetDev.Manager.EvictNext | src/network/netdev/netdev.c:843-844 | one pass of the clearing loop: some registered record is evicted and the clearing invariant moves on by its name |
| NetDev.Manager.Clear | src/network/netdev/netdev.c:843-844 | unrefs every record until it is freed, whatever other holders it had, leaving the registry empty; the records go in some order that lists each old name once, and the logs show each record's join queue cancelled in that order, with nothing sent |
| NetDev.Manager.Load | src/network/netdev/netdev.c:834-858 | clears the registry, then loads the listing last file first and stops at the first error; a listing failure is returned; every old join queue is cancelled, and the requests sent are those of the files loaded, in load order |
| NetlinkTime.CalcElapseDeadline | src/libsystemd/sd-netlink/sd-netlink.c:498-507 | infinity gives no deadline (0); otherwise the deadline is now plus the timeout (25 s for 0), modulo 2^64 |
| NetlinkTime.CalcElapseNoWrap | src/libsystemd/sd-netlink/sd-netlink.c:498-507 | without wrap-around the deadline is later than now and not 0 |
| NetlinkTime.TimeoutCompareByRank | src/libsystemd/sd-netlink/sd-netlink.c:567-584 | deadlines compare in ascending order, with "no deadline" after every real deadline |
| NetlinkTime.TimeoutCompareTotalPreorder | src/libsystemd/sd-netlink/sd-netlink.c:567-584 | the comparison is antisymmetric and transitive, and ties are exactly the equal deadlines |
| NetlinkTime.InsertSorted | src/libsystemd/sd-netlink/sd-netlink.c:637-639 | adding to the deadline queue keeps it sorted |
| NetlinkTime.InsertMultiset | src/libsystemd/sd-netlink/sd-netlink.c:637-639 | adding to the deadline queue adds exactly that callback |
| NetlinkTime.RemoveSerialSorted | src/libsystemd/sd-netlink/sd-netlink.c:667-668 | removing from the deadline queue keeps it sorted |
| NetlinkTime.RemoveSerialMembers | src/libsystemd/sd-netlink/sd-netlink.c:667-668 | removing takes out exactly the callbacks of that serial |
| NetlinkTime.SortedHeadFirst | src/libsystemd/sd-netlink/sd-netlink.c:340-346 | the head of the queue has the earliest deadline |
| NetlinkBus.StampNext | src/libsystemd/sd-netlink/sd-netlink.c:239-243 | each seal moves the stamp one step around the cycle 1 … 2^32−1 |
| NetlinkBus.StampsClosedForm | src/libsystemd/sd-netlink/sd-netlink.c:239-243 | the i-th of consecutive stamps is the start advanced by i around that cycle |
| NetlinkBus.StampsDistinct | src/libsystemd/sd-netlink/sd-netlink.c:61-64 | no stamp is 0, and 2^32−1 consecutive seals give pairwise different serials |
| NetlinkBus.FindSerialFirst | src/libsystemd/sd-netlink/sd-netlink.c:698-706 | the scan finds the first queued message with the serial, and finds nothing only when none has it |
| NetlinkBus.ScanResult | src/libsystemd/sd-netlink/sd-netlink.c:715-735 | an error or unreadable type returns a negative code and no message; NLMSG_DONE returns 0 with none; otherwise 1 with the message |
| NetlinkBus.CallbacksAdd | src/libsystemd/sd-netlink/sd-netlink.c:628-639 | registering a callback under a new serial, and queuing it when it has a deadline, keeps the registry and the deadline queue in agreement |
| NetlinkBus.CallbacksRemove | src/libsystemd/sd-netlink/sd-netlink.c:663-668 | unregistering a serial, and dequeuing it when it has a deadline, keeps them in agreement |
| NetlinkBus.CallbacksPop | src/libsystemd/sd-netlink/sd-netlink.c:353-354 | popping the earliest deadline and unregistering its serial keeps them in agreement |
| NetlinkBus.MatchCallsSpec | src/libsystemd/sd-netlink/sd-netlink.c:410-423 | the calls are a prefix of the message type's handlers in list order; every handler but the last returned 0; a run shorter than that list ends at a handler that returned nonzero; if all return 0, all of them run |
| NetlinkBus.GroupsAgreeExceptRules | src/libsystemd/sd-netlink/sd-netlink.c:957-999 | only link, address, route and rule types can be added; removal handles the same groups except for the rule types |
| NetlinkBus.GroupCalls | src/libsystemd/sd-netlink/sd-netlink.c:961-996 | the group calls go in order; all of them succeed exactly when every group is recorded |
| NetlinkBus.MatchGroupsRoundTrip | src/libsystemd/sd-netlink/sd-netlink.c:957-1060 | adding then removing a match gives every group its reference count back, except that the two rule groups keep one |
| NetlinkBus.Netlink.constructor | src/libsystemd/sd-netlink/sd-netlink.c:37-70 | an empty bus whose serial counter starts at 1 |
| NetlinkBus.Netlink.Seal | src/libsystemd/sd-netlink/sd-netlink.c:232-246 | stamps the counter's value, or 1 in place of 0, and advances the counter past it |
| NetlinkBus.Netlink.Send | src/libsystemd/sd-netlink/sd-netlink.c:248-269 | uses up a serial even when the write fails; returns 1 and records the stamp when it succeeds |
| NetlinkBus.Netlink.RqueueMakeRoom | src/libsystemd/sd-netlink/sd-netlink.c:271-285 | -ENOBUFS once the size reaches 64 Ki; otherwise capacity above the size, with the size and contents unchanged |
| NetlinkBus.Netlink.RqueuePartialMakeRoom | src/libsystemd/sd-netlink/sd-netlink.c:287-302 | the same for the partial queue |
| NetlinkBus.Netlink.RemoveAt | src/libsystemd/sd-netlink/sd-netlink.c:712-714 | removes one queued message and keeps the others in their order |
| NetlinkBus.Netlink.DispatchRqueue | src/libsystemd/sd-netlink/sd-netlink.c:304-330 | hands out the oldest message and shifts the rest down in order; on an empty queue returns the read's outcome (1 for -ENOBUFS, with no message) |
| NetlinkBus.Netlink.CallScan | src/libsystemd/sd-netlink/sd-netlink.c:698-737 | takes out the first message with the serial and keeps every other message in order; reports it as ScanResult says; leaves the queue alone when none has the serial |
| NetlinkBus.Netlink.ProcessTimeout | src/libsystemd/sd-netlink/sd-netlink.c:332-363 | a due earliest deadline leaves the registry and the queue and its handler runs once; otherwise nothing changes |
| NetlinkBus.Netlink.ProcessReply | src/libsystemd/sd-netlink/sd-netlink.c:365-395 | the serial's callback is unregistered and dequeued before it runs, so it runs at most once; NLMSG_DONE is passed as NULL; an unknown serial returns 0 |
| NetlinkBus.Netlink.ProcessMatch | src/libsystemd/sd-netlink/sd-netlink.c:397-426 | runs exactly the handlers MatchCalls lists and returns 1; a type read failure is returned |
| NetlinkBus.Netlink.ProcessRunning | src/libsystemd/sd-netlink/sd-netlink.c:428-480 | a due timeout ends the round with its callback run once, or with the error of a synthetic message that could not be built; otherwise the oldest queued message, or else the one read, is dispatched: nothing to dispatch returns the read's outcome; a broadcast runs its handlers and is consumed; a reply whose serial is pending unregisters that serial and runs its callback once (NLMSG_DONE as NULL); any other message is returned to the caller; the read queue loses exactly its head |
| NetlinkBus.Netlink.CallAsync | src/libsystemd/sd-netlink/sd-netlink.c:586-652 | registers the callback under the sent serial only after a successful send, queued by deadline when it has one; a failed send changes neither; a pending serial gives -EEXIST |
| NetlinkBus.Netlink.Cancel | src/libsystemd/sd-netlink/sd-netlink.c:654-672 | serial 0 gives -EINVAL, an unknown serial gives 0, otherwise the callback leaves the registry and the queue and 1 is returned |
| NetlinkBus.Netlink.GetEvents | src/libsystemd/sd-netlink/sd-netlink.c:768-777 | asks for input exactly when nothing is queued |
| NetlinkBus.Netlink.GetTimeout | src/libsystemd/sd-netlink/sd-netlink.c:779-803 | 0 while messages are queued; otherwise the earliest deadline of any registered callback, or infinity when none has one |
| NetlinkBus.Netlink.AddMatch | src/libsystemd/sd-netlink/sd-netlink.c:937-1006 | unsupported types give -EOPNOTSUPP with nothing changed; otherwise joins the groups in order and prepends the handler only if all joins succeed |
| NetlinkBus.Netlink.RemoveMatch | src/libsystemd/sd-netlink/sd-netlink.c:1008-1063 | removes the first equal entry; rule types then report -EOPNOTSUPP; otherwise leaves the groups and returns 1; returns 0 when there is no such entry |

## Left out

- I/O: the netlink socket, reads and writes, polling, the event loop and the fork checks are left out. What they report is a parameter. For netdev this is `Env.transport`, a fixed verdict per request; for the bus it is `writeRc`, `readRc` and `incoming`.
- Memory allocation failures (-ENOMEM and `log_oom`) are left out. This includes a failing `prioq_put` in `sd_netlink_call_async`: the code tests its result only for `r > 0`, which `prioq_put` does not return.
- Configuration parsing, the match conditions, `fopen`/`fseek`/`null_or_empty_fd` and the file listing are left out. Their outcomes are fields of `NetDevFile` and a `Result` listing.
- The per-kind vtables are not modelled beyond a record of which hooks exist. What a hook returns is `Env.hook`.
- Netlink wire encoding is left out. Requests are attribute sequences, and a received message is the fields the code reads.
- `Link` internals and `link_down` are left out. A link is a value (index and up flag), and `link_ref`/`link_unref` are recorded as a log instead of changing a counter in place.
- siphash24 and the machine id are parameters, so the MAC derivation is proved for any hash function.
- NetDevMac.GetMac: the octets are read from the hash little-endian (`OctetOf`), as `memcpy` copies a `uint64_t` on a little-endian host. A big-endian host is not modelled.
- NetDevMac.NameBytes: each character of the name becomes one byte, its code modulo 256. Names are taken as single-byte C strings; a multi-byte encoding is not modelled.
- The `config_verify` verdict is `Env.hook` looked up under the file's first-parse name. The model does not let it depend on the rest of the record.
- netlink-internal.h is not part of this model. `RTNL_RQUEUE_MAX` (64 Ki) and `RTNL_DEFAULT_TIMEOUT` (25 s) take the values systemd gives them.
- `GREEDY_REALLOC` growth is left out: alloc-util is not part of this model. `Netlink.Grow` promises only capacity above the size, with the contents kept.
- `socket_read_message` is not part of this model. `Netlink.Enqueue` stands for its effect on the read queue (make room, then append), and the multipart path into the partial queue is not modelled.
- The `sd_netlink_call` wait loop (socket read, timeout and poll) is left out. Only its scan of the read queue is modelled.
- NetlinkTime.Insert: callbacks with equal deadlines are queued after the ones already there, so they time out in the order they were registered. systemd's `prioq` (prioq.c, not part of this model) is a binary heap that keeps no order among equal keys, so it may run such callbacks in another order. The model uses registration order.
- NetlinkBus.Netlink.ProcessTimeout: pops the head of that sorted queue. Among callbacks with equal deadlines it therefore picks the one registered first; the heap may pick another.
- `Netlink.ProcessReply`, `Netlink.ProcessTimeout` and `Netlink.ProcessMatch` record the callbacks they run. What a reply or timeout callback does is not modelled. A match handler's return value is the `verdict` parameter.
- The message reference counts (`sd_netlink_message_unref`) and freeing of callback records are left out. Values are not shared.
- Logging is left out.
- `netdev_join`'s INDEPENDENT case is excluded by `NetDev.NetDev.Join`'s precondition. The code has no branch for it.

## Findings

| source | as written | input that shows it | evidently intended | confidence | as-written member | corrected member |
|---|---|---|---|---|---|---|
| src/network/netdev/netdev.c:742-768 | `netdev_load_one` checks for a missing `Name=` only on the first parse, which reads the drop-ins. The full record takes its name from the second parse, which reads the main file alone. A record left without a name gets past `config_verify` and reaches `netdev_get_mac`, whose `assert(ifname)` aborts, or `hashmap_put` with a NULL key for a VLAN or a record with `MACAddress=` | a `.netdev` file with `[NetDev]` `Kind=bridge` whose `Name=br0` is only in a drop-in (`DropInNamedBridge`) | a full record without a name is skipped with 0, as the first parse skips one ("NetDev without Name configured") | not executed; high | NetDev.Manager.DropInNameReachesNull | NetDev.Manager.NamelessLeavesRegistry |
