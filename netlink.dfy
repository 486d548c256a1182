/** The in-memory bookkeeping of the netlink bus (sd-netlink.c): the serial counter that stamps
    outgoing messages, the bounded read queues, the registry of reply callbacks with its
    timeout queue, and the list of match callbacks for broadcasts. The socket, the event loop
    and the clock are outside: what they report is passed in. */
module NetlinkBus {
  import opened Common
  import opened NetlinkTime

  /** RTNL_RQUEUE_MAX: the read queues hold at most 64 Ki messages. */
  const RTNL_RQUEUE_MAX: nat := 64 * 1024

  /** A received message, as far as the bus looks at it: its nlmsg_seq, its type, the status of
      reading the type, the error an NLMSG_ERROR carries (0 otherwise), and whether it is a
      broadcast. */
  datatype Message = Message(serial: U32, msgType: nat, typeRc: int, errno: int, broadcast: bool)

  /** A match callback: handler and userdata (opaque tokens) and the message type it wants. */
  datatype MatchCallback = MatchCallback(callback: nat, msgType: nat, userdata: nat)

  /** The rtnetlink multicast groups the match types subscribe to. */
  datatype Group =
    | GroupLink | GroupIpv4Ifaddr | GroupIpv6Ifaddr | GroupIpv4Route | GroupIpv6Route
    | GroupIpv4Rule | GroupIpv6Rule

  /** A successful socket_broadcast_group_ref or _unref. */
  datatype GroupOp = GroupRef(group: Group) | GroupUnref(group: Group)

  /** A callback run by the bus: a reply handler with the reply (None for the NULL that stands
      for NLMSG_DONE), a reply handler with the synthetic -ETIMEDOUT error for a serial, or a
      match handler with a broadcast. */
  datatype Call =
    | ReplyCall(callback: nat, userdata: nat, reply: Option<Message>)
    | TimeoutCall(callback: nat, userdata: nat, serial: U32)
    | MatchCall(callback: nat, userdata: nat, message: Message)

  // ---------------------------------------------------------------------------------------
  // The serial counter

  /** The nlmsg_seq rtnl_seal_message stamps when the counter is s: never 0. */
  function Stamp(s: U32): (r: U32)
    ensures r != 0
  {
    if s != 0 then s else 1
  }

  /** The counter after rtnl_seal_message: one step on, two when it had wrapped to 0. */
  function NextSerial(s: U32): U32 {
    if s != 0 then (s + 1) % UINT32_LIMIT else 2
  }

  /** The stamps of n consecutive seals starting from counter s. */
  function Stamps(s: U32, n: nat): (r: seq<U32>)
    ensures |r| == n
    decreases n
  {
    if n == 0 then [] else [Stamp(s)] + Stamps(NextSerial(s), n - 1)
  }

  const SERIAL_PERIOD: nat := UINT32_LIMIT - 1

  /** One seal moves the stamp one step around the cycle 1, 2, ..., 2^32 - 1, 1, ... */
  lemma StampNext(s: U32)
    ensures Stamp(NextSerial(s)) == Stamp(s) % SERIAL_PERIOD + 1
  {
  }

  /** The i-th of consecutive stamps, in closed form. */
  lemma {:induction false} StampsClosedForm(s: U32, n: nat, i: nat)
    requires i < n
    ensures Stamps(s, n)[i] == (Stamp(s) - 1 + i) % SERIAL_PERIOD + 1
    decreases n
  {
    if i > 0 {
      StampsClosedForm(NextSerial(s), n - 1, i - 1);
      assert Stamps(s, n)[i] == Stamps(NextSerial(s), n - 1)[i - 1];
      StampNext(s);
      var a := Stamp(s);
      if a == SERIAL_PERIOD {
        assert Stamp(NextSerial(s)) == 1;
        PeriodShift(i - 1);
      } else {
        assert Stamp(NextSerial(s)) == a + 1;
      }
    }
  }

  /** Adding one period does not change the residue. */
  lemma PeriodShift(x: nat)
    ensures (x + SERIAL_PERIOD) % SERIAL_PERIOD == x % SERIAL_PERIOD
  {
  }

  /** Two positions less than a full period apart land on different residues. */
  lemma ResiduesDiffer(a: nat, i: nat, j: nat)
    requires a < SERIAL_PERIOD && i < j < SERIAL_PERIOD
    ensures (a + i) % SERIAL_PERIOD != (a + j) % SERIAL_PERIOD
  {
    var p := SERIAL_PERIOD;
    var x := a + i;
    var y := a + j;
    assert x < 2 * p && y < 2 * p;
    if x < p {
      if y < p {
        assert x % p == x && y % p == y;
      } else {
        assert x % p == x && y % p == y - p;
      }
    } else {
      assert x % p == x - p && y % p == y - p;
    }
  }

  /** Serials are never 0, and 2^32 - 1 consecutive seals stamp pairwise different serials. */
  lemma StampsDistinct(s: U32, n: nat)
    requires n <= SERIAL_PERIOD
    ensures forall i | 0 <= i < n :: Stamps(s, n)[i] != 0
    ensures forall i, j | 0 <= i < j < n :: Stamps(s, n)[i] != Stamps(s, n)[j]
  {
    forall i, j | 0 <= i < j < n
      ensures Stamps(s, n)[i] != Stamps(s, n)[j]
    {
      StampsClosedForm(s, n, i);
      StampsClosedForm(s, n, j);
      ResiduesDiffer(Stamp(s) - 1, i, j);
    }
    forall i | 0 <= i < n
      ensures Stamps(s, n)[i] != 0
    {
      StampsClosedForm(s, n, i);
    }
  }

  // ---------------------------------------------------------------------------------------
  // The read queue, as values

  /** The position of the first message with the given serial at or after from. */
  function FindSerial(q: seq<Message>, serial: U32, from: nat): (r: Option<nat>)
    ensures r.Some? ==> from <= r.value < |q| && q[r.value].serial == serial
    decreases |q| - from
  {
    if from >= |q| then None
    else if q[from].serial == serial then Some(from)
    else FindSerial(q, serial, from + 1)
  }

  /** FindSerial finds the first match, and finds nothing only when there is none. */
  lemma {:induction false} FindSerialFirst(q: seq<Message>, serial: U32, from: nat)
    ensures match FindSerial(q, serial, from)
            case Some(i) =>
              && from <= i < |q| && q[i].serial == serial
              && forall j | from <= j < i :: q[j].serial != serial
            case None => forall j | from <= j < |q| :: q[j].serial != serial
    decreases |q| - from
  {
    if from < |q| && q[from].serial != serial {
      FindSerialFirst(q, serial, from + 1);
    }
  }

  /** What the scan in sd_netlink_call returns for the message it took out of the queue: its
      error, a failure to read its type, nothing for NLMSG_DONE, or the message. */
  function ScanResult(m: Message): (r: (int, Option<Message>))
    ensures r.0 < 0 ==> r.1.None?
    ensures r.0 == 1 <==> r.1 == Some(m)
  {
    if m.errno < 0 then (m.errno, None)
    else if m.typeRc < 0 then (m.typeRc, None)
    else if m.msgType == NLMSG_DONE then (0, None)
    else (1, Some(m))
  }

  // ---------------------------------------------------------------------------------------
  // Reply callbacks, as values

  /** Every registered callback is filed under its own serial. */
  ghost predicate Keyed(m: map<U32, ReplyCallback>) {
    forall s | s in m :: m[s].serial == s
  }

  /** Every queued callback is registered and has a deadline. */
  ghost predicate Tracked(m: map<U32, ReplyCallback>, q: seq<ReplyCallback>) {
    forall c | c in q :: c.serial in m && m[c.serial] == c && c.timeout != 0
  }

  /** Every registered callback with a deadline is queued. */
  ghost predicate Covered(m: map<U32, ReplyCallback>, q: seq<ReplyCallback>) {
    forall s | s in m && m[s].timeout != 0 :: m[s] in q
  }

  /** No serial is queued twice. */
  predicate UniqueSerials(q: seq<ReplyCallback>)
    decreases |q|
  {
    q != [] ==> (forall c | c in q[1..] :: c.serial != q[0].serial) && UniqueSerials(q[1..])
  }

  /** The registry and the timeout queue agree: the queue is sorted by timeout_compare and
      holds, once each, exactly the registered callbacks that have a deadline. */
  ghost predicate CallbacksValid(m: map<U32, ReplyCallback>, q: seq<ReplyCallback>) {
    Keyed(m) && Sorted(q) && Tracked(m, q) && Covered(m, q) && UniqueSerials(q)
  }

  lemma {:induction false} InsertMembers(q: seq<ReplyCallback>, c: ReplyCallback)
    ensures forall x :: x in Insert(q, c) <==> x in q || x == c
    decreases |q|
  {
    if q != [] && TimeoutCompare(c.timeout, q[0].timeout) >= 0 {
      InsertMembers(q[1..], c);
      assert q == [q[0]] + q[1..];
    }
  }

  lemma {:induction false} InsertUnique(q: seq<ReplyCallback>, c: ReplyCallback)
    requires UniqueSerials(q) && forall x | x in q :: x.serial != c.serial
    ensures UniqueSerials(Insert(q, c))
    decreases |q|
  {
    if q != [] && TimeoutCompare(c.timeout, q[0].timeout) >= 0 {
      assert forall x | x in q[1..] :: x in q;
      InsertUnique(q[1..], c);
      InsertMembers(q[1..], c);
      assert Insert(q, c)[1..] == Insert(q[1..], c);
    }
  }

  lemma {:induction false} RemoveSerialUnique(q: seq<ReplyCallback>, s: U32)
    requires UniqueSerials(q)
    ensures UniqueSerials(RemoveSerial(q, s))
    decreases |q|
  {
    if q != [] {
      RemoveSerialUnique(q[1..], s);
      RemoveSerialMembers(q[1..], s);
      if q[0].serial != s {
        assert RemoveSerial(q, s)[1..] == RemoveSerial(q[1..], s);
      }
    }
  }

  /** Registering a callback under a fresh serial, with its deadline queued when it has one,
      keeps registry and queue in agreement. */
  lemma CallbacksAdd(m: map<U32, ReplyCallback>, q: seq<ReplyCallback>, c: ReplyCallback)
    requires CallbacksValid(m, q) && c.serial !in m
    ensures CallbacksValid(m[c.serial := c], if c.timeout != 0 then Insert(q, c) else q)
  {
    var m' := m[c.serial := c];
    assert forall x | x in q :: x.serial != c.serial;
    if c.timeout != 0 {
      InsertSorted(q, c);
      InsertMembers(q, c);
      InsertUnique(q, c);
    }
  }

  /** Unregistering the callback of a serial, and dequeuing it when it has a deadline, keeps
      registry and queue in agreement. */
  lemma CallbacksRemove(m: map<U32, ReplyCallback>, q: seq<ReplyCallback>, s: U32)
    requires CallbacksValid(m, q) && s in m
    ensures CallbacksValid(m - {s}, if m[s].timeout != 0 then RemoveSerial(q, s) else q)
  {
    var m' := m - {s};
    assert Keyed(m');
    if m[s].timeout == 0 {
      assert forall c | c in q :: c.serial != s;
      assert Tracked(m', q);
      assert Covered(m', q);
    } else {
      var q' := RemoveSerial(q, s);
      RemoveSerialSorted(q, s);
      RemoveSerialMembers(q, s);
      RemoveSerialUnique(q, s);
      assert Tracked(m', q') by {
        forall c | c in q'
          ensures c.serial in m' && m'[c.serial] == c && c.timeout != 0
        {
          assert c in q;
        }
      }
      assert Covered(m', q') by {
        forall t | t in m' && m'[t].timeout != 0
          ensures m'[t] in q'
        {
          assert m[t] in q && m[t].serial == t;
        }
      }
    }
  }

  /** Taking the head off the queue and its serial out of the registry keeps them in
      agreement. */
  lemma CallbacksPop(m: map<U32, ReplyCallback>, q: seq<ReplyCallback>)
    requires CallbacksValid(m, q) && q != []
    ensures q[0].serial in m && m[q[0].serial] == q[0]
    ensures CallbacksValid(m - {q[0].serial}, q[1..])
  {
    var s := q[0].serial;
    assert q[0] in q;
    forall x | x in q[1..]
      ensures x in q
    {
    }
    forall t | t in m - {s} && m[t].timeout != 0
      ensures m[t] in q[1..]
    {
      var k :| 0 <= k < |q| && q[k] == m[t];
      assert q[1..][k - 1] == m[t];
    }
    forall i, j | 0 <= i < j < |q[1..]|
      ensures TimeoutCompare(q[1..][i].timeout, q[1..][j].timeout) <= 0
    {
      assert q[1..][i] == q[i + 1] && q[1..][j] == q[j + 1];
    }
  }

  // ---------------------------------------------------------------------------------------
  // Match callbacks, as values

  /** The match callbacks process_match runs for a broadcast m: those of m's type, in list
      order, up to and including the first that returns nonzero. */
  function MatchCalls(ms: seq<MatchCallback>, m: Message, verdict: (MatchCallback, Message) -> int): seq<Call>
  {
    if ms == [] then []
    else if ms[0].msgType == m.msgType then
      [MatchCall(ms[0].callback, ms[0].userdata, m)]
      + (if verdict(ms[0], m) != 0 then [] else MatchCalls(ms[1..], m, verdict))
    else MatchCalls(ms[1..], m, verdict)
  }

  /** Every match callback of the message's type, in list order. */
  function AllMatching(ms: seq<MatchCallback>, m: Message): seq<Call> {
    if ms == [] then []
    else (if ms[0].msgType == m.msgType then [MatchCall(ms[0].callback, ms[0].userdata, m)] else [])
         + AllMatching(ms[1..], m)
  }

  /** The handler a match call ran, rebuilt from the call. */
  function EntryOf(c: Call, m: Message): MatchCallback
    requires c.MatchCall?
  {
    MatchCallback(c.callback, m.msgType, c.userdata)
  }

  /** process_match hands m to the handlers of its type in list order, stopping after the
      first that returns nonzero: the calls are a prefix of AllMatching, every call but the
      last returned 0, a run shorter than AllMatching ends at a nonzero verdict, and when no
      handler of that type returns nonzero, all of them run. */
  lemma {:induction false} MatchCallsSpec(ms: seq<MatchCallback>, m: Message,
                                          verdict: (MatchCallback, Message) -> int)
    ensures var r := MatchCalls(ms, m, verdict);
            var all := AllMatching(ms, m);
            && (forall i | 0 <= i < |r| :: r[i].MatchCall? && r[i].message == m)
            && |r| <= |all| && r == all[..|r|]
            && (forall i | 0 <= i < |r| - 1 :: verdict(EntryOf(r[i], m), m) == 0)
            && (|r| < |all| ==> |r| > 0 && verdict(EntryOf(r[|r| - 1], m), m) != 0)
            && ((forall j | 0 <= j < |ms| && ms[j].msgType == m.msgType :: verdict(ms[j], m) == 0)
                ==> r == all)
    decreases |ms|
  {
    if ms != [] {
      MatchCallsSpec(ms[1..], m, verdict);
      var r := MatchCalls(ms, m, verdict);
      var all := AllMatching(ms, m);
      var rest := MatchCalls(ms[1..], m, verdict);
      var allRest := AllMatching(ms[1..], m);
      var allZero := forall j | 0 <= j < |ms| && ms[j].msgType == m.msgType :: verdict(ms[j], m) == 0;
      var restZero := forall j | 0 <= j < |ms[1..]| && ms[1..][j].msgType == m.msgType ::
                        verdict(ms[1..][j], m) == 0;
      if allZero {
        forall j | 0 <= j < |ms[1..]| && ms[1..][j].msgType == m.msgType
          ensures verdict(ms[1..][j], m) == 0
        {
          assert ms[1..][j] == ms[j + 1];
        }
        assert restZero;
      }
      if ms[0].msgType != m.msgType {
        assert r == rest;
        assert all == allRest;
      } else {
        var c := MatchCall(ms[0].callback, ms[0].userdata, m);
        assert all == [c] + allRest;
        assert EntryOf(c, m) == ms[0];
        if verdict(ms[0], m) != 0 {
          assert r == [c];
          assert all[..1] == [c];
          assert !allZero;
        } else {
          assert r == [c] + rest;
          assert r == all[..|r|] by {
            assert allRest[..|rest|] == rest;
            assert ([c] + allRest)[..|rest| + 1] == [c] + allRest[..|rest|];
          }
          forall i | 1 <= i < |r|
            ensures r[i] == rest[i - 1]
          {
          }
          if |r| < |all| {
            assert r[|r| - 1] == rest[|rest| - 1];
          }
          if allZero {
            assert rest == allRest;
          }
        }
      }
    }
  }

  lemma MatchStep(ms: seq<MatchCallback>, i: nat, m: Message, verdict: (MatchCallback, Message) -> int,
                  pre: seq<Call>)
    requires i < |ms|
    ensures ms[i].msgType != m.msgType ==>
              pre + MatchCalls(ms[i..], m, verdict) == pre + MatchCalls(ms[i + 1..], m, verdict)
    ensures ms[i].msgType == m.msgType && verdict(ms[i], m) != 0 ==>
              pre + MatchCalls(ms[i..], m, verdict) == pre + [MatchCall(ms[i].callback, ms[i].userdata, m)]
    ensures ms[i].msgType == m.msgType && verdict(ms[i], m) == 0 ==>
              pre + MatchCalls(ms[i..], m, verdict)
              == (pre + [MatchCall(ms[i].callback, ms[i].userdata, m)]) + MatchCalls(ms[i + 1..], m, verdict)
  {
    assert ms[i..][1..] == ms[i + 1..];
  }

  /** The multicast groups sd_netlink_add_match subscribes to for a message type; None for
      the types it does not support. */
  function AddGroups(t: nat): Option<seq<Group>> {
    if t == RTM_NEWLINK || t == RTM_DELLINK then Some([GroupLink])
    else if t == RTM_NEWADDR || t == RTM_DELADDR then Some([GroupIpv4Ifaddr, GroupIpv6Ifaddr])
    else if t == RTM_NEWROUTE || t == RTM_DELROUTE then Some([GroupIpv4Route, GroupIpv6Route])
    else if t == RTM_NEWRULE || t == RTM_DELRULE then Some([GroupIpv4Rule, GroupIpv6Rule])
    else None
  }

  /** The groups sd_netlink_remove_match unsubscribes from: as for adding, except that the
      rule types are missing from its switch. */
  function RemoveGroups(t: nat): Option<seq<Group>> {
    if t == RTM_NEWLINK || t == RTM_DELLINK then Some([GroupLink])
    else if t == RTM_NEWADDR || t == RTM_DELADDR then Some([GroupIpv4Ifaddr, GroupIpv6Ifaddr])
    else if t == RTM_NEWROUTE || t == RTM_DELROUTE then Some([GroupIpv4Route, GroupIpv6Route])
    else None
  }

  /** Adding and removing agree on every type except the two rule types, which can be added
      but not removed; exactly link, address, route and rule types can be added. */
  lemma GroupsAgreeExceptRules(t: nat)
    ensures AddGroups(t).Some? <==>
              t in {RTM_NEWLINK, RTM_DELLINK, RTM_NEWADDR, RTM_DELADDR,
                    RTM_NEWROUTE, RTM_DELROUTE, RTM_NEWRULE, RTM_DELRULE}
    ensures RemoveGroups(t) != AddGroups(t) <==> t == RTM_NEWRULE || t == RTM_DELRULE
    ensures RemoveGroups(t).Some? ==> RemoveGroups(t) == AddGroups(t)
  {
  }

  /** The group references taken or dropped, in order, until the first call that fails, and
      the status the sequence of calls ends with. */
  function GroupCalls(gs: seq<Group>, rc: Group -> int, add: bool): (r: (int, seq<GroupOp>))
    ensures |r.1| <= |gs|
    ensures r.0 >= 0 <==> |r.1| == |gs|
  {
    if gs == [] then (0, [])
    else if rc(gs[0]) < 0 then (rc(gs[0]), [])
    else
      var rest := GroupCalls(gs[1..], rc, add);
      (rest.0, [if add then GroupRef(gs[0]) else GroupUnref(gs[0])] + rest.1)
  }

  /** The net number of references to group g a log of group calls takes. */
  function NetRefs(ops: seq<GroupOp>, g: Group): int {
    if ops == [] then 0
    else (if ops[0] == GroupRef(g) then 1 else if ops[0] == GroupUnref(g) then -1 else 0)
         + NetRefs(ops[1..], g)
  }

  lemma {:induction false} NetRefsAppend(a: seq<GroupOp>, b: seq<GroupOp>, g: Group)
    ensures NetRefs(a + b, g) == NetRefs(a, g) + NetRefs(b, g)
    decreases |a|
  {
    if a == [] {
      assert a + b == b;
    } else {
      NetRefsAppend(a[1..], b, g);
      assert (a + b)[1..] == a[1..] + b;
    }
  }

  /** When every call succeeds, the calls for one or two different groups take (or drop) one
      reference to each of them and to nothing else. */
  lemma GroupCallsNet(gs: seq<Group>, rc: Group -> int, add: bool, g: Group)
    requires 1 <= |gs| <= 2 && (|gs| == 2 ==> gs[0] != gs[1])
    requires forall h :: rc(h) >= 0
    ensures NetRefs(GroupCalls(gs, rc, add).1, g) == (if g in gs then (if add then 1 else -1) else 0)
  {
    var ops := GroupCalls(gs, rc, add).1;
    if |gs| == 2 {
      assert gs[1..][1..] == [];
      assert ops[1..] == GroupCalls(gs[1..], rc, add).1;
    }
  }

  /** When every group call succeeds, adding a match and removing it again gives every group
      back its reference count, except for the rule types: their two groups keep the reference
      the add took. */
  lemma MatchGroupsRoundTrip(t: nat, refRc: Group -> int, unrefRc: Group -> int, g: Group)
    requires AddGroups(t).Some?
    requires forall h :: refRc(h) >= 0 && unrefRc(h) >= 0
    ensures var add := GroupCalls(AddGroups(t).value, refRc, true).1;
            var remove := if RemoveGroups(t).Some? then GroupCalls(RemoveGroups(t).value, unrefRc, false).1 else [];
            NetRefs(add + remove, g)
            == (if (t == RTM_NEWRULE || t == RTM_DELRULE) && (g == GroupIpv4Rule || g == GroupIpv6Rule) then 1 else 0)
  {
    var gs := AddGroups(t).value;
    var rule := t == RTM_NEWRULE || t == RTM_DELRULE;
    assert 1 <= |gs| <= 2 && (|gs| == 2 ==> gs[0] != gs[1]);
    assert rule ==> gs == [GroupIpv4Rule, GroupIpv6Rule] && RemoveGroups(t).None?;
    assert !rule ==> RemoveGroups(t) == Some(gs);
    var add := GroupCalls(gs, refRc, true).1;
    GroupCallsNet(gs, refRc, true, g);
    if rule {
      assert g in gs <==> g == GroupIpv4Rule || g == GroupIpv6Rule;
      NetRefsAppend(add, [], g);
    } else {
      var remove := GroupCalls(gs, unrefRc, false).1;
      GroupCallsNet(gs, unrefRc, false, g);
      NetRefsAppend(add, remove, g);
    }
  }

  // ---------------------------------------------------------------------------------------

  /** The sd_netlink object, reduced to its bookkeeping. The messages written to the socket are
      recorded by their serial, the callbacks the bus runs and the multicast group references it
      takes and drops are recorded in order. */
  class Netlink {
    var serial: U32
    var rqueue: array<Message>
    var rqueueSize: nat
    var rqueuePartial: array<Message>
    var rqueuePartialSize: nat
    var replyCallbacks: map<U32, ReplyCallback>
    var prioq: seq<ReplyCallback>
    var matches: seq<MatchCallback>
    var sent: seq<U32>
    var calls: seq<Call>
    var groupOps: seq<GroupOp>

    ghost predicate Valid()
      reads this
    {
      && rqueueSize <= rqueue.Length && rqueuePartialSize <= rqueuePartial.Length
      && rqueue != rqueuePartial
      && CallbacksValid(replyCallbacks, prioq)
    }

    /** The messages waiting in the read queue, oldest first. */
    function Queue(): seq<Message>
      requires rqueueSize <= rqueue.Length
      reads this, rqueue
    {
      rqueue[..rqueueSize]
    }

    /** sd_netlink_new: empty queues and registries, and serials starting at 1. */
    constructor ()
      ensures Valid()
      ensures serial == 1 && Queue() == [] && rqueuePartialSize == 0
      ensures replyCallbacks == map[] && prioq == [] && matches == []
      ensures sent == [] && calls == [] && groupOps == []
    {
      serial := 1;
      rqueue := new Message[0];
      rqueueSize := 0;
      rqueuePartial := new Message[0];
      rqueuePartialSize := 0;
      replyCallbacks := map[];
      prioq := [];
      matches := [];
      sent := [];
      calls := [];
      groupOps := [];
    }

    /** rtnl_seal_message: stamp the next serial, skipping 0. */
    method Seal() returns (stamp: U32)
      modifies this`serial
      ensures stamp == Stamp(old(serial)) && serial == NextSerial(old(serial))
    {
      var s := serial;
      serial := (serial + 1) % UINT32_LIMIT;
      if s != 0 {
        stamp := s;
      } else {
        stamp := serial;
        serial := (serial + 1) % UINT32_LIMIT;
      }
    }

    /** sd_netlink_send, given what the socket write returns: the serial is used up even when
        the write fails. */
    method Send(writeRc: int) returns (r: int, stamp: U32)
      modifies this`serial, this`sent
      ensures stamp == Stamp(old(serial)) && serial == NextSerial(old(serial))
      ensures writeRc < 0 ==> r == writeRc && sent == old(sent)
      ensures writeRc >= 0 ==> r == 1 && sent == old(sent) + [stamp]
    {
      stamp := Seal();
      if writeRc < 0 {
        return writeRc, stamp;
      }
      sent := sent + [stamp];
      r := 1;
    }

    /** GREEDY_REALLOC on a read queue: room for at least size + 1 messages, the first size
        kept. */
    static method Grow(a: array<Message>, size: nat) returns (b: array<Message>)
      requires size <= a.Length
      ensures b.Length > size && b[..size] == a[..size]
      ensures b == a || fresh(b)
    {
      if a.Length > size {
        return a;
      }
      b := new Message[2 * (size + 1)];
      var i := 0;
      while i < size
        invariant 0 <= i <= size
        invariant b[..i] == a[..i]
      {
        b[i] := a[i];
        i := i + 1;
      }
    }

    /** rtnl_rqueue_make_room */
    method RqueueMakeRoom() returns (r: int)
      requires Valid()
      modifies this`rqueue
      ensures Valid()
      ensures r == (if rqueueSize >= RTNL_RQUEUE_MAX then -ENOBUFS else 0)
      ensures rqueue == old(rqueue) || fresh(rqueue)
      ensures Queue() == old(Queue())
      ensures r == 0 ==> rqueue.Length > rqueueSize
    {
      if rqueueSize >= RTNL_RQUEUE_MAX {
        return -ENOBUFS;
      }
      rqueue := Grow(rqueue, rqueueSize);
      r := 0;
    }

    /** rtnl_rqueue_partial_make_room */
    method RqueuePartialMakeRoom() returns (r: int)
      requires Valid()
      modifies this`rqueuePartial
      ensures Valid()
      ensures r == (if rqueuePartialSize >= RTNL_RQUEUE_MAX then -ENOBUFS else 0)
      ensures rqueuePartial == old(rqueuePartial) || fresh(rqueuePartial)
      ensures rqueuePartial[..rqueuePartialSize] == old(rqueuePartial[..rqueuePartialSize])
      ensures r == 0 ==> rqueuePartial.Length > rqueuePartialSize
    {
      if rqueuePartialSize >= RTNL_RQUEUE_MAX {
        return -ENOBUFS;
      }
      rqueuePartial := Grow(rqueuePartial, rqueuePartialSize);
      r := 0;
    }

    /** How a complete message read from the socket joins the read queue: make room, then
        append it. */
    method Enqueue(m: Message) returns (r: int)
      requires Valid()
      modifies this`rqueue, this`rqueueSize, rqueue
      ensures Valid()
      ensures r == (if old(rqueueSize) >= RTNL_RQUEUE_MAX then -ENOBUFS else 0)
      ensures rqueue == old(rqueue) || fresh(rqueue)
      ensures r == 0 ==> Queue() == old(Queue()) + [m]
      ensures r < 0 ==> Queue() == old(Queue())
    {
      r := RqueueMakeRoom();
      if r < 0 {
        return;
      }
      rqueue[rqueueSize] := m;
      rqueueSize := rqueueSize + 1;
    }

    /** The memmove that takes message i out of the read queue, closing the gap. */
    method RemoveAt(i: nat)
      requires Valid() && i < rqueueSize
      modifies rqueue, this`rqueueSize
      ensures Valid()
      ensures Queue() == old(Queue()[..i] + Queue()[i + 1..])
    {
      ghost var q := rqueue[..rqueueSize];
      var k := i;
      while k + 1 < rqueueSize
        invariant rqueueSize == |q| <= rqueue.Length
        invariant i <= k < rqueueSize
        invariant rqueue[..k] == q[..i] + q[i + 1..k + 1]
        invariant rqueue[k + 1..rqueueSize] == q[k + 1..]
        decreases rqueueSize - k
      {
        rqueue[k] := rqueue[k + 1];
        assert rqueue[..k + 1] == rqueue[..k] + [q[k + 1]];
        k := k + 1;
      }
      rqueueSize := rqueueSize - 1;
    }

    /** dispatch_rqueue, given the outcome of the socket read it makes on an empty queue and
        the message that read queues: hand out the oldest queued message. */
    method DispatchRqueue(readRc: int, incoming: Message) returns (r: int, message: Option<Message>)
      requires Valid()
      modifies this`rqueue, this`rqueueSize, rqueue
      ensures Valid()
      ensures old(rqueueSize) > 0 ==>
                r == 1 && message == Some(old(Queue())[0]) && Queue() == old(Queue())[1..]
      ensures old(rqueueSize) == 0 ==>
                && Queue() == []
                && (readRc == -ENOBUFS ==> r == 1 && message == None)
                && (readRc <= 0 && readRc != -ENOBUFS ==> r == readRc && message == None)
                && (readRc > 0 ==> r == 1 && message == Some(incoming))
    {
      if rqueueSize == 0 {
        if readRc == -ENOBUFS {
          return 1, None;
        }
        if readRc <= 0 {
          return readRc, None;
        }
        var e := Enqueue(incoming);
      }
      message := Some(rqueue[0]);
      RemoveAt(0);
      r := 1;
    }

    /** The scan of the read queue in sd_netlink_call: take out the first message answering
        the serial and report it. When none is queued, found is false and the queue is left
        as it was. */
    method CallScan(serial: U32) returns (r: int, found: bool, reply: Option<Message>)
      requires Valid()
      modifies rqueue, this`rqueueSize
      ensures Valid()
      ensures match FindSerial(old(Queue()), serial, 0)
              case None => !found && r == 0 && reply.None? && Queue() == old(Queue())
              case Some(i) =>
                && found && (r, reply) == ScanResult(old(Queue())[i])
                && Queue() == old(Queue()[..i] + Queue()[i + 1..])
    {
      ghost var q := Queue();
      var i := 0;
      while i < rqueueSize
        invariant 0 <= i <= rqueueSize && Queue() == q
        invariant FindSerial(q, serial, 0) == FindSerial(q, serial, i)
      {
        if rqueue[i].serial == serial {
          var incoming := rqueue[i];
          RemoveAt(i);
          found := true;
          if incoming.errno < 0 {
            return incoming.errno, true, None;
          }
          if incoming.typeRc < 0 {
            return incoming.typeRc, true, None;
          }
          if incoming.msgType == NLMSG_DONE {
            return 0, true, None;
          }
          return 1, true, Some(incoming);
        }
        i := i + 1;
      }
      return 0, false, None;
    }

    /** process_timeout at time now, given whether the synthetic -ETIMEDOUT message can be
        built: the callback with the earliest deadline, if that deadline has passed, leaves
        both the registry and the queue and runs once. */
    method ProcessTimeout(now: U64, synthRc: int) returns (r: int)
      requires Valid()
      modifies this`replyCallbacks, this`prioq, this`calls
      ensures Valid()
      ensures old(prioq) == [] || old(prioq)[0].timeout > now || synthRc < 0 ==>
                && r == (if old(prioq) != [] && old(prioq)[0].timeout <= now then synthRc else 0)
                && replyCallbacks == old(replyCallbacks) && prioq == old(prioq) && calls == old(calls)
      ensures old(prioq) != [] && old(prioq)[0].timeout <= now && synthRc >= 0 ==>
                var c := old(prioq)[0];
                && r == 1
                && replyCallbacks == old(replyCallbacks) - {c.serial} && prioq == old(prioq)[1..]
                && calls == old(calls) + [TimeoutCall(c.callback, c.userdata, c.serial)]
    {
      if prioq == [] {
        return 0;
      }
      var c := prioq[0];
      if c.timeout > now {
        return 0;
      }
      if synthRc < 0 {
        return synthRc;
      }
      CallbacksPop(replyCallbacks, prioq);
      prioq := prioq[1..];
      replyCallbacks := replyCallbacks - {c.serial};
      calls := calls + [TimeoutCall(c.callback, c.userdata, c.serial)];
      r := 1;
    }

    /** process_reply: the callback registered for the reply's serial is unregistered (and
        dequeued) before it runs, so it runs at most once; a reply nobody waits for is
        ignored. */
    method ProcessReply(m: Message) returns (r: int)
      requires Valid()
      modifies this`replyCallbacks, this`prioq, this`calls
      ensures Valid()
      ensures m.serial !in old(replyCallbacks) ==>
                r == 0 && replyCallbacks == old(replyCallbacks) && prioq == old(prioq) && calls == old(calls)
      ensures m.serial in old(replyCallbacks) ==>
                var c := old(replyCallbacks)[m.serial];
                && replyCallbacks == old(replyCallbacks) - {m.serial}
                && (forall x :: x in prioq <==> x in old(prioq) && x.serial != m.serial)
                && (m.typeRc < 0 ==> r == 0 && calls == old(calls))
                && (m.typeRc >= 0 ==>
                      && r == 1
                      && calls == old(calls)
                                  + [ReplyCall(c.callback, c.userdata, if m.msgType == NLMSG_DONE then None else Some(m))])
    {
      if m.serial !in replyCallbacks {
        return 0;
      }
      var c := replyCallbacks[m.serial];
      CallbacksRemove(replyCallbacks, prioq, m.serial);
      RemoveSerialMembers(prioq, m.serial);
      replyCallbacks := replyCallbacks - {m.serial};
      if c.timeout != 0 {
        prioq := RemoveSerial(prioq, m.serial);
      } else {
        assert forall x | x in prioq :: x.serial != m.serial;
      }
      if m.typeRc < 0 {
        return 0;
      }
      var reply := if m.msgType == NLMSG_DONE then None else Some(m);
      calls := calls + [ReplyCall(c.callback, c.userdata, reply)];
      r := 1;
    }

    /** process_match, given what each handler returns: run the handlers of the broadcast's
        type in list order until one returns nonzero. */
    method ProcessMatch(m: Message, verdict: (MatchCallback, Message) -> int) returns (r: int)
      modifies this`calls
      ensures m.typeRc < 0 ==> r == m.typeRc && calls == old(calls)
      ensures m.typeRc >= 0 ==> r == 1 && calls == old(calls) + MatchCalls(matches, m, verdict)
    {
      if m.typeRc < 0 {
        return m.typeRc;
      }
      var i := 0;
      while i < |matches|
        invariant 0 <= i <= |matches|
        invariant calls + MatchCalls(matches[i..], m, verdict) == old(calls) + MatchCalls(matches, m, verdict)
      {
        var c := matches[i];
        MatchStep(matches, i, m, verdict, calls);
        if c.msgType == m.msgType {
          var v := verdict(c, m);
          calls := calls + [MatchCall(c.callback, c.userdata, m)];
          if v != 0 {
            break;
          }
        }
        i := i + 1;
      }
      r := 1;
    }

    /** process_running at time now, given what the steps it takes report: a due timeout is
        handled first and ends the round; otherwise one message leaves the read queue and is
        offered to the match handlers when it is a broadcast, else to the reply callback of its
        serial. Only a message that neither took is handed back. */
    method ProcessRunning(now: U64, synthRc: int, readRc: int, incoming: Message,
                          verdict: (MatchCallback, Message) -> int)
      returns (r: int, ret: Option<Message>)
      requires Valid()
      modifies this`replyCallbacks, this`prioq, this`calls, this`rqueue, this`rqueueSize, rqueue
      ensures Valid()
      ensures old(prioq) != [] && old(prioq)[0].timeout <= now ==>
                && ret.None? && Queue() == old(Queue()) && r == (if synthRc < 0 then synthRc else 1)
                && var c := old(prioq)[0];
                   if synthRc < 0 then
                     replyCallbacks == old(replyCallbacks) && prioq == old(prioq) && calls == old(calls)
                   else
                     && replyCallbacks == old(replyCallbacks) - {c.serial} && prioq == old(prioq)[1..]
                     && calls == old(calls) + [TimeoutCall(c.callback, c.userdata, c.serial)]
      ensures !(old(prioq) != [] && old(prioq)[0].timeout <= now) ==>
                var head := if old(rqueueSize) > 0 then Some(old(Queue())[0])
                            else if readRc > 0 then Some(incoming) else None;
                && Queue() == (if old(rqueueSize) > 0 then old(Queue())[1..] else [])
                && (head.None? ==>
                      && r == (if readRc == -ENOBUFS then 1 else readRc) && ret.None?
                      && replyCallbacks == old(replyCallbacks) && prioq == old(prioq) && calls == old(calls))
                && (head.Some? && head.value.broadcast ==>
                      && ret.None? && replyCallbacks == old(replyCallbacks) && prioq == old(prioq)
                      && (head.value.typeRc < 0 ==> r == head.value.typeRc && calls == old(calls))
                      && (head.value.typeRc >= 0 ==>
                            r == 1 && calls == old(calls) + MatchCalls(matches, head.value, verdict)))
                && (head.Some? && !head.value.broadcast && head.value.serial !in old(replyCallbacks) ==>
                      && r == 1 && ret == head
                      && replyCallbacks == old(replyCallbacks) && prioq == old(prioq) && calls == old(calls))
                && (head.Some? && !head.value.broadcast && head.value.serial in old(replyCallbacks) ==>
                      var m := head.value;
                      var c := old(replyCallbacks)[m.serial];
                      && r == 1
                      && replyCallbacks == old(replyCallbacks) - {m.serial}
                      && (forall x :: x in prioq <==> x in old(prioq) && x.serial != m.serial)
                      && (m.typeRc < 0 ==> ret == head && calls == old(calls))
                      && (m.typeRc >= 0 ==>
                            && ret.None?
                            && calls == old(calls)
                                        + [ReplyCall(c.callback, c.userdata, if m.msgType == NLMSG_DONE then None else Some(m))]))
      ensures ret.Some? ==>
                && r == 1 && !ret.value.broadcast
                && (ret.value.serial !in old(replyCallbacks) || ret.value.typeRc < 0)
                && (if old(rqueueSize) > 0 then ret == Some(old(Queue())[0]) else ret == Some(incoming))
    {
      r := ProcessTimeout(now, synthRc);
      if r != 0 {
        return r, None;
      }
      var m;
      r, m := DispatchRqueue(readRc, incoming);
      if r < 0 || m.None? {
        return r, None;
      }
      if m.value.broadcast {
        r := ProcessMatch(m.value, verdict);
      } else {
        r := ProcessReply(m.value);
      }
      if r != 0 {
        return r, None;
      }
      return 1, m;
    }

    /** sd_netlink_call_async, at time now and given what the socket write returns: the
        callback is registered under the serial the request went out with, and queued by
        deadline when it has one, only once the request was written; a serial still pending
        from an earlier request is refused. */
    method CallAsync(callback: nat, userdata: nat, usec: U64, now: U64, writeRc: int)
      returns (r: int, stamp: Option<U32>)
      requires Valid()
      modifies this`serial, this`sent, this`replyCallbacks, this`prioq
      ensures Valid()
      ensures serial == NextSerial(old(serial))
      ensures var s := Stamp(old(serial));
              var c := ReplyCallback(callback, userdata, CalcElapse(usec, now), s);
              if writeRc < 0 then
                && r == writeRc && stamp.None? && sent == old(sent)
                && replyCallbacks == old(replyCallbacks) && prioq == old(prioq)
              else
                && sent == old(sent) + [s]
                && if s in old(replyCallbacks) then
                     && r == -EEXIST && stamp.None?
                     && replyCallbacks == old(replyCallbacks) && prioq == old(prioq)
                   else
                     && r == 1 && stamp == Some(s)
                     && replyCallbacks == old(replyCallbacks)[s := c]
                     && prioq == (if c.timeout != 0 then Insert(old(prioq), c) else old(prioq))
    {
      var timeout := CalcElapse(usec, now);
      var k, s := Send(writeRc);
      if k < 0 {
        return k, None;
      }
      if s in replyCallbacks {
        return -EEXIST, None;
      }
      var c := ReplyCallback(callback, userdata, timeout, s);
      CallbacksAdd(replyCallbacks, prioq, c);
      replyCallbacks := replyCallbacks[s := c];
      if c.timeout != 0 {
        prioq := Insert(prioq, c);
      }
      return k, Some(s);
    }

    /** sd_netlink_call_async_cancel */
    method Cancel(serial: U32) returns (r: int)
      requires Valid()
      modifies this`replyCallbacks, this`prioq
      ensures Valid()
      ensures serial == 0 ==> r == -EINVAL
      ensures serial != 0 && serial !in old(replyCallbacks) ==> r == 0
      ensures r <= 0 ==> replyCallbacks == old(replyCallbacks) && prioq == old(prioq)
      ensures serial != 0 && serial in old(replyCallbacks) ==>
                && r == 1 && replyCallbacks == old(replyCallbacks) - {serial}
                && (forall x :: x in prioq <==> x in old(prioq) && x.serial != serial)
    {
      if serial == 0 {
        return -EINVAL;
      }
      if serial !in replyCallbacks {
        return 0;
      }
      var c := replyCallbacks[serial];
      CallbacksRemove(replyCallbacks, prioq, serial);
      RemoveSerialMembers(prioq, serial);
      replyCallbacks := replyCallbacks - {serial};
      if c.timeout != 0 {
        prioq := RemoveSerial(prioq, serial);
      } else {
        assert forall x | x in prioq :: x.serial != serial;
      }
      r := 1;
    }

    /** sd_netlink_get_events: wait for input only while nothing is queued. */
    method GetEvents() returns (r: int)
      requires Valid()
      ensures r == POLLIN <==> Queue() == []
      ensures r == 0 <==> Queue() != []
    {
      if rqueueSize == 0 {
        return POLLIN;
      }
      return 0;
    }

    /** sd_netlink_get_timeout: 0 (now) while messages are queued, otherwise the earliest
        deadline of a pending reply callback, or (uint64_t) -1 when none has a deadline. */
    method GetTimeout() returns (r: int, timeout: U64)
      requires Valid()
      ensures Queue() != [] ==> r == 1 && timeout == 0
      ensures Queue() == [] && (forall s | s in replyCallbacks :: replyCallbacks[s].timeout == 0) ==>
                r == 0 && timeout == UINT64_MAX
      ensures Queue() == [] && (exists s | s in replyCallbacks :: replyCallbacks[s].timeout != 0) ==>
                && r == 1 && timeout != 0
                && (exists s | s in replyCallbacks :: replyCallbacks[s].timeout == timeout)
                && (forall s | s in replyCallbacks && replyCallbacks[s].timeout != 0 ::
                      timeout <= replyCallbacks[s].timeout)
    {
      if rqueueSize > 0 {
        return 1, 0;
      }
      if prioq == [] {
        return 0, UINT64_MAX;
      }
      var c := prioq[0];
      forall s | s in replyCallbacks && replyCallbacks[s].timeout != 0
        ensures c.timeout <= replyCallbacks[s].timeout
      {
        SortedHeadFirst(prioq, replyCallbacks[s]);
      }
      assert replyCallbacks[c.serial].timeout == c.timeout;
      return 1, c.timeout;
    }

    /** One socket_broadcast_group_ref or _unref call, given its status; a successful one is
        recorded. */
    method GroupCall(g: Group, rc: Group -> int, add: bool) returns (r: int)
      modifies this`groupOps
      ensures r == rc(g)
      ensures groupOps == old(groupOps) + (if r >= 0 then [if add then GroupRef(g) else GroupUnref(g)] else [])
    {
      r := rc(g);
      if r >= 0 {
        groupOps := groupOps + [if add then GroupRef(g) else GroupUnref(g)];
      }
    }

    /** The group calls for one message type: one group, or an IPv4 and an IPv6 group, the
        second only when the first succeeded. */
    method GroupCallsFor(gs: seq<Group>, rc: Group -> int, add: bool) returns (r: int)
      requires 1 <= |gs| <= 2
      modifies this`groupOps
      ensures r < 0 ==> r == GroupCalls(gs, rc, add).0
      ensures r >= 0 <==> GroupCalls(gs, rc, add).0 >= 0
      ensures groupOps == old(groupOps) + GroupCalls(gs, rc, add).1
    {
      r := GroupCall(gs[0], rc, add);
      if r < 0 || |gs| == 1 {
        return;
      }
      r := GroupCall(gs[1], rc, add);
      assert gs[1..][1..] == [];
    }

    /** sd_netlink_add_match, given the status of each group subscription: only link,
        address, route and rule types are accepted, and the handler goes to the head of the
        list once its groups are joined. */
    method AddMatch(msgType: nat, callback: nat, userdata: nat, groupRc: Group -> int) returns (r: int)
      modifies this`matches, this`groupOps
      ensures AddGroups(msgType).None? ==>
                r == -EOPNOTSUPP && matches == old(matches) && groupOps == old(groupOps)
      ensures AddGroups(msgType).Some? ==>
                var (rc, ops) := GroupCalls(AddGroups(msgType).value, groupRc, true);
                && groupOps == old(groupOps) + ops
                && (rc < 0 ==> r == rc && matches == old(matches))
                && (rc >= 0 ==> r == 0 && matches == [MatchCallback(callback, msgType, userdata)] + old(matches))
    {
      var groups := AddGroups(msgType);
      if groups.None? {
        return -EOPNOTSUPP;
      }
      r := GroupCallsFor(groups.value, groupRc, true);
      if r < 0 {
        return;
      }
      matches := [MatchCallback(callback, msgType, userdata)] + matches;
      r := 0;
    }

    /** sd_netlink_remove_match, given the status of each group unsubscription: the first
        equal entry is removed; for the rule types the entry goes but the call reports
        -EOPNOTSUPP. */
    method RemoveMatch(msgType: nat, callback: nat, userdata: nat, groupRc: Group -> int) returns (r: int)
      modifies this`matches, this`groupOps
      ensures var target := MatchCallback(callback, msgType, userdata);
              if target !in old(matches) then
                r == 0 && matches == old(matches) && groupOps == old(groupOps)
              else
                var i := IndexOf(old(matches), target);
                && matches == old(matches)[..i] + old(matches)[i + 1..]
                && (RemoveGroups(msgType).None? ==> r == -EOPNOTSUPP && groupOps == old(groupOps))
                && (RemoveGroups(msgType).Some? ==>
                      var (rc, ops) := GroupCalls(RemoveGroups(msgType).value, groupRc, false);
                      && groupOps == old(groupOps) + ops
                      && r == (if rc < 0 then rc else 1))
    {
      var target := MatchCallback(callback, msgType, userdata);
      var i := 0;
      while i < |matches|
        invariant 0 <= i <= |matches| && matches == old(matches) && groupOps == old(groupOps)
        invariant target !in matches[..i]
      {
        if matches[i] == target {
          assert IndexOf(matches, target) == i;
          matches := matches[..i] + matches[i + 1..];
          var groups := RemoveGroups(msgType);
          if groups.None? {
            return -EOPNOTSUPP;
          }
          r := GroupCallsFor(groups.value, groupRc, false);
          if r < 0 {
            return;
          }
          return 1;
        }
        assert matches[..i + 1] == matches[..i] + [matches[i]];
        i := i + 1;
      }
      assert matches[..i] == matches;
      r := 0;
    }
  }

  /** The position of the first occurrence of x in s. */
  function IndexOf<T(==)>(s: seq<T>, x: T): (i: nat)
    requires x in s
    ensures i < |s| && s[i] == x && x !in s[..i]
  {
    if s[0] == x then 0
    else
      assert s == [s[0]] + s[1..];
      var j := IndexOf(s[1..], x);
      assert s[..j + 1] == [s[0]] + s[1..][..j];
      j + 1
  }
}
