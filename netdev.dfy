/** The netdev engine of netdev.c: records for virtual network devices, their reference counts,
    their life-cycle state machine, the queue of links waiting to join a master device, and the
    registry the manager keeps by interface name. */
module NetDev {
  import opened Common
  import opened NetDevKind
  import opened NetDevMac
  import opened NetDevSpec

  /** A pending join: the link that asked to be enslaved and its completion callback. */
  datatype JoinEntry = JoinEntry(link: Link, callback: Callback)

  /** One call of a join callback: which callback, for which link, with which error. */
  datatype Invocation = Invocation(callback: Callback, link: Link, error: int)

  /** The parts of a Link the engine uses: its index and whether IFF_UP is set. */
  datatype Link = Link(ifindex: int, up: bool)

  /** A call of link_ref or link_unref. */
  datatype LinkOp = LinkRef(link: Link) | LinkUnref(link: Link)

  /** The world outside the engine, as the manager's rtnl handle sees it. The transport's
      verdict on each request, each kind hook's return value, and whether the synthetic
      -ENODEV reply can be allocated are fixed inputs; the requests the transport accepted,
      the callbacks run and the link references taken and released are recorded in order. */
  class Env {
    const transport: Request -> int
    const hook: (Hook, string) -> int
    const canAllocate: bool
    var sent: seq<Request>
    var invoked: seq<Invocation>
    var linkOps: seq<LinkOp>

    constructor (transport: Request -> int, hook: (Hook, string) -> int, canAllocate: bool)
      ensures this.transport == transport && this.hook == hook && this.canAllocate == canAllocate
      ensures sent == [] && invoked == [] && linkOps == []
    {
      this.transport := transport;
      this.hook := hook;
      this.canAllocate := canAllocate;
      sent := [];
      invoked := [];
      linkOps := [];
    }
  }

  // ---------------------------------------------------------------------------------------
  // The join queue, as values

  function LinksIn(cbs: seq<JoinEntry>): (r: seq<Link>)
    ensures |r| == |cbs| && forall i | 0 <= i < |cbs| :: r[i] == cbs[i].link
  {
    seq(|cbs|, i requires 0 <= i < |cbs| => cbs[i].link)
  }

  /** How many entries of the queue hold a reference on link l. */
  function Count(cbs: seq<JoinEntry>, l: Link): nat {
    multiset(LinksIn(cbs))[l]
  }

  /** The net change a sequence of link_ref/link_unref calls makes to link l's count. */
  function RefBalance(ops: seq<LinkOp>, l: Link): int {
    if ops == [] then 0
    else RefBalance(ops[..|ops| - 1], l)
         + (match ops[|ops| - 1]
            case LinkRef(x) => if x == l then 1 else 0
            case LinkUnref(x) => if x == l then -1 else 0)
  }

  lemma {:induction false} RefBalanceAppend(a: seq<LinkOp>, b: seq<LinkOp>, l: Link)
    ensures RefBalance(a + b, l) == RefBalance(a, l) + RefBalance(b, l)
    decreases |b|
  {
    if b != [] {
      assert (a + b)[..|a + b| - 1] == a + b[..|b| - 1];
      RefBalanceAppend(a, b[..|b| - 1], l);
    } else {
      assert a + b == a;
    }
  }

  /** The callbacks netdev_cancel_callbacks runs, in queue order, each with -ENODEV. */
  function CancelInvocations(cbs: seq<JoinEntry>): (r: seq<Invocation>)
    ensures |r| == |cbs|
    ensures forall i | 0 <= i < |cbs| :: r[i] == Invocation(cbs[i].callback, cbs[i].link, -ENODEV)
  {
    seq(|cbs|, i requires 0 <= i < |cbs| => Invocation(cbs[i].callback, cbs[i].link, -ENODEV))
  }

  /** The link_unref calls that release the references the entries cbs held, in order. */
  function UnrefOps(cbs: seq<JoinEntry>): (r: seq<LinkOp>)
    ensures |r| == |cbs|
    ensures forall i | 0 <= i < |cbs| :: r[i] == LinkUnref(cbs[i].link)
  {
    seq(|cbs|, i requires 0 <= i < |cbs| => LinkUnref(cbs[i].link))
  }

  lemma CancelStep(cbs: seq<JoinEntry>, k: nat)
    requires k < |cbs|
    ensures CancelInvocations(cbs[..k + 1])
            == CancelInvocations(cbs[..k]) + [Invocation(cbs[k].callback, cbs[k].link, -ENODEV)]
    ensures UnrefOps(cbs[..k + 1]) == UnrefOps(cbs[..k]) + [LinkUnref(cbs[k].link)]
  {
  }

  lemma MapMinus<K, V>(m: map<K, V>, a: set<K>, k: K)
    ensures (m - a) - {k} == m - (a + {k})
  {
  }

  lemma MultisetMove<T>(order: seq<T>, keys: set<T>, x: T)
    requires x in keys
    ensures multiset(order + [x]) + multiset(keys - {x}) == multiset(order) + multiset(keys)
  {
    assert keys == (keys - {x}) + {x};
  }

  lemma AppendAssoc<T>(a: seq<T>, b: seq<T>, c: seq<T>)
    ensures (a + b) + c == a + (b + c)
  {
  }

  /** Invocations logged while cancelling done and then cbs are those of done + cbs. */
  lemma CancelExtend(canAllocate: bool, inv0: seq<Invocation>, inv1: seq<Invocation>, inv2: seq<Invocation>,
                     done: seq<JoinEntry>, cbs: seq<JoinEntry>)
    requires inv1 == inv0 + (if canAllocate then CancelInvocations(done) else [])
    requires inv2 == inv1 + (if canAllocate then CancelInvocations(cbs) else [])
    ensures inv2 == inv0 + (if canAllocate then CancelInvocations(done + cbs) else [])
  {
    CancelAppend(done, cbs);
    if canAllocate {
      assert (inv0 + CancelInvocations(done)) + CancelInvocations(cbs)
          == inv0 + (CancelInvocations(done) + CancelInvocations(cbs));
    }
  }

  /** Link operations logged while cancelling done and then cbs are those of done + cbs. */
  lemma OpsExtend(ops0: seq<LinkOp>, ops1: seq<LinkOp>, ops2: seq<LinkOp>, done: seq<JoinEntry>, cbs: seq<JoinEntry>)
    requires ops1 == ops0 + UnrefOps(done)
    requires ops2 == ops1 + UnrefOps(cbs)
    ensures ops2 == ops0 + UnrefOps(done + cbs)
  {
    CancelAppend(done, cbs);
    assert (ops0 + UnrefOps(done)) + UnrefOps(cbs) == ops0 + (UnrefOps(done) + UnrefOps(cbs));
  }

  /** Cancelling two queues one after the other is cancelling their concatenation. */
  lemma CancelAppend(a: seq<JoinEntry>, b: seq<JoinEntry>)
    ensures CancelInvocations(a + b) == CancelInvocations(a) + CancelInvocations(b)
    ensures UnrefOps(a + b) == UnrefOps(a) + UnrefOps(b)
  {
  }

  /** Releasing a queue takes back exactly the references its entries held: link l loses one
      reference per entry naming it. */
  lemma {:induction false} UnrefOpsBalance(cbs: seq<JoinEntry>, l: Link)
    ensures RefBalance(UnrefOps(cbs), l) == -(Count(cbs, l) as int)
    decreases |cbs|
  {
    if cbs != [] {
      var n := |cbs| - 1;
      assert UnrefOps(cbs)[..n] == UnrefOps(cbs[..n]);
      assert LinksIn(cbs) == LinksIn(cbs[..n]) + [cbs[n].link];
      UnrefOpsBalance(cbs[..n], l);
    }
  }

  /** The effect of netdev_cancel_callbacks with queue cbs: each callback runs with -ENODEV
      when the synthetic reply could be allocated, nothing is sent, and the reference each
      entry held on its link is released, in queue order. */
  twostate predicate CallbacksCancelled(env: Env, cbs: seq<JoinEntry>)
    reads env
  {
    && env.invoked == old(env.invoked) + (if env.canAllocate then CancelInvocations(cbs) else [])
    && env.sent == old(env.sent)
    && env.linkOps == old(env.linkOps) + UnrefOps(cbs)
  }

  // ---------------------------------------------------------------------------------------
  // netdev_enslave_ready and the drain in netdev_enter_ready, as values

  /** What netdev_enslave_ready returns for a link: the link_down error if the link is up and
      cannot be brought down, otherwise 0 (a failed send is only logged). */
  function EnslaveResult(env: Env, link: Link): (r: int)
    ensures r <= 0
    ensures r < 0 <==> link.up && env.transport(LinkDown(link.ifindex)) < 0
  {
    if link.up && env.transport(LinkDown(link.ifindex)) < 0 then env.transport(LinkDown(link.ifindex)) else 0
  }

  function SetMasterOf(e: JoinEntry, master: int): Request {
    SetMaster(e.link.ifindex, master, e.callback)
  }

  /** netdev_enslave_ready took a reference on the link: the link was brought down if it was
      up, and the transport accepted the RTM_SETLINK request. */
  predicate EnslaveTakesRef(env: Env, e: JoinEntry, master: int) {
    EnslaveResult(env, e.link) == 0 && env.transport(SetMasterOf(e, master)) >= 0
  }

  /** The requests the transport accepted during one netdev_enslave_ready. */
  function EnslaveRequests(env: Env, e: JoinEntry, master: int): seq<Request> {
    if EnslaveResult(env, e.link) < 0 then []
    else (if e.link.up then [LinkDown(e.link.ifindex)] else [])
         + (if env.transport(SetMasterOf(e, master)) >= 0 then [SetMasterOf(e, master)] else [])
  }

  /** The link_ref calls of one netdev_enslave_ready. */
  function EnslaveOps(env: Env, e: JoinEntry, master: int): seq<LinkOp> {
    if EnslaveTakesRef(env, e, master) then [LinkRef(e.link)] else []
  }

  /** How many queue entries, from the head, netdev_enter_ready serves before the first one
      whose enslave fails. */
  function Served(env: Env, cbs: seq<JoinEntry>): (r: nat)
    ensures r <= |cbs|
  {
    if cbs == [] || EnslaveResult(env, cbs[0].link) < 0 then 0 else 1 + Served(env, cbs[1..])
  }

  /** The drain stops exactly at the first entry whose enslave fails: every entry before it
      succeeded. */
  lemma {:induction false} ServedSpec(env: Env, cbs: seq<JoinEntry>)
    ensures Served(env, cbs) <= |cbs|
    ensures forall i | 0 <= i < Served(env, cbs) :: EnslaveResult(env, cbs[i].link) == 0
    ensures Served(env, cbs) < |cbs| ==> EnslaveResult(env, cbs[Served(env, cbs)].link) < 0
  {
    if cbs != [] && EnslaveResult(env, cbs[0].link) == 0 {
      ServedSpec(env, cbs[1..]);
    }
  }

  lemma ServedStep(env: Env, cbs: seq<JoinEntry>, k: nat)
    requires k < |cbs| && EnslaveResult(env, cbs[k].link) == 0
    ensures Served(env, cbs[k..]) == 1 + Served(env, cbs[k + 1..])
  {
    assert cbs[k..][1..] == cbs[k + 1..];
  }

  lemma ServedStops(env: Env, cbs: seq<JoinEntry>, k: nat)
    requires k < |cbs| && EnslaveResult(env, cbs[k].link) < 0
    ensures Served(env, cbs[k..]) == 0
  {
    assert cbs[k..][0] == cbs[k];
  }

  /** The requests accepted while serving the entries cbs in order. */
  function DrainRequests(env: Env, cbs: seq<JoinEntry>, master: int): seq<Request> {
    if cbs == [] then []
    else DrainRequests(env, cbs[..|cbs| - 1], master) + EnslaveRequests(env, cbs[|cbs| - 1], master)
  }

  /** The link_ref/link_unref calls made while serving the entries cbs in order: the enslave
      may take a reference, then the entry's own reference is released. */
  function DrainOps(env: Env, cbs: seq<JoinEntry>, master: int): seq<LinkOp> {
    if cbs == [] then []
    else DrainOps(env, cbs[..|cbs| - 1], master)
         + EnslaveOps(env, cbs[|cbs| - 1], master) + [LinkUnref(cbs[|cbs| - 1].link)]
  }

  /** One more served entry extends the logs of the drain, after whatever was logged before
      it (sent0, ops0). */
  lemma DrainStep(env: Env, cbs: seq<JoinEntry>, k: nat, master: int, sent0: seq<Request>, ops0: seq<LinkOp>)
    requires k < |cbs|
    ensures sent0 + DrainRequests(env, cbs[..k + 1], master)
            == (sent0 + DrainRequests(env, cbs[..k], master)) + EnslaveRequests(env, cbs[k], master)
    ensures ops0 + DrainOps(env, cbs[..k + 1], master)
            == (ops0 + DrainOps(env, cbs[..k], master)) + EnslaveOps(env, cbs[k], master) + [LinkUnref(cbs[k].link)]
  {
    assert cbs[..k + 1][..k] == cbs[..k];
  }

  /** When every enslave in the drain takes its reference, the reference a queue entry held
      passes to the enslave request: no link's count changes. */
  lemma {:induction false} DrainTransfersRefs(env: Env, cbs: seq<JoinEntry>, master: int, l: Link)
    requires forall i | 0 <= i < |cbs| :: EnslaveTakesRef(env, cbs[i], master)
    ensures RefBalance(DrainOps(env, cbs, master), l) == 0
    decreases |cbs|
  {
    if cbs != [] {
      var n := |cbs| - 1;
      var step := EnslaveOps(env, cbs[n], master) + [LinkUnref(cbs[n].link)];
      DrainTransfersRefs(env, cbs[..n], master, l);
      RefBalanceAppend(DrainOps(env, cbs[..n], master), step, l);
      assert step == [LinkRef(cbs[n].link), LinkUnref(cbs[n].link)];
      assert step[..1] == [LinkRef(cbs[n].link)];
      assert [LinkRef(cbs[n].link)][..0] == [];
    }
  }

  // ---------------------------------------------------------------------------------------
  // netdev_create, as a value

  function NonPositive(r: int): int {
    if r < 0 then r else 0
  }

  /** What netdev_create returns: the kind's own create hook's error, or the error of
      fill_message_create, or the transport's verdict on the RTM_NEWLINK request; 0 otherwise. */
  function CreateResult(env: Env, vt: VTable, kind: Kind, ifname: string, mac: Option<seq<Byte>>, mtu: nat,
                        linkIndex: Option<int>, callback: Callback): (r: int)
    ensures r <= 0
  {
    if vt.hasCreate then NonPositive(env.hook(CreateHook, ifname))
    else if vt.hasFillMessageCreate && env.hook(FillMessageCreateHook, ifname) < 0 then
      env.hook(FillMessageCreateHook, ifname)
    else NonPositive(env.transport(CreateRequest(vt, kind, ifname, mac, mtu, linkIndex, callback)))
  }

  // ---------------------------------------------------------------------------------------

  /** A NetDev record. A record the manager loads has manager, kind, vtable and name set and
      starts in LOADING; the minimal record of the first parsing pass has no manager and stays
      in the invalid state. The counters record how often the kind's hooks ran. */
  class NetDev {
    const manager: Manager?
    const kind: Option<Kind>
    const vtable: Option<VTable>
    const ifname: Option<string>
    const mtu: nat
    var mac: Option<seq<Byte>>
    var ifindex: int
    var state: State
    var nRef: int
    var callbacks: seq<JoinEntry>
    var freed: bool
    var initCalls: nat
    var createCalls: nat
    var postCreateCalls: nat
    var doneCalls: nat

    /** The minimal record of the first parsing pass. */
    constructor Raw(kind: Option<Kind>, vtable: Option<VTable>, ifname: Option<string>)
      ensures this.manager == null && this.kind == kind && this.vtable == vtable && this.ifname == ifname
      ensures state == Invalid && nRef == 1 && callbacks == [] && !freed && doneCalls == 0
      ensures Valid()
    {
      manager := null;
      this.kind := kind;
      this.vtable := vtable;
      this.ifname := ifname;
      mtu := 0;
      mac := None;
      ifindex := 0;
      state := Invalid;
      nRef := 1;
      callbacks := [];
      freed := false;
      initCalls := 0;
      createCalls := 0;
      postCreateCalls := 0;
      doneCalls := 0;
    }

    /** The full record of the second pass, with the kind's init hook run once; its name is
        the one the second pass reads, if any. */
    constructor Loaded(manager: Manager, kind: Kind, ifname: Option<string>, mac: Option<seq<Byte>>, mtu: nat)
      ensures this.manager == manager && this.kind == Some(kind) && this.ifname == ifname
      ensures vtable == Some(manager.vtables(kind)) && this.mac == mac && this.mtu == mtu
      ensures state == Loading && nRef == 1 && callbacks == [] && !freed && ifindex == 0
      ensures initCalls == (if manager.vtables(kind).hasInit then 1 else 0)
      ensures createCalls == 0 && postCreateCalls == 0 && doneCalls == 0
      ensures Valid()
    {
      this.manager := manager;
      this.kind := Some(kind);
      vtable := Some(manager.vtables(kind));
      this.ifname := ifname;
      this.mtu := mtu;
      this.mac := mac;
      ifindex := 0;
      state := Loading;
      nRef := 1;
      callbacks := [];
      freed := false;
      initCalls := if manager.vtables(kind).hasInit then 1 else 0;
      createCalls := 0;
      postCreateCalls := 0;
      doneCalls := 0;
    }

    ghost predicate Valid()
      reads this
    {
      && (manager != null ==>
            kind.Some? && vtable == Some(manager.vtables(kind.value)) && state != Invalid)
      && (callbacks != [] ==> manager != null && IsMasterKind(kind.value))
    }

    /** The record is live and registered in m under the name n, holding the registry's
        reference. */
    ghost predicate RegisteredAs(m: Manager, n: string)
      reads this
    {
      manager == m && ifname == Some(n) && !freed && nRef >= 1 && Valid()
    }

    ghost function MgrObjs(): set<object> {
      if manager == null then {} else {manager}
    }

    ghost function EnvObjs(): set<object> {
      if manager == null then {} else {manager.env}
    }

    /** The registry key netdev_free removes: the record's name, when it has one. */
    function NameKey(): set<string> {
      NameSet(ifname)
    }

    /** netdev_free runs the kind's done hook only on a record whose state was initialised. */
    predicate DoneRuns()
      reads this
    {
      state != Invalid && vtable.Some? && vtable.value.hasDone
    }

    /** The effect of netdev_free on a record whose queue was cbs. */
    twostate predicate Released(cbs: seq<JoinEntry>)
      reads this, MgrObjs(), EnvObjs()
    {
      && freed && callbacks == []
      && doneCalls == old(doneCalls) + (if DoneRuns() then 1 else 0)
      && (manager != null ==>
            && CallbacksCancelled(manager.env, cbs)
            && manager.netdevs == old(manager.netdevs) - NameKey())
    }

    /** n references dropped from a record whose queue was cbs, with the queue cancelled first
        when cancel holds: the record is freed once the count reaches zero. */
    twostate predicate RefsDropped(cbs: seq<JoinEntry>, n: nat, cancel: bool)
      reads this, MgrObjs(), EnvObjs()
    {
      && nRef == old(nRef) - n
      && (freed <==> nRef <= 0)
      && (if freed then Released(cbs)
          else
            && doneCalls == old(doneCalls)
            && (manager != null ==> manager.netdevs == old(manager.netdevs))
            && (if cancel then callbacks == [] && (manager != null ==> CallbacksCancelled(manager.env, cbs))
                else callbacks == cbs && unchanged(EnvObjs())))
    }

    /** netdev_cancel_callbacks */
    method CancelCallbacks()
      requires Valid()
      modifies this`callbacks, EnvObjs()
      ensures Valid()
      ensures callbacks == []
      ensures manager != null ==> CallbacksCancelled(manager.env, old(callbacks))
    {
      if manager == null {
        return;
      }
      var env := manager.env;
      ghost var cbs := callbacks;
      ghost var k := 0;
      while callbacks != []
        invariant 0 <= k <= |cbs| && callbacks == cbs[k..]
        invariant env.invoked == old(env.invoked) + (if env.canAllocate then CancelInvocations(cbs[..k]) else [])
        invariant env.sent == old(env.sent)
        invariant env.linkOps == old(env.linkOps) + UnrefOps(cbs[..k])
        invariant Valid()
        decreases |callbacks|
      {
        var e := callbacks[0];
        assert e == cbs[k];
        CancelStep(cbs, k);
        if env.canAllocate {
          env.invoked := env.invoked + [Invocation(e.callback, e.link, -ENODEV)];
        }
        callbacks := callbacks[1..];
        env.linkOps := env.linkOps + [LinkUnref(e.link)];
        k := k + 1;
      }
      assert cbs[..k] == cbs;
    }

    /** netdev_free */
    method Free()
      requires Valid() && !freed
      modifies this`callbacks, this`freed, this`doneCalls, MgrObjs(), EnvObjs()
      ensures Valid()
      ensures Released(old(callbacks))
    {
      CancelCallbacks();
      if ifname.Some? && manager != null {
        manager.netdevs := manager.netdevs - {ifname.value};
      }
      if state != Invalid && vtable.Some? && vtable.value.hasDone {
        doneCalls := doneCalls + 1;
      }
      freed := true;
    }

    /** netdev_unref */
    method Unref()
      requires Valid() && !freed
      modifies this`nRef, this`callbacks, this`freed, this`doneCalls, MgrObjs(), EnvObjs()
      ensures Valid()
      ensures RefsDropped(old(callbacks), 1, false)
    {
      nRef := nRef - 1;
      if nRef <= 0 {
        Free();
      }
    }

    /** netdev_ref */
    method Ref()
      requires nRef >= 1
      modifies this`nRef
      ensures nRef == old(nRef) + 1
    {
      nRef := nRef + 1;
    }

    /** netdev_drop: a record already in LINGER is left alone; otherwise it enters LINGER,
        its pending joins are cancelled, and the manager's reference is dropped. */
    method Drop()
      requires Valid() && !freed && manager != null
      modifies this`state, this`nRef, this`callbacks, this`freed, this`doneCalls, manager, manager.env
      ensures Valid()
      ensures old(state) == Linger ==> unchanged(this) && unchanged(manager) && unchanged(manager.env)
      ensures old(state) != Linger ==> state == Linger && RefsDropped(old(callbacks), 1, true)
    {
      if state == Linger {
        return;
      }
      state := Linger;
      CancelCallbacks();
      Unref();
    }

    /** netdev_enter_failed */
    method EnterFailed() returns (r: int)
      requires Valid() && !freed && manager != null
      modifies this`state, this`callbacks, manager.env
      ensures Valid()
      ensures r == 0 && state == Failed && callbacks == []
      ensures CallbacksCancelled(manager.env, old(callbacks))
    {
      state := Failed;
      CancelCallbacks();
      r := 0;
    }

    /** netdev_enslave_ready: bring the link down if it is up, then ask for it to be enslaved
        to this record's interface; a reference on the link is taken once the request is out. */
    method EnslaveReady(link: Link, callback: Callback) returns (r: int)
      requires Valid() && !freed && manager != null && state == Ready && IsMasterKind(kind.value)
      modifies manager.env
      ensures r == EnslaveResult(manager.env, link)
      ensures manager.env.sent == old(manager.env.sent) + EnslaveRequests(manager.env, JoinEntry(link, callback), ifindex)
      ensures manager.env.invoked == old(manager.env.invoked)
      ensures manager.env.linkOps == old(manager.env.linkOps) + EnslaveOps(manager.env, JoinEntry(link, callback), ifindex)
    {
      var env := manager.env;
      if link.up {
        var down := env.transport(LinkDown(link.ifindex));
        if down < 0 {
          return down;
        }
        env.sent := env.sent + [LinkDown(link.ifindex)];
      }
      var req := SetMaster(link.ifindex, ifindex, callback);
      if env.transport(req) < 0 {
        return 0;
      }
      env.sent := env.sent + [req];
      env.linkOps := env.linkOps + [LinkRef(link)];
      r := 0;
    }

    /** The effect of netdev_enslave, by the state the record was in. */
    twostate predicate EnslaveEffect(link: Link, callback: Callback, r: int)
      reads this, EnvObjs()
    {
      && manager != null
      && var env := manager.env;
         match old(state)
         case Ready =>
           && callbacks == old(callbacks)
           && r == EnslaveResult(env, link)
           && env.sent == old(env.sent) + EnslaveRequests(env, JoinEntry(link, callback), ifindex)
           && env.invoked == old(env.invoked)
           && env.linkOps == old(env.linkOps) + EnslaveOps(env, JoinEntry(link, callback), ifindex)
         case Linger | Failed =>
           && r == 0 && callbacks == old(callbacks)
           && env.sent == old(env.sent)
           && env.invoked == old(env.invoked) + (if env.canAllocate then [Invocation(callback, link, -ENODEV)] else [])
           && env.linkOps == old(env.linkOps)
         case _ =>
           && r == 0 && callbacks == [JoinEntry(link, callback)] + old(callbacks)
           && env.sent == old(env.sent) && env.invoked == old(env.invoked)
           && env.linkOps == old(env.linkOps) + [LinkRef(link)]
    }

    /** netdev_enslave: enslave now when READY, fail the join at once when the record is
        lingering or failed, and otherwise queue it at the head of the join list. */
    method Enslave(link: Link, callback: Callback) returns (r: int)
      requires Valid() && !freed && manager != null && IsMasterKind(kind.value)
      modifies this`callbacks, manager.env
      ensures Valid()
      ensures EnslaveEffect(link, callback, r)
    {
      var env := manager.env;
      if state == Ready {
        r := EnslaveReady(link, callback);
        if r < 0 {
          return;
        }
      } else if state == Linger || state == Failed {
        if env.canAllocate {
          env.invoked := env.invoked + [Invocation(callback, link, -ENODEV)];
        }
      } else {
        env.linkOps := env.linkOps + [LinkRef(link)];
        callbacks := [JoinEntry(link, callback)] + callbacks;
      }
      r := 0;
    }

    /** The effect of the drain in netdev_enter_ready on a queue cbs: entries are served from
        the head until one fails, and the served ones leave the queue. */
    twostate predicate QueueServed(cbs: seq<JoinEntry>)
      reads this, EnvObjs()
    {
      && manager != null
      && var env := manager.env;
         var k := Served(env, cbs);
         && callbacks == cbs[k..]
         && env.sent == old(env.sent) + DrainRequests(env, cbs[..k], ifindex)
         && env.invoked == old(env.invoked)
         && env.linkOps == old(env.linkOps) + DrainOps(env, cbs[..k], ifindex)
    }

    /** The drain followed by post_create, which runs only when the whole queue was served. */
    twostate predicate Drained(cbs: seq<JoinEntry>)
      reads this, EnvObjs()
    {
      && manager != null && vtable.Some?
      && QueueServed(cbs)
      && postCreateCalls
         == old(postCreateCalls) + (if Served(manager.env, cbs) == |cbs| && vtable.value.hasPostCreate then 1 else 0)
    }

    /** One step of the drain in netdev_enter_ready, on entry k of the queue cbs it started
        from: enslave the head entry's link and, when that succeeds, remove the entry and
        release the reference it held. */
    method ServeHead(ghost cbs: seq<JoinEntry>, ghost k: nat) returns (r: int)
      requires Valid() && !freed && manager != null && state == Ready
      requires k < |cbs| && callbacks == cbs[k..]
      modifies this`callbacks, manager.env
      ensures Valid()
      ensures r == EnslaveResult(manager.env, cbs[k].link)
      ensures manager.env.invoked == old(manager.env.invoked)
      ensures r < 0 ==> callbacks == old(callbacks) && manager.env.sent == old(manager.env.sent)
                        && manager.env.linkOps == old(manager.env.linkOps)
      ensures r == 0 ==>
                && callbacks == cbs[k + 1..]
                && manager.env.sent == old(manager.env.sent) + EnslaveRequests(manager.env, cbs[k], ifindex)
                && manager.env.linkOps
                   == old(manager.env.linkOps) + EnslaveOps(manager.env, cbs[k], ifindex) + [LinkUnref(cbs[k].link)]
    {
      var e := callbacks[0];
      r := EnslaveReady(e.link, e.callback);
      if r < 0 {
        assert EnslaveRequests(manager.env, e, ifindex) == [] && EnslaveOps(manager.env, e, ifindex) == [];
        return;
      }
      callbacks := callbacks[1..];
      manager.env.linkOps := manager.env.linkOps + [LinkUnref(e.link)];
    }

    /** The loop of netdev_enter_ready: serve the join queue from its head until an enslave
        fails, returning that failure. */
    method DrainQueue() returns (r: int)
      requires Valid() && !freed && manager != null && state == Ready
      modifies this`callbacks, manager.env
      ensures Valid()
      ensures QueueServed(old(callbacks))
      ensures var k := Served(manager.env, old(callbacks));
              r == (if k < |old(callbacks)| then EnslaveResult(manager.env, old(callbacks)[k].link) else 0)
      ensures r < 0 <==> Served(manager.env, old(callbacks)) < |old(callbacks)|
    {
      var env := manager.env;
      ghost var cbs := callbacks;
      ghost var k := 0;
      r := 0;
      while r == 0 && callbacks != []
        invariant 0 <= k <= |cbs| && callbacks == cbs[k..]
        invariant Served(env, cbs) == k + Served(env, cbs[k..])
        invariant r <= 0 && (r < 0 ==> k < |cbs| && r == EnslaveResult(env, cbs[k].link))
        invariant env.sent == old(env.sent) + DrainRequests(env, cbs[..k], ifindex)
        invariant env.invoked == old(env.invoked)
        invariant env.linkOps == old(env.linkOps) + DrainOps(env, cbs[..k], ifindex)
        invariant Valid()
        decreases |cbs| - k + (if r == 0 then 1 else 0)
      {
        r := ServeHead(cbs, k);
        if r == 0 {
          ServedStep(env, cbs, k);
          DrainStep(env, cbs, k, ifindex, old(env.sent), old(env.linkOps));
          k := k + 1;
        }
      }
      if r < 0 {
        ServedStops(env, cbs, k);
      }
    }

    /** netdev_enter_ready */
    method EnterReady() returns (r: int)
      requires Valid() && !freed && manager != null
      modifies this`state, this`callbacks, this`postCreateCalls, manager.env
      ensures Valid()
      ensures old(state) != Creating ==>
                && r == 0 && state == old(state) && callbacks == old(callbacks)
                && postCreateCalls == old(postCreateCalls) && unchanged(manager.env)
      ensures old(state) == Creating ==>
                && state == Ready && Drained(old(callbacks))
                && var k := Served(manager.env, old(callbacks));
                   r == (if k < |old(callbacks)| then EnslaveResult(manager.env, old(callbacks)[k].link) else 0)
    {
      if state != Creating {
        return 0;
      }
      state := Ready;
      r := DrainQueue();
      if r < 0 {
        return;
      }
      if vtable.value.hasPostCreate {
        postCreateCalls := postCreateCalls + 1;
      }
    }

    /** netdev_create_handler, given the error the reply carries: -EEXIST counts as success,
        any other error drops the record, and the reference the request held is released in
        every case. The caller holds that reference besides the manager's when the record is
        to be dropped. */
    method CreateHandler(error: int) returns (r: int)
      requires Valid() && !freed && manager != null
      requires nRef >= (if error < 0 && error != -EEXIST && state != Linger then 2 else 1)
      modifies this`state, this`nRef, this`callbacks, this`freed, this`doneCalls, manager, manager.env
      ensures Valid()
      ensures r == 1
      ensures error < 0 && error != -EEXIST && old(state) != Linger ==>
                state == Linger && RefsDropped(old(callbacks), 2, true)
      ensures !(error < 0 && error != -EEXIST && old(state) != Linger) ==>
                state == old(state) && RefsDropped(old(callbacks), 1, false)
    {
      if error < 0 && error != -EEXIST {
        Drop();
      }
      Unref();
      r := 1;
    }

    /** netdev_set_ifindex: validate an RTM_NEWLINK reply and adopt its index. */
    method SetIfindex(m: LinkMessage) returns (r: int)
      requires Valid() && !freed && manager != null && ifname.Some?
      modifies this`ifindex, this`state, this`callbacks, this`postCreateCalls, manager.env
      ensures Valid()
      ensures match IfindexVerdictOf(m, old(ifindex), ifname.value, kind)
              case Reject(e) =>
                && r == e && ifindex == old(ifindex) && state == old(state) && callbacks == old(callbacks)
                && postCreateCalls == old(postCreateCalls) && unchanged(manager.env)
              case Keep =>
                && r == 0 && ifindex == old(ifindex) && state == old(state) && callbacks == old(callbacks)
                && postCreateCalls == old(postCreateCalls) && unchanged(manager.env)
              case FailWith(e) =>
                && r == e && ifindex == old(ifindex) && state == Failed && callbacks == []
                && postCreateCalls == old(postCreateCalls)
                && CallbacksCancelled(manager.env, old(callbacks))
              case Adopt(i) =>
                && r == 0 && ifindex == i
                && (old(state) == Creating ==> state == Ready && Drained(old(callbacks)))
                && (old(state) != Creating ==>
                      && state == old(state) && callbacks == old(callbacks)
                      && postCreateCalls == old(postCreateCalls) && unchanged(manager.env))
    {
      var v := IfindexVerdictOf(m, ifindex, ifname.value, kind);
      match v
      case Reject(e) =>
        r := e;
      case Keep =>
        r := 0;
      case FailWith(e) =>
        var _ := EnterFailed();
        r := e;
      case Adopt(i) =>
        ifindex := i;
        var _ := EnterReady();
        r := 0;
    }

    /** The effect of netdev_create with an optional backing link. */
    twostate predicate CreateEffect(link: Option<Link>, callback: Callback, r: int)
      reads this, EnvObjs()
    {
      && manager != null && vtable.Some? && kind.Some? && ifname.Some?
      && var env := manager.env;
         var vt := vtable.value;
         var li := if link.Some? then Some(link.value.ifindex) else None;
         && env.invoked == old(env.invoked)
         && r == CreateResult(env, vt, kind.value, ifname.value, mac, mtu, li, callback)
         && if vt.hasCreate then
              && createCalls == old(createCalls) + 1 && state == old(state) && nRef == old(nRef)
              && env.sent == old(env.sent) && env.linkOps == old(env.linkOps)
            else
              && createCalls == old(createCalls)
              && if r < 0 then
                   && env.sent == old(env.sent) && env.linkOps == old(env.linkOps)
                   && state == old(state) && nRef == old(nRef)
                 else
                   && env.sent == old(env.sent) + [CreateRequest(vt, kind.value, ifname.value, mac, mtu, li, callback)]
                   && state == Creating
                   && (link.None? ==> nRef == old(nRef) + 1 && env.linkOps == old(env.linkOps))
                   && (link.Some? ==> nRef == old(nRef) && env.linkOps == old(env.linkOps) + [LinkRef(link.value)])
    }

    /** netdev_create: run the kind's own create hook, or build and send the generic
        RTM_NEWLINK request whose reply goes to the joining link or to CreateHandler. */
    method Create(link: Option<Link>, callback: Callback) returns (r: int)
      requires Valid() && !freed && manager != null && ifname.Some? && nRef >= 1
      requires vtable.value.hasCreate ==> link.None?
      modifies this`state, this`nRef, this`createCalls, manager.env
      ensures Valid()
      ensures CreateEffect(link, callback, r)
    {
      var env := manager.env;
      var vt := vtable.value;
      if vt.hasCreate {
        createCalls := createCalls + 1;
        var h := env.hook(CreateHook, ifname.value);
        if h < 0 {
          return h;
        }
        return 0;
      }
      var li := if link.Some? then Some(link.value.ifindex) else None;
      if vt.hasFillMessageCreate {
        var h := env.hook(FillMessageCreateHook, ifname.value);
        if h < 0 {
          return h;
        }
      }
      var req := CreateRequest(vt, kind.value, ifname.value, mac, mtu, li, callback);
      var s := env.transport(req);
      if s < 0 {
        return s;
      }
      env.sent := env.sent + [req];
      if link.Some? {
        env.linkOps := env.linkOps + [LinkRef(link.value)];
      } else {
        Ref();
      }
      state := Creating;
      r := 0;
    }

    /** netdev_join: a master kind enslaves the link, a stacked kind is created on top of it;
        an independent kind cannot be joined. */
    method Join(link: Link, callback: Callback) returns (r: int)
      requires Valid() && !freed && manager != null && ifname.Some? && nRef >= 1
      requires vtable.value.createType != Independent
      requires vtable.value.createType == Master ==> IsMasterKind(kind.value)
      requires vtable.value.createType == Stacked ==> !vtable.value.hasCreate
      modifies this`state, this`nRef, this`createCalls, this`callbacks, manager.env
      ensures Valid()
      ensures vtable.value.createType == Master ==>
                && EnslaveEffect(link, callback, r)
                && state == old(state) && nRef == old(nRef) && createCalls == old(createCalls)
      ensures vtable.value.createType == Stacked ==>
                CreateEffect(Some(link), callback, r) && callbacks == old(callbacks)
    {
      if vtable.value.createType == Master {
        r := Enslave(link, callback);
      } else {
        r := Create(Some(link), callback);
      }
    }
  }

  // ---------------------------------------------------------------------------------------

  /** The manager's side of the engine: the registry of records by interface name, the kind
      vtables, the machine identity the MAC derivation uses, and the outside world. */
  class Manager {
    const env: Env
    const vtables: Kind -> VTable
    const machineId: Result<MachineId>
    const siphash: (seq<Byte>, seq<Byte>) -> bv64
    var netdevs: map<string, NetDev>

    constructor (env: Env, vtables: Kind -> VTable, machineId: Result<MachineId>,
                 siphash: (seq<Byte>, seq<Byte>) -> bv64)
      ensures this.env == env && this.vtables == vtables && this.machineId == machineId
      ensures this.siphash == siphash && netdevs == map[]
      ensures Valid()
    {
      this.env := env;
      this.vtables := vtables;
      this.machineId := machineId;
      this.siphash := siphash;
      netdevs := map[];
    }

    /** Every registered record belongs to this manager, is registered under its own name,
        is live and holds the registry's reference. */
    ghost predicate Valid()
      reads this, netdevs.Values
    {
      forall n | n in netdevs :: netdevs[n].RegisteredAs(this, n)
    }

    /** netdev_get */
    method Get(name: string) returns (r: int, nd: NetDev?)
      ensures name in netdevs ==> r == 0 && nd == netdevs[name]
      ensures name !in netdevs ==> r == -ENOENT && nd == null
    {
      if name in netdevs {
        return 0, netdevs[name];
      }
      return -ENOENT, null;
    }

    /** The MAC a loaded record ends up with: the configured one, none for VLAN, otherwise
        the one derived from the machine identity and the name. */
    function LoadedMac(f: NetDevFile): Option<seq<Byte>>
      requires f.fullIfname.Some? && f.kind.Some?
    {
      if f.mac.Some? then f.mac
      else if f.kind.value == Vlan then None
      else
        match GetMac(siphash, machineId, f.fullIfname.value)
        case Ok(m) => Some(m)
        case Err(_) => None
    }

    /** The first check on the full record that stops netdev_load_one, with the value it
        returns: a failed second parse, a failed config_verify (reported as 0; its verdict is
        looked up under the file's first-pass name), a record the second pass left without a
        name (ignored, reported as 0), or a failed MAC derivation for a record that needs one. */
    function PrepareFailure(f: NetDevFile): (r: Option<int>)
      requires PassesFirstPass(f)
      ensures r.None? ==> f.fullIfname.Some?
    {
      var kind := f.kind.value;
      if f.fullParseRc < 0 then Some(f.fullParseRc)
      else if vtables(kind).hasConfigVerify && env.hook(ConfigVerifyHook, f.ifname.value) < 0 then Some(0)
      else if f.fullIfname.None? then Some(0)
      else if f.mac.None? && kind != Vlan && GetMac(siphash, machineId, f.fullIfname.value).Err? then
        Some(GetMac(siphash, machineId, f.fullIfname.value).err)
      else None
    }

    /** As written, netdev_load_one goes on past config_verify with whatever name the second
        pass read. A record left without one (its Name= sits only in a drop-in) reaches
        netdev_get_mac, whose assert on the name aborts, or, with a MAC or as a VLAN,
        hashmap_put with a NULL key. */
    ghost predicate NamelessPastVerify(f: NetDevFile) {
      && PassesFirstPass(f) && f.fullParseRc >= 0
      && !(vtables(f.kind.value).hasConfigVerify && env.hook(ConfigVerifyHook, f.ifname.value) < 0)
      && f.fullIfname.None?
    }

    /** A bridge whose Name= is only in a drop-in: pass 1 sees br0, pass 2 sees no name. */
    static function DropInNamedBridge(): NetDevFile {
      NetDevFile(0, false, 0, true, Some(Bridge), Some("br0"), 0, 0, None, None, 0, false)
    }

    /** The file above gets past config_verify without a name; the model ignores it instead,
        leaving the registry as it was. */
    lemma DropInNameReachesNull(names: set<string>)
      requires !vtables(Bridge).hasConfigVerify
      ensures NamelessPastVerify(DropInNamedBridge())
      ensures LoadOneSpec(DropInNamedBridge(), names) == (0, names)
    {
      var f := DropInNamedBridge();
      assert PassesFirstPass(f) && f.fullIfname.None?;
      assert PrepareFailure(f) == Some(0);
      assert names - NameSet(f.fullIfname) == names;
    }

    /** A record the second pass leaves without a name, because that parse fails first or
        the name is only in a drop-in, never registers or unregisters anything. */
    lemma NamelessLeavesRegistry(f: NetDevFile, names: set<string>)
      requires f.fullIfname.None?
      ensures LoadOneSpec(f, names).1 == names
    {
    }

    /** What netdev_load_one returns and which names are registered afterwards, given the
        names registered before. */
    ghost function LoadOneSpec(f: NetDevFile, names: set<string>): (int, set<string>)
    {
      if f.openRc < 0 then (if f.openRc == -ENOENT then 0 else f.openRc, names)
      else if f.empty then (0, names)
      else if f.parseRc < 0 then (f.parseRc, names)
      else if !f.matches || f.kind.None? || f.ifname.None? then (0, names)
      else if f.seekRc < 0 then (f.seekRc, names)
      else
        var kind := f.kind.value;
        var vt := vtables(kind);
        if PrepareFailure(f).Some? then (PrepareFailure(f).value, names - NameSet(f.fullIfname))
        else
          var name := f.fullIfname.value;
          if name in names then (-EEXIST, names - {name})
          else
            var c := CreateResult(env, vt, kind, name, LoadedMac(f), f.mtu, None, 0);
            if (vt.createType != Stacked || (f.independent && IsTunnelKind(kind))) && c < 0 then (c, names)
            else (0, names + {name})
    }

    /** netdev_load over a listing: every file, from the last to the first, until one fails. */
    ghost function LoadBackwards(fs: seq<NetDevFile>, names: set<string>): (int, set<string>)
      decreases |fs|
    {
      if fs == [] then (0, names)
      else
        var step := LoadOneSpec(fs[|fs| - 1], names);
        if step.0 < 0 then step else LoadBackwards(fs[..|fs| - 1], step.1)
    }

    /** The requests netdev_load sends over a listing, file by file from the last. */
    ghost function LoadBackwardsSent(fs: seq<NetDevFile>, names: set<string>): seq<Request>
      decreases |fs|
    {
      if fs == [] then []
      else
        var step := LoadOneSpec(fs[|fs| - 1], names);
        LoadOneSent(fs[|fs| - 1], names)
        + (if step.0 < 0 then [] else LoadBackwardsSent(fs[..|fs| - 1], step.1))
    }

    /** The name a file can register or unregister: the Name= of its second pass, once it
        survives pass 1. */
    static function NameOf(f: NetDevFile): set<string> {
      if PassesFirstPass(f) then NameSet(f.fullIfname) else {}
    }

    static ghost function NamesOf(fs: seq<NetDevFile>): set<string> {
      set f | f in fs && PassesFirstPass(f) && f.fullIfname.Some? :: f.fullIfname.value
    }

    /** A file netdev_load_one passes over without error and without touching the registry:
        missing, empty, not for this host, or without Kind= or Name=. */
    static predicate Ignored(f: NetDevFile) {
      || f.openRc == -ENOENT
      || (f.openRc >= 0
          && (f.empty || (f.parseRc >= 0 && (!f.matches || f.kind.None? || f.ifname.None?))))
    }

    /** Loading one file only ever registers or unregisters that file's own name, and an
        error never registers it. */
    lemma LoadOneTouchesOwnName(f: NetDevFile, names: set<string>)
      ensures var (r, after) := LoadOneSpec(f, names);
              && after <= names + NameOf(f)
              && names - NameOf(f) <= after
              && (r < 0 ==> after <= names)
    {
    }

    /** An ignored file returns 0 and leaves the registry as it is. */
    lemma IgnoredFileChangesNothing(f: NetDevFile, names: set<string>)
      requires Ignored(f)
      ensures LoadOneSpec(f, names) == (0, names)
    {
    }

    /** A name registered after netdev_load over a listing was registered before or belongs
        to one of the listed files; a name no listed file carries keeps its registration. */
    lemma {:induction false} LoadBackwardsNames(fs: seq<NetDevFile>, names: set<string>)
      ensures LoadBackwards(fs, names).1 <= names + NamesOf(fs)
      ensures names - NamesOf(fs) <= LoadBackwards(fs, names).1
      decreases |fs|
    {
      if fs != [] {
        var n := |fs| - 1;
        var f := fs[n];
        LoadOneTouchesOwnName(f, names);
        assert NamesOf(fs) == NamesOf(fs[..n]) + NameOf(f) by {
          assert fs == fs[..n] + [f];
        }
        var step := LoadOneSpec(f, names);
        if step.0 >= 0 {
          LoadBackwardsNames(fs[..n], step.1);
        }
      }
    }

    /** A listing of ignored files loads nothing and returns 0. */
    lemma {:induction false} IgnoredListing(fs: seq<NetDevFile>, names: set<string>)
      requires forall i | 0 <= i < |fs| :: Ignored(fs[i])
      ensures LoadBackwards(fs, names) == (0, names)
      decreases |fs|
    {
      if fs != [] {
        IgnoredFileChangesNothing(fs[|fs| - 1], names);
        IgnoredListing(fs[..|fs| - 1], names);
      }
    }

    /** The file will be registered when its name is free: it passes every check and, if it
        is created at load time, creation succeeds. */
    ghost predicate Loadable(f: NetDevFile) {
      && f.openRc >= 0 && !f.empty && PassesFirstPass(f) && PrepareFailure(f).None?
      && var kind := f.kind.value;
         var c := CreateResult(env, vtables(kind), kind, f.fullIfname.value, LoadedMac(f), f.mtu, None, 0);
         !((vtables(kind).createType != Stacked || (f.independent && IsTunnelKind(kind))) && c < 0)
    }

    /** The RTM_NEWLINK requests netdev_load_one's netdev_create calls send for a loaded
        file through the generic path: one for a master or independent kind, one more for a
        tunnel marked Independent=. */
    function LoadCreateRequests(f: NetDevFile): seq<Request>
      requires PassesFirstPass(f) && f.fullIfname.Some?
    {
      var kind := f.kind.value;
      var vt := vtables(kind);
      var req := CreateRequest(vt, kind, f.fullIfname.value, LoadedMac(f), f.mtu, None, 0);
      (if vt.createType != Stacked then [req] else [])
      + (if f.independent && IsTunnelKind(kind) then [req] else [])
    }

    /** The requests loading f sends, given the names registered before: the creation
        requests of a record that ends up registered, unless its kind creates itself. */
    ghost function LoadOneSent(f: NetDevFile, names: set<string>): seq<Request> {
      if Loadable(f) && f.fullIfname.value !in names && !vtables(f.kind.value).hasCreate then
        LoadCreateRequests(f)
      else []
    }

    /** Two listed files with the same Name=: the later one is loaded first and registered,
        the earlier one then fails with -EEXIST, which unregisters the name and stops the
        load. Neither record stays registered. */
    lemma DuplicateNamesAbort(first: NetDevFile, second: NetDevFile, names: set<string>)
      requires Loadable(first) && Loadable(second)
      requires first.fullIfname == second.fullIfname && first.fullIfname.value !in names
      ensures LoadBackwards([first, second], names) == (-EEXIST, names)
    {
      var name := first.fullIfname.value;
      assert LoadOneSpec(second, names) == (0, names + {name});
      assert LoadOneSpec(first, names + {name}) == (-EEXIST, names + {name} - {name});
      assert names + {name} - {name} == names;
      assert [first, second][..1] == [first];
      assert [first][..0] == [];
    }

    /** netdev_load_one */
    method LoadOne(f: NetDevFile) returns (r: int)
      requires Valid()
      modifies this, env
      ensures Valid()
      ensures (r, netdevs.Keys) == LoadOneSpec(f, old(netdevs.Keys))
      ensures forall n | n in netdevs && n in old(netdevs) :: netdevs[n] == old(netdevs[n])
      ensures forall n | n in netdevs && n !in old(netdevs) ::
                fresh(netdevs[n]) && netdevs[n].kind == f.kind && netdevs[n].mac == LoadedMac(f)
      ensures env.invoked == old(env.invoked) && env.linkOps == old(env.linkOps)
      ensures env.sent == old(env.sent) + LoadOneSent(f, old(netdevs.Keys))
      ensures forall n | n in netdevs && n !in old(netdevs) ::
                netdevs[n].state == (if LoadOneSent(f, old(netdevs.Keys)) != [] then Creating else Loading)
    {
      if f.openRc < 0 {
        return if f.openRc == -ENOENT then 0 else f.openRc;
      }
      if f.empty {
        return 0;
      }
      var raw := new NetDev.Raw(f.kind, if f.kind.Some? then Some(vtables(f.kind.value)) else None, f.ifname);
      r := LoadParsed(f);
      raw.Unref();
    }

    /** netdev_load_one after the file is open: the two parsing passes and the checks between
        them. */
    method LoadParsed(f: NetDevFile) returns (r: int)
      requires Valid() && f.openRc >= 0 && !f.empty
      modifies this, env
      ensures Valid()
      ensures (r, netdevs.Keys) == LoadOneSpec(f, old(netdevs.Keys))
      ensures forall n | n in netdevs && n in old(netdevs) :: netdevs[n] == old(netdevs[n])
      ensures forall n | n in netdevs && n !in old(netdevs) ::
                fresh(netdevs[n]) && netdevs[n].kind == f.kind && netdevs[n].mac == LoadedMac(f)
      ensures env.invoked == old(env.invoked) && env.linkOps == old(env.linkOps)
      ensures env.sent == old(env.sent) + LoadOneSent(f, old(netdevs.Keys))
      ensures forall n | n in netdevs && n !in old(netdevs) ::
                netdevs[n].state == (if LoadOneSent(f, old(netdevs.Keys)) != [] then Creating else Loading)
    {
      if f.parseRc < 0 {
        return f.parseRc;
      }
      if !f.matches || f.kind.None? || f.ifname.None? {
        return 0;
      }
      if f.seekRc < 0 {
        return f.seekRc;
      }
      var nd := new NetDev.Loaded(this, f.kind.value, f.fullIfname, f.mac, f.mtu);
      r := Register(f, nd);
    }

    /** The checks netdev_load_one makes on the full record before registering it, and the
        MAC it gives it; ok is false when loading stops there, with result r. */
    method Prepare(f: NetDevFile, nd: NetDev) returns (r: int, ok: bool)
      requires PassesFirstPass(f) && nd.kind == f.kind && nd.mac == f.mac
      modifies nd`mac
      ensures ok <==> PrepareFailure(f).None?
      ensures !ok ==> r == PrepareFailure(f).value
      ensures ok ==> r == 0 && nd.mac == LoadedMac(f)
    {
      var kind := f.kind.value;
      if f.fullParseRc < 0 {
        return f.fullParseRc, false;
      }
      if vtables(kind).hasConfigVerify && env.hook(ConfigVerifyHook, f.ifname.value) < 0 {
        return 0, false;
      }
      if f.fullIfname.None? {
        return 0, false;
      }
      var name := f.fullIfname.value;
      if nd.mac.None? && kind != Vlan {
        var m := GetMac(siphash, machineId, name);
        if m.Err? {
          return m.err, false;
        }
        nd.mac := Some(m.value);
      }
      return 0, true;
    }

    /** The _cleanup_netdev_unref_ of netdev_load_one on a record holding its only
        reference: the record is freed and its name leaves the registry, whichever record
        was registered under it. */
    method Discard(nd: NetDev)
      requires Valid() && nd.manager == this
      requires nd.Valid() && !nd.freed && nd.nRef == 1 && nd.callbacks == []
      modifies this, env, nd
      ensures Valid()
      ensures netdevs == old(netdevs) - NameSet(nd.ifname)
      ensures nd.freed
      ensures env.sent == old(env.sent) && env.invoked == old(env.invoked) && env.linkOps == old(env.linkOps)
    {
      nd.Unref();
      assert CancelInvocations([]) == [] && UnrefOps([]) == [];
    }

    /** The creation step of netdev_load_one for a registered record: master and independent
        kinds are created, and a tunnel marked Independent= is created (again) on its own. */
    method CreateLoaded(f: NetDevFile, nd: NetDev) returns (r: int)
      requires Valid() && PassesFirstPass(f) && f.fullIfname.Some?
      requires f.fullIfname.value in netdevs && netdevs[f.fullIfname.value] == nd
      requires nd.kind == f.kind && nd.ifname == f.fullIfname && nd.mac == LoadedMac(f) && nd.mtu == f.mtu
      modifies nd`state, nd`nRef, nd`createCalls, env
      ensures Valid()
      ensures var kind := f.kind.value;
              var c := CreateResult(env, vtables(kind), kind, f.fullIfname.value, LoadedMac(f), f.mtu, None, 0);
              var creates := vtables(kind).createType != Stacked || (f.independent && IsTunnelKind(kind));
              r == (if creates && c < 0 then c else 0)
      ensures env.invoked == old(env.invoked) && env.linkOps == old(env.linkOps)
      ensures var reqs := LoadCreateRequests(f);
              if vtables(f.kind.value).hasCreate then
                && env.sent == old(env.sent) && nd.state == old(nd.state) && nd.nRef == old(nd.nRef)
                && nd.createCalls == old(nd.createCalls) + (if r < 0 then 1 else |reqs|)
              else
                && nd.createCalls == old(nd.createCalls)
                && env.sent == old(env.sent) + (if r < 0 then [] else reqs)
                && nd.state == (if r >= 0 && reqs != [] then Creating else old(nd.state))
                && nd.nRef == old(nd.nRef) + (if r < 0 then 0 else |reqs|)
    {
      var kind := f.kind.value;
      r := 0;
      if vtables(kind).createType != Stacked {
        r := nd.Create(None, 0);
      }
      if r >= 0 && f.independent && IsTunnelKind(kind) {
        r := nd.Create(None, 0);
      }
    }

    /** netdev_load_one once the full record exists: verify it, give it a MAC, register it
        and create it. Every failure releases the record, which unregisters its name. */
    method Register(f: NetDevFile, nd: NetDev) returns (r: int)
      requires Valid() && PassesFirstPass(f)
      requires nd.manager == this && nd.kind == f.kind && nd.ifname == f.fullIfname
      requires nd.mac == f.mac && nd.mtu == f.mtu
      requires nd.Valid() && !nd.freed && nd.nRef == 1 && nd.state == Loading && nd.callbacks == []
      requires nd !in netdevs.Values
      modifies this, env, nd
      ensures Valid()
      ensures (r, netdevs.Keys) == LoadOneSpec(f, old(netdevs.Keys))
      ensures forall n | n in netdevs && n in old(netdevs) :: netdevs[n] == old(netdevs[n])
      ensures forall n | n in netdevs && n !in old(netdevs) ::
                netdevs[n] == nd && nd.kind == f.kind && nd.mac == LoadedMac(f)
      ensures env.invoked == old(env.invoked) && env.linkOps == old(env.linkOps)
      ensures env.sent == old(env.sent) + LoadOneSent(f, old(netdevs.Keys))
      ensures forall n | n in netdevs && n !in old(netdevs) ::
                netdevs[n].state == (if LoadOneSent(f, old(netdevs.Keys)) != [] then Creating else Loading)
    {
      var ok;
      r, ok := Prepare(f, nd);
      if !ok {
        Discard(nd);
        return;
      }
      var name := f.fullIfname.value;
      if name in netdevs {
        Discard(nd);
        return -EEXIST;
      }
      ghost var names := netdevs.Keys;
      netdevs := netdevs[name := nd];
      assert netdevs.Keys - {name} == names;
      r := CreateLoaded(f, nd);
      if r < 0 {
        assert LoadOneSpec(f, names) == (r, names);
        Discard(nd);
        return;
      }
      assert netdevs.Keys == names + {name};
      assert PrepareFailure(f).None? && name !in names;
      assert LoadOneSpec(f, names) == (0, names + {name});
      r := 0;
    }

    /** Unref the record registered as name until it leaves the registry, which it does when
        its last reference goes. */
    method Evict(name: string)
      requires Valid() && name in netdevs
      modifies this, env, netdevs[name]
      ensures Valid()
      ensures netdevs == old(netdevs) - {name}
      ensures old(netdevs[name]).freed
      ensures CallbacksCancelled(env, old(netdevs[name].callbacks))
      ensures forall n | n in netdevs :: netdevs[n] == old(netdevs[n])
      ensures forall o: NetDev | old(allocated(o)) && o != old(netdevs[name]) :: o.callbacks == old(o.callbacks) && o.freed == old(o.freed)
    {
      var nd := netdevs[name];
      ghost var before := netdevs;
      ghost var cbs := nd.callbacks;
      while name in netdevs
        invariant Valid()
        invariant netdevs == before || netdevs == before - {name}
        invariant name in netdevs ==> netdevs[name] == nd
        invariant name !in netdevs ==> nd.freed
        invariant name in netdevs ==>
                    && nd.callbacks == cbs && env.sent == old(env.sent)
                    && env.invoked == old(env.invoked) && env.linkOps == old(env.linkOps)
        invariant name !in netdevs ==> CallbacksCancelled(env, cbs)
        decreases nd.nRef
      {
        nd.Unref();
      }
    }

    /** The join queue of every registered record, by name. */
    ghost function QueueMap(): map<string, seq<JoinEntry>>
      reads this, netdevs.Values
    {
      map n | n in netdevs :: netdevs[n].callbacks
    }

    /** The queues of qm under the names in order, one after the other (a name qm lacks adds
        nothing). */
    static ghost function QueuesOf(qm: map<string, seq<JoinEntry>>, order: seq<string>): seq<JoinEntry>
    {
      if order == [] then []
      else QueuesOf(qm, order[..|order| - 1]) + (if order[|order| - 1] in qm then qm[order[|order| - 1]] else [])
    }

    /** The logs after the queue of name is cancelled, following those of the names in
        order, are the logs of cancelling order + [name]. */
    static lemma ClearStep(qm: map<string, seq<JoinEntry>>, order: seq<string>, name: string, canAllocate: bool,
                           inv0: seq<Invocation>, inv1: seq<Invocation>, inv2: seq<Invocation>,
                           ops0: seq<LinkOp>, ops1: seq<LinkOp>, ops2: seq<LinkOp>)
      requires name in qm
      requires inv1 == inv0 + (if canAllocate then CancelInvocations(QueuesOf(qm, order)) else [])
      requires inv2 == inv1 + (if canAllocate then CancelInvocations(qm[name]) else [])
      requires ops1 == ops0 + UnrefOps(QueuesOf(qm, order))
      requires ops2 == ops1 + UnrefOps(qm[name])
      ensures inv2 == inv0 + (if canAllocate then CancelInvocations(QueuesOf(qm, order + [name])) else [])
      ensures ops2 == ops0 + UnrefOps(QueuesOf(qm, order + [name]))
    {
      assert (order + [name])[..|order|] == order;
      assert QueuesOf(qm, order + [name]) == QueuesOf(qm, order) + qm[name];
      CancelExtend(canAllocate, inv0, inv1, inv2, QueuesOf(qm, order), qm[name]);
      OpsExtend(ops0, ops1, ops2, QueuesOf(qm, order), qm[name]);
    }

    /** What the clearing loop keeps: the registry is what start was without the names
        removed, whose records are freed; order lists the removed names, each once; the
        records left still hold the queues recorded in qm; and the logs of env grew from logs
        by the cancellation of the queues of order, one after the other. */
    ghost predicate Clearing(start: map<string, NetDev>, qm: map<string, seq<JoinEntry>>, removed: set<string>,
                             order: seq<string>, logs: (seq<Request>, seq<Invocation>, seq<LinkOp>))
      reads this, env, netdevs.Values, start.Values
    {
      && Valid()
      && removed <= start.Keys && netdevs == start - removed
      && (forall n | n in removed :: start[n].freed)
      && multiset(order) + multiset(netdevs.Keys) == multiset(start.Keys)
      && netdevs.Keys <= qm.Keys && (forall n | n in netdevs :: netdevs[n].callbacks == qm[n])
      && env.sent == logs.0
      && env.invoked == logs.1 + (if env.canAllocate then CancelInvocations(QueuesOf(qm, order)) else [])
      && env.linkOps == logs.2 + UnrefOps(QueuesOf(qm, order))
    }

    /** One pass of the clearing loop: evict some registered record. */
    method EvictNext(ghost start: map<string, NetDev>, ghost qm: map<string, seq<JoinEntry>>, ghost removed: set<string>,
                     ghost order: seq<string>, ghost logs: (seq<Request>, seq<Invocation>, seq<LinkOp>))
      returns (name: string)
      requires Clearing(start, qm, removed, order, logs) && netdevs != map[]
      modifies this, env, netdevs.Values
      ensures name in old(netdevs) && netdevs.Keys == old(netdevs.Keys) - {name}
      ensures Clearing(start, qm, removed + {name}, order + [name], logs)
    {
      name :| name in netdevs;
      ghost var inv1, ops1 := env.invoked, env.linkOps;
      assert forall n | n in netdevs && n != name :: netdevs[n] != netdevs[name] by {
        forall n | n in netdevs && n != name
          ensures netdevs[n] != netdevs[name]
        {
          assert netdevs[n].RegisteredAs(this, n) && netdevs[name].RegisteredAs(this, name);
        }
      }
      assert forall n | n in removed :: start[n] != netdevs[name] by {
        assert !netdevs[name].freed;
      }
      ghost var keys := netdevs.Keys;
      Evict(name);
      MapMinus(start, removed, name);
      MultisetMove(order, keys, name);
      ClearStep(qm, order, name, env.canAllocate, logs.1, inv1, env.invoked, logs.2, ops1, env.linkOps);
      assert Valid();
      assert removed + {name} <= start.Keys && netdevs == start - (removed + {name});
      assert forall n | n in removed + {name} :: start[n].freed;
      assert multiset(order + [name]) + multiset(netdevs.Keys) == multiset(start.Keys);
      assert netdevs.Keys <= qm.Keys;
      assert forall n | n in netdevs :: netdevs[n].callbacks == qm[n];
      assert env.sent == logs.0;
    }

    /** The clearing loop of netdev_load: release records until the registry is empty. The
        records go in an order the hashmap decides, each name once; every record's join
        queue is cancelled as it is freed. */
    method Clear() returns (ghost order: seq<string>)
      requires Valid()
      modifies this, env, netdevs.Values
      ensures Valid() && netdevs == map[]
      ensures forall nd | nd in old(netdevs.Values) :: nd.freed
      ensures multiset(order) == multiset(old(netdevs).Keys)
      ensures CallbacksCancelled(env, QueuesOf(old(QueueMap()), order))
    {
      ghost var start, qm := netdevs, QueueMap();
      ghost var logs := (env.sent, env.invoked, env.linkOps);
      ghost var removed: set<string> := {};
      order := [];
      while netdevs != map[]
        invariant Clearing(start, qm, removed, order, logs)
        decreases netdevs.Keys
      {
        var name := EvictNext(start, qm, removed, order, logs);
        order := order + [name];
        removed := removed + {name};
      }
      forall nd | nd in old(netdevs.Values)
        ensures nd.freed
      {
        var n :| n in start && start[n] == nd;
        assert n !in start - removed;
      }
    }

    /** The loading loop of netdev_load: the files from the last to the first, stopping at
        the first error. Records that stay registered are the ones there before or fresh
        ones. */
    method LoadFiles(files: seq<NetDevFile>) returns (r: int)
      requires Valid()
      modifies this, env
      ensures Valid()
      ensures (r, netdevs.Keys) == LoadBackwards(files, old(netdevs.Keys))
      ensures forall n | n in netdevs :: fresh(netdevs[n]) || (n in old(netdevs) && netdevs[n] == old(netdevs[n]))
      ensures env.invoked == old(env.invoked) && env.linkOps == old(env.linkOps)
      ensures env.sent == old(env.sent) + LoadBackwardsSent(files, old(netdevs.Keys))
    {
      var i := |files|;
      assert files[..i] == files;
      ghost var outcome := LoadBackwards(files, netdevs.Keys);
      ghost var all := LoadBackwardsSent(files, netdevs.Keys);
      ghost var acc: seq<Request> := [];
      while i > 0
        invariant 0 <= i <= |files|
        invariant Valid()
        invariant outcome == LoadBackwards(files[..i], netdevs.Keys)
        invariant forall n | n in netdevs :: fresh(netdevs[n]) || (n in old(netdevs) && netdevs[n] == old(netdevs[n]))
        invariant env.invoked == old(env.invoked) && env.linkOps == old(env.linkOps)
        invariant env.sent == old(env.sent) + acc
        invariant all == acc + LoadBackwardsSent(files[..i], netdevs.Keys)
        decreases i
      {
        ghost var names := netdevs.Keys;
        ghost var done := files[..i];
        i := i - 1;
        assert done == files[..i + 1];
        r := LoadOne(files[i]);
        LoadBackwardsStep(files, i, names, r, netdevs.Keys, outcome, acc, all);
        AppendAssoc(old(env.sent), acc, LoadOneSent(files[i], names));
        acc := acc + LoadOneSent(files[i], names);
        if r < 0 {
          return;
        }
      }
      r := 0;
    }

    /** One step of the backwards loop: file i has loaded with result r, leaving the names
        in after; what remains of the outcome and of the requests comes from the files before
        it, unless r stops the loop. */
    lemma LoadBackwardsStep(files: seq<NetDevFile>, i: nat, names: set<string>, r: int, after: set<string>,
                            outcome: (int, set<string>), acc: seq<Request>, all: seq<Request>)
      requires i < |files| && (r, after) == LoadOneSpec(files[i], names)
      requires outcome == LoadBackwards(files[..i + 1], names)
      requires all == acc + LoadBackwardsSent(files[..i + 1], names)
      ensures r < 0 ==> outcome == (r, after) && all == acc + LoadOneSent(files[i], names)
      ensures r >= 0 ==> && outcome == LoadBackwards(files[..i], after)
                         && all == acc + LoadOneSent(files[i], names) + LoadBackwardsSent(files[..i], after)
    {
      assert files[..i + 1][..i] == files[..i];
      assert files[..i + 1][i] == files[i];
      if r >= 0 {
        AppendAssoc(acc, LoadOneSent(files[i], names), LoadBackwardsSent(files[..i], after));
      }
    }

    /** netdev_load: release every registered record, then load the listed files from the
        last to the first, stopping at the first error. */
    method Load(listing: Result<seq<NetDevFile>>) returns (r: int, ghost order: seq<string>)
      requires Valid()
      modifies this, env, netdevs.Values
      ensures Valid()
      ensures forall nd | nd in old(netdevs.Values) :: nd.freed
      ensures listing.Err? ==> r == listing.err && netdevs == map[]
      ensures listing.Ok? ==> (r, netdevs.Keys) == LoadBackwards(listing.value, {})
      ensures forall n | n in netdevs :: fresh(netdevs[n])
      ensures multiset(order) == multiset(old(netdevs).Keys)
      ensures var cancelled := QueuesOf(old(QueueMap()), order);
              && env.invoked == old(env.invoked) + (if env.canAllocate then CancelInvocations(cancelled) else [])
              && env.linkOps == old(env.linkOps) + UnrefOps(cancelled)
              && env.sent == old(env.sent) + (if listing.Ok? then LoadBackwardsSent(listing.value, {}) else [])
    {
      order := Clear();
      assert netdevs.Keys == {};
      if listing.Err? {
        r := listing.err;
        return;
      }
      ghost var sent1 := env.sent;
      assert sent1 == old(env.sent);
      r := LoadFiles(listing.value);
      assert env.sent == sent1 + LoadBackwardsSent(listing.value, {});
    }
  }
}
