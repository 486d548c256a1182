/** Values the NetDev engine works with, and the pure functions that say what its operations
    compute: the reply-independent part of netdev.c, stated on values. The imperative engine in
    module NetDev is proved against these. */
module NetDevSpec {
  import opened Common
  import opened NetDevKind
  import opened NetDevMac

  datatype State = Invalid | Loading | Creating | Ready | Failed | Linger

  /** How a kind comes into existence (NETDEV_CREATE_*). */
  datatype CreateType = Independent | Master | Stacked

  /** The per-kind vtable as a capability record: which hooks the kind provides. What a hook
      returns is decided outside the engine (see Env.hook). */
  datatype VTable = VTable(createType: CreateType, hasCreate: bool, hasFillMessageCreate: bool,
                           hasPostCreate: bool, hasConfigVerify: bool, hasInit: bool,
                           hasDone: bool)

  /** The hooks whose return value the engine looks at. */
  datatype Hook = CreateHook | FillMessageCreateHook | ConfigVerifyHook

  /** A completion handler handed in by a link that wants to join a netdev. */
  type Callback = nat

  /** Netlink attributes of the requests the engine builds. KindData stands for whatever the
      kind's fill_message_create appends inside IFLA_INFO_DATA. */
  datatype Attr =
    | IfName(name: string)
    | Address(mac: seq<Byte>)
    | Mtu(mtu: nat)
    | LinkIndex(ifindex: int)
    | LinkInfo(kind: string, data: seq<Attr>)
    | KindData(of: Kind)

  /** Who handles the reply to a request: netdev_create_handler for the named netdev, or the
      joining link's callback. */
  datatype Reply = ToCreateHandler(ifname: string) | ToCaller(callback: Callback, linkIfindex: int)

  /** Requests handed to the transport. LinkDown is what link_down sends. */
  datatype Request =
    | LinkDown(ifindex: int)
    | SetMaster(ifindex: int, master: int, callback: Callback)
    | NewLink(attrs: seq<Attr>, reply: Reply)

  /** The kinds netdev_enslave accepts. */
  predicate IsMasterKind(k: Kind) {
    k == Bridge || k == Bond || k == Vrf
  }

  /** The tunnel kinds whose configuration carries an Independent= flag. */
  predicate IsTunnelKind(k: Kind) {
    k in {Ipip, Gre, Gretap, Ip6gre, Ip6gretap, Sit, Vti, Vti6, Ip6tnl}
  }

  // ---------------------------------------------------------------------------------------
  // netdev_set_ifindex

  /** The parts of an RTM_NEWLINK message netdev_set_ifindex reads. Each getter of the C code
      returns a status (negative on failure) and a value, kept here side by side. */
  datatype LinkMessage = LinkMessage(
    typeRc: int, msgType: nat,
    ifindexRc: int, ifindex: int,
    nameRc: int, name: string,
    enterRc: int, kindRc: int, kindName: string, exitRc: int)

  /** What netdev_set_ifindex decides: return an error and change nothing (Reject), enter
      FAILED and return a code (FailWith), return 0 and change nothing (Keep), or record the
      index and enter READY (Adopt). */
  datatype IfindexVerdict = Reject(r: int) | FailWith(r: int) | Keep | Adopt(ifindex: int)

  /** The kind string the kernel reports for a netdev: TAP is reported as "tun". */
  function ExpectedKind(kind: Option<Kind>): (r: Option<string>)
    ensures kind == Some(Tap) ==> r == Some("tun")
    ensures kind.Some? && kind != Some(Tap) ==> r == Some(KindToString(kind.value))
    ensures kind.None? ==> r.None?
  {
    if kind == Some(Tap) then Some("tun") else KindName(kind)
  }

  function IfindexVerdictOf(m: LinkMessage, current: int, ifname: string, kind: Option<Kind>): IfindexVerdict
  {
    if m.typeRc < 0 then Reject(m.typeRc)
    else if m.msgType != RTM_NEWLINK then Reject(-EINVAL)
    else if m.ifindexRc < 0 then FailWith(m.ifindexRc)
    else if m.ifindex <= 0 then FailWith(-EINVAL)
    else if current > 0 then (if current != m.ifindex then FailWith(-EEXIST) else Keep)
    else if m.nameRc < 0 then Reject(m.nameRc)
    else if m.name != ifname then FailWith(m.nameRc)
    else if m.enterRc < 0 then Reject(m.enterRc)
    else if m.kindRc < 0 then Reject(m.kindRc)
    else if m.exitRc < 0 then Reject(m.exitRc)
    else if ExpectedKind(kind).None? then FailWith(-EINVAL)
    else if ExpectedKind(kind).value != m.kindName then FailWith(m.exitRc)
    else Adopt(m.ifindex)
  }

  /** All reads of the message succeeded. */
  predicate ReadsSucceed(m: LinkMessage) {
    m.typeRc >= 0 && m.ifindexRc >= 0 && m.nameRc >= 0 && m.enterRc >= 0 && m.kindRc >= 0 && m.exitRc >= 0
  }

  /** The index is adopted exactly when the message is an RTM_NEWLINK with a positive index, no
      index was set before, and both the name and the (TAP-as-"tun") kind match. */
  lemma AdoptIff(m: LinkMessage, current: int, ifname: string, kind: Option<Kind>)
    ensures IfindexVerdictOf(m, current, ifname, kind).Adopt? <==>
              && ReadsSucceed(m) && m.msgType == RTM_NEWLINK
              && m.ifindex > 0 && current <= 0
              && m.name == ifname && ExpectedKind(kind) == Some(m.kindName)
    ensures IfindexVerdictOf(m, current, ifname, kind).Adopt? ==>
              IfindexVerdictOf(m, current, ifname, kind).ifindex == m.ifindex
  {
  }

  /** A message that is not RTM_NEWLINK is rejected with -EINVAL before anything else happens. */
  lemma WrongTypeRejected(m: LinkMessage, current: int, ifname: string, kind: Option<Kind>)
    requires m.typeRc >= 0 && m.msgType != RTM_NEWLINK
    ensures IfindexVerdictOf(m, current, ifname, kind) == Reject(-EINVAL)
  {
  }

  /** A second, different index fails with -EEXIST; the same index again changes nothing. */
  lemma SecondIndex(m: LinkMessage, current: int, ifname: string, kind: Option<Kind>)
    requires m.typeRc >= 0 && m.msgType == RTM_NEWLINK && m.ifindexRc >= 0 && m.ifindex > 0
    requires current > 0
    ensures current != m.ifindex ==> IfindexVerdictOf(m, current, ifname, kind) == FailWith(-EEXIST)
    ensures current == m.ifindex ==> IfindexVerdictOf(m, current, ifname, kind) == Keep
  {
  }

  /** A name or kind mismatch enters FAILED but returns the last read status, which is not
      negative; every other FAILED verdict returns a negative code. */
  lemma MismatchReturnsNonNegative(m: LinkMessage, current: int, ifname: string, kind: Option<Kind>)
    requires IfindexVerdictOf(m, current, ifname, kind).FailWith?
    ensures IfindexVerdictOf(m, current, ifname, kind).r >= 0 <==>
              && m.ifindexRc >= 0 && m.ifindex > 0 && current <= 0
              && (m.name != ifname || (ExpectedKind(kind).Some? && ExpectedKind(kind) != Some(m.kindName)))
  {
  }

  // ---------------------------------------------------------------------------------------
  // netdev_create

  /** The attributes of the generic RTM_NEWLINK creation request, in the order they are
      appended. */
  function CreateAttrs(ifname: string, mac: Option<seq<Byte>>, mtu: nat, linkIndex: Option<int>,
                       kind: Kind, fill: bool): seq<Attr>
  {
    [IfName(ifname)]
    + (if mac.Some? then [Address(mac.value)] else [])
    + (if mtu != 0 then [Mtu(mtu)] else [])
    + (if linkIndex.Some? then [LinkIndex(linkIndex.value)] else [])
    + [LinkInfo(KindToString(kind), if fill then [KindData(kind)] else [])]
  }

  /** The creation request carries IFNAME first and LINKINFO{kind} last; ADDRESS exactly when
      a MAC is set, MTU exactly when it is non-zero, LINK exactly when a backing link is
      given. */
  lemma CreateAttrsShape(ifname: string, mac: Option<seq<Byte>>, mtu: nat, linkIndex: Option<int>,
                         kind: Kind, fill: bool)
    ensures var a := CreateAttrs(ifname, mac, mtu, linkIndex, kind, fill);
            && a[0] == IfName(ifname)
            && a[|a| - 1].LinkInfo? && a[|a| - 1].kind == KindToString(kind)
            && (fill <==> a[|a| - 1].data == [KindData(kind)])
            && ((exists i | 0 <= i < |a| :: a[i].Address?) <==> mac.Some?)
            && ((exists i | 0 <= i < |a| :: a[i].Mtu?) <==> mtu != 0)
            && ((exists i | 0 <= i < |a| :: a[i].LinkIndex?) <==> linkIndex.Some?)
            && |a| == 2 + (if mac.Some? then 1 else 0) + (if mtu != 0 then 1 else 0)
                        + (if linkIndex.Some? then 1 else 0)
  {
    var a := CreateAttrs(ifname, mac, mtu, linkIndex, kind, fill);
    var p1 := if mac.Some? then [Address(mac.value)] else [];
    var p2 := if mtu != 0 then [Mtu(mtu)] else [];
    var p3 := if linkIndex.Some? then [LinkIndex(linkIndex.value)] else [];
    assert a == [IfName(ifname)] + p1 + p2 + p3
                + [LinkInfo(KindToString(kind), if fill then [KindData(kind)] else [])];
    if mac.Some? { assert a[1].Address?; }
    if mtu != 0 { assert a[1 + |p1|].Mtu?; }
    if linkIndex.Some? { assert a[1 + |p1| + |p2|].LinkIndex?; }
  }

  function CreateReply(ifname: string, linkIndex: Option<int>, callback: Callback): Reply {
    if linkIndex.Some? then ToCaller(callback, linkIndex.value) else ToCreateHandler(ifname)
  }

  function CreateRequest(vt: VTable, kind: Kind, ifname: string, mac: Option<seq<Byte>>, mtu: nat,
                         linkIndex: Option<int>, callback: Callback): Request
  {
    NewLink(CreateAttrs(ifname, mac, mtu, linkIndex, kind, vt.hasFillMessageCreate),
            CreateReply(ifname, linkIndex, callback))
  }

  // ---------------------------------------------------------------------------------------
  // Loading

  /** What the configuration source reports about one .netdev file: the outcome of each
      step netdev_load_one takes (fopen, the emptiness check, both parses, the match
      conditions, fseek) and the settings it reads. The first pass reads the file with its
      drop-ins and gives kind and ifname; the second reads the main file alone, and
      fullIfname is the Name= it has set when it finishes or stops. */
  datatype NetDevFile = NetDevFile(
    openRc: int,
    empty: bool,
    parseRc: int,
    matches: bool,
    kind: Option<Kind>,
    ifname: Option<string>,
    seekRc: int,
    fullParseRc: int,
    fullIfname: Option<string>,
    mac: Option<seq<Byte>>,
    mtu: nat,
    independent: bool)

  /** The file survives pass 1: it can be opened, is not empty, parses, applies to this host,
      and names a kind and an interface. */
  predicate PassesFirstPass(f: NetDevFile) {
    f.openRc >= 0 && !f.empty && f.parseRc >= 0 && f.matches && f.kind.Some? && f.ifname.Some?
    && f.seekRc >= 0
  }

  /** The registry key a name gives: none for a record without a name. */
  function NameSet(name: Option<string>): set<string> {
    if name.Some? then {name.value} else {}
  }
}
