/** The kind <-> name string table of netdev.c (netdev_kind_table and the lookup functions
    that DEFINE_STRING_TABLE_LOOKUP generates from it). */
module NetDevKind {
  import opened Common

  datatype Kind =
    | Bridge | Bond | Vlan | Macvlan | Macvtap | Ipvlan | Vxlan | Ipip | Gre | Gretap
    | Ip6gre | Ip6gretap | Sit | Veth | Vti | Vti6 | Dummy | Tun | Tap | Ip6tnl
    | Vrf | Vcan | Geneve | Vxcan | Wireguard

  /** Every kind, in the order the string table lists them. */
  const AllKinds: seq<Kind> := [
    Bridge, Bond, Vlan, Macvlan, Macvtap, Ipvlan, Vxlan, Ipip, Gre, Gretap,
    Ip6gre, Ip6gretap, Sit, Veth, Vti, Vti6, Dummy, Tun, Tap, Ip6tnl,
    Vrf, Vcan, Geneve, Vxcan, Wireguard]

  /** netdev_kind_to_string: the name of a kind. */
  function KindToString(k: Kind): string {
    match k
    case Bridge => "bridge"
    case Bond => "bond"
    case Vlan => "vlan"
    case Macvlan => "macvlan"
    case Macvtap => "macvtap"
    case Ipvlan => "ipvlan"
    case Vxlan => "vxlan"
    case Ipip => "ipip"
    case Gre => "gre"
    case Gretap => "gretap"
    case Ip6gre => "ip6gre"
    case Ip6gretap => "ip6gretap"
    case Sit => "sit"
    case Veth => "veth"
    case Vti => "vti"
    case Vti6 => "vti6"
    case Dummy => "dummy"
    case Tun => "tun"
    case Tap => "tap"
    case Ip6tnl => "ip6tnl"
    case Vrf => "vrf"
    case Vcan => "vcan"
    case Geneve => "geneve"
    case Vxcan => "vxcan"
    case Wireguard => "wireguard"
  }

  /** netdev_kind_to_string on a possibly invalid kind: NULL (None) for _NETDEV_KIND_INVALID. */
  function KindName(k: Option<Kind>): (r: Option<string>)
    ensures r.Some? <==> k.Some?
  {
    if k.Some? then Some(KindToString(k.value)) else None
  }

  /** netdev_kind_from_string: scan the table from its start for an equal name. */
  function KindFromString(s: string): (r: Option<Kind>)
    ensures r.Some? ==> KindToString(r.value) == s
  {
    ScanFrom(AllKinds, s)
  }

  function ScanFrom(table: seq<Kind>, s: string): (r: Option<Kind>)
    ensures r.Some? ==> r.value in table && KindToString(r.value) == s
  {
    if table == [] then None
    else if KindToString(table[0]) == s then Some(table[0])
    else ScanFrom(table[1..], s)
  }

  /** The position of a kind in the table. */
  function KindIndex(k: Kind): (i: nat)
    ensures i < |AllKinds| && AllKinds[i] == k
  {
    match k
    case Bridge => 0
    case Bond => 1
    case Vlan => 2
    case Macvlan => 3
    case Macvtap => 4
    case Ipvlan => 5
    case Vxlan => 6
    case Ipip => 7
    case Gre => 8
    case Gretap => 9
    case Ip6gre => 10
    case Ip6gretap => 11
    case Sit => 12
    case Veth => 13
    case Vti => 14
    case Vti6 => 15
    case Dummy => 16
    case Tun => 17
    case Tap => 18
    case Ip6tnl => 19
    case Vrf => 20
    case Vcan => 21
    case Geneve => 22
    case Vxcan => 23
    case Wireguard => 24
  }

  /** The table lists every kind. */
  lemma AllKindsComplete(k: Kind)
    ensures k in AllKinds
  {
    var _ := KindIndex(k);
  }

  /** The table holds 25 names, pairwise distinct. */
  lemma KindNamesDistinct()
    ensures |AllKinds| == 25
    ensures forall i, j | 0 <= i < j < |AllKinds| :: KindToString(AllKinds[i]) != KindToString(AllKinds[j])
  {
  }

  /** Distinct names make the name a key: equal names mean equal kinds. */
  lemma KindToStringInjective(a: Kind, b: Kind)
    ensures KindToString(a) == KindToString(b) ==> a == b
  {
    if a != b {
      KindNamesDistinct();
      var i := KindIndex(a);
      var j := KindIndex(b);
      if i < j {
        assert KindToString(AllKinds[i]) != KindToString(AllKinds[j]);
      } else {
        assert KindToString(AllKinds[j]) != KindToString(AllKinds[i]);
      }
    }
  }

  lemma {:induction false} ScanFindsMember(table: seq<Kind>, k: Kind)
    requires k in table
    ensures ScanFrom(table, KindToString(k)) == Some(k)
  {
    if KindToString(table[0]) == KindToString(k) {
      KindToStringInjective(table[0], k);
    } else {
      ScanFindsMember(table[1..], k);
    }
  }

  /** Looking up the name of a kind gives the kind back. */
  lemma KindRoundTrip(k: Kind)
    ensures KindFromString(KindToString(k)) == Some(k)
  {
    AllKindsComplete(k);
    ScanFindsMember(AllKinds, k);
  }

  lemma {:induction false} ScanMissesNonName(table: seq<Kind>, s: string)
    requires forall k: Kind :: KindToString(k) != s
    ensures ScanFrom(table, s) == None
  {
    if table != [] {
      ScanMissesNonName(table[1..], s);
    }
  }

  /** A string that is no kind's name is not found. */
  lemma KindFromStringUnknown(s: string)
    requires forall k: Kind :: KindToString(k) != s
    ensures KindFromString(s) == None
  {
    ScanMissesNonName(AllKinds, s);
  }
}
