/** Deterministic MAC address derivation (netdev_get_mac): hash the machine id followed by the
    interface name with SipHash-2-4 under a fixed key, take the low six bytes of the 64-bit
    result, then make the address unicast and locally administered (the I/G and U/L bits of an
    IEEE 802 48-bit address, IEEE Std 802-2014 clause 8). */
module NetDevMac {
  import opened Common

  /** The machine id is a 128-bit value. */
  type MachineId = s: seq<Byte> | |s| == 16 witness seq(16, i => 0 as Byte)

  /** HASH_KEY of netdev.c. */
  const HashKey: seq<Byte> := [0x52, 0xe1, 0x45, 0xbd, 0x00, 0x6f, 0x29, 0x96,
                               0x21, 0xc6, 0x30, 0x6d, 0x83, 0x71, 0x04, 0x48]

  /** Number of octets of an Ethernet address (ETH_ALEN). */
  const EthAlen: nat := 6

  /** The bytes of a C string: each character taken as one byte. */
  function NameBytes(name: string): (r: seq<Byte>)
    ensures |r| == |name|
  {
    seq(|name|, i requires 0 <= i < |name| => (name[i] as int % 256) as Byte)
  }

  /** The bytes hashed: the machine id, then the name without its terminating NUL. */
  function HashInput(machineId: MachineId, ifname: string): (r: seq<Byte>)
    ensures |r| == 16 + |ifname|
    ensures r[..16] == machineId && r[16..] == NameBytes(ifname)
  {
    machineId + NameBytes(ifname)
  }

  /** Byte i of a 64-bit value as memcpy copies it out of memory on a little-endian host. */
  function OctetOf(x: bv64, i: nat): Byte
    requires i < 8
  {
    ((x >> (8 * i)) & 0xff) as Byte
  }

  /** netdev_get_mac. `siphash(data, key)` stands for siphash24, `machineId` for what
      sd_id128_get_machine returned. */
  function GetMac(siphash: (seq<Byte>, seq<Byte>) -> bv64, machineId: Result<MachineId>,
                  ifname: string): (r: Result<seq<Byte>>)
    ensures r.Err? <==> machineId.Err?
    ensures machineId.Err? ==> r.err == machineId.err
    ensures r.Ok? ==> |r.value| == EthAlen
  {
    if machineId.Err? then Err(machineId.err)
    else
      var h := siphash(HashInput(machineId.value, ifname), HashKey);
      var octets := seq(EthAlen, i requires 0 <= i < EthAlen => OctetOf(h, i));
      Ok(octets[0 := (octets[0] & 0xfe) | 0x02])
  }

  /** A derived address is always unicast (I/G bit, bit 0 of the first octet, clear) and
      locally administered (U/L bit, bit 1 of the first octet, set). */
  lemma GetMacUnicastLocal(siphash: (seq<Byte>, seq<Byte>) -> bv64, machineId: Result<MachineId>,
                           ifname: string)
    requires machineId.Ok?
    ensures GetMac(siphash, machineId, ifname).Ok?
    ensures GetMac(siphash, machineId, ifname).value[0] & 0x01 == 0
    ensures GetMac(siphash, machineId, ifname).value[0] & 0x02 == 0x02
  {
    var h := siphash(HashInput(machineId.value, ifname), HashKey);
    var b := OctetOf(h, 0);
    assert GetMac(siphash, machineId, ifname).value[0] == (b & 0xfe) | 0x02;
  }

  /** Apart from those two bits the address is the hash of (machine id ++ name): octets 1..5
      are hash bytes 1..5 and the upper six bits of octet 0 are those of hash byte 0. */
  lemma GetMacIsHash(siphash: (seq<Byte>, seq<Byte>) -> bv64, machineId: MachineId, ifname: string)
    ensures var h := siphash(machineId + NameBytes(ifname), HashKey);
            var mac := GetMac(siphash, Ok(machineId), ifname).value;
            && (forall i | 1 <= i < EthAlen :: mac[i] == OctetOf(h, i))
            && mac[0] & 0xfc == OctetOf(h, 0) & 0xfc
  {
  }

  /** The address depends on the machine id and the name only through their concatenation,
      so two devices with one name on one machine get one address. */
  lemma GetMacStable(siphash: (seq<Byte>, seq<Byte>) -> bv64, id1: MachineId, n1: string,
                     id2: MachineId, n2: string)
    requires id1 == id2 && NameBytes(n1) == NameBytes(n2)
    ensures GetMac(siphash, Ok(id1), n1) == GetMac(siphash, Ok(id2), n2)
  {
  }
}
