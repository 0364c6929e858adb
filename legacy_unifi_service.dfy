/** The helpers of the first UniFi service (unifi.ipmanager/Services/UnifiService.cs)
    that differ from the current one: the MAC regeneration loop written
    as a while loop, the fixed address chosen by the cooldown-free
    allocator, and the byte helpers SetBit and UnsetBit. Address
    generation and client normalisation are the same as in UnifiService. */
module LegacyUnifiService {
  import opened Wrappers
  import opened Text
  import opened IpGroups
  import opened UnifiService
  import LegacyIpService

  /** Generates an address, then generates again while some client has
      it. The rounds of draws are given; running out of them is None. */
  method NewMacAddress(clients: seq<Client>, rounds: seq<seq<Draw>>) returns (mac: Option<string>)
    requires forall k :: 0 <= k < |rounds| ==> |rounds[k]| == 3
    ensures mac == FirstUnusedMac(clients, rounds)
  {
    if |rounds| == 0 {
      return None;
    }
    var macAddress := GenerateMacAddress(rounds[0]);
    var k := 1;
    while MacInUse(clients, macAddress)
      invariant 1 <= k <= |rounds|
      invariant FirstUnusedMac(clients, rounds) ==
        if MacInUse(clients, macAddress) then FirstUnusedMac(clients, rounds[k..]) else Some(macAddress)
      decreases |rounds| - k
    {
      if k == |rounds| {
        return None;
      }
      macAddress := GenerateMacAddress(rounds[k]);
      assert rounds[k..][1..] == rounds[k + 1..];
      k := k + 1;
    }
    return Some(macAddress);
  }

  /** fixed_ip of a provisioned client: the group's first address no
      client has, when a static address is asked for and one is free. */
  method AssignFixedIp(groups: seq<IpGroup>, group: Option<string>, staticIp: bool, clients: seq<Client>)
    returns (fixedIp: Option<string>)
    ensures var a := Allocate(groups, group, UsedIps(clients), {});
      fixedIp == if staticIp && a != "" then Some(a) else None
  {
    fixedIp := None;
    if staticIp {
      var assignedIp, _ := LegacyIpService.GetUnusedGroupIpAddress(groups, group, UsedIps(clients));
      AllocationBlankIffEmpty(groups, group, UsedIps(clients), {});
      if !IsNullOrWhiteSpace(Some(assignedIp)) {
        fixedIp := Some(assignedIp);
      }
    }
  }

  // ---------------------------------------------------------------------
  // Bits of a byte

  /** Bit k of b. */
  predicate Bit(b: bv8, k: nat)
    requires k < 8
  {
    (b >> k) & 1 == 1
  }

  /** SetBit: b with bit n set for 0 <= n <= 7, the other seven kept; 0
      (after logging an error) for any other n. */
  function SetBit(b: bv8, bitNumber: int): (r: bv8)
    ensures 0 <= bitNumber < 8 ==> Bit(r, bitNumber)
    ensures 0 <= bitNumber < 8 ==> forall k :: 0 <= k < 8 && k != bitNumber ==> Bit(r, k) == Bit(b, k)
    ensures !(0 <= bitNumber < 8) ==> r == 0
  {
    if bitNumber < 8 && bitNumber > -1 then b | (1 << bitNumber) else 0
  }

  /** UnsetBit as written: ORs with 0 << n, so for 0 <= n <= 7 the byte
      comes back unchanged and a bit it should clear stays set; 0 for any
      other n. */
  function UnsetBitAsWritten(b: bv8, bitNumber: int): (r: bv8)
    ensures 0 <= bitNumber < 8 ==> r == b
    ensures !(0 <= bitNumber < 8) ==> r == 0
  {
    if bitNumber < 8 && bitNumber > -1 then b | (0 << bitNumber) else 0
  }

  /** UnsetBit as its name and its caller intend: b with bit n cleared. */
  function UnsetBit(b: bv8, bitNumber: int): bv8 {
    if bitNumber < 8 && bitNumber > -1 then b & !(1 << bitNumber) else 0
  }

  /** The corrected UnsetBit clears bit n and leaves the other seven alone. */
  lemma UnsetBitSpec(b: bv8, n: nat)
    requires n < 8
    ensures !Bit(UnsetBit(b, n), n)
    ensures forall k :: 0 <= k < 8 && k != n ==> Bit(UnsetBit(b, n), k) == Bit(b, k)
  {
  }

  /** Setting and clearing the same bit undo each other up to that bit. */
  lemma SetUnsetInverse(b: bv8, n: nat)
    requires n < 8
    ensures UnsetBit(SetBit(b, n), n) == UnsetBit(b, n)
    ensures SetBit(UnsetBit(b, n), n) == SetBit(b, n)
    ensures !Bit(b, n) ==> UnsetBit(SetBit(b, n), n) == b
  {
  }

  /** Out of range, both give 0. */
  lemma BitNumberOutOfRange(b: bv8, n: int)
    requires n < 0 || n > 7
    ensures SetBit(b, n) == 0 && UnsetBit(b, n) == 0 && UnsetBitAsWritten(b, n) == 0
  {
  }

  /** As written, UnsetBit returns its argument for every bit number in
      range: UnsetBit(0x80, 7) is 0x80, bit 7 still set, where clearing
      it (the multicast bit the commented-out caller means to clear)
      gives 0. */
  lemma UnsetBitAsWrittenKeepsBit(b: bv8, n: nat)
    requires n < 8
    ensures UnsetBitAsWritten(b, n) == b
    ensures UnsetBitAsWritten(0x80, 7) == 0x80 && Bit(UnsetBitAsWritten(0x80, 7), 7)
    ensures UnsetBit(0x80, 7) == 0
  {
  }
}
