/** The client-side helpers of Unifi.IpManager/Services/UnifiService.cs:
    the generated MAC address and the loop that keeps it unique, the
    normalisation of the fixed-IP client list, the fixed address chosen
    for a provisioned client, and the cooldown started when a client is
    deleted. The UniFi controller's HTTP API is not part of this model:
    what it returns is passed in. */
module UnifiService {
  import opened Wrappers
  import opened Text
  import opened IpGroups
  import opened IpService
  import opened Selections

  // ---------------------------------------------------------------------
  // Clients

  /** The properties of a UniClient this service reads or writes. */
  datatype Client = Client(
    id: Option<string>,
    mac: Option<string>,
    hostname: Option<string>,
    useFixedIp: bool,
    fixedIp: Option<string>,
    noted: bool,
    name: Option<string>,
    ipGroup: Option<string>)

  class UniClient {
    var id: Option<string>
    var mac: Option<string>
    var hostname: Option<string>
    var useFixedIp: bool
    var fixedIp: Option<string>
    var noted: bool
    var name: Option<string>
    var ipGroup: Option<string>

    function Value(): Client
      reads this
    {
      Client(id, mac, hostname, useFixedIp, fixedIp, noted, name, ipGroup)
    }

    constructor(c: Client)
      ensures Value() == c
    {
      id, mac, hostname, useFixedIp := c.id, c.mac, c.hostname, c.useFixedIp;
      fixedIp, noted, name, ipGroup := c.fixedIp, c.noted, c.name, c.ipGroup;
    }
  }

  /** A client as the ForEach in GetAllFixedIpClients leaves it: a blank
      name is replaced by the host name, and a fixed-IP client is given
      the group its address falls in. A fixed-IP client always ends up
      with a group; a name is never blanked; the client's identity, MAC
      address and fixed address are untouched. */
  function Normalised(c: Client, groups: seq<IpGroup>): (r: Client)
    ensures r.useFixedIp ==> r.ipGroup.Some?
    ensures IsNullOrWhiteSpace(r.name) ==> IsNullOrWhiteSpace(c.name)
    ensures r.id == c.id && r.mac == c.mac && r.hostname == c.hostname
    ensures r.useFixedIp == c.useFixedIp && r.fixedIp == c.fixedIp && r.noted == c.noted
  {
    c.(name := if IsNullOrWhiteSpace(c.name) then c.hostname else c.name,
       ipGroup := if c.useFixedIp then Some(GroupForAddress(groups, c.fixedIp)) else c.ipGroup)
  }

  /** Normalising twice is normalising once, so a client listed twice ends
      up as if listed once. */
  lemma NormaliseIdempotent(c: Client, groups: seq<IpGroup>)
    ensures Normalised(Normalised(c, groups), groups) == Normalised(c, groups)
  {
  }

  /** The name stays blank only when the host name is blank too; a
      non-blank name is kept; nothing but the name and the group changes. */
  lemma NormalisedName(c: Client, groups: seq<IpGroup>)
    ensures IsNullOrWhiteSpace(Normalised(c, groups).name) <==> IsNullOrWhiteSpace(c.name) && IsNullOrWhiteSpace(c.hostname)
    ensures !IsNullOrWhiteSpace(c.name) ==> Normalised(c, groups).name == c.name
    ensures Normalised(c, groups).(name := c.name, ipGroup := c.ipGroup) == c
  {
  }

  /** The clients of `cs` with UseFixedIp set, in order. */
  function FixedOnly(cs: seq<UniClient>): seq<UniClient>
    reads set c | c in cs
  {
    if |cs| == 0 then []
    else
      var last := cs[|cs| - 1];
      FixedOnly(cs[..|cs| - 1]) + (if last.useFixedIp then [last] else [])
  }

  /** Whether each client of `cs` has UseFixedIp set. */
  function FixedFlags(cs: seq<UniClient>): (flags: seq<bool>)
    reads set c | c in cs
    ensures |flags| == |cs| && forall k :: 0 <= k < |cs| ==> flags[k] == cs[k].useFixedIp
  {
    if |cs| == 0 then []
    else FixedFlags(cs[..|cs| - 1]) + [cs[|cs| - 1].useFixedIp]
  }

  /** Where(uc => uc.UseFixedIp) keeps exactly the fixed-IP clients, in
      their order in `cs`, each as often as it occurs. */
  lemma FixedOnlySpec(cs: seq<UniClient>)
    ensures forall i :: 0 <= i < |FixedOnly(cs)| ==> FixedOnly(cs)[i] in cs && FixedOnly(cs)[i].useFixedIp
    ensures forall j :: 0 <= j < |cs| && cs[j].useFixedIp ==> cs[j] in FixedOnly(cs)
    ensures |FixedOnly(cs)| <= |cs|
    ensures KeptInOrder(FixedOnly(cs), cs, FixedFlags(cs))
  {
    var idx := FixedOnlyPositions(cs);
    var kept, flags := FixedOnly(cs), FixedFlags(cs);
    forall j | 0 <= j < |cs| && cs[j].useFixedIp
      ensures cs[j] in kept
    {
      assert flags[j];
      var i :| 0 <= i < |idx| && idx[i] == j;
      assert kept[i] == cs[j];
    }
  }

  /** The positions Where keeps. */
  lemma {:induction false} FixedOnlyPositions(cs: seq<UniClient>) returns (idx: seq<nat>)
    ensures Selects(FixedOnly(cs), cs, FixedFlags(cs), idx)
    ensures |FixedOnly(cs)| <= |cs|
    decreases |cs|
  {
    if |cs| == 0 {
      return [];
    }
    var init, last := cs[..|cs| - 1], cs[|cs| - 1];
    var tail := FixedOnlyPositions(init);
    assert cs == init + [last];
    if last.useFixedIp {
      SelectsSnocKeep(init, FixedFlags(init), FixedOnly(init), tail, last);
      idx := tail + [|init|];
    } else {
      SelectsSnocDrop(init, FixedFlags(init), FixedOnly(init), tail, last);
      idx := tail;
    }
  }

  /** Normalises every fetched client in place and returns the fixed-IP
      ones; a failed fetch gives the empty list and touches nothing. */
  method GetAllFixedIpClients(success: bool, data: seq<UniClient>, groups: seq<IpGroup>)
    returns (fixedClients: seq<UniClient>)
    modifies set c | c in data
    ensures !success ==> fixedClients == [] && forall c :: c in data ==> c.Value() == old(c.Value())
    ensures success ==> forall c :: c in data ==> c.Value() == Normalised(old(c.Value()), groups)
    ensures success ==> fixedClients == FixedOnly(data)
    ensures forall i :: 0 <= i < |fixedClients| ==>
      fixedClients[i] in data && fixedClients[i].useFixedIp &&
      fixedClients[i].ipGroup == Some(GroupForAddress(groups, fixedClients[i].fixedIp))
  {
    if !success {
      return [];
    }
    for i := 0 to |data|
      invariant forall c :: c in data[..i] ==> c.Value() == Normalised(old(c.Value()), groups)
      invariant forall c :: c in data && c !in data[..i] ==> c.Value() == old(c.Value())
    {
      var client := data[i];
      ghost var before := client.Value();
      NormaliseIdempotent(old(client.Value()), groups);
      if IsNullOrWhiteSpace(client.name) {
        client.name := client.hostname;
      }
      if client.useFixedIp {
        client.ipGroup := Some(GroupForAddress(groups, client.fixedIp));
      }
      assert client.Value() == Normalised(before, groups);
      assert data[..i + 1] == data[..i] + [client];
    }
    assert data[..|data|] == data;
    fixedClients := FixedOnly(data);
    FixedOnlySpec(data);
    forall i | 0 <= i < |fixedClients|
      ensures fixedClients[i].ipGroup == Some(GroupForAddress(groups, fixedClients[i].fixedIp))
    {
      assert fixedClients[i] in data[..|data|];
    }
  }

  // ---------------------------------------------------------------------
  // MAC addresses

  /** The fixed first half of every generated address. */
  const MacPrefix := "00:15:5D:"

  /** What r.Next(0, 255) can return. */
  type Draw = n: nat | n < 255

  predicate IsUpperHex(c: char) {
    '0' <= c <= '9' || 'A' <= c <= 'F'
  }

  function HexDigit(d: nat): (c: char)
    requires d < 16
    ensures IsUpperHex(c)
  {
    if d < 10 then ('0' as int + d) as char else ('A' as int + d - 10) as char
  }

  function HexValue(c: char): (d: nat)
    requires IsUpperHex(c)
    ensures d < 16
  {
    if c <= '9' then c as int - '0' as int else c as int - 'A' as int + 10
  }

  /** int.ToString("X2") for 0 <= n < 256. */
  function X2(n: nat): (s: string)
    requires n < 256
    ensures |s| == 2
  {
    [HexDigit(n / 16), HexDigit(n % 16)]
  }

  /** Reads two upper-case hex digits back. */
  function ParseX2(s: string): nat
    requires |s| == 2 && IsUpperHex(s[0]) && IsUpperHex(s[1])
  {
    HexValue(s[0]) * 16 + HexValue(s[1])
  }

  lemma X2RoundTrip(n: nat)
    requires n < 256
    ensures ParseX2(X2(n)) == n
  {
    assert HexValue(HexDigit(n / 16)) == n / 16;
    assert HexValue(HexDigit(n % 16)) == n % 16;
  }

  /** The address built from three draws. */
  function MacFrom(draws: seq<Draw>): string
    requires |draws| == 3
  {
    MacPrefix + X2(draws[0]) + ":" + X2(draws[1]) + ":" + X2(draws[2])
  }

  /** The k-th generated byte's two hex digits in a 17-character address. */
  function MacGroup(m: string, k: nat): string
    requires |m| == 17 && k < 3
  {
    m[9 + 3 * k..11 + 3 * k]
  }

  /** A generated address is 17 characters: the prefix, then the three
      draws as upper-case hex pairs separated by ':'. Each pair reads back
      as its draw, so no pair is "FF", and no letter is lower-case. */
  lemma MacShape(draws: seq<Draw>)
    requires |draws| == 3
    ensures var m := MacFrom(draws);
      |m| == 17 && m[..9] == MacPrefix && m[11] == ':' && m[14] == ':' &&
      (forall i :: 0 <= i < 17 ==> !('a' <= m[i] <= 'z')) &&
      (forall k :: 0 <= k < 3 ==>
         IsUpperHex(MacGroup(m, k)[0]) && IsUpperHex(MacGroup(m, k)[1]) &&
         ParseX2(MacGroup(m, k)) == draws[k] && MacGroup(m, k) != "FF")
  {
    var m := MacFrom(draws);
    forall k | 0 <= k < 3
      ensures IsUpperHex(MacGroup(m, k)[0]) && IsUpperHex(MacGroup(m, k)[1])
      ensures ParseX2(MacGroup(m, k)) == draws[k] && MacGroup(m, k) != "FF"
    {
      assert MacGroup(m, k) == X2(draws[k]);
      X2RoundTrip(draws[k]);
      assert ParseX2("FF") == 255;
    }
  }

  /** Different draws give different addresses. */
  lemma MacInjective(a: seq<Draw>, b: seq<Draw>)
    requires |a| == 3 && |b| == 3 && MacFrom(a) == MacFrom(b)
    ensures a == b
  {
    MacShape(a);
    MacShape(b);
    assert forall k :: 0 <= k < 3 ==> a[k] == ParseX2(MacGroup(MacFrom(a), k)) == b[k];
  }

  /** The uniqueness test compares ordinally, and a generated address has
      no lower-case letter: an existing MAC written in lower case never
      counts as a collision, even for the same hardware address. */
  lemma LowercaseMacNeverCollides(draws: seq<Draw>, m: string, i: nat)
    requires |draws| == 3 && i < |m| && 'a' <= m[i] <= 'z'
    ensures MacFrom(draws) != m
  {
    MacShape(draws);
  }

  /** The builder's contents after `i` turns of the loop. */
  function Built(draws: seq<Draw>, i: nat): string
    requires i <= |draws| <= 3
  {
    if i == 0 then MacPrefix
    else Built(draws, i - 1) + X2(draws[i - 1]) + (if i - 1 < 2 then ":" else "")
  }

  /** GenerateMacAddress with the three draws of r.Next(0, 255) given:
      appends each as two hex digits, a ':' after the first two, and
      upper-cases the result. */
  method GenerateMacAddress(draws: seq<Draw>) returns (mac: string)
    requires |draws| == 3
    ensures mac == MacFrom(draws)
  {
    var sBuilder := MacPrefix;
    for i := 0 to 3
      invariant sBuilder == Built(draws, i)
    {
      var number := draws[i];
      sBuilder := sBuilder + X2(number);
      if i < 2 {
        sBuilder := sBuilder + ":";
      }
    }
    assert Built(draws, 1) == MacPrefix + X2(draws[0]) + ":";
    assert Built(draws, 2) == MacPrefix + X2(draws[0]) + ":" + X2(draws[1]) + ":";
    assert sBuilder == MacFrom(draws);
    MacShape(draws);
    ToUpperNoLower(sBuilder);
    mac := ToUpperAscii(sBuilder);
  }

  /** clients.Exists(c => c.Mac == mac) */
  predicate MacInUse(clients: seq<Client>, mac: string) {
    exists i :: 0 <= i < |clients| && clients[i].mac == Some(mac)
  }

  /** The first address, over successive rounds of draws, that no client
      has; None when every round collides. */
  function FirstUnusedMac(clients: seq<Client>, rounds: seq<seq<Draw>>): Option<string>
    requires forall k :: 0 <= k < |rounds| ==> |rounds[k]| == 3
    decreases |rounds|
  {
    if |rounds| == 0 then None
    else if MacInUse(clients, MacFrom(rounds[0])) then FirstUnusedMac(clients, rounds[1..])
    else Some(MacFrom(rounds[0]))
  }

  /** The address found is fresh and comes from the first round whose
      address is fresh. */
  lemma {:induction false} FirstUnusedMacIsFirst(clients: seq<Client>, rounds: seq<seq<Draw>>) returns (k: nat)
    requires forall j :: 0 <= j < |rounds| ==> |rounds[j]| == 3
    requires FirstUnusedMac(clients, rounds).Some?
    ensures k < |rounds| && FirstUnusedMac(clients, rounds).value == MacFrom(rounds[k])
    ensures !MacInUse(clients, FirstUnusedMac(clients, rounds).value)
    ensures forall j :: 0 <= j < k ==> MacInUse(clients, MacFrom(rounds[j]))
    decreases |rounds|
  {
    if MacInUse(clients, MacFrom(rounds[0])) {
      var k' := FirstUnusedMacIsFirst(clients, rounds[1..]);
      k := k' + 1;
      forall j | 0 <= j < k
        ensures MacInUse(clients, MacFrom(rounds[j]))
      {
        if j > 0 {
          assert rounds[j] == rounds[1..][j - 1];
        }
      }
    } else {
      k := 0;
    }
  }

  /** No address is found exactly when every round collides. */
  lemma {:induction false} FirstUnusedMacNone(clients: seq<Client>, rounds: seq<seq<Draw>>)
    requires forall j :: 0 <= j < |rounds| ==> |rounds[j]| == 3
    ensures FirstUnusedMac(clients, rounds).None? <==>
      forall j :: 0 <= j < |rounds| ==> MacInUse(clients, MacFrom(rounds[j]))
    decreases |rounds|
  {
    if |rounds| > 0 {
      FirstUnusedMacNone(clients, rounds[1..]);
      if FirstUnusedMac(clients, rounds).None? {
        forall j | 0 <= j < |rounds|
          ensures MacInUse(clients, MacFrom(rounds[j]))
        {
          if j > 0 {
            assert rounds[j] == rounds[1..][j - 1];
          }
        }
      } else if MacInUse(clients, MacFrom(rounds[0])) {
        var j :| 0 <= j < |rounds[1..]| && !MacInUse(clients, MacFrom(rounds[1..][j]));
        assert rounds[1..][j] == rounds[j + 1];
      }
    }
  }

  /** The do-while of ProvisionNewClient: generates an address, and again
      while some client has it. The rounds of draws are given; running out
      of them is None. */
  method NewMacAddress(clients: seq<Client>, rounds: seq<seq<Draw>>) returns (mac: Option<string>)
    requires forall k :: 0 <= k < |rounds| ==> |rounds[k]| == 3
    ensures mac == FirstUnusedMac(clients, rounds)
  {
    var k := 0;
    while true
      invariant k <= |rounds|
      invariant FirstUnusedMac(clients, rounds) == FirstUnusedMac(clients, rounds[k..])
      decreases |rounds| - k
    {
      if k == |rounds| {
        return None;
      }
      var macAddress := GenerateMacAddress(rounds[k]);
      assert rounds[k..][1..] == rounds[k + 1..];
      k := k + 1;
      if !MacInUse(clients, macAddress) {
        return Some(macAddress);
      }
    }
  }

  // ---------------------------------------------------------------------
  // Provisioning and deleting

  /** clients.Select(c => c.FixedIp) */
  function UsedIps(clients: seq<Client>): (r: seq<Option<string>>)
    ensures |r| == |clients| && forall i :: 0 <= i < |clients| ==> r[i] == clients[i].fixedIp
  {
    seq(|clients|, i requires 0 <= i < |clients| => clients[i].fixedIp)
  }

  /** An allocation is blank exactly when it is "": an allocated address
      starts with the subnet prefix. */
  lemma AllocationBlankIffEmpty(groups: seq<IpGroup>, name: Option<string>, used: seq<Option<string>>, keys: set<string>)
    ensures IsNullOrWhiteSpace(Some(Allocate(groups, name, used, keys))) <==> Allocate(groups, name, used, keys) == ""
  {
    var a := Allocate(groups, name, used, keys);
    if a != "" {
      var k := AllocationIsFirstFit(groups, name, used, keys, FindGroup(groups, name).value);
      assert a[0] == '1';
    }
  }

  /** The FixedIp of a provisioned client: the group's first free address
      when a static address is asked for and one is free, none otherwise. */
  method AssignFixedIp(service: IpService, group: Option<string>, staticIp: bool, clients: seq<Client>, now: int)
    returns (fixedIp: Option<string>)
    ensures var a := Allocate(service.groups, group, UsedIps(clients), LiveKeys(service.cache, now));
      fixedIp == if staticIp && a != "" then Some(a) else None
  {
    fixedIp := None;
    if staticIp {
      var assignedIp, _ := service.GetUnusedGroupIpAddress(group, UsedIps(clients), now);
      AllocationBlankIffEmpty(service.groups, group, UsedIps(clients), LiveKeys(service.cache, now));
      if !IsNullOrWhiteSpace(Some(assignedIp)) {
        fixedIp := Some(assignedIp);
      }
    }
  }

  /** A provisioned address is no existing client's FixedIp and is not in
      cooldown. */
  lemma ProvisionedAddressIsFree(groups: seq<IpGroup>, group: Option<string>, clients: seq<Client>, keys: set<string>)
    requires Allocate(groups, group, UsedIps(clients), keys) != ""
    ensures forall i :: 0 <= i < |clients| ==> clients[i].fixedIp != Some(Allocate(groups, group, UsedIps(clients), keys))
    ensures Cooldown.CooldownKey(Some(Allocate(groups, group, UsedIps(clients), keys))) !in keys
  {
    AllocatedAddressIsFree(groups, group, UsedIps(clients), keys);
  }

  /** DeleteClient returns the address only for a client that was found,
      is noted and uses a fixed IP. */
  predicate ReleasesAddress(found: Option<Client>) {
    found.Some? && found.value.noted && found.value.useFixedIp
  }

  /** The cache side of DeleteClient: the release, or nothing; reports
      whether ReturnIpAddress threw. */
  method DeleteClient(service: IpService, found: Option<Client>, now: int) returns (threw: bool)
    modifies service
    ensures ReleasesAddress(found) ==>
      threw == ReleaseThrows(old(service.cache), found.value.fixedIp, now) &&
      service.cache == Released(old(service.cache), found.value.fixedIp, now, service.cooldownMinutes)
    ensures !ReleasesAddress(found) ==> !threw && service.cache == old(service.cache)
  {
    threw := false;
    if found.Some? && found.value.noted && found.value.useFixedIp {
      threw := service.ReturnIpAddress(found.value.fixedIp, now);
    }
  }

  /** Deleting a noted fixed-IP client keeps its address from being
      provisioned again until its cooldown ends. */
  lemma DeletedAddressCoolsDown(cache: Cache, c: Client, now: int, minutes: int, t: int,
                                groups: seq<IpGroup>, group: Option<string>, clients: seq<Client>)
    requires ReleasesAddress(Some(c)) && c.fixedIp.Some? && c.fixedIp.value != ""
    requires !Live(cache, Cooldown.CooldownKey(c.fixedIp), now)
    requires now <= t < now + minutes
    ensures Allocate(groups, group, UsedIps(clients), LiveKeys(Released(cache, c.fixedIp, now, minutes), t)) != c.fixedIp.value
  {
    ReleasedAddressNotReallocated(cache, c.fixedIp.value, now, minutes, t, groups, group, UsedIps(clients));
  }
}
