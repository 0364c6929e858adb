/** The first IP service (unifi.ipmanager/Services/IpService.cs): the same
    first-fit scan without a cooldown cache. Its classification is the one
    in IpGroups. */
module LegacyIpService {
  import opened Wrappers
  import opened IpGroups

  /** The first address of the named group's blocks, in order, that is not
      in `usedIps`; "" for an unknown group, and "" plus the warning when
      every octet is used. */
  method GetUnusedGroupIpAddress(groups: seq<IpGroup>, name: Option<string>, usedIps: seq<Option<string>>)
    returns (ip: string, warning: Option<string>)
    ensures ip == Allocate(groups, name, usedIps, {})
    ensures warning.Some? <==> FindGroup(groups, name).Some? && ip == ""
    ensures warning.Some? ==> warning.value == "No open IPs found for " + FindGroup(groups, name).value.name
  {
    var found := FindGroup(groups, name);
    if found.None? {
      return "", None;
    }
    var g := found.value;
    var tries := 0;
    while tries < 100
      invariant 0 <= tries <= 100
      invariant tries > 0 ==> AllTaken(Candidates(g.blocks), usedIps, {})
    {
      tries := tries + 1;
      for i := 0 to |g.blocks|
        invariant AllTaken(Candidates(g.blocks[..i]), usedIps, {})
      {
        var block := g.blocks[i];
        var lastIpDigit := block.min;
        ScanStart(g.blocks, i);
        while lastIpDigit < block.max
          invariant block.min <= lastIpDigit
          invariant block.min < block.max ==> lastIpDigit <= block.max
          invariant block.min >= block.max ==> lastIpDigit == block.min
          invariant AllTaken(Scanned(g.blocks, i, lastIpDigit), usedIps, {})
        {
          var assignedIp := AddressOf(lastIpDigit);
          if Some(assignedIp) !in usedIps {
            ScanFound(g.blocks, i, lastIpDigit, usedIps, {});
            return assignedIp, None;
          }
          ScanStep(g.blocks, i, lastIpDigit, usedIps, {});
          lastIpDigit := lastIpDigit + 1;
        }
        ScanBlockDone(g.blocks, i, lastIpDigit, usedIps, {});
      }
      assert g.blocks[..|g.blocks|] == g.blocks;
    }
    FirstFreeSpec(Candidates(g.blocks), usedIps, {});
    return "", Some("No open IPs found for " + g.name);
  }

  /** Without a cache the only reason to skip an address is the used list:
      the first octet of the first block is handed out whenever it is not
      listed. */
  lemma FirstOctetWhenUnlisted(groups: seq<IpGroup>, name: Option<string>, usedIps: seq<Option<string>>, g: IpGroup)
    requires FindGroup(groups, name) == Some(g)
    requires |g.blocks| > 0 && g.blocks[0].min < g.blocks[0].max
    requires Some(AddressOf(g.blocks[0].min)) !in usedIps
    ensures Allocate(groups, name, usedIps, {}) == AddressOf(g.blocks[0].min)
  {
    var b := g.blocks[0];
    CandidatesAround(g.blocks, 0, b.min);
    assert g.blocks[..0] == [];
    FirstFreeAt([], b.min, Range(b.min + 1, b.max) + Candidates(g.blocks[1..]), usedIps, {});
    assert [] + Range(b.min, b.min) + [b.min] + (Range(b.min + 1, b.max) + Candidates(g.blocks[1..])) ==
      [] + [b.min] + (Range(b.min + 1, b.max) + Candidates(g.blocks[1..]));
  }
}
