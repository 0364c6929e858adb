/** The cooldown-aware IP service of Unifi.IpManager/Services/IpService.cs:
    an allocator that skips addresses still in cooldown, and the release
    that starts a cooldown in the distributed cache. */
module IpService {
  import opened Wrappers
  import opened Text
  import opened Cooldown
  import opened IpGroups

  /** The distributed cache's contents: key to stored bytes and absolute
      expiration. */
  type Cache = map<string, CacheEntry>

  /** The cache answers a read of `key` with its bytes until the entry's
      absolute expiration, and with null from then on. */
  predicate Live(cache: Cache, key: string, now: int) {
    key in cache && now < cache[key].absoluteExpiration
  }

  /** The keys a read at time `now` finds. */
  function LiveKeys(cache: Cache, now: int): set<string> {
    set key | key in cache && now < cache[key].absoluteExpiration
  }

  /** ReturnIpAddress throws (ArgumentNullException from
      Encoding.UTF8.GetBytes) exactly when the address is null and its
      key, "Unifi.IpManager.IpCooldown.", is not in the cache. */
  predicate ReleaseThrows(cache: Cache, ip: Option<string>, now: int) {
    ip.None? && !Live(cache, CooldownKey(ip), now)
  }

  /** The cache after ReturnIpAddress: a key already present is left alone
      (the cooldown is not extended); otherwise the address's UTF-8 bytes
      are stored until now + minutes. */
  function Released(cache: Cache, ip: Option<string>, now: int, minutes: int): Cache {
    var key := CooldownKey(ip);
    if Live(cache, key, now) || ip.None? then cache
    else cache[key := CacheEntry(Utf8(ip.value), now + minutes)]
  }

  class IpService {
    /** IpOptions.IpGroups */
    const groups: seq<IpGroup>
    /** IpOptions.IpCooldownMinutes */
    const cooldownMinutes: int
    /** The distributed cache this service writes cooldowns to. */
    var cache: Cache

    constructor(groups: seq<IpGroup>, cooldownMinutes: int, cache: Cache)
      ensures this.groups == groups && this.cooldownMinutes == cooldownMinutes
      ensures this.cache == cache
    {
      this.groups := groups;
      this.cooldownMinutes := cooldownMinutes;
      this.cache := cache;
    }

    /** An address is in cooldown when a read of its key finds an entry. */
    function IpInCooldown(ip: string, now: int): (r: bool)
      reads this
      ensures r <==> CooldownKey(Some(ip)) in LiveKeys(cache, now)
    {
      Live(cache, CooldownKey(Some(ip)), now)
    }

    /** Scans the named group's blocks in order, octets min..max-1, and
        returns the first address that is neither in `usedIps` nor in
        cooldown; "" for an unknown group, and "" plus the warning when
        the group is exhausted. The scan is repeated 100 times, each pass
        reading the same cache. */
    method GetUnusedGroupIpAddress(name: Option<string>, usedIps: seq<Option<string>>, now: int)
      returns (ip: string, warning: Option<string>)
      ensures ip == Allocate(groups, name, usedIps, LiveKeys(cache, now))
      ensures warning.Some? <==> FindGroup(groups, name).Some? && ip == ""
      ensures warning.Some? ==> warning.value == "No open IPs found for " + FindGroup(groups, name).value.name
    {
      var found := FindGroup(groups, name);
      if found.None? {
        return "", None;
      }
      var g := found.value;
      ghost var keys := LiveKeys(cache, now);
      var tries := 0;
      while tries < 100
        invariant 0 <= tries <= 100
        invariant tries > 0 ==> AllTaken(Candidates(g.blocks), usedIps, keys)
      {
        tries := tries + 1;
        for i := 0 to |g.blocks|
          invariant AllTaken(Candidates(g.blocks[..i]), usedIps, keys)
        {
          var block := g.blocks[i];
          var lastIpDigit := block.min;
          ScanStart(g.blocks, i);
          while lastIpDigit < block.max
            invariant block.min <= lastIpDigit
            invariant block.min < block.max ==> lastIpDigit <= block.max
            invariant block.min >= block.max ==> lastIpDigit == block.min
            invariant AllTaken(Scanned(g.blocks, i, lastIpDigit), usedIps, keys)
          {
            var assignedIp := AddressOf(lastIpDigit);
            if Some(assignedIp) !in usedIps && !IpInCooldown(assignedIp, now) {
              ScanFound(g.blocks, i, lastIpDigit, usedIps, keys);
              return assignedIp, None;
            }
            ScanStep(g.blocks, i, lastIpDigit, usedIps, keys);
            lastIpDigit := lastIpDigit + 1;
          }
          ScanBlockDone(g.blocks, i, lastIpDigit, usedIps, keys);
        }
        assert g.blocks[..|g.blocks|] == g.blocks;
      }
      FirstFreeSpec(Candidates(g.blocks), usedIps, keys);
      return "", Some("No open IPs found for " + g.name);
    }

    /** Starts the cooldown of an address unless its key is already in the
        cache; reports whether the call threw. */
    method ReturnIpAddress(ip: Option<string>, now: int) returns (threw: bool)
      modifies this
      ensures threw == ReleaseThrows(old(cache), ip, now)
      ensures cache == Released(old(cache), ip, now, cooldownMinutes)
    {
      var key := CooldownKey(ip);
      var cached := if Live(cache, key, now) then Some(cache[key].value) else None;
      if cached.None? {
        var expiration := now + cooldownMinutes;
        if ip.None? {
          return true;
        }
        cache := cache[key := CacheEntry(Utf8(ip.value), expiration)];
      }
      return false;
    }
  }

  // ---------------------------------------------------------------------
  // What a release means for later allocations

  /** Between the release and its expiration the address is in cooldown, so
      no allocation in any group hands it out. */
  lemma ReleasedAddressNotReallocated(cache: Cache, ip: string, now: int, minutes: int, t: int,
                                      groups: seq<IpGroup>, name: Option<string>, used: seq<Option<string>>)
    requires ip != "" && !Live(cache, CooldownKey(Some(ip)), now)
    requires now <= t < now + minutes
    ensures CooldownKey(Some(ip)) in LiveKeys(Released(cache, Some(ip), now, minutes), t)
    ensures Allocate(groups, name, used, LiveKeys(Released(cache, Some(ip), now, minutes), t)) != ip
  {
    var keys := LiveKeys(Released(cache, Some(ip), now, minutes), t);
    assert CooldownKey(Some(ip)) in keys;
    CooledAddressNotAllocated(groups, name, used, keys, ip);
  }

  /** Once the release expires, allocation is as if it had not happened. */
  lemma ReleaseLapses(cache: Cache, ip: string, now: int, minutes: int, t: int)
    requires !Live(cache, CooldownKey(Some(ip)), now)
    requires now <= t && now + minutes <= t
    ensures LiveKeys(Released(cache, Some(ip), now, minutes), t) == LiveKeys(cache, t)
  {
  }

  /** A release while the key is in the cache changes nothing: the cooldown
      is not extended. */
  lemma ReleaseDoesNotExtend(cache: Cache, ip: Option<string>, now: int, minutes: int)
    requires Live(cache, CooldownKey(ip), now)
    ensures Released(cache, ip, now, minutes) == cache
    ensures !ReleaseThrows(cache, ip, now)
  {
  }

  /** Releasing twice at the same time is releasing once. */
  lemma ReleaseIdempotent(cache: Cache, ip: Option<string>, now: int, minutes: int)
    ensures Released(Released(cache, ip, now, minutes), ip, now, minutes) == Released(cache, ip, now, minutes)
  {
  }

  /** A release touches only the address's own key. */
  lemma ReleaseFrame(cache: Cache, ip: Option<string>, now: int, minutes: int, key: string)
    requires key != CooldownKey(ip)
    ensures key in Released(cache, ip, now, minutes) <==> key in cache
    ensures key in cache ==> Released(cache, ip, now, minutes)[key] == cache[key]
  {
  }

  /** The stored entry names the address twice over: its key leads back to
      it and its bytes decode to it. */
  lemma ReleasedEntryNamesAddress(cache: Cache, ip: string, now: int, minutes: int)
    requires !Live(cache, CooldownKey(Some(ip)), now)
    ensures CooldownKey(Some(ip)) in Released(cache, Some(ip), now, minutes)
    ensures AddressOfKey(CooldownKey(Some(ip))) == Some(ip)
    ensures Utf8Decode(Released(cache, Some(ip), now, minutes)[CooldownKey(Some(ip))].value) == CodePoints(ip)
    ensures Released(cache, Some(ip), now, minutes)[CooldownKey(Some(ip))].absoluteExpiration == now + minutes
  {
    assert AddressOfKey(CooldownKey(Some(ip))) == Some(ip);
    Utf8RoundTrip(ip);
  }
}
