/** The cooldown cache's key scheme and entry shape
    (Unifi.IpManager/Services/IpService.cs). A released address is kept
    under "Unifi.IpManager.IpCooldown.<ip>"; the mere presence of the key
    means "in cooldown". */
module Cooldown {
  import opened Wrappers
  import opened Text

  const KeyPrefix: string := "Unifi.IpManager.IpCooldown."

  /** The address a cooldown key was made for, if it is one. */
  function AddressOfKey(key: string): Option<string> {
    if StartsWith(key, KeyPrefix) then Some(key[|KeyPrefix|..]) else None
  }

  /** string.Format of the key template; a null address formats as "".
      Every key leads back to the address it was made for (the bare prefix
      to "", which is also where a null address lands). */
  function CooldownKey(ip: Option<string>): (key: string)
    ensures AddressOfKey(key) == Some(Interpolated(ip))
  {
    var key := KeyPrefix + Interpolated(ip);
    assert key[..|KeyPrefix|] == KeyPrefix;
    assert key[|KeyPrefix|..] == Interpolated(ip);
    key
  }

  /** Distinct addresses never share a cooldown key. */
  lemma KeyInjective(a: string, b: string)
    requires CooldownKey(Some(a)) == CooldownKey(Some(b))
    ensures a == b
  {
    assert AddressOfKey(CooldownKey(Some(a))) == Some(a);
  }

  /** What the distributed cache holds under a key: the bytes and the
      absolute expiration (in minutes on the caller's clock). */
  datatype CacheEntry = CacheEntry(value: seq<byte>, absoluteExpiration: int)
}
