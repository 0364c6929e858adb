/** GetDomainFromHostname (Unifi.IpManager/Extensions/StringExtensions.cs):
    the zone of a fully qualified host name is everything after its first
    label, provided the name has at least three labels. */
module StringExtensions {
  import opened Wrappers
  import opened Text

  /** ArgumentException(message, paramName) */
  datatype ArgumentError = ArgumentException(message: string, paramName: string)

  /** The number of '.' in s. */
  function Dots(s: string): nat {
    multiset(s)['.']
  }

  /** Null or blank names throw; otherwise the name is split on '.', and with
      more than two pieces the first is dropped and the rest re-joined. It
      throws exactly on null and blank names; a domain other than the name
      itself is what follows the name's first '.', and still holds a '.'. */
  function GetDomainFromHostname(hostname: Option<string>): (r: Result<string, ArgumentError>)
    ensures r.Failure? <==> IsNullOrWhiteSpace(hostname)
    ensures r.Failure? ==> r.error == ArgumentException("Invalid hostname", "hostname")
    ensures r.Success? && r.value != hostname.value ==>
              var s, n := hostname.value, |hostname.value| - |r.value| - 1;
              0 <= n && s[n] == '.' && '.' !in s[..n] && s[n + 1..] == r.value && '.' in r.value
  {
    if IsNullOrWhiteSpace(hostname) then Failure(ArgumentException("Invalid hostname", "hostname"))
    else
      var parts := Split(hostname.value, '.');
      if |parts| > 2 then
        var s := hostname.value;
        var i := IndexOf(s, '.');
        JoinSplit(s[i + 1..], '.');
        Success(Join(parts[1..], '.'))
      else Success(hostname.value)
  }

  /** A name with at most one dot is its own domain. */
  lemma ShortNameIsOwnDomain(hostname: string)
    requires !IsNullOrWhiteSpace(Some(hostname)) && Dots(hostname) <= 1
    ensures GetDomainFromHostname(Some(hostname)) == Success(hostname)
  {
    SplitCount(hostname, '.');
  }

  /** A name with two or more dots loses exactly its first label and the
      first dot. */
  lemma DomainDropsFirstLabel(hostname: string)
    requires !IsNullOrWhiteSpace(Some(hostname)) && Dots(hostname) >= 2
    ensures '.' in hostname
    ensures GetDomainFromHostname(Some(hostname)) == Success(hostname[IndexOf(hostname, '.') + 1..])
  {
    SplitCount(hostname, '.');
    assert multiset(hostname)['.'] > 0;
    var i := IndexOf(hostname, '.');
    var rest := hostname[i + 1..];
    assert Split(hostname, '.')[1..] == Split(rest, '.');
    JoinSplit(rest, '.');
  }

  /** Whatever succeeds is a suffix of the name, a proper one when a label
      was dropped. */
  lemma DomainIsSuffix(hostname: string)
    requires GetDomainFromHostname(Some(hostname)).Success?
    ensures var d := GetDomainFromHostname(Some(hostname)).value;
      |d| <= |hostname| && hostname[|hostname| - |d|..] == d &&
      (Dots(hostname) >= 2 ==> |d| < |hostname| && Dots(d) == Dots(hostname) - 1)
  {
    if Dots(hostname) >= 2 {
      DomainDropsFirstLabel(hostname);
      var i := IndexOf(hostname, '.');
      assert hostname == hostname[..i] + ['.'] + hostname[i + 1..];
      assert multiset(hostname[..i])['.'] == 0;
    } else {
      ShortNameIsOwnDomain(hostname);
    }
  }
}
