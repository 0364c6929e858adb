/** Cluster DNS on top of the controller's static host records
    (Unifi.IpManager/Services/ClusterDnsService.cs). A cluster "name" owns
    the "A" records whose host names start with "cp-name" (control plane)
    and "tfx-name" (traffic). The DNS backend is a parameter: it answers
    each create, update and delete with a success flag and errors, and the
    record fetch with a result. */
module ClusterDnsService {
  import opened Wrappers
  import opened Text
  import opened HostRecords
  import opened ServiceResults
  import opened StringExtensions
  import opened Selections

  /** The lists have no initializer, so a request body that leaves one out
      binds it to null (None). */
  datatype NewClusterRequest = NewClusterRequest(
    name: Option<string>,
    zoneName: Option<string>,
    controlPlaneIps: Option<seq<Option<string>>>,
    trafficIps: Option<seq<Option<string>>>)

  /** As NewClusterRequest, either list may be null. */
  datatype ClusterDns = ClusterDns(
    name: Option<string>,
    zoneName: Option<string>,
    controlPlane: Option<seq<HostDnsRecord>>,
    traffic: Option<seq<HostDnsRecord>>)

  /** The Success and Errors of a backend call's result. */
  datatype Reply = Reply(success: bool, errors: seq<string>)

  /** The result of GetHostDnsRecords; its Data may be null. */
  datatype Fetched = Fetched(success: bool, errors: seq<string>, data: Option<seq<HostDnsRecord>>)

  /** The Message of the NullReferenceException a null list or host name
      raises. */
  const NullReferenceMessage: string := "Object reference not set to an instance of an object."

  /** The Message of the ArgumentNullException a LINQ operator (Any, Where,
      Select) raises on a null source. */
  const ArgumentNullMessage: string := "Value cannot be null. (Parameter 'source')"

  const NoControlPlaneMessage: string := "No control plane records found for the specified cluster."

  function ControlPlaneHost(name: Option<string>): string {
    "cp-" + Interpolated(name)
  }

  function TrafficHost(name: Option<string>): string {
    "tfx-" + Interpolated(name)
  }

  // ---------------------------------------------------------------------
  // Record construction (CreateClusterDns)

  /** The "A" record for `ip` under "<host>.<zone>". */
  function ARecord(host: string, zone: Option<string>, ip: Option<string>): HostDnsRecord {
    HostDnsRecord(None, Some(host + "." + Interpolated(zone)), ip, None, Some("A"), false)
  }

  /** One record per address, in order. */
  function ARecords(host: string, zone: Option<string>, ips: seq<Option<string>>): seq<HostDnsRecord> {
    seq(|ips|, k requires 0 <= k < |ips| => ARecord(host, zone, ips[k]))
  }

  /** Every record CreateClusterDns submits when both lists are present:
      control plane first, then traffic. */
  function ClusterRecords(req: NewClusterRequest): (rs: seq<HostDnsRecord>)
    requires req.controlPlaneIps.Some? && req.trafficIps.Some?
    ensures |rs| == |req.controlPlaneIps.value| + |req.trafficIps.value|
    ensures HostnamesPresent(rs)
    ensures forall k :: 0 <= k < |rs| ==>
              rs[k].id.None? && rs[k].recordType == Some("A") &&
              rs[k].ipAddress == (if k < |req.controlPlaneIps.value| then req.controlPlaneIps.value[k]
                                  else req.trafficIps.value[k - |req.controlPlaneIps.value|])
    ensures forall k :: 0 <= k < |rs| ==>
              rs[k].hostname == Some((if k < |req.controlPlaneIps.value| then ControlPlaneHost(req.name)
                                      else TrafficHost(req.name)) + "." + Interpolated(req.zoneName))
  {
    ARecords(ControlPlaneHost(req.name), req.zoneName, req.controlPlaneIps.value) +
    ARecords(TrafficHost(req.name), req.zoneName, req.trafficIps.value)
  }

  // ---------------------------------------------------------------------
  // Reading a cluster back (GetClusterDns)

  /** Enumerable.Any(r => r.Hostname.StartsWith(prefix)), scanning in order;
      None when a null host name is reached first (the exception). */
  function AnyStartsWith(rs: seq<HostDnsRecord>, prefix: string): Option<bool>
    decreases |rs|
  {
    if |rs| == 0 then Some(false)
    else if rs[0].hostname.None? then None
    else if StartsWith(rs[0].hostname.value, prefix) then Some(true)
    else AnyStartsWith(rs[1..], prefix)
  }

  /** Where(r => r.Hostname.StartsWith(prefix)).ToList(); None when any host
      name is null. */
  function WhereStartsWith(rs: seq<HostDnsRecord>, prefix: string): Option<seq<HostDnsRecord>>
    decreases |rs|
  {
    if |rs| == 0 then Some([])
    else if rs[0].hostname.None? then None
    else
      match WhereStartsWith(rs[1..], prefix)
      case None => None
      case Some(rest) => Some(if StartsWith(rs[0].hostname.value, prefix) then [rs[0]] + rest else rest)
  }

  /** The Message of ArgumentException(message, paramName). */
  function ArgumentMessage(e: ArgumentError): string {
    e.message + " (Parameter '" + e.paramName + "')"
  }

  /** The cluster read from the fetched records; a blank zone is taken from
      the first control-plane host name. Thrown exceptions become a failed
      result carrying their message. A success always carries the cluster,
      with both lists present; a failure carries none. */
  function GetClusterDns(name: Option<string>, zone: Option<string>, fetched: Fetched): (r: Outcome<ClusterDns>)
    ensures r.success <==> r.data.Some?
    ensures r.success ==>
              r.errors == [] && r.data.value.name == name &&
              r.data.value.controlPlane.Some? && r.data.value.traffic.Some?
    ensures r.messages == []
  {
    if !fetched.success then Failed(fetched.errors)
    else if fetched.data.None? then Failed([ArgumentNullMessage])
    else
      var rs := fetched.data.value;
      match AnyStartsWith(rs, ControlPlaneHost(name))
      case None => Failed([NullReferenceMessage])
      case Some(found) =>
        if !found then Failed([NoControlPlaneMessage])
        else
          var cpsOrNull := WhereStartsWith(rs, ControlPlaneHost(name));
          var tfxOrNull := WhereStartsWith(rs, TrafficHost(name));
          if cpsOrNull.None? || tfxOrNull.None? then Failed([NullReferenceMessage])
          else
            var cps, tfx := cpsOrNull.value, tfxOrNull.value;
            if !IsNullOrEmpty(zone) then Outcome(true, [], [], Some(ClusterDns(name, zone, Some(cps), Some(tfx))))
            else if |cps| == 0 then Outcome(true, [], [], Some(ClusterDns(name, None, Some(cps), Some(tfx))))
            else
              match GetDomainFromHostname(cps[0].hostname)
              case Failure(e) => Failed([ArgumentMessage(e)])
              case Success(d) => Outcome(true, [], [], Some(ClusterDns(name, Some(d), Some(cps), Some(tfx))))
  }

  /** No fetched record has a null host name. */
  predicate HostnamesPresent(rs: seq<HostDnsRecord>) {
    forall k :: 0 <= k < |rs| ==> rs[k].hostname.Some?
  }

  predicate HasPrefix(r: HostDnsRecord, prefix: string) {
    r.hostname.Some? && StartsWith(r.hostname.value, prefix)
  }

  /** Any throws only on a null host name met before the first match, and
      otherwise answers whether some host name has the prefix. */
  lemma {:induction false} AnyStartsWithSpec(rs: seq<HostDnsRecord>, prefix: string)
    ensures AnyStartsWith(rs, prefix) == Some(false) ==> HostnamesPresent(rs)
    ensures AnyStartsWith(rs, prefix).Some? && HostnamesPresent(rs) ==>
      (AnyStartsWith(rs, prefix).value <==> exists k :: 0 <= k < |rs| && HasPrefix(rs[k], prefix))
    ensures HostnamesPresent(rs) ==> AnyStartsWith(rs, prefix).Some?
    decreases |rs|
  {
    if |rs| > 0 {
      AnyStartsWithSpec(rs[1..], prefix);
      assert forall k :: 1 <= k < |rs| ==> rs[k] == rs[1..][k - 1];
      if HostnamesPresent(rs) {
        assert HostnamesPresent(rs[1..]);
      }
    }
  }

  /** Whether each record of `rs` has the prefix. */
  function Passes(rs: seq<HostDnsRecord>, prefix: string): (p: seq<bool>)
    ensures |p| == |rs| && forall k :: 0 <= k < |rs| ==> p[k] == HasPrefix(rs[k], prefix)
  {
    seq(|rs|, k requires 0 <= k < |rs| => HasPrefix(rs[k], prefix))
  }

  /** The positions Where keeps. */
  lemma {:induction false} WhereStartsWithPositions(rs: seq<HostDnsRecord>, prefix: string) returns (idx: seq<nat>)
    requires WhereStartsWith(rs, prefix).Some?
    ensures Selects(WhereStartsWith(rs, prefix).value, rs, Passes(rs, prefix), idx)
    decreases |rs|
  {
    if |rs| == 0 {
      return [];
    }
    var tail := WhereStartsWithPositions(rs[1..], prefix);
    var keep := Passes(rs, prefix);
    assert Passes(rs[1..], prefix) == keep[1..];
    if keep[0] {
      SelectsConsKeep(rs, keep, WhereStartsWith(rs[1..], prefix).value, tail);
      idx := [0] + Shifted(tail);
    } else {
      SelectsConsDrop(rs, keep, WhereStartsWith(rs[1..], prefix).value, tail);
      idx := Shifted(tail);
    }
  }

  /** Where keeps the records with the prefix in their order in `rs`, each
      as often as it occurs there. */
  lemma WhereStartsWithKeepsOrder(rs: seq<HostDnsRecord>, prefix: string)
    ensures WhereStartsWith(rs, prefix).Some? ==> KeptInOrder(WhereStartsWith(rs, prefix).value, rs, Passes(rs, prefix))
  {
    if WhereStartsWith(rs, prefix).Some? {
      var idx := WhereStartsWithPositions(rs, prefix);
    }
  }

  /** Where throws exactly when a host name is null; otherwise it keeps
      exactly the records with the prefix (their order and multiplicity:
      WhereStartsWithKeepsOrder). */
  lemma {:induction false} WhereStartsWithSpec(rs: seq<HostDnsRecord>, prefix: string)
    ensures WhereStartsWith(rs, prefix).Some? <==> HostnamesPresent(rs)
    ensures WhereStartsWith(rs, prefix).Some? ==>
      (forall x :: x in WhereStartsWith(rs, prefix).value <==> x in rs && HasPrefix(x, prefix)) &&
      |WhereStartsWith(rs, prefix).value| <= |rs|
    decreases |rs|
  {
    if |rs| > 0 {
      WhereStartsWithSpec(rs[1..], prefix);
      assert forall k :: 1 <= k < |rs| ==> rs[k] == rs[1..][k - 1];
      assert rs == [rs[0]] + rs[1..];
      if HostnamesPresent(rs) {
        assert HostnamesPresent(rs[1..]);
      }
      if HostnamesPresent(rs[1..]) && rs[0].hostname.Some? {
        assert HostnamesPresent(rs);
      }
    }
  }

  lemma {:induction false} WhereStartsWithAppend(a: seq<HostDnsRecord>, b: seq<HostDnsRecord>, prefix: string)
    requires HostnamesPresent(a) && HostnamesPresent(b)
    ensures WhereStartsWith(a, prefix).Some? && WhereStartsWith(b, prefix).Some? && WhereStartsWith(a + b, prefix).Some?
    ensures WhereStartsWith(a + b, prefix).value == WhereStartsWith(a, prefix).value + WhereStartsWith(b, prefix).value
    decreases |a|
  {
    WhereStartsWithSpec(a, prefix);
    WhereStartsWithSpec(b, prefix);
    if |a| == 0 {
      assert a + b == b;
    } else {
      assert (a + b)[1..] == a[1..] + b;
      assert HostnamesPresent(a[1..]);
      WhereStartsWithAppend(a[1..], b, prefix);
    }
  }

  /** A fetch that fails is passed on with its errors. */
  lemma GetPassesFetchErrors(name: Option<string>, zone: Option<string>, fetched: Fetched)
    requires !fetched.success
    ensures GetClusterDns(name, zone, fetched) == Failed(fetched.errors)
  {
  }

  /** A successful fetch whose Data is null fails the read with the message
      of the ArgumentNullException that Any raises on it. */
  lemma GetNullListFails(name: Option<string>, zone: Option<string>, errors: seq<string>)
    ensures GetClusterDns(name, zone, Fetched(true, errors, None)) == Failed([ArgumentNullMessage])
    ensures GetClusterDns(name, zone, Fetched(true, errors, None)).errors != [NullReferenceMessage]
  {
  }

  /** A null host name anywhere in the fetch fails the read with the null
      reference message, whichever query meets it. */
  lemma GetNullHostnameFails(name: Option<string>, zone: Option<string>, rs: seq<HostDnsRecord>)
    requires !HostnamesPresent(rs)
    ensures GetClusterDns(name, zone, Fetched(true, [], Some(rs))).errors == [NullReferenceMessage]
    ensures !GetClusterDns(name, zone, Fetched(true, [], Some(rs))).success
  {
    AnyStartsWithSpec(rs, ControlPlaneHost(name));
    WhereStartsWithSpec(rs, ControlPlaneHost(name));
  }

  /** Without a control-plane record there is no cluster. */
  lemma GetNeedsControlPlane(name: Option<string>, zone: Option<string>, rs: seq<HostDnsRecord>)
    requires HostnamesPresent(rs)
    requires forall k :: 0 <= k < |rs| ==> !HasPrefix(rs[k], ControlPlaneHost(name))
    ensures GetClusterDns(name, zone, Fetched(true, [], Some(rs))) == Failed([NoControlPlaneMessage])
  {
    AnyStartsWithSpec(rs, ControlPlaneHost(name));
  }

  /** With one, the read succeeds: the control plane is exactly the records
      starting "cp-name", the traffic exactly those starting "tfx-name", and
      a blank zone becomes the domain of the first control-plane host name
      (which can never be blank, so that call never throws). */
  lemma GetSplitsByPrefix(name: Option<string>, zone: Option<string>, rs: seq<HostDnsRecord>)
    requires HostnamesPresent(rs)
    requires exists k :: 0 <= k < |rs| && HasPrefix(rs[k], ControlPlaneHost(name))
    ensures var r := GetClusterDns(name, zone, Fetched(true, [], Some(rs)));
      r.success && r.errors == [] && r.data.Some? && r.data.value.name == name &&
      r.data.value.controlPlane.Some? && r.data.value.traffic.Some? &&
      (forall x :: x in r.data.value.controlPlane.value <==> x in rs && HasPrefix(x, ControlPlaneHost(name))) &&
      (forall x :: x in r.data.value.traffic.value <==> x in rs && HasPrefix(x, TrafficHost(name))) &&
      KeptInOrder(r.data.value.controlPlane.value, rs, Passes(rs, ControlPlaneHost(name))) &&
      KeptInOrder(r.data.value.traffic.value, rs, Passes(rs, TrafficHost(name))) &&
      |r.data.value.controlPlane.value| > 0 &&
      r.data.value.zoneName == if IsNullOrEmpty(zone) then
        Some(GetDomainFromHostname(r.data.value.controlPlane.value[0].hostname).value) else zone
  {
    GetReadsFilters(name, zone, rs);
    WhereStartsWithSpec(rs, ControlPlaneHost(name));
    WhereStartsWithSpec(rs, TrafficHost(name));
    WhereStartsWithKeepsOrder(rs, ControlPlaneHost(name));
    WhereStartsWithKeepsOrder(rs, TrafficHost(name));
  }

  /** The lists of that read are the two Where results, and the first
      control-plane host name is not blank. */
  lemma GetReadsFilters(name: Option<string>, zone: Option<string>, rs: seq<HostDnsRecord>)
    requires HostnamesPresent(rs)
    requires exists k :: 0 <= k < |rs| && HasPrefix(rs[k], ControlPlaneHost(name))
    ensures var r := GetClusterDns(name, zone, Fetched(true, [], Some(rs)));
      var cps := WhereStartsWith(rs, ControlPlaneHost(name));
      cps.Some? && |cps.value| > 0 && r.success && r.data.Some? &&
      r.data.value.controlPlane == cps && r.data.value.traffic == WhereStartsWith(rs, TrafficHost(name)) &&
      r.data.value.zoneName == if IsNullOrEmpty(zone) then
        Some(GetDomainFromHostname(cps.value[0].hostname).value) else zone
  {
    var cp := ControlPlaneHost(name);
    AnyStartsWithSpec(rs, cp);
    assert AnyStartsWith(rs, cp) == Some(true);
    WhereStartsWithSpec(rs, cp);
    WhereStartsWithSpec(rs, TrafficHost(name));
    var k :| 0 <= k < |rs| && HasPrefix(rs[k], cp);
    var cps := WhereStartsWith(rs, cp).value;
    assert rs[k] in rs;
    assert rs[k] in cps;
    assert cps[0] in cps;
    ControlPlaneHostNotBlank(cps[0].hostname.value, name);
  }

  /** A host name starting "cp-" is not blank. */
  lemma ControlPlaneHostNotBlank(h: string, name: Option<string>)
    requires StartsWith(h, ControlPlaneHost(name))
    ensures !IsNullOrWhiteSpace(Some(h))
  {
    assert h[0] == 'c';
    assert !IsWhiteSpace(h[0]);
  }

  lemma ControlPlaneNotTraffic(name: Option<string>, h: string)
    ensures StartsWith(h, ControlPlaneHost(name)) ==> !StartsWith(h, TrafficHost(name))
  {
    if StartsWith(h, ControlPlaneHost(name)) {
      assert h[0] == ControlPlaneHost(name)[0];
      assert TrafficHost(name)[0] == 't';
    }
  }

  /** Every host name built for a cluster carries its own prefix. */
  lemma BuiltRecordsHavePrefix(host: string, zone: Option<string>, ips: seq<Option<string>>, prefix: string)
    requires StartsWith(host, prefix)
    ensures HostnamesPresent(ARecords(host, zone, ips))
    ensures forall k :: 0 <= k < |ips| ==> HasPrefix(ARecords(host, zone, ips)[k], prefix)
  {
    forall k | 0 <= k < |ips| ensures HasPrefix(ARecords(host, zone, ips)[k], prefix) {
      var h := host + "." + Interpolated(zone);
      assert h[..|prefix|] == host[..|prefix|];
    }
  }

  lemma {:induction false} WhereAll(rs: seq<HostDnsRecord>, prefix: string)
    requires forall k :: 0 <= k < |rs| ==> HasPrefix(rs[k], prefix)
    ensures WhereStartsWith(rs, prefix) == Some(rs)
    decreases |rs|
  {
    if |rs| > 0 {
      WhereAll(rs[1..], prefix);
      assert rs == [rs[0]] + rs[1..];
    }
  }

  lemma {:induction false} WhereNone(rs: seq<HostDnsRecord>, prefix: string)
    requires HostnamesPresent(rs)
    requires forall k :: 0 <= k < |rs| ==> !HasPrefix(rs[k], prefix)
    ensures WhereStartsWith(rs, prefix) == Some([])
    decreases |rs|
  {
    if |rs| > 0 {
      assert HostnamesPresent(rs[1..]);
      WhereNone(rs[1..], prefix);
    }
  }

  /** A fetch made of control-plane records followed by traffic records,
      with a zone given, reads back as those two lists. */
  lemma GetOfSeparatedRecords(name: Option<string>, zone: Option<string>, cps: seq<HostDnsRecord>, tfs: seq<HostDnsRecord>)
    requires |cps| > 0 && !IsNullOrEmpty(zone)
    requires forall k :: 0 <= k < |cps| ==> HasPrefix(cps[k], ControlPlaneHost(name)) && !HasPrefix(cps[k], TrafficHost(name))
    requires forall k :: 0 <= k < |tfs| ==> HasPrefix(tfs[k], TrafficHost(name)) && !HasPrefix(tfs[k], ControlPlaneHost(name))
    ensures GetClusterDns(name, zone, Fetched(true, [], Some(cps + tfs))) ==
      Outcome(true, [], [], Some(ClusterDns(name, zone, Some(cps), Some(tfs))))
  {
    var cp, tfx := ControlPlaneHost(name), TrafficHost(name);
    assert HostnamesPresent(cps) && HostnamesPresent(tfs);
    WhereStartsWithAppend(cps, tfs, cp);
    WhereStartsWithAppend(cps, tfs, tfx);
    WhereAll(cps, cp);
    WhereAll(tfs, tfx);
    WhereNone(tfs, cp);
    WhereNone(cps, tfx);
    assert cps + [] == cps;
    assert [] + tfs == tfs;
    var rs := cps + tfs;
    assert rs[0] == cps[0];
    assert AnyStartsWith(rs, cp) == Some(true);
  }

  /** Reading back exactly the records CreateClusterDns built, with a zone
      given, yields the request's control-plane and traffic records. */
  lemma CreatedClusterReadsBack(req: NewClusterRequest)
    requires req.controlPlaneIps.Some? && req.trafficIps.Some?
    requires |req.controlPlaneIps.value| > 0 && !IsNullOrEmpty(req.zoneName)
    ensures GetClusterDns(req.name, req.zoneName, Fetched(true, [], Some(ClusterRecords(req)))) ==
      Outcome(true, [], [], Some(ClusterDns(req.name, req.zoneName,
        Some(ARecords(ControlPlaneHost(req.name), req.zoneName, req.controlPlaneIps.value)),
        Some(ARecords(TrafficHost(req.name), req.zoneName, req.trafficIps.value)))))
  {
    var cp, tfx := ControlPlaneHost(req.name), TrafficHost(req.name);
    var cps := ARecords(cp, req.zoneName, req.controlPlaneIps.value);
    var tfs := ARecords(tfx, req.zoneName, req.trafficIps.value);
    assert StartsWith(cp, cp) && StartsWith(tfx, tfx);
    BuiltRecordsHavePrefix(cp, req.zoneName, req.controlPlaneIps.value, cp);
    BuiltRecordsHavePrefix(tfx, req.zoneName, req.trafficIps.value, tfx);
    forall k | 0 <= k < |tfs| ensures !HasPrefix(tfs[k], cp) {
      ControlPlaneNotTraffic(req.name, tfs[k].hostname.value);
    }
    forall k | 0 <= k < |cps| ensures !HasPrefix(cps[k], tfx) {
      ControlPlaneNotTraffic(req.name, cps[k].hostname.value);
    }
    GetOfSeparatedRecords(req.name, req.zoneName, cps, tfs);
  }

  /** The prefix test does not stop at the name: cluster "a" also claims
      the records of cluster "ab". */
  lemma NeighbouringClusterIsClaimed()
    ensures var rs := [ARecord("cp-ab", Some("lan"), Some("10.0.0.1"))];
      GetClusterDns(Some("a"), Some("lan"), Fetched(true, [], Some(rs))) ==
      Outcome(true, [], [], Some(ClusterDns(Some("a"), Some("lan"), Some(rs), Some([]))))
  {
    var r := ARecord("cp-ab", Some("lan"), Some("10.0.0.1"));
    assert r.hostname.value == "cp-ab.lan";
    assert StartsWith(r.hostname.value, ControlPlaneHost(Some("a")));
    ControlPlaneNotTraffic(Some("a"), r.hostname.value);
    GetOfSeparatedRecords(Some("a"), Some("lan"), [r], []);
    assert [r] + [] == [r];
  }

  // ---------------------------------------------------------------------
  // Reconciliation (ProcessHostDnsRecords)

  /** A call issued to the DNS backend. */
  datatype DnsOp = Create(record: HostDnsRecord) | Update(record: HostDnsRecord) | Delete(id: Option<string>)

  /** FirstOrDefault(r => r.Id == id); two null ids are equal. */
  function FindById(rs: seq<HostDnsRecord>, id: Option<string>): (r: Option<HostDnsRecord>)
    ensures r.Some? ==> r.value in rs && r.value.id == id
    ensures r.None? <==> forall k :: 0 <= k < |rs| ==> rs[k].id != id
    decreases |rs|
  {
    if |rs| == 0 then None
    else if rs[0].id == id then Some(rs[0])
    else
      var r := FindById(rs[1..], id);
      assert forall k :: 1 <= k < |rs| ==> rs[k] == rs[1..][k - 1];
      r
  }

  /** The record found is the first with the id. */
  lemma {:induction false} FindByIdFirst(rs: seq<HostDnsRecord>, id: Option<string>)
    requires FindById(rs, id).Some?
    ensures exists k :: 0 <= k < |rs| && rs[k] == FindById(rs, id).value && forall j :: 0 <= j < k ==> rs[j].id != id
    decreases |rs|
  {
    if rs[0].id != id {
      FindByIdFirst(rs[1..], id);
      var k :| 0 <= k < |rs[1..]| && rs[1..][k] == FindById(rs[1..], id).value &&
        forall j :: 0 <= j < k ==> rs[1..][j].id != id;
      assert rs[k + 1] == FindById(rs, id).value;
    } else {
      assert rs[0] == FindById(rs, id).value;
    }
  }

  /** A create for each requested record without an id, in order. */
  function Creates(requested: seq<HostDnsRecord>): seq<DnsOp> {
    if |requested| == 0 then []
    else
      var r := requested[|requested| - 1];
      Creates(requested[..|requested| - 1]) + (if IsNullOrWhiteSpace(r.id) then [Create(r)] else [])
  }

  /** For each existing record, in order: update with the first requested
      record carrying its id, or delete it when there is none. */
  function Syncs(existing: seq<HostDnsRecord>, requested: seq<HostDnsRecord>): seq<DnsOp> {
    if |existing| == 0 then []
    else
      Syncs(existing[..|existing| - 1], requested) + [SyncOp(requested, existing[|existing| - 1].id)]
  }

  /** The call made for an existing record with this id. */
  function SyncOp(requested: seq<HostDnsRecord>, id: Option<string>): DnsOp {
    match FindById(requested, id)
    case Some(r) => Update(r)
    case None => Delete(id)
  }

  /** Every call ProcessHostDnsRecords makes, in order. */
  function Plan(existing: seq<HostDnsRecord>, requested: seq<HostDnsRecord>): seq<DnsOp> {
    Creates(requested) + Syncs(existing, requested)
  }

  /** Whether the backend accepts every call. */
  predicate AllSucceed(backend: DnsOp -> Reply, ops: seq<DnsOp>) {
    forall k :: 0 <= k < |ops| ==> backend(ops[k]).success
  }

  /** The errors of the rejected calls, in call order. */
  function Failures(backend: DnsOp -> Reply, ops: seq<DnsOp>): seq<string> {
    if |ops| == 0 then []
    else
      var reply := backend(ops[|ops| - 1]);
      Failures(backend, ops[..|ops| - 1]) + (if reply.success then [] else reply.errors)
  }

  lemma CreatesSnoc(requested: seq<HostDnsRecord>, k: nat)
    requires k < |requested|
    ensures Creates(requested[..k + 1]) ==
      Creates(requested[..k]) + (if IsNullOrWhiteSpace(requested[k].id) then [Create(requested[k])] else [])
  {
    assert requested[..k + 1][..k] == requested[..k];
  }

  lemma SyncsSnoc(existing: seq<HostDnsRecord>, requested: seq<HostDnsRecord>, k: nat)
    requires k < |existing|
    ensures Syncs(existing[..k + 1], requested) == Syncs(existing[..k], requested) + [SyncOp(requested, existing[k].id)]
  {
    assert existing[..k + 1][..k] == existing[..k];
  }

  lemma FailuresSnoc(backend: DnsOp -> Reply, ops: seq<DnsOp>, op: DnsOp)
    ensures Failures(backend, ops + [op]) ==
      Failures(backend, ops) + (if backend(op).success then [] else backend(op).errors)
    ensures AllSucceed(backend, ops + [op]) <==> AllSucceed(backend, ops) && backend(op).success
  {
    assert (ops + [op])[..|ops|] == ops;
    assert forall k :: 0 <= k < |ops| ==> (ops + [op])[k] == ops[k];
  }

  /** What ProcessHostDnsRecords reports after the calls `ops`: success
      exactly when every call was accepted, and the rejected calls' errors
      in call order. */
  function Reported(backend: DnsOp -> Reply, ops: seq<DnsOp>): Outcome<()> {
    Outcome(AllSucceed(backend, ops), Failures(backend, ops), [], None)
  }

  /** One more call: an accepted one changes nothing, a rejected one is a
      MarkFailed with its errors. */
  lemma ReportedSnoc(backend: DnsOp -> Reply, ops: seq<DnsOp>, op: DnsOp)
    ensures Reported(backend, ops + [op]) ==
      if backend(op).success then Reported(backend, ops)
      else Step(Reported(backend, ops), FailedWith(backend(op).errors))
  {
    FailuresSnoc(backend, ops, op);
    if backend(op).success {
      assert Failures(backend, ops) + [] == Failures(backend, ops);
    }
  }

  /** Creates the requested records that have no id, then updates or
      deletes each existing record; every rejected call fails the result
      and appends its errors. `issued` lists the calls made, in order.
      `threw` is the ArgumentNullException of Where (a null requested list,
      before any call) or of Select (a null existing list, after the
      creates); the result is then never returned. */
  method ProcessHostDnsRecords(existingRecords: Option<seq<HostDnsRecord>>, requestedRecords: Option<seq<HostDnsRecord>>,
                               backend: DnsOp -> Reply)
    returns (result: ServiceResult<()>, issued: seq<DnsOp>, threw: bool)
    ensures fresh(result)
    ensures threw <==> requestedRecords.None? || existingRecords.None?
    ensures requestedRecords.None? ==> issued == []
    ensures requestedRecords.Some? && existingRecords.None? ==> issued == Creates(requestedRecords.value)
    ensures !threw ==> issued == Plan(existingRecords.value, requestedRecords.value)
    ensures !threw ==> result.State() == Reported(backend, issued)
  {
    result := new ServiceResult<()>();
    result.MarkSuccessful();
    issued := [];
    if requestedRecords.None? {
      return result, issued, true;
    }
    var requested := requestedRecords.value;
    assert result.State() == Reported(backend, issued);
    for k := 0 to |requested|
      invariant issued == Creates(requested[..k])
      invariant result.State() == Reported(backend, issued)
    {
      var newRecord := requested[k];
      CreatesSnoc(requested, k);
      if IsNullOrWhiteSpace(newRecord.id) {
        var createResult := backend(Create(newRecord));
        if !createResult.success {
          result.MarkFailedWithAll(createResult.errors);
        }
        ReportedSnoc(backend, issued, Create(newRecord));
        issued := issued + [Create(newRecord)];
      }
    }
    assert requested[..|requested|] == requested;
    if existingRecords.None? {
      return result, issued, true;
    }
    var existing := existingRecords.value;
    ghost var creates := issued;
    for k := 0 to |existing|
      invariant issued == creates + Syncs(existing[..k], requested)
      invariant result.State() == Reported(backend, issued)
    {
      var existingRecordId := existing[k].id;
      var requestedRecord := FindById(requested, existingRecordId);
      SyncsSnoc(existing, requested, k);
      var op: DnsOp;
      if requestedRecord.Some? {
        op := Update(requestedRecord.value);
      } else {
        op := Delete(existingRecordId);
      }
      assert op == SyncOp(requested, existingRecordId);
      assert issued + [op] == creates + Syncs(existing[..k + 1], requested);
      var reply := backend(op);
      if !reply.success {
        result.MarkFailedWithAll(reply.errors);
      }
      ReportedSnoc(backend, issued, op);
      issued := issued + [op];
    }
    assert existing[..|existing|] == existing;
    threw := false;
  }

  lemma {:induction false} CreatesSpec(requested: seq<HostDnsRecord>)
    ensures forall op :: op in Creates(requested) ==> op.Create?
    ensures forall r :: Create(r) in Creates(requested) <==> r in requested && IsNullOrWhiteSpace(r.id)
    decreases |requested|
  {
    if |requested| > 0 {
      var init := requested[..|requested| - 1];
      CreatesSpec(init);
      assert requested == init + [requested[|requested| - 1]];
    }
  }

  lemma {:induction false} SyncsSpec(existing: seq<HostDnsRecord>, requested: seq<HostDnsRecord>)
    ensures |Syncs(existing, requested)| == |existing|
    ensures forall k :: 0 <= k < |existing| ==> Syncs(existing, requested)[k] == SyncOp(requested, existing[k].id)
    decreases |existing|
  {
    if |existing| > 0 {
      var init := existing[..|existing| - 1];
      SyncsSpec(init, requested);
      assert forall k :: 0 <= k < |init| ==> init[k] == existing[k];
    }
  }

  /** The call for an existing record is never a create and names that
      record's id. */
  predicate SyncsRecord(op: DnsOp, id: Option<string>) {
    !op.Create? && (op.Delete? ==> op.id == id) && (op.Update? ==> op.record.id == id)
  }

  lemma SyncOpShape(requested: seq<HostDnsRecord>, id: Option<string>)
    ensures SyncsRecord(SyncOp(requested, id), id)
  {
  }

  lemma SyncsLength(existing: seq<HostDnsRecord>, requested: seq<HostDnsRecord>)
    ensures |Syncs(existing, requested)| == |existing|
  {
    SyncsSpec(existing, requested);
  }

  /** The plan's first calls are the creates. */
  lemma PlanCreateAt(existing: seq<HostDnsRecord>, requested: seq<HostDnsRecord>, k: nat)
    requires k < |Creates(requested)|
    ensures k < |Plan(existing, requested)| && Plan(existing, requested)[k].Create?
  {
    var creates := Creates(requested);
    CreatesSpec(requested);
    assert Plan(existing, requested)[k] == creates[k];
    assert creates[k] in creates;
  }

  /** The plan's calls after the creates are the syncs, one per existing
      record. */
  lemma PlanSyncAt(existing: seq<HostDnsRecord>, requested: seq<HostDnsRecord>, k: nat)
    requires k < |existing|
    ensures |Plan(existing, requested)| == |Creates(requested)| + |existing|
    ensures Plan(existing, requested)[|Creates(requested)| + k] == SyncOp(requested, existing[k].id)
  {
    SyncsSpec(existing, requested);
  }

  /** Every call of the plan that is not a create is the sync of some
      existing record. */
  lemma PlanNonCreate(existing: seq<HostDnsRecord>, requested: seq<HostDnsRecord>, op: DnsOp) returns (k: nat)
    requires op in Plan(existing, requested) && !op.Create?
    ensures k < |existing| && op == SyncOp(requested, existing[k].id)
  {
    CreatesSpec(requested);
    SyncsSpec(existing, requested);
    var syncs := Syncs(existing, requested);
    assert op !in Creates(requested);
    assert op in syncs;
    k :| 0 <= k < |syncs| && syncs[k] == op;
  }

  /** The plan creates exactly the requested records without an id. */
  lemma PlanCreatesExactlyUnidentified(existing: seq<HostDnsRecord>, requested: seq<HostDnsRecord>, r: HostDnsRecord)
    ensures Create(r) in Plan(existing, requested) <==> r in requested && IsNullOrWhiteSpace(r.id)
  {
    CreatesSpec(requested);
    SyncsSpec(existing, requested);
    if Create(r) in Syncs(existing, requested) {
      var k :| 0 <= k < |existing| && Syncs(existing, requested)[k] == Create(r);
      SyncOpShape(requested, existing[k].id);
    }
  }

  /** It deletes exactly the ids of existing records no requested record
      carries. */
  lemma PlanDeletesExactlyUnrequested(existing: seq<HostDnsRecord>, requested: seq<HostDnsRecord>, id: Option<string>)
    ensures Delete(id) in Plan(existing, requested) <==>
      (exists k :: 0 <= k < |existing| && existing[k].id == id) &&
      forall j :: 0 <= j < |requested| ==> requested[j].id != id
  {
    if Delete(id) in Plan(existing, requested) {
      var k := PlanNonCreate(existing, requested, Delete(id));
      assert FindById(requested, existing[k].id).None?;
    }
    if exists k :: 0 <= k < |existing| && existing[k].id == id {
      var k :| 0 <= k < |existing| && existing[k].id == id;
      if forall j :: 0 <= j < |requested| ==> requested[j].id != id {
        PlanSyncAt(existing, requested, k);
        assert FindById(requested, id).None?;
      }
    }
  }

  /** It updates with a requested record exactly when an existing record has
      its id and it is the first requested record with that id. */
  lemma PlanUpdatesFirstWithId(existing: seq<HostDnsRecord>, requested: seq<HostDnsRecord>, r: HostDnsRecord)
    ensures Update(r) in Plan(existing, requested) <==>
      (exists k :: 0 <= k < |existing| && existing[k].id == r.id) && FindById(requested, r.id) == Some(r)
  {
    if Update(r) in Plan(existing, requested) {
      var k := PlanNonCreate(existing, requested, Update(r));
      assert FindById(requested, existing[k].id) == Some(r);
    }
    if exists k :: 0 <= k < |existing| && existing[k].id == r.id {
      var k :| 0 <= k < |existing| && existing[k].id == r.id;
      if FindById(requested, r.id) == Some(r) {
        PlanSyncAt(existing, requested, k);
      }
    }
  }

  /** Creates come first; then exactly one update or delete per existing
      record, in order. */
  lemma PlanShape(existing: seq<HostDnsRecord>, requested: seq<HostDnsRecord>)
    ensures |Plan(existing, requested)| == |Creates(requested)| + |existing|
    ensures forall k :: 0 <= k < |Creates(requested)| ==> Plan(existing, requested)[k].Create?
    ensures forall k :: 0 <= k < |existing| ==>
      SyncsRecord(Plan(existing, requested)[|Creates(requested)| + k], existing[k].id)
  {
    var creates, plan := Creates(requested), Plan(existing, requested);
    SyncsLength(existing, requested);
    forall k | 0 <= k < |creates|
      ensures plan[k].Create?
    {
      PlanCreateAt(existing, requested, k);
    }
    forall k | 0 <= k < |existing|
      ensures SyncsRecord(plan[|creates| + k], existing[k].id)
    {
      PlanSyncAt(existing, requested, k);
      SyncOpShape(requested, existing[k].id);
    }
  }

  /** A null id is an id like any other: an existing record without one is
      "updated" with a requested record without one, which is also created. */
  lemma NullIdIsCreatedAndUpdated(e: HostDnsRecord, r: HostDnsRecord)
    requires e.id.None? && r.id.None?
    ensures Plan([e], [r]) == [Create(r), Update(r)]
  {
    assert [r][..0] == [];
    assert [e][..0] == [];
    assert Creates([r]) == [Create(r)];
    assert FindById([r], None) == Some(r);
    assert Syncs([e], [r]) == [Update(r)];
  }

  // ---------------------------------------------------------------------
  // The three operations

  /** Submits every control-plane and traffic record once, in order, even
      after a rejection; fails without errors if any was rejected, and
      otherwise reads the cluster back. `submitted` lists the records
      sent, in order. A null list throws a NullReferenceException in its
      foreach, before any create, and the catch turns it into a failure
      carrying its message. */
  method CreateClusterDns(req: NewClusterRequest, create: HostDnsRecord -> Reply, fetchedAfter: Fetched)
    returns (result: Outcome<ClusterDns>, submitted: seq<HostDnsRecord>)
    ensures req.controlPlaneIps.None? || req.trafficIps.None? ==>
      submitted == [] && result == Failed([NullReferenceMessage])
    ensures req.controlPlaneIps.Some? && req.trafficIps.Some? ==>
      submitted == ClusterRecords(req) &&
      result == if forall k :: 0 <= k < |submitted| ==> create(submitted[k]).success
                then GetClusterDns(req.name, req.zoneName, fetchedAfter)
                else Failed([])
  {
    var controlPlaneHost := ControlPlaneHost(req.name);
    var trafficHost := TrafficHost(req.name);
    var success := true;
    var recordsToCreate: seq<HostDnsRecord> := [];
    if req.controlPlaneIps.None? {
      return Failed([NullReferenceMessage]), [];
    }
    var controlPlaneIps := req.controlPlaneIps.value;
    for k := 0 to |controlPlaneIps|
      invariant recordsToCreate == ARecords(controlPlaneHost, req.zoneName, controlPlaneIps[..k])
    {
      recordsToCreate := recordsToCreate + [ARecord(controlPlaneHost, req.zoneName, controlPlaneIps[k])];
    }
    assert controlPlaneIps[..|controlPlaneIps|] == controlPlaneIps;
    if req.trafficIps.None? {
      return Failed([NullReferenceMessage]), [];
    }
    var trafficIps := req.trafficIps.value;
    ghost var cps := recordsToCreate;
    for k := 0 to |trafficIps|
      invariant recordsToCreate == cps + ARecords(trafficHost, req.zoneName, trafficIps[..k])
    {
      recordsToCreate := recordsToCreate + [ARecord(trafficHost, req.zoneName, trafficIps[k])];
    }
    assert trafficIps[..|trafficIps|] == trafficIps;
    submitted := [];
    for k := 0 to |recordsToCreate|
      invariant submitted == recordsToCreate[..k]
      invariant success <==> forall j :: 0 <= j < k ==> create(recordsToCreate[j]).success
    {
      var createResult := create(recordsToCreate[k]);
      if !createResult.success {
        success := false;
      }
      submitted := submitted + [recordsToCreate[k]];
    }
    assert recordsToCreate[..|recordsToCreate|] == recordsToCreate;
    if !success {
      return Failed([]), submitted;
    }
    return GetClusterDns(req.name, req.zoneName, fetchedAfter), submitted;
  }

  /** Reconciles the control plane, then the traffic records, against the
      cluster as it stands; fails with "Cluster <name> does not exist." when
      it cannot be read, with both lists' errors when a call is rejected,
      and otherwise reads the cluster back. `cpOps` and `tfOps` list the
      calls made for each list. A null list in the request makes
      ProcessHostDnsRecords throw ArgumentNullException before any call
      for that list (the control-plane calls are made when only the traffic
      list is null), and the catch turns it into a failure carrying its
      message. */
  method UpdateClusterDns(cluster: ClusterDns, fetchedBefore: Fetched, backend: DnsOp -> Reply, fetchedAfter: Fetched)
    returns (result: Outcome<ClusterDns>, cpOps: seq<DnsOp>, tfOps: seq<DnsOp>)
    ensures var before := GetClusterDns(cluster.name, cluster.zoneName, fetchedBefore);
      if !before.success then
        result == Failed(["Cluster " + Interpolated(cluster.name) + " does not exist."]) && cpOps == [] && tfOps == []
      else if cluster.controlPlane.None? then
        result == Failed([ArgumentNullMessage]) && cpOps == [] && tfOps == []
      else
        cpOps == Plan(before.data.value.controlPlane.value, cluster.controlPlane.value) &&
        if cluster.traffic.None? then
          result == Failed([ArgumentNullMessage]) && tfOps == []
        else
          tfOps == Plan(before.data.value.traffic.value, cluster.traffic.value) &&
          result == if AllSucceed(backend, cpOps) && AllSucceed(backend, tfOps)
                    then GetClusterDns(cluster.name, cluster.zoneName, fetchedAfter)
                    else Failed(Failures(backend, cpOps) + Failures(backend, tfOps))
  {
    var existingRecordResult := GetClusterDns(cluster.name, cluster.zoneName, fetchedBefore);
    if !existingRecordResult.success || existingRecordResult.data.None? {
      return Failed(["Cluster " + Interpolated(cluster.name) + " does not exist."]), [], [];
    }
    var existingRecord := existingRecordResult.data.value;
    var cpProcessResult, tfProcessResult, threw;
    cpProcessResult, cpOps, threw := ProcessHostDnsRecords(existingRecord.controlPlane, cluster.controlPlane, backend);
    if threw {
      return Failed([ArgumentNullMessage]), cpOps, [];
    }
    tfProcessResult, tfOps, threw := ProcessHostDnsRecords(existingRecord.traffic, cluster.traffic, backend);
    if threw {
      return Failed([ArgumentNullMessage]), cpOps, tfOps;
    }
    var success := cpProcessResult.success && tfProcessResult.success;
    if !success {
      return Failed(cpProcessResult.errors + tfProcessResult.errors), cpOps, tfOps;
    }
    result := GetClusterDns(cluster.name, cluster.zoneName, fetchedAfter);
  }
}
