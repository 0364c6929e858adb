/** The first cluster DNS endpoint (unifi.ipmanager/Controllers/ClusterDnsController.cs),
    which works on a DNS service's records directly. A cluster is read as
    the records under host "cp-name" and "tfx-name"; an update creates the
    incoming records that do not exist yet and deletes the existing ones
    that are no longer wanted. The DNS service is a parameter. */
module ClusterDnsController {
  import opened Wrappers
  import opened Text
  import opened ServiceResults
  import Hosts = ClusterDnsService

  datatype DnsRecordType = A | OtherRecordType(code: int)

  /** A DNS service record, by the four properties the controller reads. */
  datatype DnsRecord = DnsRecord(hostName: Option<string>, data: Option<string>, zoneName: Option<string>, recordType: DnsRecordType)

  /** The lists have no initializer, so a request body that leaves one out
      binds it to null (None). */
  datatype ClusterDns = ClusterDns(
    name: Option<string>,
    zoneName: Option<string>,
    controlPlane: Option<seq<DnsRecord>>,
    traffic: Option<seq<DnsRecord>>)

  datatype NewClusterRequest = NewClusterRequest(
    name: Option<string>,
    zoneName: Option<string>,
    controlPlaneIps: Option<seq<Option<string>>>,
    trafficIps: Option<seq<Option<string>>>)

  /** What an action hands back: the result it returns, or an exception
      that escapes it (only ApiException is caught), given by its message. */
  datatype Response = Returned(result: Outcome<ClusterDns>) | Escaped(message: string)

  /** Neither list of the cluster is null. */
  predicate ListsPresent(c: ClusterDns) {
    c.controlPlane.Some? && c.traffic.Some?
  }

  /** What IDnsService.GetDnsRecordsForHostname(host, zone) answers: the
      records, null (None), or an ApiException it throws, given by its
      message. */
  type Answer = Result<Option<seq<DnsRecord>>, string>

  type Lookup = (string, Option<string>) -> Answer

  /** The answer is a list the controller can call ToList on. */
  predicate Listed(a: Answer) {
    a.Success? && a.value.Some?
  }

  /** GetDnsRecordsForHostname of the repository's DnsService
      (unifi.ipmanager/Services/DnsService.cs): it asks the DNS API client
      for the host in the zone, a null zone sent as "", and answers null
      when the client throws an ApiException, which it logs and swallows.
      `query` is the client: the records, or the exception's message. */
  function ServiceLookup(query: (string, string) -> Result<seq<DnsRecord>, string>): (lookup: Lookup)
    ensures forall h, z :: lookup(h, z).Success?
    ensures forall h, z :: Listed(lookup(h, z)) <==> query(h, z.GetOr("")).Success?
    ensures forall h, z :: Listed(lookup(h, z)) ==> lookup(h, z).value.value == query(h, z.GetOr("")).value
  {
    (h: string, z: Option<string>) =>
      match query(h, z.GetOr(""))
      case Success(records) => Success(Some(records))
      case Failure(_) => Success(None)
  }

  /** The equality the controller tests: host name, data, zone and type. */
  predicate Matches(a: DnsRecord, b: DnsRecord) {
    a.hostName == b.hostName && a.data == b.data && a.zoneName == b.zoneName && a.recordType == b.recordType
  }

  /** List.Exists(rec => Matches(rec, x)) */
  predicate MatchedIn(x: DnsRecord, ys: seq<DnsRecord>) {
    exists j :: 0 <= j < |ys| && Matches(ys[j], x)
  }

  /** The records of xs, in order, that have no match in ys. */
  function Unmatched(xs: seq<DnsRecord>, ys: seq<DnsRecord>): seq<DnsRecord> {
    if |xs| == 0 then []
    else
      var x := xs[|xs| - 1];
      Unmatched(xs[..|xs| - 1], ys) + (if MatchedIn(x, ys) then [] else [x])
  }

  /** The records Put creates, control plane first. */
  function ToCreate(incoming: ClusterDns, existing: ClusterDns): seq<DnsRecord>
    requires ListsPresent(incoming) && ListsPresent(existing)
  {
    Unmatched(incoming.controlPlane.value, existing.controlPlane.value) +
    Unmatched(incoming.traffic.value, existing.traffic.value)
  }

  /** The records Put deletes, control plane first. */
  function ToRemove(incoming: ClusterDns, existing: ClusterDns): seq<DnsRecord>
    requires ListsPresent(incoming) && ListsPresent(existing)
  {
    Unmatched(existing.controlPlane.value, incoming.controlPlane.value) +
    Unmatched(existing.traffic.value, incoming.traffic.value)
  }

  // ---------------------------------------------------------------------
  // Get

  /** The cluster's records as the DNS service returns them; a blank zone
      is taken from the first control-plane record. The control-plane
      query runs and is listed before the traffic query runs. A null answer
      makes ToList throw an ArgumentNullException, which the action does
      not catch: it escapes. An ApiException fails the result with its
      message alone and no cluster. Otherwise the result carries the
      cluster under the requested name with the two answers as its lists
      and, unless the requested zone is blank, that zone. */
  function Get(name: Option<string>, zone: Option<string>, lookup: Lookup): (r: Response)
    ensures var cp, tf := lookup(Hosts.ControlPlaneHost(name), zone), lookup(Hosts.TrafficHost(name), zone);
      (r.Escaped? <==> cp == Success(None) || (Listed(cp) && tf == Success(None))) &&
      (r.Escaped? ==> r.message == Hosts.ArgumentNullMessage) &&
      (r.Returned? ==> (r.result.success <==> r.result.data.Some?) && r.result.messages == []) &&
      (r.Returned? && r.result.success <==> Listed(cp) && Listed(tf)) &&
      (r.Returned? && r.result.success ==>
         var c := r.result.data.value;
         r.result.errors == [] && c.name == name && ListsPresent(c) &&
         c.controlPlane == cp.value && c.traffic == tf.value &&
         c.zoneName ==
           if !IsNullOrEmpty(zone) then zone else if |cp.value.value| == 0 then None else cp.value.value[0].zoneName) &&
      (r.Returned? && !r.result.success ==> r.result.errors == [if cp.Failure? then cp.error else tf.error])
  {
    match lookup(Hosts.ControlPlaneHost(name), zone)
    case Failure(m) => Returned(Failed([m]))
    case Success(None) => Escaped(Hosts.ArgumentNullMessage)
    case Success(Some(cps)) =>
      match lookup(Hosts.TrafficHost(name), zone)
      case Failure(m) => Returned(Failed([m]))
      case Success(None) => Escaped(Hosts.ArgumentNullMessage)
      case Success(Some(tfs)) =>
        var z := if !IsNullOrEmpty(zone) then zone else if |cps| == 0 then None else cps[0].zoneName;
        Returned(Outcome(true, [], [], Some(ClusterDns(name, z, Some(cps), Some(tfs)))))
  }

  /** With the repository's DnsService no query throws, so Get never
      returns a failure: a failed query escapes from the action as the
      ArgumentNullException of ToList. Put's "does not exist" answer is
      then unreachable. */
  lemma ServiceFailureEscapes(name: Option<string>, zone: Option<string>, query: (string, string) -> Result<seq<DnsRecord>, string>)
    ensures var r := Get(name, zone, ServiceLookup(query));
      var cp, tf := query(Hosts.ControlPlaneHost(name), zone.GetOr("")), query(Hosts.TrafficHost(name), zone.GetOr(""));
      (r.Returned? ==> r.result.success) &&
      (r.Escaped? <==> cp.Failure? || tf.Failure?)
  {
    var lookup := ServiceLookup(query);
    var cpa, tfa := lookup(Hosts.ControlPlaneHost(name), zone), lookup(Hosts.TrafficHost(name), zone);
    assert cpa.Success? && tfa.Success?;
  }

  // ---------------------------------------------------------------------
  // The diff

  /** Put's diff keeps exactly the unmatched records: every record of xs is
      matched in ys or kept, never both. */
  lemma {:induction false} UnmatchedSpec(xs: seq<DnsRecord>, ys: seq<DnsRecord>)
    ensures forall x :: x in Unmatched(xs, ys) <==> x in xs && !MatchedIn(x, ys)
    ensures |Unmatched(xs, ys)| <= |xs|
    decreases |xs|
  {
    if |xs| > 0 {
      var init := xs[..|xs| - 1];
      UnmatchedSpec(init, ys);
      assert xs == init + [xs[|xs| - 1]];
    }
  }

  /** With the four compared properties being the whole record, a match is
      equality. */
  lemma MatchesIsEquality(a: DnsRecord, b: DnsRecord)
    ensures Matches(a, b) <==> a == b
  {
  }

  lemma {:induction false} UnmatchedAllMatched(xs: seq<DnsRecord>, ys: seq<DnsRecord>)
    requires forall k :: 0 <= k < |xs| ==> MatchedIn(xs[k], ys)
    ensures Unmatched(xs, ys) == []
    decreases |xs|
  {
    if |xs| > 0 {
      UnmatchedAllMatched(xs[..|xs| - 1], ys);
    }
  }

  /** A list compared with itself leaves nothing over. */
  lemma UnmatchedSelf(xs: seq<DnsRecord>)
    ensures Unmatched(xs, xs) == []
  {
    forall k | 0 <= k < |xs|
      ensures MatchedIn(xs[k], xs)
    {
      assert Matches(xs[k], xs[k]);
    }
    UnmatchedAllMatched(xs, xs);
  }

  /** Putting the cluster that exists creates and deletes nothing. */
  lemma PutOfExistingIsEmpty(c: ClusterDns)
    requires ListsPresent(c)
    ensures ToCreate(c, c) == [] && ToRemove(c, c) == []
  {
    UnmatchedSelf(c.controlPlane.value);
    UnmatchedSelf(c.traffic.value);
  }

  /** The diff partitions each side: an incoming record is created iff it
      has no existing match, an existing one deleted iff it has no
      incoming match. */
  lemma DiffPartitions(incoming: ClusterDns, existing: ClusterDns, x: DnsRecord)
    requires ListsPresent(incoming) && ListsPresent(existing)
    ensures x in ToCreate(incoming, existing) <==>
      (x in incoming.controlPlane.value && !MatchedIn(x, existing.controlPlane.value)) ||
      (x in incoming.traffic.value && !MatchedIn(x, existing.traffic.value))
    ensures x in ToRemove(incoming, existing) <==>
      (x in existing.controlPlane.value && !MatchedIn(x, incoming.controlPlane.value)) ||
      (x in existing.traffic.value && !MatchedIn(x, incoming.traffic.value))
  {
    UnmatchedSpec(incoming.controlPlane.value, existing.controlPlane.value);
    UnmatchedSpec(incoming.traffic.value, existing.traffic.value);
    UnmatchedSpec(existing.controlPlane.value, incoming.controlPlane.value);
    UnmatchedSpec(existing.traffic.value, incoming.traffic.value);
  }

  lemma UnmatchedSnoc(xs: seq<DnsRecord>, ys: seq<DnsRecord>, k: nat)
    requires k < |xs|
    ensures Unmatched(xs[..k + 1], ys) == Unmatched(xs[..k], ys) + (if MatchedIn(xs[k], ys) then [] else [xs[k]])
  {
    assert xs[..k + 1][..k] == xs[..k];
  }

  // ---------------------------------------------------------------------
  // Put and Post

  /** The four loops of Put: the incoming control-plane and traffic
      records with no existing match, and the existing ones with no
      incoming match. The existing cluster comes from Get, so its lists are
      present; a null incoming list throws a NullReferenceException in the
      foreach over it (`threw`). */
  method Diff(incomingCluster: ClusterDns, existingRecord: ClusterDns)
    returns (recordsToCreate: seq<DnsRecord>, recordsToRemove: seq<DnsRecord>, threw: bool)
    requires ListsPresent(existingRecord)
    ensures threw <==> !ListsPresent(incomingCluster)
    ensures !threw ==> recordsToCreate == ToCreate(incomingCluster, existingRecord)
    ensures !threw ==> recordsToRemove == ToRemove(incomingCluster, existingRecord)
  {
    recordsToCreate, recordsToRemove := [], [];
    if incomingCluster.controlPlane.None? {
      return recordsToCreate, recordsToRemove, true;
    }
    var inCp := incomingCluster.controlPlane.value;
    var exCp, exTfx := existingRecord.controlPlane.value, existingRecord.traffic.value;

    for k := 0 to |inCp|
      invariant recordsToCreate == Unmatched(inCp[..k], exCp)
    {
      UnmatchedSnoc(inCp, exCp, k);
      if !MatchedIn(inCp[k], exCp) {
        recordsToCreate := recordsToCreate + [inCp[k]];
      }
    }
    assert inCp[..|inCp|] == inCp;

    for k := 0 to |exCp|
      invariant recordsToRemove == Unmatched(exCp[..k], inCp)
    {
      UnmatchedSnoc(exCp, inCp, k);
      if !MatchedIn(exCp[k], inCp) {
        recordsToRemove := recordsToRemove + [exCp[k]];
      }
    }
    assert exCp[..|exCp|] == exCp;

    if incomingCluster.traffic.None? {
      return recordsToCreate, recordsToRemove, true;
    }
    var inTfx := incomingCluster.traffic.value;
    ghost var cpCreates := recordsToCreate;
    for k := 0 to |inTfx|
      invariant recordsToCreate == cpCreates + Unmatched(inTfx[..k], exTfx)
    {
      UnmatchedSnoc(inTfx, exTfx, k);
      if !MatchedIn(inTfx[k], exTfx) {
        recordsToCreate := recordsToCreate + [inTfx[k]];
      }
    }
    assert inTfx[..|inTfx|] == inTfx;

    ghost var cpRemoves := recordsToRemove;
    for k := 0 to |exTfx|
      invariant recordsToRemove == cpRemoves + Unmatched(exTfx[..k], inTfx)
    {
      UnmatchedSnoc(exTfx, inTfx, k);
      if !MatchedIn(exTfx[k], inTfx) {
        recordsToRemove := recordsToRemove + [exTfx[k]];
      }
    }
    assert exTfx[..|exTfx|] == exTfx;
    threw := false;
  }

  /** Reads the cluster, creates in one bulk call the incoming records that
      do not exist (only if there are any), deletes every existing record
      that is not incoming, and reads the cluster back if all of that
      succeeded. Deletes are attempted even after a failed create.
      `created` is the bulk create sent, if any; `deleted` the records
      whose deletion was requested, in order. An exception escaping the
      first read escapes Put before any change, and one escaping the
      read-back escapes it after the changes. A null incoming list lets a
      NullReferenceException escape before any change is requested. */
  method Put(name: Option<string>, incomingCluster: ClusterDns, lookup: Lookup,
             bulkCreate: seq<DnsRecord> -> bool, delete: DnsRecord -> bool, lookupAfter: Lookup)
    returns (response: Response, created: Option<seq<DnsRecord>>, deleted: seq<DnsRecord>)
    ensures var read := Get(incomingCluster.name, incomingCluster.zoneName, lookup);
      if read.Escaped? then
        response == read && created.None? && deleted == []
      else
      var before := read.result;
      if !before.success then
        response == Returned(Failed(["Cluster " + Interpolated(name) + " does not exist."])) &&
        created.None? && deleted == []
      else if !ListsPresent(incomingCluster) then
        response == Escaped(Hosts.NullReferenceMessage) && created.None? && deleted == []
      else
        var toCreate := ToCreate(incomingCluster, before.data.value);
        created == (if |toCreate| > 0 then Some(toCreate) else None) &&
        deleted == ToRemove(incomingCluster, before.data.value) &&
        response ==
          if (created.None? || bulkCreate(toCreate)) && forall k :: 0 <= k < |deleted| ==> delete(deleted[k])
          then Get(incomingCluster.name, incomingCluster.zoneName, lookupAfter)
          else Returned(Failed([]))
  {
    created, deleted := None, [];
    var read := Get(incomingCluster.name, incomingCluster.zoneName, lookup);
    if read.Escaped? {
      return read, created, deleted;
    }
    var existingRecordResult := read.result;
    if !existingRecordResult.success {
      return Returned(Failed(["Cluster " + Interpolated(name) + " does not exist."])), created, deleted;
    }
    var existingRecord := existingRecordResult.data.value;
    var success := true;
    var recordsToCreate, recordsToRemove, threw := Diff(incomingCluster, existingRecord);
    if threw {
      return Escaped(Hosts.NullReferenceMessage), created, deleted;
    }

    if |recordsToCreate| > 0 {
      success := bulkCreate(recordsToCreate);
      created := Some(recordsToCreate);
    }
    ghost var createSucceeded := success;

    for k := 0 to |recordsToRemove|
      invariant deleted == recordsToRemove[..k]
      invariant success <==> createSucceeded && forall j :: 0 <= j < k ==> delete(recordsToRemove[j])
    {
      if !delete(recordsToRemove[k]) {
        success := false;
      }
      deleted := deleted + [recordsToRemove[k]];
    }
    assert recordsToRemove[..|recordsToRemove|] == recordsToRemove;

    if !success {
      return Returned(Failed([])), created, deleted;
    }
    response := Get(incomingCluster.name, incomingCluster.zoneName, lookupAfter);
  }

  /** The "A" record for `ip` under host `host` in `zone`. */
  function NewRecord(host: string, zone: Option<string>, ip: Option<string>): DnsRecord {
    DnsRecord(Some(host), ip, zone, A)
  }

  /** Every record Post submits when both lists are present: control plane
      first, then traffic. */
  function NewClusterRecords(req: NewClusterRequest): seq<DnsRecord>
    requires req.controlPlaneIps.Some? && req.trafficIps.Some?
  {
    var cpIps, tfxIps := req.controlPlaneIps.value, req.trafficIps.value;
    seq(|cpIps|, k requires 0 <= k < |cpIps| => NewRecord(Hosts.ControlPlaneHost(req.name), req.zoneName, cpIps[k])) +
    seq(|tfxIps|, k requires 0 <= k < |tfxIps| => NewRecord(Hosts.TrafficHost(req.name), req.zoneName, tfxIps[k]))
  }

  /** Builds one record per address and submits them all in one bulk call
      (even when there are none), returned as `submitted`; reads the
      cluster back if it succeeded, an exception escaping that read
      escaping Post. A null address list lets a NullReferenceException
      escape before the bulk call. */
  method Post(newRequest: NewClusterRequest, bulkCreate: seq<DnsRecord> -> bool, lookupAfter: Lookup)
    returns (response: Response, submitted: seq<DnsRecord>)
    ensures newRequest.controlPlaneIps.None? || newRequest.trafficIps.None? ==>
      response == Escaped(Hosts.NullReferenceMessage) && submitted == []
    ensures newRequest.controlPlaneIps.Some? && newRequest.trafficIps.Some? ==>
      submitted == NewClusterRecords(newRequest) &&
      response == if bulkCreate(submitted) then Get(newRequest.name, newRequest.zoneName, lookupAfter)
                  else Returned(Failed([]))
  {
    var controlPlaneHost := Hosts.ControlPlaneHost(newRequest.name);
    var trafficHost := Hosts.TrafficHost(newRequest.name);
    var recordsToCreate: seq<DnsRecord> := [];
    if newRequest.controlPlaneIps.None? {
      return Escaped(Hosts.NullReferenceMessage), [];
    }
    var cpIps := newRequest.controlPlaneIps.value;
    for k := 0 to |cpIps|
      invariant |recordsToCreate| == k
      invariant forall j :: 0 <= j < k ==> recordsToCreate[j] == NewRecord(controlPlaneHost, newRequest.zoneName, cpIps[j])
    {
      recordsToCreate := recordsToCreate + [NewRecord(controlPlaneHost, newRequest.zoneName, cpIps[k])];
    }
    if newRequest.trafficIps.None? {
      return Escaped(Hosts.NullReferenceMessage), [];
    }
    var tfxIps := newRequest.trafficIps.value;
    var n := |recordsToCreate|;
    for k := 0 to |tfxIps|
      invariant |recordsToCreate| == n + k
      invariant forall j :: 0 <= j < n ==> recordsToCreate[j] == NewRecord(controlPlaneHost, newRequest.zoneName, cpIps[j])
      invariant forall j :: 0 <= j < k ==> recordsToCreate[n + j] == NewRecord(trafficHost, newRequest.zoneName, tfxIps[j])
    {
      recordsToCreate := recordsToCreate + [NewRecord(trafficHost, newRequest.zoneName, tfxIps[k])];
    }
    submitted := recordsToCreate;
    var success := bulkCreate(recordsToCreate);
    if !success {
      return Returned(Failed([])), submitted;
    }
    response := Get(newRequest.name, newRequest.zoneName, lookupAfter);
  }

  /** The records of `store` under a host name, in order. */
  function UnderHost(store: seq<DnsRecord>, host: string): seq<DnsRecord> {
    if |store| == 0 then
      []
    else
      var last := store[|store| - 1];
      UnderHost(store[..|store| - 1], host) + (if last.hostName == Some(host) then [last] else [])
  }

  lemma {:induction false} UnderHostAppend(a: seq<DnsRecord>, b: seq<DnsRecord>, host: string)
    ensures UnderHost(a + b, host) == UnderHost(a, host) + UnderHost(b, host)
    decreases |b|
  {
    if |b| == 0 {
      assert a + b == a;
    } else {
      assert (a + b)[..|a + b| - 1] == a + b[..|b| - 1];
      UnderHostAppend(a, b[..|b| - 1], host);
    }
  }

  lemma {:induction false} UnderHostAll(rs: seq<DnsRecord>, host: string)
    requires forall k :: 0 <= k < |rs| ==> rs[k].hostName == Some(host)
    ensures UnderHost(rs, host) == rs
    decreases |rs|
  {
    if |rs| > 0 {
      UnderHostAll(rs[..|rs| - 1], host);
    }
  }

  lemma {:induction false} UnderHostNone(rs: seq<DnsRecord>, host: string)
    requires forall k :: 0 <= k < |rs| ==> rs[k].hostName != Some(host)
    ensures UnderHost(rs, host) == []
    decreases |rs|
  {
    if |rs| > 0 {
      UnderHostNone(rs[..|rs| - 1], host);
    }
  }

  /** If the DNS service answers a host-name query with the records stored
      under that name, a cluster just posted reads back as the request:
      its control-plane records, its traffic records and, when it has a
      control plane, the request's zone. */
  lemma PostedClusterReadsBack(req: NewClusterRequest, lookup: Lookup)
    requires req.controlPlaneIps.Some? && req.trafficIps.Some?
    requires forall h, z :: lookup(h, z) == Success(Some(UnderHost(NewClusterRecords(req), h)))
    ensures var r := Get(req.name, req.zoneName, lookup);
      var cps := NewClusterRecords(req)[..|req.controlPlaneIps.value|];
      r.Returned? && r.result.success && r.result.data.Some? &&
      r.result.data.value.controlPlane == Some(cps) &&
      r.result.data.value.traffic == Some(NewClusterRecords(req)[|req.controlPlaneIps.value|..]) &&
      (|cps| > 0 ==> r.result.data.value.zoneName == req.zoneName)
  {
    var all := NewClusterRecords(req);
    var n := |req.controlPlaneIps.value|;
    PostedRecordsByHost(req);
    assert lookup(Hosts.ControlPlaneHost(req.name), req.zoneName) == Success(Some(all[..n]));
    assert lookup(Hosts.TrafficHost(req.name), req.zoneName) == Success(Some(all[n..]));
  }

  /** Of the records Post submits, those under `cp-name` are the first
      ones, one per control-plane address, and those under `tfx-name` the
      rest. */
  lemma PostedRecordsByHost(req: NewClusterRequest)
    requires req.controlPlaneIps.Some? && req.trafficIps.Some?
    ensures var all, n := NewClusterRecords(req), |req.controlPlaneIps.value|;
      n <= |all| &&
      UnderHost(all, Hosts.ControlPlaneHost(req.name)) == all[..n] &&
      UnderHost(all, Hosts.TrafficHost(req.name)) == all[n..]
  {
    var all := NewClusterRecords(req);
    var n := |req.controlPlaneIps.value|;
    var cp, tfx := Hosts.ControlPlaneHost(req.name), Hosts.TrafficHost(req.name);
    var cps, tfs := all[..n], all[n..];
    assert all == cps + tfs;
    assert cp != tfx by {
      assert cp[0] == 'c' && tfx[0] == 't';
    }
    UnderHostAppend(cps, tfs, cp);
    UnderHostAppend(cps, tfs, tfx);
    UnderHostAll(cps, cp);
    UnderHostAll(tfs, tfx);
    UnderHostNone(cps, tfx);
    UnderHostNone(tfs, cp);
    assert cps + [] == cps;
    assert [] + tfs == tfs;
  }
}
