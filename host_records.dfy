/** The DNS record shapes and the conversions between them
    (Unifi.IpManager/Models/DTO/HostRecordExtensions.cs). Every string
    property is a C# reference and may be null. */
module HostRecords {
  import opened Wrappers

  /** The service's own record (HostDnsRecord.cs); DeviceLock marks a record
      the controller derives from a device. */
  datatype HostDnsRecord = HostDnsRecord(
    id: Option<string>,
    hostname: Option<string>,
    ipAddress: Option<string>,
    macAddress: Option<string>,
    recordType: Option<string>,
    deviceLock: bool)

  /** A static DNS entry as the UniFi controller stores it (UniHostRecord.cs). */
  datatype UniHostRecord = UniHostRecord(
    id: Option<string>,
    enabled: bool,
    key: Option<string>,
    port: int,
    priority: int,
    recordType: Option<string>,
    ttl: int,
    value: Option<string>,
    weight: int)

  /** A name the controller publishes for a device (UniDeviceDnsRecord.cs). */
  datatype UniDeviceDnsRecord = UniDeviceDnsRecord(
    hostname: Option<string>,
    ipAddress: Option<string>,
    macAddress: Option<string>)

  /** UniHostRecord.ToHostDnsRecord: never device-locked, no MAC address;
      the id, key, value and type carry over. */
  function FromUniHostRecord(u: UniHostRecord): (r: HostDnsRecord)
    ensures !r.deviceLock && r.macAddress.None?
    ensures r.id == u.id && r.hostname == u.key && r.ipAddress == u.value && r.recordType == u.recordType
  {
    HostDnsRecord(u.id, u.key, u.value, None, u.recordType, false)
  }

  /** HostDnsRecord.ToUniHostRecord: enabled, with zero port, priority, TTL
      and weight. A record without MAC address or device lock survives the
      trip to the controller's shape and back; the MAC address and the lock
      are the only things lost. */
  function ToUniHostRecord(h: HostDnsRecord): (u: UniHostRecord)
    ensures u.enabled && u.port == 0 && u.priority == 0 && u.ttl == 0 && u.weight == 0
    ensures FromUniHostRecord(u) == h.(macAddress := None, deviceLock := false)
  {
    UniHostRecord(h.id, true, h.hostname, 0, 0, h.recordType, 0, h.ipAddress, 0)
  }

  /** UniDeviceDnsRecord.ToHostDnsRecord: an "A" record without an id,
      device-locked, keeping the device's name, address and MAC address. It
      never coincides with a converted controller record, which is never
      locked. */
  function FromDeviceRecord(d: UniDeviceDnsRecord): (r: HostDnsRecord)
    ensures r.deviceLock && r.id.None? && r.recordType == Some("A")
    ensures r.hostname == d.hostname && r.ipAddress == d.ipAddress && r.macAddress == d.macAddress
    ensures forall u :: FromUniHostRecord(u) != r
  {
    HostDnsRecord(None, d.hostname, d.ipAddress, d.macAddress, Some("A"), true)
  }

  /** An enabled controller record with zero port, priority, TTL and weight
      survives the trip to the service's shape and back; those four and the
      enabled flag are the only things reset. */
  lemma UniRecordRoundTrip(u: UniHostRecord)
    ensures ToUniHostRecord(FromUniHostRecord(u)) == u.(enabled := true, port := 0, priority := 0, ttl := 0, weight := 0)
  {
  }
}
