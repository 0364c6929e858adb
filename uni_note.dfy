/** The client note merged by UniNote.Update (identical in
    Unifi.IpManager/Models/Unifi/UniNote.cs and
    unifi.ipmanager/Models/Unifi/UniNote.cs). Each property is nullable;
    a non-null property of the argument overwrites, a null one keeps. */
module UniNotes {
  import opened Wrappers

  /** The three properties of a note, as a value. */
  datatype Note = Note(setOnDevice: Option<bool>, dnsHostname: Option<string>, syncDnsHostName: Option<bool>)

  /** `incoming` where it has a value, `current` elsewhere. */
  function Overlay<U>(current: Option<U>, incoming: Option<U>): Option<U> {
    if incoming.Some? then incoming else current
  }

  /** The note after Update(notes); a null argument is None and changes
      nothing. Each property ends up as the argument's or the current one,
      and one that is set is never cleared. */
  function Merged(current: Note, notes: Option<Note>): (r: Note)
    ensures notes.None? ==> r == current
    ensures r.setOnDevice == current.setOnDevice || (notes.Some? && r.setOnDevice == notes.value.setOnDevice)
    ensures r.dnsHostname == current.dnsHostname || (notes.Some? && r.dnsHostname == notes.value.dnsHostname)
    ensures r.syncDnsHostName == current.syncDnsHostName || (notes.Some? && r.syncDnsHostName == notes.value.syncDnsHostName)
    ensures current.setOnDevice.Some? ==> r.setOnDevice.Some?
    ensures current.dnsHostname.Some? ==> r.dnsHostname.Some?
    ensures current.syncDnsHostName.Some? ==> r.syncDnsHostName.Some?
  {
    match notes
    case None => current
    case Some(n) =>
      Note(Overlay(current.setOnDevice, n.setOnDevice),
           Overlay(current.dnsHostname, n.dnsHostname),
           Overlay(current.syncDnsHostName, n.syncDnsHostName))
  }

  /** Update(null) changes nothing, and neither does an all-null note. */
  lemma MergeNothing(current: Note)
    ensures Merged(current, None) == current
    ensures Merged(current, Some(Note(None, None, None))) == current
  {
  }

  /** Applying the same notes twice is applying them once. */
  lemma MergeIdempotent(current: Note, notes: Option<Note>)
    ensures Merged(Merged(current, notes), notes) == Merged(current, notes)
  {
  }

  /** Two updates in a row are one update with the later note laid over the
      earlier one: for each property the last non-null value wins. */
  lemma MergeComposes(current: Note, a: Note, b: Note)
    ensures Merged(Merged(current, Some(a)), Some(b)) == Merged(current, Some(Merged(a, Some(b))))
  {
  }

  /** The merged value of a property is the argument's where it is set and
      the old one otherwise; a note with every property set replaces the
      current one outright. */
  lemma MergeOverwritesSetProperties(current: Note, n: Note)
    ensures n.setOnDevice.Some? ==> Merged(current, Some(n)).setOnDevice == n.setOnDevice
    ensures n.setOnDevice.None? ==> Merged(current, Some(n)).setOnDevice == current.setOnDevice
    ensures n.dnsHostname.Some? ==> Merged(current, Some(n)).dnsHostname == n.dnsHostname
    ensures n.dnsHostname.None? ==> Merged(current, Some(n)).dnsHostname == current.dnsHostname
    ensures n.syncDnsHostName.Some? ==> Merged(current, Some(n)).syncDnsHostName == n.syncDnsHostName
    ensures n.syncDnsHostName.None? ==> Merged(current, Some(n)).syncDnsHostName == current.syncDnsHostName
    ensures n.setOnDevice.Some? && n.dnsHostname.Some? && n.syncDnsHostName.Some? ==> Merged(current, Some(n)) == n
  {
  }

  class UniNote {
    var setOnDevice: Option<bool>
    var dnsHostname: Option<string>
    var syncDnsHostName: Option<bool>

    function Value(): Note
      reads this
    {
      Note(setOnDevice, dnsHostname, syncDnsHostName)
    }

    constructor(n: Note)
      ensures Value() == n
    {
      setOnDevice := n.setOnDevice;
      dnsHostname := n.dnsHostname;
      syncDnsHostName := n.syncDnsHostName;
    }

    /** Copies each non-null property of `notes` onto this note; only this
        note changes, even when `notes` is this very object. */
    method Update(notes: UniNote?)
      modifies this
      ensures Value() == Merged(old(Value()), if notes == null then None else Some(old(notes.Value())))
    {
      if notes != null && notes.setOnDevice != None {
        setOnDevice := notes.setOnDevice;
      }
      if notes != null && notes.syncDnsHostName != None {
        syncDnsHostName := notes.syncDnsHostName;
      }
      if notes != null && notes.dnsHostname != None {
        dnsHostname := notes.dnsHostname;
      }
    }
  }
}
