/** A file of the in-memory storage backend: what is written, and what a loss of power leaves. */
module Storage {
  import opened Bytes

  class MemoryFile {
    var live: seq<Byte>
    var durable: seq<Byte>

    constructor ()
      ensures live == [] && durable == []
    {
      live, durable := [], [];
    }

    method Append(buf: seq<Byte>) returns (offset: nat)
      modifies this
      ensures offset == |old(live)| && live == old(live) + buf && durable == old(durable)
    {
      offset := |live|;
      live := live + buf;
    }

    /** Shrink, or grow with zeros. */
    method Truncate(len: nat)
      modifies this
      ensures |live| == len && durable == old(durable)
      ensures len <= |old(live)| ==> live == old(live)[..len]
      ensures len > |old(live)| ==> live == old(live) + seq(len - |old(live)|, _ => 0)
    {
      live := if len <= |live| then live[..len] else live + seq(len - |live|, _ => 0);
    }

    /** Overwrite from `offset` on, growing the file with zeros as far as needed. */
    method WriteAt(buf: seq<Byte>, offset: nat)
      modifies this
      ensures durable == old(durable)
      ensures |live| == if |old(live)| < offset + |buf| then offset + |buf| else |old(live)|
      ensures live[offset..offset + |buf|] == buf
      ensures forall i :: 0 <= i < |live| && !(offset <= i < offset + |buf|) ==>
        live[i] == if i < |old(live)| then old(live)[i] else 0
    {
      var end := offset + |buf|;
      if |live| < end {
        Truncate(end);
      }
      live := live[..offset] + buf + live[end..];
    }

    method SyncData()
      modifies this
      ensures live == old(live) && durable == live
    {
      durable := live;
    }

    method PowerLoss()
      modifies this
      ensures live == old(durable) && durable == old(durable)
    {
      live := durable;
    }
  }
}
