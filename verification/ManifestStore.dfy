/**
  The object that loads, creates and commits manifests over two files.  Each method goes
  through the storage calls `ManifestSlots` allows to be interrupted.
*/
module ManifestStore {
  import opened Prelude
  import opened Bytes
  import opened Manifest
  import opened Storage
  import Cursor
  import ManifestCode
  import Slots = ManifestSlots

  /** The two slot files. */
  class Files {
    const a: MemoryFile
    const b: MemoryFile

    constructor (a: MemoryFile, b: MemoryFile)
      requires a != b
      ensures this.a == a && this.b == b
    {
      this.a, this.b := a, b;
    }

    function File(slot: Slots.Slot): (f: MemoryFile)
      ensures f == a || f == b
    {
      if slot == Slots.A then a else b
    }

    ghost function State(p: Slots.Process): Slots.Disk
      reads a, b
    {
      Slots.Disk(Slots.Pair(a.live, b.live), Slots.Pair(a.durable, b.durable), p)
    }
  }

  method Examine(bytes: Option<seq<Byte>>) returns (s: Slots.Status)
    ensures s == Slots.Examine(bytes)
  {
    if bytes.None? {
      return Slots.Missing;
    }
    var d := ManifestCode.DecodeManifest(bytes.value);
    s := match d case Ok(m) => Slots.Fine(m) case Err(e) => Slots.Invalid(e);
  }

  /** Read both slots and decide which one is authoritative. */
  method ScanSlots(a: Option<seq<Byte>>, b: Option<seq<Byte>>) returns (s: Slots.SlotScan)
    ensures s == Slots.ScanSlots(a, b)
  {
    hide Slots.Examine;
    var sa := Examine(a);
    var sb := Examine(b);
    var chosen := None;
    if sa.Fine? && (!sb.Fine? || sb.manifest.sequence <= sa.manifest.sequence) {
      chosen := Some((Slots.A, sa.manifest));
    } else if sb.Fine? {
      chosen := Some((Slots.B, sb.manifest));
    }
    s := Slots.SlotScan(chosen, sa, sb);
  }

  class Store {
    const files: Files
    var current: Manifest
    var slot: Slots.Slot

    ghost predicate Valid()
      reads this, files
    {
      files.a != files.b
    }

    ghost function State(): Slots.Disk
      reads this, files, files.a, files.b
    {
      files.State(Slots.Up(current, slot, Slots.Idle))
    }

    constructor (files: Files, current: Manifest, slot: Slots.Slot)
      requires files.a != files.b
      ensures Valid() && this.files == files && this.current == current && this.slot == slot
    {
      this.files, this.current, this.slot := files, current, slot;
    }

    /** Empty the other slot, write it and sync it; only then adopt what was written. */
    method Write(next: Manifest) returns (r: Result<(), Cursor.FormatError>)
      requires Valid()
      modifies this, files.a, files.b
      ensures Valid()
      ensures r.Ok? <==> Encode(next).Ok?
      ensures r.Err? ==> State() == old(State())
      ensures r.Ok? ==>
        (var target := old(slot).Other(); var was := old(State()); var bytes := Encode(next).value;
         State() == Slots.Disk(was.live.Put(target, bytes), was.durable.Put(target, bytes), Slots.Up(next, target, Slots.Idle)))
    {
      hide Encode;
      var target := slot.Other();
      var bytes :- ManifestCode.EncodeManifest(next);
      var file := files.File(target);
      file.Truncate(0);
      file.WriteAt(bytes, 0);
      assert file.live == bytes by { assert file.live[0..|bytes|] == file.live; }
      file.SyncData();
      current := next;
      slot := target;
      r := Ok(());
    }

    /** A commit that returns has taken exactly the steps begin, write and finish. */
    method Commit(next: Manifest, now: nat) returns (r: Result<(), Cursor.FormatError>)
      requires Valid()
      modifies this, files.a, files.b
      ensures Valid()
      ensures r.Ok? <==> Encode(Slots.Stamp(old(current), next, now)).Ok?
      ensures r.Err? ==> State() == old(State())
      ensures r.Ok? ==> State() == Slots.Uninterrupted(old(State()), next, now)
      ensures r.Ok? ==>
        && current.entries == next.entries && current.updated == now
        && current.uuid == old(current).uuid && current.created == old(current).created
        && current.sequence == Min(old(current).sequence + 1, U64 - 1)
    {
      hide Payload;
      r := Write(Slots.Stamp(current, next, now));
    }
  }

  /** Adopt the authoritative slot, if there is one; nothing on disk is no database. */
  method Load(files: Files) returns (r: Result<Option<Store>, ()>)
    requires files.a != files.b
    ensures var s := files.State(Slots.Down);
      match r
      case Ok(Some(store)) =>
        fresh(store) && store.Valid() && store.files == files && store.State() == Slots.Next(s, Slots.Load)
        && Slots.ScanPair(s.live).chosen.Some?
      case Ok(None) => s.live == Slots.Pair([], [])
      case Err(_) => Slots.Unreadable(s)
  {
    hide Slots.ScanSlots;
    var a := if files.a.live == [] then None else Some(files.a.live);
    var b := if files.b.live == [] then None else Some(files.b.live);
    if a.None? && b.None? {
      return Ok(None);
    }
    var scan := ScanSlots(a, b);
    match scan.chosen
    case None => r := Err(());
    case Some((slot, m)) =>
      var store := new Store(files, m, slot);
      r := Ok(Some(store));
  }
}
