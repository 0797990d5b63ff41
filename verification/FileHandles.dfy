/**
 The file-handle table of recomp-runtime/kernel_file.c: opening, creating, marking
 for deletion and closing, over profile paths whose sharing and pending deletions
 the table itself enforces.  What the host file system answers comes from outside.
 The ghost clock dates every registration and every mark.
 */
module FileHandles {
  import opened MachineWords

  const SLOTS := 256
  const MAX_PATH := 512

  datatype Kind = HostFile | Directory | Pseudo

  /** The rights in a request that the code looks at. */
  datatype Access = Access(genericAll: bool, genericRead: bool, genericWrite: bool, genericExecute: bool, delete: bool,
                           readData: bool, writeData: bool, appendData: bool, execute: bool, writeAttributes: bool)

  /** The three sharing rights. */
  datatype Share = Share(read: bool, write: bool, delete: bool)

  datatype Status = Success | InvalidHandle | InvalidParameter | NotFound | NoMemory | DeletePending | SharingViolation
    | AccessDenied | CannotDelete | NotEmpty | NotADirectory | Collision | Unsuccessful | InfoLengthMismatch

  datatype Entry = Entry(active: bool, handle: nat, kind: Kind, path: string, access: Share, share: Share, writable: bool,
                         deleteAccess: bool, deleteOnClose: bool, native: bool)

  const CLOSED: Entry := Entry(false, 0, Pseudo, "", Share(false, false, false), Share(false, false, false), false, false, false, false)

  // ------------------------------------------------------------------- paths

  function Folded(s: string): (r: string)
    ensures |r| == |s|
  {
    seq(|s|, i requires 0 <= i < |s| => Fold(s[i]))
  }

  predicate SamePath(a: string, b: string) { Folded(a) == Folded(b) }

  /** A path at a given one, or below it. */
  predicate AtOrBelow(base: string, path: string, below: bool) {
    |base| <= |path| && Folded(path[..|base|]) == Folded(base) && (|path| == |base| || (below && path[|base|] == '\\'))
  }

  /** Saved-game paths; there are none without a disc root. */
  predicate IsProfile(root: Option<string>, path: string) {
    root.Some? && |root.value| <= |path| && Folded(path[..|root.value|]) == Folded(root.value)
    && (|path| == |root.value| || path[|root.value|] in {'\\', '/'})
  }

  lemma FoldedAt(a: string, b: string, n: nat)
    requires SamePath(a, b) && n <= |a|
    ensures |a| == |b| && Folded(a[..n]) == Folded(b[..n])
  {
    assert |Folded(a)| == |Folded(b)|;
    forall i | 0 <= i < n ensures Folded(a[..n])[i] == Folded(b[..n])[i] {
      assert Folded(a)[i] == Folded(b)[i];
    }
  }

  /** Profile paths do not depend on case. */
  lemma SameProfile(root: Option<string>, a: string, b: string)
    requires SamePath(a, b) && IsProfile(root, a)
    ensures IsProfile(root, b)
  {
    var n := |root.value|;
    FoldedAt(a, b, n);
    if |a| > n {
      assert Folded(a)[n] == Folded(b)[n];
    }
  }

  // ----------------------------------------------------------------- sharing

  function SharingAccess(a: Access): Share {
    Share(a.genericRead || a.genericExecute || a.readData || a.execute,
          a.genericWrite || a.writeData || a.appendData, a.delete)
  }

  predicate Within(access: Share, share: Share) {
    (access.read ==> share.read) && (access.write ==> share.write) && (access.delete ==> share.delete)
  }

  predicate Live(e: Entry) { e.active && e.kind != Pseudo }

  /** Two handles on one profile path allow each other. */
  predicate Compatible(root: Option<string>, a: Entry, b: Entry) {
    Live(a) && Live(b) && IsProfile(root, a.path) && SamePath(a.path, b.path) ==>
      Within(a.access, b.share) && Within(b.access, a.share)
  }

  predicate Pends(e: Entry, path: string) {
    e.active && e.deleteOnClose && AtOrBelow(e.path, path, e.kind == Directory)
  }

  /** One handle was there before another marked its path, or a directory above it. */
  predicate Before(root: Option<string>, marked: Entry, markedAt: nat, other: Entry, bornAt: nat) {
    Live(other) && IsProfile(root, other.path) && Pends(marked, other.path) ==> bornAt < markedAt
  }

  ghost predicate Dated(root: Option<string>, entries: seq<Entry>, born: seq<nat>, marked: seq<nat>, i: nat, j: nat)
    requires i < |entries| == |born| == |marked| && j < |entries|
  {
    Before(root, entries[i], marked[i], entries[j], born[j])
  }

  ghost predicate Sharing(root: Option<string>, entries: seq<Entry>, i: nat, j: nat)
    requires i < |entries| && j < |entries|
  {
    Compatible(root, entries[i], entries[j])
  }

  predicate Numbered(entries: seq<Entry>, i: nat, j: nat)
    requires i < |entries| && j < |entries|
  {
    entries[i].active && entries[j].active ==> entries[i].handle != entries[j].handle
  }

  /** What every run of operations keeps. */
  ghost predicate Sound(root: Option<string>, entries: seq<Entry>, next: nat, born: seq<nat>, marked: seq<nat>, clock: nat) {
    && |entries| == |born| == |marked| == SLOTS && next > 0
    && (forall i :: 0 <= i < SLOTS && entries[i].active ==>
          0 < entries[i].handle < next && |entries[i].path| < MAX_PATH && born[i] < clock)
    && (root.Some? ==> root.value != "")
    && (forall i :: 0 <= i < SLOTS && entries[i].active && entries[i].kind == Pseudo ==> entries[i].path == "")
    && (forall i :: 0 <= i < SLOTS && entries[i].active && entries[i].deleteOnClose ==>
          Live(entries[i]) && IsProfile(root, entries[i].path) && entries[i].deleteAccess)
    && (forall i, j :: 0 <= i < SLOTS && 0 <= j < SLOTS && i != j ==> Numbered(entries, i, j))
    && (forall i, j :: 0 <= i < SLOTS && 0 <= j < SLOTS && i != j ==> Sharing(root, entries, i, j))
    && (forall i, j :: 0 <= i < SLOTS && 0 <= j < SLOTS ==> Dated(root, entries, born, marked, i, j))
  }

  predicate Free(entries: seq<Entry>, path: string) {
    forall i :: 0 <= i < |entries| ==> !Pends(entries[i], path)
  }

  /** A new entry may be entered when nothing on its path objects. */
  lemma Entered(root: Option<string>, entries: seq<Entry>, next: nat, born: seq<nat>, marked: seq<nat>, clock: nat,
                i: nat, e: Entry)
    requires Sound(root, entries, next, born, marked, clock) && i < SLOTS && !entries[i].active
    requires e.active && e.handle == next && |e.path| < MAX_PATH && !e.deleteOnClose && (e.kind == Pseudo ==> e.path == "")
    requires forall j :: 0 <= j < SLOTS ==> Compatible(root, entries[j], e)
    requires Live(e) && IsProfile(root, e.path) ==> Free(entries, e.path)
    ensures Sound(root, entries[i := e], next + 4, born[i := clock], marked, clock + 1)
  {
    var t, b := entries[i := e], born[i := clock];
    forall j, k | 0 <= j < SLOTS && 0 <= k < SLOTS && j != k ensures Numbered(t, j, k) && Sharing(root, t, j, k) {
      assert Numbered(entries, j, k) && Sharing(root, entries, j, k);
      if j == i {
        assert Compatible(root, entries[k], e);
        if SamePath(e.path, entries[k].path) && IsProfile(root, e.path) { SameProfile(root, e.path, entries[k].path); }
      } else if k == i {
        assert Compatible(root, entries[j], e);
      }
    }
    forall j, k | 0 <= j < SLOTS && 0 <= k < SLOTS ensures Dated(root, t, b, marked, j, k) {
      assert Dated(root, entries, born, marked, j, k);
      if k == i && j != i {
        assert !Pends(entries[j], e.path) || !(Live(e) && IsProfile(root, e.path));
      }
    }
  }

  /** A handle marked now: everything open was there before. */
  lemma MarkedNow(root: Option<string>, entries: seq<Entry>, next: nat, born: seq<nat>, marked: seq<nat>, clock: nat, i: nat)
    requires Sound(root, entries, next, born, marked, clock) && i < SLOTS
    requires Live(entries[i]) && IsProfile(root, entries[i].path) && entries[i].deleteAccess
    ensures Sound(root, entries[i := entries[i].(deleteOnClose := true)], next, born, marked[i := clock], clock + 1)
  {
    var t, m := entries[i := entries[i].(deleteOnClose := true)], marked[i := clock];
    forall j, k | 0 <= j < SLOTS && 0 <= k < SLOTS ensures Dated(root, t, born, m, j, k) {
      assert Dated(root, entries, born, marked, j, k);
    }
    forall j, k | 0 <= j < SLOTS && 0 <= k < SLOTS && j != k ensures Numbered(t, j, k) && Sharing(root, t, j, k) {
      assert Numbered(entries, j, k) && Sharing(root, entries, j, k);
    }
  }

  /** A mark taken back, or a handle closed. */
  lemma Relaxed(root: Option<string>, entries: seq<Entry>, next: nat, born: seq<nat>, marked: seq<nat>, clock: nat,
                i: nat, e: Entry)
    requires Sound(root, entries, next, born, marked, clock) && i < SLOTS
    requires e == entries[i].(deleteOnClose := false) || e == entries[i].(active := false)
    ensures Sound(root, entries[i := e], next, born, marked, clock)
  {
    var t := entries[i := e];
    forall j, k | 0 <= j < SLOTS && 0 <= k < SLOTS ensures Dated(root, t, born, marked, j, k) {
      assert Dated(root, entries, born, marked, j, k);
    }
    forall j, k | 0 <= j < SLOTS && 0 <= k < SLOTS && j != k ensures Numbered(t, j, k) && Sharing(root, t, j, k) {
      assert Numbered(entries, j, k) && Sharing(root, entries, j, k);
    }
  }

  // -------------------------------------------------------- what the host says

  /** What stands at a path about to be deleted. */
  datatype Probe = Missing | ReadOnly | Ordinary(listing: Listing)

  datatype Listing = Unlistable | Empty | Filled

  /** Where a guest name leads. */
  datatype Lookup = NoName                     // unreadable, or not a path of the disc or the saves
    | Raw(path: string, ready: bool)           // the raw partition
    | Rejected(path: string, status: Status)   // not a valid path
    | At(path: string, writable: bool)

  /** What the host finds there.  A name that is missing may be found in the one
      directory of the disc root, which is never a profile path. */
  datatype Found = File(path: string) | Refused(status: Status) | Folder(path: string) | Nothing

  ghost predicate Plausible(root: Option<string>, lookup: Lookup, found: Found) {
    && (lookup.Raw? ==> |lookup.path| < MAX_PATH && !IsProfile(root, lookup.path))
    && (lookup.Rejected? ==> |lookup.path| < MAX_PATH && lookup.status in {InvalidParameter, InvalidHandle})
    && (lookup.At? ==> |lookup.path| < MAX_PATH)
    && (found.Refused? ==> found.status in {SharingViolation, AccessDenied} && lookup.At? && IsProfile(root, lookup.path))
    && (found.File? || found.Folder? ==>
        |found.path| < MAX_PATH && ((lookup.At? && found.path == lookup.path) || !IsProfile(root, found.path)))
  }

  /** What a resolved name comes to. */
  datatype Resolved = Resolved(path: string, native: bool, folder: bool, writable: bool, status: Status)

  class Table {
    const root: Option<string>
    var entries: seq<Entry>
    var next: nat
    ghost var born: seq<nat>
    ghost var marked: seq<nat>
    ghost var clock: nat

    ghost predicate Valid()
      reads this
    {
      Sound(root, entries, next, born, marked, clock)
    }

    constructor (root: Option<string>)
      requires root.Some? ==> root.value != ""
      ensures Valid() && this.root == root && next == 1 && forall i :: 0 <= i < SLOTS ==> !entries[i].active
    {
      this.root := root;
      entries, next := seq(SLOTS, _ => CLOSED), 1;
      born, marked, clock := seq(SLOTS, _ => 0), seq(SLOTS, _ => 0), 0;
    }

    /** The slot of a handle. */
    method Find(handle: nat) returns (slot: nat)
      requires Valid()
      ensures slot <= SLOTS && (slot < SLOTS ==> entries[slot].active && entries[slot].handle == handle)
      ensures slot == SLOTS ==> forall i :: 0 <= i < SLOTS ==> !(entries[i].active && entries[i].handle == handle)
    {
      slot := 0;
      while slot < SLOTS
        invariant slot <= SLOTS
        invariant forall i :: 0 <= i < slot ==> !(entries[i].active && entries[i].handle == handle)
      {
        if entries[slot].active && entries[slot].handle == handle { return; }
        slot := slot + 1;
      }
    }

    /** Whether some live handle on a path rules a request out. */
    method Conflict(path: string, access: Access, share: Share) returns (conflict: bool)
      requires Valid()
      ensures conflict <==> exists i :: 0 <= i < SLOTS && Objects(entries[i], path, SharingAccess(access), share)
    {
      var wanted := SharingAccess(access);
      var i := 0;
      while i < SLOTS
        invariant i <= SLOTS && forall j :: 0 <= j < i ==> !Objects(entries[j], path, wanted, share)
      {
        var e := entries[i];
        if e.active && e.kind != Pseudo && SamePath(e.path, path) && (!Within(wanted, e.share) || !Within(e.access, share)) {
          assert Objects(entries[i], path, wanted, share);
          return true;
        }
        i := i + 1;
      }
      return false;
    }

    /** Whether a path, or a directory above it, waits to be deleted. */
    method DeletePendingAt(path: string) returns (pending: bool)
      requires Valid()
      ensures pending <==> !Free(entries, path)
    {
      var i := 0;
      while i < SLOTS
        invariant i <= SLOTS && forall j :: 0 <= j < i ==> !Pends(entries[j], path)
      {
        if Pends(entries[i], path) { return true; }
        i := i + 1;
      }
      return false;
    }

    /** Enter a handle into the first free slot. */
    method Register(kind: Kind, path: string, access: Access, share: Share, writable: bool, native: bool)
      returns (handle: nat, status: Status, ghost slot: nat)
      requires Valid() && |path| < MAX_PATH && (kind == Pseudo ==> path == "")
      requires kind != Pseudo && IsProfile(root, path) ==> Free(entries, path)
      modifies this`entries, this`next, this`born, this`clock
      ensures Valid()
      ensures handle == 0 <==> status != Success
      ensures status == if Opposed(root, old(entries), kind, path, access, share) then SharingViolation
                        else if Full(old(entries)) then NoMemory else Success
      ensures handle == 0 ==> entries == old(entries) && next == old(next)
      ensures handle != 0 ==>
        && handle == old(next) && next == old(next) + 4 && slot < SLOTS && !old(entries)[slot].active
        && entries == old(entries)[slot := Entry(true, handle, kind, path, SharingAccess(access), share, writable, access.delete, false, native)]
    {
      slot := 0;
      var profile := kind != Pseudo && IsProfile(root, path);
      if profile {
        var conflict := Conflict(path, access, share);
        if conflict { return 0, SharingViolation, 0; }
      }
      var i := 0;
      while i < SLOTS && entries[i].active
        invariant i <= SLOTS && forall j :: 0 <= j < i ==> entries[j].active
      {
        i := i + 1;
      }
      if i == SLOTS { return 0, NoMemory, 0; }
      slot, handle := i, next;
      var e := Entry(true, handle, kind, path, SharingAccess(access), share, writable, access.delete, false, native);
      NoObjection(root, entries, e, profile);
      Entered(root, entries, next, born, marked, clock, i, e);
      entries, next := entries[i := e], next + 4;
      born, clock := born[slot := clock], clock + 1;
      return handle, Success, slot;
    }

    /** Mark a profile handle for deletion when it is closed. */
    method RequestDelete(slot: nat, probe: Probe) returns (status: Status)
      requires Valid() && slot < SLOTS
      requires Live(entries[slot]) && IsProfile(root, entries[slot].path) && entries[slot].deleteAccess
      modifies this`entries, this`marked, this`clock
      ensures Valid() && status == MarkStatus(true, old(entries)[slot].kind, probe)
      ensures entries == if status == Success then old(entries)[slot := old(entries)[slot].(deleteOnClose := true)] else old(entries)
    {
      if probe.Missing? { return NotFound; }
      if probe.ReadOnly? { return CannotDelete; }
      var listing := if entries[slot].kind == Directory then probe.listing else Empty;
      if listing == Filled { return NotEmpty; }
      if listing == Unlistable { return AccessDenied; }
      MarkedNow(root, entries, next, born, marked, clock, slot);
      entries := entries[slot := entries[slot].(deleteOnClose := true)];
      marked, clock := marked[slot := clock], clock + 1;
      return Success;
    }

    /** Close a handle that could not be opened as asked. */
    method Drop(slot: nat)
      requires Valid() && slot < SLOTS
      modifies this`entries
      ensures Valid() && entries == old(entries)[slot := old(entries)[slot].(active := false)]
    {
      Relaxed(root, entries, next, born, marked, clock, slot, entries[slot].(active := false));
      entries := entries[slot := entries[slot].(active := false)];
    }

    /** What the option to delete on closing does to the handle just opened. */
    method ApplyDeleteOnClose(handle: nat, option: bool, status: Status, probe: Probe) returns (kept: nat, result: Status, ghost slot: nat)
      requires Valid() && (handle == 0 <==> status != Success)
      modifies this`entries, this`marked, this`clock
      ensures Valid() && (kept == 0 <==> result != Success) && (kept == 0 || kept == handle)
      ensures result in {SharingViolation, DeletePending} ==> result == status
      ensures slot < SLOTS ==> old(entries)[slot].active && old(entries)[slot].handle == handle
      ensures slot >= SLOTS || !option || handle == 0 || !IsProfile(root, old(entries)[slot].path) ==>
        entries == old(entries) && kept == handle && result == status
      ensures slot >= SLOTS ==> !option || handle == 0 || forall i :: 0 <= i < SLOTS ==> !(entries[i].active && entries[i].handle == handle)
      ensures slot < SLOTS && option && handle != 0 && IsProfile(root, old(entries)[slot].path) ==>
        var e := old(entries)[slot];
        OptionHits(old(entries), entries, slot, kept, probe) && result == MarkStatus(e.deleteAccess, e.kind, probe)
    {
      kept, result, slot := handle, status, SLOTS;
      if !option || handle == 0 || status != Success { return; }
      var at := Find(handle);
      slot := at;
      if at == SLOTS { return; }
      if !IsProfile(root, entries[at].path) { return; }
      if !entries[at].deleteAccess {
        result := InvalidParameter;
      } else {
        result := RequestDelete(at, probe);
      }
      if result != Success {
        Drop(at);
        kept := 0;
      }
    }

    /** Register a handle and apply the option to it. */
    method Place(kind: Kind, path: string, access: Access, share: Share, writable: bool, deleteOnClose: bool,
                 probe: Probe) returns (status: Status, handle: nat, ghost slot: nat)
      requires Valid() && |path| < MAX_PATH && (kind == Pseudo ==> path == "" && !writable)
      requires kind != Pseudo && IsProfile(root, path) ==> Free(entries, path)
      modifies this
      ensures Valid()
      ensures Answered(root, old(entries), entries, old(next), slot, status, handle, Opens(kind, path), access, share, writable,
                       deleteOnClose, probe)
    {
      handle, status, slot := Register(kind, path, access, share, writable, kind == HostFile);
      ghost var middle, registered := entries, handle;
      handle, status, slot := ApplyToNew(slot, handle, deleteOnClose, status, probe);
      PlaceAnswered(root, old(entries), middle, entries, old(next), slot, registered, status, handle, kind, path, access, share,
                    writable, deleteOnClose, probe);
    }

    /** The option applied to a handle that this call has registered. */
    method ApplyToNew(ghost at: nat, handle: nat, option: bool, status: Status, probe: Probe)
      returns (kept: nat, result: Status, ghost slot: nat)
      requires Valid() && (handle == 0 <==> status != Success)
      requires handle != 0 ==> at < SLOTS && entries[at].active && entries[at].handle == handle
      modifies this`entries, this`marked, this`clock
      ensures Valid() && slot == at
      ensures handle != 0 && option && IsProfile(root, old(entries)[at].path) ==>
        var e := old(entries)[at];
        OptionHits(old(entries), entries, at, kept, probe) && (kept == 0 || kept == handle)
        && result == MarkStatus(e.deleteAccess, e.kind, probe)
      ensures !(handle != 0 && option && IsProfile(root, old(entries)[at].path)) ==>
        entries == old(entries) && kept == handle && result == status
    {
      kept, result, slot := ApplyDeleteOnClose(handle, option, status, probe);
      if handle != 0 && option {
        assert slot != at ==> Numbered(old(entries), slot, at);
      }
      slot := at;
    }

    /** Follow a guest name to the host; nothing that waits to be deleted is
        opened, made or made up. */
    method Resolve(lookup: Lookup, found: Found) returns (r: Resolved)
      requires Valid() && Plausible(root, lookup, found)
      ensures Followed(root, entries, lookup, found, r) && r == Resolution(entries, lookup, found)
    {
      match lookup {
        case NoName => return Resolved("", false, false, false, Success);
        case Raw(path, ready) => return Resolved(path, ready, false, true, if ready then Success else NotFound);
        case Rejected(path, status) => return Resolved(path, false, false, false, status);
        case At(path, writable) =>
          var pending := DeletePendingAt(path);
          if pending { return Resolved(path, false, false, false, DeletePending); }
          match found {
            case File(there) => return Resolved(there, true, false, writable, Success);
            case Refused(status) => return Resolved(path, false, false, writable, status);
            case Folder(there) => return Resolved(there, false, true, writable, Success);
            case Nothing => return Resolved(path, false, false, writable, NotFound);
          }
      }
    }

    /** Open what has been settled on: a file of the host, a directory, or a handle
        for something else. */
    method OpenSettled(r: Resolved, native: bool, settled: Status, access: Access, share: Share, deleteOnClose: bool,
                       probe: Probe) returns (status: Status, handle: nat, ghost slot: nat)
      requires Valid() && |r.path| < MAX_PATH
      requires (native || r.folder) && IsProfile(root, r.path) ==> Free(entries, r.path)
      modifies this
      ensures Valid()
      ensures Answered(root, old(entries), entries, old(next), slot, status, handle, SettledTarget(r, native, settled), access,
                       share, r.writable, deleteOnClose, probe)
    {
      status, handle, slot := settled, 0, 0;
      if native {
        status, handle, slot := Place(HostFile, r.path, access, share, r.writable, deleteOnClose, probe);
      } else if r.folder {
        status, handle, slot := Place(Directory, r.path, access, share, r.writable, deleteOnClose, probe);
      } else if status == Success {
        status, handle, slot := Place(Pseudo, "", access, share, false, deleteOnClose, probe);
      }
    }

    /** What NtOpenFile does with a name it has followed. */
    method OpenResolved(r: Resolved, access: Access, share: Share, deleteOnClose: bool, created: Status, probe: Probe,
                        ghost lookup: Lookup, ghost found: Found, ghost target: Target)
      returns (status: Status, handle: nat, ghost slot: nat)
      requires Valid() && Plausible(root, lookup, found)
      requires Followed(root, entries, lookup, found, r) && r == Resolution(entries, lookup, found)
      requires created in {Success, NotFound, Collision, SharingViolation, AccessDenied}
      requires target == OpenTarget(root, entries, lookup, found, access, created)
      modifies this
      ensures Valid()
      ensures Answered(root, old(entries), entries, old(next), slot, status, handle, target, ProfileAccess(root, r.path, access),
                       share, r.writable, deleteOnClose, probe)
      ensures target == Fails(DeletePending) <==> lookup.At? && !Free(old(entries), lookup.path)
      ensures target.Opens? ==>
        && (target.kind == Pseudo <==> lookup.NoName?) && (target.kind == Directory ==> found.Folder?)
        && (target.kind != Pseudo ==> target.path == r.path == PathOf(lookup, found) && r.writable == WritableBy(lookup))
    {
      var wanted := ProfileAccess(root, r.path, access);
      var native, settled := r.native, r.status;
      if wanted.genericWrite && r.writable && !r.folder {
        native, settled := created == Success, created;
      }
      OpensAsTold(root, entries, lookup, found, access, created, r, native, settled);
      status, handle, slot := OpenSettled(r, native, settled, wanted, share, deleteOnClose, probe);
    }

    /** NtOpenFile.  `created` is what opening for writing comes to on the host. */
    method OpenFile(lookup: Lookup, found: Found, access: Access, share: Share, deleteOnClose: bool,
                    created: Status, probe: Probe) returns (status: Status, handle: nat, ghost slot: nat)
      requires Valid() && Plausible(root, lookup, found)
      requires created in {Success, NotFound, Collision, SharingViolation, AccessDenied}
      modifies this
      ensures Valid() && (handle == 0 <==> status != Success)
      ensures handle != 0 ==>
        && Opened(root, old(entries), entries, slot, handle, deleteOnClose) && handle == old(next)
        && (entries[slot].kind == Pseudo <==> lookup.NoName?) && entries[slot].share == share
        && Made(root, entries[slot], lookup, found, access, share)
        && (entries[slot].kind == Directory ==> found.Folder?)
      ensures handle == 0 ==> SameActive(old(entries), entries)
      ensures status == DeletePending <==> lookup.At? && !Free(old(entries), lookup.path)
      ensures var wanted := ProfileAccess(root, Resolution(old(entries), lookup, found).path, access);
        var target := OpenTarget(root, old(entries), lookup, found, access, created);
        status == Answer(root, old(entries), target, wanted, share, deleteOnClose, probe)
    {
      var r := Resolve(lookup, found);
      ghost var target := OpenTarget(root, entries, lookup, found, access, created);
      status, handle, slot := OpenResolved(r, access, share, deleteOnClose, created, probe, lookup, found, target);
      OpenedAsTold(root, old(entries), entries, old(next), slot, status, handle, target, lookup, found, access, r, share,
                   deleteOnClose, probe);
    }

    /** The disposition information of NtSetInformationFile: mark a profile handle
        for deletion, or take the mark back.  `refused` says that a save in
        progress forbids it. */
    method SetDisposition(handle: nat, remove: bool, given: bool, refused: bool, probe: Probe) returns (status: Status, ghost slot: nat)
      requires Valid()
      modifies this`entries, this`marked, this`clock
      ensures Valid() && (slot < SLOTS <==> status != InvalidHandle)
      ensures slot < SLOTS ==> old(entries)[slot].active && old(entries)[slot].handle == handle
      ensures slot < SLOTS && IsProfile(root, old(entries)[slot].path) ==>
        var e := old(entries)[slot];
        var allowed := !refused && given && e.deleteAccess;
        && (status == Success <==> allowed && (remove ==> probe.Ordinary? && (e.kind == Directory ==> probe.listing == Empty)))
        && entries == if status == Success then old(entries)[slot := e.(deleteOnClose := remove)] else old(entries)
      ensures slot < SLOTS && !IsProfile(root, old(entries)[slot].path) ==> status == Success && entries == old(entries)
      ensures slot == SLOTS ==> entries == old(entries)
    {
      var at := Find(handle);
      slot := at;
      if at == SLOTS { return InvalidHandle, at; }
      var profile := IsProfile(root, entries[at].path);
      if profile && refused { return Unsuccessful, at; }
      if !profile { return Success, at; }
      if !given { return InfoLengthMismatch, at; }
      if !entries[at].deleteAccess { return AccessDenied, at; }
      if !remove {
        Relaxed(root, entries, next, born, marked, clock, at, entries[at].(deleteOnClose := false));
        entries := entries[at := entries[at].(deleteOnClose := false)];
        return Success, at;
      }
      status := RequestDelete(at, probe);
    }

    /** Close a handle, and delete its path if it is marked.  `refused` says that a
        save in progress keeps the file; `flushed`, `closed` and `removed` are how
        the host's calls end. */
    method Close(handle: nat, refused: bool, flushed: bool, closed: bool, removed: bool)
      returns (status: Status, deleted: Option<string>, ghost slot: nat)
      requires Valid()
      modifies this`entries
      ensures Valid()
      ensures slot == SLOTS ==> entries == old(entries) && deleted == None && status == Success
      ensures slot < SLOTS ==>
        var e := old(entries)[slot];
        && e.active && e.handle == handle
        && entries == (if e.native && !closed then old(entries) else old(entries)[slot := e.(active := false)])
        // only a marked handle that is really closed deletes, and only its own path
        && deleted == (if e.deleteOnClose && !refused && (!e.native || closed) then Some(e.path) else None)
        && (status == Success <==>
             (e.native ==> flushed && closed) && !(e.deleteOnClose && refused) && (deleted.Some? ==> removed))
    {
      status, deleted := Success, None;
      var at := Find(handle);
      slot := at;
      if at == SLOTS { return; }
      var e := entries[at];
      var delete := e.deleteOnClose;
      if delete && refused {
        status := Unsuccessful;
        delete := false;
      }
      var shut := true;
      if e.native {
        if !flushed { status := Unsuccessful; }
        if !closed {
          status := Unsuccessful;
          shut := false;
        }
      }
      if shut {
        Relaxed(root, entries, next, born, marked, clock, at, e.(active := false));
        entries := entries[at := e.(active := false)];
      }
      if delete && shut {
        deleted := Some(e.path);
        if !removed { status := AccessDenied; }
      }
    }

    /** Make or replace a file, unless a handle on it forbids that. */
    method Make(path: string, access: Access, share: Share, host: HostAnswers, deleteOnClose: bool, probe: Probe)
      returns (status: Status, handle: nat, ghost slot: nat)
      requires Valid() && |path| < MAX_PATH && (IsProfile(root, path) ==> Free(entries, path))
      requires host.created in {Success, NotFound, Collision, SharingViolation, AccessDenied}
      modifies this
      ensures Valid() && (handle == 0 <==> status != Success)
      ensures var target := MakeTarget(root, old(entries), path, access, share, host);
        Answered(root, old(entries), entries, old(next), slot, status, handle, target, access, share, true, deleteOnClose, probe)
    {
      handle, slot := 0, 0;
      var created := NotFound;
      var conflict := false;
      if IsProfile(root, path) { conflict := Conflict(path, access, share); }
      if conflict {
        created := SharingViolation;
      } else if host.parentMade {
        created := host.created;
      }
      status := created;
      if created == Success {
        status, handle, slot := Place(HostFile, path, access, share, true, deleteOnClose, probe);
      }
    }

    /** A directory, once it has been made. */
    method TakeDirectory(path: string, access: Access, share: Share, host: HostAnswers, deleteOnClose: bool, probe: Probe)
      returns (status: Status, handle: nat, ghost slot: nat)
      requires Valid() && |path| < MAX_PATH && (IsProfile(root, path) ==> Free(entries, path))
      modifies this
      ensures Valid()
      ensures Answered(root, old(entries), entries, old(next), slot, status, handle, DirectoryTarget(path, host), access, share,
                       true, deleteOnClose, probe)
    {
      handle, slot := 0, 0;
      if host.directoryNow == Absent {
        status := NotFound;
      } else if host.directoryNow == Plain {
        status := NotADirectory;
      } else {
        status, handle, slot := Place(Directory, path, access, share, true, deleteOnClose, probe);
      }
    }

    /** What NtCreateFile does with a name it has followed. */
    method CreateResolved(ghost lookup: Lookup, ghost found: Found, r: Resolved, access: Access, share: Share, disposition: nat,
                          directory: bool, deleteOnClose: bool, host: HostAnswers, probe: Probe)
      returns (status: Status, handle: nat, ghost slot: nat)
      requires Valid() && Followed(root, entries, lookup, found, r)
      requires host.created in {Success, NotFound, Collision, SharingViolation, AccessDenied}
      modifies this
      ensures Valid() && (handle == 0 <==> status != Success)
      ensures Unregistered(lookup, access) && !(deleteOnClose && exists i :: IsFirst(root, old(entries), i)) ==>
        handle == 1 && entries == old(entries)
      ensures Unregistered(lookup, access) && deleteOnClose ==>
        forall i: nat :: IsFirst(root, old(entries), i) ==> OptionHits(old(entries), entries, i, handle, probe)
      ensures !Unregistered(lookup, access) ==>
        var wanted := ProfileAccess(root, r.path, access);
        var target := CreateTarget(root, old(entries), r, wanted, share, disposition, directory, deleteOnClose, host);
        Answered(root, old(entries), entries, old(next), slot, status, handle, target, wanted, share, r.writable, deleteOnClose,
                 probe)
    {
      handle, slot := 0, 0;
      status := r.status;
      var profile := IsProfile(root, r.path);
      var wanted := ProfileAccess(root, r.path, access);
      if profile && deleteOnClose && !wanted.delete {
        status := InvalidParameter;
      } else if r.writable && directory {
        status, handle, slot := TakeDirectory(r.path, wanted, share, host, deleteOnClose, probe);
      } else if Makes(r, wanted, disposition) {
        status, handle, slot := Make(r.path, wanted, share, host, deleteOnClose, probe);
      } else {
        status, handle, slot := TakeFound(lookup, found, r, access, share, disposition, deleteOnClose, probe);
      }
    }

    /** NtCreateFile.  The host says what stands at the path once directories have
        been made, whether the parent is there, and what creating comes to. */
    method CreateFile(lookup: Lookup, found: Found, access: Access, share: Share, disposition: nat, directory: bool,
                      deleteOnClose: bool, host: HostAnswers, probe: Probe)
      returns (status: Status, handle: nat, ghost slot: nat)
      requires Valid() && Plausible(root, lookup, found)
      requires host.created in {Success, NotFound, Collision, SharingViolation, AccessDenied}
      modifies this
      ensures Valid() && (handle == 0 <==> status != Success)
      // one path through the code registers nothing and returns handle 1
      ensures Unregistered(lookup, access) && !(deleteOnClose && exists i :: IsFirst(root, old(entries), i)) ==>
        handle == 1 && entries == old(entries)
      // with the option, the handle that is numbered 1 is marked or closed, whoever has it
      ensures Unregistered(lookup, access) && deleteOnClose ==>
        forall i: nat :: IsFirst(root, old(entries), i) ==> OptionHits(old(entries), entries, i, handle, probe)
      // on every other path a handle that is returned is new
      ensures !Unregistered(lookup, access) && handle != 0 ==>
        && Opened(root, old(entries), entries, slot, handle, deleteOnClose) && handle == old(next)
        && entries[slot].share == share
        && Made(root, entries[slot], lookup, found, access, share)
        && (entries[slot].kind == HostFile ==> found.File? || lookup.Raw? || host.created == Success)
        && (entries[slot].kind == Directory ==> found.Folder? || (directory && host.directoryNow == IsDirectory))
      ensures !Unregistered(lookup, access) && handle == 0 ==> SameActive(old(entries), entries)
      ensures lookup.At? && !Free(old(entries), lookup.path) ==> handle == 0
      ensures !Unregistered(lookup, access) ==>
        var r := Resolution(old(entries), lookup, found);
        var wanted := ProfileAccess(root, r.path, access);
        var target := CreateTarget(root, old(entries), r, wanted, share, disposition, directory, deleteOnClose, host);
        status == Answer(root, old(entries), target, wanted, share, deleteOnClose, probe)
    {
      var r := Resolve(lookup, found);
      status, handle, slot := CreateResolved(lookup, found, r, access, share, disposition, directory, deleteOnClose, host, probe);
      if !Unregistered(lookup, access) {
        CreatesAsTold(root, old(entries), lookup, found, access, share, disposition, directory, deleteOnClose, host, r);
        ghost var wanted := ProfileAccess(root, r.path, access);
        ghost var target :=
          CreateTarget(root, old(entries), r, wanted, share, disposition, directory, deleteOnClose, host);
        PlacedAsTold(root, old(entries), entries, old(next), slot, handle, target, lookup, found, access, r, share, deleteOnClose);
      }
    }

    /** Nothing is to be made: what was found is opened, or a handle made up. */
    method TakeFound(ghost lookup: Lookup, ghost found: Found, r: Resolved, access: Access, share: Share, disposition: nat,
                     deleteOnClose: bool, probe: Probe) returns (status: Status, handle: nat, ghost slot: nat)
      requires Valid() && Followed(root, entries, lookup, found, r)
      modifies this
      ensures Valid() && (handle == 0 <==> status != Success)
      ensures Unregistered(lookup, access) && !(deleteOnClose && exists i :: IsFirst(root, old(entries), i)) ==>
        handle == 1 && entries == old(entries)
      ensures Unregistered(lookup, access) && deleteOnClose ==>
        forall i: nat :: IsFirst(root, old(entries), i) ==> OptionHits(old(entries), entries, i, handle, probe)
      ensures !Unregistered(lookup, access) ==>
        var wanted := ProfileAccess(root, r.path, access);
        var target := FoundTarget(r, wanted, disposition);
        Answered(root, old(entries), entries, old(next), slot, status, handle, target, wanted, share, r.writable, deleteOnClose,
                 probe)
    {
      status, handle, slot := r.status, 0, 0;
      var wanted := ProfileAccess(root, r.path, access);
      if !r.native && !r.folder && status != Success {
        if status == NotFound && disposition != FILE_OPEN {
          status, handle, slot := Place(Pseudo, "", wanted, share, false, deleteOnClose, probe);
        }
      } else if wanted.genericWrite {
        status, handle, slot := Place(Pseudo, "", wanted, share, false, deleteOnClose, probe);
      } else if r.native {
        status, handle, slot := Place(HostFile, r.path, wanted, share, r.writable, deleteOnClose, probe);
      } else if r.folder {
        status, handle, slot := Place(Directory, r.path, wanted, share, r.writable, deleteOnClose, probe);
      } else {
        status, handle := ApplyToFirst(deleteOnClose, probe);
      }
    }

    /** The option applied to a handle that was not registered by this call. */
    method ApplyToFirst(deleteOnClose: bool, probe: Probe) returns (status: Status, handle: nat)
      requires Valid()
      modifies this`entries, this`marked, this`clock
      ensures Valid() && (handle == 0 <==> status != Success)
      ensures !(deleteOnClose && exists i :: IsFirst(root, old(entries), i)) ==> handle == 1 && entries == old(entries)
      ensures deleteOnClose ==>
        forall i: nat :: IsFirst(root, old(entries), i) ==> OptionHits(old(entries), entries, i, handle, probe)
    {
      ghost var at;
      handle, status, at := ApplyDeleteOnClose(1, deleteOnClose, Success, probe);
      assert at < SLOTS && IsProfile(root, old(entries)[at].path) ==> IsFirst(root, old(entries), at);
      forall i: nat | IsFirst(root, old(entries), i) && deleteOnClose ensures i == at {
        assert i != at && at < SLOTS ==> Numbered(old(entries), i, at);
      }
    }
  }

  const FILE_OPEN := 1
  const FILE_OPEN_IF := 3

  datatype Standing = Absent | Plain | IsDirectory

  datatype HostAnswers = HostAnswers(directoryNow: Standing, parentMade: bool, created: Status)

  /** A name that cannot be followed, opened without write access. */
  predicate Unregistered(lookup: Lookup, access: Access) {
    lookup.NoName? && !access.genericWrite
  }

  /** The handle numbered 1, on a profile path. */
  predicate IsFirst(root: Option<string>, entries: seq<Entry>, i: nat) {
    i < |entries| && entries[i].active && entries[i].handle == 1 && IsProfile(root, entries[i].path)
  }

  /** Some live handle on a profile path objects to a new one. */
  predicate Opposed(root: Option<string>, entries: seq<Entry>, kind: Kind, path: string, access: Access, share: Share) {
    kind != Pseudo && IsProfile(root, path) &&
    exists i :: 0 <= i < |entries| && Objects(entries[i], path, SharingAccess(access), share)
  }

  predicate Full(entries: seq<Entry>) { forall i :: 0 <= i < |entries| ==> entries[i].active }

  /** How marking a handle for deletion ends. */
  function MarkStatus(deleteAccess: bool, kind: Kind, probe: Probe): (r: Status)
    ensures r == Success <==> deleteAccess && probe.Ordinary? && (kind == Directory ==> probe.listing == Empty)
    ensures r in {Success, InvalidParameter, NotFound, CannotDelete, NotEmpty, AccessDenied}
  {
    if !deleteAccess then InvalidParameter
    else match probe
      case Missing => NotFound
      case ReadOnly => CannotDelete
      case Ordinary(listing) =>
        if kind != Directory || listing == Empty then Success else if listing == Filled then NotEmpty else AccessDenied
  }

  /** How asking for a new handle ends: it takes the consent of the others, a free
      slot, and a path that can be marked if that is asked for. */
  function PlaceStatus(root: Option<string>, entries: seq<Entry>, kind: Kind, path: string, access: Access, share: Share,
                       deleteOnClose: bool, probe: Probe): Status {
    if Opposed(root, entries, kind, path, access, share) then SharingViolation
    else if Full(entries) then NoMemory
    else if deleteOnClose && kind != Pseudo && IsProfile(root, path) then MarkStatus(access.delete, kind, probe)
    else Success
  }

  /** What a request is led to: a refusal, or something to open. */
  datatype Target = Fails(status: Status) | Opens(kind: Kind, path: string)

  function Answer(root: Option<string>, entries: seq<Entry>, target: Target, access: Access, share: Share,
                  deleteOnClose: bool, probe: Probe): Status {
    match target
    case Fails(status) => status
    case Opens(kind, path) => PlaceStatus(root, entries, kind, path, access, share, deleteOnClose, probe)
  }

  /** What a name comes to, by the table and the host. */
  function Resolution(entries: seq<Entry>, lookup: Lookup, found: Found): Resolved {
    var pending := lookup.At? && !Free(entries, lookup.path);
    Resolved(
      if pending then lookup.path else PathOf(lookup, found),
      if lookup.Raw? then lookup.ready else lookup.At? && !pending && found.File?,
      lookup.At? && !pending && found.Folder?,
      !pending && WritableBy(lookup),
      match lookup
      case NoName => Success
      case Raw(_, ready) => if ready then Success else NotFound
      case Rejected(_, status) => status
      case At(_, _) =>
        if pending then DeletePending else if found.Refused? then found.status else if found.Nothing? then NotFound else Success)
  }

  /** NtOpenFile leads to what is there, and for writing to what the host makes of it. */
  function OpenTarget(root: Option<string>, entries: seq<Entry>, lookup: Lookup, found: Found, access: Access,
                      created: Status): Target {
    var path := PathOf(lookup, found);
    if lookup.NoName? then Opens(Pseudo, "")
    else if lookup.Rejected? then Fails(lookup.status)
    else if lookup.At? && !Free(entries, lookup.path) then Fails(DeletePending)
    else if lookup.At? && found.Folder? then Opens(Directory, path)
    else if WritableBy(lookup) && ProfileAccess(root, path, access).genericWrite then
      if created == Success then Opens(HostFile, path) else Fails(created)
    else if (if lookup.Raw? then lookup.ready else found.File?) then Opens(HostFile, path)
    else if lookup.At? && found.Refused? then Fails(found.status)
    else Fails(NotFound)
  }

  function SettledTarget(r: Resolved, native: bool, settled: Status): Target {
    if native then Opens(HostFile, r.path)
    else if r.folder then Opens(Directory, r.path)
    else if settled == Success then Opens(Pseudo, "")
    else Fails(settled)
  }

  /** The branches of NtOpenFile lead where it should. */
  lemma OpensAsTold(root: Option<string>, entries: seq<Entry>, lookup: Lookup, found: Found, access: Access, created: Status,
                    r: Resolved, native: bool, settled: Status)
    requires Plausible(root, lookup, found) && r == Resolution(entries, lookup, found)
    requires created in {Success, NotFound, Collision, SharingViolation, AccessDenied}
    requires var writes := ProfileAccess(root, r.path, access).genericWrite && r.writable && !r.folder;
      && native == (if writes then created == Success else r.native)
      && settled == if writes then created else r.status
    ensures var target := SettledTarget(r, native, settled);
      && target == OpenTarget(root, entries, lookup, found, access, created)
      && target != Fails(Success) && (target == Fails(DeletePending) <==> lookup.At? && !Free(entries, lookup.path))
      && (target.Opens? ==>
           && (target.kind == Pseudo <==> lookup.NoName?) && (target.kind == Directory ==> found.Folder?)
           && (target.kind != Pseudo ==> target.path == r.path == PathOf(lookup, found) && r.writable == WritableBy(lookup)))
  {
  }

  /** A file to be made or replaced. */
  function MakeTarget(root: Option<string>, entries: seq<Entry>, path: string, access: Access, share: Share,
                      host: HostAnswers): Target {
    if Opposed(root, entries, HostFile, path, access, share) then Fails(SharingViolation)
    else if !host.parentMade then Fails(NotFound)
    else if host.created == Success then Opens(HostFile, path)
    else Fails(host.created)
  }

  /** Nothing is made: what was found, or a made-up handle in its place. */
  function FoundTarget(r: Resolved, access: Access, disposition: nat): Target {
    if !r.native && !r.folder && r.status != Success then
      if r.status == NotFound && disposition != FILE_OPEN then Opens(Pseudo, "") else Fails(r.status)
    else if access.genericWrite then Opens(Pseudo, "")
    else Opens(if r.native then HostFile else Directory, r.path)
  }

  /** A request makes or replaces a file: to write to it, or because it is missing,
      or to begin it anew. */
  predicate Makes(r: Resolved, access: Access, disposition: nat) {
    r.writable &&
    (access.genericWrite || (disposition != FILE_OPEN && (r.status == NotFound || (r.native && disposition != FILE_OPEN_IF))))
  }

  function DirectoryTarget(path: string, host: HostAnswers): Target {
    match host.directoryNow
    case Absent => Fails(NotFound)
    case Plain => Fails(NotADirectory)
    case IsDirectory => Opens(Directory, path)
  }

  /** Where NtCreateFile leads. */
  function CreateTarget(root: Option<string>, entries: seq<Entry>, r: Resolved, access: Access, share: Share, disposition: nat,
                        directory: bool, deleteOnClose: bool, host: HostAnswers): Target {
    if deleteOnClose && IsProfile(root, r.path) && !access.delete then Fails(InvalidParameter)
    else if r.writable && directory then DirectoryTarget(r.path, host)
    else if Makes(r, access, disposition) then MakeTarget(root, entries, r.path, access, share, host)
    else FoundTarget(r, access, disposition)
  }

  /** The branches of NtCreateFile lead to nothing that the name or the host does not
      give. */
  lemma CreatesAsTold(root: Option<string>, entries: seq<Entry>, lookup: Lookup, found: Found, access: Access, share: Share,
                      disposition: nat, directory: bool, deleteOnClose: bool, host: HostAnswers, r: Resolved)
    requires Followed(root, entries, lookup, found, r) && r == Resolution(entries, lookup, found)
    requires !Unregistered(lookup, access)
    ensures var wanted := ProfileAccess(root, r.path, access);
      var target := CreateTarget(root, entries, r, wanted, share, disposition, directory, deleteOnClose, host);
      && (lookup.At? && !Free(entries, lookup.path) ==> target.Fails?) && target != Fails(Success)
      && (target.Opens? && target.kind != Pseudo ==>
           target.path == r.path == PathOf(lookup, found) && r.writable == WritableBy(lookup))
      && (target.Opens? && target.kind == HostFile ==> found.File? || lookup.Raw? || host.created == Success)
      && (target.Opens? && target.kind == Directory ==> found.Folder? || (directory && host.directoryNow == IsDirectory))
  {
  }

  /** A request has been answered: the status, and a new handle exactly with success. */
  ghost predicate Answered(root: Option<string>, before: seq<Entry>, after: seq<Entry>, next: nat, slot: nat, status: Status,
                           handle: nat, target: Target, access: Access, share: Share, writable: bool, deleteOnClose: bool,
                           probe: Probe) {
    && (handle == 0 <==> status != Success)
    && status == Answer(root, before, target, access, share, deleteOnClose, probe)
    && Placed(root, before, after, next, slot, handle, target, access, share, writable, deleteOnClose)
  }

  /** A new handle for what a request was led to, or nothing new. */
  ghost predicate Placed(root: Option<string>, before: seq<Entry>, after: seq<Entry>, next: nat, slot: nat, handle: nat,
                         target: Target, access: Access, share: Share, writable: bool, deleteOnClose: bool) {
    if handle == 0 then SameActive(before, after)
    else
      && target.Opens? && handle == next && Opened(root, before, after, slot, handle, deleteOnClose)
      && Describes(after[slot], target.kind, target.path, access, share, target.kind != Pseudo && writable)
  }

  lemma PlacedAsTold(root: Option<string>, before: seq<Entry>, after: seq<Entry>, next: nat, slot: nat, handle: nat,
                     target: Target, lookup: Lookup, found: Found, access: Access, r: Resolved, share: Share, deleteOnClose: bool)
    requires Placed(root, before, after, next, slot, handle, target, ProfileAccess(root, r.path, access), share, r.writable,
                    deleteOnClose)
    requires target.Opens? && target.kind != Pseudo ==>
      target.path == r.path == PathOf(lookup, found) && r.writable == WritableBy(lookup)
    ensures handle == 0 ==> SameActive(before, after)
    ensures handle != 0 ==>
      && target.Opens? && Opened(root, before, after, slot, handle, deleteOnClose) && handle == next
      && after[slot].kind == target.kind && after[slot].share == share
      && Made(root, after[slot], lookup, found, access, share)
  {
  }

  lemma OpenedAsTold(root: Option<string>, before: seq<Entry>, after: seq<Entry>, next: nat, slot: nat, status: Status,
                     handle: nat, target: Target, lookup: Lookup, found: Found, access: Access, r: Resolved, share: Share,
                     deleteOnClose: bool, probe: Probe)
    requires Answered(root, before, after, next, slot, status, handle, target, ProfileAccess(root, r.path, access), share,
                      r.writable, deleteOnClose, probe)
    requires target == Fails(DeletePending) <==> lookup.At? && !Free(before, lookup.path)
    requires target.Opens? ==>
      && (target.kind == Pseudo <==> lookup.NoName?) && (target.kind == Directory ==> found.Folder?)
      && (target.kind != Pseudo ==> target.path == r.path == PathOf(lookup, found) && r.writable == WritableBy(lookup))
    ensures handle != 0 ==>
      && Opened(root, before, after, slot, handle, deleteOnClose) && handle == next
      && (after[slot].kind == Pseudo <==> lookup.NoName?) && after[slot].share == share
      && Made(root, after[slot], lookup, found, access, share)
      && (after[slot].kind == Directory ==> found.Folder?)
    ensures handle == 0 ==> SameActive(before, after)
    ensures status == DeletePending <==> lookup.At? && !Free(before, lookup.path)
    ensures handle == 0 <==> status != Success
  {
    PlacedAsTold(root, before, after, next, slot, handle, target, lookup, found, access, r, share, deleteOnClose);
  }

  /** A handle that was registered is still there, unless the option closed it again. */
  lemma PlaceAnswered(root: Option<string>, before: seq<Entry>, middle: seq<Entry>, after: seq<Entry>, next: nat, slot: nat,
                      registered: nat, status: Status, handle: nat, kind: Kind, path: string, access: Access, share: Share,
                      writable: bool, deleteOnClose: bool, probe: Probe)
    requires kind == Pseudo ==> !writable && !IsProfile(root, path)
    requires kind != Pseudo && IsProfile(root, path) ==> Free(before, path)
    requires registered == 0 <==> Opposed(root, before, kind, path, access, share) || Full(before)
    requires registered == 0 ==> middle == after == before && handle == 0
    requires registered == 0 ==> status == if Opposed(root, before, kind, path, access, share) then SharingViolation else NoMemory
    requires registered != 0 ==>
      && registered == next && slot < |before| && !before[slot].active
      && middle == before[slot := Entry(true, next, kind, path, SharingAccess(access), share, writable, access.delete, false,
                                        kind == HostFile)]
    requires registered != 0 ==>
      if deleteOnClose && IsProfile(root, path) then
        OptionHits(middle, after, slot, handle, probe) && (handle == 0 || handle == next)
        && status == MarkStatus(access.delete, kind, probe)
      else after == middle && handle == next && status == Success
    ensures Answered(root, before, after, next, slot, status, handle, Opens(kind, path), access, share, writable, deleteOnClose,
                     probe)
  {
  }

  /** What the option leaves of an entry: a mark, if it can be deleted, and nothing
      otherwise. */
  function UnderOption(e: Entry, probe: Probe): Entry {
    if CanMark(e, probe) then e.(deleteOnClose := true) else e.(active := false)
  }

  predicate CanMark(e: Entry, probe: Probe) { MarkStatus(e.deleteAccess, e.kind, probe) == Success }

  /** The option has been applied to one entry, and no other has changed; the handle
      is given up exactly if it could not be marked. */
  predicate OptionHits(before: seq<Entry>, after: seq<Entry>, i: nat, kept: nat, probe: Probe) {
    i < |before| && after == before[i := UnderOption(before[i], probe)] && (kept != 0 <==> CanMark(before[i], probe))
  }

  /** An entry as a request made it. */
  predicate Describes(e: Entry, kind: Kind, path: string, access: Access, share: Share, writable: bool) {
    && e.kind == kind && e.path == path && e.access == SharingAccess(access) && e.share == share && e.writable == writable
    && e.deleteAccess == access.delete && e.native == (kind == HostFile)
  }

  /** Where a followed name ends up. */
  function PathOf(lookup: Lookup, found: Found): string {
    match lookup
    case NoName => ""
    case Raw(path, _) => path
    case Rejected(path, _) => path
    case At(path, _) => if found.File? || found.Folder? then found.path else path
  }

  predicate WritableBy(lookup: Lookup) { lookup.Raw? || (lookup.At? && lookup.writable) }

  /** What following a name can come to. */
  ghost predicate Followed(root: Option<string>, entries: seq<Entry>, lookup: Lookup, found: Found, r: Resolved) {
    && |r.path| < MAX_PATH
    && (lookup.NoName? ==> r == Resolved("", false, false, false, Success))
    && (r.native || r.folder ==> r.status == Success && !(r.native && r.folder))
    && (r.status == Success && !r.native && !r.folder ==> lookup.NoName?)
    && (r.native || r.folder || r.writable ==> r.path == PathOf(lookup, found) && r.writable == WritableBy(lookup))
    && (r.native ==> found.File? || lookup.Raw?) && (r.folder ==> found.Folder?)
    && (r.status == DeletePending <==> lookup.At? && !Free(entries, lookup.path))
    && (r.status in {DeletePending, InvalidParameter, InvalidHandle} ==> !r.native && !r.folder && !r.writable)
    && ((r.native || r.folder || r.writable) && IsProfile(root, r.path) ==> Free(entries, r.path))
    && r.status in {Success, DeletePending, InvalidParameter, InvalidHandle, NotFound, SharingViolation, AccessDenied}
  }

  /** The entry that a request for a followed name makes. */
  predicate Made(root: Option<string>, e: Entry, lookup: Lookup, found: Found, access: Access, share: Share) {
    var path := PathOf(lookup, found);
    e.kind != Pseudo ==> Describes(e, e.kind, path, ProfileAccess(root, path, access), share, WritableBy(lookup))
  }

  /** All rights on a profile path are the rights the table tracks. */
  function ProfileAccess(root: Option<string>, path: string, access: Access): Access {
    if access.genericAll && IsProfile(root, path) then
      access.(genericRead := true, genericWrite := true, delete := true)
    else access
  }

  /** One new handle, in a slot that was free; a profile path had nothing waiting
      to delete it, and is marked if that was asked for. */
  ghost predicate Opened(root: Option<string>, before: seq<Entry>, after: seq<Entry>, slot: nat, handle: nat, deleteOnClose: bool) {
    && |after| == |before| && slot < |before| && !before[slot].active
    && after == before[slot := after[slot]]
    && after[slot].active && after[slot].handle == handle
    && (Live(after[slot]) && IsProfile(root, after[slot].path) ==> Free(before, after[slot].path))
    && (after[slot].deleteOnClose <==> deleteOnClose && IsProfile(root, after[slot].path))
  }

  ghost predicate SameActive(before: seq<Entry>, after: seq<Entry>) {
    |after| == |before| && forall i :: 0 <= i < |before| ==> after[i] == before[i] || (!before[i].active && !after[i].active)
  }

  /** A live handle on the path whose sharing rules a request out, or the other
      way round. */
  predicate Objects(e: Entry, path: string, access: Share, share: Share) {
    Live(e) && SamePath(e.path, path) && !(Within(access, e.share) && Within(e.access, share))
  }

  lemma NoObjection(root: Option<string>, entries: seq<Entry>, e: Entry, profile: bool)
    requires profile == (Live(e) && IsProfile(root, e.path))
    requires profile ==> forall i :: 0 <= i < |entries| ==> !Objects(entries[i], e.path, e.access, e.share)
    ensures forall i :: 0 <= i < |entries| ==> Compatible(root, entries[i], e)
  {
    forall i | 0 <= i < |entries| ensures Compatible(root, entries[i], e) {
      if Live(entries[i]) && Live(e) && SamePath(entries[i].path, e.path) && IsProfile(root, entries[i].path) {
        SameProfile(root, entries[i].path, e.path);
        assert !Objects(entries[i], e.path, e.access, e.share);
      }
    }
  }

  // -------------------------------------------------------------- whole runs

  /** What a guest can ask of the table. */
  datatype Request
    = OpenRequest(lookup: Lookup, found: Found, access: Access, share: Share, deleteOnClose: bool, created: Status, probe: Probe)
    | CreateRequest(lookup: Lookup, found: Found, access: Access, share: Share, disposition: nat, directory: bool,
                    deleteOnClose: bool, host: HostAnswers, probe: Probe)
    | DispositionRequest(handle: nat, remove: bool, given: bool, refused: bool, probe: Probe)
    | CloseRequest(handle: nat, refused: bool, flushed: bool, closed: bool, removed: bool)

  ghost predicate Answerable(root: Option<string>, q: Request) {
    match q
    case OpenRequest(lookup, found, _, _, _, created, _) =>
      Plausible(root, lookup, found) && created in {Success, NotFound, Collision, SharingViolation, AccessDenied}
    case CreateRequest(lookup, found, _, _, _, _, _, host, _) =>
      Plausible(root, lookup, found) && host.created in {Success, NotFound, Collision, SharingViolation, AccessDenied}
    case _ => true
  }

  /** Over every run of requests, whatever the host answers: two live handles on
      one profile path always allow each other, and no handle on a profile path is
      younger than a mark on that path or on a directory above it. */
  method Serve(root: Option<string>, requests: seq<Request>) returns (t: Table)
    requires root.Some? ==> root.value != ""
    requires forall k :: 0 <= k < |requests| ==> Answerable(root, requests[k])
    ensures t.Valid() && t.root == root
    ensures forall i, j :: 0 <= i < SLOTS && 0 <= j < SLOTS && i != j ==> Sharing(root, t.entries, i, j)
    ensures forall i, j :: 0 <= i < SLOTS && 0 <= j < SLOTS ==> Dated(root, t.entries, t.born, t.marked, i, j)
  {
    t := new Table(root);
    for k := 0 to |requests|
      invariant fresh(t) && t.Valid() && t.root == root
    {
      match requests[k] {
        case OpenRequest(lookup, found, access, share, deleteOnClose, created, probe) =>
          var _, _, _ := t.OpenFile(lookup, found, access, share, deleteOnClose, created, probe);
        case CreateRequest(lookup, found, access, share, disposition, directory, deleteOnClose, host, probe) =>
          var _, _, _ := t.CreateFile(lookup, found, access, share, disposition, directory, deleteOnClose, host, probe);
        case DispositionRequest(handle, remove, given, refused, probe) =>
          var _, _ := t.SetDisposition(handle, remove, given, refused, probe);
        case CloseRequest(handle, refused, flushed, closed, removed) =>
          var _, _, _ := t.Close(handle, refused, flushed, closed, removed);
      }
    }
  }

  /** From an empty table: a file is opened and gets handle 1, and a call that names
      nothing and registers nothing then marks that file for deletion. */
  method StrangerMarksFirst(path: string, access: Access, share: Share, reading: Access) returns (t: Table)
    requires path != "" && |path| < MAX_PATH && access.delete && !reading.genericWrite
    ensures t.Valid() && exists i: nat :: IsFirst(Some(path), t.entries, i) && t.entries[i].path == path && t.entries[i].deleteOnClose
  {
    t := new Table(Some(path));
    assert path[..|path|] == path && !t.entries[0].active;
    var first, status, slot := t.Register(HostFile, path, access, share, true, true);
    assert IsFirst(t.root, t.entries, slot);
    var _, second, _ := t.CreateFile(NoName, Nothing, reading, share, FILE_OPEN, false, true,
                                     HostAnswers(Absent, false, NotFound), Ordinary(Empty));
    assert second != 0 && t.entries[slot].deleteOnClose;
  }
}
