/**
 The rules of recomp-runtime/kernel_file.c in their own terms: what makes two paths
 one, when two handles rule each other out, what a mark on a handle holds back, and
 where NtOpenFile and NtCreateFile lead.
 */
module FileRules {
  import opened MachineWords
  import opened FileHandles

  // ------------------------------------------------------------------- paths

  /** Character by character, up to case. */
  predicate Alike(a: string, b: string) {
    |a| == |b| && forall i :: 0 <= i < |a| ==> SameLetter(a[i], b[i])
  }

  lemma SamePathMeans(a: string, b: string)
    ensures Folded(a) == Folded(b) <==> Alike(a, b)
    ensures SamePath(a, b) <==> Alike(a, b)
  {
    if |a| == |b| {
      forall i | 0 <= i < |a| ensures Folded(a)[i] == Folded(b)[i] <==> SameLetter(a[i], b[i]) {
        FoldTells(a[i], b[i]);
      }
    }
    if Alike(a, b) {
      assert Folded(a) == Folded(b);
    } else if |a| == |b| {
      var i :| 0 <= i < |a| && !SameLetter(a[i], b[i]);
      assert Folded(a)[i] != Folded(b)[i];
    }
  }

  /** A path is the given one, or goes on behind a backslash. */
  lemma AtOrBelowMeans(base: string, path: string, below: bool)
    ensures AtOrBelow(base, path, below) <==>
      |base| <= |path| && Alike(base, path[..|base|]) && (path[|base|..] == "" || (below && path[|base|] == '\\'))
  {
    if |base| <= |path| { SamePathMeans(path[..|base|], base); }
  }

  /** A profile path is the saves' directory, or goes on behind a separator. */
  lemma ProfileMeans(directory: string, path: string)
    ensures !IsProfile(None, path)
    ensures IsProfile(Some(directory), path) <==>
      |directory| <= |path| && Alike(directory, path[..|directory|])
      && (path[|directory|..] == "" || path[|directory|] == '\\' || path[|directory|] == '/')
  {
    if |directory| <= |path| { SamePathMeans(path[..|directory|], directory); }
  }

  // ----------------------------------------------------------------- sharing

  /** A right that is asked for and not shared. */
  predicate Denied(asked: bool, shared: bool) { asked && !shared }

  /** The rights of a request: four ways to read, three to write, one to delete. */
  predicate Clashes(a: Access, open: Share) {
    || Denied(a.genericRead, open.read) || Denied(a.genericExecute, open.read) || Denied(a.readData, open.read)
    || Denied(a.execute, open.read)
    || Denied(a.genericWrite, open.write) || Denied(a.writeData, open.write) || Denied(a.appendData, open.write)
    || Denied(a.delete, open.delete)
  }

  lemma ClashesMeans(a: Access, open: Share)
    ensures Within(SharingAccess(a), open) <==> !Clashes(a, open)
  {
  }

  lemma WithinMeans(held: Share, share: Share)
    ensures Within(held, share) <==>
      !Denied(held.read, share.read) && !Denied(held.write, share.write) && !Denied(held.delete, share.delete)
  {
  }

  /** A handle objects to a request exactly if it is open on the same path and one of
      them asks for a right that the other does not share. */
  lemma ObjectsMeans(e: Entry, path: string, a: Access, share: Share)
    ensures Objects(e, path, SharingAccess(a), share) <==>
      && e.active && (e.kind == HostFile || e.kind == Directory) && Alike(e.path, path)
      && (Clashes(a, e.share)
          || Denied(e.access.read, share.read) || Denied(e.access.write, share.write) || Denied(e.access.delete, share.delete))
  {
    SamePathMeans(e.path, path);
    ClashesMeans(a, e.share);
    WithinMeans(e.access, share);
  }

  /** What runs keep of two open handles on one profile path: neither has a right that
      the other does not share. */
  lemma CompatibleMeans(root: Option<string>, a: Entry, b: Entry)
    ensures Compatible(root, a, b) <==>
      (a.active && b.active && a.kind != Pseudo && b.kind != Pseudo && IsProfile(root, a.path) && Alike(a.path, b.path) ==>
         && !Denied(a.access.read, b.share.read) && !Denied(a.access.write, b.share.write)
         && !Denied(a.access.delete, b.share.delete) && !Denied(b.access.read, a.share.read)
         && !Denied(b.access.write, a.share.write) && !Denied(b.access.delete, a.share.delete))
  {
    SamePathMeans(a.path, b.path);
  }

  /** Of all rights on a profile path the table tracks all three; elsewhere they stay
      what they were. */
  lemma AllRights(root: Option<string>, path: string, a: Access, share: Share)
    ensures a.genericAll && IsProfile(root, path) ==>
      (Clashes(ProfileAccess(root, path, a), share) <==> share != Share(true, true, true))
    ensures !(a.genericAll && IsProfile(root, path)) ==> ProfileAccess(root, path, a) == a
    ensures var b := ProfileAccess(root, path, a);
      && b.genericExecute == a.genericExecute && b.readData == a.readData && b.writeData == a.writeData
      && b.appendData == a.appendData && b.execute == a.execute && b.writeAttributes == a.writeAttributes
  {
  }

  /** A marked handle holds back its own path, and a marked directory what is below. */
  lemma PendsMeans(e: Entry, path: string)
    ensures Pends(e, path) <==>
      && e.active && e.deleteOnClose && |e.path| <= |path| && Alike(e.path, path[..|e.path|])
      && (path[|e.path|..] == "" || (e.kind == Directory && path[|e.path|] == '\\'))
  {
    AtOrBelowMeans(e.path, path, e.kind == Directory);
  }

  /** With the option to delete on closing, one handle is marked or given up. */
  lemma OptionMeans(before: seq<Entry>, after: seq<Entry>, i: nat, kept: nat, probe: Probe)
    requires OptionHits(before, after, i, kept, probe)
    ensures |after| == |before| && i < |before| && forall j :: 0 <= j < |before| && j != i ==> after[j] == before[j]
    ensures var deletable := before[i].deleteAccess && probe.Ordinary? && (before[i].kind == Directory ==> probe.listing.Empty?);
      if deletable then kept != 0 && after[i] == before[i].(deleteOnClose := true)
      else kept == 0 && after[i] == before[i].(active := false)
  {
  }

  /** How marking ends: what is missing, protected, or a directory that is not known
      to be empty cannot be marked. */
  lemma MarkEnds(kind: Kind)
    ensures MarkStatus(true, kind, Missing) == NotFound && MarkStatus(true, kind, ReadOnly) == CannotDelete
    ensures forall l: Listing :: kind != Directory ==> MarkStatus(true, kind, Ordinary(l)) == Success
    ensures MarkStatus(true, Directory, Ordinary(Empty)) == Success
    ensures MarkStatus(true, Directory, Ordinary(Filled)) == NotEmpty
    ensures MarkStatus(true, Directory, Ordinary(Unlistable)) == AccessDenied
    ensures forall probe: Probe :: MarkStatus(false, kind, probe) == InvalidParameter
  {
  }

  // --------------------------------------------------------- what runs keep

  /** Any one open handle in a table: its number, its path, and what a mark takes. */
  lemma HandlesAreSound(root: Option<string>, entries: seq<Entry>, next: nat, born: seq<nat>, marked: seq<nat>, clock: nat,
                        i: nat)
    requires Sound(root, entries, next, born, marked, clock) && i < |entries| && entries[i].active
    ensures |entries| == 256 && 1 <= entries[i].handle < next && |entries[i].path| <= 511
    ensures entries[i].kind == Pseudo ==> entries[i].path == ""
    ensures entries[i].deleteOnClose ==> entries[i].kind != Pseudo && entries[i].deleteAccess && IsProfile(root, entries[i].path)
  {
  }

  /** Of a mark on a path, or on a directory above it, and an open handle on that path,
      the handle was there first. */
  lemma OlderThanMarks(root: Option<string>, entries: seq<Entry>, next: nat, born: seq<nat>, marked: seq<nat>, clock: nat,
                       i: nat, j: nat)
    requires Sound(root, entries, next, born, marked, clock) && i < SLOTS && j < SLOTS
    requires entries[j].active && entries[j].kind != Pseudo && IsProfile(root, entries[j].path)
    requires Pends(entries[i], entries[j].path)
    ensures born[j] < marked[i]
  {
    assert Dated(root, entries, born, marked, i, j);
  }

  /** A request that fails leaves every open handle as it was, and none behind. */
  lemma NothingElse(before: seq<Entry>, after: seq<Entry>, i: nat)
    requires SameActive(before, after) && i < |before|
    ensures |after| == |before| && (before[i].active || after[i].active ==> after[i] == before[i])
  {
  }

  // ------------------------------------------------------ where requests lead

  /** A file made or replaced, as far as the others and the host let it. */
  predicate LeadsToMaking(target: Target, root: Option<string>, entries: seq<Entry>, path: string, a: Access, share: Share,
                          host: HostAnswers) {
    if IsProfile(root, path) && exists i :: 0 <= i < |entries| && Objects(entries[i], path, SharingAccess(a), share) then
      target == Fails(SharingViolation)
    else if !host.parentMade then target == Fails(NotFound)
    else if host.created == Success then target == Opens(HostFile, path)
    else target == Fails(host.created)
  }

  /** NtCreateFile on a place that can be written to.  To write makes the file anew
      whatever is there; otherwise FILE_OPEN (1) and FILE_OPEN_IF (3) keep a file that
      is there, and only FILE_OPEN refuses one that is missing. */
  lemma CreatesWhereWritable(root: Option<string>, entries: seq<Entry>, path: string, found: Found, a: Access, share: Share,
                             disposition: nat, deleteOnClose: bool, host: HostAnswers, r: Resolved, target: Target)
    requires Plausible(root, At(path, true), found) && Free(entries, path)
    requires r == Resolution(entries, At(path, true), found)
    requires target == CreateTarget(root, entries, r, a, share, disposition, false, deleteOnClose, host)
    requires !(deleteOnClose && IsProfile(root, r.path) && !a.delete)
    ensures a.genericWrite ==> LeadsToMaking(target, root, entries, r.path, a, share, host)
    ensures !a.genericWrite ==>
      match found
      case File(there) =>
        if disposition == 1 || disposition == 3 then target == Opens(HostFile, there)
        else LeadsToMaking(target, root, entries, there, a, share, host)
      case Folder(there) => target == Opens(Directory, there)
      case Nothing =>
        if disposition == 1 then target == Fails(NotFound) else LeadsToMaking(target, root, entries, path, a, share, host)
      case Refused(status) => target == Fails(status)
  {
  }

  /** Where nothing can be written, nothing is made: a request to write, or for a file
      that is missing, gets a made-up handle. */
  lemma CreatesWhereReadOnly(root: Option<string>, entries: seq<Entry>, path: string, found: Found, a: Access, share: Share,
                             disposition: nat, directory: bool, deleteOnClose: bool, host: HostAnswers, r: Resolved,
                             target: Target)
    requires Plausible(root, At(path, false), found) && Free(entries, path)
    requires r == Resolution(entries, At(path, false), found)
    requires target == CreateTarget(root, entries, r, a, share, disposition, directory, deleteOnClose, host)
    requires !(deleteOnClose && IsProfile(root, r.path) && !a.delete)
    ensures match found
      case File(there) => target == if a.genericWrite then Opens(Pseudo, "") else Opens(HostFile, there)
      case Folder(there) => target == if a.genericWrite then Opens(Pseudo, "") else Opens(Directory, there)
      case Nothing => target == if disposition == 1 then Fails(NotFound) else Opens(Pseudo, "")
      case Refused(status) => target == Fails(status)
  {
  }

  /** To be deleted on closing takes the right to delete, and a directory can be asked
      for only where it can be made. */
  lemma CreatesDirectories(root: Option<string>, entries: seq<Entry>, path: string, found: Found, a: Access, share: Share,
                           disposition: nat, deleteOnClose: bool, host: HostAnswers, r: Resolved, target: Target)
    requires Plausible(root, At(path, true), found) && Free(entries, path)
    requires r == Resolution(entries, At(path, true), found)
    requires target == CreateTarget(root, entries, r, a, share, disposition, true, deleteOnClose, host)
    ensures target ==
      if deleteOnClose && IsProfile(root, r.path) && !a.delete then Fails(InvalidParameter)
      else if host.directoryNow.IsDirectory? then Opens(Directory, r.path)
      else Fails(if host.directoryNow.Plain? then NotADirectory else NotFound)
    ensures r.path == if found.File? || found.Folder? then found.path else path
  {
  }

  /** NtOpenFile: a directory is opened whatever the rights; a file to be written to is
      opened by the host; otherwise it must be there. */
  lemma OpensWhatIsThere(root: Option<string>, entries: seq<Entry>, path: string, writable: bool, found: Found, a: Access,
                         created: Status, target: Target)
    requires Plausible(root, At(path, writable), found) && Free(entries, path)
    requires target == OpenTarget(root, entries, At(path, writable), found, a, created)
    ensures var there := if found.File? || found.Folder? then found.path else path;
      var writes := writable && (a.genericWrite || (a.genericAll && IsProfile(root, there)));
      match found
      case Folder(_) => target == Opens(Directory, there)
      case _ =>
        if writes then target == if created == Success then Opens(HostFile, there) else Fails(created)
        else if found.File? then target == Opens(HostFile, there)
        else target == Fails(if found.Refused? then found.status else NotFound)
  {
  }

  /** A name on its way to be deleted is refused by both, and one that leads nowhere
      opens a made-up handle. */
  lemma PendingIsRefused(root: Option<string>, entries: seq<Entry>, lookup: Lookup, found: Found, a: Access, share: Share,
                         disposition: nat, host: HostAnswers, created: Status, r: Resolved)
    requires r == Resolution(entries, lookup, found)
    ensures lookup.At? && !Free(entries, lookup.path) ==>
      && OpenTarget(root, entries, lookup, found, a, created) == Fails(DeletePending)
      && CreateTarget(root, entries, r, a, share, disposition, false, false, host) == Fails(DeletePending)
    ensures lookup.NoName? ==> OpenTarget(root, entries, lookup, found, a, created) == Opens(Pseudo, "")
  {
  }
}
