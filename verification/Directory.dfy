/**
 The directory listing of recomp-runtime/directory_model.c: a table of at most 64
 entries, and a cursor that hands out those a pattern accepts.
 */
module Directory {
  import opened MachineWords
  import opened Glob

  const MAX_ENTRIES := 64
  const NAME_SIZE := 260

  /** The name without its terminator; a name of 260 characters or more has none. */
  datatype Entry = Entry(name: string, creation: u64, lastAccess: u64, lastWrite: u64, change: u64, size: u64,
                         allocation: u64, attributes: u32)

  const BLANK: Entry := Entry("", 0, 0, 0, 0, 0, 0, 0)

  predicate Storable(e: Entry) { 0 < |e.name| < NAME_SIZE }

  /** Names of 1 to 259 characters. */
  lemma StorableMeans(e: Entry)
    ensures Storable(e) <==> e.name != "" && |e.name| <= 259
  {
  }

  /** The entries that a pattern accepts, in their order. */
  function Accepted(pattern: Option<string>, entries: seq<Entry>): seq<Entry> {
    if entries == [] then []
    else (if Accepts(pattern, entries[0].name) then [entries[0]] else []) + Accepted(pattern, entries[1..])
  }

  class Listing {
    const entries: array<Entry>
    var count: nat
    var cursor: nat

    ghost predicate Valid()
      reads this
    {
      entries.Length == MAX_ENTRIES && cursor <= count <= MAX_ENTRIES
    }

    ghost function Contents(): seq<Entry>
      reads this, entries
      requires Valid()
    {
      entries[..count]
    }

    /** What is still to be handed out for a pattern. */
    ghost function Ahead(pattern: Option<string>): seq<Entry>
      reads this, entries
      requires Valid()
    {
      Accepted(pattern, Contents()[cursor..])
    }

    constructor ()
      ensures Valid() && Contents() == [] && fresh(entries)
    {
      entries := new Entry[MAX_ENTRIES](_ => BLANK);
      count, cursor := 0, 0;
    }

    method Add(e: Entry) returns (ok: bool)
      requires Valid()
      modifies this`count, entries
      ensures Valid()
      ensures ok <==> Storable(e) && old(count) < MAX_ENTRIES
      ensures Contents() == if ok then old(Contents()) + [e] else old(Contents())
    {
      if e.name == "" || count >= MAX_ENTRIES || |e.name| >= NAME_SIZE { return false; }
      entries[count] := e;
      count := count + 1;
      return true;
    }

    method Restart()
      requires Valid()
      modifies this`cursor
      ensures Valid() && forall pattern :: Ahead(pattern) == Accepted(pattern, Contents())
    {
      cursor := 0;
      assert Contents()[0..] == Contents();
    }

    /** Look at one entry, and go on. */
    method Consider(pattern: Option<string>) returns (found: Option<Entry>)
      requires Valid() && cursor < count
      modifies this`cursor
      ensures Valid() && cursor == old(cursor) + 1
      ensures found == if Accepts(pattern, entries[old(cursor)].name) then Some(entries[old(cursor)]) else None
    {
      var candidate := entries[cursor];
      cursor := cursor + 1;
      var ok := PatternMatches(pattern, candidate.name);
      return if ok then Some(candidate) else None;
    }

    /** Go on to the next entry that is not refused. */
    method Seek(pattern: Option<string>) returns (found: Option<Entry>)
      requires Valid()
      modifies this`cursor
      ensures Valid() && cursor >= old(cursor) && (found.Some? ==> cursor > old(cursor))
      ensures forall k :: old(cursor) <= k < (if found.Some? then cursor - 1 else cursor) ==> Refuses(pattern, entries[k])
      ensures if found.Some? then found.value == entries[cursor - 1] && !Refuses(pattern, found.value) else cursor == count
    {
      while cursor < count
        invariant old(cursor) <= cursor <= count && Valid()
        invariant forall k :: old(cursor) <= k < cursor ==> Refuses(pattern, entries[k])
      {
        found := Consider(pattern);
        if found.Some? { return; }
      }
      return None;
    }

    /** The next accepted entry; the pattern may differ from call to call. */
    method Next(pattern: Option<string>) returns (found: Option<Entry>)
      requires Valid()
      modifies this`cursor
      ensures Valid()
      ensures old(Ahead(pattern)) == (if found.Some? then [found.value] else []) + Ahead(pattern)
      ensures found == None ==> cursor == count
      ensures found.Some? ==>
        cursor > old(cursor) && found.value == Contents()[cursor - 1] && Accepted(pattern, Contents()[old(cursor)..cursor - 1]) == []
    {
      ghost var from, all := cursor, Contents();
      found := Seek(pattern);
      PassedOver(pattern, all, from, if found.Some? then cursor - 1 else cursor);
      if found.Some? { OneAhead(pattern, all, cursor - 1); }
    }

    /** Asking from a restart until there is no more: all accepted entries, each
        once, in the order they were added, and nothing after that. */
    method Enumerate(pattern: Option<string>) returns (names: seq<Entry>)
      requires Valid()
      modifies this`cursor
      ensures Valid() && names == Accepted(pattern, Contents())
      ensures forall p :: Ahead(p) == []
    {
      Restart();
      names := [];
      while true
        invariant Valid() && names + Ahead(pattern) == Accepted(pattern, Contents())
        decreases count - cursor
      {
        var found := Next(pattern);
        if found.None? {
          assert Contents()[cursor..] == [];
          return;
        }
        Regrouped(names, found.value, Ahead(pattern));
        names := names + [found.value];
      }
    }
  }

  lemma Regrouped(a: seq<Entry>, e: Entry, b: seq<Entry>)
    ensures a + ([e] + b) == (a + [e]) + b
  {
  }

  lemma OneAhead(pattern: Option<string>, all: seq<Entry>, k: nat)
    requires k < |all|
    ensures Accepted(pattern, all[k..]) ==
      (if Accepts(pattern, all[k].name) then [all[k]] else []) + Accepted(pattern, all[k + 1..])
  {
    assert all[k..][1..] == all[k + 1..];
  }

  predicate Refuses(pattern: Option<string>, e: Entry) { !Accepts(pattern, e.name) }

  /** Entries that are refused add nothing. */
  lemma {:induction false} PassedOver(pattern: Option<string>, all: seq<Entry>, from: nat, k: nat)
    requires from <= k <= |all| && forall i :: from <= i < k ==> Refuses(pattern, all[i])
    ensures Accepted(pattern, all[from..k]) == []
    ensures Accepted(pattern, all[from..]) == Accepted(pattern, all[k..])
    decreases k - from
  {
    if from < k {
      assert Refuses(pattern, all[from]);
      PassedOver(pattern, all, from + 1, k);
      OneAhead(pattern, all, from);
      OneAhead(pattern, all[..k], from);
      assert all[..k][from..] == all[from..k] && all[..k][from + 1..] == all[from + 1..k];
    }
  }

  lemma {:induction false} AcceptedJoins(pattern: Option<string>, a: seq<Entry>, b: seq<Entry>)
    ensures Accepted(pattern, a + b) == Accepted(pattern, a) + Accepted(pattern, b)
  {
    if a == [] {
      assert a + b == b;
    } else {
      assert (a + b)[1..] == a[1..] + b;
      AcceptedJoins(pattern, a[1..], b);
    }
  }
}
