/**
 The texture cache of recomp-runtime/d3d_presenter_d3d11.cpp: a first-in first-out
 array of slots, found through a multimap from guest address to slot.  What the
 host makes of a texture, and whether the multimap can grow, come from outside.
 */
module TextureCache {
  import opened MachineWords
  import Arith

  const SLOTS := 4096
  const LINEAR_BGRA := 0x12

  /** Everything a cached texture is known by; only palettised ones have a palette. */
  datatype Key = Key(data: nat, format: nat, width: nat, height: nat, levels: nat, palette: Option<seq<nat>>)

  /** A host texture: what it is for, and the guest's bytes it shows. */
  datatype View = View(id: nat, key: Key, texels: seq<byte>)

  datatype Slot = Slot(used: bool, key: Key, fingerprint: nat, view: View)

  const UNUSED: Slot := var key := Key(0, 0, 0, 0, 0, None); Slot(false, key, 0, View(0, key, []))

  /** Where an address leads; a multimap may hold a pair more than once. */
  type Index = multiset<(nat, nat)>

  /** What a search through all slots would find. */
  predicate Cached(s: seq<Slot>, key: Key, i: nat) {
    i < |s| && s[i].used && s[i].key == key
  }

  predicate Listed(s: seq<Slot>, data: nat, i: nat) {
    i < |s| && s[i].used && s[i].key.data == data
  }

  /** One entry for every used slot, none for the others. */
  ghost predicate Indexed(s: seq<Slot>, index: Index) {
    forall data: nat, i: nat :: index[(data, i)] == if Listed(s, data, i) then 1 else 0
  }

  /** No two used slots for one key. */
  ghost predicate Distinct(s: seq<Slot>) {
    forall key: Key, i: nat, j: nat :: Cached(s, key, i) && Cached(s, key, j) ==> i == j
  }

  /** Slots are filled in order, and hold textures made for their keys. */
  ghost predicate Filled(s: seq<Slot>, count: nat) {
    forall i: nat :: i < |s| && s[i].used ==> i < count && s[i].view.key == s[i].key
  }

  const MAX_DIMENSION := 16384

  /** How the guest describes the memory of a texture. */
  datatype Surface = Surface(linear: bool, depth: bool, bits: nat, pitch: nat)

  /** A linear texture that can be shown: 32-bit rows that lie within its bytes. */
  predicate Showable(key: Key, surface: Surface, bytes: Option<seq<byte>>) {
    && surface.linear && !surface.depth && surface.bits == 32
    && 0 < key.width <= MAX_DIMENSION && 0 < key.height <= MAX_DIMENSION && surface.pitch >= key.width * 4
    && bytes.Some? && (key.height - 1) * surface.pitch + key.width * 4 <= |bytes.value|
  }

  /** A texel and the start of the next row. */
  predicate TexelLies(key: Key, surface: Surface, n: nat, x: nat, y: nat) {
    y * surface.pitch + 4 * x + 4 <= n && y * surface.pitch + 4 * x + 4 <= (y + 1) * surface.pitch
  }

  /** A texture of 32-bit texels can be shown exactly if every texel of it lies within
      its bytes and before the next row. */
  lemma ShowableMeans(key: Key, surface: Surface, bytes: seq<byte>)
    ensures !Showable(key, surface, None)
    ensures Showable(key, surface, Some(bytes)) <==>
      && surface.linear && !surface.depth && surface.bits == 32
      && 1 <= key.width <= 0x4000 && 1 <= key.height <= 0x4000
      && forall x: nat, y: nat :: x < key.width && y < key.height ==> TexelLies(key, surface, |bytes|, x, y)
  {
    if 1 <= key.width && 1 <= key.height {
      var lastX, lastY := key.width - 1, key.height - 1;
      Arith.OneMore(lastY, surface.pitch);
      if (key.height - 1) * surface.pitch + key.width * 4 <= |bytes| && surface.pitch >= key.width * 4 {
        forall x: nat, y: nat | x < key.width && y < key.height ensures TexelLies(key, surface, |bytes|, x, y) {
          Arith.TimesMonotone(y, lastY, surface.pitch, surface.pitch);
          Arith.OneMore(y, surface.pitch);
        }
      } else {
        assert !TexelLies(key, surface, |bytes|, lastX, lastY);
      }
    }
  }

  /** The fingerprint of the bytes of a texture. */
  type Hash = seq<byte> -> nat

  /** A slot remembers the fingerprint of what its texture shows; linear textures
      have none. */
  ghost predicate Printed(s: seq<Slot>, hash: Hash) {
    forall i: nat :: i < |s| && s[i].used && s[i].key.format != LINEAR_BGRA ==> s[i].fingerprint == hash(s[i].view.texels)
  }

  /** What is served shows these bytes; with a fingerprint, bytes of the same one. */
  predicate Shows(v: View, key: Key, bytes: seq<byte>, hash: Hash) {
    v.key == key && if key.format == LINEAR_BGRA then v.texels == bytes else hash(v.texels) == hash(bytes)
  }

  /** The right texture with the right bytes always shows them, and what shows them has
      them wherever the fingerprint tells its bytes from these. */
  lemma ShowsMeans(v: View, key: Key, bytes: seq<byte>, hash: Hash)
    ensures v.key == key && v.texels == bytes ==> Shows(v, key, bytes, hash)
    ensures Shows(v, key, bytes, hash) ==> v.key == key
    ensures Shows(v, key, bytes, hash) && (key.format == 0x12 || hash(v.texels) != hash(bytes)) ==> v.texels == bytes
    ensures v.key == key && key.format != 0x12 && hash(v.texels) == hash(bytes) ==> Shows(v, key, bytes, hash)
  {
  }

  ghost predicate Sound(s: seq<Slot>, index: Index, next: nat, count: nat) {
    && |s| == SLOTS && next < SLOTS && count <= SLOTS && (count < SLOTS ==> next == count)
    && Indexed(s, index) && Distinct(s) && Filled(s, count)
  }

  /** Taking a used slot out of use, and out of the index. */
  lemma Dropped(s: seq<Slot>, index: Index, next: nat, count: nat, i: nat)
    requires Sound(s, index, next, count) && i < SLOTS && s[i].used
    ensures Sound(s[i := s[i].(used := false)], index - multiset{(s[i].key.data, i)}, next, count)
    ensures forall key: Key, j: nat ::
      Cached(s[i := s[i].(used := false)], key, j) <==> Cached(s, key, j) && j != i
  {
    var t, rest := s[i := s[i].(used := false)], index - multiset{(s[i].key.data, i)};
    assert index[(s[i].key.data, i)] == 1;
    forall data: nat, j: nat ensures rest[(data, j)] == if Listed(t, data, j) then 1 else 0 {
      assert index[(data, j)] == if Listed(s, data, j) then 1 else 0;
    }
    forall key: Key, a: nat, b: nat | Cached(t, key, a) && Cached(t, key, b) ensures a == b {
      assert Cached(s, key, a) && Cached(s, key, b);
    }
  }

  function Freed(slot: Slot, base: nat, end: nat): Slot {
    if base <= slot.key.data < end then slot.(used := false) else slot
  }

  function Advanced(next: nat): nat { if next + 1 == SLOTS then 0 else next + 1 }

  /** The slots are taken in turn. */
  lemma AdvancedMeans(next: nat)
    requires next < SLOTS
    ensures Advanced(next) == (next + 1) % 4096
  {
  }

  /** Filling an unused slot with a new key. */
  lemma Added(s: seq<Slot>, index: Index, next: nat, count: nat, e: Slot)
    requires Sound(s, index, next, count) && !s[next].used
    requires e.used && e.view.key == e.key
    requires forall j: nat :: !Cached(s, e.key, j)
    ensures Sound(s[next := e], index + multiset{(e.key.data, next)}, Advanced(next), if count < SLOTS then count + 1 else count)
  {
    var t, more := s[next := e], index + multiset{(e.key.data, next)};
    forall data: nat, j: nat ensures more[(data, j)] == if Listed(t, data, j) then 1 else 0 {
      assert index[(data, j)] == if Listed(s, data, j) then 1 else 0;
    }
    forall key: Key, a: nat, b: nat | Cached(t, key, a) && Cached(t, key, b) ensures a == b {
      if a != next { assert Cached(s, key, a); }
      if b != next { assert Cached(s, key, b); }
    }
  }

  /** Writing an unused slot that stays unused. */
  lemma Skipped(s: seq<Slot>, index: Index, next: nat, count: nat, e: Slot)
    requires Sound(s, index, next, count) && !s[next].used && !e.used
    ensures Sound(s[next := e], index, Advanced(next), if count < SLOTS then count + 1 else count)
  {
    var t := s[next := e];
    forall data: nat, j: nat ensures index[(data, j)] == if Listed(t, data, j) then 1 else 0 {
      assert index[(data, j)] == if Listed(s, data, j) then 1 else 0;
    }
    forall key: Key, a: nat, b: nat | Cached(t, key, a) && Cached(t, key, b) ensures a == b {
      assert Cached(s, key, a) && Cached(s, key, b);
    }
  }

  /** Uploading new bytes into the texture of a used slot. */
  lemma Refreshed(s: seq<Slot>, index: Index, next: nat, count: nat, i: nat, texels: seq<byte>)
    requires Sound(s, index, next, count) && i < SLOTS && s[i].used
    ensures Sound(s[i := s[i].(view := s[i].view.(texels := texels))], index, next, count)
  {
    var t := s[i := s[i].(view := s[i].view.(texels := texels))];
    forall data: nat, j: nat ensures Listed(t, data, j) == Listed(s, data, j) {
    }
    forall key: Key, a: nat, b: nat | Cached(t, key, a) && Cached(t, key, b) ensures a == b {
      assert Cached(s, key, a) && Cached(s, key, b);
    }
  }

  class Cache {
    const slots: array<Slot>
    const hash: Hash
    var index: Index
    var next: nat
    var count: nat

    ghost predicate Valid()
      reads this, slots
    {
      Sound(slots[..], index, next, count) && Printed(slots[..], hash)
    }

    constructor (hash: Hash)
      ensures Valid() && fresh(slots) && this.hash == hash && forall key: Key, i: nat :: !Cached(slots[..], key, i)
    {
      slots := new Slot[SLOTS](_ => UNUSED);
      this.hash := hash;
      index, next, count := multiset{}, 0, 0;
    }

    /** Look a key up through the index. */
    method Find(key: Key) returns (found: Option<nat>)
      requires Valid()
      ensures found.Some? ==> Cached(slots[..], key, found.value)
      ensures found.None? ==> forall i: nat :: !Cached(slots[..], key, i)
    {
      var range := set p | p in index && p.0 == key.data;
      while range != {}
        invariant forall p :: p in range ==> p in index && p.0 == key.data
        invariant forall i: nat :: Cached(slots[..], key, i) ==> (key.data, i) in range
        decreases range
      {
        var p :| p in range;
        assert index[(p.0, p.1)] > 0;
        assert Listed(slots[..], p.0, p.1);
        if slots[p.1].key == key { return Some(p.1); }
        range := range - {p};
      }
      return None;
    }

    /** Remove one entry of a slot from the index. */
    method Unindex(slot: nat)
      requires slot < slots.Length
      modifies this`index
      ensures index == old(index) - multiset{(slots[slot].key.data, slot)}
    {
      var entry := (slots[slot].key.data, slot);
      var range := set p | p in index && p.0 == slots[slot].key.data;
      while range != {}
        invariant index == old(index)
        invariant entry in index ==> entry in range
        decreases range
      {
        var p :| p in range;
        if p == entry {
          index := index - multiset{p};
          return;
        }
        range := range - {p};
      }
    }

    /** Take a slot out of use. */
    method Drop(slot: nat)
      requires Valid() && slot < SLOTS && slots[slot].used
      modifies this`index, slots
      ensures Valid() && slots[..] == old(slots[..])[slot := old(slots[slot]).(used := false)]
      ensures forall key: Key, j: nat :: Cached(slots[..], key, j) <==> Cached(old(slots[..]), key, j) && j != slot
    {
      Dropped(slots[..], index, next, count, slot);
      Unindex(slot);
      slots[slot] := slots[slot].(used := false);
      assert slots[..] == old(slots[..])[slot := old(slots[slot]).(used := false)];
    }

    /** Put a new texture into the next slot, over what it holds. */
    method Insert(key: Key, fingerprint: nat, view: View, indexGrows: bool) returns (kept: bool)
      requires Valid() && view.key == key && (key.format != LINEAR_BGRA ==> fingerprint == hash(view.texels))
      requires forall i: nat :: !Cached(slots[..], key, i)
      modifies this, slots
      ensures Valid() && kept == indexGrows
      ensures slots[..] == old(slots[..])[old(next) := Slot(kept, key, fingerprint, view)]
      ensures next == Advanced(old(next)) && count == if old(count) < SLOTS then old(count) + 1 else old(count)
    {
      var slot := next;
      if slots[slot].used { Drop(slot); }
      ghost var before, listed := slots[..], index;
      next := (next + 1) % SLOTS;
      if count < SLOTS { count := count + 1; }
      slots[slot] := Slot(true, key, fingerprint, view);
      if !indexGrows {
        slots[slot] := slots[slot].(used := false);
        assert slots[..] == before[slot := slots[slot]];
        Skipped(before, listed, slot, old(count), slots[slot]);
        return false;
      }
      index := index + multiset{(key.data, slot)};
      assert slots[..] == before[slot := slots[slot]];
      Added(before, listed, slot, old(count), slots[slot]);
      return true;
    }

    /** Upload new bytes into the texture of a slot. */
    method Refresh(slot: nat, texels: seq<byte>) returns (view: View)
      requires Valid() && slot < SLOTS && slots[slot].used && slots[slot].key.format == LINEAR_BGRA
      modifies slots
      ensures Valid() && view == old(slots[slot]).view.(texels := texels)
      ensures slots[..] == old(slots[..])[slot := old(slots[slot]).(view := view)]
    {
      Refreshed(slots[..], index, next, count, slot, texels);
      view := slots[slot].view.(texels := texels);
      slots[slot] := slots[slot].(view := view);
      assert slots[..] == old(slots[..])[slot := old(slots[slot]).(view := view)];
    }

    /** Serve a texture that is to show these bytes, where the draw has any; `made`
        is the host texture that would be made of them, if one can be. */
    method Lookup(key: Key, surface: Surface, bytes: Option<seq<byte>>, made: Option<nat>, indexGrows: bool)
      returns (view: Option<View>, ghost stale: Option<nat>)
      requires Valid()
      modifies this, slots
      ensures Valid()
      // whatever is served shows the bytes of this draw
      ensures view.Some? && bytes.Some? ==> Shows(view.value, key, bytes.value, hash)
      ensures key.format == LINEAR_BGRA && !Showable(key, surface, bytes) ==>
        view == None && slots[..] == old(slots[..]) && next == old(next) && count == old(count)
      // the entry for this key, if its bytes have changed
      ensures forall i: nat :: stale == Some(i) <==>
        Cached(old(slots[..]), key, i) && key.format != LINEAR_BGRA && bytes.Some?
        && old(slots[..])[i].fingerprint != hash(bytes.value)
      // a hit changes nothing, except that a linear texture is given the new bytes
      ensures forall i: nat ::
        Cached(old(slots[..]), key, i) && stale.None? && (key.format == LINEAR_BGRA ==> Showable(key, surface, bytes)) ==>
        var shown := if key.format == LINEAR_BGRA then old(slots[..])[i].view.(texels := bytes.value) else old(slots[..])[i].view;
        && view == Some(shown) && slots[..] == old(slots[..])[i := old(slots[..])[i].(view := shown)]
        && next == old(next) && count == old(count)
      // otherwise the stale entry goes, and the new texture takes the next slot
      ensures (forall i: nat :: !Cached(old(slots[..]), key, i)) || stale.Some? ==>
        var kept := if stale.Some? then old(slots[..])[stale.value := old(slots[..])[stale.value].(used := false)] else old(slots[..]);
        if made.None? || bytes.None? || (key.format == LINEAR_BGRA && !Showable(key, surface, bytes)) then
          view == None && slots[..] == kept && next == old(next) && count == old(count)
        else
          var newView := View(made.value, key, bytes.value);
          var mark := if key.format == LINEAR_BGRA then 0 else hash(bytes.value);
          && slots[..] == kept[old(next) := Slot(indexGrows, key, mark, newView)]
          && view == (if indexGrows then Some(newView) else None)
          && next == Advanced(old(next)) && count == if old(count) < SLOTS then old(count) + 1 else old(count)
    {
      stale := None;
      if key.format == LINEAR_BGRA && !Showable(key, surface, bytes) { return None, None; }
      var printed := key.format != LINEAR_BGRA && bytes.Some?;
      var mark := if printed then hash(bytes.value) else 0;
      var found := Find(key);
      if found.Some? {
        var entry := slots[found.value];
        if !printed || entry.fingerprint == mark {
          if key.format != LINEAR_BGRA { return Some(entry.view), None; }
          var shown := Refresh(found.value, bytes.value);
          return Some(shown), None;
        }
        stale := found;
        Drop(found.value);
      }
      if made.None? || bytes.None? { return None, stale; }
      var newView := View(made.value, key, bytes.value);
      var kept := Insert(key, mark, newView, indexGrows);
      if !kept { return None, stale; }
      return Some(newView), stale;
    }

    /** Drop every texture whose address lies in a released range. */
    method Release(base: nat, end: nat)
      requires Valid()
      modifies this`index, slots
      ensures Valid()
      ensures forall i: nat :: i < SLOTS ==> slots[i] == Freed(old(slots[..])[i], base, end)
      // spelled out: a texture stays exactly if it begins below the range or behind it
      ensures forall i: nat :: i < SLOTS ==>
        && slots[i].key == old(slots[..])[i].key && slots[i].view == old(slots[..])[i].view
        && (slots[i].used <==> old(slots[..])[i].used && (slots[i].key.data < base || slots[i].key.data >= end))
    {
      var i := 0;
      while i < count
        invariant i <= count && Valid()
        invariant forall j: nat :: j < i ==> slots[j] == Freed(old(slots[..])[j], base, end)
        invariant forall j: nat :: i <= j < SLOTS ==> slots[j] == old(slots[..])[j]
      {
        if slots[i].used && base <= slots[i].key.data < end { Drop(i); }
        i := i + 1;
      }
    }
  }
}
