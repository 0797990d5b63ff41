/**
 The record that recomp-runtime/directory_model.c writes for a directory entry: a
 header of little-endian words, the name and its terminator, zeros after that.
 */
module DirectoryRecord {
  import opened MachineWords
  import opened Directory

  const HEADER_SIZE := 0x40

  function Little(value: nat, width: nat): (bytes: seq<byte>)
    ensures |bytes| == width
    decreases width
  {
    if width == 0 then [] else [value % 0x100] + Little(value / 0x100, width - 1)
  }

  /** How many values a width can tell apart. */
  function Range(width: nat): nat { if width == 0 then 1 else 0x100 * Range(width - 1) }

  lemma {:induction false} LittleOnce(a: nat, b: nat, width: nat)
    requires a < Range(width) && b < Range(width) && Little(a, width) == Little(b, width)
    ensures a == b
    decreases width
  {
    if width > 0 {
      assert Little(a, width)[1..] == Little(a / 0x100, width - 1);
      assert Little(b, width)[1..] == Little(b / 0x100, width - 1);
      assert Little(a, width)[0] == Little(b, width)[0];
      LittleOnce(a / 0x100, b / 0x100, width - 1);
    }
  }

  lemma Ranges()
    ensures Range(4) == 0x1_0000_0000 && Range(8) == 0x1_0000_0000_0000_0000
  {
  }

  /** Names are made of bytes other than the terminator. */
  predicate ByteName(name: string) { forall i :: 0 <= i < |name| ==> 0 < name[i] as int < 0x100 }

  function NameBytes(name: string): (bytes: seq<byte>)
    requires ByteName(name)
    ensures |bytes| == |name|
  {
    seq(|name|, i requires 0 <= i < |name| => name[i] as int)
  }

  /** A word of the header: its value, and how many bytes it takes. */
  type Field = (nat, nat)

  /** The header, word by word; it begins with a word that is not used. */
  function Header(e: Entry): (fields: seq<Field>)
    ensures |fields| == 9
  {
    [(0, 8), (e.creation, 8), (e.lastAccess, 8), (e.lastWrite, 8), (e.change, 8), (e.size, 8), (e.allocation, 8),
     (e.attributes, 4), (|e.name|, 4)]
  }

  /** The first n words, one behind the other. */
  function UpTo(fields: seq<Field>, n: nat): seq<byte>
    requires n <= |fields|
  {
    if n == 0 then [] else UpTo(fields, n - 1) + Little(fields[n - 1].0, fields[n - 1].1)
  }

  function Offset(fields: seq<Field>, n: nat): nat
    requires n <= |fields|
  {
    if n == 0 then 0 else Offset(fields, n - 1) + fields[n - 1].1
  }

  lemma {:induction false} UpToLength(fields: seq<Field>, n: nat)
    requires n <= |fields|
    ensures |UpTo(fields, n)| == Offset(fields, n)
  {
    if n > 0 { UpToLength(fields, n - 1); }
  }

  function HeaderBytes(e: Entry): seq<byte> { UpTo(Header(e), |Header(e)|) }

  function Record(e: Entry): seq<byte>
    requires ByteName(e.name)
  {
    HeaderBytes(e) + (NameBytes(e.name) + [0])
  }

  // ---------------------------------------------------------------- reading back

  predicate InRange(fields: seq<Field>) {
    forall k :: 0 <= k < |fields| ==> fields[k].0 < Range(fields[k].1)
  }

  predicate SameWidths(a: seq<Field>, b: seq<Field>) {
    |a| == |b| && forall k :: 0 <= k < |a| ==> a[k].1 == b[k].1
  }

  lemma {:induction false} SameOffsets(a: seq<Field>, b: seq<Field>, n: nat)
    requires SameWidths(a, b) && n <= |a|
    ensures Offset(a, n) == Offset(b, n)
  {
    if n > 0 { SameOffsets(a, b, n - 1); }
  }

  lemma SameHalves(a: seq<byte>, x: seq<byte>, b: seq<byte>, y: seq<byte>)
    requires a + x == b + y && |a| == |b|
    ensures a == b && x == y
  {
    assert (a + x)[..|a|] == a && (b + y)[..|a|] == b;
    assert (a + x)[|a|..] == x && (b + y)[|a|..] == y;
  }

  /** Words of known widths are told by their bytes. */
  lemma {:induction false} WordsTell(a: seq<Field>, b: seq<Field>, n: nat, k: nat)
    requires SameWidths(a, b) && InRange(a) && InRange(b) && k < n <= |a| && UpTo(a, n) == UpTo(b, n)
    ensures a[k] == b[k]
    decreases n
  {
    UpToLength(a, n - 1);
    UpToLength(b, n - 1);
    SameOffsets(a, b, n - 1);
    var last := n - 1;
    SameHalves(UpTo(a, last), Little(a[last].0, a[last].1), UpTo(b, last), Little(b[last].0, b[last].1));
    if k == last { LittleOnce(a[k].0, b[k].0, a[k].1); } else { WordsTell(a, b, last, k); }
  }

  lemma HeaderInRange(e: Entry)
    requires |e.name| < NAME_SIZE
    ensures InRange(Header(e))
  {
    Ranges();
  }

  lemma HeaderTells(a: Entry, b: Entry)
    requires |a.name| < NAME_SIZE && |b.name| < NAME_SIZE && HeaderBytes(a) == HeaderBytes(b)
    ensures a == b.(name := a.name) && |a.name| == |b.name|
  {
    var p, q := Header(a), Header(b);
    HeaderInRange(a);
    HeaderInRange(b);
    forall k | 0 <= k < |p| ensures p[k] == q[k] { WordsTell(p, q, |p|, k); }
    assert p[1] == q[1] && p[2] == q[2] && p[3] == q[3] && p[4] == q[4];
    assert p[5] == q[5] && p[6] == q[6] && p[7] == q[7] && p[8] == q[8];
  }

  lemma NameTells(a: string, b: string, x: seq<byte>, y: seq<byte>)
    requires ByteName(a) && ByteName(b) && |a| == |b| && NameBytes(a) + x == NameBytes(b) + y
    ensures a == b
  {
    SameHalves(NameBytes(a), x, NameBytes(b), y);
    forall i | 0 <= i < |a| ensures a[i] == b[i] {
      assert NameBytes(a)[i] == NameBytes(b)[i];
    }
  }

  lemma RecordParts(e: Entry, room: seq<byte>)
    requires ByteName(e.name)
    ensures Record(e) + room == HeaderBytes(e) + (NameBytes(e.name) + ([0] + room))
  {
  }

  lemma SameHeaderLength(a: Entry, b: Entry)
    ensures |HeaderBytes(a)| == |HeaderBytes(b)|
  {
    SameLength(Header(a), Header(b));
  }

  lemma SameLength(p: seq<Field>, q: seq<Field>)
    requires SameWidths(p, q)
    ensures |UpTo(p, |p|)| == |UpTo(q, |q|)|
  {
    UpToLength(p, |p|);
    UpToLength(q, |q|);
    SameOffsets(p, q, |p|);
  }

  /** A record says what its entry was, whatever room it is written in. */
  lemma RecordTellsEntry(a: Entry, b: Entry, roomA: seq<byte>, roomB: seq<byte>)
    requires ByteName(a.name) && ByteName(b.name) && |a.name| < NAME_SIZE && |b.name| < NAME_SIZE
    requires Record(a) + roomA == Record(b) + roomB
    ensures a == b
  {
    RecordParts(a, roomA);
    RecordParts(b, roomB);
    SameHeaderLength(a, b);
    SameHalves(HeaderBytes(a), NameBytes(a.name) + ([0] + roomA), HeaderBytes(b), NameBytes(b.name) + ([0] + roomB));
    HeaderTells(a, b);
    NameTells(a.name, b.name, [0] + roomA, [0] + roomB);
  }

  // --------------------------------------------------------------- the layout

  /** The number that bytes are, the first one lowest. */
  function LittleEndian(s: seq<byte>): nat { if s == [] then 0 else s[0] + 0x100 * LittleEndian(s[1..]) }

  lemma {:induction false} LittleRead(value: nat, width: nat)
    requires value < Range(width)
    ensures LittleEndian(Little(value, width)) == value
    decreases width
  {
    if width > 0 { LittleRead(value / 0x100, width - 1); }
  }

  /** The bytes of one of the words. */
  lemma {:induction false} WordPlace(fields: seq<Field>, n: nat, k: nat)
    requires k < n <= |fields|
    ensures Offset(fields, k) + fields[k].1 <= |UpTo(fields, n)|
    ensures UpTo(fields, n)[Offset(fields, k)..Offset(fields, k) + fields[k].1] == Little(fields[k].0, fields[k].1)
  {
    UpToLength(fields, n - 1);
    if k < n - 1 {
      WordPlace(fields, n - 1, k);
    }
  }

  lemma WordReads(e: Entry, k: nat, at: nat, width: nat)
    requires ByteName(e.name) && |e.name| < NAME_SIZE && k < 9
    requires at == Offset(Header(e), k) && width == Header(e)[k].1
    ensures at + width <= |Record(e)| && LittleEndian(Record(e)[at..at + width]) == Header(e)[k].0
  {
    var f := Header(e);
    WordPlace(f, 9, k);
    HeaderInRange(e);
    LittleRead(f[k].0, f[k].1);
    assert Record(e)[at..at + width] == HeaderBytes(e)[at..at + width];
  }

  /** Where a reader finds what: the four times, the two sizes, the attributes, the
      length of the name, and the name with its terminator. */
  lemma RecordLayout(e: Entry)
    requires ByteName(e.name) && |e.name| < NAME_SIZE
    ensures var r := Record(e);
      && |r| == 0x41 + |e.name|
      && LittleEndian(r[0x08..0x10]) == e.creation && LittleEndian(r[0x10..0x18]) == e.lastAccess
      && LittleEndian(r[0x18..0x20]) == e.lastWrite && LittleEndian(r[0x20..0x28]) == e.change
      && LittleEndian(r[0x28..0x30]) == e.size && LittleEndian(r[0x30..0x38]) == e.allocation
      && LittleEndian(r[0x38..0x3c]) == e.attributes && LittleEndian(r[0x3c..0x40]) == |e.name|
      && LittleEndian(r[0x00..0x08]) == 0
      && (forall i :: 0 <= i < |e.name| ==> r[0x40 + i] == e.name[i] as int) && r[0x40 + |e.name|] == 0
  {
    Offsets(e);
    UpToLength(Header(e), 9);
    WordReads(e, 0, 0x00, 8);
    WordReads(e, 1, 0x08, 8);
    WordReads(e, 2, 0x10, 8);
    WordReads(e, 3, 0x18, 8);
    WordReads(e, 4, 0x20, 8);
    WordReads(e, 5, 0x28, 8);
    WordReads(e, 6, 0x30, 8);
    WordReads(e, 7, 0x38, 4);
    WordReads(e, 8, 0x3c, 4);
  }

  // -------------------------------------------------------------------- writing

  /** The first n words are written, and nothing behind them. */
  ghost predicate Written(bytes: seq<byte>, fields: seq<Field>, n: nat) {
    n <= |fields| && Offset(fields, n) <= |bytes| && bytes == UpTo(fields, n) + Zeros(|bytes| - Offset(fields, n))
  }

  /** Put bytes at an offset. */
  method Put(buffer: array<byte>, at: nat, part: seq<byte>)
    requires at + |part| <= buffer.Length
    modifies buffer
    ensures buffer[..] == old(buffer[..at]) + part + old(buffer[at + |part|..])
  {
    forall i | 0 <= i < |part| { buffer[at + i] := part[i]; }
  }

  lemma PutBehind(front: seq<byte>, part: seq<byte>, room: nat, bytes: seq<byte>)
    requires bytes == front + Zeros(room) && |part| <= room
    ensures bytes[..|front|] + part + bytes[|front| + |part|..] == (front + part) + Zeros(room - |part|)
  {
  }

  /** Write the next word at its offset. */
  method WriteWord(buffer: array<byte>, at: nat, value: nat, width: nat, ghost fields: seq<Field>, ghost n: nat)
    requires n < |fields| && fields[n] == (value, width) && at == Offset(fields, n) && at + width <= buffer.Length
    requires Written(buffer[..], fields, n)
    modifies buffer
    ensures Written(buffer[..], fields, n + 1)
  {
    UpToLength(fields, n);
    PutBehind(UpTo(fields, n), Little(value, width), buffer.Length - at, buffer[..]);
    Put(buffer, at, Little(value, width));
  }

  lemma Offsets(e: Entry)
    ensures var f := Header(e);
      && Offset(f, 1) == 0x08 && Offset(f, 2) == 0x10 && Offset(f, 3) == 0x18 && Offset(f, 4) == 0x20 && Offset(f, 5) == 0x28
      && Offset(f, 6) == 0x30 && Offset(f, 7) == 0x38 && Offset(f, 8) == 0x3c && Offset(f, 9) == HEADER_SIZE
  {
    var f := Header(e);
    assert Offset(f, 2) == Offset(f, 1) + 8 && Offset(f, 3) == Offset(f, 2) + 8 && Offset(f, 4) == Offset(f, 3) + 8;
    assert Offset(f, 5) == Offset(f, 4) + 8 && Offset(f, 6) == Offset(f, 5) + 8 && Offset(f, 7) == Offset(f, 6) + 8;
  }

  lemma Cleared(bytes: seq<byte>, e: Entry)
    requires |bytes| >= 8 && forall i :: 0 <= i < |bytes| ==> bytes[i] == 0
    ensures Written(bytes, Header(e), 1)
  {
    var f := Header(e);
    ZeroWord(f[0].1);
    assert UpTo(f, 1) == UpTo(f, 0) + Little(f[0].0, f[0].1);
  }

  lemma {:induction false} ZeroWord(width: nat)
    ensures Little(0, width) == Zeros(width)
  {
    if width > 0 { ZeroWord(width - 1); }
  }

  method WriteHeader(e: Entry, buffer: array<byte>)
    requires buffer.Length >= HEADER_SIZE && Written(buffer[..], Header(e), 1)
    modifies buffer
    ensures Written(buffer[..], Header(e), 9)
  {
    ghost var f := Header(e);
    Offsets(e);
    WriteWord(buffer, 0x08, e.creation, 8, f, 1);
    WriteWord(buffer, 0x10, e.lastAccess, 8, f, 2);
    WriteWord(buffer, 0x18, e.lastWrite, 8, f, 3);
    WriteWord(buffer, 0x20, e.change, 8, f, 4);
    WriteWord(buffer, 0x28, e.size, 8, f, 5);
    WriteWord(buffer, 0x30, e.allocation, 8, f, 6);
    WriteWord(buffer, 0x38, e.attributes, 4, f, 7);
    WriteWord(buffer, 0x3c, |e.name|, 4, f, 8);
  }

  method Serialize(e: Entry, buffer: array<byte>) returns (ok: bool, written: nat)
    requires ByteName(e.name)
    modifies buffer
    ensures ok <==> |e.name| < NAME_SIZE && HEADER_SIZE + |e.name| + 1 <= buffer.Length
    ensures !ok ==> buffer[..] == old(buffer[..]) && written == 0
    ensures ok ==> written == |Record(e)| <= buffer.Length && buffer[..] == Record(e) + Zeros(buffer.Length - written)
  {
    if |e.name| >= NAME_SIZE || HEADER_SIZE + |e.name| + 1 > buffer.Length { return false, 0; }
    forall i | 0 <= i < buffer.Length { buffer[i] := 0; }
    Cleared(buffer[..], e);
    WriteHeader(e, buffer);
    Offsets(e);
    ghost var f := Header(e);
    UpToLength(f, |f|);
    PutBehind(UpTo(f, |f|), NameBytes(e.name) + [0], buffer.Length - HEADER_SIZE, buffer[..]);
    Put(buffer, HEADER_SIZE, NameBytes(e.name) + [0]);
    return true, HEADER_SIZE + |e.name| + 1;
  }
}
