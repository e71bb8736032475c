/** Little-endian words and in-place edits of byte strings. */
module ByteStrings {
  import opened Bytes

  const U32: nat := 0x1_0000_0000

  function Zeros(n: nat): (z: seq<Byte>)
    ensures |z| == n && forall i :: 0 <= i < n ==> z[i] == 0
  {
    seq(n, _ => 0)
  }

  /** `b` with `data` written over it from `off` on. */
  function Overwrite(b: seq<Byte>, off: nat, data: seq<Byte>): (r: seq<Byte>)
    requires off + |data| <= |b|
    ensures |r| == |b|
  {
    b[..off] + data + b[off + |data|..]
  }

  function Le32(v: nat): (b: seq<Byte>)
    ensures |b| == 4
  {
    [v % 256, v / 256 % 256, v / 65536 % 256, v / 16777216 % 256]
  }

  function Read32(b: seq<Byte>, off: nat): (v: nat)
    requires off + 4 <= |b|
    ensures v < U32
  {
    b[off] as int + 256 * b[off + 1] as int + 65536 * b[off + 2] as int + 16777216 * b[off + 3] as int
  }

  function Write32(b: seq<Byte>, off: nat, v: nat): (r: seq<Byte>)
    requires off + 4 <= |b|
    ensures |r| == |b|
  {
    Overwrite(b, off, Le32(v))
  }

  /** The least significant byte comes first. */
  lemma LittleEndian(v: Byte)
    ensures Le32(v) == [v, 0, 0, 0] && Le32(16777216 * v) == [0, 0, 0, v]
    ensures Read32([v, 0, 0, 0], 0) == v && Read32([0, 0, 0, v], 0) == 16777216 * v
  {
    assert 16777216 * v == 256 * (65536 * v) && 65536 * v == 256 * (256 * v);
    assert 16777216 * v / 256 == 65536 * v && 16777216 * v / 65536 == 256 * v;
  }

  lemma ReadOverwritten(b: seq<Byte>, off: nat, v: nat)
    requires off + 4 <= |b| && v < U32
    ensures Read32(Write32(b, off, v), off) == v
  {
    var w := Write32(b, off, v);
    assert w[off] == Le32(v)[0] && w[off + 1] == Le32(v)[1] && w[off + 2] == Le32(v)[2] && w[off + 3] == Le32(v)[3];
    Digits(v);
  }

  lemma Digits(v: nat)
    requires v < U32
    ensures v % 256 + 256 * (v / 256 % 256) + 65536 * (v / 65536 % 256) + 16777216 * (v / 16777216 % 256) == v
  {
    assert v / 65536 == v / 256 / 256;
    assert v / 16777216 == v / 65536 / 256;
  }

  lemma ReadBeside(b: seq<Byte>, off: nat, data: seq<Byte>, at: nat)
    requires off + |data| <= |b| && at + 4 <= |b|
    requires at + 4 <= off || off + |data| <= at
    ensures Read32(Overwrite(b, off, data), at) == Read32(b, at)
  {
  }

  lemma OverwriteAt(b: seq<Byte>, off: nat, data: seq<Byte>, k: nat)
    requires off + |data| <= |b| && k < |b|
    ensures Overwrite(b, off, data)[k] == if off <= k < off + |data| then data[k - off] else b[k]
  {
  }

  lemma OverwriteTwice(b: seq<Byte>, off: nat, x: seq<Byte>, y: seq<Byte>)
    requires off + |x| <= |b| && |y| == |x|
    ensures Overwrite(Overwrite(b, off, x), off, y) == Overwrite(b, off, y)
  {
  }

  lemma Write32Twice(b: seq<Byte>, off: nat, x: nat, y: nat)
    requires off + 4 <= |b|
    ensures Write32(Write32(b, off, x), off, y) == Write32(b, off, y)
  {
    OverwriteTwice(b, off, Le32(x), Le32(y));
  }

  lemma OverwriteCommutes(b: seq<Byte>, i: nat, x: seq<Byte>, j: nat, y: seq<Byte>)
    requires i + |x| <= j && j + |y| <= |b|
    ensures Overwrite(Overwrite(b, i, x), j, y) == Overwrite(Overwrite(b, j, y), i, x)
  {
    var p, q := Overwrite(Overwrite(b, i, x), j, y), Overwrite(Overwrite(b, j, y), i, x);
    forall k | 0 <= k < |b|
      ensures p[k] == q[k]
    {
    }
  }

  /** Writing back the word that is already there changes nothing. */
  lemma WriteBack(b: seq<Byte>, off: nat)
    requires off + 4 <= |b|
    ensures Write32(b, off, Read32(b, off)) == b
  {
    var v := Read32(b, off);
    LowDigits(b[off] as int, b[off + 1] as int, b[off + 2] as int, b[off + 3] as int);
    assert Le32(v) == b[off..off + 4];
  }

  lemma LowDigits(b0: int, b1: int, b2: int, b3: int)
    requires 0 <= b0 < 256 && 0 <= b1 < 256 && 0 <= b2 < 256 && 0 <= b3 < 256
    ensures var v := b0 + 256 * b1 + 65536 * b2 + 16777216 * b3;
            v % 256 == b0 && v / 256 % 256 == b1 && v / 65536 % 256 == b2 && v / 16777216 % 256 == b3
  {
    var v := b0 + 256 * b1 + 65536 * b2 + 16777216 * b3;
    assert v / 256 == b1 + 256 * b2 + 65536 * b3;
    assert v / 65536 == b2 + 256 * b3;
    assert v / 16777216 == b3;
  }

  lemma FloorBounds(n: nat, page: nat)
    requires page > 0
    ensures 0 <= n / page * page <= n < n / page * page + page
  {
    assert n == n / page * page + n % page;
  }

  /** `v` rounded up to a multiple of `page`. */
  function RoundUp(v: nat, page: nat): (r: nat)
    requires page > 0
    ensures v <= r < v + page
  {
    FloorBounds(v + page - 1, page);
    (v + page - 1) / page * page
  }

  /** The same in 32-bit arithmetic, where the sum wraps. */
  function RoundUp32(v: nat, page: nat): (r: nat)
    requires page > 0
    ensures r < U32
  {
    FloorBounds((v + page - 1) % U32, page);
    (v + page - 1) % U32 / page * page
  }

  lemma RoundUpExact(v: nat, page: nat)
    requires page > 0 && v + page <= U32
    ensures RoundUp32(v, page) == RoundUp(v, page)
  {
    assert (v + page - 1) % U32 == v + page - 1;
  }
}

/** What the vendor_boot rewriting functions compute, as a pipeline over immutable buffers. The
    structs they overlay on the image are described by a symbolic layout. `Stray` stands for an
    access outside the image, which the language leaves undefined. */
module VendorBootSpec {
  import opened Bytes
  import opened ByteStrings

  datatype Res<+T> = Ok(value: T) | Err | Stray {
    predicate IsFailure() { !Ok? }
    function PropagateFailure<U>(): Res<U>
      requires !Ok?
    {
      if Err? then Err else Stray
    }
    function Extract(): T
      requires Ok?
    {
      value
    }
  }

  /** Sizes of the header and table-entry structs, and the offsets of their fields. */
  datatype Layout = Layout(
    v3Size: nat, v4Size: nat, magic: seq<Byte>,
    version: nat, pageSize: nat, ramdiskSize: nat, dtbSize: nat,
    tableSize: nat, entryNum: nat, entryLen: nat, bootconfigSize: nat,
    entrySize: nat, size: nat, offset: nat, kind: nat, kindNone: nat, name: nat, nameSize: nat,
    board: nat, boardSize: nat,
    footerSize: nat, footerMagic: seq<Byte>)

  /** The magic comes first, fields are four bytes, in declaration order, and do not overlap. */
  ghost predicate LayoutOk(l: Layout) {
    && |l.magic| <= l.version && l.version + 4 <= l.pageSize && l.pageSize + 4 <= l.ramdiskSize
    && l.ramdiskSize + 4 <= l.dtbSize && l.dtbSize + 4 <= l.v3Size
    && l.v3Size <= l.tableSize && l.tableSize + 4 <= l.entryNum && l.entryNum + 4 <= l.entryLen
    && l.entryLen + 4 <= l.bootconfigSize && l.bootconfigSize + 4 <= l.v4Size
    && l.size + 4 <= l.offset && l.offset + 4 <= l.kind && l.kind + 4 <= l.name
    && l.name + l.nameSize <= l.board && l.board + l.boardSize <= l.entrySize
    && l.v4Size < U32 && l.entrySize < U32
    && 0 < |l.footerMagic| <= l.footerSize < U32 && l.footerMagic[0] != 0
  }

  // ------------------------------------------------------------ the updater

  /** An old image being read at `from` and a new one of the same size being written at `to`. */
  datatype Buf = Buf(old_: seq<Byte>, new_: seq<Byte>, from: nat, to: nat)

  /** Every step leaves the old image and the size of the new one alone. */
  ghost predicate Keeps(u: Buf, r: Res<Buf>) {
    r.Ok? ==> r.value.old_ == u.old_ && |r.value.new_| == |u.new_|
  }

  function Fresh(img: seq<Byte>): Buf { Buf(img, Zeros(|img|), 0, 0) }

  function Copy(u: Buf, n: nat): (r: Res<Buf>)
    ensures Keeps(u, r)
  {
    if n == 0 then Ok(u)
    else if u.from + n > |u.old_| || u.to + n > |u.new_| then Err
    else Ok(Buf(u.old_, Overwrite(u.new_, u.to, u.old_[u.from..u.from + n]), u.from + n, u.to + n))
  }

  function Replace(u: Buf, n: nat, data: seq<Byte>): (r: Res<Buf>)
    ensures Keeps(u, r)
  {
    if u.from + n > |u.old_| then Err
    else if data == [] then Ok(u.(from := u.from + n))
    else if u.to + |data| > |u.new_| then Err
    else Ok(Buf(u.old_, Overwrite(u.new_, u.to, data), u.from + n, u.to + |data|))
  }

  function Skip(u: Buf, a: nat, b: nat): (r: Res<Buf>)
    ensures Keeps(u, r)
  {
    if u.from + a > |u.old_| || u.to + b > |u.new_| then Err
    else Ok(u.(from := u.from + a, to := u.to + b))
  }

  function Seek(u: Buf, off: nat): (r: Res<Buf>)
    ensures Keeps(u, r)
  {
    if off > |u.old_| then Err else Ok(u.(from := off, to := off))
  }

  function CheckOffset(u: Buf, a: nat, b: nat): (r: Res<Buf>)
    ensures Keeps(u, r)
  {
    if u.from == a && u.to == b then Ok(u) else Err
  }

  /** A store through a struct pointer into the new image. */
  function Poke(u: Buf, off: nat, data: seq<Byte>): (r: Res<Buf>)
    ensures Keeps(u, r)
  {
    if off + |data| > |u.new_| then Stray else Ok(u.(new_ := Overwrite(u.new_, off, data)))
  }

  function Peek(img: seq<Byte>, off: nat): Res<nat> {
    if off + 4 > |img| then Stray else Ok(Read32(img, off))
  }

  /** Entries follow each other without gaps. */
  function EntryAt(l: Layout, i: nat): nat { i * l.entrySize }

  lemma EntryAtNext(l: Layout, i: nat)
    ensures EntryAt(l, i + 1) == EntryAt(l, i) + l.entrySize
  {
  }

  // ------------------------------------------------------------ header

  function HeaderSize(l: Layout, version: nat): Res<nat> {
    if version == 3 then Ok(l.v3Size) else if version == 4 then Ok(l.v4Size) else Err
  }

  /** The size of the header of `img`, if it is valid and of version `least` or later. */
  function CheckHeader(l: Layout, img: seq<Byte>, least: nat): (r: Res<nat>)
    requires LayoutOk(l)
    ensures r.Ok? ==>
              && l.v3Size <= |img| && r.value <= |img| && Read32(img, l.pageSize) > 0
              && Read32(img, l.version) >= least
              && r == HeaderSize(l, Read32(img, l.version))
  {
    if |img| < l.v3Size then Err
    else
      var size :- HeaderSize(l, Read32(img, l.version));
      if |img| < size || img[..|l.magic|] != l.magic then Err
      else if Read32(img, l.pageSize) == 0 || Read32(img, l.version) < least then Err
      else Ok(size)
  }

  /** The page size in the new image's header, which is read again after sections have been written. It
      is what was copied, unless the header's size rounds to nothing because 32 bits overflow; dividing
      by zero is then undefined. */
  function NewPage(l: Layout, u: Buf): (r: Res<nat>)
    ensures r.Ok? ==> r.value > 0
  {
    var page :- Peek(u.new_, l.pageSize);
    if page == 0 then Stray else Ok(page)
  }

  // ------------------------------------------------------------ shared steps

  /** Ramdisk padding and device tree. */
  function PutDtb(u: Buf, page: nat, o: nat, p: nat, q: nat, size: nat, total: nat): (r: Res<Buf>)
    requires page > 0
    ensures Keeps(u, r)
  {
    var newP := RoundUp32(total, page);
    var u1 :- Skip(u, (p - size) % U32, (newP - total) % U32);
    var u2 :- CheckOffset(u1, (o + p) % U32, (o + newP) % U32);
    Copy(u2, q)
  }

  /** Where the footer is looked for: its offset from the start, of which a seek takes 32 bits. */
  function FooterPlace(l: Layout, size: nat): (at: nat)
    requires l.footerSize <= size
    ensures at <= size - l.footerSize && (size - l.footerSize < U32 ==> at == size - l.footerSize)
  {
    (size - l.footerSize) % U32
  }

  /** Copies the old image's last bytes if they are a footer. */
  function CopyFooter(l: Layout, u: Buf): (r: Res<Buf>)
    ensures Keeps(u, r)
  {
    if |u.old_| < l.footerSize then Ok(u)
    else
      var u1 := u.(from := FooterPlace(l, |u.old_|), to := FooterPlace(l, |u.old_|));
      if u1.from + |l.footerMagic| > |u1.old_| then Stray
      else if u1.old_[u1.from..u1.from + |l.footerMagic|] != l.footerMagic then Ok(u1)
      else Copy(u1, l.footerSize)
  }

  // ------------------------------------------------------------ whole-ramdisk replacement

  function SingleEntry(l: Layout, u: Buf, at: nat, size: nat): (r: Res<Buf>)
    ensures Keeps(u, r)
  {
    var u1 :- Poke(u, at + l.size, Le32(size));
    var u2 :- Poke(u1, at + l.offset, Le32(0));
    var u3 :- Poke(u2, at + l.kind, Le32(l.kindNone));
    var u4 :- Poke(u3, at + l.name, Zeros(l.nameSize));
    Poke(u4, at + l.board, Zeros(l.boardSize))
  }

  /** The header for a single ramdisk of the given size. */
  function NewHeader(l: Layout, h: seq<Byte>, v4: bool, size: nat): (r: seq<Byte>)
    requires LayoutOk(l) && |h| >= if v4 then l.v4Size else l.v3Size
    ensures |r| == |h|
  {
    var h1 := Write32(h, l.ramdiskSize, size);
    if v4 then Write32(Write32(Write32(h1, l.entryLen, l.entrySize), l.entryNum, 1), l.tableSize, l.entrySize) else h1
  }

  /** The same on the new image, whose own version field decides. */
  function StampHeader(l: Layout, u: Buf, size: nat): (r: Res<Buf>)
    ensures Keeps(u, r)
  {
    var u1 :- Poke(u, l.ramdiskSize, Le32(size));
    var version :- Peek(u1.new_, l.version);
    if version < 4 then Ok(u1)
    else
      var u2 :- Poke(u1, l.entryLen, Le32(l.entrySize));
      var u3 :- Poke(u2, l.entryNum, Le32(1));
      Poke(u3, l.tableSize, Le32(l.entrySize))
  }

  /** The new sections, before the footer. */
  function DefaultSections(l: Layout, img: seq<Byte>, data: seq<Byte>): (res: Res<Buf>)
    requires LayoutOk(l) && |data| < U32
    ensures Keeps(Fresh(img), res)
  {
    var hdrSize :- CheckHeader(l, img, 3);
    var page, size := Read32(img, l.pageSize), Read32(img, l.ramdiskSize);
    var o, p, q := RoundUp32(hdrSize, page), RoundUp32(size, page), RoundUp32(Read32(img, l.dtbSize), page);
    var u1 :- Copy(Fresh(img), o);
    var u2 :- StampHeader(l, u1, |data|);
    var u3 :- Replace(u2, size, data);
    DefaultTail(l, img, u3, page, o, p, q, size)
  }

  /** What follows the ramdisk. Sizes and version are read from the new header. */
  function DefaultTail(l: Layout, img: seq<Byte>, u: Buf, page: nat, o: nat, p: nat, q: nat, size: nat): (res: Res<Buf>)
    requires page > 0
    ensures Keeps(u, res)
  {
    var newPage :- NewPage(l, u);
    var newSize :- Peek(u.new_, l.ramdiskSize);
    var u1 :- PutDtb(u, newPage, o, p, q, size, newSize);
    var version :- Peek(u1.new_, l.version);
    if version >= 4 then ReplaceTable(l, img, u1, page, o + p + q, o + RoundUp32(newSize, newPage) + q) else Ok(u1)
  }

  function ReplaceDefault(l: Layout, img: seq<Byte>, data: seq<Byte>): Res<seq<Byte>>
    requires LayoutOk(l) && |data| < U32
  {
    var u1 :- DefaultSections(l, img, data);
    var u2 :- CopyFooter(l, u1);
    Ok(u2.new_)
  }

  /** Puts a one-entry table in place of the old one and copies the bootconfig after it. */
  function ReplaceTable(l: Layout, img: seq<Byte>, u: Buf, page: nat, oldAt: nat, newAt: nat): (r: Res<Buf>)
    requires page > 0
    ensures Keeps(u, r)
  {
    var tableSize :- Peek(img, l.tableSize);
    var bootconfigSize :- Peek(img, l.bootconfigSize);
    var newTableSize :- Peek(u.new_, l.tableSize);
    var newPage :- NewPage(l, u);
    var r, s, newR := RoundUp32(tableSize, page), RoundUp32(bootconfigSize, page), RoundUp32(newTableSize, newPage);
    var u1 :- Skip(u, r, newR);
    var u2 :- CheckOffset(u1, (oldAt + r) % U32, (newAt + newR) % U32);
    var size :- Peek(u2.new_, l.ramdiskSize);
    var u3 :- SingleEntry(l, u2, u.to, size);
    Copy(u3, s)
  }

  // ------------------------------------------------------------ fragment replacement

  /** The bytes before the first zero. */
  function CString(b: seq<Byte>): seq<Byte> {
    if b == [] || b[0] == 0 then [] else [b[0]] + CString(b[1..])
  }

  /** The name in an entry. The zero behind the image ends a name that the image cuts off. */
  function NameAt(l: Layout, img: seq<Byte>, at: nat): Res<seq<Byte>> {
    if at + l.name > |img| then Stray
    else Ok(CString(img[at + l.name..Min(at + l.name + l.nameSize, |img|)]))
  }

  /** The index of the only entry from `i` on that has the name, given one found before. */
  function FindUnique(l: Layout, name: seq<Byte>, img: seq<Byte>, table: nat, num: nat, i: nat, found: Option<nat>)
    : (r: Res<nat>)
    requires i <= num
    decreases num - i
  {
    if i == num then if found.Some? then Ok(found.value) else Err
    else
      var entryName :- NameAt(l, img, table + EntryAt(l, i));
      if entryName == name then
        if found.Some? then Err else FindUnique(l, name, img, table, num, i + 1, Some(i))
      else FindUnique(l, name, img, table, num, i + 1, found)
  }

  /** Copies the fragments from `i` on, putting `data` in place of number `idx`, and adds up sizes. */
  function CopyFragments(l: Layout, u: Buf, table: nat, i: nat, num: nat, idx: nat, data: seq<Byte>, total: nat)
    : (r: Res<(Buf, nat)>)
    requires i <= num
    ensures r.Ok? ==> Keeps(u, Ok(r.value.0))
    decreases num - i
  {
    if i == num then Ok((u, total))
    else
      var size :- Peek(u.old_, table + EntryAt(l, i) + l.size);
      var u1 :- if i == idx then Replace(u, size, data) else Copy(u, size);
      CopyFragments(l, u1, table, i + 1, num, idx, data, (total + if i == idx then |data| else size) % U32)
  }

  /** Copies one table entry, sets its offset and, if given, its size; also returns the size. */
  function PutEntry(l: Layout, u: Buf, entryLen: nat, offset: nat, size: Option<nat>): (r: Res<(Buf, nat)>)
    ensures r.Ok? ==> Keeps(u, Ok(r.value.0))
  {
    var u1 :- Copy(u, entryLen);
    var u2 :- Poke(u1, u.to + l.offset, Le32(offset));
    var u3 :- if size.Some? then Poke(u2, u.to + l.size, Le32(size.value)) else Ok(u2);
    var added :- Peek(u3.new_, u.to + l.size);
    Ok((u3, added))
  }

  /** Copies the table entries from `i` on with offsets recomputed and the size of `idx` replaced. */
  function CopyTable(l: Layout, u: Buf, i: nat, num: nat, idx: nat, entryLen: nat, size: nat, total: nat): (r: Res<Buf>)
    requires i <= num
    ensures Keeps(u, r)
    decreases num - i
  {
    if i == num then Ok(u)
    else
      var (u1, added) :- PutEntry(l, u, entryLen, total, if i == idx then Some(size) else None);
      CopyTable(l, u1, i + 1, num, idx, entryLen, size, (total + added) % U32)
  }

  /** Header and fragments; also returns the new ramdisk size, which the header now records. */
  function PutFragments(l: Layout, u: Buf, o: nat, table: nat, num: nat, idx: nat, data: seq<Byte>)
    : (r: Res<(Buf, nat)>)
    ensures r.Ok? ==> Keeps(u, Ok(r.value.0))
  {
    var u1 :- Copy(u, o);
    var (u2, total) :- CopyFragments(l, u1, table, 0, num, idx, data, 0);
    var u3 :- Poke(u2, l.ramdiskSize, Le32(total));
    Ok((u3, total))
  }

  /** Table, its padding and bootconfig. */
  function PutTable(l: Layout, u: Buf, num: nat, idx: nat, entryLen: nat, size: nat, r: nat, s: nat,
                    oldEnd: nat, newEnd: nat): (res: Res<Buf>)
    ensures Keeps(u, res)
  {
    var u1 :- CopyTable(l, u, 0, num, idx, entryLen, size, 0);
    var u2 :- Copy(u1, (r - num * entryLen) % U32);
    var u3 :- CheckOffset(u2, oldEnd % U32, newEnd % U32);
    Copy(u3, s)
  }

  /** Sizes of the old image's sections in whole pages, its page size, ramdisk size and entries. */
  datatype Geometry = Geometry(page: nat, size: nat, num: nat, o: nat, p: nat, q: nat, r: nat, s: nat)

  function GeometryOf(l: Layout, img: seq<Byte>, hdrSize: nat): (g: Geometry)
    requires LayoutOk(l) && |img| >= l.v4Size && Read32(img, l.pageSize) > 0
    ensures g.page > 0
  {
    var page := Read32(img, l.pageSize);
    Geometry(page, Read32(img, l.ramdiskSize), Read32(img, l.entryNum),
             RoundUp32(hdrSize, page), RoundUp32(Read32(img, l.ramdiskSize), page),
             RoundUp32(Read32(img, l.dtbSize), page), RoundUp32(Read32(img, l.tableSize), page),
             RoundUp32(Read32(img, l.bootconfigSize), page))
  }

  /** The new sections, before the footer. */
  function Rebuild(l: Layout, img: seq<Byte>, g: Geometry, entryLen: nat, idx: nat, data: seq<Byte>): (res: Res<Buf>)
    requires g.page > 0
    ensures Keeps(Fresh(img), res)
  {
    var (u1, total) :- PutFragments(l, Fresh(img), g.o, g.o + g.p + g.q, g.num, idx, data);
    var page :- NewPage(l, u1);
    var u2 :- PutDtb(u1, page, g.o, g.p, g.q, g.size, total);
    var newP := RoundUp32(total, page);
    PutTable(l, u2, g.num, idx, entryLen, |data|, g.r, g.s, g.o + g.p + g.q + g.r, g.o + newP + g.q + g.r)
  }

  function ReplaceFragment(l: Layout, name: seq<Byte>, img: seq<Byte>, data: seq<Byte>): Res<seq<Byte>>
    requires LayoutOk(l) && |data| < U32
  {
    var hdrSize :- CheckHeader(l, img, 4);
    var g := GeometryOf(l, img, hdrSize);
    if g.o + g.p + g.q + g.r + g.s > |img| || EntryAt(l, g.num) > g.o + g.p + g.q + g.r then Err
    else
      var idx :- FindUnique(l, name, img, g.o + g.p + g.q, g.num, 0, None);
      var u1 :- Rebuild(l, img, g, Read32(img, l.entryLen), idx, data);
      var u2 :- CopyFooter(l, u1);
      Ok(u2.new_)
  }
}
