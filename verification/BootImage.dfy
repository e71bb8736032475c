/** Rounding up to a page with a bit mask. */
module PageMask {
  import opened Bytes
  import opened ByteStrings

  function Pow2(k: nat): (p: nat)
    ensures p > 0
  {
    if k == 0 then 1 else 2 * Pow2(k - 1)
  }

  /** `(n + mask) & ~mask` in 64 bits. */
  function MaskRound(n: nat, mask: nat): nat
    requires mask < U64
  {
    And((n + mask) % U64, U64 - 1 - mask)
  }

  lemma {:induction false} AndOnes(x: nat, m: nat)
    requires x < Pow2(m)
    ensures And(x, Pow2(m) - 1) == x
    decreases m
  {
    if m > 0 {
      assert (Pow2(m) - 1) / 2 == Pow2(m - 1) - 1;
      AndOnes(x / 2, m - 1);
    }
  }

  lemma HalfThenDivide(x: nat, p: nat)
    requires p > 0
    ensures x / 2 / p == x / (2 * p)
  {
    var q, r := x / (2 * p), x % (2 * p);
    assert x == 2 * (p * q) + r by { assert x == 2 * p * q + r; }
    assert x / 2 == p * q + r / 2;
    DivisionIs(x / 2, p, q, r / 2);
  }

  /** Clearing the low k bits is rounding down to a multiple of 2^k. */
  lemma {:induction false} AndClears(x: nat, m: nat, k: nat)
    requires k <= m && x < Pow2(m)
    ensures Pow2(k) <= Pow2(m) && And(x, Pow2(m) - Pow2(k)) == x / Pow2(k) * Pow2(k)
    decreases k
  {
    if k == 0 {
      AndOnes(x, m);
    } else {
      AndClears(x / 2, m - 1, k - 1);
      DoubledClear(x, Pow2(m - 1), Pow2(k - 1));
    }
  }

  lemma DoubledClear(x: nat, big: nat, p: nat)
    requires 0 < p <= big && And(x / 2, big - p) == x / 2 / p * p
    ensures And(x, 2 * big - 2 * p) == x / (2 * p) * (2 * p)
  {
    hide And;
    AndEven(x, big - p);
    HalfThenDivide(x, p);
    Regroup(x / (2 * p), p);
  }

  lemma Regroup(q: nat, p: nat)
    ensures 2 * (q * p) == q * (2 * p)
  {
  }

  lemma AndEven(x: nat, h: nat)
    ensures And(x, 2 * h) == 2 * And(x / 2, h)
  {
  }

  lemma Pow2Of64()
    ensures Pow2(64) == U64
  {
    assert Pow2(4) == 16;
    Pow2Add(4, 4);
    Pow2Add(8, 8);
    Pow2Add(16, 16);
    Pow2Add(32, 32);
  }

  lemma {:induction false} Pow2Add(a: nat, b: nat)
    ensures Pow2(a + b) == Pow2(a) * Pow2(b)
  {
    if b > 0 {
      Pow2Add(a, b - 1);
      assert Pow2(a) * (2 * Pow2(b - 1)) == 2 * (Pow2(a) * Pow2(b - 1));
    }
  }

  /** For a power of two the mask form is the division form, as long as nothing overflows. */
  lemma MaskRoundIsRoundUp(n: nat, page: nat, k: nat)
    requires k < 64 && page == Pow2(k) && n + page <= U64
    ensures page <= U64 && MaskRound(n, page - 1) == RoundUp(n, page)
  {
    hide And, Pow2;
    Pow2Of64();
    AndClears(n + page - 1, 64, k);
    assert (n + page - 1) % U64 == n + page - 1;
  }

  ghost predicate IsPowerOfTwo(page: nat) {
    exists k: nat :: k < 64 && page == Pow2(k)
  }

  lemma RoundsUp(n: nat, page: nat)
    requires IsPowerOfTwo(page) && page <= U32 && n < U64 / 2
    ensures MaskRound(n, page - 1) == RoundUp(n, page)
  {
    var k: nat :| k < 64 && page == Pow2(k);
    MaskRoundIsRoundUp(n, page, k);
  }

  lemma PageOf4096()
    ensures IsPowerOfTwo(4096)
  {
    assert Pow2(6) == 64;
    Pow2Add(6, 6);
  }

  lemma OnePage(n: nat, page: nat)
    requires 0 < n <= page
    ensures RoundUp(n, page) == page
  {
    DivisionIs(n + page - 1, page, 1, n - 1);
  }

}

/** Storing four-byte fields into a header one after the other. */
module HeaderFields {
  import opened Bytes
  import opened ByteStrings

  /** A four-byte header field and the value stored in it. */
  datatype Field = Field(off: nat, value: nat)

  ghost predicate Apart(fs: seq<Field>, off: nat) {
    forall i :: 0 <= i < |fs| ==> fs[i].off + 4 <= off || off + 4 <= fs[i].off
  }

  /** `b` holds the fields, and below `end` is `start` everywhere else. */
  ghost predicate Stored(b: seq<Byte>, start: seq<Byte>, fs: seq<Field>, end: nat) {
    && |b| == |start| && end <= |b|
    && (forall i :: 0 <= i < |fs| ==> fs[i].off + 4 <= |b| && Read32(b, fs[i].off) == fs[i].value)
    && forall k :: 0 <= k < end && Untouched(fs, k) ==> b[k] == start[k]
  }

  ghost predicate Untouched(fs: seq<Field>, k: nat) {
    forall i :: 0 <= i < |fs| ==> k < fs[i].off || fs[i].off + 4 <= k
  }

  ghost predicate Below(fs: seq<Field>, m: nat) {
    forall i :: 0 <= i < |fs| ==> fs[i].off + 4 <= m
  }

  lemma BelowApart(fs: seq<Field>, m: nat, off: nat)
    requires Below(fs, m) && m <= off
    ensures Apart(fs, off)
  {
  }

  lemma StoreOne(b: seq<Byte>, start: seq<Byte>, fs: seq<Field>, end: nat, off: nat, v: nat)
    requires Stored(b, start, fs, end) && off + 4 <= |b| && Apart(fs, off)
    ensures Stored(Write32(b, off, v), start, fs + [Field(off, v % U32)], end)
  {
    hide Overwrite, Le32, Read32;
    var w, gs := Write32(b, off, v), fs + [Field(off, v % U32)];
    forall i | 0 <= i < |gs|
      ensures gs[i].off + 4 <= |w| && Read32(w, gs[i].off) == gs[i].value
    {
      if i == |fs| {
        ReadTruncated(b, off, v);
      } else {
        assert gs[i] == fs[i];
        ReadBeside(b, off, Le32(v), fs[i].off);
      }
    }
    forall k | 0 <= k < end && Untouched(gs, k)
      ensures w[k] == start[k]
    {
      assert Untouched(fs, k) by { assert forall i :: 0 <= i < |fs| ==> gs[i] == fs[i]; }
      assert gs[|fs|] == Field(off, v % U32);
      OverwriteAt(b, off, Le32(v), k);
    }
  }

  lemma ReadTruncated(b: seq<Byte>, off: nat, v: nat)
    requires off + 4 <= |b|
    ensures Read32(Write32(b, off, v), off) == v % U32
  {
    ReadOverwritten(b, off, v % U32);
    LowBytes(v);
  }

  lemma LowBytes(v: nat)
    ensures Le32(v) == Le32(v % U32)
  {
    var q, r := v / U32, v % U32;
    assert v == r + U32 * q;
    LowDigit(r, q, 1, 16777216);
    LowDigit(r, q, 256, 65536);
    LowDigit(r, q, 65536, 256);
    LowDigit(r, q, 16777216, 1);
  }

  lemma LowDigit(r: nat, q: nat, d: nat, e: nat)
    requires d > 0 && 256 * d * e == U32
    ensures (r + U32 * q) / d % 256 == r / d % 256
  {
    var z := 256 * (e * q);
    assert U32 * q == d * z by {
      assert d * (256 * (e * q)) == 256 * d * e * q;
    }
    assert (r + d * z) / d == r / d + z by {
      DivisionIs(r + d * z, d, r / d + z, r % d);
    }
    assert (r / d + 256 * (e * q)) % 256 == r / d % 256;
  }

  lemma StoredPrefix(b: seq<Byte>, c: seq<Byte>, start: seq<Byte>, fs: seq<Field>, end: nat)
    requires Stored(b, start, fs, |b|) && |c| == |b| && end <= |b| && c[..end] == b[..end]
    requires forall i :: 0 <= i < |fs| ==> fs[i].off + 4 <= end
    ensures Stored(c, start, fs, end)
  {
    hide Read32;
    forall i | 0 <= i < |fs|
      ensures Read32(c, fs[i].off) == fs[i].value
    {
      SameRead(b, c, end, fs[i].off);
    }
    forall k | 0 <= k < end && Untouched(fs, k)
      ensures c[k] == start[k]
    {
      assert c[..end][k] == b[..end][k];
    }
  }

  lemma SameRead(b: seq<Byte>, c: seq<Byte>, end: nat, off: nat)
    requires end <= |b| && end <= |c| && b[..end] == c[..end] && off + 4 <= end
    ensures Read32(b, off) == Read32(c, off)
  {
    assert forall k :: off <= k < off + 4 ==> b[k] == b[..end][k] && c[k] == c[..end][k];
  }

  /** Stores one field and records it. */
  method Store(b: seq<Byte>, off: nat, v: nat, ghost start: seq<Byte>, ghost fs: seq<Field>, ghost end: nat)
    returns (r: seq<Byte>, ghost gs: seq<Field>)
    requires Stored(b, start, fs, end) && off + 4 <= |b| && Apart(fs, off)
    ensures |r| == |b| && gs == fs + [Field(off, v % U32)] && Stored(r, start, gs, end)
  {
    r, gs := Write32(b, off, v), fs + [Field(off, v % U32)];
    StoreOne(b, start, fs, end, off, v);
  }

  /** Stores a field above all those stored so far. */
  method StoreNext(b: seq<Byte>, off: nat, v: nat, ghost start: seq<Byte>, ghost fs: seq<Field>, ghost m: nat)
    returns (r: seq<Byte>, ghost gs: seq<Field>)
    requires Stored(b, start, fs, |b|) && off + 4 <= |b| && Below(fs, m) && m <= off
    ensures |r| == |b| && gs == fs + [Field(off, v % U32)] && Stored(r, start, gs, |r|) && Below(gs, off + 4)
  {
    r, gs := Store(b, off, v, start, fs, |b|);
  }

  lemma ReadUnstored(b: seq<Byte>, start: seq<Byte>, fs: seq<Field>, end: nat, off: nat)
    requires Stored(b, start, fs, end) && Apart(fs, off) && off + 4 <= end
    ensures Read32(b, off) == Read32(start, off)
  {
    forall k | off <= k < off + 4
      ensures b[k] == start[k]
    {
      assert Untouched(fs, k);
    }
    assert b[off] == start[off] && b[off + 1] == start[off + 1] && b[off + 2] == start[off + 2]
           && b[off + 3] == start[off + 3];
  }

  /** Adds to the field the header came with. */
  method Add(b: seq<Byte>, off: nat, base: nat, ghost start: seq<Byte>, ghost fs: seq<Field>)
    returns (r: seq<Byte>, ghost gs: seq<Field>)
    requires Stored(b, start, fs, |b|) && off + 4 <= |b| && Apart(fs, off)
    ensures |r| == |b| && gs == fs + [Field(off, (Read32(start, off) + base) % U32)] && Stored(r, start, gs, |r|)
  {
    ReadUnstored(b, start, fs, |b|, off);
    r, gs := Store(b, off, Read32(b, off) + base, start, fs, |b|);
  }
}

/** Laying out a boot image. The header structs are described by a symbolic layout. `Stray` stands
    for an access outside the image, which the language leaves undefined. */
module BootImage {
  import opened Bytes
  import opened ByteStrings
  import opened PageMask
  import opened HeaderFields

  /** Sizes of the header structs and offsets of their fields: versions 0 to 2 share one struct,
      version 3 and above have their own. The DTB address is eight bytes wide, all other fields four. */
  datatype Layout = Layout(
    magic: seq<Byte>, v1Size: nat, v2Size: nat, v3Size: nat,
    kernelSize: nat, kernelAddr: nat, ramdiskSize: nat, ramdiskAddr: nat, secondSize: nat, secondAddr: nat,
    tagsAddr: nat, pageSize: nat, version: nat, osVersion: nat, headerSize: nat, dtbSize: nat, dtbAddr: nat,
    kernelSize3: nat, ramdiskSize3: nat, osVersion3: nat, headerSize3: nat, version3: nat, signatureSize4: nat)

  ghost predicate LayoutOk(l: Layout) {
    && |l.magic| <= l.kernelSize && l.kernelSize + 4 <= l.kernelAddr && l.kernelAddr + 4 <= l.ramdiskSize
    && l.ramdiskSize + 4 <= l.ramdiskAddr && l.ramdiskAddr + 4 <= l.secondSize && l.secondSize + 4 <= l.secondAddr
    && l.secondAddr + 4 <= l.tagsAddr && l.tagsAddr + 4 <= l.pageSize && l.pageSize + 4 <= l.version
    && l.version + 4 <= l.osVersion && l.osVersion + 4 <= l.headerSize && l.headerSize + 4 <= l.v1Size
    && l.v1Size <= l.dtbSize && l.dtbSize + 4 <= l.dtbAddr && l.dtbAddr + 8 <= l.v2Size < U32
    && |l.magic| <= l.kernelSize3 && l.kernelSize3 + 4 <= l.ramdiskSize3 && l.ramdiskSize3 + 4 <= l.osVersion3
    && l.osVersion3 + 4 <= l.headerSize3 && l.headerSize3 + 4 <= l.version3 && l.version3 + 4 <= l.v3Size
    && l.v3Size <= l.signatureSize4 && l.signatureSize4 + 4 <= V3_PAGE
  }

  const V3_PAGE: nat := 4096

  /** What goes into an image. */
  datatype Inputs = Inputs(kernel: seq<Byte>, ramdisk: seq<Byte>, second: seq<Byte>, dtb: seq<Byte>)

  datatype Built = Died | Stray | Image(bytes: seq<Byte>)

  /** A source header, with inputs that fit in memory together. */
  ghost predicate InputsOk(l: Layout, x: Inputs, base: nat, src: seq<Byte>) {
    && |src| == l.v2Size && base < U64
    && |x.kernel| + |x.ramdisk| + |x.second| + |x.dtb| < U64 / 4
  }

  function Resized(b: seq<Byte>, n: nat): (r: seq<Byte>)
    ensures |r| == n
  {
    if |b| >= n then b[..n] else b + Zeros(n - |b|)
  }

  // ------------------------------------------------------------ what an image holds

  function Read64(b: seq<Byte>, off: nat): (v: nat)
    requires off + 8 <= |b|
    ensures v < U64
  {
    Read32(b, off) + U32 * Read32(b, off + 4)
  }

  /** The low half comes first. */
  lemma Read64Written(b: seq<Byte>, off: nat, v: nat)
    requires off + 8 <= |b| && v < U64
    ensures Read64(Write32(Write32(b, off, v % U32), off + 4, v / U32), off) == v
  {
    hide Read32, Le32, Overwrite;
    var b1 := Write32(b, off, v % U32);
    ReadOverwritten(b, off, v % U32);
    ReadBeside(b1, off + 4, Le32(v / U32), off);
    ReadOverwritten(b1, off + 4, v / U32);
  }

  /** A 64-bit value is read exactly if its halves are. */
  lemma Read64Is(b: seq<Byte>, off: nat, v: nat)
    requires off + 8 <= |b| && v < U64
    ensures Read64(b, off) == v <==> Read32(b, off) == v % U32 && Read32(b, off + 4) == v / U32
  {
    hide Read32;
    var lo, hi := Read32(b, off), Read32(b, off + 4);
    assert (lo + U32 * hi) % U32 == lo && (lo + U32 * hi) / U32 == hi;
  }

  function DtbAddr(l: Layout, base: nat, src: seq<Byte>): (v: nat)
    requires l.dtbAddr + 8 <= |src|
    ensures v < U64
  {
    (Read64(src, l.dtbAddr) + base) % U64
  }

  /** The header fields of versions 0 to 2 that are not the source header's. */
  ghost function Fields(l: Layout, x: Inputs, base: nat, src: seq<Byte>): seq<Field>
    requires LayoutOk(l) && |src| == l.v2Size
  {
    SizeFields(l, x)
    + Addresses(l, base, src)
    + VersionFields(l, x, base, src)
  }

  ghost function SizeFields(l: Layout, x: Inputs): seq<Field> {
    [Field(l.kernelSize, |x.kernel| % U32), Field(l.ramdiskSize, |x.ramdisk| % U32),
     Field(l.secondSize, |x.second| % U32)]
  }

  ghost function Addresses(l: Layout, base: nat, src: seq<Byte>): seq<Field>
    requires LayoutOk(l) && |src| == l.v2Size
  {
    [Field(l.kernelAddr, (Read32(src, l.kernelAddr) + base) % U32),
     Field(l.ramdiskAddr, (Read32(src, l.ramdiskAddr) + base) % U32),
     Field(l.secondAddr, (Read32(src, l.secondAddr) + base) % U32),
     Field(l.tagsAddr, (Read32(src, l.tagsAddr) + base) % U32)]
  }

  ghost function VersionFields(l: Layout, x: Inputs, base: nat, src: seq<Byte>): seq<Field>
    requires LayoutOk(l) && |src| == l.v2Size
  {
    var v := Read32(src, l.version);
    if v == 1 then [Field(l.headerSize, l.v1Size)]
    else if v == 2 then
      [Field(l.headerSize, l.v2Size), Field(l.dtbSize, |x.dtb| % U32),
       Field(l.dtbAddr, DtbAddr(l, base, src) % U32), Field(l.dtbAddr + 4, DtbAddr(l, base, src) / U32)]
    else []
  }

  /** The header before its fields are stored. */
  function Start(l: Layout, src: seq<Byte>, out: seq<Byte>): (b: seq<Byte>)
    requires |l.magic| <= |src| <= |out|
    ensures |b| == |out|
  {
    Overwrite(Overwrite(out, 0, src), 0, l.magic)
  }

  ghost predicate SliceIs(b: seq<Byte>, at: nat, data: seq<Byte>) {
    at + |data| <= |b| && b[at..at + |data|] == data
  }

  /** Four sections, each starting on the first page after the one before. */
  ghost predicate HoldsSections(b: seq<Byte>, page: nat, x: Inputs)
    requires page > 0
  {
    var a1 := page + RoundUp(|x.kernel|, page);
    var a2 := a1 + RoundUp(|x.ramdisk|, page);
    var a3 := a2 + RoundUp(|x.second|, page);
    && |b| == a3 + RoundUp(|x.dtb|, page)
    && SliceIs(b, page, x.kernel) && SliceIs(b, a1, x.ramdisk) && SliceIs(b, a2, x.second) && SliceIs(b, a3, x.dtb)
  }

  ghost predicate Holds(l: Layout, b: seq<Byte>, x: Inputs, base: nat, src: seq<Byte>, old_: seq<Byte>)
    requires LayoutOk(l) && |src| == l.v2Size && Read32(src, l.pageSize) > 0
  {
    var page := Read32(src, l.pageSize);
    && l.v2Size <= page <= |b|
    && HoldsSections(b, page, x)
    && Stored(b, Start(l, src, Resized(old_, |b|)), Fields(l, x, base, src), page)
  }

  ghost function Fields3(l: Layout, x: Inputs, src: seq<Byte>): seq<Field>
    requires LayoutOk(l) && |src| == l.v2Size
  {
    var v := Read32(src, l.version);
    [Field(l.kernelSize3, |x.kernel| % U32), Field(l.ramdiskSize3, |x.ramdisk| % U32),
     Field(l.osVersion3, Read32(src, l.osVersion)), Field(l.headerSize3, l.v3Size), Field(l.version3, v)]
    + if v >= 4 then [Field(l.signatureSize4, 0)] else []
  }

  ghost predicate Holds3(l: Layout, b: seq<Byte>, x: Inputs, src: seq<Byte>, old_: seq<Byte>)
    requires LayoutOk(l) && |src| == l.v2Size
  {
    && V3_PAGE <= |b|
    && HoldsSections(b, V3_PAGE, x)
    && Stored(b, Overwrite(Resized(old_, |b|), 0, l.magic), Fields3(l, x, src), V3_PAGE)
  }

  // ------------------------------------------------------------ building

  lemma SliceKept(b: seq<Byte>, off: nat, data: seq<Byte>, lo: nat, hi: nat)
    requires off + |data| <= |b| && lo <= hi <= |b| && (hi <= off || off + |data| <= lo)
    ensures Overwrite(b, off, data)[lo..hi] == b[lo..hi]
  {
  }

  lemma SliceWritten(b: seq<Byte>, off: nat, data: seq<Byte>)
    requires off + |data| <= |b|
    ensures SliceIs(Overwrite(b, off, data), off, data)
  {
  }

  /** Copies `data` in, if it fits. */
  method CopyIn(b: seq<Byte>, off: nat, data: seq<Byte>) returns (r: Option<seq<Byte>>)
    ensures r.Some? <==> off + |data| <= |b|
    ensures r.Some? ==> |r.value| == |b| && SliceIs(r.value, off, data)
    ensures r.Some? ==> forall lo, hi :: 0 <= lo <= hi <= |b| && (hi <= off || off + |data| <= lo) ==>
              r.value[lo..hi] == b[lo..hi]
  {
    if off + |data| > |b| {
      return None;
    }
    r := Some(Overwrite(b, off, data));
    SliceWritten(b, off, data);
    forall lo, hi | 0 <= lo <= hi <= |b| && (hi <= off || off + |data| <= lo)
      ensures r.value[lo..hi] == b[lo..hi]
    {
      SliceKept(b, off, data, lo, hi);
    }
  }

  /** Copies the four sections to their places; when their slots hold them, none disturbs another. */
  method CopySections(b: seq<Byte>, at: nat, x: Inputs, n0: nat, n1: nat, n2: nat) returns (r: Option<seq<Byte>>)
    ensures r.Some? <==> && at + |x.kernel| <= |b| && at + n0 + |x.ramdisk| <= |b|
                         && at + n0 + n1 + |x.second| <= |b| && at + n0 + n1 + n2 + |x.dtb| <= |b|
    ensures r.Some? ==> |r.value| == |b| && r.value[..at] == b[..at]
    ensures r.Some? && |x.kernel| <= n0 && |x.ramdisk| <= n1 && |x.second| <= n2
            ==> && SliceIs(r.value, at, x.kernel) && SliceIs(r.value, at + n0, x.ramdisk)
                && SliceIs(r.value, at + n0 + n1, x.second) && SliceIs(r.value, at + n0 + n1 + n2, x.dtb)
  {
    r := CopyIn(b, at, x.kernel);
    if r.None? { return; }
    r := CopyIn(r.value, at + n0, x.ramdisk);
    if r.None? { return; }
    r := CopyIn(r.value, at + n0 + n1, x.second);
    if r.None? { return; }
    r := CopyIn(r.value, at + n0 + n1 + n2, x.dtb);
    if r.Some? {
      assert r.value[0..at] == b[0..at];
    }
  }

  /** The header of versions 0 to 2. */
  method WriteHeader(l: Layout, x: Inputs, base: nat, src: seq<Byte>, out: seq<Byte>) returns (b: seq<Byte>)
    requires LayoutOk(l) && InputsOk(l, x, base, src) && l.v2Size <= |out|
    ensures |b| == |out| && Stored(b, Start(l, src, out), Fields(l, x, base, src), |b|)
  {
    hide Overwrite, Read32, Stored, VersionFields;
    b := Overwrite(Overwrite(out, 0, src), 0, l.magic);
    ghost var s := b;
    NothingStored(b);
    ghost var fs: seq<Field>;
    b, fs := Store(b, l.kernelSize, |x.kernel|, s, [], |b|);
    b, fs := Store(b, l.ramdiskSize, |x.ramdisk|, s, fs, |b|);
    b, fs := Store(b, l.secondSize, |x.second|, s, fs, |b|);
    assert fs == SizeFields(l, x);
    b, fs := Relocate(l, base, src, b, s, fs, out);
    b, fs := WriteVersionFields(l, x, base, src, b, s, fs, out);
  }

  /** Moves the four addresses by the base. */
  method Relocate(l: Layout, base: nat, src: seq<Byte>, a: seq<Byte>,
                  ghost s: seq<Byte>, ghost fs: seq<Field>, ghost out: seq<Byte>)
    returns (b: seq<Byte>, ghost gs: seq<Field>)
    requires LayoutOk(l) && |src| == l.v2Size <= |out|
    requires s == Start(l, src, out) && Stored(a, s, fs, |a|)
    requires |fs| == 3 && fs[0].off == l.kernelSize && fs[1].off == l.ramdiskSize && fs[2].off == l.secondSize
    ensures |b| == |a| && Stored(b, s, gs, |b|) && Below(gs, l.pageSize)
    ensures gs == fs + Addresses(l, base, src)
  {
    hide Overwrite, Read32, Stored, Start;
    StoredSize(a, s, fs);
    StartReads(l, src, out, l.kernelAddr);
    StartReads(l, src, out, l.ramdiskAddr);
    StartReads(l, src, out, l.secondAddr);
    StartReads(l, src, out, l.tagsAddr);
    b, gs := Add(a, l.kernelAddr, base, s, fs);
    b, gs := Add(b, l.ramdiskAddr, base, s, gs);
    b, gs := Add(b, l.secondAddr, base, s, gs);
    b, gs := Add(b, l.tagsAddr, base, s, gs);
  }

  lemma NothingStored(b: seq<Byte>)
    ensures Stored(b, b, [], |b|) && forall m :: Below([], m)
  {
  }

  lemma StartReads(l: Layout, src: seq<Byte>, out: seq<Byte>, off: nat)
    requires |l.magic| <= off && off + 4 <= |src| <= |out|
    ensures Read32(Start(l, src, out), off) == Read32(src, off)
  {
    var b := Overwrite(out, 0, src);
    ReadBeside(b, 0, l.magic, off);
    assert b[..|src|] == src[..|src|];
    SameRead(b, src, |src|, off);
  }

  method WriteVersionFields(l: Layout, x: Inputs, base: nat, src: seq<Byte>, a: seq<Byte>,
                            ghost s: seq<Byte>, ghost fs: seq<Field>, ghost out: seq<Byte>)
    returns (b: seq<Byte>, ghost gs: seq<Field>)
    requires LayoutOk(l) && InputsOk(l, x, base, src) && l.v2Size <= |out|
    requires s == Start(l, src, out) && Stored(a, s, fs, |a|) && Below(fs, l.pageSize)
    ensures |b| == |a| && gs == fs + VersionFields(l, x, base, src) && Stored(b, s, gs, |b|)
  {
    hide Overwrite, Read32, Stored, Start, DtbAddr, Below, Apart;
    StoredSize(a, s, fs);
    StartReads(l, src, out, l.version);
    BelowApart(fs, l.pageSize, l.version);
    ReadUnstored(a, s, fs, |a|, l.version);
    b, gs := a, fs;
    var v := Read32(b, l.version);
    if v == 1 {
      b, gs := StoreNext(b, l.headerSize, l.v1Size, s, gs, l.pageSize);
    } else if v == 2 {
      b, gs := StoreNext(b, l.headerSize, l.v2Size, s, gs, l.pageSize);
      b, gs := StoreNext(b, l.dtbSize, |x.dtb|, s, gs, l.headerSize + 4);
      b, gs := WriteDtbAddr(l, base, src, b, s, gs, out);
    }
  }

  method WriteDtbAddr(l: Layout, base: nat, src: seq<Byte>, a: seq<Byte>,
                      ghost s: seq<Byte>, ghost fs: seq<Field>, ghost out: seq<Byte>)
    returns (b: seq<Byte>, ghost gs: seq<Field>)
    requires LayoutOk(l) && |src| == l.v2Size <= |out|
    requires s == Start(l, src, out) && Stored(a, s, fs, |a|) && Below(fs, l.dtbSize + 4)
    ensures |b| == |a| && Stored(b, s, gs, |b|)
    ensures var d := DtbAddr(l, base, src);
            gs == fs + [Field(l.dtbAddr, d % U32)] + [Field(l.dtbAddr + 4, d / U32)]
  {
    hide Overwrite, Read32, Stored, Start, Below, Apart;
    StoredSize(a, s, fs);
    StartReads(l, src, out, l.dtbAddr);
    StartReads(l, src, out, l.dtbAddr + 4);
    BelowApart(fs, l.dtbSize + 4, l.dtbAddr);
    BelowApart(fs, l.dtbSize + 4, l.dtbAddr + 4);
    ReadUnstored(a, s, fs, |a|, l.dtbAddr);
    ReadUnstored(a, s, fs, |a|, l.dtbAddr + 4);
    var d := (Read64(a, l.dtbAddr) + base) % U64;
    b, gs := StoreNext(a, l.dtbAddr, d, s, fs, l.dtbSize + 4);
    b, gs := StoreNext(b, l.dtbAddr + 4, d / U32, s, gs, l.dtbAddr + 4);
  }

  lemma StoredSize(b: seq<Byte>, start: seq<Byte>, fs: seq<Field>)
    requires Stored(b, start, fs, |b|)
    ensures |b| == |start|
  {
  }

  ghost predicate PageOk(l: Layout, page: nat) {
    IsPowerOfTwo(page) && l.v2Size <= page
  }

  /** Builds an image with a header of version 0 to 2 over the buffer's old contents. */
  method Make(l: Layout, x: Inputs, base: nat, src: seq<Byte>, old_: seq<Byte>) returns (r: Built)
    requires LayoutOk(l) && InputsOk(l, x, base, src)
    ensures !r.Died?
    ensures PageOk(l, Read32(src, l.pageSize)) ==> r.Image? && Holds(l, r.bytes, x, base, src, old_)
  {
    hide Overwrite, Read32, Stored, MaskRound, RoundUp, IsPowerOfTwo, Fields;
    var page := Read32(src, l.pageSize);
    var mask := (page + U32 - 1) % U32;
    var n, n0 := MaskRound(l.v1Size, mask), MaskRound(|x.kernel|, mask);
    var n1, n2, n3 := MaskRound(|x.ramdisk|, mask), MaskRound(|x.second|, mask), MaskRound(|x.dtb|, mask);
    if PageOk(l, page) {
      RoundsUp(l.v1Size, page);
      OnePage(l.v1Size, page);
      RoundsUp(|x.kernel|, page);
      RoundsUp(|x.ramdisk|, page);
      RoundsUp(|x.second|, page);
      RoundsUp(|x.dtb|, page);
    }
    var out := Resized(old_, n + n0 + n1 + n2 + n3);
    if |out| < l.v2Size {
      return Stray;
    }
    var b := WriteHeader(l, x, base, src, out);
    KeptPageSize(l, x, base, src, out, b);
    var c := CopySections(b, Read32(b, l.pageSize), x, n0, n1, n2);
    if c.None? {
      return Stray;
    }
    r := Image(c.value);
    if PageOk(l, page) {
      FieldsBelow(l, x, base, src);
      StoredPrefix(b, c.value, Start(l, src, out), Fields(l, x, base, src), page);
    }
  }

  lemma KeptPageSize(l: Layout, x: Inputs, base: nat, src: seq<Byte>, out: seq<Byte>, b: seq<Byte>)
    requires LayoutOk(l) && |src| == l.v2Size <= |out|
    requires Stored(b, Start(l, src, out), Fields(l, x, base, src), |b|)
    ensures |b| == |out| && Read32(b, l.pageSize) == Read32(src, l.pageSize)
  {
    hide Read32, Overwrite;
    StartReads(l, src, out, l.pageSize);
    ReadUnstored(b, Start(l, src, out), Fields(l, x, base, src), |b|, l.pageSize);
  }

  lemma FieldsBelow(l: Layout, x: Inputs, base: nat, src: seq<Byte>)
    requires LayoutOk(l) && |src| == l.v2Size
    ensures Below(Fields(l, x, base, src), l.v2Size)
  {
    hide Read32;
  }

  /** Builds an image with a header of version 3 or above. */
  method MakeV3(l: Layout, x: Inputs, src: seq<Byte>, old_: seq<Byte>) returns (r: Built)
    requires LayoutOk(l) && InputsOk(l, x, 0, src) && x.second == [] && x.dtb == []
    ensures r.Image? && Holds3(l, r.bytes, x, src, old_)
  {
    hide Overwrite, Read32, Stored, MaskRound, RoundUp, IsPowerOfTwo;
    PageOf4096();
    RoundsUp(|x.kernel|, V3_PAGE);
    RoundsUp(|x.ramdisk|, V3_PAGE);
    RoundsUp(0, V3_PAGE);
    var n0, n1 := MaskRound(|x.kernel|, V3_PAGE - 1), MaskRound(|x.ramdisk|, V3_PAGE - 1);
    var out := Resized(old_, V3_PAGE + n0 + n1);
    var b := WriteHeader3(l, x, src, out);
    var c := CopyIn(b, V3_PAGE, x.kernel);
    c := CopyIn(c.value, V3_PAGE + n0, x.ramdisk);
    r := Image(c.value);
    assert c.value[0..V3_PAGE] == b[0..V3_PAGE];
    StoredPrefix(b, c.value, Overwrite(out, 0, l.magic), Fields3(l, x, src), V3_PAGE);
    NothingRounds();
  }

  lemma NothingRounds()
    ensures RoundUp(0, V3_PAGE) == 0
  {
  }

  method WriteHeader3(l: Layout, x: Inputs, src: seq<Byte>, out: seq<Byte>) returns (b: seq<Byte>)
    requires LayoutOk(l) && |src| == l.v2Size && V3_PAGE <= |out|
    ensures |b| == |out| && Stored(b, Overwrite(out, 0, l.magic), Fields3(l, x, src), |b|)
  {
    hide Overwrite, Read32, Stored, Below;
    b := Overwrite(out, 0, l.magic);
    ghost var s := b;
    NothingStored(b);
    ghost var fs: seq<Field>;
    b, fs := StoreNext(b, l.kernelSize3, |x.kernel|, s, [], l.kernelSize3);
    b, fs := StoreNext(b, l.ramdiskSize3, |x.ramdisk|, s, fs, l.kernelSize3 + 4);
    b, fs := StoreNext(b, l.osVersion3, Read32(src, l.osVersion), s, fs, l.ramdiskSize3 + 4);
    b, fs := StoreNext(b, l.headerSize3, l.v3Size, s, fs, l.osVersion3 + 4);
    var v := Read32(src, l.version);
    b, fs := StoreNext(b, l.version3, v, s, fs, l.headerSize3 + 4);
    if v >= 4 {
      b, fs := StoreNext(b, l.signatureSize4, 0, s, fs, l.version3 + 4);
    }
    assert fs == Fields3(l, x, src);
  }

  /** The boot image builder: versions 3 and above take neither a second stage nor a DTB. */
  method MakeBootImage(l: Layout, x: Inputs, base: nat, src: seq<Byte>, old_: seq<Byte>) returns (r: Built)
    requires LayoutOk(l) && InputsOk(l, x, base, src)
    ensures r.Died? <==> Read32(src, l.version) >= 3 && (x.second != [] || x.dtb != [])
    ensures !r.Died? && Read32(src, l.version) >= 3 ==> r.Image? && Holds3(l, r.bytes, x, src, old_)
    ensures Read32(src, l.version) < 3 && PageOk(l, Read32(src, l.pageSize))
            ==> r.Image? && Holds(l, r.bytes, x, base, src, old_)
  {
    if Read32(src, l.version) >= 3 {
      if x.second != [] || x.dtb != [] {
        return Died;
      }
      r := MakeV3(l, x, src, old_);
      return;
    }
    r := Make(l, x, base, src, old_);
  }

  // ------------------------------------------------------------ reading an image back

  /** Cuts an image of version 0 to 2 by the sizes in its header; only version 2 has a DTB. */
  function Cut(l: Layout, b: seq<Byte>): Option<Inputs>
    requires LayoutOk(l)
  {
    if |b| < l.v2Size || Read32(b, l.pageSize) == 0 then None
    else
      CutAt(b, Read32(b, l.pageSize), Read32(b, l.kernelSize), Read32(b, l.ramdiskSize), Read32(b, l.secondSize),
            if Read32(b, l.version) == 2 then Read32(b, l.dtbSize) else 0)
  }

  function CutAt(b: seq<Byte>, page: nat, k: nat, r: nat, s: nat, d: nat): (x: Option<Inputs>)
    requires page > 0
    ensures x.Some? ==> |x.value.kernel| == k && |x.value.ramdisk| == r && |x.value.second| == s && |x.value.dtb| == d
  {
    var a1 := page + RoundUp(k, page);
    var a2 := a1 + RoundUp(r, page);
    var a3 := a2 + RoundUp(s, page);
    if a3 + d > |b| then None
    else Some(Inputs(b[page..page + k], b[a1..a1 + r], b[a2..a2 + s], b[a3..a3 + d]))
  }

  function Cut3(l: Layout, b: seq<Byte>): Option<Inputs>
    requires LayoutOk(l)
  {
    if |b| < V3_PAGE then None
    else CutAt(b, V3_PAGE, Read32(b, l.kernelSize3), Read32(b, l.ramdiskSize3), 0, 0)
  }

  ghost predicate Fits(data: seq<Byte>) { |data| < U32 }

  /** Cutting a built image returns what went in exactly when every size fits its field and a DTB
      comes with a version 2 header. */
  lemma CutReturnsInputs(l: Layout, b: seq<Byte>, x: Inputs, base: nat, src: seq<Byte>, old_: seq<Byte>)
    requires LayoutOk(l) && |src| == l.v2Size && Read32(src, l.pageSize) > 0
    requires Holds(l, b, x, base, src, old_)
    ensures Cut(l, b) == Some(x) <==>
            && Fits(x.kernel) && Fits(x.ramdisk) && Fits(x.second)
            && if Read32(src, l.version) == 2 then Fits(x.dtb) else x.dtb == []
  {
    hide Read32, RoundUp, Stored, CutAt, HoldsSections, Fields, Start;
    ReadBack(l, b, x, base, src, old_);
    var dtbFits := if Read32(src, l.version) == 2 then Fits(x.dtb) else x.dtb == [];
    if Fits(x.kernel) && Fits(x.ramdisk) && Fits(x.second) && dtbFits {
      CutSections(b, Read32(src, l.pageSize), x);
    }
  }

  lemma CutSections(b: seq<Byte>, page: nat, x: Inputs)
    requires page > 0 && HoldsSections(b, page, x)
    ensures CutAt(b, page, |x.kernel|, |x.ramdisk|, |x.second|, |x.dtb|) == Some(x)
  {
  }

  /** What the header of a built image says. */
  lemma ReadBack(l: Layout, b: seq<Byte>, x: Inputs, base: nat, src: seq<Byte>, old_: seq<Byte>)
    requires LayoutOk(l) && |src| == l.v2Size && Read32(src, l.pageSize) > 0
    requires Holds(l, b, x, base, src, old_)
    ensures Read32(b, l.kernelSize) == |x.kernel| % U32 && Read32(b, l.ramdiskSize) == |x.ramdisk| % U32
    ensures Read32(b, l.secondSize) == |x.second| % U32
    ensures Read32(src, l.version) == 2 ==> Read32(b, l.dtbSize) == |x.dtb| % U32
    ensures Read32(b, l.pageSize) == Read32(src, l.pageSize) && Read32(b, l.version) == Read32(src, l.version)
  {
    hide Read32, Overwrite, DtbAddr;
    var page, fs, out := Read32(src, l.pageSize), Fields(l, x, base, src), Resized(old_, |b|);
    StartReads(l, src, out, l.pageSize);
    StartReads(l, src, out, l.version);
    ReadUnstored(b, Start(l, src, out), fs, page, l.pageSize);
    ReadUnstored(b, Start(l, src, out), fs, page, l.version);
    assert fs[0].off == l.kernelSize && fs[1].off == l.ramdiskSize && fs[2].off == l.secondSize;
    assert Read32(src, l.version) == 2 ==> fs[8] == Field(l.dtbSize, |x.dtb| % U32);
  }

  ghost predicate Moved(b: seq<Byte>, src: seq<Byte>, off: nat, base: nat) {
    off + 4 <= |b| && off + 4 <= |src| && Read32(b, off) == (Read32(src, off) + base) % U32
  }

  /** Every address is the source header's plus the base, in the width of its field, and the header
      size is that of the version. */
  lemma AddressesReadBack(l: Layout, b: seq<Byte>, x: Inputs, base: nat, src: seq<Byte>, old_: seq<Byte>)
    requires LayoutOk(l) && |src| == l.v2Size && Read32(src, l.pageSize) > 0
    requires Holds(l, b, x, base, src, old_)
    ensures Moved(b, src, l.kernelAddr, base) && Moved(b, src, l.ramdiskAddr, base)
    ensures Moved(b, src, l.secondAddr, base) && Moved(b, src, l.tagsAddr, base)
    ensures Read32(src, l.version) == 1 ==> Read32(b, l.headerSize) == l.v1Size
    ensures Read32(src, l.version) == 2 ==>
              && Read32(b, l.headerSize) == l.v2Size
              && Read64(b, l.dtbAddr) == (Read64(src, l.dtbAddr) + base) % U64
  {
    hide Read32, Overwrite, Read64;
    var fs, v := Fields(l, x, base, src), Read32(src, l.version);
    assert fs[3].off == l.kernelAddr && fs[4].off == l.ramdiskAddr && fs[5].off == l.secondAddr
           && fs[6].off == l.tagsAddr;
    assert v == 1 || v == 2 ==> fs[7].off == l.headerSize;
    if v == 2 {
      assert fs[9].off == l.dtbAddr && fs[10].off == l.dtbAddr + 4;
      Read64Is(b, l.dtbAddr, DtbAddr(l, base, src));
    }
  }

  lemma CutReturnsInputs3(l: Layout, b: seq<Byte>, x: Inputs, src: seq<Byte>, old_: seq<Byte>)
    requires LayoutOk(l) && |src| == l.v2Size && x.second == [] && x.dtb == []
    requires Holds3(l, b, x, src, old_)
    ensures Cut3(l, b) == Some(x) <==> Fits(x.kernel) && Fits(x.ramdisk)
  {
    hide Read32, RoundUp, CutAt, HoldsSections, Overwrite;
    var fs := Fields3(l, x, src);
    assert fs[0].off == l.kernelSize3 && fs[1].off == l.ramdiskSize3;
    if Fits(x.kernel) && Fits(x.ramdisk) {
      CutSections(b, V3_PAGE, x);
    }
  }
}
