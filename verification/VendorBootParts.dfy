/** A vendor_boot image as a value: its sections, and what replacing one fragment means. */
module VendorBootParts {
  import opened Bytes
  import opened ByteStrings
  import opened VendorBootSpec

  datatype Parts = Parts(
    header: seq<Byte>, fragments: seq<seq<Byte>>, ramdiskPad: seq<Byte>, dtb: seq<Byte>,
    entries: seq<seq<Byte>>, tablePad: seq<Byte>, bootconfig: seq<Byte>)
  {
    function Ramdisk(): seq<Byte> { Concat(fragments) }
    function Table(): seq<Byte> { Concat(entries) }
    function Page(l: Layout): nat requires |header| >= l.v4Size && LayoutOk(l) { Read32(header, l.pageSize) }
  }

  /** The image up to the end of the bootconfig. */
  function Body(p: Parts): seq<Byte> {
    p.header + p.Ramdisk() + p.ramdiskPad + p.dtb + p.Table() + p.tablePad + p.bootconfig
  }

  /** Where fragment `i` starts in the ramdisk section. */
  function StartOf(fragments: seq<seq<Byte>>, i: nat): nat
    requires i <= |fragments|
  {
    |Concat(fragments[..i])|
  }

  /** An entry with the given offset and size in its fields. */
  function Stamp(l: Layout, entry: seq<Byte>, offset: nat, size: nat): (e: seq<Byte>)
    requires LayoutOk(l) && |entry| == l.entrySize
    ensures |e| == l.entrySize
  {
    Write32(Write32(entry, l.offset, offset), l.size, size)
  }

  ghost predicate SameSize(l: Layout, entries: seq<seq<Byte>>) {
    forall i :: 0 <= i < |entries| ==> |entries[i]| == l.entrySize
  }

  ghost predicate EntryOk(l: Layout, p: Parts, i: nat)
    requires LayoutOk(l) && i < |p.entries| == |p.fragments|
  {
    && |p.entries[i]| == l.entrySize
    && Read32(p.entries[i], l.size) == |p.fragments[i]|
    && Read32(p.entries[i], l.offset) == StartOf(p.fragments, i)
  }

  /** The header and the table describe the sections, which are padded to whole pages. */
  ghost predicate PartsOk(l: Layout, p: Parts)
    requires LayoutOk(l)
  {
    && |p.header| >= l.v4Size && l.magic <= p.header && Read32(p.header, l.version) == 4
    && p.Page(l) > 0 && |p.header| == RoundUp(l.v4Size, p.Page(l))
    && Read32(p.header, l.ramdiskSize) == |p.Ramdisk()|
    && |p.Ramdisk()| + |p.ramdiskPad| == RoundUp(|p.Ramdisk()|, p.Page(l))
    && |p.dtb| == RoundUp(Read32(p.header, l.dtbSize), p.Page(l))
    && |p.entries| == |p.fragments| == Read32(p.header, l.entryNum)
    && Read32(p.header, l.entryLen) == l.entrySize
    && SameSize(l, p.entries)
    && (forall i :: 0 <= i < |p.entries| ==> EntryOk(l, p, i))
    && |p.Table()| + |p.tablePad| == RoundUp(Read32(p.header, l.tableSize), p.Page(l))
    && |p.bootconfig| == RoundUp(Read32(p.header, l.bootconfigSize), p.Page(l))
  }

  /** `img` starts with the sections `p`, whose sizes do not wrap in 32 bits. The image may be longer. */
  ghost predicate Holds(l: Layout, img: seq<Byte>, p: Parts)
    requires LayoutOk(l)
  {
    PartsOk(l, p) && Body(p) <= img && |Body(p)| + p.Page(l) <= U32
  }

  /** Writing `b` into an image of this size does not wrap either, or runs out of image before it does. */
  ghost predicate Measurable(page: nat, img: seq<Byte>, b: seq<Byte>) {
    |img| + page <= U32 || |b| + page <= U32
  }

  /** Replacing fragment `idx`: sizes and offsets are recomputed, the ramdisk padding is zero, and
      everything else stays. */
  function Edit(l: Layout, p: Parts, idx: nat, data: seq<Byte>): Parts
    requires LayoutOk(l) && PartsOk(l, p) && idx < |p.fragments|
  {
    var fragments := p.fragments[idx := data];
    var total := |Concat(fragments)|;
    p.(header := Write32(p.header, l.ramdiskSize, total),
       fragments := fragments,
       ramdiskPad := Zeros(RoundUp(total, p.Page(l)) - total),
       entries := seq(|p.entries|, i requires 0 <= i < |p.entries| =>
                                     assert EntryOk(l, p, i);
                                     Stamp(l, p.entries[i], StartOf(fragments, i), |fragments[i]|)))
  }

  /** `img` with a footer of `from` over it, if there is one where it is looked for. */
  function WithFooter(l: Layout, from: seq<Byte>, img: seq<Byte>): (r: seq<Byte>)
    requires LayoutOk(l) && |from| == |img|
    ensures |r| == |img|
  {
    if |img| < l.footerSize then img
    else
      var at := FooterPlace(l, |img|);
      if l.footerMagic <= from[at..] then Overwrite(img, at, from[at..at + l.footerSize]) else img
  }

  /** The last bytes are a footer. */
  predicate HasFooter(l: Layout, img: seq<Byte>)
    requires LayoutOk(l)
  {
    |img| >= l.footerSize && l.footerMagic <= img[|img| - l.footerSize..]
  }

  /** A footer is looked for at the end of the image, or nothing like one is found. */
  predicate FooterQuiet(l: Layout, img: seq<Byte>) {
    |img| < U32 + l.footerSize || !(l.footerMagic <= img[FooterPlace(l, |img|)..])
  }

  function Padded(b: seq<Byte>, size: nat): (r: seq<Byte>)
    requires |b| <= size
    ensures |r| == size
  {
    b + Zeros(size - |b|)
  }

  // ------------------------------------------------------------ sequences

  lemma {:induction false} ConcatSplit(ss: seq<seq<Byte>>, i: nat)
    requires i < |ss|
    ensures StartOf(ss, i) + |ss[i]| == StartOf(ss, i + 1) <= |Concat(ss)|
    ensures Concat(ss)[StartOf(ss, i)..StartOf(ss, i + 1)] == ss[i]
    ensures Concat(ss[..i + 1]) == Concat(ss[..i]) + ss[i]
  {
    assert ss[..i + 1] == ss[..i] + [ss[i]];
    ConcatSnoc(ss[..i], ss[i]);
    ConcatAppend(ss[..i + 1], ss[i + 1..]);
    assert ss[..i + 1] + ss[i + 1..] == ss;
  }

  lemma {:induction false} TableStride(l: Layout, entries: seq<seq<Byte>>, i: nat)
    requires i <= |entries| && SameSize(l, entries)
    ensures |Concat(entries[..i])| == EntryAt(l, i)
    decreases i
  {
    if i > 0 {
      TableStride(l, entries, i - 1);
      EntryAtNext(l, i - 1);
      ConcatSplit(entries, i - 1);
    }
  }

  lemma SliceOfPrefix(a: seq<Byte>, b: seq<Byte>, c: seq<Byte>, img: seq<Byte>)
    requires a + b + c <= img
    ensures img[|a|..|a| + |b|] == b && a <= img
  {
  }

  /** Where each section lies in the image. */
  lemma SectionsAt(p: Parts, img: seq<Byte>)
    requires Body(p) <= img
    ensures var o := |p.header|;
            var t := o + |p.Ramdisk()| + |p.ramdiskPad| + |p.dtb|;
            && img[..o] == p.header
            && img[o..o + |p.Ramdisk()|] == p.Ramdisk()
            && img[t - |p.dtb|..t] == p.dtb
            && img[t..t + |p.Table()|] == p.Table()
            && img[t + |p.Table()|..t + |p.Table()| + |p.tablePad|] == p.tablePad
            && img[t + |p.Table()| + |p.tablePad|..|Body(p)|] == p.bootconfig
  {
    hide Concat;
    SevenSlices(p.header, p.Ramdisk(), p.ramdiskPad, p.dtb, p.Table(), p.tablePad, p.bootconfig, img);
  }

  lemma SevenSlices(a: seq<Byte>, b: seq<Byte>, c: seq<Byte>, d: seq<Byte>, e: seq<Byte>, f: seq<Byte>, g: seq<Byte>,
                    img: seq<Byte>)
    requires a + b + c + d + e + f + g <= img
    ensures var o := |a|;
            var t := o + |b| + |c| + |d|;
            && img[..o] == a
            && img[o..o + |b|] == b
            && img[t - |d|..t] == d
            && img[t..t + |e|] == e
            && img[t + |e|..t + |e| + |f|] == f
            && img[t + |e| + |f|..t + |e| + |f| + |g|] == g
  {
    var abcdef := a + b + c + d + e + f;
    SliceOfPrefix(abcdef, g, [], img);
    SliceOfPrefix(a + b + c + d + e, f, [], img);
    SliceOfPrefix(a + b + c + d, e, [], img);
    SliceOfPrefix(a + b + c, d, [], img);
    SliceOfPrefix(a, b, [], img);
  }

  lemma ReadSlice(img: seq<Byte>, at: nat, piece: seq<Byte>, off: nat)
    requires at + |piece| <= |img| && img[at..at + |piece|] == piece && off + 4 <= |piece|
    ensures Read32(img, at + off) == Read32(piece, off)
  {
  }

  // ------------------------------------------------------------ editing parts

  lemma StampReads(l: Layout, entry: seq<Byte>, offset: nat, size: nat)
    requires LayoutOk(l) && |entry| == l.entrySize && offset < U32 && size < U32
    ensures var e := Stamp(l, entry, offset, size);
            Read32(e, l.offset) == offset && Read32(e, l.size) == size
  {
    var e1 := Write32(entry, l.offset, offset);
    ReadOverwritten(entry, l.offset, offset);
    ReadBeside(e1, l.size, Le32(size), l.offset);
    ReadOverwritten(e1, l.size, size);
  }

  lemma StampTwice(l: Layout, entry: seq<Byte>, a: nat, b: nat, c: nat, d: nat)
    requires LayoutOk(l) && |entry| == l.entrySize
    ensures Stamp(l, Stamp(l, entry, a, b), c, d) == Stamp(l, entry, c, d)
  {
    var x := Write32(entry, l.offset, a);
    OverwriteCommutes(x, l.size, Le32(b), l.offset, Le32(c));
    OverwriteTwice(entry, l.offset, Le32(a), Le32(c));
    OverwriteTwice(Write32(entry, l.offset, c), l.size, Le32(b), Le32(d));
  }

  /** Only the ramdisk size changes in the header. */
  lemma HeaderEdited(l: Layout, header: seq<Byte>, total: nat)
    requires LayoutOk(l) && |header| >= l.v4Size && total < U32
    ensures var h := Write32(header, l.ramdiskSize, total);
            && Read32(h, l.ramdiskSize) == total
            && (l.magic <= header ==> l.magic <= h)
            && (forall f :: f in {l.version, l.pageSize, l.dtbSize, l.tableSize, l.entryNum, l.entryLen,
                                  l.bootconfigSize}
                  ==> f + 4 <= |h| && Read32(h, f) == Read32(header, f))
  {
    ReadOverwritten(header, l.ramdiskSize, total);
    forall f | f in {l.version, l.pageSize, l.dtbSize, l.tableSize, l.entryNum, l.entryLen, l.bootconfigSize}
      ensures f + 4 <= |header| && Read32(Write32(header, l.ramdiskSize, total), f) == Read32(header, f)
    {
      ReadBeside(header, l.ramdiskSize, Le32(total), f);
    }
  }

  lemma EditedEntry(l: Layout, p: Parts, idx: nat, data: seq<Byte>, i: nat)
    requires LayoutOk(l) && PartsOk(l, p) && idx < |p.fragments| && i < |p.entries|
    requires |Concat(p.fragments[idx := data])| < U32
    ensures EntryOk(l, Edit(l, p, idx, data), i)
  {
    var fragments := p.fragments[idx := data];
    ConcatSplit(fragments, i);
    assert EntryOk(l, p, i);
    StampReads(l, p.entries[i], StartOf(fragments, i), |fragments[i]|);
  }

  lemma TableBytes(l: Layout, entries: seq<seq<Byte>>)
    requires SameSize(l, entries)
    ensures |Concat(entries)| == EntryAt(l, |entries|)
  {
    TableStride(l, entries, |entries|);
    assert entries[..|entries|] == entries;
  }

  lemma EditedTable(l: Layout, p: Parts, idx: nat, data: seq<Byte>)
    requires LayoutOk(l) && PartsOk(l, p) && idx < |p.fragments|
    ensures |Edit(l, p, idx, data).Table()| == |p.Table()|
  {
    hide Concat, Read32, Write32, RoundUp, StartOf;
    TableBytes(l, p.entries);
    TableBytes(l, Edit(l, p, idx, data).entries);
  }

  /** An edited image is described by its header and table again. */
  lemma EditKeepsPartsOk(l: Layout, p: Parts, idx: nat, data: seq<Byte>)
    requires LayoutOk(l) && PartsOk(l, p) && idx < |p.fragments|
    requires |Concat(p.fragments[idx := data])| < U32
    ensures PartsOk(l, Edit(l, p, idx, data))
  {
    HeaderEdited(l, p.header, |Concat(p.fragments[idx := data])|);
    EditedTable(l, p, idx, data);
    forall i | 0 <= i < |p.entries|
      ensures EntryOk(l, Edit(l, p, idx, data), i)
    {
      EditedEntry(l, p, idx, data, i);
    }
  }

  /** The second of two edits of the same fragment hides the first. */
  lemma EditTwice(l: Layout, p: Parts, idx: nat, a: seq<Byte>, b: seq<Byte>)
    requires LayoutOk(l) && PartsOk(l, p) && idx < |p.fragments|
    requires |Concat(p.fragments[idx := a])| < U32
    ensures PartsOk(l, Edit(l, p, idx, a)) && Edit(l, Edit(l, p, idx, a), idx, b) == Edit(l, p, idx, b)
  {
    hide Concat, Read32, RoundUp, Write32, Stamp;
    EditKeepsPartsOk(l, p, idx, a);
    var pa := Edit(l, p, idx, a);
    var fa, fb := p.fragments[idx := a], p.fragments[idx := b];
    assert pa.fragments[idx := b] == fb;
    HeaderEdited(l, p.header, |Concat(fa)|);
    Write32Twice(p.header, l.ramdiskSize, |Concat(fa)|, |Concat(fb)|);
    forall i | 0 <= i < |p.entries|
      ensures Edit(l, pa, idx, b).entries[i] == Edit(l, p, idx, b).entries[i]
    {
      assert EntryOk(l, p, i) && EntryOk(l, pa, i);
      StampTwice(l, p.entries[i], StartOf(fa, i), |fa[i]|, StartOf(fb, i), |fb[i]|);
    }
    assert Edit(l, pa, idx, b).entries == Edit(l, p, idx, b).entries;
  }

  /** Where the header says that the table starts. */
  function TableAt(l: Layout, img: seq<Byte>): nat
    requires LayoutOk(l) && |img| >= l.v4Size && Read32(img, l.pageSize) > 0
  {
    var page := Read32(img, l.pageSize);
    RoundUp(l.v4Size, page) + RoundUp(Read32(img, l.ramdiskSize), page) + RoundUp(Read32(img, l.dtbSize), page)
  }

  lemma HeaderAgrees(l: Layout, img: seq<Byte>, p: Parts)
    requires LayoutOk(l) && PartsOk(l, p) && Body(p) <= img
    ensures |img| >= l.v4Size && Read32(img, l.pageSize) == p.Page(l) > 0
    ensures TableAt(l, img) == |p.header| + |p.Ramdisk()| + |p.ramdiskPad| + |p.dtb|
  {
    HeaderFields(l, img, p);
  }

  lemma EntryReadBack(l: Layout, img: seq<Byte>, p: Parts, i: nat)
    requires LayoutOk(l) && PartsOk(l, p) && Body(p) <= img && i < |p.fragments|
    ensures |img| >= l.v4Size && Read32(img, l.pageSize) > 0
    ensures var entry := TableAt(l, img) + EntryAt(l, i);
            && entry + l.entrySize <= |img|
            && img[entry..entry + l.entrySize] == p.entries[i]
            && Read32(img, entry + l.offset) == StartOf(p.fragments, i)
            && Read32(img, entry + l.size) == |p.fragments[i]|
  {
    hide Concat, Read32, RoundUp, EntryAt;
    HeaderAgrees(l, img, p);
    SectionsAt(p, img);
    TableStride(l, p.entries, i);
    ConcatSplit(p.entries, i);
    SliceInSlice(img, TableAt(l, img), p.Table(), StartOf(p.entries, i), p.entries[i]);
    var entry := TableAt(l, img) + EntryAt(l, i);
    assert EntryOk(l, p, i);
    ReadSlice(img, entry, p.entries[i], l.offset);
    ReadSlice(img, entry, p.entries[i], l.size);
  }

  /** What a reader of the image finds as fragment `i`, going by the header and the table alone. */
  function FragmentIn(l: Layout, img: seq<Byte>, i: nat): Option<seq<Byte>>
    requires LayoutOk(l)
  {
    if |img| < l.v4Size || Read32(img, l.pageSize) == 0 then None
    else
      var entry := TableAt(l, img) + EntryAt(l, i);
      if entry + l.entrySize > |img| then None
      else
        var start := RoundUp(l.v4Size, Read32(img, l.pageSize)) + Read32(img, entry + l.offset);
        var size := Read32(img, entry + l.size);
        if start + size > |img| then None else Some(img[start..start + size])
  }

  /** Reading the image back through its own table finds every fragment. */
  lemma FragmentReadBack(l: Layout, img: seq<Byte>, p: Parts, i: nat)
    requires LayoutOk(l) && PartsOk(l, p) && Body(p) <= img && i < |p.fragments|
    ensures FragmentIn(l, img, i) == Some(p.fragments[i])
  {
    hide Concat, Read32, RoundUp, EntryAt, TableAt;
    HeaderAgrees(l, img, p);
    EntryReadBack(l, img, p, i);
    SectionsAt(p, img);
    ConcatSplit(p.fragments, i);
    SliceInSlice(img, |p.header|, p.Ramdisk(), StartOf(p.fragments, i), p.fragments[i]);
  }

  lemma SliceInSlice(img: seq<Byte>, at: nat, outer: seq<Byte>, off: nat, inner: seq<Byte>)
    requires at + |outer| <= |img| && img[at..at + |outer|] == outer
    requires off + |inner| <= |outer| && outer[off..off + |inner|] == inner
    ensures img[at + off..at + off + |inner|] == inner
  {
    forall k | 0 <= k < |inner|
      ensures img[at + off + k] == inner[k]
    {
      assert outer[off..off + |inner|][k] == outer[off + k];
      assert img[at..at + |outer|][off + k] == img[at + off + k];
    }
  }

  lemma HeaderFields(l: Layout, img: seq<Byte>, p: Parts)
    requires LayoutOk(l) && PartsOk(l, p) && Body(p) <= img
    ensures |img| >= l.v4Size && l.magic <= img
    ensures forall f :: f in {l.version, l.pageSize, l.ramdiskSize, l.dtbSize, l.tableSize, l.entryNum, l.entryLen,
                              l.bootconfigSize}
              ==> f + 4 <= |p.header| && Read32(img, f) == Read32(p.header, f)
  {
    SectionsAt(p, img);
    assert |p.header| <= |img|;
    forall f | f in {l.version, l.pageSize, l.ramdiskSize, l.dtbSize, l.tableSize, l.entryNum, l.entryLen,
                     l.bootconfigSize}
      ensures f + 4 <= |p.header| && Read32(img, f) == Read32(p.header, f)
    {
      ReadSlice(img, 0, p.header, f);
    }
  }
}
