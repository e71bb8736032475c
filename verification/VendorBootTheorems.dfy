/** Replacing a ramdisk in a vendor_boot image does to its sections exactly what `Edit` says. */
module VendorBootTheorems {
  import opened Bytes
  import opened ByteStrings
  import opened VendorBootSpec
  import opened VendorBootParts

  /** `u` has read `img` up to `from` and written `b`, with zeros after it. */
  ghost predicate At(u: Buf, img: seq<Byte>, from: nat, b: seq<Byte>) {
    u.old_ == img && u.from == from <= |img| && u.to == |b| <= |img| && u.new_ == Padded(b, |img|)
  }

  /** `r` is that state if `b` fits, and otherwise an error. */
  ghost predicate Goes(r: Res<Buf>, img: seq<Byte>, from: nat, b: seq<Byte>) {
    if |b| <= |img| then r.Ok? && At(r.value, img, from, b) else r.Err?
  }

  lemma PaddedOverwrite(b: seq<Byte>, size: nat, piece: seq<Byte>)
    requires |b| + |piece| <= size
    ensures Overwrite(Padded(b, size), |b|, piece) == Padded(b + piece, size)
  {
  }

  lemma CopyGoes(u: Buf, img: seq<Byte>, from: nat, b: seq<Byte>, piece: seq<Byte>)
    requires At(u, img, from, b)
    requires from + |piece| <= |img| && img[from..from + |piece|] == piece
    ensures Goes(Copy(u, |piece|), img, from + |piece|, b + piece)
  {
    if piece == [] {
      assert b + piece == b;
    } else if |b + piece| <= |img| {
      PaddedOverwrite(b, |img|, piece);
    }
  }

  lemma ReplaceGoes(u: Buf, img: seq<Byte>, from: nat, b: seq<Byte>, n: nat, data: seq<Byte>)
    requires At(u, img, from, b) && from + n <= |img|
    ensures Goes(Replace(u, n, data), img, from + n, b + data)
  {
    if data == [] {
      assert b + data == b;
    } else if |b + data| <= |img| {
      PaddedOverwrite(b, |img|, data);
    }
  }

  lemma SkipGoes(u: Buf, img: seq<Byte>, from: nat, b: seq<Byte>, n: nat, k: nat)
    requires At(u, img, from, b) && from + n <= |img|
    ensures Goes(Skip(u, n, k), img, from + n, b + Zeros(k))
  {
    if |b| + k <= |img| {
      assert Padded(b + Zeros(k), |img|) == Padded(b, |img|);
    }
  }

  lemma PokeGoes(u: Buf, img: seq<Byte>, from: nat, b: seq<Byte>, off: nat, data: seq<Byte>)
    requires At(u, img, from, b) && off + |data| <= |b|
    ensures Poke(u, off, data).Ok? && At(Poke(u, off, data).value, img, from, Overwrite(b, off, data))
  {
    assert Overwrite(Padded(b, |img|), off, data) == Padded(Overwrite(b, off, data), |img|);
  }

  lemma OverwriteInTail(a: seq<Byte>, b: seq<Byte>, off: nat, data: seq<Byte>)
    requires off + |data| <= |b|
    ensures Overwrite(a + b, |a| + off, data) == a + Overwrite(b, off, data)
  {
  }

  lemma PokeTailGoes(u: Buf, img: seq<Byte>, from: nat, a: seq<Byte>, b: seq<Byte>, off: nat, data: seq<Byte>)
    requires At(u, img, from, a + b) && off + |data| <= |b|
    ensures var r := Poke(u, |a| + off, data); r.Ok? && At(r.value, img, from, a + Overwrite(b, off, data))
  {
    PokeGoes(u, img, from, a + b, |a| + off, data);
    OverwriteInTail(a, b, off, data);
  }

  // ------------------------------------------------------------ the fragment loop

  lemma FragmentAt(l: Layout, img: seq<Byte>, p: Parts, i: nat)
    requires LayoutOk(l) && PartsOk(l, p) && Body(p) <= img && i < |p.fragments|
    ensures var from := |p.header| + StartOf(p.fragments, i);
            from + |p.fragments[i]| <= |img| && img[from..from + |p.fragments[i]|] == p.fragments[i]
    ensures |img| >= l.v4Size && Read32(img, l.pageSize) > 0
    ensures Peek(img, TableAt(l, img) + EntryAt(l, i) + l.size) == Ok(|p.fragments[i]|)
  {
    hide Concat, Read32, RoundUp, EntryAt;
    SectionsAt(p, img);
    EntryReadBack(l, img, p, i);
    ConcatSplit(p.fragments, i);
    SliceInSlice(img, |p.header|, p.Ramdisk(), StartOf(p.fragments, i), p.fragments[i]);
  }

  ghost predicate FragmentsGone(r: Res<(Buf, nat)>, img: seq<Byte>, p: Parts, fragments: seq<seq<Byte>>) {
    if |p.header| + |Concat(fragments)| <= |img| then
      r.Ok? && r.value.1 == |Concat(fragments)| &&
      At(r.value.0, img, |p.header| + |p.Ramdisk()|, p.header + Concat(fragments))
    else r.Err?
  }

  lemma FragmentsUnfold(l: Layout, u: Buf, table: nat, i: nat, num: nat, idx: nat, data: seq<Byte>, total: nat,
                        size: nat, r1: Res<Buf>)
    requires i < num && Peek(u.old_, table + EntryAt(l, i) + l.size) == Ok(size)
    requires r1 == if i == idx then Replace(u, size, data) else Copy(u, size)
    requires total + (if i == idx then |data| else size) < U32 || r1.Err?
    ensures CopyFragments(l, u, table, i, num, idx, data, total) ==
            if r1.Ok? then
              CopyFragments(l, r1.value, table, i + 1, num, idx, data, total + if i == idx then |data| else size)
            else r1.PropagateFailure()
  {
    hide Peek, Replace, Copy, EntryAt;
  }

  lemma FragmentsEnd(l: Layout, u: Buf, table: nat, num: nat, idx: nat, data: seq<Byte>, total: nat)
    ensures CopyFragments(l, u, table, num, num, idx, data, total) == Ok((u, total))
  {
  }

  /** One fragment: copied, or replaced by `data`. */
  lemma FragmentStep(l: Layout, u: Buf, img: seq<Byte>, p: Parts, idx: nat, data: seq<Byte>, i: nat)
    requires LayoutOk(l) && PartsOk(l, p) && Body(p) <= img && idx < |p.fragments| && i < |p.fragments|
    requires At(u, img, |p.header| + StartOf(p.fragments, i), p.header + Concat(p.fragments[idx := data][..i]))
    ensures var size := |p.fragments[i]|;
            Goes(if i == idx then Replace(u, size, data) else Copy(u, size), img,
                 |p.header| + StartOf(p.fragments, i + 1), p.header + Concat(p.fragments[idx := data][..i + 1]))
  {
    hide Concat, Read32, RoundUp, EntryAt, Body, PartsOk, Copy, Replace, Padded, TableAt, Peek;
    FragmentAt(l, img, p, i);
    var f := p.fragments[idx := data];
    ConcatSplit(p.fragments, i);
    ConcatSplit(f, i);
    var from, b, size := |p.header| + StartOf(p.fragments, i), p.header + Concat(f[..i]), |p.fragments[i]|;
    assert b + f[i] == p.header + Concat(f[..i + 1]);
    if i == idx {
      ReplaceGoes(u, img, from, b, size, data);
    } else {
      CopyGoes(u, img, from, b, f[i]);
    }
  }

  lemma {:induction false} FragmentsGo(l: Layout, u: Buf, img: seq<Byte>, p: Parts, idx: nat, data: seq<Byte>, i: nat)
    requires LayoutOk(l) && Holds(l, img, p) && idx < |p.fragments| && i <= |p.fragments|
    requires |img| < U32 || |Concat(p.fragments[idx := data])| < U32
    requires At(u, img, |p.header| + StartOf(p.fragments, i), p.header + Concat(p.fragments[idx := data][..i]))
    ensures |img| >= l.v4Size && Read32(img, l.pageSize) > 0
    ensures var f := p.fragments[idx := data];
            FragmentsGone(CopyFragments(l, u, TableAt(l, img), i, |f|, idx, data, StartOf(f, i)), img, p, f)
    decreases |p.fragments| - i
  {
    hide Concat, Read32, RoundUp, EntryAt, Body, PartsOk, Copy, Replace, Padded, TableAt, Peek, CopyFragments;
    HeaderAgrees(l, img, p);
    var f := p.fragments[idx := data];
    if i == |f| {
      FragmentsEnd(l, u, TableAt(l, img), i, idx, data, StartOf(f, i));
      assert f[..i] == f && p.fragments[..i] == p.fragments;
    } else {
      FragmentAt(l, img, p, i);
      FragmentStep(l, u, img, p, idx, data, i);
      ConcatSplit(f, i);
      var size := |p.fragments[i]|;
      var r1 := if i == idx then Replace(u, size, data) else Copy(u, size);
      FragmentsUnfold(l, u, TableAt(l, img), i, |f|, idx, data, StartOf(f, i), size, r1);
      if r1.Ok? {
        FragmentsGo(l, r1.value, img, p, idx, data, i + 1);
      }
    }
  }

  // ------------------------------------------------------------ header and fragments

  lemma OverwriteInFront(a: seq<Byte>, b: seq<Byte>, off: nat, data: seq<Byte>)
    requires off + |data| <= |a|
    ensures Overwrite(a + b, off, data) == Overwrite(a, off, data) + b
  {
  }

  lemma HeaderGoes(img: seq<Byte>, header: seq<Byte>)
    requires header <= img
    ensures Copy(Fresh(img), |header|).Ok?
    ensures At(Copy(Fresh(img), |header|).value, img, |header|, header)
  {
    assert Padded([], |img|) == Zeros(|img|);
    CopyGoes(Fresh(img), img, 0, [], header);
    assert [] + header == header;
  }

  ghost predicate FrontGone(l: Layout, r: Res<(Buf, nat)>, img: seq<Byte>, p: Parts, p': Parts) {
    if |p'.header + p'.Ramdisk()| <= |img| then
      r.Ok? && r.value.1 == |p'.Ramdisk()| &&
      At(r.value.0, img, |p.header| + |p.Ramdisk()|, p'.header + p'.Ramdisk())
    else r.Err?
  }

  lemma FrontGoes(l: Layout, img: seq<Byte>, p: Parts, idx: nat, data: seq<Byte>)
    requires LayoutOk(l) && Holds(l, img, p) && idx < |p.fragments|
    requires |img| < U32 || |Concat(p.fragments[idx := data])| < U32
    ensures |img| >= l.v4Size && Read32(img, l.pageSize) > 0
    ensures FrontGone(l, PutFragments(l, Fresh(img), |p.header|, TableAt(l, img), |p.fragments|, idx, data),
                      img, p, Edit(l, p, idx, data))
  {
    hide Concat, Read32, RoundUp, EntryAt, Copy, Replace, Padded, TableAt, Peek, CopyFragments, Poke;
    HeaderAgrees(l, img, p);
    assert p.header <= img by { SectionsAt(p, img); assert |p.header| <= |Body(p)|; }
    HeaderGoes(img, p.header);
    var u1 := Copy(Fresh(img), |p.header|).value;
    var f := p.fragments[idx := data];
    NothingBefore(f);
    NothingBefore(p.fragments);
    assert p.header + [] == p.header;
    FragmentsGo(l, u1, img, p, idx, data, 0);
    var r2 := CopyFragments(l, u1, TableAt(l, img), 0, |f|, idx, data, 0);
    if r2.Ok? {
      PokeGoes(r2.value.0, img, |p.header| + |p.Ramdisk()|, p.header + Concat(f), l.ramdiskSize, Le32(|Concat(f)|));
      OverwriteInFront(p.header, Concat(f), l.ramdiskSize, Le32(|Concat(f)|));
    }
  }

  lemma NothingBefore(f: seq<seq<Byte>>)
    ensures Concat(f[..0]) == [] && StartOf(f, 0) == 0
  {
  }

  lemma PeekFront(u: Buf, img: seq<Byte>, from: nat, a: seq<Byte>, b: seq<Byte>, off: nat)
    requires At(u, img, from, a + b) && off + 4 <= |a|
    ensures Peek(u.new_, off) == Ok(Read32(a, off))
  {
    assert forall k :: off <= k < off + 4 ==> u.new_[k] == a[k];
  }

  /** The page size is still what it was. */
  lemma NewPageIs(l: Layout, u: Buf, img: seq<Byte>, from: nat, a: seq<Byte>, b: seq<Byte>)
    requires LayoutOk(l) && |a| >= l.v3Size && Read32(a, l.pageSize) > 0 && At(u, img, from, a + b)
    ensures NewPage(l, u) == Ok(Read32(a, l.pageSize))
  {
    hide Read32, Padded;
    PeekFront(u, img, from, a, b, l.pageSize);
  }

  // ------------------------------------------------------------ padding and device tree

  lemma PutDtbUnfold(u: Buf, page: nat, o: nat, size: nat, pad: nat, q: nat, total: nat)
    requires page > 0 && total + page <= U32 && o + size + pad < U32
    ensures var newP := RoundUp(total, page);
            var r1 := Skip(u, pad, newP - total);
            PutDtb(u, page, o, size + pad, q, size, total) ==
            if !r1.Ok? then r1
            else if r1.value.from == o + size + pad && r1.value.to == (o + newP) % U32 then Copy(r1.value, q) else Err
  {
    hide RoundUp, RoundUp32, Copy, Skip;
    RoundUpExact(total, page);
  }

  lemma DtbGoes(u: Buf, img: seq<Byte>, page: nat, b: seq<Byte>, o: nat, size: nat, pad: nat, dtb: seq<Byte>,
                total: nat)
    requires page > 0 && |b| + page <= U32 && |b| == o + total
    requires At(u, img, o + size, b) && o + size + pad + |dtb| <= |img| && o + size + pad < U32
    requires img[o + size + pad..o + size + pad + |dtb|] == dtb
    ensures Goes(PutDtb(u, page, o, size + pad, |dtb|, size, total), img, o + size + pad + |dtb|,
                 b + Zeros(RoundUp(total, page) - total) + dtb)
  {
    hide RoundUp, Padded, Copy, Skip, PutDtb;
    PutDtbUnfold(u, page, o, size, pad, |dtb|, total);
    var newP := RoundUp(total, page);
    SkipGoes(u, img, o + size, b, pad, newP - total);
    var r1 := Skip(u, pad, newP - total);
    if r1.Ok? {
      CopyGoes(r1.value, img, o + size + pad, b + Zeros(newP - total), dtb);
    }
  }

  // ------------------------------------------------------------ the table loop

  lemma EntryGoes(l: Layout, u: Buf, img: seq<Byte>, from: nat, b: seq<Byte>, entry: seq<Byte>, offset: nat,
                  size: Option<nat>)
    requires LayoutOk(l) && |entry| == l.entrySize && At(u, img, from, b)
    requires from + l.entrySize <= |img| && img[from..from + l.entrySize] == entry
    requires offset < U32 && (size.Some? ==> size.value < U32)
    ensures var r := PutEntry(l, u, l.entrySize, offset, size);
            var newSize := if size.Some? then size.value else Read32(entry, l.size);
            if |b| + l.entrySize <= |img| then
              && r.Ok? && r.value.1 == newSize
              && At(r.value.0, img, from + l.entrySize, b + Stamp(l, entry, offset, newSize))
            else r.Err?
  {
    hide Copy, Padded, Poke, Read32, Le32, Overwrite;
    CopyGoes(u, img, from, b, entry);
    var r1 := Copy(u, |entry|);
    if r1.Ok? {
      PokeTailGoes(r1.value, img, from + l.entrySize, b, entry, l.offset, Le32(offset));
      var u2 := Poke(r1.value, |b| + l.offset, Le32(offset)).value;
      var e2 := Write32(entry, l.offset, offset);
      assert Read32(e2, l.size) == Read32(entry, l.size) by { ReadBeside(entry, l.offset, Le32(offset), l.size); }
      if size.Some? {
        PokeTailGoes(u2, img, from + l.entrySize, b, e2, l.size, Le32(size.value));
        ReadOverwritten(e2, l.size, size.value);
        var u3 := Poke(u2, |b| + l.size, Le32(size.value)).value;
        PeekTail(u3, img, from + l.entrySize, b, Write32(e2, l.size, size.value), l.size);
      } else {
        WriteBack(e2, l.size);
        PeekTail(u2, img, from + l.entrySize, b, e2, l.size);
      }
    }
  }

  lemma PeekTail(u: Buf, img: seq<Byte>, from: nat, a: seq<Byte>, b: seq<Byte>, off: nat)
    requires At(u, img, from, a + b) && off + 4 <= |b|
    ensures Peek(u.new_, |a| + off) == Ok(Read32(b, off))
  {
    ReadSlice(u.new_, |a|, b, off);
  }

  lemma TableUnfold(l: Layout, u: Buf, i: nat, num: nat, idx: nat, size: nat, total: nat, r1: Res<(Buf, nat)>)
    requires i < num && r1 == PutEntry(l, u, l.entrySize, total, if i == idx then Some(size) else None)
    requires r1.Ok? ==> total + r1.value.1 < U32
    ensures CopyTable(l, u, i, num, idx, l.entrySize, size, total) ==
            if r1.Ok? then CopyTable(l, r1.value.0, i + 1, num, idx, l.entrySize, size, total + r1.value.1)
            else r1.PropagateFailure()
  {
    hide PutEntry;
  }

  lemma TableEnd(l: Layout, u: Buf, num: nat, idx: nat, size: nat, total: nat)
    ensures CopyTable(l, u, num, num, idx, l.entrySize, size, total) == Ok(u)
  {
  }

  lemma EditedEntryIs(l: Layout, p: Parts, idx: nat, data: seq<Byte>, i: nat)
    requires LayoutOk(l) && PartsOk(l, p) && idx < |p.fragments| && i < |p.entries|
    ensures var f := p.fragments[idx := data];
            && |p.entries[i]| == l.entrySize
            && Edit(l, p, idx, data).entries[i] == Stamp(l, p.entries[i], StartOf(f, i), |f[i]|)
            && (i != idx ==> |f[i]| == Read32(p.entries[i], l.size))
  {
    hide Concat, Read32, RoundUp, Stamp, Write32;
    assert EntryOk(l, p, i);
  }

  lemma {:induction false} TableGoes(l: Layout, u: Buf, img: seq<Byte>, p: Parts, idx: nat, data: seq<Byte>, i: nat,
                                     b: seq<Byte>)
    requires LayoutOk(l) && Holds(l, img, p) && idx < |p.fragments| && i <= |p.fragments|
    requires |Concat(p.fragments[idx := data])| < U32
    requires |img| >= l.v4Size && Read32(img, l.pageSize) > 0
    requires At(u, img, TableAt(l, img) + EntryAt(l, i), b + Concat(Edit(l, p, idx, data).entries[..i]))
    ensures Goes(CopyTable(l, u, i, |p.fragments|, idx, l.entrySize, |data|, StartOf(p.fragments[idx := data], i)),
                 img, TableAt(l, img) + EntryAt(l, |p.fragments|), b + Edit(l, p, idx, data).Table())
    decreases |p.fragments| - i
  {
    hide Concat, Read32, RoundUp, EntryAt, Body, Padded, TableAt, Peek, CopyTable, PutEntry, Stamp, Edit;
    var f, p' := p.fragments[idx := data], Edit(l, p, idx, data);
    EditedEntries(l, p, idx, data);
    if i == |f| {
      TableEnd(l, u, i, idx, |data|, StartOf(f, i));
      assert p'.entries[..i] == p'.entries;
    } else {
      EntryReadBack(l, img, p, i);
      EditedEntryIs(l, p, idx, data, i);
      ConcatSplit(f, i);
      ConcatSplit(p'.entries, i);
      EntryAtNext(l, i);
      var from, b1 := TableAt(l, img) + EntryAt(l, i), b + Concat(p'.entries[..i]);
      var size := if i == idx then Some(|data|) else None;
      EntryGoes(l, u, img, from, b1, p.entries[i], StartOf(f, i), size);
      assert b1 + p'.entries[i] == b + Concat(p'.entries[..i + 1]);
      var r1 := PutEntry(l, u, l.entrySize, StartOf(f, i), size);
      assert r1.Ok? ==> r1.value.1 == |f[i]|;
      TableUnfold(l, u, i, |f|, idx, |data|, StartOf(f, i), r1);
      if r1.Ok? {
        TableGoes(l, r1.value.0, img, p, idx, data, i + 1, b);
      }
    }
  }

  lemma EditedEntries(l: Layout, p: Parts, idx: nat, data: seq<Byte>)
    requires LayoutOk(l) && PartsOk(l, p) && idx < |p.fragments|
    ensures |Edit(l, p, idx, data).entries| == |p.fragments|
  {
  }

  function PadAndBootconfig(u: Buf, pad: nat, s: nat, oldEnd: nat, newEnd: nat): Res<Buf> {
    var r1 :- Copy(u, pad);
    var r2 :- CheckOffset(r1, oldEnd % U32, newEnd % U32);
    Copy(r2, s)
  }

  lemma PutTableUnfold(l: Layout, u: Buf, num: nat, idx: nat, size: nat, pad: nat, s: nat, oldEnd: nat, newEnd: nat)
    requires pad < U32
    ensures var r1 := CopyTable(l, u, 0, num, idx, l.entrySize, size, 0);
            PutTable(l, u, num, idx, l.entrySize, size, num * l.entrySize + pad, s, oldEnd, newEnd) ==
            if r1.Ok? then PadAndBootconfig(r1.value, pad, s, oldEnd, newEnd) else r1
  {
    hide CopyTable, Copy, CheckOffset;
  }

  /** Table padding and bootconfig. */
  lemma PaddingGoes(u: Buf, img: seq<Byte>, from: nat, b: seq<Byte>, pad: seq<Byte>, bootconfig: seq<Byte>)
    requires At(u, img, from, b) && from + |pad| + |bootconfig| <= |img|
    requires from + |pad| < U32 && (|img| < U32 || |b| + |pad| < U32)
    requires img[from..from + |pad|] == pad && img[from + |pad|..from + |pad| + |bootconfig|] == bootconfig
    ensures Goes(PadAndBootconfig(u, |pad|, |bootconfig|, from + |pad|, |b| + |pad|),
                 img, from + |pad| + |bootconfig|, b + pad + bootconfig)
  {
    hide Copy, Padded;
    CopyGoes(u, img, from, b, pad);
    var r1 := Copy(u, |pad|);
    if r1.Ok? {
      CopyGoes(r1.value, img, from + |pad|, b + pad, bootconfig);
    }
  }

  /** Table, table padding and bootconfig. */
  lemma BackGoes(l: Layout, u: Buf, img: seq<Byte>, p: Parts, idx: nat, data: seq<Byte>, b: seq<Byte>)
    requires LayoutOk(l) && Holds(l, img, p) && idx < |p.fragments|
    requires |Concat(p.fragments[idx := data])| < U32
    requires |img| < U32 || |b| + |p.Table()| + |p.tablePad| < U32
    requires |img| >= l.v4Size && Read32(img, l.pageSize) > 0
    requires At(u, img, TableAt(l, img), b)
    ensures var r := |p.Table()| + |p.tablePad|;
            Goes(PutTable(l, u, |p.fragments|, idx, l.entrySize, |data|, r, |p.bootconfig|, TableAt(l, img) + r,
                          |b| + r),
                 img, |Body(p)|, b + Edit(l, p, idx, data).Table() + p.tablePad + p.bootconfig)
  {
    hide Concat, Read32, RoundUp, EntryAt, Padded, TableAt, CopyTable, Edit, PutTable, PadAndBootconfig, Body,
         PartsOk, At;
    var p' := Edit(l, p, idx, data);
    TableTiles(l, p);
    var n, t := |p.fragments|, TableAt(l, img);
    EditedEntries(l, p, idx, data);
    EditedTable(l, p, idx, data);
    TableBytes(l, p.entries);
    NothingBefore(p'.entries);
    NothingBefore(p.fragments[idx := data]);
    assert b + [] == b;
    EntryAtZero(l);
    TableGoes(l, u, img, p, idx, data, 0, b);
    var r1 := CopyTable(l, u, 0, n, idx, l.entrySize, |data|, 0);
    EntryAtIs(l, n);
    TailAt(l, img, p);
    var r := |p.Table()| + |p.tablePad|;
    PutTableUnfold(l, u, n, idx, |data|, |p.tablePad|, |p.bootconfig|, t + r, |b| + r);
    if r1.Ok? {
      PaddingGoes(r1.value, img, t + |p.Table()|, b + p'.Table(), p.tablePad, p.bootconfig);
    }
  }

  lemma TableTiles(l: Layout, p: Parts)
    requires LayoutOk(l) && PartsOk(l, p)
    ensures |p.entries| == |p.fragments| && SameSize(l, p.entries)
  {
  }

  lemma TailAt(l: Layout, img: seq<Byte>, p: Parts)
    requires LayoutOk(l) && Holds(l, img, p)
    ensures |img| >= l.v4Size && Read32(img, l.pageSize) > 0
    ensures var from := TableAt(l, img) + |p.Table()|;
            && from + |p.tablePad| + |p.bootconfig| == |Body(p)| <= |img| && |Body(p)| < U32
            && img[from..from + |p.tablePad|] == p.tablePad
            && img[from + |p.tablePad|..from + |p.tablePad| + |p.bootconfig|] == p.bootconfig
  {
    hide Concat, Read32, RoundUp, TableAt;
    HeaderAgrees(l, img, p);
    SectionsAt(p, img);
  }

  lemma EntryAtZero(l: Layout)
    ensures EntryAt(l, 0) == 0
  {
  }

  lemma EntryAtIs(l: Layout, i: nat)
    ensures EntryAt(l, i) == i * l.entrySize
  {
  }

  // ------------------------------------------------------------ footer and search

  lemma FooterGoes(l: Layout, u: Buf, img: seq<Byte>, from: nat, b: seq<Byte>)
    requires LayoutOk(l) && At(u, img, from, b)
    ensures CopyFooter(l, u).Ok? && CopyFooter(l, u).value.new_ == WithFooter(l, img, Padded(b, |img|))
  {
    if |img| >= l.footerSize {
      var at := FooterPlace(l, |img|);
      assert img[at..at + |l.footerMagic|] == img[at..][..|l.footerMagic|];
    }
  }

  function NameOf(l: Layout, entry: seq<Byte>): seq<Byte>
    requires LayoutOk(l) && |entry| == l.entrySize
  {
    CString(entry[l.name..l.name + l.nameSize])
  }

  /** Entry `idx` has the name and no other entry from the first `k` has it. */
  ghost predicate OnlyOne(l: Layout, p: Parts, name: seq<Byte>, k: nat, idx: nat)
    requires LayoutOk(l) && SameSize(l, p.entries) && k <= |p.entries|
  {
    && idx < k && NameOf(l, p.entries[idx]) == name
    && forall j :: 0 <= j < k && j != idx ==> NameOf(l, p.entries[j]) != name
  }

  ghost predicate FoundSoFar(l: Layout, p: Parts, name: seq<Byte>, k: nat, found: Option<nat>)
    requires LayoutOk(l) && SameSize(l, p.entries) && k <= |p.entries|
  {
    if found.Some? then OnlyOne(l, p, name, k, found.value)
    else forall j :: 0 <= j < k ==> NameOf(l, p.entries[j]) != name
  }

  lemma NameReadBack(l: Layout, img: seq<Byte>, p: Parts, i: nat)
    requires LayoutOk(l) && PartsOk(l, p) && Body(p) <= img && i < |p.fragments|
    ensures |img| >= l.v4Size && Read32(img, l.pageSize) > 0
    ensures NameAt(l, img, TableAt(l, img) + EntryAt(l, i)) == Ok(NameOf(l, p.entries[i]))
  {
    hide Concat, Read32, RoundUp, EntryAt, TableAt, CString;
    EntryReadBack(l, img, p, i);
    var at := TableAt(l, img) + EntryAt(l, i);
    SliceInSlice(img, at, p.entries[i], l.name, p.entries[i][l.name..l.name + l.nameSize]);
  }

  /** The search returns the index exactly when one entry alone has the name. */
  lemma {:induction false} FindsTheOnlyOne(l: Layout, img: seq<Byte>, p: Parts, name: seq<Byte>, i: nat,
                                           found: Option<nat>)
    requires LayoutOk(l) && PartsOk(l, p) && Body(p) <= img && i <= |p.entries|
    requires |img| >= l.v4Size && Read32(img, l.pageSize) > 0
    requires FoundSoFar(l, p, name, i, found)
    ensures var r := FindUnique(l, name, img, TableAt(l, img), |p.entries|, i, found);
            && !r.Stray?
            && forall idx: nat :: r == Ok(idx) <==> OnlyOne(l, p, name, |p.entries|, idx)
    decreases |p.entries| - i
  {
    hide Concat, Read32, RoundUp, EntryAt, TableAt, CString, Body, NameOf, NameAt;
    if i < |p.entries| {
      NameReadBack(l, img, p, i);
      if NameOf(l, p.entries[i]) == name {
        if found.None? {
          FindsTheOnlyOne(l, img, p, name, i + 1, Some(i));
        }
      } else {
        FindsTheOnlyOne(l, img, p, name, i + 1, found);
      }
    }
  }

  // ------------------------------------------------------------ the theorems

  lemma GeometryAgrees(l: Layout, img: seq<Byte>, p: Parts)
    requires LayoutOk(l) && Holds(l, img, p)
    ensures |img| >= l.v4Size && Read32(img, l.pageSize) > 0 && Read32(img, l.entryLen) == l.entrySize
    ensures CheckHeader(l, img, 4) == Ok(l.v4Size)
    ensures GeometryOf(l, img, l.v4Size) ==
            Geometry(p.Page(l), |p.Ramdisk()|, |p.fragments|, |p.header|, |p.Ramdisk()| + |p.ramdiskPad|, |p.dtb|,
                     |p.Table()| + |p.tablePad|, |p.bootconfig|)
    ensures TableAt(l, img) == |p.header| + (|p.Ramdisk()| + |p.ramdiskPad|) + |p.dtb|
    ensures |Body(p)| == TableAt(l, img) + (|p.Table()| + |p.tablePad|) + |p.bootconfig|
  {
    hide Concat, RoundUp, RoundUp32, TableAt, Read32;
    HeaderFields(l, img, p);
    HeaderAgrees(l, img, p);
    var page := p.Page(l);
    assert |p.header| <= |Body(p)| && |p.Ramdisk()| <= |Body(p)| && |p.dtb| <= |Body(p)| && |p.bootconfig| <= |Body(p)|
           && |p.Table()| + |p.tablePad| <= |Body(p)|;
    RoundUpExact(l.v4Size, page);
    RoundUpExact(|p.Ramdisk()|, page);
    RoundUpExact(Read32(p.header, l.dtbSize), page);
    RoundUpExact(Read32(p.header, l.tableSize), page);
    RoundUpExact(Read32(p.header, l.bootconfigSize), page);
  }

  lemma EditedLengths(l: Layout, p: Parts, idx: nat, data: seq<Byte>)
    requires LayoutOk(l) && PartsOk(l, p) && idx < |p.fragments|
    ensures var p' := Edit(l, p, idx, data);
            && |p'.header| == |p.header| && p'.dtb == p.dtb && p'.tablePad == p.tablePad
            && p'.bootconfig == p.bootconfig
            && p'.Ramdisk() == Concat(p.fragments[idx := data])
            && p'.ramdiskPad == Zeros(RoundUp(|p'.Ramdisk()|, p.Page(l)) - |p'.Ramdisk()|)
  {
  }

  lemma EditedPage(l: Layout, p: Parts, idx: nat, data: seq<Byte>)
    requires LayoutOk(l) && PartsOk(l, p) && idx < |p.fragments|
    ensures var h := Edit(l, p, idx, data).header;
            |h| >= l.v4Size && Read32(h, l.pageSize) == p.Page(l) > 0
  {
    hide Read32, Concat;
    ReadBeside(p.header, l.ramdiskSize, Le32(|Concat(p.fragments[idx := data])|), l.pageSize);
  }

  lemma RebuildUnfold(l: Layout, img: seq<Byte>, g: Geometry, idx: nat, data: seq<Byte>, page: nat, total: nat)
    requires g.page > 0 && page > 0 && total + page <= U32
    requires var r1 := PutFragments(l, Fresh(img), g.o, g.o + g.p + g.q, g.num, idx, data);
             r1.Ok? && r1.value.1 == total && NewPage(l, r1.value.0) == Ok(page)
    ensures var r1 := PutFragments(l, Fresh(img), g.o, g.o + g.p + g.q, g.num, idx, data);
            var r2 := PutDtb(r1.value.0, page, g.o, g.p, g.q, g.size, total);
            Rebuild(l, img, g, l.entrySize, idx, data) ==
            if !r2.Ok? then r2
            else PutTable(l, r2.value, g.num, idx, l.entrySize, |data|, g.r, g.s, g.o + g.p + g.q + g.r,
                          g.o + RoundUp(total, page) + g.q + g.r)
  {
    hide PutFragments, NewPage, PutDtb, PutTable, RoundUp, RoundUp32;
    RoundUpExact(total, page);
  }

  /** Lengths and places of the edited sections. */
  lemma EditedBody(l: Layout, p: Parts, idx: nat, data: seq<Byte>)
    requires LayoutOk(l) && PartsOk(l, p) && idx < |p.fragments|
    ensures var p' := Edit(l, p, idx, data);
            var b := p'.header + p'.Ramdisk() + p'.ramdiskPad + p.dtb;
            && |p'.header| == |p.header| && p'.Ramdisk() == Concat(p.fragments[idx := data])
            && p'.ramdiskPad == Zeros(RoundUp(|p'.Ramdisk()|, p.Page(l)) - |p'.Ramdisk()|)
            && |p'.Table()| == |p.Table()|
            && Body(p') == b + p'.Table() + p.tablePad + p.bootconfig
  {
    hide Concat, RoundUp, Read32;
    EditedLengths(l, p, idx, data);
    EditedTable(l, p, idx, data);
  }

  lemma HeaderLong(l: Layout, p: Parts)
    requires LayoutOk(l) && PartsOk(l, p)
    ensures |p.header| >= l.v4Size && p.Page(l) > 0
  {
  }

  /** Everything behind the fragments. */
  lemma RestGoes(l: Layout, u: Buf, img: seq<Byte>, p: Parts, idx: nat, data: seq<Byte>)
    requires LayoutOk(l) && Holds(l, img, p) && idx < |p.fragments|
    requires Measurable(p.Page(l), img, Body(Edit(l, p, idx, data)))
    requires var p' := Edit(l, p, idx, data); At(u, img, |p.header| + |p.Ramdisk()|, p'.header + p'.Ramdisk())
    ensures var o, size, q, r := |p.header|, |p.Ramdisk()|, |p.dtb|, |p.Table()| + |p.tablePad|;
            var total, old_ := |Concat(p.fragments[idx := data])|, size + |p.ramdiskPad|;
            var r2 := PutDtb(u, p.Page(l), o, old_, q, size, total);
            Goes(if !r2.Ok? then r2
                 else PutTable(l, r2.value, |p.fragments|, idx, l.entrySize, |data|, r, |p.bootconfig|,
                               o + old_ + q + r, o + RoundUp(total, p.Page(l)) + q + r),
                 img, |Body(p)|, Body(Edit(l, p, idx, data)))
  {
    hide Concat, RoundUp, RoundUp32, TableAt, Read32, Edit, PutDtb, PutTable, Padded, PartsOk, Body;
    GeometryAgrees(l, img, p);
    SectionsAt(p, img);
    EditedBody(l, p, idx, data);
    HeaderLong(l, p);
    var p', page := Edit(l, p, idx, data), p.Page(l);
    var front, total := p'.header + p'.Ramdisk(), |p'.Ramdisk()|;
    DtbGoes(u, img, page, front, |p.header|, |p.Ramdisk()|, |p.ramdiskPad|, p.dtb, total);
    var r2 := PutDtb(u, page, |p.header|, |p.Ramdisk()| + |p.ramdiskPad|, |p.dtb|, |p.Ramdisk()|, total);
    if r2.Ok? {
      BackGoes(l, r2.value, img, p, idx, data, front + p'.ramdiskPad + p.dtb);
    }
  }

  lemma RebuildIs(l: Layout, img: seq<Byte>, p: Parts, idx: nat, data: seq<Byte>)
    requires LayoutOk(l) && Holds(l, img, p) && idx < |p.fragments|
    requires Measurable(p.Page(l), img, Body(Edit(l, p, idx, data)))
    ensures |img| >= l.v4Size && Read32(img, l.pageSize) > 0
    ensures Goes(Rebuild(l, img, GeometryOf(l, img, l.v4Size), l.entrySize, idx, data), img, |Body(p)|,
                 Body(Edit(l, p, idx, data)))
  {
    hide Concat, RoundUp, RoundUp32, TableAt, Read32, Edit, PutFragments, PutDtb, PutTable, Padded,
         GeometryOf, PartsOk, CheckHeader, NewPage, Rebuild, Body;
    GeometryAgrees(l, img, p);
    EditedBody(l, p, idx, data);
    var p' := Edit(l, p, idx, data);
    var g := GeometryOf(l, img, l.v4Size);
    FrontGoes(l, img, p, idx, data);
    var r1 := PutFragments(l, Fresh(img), g.o, TableAt(l, img), g.num, idx, data);
    if r1.Ok? {
      EditedPage(l, p, idx, data);
      NewPageIs(l, r1.value.0, img, |p.header| + |p.Ramdisk()|, p'.header, p'.Ramdisk());
      RestGoes(l, r1.value.0, img, p, idx, data);
      RebuildUnfold(l, img, g, idx, data, g.page, |p'.Ramdisk()|);
    } else {
      RebuildFails(l, img, g, idx, data);
    }
  }

  lemma RebuildFails(l: Layout, img: seq<Byte>, g: Geometry, idx: nat, data: seq<Byte>)
    requires g.page > 0 && PutFragments(l, Fresh(img), g.o, g.o + g.p + g.q, g.num, idx, data).Err?
    ensures Rebuild(l, img, g, l.entrySize, idx, data) == Err
  {
    hide PutFragments, NewPage, PutDtb, PutTable, RoundUp32;
  }

  /** On every well-formed image, replacing a fragment that exactly one table entry names succeeds
      exactly when the edited sections fit, and then yields those sections, zeros, and the old
      image's footer if there is one where it is looked for. */
  lemma ReplaceFragmentEdits(l: Layout, name: seq<Byte>, img: seq<Byte>, data: seq<Byte>, p: Parts, idx: nat)
    requires LayoutOk(l) && Holds(l, img, p) && |data| < U32
    requires OnlyOne(l, p, name, |p.entries|, idx) && Measurable(p.Page(l), img, Body(Edit(l, p, idx, data)))
    ensures var b := Body(Edit(l, p, idx, data));
            ReplaceFragment(l, name, img, data)
            == if |b| <= |img| then Ok(WithFooter(l, img, Padded(b, |img|))) else Err
  {
    hide Concat, RoundUp, RoundUp32, TableAt, Read32, Edit, Rebuild, Padded, WithFooter, GeometryOf, CheckHeader,
         FindUnique, EntryAt, CopyFooter;
    GeometryAgrees(l, img, p);
    TableBytes(l, p.entries);
    FindsTheOnlyOne(l, img, p, name, 0, None);
    RebuildIs(l, img, p, idx, data);
    var r := Rebuild(l, img, GeometryOf(l, img, l.v4Size), l.entrySize, idx, data);
    if r.Ok? {
      FooterGoes(l, r.value, img, |Body(p)|, Body(Edit(l, p, idx, data)));
    }
  }

  /** A name that no entry or more than one entry has is refused. */
  lemma ReplaceFragmentRefuses(l: Layout, name: seq<Byte>, img: seq<Byte>, data: seq<Byte>, p: Parts)
    requires LayoutOk(l) && Holds(l, img, p) && |data| < U32
    requires forall idx: nat :: !OnlyOne(l, p, name, |p.entries|, idx)
    ensures ReplaceFragment(l, name, img, data) == Err
  {
    hide Concat, RoundUp, RoundUp32, TableAt, Read32, Rebuild, GeometryOf, CheckHeader, FindUnique, EntryAt;
    GeometryAgrees(l, img, p);
    TableBytes(l, p.entries);
    FindsTheOnlyOne(l, img, p, name, 0, None);
  }

  // ------------------------------------------------------------ names

  /** A name ends at its first zero, or fills its field. */
  lemma {:induction false} CStringIs(name: seq<Byte>, junk: seq<Byte>)
    requires 0 !in name
    ensures CString(name) == name && CString(name + [0] + junk) == name
  {
    if name != [] {
      CStringIs(name[1..], junk);
      assert (name + [0] + junk)[1..] == name[1..] + [0] + junk;
      assert name == [name[0]] + name[1..];
    }
  }

  /** The entries' name fields hold `names`, each followed by zeros. */
  ghost predicate Names(l: Layout, p: Parts, names: seq<seq<Byte>>)
    requires LayoutOk(l) && SameSize(l, p.entries)
  {
    && |names| == |p.entries|
    && forall i :: 0 <= i < |names| ==> IsNamed(l, p.entries[i], names[i])
  }

  ghost predicate IsNamed(l: Layout, entry: seq<Byte>, name: seq<Byte>)
    requires LayoutOk(l) && |entry| == l.entrySize
  {
    && 0 !in name && |name| <= l.nameSize
    && entry[l.name..l.name + l.nameSize] == name + Zeros(l.nameSize - |name|)
  }

  lemma NamedIs(l: Layout, entry: seq<Byte>, name: seq<Byte>)
    requires LayoutOk(l) && |entry| == l.entrySize && IsNamed(l, entry, name)
    ensures NameOf(l, entry) == name
  {
    hide CString;
    var zeros := Zeros(l.nameSize - |name|);
    if zeros == [] {
      CStringIs(name, []);
      assert name + zeros == name;
    } else {
      CStringIs(name, zeros[1..]);
      assert name + zeros == name + [0] + zeros[1..];
    }
  }

  /** Replacing by name finds the entry whose field is the name followed by zeros, and refuses a name
      that no entry has or more than one. */
  lemma ReplaceNamedFragment(l: Layout, img: seq<Byte>, data: seq<Byte>, p: Parts, names: seq<seq<Byte>>,
                             name: seq<Byte>)
    requires LayoutOk(l) && Holds(l, img, p) && |data| < U32 && Names(l, p, names)
    requires forall idx :: 0 <= idx < |names| && names[idx] == name ==>
               Measurable(p.Page(l), img, Body(Edit(l, p, idx, data)))
    ensures forall idx :: 0 <= idx < |names| && names[idx] == name && name !in names[..idx] + names[idx + 1..] ==>
              var b := Body(Edit(l, p, idx, data));
              ReplaceFragment(l, name, img, data) ==
              if |b| <= |img| then Ok(WithFooter(l, img, Padded(b, |img|))) else Err
    ensures name !in names ==> ReplaceFragment(l, name, img, data) == Err
    ensures (exists i, j :: 0 <= i < j < |names| && names[i] == name && names[j] == name) ==>
              ReplaceFragment(l, name, img, data) == Err
  {
    hide NameOf, ReplaceFragment, Edit, PartsOk, Padded, WithFooter, Body, IsNamed;
    TableTiles(l, p);
    forall i | 0 <= i < |names|
      ensures NameOf(l, p.entries[i]) == names[i]
    {
      NamedIs(l, p.entries[i], names[i]);
    }
    forall idx | 0 <= idx < |names| && names[idx] == name && name !in names[..idx] + names[idx + 1..]
      ensures var b := Body(Edit(l, p, idx, data));
              ReplaceFragment(l, name, img, data) ==
              if |b| <= |img| then Ok(WithFooter(l, img, Padded(b, |img|))) else Err
    {
      forall j | 0 <= j < |names| && j != idx
        ensures names[j] != name
      {
        assert names[j] in names[..idx] + names[idx + 1..] by {
          if j < idx { assert names[..idx][j] == names[j]; } else { assert names[idx + 1..][j - idx - 1] == names[j]; }
        }
      }
      ReplaceFragmentEdits(l, name, img, data, p, idx);
    }
    if name !in names || exists i, j :: 0 <= i < j < |names| && names[i] == name && names[j] == name {
      ReplaceFragmentRefuses(l, name, img, data, p);
    }
  }

  // ------------------------------------------------------------ consequences

  lemma EditKeepsNames(l: Layout, p: Parts, name: seq<Byte>, idx: nat, data: seq<Byte>, i: nat)
    requires LayoutOk(l) && PartsOk(l, p) && idx < |p.fragments| && i < |p.entries|
    ensures NameOf(l, Edit(l, p, idx, data).entries[i]) == NameOf(l, p.entries[i])
  {
    hide Read32, RoundUp, Concat, CString;
    EditedEntryIs(l, p, idx, data, i);
    var e, e' := p.entries[i], Edit(l, p, idx, data).entries[i];
    assert e'[l.name..l.name + l.nameSize] == e[l.name..l.name + l.nameSize];
  }

  lemma EditKeepsOnlyOne(l: Layout, p: Parts, name: seq<Byte>, idx: nat, data: seq<Byte>)
    requires LayoutOk(l) && PartsOk(l, p) && OnlyOne(l, p, name, |p.entries|, idx)
    requires PartsOk(l, Edit(l, p, idx, data))
    ensures OnlyOne(l, Edit(l, p, idx, data), name, |p.entries|, idx)
  {
    hide Read32, RoundUp, Concat, NameOf, Stamp;
    forall i | 0 <= i < |p.entries|
      ensures NameOf(l, Edit(l, p, idx, data).entries[i]) == NameOf(l, p.entries[i])
    {
      EditKeepsNames(l, p, name, idx, data, i);
    }
  }

  lemma FooterOverTail(l: Layout, img: seq<Byte>, b: seq<Byte>)
    requires LayoutOk(l) && |b| + l.footerSize <= |img| && FooterQuiet(l, img)
    ensures b <= WithFooter(l, img, Padded(b, |img|))
    ensures forall i :: |b| <= i < |img| - l.footerSize ==> WithFooter(l, img, Padded(b, |img|))[i] == 0
  {
  }

  /** The footer copied from the new image is the one copied from the old image. */
  lemma SameFooterAgain(l: Layout, img: seq<Byte>, b: seq<Byte>, x: seq<Byte>)
    requires LayoutOk(l) && |b| + l.footerSize <= |img| && |x| == |img|
    requires FooterQuiet(l, img) && FooterQuiet(l, Padded(b, |img|))
    ensures WithFooter(l, WithFooter(l, img, Padded(b, |img|)), x) == WithFooter(l, img, x)
  {
    var at := |img| - l.footerSize;
    var out := WithFooter(l, img, Padded(b, |img|));
    if at < U32 {
      if l.footerMagic <= img[at..] {
        assert FooterPlace(l, |img|) == at && at + l.footerSize == |img|;
        assert img[at..at + l.footerSize] == img[at..];
        assert out == Overwrite(Padded(b, |img|), at, img[at..]);
        assert out[at..] == img[at..];
      } else {
        assert out[at] == 0;
        assert out[at..][0] == out[at];
      }
    }
  }

  /** If the edited sections end before the footer, the new image is well formed again with exactly
      the edited sections; it has the old size, and zeros up to the footer. */
  lemma ReplacedImageHolds(l: Layout, name: seq<Byte>, img: seq<Byte>, data: seq<Byte>, p: Parts, idx: nat)
    requires LayoutOk(l) && Holds(l, img, p) && |data| < U32 && OnlyOne(l, p, name, |p.entries|, idx)
    requires Measurable(p.Page(l), img, Body(Edit(l, p, idx, data)))
    requires |Body(Edit(l, p, idx, data))| + l.footerSize <= |img| && FooterQuiet(l, img)
    ensures ReplaceFragment(l, name, img, data).Ok?
    ensures var out := ReplaceFragment(l, name, img, data).value;
            && |out| == |img| && Holds(l, out, Edit(l, p, idx, data))
            && forall i :: |Body(Edit(l, p, idx, data))| <= i < |img| - l.footerSize ==> out[i] == 0
  {
    hide Concat, RoundUp, Read32, Padded, WithFooter, ReplaceFragment;
    var p' := Edit(l, p, idx, data);
    ReplaceFragmentEdits(l, name, img, data, p, idx);
    FooterOverTail(l, img, Body(p'));
    assert |p'.Ramdisk()| <= |Body(p')|;
    EditKeepsPartsOk(l, p, idx, data);
    EditKeepsPage(l, p, idx, data);
  }

  lemma EditKeepsPage(l: Layout, p: Parts, idx: nat, data: seq<Byte>)
    requires LayoutOk(l) && PartsOk(l, p) && idx < |p.fragments| && |Concat(p.fragments[idx := data])| < U32
    ensures |Edit(l, p, idx, data).header| >= l.v4Size && Edit(l, p, idx, data).Page(l) == p.Page(l)
  {
    HeaderEdited(l, p.header, |Concat(p.fragments[idx := data])|);
  }

  /** Reading the new image through its own header and table finds the new ramdisk under the replaced
      index and every other fragment unchanged. */
  lemma ReplacedImageReadBack(l: Layout, name: seq<Byte>, img: seq<Byte>, data: seq<Byte>, p: Parts, idx: nat, i: nat)
    requires LayoutOk(l) && Holds(l, img, p) && |data| < U32 && OnlyOne(l, p, name, |p.entries|, idx)
             && i < |p.fragments|
    requires Measurable(p.Page(l), img, Body(Edit(l, p, idx, data)))
    requires |Body(Edit(l, p, idx, data))| + l.footerSize <= |img| && FooterQuiet(l, img)
    ensures ReplaceFragment(l, name, img, data).Ok?
    ensures FragmentIn(l, ReplaceFragment(l, name, img, data).value, i)
            == Some(if i == idx then data else p.fragments[i])
  {
    hide Concat, RoundUp, Read32, ReplaceFragment, FragmentIn, Body;
    ReplacedImageHolds(l, name, img, data, p, idx);
    FragmentReadBack(l, ReplaceFragment(l, name, img, data).value, Edit(l, p, idx, data), i);
  }

  /** With sections that end before it, a footer survives exactly if its offset fits in 32 bits. */
  lemma FooterKeptIff(l: Layout, img: seq<Byte>, b: seq<Byte>)
    requires LayoutOk(l) && |b| + l.footerSize <= |img| && HasFooter(l, img)
    ensures var at := |img| - l.footerSize;
            WithFooter(l, img, Padded(b, |img|))[at..] == img[at..] <==> at < U32
  {
    var at := |img| - l.footerSize;
    var out := WithFooter(l, img, Padded(b, |img|));
    assert img[at..][0] == l.footerMagic[0];
    if at < U32 {
      assert out[at..] == img[at..];
    } else {
      assert FooterPlace(l, |img|) + l.footerSize <= at;
      assert out[at] == 0;
      assert out[at..][0] != img[at..][0];
    }
  }

  lemma FragmentFooterIff(l: Layout, name: seq<Byte>, img: seq<Byte>, data: seq<Byte>, p: Parts, idx: nat)
    requires LayoutOk(l) && Holds(l, img, p) && |data| < U32 && OnlyOne(l, p, name, |p.entries|, idx)
    requires Measurable(p.Page(l), img, Body(Edit(l, p, idx, data)))
    requires |Body(Edit(l, p, idx, data))| + l.footerSize <= |img| && HasFooter(l, img)
    ensures ReplaceFragment(l, name, img, data).Ok?
    ensures var out, at := ReplaceFragment(l, name, img, data).value, |img| - l.footerSize;
            |out| == |img| && (out[at..] == img[at..] <==> at < U32)
  {
    hide Concat, RoundUp, Read32, Padded, WithFooter, ReplaceFragment, HasFooter, Edit;
    ReplaceFragmentEdits(l, name, img, data, p, idx);
    FooterKeptIff(l, img, Body(Edit(l, p, idx, data)));
  }

  /** Last write wins: after a first replacement that stays below the footer, a second one of the same
      fragment gives exactly what it would have given on the original image. */
  lemma LastWriteWins(l: Layout, name: seq<Byte>, img: seq<Byte>, a: seq<Byte>, b: seq<Byte>, p: Parts, idx: nat)
    requires LayoutOk(l) && Holds(l, img, p) && |a| < U32 && |b| < U32 && OnlyOne(l, p, name, |p.entries|, idx)
    requires Measurable(p.Page(l), img, Body(Edit(l, p, idx, a)))
    requires Measurable(p.Page(l), img, Body(Edit(l, p, idx, b)))
    requires |Body(Edit(l, p, idx, a))| + l.footerSize <= |img|
    requires FooterQuiet(l, img) && FooterQuiet(l, Padded(Body(Edit(l, p, idx, a)), |img|))
    ensures ReplaceFragment(l, name, img, a).Ok?
    ensures ReplaceFragment(l, name, ReplaceFragment(l, name, img, a).value, b) == ReplaceFragment(l, name, img, b)
  {
    hide Concat, RoundUp, Read32, ReplaceFragment, Padded, WithFooter, Edit, NameOf;
    ReplacedImageHolds(l, name, img, a, p, idx);
    ReplaceFragmentEdits(l, name, img, a, p, idx);
    ReplaceFragmentEdits(l, name, img, b, p, idx);
    var out, pa := ReplaceFragment(l, name, img, a).value, Edit(l, p, idx, a);
    EditKeepsOnlyOne(l, p, name, idx, a);
    EditedEntries(l, p, idx, a);
    EditedLengths(l, p, idx, a);
    assert |pa.Ramdisk()| <= |Body(pa)|;
    EditTwice(l, p, idx, a, b);
    EditKeepsPage(l, p, idx, a);
    ReplaceFragmentEdits(l, name, out, b, pa, idx);
    var bb := Body(Edit(l, p, idx, b));
    if |bb| <= |img| {
      SameFooterAgain(l, img, Body(pa), Padded(bb, |img|));
    }
  }
}
