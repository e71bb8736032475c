/** Replacing the whole vendor ramdisk. */
module VendorBootDefault {
  import opened Bytes
  import opened ByteStrings
  import opened VendorBootSpec
  import opened VendorBootParts
  import opened VendorBootTheorems

  /** The sections of an image in whole pages; the last two exist only in version 4. */
  datatype Frame = Frame(header: seq<Byte>, ramdisk: seq<Byte>, dtb: seq<Byte>, table: seq<Byte>, bootconfig: seq<Byte>)

  function FrameBody(f: Frame): seq<Byte> {
    f.header + f.ramdisk + f.dtb + f.table + f.bootconfig
  }

  ghost predicate FrameOk(l: Layout, f: Frame)
    requires LayoutOk(l)
  {
    && |f.header| >= l.v3Size && l.magic <= f.header
    && var version, page := Read32(f.header, l.version), Read32(f.header, l.pageSize);
       && 3 <= version <= 4 && page > 0
       && |f.header| == RoundUp(if version == 4 then l.v4Size else l.v3Size, page)
       && |f.ramdisk| == RoundUp(Read32(f.header, l.ramdiskSize), page)
       && |f.dtb| == RoundUp(Read32(f.header, l.dtbSize), page)
       && (if version == 4 then
             && |f.table| == RoundUp(Read32(f.header, l.tableSize), page)
             && |f.bootconfig| == RoundUp(Read32(f.header, l.bootconfigSize), page)
           else f.table == [] && f.bootconfig == [])
  }

  ghost predicate FrameHolds(l: Layout, img: seq<Byte>, f: Frame)
    requires LayoutOk(l)
  {
    && FrameOk(l, f) && FrameBody(f) <= img
    && |FrameBody(f)| + Read32(f.header, l.pageSize) <= U32
    && l.entrySize + Read32(f.header, l.pageSize) <= U32
  }

  /** A table of `n` bytes whose only entry covers a ramdisk of the given size. */
  function NewTable(l: Layout, size: nat, n: nat): (r: seq<Byte>)
    requires LayoutOk(l) && n >= l.entrySize
    ensures |r| == n
  {
    Write32(Write32(Zeros(n), l.size, size), l.kind, l.kindNone)
  }

  /** Replacing the ramdisk: one fragment, one entry, zero padding, the rest unchanged. */
  function NewFrame(l: Layout, f: Frame, data: seq<Byte>): Frame
    requires LayoutOk(l) && FrameOk(l, f)
  {
    var v4, page := Read32(f.header, l.version) == 4, Read32(f.header, l.pageSize);
    f.(header := NewHeader(l, f.header, v4, |data|),
       ramdisk := data + Zeros(RoundUp(|data|, page) - |data|),
       table := if v4 then NewTable(l, |data|, RoundUp(l.entrySize, page)) else [])
  }

  // ------------------------------------------------------------ the pipeline computes it

  lemma FrameSections(f: Frame, img: seq<Byte>)
    requires FrameBody(f) <= img
    ensures var o, p, q, r := |f.header|, |f.ramdisk|, |f.dtb|, |f.table|;
            && |FrameBody(f)| == o + p + q + r + |f.bootconfig|
            && f.header <= img
            && img[o + p..o + p + q] == f.dtb
            && img[o + p + q + r..o + p + q + r + |f.bootconfig|] == f.bootconfig
  {
    var h, rd, d, t, bc := f.header, f.ramdisk, f.dtb, f.table, f.bootconfig;
    assert FrameBody(f) == (h + rd) + d + (t + bc);
    SliceOfPrefix(h + rd, d, t + bc, img);
    assert FrameBody(f) == (h + rd + d + t) + bc + [];
    SliceOfPrefix(h + rd + d + t, bc, [], img);
  }

  lemma FrameFields(l: Layout, img: seq<Byte>, f: Frame)
    requires LayoutOk(l) && FrameOk(l, f) && FrameBody(f) <= img
    ensures |img| >= |f.header| >= l.v3Size && l.magic <= img
    ensures forall k: nat :: k + 4 <= |f.header| ==> Read32(img, k) == Read32(f.header, k)
  {
    FrameSections(f, img);
    forall k: nat | k + 4 <= |f.header|
      ensures Read32(img, k) == Read32(f.header, k)
    {
      ReadSlice(img, 0, f.header, k);
    }
  }

  lemma ZeroOverwrite(b: seq<Byte>, off: nat, n: nat)
    requires off + n <= |b| && forall i :: off <= i < off + n ==> b[i] == 0
    ensures Overwrite(b, off, Zeros(n)) == b
  {
  }

  lemma Le32Zero()
    ensures Le32(0) == Zeros(4)
  {
  }

  lemma NewTableZero(l: Layout, size: nat, n: nat)
    requires LayoutOk(l) && n >= l.entrySize
    ensures forall i :: l.offset <= i < l.offset + 4 ==> Write32(Zeros(n), l.size, size)[i] == 0
    ensures forall i :: l.kind + 4 <= i < n ==> NewTable(l, size, n)[i] == 0
  {
    hide Le32;
    var z := Write32(Zeros(n), l.size, size);
    forall i | l.size + 4 <= i < n
      ensures z[i] == 0
    {
      OverwriteAt(Zeros(n), l.size, Le32(size), i);
    }
    forall i | l.kind + 4 <= i < n
      ensures NewTable(l, size, n)[i] == 0
    {
      OverwriteAt(z, l.kind, Le32(l.kindNone), i);
    }
  }

  lemma EntryStored(l: Layout, u: Buf, img: seq<Byte>, from: nat, b: seq<Byte>, n: nat, size: nat)
    requires LayoutOk(l) && n >= l.entrySize && At(u, img, from, b + Zeros(n))
    ensures SingleEntry(l, u, |b|, size).Ok?
    ensures At(SingleEntry(l, u, |b|, size).value, img, from, b + NewTable(l, size, n))
  {
    hide Poke, Padded, Le32, Overwrite;
    NewTableZero(l, size, n);
    var z1 := Write32(Zeros(n), l.size, size);
    PokeTailGoes(u, img, from, b, Zeros(n), l.size, Le32(size));
    var u1 := Poke(u, |b| + l.size, Le32(size)).value;
    Le32Zero();
    ZeroOverwrite(z1, l.offset, 4);
    PokeTailGoes(u1, img, from, b, z1, l.offset, Le32(0));
    var u2 := Poke(u1, |b| + l.offset, Le32(0)).value;
    var z3 := NewTable(l, size, n);
    PokeTailGoes(u2, img, from, b, z1, l.kind, Le32(l.kindNone));
    var u3 := Poke(u2, |b| + l.kind, Le32(l.kindNone)).value;
    ZeroOverwrite(z3, l.name, l.nameSize);
    PokeTailGoes(u3, img, from, b, z3, l.name, Zeros(l.nameSize));
    var u4 := Poke(u3, |b| + l.name, Zeros(l.nameSize)).value;
    ZeroOverwrite(z3, l.board, l.boardSize);
    PokeTailGoes(u4, img, from, b, z3, l.board, Zeros(l.boardSize));
  }

  lemma HeaderStored(l: Layout, u: Buf, img: seq<Byte>, from: nat, h: seq<Byte>, v4: bool, size: nat)
    requires LayoutOk(l) && |h| >= (if v4 then l.v4Size else l.v3Size) && At(u, img, from, h)
    requires v4 <==> Read32(h, l.version) >= 4
    ensures StampHeader(l, u, size).Ok? && At(StampHeader(l, u, size).value, img, from, NewHeader(l, h, v4, size))
  {
    hide Padded, Le32, Overwrite, Read32, Poke, Peek;
    PokeGoes(u, img, from, h, l.ramdiskSize, Le32(size));
    var u1, h1 := Poke(u, l.ramdiskSize, Le32(size)).value, Write32(h, l.ramdiskSize, size);
    ReadBeside(h, l.ramdiskSize, Le32(size), l.version);
    assert h1 + [] == h1;
    PeekFront(u1, img, from, h1, [], l.version);
    if v4 {
      PokeGoes(u1, img, from, h1, l.entryLen, Le32(l.entrySize));
      var u2, h2 := Poke(u1, l.entryLen, Le32(l.entrySize)).value, Write32(h1, l.entryLen, l.entrySize);
      PokeGoes(u2, img, from, h2, l.entryNum, Le32(1));
      var u3, h3 := Poke(u2, l.entryNum, Le32(1)).value, Write32(h2, l.entryNum, 1);
      PokeGoes(u3, img, from, h3, l.tableSize, Le32(l.entrySize));
    }
  }

  /** The table and the bootconfig of a version 4 image. `rest` is what follows the new header. */
  lemma TableReplaced(l: Layout, u: Buf, img: seq<Byte>, f: Frame, h: seq<Byte>, rest: seq<Byte>, size: nat)
    requires LayoutOk(l) && FrameHolds(l, img, f) && Read32(f.header, l.version) == 4
    requires h == NewHeader(l, f.header, true, size) && size < U32
    requires |img| < U32 || |h + rest| + RoundUp(l.entrySize, Read32(f.header, l.pageSize)) < U32
    requires At(u, img, |f.header| + |f.ramdisk| + |f.dtb|, h + rest)
    ensures var page := Read32(f.header, l.pageSize);
            Goes(ReplaceTable(l, img, u, page, |f.header| + |f.ramdisk| + |f.dtb|, |h + rest|), img, |FrameBody(f)|,
                 h + rest + NewTable(l, size, RoundUp(l.entrySize, page)) + f.bootconfig)
  {
    hide Copy, Skip, Padded, SingleEntry, RoundUp, RoundUp32, Read32, NewTable, NewHeader, NewPage, Peek, FrameBody;
    var page, t, b := Read32(f.header, l.pageSize), |f.header| + |f.ramdisk| + |f.dtb|, h + rest;
    TableSizes(l, img, f);
    NewHeaderReads(l, f.header, true, size);
    PeekFront(u, img, t, h, rest, l.tableSize);
    NewPageIs(l, u, img, t, h, rest);
    var newR := RoundUp(l.entrySize, page);
    SkipGoes(u, img, t, b, |f.table|, newR);
    var r1 := Skip(u, |f.table|, newR);
    if r1.Ok? {
      assert h + rest + Zeros(newR) == h + (rest + Zeros(newR));
      PeekFront(r1.value, img, t + |f.table|, h, rest + Zeros(newR), l.ramdiskSize);
      EntryStored(l, r1.value, img, t + |f.table|, b, newR, size);
      var u2 := SingleEntry(l, r1.value, |b|, size).value;
      CopyGoes(u2, img, t + |f.table|, b + NewTable(l, size, newR), f.bootconfig);
    }
  }

  lemma TableSizes(l: Layout, img: seq<Byte>, f: Frame)
    requires LayoutOk(l) && FrameHolds(l, img, f) && Read32(f.header, l.version) == 4
    ensures |f.header| >= l.v4Size && |FrameBody(f)| <= |img|
    ensures var page, t := Read32(f.header, l.pageSize), |f.header| + |f.ramdisk| + |f.dtb|;
            && Peek(img, l.tableSize) == Ok(Read32(f.header, l.tableSize))
            && Peek(img, l.bootconfigSize) == Ok(Read32(f.header, l.bootconfigSize))
            && RoundUp32(Read32(f.header, l.tableSize), page) == |f.table|
            && RoundUp32(Read32(f.header, l.bootconfigSize), page) == |f.bootconfig|
            && RoundUp32(l.entrySize, page) == RoundUp(l.entrySize, page)
            && |FrameBody(f)| == t + |f.table| + |f.bootconfig|
            && img[t + |f.table|..t + |f.table| + |f.bootconfig|] == f.bootconfig
  {
    hide RoundUp, RoundUp32, Read32;
    var page := Read32(f.header, l.pageSize);
    FrameSections(f, img);
    FrameFields(l, img, f);
    RoundUpExact(Read32(f.header, l.tableSize), page);
    RoundUpExact(Read32(f.header, l.bootconfigSize), page);
    RoundUpExact(l.entrySize, page);
  }

  /** Header and ramdisk. */
  lemma RamdiskReplaced(l: Layout, img: seq<Byte>, f: Frame, data: seq<Byte>)
    requires LayoutOk(l) && FrameHolds(l, img, f)
    ensures var v4 := Read32(f.header, l.version) == 4;
            var r1 := Copy(Fresh(img), |f.header|);
            && r1.Ok? && StampHeader(l, r1.value, |data|).Ok?
            && var u2 := StampHeader(l, r1.value, |data|).value;
               var size := Read32(f.header, l.ramdiskSize);
               Goes(Replace(u2, size, data), img, |f.header| + size, NewHeader(l, f.header, v4, |data|) + data)
  {
    hide Copy, Replace, Padded, RoundUp, Read32, NewHeader, StampHeader;
    FrameSections(f, img);
    HeaderGoes(img, f.header);
    var v4 := Read32(f.header, l.version) == 4;
    var u1 := Copy(Fresh(img), |f.header|).value;
    HeaderStored(l, u1, img, |f.header|, f.header, v4, |data|);
    var u2 := StampHeader(l, u1, |data|).value;
    ReplaceGoes(u2, img, |f.header|, NewHeader(l, f.header, v4, |data|), Read32(f.header, l.ramdiskSize), data);
  }

  lemma FrameHeaderAccepted(l: Layout, img: seq<Byte>, f: Frame)
    requires LayoutOk(l) && FrameHolds(l, img, f)
    ensures var v4, page := Read32(f.header, l.version) == 4, Read32(f.header, l.pageSize);
            && CheckHeader(l, img, 3) == Ok(if v4 then l.v4Size else l.v3Size)
            && RoundUp32(if v4 then l.v4Size else l.v3Size, page) == |f.header|
            && RoundUp32(Read32(f.header, l.ramdiskSize), page) == |f.ramdisk|
            && RoundUp32(Read32(f.header, l.dtbSize), page) == |f.dtb|
  {
    hide RoundUp, RoundUp32, Read32;
    FrameSections(f, img);
    FrameFields(l, img, f);
    var page := Read32(f.header, l.pageSize);
    RoundUpExact(if Read32(f.header, l.version) == 4 then l.v4Size else l.v3Size, page);
    RoundUpExact(Read32(f.header, l.ramdiskSize), page);
    RoundUpExact(Read32(f.header, l.dtbSize), page);
  }

  lemma TailUnfold(l: Layout, img: seq<Byte>, u: Buf, page: nat, o: nat, p: nat, q: nat, size: nat, newSize: nat,
                   v4: bool)
    requires page > 0 && NewPage(l, u) == Ok(page) && Peek(u.new_, l.ramdiskSize) == Ok(newSize)
             && newSize + page <= U32
    requires var r := PutDtb(u, page, o, p, q, size, newSize);
             r.Ok? ==> Peek(r.value.new_, l.version) == Ok(if v4 then 4 else 3)
    ensures var r := PutDtb(u, page, o, p, q, size, newSize);
            DefaultTail(l, img, u, page, o, p, q, size) ==
            if r.Ok? && v4 then ReplaceTable(l, img, r.value, page, o + p + q, o + RoundUp(newSize, page) + q) else r
  {
    hide NewPage, Peek, PutDtb, ReplaceTable, RoundUp, RoundUp32;
    RoundUpExact(newSize, page);
  }

  /** The sections of the new image in the order in which they are written. */
  lemma NewFrameIs(l: Layout, f: Frame, data: seq<Byte>)
    requires LayoutOk(l) && FrameOk(l, f)
    ensures var v4, page := Read32(f.header, l.version) == 4, Read32(f.header, l.pageSize);
            var pad := Zeros(RoundUp(|data|, page) - |data|);
            var h := NewHeader(l, f.header, v4, |data|);
            && h + data + pad + f.dtb == h + (data + pad + f.dtb)
            && |h| == |f.header| && |data + pad| == RoundUp(|data|, page)
            && FrameBody(NewFrame(l, f, data)) ==
               if v4 then h + (data + pad + f.dtb) + NewTable(l, |data|, RoundUp(l.entrySize, page)) + f.bootconfig
               else h + (data + pad + f.dtb)
  {
    hide RoundUp, Read32, NewHeader, NewTable;
  }

  /** Everything behind the ramdisk. */
  lemma TailReplaced(l: Layout, u: Buf, img: seq<Byte>, f: Frame, data: seq<Byte>)
    requires LayoutOk(l) && FrameHolds(l, img, f) && |data| < U32
    requires Measurable(Read32(f.header, l.pageSize), img, FrameBody(NewFrame(l, f, data)))
    requires At(u, img, |f.header| + Read32(f.header, l.ramdiskSize),
                NewHeader(l, f.header, Read32(f.header, l.version) == 4, |data|) + data)
    ensures Goes(DefaultTail(l, img, u, Read32(f.header, l.pageSize), |f.header|, |f.ramdisk|, |f.dtb|,
                             Read32(f.header, l.ramdiskSize)),
                 img, |FrameBody(f)|, FrameBody(NewFrame(l, f, data)))
  {
    hide Padded, RoundUp, RoundUp32, Read32, NewHeader, NewTable, ReplaceTable, PutDtb, NewPage, Peek, DefaultTail,
         FrameBody, NewFrame;
    FrameSections(f, img);
    NewFrameIs(l, f, data);
    var v4, page := Read32(f.header, l.version) == 4, Read32(f.header, l.pageSize);
    var size := Read32(f.header, l.ramdiskSize);
    var h, o, p, q := NewHeader(l, f.header, v4, |data|), |f.header|, |f.ramdisk|, |f.dtb|;
    NewHeaderReads(l, f.header, v4, |data|);
    NewPageIs(l, u, img, o + size, h, data);
    PeekFront(u, img, o + size, h, data, l.ramdiskSize);
    DtbGoes(u, img, page, h + data, o, size, p - size, f.dtb, |data|);
    var rest := data + Zeros(RoundUp(|data|, page) - |data|) + f.dtb;
    var r := PutDtb(u, page, o, p, q, size, |data|);
    if r.Ok? {
      PeekFront(r.value, img, o + p + q, h, rest, l.version);
      if v4 {
        TableReplaced(l, r.value, img, f, h, rest, |data|);
      }
    }
    TailUnfold(l, img, u, page, o, p, q, size, |data|, v4);
  }

  lemma DefaultSectionsAre(l: Layout, img: seq<Byte>, data: seq<Byte>, f: Frame)
    requires LayoutOk(l) && FrameHolds(l, img, f) && |data| < U32
    requires Measurable(Read32(f.header, l.pageSize), img, FrameBody(NewFrame(l, f, data)))
    ensures Goes(DefaultSections(l, img, data), img, |FrameBody(f)|, FrameBody(NewFrame(l, f, data)))
  {
    hide Copy, Replace, Padded, RoundUp, RoundUp32, Read32, NewHeader, NewTable, CheckHeader, DefaultTail, StampHeader;
    FrameHeaderAccepted(l, img, f);
    FrameFields(l, img, f);
    RamdiskReplaced(l, img, f, data);
    var u1 := Copy(Fresh(img), |f.header|).value;
    var r := Replace(StampHeader(l, u1, |data|).value, Read32(f.header, l.ramdiskSize), data);
    if r.Ok? {
      TailReplaced(l, r.value, img, f, data);
    }
  }

  /** On every well-formed image of either version, replacing the whole ramdisk succeeds exactly when
      the new sections fit, and then yields them, zeros, and the old image's footer if there is one
      where it is looked for. */
  lemma ReplaceDefaultEdits(l: Layout, img: seq<Byte>, data: seq<Byte>, f: Frame)
    requires LayoutOk(l) && FrameHolds(l, img, f) && |data| < U32
    requires Measurable(Read32(f.header, l.pageSize), img, FrameBody(NewFrame(l, f, data)))
    ensures var b := FrameBody(NewFrame(l, f, data));
            ReplaceDefault(l, img, data) == if |b| <= |img| then Ok(WithFooter(l, img, Padded(b, |img|))) else Err
  {
    hide Padded, Read32, NewFrame, CopyFooter, WithFooter, DefaultSections;
    DefaultSectionsAre(l, img, data, f);
    var r := DefaultSections(l, img, data);
    if r.Ok? {
      FooterGoes(l, r.value, img, |FrameBody(f)|, FrameBody(NewFrame(l, f, data)));
    }
  }

  // ------------------------------------------------------------ consequences

  lemma NewHeaderReads(l: Layout, h: seq<Byte>, v4: bool, size: nat)
    requires LayoutOk(l) && |h| >= (if v4 then l.v4Size else l.v3Size) && size < U32
    ensures var n := NewHeader(l, h, v4, size);
            && (l.magic <= h ==> l.magic <= n)
            && Read32(n, l.ramdiskSize) == size
            && Read32(n, l.version) == Read32(h, l.version) && Read32(n, l.pageSize) == Read32(h, l.pageSize)
            && Read32(n, l.dtbSize) == Read32(h, l.dtbSize)
            && (v4 ==> && Read32(n, l.tableSize) == l.entrySize && Read32(n, l.entryNum) == 1
                       && Read32(n, l.entryLen) == l.entrySize
                       && Read32(n, l.bootconfigSize) == Read32(h, l.bootconfigSize))
  {
    hide Le32;
    var h1 := Write32(h, l.ramdiskSize, size);
    ReadOverwritten(h, l.ramdiskSize, size);
    ReadsBeside(l, h, l.ramdiskSize, size);
    if v4 {
      var h2 := Write32(h1, l.entryLen, l.entrySize);
      ReadOverwritten(h1, l.entryLen, l.entrySize);
      ReadsBeside(l, h1, l.entryLen, l.entrySize);
      var h3 := Write32(h2, l.entryNum, 1);
      ReadOverwritten(h2, l.entryNum, 1);
      ReadsBeside(l, h2, l.entryNum, 1);
      ReadOverwritten(h3, l.tableSize, l.entrySize);
      ReadsBeside(l, h3, l.tableSize, l.entrySize);
    }
  }

  lemma ReadsBeside(l: Layout, h: seq<Byte>, off: nat, v: nat)
    requires LayoutOk(l) && off + 4 <= |h|
    ensures forall k: nat :: k + 4 <= |h| && (k + 4 <= off || off + 4 <= k) ==>
              Read32(Write32(h, off, v), k) == Read32(h, k)
    ensures forall k :: 0 <= k < |h| && (k < off || off + 4 <= k) ==> Write32(h, off, v)[k] == h[k]
  {
    forall k: nat | k + 4 <= |h| && (k + 4 <= off || off + 4 <= k)
      ensures Read32(Write32(h, off, v), k) == Read32(h, k)
    {
      ReadBeside(h, off, Le32(v), k);
    }
  }

  /** The second of two header rewrites hides the first. */
  lemma NewHeaderTwice(l: Layout, h: seq<Byte>, v4: bool, a: nat, b: nat)
    requires LayoutOk(l) && |h| >= if v4 then l.v4Size else l.v3Size
    ensures NewHeader(l, NewHeader(l, h, v4, a), v4, b) == NewHeader(l, h, v4, b)
  {
    hide Le32;
    if v4 {
      var h1 := NewHeader(l, h, v4, a);
      var x, y := NewHeader(l, h1, v4, b), NewHeader(l, h, v4, b);
      forall k | 0 <= k < |h|
        ensures x[k] == y[k]
      {
        NewHeaderAt(l, h, a, k);
        NewHeaderAt(l, h1, b, k);
        NewHeaderAt(l, h, b, k);
      }
    } else {
      OverwriteTwice(h, l.ramdiskSize, Le32(a), Le32(b));
    }
  }

  function Within(k: int, off: nat): bool { off <= k < off + 4 }

  lemma NewHeaderAt(l: Layout, h: seq<Byte>, size: nat, k: nat)
    requires LayoutOk(l) && |h| >= l.v4Size && k < |h|
    ensures NewHeader(l, h, true, size)[k] ==
            if Within(k, l.tableSize) then Le32(l.entrySize)[k - l.tableSize]
            else if Within(k, l.entryNum) then Le32(1)[k - l.entryNum]
            else if Within(k, l.entryLen) then Le32(l.entrySize)[k - l.entryLen]
            else if Within(k, l.ramdiskSize) then Le32(size)[k - l.ramdiskSize]
            else h[k]
  {
    hide Le32, Overwrite;
    var h1 := Write32(h, l.ramdiskSize, size);
    var h2 := Write32(h1, l.entryLen, l.entrySize);
    var h3 := Write32(h2, l.entryNum, 1);
    OverwriteAt(h, l.ramdiskSize, Le32(size), k);
    OverwriteAt(h1, l.entryLen, Le32(l.entrySize), k);
    OverwriteAt(h2, l.entryNum, Le32(1), k);
    OverwriteAt(h3, l.tableSize, Le32(l.entrySize), k);
  }

  lemma NewFrameOk(l: Layout, f: Frame, data: seq<Byte>)
    requires LayoutOk(l) && FrameOk(l, f) && |data| < U32
    ensures FrameOk(l, NewFrame(l, f, data))
    ensures Read32(NewFrame(l, f, data).header, l.pageSize) == Read32(f.header, l.pageSize)
  {
    hide RoundUp, Read32, NewHeader, NewTable;
    NewHeaderReads(l, f.header, Read32(f.header, l.version) == 4, |data|);
  }

  lemma NewFrameTwice(l: Layout, f: Frame, a: seq<Byte>, b: seq<Byte>)
    requires LayoutOk(l) && FrameOk(l, f) && |a| < U32
    ensures FrameOk(l, NewFrame(l, f, a)) && NewFrame(l, NewFrame(l, f, a), b) == NewFrame(l, f, b)
  {
    hide RoundUp, Read32, NewHeader, NewTable;
    NewFrameOk(l, f, a);
    NewHeaderReads(l, f.header, Read32(f.header, l.version) == 4, |a|);
    NewHeaderTwice(l, f.header, Read32(f.header, l.version) == 4, |a|, |b|);
  }

  /** Last write wins for whole ramdisks too. */
  lemma LastDefaultWins(l: Layout, img: seq<Byte>, a: seq<Byte>, b: seq<Byte>, f: Frame)
    requires LayoutOk(l) && FrameHolds(l, img, f) && |a| < U32 && |b| < U32
    requires Measurable(Read32(f.header, l.pageSize), img, FrameBody(NewFrame(l, f, a)))
    requires Measurable(Read32(f.header, l.pageSize), img, FrameBody(NewFrame(l, f, b)))
    requires |FrameBody(NewFrame(l, f, a))| + l.footerSize <= |img|
    requires FooterQuiet(l, img) && FooterQuiet(l, Padded(FrameBody(NewFrame(l, f, a)), |img|))
    ensures ReplaceDefault(l, img, a).Ok?
    ensures ReplaceDefault(l, ReplaceDefault(l, img, a).value, b) == ReplaceDefault(l, img, b)
  {
    hide RoundUp, Read32, ReplaceDefault, Padded, WithFooter, NewFrame;
    ReplaceDefaultEdits(l, img, a, f);
    ReplaceDefaultEdits(l, img, b, f);
    var out, fa := ReplaceDefault(l, img, a).value, NewFrame(l, f, a);
    NewFrameOk(l, f, a);
    FooterOverTail(l, img, FrameBody(fa));
    NewFrameTwice(l, f, a, b);
    ReplaceDefaultEdits(l, out, b, fa);
    var bb := FrameBody(NewFrame(l, f, b));
    if |bb| <= |img| {
      SameFooterAgain(l, img, FrameBody(fa), Padded(bb, |img|));
    }
  }

  /** The sections of a version 4 image after its whole ramdisk was replaced. */
  function OneFragment(l: Layout, f: Frame, data: seq<Byte>): Parts
    requires LayoutOk(l) && FrameOk(l, f) && Read32(f.header, l.version) == 4
  {
    var f' := NewFrame(l, f, data);
    Parts(f'.header, [data], f'.ramdisk[|data|..], f'.dtb, [f'.table[..l.entrySize]], f'.table[l.entrySize..],
          f'.bootconfig)
  }

  lemma NewEntryReads(l: Layout, size: nat, n: nat)
    requires LayoutOk(l) && n >= l.entrySize && size < U32
    ensures var e := NewTable(l, size, n)[..l.entrySize];
            Read32(e, l.size) == size && Read32(e, l.offset) == 0
  {
    var z1 := Write32(Zeros(n), l.size, size);
    ReadOverwritten(Zeros(n), l.size, size);
    ReadBeside(Zeros(n), l.size, Le32(size), l.offset);
    ReadBeside(z1, l.kind, Le32(l.kindNone), l.size);
    ReadBeside(z1, l.kind, Le32(l.kindNone), l.offset);
  }

  lemma ConcatOne(s: seq<Byte>)
    ensures Concat([s]) == s
  {
    ConcatSnoc([], s);
    assert [] + [s] == [s];
  }

  /** A replaced version 4 image is a well-formed image with one fragment, the new ramdisk. */
  lemma DefaultIsOneFragment(l: Layout, f: Frame, data: seq<Byte>)
    requires LayoutOk(l) && FrameOk(l, f) && Read32(f.header, l.version) == 4 && |data| < U32
    ensures PartsOk(l, OneFragment(l, f, data)) && Body(OneFragment(l, f, data)) == FrameBody(NewFrame(l, f, data))
  {
    hide RoundUp, Read32, NewHeader, NewTable, Concat;
    var f', p := NewFrame(l, f, data), OneFragment(l, f, data);
    NewHeaderReads(l, f.header, true, |data|);
    NewEntryReads(l, |data|, |f'.table|);
    ConcatOne(data);
    ConcatOne(f'.table[..l.entrySize]);
    NothingBefore([data]);
    assert EntryOk(l, p, 0);
    assert f'.ramdisk == data + f'.ramdisk[|data|..];
    assert f'.table == f'.table[..l.entrySize] + f'.table[l.entrySize..];
  }

  // ------------------------------------------------------------ the footer, on any image

  datatype Edit = Whole(data: seq<Byte>) | Named(name: seq<Byte>, data: seq<Byte>)

  function Apply(l: Layout, img: seq<Byte>, e: Edit): Res<seq<Byte>>
    requires LayoutOk(l) && |e.data| < U32
  {
    if e.Whole? then ReplaceDefault(l, img, e.data) else ReplaceFragment(l, e.name, img, e.data)
  }

  function ApplyAll(l: Layout, img: seq<Byte>, es: seq<Edit>): Res<seq<Byte>>
    requires LayoutOk(l) && forall e <- es :: |e.data| < U32
  {
    if es == [] then Ok(img)
    else
      var img1 :- ApplyAll(l, img, es[..|es| - 1]);
      Apply(l, img1, es[|es| - 1])
  }

  lemma FooterCopied(l: Layout, u: Buf)
    requires LayoutOk(l) && |u.old_| == |u.new_| < U32 + l.footerSize && HasFooter(l, u.old_)
    ensures var r := CopyFooter(l, u);
            r.Ok? && |r.value.new_| == |u.old_| &&
            r.value.new_[|u.old_| - l.footerSize..] == u.old_[|u.old_| - l.footerSize..]
  {
    var at := |u.old_| - l.footerSize;
    assert u.old_[at..at + |l.footerMagic|] == u.old_[at..][..|l.footerMagic|];
    assert u.old_[at..|u.old_|] == u.old_[at..];
  }

  lemma ApplyKeepsFooter(l: Layout, img: seq<Byte>, e: Edit)
    requires LayoutOk(l) && |e.data| < U32 && HasFooter(l, img) && Apply(l, img, e).Ok? && |img| < U32 + l.footerSize
    ensures var out := Apply(l, img, e).value;
            |out| == |img| && out[|img| - l.footerSize..] == img[|img| - l.footerSize..]
  {
    hide Rebuild, DefaultSections, CopyFooter, FindUnique, GeometryOf, CheckHeader, Read32, EntryAt;
    if e.Whole? {
      FooterCopied(l, DefaultSections(l, img, e.data).value);
    } else {
      var g := GeometryOf(l, img, CheckHeader(l, img, 4).value);
      var idx := FindUnique(l, e.name, img, g.o + g.p + g.q, g.num, 0, None).value;
      FooterCopied(l, Rebuild(l, img, g, Read32(img, l.entryLen), idx, e.data).value);
    }
  }

  /** An existing footer survives every sequence of successful replacements, on any image that has it
      within reach of a 32-bit offset. */
  lemma {:induction false} FooterSurvives(l: Layout, img: seq<Byte>, es: seq<Edit>)
    requires LayoutOk(l) && (forall e <- es :: |e.data| < U32) && HasFooter(l, img) && ApplyAll(l, img, es).Ok?
    requires |img| < U32 + l.footerSize
    ensures var out := ApplyAll(l, img, es).value;
            |out| == |img| && out[|img| - l.footerSize..] == img[|img| - l.footerSize..]
    decreases |es|
  {
    hide Apply;
    if es != [] {
      FooterSurvives(l, img, es[..|es| - 1]);
      ApplyKeepsFooter(l, ApplyAll(l, img, es[..|es| - 1]).value, es[|es| - 1]);
    }
  }

  /** With sections that end before it, the footer survives exactly if its offset fits in 32 bits. */
  lemma DefaultFooterIff(l: Layout, img: seq<Byte>, data: seq<Byte>, f: Frame)
    requires LayoutOk(l) && FrameHolds(l, img, f) && |data| < U32
    requires Measurable(Read32(f.header, l.pageSize), img, FrameBody(NewFrame(l, f, data)))
    requires |FrameBody(NewFrame(l, f, data))| + l.footerSize <= |img| && HasFooter(l, img)
    ensures ReplaceDefault(l, img, data).Ok?
    ensures var out, at := ReplaceDefault(l, img, data).value, |img| - l.footerSize;
            |out| == |img| && (out[at..] == img[at..] <==> at < U32)
  {
    hide RoundUp, Read32, Padded, WithFooter, ReplaceDefault, HasFooter, NewFrame;
    ReplaceDefaultEdits(l, img, data, f);
    FooterKeptIff(l, img, FrameBody(NewFrame(l, f, data)));
  }

  /** The same on any image: where the new sections leave the footer's place empty, copying the footer
      fills it exactly if its offset fits in 32 bits. */
  lemma CopyFooterIff(l: Layout, u: Buf)
    requires LayoutOk(l) && |u.old_| == |u.new_| && HasFooter(l, u.old_)
    requires forall i :: |u.old_| - l.footerSize <= i < |u.old_| ==> u.new_[i] == 0
    ensures var r, at := CopyFooter(l, u), |u.old_| - l.footerSize;
            && r.Ok? && |r.value.new_| == |u.old_|
            && (r.value.new_[at..] == u.old_[at..] <==> at < U32)
  {
    var at := |u.old_| - l.footerSize;
    if at < U32 {
      FooterCopied(l, u);
    } else {
      var out := CopyFooter(l, u).value.new_;
      assert FooterPlace(l, |u.old_|) + l.footerSize <= at;
      assert out[at] == 0;
      assert out[at..][0] != u.old_[at..][0];
    }
  }

  /** Sections, zeros, and a footer from 4 GiB on. */
  function LargeImage(f: Frame, footer: seq<Byte>): (img: seq<Byte>)
    requires |FrameBody(f)| <= U32
    ensures |img| == U32 + |footer|
  {
    Padded(FrameBody(f), U32) + footer
  }

  /** At this size the seek goes to the start of the image, and the footer is lost. */
  lemma FooterLostAt4GiB(l: Layout, f: Frame, data: seq<Byte>, footer: seq<Byte>)
    requires LayoutOk(l) && FrameOk(l, f) && |data| < U32 && |footer| == l.footerSize && l.footerMagic <= footer
    requires var page := Read32(f.header, l.pageSize);
             && |FrameBody(f)| + page <= U32 && |FrameBody(NewFrame(l, f, data))| + page <= U32
             && l.entrySize + page <= U32
    ensures ReplaceDefault(l, LargeImage(f, footer), data).Ok?
    ensures var img := LargeImage(f, footer);
            FooterPlace(l, |img|) == 0 && ReplaceDefault(l, img, data).value[U32..] != img[U32..]
  {
    hide RoundUp, Read32, ReplaceDefault, NewFrame, FrameOk, FrameBody;
    var img := LargeImage(f, footer);
    assert img[U32..] == footer;
    assert FrameBody(f) <= img;
    DefaultFooterIff(l, img, data, f);
  }
}
