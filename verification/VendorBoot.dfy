/** The rewriting functions themselves: a buffer updated in place by two cursors, and loops over the
    fragment table. Each is shown to compute its pipeline in `VendorBootSpec`. */
module VendorBoot {
  import opened Bytes
  import opened ByteStrings
  import Spec = VendorBootSpec
  import opened VendorBootSpec

  function Status<T>(r: Res<T>): Res<()> {
    if r.Ok? then Ok(()) else r.PropagateFailure()
  }

  class DataUpdater {
    const image: seq<Byte>
    const data: array<Byte>
    var from: nat
    var to: nat

    ghost function View(): Buf
      reads this, data
    {
      Buf(image, data[..], from, to)
    }

    constructor (img: seq<Byte>)
      ensures View() == Fresh(img) && fresh(data)
    {
      image := img;
      data := new Byte[|img|](_ => 0);
      from, to := 0, 0;
      new;
      assert data[..] == Zeros(|img|);
    }

    /** Writes `bytes` into the new image. */
    method Write(off: nat, bytes: seq<Byte>)
      requires off + |bytes| <= data.Length
      modifies data
      ensures data[..] == Overwrite(old(data[..]), off, bytes)
    {
      forall i | 0 <= i < |bytes| { data[off + i] := bytes[i]; }
    }

    method Copy(n: nat) returns (r: Res<()>)
      modifies this, data
      ensures r == Status(Spec.Copy(old(View()), n))
      ensures r.Ok? ==> View() == Spec.Copy(old(View()), n).value
    {
      if n == 0 { return Ok(()); }
      if from + n > |image| || to + n > data.Length { return Err; }
      Write(to, image[from..from + n]);
      from, to := from + n, to + n;
      return Ok(());
    }

    method Replace(n: nat, bytes: seq<Byte>) returns (r: Res<()>)
      modifies this, data
      ensures r == Status(Spec.Replace(old(View()), n, bytes))
      ensures r.Ok? ==> View() == Spec.Replace(old(View()), n, bytes).value
    {
      if from + n > |image| { return Err; }
      from := from + n;
      if bytes == [] { return Ok(()); }
      if to + |bytes| > data.Length { return Err; }
      Write(to, bytes);
      to := to + |bytes|;
      return Ok(());
    }

    method Skip(a: nat, b: nat) returns (r: Res<()>)
      modifies this
      ensures r == Status(Spec.Skip(old(View()), a, b))
      ensures r.Ok? ==> View() == Spec.Skip(old(View()), a, b).value
    {
      if from + a > |image| { return Err; }
      from := from + a;
      if to + b > data.Length { return Err; }
      to := to + b;
      return Ok(());
    }

    method Seek(off: nat) returns (r: Res<()>)
      modifies this
      ensures r == Status(Spec.Seek(old(View()), off))
      ensures r.Ok? ==> View() == Spec.Seek(old(View()), off).value
    {
      if off > |image| { return Err; }
      from, to := off, off;
      return Ok(());
    }

    method CheckOffset(a: nat, b: nat) returns (r: Res<()>)
      ensures r == Status(Spec.CheckOffset(View(), a, b))
      ensures r.Ok? ==> Spec.CheckOffset(View(), a, b) == Ok(View())
    {
      if from != a || to != b { return Err; }
      return Ok(());
    }

    /** A store through a struct pointer into the new image. */
    method Store(off: nat, bytes: seq<Byte>) returns (r: Res<()>)
      modifies data
      ensures r == Status(Spec.Poke(old(View()), off, bytes))
      ensures r.Ok? ==> View() == Spec.Poke(old(View()), off, bytes).value
    {
      if off + |bytes| > data.Length { return Stray; }
      Write(off, bytes);
      return Ok(());
    }

    method Load(off: nat) returns (r: Res<nat>)
      ensures r == Peek(data[..], off)
    {
      if off + 4 > data.Length { return Stray; }
      return Ok(Read32(data[..], off));
    }

    /** The page size as the new image's header has it. */
    method LoadPage(l: Layout) returns (r: Res<nat>)
      ensures r == NewPage(l, View())
    {
      var page :- Load(l.pageSize);
      return if page == 0 then Stray else Ok(page);
    }

    method CopyFooter(l: Layout) returns (r: Res<()>)
      requires LayoutOk(l) && data.Length == |image|
      modifies this, data
      ensures r == Status(Spec.CopyFooter(l, old(View())))
      ensures r.Ok? ==> View() == Spec.CopyFooter(l, old(View())).value
    {
      if |image| < l.footerSize { return Ok(()); }
      var _ := Seek(FooterPlace(l, |image|));  // within the image, so it cannot fail
      if image[from..from + |l.footerMagic|] != l.footerMagic { return Ok(()); }
      r := Copy(l.footerSize);
    }
  }

  /** The only entry with the name. */
  method FindUniqueRamdisk(l: Layout, name: seq<Byte>, img: seq<Byte>, table: nat, num: nat) returns (r: Res<nat>)
    ensures r == FindUnique(l, name, img, table, num, 0, None)
  {
    var found: Option<nat> := None;
    for i := 0 to num
      invariant FindUnique(l, name, img, table, num, i, found) == FindUnique(l, name, img, table, num, 0, None)
    {
      var entryName :- NameAt(l, img, table + EntryAt(l, i));
      if entryName == name {
        if found.Some? { return Err; }
        found := Some(i);
      }
    }
    return if found.Some? then Ok(found.value) else Err;
  }

  /** Copies the fragments, with `data` in place of number `idx`; returns the new ramdisk size. */
  method CopyRamdisk(l: Layout, u: DataUpdater, table: nat, num: nat, idx: nat, data: seq<Byte>) returns (r: Res<nat>)
    modifies u, u.data
    ensures var s := CopyFragments(l, old(u.View()), table, 0, num, idx, data, 0);
            && Status(r) == Status(s) && (r.Ok? ==> s.value == (u.View(), r.value))
  {
    hide Copy, Replace, Peek, EntryAt;
    var total: nat := 0;
    for i := 0 to num
      invariant CopyFragments(l, u.View(), table, i, num, idx, data, total)
                == CopyFragments(l, old(u.View()), table, 0, num, idx, data, 0)
    {
      var size :- Peek(u.image, table + EntryAt(l, i) + l.size);
      if i == idx {
        var _ :- u.Replace(size, data);
        total := (total + |data|) % U32;
      } else {
        var _ :- u.Copy(size);
        total := (total + size) % U32;
      }
    }
    return Ok(total);
  }

  /** Copies one table entry with its offset and, for the replaced one, its size rewritten. */
  method CopyEntry(l: Layout, u: DataUpdater, entryLen: nat, offset: nat, size: Option<nat>) returns (r: Res<nat>)
    modifies u, u.data
    ensures var s := PutEntry(l, old(u.View()), entryLen, offset, size);
            && Status(r) == Status(s) && (r.Ok? ==> s.value == (u.View(), r.value))
  {
    hide Copy, Poke, Peek, Overwrite, Le32;
    var entry := u.to;
    var _ :- u.Copy(entryLen);
    var _ :- u.Store(entry + l.offset, Le32(offset));
    if size.Some? {
      var _ :- u.Store(entry + l.size, Le32(size.value));
    }
    r := u.Load(entry + l.size);
  }

  method CopyRamdiskTable(l: Layout, u: DataUpdater, num: nat, idx: nat, entryLen: nat, size: nat) returns (r: Res<()>)
    modifies u, u.data
    ensures var s := CopyTable(l, old(u.View()), 0, num, idx, entryLen, size, 0);
            && r == Status(s) && (r.Ok? ==> u.View() == s.value)
  {
    hide PutEntry;
    var total: nat := 0;
    for i := 0 to num
      invariant CopyTable(l, u.View(), i, num, idx, entryLen, size, total)
                == CopyTable(l, old(u.View()), 0, num, idx, entryLen, size, 0)
    {
      var added :- CopyEntry(l, u, entryLen, total, if i == idx then Some(size) else None);
      total := (total + added) % U32;
    }
    return Ok(());
  }

  /** Ramdisk padding and device tree. */
  method CopyDtb(u: DataUpdater, page: nat, o: nat, p: nat, q: nat, size: nat, total: nat) returns (r: Res<()>)
    requires page > 0
    modifies u, u.data
    ensures var s := PutDtb(old(u.View()), page, o, p, q, size, total);
            && r == Status(s) && (r.Ok? ==> u.View() == s.value)
  {
    hide Copy, Skip, CheckOffset, RoundUp32;
    var newP := RoundUp32(total, page);
    var _ :- u.Skip((p - size) % U32, (newP - total) % U32);
    var _ :- u.CheckOffset((o + p) % U32, (o + newP) % U32);
    r := u.Copy(q);
  }

  /** Writes the new sections with fragment `idx` replaced. */
  method Reconstruct(l: Layout, u: DataUpdater, g: Geometry, entryLen: nat, idx: nat, data: seq<Byte>)
    returns (res: Res<()>)
    requires g.page > 0 && u.View() == Fresh(u.image)
    modifies u, u.data
    ensures var s := Rebuild(l, u.image, g, entryLen, idx, data);
            && res == Status(s) && (res.Ok? ==> u.View() == s.value)
  {
    hide Copy, Poke, CopyFragments, CopyTable, PutDtb, RoundUp32, Overwrite, Le32, CheckOffset, NewPage;
    var _ :- u.Copy(g.o);
    var total :- CopyRamdisk(l, u, g.o + g.p + g.q, g.num, idx, data);
    var _ :- u.Store(l.ramdiskSize, Le32(total));
    var page :- u.LoadPage(l);
    var _ :- CopyDtb(u, page, g.o, g.p, g.q, g.size, total);
    var newP := RoundUp32(total, page);
    var _ :- CopyRamdiskTable(l, u, g.num, idx, entryLen, |data|);
    var _ :- u.Copy((g.r - g.num * entryLen) % U32);
    var _ :- u.CheckOffset((g.o + g.p + g.q + g.r) % U32, (g.o + newP + g.q + g.r) % U32);
    res := u.Copy(g.s);
  }

  /** Replaces the fragment with the given name. */
  method ReplaceVendorRamdiskFragment(l: Layout, name: seq<Byte>, img: seq<Byte>, data: seq<Byte>)
    returns (res: Res<seq<Byte>>)
    requires LayoutOk(l) && |data| < U32
    ensures res == ReplaceFragment(l, name, img, data)
  {
    hide Rebuild, CopyFooter, RoundUp32, Read32, CheckHeader, FindUnique, EntryAt;
    var hdrSize :- CheckHeader(l, img, 4);
    var g := GeometryOf(l, img, hdrSize);
    if g.o + g.p + g.q + g.r + g.s > |img| || EntryAt(l, g.num) > g.o + g.p + g.q + g.r { return Err; }
    var idx :- FindUniqueRamdisk(l, name, img, g.o + g.p + g.q, g.num);
    var u := new DataUpdater(img);
    var _ :- Reconstruct(l, u, g, Read32(img, l.entryLen), idx, data);
    var _ :- u.CopyFooter(l);
    return Ok(u.data[..]);
  }

  /** Rewrites the table as one entry for the whole ramdisk and copies the bootconfig. */
  method CopyBootconfig(l: Layout, u: DataUpdater, page: nat, oldAt: nat, newAt: nat) returns (res: Res<()>)
    requires page > 0
    modifies u, u.data
    ensures var s := ReplaceTable(l, u.image, old(u.View()), page, oldAt, newAt);
            && res == Status(s) && (res.Ok? ==> u.View() == s.value)
  {
    hide Copy, Skip, CheckOffset, Poke, Peek, RoundUp32, Le32, Overwrite, NewPage;
    var tableSize :- Peek(u.image, l.tableSize);
    var bootconfigSize :- Peek(u.image, l.bootconfigSize);
    var newTableSize :- u.Load(l.tableSize);
    var newPage :- u.LoadPage(l);
    var r, s, newR := RoundUp32(tableSize, page), RoundUp32(bootconfigSize, page), RoundUp32(newTableSize, newPage);
    var entry := u.to;
    var _ :- u.Skip(r, newR);
    var _ :- u.CheckOffset((oldAt + r) % U32, (newAt + newR) % U32);
    var size :- u.Load(l.ramdiskSize);
    var _ :- u.Store(entry + l.size, Le32(size));
    var _ :- u.Store(entry + l.offset, Le32(0));
    var _ :- u.Store(entry + l.kind, Le32(l.kindNone));
    var _ :- u.Store(entry + l.name, Zeros(l.nameSize));
    var _ :- u.Store(entry + l.board, Zeros(l.boardSize));
    res := u.Copy(s);
  }

  /** Stores the new sizes in the new header. */
  method UpdateHeader(l: Layout, u: DataUpdater, size: nat) returns (res: Res<()>)
    modifies u.data
    ensures var s := StampHeader(l, old(u.View()), size);
            && res == Status(s) && (res.Ok? ==> u.View() == s.value)
  {
    hide Poke, Peek, Le32, Overwrite;
    var _ :- u.Store(l.ramdiskSize, Le32(size));
    var version :- u.Load(l.version);
    if version < 4 { return Ok(()); }
    var _ :- u.Store(l.entryLen, Le32(l.entrySize));
    var _ :- u.Store(l.entryNum, Le32(1));
    res := u.Store(l.tableSize, Le32(l.entrySize));
  }

  /** What follows the ramdisk. */
  method CopyTail(l: Layout, u: DataUpdater, page: nat, o: nat, p: nat, q: nat, size: nat) returns (res: Res<()>)
    requires page > 0
    modifies u, u.data
    ensures var s := DefaultTail(l, u.image, old(u.View()), page, o, p, q, size);
            && res == Status(s) && (res.Ok? ==> u.View() == s.value)
  {
    hide PutDtb, Peek, RoundUp32, NewPage, ReplaceTable;
    var newPage :- u.LoadPage(l);
    var newSize :- u.Load(l.ramdiskSize);
    var _ :- CopyDtb(u, newPage, o, p, q, size, newSize);
    var version :- u.Load(l.version);
    if version < 4 { return Ok(()); }
    res := CopyBootconfig(l, u, page, o + p + q, o + RoundUp32(newSize, newPage) + q);
  }

  /** Replaces the whole vendor ramdisk. */
  method ReplaceDefaultVendorRamdisk(l: Layout, img: seq<Byte>, data: seq<Byte>) returns (res: Res<seq<Byte>>)
    requires LayoutOk(l) && |data| < U32
    ensures res == ReplaceDefault(l, img, data)
  {
    hide Copy, Replace, StampHeader, DefaultTail, CopyFooter, RoundUp32, Read32, CheckHeader;
    var hdrSize :- CheckHeader(l, img, 3);
    var page, size := Read32(img, l.pageSize), Read32(img, l.ramdiskSize);
    var o, p, q := RoundUp32(hdrSize, page), RoundUp32(size, page), RoundUp32(Read32(img, l.dtbSize), page);
    var u := new DataUpdater(img);
    var _ :- u.Copy(o);
    var _ :- UpdateHeader(l, u, |data|);
    var _ :- u.Replace(size, data);
    var _ :- CopyTail(l, u, page, o, p, q, size);
    var _ :- u.CopyFooter(l);
    return Ok(u.data[..]);
  }

  /** The name that stands for the whole ramdisk. */
  const DEFAULT_NAME: seq<Byte> := [100, 101, 102, 97, 117, 108, 116]

  /** What replacing by name computes; a ramdisk that 32 bits cannot measure is refused. */
  function Replaced(l: Layout, name: seq<Byte>, img: seq<Byte>, data: seq<Byte>): Res<seq<Byte>>
    requires LayoutOk(l)
  {
    if |data| >= U32 then Err
    else if name == DEFAULT_NAME then ReplaceDefault(l, img, data)
    else ReplaceFragment(l, name, img, data)
  }

  method ReplaceVendorRamdisk(l: Layout, name: seq<Byte>, img: seq<Byte>, data: seq<Byte>) returns (res: Res<seq<Byte>>)
    requires LayoutOk(l)
    ensures res == Replaced(l, name, img, data)
  {
    if |data| >= U32 { return Err; }
    if name == DEFAULT_NAME {
      res := ReplaceDefaultVendorRamdisk(l, img, data);
    } else {
      res := ReplaceVendorRamdiskFragment(l, name, img, data);
    }
  }
}
