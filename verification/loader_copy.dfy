/**
 The memory half of mdl_load() (mdl/core/loader.c) and arch_apply_relocs()
 (mdl/arch/arm_cm4/reloc_arm.c): an image becomes a running module's text and data, and the
 packer's offsets become addresses again.
 */
module LoaderCopy {
  import opened Bytes
  import opened Crc32
  import opened ImageFormat
  import opened Packer

  /** The GOT after the first `k` relocations. */
  function Rebased(got: seq<Byte>, entries: seq<Reloc>, k: nat, textLo: nat, dataLo: nat): (g: seq<Byte>)
    requires k <= |entries| && forall e <- entries :: e.offset + 4 <= |got|
    ensures |g| == |got|
  {
    if k == 0 then got
    else
      var g := Rebased(got, entries, k - 1, textLo, dataLo);
      Put32(g, entries[k - 1].offset, (Get32(g, entries[k - 1].offset) + Base(entries[k - 1].kind, textLo, dataLo)) % WORD_LIMIT)
  }

  function Base(kind: RelocKind, textLo: nat, dataLo: nat): nat {
    if kind.TextBase? then textLo else dataLo
  }

  function Zeros(n: nat): seq<Byte> {
    seq(n, _ => 0)
  }

  ghost predicate InBounds(image: Image) {
    image.Laid() && forall e <- image.Relocs() :: e.offset + 4 <= image.GotBytes()
  }

  /** The module's data region once loaded: GOT, data, zeroed bss. On disk the GOT comes last. */
  function Region(image: Image, textLo: nat, dataLo: nat): (s: seq<Byte>)
    requires InBounds(image)
    ensures |s| == image.DataNeeded()
  {
    Rebased(image.Got(), image.Relocs(), image.relocCount, textLo, dataLo) + image.Data() + Zeros(image.bssSize)
  }

  // ---- the device ------------------------------------------------------

  /** memcpy() */
  method Copy(ram: array<Byte>, at: nat, src: seq<Byte>)
    requires at + |src| <= ram.Length
    modifies ram
    ensures forall k :: 0 <= k < |src| ==> ram[at + k] == src[k]
    ensures ram[at..at + |src|] == src
    ensures forall a :: 0 <= a < ram.Length && !(at <= a < at + |src|) ==> ram[a] == old(ram[a])
  {
    for i := 0 to |src|
      invariant forall k :: 0 <= k < i ==> ram[at + k] == src[k]
      invariant forall a :: 0 <= a < ram.Length && !(at <= a < at + i) ==> ram[a] == old(ram[a])
    {
      ram[at + i] := src[i];
    }
  }

  /** *slot += base */
  method AddBase(ram: array<Byte>, at: nat, base: nat)
    requires at + 4 <= ram.Length
    modifies ram
    ensures ram[at..at + 4] == Le32((Get32(old(ram[..]), at) + base) % WORD_LIMIT)
    ensures forall a :: 0 <= a < ram.Length && !(at <= a < at + 4) ==> ram[a] == old(ram[a])
  {
    hide Le32, FromLe32;
    assert ram[..][at..at + 4] == ram[at..at + 4];
    var word := FromLe32(ram[at..at + 4]);
    Copy(ram, at, Le32((word + base) % WORD_LIMIT));
  }

  /** arch_apply_relocs() */
  method ApplyRelocs(ram: array<Byte>, textLo: nat, dataLo: nat, gotBytes: nat, table: seq<Byte>, n: nat, ghost entries: seq<Reloc>)
    requires dataLo + gotBytes <= ram.Length && |table| == RELOC_SIZE * n
    requires |entries| == n && forall i :: 0 <= i < n ==> entries[i] == ReadReloc(table, i) && entries[i].offset + 4 <= gotBytes
    modifies ram
    ensures ram[dataLo..dataLo + gotBytes] == Rebased(old(ram[dataLo..dataLo + gotBytes]), entries, n, textLo, dataLo)
    ensures forall a :: 0 <= a < ram.Length && !(dataLo <= a < dataLo + gotBytes) ==> ram[a] == old(ram[a])
  {
    hide Get32, Put32, ReadReloc, Le32;
    ghost var got := ram[dataLo..dataLo + gotBytes];
    for i := 0 to n
      invariant ram[dataLo..dataLo + gotBytes] == Rebased(got, entries, i, textLo, dataLo)
      invariant forall a :: 0 <= a < ram.Length && !(dataLo <= a < dataLo + gotBytes) ==> ram[a] == old(ram[a])
    {
      var entry := ReadReloc(table, i);
      ghost var before := ram[..];
      AddBase(ram, dataLo + entry.offset, Base(entry.kind, textLo, dataLo));
      SlotRewritten(before, ram[..], dataLo, gotBytes, entry.offset, Base(entry.kind, textLo, dataLo));
    }
  }

  lemma SliceOfSlice(s: seq<Byte>, lo: nat, len: nat, off: nat, n: nat)
    requires lo + len <= |s| && off + n <= len
    ensures s[lo..lo + len][off..off + n] == s[lo + off..lo + off + n]
  {
    var whole := s[lo..lo + len];
    var x, y := whole[off..off + n], s[lo + off..lo + off + n];
    forall k | 0 <= k < n
      ensures x[k] == y[k]
    {
      assert whole[off + k] == s[lo + off + k];
    }
    assert x == y;
  }

  lemma FirstPartReplaced(region: seq<Byte>, g: seq<Byte>, g': seq<Byte>, d: seq<Byte>, z: seq<Byte>)
    requires region == g + d + z && |g| == |g'|
    ensures region[..|g|] == g && g' + region[|g|..] == g' + d + z
  {
  }

  lemma SlotRewritten(before: seq<Byte>, after: seq<Byte>, lo: nat, len: nat, off: nat, base: nat)
    requires lo + len <= |before| == |after| && off + 4 <= len
    requires after[lo + off..lo + off + 4] == Le32((Get32(before, lo + off) + base) % WORD_LIMIT)
    requires forall a :: 0 <= a < |before| && !(lo + off <= a < lo + off + 4) ==> after[a] == before[a]
    ensures var g := before[lo..lo + len];
            after[lo..lo + len] == Put32(g, off, (Get32(g, off) + base) % WORD_LIMIT)
  {
    hide Le32, FromLe32;
    var g := before[lo..lo + len];
    SliceOfSlice(before, lo, len, off, 4);
    var v := (Get32(g, off) + base) % WORD_LIMIT;
    assert after[lo..lo + len] == before[lo..lo + len][..off] + after[lo + off..lo + off + 4] + before[lo..lo + len][off + 4..];
  }

  /**
   mdl_load() once the bounds are set: two regions are written, nothing else is. Text and
   data lie in different arena blocks.
   */
  method LoadImage(ram: array<Byte>, textLo: nat, dataLo: nat, image: Image)
    requires InBounds(image)
    requires textLo + image.textSize <= ram.Length && dataLo + image.DataNeeded() <= ram.Length
    requires textLo + image.textSize <= dataLo || dataLo + image.DataNeeded() <= textLo
    modifies ram
    ensures ram[textLo..textLo + image.textSize] == image.Text()
    ensures ram[dataLo..dataLo + image.DataNeeded()] == Region(image, textLo, dataLo)
    ensures forall a :: 0 <= a < ram.Length && !(textLo <= a < textLo + image.textSize) && !(dataLo <= a < dataLo + image.DataNeeded()) ==>
              ram[a] == old(ram[a])
  {
    hide Region;
    Copy(ram, textLo, image.Text());
    FillData(ram, dataLo, image);
    Relocate(ram, textLo, dataLo, image);
  }

  /** The call of arch_apply_relocs(), with what it leaves of the data block. */
  method Relocate(ram: array<Byte>, textLo: nat, dataLo: nat, image: Image)
    requires InBounds(image) && dataLo + image.DataNeeded() <= ram.Length
    requires ram[dataLo..dataLo + image.DataNeeded()] == image.Got() + image.Data() + Zeros(image.bssSize)
    modifies ram
    ensures ram[dataLo..dataLo + image.DataNeeded()] == Region(image, textLo, dataLo)
    ensures forall a :: 0 <= a < ram.Length && !(dataLo <= a < dataLo + image.DataNeeded()) ==> ram[a] == old(ram[a])
  {
    hide ReadReloc, Rebased, Region, InBounds;
    ghost var before := ram[..];
    ghost var region := ram[dataLo..dataLo + image.DataNeeded()];
    var gotBytes := image.GotBytes();
    Entries(image);
    ApplyRelocs(ram, textLo, dataLo, gotBytes, image.Table(), image.relocCount, image.Relocs());
    FrontRewritten(before, ram[..], dataLo, image.DataNeeded(), gotBytes);
    RegionRebased(image, region[..gotBytes], region, ram[dataLo..dataLo + gotBytes], textLo, dataLo);
  }

  lemma Entries(image: Image)
    requires InBounds(image)
    ensures image.Laid() && |image.Table()| == RELOC_SIZE * image.relocCount && |image.Relocs()| == image.relocCount
    ensures forall i :: 0 <= i < image.relocCount ==>
              image.Relocs()[i] == ReadReloc(image.Table(), i) && image.Relocs()[i].offset + 4 <= image.GotBytes()
  {
    hide ReadReloc;
    assert forall i :: 0 <= i < image.relocCount ==> image.Relocs()[i] in image.Relocs();
  }

  /** Memory rewritten within the first `n` bytes of a region. */
  lemma FrontRewritten(before: seq<Byte>, after: seq<Byte>, lo: nat, len: nat, n: nat)
    requires lo + len <= |before| == |after| && n <= len
    requires forall a :: 0 <= a < |before| && !(lo <= a < lo + n) ==> after[a] == before[a]
    ensures before[lo..lo + len][..n] == before[lo..lo + n]
    ensures after[lo..lo + len] == after[lo..lo + n] + before[lo..lo + len][n..]
  {
  }

  /** The data block after relocation, put together from its rewritten front and its untouched rest. */
  lemma RegionRebased(image: Image, got: seq<Byte>, region: seq<Byte>, rebased: seq<Byte>, textLo: nat, dataLo: nat)
    requires InBounds(image) && region == image.Got() + image.Data() + Zeros(image.bssSize)
    requires got == region[..image.GotBytes()] && rebased == Rebased(got, image.Relocs(), image.relocCount, textLo, dataLo)
    ensures rebased + region[image.GotBytes()..] == Region(image, textLo, dataLo)
  {
    hide ReadReloc, Rebased;
    assert got == image.Got();
    FirstPartReplaced(region, image.Got(), rebased, image.Data(), Zeros(image.bssSize));
  }

  /** The three copies into the data block; the GOT moves from last to first. */
  method FillData(ram: array<Byte>, dataLo: nat, image: Image)
    requires image.Laid() && dataLo + image.DataNeeded() <= ram.Length
    modifies ram
    ensures ram[dataLo..dataLo + image.DataNeeded()] == image.Got() + image.Data() + Zeros(image.bssSize)
    ensures forall a :: 0 <= a < ram.Length && !(dataLo <= a < dataLo + image.DataNeeded()) ==> ram[a] == old(ram[a])
  {
    hide ReadReloc;
    var gotDst := dataLo;
    var dataDst := gotDst + image.GotBytes();
    var bssDst := dataDst + image.dataSize;
    Copy(ram, dataDst, image.Data());
    Copy(ram, bssDst, Zeros(image.bssSize));
    Copy(ram, gotDst, image.Got());
    ghost var all := image.Got() + image.Data() + Zeros(image.bssSize);
    forall k | 0 <= k < image.DataNeeded()
      ensures ram[dataLo + k] == all[k]
    {
    }
  }

  /** got_offset + 4u > got_bytes, as the device computes it. */
  predicate SlotInside(table: seq<Byte>, i: nat, gotBytes: nat)
    requires RELOC_SIZE * (i + 1) <= |table|
  {
    (ReadReloc(table, i).offset + 4) % WORD_LIMIT <= gotBytes % WORD_LIMIT
  }

  ghost predicate AllInside(table: seq<Byte>, n: nat, gotBytes: nat)
    requires RELOC_SIZE * n <= |table|
  {
    forall i :: 0 <= i < n ==> SlotInside(table, i, gotBytes)
  }

  /** mdl_crc32(payload) == hdr->crc32 */
  method CrcMatches(image: Image) returns (ok: bool)
    ensures ok <==> Value(image.payload) == image.crc
  {
    hide Crc, Number;
    var crc := MdlCrc32(image.payload);
    ok := Number(crc) == image.crc;
  }

  /** The loop of mdl_load_validate() over the relocation table. */
  method RelocsInside(image: Image) returns (ok: bool)
    requires image.Laid()
    ensures ok <==> AllInside(image.Table(), image.relocCount, image.GotBytes())
  {
    hide ReadReloc;
    for i := 0 to image.relocCount
      invariant forall j :: 0 <= j < i ==> SlotInside(image.Table(), j, image.GotBytes())
    {
      if !SlotInside(image.Table(), i, image.GotBytes()) {
        return false;
      }
    }
    ok := true;
  }

  /** No size or offset of the image comes near 2^32. */
  ghost predicate Modest(image: Image) {
    && image.Laid() && image.textSize < WORD_LIMIT && image.DataNeeded() < WORD_LIMIT
    && image.resOff + 4 * image.resCount < WORD_LIMIT
    && forall e <- image.Relocs() :: e.offset + 4 < WORD_LIMIT
  }

  /** Then the loader's test of a relocation means what it says. */
  lemma InsideIsInBounds(image: Image)
    requires Modest(image)
    ensures AllInside(image.Table(), image.relocCount, image.GotBytes()) <==> InBounds(image)
  {
    hide ReadReloc;
    if AllInside(image.Table(), image.relocCount, image.GotBytes()) {
      forall e <- image.Relocs()
        ensures e.offset + 4 <= image.GotBytes()
      {
        var i :| 0 <= i < image.relocCount && image.Relocs()[i] == e;
        assert SlotInside(image.Table(), i, image.GotBytes());
      }
    }
    if InBounds(image) {
      BoundedIsInside(image);
    }
  }

  // ---- packer and loader together --------------------------------------

  /** An image the packer made of `l`. */
  ghost predicate Packed(image: Image, l: Linked) {
    && OncePerSlot(l) && |l.got.bytes| < WORD_LIMIT && |l.res| % 4 == 0
    && Rewrite(l, |l.rels|).Rewriting?
    && (forall e <- Rewrite(l, |l.rels|).entries :: e.offset < WORD_LIMIT)
    && Describes(image, l, Rewrite(l, |l.rels|).got, Rewrite(l, |l.rels|).entries)
  }

  lemma FiveParts(s: seq<Byte>, a: seq<Byte>, b: seq<Byte>, c: seq<Byte>, d: seq<Byte>, e: seq<Byte>)
    requires s == a + b + c + d + e
    ensures |s| == |a| + |b| + |c| + |d| + |e|
    ensures s[..|a|] == a && s[|a|..|a| + |b|] == b
    ensures s[|a| + |b|..|a| + |b| + |c|] == c && s[|a| + |b| + |c|..|a| + |b| + |c| + |d|] == d
  {
  }

  /** What the loader finds in it. */
  lemma PackedParts(image: Image, l: Linked)
    requires Packed(image, l)
    ensures image.Laid() && image.ResInside() && image.GotBytes() == |l.got.bytes| && image.crc == Value(image.payload)
    ensures image.Text() == l.text.bytes && image.Data() == l.data.bytes && image.bssSize == l.bssSize
    ensures image.Got() == Rewrite(l, |l.rels|).got && image.Relocs() == Rewrite(l, |l.rels|).entries
  {
    hide ReadReloc, TableBytes, Rewrite, Value;
    var w := Rewrite(l, |l.rels|);
    FiveParts(image.payload, l.text.bytes, l.data.bytes, w.got, TableBytes(w.entries), l.res);
    assert image.Table() == TableBytes(w.entries);
    forall i | 0 <= i < |w.entries|
      ensures image.Relocs()[i] == w.entries[i]
    {
      TableReadBack(w.entries, i);
    }
  }

  /** Whatever the packer accepts the loader's structural checks accept, and read in bounds. */
  lemma PackedIsLoadable(image: Image, l: Linked)
    requires Packed(image, l)
    ensures InBounds(image) && image.ResInside() && image.crc == Value(image.payload)
    ensures AllInside(image.Table(), image.relocCount, image.GotBytes())
    ensures |image.payload| < WORD_LIMIT && image.DataNeeded() < WORD_LIMIT ==> Modest(image)
  {
    hide ReadReloc, TableBytes, Value, AllInside, OncePerSlot, Rewrite, Describes;
    PackedParts(image, l);
    forall e <- image.Relocs()
      ensures e.offset + 4 <= image.GotBytes()
    {
      var i :| 0 <= i < |l.rels| && image.Relocs()[i] == e;
      RewrittenInGot(l, |l.rels|, i);
    }
    BoundedIsInside(image);
  }

  lemma BoundedIsInside(image: Image)
    requires InBounds(image) && image.GotBytes() < WORD_LIMIT
    ensures AllInside(image.Table(), image.relocCount, image.GotBytes())
  {
    hide ReadReloc;
    forall i | 0 <= i < image.relocCount
      ensures SlotInside(image.Table(), i, image.GotBytes())
    {
      var e := image.Relocs()[i];
      assert e in image.Relocs() && e == ReadReloc(image.Table(), i);
    }
  }

  /** Adding bases touches each slot once. */
  lemma {:induction false} RebasedSlots(got: seq<Byte>, entries: seq<Reloc>, k: nat, textLo: nat, dataLo: nat, i: nat)
    requires k <= |entries| && i < |entries| && forall e <- entries :: e.offset + 4 <= |got|
    requires forall j :: 0 <= j < |entries| && j != i ==>
               entries[i].offset + 4 <= entries[j].offset || entries[j].offset + 4 <= entries[i].offset
    ensures Get32(Rebased(got, entries, k, textLo, dataLo), entries[i].offset) ==
              if i < k then (Get32(got, entries[i].offset) + Base(entries[i].kind, textLo, dataLo)) % WORD_LIMIT
              else Get32(got, entries[i].offset)
  {
    hide Get32, Put32;
    if k > 0 {
      RebasedSlots(got, entries, k - 1, textLo, dataLo, i);
      var g, e := Rebased(got, entries, k - 1, textLo, dataLo), entries[k - 1];
      PutThenGet(g, e.offset, (Get32(g, e.offset) + Base(e.kind, textLo, dataLo)) % WORD_LIMIT, entries[i].offset);
    }
  }

  lemma FrontWord(front: seq<Byte>, rest: seq<Byte>, at: nat)
    requires at + 4 <= |front|
    ensures Get32(front + rest, at) == Get32(front, at)
  {
    hide FromLe32;
    assert (front + rest)[at..at + 4] == front[at..at + 4];
  }

  /**
   Relocation preserves meaning: if the linker's value in a GOT slot is the address of some
   place in text, data or bss, the loaded slot is the address that place has now.
   */
  lemma SlotMeansTheSame(image: Image, l: Linked, i: nat, o: Object, textLo: nat, dataLo: nat)
    requires Packed(image, l) && SectionsApart(l) && InBounds(image)
    requires i < |l.rels| && 0 <= Slot(l, i) && Slot(l, i) + 4 <= |l.got.bytes| && Names(l, LinkValue(l, i), o)
    requires textLo + image.textSize <= WORD_LIMIT && dataLo + image.DataNeeded() <= WORD_LIMIT
    ensures Get32(Region(image, textLo, dataLo), Slot(l, i)) == Runtime(l, o, textLo, dataLo)
  {
    hide Get32, Rewrite, Rebased, Classify, OncePerSlot, Describes, SectionsApart, ReadReloc, Value;
    PackedParts(image, l);
    var n, w, c := |l.rels|, Rewrite(l, |l.rels|), Classify(l, LinkValue(l, i));
    RewriteSlots(l, n, i);
    ClassifyIsRuntime(l, LinkValue(l, i), o, textLo, dataLo);
    EntriesApart(l, i);
    RebasedSlots(w.got, w.entries, n, textLo, dataLo, i);
    var rebased := Rebased(w.got, w.entries, n, textLo, dataLo);
    NoWrap(c.offset, Base(c.kind, textLo, dataLo));
    FrontWord(rebased, image.Data() + Zeros(image.bssSize), Slot(l, i));
    assert Region(image, textLo, dataLo) == rebased + (image.Data() + Zeros(image.bssSize));
  }

  lemma NoWrap(x: nat, base: nat)
    ensures x + base < WORD_LIMIT ==> (x % WORD_LIMIT + base) % WORD_LIMIT == x + base
  {
  }

  lemma EntriesApart(l: Linked, i: nat)
    requires OncePerSlot(l) && Rewrite(l, |l.rels|).Rewriting? && i < |l.rels|
    ensures var es := Rewrite(l, |l.rels|).entries;
            forall j :: 0 <= j < |es| && j != i ==> es[i].offset + 4 <= es[j].offset || es[j].offset + 4 <= es[i].offset
  {
    hide Rewrite, OncePerSlot;
    RewrittenInGot(l, |l.rels|, i);
    forall j | 0 <= j < |l.rels| && j != i
      ensures var es := Rewrite(l, |l.rels|).entries;
              es[i].offset + 4 <= es[j].offset || es[j].offset + 4 <= es[i].offset
    {
      RewrittenInGot(l, |l.rels|, j);
      SlotsApart(l, i, j);
    }
  }

  /** And the linked byte is there. */
  lemma ObjectIsThere(image: Image, l: Linked, v: nat, o: Object, textLo: nat, dataLo: nat)
    requires Packed(image, l) && InBounds(image) && Names(l, v, o)
    ensures match o
            case InText(off) => image.Text()[off] == LinkedByte(l, v, o)
            case _ => dataLo <= Runtime(l, o, textLo, dataLo) < dataLo + image.DataNeeded() && Region(image, textLo, dataLo)[Runtime(l, o, textLo, dataLo) - dataLo] == LinkedByte(l, v, o)
  {
    hide Rewrite, Rebased, Describes, OncePerSlot, ReadReloc;
    PackedParts(image, l);
  }

  /** A 32-bit word of memory. */
  function Word(ram: array<Byte>, at: nat): nat
    requires at + 4 <= ram.Length
    reads ram
  {
    Get32(ram[..], at)
  }

  /**
   Packed on one machine, loaded on another, anywhere in its memory: every relocated slot
   holds the address of the place it named, and every place holds its linked byte.
   */
  method LoadPacked(ram: array<Byte>, textLo: nat, dataLo: nat, image: Image, ghost l: Linked)
    requires Packed(image, l) && SectionsApart(l) && ram.Length <= WORD_LIMIT
    requires textLo + image.textSize <= ram.Length && dataLo + image.DataNeeded() <= ram.Length
    requires textLo + image.textSize <= dataLo || dataLo + image.DataNeeded() <= textLo
    modifies ram
    ensures forall i: nat, o: Object :: MeansAt(l, i, o) ==>
              dataLo + Slot(l, i) + 4 <= ram.Length && Word(ram, dataLo + Slot(l, i)) == Runtime(l, o, textLo, dataLo)
    ensures forall v: nat, o: Object :: Names(l, v, o) ==>
              Runtime(l, o, textLo, dataLo) < ram.Length && ram[Runtime(l, o, textLo, dataLo)] == LinkedByte(l, v, o)
    ensures forall a :: 0 <= a < ram.Length && !(textLo <= a < textLo + image.textSize) && !(dataLo <= a < dataLo + image.DataNeeded()) ==>
              ram[a] == old(ram[a])
  {
    hide Region, Rewrite, Classify, Value, Get32, Packed;
    PackedIsLoadable(image, l);
    LoadImage(ram, textLo, dataLo, image);
    forall i: nat, o: Object | MeansAt(l, i, o)
      ensures dataLo + Slot(l, i) + 4 <= ram.Length && Word(ram, dataLo + Slot(l, i)) == Runtime(l, o, textLo, dataLo)
    {
      PackedParts(image, l);
      SlotMeansTheSame(image, l, i, o, textLo, dataLo);
      WordInSlice(ram[..], dataLo, image.DataNeeded(), Slot(l, i));
      assert ram[..][dataLo..dataLo + image.DataNeeded()] == ram[dataLo..dataLo + image.DataNeeded()];
    }
    forall v: nat, o: Object | Names(l, v, o)
      ensures Runtime(l, o, textLo, dataLo) < ram.Length && ram[Runtime(l, o, textLo, dataLo)] == LinkedByte(l, v, o)
    {
      PackedParts(image, l);
      ObjectIsThere(image, l, v, o, textLo, dataLo);
    }
  }

  /** Relocation `i` is of a GOT word whose linked value names `o`. */
  predicate MeansAt(l: Linked, i: nat, o: Object) {
    i < |l.rels| && 0 <= Slot(l, i) && Slot(l, i) + 4 <= |l.got.bytes| && Names(l, LinkValue(l, i), o)
  }

  lemma WordInSlice(s: seq<Byte>, lo: nat, len: nat, at: nat)
    requires lo + len <= |s| && at + 4 <= len
    ensures Get32(s[lo..lo + len], at) == Get32(s, lo + at)
  {
    hide FromLe32;
    SliceOfSlice(s, lo, len, at, 4);
  }
}
