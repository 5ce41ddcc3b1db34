/**
 pack() of mdl/tools/packer.py: a linked module becomes an image in which every GOT slot
 holds an offset instead of an address, and a table says from which base.
 */
module Packer {
  import opened Bytes
  import opened Crc32
  import opened ImageFormat

  /** An absent section is an empty one. */
  datatype Section = Section(addr: nat, bytes: seq<Byte>)

  datatype Rel = Rel(offset: nat, relative: bool)

  /** What pack() copies out of the ELF file. */
  datatype Linked = Linked(text: Section, data: Section, bssAddr: nat, bssSize: nat, got: Section, rels: seq<Rel>, res: seq<Byte>)

  /** A place in one of the three sections a GOT slot may point into. */
  datatype Object = InText(off: nat) | InData(off: nat) | InBss(off: nat)

  /** The link-time address `v` is the address of this place. */
  predicate Names(l: Linked, v: nat, o: Object) {
    match o
    case InText(off) => off < |l.text.bytes| && v == l.text.addr + off
    case InData(off) => off < |l.data.bytes| && v == l.data.addr + off
    case InBss(off) => off < l.bssSize && v == l.bssAddr + off
  }

  predicate Disjoint(a: nat, aLen: nat, b: nat, bLen: nat) {
    aLen == 0 || bLen == 0 || a + aLen <= b || b + bLen <= a
  }

  /** What a linker guarantees about the sections. */
  predicate SectionsApart(l: Linked) {
    && Disjoint(l.text.addr, |l.text.bytes|, l.data.addr, |l.data.bytes|)
    && Disjoint(l.text.addr, |l.text.bytes|, l.bssAddr, l.bssSize)
    && Disjoint(l.data.addr, |l.data.bytes|, l.bssAddr, l.bssSize)
  }

  datatype Class = Unclassified | Class(kind: RelocKind, offset: nat)

  /** _classify_and_normalize() */
  function Classify(l: Linked, v: nat): Class {
    if l.text.addr <= v < l.text.addr + |l.text.bytes| then Class(TextBase, v - l.text.addr)
    else if l.data.addr <= v < l.data.addr + |l.data.bytes| then Class(DataBase, |l.got.bytes| + (v - l.data.addr))
    else if l.bssAddr <= v < l.bssAddr + l.bssSize then Class(DataBase, |l.got.bytes| + |l.data.bytes| + (v - l.bssAddr))
    else Unclassified
  }

  /** Where a place ends up in the running module: text block, or GOT then data then bss. */
  function Runtime(l: Linked, o: Object, textLo: nat, dataLo: nat): nat {
    match o
    case InText(off) => textLo + off
    case InData(off) => dataLo + |l.got.bytes| + off
    case InBss(off) => dataLo + |l.got.bytes| + |l.data.bytes| + off
  }

  /** The byte the linked module has there at start. */
  function LinkedByte(l: Linked, v: nat, o: Object): Byte
    requires Names(l, v, o)
  {
    match o
    case InText(off) => l.text.bytes[off]
    case InData(off) => l.data.bytes[off]
    case InBss(_) => 0
  }

  /** Class and base together give the place's address, whichever section it is in. */
  lemma ClassifyIsRuntime(l: Linked, v: nat, o: Object, textLo: nat, dataLo: nat)
    requires SectionsApart(l) && Names(l, v, o)
    ensures var c := Classify(l, v);
            c.Class? && Runtime(l, o, textLo, dataLo) == c.offset + (if c.kind.TextBase? then textLo else dataLo)
  {
  }

  /** The packer accepts a slot's value exactly if it names something. */
  lemma ClassifiedIff(l: Linked, v: nat)
    ensures Classify(l, v).Class? <==> exists o :: Names(l, v, o)
  {
    if l.text.addr <= v < l.text.addr + |l.text.bytes| {
      assert Names(l, v, InText(v - l.text.addr));
    } else if l.data.addr <= v < l.data.addr + |l.data.bytes| {
      assert Names(l, v, InData(v - l.data.addr));
    } else if l.bssAddr <= v < l.bssAddr + l.bssSize {
      assert Names(l, v, InBss(v - l.bssAddr));
    }
  }

  datatype RelocError = BadRelocType | OutsideGot | NotAWord | NoObject

  datatype Rewriting = Failed(error: RelocError) | Rewriting(got: seq<Byte>, entries: seq<Reloc>)

  /** One relocation of the loop in pack(). */
  function RewriteOne(l: Linked, got: seq<Byte>, entries: seq<Reloc>, rel: Rel): (w: Rewriting)
    ensures w.Rewriting? ==> |w.got| == |got| && |w.entries| == |entries| + 1
  {
    if !rel.relative then Failed(BadRelocType)
    else if !(l.got.addr <= rel.offset < l.got.addr + |l.got.bytes|) then Failed(OutsideGot)
    else
      var slot := rel.offset - l.got.addr;
      if slot + 4 > |got| then Failed(NotAWord)
      else
        var c := Classify(l, Get32(got, slot));
        if c.Unclassified? then Failed(NoObject)
        else Rewriting(Put32(got, slot, c.offset % WORD_LIMIT), entries + [Reloc(slot, c.kind)])
  }

  function Rewrite(l: Linked, k: nat): (w: Rewriting)
    requires k <= |l.rels|
    ensures w.Rewriting? ==> |w.got| == |l.got.bytes| && |w.entries| == k
  {
    if k == 0 then Rewriting(l.got.bytes, [])
    else
      var w := Rewrite(l, k - 1);
      if w.Failed? then w else RewriteOne(l, w.got, w.entries, l.rels[k - 1])
  }

  function Slot(l: Linked, i: nat): int
    requires i < |l.rels|
  {
    l.rels[i].offset - l.got.addr
  }

  /** The GOT is an array of words and no two relocations fall on one of them. */
  ghost predicate OncePerSlot(l: Linked) {
    && |l.got.bytes| % 4 == 0
    && (forall i :: 0 <= i < |l.rels| ==> Slot(l, i) % 4 == 0)
    && (forall i, j :: 0 <= i < j < |l.rels| ==> Slot(l, i) != Slot(l, j))
  }

  /** The value the linker left in the slot of relocation `i`. */
  function LinkValue(l: Linked, i: nat): nat
    requires i < |l.rels| && 0 <= Slot(l, i) && Slot(l, i) + 4 <= |l.got.bytes|
  {
    Get32(l.got.bytes, Slot(l, i))
  }

  lemma SlotsApart(l: Linked, i: nat, j: nat)
    requires OncePerSlot(l) && i < |l.rels| && j < |l.rels| && i != j
    ensures Slot(l, i) + 4 <= Slot(l, j) || Slot(l, j) + 4 <= Slot(l, i)
  {
  }

  /** What the first `k` relocations have done to the slots, and to those not yet reached. */
  lemma {:induction false} RewriteSlots(l: Linked, k: nat, i: nat)
    requires OncePerSlot(l) && k <= |l.rels| && i < |l.rels| && Rewrite(l, k).Rewriting?
    requires 0 <= Slot(l, i) && Slot(l, i) + 4 <= |l.got.bytes|
    ensures var w, c := Rewrite(l, k), Classify(l, LinkValue(l, i));
            if i < k then c.Class? && w.entries[i] == Reloc(Slot(l, i), c.kind) && Get32(w.got, Slot(l, i)) == c.offset % WORD_LIMIT
            else Get32(w.got, Slot(l, i)) == LinkValue(l, i)
  {
    hide Get32, Put32, Classify, OncePerSlot;
    if k > 0 {
      RewriteSlots(l, k - 1, i);
      var w := Rewrite(l, k - 1);
      var c := Classify(l, Get32(w.got, Slot(l, k - 1)));
      PutThenGet(w.got, Slot(l, k - 1), c.offset % WORD_LIMIT, Slot(l, i));
      if i != k - 1 {
        SlotsApart(l, i, k - 1);
      }
    }
  }

  lemma {:induction false} RewrittenInGot(l: Linked, k: nat, i: nat)
    requires i < k <= |l.rels| && Rewrite(l, k).Rewriting?
    ensures 0 <= Slot(l, i) && Slot(l, i) + 4 <= |l.got.bytes| && Rewrite(l, k).entries[i].offset == Slot(l, i)
  {
    hide Get32, Put32, Classify;
    if i < k - 1 {
      RewrittenInGot(l, k - 1, i);
    }
  }

  /** The image is laid out text, data, GOT, relocation table, claims; sizes and checksum say so. */
  ghost predicate Describes(image: Image, l: Linked, got: seq<Byte>, entries: seq<Reloc>)
    requires forall r <- entries :: r.offset < WORD_LIMIT
  {
    && image.payload == l.text.bytes + l.data.bytes + got + TableBytes(entries) + l.res
    && image.textSize == |l.text.bytes| && image.dataSize == |l.data.bytes| && image.bssSize == l.bssSize
    && image.gotOff == |l.text.bytes| + |l.data.bytes| && image.gotCount == |got| / 4
    && image.relocOff == image.gotOff + |got| && image.relocCount == |entries|
    && image.resOff == image.relocOff + RELOC_SIZE * |entries| && image.resCount == |l.res| / 4
    && image.crc == Value(image.payload)
  }

  /** The header fields that are not about layout. */
  datatype Extras = Extras(initOff: nat, cmdOff: nat, cmdName: seq<Byte>, name: seq<Byte>, evtOff: nat, depth: nat, rate: nat)

  /** The assembly of payload and header at the end of pack(). */
  method Assemble(l: Linked, x: Extras) returns (image: Image)
    requires |l.got.bytes| < WORD_LIMIT && Rewrite(l, |l.rels|).Rewriting?
    ensures forall e <- Rewrite(l, |l.rels|).entries :: e.offset < WORD_LIMIT
    ensures Describes(image, l, Rewrite(l, |l.rels|).got, Rewrite(l, |l.rels|).entries)
    ensures Extras(image.initOff, image.cmdOff, image.cmdName, image.name, image.evtOff, image.depth, image.rate) == x
  {
    hide Get32, Put32, Classify, TableBytes, Value, RelocBytes;
    var w := RewriteGot(l);
    EntriesInGot(l);
    var table := WriteTable(w.entries);
    var payload := l.text.bytes;
    payload := payload + l.data.bytes;
    var gotOff := |payload|;
    payload := payload + w.got;
    var relocOff := |payload|;
    payload := payload + table;
    var resOff := |payload|;
    payload := payload + l.res;
    image := Image(Value(payload), |l.text.bytes|, |l.data.bytes|, l.bssSize, gotOff, |w.got| / 4, x.initOff,
                   relocOff, |w.entries|, x.cmdOff, resOff, |l.res| / 4, x.cmdName, x.name, x.evtOff, x.depth, x.rate, payload);
  }

  /** The relocation loop. */
  method RewriteGot(l: Linked) returns (w: Rewriting)
    ensures w == Rewrite(l, |l.rels|)
  {
    hide Get32, Put32, Classify;
    var got, entries := l.got.bytes, [];
    for k := 0 to |l.rels|
      invariant Rewrite(l, k) == Rewriting(got, entries)
    {
      w := RewriteOne(l, got, entries, l.rels[k]);
      if w.Failed? {
        StaysFailed(l, k + 1, |l.rels|);
        return;
      }
      got, entries := w.got, w.entries;
    }
    w := Rewriting(got, entries);
  }

  lemma {:induction false} StaysFailed(l: Linked, k: nat, n: nat)
    requires k <= n <= |l.rels| && Rewrite(l, k).Failed?
    ensures Rewrite(l, n) == Rewrite(l, k)
  {
    if n > k {
      StaysFailed(l, k, n - 1);
    }
  }

  lemma EntriesInGot(l: Linked)
    requires Rewrite(l, |l.rels|).Rewriting? && |l.got.bytes| < WORD_LIMIT
    ensures forall e <- Rewrite(l, |l.rels|).entries :: e.offset < WORD_LIMIT
  {
    forall e <- Rewrite(l, |l.rels|).entries
      ensures e.offset < WORD_LIMIT
    {
      var i :| 0 <= i < |l.rels| && Rewrite(l, |l.rels|).entries[i] == e;
      RewrittenInGot(l, |l.rels|, i);
    }
  }

  method WriteTable(entries: seq<Reloc>) returns (table: seq<Byte>)
    requires forall e <- entries :: e.offset < WORD_LIMIT
    ensures table == TableBytes(entries)
  {
    table := [];
    for i := 0 to |entries|
      invariant table == TableBytes(entries[..i])
    {
      assert entries[..i + 1][..i] == entries[..i];
      table := table + RelocBytes(entries[i]);
    }
    assert entries[..|entries|] == entries;
  }
}
