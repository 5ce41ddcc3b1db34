/**
 What a packed image tells the device about its module, in terms of the symbols and bytes
 of the linked file alone, and when a file can be packed at all.
 */
module PackMeaning {
  import opened Bytes
  import FlashFormat
  import opened ImageFormat
  import opened Pack
  import opened Packer
  import opened PackerCheck

  /** The first symbol of this name in the table has this value. */
  ghost predicate HasValue(symbols: seq<Symbol>, name: string, v: nat) {
    exists k :: 0 <= k < |symbols| && symbols[k].name == name && symbols[k].value == v && forall j :: 0 <= j < k ==> symbols[j].name != name
  }

  predicate Defined(symbols: seq<Symbol>, name: string) {
    exists s <- symbols :: s.name == name
  }

  lemma {:induction false} LookupMeans(symbols: seq<Symbol>, name: string)
    ensures Lookup(symbols, name).Some? <==> Defined(symbols, name)
    ensures forall v: nat :: HasValue(symbols, name, v) <==> Lookup(symbols, name) == Some(v)
  {
    if symbols == [] {
    } else if symbols[0].name == name {
      assert symbols[0] in symbols;
      assert HasValue(symbols, name, symbols[0].value);
    } else {
      var rest := symbols[1..];
      LookupMeans(rest, name);
      forall v: nat
        ensures HasValue(symbols, name, v) <==> HasValue(rest, name, v)
      {
        if HasValue(rest, name, v) {
          var k :| 0 <= k < |rest| && rest[k].name == name && rest[k].value == v && forall j :: 0 <= j < k ==> rest[j].name != name;
          assert symbols[k + 1] == rest[k];
          assert forall j :: 0 < j < k + 1 ==> symbols[j] == rest[j - 1];
        }
        if HasValue(symbols, name, v) {
          var k :| 0 <= k < |symbols| && symbols[k].name == name && symbols[k].value == v && forall j :: 0 <= j < k ==> symbols[j].name != name;
          assert rest[k - 1] == symbols[k];
          assert forall j :: 0 <= j < k - 1 ==> rest[j] == symbols[j + 1];
        }
      }
      assert forall s <- rest :: s in symbols;
      assert forall s <- symbols :: s == symbols[0] || s in rest;
    }
  }

  /** It was packed without a complaint. */
  ghost predicate Packs(e: Elf, o: Options, d: BoardPins, image: Image) {
    Problem(e, o, d) == None && PackedAs(image, e, o)
  }

  // ---- where the device enters the module --------------------------------

  /**
   The offsets in a packed image are those of the three entry points: added to where the
   text was linked they give the symbols' values, and an optional one is 0 exactly when its
   symbol is absent.
   */
  lemma EntryPoints(e: Elf, o: Options, d: BoardPins, image: Image)
    requires Packs(e, o, d, image)
    ensures HasValue(e.symbols, "module_init", e.linked.text.addr + image.initOff) && image.initOff < |e.linked.text.bytes|
    ensures if Defined(e.symbols, "module_cmd")
            then HasValue(e.symbols, "module_cmd", e.linked.text.addr + image.cmdOff) && 0 < image.cmdOff < |e.linked.text.bytes|
            else image.cmdOff == 0
    ensures if Defined(e.symbols, "module_event")
            then HasValue(e.symbols, "module_event", e.linked.text.addr + image.evtOff) && 0 < image.evtOff < |e.linked.text.bytes|
            else image.evtOff == 0
  {
    hide Lookup, Rewrite, HasValue, Defined, PackerAccepts, Describes;
    LookupMeans(e.symbols, "module_init");
    LookupMeans(e.symbols, "module_cmd");
    LookupMeans(e.symbols, "module_event");
  }

  /** This is the address, in memory, of the place that this symbol names in the file. */
  ghost predicate Enters(e: Elf, name: string, textLo: nat, dataLo: nat, at: nat) {
    forall v: nat, place: Object :: HasValue(e.symbols, name, v) && Names(e.linked, v, place) ==> at == Runtime(e.linked, place, textLo, dataLo)
  }

  /** So wherever the text is placed, its address plus such an offset is where the symbol's code is. */
  lemma OffsetsEnter(e: Elf, o: Options, d: BoardPins, image: Image, textLo: nat, dataLo: nat)
    requires Packs(e, o, d, image) && SectionsApart(e.linked)
    ensures Enters(e, "module_init", textLo, dataLo, textLo + image.initOff)
    ensures image.cmdOff != 0 ==> Enters(e, "module_cmd", textLo, dataLo, textLo + image.cmdOff)
    ensures image.evtOff != 0 ==> Enters(e, "module_event", textLo, dataLo, textLo + image.evtOff)
  {
    hide Problem, PackedAs, HasValue, Defined;
    EntryPoints(e, o, d, image);
    OffsetEnters(e, "module_init", image.initOff, textLo, dataLo);
    if image.cmdOff != 0 {
      OffsetEnters(e, "module_cmd", image.cmdOff, textLo, dataLo);
    }
    if image.evtOff != 0 {
      OffsetEnters(e, "module_event", image.evtOff, textLo, dataLo);
    }
  }

  lemma OffsetEnters(e: Elf, name: string, off: nat, textLo: nat, dataLo: nat)
    requires SectionsApart(e.linked) && HasValue(e.symbols, name, e.linked.text.addr + off) && off < |e.linked.text.bytes|
    ensures Enters(e, name, textLo, dataLo, textLo + off)
  {
    hide HasValue;
    forall v: nat, place: Object | HasValue(e.symbols, name, v) && Names(e.linked, v, place)
      ensures textLo + off == Runtime(e.linked, place, textLo, dataLo)
    {
      OneValue(e.symbols, name, v, e.linked.text.addr + off);
    }
  }

  lemma OneValue(symbols: seq<Symbol>, name: string, v: nat, w: nat)
    requires HasValue(symbols, name, v) && HasValue(symbols, name, w)
    ensures v == w
  {
  }

  // ---- queue and names ---------------------------------------------------

  /** Queue depth and rate are the first two little-endian half words of the event section. */
  lemma EventHeader(e: Elf, o: Options, d: BoardPins, image: Image)
    requires Packs(e, o, d, image)
    ensures e.events.None? ==> image.depth == image.rate == 0
    ensures e.events.Some? ==>
              var b := e.events.value;
              |b| >= 4 && image.depth == b[0] as nat + 0x100 * b[1] as nat && image.rate == b[2] as nat + 0x100 * b[3] as nat
    ensures image.depth <= 16 && (image.depth > 0 <==> Defined(e.symbols, "module_event"))
  {
    hide Lookup, Rewrite, Defined, PackerAccepts, Describes;
    LookupMeans(e.symbols, "module_event");
  }

  /** The text of a padded field is the text of what was put in, as far as it fits. */
  lemma PaddedText(s: seq<Byte>, n: nat)
    ensures FlashFormat.UpToNul(Padded(s, n)) == FlashFormat.UpToNul(if |s| > n then s[..n] else s)
  {
    var cut := if |s| > n then s[..n] else s;
    var t := FlashFormat.UpToNul(cut);
    assert t == cut[..|t|] == Padded(s, n)[..|t|];
    FlashFormat.OneText(Padded(s, n), |t|);
  }

  /** The module answers to at most sixteen bytes of its declared command, or to nothing. */
  lemma CommandPacked(e: Elf, o: Options, d: BoardPins, image: Image, i: nat)
    requires Packs(e, o, d, image) && i < 16
    ensures |image.cmdName| == 16
    ensures Defined(e.symbols, "module_cmd") ==> e.command.Some?
    ensures image.cmdName[i] == if Defined(e.symbols, "module_cmd") && i < |e.command.value| then e.command.value[i] else 0
  {
    hide Lookup, Rewrite, Defined, PackerAccepts, Describes;
    LookupMeans(e.symbols, "module_cmd");
  }

  /** Its name is the one it declares, up to sixteen characters, or else fifteen of the hint. */
  lemma NamePacked(e: Elf, o: Options, d: BoardPins, image: Image)
    requires Packs(e, o, d, image)
    ensures |image.name| == 16
    ensures FlashFormat.UpToNul(image.name) ==
            if e.name.Some? then FirstOf(FlashFormat.UpToNul(e.name.value), 16)
            else FlashFormat.UpToNul(FirstOf(o.nameHint, 15))
  {
    hide Problem, Lookup, Rewrite, Describes, FlashFormat.UpToNul;
    var name := NameBytes(e, o);
    PaddedText(name, 16);
    if e.name.Some? {
      OwnText(e.name.value, 16);
    }
  }

  function FirstOf(s: seq<Byte>, n: nat): seq<Byte> {
    if |s| > n then s[..n] else s
  }

  lemma OwnText(s: seq<Byte>, n: nat)
    ensures FlashFormat.UpToNul(FirstOf(FlashFormat.UpToNul(s), n)) == FirstOf(FlashFormat.UpToNul(s), n)
  {
    var t := FirstOf(FlashFormat.UpToNul(s), n);
    FlashFormat.OneText(t, |t|);
    assert t[..|t|] == t;
  }

  // ---- which files can be packed -----------------------------------------

  /** This relocation can be rewritten: relative, on a word of the GOT that names a place. */
  ghost predicate Rewritable(l: Linked, i: nat)
    requires i < |l.rels|
  {
    && l.rels[i].relative
    && l.got.addr <= l.rels[i].offset && l.rels[i].offset + 4 <= l.got.addr + |l.got.bytes|
    && exists place :: Names(l, LinkValue(l, i), place)
  }

  lemma {:induction false} RewritableIff(l: Linked, k: nat)
    requires OncePerSlot(l) && k <= |l.rels|
    ensures Rewrite(l, k).Rewriting? <==> forall i :: 0 <= i < k ==> Rewritable(l, i)
  {
    hide OncePerSlot, Classify, Get32, Put32, Names;
    if k > 0 {
      RewritableIff(l, k - 1);
      var i := k - 1;
      if Rewrite(l, i).Rewriting? {
        var slot := Slot(l, i);
        if 0 <= slot && slot + 4 <= |l.got.bytes| {
          RewriteSlots(l, i, i);
          ClassifiedIff(l, LinkValue(l, i));
        }
        assert Rewrite(l, k).Rewriting? <==> Rewritable(l, i);
      }
    }
  }

  /** No object or function but a local one is left undefined, and the file names its ABI and its entry point. */
  ghost predicate SymbolsFine(e: Elf, o: Options) {
    && e.shared
    && (forall s <- e.symbols :: s.section == 0 && s.name != "" && s.kind in {1, 2} ==> s.bind == 0)
    && Defined(e.symbols, "__mdl_abi_ver") && e.abiWord == Some(o.abi) && Defined(e.symbols, "module_init")
  }

  ghost predicate SizesFine(e: Elf, o: Options) {
    && e.executable && e.code && !e.retained
    && |e.linked.text.bytes| <= o.textRegion
    && |e.linked.got.bytes| + |e.linked.data.bytes| + e.linked.bssSize <= o.dataRegion
    && (e.linked.got.bytes == [] || e.writable)
  }

  /** An entry point, if there is one, lies inside the text; an optional one not at its very start. */
  ghost predicate EntryFine(e: Elf, name: string, least: nat) {
    forall v: nat :: HasValue(e.symbols, name, v) ==> e.linked.text.addr + least <= v < e.linked.text.addr + |e.linked.text.bytes|
  }

  ghost predicate CommandFine(e: Elf) {
    if Defined(e.symbols, "module_cmd") then e.command.Some? && e.command.value != [] && e.command.value[0] != 0
    else e.command.None?
  }

  /** A handler has a queue of one to sixteen records, and only a file with a handler has a queue or an edge. */
  ghost predicate EventsFine(e: Elf) {
    && (e.events.Some? ==> |e.events.value| >= 4)
    && var depth := if e.events.None? then 0 else e.events.value[0] as nat + 0x100 * e.events.value[1] as nat;
    && (if Defined(e.symbols, "module_event") then 1 <= depth <= 16
        else depth == 0 && forall c <- Claimed(e) :: c.edge == 0)
  }

  /** A file with an ordinary GOT is packed exactly when nothing is wrong with any of these. */
  lemma PackableIff(e: Elf, o: Options, d: BoardPins)
    requires OncePerSlot(e.linked)
    ensures Problem(e, o, d) == None <==>
            && SymbolsFine(e, o) && SizesFine(e, o)
            && (forall i :: 0 <= i < |e.linked.rels| ==> Rewritable(e.linked, i))
            && EntryFine(e, "module_init", 0) && EntryFine(e, "module_cmd", 1) && EntryFine(e, "module_event", 1)
            && CommandFine(e) && |e.linked.res| % 4 == 0 && EventsFine(e)
            && (o.allowConflicts || PackerAccepts(d, Claimed(e)))
  {
    hide Lookup, Rewrite, HasValue, Defined, PackerAccepts, OncePerSlot, Rewritable;
    LookupMeans(e.symbols, "__mdl_abi_ver");
    LookupMeans(e.symbols, "module_init");
    LookupMeans(e.symbols, "module_cmd");
    LookupMeans(e.symbols, "module_event");
    RewritableIff(e.linked, |e.linked.rels|);
  }
}
