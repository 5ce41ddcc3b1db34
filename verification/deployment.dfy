/**
 mdl/tools/packer.py and mdl/core/loader.c together: what the build accepted, the device
 refuses only for want of memory, for pins somebody else has, or for claiming too much.
 */
module Deployment {
  import opened Arena
  import opened Arithmetic
  import opened BuddyBlocks
  import opened Bytes
  import CommandNames
  import Crc32
  import F = ImageFormat
  import LoaderCopy
  import opened Loading
  import opened Pack
  import opened PackMeaning
  import opened Packer
  import opened PackerCheck
  import opened Registry
  import opened Resources
  import Supervisor

  /** The file has the GOT a linker makes, and nothing of it comes near 2^32. */
  ghost predicate Ordinary(e: Elf) {
    var l := e.linked;
    && OncePerSlot(l)
    && |l.text.bytes| + |l.data.bytes| + |l.got.bytes| + F.RELOC_SIZE * |l.rels| + |l.res| < WORD_LIMIT
    && |l.got.bytes| + |l.data.bytes| + l.bssSize < WORD_LIMIT
  }

  lemma PackedFields(e: Elf, o: Options, d: BoardPins, image: F.Image)
    requires Packs(e, o, d, image)
    ensures |e.linked.res| % 4 == 0 && image.depth <= F.EVT_QUEUE_MAX
    ensures image.cmdName == CommandField(e) && |image.name| == |image.cmdName| == 16
    ensures !o.allowConflicts ==> PackerAccepts(d, Claimed(e))
  {
    hide Rewrite, Lookup, PackerAccepts, Describes, InsideText, ClaimsIn;
  }

  /** The device reads the claims the file declared. */
  lemma ClaimsSurvive(e: Elf, o: Options, d: BoardPins, image: F.Image)
    requires Packs(e, o, d, image)
    ensures image.ResInside() && Image(true, image).Claims() == Claimed(e)
  {
    hide Problem, Rewrite, Lookup, ClaimsIn, F.TableBytes, Crc32.Value, Header;
    var w := Rewrite(e.linked, |e.linked.rels|);
    PackedFields(e, o, d, image);
    var front := e.linked.text.bytes + e.linked.data.bytes + w.got + F.TableBytes(w.entries);
    assert image.payload == front + e.linked.res;
    assert image.payload[image.resOff..image.resOff + 4 * image.resCount] == e.linked.res;
  }

  /** So what the loader takes for granted about authentic images holds of a packed one. */
  lemma PackedIsWellMade(e: Elf, o: Options, d: BoardPins, image: F.Image)
    requires Packs(e, o, d, image) && Ordinary(e)
    ensures LoaderCopy.Packed(image, e.linked) && Image(true, image).WellMade() && Image(true, image).Authentic()
  {
    hide Problem, Rewrite, Lookup, F.TableBytes, Crc32.Value, Header, OncePerSlot;
    PackedFields(e, o, d, image);
    assert LoaderCopy.Packed(image, e.linked);
    LoaderCopy.PackedIsLoadable(image, e.linked);
    LoaderCopy.PackedParts(image, e.linked);
  }

  /**
   A slot that loaded a packed image is entered where the file says: at the code of its three
   symbols, and for a command or an event only if the file has the symbol.
   */
  lemma PackedIsEntered(m: Module, e: Elf, o: Options, d: BoardPins, image: F.Image)
    requires Packs(e, o, d, image) && Ordinary(e) && SectionsApart(e.linked)
    ensures Image(true, image).WellMade()
    ensures Supervisor.Identified(m, Image(true, image)) ==>
              && Enters(e, "module_init", m.textLo, m.dataLo, m.entry)
              && (if Defined(e.symbols, "module_cmd") then Enters(e, "module_cmd", m.textLo, m.dataLo, m.cmdEntry) else m.cmdEntry == 0)
              && (if Defined(e.symbols, "module_event") then Enters(e, "module_event", m.textLo, m.dataLo, m.evtEntry) else m.evtEntry == 0)
  {
    hide *;
    PackedIsWellMade(e, o, d, image);
    EntryPoints(e, o, d, image);
    OffsetsEnter(e, o, d, image, m.textLo, m.dataLo);
    if Supervisor.Identified(m, Image(true, image)) {
      Supervisor.EntriesOf(m, Image(true, image));
    }
  }

  lemma PinsFreeIff(board: Board, claims: seq<Claim>, held: iset<Pin>)
    ensures DeviceAccepts(board, claims, held) <==>
            DeviceAccepts(board, claims, iset{}) && forall pin <- AllPins(board, claims) :: pin !in held
  {
    hide AllPins, PinsOf, Hard, NoRepeats;
  }

  /**
   Packed against a board's tables and pushed to that board, an image passes validation
   exactly when it claims no more than eight resources, each of its three requests fits
   alone, and no pin it claims is held by another resident.
   */
  lemma PackedVerdictIff(s: Site, live: set<Block>, held: iset<Pin>, e: Elf, o: Options, image: F.Image)
    requires WellFormed(s.board) && Packs(e, o, DictsOf(s.board), image) && Ordinary(e) && !o.allowConflicts
    ensures Image(true, image).WellMade()
    ensures VerdictFor(s, live, held, Image(true, image)) == Status.Ok <==>
            && |Claimed(e)| <= MAX_RES && AllFit(s, live, Image(true, image))
            && forall pin <- AllPins(s.board, Claimed(e)) :: pin !in held
  {
    hide Problem, PackedAs, PackerAccepts, DeviceAccepts, WellFormed, DictsOf, AllPins, FitsAlone, Power2, OncePerSlot, ClaimSane,
      LoaderCopy.AllInside, LoaderCopy.Packed, LoaderCopy.Modest, Crc32.Value, ClaimsIn, F.Image.Table, Image.Claims;
    var d := DictsOf(s.board);
    PackedFields(e, o, d, image);
    ClaimsSurvive(e, o, d, image);
    PackedIsWellMade(e, o, d, image);
    LoaderCopy.PackedIsLoadable(image, e.linked);
    PackerAndDeviceAgree(s.board, Claimed(e));
    PinsFreeIff(s.board, Claimed(e), held);
    SaneIfAccepted(s.board, Claimed(e));
    TooLargeEither(s, live, Image(true, image));
  }

  lemma SaneIfAccepted(board: Board, claims: seq<Claim>)
    ensures DeviceAccepts(board, claims, iset{}) ==> |claims| <= MAX_RES && forall c <- claims :: ClaimSane(c)
  {
  }

  lemma TooLargeEither(s: Site, live: set<Block>, image: Loading.Image)
    ensures AllFit(s, live, image) ==>
              image.TextBytes() <= Power2(s.pool.minOrder + s.pool.top) && image.DataBytes() <= Power2(s.pool.minOrder + s.pool.top)
  {
    hide FitsAlone, Power2;
    if image.TextBytes() > Power2(s.pool.minOrder + s.pool.top) {
      TooLargeAlone(s.pool, live, image.TextBytes());
    }
    if image.DataBytes() > Power2(s.pool.minOrder + s.pool.top) {
      TooLargeAlone(s.pool, live, image.DataBytes());
    }
  }

  /** Its command keeps every table of commands unambiguous exactly when the file's name for it is shorter than the field. */
  lemma PackedCommandKeepsIff(e: Elf, o: Options, d: BoardPins, image: F.Image)
    requires Packs(e, o, d, image)
    ensures |image.cmdName| == CommandNames.CMD_NAME_MAX
    ensures (forall cs: seq<seq<Byte>>, at: nat :: CommandNames.PushKeeps(cs, at, image.cmdName)) <==>
            Lookup(e.symbols, "module_cmd").None? || e.command.None? || |e.command.value| < 16 || 0 in e.command.value[..16]
  {
    hide Problem, PackedAs, Lookup;
    PackedFields(e, o, d, image);
    CommandNames.PushKeepsIff(image.cmdName);
    PaddedHasNul([], 16);
    if e.command.Some? {
      PaddedHasNul(e.command.value, 16);
    }
  }

  /** A file of two bytes of code, and no GOT, data or bss. */
  function CodeOnly(abi: nat): Elf {
    Elf(true, [Symbol("__mdl_abi_ver", 1, 1, 1, 0), Symbol("module_init", 1, 1, 2, 1)], Pack.Maybe.Some(abi), true, true, false, false,
        Linked(Section(0, [0, 0]), Section(0, []), 0, 0, Section(0, []), [], []), Pack.Maybe.None, Pack.Maybe.None, Pack.Maybe.None)
  }

  lemma CodeOnlyPacks(o: Options, d: BoardPins)
    requires o.textRegion >= 2
    ensures Problem(CodeOnly(o.abi), o, d) == None && Ordinary(CodeOnly(o.abi)) && Claimed(CodeOnly(o.abi)) == []
  {
    var e := CodeOnly(o.abi);
    assert Lookup(e.symbols, "__mdl_abi_ver") == Pack.Maybe.Some(0);
    assert Lookup(e.symbols[1..], "module_init") == Pack.Maybe.Some(1);
    assert Lookup(e.symbols[2..], "module_cmd") == Lookup(e.symbols[2..], "module_event") == Pack.Maybe.None;
    assert e.symbols[1..][1..] == e.symbols[2..] == [];
    assert SymbolProblem(e, o) == None;
    assert EntryProblem(e) == None;
    assert ExpandAll(d, []) == [];
    assert EventProblem(e, o, d) == None;
  }

  /**
   The build accepts it, the device validates it wherever its requests fit alone, and it is
   never loaded.
   */
  lemma NoDataNeverLoads(s: Site, live: set<Block>, held: iset<Pin>, o: Options, image: F.Image)
    requires WellFormed(s.board) && o.textRegion >= 2 && !o.allowConflicts && PackedAs(image, CodeOnly(o.abi), o)
    ensures Problem(CodeOnly(o.abi), o, DictsOf(s.board)) == None && Image(true, image).WellMade()
    ensures VerdictFor(s, live, held, Image(true, image)) == Status.Ok <==> AllFit(s, live, Image(true, image))
    ensures Answer(s, live, held, Image(true, image)) != Status.Ok
  {
    hide Problem, WellFormed, DictsOf, VerdictFor, Answer, AllFit, Ordinary, Rewrite, F.TableBytes, Crc32.Value, Header, ClaimsIn, PinsOf;
    CodeOnlyPacks(o, DictsOf(s.board));
    PackedVerdictIff(s, live, held, CodeOnly(o.abi), o, image);
    NothingToHold(s, live, held, Image(true, image));
  }
}
