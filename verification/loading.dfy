/**
 What mdl/core/loader.c decides about an image, as values: its verdict given what is live
 in the arena and which pins others hold, and what comes of the load.
 */
module Loading {
  import opened Arena
  import opened Arithmetic
  import opened BuddyAllocator
  import opened BuddyBlocks
  import opened BuddyLists
  import opened BuddyRoom
  import opened Bytes
  import opened CommandNames
  import Crc32
  import opened FlashFormat
  import F = ImageFormat
  import LoaderCopy
  import opened Resources
  import opened SlotNames

  /** A pushed image: its header and the payload behind it. */
  datatype Image = Image(
    headerOk: bool,      // long enough, magic, ABI version and architecture
    file: F.Image) {

    function TextBytes(): nat { file.textSize }

    /** GOT, data and bss together. */
    function DataBytes(): nat { file.DataNeeded() }

    /** The claim table, if it lies inside the payload. */
    function Claims(): seq<Claim> {
      if file.ResInside() then ClaimsIn(file.payload[file.resOff..file.resOff + 4 * file.resCount]) else []
    }

    /** The header checks that precede any use of a size: magic, CRC, ABI, architecture. */
    predicate Authentic() {
      headerOk && Crc32.Value(file.payload) == file.crc
    }

    /** An authentic image comes from the packer: its tables are inside it and no size wraps. */
    ghost predicate WellMade() {
      |file.name| == NAME_MAX && |file.cmdName| == CMD_NAME_MAX && (Authentic() ==> LoaderCopy.Modest(file))
    }

    /** The command a slot that loads this image answers to. */
    function Command(): seq<Byte>
      requires |file.cmdName| == CMD_NAME_MAX
    {
      KeptCommand(file.cmdOff != 0, file.cmdName)
    }
  }

  datatype Status = Ok | BadImage | TextTooBig | DataTooBig | BadReloc | BadResTable | ResConflict | NoSlot | CommandTaken

  /** Where a load happens: the board's tables, the arena's layout and its pool. */
  datatype Site = Site(board: Board, layout: Layout, pool: Pool)

  ghost predicate AllFit(s: Site, live: set<Block>, image: Image) {
    AllFitAlone(s.pool, live, image.TextBytes(), image.DataBytes(), s.layout.Total())
  }

  /** The arena can give this image its three blocks. */
  ghost predicate CanHold(s: Site, live: set<Block>, image: Image) {
    CanAcquire(s.pool, live, image.TextBytes(), image.DataBytes(), s.layout.Total())
  }

  ghost predicate RelocsGood(image: Image)
    requires image.file.Laid()
  {
    LoaderCopy.AllInside(image.file.Table(), image.file.relocCount, image.file.GotBytes())
  }

  ghost predicate SaneClaims(image: Image) {
    |image.Claims()| <= MAX_RES && forall c <- image.Claims() :: ClaimSane(c)
  }

  /** What mdl_load_validate() says of an image, given what is live and which pins others hold. */
  ghost function VerdictFor(s: Site, live: set<Block>, held: iset<Pin>, image: Image): (st: Status)
    requires image.WellMade()
    ensures st != NoSlot && st != CommandTaken
  {
    if !image.Authentic() then BadImage
    else if image.TextBytes() > Power2(s.pool.minOrder + s.pool.top) then TextTooBig
    else if image.DataBytes() > Power2(s.pool.minOrder + s.pool.top) then DataTooBig
    else if !AllFit(s, live, image) then TextTooBig
    else if !RelocsGood(image) then BadReloc
    else if !image.file.ResInside() || image.file.depth > F.EVT_QUEUE_MAX || !SaneClaims(image) then BadResTable
    else if !DeviceAccepts(s.board, image.Claims(), held) then ResConflict
    else Ok
  }

  /** A relocation entry's word ends beyond the GOT. */
  predicate RelocOutside(image: Image, i: nat)
    requires image.file.Laid() && i < image.file.relocCount
  {
    F.Get32(image.file.Table(), 8 * i) + 4 > 4 * image.file.gotCount
  }

  /** Too many claims, or one of no kind, of no known kind, or of a GPIO past the 32nd. */
  predicate ClaimsInsane(claims: seq<Claim>) {
    |claims| > 8 || exists k :: 0 <= k < |claims| && (claims[k].kind == 0 || claims[k].kind > 6 || (claims[k].kind == 1 && claims[k].id >= 32))
  }

  /** A claim that the board cannot place, or a pin claimed twice, needed by the host, or held by another module. */
  ghost predicate PinsRefused(board: Board, claims: seq<Claim>, held: iset<Pin>) {
    var pins := AllPins(board, claims);
    || (exists k :: 0 <= k < |claims| && PinsOf(board, claims[k]) == [])
    || (exists i, j :: 0 <= i < j < |pins| && pins[i] == pins[j])
    || (exists i :: 0 <= i < |pins| && (Hard(board.owners, pins[i]) || pins[i] in held))
  }

  /** Which refusal is named, each by what is wrong and what is not. */
  lemma VerdictNames(s: Site, live: set<Block>, held: iset<Pin>, image: Image)
    requires image.WellMade()
    ensures var st, pool := VerdictFor(s, live, held, image), Power2(s.pool.minOrder + s.pool.top);
            var authentic := image.headerOk && Crc32.Value(image.file.payload) == image.file.crc;
            var roomy := image.TextBytes() <= pool && image.DataBytes() <= pool && AllFit(s, live, image);
            var whole := authentic && roomy && forall i :: 0 <= i < image.file.relocCount ==> !RelocOutside(image, i);
            var tables := image.file.resOff + 4 * image.file.resCount <= |image.file.payload| && image.file.depth <= 16 && !ClaimsInsane(image.Claims());
            && (st == BadImage <==> !authentic)
            && (st == DataTooBig <==> authentic && image.TextBytes() <= pool < image.DataBytes())
            && (st == TextTooBig <==> authentic && (image.TextBytes() > pool || (image.DataBytes() <= pool && !AllFit(s, live, image))))
            && (st == BadReloc <==> authentic && roomy && !whole)
            && (st == BadResTable <==> whole && !tables)
            && (st == ResConflict <==> whole && tables && PinsRefused(s.board, image.Claims(), held))
            && (st == Ok <==> whole && tables && !PinsRefused(s.board, image.Claims(), held))
  {
    hide AllFit, Power2, Crc32.Value, Image.Claims, RelocsGood, RelocOutside, LoaderCopy.Modest, SaneClaims, ClaimsInsane, DeviceAccepts, PinsRefused;
    if image.Authentic() {
      RelocsGoodIff(image);
    }
    ClaimsSaneIff(image);
    if SaneClaims(image) {
      AcceptedIff(s.board, image, held);
    }
  }

  lemma ClaimsSaneIff(image: Image)
    ensures SaneClaims(image) <==> !ClaimsInsane(image.Claims())
  {
    hide Image.Claims;
    var claims := image.Claims();
    if !SaneClaims(image) && |claims| <= 8 {
      var k :| 0 <= k < |claims| && !ClaimSane(claims[k]);
    }
    if ClaimsInsane(claims) && |claims| <= 8 {
      var k :| 0 <= k < |claims| && (claims[k].kind == 0 || claims[k].kind > 6 || (claims[k].kind == 1 && claims[k].id >= 32));
      assert claims[k] in claims;
    }
  }

  lemma AcceptedIff(board: Board, image: Image, held: iset<Pin>)
    requires SaneClaims(image)
    ensures DeviceAccepts(board, image.Claims(), held) <==> !PinsRefused(board, image.Claims(), held)
  {
    hide Image.Claims, AllPins, PinsOf, Hard, ClaimSane;
    var claims, pins := image.Claims(), AllPins(board, image.Claims());
    forall k | 0 <= k < |claims|
      ensures claims[k] in claims
    {
    }
    forall i | 0 <= i < |pins|
      ensures pins[i] in pins
    {
    }
  }

  lemma RelocsGoodIff(image: Image)
    requires LoaderCopy.Modest(image.file)
    ensures image.file.Laid()
    ensures RelocsGood(image) <==> forall i :: 0 <= i < image.file.relocCount ==> !RelocOutside(image, i)
  {
    hide F.Get32;
    LoaderCopy.InsideIsInBounds(image.file);
    forall i | 0 <= i < image.file.relocCount
      ensures image.file.Relocs()[i].offset + 4 <= image.file.GotBytes() <==> !RelocOutside(image, i)
    {
    }
  }

  /** What mdl_load() says: the verdict, and then whether the arena can give all three blocks. */
  ghost function Answer(s: Site, live: set<Block>, held: iset<Pin>, image: Image): (st: Status)
    requires image.WellMade()
    ensures st != NoSlot && st != CommandTaken
    ensures st == Ok <==> VerdictFor(s, live, held, image) == Ok && CanHold(s, live, image)
    ensures VerdictFor(s, live, held, image) != Ok ==> st == VerdictFor(s, live, held, image)
    ensures VerdictFor(s, live, held, image) == Ok && st != Ok ==> st == TextTooBig
  {
    var st := VerdictFor(s, live, held, image);
    if st == Ok && !CanHold(s, live, image) then TextTooBig else st
  }

  /** An image that passes fits, reads in bounds and claims only pins it may have. */
  lemma LoadableMeans(s: Site, live: set<Block>, held: iset<Pin>, image: Image)
    requires image.WellMade() && VerdictFor(s, live, held, image) == Ok
    ensures AllFit(s, live, image) && LoaderCopy.InBounds(image.file) && DeviceAccepts(s.board, image.Claims(), held)
  {
    hide AllFit, DeviceAccepts, LoaderCopy.AllInside, LoaderCopy.InBounds, Power2;
    LoaderCopy.InsideIsInBounds(image.file);
  }

  /** Freeing blocks never turns a good verdict bad. */
  lemma VerdictKept(s: Site, live: set<Block>, after: set<Block>, held: iset<Pin>, image: Image)
    requires image.WellMade() && after <= live && VerdictFor(s, live, held, image) == Ok
    ensures VerdictFor(s, after, held, image) == Ok
  {
    hide FitsAlone, DeviceAccepts, LoaderCopy.AllInside, Power2, Image.Authentic, Image.Claims;
    FitsWithLess(s.pool, live, after, image.TextBytes());
    FitsWithLess(s.pool, live, after, image.DataBytes());
    FitsWithLess(s.pool, live, after, s.layout.Total());
  }

  /** These are three blocks of exactly the image's size classes. */
  ghost predicate Classed(s: Site, blocks: set<Block>, image: Image) {
    exists t: Block, d: Block, h: Block ::
      blocks == {t, d, h} && IsLevelFor(s.pool.minOrder, image.TextBytes(), t.level)
      && IsLevelFor(s.pool.minOrder, image.DataBytes(), d.level) && IsLevelFor(s.pool.minOrder, s.layout.Total(), h.level)
  }

  // ---- plain images ------------------------------------------------------

  /** An image of nothing but text and bss, with names. */
  function Plain(text: seq<Byte>, bss: nat, cmdOff: nat, cmdName: seq<Byte>, name: seq<Byte>): Image {
    var n := |text|;
    Image(true, F.Image(Crc32.Value(text), n, 0, bss, n, 0, 0, n, 0, cmdOff, n, 0, cmdName, name, 0, 0, 0, text))
  }

  /** It passes validation wherever its requests fit alone. */
  lemma PlainIsValid(s: Site, live: set<Block>, held: iset<Pin>, image: Image, text: seq<Byte>, bss: nat)
    requires image == Plain(text, bss, image.file.cmdOff, image.file.cmdName, image.file.name)
    requires |image.file.name| == NAME_MAX && |image.file.cmdName| == CMD_NAME_MAX && |text| < WORD_LIMIT && bss < WORD_LIMIT
    ensures image.WellMade() && image.Claims() == []
    ensures VerdictFor(s, live, held, image) == Ok <==> AllFit(s, live, image)
  {
    hide Crc32.Value, FitsAlone, Power2;
    assert image.file.payload[|text|..|text| + 0] == [];
    assert AllPins(s.board, []) == [];
    if image.TextBytes() > Power2(s.pool.minOrder + s.pool.top) {
      TooLargeAlone(s.pool, live, image.TextBytes());
    }
    if image.DataBytes() > Power2(s.pool.minOrder + s.pool.top) {
      TooLargeAlone(s.pool, live, image.DataBytes());
    }
  }

  /** An image without text or without GOT, data and bss is never loaded, whatever room there is. */
  lemma NothingToHold(s: Site, live: set<Block>, held: iset<Pin>, image: Image)
    requires image.WellMade() && (image.TextBytes() == 0 || image.DataBytes() == 0)
    ensures Answer(s, live, held, image) != Ok
    ensures VerdictFor(s, live, held, image) == Ok ==> Answer(s, live, held, image) == TextTooBig
  {
    hide VerdictFor;
  }
}
