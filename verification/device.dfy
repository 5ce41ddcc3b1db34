/**
 The device over a power cycle: a push that is to be kept runs and is saved, power may go at
 any step of the save, and the next boot reads the flash and restores what it finds.
 */
module Device {
  import Arena
  import opened Arithmetic
  import opened BootRestore
  import BuddyLists
  import opened Bytes
  import opened CommandNames
  import FlashFormat
  import opened FlashLayout
  import FlashRead
  import opened FlashStore
  import opened ImageHeader
  import opened Loading
  import opened Registry
  import opened Resources
  import opened Slots
  import opened Supervisor

  /** The ABI version and architecture this firmware expects. */
  datatype Firmware = Firmware(abi: nat, arch: nat) {
    function Reads(bytes: seq<Byte>): Loading.Image {
      Decode(bytes, abi, arch)
    }
  }

  /** The stored images as the loader will see them. */
  function Entries(fw: Firmware, images: seq<seq<Byte>>): (saved: seq<Saved>)
    ensures |saved| == |images|
  {
    seq(|images|, i requires 0 <= i < |images| => Saved.Stored(fw.Reads(images[i])))
  }

  /** Whatever of these is authentic came from the packer. */
  ghost predicate Trusted(fw: Firmware, images: seq<seq<Byte>>) {
    forall i :: 0 <= i < |images| ==> fw.Reads(images[i]).WellMade()
  }

  lemma EntriesUsable(fw: Firmware, images: seq<seq<Byte>>)
    requires Trusted(fw, images)
    ensures forall i :: 0 <= i < |images| ==> Usable(Entries(fw, images)[i])
  {
  }

  /** A save keeps the store trusted. */
  lemma {:induction false} SavedTrusted(fw: Firmware, images: seq<seq<Byte>>, image: seq<Byte>)
    requires Trusted(fw, images) && fw.Reads(image).WellMade()
    ensures Trusted(fw, FlashFormat.Saved(images, image))
    decreases |images|
  {
    hide Decode, FlashFormat.SameText, Image.WellMade;
    if images != [] {
      SavedTrusted(fw, images[..|images| - 1], image);
      var rest := FlashFormat.Survivors(images[..|images| - 1], image);
      assert FlashFormat.Saved(images[..|images| - 1], image)[..|rest|] == rest;
      forall i | 0 <= i < |rest|
        ensures fw.Reads(rest[i]).WellMade()
      {
        assert FlashFormat.Saved(images[..|images| - 1], image)[i] == rest[i];
      }
    }
  }

  /** MDL_CMD_LOAD_PERSIST: saved only once it runs. */
  method PushAndPersist(h: Host, store: Store, fw: Firmware, bytes: seq<Byte>, now: nat) returns (st: Loading.Status, r: Outcome)
    requires h.Ready() && store.Valid() && |bytes| + FlashFormat.HEADER_BYTES < WORD_LIMIT && fw.Reads(bytes).WellMade()
    modifies store, h`routes, h`armed, h`timers, h.slots, h.queues, h.ram
    modifies h.arena`mem, h.arena`lists, h.arena`free, h.arena`live, h.arena.heads, h.arena.table
    ensures h.Ready() && store.Valid() && store.abused == old(store.abused)
    ensures st != Ok ==> unchanged(store) && r == Refused
    ensures st == Ok ==> SaveOutcome(old(store.flash), bytes, r, store.flash, store.bankSize)
    ensures st == Ok && store.troubles == old(store.troubles) ==>
              (r == Outcome.Stored <==> FlashFormat.Fits(store.bankSize, FlashFormat.Saved(FlashFormat.Report(old(store.flash)), bytes)))
    ensures st == Ok ==> exists at :: 0 <= at < |h.slots| && h.slots[at].state == Running && Identified(h.slots[at], fw.Reads(bytes))
  {
    hide Host.Inv, Host.Records, Store.Part, Sound, SaveOutcome, FlashFormat.Fits, FlashFormat.Report, FlashFormat.Saved, Decode, Image.WellMade, Identified,
      Host.FreshQueue, Host.ArmedUpTo, Host.BytesLoaded, Host.OnlyItsBytes, Host.Target, Refuses;
    var at;
    ghost var admitted;
    r := Refused;
    st, at, admitted := h.HandleLoad(fw.Reads(bytes), now);
    if st == Ok {
      r := store.Save(bytes);
      NotEmpty(fw, bytes);
    }
  }

  lemma NotEmpty(fw: Firmware, bytes: seq<Byte>)
    ensures bytes == [] ==> !fw.Reads(bytes).headerOk
  {
  }

  /** board_persist_count() and board_persist_entry() over the whole store. */
  method ReadAll(f: FlashFormat.Flash, size: nat, fw: Firmware) returns (saved: seq<Saved>)
    requires Sound(f, size)
    ensures saved == Entries(fw, FlashFormat.Report(f))
  {
    hide Sound, FlashFormat.Report, Decode;
    SoundParts(f, size);
    ghost var images := FlashFormat.Report(f);
    var n := FlashRead.EntryCount(f, size);
    saved := [];
    for i := 0 to n
      invariant |saved| == i && forall j :: 0 <= j < i ==> saved[j] == Saved.Stored(fw.Reads(images[j]))
    {
      var found, bank, off, len := FlashRead.FindEntry(f, size, i);
      saved := saved + [Saved.Stored(fw.Reads(f.Bank(bank)[off..off + len]))];
    }
  }

  /** The parts of a device that survive a power cut, besides its flash. */
  datatype Hardware = Hardware(board: Board, layout: Arena.Layout, exti: set<nat>, count: nat, minOrder: nat, maxOrder: nat, base: nat, memory: nat) {
    ghost predicate Sane() {
      && Tabulated(board) && |board.gpio| <= ROUTES
      && 0 < minOrder <= maxOrder && base > 0 && base % Power2(maxOrder) == 0
      && base + Power2(maxOrder) <= memory <= WORD_LIMIT
    }

    ghost function Site(): Site
      requires minOrder <= maxOrder
    {
      Loading.Site(board, layout, BuddyLists.Pool(base, minOrder, maxOrder - minOrder))
    }
  }

  /** A table just initialised: nobody is in, nothing is live, nothing answers. */
  ghost predicate Pristine(h: Host)
    requires |h.armed| == |h.slots|
    reads h`armed, h.slots, h.arena`live
  {
    h.arena.live == {} && Silent(h.Commands()) && forall k :: 0 <= k < |h.slots| ==> h.slots[k].state == Empty
  }

  method PowerOn(hw: Hardware) returns (h: Host)
    requires hw.Sane()
    ensures fresh(h) && fresh(h.ram) && fresh(h.arena) && fresh(h.arena.heads) && fresh(h.arena.table)
    ensures forall k :: 0 <= k < |h.slots| ==> fresh(h.slots[k])
    ensures forall k :: 0 <= k < |h.queues| ==> fresh(h.queues[k])
    ensures h.Ready() && h.arena.minOrder <= h.arena.maxOrder && |h.armed| == |h.slots| == hw.count && Pristine(h)
    ensures h.Here() == hw.Site()
  {
    hide Host.Inv, Host.Ready, Host.Shape, Tabulated, Power2, Pristine, Silent, Hardware.Site, Host.Here;
    h := new Host(hw.board, hw.layout, hw.exti, hw.count, hw.minOrder, hw.maxOrder, hw.base, hw.memory);
    h.Shaped();
    TableIsShaped(h);
    JustInitialised(h);
    SiteOf(h, hw);
  }

  lemma TableIsShaped(h: Host)
    requires h.Shape()
    ensures |h.armed| == |h.slots|
  {
  }

  lemma JustInitialised(h: Host)
    requires |h.armed| == |h.slots| && h.arena.live == {} && forall k :: 0 <= k < |h.slots| ==> h.slots[k].state == Empty
    ensures Pristine(h)
  {
  }

  lemma SiteOf(h: Host, hw: Hardware)
    requires h.board == hw.board && h.layout == hw.layout && h.arena.base == hw.base
    requires h.arena.minOrder == hw.minOrder <= h.arena.maxOrder == hw.maxOrder
    ensures h.Here() == hw.Site()
  {
  }

  ghost predicate FromNothing(m: Moment) {
    m.live == {} && forall k :: 0 <= k < |m.vs| ==> m.vs[k].state == Empty
  }

  lemma PristineMoment(h: Host)
    requires |h.armed| == |h.slots| && Pristine(h)
    ensures FromNothing(h.Now())
  {
  }

  /** What a boot makes of these stored images: each has its turn, and its account. */
  ghost predicate Booted(h: Host, fw: Firmware, images: seq<seq<Byte>>, moments: seq<Moment>)
    requires Trusted(fw, images) && |h.armed| == |h.slots| && h.arena.minOrder <= h.arena.maxOrder
    reads h`armed, h.slots, h.arena`live
  {
    EntriesUsable(fw, images);
    var saved := Entries(fw, images);
    && Turns(h.Here(), moments, saved) && FromNothing(moments[0]) && moments[|saved|] == h.Now()
    && (forall n :: 0 <= n < |saved| ==> AccountedFor(h.Here(), moments[n], saved[n], h.Now()))
    && (Unambiguous(h.Commands()) <==> NoClash(h.Here(), moments, saved, |saved|))
  }

  /** Power-on, reading the flash, restoring. */
  method Boot(hw: Hardware, f: FlashFormat.Flash, size: nat, fw: Firmware, now: nat) returns (h: Host, ghost moments: seq<Moment>)
    requires hw.Sane() && Sound(f, size) && FlashFormat.HEADER_BYTES <= |f.b0| && FlashFormat.HEADER_BYTES <= |f.b1|
    requires Trusted(fw, FlashFormat.Report(f))
    ensures fresh(h) && h.Ready() && |h.armed| == |h.slots| == hw.count && h.arena.minOrder <= h.arena.maxOrder
    ensures Booted(h, fw, FlashFormat.Report(f), moments)
  {
    hide Host.Inv, Host.Records, Sound, FlashFormat.Report, Decode, Turns, AccountedFor, NoClash, Unambiguous, Host.RestoredFrom, Silent, Usable, Trusted,
      FromNothing, Host.Now, Host.Here, Host.ResidentsKept;
    h := PowerOn(hw);
    PristineMoment(h);
    var saved := ReadAll(f, size, fw);
    EntriesUsable(fw, FlashFormat.Report(f));
    moments := h.Restore(saved, now);
    h.Shaped();
  }

  /** The set a later boot finds is the old one or, if the module came up, the new one. */
  ghost predicate OldOrNew(before: seq<seq<Byte>>, bytes: seq<Byte>, ran: bool, stored: bool, after: seq<seq<Byte>>) {
    && (after == before || (ran && after == FlashFormat.Saved(before, bytes)))
    && (stored ==> ran && after == FlashFormat.Saved(before, bytes))
  }

  lemma OutcomeIsOldOrNew(before: FlashFormat.Flash, bytes: seq<Byte>, r: Outcome, after: FlashFormat.Flash, size: nat, ran: bool)
    requires Sound(before, size) && if ran then SaveOutcome(before, bytes, r, after, size) else after == before && r == Refused
    ensures Sound(after, size) && FlashFormat.HEADER_BYTES <= |before.b0| && FlashFormat.HEADER_BYTES <= |before.b1|
    ensures FlashFormat.HEADER_BYTES <= |after.b0| && FlashFormat.HEADER_BYTES <= |after.b1|
    ensures OldOrNew(FlashFormat.Report(before), bytes, ran, r == Outcome.Stored, FlashFormat.Report(after))
  {
    hide FlashFormat.Report, FlashFormat.Saved, FlashFormat.BankValid, Tidy;
  }

  lemma StillTrusted(fw: Firmware, before: seq<seq<Byte>>, bytes: seq<Byte>, ran: bool, stored: bool, after: seq<seq<Byte>>)
    requires Trusted(fw, before) && fw.Reads(bytes).WellMade() && OldOrNew(before, bytes, ran, stored, after)
    ensures Trusted(fw, after)
  {
    hide Trusted, FlashFormat.Saved, Decode;
    SavedTrusted(fw, before, bytes);
  }

  /**
   A push that is to be kept, with power lost at any step of the save or not at all, and the
   boot after it: the set restored is the old one or the new one, never a mixture; it is the
   old one if the module did not come up, and the new one if the save said so.
   */
  method PushThenBoot(h: Host, store: Store, fw: Firmware, bytes: seq<Byte>, now: nat, hw: Hardware, later: nat)
    returns (st: Loading.Status, r: Outcome, again: Host, ghost images: seq<seq<Byte>>, ghost moments: seq<Moment>)
    requires h.Ready() && store.Valid() && |bytes| + FlashFormat.HEADER_BYTES < WORD_LIMIT && hw.Sane()
    requires fw.Reads(bytes).WellMade() && Trusted(fw, FlashFormat.Report(store.flash))
    modifies store, h`routes, h`armed, h`timers, h.slots, h.queues, h.ram
    modifies h.arena`mem, h.arena`lists, h.arena`free, h.arena`live, h.arena.heads, h.arena.table
    ensures store.Valid() && images == FlashFormat.Report(store.flash) && Trusted(fw, images)
    ensures OldOrNew(old(FlashFormat.Report(store.flash)), bytes, st == Ok, r == Outcome.Stored, images)
    ensures fresh(again) && again.Ready() && |again.armed| == |again.slots| == hw.count && again.arena.minOrder <= again.arena.maxOrder
    ensures Booted(again, fw, images, moments)
  {
    hide Host.Inv, Host.Records, Host.Ready, Sound, SaveOutcome, FlashFormat.Report, FlashFormat.Fits, Decode, Trusted, Booted, OldOrNew, Hardware.Sane,
      Identified, Image.WellMade, FlashFormat.Saved;
    ghost var before := store.flash;
    st, r := PushAndPersist(h, store, fw, bytes, now);
    OutcomeIsOldOrNew(before, bytes, r, store.flash, store.bankSize, st == Ok);
    images := FlashFormat.Report(store.flash);
    StillTrusted(fw, FlashFormat.Report(before), bytes, st == Ok, r == Outcome.Stored, images);
    again, moments := Boot(hw, store.flash, store.bankSize, fw, later);
  }
}
