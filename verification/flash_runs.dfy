/**
 The flash store over whole lives of the device: any number of saves, each cut short at
 any step or not, with reboots between them; and the one operation that is not atomic.
 */
module FlashRuns {
  import opened Arithmetic
  import opened Bytes
  import opened FlashFormat
  import opened FlashLayout
  import opened FlashStore
  import Crc32

  /** The stored set if exactly the saves marked in `committed` had happened. */
  function Replay(images: seq<Image>, saves: seq<Image>, committed: seq<bool>): seq<Image>
    requires |saves| == |committed|
  {
    if saves == [] then images
    else
      var n := |saves| - 1;
      var before := Replay(images, saves[..n], committed[..n]);
      if committed[n] then Saved(before, saves[n]) else before
  }

  /** Consecutive flash contents of one device, a reboot or not between any two saves. */
  ghost predicate Life(flashes: seq<Flash>, saves: seq<Image>, outcomes: seq<Outcome>, size: nat) {
    && |flashes| == |saves| + 1 && |outcomes| == |saves|
    && Sound(flashes[0], size)
    && forall i :: 0 <= i < |saves| ==> Sound(flashes[i], size) && SaveOutcome(flashes[i], saves[i], outcomes[i], flashes[i + 1], size)
  }

  /**
   Whatever was cut short, the device reports what some sequence of whole saves would have
   left: all that returned true took place, none that found no room did, and one that was
   interrupted either did or did not.
   */
  lemma {:induction false} EveryLifeIsAtomic(flashes: seq<Flash>, saves: seq<Image>, outcomes: seq<Outcome>, size: nat)
    returns (committed: seq<bool>)
    requires Life(flashes, saves, outcomes, size)
    ensures |committed| == |saves|
    ensures Sound(flashes[|saves|], size)
    ensures Report(flashes[|saves|]) == Replay(Report(flashes[0]), saves, committed)
    ensures forall i :: 0 <= i < |saves| ==> (outcomes[i] == Stored ==> committed[i]) && (outcomes[i] == Refused ==> !committed[i])
    decreases |saves|
  {
    hide Sound, Report, Saved;
    if saves == [] {
      committed := [];
    } else {
      var n := |saves| - 1;
      assert SaveOutcome(flashes[n], saves[n], outcomes[n], flashes[n + 1], size);
      var earlier := EveryLifeIsAtomic(flashes[..|saves|], saves[..n], outcomes[..n], size);
      SoundParts(flashes[n], size);
      SoundParts(flashes[n + 1], size);
      var took := if outcomes[n] == Stored then true
                  else if outcomes[n] == Refused then false
                  else Report(flashes[n + 1]) == Saved(Report(flashes[n]), saves[n]);
      committed := earlier + [took];
      assert committed[..n] == earlier;
    }
  }

  /** Every save of this life was refused for its size alone. */
  ghost predicate OnlyForRoom(flashes: seq<Flash>, saves: seq<Image>, outcomes: seq<Outcome>, size: nat)
    requires Life(flashes, saves, outcomes, size)
  {
    forall i :: 0 <= i < |saves| ==> StoredIfRoom(flashes[i], saves[i], outcomes[i], size)
  }

  ghost predicate StoredIfRoom(before: Flash, image: Image, r: Outcome, size: nat)
    requires Sound(before, size)
  {
    r == Stored <==> image != [] && Fits(size, Saved(Report(before), image))
  }

  /**
   A life is what the store does: any number of saves on one device, each of which may fail
   or be cut short anywhere. No word is ever programmed twice without an erase between.
   */
  method Lifetime(store: Store, saves: seq<Image>) returns (outcomes: seq<Outcome>, ghost flashes: seq<Flash>, ghost committed: seq<bool>)
    requires store.Valid() && forall image <- saves :: |image| + HEADER_BYTES < WORD_LIMIT
    modifies store
    ensures store.Valid() && store.abused == old(store.abused) && store.troubles >= old(store.troubles)
    ensures Life(flashes, saves, outcomes, store.bankSize) && flashes[0] == old(store.flash) && flashes[|saves|] == store.flash
    ensures |committed| == |saves| && Report(store.flash) == Replay(Report(old(store.flash)), saves, committed)
    ensures forall i :: 0 <= i < |saves| ==> (outcomes[i] == Stored ==> committed[i]) && (outcomes[i] == Refused ==> !committed[i])
    ensures store.troubles == old(store.troubles) ==> OnlyForRoom(flashes, saves, outcomes, store.bankSize)
  {
    hide Sound, Report, Saved, SaveOutcome, Fits, Replay;
    outcomes, flashes := [], [store.flash];
    for n := 0 to |saves|
      invariant store.Valid() && store.abused == old(store.abused) && store.troubles >= old(store.troubles)
      invariant Life(flashes, saves[..n], outcomes, store.bankSize)
      invariant flashes[0] == old(store.flash) && flashes[n] == store.flash
      invariant store.troubles == old(store.troubles) ==> OnlyForRoom(flashes, saves[..n], outcomes, store.bankSize)
    {
      var r := store.Save(saves[n]);
      LifeGrows(flashes, saves[..n], outcomes, store.bankSize, saves[n], r, store.flash);
      assert saves[..n + 1] == saves[..n] + [saves[n]];
      outcomes, flashes := outcomes + [r], flashes + [store.flash];
    }
    assert saves[..|saves|] == saves;
    committed := EveryLifeIsAtomic(flashes, saves, outcomes, store.bankSize);
  }

  lemma LifeGrows(flashes: seq<Flash>, saves: seq<Image>, outcomes: seq<Outcome>, size: nat, image: Image, r: Outcome, after: Flash)
    requires Life(flashes, saves, outcomes, size) && Sound(flashes[|saves|], size)
    requires SaveOutcome(flashes[|saves|], image, r, after, size)
    ensures Life(flashes + [after], saves + [image], outcomes + [r], size)
    ensures OnlyForRoom(flashes, saves, outcomes, size) && StoredIfRoom(flashes[|saves|], image, r, size) ==>
              OnlyForRoom(flashes + [after], saves + [image], outcomes + [r], size)
  {
    hide Sound, SaveOutcome, StoredIfRoom;
    var fs, ss, os := flashes + [after], saves + [image], outcomes + [r];
    forall i | 0 <= i < |ss|
      ensures Sound(fs[i], size) && SaveOutcome(fs[i], ss[i], os[i], fs[i + 1], size)
    {
      assert fs[i] == flashes[i];
      assert i < |saves| ==> fs[i + 1] == flashes[i + 1];
    }
    assert forall i :: 0 <= i < |saves| ==> fs[i] == flashes[i] && ss[i] == saves[i] && os[i] == outcomes[i];
  }

  /** From the factory on: never two images of one name, and just the replay of what was committed. */
  method FromFactory(bankSize: nat, sectorSize: nat, saves: seq<Image>) returns (store: Store, ghost committed: seq<bool>)
    requires Sectors(bankSize, sectorSize) && sectorSize >= 8
    requires HEADER_BYTES <= bankSize < WORD_LIMIT && bankSize % 8 == 0
    requires forall image <- saves :: |image| + HEADER_BYTES < WORD_LIMIT
    ensures store.Valid() && !store.abused && fresh(store)
    ensures |committed| == |saves| && Report(store.flash) == Replay([], saves, committed) && NoTwins(Report(store.flash))
  {
    hide Sound, Report, Saved, Life, Replay, SameText;
    store := new Store(bankSize, sectorSize);
    var outcomes;
    ghost var flashes;
    outcomes, flashes, committed := Lifetime(store, saves);
    ReplayHasNoTwins([], saves, committed);
  }

  lemma {:induction false} ReplayHasNoTwins(images: seq<Image>, saves: seq<Image>, committed: seq<bool>)
    requires NoTwins(images) && |saves| == |committed|
    ensures NoTwins(Replay(images, saves, committed))
    decreases |saves|
  {
    hide NoTwins;
    if saves != [] {
      var n := |saves| - 1;
      ReplayHasNoTwins(images, saves[..n], committed[..n]);
      SaveReplacesByName(Replay(images, saves[..n], committed[..n]), saves[n]);
    }
  }

  // ---- replace by name -------------------------------------------------

  ghost predicate NoTwins(images: seq<Image>) {
    forall i, j :: 0 <= i < j < |images| ==> !SameText(images[i], images[j])
  }

  lemma {:induction false} NoneReplaced(images: seq<Image>, image: Image)
    requires forall k :: 0 <= k < |images| ==> !SameText(images[k], image)
    ensures Survivors(images, image) == images
    decreases |images|
  {
    hide SameText;
    if images != [] {
      NoneReplaced(images[..|images| - 1], image);
    }
  }

  /** A save takes out exactly the images whose name is the new one's text. */
  lemma {:induction false} SaveRemovesExactly(images: seq<Image>, image: Image, x: Image)
    ensures x in Survivors(images, image) <==> x in images && !SameText(x, image)
    ensures x in Saved(images, image) <==> x == image || (x in images && !SameText(x, image))
    decreases |images|
  {
    hide SameText;
    if images != [] {
      SaveRemovesExactly(images[..|images| - 1], image, x);
      assert images == images[..|images| - 1] + [images[|images| - 1]];
    }
  }

  /** A save adds the image at the end, after taking out the one image of that name if there is one. */
  lemma SaveReplacesByName(images: seq<Image>, image: Image)
    requires NoTwins(images)
    ensures NoTwins(Saved(images, image))
    ensures (forall k :: 0 <= k < |images| ==> !SameText(images[k], image)) ==> Saved(images, image) == images + [image]
    ensures forall k :: 0 <= k < |images| && SameText(images[k], image) ==>
              Saved(images, image) == images[..k] + images[k + 1..] + [image]
  {
    hide SameText;
    if k :| 0 <= k < |images| && SameText(images[k], image) {
      OneReplaced(images, image, k);
      forall j | 0 <= j < |images| && j != k
        ensures !SameText(images[j], image)
      {
        OnlyOneOfThatName(images, image, j, k);
      }
    } else {
      NoneReplaced(images, image);
    }
  }

  lemma OnlyOneOfThatName(images: seq<Image>, image: Image, j: nat, k: nat)
    requires NoTwins(images) && j < |images| && k < |images| && j != k && SameText(images[k], image)
    ensures !SameText(images[j], image)
  {
    var (lo, hi) := if j < k then (j, k) else (k, j);
    assert !SameText(images[lo], images[hi]);
  }

  lemma {:induction false} OneReplaced(images: seq<Image>, image: Image, k: nat)
    requires NoTwins(images) && k < |images| && SameText(images[k], image)
    ensures Survivors(images, image) == images[..k] + images[k + 1..]
    decreases |images|
  {
    hide SameText;
    var n := |images| - 1;
    if k == n {
      forall j | 0 <= j < n
        ensures !SameText(images[j], image)
      {
        OnlyOneOfThatName(images, image, j, k);
      }
      NoneReplaced(images[..n], image);
    } else {
      OneReplaced(images[..n], image, k);
      OnlyOneOfThatName(images, image, n, k);
      assert images[..n][..k] + images[..n][k + 1..] + [images[n]] == images[..k] + images[k + 1..];
    }
  }

  // ---- forget ----------------------------------------------------------

  /** Both banks are valid and the older one is the one erased last. */
  predicate Shadowed(f: Flash)
    requires HEADER_BYTES <= |f.b0| && HEADER_BYTES <= |f.b1|
  {
    BankValid(f.b0) && BankValid(f.b1) && ActiveBank(f.b0, f.b1) == 0
  }

  /** What is reported after a cut, exactly: with bank 0 gone, bank 1 shows. */
  lemma ForgetReports(f: Flash, n: nat, size: nat)
    requires Sound(f, size) && n <= 2 * size && (n == 0 || n >= 4) && (n > size ==> n - size >= 4)
    ensures Sound(ForgetTo(f, n, size), size)
    ensures Report(ForgetTo(f, n, size)) ==
            if n == 0 then Report(f)
            else if n <= size && BankValid(f.b1) then ImagesIn(f.b1)
            else []
  {
    hide BankValid, Tidy, ImagesIn, WordAt;
    var g := ForgetTo(f, n, size);
    if n == 0 {
      assert WipeTo(f.b0, 0) == f.b0;
    } else {
      BlankMagic(g.b0);
      if n > size {
        BlankMagic(g.b1);
      }
    }
  }

  /** After a cut at byte `n`, the old set or nothing is reported. */
  ghost predicate OldOrNothing(f: Flash, n: nat, size: nat)
    requires Sound(f, size) && n <= 2 * size
  {
    var g := ForgetTo(f, n, size);
    Report(g) == Report(f) || Report(g) == []
  }

  ghost predicate ForgetIsAtomic(f: Flash, size: nat, sector: nat)
    requires Sound(f, size)
  {
    forall n :: 0 <= n <= 2 * size && Sectors(n, sector) ==> OldOrNothing(f, n, size)
  }

  /**
   A forget that may be cut short is atomic (the old set or nothing) exactly when the
   bank it erases first is not the newer of two valid ones that differ.
   */
  lemma ForgetAtomicIff(f: Flash, size: nat, sector: nat)
    requires Sound(f, size) && 8 <= sector <= size && Sectors(size, sector)
    ensures ForgetIsAtomic(f, size, sector) <==> !(Shadowed(f) && ImagesIn(f.b0) != ImagesIn(f.b1))
  {
    hide BankValid, ImagesIn, WordAt, Sound, OldOrNothing, ForgetTo, ActiveBank, Report;
    SoundParts(f, size);
    if Shadowed(f) {
      ValidNotEmpty(f.b0);
      ValidNotEmpty(f.b1);
      FirstSectorExposes(f, size, sector);
      assert sector <= 2 * size && Sectors(sector, sector);
    }
    forall n | 0 <= n <= 2 * size && Sectors(n, sector) && !(Shadowed(f) && ImagesIn(f.b0) != ImagesIn(f.b1))
      ensures OldOrNothing(f, n, size)
    {
      SectorSteps(n, size, sector);
      CutElsewhere(f, n, size);
    }
  }

  /** A bank of 88 bytes that holds one image of one byte. */
  lemma TinyBank(s: nat, image: Image) returns (bank: seq<Byte>)
    requires s < WORD_LIMIT && |image| == 1
    ensures |bank| == 88 && BankValid(bank) && Tidy(bank) && ImagesIn(bank) == [image] && Seq(bank) == s
  {
    hide Crc32.Value, Tidy, BankValid, FromLe32;
    var entries := [Entry(HEADER_BYTES, 1, Crc32.Value(image))];
    var header := seq(HEADER_WORDS, w requires 0 <= w => HeaderWord(s, entries, w));
    assert forall w :: 0 <= w < HEADER_WORDS ==> HeaderWord(s, entries, w) < WORD_LIMIT;
    bank := Words(header) + (image + seq(7, _ => 0));
    forall w | 0 <= w < HEADER_WORDS
      ensures WordAt(bank, w) == HeaderWord(s, entries, w)
    {
      WordsReadBack(header, image + seq(7, _ => 0), w);
      assert WordAt(bank, w) == FromLe32(bank[4 * w..4 * w + 4]);
    }
    assert bank[HEADER_BYTES..HEADER_BYTES + 1] == image;
    assert [image][..0] == [];
    assert Placed(bank, entries[0], Cursor([]), image);
    CommittedBank(bank, s, entries, [image]);
  }

  /** Such a flash: bank 0 was just committed over bank 1, and power went before bank 1 was erased. */
  lemma ForgetMayExpose() returns (f: Flash, size: nat, sector: nat)
    ensures Sound(f, size) && 8 <= sector <= size && Sectors(size, sector) && !ForgetIsAtomic(f, size, sector)
  {
    hide BankValid, ImagesIn, WordAt, Tidy, Seq, Count, OldOrNothing;
    size, sector := 88, 88;
    var b0 := TinyBank(2, [1]);
    var b1 := TinyBank(1, [0]);
    f := Flash(b0, b1);
    assert [[1]][0] != [[0]][0];
    ForgetAtomicIff(f, size, sector);
  }

  lemma FirstSectorExposes(f: Flash, size: nat, n: nat)
    requires Sound(f, size) && Shadowed(f) && 4 <= n <= size
    ensures OldOrNothing(f, n, size) <==> ImagesIn(f.b0) == ImagesIn(f.b1)
  {
    hide BankValid, Tidy, ImagesIn, WordAt;
    ForgetReports(f, n, size);
    ValidNotEmpty(f.b0);
    ValidNotEmpty(f.b1);
  }

  lemma CutElsewhere(f: Flash, n: nat, size: nat)
    requires Sound(f, size) && n <= 2 * size && (n == 0 || n >= 4) && (n > size ==> n - size >= 4)
    requires Shadowed(f) ==> ImagesIn(f.b0) == ImagesIn(f.b1)
    ensures OldOrNothing(f, n, size)
  {
    hide BankValid, Tidy, ImagesIn, WordAt;
    ForgetReports(f, n, size);
  }

  lemma ValidNotEmpty(bank: seq<Byte>)
    requires HEADER_BYTES <= |bank| && BankValid(bank)
    ensures Count(bank) <= MAX_ENTRIES && ImagesIn(bank) != []
  {
    hide WordAt;
  }

  lemma SectorSteps(n: nat, size: nat, sector: nat)
    requires Sectors(n, sector) && Sectors(size, sector) && sector >= 8
    ensures n == 0 || n >= 8
    ensures n > size ==> n - size >= 8
  {
    var a, b := n / sector, size / sector;
    assert n == a * sector && size == b * sector;
    if n > size {
      assert a > b by {
        if a <= b {
          MulMonotone(a, b, sector);
        }
      }
      MulMonotone(b + 1, a, sector);
      OneMore(b, sector);
    }
  }
}
