/**
 mdl/tests/hil/common/board_persist.c, write side, on a part that can lose power at any
 step. A word program may tear, leaving anything in that word; a sector erase either
 happens or does not. After `PowerCut` the code that was running does nothing more.
 */
module FlashStore {
  import opened Arithmetic
  import opened Bytes
  import opened FlashFormat
  import opened FlashLayout
  import Crc32

  /** How one flash operation ended. A failed one has the same range of effects as a cut. */
  datatype Status = Done | Failed | PowerCut

  /** How a save ended: true, false for want of room, false on a flash error, or not at all. */
  datatype Outcome = Stored | Refused | FlashError | Cut

  function Interrupted(st: Status): Outcome
    requires st != Done
  {
    if st == Failed then FlashError else Cut
  }

  /** What `image` being saved may leave behind. */
  ghost predicate SaveOutcome(before: Flash, image: Image, r: Outcome, after: Flash, bankSize: nat)
    requires Sound(before, bankSize)
  {
    && Sound(after, bankSize)
    && match r
       case Stored => Report(after) == Saved(Report(before), image)
       case Refused => Report(after) == Report(before)
       case FlashError => Report(after) == Report(before) || Report(after) == Saved(Report(before), image)
       case Cut => Report(after) == Report(before) || Report(after) == Saved(Report(before), image)
  }

  /** One sector is all ones and the rest is as it was. */
  ghost predicate Erased(before: seq<Byte>, after: seq<Byte>, at: nat, size: nat) {
    && |before| == |after| && at + size <= |before|
    && before[..at] == after[..at] && before[at + size..] == after[at + size..]
    && Blank(after, at, at + size)
  }

  lemma WipeOneMore(bank: seq<Byte>, after: seq<Byte>, at: nat, size: nat)
    requires at <= |bank| && Erased(WipeTo(bank, at), after, at, size)
    ensures after == WipeTo(bank, at + size)
  {
    var before := WipeTo(bank, at);
    forall i | 0 <= i < |bank|
      ensures after[i] == WipeTo(bank, at + size)[i]
    {
      if i < at {
        assert after[i] == after[..at][i] == before[..at][i];
      } else if i >= at + size {
        assert after[i] == after[at + size..][i - at - size] == before[at + size..][i - at - size];
      }
    }
  }

  /** The flash after the erases of board_persist_forget() have covered `n` bytes. */
  function ForgetTo(f: Flash, n: nat, size: nat): Flash
    requires |f.b0| == |f.b1| == size && n <= 2 * size
  {
    if n <= size then Flash(WipeTo(f.b0, n), f.b1) else Flash(WipeTo(f.b0, size), WipeTo(f.b1, n - size))
  }

  class Store {
    const bankSize: nat
    const sectorSize: nat
    var flash: Flash
    /** Words programmed since their sector was last erased, as (bank, word). */
    ghost var dirty: set<(nat, nat)>
    /** Some word was programmed twice without an erase in between. */
    ghost var abused: bool
    /** How many flash operations did not end well. */
    ghost var troubles: nat

    ghost predicate Part()
      reads this
    {
      && Sectors(bankSize, sectorSize) && sectorSize >= 8
      && HEADER_BYTES <= bankSize < WORD_LIMIT && bankSize % 8 == 0
      && |flash.b0| == bankSize && |flash.b1| == bankSize
    }

    ghost predicate Valid()
      reads this
    {
      Part() && Sound(flash, bankSize)
    }

    /** A part as it comes from the factory, or after a forget that went through. */
    constructor (bankSize: nat, sectorSize: nat)
      requires Sectors(bankSize, sectorSize) && sectorSize >= 8
      requires HEADER_BYTES <= bankSize < WORD_LIMIT && bankSize % 8 == 0
      ensures Valid() && Report(flash) == [] && !abused && troubles == 0
      ensures this.bankSize == bankSize && this.sectorSize == sectorSize
    {
      hide BankValid, Tidy, Sectors;
      this.bankSize, this.sectorSize := bankSize, sectorSize;
      flash := Flash(seq(bankSize, _ => 255), seq(bankSize, _ => 255));
      dirty, abused, troubles := {}, false, 0;
      new;
      BlankMagic(flash.b0);
      BlankMagic(flash.b1);
    }

    /** flash_word_program() */
    method Program(b: nat, word: nat, value: seq<Byte>) returns (st: Status)
      requires Part() && b < 2 && 4 * word + 4 <= bankSize && |value| == 4
      modifies this
      ensures Part() && flash == Put(old(flash), b, flash.Bank(b))
      ensures flash.Bank(b)[..4 * word] == old(flash.Bank(b))[..4 * word]
      ensures flash.Bank(b)[4 * word + 4..] == old(flash.Bank(b))[4 * word + 4..]
      ensures st == Done && (b, word) !in old(dirty) ==> flash.Bank(b)[4 * word..4 * word + 4] == value
      ensures dirty == old(dirty) + {(b, word)}
      ensures abused == (old(abused) || (b, word) in old(dirty))
      ensures troubles == old(troubles) + (if st == Done then 0 else 1)
    {
      var torn: seq<Byte> := value;
      st := Done;
      if * {
        torn :| |torn| == 4;
        troubles := troubles + 1;
        if * { st := Failed; } else { st := PowerCut; }
      }
      var bank := flash.Bank(b);
      flash := Put(flash, b, bank[..4 * word] + torn + bank[4 * word + 4..]);
      abused := abused || (b, word) in dirty;
      dirty := dirty + {(b, word)};
    }

    /** flash_sector_erase() */
    method Erase(b: nat, at: nat) returns (st: Status)
      requires Part() && b < 2 && Sectors(at, sectorSize) && at + sectorSize <= bankSize
      modifies this
      ensures Part() && flash == Put(old(flash), b, flash.Bank(b)) && abused == old(abused)
      ensures troubles == old(troubles) + (if st == Done then 0 else 1)
      ensures st != Done ==> flash == old(flash) || Erased(old(flash.Bank(b)), flash.Bank(b), at, sectorSize)
      ensures st == Done ==> Erased(old(flash.Bank(b)), flash.Bank(b), at, sectorSize)
      ensures st == Done ==> dirty == set w <- old(dirty) | w.0 != b || 4 * w.1 < at || at + sectorSize <= 4 * w.1
    {
      st := Done;
      if * {
        troubles := troubles + 1;
        if * { st := Failed; } else { st := PowerCut; }
        if * { return; }
      }
      var bank := flash.Bank(b);
      flash := Put(flash, b, bank[..at] + seq(sectorSize, _ => 255) + bank[at + sectorSize..]);
      dirty := set w <- dirty | w.0 != b || 4 * w.1 < at || at + sectorSize <= 4 * w.1;
    }

    /** erase_bank(): sector by sector, the one holding the header first. */
    method EraseBank(b: nat) returns (st: Status, ghost n: nat)
      requires Part() && b < 2
      modifies this
      ensures Part() && abused == old(abused) && troubles == old(troubles) + (if st == Done then 0 else 1)
      ensures n <= bankSize && Sectors(n, sectorSize) && flash == Put(old(flash), b, WipeTo(old(flash.Bank(b)), n))
      ensures flash == old(flash) || !BankValid(flash.Bank(b))
      ensures st == Done ==> n == bankSize
      ensures st == Done ==> dirty == set w <- old(dirty) | w.0 != b || bankSize <= 4 * w.1
    {
      hide BankValid, Sectors, Erased, WipeTo;
      NoSectors(sectorSize);
      WipedInvalid(flash.Bank(b), 0);
      WipeNothing(flash, b);
      var off := 0;
      while off < bankSize
        invariant off <= bankSize && Sectors(off, sectorSize) && (off == 0 || off >= sectorSize)
        invariant Part() && abused == old(abused) && troubles == old(troubles)
        invariant flash == Put(old(flash), b, WipeTo(old(flash.Bank(b)), off))
        invariant dirty == set w <- old(dirty) | w.0 != b || off <= 4 * w.1
      {
        NextSector(off, bankSize, sectorSize);
        ghost var before := flash;
        st := Erase(b, off);
        n := off;
        if flash != before || st == Done {
          WipeOneMore(old(flash.Bank(b)), flash.Bank(b), off, sectorSize);
          n := off + sectorSize;
        }
        WipedInvalid(old(flash.Bank(b)), n);
        if st != Done {
          return;
        }
        off := off + sectorSize;
      }
      WipedInvalid(old(flash.Bank(b)), off);
      st, n := Done, off;
    }

    /** board_persist_forget() */
    method Forget() returns (r: Outcome, ghost n: nat)
      requires Valid()
      modifies this
      ensures Part() && abused == old(abused)
      ensures n <= 2 * bankSize && Sectors(n, sectorSize) && flash == ForgetTo(old(flash), n, bankSize)
      ensures r == Stored ==> n == 2 * bankSize
      ensures r == Stored <==> troubles == old(troubles)
      ensures r != Refused
    {
      hide Sectors, WipeTo, Sound, BankValid;
      var st;
      st, n := EraseBank(0);
      if st != Done {
        return Interrupted(st), n;
      }
      st, n := EraseBank(1);
      n := bankSize + n;
      MoreSectors(bankSize, n - bankSize, sectorSize);
      WipeNone(old(flash.b1));
      r := if st == Done then Stored else Interrupted(st);
    }

    /** Nothing programmed in bank `b` between these bytes since the last erase. */
    ghost predicate Clean(b: nat, lo: nat, hi: nat)
      reads this
    {
      forall w <- dirty :: w.0 == b ==> 4 * w.1 + 4 <= lo || hi <= 4 * w.1
    }

    /** write_bytes(): a word at a time, the last one padded with ones. */
    method WriteBytes(b: nat, at: nat, data: seq<Byte>) returns (st: Status)
      requires Part() && b < 2 && at % 4 == 0 && at + |data| <= bankSize && Clean(b, at, at + |data|)
      modifies this
      ensures Part() && flash == Put(old(flash), b, flash.Bank(b)) && abused == old(abused)
      ensures troubles == old(troubles) + (if st == Done then 0 else 1)
      ensures SamePrefix(old(flash.Bank(b)), flash.Bank(b), at)
      ensures SameSuffix(old(flash.Bank(b)), flash.Bank(b), at + WordsOf(|data|))
      ensures st == Done ==> flash.Bank(b)[at..at + |data|] == data
      ensures DirtyWithin(old(dirty), dirty, b, at, at + |data|)
    {
      hide SamePrefix, SameSuffix, Written, DirtyWithin, Sectors, WordsOf;
      ghost var bank0, dirty0 := flash.Bank(b), dirty;
      SamePrefixSelf(flash.Bank(b), at);
      ShorterSuffix(flash.Bank(b), flash.Bank(b), at, at);
      NothingDirtied(dirty, b, at);
      NothingWritten(flash.Bank(b), at, data);
      var i := 0;
      while i < |data|
        invariant i % 4 == 0 && i < |data| + 4
        invariant Part() && flash == Put(old(flash), b, flash.Bank(b)) && abused == old(abused) && troubles == old(troubles)
        invariant SamePrefix(bank0, flash.Bank(b), at) && SameSuffix(bank0, flash.Bank(b), at + i)
        invariant Written(flash.Bank(b), at, data, i)
        invariant DirtyWithin(dirty0, dirty, b, at, at + i)
      {
        st := WriteWord(b, at, data, i, bank0, dirty0);
        if st != Done {
          WiderDirty(dirty0, dirty, b, at, at + i + 4, at + |data|);
          WholeWords(at, i, |data|, bankSize);
          ShorterSuffix(bank0, flash.Bank(b), at + i + 4, at + WordsOf(|data|));
          return;
        }
        i := i + 4;
      }
      AllWritten(flash.Bank(b), at, data, i);
      LastWord(i, |data|);
      WiderDirty(dirty0, dirty, b, at, at + i, at + |data|);
      st := Done;
    }

    /** The body of that loop: up to four bytes from position `i`. */
    method WriteWord(b: nat, at: nat, data: seq<Byte>, i: nat, ghost bank0: seq<Byte>, ghost dirty0: set<(nat, nat)>) returns (st: Status)
      requires Part() && b < 2 && at % 4 == 0 && i % 4 == 0 && i < |data| && at + |data| <= bankSize
      requires forall w <- dirty0 :: w.0 == b ==> 4 * w.1 + 4 <= at || at + |data| <= 4 * w.1
      requires SamePrefix(bank0, flash.Bank(b), at) && SameSuffix(bank0, flash.Bank(b), at + i)
      requires Written(flash.Bank(b), at, data, i)
      requires DirtyWithin(dirty0, dirty, b, at, at + i)
      modifies this
      ensures Part() && flash == Put(old(flash), b, flash.Bank(b)) && abused == old(abused)
      ensures troubles == old(troubles) + (if st == Done then 0 else 1)
      ensures SamePrefix(bank0, flash.Bank(b), at) && SameSuffix(bank0, flash.Bank(b), at + i + 4)
      ensures st == Done ==> Written(flash.Bank(b), at, data, i + 4)
      ensures DirtyWithin(dirty0, dirty, b, at, at + i + 4)
    {
      hide SamePrefix, SameSuffix, Written, DirtyWithin;
      var n := if |data| - i >= 4 then 4 else |data| - i;
      var ones: seq<Byte> := seq(4 - n, _ => 255);
      var value := data[i..i + n] + ones;
      ghost var before, wasDirty := flash.Bank(b), dirty;
      NextWord(at, i, |data|, bankSize);
      var word := (at + i) / 4;
      StillClean(dirty0, dirty, b, at, i, |data|, word);
      st := Program(b, word, value);
      PrefixKept(bank0, before, flash.Bank(b), at, at + i);
      SuffixKept(bank0, before, flash.Bank(b), at + i, at + i + 4);
      OneMoreDirty(dirty0, wasDirty, b, at, at + i, word);
      if st == Done {
        WordWritten(before, flash.Bank(b), at, data, i, value);
      }
    }

    /** Bank `b` holds these images behind a header that is still blank. */
    ghost predicate Draft(b: nat, entries: seq<Entry>, images: seq<Image>)
      reads this
    {
      && Part() && b < 2
      && Fits(bankSize, images) && Cursor(images) <= bankSize
      && LaidOut(flash.Bank(b), entries, images)
      && Blank(flash.Bank(b), 0, HEADER_BYTES)
      && Clean(b, 0, HEADER_BYTES) && Clean(b, Cursor(images), bankSize)
    }

    /** One image written at the cursor. */
    method Append(b: nat, cursor: nat, image: Image, ghost entries: seq<Entry>, ghost images: seq<Image>) returns (st: Status)
      requires Draft(b, entries, images) && cursor == Cursor(images)
      requires image != [] && |images| < MAX_ENTRIES && cursor + |image| <= bankSize
      modifies this
      ensures Part() && flash == Put(old(flash), b, flash.Bank(b)) && abused == old(abused)
      ensures troubles == old(troubles) + (if st == Done then 0 else 1)
      ensures !BankValid(flash.Bank(b))
      ensures st == Done ==> Draft(b, entries + [Entry(cursor, |image|, Crc32.Value(image))], images + [image])
      ensures Align8(cursor + |image|) == Cursor(images + [image])
    {
      hide BankValid, LaidOut, Fits, Cursor, Crc32.Value, DirtyWithin, Align8;
      ghost var before, wasDirty := flash.Bank(b), dirty;
      CleanInside(wasDirty, b, cursor, bankSize, cursor + |image|);
      WordAligned(cursor);
      st := WriteBytes(b, cursor, image);
      HeaderStillBlank(before, flash.Bank(b), cursor);
      BlankMagic(flash.Bank(b));
      CursorStep(images, image);
      if st == Done {
        FitsMore(bankSize, images, image);
        assert before[HEADER_BYTES..cursor] == flash.Bank(b)[HEADER_BYTES..cursor] by {
          assert before[HEADER_BYTES..cursor] == before[..cursor][HEADER_BYTES..];
          assert flash.Bank(b)[HEADER_BYTES..cursor] == flash.Bank(b)[..cursor][HEADER_BYTES..];
        }
        LaidOutKept(before, flash.Bank(b), entries, images);
        LaidOutMore(flash.Bank(b), entries, images, image);
        StillCleanAround(wasDirty, dirty, b, cursor, cursor + |image|, bankSize);
      }
    }

    /** The bank is either still invalid or complete: there is nothing in between. */
    ghost predicate AllOrNothing(b: nat, s: nat, images: seq<Image>)
      reads this
    {
      && Part() && b < 2
      && (BankValid(flash.Bank(b)) ==>
            Tidy(flash.Bank(b)) && ImagesIn(flash.Bank(b)) == images && Seq(flash.Bank(b)) == s)
    }

    /** Header fields first, magic word last. */
    method WriteHeader(b: nat, s: nat, entries: seq<Entry>, ghost images: seq<Image>) returns (st: Status)
      requires Draft(b, entries, images) && images != [] && s < WORD_LIMIT
      modifies this
      ensures flash == Put(old(flash), b, flash.Bank(b)) && abused == old(abused)
      ensures troubles == old(troubles) + (if st == Done then 0 else 1)
      ensures AllOrNothing(b, s, images)
      ensures st == Done ==> BankValid(flash.Bank(b))
    {
      hide BankValid, LaidOut, Cursor, HeaderWord, WordAt, Tidy, ImagesIn;
      EntriesAreWords(flash.Bank(b), s, entries, images, bankSize);
      for i := 1 to HEADER_WORDS
        invariant Part() && flash == Put(old(flash), b, flash.Bank(b)) && abused == old(abused) && troubles == old(troubles)
        invariant LaidOut(flash.Bank(b), entries, images) && Blank(flash.Bank(b), 0, 4)
        invariant FieldsWritten(flash.Bank(b), s, entries, i)
        invariant forall w <- dirty :: w.0 == b ==> 1 <= w.1 < i || HEADER_WORDS <= w.1
      {
        ghost var before := flash.Bank(b);
        st := Program(b, i, Le32(HeaderWord(s, entries, i)));
        LayoutBehindHeader(before, flash.Bank(b), entries, images, i);
        MagicStillBlank(before, flash.Bank(b), i);
        if st != Done {
          BlankMagic(flash.Bank(b));
          return;
        }
        FieldWritten(before, flash.Bank(b), s, entries, i);
      }
      ghost var before := flash.Bank(b);
      st := Program(b, 0, Le32(STORE_MAGIC));
      LayoutBehindHeader(before, flash.Bank(b), entries, images, 0);
      MagicWritten(before, flash.Bank(b), s, entries, images);
    }

    /** The carry-over loop of board_persist_save(). */
    method CopySurvivors(src: nat, dst: nat, image: Image)
      returns (r: Outcome, entries: seq<Entry>, cursor: nat, ghost kept: seq<Image>)
      requires Draft(dst, [], []) && src == 1 - dst
      requires BankValid(flash.Bank(src)) && Tidy(flash.Bank(src))
      modifies this
      ensures Part() && flash == Put(old(flash), dst, flash.Bank(dst)) && abused == old(abused)
      ensures troubles == old(troubles) + (if r == Stored || r == Refused then 0 else 1)
      ensures !BankValid(flash.Bank(dst))
      ensures kept <= Survivors(ImagesIn(old(flash.Bank(src))), image)
      ensures r == Stored ==> Draft(dst, entries, kept) && cursor == Cursor(kept) && |entries| == |kept|
      ensures r == Stored ==> kept == Survivors(ImagesIn(old(flash.Bank(src))), image)
      ensures r == Refused ==> !Fits(bankSize, Saved(ImagesIn(old(flash.Bank(src))), image))
    {
      hide BankValid, LaidOut, Cursor, Survivors, Tidy, WordAt, Fits, SameName, SameText, ImageOf, EntryAt, ImagesIn, Crc32.Value, Align8;
      ghost var bank := flash.Bank(src);
      TidyCount(bank);
      ghost var all := ImagesIn(bank);
      BlankMagic(flash.Bank(dst));
      entries, cursor, kept := [], HEADER_BYTES, [];
      EmptyStart(all, image);
      for i := 0 to Count(flash.Bank(src))
        invariant flash == Put(old(flash), dst, flash.Bank(dst)) && flash.Bank(src) == bank
        invariant abused == old(abused) && troubles == old(troubles)
        invariant Draft(dst, entries, kept) && cursor == Cursor(kept)
        invariant !BankValid(flash.Bank(dst))
        invariant |entries| == |kept| && kept == Survivors(all[..i], image)
      {
        SurvivorsStep(all, image, i);
        TidyEntry(bank, i);
        var e := EntryAt(flash.Bank(src), i);
        var oldImage := ImageOf(flash.Bank(src), e);
        SameNameIsSameText(oldImage, image);
        if SameName(oldImage, image) {
          continue;
        }
        if |entries| >= MAX_ENTRIES || cursor + e.len > bankSize {
          DoesNotFit(bankSize, all, image, i);
          return Refused, entries, cursor, kept;
        }
        var st := Append(dst, cursor, oldImage, entries, kept);
        if st != Done {
          return Interrupted(st), entries, cursor, kept;
        }
        entries := entries + [Entry(cursor, e.len, e.crc)];
        cursor := Align8(cursor + e.len);
        kept := kept + [oldImage];
      }
      assert all[..|all|] == all;
      r := Stored;
    }

    /** board_persist_save() */
    method Save(image: Image) returns (r: Outcome)
      requires Valid() && |image| + HEADER_BYTES < WORD_LIMIT
      modifies this
      ensures Valid() && abused == old(abused)
      ensures SaveOutcome(old(flash), image, r, flash, bankSize)
      ensures troubles >= old(troubles) && (r == FlashError || r == Cut ==> troubles > old(troubles))
      ensures troubles == old(troubles) ==> (r == Stored <==> image != [] && Fits(bankSize, Saved(Report(old(flash)), image)))
      ensures r == Stored ==> image != [] && Fits(bankSize, Saved(Report(old(flash)), image))
      ensures r == Refused ==> image == [] || !Fits(bankSize, Saved(Report(old(flash)), image))
    {
      hide BankValid, LaidOut, Survivors, Tidy, WordAt, ImagesIn, Fits, Cursor, Sound, Report;
      SoundParts(flash, bankSize);
      if |image| == 0 || |image| + HEADER_BYTES > bankSize {
        if image != [] {
          TooBigToFit(bankSize, Report(flash), image);
        }
        return Refused;
      }
      var src := ActiveBank(flash.b0, flash.b1);
      var dst := if src == 0 then 1 else 0;
      var s := 1;
      if src >= 0 {
        s := (Seq(flash.Bank(src)) + 1) % WORD_LIMIT;
      }
      var st, _ := EraseBank(dst);
      OtherBankUntouched(old(flash), flash, dst, bankSize);
      if st != Done {
        return Interrupted(st);
      }
      WipedInvalid(old(flash.Bank(dst)), bankSize);
      BlankMagic(flash.Bank(dst));
      r := Fill(dst, s, image);
      if !BankValid(flash.Bank(dst)) {
        OtherBankUntouched(old(flash), flash, dst, bankSize);
        return;
      }
      NewBankWins(old(flash), flash, dst, bankSize);
      if r == Stored && src >= 0 {
        r := DropOld(src);
        NewBankWins(old(flash), flash, dst, bankSize);
      }
    }

    /** The old bank may go: only a cut is noticed here, a failed erase is not. */
    method DropOld(src: nat) returns (r: Outcome)
      requires Part() && src < 2
      modifies this
      ensures Part() && abused == old(abused) && flash == Put(old(flash), src, flash.Bank(src))
      ensures flash == old(flash) || !BankValid(flash.Bank(src))
      ensures troubles >= old(troubles) && (r == Stored || (r == Cut && troubles > old(troubles)))
    {
      hide BankValid, WipeTo;
      var st, _ := EraseBank(src);
      r := if st == PowerCut then Cut else Stored;
    }

    /** Everything between the two erases: copy, append, header. */
    method Fill(dst: nat, s: nat, image: Image) returns (r: Outcome)
      requires Valid() && dst < 2 && s < WORD_LIMIT
      requires image != [] && |image| + HEADER_BYTES <= bankSize
      requires Blank(flash.Bank(dst), 0, bankSize) && Clean(dst, 0, bankSize)
      modifies this
      ensures flash == Put(old(flash), dst, flash.Bank(dst)) && abused == old(abused)
      ensures troubles == old(troubles) + (if r == Stored || r == Refused then 0 else 1)
      ensures AllOrNothing(dst, s, Saved(Report(old(flash)), image))
      ensures r == Stored ==> BankValid(flash.Bank(dst)) && Fits(bankSize, Saved(Report(old(flash)), image))
      ensures r == Refused ==> !BankValid(flash.Bank(dst)) && !Fits(bankSize, Saved(Report(old(flash)), image))
    {
      hide BankValid, LaidOut, Survivors, Tidy, WordAt, ImagesIn, Fits, Cursor, Sound, Report;
      BlankMagic(flash.Bank(dst));
      ReportOfOther(flash, dst, bankSize);
      EmptyDraft(flash.Bank(dst), bankSize);
      var src := ActiveBank(flash.b0, flash.b1);
      var entries, cursor := [], HEADER_BYTES;
      ghost var kept := [];
      if src >= 0 {
        r, entries, cursor, kept := CopySurvivors(src, dst, image);
        if r != Stored {
          return;
        }
      }
      assert Survivors(Report(old(flash)), image) == kept;
      if |entries| >= MAX_ENTRIES || cursor + |image| > bankSize {
        NoRoomAtEnd(bankSize, Report(old(flash)), image);
        return Refused;
      }
      var st := Append(dst, cursor, image, entries, kept);
      if st != Done {
        return Interrupted(st);
      }
      entries := entries + [Entry(cursor, |image|, Crc32.Value(image))];
      st := WriteHeader(dst, s, entries, kept + [image]);
      r := if st == Done then Stored else Interrupted(st);
    }
  }

  lemma SoundParts(f: Flash, size: nat)
    requires Sound(f, size)
    ensures HEADER_BYTES <= size < WORD_LIMIT && |f.b0| == size && |f.b1| == size
    ensures forall image: Image, r: Outcome :: r == Refused ==> SaveOutcome(f, image, r, f, size)
  {
  }

  /** With one bank invalid, the report is the other bank's, if that one is valid. */
  lemma ReportOfOther(f: Flash, dst: nat, size: nat)
    requires Sound(f, size) && dst < 2 && !BankValid(f.Bank(dst))
    ensures var src := ActiveBank(f.b0, f.b1);
            if src < 0 then Report(f) == [] && forall image: Image :: Survivors(Report(f), image) == []
            else src == 1 - dst && BankValid(f.Bank(src)) && Tidy(f.Bank(src)) && Report(f) == ImagesIn(f.Bank(src))
  {
    hide BankValid, Tidy, ImagesIn, WordAt;
  }

  lemma EmptyDraft(bank: seq<Byte>, size: nat)
    ensures LaidOut(bank, [], []) && Fits(size, []) && Cursor([]) == HEADER_BYTES
  {
  }

  lemma NoRoomAtEnd(size: nat, all: seq<Image>, image: Image)
    requires var kept := Survivors(all, image); |kept| >= MAX_ENTRIES || Cursor(kept) + |image| > size
    ensures !Fits(size, Saved(all, image))
  {
    hide Cursor;
    var kept := Survivors(all, image);
    assert Saved(all, image)[..|kept|] == kept;
  }

  lemma TooBigToFit(size: nat, images: seq<Image>, image: Image)
    requires |image| + HEADER_BYTES > size
    ensures !Fits(size, Saved(images, image))
  {
    var kept := Survivors(images, image);
    assert Saved(images, image)[..|kept|] == kept;
  }

  lemma EmptyStart(all: seq<Image>, image: Image)
    ensures Survivors(all[..0], image) == [] && Cursor([]) == HEADER_BYTES
    ensures [] <= Survivors(all, image)
  {
  }

  lemma SurvivorsStep(all: seq<Image>, image: Image, i: nat)
    requires i < |all|
    ensures Survivors(all[..i + 1], image) == Survivors(all[..i], image) + (if SameText(all[i], image) then [] else [all[i]])
    ensures Survivors(all[..i], image) <= Survivors(all, image)
  {
    hide SameText;
    assert all[..i + 1][..i] == all[..i];
    SurvivorsPrefix(all, image, i);
  }

  lemma {:induction false} SurvivorsPrefix(all: seq<Image>, image: Image, i: nat)
    requires i <= |all|
    ensures Survivors(all[..i], image) <= Survivors(all, image)
    decreases |all| - i
  {
    hide SameText;
    if i < |all| {
      assert all[..i + 1][..i] == all[..i];
      SurvivorsPrefix(all, image, i + 1);
    } else {
      assert all[..i] == all;
    }
  }

  lemma TidyCount(bank: seq<Byte>)
    requires HEADER_BYTES <= |bank| && Tidy(bank)
    ensures Count(bank) <= MAX_ENTRIES
  {
    hide LaidOut, WordAt;
  }

  /** What a tidy bank's entry gives the copy loop. */
  lemma TidyEntry(bank: seq<Byte>, i: nat)
    requires HEADER_BYTES <= |bank| && BankValid(bank) && Tidy(bank) && i < Count(bank)
    ensures i < MAX_ENTRIES
    ensures var e := EntryAt(bank, i); var image := ImageOf(bank, e);
            image == ImagesIn(bank)[i] && image != [] && |image| == e.len && Crc32.Value(image) == e.crc
  {
    hide Cursor, WordAt, Crc32.Value;
    var entries := seq(Count(bank), j requires 0 <= j < Count(bank) => EntryAt(bank, j));
    assert Placed(bank, entries[i], Cursor(ImagesIn(bank)[..i]), ImagesIn(bank)[i]);
  }

  lemma DoesNotFit(size: nat, all: seq<Image>, image: Image, i: nat)
    requires i < |all| && !SameText(all[i], image)
    requires var kept := Survivors(all[..i], image); |kept| >= MAX_ENTRIES || Cursor(kept) + |all[i]| > size
    ensures !Fits(size, Saved(all, image))
  {
    hide SameText, Cursor;
    SurvivorsStep(all, image, i);
    SurvivorsPrefix(all, image, i + 1);
    var kept, whole := Survivors(all[..i], image), Saved(all, image);
    assert whole[..|kept|] == kept && whole[|kept|] == all[i];
  }

  /** Header words 1 up to `n` say what they should. */
  ghost predicate FieldsWritten(bank: seq<Byte>, s: nat, entries: seq<Entry>, n: nat) {
    HEADER_BYTES <= |bank| && forall w :: 1 <= w < n && w < HEADER_WORDS ==> WordAt(bank, w) == HeaderWord(s, entries, w)
  }

  lemma EntriesAreWords(bank: seq<Byte>, s: nat, entries: seq<Entry>, images: seq<Image>, size: nat)
    requires LaidOut(bank, entries, images) && |bank| == size < WORD_LIMIT && s < WORD_LIMIT
    requires |images| <= MAX_ENTRIES
    ensures forall w :: 0 <= w < HEADER_WORDS ==> HeaderWord(s, entries, w) < WORD_LIMIT
  {
    hide Cursor, Crc32.Value;
    assert forall i :: 0 <= i < |images| ==> Placed(bank, entries[i], Cursor(images[..i]), images[i]);
  }

  lemma LayoutBehindHeader(before: seq<Byte>, after: seq<Byte>, entries: seq<Entry>, images: seq<Image>, word: nat)
    requires LaidOut(before, entries, images) && |before| == |after| && Cursor(images) <= |before|
    requires word < HEADER_WORDS && before[4 * word + 4..] == after[4 * word + 4..]
    ensures LaidOut(after, entries, images)
  {
    hide LaidOut, Cursor;
    var at := 4 * word + 4;
    assert before[HEADER_BYTES..Cursor(images)] == before[at..][HEADER_BYTES - at..Cursor(images) - at];
    assert after[HEADER_BYTES..Cursor(images)] == after[at..][HEADER_BYTES - at..Cursor(images) - at];
    LaidOutKept(before, after, entries, images);
  }

  lemma MagicStillBlank(before: seq<Byte>, after: seq<Byte>, word: nat)
    requires word >= 1 && 4 * word <= |before| && 4 * word <= |after| && before[..4 * word] == after[..4 * word]
    requires Blank(before, 0, 4)
    ensures Blank(after, 0, 4)
  {
    assert forall i :: 0 <= i < 4 ==> before[i] == before[..4 * word][i] && after[i] == after[..4 * word][i];
  }

  lemma FieldWritten(before: seq<Byte>, after: seq<Byte>, s: nat, entries: seq<Entry>, i: nat)
    requires FieldsWritten(before, s, entries, i) && 1 <= i < HEADER_WORDS && |before| == |after|
    requires before[..4 * i] == after[..4 * i] && HeaderWord(s, entries, i) < WORD_LIMIT
    requires after[4 * i..4 * i + 4] == Le32(HeaderWord(s, entries, i))
    ensures FieldsWritten(after, s, entries, i + 1)
  {
    hide HeaderWord, FromLe32;
    forall w | 1 <= w < i
      ensures WordAt(after, w) == WordAt(before, w)
    {
      assert after[4 * w..4 * w + 4] == after[..4 * i][4 * w..4 * w + 4];
      assert before[4 * w..4 * w + 4] == before[..4 * i][4 * w..4 * w + 4];
    }
  }

  /** Whatever ends up in the magic word, the bank is complete or it is not valid. */
  lemma MagicWritten(before: seq<Byte>, after: seq<Byte>, s: nat, entries: seq<Entry>, images: seq<Image>)
    requires FieldsWritten(before, s, entries, HEADER_WORDS) && |before| == |after| < WORD_LIMIT
    requires before[4..] == after[4..]
    requires LaidOut(after, entries, images) && 0 < |images| <= MAX_ENTRIES
    ensures BankValid(after) ==> Tidy(after) && ImagesIn(after) == images && Seq(after) == s
    ensures after[0..4] == Le32(STORE_MAGIC) ==> BankValid(after)
  {
    hide LaidOut, HeaderWord, FromLe32, Tidy, ImagesIn;
    forall w | 1 <= w < HEADER_WORDS
      ensures WordAt(after, w) == HeaderWord(s, entries, w)
    {
      assert after[4 * w..4 * w + 4] == after[4..][4 * w - 4..4 * w];
      assert before[4 * w..4 * w + 4] == before[4..][4 * w - 4..4 * w];
    }
    if WordAt(after, 0) == STORE_MAGIC {
      MagicIsHeaderWord(s, entries);
      CommittedBank(after, s, entries, images);
    }
  }

  lemma MagicIsHeaderWord(s: nat, entries: seq<Entry>)
    ensures HeaderWord(s, entries, 0) == STORE_MAGIC
  {
  }

  lemma WordAligned(n: nat)
    requires n % 8 == 0
    ensures n % 4 == 0
  {
  }

  lemma CleanInside(dirty: set<(nat, nat)>, b: nat, lo: nat, hi: nat, mid: nat)
    requires forall w <- dirty :: w.0 == b ==> 4 * w.1 + 4 <= lo || hi <= 4 * w.1
    requires mid <= hi
    ensures forall w <- dirty :: w.0 == b ==> 4 * w.1 + 4 <= lo || mid <= 4 * w.1
  {
  }

  lemma HeaderStillBlank(before: seq<Byte>, after: seq<Byte>, cursor: nat)
    requires SamePrefix(before, after, cursor) && HEADER_BYTES <= cursor && Blank(before, 0, HEADER_BYTES)
    ensures Blank(after, 0, HEADER_BYTES)
  {
    KeptBefore(before, after, cursor);
  }

  lemma KeptBefore(a: seq<Byte>, b: seq<Byte>, n: nat)
    requires SamePrefix(a, b, n)
    ensures forall i :: 0 <= i < n ==> a[i] == b[i]
  {
    assert forall i :: 0 <= i < n ==> a[i] == a[..n][i] && b[i] == b[..n][i];
  }

  lemma StillCleanAround(before: set<(nat, nat)>, after: set<(nat, nat)>, b: nat, cursor: nat, end: nat, size: nat)
    requires forall w <- before :: w.0 == b ==> 4 * w.1 + 4 <= 0 || HEADER_BYTES <= 4 * w.1
    requires forall w <- before :: w.0 == b ==> 4 * w.1 + 4 <= cursor || size <= 4 * w.1
    requires DirtyWithin(before, after, b, cursor, end) && HEADER_BYTES <= cursor <= end
    ensures forall w <- after :: w.0 == b ==> 4 * w.1 + 4 <= 0 || HEADER_BYTES <= 4 * w.1
    ensures forall w <- after :: w.0 == b ==> 4 * w.1 + 4 <= Align8(end) || size <= 4 * w.1
  {
  }

  lemma Align8Within(n: nat, size: nat)
    requires n <= size && size % 8 == 0
    ensures Align8(n) <= size
  {
  }

  lemma FitsMore(size: nat, images: seq<Image>, image: Image)
    requires Fits(size, images) && |images| < MAX_ENTRIES && Cursor(images) + |image| <= size && size % 8 == 0
    ensures Fits(size, images + [image]) && Cursor(images + [image]) <= size
  {
    hide Cursor;
    CursorStep(images, image);
    Align8Within(Cursor(images) + |image|, size);
    var more := images + [image];
    forall k | 0 <= k < |more|
      ensures Cursor(more[..k]) + |more[k]| <= size
    {
      assert more[..k] == images[..k];
      assert images[..|images|] == images;
    }
  }

  ghost predicate SamePrefix(a: seq<Byte>, b: seq<Byte>, n: nat) {
    n <= |a| && n <= |b| && a[..n] == b[..n]
  }

  lemma SamePrefixSelf(a: seq<Byte>, n: nat)
    requires n <= |a|
    ensures SamePrefix(a, a, n)
  {
  }

  /** How many bytes a copy of `n` programs. */
  function WordsOf(n: nat): nat {
    (n + 3) / 4 * 4
  }

  ghost predicate SameSuffix(a: seq<Byte>, b: seq<Byte>, n: nat) {
    n <= |a| == |b| && a[n..] == b[n..]
  }

  lemma ShorterSuffix(a: seq<Byte>, b: seq<Byte>, n: nat, m: nat)
    requires (a == b || SameSuffix(a, b, n)) && n <= m <= |a|
    ensures SameSuffix(a, b, m)
  {
    assert a[m..] == a[n..][m - n..];
  }

  lemma SuffixKept(a: seq<Byte>, b: seq<Byte>, c: seq<Byte>, n: nat, m: nat)
    requires SameSuffix(a, b, n) && n <= m <= |b| == |c| && b[m..] == c[m..]
    ensures SameSuffix(a, c, m)
  {
    ShorterSuffix(a, b, n, m);
  }

  lemma WholeWords(at: nat, i: nat, n: nat, size: nat)
    requires at % 4 == 0 && i % 4 == 0 && i < n && at + n <= size && size % 8 == 0
    ensures i + 4 <= WordsOf(n) && at + WordsOf(n) <= size
  {
    Fours(at / 4, i / 4, size / 8, (n + 3) / 4, n);
  }

  lemma Fours(a: nat, c: nat, d: nat, q: nat, n: nat)
    requires 4 * c < n && 4 * a + n <= 8 * d && 4 * q <= n + 3 < 4 * q + 4
    ensures 4 * c + 4 <= 4 * q && 4 * a + 4 * q <= 8 * d
  {
    assert n <= 4 * q && c < q;
    assert 4 * (a + q) <= 8 * d + 3;
    assert a + q <= 2 * d;
  }

  lemma LastWord(i: nat, n: nat)
    requires i % 4 == 0 && n <= i < n + 4
    ensures i == WordsOf(n)
  {
    assert i == 4 * (i / 4);
  }

  lemma PrefixKept(a: seq<Byte>, b: seq<Byte>, c: seq<Byte>, n: nat, m: nat)
    requires SamePrefix(a, b, n) && n <= m <= |b| && m <= |c| && b[..m] == c[..m]
    ensures SamePrefix(a, c, n)
  {
    assert b[..n] == b[..m][..n] == c[..m][..n] == c[..n];
  }

  /** Words dirtied since then all lie in a byte range of one bank. */
  ghost predicate DirtyWithin(before: set<(nat, nat)>, after: set<(nat, nat)>, b: nat, lo: nat, hi: nat) {
    forall w <- after :: w in before || (w.0 == b && lo <= 4 * w.1 < hi)
  }

  lemma NothingDirtied(dirty: set<(nat, nat)>, b: nat, at: nat)
    ensures DirtyWithin(dirty, dirty, b, at, at + 0)
  {
  }

  lemma OneMoreDirty(before: set<(nat, nat)>, dirty: set<(nat, nat)>, b: nat, lo: nat, hi: nat, word: nat)
    requires DirtyWithin(before, dirty, b, lo, hi) && lo <= 4 * word == hi
    ensures DirtyWithin(before, dirty + {(b, word)}, b, lo, hi + 4)
  {
  }

  lemma WiderDirty(before: set<(nat, nat)>, dirty: set<(nat, nat)>, b: nat, lo: nat, hi: nat, end: nat)
    requires DirtyWithin(before, dirty, b, lo, hi) && hi < end + 4 && hi % 4 == 0
    ensures DirtyWithin(before, dirty, b, lo, end)
  {
    forall w <- dirty | w !in before
      ensures 4 * w.1 < end
    {
      assert 4 * w.1 <= hi - 4;
    }
  }

  lemma StillClean(before: set<(nat, nat)>, dirty: set<(nat, nat)>, b: nat, at: nat, i: nat, n: nat, word: nat)
    requires DirtyWithin(before, dirty, b, at, at + i) && i < n && 4 * word == at + i
    requires forall w <- before :: w.0 == b ==> 4 * w.1 + 4 <= at || at + n <= 4 * w.1
    ensures (b, word) !in dirty
  {
  }

  ghost predicate Written(bank: seq<Byte>, at: nat, data: seq<Byte>, i: nat) {
    forall j :: 0 <= j < |data| && j < i ==> at + j < |bank| && bank[at + j] == data[j]
  }

  lemma NothingWritten(bank: seq<Byte>, at: nat, data: seq<Byte>)
    ensures Written(bank, at, data, 0)
  {
  }

  lemma NextWord(at: nat, i: nat, n: nat, size: nat)
    requires at % 4 == 0 && i % 4 == 0 && i < n && at + n <= size && size % 8 == 0
    ensures 4 * ((at + i) / 4) == at + i && at + i + 4 <= size && (i + 4) % 4 == 0
  {
  }

  lemma WordWritten(before: seq<Byte>, after: seq<Byte>, at: nat, data: seq<Byte>, i: nat, value: seq<Byte>)
    requires Written(before, at, data, i) && i < |data| && at + i + 4 <= |before| == |after|
    requires before[..at + i] == after[..at + i] && |value| == 4 && after[at + i..at + i + 4] == value
    requires forall j :: 0 <= j < 4 && i + j < |data| ==> value[j] == data[i + j]
    ensures Written(after, at, data, i + 4)
  {
    forall j | 0 <= j < |data| && j < i + 4
      ensures after[at + j] == data[j]
    {
      if j < i {
        assert after[at + j] == after[..at + i][at + j] == before[..at + i][at + j];
      } else {
        assert after[at + j] == after[at + i..at + i + 4][j - i] == value[j - i];
      }
    }
  }

  lemma AllWritten(bank: seq<Byte>, at: nat, data: seq<Byte>, i: nat)
    requires Written(bank, at, data, i) && i >= |data| && at + |data| <= |bank|
    ensures bank[at..at + |data|] == data
  {
  }

  ghost predicate Sectors(bytes: nat, size: nat) {
    size > 0 && bytes % size == 0
  }

  lemma WipeNothing(f: Flash, b: nat)
    requires b < 2
    ensures f == Put(f, b, WipeTo(f.Bank(b), 0))
  {
    assert WipeTo(f.Bank(b), 0) == f.Bank(b);
  }

  lemma WipeNone(bank: seq<Byte>)
    ensures WipeTo(bank, 0) == bank
  {
  }

  lemma MoreSectors(a: nat, b: nat, size: nat)
    requires Sectors(a, size) && Sectors(b, size)
    ensures Sectors(a + b, size)
  {
    Distribute(a / size, b / size, size);
    DivUnique(a + b, size, a / size + b / size, 0);
  }

  lemma NoSectors(size: nat)
    requires size > 0
    ensures Sectors(0, size)
  {
  }

  lemma NextSector(off: nat, end: nat, size: nat)
    requires Sectors(off, size) && Sectors(end, size) && off < end
    ensures Sectors(off + size, size) && off + size <= end
  {
    var k, n := off / size, end / size;
    assert off == k * size && end == n * size;
    if k >= n {
      MulMonotone(n, k, size);
    }
    MulMonotone(k + 1, n, size);
    OneMore(k, size);
    DivUnique(off + size, size, k + 1, 0);
  }
}
