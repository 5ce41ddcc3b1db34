/**
 Why a half-done save never shows: facts about banks as byte sequences.
 */
module FlashLayout {
  import opened Bytes
  import opened FlashFormat
  import Crc32

  /** Each image lies where its entry says, packed behind the header in order. */
  ghost predicate LaidOut(bank: seq<Byte>, entries: seq<Entry>, images: seq<Image>) {
    && |entries| == |images|
    && forall i :: 0 <= i < |images| ==> Placed(bank, entries[i], Cursor(images[..i]), images[i])
  }

  ghost predicate Placed(bank: seq<Byte>, e: Entry, at: nat, image: Image) {
    && e.off == at && e.len == |image| > 0 && at + |image| <= |bank|
    && bank[at..at + |image|] == image
    && e.crc == Crc32.Value(image)
  }

  /** A valid bank's images tile it in order: no overlap, nothing past the end. */
  ghost predicate Tidy(bank: seq<Byte>)
    requires HEADER_BYTES <= |bank|
  {
    && Count(bank) <= MAX_ENTRIES
    && LaidOut(bank, seq(Count(bank), i requires 0 <= i < Count(bank) => EntryAt(bank, i)), ImagesIn(bank))
  }

  ghost predicate SeqAdjacent(a: nat, b: nat) {
    (a + 1) % WORD_LIMIT == b || (b + 1) % WORD_LIMIT == a
  }

  /** The invariant of the store, over every reboot. */
  ghost predicate Sound(f: Flash, bankSize: nat) {
    && HEADER_BYTES <= bankSize < WORD_LIMIT && bankSize % 8 == 0
    && |f.b0| == bankSize && |f.b1| == bankSize
    && (BankValid(f.b0) ==> Tidy(f.b0))
    && (BankValid(f.b1) ==> Tidy(f.b1))
    && (BankValid(f.b0) && BankValid(f.b1) ==> SeqAdjacent(Seq(f.b0), Seq(f.b1)))
  }

  function Put(f: Flash, i: nat, bank: seq<Byte>): Flash {
    if i == 0 then f.(b0 := bank) else f.(b1 := bank)
  }

  ghost predicate Blank(bank: seq<Byte>, lo: nat, hi: nat)
    requires lo <= hi <= |bank|
  {
    forall i :: lo <= i < hi ==> bank[i] == 255
  }

  /** A bank whose first `n` bytes have been erased. */
  function WipeTo(bank: seq<Byte>, n: nat): (r: seq<Byte>)
    requires n <= |bank|
    ensures |r| == |bank|
  {
    seq(n, _ => 255) + bank[n..]
  }

  lemma WipedInvalid(bank: seq<Byte>, n: nat)
    requires HEADER_BYTES <= |bank| && n <= |bank| && (n == 0 || n >= 4)
    ensures WipeTo(bank, n) == bank || !BankValid(WipeTo(bank, n))
    ensures Blank(WipeTo(bank, n), 0, n)
  {
    hide BankValid;
    if n >= 4 {
      BlankMagic(WipeTo(bank, n));
    }
  }

  lemma BlankMagic(bank: seq<Byte>)
    requires HEADER_BYTES <= |bank| && Blank(bank, 0, 4)
    ensures !BankValid(bank)
  {
    assert bank[0..4] == [255, 255, 255, 255];
  }

  /** Nothing a save does to the bank it is filling shows until that bank is valid. */
  lemma OtherBankUntouched(f: Flash, g: Flash, dst: nat, bankSize: nat)
    requires Sound(f, bankSize) && dst < 2 && ActiveBank(f.b0, f.b1) != dst
    requires g == Put(f, dst, g.Bank(dst)) && |g.Bank(dst)| == bankSize
    requires g.Bank(dst) == f.Bank(dst) || !BankValid(g.Bank(dst))
    ensures Sound(g, bankSize) && Report(g) == Report(f)
  {
    hide BankValid, Tidy, ImagesIn, WordAt;
  }

  /** Once the new bank is valid it is the one reported, whatever becomes of the old. */
  lemma NewBankWins(f: Flash, g: Flash, dst: nat, bankSize: nat)
    requires Sound(f, bankSize) && dst < 2 && ActiveBank(f.b0, f.b1) != dst
    requires |g.b0| == bankSize && |g.b1| == bankSize
    requires BankValid(g.Bank(dst)) && Tidy(g.Bank(dst))
    requires ActiveBank(f.b0, f.b1) >= 0 ==> Seq(g.Bank(dst)) == (Seq(f.Bank(1 - dst)) + 1) % WORD_LIMIT
    requires g.Bank(1 - dst) == f.Bank(1 - dst) || !BankValid(g.Bank(1 - dst))
    ensures Sound(g, bankSize) && Report(g) == ImagesIn(g.Bank(dst))
  {
    hide BankValid, Tidy, ImagesIn, WordAt;
    if dst == 0 {
      assert g.b1 == f.b1 || !BankValid(g.b1);
    } else {
      assert g.b0 == f.b0 || !BankValid(g.b0);
    }
  }

  lemma CursorStep(images: seq<Image>, image: Image)
    ensures Cursor(images + [image]) == Align8(Cursor(images) + |image|)
  {
    assert (images + [image])[..|images|] == images;
  }

  lemma {:induction false} CursorMonotone(images: seq<Image>, k: nat)
    requires k <= |images|
    ensures Cursor(images[..k]) <= Cursor(images)
    decreases |images| - k
  {
    if k < |images| {
      CursorMonotone(images, k + 1);
      assert images[..k + 1] == images[..k] + [images[k]];
      CursorStep(images[..k], images[k]);
    } else {
      assert images[..k] == images;
    }
  }

  lemma SliceKept<T>(a: seq<T>, b: seq<T>, from: nat, to: nat, lo: nat, hi: nat)
    requires from <= lo <= hi <= to <= |a| && |a| == |b| && a[from..to] == b[from..to]
    ensures a[lo..hi] == b[lo..hi]
  {
    forall i | lo <= i < hi
      ensures a[i] == b[i]
    {
      assert a[i] == a[from..to][i - from] && b[i] == b[from..to][i - from];
    }
  }

  /** What was laid out stays laid out under writes at or past the cursor. */
  lemma LaidOutKept(before: seq<Byte>, after: seq<Byte>, entries: seq<Entry>, images: seq<Image>)
    requires LaidOut(before, entries, images) && |before| == |after|
    requires Cursor(images) <= |before| && before[HEADER_BYTES..Cursor(images)] == after[HEADER_BYTES..Cursor(images)]
    ensures LaidOut(after, entries, images)
  {
    hide Crc32.Value, Cursor;
    forall i | 0 <= i < |images|
      ensures Placed(after, entries[i], Cursor(images[..i]), images[i])
    {
      CursorMonotone(images, i + 1);
      assert images[..i + 1] == images[..i] + [images[i]];
      CursorStep(images[..i], images[i]);
      var lo, hi, end := Cursor(images[..i]), Cursor(images[..i]) + |images[i]|, Cursor(images);
      assert Placed(before, entries[i], lo, images[i]);
      SliceKept(before, after, HEADER_BYTES, end, lo, hi);
    }
  }

  lemma LaidOutMore(bank: seq<Byte>, entries: seq<Entry>, images: seq<Image>, image: Image)
    requires LaidOut(bank, entries, images) && image != []
    requires Cursor(images) + |image| <= |bank|
    requires bank[Cursor(images)..Cursor(images) + |image|] == image
    ensures LaidOut(bank, entries + [Entry(Cursor(images), |image|, Crc32.Value(image))], images + [image])
  {
    hide Crc32.Value, Cursor;
    var entries' := entries + [Entry(Cursor(images), |image|, Crc32.Value(image))];
    var images' := images + [image];
    forall i | 0 <= i < |images'|
      ensures Placed(bank, entries'[i], Cursor(images'[..i]), images'[i])
    {
      if i < |images| {
        assert images'[..i] == images[..i];
      } else {
        assert images'[..i] == images;
      }
    }
  }

  /** The 32-bit words of store_header_t as save() fills it, the magic included. */
  function HeaderWord(s: nat, entries: seq<Entry>, word: nat): nat {
    if word == 0 then STORE_MAGIC
    else if word == 1 then s
    else if word == 2 then |entries|
    else if word == 3 then 0
    else
      var i, field := (word - 4) / 4, (word - 4) % 4;
      if i >= |entries| then 0
      else if field == 0 then entries[i].off
      else if field == 1 then entries[i].len
      else if field == 2 then entries[i].crc
      else 0
  }

  ghost predicate HeaderWritten(bank: seq<Byte>, s: nat, entries: seq<Entry>)
    requires HEADER_BYTES <= |bank|
  {
    forall w :: 0 <= w < HEADER_WORDS ==> WordAt(bank, w) == HeaderWord(s, entries, w)
  }

  lemma EntryDecoded(bank: seq<Byte>, s: nat, entries: seq<Entry>, i: nat)
    requires HEADER_BYTES <= |bank| && HeaderWritten(bank, s, entries)
    requires i < |entries| <= MAX_ENTRIES
    ensures EntryAt(bank, i) == entries[i]
  {
    hide WordAt;
    assert WordAt(bank, 4 + 4 * i) == HeaderWord(s, entries, 4 + 4 * i);
    assert WordAt(bank, 5 + 4 * i) == HeaderWord(s, entries, 5 + 4 * i);
    assert WordAt(bank, 6 + 4 * i) == HeaderWord(s, entries, 6 + 4 * i);
  }

  lemma EntryCommitted(bank: seq<Byte>, s: nat, entries: seq<Entry>, images: seq<Image>, i: nat)
    requires HEADER_BYTES <= |bank| < WORD_LIMIT && i < |images| <= MAX_ENTRIES
    requires LaidOut(bank, entries, images) && HeaderWritten(bank, s, entries)
    ensures EntryAt(bank, i) == entries[i] && EntryValid(bank, entries[i]) && ImageOf(bank, entries[i]) == images[i]
  {
    hide WordAt, Crc32.Value, Cursor;
    EntryDecoded(bank, s, entries, i);
    assert Placed(bank, entries[i], Cursor(images[..i]), images[i]);
  }

  /** A complete header over a complete layout reads back as exactly those images. */
  lemma CommittedBank(bank: seq<Byte>, s: nat, entries: seq<Entry>, images: seq<Image>)
    requires HEADER_BYTES <= |bank| < WORD_LIMIT && 0 < |images| <= MAX_ENTRIES
    requires LaidOut(bank, entries, images) && HeaderWritten(bank, s, entries)
    ensures BankValid(bank) && Tidy(bank) && ImagesIn(bank) == images && Seq(bank) == s
  {
    hide WordAt, Crc32.Value, Cursor, EntryAt, EntryValid, ImageOf, Placed;
    assert WordAt(bank, 0) == STORE_MAGIC && WordAt(bank, 1) == s && WordAt(bank, 2) == |entries|;
    forall i | 0 <= i < |images|
      ensures EntryAt(bank, i) == entries[i] && EntryValid(bank, entries[i]) && ImageOf(bank, entries[i]) == images[i]
    {
      EntryCommitted(bank, s, entries, images, i);
    }
    assert ImagesIn(bank) == images;
    assert seq(Count(bank), i requires 0 <= i < Count(bank) => EntryAt(bank, i)) == entries;
  }
}
