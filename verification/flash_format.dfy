/**
 What a bank of the flash store says: mdl/tests/hil/common/board_persist.c, read side.

 A bank is its bytes. Everything here is a function of the bytes, as the firmware's own
 readers are: there is no other state, which is why a power cut cannot lose any.
 */
module FlashFormat {
  import opened Bytes
  import Crc32

  type Image = seq<Byte>

  const STORE_MAGIC: nat := 0x4D44_4C53
  const MAX_ENTRIES: nat := 4
  const HEADER_BYTES: nat := 80
  const HEADER_WORDS: nat := 20

  /** store_entry_t, without its padding word. */
  datatype Entry = Entry(off: nat, len: nat, crc: nat)

  function WordAt(bank: seq<Byte>, word: nat): (v: nat)
    requires 4 * word + 4 <= |bank|
    ensures v < WORD_LIMIT
  {
    FromLe32(bank[4 * word..4 * word + 4])
  }

  function EntryAt(bank: seq<Byte>, i: nat): (e: Entry)
    requires HEADER_BYTES <= |bank| && i < MAX_ENTRIES
    ensures e.off < WORD_LIMIT && e.len < WORD_LIMIT
  {
    Entry(WordAt(bank, 4 + 4 * i), WordAt(bank, 5 + 4 * i), WordAt(bank, 6 + 4 * i))
  }

  function Magic(bank: seq<Byte>): nat
    requires HEADER_BYTES <= |bank|
  {
    WordAt(bank, 0)
  }

  function Seq(bank: seq<Byte>): (s: nat)
    requires HEADER_BYTES <= |bank|
    ensures s < WORD_LIMIT
  {
    WordAt(bank, 1)
  }

  function Count(bank: seq<Byte>): nat
    requires HEADER_BYTES <= |bank|
  {
    WordAt(bank, 2)
  }

  /** The bytes an entry names; a range that runs past the bank is not modelled as readable. */
  function ImageOf(bank: seq<Byte>, e: Entry): Image {
    if e.off + e.len <= |bank| then bank[e.off..e.off + e.len] else []
  }

  /** The loop body of bank_valid(), with its 32-bit addition. */
  predicate EntryValid(bank: seq<Byte>, e: Entry) {
    && e.len != 0
    && (e.off + e.len) % WORD_LIMIT <= |bank|
    && Crc32.Value(ImageOf(bank, e)) == e.crc
  }

  /** bank_valid() */
  predicate BankValid(bank: seq<Byte>)
    requires HEADER_BYTES <= |bank|
  {
    && Magic(bank) == STORE_MAGIC
    && 0 < Count(bank) <= MAX_ENTRIES
    && forall i :: 0 <= i < Count(bank) ==> EntryValid(bank, EntryAt(bank, i))
  }

  /** Entry `i` of a bank in its bytes: 16 of them, after a header of 16; the image may not be empty. */
  ghost predicate EntryBytesFine(bank: seq<Byte>, i: nat)
    requires |bank| >= 80 && i < 4
  {
    var at := 16 + 16 * i;
    var off, len, crc := FromLe32(bank[at..at + 4]), FromLe32(bank[at + 4..at + 8]), FromLe32(bank[at + 8..at + 12]);
    && len != 0 && (off + len) % 0x1_0000_0000 <= |bank|
    && Crc32.Value(if off + len <= |bank| then bank[off..off + len] else []) == crc
  }

  /** A bank is valid exactly when its first word is "MDLS", its third says one to four, and so many entries hold. */
  lemma BankValidMeans(bank: seq<Byte>)
    requires |bank| >= 80
    ensures BankValid(bank) <==>
            && bank[..4] == [0x53, 0x4C, 0x44, 0x4D]
            && 1 <= FromLe32(bank[8..12]) <= 4
            && forall i :: 0 <= i < FromLe32(bank[8..12]) ==> EntryBytesFine(bank, i)
  {
    hide Crc32.Value;
    assert FromLe32([0x53, 0x4C, 0x44, 0x4D]) == 0x4D44_4C53;
    if Magic(bank) == STORE_MAGIC {
      Le32OfFromLe32(bank[..4]);
      Le32OfFromLe32([0x53, 0x4C, 0x44, 0x4D]);
    }
    hide FromLe32, Le32;
    forall i: nat | i < 4
      ensures EntryBytesFine(bank, i) <==> EntryValid(bank, EntryAt(bank, i))
    {
    }
  }

  /** The header is the first 80 bytes. */
  lemma SameHeader(bank: seq<Byte>, other: seq<Byte>, at: nat, i: nat)
    requires HEADER_BYTES <= at <= |bank| && at <= |other| && bank[..at] == other[..at] && i < MAX_ENTRIES
    ensures EntryAt(bank, i) == EntryAt(other, i) && Count(bank) == Count(other)
  {
    hide FromLe32;
    forall w: nat | 4 * w + 4 <= HEADER_BYTES
      ensures WordAt(bank, w) == WordAt(other, w)
    {
      assert bank[4 * w..4 * w + 4] == bank[..at][4 * w..4 * w + 4] == other[4 * w..4 * w + 4];
    }
  }

  lemma SliceAround(s: seq<Byte>, lo: nat, at: nat, end: nat, hi: nat)
    requires lo <= at <= end <= hi <= |s|
    ensures s[lo..hi] == s[lo..at] + s[at..end] + s[end..hi]
  {
  }

  /** A stored image with up to four consecutive bytes gone bad makes its bank invalid, so it is never reported. */
  lemma DamagedImageRefused(bank: seq<Byte>, damaged: seq<Byte>, i: nat, at: nat, end: nat)
    requires |bank| == |damaged| >= HEADER_BYTES && BankValid(bank) && i < Count(bank)
    requires var e := EntryAt(bank, i); HEADER_BYTES <= e.off <= at <= end <= e.off + e.len <= |bank| && end <= at + 4
    requires damaged[..at] == bank[..at] && damaged[end..] == bank[end..] && damaged[at..end] != bank[at..end]
    ensures !BankValid(damaged)
  {
    hide Crc32.Value, WordAt, EntryAt, Count;
    var e := EntryAt(bank, i);
    SameHeader(bank, damaged, at, i);
    SliceAround(bank, e.off, at, end, e.off + e.len);
    SliceAround(damaged, e.off, at, end, e.off + e.len);
    assert bank[e.off..at] == bank[..at][e.off..] == damaged[e.off..at];
    assert bank[end..e.off + e.len] == bank[end..][..e.off + e.len - end] == damaged[end..e.off + e.len];
    Crc32.FourByteDamageDetected(bank[e.off..at], bank[at..end], damaged[at..end], bank[end..e.off + e.len]);
    assert !EntryValid(damaged, EntryAt(damaged, i));
  }

  /** `(int32_t)(newer - older) > 0` on 32-bit sequence numbers. */
  predicate SeqAfter(newer: nat, older: nat) {
    0 < (newer - older) % WORD_LIMIT < 0x8000_0000
  }

  /** active_bank(): 0, 1, or -1 for none. */
  function ActiveBank(b0: seq<Byte>, b1: seq<Byte>): (b: int)
    requires HEADER_BYTES <= |b0| && HEADER_BYTES <= |b1|
    ensures -1 <= b <= 1
  {
    if BankValid(b0) && BankValid(b1) then
      if SeqAfter(Seq(b1), Seq(b0)) then 1 else 0
    else if BankValid(b0) then 0
    else if BankValid(b1) then 1
    else -1
  }

  /** A number is newer than the `d` numbers before it, up to half the range, across the wrap as well. */
  lemma SeqAfterMeans(older: nat, d: nat)
    requires d < 0x1_0000_0000
    ensures SeqAfter((older + d) % 0x1_0000_0000, older % 0x1_0000_0000) <==> 0 < d < 0x8000_0000
  {
    var a, b := (older + d) / WORD_LIMIT, older / WORD_LIMIT;
    assert (older + d) % WORD_LIMIT - older % WORD_LIMIT == d - WORD_LIMIT * (a - b);
    assert a - b == 0 || a - b == 1;
  }

  function ImagesIn(bank: seq<Byte>): (s: seq<Image>)
    requires HEADER_BYTES <= |bank| && Count(bank) <= MAX_ENTRIES
    ensures |s| == Count(bank)
  {
    seq(Count(bank), i requires 0 <= i < Count(bank) => ImageOf(bank, EntryAt(bank, i)))
  }

  /** The two banks of the part. */
  datatype Flash = Flash(b0: seq<Byte>, b1: seq<Byte>) {
    function Bank(i: nat): seq<Byte> {
      if i == 0 then b0 else b1
    }
  }

  /** What board_persist_count() and board_persist_entry() report, as one value. */
  function Report(f: Flash): seq<Image>
    requires HEADER_BYTES <= |f.b0| && HEADER_BYTES <= |f.b1|
  {
    var a := ActiveBank(f.b0, f.b1);
    if a < 0 then [] else ImagesIn(f.Bank(a))
  }

  // ---- names -----------------------------------------------------------

  const NAME_AT: nat := 72
  const NAME_MAX: nat := 16

  /** `strncmp(a, b, |a|) == 0` on buffers of one length. */
  predicate StrnEqual(a: seq<Byte>, b: seq<Byte>)
    requires |a| == |b|
  {
    a == [] || (a[0] == b[0] && (a[0] == 0 || StrnEqual(a[1..], b[1..])))
  }

  /** The text in a fixed-width field: what comes before the first NUL, or all of it. */
  function UpToNul(s: seq<Byte>): (t: seq<Byte>)
    ensures |t| <= |s| && t == s[..|t|] && 0 !in t && (|t| < |s| ==> s[|t|] == 0)
  {
    if s == [] || s[0] == 0 then [] else [s[0]] + UpToNul(s[1..])
  }

  /** The comparison decides whether two fields hold the same text. */
  lemma {:induction false} StrnIsText(a: seq<Byte>, b: seq<Byte>)
    requires |a| == |b|
    ensures StrnEqual(a, b) <==> UpToNul(a) == UpToNul(b)
    decreases |a|
  {
    if a == [] {
      assert a == b;
    } else {
      StrnIsText(a[1..], b[1..]);
      var (x, y) := (UpToNul(a), UpToNul(b));
      assert a[0] != 0 ==> x[0] == a[0] && x[1..] == UpToNul(a[1..]);
      assert b[0] != 0 ==> y[0] == b[0] && y[1..] == UpToNul(b[1..]);
    }
  }

  /** A field's text is the only prefix without a NUL that is followed by one or by nothing. */
  lemma {:induction false} OneText(s: seq<Byte>, n: nat)
    requires n <= |s| && 0 !in s[..n] && (n < |s| ==> s[n] == 0)
    ensures UpToNul(s) == s[..n]
    decreases n
  {
    if n > 0 {
      assert s[0] == s[..n][0] && s[1..][..n - 1] == s[..n][1..];
      OneText(s[1..], n - 1);
    }
  }

  predicate HasName(image: Image) {
    NAME_AT + NAME_MAX <= |image|
  }

  function NameField(image: Image): (n: seq<Byte>)
    requires HasName(image)
    ensures |n| == NAME_MAX
  {
    image[NAME_AT..NAME_AT + NAME_MAX]
  }

  /** same_name() */
  predicate SameName(a: Image, b: Image) {
    HasName(a) && HasName(b) && StrnEqual(NameField(a), NameField(b))
  }

  /** What it decides: the two images have names, and the same one. */
  predicate SameText(a: Image, b: Image) {
    HasName(a) && HasName(b) && UpToNul(a[72..88]) == UpToNul(b[72..88])
  }

  lemma SameNameIsSameText(a: Image, b: Image)
    ensures SameName(a, b) <==> SameText(a, b)
  {
    if HasName(a) && HasName(b) {
      StrnIsText(NameField(a), NameField(b));
    }
  }

  // ---- what a save means -----------------------------------------------

  /** The entries a save carries over: all that do not bear the new image's name. */
  function Survivors(images: seq<Image>, image: Image): (s: seq<Image>)
    ensures |s| <= |images|
  {
    if images == [] then [] else
      var rest := Survivors(images[..|images| - 1], image);
      var last := images[|images| - 1];
      if SameText(last, image) then rest else rest + [last]
  }

  /** The stored set after a save of `image`. */
  function Saved(images: seq<Image>, image: Image): seq<Image> {
    Survivors(images, image) + [image]
  }

  function Align8(n: nat): (r: nat)
    ensures n <= r < n + 8 && r % 8 == 0
  {
    (n + 7) / 8 * 8
  }

  /** Where the next image would go after these. */
  function Cursor(images: seq<Image>): (c: nat)
    ensures c >= HEADER_BYTES && c % 8 == 0
  {
    if images == [] then HEADER_BYTES
    else Align8(Cursor(images[..|images| - 1]) + |images[|images| - 1]|)
  }

  /** A set of images that a bank has room for. */
  predicate Fits(bankSize: nat, images: seq<Image>) {
    && |images| <= MAX_ENTRIES
    && forall k :: 0 <= k < |images| ==> Cursor(images[..k]) + |images[k]| <= bankSize
  }
}
