/** mdl/tests/hil/common/board_persist.c, read side: what the device finds at boot. */
module FlashRead {
  import opened Bytes
  import opened FlashFormat
  import opened FlashLayout
  import Crc32
  import FlashStore

  /** bank_valid(): a set is good only as a whole. */
  method BankIsValid(bank: seq<Byte>) returns (ok: bool)
    requires HEADER_BYTES <= |bank|
    ensures ok <==> BankValid(bank)
  {
    hide WordAt, EntryAt, ImageOf, Crc32.Crc, Crc32.Number;
    if Magic(bank) != STORE_MAGIC || Count(bank) == 0 || Count(bank) > MAX_ENTRIES {
      return false;
    }
    for i := 0 to Count(bank)
      invariant forall j :: 0 <= j < i ==> EntryValid(bank, EntryAt(bank, j))
    {
      var e := EntryAt(bank, i);
      if e.len == 0 || (e.off + e.len) % WORD_LIMIT > |bank| {
        return false;
      }
      var crc := Crc32.MdlCrc32(ImageOf(bank, e));
      if Crc32.Number(crc) != e.crc {
        return false;
      }
    }
    return true;
  }

  /** active_bank() */
  method FindActive(f: Flash) returns (b: int)
    requires HEADER_BYTES <= |f.b0| && HEADER_BYTES <= |f.b1|
    ensures b == ActiveBank(f.b0, f.b1)
  {
    hide BankValid, WordAt;
    var v0 := BankIsValid(f.b0);
    var v1 := BankIsValid(f.b1);
    if v0 && v1 {
      return if SeqAfter(Seq(f.b1), Seq(f.b0)) then 1 else 0;
    }
    b := if v0 then 0 else if v1 then 1 else -1;
  }

  /** board_persist_count() */
  method EntryCount(f: Flash, size: nat) returns (n: nat)
    requires Sound(f, size)
    ensures n == |Report(f)|
  {
    hide BankValid, WordAt, Tidy;
    var b := FindActive(f);
    n := if b < 0 then 0 else Count(f.Bank(b));
  }

  /** board_persist_entry(): where in which bank, and how long. */
  method FindEntry(f: Flash, size: nat, i: nat) returns (found: bool, bank: nat, off: nat, len: nat)
    requires Sound(f, size)
    ensures found <==> i < |Report(f)|
    ensures found ==> bank < 2 && off + len <= |f.Bank(bank)| && f.Bank(bank)[off..off + len] == Report(f)[i]
  {
    hide BankValid, WordAt, LaidOut;
    found, bank, off, len := false, 0, 0, 0;
    var b := FindActive(f);
    if b < 0 {
      return;
    }
    if i >= Count(f.Bank(b)) {
      return;
    }
    var e := EntryAt(f.Bank(b), i);
    FlashStore.TidyEntry(f.Bank(b), i);
    return true, b, e.off, e.len;
  }
}
