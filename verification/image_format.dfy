/**
 The module image both tools/packer.py and core/loader.c know: 32-bit words inside byte
 strings, and the relocation table. The 96-byte header is a record here.
 */
module ImageFormat {
  import opened Bytes

  function Get32(s: seq<Byte>, at: nat): nat
    requires at + 4 <= |s|
  {
    FromLe32(s[at..at + 4])
  }

  function Put32(s: seq<Byte>, at: nat, v: nat): (t: seq<Byte>)
    requires at + 4 <= |s| && v < WORD_LIMIT
    ensures |t| == |s|
  {
    s[..at] + Le32(v) + s[at + 4..]
  }

  lemma PutThenGet(s: seq<Byte>, at: nat, v: nat, other: nat)
    requires at + 4 <= |s| && v < WORD_LIMIT && other + 4 <= |s|
    ensures Get32(Put32(s, at, v), at) == v
    ensures other + 4 <= at || at + 4 <= other ==> Get32(Put32(s, at, v), other) == Get32(s, other)
  {
    hide Le32, FromLe32;
    var t := Put32(s, at, v);
    assert t[at..at + 4] == Le32(v);
    if other + 4 <= at || at + 4 <= other {
      assert t[other..other + 4] == s[other..other + 4];
    }
  }

  datatype RelocKind = TextBase | DataBase

  /** mdl_reloc_t */
  datatype Reloc = Reloc(offset: nat, kind: RelocKind)

  const RELOC_SIZE: nat := 8

  /** MDL_EVT_QUEUE_MAX */
  const EVT_QUEUE_MAX: nat := 16

  function KindByte(k: RelocKind): Byte {
    if k.TextBase? then 0 else 1
  }

  function RelocBytes(r: Reloc): (s: seq<Byte>)
    requires r.offset < WORD_LIMIT
    ensures |s| == RELOC_SIZE
  {
    Le32(r.offset) + [KindByte(r.kind), 0, 0, 0]
  }

  function TableBytes(rs: seq<Reloc>): (s: seq<Byte>)
    requires forall r <- rs :: r.offset < WORD_LIMIT
    ensures |s| == RELOC_SIZE * |rs|
  {
    if rs == [] then [] else TableBytes(rs[..|rs| - 1]) + RelocBytes(rs[|rs| - 1])
  }

  /** An entry is eight bytes: the offset, lowest byte first, 0 for text or 1 for data, and three zeros. */
  lemma {:induction false} EntryLayout(rs: seq<Reloc>, i: nat)
    requires (forall r <- rs :: r.offset < WORD_LIMIT) && i < |rs|
    ensures var e := TableBytes(rs)[8 * i..8 * i + 8];
            FromLe32(e[..4]) == rs[i].offset && e[4..] == (if rs[i].kind == TextBase then [0, 0, 0, 0] else [1, 0, 0, 0])
    decreases |rs|
  {
    hide Le32, FromLe32;
    var front := rs[..|rs| - 1];
    var table := TableBytes(rs);
    assert table == TableBytes(front) + RelocBytes(rs[|rs| - 1]);
    if i < |rs| - 1 {
      EntryLayout(front, i);
      assert table[8 * i..8 * i + 8] == TableBytes(front)[8 * i..8 * i + 8];
    } else {
      assert table[8 * i..8 * i + 8] == RelocBytes(rs[i]);
      assert RelocBytes(rs[i])[..4] == Le32(rs[i].offset);
    }
  }

  /** The `i`-th entry of a table, as the device reads it: any nonzero kind means the data base. */
  function ReadReloc(table: seq<Byte>, i: nat): Reloc
    requires RELOC_SIZE * (i + 1) <= |table|
  {
    Reloc(Get32(table, RELOC_SIZE * i), if table[RELOC_SIZE * i + 4] == 0 then TextBase else DataBase)
  }

  lemma {:induction false} TableReadBack(rs: seq<Reloc>, i: nat)
    requires (forall r <- rs :: r.offset < WORD_LIMIT) && i < |rs|
    ensures ReadReloc(TableBytes(rs), i) == rs[i]
    decreases |rs|
  {
    hide Le32, FromLe32;
    var front, at := rs[..|rs| - 1], RELOC_SIZE * i;
    var table := TableBytes(rs);
    assert table == TableBytes(front) + RelocBytes(rs[|rs| - 1]);
    if i < |rs| - 1 {
      TableReadBack(front, i);
      assert table[at..at + 4] == TableBytes(front)[at..at + 4];
    } else {
      assert table[at..at + 4] == Le32(rs[i].offset);
    }
  }

  /** mdl_header_t without its magic, ABI version and architecture, and what follows it in the file. */
  datatype Image = Image(
    crc: nat, textSize: nat, dataSize: nat, bssSize: nat,
    gotOff: nat, gotCount: nat, initOff: nat, relocOff: nat, relocCount: nat,
    cmdOff: nat, resOff: nat, resCount: nat, cmdName: seq<Byte>, name: seq<Byte>,
    evtOff: nat, depth: nat, rate: nat,
    payload: seq<Byte>) {

    function GotBytes(): nat { 4 * gotCount }

    /** GOT, data and bss together. */
    function DataNeeded(): nat { GotBytes() + dataSize + bssSize }

    /** The blobs and the relocation table lie in the payload where the header says. */
    predicate Laid() {
      && textSize + dataSize <= |payload| && gotOff + GotBytes() <= |payload|
      && relocOff + RELOC_SIZE * relocCount <= |payload|
    }

    /** So do the claims. */
    predicate ResInside() {
      resOff + 4 * resCount <= |payload|
    }

    function Text(): seq<Byte>
      requires Laid()
    { payload[..textSize] }

    function Data(): seq<Byte>
      requires Laid()
    { payload[textSize..textSize + dataSize] }

    function Got(): seq<Byte>
      requires Laid()
    { payload[gotOff..gotOff + GotBytes()] }

    function Table(): seq<Byte>
      requires Laid()
    { payload[relocOff..relocOff + RELOC_SIZE * relocCount] }

    function Relocs(): (rs: seq<Reloc>)
      requires Laid()
    {
      seq(relocCount, i requires 0 <= i < relocCount => ReadReloc(Table(), i))
    }
  }
}
