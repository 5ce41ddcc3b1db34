/**
 pack() of mdl/tools/packer.py from end to end: every check it makes, in its order, and the
 image it writes when none of them refuses.
 */
module Pack {
  import opened Bytes
  import CommandNames
  import FlashFormat
  import opened ImageFormat
  import opened Packer
  import opened PackerCheck
  import opened Resources

  datatype Maybe<T> = None | Some(value: T)

  /** A row of .dynsym. */
  datatype Symbol = Symbol(name: string, section: nat, bind: nat, kind: nat, value: nat)

  /** What pack() reads of the linked file, besides the sections it copies. */
  datatype Elf = Elf(
    shared: bool, symbols: seq<Symbol>, abiWord: Maybe<nat>,
    executable: bool, code: bool, writable: bool, retained: bool,
    linked: Linked, command: Maybe<seq<Byte>>, name: Maybe<seq<Byte>>, events: Maybe<seq<Byte>>)

  datatype Options = Options(abi: nat, textRegion: nat, dataRegion: nat, allowConflicts: bool, nameHint: seq<Byte>)

  datatype Error =
    | NotShared | UndefinedSymbol | NoAbi | AbiUnreadable | AbiMismatch | NoInit | NoExecutable | NoCode
    | TextTooBig | Retained | DataTooBig | NoWritable | Relocation(why: RelocError) | InitOutside
    | CommandOutside | CommandUnnamed | CommandUnused | BadResources
    | EventOutside | EventsShort | ResourceConflict | TooDeep | NoDepth | DepthUnused | EdgeUnhandled

  predicate Dangling(s: Symbol) {
    s.section == 0 && s.name != "" && s.bind != 0 && (s.kind == 1 || s.kind == 2)
  }

  /** The first symbol of this name. */
  function Lookup(symbols: seq<Symbol>, name: string): Maybe<nat> {
    if symbols == [] then None
    else if symbols[0].name == name then Some(symbols[0].value)
    else Lookup(symbols[1..], name)
  }

  /** An entry point's offset lies inside the text; an optional one may not be 0. */
  predicate InsideText(l: Linked, v: nat, least: nat) {
    l.text.addr + least <= v < l.text.addr + |l.text.bytes|
  }

  function Claimed(e: Elf): seq<Claim> {
    ClaimsIn(e.linked.res)
  }

  /** A little-endian half word of the event section, which starts with depth and rate. */
  function EventWord(e: Elf, at: nat): nat
    requires at <= 2
  {
    if e.events.Some? && |e.events.value| >= 4 then
      var lo: nat, hi: nat := e.events.value[at], e.events.value[at + 1];
      lo + 256 * hi
    else
      0
  }

  function Depth(e: Elf): nat {
    EventWord(e, 0)
  }

  function Rate(e: Elf): nat {
    EventWord(e, 2)
  }

  // ---- why pack() refuses, in its order ----------------------------------

  ghost function SymbolProblem(e: Elf, o: Options): Maybe<Error> {
    if !e.shared then Some(NotShared)
    else if exists s <- e.symbols :: Dangling(s) then Some(UndefinedSymbol)
    else if Lookup(e.symbols, "__mdl_abi_ver").None? then Some(NoAbi)
    else if e.abiWord.None? then Some(AbiUnreadable)
    else if e.abiWord.value != o.abi then Some(AbiMismatch)
    else if Lookup(e.symbols, "module_init").None? then Some(NoInit)
    else None
  }

  ghost function SizeProblem(e: Elf, o: Options): Maybe<Error> {
    var l := e.linked;
    if !e.executable then Some(NoExecutable)
    else if !e.code then Some(NoCode)
    else if |l.text.bytes| > o.textRegion then Some(TextTooBig)
    else if e.retained then Some(Retained)
    else if |l.got.bytes| + |l.data.bytes| + l.bssSize > o.dataRegion then Some(DataTooBig)
    else if !e.writable && l.got.bytes != [] then Some(NoWritable)
    else None
  }

  ghost function EntryProblem(e: Elf): Maybe<Error> {
    var l, init, cmd := e.linked, Lookup(e.symbols, "module_init"), Lookup(e.symbols, "module_cmd");
    if Rewrite(l, |l.rels|).Failed? then Some(Relocation(Rewrite(l, |l.rels|).error))
    else if init.Some? && !InsideText(l, init.value, 0) then Some(InitOutside)
    else if cmd.Some? && !InsideText(l, cmd.value, 1) then Some(CommandOutside)
    else if cmd.Some? && (e.command.None? || e.command.value == [] || e.command.value[0] == 0) then Some(CommandUnnamed)
    else if cmd.None? && e.command.Some? then Some(CommandUnused)
    else if |l.res| % 4 != 0 then Some(BadResources)
    else None
  }

  ghost function EventProblem(e: Elf, o: Options, d: BoardPins): Maybe<Error> {
    var evt := Lookup(e.symbols, "module_event");
    if evt.Some? && !InsideText(e.linked, evt.value, 1) then Some(EventOutside)
    else if e.events.Some? && |e.events.value| < 4 then Some(EventsShort)
    else if !o.allowConflicts && !PackerAccepts(d, Claimed(e)) then Some(ResourceConflict)
    else if Depth(e) > EVT_QUEUE_MAX then Some(TooDeep)
    else if evt.Some? && Depth(e) == 0 then Some(NoDepth)
    else if evt.None? && Depth(e) != 0 then Some(DepthUnused)
    else if evt.None? && exists c <- Claimed(e) :: c.edge != 0 then Some(EdgeUnhandled)
    else None
  }

  ghost function Problem(e: Elf, o: Options, d: BoardPins): Maybe<Error> {
    if SymbolProblem(e, o).Some? then SymbolProblem(e, o)
    else if SizeProblem(e, o).Some? then SizeProblem(e, o)
    else if EntryProblem(e).Some? then EntryProblem(e)
    else EventProblem(e, o, d)
  }

  // ---- names -------------------------------------------------------------

  /** bytes.ljust(n, b"\\0")[:n] */
  function Padded(s: seq<Byte>, n: nat): (field: seq<Byte>)
    ensures |field| == n
  {
    if |s| >= n then s[..n] else s + seq(n - |s|, _ => 0)
  }

  /** The field ends up without a NUL exactly when the text fills it. */
  lemma PaddedHasNul(s: seq<Byte>, n: nat)
    ensures 0 in Padded(s, n) <==> |s| < n || 0 in s[..n]
  {
    if |s| < n {
      assert Padded(s, n)[|s|] == 0;
    }
  }

  function NameBytes(e: Elf, o: Options): seq<Byte> {
    if e.name.Some? then FlashFormat.UpToNul(e.name.value)
    else if |o.nameHint| >= FlashFormat.NAME_MAX then o.nameHint[..FlashFormat.NAME_MAX - 1]
    else o.nameHint
  }

  function CommandField(e: Elf): seq<Byte> {
    if Lookup(e.symbols, "module_cmd").Some? && e.command.Some? then Padded(e.command.value, CommandNames.CMD_NAME_MAX) else Padded([], CommandNames.CMD_NAME_MAX)
  }

  function OffsetOf(e: Elf, name: string): nat {
    match Lookup(e.symbols, name)
    case Some(v) => if v >= e.linked.text.addr then v - e.linked.text.addr else 0
    case None => 0
  }

  function Header(e: Elf, o: Options): Extras {
    Extras(OffsetOf(e, "module_init"), OffsetOf(e, "module_cmd"), CommandField(e), Padded(NameBytes(e, o), FlashFormat.NAME_MAX),
           OffsetOf(e, "module_event"), Depth(e), Rate(e))
  }

  /** The image is this file's: its sections, rewritten and laid out, under a header of its symbols. */
  ghost predicate PackedAs(m: Image, e: Elf, o: Options) {
    var w := Rewrite(e.linked, |e.linked.rels|);
    && w.Rewriting? && (forall x <- w.entries :: x.offset < WORD_LIMIT)
    && Describes(m, e.linked, w.got, w.entries)
    && Extras(m.initOff, m.cmdOff, m.cmdName, m.name, m.evtOff, m.depth, m.rate) == Header(e, o)
  }

  // ---- pack() ------------------------------------------------------------

  datatype Result = Err(error: Error) | Ok(image: Image)

  /** next(s for s in dynsyms if s["name"] == name) */
  method FindSymbol(symbols: seq<Symbol>, name: string) returns (v: Maybe<nat>)
    ensures v == Lookup(symbols, name)
  {
    for i := 0 to |symbols|
      invariant Lookup(symbols, name) == Lookup(symbols[i..], name)
    {
      if symbols[i].name == name {
        return Some(symbols[i].value);
      }
      assert symbols[i..][1..] == symbols[i + 1..];
    }
    return None;
  }

  method CheckSymbols(e: Elf, o: Options) returns (p: Maybe<Error>)
    ensures p == SymbolProblem(e, o)
  {
    if !e.shared {
      return Some(NotShared);
    }
    for i := 0 to |e.symbols|
      invariant forall j :: 0 <= j < i ==> !Dangling(e.symbols[j])
    {
      if Dangling(e.symbols[i]) {
        assert e.symbols[i] in e.symbols;
        return Some(UndefinedSymbol);
      }
    }
    var abi := FindSymbol(e.symbols, "__mdl_abi_ver");
    if abi.None? {
      return Some(NoAbi);
    }
    if e.abiWord.None? {
      return Some(AbiUnreadable);
    }
    if e.abiWord.value != o.abi {
      return Some(AbiMismatch);
    }
    var init := FindSymbol(e.symbols, "module_init");
    p := if init.None? then Some(NoInit) else None;
  }

  method CheckSizes(e: Elf, o: Options) returns (p: Maybe<Error>)
    ensures p == SizeProblem(e, o)
  {
    if !e.executable {
      return Some(NoExecutable);
    }
    if !e.code {
      return Some(NoCode);
    }
    if |e.linked.text.bytes| > o.textRegion {
      return Some(TextTooBig);
    }
    if e.retained {
      return Some(Retained);
    }
    if |e.linked.got.bytes| + |e.linked.data.bytes| + e.linked.bssSize > o.dataRegion {
      return Some(DataTooBig);
    }
    p := if !e.writable && e.linked.got.bytes != [] then Some(NoWritable) else None;
  }

  method CheckEntries(e: Elf) returns (p: Maybe<Error>)
    ensures p == EntryProblem(e)
  {
    hide Rewrite, Lookup;
    var w := RewriteGot(e.linked);
    if w.Failed? {
      return Some(Relocation(w.error));
    }
    var init := FindSymbol(e.symbols, "module_init");
    if init.Some? && !InsideText(e.linked, init.value, 0) {
      return Some(InitOutside);
    }
    var cmd := FindSymbol(e.symbols, "module_cmd");
    if cmd.Some? {
      if !InsideText(e.linked, cmd.value, 1) {
        return Some(CommandOutside);
      }
      if e.command.None? || e.command.value == [] || e.command.value[0] == 0 {
        return Some(CommandUnnamed);
      }
    } else if e.command.Some? {
      return Some(CommandUnused);
    }
    p := if |e.linked.res| % 4 != 0 then Some(BadResources) else None;
  }

  method CheckEvents(e: Elf, o: Options, d: BoardPins) returns (p: Maybe<Error>)
    ensures p == EventProblem(e, o, d)
  {
    hide Lookup, PackerAccepts, ClaimsIn;
    var evt := FindSymbol(e.symbols, "module_event");
    if evt.Some? && !InsideText(e.linked, evt.value, 1) {
      return Some(EventOutside);
    }
    if e.events.Some? && |e.events.value| < 4 {
      return Some(EventsShort);
    }
    var claims := ClaimsIn(e.linked.res);
    if !o.allowConflicts {
      var fine := CheckConflicts(d, claims);
      if !fine {
        return Some(ResourceConflict);
      }
    }
    if Depth(e) > EVT_QUEUE_MAX {
      return Some(TooDeep);
    }
    if evt.Some? && Depth(e) == 0 {
      return Some(NoDepth);
    }
    if evt.None? && Depth(e) != 0 {
      return Some(DepthUnused);
    }
    for i := 0 to |claims|
      invariant evt.None? ==> forall j :: 0 <= j < i ==> claims[j].edge == 0
    {
      if claims[i].edge != 0 && evt.None? {
        assert claims[i] in claims;
        return Some(EdgeUnhandled);
      }
    }
    p := None;
  }

  /** pack() */
  method PackElf(e: Elf, o: Options, d: BoardPins) returns (r: Result)
    requires |e.linked.got.bytes| < WORD_LIMIT
    ensures r.Ok? <==> Problem(e, o, d).None?
    ensures r.Err? ==> Problem(e, o, d) == Some(r.error)
    ensures r.Ok? ==> PackedAs(r.image, e, o)
  {
    hide Rewrite, SymbolProblem, SizeProblem, EventProblem, Describes, Header;
    var p := CheckSymbols(e, o);
    if p.Some? {
      return Err(p.value);
    }
    p := CheckSizes(e, o);
    if p.Some? {
      return Err(p.value);
    }
    p := CheckEntries(e);
    if p.Some? {
      return Err(p.value);
    }
    p := CheckEvents(e, o, d);
    if p.Some? {
      return Err(p.value);
    }
    var image := Assemble(e.linked, Header(e, o));
    r := Ok(image);
  }
}
