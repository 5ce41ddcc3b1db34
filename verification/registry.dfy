/** mdl/core/registry.h: the record a slot keeps about the module in it. */
module Registry {
  import opened BuddyBlocks
  import opened Bytes
  import opened Resources

  datatype State = Empty | Loaded | Running | Faulted

  class Module {
    var state: State
    var textLo: nat
    var textHi: nat
    var dataLo: nat
    var dataHi: nat
    var heapStackLo: nat
    var heapStackHi: nat
    var guardLo: nat
    var guardHi: nat
    var arenaHeld: bool
    /** The claims in force, res[0 .. res_count). */
    var res: seq<Claim>
    /** The gpio_claimed bitmap, as the set of its bits. */
    var gpioClaimed: set<nat>
    /** The event queue depth the image asked for. */
    var depth: nat
    var name: seq<Byte>
    /** Empty when the module exports no console command. */
    var cmdName: seq<Byte>
    /** Where the module is started, and where its command and its events go; 0 is no address. */
    var entry: nat
    var cmdEntry: nat
    var evtEntry: nat

    /** The arena blocks behind the bounds. */
    ghost var text: Block
    ghost var data: Block
    ghost var heapStack: Block

    /** registry_init() and the zeroed static table. */
    constructor ()
      ensures state == Empty && !arenaHeld && res == [] && gpioClaimed == {} && name == [] && cmdName == []
      ensures textLo == textHi == dataLo == dataHi == heapStackLo == heapStackHi == guardLo == guardHi == 0
    {
      state, arenaHeld := Empty, false;
      textLo, textHi, dataLo, dataHi := 0, 0, 0, 0;
      heapStackLo, heapStackHi, guardLo, guardHi := 0, 0, 0, 0;
      res, gpioClaimed, depth, name, cmdName := [], {}, 0, [], [];
      entry, cmdEntry, evtEntry := 0, 0, 0;
      text, data, heapStack := Block(0, 0), Block(0, 0), Block(0, 0);
    }
  }
}
