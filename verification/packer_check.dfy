/**
 check_resource_conflicts() of mdl/tools/packer.py: the same decision made on the build
 machine, with dictionaries filled from the same rows instead of array scans.
 */
module PackerCheck {
  import opened Resources

  /** BoardPins: peripheral -> pins, pin -> whether the holder is HARD, gpio index -> pin. */
  datatype BoardPins = BoardPins(periph: map<(nat, nat), seq<Pin>>, owner: map<Pin, bool>, gpio: map<nat, Pin>)

  function PeriphDict(rows: seq<Periph>): map<(nat, nat), seq<Pin>> {
    if rows == [] then map[]
    else PeriphDict(rows[..|rows| - 1])[(rows[|rows| - 1].kind, rows[|rows| - 1].id) := rows[|rows| - 1].pins]
  }

  function OwnerDict(rows: seq<PinOwner>): map<Pin, bool> {
    if rows == [] then map[] else OwnerDict(rows[..|rows| - 1])[rows[|rows| - 1].pin := rows[|rows| - 1].hard]
  }

  function DictsOf(board: Board): BoardPins {
    BoardPins(PeriphDict(board.periphs), OwnerDict(board.owners), map i: nat | i < |board.gpio| :: board.gpio[i])
  }

  /** The parsing loops of BoardPins.__init__: a later row replaces an earlier one. */
  method Parse(board: Board) returns (d: BoardPins)
    ensures d == DictsOf(board)
  {
    var periph: map<(nat, nat), seq<Pin>> := map[];
    for i := 0 to |board.periphs|
      invariant periph == PeriphDict(board.periphs[..i])
    {
      periph := periph[(board.periphs[i].kind, board.periphs[i].id) := board.periphs[i].pins];
      assert board.periphs[..i + 1][..i] == board.periphs[..i];
    }
    var owner: map<Pin, bool> := map[];
    for i := 0 to |board.owners|
      invariant owner == OwnerDict(board.owners[..i])
    {
      owner := owner[board.owners[i].pin := board.owners[i].hard];
      assert board.owners[..i + 1][..i] == board.owners[..i];
    }
    var gpio: map<nat, Pin> := map[];
    for i := 0 to |board.gpio|
      invariant gpio == map j: nat | j < i :: board.gpio[j]
    {
      gpio := gpio[i := board.gpio[i]];
    }
    assert board.periphs[..|board.periphs|] == board.periphs && board.owners[..|board.owners|] == board.owners;
    d := BoardPins(periph, owner, gpio);
  }

  datatype Expansion = Unplaceable | At(pins: seq<Pin>)

  /** BoardPins.expand */
  function Expand(d: BoardPins, c: Claim): Expansion {
    if c.kind == KIND_GPIO then
      if c.id in d.gpio then At([d.gpio[c.id]]) else Unplaceable
    else if (c.kind, c.id) in d.periph then At(d.periph[(c.kind, c.id)])
    else Unplaceable
  }

  function ExpandAll(d: BoardPins, claims: seq<Claim>): seq<Pin> {
    if claims == [] then [] else
      var e := Expand(d, claims[|claims| - 1]);
      ExpandAll(d, claims[..|claims| - 1]) + (if e == Unplaceable then [] else e.pins)
  }

  predicate HardIn(d: BoardPins, pin: Pin) {
    pin in d.owner && d.owner[pin]
  }

  ghost predicate PackerAccepts(d: BoardPins, claims: seq<Claim>) {
    && (forall c <- claims :: Expand(d, c) != Unplaceable)
    && NoRepeats(ExpandAll(d, claims))
    && (forall p <- ExpandAll(d, claims) :: !HardIn(d, p))
  }

  lemma {:induction false} ExpandAllPrefix(d: BoardPins, claims: seq<Claim>, i: nat)
    requires i <= |claims|
    ensures ExpandAll(d, claims[..i]) <= ExpandAll(d, claims)
    decreases |claims| - i
  {
    if i < |claims| {
      ExpandAllPrefix(d, claims, i + 1);
      assert claims[..i + 1][..i] == claims[..i];
    } else {
      assert claims[..i] == claims;
    }
  }

  lemma BadPinFails(d: BoardPins, claims: seq<Claim>, i: nat, k: nat)
    requires i < |claims| && Expand(d, claims[i]) != Unplaceable && k < |Expand(d, claims[i]).pins|
    requires var pins := Expand(d, claims[i]).pins;
      HardIn(d, pins[k]) || pins[k] in ExpandAll(d, claims[..i]) + pins[..k]
    ensures !PackerAccepts(d, claims)
  {
    hide HardIn, Expand;
    var before, all, pins := ExpandAll(d, claims[..i]), ExpandAll(d, claims), Expand(d, claims[i]).pins;
    assert claims[..i + 1][..i] == claims[..i];
    ExpandAllPrefix(d, claims, i + 1);
    var at := |before| + k;
    assert all[at] == (before + pins)[at] == pins[k];
    if all[at] in before + pins[..k] {
      var j :| 0 <= j < at && (before + pins[..k])[j] == all[at];
      assert all[j] == (before + pins)[j] == all[at];
    }
  }

  /** check_resource_conflicts */
  method CheckConflicts(d: BoardPins, claims: seq<Claim>) returns (ok: bool)
    ensures ok <==> PackerAccepts(d, claims)
  {
    var seen: map<Pin, Claim> := map[];
    ghost var list: seq<Pin> := [];
    for i := 0 to |claims|
      invariant list == ExpandAll(d, claims[..i]) && PackerAccepts(d, claims[..i])
      invariant forall p :: p in seen <==> p in list
    {
      var e := Expand(d, claims[i]);
      if e == Unplaceable {
        assert claims[i] in claims;
        return false;
      }
      for k := 0 to |e.pins|
        invariant list == ExpandAll(d, claims[..i]) + e.pins[..k] && NoRepeats(list)
        invariant forall p :: p in seen <==> p in list
        invariant forall p <- list :: !HardIn(d, p)
      {
        var pin := e.pins[k];
        if (pin in d.owner && d.owner[pin]) || pin in seen {
          BadPinFails(d, claims, i, k);
          return false;
        }
        seen := seen[pin := claims[i]];
        list := list + [pin];
      }
      assert claims[..i + 1][..i] == claims[..i];
      assert claims[..i + 1] == claims[..i] + [claims[i]];
    }
    assert claims[..|claims|] == claims;
    return true;
  }

  // ---- the two decisions are one ---------------------------------------

  /** Tables with one row per key, none empty, and no more GPIO rows than the bitmap has bits. */
  predicate WellFormed(board: Board) {
    && Tabulated(board)
    && (forall i, j :: 0 <= i < j < |board.periphs| ==>
          (board.periphs[i].kind, board.periphs[i].id) != (board.periphs[j].kind, board.periphs[j].id))
    && (forall r <- board.periphs :: KIND_GPIO < r.kind <= KIND_MAX && r.pins != [])
    && (forall i, j :: 0 <= i < j < |board.owners| ==> board.owners[i].pin != board.owners[j].pin)
    && |board.gpio| <= GPIO_LIMIT
  }

  lemma {:induction false} PeriphLookupsAgree(rows: seq<Periph>, kind: nat, id: nat)
    requires forall i, j :: 0 <= i < j < |rows| ==> (rows[i].kind, rows[i].id) != (rows[j].kind, rows[j].id)
    requires forall r <- rows :: r.pins != []
    ensures (kind, id) in PeriphDict(rows) <==> PeriphPins(rows, kind, id) != []
    ensures (kind, id) in PeriphDict(rows) ==> PeriphDict(rows)[(kind, id)] == PeriphPins(rows, kind, id)
    decreases |rows|
  {
    if rows != [] {
      var n := |rows| - 1;
      PeriphLookupsAgree(rows[..n], kind, id);
      assert rows == rows[..n] + [rows[n]];
      FirstOrLastPeriph(rows[..n], rows[n], kind, id);
    }
  }

  lemma {:induction false} FirstOrLastPeriph(rows: seq<Periph>, last: Periph, kind: nat, id: nat)
    requires forall r <- rows :: r.pins != [] && (r.kind, r.id) != (last.kind, last.id)
    ensures PeriphPins(rows + [last], kind, id) ==
            if last.kind == kind && last.id == id then last.pins else PeriphPins(rows, kind, id)
    decreases |rows|
  {
    if rows != [] {
      assert (rows + [last])[1..] == rows[1..] + [last];
      FirstOrLastPeriph(rows[1..], last, kind, id);
    }
  }

  lemma {:induction false} OwnerLookupsAgree(rows: seq<PinOwner>, pin: Pin)
    requires forall i, j :: 0 <= i < j < |rows| ==> rows[i].pin != rows[j].pin
    ensures Hard(rows, pin) <==> pin in OwnerDict(rows) && OwnerDict(rows)[pin]
    decreases |rows|
  {
    if rows != [] {
      var n := |rows| - 1;
      OwnerLookupsAgree(rows[..n], pin);
      assert rows == rows[..n] + [rows[n]];
      FirstOrLastOwner(rows[..n], rows[n], pin);
    }
  }

  lemma {:induction false} FirstOrLastOwner(rows: seq<PinOwner>, last: PinOwner, pin: Pin)
    requires forall r <- rows :: r.pin != last.pin
    ensures Hard(rows + [last], pin) <==> if last.pin == pin then last.hard else Hard(rows, pin)
    decreases |rows|
  {
    if rows != [] {
      assert (rows + [last])[1..] == rows[1..] + [last];
      FirstOrLastOwner(rows[1..], last, pin);
    }
  }

  lemma ExpansionsAgree(board: Board, c: Claim)
    requires WellFormed(board)
    ensures Expand(DictsOf(board), c) == if PinsOf(board, c) == [] then Unplaceable else At(PinsOf(board, c))
  {
    PeriphLookupsAgree(board.periphs, c.kind, c.id);
  }

  lemma {:induction false} ExpandAllIsAllPins(board: Board, claims: seq<Claim>)
    requires WellFormed(board)
    ensures ExpandAll(DictsOf(board), claims) == AllPins(board, claims)
    decreases |claims|
  {
    hide PinsOf, WellFormed, DictsOf, Expand;
    if claims != [] {
      ExpandAllIsAllPins(board, claims[..|claims| - 1]);
      ExpansionsAgree(board, claims[|claims| - 1]);
    }
  }

  /** A claim the board can place passes the loader's range checks. */
  lemma {:induction false} PlacedIsSane(board: Board, c: Claim)
    requires WellFormed(board) && PinsOf(board, c) != []
    ensures ClaimSane(c)
  {
    if c.kind != KIND_GPIO {
      PlacedKind(board.periphs, c.kind, c.id);
    }
  }

  lemma {:induction false} PlacedKind(rows: seq<Periph>, kind: nat, id: nat)
    requires PeriphPins(rows, kind, id) != []
    ensures exists r <- rows :: r.kind == kind
    decreases |rows|
  {
    if rows[0].kind == kind && rows[0].id == id {
      assert rows[0] in rows;
    } else {
      PlacedKind(rows[1..], kind, id);
      var r :| r in rows[1..] && r.kind == kind;
      assert r in rows;
    }
  }

  /** The device accepts, with nothing else resident, what the build accepts and can be counted in eight records. */
  lemma PackerAndDeviceAgree(board: Board, claims: seq<Claim>)
    requires WellFormed(board)
    ensures DeviceAccepts(board, claims, iset{}) <==> PackerAccepts(DictsOf(board), claims) && |claims| <= MAX_RES
  {
    hide PinsOf, WellFormed, Expand, AllPins, ExpandAll, ClaimSane, NoRepeats;
    ExpandAllIsAllPins(board, claims);
    forall c <- claims
      ensures Expand(DictsOf(board), c) != Unplaceable <==> PinsOf(board, c) != []
      ensures PinsOf(board, c) != [] ==> ClaimSane(c)
    {
      ExpansionsAgree(board, c);
      if PinsOf(board, c) != [] {
        PlacedIsSane(board, c);
      }
    }
    forall p <- AllPins(board, claims)
      ensures HardIn(DictsOf(board), p) <==> Hard(board.owners, p)
    {
      OwnerTablesAgree(board, p);
    }
  }

  /** A claim on each of the first `n` whitelist pins. */
  function FirstPins(n: nat): (claims: seq<Claim>)
    ensures |claims| == n
  {
    seq(n, i requires 0 <= i => Claim(KIND_GPIO, i, 0))
  }

  lemma {:induction false} FirstPinsExpanded(board: Board, n: nat)
    requires n <= |board.gpio|
    ensures AllPins(board, FirstPins(n)) == board.gpio[..n]
  {
    if n > 0 {
      FirstPinsExpanded(board, n - 1);
      assert FirstPins(n)[..n - 1] == FirstPins(n - 1);
    }
  }

  /** Claims are never counted at build time: nine free pins are packed, and refused on the device. */
  lemma NineClaimsDisagree() returns (board: Board, claims: seq<Claim>)
    ensures WellFormed(board) && PackerAccepts(DictsOf(board), claims) && !DeviceAccepts(board, claims, iset{})
  {
    var n := MAX_RES + 1;
    board, claims := Board([], [], seq(n, i => i)), FirstPins(n);
    FirstPinsExpanded(board, n);
    ExpandAllIsAllPins(board, claims);
    assert board.gpio[..n] == board.gpio;
    forall c <- claims
      ensures Expand(DictsOf(board), c) != Unplaceable
    {
      ExpansionsAgree(board, c);
    }
  }

  lemma OwnerTablesAgree(board: Board, p: Pin)
    requires WellFormed(board)
    ensures HardIn(DictsOf(board), p) <==> Hard(board.owners, p)
  {
    OwnerLookupsAgree(board.owners, p);
  }
}
