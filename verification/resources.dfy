/**
 Claims, the board's pin tables, and when a claim list is acceptable: the space in which
 mdl/host/host_resources.c and mdl/tools/packer.py arbitrate.
 */
module Resources {
  import opened Bytes

  type Pin = nat

  /** mdl_res_t */
  datatype Claim = Claim(kind: nat, id: nat, edge: nat)

  /** The claim table as it lies in an image: four bytes each. */
  function ClaimsIn(table: seq<Byte>): (claims: seq<Claim>)
    ensures |claims| == |table| / 4
    ensures forall k :: 0 <= k < |claims| ==> claims[k] == Claim(table[4 * k], table[4 * k + 1], table[4 * k + 2])
  {
    if |table| < 4 then []
    else
      var rest := ClaimsIn(table[4..]);
      assert forall k :: 0 < k <= |rest| ==> table[4..][4 * (k - 1)] == table[4 * k];
      [Claim(table[0], table[1], table[2])] + rest
  }

  const KIND_NONE: nat := 0
  const KIND_GPIO: nat := 1
  const KIND_UART: nat := 3
  const KIND_MAX: nat := 6
  const MAX_RES: nat := 8
  const MAX_PINS: nat := 4
  const GPIO_LIMIT: nat := 32

  datatype Periph = Periph(kind: nat, id: nat, pins: seq<Pin>)
  datatype PinOwner = PinOwner(pin: Pin, hard: bool)

  /** The rows of board_pins.def; a GPIO row is found by its position. */
  datatype Board = Board(periphs: seq<Periph>, owners: seq<PinOwner>, gpio: seq<Pin>)

  /** The table layout: a peripheral row has room for four pins. */
  predicate Tabulated(board: Board) {
    forall r <- board.periphs :: |r.pins| <= MAX_PINS
  }

  /** The pins of the first peripheral row with this key, or none. */
  function PeriphPins(rows: seq<Periph>, kind: nat, id: nat): seq<Pin> {
    if rows == [] then []
    else if rows[0].kind == kind && rows[0].id == id then rows[0].pins
    else PeriphPins(rows[1..], kind, id)
  }

  /** Whether the first owner row for this pin says the host cannot give it up. */
  predicate Hard(rows: seq<PinOwner>, pin: Pin) {
    rows != [] && if rows[0].pin == pin then rows[0].hard else Hard(rows[1..], pin)
  }

  /** The pins one claim occupies; none if the board cannot place it. */
  function PinsOf(board: Board, c: Claim): seq<Pin> {
    if c.kind == KIND_GPIO then
      if c.id < |board.gpio| then [board.gpio[c.id]] else []
    else
      PeriphPins(board.periphs, c.kind, c.id)
  }

  function AllPins(board: Board, claims: seq<Claim>): seq<Pin> {
    if claims == [] then [] else AllPins(board, claims[..|claims| - 1]) + PinsOf(board, claims[|claims| - 1])
  }

  ghost predicate NoRepeats<T>(s: seq<T>) {
    forall i, j :: 0 <= i < j < |s| ==> s[i] != s[j]
  }

  /** Every claim can be placed, on pins nobody else needs and no pin twice. */
  ghost predicate Acceptable(board: Board, claims: seq<Claim>, held: iset<Pin>) {
    && (forall c <- claims :: PinsOf(board, c) != [])
    && NoRepeats(AllPins(board, claims))
    && (forall p <- AllPins(board, claims) :: !Hard(board.owners, p) && p !in held)
  }

  /** The first row of a peripheral counts, and one without a row has no pins. */
  lemma {:induction false} PeriphPinsMeans(rows: seq<Periph>, kind: nat, id: nat, k: nat)
    requires k <= |rows| && forall j :: 0 <= j < k ==> rows[j].kind != kind || rows[j].id != id
    requires k < |rows| ==> rows[k].kind == kind && rows[k].id == id
    ensures PeriphPins(rows, kind, id) == if k < |rows| then rows[k].pins else []
    decreases |rows|
  {
    if k > 0 {
      assert forall j :: 0 <= j < k - 1 ==> rows[1..][j] == rows[j + 1];
      PeriphPinsMeans(rows[1..], kind, id, k - 1);
    }
  }

  /** A pin is the host's for good exactly when the first row about it says so. */
  lemma {:induction false} HardMeans(rows: seq<PinOwner>, pin: Pin)
    ensures Hard(rows, pin) <==> exists k :: 0 <= k < |rows| && rows[k].pin == pin && rows[k].hard && forall j :: 0 <= j < k ==> rows[j].pin != pin
    decreases |rows|
  {
    if rows != [] {
      var rest := rows[1..];
      HardMeans(rest, pin);
      if rows[0].pin != pin {
        if k :| 0 <= k < |rest| && rest[k].pin == pin && rest[k].hard && forall j :: 0 <= j < k ==> rest[j].pin != pin {
          assert rows[k + 1] == rest[k] && forall j :: 0 < j < k + 1 ==> rows[j] == rest[j - 1];
        }
        if k :| 0 <= k < |rows| && rows[k].pin == pin && rows[k].hard && forall j :: 0 <= j < k ==> rows[j].pin != pin {
          assert rest[k - 1] == rows[k] && forall j :: 0 <= j < k - 1 ==> rest[j] == rows[j + 1];
        }
      }
    }
  }

  /** The pins of a claim list are those of its claims: of a GPIO claim the one at its index, of any other its peripheral's. */
  lemma {:induction false} AllPinsMeans(board: Board, claims: seq<Claim>, pin: Pin)
    ensures pin in AllPins(board, claims) <==>
            exists k :: 0 <= k < |claims|
              && if claims[k].kind == 1 then claims[k].id < |board.gpio| && board.gpio[claims[k].id] == pin
                 else pin in PeriphPins(board.periphs, claims[k].kind, claims[k].id)
    decreases |claims|
  {
    if claims != [] {
      var n := |claims| - 1;
      AllPinsMeans(board, claims[..n], pin);
      assert forall k :: 0 <= k < n ==> claims[..n][k] == claims[k];
    }
  }

  lemma {:induction false} PeriphPinsBound(rows: seq<Periph>, kind: nat, id: nat)
    requires forall r <- rows :: |r.pins| <= MAX_PINS
    ensures |PeriphPins(rows, kind, id)| <= MAX_PINS
    decreases |rows|
  {
    if rows != [] {
      assert rows[0] in rows && forall r <- rows[1..] :: r in rows;
      PeriphPinsBound(rows[1..], kind, id);
    }
  }

  lemma PinsOfBound(board: Board, c: Claim)
    requires Tabulated(board)
    ensures |PinsOf(board, c)| <= MAX_PINS
  {
    PeriphPinsBound(board.periphs, c.kind, c.id);
  }

  /** The per-claim checks of check_resources() in mdl/core/loader.c. */
  predicate ClaimSane(c: Claim) {
    c.kind != KIND_NONE && c.kind <= KIND_MAX && (c.kind == KIND_GPIO ==> c.id < GPIO_LIMIT)
  }

  /** What the device requires of a claim list. */
  ghost predicate DeviceAccepts(board: Board, claims: seq<Claim>, held: iset<Pin>) {
    && |claims| <= MAX_RES
    && (forall c <- claims :: ClaimSane(c))
    && Acceptable(board, claims, held)
  }

  /** A prefix of an acceptable list is acceptable, and what one more claim must satisfy. */
  lemma AcceptableStep(board: Board, claims: seq<Claim>, i: nat, held: iset<Pin>)
    requires i < |claims|
    ensures AllPins(board, claims[..i + 1]) == AllPins(board, claims[..i]) + PinsOf(board, claims[i])
  {
    assert claims[..i + 1][..i] == claims[..i];
  }

  lemma {:induction false} AllPinsPrefix(board: Board, claims: seq<Claim>, i: nat)
    requires i <= |claims|
    ensures AllPins(board, claims[..i]) <= AllPins(board, claims)
    decreases |claims| - i
  {
    if i < |claims| {
      AllPinsPrefix(board, claims, i + 1);
      AcceptableStep(board, claims, i, iset{});
    } else {
      assert claims[..i] == claims;
    }
  }

  /** One bad pin anywhere makes the whole list unacceptable. */
  lemma BadPinRefuses(board: Board, claims: seq<Claim>, i: nat, k: nat, held: iset<Pin>)
    requires i < |claims| && k < |PinsOf(board, claims[i])|
    requires var pin := PinsOf(board, claims[i])[k];
      Hard(board.owners, pin) || pin in held || pin in AllPins(board, claims[..i]) + PinsOf(board, claims[i])[..k]
    ensures !Acceptable(board, claims, held)
  {
    hide Hard, PinsOf;
    var before, all := AllPins(board, claims[..i]), AllPins(board, claims);
    AcceptableStep(board, claims, i, held);
    AllPinsPrefix(board, claims, i + 1);
    var at := |before| + k;
    assert all[at] == (before + PinsOf(board, claims[i]))[at] == PinsOf(board, claims[i])[k];
    if all[at] in before + PinsOf(board, claims[i])[..k] {
      var j :| 0 <= j < at && (before + PinsOf(board, claims[i])[..k])[j] == all[at];
      assert all[j] == (before + PinsOf(board, claims[i]))[j] == all[at];
    }
  }
}
