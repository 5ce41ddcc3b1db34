/**
 The slot table as values, and the three invariants that keep four modules apart: whose
 arena blocks are whose, whose pins are whose, and where each interrupt is routed.
 */
module Slots {
  import opened BuddyBlocks
  import opened Registry
  import opened Resources

  /** What of a slot the invariants speak about. `armed` are its interrupting GPIO claims. */
  datatype View = View(state: State, held: bool, blocks: set<Block>, claims: seq<Claim>, armed: set<nat>)

  const ROUTES: nat := 32
  const NOBODY: int := -1

  const VACANT: View := View(Empty, false, {}, [], {})

  lemma AllVacant(board: Board, vs: seq<View>, routes: seq<int>)
    requires forall i :: 0 <= i < |vs| ==> vs[i] == VACANT
    requires |routes| == ROUTES && forall i :: 0 <= i < ROUTES ==> routes[i] == NOBODY
    ensures ArenaOk(vs, {}) && PinsOk(board, vs) && RoutesOk(vs, routes)
  {
  }

  // ---- arena -----------------------------------------------------------

  ghost predicate NoSharing(vs: seq<View>) {
    forall i, j :: 0 <= i < j < |vs| ==> vs[i].blocks !! vs[j].blocks
  }

  lemma NoSharingSet(vs: seq<View>, i: nat, v: View)
    requires NoSharing(vs) && i < |vs| && forall j :: 0 <= j < |vs| && j != i ==> v.blocks !! vs[j].blocks
    ensures NoSharing(vs[i := v])
  {
    var us := vs[i := v];
    forall j, k | 0 <= j < k < |us|
      ensures us[j].blocks !! us[k].blocks
    {
      assert vs[j].blocks !! vs[k].blocks;
    }
  }

  /** Residents hold three blocks each, no block has two holders, and nothing else is live. */
  ghost predicate ArenaOk(vs: seq<View>, live: set<Block>) {
    && (forall i :: 0 <= i < |vs| ==> (vs[i].held <==> vs[i].state != Empty) && (!vs[i].held ==> vs[i].blocks == {}))
    && NoSharing(vs)
    && (forall i :: 0 <= i < |vs| ==> vs[i].blocks <= live)
    && (forall b <- live :: exists i :: 0 <= i < |vs| && b in vs[i].blocks)
  }

  lemma BlocksKept(vs: seq<View>, live: set<Block>, i: nat, j: nat)
    requires ArenaOk(vs, live) && i < |vs| && j < |vs| && i != j
    ensures vs[j].blocks <= live - vs[i].blocks
  {
    assert i < j ==> vs[i].blocks !! vs[j].blocks;
    assert j < i ==> vs[j].blocks !! vs[i].blocks;
  }

  lemma ArenaVacated(vs: seq<View>, live: set<Block>, i: nat, v: View)
    requires ArenaOk(vs, live) && i < |vs| && v.state == Empty && !v.held && v.blocks == {}
    ensures ArenaOk(vs[i := v], live - vs[i].blocks)
  {
    hide NoSharing;
    var us, rest := vs[i := v], live - vs[i].blocks;
    NoSharingSet(vs, i, v);
    forall j | 0 <= j < |us|
      ensures us[j].blocks <= rest
    {
      if j != i {
        BlocksKept(vs, live, i, j);
      }
    }
    forall b <- rest
      ensures exists j :: 0 <= j < |us| && b in us[j].blocks
    {
      var j :| 0 <= j < |vs| && b in vs[j].blocks;
      assert b in us[j].blocks;
    }
  }

  lemma ArenaTaken(vs: seq<View>, live: set<Block>, i: nat, v: View)
    requires ArenaOk(vs, live) && i < |vs| && !vs[i].held && v.state != Empty && v.held && v.blocks !! live
    ensures ArenaOk(vs[i := v], live + v.blocks)
  {
    hide NoSharing;
    var us := vs[i := v];
    NoSharingSet(vs, i, v);
    forall b <- live + v.blocks
      ensures exists j :: 0 <= j < |us| && b in us[j].blocks
    {
      if b in v.blocks {
        assert b in us[i].blocks;
      } else {
        var j :| 0 <= j < |vs| && b in vs[j].blocks;
        assert b in us[j].blocks;
      }
    }
  }

  /** A change of state among the resident ones, or of anything but blocks. */
  lemma ArenaKept(vs: seq<View>, live: set<Block>, i: nat, v: View)
    requires ArenaOk(vs, live) && i < |vs|
    requires v.held == vs[i].held && v.blocks == vs[i].blocks && (v.state == Empty <==> vs[i].state == Empty)
    ensures ArenaOk(vs[i := v], live)
  {
    hide NoSharing;
    var us := vs[i := v];
    forall j | 0 <= j < |vs| && j != i
      ensures v.blocks !! vs[j].blocks
    {
      BlocksKept(vs, live, i, j);
    }
    NoSharingSet(vs, i, v);
    assert forall j :: 0 <= j < |us| ==> us[j].blocks == vs[j].blocks && us[j].held == vs[j].held && (us[j].state == Empty <==> vs[j].state == Empty);
    forall b <- live
      ensures exists j :: 0 <= j < |us| && b in us[j].blocks
    {
      var j :| 0 <= j < |vs| && b in vs[j].blocks;
      assert b in us[j].blocks;
    }
  }

  // ---- pins ------------------------------------------------------------

  predicate Holds(board: Board, v: View, pin: Pin) {
    v.state != Empty && pin in AllPins(board, v.claims)
  }

  /** No pin has two residents, none is claimed twice by one, and none is the host's own. */
  ghost predicate PinsOk(board: Board, vs: seq<View>) {
    && (forall i :: 0 <= i < |vs| && vs[i].state != Empty ==> DeviceAccepts(board, vs[i].claims, iset{}))
    && (forall i, j, pin :: 0 <= i < j < |vs| && Holds(board, vs[i], pin) ==> !Holds(board, vs[j], pin))
  }

  /** The pins of every resident but slot `i`. */
  ghost predicate HeldElsewhere(board: Board, vs: seq<View>, i: nat, pin: Pin) {
    exists j :: 0 <= j < |vs| && j != i && Holds(board, vs[j], pin)
  }

  ghost function HeldFrom(board: Board, vs: seq<View>, i: nat): iset<Pin> {
    iset pin: Pin | HeldElsewhere(board, vs, i, pin)
  }

  /** What happens in slot `i` itself does not matter. */
  lemma HeldFromOthers(board: Board, vs: seq<View>, i: nat, v: View)
    requires i < |vs|
    ensures HeldFrom(board, vs[i := v], i) == HeldFrom(board, vs, i)
  {
    hide Holds;
    var us := vs[i := v];
    forall pin: Pin
      ensures HeldElsewhere(board, us, i, pin) <==> HeldElsewhere(board, vs, i, pin)
    {
      assert forall j :: 0 <= j < |vs| && j != i ==> us[j] == vs[j];
    }
  }

  lemma PinsTaken(board: Board, vs: seq<View>, i: nat, v: View)
    requires PinsOk(board, vs) && i < |vs| && DeviceAccepts(board, v.claims, HeldFrom(board, vs, i))
    ensures PinsOk(board, vs[i := v])
  {
    hide AllPins, Hard, PinsOf;
    var us := vs[i := v];
    forall j, pin | 0 <= j < |vs| && j != i && Holds(board, us[i], pin)
      ensures !Holds(board, us[j], pin)
    {
      assert us[j] == vs[j];
      assert Holds(board, vs[j], pin) ==> HeldElsewhere(board, vs, i, pin);
    }
    assert Acceptable(board, v.claims, iset{});
  }

  lemma PinsVacated(board: Board, vs: seq<View>, i: nat, v: View)
    requires PinsOk(board, vs) && i < |vs| && v.state == Empty
    ensures PinsOk(board, vs[i := v])
  {
    hide AllPins, DeviceAccepts;
  }

  lemma PinsKept(board: Board, vs: seq<View>, i: nat, v: View)
    requires PinsOk(board, vs) && i < |vs| && v.claims == vs[i].claims && (v.state == Empty <==> vs[i].state == Empty)
    ensures PinsOk(board, vs[i := v])
  {
    hide AllPins, DeviceAccepts;
    var us := vs[i := v];
    assert forall j, pin :: 0 <= j < |vs| ==> (Holds(board, us[j], pin) <==> Holds(board, vs[j], pin));
  }

  // ---- interrupt routes ------------------------------------------------

  /** The slot declared this whitelist pin. */
  ghost predicate Declares(v: View, id: nat) {
    exists c <- v.claims :: c.kind == KIND_GPIO && c.id == id && c.edge != 0
  }

  /** Whatever the slot armed it declared, and is routed to it. */
  ghost predicate Armed(v: View, routes: seq<int>, i: nat) {
    forall id <- v.armed :: id < |routes| && routes[id] == i && Declares(v, id)
  }

  /** An interrupt goes to the one resident that armed it, or to nobody. */
  ghost predicate RoutesOk(vs: seq<View>, routes: seq<int>) {
    && |routes| == ROUTES
    && (forall i :: 0 <= i < |vs| && vs[i].state == Empty ==> vs[i].armed == {})
    && (forall i :: 0 <= i < |vs| ==> Armed(vs[i], routes, i))
    && (forall id :: 0 <= id < ROUTES && routes[id] != NOBODY ==> 0 <= routes[id] < |vs| && id in vs[routes[id]].armed)
  }

  /** A claim of a kind and instance has one resident holder: it is one set of physical pins. */
  lemma ClaimedOnce(board: Board, vs: seq<View>, i: nat, j: nat, c: Claim, d: Claim)
    requires PinsOk(board, vs) && i < |vs| && j < |vs| && vs[i].state != Empty && vs[j].state != Empty
    requires c in vs[i].claims && d in vs[j].claims && c.kind == d.kind && c.id == d.id
    ensures i == j
  {
    hide AllPins, Hard;
    var pin := ClaimedPin(board, vs[i], c);
    assert PinsOf(board, c) == PinsOf(board, d);
    ClaimedPinIsHeld(board, vs[j], d, pin);
    assert Holds(board, vs[i], pin) && Holds(board, vs[j], pin);
  }

  lemma ClaimedPin(board: Board, v: View, c: Claim) returns (pin: Pin)
    requires DeviceAccepts(board, v.claims, iset{}) && c in v.claims
    ensures pin in PinsOf(board, c) && pin in AllPins(board, v.claims)
  {
    pin := PinsOf(board, c)[0];
    ClaimedPinIsHeld(board, v, c, pin);
  }

  lemma ClaimedPinIsHeld(board: Board, v: View, c: Claim, pin: Pin)
    requires DeviceAccepts(board, v.claims, iset{}) && c in v.claims && pin in PinsOf(board, c)
    ensures pin in AllPins(board, v.claims)
  {
    hide PinsOf, Hard;
    var k :| 0 <= k < |v.claims| && v.claims[k] == c;
    AcceptableStep(board, v.claims, k, iset{});
    AllPinsPrefix(board, v.claims, k + 1);
    assert pin in AllPins(board, v.claims[..k + 1]);
  }

  /** Two residents never declare the same whitelist pin: it is one physical pin. */
  lemma DeclaredOnce(board: Board, vs: seq<View>, i: nat, j: nat, id: nat)
    requires PinsOk(board, vs) && i < |vs| && j < |vs| && i != j
    requires vs[i].state != Empty && vs[j].state != Empty && Declares(vs[i], id)
    ensures !Declares(vs[j], id)
  {
    if Declares(vs[j], id) {
      var pin := DeclaredPin(board, vs[i], id);
      var same := DeclaredPin(board, vs[j], id);
      assert Holds(board, vs[i], pin) && Holds(board, vs[j], pin);
    }
  }

  lemma DeclaredPin(board: Board, v: View, id: nat) returns (pin: Pin)
    requires DeviceAccepts(board, v.claims, iset{}) && Declares(v, id)
    ensures id < |board.gpio| && pin == board.gpio[id] && pin in AllPins(board, v.claims)
  {
    var k :| 0 <= k < |v.claims| && v.claims[k].kind == KIND_GPIO && v.claims[k].id == id;
    assert PinsOf(board, v.claims[k]) != [];
    pin := board.gpio[id];
    AcceptableStep(board, v.claims, k, iset{});
    AllPinsPrefix(board, v.claims, k + 1);
    var before := AllPins(board, v.claims[..k]);
    assert (before + PinsOf(board, v.claims[k]))[|before|] == pin;
    assert AllPins(board, v.claims)[|before|] == pin;
  }

  lemma RouteArmed(board: Board, vs: seq<View>, routes: seq<int>, i: nat, id: nat, v: View)
    requires PinsOk(board, vs) && RoutesOk(vs, routes) && i < |vs| && vs[i].state != Empty
    requires id < ROUTES && Declares(vs[i], id) && v == vs[i].(armed := vs[i].armed + {id})
    ensures RoutesOk(vs[i := v], routes[id := i])
    ensures forall j :: 0 <= j < |vs| && j != i ==> id !in vs[j].armed
  {
    hide PinsOk;
    forall j | 0 <= j < |vs| && j != i
      ensures id !in vs[j].armed
    {
      if id in vs[j].armed {
        assert Armed(vs[j], routes, j) && vs[j].state != Empty;
        DeclaredOnce(board, vs, i, j, id);
        assert false;
      }
    }
    SameDeclarations(vs[i], v);
    var us := vs[i := v];
    forall j | 0 <= j < |us|
      ensures Armed(us[j], routes[id := i], j)
    {
      assert Armed(vs[j], routes, j);
    }
  }

  lemma SameDeclarations(u: View, v: View)
    requires u.claims == v.claims
    ensures forall id :: Declares(u, id) <==> Declares(v, id)
  {
  }

  lemma RoutesVacated(vs: seq<View>, routes: seq<int>, i: nat, v: View, after: seq<int>)
    requires RoutesOk(vs, routes) && i < |vs| && v.armed == {} && |after| == ROUTES
    requires forall id :: 0 <= id < ROUTES ==> after[id] == if routes[id] == i then NOBODY else routes[id]
    ensures RoutesOk(vs[i := v], after)
  {
    var us := vs[i := v];
    forall j | 0 <= j < |us|
      ensures Armed(us[j], after, j)
    {
      assert Armed(vs[j], routes, j);
    }
    forall id | 0 <= id < ROUTES && after[id] != NOBODY
      ensures 0 <= after[id] < |us| && id in us[after[id]].armed
    {
      assert after[id] == routes[id] != i;
    }
  }

  lemma RoutesKept(vs: seq<View>, routes: seq<int>, i: nat, v: View)
    requires RoutesOk(vs, routes) && i < |vs| && v.armed == vs[i].armed && (v.state == Empty ==> v.armed == {})
    requires v.armed != {} ==> v.claims == vs[i].claims
    ensures RoutesOk(vs[i := v], routes)
  {
    if v.armed != {} {
      SameDeclarations(vs[i], v);
    }
    var us := vs[i := v];
    forall j | 0 <= j < |us|
      ensures Armed(us[j], routes, j)
    {
      assert Armed(vs[j], routes, j);
    }
  }
}
