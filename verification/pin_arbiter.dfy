/**
 mdl/host/host_resources.c and check_resources() of mdl/core/loader.c: array scans over
 the claims, the tables and the other slots, proved to decide `DeviceAccepts`.
 */
module PinArbiter {
  import opened Resources
  import opened Registry

  /** Does this resident module hold the pin? */
  predicate ModuleHolds(board: Board, m: Module, pin: Pin)
    reads m
  {
    m.state != Empty && pin in AllPins(board, m.res)
  }

  ghost predicate SomeoneHolds(board: Board, slots: seq<Module>, exclude: Module?, pin: Pin)
    reads slots
  {
    exists m <- slots :: m != exclude && ModuleHolds(board, m, pin)
  }

  /** Every pin held by a resident module other than `exclude`. */
  ghost function HeldPins(board: Board, slots: seq<Module>, exclude: Module?): iset<Pin>
    reads slots
  {
    iset pin: Pin | SomeoneHolds(board, slots, exclude, pin)
  }

  /** periph_lookup() and res_pins() */
  method ResPins(board: Board, c: Claim) returns (pins: seq<Pin>)
    requires Tabulated(board)
    ensures pins == PinsOf(board, c) && |pins| <= MAX_PINS
  {
    PinsOfBound(board, c);
    if c.kind == KIND_GPIO {
      return if c.id < |board.gpio| then [board.gpio[c.id]] else [];
    }
    for i := 0 to |board.periphs|
      invariant PeriphPins(board.periphs, c.kind, c.id) == PeriphPins(board.periphs[i..], c.kind, c.id)
    {
      if board.periphs[i].kind == c.kind && board.periphs[i].id == c.id {
        return board.periphs[i].pins;
      }
      assert board.periphs[i..][1..] == board.periphs[i + 1..];
    }
    return [];
  }

  /** pin_owner(), and the question asked of its answer. */
  method HostHolds(board: Board, pin: Pin) returns (hard: bool)
    ensures hard == Hard(board.owners, pin)
  {
    for i := 0 to |board.owners|
      invariant Hard(board.owners, pin) == Hard(board.owners[i..], pin)
    {
      if board.owners[i].pin == pin {
        return board.owners[i].hard;
      }
      assert board.owners[i..][1..] == board.owners[i + 1..];
    }
    return false;
  }

  /** The inner loops of pin_held_by_module(), for one slot's claims. */
  method ClaimsHold(board: Board, claims: seq<Claim>, pin: Pin) returns (held: bool)
    requires Tabulated(board)
    ensures held <==> pin in AllPins(board, claims)
  {
    hide PinsOf, Acceptable, NoRepeats, Tabulated;
    for r := 0 to |claims|
      invariant pin !in AllPins(board, claims[..r])
    {
      AcceptableStep(board, claims, r, iset{});
      AllPinsPrefix(board, claims, r + 1);
      var pins := ResPins(board, claims[r]);
      for k := 0 to |pins|
        invariant pin !in pins[..k]
      {
        if pins[k] == pin {
          assert pin in AllPins(board, claims[..r + 1]);
          return true;
        }
      }
    }
    assert claims[..|claims|] == claims;
    return false;
  }

  /** pin_held_by_module() */
  method PinHeldByModule(board: Board, slots: seq<Module>, exclude: Module?, pin: Pin) returns (held: bool)
    requires Tabulated(board)
    ensures held <==> pin in HeldPins(board, slots, exclude)
  {
    for i := 0 to |slots|
      invariant forall j :: 0 <= j < i ==> slots[j] == exclude || !ModuleHolds(board, slots[j], pin)
    {
      var m := slots[i];
      if m.state == Empty || m == exclude {
        continue;
      }
      var here := ClaimsHold(board, m.res, pin);
      if here {
        assert m in slots && ModuleHolds(board, m, pin);
        return true;
      }
    }
    return false;
  }

  lemma NoPins(board: Board)
    ensures AllPins(board, []) == []
  {
  }

  /** mdl_res_check(): `seen` has room for every pin eight claims can name. */
  method ResCheck(board: Board, slots: seq<Module>, claims: seq<Claim>, exclude: Module?) returns (ok: bool)
    requires Tabulated(board) && |claims| <= MAX_RES
    ensures ok <==> Acceptable(board, claims, HeldPins(board, slots, exclude))
  {
    hide PinsOf, Hard, HeldPins, AllPins;
    NoPins(board);
    var seen := new Pin[MAX_RES * MAX_PINS];
    var nseen := 0;
    ghost var held := HeldPins(board, slots, exclude);
    for i := 0 to |claims|
      invariant nseen <= MAX_PINS * i && seen[..nseen] == AllPins(board, claims[..i])
      invariant Acceptable(board, claims[..i], held) && held == HeldPins(board, slots, exclude)
    {
      var pins := ResPins(board, claims[i]);
      if |pins| == 0 {
        assert claims[i] in claims;
        return false;
      }
      for k := 0 to |pins|
        invariant nseen <= MAX_PINS * i + k && seen[..nseen] == AllPins(board, claims[..i]) + pins[..k]
        invariant NoRepeats(seen[..nseen]) && held == HeldPins(board, slots, exclude)
        invariant forall p <- seen[..nseen] :: !Hard(board.owners, p) && p !in held
      {
        var clash := PinClash(board, slots, exclude, pins[k], seen, nseen);
        if clash {
          BadPinRefuses(board, claims, i, k, held);
          return false;
        }
        if nseen < MAX_RES * MAX_PINS {
          seen[nseen] := pins[k];
          nseen := nseen + 1;
        }
        assert seen[..nseen] == AllPins(board, claims[..i]) + pins[..k + 1];
      }
      AcceptableStep(board, claims, i, held);
      assert claims[..i + 1] == claims[..i] + [claims[i]];
    }
    assert claims[..|claims|] == claims;
    return true;
  }

  /** The three refusals for one pin: the host's, a neighbour's, already claimed here. */
  method PinClash(board: Board, slots: seq<Module>, exclude: Module?, pin: Pin, seen: array<Pin>, nseen: nat) returns (clash: bool)
    requires Tabulated(board) && nseen <= seen.Length
    ensures clash <==> Hard(board.owners, pin) || pin in HeldPins(board, slots, exclude) || pin in seen[..nseen]
  {
    var hard := HostHolds(board, pin);
    if hard {
      return true;
    }
    var other := PinHeldByModule(board, slots, exclude, pin);
    if other {
      return true;
    }
    for j := 0 to nseen
      invariant pin !in seen[..j]
    {
      if seen[j] == pin {
        return true;
      }
    }
    return false;
  }

  datatype Verdict = Fine | BadRes | Conflict

  /** check_resources() */
  method CheckResources(board: Board, slots: seq<Module>, claims: seq<Claim>, dest: Module?) returns (v: Verdict)
    requires Tabulated(board)
    ensures v == Fine <==> DeviceAccepts(board, claims, HeldPins(board, slots, dest))
    ensures v == BadRes <==> |claims| > MAX_RES || exists c <- claims :: !ClaimSane(c)
  {
    if |claims| > MAX_RES {
      return BadRes;
    }
    for i := 0 to |claims|
      invariant forall j :: 0 <= j < i ==> ClaimSane(claims[j])
    {
      if claims[i].kind == KIND_NONE || claims[i].kind > KIND_MAX {
        assert claims[i] in claims && !ClaimSane(claims[i]);
        return BadRes;
      }
      if claims[i].kind == KIND_GPIO && claims[i].id >= GPIO_LIMIT {
        assert claims[i] in claims && !ClaimSane(claims[i]);
        return BadRes;
      }
    }
    var ok := ResCheck(board, slots, claims, dest);
    v := if ok then Fine else Conflict;
  }
}
