/**
 mdl_supervisor_restore() of mdl/core/supervisor.c as values: what one saved entry does to
 the slot table, what becomes of every entry, and when the commands stay unambiguous.
 */
module BootRestore {
  import opened BuddyBlocks
  import opened Bytes
  import opened CommandNames
  import opened Loading
  import opened Registry
  import opened Resources
  import opened SlotNames
  import opened Slots

  /** board_persist_entry(): the image, or nothing usable. */
  datatype Saved = Unreadable | Stored(image: Image)

  ghost predicate Usable(e: Saved) {
    e.Stored? ==> e.image.WellMade()
  }

  /** The command the entry's module would answer to. */
  function CommandOf(e: Saved): seq<Byte>
    requires Usable(e)
  {
    if e.Stored? then e.image.Command() else []
  }

  /** The table, its names and commands, and the arena, between two entries of a restore. */
  datatype Moment = Moment(vs: seq<View>, names: seq<seq<Byte>>, cs: seq<seq<Byte>>, live: set<Block>) {
    predicate Wide() {
      |vs| == |names| == |cs|
    }
  }

  /** The first slot nobody is in, or the number of slots. */
  ghost function FirstFree(vs: seq<View>): (i: nat)
    ensures i <= |vs| && (i < |vs| ==> vs[i].state == Empty) && forall j :: 0 <= j < i ==> vs[j].state != Empty
  {
    if vs == [] || vs[0].state == Empty then 0
    else
      var i := FirstFree(vs[1..]);
      assert forall j :: 0 < j < i + 1 ==> vs[j] == vs[1..][j - 1];
      i + 1
  }

  lemma FirstFreeIs(vs: seq<View>, i: nat)
    requires i < |vs| && vs[i].state == Empty && forall j :: 0 <= j < i ==> vs[j].state != Empty
    ensures FirstFree(vs) == i
  {
  }

  lemma NoneFree(vs: seq<View>)
    requires forall j :: 0 <= j < |vs| ==> vs[j].state != Empty
    ensures FirstFree(vs) == |vs|
  {
  }

  /** This image runs in slot `i`, in blocks of its own size classes, under its name and command. */
  ghost predicate Hosts(s: Site, m: Moment, i: nat, image: Image)
    requires image.WellMade()
  {
    && i < |m.vs| && m.Wide()
    && m.vs[i].state == Running && m.vs[i].claims == image.Claims() && Classed(s, m.vs[i].blocks, image)
    && m.names[i] == KeptName(image.file.name) && m.cs[i] == image.Command()
  }

  ghost predicate Admissible(s: Site, at: Moment, image: Image)
    requires image.WellMade()
  {
    Answer(s, at.live, HeldFrom(s.board, at.vs, FirstFree(at.vs)), image) == Ok
  }

  /** The entry comes up at its turn. */
  ghost predicate Comes(s: Site, at: Moment, e: Saved)
    requires Usable(e)
  {
    e.Stored? && FirstFree(at.vs) < |at.vs| && Admissible(s, at, e.image)
  }

  /** Nothing but slot `i` of the table differs. */
  predicate OnlyAt(before: Moment, i: nat, after: Moment) {
    && i < |before.vs| && before.Wide() && |after.vs| == |before.vs| && after.Wide()
    && after.vs == before.vs[i := after.vs[i]] && after.names == before.names[i := after.names[i]] && after.cs == before.cs[i := after.cs[i]]
  }

  /** What one saved entry does: nothing, or it comes up in the first free slot, or that slot stays empty. */
  ghost predicate Turn(s: Site, before: Moment, e: Saved, after: Moment)
    requires Usable(e)
  {
    var i := FirstFree(before.vs);
    && before.Wide()
    && if e.Unreadable? || i == |before.vs| then after == before
       else
         && OnlyAt(before, i, after)
         && if Admissible(s, before, e.image) then Hosts(s, after, i, e.image) && after.live == before.live + after.vs[i].blocks
            else after.vs[i].state == Empty && after.cs == before.cs && after.live == before.live
  }

  ghost predicate Turns(s: Site, moments: seq<Moment>, saved: seq<Saved>)
    requires forall j :: 0 <= j < |saved| ==> Usable(saved[j])
  {
    |moments| == |saved| + 1 && forall n :: 0 <= n < |saved| ==> Turn(s, moments[n], saved[n], moments[n + 1])
  }

  lemma FullTurn(s: Site, at: Moment, e: Saved)
    requires Usable(e) && at.Wide() && FirstFree(at.vs) == |at.vs|
    ensures Turn(s, at, e, at)
  {
  }

  /** With no slot free the entries that are left change nothing. */
  lemma FullRest(s: Site, moments: seq<Moment>, saved: seq<Saved>) returns (all: seq<Moment>)
    requires 0 < |moments| <= |saved| + 1 && forall j :: 0 <= j < |saved| ==> Usable(saved[j])
    requires forall n :: 0 <= n < |moments| - 1 ==> Turn(s, moments[n], saved[n], moments[n + 1])
    requires var last := moments[|moments| - 1]; last.Wide() && FirstFree(last.vs) == |last.vs|
    ensures Turns(s, all, saved) && all[0] == moments[0] && all[|saved|] == moments[|moments| - 1]
  {
    hide Turn, FirstFree;
    var last := moments[|moments| - 1];
    all := moments + seq(|saved| + 1 - |moments|, _ => last);
    forall n | 0 <= n < |saved|
      ensures Turn(s, all[n], saved[n], all[n + 1])
    {
      if n >= |moments| - 1 {
        FullTurn(s, last, saved[n]);
      }
    }
  }

  // ---- what becomes of the entries ---------------------------------------

  /** The entry could not be read, found no free slot, was refused at its turn, or runs in the end. */
  ghost predicate AccountedFor(s: Site, at: Moment, e: Saved, end: Moment)
    requires Usable(e)
  {
    || e.Unreadable? || FirstFree(at.vs) == |at.vs|
    || !Admissible(s, at, e.image)
    || Hosts(s, end, FirstFree(at.vs), e.image)
  }

  /** One turn touches no resident. */
  lemma TurnKeeps(s: Site, before: Moment, e: Saved, after: Moment, i: nat)
    requires Usable(e) && Turn(s, before, e, after) && i < |before.vs| && before.vs[i].state != Empty
    ensures after.Wide() && |after.vs| == |before.vs|
    ensures after.vs[i] == before.vs[i] && after.names[i] == before.names[i] && after.cs[i] == before.cs[i]
  {
    hide Admissible, Hosts, Image.WellMade;
  }

  /** So a resident is as it was after any number of them. */
  lemma {:induction false} StaysIn(s: Site, moments: seq<Moment>, saved: seq<Saved>, n: nat, k: nat, i: nat)
    requires (forall j :: 0 <= j < |saved| ==> Usable(saved[j])) && Turns(s, moments, saved)
    requires n <= k <= |saved| && moments[n].Wide() && i < |moments[n].vs| && moments[n].vs[i].state != Empty
    ensures moments[k].Wide() && |moments[k].vs| == |moments[n].vs|
    ensures moments[k].vs[i] == moments[n].vs[i] && moments[k].names[i] == moments[n].names[i] && moments[k].cs[i] == moments[n].cs[i]
    decreases k - n
  {
    hide Turn, Usable;
    if n < k {
      assert Turn(s, moments[n], saved[n], moments[n + 1]);
      TurnKeeps(s, moments[n], saved[n], moments[n + 1], i);
      StaysIn(s, moments, saved, n + 1, k, i);
    }
  }

  lemma ComesUp(s: Site, before: Moment, e: Saved, after: Moment)
    requires Usable(e) && Turn(s, before, e, after)
    ensures before.Wide() && after.Wide() && |after.vs| == |before.vs|
    ensures Comes(s, before, e) ==> Hosts(s, after, FirstFree(before.vs), e.image)
    ensures Comes(s, before, e) ==> after.cs == before.cs[FirstFree(before.vs) := CommandOf(e)]
    ensures !Comes(s, before, e) ==> after.cs == before.cs
  {
    hide Admissible, Image.WellMade, Image.Claims, Classed, KeptName, Image.Command;
  }

  lemma StillHosts(s: Site, m: Moment, end: Moment, i: nat, image: Image)
    requires image.WellMade() && Hosts(s, m, i, image) && end.Wide() && |end.vs| == |m.vs|
    requires end.vs[i] == m.vs[i] && end.names[i] == m.names[i] && end.cs[i] == m.cs[i]
    ensures Hosts(s, end, i, image)
  {
  }

  lemma EveryTurnCounts(s: Site, moments: seq<Moment>, saved: seq<Saved>)
    requires (forall j :: 0 <= j < |saved| ==> Usable(saved[j])) && Turns(s, moments, saved)
    ensures forall n :: 0 <= n < |saved| ==> AccountedFor(s, moments[n], saved[n], moments[|saved|])
  {
    hide Turn, Admissible, Hosts, FirstFree, Image.WellMade;
    forall n | 0 <= n < |saved|
      ensures AccountedFor(s, moments[n], saved[n], moments[|saved|])
    {
      if saved[n].Stored? && Comes(s, moments[n], saved[n]) {
        ComesStays(s, moments, saved, n, |saved|);
      }
    }
  }

  /** What came up at turn `n` is there at every later moment. */
  lemma ComesStays(s: Site, moments: seq<Moment>, saved: seq<Saved>, n: nat, k: nat)
    requires (forall j :: 0 <= j < |saved| ==> Usable(saved[j])) && Turns(s, moments, saved)
    requires n < k <= |saved| && Comes(s, moments[n], saved[n])
    ensures Hosts(s, moments[k], FirstFree(moments[n].vs), saved[n].image)
    ensures FirstFree(moments[n].vs) < |moments[k].cs| && moments[k].cs[FirstFree(moments[n].vs)] == CommandOf(saved[n])
  {
    hide Turn, Admissible, FirstFree, Image.WellMade, Classed;
    var i := FirstFree(moments[n].vs);
    ComesUp(s, moments[n], saved[n], moments[n + 1]);
    StaysIn(s, moments, saved, n + 1, k, i);
    StillHosts(s, moments[n + 1], moments[k], i, saved[n].image);
  }

  // ---- commands ------------------------------------------------------------

  /** No slot answers to anything. */
  ghost predicate Silent(cs: seq<seq<Byte>>) {
    forall j :: 0 <= j < |cs| ==> cs[j] == []
  }

  /** Entries `m` and `n` both come up and answer to one command. */
  ghost predicate Clash(s: Site, moments: seq<Moment>, saved: seq<Saved>, m: nat, n: nat)
    requires (forall j :: 0 <= j < |saved| ==> Usable(saved[j])) && |moments| == |saved| + 1 && m < |saved| && n < |saved|
  {
    Comes(s, moments[m], saved[m]) && Comes(s, moments[n], saved[n]) && Shared(CommandOf(saved[m]), CommandOf(saved[n]))
  }

  /** No two of the first `k` entries do. */
  ghost predicate NoClash(s: Site, moments: seq<Moment>, saved: seq<Saved>, k: nat)
    requires (forall j :: 0 <= j < |saved| ==> Usable(saved[j])) && |moments| == |saved| + 1 && k <= |saved|
  {
    forall m, n :: 0 <= m < n < k ==> !Clash(s, moments, saved, m, n)
  }

  /** Every command in the table was brought by an entry. */
  lemma {:induction false} BroughtBy(s: Site, moments: seq<Moment>, saved: seq<Saved>, k: nat, j: nat) returns (n: nat)
    requires (forall j :: 0 <= j < |saved| ==> Usable(saved[j])) && Turns(s, moments, saved) && moments[0].Wide()
    requires Silent(moments[0].cs)
    requires k <= |saved| && moments[k].Wide() && j < |moments[k].cs| && moments[k].cs[j] != []
    ensures n < k && Comes(s, moments[n], saved[n]) && moments[k].cs[j] == CommandOf(saved[n])
    decreases k
  {
    hide Turn, Comes, Image.WellMade, FirstFree;
    if k > 0 {
      var before, e := moments[k - 1], saved[k - 1];
      assert Turn(s, before, e, moments[k]);
      ComesUp(s, before, e, moments[k]);
      if moments[k].cs[j] == before.cs[j] {
        n := BroughtBy(s, moments, saved, k - 1, j);
      } else {
        n := k - 1;
      }
    } else {
      assert false;
    }
  }

  /** What turn `k` brings is shared by some slot exactly when an earlier entry clashes with it. */
  lemma SharedWithEarlier(s: Site, moments: seq<Moment>, saved: seq<Saved>, k: nat)
    requires (forall j :: 0 <= j < |saved| ==> Usable(saved[j])) && Turns(s, moments, saved) && moments[0].Wide()
    requires Silent(moments[0].cs)
    requires k < |saved| && Comes(s, moments[k], saved[k]) && moments[k].Wide()
    ensures (exists j :: 0 <= j < |moments[k].cs| && Shared(moments[k].cs[j], CommandOf(saved[k]))) <==>
            exists m :: 0 <= m < k && Clash(s, moments, saved, m, k)
  {
    hide Turn, Comes, Usable, FirstFree, CommandOf, Shared, Hosts;
    var cs, mine := moments[k].cs, CommandOf(saved[k]);
    if j :| 0 <= j < |cs| && Shared(cs[j], mine) {
      NothingShared(mine);
      var m := BroughtBy(s, moments, saved, k, j);
      assert Clash(s, moments, saved, m, k);
    }
    if m :| 0 <= m < k && Clash(s, moments, saved, m, k) {
      ComesStays(s, moments, saved, m, k);
      var i := FirstFree(moments[m].vs);
      assert Shared(cs[i], mine);
    }
  }

  /**
   Starting from a table that answers to nothing, the commands are unambiguous at every
   moment exactly when no two entries that came up until then answer to one command.
   */
  lemma {:induction false} UnambiguousSoFar(s: Site, moments: seq<Moment>, saved: seq<Saved>, k: nat)
    requires (forall j :: 0 <= j < |saved| ==> Usable(saved[j])) && Turns(s, moments, saved) && moments[0].Wide()
    requires Silent(moments[0].cs)
    requires k <= |saved|
    ensures moments[k].Wide() && (Unambiguous(moments[k].cs) <==> NoClash(s, moments, saved, k))
    decreases k
  {
    hide Turn, Comes, Usable, Clash, Unambiguous, NoClash, FirstFree, CommandOf, Shared;
    if k == 0 {
      NothingAmbiguous(moments[0].cs);
      NoneYet(s, moments, saved);
    } else {
      var before, e := moments[k - 1], saved[k - 1];
      UnambiguousSoFar(s, moments, saved, k - 1);
      assert Turn(s, before, e, moments[k]);
      ComesUp(s, before, e, moments[k]);
      NoClashStep(s, moments, saved, k - 1);
      if Comes(s, before, e) {
        FreeIsEmpty(s, before, e);
        SharedWithEarlier(s, moments, saved, k - 1);
        EmptySlotIsSilent(s, moments, saved, k - 1, FirstFree(before.vs));
        BringsIff(before.cs, FirstFree(before.vs), CommandOf(e));
      } else {
        NoClashWithAbsent(s, moments, saved, k - 1);
      }
    }
  }

  lemma NoClashStep(s: Site, moments: seq<Moment>, saved: seq<Saved>, k: nat)
    requires (forall j :: 0 <= j < |saved| ==> Usable(saved[j])) && |moments| == |saved| + 1 && k < |saved|
    ensures NoClash(s, moments, saved, k + 1) <==> NoClash(s, moments, saved, k) && forall m :: 0 <= m < k ==> !Clash(s, moments, saved, m, k)
  {
    hide Clash, Usable;
  }

  lemma NoneYet(s: Site, moments: seq<Moment>, saved: seq<Saved>)
    requires (forall j :: 0 <= j < |saved| ==> Usable(saved[j])) && |moments| == |saved| + 1
    ensures NoClash(s, moments, saved, 0)
  {
  }

  lemma FreeIsEmpty(s: Site, at: Moment, e: Saved)
    requires Usable(e) && Comes(s, at, e)
    ensures FirstFree(at.vs) < |at.vs| && at.vs[FirstFree(at.vs)].state == Empty
  {
  }

  lemma NoClashWithAbsent(s: Site, moments: seq<Moment>, saved: seq<Saved>, k: nat)
    requires (forall j :: 0 <= j < |saved| ==> Usable(saved[j])) && |moments| == |saved| + 1 && k < |saved|
    requires !Comes(s, moments[k], saved[k])
    ensures forall m :: 0 <= m < k ==> !Clash(s, moments, saved, m, k)
  {
    hide Comes, CommandOf;
  }

  lemma NothingAmbiguous(cs: seq<seq<Byte>>)
    requires Silent(cs)
    ensures Unambiguous(cs)
  {
  }

  /** A slot that is empty at some moment answers to nothing then. */
  lemma {:induction false} EmptySlotIsSilent(s: Site, moments: seq<Moment>, saved: seq<Saved>, k: nat, i: nat)
    requires (forall j :: 0 <= j < |saved| ==> Usable(saved[j])) && Turns(s, moments, saved) && moments[0].Wide()
    requires Silent(moments[0].cs)
    requires k <= |saved| && moments[k].Wide() && i < |moments[k].vs| && moments[k].vs[i].state == Empty
    ensures moments[k].cs[i] == []
    decreases k
  {
    hide Comes, Image.WellMade, FirstFree, Admissible, Classed, KeptName, Image.Command;
    if k > 0 {
      assert Turn(s, moments[k - 1], saved[k - 1], moments[k]);
      if moments[k - 1].vs[i].state == Empty {
        EmptySlotIsSilent(s, moments, saved, k - 1, i);
      }
    }
  }

  /** Bringing a name makes a table ambiguous exactly if it was, or somebody answers to the name. */
  lemma BringsIff(cs: seq<seq<Byte>>, at: nat, stored: seq<Byte>)
    requires at < |cs| && cs[at] == []
    ensures Unambiguous(cs[at := stored]) <==> Unambiguous(cs) && forall j :: 0 <= j < |cs| ==> !Shared(cs[j], stored)
  {
    hide Unambiguous;
    assert cs[at := stored][at := []] == cs;
    SilencedKeeps(cs[at := stored], at);
    if Unambiguous(cs) {
      UnaskedKeepsIff(cs, at, stored);
    }
  }

  /** Over the whole restore: what becomes of every entry, and of the commands. */
  lemma RestoreMeans(s: Site, moments: seq<Moment>, saved: seq<Saved>)
    requires (forall j :: 0 <= j < |saved| ==> Usable(saved[j])) && Turns(s, moments, saved) && moments[0].Wide()
    ensures forall n :: 0 <= n < |saved| ==> AccountedFor(s, moments[n], saved[n], moments[|saved|])
    ensures Silent(moments[0].cs) ==> (Unambiguous(moments[|saved|].cs) <==> NoClash(s, moments, saved, |saved|))
  {
    hide Silent, Unambiguous, NoClash, AccountedFor, Usable;
    EveryTurnCounts(s, moments, saved);
    if Silent(moments[0].cs) {
      UnambiguousSoFar(s, moments, saved, |saved|);
    }
  }
}
