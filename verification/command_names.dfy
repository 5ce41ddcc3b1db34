/**
 Who owns a console command. A header carries the name in a 16-byte field that need not end
 in NUL; the loader keeps 15 characters of it; the supervisor asks, before it loads, with
 the field as it came.
 */
module CommandNames {
  import opened Bytes
  import opened FlashFormat
  import opened SlotNames

  /** MDL_CMD_NAME_MAX */
  const CMD_NAME_MAX: nat := 16

  /** A slot answers when its command and the 16 bytes asked for hold the same text, and it has any. */
  predicate Answers(stored: seq<Byte>, asked: seq<Byte>)
    requires |asked| == CMD_NAME_MAX
  {
    |stored| == CMD_NAME_MAX && UpToNul(stored) != [] && UpToNul(stored) == UpToNul(asked)
  }

  /** Which is what strcmp() and the test for an empty name decide. */
  lemma AnswersIff(stored: seq<Byte>, asked: seq<Byte>)
    requires |stored| == |asked| == CMD_NAME_MAX
    ensures Answers(stored, asked) <==> stored[0] != 0 && StrnEqual(stored, asked)
  {
    StrnIsText(stored, asked);
  }

  /** What mdl_load() keeps. */
  function KeptCommand(exports: bool, field: seq<Byte>): (stored: seq<Byte>)
    requires |field| == CMD_NAME_MAX
  {
    if exports then KeptName(field) else []
  }

  /** Stored names always end in NUL. */
  predicate Terminated(cs: seq<seq<Byte>>) {
    forall k :: 0 <= k < |cs| && cs[k] != [] ==> |cs[k]| == CMD_NAME_MAX && cs[k][CMD_NAME_MAX - 1] == 0
  }

  /** No typed command reaches two slots. */
  ghost predicate Unambiguous(cs: seq<seq<Byte>>) {
    forall j, k, asked: seq<Byte> | 0 <= j < k < |cs| && |asked| == CMD_NAME_MAX :: !(Answers(cs[j], asked) && Answers(cs[k], asked))
  }

  /** find_slot_by_command() returns this slot. */
  predicate FirstAnswer(cs: seq<seq<Byte>>, asked: seq<Byte>, k: nat)
    requires |asked| == CMD_NAME_MAX
  {
    k < |cs| && Answers(cs[k], asked) && forall j :: 0 <= j < k ==> !Answers(cs[j], asked)
  }

  /** handle_load() refuses the push: the first slot that answers is another one. */
  ghost predicate Refuses(cs: seq<seq<Byte>>, at: nat, field: seq<Byte>)
    requires |field| == CMD_NAME_MAX
  {
    field[0] != 0 && exists k: nat :: FirstAnswer(cs, field, k) && k != at
  }

  /** Accepting this command for slot `at` of this table leaves nothing ambiguous. */
  ghost predicate PushKeeps(cs: seq<seq<Byte>>, at: nat, field: seq<Byte>)
    requires |field| == CMD_NAME_MAX
  {
    Terminated(cs) && Unambiguous(cs) && at < |cs| && !Refuses(cs, at, field) ==> Unambiguous(cs[at := KeptName(field)])
  }

  lemma {:induction false} FirstExists(cs: seq<seq<Byte>>, asked: seq<Byte>, j: nat) returns (k: nat)
    requires |asked| == CMD_NAME_MAX && j < |cs| && Answers(cs[j], asked)
    ensures k <= j && FirstAnswer(cs, asked, k)
    decreases j
  {
    k := j;
    if i :| 0 <= i < j && Answers(cs[i], asked) {
      k := FirstExists(cs, asked, i);
    }
  }

  lemma OneFirst(cs: seq<seq<Byte>>, asked: seq<Byte>, i: nat)
    requires |asked| == CMD_NAME_MAX && FirstAnswer(cs, asked, i)
    ensures forall k: nat :: FirstAnswer(cs, asked, k) ==> k == i
  {
  }

  lemma OnlyOne(cs: seq<seq<Byte>>, i: nat, j: nat, asked: seq<Byte>)
    requires Unambiguous(cs) && i < |cs| && j < |cs| && i != j && |asked| == CMD_NAME_MAX
    ensures !(Answers(cs[i], asked) && Answers(cs[j], asked))
  {
    hide Answers;
    var lo, hi := if i < j then i else j, if i < j then j else i;
    assert !(Answers(cs[lo], asked) && Answers(cs[hi], asked));
  }

  /** A field that holds a NUL is asked for and kept as the same name. */
  lemma KeptIsAsked(field: seq<Byte>, x: seq<Byte>)
    requires |field| == |x| == CMD_NAME_MAX && 0 in field
    ensures UpToNul(KeptName(field)) == UpToNul(field)
    ensures Answers(x, KeptName(field)) <==> Answers(x, field)
  {
    KeptText(field);
  }

  lemma TerminatedFieldKeeps(cs: seq<seq<Byte>>, at: nat, field: seq<Byte>)
    requires |field| == CMD_NAME_MAX && 0 in field
    ensures PushKeeps(cs, at, field)
  {
    hide UpToNul;
    if Terminated(cs) && Unambiguous(cs) && at < |cs| && !Refuses(cs, at, field) {
      var kept := KeptName(field);
      var ds := cs[at := kept];
      forall j, k, asked: seq<Byte> | 0 <= j < k < |ds| && |asked| == CMD_NAME_MAX
        ensures !(Answers(ds[j], asked) && Answers(ds[k], asked))
      {
        if j != at && k != at {
          OnlyOne(cs, j, k, asked);
        } else if Answers(ds[j], asked) && Answers(ds[k], asked) {
          var other := if j == at then k else j;
          OtherAnswers(cs, at, field, other);
          assert false;
        }
      }
    }
  }

  /** A slot that answers to nothing more makes nothing ambiguous. */
  lemma SilencedKeeps(cs: seq<seq<Byte>>, at: nat)
    requires at < |cs|
    ensures Unambiguous(cs) ==> Unambiguous(cs[at := []])
  {
    hide Unambiguous;
    FewerKeep(cs, cs[at := []]);
  }

  /** Slots that fall silent make nothing ambiguous. */
  lemma FewerKeep(cs: seq<seq<Byte>>, ds: seq<seq<Byte>>)
    requires |cs| == |ds| && forall k :: 0 <= k < |cs| ==> ds[k] == cs[k] || ds[k] == []
    ensures Unambiguous(cs) ==> Unambiguous(ds)
  {
    hide UpToNul;
    if Unambiguous(cs) {
      forall j, k, asked: seq<Byte> | 0 <= j < k < |ds| && |asked| == CMD_NAME_MAX
        ensures !(Answers(ds[j], asked) && Answers(ds[k], asked))
      {
        OnlyOne(cs, j, k, asked);
      }
    }
  }

  /** Another slot that answers to the kept name would have stopped the push. */
  lemma OtherAnswers(cs: seq<seq<Byte>>, at: nat, field: seq<Byte>, j: nat)
    requires |field| == CMD_NAME_MAX && 0 in field && Unambiguous(cs) && at < |cs| && j < |cs| && j != at
    requires Answers(cs[j], KeptName(field))
    ensures Refuses(cs, at, field)
  {
    hide UpToNul;
    KeptIsAsked(field, cs[j]);
    assert Answers(cs[j], field);
    var k := FirstExists(cs, field, j);
    OnlyOne(cs, at, j, field);
  }

  /** With 16 characters the question and the name kept differ, so it is never refused. */
  lemma FullFieldClashes(field: seq<Byte>)
    requires |field| == CMD_NAME_MAX && 0 !in field
    ensures var cs := [KeptName(field), []];
            Terminated(cs) && Unambiguous(cs) && !Refuses(cs, 1, field) && !Unambiguous(cs[1 := KeptName(field)])
  {
    var kept := KeptName(field);
    var cs: seq<seq<Byte>> := [kept, []];
    KeptText(field);
    assert !Answers(cs[0], field) && !Answers(cs[1], field);
    assert UpToNul(kept) != [] by {
      assert kept[0] == field[0] != 0;
    }
    var ds := cs[1 := kept];
    assert Answers(ds[0], kept) && Answers(ds[1], kept);
  }

  /** A push keeps every table unambiguous exactly when its command field is empty or holds a NUL. */
  lemma PushKeepsIff(field: seq<Byte>)
    requires |field| == CMD_NAME_MAX
    ensures (forall cs: seq<seq<Byte>>, at: nat :: PushKeeps(cs, at, field)) <==> 0 in field
  {
    if 0 in field {
      forall cs: seq<seq<Byte>>, at: nat
        ensures PushKeeps(cs, at, field)
      {
        TerminatedFieldKeeps(cs, at, field);
      }
    } else {
      FullFieldClashes(field);
      assert !PushKeeps([KeptName(field), []], 1, field);
    }
  }

  // ---- tables pair by pair -----------------------------------------------

  /** Two stored names that one typed command reaches. */
  predicate Shared(x: seq<Byte>, y: seq<Byte>) {
    |y| == CMD_NAME_MAX && Answers(x, y)
  }

  lemma SharedIff(x: seq<Byte>, y: seq<Byte>)
    ensures Shared(x, y) <==> exists asked: seq<Byte> :: |asked| == CMD_NAME_MAX && Answers(x, asked) && Answers(y, asked)
    ensures Shared(x, y) <==> Shared(y, x)
  {
    hide UpToNul;
    assert Shared(x, y) ==> Answers(x, y) && Answers(y, y);
  }

  /** A table is unambiguous exactly when no two slots share a name. */
  lemma UnambiguousIff(cs: seq<seq<Byte>>)
    ensures Unambiguous(cs) <==> forall j, k :: 0 <= j < k < |cs| ==> !Shared(cs[j], cs[k])
  {
    hide Answers;
    forall j, k | 0 <= j < k < |cs|
      ensures Shared(cs[j], cs[k]) <==> exists asked: seq<Byte> :: |asked| == CMD_NAME_MAX && Answers(cs[j], asked) && Answers(cs[k], asked)
    {
      SharedIff(cs[j], cs[k]);
    }
  }

  /**
   A load that does not ask, into a slot that answers to nothing, leaves a table unambiguous
   exactly when no slot answers to the name it brings.
   */
  lemma UnaskedKeepsIff(cs: seq<seq<Byte>>, at: nat, stored: seq<Byte>)
    requires Unambiguous(cs) && at < |cs| && cs[at] == []
    ensures Unambiguous(cs[at := stored]) <==> forall j :: 0 <= j < |cs| ==> !Shared(cs[j], stored)
  {
    hide Answers;
    var ds := cs[at := stored];
    UnambiguousIff(cs);
    UnambiguousIff(ds);
    NothingShared(stored);
    forall j | 0 <= j < |cs|
      ensures Shared(cs[j], stored) <==> Shared(stored, cs[j])
    {
      SharedIff(cs[j], stored);
    }
    if Unambiguous(ds) {
      forall j | 0 <= j < |cs|
        ensures !Shared(cs[j], stored)
      {
        assert j < at ==> !Shared(ds[j], ds[at]);
        assert at < j ==> !Shared(ds[at], ds[j]);
      }
    }
  }

  lemma NothingShared(x: seq<Byte>)
    ensures !Shared([], x)
  {
  }
}
