/**
 Two places decide whether a pushed image is "the same module": the store, from the names
 in two images, and the supervisor, from the name a slot kept when it was loaded. The
 loader forces that copy to end in NUL and the supervisor refuses to match an empty name;
 the store does neither.
 */
module SlotNames {
  import opened Bytes
  import opened FlashFormat

  /** The name a slot keeps: mdl_load() overwrites the last character. */
  function KeptName(name: seq<Byte>): (kept: seq<Byte>)
    requires |name| == NAME_MAX
    ensures |kept| == NAME_MAX
  {
    name[..NAME_MAX - 1] + [0]
  }

  /** find_slot_by_name(), for one slot. */
  predicate SlotMatches(kept: seq<Byte>, pushed: seq<Byte>)
    requires |kept| == |pushed| == NAME_MAX
  {
    pushed[0] != 0 && StrnEqual(kept, pushed)
  }

  /** The supervisor and the store agree about every image that might be pushed next. */
  ghost predicate IdentitiesAgree(loaded: seq<Byte>)
    requires |loaded| == NAME_MAX
  {
    forall pushed: seq<Byte> :: |pushed| == NAME_MAX ==>
      (SlotMatches(KeptName(loaded), pushed) <==> StrnEqual(loaded, pushed))
  }

  lemma SlotMatchesText(kept: seq<Byte>, pushed: seq<Byte>)
    requires |kept| == |pushed| == NAME_MAX
    ensures SlotMatches(kept, pushed) <==> UpToNul(pushed) != [] && UpToNul(kept) == UpToNul(pushed)
  {
    StrnIsText(kept, pushed);
  }

  /** What a slot keeps of a name is the text of its first fifteen characters. */
  lemma KeptText(name: seq<Byte>)
    requires |name| == NAME_MAX
    ensures UpToNul(KeptName(name)) == UpToNul(name[..15])
    ensures UpToNul(KeptName(name)) == UpToNul(name) <==> 0 in name
  {
    var (t, kept, front) := (UpToNul(name), KeptName(name), UpToNul(name[..15]));
    assert front == name[..15][..|front|] == kept[..|front|];
    OneText(kept, |front|);
    if 0 in name {
      assert t == name[..|t|] == name[..15][..|t|];
      OneText(name[..15], |t|);
    } else {
      OneText(name, 16);
    }
  }

  /** They agree exactly about modules whose name has between 1 and 15 characters. */
  lemma IdentitiesAgreeIff(loaded: seq<Byte>)
    requires |loaded| == NAME_MAX
    ensures IdentitiesAgree(loaded) <==> 1 <= |UpToNul(loaded)| <= 15
  {
    var kept := KeptName(loaded);
    KeptText(loaded);
    forall pushed: seq<Byte> | |pushed| == NAME_MAX
      ensures SlotMatches(kept, pushed) <==> UpToNul(pushed) != [] && UpToNul(kept) == UpToNul(pushed)
      ensures StrnEqual(loaded, pushed) <==> UpToNul(loaded) == UpToNul(pushed)
    {
      SlotMatchesText(kept, pushed);
      StrnIsText(loaded, pushed);
    }
    hide SlotMatches, StrnEqual;
    if !(1 <= |UpToNul(loaded)| <= 15) {
      assert !SlotMatches(kept, loaded) && StrnEqual(loaded, loaded);
    }
  }

  /** An unnamed image: the store replaces it by its like, the supervisor adds a slot. */
  lemma UnnamedDisagree()
    ensures !IdentitiesAgree(seq(NAME_MAX, _ => 0))
  {
    var unnamed: seq<Byte> := seq(NAME_MAX, _ => 0);
    IdentitiesAgreeIff(unnamed);
  }
}
