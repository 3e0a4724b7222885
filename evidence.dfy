/** Evidence masks and the shared case file. */
module Evidence {
  import opened Defs

  /** evidence_contains: the flag's bit is set in the mask. */
  predicate Contains(mask: EvidenceByte, e: EvidenceType)
  {
    mask & Flag(e) != 0
  }

  /** A flag is in an OR of two masks exactly when it is in one of them. */
  lemma ContainsOr(x: EvidenceByte, y: EvidenceByte, e: EvidenceType)
    ensures Contains(x | y, e) <==> Contains(x, e) || Contains(y, e)
  {
  }

  /** A single flag holds exactly its own evidence type. */
  lemma FlagContains(a: EvidenceType, e: EvidenceType)
    ensures Contains(Flag(a), e) <==> a == e
  {
    FlagsDisjoint(a, e);
    FlagIsSingleBit(a);
  }

  /** evidence_add. */
  function Add(mask: EvidenceByte, e: EvidenceType): EvidenceByte
  {
    mask | Flag(e)
  }

  /** evidence_remove. */
  function Remove(mask: EvidenceByte, e: EvidenceType): EvidenceByte
  {
    mask & !Flag(e)
  }

  /** Adding a flag gives a mask holding that flag and every flag of the input, and nothing else. */
  lemma AddSpec(mask: EvidenceByte, e: EvidenceType)
    ensures forall f :: Contains(Add(mask, e), f) <==> f == e || Contains(mask, f)
    ensures Add(mask, e) & SPARE_BIT == mask & SPARE_BIT
  {
    forall f ensures Contains(Add(mask, e), f) <==> f == e || Contains(mask, f) {
      ContainsOr(mask, Flag(e), f);
      FlagContains(e, f);
    }
    FlagIsSingleBit(e);
  }

  /** Removing a flag clears exactly that flag and keeps every other one. */
  lemma RemoveSpec(mask: EvidenceByte, e: EvidenceType)
    ensures forall f :: Contains(Remove(mask, e), f) <==> f != e && Contains(mask, f)
    ensures Remove(mask, e) & SPARE_BIT == mask & SPARE_BIT
  {
    forall f ensures Contains(Remove(mask, e), f) <==> f != e && Contains(mask, f) {
      FlagsDisjoint(e, f);
    }
    FlagIsSingleBit(e);
  }

  /** A mask is determined by the seven flags it contains and its spare bit. */
  lemma MaskExtensional(m: EvidenceByte, n: EvidenceByte)
    requires forall f :: Contains(m, f) <==> Contains(n, f)
    requires m & SPARE_BIT == n & SPARE_BIT
    ensures m == n
  {
    assert Contains(m, Emf) <==> Contains(n, Emf);
    assert Contains(m, Orbs) <==> Contains(n, Orbs);
    assert Contains(m, Radio) <==> Contains(n, Radio);
    assert Contains(m, Temperature) <==> Contains(n, Temperature);
    assert Contains(m, Fingerprints) <==> Contains(n, Fingerprints);
    assert Contains(m, Writing) <==> Contains(n, Writing);
    assert Contains(m, Infrared) <==> Contains(n, Infrared);
  }

  /** Removing a flag that was absent before adding it gives the original mask back. */
  lemma RemoveUndoesAdd(m: EvidenceByte, e: EvidenceType)
    requires !Contains(m, e)
    ensures Remove(Add(m, e), e) == m
  {
    AddSpec(m, e);
    RemoveSpec(Add(m, e), e);
    MaskExtensional(Remove(Add(m, e), e), m);
  }

  /** Adding a flag twice is the same as adding it once. */
  lemma AddIdempotent(m: EvidenceByte, e: EvidenceType)
    ensures Add(Add(m, e), e) == Add(m, e)
  {
    AddSpec(m, e);
    AddSpec(Add(m, e), e);
    MaskExtensional(Add(Add(m, e), e), Add(m, e));
  }

  /** Adding a flag that removal had cleared restores a mask that held it. */
  lemma AddUndoesRemove(m: EvidenceByte, e: EvidenceType)
    requires Contains(m, e)
    ensures Add(Remove(m, e), e) == m
  {
    RemoveSpec(m, e);
    AddSpec(Remove(m, e), e);
    MaskExtensional(Add(Remove(m, e), e), m);
  }

  /** The flags of `types` that `mask` holds, in list order. */
  function PresentIn(mask: EvidenceByte, types: seq<EvidenceType>): (r: seq<EvidenceType>)
    ensures |r| <= |types|
  {
    if types == [] then []
    else
      var last := types[|types| - 1];
      PresentIn(mask, types[..|types| - 1]) + (if Contains(mask, last) then [last] else [])
  }

  /** The listed types are exactly the types of `types` that the mask holds. */
  lemma {:induction false} PresentInHolds(mask: EvidenceByte, types: seq<EvidenceType>)
    ensures forall e :: e in PresentIn(mask, types) <==> e in types && Contains(mask, e)
  {
    if types != [] {
      var init := types[..|types| - 1];
      PresentInHolds(mask, init);
      assert types == init + [types[|types| - 1]];
    }
  }

  /** The evidence types a mask holds, in the order of the helper list. */
  function Present(mask: EvidenceByte): seq<EvidenceType>
  {
    PresentIn(mask, AllEvidence)
  }


  /** One if the mask holds the flag, zero otherwise. */
  function Counts(mask: EvidenceByte, e: EvidenceType): nat
  {
    if Contains(mask, e) then 1 else 0
  }

  /** How many of the seven flags a mask holds. */
  function Tally(mask: EvidenceByte): nat
  {
    Counts(mask, Emf) + Counts(mask, Orbs) + Counts(mask, Radio) + Counts(mask, Temperature)
    + Counts(mask, Fingerprints) + Counts(mask, Writing) + Counts(mask, Infrared)
  }

  /** evidence_has_three_unique: at least three of the seven flags are set. */
  predicate HasThreeUnique(mask: EvidenceByte)
  {
    Tally(mask) >= 3
  }

  /** One more entry of the helper list adds one to the count exactly when the mask holds it. */
  lemma PresentInStep(mask: EvidenceByte, i: nat)
    requires i < |AllEvidence|
    ensures |PresentIn(mask, AllEvidence[..i + 1])|
            == |PresentIn(mask, AllEvidence[..i])| + Counts(mask, AllEvidence[i])
  {
    assert AllEvidence[..i + 1][..i] == AllEvidence[..i];
  }

  /** The flag-by-flag tally agrees with the length of the present list. */
  lemma TallyIsPresent(mask: EvidenceByte)
    ensures Tally(mask) == |Present(mask)|
  {
    assert AllEvidence[..0] == [];
    PresentInStep(mask, 0);
    PresentInStep(mask, 1);
    PresentInStep(mask, 2);
    PresentInStep(mask, 3);
    PresentInStep(mask, 4);
    PresentInStep(mask, 5);
    PresentInStep(mask, 6);
    assert AllEvidence[..7] == AllEvidence;
  }

  /** The distinct evidence types a mask holds, as a set. */
  ghost function FlagSet(mask: EvidenceByte): set<EvidenceType>
  {
    set e | e in AllEvidence && Contains(mask, e)
  }

  ghost predicate Distinct<T>(s: seq<T>)
  {
    forall i, j | 0 <= i < j < |s| :: s[i] != s[j]
  }

  lemma {:induction false} PresentInDistinct(mask: EvidenceByte, types: seq<EvidenceType>)
    requires Distinct(types)
    ensures Distinct(PresentIn(mask, types))
  {
    if types != [] {
      var init := types[..|types| - 1];
      PresentInDistinct(mask, init);
      PresentInHolds(mask, init);
      assert types[|types| - 1] !in init;
    }
  }

  /** A sequence without repetitions has as many elements as the set of its elements. */
  lemma {:induction false} DistinctCardinality<T>(s: seq<T>)
    requires Distinct(s)
    ensures |set x | x in s| == |s|
  {
    if s != [] {
      var init := s[..|s| - 1];
      DistinctCardinality(init);
      assert (set x | x in s) == (set x | x in init) + {s[|s| - 1]};
    }
  }

  /** The unique count is the number of distinct evidence types in the mask, at most seven. */
  lemma PresentCountsFlags(mask: EvidenceByte)
    ensures |Present(mask)| == |FlagSet(mask)| <= |AllEvidence|
  {
    AllEvidenceDistinct();
    PresentInDistinct(mask, AllEvidence);
    DistinctCardinality(Present(mask));
    PresentInHolds(mask, AllEvidence);
    assert (set x | x in Present(mask)) == FlagSet(mask);
  }

  /** A mask that holds every flag another holds has at least its unique count. */
  lemma {:induction false} PresentInMonotone(m: EvidenceByte, n: EvidenceByte, types: seq<EvidenceType>)
    requires m | n == n
    ensures |PresentIn(m, types)| <= |PresentIn(n, types)|
  {
    if types != [] {
      PresentInMonotone(m, n, types[..|types| - 1]);
      SubmaskContains(m, n, types[|types| - 1]);
    }
  }

  /** A mask whose bits all lie in another holds no flag the other lacks. */
  lemma SubmaskContains(m: EvidenceByte, n: EvidenceByte, e: EvidenceType)
    requires m | n == n
    ensures Contains(m, e) ==> Contains(n, e)
  {
  }

  /** Adding a flag never lowers the unique count. */
  lemma AddMonotone(m: EvidenceByte, e: EvidenceType)
    ensures |Present(m)| <= |Present(Add(m, e))|
  {
    assert m | Add(m, e) == Add(m, e);
    PresentInMonotone(m, Add(m, e), AllEvidence);
  }

  /** The counting loop of evidence_count_unique. */
  method CountUnique(mask: EvidenceByte) returns (count: int)
    ensures count == |Present(mask)| == |FlagSet(mask)|
    ensures 0 <= count <= |AllEvidence|
    ensures HasThreeUnique(mask) <==> count >= 3
  {
    count := 0;
    for i := 0 to |AllEvidence|
      invariant count == |PresentIn(mask, AllEvidence[..i])|
    {
      assert AllEvidence[..i + 1][..i] == AllEvidence[..i];
      if Contains(mask, AllEvidence[i]) {
        count := count + 1;
      }
    }
    assert AllEvidence[..|AllEvidence|] == AllEvidence;
    TallyIsPresent(mask);
    PresentCountsFlags(mask);
  }

  /** The empty mask holds no evidence. */
  lemma EmptyMaskHoldsNone()
    ensures Present(0) == [] && FlagSet(0) == {}
  {
    assert forall e :: !Contains(0, e);
    assert FlagSet(0) == {};
    PresentCountsFlags(0);
  }

  lemma ThreeFlagsAt(a: EvidenceType, b: EvidenceType, c: EvidenceType, e: EvidenceType)
    ensures Contains(Flag(a) | Flag(b) | Flag(c), e) <==> e == a || e == b || e == c
  {
    ContainsOr(Flag(a) | Flag(b), Flag(c), e);
    ContainsOr(Flag(a), Flag(b), e);
    FlagContains(a, e);
    FlagContains(b, e);
    FlagContains(c, e);
  }

  /** The OR of three flags holds exactly those three evidence types and leaves the spare bit clear. */
  lemma ThreeFlagsHold(a: EvidenceType, b: EvidenceType, c: EvidenceType, abc: EvidenceByte)
    requires abc == Flag(a) | Flag(b) | Flag(c)
    ensures forall e :: Contains(abc, e) <==> e == a || e == b || e == c
    ensures abc & SPARE_BIT == 0
  {
    forall e ensures Contains(abc, e) <==> e == a || e == b || e == c {
      ThreeFlagsAt(a, b, c, e);
    }
    FlagIsSingleBit(a);
    FlagIsSingleBit(b);
    FlagIsSingleBit(c);
  }

  /** Three distinct values make a set of three. */
  lemma CardinalityThree<T>(a: T, b: T, c: T)
    requires a != b && b != c && a != c
    ensures |{a, b, c}| == 3
  {
    assert {a, b, c} == {a, b} + {c};
    assert |{a, b}| == 2;
  }

  /** The three flags of distinct evidence types make a mask with exactly those three types. */
  lemma ThreeFlags(a: EvidenceType, b: EvidenceType, c: EvidenceType, abc: EvidenceByte)
    requires a != b && b != c && a != c
    requires abc == Flag(a) | Flag(b) | Flag(c)
    ensures FlagSet(abc) == {a, b, c}
    ensures |Present(abc)| == 3
  {
    assert FlagSet(abc) == {a, b, c} by {
      forall e ensures e in FlagSet(abc) <==> e in {a, b, c} {
        ThreeFlagsAt(a, b, c, e);
        AllEvidenceComplete(e);
      }
    }
    CardinalityThree(a, b, c);
    PresentCountsFlags(abc);
  }

  /** Every ghost type's mask holds exactly its three evidence types and has unique count three. */
  lemma GhostTypeHasThree(g: GhostType)
    ensures forall e :: Contains(Mask(g), e) <==> e == Evidences(g).0 || e == Evidences(g).1 || e == Evidences(g).2
    ensures |Present(Mask(g))| == 3 && HasThreeUnique(Mask(g))
    ensures Mask(g) & SPARE_BIT == 0
  {
    var (a, b, c) := Evidences(g);
    EvidencesDistinct(g);
    MaskIsFlags(g);
    ThreeFlagsHold(a, b, c, Mask(g));
    ThreeFlags(a, b, c, Mask(g));
    TallyIsPresent(Mask(g));
  }

  /** The mask reached by adding the types of `es` one after another to an empty mask. */
  function Collect(es: seq<EvidenceType>): EvidenceByte
  {
    if es == [] then 0 else Add(Collect(es[..|es| - 1]), es[|es| - 1])
  }

  /** The collected mask holds exactly the types that were added. */
  lemma {:induction false} CollectHoldsAdded(es: seq<EvidenceType>)
    ensures forall f :: Contains(Collect(es), f) <==> f in es
  {
    if es != [] {
      CollectHoldsAdded(es[..|es| - 1]);
      AddSpec(Collect(es[..|es| - 1]), es[|es| - 1]);
      assert es == es[..|es| - 1] + [es[|es| - 1]];
    }
  }

  /** A mask built by additions alone never has the top bit set. */
  lemma {:induction false} CollectSpareClear(es: seq<EvidenceType>)
    ensures Collect(es) & SPARE_BIT == 0
  {
    if es != [] {
      CollectSpareClear(es[..|es| - 1]);
      AddSpec(Collect(es[..|es| - 1]), es[|es| - 1]);
    }
  }

  /** After any sequence of additions the case is solved exactly when three distinct types were added. */
  lemma CollectSolves(es: seq<EvidenceType>)
    ensures HasThreeUnique(Collect(es)) <==> |set e | e in es| >= 3
  {
    CollectHoldsAdded(es);
    forall e | e in es ensures e in AllEvidence {
      AllEvidenceComplete(e);
    }
    assert FlagSet(Collect(es)) == set e | e in es;
    PresentCountsFlags(Collect(es));
    TallyIsPresent(Collect(es));
  }

  /** The case file: the evidence collected so far and whether the case is solved. */
  class CaseFile {
    var collected: EvidenceByte
    var solved: bool

    /** The case is solved exactly when three or more distinct types have been collected. */
    ghost predicate Valid()
      reads this
    {
      solved == HasThreeUnique(collected)
    }

    constructor ()
      ensures Valid() && collected == 0 && !solved
    {
      collected := 0;
      solved := false;
      EmptyMaskHoldsNone();
    }

    /** Files one piece of evidence; `collected` never loses a bit and `solved` never reverts. */
    method AddEvidence(e: EvidenceType)
      requires Valid()
      modifies this
      ensures Valid()
      ensures collected == Add(old(collected), e)
      ensures solved == (old(solved) || HasThreeUnique(collected))
    {
      TallyIsPresent(collected);
      AddMonotone(collected, e);
      collected := Add(collected, e);
      TallyIsPresent(collected);
      var count := CountUnique(collected);
      if count >= 3 {
        solved := true;
      }
    }
  }

  /** Reads the solved flag; a missing case file is unsolved. */
  method IsSolved(caseFile: CaseFile?) returns (solved: bool)
    ensures solved == (caseFile != null && caseFile.solved)
    ensures caseFile != null && caseFile.Valid() ==> (solved <==> |FlagSet(caseFile.collected)| >= 3)
  {
    if caseFile == null {
      return false;
    }
    solved := caseFile.solved;
    TallyIsPresent(caseFile.collected);
    PresentCountsFlags(caseFile.collected);
  }

  /** Reads the collected mask; a missing case file has collected nothing. */
  method GetEvidence(caseFile: CaseFile?) returns (collected: EvidenceByte)
    ensures caseFile == null ==> collected == 0
    ensures caseFile != null ==> collected == caseFile.collected
    ensures caseFile != null && caseFile.Valid() ==> (caseFile.solved <==> HasThreeUnique(collected))
  {
    if caseFile == null {
      return 0;
    }
    collected := caseFile.collected;
  }
}
