/** Constants, evidence flags and the ghost-type table of the ghost-hunt simulation. */
module Defs {

  const MAX_ROOMS := 24
  const MAX_ROOM_OCCUPANCY := 8
  const MAX_CONNECTIONS := 8
  const ENTITY_BOREDOM_MAX := 15
  const HUNTER_FEAR_MAX := 15
  const DEFAULT_GHOST_ID := 68057

  /** An unsigned char used as a set of evidence flags. */
  type EvidenceByte = bv8

  datatype Option<T> = None | Some(value: T)

  /** Why a hunter stopped. */
  datatype LogReason = LrEvidence | LrBored | LrAfraid

  datatype EvidenceType = Emf | Orbs | Radio | Temperature | Fingerprints | Writing | Infrared

  /** The value of each evidence enumerator: one bit, 1 << 0 up to 1 << 6. */
  function Flag(e: EvidenceType): EvidenceByte
  {
    match e
    case Emf => 0x01
    case Orbs => 0x02
    case Radio => 0x04
    case Temperature => 0x08
    case Fingerprints => 0x10
    case Writing => 0x20
    case Infrared => 0x40
  }

  /** The list the evidence-type helper hands out: every flag once, in declaration order. */
  const AllEvidence: seq<EvidenceType> := [Emf, Orbs, Radio, Temperature, Fingerprints, Writing, Infrared]

  /** The bit that no evidence flag uses. */
  const SPARE_BIT: EvidenceByte := 0x80

  /** Each flag is a nonzero single bit below 1 << 7, so it leaves the spare bit clear. */
  lemma FlagIsSingleBit(e: EvidenceType)
    ensures Flag(e) != 0 && Flag(e) & (Flag(e) - 1) == 0
    ensures Flag(e) & SPARE_BIT == 0 && Flag(e) < 0x80
  {
  }

  /** Distinct flags share no bit. */
  lemma FlagsDisjoint(e: EvidenceType, f: EvidenceType)
    ensures e != f <==> Flag(e) & Flag(f) == 0
  {
  }

  /** The helper list names every evidence type. */
  lemma AllEvidenceComplete(e: EvidenceType)
    ensures e in AllEvidence
  {
  }

  /** The helper list names no evidence type twice. */
  lemma AllEvidenceDistinct()
    ensures forall i, j | 0 <= i < j < |AllEvidence| :: AllEvidence[i] != AllEvidence[j]
  {
  }

  datatype GhostType =
    | Poltergeist | TheMimic | Hantu | Jinn | Phantom | Banshee | Goryo | Bullies
    | Myling | Obake | Yurei | Oni | Moroi | Revenant | Shade | Onryo
    | TheTwins | Deogen | Thaye | Yokai | Wraith | Raiju | Mare | Spirit

  /** The three evidence types whose flags are ORed into a ghost type's enumerator. */
  function Evidences(g: GhostType): (EvidenceType, EvidenceType, EvidenceType)
  {
    match g
    case Poltergeist => (Fingerprints, Temperature, Writing)
    case TheMimic => (Fingerprints, Temperature, Radio)
    case Hantu => (Fingerprints, Temperature, Orbs)
    case Jinn => (Fingerprints, Temperature, Emf)
    case Phantom => (Fingerprints, Infrared, Radio)
    case Banshee => (Fingerprints, Infrared, Orbs)
    case Goryo => (Fingerprints, Infrared, Emf)
    case Bullies => (Fingerprints, Writing, Radio)
    case Myling => (Fingerprints, Writing, Emf)
    case Obake => (Fingerprints, Orbs, Emf)
    case Yurei => (Temperature, Infrared, Orbs)
    case Oni => (Temperature, Infrared, Emf)
    case Moroi => (Temperature, Writing, Radio)
    case Revenant => (Temperature, Writing, Orbs)
    case Shade => (Temperature, Writing, Emf)
    case Onryo => (Temperature, Radio, Orbs)
    case TheTwins => (Temperature, Radio, Emf)
    case Deogen => (Infrared, Writing, Radio)
    case Thaye => (Infrared, Writing, Orbs)
    case Yokai => (Infrared, Radio, Orbs)
    case Wraith => (Infrared, Radio, Emf)
    case Raiju => (Infrared, Orbs, Emf)
    case Mare => (Writing, Radio, Orbs)
    case Spirit => (Writing, Radio, Emf)
  }

  /** The value of a ghost-type enumerator read as an evidence mask: the OR of its three flags (MaskIsFlags). */
  function Mask(g: GhostType): EvidenceByte
  {
    match g
    case Poltergeist => 0x38
    case TheMimic => 0x1C
    case Hantu => 0x1A
    case Jinn => 0x19
    case Phantom => 0x54
    case Banshee => 0x52
    case Goryo => 0x51
    case Bullies => 0x34
    case Myling => 0x31
    case Obake => 0x13
    case Yurei => 0x4A
    case Oni => 0x49
    case Moroi => 0x2C
    case Revenant => 0x2A
    case Shade => 0x29
    case Onryo => 0x0E
    case TheTwins => 0x0D
    case Deogen => 0x64
    case Thaye => 0x62
    case Yokai => 0x46
    case Wraith => 0x45
    case Raiju => 0x43
    case Mare => 0x26
    case Spirit => 0x25
  }

  /** The list the ghost-type helper hands out, in declaration order. */
  const AllGhostTypes: seq<GhostType> := [
    Poltergeist, TheMimic, Hantu, Jinn, Phantom, Banshee, Goryo, Bullies,
    Myling, Obake, Yurei, Oni, Moroi, Revenant, Shade, Onryo,
    TheTwins, Deogen, Thaye, Yokai, Wraith, Raiju, Mare, Spirit]

  /** The three evidence types of every ghost type are pairwise distinct. */
  lemma EvidencesDistinct(g: GhostType)
    ensures Evidences(g).0 != Evidences(g).1 && Evidences(g).1 != Evidences(g).2 && Evidences(g).0 != Evidences(g).2
  {
  }

  /** Each enumerator's value is the OR of the flags of its three evidence types. */
  lemma MaskIsFlags(g: GhostType)
    ensures Mask(g) == Flag(Evidences(g).0) | Flag(Evidences(g).1) | Flag(Evidences(g).2)
  {
  }

  /** No two ghost types have the same mask, so a mask identifies at most one ghost type. */
  lemma MaskInjective(g: GhostType, h: GhostType)
    ensures Mask(g) == Mask(h) <==> g == h
  {
  }

  /** The ghost-type helper list holds every ghost type. */
  lemma AllGhostTypesComplete(g: GhostType)
    ensures g in AllGhostTypes
  {
  }

  /** The post-run identification: the first ghost type in the list whose mask equals the collected evidence. */
  method Identify(collected: EvidenceByte) returns (matched: Option<GhostType>)
    ensures matched.Some? ==> Mask(matched.value) == collected
    ensures matched.None? <==> forall g :: Mask(g) != collected
  {
    matched := None;
    for i := 0 to |AllGhostTypes|
      invariant forall j | 0 <= j < i :: Mask(AllGhostTypes[j]) != collected
    {
      if collected == Mask(AllGhostTypes[i]) {
        matched := Some(AllGhostTypes[i]);
        break;
      }
    }
    if matched.None? {
      forall g ensures Mask(g) != collected {
        AllGhostTypesComplete(g);
      }
    }
  }
}
