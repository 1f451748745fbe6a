/**
 * The two process-wide tables that drive label selection: the rank order,
 * most specific first, and the column-name spellings accepted for each rank.
 */
module Ranks {

  /** The closed set of ranks the translator knows. */
  datatype Rank =
    | Subspecies | Species | SpeciesSubgroup | SpeciesGroup | Genus | Family
    | Order | Class | Phylum | Clade | Superkingdom | Kingdom | Domain

  /** Preferred rank order, best label first. */
  const RANK_PRIORITY: seq<Rank> := [
    Subspecies, Species, SpeciesSubgroup, SpeciesGroup, Genus, Family,
    Order, Class, Phylum, Clade, Superkingdom, Kingdom, Domain
  ]

  /** Column-name spellings that different dumps and tools use for a rank,
      the rank's own name first. The lists of Superkingdom and Domain name
      each other on purpose. Every rank of the priority list has an entry,
      so this is total. */
  function Aliases(rank: Rank): (r: seq<string>)
    ensures |r| >= 2
  {
    match rank
    case Superkingdom => ["superkingdom", "domain", "kingdom", "superkingdom_name"]
    case Phylum => ["phylum", "phylum_name"]
    case Class => ["class", "class_name"]
    case Order => ["order", "order_name"]
    case Family => ["family", "family_name"]
    case Genus => ["genus", "genus_name"]
    case Species => ["species", "species_name", "scientific_name", "name", "organism_name"]
    case Subspecies => ["subspecies", "subspecies_name"]
    case SpeciesSubgroup => ["species subgroup", "species_subgroup", "species_subgroup_name"]
    case SpeciesGroup => ["species group", "species_group", "species_group_name"]
    case Clade => ["clade", "clade_name"]
    case Kingdom => ["kingdom", "kingdom_name"]
    case Domain => ["domain", "domain_name", "superkingdom"]
  }

  /** Every column name tried when walking `ranks` in order and, within one
      rank, its spellings in order: the order of the nested search. */
  function CandidatesFrom(ranks: seq<Rank>): seq<string>
    decreases |ranks|
  {
    if ranks == [] then [] else Aliases(ranks[0]) + CandidatesFrom(ranks[1..])
  }

  /** The whole candidate sequence of the label search. */
  function Candidates(): seq<string> {
    CandidatesFrom(RANK_PRIORITY)
  }

  /** Every spelling of a rank that `ranks` contains is a candidate of the
      search over `ranks`. */
  lemma {:induction false} AliasIsCandidate(ranks: seq<Rank>, r: nat, a: nat)
    requires r < |ranks| && a < |Aliases(ranks[r])|
    ensures Aliases(ranks[r])[a] in CandidatesFrom(ranks)
  {
    if r > 0 {
      AliasIsCandidate(ranks[1..], r - 1, a);
      assert ranks[1..][r - 1] == ranks[r];
    }
  }

  /** The search starts with the two subspecies spellings and then the
      canonical species column. */
  lemma CandidatesStart()
    ensures |Candidates()| >= 3
    ensures Candidates()[0] == "subspecies" && Candidates()[1] == "subspecies_name"
    ensures Candidates()[2] == "species"
  {
    var rest := CandidatesFrom(RANK_PRIORITY[1..]);
    assert RANK_PRIORITY[1..][0] == Species;
    assert rest == Aliases(Species) + CandidatesFrom(RANK_PRIORITY[1..][1..]);
    assert Candidates() == Aliases(Subspecies) + rest;
  }
}
