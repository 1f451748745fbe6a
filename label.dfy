/**
 * Best-label selection for one taxonomy row: walk the ranks from most to
 * least specific and, within a rank, its accepted spellings in order; the
 * first cell that is present, not NaN and not blank wins, trimmed.
 */
module BestLabel {
  import opened Wrappers
  import opened PyStr
  import opened Ranks
  import opened RowAccessor

  /** The label used when no rank yields a usable value. */
  const UNKNOWN: string := "Unknown"

  /** A looked-up value that ends the search: the column exists, the
      cell is not NaN, and it is not blank once stripped. */
  predicate Usable(v: Option<Cell>) {
    v.Some? && v.value.Str? && Trim(v.value.text) != ""
  }

  /** The search over `cands`, in order: the stripped text of the first
      usable one, or UNKNOWN. This flat view is the reference the nested
      search is proved against. */
  function FirstUsable(row: Row, cands: seq<string>): string
    decreases |cands|
  {
    if cands == [] then UNKNOWN
    else
      var v := Get(row, cands[0]);
      if Usable(v) then Trim(v.value.text) else FirstUsable(row, cands[1..])
  }

  /** The inner loop: the stripped text of the first usable spelling of
      one rank, if any. */
  function SearchAliases(row: Row, aliases: seq<string>): Option<string>
    decreases |aliases|
  {
    if aliases == [] then None
    else
      var v := Get(row, aliases[0]);
      if Usable(v) then Some(Trim(v.value.text)) else SearchAliases(row, aliases[1..])
  }

  /** The outer loop: ranks in order, the first rank with a usable
      spelling decides; UNKNOWN when none has one. */
  function SearchRanks(row: Row, ranks: seq<Rank>): string
    decreases |ranks|
  {
    if ranks == [] then UNKNOWN
    else
      match SearchAliases(row, Aliases(ranks[0]))
      case Some(text) => text
      case None => SearchRanks(row, ranks[1..])
  }

  /** The label chosen for a row. */
  function LabelOf(row: Row): string {
    SearchRanks(row, RANK_PRIORITY)
  }

  /** `get_best_tax_label`: the two nested loops with their early return. */
  method GetBestTaxLabel(row: Row) returns (best: string)
    ensures best == LabelOf(row)
  {
    for r := 0 to |RANK_PRIORITY|
      invariant LabelOf(row) == SearchRanks(row, RANK_PRIORITY[r..])
    {
      var rank := RANK_PRIORITY[r];
      var aliases := Aliases(rank);
      assert RANK_PRIORITY[r..][1..] == RANK_PRIORITY[r + 1..];
      for a := 0 to |aliases|
        invariant SearchAliases(row, aliases) == SearchAliases(row, aliases[a..])
      {
        assert aliases[a..][1..] == aliases[a + 1..];
        var v := Get(row, aliases[a]);
        if v.None? {
          continue;
        }
        if v.value.Str? && Trim(v.value.text) != "" {
          return Trim(v.value.text);
        }
      }
    }
    return UNKNOWN;
  }

  /** A rank's search succeeds with the first usable spelling of the rank,
      which is what the flat search over its spellings finds. */
  lemma {:induction false} SearchAliasesFlat(row: Row, aliases: seq<string>, rest: seq<string>)
    ensures FirstUsable(row, aliases + rest)
            == match SearchAliases(row, aliases)
               case Some(text) => text
               case None => FirstUsable(row, rest)
  {
    if aliases == [] {
      assert aliases + rest == rest;
    } else {
      assert (aliases + rest)[1..] == aliases[1..] + rest;
      SearchAliasesFlat(row, aliases[1..], rest);
    }
  }

  /** The nested search, rank by rank and then spelling by spelling, is
      the flat search over all candidates in that order. */
  lemma {:induction false} SearchRanksFlat(row: Row, ranks: seq<Rank>)
    ensures SearchRanks(row, ranks) == FirstUsable(row, CandidatesFrom(ranks))
  {
    if ranks != [] {
      SearchAliasesFlat(row, Aliases(ranks[0]), CandidatesFrom(ranks[1..]));
      SearchRanksFlat(row, ranks[1..]);
    }
  }

  /** The label of a row is the first usable candidate in rank order. */
  lemma LabelIsFirstUsableCandidate(row: Row)
    ensures LabelOf(row) == FirstUsable(row, Candidates())
  {
    SearchRanksFlat(row, RANK_PRIORITY);
  }

  /** When a usable candidate comes first, the search returns its
      stripped text: every earlier candidate was skipped. */
  lemma {:induction false} FirstUsableIsFirst(row: Row, cands: seq<string>, k: nat)
    requires k < |cands| && Usable(Get(row, cands[k]))
    requires forall j :: 0 <= j < k ==> !Usable(Get(row, cands[j]))
    ensures FirstUsable(row, cands) == Trim(Get(row, cands[k]).value.text)
  {
    if k > 0 {
      assert !Usable(Get(row, cands[0]));
      FirstUsableIsFirst(row, cands[1..], k - 1);
    }
  }

  /** Absent, NaN and blank candidates never end the search: when none is
      usable the result is exactly UNKNOWN. */
  lemma {:induction false} NoneUsableIsUnknown(row: Row, cands: seq<string>)
    requires forall k :: 0 <= k < |cands| ==> !Usable(Get(row, cands[k]))
    ensures FirstUsable(row, cands) == UNKNOWN
  {
    if cands != [] {
      assert !Usable(Get(row, cands[0]));
      NoneUsableIsUnknown(row, cands[1..]);
    }
  }

  /** Any search result is non-empty and has no whitespace at either end. */
  lemma {:induction false} FirstUsableWellFormed(row: Row, cands: seq<string>)
    ensures FirstUsable(row, cands) != ""
    ensures !IsSpace(FirstUsable(row, cands)[0])
    ensures !IsSpace(FirstUsable(row, cands)[|FirstUsable(row, cands)| - 1])
  {
    if cands != [] {
      var v := Get(row, cands[0]);
      if Usable(v) {
        TrimHasNoOuterSpace(v.value.text);
      } else {
        FirstUsableWellFormed(row, cands[1..]);
      }
    }
  }

  /** A label is never empty and never has outer whitespace. */
  lemma LabelWellFormed(row: Row)
    ensures LabelOf(row) != ""
    ensures Trim(LabelOf(row)) == LabelOf(row)
  {
    LabelIsFirstUsableCandidate(row);
    FirstUsableWellFormed(row, Candidates());
    TrimOfTrimmed(LabelOf(row));
  }

  /** A usable species cell beats genus, family and every other rank
      unless a subspecies spelling is usable. */
  lemma SpeciesBeatsHigherRanks(row: Row)
    requires !Usable(Get(row, "subspecies")) && !Usable(Get(row, "subspecies_name"))
    requires Usable(Get(row, "species"))
    ensures LabelOf(row) == Trim(Get(row, "species").value.text)
  {
    assert RANK_PRIORITY[1..][0] == Species;
    assert SearchAliases(row, Aliases(Subspecies)) == None;
  }

  /** A row whose every cell is NaN or blank is labelled UNKNOWN. */
  lemma AllBlankIsUnknown(row: Row)
    requires forall i :: 0 <= i < |row| ==> row[i].1.NaN? || Trim(row[i].1.text) == ""
    ensures LabelOf(row) == UNKNOWN
  {
    forall k | 0 <= k < |Candidates()| ensures !Usable(Get(row, Candidates()[k])) {
      GetFindsLastMatch(row, Candidates()[k]);
    }
    NoneUsableIsUnknown(row, Candidates());
    LabelIsFirstUsableCandidate(row);
  }

  /** The inner search returns the first usable spelling of the list. */
  lemma {:induction false} SearchAliasesAt(row: Row, aliases: seq<string>, a: nat)
    requires a < |aliases| && Usable(Get(row, aliases[a]))
    requires forall j :: 0 <= j < a ==> !Usable(Get(row, aliases[j]))
    ensures SearchAliases(row, aliases) == Some(Trim(Get(row, aliases[a]).value.text))
  {
    if a > 0 {
      assert !Usable(Get(row, aliases[0]));
      SearchAliasesAt(row, aliases[1..], a - 1);
    }
  }

  /** The inner search fails when no spelling of the list is usable. */
  lemma {:induction false} SearchAliasesNone(row: Row, aliases: seq<string>)
    requires forall j :: 0 <= j < |aliases| ==> !Usable(Get(row, aliases[j]))
    ensures SearchAliases(row, aliases) == None
  {
    if aliases != [] {
      assert !Usable(Get(row, aliases[0]));
      SearchAliasesNone(row, aliases[1..]);
    }
  }

  /** The outer search returns the result of the first rank whose inner
      search succeeds. */
  lemma {:induction false} SearchRanksAt(row: Row, ranks: seq<Rank>, r: nat)
    requires r < |ranks|
    requires forall q :: 0 <= q < r ==> SearchAliases(row, Aliases(ranks[q])).None?
    requires SearchAliases(row, Aliases(ranks[r])).Some?
    ensures SearchRanks(row, ranks) == SearchAliases(row, Aliases(ranks[r])).value
  {
    if r > 0 {
      var rest := ranks[1..];
      assert SearchAliases(row, Aliases(ranks[0])).None?;
      assert rest[r - 1] == ranks[r];
      forall q | 0 <= q < r - 1 ensures SearchAliases(row, Aliases(rest[q])).None? {
        assert rest[q] == ranks[q + 1];
      }
      SearchRanksAt(row, rest, r - 1);
    }
  }

  /** No spelling of `rank` yields a usable cell of `row`. */
  predicate NoUsableSpelling(row: Row, rank: Rank) {
    forall j :: 0 <= j < |Aliases(rank)| ==> !Usable(Get(row, Aliases(rank)[j]))
  }

  /** The label is decided by rank first and by the order of spellings
      within the rank second: the first usable spelling of the first rank
      that has one wins, whatever later spellings of that rank hold. */
  lemma SpellingOrderDecides(row: Row, r: nat, a: nat)
    requires r < |RANK_PRIORITY| && a < |Aliases(RANK_PRIORITY[r])|
    requires forall q :: 0 <= q < r ==> NoUsableSpelling(row, RANK_PRIORITY[q])
    requires Usable(Get(row, Aliases(RANK_PRIORITY[r])[a]))
    requires forall j :: 0 <= j < a ==> !Usable(Get(row, Aliases(RANK_PRIORITY[r])[j]))
    ensures LabelOf(row) == Trim(Get(row, Aliases(RANK_PRIORITY[r])[a]).value.text)
  {
    forall q | 0 <= q < r ensures SearchAliases(row, Aliases(RANK_PRIORITY[q])).None? {
      SearchAliasesNone(row, Aliases(RANK_PRIORITY[q]));
    }
    SearchAliasesAt(row, Aliases(RANK_PRIORITY[r]), a);
    SearchRanksAt(row, RANK_PRIORITY, r);
  }

  /** The search over a one-column row: the column's stripped text when it
      is usable and its name matches some candidate, UNKNOWN otherwise. */
  lemma {:induction false} OneColumnSearch(name: string, c: Cell, cands: seq<string>)
    ensures FirstUsable([(name, c)], cands)
            == if Usable(Some(c)) && exists k :: 0 <= k < |cands| && Norm(cands[k]) == Norm(name)
               then Trim(c.text) else UNKNOWN
  {
    if cands != [] {
      OneColumnSearch(name, c, cands[1..]);
      if Norm(cands[0]) != Norm(name) {
        GetFindsLastMatch([(name, c)], cands[0]);
        assert Get([(name, c)], cands[0]).None?;
        assert forall k :: 1 <= k < |cands| ==> cands[k] == cands[1..][k - 1];
      } else {
        GetFindsLastMatch([(name, c)], cands[0]);
        assert Get([(name, c)], cands[0]) == Some(c);
      }
    }
  }

  /** A one-column row whose column is a candidate is labelled with that
      column's stripped text when usable, UNKNOWN otherwise. */
  lemma OneCandidateColumn(name: string, c: Cell, cands: seq<string>)
    requires name in cands
    ensures FirstUsable([(name, c)], cands) == if Usable(Some(c)) then Trim(c.text) else UNKNOWN
  {
    var k :| 0 <= k < |cands| && cands[k] == name;
    OneColumnSearch(name, c, cands);
  }

  /** A row whose only column is "organism_name" is labelled like one whose
      only column is "species_name": both are spellings of the species rank.
      With several usable spellings in one row the earlier spelling of the
      list wins instead (`SpellingOrderDecides`). */
  lemma OrganismNameActsAsSpeciesName(c: Cell)
    ensures LabelOf([("organism_name", c)]) == LabelOf([("species_name", c)])
  {
    assert RANK_PRIORITY[1] == Species;
    AliasIsCandidate(RANK_PRIORITY, 1, 4);
    AliasIsCandidate(RANK_PRIORITY, 1, 1);
    OneCandidateColumn("organism_name", c, Candidates());
    OneCandidateColumn("species_name", c, Candidates());
    LabelIsFirstUsableCandidate([("organism_name", c)]);
    LabelIsFirstUsableCandidate([("species_name", c)]);
  }
}
