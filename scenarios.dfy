/**
 * Worked instances of the header translation on small tables. Each fact is
 * shown in a lemma of its own over variables bound by `requires`, so that
 * no step has to evaluate the whole translation at once.
 */
module Scenarios {
  import opened Wrappers
  import opened PyStr
  import opened RowAccessor
  import opened BestLabel
  import opened Translate

  /** Columns that are already stripped are left as they are. */
  lemma StrippedColumnsKept(cols: seq<string>)
    requires forall i :: 0 <= i < |cols| ==> Trim(cols[i]) == cols[i]
    ensures NormalizeCols(cols) == cols
  {
  }

  /** "tax_id", "species" and "genus" are their own stripped forms, and the
      first names the identifier column. */
  lemma PlainColumns(cols: seq<string>)
    requires cols == ["tax_id", "species", "genus"]
    ensures NormalizeCols(cols) == cols
    ensures TaxIdIndex(cols) == Some(0)
  {
    TrimOfTrimmed("tax_id");
    TrimOfTrimmed("species");
    TrimOfTrimmed("genus");
    StrippedColumnsKept(cols);
    PlainIsNormal("tax_id");
    assert IsTaxIdName(cols[0]);
  }

  /** With the identifier column found at `k`, the run yields the headers
      rewritten through the map of the normalised table. */
  lemma TranslateAt(headers: seq<string>, taxonomy: Table, k: nat)
    requires taxonomy.Rectangular()
    requires TaxIdIndex(NormalizeCols(taxonomy.columns)) == Some(k)
    ensures k < |taxonomy.columns|
    ensures TranslateHeaders(headers, taxonomy)
            == Ok(RewriteHeaders(headers, TranslationMap(NormalizeCols(taxonomy.columns), taxonomy.rows, k)))
  {
  }

  /** A name no column's plain name equals is absent from a row of plain names. */
  lemma PlainNameAbsent(row: Row, name: string)
    requires forall i, j :: 0 <= i < |row| && 0 <= j < |row[i].0| ==>
               !IsSpace(row[i].0[j]) && !('A' <= row[i].0[j] <= 'Z')
    requires forall j :: 0 <= j < |name| ==> !IsSpace(name[j]) && !('A' <= name[j] <= 'Z')
    requires forall i :: 0 <= i < |row| ==> row[i].0 != name
    ensures Get(row, name) == None
  {
    forall i | 0 <= i < |row|
      ensures Norm(row[i].0) != Norm(name)
    {
      PlainNamesDiffer(row[i].0, name);
    }
    GetAbsent(row, name);
  }

  /** Neither subspecies spelling names a column of the E. coli row. */
  lemma NoSubspeciesColumn(row: Row, name: string)
    requires row == [("species", Str("Escherichia coli")), ("genus", Str("Escherichia"))]
    requires name == "subspecies" || name == "subspecies_name"
    ensures Get(row, name) == None
  {
    PlainNameAbsent(row, name);
  }

  /** A column named "Species" answers a request for " species ": case
      and outer whitespace do not matter to the lookup. */
  lemma CapitalisedColumnMatches(row: Row, name: string, c: Cell)
    requires row == [("Species", c)]
    requires name == " species "
    ensures Get(row, name) == Some(c)
  {
    var col := row[0].0;
    assert TrimStart(name) == TrimStart(name[1..]);
    assert name[1..] == "species ";
    assert TrimEnd("species ") == TrimEnd("species "[..7]);
    assert "species "[..7] == "species";
    TrimOfTrimmed(col);
    NormEqualIff(col, name);
    LaterColumnWins(row, name, 0);
  }

  /** The E. coli row's species cell is the one "species" reads. */
  lemma SpeciesColumn(row: Row, name: string)
    requires row == [("species", Str("Escherichia coli")), ("genus", Str("Escherichia"))]
    requires name == "species"
    ensures Get(row, name) == Some(Str("Escherichia coli"))
  {
    PlainNamesDiffer(row[1].0, name);
    LaterColumnWins(row, name, 0);
  }

  /** The label of the E. coli row: its species, not its genus. */
  lemma EscherichiaColiLabel(row: Row)
    requires row == [("species", Str("Escherichia coli")), ("genus", Str("Escherichia"))]
    ensures LabelOf(row) == "Escherichia coli"
  {
    NoSubspeciesColumn(row, "subspecies");
    NoSubspeciesColumn(row, "subspecies_name");
    SpeciesColumn(row, "species");
    TrimOfTrimmed("Escherichia coli");
    SpeciesBeatsHigherRanks(row);
  }

  /** The map built from the one-row E. coli table. */
  lemma EscherichiaColiMap(cols: seq<string>, rows: seq<seq<Cell>>)
    requires cols == ["tax_id", "species", "genus"]
    requires rows == [[Str("561530"), Str("Escherichia coli"), Str("Escherichia")]]
    ensures "561530" in TranslationMap(cols, rows, 0)
    ensures TranslationMap(cols, rows, 0)["561530"] == "Escherichia coli"
  {
    var row := RowFor(cols, rows[0], 0);
    assert row == [("species", Str("Escherichia coli")), ("genus", Str("Escherichia"))];
    EscherichiaColiLabel(row);
    TranslationMapLastWins(cols, rows, 0, 0);
    TrimOfTrimmed("561530");
  }

  /** A numeric header with an entry is replaced; a non-numeric one is kept. */
  lemma EscherichiaColiHeaders(headers: seq<string>, m: map<string, string>)
    requires headers == ["561530", "sample_name"]
    requires "561530" in m && m["561530"] == "Escherichia coli"
    ensures RewriteHeaders(headers, m) == ["Escherichia coli", "sample_name"]
  {
    TrimOfTrimmed("561530");
    TrimOfTrimmed("sample_name");
    assert !IsDigits("sample_name");
  }

  /** A species value is chosen over the genus of the same row, and the
      numeric header naming that row is replaced by it; a non-numeric
      header is kept. */
  lemma EscherichiaColi(headers: seq<string>, taxonomy: Table)
    requires headers == ["561530", "sample_name"]
    requires taxonomy == Table(["tax_id", "species", "genus"],
                               [[Str("561530"), Str("Escherichia coli"), Str("Escherichia")]])
    ensures taxonomy.Rectangular()
    ensures TranslateHeaders(headers, taxonomy) == Ok(["Escherichia coli", "sample_name"])
  {
    PlainColumns(taxonomy.columns);
    TranslateAt(headers, taxonomy, 0);
    EscherichiaColiMap(taxonomy.columns, taxonomy.rows);
    EscherichiaColiHeaders(headers, TranslationMap(taxonomy.columns, taxonomy.rows, 0));
  }

  /** The map built from a table whose only row has no usable rank. */
  lemma BlankRowMap(cols: seq<string>, rows: seq<seq<Cell>>)
    requires cols == ["tax_id", "species", "genus"]
    requires rows == [[Str("999"), NaN, Str(" ")]]
    ensures "999" in TranslationMap(cols, rows, 0)
    ensures TranslationMap(cols, rows, 0)["999"] == UNKNOWN
  {
    var row := RowFor(cols, rows[0], 0);
    assert row == [("species", NaN), ("genus", Str(" "))];
    assert Trim(" ") == "";
    AllBlankIsUnknown(row);
    TranslationMapLastWins(cols, rows, 0, 0);
    TrimOfTrimmed("999");
  }

  /** The header "999" takes the label of identifier "999". */
  lemma UnknownHeader(headers: seq<string>, m: map<string, string>)
    requires headers == ["999"]
    requires "999" in m && m["999"] == UNKNOWN
    ensures RewriteHeaders(headers, m) == [UNKNOWN]
  {
    TrimOfTrimmed("999");
    assert IsDigits("999");
  }

  /** A row whose ranks are all missing or blank is labelled "Unknown". */
  lemma AllRanksMissing(headers: seq<string>, taxonomy: Table)
    requires headers == ["999"]
    requires taxonomy == Table(["tax_id", "species", "genus"], [[Str("999"), NaN, Str(" ")]])
    ensures taxonomy.Rectangular()
    ensures TranslateHeaders(headers, taxonomy) == Ok([UNKNOWN])
  {
    PlainColumns(taxonomy.columns);
    TranslateAt(headers, taxonomy, 0);
    BlankRowMap(taxonomy.columns, taxonomy.rows);
    UnknownHeader(headers, TranslationMap(taxonomy.columns, taxonomy.rows, 0));
  }

  /** " id " strips to "id". */
  lemma StripIdColumns(cols: seq<string>)
    requires cols == [" id ", "species"]
    ensures NormalizeCols(cols) == ["id", "species"]
  {
    assert TrimStart(" id ") == TrimStart(" id "[1..]);
    assert " id "[1..] == "id ";
    assert TrimEnd("id ") == TrimEnd("id "[..2]);
    assert "id "[..2] == "id";
    TrimOfTrimmed("species");
  }

  /** Neither "id" nor "species" is an identifier spelling. */
  lemma IdIsNoTaxIdColumn(cols: seq<string>)
    requires cols == ["id", "species"]
    ensures TaxIdIndex(cols) == None
  {
    PlainIsNormal(cols[0]);
    TaxIdNameIsTwoSpellings(cols[0]);
    PlainIsNormal(cols[1]);
    TaxIdNameIsTwoSpellings(cols[1]);
    assert forall j :: 0 <= j < |cols| ==> !IsTaxIdName(cols[j]);
  }

  /** Without an identifier column the run aborts; nothing is passed through. */
  lemma NoTaxIdColumnAborts(headers: seq<string>, taxonomy: Table)
    requires headers == ["561530"]
    requires taxonomy == Table([" id ", "species"], [[Str("561530"), Str("Escherichia coli")]])
    ensures taxonomy.Rectangular()
    ensures TranslateHeaders(headers, taxonomy) == Err(MissingTaxIdColumn(["id", "species"]))
  {
    StripIdColumns(taxonomy.columns);
    IdIsNoTaxIdColumn(NormalizeCols(taxonomy.columns));
  }
}
