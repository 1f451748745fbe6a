/**
 * The header translation proper: normalise the taxonomy table's column
 * names, find its identifier column (aborting when there is none), map each
 * row's stripped identifier to the row's best label, and rewrite the sample
 * table's numeric headers through that map.
 */
module Translate {
  import opened Wrappers
  import opened PyStr
  import opened RowAccessor
  import opened BestLabel

  /** The abort raised when the taxonomy table has no identifier column;
      it carries the (normalised) column names the message lists. */
  datatype Error = MissingTaxIdColumn(columns: seq<string>)

  /** A taxonomy table as read with `dtype=str`: its header and its rows of
      cells, one cell per column. */
  datatype Table = Table(columns: seq<string>, rows: seq<seq<Cell>>) {
    /** Every row has one cell per column, as in any data frame. */
    predicate Rectangular() {
      forall i :: 0 <= i < |rows| ==> |rows[i]| == |columns|
    }
  }

  // ---------------------------------------------------------------------
  // normalize_cols

  /** `normalize_cols`: every column name stripped. */
  function NormalizeCols(cols: seq<string>): seq<string> {
    seq(|cols|, i requires 0 <= i < |cols| => Trim(cols[i]))
  }

  /** Normalising keeps the number and order of columns and every column's
      normal form, so the case-insensitive lookups see the same names; doing
      it twice is the same as doing it once. */
  lemma NormalizeColsSpec(cols: seq<string>)
    ensures |NormalizeCols(cols)| == |cols|
    ensures forall i :: 0 <= i < |cols| ==> Norm(NormalizeCols(cols)[i]) == Norm(cols[i])
    ensures NormalizeCols(NormalizeCols(cols)) == NormalizeCols(cols)
  {
    forall i | 0 <= i < |cols|
      ensures Norm(NormalizeCols(cols)[i]) == Norm(cols[i])
      ensures NormalizeCols(NormalizeCols(cols))[i] == NormalizeCols(cols)[i]
    {
      TrimIdempotent(cols[i]);
    }
  }

  // ---------------------------------------------------------------------
  // The identifier column

  /** The spellings accepted for the identifier column, as in the source:
      the last one, with its trailing space, can never match a stripped name. */
  const TAX_ID_NAMES: seq<string> := ["tax_id", "taxid", "tax_id "]

  /** `c.strip().lower() in ("tax_id", "taxid", "tax_id ")`. */
  predicate IsTaxIdName(c: string) {
    Norm(c) in TAX_ID_NAMES
  }

  /** The entry "tax_id " is dead: in effect only "tax_id" and "taxid" match. */
  lemma TaxIdNameIsTwoSpellings(c: string)
    ensures IsTaxIdName(c) <==> Norm(c) == "tax_id" || Norm(c) == "taxid"
  {
    NormHasNoOuterSpace(c);
    if Norm(c) == "tax_id " {
      assert IsSpace(Norm(c)[|Norm(c)| - 1]);
    }
  }

  /** The position of the first identifier column, if any. */
  function TaxIdIndex(cols: seq<string>): (r: Option<nat>)
    ensures r.None? <==> forall j :: 0 <= j < |cols| ==> !IsTaxIdName(cols[j])
    ensures r.Some? ==> r.value < |cols| && IsTaxIdName(cols[r.value])
                        && forall j :: 0 <= j < r.value ==> !IsTaxIdName(cols[j])
  {
    if cols == [] then None
    else if IsTaxIdName(cols[0]) then Some(0)
    else
      match TaxIdIndex(cols[1..])
      case None => None
      case Some(i) => Some(i + 1)
  }

  /** The search loop over the columns with its `break`, and the abort when
      it finds nothing: the first identifier column, or the error; in both
      cases what `TaxIdIndex` gives. */
  method FindTaxIdColumn(cols: seq<string>) returns (r: Result<nat, Error>)
    ensures r.Ok? ==> r.value < |cols| && IsTaxIdName(cols[r.value])
                      && forall j :: 0 <= j < r.value ==> !IsTaxIdName(cols[j])
    ensures r.Err? <==> forall j :: 0 <= j < |cols| ==> !IsTaxIdName(cols[j])
    ensures r.Err? ==> r.error == MissingTaxIdColumn(cols)
    ensures r.Ok? <==> TaxIdIndex(cols).Some?
    ensures r.Ok? ==> TaxIdIndex(cols) == Some(r.value)
  {
    var found: Option<nat> := None;
    var i := 0;
    while i < |cols|
      invariant 0 <= i <= |cols| && found.None?
      invariant forall j :: 0 <= j < i ==> !IsTaxIdName(cols[j])
    {
      if IsTaxIdName(cols[i]) {
        found := Some(i);
        break;
      }
      i := i + 1;
    }
    if found.None? {
      return Err(MissingTaxIdColumn(cols));
    }
    return Ok(found.value);
  }

  // ---------------------------------------------------------------------
  // tax_id_to_label

  /** `str(tax_id).strip()`: a NaN identifier prints as "nan". */
  function IdKey(c: Cell): string {
    match c
    case NaN => Trim("nan")
    case Str(text) => Trim(text)
  }

  /** The row handed to the label selector: every column but the
      identifier column `k`, which became the index. */
  function RowFor(cols: seq<string>, cells: seq<Cell>, k: nat): (row: Row)
    requires |cells| == |cols| && k < |cols|
    ensures |row| == |cols| - 1
    ensures forall i :: 0 <= i < k ==> row[i] == (cols[i], cells[i])
    ensures forall i :: k < i < |cols| ==> row[i - 1] == (cols[i], cells[i])
  {
    seq(|cols| - 1, i requires 0 <= i < |cols| - 1 =>
      if i < k then (cols[i], cells[i]) else (cols[i + 1], cells[i + 1]))
  }

  /** The (identifier, label) pair the comprehension produces for each
      row, in row order. */
  function Entries(cols: seq<string>, rows: seq<seq<Cell>>, k: nat): (e: seq<(string, string)>)
    requires k < |cols| && forall i :: 0 <= i < |rows| ==> |rows[i]| == |cols|
    ensures |e| == |rows|
  {
    seq(|rows|, i requires 0 <= i < |rows| => (IdKey(rows[i][k]), LabelOf(RowFor(cols, rows[i], k))))
  }

  /** Building a dict from pairs, left to right: a later pair overwrites an
      earlier one with the same key. */
  function FoldMap(pairs: seq<(string, string)>): map<string, string> {
    if pairs == [] then map[]
    else FoldMap(pairs[..|pairs| - 1])[pairs[|pairs| - 1].0 := pairs[|pairs| - 1].1]
  }

  /** The keys of a folded dict are exactly the keys of its pairs. */
  lemma {:induction false} FoldMapKeys(pairs: seq<(string, string)>, key: string)
    ensures key in FoldMap(pairs) <==> exists i :: 0 <= i < |pairs| && pairs[i].0 == key
  {
    if pairs != [] {
      var init := pairs[..|pairs| - 1];
      FoldMapKeys(init, key);
      assert forall i :: 0 <= i < |init| ==> init[i] == pairs[i];
    }
  }

  /** A pair with no later pair of the same key is what the dict holds. */
  lemma {:induction false} FoldMapLastWins(pairs: seq<(string, string)>, i: nat)
    requires i < |pairs|
    requires forall j :: i < j < |pairs| ==> pairs[j].0 != pairs[i].0
    ensures pairs[i].0 in FoldMap(pairs) && FoldMap(pairs)[pairs[i].0] == pairs[i].1
  {
    var last := |pairs| - 1;
    if i < last {
      var init := pairs[..last];
      assert init[i] == pairs[i];
      assert forall j :: i < j < |init| ==> init[j] == pairs[j];
      FoldMapLastWins(init, i);
    }
  }

  /** Every value of a folded dict is the value of one of its pairs. */
  lemma {:induction false} FoldMapValues(pairs: seq<(string, string)>, key: string)
    requires key in FoldMap(pairs)
    ensures exists i :: 0 <= i < |pairs| && pairs[i] == (key, FoldMap(pairs)[key])
  {
    var last := |pairs| - 1;
    if pairs[last].0 != key {
      var init := pairs[..last];
      FoldMapValues(init, key);
      var i :| 0 <= i < |init| && init[i] == (key, FoldMap(init)[key]);
      assert pairs[i] == init[i];
    }
  }

  /** `tax_id_to_label`: the dict comprehension over the rows. */
  function TranslationMap(cols: seq<string>, rows: seq<seq<Cell>>, k: nat): map<string, string>
    requires k < |cols| && forall i :: 0 <= i < |rows| ==> |rows[i]| == |cols|
  {
    FoldMap(Entries(cols, rows, k))
  }

  /** The keys of the map are exactly the stripped identifiers of the rows:
      no row is skipped, whatever its identifier. */
  lemma TranslationMapKeys(cols: seq<string>, rows: seq<seq<Cell>>, k: nat, key: string)
    requires k < |cols| && forall i :: 0 <= i < |rows| ==> |rows[i]| == |cols|
    ensures key in TranslationMap(cols, rows, k) <==> exists i :: 0 <= i < |rows| && IdKey(rows[i][k]) == key
  {
    var e := Entries(cols, rows, k);
    FoldMapKeys(e, key);
    assert forall i :: 0 <= i < |rows| ==> e[i].0 == IdKey(rows[i][k]);
  }

  /** The label stored for a row's identifier is that row's label when no
      later row has the same identifier: the last duplicate wins. */
  lemma TranslationMapLastWins(cols: seq<string>, rows: seq<seq<Cell>>, k: nat, i: nat)
    requires k < |cols| && forall j :: 0 <= j < |rows| ==> |rows[j]| == |cols|
    requires i < |rows|
    requires forall j :: i < j < |rows| ==> IdKey(rows[j][k]) != IdKey(rows[i][k])
    ensures IdKey(rows[i][k]) in TranslationMap(cols, rows, k)
    ensures TranslationMap(cols, rows, k)[IdKey(rows[i][k])] == LabelOf(RowFor(cols, rows[i], k))
  {
    var e := Entries(cols, rows, k);
    assert forall j :: i < j < |rows| ==> e[j].0 != e[i].0;
    FoldMapLastWins(e, i);
  }

  /** Every label in the map is non-empty and has no outer whitespace. */
  lemma TranslationMapLabelsWellFormed(cols: seq<string>, rows: seq<seq<Cell>>, k: nat, key: string)
    requires k < |cols| && forall i :: 0 <= i < |rows| ==> |rows[i]| == |cols|
    requires key in TranslationMap(cols, rows, k)
    ensures TranslationMap(cols, rows, k)[key] != ""
    ensures Trim(TranslationMap(cols, rows, k)[key]) == TranslationMap(cols, rows, k)[key]
  {
    var e := Entries(cols, rows, k);
    FoldMapValues(e, key);
    var i :| 0 <= i < |e| && e[i] == (key, FoldMap(e)[key]);
    LabelWellFormed(RowFor(cols, rows[i], k));
  }

  // ---------------------------------------------------------------------
  // new_headers

  /** One header: replaced by its label only when its stripped form is all
      digits and a key of the map; otherwise kept exactly as it was. */
  function RewriteHeader(h: string, m: map<string, string>): string {
    var s := Trim(h);
    if IsDigits(s) && s in m then m[s] else h
  }

  /** The list comprehension over the original headers. */
  function RewriteHeaders(headers: seq<string>, m: map<string, string>): (r: seq<string>)
    ensures |r| == |headers|
    ensures forall i :: 0 <= i < |headers| ==> r[i] == RewriteHeader(headers[i], m)
  {
    seq(|headers|, i requires 0 <= i < |headers| => RewriteHeader(headers[i], m))
  }

  /** A header changes only into the label of its stripped form, and only
      when that form is a known all-digit identifier; a non-numeric or an
      unmapped numeric header, whitespace included, is kept. */
  lemma RewriteHeaderCases(h: string, m: map<string, string>)
    ensures RewriteHeader(h, m) != h ==> IsDigits(Trim(h)) && Trim(h) in m
    ensures IsDigits(Trim(h)) && Trim(h) in m ==> RewriteHeader(h, m) == m[Trim(h)]
    ensures !IsDigits(Trim(h)) || Trim(h) !in m ==> RewriteHeader(h, m) == h
  {
  }

  /** Rewriting again changes nothing once no label is numeric. */
  lemma RewriteIdempotent(headers: seq<string>, m: map<string, string>)
    requires forall key :: key in m ==> !IsDigits(Trim(m[key]))
    ensures RewriteHeaders(RewriteHeaders(headers, m), m) == RewriteHeaders(headers, m)
  {
    var once := RewriteHeaders(headers, m);
    forall i | 0 <= i < |headers| ensures RewriteHeader(once[i], m) == once[i] {
      var h := headers[i];
      if IsDigits(Trim(h)) && Trim(h) in m {
        assert once[i] == m[Trim(h)];
      }
    }
  }

  // ---------------------------------------------------------------------
  // The whole translation

  /** Lines 79-100 of `main` as one value: the rewritten headers, or the
      abort when the taxonomy table has no identifier column. */
  function TranslateHeaders(headers: seq<string>, taxonomy: Table): Result<seq<string>, Error>
    requires taxonomy.Rectangular()
  {
    var cols := NormalizeCols(taxonomy.columns);
    match TaxIdIndex(cols)
    case None => Err(MissingTaxIdColumn(cols))
    case Some(k) => Ok(RewriteHeaders(headers, TranslationMap(cols, taxonomy.rows, k)))
  }

  /** The run aborts exactly when no column is named "tax_id" or "taxid"
      up to case and outer whitespace; otherwise it keeps the number and
      order of the headers. */
  lemma TranslateFailsOnlyWithoutTaxId(headers: seq<string>, taxonomy: Table)
    requires taxonomy.Rectangular()
    ensures TranslateHeaders(headers, taxonomy).Err? <==>
              forall j :: 0 <= j < |taxonomy.columns| ==>
                Norm(taxonomy.columns[j]) != "tax_id" && Norm(taxonomy.columns[j]) != "taxid"
    ensures TranslateHeaders(headers, taxonomy).Ok? ==> |TranslateHeaders(headers, taxonomy).value| == |headers|
  {
    var cols := NormalizeCols(taxonomy.columns);
    NormalizeColsSpec(taxonomy.columns);
    forall j | 0 <= j < |cols|
      ensures IsTaxIdName(cols[j]) <==> Norm(taxonomy.columns[j]) == "tax_id" || Norm(taxonomy.columns[j]) == "taxid"
    {
      TaxIdNameIsTwoSpellings(cols[j]);
    }
  }

  /** End to end: a header whose stripped form is all digits and is the
      stripped identifier of some taxonomy row becomes the label of the last
      such row; any other header comes out unchanged. */
  lemma TranslatedHeader(headers: seq<string>, taxonomy: Table, k: nat, i: nat)
    requires taxonomy.Rectangular()
    requires TaxIdIndex(NormalizeCols(taxonomy.columns)) == Some(k)
    requires i < |headers|
    ensures TranslateHeaders(headers, taxonomy).Ok?
    ensures |TranslateHeaders(headers, taxonomy).value| == |headers|
    ensures forall j :: 0 <= j < |taxonomy.rows| && IsDigits(Trim(headers[i]))
              && IdKey(taxonomy.rows[j][k]) == Trim(headers[i])
              && (forall l :: j < l < |taxonomy.rows| ==> IdKey(taxonomy.rows[l][k]) != Trim(headers[i]))
              ==> TranslateHeaders(headers, taxonomy).value[i]
                    == LabelOf(RowFor(NormalizeCols(taxonomy.columns), taxonomy.rows[j], k))
    ensures (!IsDigits(Trim(headers[i]))
               || forall j :: 0 <= j < |taxonomy.rows| ==> IdKey(taxonomy.rows[j][k]) != Trim(headers[i]))
              ==> TranslateHeaders(headers, taxonomy).value[i] == headers[i]
  {
    var cols := NormalizeCols(taxonomy.columns);
    NormalizeColsSpec(taxonomy.columns);
    var rows := taxonomy.rows;
    var h := headers[i];
    TranslationMapKeys(cols, rows, k, Trim(h));
    forall j | 0 <= j < |rows| && IsDigits(Trim(h)) && IdKey(rows[j][k]) == Trim(h)
               && (forall l :: j < l < |rows| ==> IdKey(rows[l][k]) != Trim(h))
      ensures TranslateHeaders(headers, taxonomy).value[i] == LabelOf(RowFor(cols, rows[j], k))
    {
      TranslationMapLastWins(cols, rows, k, j);
    }
  }

  /** A sample table held in memory: its header row and its data rows. */
  class SampleTable {
    var headers: seq<string>
    var rows: seq<seq<string>>

    constructor (headers: seq<string>, rows: seq<seq<string>>)
      ensures this.headers == headers && this.rows == rows
    {
      this.headers := headers;
      this.rows := rows;
    }

    /** `df.columns = new_headers`, after the identifier search and the map
        are done; on the abort nothing is changed. The data rows never change. */
    method Translate(taxonomy: Table) returns (r: Result<(), Error>)
      requires taxonomy.Rectangular()
      modifies this
      ensures rows == old(rows)
      ensures TranslateHeaders(old(headers), taxonomy).Err? ==>
                r == Err(TranslateHeaders(old(headers), taxonomy).error) && headers == old(headers)
      ensures TranslateHeaders(old(headers), taxonomy).Ok? ==>
                r.Ok? && headers == TranslateHeaders(old(headers), taxonomy).value
    {
      var cols := NormalizeCols(taxonomy.columns);
      var found := FindTaxIdColumn(cols);
      if found.Err? {
        return Err(found.error);
      }
      var k := found.value;
      headers := RewriteHeaders(headers, TranslationMap(cols, taxonomy.rows, k));
      return Ok(());
    }
  }
}
