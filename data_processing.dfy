/**
 * The ingestion layer's table rules: header normalisation and renaming, date columns, the
 * full-name split, filling in required client columns and extracting admission rows. A table
 * is its list of column names and its rows, each row a map from column name to cell text.
 */
module DataProcessing {
  import opened Wrappers
  import opened Strings
  import opened DataModels
  import opened Config

  datatype Table = Table(columns: seq<string>, rows: seq<map<string, string>>)

  /** Every row has exactly one cell per column. */
  ghost predicate WellFormed(t: Table) {
    forall i :: 0 <= i < |t.rows| ==> forall k :: k in t.rows[i] <==> k in t.columns
  }

  /** The cell of `row` in column `col` ("" when the row has none). */
  function Cell(row: map<string, string>, col: string): (r: string)
    ensures col in row ==> r == row[col]
  {
    if col in row then row[col] else ""
  }

  /** `df[col] = value`: the column is added at the end if it is new, and every row gets `value`. */
  function SetColumn(t: Table, col: string, value: string): (r: Table)
    ensures col in r.columns && |r.rows| == |t.rows|
    ensures r.columns == if col in t.columns then t.columns else t.columns + [col]
    ensures forall i :: 0 <= i < |t.rows| ==> r.rows[i] == t.rows[i][col := value]
    ensures WellFormed(t) ==> WellFormed(r)
  {
    Table(if col in t.columns then t.columns else t.columns + [col],
          seq(|t.rows|, i requires 0 <= i < |t.rows| => t.rows[i][col := value]))
  }

  // ---------------------------------------------------------------------------------------------
  // Header normalisation

  /** `col.strip().lower()`, then renamed through `mapping` (FIELD_MAPPING) when it has that name. */
  function NormalizeColumnName(col: string, mapping: map<string, string>): (r: string)
    ensures var low := Lower(Strip(col));
      (low in mapping ==> r == mapping[low]) && (low !in mapping ==> r == low)
  {
    var low := Lower(Strip(col));
    if low in mapping then mapping[low] else low
  }

  /** No character of `s` is an upper-case letter. */
  predicate NoUpper(s: string) {
    forall i :: 0 <= i < |s| ==> !IsUpper(s[i])
  }

  /** A normalised column name is one of the mapping's targets or has no upper-case letter. */
  lemma NormalizedNameShape(col: string, mapping: map<string, string>)
    ensures NormalizeColumnName(col, mapping) in mapping.Values || NoUpper(NormalizeColumnName(col, mapping))
  {
    var low := Lower(Strip(col));
    if low in mapping {
      assert mapping[low] in mapping.Values;
    }
  }

  /** The required client columns have 6, 7, 8, 9, 11 or 16 characters. */
  lemma RequiredFieldLengths()
    ensures forall f :: f in RequiredClientFields ==> |f| != 13 && |f| != 14 && |f| != 19
  {
  }

  /**
   * A header normalised through FIELD_MAPPING is never ClientFullName, AdmissionDate,
   * ProviderAdmissionId or AdmissionType: the mapping only yields the required client columns,
   * and every other name is lower case.
   */
  lemma NormalizedNameNotAdmission(col: string)
    ensures var r := NormalizeColumnName(col, FieldMapping);
      r != "ClientFullName" && r != "AdmissionDate" && r != "ProviderAdmissionId" && r != "AdmissionType"
  {
    var r := NormalizeColumnName(col, FieldMapping);
    NormalizedNameShape(col, FieldMapping);
    if r in FieldMapping.Values {
      FieldMappingTargets();
      RequiredFieldLengths();
      var k :| k in FieldMapping && FieldMapping[k] == r;
    } else {
      assert |r| > 0 ==> !IsUpper(r[0]);
    }
  }

  /** A header already in the standard spelling is lowered and no longer matches it. */
  lemma StandardHeaderLowered()
    ensures NormalizeColumnName("ProviderClientId", FieldMapping) == "providerclientid"
  {
    var s := "ProviderClientId";
    assert IsTrimmed(s) by { assert s[0] == 'P' && s[|s| - 1] == 'd'; }
    StripTrimmed(s);
    LowerProviderClientId();
    LoweredStandardHeaderUnmapped();
  }

  /** The lowered standard header is no key of FIELD_MAPPING: it is longer than every key. */
  lemma LoweredStandardHeaderUnmapped()
    ensures "providerclientid" !in FieldMapping
  {
    FieldMappingKeyLengths();
    assert |"providerclientid"| == 16;
  }

  /** `"ProviderClientId".lower()`. */
  lemma LowerProviderClientId()
    ensures Lower("ProviderClientId") == "providerclientid"
  {
    var s := "ProviderClientId";
    var low := Lower(s);
    assert forall i :: 0 <= i < |s| ==> low[i] == LowerChar(s[i]);
  }

  /**
   * `df.rename(columns=...)` on one row: column `cols[i]` is renamed to `names[i]`; of two columns
   * renamed alike, the later wins.
   */
  function RenameRow(row: map<string, string>, cols: seq<string>, names: seq<string>): (r: map<string, string>)
    requires |names| == |cols|
    ensures |cols| > 0 && cols[|cols| - 1] in row ==>
      names[|cols| - 1] in r && r[names[|cols| - 1]] == row[cols[|cols| - 1]]
    decreases |cols|
  {
    if cols == [] then map[]
    else
      var n := |cols| - 1;
      var init := RenameRow(row, cols[..n], names[..n]);
      if cols[n] in row then init[names[n] := row[cols[n]]] else init
  }

  /** The renamed row has a cell exactly under the new name of each column the row has. */
  lemma {:induction false} RenameRowKeys(row: map<string, string>, cols: seq<string>, names: seq<string>)
    requires |names| == |cols|
    ensures forall k :: k in RenameRow(row, cols, names) <==> exists i :: 0 <= i < |cols| && cols[i] in row && names[i] == k
    decreases |cols|
  {
    if cols != [] {
      var n := |cols| - 1;
      RenameRowKeys(row, cols[..n], names[..n]);
      forall k ensures k in RenameRow(row, cols, names) <==> exists i :: 0 <= i < |cols| && cols[i] in row && names[i] == k {
        if k in RenameRow(row, cols, names) && k in RenameRow(row, cols[..n], names[..n]) {
          var i :| 0 <= i < n && cols[..n][i] in row && names[..n][i] == k;
          assert cols[i] in row && names[i] == k;
        }
        if exists i :: 0 <= i < |cols| && cols[i] in row && names[i] == k {
          var i :| 0 <= i < |cols| && cols[i] in row && names[i] == k;
          if i < n {
            assert cols[..n][i] in row && names[..n][i] == k;
          }
        }
      }
    }
  }

  /** The normalised name of every column. */
  function NormalizedNames(cols: seq<string>, mapping: map<string, string>): (r: seq<string>)
    ensures |r| == |cols| && forall i :: 0 <= i < |cols| ==> r[i] == NormalizeColumnName(cols[i], mapping)
  {
    seq(|cols|, i requires 0 <= i < |cols| => NormalizeColumnName(cols[i], mapping))
  }

  /** Steps 1 and 2 of `normalize_dataframe`: headers stripped and lowered, then renamed. */
  function RenameColumns(t: Table, mapping: map<string, string>): (r: Table)
    ensures r.columns == NormalizedNames(t.columns, mapping) && |r.rows| == |t.rows|
    ensures forall i :: 0 <= i < |t.rows| ==> r.rows[i] == RenameRow(t.rows[i], t.columns, r.columns)
  {
    var names := NormalizedNames(t.columns, mapping);
    Table(names, seq(|t.rows|, i requires 0 <= i < |t.rows| => RenameRow(t.rows[i], t.columns, names)))
  }

  /** Renaming keeps a table well formed: each row's cells sit under the renamed columns. */
  lemma RenameColumnsWellFormed(t: Table, mapping: map<string, string>)
    requires WellFormed(t)
    ensures WellFormed(RenameColumns(t, mapping))
  {
    var r := RenameColumns(t, mapping);
    forall i, k | 0 <= i < |r.rows| ensures k in r.rows[i] <==> k in r.columns {
      RenameRowKeys(t.rows[i], t.columns, r.columns);
      if k in r.columns {
        var j :| 0 <= j < |r.columns| && r.columns[j] == k;
        assert t.columns[j] in t.rows[i];
      }
    }
  }

  /** After renaming no column is ClientFullName, AdmissionDate, ProviderAdmissionId or AdmissionType. */
  lemma RenamedColumnsExclude(t: Table)
    ensures forall c :: c in RenameColumns(t, FieldMapping).columns ==>
      c != "ClientFullName" && c != "AdmissionDate" && c != "ProviderAdmissionId" && c != "AdmissionType"
  {
    forall i | 0 <= i < |t.columns| {
      NormalizedNameNotAdmission(t.columns[i]);
    }
  }

  // ---------------------------------------------------------------------------------------------
  // Date columns

  /** `df[col].apply(lambda x: format_date(str(x)) if x else '')` when the column exists. */
  function FormatDateColumn(t: Table, col: string): (r: Table)
    ensures r.columns == t.columns && |r.rows| == |t.rows|
    ensures forall i :: 0 <= i < |t.rows| ==>
      if col in t.columns && col in t.rows[i]
      then r.rows[i] == t.rows[i][col := if t.rows[i][col] != "" then FormatDate(t.rows[i][col]) else ""]
      else r.rows[i] == t.rows[i]
  {
    if col !in t.columns then t
    else
      Table(t.columns, seq(|t.rows|, i requires 0 <= i < |t.rows| =>
        var row := t.rows[i];
        if col in row then row[col := if row[col] != "" then FormatDate(row[col]) else ""] else row))
  }

  /** A formatted date cell is "" or a canonical date that `validate_date` accepts. */
  lemma FormattedCellsValid(t: Table, col: string, i: nat)
    requires i < |t.rows| && col in FormatDateColumn(t, col).rows[i] && col in t.columns
    ensures var c := FormatDateColumn(t, col).rows[i][col]; c == "" || (|c| == 10 && ValidateDate(c))
  {
    if col in t.rows[i] && t.rows[i][col] != "" {
      FormatDateValidates(t.rows[i][col]);
    }
  }

  /** Formatting a date column a second time changes nothing. */
  lemma FormatDateColumnIdempotent(t: Table, col: string)
    ensures FormatDateColumn(FormatDateColumn(t, col), col) == FormatDateColumn(t, col)
  {
    var once := FormatDateColumn(t, col);
    var twice := FormatDateColumn(once, col);
    forall i | 0 <= i < |t.rows| ensures twice.rows[i] == once.rows[i] {
      if col in t.columns && col in t.rows[i] {
        var c := once.rows[i][col];
        if c != "" {
          FormatDateIdempotent(t.rows[i][col]);
        }
        assert once.rows[i][col := if c != "" then FormatDate(c) else ""] == once.rows[i];
      }
    }
    assert twice.rows == once.rows;
  }

  // ---------------------------------------------------------------------------------------------
  // The full-name split

  /** Every cell of the column is "" (pandas `df[col].eq('').all()`). */
  predicate ColumnBlank(t: Table, col: string)
    ensures t.rows == [] ==> ColumnBlank(t, col)
    ensures (forall i :: 0 <= i < |t.rows| ==> col !in t.rows[i]) ==> ColumnBlank(t, col)
  {
    forall i :: 0 <= i < |t.rows| ==> Cell(t.rows[i], col) == ""
  }

  /** The split applies to a row with a full name and a missing first or last name. */
  predicate NeedsNameSplit(row: map<string, string>) {
    Cell(row, "ClientFullName") != "" && !(Cell(row, "FirstName") != "" && Cell(row, "LastName") != "")
  }

  /** The words of the row's full name (`ClientFullName.strip().split()`). */
  function NameParts(row: map<string, string>): (r: seq<string>)
    ensures forall i :: 0 <= i < |r| ==> IsWord(r[i])
  {
    SplitWords(Strip(Cell(row, "ClientFullName")))
  }

  /**
   * One row of the split: with several words, all but the last (joined by single spaces) become
   * the first name and the last the last name; with one, only the last name is set.
   */
  function SplitNameRow(row: map<string, string>): (r: map<string, string>)
    ensures !NeedsNameSplit(row) || NameParts(row) == [] ==> r == row
    ensures forall k :: k != "FirstName" && k != "LastName" ==>
      (k in r <==> k in row) && (k in row ==> r[k] == row[k])
    ensures NeedsNameSplit(row) && |NameParts(row)| >= 1 ==>
      "LastName" in r && r["LastName"] == NameParts(row)[|NameParts(row)| - 1] &&
      Cell(r, "FirstName") == if |NameParts(row)| == 1 then Cell(row, "FirstName")
                              else JoinWith(NameParts(row)[..|NameParts(row)| - 1], " ")
  {
    if !NeedsNameSplit(row) then row
    else
      var parts := NameParts(row);
      if |parts| > 1 then
        var first := JoinWith(parts[..|parts| - 1], " ");
        var r := row["FirstName" := first]["LastName" := parts[|parts| - 1]];
        assert "FirstName" in r && r["FirstName"] == first;
        r
      else if |parts| == 1 then
        var r := row["LastName" := parts[0]];
        assert "FirstName" != "LastName";
        r
      else row
  }

  /** `strip()` before `split()` changes nothing: the parts are the full name's words. */
  lemma NamePartsSplit(row: map<string, string>)
    ensures NameParts(row) == SplitWords(Cell(row, "ClientFullName"))
  {
    SplitWordsStrip(Cell(row, "ClientFullName"));
  }

  /**
   * A full name of two words, with any whitespace around and between them, splits into those
   * two words: the first becomes FirstName and the second LastName.
   */
  lemma SplitNameTwoWords(row: map<string, string>, lead: string, first: string, sep: string,
                          last: string, trail: string)
    requires IsBlank(lead) && IsBlank(sep) && sep != [] && IsBlank(trail)
    requires IsWord(first) && IsWord(last)
    requires Cell(row, "ClientFullName") == lead + first + sep + last + trail
    requires !(Cell(row, "FirstName") != "" && Cell(row, "LastName") != "")
    ensures NameParts(row) == [first, last]
    ensures Cell(SplitNameRow(row), "FirstName") == first && Cell(SplitNameRow(row), "LastName") == last
  {
    NamePartsSplit(row);
    SplitWordsTwoWords(lead, first, sep, last, trail);
    var parts := NameParts(row);
    assert parts[..1] == [first];
    assert JoinWith(parts[..1], " ") == first;
    assert Cell(row, "ClientFullName") != "" by {
      assert |lead + first + sep + last + trail| >= |first| > 0;
    }
  }

  /** The split loses no word: the new first and last names re-split into the full name's words. */
  lemma SplitNameKeepsWords(row: map<string, string>)
    requires NeedsNameSplit(row) && |NameParts(row)| > 1
    ensures var r := SplitNameRow(row);
      SplitWords(r["FirstName"] + " " + r["LastName"]) == NameParts(row)
  {
    var parts := NameParts(row);
    var r := SplitNameRow(row);
    assert Cell(r, "FirstName") == r["FirstName"];
    SplitWordsJoinLast(parts);
  }

  /** Rows whose first and last names are both given are left as they are. */
  lemma SplitNameKeepsNamedRows(row: map<string, string>)
    requires Cell(row, "FirstName") != "" && Cell(row, "LastName") != ""
    ensures SplitNameRow(row) == row
  {
  }

  /** The FirstName and LastName columns are created (all "") when missing or entirely blank. */
  function PrepareNameColumn(t: Table, col: string): (r: Table)
    ensures col in r.columns && |r.rows| == |t.rows|
    ensures col in t.columns && !ColumnBlank(t, col) ==> r == t
  {
    if col !in t.columns || ColumnBlank(t, col) then SetColumn(t, col, "") else t
  }

  /**
   * The ClientFullName step of `normalize_dataframe`: applies only when that column exists and
   * the table has rows; then it prepares the name columns and splits each row.
   */
  function SplitFullNames(t: Table): (r: Table)
    ensures !("ClientFullName" in t.columns && |t.rows| > 0) ==> r == t
  {
    if "ClientFullName" in t.columns && |t.rows| > 0 then
      var p := PrepareNameColumn(PrepareNameColumn(t, "FirstName"), "LastName");
      Table(p.columns, seq(|p.rows|, i requires 0 <= i < |p.rows| => SplitNameRow(p.rows[i])))
    else t
  }

  /** The split changes only FirstName and LastName cells, and only of rows that need it. */
  lemma SplitFullNamesRows(t: Table, i: nat)
    requires "ClientFullName" in t.columns && i < |t.rows|
    ensures var p := PrepareNameColumn(PrepareNameColumn(t, "FirstName"), "LastName");
      |SplitFullNames(t).rows| == |t.rows| && SplitFullNames(t).rows[i] == SplitNameRow(p.rows[i])
    ensures forall k :: k != "FirstName" && k != "LastName" ==>
      (k in SplitFullNames(t).rows[i] <==> k in t.rows[i]) &&
      (k in t.rows[i] ==> SplitFullNames(t).rows[i][k] == t.rows[i][k])
  {
  }

  /** `normalize_dataframe` on the column and cell rules, in its order. */
  function NormalizeTable(t: Table): (r: Table)
    ensures r.columns == NormalizedNames(t.columns, FieldMapping) && |r.rows| == |t.rows|
    ensures "AdmissionDate" !in r.columns && "ClientFullName" !in r.columns
  {
    RenamedColumnsExclude(t);
    SplitFullNames(FormatDateColumn(FormatDateColumn(RenameColumns(t, FieldMapping), "DateofBirth"), "AdmissionDate"))
  }

  /**
   * Renaming never produces a ClientFullName or an AdmissionDate column, so after it the date
   * rule for AdmissionDate and the full-name split never apply.
   */
  lemma NormalizeSkipsDeadSteps(t: Table)
    ensures var d := FormatDateColumn(RenameColumns(t, FieldMapping), "DateofBirth");
      NormalizeTable(t) == d && "AdmissionDate" !in d.columns && "ClientFullName" !in d.columns
  {
    RenamedColumnsExclude(t);
  }

  // ---------------------------------------------------------------------------------------------
  // handle_missing_fields

  /** `handle_missing_fields`: each listed field that is not a column is added with "" cells. */
  function WithRequiredFields(t: Table, fields: seq<string>): (r: Table)
    ensures |r.rows| == |t.rows| && |r.columns| >= |t.columns| && r.columns[..|t.columns|] == t.columns
    ensures forall i :: 0 <= i < |fields| ==> fields[i] in r.columns
    ensures forall k :: k in r.columns ==> k in t.columns || k in fields
    decreases |fields|
  {
    if fields == [] then t
    else
      var next := if fields[0] in t.columns then t else SetColumn(t, fields[0], "");
      WithRequiredFields(next, fields[1..])
  }

  /**
   * The cells of a well-formed table survive the fill; a cell the fill adds is "", and the
   * result is well formed.
   */
  lemma {:induction false} WithRequiredFieldsCells(t: Table, fields: seq<string>)
    requires WellFormed(t)
    ensures var r := WithRequiredFields(t, fields);
      WellFormed(r) &&
      (forall i, k :: 0 <= i < |t.rows| && k in t.rows[i] ==> k in r.rows[i] && r.rows[i][k] == t.rows[i][k]) &&
      (forall i, k :: 0 <= i < |t.rows| && k in r.rows[i] && k !in t.rows[i] ==> r.rows[i][k] == "")
    decreases |fields|
  {
    if fields != [] {
      var next := if fields[0] in t.columns then t else SetColumn(t, fields[0], "");
      WithRequiredFieldsCells(next, fields[1..]);
    }
  }

  /** A table that already has every field is left as it is. */
  lemma {:induction false} WithRequiredFieldsPresent(t: Table, fields: seq<string>)
    requires forall i :: 0 <= i < |fields| ==> fields[i] in t.columns
    ensures WithRequiredFields(t, fields) == t
    decreases |fields|
  {
    if fields != [] {
      WithRequiredFieldsPresent(t, fields[1..]);
    }
  }

  /** Filling in the required fields twice is filling them in once. */
  lemma WithRequiredFieldsIdempotent(t: Table, fields: seq<string>)
    ensures WithRequiredFields(WithRequiredFields(t, fields), fields) == WithRequiredFields(t, fields)
  {
    WithRequiredFieldsPresent(WithRequiredFields(t, fields), fields);
  }

  // ---------------------------------------------------------------------------------------------
  // extract_admission_data

  /** `df[cols]`: the listed columns of every row. */
  function SelectColumns(t: Table, cols: seq<string>): (r: Table)
    ensures r.columns == cols && |r.rows| == |t.rows|
    ensures forall i, k :: 0 <= i < |t.rows| ==> (k in r.rows[i] <==> k in cols && k in t.rows[i])
    ensures forall i, k :: 0 <= i < |t.rows| && k in cols && k in t.rows[i] ==> r.rows[i][k] == t.rows[i][k]
  {
    Table(cols, seq(|t.rows|, i requires 0 <= i < |t.rows| =>
      map k | k in cols && k in t.rows[i] :: t.rows[i][k]))
  }

  /**
   * `generate_admission_id` as `.apply` calls it, with the client id alone: no initials, and the
   * date part is today's.
   */
  function AdmissionIdGenerator(today: Date): (generate: string -> string)
    requires IsCalendarDate(today)
    ensures forall clientId :: 9 <= |generate(clientId)| <= 13 && generate(clientId)[..3] == "ADM"
  {
    clientId => GenerateAdmissionId(clientId, "", "", "", today)
  }

  /** The generated id of an admission row. */
  function GeneratedAdmissionId(row: map<string, string>, today: Date): string
    requires IsCalendarDate(today)
  {
    AdmissionIdGenerator(today)(Cell(row, "ProviderClientId"))
  }

  /** The columns `extract_admission_data` copies out of the table. */
  function AdmissionColumns(t: Table): (r: seq<string>)
    ensures forall k :: k in r <==>
      (k == "ProviderClientId" || k == "AdmissionDate" || (k in t.columns && (k == "ProviderAdmissionId" || k == "AdmissionType")))
  {
    ["ProviderClientId", "AdmissionDate"]
      + (if "ProviderAdmissionId" in t.columns then ["ProviderAdmissionId"] else [])
      + (if "AdmissionType" in t.columns then ["AdmissionType"] else [])
  }

  /** `admission_df['ProviderId'] = PROVIDERID` and the same for the location: the two constants on every row. */
  function WithProviderColumns(t: Table): (r: Table)
    ensures |r.rows| == |t.rows|
    ensures forall c :: c in r.columns <==> c in t.columns || c == "ProviderId" || c == "ProviderLocationId"
    ensures forall i :: 0 <= i < |t.rows| ==>
      r.rows[i] == t.rows[i]["ProviderId" := ProviderId]["ProviderLocationId" := ProviderLocationId]
  {
    SetColumn(SetColumn(t, "ProviderId", ProviderId), "ProviderLocationId", ProviderLocationId)
  }

  /**
   * `admission_df['ProviderAdmissionId'] = admission_df['ProviderClientId'].apply(generate_admission_id)`
   * unless the table already has that column; `generate` is the function applied.
   */
  function FillAdmissionId(t: Table, generate: string -> string): (r: Table)
    ensures |r.rows| == |t.rows|
    ensures forall c :: c in r.columns <==> c in t.columns || c == "ProviderAdmissionId"
    ensures forall i :: 0 <= i < |t.rows| ==>
      r.rows[i] == if "ProviderAdmissionId" in t.columns then t.rows[i]
                   else t.rows[i]["ProviderAdmissionId" := generate(Cell(t.rows[i], "ProviderClientId"))]
  {
    if "ProviderAdmissionId" in t.columns then t
    else Table(t.columns + ["ProviderAdmissionId"], seq(|t.rows|, i requires 0 <= i < |t.rows| =>
                 t.rows[i]["ProviderAdmissionId" := generate(Cell(t.rows[i], "ProviderClientId"))]))
  }

  /** An `AdmissionType` column of "New" unless the table already has one. */
  function FillAdmissionType(t: Table): (r: Table)
    ensures |r.rows| == |t.rows|
    ensures forall c :: c in r.columns <==> c in t.columns || c == "AdmissionType"
    ensures forall i :: 0 <= i < |t.rows| ==>
      r.rows[i] == if "AdmissionType" in t.columns then t.rows[i] else t.rows[i]["AdmissionType" := "New"]
  {
    if "AdmissionType" in t.columns then t else SetColumn(t, "AdmissionType", "New")
  }

  /**
   * `extract_admission_data`: the empty table without both a ProviderClientId and an AdmissionDate
   * column; otherwise one row per input row. `today` is the current date.
   */
  function ExtractAdmissionData(t: Table, today: Date): (r: Table)
    requires IsCalendarDate(today)
    ensures !("ProviderClientId" in t.columns && "AdmissionDate" in t.columns) ==> r == Table([], [])
    ensures "ProviderClientId" in t.columns && "AdmissionDate" in t.columns ==> |r.rows| == |t.rows|
  {
    if !("ProviderClientId" in t.columns && "AdmissionDate" in t.columns) then Table([], [])
    else
      var selected := SelectColumns(t, AdmissionColumns(t));
      FillAdmissionType(FillAdmissionId(WithProviderColumns(selected), AdmissionIdGenerator(today)))
  }

  /** The provider stage keeps every other cell of a row. */
  lemma ProviderStageKeeps(t: Table, i: nat, k: string)
    requires i < |t.rows| && k != "ProviderId" && k != "ProviderLocationId"
    ensures var out := WithProviderColumns(t).rows[i];
      (k in out <==> k in t.rows[i]) && Cell(out, k) == Cell(t.rows[i], k)
  {
  }

  /** The admission-id stage keeps every other cell of a row. */
  lemma IdStageKeeps(t: Table, generate: string -> string, i: nat, k: string)
    requires i < |t.rows| && k != "ProviderAdmissionId"
    ensures var out := FillAdmissionId(t, generate).rows[i];
      (k in out <==> k in t.rows[i]) && Cell(out, k) == Cell(t.rows[i], k)
  {
  }

  /** The admission-type stage keeps every other cell of a row. */
  lemma TypeStageKeeps(t: Table, i: nat, k: string)
    requires i < |t.rows| && k != "AdmissionType"
    ensures var out := FillAdmissionType(t).rows[i];
      (k in out <==> k in t.rows[i]) && Cell(out, k) == Cell(t.rows[i], k)
  {
  }

  /** Extraction from a well-formed table with both key columns copies each row's client id and admission date. */
  lemma ExtractKeepsKeys(t: Table, today: Date, i: nat)
    requires IsCalendarDate(today) && WellFormed(t) && i < |t.rows|
    requires "ProviderClientId" in t.columns && "AdmissionDate" in t.columns
    ensures var row, out := t.rows[i], ExtractAdmissionData(t, today).rows[i];
      "ProviderClientId" in out && out["ProviderClientId"] == row["ProviderClientId"] &&
      "AdmissionDate" in out && out["AdmissionDate"] == row["AdmissionDate"]
  {
    var selected := SelectColumns(t, AdmissionColumns(t));
    var withProvider := WithProviderColumns(selected);
    var withId := FillAdmissionId(withProvider, AdmissionIdGenerator(today));
    assert ExtractAdmissionData(t, today) == FillAdmissionType(withId);
    ProviderStageKeeps(selected, i, "ProviderClientId");
    ProviderStageKeeps(selected, i, "AdmissionDate");
    IdStageKeeps(withProvider, AdmissionIdGenerator(today), i, "ProviderClientId");
    IdStageKeeps(withProvider, AdmissionIdGenerator(today), i, "AdmissionDate");
    TypeStageKeeps(withId, i, "ProviderClientId");
    TypeStageKeeps(withId, i, "AdmissionDate");
  }

  /** Every admission row carries the provider and location constants. */
  lemma ExtractSetsProvider(t: Table, today: Date, i: nat)
    requires IsCalendarDate(today) && i < |t.rows|
    requires "ProviderClientId" in t.columns && "AdmissionDate" in t.columns
    ensures var out := ExtractAdmissionData(t, today).rows[i];
      "ProviderId" in out && out["ProviderId"] == ProviderId &&
      "ProviderLocationId" in out && out["ProviderLocationId"] == ProviderLocationId
  {
  }

  /** The admission id is the row's own when the table has that column, and a generated one otherwise. */
  lemma ExtractAdmissionId(t: Table, today: Date, i: nat)
    requires IsCalendarDate(today) && WellFormed(t) && i < |t.rows|
    requires "ProviderClientId" in t.columns && "AdmissionDate" in t.columns
    ensures var row, out := t.rows[i], ExtractAdmissionData(t, today).rows[i];
      "ProviderAdmissionId" in out &&
      out["ProviderAdmissionId"] ==
        if "ProviderAdmissionId" in t.columns then row["ProviderAdmissionId"] else GeneratedAdmissionId(row, today)
  {
    var selected := SelectColumns(t, AdmissionColumns(t));
    var withProvider := WithProviderColumns(selected);
    var withId := FillAdmissionId(withProvider, AdmissionIdGenerator(today));
    assert ExtractAdmissionData(t, today) == FillAdmissionType(withId);
    assert "ProviderAdmissionId" in withProvider.columns <==> "ProviderAdmissionId" in t.columns;
    ProviderStageKeeps(selected, i, "ProviderClientId");
    ProviderStageKeeps(selected, i, "ProviderAdmissionId");
    var client := Cell(t.rows[i], "ProviderClientId");
    assert Cell(withProvider.rows[i], "ProviderClientId") == client;
    assert GeneratedAdmissionId(t.rows[i], today) == AdmissionIdGenerator(today)(client);
    TypeStageKeeps(withId, i, "ProviderAdmissionId");
  }

  /** The admission type is the row's own when the table has that column, and "New" otherwise. */
  lemma ExtractAdmissionType(t: Table, today: Date, i: nat)
    requires IsCalendarDate(today) && WellFormed(t) && i < |t.rows|
    requires "ProviderClientId" in t.columns && "AdmissionDate" in t.columns
    ensures var row, out := t.rows[i], ExtractAdmissionData(t, today).rows[i];
      "AdmissionType" in out &&
      out["AdmissionType"] == if "AdmissionType" in t.columns then row["AdmissionType"] else "New"
  {
    var selected := SelectColumns(t, AdmissionColumns(t));
    var withProvider := WithProviderColumns(selected);
    var withId := FillAdmissionId(withProvider, AdmissionIdGenerator(today));
    assert ExtractAdmissionData(t, today) == FillAdmissionType(withId);
    assert "AdmissionType" in withId.columns <==> "AdmissionType" in t.columns;
    ProviderStageKeeps(selected, i, "AdmissionType");
    IdStageKeeps(withProvider, AdmissionIdGenerator(today), i, "AdmissionType");
  }

  /**
   * `process_csv_data` and `process_tsv_data` once the text is read: the normalised table with
   * the required client fields, and the admission rows extracted from the normalised table.
   */
  function ProcessTable(t: Table, today: Date): (r: (Table, Table))
    requires IsCalendarDate(today)
    ensures forall i :: 0 <= i < |RequiredClientFields| ==> RequiredClientFields[i] in r.0.columns
  {
    var normalized := NormalizeTable(t);
    (WithRequiredFields(normalized, RequiredClientFields), ExtractAdmissionData(normalized, today))
  }

  /** Since renaming never yields an AdmissionDate column, the pipeline's admission table is always empty. */
  lemma ProcessTableAdmissionsEmpty(t: Table, today: Date)
    requires IsCalendarDate(today)
    ensures ProcessTable(t, today).1 == Table([], [])
  {
    NormalizeSkipsDeadSteps(t);
  }

  // ---------------------------------------------------------------------------------------------
  // The data frame the ingestion functions update in place

  class DataFrame {
    var columns: seq<string>
    var rows: seq<map<string, string>>

    function Value(): Table
      reads this
    {
      Table(columns, rows)
    }

    constructor (t: Table)
      ensures Value() == t
    {
      columns := t.columns;
      rows := t.rows;
    }

    /** `df[col] = value`. */
    method SetColumnInPlace(col: string, value: string)
      modifies this
      ensures Value() == SetColumn(old(Value()), col, value)
    {
      if col !in columns {
        columns := columns + [col];
      }
      var current := rows;
      rows := seq(|current|, i requires 0 <= i < |current| => current[i][col := value]);
    }

    /** `normalize_dataframe`: rename the headers, format the date columns, split full names. */
    method Normalize()
      modifies this
      ensures Value() == NormalizeTable(old(Value()))
    {
      var renamed := RenameColumns(Value(), FieldMapping);
      var dated := FormatDateColumn(FormatDateColumn(renamed, "DateofBirth"), "AdmissionDate");
      columns, rows := dated.columns, dated.rows;
      SplitFullNamesInPlace();
    }

    /** A name column is reset to "" when it is missing or entirely blank. */
    method PrepareNameColumnInPlace(col: string)
      modifies this
      ensures Value() == PrepareNameColumn(old(Value()), col)
    {
      if col !in columns || ColumnBlank(Value(), col) {
        SetColumnInPlace(col, "");
      }
    }

    /** The ClientFullName step of `normalize_dataframe`: make sure both name columns exist, then split. */
    method SplitFullNamesInPlace()
      modifies this
      ensures Value() == SplitFullNames(old(Value()))
    {
      ghost var start := Value();
      if "ClientFullName" in columns && |rows| > 0 {
        PrepareNameColumnInPlace("FirstName");
        PrepareNameColumnInPlace("LastName");
        ghost var prepared := Value();
        assert prepared == PrepareNameColumn(PrepareNameColumn(start, "FirstName"), "LastName");
        SplitNameRowsInPlace();
        assert rows == seq(|prepared.rows|, i requires 0 <= i < |prepared.rows| => SplitNameRow(prepared.rows[i]));
      }
    }

    /** The loop over the rows of the ClientFullName step, writing the name cells row by row. */
    method SplitNameRowsInPlace()
      modifies this`rows
      ensures |rows| == |old(rows)|
      ensures forall j :: 0 <= j < |rows| ==> rows[j] == SplitNameRow(old(rows)[j])
    {
      ghost var before := rows;
      var idx := 0;
      while idx < |rows|
        invariant 0 <= idx <= |rows| == |before|
        invariant forall j :: 0 <= j < idx ==> rows[j] == SplitNameRow(before[j])
        invariant forall j :: idx <= j < |rows| ==> rows[j] == before[j]
      {
        SplitNameAt(idx);
        idx := idx + 1;
      }
    }

    /** One iteration of the split: the `df.at` writes to row `idx`'s FirstName and LastName. */
    method SplitNameAt(idx: nat)
      requires idx < |rows|
      modifies this`rows
      ensures rows == old(rows)[idx := SplitNameRow(old(rows)[idx])]
    {
      var row := rows[idx];
      if NeedsNameSplit(row) {
        var nameParts := NameParts(row);
        if |nameParts| > 1 {
          rows := rows[idx := row["FirstName" := JoinWith(nameParts[..|nameParts| - 1], " ")]
                                ["LastName" := nameParts[|nameParts| - 1]]];
        } else if |nameParts| == 1 {
          rows := rows[idx := row["LastName" := nameParts[0]]];
        }
      }
    }

    /** `handle_missing_fields`: the default field list is REQUIRED_CLIENT_FIELDS. */
    method HandleMissingFields(requiredFields: Option<seq<string>>)
      modifies this
      ensures Value() == WithRequiredFields(old(Value()), requiredFields.GetOr(RequiredClientFields))
    {
      AddMissingFields(requiredFields.GetOr(RequiredClientFields));
    }

    /** The loop of `handle_missing_fields`: `df[field] = ""` for each field that is not a column. */
    method AddMissingFields(fields: seq<string>)
      modifies this
      ensures Value() == WithRequiredFields(old(Value()), fields)
    {
      var i := 0;
      while i < |fields|
        invariant 0 <= i <= |fields|
        invariant WithRequiredFields(Value(), fields[i..]) == WithRequiredFields(old(Value()), fields)
      {
        ghost var before := Value();
        assert fields[i..][0] == fields[i] && fields[i..][1..] == fields[i + 1..];
        if fields[i] !in columns {
          SetColumnInPlace(fields[i], "");
        }
        assert Value() == if fields[i] in before.columns then before else SetColumn(before, fields[i], "");
        i := i + 1;
      }
    }
  }
}
