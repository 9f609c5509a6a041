/**
 * `process_chunk`: one chunk of a source CSV turned into the master-table shape.
 * The pure stages are functions on `Table`; `Frame` performs them in place,
 * in the source's order, on a mutable frame.
 */
module Chunks {
  import opened Wrappers
  import opened Tokens
  import opened FileNames
  import opened Tables
  import opened FullNames

  const NameColumns: seq<string> := ["First Name", "Second Name", "Surname"]

  /** `drop_cols` (lines 32-33). */
  const DropColumns: seq<string> :=
    ["APS Year", "Reporting Test", "First Name", "Second Name", "Surname",
     "Home Group", "Date of Birth", "Home School Name", "Reporting School Name"]

  /** `new_col_order` (lines 43-48). */
  const PreferredOrder: seq<string> :=
    ["Full Name", "Campus", "Test Year", "Year Level", "Student ID",
     "READING", "READING Proficiency", "WRITING", "WRITING Proficiency",
     "SPELLING", "SPELLING Proficiency", "NUMERACY", "NUMERACY Proficiency",
     "GRAMMAR & PUNCTUATION", "GRAMMAR & PUNCTUATION Proficiency",
     "Date of birth", "Gender", "LBOTE", "ATSI", "Processed On", "Source File"]

  /** The columns `process_chunk` assigns. */
  const DerivedColumns: seq<string> :=
    ["Campus", "Test Year", "Year Level", "Full Name", "Processed On", "Source File"]

  const OldIdColumn: string := "Cases ID"
  const IdColumn: string := "Student ID"

  /** The fingerprints of `PreferredOrder`, position by position: a proof
      aid only (see `Fingerprint`), not part of the modelled behaviour. */
  const PreferredKeys: seq<int> := [38659293301, 25774194785, 38660210789, 42955505765, 42955112564, 30070145093, 81609752645, 30070472786, 81610080338, 34365177936, 85904785488, 34364850261, 85904457813, 90198966354, 141738573906, 55839031393, 25774456933, 21479817282, 17184129108, 51544850546, 47250079855]

  /** `PreferredKeys` matches the names at positions `[lo, hi)`. */
  predicate KeysMatchIn(lo: nat, hi: nat)
    requires lo <= hi <= |PreferredOrder| == |PreferredKeys|
  {
    forall i :: lo <= i < hi ==> PreferredKeys[i] == Fingerprint(PreferredOrder[i])
  }

  /** No two positions in `[lo, hi)` hold the same key. */
  predicate KeysDistinctIn(lo: nat, hi: nat)
    requires lo <= hi <= |PreferredKeys|
  {
    forall i, j :: lo <= i < j < hi ==> PreferredKeys[i] != PreferredKeys[j]
  }

  /** No position in `[lo, mid)` holds the key of one in `[mid, hi)`. */
  predicate KeysApart(lo: nat, mid: nat, hi: nat)
    requires lo <= mid <= hi <= |PreferredKeys|
  {
    forall i, j :: lo <= i < mid <= j < hi ==> PreferredKeys[i] != PreferredKeys[j]
  }

  lemma KeysMatchLow() ensures KeysMatchIn(0, 7) {}
  lemma KeysMatchMid() ensures KeysMatchIn(7, 14) {}
  lemma KeysMatchHigh() ensures KeysMatchIn(14, 21) {}
  lemma KeysDistinctLow() ensures KeysDistinctIn(0, 7) {}
  lemma KeysDistinctMid() ensures KeysDistinctIn(7, 14) {}
  lemma KeysDistinctHigh() ensures KeysDistinctIn(14, 21) {}
  lemma KeysApartLow() ensures KeysApart(0, 7, 21) {}
  lemma KeysApartMid() ensures KeysApart(7, 14, 21) {}

  lemma PreferredKeysMatch()
    ensures |PreferredKeys| == |PreferredOrder|
    ensures forall i :: 0 <= i < |PreferredOrder| ==> PreferredKeys[i] == Fingerprint(PreferredOrder[i])
  {
    KeysMatchLow();
    KeysMatchMid();
    KeysMatchHigh();
  }

  lemma PreferredKeysDistinct()
    ensures Distinct(PreferredKeys)
  {
    KeysDistinctLow();
    KeysDistinctMid();
    KeysDistinctHigh();
    KeysApartLow();
    KeysApartMid();
  }

  /** No column name occurs twice in the preferred order. */
  lemma PreferredOrderDistinct()
    ensures Distinct(PreferredOrder)
  {
    PreferredKeysMatch();
    PreferredKeysDistinct();
    DistinctByFingerprint(PreferredOrder, PreferredKeys);
  }

  /** The frames the source produces: distinct names after cleaning, and never
      both an old and a new identifier column (renaming would duplicate it). */
  predicate Admissible(t: Table) {
    && Cleanable(t)
    && !(OldIdColumn in CleanColumns(t.columns) && IdColumn in CleanColumns(t.columns))
  }

  /** The name columns `chunk[['First Name', 'Second Name', 'Surname']]` cannot find. */
  function MissingNames(t: Table): seq<string> {
    Select(NameColumns, t.columns, false)
  }

  /** Lines 16-18: Campus, Test Year and Year Level, in that order. */
  function Located(t: Table, meta: FileMeta): (r: Table)
    requires WellFormed(t)
    ensures WellFormed(r) && |r.rows| == |t.rows|
    ensures forall k :: k in r.columns <==> k in t.columns || k == "Campus" || k == "Test Year" || k == "Year Level"
  {
    SetConstant(SetConstant(SetConstant(t, "Campus", meta.campus), "Test Year", meta.testYear),
                "Year Level", meta.yearLevel)
  }

  /** Lines 21-23: the `Full Name` of every row. */
  function WithFullName(t: Table): (r: Table)
    requires WellFormed(t) && MissingNames(t) == []
    ensures WellFormed(r) && |r.rows| == |t.rows|
    ensures forall k :: k in r.columns <==> k in t.columns || k == "Full Name"
  {
    SetColumn(t, "Full Name", FullNameColumn(t))
  }

  /** The `Full Name` value of every row, in row order. */
  function FullNameColumn(t: Table): (r: seq<Option<string>>)
    requires WellFormed(t) && MissingNames(t) == []
    ensures |r| == |t.rows|
  {
    assert "First Name" in NameColumns && "Second Name" in NameColumns && "Surname" in NameColumns;
    seq(|t.rows|, j requires 0 <= j < |t.rows| =>
      Some(FullName(t.rows[j]["First Name"], t.rows[j]["Second Name"], t.rows[j]["Surname"])))
  }

  /** Lines 26-29: the processing stamp and the source file name. */
  function Stamped(t: Table, fileName: string, now: string): (r: Table)
    requires WellFormed(t)
    ensures WellFormed(r) && |r.rows| == |t.rows|
    ensures forall k :: k in r.columns <==> k in t.columns || k == "Processed On" || k == "Source File"
  {
    SetConstant(SetConstant(t, "Processed On", now), "Source File", fileName)
  }

  /** Lines 32-40: the drop loop, then the identifier rename. */
  function Trimmed(t: Table): (r: Table)
    requires WellFormed(t) && !(OldIdColumn in t.columns && IdColumn in t.columns)
    ensures WellFormed(r) && |r.rows| == |t.rows|
  {
    SeparateNames();
    DropRenameEffect(t, DropColumns, OldIdColumn, IdColumn);
    Rename(DropAll(t, DropColumns), OldIdColumn, IdColumn)
  }

  /** Lines 16-29: the cleaned frame with every derived column assigned. */
  function Derived(t: Table, meta: FileMeta, fileName: string, now: string): (r: Table)
    requires WellFormed(t) && MissingNames(t) == []
    ensures WellFormed(r) && |r.rows| == |t.rows|
  {
    LocatedColumns(t, meta);
    Stamped(WithFullName(Located(t, meta)), fileName, now)
  }

  /** The cleaned frame with all columns added, dropped and renamed: what
      lines 51-56 reorder. */
  function BeforeReorder(t: Table, meta: FileMeta, fileName: string, now: string): (r: Table)
    requires Admissible(t) && MissingNames(CleanHeader(t)) == []
    ensures WellFormed(r) && |r.rows| == |t.rows|
  {
    var cleaned := CleanHeader(t);
    DerivedMembers(cleaned, meta, fileName, now);
    SeparateNames();
    Trimmed(Derived(cleaned, meta, fileName, now))
  }

  /** The chunks `process_chunk` returns a frame for: a file name with at
      least four `_`-separated tokens and all three name columns present. */
  predicate Succeeds(t: Table, fileName: string)
    requires Cleanable(t)
  {
    Count(fileName, '_') >= 3 && MissingNames(CleanHeader(t)) == []
  }

  /** `process_chunk(chunk, file_name)` with `datetime.now()` read as `now`. */
  function Transform(t: Table, fileName: string, now: string): (r: Result<Table, Exception>)
    requires Admissible(t)
    ensures r.Ok? ==> WellFormed(r.value) && |r.value.rows| == |t.rows|
  {
    var cleaned := CleanHeader(t);
    var meta :- ParseFileName(fileName);
    LocatedColumns(cleaned, meta);
    var missing := MissingNames(Located(cleaned, meta));
    if missing != [] then Err(KeyError(missing))
    else
      PreferredOrderDistinct();
      Ok(Reorder(BeforeReorder(t, meta, fileName, now), PreferredOrder))
  }

  // ----- column bookkeeping of the stages -----

  lemma LocatedColumns(t: Table, meta: FileMeta)
    requires WellFormed(t)
    ensures MissingNames(Located(t, meta)) == MissingNames(t)
  {
    var r := Located(t, meta);
    assert forall k :: k in NameColumns ==> (k in r.columns <==> k in t.columns);
    SelectSameMembers(NameColumns, r.columns, t.columns);
  }

  lemma SelectSameMembers(s: seq<string>, a: seq<string>, b: seq<string>)
    requires forall k :: k in s ==> (k in a <==> k in b)
    ensures Select(s, a, false) == Select(s, b, false)
  {
    if s != [] {
      SelectSameMembers(s[1..], a, b);
    }
  }

  // ----- what the stages do to cells -----

  lemma DerivedMembers(t: Table, meta: FileMeta, fileName: string, now: string)
    requires WellFormed(t) && MissingNames(t) == []
    ensures forall k :: k in Derived(t, meta, fileName, now).columns <==> k in t.columns || k in DerivedColumns
  {
  }

  /** The row a chunk row becomes in lines 16-29. */
  function DerivedRow(row: Row, meta: FileMeta, fileName: string, now: string): Row
    requires "First Name" in row && "Second Name" in row && "Surname" in row
  {
    var located := row["Campus" := Some(meta.campus)]["Test Year" := Some(meta.testYear)]["Year Level" := Some(meta.yearLevel)];
    var named := located["Full Name" := Some(FullName(located["First Name"], located["Second Name"], located["Surname"]))];
    named["Processed On" := Some(now)]["Source File" := Some(fileName)]
  }

  lemma LocatedRow(t: Table, meta: FileMeta, j: nat)
    requires WellFormed(t) && j < |t.rows|
    ensures Located(t, meta).rows[j] ==
      t.rows[j]["Campus" := Some(meta.campus)]["Test Year" := Some(meta.testYear)]["Year Level" := Some(meta.yearLevel)]
  {
  }

  lemma NamedRow(t: Table, j: nat)
    requires WellFormed(t) && MissingNames(t) == [] && j < |t.rows|
    ensures "First Name" in t.rows[j] && "Second Name" in t.rows[j] && "Surname" in t.rows[j]
    ensures WithFullName(t).rows[j] ==
      t.rows[j]["Full Name" := Some(FullName(t.rows[j]["First Name"], t.rows[j]["Second Name"], t.rows[j]["Surname"]))]
  {
    assert "First Name" in NameColumns && "Second Name" in NameColumns && "Surname" in NameColumns;
  }

  lemma StampedRow(t: Table, fileName: string, now: string, j: nat)
    requires WellFormed(t) && j < |t.rows|
    ensures Stamped(t, fileName, now).rows[j] == t.rows[j]["Processed On" := Some(now)]["Source File" := Some(fileName)]
  {
  }

  /** Row `j` after lines 16-29: the input row with the six derived cells set. */
  lemma DerivedRowOf(t: Table, meta: FileMeta, fileName: string, now: string, j: nat)
    requires WellFormed(t) && MissingNames(t) == [] && j < |t.rows|
    ensures "First Name" in t.rows[j] && "Second Name" in t.rows[j] && "Surname" in t.rows[j]
    ensures Derived(t, meta, fileName, now).rows[j] == DerivedRow(t.rows[j], meta, fileName, now)
  {
    LocatedColumns(t, meta);
    var located := Located(t, meta);
    LocatedRow(t, meta, j);
    NamedRow(located, j);
    NamedRow(t, j);
    StampedRow(WithFullName(located), fileName, now, j);
  }

  /** The six derived cells, and every other cell unchanged. */
  lemma DerivedRowCells(row: Row, meta: FileMeta, fileName: string, now: string)
    requires "First Name" in row && "Second Name" in row && "Surname" in row
    ensures var d := DerivedRow(row, meta, fileName, now);
      && d.Keys == row.Keys + Elems(DerivedColumns)
      && d["Campus"] == Some(meta.campus)
      && d["Test Year"] == Some(meta.testYear)
      && d["Year Level"] == Some(meta.yearLevel)
      && d["Full Name"] == Some(FullName(row["First Name"], row["Second Name"], row["Surname"]))
      && d["Processed On"] == Some(now)
      && d["Source File"] == Some(fileName)
      && forall k :: k in row && k !in DerivedColumns ==> d[k] == row[k]
  {
  }

  /** The column names of the frame before reordering. */
  lemma BeforeReorderMembers(t: Table, meta: FileMeta, fileName: string, now: string)
    requires Admissible(t) && MissingNames(CleanHeader(t)) == []
    ensures var b, c := BeforeReorder(t, meta, fileName, now), CleanHeader(t);
      forall k :: k in b.columns <==>
        || k in DerivedColumns
        || (k == IdColumn && (OldIdColumn in c.columns || IdColumn in c.columns))
        || (k in c.columns && k !in DropColumns && k != OldIdColumn)
  {
    var c := CleanHeader(t);
    var d := Derived(c, meta, fileName, now);
    DerivedMembers(c, meta, fileName, now);
    SeparateNames();
    DropRenameEffect(d, DropColumns, OldIdColumn, IdColumn);
    TrimmedMembers(c.columns, d.columns, BeforeReorder(t, meta, fileName, now).columns, DerivedColumns,
                   DropColumns, OldIdColumn, IdColumn);
  }

  /** Column bookkeeping of lines 16-40 on names alone. */
  lemma TrimmedMembers(c: seq<string>, d: seq<string>, b: seq<string>, derived: seq<string>,
                       drops: seq<string>, oldId: string, newId: string)
    requires Separate(derived, drops, oldId, newId)
    requires forall k :: k in d <==> k in c || k in derived
    requires forall k :: k in b <==> (k in d && k !in drops && k != oldId) || (k == newId && oldId in d)
    ensures forall k :: k in b <==>
      || k in derived
      || (k == newId && (oldId in c || newId in c))
      || (k in c && k !in drops && k != oldId)
  {
  }

  /** Every derived column is present before reordering. */
  lemma DerivedPresent(t: Table, meta: FileMeta, fileName: string, now: string)
    requires Admissible(t) && MissingNames(CleanHeader(t)) == []
    ensures forall k :: k in DerivedColumns ==> k in BeforeReorder(t, meta, fileName, now).columns
  {
    BeforeReorderMembers(t, meta, fileName, now);
  }

  /** The row a derived row becomes in lines 32-40. */
  function TrimmedRow(row: Row): Row {
    RenameKey(row - Elems(DropColumns), OldIdColumn, IdColumn)
  }

  /** Every row of the frame before reordering is the input row, derived,
      then trimmed. */
  lemma BeforeReorderRowOf(t: Table, meta: FileMeta, fileName: string, now: string, j: nat)
    requires Admissible(t) && MissingNames(CleanHeader(t)) == [] && j < |t.rows|
    ensures var c := CleanHeader(t);
      "First Name" in c.rows[j] && "Second Name" in c.rows[j] && "Surname" in c.rows[j]
    ensures var c := CleanHeader(t);
      BeforeReorder(t, meta, fileName, now).rows[j] == TrimmedRow(DerivedRow(c.rows[j], meta, fileName, now))
  {
    var c := CleanHeader(t);
    DerivedMembers(c, meta, fileName, now);
    SeparateNames();
    DerivedRowOf(c, meta, fileName, now, j);
    DropRenameRow(Derived(c, meta, fileName, now), DropColumns, OldIdColumn, IdColumn, j);
  }

  /** The name facts the trimming proofs rely on, for any derived names,
      drop list and identifier names. */
  predicate Separate<T(==)>(derived: seq<T>, drops: seq<T>, oldId: T, newId: T) {
    && oldId != newId && oldId !in drops && newId !in drops
    && forall k :: k in derived ==> k !in drops && k != oldId && k != newId
  }

  /** The fingerprints of `DerivedColumns` and of `DropColumns`. These
      numbers, like `PreferredKeys`, exist only to keep the proofs that the
      fixed names differ cheap: comparing numbers costs the verifier far less
      than comparing strings character by character. */
  const DerivedKeys: seq<int> := [25774194785, 38660210789, 42955505765, 38659293301, 51544850546, 47250079855]
  const DropKeys: seq<int> := [34363998288, 60134916197, 42954260585, 47250079845, 30070210677, 42954391663, 55839031393, 68724195439, 90199687269]

  lemma NameKeysMatch()
    ensures |DerivedKeys| == |DerivedColumns| && |DropKeys| == |DropColumns|
    ensures forall i :: 0 <= i < |DerivedColumns| ==> DerivedKeys[i] == Fingerprint(DerivedColumns[i])
    ensures forall i :: 0 <= i < |DropColumns| ==> DropKeys[i] == Fingerprint(DropColumns[i])
    ensures Fingerprint(OldIdColumn) == 34364129377 && Fingerprint(IdColumn) == 42955112564
  {
  }

  lemma NameKeysSeparate()
    ensures Separate(DerivedKeys, DropKeys, 34364129377, 42955112564)
  {
  }

  /** The derived columns, the dropped columns and the two identifier names
      do not overlap. */
  lemma SeparateNames()
    ensures Separate(DerivedColumns, DropColumns, OldIdColumn, IdColumn)
  {
    NameKeysMatch();
    NameKeysSeparate();
    SeparateByFingerprint(DerivedColumns, DropColumns, OldIdColumn, IdColumn,
      DerivedKeys, DropKeys, 34364129377, 42955112564);
  }

  /** Names whose fingerprints are separate are separate. */
  lemma SeparateByFingerprint(derived: seq<string>, drops: seq<string>, oldId: string, newId: string,
                              dk: seq<int>, xk: seq<int>, ok: int, nk: int)
    requires |dk| == |derived| && forall i :: 0 <= i < |derived| ==> dk[i] == Fingerprint(derived[i])
    requires |xk| == |drops| && forall i :: 0 <= i < |drops| ==> xk[i] == Fingerprint(drops[i])
    requires ok == Fingerprint(oldId) && nk == Fingerprint(newId)
    requires Separate(dk, xk, ok, nk)
    ensures Separate(derived, drops, oldId, newId)
  {
    forall k | k in drops ensures k != oldId && k != newId {
      var i :| 0 <= i < |drops| && drops[i] == k;
      assert xk[i] in xk;
    }
    forall k | k in derived ensures k !in drops && k != oldId && k != newId {
      var i :| 0 <= i < |derived| && derived[i] == k;
      assert dk[i] in dk;
      forall q | 0 <= q < |drops| ensures drops[q] != k {
        assert xk[q] in xk;
      }
    }
  }

  /** Dropping and renaming a row that had `derived` set on top of `row`. */
  lemma TrimmedCells(row: Row, d: Row, derived: seq<string>, drops: seq<string>, oldId: string, newId: string)
    requires d.Keys == row.Keys + Elems(derived)
    requires forall k :: k in row && k !in derived ==> d[k] == row[k]
    requires !(oldId in row && newId in row) && Separate(derived, drops, oldId, newId)
    ensures var b := RenameKey(d - Elems(drops), oldId, newId);
      && (forall k :: k in derived ==> k in b && b[k] == d[k])
      && (oldId in row ==> newId in b && b[newId] == row[oldId])
      && (forall k :: k in row && k !in drops && k != oldId ==> k in b)
      && (forall k :: k in row && k !in drops && k != oldId && k !in derived ==> b[k] == row[k])
  {
  }

  lemma DerivedListed()
    ensures "Campus" in DerivedColumns && "Test Year" in DerivedColumns && "Year Level" in DerivedColumns
    ensures "Full Name" in DerivedColumns && "Processed On" in DerivedColumns && "Source File" in DerivedColumns
  {
  }

  /** An output row, cell by cell, in terms of the cleaned input row. */
  lemma OutputRowCells(row: Row, meta: FileMeta, fileName: string, now: string)
    requires "First Name" in row && "Second Name" in row && "Surname" in row
    requires !(OldIdColumn in row && IdColumn in row)
    ensures var b := TrimmedRow(DerivedRow(row, meta, fileName, now));
      && (forall k :: k in DerivedColumns ==> k in b)
      && (forall k :: k in row && k !in DropColumns && k != OldIdColumn ==> k in b)
      && (OldIdColumn in row ==> IdColumn in b)
    ensures var b := TrimmedRow(DerivedRow(row, meta, fileName, now));
      && "Campus" in b && b["Campus"] == Some(meta.campus)
      && "Test Year" in b && b["Test Year"] == Some(meta.testYear)
      && "Year Level" in b && b["Year Level"] == Some(meta.yearLevel)
      && "Processed On" in b && b["Processed On"] == Some(now)
      && "Source File" in b && b["Source File"] == Some(fileName)
      && "Full Name" in b && b["Full Name"] == Some(FullName(row["First Name"], row["Second Name"], row["Surname"]))
      && (OldIdColumn in row ==> b[IdColumn] == row[OldIdColumn])
      && (forall k :: k in row && k !in DropColumns && k != OldIdColumn && k !in DerivedColumns ==> b[k] == row[k])
  {
    var d := DerivedRow(row, meta, fileName, now);
    DerivedRowCells(row, meta, fileName, now);
    SeparateNames();
    DerivedListed();
    TrimmedCells(row, d, DerivedColumns, DropColumns, OldIdColumn, IdColumn);
  }

  // ----- properties of process_chunk -----

  /** The source raises exactly in two cases: IndexError for a file name with
      fewer than four `_`-separated pieces, otherwise KeyError naming the
      name columns the cleaned header lacks. */
  lemma TransformErrors(t: Table, fileName: string, now: string)
    requires Admissible(t)
    ensures Transform(t, fileName, now).Err? <==>
      Count(fileName, '_') < 3 || MissingNames(CleanHeader(t)) != []
    ensures Count(fileName, '_') < 3 ==> Transform(t, fileName, now) == Err(IndexError)
    ensures Count(fileName, '_') >= 3 && MissingNames(CleanHeader(t)) != [] ==>
      Transform(t, fileName, now) == Err(KeyError(MissingNames(CleanHeader(t))))
  {
    var m := ParseFileName(fileName);
    if m.Ok? {
      LocatedColumns(CleanHeader(t), m.value);
    }
  }

  /** On success the result is the reordered frame built from the file-name metadata. */
  lemma TransformValue(t: Table, fileName: string, now: string)
    requires Admissible(t) && Transform(t, fileName, now).Ok?
    ensures ParseFileName(fileName).Ok? && MissingNames(CleanHeader(t)) == []
    ensures Distinct(PreferredOrder)
    ensures Transform(t, fileName, now).value ==
      Reorder(BeforeReorder(t, ParseFileName(fileName).value, fileName, now), PreferredOrder)
  {
    TransformErrors(t, fileName, now);
    PreferredOrderDistinct();
  }

  /** Row count and row order are kept: output row `j` is cleaned input
      row `j` with the derived cells set (the file-name metadata, the stamp and
      the source file, one value across the chunk, and the Full Name built
      from its own name cells), then dropped and renamed. */
  lemma TransformRows(t: Table, fileName: string, now: string)
    requires Admissible(t) && Succeeds(t, fileName)
    ensures Transform(t, fileName, now).Ok?
    ensures ParseFileName(fileName).Ok?
    ensures var r, c, meta := Transform(t, fileName, now).value, CleanHeader(t), ParseFileName(fileName).value;
      && WellFormed(r) && |r.rows| == |t.rows| == |c.rows|
      && forall j :: 0 <= j < |r.rows| ==>
        && "First Name" in c.rows[j] && "Second Name" in c.rows[j] && "Surname" in c.rows[j]
        && !(OldIdColumn in c.rows[j] && IdColumn in c.rows[j])
        && r.rows[j] == TrimmedRow(DerivedRow(c.rows[j], meta, fileName, now))
  {
    TransformErrors(t, fileName, now);
    TransformValue(t, fileName, now);
    var meta := ParseFileName(fileName).value;
    var c := CleanHeader(t);
    forall j | 0 <= j < |t.rows|
      ensures "First Name" in c.rows[j] && "Second Name" in c.rows[j] && "Surname" in c.rows[j]
      ensures !(OldIdColumn in c.rows[j] && IdColumn in c.rows[j])
      ensures BeforeReorder(t, meta, fileName, now).rows[j] == TrimmedRow(DerivedRow(c.rows[j], meta, fileName, now))
    {
      BeforeReorderRowOf(t, meta, fileName, now, j);
      assert c.rows[j].Keys == Elems(c.columns);
    }
  }

  /** The columns after the transform: the derived ones, `Student ID` when it
      or `Cases ID` was there, and every other cleaned input column that is
      not in the drop list. Matching is exact, so `Date of birth` survives
      while `Date of Birth` is dropped. */
  lemma TransformColumns(t: Table, fileName: string, now: string)
    requires Admissible(t) && Succeeds(t, fileName)
    ensures Transform(t, fileName, now).Ok?
    ensures var r, c := Transform(t, fileName, now).value, CleanHeader(t);
      && (forall k :: k in DropColumns ==> k !in r.columns)
      && OldIdColumn !in r.columns
      && (forall k :: k in r.columns <==>
            || k in DerivedColumns
            || (k == IdColumn && (OldIdColumn in c.columns || IdColumn in c.columns))
            || (k in c.columns && k !in DropColumns && k != OldIdColumn))
  {
    TransformErrors(t, fileName, now);
    TransformValue(t, fileName, now);
    var meta := ParseFileName(fileName).value;
    var b := BeforeReorder(t, meta, fileName, now);
    var r := Transform(t, fileName, now).value;
    BeforeReorderMembers(t, meta, fileName, now);
    SeparateNames();
    forall k ensures k in r.columns <==> k in b.columns {
      assert k in r.columns <==> k in multiset(b.columns);
    }
  }

  /** The output columns are a permutation of the dropped-and-renamed columns,
      sorted by rank: the preferred names present come first in preferred
      order, then the others in their original order. */
  lemma TransformOrder(t: Table, fileName: string, now: string)
    requires Admissible(t) && Succeeds(t, fileName)
    ensures Transform(t, fileName, now).Ok?
    ensures ParseFileName(fileName).Ok? && MissingNames(CleanHeader(t)) == []
    ensures var r, b := Transform(t, fileName, now).value, BeforeReorder(t, ParseFileName(fileName).value, fileName, now);
      && multiset(r.columns) == multiset(b.columns)
      && (forall c :: c in r.columns ==> c in b.columns)
      && (forall i, j :: 0 <= i < j < |r.columns| ==>
            Rank(PreferredOrder, b.columns, r.columns[i]) < Rank(PreferredOrder, b.columns, r.columns[j]))
  {
    TransformErrors(t, fileName, now);
    TransformValue(t, fileName, now);
    ReorderRanks(BeforeReorder(t, ParseFileName(fileName).value, fileName, now), PreferredOrder);
  }

  /** The first four output columns are always Full Name, Campus, Test Year
      and Year Level. */
  lemma TransformLeads(t: Table, fileName: string, now: string)
    requires Admissible(t) && Succeeds(t, fileName)
    ensures Transform(t, fileName, now).Ok?
    ensures var r := Transform(t, fileName, now).value;
      |r.columns| >= 4 && r.columns[..4] == PreferredOrder[..4]
  {
    TransformErrors(t, fileName, now);
    TransformValue(t, fileName, now);
    var b := BeforeReorder(t, ParseFileName(fileName).value, fileName, now);
    DerivedPresent(t, ParseFileName(fileName).value, fileName, now);
    LeadingPreferred();
    ReorderLeads(b, PreferredOrder);
  }

  /** The first four preferred names are derived ones. */
  lemma LeadingPreferred()
    ensures PreferredOrder[..4] == ["Full Name", "Campus", "Test Year", "Year Level"]
    ensures forall i :: 0 <= i < 4 ==> PreferredOrder[i] in DerivedColumns
  {
  }

  /** Cell by cell: every output row holds the chunk-wide Campus, Test Year,
      Year Level, Processed On and Source File values, the Full Name built
      from its own name cells, under `Student ID` the value `Cases ID` had,
      and every other kept cell as it was. */
  lemma TransformCells(t: Table, fileName: string, now: string)
    requires Admissible(t) && Succeeds(t, fileName)
    ensures Transform(t, fileName, now).Ok?
    ensures ParseFileName(fileName).Ok?
    ensures var r, c, meta := Transform(t, fileName, now).value, CleanHeader(t), ParseFileName(fileName).value;
      && |r.rows| == |c.rows| == |t.rows|
      && forall j :: 0 <= j < |r.rows| ==>
        && "First Name" in c.rows[j] && "Second Name" in c.rows[j] && "Surname" in c.rows[j]
        && "Campus" in r.rows[j] && r.rows[j]["Campus"] == Some(meta.campus)
        && "Test Year" in r.rows[j] && r.rows[j]["Test Year"] == Some(meta.testYear)
        && "Year Level" in r.rows[j] && r.rows[j]["Year Level"] == Some(meta.yearLevel)
        && "Processed On" in r.rows[j] && r.rows[j]["Processed On"] == Some(now)
        && "Source File" in r.rows[j] && r.rows[j]["Source File"] == Some(fileName)
        && "Full Name" in r.rows[j]
        && r.rows[j]["Full Name"] == Some(FullName(c.rows[j]["First Name"], c.rows[j]["Second Name"], c.rows[j]["Surname"]))
        && (OldIdColumn in c.columns ==> IdColumn in r.rows[j] && r.rows[j][IdColumn] == c.rows[j][OldIdColumn])
        && (forall k :: k in c.columns && k !in DropColumns && k != OldIdColumn && k !in DerivedColumns ==>
              k in r.rows[j] && r.rows[j][k] == c.rows[j][k])
  {
    TransformErrors(t, fileName, now);
    TransformRows(t, fileName, now);
    var r, c, meta := Transform(t, fileName, now).value, CleanHeader(t), ParseFileName(fileName).value;
    forall j | 0 <= j < |r.rows|
      ensures OldIdColumn in c.columns ==> OldIdColumn in c.rows[j]
      ensures forall k :: k in c.columns ==> k in c.rows[j]
    {
      assert c.rows[j].Keys == Elems(c.columns);
    }
    forall j | 0 <= j < |r.rows| {
      OutputRowCells(c.rows[j], meta, fileName, now);
    }
  }

  /** Column matching is exact: a cleaned `Date of birth` column is kept (it
      is in the preferred order) while `Date of Birth` is always dropped. */
  lemma DropIsCaseSensitive(t: Table, fileName: string, now: string)
    requires Admissible(t) && Succeeds(t, fileName)
    requires "Date of birth" in CleanHeader(t).columns
    ensures Transform(t, fileName, now).Ok?
    ensures "Date of birth" in Transform(t, fileName, now).value.columns
    ensures "Date of Birth" !in Transform(t, fileName, now).value.columns
  {
    TransformErrors(t, fileName, now);
    TransformColumns(t, fileName, now);
    DateOfBirthNames();
    var r, c := Transform(t, fileName, now).value, CleanHeader(t);
    assert "Date of birth" in c.columns && "Date of birth" !in DropColumns && "Date of birth" != OldIdColumn;
  }

  lemma DateOfBirthNames()
    ensures "Date of Birth" in DropColumns && "Date of birth" !in DropColumns
    ensures "Date of birth" != OldIdColumn && "Date of birth" in PreferredOrder
  {
  }
}
