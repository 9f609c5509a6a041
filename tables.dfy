/**
 * A pandas frame as column names plus rows keyed by column name, and the
 * column operations the chunk transformer applies to it.
 */
module Tables {
  import opened Wrappers
  import opened Text

  /** One row: a cell per column; `None` is a missing (NaN) cell. */
  type Row = map<string, Option<string>>

  datatype Table = Table(columns: seq<string>, rows: seq<Row>)

  predicate Distinct<T(==)>(s: seq<T>) {
    forall i, j :: 0 <= i < j < |s| ==> s[i] != s[j]
  }

  function Elems<T>(s: seq<T>): set<T> {
    set x | x in s
  }

  /** Column names are distinct and every row has exactly the frame's columns. */
  predicate WellFormed(t: Table) {
    && Distinct(t.columns)
    && forall j :: 0 <= j < |t.rows| ==> t.rows[j].Keys == Elems(t.columns)
  }

  /** A name's length and first two characters as one number: enough to
      tell apart the fixed column names of the source, and cheap to compare.
      A proof aid only: it lets the distinctness of the fixed name lists be
      proved by comparing numbers instead of strings. */
  function Fingerprint(s: string): int {
    |s| * 0x1_0000_0000
      + (if |s| > 0 then s[0] as int else 0) * 0x1_0000
      + (if |s| > 1 then s[1] as int else 0)
  }

  /** Names whose fingerprints `keys` are distinct are distinct. */
  lemma DistinctByFingerprint(s: seq<string>, keys: seq<int>)
    requires |keys| == |s| && forall i :: 0 <= i < |s| ==> keys[i] == Fingerprint(s[i])
    requires Distinct(keys)
    ensures Distinct(s)
  {
    forall i, j | 0 <= i < j < |s| ensures s[i] != s[j] {
      assert keys[i] != keys[j];
    }
  }

  /** The position of `x` in `s`. */
  function IndexOf<T(==)>(s: seq<T>, x: T): (r: nat)
    requires x in s
    ensures r < |s| && s[r] == x
    ensures forall k :: 0 <= k < r ==> s[k] != x
  {
    if s[0] == x then 0 else 1 + IndexOf(s[1..], x)
  }

  /** The elements of `s` that are (`keep`) or are not (`!keep`) in `ref`,
      in their order in `s`: the comprehension `[x for x in s if x in ref]`. */
  function Select(s: seq<string>, ref: seq<string>, keep: bool): (r: seq<string>)
    ensures forall x :: x in r <==> x in s && ((x in ref) == keep)
    ensures |r| <= |s|
  {
    if s == [] then []
    else (if (s[0] in ref) == keep then [s[0]] else []) + Select(s[1..], ref, keep)
  }

  lemma {:induction false} SelectDistinct(s: seq<string>, ref: seq<string>, keep: bool)
    requires Distinct(s)
    ensures Distinct(Select(s, ref, keep))
  {
    if s != [] {
      assert Distinct(s[1..]);
      SelectDistinct(s[1..], ref, keep);
    }
  }

  /** A prefix made only of members of `ref` survives selection intact. */
  lemma {:induction false} SelectPrefix(s: seq<string>, ref: seq<string>, n: nat)
    requires n <= |s| && forall i :: 0 <= i < n ==> s[i] in ref
    ensures |Select(s, ref, true)| >= n && Select(s, ref, true)[..n] == s[..n]
  {
    if n > 0 {
      SelectPrefix(s[1..], ref, n - 1);
      var rest := Select(s[1..], ref, true);
      assert Select(s, ref, true) == [s[0]] + rest;
      assert s[..n] == [s[0]] + s[1..][..n - 1];
    }
  }

  /** Selection keeps the relative order of the elements it keeps. */
  lemma {:induction false} SelectOrdered(s: seq<string>, ref: seq<string>, keep: bool)
    requires Distinct(s)
    ensures forall i, j :: 0 <= i < j < |Select(s, ref, keep)| ==>
      IndexOf(s, Select(s, ref, keep)[i]) < IndexOf(s, Select(s, ref, keep)[j])
  {
    if s != [] {
      var rest := Select(s[1..], ref, keep);
      assert Distinct(s[1..]);
      SelectOrdered(s[1..], ref, keep);
      forall x | x in rest ensures IndexOf(s, x) == 1 + IndexOf(s[1..], x) {
        assert s[0] != x;
      }
    }
  }

  /** Selecting the elements outside `ref` keeps all of `s` when none is in `ref`. */
  lemma {:induction false} SelectAllPresent(s: seq<string>, ref: seq<string>)
    requires forall x :: x in s ==> x in ref
    ensures Select(s, ref, false) == []
  {
    if s != [] {
      SelectAllPresent(s[1..], ref);
    }
  }

  lemma {:induction false} SelectNone(s: seq<string>, ref: seq<string>)
    requires forall x :: x in s ==> x !in ref
    ensures Select(s, ref, false) == s
  {
    if s != [] {
      SelectNone(s[1..], ref);
      assert [s[0]] + s[1..] == s;
    }
  }

  /** Removing the elements of `ref` one after another is removing them all at once. */
  lemma {:induction false} SelectOutTwice(s: seq<string>, ref: seq<string>, c: string)
    ensures Select(Select(s, ref, false), [c], false) == Select(s, ref + [c], false)
  {
    if s != [] {
      SelectOutTwice(s[1..], ref, c);
      var first := Select(s, ref, false);
      if s[0] in ref {
        assert first == Select(s[1..], ref, false);
      } else {
        assert first == [s[0]] + Select(s[1..], ref, false);
        assert first[1..] == Select(s[1..], ref, false);
      }
    }
  }

  /** Distinct sequences: each element occurs once. */
  lemma {:induction false} DistinctMultiset<T>(s: seq<T>)
    requires Distinct(s)
    ensures forall x :: multiset(s)[x] == if x in s then 1 else 0
  {
    if s != [] {
      assert Distinct(s[1..]);
      DistinctMultiset(s[1..]);
      assert s == [s[0]] + s[1..];
      assert multiset(s) == multiset([s[0]]) + multiset(s[1..]);
    }
  }

  /** Two distinct sequences with the same elements are permutations of each other. */
  lemma SameElemsPermutation<T>(a: seq<T>, b: seq<T>)
    requires Distinct(a) && Distinct(b)
    requires forall x :: x in a <==> x in b
    ensures multiset(a) == multiset(b)
  {
    DistinctMultiset(a);
    DistinctMultiset(b);
    assert forall x :: multiset(a)[x] == multiset(b)[x];
  }

  // ----- header cleaning (line 13) -----

  function CleanColumns(cols: seq<string>): (r: seq<string>)
    ensures |r| == |cols| && forall i :: 0 <= i < |cols| ==> r[i] == CleanName(cols[i])
  {
    seq(|cols|, i requires 0 <= i < |cols| => CleanName(cols[i]))
  }

  /** The row re-keyed from the names `from` to the names `to`, position by position. */
  function Relabel(row: Row, from: seq<string>, to: seq<string>): (r: Row)
    requires |from| == |to| && Distinct(to)
    requires forall i :: 0 <= i < |from| ==> from[i] in row
    ensures r.Keys == Elems(to)
    ensures forall i :: 0 <= i < |from| ==> r[to[i]] == row[from[i]]
  {
    var r := map i | 0 <= i < |from| :: to[i] := row[from[i]];
    assert forall k :: k in r.Keys <==> k in Elems(to) by {
      forall k | k in Elems(to) ensures k in r.Keys {
        var i :| 0 <= i < |to| && to[i] == k;
        assert to[i] in r.Keys;
      }
    }
    r
  }

  /** The cleaned names must not collide: pandas would then hold duplicate columns. */
  predicate Cleanable(t: Table) {
    WellFormed(t) && Distinct(CleanColumns(t.columns))
  }

  /** `chunk.columns = chunk.columns.str.strip().str.replace(r'\s+', ' ')`:
      every name cleaned in place, each cell staying under its (renamed) column. */
  function CleanHeader(t: Table): (r: Table)
    requires Cleanable(t)
    ensures WellFormed(r) && |r.rows| == |t.rows| && |r.columns| == |t.columns|
    ensures forall i :: 0 <= i < |t.columns| ==> r.columns[i] == CleanName(t.columns[i])
    ensures forall j, i :: 0 <= j < |t.rows| && 0 <= i < |t.columns| ==>
      r.rows[j][r.columns[i]] == t.rows[j][t.columns[i]]
  {
    var cols := CleanColumns(t.columns);
    Table(cols, seq(|t.rows|, j requires 0 <= j < |t.rows| => Relabel(t.rows[j], t.columns, cols)))
  }

  // ----- column assignment (lines 16-29) -----

  /** `t[name] = vals`: an existing column is overwritten where it stands,
      a new one is appended at the end. */
  function SetColumn(t: Table, name: string, vals: seq<Option<string>>): (r: Table)
    requires WellFormed(t) && |vals| == |t.rows|
    ensures WellFormed(r) && |r.rows| == |t.rows|
    ensures r.columns == if name in t.columns then t.columns else t.columns + [name]
    ensures forall k :: k in r.columns <==> k in t.columns || k == name
    ensures forall j :: 0 <= j < |t.rows| ==> r.rows[j] == t.rows[j][name := vals[j]]
  {
    var cols := if name in t.columns then t.columns else t.columns + [name];
    Table(cols, seq(|t.rows|, j requires 0 <= j < |t.rows| => t.rows[j][name := vals[j]]))
  }

  /** `t[name] = v` for a scalar `v`: the same value on every row. */
  function SetConstant(t: Table, name: string, v: string): (r: Table)
    requires WellFormed(t)
    ensures WellFormed(r) && |r.rows| == |t.rows|
    ensures forall k :: k in r.columns <==> k in t.columns || k == name
    ensures forall j :: 0 <= j < |t.rows| ==> r.rows[j] == t.rows[j][name := Some(v)]
  {
    SetColumn(t, name, seq(|t.rows|, j => Some(v)))
  }

  // ----- dropping columns (lines 32-36) -----

  /** `if col in t.columns: t.drop(columns=[col])`. */
  function Drop(t: Table, col: string): (r: Table)
    requires WellFormed(t)
    ensures WellFormed(r) && |r.rows| == |t.rows|
    ensures r.columns == Select(t.columns, [col], false)
    ensures forall j :: 0 <= j < |t.rows| ==> r.rows[j] == t.rows[j] - {col}
  {
    if col in t.columns then
      SelectDistinct(t.columns, [col], false);
      Table(Select(t.columns, [col], false), seq(|t.rows|, j requires 0 <= j < |t.rows| => t.rows[j] - {col}))
    else
      SelectNone(t.columns, [col]);
      assert forall j :: 0 <= j < |t.rows| ==> t.rows[j] - {col} == t.rows[j];
      t
  }

  /** The drop loop over `cols`, in list order. */
  function DropAll(t: Table, cols: seq<string>): (r: Table)
    requires WellFormed(t)
    ensures WellFormed(r) && |r.rows| == |t.rows|
    decreases |cols|
  {
    if cols == [] then t
    else Drop(DropAll(t, cols[..|cols| - 1]), cols[|cols| - 1])
  }

  /** After the loop none of `cols` is a column; the other columns keep their
      order and every cell outside `cols` is untouched. */
  lemma {:induction false} DropAllColumns(t: Table, cols: seq<string>)
    requires WellFormed(t)
    ensures DropAll(t, cols).columns == Select(t.columns, cols, false)
    decreases |cols|
  {
    if cols == [] {
      SelectNone(t.columns, cols);
    } else {
      var init, c := cols[..|cols| - 1], cols[|cols| - 1];
      assert cols == init + [c];
      DropAllColumns(t, init);
      SelectOutTwice(t.columns, init, c);
    }
  }

  lemma {:induction false} DropAllRow(t: Table, cols: seq<string>, j: nat)
    requires WellFormed(t) && j < |t.rows|
    ensures DropAll(t, cols).rows[j] == t.rows[j] - Elems(cols)
    decreases |cols|
  {
    if cols == [] {
      assert t.rows[j] - Elems(cols) == t.rows[j];
    } else {
      var init, c := cols[..|cols| - 1], cols[|cols| - 1];
      assert Elems(cols) == Elems(init) + {c} by {
        assert cols == init + [c];
      }
      DropAllRow(t, init, j);
      assert DropAll(t, cols).rows[j] == DropAll(t, init).rows[j] - {c};
      MinusMinus(t.rows[j], Elems(init), c);
    }
  }

  lemma MinusMinus(m: Row, a: set<string>, c: string)
    ensures (m - a) - {c} == m - (a + {c})
  {
  }

  /** After the loop none of `cols` is a column; the other columns keep their
      order and every cell outside `cols` is untouched. */
  lemma DropAllEffect(t: Table, cols: seq<string>)
    requires WellFormed(t)
    ensures DropAll(t, cols).columns == Select(t.columns, cols, false)
    ensures forall j :: 0 <= j < |t.rows| ==> DropAll(t, cols).rows[j] == t.rows[j] - Elems(cols)
  {
    DropAllColumns(t, cols);
    forall j | 0 <= j < |t.rows| ensures DropAll(t, cols).rows[j] == t.rows[j] - Elems(cols) {
      DropAllRow(t, cols, j);
    }
  }

  // ----- renaming a column (lines 39-40) -----

  /** The source's names are distinct: renaming never creates a duplicate. */
  predicate Renamable(t: Table, from: string, to: string) {
    WellFormed(t) && from != to && !(from in t.columns && to in t.columns)
  }

  /** One row with the key `from`, if present, renamed to `to`. */
  function RenameKey(row: Row, from: string, to: string): Row {
    if from in row then (row - {from})[to := row[from]] else row
  }

  /** The column list with `from` replaced by `to`. */
  function RenameColumns(cols: seq<string>, from: string, to: string): (r: seq<string>)
    ensures |r| == |cols| && forall i :: 0 <= i < |cols| ==> r[i] == if cols[i] == from then to else cols[i]
  {
    seq(|cols|, i requires 0 <= i < |cols| => if cols[i] == from then to else cols[i])
  }

  lemma RenameColumnsElems(cols: seq<string>, from: string, to: string)
    requires Distinct(cols) && from in cols && to !in cols
    ensures Distinct(RenameColumns(cols, from, to))
    ensures Elems(RenameColumns(cols, from, to)) == Elems(cols) - {from} + {to}
  {
    var r := RenameColumns(cols, from, to);
    forall i, j | 0 <= i < j < |r| ensures r[i] != r[j] {
      assert cols[i] != cols[j];
    }
    var p := IndexOf(cols, from);
    assert r[p] == to;
    forall k | k in Elems(cols) - {from} ensures k in Elems(r) {
      var q := IndexOf(cols, k);
      assert r[q] == k;
    }
  }

  lemma RenameKeyKeys(row: Row, from: string, to: string)
    requires from in row
    ensures RenameKey(row, from, to).Keys == row.Keys - {from} + {to}
  {
  }

  /** `if from in t.columns: t.rename(columns={from: to})`: same position, same cells. */
  function Rename(t: Table, from: string, to: string): (r: Table)
    requires Renamable(t, from, to)
    ensures WellFormed(r) && |r.rows| == |t.rows| && |r.columns| == |t.columns|
    ensures from !in t.columns ==> r == t
    ensures from in t.columns ==> from !in r.columns && to in r.columns
    ensures forall i :: 0 <= i < |t.columns| ==> r.columns[i] == if t.columns[i] == from then to else t.columns[i]
    ensures from in t.columns ==> forall j :: 0 <= j < |t.rows| ==> r.rows[j][to] == t.rows[j][from]
    ensures forall j, k :: 0 <= j < |t.rows| && k in t.columns && k != from ==> r.rows[j][k] == t.rows[j][k]
    ensures forall j :: 0 <= j < |t.rows| ==> r.rows[j] == RenameKey(t.rows[j], from, to)
  {
    if from in t.columns then
      RenameColumnsElems(t.columns, from, to);
      assert from in Elems(t.columns);
      var rows := seq(|t.rows|, j requires 0 <= j < |t.rows| => RenameKey(t.rows[j], from, to));
      assert forall j :: 0 <= j < |t.rows| ==> rows[j].Keys == Elems(t.columns) - {from} + {to} by {
        forall j | 0 <= j < |t.rows| ensures rows[j].Keys == Elems(t.columns) - {from} + {to} {
          RenameKeyKeys(t.rows[j], from, to);
        }
      }
      Table(RenameColumns(t.columns, from, to), rows)
    else
      t
  }

  // ----- reordering columns (lines 43-56) -----

  /** Where a column goes: preferred names by their preferred position, all
      others after them by their current position. */
  function Rank(preferred: seq<string>, cols: seq<string>, c: string): nat
    requires c in preferred || c in cols
  {
    if c in preferred then IndexOf(preferred, c) else |preferred| + IndexOf(cols, c)
  }

  /** `t[existing_cols + remaining_cols]`. */
  function Reorder(t: Table, preferred: seq<string>): (r: Table)
    requires WellFormed(t) && Distinct(preferred)
    ensures WellFormed(r) && r.rows == t.rows
    ensures multiset(r.columns) == multiset(t.columns)
  {
    var existing := Select(preferred, t.columns, true);
    var remaining := Select(t.columns, existing, false);
    SelectDistinct(preferred, t.columns, true);
    SelectDistinct(t.columns, existing, false);
    var cols := existing + remaining;
    assert Distinct(cols) by {
      forall i, j | 0 <= i < j < |cols| ensures cols[i] != cols[j] {
        if i < |existing| && j >= |existing| {
          assert cols[i] in existing && cols[j] !in existing;
        }
      }
    }
    SameElemsPermutation(cols, t.columns);
    assert Elems(cols) == Elems(t.columns);
    Table(cols, t.rows)
  }

  /** The reordered columns are sorted strictly by rank: the preferred names
      that are present come first, in preferred order, then every other column
      in its original relative order. */
  lemma ReorderRanks(t: Table, preferred: seq<string>)
    requires WellFormed(t) && Distinct(preferred)
    ensures forall c :: c in Reorder(t, preferred).columns ==> c in t.columns
    ensures forall i, j :: 0 <= i < j < |Reorder(t, preferred).columns| ==>
      Rank(preferred, t.columns, Reorder(t, preferred).columns[i])
        < Rank(preferred, t.columns, Reorder(t, preferred).columns[j])
  {
    var cols := Reorder(t, preferred).columns;
    var existing := Select(preferred, t.columns, true);
    var remaining := Select(t.columns, existing, false);
    assert cols == existing + remaining;
    SelectOrdered(preferred, t.columns, true);
    SelectOrdered(t.columns, existing, false);
    forall i, j | 0 <= i < j < |cols|
      ensures Rank(preferred, t.columns, cols[i]) < Rank(preferred, t.columns, cols[j])
    {
      if j < |existing| {
        assert cols[i] == existing[i] && cols[j] == existing[j];
      } else if i < |existing| {
        assert cols[i] == existing[i] && cols[j] == remaining[j - |existing|];
        assert cols[j] !in preferred;
      } else {
        assert cols[i] == remaining[i - |existing|] && cols[j] == remaining[j - |existing|];
        assert cols[i] !in preferred && cols[j] !in preferred;
      }
    }
  }

  /** When the first four preferred names are all present, they are the first four columns. */
  lemma ReorderLeads(t: Table, preferred: seq<string>)
    requires WellFormed(t) && Distinct(preferred) && |preferred| >= 4
    requires forall i :: 0 <= i < 4 ==> preferred[i] in t.columns
    ensures |Reorder(t, preferred).columns| >= 4
    ensures Reorder(t, preferred).columns[..4] == preferred[..4]
  {
    SelectPrefix(preferred, t.columns, 4);
    var e := Select(preferred, t.columns, true);
    var cols := Reorder(t, preferred).columns;
    assert cols == e + Select(t.columns, e, false);
    assert cols[..4] == e[..4];
  }

  /** Dropping `drops`, then renaming `from` to `to`: the dropped names go,
      `from` becomes `to` with its cells, and every other column keeps its cells. */
  lemma DropRenameEffect(t: Table, drops: seq<string>, from: string, to: string)
    requires WellFormed(t) && from != to && from !in drops && to !in drops
    requires !(from in t.columns && to in t.columns)
    ensures Renamable(DropAll(t, drops), from, to)
    ensures var r := Rename(DropAll(t, drops), from, to);
      && (forall k :: k in r.columns <==> (k in t.columns && k !in drops && k != from) || (k == to && from in t.columns))
      && (forall j, k :: 0 <= j < |t.rows| && k in t.columns && k !in drops && k != from ==> r.rows[j][k] == t.rows[j][k])
      && (from in t.columns ==> forall j :: 0 <= j < |t.rows| ==> r.rows[j][to] == t.rows[j][from])
  {
    DropAllEffect(t, drops);
  }

  /** Row `j` after dropping and renaming, as a map operation on row `j`. */
  lemma DropRenameRow(t: Table, drops: seq<string>, from: string, to: string, j: nat)
    requires WellFormed(t) && from != to && from !in drops && to !in drops
    requires !(from in t.columns && to in t.columns) && j < |t.rows|
    ensures Renamable(DropAll(t, drops), from, to)
    ensures Rename(DropAll(t, drops), from, to).rows[j] == RenameKey(t.rows[j] - Elems(drops), from, to)
  {
    DropAllEffect(t, drops);
  }
}
