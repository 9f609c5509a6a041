/**
 * The chunk as pandas holds it: a frame whose columns and rows the body of
 * `process_chunk` updates in place, one statement at a time.
 */
module ChunkFrames {
  import opened Wrappers
  import opened FileNames
  import opened Tables
  import opened Chunks

  class Frame {
    var columns: seq<string>
    var rows: seq<Row>

    /** The frame's contents as a value. */
    function View(): Table
      reads this
    {
      Table(columns, rows)
    }

    constructor (t: Table)
      ensures View() == t
    {
      columns := t.columns;
      rows := t.rows;
    }

    /** Line 13: `chunk.columns = ...` */
    method CleanColumnNames()
      requires Cleanable(View())
      modifies this
      ensures View() == CleanHeader(old(View()))
    {
      var t := CleanHeader(View());
      columns, rows := t.columns, t.rows;
    }

    /** `chunk[name] = v` for one value broadcast to every row. */
    method Assign(name: string, v: string)
      requires WellFormed(View())
      modifies this
      ensures View() == SetConstant(old(View()), name, v)
    {
      var t := SetConstant(View(), name, v);
      columns, rows := t.columns, t.rows;
    }

    /** `chunk[name] = vals` for one value per row. */
    method AssignColumn(name: string, vals: seq<Option<string>>)
      requires WellFormed(View()) && |vals| == |rows|
      modifies this
      ensures View() == SetColumn(old(View()), name, vals)
    {
      var t := SetColumn(View(), name, vals);
      columns, rows := t.columns, t.rows;
    }

    /** `chunk.drop(columns=[col], inplace=True)`. */
    method DropColumn(col: string)
      requires WellFormed(View()) && col in columns
      modifies this
      ensures View() == Drop(old(View()), col)
    {
      var t := Drop(View(), col);
      columns, rows := t.columns, t.rows;
    }

    /** Lines 34-36: each listed column that is present is dropped, in list order. */
    method DropEach(cols: seq<string>)
      requires WellFormed(View())
      modifies this
      ensures View() == DropAll(old(View()), cols)
    {
      for i := 0 to |cols|
        invariant View() == DropAll(old(View()), cols[..i])
      {
        assert cols[..i + 1][..i] == cols[..i];
        if cols[i] in columns {
          DropColumn(cols[i]);
        }
      }
      assert cols[..|cols|] == cols;
    }

    /** `chunk.rename(columns={from: to}, inplace=True)`. */
    method RenameColumn(from: string, to: string)
      requires Renamable(View(), from, to) && from in columns
      modifies this
      ensures View() == Rename(old(View()), from, to)
    {
      var t := Rename(View(), from, to);
      columns, rows := t.columns, t.rows;
    }
  }

  /** `process_chunk(chunk, file_name)`, statement by statement, with the
      clock reading passed in as `now`. The result frame is the fresh
      `chunk[existing_cols + remaining_cols]`; an exception is returned as
      `Err`. On success the result is `Transform` of the input, whose
      properties are proved in `Chunks`, and the caller's frame is left
      changed in place: cleaned, extended, dropped and renamed, but not
      reordered (only the local name is rebound to the reordered copy). */
  method ProcessChunk(chunk: Frame, fileName: string, now: string) returns (out: Result<Frame, Exception>)
    requires Admissible(chunk.View())
    modifies chunk
    ensures Transform(old(chunk.View()), fileName, now).Err? ==>
      out.Err? && out.error == Transform(old(chunk.View()), fileName, now).error
    ensures Transform(old(chunk.View()), fileName, now).Ok? ==>
      out.Ok? && fresh(out.value) && out.value.View() == Transform(old(chunk.View()), fileName, now).value
    ensures Transform(old(chunk.View()), fileName, now).Ok? ==>
      && ParseFileName(fileName).Ok? && MissingNames(CleanHeader(old(chunk.View()))) == []
      && chunk.View() == BeforeReorder(old(chunk.View()), ParseFileName(fileName).value, fileName, now)
  {
    ghost var t := chunk.View();
    chunk.CleanColumnNames();
    ghost var cleaned := chunk.View();
    var meta := ParseFileName(fileName);
    if meta.Err? {
      return Err(meta.error);
    }
    chunk.Assign("Campus", meta.value.campus);
    chunk.Assign("Test Year", meta.value.testYear);
    chunk.Assign("Year Level", meta.value.yearLevel);
    assert chunk.View() == Located(cleaned, meta.value);
    LocatedColumns(cleaned, meta.value);
    var missing := MissingNames(chunk.View());
    if missing != [] {
      return Err(KeyError(missing));
    }
    chunk.AssignColumn("Full Name", FullNameColumn(chunk.View()));
    chunk.Assign("Processed On", now);
    chunk.Assign("Source File", fileName);
    assert chunk.View() == Derived(cleaned, meta.value, fileName, now);
    ghost var derived := chunk.View();
    DerivedMembers(cleaned, meta.value, fileName, now);
    SeparateNames();
    assert !(OldIdColumn in derived.columns && IdColumn in derived.columns);
    DropRenameEffect(derived, DropColumns, OldIdColumn, IdColumn);
    chunk.DropEach(DropColumns);
    if OldIdColumn in chunk.columns {
      chunk.RenameColumn(OldIdColumn, IdColumn);
    }
    assert chunk.View() == BeforeReorder(t, meta.value, fileName, now);
    PreferredOrderDistinct();
    var existing := Select(PreferredOrder, chunk.columns, true);
    var remaining := Select(chunk.columns, existing, false);
    var result := new Frame(Reorder(chunk.View(), PreferredOrder));
    assert result.columns == existing + remaining;
    return Ok(result);
  }
}
