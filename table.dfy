/**
 * The rows `main` builds from the ordered records and the running total of
 * `file_size` it accumulates while building them.
 */
module Table {
  import opened Common
  import opened SizeTier
  import opened Scan

  /** A size cell before its text is formatted: the byte count and the colour it gets. */
  datatype SizeCell = SizeCell(bytes: U64, tier: Tier)

  /** `format_filesize`, up to the human-readable text. */
  function FormatFilesize(size: U64): SizeCell {
    SizeCell(size, FormatTier(size))
  }

  /** One table row: number, name, extension cell, kind cell, size and disk size. */
  datatype Row = Row(number: nat, name: string, extension: string, kind: string, size: SizeCell, diskSize: SizeCell)

  /** What row `r`, at position `i`, shows for record `f`. */
  predicate IsRowOf(r: Row, i: nat, f: FileInfo) {
    && r.number == i + 1
    && r.name == f.name
    && (f.extension.None? ==> r.extension == "-")
    && (f.extension.Some? ==> r.extension == f.extension.value)
    && (r.kind == "Dir" <==> f.isDirectory)
    && (r.kind == "File" <==> !f.isDirectory)
    && r.size == FormatFilesize(f.size)
    && r.diskSize == FormatFilesize(f.diskSize)
  }

  /** The sum of `file_size` over some records. */
  function TotalSize(s: seq<FileInfo>): nat {
    if s == [] then 0 else TotalSize(s[..|s| - 1]) + s[|s| - 1].size
  }

  lemma {:induction false} TotalSizeAppend(s: seq<FileInfo>, t: seq<FileInfo>)
    ensures TotalSize(s + t) == TotalSize(s) + TotalSize(t)
  {
    if t == [] {
      assert s + t == s;
    } else {
      TotalSizeAppend(s, t[..|t| - 1]);
      assert (s + t)[..|s + t| - 1] == s + t[..|t| - 1];
    }
  }

  /** A prefix never sums to more than the whole, so no partial sum exceeds the final total. */
  lemma TotalSizePrefix(s: seq<FileInfo>, n: nat)
    requires n <= |s|
    ensures TotalSize(s[..n]) <= TotalSize(s)
  {
    assert s == s[..n] + s[n..];
    TotalSizeAppend(s[..n], s[n..]);
  }

  /** Removing the same record `x` from two sequences with equal multisets leaves equal multisets. */
  lemma MultisetCancel(init: seq<FileInfo>, front: seq<FileInfo>, back: seq<FileInfo>, x: FileInfo)
    requires multiset(init + [x]) == multiset(front + [x] + back)
    ensures multiset(init) == multiset(front + back)
  {
    calc {
      multiset(init) + multiset{x};
      multiset(init + [x]);
      multiset(front + [x] + back);
      multiset(front) + multiset{x} + multiset(back);
      multiset(front + back) + multiset{x};
    }
    assert multiset(init) == multiset(init) + multiset{x} - multiset{x};
    assert multiset(front + back) == multiset(front + back) + multiset{x} - multiset{x};
  }

  /** The total does not depend on the order of the records. */
  lemma {:induction false} TotalSizeReorder(s: seq<FileInfo>, t: seq<FileInfo>)
    requires multiset(s) == multiset(t)
    ensures TotalSize(s) == TotalSize(t)
    decreases |s|
  {
    if s == [] {
      assert |t| == |multiset(t)| == 0;
    } else {
      var init, x := s[..|s| - 1], s[|s| - 1];
      assert s == init + [x];
      assert x in multiset(t);
      var k :| 0 <= k < |t| && t[k] == x;
      var front, back := t[..k], t[k + 1..];
      assert t == front + [x] + back;
      MultisetCancel(init, front, back, x);
      TotalSizeReorder(init, front + back);
      TotalSizeAppend(front + [x], back);
      TotalSizeAppend(front, [x]);
      TotalSizeAppend(front, back);
      assert [x][..0] == [];
    }
  }

  /**
   * The `map` over the enumerated records in `main`: one row per record, and
   * the captured counter `sum_of_filesize` increased by each record's size.
   */
  method BuildTable(contents: seq<FileInfo>) returns (rows: seq<Row>, total: U64)
    requires TotalSize(contents) < U64Limit
    ensures |rows| == |contents|
    ensures forall i :: 0 <= i < |contents| ==> IsRowOf(rows[i], i, contents[i])
    ensures total == TotalSize(contents)
  {
    rows := [];
    var sumOfFilesize: U64 := 0;
    for i := 0 to |contents|
      invariant |rows| == i
      invariant forall j :: 0 <= j < i ==> IsRowOf(rows[j], j, contents[j])
      invariant sumOfFilesize == TotalSize(contents[..i])
    {
      var x1 := contents[i];
      assert contents[..i + 1][..i] == contents[..i];
      TotalSizePrefix(contents, i + 1);
      sumOfFilesize := sumOfFilesize + x1.size;
      var extensionCell := if x1.extension.None? then "-" else x1.extension.value;
      var kindCell := if x1.isDirectory then "Dir" else "File";
      rows := rows + [Row(i + 1, x1.name, extensionCell, kindCell, FormatFilesize(x1.size), FormatFilesize(x1.diskSize))];
    }
    assert contents[..|contents|] == contents;
    total := sumOfFilesize;
  }

  /**
   * The extension cell shows `-` exactly when the record has no extension or
   * its extension is itself "-".
   */
  lemma ExtensionCellIsDash(r: Row, i: nat, f: FileInfo)
    requires IsRowOf(r, i, f)
    ensures r.extension == "-" <==> f.extension.None? || f.extension == Some("-")
  {
  }

  /**
   * So the `-` placeholder does not identify a missing extension: a regular
   * file named "-" has no dot, its name becomes its extension, and its row
   * shows `-` as well.
   */
  lemma PlaceholderIsAmbiguous(e: DirEntry, r: Row)
    requires e.kind.RegularFile? && e.name == "-" && IsRowOf(r, 0, Record(e))
    ensures Record(e).extension == Some("-") && r.extension == "-"
  {
  }
}
