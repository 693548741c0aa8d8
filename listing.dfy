/** `main`: scan the directory, order the records, build the table and the total. */
module Listing {
  import opened Common
  import opened SizeTier
  import opened Scan
  import opened Ordering
  import opened Table

  /**
   * The whole pipeline for one listing. `ordered` is the final order of the
   * records, which the first pass leaves partly unspecified.
   */
  method ListDirectory(listing: seq<DirEntry>) returns (rows: seq<Row>, totalCell: SizeCell, ghost ordered: seq<FileInfo>)
    requires TotalSize(Records(listing)) < U64Limit
    ensures |rows| == |listing|
    ensures multiset(ordered) == multiset(Records(listing))
    ensures |ordered| == |rows| && forall i :: 0 <= i < |rows| ==> IsRowOf(rows[i], i, ordered[i])
    ensures exists p :: DirectoriesInSortedSuffix(ordered, p)
    ensures forall i, j :: 0 <= i < j < |rows| && rows[i].kind == "Dir" && rows[j].kind == "Dir" ==>
      LexLe(Lower(rows[i].name), Lower(rows[j].name))
    ensures totalCell.bytes == TotalSize(Records(listing))
    ensures totalCell.tier == FormatTier(totalCell.bytes)
  {
    var contents := GetDirectoryContents(listing);
    var a := new FileInfo[|contents|](i requires 0 <= i < |contents| => contents[i]);
    assert a[..] == contents;
    OrderEntries(a);
    ordered := a[..];
    TotalSizeReorder(ordered, contents);
    var total;
    rows, total := BuildTable(a[..]);
    totalCell := FormatFilesize(total);
  }
}
