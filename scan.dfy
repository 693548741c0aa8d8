/**
 * The scan of `get_directory_contents`: one `FileInfo` record per child of the
 * listed directory. What the operating system reports (the listing, each
 * child's type, metadata size and real size, and the items a recursive walk of
 * a child directory yields) is passed in as values.
 */
module Scan {
  import opened Common

  /** The type of a directory child as `DirEntry::file_type` reports it (links are not followed). */
  datatype FileKind = Directory | RegularFile | OtherKind

  /** One item of a recursive walk: its metadata size and its real (allocated) size, if the query succeeds. */
  datatype WalkItem = WalkItem(metadataSize: U64, realSize: Option<U64>)

  /**
   * One child of the listed directory. `metadataSize` and `realSize` are what
   * the child itself reports; `walk` is what a recursive walk started at the
   * child yields, in order (the child itself first).
   */
  datatype DirEntry = DirEntry(name: string, kind: FileKind, metadataSize: U64, realSize: Option<U64>, walk: seq<WalkItem>)

  /** The record the lister builds for each child (`FileInfo`). */
  datatype FileInfo = FileInfo(name: string, extension: Option<string>, size: U64, diskSize: U64, isDirectory: bool)

  /** The position of the last '.' in `s`, if there is one. */
  function LastDot(s: string): (r: Option<nat>)
    ensures r.Some? ==> r.value < |s| && s[r.value] == '.' && forall j :: r.value < j < |s| ==> s[j] != '.'
    ensures r.None? ==> forall j :: 0 <= j < |s| ==> s[j] != '.'
  {
    if s == [] then None
    else if s[|s| - 1] == '.' then Some(|s| - 1)
    else LastDot(s[..|s| - 1])
  }

  /**
   * Rust's `Path::extension` for a plain file name: the text after the last
   * '.', except that ".." and a name whose only '.' is its first character have
   * none. The extension may be empty ("notes." has the extension "").
   */
  function Extension(name: string): (r: Option<string>)
    ensures r.None? <==> name == ".." || forall i :: 0 < i < |name| ==> name[i] != '.'
    ensures r.Some? ==>
      && |r.value| + 1 < |name|
      && name[|name| - |r.value| - 1] == '.'
      && name[|name| - |r.value|..] == r.value
      && forall j :: 0 <= j < |r.value| ==> r.value[j] != '.'
  {
    if name == ".." then None
    else match LastDot(name)
      case None => None
      case Some(i) => if i == 0 then None else Some(name[i + 1..])
  }

  /** The `file_extension` of a child: for a regular file its extension, or its whole name when it has none. */
  function FileExtension(kind: FileKind, name: string): Option<string> {
    if kind.RegularFile? then Some(Extension(name).GetOr(name)) else None
  }

  /** The size a walk leaves behind: each item overwrites the previous one, so the last item wins. */
  function LastWalkSize(walk: seq<WalkItem>): U64 {
    if walk == [] then 0 else walk[|walk| - 1].metadataSize
  }

  /** Likewise for real sizes, where a failed query counts as 0. */
  function LastWalkDiskSize(walk: seq<WalkItem>): U64 {
    if walk == [] then 0 else walk[|walk| - 1].realSize.GetOr(0)
  }

  /** The record built for one child. */
  function Record(e: DirEntry): FileInfo {
    FileInfo(
      e.name,
      FileExtension(e.kind, e.name),
      if e.kind.Directory? then LastWalkSize(e.walk) else e.metadataSize,
      if e.kind.Directory? then LastWalkDiskSize(e.walk) else e.realSize.GetOr(0),
      e.kind.Directory?)
  }

  /** The records of a whole listing, in listing order. */
  function Records(listing: seq<DirEntry>): seq<FileInfo> {
    seq(|listing|, i requires 0 <= i < |listing| => Record(listing[i]))
  }

  /** The first walk loop: `file_size` is reassigned, not increased, for every item. */
  method WalkSize(walk: seq<WalkItem>) returns (fileSize: U64)
    ensures walk == [] ==> fileSize == 0
    ensures walk != [] ==> fileSize == walk[|walk| - 1].metadataSize
  {
    fileSize := 0;
    for i := 0 to |walk|
      invariant fileSize == LastWalkSize(walk[..i])
    {
      fileSize := walk[i].metadataSize;
    }
  }

  /** The second walk loop: `file_disk_size` is reassigned for every item, 0 when the real size is unavailable. */
  method WalkDiskSize(walk: seq<WalkItem>) returns (fileDiskSize: U64)
    ensures walk == [] ==> fileDiskSize == 0
    ensures walk != [] ==> fileDiskSize == walk[|walk| - 1].realSize.GetOr(0)
  {
    fileDiskSize := 0;
    for i := 0 to |walk|
      invariant fileDiskSize == LastWalkDiskSize(walk[..i])
    {
      fileDiskSize := walk[i].realSize.GetOr(0);
    }
  }

  /**
   * `get_directory_contents`: one record per child, in listing order, pushed
   * onto a growing vector.
   */
  method GetDirectoryContents(listing: seq<DirEntry>) returns (contents: seq<FileInfo>)
    ensures |contents| == |listing|
    ensures forall i :: 0 <= i < |listing| ==>
      && contents[i].name == listing[i].name
      && contents[i].isDirectory == listing[i].kind.Directory?
      && (contents[i].extension.None? <==> !listing[i].kind.RegularFile?)
      && (listing[i].kind.RegularFile? ==>
            contents[i].extension == Some(Extension(listing[i].name).GetOr(listing[i].name)))
      && (listing[i].kind.Directory? ==>
            contents[i].size == LastWalkSize(listing[i].walk) && contents[i].diskSize == LastWalkDiskSize(listing[i].walk))
      && (!listing[i].kind.Directory? ==>
            contents[i].size == listing[i].metadataSize && contents[i].diskSize == listing[i].realSize.GetOr(0))
    ensures contents == Records(listing)
  {
    contents := [];
    for i := 0 to |listing|
      invariant contents == Records(listing[..i])
    {
      var entry := listing[i];
      var fileSize: U64;
      if entry.kind.Directory? {
        fileSize := WalkSize(entry.walk);
      } else {
        fileSize := entry.metadataSize;
      }
      var fileDiskSize: U64;
      if entry.kind.Directory? {
        fileDiskSize := WalkDiskSize(entry.walk);
      } else {
        fileDiskSize := entry.realSize.GetOr(0);
      }
      var fileExtension := FileExtension(entry.kind, entry.name);
      contents := contents + [FileInfo(entry.name, fileExtension, fileSize, fileDiskSize, entry.kind.Directory?)];
    }
    assert listing[..|listing|] == listing;
  }
}
