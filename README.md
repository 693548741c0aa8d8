# rust-file-ls, modelled in Dafny

`rust-file-ls` lists the children of the current directory in a table. For each child it shows a number, the name, an extension cell, whether it is a directory, and its size and disk size, each coloured by magnitude. A total size line follows the table. This project models the logic between reading the directory and printing the table, all of it in `src/main.rs`:

- **Scan** (`scan.dfy`, `get_directory_contents`). Builds one `FileInfo` record per child, in listing order. The operating system's answers are passed in as a `DirEntry` value: the name, the kind (directory, regular file, or anything else such as a link), the metadata size, the real size (`None` when the query fails) and the items a recursive walk of the child yields. From these the model derives:
  - the extension, by Rust's `Path::extension` rule, with the whole file name as the fallback;
  - for a directory, the size and disk size. The two walk loops (src/main.rs:120-124 and 133-137) assign to their accumulators `file_size` and `file_disk_size` with `=`, not `+=`. So a directory's size is the size of the *last* item the walk yields, or 0 for an empty walk, and not a total over the subtree. The model keeps the assignment as written.
- **Ordering** (`ordering.dfy`). The first pass, `sort_directory_by_extension`, sorts with a comparator that is not an order: it calls every record less than itself. The model therefore promises only a permutation. Its body is one admissible run: an insertion sort driven by that comparator. `main` then finds the first directory and sorts the slice from it to the end with `sort_directory_alphabetically`. That sort is a stable in-place sort by lowercased name. It is proved sorted, a permutation of the slice, and stable: for every key, the subsequence of records with that lowercased name is unchanged. The records before the slice are left alone. Names are compared character by character, which is the order Rust's byte-wise `String` comparison gives.
- **Table** (`table.dfy`). Builds one row per record:
  - the row number is its position plus 1;
  - the extension cell is `-` when there is no extension, and also when the extension is itself "-";
  - the kind cell is `Dir` or `File`;
  - each size cell is the byte count together with the colour `format_filesize` gives it.

  The running total `sum_of_filesize` is proved equal to the sum of `file_size`. It does not depend on the order of the records.
- **Colour** (`size_tier.dfy`, `format_filesize`). The alert threshold is written as `50 * 1000 * 1000`, which is 50,000,000 bytes, although the comment next to it says 50 gigabytes (src/main.rs:77). Every size of at least 50,000,000 is therefore light red, and every smaller size is pale green. The yellow branch (`> 524288000 && <= 1073741824`) and the uncoloured fallback can never be reached. The model keeps the constant as written.
- **Pipeline** (`listing.dfy`, `main`). Scan, both ordering passes, rows and total. The result:
  - there is one row per child;
  - the rows show a permutation of the scanned records;
  - directory rows appear in case-insensitive name order among themselves;
  - the printed total is the sum of the scanned sizes.

## Model

| member | source | states |
|---|---|---|
| `SizeTier.FormatTier` | src/main.rs:76-92 | sizes of at least 50,000,000 bytes get `LightRed` and smaller sizes get `PaleGreen1a`; the `Yellow1` branch and the uncoloured fallback are never taken |
| `Scan.LastDot` | src/main.rs:144 | the position found holds a '.' with no '.' after it; none is found only when the name has no '.' |
| `Scan.Extension` | src/main.rs:144-147 | `Path::extension`: no extension exactly when the name is ".." or has no '.' after its first character; otherwise the extension is the dot-free text after the last '.', with a non-empty stem before it |
| `Scan.WalkSize` | src/main.rs:118-126 | a directory's `file_size` is the metadata size of the last item the walk yields, or 0 when it yields none: later items overwrite earlier ones instead of adding to them |
| `Scan.WalkDiskSize` | src/main.rs:131-139 | a directory's `file_disk_size` is the real size of the last walk item, with a failed query counting as 0, or 0 when the walk yields nothing |
| `Scan.GetDirectoryContents` | src/main.rs:108-167 | one record per listed child, in listing order. Each record keeps the child's name and has `file_is_directory` equal to the child's `is_dir`. The extension is `None` exactly when the child is not a regular file; for a regular file it is its `Path::extension` or else its whole name. A non-directory keeps its own metadata size and real size (0 when unavailable) |
| `Ordering.LexLeReflexive` | src/main.rs:105 | the name comparison ranks every string at most itself |
| `Ordering.LexLeTotal` | src/main.rs:105 | any two names are comparable |
| `Ordering.LexLeTransitive` | src/main.rs:105 | the name comparison is transitive, so the second pass sorts by a genuine total preorder |
| `Ordering.ExtensionLessIsReflexive` | src/main.rs:95-100 | the first pass's comparator calls every record less than itself, so it is not an order |
| `Ordering.SortByExtension` | src/main.rs:94-101 | the first pass only rearranges the records: the multiset of records is unchanged |
| `Ordering.FirstDirectory` | src/main.rs:24 | finds no position exactly when no record is a directory; otherwise the position found holds a directory and no earlier record is one |
| `Ordering.InsertIntoSorted` | src/main.rs:105 | moving a[i] into the sorted slice a[lo..i] changes nothing outside a[lo..i+1], keeps the slice a permutation and every key's subsequence, and leaves a[lo..i+1] sorted |
| `Ordering.SortAlphabetically` | src/main.rs:103-106 | the slice becomes sorted by lowercased name; it is a permutation of its old contents; records with the same lowercased name keep their relative order; records before the slice are untouched |
| `Ordering.SortDirectoryBlock` | src/main.rs:24-28 | with no directory nothing changes; otherwise the records before the first directory are unchanged, and the suffix from it is a stable, sorted permutation of its old contents |
| `Ordering.DirectoriesOrdered` | src/main.rs:24-27 | when every directory lies in a name-sorted suffix, any two directories appear in case-insensitive name order |
| `Ordering.OrderEntries` | src/main.rs:23-28 | both passes together only rearrange the records; afterwards a directory-free prefix is followed by a name-sorted suffix, so the directories are in case-insensitive name order |
| `Table.TotalSizeAppend` | src/main.rs:30-37 | the total of two runs of records is the sum of their totals |
| `Table.TotalSizePrefix` | src/main.rs:37 | no partial sum exceeds the final total, so the running total fits whenever the final one does |
| `Table.TotalSizeReorder` | src/main.rs:23-37 | the total does not depend on the order of the records, so sorting does not change it |
| `Table.BuildTable` | src/main.rs:30-60 | one row per record. Row i shows number i+1 and the record's name. The extension cell is `-` when the extension is `None`, and the extension itself otherwise. The kind cell is `Dir` exactly for directories and `File` otherwise. The size cells carry the record's sizes and their colours. The counter ends as the sum of `file_size` over all records |
| `Table.ExtensionCellIsDash` | src/main.rs:41-45 | the extension cell is `-` exactly when the record has no extension or its extension is "-" |
| `Table.PlaceholderIsAmbiguous` | src/main.rs:41-45 | a regular file named `-` also shows `-` in the extension cell, so the placeholder does not identify a missing extension |
| `Listing.ListDirectory` | src/main.rs:16-73 | one row per listed child. The rows show a permutation of the scanned records, numbered from 1. Directory rows are in case-insensitive name order. The printed total is the sum of the scanned sizes, coloured by `format_filesize` |

## Left out

- Filesystem access (`env::current_dir`, `fs::read_dir`, `metadata`, `WalkDir`, `filesize::file_real_size`): operating-system I/O; its results are the fields of `DirEntry` and `WalkItem`.
- Both walk loops read one `walk` sequence: the source walks the same path twice, and the model assumes the subtree does not change between the two walks.
- Panics from `expect` and `unwrap` on unreadable directories, unreadable metadata and names that are not valid UTF-8: the inputs are already-read values, and names are strings.
- `human_bytes`: it formats through an `f64` division. Only the byte count and its colour are kept in a `SizeCell`.
- Colour rendering and table printing (`colorful`, `cli_table`, `print_stdout`, `println!`): foreign libraries and terminal output. The title row is not modelled.
- Ordering.SortByExtension: promises only a permutation, because the order `sort_by` produces under a comparator that is not an order depends on the standard library's sort algorithm. Since Rust 1.81, `sort_by` may also panic when the comparator is not a total order, and this one answers `Less` for a record compared with itself (src/main.rs:95-99). So the source can abort on a long enough listing, while the model always returns a permutation.
- Ordering.Lower: ASCII case folding instead of the full Unicode `to_lowercase`.
- Table.BuildTable: requires the total of `file_size` to fit in a `u64`; the overflow of `sum_of_filesize` is not modelled.
- Listing.ListDirectory: requires the total of the scanned sizes to fit in a `u64`, for the same reason.
