/**
 * How the lister orders its records: `sort_directory_by_extension` over the
 * whole vector, then the search for the first directory, then
 * `sort_directory_alphabetically` over the slice from that directory to the end.
 */
module Ordering {
  import opened Common
  import opened Scan

  // ---------------------------------------------------------------------------
  // Case-insensitive names and their order
  // ---------------------------------------------------------------------------

  /** ASCII case folding of one character. */
  function LowerChar(c: char): char {
    if 'A' <= c <= 'Z' then (c as int - 'A' as int + 'a' as int) as char else c
  }

  /** The lowercased name the second pass compares. */
  function Lower(s: string): string {
    seq(|s|, i requires 0 <= i < |s| => LowerChar(s[i]))
  }

  /**
   * `String`'s order: lexicographic, character by character. Comparing the
   * UTF-8 bytes, as Rust does, gives the same order as comparing code points.
   */
  predicate LexLe(s: string, t: string) {
    |s| == 0 || (|t| > 0 && (s[0] < t[0] || (s[0] == t[0] && LexLe(s[1..], t[1..]))))
  }

  lemma {:induction false} LexLeReflexive(s: string)
    ensures LexLe(s, s)
  {
    if |s| > 0 {
      LexLeReflexive(s[1..]);
    }
  }

  lemma {:induction false} LexLeTotal(s: string, t: string)
    ensures LexLe(s, t) || LexLe(t, s)
  {
    if |s| > 0 && |t| > 0 && s[0] == t[0] {
      LexLeTotal(s[1..], t[1..]);
    }
  }

  lemma {:induction false} LexLeTransitive(s: string, t: string, u: string)
    requires LexLe(s, t) && LexLe(t, u)
    ensures LexLe(s, u)
  {
    if |s| > 0 && |t| > 0 && |u| > 0 && s[0] == t[0] && t[0] == u[0] {
      LexLeTransitive(s[1..], t[1..], u[1..]);
    }
  }

  /** The sort key of the second pass. */
  function NameKey(f: FileInfo): string {
    Lower(f.name)
  }

  predicate KeyLe(x: FileInfo, y: FileInfo) {
    LexLe(NameKey(x), NameKey(y))
  }

  predicate SortedByName(s: seq<FileInfo>) {
    forall p, q :: 0 <= p < q < |s| ==> KeyLe(s[p], s[q])
  }

  /**
   * The records of `s` whose lowercased name is `k`, in order. A sort is stable
   * when it leaves this subsequence unchanged for every `k`.
   */
  function WithKey(s: seq<FileInfo>, k: string): seq<FileInfo> {
    if s == [] then []
    else WithKey(s[..|s| - 1], k) + (if NameKey(s[|s| - 1]) == k then [s[|s| - 1]] else [])
  }

  lemma {:induction false} WithKeyAppend(s: seq<FileInfo>, t: seq<FileInfo>, k: string)
    ensures WithKey(s + t, k) == WithKey(s, k) + WithKey(t, k)
  {
    if t == [] {
      assert s + t == s;
    } else {
      WithKeyAppend(s, t[..|t| - 1], k);
      assert (s + t)[..|s + t| - 1] == s + t[..|t| - 1];
    }
  }

  /** Two records with different keys contribute the same to every key's subsequence in either order. */
  lemma WithKeyPair(x: FileInfo, y: FileInfo, k: string)
    requires NameKey(x) != NameKey(y)
    ensures WithKey([x, y], k) == WithKey([y, x], k)
  {
  }

  /** Exchanging two neighbours with different keys changes no key's subsequence. */
  lemma WithKeySwap(s: seq<FileInfo>, j: nat, k: string)
    requires 0 < j < |s| && NameKey(s[j - 1]) != NameKey(s[j])
    ensures WithKey(s[j - 1 := s[j]][j := s[j - 1]], k) == WithKey(s, k)
  {
    var x, y := s[j - 1], s[j];
    var front, back := s[..j - 1], s[j + 1..];
    assert s == front + [x, y] + back;
    assert s[j - 1 := y][j := x] == front + [y, x] + back;
    WithKeyAppend(front + [x, y], back, k);
    WithKeyAppend(front, [x, y], k);
    WithKeyAppend(front + [y, x], back, k);
    WithKeyAppend(front, [y, x], k);
    WithKeyPair(x, y, k);
  }

  // ---------------------------------------------------------------------------
  // First pass: `sort_directory_by_extension`
  // ---------------------------------------------------------------------------

  /**
   * The first pass's comparator read as "is less": it answers `Equal` only when
   * the left record has no extension and the right one has one, and `Less` in
   * every other case.
   */
  predicate ExtensionLess(x: FileInfo, y: FileInfo) {
    !(x.extension.None? && y.extension.Some?)
  }

  /** The comparator is no strict order: it calls every record less than itself. */
  lemma ExtensionLessIsReflexive(x: FileInfo)
    ensures ExtensionLess(x, x)
  {
  }

  /**
   * `sort_directory_by_extension`. The body inserts each record leftwards while
   * the comparator calls it less than its neighbour, one admissible run of a
   * sort under this comparator; since the comparator is not an order, the
   * contract promises only that the records are rearranged.
   */
  method SortByExtension(a: array<FileInfo>)
    modifies a
    ensures multiset(a[..]) == old(multiset(a[..]))
  {
    var i := 1;
    while i < a.Length
      invariant multiset(a[..]) == old(multiset(a[..]))
    {
      var j := i;
      while j > 0 && ExtensionLess(a[j], a[j - 1])
        invariant 0 <= j <= i < a.Length
        invariant multiset(a[..]) == old(multiset(a[..]))
      {
        a[j - 1], a[j] := a[j], a[j - 1];
        j := j - 1;
      }
      i := i + 1;
    }
  }

  // ---------------------------------------------------------------------------
  // The first directory
  // ---------------------------------------------------------------------------

  /** `iter().position(|x| x.file_is_directory)`. */
  method FirstDirectory(a: array<FileInfo>) returns (position: Option<nat>)
    ensures position.None? <==> forall i :: 0 <= i < a.Length ==> !a[i].isDirectory
    ensures position.Some? ==>
      && position.value < a.Length
      && a[position.value].isDirectory
      && forall i :: 0 <= i < position.value ==> !a[i].isDirectory
  {
    var i := 0;
    while i < a.Length
      invariant 0 <= i <= a.Length
      invariant forall k :: 0 <= k < i ==> !a[k].isDirectory
    {
      if a[i].isDirectory {
        return Some(i);
      }
      i := i + 1;
    }
    return None;
  }

  // ---------------------------------------------------------------------------
  // Second pass: `sort_directory_alphabetically` on the slice a[lo..]
  // ---------------------------------------------------------------------------

  /** Exchanges the neighbours a[j - 1] and a[j], whose keys differ. */
  method SwapDown(a: array<FileInfo>, lo: nat, j: nat)
    requires lo < j < a.Length
    requires NameKey(a[j - 1]) != NameKey(a[j])
    modifies a
    ensures a[..] == old(a[..])[j - 1 := old(a[j])][j := old(a[j - 1])]
    ensures multiset(a[lo..]) == old(multiset(a[lo..]))
    ensures forall k :: WithKey(a[lo..], k) == WithKey(old(a[lo..]), k)
  {
    ghost var s := a[lo..];
    a[j - 1], a[j] := a[j], a[j - 1];
    assert a[lo..] == s[j - 1 - lo := s[j - lo]][j - lo := s[j - 1 - lo]];
    forall k
      ensures WithKey(a[lo..], k) == WithKey(s, k)
    {
      WithKeySwap(s, j - lo, k);
    }
  }

  // The state of one insertion: the record being inserted sits at j, and
  // s[lo..i + 1] would be sorted without it.

  /** s[lo..i + 1] is sorted once position j is set aside. */
  predicate SortedExcept(s: seq<FileInfo>, lo: nat, j: nat, i: nat)
    requires i < |s|
  {
    forall p, q :: lo <= p < q <= i && p != j && q != j ==> KeyLe(s[p], s[q])
  }

  /** s[j] is at most every record after it, up to i. */
  predicate BelowRest(s: seq<FileInfo>, j: nat, i: nat)
    requires j <= i < |s|
  {
    forall q :: j < q <= i ==> KeyLe(s[j], s[q])
  }

  /** The neighbours of j are in order with each other. */
  predicate Bridged(s: seq<FileInfo>, lo: nat, j: nat, i: nat)
    requires j <= i < |s|
  {
    lo < j < i ==> KeyLe(s[j - 1], s[j + 1])
  }

  /**
   * One swap of the insertion: when s[j] is strictly below s[j - 1], their
   * keys differ, and exchanging them moves the insertion state one place left.
   */
  lemma InsertionStep(s: seq<FileInfo>, lo: nat, j: nat, i: nat)
    requires lo < j <= i < |s|
    requires !KeyLe(s[j - 1], s[j])
    requires SortedExcept(s, lo, j, i) && BelowRest(s, j, i) && Bridged(s, lo, j, i)
    ensures NameKey(s[j - 1]) != NameKey(s[j])
    ensures var t := s[j - 1 := s[j]][j := s[j - 1]];
      SortedExcept(t, lo, j - 1, i) && BelowRest(t, j - 1, i) && Bridged(t, lo, j - 1, i)
  {
    LexLeReflexive(NameKey(s[j]));
    LexLeTotal(NameKey(s[j - 1]), NameKey(s[j]));
    forall q | j + 1 < q <= i
      ensures KeyLe(s[j - 1], s[q])
    {
      LexLeTransitive(NameKey(s[j - 1]), NameKey(s[j + 1]), NameKey(s[q]));
    }
  }

  /** When the insertion stops, s[lo..i + 1] is sorted. */
  lemma InsertionDone(s: seq<FileInfo>, lo: nat, j: nat, i: nat)
    requires lo <= j <= i < |s|
    requires j > lo ==> KeyLe(s[j - 1], s[j])
    requires SortedExcept(s, lo, j, i) && BelowRest(s, j, i)
    ensures forall p, q :: lo <= p < q <= i ==> KeyLe(s[p], s[q])
  {
    forall p | lo <= p < j - 1
      ensures KeyLe(s[p], s[j])
    {
      LexLeTransitive(NameKey(s[p]), NameKey(s[j - 1]), NameKey(s[j]));
    }
  }

  /**
   * One step of the second pass: a[lo..i] is sorted, and a[i] is moved
   * leftwards past the records whose key is strictly greater than its own.
   * Only a[lo..i + 1] changes.
   */
  method InsertIntoSorted(a: array<FileInfo>, lo: nat, i: nat)
    requires lo <= i < a.Length
    requires forall p, q :: lo <= p < q < i ==> KeyLe(a[p], a[q])
    modifies a
    ensures forall m :: 0 <= m < lo ==> a[m] == old(a[m])
    ensures forall m :: i < m < a.Length ==> a[m] == old(a[m])
    ensures multiset(a[lo..]) == old(multiset(a[lo..]))
    ensures forall k :: WithKey(a[lo..], k) == WithKey(old(a[lo..]), k)
    ensures forall p, q :: lo <= p < q <= i ==> KeyLe(a[p], a[q])
  {
    var j := i;
    assert SortedExcept(a[..], lo, j, i);
    while j > lo && !KeyLe(a[j - 1], a[j])
      invariant lo <= j <= i
      invariant forall m :: 0 <= m < lo ==> a[m] == old(a[m])
      invariant forall m :: i < m < a.Length ==> a[m] == old(a[m])
      invariant multiset(a[lo..]) == old(multiset(a[lo..]))
      invariant forall k :: WithKey(a[lo..], k) == WithKey(old(a[lo..]), k)
      invariant SortedExcept(a[..], lo, j, i) && BelowRest(a[..], j, i) && Bridged(a[..], lo, j, i)
    {
      InsertionStep(a[..], lo, j, i);
      SwapDown(a, lo, j);
      j := j - 1;
    }
    InsertionDone(a[..], lo, j, i);
  }

  /**
   * `sort_directory_alphabetically` applied to the slice a[lo..]: a stable
   * sort by lowercased name, which leaves a[..lo] alone.
   */
  method SortAlphabetically(a: array<FileInfo>, lo: nat)
    requires lo <= a.Length
    modifies a
    ensures forall m :: 0 <= m < lo ==> a[m] == old(a[m])
    ensures multiset(a[lo..]) == old(multiset(a[lo..]))
    ensures SortedByName(a[lo..])
    ensures forall k :: WithKey(a[lo..], k) == WithKey(old(a[lo..]), k)
  {
    var i := lo;
    while i < a.Length
      invariant lo <= i <= a.Length
      invariant forall m :: 0 <= m < lo ==> a[m] == old(a[m])
      invariant multiset(a[lo..]) == old(multiset(a[lo..]))
      invariant forall k :: WithKey(a[lo..], k) == WithKey(old(a[lo..]), k)
      invariant forall p, q :: lo <= p < q < i ==> KeyLe(a[p], a[q])
    {
      InsertIntoSorted(a, lo, i);
      i := i + 1;
    }
  }

  // ---------------------------------------------------------------------------
  // The ordering steps of `main`
  // ---------------------------------------------------------------------------

  /**
   * Lines 24-28 of `main`: find the first directory and, if there is one,
   * sort the slice from it to the end. Returns the position it found.
   */
  method SortDirectoryBlock(a: array<FileInfo>) returns (position: Option<nat>)
    modifies a
    ensures position.None? <==> forall i :: 0 <= i < a.Length ==> !old(a[i]).isDirectory
    ensures position.None? ==> a[..] == old(a[..])
    ensures position.Some? ==>
      && position.value < a.Length
      && old(a[position.value]).isDirectory
      && (forall i :: 0 <= i < position.value ==> !old(a[i]).isDirectory)
      && a[..position.value] == old(a[..position.value])
      && multiset(a[position.value..]) == old(multiset(a[position.value..]))
      && SortedByName(a[position.value..])
      && forall k :: WithKey(a[position.value..], k) == WithKey(old(a[position.value..]), k)
  {
    position := FirstDirectory(a);
    if position.Some? {
      SortAlphabetically(a, position.value);
    }
  }

  /** Every directory lies in the name-sorted suffix s[p..]; s[..p] holds none. */
  predicate DirectoriesInSortedSuffix(s: seq<FileInfo>, p: nat) {
    && p <= |s|
    && (forall i :: 0 <= i < p ==> !s[i].isDirectory)
    && SortedByName(s[p..])
  }

  /** Directories in such a sequence appear in case-insensitive name order. */
  lemma DirectoriesOrdered(s: seq<FileInfo>, p: nat)
    requires DirectoriesInSortedSuffix(s, p)
    ensures forall i, j :: 0 <= i < j < |s| && s[i].isDirectory && s[j].isDirectory ==> KeyLe(s[i], s[j])
  {
  }

  /** Lines 23-28 of `main`: both passes. */
  method OrderEntries(a: array<FileInfo>)
    modifies a
    ensures multiset(a[..]) == old(multiset(a[..]))
    ensures exists p :: DirectoriesInSortedSuffix(a[..], p)
    ensures forall i, j :: 0 <= i < j < a.Length && a[i].isDirectory && a[j].isDirectory ==> KeyLe(a[i], a[j])
  {
    SortByExtension(a);
    ghost var sorted := a[..];
    var position := SortDirectoryBlock(a);
    if position.None? {
      assert DirectoriesInSortedSuffix(a[..], a.Length);
      DirectoriesOrdered(a[..], a.Length);
    } else {
      var p := position.value;
      assert sorted == sorted[..p] + sorted[p..];
      assert a[..] == a[..p] + a[p..];
      assert DirectoriesInSortedSuffix(a[..], p);
      DirectoriesOrdered(a[..], p);
    }
  }
}
