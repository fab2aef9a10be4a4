/**
 * The directory walk `build_file_items(ignorer, root, path)`: it lists the
 * directory at `path`, drops the entries it cannot read, skips every entry
 * whose path relative to `root` the ignorer rejects or whose last component
 * is `.git`, turns each remaining entry into a tree item (recursing into
 * directories with the same `root`), and sorts the level folders first, then
 * by label.
 *
 * The filesystem is a finite value: a directory's `Listing` is what
 * `read_dir` gives for it, and each `Entry` is what iterating over it yields.
 * The ignorer is an arbitrary predicate on relative path strings.
 */
module FileTree {
  import opened Wrappers
  import opened Paths
  import opened TreeItems
  import opened StableSort

  /** The outcome of `read_dir` on a directory. */
  datatype Listing = Failed | Listed(entries: seq<Entry>)

  /** One item of a directory's iterator: an `Err` (`Unreadable`), an entry
      for which `is_dir()` is false (`File`), or one for which it is true,
      with what `read_dir` gives for it in turn (`Dir`). */
  datatype Entry =
    | Unreadable
    | File(name: OsName)
    | Dir(name: OsName, listing: Listing)

  /** `Ignorer::is_ignored`, on the lossy string of a root-relative path. */
  type Ignorer = string -> bool

  /** The label of an entry: its name when that is valid UTF-8, else "Unknown". */
  function Label(n: OsName): (r: string)
    ensures n.Utf8? ==> r == n.text
    ensures n.NonUtf8? ==> r == "Unknown"
  {
    ToStr(n).UnwrapOr("Unknown")
  }

  /** The loop's `continue` test for the entry at path `p`. */
  predicate Skipped(ignored: Ignorer, root: Path, p: Path) {
    var relative := RelativeTo(p, root);
    ignored(Display(relative)) || EndsWith(relative, GitDir)
  }

  /** The entry survives `flatten` and the `continue` test, so the loop pushes an item for it. */
  predicate Admitted(ignored: Ignorer, root: Path, path: Path, e: Entry) {
    !e.Unreadable? && !Skipped(ignored, root, path + [e.name])
  }

  /** The item the loop pushes for entry `e` of the directory at `path`: a
      leaf for a file, and for a directory an item whose children are the
      walk of that directory. */
  function ItemOf(ignored: Ignorer, root: Path, path: Path, e: Entry): TreeItem
    requires !e.Unreadable?
    decreases e, 0
  {
    var p := path + [e.name];
    var item := NewItem(Display(p), Label(e.name));
    if e.Dir? then WithChildren(item, FileItems(ignored, root, p, e.listing)) else item
  }

  /** The vector after the loop has looked at the first `n` entries. */
  function Pushed(ignored: Ignorer, root: Path, path: Path, l: Listing, n: nat): seq<TreeItem>
    requires l.Listed? && n <= |l.entries|
    decreases l, n
  {
    if n == 0 then []
    else
      var e := l.entries[n - 1];
      Pushed(ignored, root, path, l, n - 1) +
      (if Admitted(ignored, root, path, e) then [ItemOf(ignored, root, path, e)] else [])
  }

  /** What `build_file_items(ignorer, root, path)` returns for the directory
      at `path` whose listing is `l`. */
  function FileItems(ignored: Ignorer, root: Path, path: Path, l: Listing): seq<TreeItem>
    decreases l, if l.Listed? then |l.entries| + 1 else 0
  {
    Sort(if l.Failed? then [] else Pushed(ignored, root, path, l, |l.entries|))
  }

  /** `build_file_items`: the loop pushes into `items`, recursing for
      directories, then sorts it. */
  method BuildFileItems(ignored: Ignorer, root: Path, path: Path, listing: Listing)
    returns (items: seq<TreeItem>)
    ensures items == FileItems(ignored, root, path, listing)
    ensures listing.Failed? ==> items == []
    ensures Sorted(items)
    decreases listing
  {
    items := [];
    if listing.Listed? {
      var entries := listing.entries;
      for i := 0 to |entries|
        invariant items == Pushed(ignored, root, path, listing, i)
      {
        var entry := entries[i];
        if entry.Unreadable? {
          continue;
        }
        var p := path + [entry.name];
        var relative := RelativeTo(p, root);
        if ignored(Display(relative)) || EndsWith(relative, GitDir) {
          continue;
        }
        var fileName := Label(entry.name);
        var id := Display(p);
        if entry.Dir? {
          var children := BuildFileItems(ignored, root, p, entry.listing);
          items := items + [WithChildren(NewItem(id, fileName), children)];
        } else {
          items := items + [NewItem(id, fileName)];
        }
      }
    }
    items := SortItems(items);
  }

  /** Every item in the vector after `n` entries was pushed for one of them,
      an admitted one. */
  lemma {:induction false} PushedOrigin(ignored: Ignorer, root: Path, path: Path, l: Listing, n: nat, it: TreeItem)
    returns (i: nat)
    requires l.Listed? && n <= |l.entries| && it in Pushed(ignored, root, path, l, n)
    ensures i < n && Admitted(ignored, root, path, l.entries[i]) && it == ItemOf(ignored, root, path, l.entries[i])
    decreases n
  {
    var e := l.entries[n - 1];
    var pushed := if Admitted(ignored, root, path, e) then [ItemOf(ignored, root, path, e)] else [];
    assert Pushed(ignored, root, path, l, n) == Pushed(ignored, root, path, l, n - 1) + pushed;
    if it in Pushed(ignored, root, path, l, n - 1) {
      i := PushedOrigin(ignored, root, path, l, n - 1, it);
    } else {
      i := n - 1;
    }
  }

  /** Every admitted entry among the first `n` has its item in the vector. */
  lemma {:induction false} PushedContains(ignored: Ignorer, root: Path, path: Path, l: Listing, n: nat, i: nat)
    requires l.Listed? && n <= |l.entries| && i < |l.entries|
    ensures i < n && Admitted(ignored, root, path, l.entries[i]) ==>
      ItemOf(ignored, root, path, l.entries[i]) in Pushed(ignored, root, path, l, n)
    decreases n
  {
    if i < n {
      var e := l.entries[n - 1];
      var pushed := if Admitted(ignored, root, path, e) then [ItemOf(ignored, root, path, e)] else [];
      assert Pushed(ignored, root, path, l, n) == Pushed(ignored, root, path, l, n - 1) + pushed;
      PushedContains(ignored, root, path, l, n - 1, i);
    }
  }

  /** Item `it` is what entry `e` of the directory at `path` yields: the
      entry was readable, its path relative to `root` is neither ignored nor
      ends in `.git`, the item's id is the entry's full path and its label the
      entry's name (or "Unknown"), and it is a leaf for a file and carries the
      walk of the subdirectory for a directory. */
  predicate Yields(ignored: Ignorer, root: Path, path: Path, e: Entry, it: TreeItem)
    decreases e, 1
  {
    && !e.Unreadable?
    && !ignored(Display(RelativeTo(path + [e.name], root)))
    && !EndsWith(RelativeTo(path + [e.name], root), GitDir)
    && it.id == Display(path + [e.name])
    && it.caption == Label(e.name)
    && it.children == (if e.Dir? then FileItems(ignored, root, path + [e.name], e.listing) else [])
  }

  lemma YieldsIff(ignored: Ignorer, root: Path, path: Path, e: Entry, it: TreeItem)
    ensures Yields(ignored, root, path, e, it) <==> Admitted(ignored, root, path, e) && it == ItemOf(ignored, root, path, e)
  {
  }

  /** An item is in the walk's result exactly when the directory could be
      listed and one of its entries yields that item. */
  lemma FileItemsMembers(ignored: Ignorer, root: Path, path: Path, l: Listing, it: TreeItem)
    ensures it in FileItems(ignored, root, path, l) <==>
      l.Listed? && exists i :: 0 <= i < |l.entries| && Yields(ignored, root, path, l.entries[i], it)
  {
    if l.Listed? {
      var pushed := Pushed(ignored, root, path, l, |l.entries|);
      SortSortedPermutation(pushed);
      assert it in FileItems(ignored, root, path, l) <==> it in pushed by {
        assert it in FileItems(ignored, root, path, l) <==> it in multiset(Sort(pushed));
      }
      if it in pushed {
        var i := PushedOrigin(ignored, root, path, l, |l.entries|, it);
        YieldsIff(ignored, root, path, l.entries[i], it);
      } else {
        forall i | 0 <= i < |l.entries| ensures !Yields(ignored, root, path, l.entries[i], it) {
          YieldsIff(ignored, root, path, l.entries[i], it);
          PushedContains(ignored, root, path, l, |l.entries|, i);
        }
      }
    } else {
      assert FileItems(ignored, root, path, l) == [];
    }
  }

  /** The result is the items the loop pushed, sorted folders first and then
      by label, and items that tie keep the order in which they were pushed. */
  lemma FileItemsSortedStable(ignored: Ignorer, root: Path, path: Path, l: Listing)
    requires l.Listed?
    ensures var pushed := Pushed(ignored, root, path, l, |l.entries|);
      && FoldersFirst(FileItems(ignored, root, path, l))
      && CaptionsAscendingByKind(FileItems(ignored, root, path, l))
      && multiset(FileItems(ignored, root, path, l)) == multiset(pushed)
      && forall y :: Ties(FileItems(ignored, root, path, l), y) == Ties(pushed, y)
  {
    var pushed := Pushed(ignored, root, path, l, |l.entries|);
    SortSortedPermutation(pushed);
    SortedIff(Sort(pushed));
    forall y ensures Ties(Sort(pushed), y) == Ties(pushed, y) {
      SortStable(pushed, y);
    }
  }

  /** Every level of the result, at every depth, is sorted. */
  ghost predicate SortedTree(items: seq<TreeItem>)
    decreases items
  {
    Sorted(items) && forall k :: 0 <= k < |items| ==> SortedTree(items[k].children)
  }

  /** The item at position `k` of the result comes from an admitted entry. */
  lemma ResultItemOrigin(ignored: Ignorer, root: Path, path: Path, l: Listing, k: nat)
    returns (i: nat)
    requires l.Listed? && k < |FileItems(ignored, root, path, l)|
    ensures i < |l.entries| && Admitted(ignored, root, path, l.entries[i])
    ensures FileItems(ignored, root, path, l)[k] == ItemOf(ignored, root, path, l.entries[i])
  {
    var it := FileItems(ignored, root, path, l)[k];
    SortSortedPermutation(Pushed(ignored, root, path, l, |l.entries|));
    assert it in multiset(FileItems(ignored, root, path, l));
    i := PushedOrigin(ignored, root, path, l, |l.entries|, it);
  }

  /** The comparator's order holds at every level of the tree, not only at the top. */
  lemma {:induction false} SortedAtEveryLevel(ignored: Ignorer, root: Path, path: Path, l: Listing)
    ensures SortedTree(FileItems(ignored, root, path, l))
    decreases l
  {
    var items := FileItems(ignored, root, path, l);
    SortSortedPermutation(if l.Failed? then [] else Pushed(ignored, root, path, l, |l.entries|));
    forall k | 0 <= k < |items| ensures SortedTree(items[k].children) {
      var i := ResultItemOrigin(ignored, root, path, l, k);
      var e := l.entries[i];
      if e.Dir? {
        SortedAtEveryLevel(ignored, root, path + [e.name], e.listing);
      }
    }
  }

  /** The walk keeps the entry `n` of the directory at root-relative path
      `rel`: its relative path is neither ignored nor ends in `.git`. */
  predicate Kept(ignored: Ignorer, rel: Path, n: OsName) {
    !ignored(Display(rel + [n])) && !EndsWith(rel + [n], GitDir)
  }

  /** Every item at every depth of `items`, the result for the directory at
      `root + rel`, stands for a path `root + rel + [n]` whose relative path
      `rel + [n]` is kept, and so on down its children: no item anywhere
      lies at or below an ignored or `.git` path. */
  ghost predicate Traced(ignored: Ignorer, root: Path, rel: Path, items: seq<TreeItem>)
    decreases items, 1
  {
    forall k :: 0 <= k < |items| ==> TracedAt(ignored, root, rel, items, k)
  }

  /** The item at position `k` of `items` has an entry name `n` that the walk
      keeps, its id is the full path `root + rel + [n]`, its label is `n`'s
      label, and its children are traced below `rel + [n]`. */
  ghost predicate TracedAt(ignored: Ignorer, root: Path, rel: Path, items: seq<TreeItem>, k: nat)
    requires k < |items|
    decreases items, 0
  {
    exists n: OsName {:trigger Kept(ignored, rel, n)} ::
      && Kept(ignored, rel, n)
      && items[k].id == Display(root + rel + [n])
      && items[k].caption == Label(n)
      && Traced(ignored, root, rel + [n], items[k].children)
  }

  /** The walk started at `root` (as `load_files` starts it) and every walk
      below it take relative paths against that same `root`: every item of
      the tree, at any depth, comes from a path whose every step below the
      root was admitted. */
  lemma {:induction false} FileItemsTraced(ignored: Ignorer, root: Path, rel: Path, l: Listing)
    ensures Traced(ignored, root, rel, FileItems(ignored, root, root + rel, l))
    decreases l, 1
  {
    var items := FileItems(ignored, root, root + rel, l);
    if l.Listed? {
      forall k | 0 <= k < |items| ensures TracedAt(ignored, root, rel, items, k) {
        ItemTraced(ignored, root, rel, l, k);
      }
    } else {
      assert items == [];
    }
  }

  /** The item at position `k` of the walk of `root + rel` is traced. */
  lemma {:induction false} ItemTraced(ignored: Ignorer, root: Path, rel: Path, l: Listing, k: nat)
    requires l.Listed? && k < |FileItems(ignored, root, root + rel, l)|
    ensures TracedAt(ignored, root, rel, FileItems(ignored, root, root + rel, l), k)
    decreases l, 0
  {
    var items := FileItems(ignored, root, root + rel, l);
    var i := ResultItemOrigin(ignored, root, root + rel, l, k);
    var e := l.entries[i];
    var n := e.name;
    assert root + (rel + [n]) == root + rel + [n];
    RelativeToBelowRoot(root, rel + [n]);
    assert Kept(ignored, rel, n);
    if e.Dir? {
      FileItemsTraced(ignored, root, rel + [n], e.listing);
      assert items[k].children == FileItems(ignored, root, root + rel + [n], e.listing);
    } else {
      assert items[k].children == [];
    }
    assert Traced(ignored, root, rel + [n], items[k].children);
  }

  /** An entry the loop skips contributes nothing, whatever lies below it: it
      can be replaced by any other skipped entry, and the walk never enters it. */
  lemma {:induction false} SkippedEntryNeverEntered(ignored: Ignorer, root: Path, path: Path, entries: seq<Entry>, i: nat, other: Entry)
    requires i < |entries|
    requires !Admitted(ignored, root, path, entries[i]) && !Admitted(ignored, root, path, other)
    ensures FileItems(ignored, root, path, Listed(entries)) == FileItems(ignored, root, path, Listed(entries[i := other]))
  {
    var l, l' := Listed(entries), Listed(entries[i := other]);
    PushedUnchanged(ignored, root, path, l, l', i, |entries|);
  }

  lemma {:induction false} PushedUnchanged(ignored: Ignorer, root: Path, path: Path, l: Listing, l': Listing, i: nat, n: nat)
    requires l.Listed? && l'.Listed? && i < |l.entries| == |l'.entries|
    requires l'.entries == l.entries[i := l'.entries[i]]
    requires !Admitted(ignored, root, path, l.entries[i]) && !Admitted(ignored, root, path, l'.entries[i])
    requires n <= |l.entries|
    ensures Pushed(ignored, root, path, l, n) == Pushed(ignored, root, path, l', n)
    decreases n
  {
    if n > 0 {
      PushedUnchanged(ignored, root, path, l, l', i, n - 1);
    }
  }

  /** An entry named `.git` is dropped whatever the ignorer says, file or
      directory: the result is as if it could not be read. (`root <= path`
      holds of every call the walk makes.) */
  lemma GitEntryDropped(ignored: Ignorer, root: Path, path: Path, entries: seq<Entry>, i: nat)
    requires i < |entries| && !entries[i].Unreadable? && entries[i].name == GitDir
    requires root <= path
    ensures FileItems(ignored, root, path, Listed(entries)) == FileItems(ignored, root, path, Listed(entries[i := Unreadable]))
  {
    var p := path + [GitDir];
    assert root <= p;
    assert RelativeTo(p, root) == p[|root|..];
    assert Skipped(ignored, root, p);
    SkippedEntryNeverEntered(ignored, root, path, entries, i, Unreadable);
  }
}
