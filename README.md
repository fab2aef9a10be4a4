# Directory-tree builder of the tree story

This project models `build_file_items`, the directory walk behind the file
tree of the story application: given an ignorer, the walk's `root` and the
directory `path` being listed, it

- lists the directory and drops every entry the iterator fails to read; a
  directory that cannot be listed yields no items;
- takes each entry's path relative to the original `root`, and skips the entry
  when the ignorer rejects that relative path or when its last component is
  `.git`;
- labels each remaining entry with its file name, or `"Unknown"` when the name
  is not valid UTF-8, and gives it its full path as id;
- turns files into leaf items, and directories into items whose children are
  the walk of that directory, with the same `root`;
- sorts the level with `sort_by` (stable): folders first, then labels in
  ascending order.

The filesystem is a finite value (`FileTree.Entry`, `FileTree.Listing`): a
`Listing` is what `read_dir` gives for a directory, an `Entry` is one item of
its iterator (an error, a non-directory or a directory with its own listing).
The ignorer is an arbitrary function from relative path strings to `bool`.
Paths are lists of operating-system names (`Paths.OsName`), which are valid
UTF-8 or known only through their lossy rendering; `Paths.Display` is
`to_string_lossy`, joining components with `/`.

`FileTree.BuildFileItems` is the walk as the source writes it: a loop that
pushes into a sequence, recursing into directories, followed by
`StableSort.SortItems`, an insertion sort written as a loop. Each is proved
equal to a specification function (`FileTree.FileItems`, `StableSort.Sort`),
and the properties are lemmas about those functions.

Modules: `Wrappers` (Option), `Paths`, `TreeItems` (the item, `is_folder` and
the comparator), `StableSort`, `FileTree` (the walk), `Scenarios` (three
concrete walks).

`TreeItem::is_folder` is defined in the gpui-component tree module, outside
`tree_story.rs`. It is modelled as "has at least one child", which is how that
module defines it, and the sort lemmas are stated in terms of it. So a
directory that is empty, cannot be listed, or has every entry skipped sorts
among the files. For a directory holding `b/x.txt`, an empty `a` and `z.txt`,
the walk gives `b`, `a`, `z.txt`: an empty directory is not placed before the
files (`Scenarios.EmptyDirectorySortsAmongFiles`).

## Model

| member | source | states |
|---|---|---|
| `FileTree.BuildFileItems` | crates/story/src/stories/tree_story.rs:36-67 | the loop-and-sort method returns exactly `FileItems` of its arguments; a directory whose listing fails gives the empty list; the result is sorted |
| `FileTree.FileItems` | crates/story/src/stories/tree_story.rs:36-67 | the specification of the walk: empty when the directory cannot be listed, otherwise the stable sort of the items pushed for its entries |
| `FileTree.Pushed` | crates/story/src/stories/tree_story.rs:38-58 | the vector after the loop has seen the first `n` entries: the previous vector, plus the item of the `n`-th entry when that entry is admitted |
| `FileTree.Admitted` | crates/story/src/stories/tree_story.rs:40-46 | an entry survives `flatten` and the `continue` test: it was readable and its full path is not skipped |
| `FileTree.Skipped` | crates/story/src/stories/tree_story.rs:41-46 | the `continue` test: the ignorer rejects the lossy rendering of the root-relative path, or that path ends in `.git` |
| `FileTree.ItemOf` | crates/story/src/stories/tree_story.rs:47-58 | the pushed item: the full path's lossy rendering as id, `Label` of the name as label, no children for a non-directory and the walk of the directory, with the same root, for a directory |
| `FileTree.FileItemsMembers` | crates/story/src/stories/tree_story.rs:38-58 | an item is in the result iff the directory could be listed and some entry yields it: the entry was readable, its root-relative path is not ignored and does not end in `.git`, the item's id is the entry's full path, its label is the entry's name or "Unknown", and its children are empty for a file and exactly the recursive walk for a directory |
| `FileTree.PushedOrigin` | crates/story/src/stories/tree_story.rs:39-58 | every item in the vector after the first `n` entries was pushed for one of them, an admitted one, and is its item |
| `FileTree.PushedContains` | crates/story/src/stories/tree_story.rs:39-58 | every admitted entry among the first `n` has its item in the vector |
| `FileTree.ResultItemOrigin` | crates/story/src/stories/tree_story.rs:47-58 | every item of the result is the item of some admitted entry of the listing |
| `FileTree.FileItemsSortedStable` | crates/story/src/stories/tree_story.rs:53-66 | the result is a permutation of what the loop pushed, with folders before non-folders, labels non-decreasing within each kind, and tied items in the order they were pushed |
| `FileTree.SortedAtEveryLevel` | crates/story/src/stories/tree_story.rs:53-65 | every children list at every depth of the tree is sorted by the comparator |
| `FileTree.FileItemsTraced` | crates/story/src/stories/tree_story.rs:41-54 | for the walk of `root + rel`, every item at every depth stands for a path `root + rel + [n] + ...` each of whose root-relative prefixes was neither ignored nor ended in `.git`: no ignored path and no descendant of one appears anywhere, and relative paths are always taken against the original root |
| `FileTree.SkippedEntryNeverEntered` | crates/story/src/stories/tree_story.rs:42-54 | replacing a skipped entry by any other skipped entry, whatever lies below either, leaves the result unchanged: the walk never enters a skipped directory |
| `FileTree.PushedUnchanged` | crates/story/src/stories/tree_story.rs:39-58 | the pushed vector does not depend on an entry that the loop skips |
| `FileTree.GitEntryDropped` | crates/story/src/stories/tree_story.rs:43 | for any ignorer, an entry named `.git`, file or directory, contributes nothing: the result equals the one with that entry unreadable |
| `FileTree.Label` | crates/story/src/stories/tree_story.rs:47-51 | a valid UTF-8 name is its own label; any other name gets "Unknown" |
| `StableSort.SortItems` | crates/story/src/stories/tree_story.rs:61-65 | the insertion-sort method returns `Sort` of its input, which is sorted and a permutation of it |
| `StableSort.Sort` | crates/story/src/stories/tree_story.rs:61-65 | the sort as a function: each item in turn inserted into the sorted run of those before it |
| `StableSort.Insert` | crates/story/src/stories/tree_story.rs:61-65 | `x` placed before the first item it is strictly below, so after every item it ties with |
| `StableSort.InsertItem` | crates/story/src/stories/tree_story.rs:61-65 | one insertion step places the item before the first item it is strictly below |
| `StableSort.SortSortedPermutation` | crates/story/src/stories/tree_story.rs:61-65 | `Sort` returns a sorted permutation of its input |
| `StableSort.SortStable` | crates/story/src/stories/tree_story.rs:61-65 | `Sort` keeps the input order among items that tie under the comparator |
| `StableSort.SortUnique` | crates/story/src/stories/tree_story.rs:61-65 | any sorted sequence that keeps the input order among ties equals `Sort` of the input, so every stable sort under this comparator gives the same result |
| `StableSort.SortedTiesDetermine` | crates/story/src/stories/tree_story.rs:61-65 | two sorted sequences with the same tie subsequences are equal |
| `StableSort.SortedIff` | crates/story/src/stories/tree_story.rs:61-65 | sorted under the comparator iff folders come first and labels ascend within each kind |
| `StableSort.InsertSorted` | crates/story/src/stories/tree_story.rs:61-65 | inserting into a sorted run keeps it sorted |
| `StableSort.InsertTies` | crates/story/src/stories/tree_story.rs:61-65 | inserting into a sorted run puts the new item after every item it ties with |
| `StableSort.InsertPermutes` | crates/story/src/stories/tree_story.rs:61-65 | inserting adds exactly the new item |
| `TreeItems.CompareEqual` | crates/story/src/stories/tree_story.rs:61-65 | the comparator ties exactly the items of the same kind and label |
| `TreeItems.CompareFlip` | crates/story/src/stories/tree_story.rs:61-65 | swapping the comparator's arguments reverses its outcome |
| `TreeItems.CompareTrans` | crates/story/src/stories/tree_story.rs:61-65 | the comparator is transitive, strictly so when one step is strict |
| `TreeItems.CompareTotal` | crates/story/src/stories/tree_story.rs:61-65 | any two items are ordered one way or the other |
| `TreeItems.CmpStrEqual` | crates/story/src/stories/tree_story.rs:64 | labels compare equal exactly when they are the same string |
| `TreeItems.CmpStrFlip` | crates/story/src/stories/tree_story.rs:64 | label comparison is antisymmetric |
| `TreeItems.CmpStrTrans` | crates/story/src/stories/tree_story.rs:64 | label comparison is transitive |
| `TreeItems.CmpBool` | crates/story/src/stories/tree_story.rs:62-63 | `false` orders below `true`, so `b.is_folder().cmp(&a.is_folder())` puts folders first |
| `TreeItems.IsFolder` | crates/story/src/stories/tree_story.rs:62-63 | an item is a folder when it has at least one child |
| `TreeItems.CmpStr` | crates/story/src/stories/tree_story.rs:64 | `str::cmp`: code-point lexicographic order, a proper prefix first |
| `TreeItems.Compare` | crates/story/src/stories/tree_story.rs:61-65 | the `sort_by` comparator: reversed folder comparison, then labels |
| `Paths.StripPrefix` | crates/story/src/stories/tree_story.rs:41 | stripping succeeds iff the base is a leading run of the path's components, and then base plus rest is the path |
| `Paths.RelativeToBelowRoot` | crates/story/src/stories/tree_story.rs:41 | a path below the root is made relative without the `unwrap_or` fallback: the relative path is exactly the components after the root |
| `Paths.ToStr` | crates/story/src/stories/tree_story.rs:49 | a name converts to text iff it is valid UTF-8, and then to that text |
| `Paths.Display` | crates/story/src/stories/tree_story.rs:42-52 | `to_string_lossy`: the components' lossy renderings joined by `/` |
| `Paths.RelativeTo` | crates/story/src/stories/tree_story.rs:41 | `strip_prefix(root).unwrap_or(&path)`: the components after `root` when `root` leads the path, otherwise the whole path |
| `Paths.EndsWith` | crates/story/src/stories/tree_story.rs:43 | `ends_with(".git")` with a one-component argument: the path is non-empty and its last component is that name |
| `Wrappers.Option.UnwrapOr` | crates/story/src/stories/tree_story.rs:41-50 | the carried value of `Some`, the default for `None` |
| `Scenarios.EmptyDirectorySortsAmongFiles` | crates/story/src/stories/tree_story.rs:36-67 | for `r` holding `b/x.txt`, an empty `a` and `z.txt` with nothing ignored, the result is `b` (with child `x.txt`), then `a`, then `z.txt` |
| `Scenarios.IgnoredDirectoryAbsent` | crates/story/src/stories/tree_story.rs:42-46 | the same tree with `b` ignored gives `a`, then `z.txt`: neither `b` nor `x.txt` below it appears |
| `Scenarios.LossyIdsCollide` | crates/story/src/stories/tree_story.rs:47-52 | a file named U+FFFD and a file whose invalid name renders as U+FFFD give two items with the same id `r/U+FFFD`, labelled `Unknown` and U+FFFD |

## Left out

- `TreeStory::load_files` (tree_story.rs:74-83): the background task, `detach` and the hand-off of the items to the tree state are scheduling and UI plumbing. Its call `build_file_items(&ignorer, &path, &path)` is the case `rel == []` of `FileTree.FileItemsTraced`.
- `Ignorer` and its pattern grammar come from the `autocorrect` crate, which is not part of this model; the ignorer is an arbitrary predicate.
- Real filesystem calls (`read_dir`, `DirEntry`, `is_dir`, symlink following) are replaced by the finite `Entry` tree. The source has no guard against symlink cycles or deep trees; a finite tree cannot show that.
- Path rendering covers only names joined by `/`. Leading root separators, Windows prefixes and the platform separator are not modelled.
- A non-UTF-8 name is known only through its lossy rendering, so two distinct non-UTF-8 names with the same rendering are one `OsName` value in the model and cannot be told apart. Id collisions between a valid name and a non-UTF-8 one with the same rendering are still visible: `Scenarios.LossyIdsCollide` exhibits one.
- `sort_by` sorts the vector in place with the standard library's algorithm. The model sorts a sequence value with an insertion sort. `StableSort.SortUnique` shows that every stable sort under this comparator gives the same result.
- The item's expanded and disabled state in the tree component are never set by the walk and are not modelled.
- The walk returns the children of the root, not a root item. So there is no root node to filter.
- Rendering, key bindings, selection and rename actions (tree_story.rs:24-29, 96-207) are UI.
- `examples/json_formatter/src/main.rs` hands text to external JSON parsers and widgets. `examples/json_formatter/src/assets.rs` returns constants. Neither has logic of its own to model.
