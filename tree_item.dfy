/**
 * The items the directory walk builds, and the two-key comparator it sorts
 * each level with. `TreeItem` follows the tree component's item: an id, a
 * label (`caption` here: `label` is a Dafny keyword) and the list of
 * children; an item "is a folder" when that list is not empty.
 */
module TreeItems {

  datatype TreeItem = TreeItem(id: string, caption: string, children: seq<TreeItem>)

  /** `TreeItem::new(id, label)`: a leaf captioned `caption`. */
  function NewItem(id: string, caption: string): TreeItem {
    TreeItem(id, caption, [])
  }

  /** `TreeItem::children`: extends the item's children with `children`. */
  function WithChildren(item: TreeItem, children: seq<TreeItem>): TreeItem {
    item.(children := item.children + children)
  }

  /** `TreeItem::is_folder`: the item has at least one child. */
  predicate IsFolder(item: TreeItem) {
    |item.children| > 0
  }

  /** Rust's `std::cmp::Ordering`. */
  datatype Ordering = Less | Equal | Greater {

    /** `Ordering::reverse`. */
    function Reverse(): Ordering {
      match this
      case Less => Greater
      case Equal => Equal
      case Greater => Less
    }

    /** `Ordering::then`: this ordering, unless it is `Equal`. */
    function Then(other: Ordering): Ordering {
      if this == Equal then other else this
    }
  }

  /** `bool::cmp`: `false` is below `true`. */
  function CmpBool(a: bool, b: bool): (r: Ordering)
    ensures r == Equal <==> a == b
    ensures r == Less <==> !a && b
  {
    if a == b then Equal else if b then Less else Greater
  }

  /** `str::cmp`: lexicographic, character by character (by code point, which
      is also the order of the UTF-8 bytes); a proper prefix comes first. */
  function CmpStr(a: string, b: string): Ordering
  {
    if |a| == 0 then (if |b| == 0 then Equal else Less)
    else if |b| == 0 then Greater
    else if a[0] < b[0] then Less
    else if b[0] < a[0] then Greater
    else CmpStr(a[1..], b[1..])
  }

  /** The comparator of the directory walk's `sort_by`: folders first
      (`b.is_folder().cmp(&a.is_folder())`), then labels ascending. */
  function Compare(a: TreeItem, b: TreeItem): Ordering {
    CmpBool(IsFolder(b), IsFolder(a)).Then(CmpStr(a.caption, b.caption))
  }

  /** `a` may stand before `b` in a sorted level. */
  predicate LessEq(a: TreeItem, b: TreeItem) {
    Compare(a, b) != Greater
  }

  /** `a` and `b` tie under the comparator: same kind and same label. */
  predicate SameKey(a: TreeItem, b: TreeItem) {
    IsFolder(a) == IsFolder(b) && a.caption == b.caption
  }

  /** `a` is at most `b` in label order. */
  predicate LabelLessEq(a: string, b: string) {
    CmpStr(a, b) != Greater
  }

  /** Labels compare `Equal` exactly when they are the same string. */
  lemma {:induction false} CmpStrEqual(a: string, b: string)
    ensures CmpStr(a, b) == Equal <==> a == b
  {
    if |a| > 0 && |b| > 0 && a[0] == b[0] {
      CmpStrEqual(a[1..], b[1..]);
      assert a == [a[0]] + a[1..] && b == [b[0]] + b[1..];
    }
  }

  /** Comparing the other way round reverses the outcome. */
  lemma {:induction false} CmpStrFlip(a: string, b: string)
    ensures CmpStr(b, a) == CmpStr(a, b).Reverse()
  {
    if |a| > 0 && |b| > 0 && a[0] == b[0] {
      CmpStrFlip(a[1..], b[1..]);
    }
  }

  /** Label order is transitive, and strictly so when one step is strict. */
  lemma {:induction false} CmpStrTrans(a: string, b: string, c: string)
    requires CmpStr(a, b) != Greater && CmpStr(b, c) != Greater
    ensures CmpStr(a, c) != Greater
    ensures CmpStr(a, b) == Less || CmpStr(b, c) == Less ==> CmpStr(a, c) == Less
  {
    if |a| > 0 && |b| > 0 && |c| > 0 && a[0] == b[0] == c[0] {
      CmpStrTrans(a[1..], b[1..], c[1..]);
    }
  }

  /** The comparator ties exactly the items with the same kind and label. */
  lemma CompareEqual(a: TreeItem, b: TreeItem)
    ensures Compare(a, b) == Equal <==> SameKey(a, b)
  {
    CmpStrEqual(a.caption, b.caption);
  }

  /** The comparator is antisymmetric: swapping its arguments reverses it. */
  lemma CompareFlip(a: TreeItem, b: TreeItem)
    ensures Compare(b, a) == Compare(a, b).Reverse()
  {
    CmpStrFlip(a.caption, b.caption);
  }

  /** The comparator is transitive, strictly so when one step is strict, as
      `sort_by` requires of a total order. */
  lemma CompareTrans(a: TreeItem, b: TreeItem, c: TreeItem)
    requires LessEq(a, b) && LessEq(b, c)
    ensures LessEq(a, c)
    ensures Compare(a, b) == Less || Compare(b, c) == Less ==> Compare(a, c) == Less
  {
    if IsFolder(a) == IsFolder(b) == IsFolder(c) {
      CmpStrTrans(a.caption, b.caption, c.caption);
    }
  }

  /** The comparator is total: any two items are ordered one way or the other. */
  lemma CompareTotal(a: TreeItem, b: TreeItem)
    ensures LessEq(a, b) || LessEq(b, a)
  {
    CompareFlip(a, b);
  }

  /** An item may precede another exactly when it is a folder and the other is
      not, or both are of one kind and its label is not above the other's. */
  lemma LessEqMeans(a: TreeItem, b: TreeItem)
    ensures LessEq(a, b) <==>
      (IsFolder(a) && !IsFolder(b)) ||
      (IsFolder(a) == IsFolder(b) && LabelLessEq(a.caption, b.caption))
  {
  }
}
