/**
 * Concrete walks. Most walk the tree `r` holding a directory `b` (with the
 * file `x.txt`), an empty directory `a` and a file `z.txt`, listed in that
 * order; `LossyIdsCollide` walks `r` holding two files whose names render
 * alike.
 */
module Scenarios {
  import opened Paths
  import opened TreeItems
  import opened StableSort
  import opened FileTree

  const Root: Path := [Utf8("r")]
  const X: Entry := File(Utf8("x.txt"))
  const B: Entry := Dir(Utf8("b"), Listed([X]))
  const A: Entry := Dir(Utf8("a"), Listed([]))
  const Z: Entry := File(Utf8("z.txt"))

  const XItem: TreeItem := TreeItem("r/b/x.txt", "x.txt", [])
  const BItem: TreeItem := TreeItem("r/b", "b", [XItem])
  const AItem: TreeItem := TreeItem("r/a", "a", [])
  const ZItem: TreeItem := TreeItem("r/z.txt", "z.txt", [])

  /** Display of the paths the two walks meet. */
  lemma Displays()
    ensures Display(Root + [Utf8("b")]) == "r/b"
    ensures Display(Root + [Utf8("a")]) == "r/a"
    ensures Display(Root + [Utf8("z.txt")]) == "r/z.txt"
    ensures Display(Root + [Utf8("b")] + [Utf8("x.txt")]) == "r/b/x.txt"
  {
    DisplayAppend(Root, Utf8("b"));
    DisplayAppend(Root, Utf8("a"));
    DisplayAppend(Root, Utf8("z.txt"));
    DisplayAppend(Root + [Utf8("b")], Utf8("x.txt"));
  }

  lemma SortSingle(x: TreeItem)
    ensures Sort([x]) == [x]
  {
    assert [x][..0] == [];
  }

  /** The file `x.txt` in `b` is admitted and yields its leaf item. */
  lemma ItemOfX(ignored: Ignorer)
    requires !ignored("b/x.txt")
    ensures Admitted(ignored, Root, Root + [Utf8("b")], X)
    ensures ItemOf(ignored, Root, Root + [Utf8("b")], X) == XItem
  {
    var p := Root + [Utf8("b")] + [Utf8("x.txt")];
    RelativeToBelowRoot(Root, [Utf8("b"), Utf8("x.txt")]);
    assert Root + [Utf8("b"), Utf8("x.txt")] == p;
    assert RelativeTo(p, Root) == [Utf8("b"), Utf8("x.txt")];
    assert Display([Utf8("b"), Utf8("x.txt")]) == "b/x.txt" by {
      DisplayAppend([Utf8("b")], Utf8("x.txt"));
    }
    assert Display(p) == "r/b/x.txt" by {
      DisplayAppend(Root, Utf8("b"));
      DisplayAppend(Root + [Utf8("b")], Utf8("x.txt"));
    }
  }

  /** The walk of `b` with an ignorer that rejects nothing below the root. */
  lemma WalkOfB(ignored: Ignorer)
    requires !ignored("b/x.txt")
    ensures FileItems(ignored, Root, Root + [Utf8("b")], Listed([X])) == [XItem]
  {
    ItemOfX(ignored);
    var l := Listed([X]);
    assert Pushed(ignored, Root, Root + [Utf8("b")], l, 1) == [XItem];
    SortSingle(XItem);
  }

  /** The three entries of `r` that are not ignored yield their items. */
  lemma ItemsOfRoot(ignored: Ignorer)
    requires !ignored("a") && !ignored("z.txt") && !ignored("b/x.txt")
    ensures !ignored("b") ==> Admitted(ignored, Root, Root, B) && ItemOf(ignored, Root, Root, B) == BItem
    ensures Admitted(ignored, Root, Root, A) && ItemOf(ignored, Root, Root, A) == AItem
    ensures Admitted(ignored, Root, Root, Z) && ItemOf(ignored, Root, Root, Z) == ZItem
    ensures ignored("b") ==> !Admitted(ignored, Root, Root, B)
  {
    RelativeToBelowRoot(Root, [Utf8("b")]);
    RelativeToBelowRoot(Root, [Utf8("a")]);
    RelativeToBelowRoot(Root, [Utf8("z.txt")]);
    Displays();
    WalkOfB(ignored);
    assert FileItems(ignored, Root, Root + [Utf8("a")], Listed([])) == [];
  }

  /** The order the comparator gives the three items. */
  lemma SortsOfRoot()
    ensures Sort([BItem, AItem, ZItem]) == [BItem, AItem, ZItem]
    ensures Sort([AItem, ZItem]) == [AItem, ZItem]
  {
    assert Compare(AItem, BItem) == Greater;
    assert Compare(ZItem, AItem) == Greater;
    assert Compare(ZItem, BItem) == Greater;
    SortSingle(BItem);
    SortSingle(AItem);
    assert [BItem, AItem][..1] == [BItem];
    assert [AItem, ZItem][..1] == [AItem];
    assert [BItem, AItem, ZItem][..2] == [BItem, AItem];
    assert Insert([], AItem) == [AItem];
    assert Insert([], ZItem) == [ZItem];
    assert Insert([BItem], AItem) == [BItem, AItem];
    assert Insert([AItem], ZItem) == [AItem, ZItem];
    assert Insert([BItem, AItem], ZItem) == [BItem] + Insert([AItem], ZItem);
  }

  /** With nothing ignored, `b` comes first as the only folder; the empty
      directory `a` has no children, so it is not a folder and sorts with
      the file `z.txt`, by label. */
  lemma EmptyDirectorySortsAmongFiles()
    ensures FileItems((s: string) => false, Root, Root, Listed([B, A, Z])) == [BItem, AItem, ZItem]
  {
    var none: Ignorer := (s: string) => false;
    var l := Listed([B, A, Z]);
    ItemsOfRoot(none);
    assert Pushed(none, Root, Root, l, 1) == [BItem];
    assert Pushed(none, Root, Root, l, 2) == [BItem, AItem];
    assert Pushed(none, Root, Root, l, 3) == [BItem, AItem, ZItem];
    SortsOfRoot();
  }

  /** When the ignorer rejects `b`, neither `b` nor `x.txt` below it appears. */
  lemma IgnoredDirectoryAbsent()
    ensures FileItems((s: string) => s == "b", Root, Root, Listed([B, A, Z])) == [AItem, ZItem]
  {
    var onlyB: Ignorer := (s: string) => s == "b";
    var l := Listed([B, A, Z]);
    ItemsOfRoot(onlyB);
    assert Pushed(onlyB, Root, Root, l, 1) == [];
    assert Pushed(onlyB, Root, Root, l, 2) == [AItem];
    assert Pushed(onlyB, Root, Root, l, 3) == [AItem, ZItem];
    SortsOfRoot();
  }

  const ReplacementCharName: OsName := Utf8("\U{FFFD}")
  const InvalidName: OsName := NonUtf8("\U{FFFD}")

  /** A file really named U+FFFD and a file whose invalid name renders as
      U+FFFD get the same id; only their labels tell them apart. */
  lemma LossyIdsCollide()
    ensures FileItems((s: string) => false, Root, Root, Listed([File(ReplacementCharName), File(InvalidName)])) ==
      [TreeItem("r/\U{FFFD}", "Unknown", []), TreeItem("r/\U{FFFD}", "\U{FFFD}", [])]
  {
    var none: Ignorer := (s: string) => false;
    var l := Listed([File(ReplacementCharName), File(InvalidName)]);
    var v := TreeItem("r/\U{FFFD}", "\U{FFFD}", []);
    var u := TreeItem("r/\U{FFFD}", "Unknown", []);
    RelativeToBelowRoot(Root, [ReplacementCharName]);
    RelativeToBelowRoot(Root, [InvalidName]);
    DisplayAppend(Root, ReplacementCharName);
    DisplayAppend(Root, InvalidName);
    assert ItemOf(none, Root, Root, File(ReplacementCharName)) == v;
    assert ItemOf(none, Root, Root, File(InvalidName)) == u;
    assert Pushed(none, Root, Root, l, 1) == [v];
    assert Pushed(none, Root, Root, l, 2) == [v, u];
    assert Compare(u, v) == Less;
    SortSingle(v);
    assert [v, u][..1] == [v];
    assert Sort([v, u]) == Insert([v], u);
  }
}
