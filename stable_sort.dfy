/**
 * The `items.sort_by(...)` step of the directory walk: a stable sort of one
 * level under the folders-first, then-by-label comparator. `Sort` is the
 * specification (an insertion sort, which is stable), `SortItems` the method
 * that carries it out; `SortUnique` shows that any stable sort gives the same
 * result, so the choice of algorithm does not matter.
 */
module StableSort {
  import opened TreeItems

  /** Every item may stand before every later one. */
  predicate Sorted(s: seq<TreeItem>) {
    forall i, j :: 0 <= i < j < |s| ==> LessEq(s[i], s[j])
  }

  /** Every folder comes before every item that is not a folder. */
  predicate FoldersFirst(s: seq<TreeItem>) {
    forall i, j :: 0 <= i < j < |s| && IsFolder(s[j]) ==> IsFolder(s[i])
  }

  /** Among the items of one kind, labels do not decrease. */
  predicate CaptionsAscendingByKind(s: seq<TreeItem>) {
    forall i, j :: 0 <= i < j < |s| && IsFolder(s[i]) == IsFolder(s[j]) ==>
      LabelLessEq(s[i].caption, s[j].caption)
  }

  /** The items of `s` that tie with `y`, in the order `s` has them. */
  function Ties(s: seq<TreeItem>, y: TreeItem): seq<TreeItem> {
    if |s| == 0 then []
    else (if SameKey(s[0], y) then [s[0]] else []) + Ties(s[1..], y)
  }

  /** `x` placed into `s` before the first item it is strictly below, so after
      every item it ties with. */
  function Insert(s: seq<TreeItem>, x: TreeItem): seq<TreeItem> {
    if |s| == 0 then [x]
    else if Compare(x, s[0]) == Less then [x] + s
    else [s[0]] + Insert(s[1..], x)
  }

  /** Insertion sort: each item in turn, from the first, is inserted into the
      sorted run of the ones before it. */
  function Sort(s: seq<TreeItem>): seq<TreeItem> {
    if |s| == 0 then [] else Insert(Sort(s[..|s| - 1]), s[|s| - 1])
  }

  /** Sorted means exactly: folders first, and labels ascending within each kind. */
  lemma SortedIff(s: seq<TreeItem>)
    ensures Sorted(s) <==> FoldersFirst(s) && CaptionsAscendingByKind(s)
  {
    forall i, j | 0 <= i < j < |s| {
      LessEqMeans(s[i], s[j]);
    }
  }

  lemma {:induction false} TiesAppend(a: seq<TreeItem>, b: seq<TreeItem>, y: TreeItem)
    ensures Ties(a + b, y) == Ties(a, y) + Ties(b, y)
  {
    if |a| > 0 {
      assert (a + b)[1..] == a[1..] + b;
      TiesAppend(a[1..], b, y);
    } else {
      assert a + b == b;
    }
  }

  lemma {:induction false} TiesMembers(s: seq<TreeItem>, y: TreeItem, e: TreeItem)
    ensures e in Ties(s, y) <==> e in s && SameKey(e, y)
  {
    if |s| > 0 {
      TiesMembers(s[1..], y, e);
      assert s == [s[0]] + s[1..];
    }
  }

  /** Inserting adds exactly `x`. */
  lemma {:induction false} InsertPermutes(s: seq<TreeItem>, x: TreeItem)
    ensures multiset(Insert(s, x)) == multiset(s) + multiset{x}
  {
    if |s| > 0 && Compare(x, s[0]) != Less {
      InsertPermutes(s[1..], x);
      assert s == [s[0]] + s[1..];
    }
  }

  /** Every item of a sorted run that starts above `x` is strictly above `x`. */
  lemma AllAbove(s: seq<TreeItem>, x: TreeItem)
    requires Sorted(s) && |s| > 0 && Compare(x, s[0]) == Less
    ensures forall k :: 0 <= k < |s| ==> Compare(x, s[k]) == Less
  {
    forall k | 0 < k < |s| ensures Compare(x, s[k]) == Less {
      CompareTrans(x, s[0], s[k]);
    }
  }

  /** Inserting into a sorted run keeps it sorted. */
  lemma {:induction false} InsertSorted(s: seq<TreeItem>, x: TreeItem)
    requires Sorted(s)
    ensures Sorted(Insert(s, x))
  {
    if |s| == 0 {
    } else if Compare(x, s[0]) == Less {
      AllAbove(s, x);
    } else {
      var t := Insert(s[1..], x);
      InsertSorted(s[1..], x);
      InsertPermutes(s[1..], x);
      CompareFlip(x, s[0]);
      forall k | 0 <= k < |t| ensures LessEq(s[0], t[k]) {
        assert t[k] in multiset(s[1..]) + multiset{x};
        if t[k] != x {
          var m :| 0 <= m < |s[1..]| && s[1..][m] == t[k];
          assert s[1 + m] == t[k];
        }
      }
    }
  }

  /** Items strictly above `x` never tie with something that ties with `x`. */
  lemma {:induction false} NoTiesAbove(s: seq<TreeItem>, x: TreeItem, y: TreeItem)
    requires forall k :: 0 <= k < |s| ==> Compare(x, s[k]) == Less
    requires SameKey(x, y)
    ensures Ties(s, y) == []
  {
    if |s| > 0 {
      CompareEqual(x, s[0]);
      NoTiesAbove(s[1..], x, y);
    }
  }

  /** Inserting into a sorted run puts `x` after every item it ties with. */
  lemma {:induction false} InsertTies(s: seq<TreeItem>, x: TreeItem, y: TreeItem)
    requires Sorted(s)
    ensures Ties(Insert(s, x), y) == Ties(s, y) + (if SameKey(x, y) then [x] else [])
  {
    if |s| == 0 {
    } else if Compare(x, s[0]) == Less {
      if SameKey(x, y) {
        AllAbove(s, x);
        NoTiesAbove(s, x, y);
      }
      assert ([x] + s)[1..] == s;
    } else {
      var t := Insert(s[1..], x);
      InsertTies(s[1..], x, y);
      assert ([s[0]] + t)[1..] == t;
      assert Ties([s[0]] + t, y) == (if SameKey(s[0], y) then [s[0]] else []) + Ties(t, y);
    }
  }

  /** The sort returns a sorted permutation of its input. */
  lemma {:induction false} SortSortedPermutation(s: seq<TreeItem>)
    ensures Sorted(Sort(s))
    ensures multiset(Sort(s)) == multiset(s)
    ensures |Sort(s)| == |s|
  {
    if |s| > 0 {
      var init, last := s[..|s| - 1], s[|s| - 1];
      assert s == init + [last];
      SortSortedPermutation(init);
      var r := Sort(init);
      InsertSorted(r, last);
      InsertPermutes(r, last);
      assert |Insert(r, last)| == |multiset(Insert(r, last))|;
    }
  }

  /** The sort is stable: items that tie keep the order the input has them in. */
  lemma {:induction false} SortStable(s: seq<TreeItem>, y: TreeItem)
    ensures Ties(Sort(s), y) == Ties(s, y)
  {
    if |s| > 0 {
      var init, last := s[..|s| - 1], s[|s| - 1];
      assert s == init + [last];
      SortStable(init, y);
      SortSortedPermutation(init);
      var r := Sort(init);
      InsertTies(r, last, y);
      TiesAppend(init, [last], y);
      assert [last][1..] == [];
    }
  }

  /** A sequence is empty exactly when nothing ties with anything in it. */
  lemma EmptyIffNoTies(s: seq<TreeItem>)
    ensures |s| == 0 <==> forall y :: Ties(s, y) == []
  {
    if |s| > 0 {
      assert Ties(s, s[0]) == [s[0]] + Ties(s[1..], s[0]);
    }
  }

  /** Two sorted sequences in which every item's ties come in the same order
      are equal. */
  lemma {:induction false} SortedTiesDetermine(t: seq<TreeItem>, u: seq<TreeItem>)
    requires Sorted(t) && Sorted(u)
    requires forall y :: Ties(t, y) == Ties(u, y)
    ensures t == u
    decreases |t|
  {
    EmptyIffNoTies(t);
    EmptyIffNoTies(u);
    assert (|t| == 0) == (|u| == 0);
    if |t| > 0 {
      var a, b := t[0], u[0];
      TiesMembers(u, a, a);
      TiesMembers(t, b, b);
      assert a in Ties(t, a);
      assert b in Ties(u, b);
      CompareEqual(a, a);
      CompareEqual(b, b);
      assert LessEq(b, a) by {
        var j :| 0 <= j < |u| && u[j] == a;
      }
      assert LessEq(a, b) by {
        var j :| 0 <= j < |t| && t[j] == b;
      }
      CompareFlip(a, b);
      CompareEqual(a, b);
      assert Ties(t, a)[0] == a;
      assert Ties(u, a)[0] == b;
      assert a == b;
      forall y ensures Ties(t[1..], y) == Ties(u[1..], y) {
        var head := if SameKey(a, y) then [a] else [];
        assert Ties(t, y) == head + Ties(t[1..], y);
        assert Ties(u, y) == head + Ties(u[1..], y);
        assert Ties(t[1..], y) == Ties(t, y)[|head|..];
        assert Ties(u[1..], y) == Ties(u, y)[|head|..];
      }
      SortedTiesDetermine(t[1..], u[1..]);
      assert t == [a] + t[1..] && u == [b] + u[1..];
    }
  }

  /** `Sort` is the only stable sort: any sorted sequence that keeps the input's
      order among ties is `Sort` of it. */
  lemma SortUnique(s: seq<TreeItem>, t: seq<TreeItem>)
    requires Sorted(t)
    requires forall y :: Ties(t, y) == Ties(s, y)
    ensures t == Sort(s)
  {
    SortSortedPermutation(s);
    forall y ensures Ties(t, y) == Ties(Sort(s), y) {
      SortStable(s, y);
    }
    SortedTiesDetermine(t, Sort(s));
  }

  /** One insertion step: finds the first item `x` is strictly below. */
  method InsertItem(sorted: seq<TreeItem>, x: TreeItem) returns (r: seq<TreeItem>)
    ensures r == Insert(sorted, x)
  {
    var j := 0;
    while j < |sorted| && Compare(x, sorted[j]) != Less
      invariant 0 <= j <= |sorted|
      invariant Insert(sorted, x) == sorted[..j] + Insert(sorted[j..], x)
    {
      assert sorted[j..][1..] == sorted[j + 1..];
      assert sorted[..j + 1] == sorted[..j] + [sorted[j]];
      j := j + 1;
    }
    r := sorted[..j] + [x] + sorted[j..];
  }

  /** `items.sort_by(|a, b| b.is_folder().cmp(&a.is_folder()).then(a.label.cmp(&b.label)))`. */
  method SortItems(items: seq<TreeItem>) returns (sorted: seq<TreeItem>)
    ensures sorted == Sort(items)
    ensures Sorted(sorted) && multiset(sorted) == multiset(items)
  {
    sorted := [];
    for i := 0 to |items|
      invariant sorted == Sort(items[..i])
    {
      assert items[..i + 1][..i] == items[..i];
      sorted := InsertItem(sorted, items[i]);
    }
    assert items[..|items|] == items;
    SortSortedPermutation(items);
  }
}
