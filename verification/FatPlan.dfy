/** From staged files to a layout: resolving paths, grouping by directory, sorting by name. */
module FatPlan {
  import opened Bytes
  import opened ShortNames
  import opened FatLayout

  /** A host file to stage: its path text and its bytes. */
  datatype Staged = Staged(path: Text, payload: seq<byte>)

  /** Where a path puts a file, in stored names. */
  datatype Target = AtRoot(name: Text) | Inside(folder: Text, name: Text)

  function FirstSlash(s: Text): (n: nat)
    ensures n <= |s| && (n < |s| ==> s[n] == SLASH)
  {
    if s == [] || s[0] == SLASH then 0 else 1 + FirstSlash(s[1..])
  }

  /** One name at the root, or a directory and a name; anything else is refused. A second slash
      cannot be encoded. */
  function Resolve(path: Text): (r: Option<Target>) {
    var n := FirstSlash(path);
    if n == |path| then
      match Encode(path)
      case None => None
      case Some(name) => Some(AtRoot(name))
    else
      match (Encode(path[..n]), Encode(path[n + 1..]))
      case (Some(folder), Some(name)) => Some(Inside(folder, name))
      case _ => None
  }

  predicate SizeAdmitted(payload: seq<byte>) {
    0 < |payload| <= 0x100_0000
  }

  predicate Clash(a: Target, b: Target) {
    a == b || (a.AtRoot? && b.Inside? && a.name == b.folder) || (a.Inside? && b.AtRoot? && a.folder == b.name)
  }

  predicate Taken(t: Target, reserved: set<Text>) {
    if t.AtRoot? then t.name in reserved else t.folder in reserved
  }

  /** Every file resolves and has an admitted size, and no two, nor any reserved name, collide. */
  ghost predicate Admissible(staged: seq<Staged>, reserved: set<Text>) {
    && (forall i :: 0 <= i < |staged| ==>
          && SizeAdmitted(staged[i].payload) && Resolve(staged[i].path).Some?
          && !Taken(Resolve(staged[i].path).value, reserved))
    && (forall i, j :: 0 <= i < j < |staged| ==>
          !Clash(Resolve(staged[i].path).value, Resolve(staged[j].path).value))
  }

  // ---------------------------------------------------------------------------------------------
  // Sorting

  predicate Less(a: Text, b: Text) {
    if b == [] then false
    else if a == [] then true
    else a[0] < b[0] || (a[0] == b[0] && Less(a[1..], b[1..]))
  }

  function Insert<T(!new)>(s: seq<T>, x: T, key: T -> Text): (r: seq<T>)
    ensures |r| == |s| + 1 && forall y :: y in r <==> y in s || y == x
  {
    if s == [] || !Less(key(x), key(s[|s| - 1])) then s + [x]
    else
      var front, last := s[..|s| - 1], s[|s| - 1];
      assert s == front + [last];
      Insert(front, x, key) + [last]
  }

  function Sort<T(!new)>(s: seq<T>, key: T -> Text): (r: seq<T>)
    ensures |r| == |s| && forall y :: y in r <==> y in s
  {
    if s == [] then []
    else
      var front, last := s[..|s| - 1], s[|s| - 1];
      assert s == front + [last];
      Insert(Sort(front, key), last, key)
  }

  ghost predicate InOrder<T>(s: seq<T>, key: T -> Text, i: nat)
    requires i + 1 < |s|
  {
    !Less(key(s[i + 1]), key(s[i]))
  }

  ghost predicate Sorted<T>(s: seq<T>, key: T -> Text) {
    forall i :: 0 <= i < |s| - 1 ==> InOrder(s, key, i)
  }

  ghost predicate DistinctKeys<T>(s: seq<T>, key: T -> Text) {
    forall i, j :: 0 <= i < j < |s| ==> key(s[i]) != key(s[j])
  }

  /** Byte strings in dictionary order: at the first difference the smaller byte, or the shorter first. */
  lemma {:induction false} LessIff(a: Text, b: Text)
    ensures Less(a, b) <==>
      exists k :: 0 <= k <= |a| && k < |b| && a[..k] == b[..k] && (k == |a| || a[k] < b[k])
  {
    if a == [] && b != [] {
      assert a[..0] == b[..0];
    } else if a != [] && b != [] {
      LessIff(a[1..], b[1..]);
      if a[0] == b[0] && Less(a[1..], b[1..]) {
        var k :| 0 <= k <= |a| - 1 && k < |b| - 1 && a[1..][..k] == b[1..][..k] && (k == |a| - 1 || a[1..][k] < b[1..][k]);
        assert a[..k + 1] == [a[0]] + a[1..][..k] && b[..k + 1] == [b[0]] + b[1..][..k];
      } else if a[0] < b[0] {
        assert a[..0] == b[..0];
      }
      if k :| 0 < k <= |a| && k < |b| && a[..k] == b[..k] && (k == |a| || a[k] < b[k]) {
        assert a[0] == a[..k][0] == b[..k][0] == b[0];
        assert a[1..][..k - 1] == a[..k][1..] && b[1..][..k - 1] == b[..k][1..];
      }
    }
  }

  lemma {:induction false} LessIsAsymmetric(a: Text, b: Text)
    requires Less(a, b)
    ensures !Less(b, a)
  {
    if a != [] && a[0] == b[0] {
      LessIsAsymmetric(a[1..], b[1..]);
    }
  }

  lemma {:induction false} InsertKeeps<T(!new)>(s: seq<T>, x: T, key: T -> Text)
    ensures Sorted(s, key) ==> Sorted(Insert(s, x, key), key)
    ensures s != [] ==> Insert(s, x, key)[|s|] in [x, s[|s| - 1]]
  {
    if s != [] && Less(key(x), key(s[|s| - 1])) {
      var front, last := s[..|s| - 1], s[|s| - 1];
      InsertKeeps(front, x, key);
      LessIsAsymmetric(key(x), key(last));
      var r := Insert(front, x, key);
      assert Insert(s, x, key) == r + [last];
      if Sorted(s, key) {
        assert forall i :: 0 <= i < |front| - 1 ==> InOrder(s, key, i) ==> InOrder(front, key, i);
        forall i | 0 <= i < |r| ensures InOrder(r + [last], key, i) {
          if i < |r| - 1 {
            assert InOrder(r, key, i);
          } else if front != [] {
            assert InOrder(s, key, |front| - 1);
          }
        }
      }
    } else if s != [] && Sorted(s, key) {
      forall i | 0 <= i < |s| ensures InOrder(s + [x], key, i) {
        if i < |s| - 1 {
          assert InOrder(s, key, i);
        }
      }
    }
  }

  lemma {:induction false} InsertIsDistinct<T(!new)>(s: seq<T>, x: T, key: T -> Text)
    requires DistinctKeys(s, key) && forall y :: y in s ==> key(y) != key(x)
    ensures DistinctKeys(Insert(s, x, key), key)
  {
    if s != [] && Less(key(x), key(s[|s| - 1])) {
      var front, last := s[..|s| - 1], s[|s| - 1];
      InsertIsDistinct(front, x, key);
      var r := Insert(front, x, key);
      forall y | y in r ensures key(y) != key(last) {
        if y in front {
          var k :| 0 <= k < |front| && front[k] == y;
          assert key(s[k]) != key(s[|s| - 1]);
        }
      }
    }
  }

  lemma {:induction false} SortSorts<T(!new)>(s: seq<T>, key: T -> Text)
    ensures Sorted(Sort(s, key), key)
    ensures DistinctKeys(s, key) ==> DistinctKeys(Sort(s, key), key)
  {
    if s != [] {
      var front, last := s[..|s| - 1], s[|s| - 1];
      SortSorts(front, key);
      InsertKeeps(Sort(front, key), last, key);
      if DistinctKeys(s, key) {
        forall y | y in front ensures key(y) != key(last) {
          var k :| 0 <= k < |front| && front[k] == y;
          assert key(s[k]) != key(s[|s| - 1]);
        }
        InsertIsDistinct(Sort(front, key), last, key);
      }
    }
  }

  // ---------------------------------------------------------------------------------------------
  // Grouping

  function AddTo(groups: seq<Folder>, folder: Text, item: Item): (r: seq<Folder>) {
    if groups == [] then [Folder(folder, [item])]
    else if groups[0].name == folder then [Folder(folder, groups[0].items + [item])] + groups[1..]
    else [groups[0]] + AddTo(groups[1..], folder, item)
  }

  function RootItems(staged: seq<Staged>, attributes: byte): (r: seq<Item>) {
    if staged == [] then []
    else
      var front, s := RootItems(staged[..|staged| - 1], attributes), staged[|staged| - 1];
      match Resolve(s.path)
      case Some(AtRoot(name)) => front + [Item(name, attributes, s.payload)]
      case _ => front
  }

  function Groups(staged: seq<Staged>, attributes: byte): (r: seq<Folder>) {
    if staged == [] then []
    else
      var front, s := Groups(staged[..|staged| - 1], attributes), staged[|staged| - 1];
      match Resolve(s.path)
      case Some(Inside(folder, name)) => AddTo(front, folder, Item(name, attributes, s.payload))
      case _ => front
  }

  function NameOfItem(item: Item): (r: Text) {
    item.name
  }

  function NameOfFolder(folder: Folder): (r: Text) {
    folder.name
  }

  function SortedItems(groups: seq<Folder>): (r: seq<Folder>)
    ensures |r| == |groups|
    ensures forall j :: 0 <= j < |groups| ==> r[j] == Folder(groups[j].name, Sort(groups[j].items, NameOfItem))
  {
    seq(|groups|, j requires 0 <= j < |groups| => Folder(groups[j].name, Sort(groups[j].items, NameOfItem)))
  }

  function Arranged(groups: seq<Folder>): (r: seq<Folder>) {
    Sort(SortedItems(groups), NameOfFolder)
  }

  /** Some group of that name lists the item. */
  ghost predicate HasItem(groups: seq<Folder>, folder: Text, item: Item) {
    exists g :: g in groups && g.name == folder && item in g.items
  }

  ghost predicate HasFolder(groups: seq<Folder>, folder: Text) {
    exists g :: g in groups && g.name == folder
  }

  ghost predicate WellItems(items: seq<Item>) {
    && (forall x :: x in items ==> Canonical(x.name) && x.attributes in {0x20, 0x21} && SizeAdmitted(x.payload))
    && DistinctKeys(items, NameOfItem)
  }

  ghost predicate WellGrouped(groups: seq<Folder>) {
    && (forall g :: g in groups ==> Canonical(g.name) && WellItems(g.items))
    && DistinctKeys(groups, NameOfFolder)
  }

  lemma {:induction false} AddToMembers(groups: seq<Folder>, folder: Text, item: Item)
    requires DistinctKeys(groups, NameOfFolder)
    ensures forall f, x :: HasItem(AddTo(groups, folder, item), f, x) <==> HasItem(groups, f, x) || (f == folder && x == item)
    ensures forall f :: HasFolder(AddTo(groups, folder, item), f) <==> HasFolder(groups, f) || f == folder
    ensures |AddTo(groups, folder, item)| == |groups| + (if HasFolder(groups, folder) then 0 else 1)
  {
    var r := AddTo(groups, folder, item);
    if groups == [] {
      var g := Folder(folder, [item]);
      assert r == [g] && g in r;
    } else {
      var head, rest := groups[0], groups[1..];
      assert groups == [head] + rest;
      if head.name == folder {
        var g := Folder(folder, head.items + [item]);
        assert r == [g] + rest && g in r && head in groups;
        Members(g, rest);
        Members(head, rest);
        forall x | x in rest ensures x.name != folder {
          var k :| 0 <= k < |rest| && rest[k] == x;
          assert NameOfFolder(groups[0]) != NameOfFolder(groups[k + 1]);
        }
      } else {
        assert forall i, j :: 0 <= i < j < |rest| ==> rest[i] == groups[i + 1] && rest[j] == groups[j + 1];
        AddToMembers(rest, folder, item);
        assert r == [head] + AddTo(rest, folder, item);
        Members(head, rest);
        Members(head, AddTo(rest, folder, item));
      }
    }
  }

  lemma Members(head: Folder, rest: seq<Folder>)
    ensures forall f, x :: HasItem([head] + rest, f, x) <==> (head.name == f && x in head.items) || HasItem(rest, f, x)
    ensures forall f :: HasFolder([head] + rest, f) <==> head.name == f || HasFolder(rest, f)
  {
    var all := [head] + rest;
    assert forall g :: g in all <==> g == head || g in rest;
    assert head in all;
  }

  lemma {:induction false} AddToTotal(groups: seq<Folder>, folder: Text, item: Item)
    ensures FolderTotal(AddTo(groups, folder, item)) == FolderTotal(groups) + Count(item.payload)
  {
    hide Count;
    var r := AddTo(groups, folder, item);
    if groups == [] {
      SingleTotal(Folder(folder, [item]));
      assert [item][..0] == [];
    } else {
      var head, rest := groups[0], groups[1..];
      assert groups == [head] + rest;
      TotalConcat([head], rest);
      if head.name == folder {
        var more := Folder(folder, head.items + [item]);
        TotalConcat([more], rest);
        assert more.items[..|head.items|] == head.items;
        SingleTotal(head);
        SingleTotal(more);
      } else {
        AddToTotal(rest, folder, item);
        TotalConcat([head], AddTo(rest, folder, item));
      }
    }
  }

  lemma {:induction false} AddToKeeps(groups: seq<Folder>, folder: Text, item: Item)
    requires WellGrouped(groups) && Canonical(folder) && WellItems([item])
    requires forall x :: HasItem(groups, folder, x) ==> x.name != item.name
    ensures WellGrouped(AddTo(groups, folder, item))
  {
    hide Canonical, WellItems;
    if groups == [] {
      assert AddTo(groups, folder, item) == [Folder(folder, [item])];
    } else {
      var head, rest := groups[0], groups[1..];
      assert groups == [head] + rest && head in groups;
      SplitWell(head, rest);
      Members(head, rest);
      if head.name == folder {
        forall x | x in head.items ensures x.name != item.name {
          assert HasItem(groups, folder, x);
        }
        ItemsExtend(head.items, item);
        JoinWell(Folder(folder, head.items + [item]), rest);
      } else {
        AddToKeeps(rest, folder, item);
        AddToMembers(rest, folder, item);
        JoinWell(head, AddTo(rest, folder, item));
      }
    }
  }

  lemma SplitWell(head: Folder, rest: seq<Folder>)
    requires WellGrouped([head] + rest)
    ensures WellGrouped(rest) && Canonical(head.name) && WellItems(head.items) && !HasFolder(rest, head.name)
  {
    hide Canonical, WellItems;
    var groups := [head] + rest;
    assert head in groups && groups[1..] == rest;
    DistinctTail(groups, NameOfFolder);
    forall x | x in rest ensures x in groups && x.name != head.name {
      assert NameOfFolder(x) != NameOfFolder(head);
    }
  }

  lemma DistinctTail<T(!new)>(s: seq<T>, key: T -> Text)
    requires s != [] && DistinctKeys(s, key)
    ensures DistinctKeys(s[1..], key) && forall y :: y in s[1..] ==> key(y) != key(s[0])
  {
    var rest := s[1..];
    forall i, j | 0 <= i < j < |rest| ensures key(rest[i]) != key(rest[j]) {
      assert key(s[i + 1]) != key(s[j + 1]);
    }
    forall y | y in rest ensures key(y) != key(s[0]) {
      var k :| 0 <= k < |rest| && rest[k] == y;
      assert key(s[0]) != key(s[k + 1]);
    }
  }

  lemma JoinWell(head: Folder, rest: seq<Folder>)
    requires WellGrouped(rest) && Canonical(head.name) && WellItems(head.items) && !HasFolder(rest, head.name)
    ensures WellGrouped([head] + rest)
  {
    hide Canonical, WellItems;
    assert forall i :: 0 <= i < |rest| ==> rest[i] in rest;
  }

  lemma ItemsExtend(items: seq<Item>, item: Item)
    requires WellItems(items) && WellItems([item]) && forall x :: x in items ==> x.name != item.name
    ensures WellItems(items + [item])
  {
    hide Canonical;
    assert item in [item];
  }

  lemma SingleTotal(g: Folder)
    ensures FolderTotal([g]) == Total(g.items)
  {
    assert [g][..0] == [];
  }

  lemma {:induction false} TotalConcat(a: seq<Folder>, b: seq<Folder>)
    ensures FolderTotal(a + b) == FolderTotal(a) + FolderTotal(b)
  {
    if b == [] {
      assert a + b == a;
    } else {
      assert (a + b)[..|a + b| - 1] == a + b[..|b| - 1];
      TotalConcat(a, b[..|b| - 1]);
    }
  }

  // ---------------------------------------------------------------------------------------------
  // Sorting changes no total

  lemma {:induction false} InsertTotal(s: seq<Item>, x: Item)
    ensures Total(Insert(s, x, NameOfItem)) == Total(s) + Count(x.payload)
  {
    var r := Insert(s, x, NameOfItem);
    if s == [] || !Less(x.name, s[|s| - 1].name) {
      assert r[..|s|] == s;
    } else {
      var front := s[..|s| - 1];
      InsertTotal(front, x);
      assert r[..|s|] == Insert(front, x, NameOfItem);
    }
  }

  lemma {:induction false} SortTotal(s: seq<Item>)
    ensures Total(Sort(s, NameOfItem)) == Total(s)
  {
    if s != [] {
      SortTotal(s[..|s| - 1]);
      InsertTotal(Sort(s[..|s| - 1], NameOfItem), s[|s| - 1]);
    }
  }

  lemma {:induction false} InsertFolderTotal(s: seq<Folder>, x: Folder)
    ensures FolderTotal(Insert(s, x, NameOfFolder)) == FolderTotal(s) + Total(x.items)
  {
    var r := Insert(s, x, NameOfFolder);
    if s == [] || !Less(x.name, s[|s| - 1].name) {
      assert r[..|s|] == s;
    } else {
      var front := s[..|s| - 1];
      InsertFolderTotal(front, x);
      assert r[..|s|] == Insert(front, x, NameOfFolder);
    }
  }

  lemma {:induction false} SortFolderTotal(s: seq<Folder>)
    ensures FolderTotal(Sort(s, NameOfFolder)) == FolderTotal(s)
  {
    if s != [] {
      SortFolderTotal(s[..|s| - 1]);
      InsertFolderTotal(Sort(s[..|s| - 1], NameOfFolder), s[|s| - 1]);
    }
  }

  lemma {:induction false} SortedItemsTotal(groups: seq<Folder>)
    ensures FolderTotal(SortedItems(groups)) == FolderTotal(groups)
  {
    if groups != [] {
      var n := |groups| - 1;
      SortedItemsTotal(groups[..n]);
      assert SortedItems(groups)[..n] == SortedItems(groups[..n]);
      SortTotal(groups[n].items);
    }
  }

  /** Sorting keeps what is grouped, how much, and that it is well grouped. */
  lemma ArrangedKeeps(groups: seq<Folder>)
    requires WellGrouped(groups)
    ensures WellGrouped(Arranged(groups)) && |Arranged(groups)| == |groups|
    ensures FolderTotal(Arranged(groups)) == FolderTotal(groups)
    ensures forall f, x :: HasItem(Arranged(groups), f, x) <==> HasItem(groups, f, x)
    ensures forall f :: HasFolder(Arranged(groups), f) <==> HasFolder(groups, f)
    ensures Sorted(Arranged(groups), NameOfFolder)
    ensures forall g :: g in Arranged(groups) ==> Sorted(g.items, NameOfItem)
    ensures (forall g :: g in Arranged(groups) ==> |g.items| <= 13) <==> (forall g :: g in groups ==> |g.items| <= 13)
  {
    hide Canonical, SizeAdmitted, Less, Sorted, Insert, Sort, Total, FolderTotal;
    var s := SortedItems(groups);
    SortedItemsTotal(groups);
    SortFolderTotal(s);
    SortSorts(s, NameOfFolder);
    SortedItemsKeep(groups);
  }

  /** The same name and the same items, in some order. */
  ghost predicate SameFolder(h: Folder, g: Folder) {
    h.name == g.name && |h.items| == |g.items| && forall x :: x in h.items <==> x in g.items
  }

  lemma SortedItemsKeep(groups: seq<Folder>)
    requires WellGrouped(groups)
    ensures WellGrouped(SortedItems(groups))
    ensures forall f, x :: HasItem(SortedItems(groups), f, x) <==> HasItem(groups, f, x)
    ensures forall f :: HasFolder(SortedItems(groups), f) <==> HasFolder(groups, f)
    ensures forall g :: g in SortedItems(groups) ==> Sorted(g.items, NameOfItem)
    ensures (forall g :: g in SortedItems(groups) ==> |g.items| <= 13) <==> (forall g :: g in groups ==> |g.items| <= 13)
  {
    hide Canonical, SizeAdmitted, WellItems, Sorted, Sort, SortedItems, HasItem, HasFolder, DistinctKeys;
    var s := SortedItems(groups);
    forall g | g in s
      ensures Canonical(g.name) && WellItems(g.items) && Sorted(g.items, NameOfItem)
    {
      var j :| 0 <= j < |s| && s[j] == g;
      SortedGroup(groups[j]);
    }
    SameKeys(groups, s);
    forall j | 0 <= j < |s| ensures SameFolder(groups[j], s[j]) {
    }
    SameMembers(groups, s);
  }

  lemma SameKeys(a: seq<Folder>, b: seq<Folder>)
    requires DistinctKeys(a, NameOfFolder) && |a| == |b| && forall j :: 0 <= j < |a| ==> a[j].name == b[j].name
    ensures DistinctKeys(b, NameOfFolder)
  {
    forall i, j | 0 <= i < j < |b| ensures NameOfFolder(b[i]) != NameOfFolder(b[j]) {
      assert NameOfFolder(a[i]) != NameOfFolder(a[j]);
    }
  }

  lemma SameMembers(a: seq<Folder>, b: seq<Folder>)
    requires |a| == |b| && forall j :: 0 <= j < |a| ==> SameFolder(a[j], b[j])
    ensures forall f, x :: HasItem(b, f, x) <==> HasItem(a, f, x)
    ensures forall f :: HasFolder(b, f) <==> HasFolder(a, f)
    ensures (forall g :: g in b ==> |g.items| <= 13) <==> (forall g :: g in a ==> |g.items| <= 13)
  {
    forall g | g in a ensures exists h :: h in b && SameFolder(g, h) {
      var j :| 0 <= j < |a| && a[j] == g;
      assert b[j] in b;
    }
    forall h | h in b ensures exists g :: g in a && SameFolder(g, h) {
      var j :| 0 <= j < |b| && b[j] == h;
      assert a[j] in a;
    }
  }

  lemma SortedGroup(g: Folder)
    requires WellItems(g.items)
    ensures WellItems(Sort(g.items, NameOfItem)) && Sorted(Sort(g.items, NameOfItem), NameOfItem)
  {
    hide Canonical, SizeAdmitted, Sort;
    SortSorts(g.items, NameOfItem);
  }
}
