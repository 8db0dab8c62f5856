/** Where the formatters put host files, stated on the path text. */
module FatStaging {
  import opened Bytes
  import opened ShortNames
  import opened FatDirectory
  import opened FatGeometry
  import opened FatInspector
  import opened FatLayout
  import opened FatAcceptance
  import opened FatImage
  import opened FatFormatter
  import opened FatPlan
  import opened FatCommands
  import opened FatTheorems

  /** The path is one name, or a directory and a name around its only slash. */
  ghost predicate Puts(path: Text, t: Target) {
    match t
    case AtRoot(name) => SLASH !in path && Encode(path) == Some(name)
    case Inside(folder, name) =>
      exists a, b :: path == a + [SLASH] + b && SLASH !in a && SLASH !in b && Encode(a) == Some(folder) && Encode(b) == Some(name)
  }

  lemma {:induction false} FirstSlashIs(path: Text, a: Text, b: Text)
    requires path == a + [SLASH] + b && SLASH !in a
    ensures FirstSlash(path) == |a|
  {
    if a != [] {
      assert path[1..] == a[1..] + [SLASH] + b && path[0] == a[0] && a[0] in a;
      FirstSlashIs(path[1..], a[1..], b);
    }
  }

  lemma {:induction false} NoSlashBefore(path: Text)
    ensures SLASH !in path[..FirstSlash(path)]
    ensures FirstSlash(path) == |path| <==> SLASH !in path
  {
    if path != [] && path[0] != SLASH {
      NoSlashBefore(path[1..]);
      assert path[..FirstSlash(path)] == [path[0]] + path[1..][..FirstSlash(path[1..])];
      assert path == [path[0]] + path[1..];
    }
  }

  /** What can be encoded holds no slash. */
  lemma EncodedHasNoSlash(name: Text)
    requires Encode(name).Some?
    ensures SLASH !in name && name != []
  {
    EncodeIff(name, Encode(name).value);
    var base, extension :| IsShortName(Upper(name), base, extension) && Encode(name).value == Pad(base, 8) + Pad(extension, 3);
    UpperSlash(name);
    NoSlashInSubset(base);
    NoSlashInSubset(extension);
  }

  lemma UpperSlash(name: Text)
    ensures SLASH in name ==> SLASH in Upper(name)
  {
    if SLASH in name {
      var i :| 0 <= i < |name| && name[i] == SLASH;
      assert Upper(name)[i] == SLASH;
    }
  }

  lemma NoSlashInSubset(s: Text)
    requires forall b :: b in s ==> InAlphabet(b)
    ensures SLASH !in s
  {
    hide InAlphabet;
    AllAllowedIff(s);
    NoSlash(s);
  }

  /** A path is resolved to exactly the place its text says: without a slash to the root, with one to
      the directory named before it; with more it is refused. */
  lemma ResolveIff(path: Text, t: Target)
    ensures Resolve(path) == Some(t) <==> Puts(path, t)
  {
    hide Encode;
    var n := FirstSlash(path);
    NoSlashBefore(path);
    if n < |path| {
      assert path == path[..n] + [SLASH] + path[n + 1..];
      if Encode(path[n + 1..]).Some? {
        EncodedHasNoSlash(path[n + 1..]);
      }
    }
    if Puts(path, t) && t.Inside? {
      var a, b :| path == a + [SLASH] + b && SLASH !in a && SLASH !in b && Encode(a) == Some(t.folder) && Encode(b) == Some(t.name);
      FirstSlashIs(path, a, b);
      assert path[..n] == a && path[n + 1..] == b;
      assert SLASH in path;
    }
  }

  /** Two slashes are never resolved. */
  lemma TwoSlashesAreRefused(a: Text, b: Text, c: Text)
    ensures Resolve(a + [SLASH] + b + [SLASH] + c) == None
  {
    hide Encode, Resolve;
    var path := a + [SLASH] + b + [SLASH] + c;
    assert path[|a|] == SLASH && path[|a| + 1 + |b|] == SLASH && SLASH in path;
    if Resolve(path).Some? {
      ResolveIff(path, Resolve(path).value);
      var x, y :| path == x + [SLASH] + y && SLASH !in x && SLASH !in y;
      OneSlash(path, x, y, |a|, |a| + 1 + |b|);
    }
  }

  lemma OneSlash(path: Text, x: Text, y: Text, p: nat, q: nat)
    requires path == x + [SLASH] + y && p < q < |path| && path[p] == SLASH && path[q] == SLASH
    ensures SLASH in x || SLASH in y
  {
    assert p < |x| ==> x[p] == SLASH;
    assert |x| < q ==> y[q - |x| - 1] == SLASH;
  }

  // ---------------------------------------------------------------------------------------------
  // Which lists of files are admitted

  /** The file has one to sixteen mebibytes and a place that is not reserved. */
  ghost predicate FileAdmitted(s: Staged, reserved: set<Text>) {
    1 <= |s.payload| <= 16_777_216 && exists t :: Puts(s.path, t) && (if t.AtRoot? then t.name else t.folder) !in reserved
  }

  /** The files collide: one place, or one's name is the other's directory. */
  ghost predicate Collide(a: Staged, b: Staged) {
    exists t, u :: Puts(a.path, t) && Puts(b.path, u) &&
      (t == u || (t.AtRoot? && u.Inside? && t.name == u.folder) || (t.Inside? && u.AtRoot? && t.folder == u.name))
  }

  lemma AdmissibleIff(staged: seq<Staged>, reserved: set<Text>)
    ensures Admissible(staged, reserved) <==>
      && (forall s :: s in staged ==> FileAdmitted(s, reserved))
      && (forall i, j :: 0 <= i < j < |staged| ==> !Collide(staged[i], staged[j]))
  {
    hide Resolve, Puts, FileAdmitted, Collide, Clash, Taken, SizeAdmitted;
    forall i | 0 <= i < |staged|
      ensures FileAdmitted(staged[i], reserved) <==>
        && SizeAdmitted(staged[i].payload) && Resolve(staged[i].path).Some?
        && !Taken(Resolve(staged[i].path).value, reserved)
    {
      FileAdmittedIff(staged[i], reserved);
    }
    if forall i :: 0 <= i < |staged| ==> Resolve(staged[i].path).Some? {
      forall i, j | 0 <= i < j < |staged|
        ensures Collide(staged[i], staged[j]) <==> Clash(Resolve(staged[i].path).value, Resolve(staged[j].path).value)
      {
        CollideIff(staged[i], staged[j]);
      }
    }
    assert forall s :: s in staged ==> exists i :: 0 <= i < |staged| && staged[i] == s;
  }

  lemma FileAdmittedIff(s: Staged, reserved: set<Text>)
    ensures FileAdmitted(s, reserved) <==>
      SizeAdmitted(s.payload) && Resolve(s.path).Some? && !Taken(Resolve(s.path).value, reserved)
  {
    hide Resolve, Puts;
    if Resolve(s.path).Some? {
      ResolveIff(s.path, Resolve(s.path).value);
    }
    if FileAdmitted(s, reserved) {
      var t :| Puts(s.path, t) && (if t.AtRoot? then t.name else t.folder) !in reserved;
      ResolveIff(s.path, t);
    }
  }

  lemma CollideIff(a: Staged, b: Staged)
    requires Resolve(a.path).Some? && Resolve(b.path).Some?
    ensures Collide(a, b) <==> Clash(Resolve(a.path).value, Resolve(b.path).value)
  {
    hide Resolve, Puts;
    ResolveIff(a.path, Resolve(a.path).value);
    ResolveIff(b.path, Resolve(b.path).value);
    if t, u :| Puts(a.path, t) && Puts(b.path, u) && (t == u || (t.AtRoot? && u.Inside? && t.name == u.folder) || (t.Inside? && u.AtRoot? && t.folder == u.name)) {
      ResolveIff(a.path, t);
      ResolveIff(b.path, u);
    }
  }

  // ---------------------------------------------------------------------------------------------
  // Where staged files are found again

  /** The path a host path is stored under: upper case, no final period in either part. */
  ghost predicate StoredUnder(path: Text, stored: Text) {
    if SLASH !in path then path != [] && stored == DropFinalPeriod(Upper(path))
    else exists a, b ::
      && path == a + [SLASH] + b && SLASH !in a && SLASH !in b && a != [] && b != []
      && stored == DropFinalPeriod(Upper(a)) + [SLASH] + DropFinalPeriod(Upper(b))
  }

  lemma StoredText(name: Text)
    requires Encode(name).Some?
    ensures name != [] && TextOf(Encode(name).value) == DropFinalPeriod(Upper(name))
  {
    EncodeRoundTrip(name);
  }

  lemma PathIsStoredUnder(path: Text, t: Target)
    requires Resolve(path) == Some(t)
    ensures StoredUnder(path, PathOf(t))
  {
    hide Encode, Resolve, TextOf;
    ResolveIff(path, t);
    match t
    case AtRoot(name) => StoredText(path);
    case Inside(folder, name) =>
      var a, b :| path == a + [SLASH] + b && SLASH !in a && SLASH !in b && Encode(a) == Some(folder) && Encode(b) == Some(name);
      StoredText(a);
      StoredText(b);
      assert path[|a|] == SLASH && SLASH in path;
  }

  /** Every staged file of a correct image is reported under its host path in upper case, without final
      periods, and reads back byte for byte. */
  lemma StagedPathIsStored(
    image: seq<byte>, volumeId: nat, l: Layout, staged: seq<Staged>, attributes: byte, reserved: set<Text>, i: nat)
    returns (stored: Text)
    requires Correct(image, volumeId, l) && Admissible(staged, reserved) && attributes in {0x20, 0x21} && i < |staged|
    requires forall x :: x in RootItems(staged, attributes) ==> x in l.files
    requires l.folders == Arranged(Groups(staged, attributes))
    ensures StoredUnder(staged[i].path, stored)
    ensures Stores(image, Standard(volumeId, l.volumeLabel), stored, attributes, staged[i].payload)
  {
    hide Correct, Resolve, RootItems, Groups, Arranged, Stores, StoredUnder, Standard;
    PathIsStoredUnder(staged[i].path, Resolve(staged[i].path).value);
    StagedFileIsStored(image, volumeId, l, staged, attributes, reserved, i);
    stored := PathOf(Resolve(staged[i].path).value);
  }

  /** A path is stored under one text only. */
  lemma StoredUnderIsUnique(path: Text, s: Text, t: Text)
    requires StoredUnder(path, s) && StoredUnder(path, t)
    ensures s == t
  {
    hide DropFinalPeriod, Upper;
    if SLASH in path {
      var a, b :| path == a + [SLASH] + b && SLASH !in a && SLASH !in b && a != [] && b != [] &&
                  s == DropFinalPeriod(Upper(a)) + [SLASH] + DropFinalPeriod(Upper(b));
      var c, d :| path == c + [SLASH] + d && SLASH !in c && SLASH !in d && c != [] && d != [] &&
                  t == DropFinalPeriod(Upper(c)) + [SLASH] + DropFinalPeriod(Upper(d));
      SameParts(path, a, b, c, d);
    }
  }

  lemma SameParts(path: Text, a: Text, b: Text, c: Text, d: Text)
    requires path == a + [SLASH] + b && path == c + [SLASH] + d && SLASH !in a && SLASH !in c
    ensures a == c && b == d
  {
    FirstSlashIs(path, a, b);
    FirstSlashIs(path, c, d);
    assert path[..|a|] == a && path[|a| + 1..] == b;
    assert path[..|c|] == c && path[|c| + 1..] == d;
  }

  // ---------------------------------------------------------------------------------------------
  // Which commands succeed

  /** Clusters of 512 bytes the payloads need. */
  ghost function ClustersNeeded(staged: seq<Staged>): (n: nat) {
    if staged == [] then 0 else (|staged[0].payload| + 511) / 512 + ClustersNeeded(staged[1..])
  }

  lemma {:induction false} ClustersAppend(staged: seq<Staged>, s: Staged)
    ensures ClustersNeeded(staged + [s]) == ClustersNeeded(staged) + (|s.payload| + 511) / 512
  {
    if staged != [] {
      assert (staged + [s])[1..] == staged[1..] + [s];
      ClustersAppend(staged[1..], s);
    }
  }

  lemma {:induction false} TotalIsNeeded(staged: seq<Staged>)
    ensures StagedTotal(staged) == ClustersNeeded(staged)
  {
    if staged != [] {
      var front, last := staged[..|staged| - 1], staged[|staged| - 1];
      assert staged == front + [last];
      TotalIsNeeded(front);
      ClustersAppend(front, last);
    }
  }

  lemma {:induction false} NoGroupsIff(staged: seq<Staged>)
    requires forall i :: 0 <= i < |staged| ==> Resolve(staged[i].path).Some?
    ensures Groups(staged, 0x20) == [] <==> forall i :: 0 <= i < |staged| ==> Resolve(staged[i].path).value.AtRoot?
  {
    hide Resolve;
    if staged != [] {
      var n := |staged| - 1;
      NoGroupsIff(staged[..n]);
      assert forall i :: 0 <= i < n ==> staged[..n][i] == staged[i];
    }
  }

  lemma {:induction false} NoRootItemsIff(staged: seq<Staged>)
    requires forall i :: 0 <= i < |staged| ==> Resolve(staged[i].path).Some?
    ensures RootItems(staged, 0x20) == [] <==> forall i :: 0 <= i < |staged| ==> Resolve(staged[i].path).value.Inside?
  {
    hide Resolve;
    if staged != [] {
      var n := |staged| - 1;
      NoRootItemsIff(staged[..n]);
      assert forall i :: 0 <= i < n ==> staged[..n][i] == staged[i];
    }
  }

  ghost predicate AllAdmitted(staged: seq<Staged>) {
    && (forall s :: s in staged ==> FileAdmitted(s, {}))
    && (forall i, j :: 0 <= i < j < |staged| ==> !Collide(staged[i], staged[j]))
  }

  /** `populate_data_files` admits one to fourteen admitted files without a directory, 129021 clusters in
      all at most. */
  lemma FilesAdmittedIff(staged: seq<Staged>)
    ensures FilesAdmitted(staged) <==>
      && 1 <= |staged| <= 14 && AllAdmitted(staged) && (forall s :: s in staged ==> SLASH !in s.path)
      && ClustersNeeded(staged) <= 129_021
  {
    hide Resolve, Puts, FileAdmitted, Collide, Admissible, Groups, StagedTotal, ClustersNeeded;
    AdmissibleIff(staged, {});
    TotalIsNeeded(staged);
    if Admissible(staged, {}) {
      AllResolve(staged);
      NoGroupsIff(staged);
    }
  }

  lemma AllResolve(staged: seq<Staged>)
    requires Admissible(staged, {})
    ensures forall i :: 0 <= i < |staged| ==>
      Resolve(staged[i].path).Some? && (Resolve(staged[i].path).value.AtRoot? <==> SLASH !in staged[i].path)
  {
    hide Resolve;
    forall i | 0 <= i < |staged|
      ensures Resolve(staged[i].path).Some? && (Resolve(staged[i].path).value.AtRoot? <==> SLASH !in staged[i].path)
    {
      RootIff(staged[i].path, Resolve(staged[i].path).value);
    }
  }

  lemma RootIff(path: Text, t: Target)
    requires Resolve(path) == Some(t)
    ensures t.AtRoot? <==> SLASH !in path
  {
    hide Resolve, Encode;
    ResolveIff(path, t);
    if t.Inside? {
      var a, b :| path == a + [SLASH] + b && SLASH !in a && SLASH !in b && Encode(a) == Some(t.folder) && Encode(b) == Some(t.name);
      assert path[|a|] == SLASH;
    }
  }

  /** `populate_data_tree` admits admitted files in directories, at most fourteen directories of at most
      thirteen files, 129021 clusters in all at most. */
  lemma TreeAdmittedIff(staged: seq<Staged>)
    ensures TreeAdmitted(staged) <==>
      && 1 <= |staged| && AllAdmitted(staged) && (forall s :: s in staged ==> SLASH in s.path)
      && |Groups(staged, 0x20)| <= 14 && (forall g :: g in Groups(staged, 0x20) ==> |g.items| <= 13)
      && |Groups(staged, 0x20)| + ClustersNeeded(staged) <= 129_021
  {
    hide Resolve, Puts, FileAdmitted, Collide, Admissible, Groups, RootItems, StagedTotal, ClustersNeeded;
    AdmissibleIff(staged, {});
    TotalIsNeeded(staged);
    if Admissible(staged, {}) {
      AllResolve(staged);
      NoRootItemsIff(staged);
    }
  }

  lemma {:induction false} ItemsConcat(a: seq<Item>, b: seq<Item>)
    ensures Total(a + b) == Total(a) + Total(b)
  {
    hide Count;
    if b == [] {
      assert a + b == a;
    } else {
      var front, last := b[..|b| - 1], b[|b| - 1];
      assert (a + b)[..|a + b| - 1] == a + front && (a + b)[|a + b| - 1] == last;
      ItemsConcat(a, front);
    }
  }

  /** Clusters the recognised profiles need. */
  lemma ProfileTotal(payloads: seq<seq<byte>>)
    requires |payloads| == 0 || (|payloads| == 3 && |payloads[0]| == 33_584 && |payloads[1]| == 38_368 && |payloads[2]| == 38_632)
    ensures Total(ProfileItems(payloads)) == if payloads == [] then 0 else 66 + 75 + 76
  {
    var items := ProfileItems(payloads);
    if |payloads| == 3 {
      assert items[..2][..1] == items[..1] && items[..1][..0] == [];
      assert Total(items) == Total(items[..2]) + Count(payloads[2]);
      assert Total(items[..2]) == Total(items[..1]) + Count(payloads[1]);
      assert Total(items[..1]) == Total([]) + Count(payloads[0]);
    }
  }

  /** The system image is built exactly from no profiles or three genuine ones of their sizes, and
      admitted files that fit: fourteen root entries and thirteen files a directory at most, and 129021
      clusters in all. */
  lemma SystemAdmittedIff(payloads: seq<seq<byte>>, extras: seq<Staged>, genuine: (nat, seq<byte>) -> bool)
    ensures SystemAdmitted(payloads, extras, genuine) <==>
      && (|payloads| == 0 || (|payloads| == 3 && |payloads[0]| == 33_584 && |payloads[1]| == 38_368 && |payloads[2]| == 38_632))
      && (forall i :: 0 <= i < |payloads| ==> genuine(i, payloads[i]))
      && (forall s :: s in extras ==> FileAdmitted(s, ProfileNames(payloads)))
      && (forall i, j :: 0 <= i < j < |extras| ==> !Collide(extras[i], extras[j]))
      && |payloads| + |RootItems(extras, 0x21)| + |Groups(extras, 0x21)| <= 14
      && (forall g :: g in Groups(extras, 0x21) ==> |g.items| <= 13)
      && (if payloads == [] then 0 else 217) + |Groups(extras, 0x21)| + ClustersNeeded(extras) <= 129_021
  {
    hide FileAdmitted, Collide, Admissible, Groups, RootItems, ClustersNeeded, ProfileNames, Next, ProfileItems;
    AdmissibleIff(extras, ProfileNames(payloads));
    if |payloads| == 0 || |payloads| == 3 {
      VerifiedIff(payloads, genuine);
    }
    if SystemChecked(payloads, extras, genuine) {
      SystemRoom(payloads, extras, genuine);
    }
  }

  lemma VerifiedIff(payloads: seq<seq<byte>>, genuine: (nat, seq<byte>) -> bool)
    requires |payloads| == 0 || |payloads| == 3
    ensures (forall i :: 0 <= i < |payloads| ==> Verified(payloads, i, genuine)) <==>
      && (|payloads| == 3 ==> |payloads[0]| == 33_584 && |payloads[1]| == 38_368 && |payloads[2]| == 38_632)
      && forall i :: 0 <= i < |payloads| ==> genuine(i, payloads[i])
  {
    assert PROFILES[0].1 == 33_584 && PROFILES[1].1 == 38_368 && PROFILES[2].1 == 38_632;
    if |payloads| == 3 && forall i :: 0 <= i < |payloads| ==> Verified(payloads, i, genuine) {
      assert Verified(payloads, 0, genuine) && Verified(payloads, 1, genuine) && Verified(payloads, 2, genuine);
    }
  }

  lemma SystemRoom(payloads: seq<seq<byte>>, extras: seq<Staged>, genuine: (nat, seq<byte>) -> bool)
    requires SystemChecked(payloads, extras, genuine)
    ensures Next(SystemLayout(payloads, extras)) ==
      3 + (if payloads == [] then 0 else 217) + |Groups(extras, 0x21)| + ClustersNeeded(extras)
  {
    hide Admissible, Groups, RootItems, ClustersNeeded, ProfileNames, ProfileItems, Arranged, Total, FolderTotal, StagedTotal,
      RootsAre, InsidesAre, WellItems, WellGrouped, HasFolder, FolderFrom, Verified, HasItem, GroupsFit;
    VerifiedIff(payloads, genuine);
    PlanFacts(extras, 0x21, ProfileNames(payloads));
    ArrangedKeeps(Groups(extras, 0x21));
    TotalIsNeeded(extras);
    ProfileTotal(payloads);
    ItemsConcat(ProfileItems(payloads), RootItems(extras, 0x21));
    NextIs(SystemLayout(payloads, extras));
  }

  lemma NextIs(l: Layout)
    ensures Next(l) == 3 + Total(l.files) + |l.folders| + FolderTotal(l.folders)
  {
    assert l.folders[..|l.folders|] == l.folders;
  }

  // ---------------------------------------------------------------------------------------------
  // Nothing else is reported

  /** The record is a dot entry, a directory some staged path names, or a staged file under its path. */
  ghost predicate Expected(r: Record, staged: seq<Staged>, attributes: byte) {
    || IsDotEntry(r)
    || (exists i :: 0 <= i < |staged| && IsFolderOf(r, staged[i]))
    || (exists i :: 0 <= i < |staged| && IsFileOf(r, staged[i], attributes))
  }

  /** A directory's entry for itself or for the root. */
  predicate IsDotEntry(r: Record) {
    && r.attributes == 0x10 && r.size == 0
    && ((r.name == DOT && r.first == r.parent) || (r.name == DOTDOT && r.first == 2))
  }

  ghost predicate IsFolderOf(r: Record, s: Staged) {
    exists t :: Puts(s.path, t) && t.Inside? && r.name == t.folder && r.path == TextOf(t.folder) && r.attributes == 0x10
  }

  ghost predicate IsFileOf(r: Record, s: Staged, attributes: byte) {
    StoredUnder(s.path, r.path) && r.size == |s.payload| && r.attributes == attributes
  }

  lemma {:induction false} InnerCases(v: Volume, l: Layout, m: nat, r: Record) returns (j: nat)
    requires m <= |l.folders| && r in AllInner(v, l, m)
    ensures j < |l.folders| && r in InnerRecords(l, j, OffsetOf(v, FolderStart(l) + j))
    decreases |l.folders| - m
  {
    hide InnerRecords, OffsetOf;
    if r in InnerRecords(l, m, OffsetOf(v, FolderStart(l) + m)) {
      j := m;
    } else {
      j := InnerCases(v, l, m + 1, r);
    }
  }

  lemma RootItemIsExpected(r: Record, x: Item, staged: seq<Staged>, attributes: byte)
    requires RootFrom(staged, attributes, x) && r.path == ChildPath([SLASH], TextOf(x.name))
    requires r.size == |x.payload| && r.attributes == x.attributes
    ensures Expected(r, staged, attributes)
  {
    hide Resolve, TextOf, StoredUnder;
    var i :| 0 <= i < |staged| && Resolve(staged[i].path) == Some(AtRoot(x.name)) && x == Item(x.name, attributes, staged[i].payload);
    PathIsStoredUnder(staged[i].path, AtRoot(x.name));
    assert IsFileOf(r, staged[i], attributes);
  }

  lemma FolderIsExpected(r: Record, f: Text, staged: seq<Staged>, attributes: byte)
    requires FolderFrom(staged, f) && r.path == ChildPath([SLASH], TextOf(f)) && r.name == f && r.attributes == 0x10
    ensures Expected(r, staged, attributes)
  {
    hide Resolve, TextOf, Puts;
    var i :| 0 <= i < |staged| && Resolve(staged[i].path).Some? && Resolve(staged[i].path).value.Inside? &&
             Resolve(staged[i].path).value.folder == f;
    ResolveIff(staged[i].path, Resolve(staged[i].path).value);
    assert IsFolderOf(r, staged[i]);
  }

  lemma InnerItemIsExpected(r: Record, f: Text, x: Item, staged: seq<Staged>, attributes: byte)
    requires InsideFrom(staged, attributes, f, x) && r.path == ChildPath(ChildPath([SLASH], TextOf(f)), TextOf(x.name))
    requires r.size == |x.payload| && r.attributes == x.attributes
    ensures Expected(r, staged, attributes)
  {
    hide Resolve, TextOf, StoredUnder, ChildPath, Canonical;
    var i :| 0 <= i < |staged| && Resolve(staged[i].path) == Some(Inside(f, x.name)) && x == Item(x.name, attributes, staged[i].payload);
    PathIsStoredUnder(staged[i].path, Inside(f, x.name));
    ResolvedIsCanonical(staged[i].path);
    FolderChildPath(f, x.name);
    assert IsFileOf(r, staged[i], attributes);
  }

  /** A correct data image reports nothing but the staged files, their directories and dot entries. */
  lemma OnlyStagedIsReported(
    image: seq<byte>, volumeId: nat, l: Layout, staged: seq<Staged>, attributes: byte, reserved: set<Text>, r: Record)
    requires Correct(image, volumeId, l) && Admissible(staged, reserved) && attributes in {0x20, 0x21}
    requires forall x :: x in l.files ==> x in RootItems(staged, attributes)
    requires l.folders == Arranged(Groups(staged, attributes))
    requires r in Inspected(image).value.records
    ensures Expected(r, staged, attributes)
  {
    hide Fits, Inspected, Standard, Laid, Good, LaidRecords, View, Resolve, Expected, RootItems, Groups, Arranged, WellItems,
      WellGrouped, Next, RootFrom, InsideFrom, FolderFrom, HasItem, HasFolder;
    PlanFacts(staged, attributes, reserved);
    ArrangedKeeps(Groups(staged, attributes));
    LaidIsExpected(View(image, Standard(volumeId, l.volumeLabel)), l, staged, attributes, r);
  }

  lemma LaidIsExpected(v: Volume, l: Layout, staged: seq<Staged>, attributes: byte, r: Record)
    requires r in LaidRecords(v, l) && forall x :: x in l.files ==> RootFrom(staged, attributes, x)
    requires forall f, x :: HasItem(l.folders, f, x) ==> InsideFrom(staged, attributes, f, x)
    requires forall f :: HasFolder(l.folders, f) ==> FolderFrom(staged, f)
    ensures Expected(r, staged, attributes)
  {
    hide AllInner, RootRecords, OffsetOf, InnerRecords, Expected, RootFrom, InsideFrom, FolderFrom, HasItem, HasFolder, LaidRecords;
    if r in RootRecords(l, OffsetOf(v, ROOT)) {
      RootIsExpected(l, OffsetOf(v, ROOT), r, staged, attributes);
    } else {
      InLaid(v, l, r);
      var j := InnerCases(v, l, 0, r);
      InnerIsExpected(l, j, OffsetOf(v, FolderStart(l) + j), r, staged, attributes);
    }
  }

  lemma InLaid(v: Volume, l: Layout, r: Record)
    requires r in LaidRecords(v, l)
    ensures r in RootRecords(l, OffsetOf(v, ROOT)) || r in AllInner(v, l, 0)
  {
  }

  lemma RootIsExpected(l: Layout, base: nat, r: Record, staged: seq<Staged>, attributes: byte)
    requires r in RootRecords(l, base) && forall x :: x in l.files ==> RootFrom(staged, attributes, x)
    requires forall f :: HasFolder(l.folders, f) ==> FolderFrom(staged, f)
    ensures Expected(r, staged, attributes)
  {
    hide TextOf, ChildPath, Expected, RootFrom, FolderFrom, HasItem, HasFolder, FirstOf, FolderStart;
    var files, folders := ItemRecords(l.files, 3, base, 1, [SLASH], ROOT), FolderRecords(l, base);
    if r in files {
      var i :| 0 <= i < |files| && files[i] == r;
      RootItemIsExpected(r, l.files[i], staged, attributes);
    } else {
      var j :| 0 <= j < |folders| && folders[j] == r;
      FolderListed(l.folders, j);
      FolderIsExpected(r, l.folders[j].name, staged, attributes);
    }
  }

  lemma FolderListed(folders: seq<Folder>, j: nat)
    requires j < |folders|
    ensures HasFolder(folders, folders[j].name)
    ensures forall x :: x in folders[j].items ==> HasItem(folders, folders[j].name, x)
  {
  }

  lemma InnerRecordCases(l: Layout, j: nat, base: nat, r: Record) returns (i: nat)
    requires j < |l.folders| && r in InnerRecords(l, j, base)
    ensures IsDotEntry(r) || (i < |l.folders[j].items| && r == ItemRecord(l.folders[j].items[i],
      FirstOf(l.folders[j].items, ItemsStart(l, j), i), base + 32 * (2 + i), FolderPath(l, j), FolderStart(l) + j))
  {
    hide ChildPath, TextOf, FirstOf, ItemsStart, FolderPath;
    var items := l.folders[j].items;
    var rs := ItemRecords(items, ItemsStart(l, j), base, 2, FolderPath(l, j), FolderStart(l) + j);
    i := 0;
    if r in rs {
      i :| 0 <= i < |rs| && rs[i] == r;
    }
  }

  lemma InnerIsExpected(l: Layout, j: nat, base: nat, r: Record, staged: seq<Staged>, attributes: byte)
    requires j < |l.folders| && r in InnerRecords(l, j, base)
    requires forall f, x :: HasItem(l.folders, f, x) ==> InsideFrom(staged, attributes, f, x)
    ensures Expected(r, staged, attributes)
  {
    hide TextOf, ChildPath, InsideFrom, HasItem, IsFolderOf, IsFileOf, ItemsStart, InnerRecords, FirstOf;
    var i := InnerRecordCases(l, j, base, r);
    if !IsDotEntry(r) {
      FolderListed(l.folders, j);
      InnerItemIsExpected(r, l.folders[j].name, l.folders[j].items[i], staged, attributes);
    }
  }

  /** Every directory of a correct image holds its two dot entries. */
  lemma DotsAreReported(image: seq<byte>, volumeId: nat, l: Layout, j: nat) returns (folder: Record, dot: Record, dotDot: Record)
    requires Correct(image, volumeId, l) && j < |l.folders|
    ensures folder in Inspected(image).value.records && dot in Inspected(image).value.records && dotDot in Inspected(image).value.records
    ensures folder.name == l.folders[j].name && folder.IsDirectory() && IsDotEntry(dot) && IsDotEntry(dotDot)
    ensures dot.name == DOT && dotDot.name == DOTDOT && dot.parent == dotDot.parent == folder.first
  {
    hide Fits, Inspected, Standard, Laid, Good, AllInner, TextOf, OffsetOf, View, ChildPath, Total, FolderTotal;
    var v := View(image, Standard(volumeId, l.volumeLabel));
    var base := OffsetOf(v, FolderStart(l) + j);
    folder := FolderRecords(l, OffsetOf(v, ROOT))[j];
    dot, dotDot := InnerRecords(l, j, base)[0], InnerRecords(l, j, base)[1];
    InnerIsListed(v, l, j, 0, dot);
    InnerIsListed(v, l, j, 0, dotDot);
    assert folder in RootRecords(l, OffsetOf(v, ROOT));
  }

  // ---------------------------------------------------------------------------------------------
  // The commands' images

  /** Labels, identifiers and profile names, as text. */
  lemma NamesOfVolumes()
    ensures SYSTEM_ID == 0x2000_0001 && DATA_ID == 0x2000_0002
    ensures forall i :: 0 <= i < 11 ==> SYSTEM_LABEL[i] == "SAPOTESYS  "[i] as int && DATA_LABEL[i] == "SAPOTEDATA "[i] as int
    ensures |PROFILES| == 3 && forall i :: 0 <= i < 3 ==> |PROFILES[i].0| == 11
    ensures forall i :: 0 <= i < 11 ==>
      && PROFILES[0].0[i] == "BUSYBOX    "[i] as int && PROFILES[1].0[i] == "UNAMEBOX   "[i] as int
      && PROFILES[2].0[i] == "CATBOX     "[i] as int
  {
  }

  /** After `populate_data_files` every file is found under its name, as an archive file. */
  lemma DataFileIsStored(image: seq<byte>, staged: seq<Staged>, i: nat) returns (stored: Text)
    requires FilesAdmitted(staged) && i < |staged| && Correct(image, DATA_ID, DataLayout(RootItems(staged, 0x20), []))
    ensures StoredUnder(staged[i].path, stored)
    ensures Stores(image, Standard(DATA_ID, DATA_LABEL), stored, 0x20, staged[i].payload)
  {
    hide Correct, RootItems, Groups, Stores, StoredUnder, Standard, Admissible, DATA_LABEL;
    var l := DataLayout(RootItems(staged, 0x20), []);
    stored := StagedPathIsStored(image, DATA_ID, l, staged, 0x20, {}, i);
  }

  /** After `populate_data_tree` every file is found under its path, as an archive file. */
  lemma TreeFileIsStored(image: seq<byte>, staged: seq<Staged>, i: nat) returns (stored: Text)
    requires TreeAdmitted(staged) && i < |staged| && Correct(image, DATA_ID, DataLayout([], Groups(staged, 0x20)))
    ensures StoredUnder(staged[i].path, stored)
    ensures Stores(image, Standard(DATA_ID, DATA_LABEL), stored, 0x20, staged[i].payload)
  {
    hide Correct, RootItems, Groups, Stores, StoredUnder, Standard, Admissible, DATA_LABEL, Arranged;
    var l := DataLayout([], Groups(staged, 0x20));
    stored := StagedPathIsStored(image, DATA_ID, l, staged, 0x20, {}, i);
  }

  /** In a system image every extra file is found under its path, and every profile under its name, as
      read-only archive files. */
  lemma SystemFileIsStored(
    image: seq<byte>, payloads: seq<seq<byte>>, extras: seq<Staged>, genuine: (nat, seq<byte>) -> bool, i: nat, k: nat)
    returns (stored: Text)
    requires SystemAdmitted(payloads, extras, genuine) && Correct(image, SYSTEM_ID, SystemLayout(payloads, extras))
    ensures i < |extras| ==> StoredUnder(extras[i].path, stored)
    ensures i < |extras| ==> Stores(image, Standard(SYSTEM_ID, SYSTEM_LABEL), stored, 0x21, extras[i].payload)
    ensures k < |payloads| ==> Stores(image, Standard(SYSTEM_ID, SYSTEM_LABEL), TextOf(PROFILES[k].0), 0x21, payloads[k])
  {
    hide Correct, RootItems, Groups, Stores, StoredUnder, Standard, Admissible, SYSTEM_LABEL, Arranged, PROFILES, TextOf,
      ProfileNames, Verified, GroupsFit, Next;
    var l := SystemLayout(payloads, extras);
    stored := [];
    if i < |extras| {
      assert forall x :: x in RootItems(extras, 0x21) ==> x in l.files;
      stored := StagedPathIsStored(image, SYSTEM_ID, l, extras, 0x21, ProfileNames(payloads), i);
    }
    if k < |payloads| {
      assert l.files[k] == ProfileItems(payloads)[k];
      RootFileIsStored(image, SYSTEM_ID, l, k);
    }
  }
}
