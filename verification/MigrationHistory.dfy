/** The legacy migration over any number of attempts, with faults in the copy and in the
    writing of the marker (app/src-tauri/src/main.rs, migrate_legacy_data_from). */
module MigrationHistory {
  import opened FileTree
  import opened Migration
  import opened Wrappers

  /** One attempt: the legacy tree as its directories were listed this time, and the faults. */
  datatype Attempt = Attempt(listed: Node, fault: Option<Fault>, markerFault: Option<MarkerFault>)

  const FOLDER: Path := [MARKER[0]]

  function Next(tree: Tree, a: Attempt): Tree {
    Migrate(Some(a.listed), false, tree, a.fault, a.markerFault).0
  }

  function After(tree: Tree, attempts: seq<Attempt>): Tree
    decreases |attempts|
  {
    if attempts == [] then tree else After(Next(tree, attempts[0]), attempts[1..])
  }

  function CopyOf(tree: Tree, a: Attempt): State {
    Copy(a.listed, [], Started(tree), a.fault)
  }

  /** Some attempt copied, because it found no marker, and cut a file short. */
  predicate TearsFile(tree: Tree, attempts: seq<Attempt>)
    decreases |attempts|
  {
    attempts != [] &&
      ((MARKER !in tree && CopyOf(tree, attempts[0]).torn) || TearsFile(Next(tree, attempts[0]), attempts[1..]))
  }

  ghost predicate Listing(node: Node, listed: Node) {
    Named(listed) && SameShape(node, listed)
  }

  ghost predicate AllList(node: Node, attempts: seq<Attempt>) {
    forall i :: 0 <= i < |attempts| ==> Listing(node, attempts[i].listed)
  }

  /** Every node of the legacy tree stands in the destination. */
  ghost predicate Held(node: Node, tree: Tree) {
    forall r :: At(node, r).Some? ==> Holds(tree, r, At(node, r).value)
  }

  ghost predicate HeldButMarker(node: Node, tree: Tree) {
    forall r :: r != MARKER && At(node, r).Some? ==> Holds(tree, r, At(node, r).value)
  }

  ghost predicate SameButMarker(x: Tree, y: Tree) {
    forall r :: r != MARKER ==> Same(x, y, r)
  }

  // ---------------------------------------------------------------- writing the marker

  /** Something stands where the marker's folder must be. */
  ghost predicate InTheWay(node: Node, tree: Tree) {
    || !node.Dir?
    || (FOLDER in tree && tree[FOLDER].Data?)
    || (At(node, FOLDER).Some? && At(node, FOLDER).value.File?)
  }

  lemma MarkerPath()
    ensures MARKER == [MARKER[0], MARKER[1]] && MARKER[..1] == FOLDER && MARKER[..|MARKER| - 1] == FOLDER
    ensures Prefixes(FOLDER) == {[], FOLDER} && FOLDER != [] && MARKER != [] && FOLDER != MARKER
  {
    FoldersOf(MARKER[0]);
  }

  /** What writing the marker does, told item by item. */
  lemma MarkerStep(tree: Tree, text: Bytes, fault: Option<MarkerFault>)
    requires Closed(tree)
    ensures var (after, ok) := WriteMarker(tree, MARKER, text, fault);
      && Closed(after)
      && (forall r :: r !in {[], FOLDER, MARKER} ==> Same(tree, after, r))
      && if Blocked(tree, FOLDER) then !ok && after == tree
         else
           && FolderAt(after, []) && FolderAt(after, FOLDER)
           && (FOLDER in tree ==> tree[FOLDER].Folder?) && ([] in tree ==> tree[[]].Folder?)
           && (ok <==> fault.None? && !FolderAt(tree, MARKER))
           && (MARKER in after <==> MARKER in tree || fault != Some(Unwritten))
  {
    MarkerPath();
    assert [] in Prefixes(FOLDER) && FOLDER in Prefixes(FOLDER);
    var after := WriteMarker(tree, MARKER, text, fault).0;
    forall r, i | r in after && 0 <= i < |r| ensures r[..i] in after && after[r[..i]].Folder? {
      PrefixOf(r, i);
    }
  }

  lemma PrefixOf(r: Path, i: nat)
    requires i < |r|
    ensures r == FOLDER ==> r[..i] == []
    ensures r == MARKER ==> r[..i] == [] || r[..i] == FOLDER
    ensures r[..i] != MARKER || |r| > |MARKER|
  {
    MarkerPath();
  }

  lemma BlockedFolder(node: Node, tree: Tree, copied: Tree)
    requires Closed(tree) && Compatible(node, [], tree) && Union(node, [], tree, copied)
    ensures Blocked(copied, FOLDER) <==> InTheWay(node, tree)
  {
    MarkerPath();
    UnionAt(node, tree, copied, []);
    UnionAt(node, tree, copied, FOLDER);
    AgreesAt(node, tree, []);
    if At(node, FOLDER).Some? {
      AgreesAt(node, tree, FOLDER);
    }
  }

  // ---------------------------------------------------------------- one failing run

  /** A failing run leaves a marker exactly when its copy failed after copying a legacy
      marker, or its copy succeeded, the marker's folder is free, and the marker's place is
      taken by a legacy folder, or its writing failed after it began or over a legacy marker. */
  lemma FailingRunLeavesMarkerIff(node: Node, tree: Tree, fault: Option<Fault>, markerFault: Option<MarkerFault>)
    requires Closed(tree) && Named(node) && MARKER !in tree
    ensures var s := Copy(node, [], Started(tree), fault);
      var (after, ok) := Migrate(Some(node), false, tree, fault, markerFault);
      && (!ok && MARKER in after <==>
            if !s.ok then MARKER in s.tree
            else
              && !InTheWay(node, tree)
              && ((At(node, MARKER).Some? && At(node, MARKER).value.Dir?)
                  || (markerFault.Some? && (markerFault != Some(Unwritten) || At(node, MARKER).Some?))))
      && (MARKER in s.tree ==> At(node, MARKER).Some?)
  {
    var s := Copy(node, [], Started(tree), fault);
    CopyReaches(node, [], Started(tree), fault);
    assert MARKER[0..] == MARKER;
    if s.ok {
      SuccessIsClean(node, [], Started(tree), fault);
      CopyIsExact(node, [], Started(tree));
      BlockedFolder(node, tree, s.tree);
      UnionAt(node, tree, s.tree, MARKER);
      MarkerPath();
      if Blocked(s.tree, FOLDER) {
        NothingBelowData(s.tree, FOLDER, MARKER);
      }
      MarkerStep(s.tree, COPIED, markerFault);
    }
  }

  lemma NothingBelowData(tree: Tree, folder: Path, r: Path)
    requires Closed(tree) && folder < r && Blocked(tree, folder)
    ensures r !in tree
  {
    var q :| q in Prefixes(folder) && q in tree && tree[q].Data?;
    var i :| 0 <= i <= |folder| && folder[..i] == q;
    assert r[..i] == q;
  }

  lemma CopyGrows(node: Node, p: Path, s: State, fault: Option<Fault>)
    requires s.ok && !s.torn && Ready(s.tree, p) && Named(node)
    ensures var s' := Copy(node, p, s, fault);
      s.tree.Keys <= s'.tree.Keys && Closed(s'.tree) && (s'.ok ==> !s'.torn)
    ensures p != [] ==> FolderAt(Copy(node, p, s, fault).tree, p[..|p| - 1])
  {
    CopyReaches(node, p, s, fault);
    var s' := Copy(node, p, s, fault);
    assert forall r :: r in s.tree ==> Same(s.tree, s'.tree, r);
  }

  lemma EntriesGrow(entries: seq<Entry>, p: Path, s: State)
    requires s.ok && !s.torn && Closed(s.tree) && FolderAt(s.tree, p) && NamedEntries(entries)
    ensures s.tree.Keys <= CopyEntries(entries, p, s, None).tree.Keys
  {
    EntriesReach(entries, p, s, None);
    assert forall r :: r in s.tree ==> Same(s.tree, CopyEntries(entries, p, s, None).tree, r);
  }

  /** Under faults a run reaches no item that it would not reach without. */
  lemma {:induction false} FaultReachesLess(node: Node, p: Path, s: State, fault: Option<Fault>)
    requires s.ok && !s.torn && Ready(s.tree, p) && Named(node)
    ensures Copy(node, p, s, fault).tree.Keys <= Copy(node, p, s, None).tree.Keys
    decreases node
  {
    CopyGrows(node, p, s, None);
    if node.Dir? && !Blocked(s.tree, p) {
      FolderMade(s.tree, p);
      var made := s.(tree := MakeFolders(s.tree, p), visited := s.visited + 1);
      EntriesGrow(node.entries, p, made);
      if !Fails(s, fault) {
        EntriesReachLess(node.entries, p, made, fault);
      }
    }
  }

  lemma {:induction false} EntriesReachLess(entries: seq<Entry>, p: Path, s: State, fault: Option<Fault>)
    requires s.ok && !s.torn && Closed(s.tree) && FolderAt(s.tree, p) && NamedEntries(entries)
    ensures CopyEntries(entries, p, s, fault).tree.Keys <= CopyEntries(entries, p, s, None).tree.Keys
    decreases entries
  {
    if entries != [] {
      var e, q := entries[0], p + [entries[0].name];
      assert q[..|q| - 1] == p;
      FaultReachesLess(e.node, q, s, fault);
      CopyGrows(e.node, q, s, None);
      var next, clean := Copy(e.node, q, s, fault), Copy(e.node, q, s, None);
      if next.ok {
        SuccessIsClean(e.node, q, s, fault);
        EntriesReachLess(entries[1..], p, clean, fault);
      } else if clean.ok {
        EntriesGrow(entries[1..], p, clean);
      }
    }
  }

  /** Some failing run, with a fault in the copy or in the writing of the marker, leaves a
      marker exactly when a clean copy would end with success and the legacy tree holds
      something at the marker's path or nothing is in the way of writing it, or would fail
      but reach a legacy marker before that. */
  lemma SomeFailureLeavesMarkerIff(node: Node, tree: Tree)
    requires Closed(tree) && Named(node) && MARKER !in tree
    ensures (exists fault, markerFault ::
               var (after, ok) := Migrate(Some(node), false, tree, fault, markerFault); !ok && MARKER in after) <==>
            var clean := Copy(node, [], Started(tree), None);
            if clean.ok then At(node, MARKER).Some? || !InTheWay(node, tree) else MARKER in clean.tree
  {
    var clean := Copy(node, [], Started(tree), None);
    CopyIsExact(node, [], Started(tree));
    forall fault, markerFault |
      var (after, ok) := Migrate(Some(node), false, tree, fault, markerFault); !ok && MARKER in after
      ensures if clean.ok then At(node, MARKER).Some? || !InTheWay(node, tree) else MARKER in clean.tree
    {
      FailingRunLeavesMarkerIff(node, tree, fault, markerFault);
      FaultReachesLess(node, [], Started(tree), fault);
      if Copy(node, [], Started(tree), fault).ok {
        SuccessIsClean(node, [], Started(tree), fault);
      }
    }
    if !clean.ok && MARKER in clean.tree {
      FailingRunLeavesMarkerIff(node, tree, None, None);
      var (after, ok) := Migrate(Some(node), false, tree, None, None);
      assert !ok && MARKER in after;
    } else if clean.ok && At(node, MARKER).Some? {
      MarkerLeaksIff(node, tree);
      var fault :| var s := Copy(node, [], Started(tree), fault); !s.ok && MARKER in s.tree;
      var (after, ok) := Migrate(Some(node), false, tree, fault, None);
      assert !ok && MARKER in after;
    } else if clean.ok && !InTheWay(node, tree) {
      FailingRunLeavesMarkerIff(node, tree, None, Some(Written(0)));
      var (after, ok) := Migrate(Some(node), false, tree, None, Some(Written(0)));
      assert !ok && MARKER in after;
    }
  }

  // ---------------------------------------------------------------- histories

  lemma HeldAcross(node: Node, listed: Node, tree: Tree, r: Path)
    requires SameShape(node, listed)
    ensures At(node, r).Some? <==> At(listed, r).Some?
    ensures At(node, r).Some? ==> (Holds(tree, r, At(node, r).value) <==> Holds(tree, r, At(listed, r).value))
    ensures At(node, r).Some? ==> (Agrees(tree, r, At(node, r).value) <==> Agrees(tree, r, At(listed, r).value))
  {
    assert SameAt(node, listed, r);
  }

  /** An attempt over a destination without a marker leaves one only with everything copied,
      if the legacy tree holds none itself. */
  lemma AttemptVouches(node: Node, tree: Tree, a: Attempt)
    requires Closed(tree) && MARKER !in tree && At(node, MARKER).None? && Listing(node, a.listed)
    ensures var t := Next(tree, a);
      Closed(t) && (MARKER in t ==> CopyOf(tree, a).ok && !CopyOf(tree, a).torn && Held(node, t))
  {
    var s, t := CopyOf(tree, a), Next(tree, a);
    CopyReaches(a.listed, [], Started(tree), a.fault);
    HeldAcross(node, a.listed, tree, MARKER);
    if s.ok {
      SuccessIsClean(a.listed, [], Started(tree), a.fault);
      CopyIsExact(a.listed, [], Started(tree));
      MarkerStep(s.tree, COPIED, a.markerFault);
      UnionAt(a.listed, tree, s.tree, MARKER);
      if MARKER in t {
        forall r | At(node, r).Some? ensures Holds(t, r, At(node, r).value) {
          HeldAcross(node, a.listed, s.tree, r);
          HeldAcross(node, a.listed, t, r);
          UnionAt(a.listed, tree, s.tree, r);
          assert r !in {[], FOLDER, MARKER} ==> Same(s.tree, t, r);
        }
      }
    } else {
      FailureWritesNoMarker(a.listed, tree, a.fault, a.markerFault);
    }
  }

  lemma {:induction false} MarkerStops(tree: Tree, attempts: seq<Attempt>)
    requires MARKER in tree
    ensures After(tree, attempts) == tree && !TearsFile(tree, attempts)
    decreases |attempts|
  {
    if attempts != [] {
      MarkerStops(tree, attempts[1..]);
    }
  }

  /** After any number of attempts with any faults a new marker, complete or cut short, means
      that the whole legacy tree stands in the destination, if it holds no marker itself. */
  lemma {:induction false} MarkerVouches(node: Node, tree: Tree, attempts: seq<Attempt>)
    requires Closed(tree) && MARKER !in tree && At(node, MARKER).None? && AllList(node, attempts)
    ensures MARKER in After(tree, attempts) ==> Held(node, After(tree, attempts))
    decreases |attempts|
  {
    if attempts != [] {
      var t := Next(tree, attempts[0]);
      AttemptVouches(node, tree, attempts[0]);
      if MARKER in t {
        MarkerStops(t, attempts[1..]);
      } else {
        MarkerVouches(node, t, attempts[1..]);
      }
    }
  }

  // ---------------------------------------------------------------- retrying

  /** A single clean run over the destination succeeds. */
  ghost predicate Migratable(node: Node, tree: Tree) {
    Compatible(node, [], tree) && !InTheWay(node, tree) && !(At(node, MARKER).Some? && At(node, MARKER).value.Dir?)
  }

  /** What stands at `r` is new and faithful, or a file cut short. */
  ghost predicate New(node: Node, tree: Tree, r: Path) {
    || (r in {[], FOLDER} && FolderAt(tree, r))
    || (At(node, r).Some? && (Holds(tree, r, At(node, r).value) || Cut(tree, r, At(node, r).value)))
  }

  /** A destination on the way from `base`: everything old is there, and what is new belongs. */
  ghost predicate Partial(node: Node, base: Tree, tree: Tree) {
    && (forall r :: r in base ==> Same(base, tree, r))
    && (forall r :: r in tree && r !in base && r != MARKER ==> New(node, tree, r))
  }

  ghost predicate CutAt(node: Node, base: Tree, tree: Tree, r: Path) {
    r !in base && r != MARKER && At(node, r).Some? && Cut(tree, r, At(node, r).value)
  }

  ghost predicate AnyCut(node: Node, base: Tree, tree: Tree) {
    exists r :: CutAt(node, base, tree, r)
  }

  lemma PartialAfterCopy(node: Node, base: Tree, tree: Tree, a: Attempt)
    requires Closed(tree) && MARKER !in tree && Partial(node, base, tree) && Listing(node, a.listed)
    ensures var s := CopyOf(tree, a);
      && Closed(s.tree) && Partial(node, base, s.tree) && (s.ok ==> !s.torn)
      && (MARKER !in s.tree ==> (AnyCut(node, base, s.tree) <==> AnyCut(node, base, tree) || s.torn))
  {
    var s := CopyOf(tree, a);
    RunReaches(node, tree, Run(a.listed, a.fault));
    forall r ensures Source(node, [], r) == At(node, r) {
      assert r[0..] == r;
    }
    forall r | r in base ensures Same(base, s.tree, r) {
      assert Same(base, tree, r) && Same(tree, s.tree, r);
    }
    forall r | r in s.tree && r !in base && r != MARKER ensures New(node, s.tree, r) {
      if r in tree {
        assert Same(tree, s.tree, r) && New(node, tree, r);
      }
    }
    if r :| CutAt(node, base, tree, r) {
      assert Same(tree, s.tree, r);
      assert CutAt(node, base, s.tree, r);
    }
    if MARKER !in s.tree {
      if s.torn {
        var r :| r !in tree && Source(node, [], r).Some? && Cut(s.tree, r, Source(node, [], r).value);
        assert r in base ==> Same(base, tree, r);
        assert CutAt(node, base, s.tree, r);
      }
      if r :| CutAt(node, base, s.tree, r) {
        if r in tree {
          assert Same(tree, s.tree, r);
          assert CutAt(node, base, tree, r);
        }
      }
    }
  }

  lemma PartialAfterMarker(node: Node, base: Tree, tree: Tree, text: Bytes, fault: Option<MarkerFault>)
    requires Closed(tree) && MARKER !in base && Partial(node, base, tree)
    ensures var t := WriteMarker(tree, MARKER, text, fault).0;
      Closed(t) && Partial(node, base, t) && (AnyCut(node, base, t) <==> AnyCut(node, base, tree))
  {
    MarkerStep(tree, text, fault);
    MarkerPath();
    var t := WriteMarker(tree, MARKER, text, fault).0;
    forall r | r != MARKER && (r in tree || r !in {[], FOLDER}) ensures Same(tree, t, r) {
    }
    forall r | r in base ensures Same(base, t, r) {
      assert Same(base, tree, r) && Same(tree, t, r);
    }
    forall r | r in t && r !in base && r != MARKER ensures New(node, t, r) {
      if r in tree {
        assert Same(tree, t, r) && New(node, tree, r);
      }
    }
    forall r ensures CutAt(node, base, t, r) <==> CutAt(node, base, tree, r) {
      assert r != MARKER && (r in tree || r !in {[], FOLDER}) ==> Same(tree, t, r);
    }
  }

  lemma PartialAfterAttempt(node: Node, base: Tree, tree: Tree, a: Attempt)
    requires Closed(tree) && MARKER !in tree && MARKER !in base && Partial(node, base, tree) && Listing(node, a.listed)
    ensures var t := Next(tree, a);
      && Closed(t) && Partial(node, base, t)
      && (MARKER !in t ==> (AnyCut(node, base, t) <==> AnyCut(node, base, tree) || CopyOf(tree, a).torn))
  {
    PartialAfterCopy(node, base, tree, a);
    var s := CopyOf(tree, a);
    if s.ok {
      PartialAfterMarker(node, base, s.tree, COPIED, a.markerFault);
      MarkerStep(s.tree, COPIED, a.markerFault);
    }
  }

  lemma {:induction false} PartialAfterAll(node: Node, base: Tree, tree: Tree, attempts: seq<Attempt>)
    requires Closed(tree) && MARKER !in base && Partial(node, base, tree) && AllList(node, attempts)
    ensures var t := After(tree, attempts);
      && Closed(t) && Partial(node, base, t)
      && (MARKER !in t ==> (AnyCut(node, base, t) <==> AnyCut(node, base, tree) || TearsFile(tree, attempts)))
    decreases |attempts|
  {
    if MARKER in tree {
      MarkerStops(tree, attempts);
    } else if attempts != [] {
      PartialAfterAttempt(node, base, tree, attempts[0]);
      var t := Next(tree, attempts[0]);
      if MARKER in t {
        MarkerStops(t, attempts[1..]);
      }
      PartialAfterAll(node, base, t, attempts[1..]);
    }
  }

  /** A destination on the way is as good as the base exactly when no file is cut short. */
  lemma MigratableOnTheWay(node: Node, base: Tree, tree: Tree)
    requires Migratable(node, base) && Partial(node, base, tree) && MARKER !in tree
    ensures Migratable(node, tree) <==> !AnyCut(node, base, tree)
  {
    MarkerPath();
    forall r ensures Source(node, [], r) == At(node, r) {
      assert r[0..] == r;
    }
    if r :| CutAt(node, base, tree, r) {
      assert !Agrees(tree, r, Source(node, [], r).value);
    } else {
      forall r | Source(node, [], r).Some? ensures Agrees(tree, r, Source(node, [], r).value) {
        AgreesAt(node, base, r);
        assert !CutAt(node, base, tree, r);
        if r in base {
          assert Same(base, tree, r);
        }
      }
      assert FOLDER in base ==> Same(base, tree, FOLDER);
      assert !CutAt(node, base, tree, FOLDER);
      if At(node, FOLDER).Some? {
        AgreesAt(node, base, FOLDER);
      }
    }
  }

  lemma CleanRun(node: Node, tree: Tree)
    requires Closed(tree) && Named(node) && MARKER !in tree
    ensures var (after, ok) := Migrate(Some(node), false, tree, None, None);
      && (ok <==> Migratable(node, tree))
      && (ok ==>
          && MARKER in after && FolderAt(after, FOLDER)
          && forall r :: r != MARKER && r != FOLDER ==>
              if At(node, r).Some? then Holds(after, r, At(node, r).value) else Same(tree, after, r))
  {
    MigrationIsExact(node, tree);
    MarkerPath();
  }

  lemma MigratableByShape(a: Node, b: Node, tree: Tree)
    requires SameShape(a, b)
    ensures Migratable(a, tree) <==> Migratable(b, tree)
  {
    CompatibleByShape(a, b, tree);
    assert SameAt(a, b, []) && SameAt(a, b, FOLDER) && SameAt(a, b, MARKER);
  }

  /** Where the legacy tree holds nothing, a destination on the way differs from the base at
      most by the marker and its folder. */
  lemma NothingElse(node: Node, base: Tree, tree: Tree, r: Path)
    requires Partial(node, base, tree) && node.Dir? && At(node, r).None? && r != MARKER && r != FOLDER
    ensures Same(base, tree, r)
  {
  }

  /** The tree of a clean run, up to the bytes of the marker. */
  lemma SameAsClean(node: Node, base: Tree, clean: Tree, tree: Tree)
    requires Partial(node, base, tree) && node.Dir? && FolderAt(clean, FOLDER) && FolderAt(tree, FOLDER)
    requires At(node, FOLDER).Some? ==> At(node, FOLDER).value.Dir?
    requires forall r :: r != MARKER && r != FOLDER ==>
      if At(node, r).Some? then Holds(clean, r, At(node, r).value) else Same(base, clean, r)
    ensures SameButMarker(clean, tree) <==> HeldButMarker(node, tree)
  {
    MarkerPath();
    if HeldButMarker(node, tree) {
      forall r | r != MARKER ensures Same(clean, tree, r) {
        if r != FOLDER && At(node, r).None? {
          NothingElse(node, base, tree, r);
        }
      }
    }
    if SameButMarker(clean, tree) {
      forall r | r != MARKER && At(node, r).Some? ensures Holds(tree, r, At(node, r).value) {
        assert Same(clean, tree, r);
      }
    }
  }

  /** A retry without faults succeeds and gives the tree of one clean run up to the bytes of
      the marker, whatever attempts came before and in whatever order directories are listed,
      exactly when none of them cut a file short; or, if one of them has already left a
      marker, exactly when the destination holds the whole legacy tree. */
  lemma RetryIsCleanIff(node: Node, base: Tree, attempts: seq<Attempt>, last: Node)
    requires Closed(base) && Named(node) && MARKER !in base && Migrate(Some(node), false, base, None, None).1
    requires AllList(node, attempts) && Listing(node, last)
    ensures var tree := After(base, attempts);
      var (after, ok) := Migrate(Some(last), false, tree, None, None);
      var clean := Migrate(Some(node), false, base, None, None).0;
      ok && MARKER in after && SameButMarker(clean, after) <==>
        if MARKER in tree then HeldButMarker(node, tree) else !TearsFile(base, attempts)
  {
    var tree, clean := After(base, attempts), Migrate(Some(node), false, base, None, None).0;
    MarkerPath();
    CleanRun(node, base);
    PartialAfterAll(node, base, base, attempts);
    if At(node, FOLDER).Some? {
      AgreesAt(node, base, FOLDER);
    }
    if MARKER in tree {
      assert MARKER[..1] in tree && tree[MARKER[..1]].Folder?;
      SameAsClean(node, base, clean, tree);
    } else {
      MigratableOnTheWay(node, base, tree);
      MigratableByShape(node, last, tree);
      CleanRun(last, tree);
      if Migratable(last, tree) {
        RetryGivesClean(node, base, tree, last, clean);
      }
    }
  }

  lemma RetryGivesClean(node: Node, base: Tree, tree: Tree, last: Node, clean: Tree)
    requires Closed(tree) && MARKER !in tree && Partial(node, base, tree)
    requires Listing(node, last) && Migratable(last, tree)
    requires node.Dir? && FolderAt(clean, FOLDER)
    requires forall r :: r != MARKER && r != FOLDER ==>
      if At(node, r).Some? then Holds(clean, r, At(node, r).value) else Same(base, clean, r)
    ensures SameButMarker(clean, Migrate(Some(last), false, tree, None, None).0)
  {
    CleanRun(last, tree);
    var after := Migrate(Some(last), false, tree, None, None).0;
    forall r | r != MARKER ensures Same(clean, after, r) {
      if r != FOLDER {
        HeldAcross(node, last, after, r);
        if At(node, r).None? {
          NothingElse(node, base, tree, r);
          assert Same(tree, after, r);
        }
      }
    }
  }

  /** If the legacy tree holds no marker, an attempt that cuts a file short keeps every later
      one from leaving a marker. */
  lemma {:induction false} TornNeverVouches(node: Node, base: Tree, tree: Tree, attempts: seq<Attempt>)
    requires Closed(tree) && MARKER !in base && MARKER !in tree && Partial(node, base, tree)
    requires Migratable(node, base) && At(node, MARKER).None? && AllList(node, attempts)
    requires AnyCut(node, base, tree) || TearsFile(tree, attempts)
    ensures MARKER !in After(tree, attempts)
    decreases |attempts|
  {
    if attempts != [] {
      var a, t := attempts[0], Next(tree, attempts[0]);
      AttemptVouches(node, tree, a);
      PartialAfterAttempt(node, base, tree, a);
      if AnyCut(node, base, tree) {
        CutFails(node, base, tree, a);
      }
      if MARKER in t {
        MarkerStops(t, attempts[1..]);
      } else {
        TornNeverVouches(node, base, t, attempts[1..]);
      }
    }
  }

  lemma CutFails(node: Node, base: Tree, tree: Tree, a: Attempt)
    requires Closed(tree) && AnyCut(node, base, tree) && Listing(node, a.listed)
    ensures !CopyOf(tree, a).ok
  {
    var r :| CutAt(node, base, tree, r);
    assert r[0..] == r;
    assert !Agrees(tree, r, Source(node, [], r).value);
    CompatibleByShape(node, a.listed, tree);
    CopyIsExact(a.listed, [], Started(tree));
    if CopyOf(tree, a).ok {
      SuccessIsClean(a.listed, [], Started(tree), a.fault);
    }
  }

  /** For a legacy tree without a marker the condition is only that no attempt cut a file short. */
  lemma RetryIsCleanUnlessTorn(node: Node, base: Tree, attempts: seq<Attempt>, last: Node)
    requires Closed(base) && Named(node) && MARKER !in base && Migrate(Some(node), false, base, None, None).1
    requires AllList(node, attempts) && Listing(node, last) && At(node, MARKER).None?
    ensures var (after, ok) := Migrate(Some(last), false, After(base, attempts), None, None);
      var clean := Migrate(Some(node), false, base, None, None).0;
      ok && MARKER in after && SameButMarker(clean, after) <==> !TearsFile(base, attempts)
  {
    RetryIsCleanIff(node, base, attempts, last);
    CleanRun(node, base);
    MarkerVouches(node, base, attempts);
    if TearsFile(base, attempts) {
      TornNeverVouches(node, base, base, attempts);
    }
  }
}
