/** The one-time copy of a legacy data root into the present one
    (app/src-tauri/src/main.rs, copy_legacy_tree and migrate_legacy_data_from).

    The destination is a map from paths to folders and files; symbolic links in it are
    left out. One operation of a run may fail, at any node, leaving a part of its effect. */
module Migration {
  import opened FileTree
  import opened Wrappers

  datatype Item = Folder | Data(content: Bytes)

  type Tree = map<Path, Item>

  /** The node at which an operation fails, counted along the walk. `left` says what the
      failing operation has already done: a folder it created but could not list, or the
      bytes of a file it could not copy in full. */
  datatype Fault = Fault(at: nat, left: Option<nat>)

  /** `torn` records that a copy stopped in the middle of a file. */
  datatype State = State(tree: Tree, visited: nat, ok: bool, torn: bool)

  predicate Fails(s: State, fault: Option<Fault>) {
    fault.Some? && fault.value.at == s.visited
  }

  function Failed(s: State): State {
    s.(visited := s.visited + 1, ok := false)
  }

  // ---------------------------------------------------------------- copying

  /** A path and the folders it lies in. */
  function Prefixes(p: Path): set<Path> {
    set i | 0 <= i <= |p| :: p[..i]
  }

  predicate Blocked(tree: Tree, p: Path) {
    exists q :: q in Prefixes(p) && q in tree && tree[q].Data?
  }

  /** create_dir_all: fails when a file is in the way. */
  function MakeFolders(tree: Tree, p: Path): Tree {
    tree + map q | q in Prefixes(p) :: Folder
  }

  function MakeParent(tree: Tree, p: Path): Tree {
    if p == [] then tree else MakeFolders(tree, p[..|p| - 1])
  }

  function Copy(node: Node, p: Path, s: State, fault: Option<Fault>): State {
    match node
    case Symlink => Failed(s)
    case Special => Failed(s)
    case Dir(entries) =>
      if Blocked(s.tree, p) then Failed(s)
      else
        var made := s.(tree := MakeFolders(s.tree, p), visited := s.visited + 1);
        if Fails(s, fault) then if fault.value.left.Some? then Failed(s).(tree := made.tree) else Failed(s)
        else CopyEntries(entries, p, made, fault)
    case File(content) =>
      if p in s.tree then
        if Fails(s, fault) || s.tree[p] != Data(content) then Failed(s) else s.(visited := s.visited + 1)
      else if p != [] && Blocked(s.tree, p[..|p| - 1]) then Failed(s)
      else
        var tree := MakeParent(s.tree, p);
        if !Fails(s, fault) then s.(tree := tree[p := Data(content)], visited := s.visited + 1)
        else if fault.value.left.None? then Failed(s)
        else
          var n := fault.value.left.value;
          if n < |content| then Failed(s).(tree := tree[p := Data(content[..n])], torn := true)
          else Failed(s).(tree := tree[p := Data(content)])
  }

  /** The loop over a directory's entries, ended by the first failure. */
  function CopyEntries(entries: seq<Entry>, p: Path, s: State, fault: Option<Fault>): State {
    if entries == [] then s
    else
      var next := Copy(entries[0].node, p + [entries[0].name], s, fault);
      if next.ok then CopyEntries(entries[1..], p, next, fault) else next
  }

  class Destination {
    var state: State

    constructor (tree: Tree)
      ensures state == State(tree, 0, true, false)
    {
      state := State(tree, 0, true, false);
    }

    method CopyLegacyTree(node: Node, p: Path, fault: Option<Fault>) returns (ok: bool)
      requires state.ok
      modifies this
      ensures state == Copy(node, p, old(state), fault) && ok == state.ok
      decreases node
    {
      var s := state;
      match node {
        case Symlink =>
          state := Failed(s);
        case Special =>
          state := Failed(s);
        case Dir(entries) =>
          if Blocked(s.tree, p) || (Fails(s, fault) && fault.value.left.None?) {
            state := Failed(s);
            return false;
          }
          state := State(MakeFolders(s.tree, p), s.visited + 1, true, s.torn);
          if Fails(s, fault) {
            state := state.(ok := false);
            return false;
          }
          ghost var whole := CopyEntries(entries, p, state, fault);
          for i := 0 to |entries|
            invariant state.ok && CopyEntries(entries[i..], p, state, fault) == whole
          {
            assert entries[i..][0] == entries[i] && entries[i..][1..] == entries[i + 1..];
            var copied := CopyLegacyTree(entries[i].node, p + [entries[i].name], fault);
            if !copied {
              return false;
            }
          }
        case File(content) =>
          CopyLegacyFile(content, p, fault);
      }
      ok := state.ok;
    }

    method CopyLegacyFile(content: Bytes, p: Path, fault: Option<Fault>)
      requires state.ok
      modifies this
      ensures state == Copy(File(content), p, old(state), fault)
    {
      var s := state;
      if p in s.tree {
        if Fails(s, fault) || s.tree[p] != Data(content) {
          state := Failed(s);
        } else {
          state := s.(visited := s.visited + 1);
        }
      } else if (p != [] && Blocked(s.tree, p[..|p| - 1])) || (Fails(s, fault) && fault.value.left.None?) {
        state := Failed(s);
      } else {
        var tree := MakeParent(s.tree, p);
        if !Fails(s, fault) {
          state := s.(tree := tree[p := Data(content)], visited := s.visited + 1);
        } else {
          var n := fault.value.left.value;
          var written := if n < |content| then content[..n] else content;
          state := Failed(s).(tree := tree[p := Data(written)], torn := s.torn || n < |content|);
        }
      }
    }

    method PutMarker(text: Bytes, fault: Option<MarkerFault>) returns (ok: bool)
      modifies this
      ensures (state.tree, ok) == WriteMarker(old(state.tree), MARKER, text, fault)
    {
      var folder := MARKER[..|MARKER| - 1];
      if Blocked(state.tree, folder) {
        return false;
      }
      state := state.(tree := MakeFolders(state.tree, folder));
      if (MARKER in state.tree && state.tree[MARKER].Folder?) || fault == Some(Unwritten) {
        return false;
      }
      if fault.Some? {
        var n := if fault.value.bytes <= |text| then fault.value.bytes else |text|;
        state := state.(tree := state.tree[MARKER := Data(text[..n])]);
        return false;
      }
      state := state.(tree := state.tree[MARKER := Data(text)]);
      return true;
    }

    method MigrateLegacyData(legacy: Option<Node>, same: bool, fault: Option<Fault>, markerFault: Option<MarkerFault>)
      returns (ok: bool)
      modifies this
      ensures (state.tree, ok) == Migrate(legacy, same, old(state.tree), fault, markerFault)
    {
      if MARKER in state.tree {
        return true;
      }
      if same || legacy.None? {
        ok := PutMarker(NOT_FOUND, markerFault);
        return;
      }
      state := Started(state.tree);
      ok := CopyLegacyTree(legacy.value, [], fault);
      if !ok {
        return false;
      }
      ok := PutMarker(COPIED, markerFault);
    }
  }

  // ---------------------------------------------------------------- what a legacy tree holds

  /** The node that belongs at `r` when `node` is copied to `p`. */
  function Source(node: Node, p: Path, r: Path): Option<Node> {
    if p <= r then At(node, r[|p|..]) else None
  }

  /** The same for the entries of a directory copied to `p`. */
  function SourceIn(entries: seq<Entry>, p: Path, r: Path): Option<Node> {
    if p < r then
      match Child(entries, r[|p|])
      case None => None
      case Some(child) => At(child, r[|p| + 1..])
    else None
  }

  /** Folders reach down to every item. */
  ghost predicate Closed(tree: Tree) {
    forall r, i :: r in tree && 0 <= i < |r| ==> r[..i] in tree && tree[r[..i]].Folder?
  }

  ghost predicate FolderAt(tree: Tree, p: Path) {
    p in tree && tree[p].Folder?
  }

  ghost predicate Ready(tree: Tree, p: Path) {
    Closed(tree) && (p != [] ==> FolderAt(tree, p[..|p| - 1]))
  }

  /** What stands at `r` does not contradict the node that belongs there. */
  ghost predicate Agrees(tree: Tree, r: Path, source: Node) {
    match source
    case Dir(_) => r in tree ==> tree[r].Folder?
    case File(content) => r in tree ==> tree[r] == Data(content)
    case _ => false
  }

  /** The legacy tree has only files and directories, and none collides with the destination. */
  ghost predicate Compatible(node: Node, p: Path, tree: Tree) {
    forall r :: Source(node, p, r).Some? ==> Agrees(tree, r, Source(node, p, r).value)
  }

  ghost predicate EntriesCompatible(entries: seq<Entry>, p: Path, tree: Tree) {
    forall r :: SourceIn(entries, p, r).Some? ==> Agrees(tree, r, SourceIn(entries, p, r).value)
  }

  ghost predicate Holds(tree: Tree, r: Path, source: Node) {
    r in tree && match source
      case Dir(_) => tree[r] == Folder
      case File(content) => tree[r] == Data(content)
      case _ => false
  }

  ghost predicate Same(before: Tree, after: Tree, r: Path) {
    (r in after <==> r in before) && (r in before ==> after[r] == before[r])
  }

  /** `after` is the union of `before` and the copied tree. */
  ghost predicate Union(node: Node, p: Path, before: Tree, after: Tree) {
    forall r :: if Source(node, p, r).Some? then Holds(after, r, Source(node, p, r).value) else Same(before, after, r)
  }

  ghost predicate EntriesUnion(entries: seq<Entry>, p: Path, before: Tree, after: Tree) {
    forall r ::
      if SourceIn(entries, p, r).Some? then Holds(after, r, SourceIn(entries, p, r).value) else Same(before, after, r)
  }

  lemma SourceOfDir(entries: seq<Entry>, p: Path, r: Path)
    ensures Source(Dir(entries), p, r) == if r == p then Some(Dir(entries)) else SourceIn(entries, p, r)
  {
    if p < r {
      assert r[|p|..][0] == r[|p|] && r[|p|..][1..] == r[|p| + 1..];
    }
  }

  lemma SourceOfFirst(entries: seq<Entry>, p: Path, r: Path)
    requires entries != []
    ensures SourceIn(entries, p, r) ==
      if p + [entries[0].name] <= r then Source(entries[0].node, p + [entries[0].name], r)
      else SourceIn(entries[1..], p, r)
    ensures NamedEntries(entries) && p + [entries[0].name] <= r ==> SourceIn(entries[1..], p, r).None?
  {
    if p < r {
      assert p + [r[|p|]] <= r;
    }
  }

  lemma FolderMade(tree: Tree, p: Path)
    requires Ready(tree, p)
    ensures Blocked(tree, p) <==> p in tree && tree[p].Data?
    ensures !Blocked(tree, p) ==> MakeFolders(tree, p) == tree[p := Folder]
    ensures !Blocked(tree, p) ==> Closed(tree[p := Folder])
  {
    forall q | q in Prefixes(p) && q != p ensures FolderAt(tree, q) {
      var i :| 0 <= i <= |p| && p[..i] == q;
      var parent := p[..|p| - 1];
      if i < |p| - 1 {
        assert parent[..i] == q;
      }
    }
    assert p[..|p|] == p;
    assert p in Prefixes(p);
  }

  lemma ParentMade(tree: Tree, p: Path, item: Item)
    requires Ready(tree, p) && p !in tree
    ensures MakeParent(tree, p) == tree
    ensures p != [] ==> !Blocked(tree, p[..|p| - 1])
    ensures Closed(tree[p := item])
  {
    if p != [] {
      var parent := p[..|p| - 1];
      assert Ready(tree, parent) by {
        if parent != [] {
          assert parent[..|parent| - 1] == parent[..|parent| - 1];
        }
      }
      FolderMade(tree, parent);
      assert tree[parent := Folder] == tree;
      forall i | 0 <= i < |p| ensures FolderAt(tree, p[..i]) {
        if i < |p| - 1 {
          assert parent[..i] == p[..i];
        }
      }
    }
    forall r, i | r in tree && 0 <= i < |r| ensures r[..i] != p {
    }
  }

  // ---------------------------------------------------------------- a run without faults

  lemma DirCompatible(entries: seq<Entry>, p: Path, tree: Tree)
    ensures Compatible(Dir(entries), p, tree) <==>
      (p in tree ==> tree[p].Folder?) && EntriesCompatible(entries, p, tree[p := Folder])
  {
    forall r ensures Source(Dir(entries), p, r) == if r == p then Some(Dir(entries)) else SourceIn(entries, p, r) {
      SourceOfDir(entries, p, r);
    }
    if (p in tree ==> tree[p].Folder?) && EntriesCompatible(entries, p, tree[p := Folder]) {
      forall r | Source(Dir(entries), p, r).Some? ensures Agrees(tree, r, Source(Dir(entries), p, r).value) {
        if r != p {
          assert Agrees(tree[p := Folder], r, SourceIn(entries, p, r).value);
        }
      }
    }
    if Compatible(Dir(entries), p, tree) {
      assert Agrees(tree, p, Source(Dir(entries), p, p).value);
      forall r | SourceIn(entries, p, r).Some? ensures Agrees(tree[p := Folder], r, SourceIn(entries, p, r).value) {
        assert Agrees(tree, r, Source(Dir(entries), p, r).value);
      }
    }
  }

  lemma DirUnion(entries: seq<Entry>, p: Path, before: Tree, after: Tree)
    requires EntriesUnion(entries, p, before[p := Folder], after)
    ensures Union(Dir(entries), p, before, after)
  {
    forall r
      ensures if Source(Dir(entries), p, r).Some? then Holds(after, r, Source(Dir(entries), p, r).value)
              else Same(before, after, r)
    {
      SourceOfDir(entries, p, r);
      assert if SourceIn(entries, p, r).Some? then Holds(after, r, SourceIn(entries, p, r).value)
             else Same(before[p := Folder], after, r);
    }
  }

  lemma FileSource(content: Bytes, p: Path, r: Path)
    ensures Source(File(content), p, r) == if r == p then Some(File(content)) else None
  {
  }

  lemma FileCopied(content: Bytes, p: Path, tree: Tree)
    ensures Compatible(File(content), p, tree) <==> (p in tree ==> tree[p] == Data(content))
    ensures Union(File(content), p, tree, tree[p := Data(content)])
  {
    forall r ensures Source(File(content), p, r) == if r == p then Some(File(content)) else None {
      FileSource(content, p, r);
    }
    if p in tree ==> tree[p] == Data(content) {
      forall r | Source(File(content), p, r).Some? ensures Agrees(tree, r, Source(File(content), p, r).value) {
        assert r == p;
      }
    } else {
      assert !Agrees(tree, p, Source(File(content), p, p).value);
    }
  }

  lemma EntriesCompatibleSplit(entries: seq<Entry>, p: Path, before: Tree, after: Tree)
    requires entries != [] && NamedEntries(entries)
    requires Union(entries[0].node, p + [entries[0].name], before, after)
    ensures EntriesCompatible(entries, p, before) <==>
      Compatible(entries[0].node, p + [entries[0].name], before) && EntriesCompatible(entries[1..], p, after)
  {
    var e, q, rest := entries[0], p + [entries[0].name], entries[1..];
    forall r ensures SourceIn(entries, p, r) == if q <= r then Source(e.node, q, r) else SourceIn(rest, p, r)
             ensures q <= r ==> SourceIn(rest, p, r).None?
    {
      SourceOfFirst(entries, p, r);
    }
    if EntriesCompatible(entries, p, before) {
      EntriesCompatibleFirst(entries, p, before);
      forall r | SourceIn(rest, p, r).Some? ensures Agrees(after, r, SourceIn(rest, p, r).value) {
        assert Agrees(before, r, SourceIn(entries, p, r).value);
        assert Same(before, after, r);
      }
    }
    if Compatible(e.node, q, before) && EntriesCompatible(rest, p, after) {
      forall r | SourceIn(entries, p, r).Some? ensures Agrees(before, r, SourceIn(entries, p, r).value) {
        if q <= r {
          assert Agrees(before, r, Source(e.node, q, r).value);
        } else {
          assert Agrees(after, r, SourceIn(rest, p, r).value);
          assert Same(before, after, r);
        }
      }
    }
  }

  lemma EntriesCompatibleFirst(entries: seq<Entry>, p: Path, before: Tree)
    requires entries != [] && EntriesCompatible(entries, p, before)
    ensures Compatible(entries[0].node, p + [entries[0].name], before)
  {
    var e, q := entries[0], p + [entries[0].name];
    forall r | Source(e.node, q, r).Some? ensures Agrees(before, r, Source(e.node, q, r).value) {
      SourceOfFirst(entries, p, r);
      assert Agrees(before, r, SourceIn(entries, p, r).value);
    }
  }

  lemma EntriesUnionJoin(entries: seq<Entry>, p: Path, before: Tree, middle: Tree, after: Tree)
    requires entries != [] && NamedEntries(entries)
    requires Union(entries[0].node, p + [entries[0].name], before, middle)
    requires EntriesUnion(entries[1..], p, middle, after)
    ensures EntriesUnion(entries, p, before, after)
  {
    var e, q, rest := entries[0], p + [entries[0].name], entries[1..];
    forall r
      ensures if SourceIn(entries, p, r).Some? then Holds(after, r, SourceIn(entries, p, r).value)
              else Same(before, after, r)
    {
      SourceOfFirst(entries, p, r);
      assert if Source(e.node, q, r).Some? then Holds(middle, r, Source(e.node, q, r).value)
             else Same(before, middle, r);
      assert if SourceIn(rest, p, r).Some? then Holds(after, r, SourceIn(rest, p, r).value) else Same(middle, after, r);
    }
  }

  /** Without faults a copy succeeds exactly when the trees are compatible, and then the
      destination is the union of both. */
  lemma {:induction false} CopyIsExact(node: Node, p: Path, s: State)
    requires s.ok && Ready(s.tree, p) && Named(node)
    ensures var s' := Copy(node, p, s, None);
      && (s'.ok <==> Compatible(node, p, s.tree))
      && (s'.ok ==> Union(node, p, s.tree, s'.tree) && Closed(s'.tree) && s'.torn == s.torn)
    decreases node
  {
    match node {
      case Symlink =>
        assert Source(node, p, p) == Some(node);
      case Special =>
        assert Source(node, p, p) == Some(node);
      case Dir(entries) =>
        FolderMade(s.tree, p);
        DirCompatible(entries, p, s.tree);
        if !Blocked(s.tree, p) {
          var made := s.(tree := MakeFolders(s.tree, p), visited := s.visited + 1);
          EntriesAreExact(entries, p, made);
          if CopyEntries(entries, p, made, None).ok {
            DirUnion(entries, p, s.tree, CopyEntries(entries, p, made, None).tree);
          }
        }
      case File(content) =>
        FileCopied(content, p, s.tree);
        if p !in s.tree {
          ParentMade(s.tree, p, Data(content));
        } else if s.tree[p] == Data(content) {
          assert s.tree[p := Data(content)] == s.tree;
        }
    }
  }

  lemma {:induction false} EntriesAreExact(entries: seq<Entry>, p: Path, s: State)
    requires s.ok && Closed(s.tree) && FolderAt(s.tree, p) && NamedEntries(entries)
    ensures var s' := CopyEntries(entries, p, s, None);
      && (s'.ok <==> EntriesCompatible(entries, p, s.tree))
      && (s'.ok ==> EntriesUnion(entries, p, s.tree, s'.tree) && Closed(s'.tree) && s'.torn == s.torn)
    decreases entries
  {
    if entries != [] {
      var q := p + [entries[0].name];
      assert q[..|q| - 1] == p;
      CopyIsExact(entries[0].node, q, s);
      var next := Copy(entries[0].node, q, s, None);
      if next.ok {
        assert Source(entries[0].node, q, p).None?;
        assert Same(s.tree, next.tree, p);
        EntriesAreExact(entries[1..], p, next);
        EntriesCompatibleSplit(entries, p, s.tree, next.tree);
        if CopyEntries(entries[1..], p, next, None).ok {
          EntriesUnionJoin(entries, p, s.tree, next.tree, CopyEntries(entries[1..], p, next, None).tree);
        }
      } else if EntriesCompatible(entries, p, s.tree) {
        EntriesCompatibleFirst(entries, p, s.tree);
      }
    }
  }

  // ---------------------------------------------------------------- runs with a fault

  /** A file of which only the beginning was copied. */
  ghost predicate Cut(tree: Tree, r: Path, source: Node) {
    source.File? && r in tree && tree[r].Data? && tree[r].content < source.content
  }

  /** Everything old is unchanged; what is new is the node that belongs there, but for a
      file that was cut short if the run tore one. */
  ghost predicate Reached(node: Node, p: Path, before: Tree, after: Tree, torn: bool) {
    && (forall r :: r in before ==> Same(before, after, r))
    && (forall r :: r in after && r !in before ==>
        Source(node, p, r).Some? &&
        (Holds(after, r, Source(node, p, r).value) || (torn && Cut(after, r, Source(node, p, r).value))))
    && (torn ==> exists r :: r !in before && Source(node, p, r).Some? && Cut(after, r, Source(node, p, r).value))
  }

  ghost predicate EntriesReached(entries: seq<Entry>, p: Path, before: Tree, after: Tree, torn: bool) {
    && (forall r :: r in before ==> Same(before, after, r))
    && (forall r :: r in after && r !in before ==>
        SourceIn(entries, p, r).Some? &&
        (Holds(after, r, SourceIn(entries, p, r).value) || (torn && Cut(after, r, SourceIn(entries, p, r).value))))
    && (torn ==>
          exists r :: r !in before && SourceIn(entries, p, r).Some? && Cut(after, r, SourceIn(entries, p, r).value))
  }

  lemma DirReached(entries: seq<Entry>, p: Path, before: Tree, after: Tree, torn: bool)
    requires (p in before ==> before[p] == Folder) && EntriesReached(entries, p, before[p := Folder], after, torn)
    ensures Reached(Dir(entries), p, before, after, torn)
  {
    var made := before[p := Folder];
    forall r | r in after && r !in before
      ensures Source(Dir(entries), p, r).Some?
      ensures var source := Source(Dir(entries), p, r).value;
        Holds(after, r, source) || (torn && Cut(after, r, source))
    {
      SourceOfDir(entries, p, r);
      if r == p {
        assert Same(made, after, p);
      }
    }
    forall r | r in before ensures Same(before, after, r) {
      assert Same(made, after, r);
    }
    if torn {
      var r :| r !in made && SourceIn(entries, p, r).Some? && Cut(after, r, SourceIn(entries, p, r).value);
      SourceOfDir(entries, p, r);
      assert Source(Dir(entries), p, r).Some? && Cut(after, r, Source(Dir(entries), p, r).value);
    }
  }

  lemma FirstReached(entries: seq<Entry>, p: Path, before: Tree, after: Tree, torn: bool)
    requires entries != [] && Reached(entries[0].node, p + [entries[0].name], before, after, torn)
    ensures EntriesReached(entries, p, before, after, torn)
  {
    var e, q := entries[0], p + [entries[0].name];
    forall r | Source(e.node, q, r).Some? ensures SourceIn(entries, p, r) == Source(e.node, q, r) {
      SourceOfFirst(entries, p, r);
    }
    if torn {
      var r :| r !in before && Source(e.node, q, r).Some? && Cut(after, r, Source(e.node, q, r).value);
      assert SourceIn(entries, p, r).Some? && Cut(after, r, SourceIn(entries, p, r).value);
    }
  }

  lemma RestReached(entries: seq<Entry>, p: Path, before: Tree, middle: Tree, after: Tree, torn: bool)
    requires entries != [] && NamedEntries(entries)
    requires EntriesReached(entries, p, before, middle, false)
    requires EntriesReached(entries[1..], p, middle, after, torn)
    ensures EntriesReached(entries, p, before, after, torn)
  {
    var rest := entries[1..];
    forall r | SourceIn(rest, p, r).Some? ensures SourceIn(entries, p, r) == SourceIn(rest, p, r) {
      SourceOfFirst(entries, p, r);
    }
    forall r | r in before ensures Same(before, after, r) {
      assert Same(before, middle, r) && Same(middle, after, r);
    }
    forall r | r in after && r !in before
      ensures SourceIn(entries, p, r).Some?
      ensures Holds(after, r, SourceIn(entries, p, r).value) || (torn && Cut(after, r, SourceIn(entries, p, r).value))
    {
      if r in middle {
        assert Same(middle, after, r);
        assert Holds(middle, r, SourceIn(entries, p, r).value);
      }
    }
    if torn {
      var r :| r !in middle && SourceIn(rest, p, r).Some? && Cut(after, r, SourceIn(rest, p, r).value);
      assert r !in before by {
        assert r in before ==> Same(before, middle, r);
      }
      assert SourceIn(entries, p, r).Some? && Cut(after, r, SourceIn(entries, p, r).value);
    }
  }

  lemma FileReached(content: Bytes, p: Path, tree: Tree, written: Bytes)
    requires p !in tree && written <= content
    ensures Reached(File(content), p, tree, tree[p := Data(written)], |written| < |content|)
  {
    var after := tree[p := Data(written)];
    assert Source(File(content), p, p) == Some(File(content));
    if |written| < |content| {
      assert Cut(after, p, Source(File(content), p, p).value);
    }
  }

  /** Whatever fails, no pre-existing item changes, and everything new is a faithful copy,
      except the one file that a torn copy cut short. */
  lemma {:induction false} CopyReaches(node: Node, p: Path, s: State, fault: Option<Fault>)
    requires s.ok && !s.torn && Ready(s.tree, p) && Named(node)
    ensures var s' := Copy(node, p, s, fault);
      Reached(node, p, s.tree, s'.tree, s'.torn) && Closed(s'.tree) && (s'.ok ==> !s'.torn)
    decreases node
  {
    match node {
      case Symlink =>
      case Special =>
      case Dir(entries) =>
        FolderMade(s.tree, p);
        if !Blocked(s.tree, p) {
          var made := s.(tree := MakeFolders(s.tree, p), visited := s.visited + 1);
          EntriesReach(entries, p, made, fault);
          var last := CopyEntries(entries, p, made, fault);
          DirReached(entries, p, s.tree, last.tree, last.torn);
          DirReached(entries, p, s.tree, made.tree, false);
        }
      case File(content) =>
        if p !in s.tree {
          var written := if Fails(s, fault) && fault.value.left.Some? && fault.value.left.value < |content|
                         then content[..fault.value.left.value] else content;
          ParentMade(s.tree, p, Data(written));
          FileReached(content, p, s.tree, written);
        }
    }
  }

  lemma {:induction false} EntriesReach(entries: seq<Entry>, p: Path, s: State, fault: Option<Fault>)
    requires s.ok && !s.torn && Closed(s.tree) && FolderAt(s.tree, p) && NamedEntries(entries)
    ensures var s' := CopyEntries(entries, p, s, fault);
      EntriesReached(entries, p, s.tree, s'.tree, s'.torn) && Closed(s'.tree) && (s'.ok ==> !s'.torn)
    decreases entries
  {
    if entries != [] {
      var q := p + [entries[0].name];
      assert q[..|q| - 1] == p;
      CopyReaches(entries[0].node, q, s, fault);
      var next := Copy(entries[0].node, q, s, fault);
      FirstReached(entries, p, s.tree, next.tree, next.torn);
      if next.ok {
        assert Same(s.tree, next.tree, p);
        EntriesReach(entries[1..], p, next, fault);
        var last := CopyEntries(entries[1..], p, next, fault);
        RestReached(entries, p, s.tree, next.tree, last.tree, last.torn);
      }
    }
  }

  /** A run that reports success met no fault. */
  lemma {:induction false} SuccessIsClean(node: Node, p: Path, s: State, fault: Option<Fault>)
    requires Copy(node, p, s, fault).ok && s.ok
    ensures Copy(node, p, s, fault) == Copy(node, p, s, None)
    decreases node
  {
    if node.Dir? {
      EntriesSuccessIsClean(node.entries, p, s.(tree := MakeFolders(s.tree, p), visited := s.visited + 1), fault);
    }
  }

  lemma {:induction false} EntriesSuccessIsClean(entries: seq<Entry>, p: Path, s: State, fault: Option<Fault>)
    requires CopyEntries(entries, p, s, fault).ok && s.ok
    ensures CopyEntries(entries, p, s, fault) == CopyEntries(entries, p, s, None)
    decreases entries
  {
    if entries != [] {
      SuccessIsClean(entries[0].node, p + [entries[0].name], s, fault);
      EntriesSuccessIsClean(entries[1..], p, Copy(entries[0].node, p + [entries[0].name], s, fault), fault);
    }
  }

  // ---------------------------------------------------------------- retrying

  function Started(tree: Tree): State {
    State(tree, 0, true, false)
  }

  /** A torn file is a collision for ever. */
  lemma TornIsIncompatible(node: Node, before: Tree, after: Tree)
    requires Reached(node, [], before, after, true)
    ensures !Compatible(node, [], after)
  {
    var r :| r !in before && Source(node, [], r).Some? && Cut(after, r, Source(node, [], r).value);
    assert !Agrees(after, r, Source(node, [], r).value);
  }

  lemma ReachedIsCompatible(node: Node, before: Tree, after: Tree)
    requires Reached(node, [], before, after, false)
    ensures Compatible(node, [], before) <==> Compatible(node, [], after)
  {
    forall r | Source(node, [], r).Some?
      ensures Agrees(before, r, Source(node, [], r).value) <==> Agrees(after, r, Source(node, [], r).value)
    {
      if r in before {
        assert Same(before, after, r);
      }
    }
  }

  lemma UnionAfterReached(node: Node, before: Tree, middle: Tree, after: Tree)
    requires Reached(node, [], before, middle, false) && Union(node, [], middle, after)
    ensures Union(node, [], before, after)
  {
    forall r
      ensures if Source(node, [], r).Some? then Holds(after, r, Source(node, [], r).value) else Same(before, after, r)
    {
      assert if Source(node, [], r).Some? then Holds(after, r, Source(node, [], r).value) else Same(middle, after, r);
    }
  }

  lemma OneUnion(node: Node, before: Tree, x: Tree, y: Tree)
    requires Union(node, [], before, x) && Union(node, [], before, y)
    ensures x == y
  {
    forall r ensures Same(x, y, r) {
      assert if Source(node, [], r).Some? then Holds(x, r, Source(node, [], r).value) else Same(before, x, r);
      assert if Source(node, [], r).Some? then Holds(y, r, Source(node, [], r).value) else Same(before, y, r);
    }
    forall r | r in x ensures r in y && y[r] == x[r] {
      assert Same(x, y, r);
    }
    forall r | r in y ensures r in x {
      assert Same(x, y, r);
    }
  }

  /** One run: the tree as its directories were listed this time, and its fault. */
  datatype Run = Run(listed: Node, fault: Option<Fault>)

  /** The runs list the same tree, each in its own order. */
  ghost predicate ListSame(node: Node, runs: seq<Run>) {
    forall i :: 0 <= i < |runs| ==> Named(runs[i].listed) && SameShape(node, runs[i].listed)
  }

  /** The destination after these runs, one after the other. */
  function Retried(tree: Tree, runs: seq<Run>): Tree
    decreases |runs|
  {
    if runs == [] then tree else Retried(Copy(runs[0].listed, [], Started(tree), runs[0].fault).tree, runs[1..])
  }

  /** One of the runs tears a file. */
  predicate Tears(tree: Tree, runs: seq<Run>)
    decreases |runs|
  {
    runs != [] &&
      var s := Copy(runs[0].listed, [], Started(tree), runs[0].fault);
      s.torn || Tears(s.tree, runs[1..])
  }

  lemma SourceOfShape(a: Node, b: Node, r: Path, tree: Tree)
    requires SameShape(a, b)
    ensures Source(a, [], r).Some? <==> Source(b, [], r).Some?
    ensures Source(a, [], r).Some? ==>
      var x, y := Source(a, [], r).value, Source(b, [], r).value;
      && (Agrees(tree, r, x) <==> Agrees(tree, r, y))
      && (Holds(tree, r, x) <==> Holds(tree, r, y))
      && (Cut(tree, r, x) <==> Cut(tree, r, y))
  {
    assert SameAt(a, b, r) && r[0..] == r;
  }

  lemma ReachedByShape(a: Node, b: Node, before: Tree, after: Tree, torn: bool)
    requires SameShape(a, b) && Reached(b, [], before, after, torn)
    ensures Reached(a, [], before, after, torn)
  {
    forall r | r in after && r !in before
      ensures Source(a, [], r).Some?
      ensures Holds(after, r, Source(a, [], r).value) || (torn && Cut(after, r, Source(a, [], r).value))
    {
      SourceOfShape(a, b, r, after);
    }
    if torn {
      var r :| r !in before && Source(b, [], r).Some? && Cut(after, r, Source(b, [], r).value);
      SourceOfShape(a, b, r, after);
      assert Source(a, [], r).Some? && Cut(after, r, Source(a, [], r).value);
    }
  }

  /** One run of a tree of the same shape, seen from `node`. */
  lemma RunReaches(node: Node, tree: Tree, run: Run)
    requires Closed(tree) && Named(run.listed) && SameShape(node, run.listed)
    ensures var s := Copy(run.listed, [], Started(tree), run.fault);
      Reached(node, [], tree, s.tree, s.torn) && Closed(s.tree) && (s.ok ==> !s.torn)
  {
    CopyReaches(run.listed, [], Started(tree), run.fault);
    var s := Copy(run.listed, [], Started(tree), run.fault);
    ReachedByShape(node, run.listed, tree, s.tree, s.torn);
  }

  /** A run over a torn or colliding destination never succeeds, nor does a later one. */
  lemma {:induction false} StaysIncompatible(node: Node, tree: Tree, runs: seq<Run>)
    requires Closed(tree) && !Compatible(node, [], tree) && ListSame(node, runs)
    ensures Closed(Retried(tree, runs)) && !Compatible(node, [], Retried(tree, runs))
    decreases |runs|
  {
    if runs != [] {
      var s := Copy(runs[0].listed, [], Started(tree), runs[0].fault);
      RunReaches(node, tree, runs[0]);
      if s.torn {
        TornIsIncompatible(node, tree, s.tree);
      } else {
        ReachedIsCompatible(node, tree, s.tree);
      }
      StaysIncompatible(node, s.tree, runs[1..]);
    }
  }

  /** After any number of failed runs, each listing the directories in its own order, a run
      without faults reaches the tree of one clean run, exactly when no run tore a file. */
  lemma {:induction false} RetryReachesCleanTree(node: Node, tree: Tree, runs: seq<Run>, last: Node)
    requires Closed(tree) && Named(node) && Compatible(node, [], tree) && ListSame(node, runs)
    requires Named(last) && SameShape(node, last)
    ensures var retry := Copy(last, [], Started(Retried(tree, runs)), None);
      && (retry.ok <==> !Tears(tree, runs))
      && (retry.ok ==> retry.tree == Copy(node, [], Started(tree), None).tree)
    decreases |runs|
  {
    if runs == [] {
      CopyIsExact(node, [], Started(tree));
      OrderDoesNotMatter(node, last, tree);
    } else {
      var s := Copy(runs[0].listed, [], Started(tree), runs[0].fault);
      RunReaches(node, tree, runs[0]);
      if s.torn {
        TornIsIncompatible(node, tree, s.tree);
        StaysIncompatible(node, s.tree, runs[1..]);
        CopyIsExact(node, [], Started(Retried(tree, runs)));
        OrderDoesNotMatter(node, last, Retried(tree, runs));
      } else {
        ReachedIsCompatible(node, tree, s.tree);
        RetryReachesCleanTree(node, s.tree, runs[1..], last);
        SameCleanTree(node, tree, s.tree);
      }
    }
  }

  lemma SameCleanTree(node: Node, before: Tree, after: Tree)
    requires Closed(before) && Closed(after) && Named(node) && Compatible(node, [], before)
    requires Reached(node, [], before, after, false)
    ensures Copy(node, [], Started(after), None).tree == Copy(node, [], Started(before), None).tree
  {
    ReachedIsCompatible(node, before, after);
    CopyIsExact(node, [], Started(before));
    CopyIsExact(node, [], Started(after));
    UnionAfterReached(node, before, after, Copy(node, [], Started(after), None).tree);
    OneUnion(node, before, Copy(node, [], Started(after), None).tree, Copy(node, [], Started(before), None).tree);
  }

  lemma CompatibleByShape(a: Node, b: Node, tree: Tree)
    requires SameShape(a, b)
    ensures Compatible(a, [], tree) <==> Compatible(b, [], tree)
  {
    forall r
      ensures Source(a, [], r).Some? <==> Source(b, [], r).Some?
      ensures Source(a, [], r).Some? ==>
        (Agrees(tree, r, Source(a, [], r).value) <==> Agrees(tree, r, Source(b, [], r).value))
    {
      SourceOfShape(a, b, r, tree);
    }
  }

  /** The order in which directories list their entries makes no difference. */
  lemma OrderDoesNotMatter(a: Node, b: Node, tree: Tree)
    requires Closed(tree) && Named(a) && Named(b) && SameShape(a, b)
    ensures var x, y := Copy(a, [], Started(tree), None), Copy(b, [], Started(tree), None);
      (x.ok <==> y.ok) && (x.ok ==> x.tree == y.tree)
  {
    CopyIsExact(a, [], Started(tree));
    CopyIsExact(b, [], Started(tree));
    CompatibleByShape(a, b, tree);
    var x, y := Copy(a, [], Started(tree), None), Copy(b, [], Started(tree), None);
    if x.ok && y.ok {
      forall r
        ensures if Source(a, [], r).Some? then Holds(y.tree, r, Source(a, [], r).value) else Same(tree, y.tree, r)
      {
        SourceOfShape(a, b, r, y.tree);
        assert if Source(b, [], r).Some? then Holds(y.tree, r, Source(b, [], r).value) else Same(tree, y.tree, r);
      }
      OneUnion(a, tree, x.tree, y.tree);
    }
  }

  /** The same thing lies at `q` in both trees, whatever the order of a directory. */
  predicate SameAt(a: Node, b: Node, q: Path) {
    match (At(a, q), At(b, q))
    case (None, None) => true
    case (Some(Dir(_)), Some(Dir(_))) => true
    case (Some(x), Some(y)) => x == y
    case _ => false
  }

  ghost predicate SameShape(a: Node, b: Node) {
    forall q :: SameAt(a, b, q)
  }

  // ---------------------------------------------------------------- the marker

  const MARKER: Path := ["migrations", "legacy-publikclip-v1.done"]

  function Ascii(s: string): Bytes {
    seq(|s|, i requires 0 <= i < |s| => (s[i] as int % 256) as bv8)
  }

  /** How writing the marker fails: before anything, or with some bytes written. */
  datatype MarkerFault = Unwritten | Written(bytes: nat)

  function WriteMarker(tree: Tree, marker: Path, text: Bytes, fault: Option<MarkerFault>): (Tree, bool)
    requires marker != []
  {
    var folder := marker[..|marker| - 1];
    if Blocked(tree, folder) then (tree, false)
    else
      var made := MakeFolders(tree, folder);
      if marker in made && made[marker].Folder? then (made, false)
      else match fault
        case None => (made[marker := Data(text)], true)
        case Some(Unwritten) => (made, false)
        case Some(Written(n)) => (made[marker := Data(text[..if n <= |text| then n else |text|])], false)
  }

  const NOT_FOUND: Bytes := Ascii("no legacy root found")
  const COPIED: Bytes := Ascii("legacy root copied; source preserved")

  /** The whole function; `legacy` is None when there is no legacy root, and `same` holds
      when it is the destination itself. */
  function Migrate(legacy: Option<Node>, same: bool, tree: Tree, fault: Option<Fault>, markerFault: Option<MarkerFault>)
    : (Tree, bool)
  {
    if MARKER in tree then (tree, true)
    else if same || legacy.None? then WriteMarker(tree, MARKER, NOT_FOUND, markerFault)
    else
      var s := Copy(legacy.value, [], Started(tree), fault);
      if !s.ok then (s.tree, false)
      else WriteMarker(s.tree, MARKER, COPIED, markerFault)
  }

  /** Whatever happens, no pre-existing item of the destination changes. */
  lemma MigrationKeepsFiles(legacy: Option<Node>, same: bool, tree: Tree, fault: Option<Fault>,
                            markerFault: Option<MarkerFault>)
    requires Closed(tree) && (legacy.Some? ==> Named(legacy.value))
    ensures var after := Migrate(legacy, same, tree, fault, markerFault).0;
      forall r :: r in tree ==> r in after && after[r] == tree[r]
  {
    if MARKER !in tree {
      if same || legacy.None? {
        MarkerKeeps(tree, NOT_FOUND, markerFault);
      } else {
        var s := Copy(legacy.value, [], Started(tree), fault);
        CopyReaches(legacy.value, [], Started(tree), fault);
        MarkerKeeps(s.tree, COPIED, markerFault);
        forall r | r in tree ensures Same(tree, s.tree, r) {
        }
      }
    }
  }

  lemma MarkerKeeps(tree: Tree, text: Bytes, fault: Option<MarkerFault>)
    ensures var after := WriteMarker(tree, MARKER, text, fault).0;
      forall r :: r in tree && r != MARKER ==> r in after && after[r] == tree[r]
  {
  }

  /** Success means the union of both trees and the marker. It comes exactly when the trees
      are compatible and nothing in them is in the marker's way. */
  lemma MigrationIsExact(node: Node, tree: Tree)
    requires Closed(tree) && Named(node) && MARKER !in tree
    ensures var (after, ok) := Migrate(Some(node), false, tree, None, None);
      && (ok <==>
          && Compatible(node, [], tree)
          && node.Dir?
          && !(MARKER[..1] in tree && tree[MARKER[..1]].Data?)
          && !(At(node, MARKER[..1]).Some? && At(node, MARKER[..1]).value.File?)
          && !(At(node, MARKER).Some? && At(node, MARKER).value.Dir?))
      && (ok ==>
          && MARKER == ["migrations", "legacy-publikclip-v1.done"]
          && MARKER in after && after[MARKER] == Data(Ascii("legacy root copied; source preserved"))
          && FolderAt(after, MARKER[..1])
          && forall r :: r != MARKER && r != MARKER[..1] ==>
              if At(node, r).Some? then Holds(after, r, At(node, r).value) else Same(tree, after, r))
  {
    CopyIsExact(node, [], Started(tree));
    var s := Copy(node, [], Started(tree), None);
    if s.ok {
      assert MARKER == [MARKER[0], MARKER[1]] && MARKER[..1] == [MARKER[0]];
      MarkerWritten(node, tree, s.tree, MARKER[0], MARKER[1], COPIED);
    }
  }

  lemma UnionAt(node: Node, tree: Tree, copied: Tree, r: Path)
    requires Union(node, [], tree, copied)
    ensures if At(node, r).Some? then Holds(copied, r, At(node, r).value) else Same(tree, copied, r)
  {
    assert r[0..] == r;
    assert if Source(node, [], r).Some? then Holds(copied, r, Source(node, [], r).value) else Same(tree, copied, r);
  }

  lemma AgreesAt(node: Node, tree: Tree, r: Path)
    requires Compatible(node, [], tree) && At(node, r).Some?
    ensures Agrees(tree, r, At(node, r).value)
  {
    assert r[0..] == r;
    assert Source(node, [], r).Some?;
  }

  lemma FoldersOf(folder: string)
    ensures Prefixes([folder]) == {[], [folder]}
  {
    assert [folder][..0] == [] && [folder][..1] == [folder];
  }

  lemma MarkerWritten(node: Node, tree: Tree, copied: Tree, folder: string, name: string, text: Bytes)
    requires Closed(tree) && [folder, name] !in tree && Compatible(node, [], tree) && Union(node, [], tree, copied)
    ensures var (after, ok) := WriteMarker(copied, [folder, name], text, None);
      && (ok <==>
          && node.Dir?
          && !([folder] in tree && tree[[folder]].Data?)
          && !(At(node, [folder]).Some? && At(node, [folder]).value.File?)
          && !(At(node, [folder, name]).Some? && At(node, [folder, name]).value.Dir?))
      && (ok ==>
          && [folder, name] in after && after[[folder, name]] == Data(text)
          && FolderAt(after, [folder])
          && forall r :: r != [folder, name] && r != [folder] ==>
              if At(node, r).Some? then Holds(after, r, At(node, r).value) else Same(tree, after, r))
  {
    var parent, marker := [folder], [folder, name];
    assert marker[..1] == parent;
    FoldersOf(folder);
    forall r ensures if At(node, r).Some? then Holds(copied, r, At(node, r).value) else Same(tree, copied, r) {
      UnionAt(node, tree, copied, r);
    }
    AgreesAt(node, tree, []);
    if At(node, parent).Some? {
      AgreesAt(node, tree, parent);
    }
    if At(node, marker).Some? {
      AgreesAt(node, tree, marker);
    }
    assert Holds(copied, [], node);
  }

  /** Without a legacy root, or when it is the destination itself, only a marker saying so
      and its folder are added. */
  lemma NothingToMigrate(legacy: Option<Node>, same: bool, tree: Tree)
    requires Closed(tree) && MARKER !in tree && (same || legacy.None?)
    ensures var (after, ok) := Migrate(legacy, same, tree, None, None);
      && (ok <==> !([] in tree && tree[[]].Data?) && !(MARKER[..1] in tree && tree[MARKER[..1]].Data?))
      && (ok ==> FolderAt(after, MARKER[..1]))
      && (ok ==> MARKER in after && after[MARKER] == Data(Ascii("no legacy root found")))
      && (ok ==> forall r :: r != MARKER && r != MARKER[..1] && r != [] ==> Same(tree, after, r))
  {
    assert MARKER == [MARKER[0], MARKER[1]] && MARKER[..1] == [MARKER[0]];
    FoldersOf(MARKER[0]);
  }

  /** A failed copy leaves no marker unless the legacy tree holds one itself. */
  lemma FailureWritesNoMarker(node: Node, tree: Tree, fault: Option<Fault>, markerFault: Option<MarkerFault>)
    requires Closed(tree) && Named(node) && MARKER !in tree && At(node, MARKER).None?
    requires !Copy(node, [], Started(tree), fault).ok
    ensures var (after, ok) := Migrate(Some(node), false, tree, fault, markerFault);
      !ok && MARKER !in after
  {
    CopyReaches(node, [], Started(tree), fault);
    assert MARKER[0..] == MARKER;
    assert Source(node, [], MARKER).None?;
  }

  /** A fault beyond the last visited node has no effect. */
  lemma {:induction false} LateFault(node: Node, p: Path, s: State, fault: Fault)
    requires s.ok && Copy(node, p, s, None).visited <= fault.at
    ensures Copy(node, p, s, Some(fault)) == Copy(node, p, s, None) && s.visited < Copy(node, p, s, None).visited
    decreases node
  {
    if node.Dir? && !Blocked(s.tree, p) {
      EntriesLateFault(node.entries, p, s.(tree := MakeFolders(s.tree, p), visited := s.visited + 1), fault);
    }
  }

  lemma {:induction false} EntriesLateFault(entries: seq<Entry>, p: Path, s: State, fault: Fault)
    requires s.ok && CopyEntries(entries, p, s, None).visited <= fault.at
    ensures CopyEntries(entries, p, s, Some(fault)) == CopyEntries(entries, p, s, None)
    ensures s.visited + (if entries == [] then 0 else 1) <= CopyEntries(entries, p, s, None).visited
    decreases entries
  {
    if entries != [] {
      var q := p + [entries[0].name];
      var next := Copy(entries[0].node, q, s, None);
      if next.ok {
        MoreVisits(entries[1..], p, next);
      }
      LateFault(entries[0].node, q, s, fault);
      if next.ok {
        EntriesLateFault(entries[1..], p, next, fault);
      }
    }
  }

  lemma {:induction false} MoreVisits(entries: seq<Entry>, p: Path, s: State)
    ensures s.visited + (if entries == [] then 0 else 1) <= CopyEntries(entries, p, s, None).visited
    decreases entries
  {
    if entries != [] {
      var q := p + [entries[0].name];
      NodeVisits(entries[0].node, q, s);
      MoreVisits(entries[1..], p, Copy(entries[0].node, q, s, None));
    }
  }

  lemma {:induction false} NodeVisits(node: Node, p: Path, s: State)
    ensures s.visited < Copy(node, p, s, None).visited
    decreases node
  {
    if node.Dir? {
      MoreVisits(node.entries, p, s.(tree := MakeFolders(s.tree, p), visited := s.visited + 1));
    }
  }

  /** The last operation can fail after it has done its work: everything is copied, and the
      run still reports failure. */
  lemma {:induction false} LastFails(node: Node, p: Path, s: State) returns (left: nat)
    requires s.ok && Copy(node, p, s, None).ok
    ensures var clean := Copy(node, p, s, None);
      s.visited < clean.visited &&
      var late := Copy(node, p, s, Some(Fault(clean.visited - 1, Some(left))));
      !late.ok && late.tree == clean.tree
    decreases node
  {
    NodeVisits(node, p, s);
    left := 0;
    match node {
      case File(content) => left := |content|;
      case Dir(entries) =>
        if entries != [] {
          var made := s.(tree := MakeFolders(s.tree, p), visited := s.visited + 1);
          MoreVisits(entries, p, made);
          left := LastEntryFails(entries, p, made);
        }
      case _ =>
    }
  }

  lemma {:induction false} LastEntryFails(entries: seq<Entry>, p: Path, s: State) returns (left: nat)
    requires entries != [] && s.ok && CopyEntries(entries, p, s, None).ok
    ensures var clean := CopyEntries(entries, p, s, None);
      clean.visited > 0 &&
      var late := CopyEntries(entries, p, s, Some(Fault(clean.visited - 1, Some(left))));
      !late.ok && late.tree == clean.tree
    decreases entries
  {
    var e, q, rest := entries[0], p + [entries[0].name], entries[1..];
    var next := Copy(e.node, q, s, None);
    MoreVisits(entries, p, s);
    if rest == [] {
      left := LastFails(e.node, q, s);
    } else {
      left := LastEntryFails(rest, p, next);
      MoreVisits(rest, p, next);
      LateFault(e.node, q, s, Fault(CopyEntries(rest, p, next, None).visited - 1, Some(left)));
    }
  }

  /** Of compatible trees, some failure of the copy alone leaves a marker behind exactly when
      the legacy tree holds something at its path; the next run then believes that everything
      was copied. */
  lemma MarkerLeaksIff(node: Node, tree: Tree)
    requires Closed(tree) && Named(node) && MARKER !in tree && Compatible(node, [], tree)
    ensures (exists fault :: var s := Copy(node, [], Started(tree), fault); !s.ok && MARKER in s.tree) <==>
      At(node, MARKER).Some?
  {
    if At(node, MARKER).Some? {
      CopyIsExact(node, [], Started(tree));
      var left := LastFails(node, [], Started(tree));
      var clean := Copy(node, [], Started(tree), None);
      var fault := Some(Fault(clean.visited - 1, Some(left)));
      assert MARKER[0..] == MARKER;
      assert Source(node, [], MARKER).Some? && Holds(clean.tree, MARKER, Source(node, [], MARKER).value);
      assert !Copy(node, [], Started(tree), fault).ok && MARKER in Copy(node, [], Started(tree), fault).tree;
    } else {
      forall fault | !Copy(node, [], Started(tree), fault).ok
        ensures MARKER !in Copy(node, [], Started(tree), fault).tree
      {
        FailureWritesNoMarker(node, tree, fault, None);
      }
    }
  }

  /** A tree that lists a file in a folder before its data, and a copy that stops in between. */
  lemma CopyStopsInBetween(tree: Tree, dir: string, name: string, data: string, content: Bytes)
    requires tree == map[[] := Folder] && dir != data
    ensures var fault := Some(Fault(3, None));
      var entries := [Entry(dir, Dir([Entry(name, File([]))])), Entry(data, File(content))];
      var s := CopyEntries(entries, [], State(tree, 1, true, false), fault);
      !s.ok && [dir, name] in s.tree && [data] !in s.tree
  {
    var fault := Some(Fault(3, None));
    var folder, file, inner := [dir], [data], [Entry(name, File([]))];
    var entries := [Entry(dir, Dir(inner)), Entry(data, File(content))];
    assert [] + [dir] == folder && [] + [data] == file && folder + [name] == [dir, name];
    assert [dir, name][..1] == folder && file[..0] == [];
    FoldersOf(dir);
    var s1 := State(tree, 1, true, false);
    var s2 := State(tree[folder := Folder], 2, true, false);
    var s3 := State(s2.tree[[dir, name] := Data([])], 3, true, false);
    assert MakeFolders(tree, folder) == s2.tree && MakeFolders(s2.tree, folder) == s2.tree;
    assert Copy(File([]), [dir, name], s2, fault) == s3;
    assert inner[1..] == [];
    assert CopyEntries(inner, folder, s2, fault) == s3;
    assert Copy(Dir(inner), folder, s1, fault) == s3;
    assert entries[1..] == [Entry(data, File(content))];
    assert |file| != |[dir, name]| && file[0] != folder[0];
    assert !Copy(File(content), file, s3, fault).ok;
    assert CopyEntries(entries[1..], [], s3, fault) == Copy(File(content), file, s3, fault);
  }

  /** A legacy tree that holds a marker: one failure, and its data is never copied. */
  lemma LegacyMarkerHidesData(content: Bytes)
    ensures var node := Dir([Entry(MARKER[0], Dir([Entry(MARKER[1], File([]))])), Entry("data", File(content))]);
      var (failed, ok) := Migrate(Some(node), false, map[], Some(Fault(3, None)), None);
      !ok && Migrate(Some(node), false, failed, None, None) == (failed, true) && ["data"] !in failed
  {
    var root: Path := [];
    assert root[..0] == root;
    assert Prefixes([]) == {root};
    var made := MakeFolders(map[], []);
    assert made == map[[] := Folder];
    assert MARKER == [MARKER[0], MARKER[1]] && |MARKER[0]| != |"data"|;
    CopyStopsInBetween(made, MARKER[0], MARKER[1], "data", content);
  }
}
