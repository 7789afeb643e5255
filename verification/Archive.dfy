/** Extraction of a tar archive through a staging directory
    (pipeline/clipgauge_pipeline/runtime.py, extract_archive_verified).

    Names come split at the slashes, the empty name having no parts, and paths are
    identified as the platform identifies them. Directories matter only where they are in a file's way. */
module Archive {
  import opened Wrappers

  type Bytes = seq<bv8>

  type Path = seq<string>

  datatype Name = Name(absolute: bool, parts: seq<string>)

  datatype Kind = Directory | Regular(content: Bytes) | Link(target: Name) | Special

  datatype Member = Member(name: Name, kind: Kind)

  datatype Error = UnsafeName | DuplicateMember | InvalidLink | NotAFile | MissingTarget | CyclicLink | IoFault

  datatype Node = File(content: Bytes) | Symlink(target: Path)

  // ---------------------------------------------------------------- names

  function WithoutDots(parts: seq<string>): Path {
    if parts == [] then []
    else (if parts[0] in {"", "."} then [] else [parts[0]]) + WithoutDots(parts[1..])
  }

  /** The path of a name that stays inside the archive root. */
  function SafeMember(name: Name): Option<Path> {
    if name.parts == [] || name.absolute || ".." in name.parts then None
    else Some(WithoutDots(name.parts))
  }

  /** Lexical resolution of dots, starting in the directory `base`. */
  function Normalized(base: Path, parts: seq<string>): Path
    decreases |parts|
  {
    if parts == [] then base
    else if parts[0] in {"", "."} then Normalized(base, parts[1..])
    else if parts[0] == ".." && base != [] && base[|base| - 1] != ".." then
      Normalized(base[..|base| - 1], parts[1..])
    else Normalized(base + [parts[0]], parts[1..])
  }

  /** The member a link names, read from the link's own directory. */
  function LinkTarget(path: Path, target: Name): Option<Path> {
    if target.absolute then None
    else
      var resolved := Normalized(if path == [] then [] else path[..|path| - 1], target.parts);
      if ".." in resolved then None else Some(resolved)
  }

  /** What a name means, independently of how it is resolved: walking through its parts from
      the folder `at`. An empty part and a dot stay, two dots go up, and going up from the
      root leads nowhere. */
  function Walk(at: Path, parts: seq<string>): Option<Path>
    decreases |parts|
  {
    if parts == [] then Some(at)
    else if parts[0] == "" || parts[0] == "." then Walk(at, parts[1..])
    else if parts[0] != ".." then Walk(at + [parts[0]], parts[1..])
    else if at == [] then None
    else Walk(at[..|at| - 1], parts[1..])
  }

  function Parent(path: Path): Path {
    if path == [] then [] else path[..|path| - 1]
  }

  /** No part is empty or made of dots that stand for a folder. */
  predicate Plain(path: Path) {
    forall i :: 0 <= i < |path| ==> path[i] != "" && path[i] != "." && path[i] != ".."
  }

  /** Once outside the root, resolution stays outside. */
  lemma {:induction false} StaysOutside(base: Path, parts: seq<string>)
    requires base != [] && base[0] == ".."
    ensures Normalized(base, parts) != [] && Normalized(base, parts)[0] == ".."
    decreases |parts|
  {
    if parts != [] {
      if parts[0] in {"", "."} {
        StaysOutside(base, parts[1..]);
      } else if parts[0] == ".." && base[|base| - 1] != ".." {
        StaysOutside(base[..|base| - 1], parts[1..]);
      } else {
        StaysOutside(base + [parts[0]], parts[1..]);
      }
    }
  }

  lemma {:induction false} NormalizedWalks(base: Path, parts: seq<string>)
    requires Plain(base)
    ensures Walk(base, parts) ==
      if ".." in Normalized(base, parts) then None else Some(Normalized(base, parts))
    ensures Walk(base, parts).Some? ==> Plain(Walk(base, parts).value)
    decreases |parts|
  {
    if parts != [] {
      if parts[0] in {"", "."} {
        NormalizedWalks(base, parts[1..]);
      } else if parts[0] != ".." {
        NormalizedWalks(base + [parts[0]], parts[1..]);
      } else if base == [] {
        StaysOutside([".."], parts[1..]);
        assert [] + [parts[0]] == [".."];
      } else {
        NormalizedWalks(base[..|base| - 1], parts[1..]);
      }
    }
  }

  /** A link lands where its name leads from its own folder, and is refused exactly when the
      name is absolute or leaves the root on the way. */
  lemma LinkTargetIsExact(path: Path, target: Name)
    requires Plain(path)
    ensures LinkTarget(path, target) == if target.absolute then None else Walk(Parent(path), target.parts)
    ensures LinkTarget(path, target).Some? ==> Plain(LinkTarget(path, target).value)
  {
    NormalizedWalks(Parent(path), target.parts);
  }

  lemma {:induction false} WalkPlain(at: Path, parts: seq<string>)
    requires Plain(parts)
    ensures Walk(at, parts) == Some(at + parts)
    decreases |parts|
  {
    if parts == [] {
      assert at + parts == at;
    } else {
      WalkPlain(at + [parts[0]], parts[1..]);
      assert at + [parts[0]] + parts[1..] == at + parts;
    }
  }

  function Ups(n: nat): seq<string> {
    seq(n, i => "..")
  }

  lemma {:induction false} WalkUp(at: Path, n: nat, parts: seq<string>)
    ensures Walk(at, Ups(n) + parts) == if n <= |at| then Walk(at[..|at| - n], parts) else None
    decreases n
  {
    var all := Ups(n) + parts;
    if n == 0 {
      assert all == parts && at[..|at|] == at;
    } else {
      assert all[0] == ".." && all[1..] == Ups(n - 1) + parts;
      if at != [] {
        WalkUp(at[..|at| - 1], n - 1, parts);
        assert n <= |at| ==> at[..|at| - 1][..|at| - n] == at[..|at| - n];
      }
    }
  }

  /** A link lands in its own folder, or as many folders above it as its name starts with
      double dots; above the root it is refused. */
  lemma LinkLands(path: Path, n: nat, parts: seq<string>)
    requires Plain(path) && path != [] && Plain(parts)
    ensures LinkTarget(path, Name(false, Ups(n) + parts)) ==
      if n < |path| then Some(path[..|path| - 1 - n] + parts) else None
  {
    LinkTargetIsExact(path, Name(false, Ups(n) + parts));
    WalkUp(Parent(path), n, parts);
    if n < |path| {
      assert path[..|path| - 1][..|path| - 1 - n] == path[..|path| - 1 - n];
      WalkPlain(path[..|path| - 1 - n], parts);
    }
  }

  lemma {:induction false} WithoutDotsWalks(at: Path, parts: seq<string>)
    requires ".." !in parts
    ensures Walk(at, parts) == Some(at + WithoutDots(parts))
    decreases |parts|
  {
    if parts == [] {
      assert at + [] == at;
    } else {
      var part, rest := parts[0], parts[1..];
      if part == "" || part == "." {
        WithoutDotsWalks(at, rest);
        assert [] + WithoutDots(rest) == WithoutDots(rest);
      } else {
        WithoutDotsWalks(at + [part], rest);
        assert at + [part] + WithoutDots(rest) == at + ([part] + WithoutDots(rest));
      }
    }
  }

  lemma {:induction false} WithoutDotsIsPlain(parts: seq<string>)
    requires ".." !in parts
    ensures Plain(WithoutDots(parts))
    decreases |parts|
  {
    if parts != [] {
      WithoutDotsIsPlain(parts[1..]);
    }
  }

  /** A member's name is accepted exactly when it is relative, not empty and never goes up,
      and then is the path it leads to from the root. */
  lemma SafeMemberIsExact(name: Name)
    ensures SafeMember(name) ==
      if name.absolute || name.parts == [] || (exists i :: 0 <= i < |name.parts| && name.parts[i] == "..") then None
      else Walk([], name.parts)
    ensures SafeMember(name).Some? ==> Plain(SafeMember(name).value)
  {
    if ".." !in name.parts {
      WithoutDotsWalks([], name.parts);
      WithoutDotsIsPlain(name.parts);
      assert [] + WithoutDots(name.parts) == WithoutDots(name.parts);
    }
  }

  // ---------------------------------------------------------------- links

  /** Following links with the set of aliases already passed. */
  function Resolve(regular: map<Path, Bytes>, aliases: map<Path, Path>, path: Path, passed: set<Path>)
    : (r: Result<Path, Error>)
    ensures r.Ok? ==> r.value in regular
    decreases aliases.Keys - passed
  {
    if path in regular then Ok(path)
    else if path !in aliases then Err(MissingTarget)
    else if path in passed then Err(CyclicLink)
    else
      assert path in aliases.Keys - passed;
      Resolve(regular, aliases, aliases[path], passed + {path})
  }

  /** Where `k` hops lead; None when there are fewer. */
  function Follow(aliases: map<Path, Path>, path: Path, k: nat): Option<Path>
    decreases k
  {
    if k == 0 then Some(path)
    else if path in aliases then Follow(aliases, aliases[path], k - 1)
    else None
  }

  ghost predicate Reaches(aliases: map<Path, Path>, path: Path, target: Path) {
    exists k: nat :: Follow(aliases, path, k) == Some(target)
  }

  /** The chain from `path` never leaves the aliases. */
  ghost predicate Endless(aliases: map<Path, Path>, path: Path) {
    forall k: nat :: Follow(aliases, path, k).Some? && Follow(aliases, path, k).value in aliases
  }

  lemma ReachesNext(aliases: map<Path, Path>, path: Path, target: Path)
    requires path in aliases && Reaches(aliases, aliases[path], target)
    ensures Reaches(aliases, path, target)
  {
    var k: nat :| Follow(aliases, aliases[path], k) == Some(target);
    assert Follow(aliases, path, k + 1) == Some(target);
  }

  /** A set of aliases closed under following holds the whole chain of its members. */
  lemma {:induction false} ClosedIsEndless(aliases: map<Path, Path>, closed: set<Path>, path: Path, k: nat)
    requires path in closed && (forall x :: x in closed ==> x in aliases && aliases[x] in closed)
    ensures Follow(aliases, path, k).Some? && Follow(aliases, path, k).value in closed
    decreases k
  {
    if k > 0 {
      ClosedIsEndless(aliases, closed, aliases[path], k - 1);
    }
  }

  lemma {:induction false} ResolveLeads(regular: map<Path, Bytes>, aliases: map<Path, Path>, path: Path,
                                        passed: set<Path>)
    requires forall x :: x in passed ==> x in aliases && (aliases[x] in passed || aliases[x] == path)
    ensures match Resolve(regular, aliases, path, passed)
      case Ok(target) => target in regular && Reaches(aliases, path, target)
      case Err(error) =>
        if error == MissingTarget then
          exists target :: target !in regular && target !in aliases && Reaches(aliases, path, target)
        else error == CyclicLink && Endless(aliases, path) &&
             (forall x :: x in passed ==> Endless(aliases, x))
    decreases aliases.Keys - passed
  {
    if path in regular || path !in aliases {
      assert Follow(aliases, path, 0) == Some(path);
    } else if path in passed {
      forall x, k: nat | x in passed ensures Follow(aliases, x, k).Some? && Follow(aliases, x, k).value in aliases {
        ClosedIsEndless(aliases, passed, x, k);
      }
    } else {
      assert path in aliases.Keys - passed;
      ResolveLeads(regular, aliases, aliases[path], passed + {path});
      var result := Resolve(regular, aliases, aliases[path], passed + {path});
      if result.Ok? {
        ReachesNext(aliases, path, result.value);
      } else if result.error == MissingTarget {
        var target :| target !in regular && target !in aliases && Reaches(aliases, aliases[path], target);
        ReachesNext(aliases, path, target);
      } else {
        assert path in passed + {path};
      }
    }
  }

  /** A chain has at most one end, and an endless chain has none. */
  lemma {:induction false} OneEnd(aliases: map<Path, Path>, path: Path, j: nat, k: nat)
    requires Follow(aliases, path, j).Some? && Follow(aliases, path, j).value !in aliases
    requires Follow(aliases, path, k).Some?
    ensures k <= j && (Follow(aliases, path, k).value !in aliases ==> j == k)
    decreases j
  {
    if k > 0 && j > 0 {
      OneEnd(aliases, aliases[path], j - 1, k - 1);
    }
  }

  /** Resolution returns exactly the regular member at the end of the chain, and fails
      exactly for a chain that leaves the archive or never ends. */
  lemma ResolveIsExact(regular: map<Path, Bytes>, aliases: map<Path, Path>, path: Path)
    requires regular.Keys !! aliases.Keys
    ensures forall target ::
      Resolve(regular, aliases, path, {}) == Ok(target) <==> target in regular && Reaches(aliases, path, target)
    ensures Resolve(regular, aliases, path, {}) == Err(MissingTarget) <==>
      exists target :: target !in regular && target !in aliases && Reaches(aliases, path, target)
    ensures Resolve(regular, aliases, path, {}) == Err(CyclicLink) <==> Endless(aliases, path)
  {
    ResolveLeads(regular, aliases, path, {});
    forall t, u | t !in aliases && u !in aliases && Reaches(aliases, path, t) && Reaches(aliases, path, u)
      ensures t == u
    {
      var j: nat :| Follow(aliases, path, j) == Some(t);
      var k: nat :| Follow(aliases, path, k) == Some(u);
      OneEnd(aliases, path, j, k);
    }
    if Endless(aliases, path) {
      forall t | t !in aliases ensures !Reaches(aliases, path, t) {
      }
    }
  }

  // ---------------------------------------------------------------- scanning

  /** What the first pass collects; the orders are those of the archive. */
  datatype Scanned = Scanned(
    regular: map<Path, Bytes>, regularOrder: seq<Path>,
    aliases: map<Path, Path>, aliasOrder: seq<Path>,
    directories: set<Path>)

  function Seen(s: Scanned): set<Path> {
    s.regular.Keys + s.aliases.Keys + s.directories
  }

  function PathOf(m: Member): Path {
    if SafeMember(m.name).Some? then SafeMember(m.name).value else []
  }

  /** Where the name of a link leads from the link's folder. */
  function LeadsTo(m: Member): Option<Path>
    requires m.kind.Link?
  {
    if m.kind.target.absolute then None else Walk(Parent(PathOf(m)), m.kind.target.parts)
  }

  /** The member that a link names, if its name leads anywhere. */
  function TargetOf(m: Member): Path
    requires m.kind.Link?
  {
    if LeadsTo(m).Some? then LeadsTo(m).value else []
  }

  function ScanOne(s: Scanned, m: Member): Result<Scanned, Error> {
    match SafeMember(m.name)
    case None => Err(UnsafeName)
    case Some(path) =>
      if path in Seen(s) then Err(DuplicateMember)
      else match m.kind
        case Directory => Ok(s.(directories := s.directories + {path}))
        case Regular(content) =>
          Ok(s.(regular := s.regular[path := content], regularOrder := s.regularOrder + [path]))
        case Link(target) =>
          if LinkTarget(path, target).None? then Err(UnsafeName)
          else if LinkTarget(path, target).value == path then Err(InvalidLink)
          else Ok(s.(aliases := s.aliases[path := LinkTarget(path, target).value], aliasOrder := s.aliasOrder + [path]))
        case Special => Err(NotAFile)
  }

  function Scan(s: Scanned, members: seq<Member>): Result<Scanned, Error>
    decreases |members|
  {
    if members == [] then Ok(s)
    else match ScanOne(s, members[0])
      case Err(error) => Err(error)
      case Ok(next) => Scan(next, members[1..])
  }

  const NOTHING := Scanned(map[], [], map[], [], {})

  /** A member the first pass accepts on its own: its name is relative, not empty and never
      goes up, and a link leads to another path below the root. */
  predicate Acceptable(m: Member) {
    && !m.name.absolute && m.name.parts != [] && ".." !in m.name.parts
    && m.kind != Special
    && (m.kind.Link? ==> LeadsTo(m).Some? && TargetOf(m) != PathOf(m))
  }

  predicate Distinct(members: seq<Member>) {
    forall i, j :: 0 <= i < j < |members| ==> PathOf(members[i]) != PathOf(members[j])
  }

  /** The orders list the keys of the maps, once each, and nothing has two kinds. */
  ghost predicate Ordered(s: Scanned) {
    && (forall p :: p in s.regularOrder <==> p in s.regular)
    && (forall p :: p in s.aliasOrder <==> p in s.aliases)
    && (forall i, j :: 0 <= i < j < |s.regularOrder| ==> s.regularOrder[i] != s.regularOrder[j])
    && (forall i, j :: 0 <= i < j < |s.aliasOrder| ==> s.aliasOrder[i] != s.aliasOrder[j])
    && s.regular.Keys !! s.aliases.Keys && s.regular.Keys !! s.directories && s.aliases.Keys !! s.directories
  }

  /** `m` is recorded in `s` under its path. */
  predicate Records(s: Scanned, m: Member) {
    match m.kind
    case Directory => PathOf(m) in s.directories
    case Regular(content) => PathOf(m) in s.regular && s.regular[PathOf(m)] == content
    case Link(_) => PathOf(m) in s.aliases && s.aliases[PathOf(m)] == TargetOf(m)
    case Special => false
  }

  lemma ScanOneAccepts(s: Scanned, m: Member)
    ensures ScanOne(s, m).Ok? <==> Acceptable(m) && PathOf(m) !in Seen(s)
    ensures ScanOne(s, m).Ok? ==> Seen(ScanOne(s, m).value) == Seen(s) + {PathOf(m)}
  {
    LinkIsRead(m);
  }

  lemma LinkIsRead(m: Member)
    ensures m.kind.Link? ==> LinkTarget(PathOf(m), m.kind.target) == LeadsTo(m)
  {
    SafeMemberIsExact(m.name);
    if m.kind.Link? {
      LinkTargetIsExact(PathOf(m), m.kind.target);
    }
  }

  /** Why a member is refused. */
  lemma ScanOneRefuses(s: Scanned, m: Member)
    ensures var safe := !m.name.absolute && m.name.parts != [] && ".." !in m.name.parts;
      var unseen := safe && PathOf(m) !in Seen(s);
      && (ScanOne(s, m) == Err(DuplicateMember) <==> safe && !unseen)
      && (ScanOne(s, m) == Err(UnsafeName) <==> !safe || (unseen && m.kind.Link? && LeadsTo(m).None?))
      && (ScanOne(s, m) == Err(InvalidLink) <==> unseen && m.kind.Link? && LeadsTo(m) == Some(PathOf(m)))
      && (ScanOne(s, m) == Err(NotAFile) <==> unseen && m.kind.Special?)
  {
    LinkIsRead(m);
  }

  lemma ScanOneRecords(s: Scanned, m: Member)
    requires ScanOne(s, m).Ok?
    ensures var s' := ScanOne(s, m).value;
      Records(s', m) && forall x :: PathOf(x) in Seen(s) ==> (Records(s', x) <==> Records(s, x))
  {
    LinkIsRead(m);
  }

  lemma ScanOneOrdered(s: Scanned, m: Member)
    requires Ordered(s) && ScanOne(s, m).Ok?
    ensures Ordered(ScanOne(s, m).value)
  {
  }

  /** The first pass accepts exactly the archives whose members are acceptable and have
      distinct paths, and has then seen exactly their paths. */
  lemma {:induction false} ScanIsExact(s: Scanned, members: seq<Member>)
    ensures Scan(s, members).Ok? <==>
      && Distinct(members)
      && (forall i :: 0 <= i < |members| ==> Acceptable(members[i]) && PathOf(members[i]) !in Seen(s))
    ensures Scan(s, members).Ok? ==> forall p ::
      p in Seen(Scan(s, members).value) <==> p in Seen(s) || exists i :: 0 <= i < |members| && PathOf(members[i]) == p
    decreases |members|
  {
    if members != [] {
      ScanOneAccepts(s, members[0]);
      if ScanOne(s, members[0]).Ok? {
        ScanIsExact(ScanOne(s, members[0]).value, members[1..]);
      }
    }
  }

  /** It records each member under its path. */
  lemma {:induction false} ScanRecords(s: Scanned, members: seq<Member>)
    requires Ordered(s) && Scan(s, members).Ok?
    ensures var s' := Scan(s, members).value;
      && Ordered(s') && Seen(s) <= Seen(s')
      && (forall i :: 0 <= i < |members| ==> Records(s', members[i]))
      && (forall x :: PathOf(x) in Seen(s) ==> (Records(s', x) <==> Records(s, x)))
    decreases |members|
  {
    if members != [] {
      ScanOneAccepts(s, members[0]);
      ScanOneRecords(s, members[0]);
      ScanOneOrdered(s, members[0]);
      ScanRecords(ScanOne(s, members[0]).value, members[1..]);
    }
  }

  // ---------------------------------------------------------------- staging

  datatype Stage = Stage(files: map<Path, Node>, folders: set<Path>)

  /** The folders that a path lies in, the root excepted. */
  function Ancestors(path: Path): set<Path> {
    set i | 0 < i < |path| :: path[..i]
  }

  function FoldersOf(directories: set<Path>): set<Path> {
    set d, i | d in directories && 0 < i <= |d| :: d[..i]
  }

  /** Creating a file or link after its parent folders; files and folders may be in the way. */
  function Put(stage: Stage, path: Path, node: Node): Result<Stage, Error> {
    if path == [] || path in stage.folders || !(Ancestors(path) !! stage.files.Keys) then Err(IoFault)
    else Ok(Stage(stage.files[path := node], stage.folders + Ancestors(path)))
  }

  datatype Entry = Entry(path: Path, node: Result<Node, Error>)

  function StageAll(stage: Stage, entries: seq<Entry>): Result<Stage, Error>
    decreases |entries|
  {
    if entries == [] then Ok(stage)
    else match entries[0].node
      case Err(error) => Err(error)
      case Ok(node) =>
        match Put(stage, entries[0].path, node)
        case Err(error) => Err(error)
        case Ok(next) => StageAll(next, entries[1..])
  }

  /** A regular member is written; a link becomes a symbolic link to the member it
      resolves to, or a copy of that member where links are not used. */
  function NodeFor(regular: map<Path, Bytes>, aliases: map<Path, Path>, path: Path, posix: bool): Result<Node, Error> {
    if path in regular then Ok(File(regular[path]))
    else match Resolve(regular, aliases, path, {})
      case Err(error) => Err(error)
      case Ok(target) => Ok(if posix then Symlink(target) else File(regular[target]))
  }

  function EntryFor(s: Scanned, path: Path, posix: bool): Entry {
    Entry(path, NodeFor(s.regular, s.aliases, path, posix))
  }

  /** The regular members and then the links, each in archive order. */
  function Order(s: Scanned): seq<Path> {
    s.regularOrder + s.aliasOrder
  }

  function Entries(s: Scanned, order: seq<Path>, posix: bool): seq<Entry> {
    seq(|order|, i requires 0 <= i < |order| => EntryFor(s, order[i], posix))
  }

  /** Nothing is in the way of the entry, neither on the stage nor among the others. */
  ghost predicate Fits(stage: Stage, entries: seq<Entry>, e: Entry) {
    && e.node.Ok? && e.path != [] && e.path !in stage.folders
    && Ancestors(e.path) !! stage.files.Keys
    && (forall j :: 0 <= j < |entries| ==> e.path !in Ancestors(entries[j].path))
  }

  lemma FitsNext(stage: Stage, entries: seq<Entry>, e: Entry)
    requires entries != [] && entries[0].node.Ok? && Put(stage, entries[0].path, entries[0].node.value).Ok?
    ensures var next := Put(stage, entries[0].path, entries[0].node.value).value;
      Fits(next, entries[1..], e) <==> Fits(stage, entries, e) && entries[0].path !in Ancestors(e.path)
  {
    var next := Put(stage, entries[0].path, entries[0].node.value).value;
    assert next.files.Keys == stage.files.Keys + {entries[0].path};
    if Fits(next, entries[1..], e) {
      forall j | 0 <= j < |entries| ensures e.path !in Ancestors(entries[j].path) {
        assert j > 0 ==> entries[j] == entries[1..][j - 1];
      }
    }
  }

  /** Staging succeeds exactly when every entry fits, in whatever order they come. */
  lemma {:induction false} StagingIsExact(stage: Stage, entries: seq<Entry>)
    ensures StageAll(stage, entries).Ok? <==> forall i :: 0 <= i < |entries| ==> Fits(stage, entries, entries[i])
    decreases |entries|
  {
    if entries != [] {
      var e := entries[0];
      if Fits(stage, entries, e) {
        var next := Put(stage, e.path, e.node.value).value;
        StagingIsExact(next, entries[1..]);
        forall i | 0 < i < |entries|
          ensures Fits(next, entries[1..], entries[1..][i - 1]) <==>
                  Fits(stage, entries, entries[i]) && e.path !in Ancestors(entries[i].path)
        {
          FitsNext(stage, entries, entries[i]);
        }
        if forall i :: 0 <= i < |entries| ==> Fits(stage, entries, entries[i]) {
          forall i | 0 <= i < |entries[1..]| ensures Fits(next, entries[1..], entries[1..][i]) {
            assert entries[1..][i] == entries[i + 1];
          }
        } else {
          var i :| 0 <= i < |entries| && !Fits(stage, entries, entries[i]);
          assert !Fits(next, entries[1..], entries[1..][i - 1]);
        }
      } else if e.node.Ok? && Put(stage, e.path, e.node.value).Ok? {
        StagingIsExact(Put(stage, e.path, e.node.value).value, entries[1..]);
        var j :| 0 <= j < |entries| && e.path in Ancestors(entries[j].path);
        FitsNext(stage, entries, entries[j]);
        assert entries[j] == entries[1..][j - 1];
      }
    }
  }

  ghost predicate DistinctPaths(entries: seq<Entry>) {
    forall i, j :: 0 <= i < j < |entries| ==> entries[i].path != entries[j].path
  }

  /** Staging adds the paths of the entries and no other. */
  lemma {:induction false} StagedPaths(stage: Stage, entries: seq<Entry>)
    requires StageAll(stage, entries).Ok?
    ensures forall p :: p in StageAll(stage, entries).value.files <==>
      p in stage.files || exists i :: 0 <= i < |entries| && entries[i].path == p
    decreases |entries|
  {
    if entries != [] {
      StagedPaths(Put(stage, entries[0].path, entries[0].node.value).value, entries[1..]);
    }
  }

  lemma {:induction false} StagedKept(stage: Stage, entries: seq<Entry>, p: Path)
    requires StageAll(stage, entries).Ok? && p in stage.files
    requires forall i :: 0 <= i < |entries| ==> entries[i].path != p
    ensures p in StageAll(stage, entries).value.files && StageAll(stage, entries).value.files[p] == stage.files[p]
    decreases |entries|
  {
    if entries != [] {
      StagedKept(Put(stage, entries[0].path, entries[0].node.value).value, entries[1..], p);
    }
  }

  /** Each entry's node stands at its path. */
  lemma {:induction false} StagedAt(stage: Stage, entries: seq<Entry>, i: nat)
    requires StageAll(stage, entries).Ok? && DistinctPaths(entries) && i < |entries|
    ensures entries[i].path in StageAll(stage, entries).value.files
    ensures entries[i].node == Ok(StageAll(stage, entries).value.files[entries[i].path])
    decreases |entries|
  {
    var next := Put(stage, entries[0].path, entries[0].node.value).value;
    if i == 0 {
      StagedKept(next, entries[1..], entries[0].path);
    } else {
      StagedAt(next, entries[1..], i - 1);
    }
  }

  lemma StagedNodes(stage: Stage, entries: seq<Entry>)
    requires StageAll(stage, entries).Ok? && DistinctPaths(entries)
    ensures forall i :: 0 <= i < |entries| ==>
      entries[i].path in StageAll(stage, entries).value.files &&
      entries[i].node == Ok(StageAll(stage, entries).value.files[entries[i].path])
  {
    forall i | 0 <= i < |entries|
      ensures entries[i].path in StageAll(stage, entries).value.files
      ensures entries[i].node == Ok(StageAll(stage, entries).value.files[entries[i].path])
    {
      StagedAt(stage, entries, i);
    }
  }

  // ---------------------------------------------------------------- the whole extraction

  /** The tree that a fault-free extraction publishes. */
  ghost function Extracted(members: seq<Member>, posix: bool): Result<map<Path, Node>, Error> {
    match Scan(NOTHING, members)
    case Err(error) => Err(error)
    case Ok(s) =>
      match StageAll(Stage(map[], FoldersOf(s.directories)), Entries(s, Order(s), posix))
      case Err(error) => Err(error)
      case Ok(stage) => Ok(stage.files)
  }

  /** The regular members and their contents. */
  ghost function Files(members: seq<Member>): map<Path, Bytes>
    requires Distinct(members)
  {
    map m | m in members && m.kind.Regular? :: PathOf(m) := m.kind.content
  }

  /** The link members and what they name. */
  ghost function Links(members: seq<Member>): map<Path, Path>
    requires Distinct(members)
  {
    map m | m in members && m.kind.Link? :: PathOf(m) := TargetOf(m)
  }

  /** No file or link stands where the root or a folder of another member must be. */
  ghost predicate Unobstructed(members: seq<Member>) {
    forall m :: m in members && (m.kind.Regular? || m.kind.Link?) ==> Clear(members, PathOf(m))
  }

  ghost predicate AllAcceptable(members: seq<Member>) {
    forall m :: m in members ==> Acceptable(m)
  }

  /** Every path seen belongs to a member recorded there. */
  lemma SeenIsRecorded(members: seq<Member>, p: Path)
    requires Scan(NOTHING, members).Ok? && p in Seen(Scan(NOTHING, members).value)
    ensures exists m :: m in members && PathOf(m) == p && Records(Scan(NOTHING, members).value, m)
  {
    ScanIsExact(NOTHING, members);
    ScanRecords(NOTHING, members);
    var i :| 0 <= i < |members| && PathOf(members[i]) == p;
    assert members[i] in members;
  }

  lemma AcceptedMembers(members: seq<Member>)
    requires Scan(NOTHING, members).Ok?
    ensures Distinct(members) && AllAcceptable(members)
    ensures var s := Scan(NOTHING, members).value;
      Ordered(s) && forall m :: m in members ==> Records(s, m) && PathOf(m) in Seen(s)
  {
    ScanIsExact(NOTHING, members);
    ScanRecords(NOTHING, members);
  }

  lemma RegularMembers(members: seq<Member>)
    requires Scan(NOTHING, members).Ok? && Distinct(members)
    ensures Scan(NOTHING, members).value.regular == Files(members)
  {
    AcceptedMembers(members);
    var s, files := Scan(NOTHING, members).value, Files(members);
    forall p | p in s.regular ensures p in files && files[p] == s.regular[p] {
      SeenIsRecorded(members, p);
    }
  }

  lemma LinkMembers(members: seq<Member>)
    requires Scan(NOTHING, members).Ok? && Distinct(members)
    ensures Scan(NOTHING, members).value.aliases == Links(members)
  {
    AcceptedMembers(members);
    var s, links := Scan(NOTHING, members).value, Links(members);
    forall p | p in s.aliases ensures p in links && links[p] == s.aliases[p] {
      SeenIsRecorded(members, p);
    }
  }

  /** An accepted archive is recorded exactly. */
  lemma ScannedMembers(members: seq<Member>)
    requires Scan(NOTHING, members).Ok?
    ensures Distinct(members) && AllAcceptable(members)
    ensures var s := Scan(NOTHING, members).value;
      Ordered(s) && s.regular == Files(members) && s.aliases == Links(members)
  {
    AcceptedMembers(members);
    RegularMembers(members);
    LinkMembers(members);
  }

  /** Nothing needs `p` as a folder. */
  ghost predicate Clear(members: seq<Member>, p: Path) {
    p != [] && forall x :: x in members ==> p !in Ancestors(PathOf(x))
  }

  lemma OrderLists(s: Scanned)
    requires Ordered(s)
    ensures forall p :: p in Order(s) <==> p in s.regular || p in s.aliases
    ensures forall i, j :: 0 <= i < j < |Order(s)| ==> Order(s)[i] != Order(s)[j]
  {
    var order, n := Order(s), |s.regularOrder|;
    forall i, j | 0 <= i < j < |order| ensures order[i] != order[j] {
      if i < n <= j {
        assert order[i] in s.regularOrder && order[j] in s.aliasOrder;
      }
    }
  }

  lemma InFolders(directories: set<Path>, p: Path)
    requires p != []
    ensures p in FoldersOf(directories) <==> exists d :: d in directories && (p == d || p in Ancestors(d))
  {
    if p in FoldersOf(directories) {
      var d, i :| d in directories && 0 < i <= |d| && d[..i] == p;
      assert i == |d| ==> p == d;
    }
    if d :| d in directories && p in Ancestors(d) {
      var i :| 0 < i < |d| && d[..i] == p;
    }
    if p in directories {
      assert p[..|p|] == p;
    }
  }

  /** What being in nobody's way means once the archive is scanned. */
  lemma FitsMeans(members: seq<Member>, entries: seq<Entry>, p: Path, node: Result<Node, Error>)
    requires Scan(NOTHING, members).Ok?
    requires var s := Scan(NOTHING, members).value;
      && (p in s.regular || p in s.aliases)
      && forall q :: (exists j :: 0 <= j < |entries| && entries[j].path == q) <==> q in s.regular || q in s.aliases
    ensures var s := Scan(NOTHING, members).value;
      Fits(Stage(map[], FoldersOf(s.directories)), entries, Entry(p, node)) <==> node.Ok? && Clear(members, p)
  {
    AcceptedMembers(members);
    var s := Scan(NOTHING, members).value;
    var stage := Stage(map[], FoldersOf(s.directories));
    if p != [] {
      InFolders(s.directories, p);
    }
    if Fits(stage, entries, Entry(p, node)) {
      forall x | x in members ensures p !in Ancestors(PathOf(x)) {
        var q := PathOf(x);
        if q !in s.directories {
          var j :| 0 <= j < |entries| && entries[j].path == q;
        }
      }
    }
    if Clear(members, p) {
      forall q | q in Seen(s) ensures p !in Ancestors(q) {
        SeenIsRecorded(members, q);
      }
      forall j | 0 <= j < |entries| ensures p !in Ancestors(entries[j].path) {
        assert entries[j].path in Seen(s);
      }
    }
  }

  /** Every link leads to a regular member. */
  ghost predicate LinksResolve(members: seq<Member>)
    requires Distinct(members)
  {
    forall p :: p in Links(members) ==> exists t :: t in Files(members) && Reaches(Links(members), p, t)
  }

  lemma NodeExists(members: seq<Member>, posix: bool)
    requires Distinct(members) && Files(members).Keys !! Links(members).Keys
    ensures LinksResolve(members) <==>
      forall p :: p in Links(members) ==> NodeFor(Files(members), Links(members), p, posix).Ok?
  {
    var files, links := Files(members), Links(members);
    forall p | p in links
      ensures NodeFor(files, links, p, posix).Ok? <==> exists t :: t in files && Reaches(links, p, t)
    {
      ResolveIsExact(files, links, p);
      if NodeFor(files, links, p, posix).Ok? {
        var t := Resolve(files, links, p, {}).value;
        assert t in files && Reaches(links, p, t);
      }
    }
  }

  ghost predicate Extractable(members: seq<Member>) {
    Distinct(members) && AllAcceptable(members) && Unobstructed(members) && LinksResolve(members)
  }

  lemma EntryPaths(s: Scanned, posix: bool)
    requires Ordered(s)
    ensures var entries := Entries(s, Order(s), posix);
      && DistinctPaths(entries)
      && (forall q :: (exists j :: 0 <= j < |entries| && entries[j].path == q) <==> q in s.regular || q in s.aliases)
      && (forall i :: 0 <= i < |entries| ==>
          entries[i] == Entry(entries[i].path, NodeFor(s.regular, s.aliases, entries[i].path, posix)))
  {
    OrderLists(s);
    var order, entries := Order(s), Entries(s, Order(s), posix);
    forall q | q in s.regular || q in s.aliases ensures exists j :: 0 <= j < |entries| && entries[j].path == q {
      var j :| 0 <= j < |order| && order[j] == q;
      assert entries[j].path == q;
    }
    forall j | 0 <= j < |entries| ensures entries[j].path in s.regular || entries[j].path in s.aliases {
      assert order[j] in order;
    }
  }

  /** Once scanned, the archive is staged exactly when nothing is in the way of a file or
      link and every link resolves. */
  lemma StagedIff(members: seq<Member>, posix: bool)
    requires Scan(NOTHING, members).Ok?
    ensures var s := Scan(NOTHING, members).value;
      Extracted(members, posix).Ok? <==>
        forall p :: p in s.regular || p in s.aliases ==>
          NodeFor(s.regular, s.aliases, p, posix).Ok? && Clear(members, p)
  {
    AcceptedMembers(members);
    var s := Scan(NOTHING, members).value;
    EntryPaths(s, posix);
    var stage, entries := Stage(map[], FoldersOf(s.directories)), Entries(s, Order(s), posix);
    StagingIsExact(stage, entries);
    forall i | 0 <= i < |entries|
      ensures Fits(stage, entries, entries[i]) <==> entries[i].node.Ok? && Clear(members, entries[i].path)
    {
      FitsMeans(members, entries, entries[i].path, entries[i].node);
    }
  }

  /** An archive is extracted exactly when its names are safe and distinct, nothing but
      files, links and directories is in it, no file is in another member's way, and
      every link chain reaches a file. */
  lemma ExtractionIsExact(members: seq<Member>, posix: bool)
    ensures Extracted(members, posix).Ok? <==> Extractable(members)
  {
    ScanIsExact(NOTHING, members);
    if Scan(NOTHING, members).Ok? {
      ScannedMembers(members);
      StagedIff(members, posix);
      NodeExists(members, posix);
      ClearKeys(members);
    }
  }

  lemma ClearKeys(members: seq<Member>)
    requires Distinct(members)
    ensures Unobstructed(members) <==>
      forall p :: p in Files(members) || p in Links(members) ==> Clear(members, p)
  {
    forall m | m in members && (m.kind.Regular? || m.kind.Link?)
      ensures PathOf(m) in Files(members) || PathOf(m) in Links(members)
    {
    }
  }

  /** Reading a path of the tree, through a link if there is one. */
  function Read(tree: map<Path, Node>, p: Path): Option<Bytes> {
    if p !in tree then None
    else match tree[p]
      case File(content) => Some(content)
      case Symlink(target) =>
        if target in tree && tree[target].File? then Some(tree[target].content) else None
  }

  /** `tree` holds the node of each file and link, and nothing else. */
  ghost predicate IsTree(files: map<Path, Bytes>, links: map<Path, Path>, posix: bool, tree: map<Path, Node>) {
    && (forall p :: p in tree <==> p in files || p in links)
    && (forall p :: p in tree ==> NodeFor(files, links, p, posix) == Ok(tree[p]))
  }

  lemma StagedTree(s: Scanned, entries: seq<Entry>, stage: Stage, posix: bool)
    requires stage.files == map[] && StageAll(stage, entries).Ok? && DistinctPaths(entries)
    requires forall q :: (exists j :: 0 <= j < |entries| && entries[j].path == q) <==> q in s.regular || q in s.aliases
    requires forall i :: 0 <= i < |entries| ==>
      entries[i].node == NodeFor(s.regular, s.aliases, entries[i].path, posix)
    ensures IsTree(s.regular, s.aliases, posix, StageAll(stage, entries).value.files)
  {
    StagedPaths(stage, entries);
    StagedNodes(stage, entries);
    var tree := StageAll(stage, entries).value.files;
    forall p | p in tree ensures NodeFor(s.regular, s.aliases, p, posix) == Ok(tree[p]) {
      var i :| 0 <= i < |entries| && entries[i].path == p;
    }
  }

  lemma ExtractedTree(members: seq<Member>, posix: bool)
    requires Extracted(members, posix).Ok?
    ensures Distinct(members) && IsTree(Files(members), Links(members), posix, Extracted(members, posix).value)
    ensures Files(members).Keys !! Links(members).Keys
  {
    ScannedMembers(members);
    var s := Scan(NOTHING, members).value;
    EntryPaths(s, posix);
    StagedTree(s, Entries(s, Order(s), posix), Stage(map[], FoldersOf(s.directories)), posix);
  }

  lemma LinkReads(files: map<Path, Bytes>, links: map<Path, Path>, posix: bool, tree: map<Path, Node>, p: Path, t: Path)
    requires files.Keys !! links.Keys && IsTree(files, links, posix, tree)
    requires p in links && t in files && Reaches(links, p, t)
    ensures Read(tree, p) == Some(files[t]) && (tree[p] == if posix then Symlink(t) else File(files[t]))
  {
    ResolveIsExact(files, links, p);
    assert Resolve(files, links, p, {}) == Ok(t);
    assert p in tree && t in tree;
  }

  /** In an extracted tree every file member reads as its content, and every link as the
      content of the file that its chain of links reaches. */
  lemma EveryMemberReads(members: seq<Member>, posix: bool)
    requires Extracted(members, posix).Ok?
    ensures Distinct(members) && LinksResolve(members)
    ensures var tree, files, links := Extracted(members, posix).value, Files(members), Links(members);
      && (forall p :: p in tree <==> p in files || p in links)
      && (forall p :: p in files ==> Read(tree, p) == Some(files[p]))
      && (forall p, t :: p in links && t in files && Reaches(links, p, t) ==>
          Read(tree, p) == Some(files[t]) && (tree[p] == if posix then Symlink(t) else File(files[t])))
  {
    ExtractionIsExact(members, posix);
    ExtractedTree(members, posix);
    var tree, files, links := Extracted(members, posix).value, Files(members), Links(members);
    FilesRead(files, links, posix, tree);
    forall p, t | p in links && t in files && Reaches(links, p, t)
      ensures Read(tree, p) == Some(files[t]) && (tree[p] == if posix then Symlink(t) else File(files[t]))
    {
      LinkReads(files, links, posix, tree, p, t);
    }
  }

  /** Nothing is published outside the destination: every path of the tree, and every path a
      link in it leads to, runs down from the root, and the latter is a file of the tree. */
  lemma ExtractedPathsAreSafe(members: seq<Member>, posix: bool)
    requires Extracted(members, posix).Ok?
    ensures var tree := Extracted(members, posix).value;
      && (forall p :: p in tree ==> p != [] && Plain(p))
      && (forall p :: p in tree && tree[p].Symlink? ==> tree[p].target in tree && tree[tree[p].target].File?)
  {
    ExtractedTree(members, posix);
    ExtractionIsExact(members, posix);
    var tree, files, links := Extracted(members, posix).value, Files(members), Links(members);
    forall p | p in tree ensures p != [] && Plain(p) {
      var m :| m in members && PathOf(m) == p && (m.kind.Regular? || m.kind.Link?);
      assert Clear(members, p);
      SafeMemberIsExact(m.name);
    }
    forall p | p in tree && tree[p].Symlink? ensures tree[p].target in tree && tree[tree[p].target].File? {
      assert NodeFor(files, links, p, posix) == Ok(tree[p]);
      assert NodeFor(files, links, tree[p].target, posix) == Ok(tree[tree[p].target]);
    }
  }

  lemma FilesRead(files: map<Path, Bytes>, links: map<Path, Path>, posix: bool, tree: map<Path, Node>)
    requires IsTree(files, links, posix, tree)
    ensures forall p :: p in files ==> Read(tree, p) == Some(files[p])
  {
  }

  // ---------------------------------------------------------------- order

  lemma TwiceIn(members: seq<Member>, i: nat, j: nat)
    requires i < j < |members| && members[i] == members[j]
    ensures multiset(members)[members[i]] >= 2
  {
    assert members == members[..j] + [members[j]] + members[j + 1..];
    assert members[i] == members[..j][i];
  }

  lemma InTwice(members: seq<Member>, m: Member)
    requires multiset(members)[m] >= 2
    ensures exists i, j :: 0 <= i < j < |members| && members[i] == m && members[j] == m
  {
    var i :| 0 <= i < |members| && members[i] == m;
    var rest := members[..i] + members[i + 1..];
    assert members == members[..i] + [m] + members[i + 1..];
    assert multiset(members) == multiset(rest) + multiset{m};
    assert m in rest;
    var j :| 0 <= j < |rest| && rest[j] == m;
    var k := if j < i then j else j + 1;
    assert members[k] == m;
    if k < i {
      assert members[k] == m && members[i] == m;
    } else {
      assert members[i] == m && members[k] == m;
    }
  }

  lemma DistinctPermuted(a: seq<Member>, b: seq<Member>)
    requires multiset(a) == multiset(b) && Distinct(a)
    ensures Distinct(b)
  {
    forall i, j | 0 <= i < j < |b| ensures PathOf(b[i]) != PathOf(b[j]) {
      if b[i] == b[j] {
        TwiceIn(b, i, j);
        InTwice(a, b[i]);
      } else {
        assert b[i] in multiset(a) && b[j] in multiset(a);
      }
    }
  }

  lemma OneTree(files: map<Path, Bytes>, links: map<Path, Path>, posix: bool, x: map<Path, Node>, y: map<Path, Node>)
    requires IsTree(files, links, posix, x) && IsTree(files, links, posix, y)
    ensures x == y
  {
    assert x.Keys == y.Keys;
  }

  lemma ExtractablePermuted(a: seq<Member>, b: seq<Member>)
    requires multiset(a) == multiset(b) && Extractable(a)
    ensures Extractable(b) && Files(a) == Files(b) && Links(a) == Links(b)
  {
    assert forall m :: m in a <==> m in multiset(a);
    assert forall m :: m in b <==> m in multiset(b);
    DistinctPermuted(a, b);
    SameMembers(a, b);
  }

  /** The order of the members changes neither whether an archive is extracted nor the tree. */
  lemma OrderDoesNotMatter(a: seq<Member>, b: seq<Member>, posix: bool)
    requires multiset(a) == multiset(b)
    ensures Extracted(a, posix).Ok? <==> Extracted(b, posix).Ok?
    ensures Extracted(a, posix).Ok? ==> Extracted(a, posix).value == Extracted(b, posix).value
  {
    ExtractionIsExact(a, posix);
    ExtractionIsExact(b, posix);
    if Extractable(b) {
      ExtractablePermuted(b, a);
    }
    if Extractable(a) {
      ExtractablePermuted(a, b);
      ExtractedTree(a, posix);
      ExtractedTree(b, posix);
      OneTree(Files(a), Links(a), posix, Extracted(a, posix).value, Extracted(b, posix).value);
    }
  }

  lemma SameMembers(a: seq<Member>, b: seq<Member>)
    requires Distinct(a) && Distinct(b) && (forall m :: m in a <==> m in b)
    ensures Files(a) == Files(b) && Links(a) == Links(b)
    ensures AllAcceptable(a) <==> AllAcceptable(b)
    ensures Unobstructed(a) <==> Unobstructed(b)
  {
    forall p ensures Clear(a, p) <==> Clear(b, p) {
    }
  }

  // ---------------------------------------------------------------- the code

  /** What the operating system does: how many staging writes and moves succeed before one
      fails (None: all), where in the destination the archive itself lies, and what a
      failing removal of the old tree had already removed. */
  datatype Faults = Faults(writes: Option<nat>, moves: Option<nat>, archive: Option<Path>, removed: set<Path>)

  datatype Outcome = Published(paths: seq<Path>) | Rejected(error: Error) | Broken

  predicate Fails(budget: Option<nat>, n: nat) {
    budget.Some? && n >= budget.value
  }

  /** The old tree without everything but the archive. */
  function OnlyArchive(tree: map<Path, Node>, archive: Option<Path>): map<Path, Node> {
    map p | p in tree && archive == Some(p) :: tree[p]
  }

  /** The destination holds the tree, besides it the archive if it lay there, and nothing else. */
  ghost predicate Replaced(before: map<Path, Node>, archive: Option<Path>, tree: map<Path, Node>, now: map<Path, Node>)
  {
    && (forall p :: p in tree ==> p in now && now[p] == tree[p])
    && (forall p :: p in now && p !in tree ==> archive == Some(p) && p in before && now[p] == before[p])
    && (archive.Some? && archive.value in before ==> archive.value in now)
  }

  /** The archive may stay: its folder need not be removed, and no member needs it as one. */
  ghost predicate ArchiveAside(destination: map<Path, Node>, archive: Option<Path>, tree: map<Path, Node>) {
    archive.Some? && archive.value in destination ==>
      |archive.value| <= 1 && forall p :: p in tree ==> archive.value !in Ancestors(p)
  }

  function Part(tree: map<Path, Node>, paths: set<Path>): map<Path, Node> {
    map p | p in tree && p in paths :: tree[p]
  }

  lemma MoveOne(kept: map<Path, Node>, tree: map<Path, Node>, done: set<Path>, path: Path)
    requires path in tree
    ensures (kept + Part(tree, done))[path := tree[path]] == kept + Part(tree, done + {path})
    ensures tree - done - {path} == tree - (done + {path})
  {
  }

  lemma FoldersGrow(directories: set<Path>, d: Path)
    ensures FoldersOf(directories + {d}) == FoldersOf(directories) + FoldersOf({d})
  {
  }

  lemma EntryAhead(s: Scanned, posix: bool, k: nat)
    requires k < |Order(s)|
    ensures var entries := Entries(s, Order(s), posix);
      |entries[k..]| > 0 && entries[k..][0] == EntryFor(s, Order(s)[k], posix) && entries[k..][1..] == entries[k + 1..]
  {
  }

  class Workspace {
    var destination: map<Path, Node>
    var staging: map<Path, Node>
    var folders: set<Path>

    /** The first pass; directories are created as they are met. */
    method ScanMembers(members: seq<Member>) returns (result: Result<Scanned, Error>)
      requires folders == {}
      modifies this`folders
      ensures result == Scan(NOTHING, members)
      ensures result.Ok? ==> folders == FoldersOf(result.value.directories)
    {
      var s := NOTHING;
      for i := 0 to |members|
        invariant Scan(s, members[i..]) == Scan(NOTHING, members)
        invariant folders == FoldersOf(s.directories)
      {
        assert members[i..][0] == members[i] && members[i..][1..] == members[i + 1..];
        var next := ScanOne(s, members[i]);
        if next.Err? {
          return Err(next.error);
        }
        if members[i].kind.Directory? {
          FoldersGrow(s.directories, PathOf(members[i]));
          folders := folders + FoldersOf({PathOf(members[i])});
        }
        s := next.value;
      }
      return Ok(s);
    }

    method WriteStaged(path: Path, node: Node) returns (written: bool)
      modifies this`staging, this`folders
      ensures Put(Stage(old(staging), old(folders)), path, node) ==
        if written then Ok(Stage(staging, folders)) else Err(IoFault)
    {
      if path == [] || path in folders || !(Ancestors(path) !! staging.Keys) {
        return false;
      }
      folders := folders + Ancestors(path);
      staging := staging[path := node];
      return true;
    }

    method StageFiles(s: Scanned, posix: bool, faults: Faults) returns (failure: Option<Error>)
      requires Ordered(s)
      modifies this`staging, this`folders
      ensures var begun, entries := Stage(old(staging), old(folders)), Entries(s, Order(s), posix);
        if failure.None? then StageAll(Stage(staging, folders), entries[|s.regularOrder|..]) == StageAll(begun, entries)
        else StageAll(begun, entries) == Err(failure.value) || (failure.value == IoFault && faults.writes.Some?)
    {
      ghost var begun, entries := Stage(staging, folders), Entries(s, Order(s), posix);
      for i := 0 to |s.regularOrder|
        invariant StageAll(Stage(staging, folders), entries[i..]) == StageAll(begun, entries)
      {
        var path := s.regularOrder[i];
        assert path in s.regularOrder;
        EntryAhead(s, posix, i);
        if Fails(faults.writes, i) {
          return Some(IoFault);
        }
        var written := WriteStaged(path, File(s.regular[path]));
        if !written {
          return Some(IoFault);
        }
      }
      return None;
    }

    method StageLinks(s: Scanned, posix: bool, faults: Faults) returns (failure: Option<Error>)
      requires Ordered(s)
      modifies this`staging, this`folders
      ensures var entries := Entries(s, Order(s), posix);
        var staged := StageAll(Stage(old(staging), old(folders)), entries[|s.regularOrder|..]);
        if failure.None? then staged == Ok(Stage(staging, folders))
        else staged == Err(failure.value) || (failure.value == IoFault && faults.writes.Some?)
    {
      ghost var begun, entries := Stage(staging, folders), Entries(s, Order(s), posix);
      var n := |s.regularOrder|;
      for j := 0 to |s.aliasOrder|
        invariant StageAll(Stage(staging, folders), entries[n + j..]) == StageAll(begun, entries[n..])
      {
        var path := s.aliasOrder[j];
        assert path in s.aliasOrder;
        EntryAhead(s, posix, n + j);
        var target := Resolve(s.regular, s.aliases, path, {});
        if target.Err? {
          return Some(target.error);
        }
        if Fails(faults.writes, n + j) {
          return Some(IoFault);
        }
        var written := WriteStaged(path, if posix then Symlink(target.value) else File(s.regular[target.value]));
        if !written {
          return Some(IoFault);
        }
      }
      return None;
    }

    /** The moves out of staging, one after the other. */
    method MoveAll(paths: seq<Path>, moves: Option<nat>) returns (moved: bool)
      requires forall p :: p in staging <==> p in paths
      requires forall i, j :: 0 <= i < j < |paths| ==> paths[i] != paths[j]
      modifies this`destination, this`staging
      ensures moved ==> destination == old(destination) + old(staging)
      ensures Between(old(destination), old(staging), destination)
      ensures !moved && moves.None? ==>
        exists p, q :: p in old(staging) && q in Ancestors(p) && (q in old(destination) || q in old(staging))
    {
      ghost var kept, tree := destination, staging;
      ghost var done: set<Path> := {};
      for i := 0 to |paths|
        invariant forall j :: 0 <= j < |paths| ==> (paths[j] in done <==> j < i)
        invariant done <= tree.Keys
        invariant staging == tree - done && destination == kept + Part(tree, done)
      {
        var path := paths[i];
        assert path in paths && path !in done;
        MoveOne(kept, tree, done, path);
        if Fails(moves, i) || !(Ancestors(path) !! destination.Keys) {
          return false;
        }
        destination := destination[path := staging[path]];
        staging := staging - {path};
        done := done + {path};
      }
      assert Part(tree, done) == tree;
      return true;
    }

    /** Removal of the old tree and publication of the staged one. */
    method Publish(paths: seq<Path>, faults: Faults) returns (published: bool)
      requires forall p :: p in staging <==> p in paths
      requires forall i, j :: 0 <= i < j < |paths| ==> paths[i] != paths[j]
      requires forall p, q :: p in staging && q in staging ==> p !in Ancestors(q)
      modifies this`destination, this`staging
      ensures published ==> destination == OnlyArchive(old(destination), faults.archive) + old(staging)
      ensures Between(old(destination), old(staging), destination)
      ensures faults.moves.None? && ArchiveAside(old(destination), faults.archive, old(staging)) ==> published
    {
      if faults.archive.Some? && faults.archive.value in destination && |faults.archive.value| > 1 {
        destination := destination - (faults.removed - {faults.archive.value});
        return false;
      }
      destination := OnlyArchive(destination, faults.archive);
      published := MoveAll(paths, faults.moves);
    }

    /** The whole function. A rejected archive leaves the destination alone; a published one
        replaces everything there but the archive; staging is always cleaned up. */
    method ExtractArchive(members: seq<Member>, posix: bool, faults: Faults) returns (outcome: Outcome)
      requires staging == map[] && folders == {}
      modifies this
      ensures staging == map[] && folders == {}
      ensures outcome.Rejected? ==>
        && destination == old(destination)
        && (Extracted(members, posix) == Err(outcome.error) || (outcome.error == IoFault && faults.writes.Some?))
      ensures !outcome.Rejected? ==>
        && Extracted(members, posix).Ok?
        && Between(old(destination), Extracted(members, posix).value, destination)
      ensures outcome.Published? ==>
        && Replaced(old(destination), faults.archive, Extracted(members, posix).value, destination)
        && (forall p :: p in outcome.paths <==> p in Extracted(members, posix).value)
      ensures outcome.Broken? && ArchiveAside(old(destination), faults.archive, Extracted(members, posix).value) ==>
        faults.moves.Some?
    {
      var scanned := ScanMembers(members);
      if scanned.Err? {
        Clean();
        return Rejected(scanned.error);
      }
      var s := scanned.value;
      ScannedMembers(members);
      var failure := StageFiles(s, posix, faults);
      if failure.None? {
        failure := StageLinks(s, posix, faults);
      }
      if failure.Some? {
        Clean();
        return Rejected(failure.value);
      }
      var paths := s.regularOrder + s.aliasOrder;
      ReadyToPublish(members, posix);
      assert Extracted(members, posix) == Ok(staging);
      var published := Publish(paths, faults);
      Clean();
      return if published then Published(paths) else Broken;
    }

    method Clean()
      modifies this`staging, this`folders
      ensures staging == map[] && folders == {}
    {
      staging, folders := map[], {};
    }
  }

  /** Every file of `now` is an untouched old one or one of the tree. */
  ghost predicate Between(before: map<Path, Node>, tree: map<Path, Node>, now: map<Path, Node>) {
    forall p :: p in now ==> (p in before && now[p] == before[p]) || (p in tree && now[p] == tree[p])
  }

  lemma ReadyToPublish(members: seq<Member>, posix: bool)
    requires Extracted(members, posix).Ok?
    ensures var s, tree := Scan(NOTHING, members).value, Extracted(members, posix).value;
      && (forall p :: p in tree <==> p in Order(s))
      && (forall i, j :: 0 <= i < j < |Order(s)| ==> Order(s)[i] != Order(s)[j])
      && (forall p, q :: p in tree && q in tree ==> p !in Ancestors(q))
  {
    ScannedMembers(members);
    OrderLists(Scan(NOTHING, members).value);
    ExtractedTree(members, posix);
    StagedIff(members, posix);
    var tree := Extracted(members, posix).value;
    forall p, q | p in tree && q in tree ensures p !in Ancestors(q) {
      assert Clear(members, p);
      assert q in Files(members) || q in Links(members);
    }
  }
}
