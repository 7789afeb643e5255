/** Storage accounting and confirmed cleanup of the data root
    (pipeline/clipgauge_pipeline/storage.py), on trees that can be read in full. */
module Storage {
  import opened FileTree
  import opened Wrappers

  // ---------------------------------------------------------------- accounting

  predicate EndsWith(s: string, suffix: string) {
    |suffix| <= |s| && s[|s| - |suffix|..] == suffix
  }

  predicate Contains(s: string, part: string) {
    part <= s || (s != [] && Contains(s[1..], part))
  }

  /** Names of files that a transfer has not finished. */
  predicate IsPartial(name: string) {
    EndsWith(name, ".part") || EndsWith(name, ".tmp") || Contains(name, ".staging")
  }

  lemma {:induction false} ContainsIsExact(s: string, part: string)
    ensures Contains(s, part) <==> exists before, after :: s == before + part + after
  {
    if part <= s {
      assert s == "" + part + s[|part|..];
    } else if s != "" {
      ContainsIsExact(s[1..], part);
      if before, after :| s[1..] == before + part + after {
        assert s == [s[0]] + before + part + after;
      }
      if before, after :| s == before + part + after {
        assert before == "" ==> s == part + after;
        assert s[1..] == before[1..] + part + after;
      }
    }
  }

  /** Unfinished files end in .part or .tmp or have .staging in their name. */
  lemma PartialNames(name: string)
    ensures IsPartial(name) <==>
      || (exists stem :: name == stem + ".part")
      || (exists stem :: name == stem + ".tmp")
      || (exists before, after :: name == before + ".staging" + after)
  {
    ContainsIsExact(name, ".staging");
    SuffixIsExact(name, ".part");
    SuffixIsExact(name, ".tmp");
  }

  lemma SuffixIsExact(s: string, suffix: string)
    ensures EndsWith(s, suffix) <==> exists stem :: s == stem + suffix
  {
    if EndsWith(s, suffix) {
      assert s == s[..|s| - |suffix|] + suffix;
    }
  }

  /** Whether a file counts, given its directory, its name and whether some directory
      above it is called diagnostics. */
  type Counter = (string, string, bool) -> bool

  /** The bytes of the regular files that count. */
  function Sum(counts: Counter, parent: string, name: string, node: Node, inDiagnostics: bool): nat
    decreases node
  {
    match node
    case File(content) => if counts(parent, name, inDiagnostics) then |content| else 0
    case Dir(entries) => SumEntries(counts, name, entries, inDiagnostics)
    case _ => 0
  }

  function SumEntries(counts: Counter, parent: string, entries: seq<Entry>, inDiagnostics: bool): nat
    decreases entries
  {
    if entries == [] then 0
    else
      Sum(counts, parent, entries[0].name, entries[0].node, inDiagnostics || entries[0].name == "diagnostics")
      + SumEntries(counts, parent, entries[1..], inDiagnostics)
  }

  const ANY: Counter := (parent: string, name: string, inDiagnostics: bool) => true
  const RENDERED: Counter :=
    (parent: string, name: string, inDiagnostics: bool) => parent in {"outputs", "rendered"}
  const PARTIAL: Counter := (parent: string, name: string, inDiagnostics: bool) => IsPartial(name)
  const DIAGNOSTICS: Counter := (parent: string, name: string, inDiagnostics: bool) => inDiagnostics

  /** All regular files, whatever they are called. */
  function Size(node: Node): nat {
    match node
    case File(content) => |content|
    case Dir(entries) => SizeEntries(entries)
    case _ => 0
  }

  function SizeEntries(entries: seq<Entry>): nat {
    if entries == [] then 0 else Size(entries[0].node) + SizeEntries(entries[1..])
  }

  /** The single walk: total, rendered, partial and diagnostic bytes. */
  method ScanTree(parent: string, name: string, node: Node, inDiagnostics: bool)
    returns (total: nat, rendered: nat, partial: nat, diagnostics: nat)
    ensures total == Sum(ANY, parent, name, node, inDiagnostics) == Size(node)
    ensures rendered == Sum(RENDERED, parent, name, node, inDiagnostics)
    ensures partial == Sum(PARTIAL, parent, name, node, inDiagnostics)
    ensures diagnostics == Sum(DIAGNOSTICS, parent, name, node, inDiagnostics)
    decreases node
  {
    SumIsPartOfSize(ANY, parent, name, node, inDiagnostics);
    total, rendered, partial, diagnostics := 0, 0, 0, 0;
    match node {
      case File(content) =>
        var size := |content|;
        total := size;
        partial := if EndsWith(name, ".part") || EndsWith(name, ".tmp") || Contains(name, ".staging") then size else 0;
        rendered := if parent in {"outputs", "rendered"} then size else 0;
        diagnostics := if inDiagnostics then size else 0;
      case Dir(entries) =>
        for i := 0 to |entries|
          invariant total + SumEntries(ANY, name, entries[i..], inDiagnostics)
                 == SumEntries(ANY, name, entries, inDiagnostics)
          invariant rendered + SumEntries(RENDERED, name, entries[i..], inDiagnostics)
                 == SumEntries(RENDERED, name, entries, inDiagnostics)
          invariant partial + SumEntries(PARTIAL, name, entries[i..], inDiagnostics)
                 == SumEntries(PARTIAL, name, entries, inDiagnostics)
          invariant diagnostics + SumEntries(DIAGNOSTICS, name, entries[i..], inDiagnostics)
                 == SumEntries(DIAGNOSTICS, name, entries, inDiagnostics)
        {
          assert entries[i..][0] == entries[i] && entries[i..][1..] == entries[i + 1..];
          var inside := inDiagnostics || entries[i].name == "diagnostics";
          var t, r, p, d := ScanTree(name, entries[i].name, entries[i].node, inside);
          total, rendered, partial, diagnostics := total + t, rendered + r, partial + p, diagnostics + d;
        }
      case _ =>
    }
  }

  /** Each sum is a part of the total, and the total is the plain size. */
  lemma {:induction false} SumIsPartOfSize(counts: Counter, parent: string, name: string, node: Node,
                                           inDiagnostics: bool)
    ensures Sum(counts, parent, name, node, inDiagnostics) <= Sum(ANY, parent, name, node, inDiagnostics) == Size(node)
    decreases node
  {
    if node.Dir? {
      EntriesArePartOfSize(counts, name, node.entries, inDiagnostics);
    }
  }

  lemma {:induction false} EntriesArePartOfSize(counts: Counter, parent: string, entries: seq<Entry>,
                                                inDiagnostics: bool)
    ensures SumEntries(counts, parent, entries, inDiagnostics)
         <= SumEntries(ANY, parent, entries, inDiagnostics) == SizeEntries(entries)
    decreases entries
  {
    if entries != [] {
      var e := entries[0];
      SumIsPartOfSize(counts, parent, e.name, e.node, inDiagnostics || e.name == "diagnostics");
      EntriesArePartOfSize(counts, parent, entries[1..], inDiagnostics);
    }
  }

  /** Which files the four sums count: all; those directly in a directory called outputs or
      rendered; unfinished ones; those anywhere below a directory called diagnostics. A sum
      is taken over the files, one after the other. */
  lemma CountersAreExact(parent: string, name: string, content: Bytes, before: seq<Entry>, e: Entry, inside: bool)
    ensures Sum(RENDERED, parent, name, File(content), inside) ==
      if parent == "outputs" || parent == "rendered" then |content| else 0
    ensures Sum(PARTIAL, parent, name, File(content), inside) == if IsPartial(name) then |content| else 0
    ensures Sum(DIAGNOSTICS, parent, name, File(content), inside) == if inside then |content| else 0
    ensures forall counts: Counter ::
      && Sum(counts, parent, name, Dir(before), inside) == SumEntries(counts, name, before, inside)
      && Sum(counts, parent, name, Symlink, inside) == Sum(counts, parent, name, Special, inside) == 0
      && SumEntries(counts, parent, [], inside) == 0
      && SumEntries(counts, parent, before + [e], inside) == SumEntries(counts, parent, before, inside)
         + Sum(counts, parent, e.name, e.node, inside || e.name == "diagnostics")
  {
    forall counts: Counter
      ensures SumEntries(counts, parent, before + [e], inside) == SumEntries(counts, parent, before, inside)
        + Sum(counts, parent, e.name, e.node, inside || e.name == "diagnostics")
    {
      SumOneMore(counts, parent, before, e, inside);
    }
  }

  lemma {:induction false} SumOneMore(counts: Counter, parent: string, before: seq<Entry>, e: Entry, inside: bool)
    ensures SumEntries(counts, parent, before + [e], inside) == SumEntries(counts, parent, before, inside)
      + Sum(counts, parent, e.name, e.node, inside || e.name == "diagnostics")
    decreases |before|
  {
    if before == [] {
      assert [] + [e] == [e] && [e][1..] == [];
    } else {
      assert (before + [e])[1..] == before[1..] + [e];
      SumOneMore(counts, parent, before[1..], e, inside);
    }
  }

  // ---------------------------------------------------------------- removal

  /** The tree without what stands at `q`. */
  function Remove(node: Node, q: Path): Node
    requires q != []
    decreases |q|, 1, 0
  {
    if node.Dir? then Dir(RemoveIn(node.entries, q)) else node
  }

  function RemoveIn(entries: seq<Entry>, q: Path): seq<Entry>
    requires q != []
    decreases |q|, 0, |entries|
  {
    if entries == [] then []
    else if entries[0].name != q[0] then [entries[0]] + RemoveIn(entries[1..], q)
    else if |q| == 1 then entries[1..]
    else [Entry(q[0], Remove(entries[0].node, q[1..]))] + entries[1..]
  }

  lemma {:induction false} ChildAfterRemove(entries: seq<Entry>, q: Path, name: string)
    requires q != [] && NamedEntries(entries)
    ensures Child(RemoveIn(entries, q), name) ==
      if name != q[0] || Child(entries, name).None? then Child(entries, name)
      else if |q| == 1 then None
      else Some(Remove(Child(entries, name).value, q[1..]))
    decreases |entries|
  {
    if entries != [] && entries[0].name != q[0] {
      ChildAfterRemove(entries[1..], q, name);
    }
  }

  lemma {:induction false} RemoveIsNamed(node: Node, q: Path)
    requires q != [] && Named(node)
    ensures Named(Remove(node, q))
    decreases |q|, 1, 0
  {
    if node.Dir? {
      RemoveInIsNamed(node.entries, q);
    }
  }

  lemma {:induction false} RemoveInIsNamed(entries: seq<Entry>, q: Path)
    requires q != [] && NamedEntries(entries)
    ensures NamedEntries(RemoveIn(entries, q))
    decreases |q|, 0, |entries|
  {
    if entries != [] {
      if entries[0].name != q[0] {
        RemoveInIsNamed(entries[1..], q);
        ChildAfterRemove(entries[1..], q, entries[0].name);
      } else if |q| > 1 {
        RemoveIsNamed(entries[0].node, q[1..]);
      }
    }
  }

  /** Removal takes away what is at or below `q` and leaves every other file. */
  lemma {:induction false} AtAfterRemove(node: Node, q: Path, r: Path)
    requires q != [] && Named(node)
    ensures At(Remove(node, q), r) ==
      if q <= r then None
      else if r <= q && At(node, r).Some? then Some(Remove(At(node, r).value, q[|r|..]))
      else At(node, r)
    decreases |q|
  {
    if r != [] && node.Dir? {
      ChildAfterRemove(node.entries, q, r[0]);
      if r[0] == q[0] && |q| > 1 && Child(node.entries, r[0]).Some? {
        var child := Child(node.entries, r[0]).value;
        NamedChild(node.entries, r[0]);
        AtAfterRemove(child, q[1..], r[1..]);
        assert q <= r <==> q[1..] <= r[1..];
        assert r <= q <==> r[1..] <= q[1..];
        if r <= q {
          assert q[1..][|r[1..]|..] == q[|r|..];
        }
      }
    }
  }

  lemma {:induction false} NamedChild(entries: seq<Entry>, name: string)
    requires NamedEntries(entries) && Child(entries, name).Some?
    ensures Named(Child(entries, name).value)
    decreases |entries|
  {
    if entries[0].name != name {
      NamedChild(entries[1..], name);
    }
  }

  /** The size shrinks by exactly the size of what is removed. */
  lemma {:induction false} SizeAfterRemove(node: Node, q: Path)
    requires q != [] && Named(node) && At(node, q).Some?
    ensures Size(Remove(node, q)) + Size(At(node, q).value) == Size(node)
    decreases |q|, 1, 0
  {
    SizeInAfterRemove(node.entries, q);
  }

  lemma {:induction false} SizeInAfterRemove(entries: seq<Entry>, q: Path)
    requires q != [] && NamedEntries(entries) && At(Dir(entries), q).Some?
    ensures SizeEntries(RemoveIn(entries, q)) + Size(At(Dir(entries), q).value) == SizeEntries(entries)
    decreases |q|, 0, |entries|
  {
    if entries[0].name != q[0] {
      assert At(Dir(entries[1..]), q) == At(Dir(entries), q);
      SizeInAfterRemove(entries[1..], q);
    } else if |q| > 1 {
      SizeAfterRemove(entries[0].node, q[1..]);
    }
  }

  // ---------------------------------------------------------------- candidates

  datatype Target = Session | FailedSession | SafeCache | RuntimeArchives

  datatype Error = JobRequired | JobUnavailable | JobRunning | JobNotFailed | InvalidJobId | Unconfirmed

  function Below(name: string, paths: seq<Path>): seq<Path> {
    seq(|paths|, i requires 0 <= i < |paths| => [name] + paths[i])
  }

  /** The unfinished files below a directory. */
  function SafeEntries(entries: seq<Entry>): seq<Path>
    decreases entries
  {
    if entries == [] then []
    else
      (match entries[0].node
       case File(_) => if IsPartial(entries[0].name) then [[entries[0].name]] else []
       case Dir(inner) => Below(entries[0].name, SafeEntries(inner))
       case _ => [])
      + SafeEntries(entries[1..])
  }

  function SafeBelow(root: Node, base: string): seq<Path> {
    match At(root, [base])
    case Some(Dir(entries)) => Below(base, SafeEntries(entries))
    case _ => []
  }

  function SafeFiles(root: Node): seq<Path> {
    SafeBelow(root, "downloads") + SafeBelow(root, "temp")
  }

  predicate IsArchiveName(name: string) {
    "llama-server-" <= name || "ffmpeg-" <= name || "node-" <= name || "bgutil-" <= name
  }

  /** The regular files directly in the directory `base` whose names are chosen. */
  function DirectFiles(base: string, chosen: string -> bool, entries: seq<Entry>): seq<Path> {
    if entries == [] then []
    else (if entries[0].node.File? && chosen(entries[0].name) then [[base, entries[0].name]] else [])
         + DirectFiles(base, chosen, entries[1..])
  }

  predicate IsDir(root: Node, q: Path) {
    At(root, q).Some? && At(root, q).value.Dir?
  }

  function Archives(root: Node): seq<Path> {
    if IsDir(root, ["downloads"])
       && (IsDir(root, ["runtimes", "llama-server"]) || IsDir(root, ["runtimes", "ffmpeg"])
           || IsDir(root, ["runtimes", "youtube"]))
    then DirectFiles("downloads", IsArchiveName, At(root, ["downloads"]).value.entries)
    else []
  }

  predicate Matches(s: string, from: nat, to: nat, hex: bool) {
    forall i :: from <= i < to && i < |s| ==> '0' <= s[i] <= '9' || (hex && 'a' <= s[i] <= 'f')
  }

  /** Eight digits, six digits and six hexadecimal digits, with hyphens between. */
  predicate IsJobId(s: string) {
    && |s| == 22 && s[8] == '-' && s[15] == '-'
    && Matches(s, 0, 8, false) && Matches(s, 9, 15, false) && Matches(s, 16, 22, true)
  }

  function Candidates(root: Node, jobs: map<string, string>, target: Target, job: Option<string>): Result<seq<Path>,
                      Error> {
    match target
    case SafeCache => Ok(SafeFiles(root))
    case RuntimeArchives => Ok(Archives(root))
    case _ =>
      if job.None? || job.value == "" then Err(JobRequired)
      else if job.value !in jobs then Err(JobUnavailable)
      else if jobs[job.value] == "running" then Err(JobRunning)
      else if target == FailedSession && jobs[job.value] != "failed" then Err(JobNotFailed)
      else if !IsJobId(job.value) then Err(InvalidJobId)
      else if !IsDir(root, ["jobs", job.value]) then Err(JobUnavailable)
      else Ok([["jobs", job.value]])
  }

  function SizeAt(root: Node, q: Path): nat {
    if At(root, q).Some? then Size(At(root, q).value) else 0
  }

  /** The bytes of a preview. */
  function SizesAt(root: Node, paths: seq<Path>): nat {
    if paths == [] then 0 else SizeAt(root, paths[0]) + SizesAt(root, paths[1..])
  }

  predicate Removable(root: Node, q: Path) {
    q != [] && At(root, q).Some? && (At(root, q).value.File? || At(root, q).value.Dir?)
  }

  /** Deletion of the paths one after the other. */
  function RemoveAll(root: Node, paths: seq<Path>): Node
    decreases |paths|
  {
    if paths == [] then root
    else RemoveAll(if Removable(root, paths[0]) then Remove(root, paths[0]) else root, paths[1..])
  }

  class DataRoot {
    var tree: Node
    var jobs: map<string, string>

    method Cleanup(target: Target, job: Option<string>, confirmed: bool)
      returns (result: Result<(seq<Path>, nat), Error>)
      modifies this
      ensures var candidates := Candidates(old(tree), old(jobs), target, job);
        if !confirmed then result == Err(Unconfirmed) && tree == old(tree) && jobs == old(jobs)
        else if candidates.Err? then result == Err(candidates.error) && tree == old(tree) && jobs == old(jobs)
        else
          && result == Ok((candidates.value, SizesAt(old(tree), candidates.value)))
          && tree == RemoveAll(old(tree), candidates.value)
          && jobs == if target in {Session, FailedSession} && job.Some? then old(jobs) - {job.value} else old(jobs)
    {
      if !confirmed {
        return Err(Unconfirmed);
      }
      var candidates := Candidates(tree, jobs, target, job);
      if candidates.Err? {
        return Err(candidates.error);
      }
      var paths := candidates.value;
      var bytes := PreviewBytes(paths);
      RemovePaths(paths);
      if target in {Session, FailedSession} && job.Some? {
        jobs := jobs - {job.value};
      }
      return Ok((paths, bytes));
    }

    method PreviewBytes(paths: seq<Path>) returns (bytes: nat)
      ensures bytes == SizesAt(tree, paths)
    {
      bytes := 0;
      for i := 0 to |paths|
        invariant bytes + SizesAt(tree, paths[i..]) == SizesAt(tree, paths)
      {
        assert paths[i..][0] == paths[i] && paths[i..][1..] == paths[i + 1..];
        bytes := bytes + SizeAt(tree, paths[i]);
      }
    }

    method RemovePaths(paths: seq<Path>)
      modifies this`tree
      ensures tree == RemoveAll(old(tree), paths)
    {
      for i := 0 to |paths|
        invariant RemoveAll(tree, paths[i..]) == RemoveAll(old(tree), paths)
      {
        assert paths[i..][0] == paths[i] && paths[i..][1..] == paths[i + 1..];
        if Removable(tree, paths[i]) {
          tree := Remove(tree, paths[i]);
        }
      }
    }
  }

  // ---------------------------------------------------------------- what a cleanup does

  /** No path is at or below another. */
  predicate Apart(paths: seq<Path>) {
    forall i, j :: 0 <= i < |paths| && 0 <= j < |paths| && i != j ==> !(paths[i] <= paths[j])
  }

  /** `q` is at or below one of the paths. */
  predicate Covered(paths: seq<Path>, q: Path) {
    exists i :: 0 <= i < |paths| && paths[i] <= q
  }

  /** Removal of paths that lie apart: what is covered is gone, every other file, link or
      special file is as it was, and the size shrinks by exactly the previewed bytes. */
  lemma {:induction false} RemoveAllIsExact(root: Node, paths: seq<Path>)
    requires Named(root) && Apart(paths) && forall i :: 0 <= i < |paths| ==> Removable(root, paths[i])
    ensures var after := RemoveAll(root, paths);
      && Named(after)
      && Size(after) + SizesAt(root, paths) == Size(root)
      && forall r :: if Covered(paths, r) then At(after, r).None?
                     else if IsDir(root, r) then IsDir(after, r)
                     else At(after, r) == At(root, r)
    decreases |paths|
  {
    if paths != [] {
      var q, rest := paths[0], paths[1..];
      var next := Remove(root, q);
      RemoveIsNamed(root, q);
      SizeAfterRemove(root, q);
      forall i | 0 <= i < |rest| ensures At(next, rest[i]) == At(root, rest[i]) {
        assert rest[i] == paths[i + 1];
        AtAfterRemove(root, q, rest[i]);
      }
      SameSizes(root, next, rest);
      assert Apart(rest) by {
        assert forall i :: 0 <= i < |rest| ==> rest[i] == paths[i + 1];
      }
      RemoveAllIsExact(next, rest);
      var after := RemoveAll(root, paths);
      forall r
        ensures if Covered(paths, r) then At(after, r).None?
                else if IsDir(root, r) then IsDir(after, r)
                else At(after, r) == At(root, r)
      {
        AtAfterRemove(root, q, r);
        CoveredFirst(paths, r);
        if r <= q && !(q <= r) {
          NotLeaf(root, r, q);
        }
      }
    }
  }

  lemma CoveredFirst(paths: seq<Path>, r: Path)
    requires paths != []
    ensures Covered(paths, r) <==> paths[0] <= r || Covered(paths[1..], r)
  {
    if Covered(paths[1..], r) {
      var i :| 0 <= i < |paths[1..]| && paths[1..][i] <= r;
      assert paths[i + 1] <= r;
    }
    if Covered(paths, r) && !(paths[0] <= r) {
      var i :| 0 <= i < |paths| && paths[i] <= r;
      assert paths[1..][i - 1] <= r;
    }
  }

  lemma {:induction false} SameSizes(x: Node, y: Node, paths: seq<Path>)
    requires forall i :: 0 <= i < |paths| ==> At(x, paths[i]) == At(y, paths[i])
    ensures SizesAt(x, paths) == SizesAt(y, paths)
  {
    if paths != [] {
      SameSizes(x, y, paths[1..]);
    }
  }

  /** What has something below it is a directory. */
  lemma {:induction false} NotLeaf(node: Node, r: Path, q: Path)
    requires r < q && At(node, q).Some?
    ensures IsDir(node, r)
    decreases |r|
  {
    if r != [] {
      NotLeaf(Child(node.entries, r[0]).value, r[1..], q[1..]);
    }
  }

  predicate IsSafeFile(entries: seq<Entry>, q: Path) {
    q != [] && At(Dir(entries), q).Some? && At(Dir(entries), q).value.File? && IsPartial(q[|q| - 1])
  }

  lemma BelowHas(name: string, paths: seq<Path>, q: Path)
    ensures q in Below(name, paths) <==> q != [] && q[0] == name && q[1..] in paths
  {
    if q != [] && q[0] == name && q[1..] in paths {
      var i :| 0 <= i < |paths| && paths[i] == q[1..];
      assert Below(name, paths)[i] == q;
    }
    if q in Below(name, paths) {
      var i :| 0 <= i < |paths| && Below(name, paths)[i] == q;
      assert q[1..] == paths[i];
    }
  }

  /** The walk finds exactly the unfinished regular files, each once. */
  lemma {:induction false} SafeEntriesAreExact(entries: seq<Entry>)
    requires NamedEntries(entries)
    ensures forall q :: q in SafeEntries(entries) <==> IsSafeFile(entries, q)
    decreases entries
  {
    if entries != [] {
      var e, rest := entries[0], entries[1..];
      SafeEntriesAreExact(rest);
      if e.node.Dir? {
        SafeEntriesAreExact(e.node.entries);
      }
      forall q ensures q in SafeEntries(entries) <==> IsSafeFile(entries, q) {
        SafeFirst(entries, q);
      }
    }
  }

  lemma SafeFirst(entries: seq<Entry>, q: Path)
    requires entries != [] && NamedEntries(entries)
    requires q in SafeEntries(entries[1..]) <==> IsSafeFile(entries[1..], q)
    requires entries[0].node.Dir? && q != [] ==>
      (q[1..] in SafeEntries(entries[0].node.entries) <==> IsSafeFile(entries[0].node.entries, q[1..]))
    ensures q in SafeEntries(entries) <==> IsSafeFile(entries, q)
  {
    var e, rest := entries[0], entries[1..];
    if e.node.Dir? {
      BelowHas(e.name, SafeEntries(e.node.entries), q);
    }
    if q != [] && q[0] == e.name {
      assert At(Dir(rest), q).None?;
      assert At(Dir(entries), q) == At(e.node, q[1..]);
      assert q[1..] == [] ==> q == [e.name];
      if q[1..] != [] {
        assert q[1..][|q[1..]| - 1] == q[|q| - 1];
      }
    } else if q != [] {
      assert At(Dir(entries), q) == At(Dir(rest), q);
    }
  }

  predicate NoDuplicates(paths: seq<Path>) {
    forall i, j :: 0 <= i < j < |paths| ==> paths[i] != paths[j]
  }

  lemma JoinDistinct(a: seq<Path>, b: seq<Path>)
    requires NoDuplicates(a) && NoDuplicates(b) && forall q :: q in a ==> q !in b
    ensures NoDuplicates(a + b)
  {
    forall i, j | 0 <= i < j < |a + b| ensures (a + b)[i] != (a + b)[j] {
      if i < |a| <= j {
        assert a[i] in a && b[j - |a|] in b;
      }
    }
  }

  lemma BelowDistinct(name: string, paths: seq<Path>)
    requires NoDuplicates(paths)
    ensures NoDuplicates(Below(name, paths))
  {
    forall i, j | 0 <= i < j < |paths| ensures Below(name, paths)[i] != Below(name, paths)[j] {
      assert Below(name, paths)[i][1..] == paths[i] && Below(name, paths)[j][1..] == paths[j];
    }
  }

  lemma {:induction false} SafeEntriesAreDistinct(entries: seq<Entry>)
    requires NamedEntries(entries)
    ensures NoDuplicates(SafeEntries(entries))
    decreases entries
  {
    if entries != [] {
      var e, rest := entries[0], entries[1..];
      SafeEntriesAreDistinct(rest);
      SafeEntriesAreExact(rest);
      var first: seq<Path> := match e.node
        case File(_) => if IsPartial(e.name) then [[e.name]] else []
        case Dir(inner) => Below(e.name, SafeEntries(inner))
        case _ => [];
      if e.node.Dir? {
        SafeEntriesAreDistinct(e.node.entries);
        BelowDistinct(e.name, SafeEntries(e.node.entries));
      }
      forall q | q in first ensures q != [] && q[0] == e.name && q !in SafeEntries(rest) {
        if e.node.Dir? {
          BelowHas(e.name, SafeEntries(e.node.entries), q);
        }
        assert At(Dir(rest), q).None?;
      }
      JoinDistinct(first, SafeEntries(rest));
    }
  }

  /** An unfinished regular file below the download cache or the temporary directory. */
  predicate IsCacheFile(root: Node, q: Path) {
    && |q| > 1 && q[0] in {"downloads", "temp"}
    && At(root, q).Some? && At(root, q).value.File? && IsPartial(q[|q| - 1])
  }

  lemma SafeBelowIsExact(root: Node, base: string, q: Path)
    requires Named(root) && base in {"downloads", "temp"}
    ensures q in SafeBelow(root, base) <==> IsCacheFile(root, q) && q[0] == base
    ensures NoDuplicates(SafeBelow(root, base))
  {
    var node := At(root, [base]);
    if node.Some? {
      NamedChild(root.entries, base);
      assert At(root, [base]) == Child(root.entries, base);
    }
    if node.Some? && node.value.Dir? {
      var entries := node.value.entries;
      SafeEntriesAreExact(entries);
      SafeEntriesAreDistinct(entries);
      BelowDistinct(base, SafeEntries(entries));
      BelowHas(base, SafeEntries(entries), q);
      if q != [] && q[0] == base {
        assert At(root, q) == At(Dir(entries), q[1..]);
        assert q[1..] != [] ==> q[1..][|q[1..]| - 1] == q[|q| - 1];
      }
    } else if IsCacheFile(root, q) && q[0] == base {
      assert [base] < q;
      NotLeaf(root, [base], q);
    }
  }

  lemma SafeFilesAreExact(root: Node)
    requires Named(root)
    ensures forall q :: q in SafeFiles(root) <==> IsCacheFile(root, q)
    ensures NoDuplicates(SafeFiles(root))
  {
    forall q ensures q in SafeFiles(root) <==> IsCacheFile(root, q) {
      SafeBelowIsExact(root, "downloads", q);
      SafeBelowIsExact(root, "temp", q);
    }
    forall q | q in SafeBelow(root, "downloads") ensures q !in SafeBelow(root, "temp") {
      SafeBelowIsExact(root, "downloads", q);
      SafeBelowIsExact(root, "temp", q);
    }
    SafeBelowIsExact(root, "downloads", []);
    SafeBelowIsExact(root, "temp", []);
    JoinDistinct(SafeBelow(root, "downloads"), SafeBelow(root, "temp"));
  }

  lemma FilesAreApart(root: Node, paths: seq<Path>)
    requires NoDuplicates(paths)
    requires forall q :: q in paths ==> At(root, q).Some? && At(root, q).value.File?
    ensures Apart(paths)
  {
    forall i, j | 0 <= i < |paths| && 0 <= j < |paths| && i != j ensures !(paths[i] <= paths[j]) {
      assert paths[i] in paths && paths[j] in paths;
      if paths[i] < paths[j] {
        NotLeaf(root, paths[i], paths[j]);
      }
      assert i < j ==> paths[i] != paths[j];
      assert j < i ==> paths[j] != paths[i];
    }
  }

  lemma CoveredFile(root: Node, paths: seq<Path>, r: Path)
    requires forall q :: q in paths ==> At(root, q).Some? && At(root, q).value.File?
    requires At(root, r).Some?
    ensures Covered(paths, r) <==> r in paths
  {
    if Covered(paths, r) {
      var i :| 0 <= i < |paths| && paths[i] <= r;
      assert paths[i] in paths;
      if |paths[i]| < |r| {
        NotLeaf(root, paths[i], r);
      } else {
        assert paths[i] == r;
      }
    }
    if r in paths {
      var i :| 0 <= i < |paths| && paths[i] == r;
      assert paths[i] <= r;
    }
  }

  predicate IsFile(root: Node, q: Path) {
    At(root, q).Some? && At(root, q).value.File?
  }

  /** Removal of files: they are gone, the other files are as they were, no file appears. */
  lemma FilesRemoved(root: Node, paths: seq<Path>)
    requires Named(root) && NoDuplicates(paths)
    requires forall q :: q in paths ==> q != [] && IsFile(root, q)
    ensures var after := RemoveAll(root, paths);
      && Named(after) && Size(after) + SizesAt(root, paths) == Size(root)
      && (forall r :: IsFile(root, r) ==> At(after, r) == if r in paths then None else At(root, r))
      && (forall r :: IsFile(after, r) ==> At(root, r) == At(after, r) && r !in paths)
  {
    FilesAreApart(root, paths);
    forall i | 0 <= i < |paths| ensures Removable(root, paths[i]) {
      assert paths[i] in paths;
    }
    RemoveAllIsExact(root, paths);
    forall r | At(root, r).Some? ensures Covered(paths, r) <==> r in paths {
      CoveredFile(root, paths, r);
    }
  }

  lemma {:induction false} NothingPartial(parent: string, name: string, node: Node, inDiagnostics: bool)
    requires Named(node) && !(node.File? && IsPartial(name))
    requires forall q :: q != [] && At(node, q).Some? && At(node, q).value.File? ==> !IsPartial(q[|q| - 1])
    ensures Sum(PARTIAL, parent, name, node, inDiagnostics) == 0
    decreases node
  {
    if node.Dir? {
      NothingPartialIn(name, node.entries, inDiagnostics);
    }
  }

  lemma {:induction false} NothingPartialIn(parent: string, entries: seq<Entry>, inDiagnostics: bool)
    requires NamedEntries(entries)
    requires forall q :: q != [] && At(Dir(entries), q).Some? && At(Dir(entries), q).value.File? ==>
      !IsPartial(q[|q| - 1])
    ensures SumEntries(PARTIAL, parent, entries, inDiagnostics) == 0
    decreases entries
  {
    if entries != [] {
      var e, rest := entries[0], entries[1..];
      assert At(Dir(entries), [e.name]) == Some(e.node);
      forall q | q != [] && At(e.node, q).Some? && At(e.node, q).value.File? ensures !IsPartial(q[|q| - 1]) {
        var r := [e.name] + q;
        assert At(Dir(entries), r) == At(e.node, r[1..]) && r[1..] == q;
        assert r[|r| - 1] == q[|q| - 1];
      }
      forall q | q != [] && At(Dir(rest), q).Some? && At(Dir(rest), q).value.File? ensures !IsPartial(q[|q| - 1]) {
        assert q[0] != e.name;
        assert At(Dir(entries), q) == At(Dir(rest), q);
      }
      NothingPartial(parent, e.name, e.node, inDiagnostics || e.name == "diagnostics");
      NothingPartialIn(parent, rest, inDiagnostics);
    }
  }

  lemma {:induction false} ContainsDot(s: string)
    requires Contains(s, ".staging")
    ensures '.' in s
  {
    if ".staging" <= s {
      assert s[0] == '.';
    } else {
      ContainsDot(s[1..]);
      assert forall c :: c in s[1..] ==> c in s;
    }
  }

  lemma PartialHasDot(s: string)
    requires IsPartial(s)
    ensures '.' in s
  {
    if EndsWith(s, ".part") {
      assert s[|s| - 5..][0] == '.';
    } else if EndsWith(s, ".tmp") {
      assert s[|s| - 4..][0] == '.';
    } else {
      ContainsDot(s);
    }
  }

  /** What a walk of a cache directory still counts as unfinished. */
  function PartialBytes(root: Node, rootName: string, base: string): nat {
    if At(root, [base]).Some? then Sum(PARTIAL, rootName, base, At(root, [base]).value, false) else 0
  }

  lemma BelowBase(root: Node, base: string, node: Node, q: Path)
    requires At(root, [base]) == Some(node) && q != []
    ensures At(root, [base] + q) == At(node, q) && ([base] + q)[|q|] == q[|q| - 1]
  {
    assert ([base] + q)[1..] == q;
  }

  lemma NoCacheFileNoPartial(root: Node, rootName: string, base: string)
    requires Named(root) && !IsPartial(base) && At(root, [base]).Some?
    requires forall q :: |q| > 1 && q[0] == base && IsFile(root, q) ==> !IsPartial(q[|q| - 1])
    ensures PartialBytes(root, rootName, base) == 0
  {
    var node := At(root, [base]).value;
    NamedChild(root.entries, base);
    forall q | q != [] && At(node, q).Some? && At(node, q).value.File? ensures !IsPartial(q[|q| - 1]) {
      BelowBase(root, base, node, q);
      assert ([base] + q)[0] == base;
    }
    NothingPartial(rootName, base, node, false);
  }

  lemma CacheNamesArePlain(base: string)
    requires base in {"downloads", "temp"}
    ensures !IsPartial(base)
  {
    if IsPartial(base) {
      PartialHasDot(base);
    }
  }

  lemma NoPartialBytes(root: Node, rootName: string, base: string)
    requires Named(root) && base in {"downloads", "temp"}
    requires forall q :: !IsCacheFile(root, q)
    ensures PartialBytes(root, rootName, base) == 0
  {
    CacheNamesArePlain(base);
    if At(root, [base]).Some? {
      forall q | |q| > 1 && q[0] == base && IsFile(root, q) ensures !IsPartial(q[|q| - 1]) {
        assert !IsCacheFile(root, q);
      }
      NoCacheFileNoPartial(root, rootName, base);
    }
  }

  /** A safe-cache cleanup shrinks the data root by exactly the previewed bytes, leaves no
      unfinished bytes in the cache directories, and no other file changes. */
  lemma SafeCleanupIsExact(root: Node, rootName: string)
    requires Named(root)
    ensures var after := RemoveAll(root, SafeFiles(root));
      && Size(after) + SizesAt(root, SafeFiles(root)) == Size(root)
      && PartialBytes(after, rootName, "downloads") == 0 && PartialBytes(after, rootName, "temp") == 0
      && (forall r :: IsFile(root, r) ==> At(after, r) == if IsCacheFile(root, r) then None else At(root, r))
      && (forall r :: IsFile(after, r) ==> At(root, r) == At(after, r))
  {
    var paths, after := SafeFiles(root), RemoveAll(root, SafeFiles(root));
    SafeFilesAreExact(root);
    FilesRemoved(root, paths);
    forall q ensures !IsCacheFile(after, q) {
      if IsFile(after, q) {
        assert At(root, q) == At(after, q) && q !in paths;
      }
    }
    NoPartialBytes(after, rootName, "downloads");
    NoPartialBytes(after, rootName, "temp");
  }

  /** Job ids: a date, a time and six hexadecimal digits. */
  lemma JobIdIsExact(s: string)
    ensures IsJobId(s) <==> |s| == 22 && forall i :: 0 <= i < 22 ==>
      s[i] in if i == 8 || i == 15 then "-" else if i < 16 then "0123456789" else "0123456789abcdef"
  {
    forall c: char ensures c in "0123456789" <==> '0' <= c <= '9' {
      DecimalDigit(c);
    }
    forall c: char ensures c in "0123456789abcdef" <==> '0' <= c <= '9' || 'a' <= c <= 'f' {
      HexDigit(c);
    }
  }

  lemma DecimalDigit(c: char)
    ensures c in "0123456789" <==> '0' <= c <= '9'
  {
    if '0' <= c <= '9' {
      assert "0123456789"[c as int - '0' as int] == c;
    }
  }

  lemma HexDigit(c: char)
    ensures c in "0123456789abcdef" <==> '0' <= c <= '9' || 'a' <= c <= 'f'
  {
    var digits := "0123456789abcdef";
    if '0' <= c <= '9' {
      assert digits[c as int - '0' as int] == c;
    } else if 'a' <= c <= 'f' {
      assert digits[10 + (c as int - 'a' as int)] == c;
    }
  }

  /** The job may be deleted under the given target. */
  predicate Deletable(root: Node, jobs: map<string, string>, target: Target, job: Option<string>) {
    && job.Some? && job.value in jobs
    && jobs[job.value] != "running"
    && (target.FailedSession? ==> jobs[job.value] == "failed")
    && IsJobId(job.value) && IsDir(root, ["jobs", job.value])
  }

  /** A session is deleted exactly when it is recorded, is not running, has failed if a failed
      one was asked for, and has a well-formed id and a directory, which alone is removed;
      each refusal has its own reason. Cleanups of caches and archives are never refused. */
  lemma SessionCandidatesAreExact(root: Node, jobs: map<string, string>, target: Target, job: Option<string>)
    requires target.Session? || target.FailedSession?
    ensures var candidates := Candidates(root, jobs, target, job);
      var unnamed := job.None? || job.value == "";
      && (candidates.Ok? <==> Deletable(root, jobs, target, job))
      && (candidates.Ok? ==> candidates.value == [["jobs", job.value]])
      && (candidates == Err(JobRequired) <==> unnamed)
      && (candidates == Err(JobRunning) <==> !unnamed && job.value in jobs && jobs[job.value] == "running")
      && (candidates == Err(JobNotFailed) <==>
          !unnamed && target.FailedSession? && job.value in jobs && jobs[job.value] !in {"running", "failed"})
      && (candidates.Err? && !unnamed && job.value !in jobs ==> candidates == Err(JobUnavailable))
      && (candidates == Err(InvalidJobId) <==>
          && !unnamed && job.value in jobs && jobs[job.value] != "running" && !IsJobId(job.value)
          && (target.FailedSession? ==> jobs[job.value] == "failed"))
  {
  }

  /** A path of an archive lying directly in the download cache: a regular file whose name
      starts as the archives of the managed runtimes do. */
  predicate IsArchive(root: Node, q: Path) {
    && |q| == 2 && q[0] == "downloads" && IsFile(root, q)
    && ("llama-server-" <= q[1] || "ffmpeg-" <= q[1] || "node-" <= q[1] || "bgutil-" <= q[1])
  }

  predicate SomeRuntime(root: Node) {
    || IsDir(root, ["runtimes", "llama-server"])
    || IsDir(root, ["runtimes", "ffmpeg"])
    || IsDir(root, ["runtimes", "youtube"])
  }

  /** The archives are obsolete exactly once some runtime is installed, and then are all
      listed, each once. */
  lemma ArchivesAreExact(root: Node)
    requires Named(root)
    ensures forall q :: q in Archives(root) <==> SomeRuntime(root) && IsArchive(root, q)
    ensures NoDuplicates(Archives(root))
  {
    if IsDir(root, ["downloads"]) {
      var dir := At(root, ["downloads"]).value;
      assert At(root, ["downloads"]) == Child(root.entries, "downloads");
      NamedChild(root.entries, "downloads");
      DirectFilesAreExact("downloads", IsArchiveName, dir.entries);
      forall q: Path | |q| == 2 && q[0] == "downloads" ensures At(root, q) == Child(dir.entries, q[1]) {
        DirectChild(root, "downloads", dir, q);
      }
    } else {
      forall q: Path | |q| == 2 && q[0] == "downloads" ensures !IsFile(root, q) {
        if IsFile(root, q) {
          assert ["downloads"] < q;
          NotLeaf(root, ["downloads"], q);
        }
      }
    }
  }

  lemma {:induction false} DirectFilesAreExact(base: string, chosen: string -> bool, entries: seq<Entry>)
    requires NamedEntries(entries)
    ensures NoDuplicates(DirectFiles(base, chosen, entries))
    ensures forall q :: q in DirectFiles(base, chosen, entries) <==>
      |q| == 2 && q[0] == base && chosen(q[1]) && Child(entries, q[1]).Some? && Child(entries, q[1]).value.File?
  {
    if entries != [] {
      var e, rest := entries[0], entries[1..];
      DirectFilesAreExact(base, chosen, rest);
      var first: seq<Path> := if e.node.File? && chosen(e.name) then [[base, e.name]] else [];
      JoinDistinct(first, DirectFiles(base, chosen, rest));
      assert forall q: Path :: |q| == 2 && q[0] == base && q[1] == e.name ==> q == [base, e.name];
    }
  }

  lemma DirectChild(root: Node, base: string, dir: Node, q: Path)
    requires At(root, [base]) == Some(dir) && dir.Dir? && |q| == 2 && q[0] == base
    ensures At(root, q) == Child(dir.entries, q[1])
  {
    var tail := q[1..];
    assert q == [base] + tail && tail != [];
    BelowBase(root, base, dir, tail);
    assert tail[1..] == [];
  }

  /** Deleting obsolete archives removes exactly the archives lying in the download cache. */
  lemma ArchiveCleanupIsExact(root: Node)
    requires Named(root)
    ensures var after := RemoveAll(root, Archives(root));
      && Size(after) + SizesAt(root, Archives(root)) == Size(root)
      && (forall r :: IsFile(root, r) ==>
          At(after, r) == if SomeRuntime(root) && IsArchive(root, r) then None else At(root, r))
      && (forall r :: IsFile(after, r) ==> At(root, r) == At(after, r))
  {
    ArchivesAreExact(root);
    forall q | q in Archives(root) ensures q != [] && IsFile(root, q) {
      assert IsArchive(root, q);
    }
    FilesRemoved(root, Archives(root));
  }

  /** Deleting a session removes exactly its directory. */
  lemma SessionCleanupIsExact(root: Node, jobs: map<string, string>, target: Target, job: Option<string>)
    requires Named(root) && target in {Session, FailedSession} && Candidates(root, jobs, target, job).Ok?
    ensures var q, after := ["jobs", job.value], RemoveAll(root, Candidates(root, jobs, target, job).value);
      && jobs[job.value] != "running"
      && Size(after) + Size(At(root, q).value) == Size(root)
      && forall r :: if q <= r then At(after, r).None?
                     else if IsDir(root, r) then IsDir(after, r)
                     else At(after, r) == At(root, r)
  {
    var q := ["jobs", job.value];
    assert [q][1..] == [];
    RemoveAllIsExact(root, [q]);
    forall r ensures Covered([q], r) <==> q <= r {
      CoveredFirst([q], r);
    }
  }
}
