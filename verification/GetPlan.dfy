/**
 The download plan of crates/mtp-rs-cli/src/cli/commands/get.rs: a remote tree is walked into
 folders and files with local paths, and refused if two would land on one local path.

 A local path is its components below the destination folder. Joining an accepted name adds
 exactly one component, since such a name has no separator and is neither `.` nor `..`.
 */
module GetPlan {
  import opened Common
  import opened Listing
  import opened LocalNames
  import opened Objects
  import opened Pack
  import opened Walk

  // --- The plan ---

  datatype PlannedFolder = PlannedFolder(remote: Text, local: Path)
  datatype PlannedFile = PlannedFile(handle: Handle, remote: Text, local: Path)
  datatype SkippedRow = SkippedRow(remoteFolder: Text, handle: Handle, error: PtpError)
  datatype FolderPlan = FolderPlan(folders: seq<PlannedFolder>, files: seq<PlannedFile>, skipped: seq<SkippedRow>)

  datatype PlanError = CannotList(folder: Text, error: PtpError) | UnusableName(folder: Text, name: Text)

  function RemoteJoin(folder: Text, name: Text): Text {
    if folder == [SLASH] then [SLASH] + name else folder + [SLASH] + name
  }

  /** The local paths of a plan: its folders, then its files. */
  function LocalPaths(plan: FolderPlan): (ps: seq<Path>)
    ensures |ps| == |plan.folders| + |plan.files|
    ensures forall i :: 0 <= i < |plan.folders| ==> ps[i] == plan.folders[i].local
    ensures forall i :: 0 <= i < |plan.files| ==> ps[|plan.folders| + i] == plan.files[i].local
  {
    seq(|plan.folders|, i requires 0 <= i < |plan.folders| => plan.folders[i].local)
    + seq(|plan.files|, i requires 0 <= i < |plan.files| => plan.files[i].local)
  }

  function ParentOf(p: Path): Path
    requires p != []
  {
    p[..|p| - 1]
  }

  /** Below the destination, made of usable names, and inside a folder that `folders` has. */
  ghost predicate Placed(p: Path, folders: seq<PlannedFolder>, windows: bool) {
    && p != [] && (forall i :: 0 <= i < |p| ==> Usable(p[i], windows))
    && (ParentOf(p) == [] || exists j :: 0 <= j < |folders| && folders[j].local == ParentOf(p))
  }

  /** Every entry lies in the destination or in a planned folder, and folders come parents first. */
  ghost predicate WellPlaced(plan: FolderPlan, windows: bool) {
    && (forall i :: 0 <= i < |plan.folders| ==> Placed(plan.folders[i].local, plan.folders[..i], windows))
    && (forall i :: 0 <= i < |plan.files| ==> Placed(plan.files[i].local, plan.folders, windows))
  }

  lemma {:induction false} PlacedInMore(p: Path, folders: seq<PlannedFolder>, more: seq<PlannedFolder>, windows: bool)
    requires Placed(p, folders, windows) && folders <= more
    ensures Placed(p, more, windows)
  {
  }

  /** A folder still to be listed. */
  datatype ToVisit = ToVisit(at: Option<Handle>, remote: Text, local: Path)

  function Ats(stack: seq<ToVisit>): (r: seq<Option<Handle>>)
    ensures |r| == |stack| && forall i :: 0 <= i < |r| ==> r[i] == stack[i].at
  {
    seq(|stack|, i requires 0 <= i < |stack| => stack[i].at)
  }

  /** The destination itself, or a folder already planned. */
  ghost predicate IsPlanned(local: Path, folders: seq<PlannedFolder>) {
    local == [] || exists j :: 0 <= j < |folders| && folders[j].local == local
  }

  lemma {:induction false} JoinIsPlaced(local: Path, name: Text, plan: FolderPlan, windows: bool)
    requires WellPlaced(plan, windows) && IsPlanned(local, plan.folders) && Usable(name, windows)
    ensures Placed(local + [name], plan.folders, windows)
  {
  }

  lemma {:induction false} FolderAdded(plan: FolderPlan, f: PlannedFolder, windows: bool)
    requires WellPlaced(plan, windows) && Placed(f.local, plan.folders, windows)
    ensures WellPlaced(plan.(folders := plan.folders + [f]), windows)
    ensures IsPlanned(f.local, plan.folders + [f])
    ensures forall l :: IsPlanned(l, plan.folders) ==> IsPlanned(l, plan.folders + [f])
  {
    hide Placed;
    var folders := plan.folders + [f];
    forall i | 0 <= i < |folders| ensures Placed(folders[i].local, folders[..i], windows) {
      assert i < |plan.folders| ==> folders[..i] == plan.folders[..i];
      assert i == |plan.folders| ==> folders[..i] == plan.folders;
    }
    forall i | 0 <= i < |plan.files| ensures Placed(plan.files[i].local, folders, windows) {
      PlacedInMore(plan.files[i].local, plan.folders, folders, windows);
    }
    assert folders[|plan.folders|].local == f.local;
    forall l | IsPlanned(l, plan.folders) ensures IsPlanned(l, folders) {
      if l != [] {
        var j :| 0 <= j < |plan.folders| && plan.folders[j].local == l;
        assert folders[j].local == l;
      }
    }
  }

  lemma {:induction false} FileAdded(plan: FolderPlan, f: PlannedFile, windows: bool)
    requires WellPlaced(plan, windows) && Placed(f.local, plan.folders, windows)
    ensures WellPlaced(plan.(files := plan.files + [f]), windows)
  {
  }

  /** The stack matches the folders the device shows, and each is planned. */
  ghost predicate StackFits(list: Lister, stack: seq<ToVisit>, nodes: seq<Node>, folders: seq<PlannedFolder>) {
    && StackShows(list, Ats(stack), nodes)
    && forall i :: 0 <= i < |stack| ==> IsPlanned(stack[i].local, folders)
  }

  // --- Where a plan leads ---

  /** On the device, names below `root` one after the other; the root itself may be `/`. */
  function RemoteOf(root: Text, p: Path): Text {
    if p == [] then root else (if root == [0x2F] then [] else root) + [0x2F] + Joined(p)
  }

  lemma {:induction false} RemoteGoesOn(root: Text, p: Path, name: Text)
    requires forall i :: 0 <= i < |p| ==> p[i] != []
    ensures RemoteJoin(RemoteOf(root, p), name) == RemoteOf(root, p + [name])
  {
    if p == [] {
      assert p + [name] == [name];
    } else {
      assert (p + [name])[..|p|] == p;
      JoinedIsNotEmpty(p);
      assert RemoteOf(root, p) != [0x2F];
    }
  }

  lemma {:induction false} JoinedIsNotEmpty(p: Path)
    requires p != [] && forall i :: 0 <= i < |p| ==> p[i] != []
    ensures Joined(p) != []
  {
  }

  /** Every entry's remote path is its local one, below the remote root. */
  ghost predicate Mapped(root: Text, plan: FolderPlan, stack: seq<ToVisit>) {
    && (forall f :: f in plan.folders ==> f.remote == RemoteOf(root, f.local))
    && (forall f :: f in plan.files ==> f.remote == RemoteOf(root, f.local))
    && (forall v :: v in stack ==> v.remote == RemoteOf(root, v.local))
  }

  lemma {:induction false} NamesGoOn(root: Text, plan: FolderPlan, here: ToVisit, name: Text, windows: bool)
    requires WellPlaced(plan, windows) && IsPlanned(here.local, plan.folders) && here.remote == RemoteOf(root, here.local)
    ensures RemoteJoin(here.remote, name) == RemoteOf(root, here.local + [name])
  {
    hide Usable, RemoteOf, RemoteJoin;
    forall i | 0 <= i < |here.local| ensures here.local[i] != [] {
      var j :| 0 <= j < |plan.folders| && plan.folders[j].local == here.local;
      assert Placed(plan.folders[j].local, plan.folders[..j], windows);
      UsableIsNotEmpty(here.local[i], windows);
    }
    RemoteGoesOn(root, here.local, name);
  }

  lemma {:induction false} UsableIsNotEmpty(name: Text, windows: bool)
    requires Usable(name, windows)
    ensures name != [] && IsComponent(name)
  {
    ComponentLeadsToItself(name);
  }

  /** On any file system that splits at `/`, or also at `\`, the joined path leads to the planned one, below the destination. */
  ghost predicate StaysInside(p: Path) {
    p != [] && Leads(Joined(p), {0x2F}) == Some(p) && Leads(Joined(p), {0x2F, 0x5C}) == Some(p)
  }

  lemma {:induction false} PlanStaysInside(plan: FolderPlan, windows: bool)
    requires WellPlaced(plan, windows)
    ensures forall p :: p in LocalPaths(plan) ==> StaysInside(p)
  {
    hide Usable, Leads, Joined;
    forall p | p in LocalPaths(plan) ensures StaysInside(p) {
      var i :| 0 <= i < |LocalPaths(plan)| && LocalPaths(plan)[i] == p;
      assert i >= |plan.folders| ==> p == plan.files[i - |plan.folders|].local;
      assert Placed(p, if i < |plan.folders| then plan.folders[..i] else plan.folders, windows);
      forall k | 0 <= k < |p| ensures IsComponent(p[k]) {
        UsableIsNotEmpty(p[k], windows);
      }
      JoinedLeadsThere(p, {0x2F});
      JoinedLeadsThere(p, {0x2F, 0x5C});
    }
  }

  // --- What a plan should hold ---

  function SkippedRows(remote: Text, skips: seq<SkippedObject>): (rows: seq<SkippedRow>)
    ensures |rows| == |skips|
    ensures forall i :: 0 <= i < |skips| ==> rows[i] == SkippedRow(remote, skips[i].handle, skips[i].error)
  {
    seq(|skips|, i requires 0 <= i < |skips| => SkippedRow(remote, skips[i].handle, skips[i].error))
  }

  datatype Rows = Rows(folders: multiset<PlannedFolder>, files: multiset<PlannedFile>, skipped: multiset<SkippedRow>) {
    function Plus(other: Rows): Rows {
      Rows(folders + other.folders, files + other.files, skipped + other.skipped)
    }
  }

  const NO_ROWS := Rows(multiset{}, multiset{}, multiset{})

  function RowsOfPlan(plan: FolderPlan): Rows {
    Rows(multiset(plan.folders), multiset(plan.files), multiset(plan.skipped))
  }

  /** The row of one object found in the folder at `remote` and `local`. */
  function RowOf(o: ObjectInfo, remote: Text, local: Path): Rows {
    var (r, l) := (RemoteJoin(remote, o.filename), local + [o.filename]);
    if o.IsFolder() then NO_ROWS.(folders := multiset{PlannedFolder(r, l)})
    else NO_ROWS.(files := multiset{PlannedFile(o.handle, r, l)})
  }

  /** Everything below a folder: its skips, its objects under their own names, and what is below its folders. */
  function RowsBelow(n: Node, remote: Text, local: Path): Rows
    decreases n, 0, 0
  {
    if n.failure.Some? then NO_ROWS
    else NO_ROWS.(skipped := multiset(SkippedRows(remote, n.skipped))).Plus(RowsAmong(n.kids, remote, local))
  }

  function RowsAmong(ns: seq<Node>, remote: Text, local: Path): Rows
    decreases ns, 1, |ns|
  {
    if ns == [] then NO_ROWS
    else
      var o := ns[0].info;
      var here := RowOf(o, remote, local);
      var below := if o.IsFolder() then RowsBelow(ns[0], RemoteJoin(remote, o.filename), local + [o.filename]) else NO_ROWS;
      here.Plus(below).Plus(RowsAmong(ns[1..], remote, local))
  }

  /** Everything below the folders still to be visited. */
  function RowsOfStack(stack: seq<ToVisit>, nodes: seq<Node>): Rows
    requires |stack| == |nodes|
  {
    if stack == [] then NO_ROWS
    else
      var n := |stack| - 1;
      RowsOfStack(stack[..n], nodes[..n]).Plus(RowsBelow(nodes[n], stack[n].remote, stack[n].local))
  }

  lemma {:induction false} PlusShuffle(plan: Rows, stack: Rows, row: Rows, below: Rows, rest: Rows)
    ensures plan.Plus(row).Plus(stack.Plus(below)).Plus(rest) == plan.Plus(stack).Plus(row.Plus(below).Plus(rest))
  {
  }

  lemma {:induction false} PlusAssociates(a: Rows, b: Rows, c: Rows)
    ensures a.Plus(b.Plus(c)) == a.Plus(b).Plus(c)
    ensures a.Plus(NO_ROWS) == a && NO_ROWS.Plus(a) == a
  {
  }

  lemma {:induction false} FolderRowAdded(plan: FolderPlan, o: ObjectInfo, remote: Text, local: Path)
    requires o.IsFolder()
    ensures var f := PlannedFolder(RemoteJoin(remote, o.filename), local + [o.filename]);
            RowsOfPlan(plan.(folders := plan.folders + [f])) == RowsOfPlan(plan).Plus(RowOf(o, remote, local))
  {
  }

  lemma {:induction false} FileRowAdded(plan: FolderPlan, o: ObjectInfo, remote: Text, local: Path)
    requires !o.IsFolder()
    ensures var f := PlannedFile(o.handle, RemoteJoin(remote, o.filename), local + [o.filename]);
            RowsOfPlan(plan.(files := plan.files + [f])) == RowsOfPlan(plan).Plus(RowOf(o, remote, local))
  {
  }

  lemma {:induction false} RowsPushed(stack: seq<ToVisit>, nodes: seq<Node>, v: ToVisit, n: Node)
    requires |stack| == |nodes|
    ensures RowsOfStack(stack + [v], nodes + [n]) == RowsOfStack(stack, nodes).Plus(RowsBelow(n, v.remote, v.local))
  {
  }

  lemma {:induction false} RowsUnfold(ns: seq<Node>, i: nat, remote: Text, local: Path)
    requires i < |ns|
    ensures var o := ns[i].info;
            var below :=
              if o.IsFolder() then RowsBelow(ns[i], RemoteJoin(remote, o.filename), local + [o.filename]) else NO_ROWS;
            RowsAmong(ns[i..], remote, local) == RowOf(o, remote, local).Plus(below).Plus(RowsAmong(ns[i + 1..], remote, local))
  {
  }

  /** Plans one folder's objects: folders to be visited, files to be fetched. */
  method PlanObjects(
    list: Lister, found: seq<ObjectInfo>, here: ToVisit, windows: bool, plan0: FolderPlan, stack0: seq<ToVisit>,
    ghost kids: seq<Node>, ghost rest: seq<Node>, ghost root: Text
  ) returns (r: Result<(), PlanError>, plan: FolderPlan, stack: seq<ToVisit>)
    requires WellPlaced(plan0, windows) && IsPlanned(here.local, plan0.folders)
    requires StackFits(list, stack0, rest, plan0.folders) && |stack0| == |rest| && found == Infos(kids)
    requires forall k :: k in kids && k.info.IsFolder() ==> Shows(list, Some(k.info.handle), k)
    requires Mapped(root, plan0, stack0 + [here])
    ensures r.Ok? <==> forall o :: o in found ==> Usable(o.filename, windows)
    ensures r.Err? ==> r.error.UnusableName? && !Usable(r.error.name, windows) && exists o :: o in found && o.filename == r.error.name
    ensures r.Ok? ==> Mapped(root, plan, stack)
    ensures r.Ok? ==> WellPlaced(plan, windows) && StackFits(list, stack, rest + FoldersAmong(kids), plan.folders)
    ensures r.Ok? ==> |stack| == |rest + FoldersAmong(kids)|
    ensures r.Ok? ==>
              RowsOfPlan(plan).Plus(RowsOfStack(stack, rest + FoldersAmong(kids))) ==
              RowsOfPlan(plan0).Plus(RowsOfStack(stack0, rest)).Plus(RowsAmong(kids, here.remote, here.local))
  {
    hide Shows, Placed, IsLocalName, Usable, WellPlaced, IsPlanned, StackFits, FoldersAmong, RowsOfStack, RowsBelow, RowsAmong,
      RowsOfPlan, RowOf, Rows.Plus, RemoteJoin, RemoteOf;
    plan, stack := plan0, stack0;
    NoKidsYet(kids, rest);
    assert kids[0..] == kids;
    ghost var all := RowsOfPlan(plan0).Plus(RowsOfStack(stack0, rest)).Plus(RowsAmong(kids, here.remote, here.local));
    for i := 0 to |found|
      invariant WellPlaced(plan, windows) && IsPlanned(here.local, plan.folders)
      invariant StackFits(list, stack, rest + FoldersAmong(kids[..i]), plan.folders)
      invariant |stack| == |rest + FoldersAmong(kids[..i])|
      invariant RowsOfPlan(plan).Plus(RowsOfStack(stack, rest + FoldersAmong(kids[..i])))
                .Plus(RowsAmong(kids[i..], here.remote, here.local)) == all
      invariant forall k :: 0 <= k < i ==> Usable(found[k].filename, windows)
      invariant Mapped(root, plan, stack)
    {
      var o := found[i];
      CheckIsExact(o.filename, windows);
      if !IsLocalName(o.filename, windows) {
        assert o in found;
        return Err(UnusableName(here.remote, o.filename)), plan, stack;
      }
      var remote, local := RemoteJoin(here.remote, o.filename), here.local + [o.filename];
      JoinIsPlaced(here.local, o.filename, plan, windows);
      NamesGoOn(root, plan, here, o.filename, windows);
      ghost var kid := kids[i];
      assert kid in kids;
      KidAdded(kids, i, rest);
      RowsUnfold(kids, i, here.remote, here.local);
      ghost var stackRows, restRows :=
        RowsOfStack(stack, rest + FoldersAmong(kids[..i])), RowsAmong(kids[i + 1..], here.remote, here.local);
      ghost var below := if o.IsFolder() then RowsBelow(kid, remote, local) else NO_ROWS;
      PlusShuffle(RowsOfPlan(plan), stackRows, RowOf(o, here.remote, here.local), below, restRows);
      PlusAssociates(stackRows, NO_ROWS, NO_ROWS);
      if o.IsFolder() {
        RowsPushed(stack, rest + FoldersAmong(kids[..i]), ToVisit(Some(o.handle), remote, local), kid);
        FolderRowAdded(plan, o, here.remote, here.local);
        var f := PlannedFolder(remote, local);
        FolderAdded(plan, f, windows);
        StackPushed(list, stack, rest + FoldersAmong(kids[..i]), plan.folders, f, kid);
        plan := plan.(folders := plan.folders + [f]);
        stack := stack + [ToVisit(Some(o.handle), remote, local)];
      } else {
        var f := PlannedFile(o.handle, remote, local);
        FileRowAdded(plan, o, here.remote, here.local);
        FileAdded(plan, f, windows);
        plan := plan.(files := plan.files + [f]);
      }
    }
    assert kids[..|kids|] == kids && kids[|kids|..] == [];
    NoRowsLeft(here.remote, here.local);
    PlusAssociates(RowsOfPlan(plan).Plus(RowsOfStack(stack, rest + FoldersAmong(kids))), NO_ROWS, NO_ROWS);
    r := Ok(());
  }

  lemma {:induction false} NoRowsLeft(remote: Text, local: Path)
    ensures RowsAmong([], remote, local) == NO_ROWS && RowsOfStack([], []) == NO_ROWS
  {
  }

  lemma {:induction false} StackPushed(
    list: Lister, stack: seq<ToVisit>, nodes: seq<Node>, folders: seq<PlannedFolder>, f: PlannedFolder, kid: Node)
    requires StackFits(list, stack, nodes, folders) && Shows(list, Some(kid.info.handle), kid)
    ensures StackFits(
              list, stack + [ToVisit(Some(kid.info.handle), f.remote, f.local)], nodes + [kid], folders + [f])
  {
    hide Shows;
    var longer := stack + [ToVisit(Some(kid.info.handle), f.remote, f.local)];
    forall i | 0 <= i < |longer| ensures IsPlanned(longer[i].local, folders + [f]) {
      if i < |stack| && longer[i].local != [] {
        assert longer[i] == stack[i];
        var j :| 0 <= j < |folders| && folders[j].local == stack[i].local;
        assert (folders + [f])[j].local == stack[i].local;
      } else if i == |stack| {
        assert (folders + [f])[|folders|].local == f.local;
      }
    }
  }

  /** The folder lists, and every name in it can be used locally. */
  ghost predicate IsUsable(f: Node, windows: bool) {
    f.failure.None? && forall o :: o in OwnObjects(f) ==> Usable(o.filename, windows)
  }

  /** The error is the folder's own: it didn't list, or it holds that unusable name. */
  ghost predicate Explains(e: PlanError, f: Node, windows: bool) {
    match e
    case CannotList(_, error) => f.failure == Some(error)
    case UnusableName(_, name) => !Usable(name, windows) && exists o :: o in OwnObjects(f) && o.filename == name
  }

  /** Lists one folder and plans what it holds. */
  method VisitFolder(
    list: Lister, here: ToVisit, windows: bool, plan0: FolderPlan, stack0: seq<ToVisit>, ghost top: Node,
    ghost rest: seq<Node>, ghost root: Text
  ) returns (r: Result<(), PlanError>, plan: FolderPlan, stack: seq<ToVisit>)
    requires Shows(list, here.at, top) && WellPlaced(plan0, windows) && IsPlanned(here.local, plan0.folders)
    requires StackFits(list, stack0, rest, plan0.folders) && |stack0| == |rest|
    requires Mapped(root, plan0, stack0 + [here])
    ensures r.Ok? <==> IsUsable(top, windows)
    ensures r.Err? ==> Explains(r.error, top, windows)
    ensures r.Ok? ==> Mapped(root, plan, stack)
    ensures r.Ok? ==> WellPlaced(plan, windows) && StackFits(list, stack, rest + FoldersAmong(top.kids), plan.folders)
    ensures r.Ok? ==> |stack| == |rest + FoldersAmong(top.kids)|
    ensures r.Ok? ==>
              RowsOfPlan(plan).Plus(RowsOfStack(stack, rest + FoldersAmong(top.kids))) ==
              RowsOfPlan(plan0).Plus(RowsOfStack(stack0, rest)).Plus(RowsBelow(top, here.remote, here.local))
  {
    hide WellPlaced, IsPlanned, StackFits, FoldersAmong, RowsOfStack, RowsAmong, Usable;
    plan, stack := plan0, stack0;
    if list(here.at).Err? {
      return Err(CannotList(here.remote, list(here.at).error)), plan, stack;
    }
    var collection := list(here.at).value;
    plan := plan.(skipped := plan.skipped + SkippedRows(here.remote, collection.skipped));
    SkipsDontMove(plan0, plan, windows);
    r, plan, stack := PlanObjects(list, collection.objects, here, windows, plan, stack, top.kids, rest, root);
  }

  /**
   Walks the remote tree into a plan. On the finite tree the device shows it ends; it succeeds
   exactly when every reached folder lists and every name in it can be used locally; and then the
   plan is well placed and holds every object of the tree under its own name, no more and no less.
   */
  method WalkFolder(list: Lister, root: Option<Handle>, remoteRoot: Text, windows: bool, ghost node: Node)
    returns (r: Result<FolderPlan, PlanError>)
    requires Shows(list, root, node)
    ensures r.Ok? <==> forall f :: f in Reached(node) ==> IsUsable(f, windows)
    ensures r.Err? ==> exists f :: f in Reached(node) && Explains(r.error, f, windows)
    ensures r.Ok? ==> WellPlaced(r.value, windows) && Mapped(remoteRoot, r.value, [])
    ensures r.Ok? ==> forall p :: p in LocalPaths(r.value) ==> StaysInside(p)
    ensures r.Ok? ==> RowsOfPlan(r.value) == RowsBelow(node, remoteRoot, [])
  {
    hide Reached, ReachedStack, ObjectsIn, SkipsIn, FoldersAmong, WellPlaced, IsPlanned, IsUsable, RowsBelow, RowsOfStack,
      Shows, RowsOfPlan, Rows.Plus, StackFits, Explains, RemoteOf, StaysInside;
    var plan := FolderPlan([], [], []);
    var toVisit: seq<ToVisit> := [ToVisit(root, remoteRoot, [])];
    ghost var nodes := [node];
    StackOfOne(node);
    StartsPlaced(windows);
    NoRowsLeft(remoteRoot, []);
    WalkStarts(list, toVisit[0], node);
    RemoteStarts(remoteRoot);
    while toVisit != []
      invariant StackFits(list, toVisit, nodes, plan.folders) && WellPlaced(plan, windows) && |toVisit| == |nodes|
      invariant RowsOfPlan(plan).Plus(RowsOfStack(toVisit, nodes)) == RowsBelow(node, remoteRoot, [])
      invariant forall f :: f in ReachedStack(nodes) ==> f in Reached(node)
      invariant forall f :: f in Reached(node) ==> f in ReachedStack(nodes) || IsUsable(f, windows)
      invariant Mapped(remoteRoot, plan, toVisit)
      decreases |ReachedStack(nodes)|
    {
      var last := |toVisit| - 1;
      var here := toVisit[last];
      ghost var top, rest := nodes[last], nodes[..last];
      assert nodes == rest + [top] && toVisit == toVisit[..last] + [here];
      StackPopped(list, toVisit[..last], here, rest, top, plan.folders);
      RowsPushed(toVisit[..last], rest, here, top);
      PlusAssociates(RowsOfPlan(plan), RowsOfStack(toVisit[..last], rest), RowsBelow(top, here.remote, here.local));
      TopIsReached(rest, top);
      toVisit := toVisit[..last];
      var visited;
      visited, plan, toVisit := VisitFolder(list, here, windows, plan, toVisit, top, rest, remoteRoot);
      if visited.Err? {
        return Err(visited.error);
      }
      UsableLists(top, windows);
      PopReaches(rest, top);
      nodes := rest + FoldersAmong(top.kids);
    }
    NothingLeft(nodes);
    NoRowsLeft(remoteRoot, []);
    PlusAssociates(RowsOfPlan(plan), NO_ROWS, NO_ROWS);
    PlanStaysInside(plan, windows);
    return Ok(plan);
  }

  lemma {:induction false} RemoteStarts(root: Text)
    ensures RemoteOf(root, []) == root
  {
  }

  lemma {:induction false} WalkStarts(list: Lister, first: ToVisit, node: Node)
    requires Shows(list, first.at, node) && first.local == []
    ensures StackFits(list, [first], [node], [])
    ensures RowsOfPlan(FolderPlan([], [], [])).Plus(RowsOfStack([first], [node])) == RowsBelow(node, first.remote, first.local)
  {
  }

  lemma {:induction false} StackPopped(
    list: Lister, stack: seq<ToVisit>, here: ToVisit, rest: seq<Node>, top: Node, folders: seq<PlannedFolder>)
    requires StackFits(list, stack + [here], rest + [top], folders) && |stack| == |rest|
    ensures StackFits(list, stack, rest, folders) && Shows(list, here.at, top) && IsPlanned(here.local, folders)
  {
    hide Shows, IsPlanned;
    var ats := Ats(stack + [here]);
    assert ats[|stack|] == here.at && (rest + [top])[|rest|] == top && (stack + [here])[|stack|] == here;
    forall i | 0 <= i < |stack| ensures Shows(list, stack[i].at, rest[i]) && IsPlanned(stack[i].local, folders) {
      assert ats[i] == stack[i].at && (rest + [top])[i] == rest[i] && (stack + [here])[i] == stack[i];
    }
  }

  lemma {:induction false} UsableLists(f: Node, windows: bool)
    requires IsUsable(f, windows)
    ensures f.failure.None?
  {
  }

  lemma {:induction false} SkipsDontMove(before: FolderPlan, after: FolderPlan, windows: bool)
    requires WellPlaced(before, windows) && before.folders == after.folders && before.files == after.files
    ensures WellPlaced(after, windows)
  {
  }

  lemma {:induction false} StartsPlaced(windows: bool)
    ensures WellPlaced(FolderPlan([], [], []), windows) && IsPlanned([], [])
  {
  }

  // --- Collisions ---

  /** What the check compares: the parent as it is, the name folded. */
  function CollisionKey(p: Path, fold: Text -> Text): (Option<Path>, Text) {
    if p == [] then (None, fold([])) else (Some(ParentOf(p)), fold(p[|p| - 1]))
  }

  /** The remote paths of the first two entries that share a key. */
  method FindCollision(entries: seq<(Text, Path)>, fold: Text -> Text) returns (r: Option<(Text, Text)>)
    ensures r.None? <==> forall i, j :: 0 <= i < j < |entries| ==>
                           CollisionKey(entries[i].1, fold) != CollisionKey(entries[j].1, fold)
    ensures r.Some? ==> exists i, j :: 0 <= i < j < |entries| && r.value == (entries[i].0, entries[j].0)
                          && CollisionKey(entries[i].1, fold) == CollisionKey(entries[j].1, fold)
                          && forall a, b :: 0 <= a < b < j ==>
                               CollisionKey(entries[a].1, fold) != CollisionKey(entries[b].1, fold)
  {
    hide CollisionKey;
    var seen: map<(Option<Path>, Text), Text> := map[];
    ghost var at: map<(Option<Path>, Text), nat> := map[];
    for j := 0 to |entries|
      invariant seen.Keys == at.Keys
      invariant forall k :: k in at ==> at[k] < j && CollisionKey(entries[at[k]].1, fold) == k && seen[k] == entries[at[k]].0
      invariant forall i :: 0 <= i < j ==> CollisionKey(entries[i].1, fold) in at
      invariant forall a, b :: 0 <= a < b < j ==> CollisionKey(entries[a].1, fold) != CollisionKey(entries[b].1, fold)
    {
      var key := CollisionKey(entries[j].1, fold);
      if key in seen {
        assert CollisionKey(entries[at[key]].1, fold) == CollisionKey(entries[j].1, fold);
        return Some((seen[key], entries[j].0));
      }
      seen := seen[key := entries[j].0];
      at := at[key := j];
    }
    return None;
  }

  /** A path with every component folded: where it lands on a file system that folds names. */
  function Folded(p: Path, fold: Text -> Text): (r: Path)
    ensures |r| == |p| && forall i :: 0 <= i < |p| ==> r[i] == fold(p[i])
  {
    seq(|p|, i requires 0 <= i < |p| => fold(p[i]))
  }

  /** Every path lies in the destination or in the path of some entry. */
  ghost predicate ClosedUnderParents(ps: seq<Path>) {
    forall i :: 0 <= i < |ps| ==> ps[i] != [] && (ParentOf(ps[i]) == [] || ParentOf(ps[i]) in ps)
  }

  lemma {:induction false} PlanIsClosed(plan: FolderPlan, windows: bool)
    requires WellPlaced(plan, windows)
    ensures ClosedUnderParents(LocalPaths(plan))
  {
  }

  /**
   If no two entries share a key, no two land on one path once every component is folded: two that
   did would have parents that did, up to two names folded alike inside one folder.
   */
  lemma {:induction false} DistinctKeysFoldApart(ps: seq<Path>, fold: Text -> Text, i: nat, j: nat)
    requires ClosedUnderParents(ps) && i < |ps| && j < |ps|
    requires forall a, b :: 0 <= a < b < |ps| ==> CollisionKey(ps[a], fold) != CollisionKey(ps[b], fold)
    requires Folded(ps[i], fold) == Folded(ps[j], fold)
    ensures i == j
    decreases |ps[i]|
  {
    var p, q := ps[i], ps[j];
    assert |p| == |q| by { assert |Folded(p, fold)| == |Folded(q, fold)|; }
    var n := |p| - 1;
    assert fold(p[n]) == fold(q[n]) by { assert Folded(p, fold)[n] == Folded(q, fold)[n]; }
    if n > 0 {
      FoldedParent(p, fold);
      FoldedParent(q, fold);
      var a :| 0 <= a < |ps| && ps[a] == ParentOf(p);
      var b :| 0 <= b < |ps| && ps[b] == ParentOf(q);
      DistinctKeysFoldApart(ps, fold, a, b);
    }
    assert ParentOf(p) == ParentOf(q);
    assert CollisionKey(p, fold) == CollisionKey(q, fold);
  }

  lemma {:induction false} FoldedParent(p: Path, fold: Text -> Text)
    requires p != []
    ensures Folded(ParentOf(p), fold) == ParentOf(Folded(p, fold))
  {
  }

  /** The check passes a well-placed plan exactly when no two entries land on one folded path. */
  lemma {:induction false} CollisionCheckIsExact(plan: FolderPlan, windows: bool, fold: Text -> Text)
    requires WellPlaced(plan, windows)
    ensures var ps := LocalPaths(plan);
            && ((forall a, b :: 0 <= a < b < |ps| ==> CollisionKey(ps[a], fold) != CollisionKey(ps[b], fold))
                <==> (forall a, b :: 0 <= a < b < |ps| ==> Folded(ps[a], fold) != Folded(ps[b], fold)))
  {
    hide WellPlaced, CollisionKey, Folded, LocalPaths;
    var ps := LocalPaths(plan);
    PlanIsClosed(plan, windows);
    if forall a, b :: 0 <= a < b < |ps| ==> CollisionKey(ps[a], fold) != CollisionKey(ps[b], fold) {
      forall a, b | 0 <= a < b < |ps| ensures Folded(ps[a], fold) != Folded(ps[b], fold) {
        if Folded(ps[a], fold) == Folded(ps[b], fold) {
          DistinctKeysFoldApart(ps, fold, a, b);
        }
      }
    }
    if forall a, b :: 0 <= a < b < |ps| ==> Folded(ps[a], fold) != Folded(ps[b], fold) {
      forall a, b | 0 <= a < b < |ps| ensures CollisionKey(ps[a], fold) != CollisionKey(ps[b], fold) {
        if CollisionKey(ps[a], fold) == CollisionKey(ps[b], fold) {
          SameKeySamePath(ps[a], ps[b], fold);
        }
      }
    }
  }

  lemma {:induction false} SameKeySamePath(p: Path, q: Path, fold: Text -> Text)
    requires p != [] && q != [] && CollisionKey(p, fold) == CollisionKey(q, fold)
    ensures Folded(p, fold) == Folded(q, fold)
  {
    assert p == ParentOf(p) + [p[|p| - 1]] && q == ParentOf(q) + [q[|q| - 1]];
  }

  /** Every planned folder and file as remote and local path. */
  function Entries(plan: FolderPlan): (es: seq<(Text, Path)>)
    ensures |es| == |LocalPaths(plan)| && forall i :: 0 <= i < |es| ==> es[i].1 == LocalPaths(plan)[i]
  {
    seq(|plan.folders|, i requires 0 <= i < |plan.folders| => (plan.folders[i].remote, plan.folders[i].local))
    + seq(|plan.files|, i requires 0 <= i < |plan.files| => (plan.files[i].remote, plan.files[i].local))
  }

  /** Refuses a plan exactly when two of its entries land on the same local path, as the destination compares names. */
  method CheckNoCollisions(plan: FolderPlan, caseInsensitive: bool, lower: Text -> Text, ghost windows: bool)
    returns (collision: Option<(Text, Text)>)
    requires WellPlaced(plan, windows)
    ensures var ps, fold := LocalPaths(plan), if caseInsensitive then lower else (name: Text) => name;
            collision.None? <==> forall a, b :: 0 <= a < b < |ps| ==> Folded(ps[a], fold) != Folded(ps[b], fold)
  {
    hide WellPlaced, CollisionKey, Folded, LocalPaths, Entries;
    var fold := if caseInsensitive then lower else (name: Text) => name;
    collision := FindCollision(Entries(plan), fold);
    CollisionCheckIsExact(plan, windows, fold);
  }
}
