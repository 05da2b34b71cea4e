/**
 The recursive listing of crates/mtp-rs/src/mtp/storage.rs: a folder tree walked with a stack of
 folders to visit, each listed once through the tolerant collection.
 */
module Walk {
  import opened Common
  import opened Listing
  import opened Objects

  /** An object and, if it is a folder, what listing it gives: a failure, or its children and skips. */
  datatype Node = Node(info: ObjectInfo, failure: Option<PtpError>, kids: seq<Node>, skipped: seq<SkippedObject>)

  type Lister = Option<Handle> -> Result<ObjectCollection, PtpError>

  function Infos(ns: seq<Node>): (r: seq<ObjectInfo>)
    ensures |r| == |ns| && forall i :: 0 <= i < |r| ==> r[i] == ns[i].info
  {
    seq(|ns|, i requires 0 <= i < |ns| => ns[i].info)
  }

  /** The device lists the folder at `at` as `n`, and every folder below it likewise. */
  ghost predicate Shows(list: Lister, at: Option<Handle>, n: Node)
    decreases n
  {
    if n.failure.Some? then list(at) == Err(n.failure.value)
    else
      && list(at) == Ok(ObjectCollection(Infos(n.kids), n.skipped))
      && forall k :: k in n.kids && k.info.IsFolder() ==> Shows(list, Some(k.info.handle), k)
  }

  // --- Everything below a folder ---

  /** What one visited folder holds itself. */
  function OwnObjects(n: Node): seq<ObjectInfo> { if n.failure.Some? then [] else Infos(n.kids) }

  function OwnSkips(n: Node): seq<SkippedObject> { if n.failure.Some? then [] else n.skipped }

  /** The folders among some children, in order. */
  function FoldersAmong(ns: seq<Node>): (r: seq<Node>)
    ensures forall k :: k in r ==> k in ns && k.info.IsFolder()
  {
    if ns == [] then []
    else FoldersAmong(ns[..|ns| - 1]) + (if ns[|ns| - 1].info.IsFolder() then [ns[|ns| - 1]] else [])
  }

  /** Every folder reached from `n` through folders that list, `n` first. */
  function Reached(n: Node): seq<Node>
    decreases n, 0, 0
  {
    [n] + if n.failure.Some? then [] else ReachedFrom(n.kids)
  }

  function ReachedFrom(ns: seq<Node>): seq<Node>
    decreases ns, 1, |ns|
  {
    if ns == [] then [] else (if ns[0].info.IsFolder() then Reached(ns[0]) else []) + ReachedFrom(ns[1..])
  }

  function ObjectsIn(folders: seq<Node>): multiset<ObjectInfo> {
    if folders == [] then multiset{} else multiset(OwnObjects(folders[0])) + ObjectsIn(folders[1..])
  }

  function SkipsIn(folders: seq<Node>): multiset<SkippedObject> {
    if folders == [] then multiset{} else multiset(OwnSkips(folders[0])) + SkipsIn(folders[1..])
  }

  // --- The stack of folders to visit ---

  /** Every folder still to be reached from a stack. */
  function ReachedStack(ns: seq<Node>): seq<Node> {
    if ns == [] then [] else ReachedStack(ns[..|ns| - 1]) + Reached(ns[|ns| - 1])
  }

  lemma {:induction false} ReachedStackConcat(a: seq<Node>, b: seq<Node>)
    ensures ReachedStack(a + b) == ReachedStack(a) + ReachedStack(b)
  {
    hide Reached;
    if b == [] {
      assert a + b == a && ReachedStack(a) + ReachedStack(b) == ReachedStack(a);
    } else {
      assert (a + b)[..|a + b| - 1] == a + b[..|b| - 1];
      ReachedStackConcat(a, b[..|b| - 1]);
    }
  }

  lemma {:induction false} FoldersConcat(a: seq<Node>, b: seq<Node>)
    ensures FoldersAmong(a + b) == FoldersAmong(a) + FoldersAmong(b)
  {
    if b == [] {
      assert a + b == a;
    } else {
      assert (a + b)[..|a + b| - 1] == a + b[..|b| - 1];
      FoldersConcat(a, b[..|b| - 1]);
    }
  }

  lemma {:induction false} StackOfOne(n: Node)
    ensures ReachedStack([n]) == Reached(n)
    ensures FoldersAmong([n]) == if n.info.IsFolder() then [n] else []
  {
  }

  /** Pushing the folders among some children reaches what lies below those children. */
  lemma {:induction false} FoldersReach(ns: seq<Node>)
    ensures ReachedStack(FoldersAmong(ns)) == ReachedFrom(ns)
  {
    hide Reached;
    if ns != [] {
      var first, rest := ns[0], ns[1..];
      FoldersReach(rest);
      StackOfOne(first);
      FoldersConcat([first], rest);
      assert ns == [first] + rest;
      ReachedStackConcat(FoldersAmong([first]), FoldersAmong(rest));
    }
  }

  lemma {:induction false} TotalsConcat(a: seq<Node>, b: seq<Node>)
    ensures ObjectsIn(a + b) == ObjectsIn(a) + ObjectsIn(b)
    ensures SkipsIn(a + b) == SkipsIn(a) + SkipsIn(b)
  {
    if a == [] {
      assert a + b == b;
    } else {
      assert (a + b)[1..] == a[1..] + b;
      TotalsConcat(a[1..], b);
    }
  }

  /** Popping a folder and pushing the folders below it leaves exactly that folder out. */
  lemma {:induction false} PopReaches(rest: seq<Node>, n: Node)
    requires n.failure.None?
    ensures |ReachedStack(rest + FoldersAmong(n.kids))| == |ReachedStack(rest + [n])| - 1
    ensures ObjectsIn(ReachedStack(rest + [n])) ==
            multiset(OwnObjects(n)) + ObjectsIn(ReachedStack(rest + FoldersAmong(n.kids)))
    ensures SkipsIn(ReachedStack(rest + [n])) ==
            multiset(OwnSkips(n)) + SkipsIn(ReachedStack(rest + FoldersAmong(n.kids)))
    ensures forall f :: f in ReachedStack(rest + [n]) <==> f == n || f in ReachedStack(rest + FoldersAmong(n.kids))
  {
    hide ReachedStack, ReachedFrom, FoldersAmong, OwnObjects, OwnSkips, ObjectsIn, SkipsIn;
    var below, above := ReachedFrom(n.kids), ReachedStack(rest);
    ReachedStackConcat(rest, [n]);
    ReachedStackConcat(rest, FoldersAmong(n.kids));
    StackOfOne(n);
    FoldersReach(n.kids);
    assert ReachedStack(rest + [n]) == above + ([n] + below);
    assert ReachedStack(rest + FoldersAmong(n.kids)) == above + below;
    TotalsConcat(above, [n] + below);
    TotalsConcat([n], below);
    TotalsConcat(above, below);
    TotalsOfOne(n);
  }

  lemma {:induction false} TotalsOfOne(n: Node)
    ensures ObjectsIn([n]) == multiset(OwnObjects(n)) && SkipsIn([n]) == multiset(OwnSkips(n))
  {
  }

  /** The stack of parents the walk keeps, and the folders behind it. */
  ghost predicate StackShows(list: Lister, stack: seq<Option<Handle>>, nodes: seq<Node>) {
    |stack| == |nodes| && forall i :: 0 <= i < |stack| ==> Shows(list, stack[i], nodes[i])
  }

  lemma {:induction false} NoKidsYet(kids: seq<Node>, rest: seq<Node>)
    ensures rest + FoldersAmong(kids[..0]) == rest
  {
  }

  lemma {:induction false} KidAdded(kids: seq<Node>, i: nat, rest: seq<Node>)
    requires i < |kids|
    ensures rest + FoldersAmong(kids[..i + 1]) ==
            if kids[i].info.IsFolder() then rest + FoldersAmong(kids[..i]) + [kids[i]] else rest + FoldersAmong(kids[..i])
  {
    assert kids[..i + 1][..i] == kids[..i];
  }

  /** Adds a folder's objects, and its subfolders to the folders to visit. */
  method PushFolders(
    list: Lister, objects0: seq<ObjectInfo>, stack0: seq<Option<Handle>>, found: seq<ObjectInfo>,
    ghost kids: seq<Node>, ghost rest: seq<Node>
  ) returns (objects: seq<ObjectInfo>, stack: seq<Option<Handle>>)
    requires found == Infos(kids) && StackShows(list, stack0, rest)
    requires forall k :: k in kids && k.info.IsFolder() ==> Shows(list, Some(k.info.handle), k)
    ensures objects == objects0 + found
    ensures StackShows(list, stack, rest + FoldersAmong(kids))
  {
    hide Shows, FoldersAmong;
    objects, stack := objects0, stack0;
    NoKidsYet(kids, rest);
    for i := 0 to |found|
      invariant objects == objects0 + found[..i]
      invariant StackShows(list, stack, rest + FoldersAmong(kids[..i]))
    {
      ghost var kid := kids[i];
      assert kid in kids;
      KidAdded(kids, i, rest);
      if found[i].IsFolder() {
        stack := stack + [Some(found[i].handle)];
      }
      objects := objects + [found[i]];
    }
    assert kids[..|kids|] == kids && found[..|found|] == found;
  }

  lemma {:induction false} TopIsReached(rest: seq<Node>, n: Node)
    ensures n in ReachedStack(rest + [n])
  {
  }

  lemma {:induction false} NothingLeft(nodes: seq<Node>)
    requires nodes == []
    ensures ReachedStack(nodes) == [] && ObjectsIn([]) == multiset{} && SkipsIn([]) == multiset{}
  {
  }

  /**
   Walks a folder tree. On the finite tree the device shows, it ends; it fails exactly when some
   reached folder fails to list; otherwise it returns every object of every reached folder, each as
   often as its folder lists it, and every skip.
   */
  method CollectObjectsRecursive(list: Lister, parent: Option<Handle>, ghost root: Node)
    returns (r: Result<ObjectCollection, PtpError>)
    requires Shows(list, parent, root)
    ensures r.Ok? <==> forall f :: f in Reached(root) ==> f.failure.None?
    ensures r.Err? ==> exists f :: f in Reached(root) && f.failure == Some(r.error)
    ensures r.Ok? ==> multiset(r.value.objects) == ObjectsIn(Reached(root))
    ensures r.Ok? ==> multiset(r.value.skipped) == SkipsIn(Reached(root))
  {
    hide Reached, ReachedStack, ObjectsIn, SkipsIn, FoldersAmong;
    var objects: seq<ObjectInfo> := [];
    var skipped: seq<SkippedObject> := [];
    var foldersToVisit: seq<Option<Handle>> := [parent];
    ghost var nodes := [root];
    StackOfOne(root);
    while foldersToVisit != []
      invariant StackShows(list, foldersToVisit, nodes)
      invariant multiset(objects) + ObjectsIn(ReachedStack(nodes)) == ObjectsIn(Reached(root))
      invariant multiset(skipped) + SkipsIn(ReachedStack(nodes)) == SkipsIn(Reached(root))
      invariant forall f :: f in ReachedStack(nodes) ==> f in Reached(root)
      invariant forall f :: f in Reached(root) ==> f in ReachedStack(nodes) || f.failure.None?
      decreases |ReachedStack(nodes)|
    {
      var last := |foldersToVisit| - 1;
      var currentParent := foldersToVisit[last];
      ghost var node, rest := nodes[last], nodes[..last];
      assert nodes == rest + [node];
      foldersToVisit := foldersToVisit[..last];
      if list(currentParent).Err? {
        TopIsReached(rest, node);
        return Err(list(currentParent).error);
      }
      var collection := list(currentParent).value;
      PopReaches(rest, node);
      skipped := skipped + collection.skipped;
      objects, foldersToVisit := PushFolders(list, objects, foldersToVisit, collection.objects, node.kids, rest);
      nodes := rest + FoldersAmong(node.kids);
    }
    NothingLeft(nodes);
    return Ok(ObjectCollection(objects, skipped));
  }
}
