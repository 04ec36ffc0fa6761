/** The recursive directory walk `get_file_list`: it visits a directory's
    entries in listing order, classifies every plain file, pushes textures
    onto one list and the other recognised files onto another, drops unknown
    files, and recurses into subdirectories in place. The filesystem is an
    abstract tree; a path is the sequence of names below the archived root. */
module Walker {
  import opened Wire
  import opened FileTypes
  import opened Classifier

  type Name = seq<byte>

  /** A directory entry as `fs::read_dir` and `fs::metadata` report it. An
      `Unreadable` entry is one whose listing or metadata fails. A file's
      `content` is what opening and reading it later gives, None when that
      fails. */
  datatype Node =
    | File(name: Name, content: Option<seq<byte>>)
    | Dir(name: Name, children: seq<Node>)
    | Unreadable(name: Name)

  /** `FileMeta`: a file's path (as names below the root) and its type. */
  datatype FileMeta = FileMeta(path: seq<Name>, fileType: FileType)

  /** A plain file met by the walk, with what reading it would give. */
  datatype Found = Found(meta: FileMeta, content: Option<seq<byte>>)

  predicate AllUtf8(names: seq<Name>)
  {
    forall i :: 0 <= i < |names| ==> ValidUtf8(names[i])
  }

  /** Both parts of a walk in order; a failure in either is a failure. */
  function Then(a: Option<seq<Found>>, b: Option<seq<Found>>): Option<seq<Found>>
  {
    if a.Some? && b.Some? then Some(a.value + b.value) else None
  }

  lemma ThenAssoc(a: Option<seq<Found>>, b: Option<seq<Found>>, c: Option<seq<Found>>)
    ensures Then(Then(a, b), c) == Then(a, Then(b, c))
  {
    if a.Some? && b.Some? && c.Some? {
      assert (a.value + b.value) + c.value == a.value + (b.value + c.value);
    }
  }

  lemma ThenEmpty(a: Option<seq<Found>>)
    ensures Then(Some([]), a) == a && Then(a, Some([])) == a
  {
    if a.Some? {
      assert [] + a.value == a.value + [] == a.value;
    }
  }

  /** The file `f` lies strictly below the directory at `prefix`, and its
      type is the classifier's verdict on its own name. */
  predicate FileBelow(f: Found, prefix: seq<Name>)
  {
    |prefix| < |f.meta.path| && f.meta.path[..|prefix|] == prefix &&
    f.meta.fileType == Classify(f.meta.path[|f.meta.path| - 1])
  }

  predicate FoundBelow(fs: seq<Found>, prefix: seq<Name>)
  {
    forall i :: 0 <= i < |fs| ==> FileBelow(fs[i], prefix)
  }

  lemma FoundBelowAppend(a: seq<Found>, b: seq<Found>, prefix: seq<Name>)
    requires FoundBelow(a, prefix) && FoundBelow(b, prefix)
    ensures FoundBelow(a + b, prefix)
  {
    forall i | 0 <= i < |a + b|
      ensures FileBelow((a + b)[i], prefix)
    {
      if i >= |a| {
        assert (a + b)[i] == b[i - |a|];
      }
    }
  }

  lemma FoundBelowParent(fs: seq<Found>, prefix: seq<Name>, name: Name)
    requires FoundBelow(fs, prefix + [name])
    ensures FoundBelow(fs, prefix)
  {
    forall i | 0 <= i < |fs|
      ensures FileBelow(fs[i], prefix)
    {
      var p := fs[i].meta.path;
      assert FileBelow(fs[i], prefix + [name]);
      assert p[..|prefix|] == p[..|prefix| + 1][..|prefix|] == (prefix + [name])[..|prefix|];
    }
  }

  /** What visiting one entry of the directory at `prefix` discovers: a
      plain file is classified; a subdirectory is walked in place; an entry
      whose metadata cannot be read fails the walk, and so do a file name
      that is not UTF-8 and a recognised file whose directory path is not
      UTF-8 (the source's `to_str().unwrap()`s). */
  function Visit(node: Node, prefix: seq<Name>): (r: Option<seq<Found>>)
    ensures r.Some? ==> FoundBelow(r.value, prefix)
    ensures node.Unreadable? ==> r.None?
    decreases node
  {
    match node
    case Unreadable(_) => None
    case File(name, content) =>
      if !ValidUtf8(name) then None
      else
        var t := Classify(name);
        if t != Unknown && !AllUtf8(prefix) then None
        else
          assert FileBelow(Found(FileMeta(prefix + [name], t), content), prefix) by {
            assert (prefix + [name])[..|prefix|] == prefix;
          }
          Some([Found(FileMeta(prefix + [name], t), content)])
    case Dir(name, kids) =>
      var r := Discover(kids, prefix + [name]);
      if r.Some? then FoundBelowParent(r.value, prefix, name); r else r
  }

  /** Every plain file under the entries `children` of the directory at
      `prefix`, in depth-first discovery order; None when the walk fails. */
  function Discover(children: seq<Node>, prefix: seq<Name>): (r: Option<seq<Found>>)
    ensures r.Some? ==> FoundBelow(r.value, prefix)
    ensures children == [] ==> r == Some([])
    decreases children
  {
    if children == [] then Some([])
    else
      var a := Visit(children[0], prefix);
      var b := Discover(children[1..], prefix);
      if a.Some? && b.Some? then FoundBelowAppend(a.value, b.value, prefix); Then(a, b)
      else Then(a, b)
  }

  /** The walk of the directory `dir` found at `prefix`; `fs::read_dir`
      fails on anything that is not a readable directory. */
  function Walk(dir: Node, prefix: seq<Name>): (r: Option<seq<Found>>)
    ensures r.Some? ==> dir.Dir? && FoundBelow(r.value, prefix)
  {
    match dir
    case Dir(_, children) => Discover(children, prefix)
    case _ => None
  }

  /** The discovered files whose type satisfies `keep`, in discovery order. */
  function Select(fs: seq<Found>, keep: FileType -> bool): (r: seq<Found>)
    ensures |r| <= |fs|
  {
    if fs == [] then []
    else if keep(fs[0].meta.fileType) then [fs[0]] + Select(fs[1..], keep)
    else Select(fs[1..], keep)
  }

  predicate IsTexture(t: FileType) { t == Texture }
  predicate IsOther(t: FileType) { t != Texture && t != Unknown }
  predicate IsUnknown(t: FileType) { t == Unknown }

  /** The texture list: the discovered textures. */
  function Textures(fs: seq<Found>): seq<Found> { Select(fs, IsTexture) }

  /** The file list: the discovered files of a recognised non-texture type. */
  function Others(fs: seq<Found>): seq<Found> { Select(fs, IsOther) }

  /** The files the walk reports and drops. */
  function Skipped(fs: seq<Found>): seq<Found> { Select(fs, IsUnknown) }

  function Metas(fs: seq<Found>): (r: seq<FileMeta>)
    ensures |r| == |fs| && forall i :: 0 <= i < |fs| ==> r[i] == fs[i].meta
  {
    seq(|fs|, i requires 0 <= i < |fs| => fs[i].meta)
  }

  /** Selection keeps discovery order: splitting what was discovered into
      an earlier and a later part splits the selection the same way. */
  lemma {:induction false} SelectDistributes(a: seq<Found>, b: seq<Found>, keep: FileType -> bool)
    ensures Select(a + b, keep) == Select(a, keep) + Select(b, keep)
    decreases |a|
  {
    if a == [] {
      assert a + b == b;
    } else {
      assert (a + b)[0] == a[0];
      assert (a + b)[1..] == a[1..] + b;
      SelectDistributes(a[1..], b, keep);
    }
  }

  /** The selection holds exactly the discovered files whose type is kept. */
  lemma {:induction false} SelectMembers(fs: seq<Found>, keep: FileType -> bool)
    ensures forall f :: f in Select(fs, keep) <==> f in fs && keep(f.meta.fileType)
    decreases |fs|
  {
    if fs != [] {
      SelectMembers(fs[1..], keep);
      assert fs == [fs[0]] + fs[1..];
    }
  }

  lemma SelectOne(f: Found, keep: FileType -> bool)
    ensures Select([f], keep) == if keep(f.meta.fileType) then [f] else []
  {
    assert [f][1..] == [];
  }

  /** The metadata one found file contributes to a list. */
  lemma FileFound(f: Found, keep: FileType -> bool)
    ensures Metas(Select([f], keep)) == if keep(f.meta.fileType) then [f.meta] else []
  {
    SelectOne(f, keep);
  }

  lemma MetasAppend(a: seq<Found>, b: seq<Found>)
    ensures Metas(a + b) == Metas(a) + Metas(b)
  {
  }

  /** Appending the selection from `more` to the selection from `found`
      gives the selection from `found + more`. */
  lemma AccumulateStep(acc: seq<FileMeta>, found: seq<Found>, more: seq<Found>, keep: FileType -> bool)
    ensures acc + Metas(Select(found, keep)) + Metas(Select(more, keep))
         == acc + Metas(Select(found + more, keep))
  {
    SelectDistributes(found, more, keep);
    MetasAppend(Select(found, keep), Select(more, keep));
  }

  /** The three lists keep discovery order. */
  lemma FiltersDistribute(a: seq<Found>, b: seq<Found>)
    ensures Textures(a + b) == Textures(a) + Textures(b)
    ensures Others(a + b) == Others(a) + Others(b)
    ensures Skipped(a + b) == Skipped(a) + Skipped(b)
  {
    SelectDistributes(a, b, IsTexture);
    SelectDistributes(a, b, IsOther);
    SelectDistributes(a, b, IsUnknown);
  }

  /** Every discovered file lands in exactly one place: the texture list,
      the file list or the dropped files, and nothing else is in any of them. */
  lemma {:induction false} Partition(fs: seq<Found>)
    ensures multiset(Textures(fs)) + multiset(Others(fs)) + multiset(Skipped(fs)) == multiset(fs)
    ensures |Textures(fs)| + |Others(fs)| + |Skipped(fs)| == |fs|
    decreases |fs|
  {
    if fs != [] {
      Partition(fs[1..]);
      assert fs == [fs[0]] + fs[1..];
    }
  }

  /** Where a single discovered file goes is decided by its type alone. */
  lemma PlacedByType(fs: seq<Found>, f: Found)
    requires f in fs
    ensures f.meta.fileType == Texture ==> f in Textures(fs) && f !in Others(fs)
    ensures f.meta.fileType !in {Texture, Unknown} ==> f in Others(fs) && f !in Textures(fs)
    ensures f.meta.fileType == Unknown ==> f !in Textures(fs) && f !in Others(fs)
  {
    SelectMembers(fs, IsTexture);
    SelectMembers(fs, IsOther);
  }

  /** Discovery runs through the entries in listing order: the entries
      before a point are discovered before the entries after it. */
  lemma {:induction false} DiscoverAppend(a: seq<Node>, b: seq<Node>, prefix: seq<Name>)
    ensures Discover(a + b, prefix) == Then(Discover(a, prefix), Discover(b, prefix))
    decreases |a|
  {
    if a == [] {
      assert a + b == b;
      ThenEmpty(Discover(b, prefix));
    } else {
      assert (a + b)[0] == a[0];
      assert (a + b)[1..] == a[1..] + b;
      DiscoverAppend(a[1..], b, prefix);
      ThenAssoc(Visit(a[0], prefix), Discover(a[1..], prefix), Discover(b, prefix));
    }
  }

  /** A subdirectory's files are discovered in place: after the files of
      the entries before it and before the files of its later siblings. */
  lemma DepthFirst(before: seq<Node>, name: Name, kids: seq<Node>, after: seq<Node>, prefix: seq<Name>)
    requires Discover(before + [Dir(name, kids)] + after, prefix).Some?
    ensures Discover(before, prefix).Some? && Discover(kids, prefix + [name]).Some?
    ensures Discover(after, prefix).Some?
    ensures Discover(before + [Dir(name, kids)] + after, prefix).value
         == Discover(before, prefix).value + Discover(kids, prefix + [name]).value + Discover(after, prefix).value
  {
    var rest := [Dir(name, kids)] + after;
    assert before + [Dir(name, kids)] + after == before + rest;
    DiscoverAppend(before, rest, prefix);
    DiscoverCons(Dir(name, kids), after, prefix);
    ThenSplit(Discover(before, prefix), Discover(kids, prefix + [name]), Discover(after, prefix));
  }

  /** A plain file visited on its own yields exactly its own record. */
  lemma VisitFile(node: Node, prefix: seq<Name>)
    requires node.File? && Visit(node, prefix).Some?
    ensures Visit(node, prefix).value == [Found(FileMeta(prefix + [node.name], Classify(node.name)), node.content)]
  {
  }

  /** Every plain file listed in a directory whose walk succeeds is found,
      with its path, its type and what reading it gives: a failed walk is
      the only way a file is not reported. */
  lemma DiscoverFindsFile(children: seq<Node>, prefix: seq<Name>, i: nat)
    requires Discover(children, prefix).Some? && i < |children| && children[i].File?
    ensures Found(FileMeta(prefix + [children[i].name], Classify(children[i].name)), children[i].content)
            in Discover(children, prefix).value
  {
    SplitAt(children, prefix, i);
    VisitFile(children[i], prefix);
    InMiddle(Visit(children[i], prefix).value[0], Discover(children[..i], prefix).value,
      Visit(children[i], prefix).value, Discover(children[i + 1..], prefix).value);
  }

  /** The node reached from the entries `children` by following `route`:
      each index but the last picks a subdirectory, the last picks the node. */
  function Lookup(children: seq<Node>, route: seq<nat>): Option<Node>
    decreases route
  {
    if route == [] || route[0] >= |children| then None
    else if |route| == 1 then Some(children[route[0]])
    else if children[route[0]].Dir? then Lookup(children[route[0]].children, route[1..])
    else None
  }

  /** The names of the subdirectories `route` passes through. */
  function RouteDirs(children: seq<Node>, route: seq<nat>): seq<Name>
    requires Lookup(children, route).Some?
    decreases route
  {
    if |route| == 1 then []
    else [children[route[0]].name] + RouteDirs(children[route[0]].children, route[1..])
  }

  lemma InMiddle(x: Found, a: seq<Found>, b: seq<Found>, c: seq<Found>)
    requires x in b
    ensures x in a + b + c
  {
    var k :| 0 <= k < |b| && b[k] == x;
    assert (a + b + c)[|a| + k] == x;
  }

  lemma LookupStep(children: seq<Node>, route: seq<nat>)
    requires |route| > 1 && Lookup(children, route).Some?
    ensures route[0] < |children| && children[route[0]].Dir?
    ensures Lookup(children[route[0]].children, route[1..]) == Lookup(children, route)
    ensures RouteDirs(children, route) == [children[route[0]].name] + RouteDirs(children[route[0]].children, route[1..])
  {
  }

  /** A successful walk of a listing splits around its `i`-th entry into
      the finds before it, in it and after it. */
  lemma SplitAt(children: seq<Node>, prefix: seq<Name>, i: nat)
    requires Discover(children, prefix).Some? && i < |children|
    ensures Discover(children[..i], prefix).Some? && Discover(children[i + 1..], prefix).Some?
    ensures Visit(children[i], prefix).Some?
    ensures Discover(children, prefix).value
         == Discover(children[..i], prefix).value + Visit(children[i], prefix).value
          + Discover(children[i + 1..], prefix).value
  {
    assert children[..i] + children[i..] == children;
    DiscoverAppend(children[..i], children[i..], prefix);
    DiscoverStep(children, i, prefix);
    ThenSplit(Discover(children[..i], prefix), Visit(children[i], prefix), Discover(children[i + 1..], prefix));
  }

  /** The same split around a subdirectory: its finds are those of its own
      entries, below its name. */
  lemma SplitAtDir(children: seq<Node>, prefix: seq<Name>, i: nat)
    requires Discover(children, prefix).Some? && i < |children| && children[i].Dir?
    ensures Discover(children[..i], prefix).Some? && Discover(children[i + 1..], prefix).Some?
    ensures Discover(children[i].children, prefix + [children[i].name]).Some?
    ensures Discover(children, prefix).value
         == Discover(children[..i], prefix).value
          + Discover(children[i].children, prefix + [children[i].name]).value
          + Discover(children[i + 1..], prefix).value
  {
    SplitAt(children, prefix, i);
    assert Visit(children[i], prefix) == Discover(children[i].children, prefix + [children[i].name]);
  }

  /** What the walk finds in a subdirectory is part of what it finds in
      the directory holding it. */
  lemma {:induction false} SubdirFound(children: seq<Node>, prefix: seq<Name>, i: nat)
    requires Discover(children, prefix).Some? && i < |children| && children[i].Dir?
    ensures Discover(children[i].children, prefix + [children[i].name]).Some?
    ensures forall x :: x in Discover(children[i].children, prefix + [children[i].name]).value ==>
      x in Discover(children, prefix).value
  {
    SplitAtDir(children, prefix, i);
    var before := Discover(children[..i], prefix).value;
    var inside := Discover(children[i].children, prefix + [children[i].name]).value;
    var after := Discover(children[i + 1..], prefix).value;
    forall x | x in inside
      ensures x in before + inside + after
    {
      InMiddle(x, before, inside, after);
    }
  }

  /** The record a walk of `children` from `prefix` reports for the plain
      file that `route` reaches. */
  function RouteFound(children: seq<Node>, prefix: seq<Name>, route: seq<nat>): Found
    requires Lookup(children, route).Some? && Lookup(children, route).value.File?
  {
    var f := Lookup(children, route).value;
    Found(FileMeta(prefix + RouteDirs(children, route) + [f.name], Classify(f.name)), f.content)
  }

  lemma RouteFoundStep(children: seq<Node>, prefix: seq<Name>, route: seq<nat>)
    requires |route| > 1 && Lookup(children, route).Some? && Lookup(children, route).value.File?
    ensures route[0] < |children| && children[route[0]].Dir?
    ensures Lookup(children[route[0]].children, route[1..]) == Lookup(children, route)
    ensures RouteFound(children, prefix, route)
         == RouteFound(children[route[0]].children, prefix + [children[route[0]].name], route[1..])
  {
    LookupStep(children, route);
    var name, kids := children[route[0]].name, children[route[0]].children;
    var dirs := RouteDirs(kids, route[1..]);
    assert prefix + [name] + dirs == prefix + ([name] + dirs);
  }

  /** A plain file anywhere below the entries `children` is found by a
      successful walk, with the names of the directories leading to it. */
  lemma {:induction false} DiscoverFindsNested(children: seq<Node>, prefix: seq<Name>, route: seq<nat>)
    requires Discover(children, prefix).Some?
    requires Lookup(children, route).Some? && Lookup(children, route).value.File?
    ensures RouteFound(children, prefix, route) in Discover(children, prefix).value
    decreases route
  {
    if |route| == 1 {
      assert RouteDirs(children, route) == [];
      assert prefix + [] == prefix;
      DiscoverFindsFile(children, prefix, route[0]);
    } else {
      RouteFoundStep(children, prefix, route);
      var i := route[0];
      SubdirFound(children, prefix, i);
      DiscoverFindsNested(children[i].children, prefix + [children[i].name], route[1..]);
    }
  }

  /** Every plain file in the tree below the archived directory `root`
      is found by a successful walk; a recognised one lands on exactly the
      list its type selects. */
  lemma WalkFindsFile(root: Node, route: seq<nat>)
    requires root.Dir? && Walk(root, []).Some?
    requires Lookup(root.children, route).Some? && Lookup(root.children, route).value.File?
    ensures var f := Lookup(root.children, route).value;
      var found := Found(FileMeta(RouteDirs(root.children, route) + [f.name], Classify(f.name)), f.content);
      found in Walk(root, []).value &&
      (Classify(f.name) == Texture ==> found in Textures(Walk(root, []).value)) &&
      (Classify(f.name) !in {Texture, Unknown} ==> found in Others(Walk(root, []).value))
  {
    var f := Lookup(root.children, route).value;
    DiscoverFindsNested(root.children, [], route);
    assert [] + RouteDirs(root.children, route) == RouteDirs(root.children, route);
    var found := RouteFound(root.children, [], route);
    PlacedByType(Walk(root, []).value, found);
  }

  /** How many plain files lie below the entries `children`, at any depth. */
  function FileCount(children: seq<Node>): nat
    decreases children
  {
    if children == [] then 0 else NodeFileCount(children[0]) + FileCount(children[1..])
  }

  function NodeFileCount(node: Node): nat
    decreases node
  {
    match node
    case File(_, _) => 1
    case Dir(_, kids) => FileCount(kids)
    case Unreadable(_) => 0
  }

  /** A successful walk reports one record per plain file below the
      listing, known and unknown types alike: no file is reported twice. */
  lemma {:induction false} DiscoverCount(children: seq<Node>, prefix: seq<Name>)
    requires Discover(children, prefix).Some?
    ensures |Discover(children, prefix).value| == FileCount(children)
    decreases children
  {
    if children != [] {
      VisitCount(children[0], prefix);
      DiscoverCount(children[1..], prefix);
    }
  }

  lemma {:induction false} VisitCount(node: Node, prefix: seq<Name>)
    requires Visit(node, prefix).Some?
    ensures |Visit(node, prefix).value| == NodeFileCount(node)
    decreases node
  {
    if node.Dir? {
      DiscoverCount(node.children, prefix + [node.name]);
    }
  }

  /** A route into a listing that starts past its first entry is a route
      into the rest of the listing. */
  lemma LookupTail(children: seq<Node>, route: seq<nat>)
    requires children != [] && route != [] && route[0] > 0
    ensures Lookup(children, route) == Lookup(children[1..], [route[0] - 1] + route[1..])
    ensures Lookup(children, route).Some? ==>
      RouteDirs(children, route) == RouteDirs(children[1..], [route[0] - 1] + route[1..])
  {
    var r := [route[0] - 1] + route[1..];
    assert r[0] == route[0] - 1 && r[1..] == route[1..] && |r| == |route|;
    if route[0] < |children| {
      assert children[1..][r[0]] == children[route[0]];
    }
  }

  /** A route into the first entry, a subdirectory, is a route into its
      entries with that subdirectory's name in front. */
  lemma LookupHead(children: seq<Node>, route: seq<nat>)
    requires children != [] && children[0].Dir? && route != []
    ensures Lookup(children, [0] + route) == Lookup(children[0].children, route)
    ensures Lookup(children, [0] + route).Some? ==>
      RouteDirs(children, [0] + route) == [children[0].name] + RouteDirs(children[0].children, route)
  {
    assert ([0] + route)[0] == 0 && ([0] + route)[1..] == route;
  }

  /** What the walk needs of one node it reaches through the directories
      `dirs`: the node is readable, and a plain file has a UTF-8 name and,
      when its type is recognised, a UTF-8 directory path (the source's
      `fs::metadata(..)?` and `to_str().unwrap()`s). */
  predicate NodeOkAt(node: Node, dirs: seq<Name>)
  {
    !node.Unreadable? &&
    (node.File? ==> ValidUtf8(node.name) && (Classify(node.name) != Unknown ==> AllUtf8(dirs)))
  }

  /** Every node at any depth below the entries `children` of the directory
      at `prefix` is as the walk needs it. */
  ghost predicate WalkOk(children: seq<Node>, prefix: seq<Name>)
  {
    forall route :: Lookup(children, route).Some? ==>
      NodeOkAt(Lookup(children, route).value, prefix + RouteDirs(children, route))
  }

  /** `WalkOk` for one entry and, for a subdirectory, everything below it. */
  ghost predicate NodeOk(node: Node, prefix: seq<Name>)
  {
    NodeOkAt(node, prefix) && (node.Dir? ==> WalkOk(node.children, prefix + [node.name]))
  }

  lemma WalkOkHead(children: seq<Node>, prefix: seq<Name>)
    requires children != [] && WalkOk(children, prefix)
    ensures NodeOk(children[0], prefix)
  {
    var c := children[0];
    assert Lookup(children, [0]) == Some(c) && RouteDirs(children, [0]) == [];
    assert prefix + [] == prefix;
    if c.Dir? {
      forall r | Lookup(c.children, r).Some?
        ensures NodeOkAt(Lookup(c.children, r).value, prefix + [c.name] + RouteDirs(c.children, r))
      {
        LookupHead(children, r);
        assert prefix + [c.name] + RouteDirs(c.children, r) == prefix + ([c.name] + RouteDirs(c.children, r));
        assert NodeOkAt(Lookup(children, [0] + r).value, prefix + RouteDirs(children, [0] + r));
      }
    }
  }

  lemma WalkOkTail(children: seq<Node>, prefix: seq<Name>)
    requires children != [] && WalkOk(children, prefix)
    ensures WalkOk(children[1..], prefix)
  {
    forall r | Lookup(children[1..], r).Some?
      ensures NodeOkAt(Lookup(children[1..], r).value, prefix + RouteDirs(children[1..], r))
    {
      var s := [r[0] + 1] + r[1..];
      assert s[0] == r[0] + 1 && s[1..] == r[1..];
      assert [s[0] - 1] + s[1..] == r;
      LookupTail(children, s);
      assert NodeOkAt(Lookup(children, s).value, prefix + RouteDirs(children, s));
    }
  }

  lemma WalkOkJoin(children: seq<Node>, prefix: seq<Name>)
    requires children != [] && NodeOk(children[0], prefix) && WalkOk(children[1..], prefix)
    ensures WalkOk(children, prefix)
  {
    var c := children[0];
    forall route | Lookup(children, route).Some?
      ensures NodeOkAt(Lookup(children, route).value, prefix + RouteDirs(children, route))
    {
      if route[0] > 0 {
        LookupTail(children, route);
      } else if |route| == 1 {
        assert prefix + RouteDirs(children, route) == prefix;
      } else {
        var r := route[1..];
        assert route == [0] + r;
        LookupHead(children, r);
        assert prefix + [c.name] + RouteDirs(c.children, r) == prefix + ([c.name] + RouteDirs(c.children, r));
      }
    }
  }

  /** A walk succeeds exactly when every node below the listing is as the
      walk needs it: readable, and a file with UTF-8 names where the source
      converts them. Failing on one node fails the whole walk. */
  lemma {:induction false} DiscoverOk(children: seq<Node>, prefix: seq<Name>)
    ensures Discover(children, prefix).Some? <==> WalkOk(children, prefix)
    decreases children
  {
    if children == [] {
      forall route | Lookup(children, route).Some?
        ensures false
      {
      }
    } else {
      VisitOk(children[0], prefix);
      DiscoverOk(children[1..], prefix);
      if WalkOk(children, prefix) {
        WalkOkHead(children, prefix);
        WalkOkTail(children, prefix);
      }
      if NodeOk(children[0], prefix) && WalkOk(children[1..], prefix) {
        WalkOkJoin(children, prefix);
      }
    }
  }

  lemma {:induction false} VisitOk(node: Node, prefix: seq<Name>)
    ensures Visit(node, prefix).Some? <==> NodeOk(node, prefix)
    decreases node
  {
    if node.Dir? {
      DiscoverOk(node.children, prefix + [node.name]);
    }
  }

  /** The walk of the archived directory succeeds exactly when it is a
      directory and every node below it is as the walk needs it. */
  lemma WalkSucceeds(root: Node)
    ensures Walk(root, []).Some? <==> root.Dir? && WalkOk(root.children, [])
  {
    if root.Dir? {
      DiscoverOk(root.children, []);
    }
  }

  /** `x` has the path and the content of a plain file that some route
      below the entries `children` of the directory at `prefix` reaches. */
  ghost predicate IsFileOf(children: seq<Node>, prefix: seq<Name>, x: Found)
  {
    exists route ::
      Lookup(children, route).Some? && Lookup(children, route).value.File? &&
      x.meta.path == prefix + RouteDirs(children, route) + [Lookup(children, route).value.name] &&
      x.content == Lookup(children, route).value.content
  }

  lemma FirstFileIsFileOf(children: seq<Node>, prefix: seq<Name>, x: Found)
    requires children != [] && children[0].File?
    requires x.meta.path == prefix + [children[0].name] && x.content == children[0].content
    ensures IsFileOf(children, prefix, x)
  {
    assert Lookup(children, [0]) == Some(children[0]) && RouteDirs(children, [0]) == [];
    assert prefix + [] == prefix;
  }

  lemma IsFileOfHead(children: seq<Node>, prefix: seq<Name>, x: Found)
    requires children != [] && children[0].Dir?
    requires IsFileOf(children[0].children, prefix + [children[0].name], x)
    ensures IsFileOf(children, prefix, x)
  {
    var c := children[0];
    var r :| Lookup(c.children, r).Some? && Lookup(c.children, r).value.File? &&
      x.meta.path == prefix + [c.name] + RouteDirs(c.children, r) + [Lookup(c.children, r).value.name] &&
      x.content == Lookup(c.children, r).value.content;
    LookupHead(children, r);
    assert prefix + [c.name] + RouteDirs(c.children, r) == prefix + RouteDirs(children, [0] + r);
  }

  lemma IsFileOfTail(children: seq<Node>, prefix: seq<Name>, x: Found)
    requires children != [] && IsFileOf(children[1..], prefix, x)
    ensures IsFileOf(children, prefix, x)
  {
    var r :| Lookup(children[1..], r).Some? && Lookup(children[1..], r).value.File? &&
      x.meta.path == prefix + RouteDirs(children[1..], r) + [Lookup(children[1..], r).value.name] &&
      x.content == Lookup(children[1..], r).value.content;
    var s := [r[0] + 1] + r[1..];
    assert [s[0] - 1] + s[1..] == r by {
      assert s[0] == r[0] + 1 && s[1..] == r[1..];
    }
    LookupTail(children, s);
  }

  lemma InThen(x: Found, a: Option<seq<Found>>, b: Option<seq<Found>>)
    requires Then(a, b).Some? && x in Then(a, b).value
    ensures a.Some? && b.Some? && (x in a.value || x in b.value)
  {
  }

  lemma FoundIsBelow(fs: seq<Found>, prefix: seq<Name>, x: Found)
    requires FoundBelow(fs, prefix) && x in fs
    ensures FileBelow(x, prefix)
  {
    var k :| 0 <= k < |fs| && fs[k] == x;
  }

  lemma {:induction false} DiscoverReportsFiles(children: seq<Node>, prefix: seq<Name>, x: Found)
    requires Discover(children, prefix).Some? && x in Discover(children, prefix).value
    ensures IsFileOf(children, prefix, x)
    decreases children
  {
    var c := children[0];
    DiscoverCons(c, children[1..], prefix);
    assert [c] + children[1..] == children;
    InThen(x, Visit(c, prefix), Discover(children[1..], prefix));
    if x in Visit(c, prefix).value {
      if c.File? {
        VisitFile(c, prefix);
        FirstFileIsFileOf(children, prefix, x);
      } else if c.Dir? {
        DiscoverReportsFiles(c.children, prefix + [c.name], x);
        IsFileOfHead(children, prefix, x);
      }
    } else {
      DiscoverReportsFiles(children[1..], prefix, x);
      IsFileOfTail(children, prefix, x);
    }
  }

  /** Everything a successful walk reports is a plain file of the tree: it
      has the path of a route that reaches a file, that file's content, and
      the type the classifier gives the file's own name. */
  lemma DiscoverOnlyFiles(children: seq<Node>, prefix: seq<Name>, x: Found)
    requires Discover(children, prefix).Some? && x in Discover(children, prefix).value
    ensures IsFileOf(children, prefix, x)
    ensures x.meta.path != [] && x.meta.fileType == Classify(x.meta.path[|x.meta.path| - 1])
  {
    DiscoverReportsFiles(children, prefix, x);
    FoundIsBelow(Discover(children, prefix).value, prefix, x);
  }

  lemma DiscoverCons(node: Node, after: seq<Node>, prefix: seq<Name>)
    ensures Discover([node] + after, prefix) == Then(Visit(node, prefix), Discover(after, prefix))
  {
    assert ([node] + after)[0] == node && ([node] + after)[1..] == after;
  }

  lemma ThenSplit(a: Option<seq<Found>>, b: Option<seq<Found>>, c: Option<seq<Found>>)
    requires Then(a, Then(b, c)).Some?
    ensures a.Some? && b.Some? && c.Some?
    ensures Then(a, Then(b, c)).value == a.value + b.value + c.value
  {
    assert a.value + (b.value + c.value) == a.value + b.value + c.value;
  }

  lemma DiscoverStep(cs: seq<Node>, i: nat, prefix: seq<Name>)
    requires i < |cs|
    ensures Discover(cs[i..], prefix) == Then(Visit(cs[i], prefix), Discover(cs[i + 1..], prefix))
  {
    assert cs[i..][0] == cs[i] && cs[i..][1..] == cs[i + 1..];
  }

  /** `get_file_list(path, file, texture)`: walks the directory `dir` found
      at `prefix`, appending to the two accumulators. It succeeds exactly
      when the walk does, and then has appended the file list and the
      texture list of what the walk discovered. On failure the source
      returns an error and the caller discards both lists. */
  method GetFileList(dir: Node, prefix: seq<Name>, file: seq<FileMeta>, texture: seq<FileMeta>)
    returns (ok: bool, file': seq<FileMeta>, texture': seq<FileMeta>)
    ensures ok <==> Walk(dir, prefix).Some?
    ensures ok ==> file' == file + Metas(Others(Walk(dir, prefix).value))
    ensures ok ==> texture' == texture + Metas(Textures(Walk(dir, prefix).value))
    decreases dir, 0
  {
    file', texture' := file, texture;
    if !dir.Dir? {
      return false, file', texture';
    }
    var children := dir.children;
    ghost var found: seq<Found> := [];
    var i := 0;
    assert children[i..] == children;
    ThenEmpty(Discover(children, prefix));
    while i < |children|
      invariant 0 <= i <= |children|
      invariant Discover(children, prefix) == Then(Some(found), Discover(children[i..], prefix))
      invariant file' == file + Metas(Others(found))
      invariant texture' == texture + Metas(Textures(found))
    {
      DiscoverStep(children, i, prefix);
      ghost var visited := Visit(children[i], prefix);
      ThenAssoc(Some(found), visited, Discover(children[i + 1..], prefix));
      var sub;
      sub, file', texture' := VisitEntry(children[i], prefix, file', texture');
      if !sub {
        return false, file', texture';
      }
      AccumulateStep(file, found, visited.value, IsOther);
      AccumulateStep(texture, found, visited.value, IsTexture);
      found := found + visited.value;
      i := i + 1;
    }
    assert children[i..] == [];
    ThenEmpty(Some(found));
    return true, file', texture';
  }

  /** One turn of the loop in `get_file_list`: a plain file is classified
      and pushed onto the texture list, pushed onto the file list, or
      skipped; anything else is walked as a subdirectory. */
  method VisitEntry(node: Node, prefix: seq<Name>, file: seq<FileMeta>, texture: seq<FileMeta>)
    returns (ok: bool, file': seq<FileMeta>, texture': seq<FileMeta>)
    ensures ok <==> Visit(node, prefix).Some?
    ensures ok ==> file' == file + Metas(Others(Visit(node, prefix).value))
    ensures ok ==> texture' == texture + Metas(Textures(Visit(node, prefix).value))
    decreases node, 1
  {
    file', texture' := file, texture;
    match node {
      case Unreadable(_) =>
        ok := false;
      case File(name, content) =>
        if !ValidUtf8(name) {
          return false, file', texture';
        }
        var t := Classify(name);
        var meta := FileMeta(prefix + [name], t);
        if t != Unknown && !AllUtf8(prefix) {
          return false, file', texture';
        }
        var f := Found(meta, content);
        FileFound(f, IsTexture);
        FileFound(f, IsOther);
        if t == Texture {
          texture' := texture' + [meta];
        } else if t != Unknown {
          file' := file' + [meta];
        }
        ok := true;
      case Dir(name, kids) =>
        ok, file', texture' := GetFileList(node, prefix + [name], file', texture');
    }
  }
}
