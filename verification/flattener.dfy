/** The catalogue flattener of `WildBerriesParser.process_catalogue`: a
    depth-first walk that emits one `Category` per node without a `children`
    key, named by its ancestors' names and its own. */
module Flattener {
  import opened Wrappers
  import opened Catalogue

  /** A leaf without a `url` key; `path` is the display name it would have had. */
  datatype FlattenError = MissingUrl(path: string)

  type Flat = Result<seq<Category>, FlattenError>

  /** The prefix handed to the children of `n`. */
  function ChildPrefix(prefix: string, n: Node): string
  {
    prefix + n.name + Separator
  }

  /** The entries of the tree rooted at `n` when its ancestors' names make up
      `prefix`. An internal node emits nothing of its own, whatever `url` it
      carries; a leaf emits its full name and its url, or fails without one. */
  function Flatten(n: Node, prefix: string): (r: Flat)
    ensures r.Success? ==> forall e | e in r.value :: prefix <= e.name
    ensures r.Failure? ==> prefix <= r.error.path
    decreases n
  {
    match n.children
    case Present(cs) => FlattenAll(cs, ChildPrefix(prefix, n))
    case Absent =>
      match n.url
      case None => Failure(MissingUrl(prefix + n.name))
      case Some(u) => Success([Category(prefix + n.name, u)])
  }

  /** The entries of the sibling trees `cs`, tree after tree; the first
      failure stops the walk. */
  function FlattenAll(cs: seq<Node>, prefix: string): (r: Flat)
    ensures r.Success? ==> forall e | e in r.value :: prefix <= e.name
    ensures r.Failure? ==> prefix <= r.error.path
    decreases cs
  {
    if cs == [] then Success([])
    else AppendResult(FlattenAll(cs[..|cs| - 1], prefix), Flatten(cs[|cs| - 1], prefix))
  }

  // ---------------------------------------------------------------------
  // Order: siblings are flattened in the order they are listed.
  // ---------------------------------------------------------------------

  /** Flattening a run of siblings is flattening its two halves, the first
      half's entries first. */
  lemma {:induction false} FlattenAllSplit(cs: seq<Node>, ds: seq<Node>, prefix: string)
    ensures FlattenAll(cs + ds, prefix) == AppendResult(FlattenAll(cs, prefix), FlattenAll(ds, prefix))
    decreases |ds|
  {
    if ds == [] {
      assert cs + ds == cs;
      AppendResultUnit(FlattenAll(cs, prefix));
    } else {
      var ds' := ds[..|ds| - 1];
      var d := ds[|ds| - 1];
      assert (cs + ds)[..|cs + ds| - 1] == cs + ds';
      assert (cs + ds)[|cs + ds| - 1] == d;
      FlattenAllSplit(cs, ds', prefix);
      AppendResultAssoc(FlattenAll(cs, prefix), FlattenAll(ds', prefix), Flatten(d, prefix));
    }
  }

  /** A node with children `[a, b]` yields the entries of `a` followed by those
      of `b`, both under the node's own name. */
  lemma TwoChildren(name: string, a: Node, b: Node, url: Option<string>, prefix: string)
    ensures var p := prefix + name + Separator;
      Flatten(Node(name, Present([a, b]), url), prefix) == AppendResult(Flatten(a, p), Flatten(b, p))
  {
    var p := prefix + name + Separator;
    assert [a, b][..1] == [a];
    assert [a][..0] == [];
    AppendResultUnit(Flatten(a, p));
    assert FlattenAll([a], p) == Flatten(a, p);
  }

  /** A `children` key holding an empty list yields no entries, even when the
      node also carries a url. */
  lemma EmptyChildren(name: string, url: Option<string>, prefix: string)
    ensures Flatten(Node(name, Present([]), url), prefix) == Success([])
  {
  }

  /** A two-level catalogue: `Root` lists the leaf `Shoes` and the internal
      `Bags`, which lists the leaf `Totes`. */
  lemma ShoesAndBags()
    ensures var totes := Node("Totes", Absent, Some("totes55"));
      var bags := Node("Bags", Present([totes]), None);
      var shoes := Node("Shoes", Absent, Some("shoes123"));
      Flatten(Node("Root", Present([shoes, bags]), None), "")
        == Success([Category("Root -> Shoes", "shoes123"), Category("Root -> Bags -> Totes", "totes55")])
  {
    var totes := Node("Totes", Absent, Some("totes55"));
    var bags := Node("Bags", Present([totes]), None);
    var shoes := Node("Shoes", Absent, Some("shoes123"));
    TwoChildren("Root", shoes, bags, None, "");
    assert "" + "Root" + Separator == "Root -> ";
    assert "Root -> " + "Shoes" == "Root -> Shoes";
    assert "Root -> " + "Bags" + Separator == "Root -> Bags -> ";
    assert "Root -> Bags -> " + "Totes" == "Root -> Bags -> Totes";
    assert [totes][..0] == [];
    AppendResultUnit(Flatten(totes, "Root -> Bags -> "));
    assert FlattenAll([totes], "Root -> Bags -> ") == Flatten(totes, "Root -> Bags -> ");
    assert Flatten(totes, "Root -> Bags -> ") == Success([Category("Root -> Bags -> Totes", "totes55")]);
    assert Flatten(bags, "Root -> ") == Success([Category("Root -> Bags -> Totes", "totes55")]);
    assert Flatten(shoes, "Root -> ") == Success([Category("Root -> Shoes", "shoes123")]);
    assert [Category("Root -> Shoes", "shoes123")] + [Category("Root -> Bags -> Totes", "totes55")]
      == [Category("Root -> Shoes", "shoes123"), Category("Root -> Bags -> Totes", "totes55")];
  }

  // ---------------------------------------------------------------------
  // Urls of internal nodes are never read.
  // ---------------------------------------------------------------------

  /** The same tree with the url removed from every internal node. */
  function ClearInternalUrls(n: Node): Node
    decreases n
  {
    match n.children
    case Absent => n
    case Present(cs) => Node(n.name, Present(ClearAllInternalUrls(cs)), None)
  }

  function ClearAllInternalUrls(cs: seq<Node>): seq<Node>
    decreases cs
  {
    seq(|cs|, i requires 0 <= i < |cs| => ClearInternalUrls(cs[i]))
  }

  /** Removing the url of every internal node changes nothing in the output:
      when a node has both children and a url, the children win. */
  lemma {:induction false} InternalUrlsIgnored(n: Node, prefix: string)
    ensures Flatten(ClearInternalUrls(n), prefix) == Flatten(n, prefix)
    decreases n
  {
    match n.children
    case Absent =>
    case Present(cs) =>
      AllInternalUrlsIgnored(cs, ChildPrefix(prefix, n));
  }

  lemma {:induction false} AllInternalUrlsIgnored(cs: seq<Node>, prefix: string)
    ensures FlattenAll(ClearAllInternalUrls(cs), prefix) == FlattenAll(cs, prefix)
    decreases cs
  {
    if cs != [] {
      var cleared := ClearAllInternalUrls(cs);
      assert cleared[..|cs| - 1] == ClearAllInternalUrls(cs[..|cs| - 1]);
      assert cleared[|cs| - 1] == ClearInternalUrls(cs[|cs| - 1]);
      AllInternalUrlsIgnored(cs[..|cs| - 1], prefix);
      InternalUrlsIgnored(cs[|cs| - 1], prefix);
    }
  }

  // ---------------------------------------------------------------------
  // Reference: the entries described path by path.
  // ---------------------------------------------------------------------

  /** The entry a single root-to-leaf path stands for. */
  function EntryOf(c: Chain, prefix: string): Flat
  {
    match Last(c).url
    case None => Failure(MissingUrl(prefix + PathName(c)))
    case Some(u) => Success([Category(prefix + PathName(c), u)])
  }

  /** The entries of a list of paths, path after path, stopping at the first
      path whose leaf has no url. */
  function Entries(paths: seq<Chain>, prefix: string): Flat
    decreases |paths|
  {
    if paths == [] then Success([])
    else AppendResult(Entries(paths[..|paths| - 1], prefix), EntryOf(paths[|paths| - 1], prefix))
  }

  lemma {:induction false} EntriesAppend(a: seq<Chain>, b: seq<Chain>, prefix: string)
    ensures Entries(a + b, prefix) == AppendResult(Entries(a, prefix), Entries(b, prefix))
    decreases |b|
  {
    if b == [] {
      assert a + b == a;
      AppendResultUnit(Entries(a, prefix));
    } else {
      var b' := b[..|b| - 1];
      assert (a + b)[..|a + b| - 1] == a + b';
      assert (a + b)[|a + b| - 1] == b[|b| - 1];
      EntriesAppend(a, b', prefix);
      AppendResultAssoc(Entries(a, prefix), Entries(b', prefix), EntryOf(b[|b| - 1], prefix));
    }
  }

  /** Putting a node in front of every path is the same as moving its name and
      the separator into the prefix. */
  lemma {:induction false} EntriesExtend(n: Node, paths: seq<Chain>, prefix: string)
    ensures Entries(Extend(n, paths), prefix) == Entries(paths, ChildPrefix(prefix, n))
    decreases |paths|
  {
    if paths != [] {
      var ext := Extend(n, paths);
      var front := paths[..|paths| - 1];
      var c := paths[|paths| - 1];
      assert ext[..|ext| - 1] == Extend(n, front);
      assert ext[|ext| - 1] == [n] + c;
      assert ([n] + c)[1..] == c;
      assert prefix + PathName([n] + c) == ChildPrefix(prefix, n) + PathName(c);
      EntriesExtend(n, front, prefix);
    }
  }

  /** The flattener emits, in pre-order, one entry per root-to-leaf path: the
      path's display name after `prefix`, with the leaf's url. */
  lemma {:induction false} FlattenFollowsLeafPaths(n: Node, prefix: string)
    ensures Flatten(n, prefix) == Entries(LeafPaths(n), prefix)
    decreases n
  {
    match n.children
    case Absent =>
      assert Entries([[n]], prefix) == AppendResult(Success([]), EntryOf([n], prefix));
      AppendResultUnit(EntryOf([n], prefix));
    case Present(cs) =>
      FlattenAllFollowsLeafPaths(cs, ChildPrefix(prefix, n));
      EntriesExtend(n, LeafPathsOf(cs), prefix);
  }

  lemma {:induction false} FlattenAllFollowsLeafPaths(cs: seq<Node>, prefix: string)
    ensures FlattenAll(cs, prefix) == Entries(LeafPathsOf(cs), prefix)
    decreases cs
  {
    if cs != [] {
      var front := cs[..|cs| - 1];
      var last := cs[|cs| - 1];
      FlattenAllFollowsLeafPaths(front, prefix);
      FlattenFollowsLeafPaths(last, prefix);
      EntriesAppend(LeafPathsOf(front), LeafPaths(last), prefix);
    }
  }

  /** Entries succeed exactly when every path ends at a leaf with a url, and
      then entry `i` is path `i`'s name and url. */
  lemma {:induction false} EntriesSucceed(paths: seq<Chain>, prefix: string)
    ensures Entries(paths, prefix).Success? <==> forall i | 0 <= i < |paths| :: Last(paths[i]).url.Some?
    ensures Entries(paths, prefix).Success? ==>
      && |Entries(paths, prefix).value| == |paths|
      && forall i | 0 <= i < |paths| ::
           Entries(paths, prefix).value[i] == Category(prefix + PathName(paths[i]), Last(paths[i]).url.value)
    decreases |paths|
  {
    if paths != [] {
      var front := paths[..|paths| - 1];
      EntriesSucceed(front, prefix);
      if Entries(paths, prefix).Success? {
        var r := Entries(paths, prefix).value;
        forall i | 0 <= i < |paths|
          ensures r[i] == Category(prefix + PathName(paths[i]), Last(paths[i]).url.value)
        {
          if i < |front| {
            assert paths[i] == front[i];
          }
        }
      } else if Entries(front, prefix).Success? {
        assert Last(paths[|paths| - 1]).url.None?;
      } else {
        var k :| 0 <= k < |front| && Last(front[k]).url.None?;
        assert paths[k] == front[k];
      }
    }
  }

  /** When entries fail, the error names the first path, in order, whose leaf
      has no url. */
  lemma {:induction false} EntriesFail(paths: seq<Chain>, prefix: string)
    ensures Entries(paths, prefix).Failure? ==>
      exists k | 0 <= k < |paths| ::
        && Last(paths[k]).url.None?
        && (forall j | 0 <= j < k :: Last(paths[j]).url.Some?)
        && Entries(paths, prefix).error == MissingUrl(prefix + PathName(paths[k]))
    decreases |paths|
  {
    if paths != [] && Entries(paths, prefix).Failure? {
      var front := paths[..|paths| - 1];
      var k := |paths| - 1;
      if Entries(front, prefix).Failure? {
        EntriesFail(front, prefix);
        var k' :| 0 <= k' < |front| && Last(front[k']).url.None?
          && (forall j | 0 <= j < k' :: Last(front[j]).url.Some?)
          && Entries(front, prefix).error == MissingUrl(prefix + PathName(front[k']));
        assert paths[k'] == front[k'];
        assert forall j | 0 <= j < k' :: paths[j] == front[j];
      } else {
        EntriesSucceed(front, prefix);
        assert forall j | 0 <= j < k :: paths[j] == front[j];
        assert Last(paths[k]).url.None?;
      }
    }
  }

  // ---------------------------------------------------------------------
  // The traversal as the source writes it: an accumulating recursive walk.
  // ---------------------------------------------------------------------

  /** `traverse_json`: appends the entries of `category` to `flattened`, or
      stops with the error of the first leaf lacking a url. */
  method TraverseJson(category: Node, parentName: string, flattened: seq<Category>)
    returns (r: Flat)
    ensures r == AppendResult(Success(flattened), Flatten(category, parentName))
    decreases category
  {
    match category.children {
      case Present(cs) =>
        var prefix := parentName + category.name + Separator;
        var acc := flattened;
        var i := 0;
        while i < |cs|
          invariant 0 <= i <= |cs|
          invariant FlattenAll(cs[..i], prefix).Success?
          invariant acc == flattened + FlattenAll(cs[..i], prefix).value
        {
          assert cs[..i + 1][..i] == cs[..i];
          var sub := TraverseJson(cs[i], prefix, acc);
          if sub.Failure? {
            FlattenAllSplit(cs[..i + 1], cs[i + 1..], prefix);
            assert cs[..i + 1] + cs[i + 1..] == cs;
            return sub;
          }
          acc := sub.value;
          i := i + 1;
        }
        assert cs[..i] == cs;
        r := Success(acc);
      case Absent =>
        match category.url {
          case None =>
            r := Failure(MissingUrl(parentName + category.name));
          case Some(u) =>
            r := Success(flattened + [Category(parentName + category.name, u)]);
        }
    }
  }

  /** The whole catalogue, flattened from an empty prefix, succeeds exactly
      when every node without a `children` key has a url; then there is one
      entry per such node, entry `i` coming from the `i`-th of them in
      pre-order and named by its root-to-leaf path. */
  lemma CatalogueEntries(catalogue: Node)
    ensures Flatten(catalogue, "").Success? <==>
      forall m | m in AllNodes(catalogue) && IsLeaf(m) :: m.url.Some?
    ensures Flatten(catalogue, "").Success? ==>
      |Flatten(catalogue, "").value| == |LeafPaths(catalogue)| == LeafCount(catalogue)
    ensures Flatten(catalogue, "").Success? ==> forall i | 0 <= i < |Flatten(catalogue, "").value| ::
      && Flatten(catalogue, "").value[i].name == PathName(LeafPaths(catalogue)[i])
      && Some(Flatten(catalogue, "").value[i].url) == LeavesOf(AllNodes(catalogue))[i].url
  {
    var paths := LeafPaths(catalogue);
    FlattenFollowsLeafPaths(catalogue, "");
    LeafPathsEndAtLeaves(catalogue);
    EntriesSucceed(paths, "");
    var leaves := LeavesOf(AllNodes(catalogue));
    assert forall i | 0 <= i < |paths| :: Last(paths[i]) == leaves[i];
    assert (forall i | 0 <= i < |paths| :: Last(paths[i]).url.Some?)
       <==> (forall m | m in leaves :: m.url.Some?);
    if Flatten(catalogue, "").Success? {
      var r := Flatten(catalogue, "").value;
      forall i | 0 <= i < |r|
        ensures r[i].name == PathName(paths[i])
      {
        assert "" + PathName(paths[i]) == PathName(paths[i]);
      }
    }
  }

  /** `process_catalogue`: flattens the whole catalogue from an empty prefix;
      a leaf catalogue root becomes the single entry of its own name and url. */
  method ProcessCatalogue(catalogue: Node) returns (r: Flat)
    ensures r == Flatten(catalogue, "")
    ensures r.Success? <==> forall m | m in AllNodes(catalogue) && IsLeaf(m) :: m.url.Some?
    ensures r.Success? ==> |r.value| == LeafCount(catalogue)
    ensures r.Failure? ==> exists m | m in AllNodes(catalogue) :: IsLeaf(m) && m.url.None?
    ensures IsLeaf(catalogue) && catalogue.url.Some? ==>
      r == Success([Category(catalogue.name, catalogue.url.value)])
  {
    r := TraverseJson(catalogue, "", []);
    AppendResultUnit(Flatten(catalogue, ""));
    CatalogueEntries(catalogue);
  }
}
