/**
  Extraction of a whole image into a directory tree
  (internal/providers/mfsbsd/iso.go).  Paths are lists of components below the
  destination, `[]` being the destination itself.
 */
module IsoExtract {
  import opened Common
  import opened IsoFormat
  import opened IsoEncode

  type Path = seq<Bytes>

  datatype Node = Dir(mode: int) | File(mode: int, content: Bytes)

  type Tree = map<Path, Node>

  /** `mode.Perm()`, with the default for a record without permissions. */
  function Permissions(r: IsoRecord): int {
    var perm := r.mode % 512;
    if perm != 0 then perm else if r.dir then 0x1ED else 0x1A4
  }

  predicate IsDir(tree: Tree, p: Path) {
    p in tree && tree[p].Dir?
  }

  /** `os.MkdirAll`: creates what is missing, and fails on a file in the way. */
  function MkdirAll(tree: Tree, p: Path, mode: int): Result<Tree>
    decreases |p|
  {
    if p in tree then (if tree[p].Dir? then Ok(tree) else Err)
    else if p == [] then Ok(tree[p := Dir(mode)])
    else
      var above := MkdirAll(tree, p[..|p| - 1], mode);
      if above.Err? then Err else Ok(above.value[p := Dir(mode)])
  }

  /** What extraction leaves on disk, and whether it succeeded. */
  datatype Outcome = Outcome(ok: bool, tree: Tree)

  /** Creating (or truncating), filling and setting the mode of a file. */
  function ExtractFile(r: IsoRecord, content: Bytes, p: Path, tree: Tree): Outcome
    requires p != []
  {
    var parent := MkdirAll(tree, p[..|p| - 1], 0x1ED);
    if parent.Err? then Outcome(false, tree)
    else if IsDir(parent.value, p) then Outcome(false, parent.value)
    else Outcome(true, parent.value[p := File(Permissions(r), content)])
  }

  /** What extraction needs of an image: range checks, contents and directory listings. */
  datatype Reader = Reader(
    inRange: IsoRecord -> bool, content: IsoRecord -> Bytes, list: IsoRecord -> Result<seq<IsoRecord>>)

  function ImageReader(fold: Bytes -> Bytes, image: Image): Reader {
    Reader(
      r => InImage(r, image),
      r => if InImage(r, image) then Extent(r, image) else [],
      r => Directory(fold, image, r))
  }

  /**
    `extractISORecord`.  The source recurses without a bound; `depth` bounds how
    many nested directories are followed, and running out of it is a failure.
   */
  function Extract(src: Reader, r: IsoRecord, p: Path, tree: Tree, depth: nat): Outcome
    requires !r.dir ==> p != []
    decreases depth, 0
  {
    if depth == 0 || !src.inRange(r) then Outcome(false, tree)
    else if !r.dir then ExtractFile(r, src.content(r), p, tree)
    else
      var made := MkdirAll(tree, p, Permissions(r));
      if made.Err? then Outcome(false, tree)
      else
        var children := src.list(r);
        if children.Err? then Outcome(false, made.value)
        else
          var out := ExtractAll(src, children.value, p, made.value, depth - 1);
          if !out.ok then out else Outcome(true, out.tree[p := Dir(Permissions(r))])
  }

  function ExtractAll(src: Reader, rs: seq<IsoRecord>, p: Path, tree: Tree, depth: nat): Outcome
    decreases depth, |rs| + 1
  {
    if rs == [] then Outcome(true, tree)
    else if !SafeComponent(rs[0].name) then Outcome(false, tree)
    else
      var out := Extract(src, rs[0], p + [rs[0].name], tree, depth);
      if !out.ok then out else ExtractAll(src, rs[1..], p, out.tree, depth)
  }

  // ---------------------------------------------------------------- the code

  class Destination {
    var tree: Tree

    constructor (initial: Tree)
      ensures tree == initial
    {
      tree := initial;
    }

    method WriteFile(r: IsoRecord, content: Bytes, p: Path) returns (ok: bool)
      requires p != []
      modifies this
      ensures Outcome(ok, tree) == ExtractFile(r, content, p, old(tree))
    {
      var parent := MkdirAll(tree, p[..|p| - 1], 0x1ED);
      if parent.Err? {
        return false;
      }
      tree := parent.value;
      if IsDir(tree, p) {
        return false;
      }
      tree := tree[p := File(Permissions(r), content)];
      return true;
    }

    method ExtractRecord(fold: Bytes -> Bytes, image: Image, r: IsoRecord, p: Path, depth: nat) returns (ok: bool)
      requires !r.dir ==> p != []
      modifies this
      ensures Outcome(ok, tree) == Extract(ImageReader(fold, image), r, p, old(tree), depth)
      decreases depth, 0
    {
      ExtractCases(fold, image, r, p, tree, depth);
      if depth == 0 || !InImage(r, image) {
        return false;
      }
      if !r.dir {
        ok := WriteFile(r, Extent(r, image), p);
        return;
      }
      var made := MkdirAll(tree, p, Permissions(r));
      if made.Err? {
        return false;
      }
      tree := made.value;
      ok := ExtractListing(fold, image, r, p, depth - 1);
      if ok {
        tree := tree[p := Dir(Permissions(r))];
      }
    }

    /** Reading a directory that has been made, and extracting what it lists. */
    method ExtractListing(fold: Bytes -> Bytes, image: Image, r: IsoRecord, p: Path, depth: nat) returns (ok: bool)
      modifies this
      ensures Outcome(ok, tree) == ExtractListed(fold, image, r, p, old(tree), depth)
      decreases depth, 2
    {
      var children := ReadDirectory(fold, image, r);
      if children.Err? {
        return false;
      }
      ok := ExtractRecords(fold, image, children.value, p, depth);
    }

    /** The loop over the children of a directory. */
    method ExtractRecords(fold: Bytes -> Bytes, image: Image, rs: seq<IsoRecord>, p: Path, depth: nat)
      returns (ok: bool)
      modifies this
      ensures Outcome(ok, tree) == ExtractAll(ImageReader(fold, image), rs, p, old(tree), depth)
      decreases depth, 1
    {
      assert rs[0..] == rs;
      for i := 0 to |rs|
        invariant ExtractAll(ImageReader(fold, image), rs, p, old(tree), depth)
                  == ExtractAll(ImageReader(fold, image), rs[i..], p, tree, depth)
      {
        assert rs[i..][0] == rs[i] && rs[i..][1..] == rs[i + 1..];
        if !SafeComponent(rs[i].name) {
          return false;
        }
        var extracted := ExtractRecord(fold, image, rs[i], p + [rs[i].name], depth);
        if !extracted {
          return false;
        }
      }
      return true;
    }

    /** `Extract`: find the root, make the destination, extract into it. */
    method ExtractImage(fold: Bytes -> Bytes, image: Image, depth: nat) returns (ok: bool)
      modifies this
      ensures Outcome(ok, tree) == ExtractWhole(fold, image, old(tree), depth)
    {
      var root := ReadPrimaryVolumeRoot(fold, image);
      if root.Err? {
        return false;
      }
      RootIsDirectory(RecordParser(fold), image, FIRST_DESCRIPTOR);
      var made := MkdirAll(tree, [], 0x1ED);
      if made.Err? {
        return false;
      }
      tree := made.value;
      ok := ExtractRecord(fold, image, root.value, [], depth);
    }
  }

  /** Reading the directory at `r`, and extracting what it lists. */
  function ExtractListed(fold: Bytes -> Bytes, image: Image, r: IsoRecord, p: Path, tree: Tree, depth: nat): Outcome {
    var children := Directory(fold, image, r);
    if children.Err? then Outcome(false, tree)
    else ExtractAll(ImageReader(fold, image), children.value, p, tree, depth)
  }

  /** `Extract` on an image. */
  lemma ExtractCases(fold: Bytes -> Bytes, image: Image, r: IsoRecord, p: Path, tree: Tree, depth: nat)
    requires !r.dir ==> p != []
    ensures
      var out, made := Extract(ImageReader(fold, image), r, p, tree, depth), MkdirAll(tree, p, Permissions(r));
      if depth == 0 || !InImage(r, image) then out == Outcome(false, tree)
      else if !r.dir then out == ExtractFile(r, Extent(r, image), p, tree)
      else if made.Err? then out == Outcome(false, tree)
      else
        var below := ExtractListed(fold, image, r, p, made.value, depth - 1);
        out == Outcome(below.ok, if below.ok then below.tree[p := Dir(Permissions(r))] else below.tree)
  {
  }

  lemma {:induction false} RootIsDirectory(parse: Parser, image: Image, offset: nat)
    ensures RootFrom(parse, image, offset).Ok? ==> RootFrom(parse, image, offset).value.dir
    decreases |image| - offset
  {
    if offset + SECTOR <= |image| {
      RootIsDirectory(parse, image, offset + SECTOR);
    }
  }

  function ExtractWhole(fold: Bytes -> Bytes, image: Image, tree: Tree, depth: nat): Outcome {
    var root := RootFrom(RecordParser(fold), image, FIRST_DESCRIPTOR);
    RootIsDirectory(RecordParser(fold), image, FIRST_DESCRIPTOR);
    if root.Err? then Outcome(false, tree)
    else
      var made := MkdirAll(tree, [], 0x1ED);
      if made.Err? then Outcome(false, tree)
      else Extract(ImageReader(fold, image), root.value, [], made.value, depth)
  }

  // ---------------------------------------------------------------- confinement, for every image

  /** A name for one directory entry: not empty, neither `.` nor `..`, with neither a slash nor a zero byte. */
  predicate FileName(name: Bytes) {
    name != [] && name != [46] && name != [46, 46] && forall i :: 0 <= i < |name| ==> name[i] != 47 && name[i] != 0
  }

  /** The check on names lets exactly those through. */
  lemma SafeComponentIff(name: Bytes)
    ensures SafeComponent(name) <==> FileName(name)
  {
    if SafeComponent(name) {
      forall i | 0 <= i < |name| ensures name[i] != 47 && name[i] != 0 { assert name[i] in name; }
    }
  }

  predicate SafePath(p: Path) {
    forall i :: 0 <= i < |p| ==> FileName(p[i])
  }

  /** Content that is some in-range extent of the image. */
  ghost predicate FromReader(src: Reader, content: Bytes) {
    exists r :: src.inRange(r) && content == src.content(r)
  }

  /** What may have happened at path `q` when extracting below `p`. */
  ghost predicate Allowed(src: Reader, p: Path, before: Tree, after: Tree, q: Path)
    requires q in after
  {
    || (q in before && after[q] == before[q])
    || (p <= q && SafePath(q[|p|..]) && (after[q].File? ==> FromReader(src, after[q].content)))
  }

  /** Only paths below `p`, reached through safe components, were created or changed; nothing disappeared. */
  ghost predicate Confined(src: Reader, p: Path, before: Tree, after: Tree) {
    && (forall q :: q in before ==> q in after && (before[q].Dir? ==> after[q].Dir?))
    && (forall q :: q in after ==> Allowed(src, p, before, after, q))
  }

  /** Making a directory whose parent exists. */
  lemma MkdirBelow(tree: Tree, p: Path, mode: int)
    requires p != [] ==> IsDir(tree, p[..|p| - 1])
    ensures MkdirAll(tree, p, mode) ==
      if p !in tree then Ok(tree[p := Dir(mode)]) else if tree[p].Dir? then Ok(tree) else Err
  {
  }

  lemma ConfinedChain(src: Reader, p: Path, a: Tree, b: Tree, c: Tree)
    requires Confined(src, p, a, b) && Confined(src, p, b, c)
    ensures Confined(src, p, a, c)
  {
    forall q | q in c ensures Allowed(src, p, a, c, q) {
      assert Allowed(src, p, b, c, q);
      if q in b { assert Allowed(src, p, a, b, q); }
    }
  }

  lemma ConfinedBelow(src: Reader, p: Path, name: Bytes, a: Tree, b: Tree)
    requires FileName(name) && Confined(src, p + [name], a, b)
    ensures Confined(src, p, a, b)
  {
    forall q | q in b ensures Allowed(src, p, a, b, q) {
      assert Allowed(src, p + [name], a, b, q);
      if p + [name] <= q && SafePath(q[|p| + 1..]) {
        assert q[|p|] == (p + [name])[|p|] == name;
        assert q[|p|..] == [name] + q[|p| + 1..];
      }
    }
  }

  lemma ConfinedUpdate(src: Reader, p: Path, tree: Tree, node: Node)
    requires node.Dir? || FromReader(src, node.content)
    requires node.Dir? || !IsDir(tree, p)
    ensures Confined(src, p, tree, tree[p := node])
  {
    assert p[|p|..] == [];
  }

  /**
    For every image, malformed or not, and for aborted extractions too: what is
    created or changed lies below the destination and is reached only through
    safe components, files hold nothing but in-range extents of the image, and
    no directory that existed is replaced.
   */
  lemma {:induction false} ExtractConfined(src: Reader, r: IsoRecord, p: Path, tree: Tree, depth: nat)
    requires !r.dir ==> p != []
    requires p != [] ==> IsDir(tree, p[..|p| - 1])
    ensures Confined(src, p, tree, Extract(src, r, p, tree, depth).tree)
    decreases depth, 0
  {
    if depth == 0 || !src.inRange(r) {
    } else if !r.dir {
      var content := src.content(r);
      assert FromReader(src, content);
      if !IsDir(tree, p) {
        ConfinedUpdate(src, p, tree, File(Permissions(r), content));
      }
    } else {
      var made := MkdirAll(tree, p, Permissions(r));
      if made.Ok? {
        MkdirBelow(tree, p, Permissions(r));
        ConfinedUpdate(src, p, tree, Dir(Permissions(r)));
        assert Confined(src, p, tree, tree);
        var children := src.list(r);
        if children.Ok? {
          var out := ExtractAll(src, children.value, p, made.value, depth - 1);
          ExtractAllConfined(src, children.value, p, made.value, depth - 1);
          ConfinedChain(src, p, tree, made.value, out.tree);
          ConfinedUpdate(src, p, out.tree, Dir(Permissions(r)));
          ConfinedChain(src, p, tree, out.tree, out.tree[p := Dir(Permissions(r))]);
        }
      }
    }
  }

  lemma {:induction false} ExtractAllConfined(src: Reader, rs: seq<IsoRecord>, p: Path, tree: Tree, depth: nat)
    requires IsDir(tree, p)
    ensures Confined(src, p, tree, ExtractAll(src, rs, p, tree, depth).tree)
    decreases depth, |rs| + 1
  {
    if rs != [] && SafeComponent(rs[0].name) {
      var q := p + [rs[0].name];
      SafeComponentIff(rs[0].name);
      assert q[..|q| - 1] == p;
      var out := Extract(src, rs[0], q, tree, depth);
      ExtractConfined(src, rs[0], q, tree, depth);
      ConfinedBelow(src, p, rs[0].name, tree, out.tree);
      if out.ok {
        ExtractAllConfined(src, rs[1..], p, out.tree, depth);
        ConfinedChain(src, p, tree, out.tree, ExtractAll(src, rs[1..], p, out.tree, depth).tree);
      }
    }
  }

  /** The same for a whole extraction, from any byte string. */
  lemma ImageConfined(fold: Bytes -> Bytes, image: Image, tree: Tree, depth: nat)
    ensures Confined(ImageReader(fold, image), [], tree, ExtractWhole(fold, image, tree, depth).tree)
  {
    var src := ImageReader(fold, image);
    RootIsDirectory(RecordParser(fold), image, FIRST_DESCRIPTOR);
    var root, made := RootFrom(RecordParser(fold), image, FIRST_DESCRIPTOR), MkdirAll(tree, [], 0x1ED);
    assert Confined(src, [], tree, tree);
    if root.Ok? && made.Ok? {
      MkdirBelow(tree, [], 0x1ED);
      ConfinedUpdate(src, [], tree, Dir(0x1ED));
      ExtractConfined(src, root.value, [], made.value, depth);
      ConfinedChain(src, [], tree, made.value, Extract(src, root.value, [], made.value, depth).tree);
    }
  }

  // ---------------------------------------------------------------- the depth bound

  /**
    The bound only cuts recursion off: an extraction that succeeds under some
    bound has the same outcome under every larger one, so that outcome is the one
    of the unbounded recursion.
   */
  lemma {:induction false} DeeperBoundSame(src: Reader, r: IsoRecord, p: Path, tree: Tree, depth: nat, deeper: nat)
    requires !r.dir ==> p != []
    requires depth <= deeper && Extract(src, r, p, tree, depth).ok
    ensures Extract(src, r, p, tree, deeper) == Extract(src, r, p, tree, depth)
    decreases depth, 0
  {
    if r.dir {
      var made := MkdirAll(tree, p, Permissions(r)).value;
      DeeperBoundSameAll(src, src.list(r).value, p, made, depth - 1, deeper - 1);
    }
  }

  lemma {:induction false} DeeperBoundSameAll(
    src: Reader, rs: seq<IsoRecord>, p: Path, tree: Tree, depth: nat, deeper: nat)
    requires depth <= deeper && ExtractAll(src, rs, p, tree, depth).ok
    ensures ExtractAll(src, rs, p, tree, deeper) == ExtractAll(src, rs, p, tree, depth)
    decreases depth, |rs| + 1
  {
    if rs != [] {
      var q := p + [rs[0].name];
      DeeperBoundSame(src, rs[0], q, tree, depth, deeper);
      DeeperBoundSameAll(src, rs[1..], p, Extract(src, rs[0], q, tree, depth).tree, depth, deeper);
    }
  }

  // ---------------------------------------------------------------- images that lay out a tree

  /** A file tree, with the records that list each directory. */
  datatype Layout =
    | FileNode(mode: int, content: Bytes)
    | DirNode(mode: int, records: seq<IsoRecord>, children: seq<Layout>)

  function Height(t: Layout): nat {
    match t
    case FileNode(_, _) => 1
    case DirNode(_, _, children) => 1 + HeightAll(children)
  }

  function HeightAll(ts: seq<Layout>): nat {
    if ts == [] then 0 else if Height(ts[0]) >= HeightAll(ts[1..]) then Height(ts[0]) else HeightAll(ts[1..])
  }

  predicate DistinctNames(rs: seq<IsoRecord>) {
    forall i, j :: 0 <= i < j < |rs| ==> rs[i].name != rs[j].name
  }

  /** The image holds tree `t` at record `r`: contents at the extents, directories listed, names safe and distinct. */
  predicate LaysOut(src: Reader, r: IsoRecord, t: Layout)
    decreases t, 0
  {
    && src.inRange(r) && t.mode == Permissions(r)
    && match t
       case FileNode(_, content) => !r.dir && content == src.content(r)
       case DirNode(_, records, children) =>
         r.dir && src.list(r) == Ok(records) && DistinctNames(records) && LaysOutAll(src, records, children)
  }

  predicate LaysOutAll(src: Reader, rs: seq<IsoRecord>, ts: seq<Layout>)
    decreases ts, 1
  {
    && |rs| == |ts|
    && (rs == [] || (FileName(rs[0].name) && LaysOut(src, rs[0], ts[0]) && LaysOutAll(src, rs[1..], ts[1..])))
  }

  /** The file tree itself, rooted at `p`. */
  function Files(t: Layout, p: Path): Tree
    decreases t, 0
  {
    match t
    case FileNode(mode, content) => map[p := File(mode, content)]
    case DirNode(mode, records, children) => map[p := Dir(mode)] + FilesAll(records, children, p)
  }

  function FilesAll(rs: seq<IsoRecord>, ts: seq<Layout>, p: Path): Tree
    decreases ts, 1
  {
    if rs == [] || ts == [] then map[]
    else Files(ts[0], p + [rs[0].name]) + FilesAll(rs[1..], ts[1..], p)
  }

  lemma {:induction false} FilesBelow(t: Layout, p: Path)
    ensures forall q :: q in Files(t, p) ==> p <= q
    decreases t, 0
  {
    if t.DirNode? { FilesAllBelow(t.records, t.children, p); }
  }

  /** Every path of the children starts with `p` and the name of one of them. */
  lemma {:induction false} FilesAllBelow(rs: seq<IsoRecord>, ts: seq<Layout>, p: Path)
    ensures forall q :: q in FilesAll(rs, ts, p) ==> p < q && exists i :: 0 <= i < |rs| && rs[i].name == q[|p|]
    decreases ts, 1
  {
    if rs != [] && ts != [] {
      var first := p + [rs[0].name];
      FilesBelow(ts[0], first);
      FilesAllBelow(rs[1..], ts[1..], p);
      assert FilesAll(rs, ts, p) == Files(ts[0], first) + FilesAll(rs[1..], ts[1..], p);
      forall q | q in FilesAll(rs, ts, p) ensures p < q && exists i :: 0 <= i < |rs| && rs[i].name == q[|p|] {
        if q in FilesAll(rs[1..], ts[1..], p) {
          var i :| 0 <= i < |rs[1..]| && rs[1..][i].name == q[|p|];
          assert rs[i + 1].name == q[|p|];
        } else {
          assert first <= q;
          assert q[|p|] == first[|p|] == rs[0].name;
        }
      }
    }
  }

  /** Nothing is in the way at `p`: at most the directory itself exists, and its parent does. */
  predicate Ready(tree: Tree, p: Path, dir: bool) {
    && (forall q :: q in tree && p <= q ==> q == p && dir && tree[q].Dir?)
    && (p != [] ==> IsDir(tree, p[..|p| - 1]))
  }

  predicate Clear(tree: Tree, p: Path) {
    forall q :: q in tree ==> !(p <= q)
  }

  predicate ReadyAll(tree: Tree, p: Path, rs: seq<IsoRecord>) {
    IsDir(tree, p) && forall i :: 0 <= i < |rs| ==> Clear(tree, p + [rs[i].name])
  }

  lemma ClearIsReady(tree: Tree, p: Path, name: Bytes, dir: bool)
    requires IsDir(tree, p) && Clear(tree, p + [name])
    ensures Ready(tree, p + [name], dir)
  {
    assert (p + [name])[..|p + [name]| - 1] == p;
  }

  /** Siblings do not get in each other's way. */
  lemma SiblingsStayReady(tree: Tree, p: Path, rs: seq<IsoRecord>, t: Layout)
    requires rs != [] && ReadyAll(tree, p, rs) && DistinctNames(rs)
    ensures ReadyAll(tree + Files(t, p + [rs[0].name]), p, rs[1..])
  {
    var first := p + [rs[0].name];
    var next := tree + Files(t, first);
    FilesBelow(t, first);
    assert !(first <= p);
    forall i | 0 <= i < |rs[1..]| ensures Clear(next, p + [rs[1..][i].name]) {
      var other := p + [rs[1..][i].name];
      assert rs[1..][i] == rs[i + 1] && Clear(tree, p + [rs[i + 1].name]);
      assert other[|p|] != first[|p|];
      forall q | q in next ensures !(other <= q) {
        assert q in tree || (first <= q && q[|p|] == first[|p|]);
      }
    }
  }

  lemma MkdirBelowParent(tree: Tree, p: Path)
    requires p != [] && IsDir(tree, p[..|p| - 1])
    ensures MkdirAll(tree, p[..|p| - 1], 0x1ED) == Ok(tree)
  {
  }

  lemma ExtractFileStep(src: Reader, r: IsoRecord, p: Path, tree: Tree, depth: nat)
    requires depth > 0 && src.inRange(r) && !r.dir && p != [] && IsDir(tree, p[..|p| - 1]) && p !in tree
    ensures Extract(src, r, p, tree, depth) == Outcome(true, tree[p := File(Permissions(r), src.content(r))])
  {
    MkdirBelowParent(tree, p);
  }

  lemma ExtractDirStep(src: Reader, r: IsoRecord, p: Path, tree: Tree, depth: nat, made: Tree, below: Tree)
    requires depth > 0 && src.inRange(r) && r.dir && src.list(r).Ok?
    requires MkdirAll(tree, p, Permissions(r)) == Ok(made)
    requires ExtractAll(src, src.list(r).value, p, made, depth - 1) == Outcome(true, below)
    ensures Extract(src, r, p, tree, depth) == Outcome(true, below[p := Dir(Permissions(r))])
  {
  }

  /**
    Extraction of one record of an image that lays out a tree: it succeeds, for
    any depth bound at least the height of the tree, and adds exactly the tree.
   */
  lemma {:induction false} ExtractTree(src: Reader, r: IsoRecord, t: Layout, p: Path, tree: Tree, depth: nat)
    requires LaysOut(src, r, t) && Ready(tree, p, r.dir) && (r.dir || p != []) && depth >= Height(t)
    ensures Extract(src, r, p, tree, depth) == Outcome(true, tree + Files(t, p))
    decreases t, 0
  {
    if t.FileNode? {
      ExtractFileStep(src, r, p, tree, depth);
      assert tree[p := File(t.mode, t.content)] == tree + map[p := File(t.mode, t.content)];
    } else {
      ExtractDirectory(src, r, t, p, tree, depth);
    }
  }

  lemma {:induction false} ExtractDirectory(src: Reader, r: IsoRecord, t: Layout, p: Path, tree: Tree, depth: nat)
    requires t.DirNode? && src.inRange(r) && t.mode == Permissions(r) && r.dir && src.list(r) == Ok(t.records)
    requires DistinctNames(t.records) && LaysOutAll(src, t.records, t.children)
    requires Ready(tree, p, true) && depth > HeightAll(t.children)
    ensures Extract(src, r, p, tree, depth) == Outcome(true, tree + Files(t, p))
    decreases t.children, 2
  {
    var made := MakeReady(tree, p, t.records, t.mode);
    ExtractChildren(src, t.records, t.children, p, made, depth - 1);
    DirectoryAround(src, r, t, p, tree, depth, made);
  }

  /** The directory around its extracted children. */
  lemma DirectoryAround(src: Reader, r: IsoRecord, t: Layout, p: Path, tree: Tree, depth: nat, made: Tree)
    requires t.DirNode? && src.inRange(r) && t.mode == Permissions(r) && r.dir && src.list(r) == Ok(t.records)
    requires depth > 0 && MkdirAll(tree, p, t.mode) == Ok(made) && (made == tree || made == tree[p := Dir(t.mode)])
    requires ExtractAll(src, t.records, p, made, depth - 1) == Outcome(true, made + FilesAll(t.records, t.children, p))
    ensures Extract(src, r, p, tree, depth) == Outcome(true, tree + Files(t, p))
  {
    ExtractDirStep(src, r, p, tree, depth, made, made + FilesAll(t.records, t.children, p));
    JoinChildren(t, p, tree, made);
  }

  lemma MakeReady(tree: Tree, p: Path, rs: seq<IsoRecord>, mode: int) returns (made: Tree)
    requires Ready(tree, p, true)
    ensures MkdirAll(tree, p, mode) == Ok(made)
    ensures (made == tree || made == tree[p := Dir(mode)]) && ReadyAll(made, p, rs)
  {
    MkdirBelow(tree, p, mode);
    made := MkdirAll(tree, p, mode).value;
    ChildrenReady(tree, made, p, rs, mode);
  }

  lemma JoinChildren(t: Layout, p: Path, tree: Tree, made: Tree)
    requires t.DirNode? && (made == tree || made == tree[p := Dir(t.mode)])
    ensures (made + FilesAll(t.records, t.children, p))[p := Dir(t.mode)] == tree + Files(t, p)
  {
    var below := FilesAll(t.records, t.children, p);
    FilesAllBelow(t.records, t.children, p);
    assert p !in below;
    assert (made + below)[p := Dir(t.mode)] == tree + (map[p := Dir(t.mode)] + below);
  }

  lemma ChildrenReady(tree: Tree, made: Tree, p: Path, rs: seq<IsoRecord>, mode: int)
    requires Ready(tree, p, true) && (made == tree || made == tree[p := Dir(mode)]) && IsDir(made, p)
    ensures ReadyAll(made, p, rs)
  {
    forall i | 0 <= i < |rs| ensures Clear(made, p + [rs[i].name]) {
      var child := p + [rs[i].name];
      forall q | q in made ensures !(child <= q) {
        assert child <= q ==> p <= q && |q| > |p|;
      }
    }
  }

  lemma DistinctTail(rs: seq<IsoRecord>)
    requires rs != [] && DistinctNames(rs)
    ensures DistinctNames(rs[1..])
  {
    assert forall i :: 0 <= i < |rs[1..]| ==> rs[1..][i] == rs[i + 1];
  }

  lemma ExtractAllStep(src: Reader, rs: seq<IsoRecord>, p: Path, tree: Tree, depth: nat, next: Tree, last: Tree)
    requires rs != [] && FileName(rs[0].name)
    requires Extract(src, rs[0], p + [rs[0].name], tree, depth) == Outcome(true, next)
    requires ExtractAll(src, rs[1..], p, next, depth) == Outcome(true, last)
    ensures ExtractAll(src, rs, p, tree, depth) == Outcome(true, last)
  {
  }

  lemma UnionAssociative(a: Tree, b: Tree, c: Tree)
    ensures a + b + c == a + (b + c)
  {
  }

  lemma FilesAllStep(rs: seq<IsoRecord>, ts: seq<Layout>, p: Path, tree: Tree)
    requires rs != [] && ts != []
    ensures tree + Files(ts[0], p + [rs[0].name]) + FilesAll(rs[1..], ts[1..], p) == tree + FilesAll(rs, ts, p)
  {
    UnionAssociative(tree, Files(ts[0], p + [rs[0].name]), FilesAll(rs[1..], ts[1..], p));
  }

  lemma {:induction false} ExtractChildren(
    src: Reader, rs: seq<IsoRecord>, ts: seq<Layout>, p: Path, tree: Tree, depth: nat)
    requires LaysOutAll(src, rs, ts) && DistinctNames(rs) && ReadyAll(tree, p, rs) && depth >= HeightAll(ts)
    ensures ExtractAll(src, rs, p, tree, depth) == Outcome(true, tree + FilesAll(rs, ts, p))
    decreases ts, 1
  {
    if rs == [] {
      assert tree + map[] == tree;
    } else {
      var next := tree + Files(ts[0], p + [rs[0].name]);
      ExtractFirst(src, rs, ts, p, tree, depth);
      SiblingsStayReady(tree, p, rs, ts[0]);
      DistinctTail(rs);
      ExtractChildren(src, rs[1..], ts[1..], p, next, depth);
      FilesAllStep(rs, ts, p, tree);
      ExtractAllStep(src, rs, p, tree, depth, next, tree + FilesAll(rs, ts, p));
    }
  }

  lemma {:induction false} ExtractFirst(
    src: Reader, rs: seq<IsoRecord>, ts: seq<Layout>, p: Path, tree: Tree, depth: nat)
    requires rs != [] && ts != [] && LaysOut(src, rs[0], ts[0]) && ReadyAll(tree, p, rs) && depth >= Height(ts[0])
    ensures Extract(src, rs[0], p + [rs[0].name], tree, depth) == Outcome(true, tree + Files(ts[0], p + [rs[0].name]))
    decreases ts, 0
  {
    ClearIsReady(tree, p, rs[0].name, rs[0].dir);
    ExtractTree(src, rs[0], ts[0], p + [rs[0].name], tree, depth);
  }

  // ---------------------------------------------------------------- images with encoded directories

  /** The bytes are an encoded directory whose entries, but for `.` and `..`, are these records. */
  ghost predicate EncodesRecords(fold: Bytes -> Bytes, data: Bytes, records: seq<IsoRecord>) {
    exists sectors :: DirectoryFits(sectors) && data == EncodeDirectory(sectors) && ListedAll(fold, sectors) == records
  }

  /** Every directory of the tree is encoded at the extent of its record. */
  ghost predicate Encoded(fold: Bytes -> Bytes, image: Image, r: IsoRecord, t: Layout)
    decreases t, 0
  {
    && InImage(r, image) && t.mode == Permissions(r)
    && match t
       case FileNode(_, content) => !r.dir && content == Extent(r, image)
       case DirNode(_, records, children) =>
         && r.dir && EncodesRecords(fold, Extent(r, image), records)
         && DistinctNames(records) && EncodedAll(fold, image, records, children)
  }

  ghost predicate EncodedAll(fold: Bytes -> Bytes, image: Image, rs: seq<IsoRecord>, ts: seq<Layout>)
    decreases ts, 1
  {
    && |rs| == |ts|
    && (rs == [] || (
          && FileName(rs[0].name) && Encoded(fold, image, rs[0], ts[0])
          && EncodedAll(fold, image, rs[1..], ts[1..])))
  }

  lemma EncodedDirectoryLists(fold: Bytes -> Bytes, image: Image, r: IsoRecord, records: seq<IsoRecord>)
    requires InImage(r, image) && EncodesRecords(fold, Extent(r, image), records)
    ensures Directory(fold, image, r) == Ok(records)
  {
    var sectors :| && DirectoryFits(sectors) && Extent(r, image) == EncodeDirectory(sectors)
                   && ListedAll(fold, sectors) == records;
    DirectoryRoundTrip(fold, sectors);
  }

  lemma {:induction false} EncodedLaysOut(fold: Bytes -> Bytes, image: Image, r: IsoRecord, t: Layout)
    requires Encoded(fold, image, r, t)
    ensures LaysOut(ImageReader(fold, image), r, t)
    decreases t, 0
  {
    if t.DirNode? {
      EncodedDirectoryLists(fold, image, r, t.records);
      EncodedAllLaysOut(fold, image, t.records, t.children);
    }
  }

  lemma {:induction false} EncodedAllLaysOut(fold: Bytes -> Bytes, image: Image, rs: seq<IsoRecord>, ts: seq<Layout>)
    requires EncodedAll(fold, image, rs, ts)
    ensures LaysOutAll(ImageReader(fold, image), rs, ts)
    decreases ts, 1
  {
    if rs != [] {
      EncodedLaysOut(fold, image, rs[0], ts[0]);
      EncodedAllLaysOut(fold, image, rs[1..], ts[1..]);
    }
  }

  /**
    The whole image: if the root record of the first primary descriptor has a
    finite tree of encoded directories below it, with distinct safe names and
    in-range extents, extraction into an empty destination succeeds and yields
    exactly that tree, whatever the depth bound beyond its height.
   */
  lemma ExtractImageTree(fold: Bytes -> Bytes, image: Image, root: IsoRecord, t: Layout, depth: nat)
    requires RootFrom(RecordParser(fold), image, FIRST_DESCRIPTOR) == Ok(root)
    requires Encoded(fold, image, root, t) && depth >= Height(t)
    ensures ExtractWhole(fold, image, map[], depth) == Outcome(true, Files(t, []))
  {
    EncodedLaysOut(fold, image, root, t);
    ExtractLaidOut(fold, image, root, t, depth);
  }

  lemma ExtractLaidOut(fold: Bytes -> Bytes, image: Image, root: IsoRecord, t: Layout, depth: nat)
    requires RootFrom(RecordParser(fold), image, FIRST_DESCRIPTOR) == Ok(root) && depth >= Height(t)
    requires LaysOut(ImageReader(fold, image), root, t)
    ensures ExtractWhole(fold, image, map[], depth) == Outcome(true, Files(t, []))
  {
    RootIsDirectory(RecordParser(fold), image, FIRST_DESCRIPTOR);
    assert MkdirAll(map[], [], 0x1ED) == Ok(map[[] := Dir(0x1ED)]);
    ExtractRoot(ImageReader(fold, image), root, t, depth);
  }

  lemma ExtractRoot(src: Reader, root: IsoRecord, t: Layout, depth: nat)
    requires root.dir && LaysOut(src, root, t) && depth >= Height(t)
    ensures Extract(src, root, [], map[[] := Dir(0x1ED)], depth) == Outcome(true, Files(t, []))
  {
    var made: Tree := map[[] := Dir(0x1ED)];
    ExtractTree(src, root, t, [], made, depth);
    RootInFiles(t);
    assert made + Files(t, []) == Files(t, []);
  }

  lemma RootInFiles(t: Layout)
    ensures [] in Files(t, [])
  {
  }
}
