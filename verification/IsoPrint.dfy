/**
  A printer for whole images: any file tree with safe, distinct names is laid
  out behind a primary volume descriptor, and extraction gives the tree back.
  Each entry carries its name in a Rock Ridge entry or in its identifier.
 */
module IsoPrint {
  import opened Common
  import Text
  import opened IsoFormat
  import opened IsoEncode
  import opened IsoExtract

  datatype FileTree = Leaf(mode: uint32, content: Bytes) | Folder(mode: uint32, children: seq<Child>)

  /** An entry of a folder: its name, the record identifier, and whether a Rock Ridge entry carries the name. */
  datatype Child = Child(name: Bytes, id: Bytes, rockRidge: bool, tree: FileTree)

  /** The tree on disk after extraction to `p`. */
  function OnDisk(t: FileTree, p: Path): Tree
    decreases t, 0
  {
    match t
    case Leaf(mode, content) => map[p := File(Permission(mode, false), content)]
    case Folder(mode, cs) => map[p := Dir(Permission(mode, true))] + AllOnDisk(cs, p)
  }

  function AllOnDisk(cs: seq<Child>, p: Path): Tree
    decreases cs, 1
  {
    if cs == [] then map[] else OnDisk(cs[0].tree, p + [cs[0].name]) + AllOnDisk(cs[1..], p)
  }

  /** Permission bits of a mode, or the default. */
  function Permission(mode: uint32, dir: bool): int {
    if mode % 512 != 0 then mode % 512 else if dir then 0x1ED else 0x1A4
  }

  function Depth(t: FileTree): nat
    decreases t, 0
  {
    match t
    case Leaf(_, _) => 1
    case Folder(_, cs) => 1 + Deepest(cs)
  }

  function Deepest(cs: seq<Child>): nat
    decreases cs, 1
  {
    if cs == [] then 0
    else if Depth(cs[0].tree) >= Deepest(cs[1..]) then Depth(cs[0].tree) else Deepest(cs[1..])
  }

  // ---------------------------------------------------------------- sizes

  /** Sectors needed for `n` bytes. */
  function SectorsFor(n: nat): (k: nat)
    ensures n <= k * SECTOR < n + SECTOR
  {
    (n + SECTOR - 1) / SECTOR
  }

  /** Sectors of a tree: a file's content, or one sector per directory entry and then the children. */
  function Sectors(t: FileTree): nat
    decreases t, 0
  {
    match t
    case Leaf(_, content) => SectorsFor(|content|)
    case Folder(_, cs) => |cs| + AllSectors(cs)
  }

  function AllSectors(cs: seq<Child>): nat
    decreases cs, 1
  {
    if cs == [] then 0 else Sectors(cs[0].tree) + AllSectors(cs[1..])
  }

  function Size(t: FileTree): nat {
    match t
    case Leaf(_, content) => |content|
    case Folder(_, cs) => |cs| * SECTOR
  }

  predicate Distinct(cs: seq<Child>) {
    forall i, j :: 0 <= i < j < |cs| ==> cs[i].name != cs[j].name
  }

  /** Sizes fit 32 bits. */
  predicate Sized(t: FileTree)
    decreases t, 0
  {
    Size(t) < 0x1_0000_0000 && (t.Folder? ==> AllSized(t.children))
  }

  predicate AllSized(cs: seq<Child>)
    decreases cs, 1
  {
    cs == [] || (Sized(cs[0].tree) && AllSized(cs[1..]))
  }

  /** Names are distinct in each folder, and records can carry them. */
  predicate Named(t: FileTree)
    decreases t, 0
  {
    t.Folder? ==> Distinct(t.children) && AllNamed(t.children)
  }

  predicate AllNamed(cs: seq<Child>)
    decreases cs, 1
  {
    cs == [] || (Labelled(cs[0]) && Named(cs[0].tree) && AllNamed(cs[1..]))
  }

  /** What the format can carry. */
  predicate Printable(t: FileTree) {
    Sized(t) && Named(t)
  }

  /** Bytes an identifier takes in a record, with its padding. */
  function IdSpace(id: Bytes): nat {
    if |id| % 2 == 0 then |id| + 1 else |id|
  }

  /**
    A record can carry the name: in a Rock Ridge entry, or in an ASCII identifier
    that is the name in any case, followed by dots and perhaps a version.
   */
  predicate Labelled(c: Child) {
    && FileName(c.name) && c.id != [] && c.id != [0] && c.id != [1]
    && if c.rockRidge then IdSpace(c.id) + 5 + |c.name| < 210
       else IdSpace(c.id) < 210 && Ascii(c.id) && ReadsAs(c.id, c.name)
  }

  // ---------------------------------------------------------------- the printer

  function NameEntries(c: Child): seq<Entry> {
    if c.rockRidge then [NM(0, c.name)] else []
  }

  function ChildEntry(c: Child, at: uint32): DirEntry
    requires Sized(c.tree)
  {
    DirEntry(
      c.id, NameEntries(c) + [PX(c.tree.mode, [0, 0, 0, 0])], at, Size(c.tree), Zeros(7),
      if c.tree.Folder? then 2 else 0)
  }

  /** The record the reader should make of the entry. */
  function ChildRecord(c: Child, at: uint32): IsoRecord
    requires Sized(c.tree)
  {
    IsoRecord(c.name, at, Size(c.tree), c.tree.mode, c.tree.Folder?, false)
  }

  /** Children placed one after the other from sector `at`; one directory sector per entry. */
  function Listing(cs: seq<Child>, at: nat): (sectors: seq<seq<DirEntry>>)
    requires AllSized(cs) && at + AllSectors(cs) < 0x1_0000_0000
    ensures |sectors| == |cs|
  {
    if cs == [] then [] else [[ChildEntry(cs[0], at)]] + Listing(cs[1..], at + Sectors(cs[0].tree))
  }

  function Records(cs: seq<Child>, at: nat): (rs: seq<IsoRecord>)
    requires AllSized(cs) && at + AllSectors(cs) < 0x1_0000_0000
    ensures |rs| == |cs|
  {
    if cs == [] then [] else [ChildRecord(cs[0], at)] + Records(cs[1..], at + Sectors(cs[0].tree))
  }

  lemma ChildEntryFits(c: Child, at: uint32)
    requires Labelled(c) && Sized(c.tree)
    ensures Fits(ChildEntry(c, at))
  {
    var es, px := ChildEntry(c, at).entries, PX(c.tree.mode, [0, 0, 0, 0]);
    ModeEntry(c.tree.mode);
    if c.rockRidge {
      assert Encodable(es[0]) && |EncodeEntry(es[0])| == 5 + |c.name|;
      assert es[1..] == [px];
    } else {
      assert es == [px];
    }
  }

  lemma ModeEntry(mode: uint32)
    ensures Encodable(PX(mode, [0, 0, 0, 0])) && |EncodeEntries([PX(mode, [0, 0, 0, 0])])| == 12
  {
    var px := PX(mode, [0, 0, 0, 0]);
    assert [px][1..] == [] && EncodeEntries([px]) == EncodeEntry(px) + [];
  }

  lemma ChildInfo(c: Child, at: uint32)
    requires Sized(c.tree)
    ensures Info(ChildEntry(c, at)) == RockRidge(if c.rockRidge then c.name else [], c.tree.mode, [])
  {
    var es, px := ChildEntry(c, at).entries, PX(c.tree.mode, [0, 0, 0, 0]);
    if c.rockRidge {
      assert es[1..] == [px] && !Bit(0, 2) && !Bit(0, 4);
      assert NO_ROCK_RIDGE.name + c.name == c.name;
      OneEntry(px, Meaning(es[0], NO_ROCK_RIDGE));
    } else {
      assert es == [px];
      OneEntry(px, NO_ROCK_RIDGE);
    }
  }

  /** The entry says what the child is. */
  lemma ChildEntryMeans(fold: Bytes -> Bytes, c: Child, at: uint32)
    requires Labelled(c) && Sized(c.tree)
    ensures Supported(ChildEntry(c, at)) && Expected(fold, ChildEntry(c, at)) == ChildRecord(c, at)
  {
    ChildInfo(c, at);
    if !c.rockRidge { NameReadIff(fold, c.id, c.name); }
    assert !Bit(0, 2) && !Bit(0, 128) && Bit(2, 2) && !Bit(2, 128);
  }

  lemma OneEntry(e: Entry, info: RockRidge)
    ensures Meanings([e], info) == Meaning(e, info)
  {
    assert [e][1..] == [];
  }

  lemma OneEntryFits(c: Child, at: uint32)
    requires Labelled(c) && Sized(c.tree)
    ensures SectorFits([ChildEntry(c, at)])
  {
    ChildEntryFits(c, at);
    ChildEntryMeans(b => b, c, at);
    AloneInSector(ChildEntry(c, at));
  }

  lemma AloneInSector(e: DirEntry)
    requires Fits(e) && Supported(e)
    ensures SectorFits([e])
  {
    assert [e][1..] == [] && EncodeRecords([e]) == EncodeRecord(e) + [];
  }

  lemma OneEntryListed(fold: Bytes -> Bytes, c: Child, at: uint32)
    requires Labelled(c) && Sized(c.tree)
    ensures Listed(fold, [ChildEntry(c, at)]) == [ChildRecord(c, at)]
  {
    ChildEntryMeans(fold, c, at);
    assert [ChildEntry(c, at)][1..] == [];
  }

  /** A property of every printed sector. */
  ghost predicate HoldsOfSectors(ok: seq<DirEntry> -> bool) {
    forall c: Child, at: uint32 {:trigger ChildEntry(c, at)} ::
      Labelled(c) && Sized(c.tree) ==> ok([ChildEntry(c, at)])
  }

  lemma {:induction false} ListingAll(ok: seq<DirEntry> -> bool, cs: seq<Child>, at: nat)
    requires AllSized(cs) && AllNamed(cs) && at + AllSectors(cs) < 0x1_0000_0000 && HoldsOfSectors(ok)
    ensures forall i :: 0 <= i < |cs| ==> ok(Listing(cs, at)[i])
    decreases |cs|
  {
    if cs != [] { ListingAll(ok, cs[1..], at + Sectors(cs[0].tree)); }
  }

  lemma ListingFits(cs: seq<Child>, at: nat)
    requires AllSized(cs) && AllNamed(cs) && at + AllSectors(cs) < 0x1_0000_0000
    ensures DirectoryFits(Listing(cs, at))
  {
    var ok := (es: seq<DirEntry>) => SectorFits(es);
    forall c: Child, e: uint32 | Labelled(c) && Sized(c.tree) ensures SectorFits([ChildEntry(c, e)]) {
      OneEntryFits(c, e);
    }
    ListingAll(ok, cs, at);
  }

  ghost predicate ListsSectors(list: seq<DirEntry> -> seq<IsoRecord>) {
    forall c: Child, at: uint32 {:trigger ChildEntry(c, at)} ::
      Labelled(c) && Sized(c.tree) ==> list([ChildEntry(c, at)]) == [ChildRecord(c, at)]
  }

  lemma {:induction false} ListingFlattens(list: seq<DirEntry> -> seq<IsoRecord>, cs: seq<Child>, at: nat)
    requires AllSized(cs) && AllNamed(cs) && at + AllSectors(cs) < 0x1_0000_0000 && ListsSectors(list)
    ensures Flattened(list, Listing(cs, at)) == Records(cs, at)
    decreases |cs|
  {
    if cs != [] {
      var next := at + Sectors(cs[0].tree);
      ListingFlattens(list, cs[1..], next);
      FlattenedCons(list, [ChildEntry(cs[0], at)], Listing(cs[1..], next));
      assert list([ChildEntry(cs[0], at)]) == [ChildRecord(cs[0], at)];
    }
  }

  lemma FlattenedCons(list: seq<DirEntry> -> seq<IsoRecord>, first: seq<DirEntry>, more: seq<seq<DirEntry>>)
    ensures Flattened(list, [first] + more) == list(first) + Flattened(list, more)
  {
    assert ([first] + more)[1..] == more;
  }

  lemma ListingLists(fold: Bytes -> Bytes, cs: seq<Child>, at: nat)
    requires AllSized(cs) && AllNamed(cs) && at + AllSectors(cs) < 0x1_0000_0000
    ensures ListedAll(fold, Listing(cs, at)) == Records(cs, at)
  {
    forall c: Child, e: uint32 | Labelled(c) && Sized(c.tree)
      ensures Listed(fold, [ChildEntry(c, e)]) == [ChildRecord(c, e)]
    {
      OneEntryListed(fold, c, e);
    }
    ListingFlattens(Lister(fold), cs, at);
  }

  /** The directory of a folder whose children start at sector `at`. */
  function Table(cs: seq<Child>, at: nat): (b: Bytes)
    requires AllSized(cs) && AllNamed(cs) && at + AllSectors(cs) < 0x1_0000_0000
    ensures |b| == |cs| * SECTOR
  {
    ListingFits(cs, at);
    EncodeDirectory(Listing(cs, at))
  }

  /** How folders are written: the directory of the given children, placed from the given sector on. */
  type Tables = (seq<Child>, nat) -> Bytes

  /** One sector per entry. */
  ghost predicate OneSectorEach(table: Tables) {
    forall cs: seq<Child>, next: nat :: |table(cs, next)| == |cs| * SECTOR
  }

  /** The tables of printable folders; for others it does not matter. */
  function PrintedTables(): Tables {
    (cs: seq<Child>, next: nat) =>
      if AllSized(cs) && AllNamed(cs) && next + AllSectors(cs) < 0x1_0000_0000 then Table(cs, next)
      else Zeros(|cs| * SECTOR)
  }

  lemma TablesFill()
    ensures OneSectorEach(PrintedTables())
  {
  }

  /** The sectors of a tree placed at sector `at`. */
  function Body(table: Tables, t: FileTree, at: nat): (b: Bytes)
    requires OneSectorEach(table)
    ensures |b| == Sectors(t) * SECTOR
    decreases t, 0
  {
    match t
    case Leaf(_, content) => content + Zeros(SectorsFor(|content|) * SECTOR - |content|)
    case Folder(_, cs) => FolderBody(table, cs, at + |cs|)
  }

  function FolderBody(table: Tables, cs: seq<Child>, next: nat): (b: Bytes)
    requires OneSectorEach(table)
    ensures |b| == (|cs| + AllSectors(cs)) * SECTOR
    decreases cs, 2
  {
    table(cs, next) + Bodies(table, cs, next)
  }

  function Bodies(table: Tables, cs: seq<Child>, at: nat): (b: Bytes)
    requires OneSectorEach(table)
    ensures |b| == AllSectors(cs) * SECTOR
    decreases cs, 1
  {
    if cs == [] then [] else Body(table, cs[0].tree, at) + Bodies(table, cs[1..], at + Sectors(cs[0].tree))
  }

  /** A root record and the sectors behind the primary volume descriptor. */
  function ImageOf(root: DirEntry, body: Bytes): (image: Image)
    requires Fits(root) && |body| < 0x1000_0000_0000
    ensures |image| == 17 * SECTOR + |body|
  {
    Zeros(16 * SECTOR) + EncodeDescriptor(root) + body
  }

  function RootEntry(t: FileTree): (e: DirEntry)
    requires Printable(t)
    ensures Fits(e)
  {
    ModeEntry(t.mode);
    DirEntry([0], [PX(t.mode, [0, 0, 0, 0])], 17, Size(t), Zeros(7), 2)
  }

  function Print(t: FileTree): Image
    requires Printable(t) && 17 + Sectors(t) < 0x1_0000_0000
  {
    TablesFill();
    ImageOf(RootEntry(t), Body(PrintedTables(), t, 17))
  }

  // ---------------------------------------------------------------- placement

  /** The image holds `b` from sector `at` on. */
  predicate At(image: Image, b: Bytes, at: nat) {
    at * SECTOR + |b| <= |image| && image[at * SECTOR..at * SECTOR + |b|] == b
  }

  /** What an image, or anything else, holds from which sector on. */
  type Holds = (Bytes, nat) -> bool

  function Holder(image: Image): Holds {
    (b: Bytes, at: nat) => At(image, b, at)
  }

  predicate WholeSectors(b: Bytes, k: nat) {
    |b| == k * SECTOR
  }

  /** Holding two parts one behind the other is holding both. */
  ghost predicate SplitsUp(holds: Holds) {
    && (forall a: Bytes, b: Bytes, at: nat {:trigger holds(a + b, at)} :: holds(a + b, at) ==> holds(a, at))
    && (forall a: Bytes, b: Bytes, at: nat, k: nat {:trigger holds(a + b, at), WholeSectors(a, k)} ::
          holds(a + b, at) && WholeSectors(a, k) ==> holds(b, at + k))
  }

  lemma HolderSplitsUp(image: Image)
    ensures SplitsUp(Holder(image))
  {
    forall a: Bytes, b: Bytes, at: nat | At(image, a + b, at) ensures At(image, a, at) {
      assert (a + b)[..|a|] == a;
    }
    forall a: Bytes, b: Bytes, at: nat, k: nat | At(image, a + b, at) && WholeSectors(a, k)
      ensures At(image, b, at + k)
    {
      assert (a + b)[|a|..] == b;
    }
  }

  lemma ImageParts(root: DirEntry, body: Bytes)
    requires Fits(root) && |body| < 0x1000_0000_0000
    ensures At(ImageOf(root, body), EncodeDescriptor(root), 16) && At(ImageOf(root, body), body, 17)
  {
    Text.Slices(Zeros(16 * SECTOR), EncodeDescriptor(root), body);
  }

  lemma ImageRoot(fold: Bytes -> Bytes, root: DirEntry, body: Bytes)
    requires Fits(root) && Supported(root) && Bit(root.flags, 2) && |body| < 0x1000_0000_0000
    ensures RootFrom(RecordParser(fold), ImageOf(root, body), FIRST_DESCRIPTOR) == Ok(Expected(fold, root))
  {
    ImageParts(root, body);
    DescriptorRoundTrip(fold, ImageOf(root, body), 16, root);
  }

  // ---------------------------------------------------------------- the round trip

  /** The printed tree with the records that list its directories. */
  function Placed(t: FileTree, at: nat): Layout
    requires Sized(t) && at + Sectors(t) < 0x1_0000_0000
    decreases t, 0
  {
    match t
    case Leaf(mode, content) => FileNode(Permission(mode, false), content)
    case Folder(mode, cs) => DirNode(Permission(mode, true), Records(cs, at + |cs|), AllPlaced(cs, at + |cs|))
  }

  function AllPlaced(cs: seq<Child>, at: nat): (ts: seq<Layout>)
    requires AllSized(cs) && at + AllSectors(cs) < 0x1_0000_0000
    ensures |ts| == |cs|
    decreases cs, 1
  {
    if cs == [] then [] else [Placed(cs[0].tree, at)] + AllPlaced(cs[1..], at + Sectors(cs[0].tree))
  }

  lemma {:induction false} PlacedHeight(t: FileTree, at: nat)
    requires Sized(t) && at + Sectors(t) < 0x1_0000_0000
    ensures Height(Placed(t, at)) == Depth(t)
    decreases t, 0
  {
    if t.Folder? { AllPlacedHeight(t.children, at + |t.children|); }
  }

  lemma {:induction false} AllPlacedHeight(cs: seq<Child>, at: nat)
    requires AllSized(cs) && at + AllSectors(cs) < 0x1_0000_0000
    ensures HeightAll(AllPlaced(cs, at)) == Deepest(cs)
    decreases cs, 1
  {
    if cs != [] {
      PlacedHeight(cs[0].tree, at);
      AllPlacedHeight(cs[1..], at + Sectors(cs[0].tree));
      assert AllPlaced(cs, at)[1..] == AllPlaced(cs[1..], at + Sectors(cs[0].tree));
    }
  }

  /** Where a tree is placed does not show in its files. */
  lemma {:induction false} PlacedFiles(t: FileTree, at: nat, p: Path)
    requires Sized(t) && at + Sectors(t) < 0x1_0000_0000
    ensures Files(Placed(t, at), p) == OnDisk(t, p)
    decreases t, 0
  {
    if t.Folder? { AllPlacedFiles(t.children, at + |t.children|, p); }
  }

  lemma {:induction false} AllPlacedFiles(cs: seq<Child>, at: nat, p: Path)
    requires AllSized(cs) && at + AllSectors(cs) < 0x1_0000_0000
    ensures FilesAll(Records(cs, at), AllPlaced(cs, at), p) == AllOnDisk(cs, p)
    decreases cs, 1
  {
    if cs != [] {
      var next := at + Sectors(cs[0].tree);
      PlacedFiles(cs[0].tree, at, p + [cs[0].name]);
      AllPlacedFiles(cs[1..], next, p);
      assert AllPlaced(cs, at)[1..] == AllPlaced(cs[1..], next) && Records(cs, at)[1..] == Records(cs[1..], next);
    }
  }

  lemma {:induction false} RecordNames(cs: seq<Child>, at: nat)
    requires AllSized(cs) && at + AllSectors(cs) < 0x1_0000_0000
    ensures forall i :: 0 <= i < |cs| ==> Records(cs, at)[i].name == cs[i].name
    decreases |cs|
  {
    if cs != [] { RecordNames(cs[1..], at + Sectors(cs[0].tree)); }
  }

  /** The record stands for the tree at sector `at`. */
  predicate Describes(r: IsoRecord, t: FileTree, at: nat) {
    r.extent == at && r.size == Size(t) && r.mode == t.mode && r.dir == t.Folder?
  }

  /** Every record of this extent and size is in range and has this content. */
  ghost predicate Gives(src: Reader, at: nat, content: Bytes) {
    forall r: IsoRecord :: r.extent == at && r.size == |content| ==> src.inRange(r) && src.content(r) == content
  }

  /** Every record of this extent and size is in range and lists these records. */
  ghost predicate Lists(src: Reader, at: nat, size: nat, records: seq<IsoRecord>) {
    forall r: IsoRecord :: r.extent == at && r.size == size ==> src.inRange(r) && src.list(r) == Ok(records)
  }

  /** The reader shows the tree where it is placed. */
  ghost predicate Shows(src: Reader, t: FileTree, at: nat)
    requires Sized(t) && at + Sectors(t) < 0x1_0000_0000
    decreases t, 0
  {
    match t
    case Leaf(_, content) => Gives(src, at, content)
    case Folder(_, cs) => Lists(src, at, |cs| * SECTOR, Records(cs, at + |cs|)) && ShowsAll(src, cs, at + |cs|)
  }

  ghost predicate ShowsAll(src: Reader, cs: seq<Child>, at: nat)
    requires AllSized(cs) && at + AllSectors(cs) < 0x1_0000_0000
    decreases cs, 1
  {
    cs == [] || (Shows(src, cs[0].tree, at) && ShowsAll(src, cs[1..], at + Sectors(cs[0].tree)))
  }

  lemma AtGives(fold: Bytes -> Bytes, image: Image, content: Bytes, at: nat)
    requires At(image, content, at)
    ensures Gives(ImageReader(fold, image), at, content)
  {
  }

  lemma AtReads(fold: Bytes -> Bytes, image: Image, table: Bytes, at: nat, records: seq<IsoRecord>)
    requires At(image, table, at) && ReadFrom(RecordParser(fold), table, 0) == Ok(records)
    ensures Lists(ImageReader(fold, image), at, |table|, records)
  {
    forall r: IsoRecord | r.extent == at && r.size == |table|
      ensures InImage(r, image) && Directory(fold, image, r) == Ok(records)
    {
      assert Extent(r, image) == table;
    }
  }

  /** The directory of a folder lists its children. */
  lemma AtLists(fold: Bytes -> Bytes, image: Image, cs: seq<Child>, next: nat, at: nat)
    requires AllSized(cs) && AllNamed(cs) && next + AllSectors(cs) < 0x1_0000_0000 && At(image, Table(cs, next), at)
    ensures Lists(ImageReader(fold, image), at, |cs| * SECTOR, Records(cs, next))
  {
    ListingFits(cs, next);
    ListingLists(fold, cs, next);
    DirectoryRoundTrip(fold, Listing(cs, next));
    AtReads(fold, image, Table(cs, next), at, Records(cs, next));
  }

  /** File contents and directories stand where the tree is placed. */
  predicate Stored(table: Tables, holds: Holds, t: FileTree, at: nat)
    decreases t, 0
  {
    match t
    case Leaf(_, content) => holds(content, at)
    case Folder(_, cs) => holds(table(cs, at + |cs|), at) && AllStored(table, holds, cs, at + |cs|)
  }

  predicate AllStored(table: Tables, holds: Holds, cs: seq<Child>, at: nat)
    decreases cs, 1
  {
    cs == [] || (Stored(table, holds, cs[0].tree, at) && AllStored(table, holds, cs[1..], at + Sectors(cs[0].tree)))
  }

  lemma {:induction false} BodyIsStored(table: Tables, holds: Holds, t: FileTree, at: nat)
    requires OneSectorEach(table) && SplitsUp(holds) && holds(Body(table, t, at), at)
    ensures Stored(table, holds, t, at)
    decreases t, 0
  {
    if t.Leaf? {
      LeafPart(table, holds, t, at);
    } else {
      FolderIsStored(table, holds, t.children, at + |t.children|, at);
    }
  }

  lemma {:induction false} FolderIsStored(table: Tables, holds: Holds, cs: seq<Child>, next: nat, at: nat)
    requires OneSectorEach(table) && SplitsUp(holds) && at + |cs| == next && holds(FolderBody(table, cs, next), at)
    ensures holds(table(cs, next), at) && AllStored(table, holds, cs, next)
    decreases cs, 2
  {
    FolderParts(table, holds, cs, next, at);
    BodiesAreStored(table, holds, cs, next);
  }

  lemma LeafPart(table: Tables, holds: Holds, t: FileTree, at: nat)
    requires OneSectorEach(table) && SplitsUp(holds) && t.Leaf? && holds(Body(table, t, at), at)
    ensures holds(t.content, at)
  {
    var pad := Zeros(SectorsFor(|t.content|) * SECTOR - |t.content|);
    assert Body(table, t, at) == t.content + pad;
  }

  lemma FolderParts(table: Tables, holds: Holds, cs: seq<Child>, next: nat, at: nat)
    requires OneSectorEach(table) && SplitsUp(holds) && at + |cs| == next && holds(FolderBody(table, cs, next), at)
    ensures holds(table(cs, next), at) && holds(Bodies(table, cs, next), next)
  {
    assert WholeSectors(table(cs, next), |cs|);
  }

  lemma {:induction false} BodiesAreStored(table: Tables, holds: Holds, cs: seq<Child>, at: nat)
    requires OneSectorEach(table) && SplitsUp(holds) && holds(Bodies(table, cs, at), at)
    ensures AllStored(table, holds, cs, at)
    decreases cs, 1
  {
    if cs != [] {
      BodiesParts(table, holds, cs, at);
      BodyIsStored(table, holds, cs[0].tree, at);
      BodiesAreStored(table, holds, cs[1..], at + Sectors(cs[0].tree));
    }
  }

  lemma BodiesParts(table: Tables, holds: Holds, cs: seq<Child>, at: nat)
    requires OneSectorEach(table) && SplitsUp(holds) && cs != [] && holds(Bodies(table, cs, at), at)
    ensures
      var next := at + Sectors(cs[0].tree);
      holds(Body(table, cs[0].tree, at), at) && holds(Bodies(table, cs[1..], next), next)
  {
    assert WholeSectors(Body(table, cs[0].tree, at), Sectors(cs[0].tree));
  }

  /** The reader gives and lists what is held. */
  ghost predicate Backs(src: Reader, table: Tables, holds: Holds) {
    && (forall content: Bytes, at: nat {:trigger holds(content, at)} :: holds(content, at) ==> Gives(src, at, content))
    && (forall cs: seq<Child>, next: nat, at: nat {:trigger holds(table(cs, next), at)} ::
          AllSized(cs) && AllNamed(cs) && next + AllSectors(cs) < 0x1_0000_0000 && holds(table(cs, next), at)
          ==> Lists(src, at, |cs| * SECTOR, Records(cs, next)))
  }

  lemma ReaderBacks(fold: Bytes -> Bytes, image: Image)
    ensures Backs(ImageReader(fold, image), PrintedTables(), Holder(image))
  {
    forall content: Bytes, at: nat | At(image, content, at) ensures Gives(ImageReader(fold, image), at, content) {
      AtGives(fold, image, content, at);
    }
    forall cs: seq<Child>, next: nat, at: nat |
      AllSized(cs) && AllNamed(cs) && next + AllSectors(cs) < 0x1_0000_0000 && At(image, Table(cs, next), at)
      ensures Lists(ImageReader(fold, image), at, |cs| * SECTOR, Records(cs, next))
    {
      AtLists(fold, image, cs, next, at);
    }
  }

  lemma {:induction false} StoredShows(src: Reader, table: Tables, holds: Holds, t: FileTree, at: nat)
    requires Printable(t) && at + Sectors(t) < 0x1_0000_0000
    requires Stored(table, holds, t, at) && Backs(src, table, holds)
    ensures Shows(src, t, at)
    decreases t, 0
  {
    if t.Folder? { AllStoredShow(src, table, holds, t.children, at + |t.children|); }
  }

  lemma {:induction false} AllStoredShow(src: Reader, table: Tables, holds: Holds, cs: seq<Child>, at: nat)
    requires AllSized(cs) && AllNamed(cs) && at + AllSectors(cs) < 0x1_0000_0000
    requires AllStored(table, holds, cs, at) && Backs(src, table, holds)
    ensures ShowsAll(src, cs, at)
    decreases cs, 1
  {
    if cs != [] {
      StoredShows(src, table, holds, cs[0].tree, at);
      AllStoredShow(src, table, holds, cs[1..], at + Sectors(cs[0].tree));
    }
  }

  lemma {:induction false} ShownLaysOut(src: Reader, t: FileTree, at: nat, r: IsoRecord)
    requires Printable(t) && at + Sectors(t) < 0x1_0000_0000 && Shows(src, t, at) && Describes(r, t, at)
    ensures LaysOut(src, r, Placed(t, at))
    decreases t, 0
  {
    if t.Folder? {
      var cs, next := t.children, at + |t.children|;
      RecordsDistinct(cs, next);
      ShownAllLaysOut(src, cs, next);
      FolderLaysOut(src, r, Records(cs, next), AllPlaced(cs, next));
    }
  }

  lemma RecordsDistinct(cs: seq<Child>, at: nat)
    requires AllSized(cs) && at + AllSectors(cs) < 0x1_0000_0000 && Distinct(cs)
    ensures DistinctNames(Records(cs, at))
  {
    RecordNames(cs, at);
  }

  lemma FolderLaysOut(src: Reader, r: IsoRecord, records: seq<IsoRecord>, children: seq<Layout>)
    requires r.dir && src.inRange(r) && src.list(r) == Ok(records)
    requires DistinctNames(records) && LaysOutAll(src, records, children)
    ensures LaysOut(src, r, DirNode(Permission(r.mode, true), records, children))
  {
  }

  lemma {:induction false} ShownAllLaysOut(src: Reader, cs: seq<Child>, at: nat)
    requires AllSized(cs) && AllNamed(cs) && at + AllSectors(cs) < 0x1_0000_0000 && ShowsAll(src, cs, at)
    ensures LaysOutAll(src, Records(cs, at), AllPlaced(cs, at))
    decreases cs, 1
  {
    if cs != [] {
      var next := at + Sectors(cs[0].tree);
      ShownLaysOut(src, cs[0].tree, at, ChildRecord(cs[0], at));
      ShownAllLaysOut(src, cs[1..], next);
      LaysOutThenMore(
        src, ChildRecord(cs[0], at), Records(cs[1..], next), Placed(cs[0].tree, at), AllPlaced(cs[1..], next));
    }
  }

  lemma LaysOutThenMore(src: Reader, r: IsoRecord, rs: seq<IsoRecord>, t: Layout, ts: seq<Layout>)
    requires FileName(r.name) && LaysOut(src, r, t) && LaysOutAll(src, rs, ts)
    ensures LaysOutAll(src, [r] + rs, [t] + ts)
  {
    assert ([r] + rs)[1..] == rs && ([t] + ts)[1..] == ts;
  }

  lemma RootEntryMeans(fold: Bytes -> Bytes, t: FileTree)
    requires Printable(t) && t.Folder?
    ensures Supported(RootEntry(t)) && Bit(RootEntry(t).flags, 2) && Describes(Expected(fold, RootEntry(t)), t, 17)
  {
    var e := RootEntry(t);
    OneEntry(PX(t.mode, [0, 0, 0, 0]), NO_ROCK_RIDGE);
    assert !Bit(2, 128) && Bit(2, 2);
  }

  /**
    The round trip of whole images: extracting the printed image of any tree
    that the format can carry succeeds, under every depth bound from the tree's
    depth on, and yields exactly that tree.
   */
  lemma {:induction false} PrintedImageExtracts(fold: Bytes -> Bytes, t: FileTree, depth: nat)
    requires t.Folder? && Printable(t) && 17 + Sectors(t) < 0x1_0000_0000 && depth >= Depth(t)
    ensures ExtractWhole(fold, Print(t), map[], depth) == Outcome(true, OnDisk(t, []))
  {
    var image, root := Print(t), Expected(fold, RootEntry(t));
    PrintShows(fold, t);
    RootEntryMeans(fold, t);
    ShownLaysOut(ImageReader(fold, image), t, 17, root);
    PlacedHeight(t, 17);
    PlacedFiles(t, 17, []);
    ExtractLaidOut(fold, image, root, Placed(t, 17), depth);
  }

  lemma PrintShows(fold: Bytes -> Bytes, t: FileTree)
    requires t.Folder? && Printable(t) && 17 + Sectors(t) < 0x1_0000_0000
    ensures Shows(ImageReader(fold, Print(t)), t, 17)
    ensures RootFrom(RecordParser(fold), Print(t), FIRST_DESCRIPTOR) == Ok(Expected(fold, RootEntry(t)))
  {
    TablesFill();
    var table, holds, body := PrintedTables(), Holder(Print(t)), Body(PrintedTables(), t, 17);
    RootEntryMeans(fold, t);
    ImageRoot(fold, RootEntry(t), body);
    ImageParts(RootEntry(t), body);
    HolderSplitsUp(Print(t));
    BodyIsStored(table, holds, t, 17);
    ReaderBacks(fold, Print(t));
    StoredShows(ImageReader(fold, Print(t)), table, holds, t, 17);
  }

  // ---------------------------------------------------------------- links taken for files

  const LinkRoot := DirEntry([0], [], 17, SECTOR, Zeros(7), 2)

  lemma LinkTableFits(name: Bytes, links: seq<Entry>)
    requires 0 < |name| < 100 && (links == RootLink || links == OverwrittenLink)
    ensures DirectoryFits([[LinkNamed(name, links)]])
  {
    LinksAccepted(b => b, name, links);
    AloneInSector(LinkNamed(name, links));
  }

  /** An image whose root directory holds one symbolic link. */
  function LinkImage(name: Bytes, links: seq<Entry>): Image
    requires 0 < |name| < 100 && (links == RootLink || links == OverwrittenLink)
  {
    LinkTableFits(name, links);
    ImageOf(LinkRoot, EncodeDirectory([[LinkNamed(name, links)]]))
  }

  lemma LinkTableReads(fold: Bytes -> Bytes, name: Bytes, links: seq<Entry>)
    requires 0 < |name| < 100 && (links == RootLink || links == OverwrittenLink)
    ensures DirectoryFits([[LinkNamed(name, links)]])
    ensures ReadFrom(RecordParser(fold), EncodeDirectory([[LinkNamed(name, links)]]), 0)
            == Ok([IsoRecord(name, 0, 0, 0xA1FF, false, false)])
  {
    LinkTableFits(name, links);
    LinkExpected(fold, name, links);
    DirectoryRoundTrip(fold, [[LinkNamed(name, links)]]);
    OneListed(fold, LinkNamed(name, links));
  }

  lemma OneListed(fold: Bytes -> Bytes, e: DirEntry)
    ensures ListedAll(fold, [[e]]) == Kept(Expected(fold, e))
  {
    assert [e][1..] == [] && [[e]][1..] == [];
    assert Listed(fold, [e]) == Kept(Expected(fold, e)) + Listed(fold, [e][1..]);
    assert Flattened(Lister(fold), [[e]]) == Listed(fold, [e]) + Flattened(Lister(fold), [[e]][1..]);
  }

  /** The link ends up on disk as an empty regular file. */
  lemma {:induction false} LinkBecomesFile(fold: Bytes -> Bytes, name: Bytes, links: seq<Entry>, depth: nat)
    requires FileName(name) && |name| < 100 && (links == RootLink || links == OverwrittenLink) && depth >= 2
    ensures ExtractWhole(fold, LinkImage(name, links), map[], depth)
            == Outcome(true, map[[] := Dir(0x1ED), [name] := File(0x1FF, [])])
  {
    var image, r := LinkImage(name, links), IsoRecord(name, 0, 0, 0xA1FF, false, false);
    var root, t := Expected(fold, LinkRoot), DirNode(0x1ED, [r], [FileNode(0x1FF, [])]);
    LinkImageParts(fold, name, links);
    OneFileLaysOut(ImageReader(fold, image), root, r);
    OneFileTree(t, r);
    ExtractLaidOut(fold, image, root, t, depth);
  }

  lemma LinkRootMeans(fold: Bytes -> Bytes)
    ensures Fits(LinkRoot) && Supported(LinkRoot) && Bit(LinkRoot.flags, 2)
    ensures Expected(fold, LinkRoot) == IsoRecord(DOT, 17, SECTOR, 0, true, true)
  {
    assert Info(LinkRoot) == NO_ROCK_RIDGE && Bit(2, 2) && !Bit(2, 128);
  }

  lemma LinkImageParts(fold: Bytes -> Bytes, name: Bytes, links: seq<Entry>)
    requires 0 < |name| < 100 && (links == RootLink || links == OverwrittenLink)
    ensures
      var image, r := LinkImage(name, links), IsoRecord(name, 0, 0, 0xA1FF, false, false);
      && Expected(fold, LinkRoot) == IsoRecord(DOT, 17, SECTOR, 0, true, true)
      && RootFrom(RecordParser(fold), image, FIRST_DESCRIPTOR) == Ok(Expected(fold, LinkRoot))
      && Lists(ImageReader(fold, image), 17, SECTOR, [r]) && Gives(ImageReader(fold, image), 0, [])
  {
    LinkTableReads(fold, name, links);
    LinkRootMeans(fold);
    var table := EncodeDirectory([[LinkNamed(name, links)]]);
    ImageRoot(fold, LinkRoot, table);
    ImageParts(LinkRoot, table);
    AtReads(fold, LinkImage(name, links), table, 17, [IsoRecord(name, 0, 0, 0xA1FF, false, false)]);
    AtGives(fold, LinkImage(name, links), [], 0);
  }

  lemma OneFileLaysOut(src: Reader, root: IsoRecord, r: IsoRecord)
    requires root == IsoRecord(DOT, 17, SECTOR, 0, true, true) && Lists(src, 17, SECTOR, [r]) && Gives(src, 0, [])
    requires r == IsoRecord(r.name, 0, 0, 0xA1FF, false, false) && FileName(r.name)
    ensures LaysOut(src, root, DirNode(0x1ED, [r], [FileNode(0x1FF, [])]))
  {
    var node := FileNode(0x1FF, []);
    assert LaysOut(src, r, node);
    assert [r][1..] == [] && [node][1..] == [];
  }

  lemma OneFileTree(t: Layout, r: IsoRecord)
    requires t == DirNode(0x1ED, [r], [FileNode(0x1FF, [])])
    ensures Files(t, []) == map[[] := Dir(0x1ED), [r.name] := File(0x1FF, [])] && Height(t) == 2
  {
    assert [] + [r.name] == [r.name];
    assert [r][1..] == [] && t.children[1..] == [];
    assert FilesAll([r][1..], t.children[1..], []) == map[];
  }
}
