/**
  An encoder for System Use entries, directory records and directories (sections
  9.1 and 6.8.1.1 of ECMA-119, section 4.1 of RRIP, and the encoder in
  internal/providers/mfsbsd/provider_test.go), and the round trips through the
  reader.
 */
module IsoEncode {
  import opened Common
  import opened Text
  import opened IsoFormat

  // ---------------------------------------------------------------- integers

  function Little(v: uint32): (b: Bytes)
    ensures |b| == 4
  {
    [v % 0x100, v / 0x100 % 0x100, v / 0x1_0000 % 0x100, v / 0x100_0000 % 0x100]
  }

  function Big(v: uint32): (b: Bytes)
    ensures |b| == 4
  {
    [v / 0x100_0000 % 0x100, v / 0x1_0000 % 0x100, v / 0x100 % 0x100, v % 0x100]
  }

  lemma LittleRoundTrip(v: uint32)
    ensures Uint32At(Little(v), 0) == v
  {
    assert v == v / 0x100 * 0x100 + v % 0x100;
    assert v / 0x100 == v / 0x1_0000 * 0x100 + v / 0x100 % 0x100;
    assert v / 0x1_0000 == v / 0x100_0000 * 0x100 + v / 0x1_0000 % 0x100;
  }

  lemma Uint32Within(a: Bytes, v: uint32, b: Bytes)
    ensures Uint32At(a + Little(v) + b, |a|) == v
  {
    var d := a + Little(v) + b;
    assert d[|a|] == Little(v)[0] && d[|a| + 1] == Little(v)[1];
    assert d[|a| + 2] == Little(v)[2] && d[|a| + 3] == Little(v)[3];
    LittleRoundTrip(v);
  }

  // ---------------------------------------------------------------- System Use entries

  datatype Component = Component(flags: byte, content: Bytes)

  datatype Entry =
    | NM(flags: byte, name: Bytes)
    | PX(mode: uint32, rest: Bytes)
    | SL(components: seq<Component>)
    | Other(sig: Bytes, payload: Bytes)

  function EncodeComponent(c: Component): (b: Bytes)
    requires |c.content| < 256
    ensures |b| == 2 + |c.content| && b[0] == c.flags && b[1] == |c.content| && b[2..] == c.content
  {
    [c.flags, |c.content|] + c.content
  }

  /** Components of a link that is not continued elsewhere. */
  predicate ComponentOk(c: Component) {
    |c.content| < 256 && !Bit(c.flags, 1)
  }

  predicate ComponentsOk(cs: seq<Component>) {
    cs == [] || (ComponentOk(cs[0]) && ComponentsOk(cs[1..]))
  }

  function EncodeComponents(cs: seq<Component>): Bytes
    requires ComponentsOk(cs)
  {
    if cs == [] then [] else EncodeComponent(cs[0]) + EncodeComponents(cs[1..])
  }

  predicate Encodable(e: Entry) {
    match e
    case NM(_, name) => 5 + |name| < 256
    case PX(_, rest) => 4 <= |rest| && 8 + |rest| < 256
    case SL(cs) => ComponentsOk(cs) && 5 + |EncodeComponents(cs)| < 256
    case Other(sig, payload) =>
      |sig| == 2 && sig != SIG_NM && sig != SIG_PX && sig != SIG_SL && 4 + |payload| < 256
  }

  function Signature(e: Entry): (sig: Bytes)
    requires Encodable(e)
    ensures |sig| == 2
  {
    match e
    case NM(_, _) => SIG_NM
    case PX(_, _) => SIG_PX
    case SL(_) => SIG_SL
    case Other(sig, _) => sig
  }

  function Payload(e: Entry): (p: Bytes)
    requires Encodable(e)
    ensures 4 + |p| < 256
  {
    match e
    case NM(flags, name) => [flags] + name
    case PX(mode, rest) => Little(mode) + rest
    case SL(cs) => [0] + EncodeComponents(cs)
    case Other(_, payload) => payload
  }

  function EncodeEntry(e: Entry): (b: Bytes)
    requires Encodable(e)
    ensures 4 <= |b| < 256 && b[2] == |b|
  {
    Signature(e) + [4 + |Payload(e)|, 1] + Payload(e)
  }

  function EncodeEntries(es: seq<Entry>): Bytes
    requires forall i :: 0 <= i < |es| ==> Encodable(es[i])
  {
    if es == [] then [] else EncodeEntry(es[0]) + EncodeEntries(es[1..])
  }

  // what the entries say

  /** The text of a component: `.` for CURRENT, `..` for PARENT, nothing for ROOT, else its content. */
  function PartText(c: Component): Bytes {
    if Bit(c.flags, 2) then [46] else if Bit(c.flags, 4) then [46, 46] else if Bit(c.flags, 8) then [] else c.content
  }

  function Parts(cs: seq<Component>): seq<Bytes> {
    if cs == [] then [] else [PartText(cs[0])] + Parts(cs[1..])
  }

  function Target(cs: seq<Component>): Bytes {
    Join(Parts(cs), [47])
  }

  function Meaning(e: Entry, info: RockRidge): RockRidge {
    match e
    case NM(flags, name) =>
      info.(name := if Bit(flags, 2) then DOT else if Bit(flags, 4) then DOTDOT else info.name + name)
    case PX(mode, _) => info.(mode := mode)
    case SL(cs) => info.(symlink := Target(cs))
    case Other(_, _) => info
  }

  function Meanings(es: seq<Entry>, info: RockRidge): RockRidge
    decreases |es|
  {
    if es == [] then info else Meanings(es[1..], Meaning(es[0], info))
  }

  // round trips

  /** One turn of the component scan. */
  lemma ComponentStep(entry: Bytes, at: nat, c: Component, rest: seq<Bytes>)
    requires ComponentOk(c)
    requires at + 2 + |c.content| <= |entry| && entry[at..at + 2 + |c.content|] == EncodeComponent(c)
    requires SymlinkParts(entry, at + 2 + |c.content|) == Ok(rest)
    ensures SymlinkParts(entry, at) == Ok([PartText(c)] + rest)
  {
    var b := entry[at..at + 2 + |c.content|];
    assert entry[at] == b[0] && entry[at + 1] == b[1] && entry[at + 2..at + 2 + |c.content|] == b[2..];
  }

  lemma ComponentsStep(entry: Bytes, at: nat, cs: seq<Component>)
    requires ComponentsOk(cs) && cs != [] && at <= |entry| && entry[at..] == EncodeComponents(cs)
    ensures
      var next := at + 2 + |cs[0].content|;
      next <= |entry| && entry[at..next] == EncodeComponent(cs[0]) && entry[next..] == EncodeComponents(cs[1..])
  {
    var next := at + 2 + |cs[0].content|;
    assert entry[at..][..next - at] == entry[at..next] && entry[at..][next - at..] == entry[next..];
  }

  lemma {:induction false} ComponentsRead(entry: Bytes, at: nat, cs: seq<Component>)
    requires ComponentsOk(cs) && at <= |entry| && entry[at..] == EncodeComponents(cs)
    ensures SymlinkParts(entry, at) == Ok(Parts(cs))
    decreases |cs|
  {
    if cs != [] {
      ComponentsStep(entry, at, cs);
      var next, rest := at + 2 + |cs[0].content|, Parts(cs[1..]);
      ComponentsRead(entry, next, cs[1..]);
      ComponentStep(entry, at, cs[0], rest);
    }
  }

  lemma {:induction false} ComponentsRoundTrip(cs: seq<Component>, front: Bytes)
    requires ComponentsOk(cs)
    ensures SymlinkParts(front + EncodeComponents(cs), |front|) == Ok(Parts(cs))
  {
    var entry := front + EncodeComponents(cs);
    assert entry[|front|..] == EncodeComponents(cs);
    ComponentsRead(entry, |front|, cs);
  }

  lemma EntryLayout(e: Entry)
    requires Encodable(e)
    ensures
      var front := Signature(e) + [4 + |Payload(e)|, 1];
      && |front| == 4 && EncodeEntry(e) == front + Payload(e)
      && EncodeEntry(e)[..2] == Signature(e) && EncodeEntry(e)[4..] == Payload(e)
  {
  }

  lemma NameRoundTrip(e: Entry, info: RockRidge)
    requires Encodable(e) && e.NM?
    ensures ApplyEntry(EncodeEntry(e), info) == Ok(Meaning(e, info))
  {
    EntryLayout(e);
    var b := EncodeEntry(e);
    assert b[4..][0] == b[4] && b[4..][1..] == b[5..];
    assert Payload(e)[0] == e.flags && Payload(e)[1..] == e.name;
  }

  lemma ModeRoundTrip(e: Entry, info: RockRidge)
    requires Encodable(e) && e.PX?
    ensures ApplyEntry(EncodeEntry(e), info) == Ok(Meaning(e, info))
  {
    EntryLayout(e);
    var front := Signature(e) + [4 + |Payload(e)|, 1];
    Slices(front, Little(e.mode), e.rest);
    Uint32Within(front, e.mode, e.rest);
  }

  lemma LinkRoundTrip(e: Entry, info: RockRidge)
    requires Encodable(e) && e.SL?
    ensures ApplyEntry(EncodeEntry(e), info) == Ok(Meaning(e, info))
  {
    EntryLayout(e);
    var front := Signature(e) + [4 + |Payload(e)|, 1];
    Slices(front, [0], EncodeComponents(e.components));
    ComponentsRoundTrip(e.components, front + [0]);
    LinkStep(EncodeEntry(e), Parts(e.components), info);
  }

  lemma LinkStep(entry: Bytes, parts: seq<Bytes>, info: RockRidge)
    requires |entry| >= 5 && entry[..2] == SIG_SL && SymlinkParts(entry, 5) == Ok(parts)
    ensures ApplyEntry(entry, info) == Ok(info.(symlink := Join(parts, [47])))
  {
  }

  /** Each kind of entry reads back as its meaning. */
  lemma EntryRoundTrip(e: Entry, info: RockRidge)
    requires Encodable(e)
    ensures ApplyEntry(EncodeEntry(e), info) == Ok(Meaning(e, info))
  {
    match e {
      case NM(_, _) => NameRoundTrip(e, info);
      case PX(_, _) => ModeRoundTrip(e, info);
      case SL(_) => LinkRoundTrip(e, info);
      case Other(_, _) => EntryLayout(e);
    }
  }

  /** Bytes at which the entry scan stops: too few for an entry, or a zero length. */
  predicate Stops(tail: Bytes) {
    |tail| < 4 || tail[2] == 0
  }

  /** One turn of the entry scan. */
  lemma SystemUseStep(b: Bytes, rest: Bytes, info: RockRidge, next: RockRidge)
    requires 4 <= |b| < 256 && b[2] == |b| && ApplyEntry(b, info) == Ok(next)
    ensures SystemUse(b + rest, info) == SystemUse(rest, next)
  {
    var area := b + rest;
    assert area[2] == b[2] && area[..|b|] == b && area[|b|..] == rest;
  }

  /** Encoded entries followed by padding read back as their meaning. */
  lemma {:induction false} SystemUseRoundTrip(es: seq<Entry>, tail: Bytes, info: RockRidge)
    requires Stops(tail) && forall i :: 0 <= i < |es| ==> Encodable(es[i])
    ensures SystemUse(EncodeEntries(es) + tail, info) == Ok(Meanings(es, info))
    decreases |es|
  {
    if es == [] {
      assert EncodeEntries(es) + tail == tail;
    } else {
      var b, rest := EncodeEntry(es[0]), EncodeEntries(es[1..]) + tail;
      Slices(b, EncodeEntries(es[1..]), tail);
      EntryRoundTrip(es[0], info);
      SystemUseRoundTrip(es[1..], tail, Meaning(es[0], info));
      SystemUseStep(b, rest, info, Meaning(es[0], info));
    }
  }

  // ---------------------------------------------------------------- directory records

  /** A directory entry; `date` and `flags` are free, since the reader only looks at two flag bits. */
  datatype DirEntry = DirEntry(id: Bytes, entries: seq<Entry>, extent: uint32, size: uint32, date: Bytes, flags: byte)

  function IdPad(e: DirEntry): Bytes { if |e.id| % 2 == 0 then [0] else [] }

  predicate Fits(e: DirEntry) {
    && 1 <= |e.id| && |e.date| == 7
    && (forall i :: 0 <= i < |e.entries| ==> Encodable(e.entries[i]))
    && 33 + |e.id| + |IdPad(e)| + |EncodeEntries(e.entries)| < 255
  }

  function EvenPad(e: DirEntry): Bytes
    requires Fits(e)
  {
    if (33 + |e.id| + |IdPad(e)| + |EncodeEntries(e.entries)|) % 2 == 0 then [] else [0]
  }

  /** Padding to an even offset, System Use area, padding to an even length. */
  function AfterId(e: DirEntry): Bytes
    requires Fits(e)
  {
    IdPad(e) + (EncodeEntries(e.entries) + EvenPad(e))
  }

  function Body(e: DirEntry): (b: Bytes)
    requires Fits(e)
    ensures 1 <= |b| && 33 + |b| < 256
  {
    e.id + AfterId(e)
  }

  /** Record length, extended attribute length, extent in both byte orders. */
  function HeaderFront(e: DirEntry): (b: Bytes)
    requires Fits(e)
    ensures |b| == 10
  {
    [33 + |Body(e)|, 0] + Little(e.extent) + Big(e.extent)
  }

  /** Date, flags, interleaving, volume sequence number in both byte orders, identifier length. */
  function HeaderTrailer(e: DirEntry): (b: Bytes)
    requires Fits(e)
    ensures |b| == 15 && b[7] == e.flags && b[14] == |e.id|
  {
    e.date + [e.flags, 0, 0, 1, 0, 0, 1, |e.id|]
  }

  function HeaderRear(e: DirEntry): (b: Bytes)
    requires Fits(e)
    ensures |b| == 23
  {
    Little(e.size) + (Big(e.size) + HeaderTrailer(e))
  }

  function Header(e: DirEntry): (b: Bytes)
    requires Fits(e)
    ensures |b| == 33
  {
    HeaderFront(e) + HeaderRear(e)
  }

  function EncodeRecord(e: DirEntry): (b: Bytes)
    requires Fits(e)
    ensures 34 <= |b| < 256 && b[0] == |b|
  {
    Header(e) + Body(e)
  }

  function Info(e: DirEntry): RockRidge {
    Meanings(e.entries, NO_ROCK_RIDGE)
  }

  /** The reader refuses symbolic links and multi-extent files. */
  predicate Supported(e: DirEntry) {
    Info(e).symlink == [] && !Bit(e.flags, 128)
  }

  /** What the reader should make of an entry. */
  function Expected(fold: Bytes -> Bytes, e: DirEntry): IsoRecord {
    IsoRecord(
      if Info(e).name != [] then Info(e).name else NormalizeName(fold, e.id),
      e.extent, e.size, Info(e).mode, Bit(e.flags, 2), e.id == [0] || e.id == [1])
  }

  lemma Uint32Prefix(a: Bytes, b: Bytes, at: nat)
    requires at + 4 <= |a|
    ensures Uint32At(a + b, at) == Uint32At(a, at)
  {
  }

  lemma Uint32Suffix(a: Bytes, b: Bytes, at: nat)
    requires at + 4 <= |b|
    ensures Uint32At(a + b, |a| + at) == Uint32At(b, at)
  {
  }

  lemma SuffixIndex(a: Bytes, b: Bytes, i: nat)
    requires i < |b|
    ensures (a + b)[|a| + i] == b[i]
  {
  }

  lemma ExtentField(e: DirEntry)
    requires Fits(e)
    ensures Uint32At(Header(e), 2) == e.extent
  {
    Uint32Within([33 + |Body(e)|, 0], e.extent, Big(e.extent));
    Uint32Prefix(HeaderFront(e), HeaderRear(e), 2);
  }

  lemma SizeField(e: DirEntry)
    requires Fits(e)
    ensures Uint32At(Header(e), 10) == e.size
  {
    LittleRoundTrip(e.size);
    Uint32Prefix(Little(e.size), Big(e.size) + HeaderTrailer(e), 0);
    Uint32Suffix(HeaderFront(e), HeaderRear(e), 0);
  }

  lemma HeaderFields(e: DirEntry)
    requires Fits(e)
    ensures Uint32At(Header(e), 2) == e.extent && Uint32At(Header(e), 10) == e.size
    ensures Header(e)[25] == e.flags && Header(e)[32] == |e.id|
  {
    ExtentField(e);
    SizeField(e);
    SuffixIndex(Big(e.size), HeaderTrailer(e), 7);
    SuffixIndex(Big(e.size), HeaderTrailer(e), 14);
    SuffixIndex(Little(e.size), Big(e.size) + HeaderTrailer(e), 11);
    SuffixIndex(Little(e.size), Big(e.size) + HeaderTrailer(e), 18);
    SuffixIndex(HeaderFront(e), HeaderRear(e), 15);
    SuffixIndex(HeaderFront(e), HeaderRear(e), 22);
  }

  lemma PrefixIndex(a: Bytes, b: Bytes, i: nat)
    requires i < |a|
    ensures (a + b)[i] == a[i]
  {
  }

  lemma IdField(e: DirEntry)
    requires Fits(e)
    ensures 33 + |e.id| <= |EncodeRecord(e)| && EncodeRecord(e)[33..33 + |e.id|] == e.id
    ensures EncodeRecord(e) == Header(e) + e.id + AfterId(e)
  {
    Slices(Header(e), e.id, AfterId(e));
  }

  lemma UseField(e: DirEntry)
    requires Fits(e)
    ensures EncodeRecord(e)[32] == |e.id| && 33 + |e.id| <= |EncodeRecord(e)|
    ensures EncodeRecord(e)[SystemUseStart(EncodeRecord(e))..] == EncodeEntries(e.entries) + EvenPad(e)
  {
    HeaderFields(e);
    PrefixIndex(Header(e), Body(e), 32);
    IdField(e);
    Slices(Header(e) + e.id, IdPad(e), EncodeEntries(e.entries) + EvenPad(e));
    assert SystemUseStart(EncodeRecord(e)) == 33 + |e.id| + |IdPad(e)|;
  }

  /** The reader on any record whose fields are known. */
  lemma ParseFields(fold: Bytes -> Bytes, record: Bytes, id: Bytes, info: RockRidge)
    requires 34 <= |record| < 256 && record[0] == |record| && id != []
    requires record[32] == |id| && 33 + |id| <= |record| && record[33..33 + |id|] == id
    requires SystemUse(record[SystemUseStart(record)..], NO_ROCK_RIDGE) == Ok(info)
    ensures ParseRecord(fold, record) ==
      if info.symlink == [] && !Bit(record[25], 128)
      then Ok(IsoRecord(
        if info.name != [] then info.name else NormalizeName(fold, id),
        Uint32At(record, 2), Uint32At(record, 10), info.mode, Bit(record[25], 2), id == [0] || id == [1]))
      else Err
  {
    assert record[..record[0]] == record;
  }

  /** A record reads back as its entry, or is refused if it is a symbolic link or multi-extent. */
  lemma {:induction false} RecordRoundTrip(fold: Bytes -> Bytes, e: DirEntry)
    requires Fits(e)
    ensures ParseRecord(fold, EncodeRecord(e)) == if Supported(e) then Ok(Expected(fold, e)) else Err
  {
    HeaderFields(e);
    Uint32Prefix(Header(e), Body(e), 2);
    Uint32Prefix(Header(e), Body(e), 10);
    PrefixIndex(Header(e), Body(e), 25);
    IdField(e);
    UseField(e);
    SystemUseRoundTrip(e.entries, EvenPad(e), NO_ROCK_RIDGE);
    ParseFields(fold, EncodeRecord(e), e.id, Info(e));
  }

  /** A record without a Rock Ridge name is read under the name its identifier spells. */
  lemma PlainRecordName(fold: Bytes -> Bytes, e: DirEntry, name: Bytes)
    requires Fits(e) && Supported(e) && Info(e).name == [] && Ascii(e.id) && e.id != [0] && e.id != [1]
    ensures ParseRecord(fold, EncodeRecord(e)).Ok?
    ensures ParseRecord(fold, EncodeRecord(e)).value.name == name <==> ReadsAs(e.id, name)
  {
    RecordRoundTrip(fold, e);
    NameReadIff(fold, e.id, name);
  }

  // ---------------------------------------------------------------- symbolic links

  lemma EmptyTargetIff(cs: seq<Component>)
    ensures Target(cs) == [] <==> SpellsNothing(cs)
  {
    if |cs| == 1 {
      assert Parts(cs[1..]) == [];
    } else if |cs| > 1 {
      assert Parts(cs)[1..] == Parts(cs[1..]);
      assert |Parts(cs[1..])| >= 1;
      assert 47 in Join(Parts(cs), [47]);
    }
  }

  /** The components of the last symbolic link entry, if there is one. */
  function LastLink(es: seq<Entry>): Option<seq<Component>> {
    if es == [] then None
    else
      var last := es[|es| - 1];
      if last.SL? then Some(last.components) else LastLink(es[..|es| - 1])
  }

  lemma {:induction false} MeaningsSnoc(es: seq<Entry>, e: Entry, info: RockRidge)
    ensures Meanings(es + [e], info) == Meaning(e, Meanings(es, info))
    decreases |es|
  {
    if es == [] {
      assert ([] + [e])[1..] == [];
    } else {
      assert (es + [e])[1..] == es[1..] + [e];
      MeaningsSnoc(es[1..], e, Meaning(es[0], info));
    }
  }

  /** Whatever stands beside it, the last link entry alone decides the target. */
  lemma {:induction false} LastLinkDecides(es: seq<Entry>, info: RockRidge)
    ensures Meanings(es, info).symlink == (if LastLink(es).Some? then Target(LastLink(es).value) else info.symlink)
    decreases |es|
  {
    if es != [] {
      var front, last := es[..|es| - 1], es[|es| - 1];
      assert es == front + [last];
      MeaningsSnoc(front, last, info);
      LastLinkDecides(front, info);
    }
  }

  /** The components spell no target: there is none, or a single one that contributes no text. */
  predicate SpellsNothing(cs: seq<Component>) {
    cs == [] || (|cs| == 1 && PartText(cs[0]) == [])
  }

  /**
    Exactly which records are let through, with any list of System Use entries:
    those that are not multi-extent and whose last symbolic link entry, if there
    is one, spells no target.
   */
  lemma {:induction false} RecordAcceptedIff(fold: Bytes -> Bytes, e: DirEntry)
    requires Fits(e)
    ensures ParseRecord(fold, EncodeRecord(e)).Ok? <==>
            !Bit(e.flags, 128) && (LastLink(e.entries).None? || SpellsNothing(LastLink(e.entries).value))
  {
    RecordRoundTrip(fold, e);
    LastLinkDecides(e.entries, NO_ROCK_RIDGE);
    if LastLink(e.entries).Some? { EmptyTargetIff(LastLink(e.entries).value); }
  }

  /** A symbolic link with its name, its permissions and the given link entries. */
  function LinkNamed(name: Bytes, links: seq<Entry>): DirEntry {
    DirEntry([76], [NM(0, name), PX(0xA1FF, [0, 0, 0, 0])] + links, 0, 0, Zeros(7), 0)
  }

  /** A link to `/`: its one ROOT component contributes no text. */
  const RootLink := [SL([Component(8, [])])]

  /** A link to `etc` whose last link entry has no component. */
  const OverwrittenLink := [SL([Component(0, [101, 116, 99])]), SL([])]

  lemma LinkFits(name: Bytes, links: seq<Entry>)
    requires |name| < 100 && (links == RootLink || links == OverwrittenLink)
    ensures Fits(LinkNamed(name, links))
  {
    var es := LinkNamed(name, links).entries;
    assert es[1..][0] == PX(0xA1FF, [0, 0, 0, 0]) && es[1..][1..] == links;
    ShortLinks();
  }

  lemma LinkSpellsNothing(name: Bytes, links: seq<Entry>)
    requires links == RootLink || links == OverwrittenLink
    ensures LastLink(LinkNamed(name, links).entries).Some?
    ensures SpellsNothing(LastLink(LinkNamed(name, links).entries).value)
  {
    var es := LinkNamed(name, links).entries;
    assert es[|es| - 1] == links[|links| - 1];
    assert Bit(8, 8) && !Bit(8, 2) && !Bit(8, 4);
  }

  lemma ShortLinks()
    ensures forall i :: 0 <= i < |RootLink| ==> Encodable(RootLink[i])
    ensures forall i :: 0 <= i < |OverwrittenLink| ==> Encodable(OverwrittenLink[i])
    ensures |EncodeEntries(RootLink)| == 7 && |EncodeEntries(OverwrittenLink)| == 15
  {
    var root, etc := Component(8, []), Component(0, [101, 116, 99]);
    assert !Bit(8, 1) && !Bit(0, 1);
    assert [root][1..] == [] && [etc][1..] == [];
    assert |EncodeComponents([root])| == 2 && |EncodeComponents([etc])| == 5;
    assert RootLink[1..] == [] && OverwrittenLink[1..] == [SL([])] && [SL([])][1..] == [];
  }

  /**
    Two links the reader takes for ordinary files: one to `/`, and one whose
    target a later, empty link entry overwrites.
   */
  lemma LinksAccepted(fold: Bytes -> Bytes, name: Bytes, links: seq<Entry>)
    requires 0 < |name| < 100 && (links == RootLink || links == OverwrittenLink)
    ensures Fits(LinkNamed(name, links)) && Supported(LinkNamed(name, links))
    ensures ParseRecord(fold, EncodeRecord(LinkNamed(name, links))) == Ok(IsoRecord(name, 0, 0, 0xA1FF, false, false))
  {
    LinkFits(name, links);
    LinkSpellsNothing(name, links);
    LinkExpected(fold, name, links);
    RecordAcceptedIff(fold, LinkNamed(name, links));
    RecordRoundTrip(fold, LinkNamed(name, links));
  }

  lemma LinkExpected(fold: Bytes -> Bytes, name: Bytes, links: seq<Entry>)
    requires name != [] && forall i :: 0 <= i < |links| ==> links[i].SL?
    ensures Expected(fold, LinkNamed(name, links)) == IsoRecord(name, 0, 0, 0xA1FF, false, false)
    ensures !Bit(LinkNamed(name, links).flags, 128)
  {
    LinkInfo(name, links);
    assert !Bit(0, 128) && !Bit(0, 2);
  }

  lemma LinkInfo(name: Bytes, links: seq<Entry>)
    requires forall i :: 0 <= i < |links| ==> links[i].SL?
    ensures Info(LinkNamed(name, links)).name == name && Info(LinkNamed(name, links)).mode == 0xA1FF
  {
    var es := LinkNamed(name, links).entries;
    assert es[1..][0] == PX(0xA1FF, [0, 0, 0, 0]) && es[1..][1..] == links;
    assert !Bit(0, 2) && !Bit(0, 4);
    assert NO_ROCK_RIDGE.name + name == name;
    var named := Meaning(es[0], NO_ROCK_RIDGE);
    LinksKeepName(links, Meaning(es[1], named));
    assert Info(LinkNamed(name, links)) == Meanings(es[1..], named) == Meanings(links, Meaning(es[1], named));
  }

  /** Link entries change neither name nor mode. */
  lemma {:induction false} LinksKeepName(links: seq<Entry>, info: RockRidge)
    requires forall i :: 0 <= i < |links| ==> links[i].SL?
    ensures Meanings(links, info).name == info.name && Meanings(links, info).mode == info.mode
    decreases |links|
  {
    if links != [] { LinksKeepName(links[1..], Meaning(links[0], info)); }
  }

  // ---------------------------------------------------------------- volume descriptors

  /** A primary volume descriptor (section 8.4 of ECMA-119) holding the root record at byte 156. */
  function EncodeDescriptor(root: DirEntry): (b: Bytes)
    requires Fits(root)
    ensures |b| == SECTOR
  {
    [1] + CD001 + Zeros(150) + (EncodeRecord(root) + Zeros(SECTOR - 156 - |EncodeRecord(root)|))
  }

  lemma ParseIgnoresTail(fold: Bytes -> Bytes, record: Bytes, tail: Bytes)
    requires 34 <= |record| < 256 && record[0] == |record|
    ensures ParseRecord(fold, record + tail) == ParseRecord(fold, record)
  {
    var data := record + tail;
    assert data[0] == record[0] && data[..data[0]] == record && record[..record[0]] == record;
  }

  lemma DescriptorFields(root: DirEntry)
    requires Fits(root)
    ensures
      var d := EncodeDescriptor(root);
      && d[0] == 1 && d[1..6] == CD001
      && d[156..] == EncodeRecord(root) + Zeros(SECTOR - 156 - |EncodeRecord(root)|)
  {
    var tail := EncodeRecord(root) + Zeros(SECTOR - 156 - |EncodeRecord(root)|);
    Slices([1], CD001, Zeros(150) + tail);
    Slices([1] + CD001, Zeros(150), tail);
  }

  /** A supported directory record in the first descriptor that is not passed over is the root found. */
  lemma {:induction false} DescriptorRoundTrip(fold: Bytes -> Bytes, image: Image, i: nat, root: DirEntry)
    requires Fits(root) && Supported(root) && Bit(root.flags, 2)
    requires 16 <= i && (i + 1) * SECTOR <= |image| && SectorAt(image, i) == EncodeDescriptor(root)
    requires forall j :: 16 <= j < i ==> Passed(image, j)
    ensures RootFrom(RecordParser(fold), image, FIRST_DESCRIPTOR) == Ok(Expected(fold, root))
  {
    DescriptorFields(root);
    RecordRoundTrip(fold, root);
    ParseIgnoresTail(fold, EncodeRecord(root), Zeros(SECTOR - 156 - |EncodeRecord(root)|));
    RootIsFound(RecordParser(fold), image, 16, i, Expected(fold, root));
  }

  // ---------------------------------------------------------------- directories

  predicate AllFit(es: seq<DirEntry>) {
    forall i :: 0 <= i < |es| ==> Fits(es[i]) && Supported(es[i])
  }

  function EncodeRecords(es: seq<DirEntry>): Bytes
    requires AllFit(es)
  {
    if es == [] then [] else EncodeRecord(es[0]) + EncodeRecords(es[1..])
  }

  function Zeros(n: nat): (b: Bytes)
    ensures |b| == n && forall i :: 0 <= i < n ==> b[i] == 0
  {
    seq(n, _ => 0)
  }

  predicate SectorFits(es: seq<DirEntry>) {
    AllFit(es) && |EncodeRecords(es)| <= SECTOR
  }

  /** Whole records, then zeros to the end of the sector. */
  function EncodeSector(es: seq<DirEntry>): (b: Bytes)
    requires SectorFits(es)
    ensures |b| == SECTOR
  {
    EncodeRecords(es) + Zeros(SECTOR - |EncodeRecords(es)|)
  }

  predicate DirectoryFits(sectors: seq<seq<DirEntry>>) {
    forall i :: 0 <= i < |sectors| ==> SectorFits(sectors[i])
  }

  function EncodeDirectory(sectors: seq<seq<DirEntry>>): (b: Bytes)
    requires DirectoryFits(sectors)
    ensures |b| == |sectors| * SECTOR
  {
    if sectors == [] then [] else EncodeSector(sectors[0]) + EncodeDirectory(sectors[1..])
  }

  /** The records the reader should return for one sector's entries: all but `.` and `..`. */
  function Listed(fold: Bytes -> Bytes, es: seq<DirEntry>): seq<IsoRecord> {
    if es == [] then [] else Kept(Expected(fold, es[0])) + Listed(fold, es[1..])
  }

  function Flattened(list: seq<DirEntry> -> seq<IsoRecord>, sectors: seq<seq<DirEntry>>): seq<IsoRecord> {
    if sectors == [] then [] else list(sectors[0]) + Flattened(list, sectors[1..])
  }

  function Lister(fold: Bytes -> Bytes): seq<DirEntry> -> seq<IsoRecord> {
    (es: seq<DirEntry>) => Listed(fold, es)
  }

  /** The records of all sectors, in order. */
  function ListedAll(fold: Bytes -> Bytes, sectors: seq<seq<DirEntry>>): seq<IsoRecord> {
    Flattened(Lister(fold), sectors)
  }

  /** The reader's parser gives each encoded entry its expected record. */
  ghost predicate Understands(parse: Parser, fold: Bytes -> Bytes, es: seq<DirEntry>)
    requires AllFit(es)
  {
    forall i :: 0 <= i < |es| ==> parse(EncodeRecord(es[i])) == Ok(Expected(fold, es[i]))
  }

  lemma SliceStep(data: Bytes, at: nat, end: nat, first: Bytes, more: Bytes)
    requires at <= end <= |data| && data[at..end] == first + more && first != []
    ensures at + |first| <= end && data[at] == first[0]
    ensures data[at..at + |first|] == first && data[at + |first|..end] == more
  {
    var whole := data[at..end];
    assert whole[0] == data[at];
    assert data[at..at + |first|] == whole[..|first|];
    assert data[at + |first|..end] == whole[|first|..];
  }

  predicate AllZero(b: Bytes) {
    forall i :: 0 <= i < |b| ==> b[i] == 0
  }

  function KeptAll(rs: seq<IsoRecord>): seq<IsoRecord> {
    if rs == [] then [] else Kept(rs[0]) + KeptAll(rs[1..])
  }

  /** Byte strings that carry their own length and parse to these records. */
  ghost predicate Reads(parse: Parser, bs: seq<Bytes>, rs: seq<IsoRecord>) {
    && |bs| == |rs|
    && forall i :: 0 <= i < |bs| ==> bs[i] != [] && bs[i][0] == |bs[i]| && parse(bs[i]) == Ok(rs[i])
  }

  lemma ReadsTail(parse: Parser, bs: seq<Bytes>, rs: seq<IsoRecord>)
    requires bs != [] && Reads(parse, bs, rs)
    ensures Reads(parse, bs[1..], rs[1..])
  {
    assert forall i :: 0 <= i < |bs[1..]| ==> bs[1..][i] == bs[i + 1] && rs[1..][i] == rs[i + 1];
  }

  /** A record that carries its own length stands at `at` and parses to `r`. */
  ghost predicate RecordAt(parse: Parser, data: Bytes, at: nat, b: Bytes, r: IsoRecord) {
    && b != [] && b[0] == |b| && parse(b) == Ok(r)
    && at + |b| <= |data| && data[at] == b[0] && data[at..at + |b|] == b
  }

  type Scan = nat -> Result<seq<IsoRecord>>

  function Scanner(parse: Parser, data: Bytes): Scan {
    (at: nat) => ReadFrom(parse, data, at)
  }

  /** Wherever a record stands, the scan lists it and reads on behind it. */
  ghost predicate ListsRecords(scan: Scan, parse: Parser, data: Bytes) {
    forall at: nat, b: Bytes, r {:trigger RecordAt(parse, data, at, b, r)} ::
      RecordAt(parse, data, at, b, r) ==> scan(at) == Prepend(Kept(r), scan(at + |b|))
  }

  lemma ScannerLists(parse: Parser, data: Bytes)
    ensures ListsRecords(Scanner(parse, data), parse, data)
  {
    forall at: nat, b: Bytes, r | RecordAt(parse, data, at, b, r)
      ensures ReadFrom(parse, data, at) == Prepend(Kept(r), ReadFrom(parse, data, at + |b|))
    {
      RecordRead(parse, data, at, b, r);
    }
  }

  lemma RecordRead(parse: Parser, data: Bytes, at: nat, b: Bytes, r: IsoRecord)
    requires RecordAt(parse, data, at, b, r)
    ensures ReadFrom(parse, data, at) == Prepend(Kept(r), ReadFrom(parse, data, at + |b|))
  {
  }

  lemma ConcatStep(data: Bytes, at: nat, end: nat, bs: seq<Bytes>, pad: Bytes)
    requires at <= end <= |data| && data[at..end] == Concat(bs) + pad && bs != [] && bs[0] != []
    ensures at + |bs[0]| <= end && data[at] == bs[0][0] && data[at..at + |bs[0]|] == bs[0]
    ensures data[at + |bs[0]|..end] == Concat(bs[1..]) + pad
  {
    Slices(bs[0], Concat(bs[1..]), pad);
    SliceStep(data, at, end, bs[0], Concat(bs[1..]) + pad);
  }

  /** Reading on inside a sector that ends at `end`: first the remaining records, then from the padding on. */
  lemma {:induction false} SectorRead(
    scan: Scan, parse: Parser, data: Bytes, at: nat, end: nat, bs: seq<Bytes>, rs: seq<IsoRecord>, pad: Bytes,
    tail: Result<seq<IsoRecord>>)
    requires Reads(parse, bs, rs) && ListsRecords(scan, parse, data)
    requires at <= end <= |data| && data[at..end] == Concat(bs) + pad && scan(end - |pad|) == tail
    ensures scan(at) == Prepend(KeptAll(rs), tail)
    decreases |bs|
  {
    if bs == [] {
      PrependTwice([], [], tail);
      assert Concat(bs) + pad == pad;
    } else {
      ConcatStep(data, at, end, bs, pad);
      ReadsTail(parse, bs, rs);
      SectorRead(scan, parse, data, at + |bs[0]|, end, bs[1..], rs[1..], pad, tail);
      assert RecordAt(parse, data, at, bs[0], rs[0]);
      PrependTwice(Kept(rs[0]), KeptAll(rs[1..]), tail);
    }
  }

  /** Encoded entries as byte strings, with the records they stand for. */
  lemma {:induction false} EntriesAsBytes(parse: Parser, fold: Bytes -> Bytes, es: seq<DirEntry>)
    returns (bs: seq<Bytes>, rs: seq<IsoRecord>)
    requires AllFit(es) && Understands(parse, fold, es)
    ensures Reads(parse, bs, rs) && Concat(bs) == EncodeRecords(es) && KeptAll(rs) == Listed(fold, es)
    decreases |es|
  {
    bs, rs := [], [];
    if es != [] {
      assert Understands(parse, fold, es[1..]) by {
        assert forall i :: 0 <= i < |es[1..]| ==> es[1..][i] == es[i + 1];
      }
      var moreBytes, moreRecords := EntriesAsBytes(parse, fold, es[1..]);
      bs, rs := [EncodeRecord(es[0])] + moreBytes, [Expected(fold, es[0])] + moreRecords;
      ReadsOneMore(parse, EncodeRecord(es[0]), moreBytes, Expected(fold, es[0]), moreRecords);
    }
  }

  lemma ReadsOneMore(parse: Parser, b: Bytes, bs: seq<Bytes>, r: IsoRecord, rs: seq<IsoRecord>)
    requires b != [] && b[0] == |b| && parse(b) == Ok(r) && Reads(parse, bs, rs)
    ensures Reads(parse, [b] + bs, [r] + rs)
    ensures Concat([b] + bs) == b + Concat(bs) && KeptAll([r] + rs) == Kept(r) + KeptAll(rs)
  {
    assert ([b] + bs)[1..] == bs && ([r] + rs)[1..] == rs;
  }

  /** Offsets at which a sector starts. */
  predicate Boundary(base: nat) {
    base == 0 || (base >= SECTOR && Boundary(base - SECTOR))
  }

  /** Zeros skip to the end of the sector that starts at `base`. */
  lemma ZerosSkip(parse: Parser, data: Bytes, base: nat, at: nat)
    requires Boundary(base) && base <= at <= base + SECTOR <= |data| && AllZero(data[at..base + SECTOR])
    ensures ReadFrom(parse, data, at) == ReadFrom(parse, data, base + SECTOR)
  {
    if at < base + SECTOR {
      assert data[at..base + SECTOR][0] == data[at];
      NextInSector(base, at);
    }
  }

  lemma {:induction false} NextInSector(base: nat, at: nat)
    requires Boundary(base) && base <= at < base + SECTOR
    ensures NextSector(at) == base + SECTOR
  {
    if base > 0 { NextInSector(base - SECTOR, at - SECTOR); }
  }

  /** Reading one sector of records and padding. */
  lemma PaddedRead(
    parse: Parser, data: Bytes, base: nat, bs: seq<Bytes>, rs: seq<IsoRecord>, pad: Bytes, tail: Result<seq<IsoRecord>>)
    requires Reads(parse, bs, rs) && AllZero(pad)
    requires Boundary(base) && base + SECTOR <= |data| && data[base..base + SECTOR] == Concat(bs) + pad
    requires ReadFrom(parse, data, base + SECTOR) == tail
    ensures ReadFrom(parse, data, base) == Prepend(KeptAll(rs), tail)
  {
    var end := base + SECTOR;
    SliceEnd(data, base, end, Concat(bs), pad);
    ZerosSkip(parse, data, base, end - |pad|);
    ScannerLists(parse, data);
    SectorRead(Scanner(parse, data), parse, data, base, end, bs, rs, pad, tail);
  }

  lemma SliceEnd(data: Bytes, at: nat, end: nat, front: Bytes, rest: Bytes)
    requires at <= end <= |data| && data[at..end] == front + rest
    ensures at + |rest| <= end && data[end - |rest|..end] == rest
  {
    assert data[end - |rest|..end] == data[at..end][|front|..];
  }

  /** A sector of records, then zeros, that lists these records. */
  ghost predicate SectorOf(parse: Parser, block: Bytes, list: seq<IsoRecord>) {
    |block| == SECTOR && exists bs, rs, pad :: Holds(parse, block, list, bs, rs, pad)
  }

  ghost predicate Holds(
    parse: Parser, block: Bytes, list: seq<IsoRecord>, bs: seq<Bytes>, rs: seq<IsoRecord>, pad: Bytes)
  {
    Reads(parse, bs, rs) && AllZero(pad) && block == Concat(bs) + pad && list == KeptAll(rs)
  }

  lemma BlockRead(
    parse: Parser, data: Bytes, base: nat, block: Bytes, list: seq<IsoRecord>, tail: Result<seq<IsoRecord>>)
    requires SectorOf(parse, block, list)
    requires Boundary(base) && base + SECTOR <= |data| && data[base..base + SECTOR] == block
    requires ReadFrom(parse, data, base + SECTOR) == tail
    ensures ReadFrom(parse, data, base) == Prepend(list, tail)
  {
    var bs, rs, pad :| Holds(parse, block, list, bs, rs, pad);
    PaddedRead(parse, data, base, bs, rs, pad, tail);
  }

  /** Reading on from a sector boundary. */
  lemma {:induction false} BlocksRead(
    parse: Parser, data: Bytes, base: nat, blocks: seq<Bytes>, lists: seq<seq<IsoRecord>>)
    requires |blocks| == |lists| && forall i :: 0 <= i < |blocks| ==> SectorOf(parse, blocks[i], lists[i])
    requires Boundary(base) && base <= |data| && data[base..|data|] == Concat(blocks)
    ensures ReadFrom(parse, data, base) == Ok(Concat(lists))
    decreases |blocks|
  {
    if blocks != [] {
      SliceStep(data, base, |data|, blocks[0], Concat(blocks[1..]));
      BlocksRead(parse, data, base + SECTOR, blocks[1..], lists[1..]);
      BlockRead(parse, data, base, blocks[0], lists[0], Ok(Concat(lists[1..])));
    }
  }

  lemma EncodedSector(parse: Parser, fold: Bytes -> Bytes, es: seq<DirEntry>)
    requires SectorFits(es) && Understands(parse, fold, es)
    ensures SectorOf(parse, EncodeSector(es), Listed(fold, es))
  {
    var bs, rs := EntriesAsBytes(parse, fold, es);
    assert Holds(parse, EncodeSector(es), Listed(fold, es), bs, rs, Zeros(SECTOR - |EncodeRecords(es)|));
  }

  /**
    The directory round trip: for every list of entries laid out in sectors, the
    reader returns exactly the entries other than `.` and `..`, in order, with
    their extent, size, mode, directory flag and name.
   */
  lemma {:induction false} DirectoryRoundTrip(fold: Bytes -> Bytes, sectors: seq<seq<DirEntry>>)
    requires DirectoryFits(sectors)
    ensures ReadFrom(RecordParser(fold), EncodeDirectory(sectors), 0) == Ok(ListedAll(fold, sectors))
  {
    var parse := RecordParser(fold);
    forall i | 0 <= i < |sectors| ensures Understands(parse, fold, sectors[i]) {
      forall j | 0 <= j < |sectors[i]| ensures parse(EncodeRecord(sectors[i][j])) == Ok(Expected(fold, sectors[i][j])) {
        RecordRoundTrip(fold, sectors[i][j]);
      }
    }
    var data := EncodeDirectory(sectors);
    assert data[0..|data|] == data;
    var blocks, lists := DirectoryAsBlocks(parse, fold, sectors);
    BlocksRead(parse, data, 0, blocks, lists);
  }

  /** An encoded directory as its sectors, with the records they list. */
  lemma {:induction false} DirectoryAsBlocks(parse: Parser, fold: Bytes -> Bytes, sectors: seq<seq<DirEntry>>)
    returns (blocks: seq<Bytes>, lists: seq<seq<IsoRecord>>)
    requires DirectoryFits(sectors)
    requires forall i :: 0 <= i < |sectors| ==> Understands(parse, fold, sectors[i])
    ensures |blocks| == |lists| && forall i :: 0 <= i < |blocks| ==> SectorOf(parse, blocks[i], lists[i])
    ensures Concat(blocks) == EncodeDirectory(sectors) && Concat(lists) == ListedAll(fold, sectors)
    decreases |sectors|
  {
    blocks, lists := [], [];
    if sectors != [] {
      EncodedSector(parse, fold, sectors[0]);
      var moreBlocks, moreLists := DirectoryAsBlocks(parse, fold, sectors[1..]);
      blocks, lists := [EncodeSector(sectors[0])] + moreBlocks, [Listed(fold, sectors[0])] + moreLists;
      assert blocks[1..] == moreBlocks && lists[1..] == moreLists;
    }
  }
}
