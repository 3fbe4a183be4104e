/**
  The ISO 9660 / Rock Ridge reader (internal/providers/mfsbsd/iso.go): volume
  descriptors, directory records, System Use entries.  Every function is total
  on byte strings, so each index and slice below is proved to stay in range.
 */
module IsoFormat {
  import opened Common
  import opened Text

  const SECTOR: int := 2048

  newtype int64 = x: int | -0x8000_0000_0000_0000 <= x < 0x8000_0000_0000_0000

  type uint32 = x: int | 0 <= x < 0x1_0000_0000

  datatype IsoRecord = IsoRecord(name: Bytes, extent: uint32, size: uint32, mode: uint32, dir: bool, special: bool)

  datatype RockRidge = RockRidge(name: Bytes, mode: uint32, symlink: Bytes)

  const NO_ROCK_RIDGE := RockRidge([], 0, [])

  const DOT: Bytes := [46]
  const DOTDOT: Bytes := [46, 46]
  const SIG_NM: Bytes := [78, 77]
  const SIG_PX: Bytes := [80, 88]
  const SIG_SL: Bytes := [83, 76]

  /** A single-bit test, `b & mask != 0`. */
  predicate Bit(b: byte, mask: int)
    requires mask in {1, 2, 4, 8, 128}
  {
    (b / mask) % 2 == 1
  }

  /** `binary.LittleEndian.Uint32`. */
  function Uint32At(data: Bytes, at: nat): uint32
    requires at + 4 <= |data|
  {
    data[at] as int + 0x100 * data[at + 1] as int + 0x1_0000 * data[at + 2] as int + 0x100_0000 * data[at + 3] as int
  }

  // ---------------------------------------------------------------- symbolic links

  function SymlinkPart(flags: byte, content: Bytes): Bytes {
    if Bit(flags, 2) then DOT else if Bit(flags, 4) then DOTDOT else if Bit(flags, 8) then [] else content
  }

  /** The component scan from `offset`; every step moves it forward by at least two. */
  function SymlinkParts(entry: Bytes, offset: nat): Result<seq<Bytes>>
    decreases |entry| - offset
  {
    if offset >= |entry| then Ok([])
    else if offset + 2 > |entry| then Err
    else
      var flags, length := entry[offset], entry[offset + 1];
      if offset + 2 + length > |entry| || Bit(flags, 1) then Err
      else
        var next := offset + 2 + length;
        Prepend([SymlinkPart(flags, entry[offset + 2..next])], SymlinkParts(entry, next))
  }

  /** `parseRockRidgeSymlink`. */
  function Symlink(entry: Bytes): Result<Bytes> {
    if |entry| < 5 then Err
    else
      var parts := SymlinkParts(entry, 5);
      if parts.Err? then Err else Ok(Join(parts.value, [47]))
  }

  method ParseRockRidgeSymlink(entry: Bytes) returns (r: Result<Bytes>)
    ensures r == Symlink(entry)
  {
    if |entry| < 5 {
      return Err;
    }
    var parts: seq<Bytes> := [];
    var offset := 5;
    PrependTwice(parts, [], SymlinkParts(entry, 5));
    while offset < |entry|
      invariant offset >= 5 && SymlinkParts(entry, 5) == Prepend(parts, SymlinkParts(entry, offset))
      decreases |entry| - offset
    {
      if offset + 2 > |entry| {
        return Err;
      }
      var flags, length := entry[offset], entry[offset + 1];
      if offset + 2 + length > |entry| {
        return Err;
      }
      var part := SymlinkPart(flags, entry[offset + 2..offset + 2 + length]);
      if Bit(flags, 1) {
        return Err;
      }
      PrependTwice(parts, [part], SymlinkParts(entry, offset + 2 + length));
      parts := parts + [part];
      offset := offset + 2 + length;
    }
    assert parts + [] == parts;
    return Ok(Join(parts, [47]));
  }

  // ---------------------------------------------------------------- System Use area

  /** What one well-sized entry does to the collected information. */
  function ApplyEntry(entry: Bytes, info: RockRidge): Result<RockRidge>
    requires |entry| >= 4
  {
    var sig := entry[..2];
    if sig == SIG_NM then
      if |entry| < 5 then Err
      else if Bit(entry[4], 2) then Ok(info.(name := DOT))
      else if Bit(entry[4], 4) then Ok(info.(name := DOTDOT))
      else Ok(info.(name := info.name + entry[5..]))
    else if sig == SIG_PX then
      if |entry| >= 12 then Ok(info.(mode := Uint32At(entry, 4))) else Ok(info)
    else if sig == SIG_SL then
      var target := Symlink(entry);
      if target.Err? then Err else Ok(info.(symlink := target.value))
    else Ok(info)
  }

  /** The entry scan; each entry consumes at least four bytes. */
  function SystemUse(area: Bytes, info: RockRidge): Result<RockRidge>
    decreases |area|
  {
    if |area| < 4 || area[2] == 0 then Ok(info)
    else if area[2] < 4 || area[2] > |area| then Err
    else
      var next := ApplyEntry(area[..area[2]], info);
      if next.Err? then Err else SystemUse(area[area[2]..], next.value)
  }

  method ApplyRockRidgeEntry(entry: Bytes, info: RockRidge) returns (r: Result<RockRidge>)
    requires |entry| >= 4
    ensures r == ApplyEntry(entry, info)
  {
    if entry[..2] == SIG_SL {
      var target := ParseRockRidgeSymlink(entry);
      return if target.Err? then Err else Ok(info.(symlink := target.value));
    }
    return ApplyEntry(entry, info);
  }

  /** `parseRockRidge`. */
  method ParseRockRidge(area: Bytes) returns (r: Result<RockRidge>)
    ensures r == SystemUse(area, NO_ROCK_RIDGE)
  {
    var rest, info := area, NO_ROCK_RIDGE;
    while |rest| >= 4
      invariant SystemUse(area, NO_ROCK_RIDGE) == SystemUse(rest, info)
      decreases |rest|
    {
      var length := rest[2];
      if length == 0 {
        break;
      }
      if length < 4 || length > |rest| {
        return Err;
      }
      var next := ApplyRockRidgeEntry(rest[..length], info);
      if next.Err? {
        return Err;
      }
      info := next.value;
      rest := rest[length..];
    }
    return Ok(info);
  }

  // ---------------------------------------------------------------- names

  function LowerByte(b: byte): byte {
    if 65 <= b <= 90 then b + 32 else b
  }

  /** `strings.ToLower`; `fold` is what it does to names that are not ASCII. */
  function ToLowerName(fold: Bytes -> Bytes, name: Bytes): Bytes {
    if forall i :: 0 <= i < |name| ==> name[i] < 128
    then seq(|name|, i requires 0 <= i < |name| => LowerByte(name[i]))
    else fold(name)
  }

  function TrimVersion(name: Bytes): Bytes {
    if |name| >= 2 && name[|name| - 2..] == [59, 49] then name[..|name| - 2] else name
  }

  function TrimDots(name: Bytes): Bytes {
    if name != [] && name[|name| - 1] == 46 then TrimDots(name[..|name| - 1]) else name
  }

  /** `normalizeISO9660Name`. */
  function NormalizeName(fold: Bytes -> Bytes, id: Bytes): Bytes {
    if id == [0] then DOT else if id == [1] then DOTDOT else ToLowerName(fold, TrimDots(TrimVersion(id)))
  }

  // what the name read from an identifier is, without trimming

  predicate Ascii(b: Bytes) {
    forall i :: 0 <= i < |b| ==> b[i] < 128
  }

  /** The same letters in lower case. */
  predicate Lowered(name: Bytes, stem: Bytes) {
    && |name| == |stem|
    && forall i :: 0 <= i < |stem| ==> name[i] == if 65 <= stem[i] <= 90 then stem[i] + 32 else stem[i]
  }

  predicate EndsInVersion(id: Bytes) {
    |id| >= 2 && id[|id| - 2] == 59 && id[|id| - 1] == 49
  }

  /** Dots, with or without the version `;1` behind them. */
  predicate Trailer(t: Bytes) {
    || (forall i :: 0 <= i < |t| ==> t[i] == 46)
    || (EndsInVersion(t) && forall i :: 0 <= i < |t| - 2 ==> t[i] == 46)
  }

  /**
    The identifier is the stem, then dots, then perhaps a version.  The stem ends
    in no dot, and a version at the very end is never part of it.
   */
  predicate StemOf(id: Bytes, stem: Bytes) {
    && stem <= id && Trailer(id[|stem|..])
    && (stem == [] || stem[|stem| - 1] != 46)
    && (|stem| == |id| ==> !EndsInVersion(id))
  }

  /** The identifier has the name, in any case, as its stem. */
  predicate ReadsAs(id: Bytes, name: Bytes) {
    |name| <= |id| && StemOf(id, id[..|name|]) && Lowered(name, id[..|name|])
  }

  lemma {:induction false} TrimDotsShape(name: Bytes)
    ensures TrimDots(name) <= name && forall i :: |TrimDots(name)| <= i < |name| ==> name[i] == 46
    ensures TrimDots(name) == [] || TrimDots(name)[|TrimDots(name)| - 1] != 46
  {
    if name != [] && name[|name| - 1] == 46 { TrimDotsShape(name[..|name| - 1]); }
  }

  lemma TrimmedIsStem(id: Bytes)
    ensures StemOf(id, TrimDots(TrimVersion(id)))
  {
    TrimVersionShape(id);
    TrimDotsShape(TrimVersion(id));
    TrailerShape(id, TrimVersion(id), TrimDots(TrimVersion(id)));
  }

  lemma TrimVersionShape(id: Bytes)
    ensures TrimVersion(id) <= id && |TrimVersion(id)| == if EndsInVersion(id) then |id| - 2 else |id|
  {
    if |id| >= 2 {
      assert id[|id| - 2..][0] == id[|id| - 2] && id[|id| - 2..][1] == id[|id| - 1];
    }
  }

  lemma TrailerShape(id: Bytes, cut: Bytes, stem: Bytes)
    requires stem <= cut <= id && |cut| == if EndsInVersion(id) then |id| - 2 else |id|
    requires forall i :: |stem| <= i < |cut| ==> cut[i] == 46
    ensures stem <= id && Trailer(id[|stem|..])
  {
    var t := id[|stem|..];
    assert forall i :: 0 <= i < |t| ==> t[i] == id[|stem| + i];
    assert forall i :: 0 <= i < |cut| - |stem| ==> t[i] == cut[|stem| + i];
  }

  /** An identifier has one stem. */
  lemma StemNoLonger(id: Bytes, a: Bytes, b: Bytes)
    requires StemOf(id, a) && StemOf(id, b)
    ensures |b| <= |a|
  {
    var t, u := id[|a|..], id[|b|..];
    assert forall i :: 0 <= i < |t| ==> t[i] == id[|a| + i];
    assert forall i :: 0 <= i < |u| ==> u[i] == id[|b| + i];
  }

  lemma StemIs(id: Bytes, stem: Bytes)
    requires StemOf(id, stem)
    ensures TrimDots(TrimVersion(id)) == stem
  {
    var trimmed := TrimDots(TrimVersion(id));
    TrimmedIsStem(id);
    StemNoLonger(id, stem, trimmed);
    StemNoLonger(id, trimmed, stem);
    assert stem == id[..|stem|] && trimmed == id[..|trimmed|];
  }

  lemma LoweredIff(fold: Bytes -> Bytes, stem: Bytes, name: Bytes)
    requires Ascii(stem)
    ensures ToLowerName(fold, stem) == name <==> Lowered(name, stem)
  {
  }

  /** Exactly which name is read from an ASCII identifier. */
  lemma {:induction false} NameReadIff(fold: Bytes -> Bytes, id: Bytes, name: Bytes)
    requires Ascii(id) && id != [0] && id != [1]
    ensures NormalizeName(fold, id) == name <==> ReadsAs(id, name)
  {
    var stem := TrimDots(TrimVersion(id));
    TrimmedIsStem(id);
    LoweredIff(fold, stem, name);
    if ReadsAs(id, name) { StemIs(id, id[..|name|]); }
    assert stem == id[..|stem|];
  }

  /** A stem with a byte beyond ASCII is lowered as Go does it. */
  lemma FoldedName(fold: Bytes -> Bytes, id: Bytes, stem: Bytes)
    requires StemOf(id, stem) && id != [0] && id != [1] && exists i :: 0 <= i < |stem| && stem[i] >= 128
    ensures NormalizeName(fold, id) == fold(stem)
  {
    StemIs(id, stem);
  }

  /** The four ways to write a stem: bare, with dots, with a version, with both. */
  lemma StemReads(fold: Bytes -> Bytes, stem: Bytes, dots: Bytes, version: bool)
    requires Ascii(stem) && stem != [] && stem[|stem| - 1] != 46 && (forall i :: 0 <= i < |dots| ==> dots[i] == 46)
    requires !version && dots == [] ==> stem != [0] && stem != [1] && !EndsInVersion(stem)
    ensures Lowered(NormalizeName(fold, stem + dots + (if version then [59, 49] else [])), stem)
  {
    var rest: Bytes := if version then [59, 49] else [];
    var name := seq(|stem|, i requires 0 <= i < |stem| => LowerByte(stem[i]));
    DotsAreTrailer(dots, version);
    SpellsName(stem, dots + rest, name);
    assert stem + dots + rest == stem + (dots + rest);
    NameReadIff(fold, stem + dots + rest, name);
  }

  lemma DotsAreTrailer(dots: Bytes, version: bool)
    requires forall i :: 0 <= i < |dots| ==> dots[i] == 46
    ensures Trailer(dots + (if version then [59, 49] else []))
  {
    var t := dots + [59, 49];
    assert t[|t| - 2] == 59 && t[|t| - 1] == 49 && forall i :: 0 <= i < |dots| ==> t[i] == 46;
    assert dots + [] == dots;
  }

  lemma SpellsName(stem: Bytes, t: Bytes, name: Bytes)
    requires stem != [] && stem[|stem| - 1] != 46 && Lowered(name, stem) && Trailer(t)
    requires t == [] ==> !EndsInVersion(stem)
    ensures ReadsAs(stem + t, name)
  {
    assert (stem + t)[..|name|] == stem && (stem + t)[|stem|..] == t;
    assert t == [] ==> stem + t == stem;
  }

  /** `safeISOPathComponent`, with `/` as the path separator. */
  predicate SafeComponent(name: Bytes) {
    name != [] && name != DOT && name != DOTDOT && 0 !in name && 47 !in name
  }

  // ---------------------------------------------------------------- directory records

  /** `parseISODirectoryRecord` (section 9.1 of ECMA-119). */
  function ParseRecord(fold: Bytes -> Bytes, data: Bytes): Result<IsoRecord> {
    if |data| == 0 then Err
    else if data[0] == 0 then Ok(IsoRecord([], 0, 0, 0, false, true))
    else if data[0] < 34 || data[0] > |data| then Err
    else ParseWhole(fold, data[..data[0]])
  }

  function SystemUseStart(record: Bytes): (start: nat)
    requires |record| >= 34 && 33 + record[32] <= |record|
    ensures start <= |record|
  {
    var idEnd := 33 + record[32] as int;
    if record[32] % 2 == 0 && idEnd < |record| then idEnd + 1 else idEnd
  }

  /** A record cut to its own length. */
  function ParseWhole(fold: Bytes -> Bytes, record: Bytes): Result<IsoRecord>
    requires |record| >= 34
  {
    if record[32] == 0 || 33 + record[32] > |record| then Err
    else
      var id := record[33..33 + record[32]];
      var rr := SystemUse(record[SystemUseStart(record)..], NO_ROCK_RIDGE);
      if rr.Err? || rr.value.symlink != [] || Bit(record[25], 128) then Err
      else Ok(IsoRecord(
        if rr.value.name != [] then rr.value.name else NormalizeName(fold, id),
        Uint32At(record, 2), Uint32At(record, 10), rr.value.mode, Bit(record[25], 2), id == [0] || id == [1]))
  }

  method ParseDirectoryRecord(fold: Bytes -> Bytes, data: Bytes) returns (r: Result<IsoRecord>)
    ensures r == ParseRecord(fold, data)
  {
    if |data| == 0 {
      return Err;
    }
    if data[0] == 0 {
      return Ok(IsoRecord([], 0, 0, 0, false, true));
    }
    if data[0] < 34 || data[0] > |data| {
      return Err;
    }
    var record := data[..data[0]];
    var idLength := record[32];
    if idLength == 0 || 33 + idLength > |record| {
      return Err;
    }
    var id := record[33..33 + idLength];
    var rr := ParseRockRidge(record[SystemUseStart(record)..]);
    if rr.Err? || rr.value.symlink != [] || Bit(record[25], 128) {
      return Err;
    }
    var name := if rr.value.name != [] then rr.value.name else NormalizeName(fold, id);
    var special := id == [0] || id == [1];
    return Ok(IsoRecord(
      name, Uint32At(record, 2), Uint32At(record, 10), rr.value.mode, Bit(record[25], 2), special));
  }

  // ---------------------------------------------------------------- extents

  /**
    `validateISOExtent` in 64-bit arithmetic: no operation overflows, since the
    end of any extent is below 2^44.
   */
  function ValidExtent(r: IsoRecord, imageSize: int64): (ok: bool)
    ensures ok <==> r.extent * SECTOR + r.size <= imageSize as int
    ensures r.extent * SECTOR + r.size < 0x1000_0000_0000
  {
    var start := r.extent as int64 * 2048;
    var end := start + r.size as int64;
    !(imageSize < 0 || start > imageSize || end > imageSize)
  }

  /** An image whose size fits the file offset type. */
  type Image = b: Bytes | |b| < 0x8000_0000_0000_0000

  predicate InImage(r: IsoRecord, image: Image) {
    ValidExtent(r, |image| as int64)
  }

  /** The bytes of an extent. */
  function Extent(r: IsoRecord, image: Image): (data: Bytes)
    requires InImage(r, image)
    ensures |data| == r.size
  {
    image[r.extent * SECTOR..r.extent * SECTOR + r.size]
  }

  // ---------------------------------------------------------------- directories

  /** Where the next sector starts. */
  function NextSector(offset: nat): (next: nat)
    ensures offset < next <= offset + SECTOR
  {
    if offset < SECTOR then SECTOR else SECTOR + NextSector(offset - SECTOR)
  }

  /** The code's way of computing it. */
  lemma {:induction false} NextSectorByDivision(offset: nat)
    ensures NextSector(offset) == (offset / SECTOR + 1) * SECTOR
  {
    if offset >= SECTOR {
      NextSectorByDivision(offset - SECTOR);
      assert offset / SECTOR == (offset - SECTOR) / SECTOR + 1;
    }
  }

  type Parser = Bytes -> Result<IsoRecord>

  /** The record parser as a value, for the directory scan. */
  function RecordParser(fold: Bytes -> Bytes): Parser {
    data => ParseRecord(fold, data)
  }

  function Kept(r: IsoRecord): seq<IsoRecord> {
    if r.special then [] else [r]
  }

  /**
    The record scan from `offset` (section 6.8.1.1 of ECMA-119): a zero length
    byte skips to the next sector, anything else is a record.
   */
  function ReadFrom(parse: Parser, data: Bytes, offset: nat): Result<seq<IsoRecord>>
    decreases |data| - offset
  {
    if offset >= |data| then Ok([])
    else if data[offset] == 0 then ReadFrom(parse, data, NextSector(offset))
    else if offset + data[offset] > |data| then Err
    else
      var child := parse(data[offset..offset + data[offset]]);
      if child.Err? then Err
      else Prepend(Kept(child.value), ReadFrom(parse, data, offset + data[offset]))
  }

  /** `readISODirectory`. */
  function Directory(fold: Bytes -> Bytes, image: Image, r: IsoRecord): Result<seq<IsoRecord>> {
    if InImage(r, image) then ReadFrom(RecordParser(fold), Extent(r, image), 0) else Err
  }

  method ReadDirectory(fold: Bytes -> Bytes, image: Image, r: IsoRecord) returns (records: Result<seq<IsoRecord>>)
    ensures records == Directory(fold, image, r)
  {
    if !InImage(r, image) {
      return Err;
    }
    records := ScanRecords(RecordParser(fold), Extent(r, image));
  }

  /** The scanning loop; its offset grows on every turn. */
  method ScanRecords(parse: Parser, data: Bytes) returns (records: Result<seq<IsoRecord>>)
    ensures records == ReadFrom(parse, data, 0)
  {
    var found: seq<IsoRecord> := [];
    var offset := 0;
    ghost var whole := ReadFrom(parse, data, 0);
    PrependTwice(found, [], whole);
    while offset < |data|
      invariant offset >= 0 && whole == Prepend(found, ReadFrom(parse, data, offset))
      decreases |data| - offset
    {
      var length := data[offset];
      if length == 0 {
        offset := SkipSector(offset);
        continue;
      }
      if offset + length > |data| {
        return Err;
      }
      var child := parse(data[offset..offset + length]);
      if child.Err? {
        return Err;
      }
      ScanRecord(parse, data, offset, whole, found, child.value);
      if !child.value.special {
        found := found + [child.value];
      }
      offset := offset + length;
    }
    assert found + [] == found;
    return Ok(found);
  }

  /** The start of the next sector, as the code computes it. */
  method SkipSector(offset: nat) returns (next: nat)
    ensures next == NextSector(offset)
  {
    NextSectorByDivision(offset);
    next := (offset / SECTOR + 1) * SECTOR;
  }

  /** Reading one record: it joins those found so far. */
  lemma ScanRecord(
    parse: Parser, data: Bytes, offset: nat, whole: Result<seq<IsoRecord>>, found: seq<IsoRecord>, child: IsoRecord)
    requires offset < |data| && data[offset] != 0 && offset + data[offset] <= |data|
    requires parse(data[offset..offset + data[offset]]) == Ok(child)
    requires whole == Prepend(found, ReadFrom(parse, data, offset))
    ensures whole
            == Prepend(if child.special then found else found + [child], ReadFrom(parse, data, offset + data[offset]))
  {
    PrependTwice(found, Kept(child), ReadFrom(parse, data, offset + data[offset]));
    assert found + [] == found;
  }

  // ---------------------------------------------------------------- volume descriptors

  const CD001: Bytes := [67, 68, 48, 48, 49]

  function SectorAt(image: Image, i: nat): (s: Bytes)
    requires (i + 1) * SECTOR <= |image|
    ensures |s| == SECTOR
  {
    image[i * SECTOR..(i + 1) * SECTOR]
  }

  /** The root record of a primary volume descriptor. */
  function RootIn(parse: Parser, d: Bytes): Result<IsoRecord>
    requires |d| == SECTOR
  {
    var root := parse(d[156..]);
    if root.Ok? && root.value.dir then root else Err
  }

  /** The descriptor scan from `offset`, one sector at a time. */
  function RootFrom(parse: Parser, image: Image, offset: nat): Result<IsoRecord>
    decreases |image| - offset
  {
    if offset + SECTOR > |image| then Err
    else
      var d := image[offset..offset + SECTOR];
      if d[1..6] != CD001 || d[0] == 255 then Err
      else if d[0] == 1 then RootIn(parse, d)
      else RootFrom(parse, image, offset + SECTOR)
  }

  /** Descriptors start at sector 16 (section 8.1 of ECMA-119). */
  const FIRST_DESCRIPTOR: nat := 16 * SECTOR

  /** `readPrimaryVolumeRoot`. */
  method ReadPrimaryVolumeRoot(fold: Bytes -> Bytes, image: Image) returns (r: Result<IsoRecord>)
    ensures r == RootFrom(RecordParser(fold), image, FIRST_DESCRIPTOR)
  {
    var offset := FIRST_DESCRIPTOR;
    ghost var parse := RecordParser(fold);
    ghost var found := RootFrom(parse, image, offset);
    while offset + SECTOR <= |image|
      invariant offset >= 0 && found == RootFrom(parse, image, offset)
      decreases |image| - offset
    {
      var d := image[offset..offset + SECTOR];
      if d[1..6] != CD001 {
        return Err;
      }
      if d[0] == 1 {
        var root := ParseDirectoryRecord(fold, d[156..]);
        return if root.Ok? && root.value.dir then root else Err;
      }
      if d[0] == 255 {
        return Err;
      }
      offset := offset + SECTOR;
    }
    return Err;
  }

  /** Sector `i` is a descriptor that the scan passes over. */
  predicate Passed(image: Image, i: nat) {
    && (i + 1) * SECTOR <= |image|
    && var d := SectorAt(image, i); d[1..6] == CD001 && d[0] != 1 && d[0] != 255
  }

  /** Sector `i` is a primary volume descriptor with a usable root record. */
  predicate Primary(parse: Parser, image: Image, i: nat, root: IsoRecord) {
    && (i + 1) * SECTOR <= |image|
    && var d := SectorAt(image, i); d[1..6] == CD001 && d[0] == 1 && parse(d[156..]) == Ok(root) && root.dir
  }

  /** Sector `i` is the first descriptor that is not passed over, and it gives the root. */
  predicate RootAt(parse: Parser, image: Image, start: nat, i: nat, root: IsoRecord) {
    start <= i && Primary(parse, image, i, root) && forall j :: start <= j < i ==> Passed(image, j)
  }

  /** One turn of the scan at sector `i`. */
  lemma RootTurn(parse: Parser, image: Image, i: nat)
    requires (i + 1) * SECTOR <= |image|
    ensures
      var d := SectorAt(image, i);
      RootFrom(parse, image, i * SECTOR)
        == if d[1..6] != CD001 || d[0] == 255 then Err
           else if d[0] == 1 then RootIn(parse, d)
           else RootFrom(parse, image, (i + 1) * SECTOR)
  {
  }

  lemma {:induction false} RootIsFound(parse: Parser, image: Image, start: nat, i: nat, root: IsoRecord)
    requires RootAt(parse, image, start, i, root)
    ensures RootFrom(parse, image, start * SECTOR) == Ok(root)
    decreases i - start
  {
    if start < i {
      assert Passed(image, start);
      RootIsFound(parse, image, start + 1, i, root);
    }
    RootTurn(parse, image, start);
  }

  lemma {:induction false} FoundRootIsAt(parse: Parser, image: Image, start: nat) returns (i: nat)
    requires RootFrom(parse, image, start * SECTOR).Ok?
    ensures RootAt(parse, image, start, i, RootFrom(parse, image, start * SECTOR).value)
    decreases |image| - start * SECTOR
  {
    RootTurn(parse, image, start);
    if SectorAt(image, start)[0] == 1 {
      i := start;
    } else {
      assert Passed(image, start);
      i := FoundRootIsAt(parse, image, start + 1);
    }
  }

  /** The scan finds a root exactly when some primary descriptor comes before any terminator or foreign sector. */
  lemma RootFoundIff(parse: Parser, image: Image, root: IsoRecord)
    ensures RootFrom(parse, image, FIRST_DESCRIPTOR) == Ok(root)
            <==> exists i :: 16 <= i && RootAt(parse, image, 16, i, root)
  {
    if RootFrom(parse, image, 16 * SECTOR) == Ok(root) {
      var i := FoundRootIsAt(parse, image, 16);
    }
    forall i | 16 <= i && RootAt(parse, image, 16, i, root)
      ensures RootFrom(parse, image, FIRST_DESCRIPTOR) == Ok(root)
    {
      RootIsFound(parse, image, 16, i, root);
    }
  }
}
