/**
  SHA256SUMS parsing and the checksum checks built on it (verify/verify.go), and
  the SHA256 stanza of a Debian Release file (internal/providers/debian/provider.go).
 */
module Checksums {
  import opened Common
  import opened Text

  type Sums = map<string, string>

  const DIGEST_LEN := 64

  function LowerChar(c: char): char {
    if 'A' <= c <= 'Z' then (c as int + 32) as char else c
  }

  /**
    `strings.ToLower`, on the letters A to Z.  Other letters never lower to a
    hexadecimal digit, so they fail the digest check either way.
   */
  function ToLower(s: string): (r: string)
    ensures |r| == |s|
  {
    seq(|s|, i requires 0 <= i < |s| => LowerChar(s[i]))
  }

  predicate IsLowerHex(s: string) {
    forall i :: 0 <= i < |s| ==> '0' <= s[i] <= '9' || 'a' <= s[i] <= 'f'
  }

  predicate IsDigest(s: string) {
    |s| == DIGEST_LEN && IsLowerHex(s)
  }

  function TrimPrefix(s: string, p: string): string {
    if p <= s then s[|p|..] else s
  }

  datatype Line = Skipped | Entry(name: string, sum: string) | Malformed

  function ParseLine(raw: string): Line {
    var line := TrimSpace(raw);
    if line == "" || line[0] == '#' then Skipped
    else
      var fields := Fields(line);
      if |fields| < 2 then Malformed
      else
        var sum := ToLower(fields[0]);
        if !IsDigest(sum) then Malformed
        else Entry(TrimPrefix(TrimPrefix(fields[1], "*"), "./"), sum)
  }

  function AddLine(acc: Result<Sums>, line: Line): Result<Sums> {
    if acc.Err? || line.Malformed? then Err
    else if line.Skipped? then acc
    else Ok(acc.value[line.name := line.sum])
  }

  /** Adds classified lines from the first to the last. */
  function Collect(lines: seq<Line>): Result<Sums> {
    if lines == [] then Ok(map[])
    else AddLine(Collect(lines[..|lines| - 1]), lines[|lines| - 1])
  }

  function ParseAll(raw: seq<string>): (lines: seq<Line>)
    ensures |lines| == |raw|
  {
    seq(|raw|, i requires 0 <= i < |raw| => ParseLine(raw[i]))
  }

  function Parse(text: string): Result<Sums> {
    Collect(ParseAll(Split(text, '\n')))
  }

  // what a digest is, without lowering

  /** `d` is `s` with each letter A to Z in lower case and everything else kept. */
  predicate LowerOf(d: string, s: string) {
    && |d| == |s|
    && forall i :: 0 <= i < |s| ==> d[i] as int == if 'A' <= s[i] <= 'Z' then s[i] as int + 32 else s[i] as int
  }

  lemma ToLowerIff(d: string, s: string)
    ensures ToLower(s) == d <==> LowerOf(d, s)
  {
    if LowerOf(d, s) {
      assert forall i :: 0 <= i < |s| ==> d[i] == ToLower(s)[i];
    }
  }

  predicate LowerHexDigit(c: char) {
    '0' <= c <= '9' || 'a' <= c <= 'f'
  }

  /** 64 hexadecimal digits in either case. */
  predicate HexDigest(s: string) {
    |s| == 64 && forall i :: 0 <= i < 64 ==> LowerHexDigit(s[i]) || 'A' <= s[i] <= 'F'
  }

  predicate LowerHexDigest(s: string) {
    |s| == 64 && forall i :: 0 <= i < 64 ==> LowerHexDigit(s[i])
  }

  /** The check on a digest accepts exactly 64 hexadecimal digits. */
  lemma DigestIff(s: string)
    ensures IsDigest(ToLower(s)) <==> HexDigest(s)
    ensures IsDigest(s) <==> LowerHexDigest(s)
  {
    var low := ToLower(s);
    ToLowerIff(low, s);
    if IsDigest(low) {
      assert forall i :: 0 <= i < |s| ==> LowerHexDigit(low[i]);
    }
  }

  /** `ParseSHA256Sums`, loop and all; it stops at the first malformed line. */
  method ParseSHA256Sums(text: string) returns (r: Result<Sums>)
    ensures r == Parse(text)
  {
    var lines := Split(text, '\n');
    var checksums: Sums := map[];
    ghost var all := ParseAll(lines);
    for i := 0 to |lines|
      invariant Collect(all[..i]) == Ok(checksums)
    {
      CollectNext(all, i);
      var line := TrimSpace(lines[i]);
      if line == "" || line[0] == '#' {
        continue;
      }
      var fields := Fields(line);
      if |fields| < 2 || !IsDigest(ToLower(fields[0])) {
        CollectFails(all, i);
        return Err;
      }
      var name := TrimPrefix(TrimPrefix(fields[1], "*"), "./");
      checksums := checksums[name := ToLower(fields[0])];
    }
    assert all[..|lines|] == all;
    return Ok(checksums);
  }

  // ---------------------------------------------------------------- declarative meaning

  lemma CollectNext(lines: seq<Line>, n: nat)
    requires n < |lines|
    ensures Collect(lines[..n + 1]) == AddLine(Collect(lines[..n]), lines[n])
  {
    assert lines[..n + 1][..n] == lines[..n];
  }

  lemma {:induction false} CollectFails(lines: seq<Line>, i: nat)
    requires i < |lines| && lines[i].Malformed?
    ensures Collect(lines).Err?
  {
    if i < |lines| - 1 {
      CollectFails(lines[..|lines| - 1], i);
    }
  }

  /** Collecting succeeds exactly when no line is malformed. */
  lemma {:induction false} CollectSucceedsIff(lines: seq<Line>)
    ensures Collect(lines).Ok? <==> forall i :: 0 <= i < |lines| ==> !lines[i].Malformed?
  {
    if lines != [] {
      var front := lines[..|lines| - 1];
      CollectSucceedsIff(front);
      assert forall i :: 0 <= i < |front| ==> front[i] == lines[i];
    }
  }

  predicate Names(line: Line, name: string) {
    line.Entry? && line.name == name
  }

  /** Line `i` is the last entry for its name. */
  predicate LastEntry(lines: seq<Line>, i: nat) {
    i < |lines| && lines[i].Entry? && forall j :: i < j < |lines| ==> !Names(lines[j], lines[i].name)
  }

  /** The last entry line for a name decides its digest. */
  lemma {:induction false} LastEntryWins(lines: seq<Line>, i: nat)
    requires Collect(lines).Ok? && LastEntry(lines, i)
    ensures lines[i].name in Collect(lines).value && Collect(lines).value[lines[i].name] == lines[i].sum
  {
    if i < |lines| - 1 {
      assert !Names(lines[|lines| - 1], lines[i].name);
      LastEntryWins(lines[..|lines| - 1], i);
    }
  }

  /** Every collected name has such a line. */
  lemma {:induction false} NameHasEntry(lines: seq<Line>, name: string) returns (i: nat)
    requires Collect(lines).Ok? && name in Collect(lines).value
    ensures LastEntry(lines, i) && lines[i].name == name && lines[i].sum == Collect(lines).value[name]
  {
    i := |lines| - 1;
    if !Names(lines[i], name) {
      i := NameHasEntry(lines[..|lines| - 1], name);
    }
  }

  /** Whatever the text, every digest in the map has 64 lower-case hexadecimal digits. */
  lemma {:induction false} ParsedDigests(text: string, name: string)
    requires Parse(text).Ok? && name in Parse(text).value
    ensures LowerHexDigest(Parse(text).value[name])
  {
    var raw := Split(text, '\n');
    var i := NameHasEntry(ParseAll(raw), name);
    assert ParseAll(raw)[i] == ParseLine(raw[i]);
    DigestIff(Parse(text).value[name]);
  }

  // ---------------------------------------------------------------- homomorphism

  function Merge(a: Result<Sums>, b: Result<Sums>): Result<Sums> {
    if a.Ok? && b.Ok? then Ok(a.value + b.value) else Err
  }

  lemma {:induction false} CollectConcat(a: seq<Line>, b: seq<Line>)
    ensures Collect(a + b) == Merge(Collect(a), Collect(b))
    decreases |b|
  {
    if b == [] {
      assert a + b == a;
      assert Collect(a).Ok? ==> Collect(a).value + map[] == Collect(a).value;
    } else {
      var front, line := b[..|b| - 1], b[|b| - 1];
      assert (a + b)[..|a + b| - 1] == a + front;
      CollectConcat(a, front);
      if Collect(a).Ok? && Collect(front).Ok? && line.Entry? {
        var m, n := Collect(a).value, Collect(front).value;
        assert (m + n)[line.name := line.sum] == m + n[line.name := line.sum];
      }
    }
  }

  /** Two files joined by a newline parse to the first map overridden by the second. */
  lemma ParseConcat(a: string, b: string)
    ensures Parse(a + "\n" + b) == Merge(Parse(a), Parse(b))
  {
    SplitAtSeparator(a, '\n', b);
    var x, y := Split(a, '\n'), Split(b, '\n');
    assert ParseAll(x + y) == ParseAll(x) + ParseAll(y);
    CollectConcat(ParseAll(x), ParseAll(y));
  }

  // ---------------------------------------------------------------- round trip

  datatype Style = Plain | Binary | DotSlash

  datatype Record = Record(digest: string, name: string, style: Style)

  function Prefix(style: Style): string {
    match style
    case Plain => ""
    case Binary => "*"
    case DotSlash => "./"
  }

  function PrintRecord(r: Record): string {
    r.digest + "  " + Prefix(r.style) + r.name
  }

  /** The names for which stripping the printed prefix gives the name back. */
  predicate SurvivesStripping(name: string, style: Style) {
    match style
    case Plain => !("*" <= name) && !("./" <= name)
    case Binary => !("./" <= name)
    case DotSlash => true
  }

  predicate Printable(r: Record) {
    HexDigest(r.digest) && r.name != "" && SpaceFree(r.name)
  }

  function PrintRecords(rs: seq<Record>): string {
    if rs == [] then "" else PrintRecord(rs[0]) + "\n" + PrintRecords(rs[1..])
  }

  function RecordMap(rs: seq<Record>): Sums {
    if rs == [] then map[] else map[rs[0].name := ToLower(rs[0].digest)] + RecordMap(rs[1..])
  }

  lemma HexIsSpaceFree(s: string)
    requires HexDigest(s)
    ensures SpaceFree(s) && '#' !in s
  {
  }

  lemma TrimSpaceTight(s: string)
    requires s != "" && !IsSpace(s[0]) && !IsSpace(s[|s| - 1])
    ensures TrimSpace(s) == s
  {
  }

  lemma FieldsOfPair(a: string, b: string)
    requires a != "" && b != "" && SpaceFree(a) && SpaceFree(b)
    ensures Fields(a + "  " + b) == [a, b]
  {
    FieldsOfWord(b);
    FieldsAroundWord("", a, "  " + b);
    assert "" + a + ("  " + b) == a + "  " + b;
    FieldsAroundSpace("", ' ', " " + b);
    FieldsAroundSpace("", ' ', b);
    assert "" + [' '] + b == " " + b;
    assert "" + [' '] + (" " + b) == "  " + b;
  }

  lemma PrintedFields(r: Record)
    requires Printable(r)
    ensures TrimSpace(PrintRecord(r)) == PrintRecord(r)
    ensures PrintRecord(r)[0] != '#'
    ensures Fields(PrintRecord(r)) == [r.digest, Prefix(r.style) + r.name]
  {
    HexIsSpaceFree(r.digest);
    var second := Prefix(r.style) + r.name;
    assert SpaceFree(second);
    FieldsOfPair(r.digest, second);
    var line := PrintRecord(r);
    assert line == r.digest + "  " + second;
    assert line[0] == r.digest[0];
    assert line[|line| - 1] == r.name[|r.name| - 1];
    TrimSpaceTight(line);
  }

  /** A printed line parses back to its record exactly when stripping spares its name. */
  lemma PrintedLineIff(r: Record)
    requires Printable(r)
    ensures ParseLine(PrintRecord(r)) == Entry(r.name, ToLower(r.digest)) <==> SurvivesStripping(r.name, r.style)
  {
    PrintedFields(r);
    DigestIff(r.digest);
    var second := Prefix(r.style) + r.name;
    match r.style {
      case Plain =>
        assert second == r.name;
      case Binary =>
        assert second[1..] == r.name;
      case DotSlash =>
        assert second[2..] == r.name && second[0] == '.';
    }
  }

  lemma NoNewline(r: Record)
    requires Printable(r)
    ensures '\n' !in PrintRecord(r)
  {
    HexIsSpaceFree(r.digest);
    assert IsSpace('\n');
  }

  lemma CollectOne(raw: string)
    ensures Collect(ParseAll([raw])) == AddLine(Ok(map[]), ParseLine(raw))
  {
    assert ParseAll([raw]) == [ParseLine(raw)];
    assert [ParseLine(raw)][..0] == [];
  }

  /** Printing any list of records and parsing it gives their map, later records winning. */
  lemma {:induction false} RoundTrip(rs: seq<Record>)
    requires forall i :: 0 <= i < |rs| ==> Printable(rs[i]) && SurvivesStripping(rs[i].name, rs[i].style)
    ensures Parse(PrintRecords(rs)) == Ok(RecordMap(rs))
  {
    if rs == [] {
      CollectOne("");
    } else {
      var line := PrintRecord(rs[0]);
      RoundTrip(rs[1..]);
      ParseConcat(line, PrintRecords(rs[1..]));
      NoNewline(rs[0]);
      SplitWithoutSeparator(line, '\n');
      PrintedLineIff(rs[0]);
      CollectOne(line);
    }
  }

  /** For records with distinct names the printed file parses back to exactly their map. */
  lemma {:induction false} RecordMapExact(rs: seq<Record>)
    requires forall i, j :: 0 <= i < j < |rs| ==> rs[i].name != rs[j].name
    ensures forall i :: 0 <= i < |rs| ==>
      rs[i].name in RecordMap(rs) && LowerOf(RecordMap(rs)[rs[i].name], rs[i].digest)
    ensures forall n :: n in RecordMap(rs) ==> exists i :: 0 <= i < |rs| && rs[i].name == n
  {
    if rs != [] {
      var rest := rs[1..];
      assert forall i :: 0 <= i < |rest| ==> rest[i] == rs[i + 1];
      RecordMapExact(rest);
      ToLowerIff(ToLower(rs[0].digest), rs[0].digest);
      forall n | n in RecordMap(rs) ensures exists i :: 0 <= i < |rs| && rs[i].name == n {
        if n in RecordMap(rest) {
          var i :| 0 <= i < |rest| && rest[i].name == n;
          assert rs[i + 1].name == n;
        } else {
          assert rs[0].name == n;
        }
      }
      assert rs[0].name !in RecordMap(rest);
      forall i | 0 <= i < |rs|
        ensures rs[i].name in RecordMap(rs) && LowerOf(RecordMap(rs)[rs[i].name], rs[i].digest)
      {
        if i > 0 { assert rs[i] == rest[i - 1]; }
      }
    }
  }

  // ---------------------------------------------------------------- checks

  /** `SHA256`: an empty expectation is an error; the comparison ignores case. */
  predicate HashMatches(hash: Bytes -> string, data: Bytes, expected: string) {
    expected != "" && hash(data) == ToLower(expected)
  }

  /** `SHA256Sums`. */
  predicate SumsMatch(hash: Bytes -> string, data: Bytes, sums: Result<Sums>, name: string) {
    sums.Ok? && name in sums.value && HashMatches(hash, data, sums.value[name])
  }

  lemma HashMatchesIff(hash: Bytes -> string, data: Bytes, expected: string)
    ensures HashMatches(hash, data, expected) <==> expected != "" && LowerOf(hash(data), expected)
  {
    ToLowerIff(hash(data), expected);
  }

  /** The name has an entry, and the bytes hash to it. */
  predicate HashListed(hash: Bytes -> string, data: Bytes, sums: Result<Sums>, name: string) {
    sums.Ok? && name in sums.value && hash(data) == sums.value[name]
  }

  lemma SumsMatchIff(hash: Bytes -> string, data: Bytes, text: string, name: string)
    ensures SumsMatch(hash, data, Parse(text), name) <==> HashListed(hash, data, Parse(text), name)
  {
    if Parse(text).Ok? && name in Parse(text).value {
      var digest := Parse(text).value[name];
      ParsedDigests(text, name);
      HashMatchesIff(hash, data, digest);
      assert LowerOf(digest, digest);
      ToLowerIff(digest, digest);
      ToLowerIff(hash(data), digest);
    }
  }

  /**
    `Artifact`: every check implied by the supplied material runs, and supplying
    none is an error.  `signed` stands for the OpenPGP check under the keyring.
    With sums, the name must have an entry and the bytes must hash to it.
   */
  method VerifyArtifact(hash: Bytes -> string, signed: Bytes -> bool, data: Bytes, name: string,
                  expected: string, sums: Option<string>, hasSignature: bool, hasKeyring: bool)
    returns (ok: bool)
    ensures ok <==>
      && (expected != "" || sums.Some? || hasSignature)
      && (expected != "" ==> LowerOf(hash(data), expected))
      && (sums.Some? ==>
            && Parse(sums.value).Ok? && name in Parse(sums.value).value
            && hash(data) == Parse(sums.value).value[name])
      && (hasSignature ==> hasKeyring && signed(data))
  {
    HashMatchesIff(hash, data, expected);
    if sums.Some? { SumsMatchIff(hash, data, sums.value, name); }
    var checks := 0;
    if expected != "" {
      checks := checks + 1;
      if !HashMatches(hash, data, expected) { return false; }
    }
    if sums.Some? {
      checks := checks + 1;
      var parsed := ParseSHA256Sums(sums.value);
      if !SumsMatch(hash, data, parsed, name) { return false; }
    }
    if hasSignature {
      checks := checks + 1;
      if !hasKeyring || !signed(data) { return false; }
    }
    return checks != 0;
  }

  // ---------------------------------------------------------------- Debian Release stanza

  predicate IsHeader(line: string) {
    line != "" && line[|line| - 1] == ':'
  }

  /** The code's `inSHA256` flag before line `n`. */
  predicate InSHA256(lines: seq<string>, n: nat)
    requires n <= |lines|
  {
    n > 0 && (if IsHeader(lines[n - 1]) then lines[n - 1] == "SHA256:" else InSHA256(lines, n - 1))
  }

  /** What a Release line contributes, given the lines above it. */
  function ReleaseLine(lines: seq<string>, n: nat): Line
    requires n < |lines|
  {
    if IsHeader(lines[n]) || !InSHA256(lines, n) || TrimSpace(lines[n]) == "" then Skipped
    else
      var fields := Fields(lines[n]);
      if |fields| < 3 then Malformed else Entry(fields[2], fields[0])
  }

  function ReleaseLines(lines: seq<string>): (r: seq<Line>)
    ensures |r| == |lines|
  {
    seq(|lines|, i requires 0 <= i < |lines| => ReleaseLine(lines, i))
  }

  function ParseReleaseText(text: string): Result<Sums> {
    Collect(ReleaseLines(Split(text, '\n')))
  }

  /** `parseReleaseSHA256` with its stanza flag. */
  method ParseRelease(text: string) returns (r: Result<Sums>)
    ensures r == ParseReleaseText(text)
  {
    var lines := Split(text, '\n');
    var checksums: Sums := map[];
    var inSHA256 := false;
    ghost var all := ReleaseLines(lines);
    for n := 0 to |lines|
      invariant inSHA256 == InSHA256(lines, n)
      invariant Collect(all[..n]) == Ok(checksums)
    {
      CollectNext(all, n);
      if IsHeader(lines[n]) {
        inSHA256 := lines[n] == "SHA256:";
        continue;
      }
      if !inSHA256 || TrimSpace(lines[n]) == "" {
        continue;
      }
      var fields := Fields(lines[n]);
      if |fields| < 3 {
        CollectFails(all, n);
        return Err;
      }
      checksums := checksums[fields[2] := fields[0]];
    }
    assert all[..|lines|] == all;
    return Ok(checksums);
  }

  /** The flag means: the closest header line above is exactly `SHA256:`. */
  lemma {:induction false} InSHA256Iff(lines: seq<string>, n: nat)
    requires n <= |lines|
    ensures InSHA256(lines, n) <==>
            exists h :: 0 <= h < n && lines[h] == "SHA256:" && forall k :: h < k < n ==> !IsHeader(lines[k])
  {
    if n > 0 {
      assert IsHeader("SHA256:");
      InSHA256Iff(lines, n - 1);
      if InSHA256(lines, n) {
        if IsHeader(lines[n - 1]) {
          assert lines[n - 1] == "SHA256:";
        } else {
          var h :| 0 <= h < n - 1 && lines[h] == "SHA256:" && forall k :: h < k < n - 1 ==> !IsHeader(lines[k]);
          assert forall k :: h < k < n ==> !IsHeader(lines[k]);
        }
      }
    }
  }

  // ---------------------------------------------------------------- Release round trip

  datatype ReleaseEntry = ReleaseEntry(digest: string, size: string, name: string)

  predicate Word(s: string) {
    s != "" && SpaceFree(s)
  }

  predicate EndsInColon(line: string) {
    line != "" && line[|line| - 1] == ':'
  }

  predicate ReleasePrintable(e: ReleaseEntry) {
    Word(e.digest) && Word(e.size) && Word(e.name) && !EndsInColon(e.name)
  }

  /** Digest, size and name, as a Release file lists them. */
  function PrintReleaseEntry(e: ReleaseEntry): string {
    " " + e.digest + " " + e.size + " " + e.name
  }

  function PrintReleaseEntries(es: seq<ReleaseEntry>): (lines: seq<string>)
    ensures |lines| == |es|
  {
    seq(|es|, i requires 0 <= i < |es| => PrintReleaseEntry(es[i]))
  }

  /** Later entries win. */
  function ReleaseMap(es: seq<ReleaseEntry>): Sums {
    if es == [] then map[] else ReleaseMap(es[..|es| - 1])[es[|es| - 1].name := es[|es| - 1].digest]
  }

  /** A Release file: other stanzas, the SHA256 stanza, and other stanzas again. */
  function ReleaseFile(before: seq<string>, es: seq<ReleaseEntry>, after: seq<string>): seq<string> {
    before + ["SHA256:"] + PrintReleaseEntries(es) + after
  }

  predicate OtherStanzas(before: seq<string>, after: seq<string>) {
    && "SHA256:" !in before && "SHA256:" !in after && (after == [] || EndsInColon(after[0]))
  }

  lemma FieldsOfThree(a: string, b: string, c: string)
    requires Word(a) && Word(b) && Word(c)
    ensures Fields(" " + a + " " + b + " " + c) == [a, b, c]
  {
    FieldsOfWord(c);
    FieldsOfWord(b);
    FieldsOfWord(a);
    FieldsAroundSpace("", ' ', a);
    assert "" + [' '] + a == " " + a;
    FieldsAroundSpace(" " + a, ' ', b);
    FieldsAroundSpace(" " + a + " " + b, ' ', c);
  }

  lemma PrintedReleaseLine(e: ReleaseEntry)
    requires ReleasePrintable(e)
    ensures Fields(PrintReleaseEntry(e)) == [e.digest, e.size, e.name] && !EndsInColon(PrintReleaseEntry(e))
    ensures TrimSpace(PrintReleaseEntry(e)) != ""
  {
    var line := PrintReleaseEntry(e);
    FieldsOfThree(e.digest, e.size, e.name);
    assert line[|line| - 1] == e.name[|e.name| - 1];
    FieldsTrimSpace(line);
  }

  lemma ReleaseFileLines(before: seq<string>, es: seq<ReleaseEntry>, after: seq<string>, n: nat)
    requires n < |ReleaseFile(before, es, after)|
    ensures
      var line, b, e := ReleaseFile(before, es, after)[n], |before|, |before| + 1 + |es|;
      if n < b then line == before[n] else if n == b then line == "SHA256:"
      else if n < e then line == PrintReleaseEntry(es[n - b - 1]) else line == after[n - e]
  {
  }

  /** Above the stanza and below it, no line is read as an entry. */
  lemma OutsideStanza(before: seq<string>, es: seq<ReleaseEntry>, after: seq<string>, n: nat)
    requires OtherStanzas(before, after) && n < |ReleaseFile(before, es, after)|
    requires n <= |before| || |before| + 1 + |es| <= n
    ensures ReleaseLine(ReleaseFile(before, es, after), n) == Skipped
  {
    var lines, end := ReleaseFile(before, es, after), |before| + 1 + |es|;
    InSHA256Iff(lines, n);
    forall h | 0 <= h < n && lines[h] == "SHA256:" ensures h >= |before| && h < end {
      ReleaseFileLines(before, es, after, h);
    }
    ReleaseFileLines(before, es, after, n);
    if n >= end {
      ReleaseFileLines(before, es, after, end);
      assert EndsInColon(lines[end]) && IsHeader(lines[end]);
    } else if n == |before| {
      assert IsHeader("SHA256:");
    }
  }

  /** Inside the stanza every line is read as its entry. */
  lemma InsideStanza(before: seq<string>, es: seq<ReleaseEntry>, after: seq<string>, i: nat)
    requires (forall k :: 0 <= k < |es| ==> ReleasePrintable(es[k])) && i < |es|
    ensures ReleaseLine(ReleaseFile(before, es, after), |before| + 1 + i) == Entry(es[i].name, es[i].digest)
  {
    var lines, n := ReleaseFile(before, es, after), |before| + 1 + i;
    StanzaIsOpen(before, es, after, i);
    NoHeaderInStanza(before, es, after, i);
    ReleaseFileLines(before, es, after, n);
    PrintedReleaseLine(es[i]);
  }

  lemma StanzaIsOpen(before: seq<string>, es: seq<ReleaseEntry>, after: seq<string>, i: nat)
    requires (forall k :: 0 <= k < |es| ==> ReleasePrintable(es[k])) && i < |es|
    ensures InSHA256(ReleaseFile(before, es, after), |before| + 1 + i)
  {
    NoHeaderInStanza(before, es, after, i);
    ReleaseFileLines(before, es, after, |before|);
    InSHA256Iff(ReleaseFile(before, es, after), |before| + 1 + i);
  }

  lemma NoHeaderInStanza(before: seq<string>, es: seq<ReleaseEntry>, after: seq<string>, i: nat)
    requires (forall k :: 0 <= k < |es| ==> ReleasePrintable(es[k])) && i < |es|
    ensures forall k :: |before| < k <= |before| + 1 + i ==> !IsHeader(ReleaseFile(before, es, after)[k])
  {
    forall k | |before| < k <= |before| + 1 + i ensures !IsHeader(ReleaseFile(before, es, after)[k]) {
      ReleaseFileLines(before, es, after, k);
      PrintedReleaseLine(es[k - |before| - 1]);
    }
  }

  predicate AllSkipped(lines: seq<Line>) {
    forall i :: 0 <= i < |lines| ==> lines[i] == Skipped
  }

  predicate Enters(lines: seq<Line>, es: seq<ReleaseEntry>) {
    |lines| == |es| && forall i :: 0 <= i < |es| ==> lines[i] == Entry(es[i].name, es[i].digest)
  }

  lemma {:induction false} CollectSkipped(lines: seq<Line>)
    requires AllSkipped(lines)
    ensures Collect(lines) == Ok(map[])
  {
    if lines != [] { CollectSkipped(lines[..|lines| - 1]); }
  }

  lemma {:induction false} CollectReleaseEntries(es: seq<ReleaseEntry>, lines: seq<Line>)
    requires Enters(lines, es)
    ensures Collect(lines) == Ok(ReleaseMap(es))
  {
    if es != [] { CollectReleaseEntries(es[..|es| - 1], lines[..|es| - 1]); }
  }

  /** Of a whole Release file exactly the SHA256 stanza is read, name by name with its digest. */
  lemma {:induction false} ReleaseRoundTrip(before: seq<string>, es: seq<ReleaseEntry>, after: seq<string>)
    requires OtherStanzas(before, after) && forall k :: 0 <= k < |es| ==> ReleasePrintable(es[k])
    requires forall l :: l in ReleaseFile(before, es, after) ==> '\n' !in l
    ensures ParseReleaseText(Join(ReleaseFile(before, es, after), "\n")) == Ok(ReleaseMap(es))
  {
    SplitJoin(ReleaseFile(before, es, after), '\n');
    var above, stanza, below := StanzaLines(before, es, after);
    CollectStanza(above, es, stanza, below);
  }

  lemma StanzaLines(before: seq<string>, es: seq<ReleaseEntry>, after: seq<string>)
    returns (above: seq<Line>, stanza: seq<Line>, below: seq<Line>)
    requires OtherStanzas(before, after) && forall k :: 0 <= k < |es| ==> ReleasePrintable(es[k])
    ensures ReleaseLines(ReleaseFile(before, es, after)) == above + stanza + below
    ensures AllSkipped(above) && AllSkipped(below) && Enters(stanza, es)
  {
    var lines, b, e := ReleaseLines(ReleaseFile(before, es, after)), |before| + 1, |before| + 1 + |es|;
    above, stanza, below := lines[..b], lines[b..e], lines[e..];
    ThirdsJoin(lines, b, e);
    AroundStanza(before, es, after, above, below);
    EntriesOfStanza(before, es, after, stanza);
  }

  lemma ThirdsJoin<T>(s: seq<T>, b: nat, e: nat)
    requires b <= e <= |s|
    ensures s == s[..b] + s[b..e] + s[e..]
  {
  }

  lemma AroundStanza(
    before: seq<string>, es: seq<ReleaseEntry>, after: seq<string>, above: seq<Line>, below: seq<Line>)
    requires OtherStanzas(before, after)
    requires above == ReleaseLines(ReleaseFile(before, es, after))[..|before| + 1]
    requires below == ReleaseLines(ReleaseFile(before, es, after))[|before| + 1 + |es|..]
    ensures AllSkipped(above) && AllSkipped(below)
  {
    forall i | 0 <= i < |above| ensures above[i] == Skipped { OutsideStanza(before, es, after, i); }
    forall i | 0 <= i < |below| ensures below[i] == Skipped {
      OutsideStanza(before, es, after, |before| + 1 + |es| + i);
    }
  }

  lemma EntriesOfStanza(before: seq<string>, es: seq<ReleaseEntry>, after: seq<string>, stanza: seq<Line>)
    requires forall k :: 0 <= k < |es| ==> ReleasePrintable(es[k])
    requires stanza == ReleaseLines(ReleaseFile(before, es, after))[|before| + 1..|before| + 1 + |es|]
    ensures Enters(stanza, es)
  {
    forall i | 0 <= i < |es| ensures stanza[i] == Entry(es[i].name, es[i].digest) {
      InsideStanza(before, es, after, i);
    }
  }

  lemma CollectStanza(above: seq<Line>, es: seq<ReleaseEntry>, stanza: seq<Line>, below: seq<Line>)
    requires AllSkipped(above) && AllSkipped(below) && Enters(stanza, es)
    ensures Collect(above + stanza + below) == Ok(ReleaseMap(es))
  {
    CollectSkipped(above);
    CollectSkipped(below);
    CollectReleaseEntries(es, stanza);
    CollectConcat(above, stanza);
    CollectConcat(above + stanza, below);
    MergeEmpty(ReleaseMap(es));
  }

  lemma MergeEmpty(m: Sums)
    ensures Merge(Merge(Ok(map[]), Ok(m)), Ok(map[])) == Ok(m)
  {
    assert map[] + m == m && m + map[] == m;
  }
}
