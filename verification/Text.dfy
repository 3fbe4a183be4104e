/** The parts of Go's `strings` and `unicode` packages that the source relies on. */
module Text {

  /** `unicode.IsSpace`. */
  predicate IsSpace(c: char) {
    var n := c as int;
    || 9 <= n <= 13 || n == 0x20 || n == 0x85 || n == 0xA0 || n == 0x1680
    || 0x2000 <= n <= 0x200A || n == 0x2028 || n == 0x2029 || n == 0x202F
    || n == 0x205F || n == 0x3000
  }

  /** `unicode.IsControl`: the general category Cc. */
  predicate IsControl(c: char) {
    var n := c as int;
    n < 0x20 || 0x7F <= n < 0xA0
  }

  /** The code points with the property White_Space. */
  const WHITE_SPACE: set<int> := {
    0x09, 0x0A, 0x0B, 0x0C, 0x0D, 0x20, 0x85, 0xA0, 0x1680, 0x2000, 0x2001, 0x2002, 0x2003, 0x2004, 0x2005, 0x2006,
    0x2007, 0x2008, 0x2009, 0x200A, 0x2028, 0x2029, 0x202F, 0x205F, 0x3000}

  lemma CharacterClasses(c: char)
    ensures IsSpace(c) <==> c as int in WHITE_SPACE
    ensures IsControl(c) <==> 0 <= c as int <= 31 || 127 <= c as int <= 159
  {
  }

  predicate SpaceFree(s: string) {
    forall i :: 0 <= i < |s| ==> !IsSpace(s[i])
  }

  // ---------------------------------------------------------------- trimming

  function TrimLeft(s: string): string {
    if s != [] && IsSpace(s[0]) then TrimLeft(s[1..]) else s
  }

  function TrimRight(s: string): string {
    if s != [] && IsSpace(s[|s| - 1]) then TrimRight(s[..|s| - 1]) else s
  }

  function TrimSpace(s: string): string {
    TrimRight(TrimLeft(s))
  }

  /** Nothing is trimmed from a string without white space. */
  lemma TrimSpaceFree(s: string)
    requires SpaceFree(s)
    ensures TrimSpace(s) == s
  {
  }

  lemma {:induction false} TrimRightEnds(s: string)
    ensures TrimRight(s) != [] ==> !IsSpace(TrimRight(s)[|TrimRight(s)| - 1])
    ensures TrimRight(s) <= s
  {
    if s != [] && IsSpace(s[|s| - 1]) {
      TrimRightEnds(s[..|s| - 1]);
    }
  }

  predicate AllSpace(s: string) {
    forall i :: 0 <= i < |s| ==> IsSpace(s[i])
  }

  /** Neither end is white space. */
  predicate Tight(s: string) {
    s != "" && !IsSpace(s[0]) && !IsSpace(s[|s| - 1])
  }

  lemma {:induction false} TrimLeftOf(a: string, s: string)
    requires AllSpace(a) && (s == "" || !IsSpace(s[0]))
    ensures TrimLeft(a + s) == s
  {
    if a == "" {
      assert a + s == s;
    } else {
      assert (a + s)[1..] == a[1..] + s;
      TrimLeftOf(a[1..], s);
    }
  }

  lemma {:induction false} TrimRightOf(s: string, b: string)
    requires AllSpace(b) && (s == "" || !IsSpace(s[|s| - 1]))
    ensures TrimRight(s + b) == s
  {
    if b == "" {
      assert s + b == s;
    } else {
      assert (s + b)[..|s + b| - 1] == s + b[..|b| - 1];
      TrimRightOf(s, b[..|b| - 1]);
    }
  }

  /** Trimming takes away exactly the white space around tight text. */
  lemma TrimSpaceAround(a: string, s: string, b: string)
    requires AllSpace(a) && AllSpace(b) && Tight(s)
    ensures TrimSpace(a + s + b) == s
  {
    assert a + s + b == a + (s + b);
    TrimLeftOf(a, s + b);
    TrimRightOf(s, b);
  }

  lemma TrimSpaceOfSpace(s: string)
    requires AllSpace(s)
    ensures TrimSpace(s) == ""
  {
    TrimLeftOf(s, "");
    assert s + "" == s;
  }

  /** Every text is blank, or tight text with white space around it. */
  lemma {:induction false} TrimmedParts(s: string) returns (a: string, mid: string, b: string)
    ensures s == a + mid + b && AllSpace(a) && AllSpace(b) && (mid == "" || Tight(mid)) && TrimSpace(s) == mid
    decreases |s|
  {
    if s == "" {
      a, mid, b := "", "", "";
      TrimSpaceOfSpace(s);
    } else if IsSpace(s[0]) {
      var c;
      c, mid, b := TrimmedParts(s[1..]);
      a := [s[0]] + c;
      SpaceBefore(s, c, mid, b);
      TrimPartsAgree(s, a, mid, b);
    } else if IsSpace(s[|s| - 1]) {
      var c;
      a, mid, c := TrimmedParts(s[..|s| - 1]);
      b := c + [s[|s| - 1]];
      SpaceBehind(s, a, mid, c);
      TrimPartsAgree(s, a, mid, b);
    } else {
      a, mid, b := "", s, "";
      assert s == a + mid + b;
      TrimSpaceAround(a, mid, b);
    }
  }

  lemma SpaceBefore(s: string, c: string, mid: string, b: string)
    requires s != "" && IsSpace(s[0]) && s[1..] == c + mid + b && AllSpace(c)
    ensures s == [s[0]] + c + mid + b && AllSpace([s[0]] + c)
  {
    assert s == [s[0]] + s[1..];
  }

  lemma SpaceBehind(s: string, a: string, mid: string, c: string)
    requires s != "" && IsSpace(s[|s| - 1]) && s[..|s| - 1] == a + mid + c && AllSpace(c)
    ensures s == a + mid + (c + [s[|s| - 1]]) && AllSpace(c + [s[|s| - 1]])
  {
    assert s == s[..|s| - 1] + [s[|s| - 1]];
  }

  lemma TrimPartsAgree(s: string, a: string, mid: string, b: string)
    requires s == a + mid + b && AllSpace(a) && AllSpace(b) && (mid == "" || Tight(mid))
    ensures TrimSpace(s) == mid
  {
    if mid == "" { TrimSpaceOfSpace(s); } else { TrimSpaceAround(a, mid, b); }
  }

  lemma BlankTextIff(s: string)
    ensures TrimSpace(s) == "" <==> AllSpace(s)
    ensures TrimSpace(s) == s <==> s == "" || Tight(s)
  {
    var a, mid, b := TrimmedParts(s);
    if AllSpace(s) { TrimSpaceOfSpace(s); }
    if Tight(s) {
      TrimSpaceAround("", s, "");
      assert "" + s + "" == s;
    }
  }

  // ---------------------------------------------------------------- fields

  /** Length of the longest prefix without white space. */
  function WordLen(s: string): (n: nat)
    ensures n <= |s| && SpaceFree(s[..n])
    ensures n < |s| ==> IsSpace(s[n])
  {
    if s == [] || IsSpace(s[0]) then 0
    else
      var n := 1 + WordLen(s[1..]);
      assert s[..n] == [s[0]] + s[1..][..n - 1];
      n
  }

  /** `strings.Fields`: the maximal runs without white space. */
  function Fields(s: string): seq<string>
    decreases |s|
  {
    if s == [] then []
    else if IsSpace(s[0]) then Fields(s[1..])
    else [s[..WordLen(s)]] + Fields(s[WordLen(s)..])
  }

  lemma {:induction false} WordLenUnique(s: string, n: nat)
    requires n <= |s| && SpaceFree(s[..n])
    requires n < |s| ==> IsSpace(s[n])
    ensures WordLen(s) == n
  {
    var m := WordLen(s);
    assert forall k :: 0 <= k < n ==> s[..n][k] == s[k];
    assert forall k :: 0 <= k < m ==> s[..m][k] == s[k];
  }

  /** A white-space character separates fields. */
  lemma {:induction false} FieldsAroundSpace(a: string, sp: char, b: string)
    requires IsSpace(sp)
    ensures Fields(a + [sp] + b) == Fields(a) + Fields(b)
    decreases |a|
  {
    var s := a + [sp] + b;
    if a == [] {
      assert s[1..] == b;
    } else if IsSpace(a[0]) {
      assert s[1..] == a[1..] + [sp] + b;
      FieldsAroundSpace(a[1..], sp, b);
    } else {
      var n := WordLen(a);
      assert s[..n] == a[..n];
      WordLenUnique(s, n);
      assert s[n..] == a[n..] + [sp] + b;
      FieldsAroundSpace(a[n..], sp, b);
    }
  }

  lemma {:induction false} FieldsTrimLeft(s: string)
    ensures Fields(TrimLeft(s)) == Fields(s)
  {
    if s != [] && IsSpace(s[0]) {
      FieldsTrimLeft(s[1..]);
    }
  }

  lemma {:induction false} FieldsTrimRight(s: string)
    ensures Fields(TrimRight(s)) == Fields(s)
  {
    if s != [] && IsSpace(s[|s| - 1]) {
      var a := s[..|s| - 1];
      assert s == a + [s[|s| - 1]] + [];
      FieldsAroundSpace(a, s[|s| - 1], []);
      FieldsTrimRight(a);
    }
  }

  /** Trimming never changes the fields of a string. */
  lemma FieldsTrimSpace(s: string)
    ensures Fields(TrimSpace(s)) == Fields(s)
  {
    FieldsTrimLeft(s);
    FieldsTrimRight(TrimLeft(s));
  }

  lemma FieldsOfWord(w: string)
    requires w != [] && SpaceFree(w)
    ensures Fields(w) == [w]
  {
    assert w[..|w|] == w;
    WordLenUnique(w, |w|);
    assert w[|w|..] == [];
  }

  /** A word set off by white space (or by the ends of the text) is one field. */
  lemma FieldsAroundWord(left: string, w: string, right: string)
    requires w != [] && SpaceFree(w)
    requires left != [] ==> IsSpace(left[|left| - 1])
    requires right != [] ==> IsSpace(right[0])
    ensures Fields(left + w + right) == Fields(left) + [w] + Fields(right)
  {
    FieldsOfWord(w);
    FieldsBeforeSpace(w, right);
    FieldsAfterSpace(left, w + right);
    assert left + w + right == left + (w + right);
  }

  lemma FieldsAfterSpace(left: string, b: string)
    requires left != [] ==> IsSpace(left[|left| - 1])
    ensures Fields(left + b) == Fields(left) + Fields(b)
  {
    if left == [] {
      assert left + b == b;
    } else {
      var l, sp := left[..|left| - 1], left[|left| - 1];
      assert left + b == l + [sp] + b && left == l + [sp] + [];
      FieldsAroundSpace(l, sp, b);
      FieldsAroundSpace(l, sp, []);
    }
  }

  lemma FieldsBeforeSpace(a: string, right: string)
    requires right != [] ==> IsSpace(right[0])
    ensures Fields(a + right) == Fields(a) + Fields(right)
  {
    if right == [] {
      assert a + right == a;
    } else {
      assert a + right == a + [right[0]] + right[1..];
      FieldsAroundSpace(a, right[0], right[1..]);
    }
  }

  // ---------------------------------------------------------------- splitting and joining

  /** `strings.Split` on a one-character separator. */
  function Split(s: string, c: char): (parts: seq<string>)
    ensures |parts| > 0
    ensures forall i :: 0 <= i < |parts| ==> c !in parts[i]
  {
    if s == [] then [[]]
    else if s[0] == c then [[]] + Split(s[1..], c)
    else
      var rest := Split(s[1..], c);
      [[s[0]] + rest[0]] + rest[1..]
  }

  function Join<T>(parts: seq<seq<T>>, sep: seq<T>): seq<T> {
    if parts == [] then []
    else if |parts| == 1 then parts[0]
    else parts[0] + sep + Join(parts[1..], sep)
  }

  function Concat<T>(parts: seq<seq<T>>): seq<T> {
    if parts == [] then [] else parts[0] + Concat(parts[1..])
  }

  lemma {:induction false} SplitAtSeparator(a: string, c: char, b: string)
    ensures Split(a + [c] + b, c) == Split(a, c) + Split(b, c)
  {
    var s := a + [c] + b;
    if a == [] {
      assert s[1..] == b;
    } else {
      assert s[1..] == a[1..] + [c] + b;
      SplitAtSeparator(a[1..], c, b);
    }
  }

  lemma {:induction false} SplitWithoutSeparator(s: string, c: char)
    requires c !in s
    ensures Split(s, c) == [s]
  {
    if s != [] {
      SplitWithoutSeparator(s[1..], c);
      assert [s[0]] + s[1..] == s;
    }
  }

  /** Splitting undoes joining for parts free of the separator. */
  lemma {:induction false} SplitJoin(parts: seq<string>, c: char)
    requires parts != [] && forall i :: 0 <= i < |parts| ==> c !in parts[i]
    ensures Split(Join(parts, [c]), c) == parts
  {
    SplitWithoutSeparator(parts[0], c);
    if |parts| > 1 {
      SplitJoin(parts[1..], c);
      SplitAtSeparator(parts[0], c, Join(parts[1..], [c]));
    }
  }

  /** Joining undoes splitting. */
  lemma JoinPushFront(x: char, first: string, c: char, rest: string)
    ensures [x] + first + [c] + rest == [x] + (first + [c] + rest)
  {
  }

  lemma {:induction false} JoinSplit(s: string, c: char)
    ensures Join(Split(s, c), [c]) == s
  {
    if s != [] {
      JoinSplit(s[1..], c);
      var rest := Split(s[1..], c);
      if s[0] == c {
        assert ([[]] + rest)[1..] == rest;
        assert [] + [c] + s[1..] == s;
      } else {
        var parts := [[s[0]] + rest[0]] + rest[1..];
        assert parts[1..] == rest[1..];
        assert [s[0]] + s[1..] == s;
        if |rest| > 1 { JoinPushFront(s[0], rest[0], c, Join(rest[1..], [c])); }
      }
    }
  }

  lemma Slices<T>(a: seq<T>, b: seq<T>, c: seq<T>)
    ensures (a + b + c)[|a|..|a| + |b|] == b
    ensures (a + b + c)[|a| + |b|..] == c
    ensures a + (b + c) == a + b + c
  {
  }

  // ---------------------------------------------------------------- substrings

  predicate OccursAt<T(==)>(v: seq<T>, s: seq<T>, i: int) {
    0 <= i <= |s| - |v| && s[i..i + |v|] == v
  }

  /** `strings.Contains(s, v)`. */
  predicate Occurs<T(==)>(v: seq<T>, s: seq<T>) {
    exists i :: 0 <= i <= |s| - |v| && OccursAt(v, s, i)
  }

  /** `strings.ReplaceAll` for a non-empty `old`: leftmost, non-overlapping matches. */
  function ReplaceAll<T(==)>(s: seq<T>, old_: seq<T>, new_: seq<T>): seq<T>
    requires old_ != []
    decreases |s|
  {
    if |s| < |old_| then s
    else if old_ <= s then new_ + ReplaceAll(s[|old_|..], old_, new_)
    else [s[0]] + ReplaceAll(s[1..], old_, new_)
  }

  /** Replacing at the front, with a rest too short to hold another occurrence. */
  lemma ReplaceAllStep<T>(old_: seq<T>, rest: seq<T>, new_: seq<T>)
    requires |rest| < |old_|
    ensures ReplaceAll(old_ + rest, old_, new_) == new_ + rest
  {
    assert (old_ + rest)[|old_|..] == rest;
  }

  lemma OccursShift<T>(v: seq<T>, a: seq<T>, s: seq<T>)
    requires Occurs(v, s)
    ensures Occurs(v, a + s)
  {
    var i :| 0 <= i <= |s| - |v| && OccursAt(v, s, i);
    assert (a + s)[|a| + i..|a| + i + |v|] == s[i..i + |v|];
    assert OccursAt(v, a + s, |a| + i);
  }

  /** A part of a part is a part. */
  lemma OccursThrough<T>(a: seq<T>, b: seq<T>, c: seq<T>)
    requires Occurs(a, b) && Occurs(b, c)
    ensures Occurs(a, c)
  {
    var i :| 0 <= i <= |b| - |a| && OccursAt(a, b, i);
    var j :| 0 <= j <= |c| - |b| && OccursAt(b, c, j);
    var part := c[j + i..j + i + |a|];
    assert forall k :: 0 <= k < |a| ==> part[k] == c[j + i + k] == c[j..j + |b|][i + k] == b[i..i + |a|][k];
    assert part == a;
    assert OccursAt(a, c, j + i);
  }

  lemma OccursInTail<T>(v: seq<T>, s: seq<T>, k: nat)
    requires k <= |s| && Occurs(v, s[k..])
    ensures Occurs(v, s)
  {
    OccursShift(v, s[..k], s[k..]);
    assert s[..k] + s[k..] == s;
  }

  lemma OccursAtTail<T>(v: seq<T>, s: seq<T>, k: nat, i: int)
    requires k <= |s| && 0 <= i
    ensures OccursAt(v, s[k..], i) <==> OccursAt(v, s, k + i)
  {
    if i <= |s| - k - |v| {
      assert s[k..][i..i + |v|] == s[k + i..k + i + |v|];
    }
  }

  lemma OccursAtHead<T>(v: seq<T>, s: seq<T>)
    ensures OccursAt(v, s, 0) <==> v <= s
  {
    if |v| <= |s| {
      assert s[0..|v|] == s[..|v|];
    }
  }

  lemma AbsentInTail<T>(v: seq<T>, s: seq<T>, k: nat)
    requires k <= |s| && !Occurs(v, s)
    ensures !Occurs(v, s[k..])
  {
    forall i | 0 <= i <= |s[k..]| - |v| ensures !OccursAt(v, s[k..], i) {
      OccursAtTail(v, s, k, i);
    }
  }

  /** `strings.Index`: the leftmost occurrence. */
  function Index<T(==)>(s: seq<T>, v: seq<T>): (r: int)
    ensures r == -1 <==> !Occurs(v, s)
    ensures r != -1 ==> OccursAt(v, s, r) && forall i :: 0 <= i < r ==> !OccursAt(v, s, i)
    decreases |s|
  {
    OccursAtHead(v, s);
    if v <= s then 0
    else if s == [] then -1
    else
      var r := Index(s[1..], v);
      IndexShift(s, v);
      if r == -1 then -1 else r + 1
  }

  lemma IndexIs<T>(s: seq<T>, v: seq<T>, k: nat)
    requires OccursAt(v, s, k) && forall i :: 0 <= i < k ==> !OccursAt(v, s, i)
    ensures Index(s, v) == k
  {
    assert Occurs(v, s);
  }

  lemma IndexShift<T>(s: seq<T>, v: seq<T>)
    requires s != []
    ensures forall i {:trigger OccursAt(v, s, i)} :: 1 <= i ==> (OccursAt(v, s, i) <==> OccursAt(v, s[1..], i - 1))
    ensures forall i {:trigger OccursAt(v, s[1..], i)} :: 0 <= i ==> (OccursAt(v, s, i + 1) <==> OccursAt(v, s[1..], i))
  {
    forall i | 0 <= i ensures OccursAt(v, s, i + 1) <==> OccursAt(v, s[1..], i) {
      OccursAtTail(v, s, 1, i);
    }
    forall i | 1 <= i ensures OccursAt(v, s, i) <==> OccursAt(v, s[1..], i - 1) {
      OccursAtTail(v, s, 1, i - 1);
    }
  }

  /** Nothing is replaced in a text that does not contain the old value. */
  lemma {:induction false} ReplaceAllAbsent<T>(s: seq<T>, old_: seq<T>, new_: seq<T>)
    requires old_ != [] && !Occurs(old_, s)
    ensures ReplaceAll(s, old_, new_) == s
    decreases |s|
  {
    if |s| >= |old_| {
      OccursAtHead(old_, s);
      AbsentInTail(old_, s, 1);
      ReplaceAllAbsent(s[1..], old_, new_);
    }
  }

  /**
    What `ReplaceAll` computes, without its scan: cut the text at the leftmost
    occurrence, keep everything before it, go on after it.
   */
  lemma {:induction false} ReplaceAllAtFirst<T>(s: seq<T>, k: nat, old_: seq<T>, new_: seq<T>)
    requires old_ != [] && OccursAt(old_, s, k)
    requires forall i :: 0 <= i < k ==> !OccursAt(old_, s, i)
    ensures ReplaceAll(s, old_, new_) == s[..k] + new_ + ReplaceAll(s[k + |old_|..], old_, new_)
  {
    ReplaceAllFrom(s, 0, k, old_, new_, ReplaceAll(s[k + |old_|..], old_, new_));
    assert s[0..] == s && s[0..k] == s[..k];
  }

  /** The same from position `j` on, where nothing occurs before `k`. */
  lemma {:induction false} ReplaceAllFrom<T>(s: seq<T>, j: nat, k: nat, old_: seq<T>, new_: seq<T>, rest: seq<T>)
    requires old_ != [] && j <= k && OccursAt(old_, s, k)
    requires forall i :: j <= i < k ==> !OccursAt(old_, s, i)
    requires rest == ReplaceAll(s[k + |old_|..], old_, new_)
    ensures ReplaceAll(s[j..], old_, new_) == s[j..k] + new_ + rest
    decreases k - j
  {
    if j < k {
      ReplaceAllFrom(s, j + 1, k, old_, new_, rest);
      ReplaceAllPassAt(s, j, old_, new_);
      SliceFront(s, j, k, new_, rest);
    } else {
      ReplaceAllHit(s, k, old_, new_);
      assert s[k..k] + new_ == new_;
    }
  }

  lemma ReplaceAllPassAt<T>(s: seq<T>, j: nat, old_: seq<T>, new_: seq<T>)
    requires old_ != [] && j + |old_| <= |s| && !OccursAt(old_, s, j)
    ensures ReplaceAll(s[j..], old_, new_) == [s[j]] + ReplaceAll(s[j + 1..], old_, new_)
  {
    OccursAtTail(old_, s, j, 0);
    OccursAtHead(old_, s[j..]);
    assert s[j..][1..] == s[j + 1..];
  }

  lemma ReplaceAllHit<T>(s: seq<T>, k: nat, old_: seq<T>, new_: seq<T>)
    requires old_ != [] && OccursAt(old_, s, k)
    ensures ReplaceAll(s[k..], old_, new_) == new_ + ReplaceAll(s[k + |old_|..], old_, new_)
  {
    OccursAtTail(old_, s, k, 0);
    OccursAtHead(old_, s[k..]);
    assert s[k..][|old_|..] == s[k + |old_|..];
  }

  lemma SliceFront<T>(s: seq<T>, j: nat, k: nat, a: seq<T>, b: seq<T>)
    requires j < k <= |s|
    ensures [s[j]] + (s[j + 1..k] + a + b) == s[j..k] + a + b
  {
    assert s[j..k] == [s[j]] + s[j + 1..k];
  }

  // ---------------------------------------------------------------- replacing between pieces

  /** No proper end of the text is also its beginning, so occurrences never overlap. */
  predicate Borderless<T(==)>(v: seq<T>) {
    forall k :: 0 < k < |v| ==> v[k..] != v[..|v| - k]
  }

  lemma NotBeforePiece<T>(piece: seq<T>, v: seq<T>, rest: seq<T>, i: nat)
    requires v != [] && Borderless(v) && !Occurs(v, piece) && i < |piece|
    ensures !OccursAt(v, piece + v + rest, i)
  {
    var s, k := piece + v + rest, |piece| - i;
    if i + |v| <= |piece| {
      assert s[i..i + |v|] == piece[i..i + |v|];
      assert !OccursAt(v, piece, i);
    } else {
      assert s[i..i + |v|][k..] == v[..|v| - k];
      assert v[k..] != v[..|v| - k];
    }
  }

  /** Replacing in text joined by what is replaced is joining by the replacement. */
  lemma {:induction false} ReplaceAllJoin<T>(pieces: seq<seq<T>>, old_: seq<T>, new_: seq<T>)
    requires pieces != [] && old_ != [] && Borderless(old_)
    requires forall i :: 0 <= i < |pieces| ==> !Occurs(old_, pieces[i])
    ensures ReplaceAll(Join(pieces, old_), old_, new_) == Join(pieces, new_)
  {
    if |pieces| == 1 {
      ReplaceAllAbsent(pieces[0], old_, new_);
    } else {
      var first, rest := pieces[0], Join(pieces[1..], old_);
      ReplaceAllJoin(pieces[1..], old_, new_);
      Slices(first, old_, rest);
      var s := first + old_ + rest;
      assert OccursAt(old_, s, |first|) && s[..|first|] == first;
      forall i | 0 <= i < |first| ensures !OccursAt(old_, s, i) { NotBeforePiece(first, old_, rest, i); }
      ReplaceAllAtFirst(s, |first|, old_, new_);
    }
  }

  /** Every text is joined that way. */
  lemma {:induction false} JoinedPieces<T>(s: seq<T>, v: seq<T>) returns (pieces: seq<seq<T>>)
    requires v != []
    ensures pieces != [] && s == Join(pieces, v) && forall i :: 0 <= i < |pieces| ==> !Occurs(v, pieces[i])
    decreases |s|
  {
    var k := Index(s, v);
    if k == -1 {
      pieces := [s];
    } else {
      var more := JoinedPieces(s[k + |v|..], v);
      pieces := [s[..k]] + more;
      JoinOneMore(s[..k], more, v);
      CutAt(s, v, k);
    }
  }

  lemma JoinOneMore<T>(first: seq<T>, more: seq<seq<T>>, v: seq<T>)
    requires more != []
    ensures Join([first] + more, v) == first + v + Join(more, v)
  {
    assert ([first] + more)[1..] == more;
  }

  /** Cutting a text at its first occurrence. */
  lemma CutAt<T>(s: seq<T>, v: seq<T>, k: nat)
    requires OccursAt(v, s, k) && forall i :: 0 <= i < k ==> !OccursAt(v, s, i)
    requires v != []
    ensures s == s[..k] + v + s[k + |v|..] && !Occurs(v, s[..k])
  {
    forall i | 0 <= i <= k - |v| ensures !OccursAt(v, s[..k], i) {
      assert s[..k][i..i + |v|] == s[i..i + |v|];
      assert !OccursAt(v, s, i);
    }
  }
}
