/**
  Redaction of failure summaries (internal/diagnostics/diagnostics.go).

  The error text is rewritten once per value.  Replacing one value pastes the
  marker into the text, so a later value could in principle appear across or
  inside a marker, and an earlier one could come back.
 */
module Redaction {
  import opened Common
  import opened Provider
  import opened Text

  const MARKER: string := "<redacted>"

  /** One pass per non-empty value, in order. */
  function Redact(text: string, values: seq<string>): string
    decreases |values|
  {
    if values == [] then text
    else if values[0] == "" then Redact(text, values[1..])
    else Redact(ReplaceAll(text, values[0], MARKER), values[1..])
  }

  predicate Clean(text: string, values: seq<string>) {
    forall i :: 0 <= i < |values| && values[i] != "" ==> !Occurs(values[i], text)
  }

  /** No value can be read inside the marker. */
  predicate NotInMarker(values: seq<string>) {
    Clean(MARKER, values)
  }

  predicate IsSuffix(p: string, s: string) {
    |p| <= |s| && s[|s| - |p|..] == p
  }

  /** From position `k` on, the value agrees with the marker for as long as both last. */
  predicate RunsInto(v: string, k: nat)
    requires k <= |v|
  {
    v[k..] <= MARKER || MARKER <= v[k..]
  }

  /**
    The value cannot overlap an edge of the marker: no part of it but the whole
    runs into the marker's start, and none but the whole ends the marker.
   */
  predicate Apart(v: string) {
    forall k :: 0 < k < |v| ==> !RunsInto(v, k) && !IsSuffix(v[..k], MARKER)
  }

  predicate AllApart(values: seq<string>) {
    forall i :: 0 <= i < |values| ==> Apart(values[i])
  }

  // ---------------------------------------------------------------- one replacement

  /** Some front of the value ends the marker. */
  predicate EndsMarker(v: string) {
    exists k :: 0 < k < |v| && IsSuffix(v[..k], MARKER)
  }

  /** A value that starts inside a leading marker lies inside it, or its front ends the marker. */
  lemma OccursAcrossMarker(v: string, rest: string, i: nat)
    requires v != "" && i < |MARKER| && OccursAt(v, MARKER + rest, i)
    ensures Occurs(v, MARKER) || EndsMarker(v)
  {
    var out := MARKER + rest;
    if i + |v| <= |MARKER| {
      assert out[i..i + |v|] == MARKER[i..i + |v|];
      assert OccursAt(v, MARKER, i);
    } else {
      var k := |MARKER| - i;
      assert v[..k] == out[i..i + |v|][..k] == MARKER[i..];
      assert IsSuffix(v[..k], MARKER);
    }
  }

  lemma AbsentAfterMarker(v: string, rest: string)
    requires v != "" && !EndsMarker(v) && !Occurs(v, MARKER) && !Occurs(v, rest)
    ensures !Occurs(v, MARKER + rest)
  {
    var out := MARKER + rest;
    assert out[|MARKER|..] == rest;
    forall i | 0 <= i <= |out| - |v| ensures !OccursAt(v, out, i) {
      if i >= |MARKER| {
        OccursAtTail(v, out, |MARKER|, i - |MARKER|);
      } else if OccursAt(v, out, i) {
        OccursAcrossMarker(v, rest, i);
      }
    }
  }

  lemma AbsentAfterChar(v: string, c: char, rest: string)
    requires v != "" && !Occurs(v, rest) && !(v <= [c] + rest)
    ensures !Occurs(v, [c] + rest)
  {
    var out := [c] + rest;
    assert out[1..] == rest;
    OccursAtHead(v, out);
    forall i | 0 <= i <= |out| - |v| ensures !OccursAt(v, out, i) {
      if i > 0 { OccursAtTail(v, out, 1, i - 1); }
    }
  }

  /** The first occurrence of `w` in `front + w` is the one behind `front`. */
  predicate FirstAfter(front: string, w: string) {
    forall i :: 0 <= i < |front| ==> !OccursAt(w, front + w, i)
  }

  /** A front of `v` before a replaced `w`, together with the marker, spells `v`. */
  predicate RunsThrough(v: string, w: string) {
    exists k :: 0 < k < |v| && RunsInto(v, k) && FirstAfter(v[..k], w)
  }

  /** Replacing `w` may show `v` across an edge of the marker. */
  predicate Overlaps(v: string, w: string) {
    EndsMarker(v) || RunsThrough(v, w)
  }

  lemma PrefixesCompare(p: string, a: string, b: string)
    requires p <= a + b
    ensures p <= a || a <= p
  {
    if |p| <= |a| {
      assert p == (a + b)[..|p|] == a[..|p|];
    } else {
      assert p[..|a|] == (a + b)[..|p|][..|a|] == a;
    }
  }

  /** `v` shows at the front of text and marker: the text began with it, or `v` runs into the marker. */
  lemma HeadBeforeMarker(v: string, w: string, t: string, k: nat, rest: string)
    requires 0 < k && OccursAt(w, t, k) && v <= t[..k] + (MARKER + rest)
    requires forall i :: 0 <= i < k ==> !OccursAt(w, t, i)
    ensures v <= t || RunsThrough(v, w)
  {
    if |v| <= k {
      PrefixOfFront(v, t[..k], MARKER + rest);
    } else {
      PrefixBeyondFront(v, t[..k], MARKER + rest);
      PrefixesCompare(v[k..], MARKER, rest);
      FirstAfterScan(t[..k], w, t);
      assert RunsInto(v, k) && FirstAfter(v[..k], w);
    }
  }

  lemma PrefixOfFront(p: string, a: string, b: string)
    requires p <= a + b && |p| <= |a|
    ensures p <= a
  {
    assert p == (a + b)[..|p|] == a[..|p|];
  }

  lemma PrefixBeyondFront(p: string, a: string, b: string)
    requires p <= a + b && |a| <= |p|
    ensures p[..|a|] == a && p[|a|..] <= b
  {
    var whole := a + b;
    assert p == whole[..|p|];
    assert p[..|a|] == whole[..|a|] == a && p[|a|..] == whole[|a|..|p|] == b[..|p| - |a|];
  }

  lemma FirstAfterScan(front: string, w: string, t: string)
    requires |front| <= |t| && t[..|front|] == front && OccursAt(w, t, |front|)
    requires forall i :: 0 <= i < |front| ==> !OccursAt(w, t, i)
    ensures FirstAfter(front, w)
  {
    var whole, j := front + w, |front|;
    assert whole == t[..j + |w|];
    forall i | 0 <= i < j ensures !OccursAt(w, whole, i) {
      assert whole[i..i + |w|] == t[i..i + |w|];
      assert !OccursAt(w, t, i);
    }
  }

  /** At the front of the rewritten text, `v` shows only if the text began with it. */
  lemma HeadSurvives(v: string, w: string, t: string)
    requires v != "" && w != "" && !Overlaps(v, w) && !(w <= t) && v <= ReplaceAll(t, w, MARKER)
    ensures v <= t
  {
    var k := Index(t, w);
    if k == -1 {
      ReplaceAllAbsent(t, w, MARKER);
    } else {
      OccursAtHead(w, t);
      ReplaceAllAtFirst(t, k, w, MARKER);
      var rest := ReplaceAll(t[k + |w|..], w, MARKER);
      Slices(t[..k], MARKER, rest);
      HeadBeforeMarker(v, w, t, k, rest);
    }
  }

  /** A value that is absent stays absent, unless it overlaps the marker put in place of `w`. */
  lemma {:induction false} NeverBroughtBack(v: string, t: string, w: string)
    requires v != "" && w != "" && !Overlaps(v, w) && !Occurs(v, MARKER) && !Occurs(v, t)
    ensures !Occurs(v, ReplaceAll(t, w, MARKER))
    decreases |t|
  {
    if |t| < |w| {
    } else if w <= t {
      AbsentInTail(v, t, |w|);
      NeverBroughtBack(v, t[|w|..], w);
      AbsentAfterMarker(v, ReplaceAll(t[|w|..], w, MARKER));
    } else {
      AbsentInTail(v, t, 1);
      NeverBroughtBack(v, t[1..], w);
      OccursAtHead(v, t);
      if v <= ReplaceAll(t, w, MARKER) { HeadSurvives(v, w, t); }
      AbsentAfterChar(v, t[0], ReplaceAll(t[1..], w, MARKER));
    }
  }

  /** Replacing a value removes every occurrence of it, unless it overlaps its own marker. */
  lemma {:induction false} ReplacedIsGone(v: string, t: string)
    requires v != "" && !Overlaps(v, v) && !Occurs(v, MARKER)
    ensures !Occurs(v, ReplaceAll(t, v, MARKER))
    decreases |t|
  {
    if |t| < |v| {
    } else if v <= t {
      ReplacedIsGone(v, t[|v|..]);
      AbsentAfterMarker(v, ReplaceAll(t[|v|..], v, MARKER));
    } else {
      ReplacedIsGone(v, t[1..]);
      if v <= ReplaceAll(t, v, MARKER) { HeadSurvives(v, v, t); }
      AbsentAfterChar(v, t[0], ReplaceAll(t[1..], v, MARKER));
    }
  }

  // ---------------------------------------------------------------- the whole list

  /** No value overlaps the marker put in place of itself or of a later value. */
  ghost predicate NoOverlaps(values: seq<string>) {
    forall i, j :: 0 <= i <= j < |values| && values[i] != "" && values[j] != "" ==> !Overlaps(values[i], values[j])
  }

  /** Values apart from the marker overlap it nowhere, whatever is replaced. */
  lemma ApartOverlapsNothing(v: string, w: string)
    requires Apart(v)
    ensures !Overlaps(v, w)
  {
  }

  lemma AllApartNoOverlaps(values: seq<string>)
    requires AllApart(values)
    ensures NoOverlaps(values)
  {
    forall i, j | 0 <= i <= j < |values| ensures !Overlaps(values[i], values[j]) {
      ApartOverlapsNothing(values[i], values[j]);
    }
  }

  lemma NoOverlapsTail(values: seq<string>)
    requires values != [] && NoOverlaps(values)
    ensures NoOverlaps(values[1..])
    ensures values[0] != "" ==>
      forall j :: 0 <= j < |values[1..]| && values[1..][j] != "" ==> !Overlaps(values[0], values[1..][j])
  {
    assert forall i :: 0 <= i < |values[1..]| ==> values[1..][i] == values[i + 1];
  }

  /** A value absent before a run of replacements is absent after it. */
  lemma {:induction false} AbsentStaysAbsent(v: string, text: string, values: seq<string>)
    requires v != "" && !Occurs(v, MARKER) && !Occurs(v, text)
    requires forall j :: 0 <= j < |values| && values[j] != "" ==> !Overlaps(v, values[j])
    ensures !Occurs(v, Redact(text, values))
    decreases |values|
  {
    if values != [] {
      assert forall j :: 0 <= j < |values[1..]| ==> values[1..][j] == values[j + 1];
      if values[0] == "" {
        AbsentStaysAbsent(v, text, values[1..]);
      } else {
        NeverBroughtBack(v, text, values[0]);
        AbsentStaysAbsent(v, ReplaceAll(text, values[0], MARKER), values[1..]);
      }
    }
  }

  /** The redacted text contains none of the values. */
  lemma {:induction false} RedactedIsClean(text: string, values: seq<string>)
    requires NoOverlaps(values) && NotInMarker(values)
    ensures Clean(Redact(text, values), values)
    decreases |values|
  {
    if values != [] {
      var v, rest := values[0], values[1..];
      var next := if v == "" then text else ReplaceAll(text, v, MARKER);
      assert forall i :: 0 <= i < |rest| ==> rest[i] == values[i + 1];
      NoOverlapsTail(values);
      RedactedIsClean(next, rest);
      if v != "" {
        ReplacedIsGone(v, text);
        AbsentStaysAbsent(v, next, rest);
      }
      forall i | 0 <= i < |values| && values[i] != ""
        ensures !Occurs(values[i], Redact(text, values))
      {
        if i > 0 { assert values[i] == rest[i - 1]; }
      }
    }
  }

  /** A text without any of the values is left alone. */
  lemma {:induction false} CleanTextUnchanged(text: string, values: seq<string>)
    requires Clean(text, values)
    ensures Redact(text, values) == text
    decreases |values|
  {
    if values != [] {
      assert forall i :: 0 <= i < |values[1..]| ==> values[1..][i] == values[i + 1];
      CleanTextUnchanged(text, values[1..]);
      if values[0] != "" {
        ReplaceAllAbsent(text, values[0], MARKER);
      }
    }
  }

  /** Redacting twice is redacting once. */
  lemma {:induction false} RedactIdempotent(text: string, values: seq<string>)
    requires NoOverlaps(values) && NotInMarker(values)
    ensures Redact(Redact(text, values), values) == Redact(text, values)
  {
    RedactedIsClean(text, values);
    CleanTextUnchanged(Redact(text, values), values);
  }

  // ---------------------------------------------------------------- exactly when

  lemma {:induction false} ReplacementLeavesMarker(s: string, v: string)
    requires v != "" && Occurs(v, s)
    ensures Occurs(MARKER, ReplaceAll(s, v, MARKER))
    decreases |s|
  {
    var out := ReplaceAll(s, v, MARKER);
    if v <= s {
      assert OccursAt(MARKER, out, 0);
    } else {
      var i :| 0 <= i <= |s| - |v| && OccursAt(v, s, i);
      OccursAtHead(v, s);
      OccursAtTail(v, s, 1, i - 1);
      ReplacementLeavesMarker(s[1..], v);
      assert out[1..] == ReplaceAll(s[1..], v, MARKER);
      OccursInTail(MARKER, out, 1);
    }
  }

  lemma {:induction false} MarkerRemains(text: string, values: seq<string>)
    requires Occurs(MARKER, text)
    ensures Occurs(MARKER, Redact(text, values))
    decreases |values|
  {
    if values != [] {
      if values[0] == "" {
        MarkerRemains(text, values[1..]);
      } else {
        if Occurs(values[0], text) {
          ReplacementLeavesMarker(text, values[0]);
        } else {
          ReplaceAllAbsent(text, values[0], MARKER);
        }
        MarkerRemains(ReplaceAll(text, values[0], MARKER), values[1..]);
      }
    }
  }

  /** As soon as anything is replaced, the result holds a marker. */
  lemma {:induction false} HitLeavesMarker(text: string, values: seq<string>)
    requires !Clean(text, values)
    ensures Occurs(MARKER, Redact(text, values))
    decreases |values|
  {
    var v := values[0];
    assert forall i :: 0 <= i < |values[1..]| ==> values[1..][i] == values[i + 1];
    if v != "" && Occurs(v, text) {
      ReplacementLeavesMarker(text, v);
      MarkerRemains(ReplaceAll(text, v, MARKER), values[1..]);
    } else {
      if v != "" { ReplaceAllAbsent(text, v, MARKER); }
      var k :| 0 <= k < |values| && values[k] != "" && Occurs(values[k], text);
      assert values[1..][k - 1] == values[k];
      HitLeavesMarker(text, values[1..]);
    }
  }

  /**
    Exactly when values without such overlaps are all gone: either the text held
    none of them to begin with, or none of them can be read inside the marker.
   */
  lemma {:induction false} RedactedIsCleanIff(text: string, values: seq<string>)
    requires NoOverlaps(values)
    ensures Clean(Redact(text, values), values) <==> Clean(text, values) || NotInMarker(values)
  {
    if NotInMarker(values) {
      RedactedIsClean(text, values);
    } else if Clean(text, values) {
      CleanTextUnchanged(text, values);
    } else {
      HitLeavesMarker(text, values);
      var i :| 0 <= i < |values| && values[i] != "" && Occurs(values[i], MARKER);
      OccursThrough(values[i], MARKER, Redact(text, values));
    }
  }

  predicate BracketFree(v: string) {
    '<' !in v && '>' !in v
  }

  /** Values without brackets stay apart from the marker; to be in it, they must be in its letters. */
  lemma BracketFreeIsApart(v: string)
    requires v != "" && BracketFree(v)
    ensures Apart(v)
    ensures Occurs(v, MARKER) <==> Occurs(v, "redacted")
  {
    forall k | 0 < k < |v| ensures !RunsInto(v, k) && !IsSuffix(v[..k], MARKER) {
      assert v[k..][0] == v[k] && v[..k][k - 1] == v[k - 1];
      assert MARKER[0] == '<' && MARKER[|MARKER| - 1] == '>';
      assert k <= |MARKER| ==> MARKER[|MARKER| - k..][k - 1] == '>';
    }
    assert MARKER[1..9] == "redacted";
    forall i | 0 <= i <= |MARKER| - |v| && OccursAt(v, MARKER, i) ensures Occurs(v, "redacted") {
      assert forall j :: i <= j < i + |v| ==> MARKER[j] == MARKER[i..i + |v|][j - i] == v[j - i];
      assert MARKER[0] == '<' && MARKER[9] == '>' && 0 < i && i + |v| <= 9;
      assert "redacted"[i - 1..i - 1 + |v|] == MARKER[i..i + |v|];
      assert OccursAt(v, "redacted", i - 1);
    }
    if Occurs(v, "redacted") {
      assert OccursAt("redacted", MARKER, 1);
      OccursThrough(v, "redacted", MARKER);
    }
  }

  /** For values without brackets, the condition is that none of them is part of the word `redacted`. */
  lemma {:induction false} BracketFreeCleanIff(text: string, values: seq<string>)
    requires forall i :: 0 <= i < |values| ==> BracketFree(values[i])
    ensures Clean(Redact(text, values), values) <==> Clean(text, values) || Clean("redacted", values)
  {
    forall i | 0 <= i < |values|
      ensures Apart(values[i]) && (values[i] != "" ==> (Occurs(values[i], MARKER) <==> Occurs(values[i], "redacted")))
    {
      if values[i] != "" { BracketFreeIsApart(values[i]); }
    }
    AllApartNoOverlaps(values);
    RedactedIsCleanIff(text, values);
  }

  // ---------------------------------------------------------------- which values can leak

  /** The values for which some text still shows the value after replacing it. */
  predicate CanLeak(v: string) {
    Occurs(v, MARKER) || Overlaps(v, v)
  }

  /** The front of the value ends the marker: one occurrence followed by its own tail leaks. */
  lemma EndLeaks(v: string, k: nat)
    requires 0 < k < |v| && IsSuffix(v[..k], MARKER)
    ensures Occurs(v, ReplaceAll(v + v[k..], v, MARKER))
  {
    ReplaceAllStep(v, v[k..], MARKER);
    EndSpells(v, k);
  }

  lemma EndSpells(v: string, k: nat)
    requires 0 < k < |v| && IsSuffix(v[..k], MARKER)
    ensures Occurs(v, MARKER + v[k..])
  {
    var front := MARKER[..|MARKER| - k];
    assert MARKER == front + v[..k] && v == v[..k] + v[k..];
    Slices(front, v[..k], v[k..]);
    OccursAtHead(v, v);
    OccursShift(v, front, v);
  }

  /** What remains of the value once it has run through a whole marker. */
  function Beyond(v: string, k: nat): string
    requires k <= |v|
  {
    if MARKER <= v[k..] then v[k..][|MARKER|..] else ""
  }

  lemma BeyondContinues(v: string, k: nat)
    requires k <= |v| && RunsInto(v, k)
    ensures v[k..] <= MARKER + Beyond(v, k)
  {
    if MARKER <= v[k..] {
      assert v[k..] == MARKER + v[k..][|MARKER|..];
    }
  }

  /** Adding text behind the occurrence puts no earlier one in the text. */
  lemma FirstKept(front: string, v: string, rest: string, i: nat)
    requires i < |front| && FirstAfter(front, v)
    ensures !OccursAt(v, front + v + rest, i)
  {
    assert !OccursAt(v, front + v, i);
    assert (front + v + rest)[i..i + |v|] == (front + v)[i..i + |v|];
  }

  lemma ReplacesAt(front: string, v: string, rest: string)
    requires |rest| < |v| && FirstAfter(front, v)
    ensures ReplaceAll(front + v + rest, v, MARKER) == front + MARKER + rest
  {
    var t := front + v + rest;
    Slices(front, v, rest);
    assert OccursAt(v, t, |front|) && t[..|front|] == front;
    forall i | 0 <= i < |front| ensures !OccursAt(v, t, i) { FirstKept(front, v, rest, i); }
    ReplaceAllAtFirst(t, |front|, v, MARKER);
  }

  /** The value runs into the marker: its front before an occurrence of it leaks. */
  lemma RunLeaks(v: string, k: nat)
    requires 0 < k < |v| && RunsInto(v, k) && FirstAfter(v[..k], v)
    ensures Occurs(v, ReplaceAll(v[..k] + v + Beyond(v, k), v, MARKER))
  {
    var rest := Beyond(v, k);
    ReplacesAt(v[..k], v, rest);
    BeyondContinues(v, k);
    PrefixBehind(v[..k], v[k..], MARKER + rest);
    assert v == v[..k] + v[k..];
    Slices(v[..k], MARKER, rest);
    OccursAtHead(v, v[..k] + MARKER + rest);
  }

  lemma PrefixBehind(a: string, b: string, c: string)
    requires b <= c
    ensures a + b <= a + c
  {
    assert (a + c)[..|a| + |b|] == a + c[..|b|];
  }

  /** The text still shows the value after the value has been replaced. */
  predicate Leaks(v: string, t: string)
    requires v != ""
  {
    Occurs(v, ReplaceAll(t, v, MARKER))
  }

  /** A text that shows the value after its own replacement. */
  lemma LeakingText(v: string) returns (t: string)
    requires v != "" && CanLeak(v)
    ensures Leaks(v, t)
  {
    if Occurs(v, MARKER) {
      t := v + "";
      ReplaceAllStep(v, "", MARKER);
      assert MARKER + "" == MARKER;
    } else if EndsMarker(v) {
      var k :| 0 < k < |v| && IsSuffix(v[..k], MARKER);
      t := v + v[k..];
      EndLeaks(v, k);
    } else {
      var k :| 0 < k < |v| && RunsInto(v, k) && FirstAfter(v[..k], v);
      t := v[..k] + v + Beyond(v, k);
      RunLeaks(v, k);
    }
  }

  /** Exactly which values some text still shows after they have been replaced, brackets or not. */
  lemma {:induction false} LeaksIff(v: string)
    requires v != ""
    ensures CanLeak(v) <==> exists t :: Leaks(v, t)
  {
    if CanLeak(v) {
      var t := LeakingText(v);
    } else {
      forall t ensures !Leaks(v, t) { ReplacedIsGone(v, t); }
    }
  }

  /** A value that reads inside the marker survives its own redaction. */
  lemma MarkerLeaksValue()
    ensures Redact("red", ["red"]) == MARKER && Occurs("red", MARKER)
  {
    assert "red"[|"red"|..] == "";
    assert Redact("red", ["red"]) == Redact(MARKER, []);
    assert OccursAt("red", MARKER, 1);
  }

  lemma RedactOne(text: string, v: string)
    requires v != ""
    ensures Redact(text, [v]) == ReplaceAll(text, v, MARKER)
  {
    assert [v][1..] == [];
  }

  /** A value can reappear against the edge of a marker. */
  lemma BracketLeaksValue()
    ensures Redact("xx<", ["x<"]) == "x" + MARKER && Occurs("x<", "x" + MARKER)
  {
    var front, v := "x", "x<";
    assert (front + v)[0..2][1] == 'x' && v[1] == '<';
    ReplacesAt(front, v, "");
    assert front + v + "" == "xx<" && front + MARKER + "" == front + MARKER;
    RedactOne("xx<", v);
    assert v == front + "<" && "<" <= MARKER;
    PrefixBehind(front, "<", MARKER);
    OccursAtHead(v, front + MARKER);
  }

  lemma MarkerLetters()
    ensures MARKER[0] == '<' && MARKER[9] == '>' && |MARKER| == 10
    ensures forall i :: 0 < i < 10 ==> MARKER[i] != '<'
    ensures 'x' !in MARKER
  {
    assert MARKER[1] == 'r' && MARKER[2] == 'e' && MARKER[3] == 'd' && MARKER[4] == 'a' && MARKER[5] == 'c';
    assert MARKER[6] == 't' && MARKER[7] == 'e' && MARKER[8] == 'd';
  }

  /** Neither of these values can leak alone. */
  lemma PairIsHarmless()
    ensures !CanLeak("<<") && !CanLeak("x")
  {
    var v := "<<";
    MarkerLetters();
    forall i | 0 <= i <= |MARKER| - 2 ensures !OccursAt(v, MARKER, i) {
      assert MARKER[i..i + 2][1] == MARKER[i + 1] && v[1] == '<';
    }
    forall i | 0 <= i <= |MARKER| - 1 ensures !OccursAt("x", MARKER, i) {
      assert MARKER[i..i + 1][0] == MARKER[i] && "x"[0] == 'x';
    }
    assert v[..1][0] == '<' && MARKER[9..][0] == '>';
    assert (v[..1] + v)[0..2] == v && OccursAt(v, v[..1] + v, 0);
  }

  /** Together they do: replacing the second puts the first back. */
  lemma PairLeaksValue()
    ensures Redact("<x", ["<<", "x"]) == "<" + MARKER && Occurs("<<", "<" + MARKER)
  {
    var front, text := "<", "<x";
    assert text[1] == 'x' && "<<"[1] == '<' && text[1..] == "x";
    assert ReplaceAll(text, "<<", MARKER) == ['<'] + "x" == text;
    assert (front + "x")[0..1][0] == '<' && "x"[0] == 'x';
    ReplacesAt(front, "x", "");
    assert front + "x" + "" == text && front + MARKER + "" == front + MARKER;
    assert ["<<", "x"][1..] == ["x"];
    RedactOne(text, "x");
    assert "<<" == front + "<" && "<" <= MARKER;
    PrefixBehind(front, "<", MARKER);
    OccursAtHead("<<", front + MARKER);
  }

  // ---------------------------------------------------------------- the code

  function OptionIds(options: seq<SelectedOption>): seq<string> {
    if options == [] then [] else OptionIds(options[..|options| - 1]) + [options[|options| - 1].id]
  }

  function OptionValues(options: seq<SelectedOption>): seq<string> {
    if options == [] then [] else OptionValues(options[..|options| - 1]) + [options[|options| - 1].value]
  }

  lemma {:induction false} RedactAppend(text: string, values: seq<string>, v: string)
    ensures Redact(text, values + [v])
            == if v == "" then Redact(text, values) else ReplaceAll(Redact(text, values), v, MARKER)
    decreases |values|
  {
    if values == [] {
      assert (values + [v])[1..] == [];
    } else {
      assert (values + [v])[1..] == values[1..] + [v];
      RedactAppend(if values[0] == "" then text else ReplaceAll(text, values[0], MARKER), values[1..], v);
    }
  }

  /** `redactError`; an absent error gives the empty text. */
  method RedactError(err: Option<string>, values: seq<string>) returns (text: string)
    ensures err.None? ==> text == ""
    ensures err.Some? ==> text == Redact(err.value, values)
    ensures NoOverlaps(values) && NotInMarker(values) ==> Clean(text, values)
  {
    if err.None? {
      text := "";
      return;
    }
    text := err.value;
    for i := 0 to |values|
      invariant text == Redact(err.value, values[..i])
    {
      assert values[..i + 1] == values[..i] + [values[i]];
      RedactAppend(err.value, values[..i], values[i]);
      if values[i] == "" {
        continue;
      }
      text := ReplaceAll(text, values[i], MARKER);
    }
    assert values[..|values|] == values;
    if NoOverlaps(values) && NotInMarker(values) {
      RedactedIsClean(err.value, values);
    }
  }

  /**
    The fields of `BuildSummary` that the loop and the redaction produce: option
    ids are kept, every option value and every extra value is redacted.
   */
  method BuildSummary(options: seq<SelectedOption>, redactValues: seq<string>, err: Option<string>)
    returns (optionIds: seq<string>, errorText: string)
    ensures optionIds == OptionIds(options)
    ensures err.None? ==> errorText == ""
    ensures err.Some? ==> errorText == Redact(err.value, OptionValues(options) + redactValues)
    ensures NoOverlaps(OptionValues(options) + redactValues) && NotInMarker(OptionValues(options) + redactValues)
            ==> Clean(errorText, OptionValues(options) + redactValues)
  {
    optionIds := [];
    var redactions: seq<string> := [];
    for i := 0 to |options|
      invariant optionIds == OptionIds(options[..i])
      invariant redactions == OptionValues(options[..i])
    {
      assert options[..i + 1][..i] == options[..i];
      optionIds := optionIds + [options[i].id];
      redactions := redactions + [options[i].value];
    }
    assert options[..|options|] == options;
    redactions := redactions + redactValues;
    errorText := RedactError(err, redactions);
  }
}
