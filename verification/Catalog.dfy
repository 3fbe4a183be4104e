/** Static catalogs: composition, validation and per-provider views (internal/catalog/catalog.go). */
module Catalog {
  import opened Common
  import opened Provider

  const SCHEMA_VERSION := 1

  datatype Document = Document(
    schemaVersion: int, publishedAt: Option<int>, expiresAt: Option<int>, entries: seq<Target>)

  function TargetIds(targets: seq<Target>): (ids: seq<string>)
    ensures |ids| == |targets|
  {
    seq(|targets|, i requires 0 <= i < |targets| => targets[i].id)
  }

  function AllEntries(docs: seq<Document>): seq<Target> {
    if docs == [] then [] else AllEntries(docs[..|docs| - 1]) + docs[|docs| - 1].entries
  }

  predicate SchemasMatch(docs: seq<Document>) {
    forall i :: 0 <= i < |docs| ==> docs[i].schemaVersion == SCHEMA_VERSION
  }

  /** The composition: every entry of every document, provided all ids differ. */
  function Composed(docs: seq<Document>): Result<Document> {
    if SchemasMatch(docs) && NoDup(TargetIds(AllEntries(docs)))
    then Ok(Document(SCHEMA_VERSION, None, None, AllEntries(docs)))
    else Err
  }

  /** `Compose` with its set of seen ids. */
  method Compose(docs: seq<Document>) returns (r: Result<Document>)
    ensures r == Composed(docs)
  {
    var entries: seq<Target> := [];
    var seen: set<string> := {};
    for d := 0 to |docs|
      invariant entries == AllEntries(docs[..d])
      invariant forall i :: 0 <= i < d ==> docs[i].schemaVersion == SCHEMA_VERSION
      invariant NoDup(TargetIds(entries)) && seen == set x | x in TargetIds(entries)
    {
      if docs[d].schemaVersion != SCHEMA_VERSION {
        return Err;
      }
      assert docs[..d + 1][..d] == docs[..d];
      EntriesPrefix(docs, d + 1);
      var added;
      added, entries, seen := AddEntries(entries, seen, docs[d].entries);
      if !added {
        RepeatedInPrefix(AllEntries(docs[..d + 1]), AllEntries(docs));
        return Err;
      }
    }
    assert docs[..|docs|] == docs;
    return Ok(Document(SCHEMA_VERSION, None, None, entries));
  }

  /** The inner loop; it stops at the first id seen before. */
  method AddEntries(start: seq<Target>, seenBefore: set<string>, more: seq<Target>)
    returns (ok: bool, entries: seq<Target>, seen: set<string>)
    requires NoDup(TargetIds(start)) && seenBefore == set x | x in TargetIds(start)
    ensures ok <==> NoDup(TargetIds(start + more))
    ensures ok ==> entries == start + more && seen == set x | x in TargetIds(entries)
  {
    entries, seen := start, seenBefore;
    for k := 0 to |more|
      invariant entries == start + more[..k]
      invariant NoDup(TargetIds(entries)) && seen == set x | x in TargetIds(entries)
    {
      assert start + more[..k + 1] == start + more[..k] + [more[k]];
      NoDupExtend(entries, more[k]);
      if more[k].id in seen {
        RepeatedInPrefix(entries + [more[k]], start + more);
        return false, entries, seen;
      }
      seen := seen + {more[k].id};
      entries := entries + [more[k]];
    }
    assert more[..|more|] == more;
    ok := true;
  }

  lemma NoDupExtend(entries: seq<Target>, t: Target)
    requires NoDup(TargetIds(entries))
    ensures NoDup(TargetIds(entries + [t])) <==> t.id !in TargetIds(entries)
    ensures (set x | x in TargetIds(entries + [t])) == (set x | x in TargetIds(entries)) + {t.id}
  {
    assert TargetIds(entries + [t]) == TargetIds(entries) + [t.id];
    NoDupSnoc(TargetIds(entries), t.id);
  }

  lemma {:induction false} EntriesPrefix(docs: seq<Document>, n: nat)
    requires n <= |docs|
    ensures AllEntries(docs[..n]) <= AllEntries(docs)
    decreases |docs| - n
  {
    if n < |docs| {
      assert docs[..n + 1][..n] == docs[..n];
      EntriesPrefix(docs, n + 1);
    } else {
      assert docs[..n] == docs;
    }
  }

  lemma RepeatedInPrefix(a: seq<Target>, b: seq<Target>)
    requires a <= b && !NoDup(TargetIds(a))
    ensures !NoDup(TargetIds(b))
  {
    var i, j :| 0 <= i < j < |a| && TargetIds(a)[i] == TargetIds(a)[j];
    assert TargetIds(b)[i] == TargetIds(b)[j];
  }

  // ---------------------------------------------------------------- composing in stages

  /** Composing two results; a failed part fails the whole. */
  function ComposePair(a: Result<Document>, b: Result<Document>): Result<Document> {
    if a.Ok? && b.Ok? then Composed([a.value, b.value]) else Err
  }

  lemma {:induction false} AllEntriesConcat(a: seq<Document>, b: seq<Document>)
    ensures AllEntries(a + b) == AllEntries(a) + AllEntries(b)
    decreases |b|
  {
    if b == [] {
      assert a + b == a;
    } else {
      assert (a + b)[..|a + b| - 1] == a + b[..|b| - 1];
      AllEntriesConcat(a, b[..|b| - 1]);
    }
  }

  lemma AllEntriesPair(a: Document, b: Document)
    ensures AllEntries([a, b]) == a.entries + b.entries
  {
    assert [a, b][..1] == [a] && [a][..0] == [];
    assert AllEntries([a]) == AllEntries([]) + a.entries == a.entries;
    assert AllEntries([a, b]) == AllEntries([a]) + b.entries;
  }

  /** Documents can be composed in any grouping: failures included, only the whole list matters. */
  lemma ComposeInStages(a: seq<Document>, b: seq<Document>)
    ensures Composed(a + b) == ComposePair(Composed(a), Composed(b))
  {
    AllEntriesConcat(a, b);
    SchemasConcat(a, b);
    IdsConcat(AllEntries(a), AllEntries(b));
    if Composed(a).Ok? && Composed(b).Ok? {
      AllEntriesPair(Composed(a).value, Composed(b).value);
    }
  }

  lemma SchemasConcat(a: seq<Document>, b: seq<Document>)
    ensures SchemasMatch(a + b) <==> SchemasMatch(a) && SchemasMatch(b)
  {
    assert forall i :: 0 <= i < |b| ==> (a + b)[|a| + i] == b[i];
    assert forall i :: 0 <= i < |a| ==> (a + b)[i] == a[i];
  }

  lemma IdsConcat(x: seq<Target>, y: seq<Target>)
    ensures NoDup(TargetIds(x + y)) ==> NoDup(TargetIds(x)) && NoDup(TargetIds(y))
  {
    assert TargetIds(x + y) == TargetIds(x) + TargetIds(y);
    if NoDup(TargetIds(x + y)) { NoDupParts(TargetIds(x), TargetIds(y)); }
  }

  /** Composition is associative, failures included. */
  lemma ComposeAssociative(a: Document, b: Document, c: Document)
    ensures ComposePair(Composed([a, b]), Composed([c])) == ComposePair(Composed([a]), Composed([b, c]))
    ensures ComposePair(Composed([a, b]), Composed([c])) == Composed([a, b, c])
  {
    ComposeInStages([a, b], [c]);
    ComposeInStages([a], [b, c]);
    assert [a, b] + [c] == [a, b, c] == [a] + [b, c];
  }

  // ---------------------------------------------------------------- validation

  /** What `Parse` demands of a decoded document. */
  predicate Accepted(valid: (string, Target) -> bool, providerIds: seq<string>, doc: Document) {
    && doc.schemaVersion == SCHEMA_VERSION
    && NoDup(TargetIds(doc.entries))
    && forall i :: 0 <= i < |doc.entries| ==> EntryOk(valid, providerIds, doc.entries[i])
  }

  predicate EntryOk(valid: (string, Target) -> bool, providerIds: seq<string>, t: Target) {
    t.providerId in providerIds && valid(t.providerId, t)
  }

  /** The validation loop of `Parse`. */
  method ValidateDocument(valid: (string, Target) -> bool, providerIds: seq<string>, doc: Document) returns (ok: bool)
    ensures ok == Accepted(valid, providerIds, doc)
  {
    if doc.schemaVersion != SCHEMA_VERSION {
      return false;
    }
    var known := set id | id in providerIds;
    var seen: set<string> := {};
    for i := 0 to |doc.entries|
      invariant forall id :: id in seen <==> exists k :: 0 <= k < i && doc.entries[k].id == id
      invariant forall j, k :: 0 <= j < k < i ==> doc.entries[j].id != doc.entries[k].id
      invariant forall j :: 0 <= j < i ==> EntryOk(valid, providerIds, doc.entries[j])
    {
      var target := doc.entries[i];
      if target.providerId !in known {
        return false;
      }
      if target.id in seen {
        var k :| 0 <= k < i && doc.entries[k].id == target.id;
        assert TargetIds(doc.entries)[k] == TargetIds(doc.entries)[i];
        return false;
      }
      seen := seen + {target.id};
      if !valid(target.providerId, target) {
        return false;
      }
    }
    return true;
  }

  lemma {:induction false} EntryComesFrom(docs: seq<Document>, i: nat) returns (d: nat, k: nat)
    requires i < |AllEntries(docs)|
    ensures d < |docs| && k < |docs[d].entries| && docs[d].entries[k] == AllEntries(docs)[i]
  {
    var front := docs[..|docs| - 1];
    if i < |AllEntries(front)| {
      d, k := EntryComesFrom(front, i);
    } else {
      d, k := |docs| - 1, i - |AllEntries(front)|;
    }
  }

  /** Composing accepted documents gives an accepted document. */
  lemma ComposedAccepted(valid: (string, Target) -> bool, providerIds: seq<string>, docs: seq<Document>)
    requires forall d :: 0 <= d < |docs| ==> Accepted(valid, providerIds, docs[d])
    requires Composed(docs).Ok?
    ensures Accepted(valid, providerIds, Composed(docs).value)
  {
    var all := AllEntries(docs);
    forall i | 0 <= i < |all| ensures EntryOk(valid, providerIds, all[i]) {
      var d, k := EntryComesFrom(docs, i);
      assert Accepted(valid, providerIds, docs[d]);
    }
  }

  // ---------------------------------------------------------------- per-provider views

  function OfProvider(entries: seq<Target>, id: string): seq<Target> {
    if entries == [] then []
    else OfProvider(entries[..|entries| - 1], id)
         + (if entries[|entries| - 1].providerId == id then [entries[|entries| - 1]] else [])
  }

  /** `Document.Targets`. */
  method TargetsOf(doc: Document, id: string) returns (targets: seq<Target>)
    ensures targets == OfProvider(doc.entries, id)
  {
    targets := [];
    for i := 0 to |doc.entries|
      invariant targets == OfProvider(doc.entries[..i], id)
    {
      assert doc.entries[..i + 1][..i] == doc.entries[..i];
      if doc.entries[i].providerId == id {
        targets := targets + [doc.entries[i]];
      }
    }
    assert doc.entries[..|doc.entries|] == doc.entries;
  }

  function Grouped(entries: seq<Target>, ids: seq<string>): seq<Target> {
    if ids == [] then [] else OfProvider(entries, ids[0]) + Grouped(entries, ids[1..])
  }

  lemma {:induction false} OfProviderMembers(entries: seq<Target>, id: string)
    ensures forall t :: t in OfProvider(entries, id) ==> t in entries && t.providerId == id
  {
    if entries != [] { OfProviderMembers(entries[..|entries| - 1], id); }
  }

  lemma {:induction false} GroupedNothing(ids: seq<string>)
    ensures Grouped([], ids) == []
  {
    if ids != [] { GroupedNothing(ids[1..]); }
  }

  lemma OfProviderGrows(entries: seq<Target>, t: Target, id: string)
    ensures OfProvider(entries + [t], id) == OfProvider(entries, id) + (if t.providerId == id then [t] else [])
  {
    assert (entries + [t])[..|entries + [t]| - 1] == entries;
  }

  function Once(t: Target, present: bool): multiset<Target> {
    if present then multiset{t} else multiset{}
  }

  lemma OnceSplit(t: Target, ids: seq<string>)
    requires ids != [] && ids[0] !in ids[1..]
    ensures Once(t, t.providerId in ids) == Once(t, t.providerId == ids[0]) + Once(t, t.providerId in ids[1..])
  {
    assert t.providerId in ids <==> t.providerId == ids[0] || t.providerId in ids[1..];
  }

  lemma Shuffle(a: multiset<Target>, b: multiset<Target>, x: multiset<Target>, y: multiset<Target>)
    ensures (a + x) + (b + y) == (a + b) + (x + y)
  {
  }

  lemma {:induction false} GroupedGrows(entries: seq<Target>, t: Target, ids: seq<string>)
    requires NoDup(ids)
    ensures multiset(Grouped(entries + [t], ids)) == multiset(Grouped(entries, ids)) + Once(t, t.providerId in ids)
    decreases ids
  {
    if ids != [] {
      var id, rest, all := ids[0], ids[1..], entries + [t];
      assert NoDup(rest) && id !in rest by {
        assert forall i :: 0 <= i < |rest| ==> rest[i] == ids[i + 1];
      }
      GroupedGrows(entries, t, rest);
      OfProviderGrows(entries, t, id);
      var own, others := multiset(OfProvider(entries, id)), multiset(Grouped(entries, rest));
      assert multiset(OfProvider(all, id)) == own + Once(t, t.providerId == id);
      assert multiset(Grouped(all, ids)) == multiset(OfProvider(all, id)) + multiset(Grouped(all, rest));
      assert multiset(Grouped(entries, ids)) == own + others;
      OnceSplit(t, ids);
      Shuffle(own, others, Once(t, t.providerId == id), Once(t, t.providerId in rest));
    }
  }

  /** Grouping by provider keeps every entry, and keeps each exactly as often. */
  lemma {:induction false} GroupedConserves(entries: seq<Target>, ids: seq<string>)
    requires NoDup(ids) && forall i :: 0 <= i < |entries| ==> entries[i].providerId in ids
    ensures multiset(Grouped(entries, ids)) == multiset(entries)
  {
    if entries == [] {
      GroupedNothing(ids);
    } else {
      var front, last := entries[..|entries| - 1], entries[|entries| - 1];
      assert entries == front + [last];
      GroupedConserves(front, ids);
      GroupedGrows(front, last, ids);
    }
  }
}
