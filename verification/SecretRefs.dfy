/**
  Resolution of secret references against a target's declarations and the
  operator's secret store (internal/provider/provider.go, internal/secrets/store.go).
 */
module SecretRefs {
  import opened Common
  import opened Text
  import opened Provider
  import opened Ordering

  /** The ids held by the store; `None` is a nil store. */
  type Store = Option<set<string>>

  predicate Has(store: Store, id: string) {
    store.Some? && id in store.value
  }

  predicate StoreEmpty(store: Store) {
    store.None? || store.value == {}
  }

  function RefIds(refs: seq<SecretRef>): (ids: seq<string>)
    ensures |ids| == |refs|
  {
    seq(|refs|, i requires 0 <= i < |refs| => refs[i].id)
  }

  predicate Declared(secrets: seq<SecretInput>, id: string) {
    exists i :: 0 <= i < |secrets| && secrets[i].id == id
  }

  /** With nothing selected, every stored input is selected under its own id. */
  function Effective(selected: seq<SecretRef>, store: Store): seq<SecretRef> {
    if selected == [] && store.Some?
    then var ids := SortedKeys(store.value); seq(|ids|, i requires 0 <= i < |ids| => SecretRef(ids[i], ids[i]))
    else selected
  }

  /** A blank input id means the declaration's own id. */
  function InputId(ref: SecretRef): string {
    if TrimSpace(ref.inputId) == "" then ref.id else TrimSpace(ref.inputId)
  }

  predicate RefOk(secrets: seq<SecretInput>, store: Store, ref: SecretRef) {
    !Blank(ref.id) && Declared(secrets, ref.id) && ValidOptionId(InputId(ref)) && Has(store, InputId(ref))
  }

  predicate RefsOk(secrets: seq<SecretInput>, store: Store, refs: seq<SecretRef>) {
    NoDup(RefIds(refs)) && forall i :: 0 <= i < |refs| ==> RefOk(secrets, store, refs[i])
  }

  function RefMap(refs: seq<SecretRef>): map<string, string> {
    if refs == [] then map[]
    else RefMap(refs[..|refs| - 1])[refs[|refs| - 1].id := InputId(refs[|refs| - 1])]
  }

  predicate RequiredCovered(secrets: seq<SecretInput>, byId: map<string, string>) {
    forall i :: 0 <= i < |secrets| && secrets[i].required ==> secrets[i].id in byId
  }

  function InDeclarationOrder(secrets: seq<SecretInput>, byId: map<string, string>): seq<SecretRef> {
    if secrets == [] then []
    else
      var last := secrets[|secrets| - 1];
      InDeclarationOrder(secrets[..|secrets| - 1], byId)
      + (if last.id in byId then [SecretRef(last.id, byId[last.id])] else [])
  }

  function Resolve(secrets: seq<SecretInput>, selected: seq<SecretRef>, store: Store): Result<seq<SecretRef>> {
    var refs := Effective(selected, store);
    if RefsOk(secrets, store, refs) && RequiredCovered(secrets, RefMap(refs))
    then Ok(InDeclarationOrder(secrets, RefMap(refs)))
    else Err
  }

  /** `ResolveSecretRefs`: fill the map of selections, check the required ones, list in declaration order. */
  method ResolveSecretRefs(secrets: seq<SecretInput>, selected: seq<SecretRef>, store: Store)
    returns (r: Result<seq<SecretRef>>)
    ensures r == Resolve(secrets, selected, store)
  {
    var refs := DefaultSelection(selected, store);
    var collected := CollectSelected(secrets, refs, store);
    if collected.Err? {
      return Err;
    }
    var covered := CheckRequired(secrets, collected.value);
    if !covered {
      return Err;
    }
    var resolved := ListInOrder(secrets, collected.value);
    return Ok(resolved);
  }

  /** The loop over required declarations. */
  method CheckRequired(secrets: seq<SecretInput>, byId: map<string, string>) returns (ok: bool)
    ensures ok == RequiredCovered(secrets, byId)
  {
    for i := 0 to |secrets|
      invariant forall j :: 0 <= j < i && secrets[j].required ==> secrets[j].id in byId
    {
      if secrets[i].required && secrets[i].id !in byId {
        return false;
      }
    }
    return true;
  }

  /** The listing loop. */
  method ListInOrder(secrets: seq<SecretInput>, byId: map<string, string>) returns (resolved: seq<SecretRef>)
    ensures resolved == InDeclarationOrder(secrets, byId)
  {
    resolved := [];
    for i := 0 to |secrets|
      invariant resolved == InDeclarationOrder(secrets[..i], byId)
    {
      assert secrets[..i + 1][..i] == secrets[..i];
      if secrets[i].id in byId {
        resolved := resolved + [SecretRef(secrets[i].id, byId[secrets[i].id])];
      }
    }
    assert secrets[..|secrets|] == secrets;
  }

  /** The defaulting loop over the store's ids. */
  method DefaultSelection(selected: seq<SecretRef>, store: Store) returns (refs: seq<SecretRef>)
    ensures refs == Effective(selected, store)
  {
    refs := selected;
    if |selected| == 0 && store.Some? {
      var ids := SortedKeys(store.value);
      for i := 0 to |ids|
        invariant refs == Effective([], store)[..i]
      {
        refs := refs + [SecretRef(ids[i], ids[i])];
      }
    }
  }

  /** The checking loop; it stops at the first bad reference. */
  method CollectSelected(secrets: seq<SecretInput>, refs: seq<SecretRef>, store: Store)
    returns (r: Result<map<string, string>>)
    ensures r == if RefsOk(secrets, store, refs) then Ok(RefMap(refs)) else Err
  {
    var declarations: set<string> := set d | d in secrets :: d.id;
    var selectedById: map<string, string> := map[];
    for i := 0 to |refs|
      invariant selectedById == RefMap(refs[..i])
      invariant RefsOk(secrets, store, refs[..i])
    {
      DeclaredSet(secrets, refs[i].id);
      RefsOkExtend(secrets, store, refs, i);
      if Blank(refs[i].id) || refs[i].id in selectedById || refs[i].id !in declarations
        || !ValidOptionId(InputId(refs[i])) || !Has(store, InputId(refs[i])) {
        if RefsOk(secrets, store, refs) { RefsOkPrefix(secrets, store, refs, i + 1); }
        return Err;
      }
      assert refs[..i + 1][..i] == refs[..i];
      selectedById := selectedById[refs[i].id := InputId(refs[i])];
    }
    assert refs[..|refs|] == refs;
    return Ok(selectedById);
  }

  lemma DeclaredSet(secrets: seq<SecretInput>, id: string)
    ensures id in (set d | d in secrets :: d.id) <==> Declared(secrets, id)
  {
  }

  lemma RefsOkExtend(secrets: seq<SecretInput>, store: Store, refs: seq<SecretRef>, i: nat)
    requires i < |refs| && RefsOk(secrets, store, refs[..i])
    ensures RefsOk(secrets, store, refs[..i + 1]) <==>
      refs[i].id !in RefMap(refs[..i]) && RefOk(secrets, store, refs[i])
  {
    SnocPrefix(refs, i);
    RefMapKey(refs[..i], refs[i].id);
    RefsOkSnoc(secrets, store, refs[..i], refs[i]);
  }

  lemma SnocPrefix<T>(s: seq<T>, i: nat)
    requires i < |s|
    ensures s[..i + 1] == s[..i] + [s[i]]
  {
  }

  lemma RefMapKey(refs: seq<SecretRef>, id: string)
    ensures id in RefMap(refs) <==> id in RefIds(refs)
  {
    RefMapKeys(refs);
  }

  lemma RefsOkSnoc(secrets: seq<SecretInput>, store: Store, refs: seq<SecretRef>, ref: SecretRef)
    requires RefsOk(secrets, store, refs)
    ensures RefsOk(secrets, store, refs + [ref]) <==> ref.id !in RefIds(refs) && RefOk(secrets, store, ref)
  {
    var all := refs + [ref];
    assert RefIds(all) == RefIds(refs) + [ref.id];
    NoDupSnoc(RefIds(refs), ref.id);
    assert forall j :: 0 <= j < |refs| ==> all[j] == refs[j];
    assert all[|refs|] == ref;
  }

  lemma RefsOkPrefix(secrets: seq<SecretInput>, store: Store, refs: seq<SecretRef>, n: nat)
    requires n <= |refs| && RefsOk(secrets, store, refs)
    ensures RefsOk(secrets, store, refs[..n])
  {
    assert forall j :: 0 <= j < n ==> RefIds(refs[..n])[j] == RefIds(refs)[j];
  }

  lemma {:induction false} RefMapKeys(refs: seq<SecretRef>)
    ensures forall id :: id in RefMap(refs) <==> id in RefIds(refs)
  {
    if refs != [] {
      RefMapKeys(refs[..|refs| - 1]);
      assert RefIds(refs) == RefIds(refs[..|refs| - 1]) + [refs[|refs| - 1].id];
    }
  }

  // ---------------------------------------------------------------- what a resolution holds

  lemma {:induction false} RefMapValues(refs: seq<SecretRef>)
    requires NoDup(RefIds(refs))
    ensures forall i :: 0 <= i < |refs| ==> refs[i].id in RefMap(refs) && RefMap(refs)[refs[i].id] == InputId(refs[i])
  {
    if refs != [] {
      var front, last := refs[..|refs| - 1], |refs| - 1;
      assert forall i :: 0 <= i < last ==> RefIds(front)[i] == RefIds(refs)[i];
      RefMapValues(front);
      forall i | 0 <= i < |refs| ensures refs[i].id in RefMap(refs) && RefMap(refs)[refs[i].id] == InputId(refs[i]) {
        if i < last {
          assert front[i] == refs[i];
          assert RefIds(refs)[i] != RefIds(refs)[last];
        }
      }
    }
  }

  /** The declared ids that were selected, in declaration order. */
  function SelectedDeclarations(secrets: seq<SecretInput>, ids: set<string>): seq<string> {
    if secrets == [] then []
    else
      var last := secrets[|secrets| - 1].id;
      SelectedDeclarations(secrets[..|secrets| - 1], ids) + (if last in ids then [last] else [])
  }

  lemma {:induction false} OrderIds(secrets: seq<SecretInput>, byId: map<string, string>)
    ensures RefIds(InDeclarationOrder(secrets, byId)) == SelectedDeclarations(secrets, byId.Keys)
  {
    if secrets != [] { OrderIds(secrets[..|secrets| - 1], byId); }
  }

  lemma DeclaredInFront(secrets: seq<SecretInput>, id: string)
    requires secrets != [] && Declared(secrets[..|secrets| - 1], id)
    ensures Declared(secrets, id)
  {
    var front := secrets[..|secrets| - 1];
    var k :| 0 <= k < |front| && front[k].id == id;
    assert secrets[k].id == id;
  }

  /** Every reference in the list comes from the map and is declared. */
  lemma {:induction false} OrderMember(secrets: seq<SecretInput>, byId: map<string, string>, i: nat)
    requires i < |InDeclarationOrder(secrets, byId)|
    ensures
      var ref := InDeclarationOrder(secrets, byId)[i];
      ref.id in byId && byId[ref.id] == ref.inputId && Declared(secrets, ref.id)
  {
    var front, last := secrets[..|secrets| - 1], secrets[|secrets| - 1];
    if i < |InDeclarationOrder(front, byId)| {
      OrderMember(front, byId, i);
      DeclaredInFront(secrets, InDeclarationOrder(front, byId)[i].id);
    } else {
      assert secrets[|secrets| - 1].id == last.id;
    }
  }

  /** Every selected declaration is in the list. */
  lemma {:induction false} OrderHolds(secrets: seq<SecretInput>, byId: map<string, string>, i: nat)
    requires i < |secrets| && secrets[i].id in byId
    ensures SecretRef(secrets[i].id, byId[secrets[i].id]) in InDeclarationOrder(secrets, byId)
  {
    var front := secrets[..|secrets| - 1];
    if i < |front| {
      assert front[i] == secrets[i];
      OrderHolds(front, byId, i);
    }
  }

  lemma OrderShape(secrets: seq<SecretInput>, byId: map<string, string>)
    ensures RefIds(InDeclarationOrder(secrets, byId)) == SelectedDeclarations(secrets, byId.Keys)
    ensures forall i :: 0 <= i < |InDeclarationOrder(secrets, byId)| ==>
              var ref := InDeclarationOrder(secrets, byId)[i];
              ref.id in byId && byId[ref.id] == ref.inputId && Declared(secrets, ref.id)
    ensures forall i :: 0 <= i < |secrets| && secrets[i].id in byId ==>
              SecretRef(secrets[i].id, byId[secrets[i].id]) in InDeclarationOrder(secrets, byId)
  {
    OrderIds(secrets, byId);
    var r := InDeclarationOrder(secrets, byId);
    forall i | 0 <= i < |r| ensures r[i].id in byId && byId[r[i].id] == r[i].inputId && Declared(secrets, r[i].id) {
      OrderMember(secrets, byId, i);
    }
    forall i | 0 <= i < |secrets| && secrets[i].id in byId ensures SecretRef(secrets[i].id, byId[secrets[i].id]) in r {
      OrderHolds(secrets, byId, i);
    }
  }

  lemma EffectiveIds(selected: seq<SecretRef>, store: Store)
    ensures Effective(selected, store) == [] <==> selected == [] && StoreEmpty(store)
  {
    if selected == [] && store.Some? {
      assert |SortedKeys(store.value)| == |store.value|;
    }
  }

  predicate InputHeld(store: Store, ref: SecretRef) {
    ValidOptionId(ref.inputId) && store.Some? && ref.inputId in store.value
  }

  predicate InputsHeld(store: Store, refs: seq<SecretRef>) {
    forall i :: 0 <= i < |refs| ==> InputHeld(store, refs[i])
  }

  lemma ResolvedInputs(secrets: seq<SecretInput>, refs: seq<SecretRef>, store: Store)
    requires RefsOk(secrets, store, refs)
    ensures InputsHeld(store, InDeclarationOrder(secrets, RefMap(refs)))
  {
    var r := InDeclarationOrder(secrets, RefMap(refs));
    RefMapKeys(refs);
    RefMapValues(refs);
    OrderShape(secrets, RefMap(refs));
    forall i | 0 <= i < |r| ensures InputHeld(store, r[i]) {
      var k := RefIndex(refs, r[i].id);
      assert RefOk(secrets, store, refs[k]);
      assert r[i].inputId == RefMap(refs)[r[i].id] == InputId(refs[k]);
    }
  }

  /** A selected id belongs to one of the references. */
  lemma RefIndex(refs: seq<SecretRef>, id: string) returns (k: nat)
    requires id in RefMap(refs)
    ensures k < |refs| && refs[k].id == id
  {
    RefMapKeys(refs);
    assert id in RefIds(refs);
    k :| 0 <= k < |refs| && RefIds(refs)[k] == id;
  }

  lemma ResolvedHoldsRef(secrets: seq<SecretInput>, refs: seq<SecretRef>, store: Store, i: nat)
    requires RefsOk(secrets, store, refs) && i < |refs|
    ensures SecretRef(refs[i].id, InputId(refs[i])) in InDeclarationOrder(secrets, RefMap(refs))
  {
    RefMapValues(refs);
    OrderShape(secrets, RefMap(refs));
    assert RefOk(secrets, store, refs[i]);
    var d :| 0 <= d < |secrets| && secrets[d].id == refs[i].id;
  }

  lemma RequiredResolved(secrets: seq<SecretInput>, byId: map<string, string>)
    requires RequiredCovered(secrets, byId)
    ensures forall i :: 0 <= i < |secrets| && secrets[i].required ==>
      secrets[i].id in RefIds(InDeclarationOrder(secrets, byId))
  {
    var r := InDeclarationOrder(secrets, byId);
    OrderShape(secrets, byId);
    forall i | 0 <= i < |secrets| && secrets[i].required ensures secrets[i].id in RefIds(r) {
      var k :| 0 <= k < |r| && r[k] == SecretRef(secrets[i].id, byId[secrets[i].id]);
      assert RefIds(r)[k] == secrets[i].id;
    }
  }

  lemma {:induction false} NothingInOrder(secrets: seq<SecretInput>)
    ensures InDeclarationOrder(secrets, map[]) == []
  {
    if secrets != [] { NothingInOrder(secrets[..|secrets| - 1]); }
  }

  function IdSet(refs: seq<SecretRef>): set<string> {
    set id | id in RefIds(refs)
  }

  /**
    A successful resolution lists the selected declarations in declaration order,
    each with the input it was selected with (its own id if that was blank), which
    is valid and held by the store, covers every required secret, and is
    empty exactly when nothing was selected and the store holds nothing.
   */
  lemma {:induction false} ResolvedMeaning(secrets: seq<SecretInput>, selected: seq<SecretRef>, store: Store)
    requires Resolve(secrets, selected, store).Ok?
    ensures
      var r := Resolve(secrets, selected, store).value;
      var refs := Effective(selected, store);
      && RefIds(r) == SelectedDeclarations(secrets, IdSet(refs))
      && (forall i :: 0 <= i < |refs| && TrimSpace(refs[i].inputId) != "" ==>
            SecretRef(refs[i].id, TrimSpace(refs[i].inputId)) in r)
      && (forall i :: 0 <= i < |refs| && TrimSpace(refs[i].inputId) == "" ==> SecretRef(refs[i].id, refs[i].id) in r)
      && InputsHeld(store, r)
      && (forall i :: 0 <= i < |secrets| && secrets[i].required ==> secrets[i].id in RefIds(r))
      && (r == [] <==> selected == [] && StoreEmpty(store))
  {
    var r, refs := Resolve(secrets, selected, store).value, Effective(selected, store);
    RefMapKeys(refs);
    assert RefMap(refs).Keys == IdSet(refs);
    OrderShape(secrets, RefMap(refs));
    ResolvedInputs(secrets, refs, store);
    RequiredResolved(secrets, RefMap(refs));
    EffectiveIds(selected, store);
    forall i | 0 <= i < |refs| ensures SecretRef(refs[i].id, InputId(refs[i])) in r {
      ResolvedHoldsRef(secrets, refs, store, i);
    }
    if refs == [] {
      NothingInOrder(secrets);
    } else {
      assert SecretRef(refs[0].id, InputId(refs[0])) in r;
    }
  }

  /** The reference names a declared secret and an input that is valid and stored. */
  predicate Resolvable(secrets: seq<SecretInput>, store: Store, ref: SecretRef) {
    var input := if TrimSpace(ref.inputId) == "" then ref.id else TrimSpace(ref.inputId);
    && TrimSpace(ref.id) != "" && (exists i :: 0 <= i < |secrets| && secrets[i].id == ref.id)
    && ValidOptionId(input) && store.Some? && input in store.value
  }

  predicate SelectedIn(refs: seq<SecretRef>, id: string) {
    exists i :: 0 <= i < |refs| && refs[i].id == id
  }

  /** Exactly which selections resolve: distinct resolvable references that cover every required secret. */
  lemma {:induction false} ResolveIff(secrets: seq<SecretInput>, selected: seq<SecretRef>, store: Store)
    ensures
      var refs := Effective(selected, store);
      Resolve(secrets, selected, store).Ok? <==>
        && (forall i, j :: 0 <= i < j < |refs| ==> refs[i].id != refs[j].id)
        && (forall i :: 0 <= i < |refs| ==> Resolvable(secrets, store, refs[i]))
        && (forall d :: 0 <= d < |secrets| && secrets[d].required ==> SelectedIn(refs, secrets[d].id))
  {
    var refs := Effective(selected, store);
    RefsOkIff(secrets, store, refs);
    CoveredIff(secrets, refs);
  }

  lemma RefsOkIff(secrets: seq<SecretInput>, store: Store, refs: seq<SecretRef>)
    ensures RefsOk(secrets, store, refs) <==>
      && (forall i, j :: 0 <= i < j < |refs| ==> refs[i].id != refs[j].id)
      && (forall i :: 0 <= i < |refs| ==> Resolvable(secrets, store, refs[i]))
  {
    DistinctRefs(refs);
    forall i | 0 <= i < |refs| ensures RefOk(secrets, store, refs[i]) <==> Resolvable(secrets, store, refs[i]) {
      RefOkIff(secrets, store, refs[i]);
    }
  }

  lemma RefOkIff(secrets: seq<SecretInput>, store: Store, ref: SecretRef)
    ensures RefOk(secrets, store, ref) <==> Resolvable(secrets, store, ref)
  {
  }

  lemma CoveredIff(secrets: seq<SecretInput>, refs: seq<SecretRef>)
    ensures RequiredCovered(secrets, RefMap(refs)) <==>
      forall d :: 0 <= d < |secrets| && secrets[d].required ==> SelectedIn(refs, secrets[d].id)
  {
    forall d | 0 <= d < |secrets| ensures secrets[d].id in RefMap(refs) <==> SelectedIn(refs, secrets[d].id) {
      InRefMapIff(refs, secrets[d].id);
    }
  }

  lemma DistinctRefs(refs: seq<SecretRef>)
    ensures NoDup(RefIds(refs)) <==> forall i, j :: 0 <= i < j < |refs| ==> refs[i].id != refs[j].id
  {
    var ids := RefIds(refs);
    assert forall i :: 0 <= i < |refs| ==> ids[i] == refs[i].id;
    if NoDup(ids) {
      forall i, j | 0 <= i < j < |refs| ensures refs[i].id != refs[j].id { assert ids[i] != ids[j]; }
    }
  }

  lemma InRefMapIff(refs: seq<SecretRef>, id: string)
    ensures id in RefMap(refs) <==> SelectedIn(refs, id)
  {
    RefMapKeys(refs);
    if id in RefMap(refs) {
      var k := RefIndex(refs, id);
    }
    forall i | 0 <= i < |refs| && refs[i].id == id ensures id in RefMap(refs) { assert RefIds(refs)[i] == id; }
  }

  // ---------------------------------------------------------------- resolving again

  /** Every selected id is declared once. */
  predicate DeclaredOnce(secrets: seq<SecretInput>, ids: set<string>) {
    forall i, j :: 0 <= i < j < |secrets| && secrets[i].id == secrets[j].id ==> secrets[i].id !in ids
  }

  lemma {:induction false} SelectedDeclarationsMembers(secrets: seq<SecretInput>, ids: set<string>)
    ensures forall id :: id in SelectedDeclarations(secrets, ids) <==> id in ids && Declared(secrets, id)
  {
    if secrets != [] {
      var front, last := secrets[..|secrets| - 1], secrets[|secrets| - 1];
      SelectedDeclarationsMembers(front, ids);
      forall id ensures Declared(secrets, id) <==> Declared(front, id) || id == last.id {
        if Declared(front, id) {
          var k :| 0 <= k < |front| && front[k].id == id;
          assert secrets[k].id == id;
        }
        if id == last.id { assert secrets[|secrets| - 1].id == id; }
      }
    }
  }

  lemma DeclaredOnceFront(secrets: seq<SecretInput>, ids: set<string>)
    requires secrets != []
    ensures
      var front, last := secrets[..|secrets| - 1], secrets[|secrets| - 1].id;
      DeclaredOnce(secrets, ids) <==> DeclaredOnce(front, ids) && !(last in ids && Declared(front, last))
  {
    var front, last := secrets[..|secrets| - 1], secrets[|secrets| - 1].id;
    assert forall i :: 0 <= i < |front| ==> front[i] == secrets[i];
    if last in ids && Declared(front, last) {
      var k :| 0 <= k < |front| && front[k].id == last;
      assert secrets[k].id == secrets[|secrets| - 1].id;
    }
  }

  lemma {:induction false} DeclaredOnceIff(secrets: seq<SecretInput>, ids: set<string>)
    ensures NoDup(SelectedDeclarations(secrets, ids)) <==> DeclaredOnce(secrets, ids)
  {
    if secrets != [] {
      var front, last := secrets[..|secrets| - 1], secrets[|secrets| - 1].id;
      var rest := SelectedDeclarations(front, ids);
      DeclaredOnceIff(front, ids);
      DeclaredOnceFront(secrets, ids);
      SelectedDeclarationsMembers(front, ids);
      var all := SelectedDeclarations(secrets, ids);
      if last !in ids {
        assert all == rest;
      } else {
        assert all == rest + [last];
        assert NoDup(all) <==> NoDup(rest) && last !in rest by {
          assert forall i :: 0 <= i < |rest| ==> all[i] == rest[i];
          if last in rest {
            var k :| 0 <= k < |rest| && rest[k] == last;
            assert all[k] == all[|rest|];
          }
        }
      }
    }
  }

  /** A resolved reference is accepted again, with the same input. */
  lemma ResolvedRefOk(secrets: seq<SecretInput>, refs: seq<SecretRef>, store: Store, i: nat)
    requires RefsOk(secrets, store, refs) && i < |InDeclarationOrder(secrets, RefMap(refs))|
    ensures
      var ref := InDeclarationOrder(secrets, RefMap(refs))[i];
      RefOk(secrets, store, ref) && InputId(ref) == ref.inputId
  {
    var ref := InDeclarationOrder(secrets, RefMap(refs))[i];
    RefMapKeys(refs);
    RefMapValues(refs);
    OrderShape(secrets, RefMap(refs));
    ResolvedInputs(secrets, refs, store);
    ValidIdIsTight(ref.inputId);
    var k := RefIndex(refs, ref.id);
    assert RefOk(secrets, store, refs[k]);
    BlankInput(refs[k]);
  }

  lemma ResolvedRefsOk(secrets: seq<SecretInput>, refs: seq<SecretRef>, store: Store)
    requires RefsOk(secrets, store, refs)
    requires NoDup(RefIds(InDeclarationOrder(secrets, RefMap(refs))))
    ensures RefsOk(secrets, store, InDeclarationOrder(secrets, RefMap(refs)))
  {
    var r := InDeclarationOrder(secrets, RefMap(refs));
    forall i | 0 <= i < |r| ensures RefOk(secrets, store, r[i]) {
      ResolvedRefOk(secrets, refs, store, i);
    }
  }

  lemma ResolvedKeys(secrets: seq<SecretInput>, byId: map<string, string>)
    ensures forall id :: id in RefMap(InDeclarationOrder(secrets, byId)) ==> id in byId
  {
    var r := InDeclarationOrder(secrets, byId);
    OrderShape(secrets, byId);
    RefMapKeys(r);
    forall id | id in RefMap(r) ensures id in byId {
      var j := RefIndex(r, id);
    }
  }

  /** A resolved list without repeated ids is its own map. */
  lemma ResolvedMapAgain(secrets: seq<SecretInput>, refs: seq<SecretRef>, store: Store)
    requires RefsOk(secrets, store, refs)
    requires NoDup(RefIds(InDeclarationOrder(secrets, RefMap(refs))))
    ensures RefMap(InDeclarationOrder(secrets, RefMap(refs))) == RefMap(refs)
  {
    ResolvedKeys(secrets, RefMap(refs));
    forall id | id in RefMap(refs)
      ensures id in RefMap(InDeclarationOrder(secrets, RefMap(refs)))
           && RefMap(InDeclarationOrder(secrets, RefMap(refs)))[id] == RefMap(refs)[id]
    {
      ResolvedHoldsId(secrets, refs, store, id);
    }
  }

  lemma ResolvedHoldsId(secrets: seq<SecretInput>, refs: seq<SecretRef>, store: Store, id: string)
    requires RefsOk(secrets, store, refs) && id in RefMap(refs)
    requires NoDup(RefIds(InDeclarationOrder(secrets, RefMap(refs))))
    ensures
      var r := InDeclarationOrder(secrets, RefMap(refs));
      id in RefMap(r) && RefMap(r)[id] == RefMap(refs)[id]
  {
    var r := InDeclarationOrder(secrets, RefMap(refs));
    RefMapKeys(refs);
    RefMapValues(refs);
    var k := RefIndex(refs, id);
    ResolvedHoldsRef(secrets, refs, store, k);
    var j :| 0 <= j < |r| && r[j] == SecretRef(refs[k].id, InputId(refs[k]));
    RefMapValues(r);
    ResolvedRefOk(secrets, refs, store, j);
    assert r[j].id == id;
  }

  lemma BlankInput(ref: SecretRef)
    requires !Blank(ref.id)
    ensures InputId(ref) != ""
  {
    assert ref.id == "" ==> TrimSpace(ref.id) == "";
  }

  /**
    Resolving a resolved list again returns it unchanged exactly when every
    selected id is declared once; otherwise it is rejected.
   */
  lemma {:induction false} ResolveAgainIff(secrets: seq<SecretInput>, selected: seq<SecretRef>, store: Store)
    requires Resolve(secrets, selected, store).Ok?
    ensures
      var r := Resolve(secrets, selected, store);
      Resolve(secrets, r.value, store)
        == if DeclaredOnce(secrets, IdSet(Effective(selected, store))) then r else Err
  {
    var r, refs := Resolve(secrets, selected, store).value, Effective(selected, store);
    ResolvedMeaning(secrets, selected, store);
    DeclaredOnceIff(secrets, IdSet(refs));
    if r == [] {
      assert refs == [];
      assert Effective(r, store) == Effective(selected, store);
    } else if NoDup(RefIds(r)) {
      ResolvedRefsOk(secrets, refs, store);
      ResolvedMapAgain(secrets, refs, store);
    }
  }

  /** A target that declares `a` twice: what it resolves to is refused the second time. */
  lemma DeclaredTwiceRefusedAgain(a: SecretInput)
    requires a.id == "a"
    ensures
      var first := Resolve([a, a], [SecretRef("a", "a")], Some({"a"}));
      first.Ok? && Resolve([a, a], first.value, Some({"a"})).Err?
  {
    var secrets, selected, store := [a, a], [SecretRef("a", "a")], Some({"a"});
    assert SpaceFree("a") && ValidOptionId("a");
    ValidIdIsTight("a");
    assert RefIds(selected) == ["a"] && secrets[0].id == "a" && secrets[1].id == "a";
    assert RefOk(secrets, store, selected[0]);
    assert selected[..0] == [] && RefMap(selected) == map["a" := "a"];
    assert "a" in IdSet(selected);
    ResolveAgainIff(secrets, selected, store);
  }
}
