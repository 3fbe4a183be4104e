/**
  The provider registry and the planning pipeline around it
  (internal/provider/provider.go, internal/policy/policy.go, cmd/bootup/providers_default.go).
 */
module Registry {
  import opened Common
  import opened Text
  import opened Provider
  import opened Ordering
  import opened Options
  import opened SecretRefs
  import opened TargetValidation
  import opened Catalog

  datatype PlanInput = PlanInput(target: Target, options: seq<SelectedOption>, store: Store, secretRefs: seq<SecretRef>)

  datatype StageInput = StageInput(plan: BootPlan, store: Store, secretRefs: seq<SecretRef>)

  /** A compiled-in provider; planning and staging are arbitrary functions. */
  datatype Impl = Impl(
    id: string, targets: Result<seq<Target>>,
    plan: PlanInput -> Result<BootPlan>, stage: Option<StageInput -> Result<BootPlan>>)

  type Providers = map<string, Impl>

  function ListFrom(valid: (string, Target) -> bool, providers: Providers, ids: seq<string>): Result<seq<Target>> {
    if ids == [] then Ok([])
    else if ids[0] !in providers then Err
    else
      var own := providers[ids[0]].targets;
      if own.Err? || !AllValid(valid, ids[0], own.value) then Err
      else Prepend(own.value, ListFrom(valid, providers, ids[1..]))
  }

  lemma ListStep(valid: (string, Target) -> bool, providers: Providers, ids: seq<string>, i: nat)
    requires i < |ids| && ids[i] in providers
    ensures
      var own := providers[ids[i]].targets;
      ListFrom(valid, providers, ids[i..])
        == if own.Err? || !AllValid(valid, ids[i], own.value) then Err
           else Prepend(own.value, ListFrom(valid, providers, ids[i + 1..]))
  {
    assert ids[i..][0] == ids[i] && ids[i..][1..] == ids[i + 1..];
  }

  predicate AllValid(valid: (string, Target) -> bool, id: string, targets: seq<Target>) {
    forall i :: 0 <= i < |targets| ==> valid(id, targets[i])
  }

  /** The inner loop of `Registry.Targets`. */
  method ValidateAll(valid: (string, Target) -> bool, id: string, targets: seq<Target>) returns (ok: bool)
    ensures ok == AllValid(valid, id, targets)
  {
    for k := 0 to |targets|
      invariant forall j :: 0 <= j < k ==> valid(id, targets[j])
    {
      if !valid(id, targets[k]) {
        return false;
      }
    }
    return true;
  }

  /** The outer loop of `Registry.Targets`. */
  method ListTargets(valid: (string, Target) -> bool, providers: Providers, ids: seq<string>)
    returns (r: Result<seq<Target>>)
    requires forall i :: 0 <= i < |ids| ==> ids[i] in providers
    ensures r == ListFrom(valid, providers, ids)
  {
    var targets: seq<Target> := [];
    ghost var whole := ListFrom(valid, providers, ids);
    assert ids[0..] == ids;
    PrependTwice(targets, [], whole);
    for i := 0 to |ids|
      invariant whole == Prepend(targets, ListFrom(valid, providers, ids[i..]))
    {
      var own := providers[ids[i]].targets;
      ListStep(valid, providers, ids, i);
      if own.Err? {
        return Err;
      }
      var allValid := ValidateAll(valid, ids[i], own.value);
      if !allValid {
        return Err;
      }
      PrependTwice(targets, own.value, ListFrom(valid, providers, ids[i + 1..]));
      targets := targets + own.value;
    }
    assert ids[|ids|..] == [] && targets + [] == targets;
    return Ok(targets);
  }

  /** The menu: the targets of every provider, in the order of provider ids. */
  function Listing(valid: (string, Target) -> bool, providers: Providers): Result<seq<Target>> {
    ListFrom(valid, providers, SortedKeys(providers.Keys))
  }

  /** `Registry.Plan`: the call the provider receives, and the plan handed on. */
  function PlanSpec(providers: Providers, input: PlanInput): Result<BootPlan> {
    var refs := Resolve(input.target.secrets, input.secretRefs, input.store);
    if Compile(input.target.options, input.options).Err? || refs.Err? || input.target.providerId !in providers then Err
    else
      var plan := providers[input.target.providerId].plan(input.(secretRefs := refs.value));
      if plan.Err? then Err
      else Ok(if refs.value == [] then plan.value else plan.value.(secretRefs := refs.value))
  }

  /** The references `Registry.Stage` resolves: the caller's, else those of the plan. */
  function StageRefs(config: StageInput): Result<seq<SecretRef>> {
    Resolve(config.plan.target.secrets,
            if config.secretRefs == [] then config.plan.secretRefs else config.secretRefs,
            config.store)
  }

  function StageSpec(providers: Providers, config: StageInput): Result<BootPlan> {
    var refs := StageRefs(config);
    var id := config.plan.target.providerId;
    if refs.Err? || id !in providers || providers[id].stage.None? then Err
    else providers[id].stage.value(config.(secretRefs := refs.value))
  }

  class Registry {
    var providers: Providers

    constructor ()
      ensures providers == map[]
    {
      providers := map[];
    }

    /** A provider id can be registered once. */
    method Register(p: Impl) returns (ok: bool)
      modifies this
      ensures ok <==> p.id !in old(providers)
      ensures providers == if ok then old(providers)[p.id := p] else old(providers)
    {
      if p.id in providers {
        return false;
      }
      providers := providers[p.id := p];
      return true;
    }

    method Targets(valid: (string, Target) -> bool) returns (r: Result<seq<Target>>)
      ensures r == Listing(valid, providers)
    {
      r := ListTargets(valid, providers, SortedKeys(providers.Keys));
    }

    method Plan(input: PlanInput) returns (r: Result<BootPlan>)
      ensures r == PlanSpec(providers, input)
    {
      var fragments := SelectedOptionFragments(input.target.options, input.options);
      if fragments.Err? {
        return Err;
      }
      var refs := ResolveSecretRefs(input.target.secrets, input.secretRefs, input.store);
      if refs.Err? || input.target.providerId !in providers {
        return Err;
      }
      var plan := providers[input.target.providerId].plan(input.(secretRefs := refs.value));
      if plan.Err? {
        return Err;
      }
      if |refs.value| != 0 {
        return Ok(plan.value.(secretRefs := refs.value));
      }
      return plan;
    }

    method Stage(config: StageInput) returns (r: Result<BootPlan>)
      ensures r == StageSpec(providers, config)
    {
      var selected := config.secretRefs;
      if |selected| == 0 {
        selected := config.plan.secretRefs;
      }
      var refs := ResolveSecretRefs(config.plan.target.secrets, selected, config.store);
      if refs.Err? || config.plan.target.providerId !in providers {
        return Err;
      }
      var provider := providers[config.plan.target.providerId];
      if provider.stage.None? {
        return Err;
      }
      return provider.stage.value(config.(secretRefs := refs.value));
    }
  }

  // ---------------------------------------------------------------- from catalog to menu

  /** Every provider shows the catalog's targets for its id. */
  predicate ShowsCatalog(providers: Providers, doc: Document) {
    forall id :: id in providers ==> providers[id].targets == Ok(OfProvider(doc.entries, id))
  }

  /** `registerProviders` over any list of provider implementations. */
  method RegisterProviders(registry: Registry, impls: seq<Impl>, doc: Document) returns (ok: bool)
    requires forall i :: 0 <= i < |impls| ==> impls[i].targets == Ok(OfProvider(doc.entries, impls[i].id))
    modifies registry
    ensures old(registry.providers) == map[] ==>
      && (ok <==> NoDup(ImplIds(impls)))
      && ShowsCatalog(registry.providers, doc)
      && (ok ==> registry.providers.Keys == set id | id in ImplIds(impls))
  {
    for i := 0 to |impls|
      invariant old(registry.providers) == map[] ==>
        && ShowsCatalog(registry.providers, doc)
        && NoDup(ImplIds(impls[..i]))
        && registry.providers.Keys == set id | id in ImplIds(impls[..i])
    {
      assert ImplIds(impls[..i + 1]) == ImplIds(impls[..i]) + [impls[i].id];
      ImplIdsPrefix(impls, i);
      var registered := registry.Register(impls[i]);
      if !registered {
        return false;
      }
    }
    assert impls[..|impls|] == impls;
    return true;
  }

  function ImplIds(impls: seq<Impl>): (ids: seq<string>)
    ensures |ids| == |impls|
  {
    seq(|impls|, i requires 0 <= i < |impls| => impls[i].id)
  }

  lemma ImplIdsPrefix(impls: seq<Impl>, i: nat)
    requires i < |impls|
    ensures impls[i].id in ImplIds(impls[..i]) ==> !NoDup(ImplIds(impls))
  {
    if impls[i].id in ImplIds(impls[..i]) {
      var k :| 0 <= k < i && ImplIds(impls[..i])[k] == impls[i].id;
      assert ImplIds(impls)[k] == ImplIds(impls)[i];
    }
  }

  lemma {:induction false} ListFromCatalog(
    valid: (string, Target) -> bool, providers: Providers, doc: Document, ids: seq<string>, known: seq<string>)
    requires ShowsCatalog(providers, doc) && Accepted(valid, known, doc)
    requires forall i :: 0 <= i < |ids| ==> ids[i] in providers
    ensures ListFrom(valid, providers, ids) == Ok(Grouped(doc.entries, ids))
  {
    if ids != [] {
      var own := OfProvider(doc.entries, ids[0]);
      OfProviderMembers(doc.entries, ids[0]);
      forall i | 0 <= i < |own| ensures valid(ids[0], own[i]) {
        assert own[i] in doc.entries;
        var k :| 0 <= k < |doc.entries| && doc.entries[k] == own[i];
        assert EntryOk(valid, known, doc.entries[k]);
      }
      assert AllValid(valid, ids[0], own);
      ListFromCatalog(valid, providers, doc, ids[1..], known);
    }
  }

  lemma EntriesKnown(valid: (string, Target) -> bool, known: seq<string>, doc: Document, ids: seq<string>)
    requires Accepted(valid, known, doc) && forall id :: id in known ==> id in ids
    ensures forall i :: 0 <= i < |doc.entries| ==> doc.entries[i].providerId in ids
  {
    forall i | 0 <= i < |doc.entries| ensures doc.entries[i].providerId in ids {
      assert EntryOk(valid, known, doc.entries[i]);
    }
  }

  /**
    The menu conserves the catalog: it is the catalog's entries grouped by
    sorted provider id, in catalog order inside each group, and a permutation of
    the entries; nothing is dropped, repeated or invented.
   */
  lemma {:induction false} MenuConservesCatalog(
    valid: (string, Target) -> bool, known: seq<string>, docs: seq<Document>, providers: Providers)
    requires forall d :: 0 <= d < |docs| ==> Accepted(valid, known, docs[d])
    requires Composed(docs).Ok?
    requires forall id :: id in known ==> id in providers
    requires ShowsCatalog(providers, Composed(docs).value)
    ensures
      var menu := Listing(valid, providers);
      && menu == Ok(Grouped(AllEntries(docs), SortedKeys(providers.Keys)))
      && multiset(menu.value) == multiset(AllEntries(docs))
  {
    ComposedAccepted(valid, known, docs);
    MenuOfDocument(valid, known, Composed(docs).value, providers);
  }

  lemma MenuOfDocument(valid: (string, Target) -> bool, known: seq<string>, doc: Document, providers: Providers)
    requires Accepted(valid, known, doc) && ShowsCatalog(providers, doc)
    requires forall id :: id in known ==> id in providers
    ensures
      var ids := SortedKeys(providers.Keys);
      && Listing(valid, providers) == Ok(Grouped(doc.entries, ids))
      && multiset(Grouped(doc.entries, ids)) == multiset(doc.entries)
  {
    var ids := SortedKeys(providers.Keys);
    ListFromCatalog(valid, providers, doc, ids, known);
    EntriesKnown(valid, known, doc, ids);
    GroupedConserves(doc.entries, ids);
  }

  // ---------------------------------------------------------------- policy selections

  function OptionsOfPolicy(values: map<string, string>): (selected: seq<SelectedOption>)
    ensures |selected| == |values|
  {
    var ids := SortedKeys(values.Keys);
    assert |ids| == |values.Keys| == |values|;
    seq(|ids|, i requires 0 <= i < |ids| => SelectedOption(ids[i], values[ids[i]]))
  }

  function RefsOfPolicy(values: map<string, string>): (selected: seq<SecretRef>)
    ensures |selected| == |values|
  {
    var ids := SortedKeys(values.Keys);
    assert |ids| == |values.Keys| == |values|;
    seq(|ids|, i requires 0 <= i < |ids| => SecretRef(ids[i], values[ids[i]]))
  }

  /** The loops of `selectedOptions`. */
  method SelectedOptions(values: map<string, string>) returns (selected: seq<SelectedOption>)
    ensures selected == OptionsOfPolicy(values)
  {
    selected := OptionsFor(SortedKeys(values.Keys), values);
  }

  method OptionsFor(ids: seq<string>, values: map<string, string>) returns (selected: seq<SelectedOption>)
    requires forall i :: 0 <= i < |ids| ==> ids[i] in values
    ensures |selected| == |ids| && forall i :: 0 <= i < |ids| ==> selected[i] == SelectedOption(ids[i], values[ids[i]])
  {
    selected := [];
    for i := 0 to |ids|
      invariant |selected| == i && forall k :: 0 <= k < i ==> selected[k] == SelectedOption(ids[k], values[ids[k]])
    {
      selected := selected + [SelectedOption(ids[i], values[ids[i]])];
    }
  }

  lemma OptionsOfPolicyChosen(values: map<string, string>)
    ensures NoDup(Ids(OptionsOfPolicy(values))) && ChosenMap(OptionsOfPolicy(values)) == values
  {
    ListedOptionsChosen(SortedKeys(values.Keys), values, OptionsOfPolicy(values));
  }

  lemma ListedOptionsChosen(ids: seq<string>, values: map<string, string>, selected: seq<SelectedOption>)
    requires NoDup(ids) && |selected| == |ids| && forall id :: id in ids <==> id in values
    requires forall i :: 0 <= i < |ids| ==> selected[i].id == ids[i] && selected[i].value == values[ids[i]]
    ensures NoDup(Ids(selected)) && ChosenMap(selected) == values
  {
    assert Ids(selected) == ids;
    ChosenKeys(selected);
    ChosenValues(selected);
    forall id | id in values ensures ChosenMap(selected)[id] == values[id] {
      var k :| 0 <= k < |ids| && ids[k] == id;
      assert selected[k].id == id;
    }
  }

  /** A policy's option map compiles like command-line flags for the same values, in any order. */
  lemma PolicyAgreesWithFlags(options: seq<TargetOption>, values: map<string, string>, flags: seq<SelectedOption>)
    requires NoDup(Ids(flags)) && ChosenMap(flags) == values
    ensures Compile(options, OptionsOfPolicy(values)) == Compile(options, flags)
  {
    var selected := OptionsOfPolicy(values);
    OptionsOfPolicyChosen(values);
    ChosenKeys(selected);
    ChosenKeys(flags);
    NoBlankIds(selected);
    NoBlankIds(flags);
  }

  lemma NoBlankIds(selected: seq<SelectedOption>)
    ensures (forall i :: 0 <= i < |selected| ==> !Blank(selected[i].id)) <==>
      (forall id :: id in Ids(selected) ==> !Blank(id))
  {
    assert forall i :: 0 <= i < |selected| ==> Ids(selected)[i] == selected[i].id;
    if exists i :: 0 <= i < |selected| && Blank(selected[i].id) {
      var i :| 0 <= i < |selected| && Blank(selected[i].id);
      assert Ids(selected)[i] in Ids(selected);
    }
  }

  datatype Selection = Selection(target: Target, options: seq<SelectedOption>, secretRefs: seq<SecretRef>)

  function TargetById(targets: seq<Target>, id: string): Option<Target> {
    if targets == [] then None
    else if targets[0].id == id then Some(targets[0])
    else TargetById(targets[1..], id)
  }

  /** `policy.Validate`. */
  function ValidateDecision(targets: seq<Target>, targetId: string, options: map<string, string>,
                            secretRefs: map<string, string>, store: Store): Result<Selection> {
    var target := TargetById(targets, targetId);
    if target.None? then Err
    else
      var refs := Resolve(target.value.secrets, RefsOfPolicy(secretRefs), store);
      if Compile(target.value.options, OptionsOfPolicy(options)).Err? || refs.Err? then Err
      else Ok(Selection(target.value, OptionsOfPolicy(options), refs.value))
  }

  /** Every target of the menu was validated for the provider it is listed under. */
  lemma {:induction false} ListedIsValid(
    valid: (string, Target) -> bool, providers: Providers, ids: seq<string>, targets: seq<Target>, k: nat)
    returns (id: string)
    requires ListFrom(valid, providers, ids) == Ok(targets) && k < |targets|
    ensures id in providers && valid(id, targets[k])
    decreases |ids|
  {
    id := ids[0];
    var own := providers[id].targets.value;
    if k >= |own| {
      id := ListedIsValid(valid, providers, ids[1..], targets[|own|..], k - |own|);
    }
  }

  lemma {:induction false} TargetByIdIndex(targets: seq<Target>, id: string) returns (k: nat)
    requires TargetById(targets, id).Some?
    ensures k < |targets| && targets[k] == TargetById(targets, id).value
    ensures targets[k].id == id && forall j :: 0 <= j < k ==> targets[j].id != id
  {
    k := 0;
    if targets[0].id != id {
      var rest := TargetByIdIndex(targets[1..], id);
      k := rest + 1;
      assert forall j :: 0 < j < |targets| ==> targets[j] == targets[1..][j - 1];
    }
  }

  /** `targetByID`: the first target with the id, if there is one. */
  method FindTarget(targets: seq<Target>, id: string) returns (r: Option<Target>)
    ensures r == TargetById(targets, id)
    ensures r.None? <==> forall j :: 0 <= j < |targets| ==> targets[j].id != id
    ensures r.Some? ==> exists k :: 0 <= k < |targets| && r.value == targets[k] && FirstWithId(targets, k, id)
  {
    for i := 0 to |targets|
      invariant TargetById(targets, id) == TargetById(targets[i..], id)
      invariant forall j :: 0 <= j < i ==> targets[j].id != id
    {
      if targets[i].id == id {
        assert FirstWithId(targets, i, id);
        return Some(targets[i]);
      }
    }
    return None;
  }

  predicate FirstWithId(targets: seq<Target>, k: nat, id: string)
    requires k < |targets|
  {
    targets[k].id == id && forall j :: 0 <= j < k ==> targets[j].id != id
  }

  lemma RefsOfPolicyHold(values: map<string, string>, id: string) returns (k: nat)
    requires id in values
    ensures k < |RefsOfPolicy(values)| && RefsOfPolicy(values)[k] == SecretRef(id, values[id])
  {
    var ids := SortedKeys(values.Keys);
    k :| 0 <= k < |ids| && ids[k] == id;
  }

  /** A target chosen from the menu has a registered provider and declares its secrets properly. */
  lemma ChosenIsValid(sourceOk: Target -> bool, providers: Providers, targets: seq<Target>, id: string)
    requires Listing(Validator(sourceOk), providers) == Ok(targets) && TargetById(targets, id).Some?
    ensures
      var t := TargetById(targets, id).value;
      t.id == id && t.providerId in providers && ValidSecrets(t.secrets) && ValidOptions(t.options)
  {
    var k := TargetByIdIndex(targets, id);
    var owner := ListedIsValid(Validator(sourceOk), providers, SortedKeys(providers.Keys), targets, k);
    assert ValidTarget(sourceOk, owner, targets[k]);
  }

  /**
    Secret references through the whole pipeline.  A decision validated against
    the registry's menu gives references that planning passes to the provider
    unchanged, that the plan carries unchanged, and that staging passes on
    unchanged, as long as the plan keeps the target's declarations and the
    provider sets no references of its own when it receives none.
   */
  lemma {:induction false} SecretRefsPassThrough(
    sourceOk: Target -> bool, providers: Providers, targets: seq<Target>, targetId: string,
    options: map<string, string>, refs: map<string, string>, store: Store, plan: BootPlan)
    requires Listing(Validator(sourceOk), providers) == Ok(targets)
    requires ValidateDecision(targets, targetId, options, refs, store).Ok?
    requires
      var s := ValidateDecision(targets, targetId, options, refs, store).value;
      && (s.target.providerId in providers ==>
            providers[s.target.providerId].plan(PlanInput(s.target, s.options, store, s.secretRefs)) == Ok(plan))
      && plan.target.secrets == s.target.secrets
      && (s.secretRefs == [] ==> plan.secretRefs == [])
    ensures
      var s := ValidateDecision(targets, targetId, options, refs, store).value;
      && PlanSpec(providers, PlanInput(s.target, s.options, store, s.secretRefs))
         == Ok(plan.(secretRefs := s.secretRefs))
      && StageRefs(StageInput(plan.(secretRefs := s.secretRefs), store, [])) == Ok(s.secretRefs)
      && s.target.id == targetId
      && forall id :: id in refs && TrimSpace(refs[id]) == refs[id] != "" ==> SecretRef(id, refs[id]) in s.secretRefs
  {
    var s := ValidateDecision(targets, targetId, options, refs, store).value;
    ChosenIsValid(sourceOk, providers, targets, targetId);
    ResolvedStays(s.target.secrets, RefsOfPolicy(refs), store);
    PlanPassesOn(providers, PlanInput(s.target, s.options, store, s.secretRefs), plan);
    forall id | id in refs && TrimSpace(refs[id]) == refs[id] != "" ensures SecretRef(id, refs[id]) in s.secretRefs {
      PolicyRefHeld(s.target.secrets, refs, store, id);
    }
  }

  /** Every reference of a policy is resolved to the input the policy names. */
  lemma PolicyRefHeld(secrets: seq<SecretInput>, refs: map<string, string>, store: Store, id: string)
    requires Resolve(secrets, RefsOfPolicy(refs), store).Ok? && id in refs && TrimSpace(refs[id]) == refs[id] != ""
    ensures SecretRef(id, refs[id]) in Resolve(secrets, RefsOfPolicy(refs), store).value
  {
    var k := RefsOfPolicyHold(refs, id);
    ResolvedMeaning(secrets, RefsOfPolicy(refs), store);
  }

  /** For validated declarations a resolved list resolves to itself. */
  lemma ResolvedStays(secrets: seq<SecretInput>, selected: seq<SecretRef>, store: Store)
    requires ValidSecrets(secrets) && Resolve(secrets, selected, store).Ok?
    ensures Resolve(secrets, Resolve(secrets, selected, store).value, store) == Resolve(secrets, selected, store)
  {
    ValidSecretsDeclaredOnce(secrets, IdSet(Effective(selected, store)));
    ResolveAgainIff(secrets, selected, store);
  }

  /** Planning and staging with references that resolve to themselves. */
  lemma PlanPassesOn(providers: Providers, input: PlanInput, plan: BootPlan)
    requires Compile(input.target.options, input.options).Ok? && input.target.providerId in providers
    requires Resolve(input.target.secrets, input.secretRefs, input.store) == Ok(input.secretRefs)
    requires providers[input.target.providerId].plan(input) == Ok(plan) && plan.target.secrets == input.target.secrets
    requires input.secretRefs == [] ==> plan.secretRefs == []
    ensures PlanSpec(providers, input) == Ok(plan.(secretRefs := input.secretRefs))
    ensures StageRefs(StageInput(plan.(secretRefs := input.secretRefs), input.store, [])) == Ok(input.secretRefs)
  {
    assert input.(secretRefs := input.secretRefs) == input;
  }
}
