/** Targets, plans and selections (internal/provider/provider.go). */
module Provider {
  import opened Text

  datatype OptionKind = BoolKind | EnumKind | StringKind | OtherKind(name: string)

  datatype OptionValue = OptionValue(value: string, display: string, fragment: string)

  datatype TargetOption = TargetOption(
    id: string, display: string, kind: OptionKind, fragment: string,
    values: seq<OptionValue>, template: string, secret: bool)

  datatype SecretInput = SecretInput(id: string, display: string, purpose: string, required: bool, delivery: string)

  datatype SelectedOption = SelectedOption(id: string, value: string)

  datatype SecretRef = SecretRef(id: string, inputId: string)

  datatype CatalogEntry = CatalogEntry(distribution: string, release: string, architecture: string, kind: string)

  datatype SourceEntry = SourceEntry(
    baseUrl: string, isoName: string, isoSha256: string, kernelPath: string, initrdPath: string,
    kernelSha256: string, initrdSha256: string, cmdline: string)

  datatype BootAction = Unset | LinuxKexec | LocalBoot | FreeBSDKboot | OtherAction(name: string)

  datatype Target = Target(
    id: string, providerId: string, name: string, action: BootAction, catalog: CatalogEntry,
    source: SourceEntry, options: seq<TargetOption>, secrets: seq<SecretInput>)

  datatype Artifact = Artifact(name: string, url: string, sha256: string, path: string)

  datatype BootPlan = BootPlan(
    target: Target, action: BootAction, kernel: Artifact, initrd: Artifact,
    cmdline: string, kbootArgs: seq<string>, secretRefs: seq<SecretRef>)

  /** An unset action means Linux kexec. */
  function ResolveAction(action: BootAction): BootAction {
    if action.Unset? then LinuxKexec else action
  }

  predicate Blank(s: string) {
    TrimSpace(s) == ""
  }

  predicate IdChar(c: char, first: bool) {
    'a' <= c <= 'z' || (!first && ('0' <= c <= '9' || c == '-' || c == '_' || c == '.'))
  }

  /** `validOptionID`; it accepts the empty string. */
  predicate ValidOptionId(id: string) {
    forall i :: 0 <= i < |id| ==> IdChar(id[i], i == 0)
  }

  lemma ValidIdIsTight(id: string)
    requires ValidOptionId(id)
    ensures SpaceFree(id) && TrimSpace(id) == id
  {
    assert SpaceFree(id);
    TrimSpaceFree(id);
  }

  predicate NoDup<T(==)>(s: seq<T>) {
    forall i, j :: 0 <= i < j < |s| ==> s[i] != s[j]
  }

  lemma NoDupSnoc<T>(s: seq<T>, x: T)
    ensures NoDup(s + [x]) <==> NoDup(s) && x !in s
  {
    var all := s + [x];
    assert forall i :: 0 <= i < |s| ==> all[i] == s[i];
    if x in s {
      var k :| 0 <= k < |s| && s[k] == x;
      assert all[k] == all[|s|];
    }
  }

  lemma NoDupParts<T>(a: seq<T>, b: seq<T>)
    requires NoDup(a + b)
    ensures NoDup(a) && NoDup(b)
  {
    assert forall i :: 0 <= i < |a| ==> (a + b)[i] == a[i];
    assert forall i :: 0 <= i < |b| ==> (a + b)[|a| + i] == b[i];
  }

  /** A sequence is free of duplicates exactly when its set is as large as itself. */
  lemma {:induction false} NoDupByCount<T>(s: seq<T>)
    ensures |set x | x in s| <= |s|
    ensures NoDup(s) <==> |set x | x in s| == |s|
  {
    if s != [] {
      var front, last := s[..|s| - 1], s[|s| - 1];
      NoDupByCount(front);
      var f := set x | x in front;
      assert s == front + [last];
      assert (set x | x in s) == f + {last};
      NoDupSnoc(front, last);
    }
  }

  /** Being free of duplicates does not depend on the order. */
  lemma NoDupPermutation<T>(a: seq<T>, b: seq<T>)
    requires |a| == |b| && forall x :: x in a <==> x in b
    ensures NoDup(a) <==> NoDup(b)
  {
    NoDupByCount(a);
    NoDupByCount(b);
    assert (set x | x in a) == (set x | x in b);
  }
}
