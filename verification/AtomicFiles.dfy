/**
  Replacing a file through a temporary one (internal/policy/policy.go,
  internal/catalog/hosted.go, internal/secrets/store.go).
 */
module AtomicFiles {
  import opened Common
  import opened Text
  import opened SourcePaths

  type Files = map<string, Bytes>

  /**
    How each filesystem call of one replacement goes.  `temp` is the path that
    `os.CreateTemp` picks, or `None` if it fails; a failed write leaves
    `writeLeft` in the temporary file.
   */
  datatype Calls = Calls(
    mkdirOk: bool, temp: Option<string>, writeLeft: Option<Bytes>,
    chmodOk: bool, closeOk: bool, renameOk: bool, removeOk: bool)

  /** `os.CreateTemp` creates a new file; its name is assumed not to be the one being replaced. */
  predicate FreshTemp(files: Files, path: string, calls: Calls) {
    calls.temp.Some? ==> calls.temp.value !in files && calls.temp.value != path
  }

  /** `os.Rename` never puts a file in place of a directory. */
  predicate RenameSparesDirs(isDir: string -> bool, path: string, calls: Calls) {
    isDir(path) ==> !calls.renameOk
  }

  /** Every step but the clean-up worked. */
  predicate AllWork(calls: Calls) {
    calls.mkdirOk && calls.temp.Some? && calls.writeLeft.None? && calls.chmodOk && calls.closeOk && calls.renameOk
  }

  /** Apart from the temporary file, a state is the old one or the old one with the new contents. */
  predicate OldOrNew(before: Files, path: string, data: Bytes, temp: Option<string>, now: Files) {
    var hidden := if temp.Some? then {temp.value} else {};
    now - hidden == before || now - hidden == before[path := data]
  }

  /** After a failure nothing has changed, except that the temporary file stays if it cannot be removed. */
  predicate LeftOver(before: Files, calls: Calls, now: Files) {
    if calls.temp.None? || calls.removeOk then now == before
    else now - {calls.temp.value} == before
  }

  class Disk {
    var files: Files
    /** Every state the disk has been in, newest last. */
    ghost var trace: seq<Files>

    constructor (initial: Files)
      ensures files == initial && trace == [initial]
    {
      files, trace := initial, [initial];
    }

    method Put(path: string, data: Bytes)
      modifies this
      ensures files == old(files)[path := data] && trace == old(trace) + [files]
    {
      files := files[path := data];
      trace := trace + [files];
    }

    method Remove(path: string, ok: bool)
      modifies this
      ensures files == if ok then old(files) - {path} else old(files)
      ensures trace == old(trace) + [files]
    {
      if ok {
        files := files - {path};
      }
      trace := trace + [files];
    }

    method Rename(from: string, to: string)
      requires from in files
      modifies this
      ensures files == (old(files) - {from})[to := old(files)[from]] && trace == old(trace) + [files]
    {
      files := (files - {from})[to := files[from]];
      trace := trace + [files];
    }

    /** Create the temporary file and write to it; only that file changes. */
    method Fill(temp: string, data: Bytes, writeLeft: Option<Bytes>) returns (ok: bool)
      requires temp !in files
      modifies this
      ensures ok == writeLeft.None? && files == old(files)[temp := if ok then data else writeLeft.value]
      ensures old(trace) <= trace
      ensures forall i :: |old(trace)| <= i < |trace| ==> trace[i] - {temp} == old(files)
    {
      Put(temp, []);
      ok := writeLeft.None?;
      Put(temp, if ok then data else writeLeft.value);
    }

    /**
      Fill a temporary file, then rename it over the target; a failing call
      removes the temporary file, as far as that works.  (The cache writers set
      the mode before closing, the secret store after; neither changes contents.)
      In every state on the way the target holds all of its old bytes or all of
      the new ones, and no other file differs.
     */
    method WriteAndRename(path: string, data: Bytes, calls: Calls) returns (ok: bool)
      requires FreshTemp(files, path, calls)
      modifies this
      ensures ok <==> AllWork(calls)
      ensures ok ==> files == old(files)[path := data]
      ensures !ok ==> LeftOver(old(files), calls, files)
      ensures old(trace) <= trace
      ensures forall i :: |old(trace)| <= i < |trace| ==> OldOrNew(old(files), path, data, calls.temp, trace[i])
    {
      if !calls.mkdirOk || calls.temp.None? {
        return false;
      }
      var temp := calls.temp.value;
      var filled := Fill(temp, data, calls.writeLeft);
      if !filled {
        Remove(temp, calls.removeOk);
        return false;
      }
      if !calls.chmodOk || !calls.closeOk || !calls.renameOk {
        Remove(temp, calls.removeOk);
        return false;
      }
      Rename(temp, path);
      assert files == old(files)[path := data];
      return true;
    }

    /** `writePolicyCache` and `writeHostedCache`: the temporary file is removed again on success too. */
    method ReplaceCache(path: string, data: Bytes, calls: Calls) returns (ok: bool)
      requires FreshTemp(files, path, calls)
      modifies this
      ensures ok <==> AllWork(calls)
      ensures ok ==> files == old(files)[path := data]
      ensures !ok ==> LeftOver(old(files), calls, files)
      ensures old(trace) <= trace
      ensures forall i :: |old(trace)| <= i < |trace| ==> OldOrNew(old(files), path, data, calls.temp, trace[i])
    {
      ghost var before := files;
      ok := WriteAndRename(path, data, calls);
      if ok {
        Remove(calls.temp.value, calls.removeOk);
        assert files == before[path := data];
        assert files - {calls.temp.value} == before[path := data];
      }
    }

    /**
      `Store.StageFile`: a private copy of a stored secret.  The same
      all-or-nothing guarantee holds, and the temporary file is removed on every
      failing path.  The name check lets `.` and `..` through; what stops them is
      that the rename fails on a directory.  So every staged copy lies directly in
      `dir`, as long as `.` and `..` of `dir` name directories and not symbolic
      links to them.
     */
    method StageSecret(
      entries: map<string, Bytes>, id: string, dir: string, name: string, isDir: string -> bool, calls: Calls)
      returns (r: Option<string>)
      requires FreshTemp(files, JoinPath(dir, SecretName(id, name)), calls)
      requires RenameSparesDirs(isDir, JoinPath(dir, SecretName(id, name)), calls)
      modifies this
      ensures
        var file := if TrimSpace(name) == "" then id else TrimSpace(name);
        && (r.Some? <==>
              id in entries && file != "" && '/' !in file && '\\' !in file && TrimSpace(dir) != "" && AllWork(calls))
        && (r.Some? ==> r.value == JoinPath(dir, file) && files == old(files)[r.value := entries[id]])
      ensures isDir(JoinPath(dir, ".")) && isDir(JoinPath(dir, "..")) ==> (r.Some? ==> DirectChild(dir, r.value))
      ensures r.Some? ==> DirectChild(dir, r.value) || (SecretName(id, name) in {".", ".."} && !isDir(r.value))
      ensures r.None? ==> LeftOver(old(files), calls, files)
      ensures old(trace) <= trace
      ensures forall i :: |old(trace)| <= i < |trace| ==>
        id in entries && OldOrNew(old(files), JoinPath(dir, SecretName(id, name)), entries[id], calls.temp, trace[i])
    {
      SecretNameOkIff(SecretName(id, name));
      if id !in entries || !SecretNameOk(SecretName(id, name)) || TrimSpace(dir) == "" {
        return None;
      }
      var path := JoinPath(dir, SecretName(id, name));
      var ok := WriteAndRename(path, entries[id], calls);
      JoinIsChildIff(dir, SecretName(id, name));
      return if ok then Some(path) else None;
    }
  }

  /** A blank name means the secret's own id. */
  function SecretName(id: string, name: string): string {
    if TrimSpace(name) == "" then id else TrimSpace(name)
  }

  predicate SecretNameOk(name: string) {
    Base(name) == name && '/' !in name && '\\' !in name
  }

  /** The name check passes exactly names without slashes. */
  lemma SecretNameOkIff(name: string)
    ensures SecretNameOk(name) <==> name != "" && '/' !in name && '\\' !in name
  {
    if '/' !in name && name != "" { SplitWithoutSeparator(name, '/'); }
  }

  /** `..` passes the name check, and names the parent of the staging directory. */
  lemma DotDotIsParent(dir: string)
    requires Kept(dir) != [] && Kept(dir)[|Kept(dir)| - 1] != ".."
    ensures SecretNameOk("..") && JoinPath(dir, "..") == Rendered(Kept(dir)[..|Kept(dir)| - 1], Rooted(dir))
  {
    SplitWithoutSeparator("..", '/');
    SplitWithoutSeparator("", '/');
    assert PushAll(false, [""]) == PushAll(false, [""][..0]) == [];
    KeptJoined(dir, "..");
  }

  lemma KeptOfTwo()
    ensures Kept("/s/a") == ["s", "a"] && Rooted("/s/a")
  {
    var dir, stack := Rendered(["s", "a"], true), ["s", "a"];
    assert stack[1..] == ["a"];
    assert dir == "/s/a";
    KeptOfRendered(stack, true);
  }

  /** For `/s/a` that is `/s`: only the rename stands in the way. */
  lemma DotDotLeavesDir()
    ensures SecretNameOk("..") && JoinPath("/s/a", "..") == "/s"
  {
    KeptOfTwo();
    DotDotIsParent("/s/a");
    assert ["s", "a"][..1] == ["s"];
  }
}
