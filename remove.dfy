/** `vex rm`: delete one saved configuration. */
module Remove {
  import opened Config

  /** `remove_command`; `deleteOk` is false when the operating system refuses the deletion. */
  method RemoveCommand(store: Store, name: string, deleteOk: bool) returns (res: Outcome, out: seq<string>)
    requires store.Valid()
    modifies store`files
    ensures store.Valid()
    // resolving the path comes first, then the existence check; both leave the store alone
    ensures !store.located ==> res == Fail(LocatorFailed) && out == [] && store.files == old(store.files)
    ensures store.located && ConfigFileName(name) !in old(store.files) ==>
      res == Fail(NotFound(name)) && out == [] && store.files == old(store.files)
    // a refused deletion is reported and changes nothing
    ensures store.located && ConfigFileName(name) in old(store.files) && !deleteOk ==>
      res == Fail(DeleteFailed) && out == [] && store.files == old(store.files)
    // on success exactly this configuration's file is gone
    ensures store.located && ConfigFileName(name) in old(store.files) && deleteOk ==>
      && res == Pass
      && out == ["Configuration '" + name + "' deleted"]
      && store.files == old(store.files) - {ConfigFileName(name)}
    ensures res == Pass ==> !store.Exists(name)
    ensures forall f :: f != ConfigFileName(name) ==>
      (f in store.files <==> f in old(store.files)) &&
      (f in store.files ==> store.files[f] == old(store.files)[f])
  {
    out := [];
    if !store.located {
      return Fail(LocatorFailed), out;
    }
    var path := ConfigFileName(name);
    if !store.Exists(name) {
      return Fail(NotFound(name)), out;
    }
    res := store.RemoveFile(path, deleteOk);
    if res.Fail? {
      return;
    }
    out := out + ["Configuration '" + name + "' deleted"];
  }
}
