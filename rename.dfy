/**
 `vex rename`: move a configuration to a new name, optionally with a new
 description. The old file must exist; overwriting an existing new name asks
 first unless forced; the new file is written before the old one is removed,
 so a failure part-way leaves the configuration under its old name.

 As written, renaming a configuration to its own name writes its file and
 then deletes that same file. `RenameAsWritten` models the code as it is;
 `Rename` skips the removal when both names are the same.
 */
module Rename {
  import opened Wrappers
  import opened Config

  /** The command's arguments. */
  datatype RenameArgs = RenameArgs(oldName: string, newName: string, desc: Option<string>, force: bool)

  /** What `prompt_user_default_no` answers: an explicit yes, anything else, or a failed read. */
  datatype Reply = Yes | No | ReplyError

  /** The answers of the outside world: the prompt, then whether the write and the removal succeed. */
  datatype Io = Io(reply: Reply, writeOk: bool, removeOk: bool)

  /** The record written under the new name: the description replaced when one is given. */
  function Overlay(config: QemuConfig, desc: Option<string>): (r: QemuConfig)
    ensures r.qemuBin == config.qemuBin && r.args == config.args && r.qemuVersion == config.qemuVersion
    ensures desc.Some? ==> r.desc == desc
    ensures desc.None? ==> r.desc == config.desc
  {
    if desc.Some? then config.(desc := desc) else config
  }

  function PromptLine(newName: string): string {
    "Configuration '" + newName + "' already exists, overwrite? [y/N]"
  }

  const CANCELLED: string := "Rename cancelled"

  function RenamedLine(oldName: string, newName: string, desc: Option<string>): string {
    match desc
    case Some(d) => "Configuration '" + oldName + "' renamed to '" + newName + "' with description '" + d + "'"
    case None => "Configuration '" + oldName + "' renamed to '" + newName + "'"
  }

  /** The command asks before going on: the new name is taken and `force` is off. */
  predicate Asks(files: map<string, FileContent>, a: RenameArgs) {
    ConfigFileName(a.newName) in files && !a.force
  }

  /** Where the command stands once every step before the write has run. */
  datatype Plan =
    | Stop(res: Outcome, lines: seq<string>)
    | Move(record: QemuConfig, lines: seq<string>)

  /** Existence check, confirmation, reading the old file and the description overlay. */
  function PlanRename(located: bool, files: map<string, FileContent>, a: RenameArgs, reply: Reply): Plan {
    if !located then Stop(Fail(LocatorFailed), [])
    else if ConfigFileName(a.oldName) !in files then Stop(Fail(NotFound(a.oldName)), [])
    else
      var prompt := if Asks(files, a) then [PromptLine(a.newName)] else [];
      if Asks(files, a) && reply == ReplyError then Stop(Fail(PromptFailed), prompt)
      else if Asks(files, a) && reply == No then Stop(Pass, prompt + [CANCELLED])
      else match files[ConfigFileName(a.oldName)]
        case Unreadable => Stop(Fail(ReadFailed), prompt)
        case Malformed => Stop(Fail(DeserializeFailed), prompt)
        case Record(c) => Move(Overlay(c, a.desc), prompt)
  }

  /** What the command returns, the directory afterwards, and the lines it prints. */
  datatype Effect = Effect(res: Outcome, files: map<string, FileContent>, lines: seq<string>)

  /** The command as written: write the new file, then remove the old one. */
  function RenameEffectAsWritten(located: bool, files: map<string, FileContent>, a: RenameArgs, io: Io): Effect {
    var oldPath, newPath := ConfigFileName(a.oldName), ConfigFileName(a.newName);
    match PlanRename(located, files, a, io.reply)
    case Stop(res, lines) => Effect(res, files, lines)
    case Move(record, lines) =>
      if !io.writeOk then Effect(Fail(WriteFailed), files, lines)
      else
        var written := files[newPath := Record(record)];
        if !io.removeOk || oldPath !in written then Effect(Fail(DeleteFailed), written, lines)
        else Effect(Pass, written - {oldPath}, lines + [RenamedLine(a.oldName, a.newName, record.desc)])
  }

  /** The command corrected: the old file is removed only when it is not the one just written. */
  function RenameEffect(located: bool, files: map<string, FileContent>, a: RenameArgs, io: Io): Effect {
    var oldPath, newPath := ConfigFileName(a.oldName), ConfigFileName(a.newName);
    match PlanRename(located, files, a, io.reply)
    case Stop(res, lines) => Effect(res, files, lines)
    case Move(record, lines) =>
      if !io.writeOk then Effect(Fail(WriteFailed), files, lines)
      else
        var written := files[newPath := Record(record)];
        if oldPath == newPath then Effect(Pass, written, lines + [RenamedLine(a.oldName, a.newName, record.desc)])
        else if !io.removeOk || oldPath !in written then Effect(Fail(DeleteFailed), written, lines)
        else Effect(Pass, written - {oldPath}, lines + [RenamedLine(a.oldName, a.newName, record.desc)])
  }

  /** The steps before the write both versions share, run against the store. */
  method Prepare(store: Store, a: RenameArgs, reply: Reply) returns (plan: Plan)
    ensures plan == PlanRename(store.located, store.files, a, reply)
  {
    var out := [];
    if !store.located {
      return Stop(Fail(LocatorFailed), out);
    }
    var oldPath := ConfigFileName(a.oldName);
    if !store.Exists(a.oldName) {
      return Stop(Fail(NotFound(a.oldName)), out);
    }
    if store.Exists(a.newName) && !a.force {
      out := out + [PromptLine(a.newName)];
      if reply == ReplyError {
        return Stop(Fail(PromptFailed), out);
      }
      if reply == No {
        out := out + [CANCELLED];
        return Stop(Pass, out);
      }
    }
    var config: QemuConfig;
    match store.files[oldPath] {
      case Unreadable => return Stop(Fail(ReadFailed), out);
      case Malformed => return Stop(Fail(DeserializeFailed), out);
      case Record(c) => config := c;
    }
    if a.desc.Some? {
      config := config.(desc := a.desc);
    }
    plan := Move(config, out);
  }

  /** `rename_command` as written. */
  method RenameAsWritten(store: Store, a: RenameArgs, io: Io) returns (res: Outcome, out: seq<string>)
    requires store.Valid()
    modifies store`files
    ensures store.Valid()
    ensures Effect(res, store.files, out) == RenameEffectAsWritten(store.located, old(store.files), a, io)
  {
    var plan := Prepare(store, a, io.reply);
    if plan.Stop? {
      return plan.res, plan.lines;
    }
    out := plan.lines;
    var config := plan.record;
    res := store.WriteFile(ConfigFileName(a.newName), Record(config), io.writeOk);
    if res.Fail? {
      return;
    }
    res := store.RemoveFile(ConfigFileName(a.oldName), io.removeOk);
    if res.Fail? {
      return;
    }
    out := out + [RenamedLine(a.oldName, a.newName, config.desc)];
  }

  /** `rename_command` with the same-name case corrected. */
  method Rename(store: Store, a: RenameArgs, io: Io) returns (res: Outcome, out: seq<string>)
    requires store.Valid()
    modifies store`files
    ensures store.Valid()
    ensures Effect(res, store.files, out) == RenameEffect(store.located, old(store.files), a, io)
  {
    var plan := Prepare(store, a, io.reply);
    if plan.Stop? {
      return plan.res, plan.lines;
    }
    out := plan.lines;
    var config := plan.record;
    var oldPath, newPath := ConfigFileName(a.oldName), ConfigFileName(a.newName);
    res := store.WriteFile(newPath, Record(config), io.writeOk);
    if res.Fail? {
      return;
    }
    if oldPath != newPath {
      res := store.RemoveFile(oldPath, io.removeOk);
      if res.Fail? {
        return;
      }
    }
    out := out + [RenamedLine(a.oldName, a.newName, config.desc)];
  }

  /** The old configuration is there, the prompt (if any) was confirmed, and its file deserializes. */
  predicate Proceeds(located: bool, files: map<string, FileContent>, a: RenameArgs, reply: Reply) {
    && located
    && ConfigFileName(a.oldName) in files
    && (Asks(files, a) ==> reply == Yes)
    && files[ConfigFileName(a.oldName)].Record?
  }

  /** A missing old configuration is an error and changes nothing. */
  lemma RenameMissingOld(located: bool, files: map<string, FileContent>, a: RenameArgs, io: Io)
    requires located && ConfigFileName(a.oldName) !in files
    ensures RenameEffect(located, files, a, io) == Effect(Fail(NotFound(a.oldName)), files, [])
  {
  }

  /** Declining to overwrite is not an error, and both configurations stay as they were. */
  lemma RenameDeclined(located: bool, files: map<string, FileContent>, a: RenameArgs, io: Io)
    requires located && ConfigFileName(a.oldName) in files
    requires Asks(files, a) && io.reply == No
    ensures RenameEffect(located, files, a, io) == Effect(Pass, files, [PromptLine(a.newName), CANCELLED])
  {
  }

  /** Without a taken new name, or with `force`, nothing is asked: the answer plays no part. */
  lemma RenameNoPrompt(located: bool, files: map<string, FileContent>, a: RenameArgs, io: Io, reply: Reply)
    requires !Asks(files, a)
    ensures RenameEffect(located, files, a, io) == RenameEffect(located, files, a, io.(reply := reply))
    ensures |RenameEffect(located, files, a, io).lines| <= 1
  {
  }

  /** An old file that cannot be read or deserialized stops the command before any write. */
  lemma RenameUnreadableOld(located: bool, files: map<string, FileContent>, a: RenameArgs, io: Io)
    requires located && ConfigFileName(a.oldName) in files && (Asks(files, a) ==> io.reply == Yes)
    requires !files[ConfigFileName(a.oldName)].Record?
    ensures RenameEffect(located, files, a, io).files == files
    ensures RenameEffect(located, files, a, io).res ==
      if files[ConfigFileName(a.oldName)].Malformed? then Fail(DeserializeFailed) else Fail(ReadFailed)
  {
  }

  /** A failed write is an error that leaves the directory, and so the old configuration, as it was. */
  lemma RenameWriteFails(located: bool, files: map<string, FileContent>, a: RenameArgs, io: Io)
    requires Proceeds(located, files, a, io.reply) && !io.writeOk
    ensures RenameEffect(located, files, a, io).res == Fail(WriteFailed)
    ensures RenameEffect(located, files, a, io).files == files
  {
  }

  /**
   A failed removal after the write is an error. The new name then holds the
   overlaid record and the old name still holds its file: both are usable.
   */
  lemma RenameRemoveFails(located: bool, files: map<string, FileContent>, a: RenameArgs, io: Io)
    requires Proceeds(located, files, a, io.reply) && io.writeOk && !io.removeOk
    requires a.oldName != a.newName
    ensures RenameEffect(located, files, a, io).res == Fail(DeleteFailed)
    ensures RenameEffect(located, files, a, io).files ==
      files[ConfigFileName(a.newName) := Record(Overlay(files[ConfigFileName(a.oldName)].config, a.desc))]
    ensures ConfigFileName(a.oldName) in RenameEffect(located, files, a, io).files
    ensures RenameEffect(located, files, a, io).files[ConfigFileName(a.oldName)] == files[ConfigFileName(a.oldName)]
  {
    if ConfigFileName(a.oldName) == ConfigFileName(a.newName) {
      ConfigFileNameInjective(a.oldName, a.newName);
    }
  }

  /**
   A rename that goes through leaves the overlaid record under the new name,
   no file under the old name when the names differ, and every other file as
   it was.
   */
  lemma RenameSucceeds(located: bool, files: map<string, FileContent>, a: RenameArgs, io: Io)
    requires Proceeds(located, files, a, io.reply) && io.writeOk && (a.oldName != a.newName ==> io.removeOk)
    ensures var e := RenameEffect(located, files, a, io);
      var record := Overlay(files[ConfigFileName(a.oldName)].config, a.desc);
      && e.res == Pass
      && ConfigFileName(a.newName) in e.files && e.files[ConfigFileName(a.newName)] == Record(record)
      && (a.oldName != a.newName ==> ConfigFileName(a.oldName) !in e.files)
      && (forall f :: f != ConfigFileName(a.oldName) && f != ConfigFileName(a.newName) ==>
            (f in e.files <==> f in files) && (f in files ==> e.files[f] == files[f]))
  {
    if ConfigFileName(a.oldName) == ConfigFileName(a.newName) {
      ConfigFileNameInjective(a.oldName, a.newName);
    }
  }

  /** Success means either a declined prompt that changed nothing or a completed move. */
  lemma RenamePassCases(located: bool, files: map<string, FileContent>, a: RenameArgs, io: Io)
    requires RenameEffect(located, files, a, io).res == Pass
    ensures RenameEffect(located, files, a, io).files == files || Proceeds(located, files, a, io.reply)
    ensures !Proceeds(located, files, a, io.reply) ==>
      located && ConfigFileName(a.oldName) in files && Asks(files, a) && io.reply == No
  {
  }

  /**
   The code as written and the corrected command agree whenever the two
   names differ, so every lemma above about `RenameEffect` holds of the code
   as written for distinct names. They can differ only on a rename of a
   configuration to its own name that gets past the write.
   */
  lemma AsWrittenAgrees(located: bool, files: map<string, FileContent>, a: RenameArgs, io: Io)
    ensures a.oldName != a.newName ==>
      RenameEffectAsWritten(located, files, a, io) == RenameEffect(located, files, a, io)
    ensures RenameEffectAsWritten(located, files, a, io) != RenameEffect(located, files, a, io) ==>
      a.oldName == a.newName && Proceeds(located, files, a, io.reply) && io.writeOk
  {
    if ConfigFileName(a.oldName) == ConfigFileName(a.newName) {
      ConfigFileNameInjective(a.oldName, a.newName);
    }
  }

  /**
   The code as written, for two distinct names that get past the prompt and
   the read: a failed write changes nothing; a failed removal leaves the new
   record beside the old file; otherwise the record moves to the new name and
   the renamed line, with the description in force, is printed last.
   */
  lemma RenameAsWrittenMoves(located: bool, files: map<string, FileContent>, a: RenameArgs, io: Io)
    requires Proceeds(located, files, a, io.reply) && a.oldName != a.newName
    ensures var e := RenameEffectAsWritten(located, files, a, io);
      var oldPath, newPath := ConfigFileName(a.oldName), ConfigFileName(a.newName);
      var record := Overlay(files[oldPath].config, a.desc);
      && (!io.writeOk ==> e.res == Fail(WriteFailed) && e.files == files)
      && (io.writeOk && !io.removeOk ==> e.res == Fail(DeleteFailed) && e.files == files[newPath := Record(record)])
      && (io.writeOk && io.removeOk ==>
            && e.res == Pass
            && e.files == files[newPath := Record(record)] - {oldPath}
            && e.lines[|e.lines| - 1] == RenamedLine(a.oldName, a.newName, record.desc))
  {
    if ConfigFileName(a.oldName) == ConfigFileName(a.newName) {
      ConfigFileNameInjective(a.oldName, a.newName);
    }
  }

  /** As written, renaming a configuration to its own name deletes it. */
  lemma RenameAsWrittenSameNameLoses(located: bool, files: map<string, FileContent>, name: string, desc: Option<string>, force: bool, io: Io)
    requires Proceeds(located, files, RenameArgs(name, name, desc, force), io.reply) && io.writeOk && io.removeOk
    ensures RenameEffectAsWritten(located, files, RenameArgs(name, name, desc, force), io).res == Pass
    ensures ConfigFileName(name) !in RenameEffectAsWritten(located, files, RenameArgs(name, name, desc, force), io).files
  {
  }

  /** Corrected, renaming a configuration to its own name keeps it, with the new description. */
  lemma RenameSameNameKeeps(located: bool, files: map<string, FileContent>, name: string, desc: Option<string>, force: bool, io: Io)
    requires Proceeds(located, files, RenameArgs(name, name, desc, force), io.reply) && io.writeOk
    ensures var e := RenameEffect(located, files, RenameArgs(name, name, desc, force), io);
      && e.res == Pass
      && e.files == files[ConfigFileName(name) := Record(Overlay(files[ConfigFileName(name)].config, desc))]
  {
  }
}
