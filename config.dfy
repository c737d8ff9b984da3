/**
 The configuration record, the errors the commands report, and the
 configuration directory they read and write: one `<name>.json` file per
 saved configuration.
 */
module Config {
  import opened Wrappers

  /** One saved configuration, as its JSON file holds it. */
  datatype QemuConfig = QemuConfig(
    qemuBin: string,
    args: seq<string>,
    desc: Option<string>,
    qemuVersion: Option<string>)

  /** What reading and deserializing one file of the directory yields. */
  datatype FileContent =
    | Record(config: QemuConfig)  // read and deserialized
    | Malformed                   // read, but not a configuration
    | Unreadable                  // `read_to_string` failed

  /** The failures the commands surface to their caller. */
  datatype Error =
    | LocatorFailed          // the configuration directory could not be resolved
    | NotFound(name: string) // no file for the named configuration
    | ReadFailed             // "Failed to read config file"
    | DeserializeFailed      // "Failed to deserialize configuration"
    | PromptFailed           // the confirmation prompt could not read an answer
    | WriteFailed            // "Failed to save new config file"
    | DeleteFailed           // "Failed to delete (old) config file"
    | ReadDirFailed          // "Failed to read config directory"
    | EntryFailed            // "Failed to read directory entry"
    | SpawnFailed(bin: string)
    | ExitFailed(code: int)  // "QEMU execution failed with exit code: …"

  /** `anyhow::Result<()>`. */
  datatype Outcome = Pass | Fail(error: Error)

  /** `anyhow::Result<T>`. */
  datatype Result<T> = Ok(value: T) | Err(error: Error)

  /** The file name a configuration is stored under. */
  function ConfigFileName(name: string): string {
    name + ".json"
  }

  /** Distinct names are stored in distinct files. */
  lemma ConfigFileNameInjective(m: string, n: string)
    requires ConfigFileName(m) == ConfigFileName(n)
    ensures m == n
  {
    assert |m| == |n|;
    assert m == ConfigFileName(m)[..|m|];
  }

  /** The index of the last '.' in a file name. */
  function LastDot(f: string): (r: Option<nat>)
    ensures r.Some? ==> r.value < |f| && f[r.value] == '.'
    ensures r.Some? ==> forall k :: r.value < k < |f| ==> f[k] != '.'
    ensures r.None? ==> forall k :: 0 <= k < |f| ==> f[k] != '.'
    decreases |f|
  {
    if f == [] then None
    else if f[|f| - 1] == '.' then Some(|f| - 1)
    else LastDot(f[..|f| - 1])
  }

  /**
   `Path::extension` of a file name: what follows the last dot, except for
   "..", a name without a dot, and a name whose only dot leads it.
   */
  function FileExtension(f: string): Option<string> {
    if f == ".." then None
    else match LastDot(f)
      case None => None
      case Some(d) => if d == 0 then None else Some(f[d + 1..])
  }

  /** `Path::file_stem` of a file name: what `FileExtension` leaves, without the dot. */
  function FileStem(f: string): string {
    if f == ".." then f
    else match LastDot(f)
      case None => f
      case Some(d) => if d == 0 then f else f[..d]
  }

  /**
   A configuration's file has extension `json` and the configuration's name
   as stem, unless the name is empty: ".json" has no extension at all.
   */
  lemma ConfigFileNameParts(name: string)
    ensures name != [] ==> FileExtension(ConfigFileName(name)) == Some("json")
    ensures name != [] ==> FileStem(ConfigFileName(name)) == name
    ensures name == [] ==> FileExtension(ConfigFileName(name)) == None
  {
    var f := ConfigFileName(name);
    var n := |name|;
    assert f[n] == '.';
    assert forall k :: n < k < |f| ==> f[k] != '.';
    var d := LastDot(f).value;
    assert d == n;
    assert f[..n] == name;
    assert f[n + 1..] == "json";
  }

  /** Every file name with extension `json` is the file of its stem, a non-empty name. */
  lemma JsonFileIsConfigFile(f: string)
    requires FileExtension(f) == Some("json")
    ensures FileStem(f) != []
    ensures ConfigFileName(FileStem(f)) == f
  {
    var d := LastDot(f).value;
    assert f == f[..d] + [f[d]] + f[d + 1..];
  }

  /** Two `json` files with the same stem are the same file. */
  lemma JsonStemInjective(f: string, g: string)
    requires FileExtension(f) == Some("json") && FileExtension(g) == Some("json")
    requires FileStem(f) == FileStem(g)
    ensures f == g
  {
    JsonFileIsConfigFile(f);
    JsonFileIsConfigFile(g);
  }

  /**
   The configuration directory. `located` says whether its location could be
   resolved at all; `files` maps the names of the files in it to what reading
   them gives.
   */
  class Store {
    var located: bool
    var dir: string
    var dirExists: bool
    var files: map<string, FileContent>

    /** A directory that does not exist holds no files. */
    ghost predicate Valid()
      reads this
    {
      !dirExists ==> files == map[]
    }

    /** The path of a configuration's file, as printed. */
    function PathOf(name: string): string
      reads this
    {
      dir + "/" + ConfigFileName(name)
    }

    /** `config_path.exists()`. */
    predicate Exists(name: string)
      reads this
    {
      ConfigFileName(name) in files
    }

    /**
     Resolve, check for, read and deserialize a configuration, failing at the
     first step that fails, as exec, print and rename do.
     */
    function Load(name: string): (r: Result<QemuConfig>)
      reads this
      // a record comes back exactly when the file is there and deserializes, and it is that file's record
      ensures r.Ok? <==> located && Exists(name) && files[ConfigFileName(name)].Record?
      ensures r.Ok? ==> files[ConfigFileName(name)] == Record(r.value)
      // each failure names the first step that failed
      ensures r == Err(LocatorFailed) <==> !located
      ensures r == Err(NotFound(name)) <==> located && !Exists(name)
      ensures r == Err(ReadFailed) <==> located && Exists(name) && files[ConfigFileName(name)] == Unreadable
      ensures r == Err(DeserializeFailed) <==> located && Exists(name) && files[ConfigFileName(name)] == Malformed
    {
      if !located then Err(LocatorFailed)
      else if ConfigFileName(name) !in files then Err(NotFound(name))
      else match files[ConfigFileName(name)]
        case Record(c) => Ok(c)
        case Malformed => Err(DeserializeFailed)
        case Unreadable => Err(ReadFailed)
    }

    /** `fs::write`; `ok` is false when the operating system refuses it. */
    method WriteFile(f: string, content: FileContent, ok: bool) returns (r: Outcome)
      requires Valid()
      modifies this`files
      ensures Valid()
      ensures ok && dirExists ==> r == Pass && files == old(files)[f := content]
      ensures !(ok && dirExists) ==> r == Fail(WriteFailed) && files == old(files)
    {
      if ok && dirExists {
        files := files[f := content];
        r := Pass;
      } else {
        r := Fail(WriteFailed);
      }
    }

    /** `fs::remove_file`; a missing file fails like a refused deletion. */
    method RemoveFile(f: string, ok: bool) returns (r: Outcome)
      requires Valid()
      modifies this`files
      ensures Valid()
      ensures ok && f in old(files) ==> r == Pass && files == old(files) - {f}
      ensures !(ok && f in old(files)) ==> r == Fail(DeleteFailed) && files == old(files)
    {
      if ok && f in files {
        files := files - {f};
        r := Pass;
      } else {
        r := Fail(DeleteFailed);
      }
    }
  }
}
