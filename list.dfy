/**
 `vex list`: every readable, well-formed configuration in the directory, in
 the order the directory yields its entries, printed as a block of lines.
 The directory listing comes in as a parameter, since its order is the
 operating system's.
 */
module List {
  import opened Wrappers
  import opened Text
  import opened Config

  /** One item of `read_dir`: an error, or a file name. */
  datatype DirEntry = EntryError | Entry(fileName: string)

  /** What `read_dir` returns. */
  datatype Listing = ReadDirError | Entries(entries: seq<DirEntry>)

  /** A configuration as the list shows it. */
  datatype Listed = Listed(name: string, config: QemuConfig)

  /** What reading a listed file gives: a file gone from the directory cannot be read. */
  function ReadEntry(files: map<string, FileContent>, f: string): FileContent {
    if f in files then files[f] else Unreadable
  }

  /** What one entry contributes: its stem and record when it is a `json` file that deserializes. */
  function Pick(files: map<string, FileContent>, e: DirEntry): (r: seq<Listed>)
    ensures |r| <= 1
  {
    match e
    case EntryError => []
    case Entry(f) =>
      if FileExtension(f) == Some("json") then
        match ReadEntry(files, f)
        case Record(c) => [Listed(FileStem(f), c)]
        case _ => []
      else []
  }

  /** The configurations collected from `entries`, in order. */
  function Collected(files: map<string, FileContent>, entries: seq<DirEntry>): seq<Listed>
    decreases |entries|
  {
    if entries == [] then []
    else Collected(files, entries[..|entries| - 1]) + Pick(files, entries[|entries| - 1])
  }

  /** Entry `i` is a `json` file named `n` that deserializes to `c`. */
  predicate Contributes(files: map<string, FileContent>, entries: seq<DirEntry>, i: int, n: string, c: QemuConfig) {
    0 <= i < |entries| && Listed(n, c) in Pick(files, entries[i])
  }

  /** What an entry that contributes is. */
  lemma PickParts(files: map<string, FileContent>, e: DirEntry, n: string, c: QemuConfig)
    requires Listed(n, c) in Pick(files, e)
    ensures e.Entry? && FileExtension(e.fileName) == Some("json")
    ensures FileStem(e.fileName) == n && ReadEntry(files, e.fileName) == Record(c)
  {
  }

  /** Collecting one more entry appends what it contributes. */
  lemma CollectedStep(files: map<string, FileContent>, entries: seq<DirEntry>, i: nat)
    requires i < |entries|
    ensures entries[..i + 1] == entries[..i] + [entries[i]]
    ensures Collected(files, entries[..i + 1]) == Collected(files, entries[..i]) + Pick(files, entries[i])
  {
    assert entries[..i + 1][..i] == entries[..i];
  }

  /** Every listed configuration comes from some entry. */
  lemma {:induction false} ListedHasSource(files: map<string, FileContent>, entries: seq<DirEntry>, n: string, c: QemuConfig)
    requires Listed(n, c) in Collected(files, entries)
    ensures exists i :: Contributes(files, entries, i, n, c)
    decreases |entries|
  {
    var last := |entries| - 1;
    var init := entries[..last];
    assert Collected(files, entries) == Collected(files, init) + Pick(files, entries[last]);
    if Listed(n, c) in Collected(files, init) {
      ListedHasSource(files, init, n, c);
      var i :| Contributes(files, init, i, n, c);
      assert init[i] == entries[i];
      assert Contributes(files, entries, i, n, c);
    } else {
      assert Contributes(files, entries, last, n, c);
    }
  }

  /** Every entry that contributes a configuration has it listed. */
  lemma SourceIsListed(files: map<string, FileContent>, entries: seq<DirEntry>, i: nat, n: string, c: QemuConfig)
    requires Contributes(files, entries, i, n, c)
    ensures Listed(n, c) in Collected(files, entries)
  {
    CollectedAt(files, entries, i);
  }

  /** A configuration is listed exactly when some entry contributes it; everything else is skipped. */
  lemma CollectedMembers(files: map<string, FileContent>, entries: seq<DirEntry>, n: string, c: QemuConfig)
    ensures Listed(n, c) in Collected(files, entries) <==> exists i :: Contributes(files, entries, i, n, c)
  {
    if Listed(n, c) in Collected(files, entries) {
      ListedHasSource(files, entries, n, c);
    }
    if exists i :: Contributes(files, entries, i, n, c) {
      var i :| Contributes(files, entries, i, n, c);
      SourceIsListed(files, entries, i, n, c);
    }
  }

  /** How many items the entries before position `i` contribute. */
  lemma {:induction false} CollectedPrefix(files: map<string, FileContent>, entries: seq<DirEntry>, i: nat)
    requires i <= |entries|
    ensures Collected(files, entries[..i]) <= Collected(files, entries)
    decreases |entries| - i
  {
    if i < |entries| {
      CollectedPrefix(files, entries, i + 1);
      assert entries[..i + 1][..i] == entries[..i];
    } else {
      assert entries[..i] == entries;
    }
  }

  /**
   Order is the directory's: what entry `i` contributes sits right after what
   the entries before it contribute.
   */
  lemma CollectedAt(files: map<string, FileContent>, entries: seq<DirEntry>, i: nat)
    requires i < |entries| && Pick(files, entries[i]) != []
    ensures |Collected(files, entries[..i])| < |Collected(files, entries)|
    ensures Collected(files, entries)[|Collected(files, entries[..i])|] == Pick(files, entries[i])[0]
  {
    CollectedPrefix(files, entries, i + 1);
    assert entries[..i + 1][..i] == entries[..i];
  }

  /** Names are listed at most once when the directory holds each file name once. */
  lemma {:induction false} CollectedNamesDistinct(files: map<string, FileContent>, entries: seq<DirEntry>)
    requires forall i, j :: 0 <= i < j < |entries| && entries[i].Entry? && entries[j].Entry? ==>
               entries[i].fileName != entries[j].fileName
    ensures forall p, q :: 0 <= p < q < |Collected(files, entries)| ==>
              Collected(files, entries)[p].name != Collected(files, entries)[q].name
    decreases |entries|
  {
    if entries != [] {
      var last := |entries| - 1;
      var init := entries[..last];
      var before := Collected(files, init);
      CollectedNamesDistinct(files, init);
      var pick := Pick(files, entries[last]);
      if pick != [] {
        var f := entries[last].fileName;
        forall p | 0 <= p < |before|
          ensures before[p].name != pick[0].name
        {
          assert Listed(before[p].name, before[p].config) in before;
          CollectedMembers(files, init, before[p].name, before[p].config);
          var i :| Contributes(files, init, i, before[p].name, before[p].config);
          PickParts(files, init[i], before[p].name, before[p].config);
          PickParts(files, entries[last], pick[0].name, pick[0].config);
          if before[p].name == pick[0].name {
            JsonStemInjective(init[i].fileName, f);
          }
        }
      }
    }
  }

  /** The listing holds exactly the files of the directory, each once. */
  ghost predicate Faithful(files: map<string, FileContent>, entries: seq<DirEntry>) {
    && (forall i :: 0 <= i < |entries| ==> entries[i].Entry? && entries[i].fileName in files)
    && (forall f :: f in files ==> exists i :: 0 <= i < |entries| && entries[i] == Entry(f))
    && (forall i, j :: 0 <= i < j < |entries| ==> entries[i].fileName != entries[j].fileName)
  }

  /**
   Over a faithful listing, the names shown are exactly the saved
   configurations that deserialize, each shown once. The empty name never is:
   its file ".json" has no extension.
   */
  lemma ListedExactlyTheValid(files: map<string, FileContent>, entries: seq<DirEntry>, n: string)
    requires Faithful(files, entries)
    ensures (exists c :: Listed(n, c) in Collected(files, entries)) <==>
              n != [] && ConfigFileName(n) in files && files[ConfigFileName(n)].Record?
    ensures forall p, q :: 0 <= p < q < |Collected(files, entries)| ==>
              Collected(files, entries)[p].name != Collected(files, entries)[q].name
  {
    CollectedNamesDistinct(files, entries);
    ConfigFileNameParts(n);
    if exists c :: Listed(n, c) in Collected(files, entries) {
      var c :| Listed(n, c) in Collected(files, entries);
      CollectedMembers(files, entries, n, c);
      var i :| Contributes(files, entries, i, n, c);
      PickParts(files, entries[i], n, c);
      JsonFileIsConfigFile(entries[i].fileName);
    }
    if n != [] && ConfigFileName(n) in files && files[ConfigFileName(n)].Record? {
      var f := ConfigFileName(n);
      var c := files[f].config;
      var i :| 0 <= i < |entries| && entries[i] == Entry(f);
      assert Contributes(files, entries, i, n, c);
      CollectedMembers(files, entries, n, c);
    }
  }

  /** The first line of an entry's block. */
  function HeaderLine(item: Listed): string {
    match item.config.desc
    case Some(d) => "  " + item.name + " - " + d
    case None => "  " + item.name + " - (no description)"
  }

  /** The four lines printed for one configuration. */
  function EntryLines(item: Listed): seq<string> {
    [HeaderLine(item),
     "    QEMU: " + item.config.qemuBin,
     "    Args: " + DebugList(item.config.args),
     ""]
  }

  /** The blocks of all listed configurations, in order, four lines each. */
  function Blocks(items: seq<Listed>): (lines: seq<string>)
    ensures |lines| == 4 * |items|
    decreases |items|
  {
    if items == [] then [] else EntryLines(items[0]) + Blocks(items[1..])
  }

  /** The block of the configuration at `k` sits at lines `4 * k` to `4 * k + 3`. */
  lemma {:induction false} BlocksAt(items: seq<Listed>, k: nat)
    requires k < |items|
    ensures Blocks(items)[4 * k..4 * k + 4] == EntryLines(items[k])
    decreases k
  {
    if k > 0 {
      BlocksAt(items[1..], k - 1);
      assert Blocks(items)[4 * k..4 * k + 4] == Blocks(items[1..])[4 * (k - 1)..4 * (k - 1) + 4];
    }
  }

  /** What the command prints once the configurations are collected. */
  function Report(items: seq<Listed>): (lines: seq<string>)
    ensures items == [] ==> lines == ["No configurations found."]
    ensures items != [] ==> |lines| == 1 + 4 * |items| && lines[0] == "Saved configurations:"
  {
    if items == [] then ["No configurations found."]
    else ["Saved configurations:"] + Blocks(items)
  }

  /**
   Each configuration's block, right after the heading and the blocks of the
   configurations before it: its name with the description or
   "(no description)", its binary, its arguments in debug form, an empty line.
   */
  lemma ReportEntry(items: seq<Listed>, k: nat)
    requires k < |items|
    ensures Report(items)[1 + 4 * k..5 + 4 * k] == EntryLines(items[k])
  {
    BlocksAt(items, k);
    assert Report(items)[1 + 4 * k..5 + 4 * k] == Blocks(items)[4 * k..4 * k + 4];
  }

  /**
   The loop over the directory entries: the first entry error stops it,
   anything else that is not a readable, well-formed `json` file is skipped.
   */
  method CollectConfigs(files: map<string, FileContent>, entries: seq<DirEntry>)
    returns (res: Outcome, configs: seq<Listed>)
    ensures EntryError in entries ==> res == Fail(EntryFailed)
    ensures EntryError !in entries ==> res == Pass && configs == Collected(files, entries)
  {
    configs := [];
    for i := 0 to |entries|
      invariant EntryError !in entries[..i]
      invariant configs == Collected(files, entries[..i])
    {
      CollectedStep(files, entries, i);
      match entries[i] {
        case EntryError =>
          assert entries[i] in entries;
          return Fail(EntryFailed), configs;
        case Entry(f) =>
          if FileExtension(f) == Some("json") {
            var name := FileStem(f);
            var content := ReadEntry(files, f);
            match content {
              case Unreadable => continue;
              case Malformed =>
              case Record(config) => configs := configs + [Listed(name, config)];
            }
          }
      }
    }
    assert entries[..|entries|] == entries;
    res := Pass;
  }

  /** The printing loop over the collected configurations. */
  method PrintConfigs(configs: seq<Listed>) returns (out: seq<string>)
    ensures out == Report(configs)
  {
    if configs == [] {
      return ["No configurations found."];
    }
    out := ["Saved configurations:"];
    for k := 0 to |configs|
      invariant out == ["Saved configurations:"] + Blocks(configs[..k])
    {
      BlocksStep(configs, k);
      var item := configs[k];
      ghost var before := out;
      match item.config.desc {
        case Some(d) => out := out + ["  " + item.name + " - " + d];
        case None => out := out + ["  " + item.name + " - (no description)"];
      }
      out := out + ["    QEMU: " + item.config.qemuBin];
      out := out + ["    Args: " + DebugList(item.config.args)];
      out := out + [""];
      assert out == before + EntryLines(item);
    }
    assert configs[..|configs|] == configs;
  }

  /** `list_command`. */
  method ListCommand(store: Store, listing: Listing) returns (res: Outcome, out: seq<string>)
    ensures !store.located ==> res == Fail(LocatorFailed) && out == []
    ensures store.located && !store.dirExists ==> res == Pass && out == ["No configurations saved yet."]
    ensures store.located && store.dirExists && listing.ReadDirError? ==> res == Fail(ReadDirFailed) && out == []
    ensures store.located && store.dirExists && listing.Entries? ==>
      if EntryError in listing.entries then res == Fail(EntryFailed) && out == []
      else res == Pass && out == Report(Collected(store.files, listing.entries))
  {
    out := [];
    if !store.located {
      return Fail(LocatorFailed), out;
    }
    if !store.dirExists {
      return Pass, out + ["No configurations saved yet."];
    }
    if listing.ReadDirError? {
      return Fail(ReadDirFailed), out;
    }
    var configs;
    res, configs := CollectConfigs(store.files, listing.entries);
    if res.Fail? {
      return;
    }
    out := PrintConfigs(configs);
  }

  /** Printing the configuration at `k` appends its block to those before it. */
  lemma BlocksStep(items: seq<Listed>, k: nat)
    requires k < |items|
    ensures Blocks(items[..k + 1]) == Blocks(items[..k]) + EntryLines(items[k])
  {
    BlocksSnoc(items[..k], items[k]);
    assert items[..k + 1] == items[..k] + [items[k]];
  }

  /** Printing one more configuration appends its block. */
  lemma {:induction false} BlocksSnoc(items: seq<Listed>, item: Listed)
    ensures Blocks(items + [item]) == Blocks(items) + EntryLines(item)
    decreases |items|
  {
    if items == [] {
      assert Blocks([item]) == EntryLines(item) + Blocks([]);
    } else {
      assert (items + [item])[1..] == items[1..] + [item];
      BlocksSnoc(items[1..], item);
    }
  }
}
