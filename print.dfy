/**
 `vex print`: the details of one saved configuration, section by section,
 ending with the command line it stands for and the file it is kept in.
 */
module Print {
  import opened Wrappers
  import opened Text
  import opened Config

  /** The rule under the title: sixty '=' characters. */
  function Separator(): (s: string)
    ensures |s| == 60 && forall k :: 0 <= k < 60 ==> s[k] == '='
  {
    Repeat('=', 60)
  }

  /** The line for argument `i` of the list, numbered from zero. */
  function IndexedLine(i: nat, arg: string): string {
    "  [" + NatToString(i) + "] " + arg
  }

  /** The numbered lines of all arguments. */
  function IndexedLines(args: seq<string>): (lines: seq<string>)
    ensures |lines| == |args|
  {
    seq(|args|, i requires 0 <= i < |args| => IndexedLine(i, args[i]))
  }

  /** The "Startup Arguments" body: a placeholder line when there are none. */
  function ArgumentLines(args: seq<string>): (lines: seq<string>)
    ensures |lines| == if args == [] then 1 else |args|
  {
    if args == [] then ["  (no arguments)"] else IndexedLines(args)
  }

  /** The command line shown: the binary, one space, the arguments joined by spaces. */
  function FullCommand(config: QemuConfig): string {
    config.qemuBin + " " + Join(config.args, " ")
  }

  /** The description block, present only when the configuration has one. */
  function DescriptionLines(desc: Option<string>): (lines: seq<string>)
    ensures |lines| == if desc.Some? then 3 else 0
  {
    match desc
    case Some(d) => ["Description:", "  " + d, ""]
    case None => []
  }

  /** Everything `print_command` prints for a configuration stored at `path`. */
  function Details(name: string, config: QemuConfig, path: string): seq<string> {
    ["Configuration: " + name, Separator(), ""]
    + DescriptionLines(config.desc)
    + ["QEMU Binary:", "  " + config.qemuBin, ""]
    + ["Startup Arguments:"] + ArgumentLines(config.args) + [""]
    + ["Full Command:", "  " + FullCommand(config), ""]
    + ["Configuration File:", "  " + DebugStr(path)]
  }

  /** Where the "Startup Arguments:" heading sits. */
  function ArgumentsAt(config: QemuConfig): nat {
    6 + |DescriptionLines(config.desc)|
  }

  /** `print_command`. */
  method PrintCommand(store: Store, name: string) returns (res: Outcome, out: seq<string>)
    ensures store.Load(name).Err? ==> res == Fail(store.Load(name).error) && out == []
    ensures store.located && !store.Exists(name) ==> res == Fail(NotFound(name))
    ensures store.Load(name).Ok? ==>
      res == Pass && out == Details(name, store.Load(name).value, store.PathOf(name))
  {
    out := [];
    var loaded := store.Load(name);
    if loaded.Err? {
      return Fail(loaded.error), out;
    }
    var config := loaded.value;
    var path := store.PathOf(name);

    out := out + ["Configuration: " + name, Repeat('=', 60), ""];
    if config.desc.Some? {
      out := out + ["Description:", "  " + config.desc.value, ""];
    }
    assert out == ["Configuration: " + name, Separator(), ""] + DescriptionLines(config.desc);
    out := out + ["QEMU Binary:", "  " + config.qemuBin, ""];
    out := out + ["Startup Arguments:"];
    ghost var head := out;
    if config.args == [] {
      out := out + ["  (no arguments)"];
    } else {
      ghost var before := out;
      for i := 0 to |config.args|
        invariant out == before + IndexedLines(config.args[..i])
      {
        IndexedLinesStep(config.args, i);
        out := out + ["  [" + NatToString(i) + "] " + config.args[i]];
      }
      assert config.args[..|config.args|] == config.args;
    }
    assert out == head + ArgumentLines(config.args);
    out := out + [""];
    out := out + ["Full Command:", "  " + config.qemuBin + " " + Join(config.args, " "), ""];
    out := out + ["Configuration File:", "  " + DebugStr(path)];
    assert "  " + config.qemuBin + " " + Join(config.args, " ") == "  " + FullCommand(config);
    assert out == Details(name, config, path);
    res := Pass;
  }

  /** Numbering one more argument appends its line. */
  lemma IndexedLinesStep(args: seq<string>, i: nat)
    requires i < |args|
    ensures IndexedLines(args[..i + 1]) == IndexedLines(args[..i]) + [IndexedLine(i, args[i])]
  {
  }

  /** The title, the 60-character rule and a blank line open the report. */
  lemma DetailsHeader(name: string, config: QemuConfig, path: string)
    ensures var lines := Details(name, config, path);
      && lines[0] == "Configuration: " + name
      && |lines[1]| == 60 && (forall k :: 0 <= k < 60 ==> lines[1][k] == '=')
      && lines[2] == ""
  {
  }

  /** The description block is shown exactly when there is a description, right after the header. */
  lemma DetailsDescription(name: string, config: QemuConfig, path: string)
    ensures var lines := Details(name, config, path);
      && (lines[3] == "Description:" <==> config.desc.Some?)
      && (config.desc.Some? ==> lines[4] == "  " + config.desc.value && lines[5] == "")
      && (config.desc.None? ==> lines[3] == "QEMU Binary:")
  {
  }

  /**
   After the heading come the arguments: "(no arguments)" when there are
   none, else argument `i` on its own line tagged with `[i]`, in order.
   */
  lemma DetailsArguments(name: string, config: QemuConfig, path: string)
    ensures var lines := Details(name, config, path);
      var at := ArgumentsAt(config);
      && |lines| > at + |ArgumentLines(config.args)| + 1
      && lines[at] == "Startup Arguments:"
      && (config.args == [] ==> lines[at + 1] == "  (no arguments)")
      && (forall i :: 0 <= i < |config.args| ==> lines[at + 1 + i] == IndexedLine(i, config.args[i]))
      && lines[at + 1 + |ArgumentLines(config.args)|] == ""
  {
    var lines := Details(name, config, path);
    var body := ArgumentLines(config.args);
    var pre := ["Configuration: " + name, Separator(), ""] + DescriptionLines(config.desc)
               + ["QEMU Binary:", "  " + config.qemuBin, ""] + ["Startup Arguments:"];
    var post := [""] + ["Full Command:", "  " + FullCommand(config), ""]
                + ["Configuration File:", "  " + DebugStr(path)];
    assert |pre| == ArgumentsAt(config) + 1;
    assert lines == pre + body + post;
    SliceMiddle(pre, body, post);
  }

  /** The middle part of a concatenation sits where the first part ends. */
  lemma SliceMiddle<T>(a: seq<T>, b: seq<T>, c: seq<T>)
    ensures |a + b + c| == |a| + |b| + |c|
    ensures (a + b + c)[|a|..|a| + |b|] == b
    ensures forall i :: 0 <= i < |b| ==> (a + b + c)[|a| + i] == b[i]
    ensures c != [] ==> (a + b + c)[|a| + |b|] == c[0]
  {
  }

  /** The report closes with the command line and the quoted path of the file. */
  lemma DetailsTail(name: string, config: QemuConfig, path: string)
    ensures var lines := Details(name, config, path);
      var n := |lines|;
      && n == ArgumentsAt(config) + |ArgumentLines(config.args)| + 7
      && lines[n - 5] == "Full Command:"
      && lines[n - 4] == "  " + FullCommand(config)
      && lines[n - 2] == "Configuration File:"
      && lines[n - 1] == "  " + DebugStr(path)
  {
  }

  /** Joining with a separator after a first element is one more `xs[0] + sep`. */
  lemma JoinCons(x: string, xs: seq<string>, sep: string)
    requires xs != []
    ensures Join([x] + xs, sep) == x + sep + Join(xs, sep)
  {
    assert ([x] + xs)[1..] == xs;
  }

  /**
   When neither the binary nor any argument holds a space, the full command
   splits at spaces back into the binary and the arguments; with no
   arguments it ends in a lone space, which splits off an empty word.
   */
  lemma FullCommandWords(config: QemuConfig)
    requires ' ' !in config.qemuBin
    requires forall k :: 0 <= k < |config.args| ==> ' ' !in config.args[k]
    ensures Split(FullCommand(config), ' ') ==
      [config.qemuBin] + (if config.args == [] then [""] else config.args)
  {
    var words := [config.qemuBin] + (if config.args == [] then [""] else config.args);
    if config.args == [] {
      assert Join(words, " ") == config.qemuBin + " " + Join([""], " ");
    } else {
      JoinCons(config.qemuBin, config.args, " ");
    }
    assert FullCommand(config) == Join(words, [' ']);
    SplitJoin(words, ' ');
  }

  /** The full command of a configuration without arguments is its binary and a trailing space. */
  lemma FullCommandNoArguments(config: QemuConfig)
    requires config.args == []
    ensures FullCommand(config) == config.qemuBin + " "
  {
  }

  /** An argument line determines its position and its argument. */
  lemma IndexedLineTagged(i: nat, j: nat, a: string, b: string)
    requires IndexedLine(i, a) == IndexedLine(j, b)
    ensures i == j && a == b
  {
    var si, sj := NatToString(i), NatToString(j);
    var p, q := "  [" + si, "  [" + sj;
    assert ']' !in p by {
      forall k | 0 <= k < |p| ensures p[k] != ']' {
        if k >= 3 { assert p[k] == si[k - 3]; }
      }
    }
    assert ']' !in q by {
      forall k | 0 <= k < |q| ensures q[k] != ']' {
        if k >= 3 { assert q[k] == sj[k - 3]; }
      }
    }
    var line := IndexedLine(i, a);
    assert line == p + [']'] + (" " + a);
    assert line == q + [']'] + (" " + b);
    IndexOfAfter(p, ']', " " + a);
    IndexOfAfter(q, ']', " " + b);
    assert p == line[..|p|] && q == line[..|q|];
    assert si == p[3..] && sj == q[3..];
    NatToStringInjective(i, j);
    assert a == line[|p| + 2..] && b == line[|q| + 2..];
  }
}
