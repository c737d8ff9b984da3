/**
 Parameter substitution in stored arguments: every match of the regular
 expression `\$\{([^}]+)\}`, found left to right without overlap, is replaced
 by the value of the environment variable it names, or kept as it is when
 that variable is not set. Replacement text is never scanned again.
 */
module Substitution {
  import opened Wrappers

  /** The pattern matches `s[i..j + 1]`: "${", a run of non-'}' characters, "}". */
  ghost predicate PlaceholderAt(s: string, i: int, j: int) {
    && 0 <= i && i + 3 <= j < |s|
    && s[i] == '$' && s[i + 1] == '{' && s[j] == '}'
    && forall k :: i + 2 <= k < j ==> s[k] != '}'
  }

  /** The pattern matches somewhere in `s`. */
  ghost predicate ContainsPlaceholder(s: string) {
    exists i, j :: PlaceholderAt(s, i, j)
  }

  /** The first '}' of `s` at or after `i`. */
  function CloseFrom(s: string, i: nat): (r: Option<nat>)
    ensures r.Some? ==> i <= r.value < |s| && s[r.value] == '}'
    ensures r.Some? ==> forall k :: i <= k < r.value ==> s[k] != '}'
    ensures r.None? ==> forall k :: i <= k < |s| ==> s[k] != '}'
    decreases |s| - i
  {
    if i >= |s| then None
    else if s[i] == '}' then Some(i)
    else CloseFrom(s, i + 1)
  }

  /** The closing brace of the match that starts `s`, if one does. */
  function MatchAtStart(s: string): (r: Option<nat>)
    ensures r.Some? ==> PlaceholderAt(s, 0, r.value)
    ensures forall j :: PlaceholderAt(s, 0, j) ==> r == Some(j)
  {
    if |s| >= 3 && s[0] == '$' && s[1] == '{' && s[2] != '}' then CloseFrom(s, 3) else None
  }

  /** What a placeholder naming `name` becomes: the variable's value, or itself. */
  function Value(name: string, env: map<string, string>): string {
    if name in env then env[name] else "${" + name + "}"
  }

  /** `Regex::replace_all` on one argument. */
  function Substitute(s: string, env: map<string, string>): string
    decreases |s|
  {
    if s == [] then []
    else match MatchAtStart(s)
      case Some(j) => Value(s[2..j], env) + Substitute(s[j + 1..], env)
      case None => [s[0]] + Substitute(s[1..], env)
  }

  /** The names the matches in `s` capture, in the order `replace_all` meets them. */
  function Names(s: string): (ns: seq<string>)
    ensures forall k :: 0 <= k < |ns| ==> ns[k] != [] && '}' !in ns[k]
    decreases |s|
  {
    if s == [] then []
    else match MatchAtStart(s)
      case Some(j) => [s[2..j]] + Names(s[j + 1..])
      case None => Names(s[1..])
  }

  /** `substitute_params`: each argument substituted on its own. */
  function SubstituteParams(args: seq<string>, env: map<string, string>): (r: seq<string>)
    ensures |r| == |args|
    ensures forall i :: 0 <= i < |args| ==> r[i] == Substitute(args[i], env)
    decreases |args|
  {
    if args == [] then [] else [Substitute(args[0], env)] + SubstituteParams(args[1..], env)
  }

  /** A string that starts with a match is the placeholder followed by the rest. */
  lemma SplitAtMatch(s: string, j: nat)
    requires PlaceholderAt(s, 0, j)
    ensures s == "${" + s[2..j] + "}" + s[j + 1..]
  {
    assert s == s[..2] + s[2..j] + [s[j]] + s[j + 1..];
  }

  /** When no name a match captures is set, the argument comes back unchanged. */
  lemma {:induction false} SubstituteUnset(s: string, env: map<string, string>)
    requires forall n :: n in Names(s) ==> n !in env
    ensures Substitute(s, env) == s
    decreases |s|
  {
    if s != [] {
      match MatchAtStart(s)
      case Some(j) =>
        assert s[2..j] in Names(s);
        SubstituteUnset(s[j + 1..], env);
        SplitAtMatch(s, j);
      case None =>
        SubstituteUnset(s[1..], env);
    }
  }

  /** The scanner finds a match exactly when the pattern occurs. */
  lemma {:induction false} NamesEmptyIff(s: string)
    ensures Names(s) == [] <==> !ContainsPlaceholder(s)
    decreases |s|
  {
    if s != [] {
      NamesEmptyIff(s[1..]);
      match MatchAtStart(s)
      case Some(j) =>
        assert PlaceholderAt(s, 0, j);
      case None =>
        if ContainsPlaceholder(s) {
          var i, j :| PlaceholderAt(s, i, j);
          assert i != 0;
          assert PlaceholderAt(s[1..], i - 1, j - 1);
        }
        if ContainsPlaceholder(s[1..]) {
          var i, j :| PlaceholderAt(s[1..], i, j);
          assert PlaceholderAt(s, i + 1, j + 1);
        }
    }
  }

  /** An argument in which the pattern does not occur is returned unchanged. */
  lemma SubstituteNoPlaceholder(s: string, env: map<string, string>)
    requires !ContainsPlaceholder(s)
    ensures Substitute(s, env) == s
  {
    NamesEmptyIff(s);
    SubstituteUnset(s, env);
  }

  /** Without a '}' there is nothing to match: "${abc" stays as it is. */
  lemma {:induction false} SubstituteNoClose(s: string, env: map<string, string>)
    requires '}' !in s
    ensures Substitute(s, env) == s
    decreases |s|
  {
    if s != [] {
      assert MatchAtStart(s) == None;
      assert forall c :: c in s[1..] ==> c in s;
      SubstituteNoClose(s[1..], env);
    }
  }

  /** When no variable an argument refers to is set, the whole list is returned unchanged. */
  lemma SubstituteParamsUnset(args: seq<string>, env: map<string, string>)
    requires forall i, n :: 0 <= i < |args| && n in Names(args[i]) ==> n !in env
    ensures SubstituteParams(args, env) == args
  {
    forall i | 0 <= i < |args|
      ensures SubstituteParams(args, env)[i] == args[i]
    {
      SubstituteUnset(args[i], env);
    }
  }

  /**
   No match can start inside `p` when `q` follows it: no '$' of `p` is
   directly followed by '{', whether that '{' is in `p` or starts `q`.
   */
  predicate LiteralBefore(p: string, q: string)
    decreases |p|
  {
    p == [] || (!(p[0] == '$' && |p + q| >= 2 && (p + q)[1] == '{') && LiteralBefore(p[1..], q))
  }

  /** No match starts at the head of literal text. */
  lemma NoMatchAtLiteral(p: string, q: string)
    requires p != [] && LiteralBefore(p, q)
    ensures MatchAtStart(p + q) == None
  {
  }

  /** Literal text that cannot start a match is copied as it is and does not affect what follows it. */
  lemma {:induction false} SubstituteLiteralPrefix(p: string, q: string, env: map<string, string>)
    requires LiteralBefore(p, q)
    ensures Substitute(p + q, env) == p + Substitute(q, env)
    decreases |p|
  {
    if p != [] {
      var s := p + q;
      NoMatchAtLiteral(p, q);
      SubstituteNoMatch(s, env);
      assert s[0] == p[0] && s[1..] == p[1..] + q;
      assert LiteralBefore(p[1..], q);
      SubstituteLiteralPrefix(p[1..], q, env);
      assert p == [p[0]] + p[1..];
    } else {
      assert p + q == q;
    }
  }

  /** A placeholder is replaced by its value, and scanning resumes right after its '}'. */
  lemma SubstitutePlaceholderPrefix(name: string, q: string, env: map<string, string>)
    requires name != [] && '}' !in name
    ensures Substitute("${" + name + "}" + q, env) == Value(name, env) + Substitute(q, env)
    ensures Names("${" + name + "}" + q) == [name] + Names(q)
  {
    var s := "${" + name + "}" + q;
    var j := |name| + 2;
    assert forall k :: 2 <= k < j ==> s[k] == name[k - 2];
    assert PlaceholderAt(s, 0, j);
    assert s[2..j] == name;
    assert s[j + 1..] == q;
  }

  /** "${}" is not a placeholder: a name must have at least one character. */
  lemma SubstituteEmptyBraces(q: string, env: map<string, string>)
    ensures Substitute("${}" + q, env) == "${}" + Substitute(q, env)
  {
    var s, t := "${}" + q, "{}" + q;
    assert s[0] == '$' && s[2] == '}' && s[1..] == t;
    assert MatchAtStart(s) == None;
    SubstituteNoMatch(s, env);
    assert t[0] == '{' && t[1..] == "}" + q;
    LiteralTwo(q);
    SubstituteLiteralPrefix("{}", q, env);
  }

  /** "{}" is literal text before anything. */
  lemma LiteralTwo(q: string)
    ensures LiteralBefore("{}", q)
  {
    assert "{}"[1..] == "}" && "}"[1..] == [];
  }

  /** Where no match starts, the first character is copied and scanning moves on. */
  lemma SubstituteNoMatch(s: string, env: map<string, string>)
    requires s != [] && MatchAtStart(s) == None
    ensures Substitute(s, env) == [s[0]] + Substitute(s[1..], env)
  {
  }

  /** An argument built from literal text and placeholders, for stating substitution piecewise. */
  datatype Segment = Text(text: string) | Var(name: string)

  /**
   No literal piece can start a match together with what follows it, and
   placeholder names are non-empty and have no '}'.
   */
  ghost predicate WellFormed(segs: seq<Segment>) {
    forall k :: 0 <= k < |segs| ==>
      match segs[k]
      case Text(t) => LiteralBefore(t, Template(segs[k + 1..]))
      case Var(n) => n != [] && '}' !in n
  }

  /** The argument the segments spell. */
  function Template(segs: seq<Segment>): string
    decreases |segs|
  {
    if segs == [] then []
    else match segs[0]
      case Text(t) => t + Template(segs[1..])
      case Var(n) => "${" + n + "}" + Template(segs[1..])
  }

  /** Each placeholder replaced by its value, each literal piece kept. */
  function Filled(segs: seq<Segment>, env: map<string, string>): string
    decreases |segs|
  {
    if segs == [] then []
    else match segs[0]
      case Text(t) => t + Filled(segs[1..], env)
      case Var(n) => Value(n, env) + Filled(segs[1..], env)
  }

  /**
   Substitution replaces every placeholder of an argument independently, left
   to right, and inserts each value verbatim: values are not scanned again.
   */
  lemma {:induction false} SubstituteTemplate(segs: seq<Segment>, env: map<string, string>)
    requires WellFormed(segs)
    ensures Substitute(Template(segs), env) == Filled(segs, env)
    decreases |segs|
  {
    if segs != [] {
      assert WellFormed(segs[1..]) by {
        forall k | 0 <= k < |segs[1..]|
          ensures segs[1..][k] == segs[k + 1] && segs[1..][k + 1..] == segs[k + 2..]
        { }
      }
      SubstituteTemplate(segs[1..], env);
      match segs[0]
      case Text(t) =>
        assert LiteralBefore(t, Template(segs[1..])) by { assert segs[0] == Text(t); }
        SubstituteLiteralPrefix(t, Template(segs[1..]), env);
      case Var(n) =>
        assert n != [] && '}' !in n by { assert segs[0] == Var(n); }
        SubstitutePlaceholderPrefix(n, Template(segs[1..]), env);
    }
  }

  /** An unset variable leaves its placeholder in place. */
  lemma ExampleUnset()
    ensures Substitute("--id=${FOO}", map[]) == "--id=${FOO}"
  {
    var p, v, env: map<string, string> := "--id=", "FOO", map[];
    var q := "${" + v + "}" + "";
    assert "--id=${FOO}" == p + q;
    assert Substitute(q, env) == Value(v, env) + Substitute("", env) by {
      SubstitutePlaceholderPrefix(v, "", env);
    }
    assert Substitute(p + q, env) == p + Substitute(q, env) by {
      SubstituteLiteralPrefix(p, q, env);
    }
  }

  /** A set variable is replaced by its value. */
  lemma ExampleSet()
    ensures Substitute("--id=${FOO}", map["FOO" := "bar"]) == "--id=bar"
  {
    var p, v, env := "--id=", "FOO", map["FOO" := "bar"];
    var q := "${" + v + "}" + "";
    assert "--id=${FOO}" == p + q;
    assert Substitute(q, env) == Value(v, env) + Substitute("", env) by {
      SubstitutePlaceholderPrefix(v, "", env);
    }
    assert Value(v, env) == "bar";
    assert Substitute(p + q, env) == p + Substitute(q, env) by {
      SubstituteLiteralPrefix(p, q, env);
    }
    assert p + "bar" == "--id=bar";
  }

  /** A value that is itself a placeholder is inserted literally, not expanded again. */
  lemma ExampleSinglePass()
    ensures Substitute("${A}", map["A" := "${B}", "B" := "x"]) == "${B}"
  {
    var v := "A";
    assert "${A}" == "${" + v + "}" + "";
    SubstitutePlaceholderPrefix(v, "", map["A" := "${B}", "B" := "x"]);
  }

  /** A name runs to the first '}' and may contain '$' and '{'. */
  lemma ExampleNestedOpen()
    ensures Names("${a${b}") == ["a${b"]
  {
    var v := "a${b";
    assert "${a${b}" == "${" + v + "}" + "";
    SubstitutePlaceholderPrefix(v, "", map[]);
  }

  /** A '$' that does not open "${" is literal text: only the placeholder is replaced. */
  lemma ExampleBareDollar()
    ensures Substitute("$HOME/${X}", map["X" := "v"]) == "$HOME/v"
  {
    var p, v, env := "$HOME/", "X", map["X" := "v"];
    var q := "${" + v + "}" + "";
    assert "$HOME/${X}" == p + q;
    assert Substitute(q, env) == Value(v, env) + Substitute("", env) by {
      SubstitutePlaceholderPrefix(v, "", env);
    }
    assert Value(v, env) == "v";
    assert Substitute(p + q, env) == p + Substitute(q, env) by {
      assert LiteralBefore(p, q);
      SubstituteLiteralPrefix(p, q, env);
    }
    assert p + "v" == "$HOME/v";
  }
}
