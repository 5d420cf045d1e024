/**
 * The hand-written `.env` loader that both the server and the database probe
 * run at import time: each line is stripped, blank lines, comments and lines
 * without `=` are skipped, the line is split at its first `=`, quote runs are
 * stripped from the value, and the pair is assigned into the process
 * environment, later lines overwriting earlier ones.
 */
module DotEnv {
  import opened Common

  /**
   * The characters Python's `str.strip()` removes when given no argument:
   * the ASCII controls `\t` to `\r` and `\x1c` to `\x1f`, the space, and the
   * Unicode separators.
   */
  predicate IsSpace(c: char)
  {
    || '\t' <= c <= '\r' || '\U{1C}' <= c <= ' ' || c == '\U{85}' || c == '\U{A0}'
    || c == '\U{1680}' || '\U{2000}' <= c <= '\U{200A}' || c == '\U{2028}' || c == '\U{2029}'
    || c == '\U{202F}' || c == '\U{205F}' || c == '\U{3000}'
  }

  /** The set of characters a strip removes: whitespace, or one given character. */
  datatype Chars = Whitespace | Just(c: char)

  predicate In(c: char, cs: Chars)
  {
    match cs
    case Whitespace => IsSpace(c)
    case Just(d) => c == d
  }

  /** Removes the leading run of characters in `cs`. */
  function StripLeft(s: string, cs: Chars): (r: string)
    ensures |r| <= |s| && r == s[|s| - |r|..]
    ensures r != [] ==> !In(r[0], cs)
  {
    if s != [] && In(s[0], cs) then StripLeft(s[1..], cs) else s
  }

  /** Removes the trailing run of characters in `cs`. */
  function StripRight(s: string, cs: Chars): (r: string)
    ensures |r| <= |s| && r == s[..|r|]
    ensures r != [] ==> !In(r[|r| - 1], cs)
  {
    if s != [] && In(s[|s| - 1], cs) then StripRight(s[..|s| - 1], cs) else s
  }

  /** Python's `s.strip(chars)`: both runs removed, the middle kept as it is. */
  function Strip(s: string, cs: Chars): (r: string)
    ensures |r| <= |s|
    ensures r != [] ==> !In(r[0], cs) && !In(r[|r| - 1], cs)
  {
    StripRight(StripLeft(s, cs), cs)
  }

  /** `r` is the slice of `s` from `i` and every character around it is in `cs`. */
  ghost predicate StrippedAt(s: string, cs: Chars, i: int, r: string)
  {
    && 0 <= i <= |s| - |r| && r == s[i..i + |r|]
    && (forall k :: 0 <= k < i ==> In(s[k], cs))
    && (forall k :: i + |r| <= k < |s| ==> In(s[k], cs))
  }

  /** Everything `StripLeft` drops is in `cs`. */
  lemma {:induction false} StripLeftDropsOnly(s: string, cs: Chars)
    ensures forall k :: 0 <= k < |s| - |StripLeft(s, cs)| ==> In(s[k], cs)
    decreases |s|
  {
    if s != [] && In(s[0], cs) {
      StripLeftDropsOnly(s[1..], cs);
    }
  }

  /** Everything `StripRight` drops is in `cs`. */
  lemma {:induction false} StripRightDropsOnly(s: string, cs: Chars)
    ensures forall k :: |StripRight(s, cs)| <= k < |s| ==> In(s[k], cs)
    decreases |s|
  {
    if s != [] && In(s[|s| - 1], cs) {
      StripRightDropsOnly(s[..|s| - 1], cs);
    }
  }

  /**
   * `Strip` keeps a contiguous middle of `s`, removes only characters of `cs`,
   * and leaves no character of `cs` at either end.
   */
  lemma StripIsMaximalTrim(s: string, cs: Chars)
    ensures exists i :: StrippedAt(s, cs, i, Strip(s, cs))
  {
    var left := StripLeft(s, cs);
    StripLeftDropsOnly(s, cs);
    StripRightDropsOnly(left, cs);
    assert StrippedAt(s, cs, |s| - |left|, Strip(s, cs));
  }

  /** `value.strip('"').strip("'")`: double-quote runs first, then single-quote runs. */
  function Unquote(value: string): (r: string)
    ensures |r| <= |value|
    ensures r != [] ==> r[0] != '\'' && r[|r| - 1] != '\''
  {
    Strip(Strip(value, Just('"')), Just('\''))
  }

  /** A value that neither starts nor ends with a quote comes through `Unquote` unchanged. */
  lemma UnquoteKeepsUnquoted(value: string)
    requires value != [] && value[0] != '"' && value[0] != '\'' && value[|value| - 1] != '"' && value[|value| - 1] != '\''
    ensures Unquote(value) == value
  {
    StripKeepsUnquoted(value, '"');
    StripKeepsUnquoted(value, '\'');
  }

  /** A string that neither starts nor ends with `q` is left as it is by stripping `q`. */
  lemma StripKeepsUnquoted(s: string, q: char)
    ensures s != [] && s[0] != q && s[|s| - 1] != q ==> Strip(s, Just(q)) == s
  {
  }

  /** The position of the first `c` in `s`, if any. */
  function FirstIndexOf(s: string, c: char): (r: Option<nat>)
    ensures r.None? <==> c !in s
    ensures r.Some? ==> r.value < |s| && s[r.value] == c && c !in s[..r.value]
  {
    if s == [] then None
    else if s[0] == c then Some(0)
    else
      match FirstIndexOf(s[1..], c)
      case None => None
      case Some(i) =>
        assert s[..i + 1] == [s[0]] + s[1..][..i];
        Some(i + 1)
  }

  /**
   * A stripped line: `None` when it is blank, a comment or has no `=`;
   * otherwise the key, everything before the first `=` and not trimmed
   * further, and the unquoted rest, which may itself contain `=`.
   */
  function SplitAssignment(l: string): (r: Option<(string, string)>)
    ensures r.Some? <==> l != [] && l[0] != '#' && '=' in l
    ensures r.Some? ==> var key := r.value.0;
      && '=' !in key && |key| < |l| && l[..|key| + 1] == key + ['=']
      && r.value.1 == Unquote(l[|key| + 1..])
  {
    if l == [] || l[0] == '#' then None
    else
      match FirstIndexOf(l, '=')
      case None => None
      case Some(i) =>
        assert l[..i + 1] == l[..i] + ['='];
        Some((l[..i], Unquote(l[i + 1..])))
  }

  /** One line of the file, stripped of surrounding whitespace and then split. */
  function ParseLine(line: string): (r: Option<(string, string)>)
  {
    SplitAssignment(Strip(line, Whitespace))
  }

  /**
   * Whether `os.environ[key] = value` succeeds: on POSIX the assignment
   * raises for an empty name and for a NUL character in the name or the value.
   */
  predicate Settable(key: string, value: string)
    ensures Settable(key, value) <==>
      |key| > 0 && (forall i :: 0 <= i < |key| ==> key[i] != '\U{0}') && (forall i :: 0 <= i < |value| ==> value[i] != '\U{0}')
  {
    key != [] && '\U{0}' !in key && '\U{0}' !in value
  }

  /** The environment after loading, or the environment when a line raised and which line it was. */
  datatype LoadOutcome =
    | Loaded(env: map<string, string>)
    | Raised(env: map<string, string>, line: nat)

  /** An assignment read from one line, or `None` for a skipped line. */
  type Parsed = Option<(string, string)>

  /** Every line of the file, parsed. */
  function ParseAll(lines: seq<string>): (ps: seq<Parsed>)
    ensures |ps| == |lines| && forall i :: 0 <= i < |lines| ==> ps[i] == ParseLine(lines[i])
  {
    seq(|lines|, i requires 0 <= i < |lines| => ParseLine(lines[i]))
  }

  /** The effect of one parsed line on the outcome so far; `n` is the line's index. */
  function Step(o: LoadOutcome, p: Parsed, n: nat): (r: LoadOutcome)
  {
    if o.Raised? || p.None? then o
    else if Settable(p.value.0, p.value.1) then Loaded(o.env[p.value.0 := p.value.1])
    else Raised(o.env, n)
  }

  /** The effect of the parsed lines, in order, on an environment: the reference for the load loop. */
  function Apply(env: map<string, string>, ps: seq<Parsed>): (r: LoadOutcome)
    decreases |ps|
  {
    if ps == [] then Loaded(env)
    else
      var n := |ps| - 1;
      Step(Apply(env, ps[..n]), ps[n], n)
  }

  /** The value of the last assignment to `key`, if there is one. */
  function LastAssignment(ps: seq<Parsed>, key: string): (r: Option<string>)
    decreases |ps|
  {
    if ps == [] then None
    else
      var n := |ps| - 1;
      if ps[n].Some? && ps[n].value.0 == key then Some(ps[n].value.1) else LastAssignment(ps[..n], key)
  }

  /** Applying one more line is one more step. */
  lemma ApplyExtend(env: map<string, string>, ps: seq<Parsed>, p: Parsed)
    ensures Apply(env, ps + [p]) == Step(Apply(env, ps), p, |ps|)
  {
    assert (ps + [p])[..|ps|] == ps;
  }

  /** Once a line has raised, the later lines change nothing. */
  lemma {:induction false} RaisedIsFinal(env: map<string, string>, ps: seq<Parsed>, n: nat)
    requires n <= |ps| && Apply(env, ps[..n]).Raised?
    ensures Apply(env, ps) == Apply(env, ps[..n])
    decreases |ps| - n
  {
    if n < |ps| {
      var m := |ps| - 1;
      assert ps[..m][..n] == ps[..n];
      RaisedIsFinal(env, ps[..m], n);
      assert ps[..|ps|] == ps;
    } else {
      assert ps[..n] == ps;
    }
  }

  /** A parsed line whose assignment raises. */
  ghost predicate Unsettable(p: Parsed)
  {
    p.Some? && !Settable(p.value.0, p.value.1)
  }

  /** Line `n` is the first whose assignment raises. */
  ghost predicate FirstUnsettable(ps: seq<Parsed>, n: int)
  {
    0 <= n < |ps| && Unsettable(ps[n]) && forall k :: 0 <= k < n ==> !Unsettable(ps[k])
  }

  /**
   * A load raises exactly at the first assignment that cannot be made, and a
   * load that raises nothing met no such assignment.
   */
  lemma {:induction false} RaisesAtFirstUnsettable(env: map<string, string>, ps: seq<Parsed>)
    ensures Apply(env, ps).Raised? ==> FirstUnsettable(ps, Apply(env, ps).line)
    ensures Apply(env, ps).Loaded? ==> forall k :: 0 <= k < |ps| ==> !Unsettable(ps[k])
    decreases |ps|
  {
    if ps != [] {
      var m := |ps| - 1;
      RaisesAtFirstUnsettable(env, ps[..m]);
      assert forall k :: 0 <= k < m ==> ps[..m][k] == ps[k];
    }
  }

  /** One quote on each side of an unquoted middle comes off. */
  lemma StripQuotePair(q: char, m: string)
    requires m != [] && m[0] != q && m[|m| - 1] != q
    ensures Strip([q] + m + [q], Just(q)) == m
  {
    assert ([q] + m + [q])[1..] == m + [q];
    assert StripLeft(m + [q], Just(q)) == m + [q];
    assert (m + [q])[..|m|] == m;
    assert StripRight(m + [q], Just(q)) == StripRight(m, Just(q)) == m;
  }

  /**
   * The double-quote runs come off first, so a value in single quotes inside
   * double quotes loses both pairs.
   */
  lemma UnquoteNestedQuotes(m: string)
    requires m != [] && m[0] != '\'' && m[|m| - 1] != '\''
    ensures Unquote(['"', '\''] + m + ['\'', '"']) == m
  {
    assert ['"', '\''] + m + ['\'', '"'] == ['"'] + (['\''] + m + ['\'']) + ['"'];
    StripQuotePair('"', ['\''] + m + ['\'']);
    StripQuotePair('\'', m);
  }

  /** Applying one more parsed line is one more step. */
  lemma ApplyPrefixStep(env: map<string, string>, ps: seq<Parsed>, i: nat)
    requires i < |ps|
    ensures Apply(env, ps[..i + 1]) == Step(Apply(env, ps[..i]), ps[i], i)
  {
    assert ps[..i + 1] == ps[..i] + [ps[i]];
    ApplyExtend(env, ps[..i], ps[i]);
  }

  /**
   * After a load that raised nothing, a key holds the value of its last
   * assignment in the file; a key the file never assigns keeps its old value
   * or stays absent.
   */
  lemma {:induction false} LastAssignmentWins(env: map<string, string>, ps: seq<Parsed>, key: string)
    requires Apply(env, ps).Loaded?
    ensures var e, last := Apply(env, ps).env, LastAssignment(ps, key);
      && (last.Some? ==> key in e && e[key] == last.value)
      && (last.None? ==> (key in e <==> key in env) && (key in env ==> e[key] == env[key]))
    decreases |ps|
  {
    if ps != [] {
      var n := |ps| - 1;
      LastAssignmentWins(env, ps[..n], key);
    }
  }

  /** The process environment, `os.environ`. */
  class Environment {
    var vars: map<string, string>

    constructor (initial: map<string, string>)
      ensures vars == initial
    {
      vars := initial;
    }

    /**
     * The load loop over the decoded lines of `.env`. Returns the index of
     * the line whose assignment raised, if one did; the assignments before
     * it remain in effect.
     */
    method LoadDotEnv(lines: seq<string>) returns (raisedAt: Option<nat>)
      modifies this
      ensures raisedAt.None? ==> Apply(old(vars), ParseAll(lines)) == Loaded(vars)
      ensures raisedAt.Some? ==> Apply(old(vars), ParseAll(lines)) == Raised(vars, raisedAt.value)
    {
      ghost var initial, ps := vars, ParseAll(lines);
      var i := 0;
      while i < |lines|
        invariant 0 <= i <= |lines|
        invariant Apply(initial, ps[..i]) == Loaded(vars)
      {
        var p := ParseLine(lines[i]);
        ApplyPrefixStep(initial, ps, i);
        if p.Some? {
          if !Settable(p.value.0, p.value.1) {
            RaisedIsFinal(initial, ps, i + 1);
            return Some(i);
          }
          vars := vars[p.value.0 := p.value.1];
        }
        i := i + 1;
      }
      assert ps[..i] == ps;
      return None;
    }
  }

  /** The database URL default of `os.environ.get('MONGO_URL', ...)`. */
  const DefaultMongoUrl := "mongodb://localhost:27017"

  /** The database name default of `os.environ.get('DB_NAME', ...)`. */
  const DefaultDbName := "heirloom_ai"

  /** The connection settings read after loading: the stored value or the default. */
  function Settings(env: map<string, string>): (r: (string, string))
    ensures r.0 == (if "MONGO_URL" in env then env["MONGO_URL"] else DefaultMongoUrl)
    ensures r.1 == (if "DB_NAME" in env then env["DB_NAME"] else DefaultDbName)
  {
    (if "MONGO_URL" in env then env["MONGO_URL"] else DefaultMongoUrl,
     if "DB_NAME" in env then env["DB_NAME"] else DefaultDbName)
  }

  /**
   * When neither the starting environment nor the file sets `MONGO_URL` or
   * `DB_NAME`, the connection falls back to the local defaults; a file
   * assignment otherwise decides.
   */
  lemma SettingsAfterLoad(env: map<string, string>, ps: seq<Parsed>)
    requires Apply(env, ps).Loaded?
    ensures var s := Settings(Apply(env, ps).env);
      && ("MONGO_URL" !in env && LastAssignment(ps, "MONGO_URL").None? ==> s.0 == DefaultMongoUrl)
      && ("DB_NAME" !in env && LastAssignment(ps, "DB_NAME").None? ==> s.1 == DefaultDbName)
      && (LastAssignment(ps, "MONGO_URL").Some? ==> s.0 == LastAssignment(ps, "MONGO_URL").value)
      && (LastAssignment(ps, "DB_NAME").Some? ==> s.1 == LastAssignment(ps, "DB_NAME").value)
  {
    LastAssignmentWins(env, ps, "MONGO_URL");
    LastAssignmentWins(env, ps, "DB_NAME");
  }
}
