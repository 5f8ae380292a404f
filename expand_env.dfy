/**
 * `$NAME` expansion of argument vectors: a token that is exactly `$`
 * followed by a valid variable name becomes the variable's value, or the
 * empty string when it is unset; every other token stays as it is.
 */
module ExpandEnv {
  import opened Common

  predicate NameChar(c: char) {
    IsAlnum(c) || c == '_'
  }

  /** The characters of name from i on are all letters, digits or `_`. */
  function RestValid(name: string, i: nat): (ok: bool)
    requires i <= |name|
    ensures ok <==> forall k | i <= k < |name| :: NameChar(name[k])
    decreases |name| - i
  {
    i == |name| || (NameChar(name[i]) && RestValid(name, i + 1))
  }

  /**
   * is_valid_env_name: non-empty, a letter or `_` first, then letters,
   * digits or `_`.
   */
  function ValidName(name: string): (ok: bool)
    ensures ok <==> |name| > 0 && (IsAlpha(name[0]) || name[0] == '_') &&
                    forall k | 1 <= k < |name| :: NameChar(name[k])
  {
    |name| > 0 && (IsAlpha(name[0]) || name[0] == '_') && RestValid(name, 1)
  }

  /** The token is `$` followed by a valid name. */
  predicate Expands(tok: string) {
    |tok| >= 2 && tok[0] == '$' && ValidName(tok[1..])
  }

  /** The token after expansion. */
  function Expand(env: Env, tok: string): (r: string)
    ensures r != tok ==> Expands(tok)
    ensures Expands(tok) ==> r == GetEnv(env, tok[1..]).GetOr("")
    ensures !Expands(tok) ==> r == tok
  {
    if Expands(tok) then GetEnv(env, tok[1..]).GetOr("") else tok
  }

  /** A lone `$`, a name that starts with a digit and a `$` inside a word are not expanded. */
  lemma NotExpanded(env: Env)
    ensures Expand(env, "$") == "$"
    ensures Expand(env, "$1BAD") == "$1BAD"
    ensures Expand(env, "a$B") == "a$B"
  {
    assert !IsAlpha("$1BAD"[1..][0]);
  }

  /** Unset variables expand to the empty string. */
  lemma UnsetIsEmpty(env: Env, name: string)
    requires ValidName(name) && name !in env
    ensures Expand(env, "$" + name) == ""
  {
    assert ("$" + name)[1..] == name;
  }

  /** Each token expanded, in order. */
  function ExpandTokens(env: Env, ts: seq<string>): (r: seq<string>)
    ensures |r| == |ts|
    ensures forall i | 0 <= i < |ts| :: r[i] == Expand(env, ts[i])
  {
    seq(|ts|, i requires 0 <= i < |ts| => Expand(env, ts[i]))
  }

  /**
   * An argument vector with every token in front of the terminator
   * expanded; the terminator and whatever lies after it are untouched.
   */
  function ExpandArgv(env: Env, a: seq<Option<string>>): (r: seq<Option<string>>)
    requires Terminated(a)
    ensures |r| == |a|
    ensures forall i | 0 <= i < Argc(a) :: r[i] == Some(Expand(env, a[i].value))
    ensures forall i | Argc(a) <= i < |a| :: r[i] == a[i]
    ensures forall i | 0 <= i < |a| && r[i] != a[i] :: i < Argc(a) && Expands(a[i].value)
  {
    var n := Argc(a);
    seq(|a|, i requires 0 <= i < |a| => if i < n then Some(Expand(env, a[i].value)) else a[i])
  }

  /** Expansion keeps the terminator where it was and expands the token list. */
  lemma ExpandArgvTokens(env: Env, a: seq<Option<string>>)
    requires Terminated(a)
    ensures Terminated(ExpandArgv(env, a)) && Argc(ExpandArgv(env, a)) == Argc(a)
    ensures Tokens(ExpandArgv(env, a)) == ExpandTokens(env, Tokens(a))
  {
    var r := ExpandArgv(env, a);
    ArgcIsFirstNull(r, Argc(a));
  }

  /**
   * expand_env_vars_dup: a fresh NULL-terminated vector holding the
   * expanded tokens; NULL for a NULL input.
   */
  method ExpandEnvVarsDup(argv: Option<seq<Option<string>>>, env: Env) returns (out: Option<seq<Option<string>>>)
    requires argv.Some? ==> Terminated(argv.value)
    ensures argv.None? <==> out.None?
    ensures argv.Some? ==> out.Some? && Terminated(out.value) && |out.value| == Argc(argv.value) + 1
    ensures argv.Some? ==> Tokens(out.value) == ExpandTokens(env, Tokens(argv.value))
  {
    if argv.None? {
      return None;
    }
    var a := argv.value;
    var n := 0;
    while a[n] != None
      invariant 0 <= n <= Argc(a)
      decreases Argc(a) - n
    {
      n := n + 1;
    }
    var arr := new Option<string>[n + 1](_ => None);
    for i := 0 to n
      invariant forall k | 0 <= k < i :: arr[k] == Some(Expand(env, a[k].value))
      invariant arr[n] == None
    {
      arr[i] := Some(Expand(env, a[i].value));
    }
    ghost var ts := Tokens(a);
    assert arr[..] == Wrap(ExpandTokens(env, ts)) + [None] + [];
    TokensOfWrap(ExpandTokens(env, ts), []);
    return Some(arr[..]);
  }

  /**
   * expand_env_vars_inplace: replace each expandable token of the vector
   * by its expansion; returns 0, and 0 for a NULL vector.
   */
  method ExpandEnvVarsInplace(argv: array?<Option<string>>, env: Env) returns (ret: int)
    requires argv != null ==> Terminated(argv[..])
    modifies argv
    ensures ret == 0
    ensures argv != null ==> argv[..] == ExpandArgv(env, old(argv[..]))
  {
    if argv == null {
      return 0;
    }
    ghost var orig := argv[..];
    ghost var n := Argc(orig);
    assert orig[n] == None;
    var i := 0;
    while argv[i] != None
      invariant 0 <= i <= n
      invariant forall k | 0 <= k < i :: argv[k] == Some(Expand(env, orig[k].value))
      invariant forall k | i <= k < argv.Length :: argv[k] == orig[k]
      decreases n - i
    {
      var tok := argv[i].value;
      if |tok| >= 2 && tok[0] == '$' {
        if ValidName(tok[1..]) {
          argv[i] := Some(GetEnv(env, tok[1..]).GetOr(""));
        }
      }
      i := i + 1;
    }
    assert argv[..] == ExpandArgv(env, orig);
    return 0;
  }
}
