/**
 * Tilde expansion of one token: `~` alone becomes a copy of HOME and
 * `~/rest` becomes HOME followed by `/rest`; any other token, and every
 * token while HOME is unset, comes back as it is.
 */
module Tilde {
  import opened Common

  /** What expand_tilde returns: NULL, the token itself, or a new string. */
  datatype Expanded = Null | Same | Fresh(text: string)

  /** A token that starts with `~` and is `~` alone or goes on with `/`. */
  predicate Expandable(t: string) {
    |t| >= 1 && t[0] == '~' && (|t| == 1 || t[1] == '/')
  }

  /**
   * expand_tilde(token). allocOk is whether strdup or malloc succeeds; when
   * it does not, the function returns NULL.
   */
  function ExpandTilde(token: Option<string>, env: Env, allocOk: bool): (r: Expanded)
    ensures r.Null? <==> token.None? || (Expandable(token.value) && "HOME" in env && !allocOk)
    ensures r.Same? <==> token.Some? && (!Expandable(token.value) || "HOME" !in env)
    ensures r.Fresh? ==> token.Some? && "HOME" in env && allocOk
    ensures r.Fresh? ==> r.text == env["HOME"] + token.value[1..]
    ensures r.Fresh? ==> |r.text| + 1 == |env["HOME"]| + |token.value|
  {
    if token.None? then Null
    else
      var t := token.value;
      if |t| == 0 || t[0] != '~' then Same
      else
        var home := GetEnv(env, "HOME");
        if home.None? then Same
        else if |t| == 1 then (if allocOk then Fresh(home.value) else Null)
        else if t[1] == '/' then (if allocOk then Fresh(home.value + t[1..]) else Null)
        else Same
  }

  /** The string the caller goes on with: the new one, or the token itself. */
  function Result(token: string, r: Expanded): string {
    if r.Fresh? then r.text else token
  }

  /**
   * Expanding again changes nothing once HOME itself does not start with a
   * tilde: the result of an expansion is never expandable.
   */
  lemma {:induction false} ExpandTildeIdempotent(token: string, env: Env)
    requires "HOME" in env && (|env["HOME"]| == 0 || env["HOME"][0] != '~')
    ensures ExpandTilde(Some(Result(token, ExpandTilde(Some(token), env, true))), env, true).Same?
  {
    var r := ExpandTilde(Some(token), env, true);
    if r.Fresh? {
      var home := env["HOME"];
      var s := r.text;
      if |home| == 0 {
        assert s == token[1..];
        assert |s| == 0 || s[0] == '/';
      } else {
        assert s[0] == home[0];
      }
    }
  }

  /** The cases listed with the function, for HOME = "/home/u". */
  lemma Examples(env: Env)
    requires GetEnv(env, "HOME") == Some("/home/u")
    ensures ExpandTilde(Some("~"), env, true) == Fresh("/home/u")
    ensures ExpandTilde(Some("~/"), env, true) == Fresh("/home/u/")
    ensures ExpandTilde(Some("~/Documents"), env, true) == Fresh("/home/u/Documents")
    ensures ExpandTilde(Some("file~name"), env, true) == Same
    ensures ExpandTilde(Some("~user"), env, true) == Same
  {
    assert "~/"[1..] == "/";
    assert "~/Documents"[1..] == "/Documents";
  }
}
