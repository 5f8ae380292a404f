/**
 * Values shared by every part of the shell model: the C idioms that the
 * source uses everywhere (NULL, errno codes, NULL-terminated argv
 * arrays) and the oracles that stand for the operating system (the process
 * environment and the file system).
 */
module Common {

  /** A value that may be NULL. */
  datatype Option<+T> = None | Some(value: T) {
    function GetOr(default: T): T {
      match this
      case Some(v) => v
      case None => default
    }
  }

  /** The errno values that the core sets or inspects. EOTHER is any other code. */
  datatype Errno = EINVAL | EBUSY | ENOMEM | ECHILD | EINTR | EOTHER

  /** The process environment, as getenv(3) sees it. */
  type Env = map<string, string>

  function GetEnv(env: Env, name: string): Option<string> {
    if name in env then Some(env[name]) else None
  }

  /**
   * What the file system answers to the calls the shell makes:
   * access(X_OK), stat, S_ISREG, the user execute bit, open for reading,
   * open for writing (O_CREAT | O_TRUNC) and chdir.
   */
  datatype FileSystem = FileSystem(
    executable: set<string>,
    existing: set<string>,
    regular: set<string>,
    userExecBit: set<string>,
    readable: set<string>,
    writable: set<string>,
    directories: set<string>)

  // ASCII character classes (the "C" locale of isalpha, isalnum, isspace)

  predicate IsAlpha(c: char) {
    'a' <= c <= 'z' || 'A' <= c <= 'Z'
  }

  predicate IsDigit(c: char) {
    '0' <= c <= '9'
  }

  predicate IsAlnum(c: char) {
    IsAlpha(c) || IsDigit(c)
  }

  predicate IsSpace(c: char) {
    c == ' ' || c == '\t' || c == '\n' || c == '\U{B}' || c == '\U{C}' || c == '\r'
  }

  // NULL-terminated argv arrays, seen as sequences of nullable strings

  /** The array holds a NULL somewhere, so a scan for the terminator stops. */
  ghost predicate Terminated(a: seq<Option<string>>) {
    exists k :: 0 <= k < |a| && a[k].None?
  }

  /** The index of the first NULL: the argc of the array. */
  function Argc(a: seq<Option<string>>): (n: nat)
    requires Terminated(a)
    ensures n < |a| && a[n].None?
    ensures forall i | 0 <= i < n :: a[i].Some?
    decreases |a|
  {
    if a[0].None? then 0
    else
      assert Terminated(a[1..]) by {
        var k :| 0 <= k < |a| && a[k].None?;
        assert k > 0 && a[1..][k - 1].None?;
      }
      1 + Argc(a[1..])
  }

  /** The tokens in front of the terminator. */
  function Tokens(a: seq<Option<string>>): (ts: seq<string>)
    requires Terminated(a)
    ensures |ts| == Argc(a)
    ensures forall i | 0 <= i < |ts| :: a[i] == Some(ts[i])
    decreases |a|
  {
    if a[0].None? then []
    else
      assert Terminated(a[1..]) by {
        var k :| 0 <= k < |a| && a[k].None?;
        assert k > 0 && a[1..][k - 1].None?;
      }
      [a[0].value] + Tokens(a[1..])
  }

  /** A token list laid out as a NULL-terminated array. */
  function Wrap(ts: seq<string>): (a: seq<Option<string>>)
    ensures |a| == |ts|
    ensures forall i | 0 <= i < |ts| :: a[i] == Some(ts[i])
  {
    seq(|ts|, i requires 0 <= i < |ts| => Some(ts[i]))
  }

  /** Laying tokens out with a terminator and reading them back is the identity. */
  lemma TokensOfWrap(ts: seq<string>, rest: seq<Option<string>>)
    ensures Terminated(Wrap(ts) + [None] + rest)
    ensures Argc(Wrap(ts) + [None] + rest) == |ts|
    ensures Tokens(Wrap(ts) + [None] + rest) == ts
  {
    var a := Wrap(ts) + [None] + rest;
    assert a[|ts|].None?;
    ArgcIsFirstNull(a, |ts|);
  }

  /** A token list with its terminator is a well-formed argument vector holding exactly those tokens. */
  lemma WrapArgv(ts: seq<string>)
    ensures Terminated(Wrap(ts) + [None])
    ensures Argc(Wrap(ts) + [None]) == |ts|
    ensures Tokens(Wrap(ts) + [None]) == ts
  {
    TokensOfWrap(ts, []);
    assert Wrap(ts) + [None] + [] == Wrap(ts) + [None];
  }

  /** Any index that holds the first NULL is the argc. */
  lemma ArgcIsFirstNull(a: seq<Option<string>>, n: nat)
    requires n < |a| && a[n].None?
    requires forall i | 0 <= i < n :: a[i].Some?
    ensures Terminated(a) && Argc(a) == n
  {
    assert a[n].None?;
  }
}

/** String helpers: joining with a separator, strtok-style field splitting and decimal rendering. */
module Strings {

  /** The parts in order with one separator between neighbours (what a strcat loop builds). */
  function Join(parts: seq<string>, sep: char): string {
    if |parts| == 0 then ""
    else if |parts| == 1 then parts[0]
    else parts[0] + [sep] + Join(parts[1..], sep)
  }

  /**
   * The fields strtok_r returns for a one-character delimiter set: the
   * maximal non-empty runs of characters other than sep, in order.
   */
  function Fields(s: string, sep: char): (fs: seq<string>)
    ensures forall i | 0 <= i < |fs| :: |fs[i]| > 0 && sep !in fs[i]
  {
    FieldsAfter(s, sep, "")
  }

  /** Fields of s when the run cur has already been read. */
  function FieldsAfter(s: string, sep: char, cur: string): (fs: seq<string>)
    requires sep !in cur
    ensures forall i | 0 <= i < |fs| :: |fs[i]| > 0 && sep !in fs[i]
    decreases |s|
  {
    if s == [] then
      (if cur == [] then [] else [cur])
    else if s[0] == sep then
      (if cur == [] then FieldsAfter(s[1..], sep, []) else [cur] + FieldsAfter(s[1..], sep, []))
    else
      FieldsAfter(s[1..], sep, cur + [s[0]])
  }

  /** A separator-free stretch is absorbed into the current run. */
  lemma {:induction false} FieldsAbsorb(s: string, t: string, sep: char, cur: string)
    requires sep !in cur && sep !in s
    ensures sep !in cur + s
    ensures FieldsAfter(s + t, sep, cur) == FieldsAfter(t, sep, cur + s)
    decreases |s|
  {
    if s == [] {
      assert s + t == t;
      assert cur + s == cur;
    } else {
      assert (s + t)[0] == s[0];
      assert (s + t)[1..] == s[1..] + t;
      FieldsAbsorb(s[1..], t, sep, cur + [s[0]]);
      assert cur + [s[0]] + s[1..] == cur + s;
    }
  }

  /**
   * Splitting a join gives the parts back, as long as every part is
   * non-empty and free of the separator: Fields is the inverse of Join.
   */
  lemma {:induction false} FieldsOfJoin(parts: seq<string>, sep: char)
    requires forall i | 0 <= i < |parts| :: |parts[i]| > 0 && sep !in parts[i]
    ensures Fields(Join(parts, sep), sep) == parts
    decreases |parts|
  {
    if |parts| == 0 {
    } else if |parts| == 1 {
      FieldsAbsorb(parts[0], "", sep, "");
      assert parts[0] + "" == parts[0];
      assert "" + parts[0] == parts[0];
    } else {
      var rest := Join(parts[1..], sep);
      assert Join(parts, sep) == parts[0] + ([sep] + rest);
      FieldsAbsorb(parts[0], [sep] + rest, sep, "");
      assert "" + parts[0] == parts[0];
      assert ([sep] + rest)[1..] == rest;
      FieldsOfJoin(parts[1..], sep);
      assert [parts[0]] + parts[1..] == parts;
    }
  }

  function DigitChar(d: nat): char
    requires d < 10
  {
    "0123456789"[d]
  }

  /** Decimal digits of n, as printf("%d") writes them. */
  function NatToString(n: nat): string
    decreases n
  {
    if n < 10 then [DigitChar(n)] else NatToString(n / 10) + [DigitChar(n % 10)]
  }

  function IntToString(i: int): string {
    if i < 0 then "-" + NatToString(-i) else NatToString(i)
  }
}
