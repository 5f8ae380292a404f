/**
 * handle_io_redirection, run by a child before execv: scan the argument
 * vector for `<` and `>`, check and bind the named files, then squeeze the
 * operators and their operands out of the vector in place.
 */
module Redirection {
  import opened Common

  /** The token is `<` or `>` (compared as strcmp does, character by character). */
  predicate IsOp(t: string) {
    |t| == 1 && (t[0] == '<' || t[0] == '>')
  }

  /** The last token is an operator with no file after it. */
  predicate Dangling(ts: seq<string>) {
    |ts| > 0 && IsOp(ts[|ts| - 1])
  }

  /**
   * The index of the last occurrence of op before position i that has a
   * token after it, or -1.
   */
  function LastAt(ts: seq<string>, op: string, i: int): (k: int)
    requires 0 <= i <= |ts|
    ensures -1 <= k < i
    ensures k >= 0 ==> ts[k] == op && k + 1 < |ts|
    ensures forall m | k < m < i && m + 1 < |ts| :: ts[m] != op
    decreases i
  {
    if i == 0 then -1
    else if ts[i - 1] == op && i < |ts| then i - 1
    else LastAt(ts, op, i - 1)
  }

  /** The file named after the last op seen before position i, if any. */
  function OperandBefore(ts: seq<string>, op: string, i: int): Option<string>
    requires 0 <= i <= |ts|
  {
    var k := LastAt(ts, op, i);
    if k < 0 then None else Some(ts[k + 1])
  }

  /** The file named after the last op of the whole vector. */
  function Operand(ts: seq<string>, op: string): Option<string> {
    OperandBefore(ts, op, |ts|)
  }

  /**
   * The compaction: each operator met in a left-to-right walk is dropped
   * together with the token after it; other tokens are kept in order.
   */
  function Compact(ts: seq<string>): seq<string> {
    CompactFrom(ts, 0)
  }

  /** The compaction of the walk that starts at index i. */
  function CompactFrom(ts: seq<string>, i: nat): seq<string>
    decreases |ts| - i
  {
    if i >= |ts| then []
    else if IsOp(ts[i]) then CompactFrom(ts, i + 2)
    else [ts[i]] + CompactFrom(ts, i + 1)
  }

  /** a is a subsequence of b (a may be obtained by deleting elements of b). */
  predicate Subseq(a: seq<string>, b: seq<string>)
    decreases |b|
  {
    if a == [] then true
    else if b == [] then false
    else if a[0] == b[0] then Subseq(a[1..], b[1..])
    else Subseq(a, b[1..])
  }

  /** If a is a subsequence of b's tail, it is one of b. */
  lemma {:induction false} SubseqConsDrop(a: seq<string>, b: seq<string>)
    requires b != [] && Subseq(a, b[1..])
    ensures Subseq(a, b)
    decreases |b|, 0
  {
    if a != [] && a[0] == b[0] {
      SubseqTail(a, b[1..]);
    }
  }

  /** Dropping the first element of a keeps it a subsequence. */
  lemma {:induction false} SubseqTail(a: seq<string>, b: seq<string>)
    requires a != [] && Subseq(a, b)
    ensures Subseq(a[1..], b)
    decreases |b|, 1
  {
    if a[0] == b[0] {
      if a[1..] != [] {
        SubseqConsDrop(a[1..], b);
      }
    } else {
      SubseqTail(a, b[1..]);
      if a[1..] != [] {
        SubseqConsDrop(a[1..], b);
      }
    }
  }

  /** The compaction of a walk from i is a subsequence of the tokens from i on. */
  lemma {:induction false} CompactFromIsSubseq(ts: seq<string>, i: nat)
    requires i <= |ts|
    ensures Subseq(CompactFrom(ts, i), ts[i..])
    decreases |ts| - i
  {
    if i < |ts| {
      if IsOp(ts[i]) {
        if i + 2 <= |ts| {
          CompactFromIsSubseq(ts, i + 2);
          SubseqConsDrop(CompactFrom(ts, i + 2), ts[i + 1..]);
          assert ts[i + 1..][1..] == ts[i + 2..];
          SubseqConsDrop(CompactFrom(ts, i + 2), ts[i..]);
          assert ts[i..][1..] == ts[i + 1..];
        } else {
          assert CompactFrom(ts, i + 2) == [];
        }
      } else {
        CompactFromIsSubseq(ts, i + 1);
        assert ts[i..][1..] == ts[i + 1..];
        assert ([ts[i]] + CompactFrom(ts, i + 1))[1..] == CompactFrom(ts, i + 1);
      }
    }
  }

  /** The compacted vector is a subsequence of the original one. */
  lemma CompactIsSubseq(ts: seq<string>)
    ensures Subseq(Compact(ts), ts)
  {
    CompactFromIsSubseq(ts, 0);
    assert ts[0..] == ts;
  }

  /** A walk through tokens without operators keeps all of them. */
  lemma {:induction false} CompactFromNoOps(ts: seq<string>, i: nat)
    requires i <= |ts|
    requires forall k | 0 <= k < |ts| :: !IsOp(ts[k])
    ensures CompactFrom(ts, i) == ts[i..]
    decreases |ts| - i
  {
    if i < |ts| {
      CompactFromNoOps(ts, i + 1);
      assert ts[i..] == [ts[i]] + ts[i + 1..];
    }
  }

  /** A vector without operators is left as it is. */
  lemma CompactNoOps(ts: seq<string>)
    requires forall k | 0 <= k < |ts| :: !IsOp(ts[k])
    ensures Compact(ts) == ts
  {
    CompactFromNoOps(ts, 0);
  }

  /** The compacted vector holds no more tokens than the original. */
  lemma {:induction false} CompactShrinks(ts: seq<string>, i: nat)
    requires i <= |ts|
    ensures |CompactFrom(ts, i)| <= |ts| - i
    decreases |ts| - i
  {
    if i < |ts| {
      if IsOp(ts[i]) {
        if i + 2 <= |ts| {
          CompactShrinks(ts, i + 2);
        }
      } else {
        CompactShrinks(ts, i + 1);
      }
    }
  }

  /** No operator survives a walk from i: every kept token is an ordinary word. */
  lemma {:induction false} CompactFromDropsOps(ts: seq<string>, i: nat)
    ensures forall k | 0 <= k < |CompactFrom(ts, i)| :: !IsOp(CompactFrom(ts, i)[k])
    decreases |ts| - i
  {
    if i < |ts| {
      if IsOp(ts[i]) {
        CompactFromDropsOps(ts, i + 2);
      } else {
        CompactFromDropsOps(ts, i + 1);
        var c := CompactFrom(ts, i);
        assert c == [ts[i]] + CompactFrom(ts, i + 1);
        forall k | 0 <= k < |c| ensures !IsOp(c[k]) {
          if k > 0 {
            assert c[k] == CompactFrom(ts, i + 1)[k - 1];
          }
        }
      }
    }
  }

  /** The compacted vector holds no `<` or `>`. */
  lemma CompactDropsOps(ts: seq<string>)
    ensures forall k | 0 <= k < |Compact(ts)| :: !IsOp(Compact(ts)[k])
  {
    CompactFromDropsOps(ts, 0);
  }

  /** Why the child exits with status 1. */
  datatype Reason =
    | NoInputFile        // `<` is the last token
    | NoOutputFile       // `>` is the last token
    | InputMissing       // stat of the input file fails
    | InputNotRegular    // the input file is not a regular file
    | InputUnopenable    // open for reading fails
    | OutputUnopenable   // open for writing fails

  /** The child exits with a status, or goes on with the bound files and the compacted vector. */
  datatype Outcome =
    | Exit(status: int, reason: Reason)
    | Bound(input: Option<string>, output: Option<string>, args: seq<string>)

  /** The input file, if one is named, exists, is a regular file and can be opened for reading. */
  predicate InputUsable(inFile: Option<string>, fs: FileSystem) {
    inFile.Some? ==> inFile.value in fs.existing && inFile.value in fs.regular && inFile.value in fs.readable
  }

  /**
   * What handle_io_redirection does for the tokens ts: the checks run in
   * order (a dangling operator, then the input file's stat, type and open,
   * then the output file's open), and the first that fails decides the exit.
   */
  function Redirect(ts: seq<string>, fs: FileSystem): (r: Outcome)
    ensures r.Exit? ==> r.status == 1
    ensures Dangling(ts) ==> r == Exit(1, if ts[|ts| - 1] == "<" then NoInputFile else NoOutputFile)
    ensures r.Bound? ==> !Dangling(ts) && r.input == Operand(ts, "<") && r.output == Operand(ts, ">")
    ensures r.Bound? && r.input.Some? ==>
              r.input.value in fs.existing && r.input.value in fs.regular && r.input.value in fs.readable
    ensures r.Bound? && r.output.Some? ==> r.output.value in fs.writable
    ensures r.Bound? ==> Subseq(r.args, ts)
    ensures r.Bound? ==> forall k | 0 <= k < |r.args| :: !IsOp(r.args[k])
    ensures !Dangling(ts) ==>
              var i, o := Operand(ts, "<"), Operand(ts, ">");
              && (i.Some? && i.value !in fs.existing ==> r == Exit(1, InputMissing))
              && (i.Some? && i.value in fs.existing && i.value !in fs.regular ==> r == Exit(1, InputNotRegular))
              && (i.Some? && i.value in fs.existing && i.value in fs.regular && i.value !in fs.readable ==>
                    r == Exit(1, InputUnopenable))
              && (InputUsable(i, fs) && o.Some? && o.value !in fs.writable ==> r == Exit(1, OutputUnopenable))
              && (InputUsable(i, fs) && (o.Some? ==> o.value in fs.writable) ==> r == Bound(i, o, Compact(ts)))
  {
    CompactIsSubseq(ts);
    CompactDropsOps(ts);
    var inFile := Operand(ts, "<");
    var outFile := Operand(ts, ">");
    if Dangling(ts) then
      Exit(1, if ts[|ts| - 1] == "<" then NoInputFile else NoOutputFile)
    else
      var err := FileError(inFile, outFile, fs);
      if err.Some? then Exit(1, err.value) else Bound(inFile, outFile, Compact(ts))
  }

  /** The first failing check on the named files, in the order the code makes them. */
  function FileError(inFile: Option<string>, outFile: Option<string>, fs: FileSystem): Option<Reason> {
    if inFile.Some? && inFile.value !in fs.existing then Some(InputMissing)
    else if inFile.Some? && inFile.value !in fs.regular then Some(InputNotRegular)
    else if inFile.Some? && inFile.value !in fs.readable then Some(InputUnopenable)
    else if outFile.Some? && outFile.value !in fs.writable then Some(OutputUnopenable)
    else None
  }

  /** The stat, open and open checks of handle_io_redirection on the files the scan found. */
  method CheckFiles(inFile: Option<string>, outFile: Option<string>, fs: FileSystem) returns (err: Option<Reason>)
    ensures err == FileError(inFile, outFile, fs)
  {
    if inFile.Some? {
      if inFile.value !in fs.existing {
        return Some(InputMissing);
      }
      if inFile.value !in fs.regular {
        return Some(InputNotRegular);
      }
      if inFile.value !in fs.readable {
        return Some(InputUnopenable);
      }
    }
    if outFile.Some? && outFile.value !in fs.writable {
      return Some(OutputUnopenable);
    }
    return None;
  }

  /** A vector without `<` or `>` binds no file and is passed on whole. */
  lemma NoOpsUnbound(ts: seq<string>, fs: FileSystem)
    requires forall k | 0 <= k < |ts| :: !IsOp(ts[k])
    ensures Redirect(ts, fs) == Bound(None, None, ts)
  {
    assert IsOp("<") && IsOp(">");
    CompactNoOps(ts);
  }

  /** The tokens of a possibly NULL argument vector (none for NULL). */
  function ArgTokens(args: seq<Option<string>>, isNull: bool): seq<string>
    requires !isNull ==> Terminated(args)
  {
    if isNull then [] else Tokens(args)
  }

  /**
   * The scan loop: the last operand of each operator, or the error met at
   * an operator in last position.
   */
  method Scan(args: array?<Option<string>>) returns (inFile: Option<string>, outFile: Option<string>, err: Option<Reason>)
    requires args != null ==> Terminated(args[..])
    ensures var ts := ArgTokens(if args == null then [] else args[..], args == null);
            && (err.Some? <==> Dangling(ts))
            && (err.Some? ==> err.value == if ts[|ts| - 1] == "<" then NoInputFile else NoOutputFile)
            && (err.None? ==> inFile == Operand(ts, "<") && outFile == Operand(ts, ">"))
  {
    inFile, outFile, err := None, None, None;
    if args == null {
      return;
    }
    ghost var ts := Tokens(args[..]);
    assert forall k | 0 <= k < |ts| :: args[k] == args[..][k];
    assert args[|ts|] == args[..][|ts|];
    var i := 0;
    while args[i] != None
      invariant 0 <= i <= |ts|
      invariant inFile == OperandBefore(ts, "<", i) && outFile == OperandBefore(ts, ">", i)
      invariant forall k | 0 <= k < i :: !(IsOp(ts[k]) && k + 1 == |ts|)
      decreases |ts| - i
    {
      var t := args[i].value;
      if t == "<" {
        if args[i + 1] == None {
          return inFile, outFile, Some(NoInputFile);
        }
        inFile := args[i + 1];
      } else if t == ">" {
        if args[i + 1] == None {
          return inFile, outFile, Some(NoOutputFile);
        }
        outFile := args[i + 1];
      }
      i := i + 1;
    }
  }

  /**
   * The compaction of handle_io_redirection: squeeze the kept tokens to the
   * front and write the terminator after them.
   */
  method CompactArgs(args: array<Option<string>>)
    requires Terminated(args[..]) && !Dangling(Tokens(args[..]))
    modifies args
    ensures var out := Compact(Tokens(old(args[..])));
            |out| < args.Length && args[..] == Wrap(out) + [None] + old(args[..])[|out| + 1..]
  {
    ghost var orig := args[..];
    ghost var ts := Tokens(orig);
    assert forall k | 0 <= k < |ts| :: args[k] == orig[k];
    assert args[|ts|] == orig[|ts|];
    var j := Squeeze(args, ts);
    Put(Compact(ts), orig, j, None);
    args[j] := None;
  }

  /**
   * The read/write loop over the tokens ts: i reads, j writes; every token
   * that is not an operator is copied forward and each operator is skipped
   * with its operand.
   */
  method Squeeze(args: array<Option<string>>, ghost ts: seq<string>) returns (j: int)
    requires |ts| < args.Length && args[|ts|] == None
    requires forall k | 0 <= k < |ts| :: args[k] == Some(ts[k])
    requires !Dangling(ts)
    modifies args
    ensures j == |Compact(ts)| <= |ts|
    ensures args[..] == Wrap(Compact(ts)) + old(args[..])[j..]
  {
    ghost var orig := args[..];
    ghost var done: seq<string> := [];
    var i := 0;
    j := 0;
    while args[i] != None
      invariant Squeezing(args[..], orig, ts, done, i, j)
      decreases |ts| - i
    {
      SqueezeRead(args[..], orig, ts, done, i, j);
      var t := args[i].value;
      if IsOp(t) {
        SqueezeSkip(args[..], orig, ts, done, i, j);
        i := i + 2;
      } else {
        ghost var a := args[..];
        SqueezeKeep(a, orig, ts, done, i, j);
        args[j] := args[i];
        assert args[..] == a[j := a[i]];
        done := done + [t];
        j := j + 1;
        i := i + 1;
      }
    }
    SqueezeEnd(args[..], orig, ts, done, i, j);
  }

  /** The state of the read/write loop: a is the array, done the tokens kept so far. */
  ghost predicate Squeezing(a: seq<Option<string>>, orig: seq<Option<string>>, ts: seq<string>,
                            done: seq<string>, i: int, j: int)
  {
    && |ts| < |orig| && orig[|ts|] == None
    && (forall k | 0 <= k < |ts| :: orig[k] == Some(ts[k]))
    && !Dangling(ts)
    && 0 <= j <= i <= |ts| && |done| == j
    && |a| == |orig|
    && (forall k | 0 <= k < j :: a[k] == Some(done[k]))
    && (forall k | j <= k < |a| :: a[k] == orig[k])
    && done + CompactFrom(ts, i) == Compact(ts)
  }

  /** The read index lies at a token until it reaches the terminator. */
  lemma SqueezeRead(a: seq<Option<string>>, orig: seq<Option<string>>, ts: seq<string>,
                    done: seq<string>, i: int, j: int)
    requires Squeezing(a, orig, ts, done, i, j) && i < |a| && a[i] != None
    ensures i < |ts| && a[i] == Some(ts[i])
  {
    assert a[i] == orig[i];
  }

  lemma SqueezeSkip(a: seq<Option<string>>, orig: seq<Option<string>>, ts: seq<string>,
                    done: seq<string>, i: int, j: int)
    requires Squeezing(a, orig, ts, done, i, j) && i < |ts| && IsOp(ts[i])
    ensures Squeezing(a, orig, ts, done, i + 2, j)
  {
  }

  lemma SqueezeKeep(a: seq<Option<string>>, orig: seq<Option<string>>, ts: seq<string>,
                    done: seq<string>, i: int, j: int)
    requires Squeezing(a, orig, ts, done, i, j) && i < |ts| && !IsOp(ts[i])
    ensures j < |a| && i < |a| && Squeezing(a[j := a[i]], orig, ts, done + [ts[i]], i + 1, j + 1)
  {
    assert a[i] == orig[i];
    assert (done + [ts[i]]) + CompactFrom(ts, i + 1) == done + ([ts[i]] + CompactFrom(ts, i + 1));
  }

  lemma SqueezeEnd(a: seq<Option<string>>, orig: seq<Option<string>>, ts: seq<string>,
                   done: seq<string>, i: int, j: int)
    requires Squeezing(a, orig, ts, done, i, j) && i < |a| && a[i] == None
    ensures j == |Compact(ts)| <= |ts| && a == Wrap(Compact(ts)) + orig[j..]
  {
    assert a[i] == orig[i];
    assert i == |ts|;
    assert done == done + CompactFrom(ts, i);
    assert a == Wrap(done) + orig[j..];
  }

  /** Overwriting the first element of the unwritten part. */
  lemma Put(done: seq<string>, orig: seq<Option<string>>, j: int, x: Option<string>)
    requires j == |done| < |orig|
    ensures (Wrap(done) + orig[j..])[j := x] == Wrap(done) + [x] + orig[j + 1..]
  {
    assert orig[j..] == [orig[j]] + orig[j + 1..];
  }

  /**
   * handle_io_redirection: the outcome for the vector, and on success the
   * vector compacted in place. A NULL vector is left alone.
   */
  method HandleIoRedirection(args: array?<Option<string>>, fs: FileSystem) returns (r: Outcome)
    requires args != null ==> Terminated(args[..])
    modifies args
    ensures r == Redirect(ArgTokens(if args == null then [] else old(args[..]), args == null), fs)
    ensures args != null && r.Bound? ==>
              |r.args| < args.Length && args[..] == Wrap(r.args) + [None] + old(args[..])[|r.args| + 1..]
    ensures args != null && r.Exit? ==> args[..] == old(args[..])
  {
    var inFile, outFile, err := Scan(args);
    var ts := ArgTokens(if args == null then [] else args[..], args == null);
    if err.Some? {
      return Exit(1, err.value);
    }
    var bad := CheckFiles(inFile, outFile, fs);
    if bad.Some? {
      return Exit(1, bad.value);
    }
    if args == null {
      return Bound(inFile, outFile, []);
    }
    CompactArgs(args);
    r := Bound(inFile, outFile, Compact(ts));
  }
}
