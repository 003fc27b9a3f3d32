/** The fail-fast loop over the files to sign (Signing/Commands/SignCommand.cs:124-136
    and 149-161), with `ExecuteToolAsync` (lines 164-175) as an oracle from a tool
    path and an argument string to the exit code. */
module Batch {
  import opened Arguments

  /** One start of a signing tool. */
  datatype Invocation = Invocation(toolPath: string, arguments: string)

  /** What a sign command does: it returns an exit code after starting the
      listed tool invocations in order, or an exception escapes it. */
  datatype Outcome = Returned(exitCode: int, invoked: seq<Invocation>) | Threw(directory: string)

  /** `ExecuteToolAsync(toolPath, toolArgs)`: the exit code of the process. */
  type ExitCodeOracle = (string, string) -> int

  /** The invocation for one file. */
  function Call(toolPath: string, argsBase: string, file: string): Invocation {
    Invocation(toolPath, FileArgs(argsBase, file))
  }

  predicate Succeeds(run: ExitCodeOracle, inv: Invocation) {
    run(inv.toolPath, inv.arguments) == 0
  }

  /** Every file succeeds when signed with this tool and base. */
  predicate AllSucceed(toolPath: string, argsBase: string, files: seq<string>, run: ExitCodeOracle) {
    forall i :: 0 <= i < |files| ==> Succeeds(run, Call(toolPath, argsBase, files[i]))
  }

  /** The `foreach` over the files: each file is signed in input order; the
      first non-zero exit code stops the loop with -1; otherwise 0. */
  function SignFiles(toolPath: string, argsBase: string, files: seq<string>, run: ExitCodeOracle): (o: Outcome)
    ensures o.Returned?
    ensures o.exitCode == 0 || o.exitCode == -1
    ensures |o.invoked| <= |files|
    ensures o.exitCode == 0 ==> |o.invoked| == |files|
    ensures o.exitCode == -1 ==> |o.invoked| > 0
    decreases |files|
  {
    if |files| == 0 then Returned(0, [])
    else
      var call := Call(toolPath, argsBase, files[0]);
      if !Succeeds(run, call) then Returned(-1, [call])
      else
        var rest := SignFiles(toolPath, argsBase, files[1..], run);
        Returned(rest.exitCode, [call] + rest.invoked)
  }

  /** The invocations are the files' invocations in input order: a prefix of
      the files, each signed at most once. */
  lemma {:induction false} SignFilesInOrder(toolPath: string, argsBase: string, files: seq<string>, run: ExitCodeOracle)
    ensures var o := SignFiles(toolPath, argsBase, files, run);
      forall i :: 0 <= i < |o.invoked| ==> o.invoked[i] == Call(toolPath, argsBase, files[i])
    decreases |files|
  {
    if |files| > 0 && Succeeds(run, Call(toolPath, argsBase, files[0])) {
      SignFilesInOrder(toolPath, argsBase, files[1..], run);
      var o := SignFiles(toolPath, argsBase, files, run);
      var rest := SignFiles(toolPath, argsBase, files[1..], run);
      assert o.invoked == [Call(toolPath, argsBase, files[0])] + rest.invoked;
      forall i | 1 <= i < |o.invoked|
        ensures o.invoked[i] == Call(toolPath, argsBase, files[i])
      {
        assert o.invoked[i] == rest.invoked[i - 1];
        assert files[1..][i - 1] == files[i];
      }
    }
  }

  /** Every file before the last one started exited with 0, and on -1 the
      last one started is the one that failed. */
  lemma {:induction false} SignFilesStopsAtFailure(toolPath: string, argsBase: string, files: seq<string>, run: ExitCodeOracle)
    ensures var o := SignFiles(toolPath, argsBase, files, run);
      && (forall i :: 0 <= i < |o.invoked| - 1 ==> Succeeds(run, Call(toolPath, argsBase, files[i])))
      && (o.exitCode == -1 ==> !Succeeds(run, Call(toolPath, argsBase, files[|o.invoked| - 1])))
    decreases |files|
  {
    if |files| > 0 && Succeeds(run, Call(toolPath, argsBase, files[0])) {
      SignFilesStopsAtFailure(toolPath, argsBase, files[1..], run);
      var o := SignFiles(toolPath, argsBase, files, run);
      var rest := SignFiles(toolPath, argsBase, files[1..], run);
      assert |o.invoked| == 1 + |rest.invoked| && o.exitCode == rest.exitCode;
      forall i | 1 <= i < |o.invoked| - 1
        ensures Succeeds(run, Call(toolPath, argsBase, files[i]))
      {
        assert files[i] == files[1..][i - 1];
      }
      if o.exitCode == -1 {
        assert files[|o.invoked| - 1] == files[1..][|rest.invoked| - 1];
      }
    }
  }

  /** On -1 the loop ran a prefix of the files with the given base line:
      every file but the last one started succeeded, and the last one failed. */
  lemma FailedRunIsFailingPrefix(toolPath: string, argsBase: string, files: seq<string>, run: ExitCodeOracle)
    ensures var o := SignFiles(toolPath, argsBase, files, run);
      o.exitCode == -1 ==>
        && |o.invoked| > 0
        && !Succeeds(run, o.invoked[|o.invoked| - 1])
        && (forall i :: 0 <= i < |o.invoked| - 1 ==> Succeeds(run, o.invoked[i]))
        && forall i :: 0 <= i < |o.invoked| ==> o.invoked[i].arguments == FileArgs(argsBase, files[i])
  {
    SignFilesInOrder(toolPath, argsBase, files, run);
    SignFilesStopsAtFailure(toolPath, argsBase, files, run);
  }

  /** All files succeed exactly when the first does and all the others do. */
  lemma AllSucceedCons(toolPath: string, argsBase: string, files: seq<string>, run: ExitCodeOracle)
    requires |files| > 0
    ensures AllSucceed(toolPath, argsBase, files, run) <==>
      Succeeds(run, Call(toolPath, argsBase, files[0])) && AllSucceed(toolPath, argsBase, files[1..], run)
  {
    if Succeeds(run, Call(toolPath, argsBase, files[0])) && AllSucceed(toolPath, argsBase, files[1..], run) {
      forall i | 1 <= i < |files|
        ensures Succeeds(run, Call(toolPath, argsBase, files[i]))
      {
        assert files[i] == files[1..][i - 1];
      }
    }
  }

  /** The result is 0 exactly when every file exits with 0. */
  lemma {:induction false} SignFilesSucceedsIff(toolPath: string, argsBase: string, files: seq<string>, run: ExitCodeOracle)
    ensures SignFiles(toolPath, argsBase, files, run).exitCode == 0 <==> AllSucceed(toolPath, argsBase, files, run)
    decreases |files|
  {
    if |files| > 0 {
      SignFilesSucceedsIff(toolPath, argsBase, files[1..], run);
      AllSucceedCons(toolPath, argsBase, files, run);
    }
  }

  /** When file `k` is the first to fail, the result is -1 and exactly the
      files up to and including `k` were started, in order. */
  lemma FirstFailureStops(toolPath: string, argsBase: string, files: seq<string>, run: ExitCodeOracle, k: nat)
    requires k < |files|
    requires forall i :: 0 <= i < k ==> Succeeds(run, Call(toolPath, argsBase, files[i]))
    requires !Succeeds(run, Call(toolPath, argsBase, files[k]))
    ensures var o := SignFiles(toolPath, argsBase, files, run);
      o.exitCode == -1 && |o.invoked| == k + 1
      && forall i :: 0 <= i <= k ==> o.invoked[i] == Call(toolPath, argsBase, files[i])
  {
    SignFilesInOrder(toolPath, argsBase, files, run);
    SignFilesStopsAtFailure(toolPath, argsBase, files, run);
    SignFilesSucceedsIff(toolPath, argsBase, files, run);
    assert !AllSucceed(toolPath, argsBase, files, run);
  }

  /** Three files where the second exits non-zero: the first and second are
      started, the third never is. */
  lemma SecondOfThreeFails(toolPath: string, argsBase: string, a: string, b: string, c: string, run: ExitCodeOracle)
    requires Succeeds(run, Call(toolPath, argsBase, a))
    requires !Succeeds(run, Call(toolPath, argsBase, b))
    ensures SignFiles(toolPath, argsBase, [a, b, c], run)
      == Returned(-1, [Call(toolPath, argsBase, a), Call(toolPath, argsBase, b)])
  {
    assert [a, b, c][1..] == [b, c];
  }
}
