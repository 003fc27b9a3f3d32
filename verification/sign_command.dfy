/** The `sign` command's handler (Signing/Commands/SignCommand.cs:68-162): resolve
    the certificate, pick the platform's signing tool and sign every file with it,
    stopping at the first failure. The process runner, the certificate stores,
    the registry and the file system are parts of the `Machine` it runs on. */
module SignCommand {
  import opened Opt
  import opened Arguments
  import opened Batch
  import opened CertificateStores
  import opened SignToolLocator

  /** The outcome of `OperatingSystem.IsWindows()` / `IsMacOS()`. */
  datatype Platform = Windows | MacOS | OtherPlatform

  /** What the command consults besides its own arguments. */
  datatype Machine = Machine(
    platform: Platform,
    stores: Stores,
    matches: Matcher,
    host: Host,
    run: ExitCodeOracle)

  /** The values the command line binds to `ExecuteAsync`; the optional
      `--timestamp-url` and `--hash` are `None` when not given. */
  datatype Request = Request(
    certificate: string,
    timestampUrl: Option<string>,
    architecture: string,
    hash: Option<string>,
    files: seq<string>)

  const CodeSignPath: string := "/usr/bin/codesign"

  /** The part of `ExecuteSignToolAsync` after the signtool lookup: -1 without
      running anything when signtool is not found, the exception when the SDK
      listing threw, otherwise every file signed with the located tool. */
  function RunSignTool(lookup: Lookup, argsBase: string, files: seq<string>, run: ExitCodeOracle): (o: Outcome)
    ensures o.Threw? <==> lookup.ListingThrew?
    ensures lookup.NotLocated? ==> o == Returned(-1, [])
    ensures o.Returned? ==> o.exitCode == 0 || o.exitCode == -1
    ensures o.Returned? && |o.invoked| > 0 ==> lookup.Located?
    ensures o.Returned? ==> |o.invoked| <= |files|
    ensures o.Returned? ==> forall i :: 0 <= i < |o.invoked| ==> o.invoked[i] == Call(lookup.path, argsBase, files[i])
  {
    match lookup
    case NotLocated => Returned(-1, [])
    case ListingThrew(dir) => Threw(dir)
    case Located(signToolPath) =>
      SignFilesInOrder(signToolPath, argsBase, files, run);
      SignFiles(signToolPath, argsBase, files, run)
  }

  /** `ExecuteCodeSignAsync`: sign every file with /usr/bin/codesign, hardened
      runtime on and existing signatures replaced. */
  function ExecuteCodeSign(cert: Certificate, files: seq<string>, run: ExitCodeOracle): (o: Outcome)
    ensures o.Returned?
    ensures o.exitCode == 0 || o.exitCode == -1
    ensures forall i :: 0 <= i < |o.invoked| ==>
      o.invoked[i].toolPath == CodeSignPath && CodeSignArgsBase(cert.thumbprint) <= o.invoked[i].arguments
  {
    SignFilesInOrder(CodeSignPath, CodeSignArgsBase(cert.thumbprint), files, run);
    SignFiles(CodeSignPath, CodeSignArgsBase(cert.thumbprint), files, run)
  }

  /** `ExecuteAsync`. */
  function Execute(req: Request, m: Machine): (o: Outcome)
    ensures CreateFromThumbprint(req.certificate, m.stores, m.matches).None? ==> o == Returned(-1, [])
    ensures o.Threw? ==> m.platform == Windows
    ensures o.Returned? ==> o.exitCode == 0 || o.exitCode == -1
  {
    Dispatch(req, m, FindSignTool(m.host, req.architecture))
  }

  /** `ExecuteAsync` with the answer of `FindSignTool(architecture)` given.
      Only the Windows branch consults it, and the lookup has no effects, so
      supplying it up front does not change what the command does. Nothing
      is run unless the certificate resolves, the platform is Windows or
      macOS and, on Windows, signtool.exe is found; an exception can only come
      from the Windows SDK listing. */
  function Dispatch(req: Request, m: Machine, lookup: Lookup): (o: Outcome)
    ensures CreateFromThumbprint(req.certificate, m.stores, m.matches).None? ==> o == Returned(-1, [])
    ensures o.Threw? ==> m.platform == Windows && lookup.ListingThrew?
    ensures o.Returned? ==> o.exitCode == 0 || o.exitCode == -1
    ensures o.Returned? && (|o.invoked| > 0 || o.exitCode == 0) ==>
      && CreateFromThumbprint(req.certificate, m.stores, m.matches).Some?
      && m.platform != OtherPlatform
      && (m.platform == Windows ==> lookup.Located?)
  {
    match CreateFromThumbprint(req.certificate, m.stores, m.matches)
    case None => Returned(-1, [])
    case Some(cert) =>
      if m.platform == Windows then
        RunSignTool(lookup, SignToolArgsBase(cert.thumbprint, req.hash, req.timestampUrl), req.files, m.run)
      else if m.platform == MacOS then
        ExecuteCodeSign(cert, req.files, m.run)
      else
        Returned(-1, [])
  }

  /** The tool the command runs on this machine, when it runs one. */
  function ToolPath(m: Machine, lookup: Lookup): Option<string> {
    match m.platform
    case Windows => if lookup.Located? then Some(lookup.path) else None
    case MacOS => Some(CodeSignPath)
    case OtherPlatform => None
  }

  /** The argument line base the resolved request uses on this machine. */
  function ArgsBase(req: Request, m: Machine): string {
    match CreateFromThumbprint(req.certificate, m.stores, m.matches)
    case None => ""
    case Some(cert) =>
      if m.platform == Windows then SignToolArgsBase(cert.thumbprint, req.hash, req.timestampUrl)
      else CodeSignArgsBase(cert.thumbprint)
  }

  /** Once the certificate resolves and the platform has a tool, the command
      is the fail-fast loop with that tool and the platform's base line. */
  lemma DispatchRuns(req: Request, m: Machine, lookup: Lookup)
    requires CreateFromThumbprint(req.certificate, m.stores, m.matches).Some?
    requires ToolPath(m, lookup).Some?
    ensures Dispatch(req, m, lookup) == SignFiles(ToolPath(m, lookup).value, ArgsBase(req, m), req.files, m.run)
  {
    var cert := CreateFromThumbprint(req.certificate, m.stores, m.matches).value;
    if m.platform == Windows {
      assert ArgsBase(req, m) == SignToolArgsBase(cert.thumbprint, req.hash, req.timestampUrl);
    } else {
      assert ArgsBase(req, m) == CodeSignArgsBase(cert.thumbprint);
    }
  }

  /** When the command runs its tool at all, it signs the files in order with
      the base line for this platform. */
  lemma RunsSignFiles(req: Request, m: Machine, lookup: Lookup)
    ensures var o := Dispatch(req, m, lookup);
      o.Returned? && |o.invoked| > 0 ==>
        && ToolPath(m, lookup).Some?
        && o == SignFiles(ToolPath(m, lookup).value, ArgsBase(req, m), req.files, m.run)
  {
    if CreateFromThumbprint(req.certificate, m.stores, m.matches).Some? && ToolPath(m, lookup).Some? {
      DispatchRuns(req, m, lookup);
    }
  }

  /** The argument vector the tool receives for `file`, as a command-line
      splitter sees it. */
  function ExpectedArgs(platform: Platform, thumbprint: string, req: Request, file: string): seq<string> {
    if platform == Windows then
      ["sign", "/sha1", thumbprint] + (HashArgs(req.hash) + (TimestampArgs(req.timestampUrl) + [file]))
    else
      ["-s", thumbprint, "--options", "runtime", "--force", file]
  }

  /** The strings the command wraps in quotes are quotable: no quote
      character, and no backslash just before the closing quote. */
  predicate QuotableRequest(req: Request, thumbprint: string) {
    && IsQuotable(thumbprint)
    && QuotableIfPresent(req.hash)
    && QuotableIfPresent(req.timestampUrl)
    && forall i :: 0 <= i < |req.files| ==> IsQuotable(req.files[i])
  }

  /** Every invocation runs the platform's tool on the next file in order,
      carrying the thumbprint of the certificate that was resolved; with
      quotable inputs the tool receives exactly `ExpectedArgs` for the file. */
  lemma {:induction false} InvocationsCarryResolvedCertificate(req: Request, m: Machine, lookup: Lookup)
    ensures var o := Dispatch(req, m, lookup);
      o.Returned? && |o.invoked| > 0 ==>
        && CreateFromThumbprint(req.certificate, m.stores, m.matches).Some?
        && ToolPath(m, lookup).Some?
        && |o.invoked| <= |req.files|
        && forall i :: 0 <= i < |o.invoked| ==>
          && o.invoked[i].toolPath == ToolPath(m, lookup).value
          && (QuotableRequest(req, CreateFromThumbprint(req.certificate, m.stores, m.matches).value.thumbprint) ==>
                SplitArgs(o.invoked[i].arguments)
                  == ExpectedArgs(m.platform, CreateFromThumbprint(req.certificate, m.stores, m.matches).value.thumbprint,
                                  req, req.files[i]))
  {
    var o := Dispatch(req, m, lookup);
    if o.Returned? && |o.invoked| > 0 {
      RunsSignFiles(req, m, lookup);
      SignFilesInOrder(ToolPath(m, lookup).value, ArgsBase(req, m), req.files, m.run);
      var cert := CreateFromThumbprint(req.certificate, m.stores, m.matches).value;
      var path := ToolPath(m, lookup).value;
      var base := ArgsBase(req, m);
      forall i | 0 <= i < |o.invoked|
        ensures o.invoked[i].toolPath == path
        ensures QuotableRequest(req, cert.thumbprint) ==>
          SplitArgs(o.invoked[i].arguments) == ExpectedArgs(m.platform, cert.thumbprint, req, req.files[i])
      {
        assert o.invoked[i] == Call(path, base, req.files[i]);
        if QuotableRequest(req, cert.thumbprint) {
          if m.platform == Windows {
            SignToolReceives(cert.thumbprint, req.hash, req.timestampUrl, req.files[i]);
          } else {
            CodeSignReceives(cert.thumbprint, req.files[i]);
          }
        }
      }
    }
  }

  /** The command returns 0 exactly when the certificate is in one of the
      stores, the platform has a signing tool, and that tool exits with 0 for
      every file. */
  lemma SucceedsIffEveryFileSigned(req: Request, m: Machine, lookup: Lookup)
    ensures var o := Dispatch(req, m, lookup);
      (o.Returned? && o.exitCode == 0)
      <==>
      (&& (|| HasMatch(m.stores, CurrentUser, req.certificate, m.matches)
           || HasMatch(m.stores, LocalMachine, req.certificate, m.matches))
       && ToolPath(m, lookup).Some?
       && AllSucceed(ToolPath(m, lookup).value, ArgsBase(req, m), req.files, m.run))
  {
    NotFoundIffNoStoreMatches(req.certificate, m.stores, m.matches);
    if CreateFromThumbprint(req.certificate, m.stores, m.matches).Some? && ToolPath(m, lookup).Some? {
      var path := ToolPath(m, lookup).value;
      DispatchRuns(req, m, lookup);
      SignFilesSucceedsIff(path, ArgsBase(req, m), req.files, m.run);
    }
  }

  /** On success every file was signed once, in input order. */
  lemma SuccessSignsEveryFileInOrder(req: Request, m: Machine, lookup: Lookup)
    requires Dispatch(req, m, lookup).Returned? && Dispatch(req, m, lookup).exitCode == 0
    ensures var o := Dispatch(req, m, lookup);
      && |o.invoked| == |req.files|
      && forall i :: 0 <= i < |req.files| ==> o.invoked[i].arguments == FileArgs(ArgsBase(req, m), req.files[i])
  {
    var path := ToolPath(m, lookup).value;
    DispatchRuns(req, m, lookup);
    SignFilesInOrder(path, ArgsBase(req, m), req.files, m.run);
  }

  /** On -1 after running something, the last file run is the one that failed
      and every earlier one succeeded; later files were never started. */
  lemma {:induction false} FailureIsFirstFailingFile(req: Request, m: Machine, lookup: Lookup)
    ensures var o := Dispatch(req, m, lookup);
      o.Returned? && o.exitCode == -1 && |o.invoked| > 0 ==>
        (&& !Succeeds(m.run, o.invoked[|o.invoked| - 1])
         && (forall i :: 0 <= i < |o.invoked| - 1 ==> Succeeds(m.run, o.invoked[i]))
         && forall i :: 0 <= i < |o.invoked| ==> o.invoked[i].arguments == FileArgs(ArgsBase(req, m), req.files[i]))
  {
    RunsSignFiles(req, m, lookup);
    if ToolPath(m, lookup).Some? {
      FailedRunIsFailingPrefix(ToolPath(m, lookup).value, ArgsBase(req, m), req.files, m.run);
    }
  }

  /** The gates of `ExecuteAsync` on the real lookup: with no certificate, an
      unsupported platform, or no signtool.exe on Windows, the command returns
      -1 without starting any process. */
  lemma NothingRunsWhenGated(req: Request, m: Machine)
    requires || CreateFromThumbprint(req.certificate, m.stores, m.matches).None?
             || m.platform == OtherPlatform
             || (m.platform == Windows && FindSignTool(m.host, req.architecture).NotLocated?)
    ensures Execute(req, m) == Returned(-1, [])
  {
    var o := Dispatch(req, m, FindSignTool(m.host, req.architecture));
    if o.Returned? && |o.invoked| > 0 {
      assert false;
    }
  }
}
