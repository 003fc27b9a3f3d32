/** Argument strings handed to the two signing tools
    (Signing/Commands/SignCommand.cs:102-113, 126, 144-151), and the way a
    command line is split back into arguments, used to state what each tool
    receives. */
module Arguments {
  import opened Opt
  import opened Chars

  /** `"\"" + v + "\""`: a value wrapped in double quotes. */
  function Quote(v: string): string {
    "\"" + v + "\""
  }

  /** The base of a signtool.exe command line: `sign /sha1 "<thumbprint>"`,
      then ` /fd "<hash>"` unless the hash is null or blank, then
      ` /t "<url>"` unless the timestamp URL is null or blank. */
  function SignToolArgsBase(thumbprint: string, hash: Option<string>, timestampUrl: Option<string>): (r: string)
    ensures "sign /sha1 " + Quote(thumbprint) <= r
  {
    "sign" + " /sha1 " + Quote(thumbprint) + OptionalFlag("/fd", hash) + OptionalFlag("/t", timestampUrl)
  }

  /** ` <flag> "<value>"`, or nothing when the value is null or blank; the
      tool receives the flag and its value, or nothing. */
  function OptionalFlag(flag: string, v: Option<string>): (r: string)
    ensures IsBareWord(flag) && QuotableIfPresent(v) ==>
      SplitArgs(r) == if IsNullOrWhiteSpace(v) then [] else [flag, v.value]
  {
    if IsNullOrWhiteSpace(v) then ""
    else
      var r := " " + flag + " " + Quote(v.value);
      assert IsBareWord(flag) && IsQuotable(v.value) ==> SplitArgs(r) == [flag, v.value] by {
        if IsBareWord(flag) && IsQuotable(v.value) {
          SplitFlag(flag, v.value);
        }
      }
      r
  }

  /** The base of a codesign command line: the identity, the hardened runtime
      and forced replacement of any existing signature. */
  function CodeSignArgsBase(thumbprint: string): (r: string)
    ensures IsQuotable(thumbprint) ==>
      SplitArgs(r) == ["-s", thumbprint, "--options", "runtime", "--force"]
  {
    var r := "-s " + Quote(thumbprint) + " --options runtime" + " --force";
    assert IsQuotable(thumbprint) ==> SplitArgs(r) == ["-s", thumbprint, "--options", "runtime", "--force"] by {
      if IsQuotable(thumbprint) {
        CodeSignBaseSplits(thumbprint);
      }
    }
    r
  }

  /** `$"{argsBase} \"{file}\""`: the line for one file. */
  function FileArgs(argsBase: string, file: string): (r: string)
    ensures argsBase <= r
    ensures r[|argsBase|..] == " " + Quote(file)
  {
    argsBase + " " + Quote(file)
  }

  // ---------------------------------------------------------------------------
  // Splitting a command line into arguments

  /** Reads one argument: outside quotes a space ends it; a double quote
      toggles quoting and is not part of the argument. Returns the argument
      and the unread rest. */
  function ReadArg(s: string, inQuotes: bool): (r: (string, string))
    ensures |r.1| <= |s|
    ensures |s| > 0 && (inQuotes || s[0] != ' ') ==> |r.1| < |s|
    decreases |s|
  {
    if |s| == 0 then ("", "")
    else if s[0] == '"' then ReadArg(s[1..], !inQuotes)
    else if s[0] == ' ' && !inQuotes then ("", s)
    else
      var (a, rest) := ReadArg(s[1..], inQuotes);
      ([s[0]] + a, rest)
  }

  /** The arguments a command line stands for: spaces separate arguments,
      and double quotes group text, spaces included, into one argument. */
  function SplitArgs(s: string): seq<string>
    decreases |s|
  {
    if |s| == 0 then []
    else if s[0] == ' ' then SplitArgs(s[1..])
    else
      var (a, rest) := ReadArg(s, false);
      [a] + SplitArgs(rest)
  }

  /** A word that needs no quoting: non-empty, no space, no double quote. */
  predicate IsBareWord(w: string) {
    |w| > 0 && ' ' !in w && '"' !in w
  }

  /** A value that survives quoting: it holds no double quote, and it does
      not end in a backslash, which the receiving process would read as
      escaping the closing quote. */
  predicate IsQuotable(v: string) {
    '"' !in v && (|v| == 0 || v[|v| - 1] != '\\')
  }

  /** Text that ends an argument: nothing, or a space. */
  predicate StartsArgBoundary(s: string) {
    |s| == 0 || s[0] == ' '
  }

  lemma {:induction false} ReadBareWord(w: string, rest: string)
    requires ' ' !in w && '"' !in w
    requires StartsArgBoundary(rest)
    ensures ReadArg(w + rest, false) == (w, rest)
    decreases |w|
  {
    if |w| == 0 {
      assert w + rest == rest;
    } else {
      assert (w + rest)[1..] == w[1..] + rest;
      ReadBareWord(w[1..], rest);
      assert [w[0]] + w[1..] == w;
    }
  }

  lemma {:induction false} ReadQuotedTail(v: string, rest: string)
    requires IsQuotable(v)
    requires StartsArgBoundary(rest)
    ensures ReadArg(v + "\"" + rest, true) == (v, rest)
    decreases |v|
  {
    if |v| == 0 {
      assert v + "\"" + rest == "\"" + rest;
      assert ("\"" + rest)[1..] == rest;
    } else {
      assert (v + "\"" + rest)[1..] == v[1..] + "\"" + rest;
      ReadQuotedTail(v[1..], rest);
      assert [v[0]] + v[1..] == v;
    }
  }

  /** A quoted value reads back as the value, spaces included. */
  lemma ReadQuoted(v: string, rest: string)
    requires IsQuotable(v)
    requires StartsArgBoundary(rest)
    ensures ReadArg(Quote(v) + rest, false) == (v, rest)
  {
    assert (Quote(v) + rest)[1..] == v + "\"" + rest;
    ReadQuotedTail(v, rest);
  }

  lemma SplitBareWord(w: string, rest: string)
    requires IsBareWord(w) && StartsArgBoundary(rest)
    ensures SplitArgs(w + rest) == [w] + SplitArgs(rest)
  {
    ReadBareWord(w, rest);
  }

  lemma SplitQuoted(v: string, rest: string)
    requires IsQuotable(v) && StartsArgBoundary(rest)
    ensures SplitArgs(Quote(v) + rest) == [v] + SplitArgs(rest)
  {
    ReadQuoted(v, rest);
  }

  lemma SplitSpace(rest: string)
    ensures SplitArgs(" " + rest) == SplitArgs(rest)
  {
    assert (" " + rest)[1..] == rest;
  }

  /** `" " + w + rest` splits into `w` then the arguments of `rest`. */
  lemma SplitSpacedWord(w: string, rest: string)
    requires IsBareWord(w) && StartsArgBoundary(rest)
    ensures SplitArgs(" " + w + rest) == [w] + SplitArgs(rest)
  {
    assert " " + w + rest == " " + (w + rest);
    SplitSpace(w + rest);
    SplitBareWord(w, rest);
  }

  /** `" " + Quote(v) + rest` splits into `v` then the arguments of `rest`. */
  lemma SplitSpacedQuoted(v: string, rest: string)
    requires IsQuotable(v) && StartsArgBoundary(rest)
    ensures SplitArgs(" " + Quote(v) + rest) == [v] + SplitArgs(rest)
  {
    assert " " + Quote(v) + rest == " " + (Quote(v) + rest);
    SplitSpace(Quote(v) + rest);
    SplitQuoted(v, rest);
  }

  /** ` <flag> "<value>"` splits into the flag and the value. */
  lemma SplitFlag(flag: string, value: string)
    requires IsBareWord(flag) && IsQuotable(value)
    ensures SplitArgs(" " + flag + " " + Quote(value)) == [flag, value]
  {
    assert " " + flag + " " + Quote(value) == " " + flag + (" " + Quote(value));
    SplitSpacedWord(flag, " " + Quote(value));
    assert " " + Quote(value) + "" == " " + Quote(value);
    SplitSpacedQuoted(value, "");
  }

  /** A bare word, a quoted value and three bare words, spaced and
      right-nested, split into those five arguments. */
  lemma SplitWordQuotedThree(a: string, t: string, b: string, c: string, d: string)
    requires IsBareWord(a) && IsQuotable(t) && IsBareWord(b) && IsBareWord(c) && IsBareWord(d)
    ensures SplitArgs(a + (" " + Quote(t) + (" " + b + (" " + c + (" " + d))))) == [a, t, b, c, d]
  {
    var x4 := " " + d;
    var x3 := " " + c + x4;
    var x2 := " " + b + x3;
    var x1 := " " + Quote(t) + x2;
    assert " " + d + "" == x4;
    SplitSpacedWord(d, "");
    SplitSpacedWord(c, x4);
    SplitSpacedWord(b, x3);
    SplitSpacedQuoted(t, x2);
    SplitBareWord(a, x1);
  }

  /** The codesign base splits into its five words. */
  lemma CodeSignBaseSplits(thumbprint: string)
    requires IsQuotable(thumbprint)
    ensures SplitArgs("-s " + Quote(thumbprint) + " --options runtime" + " --force")
      == ["-s", thumbprint, "--options", "runtime", "--force"]
  {
    FixedWordsAreBare();
    var q := Quote(thumbprint);
    assert "-s " == "-s" + " ";
    assert " --options runtime" == " " + "--options" + " " + "runtime";
    assert " --force" == " " + "--force";
    var tail := " " + "--options" + (" " + "runtime" + (" " + "--force"));
    assert " --options runtime" + " --force" == tail;
    Assoc("-s", " ", q);
    Assoc("-s" + " " + q, " --options runtime", " --force");
    Assoc("-s", " " + q, tail);
    Assoc(" ", q, tail);
    SplitWordQuotedThree("-s", thumbprint, "--options", "runtime", "--force");
  }

  // ---------------------------------------------------------------------------
  // Command lines as a sequence of pieces

  /** One argument as it is written on a command line: a bare word, or a
      value in double quotes. */
  datatype Piece = Bare(word: string) | Quoted(value: string) {
    function Text(): string {
      match this
      case Bare(w) => w
      case Quoted(v) => Quote(v)
    }
    function Arg(): string {
      match this
      case Bare(w) => w
      case Quoted(v) => v
    }
    predicate Valid() {
      match this
      case Bare(w) => IsBareWord(w)
      case Quoted(v) => IsQuotable(v)
    }
  }

  /** Every piece can be written as it stands. */
  predicate AllValid(pieces: seq<Piece>) {
    forall i :: 0 <= i < |pieces| ==> pieces[i].Valid()
  }

  lemma AllValidAppend(x: seq<Piece>, y: seq<Piece>)
    ensures AllValid(x + y) <==> AllValid(x) && AllValid(y)
  {
    assert forall i :: 0 <= i < |x| ==> (x + y)[i] == x[i];
    assert forall i :: 0 <= i < |y| ==> (x + y)[|x| + i] == y[i];
    if AllValid(x) && AllValid(y) {
      forall i | 0 <= i < |x + y| ensures (x + y)[i].Valid() {
        if i >= |x| {
          assert (x + y)[i] == y[i - |x|];
        }
      }
    }
  }

  /** Each piece preceded by one space. */
  function Render(pieces: seq<Piece>): (r: string)
    ensures StartsArgBoundary(r)
  {
    if |pieces| == 0 then "" else " " + pieces[0].Text() + Render(pieces[1..])
  }

  function ArgsOf(pieces: seq<Piece>): (r: seq<string>)
    ensures |r| == |pieces|
    ensures forall i :: 0 <= i < |pieces| ==> r[i] == pieces[i].Arg()
  {
    seq(|pieces|, i requires 0 <= i < |pieces| => pieces[i].Arg())
  }

  lemma ArgsOfCons(x: Piece, rest: seq<Piece>)
    ensures ArgsOf([x] + rest) == [x.Arg()] + ArgsOf(rest)
  {
    assert ([x] + rest)[0] == x;
    assert forall i :: 1 <= i < |rest| + 1 ==> ([x] + rest)[i] == rest[i - 1];
  }

  lemma ArgsOfAppend(a: seq<Piece>, b: seq<Piece>)
    ensures ArgsOf(a + b) == ArgsOf(a) + ArgsOf(b)
  {
  }

  lemma {:induction false} RenderAppend(a: seq<Piece>, b: seq<Piece>)
    ensures Render(a + b) == Render(a) + Render(b)
    decreases |a|
  {
    if |a| > 0 {
      assert (a + b)[0] == a[0] && (a + b)[1..] == a[1..] + b;
      RenderAppend(a[1..], b);
      Assoc(" " + a[0].Text(), Render(a[1..]), Render(b));
    } else {
      assert a + b == b;
    }
  }

  /** A rendered command line splits back into the pieces' arguments. */
  lemma {:induction false} SplitRender(pieces: seq<Piece>)
    requires AllValid(pieces)
    ensures SplitArgs(Render(pieces)) == ArgsOf(pieces)
    decreases |pieces|
  {
    if |pieces| > 0 {
      var rest := Render(pieces[1..]);
      assert pieces == [pieces[0]] + pieces[1..];
      AllValidAppend([pieces[0]], pieces[1..]);
      ArgsOfCons(pieces[0], pieces[1..]);
      SplitRender(pieces[1..]);
      match pieces[0]
      case Bare(w) => SplitSpacedWord(w, rest);
      case Quoted(v) => SplitSpacedQuoted(v, rest);
    }
  }

  /** The first argument, bare, followed by the rendered rest. */
  lemma SplitLine(first: string, pieces: seq<Piece>)
    requires IsBareWord(first)
    requires AllValid(pieces)
    ensures SplitArgs(first + Render(pieces)) == [first] + ArgsOf(pieces)
  {
    SplitBareWord(first, Render(pieces));
    SplitRender(pieces);
  }

  // ---------------------------------------------------------------------------
  // Regrouping concatenations

  lemma Assoc(a: string, b: string, c: string)
    ensures a + b + c == a + (b + c)
  {
  }

  lemma RenderCons(x: Piece, rest: seq<Piece>)
    ensures Render([x] + rest) == " " + x.Text() + Render(rest)
  {
    assert ([x] + rest)[0] == x && ([x] + rest)[1..] == rest;
  }

  lemma RenderOne(x: Piece)
    ensures Render([x]) == " " + x.Text()
  {
    RenderCons(x, []);
    assert " " + x.Text() + "" == " " + x.Text();
  }

  // ---------------------------------------------------------------------------
  // What signtool.exe receives

  /** The optional `/fd <hash>` pair signtool receives. */
  function HashArgs(hash: Option<string>): seq<string> {
    if IsNullOrWhiteSpace(hash) then [] else ["/fd", hash.value]
  }

  /** The optional `/t <url>` pair signtool receives. */
  function TimestampArgs(timestampUrl: Option<string>): seq<string> {
    if IsNullOrWhiteSpace(timestampUrl) then [] else ["/t", timestampUrl.value]
  }

  predicate QuotableIfPresent(v: Option<string>) {
    v.Some? ==> IsQuotable(v.value)
  }

  /** The fixed words of both command lines need no quoting. */
  lemma FixedWordsAreBare()
    ensures IsBareWord("sign") && IsBareWord("/sha1") && IsBareWord("/fd") && IsBareWord("/t")
    ensures IsBareWord("-s") && IsBareWord("--options") && IsBareWord("runtime") && IsBareWord("--force")
  {
  }

  function FlagPieces(flag: string, v: Option<string>): seq<Piece> {
    if IsNullOrWhiteSpace(v) then [] else [Bare(flag), Quoted(v.value)]
  }

  /** An optional flag as pieces: what it renders to, what it stands for,
      and valid when the flag is a bare word and the value quotable. */
  lemma FlagPiecesFacts(flag: string, v: Option<string>)
    ensures Render(FlagPieces(flag, v)) == OptionalFlag(flag, v)
    ensures ArgsOf(FlagPieces(flag, v)) == if IsNullOrWhiteSpace(v) then [] else [flag, v.value]
    ensures IsBareWord(flag) && QuotableIfPresent(v) ==> AllValid(FlagPieces(flag, v))
  {
    if !IsNullOrWhiteSpace(v) {
      var ps := FlagPieces(flag, v);
      assert ps == [Bare(flag)] + [Quoted(v.value)];
      RenderOne(Quoted(v.value));
      RenderCons(Bare(flag), [Quoted(v.value)]);
      Assoc(" " + flag, " ", Quote(v.value));
    }
  }

  /** The pieces after `sign` on a signtool.exe command line. */
  function SignToolPieces(thumbprint: string, hash: Option<string>, timestampUrl: Option<string>, file: string): seq<Piece> {
    [Bare("/sha1")] + ([Quoted(thumbprint)] + (FlagPieces("/fd", hash) + (FlagPieces("/t", timestampUrl) + [Quoted(file)])))
  }

  /** Two pieces, two runs of pieces and a last piece, right-nested, as text. */
  lemma RenderSignToolShape(a: Piece, b: Piece, fd: seq<Piece>, ts: seq<Piece>, e: Piece)
    ensures Render([a] + ([b] + (fd + (ts + [e]))))
      == " " + a.Text() + (" " + b.Text() + (Render(fd) + (Render(ts) + (" " + e.Text()))))
  {
    RenderOne(e);
    RenderAppend(ts, [e]);
    RenderAppend(fd, ts + [e]);
    RenderCons(b, fd + (ts + [e]));
    RenderCons(a, [b] + (fd + (ts + [e])));
  }

  /** The same shape as arguments. */
  lemma ArgsSignToolShape(a: Piece, b: Piece, fd: seq<Piece>, ts: seq<Piece>, e: Piece)
    ensures ArgsOf([a] + ([b] + (fd + (ts + [e]))))
      == [a.Arg()] + ([b.Arg()] + (ArgsOf(fd) + (ArgsOf(ts) + [e.Arg()])))
  {
    assert ArgsOf([e]) == [e.Arg()];
    ArgsOfAppend(ts, [e]);
    ArgsOfAppend(fd, ts + [e]);
    ArgsOfCons(b, fd + (ts + [e]));
    ArgsOfCons(a, [b] + (fd + (ts + [e])));
  }

  /** The same shape is valid when every piece is. */
  lemma ValidSignToolShape(a: Piece, b: Piece, fd: seq<Piece>, ts: seq<Piece>, e: Piece)
    requires a.Valid() && b.Valid() && e.Valid() && AllValid(fd) && AllValid(ts)
    ensures AllValid([a] + ([b] + (fd + (ts + [e]))))
  {
    AllValidAppend(ts, [e]);
    AllValidAppend(fd, ts + [e]);
    AllValidAppend([b], fd + (ts + [e]));
    AllValidAppend([a], [b] + (fd + (ts + [e])));
  }

  /** The signtool base and file as one right-nested concatenation. */
  lemma SignToolRegroup(sign: string, w: string, q: string, fd: string, t: string, f: string)
    ensures sign + (" " + w + " ") + q + fd + t + " " + f
      == sign + (" " + w + (" " + q + (fd + (t + (" " + f)))))
  {
    var x := " " + w;
    Assoc(sign + (x + " ") + q + fd + t, " ", f);
    Assoc(sign + (x + " ") + q + fd, t, " " + f);
    Assoc(sign + (x + " ") + q, fd, t + (" " + f));
    Assoc(sign + (x + " "), q, fd + (t + (" " + f)));
    Assoc(sign, x + " ", q + (fd + (t + (" " + f))));
    Assoc(x, " ", q + (fd + (t + (" " + f))));
    Assoc(" ", q, fd + (t + (" " + f)));
  }

  lemma SignToolLineRendered(thumbprint: string, hash: Option<string>, timestampUrl: Option<string>, file: string)
    ensures FileArgs(SignToolArgsBase(thumbprint, hash, timestampUrl), file)
      == "sign" + Render(SignToolPieces(thumbprint, hash, timestampUrl, file))
  {
    assert " /sha1 " == " " + "/sha1" + " ";
    FlagPiecesFacts("/fd", hash);
    FlagPiecesFacts("/t", timestampUrl);
    RenderSignToolShape(Bare("/sha1"), Quoted(thumbprint), FlagPieces("/fd", hash),
                        FlagPieces("/t", timestampUrl), Quoted(file));
    SignToolRegroup("sign", "/sha1", Quote(thumbprint), OptionalFlag("/fd", hash),
                    OptionalFlag("/t", timestampUrl), Quote(file));
  }

  lemma SignToolPiecesArgs(thumbprint: string, hash: Option<string>, timestampUrl: Option<string>, file: string)
    requires IsQuotable(thumbprint) && IsQuotable(file)
    requires QuotableIfPresent(hash) && QuotableIfPresent(timestampUrl)
    ensures var pieces := SignToolPieces(thumbprint, hash, timestampUrl, file);
      && AllValid(pieces)
      && ArgsOf(pieces) == ["/sha1"] + ([thumbprint] + (HashArgs(hash) + (TimestampArgs(timestampUrl) + [file])))
  {
    FixedWordsAreBare();
    FlagPiecesFacts("/fd", hash);
    FlagPiecesFacts("/t", timestampUrl);
    ArgsSignToolShape(Bare("/sha1"), Quoted(thumbprint), FlagPieces("/fd", hash),
                      FlagPieces("/t", timestampUrl), Quoted(file));
    ValidSignToolShape(Bare("/sha1"), Quoted(thumbprint), FlagPieces("/fd", hash),
                       FlagPieces("/t", timestampUrl), Quoted(file));
  }

  lemma ConsThree(x: string, y: string, z: string, rest: seq<string>)
    ensures [x] + ([y] + ([z] + rest)) == [x, y, z] + rest
  {
  }

  /** signtool.exe receives `sign /sha1 <thumbprint>`, then `/fd <hash>` exactly
      when a non-blank hash is given, then `/t <url>` exactly when a non-blank
      timestamp URL is given, then the file, and nothing else, provided every
      value is quotable. */
  lemma SignToolReceives(thumbprint: string, hash: Option<string>, timestampUrl: Option<string>, file: string)
    requires IsQuotable(thumbprint) && IsQuotable(file)
    requires QuotableIfPresent(hash) && QuotableIfPresent(timestampUrl)
    ensures SplitArgs(FileArgs(SignToolArgsBase(thumbprint, hash, timestampUrl), file))
      == ["sign", "/sha1", thumbprint] + (HashArgs(hash) + (TimestampArgs(timestampUrl) + [file]))
  {
    FixedWordsAreBare();
    SignToolLineRendered(thumbprint, hash, timestampUrl, file);
    SignToolPiecesArgs(thumbprint, hash, timestampUrl, file);
    SplitLine("sign", SignToolPieces(thumbprint, hash, timestampUrl, file));
    ConsThree("sign", "/sha1", thumbprint, HashArgs(hash) + (TimestampArgs(timestampUrl) + [file]));
  }

  // ---------------------------------------------------------------------------
  // What codesign receives

  /** The pieces after `-s` on a codesign command line. */
  function CodeSignPieces(thumbprint: string, file: string): seq<Piece> {
    [Quoted(thumbprint)] + ([Bare("--options")] + ([Bare("runtime")] + ([Bare("--force")] + [Quoted(file)])))
  }

  /** Five pieces, right-nested, as text. */
  lemma RenderFive(a: Piece, b: Piece, c: Piece, d: Piece, e: Piece)
    ensures Render([a] + ([b] + ([c] + ([d] + [e]))))
      == " " + a.Text() + (" " + b.Text() + (" " + c.Text() + (" " + d.Text() + (" " + e.Text()))))
  {
    RenderOne(e);
    RenderCons(d, [e]);
    RenderCons(c, [d] + [e]);
    RenderCons(b, [c] + ([d] + [e]));
    RenderCons(a, [b] + ([c] + ([d] + [e])));
  }

  /** Five pieces, right-nested: their arguments in order, and valid when
      each one is. */
  lemma FivePieces(a: Piece, b: Piece, c: Piece, d: Piece, e: Piece)
    ensures var ps := [a] + ([b] + ([c] + ([d] + [e])));
      && ArgsOf(ps) == [a.Arg(), b.Arg(), c.Arg(), d.Arg(), e.Arg()]
      && (a.Valid() && b.Valid() && c.Valid() && d.Valid() && e.Valid() ==> AllValid(ps))
  {
    var ps := [a] + ([b] + ([c] + ([d] + [e])));
    assert ps == [a, b, c, d, e];
  }

  /** The codesign base and file as one right-nested concatenation. */
  lemma CodeSignRegroup(s: string, q: string, o: string, r: string, fo: string, f: string)
    ensures s + " " + q + (" " + o + (" " + r)) + (" " + fo) + " " + f
      == s + (" " + q + (" " + o + (" " + r + (" " + fo + (" " + f)))))
  {
    var tail := " " + fo + (" " + f);
    Assoc(s + " " + q + (" " + o + (" " + r)) + (" " + fo), " ", f);
    Assoc(s + " " + q + (" " + o + (" " + r)), " " + fo, " " + f);
    Assoc(s + " " + q, " " + o + (" " + r), tail);
    Assoc(" " + o, " " + r, tail);
    Assoc(s + " ", q, " " + o + (" " + r + tail));
    Assoc(s, " ", q + (" " + o + (" " + r + tail)));
    Assoc(" ", q, " " + o + (" " + r + tail));
  }

  lemma CodeSignLineRendered(thumbprint: string, file: string)
    ensures FileArgs(CodeSignArgsBase(thumbprint), file) == "-s" + Render(CodeSignPieces(thumbprint, file))
  {
    assert "-s " == "-s" + " ";
    assert " --options runtime" == " " + "--options" + (" " + "runtime");
    assert " --force" == " " + "--force";
    RenderFive(Quoted(thumbprint), Bare("--options"), Bare("runtime"), Bare("--force"), Quoted(file));
    CodeSignRegroup("-s", Quote(thumbprint), "--options", "runtime", "--force", Quote(file));
  }

  lemma CodeSignPiecesArgs(thumbprint: string, file: string)
    requires IsQuotable(thumbprint) && IsQuotable(file)
    ensures var pieces := CodeSignPieces(thumbprint, file);
      && AllValid(pieces)
      && ArgsOf(pieces) == [thumbprint, "--options", "runtime", "--force", file]
  {
    FixedWordsAreBare();
    FivePieces(Quoted(thumbprint), Bare("--options"), Bare("runtime"), Bare("--force"), Quoted(file));
  }

  /** codesign receives `-s <thumbprint> --options runtime --force <file>`,
      provided both values are quotable. */
  lemma CodeSignReceives(thumbprint: string, file: string)
    requires IsQuotable(thumbprint) && IsQuotable(file)
    ensures SplitArgs(FileArgs(CodeSignArgsBase(thumbprint), file))
      == ["-s", thumbprint, "--options", "runtime", "--force", file]
  {
    FixedWordsAreBare();
    CodeSignLineRendered(thumbprint, file);
    CodeSignPiecesArgs(thumbprint, file);
    SplitLine("-s", CodeSignPieces(thumbprint, file));
    PrependFive("-s", thumbprint, "--options", "runtime", "--force", file);
  }

  lemma PrependFive(x: string, a: string, b: string, c: string, d: string, e: string)
    ensures [x] + [a, b, c, d, e] == [x, a, b, c, d, e]
  {
  }
}
