/** `FindSignTool` (Signing/Commands/SignCommand.cs:177-224): locates signtool.exe
    in the newest Windows 10 SDK that ships it for the requested architecture.
    The registry, the directory listing and `File.Exists` are fields of a
    `Host` value. */
module SignToolLocator {
  import opened Opt
  import opened Versions
  import opened Paths
  import opened SdkTable

  /** Registry key of the Windows 10 SDK on a 64-bit operating system. */
  const RootKey64: string := "SOFTWARE\\WOW6432Node\\Microsoft\\Microsoft SDKs\\Windows\\v10.0"
  /** Registry key of the Windows 10 SDK on a 32-bit operating system. */
  const RootKey32: string := "SOFTWARE\\Microsoft\\Microsoft SDKs\\Windows\\v10.0"
  const SignToolExe: string := "signtool.exe"

  /** A registry value: a string (REG_SZ, REG_EXPAND_SZ) or any other kind. */
  datatype RegistryValue = RegString(text: string) | RegOther

  /** What the locator reads from the machine.
      - `installationFolders`: for each key under HKLM, its `InstallationFolder`
        value; a key or value that is absent is missing from the map.
      - `listDirectory`: the names of the subdirectories of a directory in
        enumeration order, `None` when the directory cannot be listed.
      - `fileExists`: `File.Exists`. */
  datatype Host = Host(
    is64BitOperatingSystem: bool,
    installationFolders: map<string, RegistryValue>,
    listDirectory: string -> Option<seq<string>>,
    fileExists: string -> bool)

  /** The locator's outcome: the tool's path, null, or the exception
      `Directory.GetDirectories` throws for a `bin` directory it cannot list. */
  datatype Lookup = Located(path: string) | NotLocated | ListingThrew(dir: string)

  /** The key is chosen by host bitness alone. */
  function RootKey(is64Bit: bool): (k: string)
    ensures k == RootKey64 <==> is64Bit
    ensures k == RootKey32 <==> !is64Bit
  {
    if is64Bit then RootKey64 else RootKey32
  }

  /** `key?.GetValue("InstallationFolder") is string`. */
  function InstallationFolder(host: Host): (r: Option<string>)
  {
    var key := RootKey(host.is64BitOperatingSystem);
    if key in host.installationFolders && host.installationFolders[key].RegString? then
      Some(host.installationFolders[key].text)
    else
      None
  }

  /** The folder is read from a single registry key, the WOW6432Node one on
      a 64-bit system and the plain one otherwise: every other key may hold
      anything without changing the folder. */
  lemma InstallationFolderReadsOneKey(host: Host, other: map<string, RegistryValue>)
    requires var key := if host.is64BitOperatingSystem then RootKey64 else RootKey32;
      (key in other <==> key in host.installationFolders)
      && (key in other ==> other[key] == host.installationFolders[key])
    ensures InstallationFolder(host.(installationFolders := other)) == InstallationFolder(host)
  {
  }

  /** The search pattern "10.*" under Windows wildcard rules: a trailing ".*"
      also matches a name with no dot at all, so "10" matches too. */
  predicate MatchesSdkPattern(name: string) {
    name == "10" || "10." <= name
  }

  /** The indices from `from` on whose names match "10.*", ascending. */
  function MatchIndices(names: seq<string>, from: nat): (idx: seq<nat>)
    requires from <= |names|
    ensures |idx| <= |names| - from
    ensures forall k :: 0 <= k < |idx| ==> from <= idx[k] < |names| && MatchesSdkPattern(names[idx[k]])
    ensures forall k, l :: 0 <= k < l < |idx| ==> idx[k] < idx[l]
    ensures forall j :: from <= j < |names| && MatchesSdkPattern(names[j]) ==> j in idx
    decreases |names| - from
  {
    if from == |names| then []
    else
      var rest := MatchIndices(names, from + 1);
      if MatchesSdkPattern(names[from]) then
        assert forall k :: 0 < k < |rest| + 1 ==> ([from] + rest)[k] == rest[k - 1];
        [from] + rest
      else rest
  }

  /** `r` lists the names at the strictly increasing indices `idx`, and
      `idx` holds every index whose name matches: `r` is the subsequence of
      matching names, in listing order, repetitions kept. */
  predicate IsMatchingSubsequence(names: seq<string>, r: seq<string>, idx: seq<nat>) {
    && |idx| == |r|
    && (forall k :: 0 <= k < |idx| ==> idx[k] < |names| && r[k] == names[idx[k]] && MatchesSdkPattern(r[k]))
    && (forall k, l :: 0 <= k < l < |idx| ==> idx[k] < idx[l])
    && (forall j :: 0 <= j < |names| && MatchesSdkPattern(names[j]) ==> j in idx)
  }

  /** The matching subsequence holds exactly the matching names. */
  lemma MatchingSubsequenceMembers(names: seq<string>, r: seq<string>, idx: seq<nat>)
    requires IsMatchingSubsequence(names, r, idx)
    ensures forall n :: n in r <==> n in names && MatchesSdkPattern(n)
  {
    forall n | n in names && MatchesSdkPattern(n) ensures n in r {
      var j :| 0 <= j < |names| && names[j] == n;
      var k :| 0 <= k < |idx| && idx[k] == j;
      assert r[k] == n;
    }
  }

  /** The entry names the pattern "10.*" admits, in listing order. */
  function SdkNames(names: seq<string>): (r: seq<string>)
    ensures |r| <= |names|
    ensures exists idx :: IsMatchingSubsequence(names, r, idx)
    ensures forall n :: n in r <==> n in names && MatchesSdkPattern(n)
  {
    var idx := MatchIndices(names, 0);
    var r := seq(|idx|, k requires 0 <= k < |idx| => names[idx[k]]);
    assert IsMatchingSubsequence(names, r, idx);
    MatchingSubsequenceMembers(names, r, idx);
    r
  }

  /** `Directory.GetDirectories(binDir, "10.*")` over a listing: the full paths
      of the matching entries, in listing order. */
  function SdkDirectories(binDir: string, names: seq<string>): (r: seq<string>)
    ensures |r| == |SdkNames(names)|
    ensures forall k :: 0 <= k < |r| ==> r[k] == Combine(binDir, SdkNames(names)[k])
  {
    var matching := SdkNames(names);
    seq(|matching|, k requires 0 <= k < |matching| => Combine(binDir, matching[k]))
  }

  /** `Version.TryParse(Path.GetFileName(sdkDir))`. */
  function VersionOf(dir: string): Option<Version> {
    ParseVersion(GetFileName(dir))
  }

  /** An SDK directory with the outcome of parsing its name. */
  datatype Slot = Slot(version: Option<Version>, dir: string)

  /** The loop's view of each directory: `Version.TryParse` of its file name. */
  function Slots(dirs: seq<string>): (r: seq<Slot>)
    ensures |r| == |dirs|
    ensures forall k :: 0 <= k < |r| ==> r[k] == Slot(VersionOf(dirs[k]), dirs[k])
  {
    seq(|dirs|, k requires 0 <= k < |dirs| => Slot(VersionOf(dirs[k]), dirs[k]))
  }

  /** The dictionary after the loop over the SDK directories. */
  function BuildTable(slots: seq<Slot>): (t: seq<Entry>)
    ensures DistinctKeys(t)
    decreases |slots|
  {
    if |slots| == 0 then []
    else
      var t := BuildTable(slots[..|slots| - 1]);
      var last := slots[|slots| - 1];
      match last.version
      case Some(v) => Put(t, v, last.dir)
      case None => t
  }

  /** Slot `k` parsed, and no later slot parsed to the same version: the
      dictionary keeps it. */
  predicate IsLatestFor(slots: seq<Slot>, k: int) {
    && 0 <= k < |slots|
    && slots[k].version.Some?
    && forall j :: k < j < |slots| ==> slots[j].version != slots[k].version
  }

  function EntryAt(slots: seq<Slot>, k: int): Entry
    requires 0 <= k < |slots| && slots[k].version.Some?
  {
    Entry(slots[k].version.value, slots[k].dir)
  }

  /** Entry `e` is what the dictionary keeps for some slot. */
  predicate KeptEntry(slots: seq<Slot>, e: Entry) {
    exists k :: 0 <= k < |slots| && IsLatestFor(slots, k) && e == EntryAt(slots, k)
  }

  /** Appending a slot keeps an earlier slot's entry unless the new one parsed
      to the same version. */
  lemma LatestAfterAppend(slots: seq<Slot>, k: int)
    requires |slots| > 0 && 0 <= k < |slots| - 1
    ensures IsLatestFor(slots, k) <==>
      IsLatestFor(slots[..|slots| - 1], k) && slots[|slots| - 1].version != slots[k].version
  {
    var init := slots[..|slots| - 1];
    assert forall j :: 0 <= j < |init| ==> init[j] == slots[j];
  }

  /** The dictionary holds exactly one entry per parsed version, pointing at
      the last directory that parsed to it: parse failures are skipped and a
      later duplicate replaces an earlier one. */
  lemma {:induction false} BuildTableEntries(slots: seq<Slot>, e: Entry)
    ensures e in BuildTable(slots) <==> KeptEntry(slots, e)
    decreases |slots|
  {
    if |slots| > 0 {
      var n := |slots| - 1;
      var init := slots[..n];
      var last := slots[n];
      BuildTableEntries(init, e);
      if e in BuildTable(slots) {
        if e in BuildTable(init) && (last.version.None? || e.version != last.version.value) {
          var k :| 0 <= k < |init| && IsLatestFor(init, k) && e == EntryAt(init, k);
          assert init[k] == slots[k];
          LatestAfterAppend(slots, k);
          assert IsLatestFor(slots, k) && e == EntryAt(slots, k);
        } else {
          assert IsLatestFor(slots, n) && e == EntryAt(slots, n);
        }
      }
      if KeptEntry(slots, e) {
        var k :| 0 <= k < |slots| && IsLatestFor(slots, k) && e == EntryAt(slots, k);
        if k < n {
          LatestAfterAppend(slots, k);
          assert init[k] == slots[k];
          assert IsLatestFor(init, k) && e == EntryAt(init, k);
        }
      }
    }
  }

  /** `Path.Combine(dir, architecture, "signtool.exe")`. */
  function Candidate(dir: string, architecture: string): string {
    Combine3(dir, architecture, SignToolExe)
  }

  /** A candidate names a file called signtool.exe, inside `dir` unless the
      architecture is a rooted path. */
  lemma CandidateIsSignToolInDir(dir: string, architecture: string)
    ensures GetFileName(Candidate(dir, architecture)) == SignToolExe
    ensures !IsPathRooted(architecture) ==> dir <= Candidate(dir, architecture)
  {
    var inner := Combine(dir, architecture);
    Combine3IsNestedCombine(dir, architecture, SignToolExe);
    assert IsEntryName(SignToolExe);
    if !IsPathRooted(architecture) {
      CombineKeepsPrefix(dir, architecture);
      CombineKeepsPrefix(inner, SignToolExe);
    }
    if |inner| > 0 {
      GetFileNameOfCombine(inner, SignToolExe);
    } else {
      GetFileNameOfEntry(SignToolExe);
    }
  }

  /** The loop over the ordered entries: the first candidate that exists. */
  function Probe(sorted: seq<Entry>, architecture: string, fileExists: string -> bool): (r: Option<string>)
    ensures r.Some? ==>
      exists i :: (&& 0 <= i < |sorted|
                   && r.value == Candidate(sorted[i].dir, architecture)
                   && fileExists(r.value)
                   && forall j :: 0 <= j < i ==> !fileExists(Candidate(sorted[j].dir, architecture)))
    ensures r.None? <==> forall i :: 0 <= i < |sorted| ==> !fileExists(Candidate(sorted[i].dir, architecture))
    decreases |sorted|
  {
    if |sorted| == 0 then None
    else
      var c := Candidate(sorted[0].dir, architecture);
      if fileExists(c) then Some(c)
      else
        var r := Probe(sorted[1..], architecture, fileExists);
        assert forall i :: 1 <= i < |sorted| ==> sorted[i] == sorted[1..][i - 1];
        r
  }

  /** `FindSignTool(architecture)`. */
  function FindSignTool(host: Host, architecture: string): (r: Lookup)
    ensures r.Located? ==> host.fileExists(r.path)
  {
    match InstallationFolder(host)
    case None => NotLocated
    case Some(folder) =>
      var binDir := Combine(folder, "bin");
      match host.listDirectory(binDir)
      case None => ListingThrew(binDir)
      case Some(names) => SelectSdk(Slots(SdkDirectories(binDir, names)), architecture, host.fileExists)
  }

  /** The dictionary, its descending order and the probe for the first
      existing candidate. The answer is the candidate of the highest kept
      version whose candidate exists (versions compare as versions, not as
      names), and null exactly when no kept directory has the tool for this
      architecture. */
  function SelectSdk(slots: seq<Slot>, architecture: string, fileExists: string -> bool): (r: Lookup)
    ensures !r.ListingThrew?
    ensures r.Located? ==>
      exists k :: (&& 0 <= k < |slots| && IsLatestFor(slots, k)
                   && r.path == Candidate(slots[k].dir, architecture)
                   && fileExists(r.path)
                   && forall k' :: (0 <= k' < |slots| && IsLatestFor(slots, k')
                                    && Less(slots[k].version.value, slots[k'].version.value)) ==>
                        !fileExists(Candidate(slots[k'].dir, architecture)))
    ensures r == NotLocated <==>
      forall k :: 0 <= k < |slots| && IsLatestFor(slots, k) ==>
        !fileExists(Candidate(slots[k].dir, architecture))
  {
    var found := Probe(SortDescending(BuildTable(slots)), architecture, fileExists);
    NotLocatedIsNoneKept(slots, architecture, fileExists);
    match found
    case Some(p) =>
      LocatedIsKept(slots, architecture, fileExists);
      Located(p)
    case None => NotLocated
  }

  /** Sorting keeps the dictionary's entries. */
  lemma SortedSameEntries(table: seq<Entry>, e: Entry)
    requires DistinctKeys(table)
    ensures e in table <==> e in SortDescending(table)
  {
    var sorted := SortDescending(table);
    assert e in table <==> e in multiset(table);
    assert e in sorted <==> e in multiset(sorted);
  }

  /** What the probe over the sorted dictionary finds is the candidate of the
      highest version whose candidate exists. */
  lemma ProbeSortedFindsHighest(table: seq<Entry>, architecture: string, fileExists: string -> bool)
    requires DistinctKeys(table)
    ensures var r := Probe(SortDescending(table), architecture, fileExists);
      r.Some? ==>
        exists e :: (&& e in table
                     && r.value == Candidate(e.dir, architecture)
                     && fileExists(r.value)
                     && forall e' :: e' in table && Less(e.version, e'.version) ==>
                          !fileExists(Candidate(e'.dir, architecture)))
  {
    var sorted := SortDescending(table);
    var r := Probe(sorted, architecture, fileExists);
    if r.None? { return; }
    var p := r.value;
    var i :| && 0 <= i < |sorted|
             && p == Candidate(sorted[i].dir, architecture)
             && fileExists(p)
             && forall j :: 0 <= j < i ==> !fileExists(Candidate(sorted[j].dir, architecture));
    var e := sorted[i];
    SortedSameEntries(table, e);
    forall e' | e' in table && Less(e.version, e'.version)
      ensures !fileExists(Candidate(e'.dir, architecture))
    {
      SortedSameEntries(table, e');
      var j :| 0 <= j < |sorted| && sorted[j] == e';
      if j == i {
        LessIrreflexive(e.version);
      } else if j > i {
        LessAsymmetric(sorted[j].version, sorted[i].version);
      }
    }
  }

  /** The probe over the sorted dictionary finds nothing exactly when no
      entry's candidate exists. */
  lemma ProbeSortedNone(table: seq<Entry>, architecture: string, fileExists: string -> bool)
    requires DistinctKeys(table)
    ensures Probe(SortDescending(table), architecture, fileExists).None? <==>
      forall e :: e in table ==> !fileExists(Candidate(e.dir, architecture))
  {
    var sorted := SortDescending(table);
    forall e ensures e in table <==> e in sorted {
      SortedSameEntries(table, e);
    }
  }

  /** With an installation folder and a listable `bin` directory, the
      locator's answer is the selection over that directory's SDK slots. */
  lemma FindSignToolSelects(host: Host, architecture: string, folder: string, names: seq<string>)
    requires InstallationFolder(host) == Some(folder)
    requires host.listDirectory(Combine(folder, "bin")) == Some(names)
    ensures FindSignTool(host, architecture)
      == SelectSdk(Slots(SdkDirectories(Combine(folder, "bin"), names)), architecture, host.fileExists)
  {
  }

  lemma LocatedIsKept(slots: seq<Slot>, architecture: string, fileExists: string -> bool)
    ensures var r := Probe(SortDescending(BuildTable(slots)), architecture, fileExists);
      r.Some? ==>
        exists k :: (&& 0 <= k < |slots| && IsLatestFor(slots, k)
                     && r.value == Candidate(slots[k].dir, architecture)
                     && fileExists(r.value)
                     && forall k' :: (0 <= k' < |slots| && IsLatestFor(slots, k')
                                      && Less(slots[k].version.value, slots[k'].version.value)) ==>
                          !fileExists(Candidate(slots[k'].dir, architecture)))
  {
    var table := BuildTable(slots);
    var r := Probe(SortDescending(table), architecture, fileExists);
    if r.None? { return; }
    var p := r.value;
    ProbeSortedFindsHighest(table, architecture, fileExists);
    var e :| && e in table
             && p == Candidate(e.dir, architecture)
             && fileExists(p)
             && forall e' :: e' in table && Less(e.version, e'.version) ==>
                  !fileExists(Candidate(e'.dir, architecture));
    BuildTableEntries(slots, e);
    var k :| 0 <= k < |slots| && IsLatestFor(slots, k) && e == EntryAt(slots, k);
    forall k' | 0 <= k' < |slots| && IsLatestFor(slots, k') && Less(slots[k].version.value, slots[k'].version.value)
      ensures !fileExists(Candidate(slots[k'].dir, architecture))
    {
      BuildTableEntries(slots, EntryAt(slots, k'));
    }
  }

  lemma NotLocatedIsNoneKept(slots: seq<Slot>, architecture: string, fileExists: string -> bool)
    ensures Probe(SortDescending(BuildTable(slots)), architecture, fileExists).None? <==>
      forall k :: 0 <= k < |slots| && IsLatestFor(slots, k) ==>
        !fileExists(Candidate(slots[k].dir, architecture))
  {
    var table := BuildTable(slots);
    ProbeSortedNone(table, architecture, fileExists);
    if forall k :: 0 <= k < |slots| && IsLatestFor(slots, k) ==> !fileExists(Candidate(slots[k].dir, architecture)) {
      forall e | e in table ensures !fileExists(Candidate(e.dir, architecture)) {
        BuildTableEntries(slots, e);
      }
    } else {
      var k :| 0 <= k < |slots| && IsLatestFor(slots, k) && fileExists(Candidate(slots[k].dir, architecture));
      BuildTableEntries(slots, EntryAt(slots, k));
    }
  }

  /** Without a string `InstallationFolder` value under the bitness-selected
      key, the locator returns null; with one, it throws exactly when the
      `bin` directory cannot be listed. */
  lemma FindSignToolWithoutFolder(host: Host, architecture: string)
    ensures InstallationFolder(host).None? ==> FindSignTool(host, architecture) == NotLocated
    ensures FindSignTool(host, architecture).ListingThrew? <==>
      InstallationFolder(host).Some?
      && host.listDirectory(Combine(InstallationFolder(host).value, "bin")).None?
  {
  }

  /** Only the value under the key for the host's bitness is read: changing
      any other key leaves the result unchanged. */
  lemma RegistryKeyByBitness(host: Host, architecture: string, other: map<string, RegistryValue>)
    requires var key := RootKey(host.is64BitOperatingSystem);
      (key in other <==> key in host.installationFolders)
      && (key in other ==> other[key] == host.installationFolders[key])
    ensures FindSignTool(host.(installationFolders := other), architecture) == FindSignTool(host, architecture)
  {
  }

  /** A name admitted by the "10.*" pattern that parses as a version has
      major version 10. */
  lemma SdkPatternVersionIsTen(n: string)
    requires MatchesSdkPattern(n) && ParseVersion(n).Some?
    ensures ParseVersion(n).value[0] == 10
  {
    if n == "10" {
      SplitNoSeparator(n, '.');
    } else {
      var rest := n[3..];
      assert n == "10" + ['.'] + rest;
      SplitWord("10", '.', rest);
      assert DigitsValue("10") == 10 by {
        assert "10"[..1] == "1";
        assert "1"[..0] == "";
      }
    }
  }

  /** The loop sees one slot per matching entry, in listing order: the
      entry's full path under `bin`, and the version its entry name parses
      to (the file name of the full path is the entry name again). */
  lemma SlotsOfListing(binDir: string, names: seq<string>)
    requires |binDir| > 0
    requires forall n :: n in names ==> IsEntryName(n)
    ensures var slots := Slots(SdkDirectories(binDir, names));
      var matching := SdkNames(names);
      && |slots| == |matching|
      && forall k :: 0 <= k < |slots| ==>
           slots[k] == Slot(ParseVersion(matching[k]), Combine(binDir, matching[k]))
  {
    var matching := SdkNames(names);
    forall k | 0 <= k < |matching|
      ensures VersionOf(Combine(binDir, matching[k])) == ParseVersion(matching[k])
    {
      assert matching[k] in matching;
      GetFileNameOfCombine(binDir, matching[k]);
    }
  }

  /** Every version the locator considers has major version 10, provided the
      listing yields plain entry names. */
  lemma SdkVersionsAreTen(binDir: string, names: seq<string>)
    requires |binDir| > 0
    requires forall n :: n in names ==> IsEntryName(n)
    ensures var dirs := SdkDirectories(binDir, names);
      forall k :: 0 <= k < |dirs| && VersionOf(dirs[k]).Some? ==> VersionOf(dirs[k]).value[0] == 10
  {
    var dirs := SdkDirectories(binDir, names);
    forall k | 0 <= k < |dirs| && VersionOf(dirs[k]).Some?
      ensures VersionOf(dirs[k]).value[0] == 10
    {
      var n := SdkNames(names)[k];
      assert n in SdkNames(names);
      GetFileNameOfCombine(binDir, n);
      SdkPatternVersionIsTen(n);
    }
  }

  /** Versions compare by component, not as text: with SDKs 10.0.10.0 and
      10.0.9.0 both shipping the tool, listed in name order, the locator picks
      10.0.10.0 although "10.0.9.0" is the larger string. */
  lemma {:induction false} NumericNotTextualOrder(dir10: string, dir9: string, architecture: string)
    ensures var slots := [Slot(Some([10, 0, 10, 0]), dir10), Slot(Some([10, 0, 9, 0]), dir9)];
      SelectSdk(slots, architecture, p => true) == Located(Candidate(dir10, architecture))
  {
    var slots := [Slot(Some([10, 0, 10, 0]), dir10), Slot(Some([10, 0, 9, 0]), dir9)];
    var present := (p: string) => true;
    var v10: Version := [10, 0, 10, 0];
    var v9: Version := [10, 0, 9, 0];
    assert v9[2] != v10[2];
    assert IsLatestFor(slots, 0);
    assert IsLatestFor(slots, 1);
    var r := SelectSdk(slots, architecture, present);
    assert r.Located?;
    var k :| && 0 <= k < |slots| && IsLatestFor(slots, k)
             && r.path == Candidate(slots[k].dir, architecture)
             && forall k' :: (0 <= k' < |slots| && IsLatestFor(slots, k')
                              && Less(slots[k].version.value, slots[k'].version.value)) ==>
                  !present(Candidate(slots[k'].dir, architecture));
    if k == 1 {
      assert Less(v9, v10);
      assert false;
    }
  }
}
