/** Certificate resolution of Signing/X509CertificateEx.cs:8-36: an ordered
    first-match search over the certificate stores. */
module CertificateStores {
  import opened Opt

  datatype StoreLocation = CurrentUser | LocalMachine

  /** The stores searched, in priority order. */
  const AllStoreLocations: seq<StoreLocation> := [CurrentUser, LocalMachine]

  datatype Certificate = Certificate(thumbprint: string, subject: string)

  /** The contents of the personal store at each location, in the order the
      store enumerates them. The search only reads this value. */
  datatype Stores = Stores(currentUser: seq<Certificate>, localMachine: seq<Certificate>) {
    function Contents(loc: StoreLocation): seq<Certificate> {
      match loc
      case CurrentUser => currentUser
      case LocalMachine => localMachine
    }
  }

  /** Whether a certificate is found by a thumbprint search for the given
      string: the class library's matching rule, taken as a parameter. */
  type Matcher = (Certificate, string) -> bool

  /** `Certificates.Find(FindByThumbprint, thumbprint, false)`: the matching
      certificates, in store order. */
  function Find(certs: seq<Certificate>, thumbprint: string, matches: Matcher): (r: seq<Certificate>)
    ensures forall c :: c in r <==> c in certs && matches(c, thumbprint)
    ensures |r| > 0 ==>
      exists k :: (&& 0 <= k < |certs| && certs[k] == r[0]
                   && forall j :: 0 <= j < k ==> !matches(certs[j], thumbprint))
    decreases |certs|
  {
    if |certs| == 0 then []
    else
      var rest := Find(certs[1..], thumbprint, matches);
      if matches(certs[0], thumbprint) then [certs[0]] + rest
      else
        assert |rest| > 0 ==> certs[1..][0] == certs[1];
        assert forall c :: c in certs[1..] ==> c in certs;
        assert forall c :: c in certs && c != certs[0] ==> c in certs[1..];
        rest
  }

  /** Whether some certificate at the location is found. */
  predicate HasMatch(stores: Stores, loc: StoreLocation, thumbprint: string, matches: Matcher) {
    exists c :: c in stores.Contents(loc) && matches(c, thumbprint)
  }

  /** The search result at a location is empty exactly when nothing there matches. */
  lemma FindEmptyIffNoMatch(stores: Stores, loc: StoreLocation, thumbprint: string, matches: Matcher)
    ensures Find(stores.Contents(loc), thumbprint, matches) == [] <==> !HasMatch(stores, loc, thumbprint, matches)
  {
    var found := Find(stores.Contents(loc), thumbprint, matches);
    if found != [] {
      assert found[0] in found;
    }
  }

  /** The index of the first non-empty list, or the number of lists when
      all are empty. */
  function FirstNonEmpty(results: seq<seq<Certificate>>): (k: nat)
    ensures k <= |results|
    ensures forall j :: 0 <= j < k ==> results[j] == []
    ensures k < |results| ==> |results[k]| > 0
    decreases |results|
  {
    if |results| == 0 || |results[0]| > 0 then 0
    else
      var k := FirstNonEmpty(results[1..]);
      assert forall j :: 1 <= j <= k ==> results[j] == results[1..][j - 1];
      1 + k
  }

  /** The search result at each location, in order. */
  function Results(locs: seq<StoreLocation>, stores: Stores, thumbprint: string, matches: Matcher)
    : (rs: seq<seq<Certificate>>)
    ensures |rs| == |locs|
    ensures forall i :: 0 <= i < |locs| ==> rs[i] == Find(stores.Contents(locs[i]), thumbprint, matches)
  {
    seq(|locs|, i requires 0 <= i < |locs| => Find(stores.Contents(locs[i]), thumbprint, matches))
  }

  /** The loop over locations: opens each store in turn and returns the
      first element of the first non-empty search result. */
  function SearchLocations(locs: seq<StoreLocation>, stores: Stores, thumbprint: string,
                           matches: Matcher): (r: Option<Certificate>)
    ensures r.None? <==> forall i :: 0 <= i < |locs| ==> Find(stores.Contents(locs[i]), thumbprint, matches) == []
    ensures r.Some? ==>
      exists i :: (&& 0 <= i < |locs|
                   && (forall j :: 0 <= j < i ==> Find(stores.Contents(locs[j]), thumbprint, matches) == [])
                   && |Find(stores.Contents(locs[i]), thumbprint, matches)| > 0
                   && r.value == Find(stores.Contents(locs[i]), thumbprint, matches)[0])
  {
    var results := Results(locs, stores, thumbprint, matches);
    var k := FirstNonEmpty(results);
    if k < |results| then Some(results[k][0]) else None
  }

  /** `CreateFromThumbprint`: `None` stands for the null the source returns.
      A certificate it returns is one the search found: held by one of the
      stores and matching the thumbprint. */
  function CreateFromThumbprint(thumbprint: string, stores: Stores, matches: Matcher): (r: Option<Certificate>)
    ensures r.Some? ==>
      matches(r.value, thumbprint) && (r.value in stores.currentUser || r.value in stores.localMachine)
  {
    SearchBothFindsStoredMatch(thumbprint, stores, matches);
    SearchLocations(AllStoreLocations, stores, thumbprint, matches)
  }

  lemma SearchBothFindsStoredMatch(thumbprint: string, stores: Stores, matches: Matcher)
    ensures var r := SearchLocations(AllStoreLocations, stores, thumbprint, matches);
      r.Some? ==> matches(r.value, thumbprint) && (r.value in stores.currentUser || r.value in stores.localMachine)
  {
    var user := Find(stores.currentUser, thumbprint, matches);
    var machine := Find(stores.localMachine, thumbprint, matches);
    var rs := Results(AllStoreLocations, stores, thumbprint, matches);
    assert rs[0] == user && rs[1] == machine;
    assert |user| > 0 ==> user[0] in user;
    assert |machine| > 0 ==> machine[0] in machine;
  }

  /** The two stores are searched in the order of `AllStoreLocations`: the
      current user's first, then the local machine's. */
  lemma {:induction false} SearchOrder(thumbprint: string, stores: Stores, matches: Matcher)
    ensures var user := Find(stores.currentUser, thumbprint, matches);
      var machine := Find(stores.localMachine, thumbprint, matches);
      CreateFromThumbprint(thumbprint, stores, matches)
        == if |user| > 0 then Some(user[0]) else if |machine| > 0 then Some(machine[0]) else None
  {
    var user := Find(stores.currentUser, thumbprint, matches);
    var machine := Find(stores.localMachine, thumbprint, matches);
    var rs := Results(AllStoreLocations, stores, thumbprint, matches);
    assert rs[0] == user && rs[1] == machine;
  }

  /** Resolution fails exactly when neither store holds a match. */
  lemma NotFoundIffNoStoreMatches(thumbprint: string, stores: Stores, matches: Matcher)
    ensures CreateFromThumbprint(thumbprint, stores, matches).None? <==>
      !HasMatch(stores, CurrentUser, thumbprint, matches) && !HasMatch(stores, LocalMachine, thumbprint, matches)
  {
    SearchOrder(thumbprint, stores, matches);
    FindEmptyIffNoMatch(stores, CurrentUser, thumbprint, matches);
    FindEmptyIffNoMatch(stores, LocalMachine, thumbprint, matches);
  }

  /** A match in the current user's store wins: the result is the first such
      match, whatever the local machine store holds. */
  lemma CurrentUserFirst(thumbprint: string, stores: Stores, matches: Matcher, otherMachine: seq<Certificate>)
    requires HasMatch(stores, CurrentUser, thumbprint, matches)
    ensures CreateFromThumbprint(thumbprint, stores, matches)
      == Some(Find(stores.currentUser, thumbprint, matches)[0])
    ensures CreateFromThumbprint(thumbprint, stores, matches)
      == CreateFromThumbprint(thumbprint, stores.(localMachine := otherMachine), matches)
  {
    SearchOrder(thumbprint, stores, matches);
    SearchOrder(thumbprint, stores.(localMachine := otherMachine), matches);
    FindEmptyIffNoMatch(stores, CurrentUser, thumbprint, matches);
  }

  /** Without a match for the current user, the local machine store decides,
      and the result is its first match. */
  lemma LocalMachineFallback(thumbprint: string, stores: Stores, matches: Matcher)
    requires !HasMatch(stores, CurrentUser, thumbprint, matches)
    requires HasMatch(stores, LocalMachine, thumbprint, matches)
    ensures CreateFromThumbprint(thumbprint, stores, matches)
      == Some(Find(stores.localMachine, thumbprint, matches)[0])
  {
    SearchOrder(thumbprint, stores, matches);
    FindEmptyIffNoMatch(stores, CurrentUser, thumbprint, matches);
    FindEmptyIffNoMatch(stores, LocalMachine, thumbprint, matches);
  }
}
