/** The string logic of `update.py`: version tags read as
    `(year, month, patch, stable_flag, beta_number)` tuples and compared as
    Python compares tuples, the GitHub releases API URL derived from the
    `origin` remote, and the selection of tags from a release list. Running
    git and the HTTP request are outside the model: the remote (or its
    absence) and the fetched release list (or the failure) are parameters. */
module Update {
  import opened Wrappers
  import opened Decimal
  import opened Seqs
  import opened Text
  import opened PyInt

  // ---------------------------------------------------------------------------
  // _parse_version

  datatype Version = Version(year: int, month: int, patch: int, stable: int, beta: int)

  /** What an unreadable tag parses to. It ranks below every readable tag
      whose fields are not negative, except the beta tag `0.0.0b0`, which
      parses to it as well. */
  const Unknown: Version := Version(0, 0, 0, 0, 0)

  /** `year, month, patch = main.split(".")` with each read by `int`. */
  function ReadRelease(main: string): (r: Option<(int, int, int)>)
    ensures r.Some? ==> |Split(main, '.')| == 3
  {
    var parts := Split(main, '.');
    if |parts| != 3 then None
    else
      var (y, m, p) := (ReadInt(parts[0]), ReadInt(parts[1]), ReadInt(parts[2]));
      if y.None? || m.None? || p.None? then None
      else Some((y.value, m.value, p.value))
  }

  /** `_parse_version`: split off everything after the first 'b' as the
      beta number, read the rest as exactly three dot-separated integers; a
      non-empty beta part makes a pre-release, and any failure gives zeros. */
  function ParseVersion(v: string): (r: Version)
    ensures r.stable == 0 || r.stable == 1
    ensures r.stable == 1 ==> r.beta == 0
  {
    var (main, _, beta) := Partition(v, 'b');
    match ReadRelease(main)
    case None => Unknown
    case Some((y, m, p)) =>
      if |beta| == 0 then Version(y, m, p, 1, 0)
      else match ReadInt(beta)
        case Some(b) => Version(y, m, p, 0, b)
        case None => Unknown
  }

  /** One field of a tag: a non-empty run of ASCII digits. */
  predicate Numeral(s: string) {
    |s| > 0 && IsDigits(s)
  }

  /** Text that can stand as one field: no dot and no beta marker in it. */
  predicate Field(s: string) {
    forall i :: 0 <= i < |s| ==> s[i] != '.' && s[i] != 'b'
  }

  /** `year.month.patch`, the part before the beta marker. */
  function Release3(x: string, y: string, z: string): string {
    x + "." + y + "." + z
  }

  lemma {:induction false} Release3Pieces(x: string, y: string, z: string)
    requires Field(x) && Field(y) && Field(z)
    ensures Split(Release3(x, y, z), '.') == [x, y, z]
    ensures forall i :: 0 <= i < |Release3(x, y, z)| ==> Release3(x, y, z)[i] != 'b'
  {
    var pieces := [x, y, z];
    assert pieces[1..] == [y, z] && pieces[1..][1..] == [z];
    assert Join(pieces[1..], '.') == y + "." + z;
    assert Join(pieces, '.') == Release3(x, y, z);
    JoinSplit(pieces, '.');
    forall i | 0 <= i < |Release3(x, y, z)| ensures Release3(x, y, z)[i] != 'b' {
      JoinElement(pieces, '.', i);
    }
  }

  lemma {:induction false} ReadRelease3(x: string, y: string, z: string)
    requires Numeral(x) && Numeral(y) && Numeral(z)
    ensures ReadRelease(Release3(x, y, z)) == Some((ParseNat(x), ParseNat(y), ParseNat(z)))
  {
    Release3Pieces(x, y, z);
    DigitsRead(x);
    DigitsRead(y);
    DigitsRead(z);
  }

  /** A stable tag reads as its three numbers with the stable flag. */
  lemma {:induction false} ParseStable(x: string, y: string, z: string)
    requires Numeral(x) && Numeral(y) && Numeral(z)
    ensures ParseVersion(Release3(x, y, z)) == Version(ParseNat(x), ParseNat(y), ParseNat(z), 1, 0)
  {
    Release3Pieces(x, y, z);
    ReadRelease3(x, y, z);
    PartitionNone(Release3(x, y, z), 'b');
  }

  /** `str(n)` of any integer, a minus sign included, is a field. */
  lemma {:induction false} IntField(n: int)
    ensures Field(IntToString(n))
  {
    var d := NatToString(if n >= 0 then n else -n);
    assert IsDigits(d);
    assert IntToString(n) == if n >= 0 then d else "-" + d;
  }

  /** The fields are read by `int`, so negative ones are read as well: any
      three integers written out as a stable tag come back unchanged. */
  lemma {:induction false} ParseStableInts(a: int, b: int, c: int)
    ensures ParseVersion(Release3(IntToString(a), IntToString(b), IntToString(c))) == Version(a, b, c, 1, 0)
  {
    var (x, y, z) := (IntToString(a), IntToString(b), IntToString(c));
    IntField(a);
    IntField(b);
    IntField(c);
    Release3Pieces(x, y, z);
    ReadIntText(a);
    ReadIntText(b);
    ReadIntText(c);
    PartitionNone(Release3(x, y, z), 'b');
  }

  /** "-1.2.3" reads as year -1. */
  lemma {:induction false} NegativeYearExample()
    ensures ParseVersion("-1.2.3") == Version(-1, 2, 3, 1, 0)
  {
    assert IntToString(-1) == "-1" && IntToString(2) == "2" && IntToString(3) == "3";
    assert Release3("-1", "2", "3") == "-1.2.3";
    ParseStableInts(-1, 2, 3);
  }

  /** A tag with a beta marker reads as a pre-release with that beta number;
      a bare trailing 'b' leaves it a stable release. */
  lemma {:induction false} ParseTagged(x: string, y: string, z: string, beta: string)
    requires Numeral(x) && Numeral(y) && Numeral(z) && IsDigits(beta)
    ensures ParseVersion(Release3(x, y, z) + "b" + beta)
      == if |beta| == 0 then Version(ParseNat(x), ParseNat(y), ParseNat(z), 1, 0)
         else Version(ParseNat(x), ParseNat(y), ParseNat(z), 0, ParseNat(beta))
  {
    Release3Pieces(x, y, z);
    ReadRelease3(x, y, z);
    PartitionAt(Release3(x, y, z), 'b', beta);
    if |beta| > 0 {
      DigitsRead(beta);
    }
  }

  /** A character that is neither a dot nor 'b', and that `int` does not
      accept either, makes the whole tag unreadable. */
  lemma {:induction false} ForeignCharUnknown(v: string, i: int)
    requires 0 <= i < |v| && Foreign(v[i]) && v[i] != '.' && v[i] != 'b'
    ensures ParseVersion(v) == Unknown
  {
    var (main, found, beta) := Partition(v, 'b');
    if i < |main| {
      assert main[i] == v[i];
      ForeignInRelease(main, i);
    } else {
      assert v == main + ['b'] + beta;
      assert beta[i - |main| - 1] == v[i];
      ForeignRejected(beta, i - |main| - 1);
    }
  }

  lemma {:induction false} ForeignInRelease(main: string, i: int)
    requires 0 <= i < |main| && Foreign(main[i]) && main[i] != '.'
    ensures ReadRelease(main).None?
  {
    var parts := Split(main, '.');
    if |parts| == 3 {
      SplitJoin(main, '.');
      JoinElement(parts, '.', i);
      var k, j :| 0 <= k < |parts| && 0 <= j < |parts[k]| && parts[k][j] == main[i];
      ForeignRejected(parts[k], j);
      FieldRejected(main, k);
    }
  }

  /** One field `int` rejects makes the whole release unreadable. */
  lemma {:induction false} FieldRejected(main: string, k: int)
    requires |Split(main, '.')| == 3 && 0 <= k < 3 && ReadInt(Split(main, '.')[k]).None?
    ensures ReadRelease(main).None?
  {
    var parts := Split(main, '.');
    assert k == 0 || k == 1 || k == 2;
  }

  /** A tag whose part before the first 'b' does not split into exactly
      three fields is unreadable. */
  lemma {:induction false} FieldCountUnknown(v: string)
    requires |Split(Partition(v, 'b').0, '.')| != 3
    ensures ParseVersion(v) == Unknown
  {
    var (main, _, _) := Partition(v, 'b');
    assert ReadRelease(main) == None;
  }

  /** The empty tag, which a failed release lookup returns, is unreadable. */
  lemma {:induction false} EmptyUnknown()
    ensures ParseVersion("") == Unknown
  {
    PartitionNone("", 'b');
    assert Split("", '.') == [""];
    FieldCountUnknown("");
  }

  /** The readable beta tag `0.0.0b0` parses to the same zeros. */
  lemma {:induction false} ZeroBetaIsUnknown()
    ensures ParseVersion("0.0.0b0") == Unknown
  {
    assert Release3("0", "0", "0") + "b" + "0" == "0.0.0b0";
    assert ParseNat("0") == 0;
    ParseTagged("0", "0", "0", "0");
  }

  // ---------------------------------------------------------------------------
  // is_update_available

  /** Python's `<` on tuples of ints: the first differing position decides,
      and a proper prefix comes first. */
  predicate TupleLess(a: seq<int>, b: seq<int>)
    decreases |a|
  {
    |b| > 0 && (|a| == 0 || a[0] < b[0] || (a[0] == b[0] && TupleLess(a[1..], b[1..])))
  }

  lemma {:induction false} TupleLessIrreflexive(a: seq<int>)
    ensures !TupleLess(a, a)
    decreases |a|
  {
    if |a| > 0 {
      TupleLessIrreflexive(a[1..]);
    }
  }

  lemma {:induction false} TupleLessAsymmetric(a: seq<int>, b: seq<int>)
    ensures !(TupleLess(a, b) && TupleLess(b, a))
    decreases |a|
  {
    if |a| > 0 && |b| > 0 && a[0] == b[0] {
      TupleLessAsymmetric(a[1..], b[1..]);
    }
  }

  lemma {:induction false} TupleLessTrans(a: seq<int>, b: seq<int>, c: seq<int>)
    requires TupleLess(a, b) && TupleLess(b, c)
    ensures TupleLess(a, c)
    decreases |a|
  {
    if |a| > 0 && a[0] == b[0] && b[0] == c[0] {
      TupleLessTrans(a[1..], b[1..], c[1..]);
    }
  }

  function Key(v: Version): seq<int> {
    [v.year, v.month, v.patch, v.stable, v.beta]
  }

  /** The tuple order on versions, field by field. */
  lemma {:induction false} KeyOrder(a: Version, b: Version)
    ensures TupleLess(Key(a), Key(b)) <==>
      a.year < b.year || (a.year == b.year && (
      a.month < b.month || (a.month == b.month && (
      a.patch < b.patch || (a.patch == b.patch && (
      a.stable < b.stable || (a.stable == b.stable && a.beta < b.beta)))))))
  {
    var a0, b0 := Key(a), Key(b);
    var a1, b1 := [a.month, a.patch, a.stable, a.beta], [b.month, b.patch, b.stable, b.beta];
    var a2, b2 := [a.patch, a.stable, a.beta], [b.patch, b.stable, b.beta];
    var a3, b3 := [a.stable, a.beta], [b.stable, b.beta];
    var a4, b4 := [a.beta], [b.beta];
    var none: seq<int> := [];
    assert a4[1..] == none && b4[1..] == none;
    assert TupleLess(a4, b4) <==> a.beta < b.beta;
    assert a3[1..] == a4 && b3[1..] == b4;
    assert TupleLess(a3, b3) <==> a.stable < b.stable || (a.stable == b.stable && TupleLess(a4, b4));
    assert a2[1..] == a3 && b2[1..] == b3;
    assert TupleLess(a2, b2) <==> a.patch < b.patch || (a.patch == b.patch && TupleLess(a3, b3));
    assert a1[1..] == a2 && b1[1..] == b2;
    assert TupleLess(a1, b1) <==> a.month < b.month || (a.month == b.month && TupleLess(a2, b2));
    assert a0[1..] == a1 && b0[1..] == b1;
  }

  /** `is_update_available(current, latest)`. */
  predicate IsUpdateAvailable(current: string, latest: string) {
    TupleLess(Key(ParseVersion(current)), Key(ParseVersion(latest)))
  }

  /** Never an update to the same tag, never both ways, and updates chain. */
  lemma {:induction false} UpdateStrictOrder(a: string, b: string, c: string)
    ensures !IsUpdateAvailable(a, a)
    ensures !(IsUpdateAvailable(a, b) && IsUpdateAvailable(b, a))
    ensures IsUpdateAvailable(a, b) && IsUpdateAvailable(b, c) ==> IsUpdateAvailable(a, c)
  {
    var ka, kb, kc := Key(ParseVersion(a)), Key(ParseVersion(b)), Key(ParseVersion(c));
    TupleLessIrreflexive(ka);
    TupleLessAsymmetric(ka, kb);
    if TupleLess(ka, kb) && TupleLess(kb, kc) {
      TupleLessTrans(ka, kb, kc);
    }
  }

  /** No field of a parsed version is negative. */
  predicate NonNegative(v: Version) {
    v.year >= 0 && v.month >= 0 && v.patch >= 0 && v.beta >= 0
  }

  /** From an unreadable tag, every tag with non-negative fields is an
      update exactly when it does not parse to the same zeros; and such a
      tag never offers an unreadable one as an update. */
  lemma {:induction false} UnknownBelow(u: string, v: string)
    requires ParseVersion(u) == Unknown && NonNegative(ParseVersion(v))
    ensures IsUpdateAvailable(u, v) <==> ParseVersion(v) != Unknown
    ensures !IsUpdateAvailable(v, u)
  {
    var pv := ParseVersion(v);
    KeyOrder(Unknown, pv);
    KeyOrder(pv, Unknown);
  }

  /** Every stable tag of digit fields is an update over an unreadable one. */
  lemma {:induction false} UnknownBelowStable(u: string, x: string, y: string, z: string)
    requires ParseVersion(u) == Unknown && Numeral(x) && Numeral(y) && Numeral(z)
    ensures IsUpdateAvailable(u, Release3(x, y, z))
  {
    ParseStable(x, y, z);
    UnknownBelow(u, Release3(x, y, z));
  }

  /** When the release lookup fails it returns "", and no stable tag of
      digit fields then sees an update. */
  lemma {:induction false} FailedFetchNoUpdate(x: string, y: string, z: string)
    requires Numeral(x) && Numeral(y) && Numeral(z)
    ensures !IsUpdateAvailable(Release3(x, y, z), "")
  {
    EmptyUnknown();
    ParseStable(x, y, z);
    UnknownBelow("", Release3(x, y, z));
  }

  /** A beta ranks below the stable release of the same numbers. */
  lemma {:induction false} BetaBelowStable(x: string, y: string, z: string, beta: string)
    requires Numeral(x) && Numeral(y) && Numeral(z) && Numeral(beta)
    ensures IsUpdateAvailable(Release3(x, y, z) + "b" + beta, Release3(x, y, z))
    ensures !IsUpdateAvailable(Release3(x, y, z), Release3(x, y, z) + "b" + beta)
  {
    var pre, rel := ParseVersion(Release3(x, y, z) + "b" + beta), ParseVersion(Release3(x, y, z));
    ParseTagged(x, y, z, beta);
    ParseStable(x, y, z);
    KeyOrder(pre, rel);
    KeyOrder(rel, pre);
  }

  /** Of two betas of the same numbers, the higher beta number ranks higher. */
  lemma {:induction false} HigherBeta(x: string, y: string, z: string, b1: string, b2: string)
    requires Numeral(x) && Numeral(y) && Numeral(z) && Numeral(b1) && Numeral(b2)
    requires ParseNat(b1) < ParseNat(b2)
    ensures IsUpdateAvailable(Release3(x, y, z) + "b" + b1, Release3(x, y, z) + "b" + b2)
  {
    var v1, v2 := ParseVersion(Release3(x, y, z) + "b" + b1), ParseVersion(Release3(x, y, z) + "b" + b2);
    ParseTagged(x, y, z, b1);
    ParseTagged(x, y, z, b2);
    KeyOrder(v1, v2);
  }

  /** The three comparisons of the update tests. */
  lemma {:induction false} BetaExamples()
    ensures IsUpdateAvailable("2025.8.1b1", "2025.8.1")
    ensures IsUpdateAvailable("2025.8.1b1", "2025.8.1b2")
    ensures !IsUpdateAvailable("2025.8.1", "2025.8.1b1")
  {
    assert Release3("2025", "8", "1") == "2025.8.1";
    assert Release3("2025", "8", "1") + "b" + "1" == "2025.8.1b1";
    assert Release3("2025", "8", "1") + "b" + "2" == "2025.8.1b2";
    assert ParseNat("1") == 1 && ParseNat("2") == 2;
    BetaBelowStable("2025", "8", "1", "1");
    HigherBeta("2025", "8", "1", "1", "2");
  }

  // ---------------------------------------------------------------------------
  // _get_repo_releases_api_url

  const GithubHost: string := "github.com"
  const SshUser: string := "git@"
  const HttpsScheme: string := "https://"
  const DefaultReleasesApiUrl: string := "https://api.github.com/repos/fpoisson2/trackteur-analyse/releases"
  const ApiPrefix: string := "https://api.github.com/repos/"
  const ApiSuffix: string := "/releases"

  /** The remote without surrounding whitespace and without a trailing ".git". */
  function Trimmed(raw: string): string {
    DropGit(Strip(raw, PySpace))
  }

  /** `u[:-4]` when `u.endswith(".git")`. */
  function DropGit(u: string): (r: string)
    ensures |r| <= |u| && r == u[..|r|]
    ensures EndsWith(u, ".git") ==> |r| == |u| - 4
    ensures !EndsWith(u, ".git") ==> r == u
  {
    if EndsWith(u, ".git") then u[..|u| - 4] else u
  }

  /** The repository path: after the first ':' of an `git@` remote, after
      the first "github.com/" of any other; None where `split` leaves no
      second piece. */
  function RepoPath(u: string): Option<string> {
    if StartsWith(u, SshUser) then After(u, ":") else After(u, GithubHost + "/")
  }

  /** The releases API URL for the `origin` remote (None when git could not
      report one); a remote without "github.com" or without a path falls
      back to the default. */
  function ReleasesApiUrl(origin: Option<string>): (r: string)
    ensures origin.None? ==> r == DefaultReleasesApiUrl
  {
    match origin
    case None => DefaultReleasesApiUrl
    case Some(raw) =>
      var u := Trimmed(raw);
      if !Contains(u, GithubHost) then DefaultReleasesApiUrl
      else match RepoPath(u)
        case None => DefaultReleasesApiUrl
        case Some(path) => ApiPrefix + path + ApiSuffix
  }

  /** A remote read back as `u`, naming GitHub, with the path `path`. */
  lemma {:induction false} FromRemote(raw: string, u: string, path: string)
    requires Trimmed(raw) == u && Contains(u, GithubHost) && RepoPath(u) == Some(path)
    ensures ReleasesApiUrl(Some(raw)) == ApiPrefix + path + ApiSuffix
  {
  }

  /** A remote that does not mention GitHub falls back to the default URL. */
  lemma {:induction false} NotGithubFallback(raw: string)
    requires !Contains(raw, GithubHost)
    ensures ReleasesApiUrl(Some(raw)) == DefaultReleasesApiUrl
  {
    var u := Trimmed(raw);
    var lo := TrimmedPiece(raw);
    if Contains(u, GithubHost) {
      ContainsPiece(raw, lo, lo + |u|, GithubHost, u);
    }
  }

  /** A GitHub remote with no path separator (no ':' after `git@`, no
      "github.com/" otherwise) falls back to the default URL, where the
      `split(...)[1]` raises IndexError. */
  lemma {:induction false} NoPathFallback(raw: string)
    requires var u := Trimmed(raw);
      if StartsWith(u, SshUser) then !Contains(u, ":") else !Contains(u, GithubHost + "/")
    ensures ReleasesApiUrl(Some(raw)) == DefaultReleasesApiUrl
  {
  }

  /** The trimmed remote is one piece of the remote. */
  lemma {:induction false} TrimmedPiece(raw: string) returns (lo: nat)
    ensures lo + |Trimmed(raw)| <= |raw| && Trimmed(raw) == raw[lo..lo + |Trimmed(raw)|]
  {
    var stripped := Strip(raw, PySpace);
    var u := DropGit(stripped);
    lo := StripSlice(raw, PySpace, |u|);
  }

  const HttpsHost: string := HttpsScheme + GithubHost + "/"
  const SshHost: string := SshUser + GithubHost + ":"

  /** An HTTPS remote `https://github.com/<path>.git` gives the releases URL
      of `<path>`. */
  lemma {:induction false} HttpsRemote(path: string)
    ensures ReleasesApiUrl(Some(HttpsHost + path + ".git")) == ApiPrefix + path + ApiSuffix
  {
    TrimmedGit(HttpsHost, path);
    HttpsPath(path);
    FromRemote(HttpsHost + path + ".git", HttpsHost + path, path);
  }

  /** An SSH remote `git@github.com:<path>.git` gives the releases URL of
      `<path>`. */
  lemma {:induction false} SshRemote(path: string)
    ensures ReleasesApiUrl(Some(SshHost + path + ".git")) == ApiPrefix + path + ApiSuffix
  {
    TrimmedGit(SshHost, path);
    SshPath(path);
    FromRemote(SshHost + path + ".git", SshHost + path, path);
  }

  /** A remote that starts with a non-blank and ends in ".git" loses only
      the ".git". */
  lemma {:induction false} TrimmedGit(host: string, path: string)
    requires |host| > 0 && !PySpace(host[0])
    ensures Trimmed(host + path + ".git") == host + path
  {
    var raw := host + path + ".git";
    assert raw[0] == host[0] && raw[|raw| - 1] == 't';
    StripClean(raw, PySpace);
    assert raw[..|raw| - 4] == host + path;
  }

  lemma {:induction false} HttpsPath(path: string)
    ensures Contains(HttpsHost + path, GithubHost)
    ensures RepoPath(HttpsHost + path) == Some(path)
  {
    var u := HttpsHost + path;
    var sep := GithubHost + "/";
    var w := HttpsScheme + sep;
    assert u == w + path;
    assert !StartsWith(u, SshUser) by {
      assert u[0] == HttpsScheme[0];
    }
    forall i | 0 <= i < |HttpsScheme| ensures !OccursAt(w, sep, i) {
      NoStartAt(w, sep, i);
    }
    FindAfter(HttpsScheme, sep, path);
    assert u[|w|..] == path;
    assert u == HttpsScheme + GithubHost + ("/" + path);
    OccursBetween(HttpsScheme, GithubHost, "/" + path);
  }

  /** The separator cannot start inside the scheme: "https://" has no 'g'. */
  lemma NoStartAt(w: string, sep: string, i: int)
    requires w == HttpsScheme + sep && |sep| > 0 && sep[0] == 'g' && 0 <= i < |HttpsScheme|
    ensures !OccursAt(w, sep, i)
  {
    assert w[i] == HttpsScheme[i] != 'g';
  }

  lemma {:induction false} SshPath(path: string)
    ensures Contains(SshHost + path, GithubHost)
    ensures RepoPath(SshHost + path) == Some(path)
  {
    var u := SshHost + path;
    var host := SshUser + GithubHost;
    assert u == host + [':'] + path;
    assert StartsWith(u, SshUser) by {
      assert u[..|SshUser|] == SshUser;
    }
    forall i | 0 <= i < |host| ensures host[i] != ':' {
      if i < |SshUser| {
        assert host[i] == SshUser[i];
      } else {
        assert host[i] == GithubHost[i - |SshUser|];
      }
    }
    FindOne(host, ':', path);
    assert u[|host| + 1..] == path;
    assert u == SshUser + GithubHost + (":" + path);
    OccursBetween(SshUser, GithubHost, ":" + path);
  }

  // ---------------------------------------------------------------------------
  // get_latest_version, get_available_versions

  /** A release of the API answer: its `tag_name` ("" when absent) and its
      `prerelease` flag. */
  datatype Release = Release(tag: string, prerelease: bool)

  /** The request raised `RequestException`, or the body was not JSON. */
  datatype FetchFailure = RequestFailed | NotJson

  function Eligible(includePrerelease: bool): Release -> bool {
    (r: Release) => !(r.prerelease && !includePrerelease)
  }

  /** The loop of `get_latest_version`. */
  function FirstTag(rs: seq<Release>, includePrerelease: bool): (t: string)
    ensures t != "" ==> exists i :: 0 <= i < |rs| && rs[i].tag == t && Eligible(includePrerelease)(rs[i])
  {
    if |rs| == 0 then ""
    else if rs[0].prerelease && !includePrerelease then
      var t := FirstTag(rs[1..], includePrerelease);
      assert t != "" ==> exists i :: 1 <= i < |rs| && rs[i].tag == t && Eligible(includePrerelease)(rs[i]) by {
        if t != "" {
          var i :| 0 <= i < |rs[1..]| && rs[1..][i].tag == t && Eligible(includePrerelease)(rs[1..][i]);
          assert rs[i + 1] == rs[1..][i];
        }
      }
      t
    else rs[0].tag
  }

  /** `get_latest_version(include_prerelease)`: "" on failure. */
  function LatestVersion(fetched: Result<seq<Release>, FetchFailure>, includePrerelease: bool): (t: string)
    ensures fetched.Err? ==> t == ""
    ensures !includePrerelease && t != "" ==> exists i :: 0 <= i < |fetched.value| && fetched.value[i].tag == t && !fetched.value[i].prerelease
  {
    match fetched
    case Err(_) => ""
    case Ok(rs) => FirstTag(rs, includePrerelease)
  }

  /** The latest version is the tag of the first release that is not a
      skipped pre-release, and "" when there is none. */
  lemma {:induction false} LatestIsFirstEligible(rs: seq<Release>, includePrerelease: bool)
    ensures var e := Filter(rs, Eligible(includePrerelease));
      LatestVersion(Ok(rs), includePrerelease) == if |e| == 0 then "" else e[0].tag
  {
    if |rs| > 0 {
      LatestIsFirstEligible(rs[1..], includePrerelease);
    }
  }

  function Tagged(r: Release): bool {
    r.tag != ""
  }

  function Tags(rs: seq<Release>): (ts: seq<string>)
    ensures |ts| == |rs| && forall i :: 0 <= i < |rs| ==> ts[i] == rs[i].tag
  {
    seq(|rs|, i requires 0 <= i < |rs| => rs[i].tag)
  }

  /** `get_available_versions()`: the non-empty tags, in order; [] on failure. */
  method AvailableVersions(fetched: Result<seq<Release>, FetchFailure>) returns (tags: seq<string>)
    ensures fetched.Err? ==> tags == []
    ensures fetched.Ok? ==> tags == Tags(Filter(fetched.value, Tagged))
  {
    tags := [];
    if fetched.Err? {
      return;
    }
    var rs := fetched.value;
    for i := 0 to |rs|
      invariant tags == Tags(Filter(rs[..i], Tagged))
    {
      FilterAppend(rs[..i], [rs[i]], Tagged);
      assert rs[..i + 1] == rs[..i] + [rs[i]];
      if rs[i].tag != "" {
        tags := tags + [rs[i].tag];
      }
    }
    assert rs[..|rs|] == rs;
  }

  /** A tag is offered exactly when it is non-empty and some release has it. */
  lemma {:induction false} AvailableTags(rs: seq<Release>, t: string)
    ensures t in Tags(Filter(rs, Tagged)) <==> t != "" && exists r :: r in rs && r.tag == t
  {
    var kept := Filter(rs, Tagged);
    if t in Tags(kept) {
      var i :| 0 <= i < |kept| && Tags(kept)[i] == t;
      FilterMember(rs, Tagged, kept[i]);
    }
    if t != "" && exists r :: r in rs && r.tag == t {
      var r :| r in rs && r.tag == t;
      FilterMember(rs, Tagged, r);
      var i :| 0 <= i < |kept| && kept[i] == r;
      assert Tags(kept)[i] == t;
    }
  }
}
