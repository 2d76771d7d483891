/** GitHub URL parsing: `githubRegex`, `getRepository` and
    `getRepositoryString` of the service's helpers. The anchored regular
    expression is modelled twice: `Matches` says declaratively which
    (owner, name) pairs the pattern accepts for a given input, and
    `MatchGithub` scans the input left to right the way the pattern's
    deterministic reading does. `MatchCorrect` proves the two agree. */
module Helpers {
  import opened Wrappers
  import opened Ascii
  import opened Errors
  import Paths

  /** The named capture groups `owner` and `name`. */
  datatype Repository = Repository(owner: string, name: string)

  const Host: string := "github.com/"
  const Http: string := "http://"
  const Https: string := "https://"

  /** The optional scheme in front of the host: empty, `http://` or `https://`. */
  predicate IsScheme(p: string)
  {
    p == "" || p == Http || p == Https
  }

  /** The class `[a-zA-Z0-9._-]` of the `name` group. */
  predicate IsNameChar(c: char)
  {
    'a' <= c <= 'z' || 'A' <= c <= 'Z' || '0' <= c <= '9' || c == '.' || c == '_' || c == '-'
  }

  /** The class `[/?#]` that may follow the name. */
  predicate IsDelimiter(c: char)
  {
    c == '/' || c == '?' || c == '#'
  }

  /** The `owner` group `[^/]+`. */
  predicate ValidOwner(o: string)
  {
    |o| > 0 && '/' !in o
  }

  /** The `name` group `[a-zA-Z0-9._-]+?`. */
  predicate ValidName(n: string)
  {
    |n| > 0 && forall i :: 0 <= i < |n| ==> IsNameChar(n[i])
  }

  /** A valid name never holds `/`. */
  lemma NameNoSlash(n: string)
    requires ValidName(n)
    ensures '/' !in n
  {
    forall k | 0 <= k < |n| ensures n[k] != '/' {
      assert IsNameChar(n[k]);
    }
  }

  /** The groups rendered as `owner/name`. */
  function RepositoryString(r: Repository): string
  {
    r.owner + "/" + r.name
  }

  /** From index `i` on, `s` holds `owner/name` with valid groups, followed by
      `/`, `?`, `#` or the end of the input. */
  predicate GroupsAt(s: string, i: nat, r: Repository)
  {
    var end := i + |RepositoryString(r)|;
    && ValidOwner(r.owner)
    && ValidName(r.name)
    && end <= |s|
    && s[i..end] == RepositoryString(r)
    && (end == |s| || IsDelimiter(s[end]))
  }

  /** `s` matches the pattern through one alternative of the scheme group. */
  predicate MatchesWith(s: string, scheme: string, r: Repository)
  {
    scheme + Host <= s && GroupsAt(s, |scheme| + |Host|, r)
  }

  /** Declarative meaning of `githubRegex`: some alternative of the optional
      scheme group lets the rest of the pattern match with groups `r`. */
  predicate Matches(s: string, r: Repository)
  {
    MatchesWith(s, "", r) || MatchesWith(s, Http, r) || MatchesWith(s, Https, r)
  }

  /** Length of the scheme the scanner consumes. */
  function SchemeEnd(s: string): (k: nat)
    ensures k <= |s| && IsScheme(s[..k])
  {
    if Https <= s then |Https| else if Http <= s then |Http| else 0
  }

  /** First index at or after `i` holding a character outside the name class,
      or `|s|` when there is none. */
  function NameEnd(s: string, i: nat): (j: nat)
    requires i <= |s|
    ensures i <= j <= |s|
    ensures forall k :: i <= k < j ==> IsNameChar(s[k])
    ensures j < |s| ==> !IsNameChar(s[j])
    decreases |s| - i
  {
    if i == |s| || !IsNameChar(s[i]) then i else NameEnd(s, i + 1)
  }

  /** The scanner: `s.match(githubRegex)` on an already lower-cased `s`.
      The owner runs to the first `/`; the lazy name group can only stop
      where the name class ends, because no name character is a delimiter. */
  function MatchGithub(s: string): (m: Option<Repository>)
    ensures m.Some? ==> Matches(s, m.value)
  {
    var h := SchemeEnd(s);
    if !(Host <= s[h..]) then None
    else
      assert s[..h] + Host <= s by {
        assert s[..h + |Host|] == s[..h] + s[h..][..|Host|];
      }
      MatchOwner(s, h + |Host|)
  }

  /** Scans the owner group starting at `i`, then the `/` after it. */
  function MatchOwner(s: string, i: nat): (m: Option<Repository>)
    requires i <= |s|
    ensures m.Some? ==> GroupsAt(s, i, m.value)
  {
    var j := Paths.SlashIndex(s, i);
    if j == i || j == |s| then None
    else
      NameSound(s, i, j);
      MatchName(s, i, j)
  }

  /** Scans the name group, which starts after the `/` at index `j`. */
  function MatchName(s: string, i: nat, j: nat): Option<Repository>
    requires i <= j < |s|
  {
    var k := NameEnd(s, j + 1);
    if k == j + 1 || (k < |s| && !IsDelimiter(s[k])) then None
    else Some(Repository(s[i..j], s[j + 1..k]))
  }

  /** What the name step returns after an owner that runs from `i` to the
      `/` at `j` is a pair of groups in place. */
  lemma NameSound(s: string, i: nat, j: nat)
    requires i < j < |s| && s[j] == '/' && forall k :: i <= k < j ==> s[k] != '/'
    ensures MatchName(s, i, j).Some? ==> GroupsAt(s, i, MatchName(s, i, j).value)
  {
    var k := NameEnd(s, j + 1);
    if k != j + 1 && (k == |s| || IsDelimiter(s[k])) {
      var r := Repository(s[i..j], s[j + 1..k]);
      assert MatchName(s, i, j) == Some(r);
      assert s[i..k] == s[i..j] + [s[j]] + s[j + 1..k];
      assert ValidOwner(r.owner) by {
        forall x | 0 <= x < |r.owner| ensures r.owner[x] != '/' {
          assert r.owner[x] == s[i + x];
        }
      }
      assert ValidName(r.name) by {
        forall x | 0 <= x < |r.name| ensures IsNameChar(r.name[x]) {
          assert r.name[x] == s[j + 1 + x];
        }
      }
    }
  }

  /** The owner step stops at the `/` that follows an owner in place. */
  lemma OwnerScan(s: string, i: nat, r: Repository)
    requires ValidOwner(r.owner) && ValidName(r.name)
    requires i + |RepositoryString(r)| <= |s| && s[i..i + |RepositoryString(r)|] == RepositoryString(r)
    ensures Paths.SlashIndex(s, i) == i + |r.owner| && s[i..i + |r.owner|] == r.owner
    ensures s[i + |r.owner| + 1..i + |RepositoryString(r)|] == r.name
  {
    var o, n := r.owner, r.name;
    var j := i + |o|;
    var v := RepositoryString(r);
    assert s[i..j] == o by { assert v[..|o|] == o; assert s[i..j] == v[..|o|]; }
    assert s[j] == '/' by { assert v[|o|] == '/'; }
    assert s[j + 1..i + |v|] == n by { assert v[|o| + 1..] == n; assert s[j + 1..i + |v|] == v[|o| + 1..]; }
    forall x | i <= x < j ensures s[x] != '/' {
      assert s[x] == o[x - i];
      assert o[x - i] in o;
    }
  }

  /** The name step stops right after a name in place when the next
      character, if any, is outside the name class. */
  lemma NameScan(s: string, j: nat, n: string)
    requires ValidName(n) && j + |n| <= |s| && s[j..j + |n|] == n
    requires j + |n| == |s| || !IsNameChar(s[j + |n|])
    ensures NameEnd(s, j) == j + |n|
  {
    forall x | j <= x < j + |n| ensures IsNameChar(s[x]) {
      assert s[x] == n[x - j];
    }
  }

  /** Groups in place followed by the end or a delimiter are what the scanner finds. */
  lemma GroupsComplete(s: string, i: nat, r: Repository)
    requires GroupsAt(s, i, r)
    ensures MatchOwner(s, i) == Some(r)
  {
    OwnerScan(s, i, r);
    NameScan(s, i + |r.owner| + 1, r.name);
  }

  /** The scanner's scheme step consumes exactly the scheme a match used:
      the three alternatives are mutually exclusive once `github.com/` follows. */
  lemma SchemeStep(s: string, scheme: string)
    requires IsScheme(scheme) && scheme + Host <= s
    ensures MatchGithub(s) == MatchOwner(s, |scheme| + |Host|)
  {
    if scheme == "" {
      assert s[0] == Host[0];
    } else if scheme == Http {
      assert s[4] == Http[4];
    }
    assert SchemeEnd(s) == |scheme|;
    assert s[|scheme|..][..|Host|] == (scheme + Host)[|scheme|..];
  }

  /** `MatchGithub` is exactly the declarative pattern. */
  lemma MatchCorrect(s: string, r: Repository)
    ensures MatchGithub(s) == Some(r) <==> Matches(s, r)
  {
    if MatchesWith(s, "", r) {
      MatchWithComplete(s, "", r);
    } else if MatchesWith(s, Http, r) {
      MatchWithComplete(s, Http, r);
    } else if MatchesWith(s, Https, r) {
      MatchWithComplete(s, Https, r);
    }
  }

  /** A match through one scheme alternative is what the scanner finds. */
  lemma MatchWithComplete(s: string, scheme: string, r: Repository)
    requires IsScheme(scheme) && MatchesWith(s, scheme, r)
    ensures MatchGithub(s) == Some(r)
  {
    SchemeStep(s, scheme);
    GroupsComplete(s, |scheme| + |Host|, r);
  }

  /** When the scanner finds nothing, no pair of groups matches. */
  lemma NoMatchRejects(s: string)
    requires MatchGithub(s).None?
    ensures forall r :: !Matches(s, r)
  {
    forall r ensures !Matches(s, r) {
      MatchCorrect(s, r);
    }
  }

  /** The pattern determines its groups: at most one pair matches. */
  lemma MatchUnique(s: string, r1: Repository, r2: Repository)
    requires Matches(s, r1) && Matches(s, r2)
    ensures r1 == r2
  {
    MatchCorrect(s, r1);
    MatchCorrect(s, r2);
  }

  /** Groups cut from a lower-case string are lower-case. */
  lemma NoUpperGroups(s: string, i: nat, r: Repository)
    requires NoUpper(s) && GroupsAt(s, i, r)
    ensures NoUpper(r.owner) && NoUpper(r.name)
  {
    var v := RepositoryString(r);
    forall x | 0 <= x < |r.owner| ensures !IsUpper(r.owner[x]) {
      assert r.owner[x] == v[x] == s[i + x];
    }
    forall x | 0 <= x < |r.name| ensures !IsUpper(r.name[x]) {
      assert r.name[x] == v[|r.owner| + 1 + x] == s[i + |r.owner| + 1 + x];
    }
  }

  /** `getRepository`: lower-case the URL, match it, and throw
      `Invalid GitHub URL: <url>` (with the URL as given) when nothing matches. */
  function GetRepository(url: string): (res: Result<Repository, Error>)
    ensures res.Success? ==> Matches(ToLower(url), res.value)
    ensures res.Success? ==> ValidOwner(res.value.owner) && ValidName(res.value.name)
    ensures res.Success? ==> NoUpper(res.value.owner) && NoUpper(res.value.name)
    ensures res.Failure? ==> res.error == InvalidGitHubUrl(url) && forall r :: !Matches(ToLower(url), r)
  {
    var lower := ToLower(url);
    ScanFacts(lower);
    match MatchGithub(lower)
    case None => Failure(InvalidGitHubUrl(url))
    case Some(r) => Success(r)
  }

  /** What the scanner's answer on a lower-case string tells about the pattern. */
  lemma ScanFacts(s: string)
    requires NoUpper(s)
    ensures MatchGithub(s).Some? ==>
              var r := MatchGithub(s).value;
              Matches(s, r) && ValidOwner(r.owner) && ValidName(r.name) && NoUpper(r.owner) && NoUpper(r.name)
    ensures MatchGithub(s).None? ==> forall r :: !Matches(s, r)
  {
    match MatchGithub(s)
    case None =>
      NoMatchRejects(s);
    case Some(r) =>
      var scheme := if MatchesWith(s, "", r) then "" else if MatchesWith(s, Http, r) then Http else Https;
      NoUpperGroups(s, |scheme| + |Host|, r);
  }

  /** A rendered pair holds exactly one `/`, between owner and name. */
  lemma RenderSlash(r: Repository)
    requires ValidOwner(r.owner) && ValidName(r.name)
    ensures var v := RepositoryString(r);
      && |v| == |r.owner| + 1 + |r.name|
      && v[..|r.owner|] == r.owner
      && v[|r.owner| + 1..] == r.name
      && forall x :: 0 <= x < |v| ==> (v[x] == '/' <==> x == |r.owner|)
  {
    var v := RepositoryString(r);
    forall x | 0 <= x < |v| ensures v[x] == '/' <==> x == |r.owner| {
      if x < |r.owner| {
        assert v[x] == r.owner[x];
        assert r.owner[x] in r.owner;
      } else if x > |r.owner| {
        assert v[x] == r.name[x - |r.owner| - 1];
      }
    }
  }

  /** `getRepositoryString`: the groups rendered as `owner/name`. */
  function GetRepositoryString(url: string): (res: Result<string, Error>)
    ensures GetRepository(url).Failure? ==> res == Failure(GetRepository(url).error)
    ensures GetRepository(url).Success? ==>
              var r := GetRepository(url).value;
              && res.Success?
              && |res.value| == |r.owner| + 1 + |r.name|
              && res.value[..|r.owner|] == r.owner
              && res.value[|r.owner| + 1..] == r.name
              && forall x :: 0 <= x < |res.value| ==> (res.value[x] == '/' <==> x == |r.owner|)
  {
    match GetRepository(url)
    case Failure(e) => Failure(e)
    case Success(r) =>
      RenderSlash(r);
      Success(RepositoryString(r))
  }

  /** Matching sees only the lower-cased URL: a URL and its lower-case form
      are accepted together and yield the same groups. */
  lemma GetRepositoryCaseInsensitive(url: string)
    ensures GetRepository(ToLower(url)).Success? <==> GetRepository(url).Success?
    ensures GetRepository(url).Success? ==> GetRepository(ToLower(url)).value == GetRepository(url).value
  {
    ToLowerIdempotent(url);
  }

  /** Only the three recognised prefixes can lead to a match; any other start
      (`www.github.com/`, `git@github.com:`, another host) is rejected. */
  lemma AcceptedPrefix(url: string)
    ensures var lower := ToLower(url);
      GetRepository(url).Success? ==> Host <= lower || Http + Host <= lower || Https + Host <= lower
  {
    if GetRepository(url).Success? {
      assert "" + Host == Host;
    }
  }

  /** A `www.` host is not `github.com`: every URL starting with `www.`,
      such as `www.github.com/a/b`, is rejected. */
  lemma RejectsWwwHost(u: string)
    requires "www." <= u
    ensures GetRepository(u) == Failure(InvalidGitHubUrl(u))
  {
    LowerPrefix(u, "www.");
    AcceptedPrefix(u);
    assert ToLower(u)[0] == 'w' != Host[0];
  }

  /** The SSH form is not recognised: every URL starting with `git@`, such
      as `git@github.com:a/b`, is rejected. */
  lemma RejectsSshForm(u: string)
    requires "git@" <= u
    ensures GetRepository(u) == Failure(InvalidGitHubUrl(u))
  {
    LowerPrefix(u, "git@");
    AcceptedPrefix(u);
    assert ToLower(u)[3] == '@' != Host[3];
    assert ToLower(u)[0] == 'g' != Http[0];
  }

  /** A prefix without upper-case letters survives lower-casing. */
  lemma LowerPrefix(u: string, p: string)
    requires p <= u && NoUpper(p)
    ensures p <= ToLower(u)
  {
    assert u == p + u[|p|..];
    ToLowerConcat(p, u[|p|..]);
    ToLowerFixed(p);
  }

  /** Lower-casing maps the pieces of a URL independently. */
  lemma ToLowerUrl(scheme: string, o: string, n: string)
    requires IsScheme(scheme)
    ensures ToLower(scheme + Host + o + "/" + n) == scheme + Host + ToLower(o) + "/" + ToLower(n)
  {
    ToLowerConcat(scheme + Host + o + "/", n);
    ToLowerConcat(scheme + Host + o, "/");
    ToLowerConcat(scheme + Host, o);
    ToLowerConcat(scheme, Host);
    ToLowerFixed(scheme);
    ToLowerFixed(Host);
    ToLowerFixed("/");
  }

  /** Lower-casing keeps a string a valid owner and a valid name. */
  lemma ToLowerKeepsGroups(o: string, n: string)
    requires ValidOwner(o) && ValidName(n)
    ensures ValidOwner(ToLower(o)) && ValidName(ToLower(n))
  {
    var lo, ln := ToLower(o), ToLower(n);
    forall x | 0 <= x < |lo| ensures lo[x] != '/' {
      assert o[x] != '/' by { assert o[x] in o; }
    }
    forall x | 0 <= x < |ln| ensures IsNameChar(ln[x]) {
      assert IsNameChar(n[x]);
    }
  }

  /** A URL assembled from a scheme, the host and valid groups is matched by
      exactly those groups when `rest` is empty or starts with a delimiter. */
  lemma AssembledMatches(scheme: string, r: Repository, rest: string)
    requires IsScheme(scheme) && ValidOwner(r.owner) && ValidName(r.name)
    requires rest == [] || IsDelimiter(rest[0])
    ensures MatchesWith(scheme + Host + RepositoryString(r) + rest, scheme, r)
  {
    var s := scheme + Host + RepositoryString(r) + rest;
    var i := |scheme| + |Host|;
    var end := i + |RepositoryString(r)|;
    assert s[..i] == scheme + Host;
    assert s[i..end] == RepositoryString(r);
    if rest != [] {
      assert s[end] == rest[0];
    }
  }

  /** Round trip: any scheme, host, owner and name assembled into a URL parse
      back to that owner and name, lower-cased. */
  lemma RoundTrip(scheme: string, o: string, n: string)
    requires IsScheme(scheme) && ValidOwner(o) && ValidName(n)
    ensures GetRepository(scheme + Host + o + "/" + n) == Success(Repository(ToLower(o), ToLower(n)))
  {
    var url := scheme + Host + o + "/" + n;
    var r := Repository(ToLower(o), ToLower(n));
    ToLowerUrl(scheme, o, n);
    ToLowerKeepsGroups(o, n);
    assert ToLower(url) == scheme + Host + RepositoryString(r) + [];
    AssembledMatches(scheme, r, []);
    MatchCorrect(ToLower(url), r);
  }

  /** The rendered `owner/name` of accepted groups, behind `github.com/`,
      parses back to the same groups. */
  lemma RenderedRoundTrip(r: Repository)
    requires ValidOwner(r.owner) && ValidName(r.name) && NoUpper(r.owner) && NoUpper(r.name)
    ensures GetRepository(Host + RepositoryString(r)) == Success(r)
  {
    var url := Host + RepositoryString(r);
    EmptySchemeUrl(r.owner, r.name);
    RoundTrip("", r.owner, r.name);
    ToLowerFixed(r.owner);
    ToLowerFixed(r.name);
    assert GetRepository(url) == Success(Repository(ToLower(r.owner), ToLower(r.name)));
  }

  /** A URL without a scheme is `github.com/` followed by the rendered groups. */
  lemma EmptySchemeUrl(o: string, n: string)
    ensures "" + Host + o + "/" + n == Host + RepositoryString(Repository(o, n))
  {
  }

  /** Round trip for an already lower-case owner and name:
      `https://github.com/<o>/<n>` parses to exactly `(o, n)`. */
  lemma RoundTripLowerCase(o: string, n: string)
    requires ValidOwner(o) && ValidName(n) && NoUpper(o) && NoUpper(n)
    ensures GetRepository(Https + Host + o + "/" + n) == Success(Repository(o, n))
  {
    RoundTrip(Https, o, n);
    ToLowerFixed(o);
    ToLowerFixed(n);
  }

  /** A match survives any extension that keeps the character after the name. */
  lemma MatchExtends(s: string, scheme: string, r: Repository, d: char, tail: string)
    requires IsScheme(scheme) && MatchesWith(s, scheme, r) && IsDelimiter(d)
    ensures MatchesWith(s + [d] + tail, scheme, r)
  {
    var longer := s + [d] + tail;
    var end := |scheme| + |Host| + |RepositoryString(r)|;
    assert longer[..|s|] == s;
    assert longer[|scheme| + |Host|..end] == s[|scheme| + |Host|..end];
    if end == |s| {
      assert longer[end] == d;
    } else {
      assert longer[end] == s[end];
    }
  }

  /** Everything after the delimiter is ignored: appending a delimiter and any
      text to an accepted URL leaves the groups unchanged. */
  lemma SuffixIgnored(url: string, d: char, tail: string)
    requires GetRepository(url).Success? && IsDelimiter(d)
    ensures GetRepository(url + [d] + tail) == GetRepository(url)
  {
    var r := GetRepository(url).value;
    var lower := ToLower(url);
    var longer := ToLower(url + [d] + tail);
    ToLowerConcat(url + [d], tail);
    ToLowerConcat(url, [d]);
    ToLowerFixed([d]);
    assert longer == lower + [d] + ToLower(tail);
    var scheme := if MatchesWith(lower, "", r) then "" else if MatchesWith(lower, Http, r) then Http else Https;
    MatchExtends(lower, scheme, r, d, ToLower(tail));
    MatchCorrect(longer, r);
  }

  /** The name must be followed by `/`, `?`, `#` or the end of input: a
      character such as `+` right after the name rejects the URL. */
  lemma RejectsUndelimitedName(scheme: string, o: string, n: string, c: char, tail: string)
    requires IsScheme(scheme) && ValidOwner(o) && ValidName(n)
    requires !IsNameChar(c) && !IsDelimiter(c)
    ensures GetRepository(scheme + Host + o + "/" + n + [c] + tail).Failure?
  {
    var url := scheme + Host + o + "/" + n + [c] + tail;
    var r := Repository(ToLower(o), ToLower(n));
    ToLowerConcat(scheme + Host + o + "/" + n + [c], tail);
    ToLowerConcat(scheme + Host + o + "/" + n, [c]);
    ToLowerUrl(scheme, o, n);
    ToLowerFixed([c]);
    ToLowerKeepsGroups(o, n);
    var s := ToLower(url);
    assert s == scheme + Host + RepositoryString(r) + [c] + ToLower(tail);
    ScanStopsAfterName(s, scheme, r, c);
  }

  /** The scanner gives up when the character after a full name is neither a
      name character nor a delimiter. */
  lemma ScanStopsAfterName(s: string, scheme: string, r: Repository, c: char)
    requires IsScheme(scheme) && ValidOwner(r.owner) && ValidName(r.name)
    requires scheme + Host + RepositoryString(r) + [c] <= s && !IsNameChar(c) && !IsDelimiter(c)
    ensures MatchGithub(s) == None
  {
    PrefixParts(s, scheme + Host, RepositoryString(r), c);
    SchemeStep(s, scheme);
    GroupsStop(s, |scheme| + |Host|, r);
  }

  /** Groups in place followed by a character that neither extends the name
      nor delimits it make the owner and name steps fail. */
  lemma GroupsStop(s: string, i: nat, r: Repository)
    requires ValidOwner(r.owner) && ValidName(r.name)
    requires i + |RepositoryString(r)| < |s| && s[i..i + |RepositoryString(r)|] == RepositoryString(r)
    requires !IsNameChar(s[i + |RepositoryString(r)|]) && !IsDelimiter(s[i + |RepositoryString(r)|])
    ensures MatchOwner(s, i) == None
  {
    OwnerScan(s, i, r);
    NameScan(s, i + |r.owner| + 1, r.name);
  }

  /** A prefix `a + b + [c]` of `s` places `a`, `b` and `c` in `s`. */
  lemma PrefixParts(s: string, a: string, b: string, c: char)
    requires a + b + [c] <= s
    ensures a <= s && s[|a|..|a| + |b|] == b && s[|a| + |b|] == c
  {
    var p := a + b + [c];
    assert s[..|p|] == p;
    assert p[..|a|] == a;
    assert p[|a|..|a| + |b|] == b;
  }

  /** `getRepositoryString` is idempotent: re-parsing its output behind
      `github.com/` renders the same `owner/name`. */
  lemma RepositoryStringIdempotent(url: string)
    requires GetRepositoryString(url).Success?
    ensures GetRepositoryString(Host + GetRepositoryString(url).value) == GetRepositoryString(url)
  {
    var r := GetRepository(url).value;
    assert GetRepositoryString(url) == Success(RepositoryString(r));
    RenderedRoundTrip(r);
  }
}
