/** Non-destructive enrichment of a metric's tags and metadata
    (`Helper_Autometrics::add_required_metadata`, `add_required_tags`,
    `get_host_tags_from_hostname` in php/Autometrics.php): candidate entries
    are added one at a time, each only when its key is absent and its value
    is not PHP-empty. The environment lookups the PHP code performs (request
    id, client address, country, API key, application source, version,
    host name) arrive as an `Environment` value. */
module Enrichment {
  import opened Outcomes
  import opened Php
  import Text

  type Entries = map<string, Value>

  /* ---------- Adding absent, non-empty entries ---------- */

  /** `add_if_not_exists_and_not_empty` for one candidate. */
  function AddIfAbsentNonEmpty(m: Entries, k: string, v: Value): Entries
  {
    if k !in m && !IsEmpty(v) then m[k := v] else m
  }

  /** The candidates added in order. */
  function AddAll(m: Entries, kvs: seq<(string, Value)>): Entries
    decreases |kvs|
  {
    if |kvs| == 0 then m
    else AddAll(AddIfAbsentNonEmpty(m, kvs[0].0, kvs[0].1), kvs[1..])
  }

  /** The first non-empty candidate value for `k`, if any. */
  function FirstNonEmpty(kvs: seq<(string, Value)>, k: string): (r: Option<Value>)
    ensures r.Some? ==> !IsEmpty(r.value)
    ensures r.None? <==> forall i :: 0 <= i < |kvs| && kvs[i].0 == k ==> IsEmpty(kvs[i].1)
  {
    if |kvs| == 0 then None
    else if kvs[0].0 == k && !IsEmpty(kvs[0].1) then Some(kvs[0].1)
    else
      var r := FirstNonEmpty(kvs[1..], k);
      assert forall i :: 1 <= i < |kvs| ==> kvs[i] == kvs[1..][i - 1];
      r
  }

  /** What adding the candidates amounts to: existing entries are kept as
      they are, and each absent key that has a non-empty candidate gets
      the first such candidate. */
  lemma {:induction false} AddAllMeaning(m: Entries, kvs: seq<(string, Value)>)
    ensures forall k :: k in AddAll(m, kvs) <==> k in m || FirstNonEmpty(kvs, k).Some?
    ensures forall k :: k in m ==> AddAll(m, kvs)[k] == m[k]
    ensures forall k :: k !in m && FirstNonEmpty(kvs, k).Some? ==>
      AddAll(m, kvs)[k] == FirstNonEmpty(kvs, k).value
    decreases |kvs|
  {
    if |kvs| > 0 {
      var m1 := AddIfAbsentNonEmpty(m, kvs[0].0, kvs[0].1);
      AddAllMeaning(m1, kvs[1..]);
    }
  }

  /** Enrichment never overwrites an existing entry. */
  lemma AddAllNeverOverwrites(m: Entries, kvs: seq<(string, Value)>, k: string)
    requires k in m
    ensures k in AddAll(m, kvs) && AddAll(m, kvs)[k] == m[k]
  {
    AddAllMeaning(m, kvs);
  }

  /** Enrichment only adds entries with non-empty values. */
  lemma AddAllAddsOnlyNonEmpty(m: Entries, kvs: seq<(string, Value)>, k: string)
    requires k in AddAll(m, kvs) && k !in m
    ensures !IsEmpty(AddAll(m, kvs)[k])
    ensures exists i :: 0 <= i < |kvs| && kvs[i] == (k, AddAll(m, kvs)[k])
  {
    AddAllMeaning(m, kvs);
    FirstNonEmptyIsCandidate(kvs, k);
  }

  /** Enrichment adds only keys among those of the candidates. */
  lemma AddAllNewKeys(m: Entries, kvs: seq<(string, Value)>, keys: set<string>)
    requires forall i :: 0 <= i < |kvs| ==> kvs[i].0 in keys
    ensures forall k :: k in AddAll(m, kvs) && k !in m ==> k in keys
  {
    forall k | k in AddAll(m, kvs) && k !in m
      ensures k in keys
    {
      AddAllAddsOnlyNonEmpty(m, kvs, k);
    }
  }

  lemma {:induction false} FirstNonEmptyIsCandidate(kvs: seq<(string, Value)>, k: string)
    requires FirstNonEmpty(kvs, k).Some?
    ensures exists i :: 0 <= i < |kvs| && kvs[i] == (k, FirstNonEmpty(kvs, k).value)
  {
    if !(kvs[0].0 == k && !IsEmpty(kvs[0].1)) {
      FirstNonEmptyIsCandidate(kvs[1..], k);
      var i :| 0 <= i < |kvs[1..]| && kvs[1..][i] == (k, FirstNonEmpty(kvs, k).value);
      assert kvs[i + 1] == kvs[1..][i];
    } else {
      assert kvs[0] == (k, FirstNonEmpty(kvs, k).value);
    }
  }

  /** Enriching twice with the same candidates is enriching once. */
  lemma AddAllIdempotent(m: Entries, kvs: seq<(string, Value)>)
    ensures AddAll(AddAll(m, kvs), kvs) == AddAll(m, kvs)
  {
    var once := AddAll(m, kvs);
    AddAllMeaning(m, kvs);
    AddAllMeaning(once, kvs);
    assert AddAll(once, kvs).Keys == once.Keys;
  }

  /** A candidate whose key occurs nowhere else decides the key alone. */
  lemma FirstNonEmptyAt(kvs: seq<(string, Value)>, i: nat)
    requires i < |kvs|
    requires forall j :: 0 <= j < |kvs| && j != i ==> kvs[j].0 != kvs[i].0
    ensures FirstNonEmpty(kvs, kvs[i].0) == if IsEmpty(kvs[i].1) then None else Some(kvs[i].1)
  {
    var k := kvs[i].0;
    if FirstNonEmpty(kvs, k).Some? {
      FirstNonEmptyIsCandidate(kvs, k);
    }
  }

  /* ---------- Host tags ---------- */

  /** Characters of the server-type pattern `[-A-Za-z]`. */
  predicate IsServerTypeChar(c: char)
  {
    c == '-' || 'A' <= c <= 'Z' || 'a' <= c <= 'z'
  }

  /** Length of the run of server-type characters starting at `s[0]`. */
  function RunLength(s: string): (n: nat)
    ensures n <= |s|
    ensures forall i :: 0 <= i < n ==> IsServerTypeChar(s[i])
    ensures n < |s| ==> !IsServerTypeChar(s[n])
  {
    if |s| > 0 && IsServerTypeChar(s[0]) then 1 + RunLength(s[1..]) else 0
  }

  /** Index of the first server-type character, or `|s|`. */
  function FirstServerTypeChar(s: string): (i: nat)
    ensures i <= |s|
    ensures i < |s| ==> IsServerTypeChar(s[i])
    ensures forall j :: 0 <= j < i ==> !IsServerTypeChar(s[j])
  {
    if |s| == 0 || IsServerTypeChar(s[0]) then 0 else 1 + FirstServerTypeChar(s[1..])
  }

  /** `preg_match('/[\-A-Za-z]+/', s)`: the leftmost match, extended as far
      as it goes. */
  function ServerTypeMatch(s: string): (r: Option<string>)
    ensures r.None? <==> forall j :: 0 <= j < |s| ==> !IsServerTypeChar(s[j])
    ensures r.Some? ==>
      var i := FirstServerTypeChar(s);
      i + |r.value| <= |s| && r.value == s[i..i + |r.value|]
        && (i + |r.value| < |s| ==> !IsServerTypeChar(s[i + |r.value|]))
    ensures r.Some? ==> |r.value| > 0 && forall j :: 0 <= j < |r.value| ==> IsServerTypeChar(r.value[j])
  {
    var i := FirstServerTypeChar(s);
    if i == |s| then None
    else
      var t := s[i..];
      var n := RunLength(t);
      var w := s[i..i + n];
      assert t[0] == s[i];
      assert |w| == n;
      assert forall j :: 0 <= j < n ==> w[j] == t[j];
      assert i + n < |s| ==> s[i + n] == t[n] && !IsServerTypeChar(s[i + n]);
      Some(w)
  }

  /** The default server type when the host name has no letters. */
  const DefaultUnknown: string := "unspecified"

  /** The server type: the first maximal run of letters and hyphens of the
      host name, or "unspecified". */
  function ServerType(hostname: string): (t: string)
    ensures |t| > 0 && forall j :: 0 <= j < |t| ==> IsServerTypeChar(t[j])
  {
    match ServerTypeMatch(hostname)
    case Some(w) => w
    case None => DefaultUnknown
  }

  lemma ServerTypeNotEmpty(t: string)
    requires |t| > 0 && forall j :: 0 <= j < |t| ==> IsServerTypeChar(t[j])
    ensures !IsEmpty(Str(t))
  {
    assert IsServerTypeChar(t[0]);
  }

  /** The domain candidate: the host-name pieces after the first, joined
      with '.', or null (PHP's undefined offset) when there is no '.'. */
  function DomainOf(hostname: string): (d: Value)
  {
    var parts := Text.Split(hostname, '.');
    if |parts| >= 2 then Str(Text.Join(parts[1..], '.')) else Null
  }

  /** The host candidate: the host name up to the first '.'. */
  function HostOf(hostname: string): Value
  {
    Str(Text.Split(hostname, '.')[0])
  }

  /** Host and domain in terms of the host name itself: everything before
      the first '.', and everything after it (absent without a '.'). */
  lemma HostAndDomain(hostname: string)
    ensures var k := Text.FindChar(hostname, '.');
      && HostOf(hostname) == Str(hostname[..k])
      && (k < |hostname| ==> DomainOf(hostname) == Str(hostname[k + 1..]))
      && (k == |hostname| ==> DomainOf(hostname) == Null)
  {
    var k := Text.FindChar(hostname, '.');
    if k < |hostname| {
      Text.SplitTail(hostname, '.');
    } else {
      assert Text.Split(hostname, '.') == [hostname];
    }
  }

  /** The tag candidates `get_host_tags_from_hostname` derives, in order. */
  function HostTagCandidates(hostname: string): (kvs: seq<(string, Value)>)
    ensures |kvs| == 3
  {
    [("domain", DomainOf(hostname)),
     ("host", HostOf(hostname)),
     ("server_type", Str(ServerType(hostname)))]
  }

  /** The environment the helper consults. */
  datatype Environment = Environment(
    requestId: Value,
    ipAddress: Value,
    countryCode: Value,
    applicationSource: Value,
    apiKey: Value,
    version: Value,
    hostname: string)

  /** Metadata candidates: request id, client address, country code. */
  function MetadataCandidates(env: Environment): seq<(string, Value)>
  {
    [("request_id", env.requestId), ("ip_addr", env.ipAddress), ("country_code", env.countryCode)]
  }

  /** Tag candidates: the host tags, then env, api_key and version. */
  function TagCandidates(env: Environment): seq<(string, Value)>
  {
    HostTagCandidates(env.hostname)
    + [("env", env.applicationSource), ("api_key", env.apiKey), ("version", env.version)]
  }

  /** The tag keys enrichment may add. */
  const RequiredTagKeys: set<string> := {"domain", "host", "server_type", "env", "api_key", "version"}

  /** The tag keys in candidate order. */
  const TagKeyOrder: seq<string> := ["domain", "host", "server_type", "env", "api_key", "version"]

  lemma TagCandidateKeysDistinct(env: Environment)
    ensures var kvs := TagCandidates(env);
      |kvs| == 6 && forall i, j :: 0 <= i < |kvs| && 0 <= j < |kvs| && i != j ==> kvs[i].0 != kvs[j].0
    ensures forall i :: 0 <= i < |TagCandidates(env)| ==> TagCandidates(env)[i].0 in RequiredTagKeys
  {
    TagCandidateKeyOrder(env);
    TagKeyOrderDistinct();
    TagKeyOrderKnown();
  }

  lemma TagCandidateKeyOrder(env: Environment)
    ensures |TagCandidates(env)| == 6
    ensures forall i :: 0 <= i < 6 ==> TagCandidates(env)[i].0 == TagKeyOrder[i]
  {
  }

  lemma TagKeyOrderDistinct()
    ensures forall i, j :: 0 <= i < 6 && 0 <= j < 6 && i != j ==> TagKeyOrder[i] != TagKeyOrder[j]
  {
    assert TagKeyOrder[4][0] != TagKeyOrder[5][0];
  }

  lemma TagKeyOrderKnown()
    ensures forall i :: 0 <= i < 6 ==> TagKeyOrder[i] in RequiredTagKeys
  {
  }

  /** `add_required_metadata`. */
  function AddRequiredMetadata(meta: Entries, env: Environment): (r: Entries)
    ensures forall k :: k in meta ==> k in r && r[k] == meta[k]
    ensures forall k :: k in r && k !in meta ==> k in {"request_id", "ip_addr", "country_code"}
    ensures "request_id" in r <==> "request_id" in meta || !IsEmpty(env.requestId)
    ensures "ip_addr" in r <==> "ip_addr" in meta || !IsEmpty(env.ipAddress)
    ensures "country_code" in r <==> "country_code" in meta || !IsEmpty(env.countryCode)
    ensures "request_id" !in meta && !IsEmpty(env.requestId) ==> "request_id" in r && r["request_id"] == env.requestId
    ensures "ip_addr" !in meta && !IsEmpty(env.ipAddress) ==> "ip_addr" in r && r["ip_addr"] == env.ipAddress
    ensures "country_code" !in meta && !IsEmpty(env.countryCode) ==> "country_code" in r && r["country_code"] == env.countryCode
  {
    var kvs := MetadataCandidates(env);
    AddAllMeaning(meta, kvs);
    FirstNonEmptyAt(kvs, 0);
    FirstNonEmptyAt(kvs, 1);
    FirstNonEmptyAt(kvs, 2);
    AddAll(meta, kvs)
  }

  /** `add_required_tags`: the host tags first (so a pre-existing `domain`,
      `host` or `server_type` is kept), then env, api_key and version. */
  function AddRequiredTags(tags: Entries, env: Environment): (r: Entries)
    ensures forall k :: k in tags ==> k in r && r[k] == tags[k]
    ensures forall k :: k in r && k !in tags ==>
      k in RequiredTagKeys
    ensures "server_type" in r
    ensures "server_type" !in tags ==> r["server_type"] == Str(ServerType(env.hostname))
    ensures "host" !in tags && !IsEmpty(HostOf(env.hostname)) ==> "host" in r && r["host"] == HostOf(env.hostname)
    ensures "domain" !in tags && !IsEmpty(DomainOf(env.hostname)) ==> "domain" in r && r["domain"] == DomainOf(env.hostname)
  {
    var kvs := TagCandidates(env);
    TagCandidateKeysDistinct(env);
    AddAllMeaning(tags, kvs);
    FirstNonEmptyAt(kvs, 0);
    FirstNonEmptyAt(kvs, 1);
    FirstNonEmptyAt(kvs, 2);
    ServerTypeNotEmpty(ServerType(env.hostname));
    AddAllNewKeys(tags, kvs, RequiredTagKeys);
    AddAll(tags, kvs)
  }

  /** The environment tags: each is present afterwards exactly when it was
      already there or the environment supplies a non-empty value, which is
      then the one recorded. */
  lemma AddRequiredTagsEnvironment(tags: Entries, env: Environment)
    ensures var r := AddRequiredTags(tags, env);
      && ("env" in r <==> "env" in tags || !IsEmpty(env.applicationSource))
      && ("env" !in tags && !IsEmpty(env.applicationSource) ==> r["env"] == env.applicationSource)
      && ("api_key" in r <==> "api_key" in tags || !IsEmpty(env.apiKey))
      && ("api_key" !in tags && !IsEmpty(env.apiKey) ==> r["api_key"] == env.apiKey)
      && ("version" in r <==> "version" in tags || !IsEmpty(env.version))
      && ("version" !in tags && !IsEmpty(env.version) ==> r["version"] == env.version)
  {
    var kvs := TagCandidates(env);
    TagCandidateKeysDistinct(env);
    AddAllMeaning(tags, kvs);
    FirstNonEmptyAt(kvs, 3);
    FirstNonEmptyAt(kvs, 4);
    FirstNonEmptyAt(kvs, 5);
  }

  /** The host tags: `host` and `domain` are present afterwards exactly
      when they were already there or the host name yields a non-empty
      candidate. */
  lemma AddRequiredTagsHostTags(tags: Entries, env: Environment)
    ensures var r := AddRequiredTags(tags, env);
      && ("host" in r <==> "host" in tags || !IsEmpty(HostOf(env.hostname)))
      && ("domain" in r <==> "domain" in tags || !IsEmpty(DomainOf(env.hostname)))
  {
    var kvs := TagCandidates(env);
    TagCandidateKeysDistinct(env);
    AddAllMeaning(tags, kvs);
    FirstNonEmptyAt(kvs, 0);
    FirstNonEmptyAt(kvs, 1);
  }

  /** Worked example: "web-01.prod.example.com" gives host "web-01" and
      domain "prod.example.com". */
  lemma HostTagsExample()
    ensures HostOf("web-01.prod.example.com") == Str("web-01")
    ensures DomainOf("web-01.prod.example.com") == Str("prod.example.com")
  {
    assert "web-01.prod.example.com" == "web-01" + "." + "prod.example.com";
    HostTagsOfDotted("web-01", "prod.example.com");
  }

  /** A host name with a dot after a dot-free first piece: the host is that
      piece and the domain everything after the dot. */
  lemma HostTagsOfDotted(a: string, b: string)
    requires forall j :: 0 <= j < |a| ==> a[j] != '.'
    ensures HostOf(a + "." + b) == Str(a)
    ensures DomainOf(a + "." + b) == Str(b)
  {
    var h := a + "." + b;
    assert h[|a|] == '.';
    assert forall j :: 0 <= j < |a| ==> h[j] == a[j];
    HostAndDomain(h);
    assert h[..|a|] == a;
    assert h[|a| + 1..] == b;
  }

  /** Worked example: the server type of "web-01.prod.example.com" is
      "web-": the first run stops at the digit. */
  lemma ServerTypeExample()
    ensures ServerType("web-01.prod.example.com") == "web-"
  {
    var h := "web-01.prod.example.com";
    assert IsServerTypeChar(h[0]);
    assert FirstServerTypeChar(h) == 0;
    RunExample(h);
    assert h[0..4] == "web-";
  }

  lemma RunExample(h: string)
    requires h == "web-01.prod.example.com"
    ensures RunLength(h) == 4
  {
    assert forall j :: 0 <= j < 4 ==> IsServerTypeChar(h[j]);
    assert !IsServerTypeChar(h[4]);
    RunLengthExact(h, 4);
  }

  /** A run of n server-type characters followed by another character (or
      the end) has length n. */
  lemma {:induction false} RunLengthExact(s: string, n: nat)
    requires n <= |s|
    requires forall j :: 0 <= j < n ==> IsServerTypeChar(s[j])
    requires n < |s| ==> !IsServerTypeChar(s[n])
    ensures RunLength(s) == n
  {
    if n > 0 {
      RunLengthExact(s[1..], n - 1);
    }
  }
}
