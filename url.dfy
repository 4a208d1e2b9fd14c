/**
 * The Postman `Url` object: the host and path segments it is built from, the `raw`
 * address text the constructor assembles from them and the query parameters, and the
 * fields `JsonSerialize` hands to the JSON encoder.
 */
module PostmanUrl {
  import opened Wrappers
  import opened PhpString

  /** One query parameter. */
  datatype Query = Query(key: string, value: string)

  /** The host segments used when none are given. */
  const DefaultHost: seq<string> := ["{{URL}}"]

  /** The text one parameter adds to `raw`: `?$`, the key, `=`, the value. */
  function QuerySuffix(q: Query): (r: string)
    ensures |r| == |q.key| + |q.value| + 3
    ensures r[..2] == "?$" && r[2..2 + |q.key|] == q.key && r[2 + |q.key|] == '='
    ensures r[3 + |q.key|..] == q.value
  {
    "?$" + q.key + "=" + q.value
  }

  /** The suffixes of the parameters, in order. */
  function QueryText(qs: seq<Query>): string {
    if |qs| == 0 then "" else QueryText(qs[..|qs| - 1]) + QuerySuffix(qs[|qs| - 1])
  }

  /**
   * PHP's loose `$query != null`: an absent query and an empty array both compare equal
   * to `null`.
   */
  predicate HasQuery(query: Option<seq<Query>>) {
    query.Some? && |query.value| > 0
  }

  /** The address without parameters: host then path segments, joined by `/`. */
  function Base(host: seq<string>, path: seq<string>): string {
    Join(host + path, "/")
  }

  /** The `raw` text the constructor builds. */
  function Raw(host: seq<string>, path: seq<string>, query: Option<seq<Query>>): string {
    Base(host, path) + if HasQuery(query) then QueryText(query.value) else ""
  }

  /** The `foreach ($query as $param)` loop: each parameter's suffix appended in turn. */
  method AppendQuery(base: string, qs: seq<Query>) returns (r: string)
    ensures r == base + QueryText(qs)
  {
    r := base;
    var i := 0;
    while i < |qs|
      invariant 0 <= i <= |qs|
      invariant r == base + QueryText(qs[..i])
    {
      assert qs[..i + 1][..i] == qs[..i];
      r := r + QuerySuffix(qs[i]);
      i := i + 1;
    }
    assert qs[..|qs|] == qs;
  }

  /** What `JsonSerialize` returns: `query` present only when it is set and non-empty. */
  datatype UrlJson = UrlJson(raw: string, path: seq<string>, host: seq<string>, query: Option<seq<Query>>)

  class Url {
    const path: seq<string>
    const host: seq<string>
    const raw: string
    const query: Option<seq<Query>>

    /** `new Url($pathSegments, $hostSegments, $query)`. */
    constructor(pathSegments: seq<string>, hostSegments: seq<string>, query: Option<seq<Query>>)
      ensures path == pathSegments && host == hostSegments && this.query == query
      ensures raw == Raw(hostSegments, pathSegments, query)
    {
      path := pathSegments;
      host := hostSegments;
      var r := Join(hostSegments + pathSegments, "/");
      if query.Some? && query.value != [] {
        r := AppendQuery(r, query.value);
      }
      raw := r;
      this.query := query;
    }

    /** `new Url($pathSegments)`: the host defaults to `{{URL}}`. */
    constructor WithDefaultHost(pathSegments: seq<string>, query: Option<seq<Query>>)
      ensures path == pathSegments && host == DefaultHost && this.query == query
      ensures raw == Raw(DefaultHost, pathSegments, query)
    {
      path := pathSegments;
      host := DefaultHost;
      var r := Join(DefaultHost + pathSegments, "/");
      if query.Some? && query.value != [] {
        r := AppendQuery(r, query.value);
      }
      raw := r;
      this.query := query;
    }

    /** `JsonSerialize()`. */
    function JsonSerialize(): (r: UrlJson)
      ensures r.raw == raw && r.path == path && r.host == host
      ensures r.query.Some? <==> HasQuery(query)
      ensures r.query.Some? ==> r.query == query
    {
      UrlJson(raw, path, host, if query != None && query.value != [] then query else None)
    }
  }

  /** The parameters' text is the concatenation of each one's, in order. */
  lemma {:induction false} QueryTextAppend(a: seq<Query>, b: seq<Query>)
    ensures QueryText(a + b) == QueryText(a) + QueryText(b)
    decreases |b|
  {
    if |b| == 0 {
      assert a + b == a;
    } else {
      var b' := b[..|b| - 1];
      assert (a + b)[..|a + b| - 1] == a + b';
      assert (a + b)[|a + b| - 1] == b[|b| - 1];
      QueryTextAppend(a, b');
    }
  }

  /** The text of a single parameter. */
  lemma {:induction false} QueryTextOne(q: Query)
    ensures QueryText([q]) == QuerySuffix(q)
  {
    assert [q][..0] == [];
  }

  /** The number of characters the parameters add. */
  function Total(qs: seq<Query>): nat {
    if |qs| == 0 then 0 else |qs[0].key| + |qs[0].value| + 3 + Total(qs[1..])
  }

  /** Each parameter adds exactly its key, its value and three characters. */
  lemma {:induction false} QueryTextLength(qs: seq<Query>)
    ensures |QueryText(qs)| == Total(qs)
  {
    if |qs| > 0 {
      QueryTextLength(qs[..|qs| - 1]);
      TotalSnoc(qs[..|qs| - 1], qs[|qs| - 1]);
      assert qs[..|qs| - 1] + [qs[|qs| - 1]] == qs;
    }
  }

  /** One more parameter adds its key, its value and three characters. */
  lemma {:induction false} TotalSnoc(qs: seq<Query>, q: Query)
    ensures Total(qs + [q]) == Total(qs) + |q.key| + |q.value| + 3
  {
    if |qs| == 0 {
      assert [q][1..] == [];
    } else {
      assert (qs + [q])[1..] == qs[1..] + [q];
      TotalSnoc(qs[1..], q);
    }
  }

  /** Without parameters (absent or empty), `raw` is the joined segments alone. */
  lemma {:induction false} NoQueryRaw(host: seq<string>, path: seq<string>, query: Option<seq<Query>>)
    requires !HasQuery(query)
    ensures Raw(host, path, query) == Join(host + path, "/")
  {
    assert Base(host, path) + "" == Base(host, path);
  }

  /** The parameters only ever extend the joined segments: `raw` starts with them. */
  lemma {:induction false} RawStartsWithBase(host: seq<string>, path: seq<string>, query: Option<seq<Query>>)
    ensures StartsWith(Raw(host, path, query), Join(host + path, "/"))
  {
    var b := Base(host, path);
    var t := if HasQuery(query) then QueryText(query.value) else "";
    assert (b + t)[..|b|] == b;
  }

  /**
   * Without parameters and with segments free of `/`, splitting `raw` at `/` gives back
   * the host segments followed by the path segments.
   */
  lemma {:induction false} RawSegments(host: seq<string>, path: seq<string>, query: Option<seq<Query>>)
    requires |host + path| >= 1 && !HasQuery(query)
    requires forall k :: 0 <= k < |host + path| ==> '/' !in (host + path)[k]
    ensures Split(Raw(host, path, query), "/") == host + path
  {
    NoQueryRaw(host, path, query);
    var ps := host + path;
    forall k, i | 0 <= k < |ps| && 0 <= i && i + 1 <= |ps[k]|
      ensures !OccursAt(ps[k], "/", i)
    {
      assert ps[k][i..i + 1][0] == ps[k][i];
    }
    assert NoBorder("/");
    SplitJoin(ps, "/");
  }
}
