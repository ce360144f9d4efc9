/** Reading the URLs of all registered endpoints, and the hash that detects changes of them. */
module EndpointUrls {
  import opened Sequences
  import opened StringOrder
  import opened Wrappers
  import opened EndpointModel

  /** A KeystoneEndpoint: the value of its service label, and the endpoints in its status. */
  datatype Resource = Resource(service: Option<string>, endpoints: seq<Endpoint>)

  // ----- Which URLs are meant -----

  /** A resource is read if no services were named, or if its label names one of them. */
  predicate Wanted(r: Resource, services: seq<string>) {
    services == [] || (r.service.Some? && r.service.value in services)
  }

  /** All URLs of a status list, or the one of the given interface. */
  ghost function UrlsOf(endpoints: seq<Endpoint>, visibility: Option<string>): multiset<string> {
    if endpoints == [] then multiset{}
    else
      var e, rest := endpoints[0], endpoints[1..];
      match visibility
      case None => multiset{e.url} + UrlsOf(rest, None)
      case Some(v) => if e.interface == v then multiset{e.url} else UrlsOf(rest, visibility)
  }

  ghost function UrlsIf(r: Resource, services: seq<string>, visibility: Option<string>): multiset<string> {
    if Wanted(r, services) then UrlsOf(r.endpoints, visibility) else multiset{}
  }

  ghost function Total(rs: seq<Resource>, services: seq<string>, visibility: Option<string>): multiset<string> {
    if rs == [] then multiset{}
    else UrlsIf(rs[0], services, visibility) + Total(rs[1..], services, visibility)
  }

  // ----- The code -----

  /** getEndpointForVisibility */
  function EndpointForVisibility(endpoints: seq<Endpoint>, visibility: string): (e: Option<Endpoint>)
    ensures UrlsOf(endpoints, Some(visibility)) == if e.Some? then multiset{e.value.url} else multiset{}
  {
    var i := EndpointIdx(visibility, endpoints);
    FirstUrl(endpoints, visibility);
    if i >= 0 then Some(endpoints[i]) else None
  }

  lemma {:induction false} FirstUrl(endpoints: seq<Endpoint>, v: string)
    ensures var i := EndpointIdx(v, endpoints);
            UrlsOf(endpoints, Some(v)) == if i >= 0 then multiset{endpoints[i].url} else multiset{}
    decreases |endpoints|
  {
    if endpoints != [] && endpoints[0].interface != v {
      FirstUrl(endpoints[1..], v);
    }
  }

  /** The URLs of one resource that filterVisibility appends. */
  method AppendUrls(urls: seq<string>, r: Resource, visibility: Option<string>) returns (all: seq<string>)
    ensures multiset(all) == multiset(urls) + UrlsOf(r.endpoints, visibility)
  {
    all := urls;
    if visibility.Some? {
      var e := EndpointForVisibility(r.endpoints, visibility.value);
      if e.Some? {
        all := all + [e.value.url];
      }
    } else {
      var j := 0;
      while j < |r.endpoints|
        invariant 0 <= j <= |r.endpoints|
        invariant multiset(all) + UrlsOf(r.endpoints[j..], None) == multiset(urls) + UrlsOf(r.endpoints, None)
      {
        assert r.endpoints[j..][1..] == r.endpoints[j + 1..];
        Regroup(multiset(all), multiset{r.endpoints[j].url}, UrlsOf(r.endpoints[j + 1..], None));
        all := all + [r.endpoints[j].url];
        j := j + 1;
      }
    }
  }

  lemma Regroup(a: multiset<string>, b: multiset<string>, c: multiset<string>)
    ensures a + (b + c) == (a + b) + c && a + (b + c) == b + (a + c)
  {
  }

  /** filterVisibility */
  method FilterVisibility(rs: seq<Resource>, visibility: Option<string>) returns (urls: seq<string>)
    ensures Sorted(urls) && multiset(urls) == Total(rs, [], visibility)
  {
    urls := [];
    var i := 0;
    while i < |rs|
      invariant 0 <= i <= |rs|
      invariant multiset(urls) + Total(rs[i..], [], visibility) == Total(rs, [], visibility)
    {
      assert rs[i..][1..] == rs[i + 1..];
      Regroup(multiset(urls), UrlsOf(rs[i].endpoints, visibility), Total(rs[i + 1..], [], visibility));
      urls := AppendUrls(urls, rs[i], visibility);
      i := i + 1;
    }
    urls := Sort(urls);
  }

  function Filtered(rs: seq<Resource>, services: seq<string>): seq<Resource> {
    if rs == [] then []
    else if rs[0].service.Some? && rs[0].service.value in services then [rs[0]] + Filtered(rs[1..], services)
    else Filtered(rs[1..], services)
  }

  /** filterServices */
  method FilterServices(rs: seq<Resource>, services: seq<string>) returns (kept: seq<Resource>)
    ensures kept == Filtered(rs, services)
  {
    var toKeep: set<string> := {};
    var j := 0;
    while j < |services|
      invariant 0 <= j <= |services|
      invariant forall s :: s in toKeep <==> s in services[..j]
    {
      toKeep := toKeep + {services[j]};
      j := j + 1;
    }
    assert services[..j] == services;
    kept := [];
    var i := 0;
    while i < |rs|
      invariant 0 <= i <= |rs|
      invariant kept + Filtered(rs[i..], services) == Filtered(rs, services)
    {
      assert rs[i..][1..] == rs[i + 1..] && rs[i..][0] == rs[i];
      if rs[i].service.Some? && rs[i].service.value in toKeep {
        kept := kept + [rs[i]];
      }
      i := i + 1;
    }
  }

  lemma {:induction false} FilteredTotal(rs: seq<Resource>, services: seq<string>, visibility: Option<string>)
    requires services != []
    ensures Total(Filtered(rs, services), [], visibility) == Total(rs, services, visibility)
    decreases |rs|
  {
    if rs != [] {
      FilteredTotal(rs[1..], services, visibility);
      var f := Filtered(rs[1..], services);
      assert ([rs[0]] + f)[1..] == f;
    }
  }

  /** GetKeystoneEndpointUrlsForServices, given the listed resources. */
  method UrlsForServices(rs: seq<Resource>, visibility: Option<string>, services: seq<string>)
    returns (urls: seq<string>)
    ensures Sorted(urls) && multiset(urls) == Total(rs, services, visibility)
  {
    var kept := rs;
    if |services| > 0 {
      kept := FilterServices(rs, services);
      FilteredTotal(rs, services, visibility);
    }
    urls := FilterVisibility(kept, visibility);
  }

  /** GetHashforKeystoneEndpointUrlsForServices; objectHash stands for the hash of a list. */
  method HashForServices(rs: seq<Resource>, visibility: Option<string>, services: seq<string>,
                         objectHash: seq<string> -> string)
    returns (hash: string)
    ensures hash == Hash(Total(rs, services, visibility), objectHash)
    ensures if Total(rs, services, visibility) == multiset{} then hash == ""
            else exists urls :: Sorted(urls) && multiset(urls) == Total(rs, services, visibility)
                                && hash == objectHash(urls)
  {
    hash := "";
    var urls := UrlsForServices(rs, visibility, services);
    SortedUnique(urls, SortedList(Total(rs, services, visibility)));
    if |urls| > 0 {
      hash := objectHash(urls);
    }
  }

  /** The sorted list of the elements of m. */
  ghost function SortedList(m: multiset<string>): (s: seq<string>)
    ensures Sorted(s) && multiset(s) == m
    decreases |m|
  {
    if m == multiset{} then []
    else
      var x :| x in m;
      assert m - multiset{x} + multiset{x} == m;
      Insert(x, SortedList(m - multiset{x}))
  }

  ghost function Hash(m: multiset<string>, objectHash: seq<string> -> string): string {
    if m == multiset{} then "" else objectHash(SortedList(m))
  }

  /** If the hash of lists does not collide and is never empty, the hash changes exactly when the
      URLs do, counting how often each occurs. */
  lemma ChangeDetectedIff(a: multiset<string>, b: multiset<string>, objectHash: seq<string> -> string)
    requires forall s, t :: objectHash(s) == objectHash(t) ==> s == t
    requires forall s :: objectHash(s) != ""
    ensures Hash(a, objectHash) == Hash(b, objectHash) <==> a == b
  {
    assert multiset(SortedList(a)) == a && multiset(SortedList(b)) == b;
  }

  // ----- Whose URLs these are -----

  /** Entry i of this resource says u, and is asked for: the resource's label is among the services, if any
      are named, and it is the first entry of the visibility, if one is named. */
  ghost predicate Says(r: Resource, i: nat, services: seq<string>, visibility: Option<string>, u: string) {
    && i < |r.endpoints| && r.endpoints[i].url == u
    && (services == [] || exists s | s in services :: r.service == Some(s))
    && (visibility.Some? ==>
          && r.endpoints[i].interface == visibility.value
          && forall j: nat | j < i :: r.endpoints[j].interface != visibility.value)
  }

  lemma {:induction false} AllUrlsIff(endpoints: seq<Endpoint>, u: string)
    ensures u in UrlsOf(endpoints, None) <==> exists i: nat :: i < |endpoints| && endpoints[i].url == u
    decreases |endpoints|
  {
    if endpoints != [] {
      AllUrlsIff(endpoints[1..], u);
      if i: nat :| i < |endpoints| && endpoints[i].url == u {
        assert i > 0 ==> endpoints[1..][i - 1].url == u;
      }
      if i: nat :| i < |endpoints| - 1 && endpoints[1..][i].url == u {
        assert endpoints[i + 1].url == u;
      }
    }
  }

  lemma UrlsIfIff(r: Resource, services: seq<string>, visibility: Option<string>, u: string)
    ensures u in UrlsIf(r, services, visibility) <==> exists i: nat :: Says(r, i, services, visibility, u)
  {
    assert Wanted(r, services) <==> services == [] || exists s | s in services :: r.service == Some(s);
    match visibility
    case None =>
      AllUrlsIff(r.endpoints, u);
      if Wanted(r, services) && exists i: nat :: i < |r.endpoints| && r.endpoints[i].url == u {
        var i: nat :| i < |r.endpoints| && r.endpoints[i].url == u;
        assert Says(r, i, services, visibility, u);
      }
    case Some(v) =>
      FirstUrl(r.endpoints, v);
      var i := EndpointIdx(v, r.endpoints);
      if i >= 0 && Wanted(r, services) && r.endpoints[i].url == u {
        assert Says(r, i, services, visibility, u);
      }
  }

  /** A URL is read exactly if some entry that is asked for says it. */
  lemma {:induction false} ReadIff(rs: seq<Resource>, services: seq<string>, visibility: Option<string>, u: string)
    ensures u in Total(rs, services, visibility) <==>
            exists k: nat, i: nat :: k < |rs| && Says(rs[k], i, services, visibility, u)
    decreases |rs|
  {
    if rs != [] {
      ReadIff(rs[1..], services, visibility, u);
      UrlsIfIff(rs[0], services, visibility, u);
      if k: nat, i: nat :| k < |rs| && Says(rs[k], i, services, visibility, u) {
        assert k > 0 ==> rs[1..][k - 1] == rs[k];
      }
      if k: nat, i: nat :| k < |rs| - 1 && Says(rs[1..][k], i, services, visibility, u) {
        assert rs[k + 1] == rs[1..][k];
      }
    }
  }

  // ----- Only the content matters -----

  /** What a resource says, without the order of its status list. */
  ghost function Content(r: Resource): (Option<string>, multiset<Endpoint>) {
    (r.service, multiset(r.endpoints))
  }

  ghost function Contents(rs: seq<Resource>): multiset<(Option<string>, multiset<Endpoint>)> {
    if rs == [] then multiset{} else multiset{Content(rs[0])} + Contents(rs[1..])
  }

  /** All entries for v have the same URL. */
  ghost predicate Agree(endpoints: multiset<Endpoint>, v: string) {
    forall e, f | e in endpoints && f in endpoints && e.interface == v && f.interface == v :: e.url == f.url
  }

  lemma EachOnceAgrees(endpoints: seq<Endpoint>, v: string)
    requires EachOnce(endpoints)
    ensures Agree(multiset(endpoints), v)
  {
    assert forall e :: e in multiset(endpoints) <==> e in endpoints;
  }

  lemma Partner(a: seq<Endpoint>, b: seq<Endpoint>) returns (j: nat)
    requires multiset(a) == multiset(b) && a != []
    ensures j < |b| && b[j] == a[0] && multiset(a[1..]) == multiset(b[..j] + b[j + 1..])
  {
    j := IndexOf(b, a[0]);
    MultisetHead(a);
    MultisetRest(b, j);
  }

  lemma IndexOf(s: seq<Endpoint>, e: Endpoint) returns (j: nat)
    requires e in multiset(s)
    ensures j < |s| && s[j] == e
  {
    assert e in s;
    j :| j < |s| && s[j] == e;
  }

  lemma MultisetHead(s: seq<Endpoint>)
    requires s != []
    ensures multiset(s[1..]) == multiset(s) - multiset{s[0]} && s[0] in multiset(s)
  {
    assert s == [s[0]] + s[1..];
  }

  lemma MultisetRest(s: seq<Endpoint>, j: nat)
    requires j < |s|
    ensures multiset(s[..j] + s[j + 1..]) == multiset(s) - multiset{s[j]}
  {
    assert s == s[..j] + [s[j]] + s[j + 1..];
  }

  /** All URLs together are a function of the content. */
  lemma {:induction false} AllOfContent(a: seq<Endpoint>, b: seq<Endpoint>)
    requires multiset(a) == multiset(b)
    ensures UrlsOf(a, None) == UrlsOf(b, None)
    decreases |a|
  {
    if a == [] {
      assert |multiset(b)| == 0;
    } else {
      var j := Partner(a, b);
      AllOfContent(a[1..], b[..j] + b[j + 1..]);
      UrlsOfSplit(b, j);
    }
  }

  /** So is the one of an interface, if its entries agree. */
  lemma OneOfContent(a: seq<Endpoint>, b: seq<Endpoint>, v: string)
    requires multiset(a) == multiset(b) && Agree(multiset(a), v)
    ensures UrlsOf(a, Some(v)) == UrlsOf(b, Some(v))
  {
    FirstUrl(a, v);
    FirstUrl(b, v);
    var i, j := EndpointIdx(v, a), EndpointIdx(v, b);
    assert i >= 0 ==> a[i] in multiset(b);
    assert j >= 0 ==> b[j] in multiset(a);
    assert forall e :: e in multiset(a) <==> e in a;
    assert forall e :: e in multiset(b) <==> e in b;
  }

  lemma {:induction false} UrlsOfSplit(b: seq<Endpoint>, j: nat)
    requires j < |b|
    ensures UrlsOf(b, None) == multiset{b[j].url} + UrlsOf(b[..j] + b[j + 1..], None)
    decreases |b|
  {
    var c := b[..j] + b[j + 1..];
    if j == 0 {
      assert c == b[1..];
    } else {
      UrlsOfSplit(b[1..], j - 1);
      assert c[1..] == b[1..][..j - 1] + b[1..][j..];
    }
  }

  ghost predicate AllAgree(rs: seq<Resource>, v: string) {
    forall r | r in rs :: Agree(multiset(r.endpoints), v)
  }

  lemma {:induction false} TotalSplit(rs: seq<Resource>, j: nat, services: seq<string>, visibility: Option<string>)
    requires j < |rs|
    ensures Total(rs, services, visibility) ==
            UrlsIf(rs[j], services, visibility) + Total(rs[..j] + rs[j + 1..], services, visibility)
    decreases |rs|
  {
    var c := rs[..j] + rs[j + 1..];
    if j == 0 {
      assert c == rs[1..];
    } else {
      TotalSplit(rs[1..], j - 1, services, visibility);
      assert c[1..] == rs[1..][..j - 1] + rs[1..][j..];
      Regroup(UrlsIf(rs[0], services, visibility), UrlsIf(rs[j], services, visibility),
              Total(c[1..], services, visibility));
    }
  }

  lemma {:induction false} ContentsSplit(rs: seq<Resource>, j: nat)
    requires j < |rs|
    ensures Contents(rs) == multiset{Content(rs[j])} + Contents(rs[..j] + rs[j + 1..])
    decreases |rs|
  {
    var c := rs[..j] + rs[j + 1..];
    if j == 0 {
      assert c == rs[1..];
    } else {
      ContentsSplit(rs[1..], j - 1);
      assert c[1..] == rs[1..][..j - 1] + rs[1..][j..];
    }
  }

  lemma {:induction false} ContentFound(rs: seq<Resource>, c: (Option<string>, multiset<Endpoint>)) returns (j: nat)
    requires c in Contents(rs)
    ensures j < |rs| && Content(rs[j]) == c
    decreases |rs|
  {
    if Content(rs[0]) == c {
      j := 0;
    } else {
      j := ContentFound(rs[1..], c);
      j := j + 1;
    }
  }

  lemma ContentPartner(a: seq<Resource>, b: seq<Resource>) returns (j: nat)
    requires Contents(a) == Contents(b) && a != []
    ensures j < |b| && Content(b[j]) == Content(a[0]) && Contents(a[1..]) == Contents(b[..j] + b[j + 1..])
  {
    assert Content(a[0]) in Contents(b);
    j := ContentFound(b, Content(a[0]));
    ContentsSplit(b, j);
    assert Contents(a[1..]) == Contents(a) - multiset{Content(a[0])};
    assert Contents(b[..j] + b[j + 1..]) == Contents(b) - multiset{Content(a[0])};
  }

  lemma UrlsIfOfContent(r: Resource, q: Resource, services: seq<string>, visibility: Option<string>)
    requires Content(r) == Content(q) && (visibility.Some? ==> Agree(multiset(r.endpoints), visibility.value))
    ensures UrlsIf(r, services, visibility) == UrlsIf(q, services, visibility)
  {
    if visibility.Some? {
      OneOfContent(r.endpoints, q.endpoints, visibility.value);
    } else {
      AllOfContent(r.endpoints, q.endpoints);
    }
  }

  /** Reordering the resources, and the status list of any of them, changes neither the URLs nor,
      then, the list and the hash: they are functions of the multiset of contents. */
  lemma {:induction false} TotalOfContents(a: seq<Resource>, b: seq<Resource>, services: seq<string>,
                                           visibility: Option<string>)
    requires Contents(a) == Contents(b) && (visibility.Some? ==> AllAgree(a, visibility.value))
    ensures Total(a, services, visibility) == Total(b, services, visibility)
    decreases |a|
  {
    if a == [] {
      assert b == [];
    } else {
      var j := ContentPartner(a, b);
      UrlsIfOfContent(a[0], b[j], services, visibility);
      TotalSplit(b, j, services, visibility);
      TotalOfContents(a[1..], b[..j] + b[j + 1..], services, visibility);
    }
  }

  /** The order of a status list does not matter for an interface exactly when all its entries for
      that interface have the same URL. */
  lemma OrderFreeIff(a: seq<Endpoint>, v: string)
    ensures (forall b | multiset(b) == multiset(a) :: UrlsOf(b, Some(v)) == UrlsOf(a, Some(v))) <==>
            Agree(multiset(a), v)
  {
    if Agree(multiset(a), v) {
      forall b | multiset(b) == multiset(a)
        ensures UrlsOf(b, Some(v)) == UrlsOf(a, Some(v))
      {
        OneOfContent(a, b, v);
      }
    } else {
      var e, f :| e in multiset(a) && f in multiset(a) && e.interface == v && f.interface == v && e.url != f.url;
      var b, c := ToFront(a, e), ToFront(a, f);
      assert UrlsOf(b, Some(v)) == multiset{e.url} && UrlsOf(c, Some(v)) == multiset{f.url};
      assert e.url !in multiset{f.url};
      assert UrlsOf(b, Some(v)) != UrlsOf(a, Some(v)) || UrlsOf(c, Some(v)) != UrlsOf(a, Some(v));
    }
  }

  ghost function ToFront(a: seq<Endpoint>, e: Endpoint): (b: seq<Endpoint>)
    requires e in a
    ensures multiset(b) == multiset(a) && b != [] && b[0] == e
  {
    var j: nat :| j < |a| && a[j] == e;
    assert a == a[..j] + [a[j]] + a[j + 1..];
    [e] + a[..j] + a[j + 1..]
  }

  // ----- All URLs are the sum over the visibilities -----

  ghost function SumOf(endpoints: seq<Endpoint>, vs: seq<string>): multiset<string> {
    if vs == [] then multiset{} else UrlsOf(endpoints, Some(vs[0])) + SumOf(endpoints, vs[1..])
  }

  /** The URLs of the entries that come after another one of the same interface. */
  ghost function Hidden(endpoints: seq<Endpoint>): multiset<string> {
    if endpoints == [] then multiset{}
    else UrlsOf(endpoints[1..], Some(endpoints[0].interface)) + Hidden(endpoints[1..])
  }

  lemma {:induction false} SumOfFirst(endpoints: seq<Endpoint>, vs: seq<string>)
    requires endpoints != [] && Distinct(vs)
    ensures var e, rest := endpoints[0], endpoints[1..];
            if e.interface in vs then
              SumOf(endpoints, vs) + UrlsOf(rest, Some(e.interface)) == multiset{e.url} + SumOf(rest, vs)
            else SumOf(endpoints, vs) == SumOf(rest, vs)
    decreases |vs|
  {
    if vs != [] {
      var e, rest := endpoints[0], endpoints[1..];
      assert Distinct(vs[1..]) && vs[0] !in vs[1..];
      SumOfFirst(endpoints, vs[1..]);
      var url, hidden, here := multiset{e.url}, UrlsOf(rest, Some(e.interface)), UrlsOf(endpoints, Some(vs[0]));
      if vs[0] == e.interface {
        assert SumOf(endpoints, vs) == url + SumOf(rest, vs[1..]);
        Regroup(hidden, url, SumOf(rest, vs[1..]));
      } else if e.interface in vs {
        assert SumOf(rest, vs) == here + SumOf(rest, vs[1..]);
        Regroup(here, url, SumOf(rest, vs[1..]));
        Regroup(here, SumOf(endpoints, vs[1..]), hidden);
      }
    }
  }

  /** No URL is lost: every one is found under its interface or hidden by an earlier entry. */
  lemma {:induction false} HiddenRest(endpoints: seq<Endpoint>, vs: seq<string>)
    requires Distinct(vs) && forall e | e in endpoints :: e.interface in vs
    ensures SumOf(endpoints, vs) + Hidden(endpoints) == UrlsOf(endpoints, None)
    decreases |endpoints|
  {
    if endpoints == [] {
      SumOfNothing(vs);
    } else {
      var e, rest := endpoints[0], endpoints[1..];
      HiddenRest(rest, vs);
      SumOfFirst(endpoints, vs);
      assert e in endpoints;
      Regroup(SumOf(endpoints, vs), UrlsOf(rest, Some(e.interface)), Hidden(rest));
      Regroup(multiset{e.url}, SumOf(rest, vs), Hidden(rest));
    }
  }

  lemma {:induction false} SumOfNothing(vs: seq<string>)
    ensures SumOf([], vs) == multiset{}
    decreases |vs|
  {
    if vs != [] {
      SumOfNothing(vs[1..]);
    }
  }

  lemma {:induction false} NothingHiddenIff(endpoints: seq<Endpoint>)
    ensures Hidden(endpoints) == multiset{} <==> EachOnce(endpoints)
    decreases |endpoints|
  {
    if endpoints != [] {
      var e, rest := endpoints[0], endpoints[1..];
      NothingHiddenIff(rest);
      FirstUrl(rest, e.interface);
      var i := EndpointIdx(e.interface, rest);
      assert i >= 0 ==> endpoints[i + 1].interface == e.interface;
      assert forall k | 0 <= k < |rest| :: rest[k] == endpoints[k + 1] && rest[k] in rest;
      var h := UrlsOf(rest, Some(e.interface));
      assert |Hidden(endpoints)| == |h| + |Hidden(rest)|;
      assert EachOnce(endpoints) <==> EachOnce(rest) && i == -1;
    }
  }

  ghost function SumTotal(rs: seq<Resource>, services: seq<string>, vs: seq<string>): multiset<string> {
    if vs == [] then multiset{} else Total(rs, services, Some(vs[0])) + SumTotal(rs, services, vs[1..])
  }

  lemma {:induction false} SumTotalFirst(rs: seq<Resource>, services: seq<string>, vs: seq<string>)
    requires rs != []
    ensures SumTotal(rs, services, vs) == (if Wanted(rs[0], services) then SumOf(rs[0].endpoints, vs) else multiset{})
                                          + SumTotal(rs[1..], services, vs)
    decreases |vs|
  {
    if vs != [] {
      SumTotalFirst(rs, services, vs[1..]);
    }
  }

  lemma {:induction false} SumTotalNothing(services: seq<string>, vs: seq<string>)
    ensures SumTotal([], services, vs) == multiset{}
    decreases |vs|
  {
    if vs != [] {
      SumTotalNothing(services, vs[1..]);
    }
  }

  ghost function HiddenTotal(rs: seq<Resource>, services: seq<string>): multiset<string> {
    if rs == [] then multiset{}
    else (if Wanted(rs[0], services) then Hidden(rs[0].endpoints) else multiset{}) + HiddenTotal(rs[1..], services)
  }

  lemma {:induction false} HiddenTotalRest(rs: seq<Resource>, services: seq<string>, vs: seq<string>)
    requires Distinct(vs) && forall r, e | r in rs && e in r.endpoints :: e.interface in vs
    ensures SumTotal(rs, services, vs) + HiddenTotal(rs, services) == Total(rs, services, None)
    decreases |rs|
  {
    if rs == [] {
      SumTotalNothing(services, vs);
    } else {
      assert rs[0] in rs;
      HiddenTotalRest(rs[1..], services, vs);
      SumTotalFirst(rs, services, vs);
      HiddenRest(rs[0].endpoints, vs);
    }
  }

  lemma {:induction false} NothingHiddenTotalIff(rs: seq<Resource>, services: seq<string>)
    ensures HiddenTotal(rs, services) == multiset{} <==>
            forall r | r in rs && Wanted(r, services) :: EachOnce(r.endpoints)
    decreases |rs|
  {
    if rs != [] {
      NothingHiddenTotalIff(rs[1..], services);
      NothingHiddenIff(rs[0].endpoints);
      assert forall r :: r in rs <==> r == rs[0] || r in rs[1..];
      var h := if Wanted(rs[0], services) then Hidden(rs[0].endpoints) else multiset{};
      assert HiddenTotal(rs, services) == multiset{} <==>
             h == multiset{} && HiddenTotal(rs[1..], services) == multiset{} by {
        assert |HiddenTotal(rs, services)| == |h| + |HiddenTotal(rs[1..], services)|;
      }
    }
  }

  /** Without a visibility one gets the sum over all visibilities exactly when every status list has
      each interface at most once, which endpoint reconciliation maintains. */
  lemma AllIsSumIff(rs: seq<Resource>, services: seq<string>, vs: seq<string>)
    requires Distinct(vs) && forall r, e | r in rs && e in r.endpoints :: e.interface in vs
    ensures Total(rs, services, None) == SumTotal(rs, services, vs) <==>
            forall r | r in rs && Wanted(r, services) :: EachOnce(r.endpoints)
  {
    HiddenTotalRest(rs, services, vs);
    NothingHiddenTotalIff(rs, services);
    assert Total(rs, services, None) == SumTotal(rs, services, vs) ==>
           |HiddenTotal(rs, services)| == 0;
  }
}
