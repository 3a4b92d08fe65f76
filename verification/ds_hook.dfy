/**
 * The session object of the gateway: `DSHook` of the current tree
 * (app/ds/ds_hook.py) and of the legacy tree (ds/ds_hook.py). It checks the
 * port, binds to the first reachable host, normalises the properties a read
 * asks for, chooses between an identity and a filter, and assembles the
 * arguments it hands to `ds_set`, `ds_new` and `search_object`.
 *
 * The directory is a set of parameters: `bind(line)` stands for initialising
 * and binding a connection to `line`, `rootDse(line)` for `search_root_dse`
 * on it, and `find(identity, kind)` for the one-object search of
 * `SetMember`.
 */
module DsHook {
  import opened Wrappers
  import opened Text
  import opened DsDict
  import opened Identity
  import DsData
  import FuncGeneral
  import Words
  import DsSet
  import Derived
  import Modify
  import DsNew
  import ObjectClass
  import SetMember

  // ---------------------------------------------------------------------------
  // Port and connect line (app/ds/ds_hook.py:19-22, 71-74, 87-89; ds/ds_hook.py:24-31)

  /** `prefix_ldap`: the scheme of each accepted port. */
  function Scheme(port: int): Option<string> {
    if port == 636 then Some("ldaps") else if port == 389 then Some("ldap") else None
  }

  /**
   * The port check: only 636 (ldaps) and 389 (ldap) are accepted; the
   * current tree raises ValueError otherwise, the legacy tree RuntimeError.
   */
  function CheckedScheme(tree: DsData.Tree, port: int): (r: Result<string>)
    ensures r.Ok? <==> port == 636 || port == 389
    ensures r.Ok? ==> (r.value == "ldaps" <==> port == 636) && (r.value == "ldap" <==> port == 389)
    ensures r.Err? ==> r.failure.exc == (if tree == DsData.App then ValueError else RuntimeError)
  {
    match Scheme(port)
    case Some(s) => Ok(s)
    case None =>
      if tree == DsData.App then Raise(ValueError, "Only 636 or 389 ports are allowed")
      else Raise(RuntimeError, "Only 636 or 389 ports are allowed")
  }

  /** `f"{prefix}://{host}:{port}"`. */
  function ConnectLine(scheme: string, host: string, port: int): string {
    scheme + "://" + host + ":" + IntToDecimal(port)
  }

  /** The connect line names its scheme, host and port, and each is read back from it. */
  lemma ConnectLineParts(scheme: string, host: string, port: int)
    ensures var line := ConnectLine(scheme, host, port);
      var a := |scheme| + 3;
      var b := |line| - |IntToDecimal(port)|;
      && 0 < a <= b - 1 < |line|
      && line[..|scheme|] == scheme
      && line[|scheme|..a] == "://"
      && line[a..b - 1] == host
      && line[b - 1] == ':'
      && ParseInt(line[b..]) == Some(port)
  {
    FiveParts(scheme, "://", host, ":", IntToDecimal(port));
    ParseIntToDecimal(port);
  }

  /** The five pieces of a concatenation are read back by slicing at their lengths. */
  lemma FiveParts(p: string, q: string, r: string, s: string, t: string)
    ensures var line := p + q + r + s + t;
      var i, j, k, l := |p|, |p| + |q|, |p| + |q| + |r|, |p| + |q| + |r| + |s|;
      && line[..i] == p && line[i..j] == q && line[j..k] == r && line[k..l] == s && line[l..] == t
  {
    var line := p + q + r + s + t;
    var i, j, k, l := |p|, |p| + |q|, |p| + |q| + |r|, |p| + |q| + |r| + |s|;
    assert line[..i] == p by { assert forall x | 0 <= x < i :: line[x] == p[x]; }
    assert line[i..j] == q by { assert forall x | 0 <= x < j - i :: line[i..j][x] == q[x]; }
    assert line[j..k] == r by { assert forall x | 0 <= x < k - j :: line[j..k][x] == r[x]; }
    assert line[k..l] == s by { assert forall x | 0 <= x < l - k :: line[k..l][x] == s[x]; }
    assert line[l..] == t by { assert forall x | 0 <= x < |t| :: line[l..][x] == t[x]; }
  }

  // ---------------------------------------------------------------------------
  // Hosts (app/ds/ds_hook.py:71)

  /** The `host` argument: a comma-separated string or a list of hosts. */
  datatype HostArg = HostText(text: string) | HostList(hosts: seq<string>)

  /** `host.split(',')` for a string; a list is taken as it is. */
  function Hosts(h: HostArg): (hs: seq<string>)
    ensures h.HostText? ==> |hs| >= 1 && Join(hs, ',') == h.text
    ensures h.HostText? ==> forall i | 0 <= i < |hs| :: ',' !in hs[i]
    ensures h.HostList? ==> hs == h.hosts
  {
    match h
    case HostText(s) => JoinSplit(s, ','); Split(s, ',')
    case HostList(hs) => hs
  }

  /** A single host without a comma is the one host tried. */
  lemma OneHost(host: string)
    requires ',' !in host
    ensures Hosts(HostText(host)) == [host]
  {
    SplitWithoutSeparator(host, ',');
  }

  // ---------------------------------------------------------------------------
  // Failover (app/ds/ds_hook.py:83-118)

  /** What binding to one connect line gives: success, `SERVER_DOWN`, or another error. */
  datatype BindOutcome = Bound | ServerDown | BindFailed(failure: Failure)

  /** The connect line of every host, in order. */
  function ConnectLines(scheme: string, hosts: seq<string>, port: int): (lines: seq<string>)
    ensures |lines| == |hosts|
    ensures forall i | 0 <= i < |hosts| :: lines[i] == ConnectLine(scheme, hosts[i], port)
  {
    seq(|hosts|, i requires 0 <= i < |hosts| => ConnectLine(scheme, hosts[i], port))
  }

  /** Every one of the first `n` lines answered `SERVER_DOWN`. */
  predicate AllDown(lines: seq<string>, bind: string -> BindOutcome, n: nat)
    requires n <= |lines|
  {
    forall j | 0 <= j < n :: bind(lines[j]) == ServerDown
  }

  /**
   * The host loop: `SERVER_DOWN` moves on to the next line, any other error
   * ends the loop by propagating, the first bind that succeeds is the
   * session; when every line is down the loop raises TimeoutError.
   */
  function Failover(lines: seq<string>, bind: string -> BindOutcome): (r: Result<string>)
    ensures AllDown(lines, bind, |lines|) ==> RaisedAs(r, TimeoutError)
    ensures forall i | 0 <= i < |lines| && AllDown(lines, bind, i) && bind(lines[i]) != ServerDown ::
              r == (if bind(lines[i]) == Bound then Ok(lines[i]) else Err(bind(lines[i]).failure))
    decreases |lines|
  {
    if |lines| == 0 then Raise(TimeoutError, "Can't contact LDAP servers")
    else
      assert forall i | 1 <= i < |lines| :: lines[1..][i - 1] == lines[i];
      match bind(lines[0])
      case Bound => Ok(lines[0])
      case BindFailed(f) => Err(f)
      case ServerDown => Failover(lines[1..], bind)
  }

  /** The host loop as the source writes it, a `for` with an `else`; it agrees with `Failover`. */
  method FailoverLoop(lines: seq<string>, bind: string -> BindOutcome) returns (r: Result<string>)
    ensures AllDown(lines, bind, |lines|) ==> RaisedAs(r, TimeoutError)
    ensures forall i | 0 <= i < |lines| && AllDown(lines, bind, i) && bind(lines[i]) != ServerDown ::
              r == (if bind(lines[i]) == Bound then Ok(lines[i]) else Err(bind(lines[i]).failure))
    ensures r == Failover(lines, bind)
  {
    var i := 0;
    while i < |lines|
      invariant 0 <= i <= |lines|
      invariant AllDown(lines, bind, i)
      invariant Failover(lines[i..], bind) == Failover(lines, bind)
    {
      match bind(lines[i])
      case Bound => return Ok(lines[i]);
      case BindFailed(f) => return Err(f);
      case ServerDown =>
        assert lines[i..][1..] == lines[i + 1..];
        i := i + 1;
    }
    return Raise(TimeoutError, "Can't contact LDAP servers");
  }

  /** An open session: the connect line bound to and the search base. */
  datatype Session = Session(line: string, base: string)

  /** Python truthiness of an optional string. */
  predicate Given(s: Option<string>) {
    s.Some? && |s.value| > 0
  }

  /** The search base: the one given, else the default naming context of the root DSE. */
  function BaseOf(base: Option<string>, rootDse: Result<string>): Result<string> {
    if Given(base) then Ok(base.value) else rootDse
  }

  /**
   * Constructing and entering the current tree's session: the port check,
   * the host loop, then the base.
   */
  function Open(host: HostArg, port: int, base: Option<string>, bind: string -> BindOutcome,
                rootDse: string -> Result<string>): (r: Result<Session>)
    ensures Scheme(port).None? ==> RaisedAs(r, ValueError)
    ensures Scheme(port).Some? ==>
      var f := Failover(ConnectLines(Scheme(port).value, Hosts(host), port), bind);
      && (f.Err? ==> r == Err(f.failure))
      && (r.Ok? ==> f.Ok? && r.value.line == f.value)
    ensures r.Ok? && Given(base) ==> r.value.base == base.value
    ensures r.Ok? && !Given(base) ==> rootDse(r.value.line) == Ok(r.value.base)
  {
    var scheme :- CheckedScheme(DsData.App, port);
    var line :- Failover(ConnectLines(scheme, Hosts(host), port), bind);
    var b :- BaseOf(base, rootDse(line));
    Ok(Session(line, b))
  }

  /**
   * The legacy session: one host, no failover; `SERVER_DOWN` propagates as
   * the LDAP error it is.
   */
  function LegacyOpen(host: string, port: int, base: Option<string>, bind: string -> BindOutcome,
                      rootDse: string -> Result<string>): (r: Result<Session>)
    ensures Scheme(port).None? ==> RaisedAs(r, RuntimeError)
    ensures Scheme(port).Some? && bind(ConnectLine(Scheme(port).value, host, port)) == ServerDown ==> RaisedAs(r, LdapError)
    ensures r.Ok? ==> r.value.line == ConnectLine(Scheme(port).value, host, port)
                      && bind(r.value.line) == Bound
  {
    var scheme :- CheckedScheme(DsData.Legacy, port);
    var line := ConnectLine(scheme, host, port);
    var _ :- match bind(line)
             case Bound => Ok(())
             case ServerDown => Raise(LdapError, "SERVER_DOWN")
             case BindFailed(f) => Err(f);
    var b :- BaseOf(base, rootDse(line));
    Ok(Session(line, b))
  }

  /**
   * With one host the two trees open the same session, and fail the same
   * way on an error other than `SERVER_DOWN`.
   */
  lemma OneHostAgrees(host: string, port: int, base: Option<string>, bind: string -> BindOutcome,
                      rootDse: string -> Result<string>)
    requires ',' !in host && Scheme(port).Some?
    requires bind(ConnectLine(Scheme(port).value, host, port)) != ServerDown
    ensures Open(HostText(host), port, base, bind, rootDse) == LegacyOpen(host, port, base, bind, rootDse)
  {
    OneHost(host);
    var lines := ConnectLines(Scheme(port).value, [host], port);
    assert lines == [ConnectLine(Scheme(port).value, host, port)];
    assert AllDown(lines, bind, 0);
  }

  // ---------------------------------------------------------------------------
  // Properties of a read (app/ds/ds_hook.py:145-158; ds/ds_hook.py:64-77)

  /** The `properties` argument: one name or a list of names. */
  datatype PropsArg = OneProp(name: string) | PropList(names: seq<string>)

  function PropNames(p: PropsArg): seq<string> {
    match p
    case OneProp(n) => [n]
    case PropList(ns) => ns
  }

  /** Python truthiness of the `properties` argument. */
  predicate PropsGiven(p: Option<PropsArg>) {
    p.Some? && match p.value
               case OneProp(n) => |n| > 0
               case PropList(ns) => |ns| > 0
  }

  /** All attributes were asked for with `*`. */
  predicate Star(p: Option<PropsArg>) {
    PropsGiven(p) && "*" in PropNames(p.value)
  }

  /** The names asked for; none when the argument is falsy. */
  function Requested(p: Option<PropsArg>): seq<string> {
    if PropsGiven(p) then PropNames(p.value) else []
  }

  function FoldAll(xs: seq<string>): (r: seq<string>)
    ensures |r| == |xs| && forall i | 0 <= i < |xs| :: r[i] == Fold(xs[i])
  {
    seq(|xs|, i requires 0 <= i < |xs| => Fold(xs[i]))
  }

  predicate NoDuplicates(xs: seq<string>) {
    forall i, j | 0 <= i < j < |xs| :: xs[i] != xs[j]
  }

  /**
   * `list(set(xs))`: the same elements, each once. Python leaves the order
   * unspecified; this one keeps first occurrences.
   */
  function Unique(xs: seq<string>): (r: seq<string>)
    ensures forall x :: x in r <==> x in xs
    ensures NoDuplicates(r)
  {
    if |xs| == 0 then []
    else
      var n := |xs| - 1;
      assert xs == xs[..n] + [xs[n]];
      var r := Unique(xs[..n]);
      if xs[n] in r then r else r + [xs[n]]
  }

  /** Dropping elements keeps a list free of duplicates. */
  lemma {:induction false} WithoutKeepsDistinct(xs: seq<string>, drop: seq<string>)
    requires NoDuplicates(xs)
    ensures NoDuplicates(FuncGeneral.Without(xs, drop))
  {
    if |xs| > 0 {
      WithoutKeepsDistinct(xs[1..], drop);
      var rest := FuncGeneral.Without(xs[1..], drop);
      assert xs[0] !in xs[1..] by {
        forall j | 0 <= j < |xs[1..]| ensures xs[1..][j] != xs[0] {
          assert xs[1..][j] == xs[j + 1];
        }
      }
      assert xs[0] !in rest;
    }
  }

  /** Two duplicate-free lists with no common element join into one. */
  lemma DistinctJoin(a: seq<string>, b: seq<string>)
    requires NoDuplicates(a) && NoDuplicates(b)
    requires forall x | x in b :: x !in a
    ensures NoDuplicates(a + b)
  {
    forall i, j | 0 <= i < j < |a + b| ensures (a + b)[i] != (a + b)[j] {
      if j >= |a| && i < |a| {
        assert (a + b)[j] in b;
      }
    }
  }

  /** Completing a duplicate-free list with the defaults it lacks adds no duplicate. */
  lemma CompletedDistinct(asked: seq<string>, defaults: seq<string>)
    requires NoDuplicates(asked)
    ensures NoDuplicates(defaults) ==> NoDuplicates(asked + FuncGeneral.Without(defaults, asked))
  {
    if NoDuplicates(defaults) {
      WithoutKeepsDistinct(defaults, asked);
      DistinctJoin(asked, FuncGeneral.Without(defaults, asked));
    }
  }

  /**
   * The property list of a read. `*` must be the only name; otherwise the
   * names asked for, case-folded and deduplicated, are completed with the
   * folded defaults of the object type; a falsy argument gives the folded
   * defaults alone. The defaults come from `DataDSProperties`, indexed by the
   * upper-cased type name, which raises KeyError for an unknown type.
   */
  function Properties(tree: DsData.Tree, props: Option<PropsArg>, typeObject: string): (r: Result<seq<string>>)
    ensures Star(props) ==> (r.Ok? <==> |PropNames(props.value)| == 1)
    ensures Star(props) && r.Ok? ==> r.value == ["*"]
    ensures !Star(props) ==> (r.Ok? <==> DsData.KindOf(typeObject).Ok?)
    ensures r.Err? ==> r.failure.exc == if Star(props) then RuntimeError else KeyError
    ensures r.Ok? && !Star(props) ==>
      var defaults := FoldAll(DsData.DefaultProperties(tree, DsData.KindOf(typeObject).value));
      && (forall x :: x in r.value <==> x in FoldAll(Requested(props)) || x in defaults)
      && (NoDuplicates(defaults) ==> NoDuplicates(r.value))
  {
    if Star(props) then
      if |PropNames(props.value)| == 1 then Ok(["*"])
      else Raise(RuntimeError, "only one * may be asked for")
    else
      var k :- DsData.KindOf(typeObject);
      var defaults := FoldAll(DsData.DefaultProperties(tree, k));
      if PropsGiven(props) then
        var asked := Unique(FoldAll(PropNames(props.value)));
        var extra := FuncGeneral.Without(defaults, asked);
        CompletedDistinct(asked, defaults);
        Ok(asked + extra)
      else Ok(Unique(defaults))
  }

  /** Only `*` folds to `*`. */
  lemma FoldStar(s: string)
    requires Fold(s) == "*"
    ensures s == "*"
  {
    assert |s| == 1 && FoldChar(s[0]) == '*';
  }

  /**
   * Asking again for the list a read was given asks for the same
   * attributes: normalisation is idempotent up to order.
   */
  lemma PropertiesStable(tree: DsData.Tree, props: Option<PropsArg>, typeObject: string)
    requires Properties(tree, props, typeObject).Ok? && !Star(props)
    requires "*" !in FoldAll(DsData.DefaultProperties(tree, DsData.KindOf(typeObject).value))
    ensures var first := Properties(tree, props, typeObject).value;
      var again := Properties(tree, Some(PropList(first)), typeObject);
      again.Ok? && forall x :: x in again.value <==> x in first
  {
    var first := Properties(tree, props, typeObject).value;
    var defaults := FoldAll(DsData.DefaultProperties(tree, DsData.KindOf(typeObject).value));
    var asked := FoldAll(Requested(props));
    assert "*" !in first by {
      if "*" in asked {
        var i :| 0 <= i < |asked| && asked[i] == "*";
        FoldStar(Requested(props)[i]);
        assert false;
      }
    }
    assert !Star(Some(PropList(first)));
    forall x | x in first ensures Fold(x) == x {
      if x in asked {
        var i :| 0 <= i < |asked| && asked[i] == x;
        FoldIdempotent(Requested(props)[i]);
      } else {
        var i :| 0 <= i < |defaults| && defaults[i] == x;
        FoldIdempotent(DsData.DefaultProperties(tree, DsData.KindOf(typeObject).value)[i]);
      }
    }
    var folded := FoldAll(Requested(Some(PropList(first))));
    forall x ensures x in folded <==> x in first {
      if |first| > 0 {
        if x in folded {
          var i :| 0 <= i < |folded| && folded[i] == x;
          assert first[i] in first;
        }
      }
    }
  }

  // ---------------------------------------------------------------------------
  // The search of a read (app/ds/ds_hook.py:160-184; ds/ds_hook.py:79-101)

  /**
   * What a read searches with: an identity, turned into a filter by
   * `gen_filter_to_id` and expecting exactly one object, or a filter line.
   */
  datatype Query = ByIdentity(identity: IdentityArg) | ByFilter(filter: string)

  /** Python truthiness of the `identity` argument. */
  predicate IdentityGiven(identity: Option<IdentityArg>) {
    identity.Some? && match identity.value
                      case FreeText(s) => |s| > 0
                      case AttrMap(m, _) => |m.entries| > 0
  }

  /** Exactly one of identity and filter must be given; both or neither raise RuntimeError. */
  function QueryOf(identity: Option<IdentityArg>, filter: Option<string>): (r: Result<Query>)
    ensures r.Ok? <==> IdentityGiven(identity) != Given(filter)
    ensures r.Ok? && IdentityGiven(identity) ==> r.value == ByIdentity(identity.value)
    ensures r.Ok? && Given(filter) ==> r.value == ByFilter(filter.value)
    ensures r.Err? ==> r.failure.exc == RuntimeError
  {
    if IdentityGiven(identity) && Given(filter) then Raise(RuntimeError, "You can only use one search filter")
    else if IdentityGiven(identity) then Ok(ByIdentity(identity.value))
    else if Given(filter) then Ok(ByFilter(filter.value))
    else Raise(RuntimeError, "You must use one of the filters")
  }

  /** The arguments of one `search_object` call. */
  datatype Search = Search(query: Query, properties: seq<string>, typeObject: string, onlyOne: bool)

  /**
   * `get_object` (and `get_user`, `get_group`, `get_computer`,
   * `get_contact`, which fix the type): properties first, then the query;
   * a search by identity expects one object, a search by filter any number.
   */
  function GetObject(tree: DsData.Tree, identity: Option<IdentityArg>, filter: Option<string>,
                     props: Option<PropsArg>, typeObject: string): (r: Result<Search>)
    ensures Properties(tree, props, typeObject).Err? ==> r == Err(Properties(tree, props, typeObject).failure)
    ensures Properties(tree, props, typeObject).Ok? ==> (r.Ok? <==> QueryOf(identity, filter).Ok?)
    ensures r.Ok? ==> (r.value.onlyOne <==> r.value.query.ByIdentity?)
    ensures r.Ok? ==> && Ok(r.value.properties) == Properties(tree, props, typeObject)
                      && Ok(r.value.query) == QueryOf(identity, filter)
                      && r.value.typeObject == typeObject
  {
    var properties :- Properties(tree, props, typeObject);
    var query :- QueryOf(identity, filter);
    Ok(Search(query, properties, typeObject, query.ByIdentity?))
  }

  // ---------------------------------------------------------------------------
  // Members of a group (app/ds/ds_hook.py:264-297; ds/ds_hook.py:133-150)

  /** `f"(memberOf={dn})"`. */
  function MemberOfFilter(dn: string): string {
    "(memberOf=" + dn + ")"
  }

  /** The filter names the group's DN between its fixed parts. */
  lemma MemberOfFilterNamesDn(dn: string)
    ensures var f := MemberOfFilter(dn);
      && |f| == |dn| + 11 && f[..10] == "(memberOf=" && f[10..|f| - 1] == dn && f[|f| - 1] == ')'
  {
  }

  /**
   * `get_group_member`: the group (as given when it is a group map with a DN
   * in the current tree, always searched for in the legacy tree) supplies its
   * DN, and all objects that are `memberOf` it are read with the member
   * properties, as 'member' objects in the current tree and as any object in
   * the legacy tree.
   */
  function GroupMembers(tree: DsData.Tree, identity: IdentityArg,
                        find: (IdentityArg, string) -> Result<DSDict<string>>): (r: Result<Search>)
    ensures var group := if tree == DsData.App && SetMember.GroupGiven(identity) then Ok(identity.map_)
                         else find(identity, "group");
      && (r.Ok? <==> group.Ok? && DsDict.Contains(group.value, "distinguishedName"))
      && (r.Ok? ==> r.value.query == ByFilter(MemberOfFilter(Get(group.value, "distinguishedName").value)))
    ensures r.Ok? ==> && r.value.properties == DsData.DefaultProperties(tree, DsData.Member)
                      && r.value.typeObject == (if tree == DsData.App then "member" else "object")
                      && !r.value.onlyOne
  {
    var group :- if tree == DsData.App then SetMember.ResolveGroup(identity, find) else find(identity, "group");
    var dn :- GetItem(group, "distinguishedName");
    Ok(Search(ByFilter(MemberOfFilter(dn)), DsData.DefaultProperties(tree, DsData.Member),
              if tree == DsData.App then "member" else "object", false))
  }

  /** A `DSDict` group with a DN is not searched for again: the directory is not consulted. */
  lemma GivenGroupNotSearched(identity: IdentityArg, find1: (IdentityArg, string) -> Result<DSDict<string>>,
                              find2: (IdentityArg, string) -> Result<DSDict<string>>)
    requires SetMember.GroupGiven(identity)
    ensures GroupMembers(DsData.App, identity, find1) == GroupMembers(DsData.App, identity, find2)
    ensures GroupMembers(DsData.App, identity, find1).Ok?
  {
  }

  // ---------------------------------------------------------------------------
  // Maps filled key by key

  /** `d[key] = value` when a value is given; `None` leaves the map as it is. */
  function Put<V>(m: DSDict<V>, key: string, v: Option<V>): (r: DSDict<V>)
    requires Valid(m)
    ensures Valid(r)
    ensures Get(r, key) == if v.Some? then v else Get(m, key)
    ensures forall k | !SameFolded(k, key) :: Get(r, k) == Get(m, k)
  {
    if v.Some? then Set(m, key, v.value) else m
  }

  /** Three keys, pairwise apart, put in order. */
  function PutThree<V>(m: DSDict<V>, k1: string, v1: Option<V>, k2: string, v2: Option<V>, k3: string, v3: Option<V>)
    : (r: DSDict<V>)
    requires Valid(m)
    requires !SameFolded(k1, k2) && !SameFolded(k1, k3) && !SameFolded(k2, k3)
    ensures Valid(r)
    ensures Get(r, k1) == if v1.Some? then v1 else Get(m, k1)
    ensures Get(r, k2) == if v2.Some? then v2 else Get(m, k2)
    ensures Get(r, k3) == if v3.Some? then v3 else Get(m, k3)
    ensures forall k | !SameFolded(k, k1) && !SameFolded(k, k2) && !SameFolded(k, k3) :: Get(r, k) == Get(m, k)
  {
    Put(Put(Put(m, k1, v1), k2, v2), k3, v3)
  }

  /** A map of six keys, pairwise apart, filled in order. */
  function PutSix<V>(k1: string, v1: Option<V>, k2: string, v2: Option<V>, k3: string, v3: Option<V>,
                     k4: string, v4: Option<V>, k5: string, v5: Option<V>, k6: string, v6: Option<V>): (r: DSDict<V>)
    requires !SameFolded(k1, k2) && !SameFolded(k1, k3) && !SameFolded(k2, k3)
    requires !SameFolded(k4, k1) && !SameFolded(k4, k2) && !SameFolded(k4, k3)
    requires !SameFolded(k5, k1) && !SameFolded(k5, k2) && !SameFolded(k5, k3)
    requires !SameFolded(k6, k1) && !SameFolded(k6, k2) && !SameFolded(k6, k3)
    requires !SameFolded(k4, k5) && !SameFolded(k4, k6) && !SameFolded(k5, k6)
    ensures Valid(r)
    ensures Get(r, k1) == v1 && Get(r, k2) == v2 && Get(r, k3) == v3
    ensures Get(r, k4) == v4 && Get(r, k5) == v5 && Get(r, k6) == v6
  {
    PutThree(PutThree(Empty(), k1, v1, k2, v2, k3, v3), k4, v4, k5, v5, k6, v6)
  }

  /** A map of seven keys, pairwise apart, filled in order. */
  function PutSeven<V>(k1: string, v1: Option<V>, k2: string, v2: Option<V>, k3: string, v3: Option<V>,
                       k4: string, v4: Option<V>, k5: string, v5: Option<V>, k6: string, v6: Option<V>,
                       k7: string, v7: Option<V>): (r: DSDict<V>)
    requires !SameFolded(k1, k2) && !SameFolded(k1, k3) && !SameFolded(k2, k3)
    requires !SameFolded(k4, k1) && !SameFolded(k4, k2) && !SameFolded(k4, k3)
    requires !SameFolded(k5, k1) && !SameFolded(k5, k2) && !SameFolded(k5, k3)
    requires !SameFolded(k6, k1) && !SameFolded(k6, k2) && !SameFolded(k6, k3)
    requires !SameFolded(k4, k5) && !SameFolded(k4, k6) && !SameFolded(k5, k6)
    requires !SameFolded(k7, k1) && !SameFolded(k7, k2) && !SameFolded(k7, k3)
    requires !SameFolded(k7, k4) && !SameFolded(k7, k5) && !SameFolded(k7, k6)
    ensures Valid(r)
    ensures Get(r, k1) == v1 && Get(r, k2) == v2 && Get(r, k3) == v3
    ensures Get(r, k4) == v4 && Get(r, k5) == v5 && Get(r, k6) == v6 && Get(r, k7) == v7
  {
    Put(PutSix(k1, v1, k2, v2, k3, v3, k4, v4, k5, v5, k6, v6), k7, v7)
  }

  /** Different lengths, or a differing letter among the first two, keep keys apart up to case. */
  lemma Apart(a: string, b: string)
    requires |a| != |b| || (|a| >= 2 && |b| >= 2 && (FoldChar(a[0]) != FoldChar(b[0]) || FoldChar(a[1]) != FoldChar(b[1])))
    ensures !SameFolded(a, b)
  {
    if |a| == |b| {
      assert Fold(a)[0] != Fold(b)[0] || Fold(a)[1] != Fold(b)[1];
    }
  }

  // ---------------------------------------------------------------------------
  // Specials of set_user and set_group (app/ds/ds_hook.py:348-367, 392-402;
  // ds/ds_hook.py:176-198, 205-218)

  type Arg = DsSet.Arg

  /** The special map ds_set receives; a value may be `None`, which ds_set skips. */
  type Special = DSDict<Option<Arg>>

  /** A string entry, added only when the argument is truthy. */
  function TextEntry(s: Option<string>): Option<Option<Arg>> {
    if Given(s) then Some(Some(DsSet.AStr(s.value))) else None
  }

  /** A toggle, added only when the argument is not `None`. */
  function BoolEntry(b: Option<bool>): Option<Arg> {
    if b.Some? then Some(DsSet.ABool(b.value)) else None
  }

  /** A choice, added only when the argument is not `None`. */
  function ChoiceEntry(s: Option<string>): Option<Arg> {
    if s.Some? then Some(DsSet.AStr(s.value)) else None
  }

  /** A toggle stored as `BoolEntry(e)` reads back as `e`. */
  lemma ToggleRead(m: DSDict<Arg>, name: string, e: Option<bool>)
    requires Get(m, name) == BoolEntry(e)
    ensures DsSet.ToggleOf(m, name) == e
  {
  }

  /** A choice stored as `ChoiceEntry(s)` reads back as `s`. */
  lemma ChoiceRead(m: DSDict<Arg>, name: string, s: Option<string>)
    requires Get(m, name) == ChoiceEntry(s)
    ensures DsSet.ChoiceOf(m, name) == s
  {
  }

  /** The toggle names of the userAccountControl sub-map, pairwise apart up to case. */
  lemma ToggleKeysApart()
    ensures !SameFolded("Enabled", "PasswordNeverExpires") && !SameFolded("Enabled", "AccountNotDelegated")
    ensures !SameFolded("PasswordNeverExpires", "AccountNotDelegated")
    ensures !SameFolded("PasswordNotRequired", "Enabled") && !SameFolded("PasswordNotRequired", "PasswordNeverExpires")
    ensures !SameFolded("PasswordNotRequired", "AccountNotDelegated")
  {
    Apart("Enabled", "PasswordNeverExpires");
    Apart("Enabled", "AccountNotDelegated");
    Apart("PasswordNeverExpires", "AccountNotDelegated");
    Apart("PasswordNotRequired", "Enabled");
    Apart("PasswordNotRequired", "PasswordNeverExpires");
    Apart("PasswordNotRequired", "AccountNotDelegated");
  }

  /** The userAccountControl sub-map of set_user. */
  function UacToggles(enabled: Option<bool>, passwordNeverExpires: Option<bool>,
                      accountNotDelegated: Option<bool>): (m: DSDict<Arg>)
    ensures DsSet.ToggleOf(m, "Enabled") == enabled
    ensures DsSet.ToggleOf(m, "PasswordNeverExpires") == passwordNeverExpires
    ensures DsSet.ToggleOf(m, "AccountNotDelegated") == accountNotDelegated
    ensures DsSet.ToggleOf(m, "PasswordNotRequired") == None
  {
    ToggleKeysApart();
    var m := PutThree(Empty(), "Enabled", BoolEntry(enabled), "PasswordNeverExpires", BoolEntry(passwordNeverExpires),
                      "AccountNotDelegated", BoolEntry(accountNotDelegated));
    ToggleRead(m, "Enabled", enabled);
    ToggleRead(m, "PasswordNeverExpires", passwordNeverExpires);
    ToggleRead(m, "AccountNotDelegated", accountNotDelegated);
    ToggleRead(m, "PasswordNotRequired", None);
    m
  }

  /**
   * ds_set patches the stored userAccountControl with exactly the toggles
   * set_user was given, and leaves PASSWD_NOTREQD alone.
   */
  lemma UserTogglesApplied(n: int, enabled: Option<bool>, passwordNeverExpires: Option<bool>,
                           accountNotDelegated: Option<bool>)
    ensures DsSet.PatchedUac(n, UacToggles(enabled, passwordNeverExpires, accountNotDelegated))
            == FuncGeneral.GenUac(n, enabled, passwordNeverExpires, accountNotDelegated, None)
  {
  }

  /** The sub-map value the userAccountControl special holds: the toggles given. */
  predicate TogglesAre(a: Option<Arg>, enabled: Option<bool>, passwordNeverExpires: Option<bool>,
                       accountNotDelegated: Option<bool>) {
    && a.Some? && a.value.AMap?
    && DsSet.ToggleOf(a.value.m, "Enabled") == enabled
    && DsSet.ToggleOf(a.value.m, "PasswordNeverExpires") == passwordNeverExpires
    && DsSet.ToggleOf(a.value.m, "AccountNotDelegated") == accountNotDelegated
  }

  lemma NamedKeysApart()
    ensures !SameFolded("displayName", "description") && !SameFolded("displayName", "sAMAccountName")
    ensures !SameFolded("description", "sAMAccountName")
  {
    Apart("displayName", "description");
    Apart("displayName", "sAMAccountName");
    Apart("description", "sAMAccountName");
  }

  /** The three text specials set_user and set_group share. */
  function NamedSpecials(displayName: Option<string>, description: Option<string>,
                         samAccountName: Option<string>): (sp: Special)
    ensures Valid(sp)
    ensures Get(sp, "displayName") == TextEntry(displayName)
    ensures Get(sp, "description") == TextEntry(description)
    ensures Get(sp, "sAMAccountName") == TextEntry(samAccountName)
  {
    NamedKeysApart();
    PutThree(Empty(), "displayName", TextEntry(displayName), "description", TextEntry(description),
             "sAMAccountName", TextEntry(samAccountName))
  }

  /** The shared specials hold no other key. */
  lemma NamedLacks(displayName: Option<string>, description: Option<string>, samAccountName: Option<string>, k: string)
    requires !SameFolded(k, "displayName") && !SameFolded(k, "description") && !SameFolded(k, "sAMAccountName")
    ensures Get(NamedSpecials(displayName, description, samAccountName), k) == None
  {
    NamedKeysApart();
    assert Get(Empty<Option<Arg>>(), k) == None;
  }

  /** The keys set_user adds to the shared ones, apart from those and from each other. */
  lemma UserKeysApart()
    ensures !SameFolded("userPrincipalName", "displayName") && !SameFolded("userPrincipalName", "description")
    ensures !SameFolded("userPrincipalName", "sAMAccountName")
    ensures !SameFolded("accountExpires", "displayName") && !SameFolded("accountExpires", "description")
    ensures !SameFolded("accountExpires", "sAMAccountName")
    ensures !SameFolded("pwdLastSet", "displayName") && !SameFolded("pwdLastSet", "description")
    ensures !SameFolded("pwdLastSet", "sAMAccountName")
    ensures !SameFolded("userAccountControl", "displayName") && !SameFolded("userAccountControl", "description")
    ensures !SameFolded("userAccountControl", "sAMAccountName")
    ensures !SameFolded("userPrincipalName", "accountExpires") && !SameFolded("userPrincipalName", "pwdLastSet")
    ensures !SameFolded("userPrincipalName", "userAccountControl")
    ensures !SameFolded("accountExpires", "pwdLastSet") && !SameFolded("accountExpires", "userAccountControl")
    ensures !SameFolded("pwdLastSet", "userAccountControl")
  {
    Apart("userPrincipalName", "displayName");
    Apart("userPrincipalName", "description");
    Apart("userPrincipalName", "sAMAccountName");
    Apart("accountExpires", "displayName");
    Apart("accountExpires", "description");
    Apart("accountExpires", "sAMAccountName");
    Apart("pwdLastSet", "displayName");
    Apart("pwdLastSet", "description");
    Apart("pwdLastSet", "sAMAccountName");
    Apart("userAccountControl", "displayName");
    Apart("userAccountControl", "description");
    Apart("userAccountControl", "sAMAccountName");
    Apart("userPrincipalName", "accountExpires");
    Apart("userPrincipalName", "pwdLastSet");
    Apart("userPrincipalName", "userAccountControl");
    Apart("accountExpires", "pwdLastSet");
    Apart("accountExpires", "userAccountControl");
    Apart("pwdLastSet", "userAccountControl");
  }

  /**
   * The specials of `set_user`. A truthy userPrincipalName without '@'
   * raises RuntimeError. Each of displayName, description, sAMAccountName
   * and userPrincipalName is present when truthy; accountExpires and
   * pwdLastSet when not `None`; userAccountControl, a map of the toggles
   * given, when any toggle is not `None`.
   */
  function UserSpecials(displayName: Option<string>, description: Option<string>, samAccountName: Option<string>,
                        userPrincipalName: Option<string>, accountExpires: Option<Arg>,
                        changePasswordAtLogon: Option<bool>, enabled: Option<bool>,
                        passwordNeverExpires: Option<bool>, accountNotDelegated: Option<bool>)
    : (r: Result<Special>)
    ensures r.Err? <==> Given(userPrincipalName) && '@' !in userPrincipalName.value
    ensures r.Err? ==> r.failure.exc == RuntimeError
    ensures r.Ok? ==>
      && Get(r.value, "displayName") == TextEntry(displayName)
      && Get(r.value, "description") == TextEntry(description)
      && Get(r.value, "sAMAccountName") == TextEntry(samAccountName)
      && Get(r.value, "userPrincipalName") == TextEntry(userPrincipalName)
      && Get(r.value, "accountExpires") == (if accountExpires.Some? then Some(accountExpires) else None)
      && Get(r.value, "pwdLastSet")
         == (if changePasswordAtLogon.Some? then Some(Some(DsSet.ABool(changePasswordAtLogon.value))) else None)
    ensures r.Ok? ==>
      && (Get(r.value, "userAccountControl").Some? <==>
            enabled.Some? || passwordNeverExpires.Some? || accountNotDelegated.Some?)
      && (Get(r.value, "userAccountControl").Some? ==>
            TogglesAre(Get(r.value, "userAccountControl").value, enabled, passwordNeverExpires, accountNotDelegated))
  {
    if Given(userPrincipalName) && '@' !in userPrincipalName.value then
      Raise(RuntimeError, "userPrincipalName must name its domain after '@'")
    else
      var anyToggle := enabled.Some? || passwordNeverExpires.Some? || accountNotDelegated.Some?;
      var uac := UacToggles(enabled, passwordNeverExpires, accountNotDelegated);
      Ok(UserSpecialMap(displayName, description, samAccountName, userPrincipalName, accountExpires,
                        changePasswordAtLogon, if anyToggle then Some(uac) else None))
  }

  /** The map set_user fills once its arguments are checked. */
  function UserSpecialMap(displayName: Option<string>, description: Option<string>, samAccountName: Option<string>,
                          userPrincipalName: Option<string>, accountExpires: Option<Arg>,
                          changePasswordAtLogon: Option<bool>, toggles: Option<DSDict<Arg>>): (sp: Special)
    ensures Get(sp, "displayName") == TextEntry(displayName)
    ensures Get(sp, "description") == TextEntry(description)
    ensures Get(sp, "sAMAccountName") == TextEntry(samAccountName)
    ensures Get(sp, "userPrincipalName") == TextEntry(userPrincipalName)
    ensures Get(sp, "accountExpires") == (if accountExpires.Some? then Some(accountExpires) else None)
    ensures Get(sp, "pwdLastSet")
            == (if changePasswordAtLogon.Some? then Some(Some(DsSet.ABool(changePasswordAtLogon.value))) else None)
    ensures Get(sp, "userAccountControl") == (if toggles.Some? then Some(Some(DsSet.AMap(toggles.value))) else None)
  {
    UserKeysApart();
    NamedKeysApart();
    PutSeven("displayName", TextEntry(displayName), "description", TextEntry(description),
             "sAMAccountName", TextEntry(samAccountName), "userPrincipalName", TextEntry(userPrincipalName),
             "accountExpires", if accountExpires.Some? then Some(accountExpires) else None,
             "pwdLastSet",
             if changePasswordAtLogon.Some? then Some(Some(DsSet.ABool(changePasswordAtLogon.value))) else None,
             "userAccountControl", if toggles.Some? then Some(Some(DsSet.AMap(toggles.value))) else None)
  }

  /** The groupType sub-map of set_group. */
  function GroupChoices(scope: Option<string>, category: Option<string>): (m: DSDict<Arg>)
    ensures DsSet.ChoiceOf(m, "GroupScope") == scope
    ensures DsSet.ChoiceOf(m, "GroupCategory") == category
  {
    Apart("GroupScope", "GroupCategory");
    var m := Put(Put(Empty(), "GroupScope", ChoiceEntry(scope)), "GroupCategory", ChoiceEntry(category));
    ChoiceRead(m, "GroupScope", scope);
    ChoiceRead(m, "GroupCategory", category);
    m
  }

  lemma GroupKeysApart()
    ensures !SameFolded("groupType", "displayName") && !SameFolded("groupType", "description")
    ensures !SameFolded("groupType", "sAMAccountName")
  {
    Apart("groupType", "displayName");
    Apart("groupType", "description");
    Apart("groupType", "sAMAccountName");
  }

  /**
   * The specials of `set_group`: displayName, description and
   * sAMAccountName when truthy, and groupType, a map of scope and category,
   * when either is not `None`; ds_set then computes the new group type with
   * exactly that scope and category.
   */
  function GroupSpecials(displayName: Option<string>, description: Option<string>, samAccountName: Option<string>,
                         scope: Option<string>, category: Option<string>): (sp: Special)
    ensures Get(sp, "displayName") == TextEntry(displayName)
    ensures Get(sp, "description") == TextEntry(description)
    ensures Get(sp, "sAMAccountName") == TextEntry(samAccountName)
    ensures Get(sp, "groupType").Some? <==> scope.Some? || category.Some?
    ensures Get(sp, "groupType").Some? ==>
      var a := Get(sp, "groupType").value;
      && a.Some? && a.value.AMap?
      && DsSet.ChoiceOf(a.value.m, "GroupScope") == scope
      && DsSet.ChoiceOf(a.value.m, "GroupCategory") == category
  {
    GroupKeysApart();
    var named := NamedSpecials(displayName, description, samAccountName);
    NamedLacks(displayName, description, samAccountName, "groupType");
    var choices := if scope.Some? || category.Some? then Some(Some(DsSet.AMap(GroupChoices(scope, category)))) else None;
    var sp := Put(named, "groupType", choices);
    assert Get(sp, "groupType") == choices;
    assert Get(sp, "displayName") == Get(named, "displayName");
    assert Get(sp, "description") == Get(named, "description");
    assert Get(sp, "sAMAccountName") == Get(named, "sAMAccountName");
    sp
  }

  /**
   * The specials of `set_object`, `set_computer` and `set_contact`:
   * displayName and description are always present, `None` when not given
   * (ds_set skips a `None` special).
   */
  function ObjectSpecials(displayName: Option<string>, description: Option<string>): (sp: Special)
    ensures Get(sp, "displayName") == Some(ChoiceEntry(displayName))
    ensures Get(sp, "description") == Some(ChoiceEntry(description))
    ensures DsSet.Present(sp.entries) == (if displayName.Some? then [("displayName", DsSet.AStr(displayName.value))] else [])
                                         + (if description.Some? then [("description", DsSet.AStr(description.value))] else [])
  {
    Apart("displayName", "description");
    var sp := Put(Put(Empty(), "displayName", Some(ChoiceEntry(displayName))), "description", Some(ChoiceEntry(description)));
    assert sp.entries == [("displayName", ChoiceEntry(displayName)), ("description", ChoiceEntry(description))];
    sp
  }

  // ---------------------------------------------------------------------------
  // Password and unlock (app/ds/ds_hook.py:464-477; ds/ds_hook.py:242-248)

  /** `{'PasswordNotRequired': False}`: only PASSWD_NOTREQD is switched, off. */
  function NotRequiredOff(): (m: DSDict<Arg>)
    ensures DsSet.ToggleOf(m, "PasswordNotRequired") == Some(false)
    ensures DsSet.ToggleOf(m, "Enabled") == None
    ensures DsSet.ToggleOf(m, "PasswordNeverExpires") == None
    ensures DsSet.ToggleOf(m, "AccountNotDelegated") == None
  {
    Apart("Enabled", "PasswordNotRequired");
    Apart("PasswordNeverExpires", "PasswordNotRequired");
    Apart("AccountNotDelegated", "PasswordNotRequired");
    var m := Put(Empty(), "PasswordNotRequired", BoolEntry(Some(false)));
    ToggleRead(m, "PasswordNotRequired", Some(false));
    ToggleRead(m, "Enabled", None);
    ToggleRead(m, "PasswordNeverExpires", None);
    ToggleRead(m, "AccountNotDelegated", None);
    m
  }

  /** The special of `set_account_password` in the current tree: userAccountControl alone. */
  function PasswordSpecial(): (sp: Special)
    ensures Get(sp, "userAccountControl") == Some(Some(DsSet.AMap(NotRequiredOff())))
    ensures DsSet.Present(sp.entries) == [("userAccountControl", DsSet.AMap(NotRequiredOff()))]
  {
    var sp := Put(Empty(), "userAccountControl", Some(Some(DsSet.AMap(NotRequiredOff()))));
    assert sp.entries == [("userAccountControl", Some(DsSet.AMap(NotRequiredOff())))];
    sp
  }

  /** The replace of `set_account_password`. */
  function PasswordReplace(password: string): seq<(string, seq<string>)> {
    [("unicodePwd", [password])]
  }

  /**
   * Changing a password also clears PASSWD_NOTREQD (bit 5) of the stored
   * userAccountControl and keeps every other bit.
   */
  lemma PasswordClearsNotRequired(n: int)
    ensures var u := DsSet.PatchedUac(n, NotRequiredOff());
      && !Words.HasBit(u, 5)
      && forall q: nat | q != 5 :: Words.HasBit(u, q) == Words.HasBit(n, q)
  {
  }

  lemma UnicodePwdIsPassword()
    ensures Modify.IsPassword("unicodePwd")
  {
    assert Fold("unicodePwd") == Modify.UnicodePwdKey;
  }

  /** PASSWD_NOTREQD (bit 5) is clear in `u`, and every other bit is as in `n`. */
  ghost predicate ClearsNotRequired(n: int, u: int) {
    && !Words.HasBit(u, 5)
    && forall q: nat | q != 5 :: Words.HasBit(u, q) == Words.HasBit(n, q)
  }

  /** The properties `set_account_password` fetches: the replaced key, then the special's. */
  const PasswordFetch: seq<string> := ["unicodePwd", "userAccountControl"]

  /**
   * The modify of a password change against the object fetched: the quoted
   * UTF-16LE password replaced, then a replace of userAccountControl whose
   * one value is the decimal text of the fetched value with PASSWD_NOTREQD
   * cleared and every other bit kept, sent to the fetched DN.
   */
  ghost predicate PasswordModify(obj: DSDict<Derived.Value>, password: string, m: DsSet.Modification) {
    && |m.ops| == 2
    && m.ops[0] == DsSet.Encoded(Modify.ModReplace, "unicodePwd",
                                 Some([Modify.QuoteUtf16 + Utf16LeEncode(password) + Modify.QuoteUtf16]))
    && m.ops[1].action == Modify.ModReplace && m.ops[1].key == "userAccountControl"
    && DsSet.UacOperand(Get(obj, "userAccountControl")).Ok?
    && m.ops[1].values.Some? && |m.ops[1].values.value| == 1
    && DsDict.Contains(obj, "distinguishedName") && m.dn == Get(obj, "distinguishedName").value
    && (var n := DsSet.UacOperand(Get(obj, "userAccountControl")).value;
        var u := DsSet.PatchedUac(n, NotRequiredOff());
        && Utf8Decode(m.ops[1].values.value[0]) == Some(IntToDecimal(u))
        && ParseInt(IntToDecimal(u)) == Some(u)
        && ClearsNotRequired(n, u))
  }

  /**
   * `set_account_password` of the current tree: the password replaced, with
   * the PASSWD_NOTREQD special; in dry-run mode nothing is sent.
   */
  function SetAccountPassword(lookup: seq<string> -> Result<DSDict<Derived.Value>>, password: string,
                              dryRun: bool, fromIso: string -> Option<FuncGeneral.Moment>): (r: Result<Option<DsSet.Modification>>)
    requires DsSet.Lookups(lookup)
    ensures r.Ok? ==> (r.value.None? <==> dryRun)
    ensures r.Ok? && !dryRun ==>
      && lookup(PasswordFetch).Ok?
      && PasswordModify(lookup(PasswordFetch).value, password, r.value.value)
  {
    var sp := PasswordSpecial();
    var r := DsSet.DsSet(lookup, [], [], PasswordReplace(password), [], Some(sp.entries), dryRun, fromIso);
    if r.Ok? && !dryRun then
      PasswordCall(lookup, password, fromIso);
      PasswordSent(lookup(PasswordFetch).value, password, fromIso, r.value.value);
      r
    else
      r
  }

  /** The one explicit operation of `set_account_password`. */
  function PasswordOps(password: string): seq<DsSet.Op> {
    [DsSet.Op(Modify.ModReplace, "unicodePwd", Some([DsSet.AStr(password)]))]
  }

  /** The one special of `set_account_password` that carries a value. */
  function PasswordSpecials(): seq<(string, Arg)> {
    [("userAccountControl", DsSet.AMap(NotRequiredOff()))]
  }

  /** The password change is a ds_set call with one replace and one special, fetching both keys. */
  lemma PasswordCall(lookup: seq<string> -> Result<DSDict<Derived.Value>>, password: string,
                      fromIso: string -> Option<FuncGeneral.Moment>)
    requires DsSet.Lookups(lookup)
    requires DsSet.DsSet(lookup, [], [], PasswordReplace(password), [], Some(PasswordSpecial().entries), false, fromIso).Ok?
    ensures lookup(PasswordFetch).Ok?
    ensures DsSet.SentFromFetched(PasswordOps(password), PasswordSpecials(), lookup(PasswordFetch).value, fromIso,
                                  DsSet.DsSet(lookup, [], [], PasswordReplace(password), [],
                                              Some(PasswordSpecial().entries), false, fromIso).value.value)
  {
    PasswordShape(password);
    DsSet.DsSetSends(lookup, [], [], PasswordReplace(password), [], PasswordSpecial().entries, fromIso);
  }

  /** The operations, specials and fetched keys of the password change's `ds_set` call. */
  lemma PasswordShape(password: string)
    ensures DsSet.OpList([], [], PasswordReplace(password), []) == PasswordOps(password)
    ensures DsSet.Present(PasswordSpecial().entries) == PasswordSpecials()
    ensures DsSet.DistinctKeys(PasswordSpecials())
    ensures DsSet.FetchList(PasswordOps(password), PasswordSpecials()) == PasswordFetch
  {
    DsSet.SingleOps("unicodePwd", password);
  }

  /** What ds_set sends for the password replace and the userAccountControl special. */
  lemma PasswordSent(obj: DSDict<Derived.Value>, password: string, fromIso: string -> Option<FuncGeneral.Moment>, m: DsSet.Modification)
    requires DsSet.SentFromFetched(PasswordOps(password), PasswordSpecials(), obj, fromIso, m)
    ensures PasswordModify(obj, password, m)
  {
    var uacKey := "userAccountControl";
    var toggles := DsSet.AMap(NotRequiredOff());
    Apart("distinguishedName", uacKey);
    assert DsSet.Untouched(PasswordSpecials(), "distinguishedName");
    var op := PasswordOps(password)[0];
    assert DsSet.EncodedAs(op, m.ops[0]);
    UnicodePwdIsPassword();
    Modify.PasswordQuoted("unicodePwd", password);
    assert m.ops[0].values.value == [Modify.QuoteUtf16 + Utf16LeEncode(password) + Modify.QuoteUtf16];
    assert PasswordSpecials()[0] == (uacKey, toggles);
    UacSpecialSent(obj, toggles, fromIso, m.ops[1]);
  }

  /** The userAccountControl special computed from the fetched object and encoded. */
  lemma UacSpecialSent(obj: DSDict<Derived.Value>, toggles: Arg, fromIso: string -> Option<FuncGeneral.Moment>, e: DsSet.Encoded)
    requires toggles == DsSet.AMap(NotRequiredOff())
    requires DsSet.FetchedOp(obj, "userAccountControl", toggles, fromIso).Ok?
    requires DsSet.EncodedAs(DsSet.FetchedOp(obj, "userAccountControl", toggles, fromIso).value, e)
    ensures e.action == Modify.ModReplace && e.key == "userAccountControl"
    ensures DsSet.UacOperand(Get(obj, "userAccountControl")).Ok?
    ensures e.values.Some? && |e.values.value| == 1
    ensures var n := DsSet.UacOperand(Get(obj, "userAccountControl")).value;
      var u := DsSet.PatchedUac(n, NotRequiredOff());
      && Utf8Decode(e.values.value[0]) == Some(IntToDecimal(u))
      && ParseInt(IntToDecimal(u)) == Some(u)
      && ClearsNotRequired(n, u)
  {
    var key := "userAccountControl";
    assert Fold(key) == DsSet.UacKey;
    var n := DsSet.UacOperand(Get(obj, key)).value;
    var u := DsSet.PatchedUac(n, NotRequiredOff());
    assert DsSet.Handle(key, Get(obj, key), toggles, fromIso) == Ok(DsSet.AStr(IntToDecimal(u)));
    assert DsDict.Contains(obj, key);
    Modify.PlainReadsBack(key, IntToDecimal(u));
    ParseIntToDecimal(u);
    PasswordClearsNotRequired(n);
  }

  // ---------------------------------------------------------------------------
  // Creation (app/ds/ds_hook.py:578-640; ds/ds_hook.py:294-327)

  /** `UAC_FLAGS['NORMAL_ACCOUNT']`. */
  const NormalAccount := 512

  /** The keys of the new_user extend, pairwise apart up to case. */
  lemma NewUserKeysApart()
    ensures !SameFolded("userAccountControl", "pwdLastSet") && !SameFolded("userAccountControl", "accountExpires")
    ensures !SameFolded("userAccountControl", "userPrincipalName") && !SameFolded("userAccountControl", "unicodePwd")
    ensures !SameFolded("userAccountControl", "sAMAccountName")
    ensures !SameFolded("pwdLastSet", "accountExpires") && !SameFolded("pwdLastSet", "userPrincipalName")
    ensures !SameFolded("pwdLastSet", "unicodePwd") && !SameFolded("pwdLastSet", "sAMAccountName")
    ensures !SameFolded("accountExpires", "userPrincipalName") && !SameFolded("accountExpires", "unicodePwd")
    ensures !SameFolded("accountExpires", "sAMAccountName")
    ensures !SameFolded("userPrincipalName", "unicodePwd") && !SameFolded("userPrincipalName", "sAMAccountName")
    ensures !SameFolded("unicodePwd", "sAMAccountName")
  {
    Apart("userAccountControl", "pwdLastSet");
    Apart("userAccountControl", "accountExpires");
    Apart("userAccountControl", "userPrincipalName");
    Apart("userAccountControl", "unicodePwd");
    Apart("userAccountControl", "sAMAccountName");
    Apart("pwdLastSet", "accountExpires");
    Apart("pwdLastSet", "userPrincipalName");
    Apart("pwdLastSet", "unicodePwd");
    Apart("pwdLastSet", "sAMAccountName");
    Apart("accountExpires", "userPrincipalName");
    Apart("accountExpires", "unicodePwd");
    Apart("accountExpires", "sAMAccountName");
    Apart("userPrincipalName", "unicodePwd");
    Apart("userPrincipalName", "sAMAccountName");
    Apart("unicodePwd", "sAMAccountName");
  }

  /**
   * The attributes `new_user` adds to those of `ds_new`: the
   * userAccountControl of a normal account with the toggles applied and
   * PASSWD_NOTREQD cleared; pwdLastSet and accountExpires when not `None`;
   * userPrincipalName when truthy; the password and the sAMAccountName. An
   * expiration `gen_account_exp_date` rejects raises its error.
   */
  function NewUserExtend(enabled: Option<bool>, passwordNeverExpires: Option<bool>, accountNotDelegated: Option<bool>,
                         changePasswordAtLogon: Option<bool>, expiration: Option<FuncGeneral.ExpirationArg>,
                         userPrincipalName: Option<string>, password: string, samAccountName: string)
    : (r: Result<DSDict<seq<string>>>)
    ensures r.Ok? <==> expiration.None? || FuncGeneral.GenAccountExpDate(expiration.value).Ok?
    ensures r.Err? ==> r == Err(FuncGeneral.GenAccountExpDate(expiration.value).failure)
    ensures r.Ok? ==> Valid(r.value)
    ensures r.Ok? ==>
      var uac := Get(r.value, "userAccountControl");
      && uac.Some? && |uac.value| == 1
      && ParseInt(uac.value[0]) == Some(FuncGeneral.GenUac(NormalAccount, enabled, passwordNeverExpires,
                                                           accountNotDelegated, Some(false)))
    ensures r.Ok? ==>
      && Get(r.value, "pwdLastSet")
         == (if changePasswordAtLogon.Some? then Some([FuncGeneral.GenChangePwdAtLogon(changePasswordAtLogon.value)])
             else None)
      && Get(r.value, "accountExpires")
         == (if expiration.Some? then Some([FuncGeneral.GenAccountExpDate(expiration.value).value]) else None)
      && Get(r.value, "userPrincipalName") == (if Given(userPrincipalName) then Some([userPrincipalName.value]) else None)
      && Get(r.value, "unicodePwd") == Some([password])
      && Get(r.value, "sAMAccountName") == Some([samAccountName])
  {
    var expires :- if expiration.None? then Ok(None)
                   else var e :- FuncGeneral.GenAccountExpDate(expiration.value); Ok(Some([e]));
    var uac := FuncGeneral.GenUac(NormalAccount, enabled, passwordNeverExpires, accountNotDelegated, Some(false));
    ParseIntToDecimal(uac);
    NewUserKeysApart();
    var pwdLastSet := if changePasswordAtLogon.Some? then Some([FuncGeneral.GenChangePwdAtLogon(changePasswordAtLogon.value)])
                      else None;
    var upn := if Given(userPrincipalName) then Some([userPrincipalName.value]) else None;
    Ok(PutSix("userAccountControl", Some([IntToDecimal(uac)]), "pwdLastSet", pwdLastSet, "accountExpires", expires,
              "userPrincipalName", upn, "unicodePwd", Some([password]), "sAMAccountName", Some([samAccountName])))
  }

  /** Bit 9 (NORMAL_ACCOUNT) is the only bit of 512 among those new_user touches. */
  lemma NormalAccountBits()
    ensures Words.HasBit(NormalAccount, 9)
    ensures !Words.HasBit(NormalAccount, 1) && !Words.HasBit(NormalAccount, 5)
    ensures !Words.HasBit(NormalAccount, 16) && !Words.HasBit(NormalAccount, 20)
  {
  }

  /**
   * A new user is a normal account with PASSWD_NOTREQD cleared, disabled
   * exactly when asked to be, with a non-expiring password and no
   * delegation exactly when asked for.
   */
  lemma NewUserAccountFlags(enabled: Option<bool>, passwordNeverExpires: Option<bool>,
                            accountNotDelegated: Option<bool>)
    ensures var u := FuncGeneral.GenUac(NormalAccount, enabled, passwordNeverExpires, accountNotDelegated, Some(false));
      && Words.HasBit(u, 9)
      && !Words.HasBit(u, 5)
      && (Words.HasBit(u, 1) <==> enabled == Some(false))
      && (Words.HasBit(u, 16) <==> passwordNeverExpires == Some(true))
      && (Words.HasBit(u, 20) <==> accountNotDelegated == Some(true))
  {
    NormalAccountBits();
  }

  /**
   * `new_user` as evidently intended: the extend is computed and `ds_new`
   * creates the user, or only checks it in dry-run mode.
   */
  function NewUser(escape: string -> string, path: string, name: string, displayName: Option<string>,
                   enabled: Option<bool>, passwordNeverExpires: Option<bool>, accountNotDelegated: Option<bool>,
                   changePasswordAtLogon: Option<bool>, expiration: Option<FuncGeneral.ExpirationArg>,
                   userPrincipalName: Option<string>, password: string, samAccountName: string,
                   other: seq<(string, seq<string>)>, dryRun: bool): (r: Result<Option<DsNew.AddRequest>>)
    ensures r.Ok? ==> (r.value.None? <==> dryRun)
    ensures r.Ok? && !dryRun ==> r.value.value.dn == DsNew.NewDn(escape, name, path)
    ensures expiration.Some? && FuncGeneral.GenAccountExpDate(expiration.value).Err? ==>
              r == Err(FuncGeneral.GenAccountExpDate(expiration.value).failure)
    ensures r.Ok? && !dryRun ==>
      var attrs := r.value.value.attributes;
      && DsNew.SentFor(attrs, "sAMAccountName") == Some([Utf8Encode(samAccountName)])
      && DsNew.SentFor(attrs, "unicodePwd") == Some([Modify.QuoteUtf16 + Utf16LeEncode(password) + Modify.QuoteUtf16])
      && (expiration.Some? ==>
            DsNew.SentFor(attrs, "accountExpires") == Some([Utf8Encode(FuncGeneral.GenAccountExpDate(expiration.value).value)]))
      && (var uac := DsNew.SentFor(attrs, "userAccountControl");
          && uac.Some? && |uac.value| == 1 && Utf8Decode(uac.value[0]).Some?
          && ParseInt(Utf8Decode(uac.value[0]).value)
             == Some(FuncGeneral.GenUac(NormalAccount, enabled, passwordNeverExpires, accountNotDelegated, Some(false))))
  {
    var extend :- NewUserExtend(enabled, passwordNeverExpires, accountNotDelegated, changePasswordAtLogon,
                                expiration, userPrincipalName, password, samAccountName);
    var r := DsNew.DsNew(escape, "user", path, name, displayName, extend.entries, other, dryRun);
    if r.Ok? && !dryRun then
      NewUserSent(escape, path, name, displayName, extend, other, password, samAccountName);
      NewUserAccountSent(escape, path, name, displayName, extend, other, expiration);
      r
    else r
  }

  /** The user's name and password, as `ds_new` sends them from the extend. */
  lemma NewUserSent(escape: string -> string, path: string, name: string, displayName: Option<string>,
                    extend: DSDict<seq<string>>, other: seq<(string, seq<string>)>, password: string, samAccountName: string)
    requires Valid(extend) && DsNew.DsNew(escape, "user", path, name, displayName, extend.entries, other, false).Ok?
    requires Get(extend, "sAMAccountName") == Some([samAccountName]) && Get(extend, "unicodePwd") == Some([password])
    ensures var attrs := DsNew.DsNew(escape, "user", path, name, displayName, extend.entries, other, false).value.value.attributes;
      && DsNew.SentFor(attrs, "sAMAccountName") == Some([Utf8Encode(samAccountName)])
      && DsNew.SentFor(attrs, "unicodePwd") == Some([Modify.QuoteUtf16 + Utf16LeEncode(password) + Modify.QuoteUtf16])
  {
    Modify.NotPassword("sAMAccountName");
    UnicodePwdIsPassword();
    DsNew.ExtendSentPlain(escape, "user", path, name, displayName, extend, other, "sAMAccountName", samAccountName);
    DsNew.ExtendSentPassword(escape, "user", path, name, displayName, extend, other, "unicodePwd", password);
  }

  /** The user's account control word and expiry, as `ds_new` sends them from the extend. */
  lemma NewUserAccountSent(escape: string -> string, path: string, name: string, displayName: Option<string>,
                           extend: DSDict<seq<string>>, other: seq<(string, seq<string>)>,
                           expiration: Option<FuncGeneral.ExpirationArg>)
    requires Valid(extend) && DsNew.DsNew(escape, "user", path, name, displayName, extend.entries, other, false).Ok?
    requires var uac := Get(extend, "userAccountControl"); uac.Some? && |uac.value| == 1
    requires expiration.Some? ==>
               FuncGeneral.GenAccountExpDate(expiration.value).Ok?
               && Get(extend, "accountExpires") == Some([FuncGeneral.GenAccountExpDate(expiration.value).value])
    ensures var attrs := DsNew.DsNew(escape, "user", path, name, displayName, extend.entries, other, false).value.value.attributes;
      && (expiration.Some? ==>
            DsNew.SentFor(attrs, "accountExpires") == Some([Utf8Encode(FuncGeneral.GenAccountExpDate(expiration.value).value)]))
      && (var uac := DsNew.SentFor(attrs, "userAccountControl");
          && uac == Some([Utf8Encode(Get(extend, "userAccountControl").value[0])])
          && Utf8Decode(uac.value[0]) == Some(Get(extend, "userAccountControl").value[0]))
  {
    var uac := Get(extend, "userAccountControl").value;
    assert uac == [uac[0]];
    Modify.NotPassword("userAccountControl");
    DsNew.ExtendSentPlain(escape, "user", path, name, displayName, extend, other, "userAccountControl", uac[0]);
    if expiration.Some? {
      Modify.NotPassword("accountExpires");
      DsNew.ExtendSentPlain(escape, "user", path, name, displayName, extend, other, "accountExpires",
                            FuncGeneral.GenAccountExpDate(expiration.value).value);
    }
  }

  /** The error of passing `dry_run` to a `ds_new` that has no such parameter. */
  const DryRunRejected := Failure(TypeError, "ds_new() got an unexpected keyword argument 'dry_run'")

  /**
   * `new_user` as written: it passes `dry_run` to `ds_new`, whose signature
   * has no such parameter, so every call that gets past the extend raises
   * TypeError and nothing is ever created.
   */
  function NewUserAsWritten(enabled: Option<bool>, passwordNeverExpires: Option<bool>, accountNotDelegated: Option<bool>,
                            changePasswordAtLogon: Option<bool>, expiration: Option<FuncGeneral.ExpirationArg>,
                            userPrincipalName: Option<string>, password: string, samAccountName: string)
    : (r: Result<Option<DsNew.AddRequest>>)
    ensures r.Err?
    ensures expiration.None? ==> r == Err(DryRunRejected)
  {
    var _ :- NewUserExtend(enabled, passwordNeverExpires, accountNotDelegated, changePasswordAtLogon,
                           expiration, userPrincipalName, password, samAccountName);
    Err(DryRunRejected)
  }

  /**
   * The attributes `new_group` adds: the sAMAccountName and the group type
   * `gen_gt` computes from an empty word with the scope and category given.
   * The keyword defaults Global and Security are the caller's to pass;
   * `None` is an explicit None, which leaves that part of the word alone.
   */
  function NewGroupExtend(samAccountName: string, scope: Option<string>, category: Option<string>)
    : (r: Result<DSDict<seq<string>>>)
    ensures r.Ok? <==> FuncGeneral.GenGt(0, scope, category).Ok?
    ensures r.Err? ==> r == Err(FuncGeneral.GenGt(0, scope, category).failure)
    ensures r.Ok? ==> Valid(r.value)
    ensures r.Ok? ==>
      && Get(r.value, "sAMAccountName") == Some([samAccountName])
      && var gt := Get(r.value, "groupType");
         gt.Some? && |gt.value| == 1 && ParseInt(gt.value[0]) == Some(FuncGeneral.GenGt(0, scope, category).value)
  {
    var gt :- FuncGeneral.GenGt(0, scope, category);
    ParseIntToDecimal(gt);
    Apart("sAMAccountName", "groupType");
    Ok(Put(Put(Empty(), "sAMAccountName", Some([samAccountName])), "groupType", Some([IntToDecimal(gt)])))
  }

  /** `new_group` as evidently intended, with the dry-run flag passed on to `ds_new`. */
  function NewGroup(escape: string -> string, path: string, name: string, displayName: Option<string>,
                    samAccountName: string, scope: Option<string>, category: Option<string>,
                    other: seq<(string, seq<string>)>, dryRun: bool): (r: Result<Option<DsNew.AddRequest>>)
    ensures r.Ok? ==> (r.value.None? <==> dryRun)
    ensures r.Ok? && !dryRun ==> r.value.value.dn == DsNew.NewDn(escape, name, path)
    ensures FuncGeneral.GenGt(0, scope, category).Err? ==> r == Err(FuncGeneral.GenGt(0, scope, category).failure)
    ensures r.Ok? && !dryRun ==>
      var attrs := r.value.value.attributes;
      && DsNew.SentFor(attrs, "sAMAccountName") == Some([Utf8Encode(samAccountName)])
      && (var gt := DsNew.SentFor(attrs, "groupType");
          && gt.Some? && |gt.value| == 1 && Utf8Decode(gt.value[0]).Some?
          && ParseInt(Utf8Decode(gt.value[0]).value) == Some(FuncGeneral.GenGt(0, scope, category).value))
  {
    var extend :- NewGroupExtend(samAccountName, scope, category);
    var r := DsNew.DsNew(escape, "group", path, name, displayName, extend.entries, other, dryRun);
    if r.Ok? && !dryRun then
      var gt := Get(extend, "groupType").value;
      assert gt == [gt[0]];
      Modify.NotPassword("sAMAccountName");
      Modify.NotPassword("groupType");
      DsNew.ExtendSentPlain(escape, "group", path, name, displayName, extend, other, "sAMAccountName", samAccountName);
      DsNew.ExtendSentPlain(escape, "group", path, name, displayName, extend, other, "groupType", gt[0]);
      r
    else r
  }

  /** `new_group` as written: the extend is computed, then `dry_run` is rejected by `ds_new`. */
  function NewGroupAsWritten(samAccountName: string, scope: Option<string>, category: Option<string>)
    : (r: Result<Option<DsNew.AddRequest>>)
    ensures r.Err?
    ensures FuncGeneral.GenGt(0, scope, category).Ok? ==> r == Err(DryRunRejected)
  {
    var _ :- NewGroupExtend(samAccountName, scope, category);
    Err(DryRunRejected)
  }

  /** `new_contact` as evidently intended: no extra attributes, dry-run flag passed on. */
  function NewContact(escape: string -> string, path: string, name: string, displayName: Option<string>,
                      other: seq<(string, seq<string>)>, dryRun: bool): (r: Result<Option<DsNew.AddRequest>>)
    ensures r.Ok? ==> (r.value.None? <==> dryRun)
    ensures r.Ok? && !dryRun ==> r.value.value.dn == DsNew.NewDn(escape, name, path)
    ensures r.Ok? && !dryRun ==>
      var classes := DsNew.ChainOf(ObjectClass.ConvertObjectClass(Some("contact"), None));
      && classes.Ok?
      && forall k :: DsNew.SentFor(r.value.value.attributes, k)
                     == DsNew.ExpectedSent(k, DsNew.Expected(classes.value, name, DsNew.Shown(displayName), [], other, k))
  {
    DsNew.DsNew(escape, "contact", path, name, displayName, [], other, dryRun)
  }

  /**
   * The corrected creators agree with `ds_new` itself: dry-run mode sends
   * nothing and otherwise the request is the one `ds_new` builds, while the
   * as-written ones never return a request.
   */
  lemma CreationDryRun(escape: string -> string, path: string, name: string, displayName: Option<string>,
                       other: seq<(string, seq<string>)>)
    ensures NewContact(escape, path, name, displayName, other, true).Ok? ==>
              NewContact(escape, path, name, displayName, other, true) == Ok(None)
    ensures NewContact(escape, path, name, displayName, other, true).Ok? <==>
              NewContact(escape, path, name, displayName, other, false).Ok?
  {
  }
}
