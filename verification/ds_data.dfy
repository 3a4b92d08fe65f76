// Object kinds, their LDAP type filters and the default property lists
// (app/ds/data.py and its legacy copy ds/data.py).

module DsData {
  import opened Wrappers
  import opened Text

  /** The members of `DataDSLDAP` / `DataDSProperties`. */
  datatype Kind = Object | User | Group | Computer | Contact | Member

  /** The lower-case spelling callers use for a kind ("object", "user", ...). */
  function KindName(k: Kind): string {
    match k
    case Object => "object"
    case User => "user"
    case Group => "group"
    case Computer => "computer"
    case Contact => "contact"
    case Member => "member"
  }

  lemma KindNamesDistinct(a: Kind, b: Kind)
    ensures KindName(a) == KindName(b) ==> a == b
  {
  }

  /** `DataDSLDAP[type_object.upper()]`: the enum lookup by upper-cased name. */
  function KindOf(typeObject: string): (r: Result<Kind>)
    ensures r.Ok? ==> KindName(r.value) == Fold(typeObject)
    ensures r.Err? ==> r.failure.exc == KeyError && forall k: Kind :: KindName(k) != Fold(typeObject)
  {
    var f := Fold(typeObject);
    if f == "object" then Ok(Object)
    else if f == "user" then Ok(User)
    else if f == "group" then Ok(Group)
    else if f == "computer" then Ok(Computer)
    else if f == "contact" then Ok(Contact)
    else if f == "member" then Ok(Member)
    else Raise(KeyError, "unknown object kind")
  }

  /** Looking a kind up by its own name, in any casing, finds that kind. */
  lemma KindOfName(k: Kind, typeObject: string)
    requires Fold(typeObject) == KindName(k)
    ensures KindOf(typeObject) == Ok(k)
  {
    KindNamesDistinct(k, KindOf(typeObject).value);
  }

  /** The kinds that name a security principal: `["user", "computer", "group", "member"]`. */
  predicate IsAccountKind(typeObject: string) {
    typeObject == "user" || typeObject == "computer" || typeObject == "group" || typeObject == "member"
  }

  const UserFilter := "(&(objectCategory=person)(objectClass=user))"
  const GroupFilter := "(objectCategory=group)"
  const ComputerFilter := "(objectCategory=computer)"
  const ContactFilter := "(objectClass=contact)"

  /** The LDAP filter text of each kind (app/ds/data.py:17-23, ds/data.py:9-15). */
  function TypeFilter(k: Kind): string {
    match k
    case Object => ""
    case User => UserFilter
    case Group => GroupFilter
    case Computer => ComputerFilter
    case Contact => ContactFilter
    case Member =>
      "(|" + "(&(objectCategory=person)(objectClass=user))" + "(objectCategory=group)"
      + "(objectCategory=computer)" + "(objectClass=contact)" + ")"
  }

  /** MEMBER matches anything that is a user, group, computer or contact. */
  lemma MemberIsUnion()
    ensures TypeFilter(Member)
         == "(|" + TypeFilter(User) + TypeFilter(Group) + TypeFilter(Computer) + TypeFilter(Contact) + ")"
  {
  }

  /** `DataDSLDAP.unit`: a conjunction of the kind's filter with the caller's filter. */
  function Unit(k: Kind, filter: string): (r: string)
    ensures StartsWith(r, "(&" + TypeFilter(k)) && EndsWith(r, ")")
    ensures |r| == |filter| + |TypeFilter(k)| + 3
  {
    "(&" + TypeFilter(k) + filter + ")"
  }

  /** The inverse of `Unit`: the caller's filter inside a kind's conjunction, if `s` is one. */
  function Ununit(k: Kind, s: string): (r: Option<string>)
    ensures r.Some? ==> |r.value| + |TypeFilter(k)| + 3 == |s|
  {
    var head := "(&" + TypeFilter(k);
    if |s| >= |head| + 1 && s[..|head|] == head && s[|s| - 1] == ')' then Some(s[|head|..|s| - 1])
    else None
  }

  /** Unwrapping a wrapped filter returns the original filter. */
  lemma UnitRoundTrip(k: Kind, filter: string)
    ensures Ununit(k, Unit(k, filter)) == Some(filter)
  {
    var head := "(&" + TypeFilter(k);
    var s := Unit(k, filter);
    assert s == head + filter + ")";
    assert s[..|head|] == head;
    assert s[|head|..|s| - 1] == filter;
  }

  /** Every string `Ununit` accepts is the wrapping of what it returns, so `Unit` is injective. */
  lemma UnunitRoundTrip(k: Kind, s: string)
    requires Ununit(k, s).Some?
    ensures Unit(k, Ununit(k, s).value) == s
  {
    var head := "(&" + TypeFilter(k);
    assert s == s[..|head|] + s[|head|..|s| - 1] + [s[|s| - 1]];
  }

  /** OBJECT adds no type condition: its unit is the bare conjunction of the filter. */
  lemma ObjectUnit(filter: string)
    ensures Unit(Object, filter) == "(&" + filter + ")"
  {
  }

  /** The two trees differ in the USER list only. */
  datatype Tree = App | Legacy

  const BaseProperties: seq<string> := ["distinguishedName", "Name", "ObjectClass", "ObjectGUID"]

  /** `DataDSProperties` (app/ds/data.py:39-47, ds/data.py:31-39). */
  function DefaultProperties(tree: Tree, k: Kind): seq<string> {
    match k
    case Object => BaseProperties
    case User =>
      BaseProperties + ["GivenName", "sAMAccountName", "objectSid",
                        if tree == App then "sn" else "Surname", "UserPrincipalName", "Enabled"]
    case Group => BaseProperties + ["sAMAccountName", "objectSid", "GroupScope", "GroupCategory"]
    case Computer =>
      BaseProperties + ["DNSHostName", "Enabled", "sAMAccountName", "objectSid", "UserPrincipalName",
                        "userAccountControl"]
    case Contact => BaseProperties
    case Member => BaseProperties + ["sAMAccountName", "objectSid"]
  }

  /** Every kind requests the four identifying attributes first. */
  lemma DefaultsStartWithBase(tree: Tree, k: Kind)
    ensures DefaultProperties(tree, k)[..4] == BaseProperties
  {
  }

  /** The derived attributes in the defaults: scope and category for groups, Enabled for accounts. */
  lemma DerivedDefaults(tree: Tree)
    ensures "GroupScope" in DefaultProperties(tree, Group) && "GroupCategory" in DefaultProperties(tree, Group)
    ensures "Enabled" in DefaultProperties(tree, User) && "Enabled" in DefaultProperties(tree, Computer)
  {
    assert DefaultProperties(tree, Group)[6] == "GroupScope";
    assert DefaultProperties(tree, Group)[7] == "GroupCategory";
    assert DefaultProperties(tree, User)[9] == "Enabled";
    assert DefaultProperties(tree, Computer)[5] == "Enabled";
  }

  /** The legacy lists equal the app lists except that USER asks for "Surname" where the app asks for "sn". */
  lemma LegacyDefaultsDiffer(k: Kind)
    ensures k != User ==> DefaultProperties(Legacy, k) == DefaultProperties(App, k)
    ensures |DefaultProperties(Legacy, k)| == |DefaultProperties(App, k)|
    ensures forall i | 0 <= i < |DefaultProperties(App, k)| && !(k == User && i == 7) ::
              DefaultProperties(Legacy, k)[i] == DefaultProperties(App, k)[i]
    ensures DefaultProperties(App, User)[7] == "sn" && DefaultProperties(Legacy, User)[7] == "Surname"
  {
  }
}
