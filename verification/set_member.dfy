/**
 * Group membership changes: `ds_set_member` of the current tree
 * (app/ds/func_ds_set_member.py), which resolves every member to a DN and
 * sends one single-value modify per member, and its legacy counterpart
 * (ds/func_ds_set_member.py), which references every member by SID and
 * sends one modify for all of them.
 *
 * The directory is two parameters: `find(identity, kind)` stands for
 * `search_object(ldap_filter=gen_filter_to_id(identity, 'group'),
 * type_object=kind, only_one=True)[0]` (the filter line itself is modelled by
 * `Identity.GenFilterToId`) and `reply(m)` for the outcome of `modify_s` on
 * the request `m`.
 */
module SetMember {
  import opened Wrappers
  import opened Text
  import opened DsDict
  import opened Identity
  import opened Modify
  import DsData

  /** The attribute a membership change writes. */
  const MemberAttr := "member"

  datatype MemberAction = AddMember | RemoveMember

  /** `action` must be 'add' or 'remove'; anything else, `None` included, raises TypeError. */
  function ParseAction(action: Option<string>): (r: Result<MemberAction>)
    ensures r == Ok(AddMember) <==> action == Some("add")
    ensures r == Ok(RemoveMember) <==> action == Some("remove")
    ensures r.Err? ==> r.failure.exc == TypeError
  {
    if action == Some("add") then Ok(AddMember)
    else if action == Some("remove") then Ok(RemoveMember)
    else Raise(TypeError, "incorrect action type")
  }

  /** The modify operation of an action. */
  function ActionCode(a: MemberAction): Action {
    if a == AddMember then ModAdd else ModDelete
  }

  /** Python truthiness of an optional string: given and non-empty. */
  predicate Truthy(v: Option<string>) {
    v.Some? && |v.value| > 0
  }

  /** The `members` argument: one string, or a list of strings and maps. */
  datatype MembersArg = OneMember(s: string) | MemberList(ms: seq<IdentityArg>)

  /** A single string member is wrapped in a list. */
  function MemberSeq(members: MembersArg): (ms: seq<IdentityArg>)
    ensures members.OneMember? ==> ms == [FreeText(members.s)]
    ensures members.MemberList? ==> ms == members.ms
  {
    match members
    case OneMember(s) => [FreeText(s)]
    case MemberList(ms) => ms
  }

  /** A `DSDict` argument is well formed, as every Python `DSDict` is; a plain dict need not be. */
  ghost predicate ValidArg(a: IdentityArg) {
    a.AttrMap? && !a.plain ==> Valid(a.map_)
  }

  /** `gen_filter_to_id(identity, kind, return_dict=True)`: the identity as a map. */
  function IdMapOf(identity: IdentityArg, typeObject: string): (r: Result<IdentityArg>)
    ensures r.Ok? ==> r.value.AttrMap?
    ensures GenFilterToId(identity, typeObject, true) == (if r.Ok? then Ok(IdMap(r.value.map_, r.value.plain)) else Err(r.failure))
    ensures r.Ok? && ValidArg(identity) ==> ValidArg(r.value)
  {
    AsMap(identity, typeObject)
  }

  // ---------------------------------------------------------------------------
  // The current tree (app/ds/func_ds_set_member.py)

  /** Python's `s[i:]` for an index that may be negative. */
  function SliceFrom(s: string, i: int): (r: string)
    ensures 0 <= i <= |s| ==> r == s[i..]
    ensures i < 0 && -i <= |s| ==> r == s[|s| + i..]
  {
    if i >= 0 then (if i <= |s| then s[i..] else [])
    else if -i <= |s| then s[|s| + i..]
    else s
  }

  /** `base.lower()[base.lower().find('dc='):]`: the group's domain. */
  function GroupDomain(base: string): string {
    SliceFrom(Fold(base), Find(Fold(base), "dc="))
  }

  /** With a "dc=" in the base, the domain is the lowered base from its first "dc=". */
  lemma GroupDomainFromDc(base: string)
    requires Text.Contains(Fold(base), "dc=")
    ensures var d := GroupDomain(base);
      && |d| <= |base| && d == Fold(base)[|base| - |d|..]
      && StartsWith(d, "dc=")
      && forall j | 0 <= j < |base| - |d| :: !OccursAt(Fold(base), "dc=", j)
  {
    var f := Fold(base);
    var i := Find(f, "dc=");
    assert i >= 0 && OccursAt(f, "dc=", i);
    assert GroupDomain(base) == f[i..];
    assert f[i..][..3] == f[i..i + 3];
  }

  /** Without a "dc=", `find` answers -1 and the domain is the base's last character. */
  lemma GroupDomainWithoutDc(base: string)
    requires !Text.Contains(Fold(base), "dc=") && |base| > 0
    ensures GroupDomain(base) == [Fold(base)[|base| - 1]]
  {
    var f := Fold(base);
    assert Find(f, "dc=") == -1;
    LastChar(f);
  }

  lemma LastChar(s: string)
    requires |s| > 0
    ensures SliceFrom(s, -1) == [s[|s| - 1]]
  {
  }

  /**
   * The group is used as given when it is a `DSDict` of class 'group' with a
   * DN; a plain dict fails the `isinstance` test and is searched for.
   */
  predicate GroupGiven(identity: IdentityArg) {
    identity.AttrMap? && !identity.plain && Get(identity.map_, "objectClass") == Some("group")
    && Truthy(Get(identity.map_, "distinguishedName"))
  }

  /** The group: as given, or searched for. */
  function ResolveGroup(identity: IdentityArg, find: (IdentityArg, string) -> Result<DSDict<string>>)
    : (r: Result<DSDict<string>>)
    ensures GroupGiven(identity) ==> r == Ok(identity.map_)
    ensures !GroupGiven(identity) ==> r == find(identity, "group")
    ensures identity.AttrMap? && identity.plain ==> r == find(identity, "group")
  {
    if GroupGiven(identity) then Ok(identity.map_) else find(identity, "group")
  }

  /** The reference of a member of another domain: its foreign security principal. */
  function ForeignRef(sid: string, domain: string): string {
    "CN=" + sid + ",CN=ForeignSecurityPrincipals," + domain
  }

  /** The member's DN lies outside the group's domain, compared in lower case. */
  predicate CrossDomain(m: DSDict<string>, plain: bool, domain: string) {
    Truthy(MapGet(m, plain, "distinguishedName"))
    && !Text.Contains(Fold(MapGet(m, plain, "distinguishedName").value), Fold(domain))
  }

  /** A cross-domain member needs its SID and class; its DN is then not used. */
  function ForeignOf(m: DSDict<string>, plain: bool, domain: string): (r: Result<string>)
    ensures r.Ok? <==> Truthy(MapGet(m, plain, "objectSid")) && Truthy(MapGet(m, plain, "objectClass"))
    ensures r.Ok? ==> r.value == ForeignRef(MapGet(m, plain, "objectSid").value, domain)
    ensures r.Err? ==> r.failure.exc == TypeError
  {
    if Truthy(MapGet(m, plain, "objectSid")) && Truthy(MapGet(m, plain, "objectClass")) then
      Ok(ForeignRef(MapGet(m, plain, "objectSid").value, domain))
    else Raise(TypeError, "cross-domain membership needs distinguishedName, objectSid and objectClass")
  }

  /** A member without a DN takes the DN of the object the directory finds for it. */
  function FoundDn(m: DSDict<string>, plain: bool, find: (IdentityArg, string) -> Result<DSDict<string>>): (r: Result<string>)
    ensures r.Ok? <==> find(AttrMap(m, plain), "member").Ok?
                       && DsDict.Contains(find(AttrMap(m, plain), "member").value, "distinguishedName")
    ensures r.Ok? ==> Get(find(AttrMap(m, plain), "member").value, "distinguishedName") == Some(r.value)
  {
    var found :- find(AttrMap(m, plain), "member");
    GetItem(found, "distinguishedName")
  }

  /**
   * The DN a member map is added or removed as: a cross-domain member becomes
   * its foreign security principal, which needs its SID and class; a
   * same-domain DN is used as it is; a member without a DN is searched for.
   */
  function MapRef(m: DSDict<string>, plain: bool, domain: string, find: (IdentityArg, string) -> Result<DSDict<string>>)
    : (r: Result<string>)
    ensures CrossDomain(m, plain, domain) ==> r == ForeignOf(m, plain, domain)
    ensures Truthy(MapGet(m, plain, "distinguishedName")) && !CrossDomain(m, plain, domain) ==>
              r == Ok(MapGet(m, plain, "distinguishedName").value)
    ensures !Truthy(MapGet(m, plain, "distinguishedName")) ==> r == FoundDn(m, plain, find)
  {
    if CrossDomain(m, plain, domain) then ForeignOf(m, plain, domain)
    else if Truthy(MapGet(m, plain, "distinguishedName")) then Ok(MapGet(m, plain, "distinguishedName").value)
    else FoundDn(m, plain, find)
  }

  /** One member: a string is first classified as a 'member' identity. */
  function MemberRef(member: IdentityArg, domain: string, find: (IdentityArg, string) -> Result<DSDict<string>>)
    : (r: Result<string>)
    ensures member.AttrMap? ==> r == MapRef(member.map_, member.plain, domain, find)
    ensures member.FreeText? ==>
              (r.Ok? ==> Classify(member.text, "member").Ok?
                         && r == MapRef(Classify(member.text, "member").value, false, domain, find))
  {
    var a :- IdMapOf(member, "member");
    MapRef(a.map_, a.plain, domain, find)
  }

  /** Every member in order; the first failure ends the loop. */
  function MemberRefs(members: seq<IdentityArg>, domain: string, find: (IdentityArg, string) -> Result<DSDict<string>>)
    : Result<seq<string>>
  {
    MapAll(members, member => MemberRef(member, domain, find))
  }

  /** One single-value modify of the group's member attribute. */
  datatype MemberMod = MemberMod(group: string, action: Action, value: seq<byte>)

  function ModOf(group: string, a: MemberAction, ref: string): MemberMod {
    MemberMod(group, ActionCode(a), Utf8Encode(ref))
  }

  /** What the directory answers to one modify. */
  datatype Outcome = Done | AlreadyExists | NoSuchAttribute | UnwillingToPerform | Failed(failure: Failure)

  /**
   * The outcomes that do not stop the loop: success; on add, "already
   * exists"; on remove, "no such attribute" and "unwilling to perform".
   */
  predicate Tolerated(a: MemberAction, o: Outcome) {
    || o == Done
    || (a == AddMember && o == AlreadyExists)
    || (a == RemoveMember && (o == NoSuchAttribute || o == UnwillingToPerform))
  }

  /** The exception an outcome that is not tolerated propagates as. */
  function ErrorOf(o: Outcome): Failure {
    match o
    case Failed(f) => f
    case AlreadyExists => Failure(LdapError, "already exists")
    case NoSuchAttribute => Failure(LdapError, "no such attribute")
    case _ => Failure(LdapError, "unwilling to perform")
  }

  /** `add_member`/`remove_member` for every reference, in order. */
  function Issue(group: string, a: MemberAction, refs: seq<string>, reply: MemberMod -> Outcome)
    : (r: Result<seq<MemberMod>>)
    ensures r.Ok? <==> forall i | 0 <= i < |refs| :: Tolerated(a, reply(ModOf(group, a, refs[i])))
    ensures r.Ok? ==> |r.value| == |refs| && forall i | 0 <= i < |refs| :: r.value[i] == ModOf(group, a, refs[i])
    ensures r.Err? ==> exists i | 0 <= i < |refs| :: !Tolerated(a, reply(ModOf(group, a, refs[i])))
                                                    && r.failure == ErrorOf(reply(ModOf(group, a, refs[i])))
  {
    if |refs| == 0 then Ok([])
    else
      var m := ModOf(group, a, refs[0]);
      if !Tolerated(a, reply(m)) then Err(ErrorOf(reply(m)))
      else
        var rest :- Issue(group, a, refs[1..], reply);
        assert forall i | 1 <= i < |refs| :: refs[1..][i - 1] == refs[i];
        Ok([m] + rest)
  }

  /** What `ds_set_member` settles before it writes: the action, the group's DN and every member's reference. */
  datatype Plan = Plan(action: MemberAction, group: string, refs: seq<string>)

  /**
   * The lookups, in the order the source makes them: the action, the group,
   * every member, and last the group's DN.
   */
  function Prepare(action: Option<string>, identity: IdentityArg, members: MembersArg, base: string,
                   find: (IdentityArg, string) -> Result<DSDict<string>>)
    : (r: Result<Plan>)
    ensures action != Some("add") && action != Some("remove") ==> RaisedAs(r, TypeError)
    ensures r.Ok? ==> && ParseAction(action) == Ok(r.value.action)
                      && ResolveGroup(identity, find).Ok?
                      && Get(ResolveGroup(identity, find).value, "distinguishedName") == Some(r.value.group)
                      && MemberRefs(MemberSeq(members), GroupDomain(base), find) == Ok(r.value.refs)
  {
    var a :- ParseAction(action);
    var group :- ResolveGroup(identity, find);
    var refs :- MemberRefs(MemberSeq(members), GroupDomain(base), find);
    var groupDn :- GetItem(group, "distinguishedName");
    Ok(Plan(a, groupDn, refs))
  }

  /**
   * `ds_set_member`: one modify per member, in member order, all to the
   * resolved group; in dry-run mode the same lookups and no modify.
   */
  function DsSetMember(action: Option<string>, identity: IdentityArg, members: MembersArg, base: string,
                       dryRun: bool, find: (IdentityArg, string) -> Result<DSDict<string>>,
                       reply: MemberMod -> Outcome)
    : (r: Result<seq<MemberMod>>)
    ensures action != Some("add") && action != Some("remove") ==> RaisedAs(r, TypeError)
    ensures dryRun ==> r.Ok? == Prepare(action, identity, members, base, find).Ok?
    ensures r.Ok? && dryRun ==> r.value == []
    ensures r.Ok? && !dryRun ==>
              var p := Prepare(action, identity, members, base, find);
              && p.Ok? && |r.value| == |p.value.refs|
              && forall i | 0 <= i < |r.value| :: r.value[i] == ModOf(p.value.group, p.value.action, p.value.refs[i])
  {
    var p :- Prepare(action, identity, members, base, find);
    if dryRun then Ok([]) else Issue(p.group, p.action, p.refs, reply)
  }

  /**
   * A dry run makes the same lookups as a real one: it succeeds whenever the
   * real run does, and a real run that fails after a successful dry run fails
   * on a directory reply.
   */
  lemma DryRunMirrors(action: Option<string>, identity: IdentityArg, members: MembersArg, base: string,
                      find: (IdentityArg, string) -> Result<DSDict<string>>, reply: MemberMod -> Outcome)
    ensures DsSetMember(action, identity, members, base, false, find, reply).Ok?
            ==> DsSetMember(action, identity, members, base, true, find, reply) == Ok([])
    ensures DsSetMember(action, identity, members, base, true, find, reply).Ok?
            && DsSetMember(action, identity, members, base, false, find, reply).Err?
            ==> var p := Prepare(action, identity, members, base, find).value;
                exists i | 0 <= i < |p.refs| :: !Tolerated(p.action, reply(ModOf(p.group, p.action, p.refs[i])))
  {
  }

  /**
   * A cross-domain member given with its SID and class is added as its
   * foreign security principal, and "already exists" does not stop the call.
   */
  lemma ForeignMemberAdded(m: DSDict<string>, plain: bool, domain: string, find: (IdentityArg, string) -> Result<DSDict<string>>,
                           reply: MemberMod -> Outcome, group: string)
    requires CrossDomain(m, plain, domain) && Truthy(MapGet(m, plain, "objectSid")) && Truthy(MapGet(m, plain, "objectClass"))
    requires reply(ModOf(group, AddMember, ForeignRef(MapGet(m, plain, "objectSid").value, domain))) == AlreadyExists
    ensures MemberRef(AttrMap(m, plain), domain, find) == Ok(ForeignRef(MapGet(m, plain, "objectSid").value, domain))
    ensures Issue(group, AddMember, [ForeignRef(MapGet(m, plain, "objectSid").value, domain)], reply)
            == Ok([ModOf(group, AddMember, ForeignRef(MapGet(m, plain, "objectSid").value, domain))])
  {
    var ref := ForeignRef(MapGet(m, plain, "objectSid").value, domain);
    assert MapRef(m, plain, domain, find) == Ok(ref);
    var r := Issue(group, AddMember, [ref], reply);
    assert Tolerated(AddMember, reply(ModOf(group, AddMember, ref)));
    assert r.Ok? && |r.value| == 1 && r.value[0] == ModOf(group, AddMember, ref);
    assert r.value == [ModOf(group, AddMember, ref)];
  }

  // ---------------------------------------------------------------------------
  // The legacy tree (ds/func_ds_set_member.py)

  /** The legacy group fetch asks for the member list only on remove. */
  function LegacyGroupProperties(a: MemberAction): (ps: seq<string>)
    ensures MemberAttr in ps <==> a == RemoveMember
    ensures "distinguishedName" in ps
  {
    if a == RemoveMember then [MemberAttr, "distinguishedName"] else ["distinguishedName"]
  }

  /** `<SID=...>`, the reference the legacy code gives every member. */
  function SidRef(sid: string): string {
    "<SID=" + sid + ">"
  }

  // `find(identity, kind, properties)` stands for `search_object(ldap_filter=
  // gen_filter_to_id(identity, kind), type_object=kind, properties=properties,
  // only_one=True)[0]`.

  /** The properties a legacy member search asks for. */
  const LegacyMemberProperties := DsData.DefaultProperties(DsData.Legacy, DsData.Member)

  /**
   * One legacy member map: it gets objectClass 'member', so it is searched
   * for exactly when it has no DN; the SID of the map, or of the object
   * found, is then required. The key tests are those of the map's type.
   */
  function LegacyMapRef(m: DSDict<string>, plain: bool, find: (IdentityArg, string, seq<string>) -> Result<DSDict<string>>)
    : (r: Result<string>)
    requires !plain ==> Valid(m)
    ensures Truthy(MapGet(m, plain, "distinguishedName")) ==>
              if MapHas(m, plain, "objectSid") then r == Ok(SidRef(MapGet(m, plain, "objectSid").value))
              else RaisedAs(r, KeyError)
    ensures !Truthy(MapGet(m, plain, "distinguishedName")) ==>
              var found := find(AttrMap(MapSet(m, plain, "objectClass", "member"), plain), "member", LegacyMemberProperties);
              && (r.Ok? <==> found.Ok? && DsDict.Contains(found.value, "objectSid"))
              && (r.Ok? ==> r.value == SidRef(Get(found.value, "objectSid").value))
  {
    // The tag leaves the DN and the SID as they were, so only the search sees it.
    var sid :- if Truthy(MapGet(m, plain, "distinguishedName")) then MapItem(m, plain, "objectSid")
               else
                 var found :- find(AttrMap(MapSet(m, plain, "objectClass", "member"), plain), "member", LegacyMemberProperties);
                 GetItem(found, "objectSid");
    Ok(SidRef(sid))
  }

  /** One legacy member: a string is first classified as a 'member' identity. */
  function LegacyMemberRef(member: IdentityArg, find: (IdentityArg, string, seq<string>) -> Result<DSDict<string>>)
    : (r: Result<string>)
    requires ValidArg(member)
    ensures member.AttrMap? ==> r == LegacyMapRef(member.map_, member.plain, find)
  {
    var a :- IdMapOf(member, "member");
    LegacyMapRef(a.map_, a.plain, find)
  }

  function LegacyMemberRefs(members: seq<IdentityArg>, find: (IdentityArg, string, seq<string>) -> Result<DSDict<string>>)
    : Result<seq<string>>
    requires forall i | 0 <= i < |members| :: ValidArg(members[i])
  {
    MapAll(members, member requires ValidArg(member) => LegacyMemberRef(member, find))
  }

  /** The one legacy modify: the group's DN and a single `(op, 'member', refs)` tuple. */
  datatype LegacyModify = LegacyModify(group: string, action: Action, attr: string, values: seq<seq<byte>>)

  function EncodeRefs(refs: seq<string>): (bs: seq<seq<byte>>)
    ensures |bs| == |refs| && forall i | 0 <= i < |refs| :: Utf8Decode(bs[i]) == Some(refs[i])
  {
    if |refs| == 0 then []
    else
      Utf8RoundTrip(refs[0]);
      var rest := EncodeRefs(refs[1..]);
      assert forall i | 1 <= i < |refs| :: refs[1..][i - 1] == refs[i];
      [Utf8Encode(refs[0])] + rest
  }

  /** The legacy `ds_set_member`: one modify with every member's SID reference; there is no dry run. */
  function LegacySetMember(action: Option<string>, identity: IdentityArg, members: MembersArg,
                           find: (IdentityArg, string, seq<string>) -> Result<DSDict<string>>)
    : (r: Result<LegacyModify>)
    requires forall i | 0 <= i < |MemberSeq(members)| :: ValidArg(MemberSeq(members)[i])
    ensures action != Some("add") && action != Some("remove") ==> RaisedAs(r, TypeError)
    ensures r.Ok? <==> && ParseAction(action).Ok?
                       && find(identity, "group", LegacyGroupProperties(ParseAction(action).value)).Ok?
                       && DsDict.Contains(find(identity, "group", LegacyGroupProperties(ParseAction(action).value)).value,
                                          "distinguishedName")
                       && LegacyMemberRefs(MemberSeq(members), find).Ok?
    ensures r.Ok? ==> r.value.attr == MemberAttr && r.value.action == ActionCode(ParseAction(action).value)
    ensures r.Ok? ==> Some(r.value.group)
                      == Get(find(identity, "group", LegacyGroupProperties(ParseAction(action).value)).value,
                             "distinguishedName")
    ensures r.Ok? ==> && |r.value.values| == |MemberSeq(members)|
                      && forall i | 0 <= i < |r.value.values| ::
                           Utf8Decode(r.value.values[i]) == Some(LegacyMemberRefs(MemberSeq(members), find).value[i])
  {
    var a :- ParseAction(action);
    var group :- find(identity, "group", LegacyGroupProperties(a));
    var refs :- LegacyMemberRefs(MemberSeq(members), find);
    var groupDn :- GetItem(group, "distinguishedName");
    Ok(LegacyModify(groupDn, ActionCode(a), MemberAttr, EncodeRefs(refs)))
  }
}
