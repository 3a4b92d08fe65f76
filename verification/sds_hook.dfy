/**
 * The remote client (app/sds/sds_hook.py): every directory operation is
 * queued as a waiting row of the task table, with its non-None arguments
 * packed into a dict, and the client polls until the worker has finished
 * the row, then deletes it and hands back the result.
 */
module SdsHook {
  import opened Wrappers
  import opened DsDict
  import opened JsonData
  import opened Tasker

  /** The operations the client offers; each one is a method of the same name on the direct hook. */
  datatype Operation =
    | GetObject | GetUser | GetGroup | GetComputer | GetContact | GetGroupMember
    | SetObject | SetUser | SetGroup | SetComputer | SetContact
    | SetAccountPassword | SetAccountUnlock | AddGroupMember | RemoveGroupMember
    | MoveObject | RenameObject | NewUser | NewGroup | NewContact
    | RemoveObject | RemoveUser | RemoveGroup | RemoveComputer | RemoveContact

  /** The `type_query` written into the row: the method's name. */
  function Name(op: Operation): string {
    match op
    case GetObject => "get_object"
    case GetUser => "get_user"
    case GetGroup => "get_group"
    case GetComputer => "get_computer"
    case GetContact => "get_contact"
    case GetGroupMember => "get_group_member"
    case SetObject => "set_object"
    case SetUser => "set_user"
    case SetGroup => "set_group"
    case SetComputer => "set_computer"
    case SetContact => "set_contact"
    case SetAccountPassword => "set_account_password"
    case SetAccountUnlock => "set_account_unlock"
    case AddGroupMember => "add_group_member"
    case RemoveGroupMember => "remove_group_member"
    case MoveObject => "move_object"
    case RenameObject => "rename_object"
    case NewUser => "new_user"
    case NewGroup => "new_group"
    case NewContact => "new_contact"
    case RemoveObject => "remove_object"
    case RemoveUser => "remove_user"
    case RemoveGroup => "remove_group"
    case RemoveComputer => "remove_computer"
    case RemoveContact => "remove_contact"
  }

  /**
   * The worker's `getattr(ds, type_query)` restricted to the operations:
   * the operation a name denotes, if any, looked up family by family. It
   * inverts `Name`: an operation found is named by the text (and
   * `UnknownName` shows that a text finding none names no operation).
   */
  function OpOf(s: string): (r: Option<Operation>)
    ensures r.Some? ==> Name(r.value) == s
  {
    var lookup, change, member, create, removal := LookupOp(s), ChangeOp(s), MemberOp(s), CreateOp(s), RemovalOp(s);
    if lookup.Some? then lookup
    else if change.Some? then change
    else if member.Some? then member
    else if create.Some? then create
    else removal
  }

  /** The `get_*` operations by name. */
  function LookupOp(s: string): (r: Option<Operation>)
    ensures r.Some? ==> Name(r.value) == s
    ensures r.Some? ==> |s| > 0 && s[0] == 'g'
  {
    match s
    case "get_object" => Some(GetObject)
    case "get_user" => Some(GetUser)
    case "get_group" => Some(GetGroup)
    case "get_computer" => Some(GetComputer)
    case "get_contact" => Some(GetContact)
    case "get_group_member" => Some(GetGroupMember)
    case _ => None
  }

  /** The `set_*` operations by name. */
  function ChangeOp(s: string): (r: Option<Operation>)
    ensures r.Some? ==> Name(r.value) == s
    ensures r.Some? ==> |s| > 0 && s[0] == 's'
  {
    match s
    case "set_object" => Some(SetObject)
    case "set_user" => Some(SetUser)
    case "set_group" => Some(SetGroup)
    case "set_computer" => Some(SetComputer)
    case "set_contact" => Some(SetContact)
    case "set_account_password" => Some(SetAccountPassword)
    case "set_account_unlock" => Some(SetAccountUnlock)
    case _ => None
  }

  /** The membership, move and rename operations by name. */
  function MemberOp(s: string): (r: Option<Operation>)
    ensures r.Some? ==> Name(r.value) == s
  {
    match s
    case "add_group_member" => Some(AddGroupMember)
    case "remove_group_member" => Some(RemoveGroupMember)
    case "move_object" => Some(MoveObject)
    case "rename_object" => Some(RenameObject)
    case _ => None
  }

  /** The `new_*` operations by name. */
  function CreateOp(s: string): (r: Option<Operation>)
    ensures r.Some? ==> Name(r.value) == s
    ensures r.Some? ==> |s| > 0 && s[0] == 'n'
  {
    match s
    case "new_user" => Some(NewUser)
    case "new_group" => Some(NewGroup)
    case "new_contact" => Some(NewContact)
    case _ => None
  }

  /** The `remove_*` operations other than `remove_group_member` by name. */
  function RemovalOp(s: string): (r: Option<Operation>)
    ensures r.Some? ==> Name(r.value) == s
  {
    match s
    case "remove_object" => Some(RemoveObject)
    case "remove_user" => Some(RemoveUser)
    case "remove_group" => Some(RemoveGroup)
    case "remove_computer" => Some(RemoveComputer)
    case "remove_contact" => Some(RemoveContact)
    case _ => None
  }

  /** Every operation's name leads the worker back to that operation. */
  lemma NameRoundTrip(op: Operation)
    ensures OpOf(Name(op)) == Some(op)
  {
    match op
    case GetObject | GetUser | GetGroup | GetComputer | GetContact | GetGroupMember =>
      LookupRoundTrip(op);
    case SetObject | SetUser | SetGroup | SetComputer | SetContact | SetAccountPassword | SetAccountUnlock =>
      ChangeRoundTrip(op);
    case AddGroupMember | RemoveGroupMember | MoveObject | RenameObject =>
      MemberRoundTrip(op);
    case NewUser | NewGroup | NewContact =>
      CreateRoundTrip(op);
    case RemoveObject | RemoveUser | RemoveGroup | RemoveComputer | RemoveContact =>
      RemovalRoundTrip(op);
  }

  // The round trip, one family of operations at a time.

  lemma LookupRoundTrip(op: Operation)
    requires op.GetObject? || op.GetUser? || op.GetGroup? || op.GetComputer? || op.GetContact? || op.GetGroupMember?
    ensures OpOf(Name(op)) == Some(op)
  {
  }

  lemma ChangeRoundTrip(op: Operation)
    requires op.SetObject? || op.SetUser? || op.SetGroup? || op.SetComputer? || op.SetContact?
             || op.SetAccountPassword? || op.SetAccountUnlock?
    ensures OpOf(Name(op)) == Some(op)
  {
  }

  lemma MemberRoundTrip(op: Operation)
    requires op.AddGroupMember? || op.RemoveGroupMember? || op.MoveObject? || op.RenameObject?
    ensures OpOf(Name(op)) == Some(op)
  {
  }

  lemma CreateRoundTrip(op: Operation)
    requires op.NewUser? || op.NewGroup? || op.NewContact?
    ensures OpOf(Name(op)) == Some(op)
  {
  }

  lemma RemovalRoundTrip(op: Operation)
    requires op.RemoveObject? || op.RemoveUser? || op.RemoveGroup? || op.RemoveComputer? || op.RemoveContact?
    ensures OpOf(Name(op)) == Some(op)
  {
    var n := Name(op);
    assert n[0] == 'r';
    assert LookupOp(n).None? && ChangeOp(n).None? && CreateOp(n).None?;
    assert MemberOp(n).None?;
    assert RemovalOp(n) == Some(op);
  }

  /** A text the worker finds no operation for is no operation's name. */
  lemma UnknownName(s: string)
    requires OpOf(s).None?
    ensures forall op: Operation :: Name(op) != s
  {
    forall op: Operation ensures Name(op) != s {
      NameRoundTrip(op);
    }
  }

  /** The operations that create an object rather than act on an existing one. */
  predicate Creates(op: Operation) {
    op.NewUser? || op.NewGroup? || op.NewContact?
  }

  /** The lookup arguments every `get_*` call packs. */
  const LookupNames: seq<string> := ["identity", "ldap_filter", "properties", "search_scope"]

  /** The arguments every `set_*` call packs first. */
  const ChangeNames: seq<string> :=
    ["identity", "remove", "add", "replace", "clear", "display_name", "description"]

  /** The flags the user calls share, after the user principal name. */
  const UserFlagNames: seq<string> :=
    ["enabled", "password_never_expires", "account_not_delegated", "change_password_at_logon",
     "account_expiration_date"]

  /**
   * The parameter names of an operation, in the order the client packs
   * them; the direct hook's method takes the same names in the same order.
   * The creators begin with the container and the name and take no
   * identity; every other operation begins with the identity it acts on.
   */
  function ParamNames(op: Operation): (r: seq<string>)
    ensures Creates(op) ==> |r| >= 2 && r[0] == "path" && r[1] == "name" && "identity" !in r
    ensures !Creates(op) ==> |r| >= 1 && r[0] == "identity"
  {
    match op
    case GetObject => LookupNames + ["type_object"]
    case GetUser | GetGroup | GetComputer | GetContact => LookupNames
    case GetGroupMember | SetAccountUnlock => ["identity"]
    case SetObject | SetComputer | SetContact => ChangeNames
    case SetUser => ChangeNames + ["sam_account_name", "user_principal_name"] + UserFlagNames
    case SetGroup => ChangeNames + ["sam_account_name", "group_scope", "group_category"]
    case SetAccountPassword => ["identity", "account_password"]
    case AddGroupMember | RemoveGroupMember => ["identity", "members"]
    case MoveObject => ["identity", "target_path"]
    case RenameObject => ["identity", "new_name"]
    case NewUser =>
      ["path", "name", "sam_account_name", "account_password", "display_name", "user_principal_name"]
      + UserFlagNames + ["other_attributes"]
    case NewGroup =>
      ["path", "name", "sam_account_name", "display_name", "group_scope", "group_category", "other_attributes"]
    case NewContact => ["path", "name", "display_name", "other_attributes"]
    case RemoveObject => ["identity", "type_object"]
    case RemoveUser | RemoveGroup | RemoveComputer | RemoveContact => ["identity"]
  }

  /** No name occurs twice. */
  predicate Distinct(ns: seq<string>) {
    forall a, b | 0 <= a < b < |ns| :: ns[a] != ns[b]
  }

  /** No operation declares a parameter twice, so a packed dict has one entry per given argument. */
  lemma ParamsDistinct(op: Operation)
    ensures Distinct(ParamNames(op))
  {
    match op
    case NewUser => NewUserParamsDistinct();
    case SetUser => SetUserParamsDistinct();
    case NewGroup => NewGroupParamsDistinct();
    case SetGroup => SetGroupParamsDistinct();
    case SetObject | SetComputer | SetContact => ChangeParamsDistinct(op);
    case _ =>
  }

  lemma NewUserParamsDistinct() ensures Distinct(ParamNames(NewUser)) { }
  lemma SetUserParamsDistinct() ensures Distinct(ParamNames(SetUser)) { }
  lemma NewGroupParamsDistinct() ensures Distinct(ParamNames(NewGroup)) { }
  lemma SetGroupParamsDistinct() ensures Distinct(ParamNames(SetGroup)) { }
  lemma ChangeParamsDistinct(op: Operation)
    requires op.SetObject? || op.SetComputer? || op.SetContact?
    ensures Distinct(ParamNames(op))
  {
    assert ParamNames(op) == ChangeNames;
  }

  /**
   * How many leading parameters the direct hook's method declares without
   * a default (app/ds/ds_hook.py): a call that leaves one out fails there.
   */
  function Required(op: Operation): (n: nat)
    ensures n <= |ParamNames(op)|
  {
    match op
    case GetObject | GetUser | GetGroup | GetComputer | GetContact => 0
    case NewUser => 4
    case NewGroup => 3
    case SetAccountPassword | AddGroupMember | RemoveGroupMember | MoveObject | RenameObject | NewContact => 2
    case _ => 1
  }

  /**
   * `{k: v for k, v in {...}.items() if v is not None}`: the named
   * arguments that were given, in parameter order.
   */
  function Pack(names: seq<string>, args: seq<Json>): (kw: seq<Entry>)
    requires |names| == |args|
    ensures |kw| <= |names|
    ensures forall e | e in kw :: e.value != JNull
    ensures forall e | e in kw :: exists i | 0 <= i < |names| :: e == Entry(names[i], args[i])
    ensures forall i | 0 <= i < |names| && args[i] != JNull :: Entry(names[i], args[i]) in kw
  {
    if |names| == 0 then []
    else
      var rest := Pack(names[1..], args[1..]);
      assert forall i | 1 <= i < |names| :: names[1..][i - 1] == names[i] && args[1..][i - 1] == args[i];
      if args[0] == JNull then rest else [Entry(names[0], args[0])] + rest
  }

  /** Only given arguments reach the worker, each under its own parameter's name. */
  lemma PackedKeys(names: seq<string>, args: seq<Json>, key: string)
    requires |names| == |args|
    ensures key in KeysOf(Pack(names, args)) <==>
              exists i | 0 <= i < |names| :: names[i] == key && args[i] != JNull
  {
    var kw := Pack(names, args);
    if key in KeysOf(kw) {
      var j :| 0 <= j < |kw| && KeysOf(kw)[j] == key;
      assert kw[j] in kw;
    }
    if i :| 0 <= i < |names| && names[i] == key && args[i] != JNull {
      var e := Entry(names[i], args[i]);
      assert e in kw;
      var j :| 0 <= j < |kw| && kw[j] == e;
      assert KeysOf(kw)[j] == key;
    }
  }

  /** What the client knows about the directory it wants to reach. */
  datatype Login = Login(
    login: string, password: string, host: string, port: int,
    base: Option<string>, dryRun: bool, logLevel: int)

  /** The client's own default port and log level (`logging.INFO`). */
  const DefaultPort := 636
  const DefaultLogLevel := 20

  /** `param_conn`: all seven connection settings, `None` included. */
  function ConnParams(c: Login): (kw: seq<Entry>)
    ensures |kw| == 7
    ensures kw[0] == Entry("login", JStr(c.login)) && kw[2] == Entry("host", JStr(c.host))
    ensures c.base.Some? <==> kw[4].value != JNull
  {
    [Entry("login", JStr(c.login)),
     Entry("password", JStr(c.password)),
     Entry("host", JStr(c.host)),
     Entry("port", JInt(c.port)),
     Entry("base", if c.base.Some? then JStr(c.base.value) else JNull),
     Entry("dry_run", JBool(c.dryRun)),
     Entry("log_level", JInt(c.logLevel))]
  }

  /**
   * `encode_param`: `json.dumps`, which raises TypeError on a value JSON
   * cannot hold, then the encryption and base64 that `seal` stands for;
   * `seal` may refuse too (RSA-OAEP refuses a text longer than the key
   * allows).
   */
  function EncodeParam(seal: Json -> Result<string>, j: Json): (r: Result<string>)
    ensures r.Ok? ==> Storable(j) && r == seal(j)
    ensures !Storable(j) ==> RaisedAs(r, TypeError)
  {
    if Storable(j) then seal(j) else Raise(TypeError, "Object is not JSON serializable")
  }

  /**
   * The row a call inserts: waiting, named by the operation, with both
   * parameter dicts encoded. The connection dict is encoded when the client
   * is built and the query when the call is made; either failing raises
   * before anything is inserted.
   */
  function Enqueue(id: nat, op: Operation, args: seq<Json>, c: Login, seal: Json -> Result<string>, now: int)
    : (r: Result<Task>)
    requires |args| == |ParamNames(op)|
    ensures r.Ok? <==> seal(JDict(ConnParams(c))).Ok? && EncodeParam(seal, JDict(Pack(ParamNames(op), args))).Ok?
    ensures r.Ok? ==> (forall i | 0 <= i < |args| :: Storable(args[i]))
    ensures (exists i | 0 <= i < |args| :: !Storable(args[i])) && seal(JDict(ConnParams(c))).Ok? ==>
              RaisedAs(r, TypeError)
    ensures r.Ok? ==> Pending(r.value) && r.value.id == id && r.value.result == JNull && r.value.createdAt == now
    ensures r.Ok? ==> r.value.typeQuery == Name(op)
    ensures r.Ok? ==> r.value.paramConn == seal(JDict(ConnParams(c))).value
    ensures r.Ok? ==> r.value.paramQuery == seal(JDict(Pack(ParamNames(op), args))).value
  {
    ConnStorable(c);
    PackStorable(ParamNames(op), args);
    var conn :- EncodeParam(seal, JDict(ConnParams(c)));
    var query :- EncodeParam(seal, JDict(Pack(ParamNames(op), args)));
    Ok(Task(id, Waiting, Name(op), conn, query, JNull, now))
  }

  /** The connection dict holds only strings, numbers, booleans and `None`. */
  lemma ConnStorable(c: Login)
    ensures Storable(JDict(ConnParams(c)))
    ensures AsLoaded(JDict(ConnParams(c))) == JDict(ConnParams(c))
  {
    var es := ConnParams(c);
    assert forall i | 0 <= i < |es| :: !es[i].value.JList? && !es[i].value.JTuple? && !es[i].value.JDict?
                                       && !es[i].value.JOther?;
    assert AsLoaded(JDict(es)).entries == es;
  }

  /** A packed dict can be dumped exactly when every argument can. */
  lemma {:induction false} PackStorable(names: seq<string>, args: seq<Json>)
    requires |names| == |args|
    ensures Storable(JDict(Pack(names, args))) <==> forall i | 0 <= i < |args| :: Storable(args[i])
  {
    if |names| > 0 {
      PackStorable(names[1..], args[1..]);
      var rest := Pack(names[1..], args[1..]);
      assert forall i | 1 <= i < |args| :: args[1..][i - 1] == args[i];
      if args[0] != JNull {
        assert Pack(names, args) == [Entry(names[0], args[0])] + rest;
        assert forall i | 1 <= i <= |rest| :: Pack(names, args)[i] == rest[i - 1];
      }
    }
  }

  /** Each argument as JSON loads it back. */
  function LoadedAll(args: seq<Json>): (r: seq<Json>)
    ensures |r| == |args|
    ensures forall i | 0 <= i < |args| :: r[i] == AsLoaded(args[i])
  {
    seq(|args|, i requires 0 <= i < |args| => AsLoaded(args[i]))
  }

  /** The worker loads a packed dict as the dict packed from the loaded arguments. */
  lemma {:induction false} PackLoaded(names: seq<string>, args: seq<Json>)
    requires |names| == |args|
    ensures AsLoaded(JDict(Pack(names, args))) == JDict(Pack(names, LoadedAll(args)))
  {
    if |names| > 0 {
      var loaded := LoadedAll(args);
      PackLoaded(names[1..], args[1..]);
      assert loaded[1..] == LoadedAll(args[1..]);
      AsLoadedNull(args[0]);
      var rest := Pack(names[1..], args[1..]);
      if args[0] != JNull {
        assert Pack(names, args) == [Entry(names[0], args[0])] + rest;
        assert Pack(names, loaded) == [Entry(names[0], loaded[0])] + Pack(names[1..], loaded[1..]);
        LoadedCons(Entry(names[0], args[0]), rest);
      } else {
        assert Pack(names, args) == rest;
        assert Pack(names, loaded) == Pack(names[1..], loaded[1..]);
      }
    }
  }


  // ---------------------------------------------------------------------
  // Polling

  /** Python's `int(a / b)`: the quotient truncated toward zero. */
  function TruncDiv(a: int, b: int): (q: int)
    requires b > 0
    ensures a >= 0 ==> b * q <= a < b * (q + 1)
    ensures a < 0 ==> b * (q - 1) < a <= b * q
  {
    if a >= 0 then a / b else -((-a) / b)
  }

  /** `len(range(int(timeout / 10)))`: how many times the client looks. */
  function Polls(timeout: int): (n: nat)
    ensures timeout < 10 <==> n == 0
  {
    var q := TruncDiv(timeout, 10);
    if q < 0 then 0 else q
  }

  /** The wait before the first look, after inserting the row. */
  const FirstWait := 10

  /**
   * The seconds after the insert at which the client looks, as written: the
   * sleep between looks is `int(timeout / 10)` seconds, the same number as
   * the count of looks.
   */
  function PollTimesAsWritten(timeout: int): (ts: seq<nat>)
    ensures |ts| == Polls(timeout)
    ensures forall i | 0 <= i < |ts| :: ts[i] == FirstWait + i * Polls(timeout)
  {
    seq(Polls(timeout), i requires 0 <= i < Polls(timeout) => FirstWait + i * Polls(timeout))
  }

  /** The seconds after the insert at which the client gives up, as written. */
  function GiveUpAsWritten(timeout: int): (s: nat) {
    FirstWait + Polls(timeout) * Polls(timeout)
  }

  /** With the default timeout of 300 seconds the client waits 910 seconds, not the five minutes it reports. */
  lemma DefaultTimeoutAsWritten()
    ensures Polls(300) == 30 && GiveUpAsWritten(300) == 910
  {
  }

  /** The seconds at which the client looks: every ten seconds after the first wait. */
  function PollTimes(timeout: int): (ts: seq<nat>)
    ensures |ts| == Polls(timeout)
    ensures forall i | 0 <= i < |ts| :: ts[i] == FirstWait + 10 * i
  {
    seq(Polls(timeout), i requires 0 <= i < Polls(timeout) => FirstWait + 10 * i)
  }

  /** When the client gives up: the last look plus one pause. */
  function GiveUp(timeout: int): (s: nat)
    ensures |PollTimes(timeout)| > 0 ==> s == PollTimes(timeout)[|PollTimes(timeout)| - 1] + 10
  {
    FirstWait + 10 * Polls(timeout)
  }

  /** With the evident intent, the client gives up within ten seconds after the timeout, and not before it. */
  lemma GiveUpWithinTimeout(timeout: int)
    requires timeout >= 0
    ensures timeout < GiveUp(timeout) <= timeout + FirstWait
  {
  }

  /** The message the client raises when nothing arrives in time. */
  const TimeoutMessage := "Данные не появились за 5 минут"

  /** What the client hands back: a list becomes `DSDict`s, anything else is passed through. */
  datatype Reply = Objects(objects: seq<DSDict<Json>>) | Value(value: Json)

  /** A dict's entries as the pairs `DSDict` is built from. */
  function Pairs(es: seq<Entry>): (ps: seq<(string, Json)>)
    ensures |ps| == |es|
    ensures forall i | 0 <= i < |es| :: ps[i] == (es[i].key, es[i].value)
  {
    seq(|es|, i requires 0 <= i < |es| => (es[i].key, es[i].value))
  }

  /**
   * What `for x in v` yields: the items of a list or tuple, the one-character
   * strings of a string, the keys of a dict; `None` for a value that cannot
   * be iterated.
   */
  function Elements(v: Json): (r: Option<seq<Json>>)
    ensures r.Some? <==> v.JList? || v.JTuple? || v.JStr? || v.JDict?
    ensures v.JList? || v.JTuple? ==> r == Some(v.items)
    ensures v.JStr? ==> r.Some? && |r.value| == |v.s| && forall i | 0 <= i < |v.s| :: r.value[i] == JStr([v.s[i]])
    ensures v.JDict? ==> r.Some? && |r.value| == |v.entries|
                         && forall i | 0 <= i < |v.entries| :: r.value[i] == JStr(v.entries[i].key)
  {
    match v
    case JList(xs) => Some(xs)
    case JTuple(xs) => Some(xs)
    case JStr(cs) => Some(seq(|cs|, i requires 0 <= i < |cs| => JStr([cs[i]])))
    case JDict(es) => Some(seq(|es|, i requires 0 <= i < |es| => JStr(es[i].key)))
    case _ => None
  }

  /**
   * `key, value = e` followed by `self[key] = value` for one element of a
   * seed that is not a mapping: the element must yield exactly two values,
   * and the first must be text for `casefold`.
   */
  function PairOf(e: Json): (r: Result<(string, Json)>)
    ensures Elements(e).None? ==> RaisedAs(r, TypeError)
    ensures Elements(e).Some? && |Elements(e).value| != 2 ==> RaisedAs(r, ValueError)
    ensures Elements(e).Some? && |Elements(e).value| == 2 ==>
              (r.Ok? <==> Elements(e).value[0].JStr?)
              && (r.Ok? ==> r.value == (Elements(e).value[0].s, Elements(e).value[1]))
              && (r.Err? ==> RaisedAs(r, AttributeError))
  {
    match Elements(e)
    case None => Raise(TypeError, "cannot unpack non-iterable object")
    case Some(vs) =>
      if |vs| != 2 then Raise(ValueError, "wrong number of values to unpack")
      else if vs[0].JStr? then Ok((vs[0].s, vs[1]))
      else Raise(AttributeError, "object has no attribute 'casefold'")
  }

  /**
   * `DSDict(i)` for one element of a returned list, through `update`: a
   * dict gives its entries, `None` an empty map, anything else is iterated
   * and each element unpacked into a key and a value; the first element
   * that does not unpack raises.
   */
  function ToObject(x: Json): (r: Result<DSDict<Json>>)
    ensures r.Ok? ==> Valid(r.value)
    ensures x.JDict? ==> r == Ok(FromPairs(Pairs(x.entries)))
    ensures x.JNull? || x == JStr("") ==> r.Ok? && r.value.entries == []
    ensures x.JStr? && x.s != "" ==> RaisedAs(r, ValueError)
    ensures x.JBool? || x.JInt? || x.JOther? ==> RaisedAs(r, TypeError)
    ensures x.JList? || x.JTuple? ==> (r.Ok? <==> forall i | 0 <= i < |x.items| :: PairOf(x.items[i]).Ok?)
    ensures (x.JList? || x.JTuple?) && r.Ok? ==>
              exists ps: seq<(string, Json)> :: |ps| == |x.items| && r.value == FromPairs(ps)
                && forall i | 0 <= i < |ps| :: PairOf(x.items[i]) == Ok(ps[i])
    ensures (x.JList? || x.JTuple?) && r.Err? ==>
              exists i | 0 <= i < |x.items| :: PairOf(x.items[i]) == Err(r.failure)
                && forall j | 0 <= j < i :: PairOf(x.items[j]).Ok?
  {
    if x.JDict? then Ok(FromPairs(Pairs(x.entries)))
    else if x.JNull? then Ok(Empty())
    else match Elements(x)
      case None => Raise(TypeError, "object is not iterable")
      case Some(vs) =>
        assert x.JStr? && x.s != "" ==> RaisedAs(PairOf(vs[0]), ValueError);
        var ps :- MapAll(vs, PairOf);
        Ok(FromPairs(ps))
  }

  /** A list of pairs and two-character strings is accepted, each giving one key and its value. */
  lemma PairListAccepted()
    ensures ToObject(JList([JList([JStr("cn"), JInt(1)]), JStr("ab")]))
            == Ok(DSDict([("cn", JInt(1)), ("a", JStr("b"))]))
  {
    var x := JList([JList([JStr("cn"), JInt(1)]), JStr("ab")]);
    var ps := [("cn", JInt(1)), ("a", JStr("b"))];
    PairsOfExample();
    assert Elements(x) == Some(x.items);
    assert forall i | 0 <= i < |x.items| :: PairOf(x.items[i]) == Ok(ps[i]);
    MapAllValues(x.items, PairOf, ps);
    assert FromPairs(ps) == DSDict(ps) by {
      SetAllFresh(Empty(), ps);
    }
  }

  /** The two elements of the example each unpack to one key and its value. */
  lemma PairsOfExample()
    ensures PairOf(JList([JStr("cn"), JInt(1)])) == Ok(("cn", JInt(1)))
    ensures PairOf(JStr("ab")) == Ok(("a", JStr("b")))
  {
    assert Elements(JStr("ab")).value == [JStr("a"), JStr("b")];
  }

  /** A pair whose key is not text, a longer string and a number are refused. */
  lemma NonPairsRefused()
    ensures ToObject(JList([JList([JInt(1), JInt(2)])])) == Raise(AttributeError, "object has no attribute 'casefold'")
    ensures ToObject(JStr("ab")) == Raise(ValueError, "wrong number of values to unpack")
    ensures ToObject(JInt(7)) == Raise(TypeError, "object is not iterable")
  {
    assert PairOf(JList([JInt(1), JInt(2)])) == Raise(AttributeError, "object has no attribute 'casefold'");
    assert Elements(JStr("ab")).value[0] == JStr("a");
  }

  /**
   * What the client makes of a finished row: an error row raises
   * `RuntimeError` with the printed result, a list comes back as
   * `DSDict`s (a `None` item as an empty one), any other result as it is.
   */
  function Answer(row: Task, show: Json -> string): (r: Result<Reply>)
    requires Finished(row)
    ensures row.status == Error ==> r == Raise(RuntimeError, show(row.result))
    ensures row.status == Complete && !row.result.JList? ==> r == Ok(Value(row.result))
    ensures row.status == Complete && row.result.JList? ==>
              (r.Ok? <==> forall i | 0 <= i < |row.result.items| :: ToObject(row.result.items[i]).Ok?)
    ensures row.status == Complete && row.result.JList? && r.Ok? ==>
              r.value.Objects? && |r.value.objects| == |row.result.items|
              && forall i | 0 <= i < |row.result.items| :: ToObject(row.result.items[i]) == Ok(r.value.objects[i])
    ensures row.status == Complete && row.result.JList? && r.Err? ==>
              exists i | 0 <= i < |row.result.items| :: ToObject(row.result.items[i]) == Err(r.failure)
    ensures !RaisedAs(r, TimeoutError)
  {
    if row.status == Error then Raise(RuntimeError, show(row.result))
    else if row.result.JList? then
      var objects :- MapAll(row.result.items, ToObject);
      Ok(Objects(objects))
    else Ok(Value(row.result))
  }

  /** The row as the client's select sees it at time `t`: present and finished. */
  predicate Seen(poll: nat -> Option<Task>, t: nat) {
    poll(t).Some? && Finished(poll(t).value)
  }

  /** The first look, among `times`, that finds the row finished. */
  function FirstSeen(poll: nat -> Option<Task>, times: seq<nat>): (r: Option<nat>)
    ensures r.Some? ==> r.value < |times| && Seen(poll, times[r.value])
                        && forall j | 0 <= j < r.value :: !Seen(poll, times[j])
    ensures r.None? <==> forall j | 0 <= j < |times| :: !Seen(poll, times[j])
  {
    if |times| == 0 then None
    else if Seen(poll, times[0]) then Some(0)
    else
      match FirstSeen(poll, times[1..])
      case Some(j) => Some(j + 1)
      case None => None
  }

  /**
   * The reference outcome of a call whose row reads `poll(t)` at `t`
   * seconds after the insert: the answer of the first look that finds it
   * finished, or `TimeoutError`.
   */
  function Outcome(poll: nat -> Option<Task>, times: seq<nat>, show: Json -> string): (r: Result<Reply>)
    ensures RaisedAs(r, TimeoutError) <==> forall j | 0 <= j < |times| :: !Seen(poll, times[j])
  {
    match FirstSeen(poll, times)
    case Some(j) => Answer(poll(times[j]).value, show)
    case None => Raise(TimeoutError, TimeoutMessage)
  }

  /**
   * `request` after the insert: look at the row at each of `times` (seconds
   * after the insert) and answer from the first look that finds it
   * finished. The DELETE and the answer run in one transaction, which
   * commits only when the block is left without an exception: the row is
   * removed exactly when the answer is a value. The clock and the database
   * are the `poll` oracle.
   */
  method Request(poll: nat -> Option<Task>, times: seq<nat>, show: Json -> string)
    returns (r: Result<Reply>, deleted: bool)
    ensures r == Outcome(poll, times, show)
    ensures deleted <==> r.Ok?
    ensures deleted ==> exists i | 0 <= i < |times| :: Seen(poll, times[i])
    ensures (exists i | 0 <= i < |times| :: Seen(poll, times[i])) <==> !RaisedAs(r, TimeoutError)
  {
    var i := 0;
    while i < |times|
      invariant 0 <= i <= |times|
      invariant forall j | 0 <= j < i :: !Seen(poll, times[j])
    {
      var t := times[i];
      if poll(t).Some? && Finished(poll(t).value) {
        assert FirstSeen(poll, times) == Some(i) by { FirstSeenAt(poll, times, i); }
        r := Answer(poll(t).value, show);
        return r, r.Ok?;
      }
      i := i + 1;
    }
    return Raise(TimeoutError, TimeoutMessage), false;
  }

  /**
   * `request` as written: the looks come `int(timeout / 10)` seconds apart,
   * as many times as that number.
   */
  method RequestAsWritten(poll: nat -> Option<Task>, timeout: int, show: Json -> string)
    returns (r: Result<Reply>, deleted: bool)
    ensures r == Outcome(poll, PollTimesAsWritten(timeout), show)
    ensures deleted <==> r.Ok?
    ensures RaisedAs(r, TimeoutError) <==> forall j | 0 <= j < Polls(timeout) :: !Seen(poll, LookAsWritten(timeout, j))
  {
    r, deleted := Request(poll, PollTimesAsWritten(timeout), show);
    UnseenAsWritten(poll, timeout);
  }

  /** No look of the as-written schedule sees the row exactly when none at `10 + j * int(timeout / 10)` does. */
  lemma UnseenAsWritten(poll: nat -> Option<Task>, timeout: int)
    ensures (forall j | 0 <= j < |PollTimesAsWritten(timeout)| :: !Seen(poll, PollTimesAsWritten(timeout)[j]))
            <==> forall j | 0 <= j < Polls(timeout) :: !Seen(poll, LookAsWritten(timeout, j))
  {
    var times := PollTimesAsWritten(timeout);
    if exists j | 0 <= j < |times| :: Seen(poll, times[j]) {
      var j :| 0 <= j < |times| && Seen(poll, times[j]);
      assert Seen(poll, LookAsWritten(timeout, j));
    } else {
      forall j | 0 <= j < Polls(timeout) ensures !Seen(poll, LookAsWritten(timeout, j)) {
        assert times[j] == LookAsWritten(timeout, j);
      }
    }
  }

  /** The second of look `j` as written: `10 + j * int(timeout / 10)`. */
  function LookAsWritten(timeout: int, j: nat): nat {
    FirstWait + j * Polls(timeout)
  }

  /** `request` as evidently intended: a look every ten seconds, `int(timeout / 10)` times. */
  method RequestIntended(poll: nat -> Option<Task>, timeout: int, show: Json -> string)
    returns (r: Result<Reply>, deleted: bool)
    ensures r == Outcome(poll, PollTimes(timeout), show)
    ensures deleted <==> r.Ok?
    ensures RaisedAs(r, TimeoutError) <==> forall j | 0 <= j < Polls(timeout) :: !Seen(poll, FirstWait + 10 * j)
  {
    r, deleted := Request(poll, PollTimes(timeout), show);
    UnseenIntended(poll, timeout);
  }

  /** No look of the intended schedule sees the row exactly when none at `10 + 10 * j` does. */
  lemma UnseenIntended(poll: nat -> Option<Task>, timeout: int)
    ensures (forall j | 0 <= j < |PollTimes(timeout)| :: !Seen(poll, PollTimes(timeout)[j]))
            <==> forall j | 0 <= j < Polls(timeout) :: !Seen(poll, FirstWait + 10 * j)
  {
    var times := PollTimes(timeout);
    if exists j | 0 <= j < |times| :: Seen(poll, times[j]) {
      var j :| 0 <= j < |times| && Seen(poll, times[j]);
      assert Seen(poll, FirstWait + 10 * j);
    } else {
      forall j | 0 <= j < Polls(timeout) ensures !Seen(poll, FirstWait + 10 * j) {
        assert times[j] == FirstWait + 10 * j;
      }
    }
  }

  /** The first look that finds the row is the one `FirstSeen` names. */
  lemma FirstSeenAt(poll: nat -> Option<Task>, times: seq<nat>, i: nat)
    requires i < |times| && Seen(poll, times[i])
    requires forall j | 0 <= j < i :: !Seen(poll, times[j])
    ensures FirstSeen(poll, times) == Some(i)
  {
    var r := FirstSeen(poll, times);
    assert r.Some?;
    if r.value < i {
    } else if r.value > i {
    }
  }
}
