/**
 * The JSON-like values the gateway moves around: the parameters a producer
 * queues, the results a worker stores, the arguments a log record carries.
 */
module JsonData {
  /**
   * A Python value as it travels as JSON; a tuple is kept apart from a
   * list, and `JOther` stands for a value JSON cannot hold (a datetime, an
   * exception object), named by its type.
   */
  datatype Json =
    | JNull
    | JBool(b: bool)
    | JInt(i: int)
    | JStr(s: string)
    | JList(items: seq<Json>)
    | JTuple(items: seq<Json>)
    | JDict(entries: seq<Entry>)
    | JOther(typeName: string)

  /** One key of a dict and its value, in insertion order. */
  datatype Entry = Entry(key: string, value: Json)

  /** The keys of a dict, in order. */
  function KeysOf(es: seq<Entry>): (ks: seq<string>)
    ensures |ks| == |es|
    ensures forall i | 0 <= i < |es| :: ks[i] == es[i].key
  {
    seq(|es|, i requires 0 <= i < |es| => es[i].key)
  }

  /** `json.dumps` accepts the value: nothing in it, at any depth, is a `JOther`. */
  predicate Storable(j: Json)
    decreases j
  {
    match j
    case JOther(_) => false
    case JList(xs) => forall i | 0 <= i < |xs| :: assert xs[i] in xs; Storable(xs[i])
    case JTuple(xs) => forall i | 0 <= i < |xs| :: assert xs[i] in xs; Storable(xs[i])
    case JDict(es) => forall i | 0 <= i < |es| :: assert es[i] in es; Storable(es[i].value)
    case _ => true
  }

  /** `json.loads(json.dumps(j))`: every tuple, at any depth, comes back as a list. */
  function AsLoaded(j: Json): (r: Json)
    decreases j
  {
    match j
    case JList(xs) => JList(seq(|xs|, i requires 0 <= i < |xs| => assert xs[i] in xs; AsLoaded(xs[i])))
    case JTuple(xs) => JList(seq(|xs|, i requires 0 <= i < |xs| => assert xs[i] in xs; AsLoaded(xs[i])))
    case JDict(es) =>
      JDict(seq(|es|, i requires 0 <= i < |es| => assert es[i] in es; Entry(es[i].key, AsLoaded(es[i].value))))
    case _ => j
  }

  /** Nothing that comes back from JSON is a tuple or a `JOther`, so loading again changes nothing. */
  predicate Loaded(j: Json)
    decreases j
  {
    match j
    case JOther(_) => false
    case JTuple(_) => false
    case JList(xs) => forall i | 0 <= i < |xs| :: assert xs[i] in xs; Loaded(xs[i])
    case JDict(es) => forall i | 0 <= i < |es| :: assert es[i] in es; Loaded(es[i].value)
    case _ => true
  }

  /** A stored value comes back as a loaded one, and a loaded one comes back as itself. */
  lemma {:induction false} AsLoadedLoads(j: Json)
    requires Storable(j)
    ensures Loaded(AsLoaded(j))
    ensures Loaded(j) ==> AsLoaded(j) == j
    decreases j
  {
    match j
    case JList(xs) =>
      forall i | 0 <= i < |xs| ensures Loaded(AsLoaded(xs[i])) && (Loaded(xs[i]) ==> AsLoaded(xs[i]) == xs[i]) {
        assert xs[i] in xs;
        AsLoadedLoads(xs[i]);
      }
      if Loaded(j) {
        assert AsLoaded(j).items == xs;
      }
    case JTuple(xs) =>
      forall i | 0 <= i < |xs| ensures Loaded(AsLoaded(xs[i])) {
        assert xs[i] in xs;
        AsLoadedLoads(xs[i]);
      }
    case JDict(es) =>
      forall i | 0 <= i < |es|
        ensures Loaded(AsLoaded(es[i].value)) && (Loaded(es[i].value) ==> AsLoaded(es[i].value) == es[i].value)
      {
        assert es[i] in es;
        AsLoadedLoads(es[i].value);
      }
      if Loaded(j) {
        assert AsLoaded(j).entries == es;
      }
    case _ =>
  }

  /** A dict loads entry by entry. */
  lemma LoadedCons(e: Entry, es: seq<Entry>)
    ensures AsLoaded(JDict([e] + es)) == JDict([Entry(e.key, AsLoaded(e.value))] + AsLoaded(JDict(es)).entries)
  {
    var l := AsLoaded(JDict([e] + es)).entries;
    var r := [Entry(e.key, AsLoaded(e.value))] + AsLoaded(JDict(es)).entries;
    assert |l| == |r|;
    forall i | 0 <= i < |l| ensures l[i] == r[i] {
      if i > 0 {
        assert ([e] + es)[i] == es[i - 1];
      }
    }
  }

  /** Loading keeps `None` apart from every other value. */
  lemma AsLoadedNull(j: Json)
    ensures AsLoaded(j) == JNull <==> j == JNull
  {
  }
}
