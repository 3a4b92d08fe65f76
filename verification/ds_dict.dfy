/**
 * The case-insensitive ordered map `DSDict` (app/ds/ds_dict.py) that every
 * other component uses for directory objects and option sets.
 *
 * The Python class keeps a plain dict keyed by the case-folded key and a side
 * table from folded key to the original key. Here the two tables are one
 * sequence of `(original key, value)` pairs in the insertion order of the
 * folded keys; `Valid` says no two pairs share a folded key. Python dicts keep
 * the position of an overwritten key and append new keys, which is what `Set`
 * does.
 */
module DsDict {
  import opened Wrappers
  import opened Text

  datatype DSDict<V> = DSDict(entries: seq<(string, V)>)

  /** The representation invariant: folded keys are pairwise distinct. */
  ghost predicate Valid<V>(m: DSDict<V>) {
    forall i, j :: 0 <= i < j < |m.entries| ==> Fold(m.entries[i].0) != Fold(m.entries[j].0)
  }

  function Empty<V>(): (m: DSDict<V>)
    ensures Valid(m)
  {
    DSDict([])
  }

  /** Position of the entry whose key folds to `fk`. */
  function IndexOf<V>(es: seq<(string, V)>, fk: string): (r: Option<nat>)
    ensures r.Some? ==> r.value < |es| && Fold(es[r.value].0) == fk
    ensures r.Some? ==> forall j :: 0 <= j < r.value ==> Fold(es[j].0) != fk
    ensures r.None? ==> forall j :: 0 <= j < |es| ==> Fold(es[j].0) != fk
  {
    if |es| == 0 then None
    else if Fold(es[0].0) == fk then Some(0)
    else
      match IndexOf(es[1..], fk)
      case Some(i) => Some(i + 1)
      case None => None
  }

  /** `IndexOf` finds the first position holding the folded key. */
  lemma IndexOfAt<V>(es: seq<(string, V)>, j: nat, fk: string)
    requires j < |es| && Fold(es[j].0) == fk
    requires forall i :: 0 <= i < j ==> Fold(es[i].0) != fk
    ensures IndexOf(es, fk) == Some(j)
  {
  }

  /** The entry (remembered key and value) addressed by `key`, in any casing. */
  function EntryOf<V>(m: DSDict<V>, key: string): (r: Option<(string, V)>)
    ensures r.Some? ==> SameFolded(r.value.0, key)
    ensures r.Some? <==> exists i :: 0 <= i < |m.entries| && Fold(m.entries[i].0) == Fold(key)
  {
    match IndexOf(m.entries, Fold(key))
    case Some(i) => Some(m.entries[i])
    case None => None
  }

  /** `key in d` (`__contains__`). */
  predicate Contains<V>(m: DSDict<V>, key: string) {
    EntryOf(m, key).Some?
  }

  /** The stored value, `None` when absent. */
  function Get<V>(m: DSDict<V>, key: string): Option<V> {
    match EntryOf(m, key)
    case Some(e) => Some(e.1)
    case None => None
  }

  /** The remembered original casing of `key`, `None` when absent. */
  function KeyOf<V>(m: DSDict<V>, key: string): Option<string> {
    match EntryOf(m, key)
    case Some(e) => Some(e.0)
    case None => None
  }

  /** Lookup, `get` and `in` depend on the key only through its folded form. */
  lemma LookupIgnoresCase<V>(m: DSDict<V>, k1: string, k2: string)
    requires SameFolded(k1, k2)
    ensures EntryOf(m, k1) == EntryOf(m, k2)
    ensures Contains(m, k1) <==> Contains(m, k2)
    ensures GetItem(m, k1) == GetItem(m, k2)
    ensures forall d: V :: GetOr(m, k1, d) == GetOr(m, k2, d)
  {
  }

  /** `d[key]` (`__getitem__`): the value, or `KeyError`. */
  function GetItem<V>(m: DSDict<V>, key: string): (r: Result<V>)
    ensures r.Ok? <==> Contains(m, key)
    ensures r.Ok? ==> Get(m, key) == Some(r.value)
    ensures r.Err? ==> r.failure.exc == KeyError
  {
    match EntryOf(m, key)
    case Some(e) => Ok(e.1)
    case None => Raise(KeyError, "key not present")
  }

  /** `d.get(key, default)`. */
  function GetOr<V>(m: DSDict<V>, key: string, default: V): (r: V)
    ensures Contains(m, key) ==> Get(m, key) == Some(r)
    ensures !Contains(m, key) ==> r == default
  {
    match EntryOf(m, key)
    case Some(e) => e.1
    case None => default
  }

  lemma EntryOfValid<V>(m: DSDict<V>, i: nat)
    requires Valid(m) && i < |m.entries|
    ensures EntryOf(m, m.entries[i].0) == Some(m.entries[i])
  {
  }

  /**
   * `d[key] = value` (`__setitem__`): the value is stored and the remembered
   * key becomes `key` itself, so the LATEST casing wins; an existing folded key
   * keeps its position, a new one is appended.
   */
  function Set<V>(m: DSDict<V>, key: string, value: V): (r: DSDict<V>)
    requires Valid(m)
    ensures Valid(r)
    ensures forall k :: EntryOf(r, k) == if SameFolded(k, key) then Some((key, value)) else EntryOf(m, k)
    ensures Contains(m, key) ==> |r.entries| == |m.entries|
                                  && forall i :: 0 <= i < |m.entries| ==> SameFolded(r.entries[i].0, m.entries[i].0)
    ensures !Contains(m, key) ==> r.entries == m.entries + [(key, value)]
  {
    match IndexOf(m.entries, Fold(key))
    case Some(i) => SetInPlace(m, i, key, value); DSDict(m.entries[i := (key, value)])
    case None => SetAppend(m, key, value); DSDict(m.entries + [(key, value)])
  }

  lemma SetInPlace<V>(m: DSDict<V>, i: nat, key: string, value: V)
    requires Valid(m) && IndexOf(m.entries, Fold(key)) == Some(i)
    ensures Valid(DSDict(m.entries[i := (key, value)]))
    ensures forall k :: EntryOf(DSDict(m.entries[i := (key, value)]), k)
                        == if SameFolded(k, key) then Some((key, value)) else EntryOf(m, k)
  {
    var r := DSDict(m.entries[i := (key, value)]);
    forall k ensures EntryOf(r, k) == if SameFolded(k, key) then Some((key, value)) else EntryOf(m, k) {
      if SameFolded(k, key) {
        IndexOfAt(r.entries, i, Fold(k));
      } else {
        match IndexOf(m.entries, Fold(k)) {
          case Some(j) => IndexOfAt(r.entries, j, Fold(k));
          case None =>
        }
      }
    }
  }

  lemma SetAppend<V>(m: DSDict<V>, key: string, value: V)
    requires Valid(m) && IndexOf(m.entries, Fold(key)).None?
    ensures Valid(DSDict(m.entries + [(key, value)]))
    ensures forall k :: EntryOf(DSDict(m.entries + [(key, value)]), k)
                        == if SameFolded(k, key) then Some((key, value)) else EntryOf(m, k)
  {
    var r := DSDict(m.entries + [(key, value)]);
    forall k ensures EntryOf(r, k) == if SameFolded(k, key) then Some((key, value)) else EntryOf(m, k) {
      if SameFolded(k, key) {
        IndexOfAt(r.entries, |m.entries|, Fold(k));
      } else {
        match IndexOf(m.entries, Fold(k)) {
          case Some(j) => IndexOfAt(r.entries, j, Fold(k));
          case None =>
        }
      }
    }
  }

  /**
   * Setting a key and then the same key in another casing leaves one entry,
   * holding the second value under the second casing.
   */
  lemma LatestCasingWins<V>(m: DSDict<V>, k1: string, k2: string, v1: V, v2: V)
    requires Valid(m) && SameFolded(k1, k2)
    ensures EntryOf(Set(Set(m, k1, v1), k2, v2), k1) == Some((k2, v2))
    ensures |Set(Set(m, k1, v1), k2, v2).entries| == |Set(m, k1, v1).entries|
  {
  }

  /** `del d[key]`: the entry and its remembered casing go, or `KeyError`. */
  function Del<V>(m: DSDict<V>, key: string): (r: Result<DSDict<V>>)
    requires Valid(m)
    ensures r.Err? <==> !Contains(m, key)
    ensures r.Err? ==> r.failure.exc == KeyError
    ensures r.Ok? ==> Valid(r.value) && |r.value.entries| == |m.entries| - 1
    ensures r.Ok? ==> forall k :: EntryOf(r.value, k) == if SameFolded(k, key) then None else EntryOf(m, k)
  {
    match IndexOf(m.entries, Fold(key))
    case Some(i) => Ok(Remove(m, i))
    case None => Raise(KeyError, "key not present")
  }

  /** Drops the entry at position `i`, keeping the order of the others. */
  function Remove<V>(m: DSDict<V>, i: nat): (r: DSDict<V>)
    requires Valid(m) && i < |m.entries|
    ensures Valid(r) && |r.entries| == |m.entries| - 1
    ensures forall k :: EntryOf(r, k) == if SameFolded(k, m.entries[i].0) then None else EntryOf(m, k)
  {
    RemoveLookup(m, i);
    DSDict(m.entries[..i] + m.entries[i + 1..])
  }

  lemma RemoveLookup<V>(m: DSDict<V>, i: nat)
    requires Valid(m) && i < |m.entries|
    ensures Valid(DSDict(m.entries[..i] + m.entries[i + 1..]))
    ensures forall k :: EntryOf(DSDict(m.entries[..i] + m.entries[i + 1..]), k)
                        == if SameFolded(k, m.entries[i].0) then None else EntryOf(m, k)
  {
    var r := DSDict(m.entries[..i] + m.entries[i + 1..]);
    assert forall j :: 0 <= j < |r.entries| ==> r.entries[j] == m.entries[if j < i then j else j + 1];
    forall k ensures EntryOf(r, k) == if SameFolded(k, m.entries[i].0) then None else EntryOf(m, k) {
      if !SameFolded(k, m.entries[i].0) {
        match IndexOf(m.entries, Fold(k)) {
          case Some(j) =>
            IndexOfAt(r.entries, if j < i then j else j - 1, Fold(k));
          case None =>
        }
      }
    }
  }

  /** `d.pop(key)` without a default: the value and the map without it, or `KeyError`. */
  function Pop<V>(m: DSDict<V>, key: string): (r: Result<(V, DSDict<V>)>)
    requires Valid(m)
    ensures r.Err? <==> !Contains(m, key)
    ensures r.Err? ==> r.failure.exc == KeyError
    ensures r.Ok? ==> Get(m, key) == Some(r.value.0) && Valid(r.value.1) && !Contains(r.value.1, key)
    ensures r.Ok? ==> forall k :: !SameFolded(k, key) ==> EntryOf(r.value.1, k) == EntryOf(m, k)
  {
    match IndexOf(m.entries, Fold(key))
    case Some(i) => Ok((m.entries[i].1, Remove(m, i)))
    case None => Raise(KeyError, "key not present")
  }

  /** `d.pop(key, default)`: never raises; an absent key leaves the map unchanged. */
  function PopOr<V>(m: DSDict<V>, key: string, default: V): (r: (V, DSDict<V>))
    requires Valid(m)
    ensures Valid(r.1) && !Contains(r.1, key)
    ensures Contains(m, key) ==> Get(m, key) == Some(r.0)
    ensures !Contains(m, key) ==> r == (default, m)
    ensures forall k :: !SameFolded(k, key) ==> EntryOf(r.1, k) == EntryOf(m, k)
  {
    match IndexOf(m.entries, Fold(key))
    case Some(i) => (m.entries[i].1, Remove(m, i))
    case None => (default, m)
  }

  /**
   * `d.setdefault(key, default)`: records `key`'s casing and `default` only
   * when the folded key is absent; otherwise value and casing are untouched.
   */
  function SetDefault<V>(m: DSDict<V>, key: string, default: V): (r: (V, DSDict<V>))
    requires Valid(m)
    ensures Valid(r.1)
    ensures Contains(m, key) ==> r.1 == m && Get(m, key) == Some(r.0)
    ensures !Contains(m, key) ==> r.0 == default && r.1.entries == m.entries + [(key, default)]
  {
    match EntryOf(m, key)
    case Some(e) => (e.1, m)
    case None => (default, Set(m, key, default))
  }

  /** Assigns the pairs in order, as the loops of `update` do. */
  function SetAll<V>(m: DSDict<V>, pairs: seq<(string, V)>): (r: DSDict<V>)
    requires Valid(m)
    ensures Valid(r)
    decreases |pairs|
  {
    if |pairs| == 0 then m else SetAll(Set(m, pairs[0].0, pairs[0].1), pairs[1..])
  }

  /**
   * `d.update(seed, **kwargs)`: `seed` is a mapping (its items) or an
   * iterable of pairs, `None` being the empty seed; the keyword arguments are
   * assigned after it.
   */
  function Update<V>(m: DSDict<V>, seed: seq<(string, V)>, kwargs: seq<(string, V)>): (r: DSDict<V>)
    requires Valid(m)
    ensures Valid(r)
  {
    SetAll(SetAll(m, seed), kwargs)
  }

  /** `DSDict(seed, **kwargs)`. */
  function New<V>(seed: seq<(string, V)>, kwargs: seq<(string, V)>): (r: DSDict<V>)
    ensures Valid(r)
  {
    Update(Empty(), seed, kwargs)
  }

  /** `DSDict(seed)`. */
  function FromPairs<V>(seed: seq<(string, V)>): (r: DSDict<V>)
    ensures Valid(r)
  {
    SetAll(Empty(), seed)
  }

  /** `d.keys()`: the remembered casings in insertion order. */
  function Keys<V>(m: DSDict<V>): (ks: seq<string>)
    ensures |ks| == |m.entries|
    ensures forall i :: 0 <= i < |ks| ==> ks[i] == m.entries[i].0
  {
    seq(|m.entries|, i requires 0 <= i < |m.entries| => m.entries[i].0)
  }

  /** `d.items()`: `(remembered key, value)` pairs in insertion order. */
  function Items<V>(m: DSDict<V>): seq<(string, V)> {
    m.entries
  }

  /** `d.copy()`: a fresh map filled from `d.items()`. */
  function Copy<V>(m: DSDict<V>): (r: DSDict<V>)
    requires Valid(m)
    ensures Valid(r)
  {
    SetAll(Empty(), Items(m))
  }

  /** `d | other`: a copy of `d` updated with `other`'s items. */
  function Or<V>(d: DSDict<V>, other: seq<(string, V)>): (r: DSDict<V>)
    requires Valid(d)
    ensures Valid(r)
  {
    SetAll(Copy(d), other)
  }

  /**
   * `other | d` with a plain mapping on the left (`__ror__`), as written: the
   * result is built from `other` twice over and `d` is never read.
   */
  function ROr<V>(other: seq<(string, V)>, d: DSDict<V>): (r: DSDict<V>)
    ensures Valid(r)
  {
    SetAll(FromPairs(other), other)
  }

  /** `other | d` as evidently intended: `other` updated with `d`, so `d` wins. */
  function ROrIntended<V>(other: seq<(string, V)>, d: DSDict<V>): (r: DSDict<V>)
    requires Valid(d)
    ensures Valid(r)
    ensures forall k :: Contains(d, k) ==> EntryOf(r, k) == EntryOf(d, k)
  {
    ROrIntendedKeepsRight(other, d);
    SetAll(FromPairs(other), Items(d))
  }

  lemma ROrIntendedKeepsRight<V>(other: seq<(string, V)>, d: DSDict<V>)
    requires Valid(d)
    ensures forall k :: Contains(d, k) ==> EntryOf(SetAll(FromPairs(other), Items(d)), k) == EntryOf(d, k)
  {
    forall k | Contains(d, k) ensures EntryOf(SetAll(FromPairs(other), Items(d)), k) == EntryOf(d, k) {
      SetAllLookup(FromPairs(other), Items(d), k);
      LastPairOfEntries(d, k);
    }
  }

  // ---------------------------------------------------------------------------
  // Reasoning about sequences of assignments

  /** The last pair of `ps` whose key folds to `fk`. */
  function LastPair<V>(ps: seq<(string, V)>, fk: string): (r: Option<(string, V)>)
    ensures r.Some? ==> Fold(r.value.0) == fk && r.value in ps
  {
    if |ps| == 0 then None
    else
      match LastPair(ps[1..], fk)
      case Some(p) => Some(p)
      case None => if Fold(ps[0].0) == fk then Some(ps[0]) else None
  }

  /** After a run of assignments each key holds its last assignment, or what it held before. */
  lemma {:induction false} SetAllLookup<V>(m: DSDict<V>, ps: seq<(string, V)>, k: string)
    requires Valid(m)
    ensures EntryOf(SetAll(m, ps), k) == if LastPair(ps, Fold(k)).Some? then LastPair(ps, Fold(k)) else EntryOf(m, k)
    decreases |ps|
  {
    if |ps| > 0 {
      SetAllLookup(Set(m, ps[0].0, ps[0].1), ps[1..], k);
    }
  }

  /** In a valid map, the last pair for a present key is its one entry. */
  lemma LastPairOfEntries<V>(m: DSDict<V>, k: string)
    requires Valid(m)
    ensures LastPair(m.entries, Fold(k)) == EntryOf(m, k)
    decreases |m.entries|
  {
    if |m.entries| > 0 {
      var t := DSDict(m.entries[1..]);
      assert Valid(t);
      LastPairOfEntries(t, k);
      if Fold(m.entries[0].0) == Fold(k) {
        assert EntryOf(t, k).None?;
      } else {
        match IndexOf(m.entries, Fold(k)) {
          case Some(j) => IndexOfAt(t.entries, j - 1, Fold(k));
          case None =>
        }
      }
    }
  }

  /** Assigning keys that are all new appends them in order. */
  lemma {:induction false} SetAllFresh<V>(m: DSDict<V>, ps: seq<(string, V)>)
    requires Valid(DSDict(m.entries + ps))
    ensures Valid(m)
    ensures SetAll(m, ps) == DSDict(m.entries + ps)
    decreases |ps|
  {
    var all := m.entries + ps;
    assert forall i :: 0 <= i < |m.entries| ==> all[i] == m.entries[i];
    if |ps| > 0 {
      assert !Contains(m, ps[0].0) by {
        forall i | 0 <= i < |m.entries| ensures Fold(m.entries[i].0) != Fold(ps[0].0) {
          assert all[|m.entries|] == ps[0];
        }
      }
      var m' := Set(m, ps[0].0, ps[0].1);
      assert m'.entries + ps[1..] == all;
      SetAllFresh(m', ps[1..]);
    } else {
      assert all == m.entries;
    }
  }

  /** `copy` yields a map with exactly the same items in the same order. */
  lemma CopyKeepsItems<V>(m: DSDict<V>)
    requires Valid(m)
    ensures Copy(m) == m
    ensures Items(Copy(m)) == Items(m)
  {
    assert Empty<V>().entries + m.entries == m.entries;
    SetAllFresh(Empty(), m.entries);
  }

  /** `a | b` equals `a.copy()` updated with `b`, i.e. `a` updated with `b`. */
  lemma OrIsUpdate<V>(a: DSDict<V>, b: seq<(string, V)>, k: string)
    requires Valid(a)
    ensures Or(a, b) == SetAll(a, b) == Update(a, b, [])
    ensures EntryOf(Or(a, b), k) == if LastPair(b, Fold(k)).Some? then LastPair(b, Fold(k)) else EntryOf(a, k)
  {
    CopyKeepsItems(a);
    SetAllLookup(a, b, k);
  }

  /** Replaces each entry by the last assignment to its key in `ps`, if any. */
  function Override<V>(e: (string, V), ps: seq<(string, V)>): (string, V) {
    match LastPair(ps, Fold(e.0))
    case Some(p) => p
    case None => e
  }

  /** Every entry of `es`, overridden by the run `ps`. */
  function Overridden<V>(es: seq<(string, V)>, ps: seq<(string, V)>): seq<(string, V)> {
    seq(|es|, i requires 0 <= i < |es| => Override(es[i], ps))
  }

  /** Assignments to keys that are all present keep the order and override entries in place. */
  lemma {:induction false} SetAllPresent<V>(m: DSDict<V>, ps: seq<(string, V)>)
    requires Valid(m)
    requires forall i :: 0 <= i < |ps| ==> Contains(m, ps[i].0)
    ensures SetAll(m, ps) == DSDict(Overridden(m.entries, ps))
    decreases |ps|
  {
    if |ps| == 0 {
      OverriddenEmpty(m.entries, ps);
    } else {
      var m' := Set(m, ps[0].0, ps[0].1);
      StillPresent(m, ps);
      SetAllPresent(m', ps[1..]);
      assert SetAll(m, ps) == SetAll(m', ps[1..]);
      OverrideStep(m, ps);
    }
  }

  /** With no assignments, overriding changes nothing. */
  lemma OverriddenEmpty<V>(es: seq<(string, V)>, ps: seq<(string, V)>)
    requires |ps| == 0
    ensures Overridden(es, ps) == es
  {
    forall i | 0 <= i < |es| ensures Overridden(es, ps)[i] == es[i] {
      assert LastPair(ps, Fold(es[i].0)).None?;
    }
  }

  /** Setting a key keeps every key that was present. */
  lemma StillPresent<V>(m: DSDict<V>, ps: seq<(string, V)>)
    requires Valid(m) && |ps| > 0
    requires forall i :: 0 <= i < |ps| ==> Contains(m, ps[i].0)
    ensures forall i :: 0 <= i < |ps[1..]| ==> Contains(Set(m, ps[0].0, ps[0].1), ps[1..][i].0)
  {
    var m' := Set(m, ps[0].0, ps[0].1);
    forall i | 0 <= i < |ps[1..]| ensures Contains(m', ps[1..][i].0) {
      assert ps[1..][i] == ps[i + 1];
      assert Contains(m, ps[i + 1].0);
    }
  }

  /** Setting a present key replaces its entry in place, as the override by the whole run says. */
  lemma OverrideStep<V>(m: DSDict<V>, ps: seq<(string, V)>)
    requires Valid(m) && |ps| > 0 && Contains(m, ps[0].0)
    ensures Overridden(Set(m, ps[0].0, ps[0].1).entries, ps[1..]) == Overridden(m.entries, ps)
  {
    var p := ps[0];
    var m' := Set(m, p.0, p.1);
    var idx := IndexOf(m.entries, Fold(p.0)).value;
    assert m'.entries == m.entries[idx := p];
    forall i | 0 <= i < |m.entries| ensures Override(m'.entries[i], ps[1..]) == Override(m.entries[i], ps) {
      if i != idx {
        assert Fold(m.entries[i].0) != Fold(p.0);
      }
    }
  }

  /** Repeating the same run of assignments changes nothing. */
  lemma SetAllTwice<V>(m: DSDict<V>, ps: seq<(string, V)>)
    requires Valid(m)
    ensures SetAll(SetAll(m, ps), ps) == SetAll(m, ps)
  {
    var n := SetAll(m, ps);
    forall i | 0 <= i < |ps| ensures Contains(n, ps[i].0) {
      SetAllLookup(m, ps, ps[i].0);
      LastPairFound(ps, i);
    }
    SetAllPresent(n, ps);
    forall i | 0 <= i < |n.entries| ensures Override(n.entries[i], ps) == n.entries[i] {
      EntryOfValid(n, i);
      SetAllLookup(m, ps, n.entries[i].0);
    }
    assert Overridden(n.entries, ps) == n.entries;
  }

  lemma {:induction false} LastPairFound<V>(ps: seq<(string, V)>, i: nat)
    requires i < |ps|
    ensures LastPair(ps, Fold(ps[i].0)).Some?
  {
    if i > 0 {
      LastPairFound(ps[1..], i - 1);
    }
  }

  /** `other | d` (`__ror__`) is the map built from `other` alone; `d` is discarded. */
  lemma ROrIgnoresRightOperand<V>(other: seq<(string, V)>, d: DSDict<V>)
    ensures ROr(other, d) == FromPairs(other)
  {
    SetAllTwice(Empty(), other);
  }

  /** A witness: `{"a": 1} | DSDict({"b": 2})` loses "b", where the intended result keeps it. */
  lemma ROrDropsRightOperand()
    ensures !Contains(ROr([("a", 1)], FromPairs([("b", 2)])), "b")
    ensures Contains(ROrIntended([("a", 1)], FromPairs([("b", 2)])), "b")
  {
    var d := FromPairs([("b", 2)]);
    assert d == DSDict([("b", 2)]);
    ROrIgnoresRightOperand([("a", 1)], d);
    var r := FromPairs([("a", 1)]);
    assert r == DSDict([("a", 1)]);
    assert Fold("a")[0] != Fold("b")[0];
    assert EntryOf(d, "b").Some? by {
      assert Fold(d.entries[0].0) == Fold("b");
    }
  }
}
