/**
 * Masking of log arguments (app/systems/logging.py:13-23): every value a
 * dict holds under a mask key, at any depth, is logged as "***".
 */
module LogMask {
  import opened Text
  import opened JsonData
  import opened Wrappers

  /** What a masked value is replaced with. */
  const Hidden: string := "***"

  /** `str.lower` of each comma-separated part of the configured list. */
  function Lowered(parts: seq<string>): (ls: seq<string>)
    ensures |ls| == |parts|
    ensures forall i | 0 <= i < |parts| :: ls[i] == Fold(parts[i])
  {
    seq(|parts|, i requires 0 <= i < |parts| => Fold(parts[i]))
  }

  /**
   * `_read_any` with neither a default nor a conversion (app/systems/config.py:51-72):
   * the environment variable when it is set and non-empty, else the
   * configuration file's value when it is non-empty. `file` is `None` when
   * the file lacks the option, and `ConfigParser.get` then raises. An empty
   * value everywhere raises ValueError.
   */
  function ReadAny(env: string, file: Option<string>): (r: Result<string>)
    ensures r.Ok? ==> r.value != ""
    ensures env != "" ==> r == Ok(env)
    ensures env == "" ==> (r.Ok? <==> file.Some? && file.value != "")
    ensures env == "" && r.Ok? ==> file == Some(r.value)
    ensures env == "" && file.None? ==> RaisedAs(r, NoOptionError)
    ensures env == "" && file == Some("") ==> RaisedAs(r, ValueError)
  {
    if env != "" then Ok(env)
    else if file.None? then Raise(NoOptionError, "option LOGS_MASK_KEYS")
    else if file.value != "" then Ok(file.value)
    else Raise(ValueError, "Not find [app][LOGS_MASK_KEYS]")
  }

  /**
   * `LOGS_MASK_KEYS` as the configuration builds it at import: the setting is
   * read by `ReadAny`, split on ',', lowered, and joined by "password" and
   * "account_password" (the set's order does not matter to matching). A
   * setting that cannot be read stops the application, so no key list is
   * ever empty.
   */
  function MaskKeys(env: string, file: Option<string>): (r: Result<seq<string>>)
    ensures r.Ok? <==> ReadAny(env, file).Ok?
    ensures r.Err? ==> r.failure == ReadAny(env, file).failure
    ensures r.Ok? ==> "password" in r.value && "account_password" in r.value
    ensures r.Ok? ==>
      forall k :: k in r.value <==> k in Lowered(Split(ReadAny(env, file).value, ',')) || k == "password" || k == "account_password"
  {
    var configured :- ReadAny(env, file);
    Ok(Lowered(Split(configured, ',')) + ["password", "account_password"])
  }

  /**
   * `MASK_COMPILE.search(k)` for the pattern `^key1$|^key2$|...` with
   * IGNORECASE: `k` is a key up to case, or a key followed by one newline,
   * which `$` also accepts. An empty key list compiles to the empty
   * pattern, which matches every string.
   */
  predicate MaskedKey(keys: seq<string>, k: string) {
    |keys| == 0 || exists j | 0 <= j < |keys| :: SameFolded(k, keys[j]) || SameFolded(k, keys[j] + "\n")
  }

  /**
   * `mask_dict`: a dict keeps its keys, with "***" under a mask key and the
   * masked value under any other; a list or tuple keeps its kind and masks
   * each element; anything else is returned as it is. The result hides
   * `x`; `HidesOnlyMask` shows it is the only value that does.
   */
  function Mask(keys: seq<string>, x: Json): (y: Json)
    ensures Hides(keys, x, y)
    decreases x
  {
    match x
    case JDict(es) =>
      JDict(seq(|es|, i requires 0 <= i < |es| =>
        assert es[i] in es;
        Entry(es[i].key, if MaskedKey(keys, es[i].key) then JStr(Hidden) else Mask(keys, es[i].value))))
    case JList(xs) => JList(seq(|xs|, i requires 0 <= i < |xs| => assert xs[i] in xs; Mask(keys, xs[i])))
    case JTuple(xs) => JTuple(seq(|xs|, i requires 0 <= i < |xs| => assert xs[i] in xs; Mask(keys, xs[i])))
    case _ => x
  }

  /** No value sits unmasked under a mask key, at any depth. */
  predicate Clean(keys: seq<string>, y: Json)
    decreases y
  {
    match y
    case JDict(es) =>
      forall i | 0 <= i < |es| ::
        assert es[i] in es;
        if MaskedKey(keys, es[i].key) then es[i].value == JStr(Hidden) else Clean(keys, es[i].value)
    case JList(xs) => forall i | 0 <= i < |xs| :: assert xs[i] in xs; Clean(keys, xs[i])
    case JTuple(xs) => forall i | 0 <= i < |xs| :: assert xs[i] in xs; Clean(keys, xs[i])
    case _ => true
  }

  /**
   * `y` is `x` with its secrets hidden: the same kinds, the same keys in the
   * same order, the same lengths and scalars, and "***" exactly where a mask
   * key stands.
   */
  predicate Hides(keys: seq<string>, x: Json, y: Json)
    decreases x
  {
    match x
    case JDict(es) =>
      && y.JDict? && |y.entries| == |es|
      && forall i | 0 <= i < |es| ::
           assert es[i] in es;
           && y.entries[i].key == es[i].key
           && if MaskedKey(keys, es[i].key) then y.entries[i].value == JStr(Hidden)
              else Hides(keys, es[i].value, y.entries[i].value)
    case JList(xs) =>
      && y.JList? && |y.items| == |xs|
      && forall i | 0 <= i < |xs| :: assert xs[i] in xs; Hides(keys, xs[i], y.items[i])
    case JTuple(xs) =>
      && y.JTuple? && |y.items| == |xs|
      && forall i | 0 <= i < |xs| :: assert xs[i] in xs; Hides(keys, xs[i], y.items[i])
    case _ => y == x
  }

  /** Hiding determines the result: the masked value is the only one that hides `x`. */
  lemma {:induction false} HidesOnlyMask(keys: seq<string>, x: Json, y: Json)
    requires Hides(keys, x, y)
    ensures y == Mask(keys, x)
    decreases x
  {
    match x
    case JDict(es) =>
      var m := Mask(keys, x);
      forall i | 0 <= i < |es| ensures y.entries[i] == m.entries[i] {
        assert es[i] in es;
        if !MaskedKey(keys, es[i].key) {
          HidesOnlyMask(keys, es[i].value, y.entries[i].value);
        }
      }
      assert y.entries == m.entries;
    case JList(xs) =>
      var m := Mask(keys, x);
      forall i | 0 <= i < |xs| ensures y.items[i] == m.items[i] {
        assert xs[i] in xs;
        HidesOnlyMask(keys, xs[i], y.items[i]);
      }
      assert y.items == m.items;
    case JTuple(xs) =>
      var m := Mask(keys, x);
      forall i | 0 <= i < |xs| ensures y.items[i] == m.items[i] {
        assert xs[i] in xs;
        HidesOnlyMask(keys, xs[i], y.items[i]);
      }
      assert y.items == m.items;
    case _ =>
  }

  /** Nothing is left unmasked under a mask key. */
  lemma {:induction false} MaskCleans(keys: seq<string>, x: Json)
    ensures Clean(keys, Mask(keys, x))
    decreases x
  {
    match x
    case JDict(es) =>
      forall i | 0 <= i < |es| && !MaskedKey(keys, es[i].key) ensures Clean(keys, Mask(keys, es[i].value)) {
        assert es[i] in es;
        MaskCleans(keys, es[i].value);
      }
    case JList(xs) =>
      forall i | 0 <= i < |xs| ensures Clean(keys, Mask(keys, xs[i])) {
        assert xs[i] in xs;
        MaskCleans(keys, xs[i]);
      }
    case JTuple(xs) =>
      forall i | 0 <= i < |xs| ensures Clean(keys, Mask(keys, xs[i])) {
        assert xs[i] in xs;
        MaskCleans(keys, xs[i]);
      }
    case _ =>
  }

  /** A value with nothing to hide is logged as it is. */
  lemma {:induction false} CleanUnchanged(keys: seq<string>, x: Json)
    requires Clean(keys, x)
    ensures Mask(keys, x) == x
    decreases x
  {
    match x
    case JDict(es) =>
      var m := Mask(keys, x);
      forall i | 0 <= i < |es| ensures m.entries[i] == es[i] {
        assert es[i] in es;
        if !MaskedKey(keys, es[i].key) {
          CleanUnchanged(keys, es[i].value);
        }
      }
      assert m.entries == es;
    case JList(xs) =>
      var m := Mask(keys, x);
      forall i | 0 <= i < |xs| ensures m.items[i] == xs[i] {
        assert xs[i] in xs;
        CleanUnchanged(keys, xs[i]);
      }
      assert m.items == xs;
    case JTuple(xs) =>
      var m := Mask(keys, x);
      forall i | 0 <= i < |xs| ensures m.items[i] == xs[i] {
        assert xs[i] in xs;
        CleanUnchanged(keys, xs[i]);
      }
      assert m.items == xs;
    case _ =>
  }

  /** Masking twice is masking once. */
  lemma MaskIdempotent(keys: seq<string>, x: Json)
    ensures Mask(keys, Mask(keys, x)) == Mask(keys, x)
  {
    MaskCleans(keys, x);
    CleanUnchanged(keys, Mask(keys, x));
  }

  /** With the keys any readable setting gives, a password under any casing never reaches the log. */
  lemma PasswordHidden(env: string, file: Option<string>, es: seq<Entry>, i: nat)
    requires i < |es| && SameFolded(es[i].key, "password")
    ensures MaskKeys(env, file).Ok? ==> Mask(MaskKeys(env, file).value, JDict(es)).entries[i].value == JStr(Hidden)
  {
    if MaskKeys(env, file).Ok? {
      var keys := MaskKeys(env, file).value;
      var j :| 0 <= j < |keys| && keys[j] == "password";
      assert SameFolded(es[i].key, keys[j]);
    }
  }

  /**
   * `mask_dict` under an empty key list: the empty pattern matches every key
   * and every value of a dict is hidden. `MaskKeys` never yields this list;
   * the lemma records what the pattern would do.
   */
  lemma EmptyKeysMaskAll(es: seq<Entry>, i: nat)
    requires i < |es|
    ensures Mask([], JDict(es)).entries[i].value == JStr(Hidden)
  {
  }
}
