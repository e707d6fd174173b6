/**
 * Sparse persistence of the settings tree: what equals its default is left out of the file
 * and filled in again when the file is read.
 */
module SparseSettings {
  import opened Wrappers

  datatype Scalar = NullValue | BoolValue(b: bool) | NumberValue(n: int) | TextValue(s: string)

  datatype Tree = Leaf(value: Scalar) | List(items: seq<Tree>) | Struct(fields: map<string, Tree>)

  /** ATOMIC_SETTINGS_KEYS: compared as a whole, wherever they occur. */
  const ATOMIC_KEYS: set<string> := {"automaticGitFetchInterval", "textGenerationModelSelection"}

  function FieldOf(tree: Option<Tree>, key: string): Option<Tree> {
    if tree.Some? && tree.value.Struct? && key in tree.value.fields then Some(tree.value.fields[key]) else None
  }

  /** What is left of a field, if anything. */
  function StrippedField(current: Tree, defaults: Tree, key: string): Option<Tree>
    requires current.Struct? && key in current.fields
    decreases current, 0
  {
    if key in ATOMIC_KEYS then
      (if FieldOf(Some(defaults), key) == Some(current.fields[key]) then None else Some(current.fields[key]))
    else Stripped(current.fields[key], FieldOf(Some(defaults), key))
  }

  /** What is left of all fields. */
  function StrippedFields(current: Tree, defaults: Tree): map<string, Tree>
    requires current.Struct?
    decreases current, 1
  {
    map key | key in current.fields && StrippedField(current, defaults, key).Some? ::
      StrippedField(current, defaults, key).value
  }

  /** The part of `current` that differs from `defaults`; None is undefined. */
  function Stripped(current: Tree, defaults: Option<Tree>): Option<Tree>
    decreases current, 2
  {
    if current.Struct? && defaults.Some? && defaults.value.Struct? then
      var next := StrippedFields(current, defaults.value);
      if next == map[] then None else Some(Struct(next))
    else if defaults == Some(current) then None
    else Some(current)
  }

  method StripDefaultServerSettings(current: Tree, defaults: Option<Tree>) returns (r: Option<Tree>)
    ensures r == Stripped(current, defaults)
    decreases current
  {
    if current.List? || (defaults.Some? && defaults.value.List?) {
      return if defaults == Some(current) then None else Some(current);
    }
    if current.Struct? && defaults.Some? && defaults.value.Struct? {
      var next: map<string, Tree> := map[];
      var keys := current.fields.Keys;
      while keys != {}
        invariant keys <= current.fields.Keys
        invariant next == map key | key in current.fields.Keys - keys
          && StrippedField(current, defaults.value, key).Some? :: StrippedField(current, defaults.value, key).value
        decreases keys
      {
        var key :| key in keys;
        var field := current.fields[key];
        if key in ATOMIC_KEYS {
          if FieldOf(defaults, key) != Some(field) {
            next := next[key := field];
          }
        } else {
          var stripped := StripDefaultServerSettings(field, FieldOf(defaults, key));
          if stripped.Some? {
            next := next[key := stripped.value];
          }
        }
        keys := keys - {key};
      }
      assert next == StrippedFields(current, defaults.value);
      return if next != map[] then Some(Struct(next)) else None;
    }
    return if defaults == Some(current) then None else Some(current);
  }

  // ----- Reading back -------------------------------------------------------------

  /** The missing keys of `sparse`, at every struct level, are taken from `defaults`. */
  function Filled(sparse: Option<Tree>, defaults: Tree): Tree
    decreases defaults, 1
  {
    if sparse.None? then defaults
    else if sparse.value.Struct? && defaults.Struct? then
      Struct(map key | key in sparse.value.fields.Keys + defaults.fields.Keys :: FilledField(sparse.value, defaults, key))
    else sparse.value
  }

  function FilledField(sparse: Tree, defaults: Tree, key: string): Tree
    requires sparse.Struct? && defaults.Struct? && key in sparse.fields.Keys + defaults.fields.Keys
    decreases defaults, 0
  {
    if key !in sparse.fields then defaults.fields[key]
    else if key in ATOMIC_KEYS || key !in defaults.fields then sparse.fields[key]
    else Filled(Some(sparse.fields[key]), defaults.fields[key])
  }

  /** At every struct level outside atomic keys, `current` has at least the keys of `defaults`. */
  predicate Covers(current: Tree, defaults: Tree)
    decreases defaults
  {
    current.Struct? && defaults.Struct? ==>
      forall key | key in defaults.fields :: key in current.fields
        && (key in ATOMIC_KEYS || Covers(current.fields[key], defaults.fields[key]))
  }

  /** A missing struct is filled like an empty one. */
  function FilledFields(sparse: map<string, Tree>, defaults: Tree): map<string, Tree>
    requires defaults.Struct?
  {
    map key | key in sparse.Keys + defaults.fields.Keys :: FilledField(Struct(sparse), defaults, key)
  }

  lemma FilledStruct(current: Tree, defaults: Tree)
    requires current.Struct? && defaults.Struct?
    ensures Filled(Stripped(current, Some(defaults)), defaults)
         == Struct(FilledFields(StrippedFields(current, defaults), defaults))
  {
  }

  /** A field without a default is kept whole. */
  lemma NoDefault(current: Tree)
    ensures Stripped(current, None) == Some(current)
  {
  }

  predicate CoversField(current: Tree, defaults: Tree, key: string)
    requires defaults.Struct? && key in defaults.fields
  {
    current.Struct? && key in current.fields
    && (key in ATOMIC_KEYS || Covers(current.fields[key], defaults.fields[key]))
  }

  /** Stripping and filling is the identity exactly on trees that cover the defaults. */
  lemma {:induction false} SparseRoundTrip(current: Tree, defaults: Tree)
    ensures Filled(Stripped(current, Some(defaults)), defaults) == current <==> Covers(current, defaults)
    decreases current
  {
    if current.Struct? && defaults.Struct? {
      var kept := StrippedFields(current, defaults);
      var filled := FilledFields(kept, defaults);
      FilledStruct(current, defaults);
      forall key | key in current.fields
        ensures key in filled && (filled[key] == current.fields[key] <==>
          (key in defaults.fields ==> CoversField(current, defaults, key)))
      {
        if key in defaults.fields {
          SparseRoundTrip(current.fields[key], defaults.fields[key]);
        } else {
          NoDefault(current.fields[key]);
        }
      }
      assert filled.Keys == kept.Keys + defaults.fields.Keys && kept.Keys <= current.fields.Keys;
      assert Covers(current, defaults) <==> forall key | key in defaults.fields :: CoversField(current, defaults, key);
      if Covers(current, defaults) {
        assert filled == current.fields;
      } else {
        var key :| key in defaults.fields && !CoversField(current, defaults, key);
        assert key in filled;
        assert filled != current.fields;
      }
    }
  }

  /** What is stripped away: everything agreed with the defaults, field by field. */
  predicate Agrees(current: Tree, defaults: Tree)
    decreases current
  {
    if current.Struct? && defaults.Struct? then
      forall key | key in current.fields :: key in defaults.fields
        && (if key in ATOMIC_KEYS then current.fields[key] == defaults.fields[key]
            else Agrees(current.fields[key], defaults.fields[key]))
    else current == defaults
  }

  predicate AgreesField(current: Tree, defaults: Tree, key: string)
    requires current.Struct? && defaults.Struct? && key in current.fields
  {
    key in defaults.fields
    && (if key in ATOMIC_KEYS then current.fields[key] == defaults.fields[key]
        else Agrees(current.fields[key], defaults.fields[key]))
  }

  lemma {:induction false} NothingLeftExactly(current: Tree, defaults: Tree)
    ensures Stripped(current, Some(defaults)) == None <==> Agrees(current, defaults)
    decreases current
  {
    if current.Struct? && defaults.Struct? {
      var kept := StrippedFields(current, defaults);
      forall key | key in current.fields
        ensures key !in kept <==> AgreesField(current, defaults, key)
      {
        assert key in kept <==> StrippedField(current, defaults, key).Some?;
        if key in defaults.fields {
          NothingLeftExactly(current.fields[key], defaults.fields[key]);
          assert FieldOf(Some(defaults), key) == Some(defaults.fields[key]);
        } else {
          NoDefault(current.fields[key]);
          assert FieldOf(Some(defaults), key) == None;
        }
      }
      NoKeys(kept);
      assert kept.Keys <= current.fields.Keys;
      assert Agrees(current, defaults) <==> forall key | key in current.fields :: AgreesField(current, defaults, key);
    }
  }

  lemma NoKeys(fields: map<string, Tree>)
    ensures fields == map[] <==> forall key :: key !in fields
  {
  }

  /** On trees that cover the defaults, nothing is left exactly when the tree is the default tree. */
  lemma UndefinedExactlyWhenEqual(current: Tree, defaults: Tree)
    requires Covers(current, defaults)
    ensures Stripped(current, Some(defaults)) == None <==> current == defaults
  {
    SparseRoundTrip(current, defaults);
    NothingLeftExactly(current, defaults);
    if current == defaults {
      AgreesWithItself(current);
    }
  }

  lemma {:induction false} AgreesWithItself(tree: Tree)
    ensures Agrees(tree, tree)
    decreases tree
  {
    if tree.Struct? {
      forall key | key in tree.fields ensures Agrees(tree.fields[key], tree.fields[key]) {
        AgreesWithItself(tree.fields[key]);
      }
    }
  }

  // ----- What is written ---------------------------------------------------------------

  /**
   * Nothing is kept without need: at every struct level something is kept, and each key kept is
   * unknown to the defaults, or differs from its default, or is itself sparse.
   */
  predicate Sparse(kept: Tree, defaults: Tree)
    decreases kept
  {
    if kept.Struct? && defaults.Struct? then
      && kept.fields != map[]
      && forall key | key in kept.fields && key in defaults.fields ::
           if key in ATOMIC_KEYS then kept.fields[key] != defaults.fields[key]
           else Sparse(kept.fields[key], defaults.fields[key])
    else kept != defaults
  }

  /** Nothing is made up: at every struct level the keys kept are current ones, and so is every leaf. */
  predicate PartOf(kept: Tree, current: Tree, defaults: Tree)
    decreases kept
  {
    if kept.Struct? && current.Struct? && defaults.Struct? then
      forall key | key in kept.fields :: key in current.fields
        && (if key in ATOMIC_KEYS || key !in defaults.fields then kept.fields[key] == current.fields[key]
            else PartOf(kept.fields[key], current.fields[key], defaults.fields[key]))
    else kept == current
  }

  /** What is written is sparse and taken from the current settings. */
  lemma {:induction false} StrippedIsSparse(current: Tree, defaults: Tree)
    requires Stripped(current, Some(defaults)).Some?
    ensures Sparse(Stripped(current, Some(defaults)).value, defaults)
    ensures PartOf(Stripped(current, Some(defaults)).value, current, defaults)
    decreases current
  {
    if current.Struct? && defaults.Struct? {
      var kept := StrippedFields(current, defaults);
      forall key | key in kept
        ensures key in current.fields
        ensures key !in defaults.fields ==> kept[key] == current.fields[key]
        ensures key in defaults.fields && key in ATOMIC_KEYS ==> kept[key] == current.fields[key] != defaults.fields[key]
        ensures key in ATOMIC_KEYS ==> kept[key] == current.fields[key]
        ensures key in defaults.fields && key !in ATOMIC_KEYS ==>
          Sparse(kept[key], defaults.fields[key]) && PartOf(kept[key], current.fields[key], defaults.fields[key])
      {
        assert kept[key] == StrippedField(current, defaults, key).value;
        if key !in defaults.fields {
          NoDefault(current.fields[key]);
        } else if key !in ATOMIC_KEYS {
          StrippedIsSparse(current.fields[key], defaults.fields[key]);
        }
      }
    }
  }

  lemma DefaultsVanish(defaults: Tree)
    ensures Stripped(defaults, Some(defaults)) == None
  {
    AgreesWithItself(defaults);
    NothingLeftExactly(defaults, defaults);
  }

  /** What becomes of one field when a sparse struct is read back and stripped again. */
  lemma KeptField(kept: Tree, defaults: Tree, key: string)
    requires kept.Struct? && defaults.Struct? && Sparse(kept, defaults)
    requires key in kept.fields.Keys + defaults.fields.Keys
    ensures Filled(Some(kept), defaults).Struct? && key in Filled(Some(kept), defaults).fields
    ensures StrippedField(Filled(Some(kept), defaults), defaults, key) ==
      if key !in kept.fields then None
      else if key in ATOMIC_KEYS || key !in defaults.fields then Some(kept.fields[key])
      else Stripped(Filled(Some(kept.fields[key]), defaults.fields[key]), Some(defaults.fields[key]))
  {
    var current := Filled(Some(kept), defaults);
    assert current.fields[key] == FilledField(kept, defaults, key);
    if key !in kept.fields {
      assert FieldOf(Some(defaults), key) == Some(defaults.fields[key]);
      DefaultsVanish(defaults.fields[key]);
    } else if key !in defaults.fields {
      assert FieldOf(Some(defaults), key) == None;
      NoDefault(kept.fields[key]);
    } else {
      assert FieldOf(Some(defaults), key) == Some(defaults.fields[key]);
    }
  }

  /** There is only one sparse tree that is read back as the current settings: the one written. */
  lemma {:induction false} OnlySparse(kept: Tree, defaults: Tree)
    requires Sparse(kept, defaults)
    ensures Stripped(Filled(Some(kept), defaults), Some(defaults)) == Some(kept)
    decreases kept
  {
    if kept.Struct? && defaults.Struct? {
      var current := Filled(Some(kept), defaults);
      forall key | key in current.fields
        ensures StrippedField(current, defaults, key) == if key in kept.fields then Some(kept.fields[key]) else None
      {
        KeptField(kept, defaults, key);
        if key in kept.fields && key in defaults.fields && key !in ATOMIC_KEYS {
          OnlySparse(kept.fields[key], defaults.fields[key]);
        }
      }
      assert StrippedFields(current, defaults) == kept.fields;
    }
  }

  /** Off those trees both claims fail: an empty struct is stripped to nothing and read back as the default. */
  lemma MissingKeysAreRestored(key: string, value: Tree)
    ensures var current, defaults := Struct(map[]), Struct(map[key := value]);
      Stripped(current, Some(defaults)) == None && Filled(None, defaults) == defaults != current
  {
    assert key in map[key := value];
  }
}
