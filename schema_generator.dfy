/**
 * `generate_schema`: the `extra` policy override around the call to the
 * schema generator, and the cleaning of every definition under `$defs`.
 */
module SchemaGenerator {

  import opened Base
  import opened Json
  import opened SchemaCleaner
  import opened Discovery

  /** The values pydantic accepts for `model_config["extra"]`. */
  datatype Extra = Allow | Ignore | Forbid

  /** The policy a model is given for the schema: `allow` stays, anything else becomes `forbid`. */
  function Overriding(x: Option<Extra>): Extra
  {
    if x == Some(Allow) then Allow else Forbid
  }

  /** The policies after the override loop has visited `models` in order. */
  function Overridden(extra: map<Decl, Extra>, models: seq<Decl>): map<Decl, Extra>
  {
    if models == [] then extra
    else
      var before := Overridden(extra, models[..|models| - 1]);
      var m := models[|models| - 1];
      if Lookup(before, m) != Some(Allow) then before[m := Forbid] else before
  }

  /** The override gives each listed model its overriding policy and leaves every other class alone. */
  lemma {:induction false} OverriddenAt(extra: map<Decl, Extra>, models: seq<Decl>, k: Decl)
    ensures Lookup(Overridden(extra, models), k) ==
      if k in models then Some(Overriding(Lookup(extra, k))) else Lookup(extra, k)
  {
    if models != [] {
      var init := models[..|models| - 1];
      OverriddenAt(extra, init, k);
      assert k in models <==> k in init || k == models[|models| - 1];
    }
  }

  /** `[m.model_config.get("extra", None) for m in models]`. */
  function Snapshot(extra: map<Decl, Extra>, models: seq<Decl>): (saved: seq<Option<Extra>>)
    ensures |saved| == |models|
    ensures forall i :: 0 <= i < |models| ==> saved[i] == Lookup(extra, models[i])
  {
    seq(|models|, i requires 0 <= i < |models| => Lookup(extra, models[i]))
  }

  /** The `finally` loop as written: each saved value other than None is written back. */
  function WrittenBack(extra: map<Decl, Extra>, classes: seq<Decl>, saved: seq<Option<Extra>>): map<Decl, Extra>
    requires |classes| == |saved|
  {
    if classes == [] then extra
    else
      var n := |classes| - 1;
      var before := WrittenBack(extra, classes[..n], saved[..n]);
      if saved[n].Some? then before[classes[n] := saved[n].value] else before
  }

  /** Writing back values that are already in place changes nothing. */
  lemma {:induction false} WrittenBackCurrent(extra: map<Decl, Extra>, classes: seq<Decl>, saved: seq<Option<Extra>>)
    requires |classes| == |saved|
    requires forall i :: 0 <= i < |saved| && saved[i].Some? ==> Lookup(extra, classes[i]) == saved[i]
    ensures WrittenBack(extra, classes, saved) == extra
  {
    if classes != [] {
      var n := |classes| - 1;
      WrittenBackCurrent(extra, classes[..n], saved[..n]);
      if saved[n].Some? {
        assert extra[classes[n] := saved[n].value] == extra;
      }
    }
  }

  /** A restore that puts back each saved value and removes the key where there was none. */
  function Reinstated(extra: map<Decl, Extra>, models: seq<Decl>, saved: seq<Option<Extra>>): map<Decl, Extra>
    requires |models| == |saved|
  {
    if models == [] then extra
    else
      var n := |models| - 1;
      var before := Reinstated(extra, models[..n], saved[..n]);
      match saved[n]
      case Some(x) => before[models[n] := x]
      case None => before - {models[n]}
  }

  lemma {:induction false} ReinstatedAt(current: map<Decl, Extra>, original: map<Decl, Extra>, models: seq<Decl>, k: Decl)
    ensures Lookup(Reinstated(current, models, Snapshot(original, models)), k) ==
      if k in models then Lookup(original, k) else Lookup(current, k)
  {
    if models != [] {
      var n := |models| - 1;
      assert Snapshot(original, models)[..n] == Snapshot(original, models[..n]);
      ReinstatedAt(current, original, models[..n], k);
      assert k in models <==> k in models[..n] || k == models[n];
    }
  }

  /** Restoring a snapshot taken before the override undoes the override exactly. */
  lemma RestoreUndoesOverride(extra: map<Decl, Extra>, models: seq<Decl>)
    ensures Reinstated(Overridden(extra, models), models, Snapshot(extra, models)) == extra
  {
    var after := Reinstated(Overridden(extra, models), models, Snapshot(extra, models));
    forall k ensures Lookup(after, k) == Lookup(extra, k) {
      ReinstatedAt(Overridden(extra, models), extra, models, k);
      OverriddenAt(extra, models, k);
    }
    LookupExtensional(after, extra);
  }

  /** Why `generate_schema` raises. */
  datatype GenError =
    | ReflectionFailed(message: string)
    | DefsNotAnObject
    | DefinitionNotAnObject
    | MissingTitle
    | CleanFailed(cause: SchemaError)

  /** `[td.__name__ for td in typed_dicts]`. */
  function Names(decls: seq<Decl>): (names: seq<string>)
    ensures |names| == |decls|
    ensures forall i :: 0 <= i < |decls| ==> names[i] == decls[i].name
  {
    seq(|decls|, i requires 0 <= i < |decls| => decls[i].name)
  }

  /** `d["title"] in typed_dict_names` for a definition with a title. */
  predicate TitledAsTypedDict(title: Json, typedDictNames: seq<string>)
  {
    title.JStr? && title.s in typedDictNames
  }

  /** The error cleaning one `$defs` entry raises, if any. */
  function DefinitionError(d: Json, typedDictNames: seq<string>): Option<GenError>
  {
    match d
    case JObj(fields) =>
      if "title" !in fields then Some(MissingTitle)
      else
        var cleaned := Cleaned(fields, TitledAsTypedDict(fields["title"], typedDictNames));
        if cleaned.Err? then Some(CleanFailed(cleaned.error)) else None
    case _ => Some(DefinitionNotAnObject)
  }

  predicate DefinitionsClean(defs: Obj, typedDictNames: seq<string>)
  {
    forall k :: k in defs ==> DefinitionError(defs[k], typedDictNames) == None
  }

  /** Every `$defs` entry cleaned, TypedDicts (recognised by title) closed. */
  function CleanedDefinitions(defs: Obj, typedDictNames: seq<string>): Obj
    requires DefinitionsClean(defs, typedDictNames)
  {
    map k | k in defs ::
      var fields := defs[k].fields;
      JObj(Cleaned(fields, TitledAsTypedDict(fields["title"], typedDictNames)).value)
  }

  /**
   * What the script returns for a generated `schema`: the schema with every
   * `$defs` entry cleaned, or an error some entry raises.
   */
  ghost predicate Generated(schema: Result<Obj, string>, typedDictNames: seq<string>, r: Result<Obj, GenError>)
  {
    match schema
    case Err(message) => r == Err(ReflectionFailed(message))
    case Ok(root) =>
      if "$defs" !in root then r == Ok(root)
      else match root["$defs"]
        case JObj(defs) =>
          if DefinitionsClean(defs, typedDictNames) then
            r == Ok(root["$defs" := JObj(CleanedDefinitions(defs, typedDictNames))])
          else
            r.Err? && exists k :: k in defs && DefinitionError(defs[k], typedDictNames) == Some(r.error)
        case _ => r == Err(DefsNotAnObject)
  }

  /** The loop over `schema.get("$defs", {}).values()`, each entry cleaned by `clean_schema`. */
  method CleanDefinitions(schema: Result<Obj, string>, typedDictNames: seq<string>) returns (r: Result<Obj, GenError>)
    ensures Generated(schema, typedDictNames, r)
  {
    if schema.Err? {
      return Err(ReflectionFailed(schema.error));
    }
    var root := schema.value;
    if "$defs" !in root {
      return Ok(root);
    }
    if !root["$defs"].JObj? {
      return Err(DefsNotAnObject);
    }
    var original := root["$defs"].fields;
    var defs := original;
    var todo := defs.Keys;
    while todo != {}
      invariant todo <= defs.Keys == original.Keys
      invariant forall k :: k in todo ==> defs[k] == original[k]
      invariant forall k :: k in defs && k !in todo ==>
        DefinitionError(original[k], typedDictNames) == None &&
        defs[k] == JObj(Cleaned(original[k].fields, TitledAsTypedDict(original[k].fields["title"], typedDictNames)).value)
      decreases todo
    {
      var k :| k in todo;
      var d := defs[k];
      if !d.JObj? {
        return Err(DefinitionNotAnObject);
      }
      if "title" !in d.fields {
        return Err(MissingTitle);
      }
      var isTypedDict := TitledAsTypedDict(d.fields["title"], typedDictNames);
      var cleaned := CleanSchema(d.fields, isTypedDict);
      if cleaned.Err? {
        return Err(CleanFailed(cleaned.error));
      }
      defs := defs[k := JObj(cleaned.value)];
      todo := todo - {k};
    }
    assert defs == CleanedDefinitions(original, typedDictNames);
    r := Ok(root["$defs" := JObj(defs)]);
  }

  /** The `model_config["extra"]` entries of the model classes, updated in place by `generate_schema`. */
  class ModelConfigs {
    /** The `extra` setting of each class that has one; a class without a key has none. */
    var extra: map<Decl, Extra>

    constructor (initial: map<Decl, Extra>)
      ensures extra == initial
    {
      extra := initial;
    }

    /** The override loop: every model not set to `allow` is set to `forbid`. */
    method OverrideExtras(models: seq<Decl>)
      modifies this
      ensures extra == Overridden(old(extra), models)
    {
      var i := 0;
      while i < |models|
        invariant 0 <= i <= |models|
        invariant extra == Overridden(old(extra), models[..i])
      {
        assert models[..i + 1][..i] == models[..i];
        if Lookup(extra, models[i]) != Some(Allow) {
          extra := extra[models[i] := Forbid];
        }
        i := i + 1;
      }
      assert models[..i] == models;
    }

    /** The `finally` loop: each saved value other than None is written back to its class. */
    method WriteBack(classes: seq<Decl>, saved: seq<Option<Extra>>)
      requires |classes| == |saved|
      modifies this
      ensures extra == WrittenBack(old(extra), classes, saved)
    {
      var i := 0;
      while i < |classes|
        invariant 0 <= i <= |classes|
        invariant extra == WrittenBack(old(extra), classes[..i], saved[..i])
      {
        assert classes[..i + 1][..i] == classes[..i];
        assert saved[..i + 1][..i] == saved[..i];
        if saved[i].Some? {
          extra := extra[classes[i] := saved[i].value];
        }
        i := i + 1;
      }
      assert classes[..i] == classes && saved[..i] == saved;
    }

    /** A restore loop that puts each saved value back, deleting keys that were absent. */
    method Restore(models: seq<Decl>, saved: seq<Option<Extra>>)
      requires |models| == |saved|
      modifies this
      ensures extra == Reinstated(old(extra), models, saved)
    {
      var i := 0;
      while i < |models|
        invariant 0 <= i <= |models|
        invariant extra == Reinstated(old(extra), models[..i], saved[..i])
      {
        assert models[..i + 1][..i] == models[..i];
        assert saved[..i + 1][..i] == saved[..i];
        match saved[i] {
          case Some(x) => extra := extra[models[i] := x];
          case None => extra := extra - {models[i]};
        }
        i := i + 1;
      }
      assert models[..i] == models && saved[..i] == saved;
    }

    /**
     * `generate_schema` as written. `reflect` stands for building `_Master_`
     * with one field per class of `models + typedDicts` and calling
     * `model_json_schema`, which reads the policies in force. The
     * policies are captured after the override, so the `finally` block writes
     * the overridden values back and the override is never undone.
     */
    method GenerateSchemaAsWritten(models: seq<Decl>, typedDicts: seq<Decl>, reflect: (seq<Decl>, map<Decl, Extra>) -> Result<Obj, string>)
      returns (r: Result<Obj, GenError>)
      modifies this
      ensures forall m :: m in models ==> Lookup(extra, m) == Some(Overriding(Lookup(old(extra), m)))
      ensures forall k :: k !in models ==> Lookup(extra, k) == Lookup(old(extra), k)
      ensures Generated(reflect(models + typedDicts, Overridden(old(extra), models)), Names(typedDicts), r)
    {
      OverrideExtras(models);
      ghost var overridden := extra;
      var all := models + typedDicts;
      var saved := Snapshot(extra, models) + seq(|typedDicts|, _ => None);
      r := CleanDefinitions(reflect(all, extra), Names(typedDicts));
      WriteBack(all, saved);
      WrittenBackCurrent(overridden, all, saved);
      forall k ensures Lookup(extra, k) == if k in models then Some(Overriding(Lookup(old(extra), k))) else Lookup(old(extra), k) {
        OverriddenAt(old(extra), models, k);
      }
    }

    /**
     * `generate_schema` with the policies captured before the override and
     * restored afterwards, as its docstring promises: the schema is generated
     * under the overriding policies and the classes end as they began.
     */
    method GenerateSchema(models: seq<Decl>, typedDicts: seq<Decl>, reflect: (seq<Decl>, map<Decl, Extra>) -> Result<Obj, string>)
      returns (r: Result<Obj, GenError>)
      modifies this
      ensures extra == old(extra)
      ensures Generated(reflect(models + typedDicts, Overridden(old(extra), models)), Names(typedDicts), r)
    {
      var saved := Snapshot(extra, models);
      OverrideExtras(models);
      r := CleanDefinitions(reflect(models + typedDicts, extra), Names(typedDicts));
      Restore(models, saved);
      RestoreUndoesOverride(old(extra), models);
    }
  }

  /**
   * The override as written is not undone: a model whose `extra` was unset or
   * `ignore` is left at `forbid` after `generate_schema` returns.
   */
  lemma OverrideOutlivesCall(extra: map<Decl, Extra>, models: seq<Decl>, m: Decl)
    requires m in models && Lookup(extra, m) != Some(Allow) && Lookup(extra, m) != Some(Forbid)
    ensures Lookup(Overridden(extra, models), m) == Some(Forbid) != Lookup(extra, m)
  {
    OverriddenAt(extra, models, m);
  }
}
