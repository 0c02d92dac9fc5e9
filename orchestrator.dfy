/**
 * `generate_typescript_defs`: the converter pre-check, discovery, the
 * exclusion filter, schema generation, the json2ts run and post-processing.
 */
module Orchestrator {

  import opened Base
  import opened Json
  import opened Discovery
  import opened SchemaGenerator
  import opened OutputCleaner

  /** `[m for m in decls if m.__name__ not in exclude]`. */
  function Exclude(decls: seq<Decl>, exclude: seq<string>): (r: seq<Decl>)
    ensures |r| <= |decls|
  {
    if decls == [] then []
    else
      var init, last := decls[..|decls| - 1], decls[|decls| - 1];
      Exclude(init, exclude) + if last.name in exclude then [] else [last]
  }

  /**
   * The filter keeps every occurrence of a class whose name is not excluded
   * and drops every occurrence of one whose name is.
   */
  lemma {:induction false} ExcludeCounts(decls: seq<Decl>, exclude: seq<string>, d: Decl)
    ensures multiset(Exclude(decls, exclude))[d] == if d.name in exclude then 0 else multiset(decls)[d]
    ensures d in Exclude(decls, exclude) <==> d in decls && d.name !in exclude
  {
    if decls != [] {
      var init, last := decls[..|decls| - 1], decls[|decls| - 1];
      assert decls == init + [last];
      ExcludeCounts(init, exclude, d);
    }
  }

  /** `r` is `s` with some elements left out and the rest in their order. */
  ghost predicate IsSubsequence<T>(r: seq<T>, s: seq<T>)
  {
    if r == [] then true
    else if s == [] then false
    else
      || (r[|r| - 1] == s[|s| - 1] && IsSubsequence(r[..|r| - 1], s[..|s| - 1]))
      || IsSubsequence(r, s[..|s| - 1])
  }

  /** The filter keeps the surviving declarations in their discovery order. */
  lemma {:induction false} ExcludeIsSubsequence(decls: seq<Decl>, exclude: seq<string>)
    ensures IsSubsequence(Exclude(decls, exclude), decls)
  {
    if decls != [] {
      var init, last := decls[..|decls| - 1], decls[|decls| - 1];
      ExcludeIsSubsequence(init, exclude);
      var r := Exclude(decls, exclude);
      if last.name !in exclude {
        assert r[..|r| - 1] == Exclude(init, exclude);
      } else {
        assert r == Exclude(init, exclude);
        if r != [] {
          assert IsSubsequence(r, init);
        }
      }
    }
  }

  /** Filtering a concatenation filters each part. */
  lemma {:induction false} ExcludeConcat(a: seq<Decl>, b: seq<Decl>, exclude: seq<string>)
    ensures Exclude(a + b, exclude) == Exclude(a, exclude) + Exclude(b, exclude)
  {
    if b != [] {
      var init, last := b[..|b| - 1], b[|b| - 1];
      var tail := if last.name in exclude then [] else [last];
      ExcludeConcat(a, init, exclude);
      assert (a + b)[..|a + b| - 1] == a + init && (a + b)[|a + b| - 1] == last;
      calc {
        Exclude(a + b, exclude);
        Exclude(a + init, exclude) + tail;
        Exclude(a, exclude) + Exclude(init, exclude) + tail;
        Exclude(a, exclude) + (Exclude(init, exclude) + tail);
      }
    } else {
      assert a + b == a;
    }
  }

  /** The classes a traversal yields once the exclusion filter has run, if it runs. */
  ghost function Selected(tree: ModuleTree, sel: Selector, root: string, exclude: seq<string>): seq<Decl>
    requires WellFormed(tree) && root in tree
  {
    var found := Found(tree, sel, root);
    if |exclude| > 0 then Exclude(found, exclude) else found
  }

  /**
   * The classes `_Master_` gets a field for: exactly the discovered models and
   * TypedDicts whose names are not excluded.
   */
  lemma MasterClasses(tree: ModuleTree, root: string, exclude: seq<string>, d: Decl)
    requires WellFormed(tree) && root in tree
    ensures d in Selected(tree, PydanticModels, root, exclude) + Selected(tree, TypedDicts, root, exclude) <==>
      (d in Found(tree, PydanticModels, root) || d in Found(tree, TypedDicts, root)) && d.name !in exclude
  {
    if |exclude| > 0 {
      ExcludeCounts(Found(tree, PydanticModels, root), exclude, d);
      ExcludeCounts(Found(tree, TypedDicts, root), exclude, d);
    }
  }

  /** The pre-check: json2ts must be on the PATH unless schema only is asked or the command has a space. */
  predicate ConverterMissing(schemaOnly: bool, json2tsCmd: string, onPath: bool): (r: bool)
    ensures r <==> !schemaOnly && !onPath && forall i :: 0 <= i < |json2tsCmd| ==> json2tsCmd[i] != ' '
  {
    !schemaOnly && ' ' !in json2tsCmd && !onPath
  }

  /** What `os.system` returned and what json2ts left in the output file. */
  datatype ConverterRun = ConverterRun(exitStatus: int, output: seq<string>)

  /** Why a run stops. */
  datatype Failure =
    | ConverterNotInstalled
    | SchemaFailed(error: GenError)
    | ConverterFailed(exitStatus: int)
    | MasterBlockMissing(output: seq<string>)

  /** What the run leaves at the output path. */
  datatype Artifact = SchemaDocument(schema: Obj) | TypeDefinitions(lines: seq<string>)

  /**
   * One run. `onPath` is `shutil.which(json2ts_cmd)`, `tree` and `root` the
   * imported module, `reflect` the schema generator applied to the classes of
   * `_Master_` and their policies, and `convert` the json2ts invocation on the
   * written schema. Schema generation and post-processing use the corrected
   * `GenerateSchema` and `CleanOutputFile`. The ghost `schema` is the cleaned
   * schema, and it carries no meaning when the pre-check fails.
   */
  method GenerateTypescriptDefs(
    configs: ModelConfigs, tree: ModuleTree, root: string, exclude: seq<string>,
    json2tsCmd: string, schemaOnly: bool, onPath: bool,
    reflect: (seq<Decl>, map<Decl, Extra>) -> Result<Obj, string>, convert: Obj -> ConverterRun)
    returns (r: Result<Artifact, Failure>, ghost schema: Result<Obj, GenError>)
    requires WellFormed(tree) && root in tree
    modifies configs
    ensures configs.extra == old(configs.extra)
    ensures ConverterMissing(schemaOnly, json2tsCmd, onPath) ==> r == Err(ConverterNotInstalled)
    ensures !ConverterMissing(schemaOnly, json2tsCmd, onPath) ==>
      && Generated(
           reflect(Selected(tree, PydanticModels, root, exclude) + Selected(tree, TypedDicts, root, exclude),
                   Overridden(old(configs.extra), Selected(tree, PydanticModels, root, exclude))),
           Names(Selected(tree, TypedDicts, root, exclude)), schema)
      && (schema.Err? ==> r == Err(SchemaFailed(schema.error)))
      && (schema.Ok? && schemaOnly ==> r == Ok(SchemaDocument(schema.value)))
      && (schema.Ok? && !schemaOnly && convert(schema.value).exitStatus != 0 ==>
            r == Err(ConverterFailed(convert(schema.value).exitStatus)))
      && (schema.Ok? && !schemaOnly && convert(schema.value).exitStatus == 0 ==>
            var output := convert(schema.value).output;
            && (!HasMasterBlock(output) ==> r == Err(MasterBlockMissing(output)))
            && (forall s, e :: IsMasterBlock(output, s, e) ==> r == Ok(TypeDefinitions(Stripped(output, s, e)))))
  {
    // Placeholder only: no schema is generated when the pre-check fails.
    schema := Err(MissingTitle);
    if ConverterMissing(schemaOnly, json2tsCmd, onPath) {
      return Err(ConverterNotInstalled), schema;
    }
    var models := ExtractPydanticModels(tree, root);
    var typedDicts := ExtractTypedDicts(tree, root);
    if |exclude| > 0 {
      models := Exclude(models, exclude);
      typedDicts := Exclude(typedDicts, exclude);
    }
    var generated := configs.GenerateSchema(models, typedDicts, reflect);
    schema := generated;
    if generated.Err? {
      return Err(SchemaFailed(generated.error)), schema;
    }
    if schemaOnly {
      return Ok(SchemaDocument(generated.value)), schema;
    }
    var run := convert(generated.value);
    if run.exitStatus != 0 {
      return Err(ConverterFailed(run.exitStatus)), schema;
    }
    var written := CleanOutputFile(run.output);
    if written.raised {
      r := Err(MasterBlockMissing(written.content));
    } else {
      r := Ok(TypeDefinitions(written.content));
    }
  }
}
