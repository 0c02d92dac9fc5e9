# pydantic2ts in Dafny

A model of the core of `pydantic2ts`, the script that turns the pydantic models of a Python
package into TypeScript interfaces. The script works in five steps:

- It finds every concrete pydantic model and every TypedDict in a module and in the submodules
  that module owns.
- It drops the classes whose names the caller excluded.
- It builds one `_Master_` model that refers to all of them and asks pydantic for its JSON Schema.
  While it does so, every model's `extra` policy is overridden to `forbid` unless it was `allow`.
- It cleans every definition under `$defs`. Property titles are removed, tuple `prefixItems` are
  copied into `items`, TypedDicts are closed, and the Enum boilerplate description is dropped.
- It runs json2ts on the schema. In the resulting file it cuts out the `_Master_` interface and
  puts a banner in front.

Modules, one file each:

- `Base` (`base.dfy`): Option, Result and `dict.get`.
- `Json` (`json.dfy`): JSON values.
- `OutputCleaner` (`output_cleaner.dfy`): `clean_output_file`.
- `SchemaCleaner` (`schema_cleaner.dfy`): `clean_schema`.
- `SchemaGenerator` (`schema_generator.dfy`): `generate_schema`. It holds the policy override and
  the `$defs` loop. The class `ModelConfigs` holds the `extra` settings that the script updates in
  place.
- `Discovery` (`discovery.dfy`): `is_submodule`, `extract_pydantic_models` and
  `extract_typed_dicts`, run over a module tree given as a map. A submodule's name strictly
  extends its parent's, so no cycle is possible and the traversal always terminates. A module
  reachable along two paths has its classes listed twice, as in the script.
- `Orchestrator` (`orchestrator.dfy`): `generate_typescript_defs`, including the exclusion filter
  and the json2ts pre-check.

Code that loops or mutates is written as methods with loops. Each method is proved equal to a
function, or to a declarative predicate, and the promised properties are proved as lemmas about
that function or predicate.

## Model

| member | source | states |
|---|---|---|
| `OutputCleaner.StripEol` | backend/scripts/pydantic2ts.py:161-163 | The result is a prefix of the line, does not end in `\r` or `\n`, and everything cut off is `\r` or `\n`. This is `rstrip("\r\n")`. |
| `OutputCleaner.FindMasterBlock` | backend/scripts/pydantic2ts.py:159-165 | An end index is found iff the file has a block. The block starts at the last `_Master_` header before the first `}` line that follows the first header. It ends at that `}`. With no end, a start is reported iff some header exists. |
| `OutputCleaner.MasterBlockUnique` | backend/scripts/pydantic2ts.py:159-165 | At most one (start, end) pair satisfies the block condition, so the scan's answer is the only one. |
| `OutputCleaner.CleanOutputFileAsWritten` | backend/scripts/pydantic2ts.py:147-179 | With a block, the file becomes banner + lines before the header + lines after the `}`. Without one, the file is left empty and the call raises. |
| `OutputCleaner.CleanOutputFile` | backend/scripts/pydantic2ts.py:147-179 | Same result when there is a block. A missing marker is reported as a failure, and the file keeps the converter's lines. |
| `OutputCleaner.StrippedKeepsOrder` | backend/scripts/pydantic2ts.py:176 | The output has `|banner| + |lines| - (e - s + 1)` lines. After the banner, line `i` is input line `i` before the block and input line `i + (e - s + 1)` after it. |
| `OutputCleaner.SecondRunFindsNoBlock` | backend/scripts/pydantic2ts.py:159-176 | If the removed header was the file's only one, the cleaned file (banner included) has no block left. |
| `SchemaCleaner.CleanProperty` | backend/scripts/pydantic2ts.py:194-200 | A property loses `title`. With `prefixItems`, `items` equals it and `prefixItems` is kept. Without it, only `title` goes. Every other key is kept unchanged. |
| `SchemaCleaner.Cleaned` | backend/scripts/pydantic2ts.py:182-203 | Fails exactly when `properties` is present and is not a dict of dicts, with the matching error. `additionalProperties` is false for a TypedDict and untouched otherwise. `properties` is cleaned property by property. `description` goes iff `enum` is present and the description is "An enumeration.". All other keys are unchanged. |
| `SchemaCleaner.CleanSchema` | backend/scripts/pydantic2ts.py:182-203 | The key-by-key, property-by-property rewrite returns exactly `Cleaned(schema, is_typeddict)`. |
| `SchemaCleaner.CleanPropertyIdempotent` | backend/scripts/pydantic2ts.py:194-200 | Cleaning a cleaned property changes nothing. |
| `SchemaCleaner.CleanedIdempotent` | backend/scripts/pydantic2ts.py:182-203 | Cleaning a cleaned definition gives the same definition. |
| `SchemaGenerator.OverriddenAt` | backend/scripts/pydantic2ts.py:217-219 | After the override loop, each listed model has `allow` if it had `allow` and `forbid` otherwise. Duplicates in the list are allowed. Every other class keeps its setting. |
| `SchemaGenerator.WrittenBackCurrent` | backend/scripts/pydantic2ts.py:243-246 | If every non-None saved value is already in place, the `finally` loop leaves the settings unchanged. |
| `SchemaGenerator.RestoreUndoesOverride` | backend/scripts/pydantic2ts.py:212-219 | Restoring a snapshot taken before the override gives back exactly the settings from before. An absent key is deleted again. |
| `SchemaGenerator.OverrideOutlivesCall` | backend/scripts/pydantic2ts.py:212-224 | A listed model whose `extra` was unset or `ignore` has `forbid` after the override. That differs from its value before the call. |
| `SchemaGenerator.CleanDefinitions` | backend/scripts/pydantic2ts.py:236-239 | A reflection error is passed on. A schema without `$defs` is returned as it is. A non-dict `$defs` fails. Otherwise every entry is cleaned with `is_typeddict` set iff its title is a TypedDict name, or the result is the error of some failing entry. |
| `SchemaGenerator.ModelConfigs.OverrideExtras` | backend/scripts/pydantic2ts.py:217-219 | The new settings are the override of the old settings over the models in list order. |
| `SchemaGenerator.ModelConfigs.WriteBack` | backend/scripts/pydantic2ts.py:243-246 | The new settings are the old ones with each non-None saved value written to its class, in zip order. |
| `SchemaGenerator.ModelConfigs.Restore` | backend/scripts/pydantic2ts.py:243-246 | The corrected `finally` loop used by `GenerateSchema`. Each saved value is written back. Unlike lines 243-246, a saved None deletes the key, so a class saved without a setting loses it. |
| `SchemaGenerator.ModelConfigs.GenerateSchemaAsWritten` | backend/scripts/pydantic2ts.py:206-246 | The schema is generated from `_Master_` over the models followed by the TypedDicts, under the overridden policies, and its definitions are cleaned. Afterwards each model has `allow` if it had `allow` and `forbid` otherwise. TypedDicts and other classes are not written. |
| `SchemaGenerator.ModelConfigs.GenerateSchema` | backend/scripts/pydantic2ts.py:206-246 | Same schema, generated from the same classes under the overridden policies. Afterwards every class's setting equals its value before the call, on success and on failure. |
| `Discovery.IsSubmodule` | backend/scripts/pydantic2ts.py:49-55 | A member is a submodule iff it is a module whose name is longer than the current module's name, starts with that name and has a dot right after it. |
| `Discovery.SubmoduleShrinks` | backend/scripts/pydantic2ts.py:49-55 | Stepping into a submodule shrinks the set of longer module names, so the recursion terminates on a finite tree. |
| `Discovery.Extract` | backend/scripts/pydantic2ts.py:129-144 | Returns the module's own matches in member order, then the concatenated results of each submodule in member order. Duplicates are kept. |
| `Discovery.ExtractPydanticModels` | backend/scripts/pydantic2ts.py:129-144 | The traversal above, with concrete pydantic models as matches. Every result is a concrete pydantic model. |
| `Discovery.ExtractTypedDicts` | backend/scripts/pydantic2ts.py:81-96 | The same traversal with TypedDicts as matches. Every result is a TypedDict. |
| `Discovery.FoundSelected` | backend/scripts/pydantic2ts.py:136-137 | Every discovered class is of the kind the traversal collects. |
| `Discovery.FoundWithinPackage` | backend/scripts/pydantic2ts.py:49-55 | Every discovered class is a member of the root module or of a module whose name extends the root's name by a dot. |
| `Discovery.FoundComplete` | backend/scripts/pydantic2ts.py:136-142 | Every matching member of the module is found. Everything found in one of its submodules is found too. |
| `Orchestrator.ExcludeCounts` | backend/scripts/pydantic2ts.py:295-297 | The filter drops every occurrence of an excluded name and keeps every other occurrence, with its multiplicity. |
| `Orchestrator.ExcludeIsSubsequence` | backend/scripts/pydantic2ts.py:295-297 | The filtered list is an order-preserving subsequence of the discovered list. |
| `Orchestrator.ExcludeConcat` | backend/scripts/pydantic2ts.py:295-297 | Filtering a concatenation equals concatenating the filtered parts. |
| `Orchestrator.ConverterMissing` | backend/scripts/pydantic2ts.py:284 | The run stops before discovery iff it is not schema-only, the command contains no space character and the command is not on the PATH. |
| `Orchestrator.GenerateTypescriptDefs` | backend/scripts/pydantic2ts.py:268-329 | Fails with "json2ts must be installed" iff the run is not schema-only, the command has no space and json2ts is not on the PATH. Otherwise the schema is generated from the filtered models followed by the filtered TypedDicts, under the policies overridden for the filtered models. Schema-only returns it. A nonzero json2ts status fails with that status. A zero status post-processes the output. Unlike lines 268-329, it uses the corrected `GenerateSchema` and `CleanOutputFile`, so the `extra` settings end as they began. A missing marker fails with the converter's output, unchanged, in the failure value. |
| `Orchestrator.MasterClasses` | backend/scripts/pydantic2ts.py:293-297 | A class is given to `_Master_` iff it was discovered as a model or a TypedDict and its name is not excluded. |

## Left out

- Module loading (`import_module`) is not modelled. The module tree and the root name are inputs.
  The script imports the module twice, once per traversal. A module given by file path is therefore
  executed twice and yields distinct class objects. The model uses one tree for both traversals.
- `inspect.getmembers` is not modelled. Each module's member list is given in its order, and each
  class carries its kind. `is_concrete_pydantic_model` and `is_typed_dict` read that kind.
- `create_model` and `model_json_schema` are the parameter `reflect`. It receives the class list
  `models + typedDicts` and the policies in force when it is called. What happens inside it is not
  modelled: the `_Master_` keyword dict, where two classes with the same `__name__` collapse into
  one field, and pydantic's call of the `json_schema_extra` hook that `clean_schema` is installed
  as on `_Master_`.
- Serialisation and files are not modelled: `json.dumps`, `mkdtemp`, writing the schema file and
  `shutil.rmtree`. `os.system` running json2ts is the parameter `convert`, which returns the raw
  status and the written lines. `shutil.which` is the boolean `onPath`. Argument parsing, logging
  and `main` are left out. So are the commented-out functions and `backend/server.py`.
- Dict key order is not modelled, because JSON objects are maps. For `$defs`, the model therefore
  says only that the reported error is the error of some failing entry, not of the first one.
- JSON numbers are integers. Floating point is not modelled.
- Python exception classes become named failure values. Partial in-place changes made before an
  exception are not modelled, because the caller discards the schema.
- `clean_schema` and the `$defs` loop update dicts in place. The model returns the new dict
  instead, so aliasing between the dicts is not modelled.
- `SchemaGenerator.Snapshot` and `SchemaGenerator.Names`: their contracts only restate the list
  comprehensions they model.
- `SchemaCleaner.CleanProperties`: its contract only restates the map comprehension it models.
  What cleaning does to each property is stated by `CleanProperty`.
- `Orchestrator.Exclude`: its own contract only bounds the length. What the filter keeps is stated
  by `ExcludeCounts` and `ExcludeIsSubsequence`.
- Module identity is not modelled: a module is known only by its `__name__`. Two distinct module
  objects with the same `__name__` are merged into one tree entry.

## Findings

| source | as written | input that shows it | evidently intended | confidence | as-written member | corrected member |
|---|---|---|---|---|---|---|
| backend/scripts/pydantic2ts.py:175-179 | The file is reopened with `"w"` before `new_lines` is used. When either marker is missing, `new_lines` is unbound, so the file is truncated and the write raises. The converter's output is lost. | Any file without a line that is exactly `export interface _Master_ {`. Within one `generate_typescript_defs` run, json2ts rewrites the file just before the call, so this needs json2ts output without that line. A direct second call of `clean_output_file` on its own output also shows it (`SecondRunFindsNoBlock`). | Leave the file as the converter wrote it and fail with an explicit error. | medium, not executed | `OutputCleaner.CleanOutputFileAsWritten`, `OutputCleaner.SecondRunFindsNoBlock` | `OutputCleaner.CleanOutputFile` |
| backend/scripts/pydantic2ts.py:217-224 | `all_model_extras` is read after the override loop, so the `finally` block writes the overridden values back and the override is never undone. A class that had no `extra` key would also keep the `forbid` it was given. | A model whose `model_config` has no `extra`, or has `"ignore"`, ends the call with `extra == "forbid"` (`OverrideOutlivesCall`). | The docstring says the change "is reverted once the schema has been generated": each class gets back its setting from before the call. | high, not executed | `SchemaGenerator.ModelConfigs.GenerateSchemaAsWritten`, `SchemaGenerator.OverrideOutlivesCall` | `SchemaGenerator.ModelConfigs.GenerateSchema`, `SchemaGenerator.ModelConfigs.Restore` |

The orchestrator uses the corrected versions of both.
