/**
 * `clean_schema`: the normalisation applied to one definition of the
 * generated JSON Schema before it is handed to json2ts.
 */
module SchemaCleaner {

  import opened Base
  import opened Json

  /** The description pydantic gives an Enum that has no docstring. */
  const EnumBoilerplate: string := "An enumeration."

  /** Why `clean_schema` raises: `properties` is not a dict, or one property is not. */
  datatype SchemaError = PropertiesNotAnObject | PropertyNotAnObject

  /**
   * One property after its `title` is popped and, for a tuple schema, its
   * `prefixItems` (JSON Schema 2020-12, section 10.3.1.1) copied into `items`
   * (section 10.3.1.2), which json2ts understands.
   */
  function CleanProperty(prop: Obj): (r: Obj)
    ensures "title" !in r
    ensures "prefixItems" in prop ==> "prefixItems" in r && "items" in r && r["items"] == r["prefixItems"] == prop["prefixItems"]
    ensures "prefixItems" !in prop ==> r == prop - {"title"}
    ensures forall k :: k in prop && k != "title" && k != "items" ==> k in r && r[k] == prop[k]
    ensures forall k :: k in r ==> k in prop || k == "items"
  {
    var p := prop - {"title"};
    if "prefixItems" in p then p["items" := p["prefixItems"]] else p
  }

  /** Every property is a dict, so the loop over them does not raise. */
  predicate AllObjects(props: Obj)
  {
    forall k :: k in props ==> props[k].JObj?
  }

  /** Property-wise cleaning of a `properties` dict whose values are all dicts. */
  function CleanProperties(props: Obj): (r: Obj)
    requires AllObjects(props)
    ensures r.Keys == props.Keys
    ensures forall k :: k in r ==> r[k] == JObj(CleanProperty(props[k].fields))
  {
    map k | k in props :: JObj(CleanProperty(props[k].fields))
  }

  /** `schema` with `additionalProperties` forced to false for a TypedDict. */
  function ClosedIf(schema: Obj, isTypedDict: bool): Obj
  {
    if isTypedDict then schema["additionalProperties" := JBool(false)] else schema
  }

  /** True when the description is pydantic's boilerplate on an Enum. */
  predicate HasBoilerplate(schema: Obj)
  {
    "enum" in schema && Lookup(schema, "description") == Some(JStr(EnumBoilerplate))
  }

  /**
   * The effect of `clean_schema(schema, is_typeddict)` on one definition: the
   * new definition, or the error the loop over the properties raises.
   */
  function Cleaned(schema: Obj, isTypedDict: bool): (r: Result<Obj, SchemaError>)
    // The loop fails exactly on a `properties` entry that is not a dict of dicts.
    ensures r.Err? <==> "properties" in schema && !(schema["properties"].JObj? && AllObjects(schema["properties"].fields))
    ensures r.Err? ==> r.error == (if schema["properties"].JObj? then PropertyNotAnObject else PropertiesNotAnObject)
    // additionalProperties is false for a TypedDict and untouched otherwise.
    ensures r.Ok? && isTypedDict ==> Lookup(r.value, "additionalProperties") == Some(JBool(false))
    ensures r.Ok? && !isTypedDict ==> Lookup(r.value, "additionalProperties") == Lookup(schema, "additionalProperties")
    // Each property loses its title and gets items from prefixItems; nothing else.
    ensures r.Ok? ==> ("properties" in r.value <==> "properties" in schema)
    ensures r.Ok? && "properties" in schema ==>
      r.value["properties"] == JObj(CleanProperties(schema["properties"].fields))
    // The description goes only when it is the Enum boilerplate.
    ensures r.Ok? ==> Lookup(r.value, "description") == (if HasBoilerplate(schema) then None else Lookup(schema, "description"))
    // All other keys are kept as they were.
    ensures r.Ok? ==> forall k :: k != "additionalProperties" && k != "properties" && k != "description" ==>
      Lookup(r.value, k) == Lookup(schema, k)
  {
    var closed := ClosedIf(schema, isTypedDict);
    if "properties" !in closed then
      Ok(if HasBoilerplate(closed) then closed - {"description"} else closed)
    else match closed["properties"]
      case JObj(props) =>
        if !AllObjects(props) then Err(PropertyNotAnObject)
        else
          var cleaned := closed["properties" := JObj(CleanProperties(props))];
          Ok(if HasBoilerplate(cleaned) then cleaned - {"description"} else cleaned)
      case _ => Err(PropertiesNotAnObject)
  }

  /**
   * `clean_schema` as the script runs it: the definition is updated key by key
   * and the properties are rewritten one at a time.
   */
  method CleanSchema(schema: Obj, isTypedDict: bool) returns (r: Result<Obj, SchemaError>)
    ensures r == Cleaned(schema, isTypedDict)
  {
    var s := schema;
    if isTypedDict {
      s := s["additionalProperties" := JBool(false)];
    }
    if "properties" in s {
      if !s["properties"].JObj? {
        return Err(PropertiesNotAnObject);
      }
      var props := s["properties"].fields;
      var todo := props.Keys;
      while todo != {}
        invariant todo <= props.Keys == s["properties"].fields.Keys
        invariant forall k :: k in props && k in todo ==> props[k] == s["properties"].fields[k]
        invariant forall k :: k in props && k !in todo ==>
          s["properties"].fields[k].JObj? && props[k] == JObj(CleanProperty(s["properties"].fields[k].fields))
        decreases todo
      {
        var k :| k in todo;
        match props[k] {
          case JObj(prop) =>
            props := props[k := JObj(CleanProperty(prop))];
          case _ =>
            return Err(PropertyNotAnObject);
        }
        todo := todo - {k};
      }
      assert AllObjects(s["properties"].fields);
      assert props == CleanProperties(s["properties"].fields);
      s := s["properties" := JObj(props)];
    }
    if "enum" in s && Lookup(s, "description") == Some(JStr(EnumBoilerplate)) {
      s := s - {"description"};
    }
    r := Ok(s);
  }

  /** Cleaning a cleaned property changes nothing. */
  lemma CleanPropertyIdempotent(prop: Obj)
    ensures CleanProperty(CleanProperty(prop)) == CleanProperty(prop)
  {
    var once := CleanProperty(prop);
    var twice := CleanProperty(once);
    forall k ensures Lookup(twice, k) == Lookup(once, k) {
    }
    LookupExtensional(twice, once);
  }

  /** `clean_schema` is idempotent: a cleaned definition is already clean. */
  lemma CleanedIdempotent(schema: Obj, isTypedDict: bool)
    requires Cleaned(schema, isTypedDict).Ok?
    ensures Cleaned(Cleaned(schema, isTypedDict).value, isTypedDict) == Cleaned(schema, isTypedDict)
  {
    var once := Cleaned(schema, isTypedDict).value;
    if "properties" in schema {
      var props := schema["properties"].fields;
      var cleanedProps := CleanProperties(props);
      forall k | k in cleanedProps
        ensures CleanProperty(cleanedProps[k].fields) == cleanedProps[k].fields
      {
        CleanPropertyIdempotent(props[k].fields);
      }
      assert CleanProperties(cleanedProps) == cleanedProps;
    }
    var twice := Cleaned(once, isTypedDict);
    assert twice.Ok?;
    forall k ensures Lookup(twice.value, k) == Lookup(once, k) {
    }
    LookupExtensional(twice.value, once);
  }
}
