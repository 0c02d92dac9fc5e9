/**
 * Model discovery: the classes of a module and of every submodule it owns,
 * found by `extract_pydantic_models` and `extract_typed_dicts`. A loaded
 * module tree is given as a map from module name to that module's members in
 * the order `inspect.getmembers` lists them.
 */
module Discovery {

  /** What a class member is, as far as the two class predicates can tell. */
  datatype ClassKind = BaseModelItself | PydanticModel | TypedDictClass | PlainClass

  /** A class: its identity, its `__name__` and its kind. */
  datatype Decl = Decl(id: nat, name: string, kind: ClassKind)

  /** A module attribute: a class, a module object (by its `__name__`), or anything else. */
  datatype Member = ClassMember(decl: Decl) | ModuleMember(moduleName: string) | OtherMember

  /** Which of the two traversals is running. */
  datatype Selector = PydanticModels | TypedDicts

  type ModuleTree = map<string, seq<Member>>

  /** Every module object reachable as a member is itself a module of the tree. */
  ghost predicate WellFormed(tree: ModuleTree)
  {
    forall n, i :: n in tree && 0 <= i < |tree[n]| && tree[n][i].ModuleMember? ==> tree[n][i].moduleName in tree
  }

  /** `is_concrete_pydantic_model`: a class deriving from BaseModel, other than BaseModel. */
  predicate IsConcretePydanticModel(m: Member)
  {
    m.ClassMember? && m.decl.kind == PydanticModel
  }

  /** `is_typed_dict`: a TypedDict class. */
  predicate IsTypedDict(m: Member)
  {
    m.ClassMember? && m.decl.kind == TypedDictClass
  }

  predicate Selects(sel: Selector, m: Member)
  {
    match sel
    case PydanticModels => IsConcretePydanticModel(m)
    case TypedDicts => IsTypedDict(m)
  }

  predicate StartsWith(s: string, prefix: string)
  {
    prefix <= s
  }

  /** `is_submodule`: a module whose name extends `moduleName` by a dot and more. */
  predicate IsSubmodule(m: Member, moduleName: string): (r: bool)
    ensures r <==> (m.ModuleMember? && |moduleName| < |m.moduleName| &&
                    m.moduleName[..|moduleName|] == moduleName && m.moduleName[|moduleName|] == '.')
  {
    m.ModuleMember? && StartsWith(m.moduleName, moduleName + ".")
  }

  /** The names of the tree longer than `name`; it shrinks on every step into a submodule. */
  ghost function Longer(tree: ModuleTree, name: string): set<string>
  {
    set k | k in tree && |k| > |name|
  }

  lemma SubmoduleShrinks(tree: ModuleTree, name: string, m: Member)
    requires IsSubmodule(m, name) && m.moduleName in tree
    ensures Longer(tree, m.moduleName) < Longer(tree, name)
  {
    assert m.moduleName in Longer(tree, name) - Longer(tree, m.moduleName);
  }

  /** The classes among `members` that the traversal collects, in member order. */
  function Matches(members: seq<Member>, sel: Selector): (r: seq<Decl>)
    ensures |r| <= |members|
  {
    if members == [] then []
    else
      var last := members[|members| - 1];
      Matches(members[..|members| - 1], sel) + (if Selects(sel, last) then [last.decl] else [])
  }

  ghost predicate Resolves(tree: ModuleTree, members: seq<Member>)
  {
    forall i :: 0 <= i < |members| && members[i].ModuleMember? ==> members[i].moduleName in tree
  }

  /**
   * What discovery returns for module `name`: its own matches, then the results
   * of its submodules in member order.
   */
  ghost function Found(tree: ModuleTree, sel: Selector, name: string): seq<Decl>
    requires WellFormed(tree) && name in tree
    decreases Longer(tree, name), 1, 0
  {
    Matches(tree[name], sel) + FromSubmodules(tree, sel, name, tree[name])
  }

  /** The concatenated results of the submodules among `members`. */
  ghost function FromSubmodules(tree: ModuleTree, sel: Selector, name: string, members: seq<Member>): seq<Decl>
    requires WellFormed(tree) && Resolves(tree, members)
    decreases Longer(tree, name), 0, |members|
  {
    if members == [] then []
    else
      var last := members[|members| - 1];
      FromSubmodules(tree, sel, name, members[..|members| - 1]) +
        if IsSubmodule(last, name) then
          SubmoduleShrinks(tree, name, last);
          Found(tree, sel, last.moduleName)
        else []
  }

  /** The shared body of `extract_pydantic_models` and `extract_typed_dicts`. */
  method Extract(tree: ModuleTree, sel: Selector, name: string) returns (found: seq<Decl>)
    requires WellFormed(tree) && name in tree
    ensures found == Found(tree, sel, name)
    decreases Longer(tree, name)
  {
    var members := tree[name];
    found := [];
    var i := 0;
    while i < |members|
      invariant 0 <= i <= |members|
      invariant found == Matches(members[..i], sel)
    {
      if Selects(sel, members[i]) {
        found := found + [members[i].decl];
      }
      assert members[..i + 1][..i] == members[..i];
      i := i + 1;
    }
    assert members[..i] == members;
    i := 0;
    while i < |members|
      invariant 0 <= i <= |members|
      invariant Resolves(tree, members[..i])
      invariant found == Matches(members, sel) + FromSubmodules(tree, sel, name, members[..i])
    {
      assert members[..i + 1][..i] == members[..i];
      if IsSubmodule(members[i], name) {
        SubmoduleShrinks(tree, name, members[i]);
        var more := Extract(tree, sel, members[i].moduleName);
        found := found + more;
      }
      i := i + 1;
    }
    assert members[..i] == members;
  }

  /** `extract_pydantic_models`. */
  method ExtractPydanticModels(tree: ModuleTree, name: string) returns (models: seq<Decl>)
    requires WellFormed(tree) && name in tree
    ensures models == Found(tree, PydanticModels, name)
    ensures forall d :: d in models ==> d.kind == PydanticModel
  {
    models := Extract(tree, PydanticModels, name);
    FoundSelected(tree, PydanticModels, name);
  }

  /** `extract_typed_dicts`. */
  method ExtractTypedDicts(tree: ModuleTree, name: string) returns (typedDicts: seq<Decl>)
    requires WellFormed(tree) && name in tree
    ensures typedDicts == Found(tree, TypedDicts, name)
    ensures forall d :: d in typedDicts ==> d.kind == TypedDictClass
  {
    typedDicts := Extract(tree, TypedDicts, name);
    FoundSelected(tree, TypedDicts, name);
  }

  predicate KindOf(sel: Selector, d: Decl)
  {
    Selects(sel, ClassMember(d))
  }

  lemma {:induction false} MatchesSelected(members: seq<Member>, sel: Selector)
    ensures forall d :: d in Matches(members, sel) ==> KindOf(sel, d)
  {
    if members != [] {
      MatchesSelected(members[..|members| - 1], sel);
    }
  }

  /** Everything a traversal returns is of the kind it looks for. */
  lemma {:induction false} FoundSelected(tree: ModuleTree, sel: Selector, name: string)
    requires WellFormed(tree) && name in tree
    ensures forall d :: d in Found(tree, sel, name) ==> KindOf(sel, d)
    decreases Longer(tree, name), 1, 0
  {
    MatchesSelected(tree[name], sel);
    FromSubmodulesSelected(tree, sel, name, tree[name]);
  }

  lemma {:induction false} FromSubmodulesSelected(tree: ModuleTree, sel: Selector, name: string, members: seq<Member>)
    requires WellFormed(tree) && Resolves(tree, members)
    ensures forall d :: d in FromSubmodules(tree, sel, name, members) ==> KindOf(sel, d)
    decreases Longer(tree, name), 0, |members|
  {
    if members != [] {
      var last := members[|members| - 1];
      FromSubmodulesSelected(tree, sel, name, members[..|members| - 1]);
      if IsSubmodule(last, name) {
        SubmoduleShrinks(tree, name, last);
        FoundSelected(tree, sel, last.moduleName);
      }
    }
  }

  /** The module itself or one whose name extends it by a dot. */
  predicate Owns(name: string, n: string)
  {
    n == name || StartsWith(n, name + ".")
  }

  lemma OwnsTransitive(a: string, b: string, c: string)
    requires Owns(a, b) && Owns(b, c)
    ensures Owns(a, c)
  {
    if b != a && c != b {
      assert (a + ".") <= b <= c by {
        assert c[..|b + "."|] == b + ".";
        assert b[..|a + "."|] == a + ".";
      }
    }
  }

  lemma {:induction false} MatchesFromMembers(members: seq<Member>, sel: Selector)
    ensures forall d :: d in Matches(members, sel) ==> ClassMember(d) in members
  {
    if members != [] {
      MatchesFromMembers(members[..|members| - 1], sel);
    }
  }

  /**
   * Every class discovered from `name` is a member of `name` or of a module
   * whose dotted name extends `name`: discovery never leaves the package.
   */
  lemma {:induction false} FoundWithinPackage(tree: ModuleTree, sel: Selector, name: string)
    requires WellFormed(tree) && name in tree
    ensures forall d :: d in Found(tree, sel, name) ==>
      exists n :: n in tree && Owns(name, n) && ClassMember(d) in tree[n]
    decreases Longer(tree, name), 1, 0
  {
    MatchesFromMembers(tree[name], sel);
    FromSubmodulesWithinPackage(tree, sel, name, tree[name]);
  }

  lemma {:induction false} FromSubmodulesWithinPackage(tree: ModuleTree, sel: Selector, name: string, members: seq<Member>)
    requires WellFormed(tree) && Resolves(tree, members)
    ensures forall d :: d in FromSubmodules(tree, sel, name, members) ==>
      exists n :: n in tree && Owns(name, n) && ClassMember(d) in tree[n]
    decreases Longer(tree, name), 0, |members|
  {
    if members != [] {
      var last := members[|members| - 1];
      FromSubmodulesWithinPackage(tree, sel, name, members[..|members| - 1]);
      if IsSubmodule(last, name) {
        var child := last.moduleName;
        SubmoduleShrinks(tree, name, last);
        FoundWithinPackage(tree, sel, child);
        forall d | d in Found(tree, sel, child)
          ensures exists n :: n in tree && Owns(name, n) && ClassMember(d) in tree[n]
        {
          var n :| n in tree && Owns(child, n) && ClassMember(d) in tree[n];
          OwnsTransitive(name, child, n);
        }
      }
    }
  }

  lemma {:induction false} MatchesComplete(members: seq<Member>, sel: Selector, i: nat)
    requires i < |members| && Selects(sel, members[i])
    ensures members[i].decl in Matches(members, sel)
  {
    if i < |members| - 1 {
      MatchesComplete(members[..|members| - 1], sel, i);
    }
  }

  lemma {:induction false} FromSubmodulesIncludes(tree: ModuleTree, sel: Selector, name: string, members: seq<Member>, i: nat)
    requires WellFormed(tree) && Resolves(tree, members)
    requires i < |members| && IsSubmodule(members[i], name)
    ensures members[i].moduleName in tree
    ensures forall d :: d in Found(tree, sel, members[i].moduleName) ==> d in FromSubmodules(tree, sel, name, members)
  {
    if i < |members| - 1 {
      FromSubmodulesIncludes(tree, sel, name, members[..|members| - 1], i);
    }
  }

  /**
   * Nothing is missed: every matching class of the module, and everything
   * found in each of its submodules, is in the result.
   */
  lemma FoundComplete(tree: ModuleTree, sel: Selector, name: string, i: nat)
    requires WellFormed(tree) && name in tree && i < |tree[name]|
    ensures Selects(sel, tree[name][i]) ==> tree[name][i].decl in Found(tree, sel, name)
    ensures IsSubmodule(tree[name][i], name) ==>
      tree[name][i].moduleName in tree &&
      forall d :: d in Found(tree, sel, tree[name][i].moduleName) ==> d in Found(tree, sel, name)
  {
    if Selects(sel, tree[name][i]) {
      MatchesComplete(tree[name], sel, i);
    }
    if IsSubmodule(tree[name][i], name) {
      FromSubmodulesIncludes(tree, sel, name, tree[name], i);
    }
  }
}
