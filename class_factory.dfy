/**
 * `create` of src/Factories/ClassFactory.ts: the class entity built from a
 * class symbol. The checker's answers (the declarations, the member lists
 * `serializeConstructors`/`serializeMethods`/`serializeTypeParameters`
 * return, the resolved heritage types) are inputs.
 */
module ClassFactory {
  import opened Wrappers
  import opened Model
  import CF = ComponentFactory

  // ---------------------------------------------------------------- inputs

  datatype ClauseToken = ExtendsKeyword | ImplementsKeyword

  /** One heritage clause of a class declaration. */
  datatype HeritageClause = HeritageClause(token: ClauseToken, types: seq<CF.HeritageType>)

  /** One declaration of the class symbol: its modifiers and its heritage clauses. */
  datatype ClassDeclaration = ClassDeclaration(decl: CF.Declaration, heritageClauses: Option<seq<HeritageClause>>)

  /** The lists the member serializers return for `classSymbol.members`. */
  datatype ClassMembers = ClassMembers(constructors: seq<Method>, members: seq<Member>, typeParameters: seq<TypeParameter>)

  /** What `create` reads of a class symbol. */
  datatype ClassSymbol = ClassSymbol(
    name: string,
    /** The symbol `getNamespace` walks. */
    symbol: CF.Symbol,
    declarations: Option<seq<ClassDeclaration>>,
    /** `None` when `classSymbol.members` is undefined. */
    members: Option<ClassMembers>,
    /** The members serialized from `classSymbol.exports`, when defined. */
    exports: Option<seq<Member>>,
    /** The members serialized from `classSymbol.globalExports`, when defined. */
    globalExports: Option<seq<Member>>)

  // ---------------------------------------------------------------- module lookup

  /** The module of the last entry whose sources include the file, else `""`. */
  function LastListed(file: string, modules: seq<ModuleEntry>): string
  {
    if modules == [] then ""
    else if file in modules[|modules| - 1].sources then modules[|modules| - 1].moduleName
    else LastListed(file, modules[..|modules| - 1])
  }

  predicate NotListedAfter(file: string, modules: seq<ModuleEntry>, k: int)
  {
    forall j :: 0 <= j && k < j < |modules| ==> file !in modules[j].sources
  }

  /** The module found is that of the last entry listing the file; it is `""` when no entry lists it. */
  lemma {:induction false} LastListedIsLast(file: string, modules: seq<ModuleEntry>)
    ensures NotListedAfter(file, modules, -1) ==> LastListed(file, modules) == ""
    ensures forall k :: (0 <= k < |modules| && file in modules[k].sources && NotListedAfter(file, modules, k)) ==>
      LastListed(file, modules) == modules[k].moduleName
  {
    if modules != [] && file !in modules[|modules| - 1].sources {
      var init := modules[..|modules| - 1];
      LastListedIsLast(file, init);
      assert forall k :: 0 <= k < |init| ==> init[k] == modules[k];
    }
  }

  /** When at most one entry lists the file, the last match and `getModuleName`'s first match agree. */
  lemma LastListedAgrees(file: string, modules: seq<ModuleEntry>)
    requires forall i, j ::
      (0 <= i < |modules| && 0 <= j < |modules| && file in modules[i].sources && file in modules[j].sources) ==> i == j
    ensures LastListed(file, modules) == CF.GetModuleName(file, modules)
  {
    LastListedIsLast(file, modules);
    CF.GetModuleNameFirst(file, modules);
    if k :| 0 <= k < |modules| && file in modules[k].sources {
      assert NotListedAfter(file, modules, k);
      assert CF.NotListedBefore(file, modules, k);
    }
  }

  /** With two entries listing the file, the class takes the second module and `getModuleName` the first. */
  lemma LastListedDiffers()
    ensures LastListed("a.ts", [ModuleEntry("first", ["a.ts"]), ModuleEntry("second", ["a.ts"])]) == "second"
    ensures CF.GetModuleName("a.ts", [ModuleEntry("first", ["a.ts"]), ModuleEntry("second", ["a.ts"])]) == "first"
  {
  }

  // ---------------------------------------------------------------- heritage clauses

  /** The heritage fields of the class under construction. */
  datatype Heritage = Heritage(
    extendsClass: Option<string>,
    extendsClassFile: Option<string>,
    implementsInterfaces: seq<string>,
    implementsInterfacesFiles: seq<string>)

  const NoHeritage := Heritage(None, None, [], [])

  function Firsts(pairs: seq<(string, string)>): (r: seq<string>)
    ensures |r| == |pairs| && forall k :: 0 <= k < |pairs| ==> r[k] == pairs[k].0
  {
    if pairs == [] then [] else [pairs[0].0] + Firsts(pairs[1..])
  }

  function Seconds(pairs: seq<(string, string)>): (r: seq<string>)
    ensures |r| == |pairs| && forall k :: 0 <= k < |pairs| ==> r[k] == pairs[k].1
  {
    if pairs == [] then [] else [pairs[0].1] + Seconds(pairs[1..])
  }

  /**
   * The effect of one clause: an extends clause takes its first type, and
   * indexing the empty name list throws; an implements clause replaces both
   * parallel lists.
   */
  function ApplyClause(h: Heritage, c: HeritageClause): (r: Result<Heritage>)
    ensures r.Err? <==> c.token == ExtendsKeyword && c.types == []
    ensures r.Err? ==> r.error == "TypeError"
  {
    var names := CF.HeritageClauseNames(c.types);
    match c.token
    case ExtendsKeyword =>
      if names == [] then Err("TypeError")
      else Ok(h.(extendsClass := Some(names[0].0), extendsClassFile := Some(names[0].1)))
    case ImplementsKeyword =>
      Ok(h.(implementsInterfaces := Firsts(names), implementsInterfacesFiles := Seconds(names)))
  }

  /** The clauses applied in order, stopping at the first that throws. */
  function ApplyClauses(h: Heritage, cs: seq<HeritageClause>): (r: Result<Heritage>)
    ensures r.Err? ==> r.error == "TypeError"
  {
    if cs == [] then Ok(h)
    else match ApplyClauses(h, cs[..|cs| - 1])
      case Err(e) => Err(e)
      case Ok(g) => ApplyClause(g, cs[|cs| - 1])
  }

  /** The last clause with the given token, if any. */
  function LastClause(cs: seq<HeritageClause>, token: ClauseToken): (r: Option<HeritageClause>)
    ensures r.Some? ==> r.value in cs && r.value.token == token
    ensures r.None? <==> forall c :: c in cs ==> c.token != token
  {
    if cs == [] then None
    else if cs[|cs| - 1].token == token then Some(cs[|cs| - 1])
    else
      assert cs == cs[..|cs| - 1] + [cs[|cs| - 1]];
      LastClause(cs[..|cs| - 1], token)
  }

  /** No extends clause has an empty type list. */
  predicate ExtendsTyped(cs: seq<HeritageClause>)
  {
    forall c :: c in cs && c.token == ExtendsKeyword ==> c.types != []
  }

  /**
   * Applying the clauses fails exactly when an extends clause has no type;
   * otherwise the extends fields come from the first type of the last
   * extends clause, and the two interface lists from the last implements
   * clause, parallel and in clause order. Fields no clause sets are kept.
   */
  lemma {:induction false} ApplyClausesLast(h: Heritage, cs: seq<HeritageClause>)
    ensures ApplyClauses(h, cs).Ok? <==> ExtendsTyped(cs)
    ensures ApplyClauses(h, cs).Ok? ==>
      var r := ApplyClauses(h, cs).value;
      (match LastClause(cs, ExtendsKeyword)
       case None => r.extendsClass == h.extendsClass && r.extendsClassFile == h.extendsClassFile
       case Some(c) =>
         r.extendsClass == Some(CF.HeritageName(c.types[0]).0) &&
         r.extendsClassFile == Some(CF.HeritageName(c.types[0]).1)) &&
      (match LastClause(cs, ImplementsKeyword)
       case None => r.implementsInterfaces == h.implementsInterfaces &&
         r.implementsInterfacesFiles == h.implementsInterfacesFiles
       case Some(c) =>
         r.implementsInterfaces == Firsts(CF.HeritageClauseNames(c.types)) &&
         r.implementsInterfacesFiles == Seconds(CF.HeritageClauseNames(c.types)))
  {
    if cs != [] {
      var init := cs[..|cs| - 1];
      var last := cs[|cs| - 1];
      assert cs == init + [last];
      ApplyClausesLast(h, init);
      assert ExtendsTyped(cs) <==> ExtendsTyped(init) && (last.token == ExtendsKeyword ==> last.types != []);
    }
  }

  /** When the interface lists start parallel, every application leaves them parallel. */
  lemma {:induction false} ApplyClausesParallel(h: Heritage, cs: seq<HeritageClause>)
    requires |h.implementsInterfaces| == |h.implementsInterfacesFiles|
    ensures ApplyClauses(h, cs).Ok? ==>
      |ApplyClauses(h, cs).value.implementsInterfaces| == |ApplyClauses(h, cs).value.implementsInterfacesFiles|
  {
    if cs != [] {
      ApplyClausesParallel(h, cs[..|cs| - 1]);
    }
  }

  // ---------------------------------------------------------------- create

  function OrEmpty<T>(o: Option<seq<T>>): seq<T>
  {
    if o.Some? then o.value else []
  }

  /** The declaration the flags and the heritage clauses are read from. */
  function LastDeclaration(cs: ClassSymbol): Option<ClassDeclaration>
  {
    if cs.declarations.Some? && cs.declarations.value != [] then Some(cs.declarations.value[|cs.declarations.value| - 1])
    else None
  }

  /** The heritage clauses of the last declaration, or none. */
  function LastClauses(cs: ClassSymbol): seq<HeritageClause>
  {
    match LastDeclaration(cs)
    case None => []
    case Some(d) => OrEmpty(d.heritageClauses)
  }

  /** The `forEach` over the module table: every entry listing the file overwrites the module. */
  method FindModule(fileName: string, modules: seq<ModuleEntry>) returns (moduleName: string)
    ensures moduleName == LastListed(fileName, modules)
  {
    moduleName := "";
    for i := 0 to |modules|
      invariant moduleName == LastListed(fileName, modules[..i])
    {
      assert modules[..i + 1][..i] == modules[..i];
      if fileName in modules[i].sources {
        moduleName := modules[i].moduleName;
      }
    }
    assert modules[..|modules|] == modules;
  }

  /** The `forEach` over the heritage clauses of the last declaration. */
  method ApplyHeritage(clauses: seq<HeritageClause>) returns (r: Result<Heritage>)
    ensures r == ApplyClauses(NoHeritage, clauses)
  {
    var h := NoHeritage;
    for i := 0 to |clauses|
      invariant ApplyClauses(NoHeritage, clauses[..i]) == Ok(h)
    {
      assert clauses[..i + 1][..i] == clauses[..i];
      var clause := clauses[i];
      var names := CF.HeritageClauseNames(clause.types);
      if clause.token == ExtendsKeyword {
        if names == [] {
          ApplyClausesLast(NoHeritage, clauses[..i + 1]);
          assert clause in clauses[..i + 1];
          ApplyClausesLast(NoHeritage, clauses);
          assert clause in clauses;
          return Err("TypeError");
        }
        h := h.(extendsClass := Some(names[0].0), extendsClassFile := Some(names[0].1));
      } else {
        h := h.(implementsInterfaces := Firsts(names), implementsInterfacesFiles := Seconds(names));
      }
    }
    assert clauses[..|clauses|] == clauses;
    r := Ok(h);
  }

  /**
   * `ClassFactory.create`. It throws when `getNamespace` throws and when an
   * extends clause of the last declaration names no type.
   */
  method Create(fileName: string, cs: ClassSymbol, modules: seq<ModuleEntry>) returns (r: Result<Component>)
    ensures r.Ok? <==> CF.GetNamespace(cs.symbol).Ok? && ExtendsTyped(LastClauses(cs))
    ensures CF.GetNamespace(cs.symbol).Err? ==> r == Err(CF.GetNamespace(cs.symbol).error)
    ensures r.Ok? ==>
      var c := r.value;
      c.Class? && c.name == cs.name && c.fileName == fileName &&
      c.namespace == CF.GetNamespace(cs.symbol).value &&
      c.moduleName == LastListed(fileName, modules) &&
      (c.isStatic <==> LastDeclaration(cs).Some? && CF.IsModifier(LastDeclaration(cs).value.decl, CF.StaticKeyword)) &&
      (c.isAbstract <==> LastDeclaration(cs).Some? && CF.IsModifier(LastDeclaration(cs).value.decl, CF.AbstractKeyword)) &&
      c.constructorMethods == (if cs.members.Some? then cs.members.value.constructors else []) &&
      c.members == (if cs.members.Some? then cs.members.value.members else []) + OrEmpty(cs.exports) + OrEmpty(cs.globalExports) &&
      c.typeParameters == (if cs.members.Some? then cs.members.value.typeParameters else [])
    ensures r.Ok? ==>
      var c := r.value;
      ApplyClauses(NoHeritage, LastClauses(cs)) ==
        Ok(Heritage(c.extendsClass, c.extendsClassFile, c.implementsInterfaces, c.implementsInterfacesFiles))
  {
    var ns := CF.GetNamespace(cs.symbol);
    if ns.Err? {
      return Err(ns.error);
    }
    var moduleName := FindModule(fileName, modules);
    var last := LastDeclaration(cs);
    var isStatic := last.Some? && CF.IsModifier(last.value.decl, CF.StaticKeyword);
    var isAbstract := last.Some? && CF.IsModifier(last.value.decl, CF.AbstractKeyword);
    var constructors, members, typeParameters := [], [], [];
    if cs.members.Some? {
      constructors, members, typeParameters := cs.members.value.constructors, cs.members.value.members, cs.members.value.typeParameters;
    }
    members := members + OrEmpty(cs.exports) + OrEmpty(cs.globalExports);
    var clauses := LastClauses(cs);
    ApplyClausesLast(NoHeritage, clauses);
    var heritage := ApplyHeritage(clauses);
    if heritage.Err? {
      return Err(heritage.error);
    }
    var h := heritage.value;
    r := Ok(Class(cs.name, fileName, ns.value, moduleName, isAbstract, isStatic, constructors, members, typeParameters,
                  h.extendsClass, h.extendsClassFile, h.implementsInterfaces, h.implementsInterfacesFiles));
  }
}
