/**
 * `create` of src/Factories/PropertyFactory.ts, and the qualification of a
 * type name by the file's imports that it shares with the method factory.
 * The checker's answers (the rendered type, the imports of the source
 * file) are inputs.
 */
module PropertyFactory {
  import opened Wrappers
  import opened Text
  import opened Model
  import CF = ComponentFactory

  // ---------------------------------------------------------------- qualification by imports

  /** `"." + name.replaceAll(/\[\]/gi, "")`: the suffix an import must end with to qualify `name`. */
  function ImportSuffix(name: string): string
  {
    "." + StripArrays(name)
  }

  /** `importedNamespaces.filter(value => value.endsWith(ImportSuffix(name)))`. */
  function Matching(imports: seq<string>, name: string): (r: seq<string>)
    ensures |r| <= |imports|
  {
    if imports == [] then []
    else (if EndsWith(imports[0], ImportSuffix(name)) then [imports[0]] else []) + Matching(imports[1..], name)
  }

  /** The filter keeps exactly the imports with the suffix. */
  lemma {:induction false} MatchingMembers(imports: seq<string>, name: string)
    ensures forall v :: v in Matching(imports, name) <==> v in imports && EndsWith(v, ImportSuffix(name))
  {
    if imports != [] {
      MatchingMembers(imports[1..], name);
      assert imports == [imports[0]] + imports[1..];
    }
  }

  /** The first entry of the filter is the first import, in import order, with the suffix. */
  lemma {:induction false} MatchingFirst(imports: seq<string>, name: string)
    requires Matching(imports, name) != []
    ensures exists k ::
      0 <= k < |imports| && imports[k] == Matching(imports, name)[0] &&
      EndsWith(imports[k], ImportSuffix(name)) &&
      forall j :: 0 <= j < k ==> !EndsWith(imports[j], ImportSuffix(name))
  {
    if !EndsWith(imports[0], ImportSuffix(name)) {
      MatchingFirst(imports[1..], name);
      var k :| 0 <= k < |imports[1..]| && imports[1..][k] == Matching(imports[1..], name)[0] &&
        EndsWith(imports[1..][k], ImportSuffix(name)) &&
        forall j :: 0 <= j < k ==> !EndsWith(imports[1..][j], ImportSuffix(name));
      assert imports[k + 1] == Matching(imports, name)[0];
      forall j | 0 <= j < k + 1 ensures !EndsWith(imports[j], ImportSuffix(name)) {
        if j > 0 { assert imports[j] == imports[1..][j - 1]; }
      }
    }
  }

  /**
   * The qualification both factories apply first: the first matching
   * import, with `[]` appended when the name ends with `[]`; `None` when no
   * import matches.
   */
  function ImportQualified(imports: seq<string>, name: string): (r: Option<string>)
  {
    var matching := Matching(imports, name);
    if matching == [] then None
    else Some(if EndsWith(name, "[]") then matching[0] + "[]" else matching[0])
  }

  /** A name is left unqualified exactly when no import has its suffix. */
  lemma ImportQualifiedNone(imports: seq<string>, name: string)
    ensures ImportQualified(imports, name).None? <==> forall v :: v in imports ==> !EndsWith(v, ImportSuffix(name))
  {
    MatchingMembers(imports, name);
    var matching := Matching(imports, name);
    if matching != [] {
      assert matching[0] in matching;
    }
  }

  /**
   * A qualified name is the first import in import order that matches,
   * and it carries an array marker exactly when the name does.
   */
  lemma ImportQualifiedFirst(imports: seq<string>, name: string)
    requires ImportQualified(imports, name).Some?
    ensures exists k ::
      0 <= k < |imports| && EndsWith(imports[k], ImportSuffix(name)) &&
      (forall j :: 0 <= j < k ==> !EndsWith(imports[j], ImportSuffix(name))) &&
      ImportQualified(imports, name).value == (if EndsWith(name, "[]") then imports[k] + "[]" else imports[k])
  {
    MatchingFirst(imports, name);
  }

  /** An array name and its element name are qualified by the same import. */
  lemma ArrayQualifiedLikeElement(imports: seq<string>, name: string)
    requires ImportQualified(imports, name).Some? && !EndsWith(name, "[]")
    ensures ImportQualified(imports, name + "[]") == Some(ImportQualified(imports, name).value + "[]")
  {
    StripArraysSuffix(name);
    assert ImportSuffix(name + "[]") == ImportSuffix(name);
    MatchingSameSuffix(imports, name, name + "[]");
    assert EndsWith(name + "[]", "[]") by {
      assert (name + "[]")[|name + "[]"| - 2..] == "[]";
    }
  }

  lemma {:induction false} MatchingSameSuffix(imports: seq<string>, a: string, b: string)
    requires ImportSuffix(a) == ImportSuffix(b)
    ensures Matching(imports, a) == Matching(imports, b)
  {
    if imports != [] {
      MatchingSameSuffix(imports[1..], a, b);
    }
  }

  // ---------------------------------------------------------------- create

  /** What `create` reads of a property symbol, with the checker's answers. */
  datatype PropertySymbol = PropertySymbol(
    name: string,
    /** `signature.valueDeclaration !== undefined`. */
    hasValueDeclaration: bool,
    /** The symbol `getNamespace` is called on; its result is discarded. */
    symbol: CF.Symbol,
    /** The imports of the symbol's source file; `None` when `getSourceCode` finds none. */
    source: Option<seq<string>>,
    /** `checker.typeToString` of the symbol's type at its declaration. */
    typeText: string)

  /**
   * `PropertyFactory.create`. It throws when the symbol has no value
   * declaration, when `getNamespace` throws, and when there is no source
   * file, since `getImports` reads `statements` of it.
   */
  function Create(p: PropertySymbol, decl: CF.Declaration, questionToken: bool): (r: Result<Property>)
    ensures !p.hasValueDeclaration ==> r == Err("unable to determing returnType")
    ensures r.Ok? <==> p.hasValueDeclaration && CF.GetNamespace(p.symbol).Ok? && p.source.Some?
    ensures r.Ok? ==>
      var q := r.value;
      q.name == p.name && q.modifier == CF.GetMemberModifier(decl) &&
      (q.isAbstract <==> decl.canHaveModifiers && decl.modifiers.Some? && CF.AbstractKeyword in decl.modifiers.value) &&
      (q.isStatic <==> decl.canHaveModifiers && decl.modifiers.Some? && CF.StaticKeyword in decl.modifiers.value) &&
      (q.isReadonly <==> decl.canHaveModifiers && decl.modifiers.Some? && CF.ReadonlyKeyword in decl.modifiers.value) &&
      q.isOptional == questionToken &&
      q.returnType == [p.typeText] && q.returnTypeModuleName == [] &&
      q.returnTypeFullName == [Some(ImportQualified(p.source.value, p.typeText).GetOr(p.typeText))]
  {
    var modifier := CF.GetMemberModifier(decl);
    var isAbstract := CF.IsModifier(decl, CF.AbstractKeyword);
    var isStatic := CF.IsModifier(decl, CF.StaticKeyword);
    var isReadonly := CF.IsModifier(decl, CF.ReadonlyKeyword);
    if !p.hasValueDeclaration then Err("unable to determing returnType")
    else if CF.GetNamespace(p.symbol).Err? then Err(CF.GetNamespace(p.symbol).error)
    else if p.source.None? then Err("TypeError")
    else
      var fullName := ImportQualified(p.source.value, p.typeText).GetOr(p.typeText);
      Ok(Property(p.name, modifier, isAbstract, isStatic, isReadonly, questionToken,
                  [p.typeText], [Some(fullName)], []))
  }
}
