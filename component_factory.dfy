/**
 * The self-contained helpers of src/Factories/ComponentFactory.ts. The
 * TypeScript checker's symbols and syntax nodes are modelled by small
 * datatypes holding just what the helpers look at.
 */
module ComponentFactory {
  import opened Wrappers
  import opened Text
  import opened Model

  // ---------------------------------------------------------------- modifiers

  /** The syntax kind of one modifier keyword on a declaration. */
  datatype ModifierKind =
    | PrivateKeyword | PublicKeyword | ProtectedKeyword
    | AbstractKeyword | StaticKeyword | AsyncKeyword | ReadonlyKeyword | OtherKeyword

  predicate IsVisibility(k: ModifierKind)
  {
    k == PrivateKeyword || k == PublicKeyword || k == ProtectedKeyword
  }

  function VisibilityOf(k: ModifierKind): Modifier
    requires IsVisibility(k)
  {
    match k
    case PrivateKeyword => Private
    case PublicKeyword => Public
    case ProtectedKeyword => Protected
  }

  predicate NoVisibilityBefore(modifiers: seq<ModifierKind>, k: int)
  {
    forall j :: 0 <= j < k && j < |modifiers| ==> !IsVisibility(modifiers[j])
  }

  /** `getModifier`: the first visibility keyword in list order decides; `public` when there is none. */
  function GetModifier(modifiers: seq<ModifierKind>): (r: Modifier)
    ensures (forall k :: 0 <= k < |modifiers| ==> !IsVisibility(modifiers[k])) ==> r == Public
    ensures forall k :: (0 <= k < |modifiers| && IsVisibility(modifiers[k]) && NoVisibilityBefore(modifiers, k)) ==>
      r == VisibilityOf(modifiers[k])
  {
    if modifiers == [] then Public
    else if IsVisibility(modifiers[0]) then VisibilityOf(modifiers[0])
    else
      var r := GetModifier(modifiers[1..]);
      assert forall k :: 1 <= k < |modifiers| ==> modifiers[k] == modifiers[1..][k - 1];
      r
  }

  /** A member declaration as the modifier helpers see it. */
  datatype Declaration = Declaration(canHaveModifiers: bool, modifiers: Option<seq<ModifierKind>>)

  /** `getMemberModifier`: `public` unless the declaration lists its modifiers. */
  function GetMemberModifier(d: Declaration): (r: Modifier)
    ensures !d.canHaveModifiers || d.modifiers.None? ==> r == Public
    ensures d.canHaveModifiers && d.modifiers.Some? ==> r == GetModifier(d.modifiers.value)
  {
    if !d.canHaveModifiers then Public
    else if d.modifiers.None? then Public
    else GetModifier(d.modifiers.value)
  }

  /** The loop of `isModifier` over the listed modifiers. */
  function HasModifierKind(modifiers: seq<ModifierKind>, kind: ModifierKind): (r: bool)
    ensures r <==> exists k :: 0 <= k < |modifiers| && modifiers[k] == kind
  {
    if modifiers == [] then false
    else if modifiers[0] == kind then true
    else
      var r := HasModifierKind(modifiers[1..], kind);
      assert forall k :: 1 <= k < |modifiers| ==> modifiers[k] == modifiers[1..][k - 1];
      r
  }

  /** `isModifier`: true iff the declaration can carry modifiers and one of them has the kind. */
  function IsModifier(d: Declaration, kind: ModifierKind): (r: bool)
    ensures r <==> d.canHaveModifiers && d.modifiers.Some? && kind in d.modifiers.value
  {
    d.canHaveModifiers && d.modifiers.Some? && HasModifierKind(d.modifiers.value, kind)
  }

  // ---------------------------------------------------------------- module table

  predicate NotListedBefore(file: string, modules: seq<ModuleEntry>, k: int)
  {
    forall j :: 0 <= j < k && j < |modules| ==> file !in modules[j].sources
  }

  /** `getModuleName`: the module of the first entry whose sources include the file, else `""`. */
  function GetModuleName(file: string, modules: seq<ModuleEntry>): (r: string)
  {
    if modules == [] then ""
    else if file in modules[0].sources then modules[0].moduleName
    else GetModuleName(file, modules[1..])
  }

  /** The module found is that of the first entry listing the file; it is `""` when no entry lists it. */
  lemma {:induction false} GetModuleNameFirst(file: string, modules: seq<ModuleEntry>)
    ensures (forall k :: 0 <= k < |modules| ==> file !in modules[k].sources) ==> GetModuleName(file, modules) == ""
    ensures forall k :: (0 <= k < |modules| && file in modules[k].sources && NotListedBefore(file, modules, k)) ==>
      GetModuleName(file, modules) == modules[k].moduleName
  {
    if modules != [] && file !in modules[0].sources {
      GetModuleNameFirst(file, modules[1..]);
      assert forall k :: 1 <= k < |modules| ==> modules[k] == modules[1..][k - 1];
    }
  }

  // ---------------------------------------------------------------- namespaces

  /** The kind of a symbol's first declaration. */
  datatype DeclKind = ModuleDeclaration | OtherDeclaration

  /**
   * A checker symbol: its name, the kind of its first declaration
   * (`None` when `declarations` is undefined) and its parent symbol.
   */
  datatype Symbol = NoSymbol | Symbol(name: string, firstDeclaration: Option<DeclKind>, parent: Symbol)

  predicate DeclaredAsModule(s: Symbol)
  {
    s.Symbol? && s.firstDeclaration == Some(ModuleDeclaration)
  }

  /**
   * `getNamespace`. The second test in the source reads `declarations[0]` of
   * the grandparent without checking that `declarations` is defined, so a
   * grandparent without declarations throws a TypeError.
   */
  function GetNamespace(s: Symbol): Result<string>
  {
    if s.NoSymbol? then Ok("")
    else if DeclaredAsModule(s.parent) then
      var p := s.parent;
      if p.parent.Symbol? && p.parent.firstDeclaration.None? then Err("TypeError")
      else if DeclaredAsModule(p.parent) then
        match GetNamespace(p)
        case Ok(outer) => Ok(outer + "." + p.name)
        case Err(e) => Err(e)
      else Ok(p.name)
    else Ok("")
  }

  /** The names of the enclosing module declarations, innermost first. */
  function EnclosingModules(s: Symbol): seq<string>
  {
    if s.Symbol? && DeclaredAsModule(s.parent) then [s.parent.name] + EnclosingModules(s.parent) else []
  }

  /** The enclosing modules reach a parent whose declarations are undefined. */
  predicate ChainBroken(s: Symbol)
  {
    s.Symbol? && DeclaredAsModule(s.parent) &&
    ((s.parent.parent.Symbol? && s.parent.parent.firstDeclaration.None?) || ChainBroken(s.parent))
  }

  function Reverse(xs: seq<string>): (r: seq<string>)
    ensures |r| == |xs|
  {
    if xs == [] then [] else Reverse(xs[1..]) + [xs[0]]
  }

  lemma JoinSnoc(xs: seq<string>, x: string, sep: string)
    requires xs != []
    ensures Join(xs + [x], sep) == Join(xs, sep) + sep + x
  {
    if |xs| > 1 {
      assert (xs + [x])[1..] == xs[1..] + [x];
      JoinSnoc(xs[1..], x, sep);
    }
  }

  /**
   * `getNamespace` joins the enclosing module-declaration names with `.`,
   * outermost first; it is `""` for an undefined symbol or a parent that is
   * not a module declaration, and it throws exactly when the chain is broken.
   */
  lemma {:induction false} GetNamespaceJoinsEnclosingModules(s: Symbol)
    ensures GetNamespace(s).Err? <==> ChainBroken(s)
    ensures !ChainBroken(s) ==> GetNamespace(s) == Ok(Join(Reverse(EnclosingModules(s)), "."))
  {
    if s.Symbol? && DeclaredAsModule(s.parent) {
      var p := s.parent;
      GetNamespaceJoinsEnclosingModules(p);
      if DeclaredAsModule(p.parent) {
        var inner := EnclosingModules(p);
        assert inner != [];
        assert EnclosingModules(s) == [p.name] + inner;
        assert Reverse(EnclosingModules(s)) == Reverse(inner) + [p.name];
        if !ChainBroken(s) {
          JoinSnoc(Reverse(inner), p.name, ".");
        }
      } else {
        assert EnclosingModules(p) == [];
        assert Reverse(EnclosingModules(s)) == [p.name];
      }
    }
  }

  /** A syntax node as `getNamespaceFromSourceCode` walks it. */
  datatype SourceNode = SourceNode(exportedModule: bool, name: string, children: seq<SourceNode>)

  /**
   * `getNamespaceFromSourceCode`: each exported module declaration among the
   * children overwrites the result with its name, followed by its own nested
   * namespace; the last such child wins.
   */
  function NamespaceFromSource(node: SourceNode): string
    decreases node, 1
  {
    NamespaceFromChildren(node.children)
  }

  function NamespaceFromChildren(cs: seq<SourceNode>): string
    decreases cs, 0
  {
    if cs == [] then ""
    else
      var last := cs[|cs| - 1];
      if last.exportedModule then
        var next := NamespaceFromSource(last);
        last.name + (if next != "" then "." + next else "")
      else NamespaceFromChildren(cs[..|cs| - 1])
  }

  /** The names along the last exported module declaration at each level. */
  function LastModulePath(cs: seq<SourceNode>): seq<string>
    decreases cs
  {
    if cs == [] then []
    else if cs[|cs| - 1].exportedModule then [cs[|cs| - 1].name] + LastModulePath(cs[|cs| - 1].children)
    else LastModulePath(cs[..|cs| - 1])
  }

  predicate NamedModules(cs: seq<SourceNode>)
    decreases cs
  {
    forall k :: 0 <= k < |cs| ==> cs[k].name != "" && NamedModules(cs[k].children)
  }

  lemma JoinCons(x: string, xs: seq<string>, sep: string)
    requires xs != []
    ensures Join([x] + xs, sep) == x + sep + Join(xs, sep)
  {
    assert ([x] + xs)[1..] == xs;
  }

  lemma JoinNonEmpty(xs: seq<string>, sep: string)
    requires xs != [] && xs[0] != ""
    ensures Join(xs, sep) != ""
  {
  }

  /** The namespace read from source text is the dotted path of last exported module declarations. */
  lemma {:induction false} NamespaceFromSourceIsLastPath(cs: seq<SourceNode>)
    requires NamedModules(cs)
    ensures NamespaceFromChildren(cs) == Join(LastModulePath(cs), ".")
    decreases cs
  {
    if cs != [] {
      var last := cs[|cs| - 1];
      if last.exportedModule {
        NamespaceFromSourceIsLastPath(last.children);
        var rest := LastModulePath(last.children);
        if rest != [] {
          assert rest[0] != "" by {
            NonEmptyHead(last.children);
          }
          JoinNonEmpty(rest, ".");
          JoinCons(last.name, rest, ".");
        }
      } else {
        NamespaceFromSourceIsLastPath(cs[..|cs| - 1]);
      }
    }
  }

  lemma {:induction false} NonEmptyHead(cs: seq<SourceNode>)
    requires NamedModules(cs) && LastModulePath(cs) != []
    ensures LastModulePath(cs)[0] != ""
    decreases cs
  {
    if !cs[|cs| - 1].exportedModule {
      NonEmptyHead(cs[..|cs| - 1]);
    }
  }

  // ---------------------------------------------------------------- dotted names

  /**
   * A qualified-name node (`left`/`right` children); `text` is its
   * `escapedText`, `""` when that is undefined or empty.
   */
  datatype QualifiedNode = NoNode | QualifiedNode(text: string, left: QualifiedNode, right: QualifiedNode)

  /** Appends `t` to `acc` with a dot between them unless `acc` is empty. */
  function AppendDotted(acc: string, t: string): string
  {
    acc + (if acc != "" then "." else "") + t
  }

  /** `getLeftRightRecursiveToStringAsNamespace(ref, acum)`: the left child is visited, then the right one. */
  function LeftRightToString(ref: QualifiedNode, acc: string): string
    decreases ref, 0
  {
    if ref.NoNode? then acc else VisitChild(ref.right, VisitChild(ref.left, acc))
  }

  /** One child: its text is appended when it has one, then its own children are visited. */
  function VisitChild(child: QualifiedNode, acc: string): string
    decreases child, 1
  {
    if child.NoNode? then acc
    else LeftRightToString(child, if child.text != "" then AppendDotted(acc, child.text) else acc)
  }

  /** The non-empty identifiers of a subtree, in pre-order with left before right. */
  function Identifiers(n: QualifiedNode): seq<string>
  {
    if n.NoNode? then []
    else (if n.text != "" then [n.text] else []) + Identifiers(n.left) + Identifiers(n.right)
  }

  /** Appending identifiers one by one. */
  function AppendAll(acc: string, ts: seq<string>): string
    decreases |ts|
  {
    if ts == [] then acc else AppendAll(AppendDotted(acc, ts[0]), ts[1..])
  }

  lemma {:induction false} AppendAllConcat(acc: string, xs: seq<string>, ys: seq<string>)
    ensures AppendAll(AppendAll(acc, xs), ys) == AppendAll(acc, xs + ys)
    decreases |xs|
  {
    if xs == [] {
      assert xs + ys == ys;
    } else {
      assert (xs + ys)[0] == xs[0];
      assert (xs + ys)[1..] == xs[1..] + ys;
      AppendAllConcat(AppendDotted(acc, xs[0]), xs[1..], ys);
    }
  }

  lemma {:induction false} AppendAllJoin(acc: string, ts: seq<string>)
    requires acc != ""
    requires forall k :: 0 <= k < |ts| ==> ts[k] != ""
    ensures AppendAll(acc, ts) == Join([acc] + ts, ".")
    decreases |ts|
  {
    if ts != [] {
      AppendAllJoin(AppendDotted(acc, ts[0]), ts[1..]);
      var rest := ts[1..];
      assert [acc + "." + ts[0]] + rest == [acc + "." + ts[0]] + ts[1..];
      JoinCons(acc, ts, ".");
      if rest == [] {
        assert Join(ts, ".") == ts[0];
      } else {
        JoinCons(ts[0], rest, ".");
        JoinCons(acc + "." + ts[0], rest, ".");
        assert ts == [ts[0]] + rest;
      }
    }
  }

  lemma {:induction false} LeftRightAppends(ref: QualifiedNode, acc: string)
    requires ref.QualifiedNode?
    ensures LeftRightToString(ref, acc) == AppendAll(acc, Identifiers(ref.left) + Identifiers(ref.right))
    decreases ref, 0
  {
    VisitAppends(ref.left, acc);
    VisitAppends(ref.right, AppendAll(acc, Identifiers(ref.left)));
    AppendAllConcat(acc, Identifiers(ref.left), Identifiers(ref.right));
  }

  lemma {:induction false} VisitAppends(child: QualifiedNode, acc: string)
    ensures VisitChild(child, acc) == AppendAll(acc, Identifiers(child))
    decreases child, 1
  {
    if child.QualifiedNode? {
      var own := if child.text != "" then [child.text] else [];
      var pre := if child.text != "" then AppendDotted(acc, child.text) else acc;
      var below := Identifiers(child.left) + Identifiers(child.right);
      assert pre == AppendAll(acc, own) by {
        if child.text != "" { assert own[1..] == []; }
      }
      assert VisitChild(child, acc) == LeftRightToString(child, pre);
      LeftRightAppends(child, pre);
      AppendAllConcat(acc, own, below);
      assert Identifiers(child) == own + below by {
        AppendAssoc(own, Identifiers(child.left), Identifiers(child.right));
      }
    }
  }

  lemma {:induction false} IdentifiersNonEmpty(n: QualifiedNode)
    ensures forall k :: 0 <= k < |Identifiers(n)| ==> Identifiers(n)[k] != ""
    decreases n
  {
    if n.QualifiedNode? {
      IdentifiersNonEmpty(n.left);
      IdentifiersNonEmpty(n.right);
    }
  }

  /**
   * Rendered from an empty accumulator, a qualified-name tree gives the
   * identifiers below its root, left before right, joined by single dots,
   * with no leading dot; the root's own text is not part of it.
   */
  lemma QualifiedNameRendering(ref: QualifiedNode)
    requires ref.QualifiedNode?
    ensures LeftRightToString(ref, "") == Join(Identifiers(ref.left) + Identifiers(ref.right), ".")
  {
    var ids := Identifiers(ref.left) + Identifiers(ref.right);
    LeftRightAppends(ref, "");
    IdentifiersNonEmpty(ref.left);
    IdentifiersNonEmpty(ref.right);
    assert forall k :: 0 <= k < |ids| ==> ids[k] != "" by {
      forall k | 0 <= k < |ids| ensures ids[k] != "" {
        if k < |Identifiers(ref.left)| { assert ids[k] == Identifiers(ref.left)[k]; }
        else { assert ids[k] == Identifiers(ref.right)[k - |Identifiers(ref.left)|]; }
      }
    }
    if ids != [] {
      assert AppendDotted("", ids[0]) == ids[0];
      assert AppendAll("", ids) == AppendAll(ids[0], ids[1..]);
      AppendAllJoin(ids[0], ids[1..]);
      assert [ids[0]] + ids[1..] == ids;
    }
  }

  /**
   * A property-access expression: `Access` has a receiver (`expression`).
   * `name` is the escaped text of its `name` child when it has one, `text`
   * its own escaped text.
   */
  datatype Expression =
    | Identifier(name: Option<string>, text: string)
    | Access(receiver: Expression, name: Option<string>, text: string)
  {
    /** The label the expression contributes: its name's text, else its own. */
    function Label(): string
    {
      if name.Some? then name.value else text
    }
  }

  /** `getRecursiveExpression`. */
  function RecursiveExpression(e: Expression): string
  {
    match e
    case Identifier(_, _) => e.Label()
    case Access(r, _, _) => RecursiveExpression(r) + "." + e.Label()
  }

  /** The labels of an access chain, innermost receiver first. */
  function Labels(e: Expression): (r: seq<string>)
    ensures r != []
  {
    match e
    case Identifier(_, _) => [e.Label()]
    case Access(r, _, _) => Labels(r) + [e.Label()]
  }

  /** A property-access chain renders as its labels joined by dots, innermost receiver first. */
  lemma {:induction false} RecursiveExpressionIsDotted(e: Expression)
    ensures RecursiveExpression(e) == Join(Labels(e), ".")
  {
    if e.Access? {
      RecursiveExpressionIsDotted(e.receiver);
      JoinSnoc(Labels(e.receiver), e.Label(), ".");
    }
  }

  // ---------------------------------------------------------------- heritage clauses

  /**
   * `replace(/"[^"]+"\./, "")`: the leftmost quoted module prefix (a quote,
   * at least one non-quote character, a quote, a dot) is removed once.
   */
  function StripQuotedPrefix(s: string): (r: string)
    ensures |r| <= |s|
  {
    match FindQuotedPrefix(s, 0)
    case None => s
    case Some(ij) => s[..ij.0] + s[ij.1..]
  }

  /** The index after the first quote at or after `j`, or `None`. */
  function NextQuote(s: string, j: nat): (r: Option<nat>)
    requires j <= |s|
    ensures r.Some? ==> j <= r.value < |s| && s[r.value] == '"'
    ensures r.Some? ==> forall k :: j <= k < r.value ==> s[k] != '"'
    ensures r.None? ==> forall k :: j <= k < |s| ==> s[k] != '"'
    decreases |s| - j
  {
    if j == |s| then None else if s[j] == '"' then Some(j) else NextQuote(s, j + 1)
  }

  /** The first match `s[i..j]` of the pattern starting at or after `from`. */
  function FindQuotedPrefix(s: string, from: nat): (r: Option<(nat, nat)>)
    requires from <= |s|
    ensures r.Some? ==> from <= r.value.0 < r.value.1 <= |s|
    decreases |s| - from
  {
    if from == |s| then None
    else if s[from] == '"' then
      match NextQuote(s, from + 1)
      case Some(close) =>
        if close > from + 1 && close + 1 < |s| && s[close + 1] == '.' then Some((from, close + 2))
        else FindQuotedPrefix(s, from + 1)
      case None => None
    else FindQuotedPrefix(s, from + 1)
  }

  /** A name that starts with a quoted module prefix loses exactly that prefix. */
  lemma QuotedPrefixRemoved(m: string, rest: string)
    requires m != [] && '"' !in m
    ensures StripQuotedPrefix("\"" + m + "\"." + rest) == rest
  {
    var s := "\"" + m + "\"." + rest;
    assert s[0] == '"';
    assert forall k :: 1 <= k < 1 + |m| ==> s[k] == m[k - 1];
    assert s[1 + |m|] == '"';
    assert NextQuote(s, 1) == Some(1 + |m|) by {
      NextQuoteSkips(s, 1, 1 + |m|);
    }
    assert s[|m| + 3..] == rest;
  }

  lemma {:induction false} NextQuoteSkips(s: string, j: nat, q: nat)
    requires j <= q < |s| && s[q] == '"'
    requires forall k :: j <= k < q ==> s[k] != '"'
    ensures NextQuote(s, j) == Some(q)
    decreases q - j
  {
    if j < q { NextQuoteSkips(s, j + 1, q); }
  }

  /** A name without quotes is left as it is. */
  lemma {:induction false} NoQuoteUnchanged(s: string, from: nat)
    requires from <= |s|
    requires forall k :: from <= k < |s| ==> s[k] != '"'
    ensures FindQuotedPrefix(s, from) == None
    decreases |s| - from
  {
    if from < |s| { NoQuoteUnchanged(s, from + 1); }
  }

  /**
   * One type of a heritage clause, as the checker resolves it: a resolved
   * symbol carries both its de-aliased name (`getOriginalName`) and its
   * fully qualified name (`checker.getFullyQualifiedName`), since the two
   * factories name it differently.
   */
  datatype HeritageType =
    | Resolved(originalName: string, qualifiedName: string, originalFile: string)
    | Unresolved(expression: Expression)

  /** The `types.map` of a `getHeritageClauseNames`: one pair per heritage type, in clause order. */
  function NamePairs(name: HeritageType -> (string, string), types: seq<HeritageType>): (r: seq<(string, string)>)
    ensures |r| == |types|
    ensures forall k :: 0 <= k < |types| ==> r[k] == name(types[k])
  {
    if types == [] then [] else [name(types[0])] + NamePairs(name, types[1..])
  }

  /** `getHeritageClauseNames`: one `[name, file]` pair per heritage type, in clause order. */
  function HeritageClauseNames(types: seq<HeritageType>): (r: seq<(string, string)>)
    ensures |r| == |types|
    ensures forall k :: 0 <= k < |types| ==> r[k] == HeritageName(types[k])
  {
    NamePairs(HeritageName, types)
  }

  function HeritageName(t: HeritageType): (r: (string, string))
    ensures t.Resolved? ==> r == (StripQuotedPrefix(t.originalName), t.originalFile)
    ensures t.Unresolved? && t.expression.name.Some? ==> r == (Join(Labels(t.expression), "."), "")
    ensures t.Unresolved? && t.expression.name.None? ==> r == ("", "")
  {
    match t
    case Resolved(n, _, f) => (StripQuotedPrefix(n), f)
    case Unresolved(e) =>
      if e.name.Some? then
        RecursiveExpressionIsDotted(e);
        (RecursiveExpression(e), "")
      else ("", "")
  }

  // ---------------------------------------------------------------- member selection

  /** The syntax kind of one member declaration. */
  datatype MemberDeclKind =
    | MethodDeclaration | MethodSignature
    | PropertySignature | PropertyDeclaration | GetAccessor | SetAccessor | ParameterDeclaration
    | ConstructorDeclaration | TypeParameterDeclaration | OtherMember

  predicate IsMethodKind(k: MemberDeclKind)
  {
    k == MethodDeclaration || k == MethodSignature
  }

  predicate IsPropertyKind(k: MemberDeclKind)
  {
    k == PropertySignature || k == PropertyDeclaration || k == GetAccessor || k == SetAccessor || k == ParameterDeclaration
  }

  /** A member symbol: its name and its declarations (`None` when undefined). */
  datatype MemberSymbol = MemberSymbol(name: string, declarations: Option<seq<MemberDeclKind>>)

  /** Which factory `serializeMethods` calls, for which symbol and declaration. */
  datatype Pick = BuildMethod(symbol: string, decl: MemberDeclKind) | BuildProperty(symbol: string, decl: MemberDeclKind)

  /** `serializeMethods`: the factory calls, in symbol then declaration order. */
  function SerializeMethods(symbols: seq<MemberSymbol>, skipMethods: bool, onlyAssociations: bool): seq<Pick>
  {
    if skipMethods || symbols == [] then []
    else
      var s := symbols[0];
      (if s.declarations.None? then [] else PicksOf(s.name, s.declarations.value, onlyAssociations))
      + SerializeMethods(symbols[1..], skipMethods, onlyAssociations)
  }

  function PicksOf(name: string, decls: seq<MemberDeclKind>, onlyAssociations: bool): seq<Pick>
  {
    if decls == [] then []
    else
      var d := decls[0];
      (if IsMethodKind(d) && !onlyAssociations then [BuildMethod(name, d)]
       else if IsPropertyKind(d) then [BuildProperty(name, d)]
       else [])
      + PicksOf(name, decls[1..], onlyAssociations)
  }

  /** The declarations of all symbols, in order. */
  function AllDecls(symbols: seq<MemberSymbol>): seq<(string, MemberDeclKind)>
  {
    if symbols == [] then []
    else
      (if symbols[0].declarations.None? then [] else Tag(symbols[0].name, symbols[0].declarations.value))
      + AllDecls(symbols[1..])
  }

  function Tag(name: string, decls: seq<MemberDeclKind>): (r: seq<(string, MemberDeclKind)>)
    ensures |r| == |decls| && forall k :: 0 <= k < |decls| ==> r[k] == (name, decls[k])
  {
    if decls == [] then [] else [(name, decls[0])] + Tag(name, decls[1..])
  }

  /** The pick a single declaration gives, if any. */
  function PickFor(d: (string, MemberDeclKind), onlyAssociations: bool): seq<Pick>
  {
    if IsMethodKind(d.1) && !onlyAssociations then [BuildMethod(d.0, d.1)]
    else if IsPropertyKind(d.1) then [BuildProperty(d.0, d.1)]
    else []
  }

  /** Mapping `PickFor` over a declaration list, in order. */
  function PicksInOrder(ds: seq<(string, MemberDeclKind)>, onlyAssociations: bool): seq<Pick>
  {
    if ds == [] then [] else PickFor(ds[0], onlyAssociations) + PicksInOrder(ds[1..], onlyAssociations)
  }

  lemma {:induction false} PicksInOrderConcat(a: seq<(string, MemberDeclKind)>, b: seq<(string, MemberDeclKind)>, oa: bool)
    ensures PicksInOrder(a + b, oa) == PicksInOrder(a, oa) + PicksInOrder(b, oa)
  {
    if a == [] {
      assert a + b == b;
    } else {
      assert (a + b)[0] == a[0];
      assert (a + b)[1..] == a[1..] + b;
      PicksInOrderConcat(a[1..], b, oa);
    }
  }

  lemma {:induction false} PicksOfInOrder(name: string, decls: seq<MemberDeclKind>, oa: bool)
    ensures PicksOf(name, decls, oa) == PicksInOrder(Tag(name, decls), oa)
  {
    if decls != [] {
      assert Tag(name, decls)[1..] == Tag(name, decls[1..]);
      PicksOfInOrder(name, decls[1..], oa);
    }
  }

  /**
   * Without `skipMethods`, `serializeMethods` visits every declaration in
   * order: a method declaration builds a Method unless `onlyAssociations`
   * is set, a property-like declaration always builds a Property, and
   * anything else builds nothing. With `skipMethods` it builds nothing.
   */
  lemma {:induction false} SerializeMethodsSelection(symbols: seq<MemberSymbol>, skip: bool, oa: bool)
    ensures skip ==> SerializeMethods(symbols, skip, oa) == []
    ensures !skip ==> SerializeMethods(symbols, skip, oa) == PicksInOrder(AllDecls(symbols), oa)
  {
    if !skip && symbols != [] {
      SerializeMethodsSelection(symbols[1..], skip, oa);
      if symbols[0].declarations.Some? {
        PicksOfInOrder(symbols[0].name, symbols[0].declarations.value, oa);
      }
      PicksInOrderConcat(
        if symbols[0].declarations.None? then [] else Tag(symbols[0].name, symbols[0].declarations.value),
        AllDecls(symbols[1..]), oa);
    }
  }

  /** Under `onlyAssociations` no Method is built. */
  lemma {:induction false} OnlyAssociationsKeepsProperties(ds: seq<(string, MemberDeclKind)>)
    ensures forall p :: p in PicksInOrder(ds, true) ==> p.BuildProperty?
  {
    if ds != [] { OnlyAssociationsKeepsProperties(ds[1..]); }
  }
}
