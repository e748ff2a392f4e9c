/**
 * The component tree that the factories build and the formatter renders
 * (the files under src/Components), and the command options the core reads.
 * Optional string fields that the source only tests for truthiness are
 * modelled as `string`, with `""` standing for `undefined`; fields whose
 * `undefined` is told apart from `""` are `Option`s.
 */
module Model {
  import opened Wrappers

  /** Member visibility (src/Models/Modifier.ts). */
  datatype Modifier = Public | Private | Protected

  /**
   * A JavaScript array filled at computed indices: `None` is a hole
   * (reads as `undefined`), `Some(s)` a written slot.
   */
  type Slots = seq<Option<string>>

  /** `arr[i]`, which is `undefined` outside the array. */
  function At(s: Slots, i: nat): Option<string>
  {
    if i < |s| then s[i] else None
  }

  /** A slot that JavaScript treats as true: defined and non-empty. */
  predicate Truthy(o: Option<string>)
  {
    o.Some? && o.value != ""
  }

  /** `arr[k] = v` on a JavaScript array: writing past the end pads with holes. */
  function Put(s: Slots, k: nat, v: string): (r: Slots)
    ensures |r| == if k < |s| then |s| else k + 1
    ensures r[k] == Some(v)
    ensures forall j :: 0 <= j < |s| && j != k ==> r[j] == s[j]
    ensures forall j :: |s| <= j < |r| && j != k ==> r[j] == None
  {
    if k < |s| then s[k := Some(v)] else s + seq(k - |s|, _ => None) + [Some(v)]
  }

  datatype TypeParameter = TypeParameter(name: string, constraint: Option<string>)

  datatype Parameter = Parameter(
    name: string,
    hasInitializer: bool,
    isOptional: bool,
    parameterType: string)

  datatype Method = Method(
    name: string,
    modifier: Modifier,
    isAbstract: bool,
    isAsync: bool,
    isOptional: bool,
    isStatic: bool,
    parameters: seq<Parameter>,
    typeParameters: seq<TypeParameter>,
    returnType: seq<string>,
    returnTypeFullName: Slots,
    returnTypeModuleName: Slots,
    methodTypeFile: Slots)

  datatype Property = Property(
    name: string,
    modifier: Modifier,
    isAbstract: bool,
    isStatic: bool,
    isReadonly: bool,
    isOptional: bool,
    returnType: seq<string>,
    returnTypeFullName: Slots,
    returnTypeModuleName: Slots)

  /** What `serializeMethods` puts in a class's or interface's `members`. */
  datatype Member = MethodMember(m: Method) | PropertyMember(p: Property)
  {
    function Name(): string
    {
      match this
      case MethodMember(m) => m.name
      case PropertyMember(p) => p.name
    }

    function ReturnType(): seq<string>
    {
      match this
      case MethodMember(m) => m.returnType
      case PropertyMember(p) => p.returnType
    }

    function FullNames(): Slots
    {
      match this
      case MethodMember(m) => m.returnTypeFullName
      case PropertyMember(p) => p.returnTypeFullName
    }

    function ModuleNames(): Slots
    {
      match this
      case MethodMember(m) => m.returnTypeModuleName
      case PropertyMember(p) => p.returnTypeModuleName
    }
  }

  datatype EnumValue = EnumValue(name: string)

  /**
   * An AngularJS component placed at `componentPath` in a template tree;
   * `name` is the component's tag.
   */
  datatype ComponentInstance = ComponentInstance(
    name: string,
    moduleName: string,
    componentPath: string,
    parts: seq<ComponentInstance>)

  datatype Component =
    | File(name: string, parts: seq<Component>)
    | Namespace(name: string, moduleName: string, isTopNamespace: bool, parts: seq<Component>)
    | Class(
        name: string,
        fileName: string,
        namespace: string,
        moduleName: string,
        isAbstract: bool,
        isStatic: bool,
        constructorMethods: seq<Method>,
        members: seq<Member>,
        typeParameters: seq<TypeParameter>,
        extendsClass: Option<string>,
        extendsClassFile: Option<string>,
        implementsInterfaces: seq<string>,
        implementsInterfacesFiles: seq<string>)
    | Interface(
        name: string,
        namespace: string,
        moduleName: string,
        members: seq<Member>,
        typeParameters: seq<TypeParameter>,
        extendsInterface: seq<string>,
        extendsInterfaceFiles: seq<string>)
    | Enum(name: string, namespace: string, moduleName: string, values: seq<EnumValue>)
    | Instance(instance: ComponentInstance)
  {
    /** The component's `name` field. */
    function Name(): string
    {
      if Instance? then instance.name else name
    }

    /** `moduleName`, with `""` for components that have none. */
    function ModuleOf(): string
    {
      match this
      case File(_, _) => ""
      case Instance(i) => i.moduleName
      case _ => moduleName
    }

    /** `namespace`, with `""` for components that have none. */
    function NamespaceOf(): string
    {
      if Class? || Interface? || Enum? then namespace else ""
    }

    /** A class, interface or enum: the entities that have a full name. */
    predicate IsEntity()
    {
      Class? || Interface? || Enum?
    }
  }

  /** `new Class(name, fileName)`: the fields of src/Components/Class.d.ts with empty lists, no heritage and both flags false. */
  function NewClass(name: string, fileName: string, namespace: string): (c: Component)
    ensures c.Class? && c.Name() == name && c.NamespaceOf() == namespace && c.ModuleOf() == ""
    ensures c.members == [] && c.typeParameters == [] && c.implementsInterfaces == [] && c.extendsClass == None
  {
    Class(name, fileName, namespace, "", false, false, [], [], [], None, None, [], [])
  }

  /**
   * The full name of an entity: `name`, prefixed by `namespace.` when the
   * namespace is non-empty, then by `moduleName.` when the module is non-empty.
   */
  function QualifiedName(moduleName: string, namespace: string, name: string): (r: string)
    ensures namespace == "" && moduleName == "" ==> r == name
    ensures namespace != "" && moduleName == "" ==> r == namespace + "." + name
    ensures namespace == "" && moduleName != "" ==> r == moduleName + "." + name
    ensures namespace != "" && moduleName != "" ==> r == moduleName + "." + namespace + "." + name
  {
    var namespaced := if namespace == "" then name else namespace + "." + name;
    if moduleName == "" then namespaced else moduleName + "." + namespaced
  }

  function FullName(c: Component): string
  {
    QualifiedName(c.ModuleOf(), c.NamespaceOf(), c.Name())
  }

  /**
   * The classes, interfaces and enums of a tree in pre-order, descending
   * through files and namespaces only: the components that the entity
   * registry is filled from.
   */
  function DeclaredIn(c: Component): (r: seq<Component>)
    ensures forall x :: x in r ==> x.IsEntity()
    ensures c.IsEntity() ==> r == [c]
    ensures c.Instance? ==> r == []
    decreases c, 1
  {
    match c
    case File(_, parts) => DeclaredEntities(parts)
    case Namespace(_, _, _, parts) => DeclaredEntities(parts)
    case Instance(_) => []
    case _ => [c]
  }

  function DeclaredEntities(cs: seq<Component>): (r: seq<Component>)
    ensures forall x :: x in r ==> x.IsEntity()
    ensures forall k :: 0 <= k < |cs| && cs[k].IsEntity() ==> cs[k] in r
    decreases cs, 0
  {
    if cs == [] then [] else DeclaredIn(cs[0]) + DeclaredEntities(cs[1..])
  }

  /** One entry of the configured module table: a module name and its source files. */
  datatype ModuleEntry = ModuleEntry(moduleName: string, sources: seq<string>)

  /** The command options the core reads (src/Models/ICommandOptions.ts and the CLI extras). */
  datatype Options = Options(
    associations: bool,
    onlyInterfaces: bool,
    onlyClasses: bool,
    onlyAssociations: bool,
    skipMethods: bool,
    targetClass: Option<string>,
    customization: Option<string>,
    angularJSComponents: seq<string>,
    /** `angularJSComponentsPathRegexp`, abstracted as the predicate "the regexp matches". */
    pathPattern: Option<string -> bool>,
    modules: seq<ModuleEntry>)

  /** The path regexp is configured and matches `s`. */
  predicate Matches(pattern: Option<string -> bool>, s: string)
  {
    pattern.Some? && pattern.value(s)
  }
}
