# tplant in Dafny

tplant turns TypeScript declarations into a PlantUML class diagram. The
TypeScript checker resolves the program into a small composite tree of
files, namespaces, classes, interfaces, enums and (for AngularJS projects)
component instances. tplant optionally cuts that tree down to one target
class and its relatives. It then prints every node in PlantUML syntax and
infers association edges from the type slots of methods and properties.
Type names that are referenced but never declared are drawn as stub
classes.

This project models that core as Dafny datatypes, functions and methods,
and proves what the code promises about it. Each module follows one source
file:

- `Model` (model.dfy): the component tree of src/Components, the command
  options, the full-name rule, and the declared-entity lookup.
- `Text` (text.dfy): the string operations the source relies on, such as
  `indexOf`, `lastIndexOf`, `split`, `join`, `replaceAll` and lower-casing.
- `ComponentFactory`, `MethodFactory`, `PropertyFactory`, `ClassFactory`
  and `AngularFactory`: the checker-independent rules of the factories in
  src/Factories. These cover modifiers, module lookup, namespace and
  heritage names, member filtering, type-slot construction and
  qualification, component tags, and the instance recursion guard. Checker
  answers arrive as input datatypes.
- `PlantUml` (plantuml.dfy): the line formats of src/Formatter/PlantUMLFormat.ts
  and its placeholder map for anonymous types.
- `Associations` (associations.dfy): the pure half of src/Models/Formatter.ts.
  This covers `isComplexType`, the associative-part flattening, the candidate
  edges `createAssociations` builds (cardinality, ends, dedup key, filters),
  and `findMissingAssociationTypesDefinitions`.
- `Formatter` (formatter.dfy): the stateful half of src/Models/Formatter.ts.
  It is a class holding the four registries, with the registry
  initialization, `getMappedTypes`, `createAssociations` and `renderFiles`.
  The missing-type loop is proved to terminate.
- `TPlant` and `Convert` (tplant.dfy, convert.dfy): the target-class
  subset and the filters of `convertToPlant` in src/tplant.ts.
  - `findClass` is a depth-first search.
  - `getInterfaces`, `getImplements` and `findChildClass` return paths,
    which stand for the source's object references.
  - The ancestor loop is modelled exactly as written, including its mixed
    `for`/`shift` queue.
- `Wrappers` (wrappers.dfy): `Option` and `Result`.

Where the code differs from its description, the model follows the code.

- The parameter loop of `createAssociations` returns before it adds any
  candidate, so method parameters never produce an edge
  (`Associations.ParametersContributeNothing`).
- When a class has several new parents, the ancestor loop of
  `convertToPlant` shifts one parent away without looking it up
  (`TPlant.SecondParentFirst`, `TPlant.SecondParentTwice`).
- The interface-stub branch of the missing-type loop
  (src/Models/Formatter.ts:209) is unreachable, because it re-tests the
  entity the previous branch already handled. A missing name containing
  `.I` is therefore not drawn at all.
- `ClassFactory.create` takes the last module entry that lists a file,
  while `getModuleName` takes the first (`ClassFactory.LastListedDiffers`).
- The declaration files under src/Components (`*.d.ts`) disagree with the
  `.ts` sources. Where they differ, the model uses the `.ts` shapes: for
  example, `returnType` is a list of strings.

## Model

| member | source | states |
|---|---|---|
| PlantUml.Header | src/Formatter/PlantUMLFormat.ts:22-30 | the header is `@startuml`, followed by exactly one `!include <file>` line when a customization file is set |
| PlantUml.Footer | src/Formatter/PlantUMLFormat.ts:32-34 | the footer is the single line `@enduml` |
| PlantUml.NatToStringInjective | src/Formatter/PlantUMLFormat.ts:199 | different counters render as different decimal strings |
| PlantUml.PlaceholderInjective | src/Formatter/PlantUMLFormat.ts:199 | `Anonymous@N` determines N |
| PlantUml.AnonymizeIdentity | src/Formatter/PlantUMLFormat.ts:193-205 | a name containing neither `{` nor `(` is returned unchanged and the placeholder map is left alone |
| PlantUml.AnonymizeFirstAndRepeat | src/Formatter/PlantUMLFormat.ts:194-202 | a name seen for the first time gets `Anonymous@N`, N the map's size; asking again returns the same placeholder and changes nothing (about `PlantUml.Anonymize`) |
| PlantUml.AnonymizeKeepsValid | src/Formatter/PlantUMLFormat.ts:194-202 | every call keeps the map valid (only placeholder-needing names, each mapped to a distinct `Anonymous@N` with N below the size) and never changes or drops an entry |
| PlantUml.InsertKeepsValid | src/Formatter/PlantUMLFormat.ts:199-200 | storing `Anonymous@<size>` under a new name keeps the map valid |
| PlantUml.InsertDistinct | src/Formatter/PlantUMLFormat.ts:199-200 | the newly stored placeholder differs from every stored one |
| PlantUml.DistinctPlaceholders | src/Formatter/PlantUMLFormat.ts:193-206 | two different names that need placeholders get different placeholders |
| PlantUml.AddAssociation | src/Formatter/PlantUMLFormat.ts:36-41 | `addAssociation` returns exactly one line |
| PlantUml.AddAssociationPlain | src/Formatter/PlantUMLFormat.ts:36-41 | for names needing no placeholder the line is `"A" --> "card end" "B"` with every `[]` removed from B, and the map is unchanged |
| PlantUml.VisibilitySymbol | src/Formatter/PlantUMLFormat.ts:132 | public, private and protected map to `+`, `-` and `#`, each in both directions |
| PlantUml.ParameterLine | src/Formatter/PlantUMLFormat.ts:166-168 | the line starts with the name, has `?` right after it iff the parameter is optional or has an initializer, and ends with `: <type>` |
| PlantUml.ParameterLines | src/Formatter/PlantUMLFormat.ts:136-138 | one parameter line per parameter, in order |
| PlantUml.Prefixes | src/Formatter/PlantUMLFormat.ts:133-134 | the prefix starts with `{abstract} ` exactly for an abstract member, ends with `{static} ` exactly for a static one, and its length tells the four cases apart |
| PlantUml.MethodLine | src/Formatter/PlantUMLFormat.ts:131-142 | the line is the visibility symbol, the prefixes, the name, `(`, the parameter lines joined by `, `, `): ` and the return types joined by commas; so it starts with the symbol and ends with the return types |
| PlantUml.MethodFlagsShow | src/Formatter/PlantUMLFormat.ts:131-142 | two methods differing only in being abstract or static get different lines |
| PlantUml.PropertyLine | src/Formatter/PlantUMLFormat.ts:170-177 | the line is the visibility symbol, the prefixes, the name, `?` when optional, `: ` and the types joined by a spaced vertical bar; so it starts with the symbol and ends with the types |
| PlantUml.PropertyFlagsShow | src/Formatter/PlantUMLFormat.ts:170-177 | two properties differing only in being abstract or static get different lines |
| PlantUml.TypeParameterText | src/Formatter/PlantUMLFormat.ts:179-181 | a type parameter is its name, followed by ` extends <constraint>` exactly when it has a constraint |
| PlantUml.TypeParameterTexts | src/Formatter/PlantUMLFormat.ts:56-58 | one text per type parameter, in order |
| PlantUml.TypeParameterList | src/Formatter/PlantUMLFormat.ts:54-60 | the `<…>` part is empty exactly when there are no type parameters, and otherwise `<`, the type parameter texts joined by `, `, then `>` |
| PlantUml.IndentedMembers | src/Formatter/PlantUMLFormat.ts:77-81 | at most one line per member, each indented by four spaces; when no member line is empty, the k-th line is four spaces plus the k-th member line |
| PlantUml.IndentedMembersContents | src/Formatter/PlantUMLFormat.ts:77-81 | every non-empty member line appears indented by four spaces, and every indented line comes from a non-empty member line |
| PlantUml.IndentedMembersAppend | src/Formatter/PlantUMLFormat.ts:77-81 | member lines are indented in member order: the block of `a + b` is the block of `a` followed by that of `b` |
| PlantUml.IndentedMembersSkipsEmpty | src/Formatter/PlantUMLFormat.ts:78-80 | an empty member line contributes no line, wherever it sits |
| PlantUml.MemberBlock | src/Formatter/PlantUMLFormat.ts:72-85 | the head gains ` {` and a closing `}` line is added iff there are members, with the indented member lines in between |
| PlantUml.ClassHead | src/Formatter/PlantUMLFormat.ts:43-66 | the head starts with `abstract ` exactly for an abstract class; the whole line is `class "name" as ` with the anonymized full name and the `<…>` part, then ` extends X` when the class extends one, then the `, `-joined implements list unless onlyClasses is set or the list is empty |
| PlantUml.InterfaceHead | src/Formatter/PlantUMLFormat.ts:108-125 | for every interface, generic or not, the head is `interface "name" as ` with the full name and the `<…>` part, followed by ` extends ` and the extended interfaces joined by `, ` exactly when there are any |
| PlantUml.EnumValueLines | src/Formatter/PlantUMLFormat.ts:98-100 | one indented line per enum value, in order |
| PlantUml.EnumLines | src/Formatter/PlantUMLFormat.ts:87-106 | braces appear iff there are values; the lines are the declaration, one indented line per value, then `}` |
| PlantUml.InstanceText | src/Formatter/PlantUMLFormat.ts:183-191 | an instance's text is the line `class "name" as <component path>`, followed, when it has parts, by the line separator and its parts' texts joined by the line separator |
| PlantUml.InstanceTextPreOrder | src/Formatter/PlantUMLFormat.ts:183-191 | the text is the class lines of the instance subtree in pre-order, one per instance, joined by the line separator |
| PlantUml.InstanceTextsPreOrder | src/Formatter/PlantUMLFormat.ts:186-188 | the joined texts of a list of instances are the pre-order class lines of their subtrees, list by list |
| PlantUml.InstanceTexts | src/Formatter/PlantUMLFormat.ts:183-191 | one text per component instance, the k-th serializing the k-th instance |
| PlantUml.LineEnd | src/Formatter/PlantUMLFormat.ts:155 | the first line terminator of a text, or its end |
| PlantUml.IndentLines | src/Formatter/PlantUMLFormat.ts:155 | each line gains the margin unless it is blank |
| PlantUml.IndentJoinedLines | src/Formatter/PlantUMLFormat.ts:155 | indenting text made of lines joined by line feeds indents each non-blank line and leaves blank lines alone |
| PlantUml.NamespaceLines | src/Formatter/PlantUMLFormat.ts:144-164 | a top namespace with a module is framed by `namespace <module> {` … `}` with its parts under an eight-space margin; any other namespace has its parts under a four-space margin |
| PlantUml.IndentAll | src/Formatter/PlantUMLFormat.ts:151-158 | every part text is indented by the same margin |
| Associations.FindNonPrimitive | src/Models/Formatter.ts:546-570 | the result is -1 exactly when every token is primitive, and otherwise the index of the first token that is not primitive |
| Associations.IsComplexType | src/Models/Formatter.ts:545-571 | a type text is not complex exactly when every space-stripped token between vertical bars is one of the listed primitive names |
| Associations.SingleTypeIsComplex | src/Models/Formatter.ts:545-571 | a single type name with no space and no vertical bar is complex exactly when it is not in the primitive list |
| Associations.GetAssociations | src/Models/Formatter.ts:537-543 | the result is the property itself when its return types joined by a spaced vertical bar are complex, and empty otherwise |
| Associations.AssociativeParts | src/Models/Formatter.ts:336-357 | a file yields nothing, a class, interface or enum yields itself, an instance comes first among its own parts, and every part is an entity or an instance |
| Associations.PartsOf | src/Models/Formatter.ts:348-355 | the parts of a list of children are all entities or instances |
| Associations.InstanceParts | src/Models/Formatter.ts:341-355 | an instance is followed by the parts of its children, and all of them are instances |
| Associations.InstancesParts | src/Models/Formatter.ts:348-355 | the parts of a list of instances are all instances |
| Associations.NamespacesAreTraversed | src/Models/Formatter.ts:338-348 | a namespace is never one of its own associative parts |
| Associations.ChildInstanceIsPart | src/Models/Formatter.ts:348-355 | every child instance appears among the parts of its siblings' list |
| Associations.AssociativePartsClosed | src/Models/Formatter.ts:336-357 | the associative parts of a part are parts of the whole |
| Associations.PartsOfClosed | src/Models/Formatter.ts:348-355 | the parts of a part of a list are parts of that list |
| Associations.InstancePartsClosed | src/Models/Formatter.ts:348-355 | the parts of a part of an instance are parts of that instance |
| Associations.InstancesPartsClosed | src/Models/Formatter.ts:348-355 | the parts of a part of an instance list are parts of that list |
| Associations.FilesParts | src/Models/Formatter.ts:363-390 | every part `createAssociations` visits is an entity or an instance |
| Associations.FilesPartsAppend | src/Models/Formatter.ts:363-390 | the visited parts of two argument lists are those of the first followed by those of the second |
| Associations.SinglePartsOf | src/Models/Formatter.ts:368-370 | an argument that is not a file contributes exactly its own associative parts |
| Associations.SlotChecks | src/Models/Formatter.ts:435-458 | one check per return slot, each carrying the member's name and no instance |
| Associations.MemberChecks | src/Models/Formatter.ts:432-458 | a property always, and a method only without the onlyAssociations option, contributes one check per return slot; a method with that option contributes none |
| Associations.ParametersContributeNothing | src/Models/Formatter.ts:400-429 | a method's parameters never change its checks, because the parameter loop returns before adding one |
| Associations.ChildCheck | src/Models/Formatter.ts:461-473 | a child instance's check names the child and targets it |
| Associations.ChildChecks | src/Models/Formatter.ts:461-473 | one check per child instance, in order |
| Associations.PartChecks | src/Models/Formatter.ts:392-473 | a class or interface skipped because AngularJS components are configured, and an enum, give no check; a check targets an instance exactly when its part is an instance, and an instance's checks are those of its children |
| Associations.MembersChecksTagged | src/Models/Formatter.ts:396-459 | checks from members never target an instance |
| Associations.Tag | src/Models/Formatter.ts:388-398 | each check is paired with the part that produced it, in order |
| Associations.CandidatesOrigin | src/Models/Formatter.ts:388-475 | every candidate comes from one of the visited parts, and an instance candidate targets a child of its own part (about `Associations.Candidates`) |
| Associations.TagOrigin | src/Models/Formatter.ts:388-475 | the candidates of one part come from that part |
| Associations.SuffixOccurs | src/Models/Formatter.ts:481-483 | a string that ends in `[]` contains `[]` at or before its last two characters |
| Associations.EdgeOf | src/Models/Formatter.ts:475-510 | an edge keeps its candidate's part and check, and its source end is the part's full name with array markers removed |
| Associations.Cardinality | src/Models/Formatter.ts:477-484 | the cardinality is `*` exactly when the short type name ends in `[]`, and then the type name is a prefix without `[]`; otherwise the type name is the short name and the cardinality is `1`, or empty for an instance |
| Associations.OccursInPrefix | src/Models/Formatter.ts:483 | an occurrence inside a prefix is an occurrence in the whole string |
| Associations.FirstMarkerAppended | src/Models/Formatter.ts:481-483 | in `T[]` with `T` free of `[]`, the first `[]` is the appended one |
| Associations.ArrayTargetEnd | src/Models/Formatter.ts:477-498 | without a defined full name, a member typed `T[]` points at the same target as one typed `T`, with cardinality `*` where the plain member has `1` (empty for an instance), both with type name `T` |
| Associations.Emitted | src/Models/Formatter.ts:501-526 | one call emits at most one edge per candidate |
| Associations.EmittedPass | src/Models/Formatter.ts:501-515 | every emitted edge differs from its part's name, has a mapped target and satisfies the path filter |
| Associations.AppendFreshKey | src/Models/Formatter.ts:510-524 | appending an edge whose key is new keeps the keys distinct |
| Associations.EmittedKeysDistinct | src/Models/Formatter.ts:510-524 | no two emitted edges share a key |
| Associations.EmittedFromCandidates | src/Models/Formatter.ts:475-526 | every emitted edge is the edge of one of the candidates |
| Associations.EmittedComplete | src/Models/Formatter.ts:475-526 | every candidate that passes the filters has its key emitted, by itself or by an earlier candidate with the same key |
| Associations.EmittedGrows | src/Models/Formatter.ts:475-526 | one more candidate keeps the earlier keys and, when it passes, adds its own |
| Associations.KeysAppend | src/Models/Formatter.ts:524 | appending an edge adds exactly its key |
| Associations.AddKeys | src/Models/Formatter.ts:517-518 | setting keys never shrinks the registry |
| Associations.AddKeysFacts | src/Models/Formatter.ts:517-518 | after setting keys the registry holds exactly its old keys and the new ones, keeps its old order, and stays free of duplicates |
| Associations.Endpoints | src/Models/Formatter.ts:517-518 | the ends of each edge, source then target, at positions 2k and 2k+1 |
| Associations.EndpointsRegistered | src/Models/Formatter.ts:517-518 | both ends of every emitted edge are in the association registry afterwards |
| Associations.RegisterInstances | src/Models/Formatter.ts:519-523 | registering instance edges never removes an entity |
| Associations.EdgeLines | src/Models/Formatter.ts:516 | one output group per emitted edge |
| Associations.FindMissing | src/Models/Formatter.ts:243-251 | a missing list is never longer than the registry |
| Associations.FindMissingFacts | src/Models/Formatter.ts:243-251 | a key is missing exactly when it is in the registry and its marker-free form has not been serialized, and the list has no duplicate when the registry has none |
| ComponentFactory.GetModifier | src/Factories/ComponentFactory.ts:89-103 | the first visibility keyword in list order decides the modifier, and it is `public` when there is none |
| ComponentFactory.GetMemberModifier | src/Factories/ComponentFactory.ts:213-224 | `public` when the declaration cannot carry modifiers or lists none, otherwise the modifier the list decides |
| ComponentFactory.HasModifierKind | src/Factories/ComponentFactory.ts:234-240 | the loop finds the kind exactly when some listed modifier has it |
| ComponentFactory.IsModifier | src/Factories/ComponentFactory.ts:226-243 | true exactly when the declaration can carry modifiers, lists them, and one of them has the kind |
| ComponentFactory.GetModuleNameFirst | src/Factories/ComponentFactory.ts:428-434 | the module is `""` when no entry lists the file, and otherwise that of the first entry listing it (about `ComponentFactory.GetModuleName`) |
| ComponentFactory.GetNamespaceJoinsEnclosingModules | src/Factories/ComponentFactory.ts:321-333 | `getNamespace` throws exactly when a grandparent without declarations is reached, and otherwise joins the enclosing module-declaration names outermost first with dots (this is the contract of `ComponentFactory.GetNamespace`) |
| ComponentFactory.NamespaceFromSourceIsLastPath | src/Factories/ComponentFactory.ts:334-343 | the namespace read from source text is the dotted path through the last exported module declaration at each level |
| ComponentFactory.NonEmptyHead | src/Factories/ComponentFactory.ts:339 | that path starts with a non-empty name |
| ComponentFactory.AppendAllConcat | src/Factories/ComponentFactory.ts:409-426 | appending identifiers list by list equals appending their concatenation |
| ComponentFactory.AppendAllJoin | src/Factories/ComponentFactory.ts:413-421 | appending non-empty identifiers to a non-empty accumulator joins them all with single dots |
| ComponentFactory.LeftRightAppends | src/Factories/ComponentFactory.ts:409-426 | one call appends the identifiers of the left subtree and then those of the right subtree |
| ComponentFactory.VisitAppends | src/Factories/ComponentFactory.ts:411-424 | visiting a child appends its text when it has one and then the identifiers below it |
| ComponentFactory.IdentifiersNonEmpty | src/Factories/ComponentFactory.ts:412-420 | only non-empty identifiers are collected |
| ComponentFactory.QualifiedNameRendering | src/Factories/ComponentFactory.ts:409-426 | from an empty accumulator a qualified name renders as the identifiers below its root, left before right, joined by single dots with no leading dot |
| ComponentFactory.Labels | src/Factories/ComponentFactory.ts:435-448 | an access chain always has at least one label |
| ComponentFactory.RecursiveExpressionIsDotted | src/Factories/ComponentFactory.ts:435-448 | a property-access chain renders as its labels joined by dots, innermost receiver first |
| ComponentFactory.StripQuotedPrefix | src/Factories/ComponentFactory.ts:111 | removing the quoted module prefix never lengthens a name |
| ComponentFactory.NextQuote | src/Factories/ComponentFactory.ts:111 | the quote found is the first quote at or after the start, and `None` means there is none |
| ComponentFactory.FindQuotedPrefix | src/Factories/ComponentFactory.ts:111 | a match found lies inside the name and is non-empty |
| ComponentFactory.QuotedPrefixRemoved | src/Factories/ComponentFactory.ts:110-112 | a name starting with `"module".` loses exactly that prefix |
| ComponentFactory.NoQuoteUnchanged | src/Factories/ComponentFactory.ts:111 | a name without quotes has no match and is left unchanged |
| ComponentFactory.NamePairs | src/Factories/ComponentFactory.ts:105-122 | the `types.map` of a heritage clause: one pair per type, the k-th pair naming the k-th type |
| ComponentFactory.HeritageClauseNames | src/Factories/ComponentFactory.ts:105-122 | one pair per heritage type, in clause order |
| ComponentFactory.HeritageName | src/Factories/ComponentFactory.ts:106-120 | a resolved type gives its original name without the quoted prefix and its file; an unresolved one with a name gives its dotted expression and no file; otherwise two empty strings |
| ComponentFactory.PicksInOrderConcat | src/Factories/ComponentFactory.ts:275-287 | the factory calls of two declaration lists are those of the first followed by those of the second |
| ComponentFactory.PicksOfInOrder | src/Factories/ComponentFactory.ts:280-286 | one symbol's calls are its declarations' calls in declaration order |
| ComponentFactory.SerializeMethodsSelection | src/Factories/ComponentFactory.ts:270-291 | with `skipMethods` nothing is built; otherwise every declaration is visited in order, a method building a Method unless `onlyAssociations` is set and a property-like declaration building a Property (about `ComponentFactory.SerializeMethods`) |
| ComponentFactory.OnlyAssociationsKeepsProperties | src/Factories/ComponentFactory.ts:281-285 | under `onlyAssociations` only Properties are built |
| ClassFactory.LastListedIsLast | src/Factories/ClassFactory.ts:11-15 | the module found is that of the last entry whose sources list the file, and `""` when none lists it |
| ClassFactory.LastListedAgrees | src/Factories/ClassFactory.ts:11-15 | when at most one entry lists the file, the last-match search agrees with `getModuleName`'s first match |
| ClassFactory.LastListedDiffers | src/Factories/ClassFactory.ts:11-15 | with two entries listing the same file, a class takes the second module while `getModuleName` gives the first |
| ClassFactory.Firsts | src/Factories/ClassFactory.ts:48 | the first component of every pair, in order |
| ClassFactory.Seconds | src/Factories/ClassFactory.ts:49 | the second component of every pair, in order |
| ClassFactory.ApplyClause | src/Factories/ClassFactory.ts:41-50 | one clause throws a `TypeError` exactly when it is an extends clause without types |
| ClassFactory.ApplyClauses | src/Factories/ClassFactory.ts:41-51 | applying the clauses in order fails only with a `TypeError` |
| ClassFactory.LastClause | src/Factories/ClassFactory.ts:41-51 | the clause found is one of the list with the token; none is found exactly when no clause has it |
| ClassFactory.ApplyClausesLast | src/Factories/ClassFactory.ts:36-53 | the clauses succeed exactly when every extends clause has a type; then the extends fields come from the first type of the last extends clause and both interface lists from the last implements clause, and fields no clause sets keep their values |
| ClassFactory.ApplyClausesParallel | src/Factories/ClassFactory.ts:46-49 | the interface names and their files stay lists of the same length |
| ClassFactory.FindModule | src/Factories/ClassFactory.ts:11-15 | the `forEach` loop leaves the module of the last entry listing the file |
| ClassFactory.ApplyHeritage | src/Factories/ClassFactory.ts:40-52 | the `forEach` loop over the clauses computes their in-order application to a class without heritage |
| ClassFactory.Create | src/Factories/ClassFactory.ts:5-56 | `create` succeeds exactly when the namespace is found and no extends clause is empty; then the class has the symbol's name, the file, the namespace, the last listing module, the static and abstract flags of the last declaration, the members then exports then global exports, and the heritage of the last declaration's clauses; a namespace failure is passed on |
| MethodFactory.Constituents | src/Factories/MethodFactory.ts:23-25 | a type that is not a union is visited once, as itself |
| MethodFactory.Unwrapped | src/Factories/MethodFactory.ts:26-30 | unwrapping stops at a type that is not `Array`, and throws when an `Array` has no type argument |
| MethodFactory.UnwrapNested | src/Factories/MethodFactory.ts:26-30 | unwrapping any number of nested `Array`s gives back the element type |
| MethodFactory.UnwrapArrays | src/Factories/MethodFactory.ts:26-30 | the `while` loop computes exactly the unwrapping function, error case included |
| MethodFactory.Texts | src/Factories/MethodFactory.ts:40-42 | one rendered text per declared type argument, in order |
| MethodFactory.TokensClean | src/Factories/MethodFactory.ts:46 | there is at least one token, no token holds `<` or `,`, and none holds `>` once the name has a `<` |
| MethodFactory.SplitEachMember | src/Factories/MethodFactory.ts:46 | every token is a piece of one of the `<`-separated parts |
| MethodFactory.TokensOfGeneric | src/Factories/MethodFactory.ts:40-46 | tokenizing a rebuilt `Name<a,b,...>` gives back the name followed by its arguments |
| MethodFactory.TokensOfNestedGeneric | src/Factories/MethodFactory.ts:46 | `G<A,H<V>>` tokenizes to G, A, H, V |
| MethodFactory.GenericBase | src/Factories/MethodFactory.ts:46 | a rebuilt generic name contains `<`, and removing `>` drops only its closing bracket |
| MethodFactory.AfterFirst | src/Factories/MethodFactory.ts:50 | `substring(indexOf(c) + 1)` never lengthens the text |
| MethodFactory.FindFromRemaining | src/Factories/MethodFactory.ts:55 | the position kept by the model is `indexOf` on the remaining text, shifted by the cut |
| MethodFactory.SkipPastRemaining | src/Factories/MethodFactory.ts:57-60 | the text from the new position is the source's `substring` of the remaining text |
| MethodFactory.CommaFirstRemaining | src/Factories/MethodFactory.ts:55 | the model's test is exactly the source's test that a `,` comes before the first `<` of the remaining text |
| MethodFactory.AdvanceDiamond | src/Factories/MethodFactory.ts:52-61 | one turn of the diamond counters computes the specification function: the next type-argument list, the type for the token, and the counter move, throwing on an undefined entry |
| MethodFactory.QualifyToken | src/Factories/MethodFactory.ts:66-79 | an import ending in `.` and the token decides the full name |
| MethodFactory.QualifiedEndsWithToken | src/Factories/MethodFactory.ts:70-73 | without a matching import the full name is the token, behind its source file's namespace when that is non-empty |
| MethodFactory.WriteSlots | src/Factories/MethodFactory.ts:63-79 | the file, module and full-name writes for one slot compute the specification function |
| MethodFactory.TokenStep | src/Factories/MethodFactory.ts:51-83 | one turn of the token loop is the counter move followed by the slot writes |
| MethodFactory.TokenLoopByStep | src/Factories/MethodFactory.ts:51-83 | the token loop from token j is one step and then the loop from j + 1 |
| MethodFactory.FillTokens | src/Factories/MethodFactory.ts:46-83 | the token loop of a non-primitive constituent computes the specification loop from its starting counters |
| MethodFactory.AtPut | src/Factories/MethodFactory.ts:63-64 | reading a JavaScript array after a write gives the written value at that slot and the old value elsewhere |
| MethodFactory.TokenLoopSlots | src/Factories/MethodFactory.ts:63-79 | the token loop writes the file, module and full name of every remaining token's slot, keeps each module slot with the module of its file, touches no other slot |
| MethodFactory.TokenLoopReturnType | src/Factories/MethodFactory.ts:51-83 | the token loop leaves the return types alone |
| MethodFactory.ConstituentReturnType | src/Factories/MethodFactory.ts:23-43 | a processed constituent unwraps, and appends its rendered type to the return types |
| MethodFactory.ConstituentSlots | src/Factories/MethodFactory.ts:45-86 | a primitive constituent writes only its full name at slot i; any other writes every slot of its range from i*n to i*n+n and nothing outside it |
| MethodFactory.RenderedFromIndex | src/Factories/MethodFactory.ts:32-43 | one rendered type per constituent, in order |
| MethodFactory.UnionLoopStep | src/Factories/MethodFactory.ts:23-87 | the union loop is one constituent and then the loop on the rest |
| MethodFactory.UnionLoopUnwraps | src/Factories/MethodFactory.ts:26-30 | every constituent the union loop gets through unwraps |
| MethodFactory.UnionLoopReturnTypes | src/Factories/MethodFactory.ts:23-43 | the union loop appends exactly the rendered types of the remaining constituents |
| MethodFactory.UnionLoopModules | src/Factories/MethodFactory.ts:63-64 | the union loop keeps every module slot with the module of its file slot |
| MethodFactory.UnionLoopPrimitive | src/Factories/MethodFactory.ts:45-86 | with only primitive constituents no file or module slot is written and each full name is its return type |
| MethodFactory.Create | src/Factories/MethodFactory.ts:8-100 | the method `create` builds, or the error it throws, is the specification function |
| MethodFactory.BuildShape | src/Factories/MethodFactory.ts:8-19 | without a signature there is no return type, no parameters and no module slot, and `methodTypeFile` keeps its default of one empty file name (src/Components/Method.ts:21); a failing namespace or a missing source throws; the name, modifier and the optional, abstract, async and static flags come from the declaration (about `MethodFactory.Build`) |
| MethodFactory.BuildReturnTypes | src/Factories/MethodFactory.ts:23-87 | a built method has one return type per constituent, in order, each the rendering of the unwrapped constituent; every module slot sits on a file slot and is that file's module, and the only file slot without a module is the default empty name at slot 0 |
| MethodFactory.BuildPrimitive | src/Factories/MethodFactory.ts:84-86 | a method returning only primitive types has no module slot, keeps the default `methodTypeFile` of one empty name, and each full name is its return type |
| AngularFactory.ComponentTag | src/Factories/AngularJSComponentFactory.ts:317-329 | the character loop builds the tag of the class name, stopping at the first dot |
| AngularFactory.DotFrom | src/Factories/AngularJSComponentFactory.ts:322-323 | the index found is the first dot at or after the start, or the length when there is none |
| AngularFactory.TagLower | src/Factories/AngularJSComponentFactory.ts:319-327 | a tag holds no upper-case letter |
| AngularFactory.TagStopsAtDot | src/Factories/AngularJSComponentFactory.ts:322-323 | the tag of a name is the tag of its part before the first dot |
| AngularFactory.TagUnhyphenated | src/Factories/AngularJSComponentFactory.ts:319-327 | for a name without hyphens, removing the hyphens from its tag gives the lower-cased name up to the first dot |
| AngularFactory.TagExample | src/Factories/AngularJSComponentFactory.ts:317-329 | `MyApp.ts` gives the tag `my-app` |
| AngularFactory.TagCapitalsExample | src/Factories/AngularJSComponentFactory.ts:320-321 | an example of the capital rule: `ABc` gives `a-bc` |
| AngularFactory.Piece | src/Factories/AngularJSComponentFactory.ts:320-326 | one character contributes its lower case, preceded by a hyphen exactly when it is a capital past the first position |
| AngularFactory.Pieces | src/Factories/AngularJSComponentFactory.ts:319-327 | the pieces of `n` characters are between `n` and `2n` long |
| AngularFactory.TagFromStep | src/Factories/AngularJSComponentFactory.ts:319-327 | before the first dot, each loop step appends that character's piece |
| AngularFactory.TagFromSplit | src/Factories/AngularJSComponentFactory.ts:319-327 | up to the first dot, the output from `i` is the pieces of `[i, k)` followed by the output from `k` |
| AngularFactory.TagIsPieces | src/Factories/AngularJSComponentFactory.ts:317-329 | the tag is the concatenation of the pieces of the characters before the first dot |
| AngularFactory.TagCapital | src/Factories/AngularJSComponentFactory.ts:320-321 | every capital at a position past the first and before the first dot appears in the tag as `-` and its lower case, right after the pieces of the characters before it |
| AngularFactory.HeritageName | src/Factories/AngularJSComponentFactory.ts:56-66 | a resolved type is named by its fully qualified name without the quoted prefix, with its file; an unresolved one gives two empty strings |
| AngularFactory.HeritageClauseNames | src/Factories/AngularJSComponentFactory.ts:55-67 | one pair per type, in order |
| AngularFactory.HeritageNamesAgree | src/Factories/AngularJSComponentFactory.ts:55-67 | the two factories pair the names alike exactly when every resolved type's qualified and original names agree once the quoted prefix is removed and the component factory renders no unresolved type with a name |
| AngularFactory.HeritageNamesDiffer | src/Factories/AngularJSComponentFactory.ts:60-62 | a type `B` declared in namespace `NS` is recorded as `NS.B` here and as `B` by the component factory |
| AngularFactory.Entities | src/Factories/AngularJSComponentFactory.ts:333-337 | only classes, interfaces and enums of the list are kept |
| AngularFactory.EntitiesAppend | src/Factories/AngularJSComponentFactory.ts:339-351 | the entities of two lists are those of the first followed by those of the second |
| AngularFactory.PartsWithoutInstances | src/Factories/AngularJSComponentFactory.ts:331-354 | below a file, this factory's associative parts are the formatter's associative parts without the component instances, in the same order |
| AngularFactory.ListPartsWithoutInstances | src/Factories/AngularJSComponentFactory.ts:339-344 | the same, for a list of parts without nested files |
| AngularFactory.FilePartsWithoutInstances | src/Factories/AngularJSComponentFactory.ts:345-351 | a file's associative parts are the entities of its parts' formatter parts |
| AngularFactory.ChildPath | src/Factories/AngularJSComponentFactory.ts:452-453 | a child placed by the guard sits at the parent's path followed by `/` and its tag |
| AngularFactory.ChildPathRefused | src/Factories/AngularJSComponentFactory.ts:452-455 | the guard refuses a tag exactly when the tag has no `/` and is the path's last `/`-segment |
| AngularFactory.GuardBlocksSelf | src/Factories/AngularJSComponentFactory.ts:451-455 | a tag placed one segment down is refused if it appears again just below itself |
| AngularFactory.CreateInstance | src/Factories/AngularJSComponentFactory.ts:431-444 | an instance has the component's name and module and sits at the path given |
| AngularFactory.CreateInstancePlaced | src/Factories/AngularJSComponentFactory.ts:431-462 | every part of the built instance tree is placed at its parent's path or one guarded segment below it |
| AngularFactory.WalkPlaced | src/Factories/AngularJSComponentFactory.ts:434-441 | the instances built from a list of child nodes are placed by a path step from the path |
| AngularFactory.VisitPlaced | src/Factories/AngularJSComponentFactory.ts:448-460 | the instances built from one child node are placed by a path step from the path |
| AngularFactory.PathStepExtends | src/Factories/AngularJSComponentFactory.ts:437-453 | a path step never leaves the parent's path, so every instance sits below the root it was created at |
| PropertyFactory.Matching | src/Factories/PropertyFactory.ts:30-33 | the filter keeps at most every import |
| PropertyFactory.MatchingMembers | src/Factories/PropertyFactory.ts:30-33 | the filter keeps exactly the imports that end with `.` and the name without array markers |
| PropertyFactory.MatchingFirst | src/Factories/PropertyFactory.ts:30-38 | the first entry kept is the first import, in import order, with that suffix |
| PropertyFactory.ImportQualifiedNone | src/Factories/PropertyFactory.ts:34-42 | a name is left unqualified exactly when no import has its suffix |
| PropertyFactory.ImportQualifiedFirst | src/Factories/PropertyFactory.ts:34-39 | a qualified name is the first matching import, with `[]` appended exactly when the name ends with `[]` |
| PropertyFactory.ArrayQualifiedLikeElement | src/Factories/PropertyFactory.ts:30-39 | an array name is qualified by the same import as its element name, plus `[]` |
| PropertyFactory.MatchingSameSuffix | src/Factories/PropertyFactory.ts:30-33 | two names with the same suffix keep the same imports |
| PropertyFactory.Create | src/Factories/PropertyFactory.ts:7-45 | it throws "unable to determing returnType" without a value declaration, and succeeds exactly when there is one, `getNamespace` does not throw and there is a source file; then the name, modifier and flags come from the declaration, the return type is the checker's text and the full name is the first matching import or the text itself |
| Convert.Keep | src/tplant.ts:92-93 | the kind filter never lengthens the parts |
| Convert.KeepMembers | src/tplant.ts:92-98 | the filter keeps exactly the parts of the kind |
| Convert.KeepCount | src/tplant.ts:92-98 | every part of the kind is kept as often as it occurs, and no other part is kept |
| Convert.KeepAppend | src/tplant.ts:92-98 | the filter keeps the order of the parts |
| Convert.KeepIdempotent | src/tplant.ts:92-98 | filtering twice on the same kind is filtering once |
| Convert.FilteredTop | src/tplant.ts:90-99 | after the filter every top-level component keeps its name, the nodes right below it are exactly its parts of the kind, and an instance keeps no parts |
| Convert.FilterTop | src/tplant.ts:90-99 | the filtering loop computes the filter function on every top-level component |
| Convert.ResetNodes | src/tplant.ts:168-199 | resetting changes only the reset classes, and those only in `implementsInterfaces`, plus the top-level components holding them; a path names a node after exactly when it did before |
| Convert.NodesAt | src/tplant.ts:103-139 | at most one component per pushed path |
| Convert.NodesAtPresent | src/tplant.ts:103-139 | when every path names a node, the list is exactly those nodes in order |
| Convert.TargetRendered | src/tplant.ts:100-142 | the target branch renders one component per pushed entry, each the node at its path after the resets; the target comes first, and a target that is not found gives an empty list |
| Convert.Select | src/tplant.ts:89-145 | `onlyClasses` renders the files filtered to classes, else `onlyInterfaces` the files filtered to interfaces, else a target class renders its subset and fills the registry from the reset tree, else the files are rendered as given |
| Convert.ConvertSpec | src/tplant.ts:73-146 | a text exists exactly when not in target mode or when the target selection completes; it is the rendering of the filtered files, of the files as given, or of the target's subset with the registry filled from the reset tree, and starts with `@startuml` and ends with `@enduml` |
| Convert.ConvertToPlant | src/tplant.ts:73-146 | the text is that of `ConvertSpec` when the selection completes, starting with `@startuml` and ending with `@enduml`; it is empty otherwise |
| TPlant.FindIn | src/tplant.ts:177-189 | a found position is never empty |
| TPlant.FindInNamed | src/tplant.ts:177-189 | what `findClass` returns is a node with the name |
| TPlant.FindFromNamed | src/tplant.ts:181-184 | what the search below a node returns is a node with the name |
| TPlant.FindInInstancesNamed | src/tplant.ts:181-184 | what the search among component instances returns is an instance with the name |
| TPlant.FindInFirst | src/tplant.ts:177-189 | `findClass` returns the first node in pre-order with the name: it finds one whenever one exists, and none comes before it |
| TPlant.FindFromFirst | src/tplant.ts:179-184 | below a node, the search returns the first match in pre-order |
| TPlant.FindInInstancesFirst | src/tplant.ts:179-184 | among instances, the search returns the first match in pre-order |
| TPlant.Row | src/tplant.ts:193-195 | one position `[fi, pi]` per part of top-level component fi |
| TPlant.TopFromShape | src/tplant.ts:193-195 | every visited position is a pair naming a part of a top-level component, at or after the starting one |
| TPlant.TopShape | src/tplant.ts:193-195 | every top-level position names a part of a top-level component |
| TPlant.TopNode | src/tplant.ts:193-195 | the node at a top-level position is that part |
| TPlant.ChildrenStep | src/tplant.ts:195-204 | a part that extends the name is pushed, immediately followed by its own descendants; any other part adds nothing |
| TPlant.ChildrenBelow | src/tplant.ts:191-209 | everything `findChildClass` returns is a top-level part strictly lower in the hierarchy, so a component is never among its own descendants (about `TPlant.ChildClasses`) |
| TPlant.DirectChildrenFound | src/tplant.ts:196-203 | every top-level part that directly extends the name is returned |
| TPlant.ChildrenClosed | src/tplant.ts:191-209 | the result is closed under the direct-child relation |
| TPlant.ImplementersReset | src/tplant.ts:160-175 | `getImplements` resets exactly the classes it returns, and returns only top-level parts |
| TPlant.ImplementersTake | src/tplant.ts:163-170 | a class that still implements the interface and has not been reset is taken and reset |
| TPlant.ImplementersStep | src/tplant.ts:165-170 | one part of the walk: a class still implementing the interface is pushed, reset and followed by its descendants, otherwise the walk goes on |
| TPlant.Resolve | src/tplant.ts:148-158 | at most one node per interface name |
| TPlant.ResolveFound | src/tplant.ts:148-158 | exactly the names `findClass` finds contribute, each with the node found |
| TPlant.ResolveNodes | src/tplant.ts:148-158 | every interface returned is a node of the tree |
| TPlant.ResolveConcat | src/tplant.ts:150-155 | the interfaces of two name lists are those of the first followed by those of the second |
| TPlant.ResolveOrder | src/tplant.ts:150-155 | the interfaces come in `implementsInterfaces` order |
| TPlant.ResolveNames | src/tplant.ts:148-158 | the `getInterfaces` loop computes the resolution function |
| TPlant.ClimbOne | src/tplant.ts:115-130 | a queue holding one name looks it up and goes on with what it queued |
| TPlant.ChainNearestFirst | src/tplant.ts:107-131 | along a linear chain of parents the loop looks the ancestors up nearest first, each once (about `TPlant.Climbing`) |
| TPlant.UnresolvedParentDropped | src/tplant.ts:119-120 | a parent that `findClass` does not find pushes nothing and ends the walk |
| TPlant.SecondParentFirst | src/tplant.ts:116-118 | with two parents queued, the second turn of the for-loop reads index 1 after `shift`: the second parent is looked up and the first is skipped |
| TPlant.SecondParentTwice | src/tplant.ts:115-130 | when that second parent has no parent of its own it is looked up twice and the first parent never |
| TPlant.LookupSound | src/tplant.ts:119-128 | one lookup only appends to the pushed list, only resets top-level classes, and pushes only nodes of the tree |
| TPlant.ClimbingSound | src/tplant.ts:115-130 | the ancestor loop keeps that soundness (about `TPlant.Climbing`) |
| TPlant.ParentsWalkSound | src/tplant.ts:113-132 | the walk over all parents keeps that soundness |
| TPlant.TargetShape | src/tplant.ts:100-140 | nothing is pushed when the target is not found; otherwise the target comes first and its descendants last, every entry names a node, and only top-level classes are reset (about `TPlant.TargetSelection`) |
| TPlant.Subset.GetInterfaces | src/tplant.ts:148-158 | the interfaces of the class at a position, as the resets have left it |
| TPlant.Subset.FindChildClass | src/tplant.ts:191-209 | the descendants are the specification's, and exactly the classes among them are reset |
| TPlant.Subset.GetImplements | src/tplant.ts:160-175 | the implementers and the new reset set are the specification's |
| TPlant.Subset.Climb | src/tplant.ts:114-131 | the loop completes exactly when the specified walk fits the fuel, and then the pushed list and reset set are the walk's |
| TPlant.Subset.AddAncestors | src/tplant.ts:112-133 | one walk per parent, in order, as specified |
| TPlant.Subset.SelectTarget | src/tplant.ts:100-140 | the target branch completes exactly when the specified selection does, and then pushes and resets what it specifies |
| Formatter.MemberText | src/Models/Formatter.ts:100-118 | a method line is empty exactly under onlyAssociations; a property line is empty exactly under onlyAssociations when its type is not complex; a non-empty line is the PlantUML method or property line |
| Formatter.MemberTexts | src/Models/Formatter.ts:100-118 | one line per member, in order |
| Formatter.PartTexts | src/Models/Formatter.ts:50-57 | one text per part of a file, in order |
| Formatter.Registered | src/Models/Formatter.ts:74-136 | `serialize` records a class, interface or enum under its full name, and a shown instance under its component path |
| Formatter.PartsStep | src/Models/Formatter.ts:52-54 | one more part adds its text and its registrations after the others' |
| Formatter.DeclaredAreRegistered | src/Models/Formatter.ts:74-106 | serializing a file or namespace records every class, interface and enum declared in it under its full name |
| Formatter.DeclaredPartsRegistered | src/Models/Formatter.ts:50-57 | serializing a list of parts records every entity they declare |
| Formatter.DeclaredEntitiesAppend | src/Models/Formatter.ts:139-154 | the entities declared in two lists are those of the first followed by those of the second |
| Formatter.OnlyAssociationsMembers | src/Models/Formatter.ts:100-118 | under onlyAssociations a member line is shown exactly when the member is a property of complex type |
| Formatter.RegisterAll | src/Models/Formatter.ts:139-154 | registering never removes a key |
| Formatter.RegisterAllKeys | src/Models/Formatter.ts:139-154 | the registry holds exactly its old keys and the full names of the registered entities |
| Formatter.RegisterAllAppend | src/Models/Formatter.ts:140-153 | registering two lists is registering the first, then the second |
| Formatter.RegisterAllLastWins | src/Models/Formatter.ts:147 | the entity stored under a full name is the last registered one with that name |
| Formatter.RegisterAllUntouched | src/Models/Formatter.ts:147 | a key no registered entity has keeps its old entity |
| Formatter.TargetKey | src/Models/Formatter.ts:286-290 | the bare name without a module; `module.namespace.name` with a module, a namespace and a name |
| Formatter.MapFiles | src/Models/Formatter.ts:252-334 | `getMappedTypes` only adds mapped types |
| Formatter.MapOne | src/Models/Formatter.ts:253-331 | one component only adds mapped types |
| Formatter.MapSlots | src/Models/Formatter.ts:315-326 | the slot keys of a member only add mapped types |
| Formatter.MappedFileParts | src/Models/Formatter.ts:254-267 | the names of the associative parts of every file passed in are mapped |
| Formatter.MapOneFile | src/Models/Formatter.ts:254-267 | a file adds exactly the names of its associative parts |
| Formatter.TargetKeysMapped | src/Models/Formatter.ts:281-330 | a class or interface given directly has its key mapped, and in target-class mode every slot key of its members, markers removed |
| Formatter.MapSlotsCovers | src/Models/Formatter.ts:315-326 | every slot key, markers removed, ends up mapped |
| Formatter.BeforeLastDot | src/Models/Formatter.ts:200 | the namespace of a stub is never longer than the name |
| Formatter.StubClass | src/Models/Formatter.ts:199-205 | the stub is a class without members or module, named after the last dot with markers removed, in the namespace before the last dot |
| Formatter.UniverseClosed | src/Models/Formatter.ts:188-195 | the parts reachable from registered entities form a set closed under associative parts |
| Formatter.EndpointsOfEdges | src/Models/Formatter.ts:517-518 | every registry key set comes from an end of an emitted edge |
| Formatter.EmittedEndsBounded | src/Models/Formatter.ts:511-518 | every end an emitted edge sets is a mapped type or the source end of a visited part |
| Formatter.RegisterPairInside | src/Models/Formatter.ts:519-523 | registering one instance edge's two ends keeps the entities inside a closed set |
| Formatter.RegisterInstancesInside | src/Models/Formatter.ts:519-523 | registering instance edges keeps every registered entity's parts inside a closed set |
| Formatter.EmittedFromParts | src/Models/Formatter.ts:388-526 | emitted edges come from the visited parts, and instance edges from their children |
| Formatter.FilesPartsClosedAt | src/Models/Formatter.ts:363-390 | a part reached from the files has its associative parts reached too |
| Formatter.FilesPartsClosed | src/Models/Formatter.ts:363-390 | the parts one call visits form a closed set |
| Formatter.RoundSeesNothingNew | src/Models/Formatter.ts:176-178 | a round that adds no registry key ends the missing-type loop |
| Formatter.RoundGrowsRegistry | src/Models/Formatter.ts:176-222 | a round that adds a registry key brings the registry closer to a fixed bound, so the loop ends |
| Formatter.DiagramEnds | src/Models/Formatter.ts:163-240 | a diagram's text starts with `@startuml` and ends with `@enduml`, whatever its body |
| Formatter.JoinEnds | src/Models/Formatter.ts:240 | joined lines start with the first line and end with the last |
| Formatter.NonEmptyTexts | src/Models/Formatter.ts:168-171 | the kept texts are exactly the non-empty ones, and never more than were given |
| Formatter.SerializeAllText | src/Models/Formatter.ts:167-172 | no empty text is pushed, and at most one per component |
| Formatter.SerializeAllStep | src/Models/Formatter.ts:167-172 | one more component pushes its text, when not empty, using the placeholders the ones before it left, and records its keys after theirs |
| Formatter.SerializedSoFarStep | src/Models/Formatter.ts:167-172 | serializing one more component extends the texts, placeholders and serialized registry of the components before it by its own |
| Formatter.SerializeAllIsParts | src/Models/Formatter.ts:167-172 | serializing the files one by one gives the non-empty texts, the placeholders and the recorded keys of serializing them as the parts of one file |
| Formatter.RegisteredOf | src/Models/Formatter.ts:224-232 | a component is drawn exactly when some key names it in the entity registry, and at most one per key |
| Formatter.DrawValueSpec | src/Models/Formatter.ts:182-220 | one missing key keeps every registry key and edge end within the bound, only grows the association keys and serialized names, draws at most one non-empty text, and a key whose type is not registered changes only placeholders and adds no edge line |
| Formatter.RoundSpec | src/Models/Formatter.ts:180-221 | a round keeps the registries within the bound, only grows them, and draws at most one non-empty text per key |
| Formatter.RoundStep | src/Models/Formatter.ts:182-220 | one more key of a round is handled with the registries the keys before it left, its text and lines following theirs |
| Formatter.RoundProgress | src/Models/Formatter.ts:176-222 | a round that adds no association key leaves no missing key unseen; one that adds a key brings the registry closer to the bound |
| Formatter.LoopStep | src/Models/Formatter.ts:176-222 | a loop that goes on is one round followed by the loop from what the round left, that round's keys counting as seen |
| Formatter.LoopSoFarStart | src/Models/Formatter.ts:175-177 | before the first round nothing is drawn, and the whole loop is still to come |
| Formatter.LoopSoFarStep | src/Models/Formatter.ts:176-222 | what was drawn so far followed by the rest of the loop is still the whole loop after one more round |
| Formatter.LoopSoFarDone | src/Models/Formatter.ts:176-178 | once no missing key is unseen, what was drawn so far is the whole loop |
| Formatter.DrawLoop | src/Models/Formatter.ts:176-222 | the loop ends with no missing key the last round did not see, keeps the registries within the bound, only grows them, and draws no empty text |
| Formatter.CollectSpec | src/Models/Formatter.ts:161-162 | after `getMappedTypes` and `createAssociations` the registry keys, the mapped types and every end an edge can add lie in the loop's bound; the serialized registry is unchanged and the mapped types only grow |
| Formatter.TailSpec | src/Models/Formatter.ts:174-233 | no drawn text is empty, and with AngularJS components no edge line is added |
| Formatter.RenderSpec | src/Models/Formatter.ts:156-241 | the diagram starts with `@startuml` and ends with `@enduml` |
| Formatter.RenderSpecIs | src/Models/Formatter.ts:156-241 | the diagram is the header, the files' non-empty texts, the texts drawn after them and, when asked for, the files' edge lines followed by the missing types' edge lines, then the footer, joined by newlines |
| Formatter.Formatter.constructor | src/Models/Formatter.ts:27-38 | a new formatter keeps the options and starts with empty registries |
| Formatter.Formatter.GetAnonymized | src/Formatter/PlantUMLFormat.ts:193-206 | the placeholder and the new placeholder map are those of the anonymizing function, and the map stays valid |
| Formatter.Formatter.AddAssociation | src/Formatter/PlantUMLFormat.ts:36-41 | the lines and placeholders are those of the PlantUML edge function, source end anonymized first |
| Formatter.Formatter.SerializeClass | src/Formatter/PlantUMLFormat.ts:62-85 | the class text and placeholders are those of the class rendering function |
| Formatter.Formatter.Serialize | src/Models/Formatter.ts:74-138 | the text is the serialization function's, and exactly the component's entities and shown instances are added to the serialized registry |
| Formatter.Formatter.SerializeInstance | src/Models/Formatter.ts:121-135 | a shown instance is drawn and recorded under its path; one hidden by onlyAssociations or by the path pattern gives `""` and is not recorded |
| Formatter.Formatter.SerializeParts | src/Models/Formatter.ts:50-57 | the file's part texts in order, with their registrations |
| Formatter.Formatter.InitializeRegistry | src/Models/Formatter.ts:139-154 | the entity registry becomes the old one with every declared entity registered by full name, in order |
| Formatter.Formatter.GetMappedTypes | src/Models/Formatter.ts:252-334 | the mapped types become the specification's set for the files |
| Formatter.Formatter.MapComponent | src/Models/Formatter.ts:253-331 | one component's mapped types are the specification's |
| Formatter.Formatter.CreateAssociations | src/Models/Formatter.ts:358-535 | the lines are those of the edges emitted from the candidates of all parts of the files; both ends of each edge are added to the association keys in order, and instance edges register their ends as entities |
| Formatter.Formatter.EmitCandidates | src/Models/Formatter.ts:475-527 | the nested loops emit exactly the specified edges, keeping the registries in step |
| Formatter.Formatter.EmitEdge | src/Models/Formatter.ts:515-524 | one emitted edge adds its lines, sets its two ends in order, and registers instance ends |
| Formatter.Formatter.RenderFiles | src/Models/Formatter.ts:156-241 | the text is `RenderSpec` of the state before: the header, the files' non-empty texts, what the missing-type loop or the AngularJS branch draws, the edge lines when asked for, and the footer, joined by newlines |
| Formatter.Formatter.SerializeAll | src/Models/Formatter.ts:167-172 | the texts and the new placeholder map are those of serializing each component in turn with the placeholders the previous left, empty texts dropped, and the serialized registry gains exactly the keys each component records |
| Formatter.Formatter.RegisteredAmong | src/Models/Formatter.ts:224-232 | the components are exactly the registered entities of the keys, in key order, skipping keys without one |
| Formatter.Formatter.CollectAssociations | src/Models/Formatter.ts:161-162 | the mapped types are computed first and the associations of the files are then created against them; the parts they can reach are the registered entities' parts and the files' parts, a closed set |
| Formatter.Formatter.DrawMissingTypes | src/Models/Formatter.ts:176-222 | the new registries, the texts drawn and the edge lines added are exactly those of `DrawLoop` from the state before |
| Formatter.Formatter.DrawNext | src/Models/Formatter.ts:177-221 | one turn of the `while` loop keeps the account of what the loop draws, and either adds an association key within the bound or leaves no missing key unseen |
| Formatter.Formatter.DrawRound | src/Models/Formatter.ts:180-221 | the new registries, texts and edge lines are those of `RoundSpec` over the keys of the round, and the missing list is recomputed from the new state |
| Formatter.Formatter.DrawValue | src/Models/Formatter.ts:182-220 | the new registries, text and edge lines are those of `DrawValueSpec` for the key, and the missing list is recomputed from the new state |
| Formatter.Formatter.DrawRegistered | src/Models/Formatter.ts:188-195 | a registered missing type is serialized with the onlyAssociations filter in force, then the edges of its own parts are emitted with their ends recorded |
| Formatter.Formatter.DrawTail | src/Models/Formatter.ts:174-233 | the texts and edge lines drawn after the files are those of `TailSpec` from the state before |
| Formatter.VisitInside | src/Models/Formatter.ts:194 | creating the associations of a registered entity keeps the entities inside the closed set and the association keys inside the bound |
| Formatter.RegisterStep | src/Models/Formatter.ts:140-153 | one more component registers what it declares after what came before |
| Formatter.MapFilesStep | src/Models/Formatter.ts:253 | one more file maps its types after what came before |
| Formatter.MapSlotsStep | src/Models/Formatter.ts:315-326 | one more slot key: a registered type not yet mapped is followed, any other key is just mapped |
| Formatter.EmitStep | src/Models/Formatter.ts:511-525 | one more candidate is emitted exactly when it passes with a fresh key |
| Model.Put | src/Factories/MethodFactory.ts:63-64 | writing slot k of a JavaScript array sets that slot, leaves every other slot as it was, and pads with holes up to k |
| Model.NewClass | src/Models/Formatter.ts:202-203 | the stub class has the given name and namespace, no module, no members, type parameters or heritage |
| Model.QualifiedName | src/Models/Formatter.ts:76-77 | the full name is the name, prefixed by `namespace.` when the namespace is non-empty and then by `moduleName.` when the module is non-empty; all four cases |
| Model.DeclaredIn | src/Models/Formatter.ts:139-154 | the entity registry is filled only with classes, interfaces and enums; an entity registers itself and an instance nothing |
| Model.DeclaredEntities | src/Models/Formatter.ts:139-154 | every class, interface or enum of the list is registered, and nothing else |
| Text.IndexOfFrom | src/Factories/MethodFactory.ts:55 | `indexOf` from a position: -1 exactly when no occurrence starts there or later, otherwise the first occurrence |
| Text.IndexOfSuffix | src/Factories/MethodFactory.ts:57-60 | searching the suffix left by `substring` equals searching the whole text from the cut, shifted by the cut |
| Text.LastIndexFrom | src/Models/Formatter.ts:199-200 | `lastIndexOf`: -1 or an occurrence, with no occurrence after it |
| Text.MarkerHasOpenBracket | src/Models/Formatter.ts:185 | a text holding `[]` has a last `[` inside it |
| Text.AfterLastDot | src/Models/Formatter.ts:477 | the text after the last dot holds no dot, ends the text, and is the whole text when there is no dot |
| Text.LastDot | src/Models/Formatter.ts:199 | the last-dot index lies in range and what follows it holds no dot |
| Text.StripArrays | src/Models/Formatter.ts:497-498 | removing every `[]` never lengthens a name |
| Text.StripArraysSuffix | src/Models/Formatter.ts:188 | a trailing `[]` disappears when markers are removed |
| Text.StripArraysPlain | src/Models/Formatter.ts:246 | a name without `[` is left unchanged |
| Text.RemoveChar | src/Models/Formatter.ts:546 | removing a character leaves no occurrence of it |
| Text.RemoveCharKeeps | src/Models/Formatter.ts:546 | removing a character keeps every other character and adds none |
| Text.RemoveCharAppend | src/Factories/MethodFactory.ts:46 | removing a character distributes over concatenation |
| Text.RemoveCharAbsent | src/Models/Formatter.ts:546 | removing an absent character changes nothing |
| Text.Split | src/Models/Formatter.ts:546 | splitting always yields at least one piece |
| Text.SplitSeparates | src/Models/Formatter.ts:546 | no piece holds the separator, and there is exactly one piece when the text has no separator |
| Text.SplitJoin | src/Models/Formatter.ts:546 | joining the pieces with the separator gives the text back |
| Text.SplitAbsent | src/Models/Formatter.ts:546 | a text without the separator splits into itself |
| Text.SplitPrefix | src/Factories/MethodFactory.ts:46 | splitting at the first separator gives the text before it and then the pieces of the rest |
| Text.SplitAround | src/Factories/MethodFactory.ts:46 | two separator-free pieces around one separator split back into those two |
| Text.SplitJoined | src/Factories/MethodFactory.ts:46 | joining separator-free pieces and splitting again gives the pieces back |
| Text.SplitPieces | src/Factories/MethodFactory.ts:46 | every character of a piece occurs in the split text |
| Text.JoinAvoids | src/Formatter/PlantUMLFormat.ts:155 | a character absent from the pieces and from the separator is absent from the join |
| Text.Lower | src/Factories/AngularJSComponentFactory.ts:317-329 | lower-casing leaves no upper-case letter and changes nothing else |
| Text.LowerAll | src/Factories/AngularJSComponentFactory.ts:317-329 | lower-casing a text keeps its length and lower-cases each character |

## Left out

- The command line, the file system, glob expansion, tsconfig discovery and image export of src/index.ts: all of it is I/O.
- `generateDocumentation`, `getCompilerHostForSource` and the `ts.forEachChild` dispatch of `ComponentFactory.create` are left out. They build a TypeScript program, which is a foreign library. Every checker answer (`typeToString`, symbols, type flags, source files) is an input datatype instead.
- `initializeRegistry`, `initializeTree`, `readDom` and `readAdditionalControllers` of src/Factories/AngularJSComponentFactory.ts are left out: they rely on JSDOM, file reads and scraping file contents. The component registry they fill is a parameter of `AngularFactory.CreateInstance`.
- src/Factories/ParameterFactory.ts, src/Factories/TypeParameterFactory.ts, src/Factories/InterfaceFactory.ts, src/Factories/EnumFactory.ts, src/Factories/NamespaceFactory.ts and src/Factories/FileFactory.ts are not part of this model. They only pass checker answers through, and their one self-contained rule, the module lookup, is the one modelled for classes.
- src/Components/Class.ts is not part of this model. `Model.NewClass` gives the defaults its constructor is taken to set: empty lists, no heritage, both flags false.
- The mermaid output format and other formatters: only the PlantUML format is modelled.
- The `angularJSComponentsPathRegexp` regular expression is abstracted as a predicate on paths. `os.EOL` is the fixed separator `"\n"`.
- Strings are sequences of Unicode scalar values, where JavaScript uses UTF-16 code units: lone surrogates and indexing inside a surrogate pair are not modelled.
- Lower-casing covers ASCII letters only. Upper-case detection in component tags is the same ASCII test the source makes.
- `getModuleName` and `getModifier` of src/Factories/AngularJSComponentFactory.ts are the same code as in src/Factories/ComponentFactory.ts. They are modelled once, in `ComponentFactory`.
- The fallback of `MethodFactory.create` at src/Factories/MethodFactory.ts:80-82 cannot be reached. It runs only when a token has no namespace and there is no source file, and without a source file `getImports` already fails on `source.statements` (src/Factories/ComponentFactory.ts:372) before the loop starts. The model returns `Err("TypeError")` at that point, so the fallback is not modelled separately.
- `MethodFactory.Create`: `remainingTypes` is represented by `Diamond.remainingFrom`, a position in the rendered type text, so that the string the source cuts down is always `text[remainingFrom..]`.
- `PropertyFactory.Create`: the scalar type strings of a property are stored as one-element lists, the shape the formatter reads.
- `Associations.Candidates` requires that a member with return slots has at least one rendered return type. src/Models/Formatter.ts:445 and 453 fall back to `returnType[0]`, and the factories always write it before any slot.
- `Convert.Select` and `Convert.ConvertToPlant` require that top-level parts are files, namespaces or component instances, the components with `parts`, when a filter or a target class is set, as the source's `parts.filter` needs.
- `TPlant.Subset.FindChildClass`, `TPlant.Subset.GetImplements`, `TPlant.Subset.SelectTarget` and `Convert.ConvertToPlant` (with a target class) require an acyclic extends hierarchy: a rank over the extends edges of all top-level parts. A cycle among classes the target never reaches is excluded too, although the source finishes on such a project. An example is `import {Foo as Base}` with `class Foo extends Base` in a file unrelated to the target.
- `TPlant.Subset.Climb`, `TPlant.Subset.AddAncestors`, `TPlant.Subset.SelectTarget` and `Convert.ConvertToPlant` take a `fuel` bound on the ancestor lookups, and report `complete == false` when it runs out. On a cyclic extends chain the source can loop forever, which the model does not capture.
- `AngularFactory.CreateInstance`: the nesting of components is bounded by `fuel`, and `None` means it ran out. A template that contains its own component directly recurses without end in the source, which the model does not capture.
- The registries of src/Models/Formatter.ts are maps in the source. The model keeps the serialized registry as a set of keys, because only membership is used, and the association registry as a list of distinct keys in insertion order.
- The top-level iteration over files is flattened: each file's `parts` are handled one after another, in order.
- Console output on refused recursion (src/Factories/AngularJSComponentFactory.ts:455) is left out.
