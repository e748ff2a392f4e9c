/**
 * The self-contained helpers of src/Factories/AngularJSComponentFactory.ts:
 * component tags from class names, the resolved-only heritage names, the
 * entity-only associative parts, and the building of component instances
 * from template trees with the guard against a component nesting itself.
 * Templates are given as trees of element names; the component registry
 * that `initializeRegistry` fills from them is a parameter.
 */
module AngularFactory {
  import opened Wrappers
  import opened Text
  import opened Model
  import CF = ComponentFactory
  import Associations

  // ---------------------------------------------------------------- component tags

  /** The tag characters produced from index `i` on, up to the first dot. */
  function TagFrom(s: string, i: nat): string
    requires i <= |s|
    decreases |s| - i
  {
    if i == |s| then ""
    else if i != 0 && IsUpper(s[i]) then ['-', Lower(s[i])] + TagFrom(s, i + 1)
    else if s[i] == '.' then ""
    else [Lower(s[i])] + TagFrom(s, i + 1)
  }

  /** The component tag of a class name. */
  function Tag(s: string): string
  {
    TagFrom(s, 0)
  }

  /** `getComponentTagFromJavascriptClassName`: the character loop that stops at the first dot. */
  method ComponentTag(fileName: string) returns (out: string)
    ensures out == Tag(fileName)
  {
    out := "";
    var i := 0;
    while i < |fileName|
      invariant 0 <= i <= |fileName|
      invariant out + TagFrom(fileName, i) == Tag(fileName)
    {
      if i != 0 && IsUpper(fileName[i]) {
        AppendAssoc(out, ['-', Lower(fileName[i])], TagFrom(fileName, i + 1));
        out := out + ['-', Lower(fileName[i])];
      } else if fileName[i] == '.' {
        break;
      } else {
        AppendAssoc(out, [Lower(fileName[i])], TagFrom(fileName, i + 1));
        out := out + [Lower(fileName[i])];
      }
      i := i + 1;
    }
  }

  /** The index of the first dot at or after `i`, or the length when there is none. */
  function DotFrom(s: string, i: nat): (r: nat)
    requires i <= |s|
    ensures i <= r <= |s| && (r < |s| ==> s[r] == '.')
    ensures forall j :: i <= j < r ==> s[j] != '.'
    decreases |s| - i
  {
    if i == |s| || s[i] == '.' then i else DotFrom(s, i + 1)
  }

  /** A tag has no upper-case letter. */
  lemma {:induction false} TagFromLower(s: string, i: nat)
    requires i <= |s|
    ensures forall k :: 0 <= k < |TagFrom(s, i)| ==> !IsUpper(TagFrom(s, i)[k])
    decreases |s| - i
  {
    if i < |s| {
      TagFromLower(s, i + 1);
    }
  }

  lemma TagLower(s: string)
    ensures forall k :: 0 <= k < |Tag(s)| ==> !IsUpper(Tag(s)[k])
  {
    TagFromLower(s, 0);
  }

  /** Nothing from the first dot on reaches the tag. */
  lemma {:induction false} TagFromBeforeDot(s: string, i: nat)
    requires i <= DotFrom(s, 0)
    ensures TagFrom(s, i) == TagFrom(s[..DotFrom(s, 0)], i)
    decreases DotFrom(s, 0) - i
  {
    var d := DotFrom(s, 0);
    if i < d {
      assert s[..d][i] == s[i];
      TagFromBeforeDot(s, i + 1);
    }
  }

  lemma TagStopsAtDot(s: string)
    ensures Tag(s) == Tag(s[..DotFrom(s, 0)])
    ensures '.' !in s[..DotFrom(s, 0)]
  {
    TagFromBeforeDot(s, 0);
  }

  /**
   * For a name without hyphens, removing the hyphens from the tag gives the
   * lower-case text before the first dot: the tag only inserts `-` before
   * the inner capitals.
   */
  lemma {:induction false} TagFromUnhyphenated(s: string, i: nat)
    requires '-' !in s && i <= DotFrom(s, 0)
    ensures RemoveChar(TagFrom(s, i), '-') == LowerAll(s[i..DotFrom(s, 0)])
    decreases DotFrom(s, 0) - i
  {
    var d := DotFrom(s, 0);
    if i < d {
      TagFromUnhyphenated(s, i + 1);
      var x := s[i..d];
      assert x[0] == s[i] && x[1..] == s[i + 1..d];
      assert s[i] in s;
      if i != 0 && IsUpper(s[i]) {
        HyphenDropped(Lower(s[i]), TagFrom(s, i + 1));
      } else {
        RemoveCharAppend([Lower(s[i])], TagFrom(s, i + 1), '-');
      }
    }
  }

  lemma HyphenDropped(l: char, rest: string)
    requires l != '-'
    ensures RemoveChar(['-', l] + rest, '-') == [l] + RemoveChar(rest, '-')
  {
    RemoveCharAppend(['-', l], rest, '-');
    assert ['-', l][1..] == [l];
  }

  lemma TagUnhyphenated(s: string)
    requires '-' !in s
    ensures RemoveChar(Tag(s), '-') == LowerAll(s[..DotFrom(s, 0)])
  {
    TagFromUnhyphenated(s, 0);
  }

  /** `MyApp.ts` is the component `my-app`. */
  lemma TagExample()
    ensures Tag("MyApp.ts") == "my-app"
  {
  }

  /** Each capital after the first gets its own hyphen: `ABc` is `a-bc`. */
  lemma TagCapitalsExample()
    ensures Tag("ABc") == "a-bc"
  {
  }

  /** What character `k` contributes: its lower case, after a hyphen when it is a capital past the first position. */
  function Piece(s: string, k: nat): (r: string)
    requires k < |s|
    ensures |r| == (if k != 0 && IsUpper(s[k]) then 2 else 1)
    ensures r[|r| - 1] == Lower(s[k]) && (|r| == 2 ==> r[0] == '-')
  {
    if k != 0 && IsUpper(s[k]) then ['-', Lower(s[k])] else [Lower(s[k])]
  }

  /** The pieces of the characters in `[i, k)`, in order. */
  function Pieces(s: string, i: nat, k: nat): (r: string)
    requires i <= k <= |s|
    ensures k - i <= |r| <= 2 * (k - i)
    decreases k - i
  {
    if k == i then "" else Pieces(s, i, k - 1) + Piece(s, k - 1)
  }

  /** Before the first dot, each character adds its piece. */
  lemma TagFromStep(s: string, k: nat)
    requires k < DotFrom(s, 0)
    ensures TagFrom(s, k) == Piece(s, k) + TagFrom(s, k + 1)
  {
    assert s[k] != '.';
  }

  /** Up to the first dot, the tag from `i` is the pieces of `[i, k)` followed by the tag from `k`. */
  lemma {:induction false} TagFromSplit(s: string, i: nat, k: nat)
    requires i <= k <= DotFrom(s, 0)
    ensures TagFrom(s, i) == Pieces(s, i, k) + TagFrom(s, k)
    decreases k - i
  {
    if k > i {
      TagFromSplit(s, i, k - 1);
      TagFromStep(s, k - 1);
      AppendAssoc(Pieces(s, i, k - 1), Piece(s, k - 1), TagFrom(s, k));
    }
  }

  /**
   * The tag is the pieces of the characters before the first dot: every
   * character lower-cased, and a hyphen before each capital past the first.
   */
  lemma TagIsPieces(s: string)
    ensures Tag(s) == Pieces(s, 0, DotFrom(s, 0))
  {
    TagFromSplit(s, 0, DotFrom(s, 0));
  }

  /** A capital at position `k > 0` before the first dot shows in the tag as `-` and its lower case, after the pieces of `[0, k)`. */
  lemma TagCapital(s: string, k: nat)
    requires 0 < k < DotFrom(s, 0) && IsUpper(s[k])
    ensures var p := |Pieces(s, 0, k)|;
      p + 2 <= |Tag(s)| && Tag(s)[p] == '-' && Tag(s)[p + 1] == Lower(s[k])
  {
    TagFromSplit(s, 0, k);
    TagFromStep(s, k);
    var p := |Pieces(s, 0, k)|;
    assert Tag(s)[p..p + 2] == Piece(s, k);
  }

  // ---------------------------------------------------------------- heritage clauses

  /**
   * The factory's own `getHeritageClauseNames` pairing: a resolved type by
   * its fully qualified name, the first quoted module prefix removed, with
   * its file; anything else as `["", ""]`.
   */
  function HeritageName(t: CF.HeritageType): (r: (string, string))
    ensures t.Resolved? ==> r == (CF.StripQuotedPrefix(t.qualifiedName), t.originalFile)
    ensures t.Unresolved? ==> r == ("", "")
  {
    match t
    case Resolved(_, q, f) => (CF.StripQuotedPrefix(q), f)
    case Unresolved(_) => ("", "")
  }

  function HeritageClauseNames(types: seq<CF.HeritageType>): (r: seq<(string, string)>)
    ensures |r| == |types|
    ensures forall k :: 0 <= k < |types| ==> r[k] == HeritageName(types[k])
  {
    CF.NamePairs(HeritageName, types)
  }

  /** Where the two factories name one heritage type alike. */
  predicate SameName(t: CF.HeritageType)
  {
    match t
    case Resolved(n, q, _) => CF.StripQuotedPrefix(q) == CF.StripQuotedPrefix(n)
    case Unresolved(_) => CF.HeritageName(t) == ("", "")
  }

  /**
   * The two factories pair the names alike exactly when every resolved
   * type's qualified name and original name agree once the quoted prefix is
   * removed, and no unresolved type has a name the component factory renders
   * as its dotted expression.
   */
  lemma HeritageNamesAgree(types: seq<CF.HeritageType>)
    ensures HeritageClauseNames(types) == CF.HeritageClauseNames(types) <==>
      forall k :: 0 <= k < |types| ==> SameName(types[k])
  {
    var a, b := HeritageClauseNames(types), CF.HeritageClauseNames(types);
    if a == b {
      forall k | 0 <= k < |types| ensures SameName(types[k]) {
        assert a[k] == b[k];
      }
    } else {
      var k :| 0 <= k < |types| && a[k] != b[k];
      assert !SameName(types[k]);
    }
  }

  /**
   * A class extending `NS.B`: this factory records the qualified `NS.B`,
   * the component factory the symbol's own name `B`.
   */
  lemma HeritageNamesDiffer()
    ensures HeritageName(CF.Resolved("B", "NS.B", "b.ts")) == ("NS.B", "b.ts")
    ensures CF.HeritageName(CF.Resolved("B", "NS.B", "b.ts")) == ("B", "b.ts")
  {
    CF.NoQuoteUnchanged("NS.B", 0);
    CF.NoQuoteUnchanged("B", 0);
  }

  // ---------------------------------------------------------------- associative parts

  /** The classes, interfaces and enums of a list, in order. */
  function Entities(cs: seq<Component>): (r: seq<Component>)
    ensures forall x :: x in r ==> x.IsEntity() && x in cs
  {
    if cs == [] then [] else (if cs[0].IsEntity() then [cs[0]] else []) + Entities(cs[1..])
  }

  lemma {:induction false} EntitiesAppend(a: seq<Component>, b: seq<Component>)
    ensures Entities(a + b) == Entities(a) + Entities(b)
  {
    if a != [] {
      assert (a + b)[1..] == a[1..] + b;
      EntitiesAppend(a[1..], b);
      AppendAssoc(if a[0].IsEntity() then [a[0]] else [], Entities(a[1..]), Entities(b));
    } else {
      assert a + b == b;
    }
  }

  lemma {:induction false} EntitiesNone(cs: seq<Component>)
    requires forall x :: x in cs ==> x.Instance?
    ensures Entities(cs) == []
  {
    if cs != [] {
      assert cs[0] in cs;
      EntitiesNone(cs[1..]);
    }
  }

  /** No file sits inside the component, however deep. */
  predicate FileFree(c: Component)
  {
    match c
    case File(_, _) => false
    case Namespace(_, _, _, parts) => forall x :: x in parts ==> FileFree(x)
    case _ => true
  }

  /**
   * `getAssociativeParts` of this factory is the entity lookup
   * `Model.DeclaredIn`. Below a file it keeps exactly the classes,
   * interfaces and enums of the formatter's associative parts, in the same
   * pre-order: it drops the component instances the formatter collects.
   */
  lemma {:induction false} PartsWithoutInstances(c: Component)
    requires FileFree(c)
    ensures DeclaredIn(c) == Entities(Associations.AssociativeParts(c))
    decreases c, 1
  {
    match c
    case Namespace(_, _, _, parts) => ListPartsWithoutInstances(parts);
    case Instance(i) => EntitiesNone(Associations.InstanceParts(i));
    case _ =>
  }

  lemma {:induction false} ListPartsWithoutInstances(cs: seq<Component>)
    requires forall x :: x in cs ==> FileFree(x)
    ensures DeclaredEntities(cs) == Entities(Associations.PartsOf(cs))
    decreases cs, 0
  {
    if cs != [] {
      assert cs[0] in cs;
      PartsWithoutInstances(cs[0]);
      assert forall x :: x in cs[1..] ==> x in cs;
      ListPartsWithoutInstances(cs[1..]);
      EntitiesAppend(Associations.AssociativeParts(cs[0]), Associations.PartsOf(cs[1..]));
    }
  }

  /** A file with no nested file: its entities are those of its parts' associative parts. */
  lemma FilePartsWithoutInstances(name: string, parts: seq<Component>)
    requires forall x :: x in parts ==> FileFree(x)
    ensures DeclaredIn(File(name, parts)) == Entities(Associations.PartsOf(parts))
  {
    ListPartsWithoutInstances(parts);
  }

  // ---------------------------------------------------------------- component instances

  /** A template element: its node name and its child nodes. */
  datatype DomNode = DomNode(nodeName: string, childNodes: seq<DomNode>)

  /** A registered component: its tag, its module and its template's document. */
  datatype AngularComponent = AngularComponent(name: string, moduleName: string, node: DomNode)

  /**
   * The recursion guard of `createInstanceForNonComponentNode`: a
   * component found below a plain element is placed at `path/tag`, unless
   * `tag` is already the last segment of the path.
   */
  function ChildPath(componentPath: string, tag: string): (r: Option<string>)
    ensures r.Some? ==> r.value == componentPath + "/" + tag
  {
    var k := LastIndexOf(componentPath, "/");
    if k == -1 || componentPath[k + 1..] != tag then Some(componentPath + "/" + tag) else None
  }

  /** The guard refuses exactly a tag that is the last `/`-segment of the path. */
  lemma ChildPathRefused(p: string, t: string)
    ensures ChildPath(p, t).None? <==>
      '/' !in t && exists k :: 0 <= k < |p| && p[k] == '/' && p[k + 1..] == t
  {
    if ChildPath(p, t).None? {
      RefusedAtLastSlash(p, t);
    } else if '/' !in t && exists k :: 0 <= k < |p| && p[k] == '/' && p[k + 1..] == t {
      var k :| 0 <= k < |p| && p[k] == '/' && p[k + 1..] == t;
      LastSegmentRefused(p, t, k);
    }
  }

  lemma RefusedAtLastSlash(p: string, t: string)
    requires ChildPath(p, t).None?
    ensures '/' !in t && 0 <= LastIndexOf(p, "/") < |p|
    ensures p[LastIndexOf(p, "/")] == '/' && p[LastIndexOf(p, "/") + 1..] == t
  {
    LastSlash(p);
  }

  lemma LastSegmentRefused(p: string, t: string, k: int)
    requires 0 <= k < |p| && p[k] == '/' && p[k + 1..] == t && '/' !in t
    ensures ChildPath(p, t).None?
  {
    LastSlash(p);
    SlashBeforeLast(p, k);
  }

  /** The last slash is a slash, and none follows it. */
  lemma LastSlash(p: string)
    ensures -1 <= LastIndexOf(p, "/") < |p|
    ensures LastIndexOf(p, "/") != -1 ==> p[LastIndexOf(p, "/")] == '/'
    ensures '/' !in p[LastIndexOf(p, "/") + 1..]
  {
    var k := LastIndexOf(p, "/");
    if k != -1 {
      CharAt(p, '/', k);
    }
    NoCharAfter(p, '/', k);
  }

  lemma SlashBeforeLast(p: string, k0: int)
    requires 0 <= k0 < |p| && p[k0] == '/'
    ensures k0 <= LastIndexOf(p, "/")
  {
    assert p[k0..k0 + 1] == "/";
    assert OccursAt(p, "/", k0);
  }

  /** A component placed below a plain element is never placed again directly below itself. */
  lemma GuardBlocksSelf(p: string, t: string)
    requires '/' !in t && ChildPath(p, t).Some?
    ensures ChildPath(ChildPath(p, t).value, t).None?
  {
    var q := p + "/" + t;
    assert q[|p|] == '/' && q[|p| + 1..] == t;
    ChildPathRefused(q, t);
  }

  /**
   * `createInstance`: an instance at `path` whose parts come from the
   * children of the component's document. `fuel` bounds the nesting of
   * components; `None` means it ran out.
   */
  function CreateInstance(reg: map<string, AngularComponent>, fuel: nat, path: string, comp: AngularComponent):
    (r: Option<ComponentInstance>)
    ensures r.Some? ==> r.value.name == comp.name && r.value.moduleName == comp.moduleName && r.value.componentPath == path
    decreases fuel, comp.node, 2
  {
    match Walk(reg, fuel, path, comp.node.childNodes, true)
    case None => None
    case Some(parts) => Some(ComponentInstance(comp.name, comp.moduleName, path, parts))
  }

  /**
   * The instances found below `nodes`, in document order. Directly below a
   * component (`direct`), a registered child keeps the component's path;
   * deeper down, as in `createInstanceForNonComponentNode`, it is placed by
   * the guard.
   */
  function Walk(reg: map<string, AngularComponent>, fuel: nat, path: string, nodes: seq<DomNode>, direct: bool):
    Option<seq<ComponentInstance>>
    decreases fuel, nodes, 0
  {
    if nodes == [] then Some([])
    else match (Visit(reg, fuel, path, nodes[0], direct), Walk(reg, fuel, path, nodes[1..], direct))
      case (Some(h), Some(t)) => Some(h + t)
      case _ => None
  }

  /** The instances one child node contributes. */
  function Visit(reg: map<string, AngularComponent>, fuel: nat, path: string, node: DomNode, direct: bool):
    Option<seq<ComponentInstance>>
    decreases fuel, node, 1
  {
    var tag := LowerAll(node.nodeName);
    if tag !in reg then Walk(reg, fuel, path, node.childNodes, false)
    else
      var at := if direct then Some(path) else ChildPath(path, tag);
      if at.None? then Some([])
      else if fuel == 0 then None
      else match CreateInstance(reg, fuel - 1, at.value, reg[tag])
        case None => None
        case Some(i) => Some([i])
  }

  /** A child is placed at its parent's path, or one guarded segment below it. */
  ghost predicate PathStep(parent: string, child: string)
  {
    child == parent || exists t :: ChildPath(parent, t) == Some(child)
  }

  /** Every part of every instance of the tree is placed by a path step from its parent. */
  ghost predicate WellPlaced(x: ComponentInstance)
  {
    forall y :: y in x.parts ==> PathStep(x.componentPath, y.componentPath) && WellPlaced(y)
  }

  lemma {:induction false} CreateInstancePlaced(reg: map<string, AngularComponent>, fuel: nat, path: string, comp: AngularComponent)
    ensures CreateInstance(reg, fuel, path, comp).Some? ==> WellPlaced(CreateInstance(reg, fuel, path, comp).value)
    decreases fuel, comp.node, 2
  {
    WalkPlaced(reg, fuel, path, comp.node.childNodes, true);
  }

  lemma {:induction false} WalkPlaced(reg: map<string, AngularComponent>, fuel: nat, path: string, nodes: seq<DomNode>, direct: bool)
    ensures Walk(reg, fuel, path, nodes, direct).Some? ==>
      forall y :: y in Walk(reg, fuel, path, nodes, direct).value ==> PathStep(path, y.componentPath) && WellPlaced(y)
    decreases fuel, nodes, 0
  {
    if nodes != [] {
      VisitPlaced(reg, fuel, path, nodes[0], direct);
      WalkPlaced(reg, fuel, path, nodes[1..], direct);
    }
  }

  lemma {:induction false} VisitPlaced(reg: map<string, AngularComponent>, fuel: nat, path: string, node: DomNode, direct: bool)
    ensures Visit(reg, fuel, path, node, direct).Some? ==>
      forall y :: y in Visit(reg, fuel, path, node, direct).value ==> PathStep(path, y.componentPath) && WellPlaced(y)
    decreases fuel, node, 1
  {
    var tag := LowerAll(node.nodeName);
    if tag !in reg {
      WalkPlaced(reg, fuel, path, node.childNodes, false);
    } else {
      var at := if direct then Some(path) else ChildPath(path, tag);
      if at.Some? && fuel > 0 {
        CreateInstancePlaced(reg, fuel - 1, at.value, reg[tag]);
        assert PathStep(path, at.value) by {
          if !direct { assert ChildPath(path, tag) == Some(at.value); }
        }
      }
    }
  }

  /** A path step never leaves the parent's path: every instance sits below the root it was created at. */
  lemma PathStepExtends(parent: string, child: string)
    requires PathStep(parent, child)
    ensures parent <= child
  {
    if child != parent {
      var t :| ChildPath(parent, t) == Some(child);
      assert child[..|parent|] == parent;
    }
  }
}
