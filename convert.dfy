/**
 * `convertToPlant` of src/tplant.ts: the `onlyClasses` and `onlyInterfaces`
 * filters, the target-class subset, and the hand-over to the formatter.
 *
 * The filters replace `parts` of every top-level component in place, and the
 * subsetting resets `implementsInterfaces` on the classes it pushes; both
 * show in what is finally rendered. The model computes the resulting tree
 * as a value: the rendered list of the target branch is read from the tree
 * after all resets, since the source pushes references to objects that
 * later steps still change.
 */
module Convert {
  import opened Wrappers
  import opened Model
  import opened Associations
  import opened TPlant
  import F = Formatter

  // ---------------------------------------------------------------- filters

  /** A top-level component whose `parts` the filters and the subsetting traverse. */
  predicate HasParts(c: Component)
  {
    c.File? || c.Namespace? || c.Instance?
  }

  predicate AllHaveParts(files: seq<Component>)
  {
    forall k :: 0 <= k < |files| ==> HasParts(files[k])
  }

  /** `part.componentKind === CLASS` when `classes`, `=== INTERFACE` otherwise. */
  predicate OfKind(c: Component, classes: bool)
  {
    if classes then c.Class? else c.Interface?
  }

  /** `parts.filter(...)` on the component kind. */
  function Keep(ps: seq<Component>, classes: bool): (r: seq<Component>)
    ensures |r| <= |ps|
  {
    if ps == [] then [] else (if OfKind(ps[0], classes) then [ps[0]] else []) + Keep(ps[1..], classes)
  }

  /** The filter keeps exactly the parts of the kind. */
  lemma {:induction false} KeepMembers(ps: seq<Component>, classes: bool)
    ensures forall x :: x in Keep(ps, classes) <==> x in ps && OfKind(x, classes)
  {
    if ps != [] {
      KeepMembers(ps[1..], classes);
      assert ps == [ps[0]] + ps[1..];
    }
  }

  /** The filter keeps every part of the kind as often as it occurs, and no other part. */
  lemma {:induction false} KeepCount(ps: seq<Component>, classes: bool, x: Component)
    ensures multiset(Keep(ps, classes))[x] == if OfKind(x, classes) then multiset(ps)[x] else 0
  {
    if ps != [] {
      KeepCount(ps[1..], classes, x);
      assert ps == [ps[0]] + ps[1..];
    }
  }

  /** The filter keeps the order of the parts: it distributes over concatenation. */
  lemma {:induction false} KeepAppend(a: seq<Component>, b: seq<Component>, classes: bool)
    ensures Keep(a + b, classes) == Keep(a, classes) + Keep(b, classes)
  {
    if a != [] {
      assert (a + b)[1..] == a[1..] + b;
      KeepAppend(a[1..], b, classes);
    } else {
      assert a + b == b;
    }
  }

  /** Filtering twice on the same kind is filtering once. */
  lemma {:induction false} KeepIdempotent(ps: seq<Component>, classes: bool)
    ensures Keep(Keep(ps, classes), classes) == Keep(ps, classes)
  {
    if ps != [] {
      var head := if OfKind(ps[0], classes) then [ps[0]] else [];
      KeepAppend(head, Keep(ps[1..], classes), classes);
      KeepIdempotent(ps[1..], classes);
      if OfKind(ps[0], classes) {
        assert Keep(head, classes) == [ps[0]] + Keep([], classes);
      } else {
        assert head == [];
      }
    }
  }

  /**
   * `(<File>file).parts = (<File>file).parts.filter(...)` on one top-level
   * component. The parts of a component instance are instances, of neither kind.
   */
  function FilterParts(f: Component, classes: bool): (r: Component)
    requires HasParts(f)
  {
    match f
    case File(n, parts) => File(n, Keep(parts, classes))
    case Namespace(n, m, t, parts) => Namespace(n, m, t, Keep(parts, classes))
    case Instance(i) => Instance(i.(parts := []))
  }

  function FilterFiles(files: seq<Component>, classes: bool): seq<Component>
    requires AllHaveParts(files)
  {
    seq(|files|, k requires 0 <= k < |files| => FilterParts(files[k], classes))
  }

  /**
   * After a filter the top-level list keeps its components, with their names,
   * and the nodes right below them are exactly their parts of the kind.
   */
  lemma FilteredTop(files: seq<Component>, classes: bool)
    requires AllHaveParts(files)
    ensures var out := FilterFiles(files, classes);
      |out| == |files| &&
      (forall k :: 0 <= k < |out| ==> out[k].Name() == files[k].Name() && HasParts(out[k])) &&
      (forall k, x :: 0 <= k < |out| ==> (x in TopKids(out[k]) <==> x in TopKids(files[k]) && OfKind(x, classes))) &&
      (forall k :: 0 <= k < |out| && out[k].Instance? ==> out[k].instance.parts == [])
  {
    var out := FilterFiles(files, classes);
    forall k | 0 <= k < |out|
      ensures forall x :: x in TopKids(out[k]) <==> x in TopKids(files[k]) && OfKind(x, classes)
    {
      if files[k].File? || files[k].Namespace? {
        KeepMembers(files[k].parts, classes);
      }
    }
  }

  /** `for (const file of files) (<File>file).parts = ...filter(...)`. */
  method FilterTop(files: seq<Component>, classes: bool) returns (out: seq<Component>)
    requires AllHaveParts(files)
    ensures out == FilterFiles(files, classes)
  {
    out := files;
    for k := 0 to |files|
      invariant |out| == |files|
      invariant forall j :: 0 <= j < k ==> out[j] == FilterParts(files[j], classes)
      invariant forall j :: k <= j < |files| ==> out[j] == files[j]
    {
      out := out[k := FilterParts(out[k], classes)];
    }
  }

  // ---------------------------------------------------------------- resets

  /** `part.implementsInterfaces = []`. */
  function Reset(c: Component): (r: Component)
  {
    if c.Class? then c.(implementsInterfaces := []) else c
  }

  /** The top-level component at `fi` with the resets of `cleared` applied to its parts. */
  function ResetFile(f: Component, fi: nat, cleared: set<Path>): Component
  {
    if f.File? || f.Namespace? then
      f.(parts := seq(|f.parts|, pi requires 0 <= pi < |f.parts| =>
        if [fi, pi] in cleared then Reset(f.parts[pi]) else f.parts[pi]))
    else f
  }

  /** The tree once every class at a path of `cleared` has been reset. */
  function ApplyResets(files: seq<Component>, cleared: set<Path>): seq<Component>
  {
    seq(|files|, fi requires 0 <= fi < |files| => ResetFile(files[fi], fi, cleared))
  }

  /**
   * The node at `q` once the resets of `cleared` are applied: a top-level
   * component with its parts updated, a reset class without its
   * interfaces, and any other node as it was.
   */
  function Updated(files: seq<Component>, cleared: set<Path>, q: Path): Component
    requires NodeAt(files, q).Some?
  {
    if |q| == 1 then ResetFile(files[q[0]], q[0], cleared)
    else if |q| == 2 && q in cleared then Reset(NodeAt(files, q).value)
    else NodeAt(files, q).value
  }

  /**
   * Resetting changes no node but the reset classes, and those only in
   * `implementsInterfaces`, and the top-level components holding them;
   * every path names a node before exactly when it does after.
   */
  lemma ResetNodes(files: seq<Component>, cleared: set<Path>, q: Path)
    ensures NodeAt(ApplyResets(files, cleared), q) ==
      if NodeAt(files, q).Some? then Some(Updated(files, cleared, q)) else None
  {
    var out := ApplyResets(files, cleared);
    if q != [] && q[0] < |files| {
      var f, t := files[q[0]], q[1..];
      assert NodeAt(out, q) == NodeFrom(out[q[0]], t);
      assert NodeAt(files, q) == NodeFrom(f, t);
      if t != [] && (f.File? || f.Namespace?) {
        var parts := out[q[0]].parts;
        if t[0] < |f.parts| {
          var x := f.parts[t[0]];
          assert parts[t[0]] == if [q[0], t[0]] in cleared then Reset(x) else x;
          assert NodeAt(out, q) == NodeAt(parts, t);
          assert NodeAt(files, q) == NodeAt(f.parts, t);
          assert NodeAt(parts, t) == NodeFrom(parts[t[0]], t[1..]);
          assert NodeAt(f.parts, t) == NodeFrom(x, t[1..]);
          if |q| == 2 {
            assert q == [q[0], t[0]];
            assert t[1..] == [];
            assert NodeAt(files, q) == Some(x);
            assert NodeAt(out, q) == Some(if q in cleared then Reset(x) else x);
          } else {
            assert t[1..] != [];
            assert x.Class? ==> NodeFrom(x, t[1..]) == None && NodeFrom(Reset(x), t[1..]) == None;
            assert NodeAt(out, q) == NodeAt(files, q);
          }
        } else {
          assert |parts| == |f.parts|;
          assert NodeAt(out, q) == NodeAt(parts, t) == None;
          assert NodeAt(files, q) == NodeAt(f.parts, t) == None;
        }
      } else if t != [] {
        assert out[q[0]] == f;
        assert NodeAt(files, q).Some? && |q| == 2 ==> NodeAt(files, q).value.Instance?;
      }
    }
  }

  /** The components at the paths of `ps`, in order; paths without a node contribute nothing. */
  function NodesAt(cs: seq<Component>, ps: seq<Path>): (r: seq<Component>)
    ensures |r| <= |ps|
  {
    if ps == [] then []
    else (match NodeAt(cs, ps[0]) case Some(c) => [c] case None => []) + NodesAt(cs, ps[1..])
  }

  lemma {:induction false} NodesAtPresent(cs: seq<Component>, ps: seq<Path>)
    requires forall q :: q in ps ==> NodeAt(cs, q).Some?
    ensures |NodesAt(cs, ps)| == |ps|
    ensures forall k :: 0 <= k < |ps| ==> NodesAt(cs, ps)[k] == NodeAt(cs, ps[k]).value
  {
    if ps != [] {
      assert ps[0] in ps;
      assert forall q :: q in ps[1..] ==> q in ps;
      NodesAtPresent(cs, ps[1..]);
    }
  }

  // ---------------------------------------------------------------- the selection

  /** Neither filter applies and a target class is configured. */
  predicate TargetMode(options: Options)
  {
    !options.onlyClasses && !options.onlyInterfaces && options.targetClass.Some?
  }

  /**
   * The target-class branch: the list of components `renderFiles` is given
   * and the tree `initializeRegistry` is given, both after the resets;
   * `None` when the ancestor walk needs more than `fuel` lookups.
   */
  function TargetRendering(files: seq<Component>, rank: map<string, nat>, name: string, fuel: nat)
    : Option<(seq<Component>, seq<Component>)>
    requires Ranked(files, rank)
  {
    match TargetSelection(files, rank, {}, name, fuel)
    case None => None
    case Some(st) =>
      var tree := ApplyResets(files, st.cleared);
      Some((NodesAt(tree, st.out), tree))
  }

  /**
   * The target branch renders one component per pushed entry: each is the
   * node at that entry's path, reset when its class was reset; the target
   * comes first, and a target that is not found gives an empty diagram.
   */
  lemma TargetRendered(files: seq<Component>, rank: map<string, nat>, name: string, fuel: nat)
    requires Ranked(files, rank)
    ensures TargetRendering(files, rank, name, fuel).Some? ==>
      var st := TargetSelection(files, rank, {}, name, fuel).value;
      var rendered := TargetRendering(files, rank, name, fuel).value.0;
      |rendered| == |st.out| &&
      (forall k :: 0 <= k < |st.out| ==>
        NodeAt(files, st.out[k]).Some? && rendered[k] == Updated(files, st.cleared, st.out[k])) &&
      (FindIn(files, name).None? <==> rendered == []) &&
      (FindIn(files, name).Some? ==>
        st.out != [] && st.out[0] == FindIn(files, name).value && rendered[0] == Updated(files, st.cleared, st.out[0]))
  {
    TargetShape(files, rank, {}, name, fuel);
    if TargetSelection(files, rank, {}, name, fuel).Some? {
      var st := TargetSelection(files, rank, {}, name, fuel).value;
      var tree := ApplyResets(files, st.cleared);
      forall q | q in st.out ensures NodeAt(tree, q).Some? {
        ResetNodes(files, st.cleared, q);
      }
      NodesAtPresent(tree, st.out);
      forall k | 0 <= k < |st.out| ensures NodesAt(tree, st.out)[k] == Updated(files, st.cleared, st.out[k]) {
        ResetNodes(files, st.cleared, st.out[k]);
      }
    }
  }

  /**
   * The selection `convertToPlant` makes before rendering, with the
   * precedence of its branches: `onlyClasses`, then `onlyInterfaces`, then
   * `targetClass`. `registry` is the tree given to `initializeRegistry`,
   * which only the target branch calls.
   */
  method Select(files: seq<Component>, options: Options, ghost rank: map<string, nat>, fuel: nat)
    returns (rendered: seq<Component>, registry: Option<seq<Component>>, complete: bool)
    requires options.onlyClasses || options.onlyInterfaces || options.targetClass.Some? ==> AllHaveParts(files)
    requires TargetMode(options) ==> Ranked(files, rank)
    ensures options.onlyClasses ==> complete && rendered == FilterFiles(files, true) && registry == None
    ensures !options.onlyClasses && options.onlyInterfaces ==>
      complete && rendered == FilterFiles(files, false) && registry == None
    ensures !options.onlyClasses && !options.onlyInterfaces && options.targetClass == None ==>
      complete && rendered == files && registry == None
    ensures TargetMode(options) ==>
      (complete <==> TargetRendering(files, rank, options.targetClass.value, fuel).Some?) &&
      (complete ==> registry.Some? &&
                    (rendered, registry.value) == TargetRendering(files, rank, options.targetClass.value, fuel).value)
  {
    registry := None;
    complete := true;
    if options.onlyClasses {
      rendered := FilterTop(files, true);
    } else if options.onlyInterfaces {
      rendered := FilterTop(files, false);
    } else if options.targetClass.Some? {
      var subset := new Subset(files, rank);
      var out;
      out, complete := subset.SelectTarget(options.targetClass.value, fuel);
      if !complete {
        return [], None, false;
      }
      var tree := ApplyResets(files, subset.cleared);
      rendered := NodesAt(tree, out);
      registry := Some(tree);
    } else {
      rendered := files;
    }
  }

  // ---------------------------------------------------------------- alignment

  /** Every class and interface of the tree has a return type wherever it has return-type slots. */
  predicate AlignedTree(c: Component)
    decreases c, 1
  {
    Aligned(c) && ((c.File? || c.Namespace?) ==> AlignedForest(c.parts))
  }

  predicate AlignedForest(cs: seq<Component>)
    decreases cs, 0
  {
    forall k :: 0 <= k < |cs| ==> AlignedTree(cs[k])
  }

  lemma AllAlignedConcat(a: seq<Component>, b: seq<Component>)
    requires AllAligned(a) && AllAligned(b)
    ensures AllAligned(a + b)
  {
    forall k | 0 <= k < |a + b| ensures Aligned((a + b)[k]) {
      if k >= |a| { assert (a + b)[k] == b[k - |a|]; }
    }
  }

  lemma {:induction false} TreePartsAligned(c: Component)
    requires AlignedTree(c)
    ensures AllAligned(AssociativeParts(c))
    decreases c, 1
  {
    match c
    case Namespace(_, _, _, parts) => ForestPartsAligned(parts);
    case Instance(i) =>
      var r := InstanceParts(i);
      forall k | 0 <= k < |r| ensures Aligned(r[k]) { assert r[k] in r; }
    case _ =>
  }

  lemma {:induction false} ForestPartsAligned(ps: seq<Component>)
    requires AlignedForest(ps)
    ensures AllAligned(PartsOf(ps))
    decreases ps, 0
  {
    if ps != [] {
      TreePartsAligned(ps[0]);
      assert AlignedForest(ps[1..]) by {
        forall k | 0 <= k < |ps[1..]| ensures AlignedTree(ps[1..][k]) { assert ps[1..][k] == ps[k + 1]; }
      }
      ForestPartsAligned(ps[1..]);
      AllAlignedConcat(AssociativeParts(ps[0]), PartsOf(ps[1..]));
    }
  }

  /** An aligned tree meets what the formatter asks of the files it renders. */
  lemma {:induction false} FilesAligned(files: seq<Component>)
    requires AlignedForest(files)
    ensures AllAligned(FilesParts(files))
  {
    if files != [] {
      var f := files[0];
      assert AlignedTree(f);
      if f.File? {
        ForestPartsAligned(f.parts);
      } else {
        assert AlignedForest([f]);
        ForestPartsAligned([f]);
      }
      assert AlignedForest(files[1..]) by {
        forall k | 0 <= k < |files[1..]| ensures AlignedTree(files[1..][k]) { assert files[1..][k] == files[k + 1]; }
      }
      FilesAligned(files[1..]);
      AllAlignedConcat(PartsOf(Elements(f)), FilesParts(files[1..]));
    }
  }

  lemma {:induction false} NodeAligned(cs: seq<Component>, p: Path)
    requires AlignedForest(cs) && NodeAt(cs, p).Some?
    ensures AlignedTree(NodeAt(cs, p).value)
    decreases |p|, 0
  {
    NodeFromAligned(cs[p[0]], p[1..]);
  }

  lemma {:induction false} NodeFromAligned(c: Component, t: Path)
    requires AlignedTree(c) && NodeFrom(c, t).Some?
    ensures AlignedTree(NodeFrom(c, t).value)
    decreases |t|, 1
  {
    if t != [] {
      match c
      case File(_, parts) => NodeAligned(parts, t);
      case Namespace(_, _, _, parts) => NodeAligned(parts, t);
      case _ =>
    }
  }

  lemma {:induction false} NodesAligned(cs: seq<Component>, ps: seq<Path>)
    requires AlignedForest(cs)
    ensures AlignedForest(NodesAt(cs, ps))
  {
    if ps != [] {
      NodesAligned(cs, ps[1..]);
      if NodeAt(cs, ps[0]).Some? {
        NodeAligned(cs, ps[0]);
      }
      var head := match NodeAt(cs, ps[0]) case Some(c) => [c] case None => [];
      assert NodesAt(cs, ps) == head + NodesAt(cs, ps[1..]);
    }
  }

  lemma ResetsAligned(files: seq<Component>, cleared: set<Path>)
    requires AlignedForest(files)
    ensures AlignedForest(ApplyResets(files, cleared))
  {
    var out := ApplyResets(files, cleared);
    forall fi | 0 <= fi < |out| ensures AlignedTree(out[fi]) {
      var f := files[fi];
      assert AlignedTree(f);
      if f.File? || f.Namespace? {
        assert AlignedForest(f.parts);
        var parts := out[fi].parts;
        forall pi | 0 <= pi < |parts| ensures AlignedTree(parts[pi]) {
          assert AlignedTree(f.parts[pi]);
        }
      }
    }
  }

  lemma ForestMember(cs: seq<Component>, x: Component)
    requires AlignedForest(cs) && x in cs
    ensures AlignedTree(x)
  {
    var i :| 0 <= i < |cs| && cs[i] == x;
  }

  lemma FilterAligned(files: seq<Component>, classes: bool)
    requires AllHaveParts(files) && AlignedForest(files)
    ensures AlignedForest(FilterFiles(files, classes))
  {
    var out := FilterFiles(files, classes);
    forall k | 0 <= k < |out| ensures AlignedTree(out[k]) {
      var f := files[k];
      assert AlignedTree(f);
      if f.File? || f.Namespace? {
        var parts := out[k].parts;
        KeepMembers(f.parts, classes);
        forall j | 0 <= j < |parts| ensures AlignedTree(parts[j]) {
          assert parts[j] in parts;
          ForestMember(f.parts, parts[j]);
        }
      }
    }
  }

  lemma {:induction false} DeclaredTreeAligned(c: Component)
    requires AlignedTree(c)
    ensures forall x :: x in DeclaredIn(c) ==> Aligned(x)
    decreases c, 1
  {
    match c
    case File(_, parts) => DeclaredForestAligned(parts);
    case Namespace(_, _, _, parts) => DeclaredForestAligned(parts);
    case _ =>
  }

  lemma {:induction false} DeclaredForestAligned(cs: seq<Component>)
    requires AlignedForest(cs)
    ensures forall x :: x in DeclaredEntities(cs) ==> Aligned(x)
    decreases cs, 0
  {
    if cs != [] {
      DeclaredTreeAligned(cs[0]);
      assert AlignedForest(cs[1..]) by {
        forall k | 0 <= k < |cs[1..]| ensures AlignedTree(cs[1..][k]) { assert cs[1..][k] == cs[k + 1]; }
      }
      DeclaredForestAligned(cs[1..]);
    }
  }

  /** The registry holds nothing but what it held and the registered components. */
  lemma {:induction false} RegisterAllValues(ents: map<string, Component>, es: seq<Component>)
    ensures forall v :: v in F.RegisterAll(ents, es).Values ==> v in ents.Values || v in es
    decreases |es|
  {
    if es != [] {
      var e := es[0];
      var next := ents[FullName(e) := e];
      RegisterAllValues(next, es[1..]);
      forall v | v in next.Values ensures v in ents.Values || v == e {
        var key :| key in next && next[key] == v;
        if key != FullName(e) { assert ents[key] == v; }
      }
      assert forall v :: v in es[1..] ==> v in es;
    }
  }

  /** The registry filled from an aligned tree meets what the formatter asks of its entities. */
  lemma RegistryAligned(cs: seq<Component>)
    requires AlignedForest(cs)
    ensures F.EntitiesAligned(F.RegisterAll(map[], DeclaredEntities(cs)))
  {
    var es := DeclaredEntities(cs);
    RegisterAllValues(map[], es);
    DeclaredForestAligned(cs);
    forall v | v in F.RegisterAll(map[], es).Values ensures AllAligned(FilesParts([v])) {
      assert v in es && v.IsEntity() && Aligned(v);
      F.SingleFilesParts(v);
      assert Elements(v) == [v];
      assert PartsOf([v]) == AssociativeParts(v) + PartsOf([]);
    }
  }

  /** The parts of a selection are aligned when the whole tree is. */
  lemma SelectionAligned(files: seq<Component>, options: Options, rank: map<string, nat>, fuel: nat)
    requires AlignedForest(files)
    requires options.onlyClasses || options.onlyInterfaces || options.targetClass.Some? ==> AllHaveParts(files)
    requires TargetMode(options) ==> Ranked(files, rank)
    ensures options.onlyClasses || options.onlyInterfaces ==> AlignedForest(FilterFiles(files, options.onlyClasses))
    ensures TargetMode(options) && TargetRendering(files, rank, options.targetClass.value, fuel).Some? ==>
      var sel := TargetRendering(files, rank, options.targetClass.value, fuel).value;
      AlignedForest(sel.0) && AlignedForest(sel.1)
  {
    if options.onlyClasses || options.onlyInterfaces {
      FilterAligned(files, options.onlyClasses);
    }
    if TargetMode(options) {
      match TargetSelection(files, rank, {}, options.targetClass.value, fuel)
      case None =>
      case Some(st) =>
        ResetsAligned(files, st.cleared);
        NodesAligned(ApplyResets(files, st.cleared), st.out);
    }
  }

  // ---------------------------------------------------------------- convertToPlant

  /**
   * What `convertToPlant` returns: `renderFiles` of the selection on a fresh
   * formatter, whose registry holds the entities of the reset tree in the
   * target branch and is empty otherwise; `None` when the ancestor walk
   * needs more than `fuel` lookups.
   */
  ghost function ConvertSpec(files: seq<Component>, options: Options, rank: map<string, nat>, fuel: nat): (r: Option<string>)
    requires AlignedForest(files)
    requires options.onlyClasses || options.onlyInterfaces || options.targetClass.Some? ==> AllHaveParts(files)
    requires TargetMode(options) ==> Ranked(files, rank)
    ensures r.Some? <==> !TargetMode(options) || TargetRendering(files, rank, options.targetClass.value, fuel).Some?
    ensures r.Some? ==> |r.value| >= 9 && r.value[..9] == "@startuml" && Text.EndsWith(r.value, "@enduml")
  {
    SelectionAligned(files, options, rank, fuel);
    if options.onlyClasses || options.onlyInterfaces then
      var rendered := FilterFiles(files, options.onlyClasses);
      FilesAligned(rendered);
      Some(F.RenderSpec(options, F.Drawing(map[], {}, [], map[]), {}, rendered, options.associations))
    else if options.targetClass.None? then
      FilesAligned(files);
      Some(F.RenderSpec(options, F.Drawing(map[], {}, [], map[]), {}, files, options.associations))
    else
      match TargetRendering(files, rank, options.targetClass.value, fuel)
      case None => None
      case Some(sel) =>
        FilesAligned(sel.0);
        RegistryAligned(sel.1);
        Some(F.RenderSpec(options, F.Drawing(map[], {}, [], F.RegisterAll(map[], DeclaredEntities(sel.1))), {}, sel.0, options.associations))
  }

  /**
   * `convertToPlant(files, options)` with the PlantUML format: the selection,
   * the registry for the target branch, then `renderFiles`. `complete` is
   * false only when the ancestor walk needs more than `fuel` lookups, and
   * then nothing is rendered.
   */
  method ConvertToPlant(files: seq<Component>, options: Options, ghost rank: map<string, nat>, fuel: nat)
    returns (text: string, complete: bool)
    requires AlignedForest(files)
    requires options.onlyClasses || options.onlyInterfaces || options.targetClass.Some? ==> AllHaveParts(files)
    requires TargetMode(options) ==> Ranked(files, rank)
    ensures complete <==> !TargetMode(options) || TargetRendering(files, rank, options.targetClass.value, fuel).Some?
    ensures complete ==> |text| >= 9 && text[..9] == "@startuml" && Text.EndsWith(text, "@enduml")
    ensures !complete ==> text == ""
    ensures ConvertSpec(files, options, rank, fuel) == if complete then Some(text) else None
  {
    var rendered, registry;
    rendered, registry, complete := Select(files, options, rank, fuel);
    if !complete {
      return "", false;
    }
    SelectionAligned(files, options, rank, fuel);
    assert AlignedForest(rendered);
    FilesAligned(rendered);
    var formatter := new F.Formatter(options);
    if registry.Some? {
      assert AlignedForest(registry.value);
      formatter.InitializeRegistry(registry.value);
      RegistryAligned(registry.value);
    }
    text := formatter.RenderFiles(rendered, options.associations);
  }
}
