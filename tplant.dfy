/**
 * Target-class subsetting of src/tplant.ts: `findClass`, `getInterfaces`,
 * `getImplements`, `findChildClass` and the selection `convertToPlant`
 * makes before rendering.
 *
 * Components are objects in the source, and `findChildClass` and
 * `getImplements` reset `implementsInterfaces` on the classes they push,
 * so later lookups and the final rendering see the reset. The model names a
 * component by its path in the tree (one index per level of `parts`) and
 * records the paths whose `implementsInterfaces` has been reset.
 */
module TPlant {
  import opened Wrappers
  import opened Model
  import Text

  /** The position of a node: an index into the top-level list, then one into `parts` per level. */
  type Path = seq<nat>

  // ---------------------------------------------------------------- the tree

  /** The node at `p` in the list `cs`. */
  function NodeAt(cs: seq<Component>, p: Path): Option<Component>
    decreases |p|, 0
  {
    if p == [] || p[0] >= |cs| then None else NodeFrom(cs[p[0]], p[1..])
  }

  /** The node at `t` below `c`; `c` itself for the empty path. */
  function NodeFrom(c: Component, t: Path): Option<Component>
    decreases |t|, 1
  {
    if t == [] then Some(c)
    else
      match c
      case File(_, parts) => NodeAt(parts, t)
      case Namespace(_, _, _, parts) => NodeAt(parts, t)
      case Instance(i) =>
        (match InstanceAt(i.parts, t)
         case Some(x) => Some(Instance(x))
         case None => None)
      case _ => None
  }

  function InstanceAt(xs: seq<ComponentInstance>, p: Path): Option<ComponentInstance>
    decreases |p|, 0
  {
    if p == [] || p[0] >= |xs| then None else InstanceFrom(xs[p[0]], p[1..])
  }

  function InstanceFrom(x: ComponentInstance, t: Path): Option<ComponentInstance>
    decreases |t|, 1
  {
    if t == [] then Some(x) else InstanceAt(x.parts, t)
  }

  predicate NamedAt(cs: seq<Component>, p: Path, name: string)
  {
    NodeAt(cs, p).Some? && NodeAt(cs, p).value.Name() == name
  }

  predicate NamedFrom(c: Component, t: Path, name: string)
  {
    NodeFrom(c, t).Some? && NodeFrom(c, t).value.Name() == name
  }

  predicate InstanceNamedAt(xs: seq<ComponentInstance>, p: Path, name: string)
  {
    InstanceAt(xs, p).Some? && InstanceAt(xs, p).value.name == name
  }

  predicate InstanceNamedFrom(x: ComponentInstance, t: Path, name: string)
  {
    InstanceFrom(x, t).Some? && InstanceFrom(x, t).value.name == name
  }

  /**
   * `p` comes strictly before `q` in the pre-order of a tree: it is a proper
   * prefix of `q` or branches off to its left.
   */
  predicate Precedes(p: Path, q: Path)
    decreases |p|
  {
    q != [] && (p == [] || p[0] < q[0] || (p[0] == q[0] && Precedes(p[1..], q[1..])))
  }

  /** The path one sibling to the right. */
  function Shifted(p: Path): Path
    requires p != []
  {
    [p[0] + 1] + p[1..]
  }

  // ---------------------------------------------------------------- findClass

  /**
   * `findClass`: each node is compared with the name before the search
   * descends into its `parts`; the first match is returned.
   */
  function FindIn(cs: seq<Component>, name: string): (r: Option<Path>)
    ensures r.Some? ==> r.value != []
    decreases cs, 1
  {
    if cs == [] then None
    else if cs[0].Name() == name then Some([0])
    else
      match FindFrom(cs[0], name)
      case Some(t) => Some([0] + t)
      case None =>
        match FindIn(cs[1..], name)
        case Some(q) => Some(Shifted(q))
        case None => None
  }

  /** The search below a node, through the `parts` that File, Namespace and component instances have. */
  function FindFrom(c: Component, name: string): (r: Option<Path>)
    ensures r.Some? ==> r.value != []
    decreases c, 0
  {
    match c
    case File(_, parts) => FindIn(parts, name)
    case Namespace(_, _, _, parts) => FindIn(parts, name)
    case Instance(i) => FindInInstances(i.parts, name)
    case _ => None
  }

  function FindInInstances(xs: seq<ComponentInstance>, name: string): (r: Option<Path>)
    ensures r.Some? ==> r.value != []
    decreases xs, 1
  {
    if xs == [] then None
    else if xs[0].name == name then Some([0])
    else
      match FindInInstances(xs[0].parts, name)
      case Some(t) => Some([0] + t)
      case None =>
        match FindInInstances(xs[1..], name)
        case Some(q) => Some(Shifted(q))
        case None => None
  }

  /** What `findClass` returns is a node with the name. */
  lemma {:induction false} FindInNamed(cs: seq<Component>, name: string)
    ensures FindIn(cs, name).Some? ==> NamedAt(cs, FindIn(cs, name).value, name)
    decreases cs, 1
  {
    if cs != [] && cs[0].Name() != name {
      FindFromNamed(cs[0], name);
      match FindFrom(cs[0], name)
      case Some(t) =>
        assert NodeAt(cs, [0] + t) == NodeFrom(cs[0], t);
      case None =>
        FindInNamed(cs[1..], name);
        if FindIn(cs[1..], name).Some? {
          ShiftedNode(cs, FindIn(cs[1..], name).value);
        }
    }
  }

  lemma {:induction false} FindFromNamed(c: Component, name: string)
    ensures FindFrom(c, name).Some? ==> NamedFrom(c, FindFrom(c, name).value, name)
    decreases c, 0
  {
    match c
    case File(_, parts) => FindInNamed(parts, name);
    case Namespace(_, _, _, parts) => FindInNamed(parts, name);
    case Instance(i) => FindInInstancesNamed(i.parts, name);
    case _ =>
  }

  lemma {:induction false} FindInInstancesNamed(xs: seq<ComponentInstance>, name: string)
    ensures FindInInstances(xs, name).Some? ==> InstanceNamedAt(xs, FindInInstances(xs, name).value, name)
    decreases xs, 1
  {
    if xs != [] && xs[0].name != name {
      FindInInstancesNamed(xs[0].parts, name);
      match FindInInstances(xs[0].parts, name)
      case Some(t) =>
        assert InstanceAt(xs, [0] + t) == InstanceFrom(xs[0], t);
      case None =>
        FindInInstancesNamed(xs[1..], name);
        if FindInInstances(xs[1..], name).Some? {
          ShiftedInstance(xs, FindInInstances(xs[1..], name).value);
        }
    }
  }

  lemma ShiftedNode(cs: seq<Component>, q: Path)
    requires cs != [] && q != []
    ensures NodeAt(cs, Shifted(q)) == NodeAt(cs[1..], q)
  {
    assert Shifted(q)[1..] == q[1..];
  }

  lemma ShiftedInstance(xs: seq<ComponentInstance>, q: Path)
    requires xs != [] && q != []
    ensures InstanceAt(xs, Shifted(q)) == InstanceAt(xs[1..], q)
  {
    assert Shifted(q)[1..] == q[1..];
  }

  lemma NodeAtHead(cs: seq<Component>, q: Path)
    requires q != [] && q[0] < |cs|
    ensures |q| == 1 ==> NodeAt(cs, q) == Some(cs[q[0]])
    ensures |q| > 1 ==> q[1..] != []
  {
    if |q| == 1 { assert q[1..] == []; }
  }

  lemma InstanceAtHead(xs: seq<ComponentInstance>, q: Path)
    requires q != [] && q[0] < |xs|
    ensures |q| == 1 ==> InstanceAt(xs, q) == Some(xs[q[0]])
    ensures |q| > 1 ==> q[1..] != []
  {
    if |q| == 1 { assert q[1..] == []; }
  }

  /** The path below the first node, one sibling to the left otherwise. */
  lemma SplitPath(q: Path)
    requires q != []
    ensures q[0] == 0 ==> q == [0] + q[1..]
    ensures q[0] > 0 ==> q == Shifted([q[0] - 1] + q[1..])
  {
  }

  lemma PrecedesBelow(t: Path, s: Path)
    ensures Precedes([0] + t, [0] + s) <==> Precedes(t, s)
  {
    assert ([0] + t)[1..] == t;
    assert ([0] + s)[1..] == s;
  }

  lemma PrecedesShifted(q: Path, r: Path)
    requires q != [] && r != []
    ensures Precedes(Shifted(q), Shifted(r)) <==> Precedes(q, r)
  {
    assert Shifted(q)[1..] == q[1..];
    assert Shifted(r)[1..] == r[1..];
  }

  /**
   * `findClass` returns the first node in pre-order whose name matches:
   * no node named so comes before the result, and the result is absent
   * only when no node has the name.
   */
  lemma {:induction false} FindInFirst(cs: seq<Component>, name: string)
    ensures forall q :: NamedAt(cs, q, name) ==> FindIn(cs, name).Some? && !Precedes(q, FindIn(cs, name).value)
    decreases cs, 1
  {
    if cs != [] && cs[0].Name() != name {
      FindFromFirst(cs[0], name);
      FindInFirst(cs[1..], name);
      forall q | NamedAt(cs, q, name)
        ensures FindIn(cs, name).Some? && !Precedes(q, FindIn(cs, name).value)
      {
        SplitPath(q);
        if q[0] == 0 {
          NodeAtHead(cs, q);
          assert NamedFrom(cs[0], q[1..], name);
          if FindFrom(cs[0], name).Some? {
            PrecedesBelow(q[1..], FindFrom(cs[0], name).value);
          }
        } else {
          var q' := [q[0] - 1] + q[1..];
          ShiftedNode(cs, q');
          assert NamedAt(cs[1..], q', name);
          if FindFrom(cs[0], name).None? {
            PrecedesShifted(q', FindIn(cs[1..], name).value);
          }
        }
      }
    }
  }

  lemma {:induction false} FindFromFirst(c: Component, name: string)
    ensures forall t :: t != [] && NamedFrom(c, t, name) ==> FindFrom(c, name).Some? && !Precedes(t, FindFrom(c, name).value)
    decreases c, 0
  {
    match c
    case File(_, parts) =>
      FindInFirst(parts, name);
      forall t | t != [] && NamedFrom(c, t, name)
        ensures FindFrom(c, name).Some? && !Precedes(t, FindFrom(c, name).value)
      {
        assert NamedAt(parts, t, name);
      }
    case Namespace(_, _, _, parts) =>
      FindInFirst(parts, name);
      forall t | t != [] && NamedFrom(c, t, name)
        ensures FindFrom(c, name).Some? && !Precedes(t, FindFrom(c, name).value)
      {
        assert NamedAt(parts, t, name);
      }
    case Instance(i) =>
      FindInInstancesFirst(i.parts, name);
      forall t | t != [] && NamedFrom(c, t, name)
        ensures FindFrom(c, name).Some? && !Precedes(t, FindFrom(c, name).value)
      {
        assert InstanceNamedAt(i.parts, t, name);
      }
    case _ =>
  }

  lemma {:induction false} FindInInstancesFirst(xs: seq<ComponentInstance>, name: string)
    ensures forall q :: InstanceNamedAt(xs, q, name) ==>
      FindInInstances(xs, name).Some? && !Precedes(q, FindInInstances(xs, name).value)
    decreases xs, 1
  {
    if xs != [] && xs[0].name != name {
      FindInInstancesFirst(xs[0].parts, name);
      FindInInstancesFirst(xs[1..], name);
      forall q | InstanceNamedAt(xs, q, name)
        ensures FindInInstances(xs, name).Some? && !Precedes(q, FindInInstances(xs, name).value)
      {
        SplitPath(q);
        if q[0] == 0 {
          InstanceAtHead(xs, q);
          assert InstanceAt(xs, q) == InstanceFrom(xs[0], q[1..]);
          assert InstanceNamedAt(xs[0].parts, q[1..], name);
          if FindInInstances(xs[0].parts, name).Some? {
            PrecedesBelow(q[1..], FindInInstances(xs[0].parts, name).value);
          }
        } else {
          var q' := [q[0] - 1] + q[1..];
          ShiftedInstance(xs, q');
          assert InstanceNamedAt(xs[1..], q', name);
          if FindInInstances(xs[0].parts, name).None? {
            PrecedesShifted(q', FindInInstances(xs[1..], name).value);
          }
        }
      }
    }
  }

  // ---------------------------------------------------------------- top-level parts

  /** `(<File>file).parts`: the parts of a top-level file or namespace. */
  function TopKids(c: Component): seq<Component>
  {
    if c.File? || c.Namespace? then c.parts else []
  }

  function Row(files: seq<Component>, fi: nat): (r: seq<Path>)
    requires fi < |files|
    ensures |r| == |TopKids(files[fi])|
    ensures forall pi :: 0 <= pi < |r| ==> r[pi] == [fi, pi]
  {
    seq(|TopKids(files[fi])|, pi => [fi, pi])
  }

  /** The parts of each top-level component, file by file: the components `findChildClass` and `getImplements` visit. */
  function TopFrom(files: seq<Component>, fi: nat): (r: seq<Path>)
    requires fi <= |files|
    ensures |r| == 0 || fi < |files|
    decreases |files| - fi
  {
    if fi == |files| then [] else Row(files, fi) + TopFrom(files, fi + 1)
  }

  /** Every entry is a position `[fi, pi]` of a part of a top-level component, at or after file `fi`. */
  lemma {:induction false} TopFromShape(files: seq<Component>, fi: nat)
    requires fi <= |files|
    ensures forall k :: 0 <= k < |TopFrom(files, fi)| ==>
      |TopFrom(files, fi)[k]| == 2 && fi <= TopFrom(files, fi)[k][0] < |files| &&
      TopFrom(files, fi)[k][1] < |TopKids(files[TopFrom(files, fi)[k][0]])|
    decreases |files| - fi
  {
    if fi < |files| {
      TopFromShape(files, fi + 1);
      var row := Row(files, fi);
      var rest := TopFrom(files, fi + 1);
      assert TopFrom(files, fi) == row + rest;
      forall k | 0 <= k < |row + rest|
        ensures |(row + rest)[k]| == 2 && fi <= (row + rest)[k][0] < |files| && (row + rest)[k][1] < |TopKids(files[(row + rest)[k][0]])|
      {
        if k >= |row| { assert (row + rest)[k] == rest[k - |row|]; }
      }
    }
  }

  function Top(files: seq<Component>): (r: seq<Path>)
    ensures |r| == 0 || |files| > 0
  {
    TopFrom(files, 0)
  }

  /** Each top-level position is a pair naming a part of a top-level component, and the node there is that part. */
  lemma TopShape(files: seq<Component>)
    ensures forall k :: 0 <= k < |Top(files)| ==>
      |Top(files)[k]| == 2 && Top(files)[k][0] < |files| && Top(files)[k][1] < |TopKids(files[Top(files)[k][0]])|
    ensures forall k :: 0 <= k < |Top(files)| ==>
      NodeAt(files, Top(files)[k]) == Some(TopKids(files[Top(files)[k][0]])[Top(files)[k][1]])
  {
    var r := TopFrom(files, 0);
    TopFromShape(files, 0);
    forall k | 0 <= k < |r| ensures NodeAt(files, r[k]) == Some(TopKids(files[r[k][0]])[r[k][1]]) {
      TopNode(files, r[k][0], r[k][1]);
      assert r[k] == [r[k][0], r[k][1]];
    }
  }

  lemma TopNode(files: seq<Component>, fi: nat, pi: nat)
    requires fi < |files| && pi < |TopKids(files[fi])|
    ensures NodeAt(files, [fi, pi]) == Some(TopKids(files[fi])[pi])
  {
    assert [fi, pi][1..] == [pi];
    assert [pi][1..] == [];
    assert NodeAt(files, [fi, pi]) == NodeFrom(files[fi], [pi]);
    assert NodeFrom(files[fi], [pi]) == NodeAt(TopKids(files[fi]), [pi]);
    assert NodeAt(TopKids(files[fi]), [pi]) == NodeFrom(TopKids(files[fi])[pi], []);
  }

  /** The component at a top-level position. */
  function TopNodeAt(files: seq<Component>, k: nat): (r: Component)
    requires k < |Top(files)|
    ensures NodeAt(files, Top(files)[k]) == Some(r)
  {
    TopShape(files);
    NodeAt(files, Top(files)[k]).value
  }

  // ---------------------------------------------------------------- the hierarchy

  /**
   * `c` is pushed by `findChildClass` for a component named `name`: a class
   * whose `extendsClass` is that name, or an interface whose
   * `extendsInterface` holds it (`find` returns the match, which is false
   * when it is the empty string).
   */
  predicate Extends(c: Component, name: string)
  {
    (c.Class? && c.extendsClass == Some(name)) || (c.Interface? && name != "" && name in c.extendsInterface)
  }

  /** `getImplements` takes a class for an interface named `name` when `implementsInterfaces` holds it. */
  predicate Implements(c: Component, name: string)
  {
    c.Class? && name != "" && name in c.implementsInterfaces
  }

  predicate Below(rank: map<string, nat>, a: string, b: string)
  {
    a in rank && b in rank && rank[a] < rank[b]
  }

  /**
   * The extends edges among the top-level parts only go down in `rank`:
   * the hierarchy `findChildClass` walks has no cycle. With a cycle the
   * source recurses until the stack overflows.
   */
  ghost predicate Ranked(files: seq<Component>, rank: map<string, nat>)
  {
    forall k, name :: 0 <= k < |Top(files)| && Extends(TopNodeAt(files, k), name) ==>
      Below(rank, TopNodeAt(files, k).Name(), name)
  }

  function Height(rank: map<string, nat>, name: string): nat
  {
    if name in rank then rank[name] + 1 else 0
  }

  lemma Lower(files: seq<Component>, rank: map<string, nat>, k: nat, name: string)
    requires Ranked(files, rank) && k < |Top(files)| && Extends(TopNodeAt(files, k), name)
    ensures Height(rank, TopNodeAt(files, k).Name()) < Height(rank, name)
  {
  }

  /** The paths of `ps` that hold classes. */
  function ClassesAmong(files: seq<Component>, ps: seq<Path>): set<Path>
  {
    set p | p in ps && NodeAt(files, p).Some? && NodeAt(files, p).value.Class?
  }

  lemma ClassesAmongConcat(files: seq<Component>, a: seq<Path>, b: seq<Path>)
    ensures ClassesAmong(files, a + b) == ClassesAmong(files, a) + ClassesAmong(files, b)
  {
  }

  // ---------------------------------------------------------------- findChildClass

  /**
   * `findChildClass(files, comp)` for a component named `name`: each
   * top-level part that extends the name, immediately followed by its own
   * descendants.
   */
  function ChildClasses(files: seq<Component>, rank: map<string, nat>, name: string): seq<Path>
    requires Ranked(files, rank)
    decreases Height(rank, name), |Top(files)| + 1
  {
    ChildrenFrom(files, rank, name, 0)
  }

  function ChildrenFrom(files: seq<Component>, rank: map<string, nat>, name: string, k: nat): seq<Path>
    requires Ranked(files, rank) && k <= |Top(files)|
    decreases Height(rank, name), |Top(files)| - k
  {
    if k == |Top(files)| then []
    else
      var c := TopNodeAt(files, k);
      if Extends(c, name) then
        Lower(files, rank, k, name);
        [Top(files)[k]] + ChildClasses(files, rank, c.Name()) + ChildrenFrom(files, rank, name, k + 1)
      else ChildrenFrom(files, rank, name, k + 1)
  }

  /** One top-level part of the walk: pushed, with its descendants, when it extends the name. */
  lemma ChildrenStep(files: seq<Component>, rank: map<string, nat>, name: string, k: nat)
    requires Ranked(files, rank) && k < |Top(files)|
    ensures Extends(TopNodeAt(files, k), name) ==>
      Height(rank, TopNodeAt(files, k).Name()) < Height(rank, name) &&
      ChildrenFrom(files, rank, name, k) ==
        [Top(files)[k]] + ChildClasses(files, rank, TopNodeAt(files, k).Name()) + ChildrenFrom(files, rank, name, k + 1)
    ensures !Extends(TopNodeAt(files, k), name) ==>
      ChildrenFrom(files, rank, name, k) == ChildrenFrom(files, rank, name, k + 1)
  {
    if Extends(TopNodeAt(files, k), name) {
      Lower(files, rank, k, name);
    }
  }

  /**
   * Everything `findChildClass` returns is a top-level part strictly lower
   * in the hierarchy than the component it starts from, so that component
   * is never among its own descendants.
   */
  lemma {:induction false} ChildrenBelow(files: seq<Component>, rank: map<string, nat>, name: string, k: nat)
    requires Ranked(files, rank) && k <= |Top(files)|
    ensures forall q :: q in ChildrenFrom(files, rank, name, k) ==>
      q in Top(files) && NodeAt(files, q).Some? && Height(rank, NodeAt(files, q).value.Name()) < Height(rank, name)
    decreases Height(rank, name), |Top(files)| - k
  {
    TopShape(files);
    if k < |Top(files)| {
      ChildrenBelow(files, rank, name, k + 1);
      var c := TopNodeAt(files, k);
      if Extends(c, name) {
        Lower(files, rank, k, name);
        ChildrenBelow(files, rank, c.Name(), 0);
      }
    }
  }

  /** Every top-level part that extends the name directly is returned. */
  lemma {:induction false} DirectChildrenFound(files: seq<Component>, rank: map<string, nat>, name: string, k: nat, j: nat)
    requires Ranked(files, rank) && k <= j < |Top(files)| && Extends(TopNodeAt(files, j), name)
    ensures Top(files)[j] in ChildrenFrom(files, rank, name, k)
    decreases j - k
  {
    if k < j {
      DirectChildrenFound(files, rank, name, k + 1, j);
      if Extends(TopNodeAt(files, k), name) { Lower(files, rank, k, name); }
    }
  }

  /**
   * The result is closed under the direct-child relation: a top-level part
   * that extends a returned component is returned too.
   */
  lemma {:induction false} ChildrenClosed(files: seq<Component>, rank: map<string, nat>, name: string, k: nat, q: Path, j: nat)
    requires Ranked(files, rank) && k <= |Top(files)| && j < |Top(files)|
    requires q in ChildrenFrom(files, rank, name, k) && NodeAt(files, q).Some?
    requires Extends(TopNodeAt(files, j), NodeAt(files, q).value.Name())
    ensures Top(files)[j] in ChildrenFrom(files, rank, name, k)
    decreases Height(rank, name), |Top(files)| - k
  {
    ChildrenBelow(files, rank, name, k);
    var c := TopNodeAt(files, k);
    var rest := ChildrenFrom(files, rank, name, k + 1);
    if Extends(c, name) {
      Lower(files, rank, k, name);
      var kids := ChildClasses(files, rank, c.Name());
      assert ChildrenFrom(files, rank, name, k) == [Top(files)[k]] + kids + rest;
      if q == Top(files)[k] {
        DirectChildrenFound(files, rank, c.Name(), 0, j);
      } else if q in kids {
        ChildrenClosed(files, rank, c.Name(), 0, q, j);
      } else {
        ChildrenClosed(files, rank, name, k + 1, q, j);
      }
    } else {
      ChildrenClosed(files, rank, name, k + 1, q, j);
    }
  }

  // ---------------------------------------------------------------- getImplements

  /**
   * `getImplements(files, comp)` for an interface named `name`, from the
   * top-level position `k` on, with the reset classes `cleared`: each
   * class that still implements the name is pushed, reset, and followed by
   * its descendants, which are reset too. The second component is the new
   * set of reset classes.
   */
  function ImplementersFrom(files: seq<Component>, rank: map<string, nat>, cleared: set<Path>, name: string, k: nat)
    : (seq<Path>, set<Path>)
    requires Ranked(files, rank) && k <= |Top(files)|
    decreases |Top(files)| - k
  {
    if k == |Top(files)| then ([], cleared)
    else
      var p := Top(files)[k];
      var c := TopNodeAt(files, k);
      if Implements(c, name) && p !in cleared then
        var kids := ChildClasses(files, rank, c.Name());
        var rest := ImplementersFrom(files, rank, cleared + {p} + ClassesAmong(files, kids), name, k + 1);
        ([p] + kids + rest.0, rest.1)
      else ImplementersFrom(files, rank, cleared, name, k + 1)
  }

  /**
   * `getImplements` resets exactly the classes it returns and nothing else,
   * and returns only top-level parts.
   */
  lemma {:induction false} ImplementersReset(files: seq<Component>, rank: map<string, nat>, cleared: set<Path>, name: string, k: nat)
    requires Ranked(files, rank) && k <= |Top(files)|
    ensures ImplementersFrom(files, rank, cleared, name, k).1 == cleared + ClassesAmong(files, ImplementersFrom(files, rank, cleared, name, k).0)
    ensures forall q :: q in ImplementersFrom(files, rank, cleared, name, k).0 ==> q in Top(files)
    decreases |Top(files)| - k
  {
    if k < |Top(files)| {
      var p := Top(files)[k];
      var c := TopNodeAt(files, k);
      if Implements(c, name) && p !in cleared {
        var kids := ChildClasses(files, rank, c.Name());
        ChildrenBelow(files, rank, c.Name(), 0);
        var c1 := cleared + {p} + ClassesAmong(files, kids);
        ImplementersReset(files, rank, c1, name, k + 1);
        var rest := ImplementersFrom(files, rank, c1, name, k + 1);
        ClassesAmongConcat(files, [p], kids);
        ClassesAmongConcat(files, [p] + kids, rest.0);
      } else {
        ImplementersReset(files, rank, cleared, name, k + 1);
      }
    }
  }

  function Implementers(files: seq<Component>, rank: map<string, nat>, cleared: set<Path>, name: string)
    : (r: (seq<Path>, set<Path>))
    requires Ranked(files, rank)
  {
    ImplementersFrom(files, rank, cleared, name, 0)
  }

  /**
   * A class that has been reset is not taken again, and a class that still
   * implements the interface is taken, unless a class before it pulled it in
   * as a descendant.
   */
  lemma {:induction false} ImplementersTake(files: seq<Component>, rank: map<string, nat>, cleared: set<Path>, name: string, k: nat, j: nat)
    requires Ranked(files, rank) && k <= j < |Top(files)|
    requires Implements(TopNodeAt(files, j), name) && Top(files)[j] !in cleared
    ensures Top(files)[j] in ImplementersFrom(files, rank, cleared, name, k).1
    decreases j - k
  {
    var p := Top(files)[k];
    var c := TopNodeAt(files, k);
    var r := ImplementersFrom(files, rank, cleared, name, k);
    if Implements(c, name) && p !in cleared {
      var kids := ChildClasses(files, rank, c.Name());
      var c1 := cleared + {p} + ClassesAmong(files, kids);
      var rest := ImplementersFrom(files, rank, c1, name, k + 1);
      assert r.1 == rest.1;
      ImplementersReset(files, rank, c1, name, k + 1);
      if k < j && Top(files)[j] !in c1 {
        ImplementersTake(files, rank, c1, name, k + 1, j);
      }
    } else {
      ImplementersTake(files, rank, cleared, name, k + 1, j);
    }
  }

  lemma ImplementersStep(files: seq<Component>, rank: map<string, nat>, cleared: set<Path>, name: string, k: nat)
    requires Ranked(files, rank) && k < |Top(files)|
    ensures var p := Top(files)[k];
            var c := TopNodeAt(files, k);
            var kids := ChildClasses(files, rank, c.Name());
            var rest := ImplementersFrom(files, rank, cleared + {p} + ClassesAmong(files, kids), name, k + 1);
            if Implements(c, name) && p !in cleared
            then ImplementersFrom(files, rank, cleared, name, k) == ([p] + kids + rest.0, rest.1)
            else ImplementersFrom(files, rank, cleared, name, k) == ImplementersFrom(files, rank, cleared, name, k + 1)
  {
  }

  // ---------------------------------------------------------------- getInterfaces

  /** `implementsInterfaces` of the component at `p`, as the resets have left it. */
  function ImplementedNow(files: seq<Component>, cleared: set<Path>, p: Path): seq<string>
  {
    if p in cleared then []
    else match NodeAt(files, p)
      case Some(c) => if c.Class? then c.implementsInterfaces else []
      case None => []
  }

  /** The nodes `findClass` gives for the names, in the names' order, dropping those it does not find. */
  function Resolve(files: seq<Component>, names: seq<string>): (r: seq<Path>)
    ensures |r| <= |names|
  {
    if names == [] then []
    else
      var here := (match FindIn(files, names[0]) case Some(q) => [q] case None => []);
      here + Resolve(files, names[1..])
  }

  /** Exactly the names `findClass` finds contribute, each with the node found. */
  lemma {:induction false} ResolveFound(files: seq<Component>, names: seq<string>)
    ensures forall q :: q in Resolve(files, names) ==> exists n :: n in names && FindIn(files, n) == Some(q)
    ensures forall n :: n in names && FindIn(files, n).Some? ==> FindIn(files, n).value in Resolve(files, names)
  {
    if names != [] {
      ResolveFound(files, names[1..]);
      forall q | q in Resolve(files, names) ensures exists n :: n in names && FindIn(files, n) == Some(q) {
        if q !in Resolve(files, names[1..]) {
          assert FindIn(files, names[0]) == Some(q);
        } else {
          var n :| n in names[1..] && FindIn(files, n) == Some(q);
          assert n in names;
        }
      }
      forall n | n in names && FindIn(files, n).Some? ensures FindIn(files, n).value in Resolve(files, names) {
        if n != names[0] { assert n in names[1..]; }
      }
    }
  }

  /** Every node `Resolve` gives is a node of the tree. */
  lemma {:induction false} ResolveNodes(files: seq<Component>, names: seq<string>)
    ensures forall q :: q in Resolve(files, names) ==> NodeAt(files, q).Some?
  {
    if names != [] {
      FindInNamed(files, names[0]);
      ResolveNodes(files, names[1..]);
    }
  }

  /** `getInterfaces(files, comp)`. */
  function InterfacesOf(files: seq<Component>, cleared: set<Path>, p: Path): seq<Path>
  {
    Resolve(files, ImplementedNow(files, cleared, p))
  }

  lemma {:induction false} ResolveConcat(files: seq<Component>, a: seq<string>, b: seq<string>)
    ensures Resolve(files, a + b) == Resolve(files, a) + Resolve(files, b)
  {
    if a == [] {
      assert a + b == b;
    } else {
      assert (a + b)[0] == a[0];
      assert (a + b)[1..] == a[1..] + b;
      ResolveConcat(files, a[1..], b);
    }
  }

  /**
   * The interfaces come in `implementsInterfaces` order: appending a name
   * appends its node when `findClass` finds it and nothing otherwise.
   */
  lemma ResolveOrder(files: seq<Component>, names: seq<string>, n: string)
    ensures FindIn(files, n).None? ==> Resolve(files, names + [n]) == Resolve(files, names)
    ensures FindIn(files, n).Some? ==> Resolve(files, names + [n]) == Resolve(files, names) + [FindIn(files, n).value]
  {
    ResolveConcat(files, names, [n]);
    assert [n][1..] == [];
  }

  /** One name of a suffix of the list: its node when `findClass` finds it, then the rest. */
  lemma ResolveStep(files: seq<Component>, names: seq<string>, k: nat)
    requires k < |names|
    ensures Resolve(files, names[k..]) ==
      (match FindIn(files, names[k]) case Some(q) => [q] case None => []) + Resolve(files, names[k + 1..])
  {
    assert names[k..][0] == names[k];
    assert names[k..][1..] == names[k + 1..];
  }

  /** The loop of `getInterfaces`: `findClass` for each name, keeping what it finds. */
  method ResolveNames(files: seq<Component>, names: seq<string>) returns (res: seq<Path>)
    ensures res == Resolve(files, names)
  {
    res := [];
    var k := 0;
    while k < |names|
      invariant 0 <= k <= |names|
      invariant res + Resolve(files, names[k..]) == Resolve(files, names)
    {
      ResolveStep(files, names, k);
      var found := FindIn(files, names[k]);
      if found.Some? {
        Text.AppendAssoc(res, [found.value], Resolve(files, names[k + 1..]));
        res := res + [found.value];
      }
      k := k + 1;
    }
  }

  // ---------------------------------------------------------------- the ancestor walk

  /** The components pushed so far and the classes reset so far. */
  datatype State = State(cleared: set<Path>, out: seq<Path>)

  /**
   * One lookup of the ancestor loop: the node `findClass` finds for the
   * name is pushed; a class adds its interfaces, an interface its
   * implementing classes.
   */
  function Lookup(files: seq<Component>, rank: map<string, nat>, w: State, name: string): State
    requires Ranked(files, rank)
  {
    FindInNamed(files, name);
    match FindIn(files, name)
    case None => w
    case Some(q) =>
      var c := NodeAt(files, q).value;
      if c.Class? then State(w.cleared, w.out + [q] + InterfacesOf(files, w.cleared, q))
      else if c.Interface? then
        var im := Implementers(files, rank, w.cleared, c.name);
        State(im.1, w.out + [q] + im.0)
      else State(w.cleared, w.out + [q])
  }

  /** What a lookup appends to the queue: a class's `extendsClass` when it is set, an interface's `extendsInterface`. */
  function Queued(files: seq<Component>, name: string): seq<string>
  {
    FindInNamed(files, name);
    match FindIn(files, name)
    case None => []
    case Some(q) => ParentNames(NodeAt(files, q).value)
  }

  /**
   * The loop of src/tplant.ts:115-130 as written, from the queue `p2` at
   * the for-loop index `i`: the element at `i` is looked up, while
   * `shift` drops the first element, and the for-loop restarts at 0
   * while the queue is non-empty. `None` when it takes more than `fuel`
   * lookups (on a cyclic hierarchy the source never stops).
   */
  function Climbing(files: seq<Component>, rank: map<string, nat>, w: State, p2: seq<string>, i: nat, fuel: nat): Option<State>
    requires Ranked(files, rank)
    decreases fuel, if i < |p2| then 0 else 1
  {
    if i < |p2| then
      if fuel == 0 then None
      else
        Climbing(files, rank, Lookup(files, rank, w, p2[i]), p2[1..] + Queued(files, p2[i]), i + 1, fuel - 1)
    else if p2 == [] then Some(w)
    else Climbing(files, rank, w, p2, 0, fuel)
  }

  /** `parent.forEach(...)`: one walk per parent name, each starting from a queue holding just that name. */
  function ParentsWalk(files: seq<Component>, rank: map<string, nat>, w: State, parents: seq<string>, fuel: nat): Option<State>
    requires Ranked(files, rank)
    decreases |parents|
  {
    if parents == [] then Some(w)
    else
      match Climbing(files, rank, w, [parents[0]], 0, fuel)
      case None => None
      case Some(w') => ParentsWalk(files, rank, w', parents[1..], fuel)
  }

  /** The parents of the target: `[extendsClass]` when it is set, `extendsInterface` for an interface. */
  function ParentNames(c: Component): seq<string>
  {
    if c.Class? then (if Truthy(c.extendsClass) then [c.extendsClass.value] else [])
    else if c.Interface? then c.extendsInterface
    else []
  }

  /**
   * The target-class branch of `convertToPlant`: the target, its ancestors,
   * its interfaces when it is a class, then its descendants; nothing when
   * the target is not found.
   */
  function TargetSelection(files: seq<Component>, rank: map<string, nat>, cleared: set<Path>, name: string, fuel: nat)
    : Option<State>
    requires Ranked(files, rank)
  {
    FindInNamed(files, name);
    match FindIn(files, name)
    case None => Some(State(cleared, []))
    case Some(t) =>
      var c := NodeAt(files, t).value;
      match ParentsWalk(files, rank, State(cleared, [t]), ParentNames(c), fuel)
      case None => None
      case Some(w) =>
        var w2 := if c.Class? then State(w.cleared, w.out + InterfacesOf(files, w.cleared, t)) else w;
        var kids := ChildClasses(files, rank, c.Name());
        Some(State(w2.cleared + ClassesAmong(files, kids), w2.out + kids))
  }

  // ---------------------------------------------------------------- properties of the walk

  /** The lookups of `ns`, one after the other. */
  function LookupAll(files: seq<Component>, rank: map<string, nat>, w: State, ns: seq<string>): State
    requires Ranked(files, rank)
    decreases |ns|
  {
    if ns == [] then w else LookupAll(files, rank, Lookup(files, rank, w, ns[0]), ns[1..])
  }

  /**
   * A linear extends chain: each name's lookup queues exactly the next
   * name (a class found with that `extendsClass`, or an interface
   * extending just that name), and the last one queues nothing (it has no
   * parent, or it is not found).
   */
  predicate Chain(files: seq<Component>, ns: seq<string>)
  {
    ns != [] &&
    (forall i :: 0 <= i < |ns| - 1 ==> Queued(files, ns[i]) == [ns[i + 1]]) &&
    Queued(files, ns[|ns| - 1]) == []
  }

  /** A queue holding one name: it is looked up, then the loop goes on with what it queued. */
  lemma ClimbOne(files: seq<Component>, rank: map<string, nat>, w: State, n: string, fuel: nat)
    requires Ranked(files, rank)
    ensures Climbing(files, rank, w, [n], 0, fuel + 1)
         == Climbing(files, rank, Lookup(files, rank, w, n), Queued(files, n), 1, fuel)
  {
    assert [n][1..] + Queued(files, n) == Queued(files, n);
  }

  /** Along a linear chain the loop looks the ancestors up nearest-first, each once. */
  lemma {:induction false} ChainNearestFirst(files: seq<Component>, rank: map<string, nat>, w: State, ns: seq<string>, fuel: nat)
    requires Ranked(files, rank) && Chain(files, ns)
    ensures Climbing(files, rank, w, [ns[0]], 0, |ns| + fuel) == Some(LookupAll(files, rank, w, ns))
    decreases |ns|
  {
    var w1 := Lookup(files, rank, w, ns[0]);
    ClimbOne(files, rank, w, ns[0], |ns| - 1 + fuel);
    assert LookupAll(files, rank, w, ns) == LookupAll(files, rank, w1, ns[1..]);
    var rest := ns[1..];
    if |ns| == 1 {
      assert rest == [];
    } else {
      assert Queued(files, ns[0]) == [rest[0]];
      assert Climbing(files, rank, w1, [rest[0]], 1, |rest| + fuel) == Climbing(files, rank, w1, [rest[0]], 0, |rest| + fuel);
      assert Chain(files, rest) by {
        forall i | 0 <= i < |rest| - 1 ensures Queued(files, rest[i]) == [rest[i + 1]] {
          assert rest[i] == ns[i + 1] && rest[i + 1] == ns[i + 2];
        }
      }
      ChainNearestFirst(files, rank, w1, rest, fuel);
    }
  }

  /** A parent name that `findClass` does not find is dropped: nothing is pushed and the walk ends. */
  lemma UnresolvedParentDropped(files: seq<Component>, rank: map<string, nat>, w: State, n: string, fuel: nat)
    requires Ranked(files, rank) && FindIn(files, n).None?
    ensures Climbing(files, rank, w, [n], 0, fuel + 1) == Some(w)
  {
    assert [n][1..] == [];
    assert Climbing(files, rank, w, [n], 0, fuel + 1) == Climbing(files, rank, w, [], 1, fuel);
  }

  /**
   * With two new parents `a` and `b` queued, the second iteration of the
   * for-loop reads index 1, so it looks up `b` while `shift` drops `a`:
   * `a` is never looked up, and `b` stays at the head of the queue.
   */
  lemma SecondParentFirst(files: seq<Component>, rank: map<string, nat>, w: State, n: string, a: string, b: string, fuel: nat)
    requires Ranked(files, rank) && Queued(files, n) == [a, b]
    ensures Climbing(files, rank, w, [n], 0, fuel + 2)
         == Climbing(files, rank, Lookup(files, rank, Lookup(files, rank, w, n), b), [b] + Queued(files, b), 2, fuel)
  {
    assert [n][1..] + [a, b] == [a, b];
    assert [a, b][1] == b && [a, b][1..] == [b];
  }

  /** When `b` has no parent of its own, `b` is looked up twice and `a` not at all. */
  lemma SecondParentTwice(files: seq<Component>, rank: map<string, nat>, w: State, n: string, a: string, b: string)
    requires Ranked(files, rank) && Queued(files, n) == [a, b] && Queued(files, b) == []
    ensures Climbing(files, rank, w, [n], 0, 3)
         == Some(Lookup(files, rank, Lookup(files, rank, Lookup(files, rank, w, n), b), b))
  {
    SecondParentFirst(files, rank, w, n, a, b, 1);
    var w2 := Lookup(files, rank, Lookup(files, rank, w, n), b);
    assert [b] + Queued(files, b) == [b];
    assert Climbing(files, rank, w2, [b], 2, 1) == Climbing(files, rank, w2, [b], 0, 1);
    assert [b][1..] == [];
    assert Climbing(files, rank, w2, [b], 0, 1) == Climbing(files, rank, Lookup(files, rank, w2, b), [], 1, 0);
  }

  /** The top-level classes: the only components whose `implementsInterfaces` is ever reset. */
  function TopClasses(files: seq<Component>): set<Path>
  {
    ClassesAmong(files, Top(files))
  }

  /** Only top-level classes have been reset, and every pushed path names a node. */
  ghost predicate Sound(files: seq<Component>, w: State)
  {
    w.cleared <= TopClasses(files) && forall q :: q in w.out ==> NodeAt(files, q).Some?
  }

  /** One lookup keeps the state sound and only appends to it. */
  lemma LookupSound(files: seq<Component>, rank: map<string, nat>, w: State, n: string)
    requires Ranked(files, rank) && Sound(files, w)
    ensures Sound(files, Lookup(files, rank, w, n))
    ensures w.out <= Lookup(files, rank, w, n).out && w.cleared <= Lookup(files, rank, w, n).cleared
  {
    FindInNamed(files, n);
    match FindIn(files, n)
    case None =>
    case Some(q) =>
      var c := NodeAt(files, q).value;
      if c.Class? {
        ResolveNodes(files, ImplementedNow(files, w.cleared, q));
      } else if c.Interface? {
        ImplementersReset(files, rank, w.cleared, c.name, 0);
        TopShape(files);
      }
  }

  lemma {:induction false} ClimbingSound(files: seq<Component>, rank: map<string, nat>, w: State, p2: seq<string>, i: nat, fuel: nat)
    requires Ranked(files, rank) && Sound(files, w)
    ensures Climbing(files, rank, w, p2, i, fuel).Some? ==>
      var w' := Climbing(files, rank, w, p2, i, fuel).value;
      Sound(files, w') && w.out <= w'.out && w.cleared <= w'.cleared
    decreases fuel, if i < |p2| then 0 else 1
  {
    if i < |p2| {
      if fuel > 0 {
        LookupSound(files, rank, w, p2[i]);
        ClimbingSound(files, rank, Lookup(files, rank, w, p2[i]), p2[1..] + Queued(files, p2[i]), i + 1, fuel - 1);
      }
    } else if p2 != [] {
      ClimbingSound(files, rank, w, p2, 0, fuel);
    }
  }

  lemma {:induction false} ParentsWalkSound(files: seq<Component>, rank: map<string, nat>, w: State, parents: seq<string>, fuel: nat)
    requires Ranked(files, rank) && Sound(files, w)
    ensures ParentsWalk(files, rank, w, parents, fuel).Some? ==>
      var w' := ParentsWalk(files, rank, w, parents, fuel).value;
      Sound(files, w') && w.out <= w'.out && w.cleared <= w'.cleared
    decreases |parents|
  {
    if parents != [] {
      ClimbingSound(files, rank, w, [parents[0]], 0, fuel);
      match Climbing(files, rank, w, [parents[0]], 0, fuel)
      case None =>
      case Some(w') => ParentsWalkSound(files, rank, w', parents[1..], fuel);
    }
  }

  /**
   * The rendered list of the target-class branch: empty when the target is
   * not found; otherwise the target comes first and its descendants last.
   * Every entry names a node of the tree, and only top-level classes have
   * had `implementsInterfaces` reset.
   */
  lemma TargetShape(files: seq<Component>, rank: map<string, nat>, cleared: set<Path>, name: string, fuel: nat)
    requires Ranked(files, rank) && cleared <= TopClasses(files)
    ensures TargetSelection(files, rank, cleared, name, fuel).Some? ==>
      var st := TargetSelection(files, rank, cleared, name, fuel).value;
      Sound(files, st) && cleared <= st.cleared &&
      (FindIn(files, name).None? ==> st.out == [] && st.cleared == cleared) &&
      (FindIn(files, name).Some? ==>
        var t := FindIn(files, name).value;
        var kids := ChildClasses(files, rank, name);
        st.out != [] && st.out[0] == t && |kids| <= |st.out| && st.out[|st.out| - |kids|..] == kids)
  {
    FindInNamed(files, name);
    match FindIn(files, name)
    case None =>
    case Some(t) =>
      var c := NodeAt(files, t).value;
      var w0 := State(cleared, [t]);
      ParentsWalkSound(files, rank, w0, ParentNames(c), fuel);
      match ParentsWalk(files, rank, w0, ParentNames(c), fuel)
      case None =>
      case Some(w) =>
        var w2 := if c.Class? then State(w.cleared, w.out + InterfacesOf(files, w.cleared, t)) else w;
        if c.Class? { ResolveNodes(files, ImplementedNow(files, w.cleared, t)); }
        var kids := ChildClasses(files, rank, c.Name());
        ChildrenBelow(files, rank, c.Name(), 0);
        var st := State(w2.cleared + ClassesAmong(files, kids), w2.out + kids);
        assert st.out[..|w2.out|] == w2.out;
        assert st.out[|st.out| - |kids|..] == kids;
  }

  // ---------------------------------------------------------------- the subsetting state

  /**
   * The component tree `convertToPlant` subsets and the classes whose
   * `implementsInterfaces` has been reset so far. `rank` witnesses that
   * the extends hierarchy has no cycle.
   */
  class Subset {
    const files: seq<Component>
    ghost const rank: map<string, nat>
    var cleared: set<Path>

    ghost predicate Valid()
    {
      Ranked(files, rank)
    }

    constructor(files: seq<Component>, ghost rank: map<string, nat>)
      requires Ranked(files, rank)
      ensures this.files == files && this.rank == rank && cleared == {}
      ensures Valid()
    {
      this.files := files;
      this.rank := rank;
      cleared := {};
    }

    /** `getInterfaces(files, comp)` for the class at `p`. */
    method GetInterfaces(p: Path) returns (res: seq<Path>)
      ensures res == InterfacesOf(files, cleared, p)
    {
      var impls := ImplementedNow(files, cleared, p);
      res := ResolveNames(files, impls);
    }

    /** `findChildClass(files, comp)` for a component named `name`; the classes it pushes are reset. */
    method FindChildClass(name: string) returns (res: seq<Path>)
      requires Valid()
      modifies this`cleared
      ensures res == ChildClasses(files, rank, name)
      ensures cleared == old(cleared) + ClassesAmong(files, res)
      decreases Height(rank, name)
    {
      var top := Top(files);
      res := [];
      var k := 0;
      while k < |top|
        invariant 0 <= k <= |top|
        invariant res + ChildrenFrom(files, rank, name, k) == ChildClasses(files, rank, name)
        invariant cleared == old(cleared) + ClassesAmong(files, res)
      {
        var p := top[k];
        var c := TopNodeAt(files, k);
        ChildrenStep(files, rank, name, k);
        if (c.Class? && c.extendsClass == Some(name)) || (c.Interface? && name != "" && name in c.extendsInterface) {
          ghost var res0 := res;
          ClassesAmongConcat(files, res, [p]);
          res := res + [p];
          if c.Class? {
            cleared := cleared + {p};
          }
          var sub := FindChildClass(c.Name());
          ClassesAmongConcat(files, res, sub);
          ghost var rest := ChildrenFrom(files, rank, name, k + 1);
          Text.AppendAssoc(res, sub, rest);
          Text.AppendAssoc(res0, [p], sub + rest);
          Text.AppendAssoc([p], sub, rest);
          res := res + sub;
        }
        k := k + 1;
      }
    }

    /** `getImplements(files, comp)` for an interface named `name`. */
    method GetImplements(name: string) returns (res: seq<Path>)
      requires Valid()
      modifies this`cleared
      ensures (res, cleared) == Implementers(files, rank, old(cleared), name)
    {
      var top := Top(files);
      ghost var goal := Implementers(files, rank, cleared, name);
      res := [];
      assert res + goal.0 == goal.0;
      var k := 0;
      while k < |top|
        invariant 0 <= k <= |top|
        invariant res + ImplementersFrom(files, rank, cleared, name, k).0 == goal.0
        invariant ImplementersFrom(files, rank, cleared, name, k).1 == goal.1
      {
        var p := top[k];
        var c := TopNodeAt(files, k);
        ImplementersStep(files, rank, cleared, name, k);
        if c.Class? && name != "" && name in c.implementsInterfaces && p !in cleared {
          ghost var res0 := res;
          res := res + [p];
          cleared := cleared + {p};
          var sub := FindChildClass(c.Name());
          ghost var rest := ImplementersFrom(files, rank, cleared, name, k + 1).0;
          Text.AppendAssoc(res, sub, rest);
          Text.AppendAssoc(res0, [p], sub + rest);
          Text.AppendAssoc([p], sub, rest);
          res := res + sub;
        }
        k := k + 1;
      }
      assert ImplementersFrom(files, rank, cleared, name, k) == ([], cleared);
      assert res + [] == res;
    }

    /**
     * The loop of src/tplant.ts:114-131 for one parent name `p`, appending
     * to `parts`; `complete` is false when it would take more than `fuel`
     * lookups.
     */
    method Climb(parts: seq<Path>, p: string, fuel: nat) returns (out: seq<Path>, complete: bool)
      requires Valid()
      modifies this`cleared
      ensures complete <==> Climbing(files, rank, State(old(cleared), parts), [p], 0, fuel).Some?
      ensures complete ==> Climbing(files, rank, State(old(cleared), parts), [p], 0, fuel) == Some(State(cleared, out))
    {
      ghost var goal := Climbing(files, rank, State(cleared, parts), [p], 0, fuel);
      var p2 := [p];
      var steps := 0;
      out := parts;
      while p2 != []
        invariant steps <= fuel
        invariant Climbing(files, rank, State(cleared, out), p2, 0, fuel - steps) == goal
        decreases fuel - steps
      {
        ghost var entry, s0 := p2, steps;
        var i := 0;
        while i < |p2|
          invariant steps <= fuel && i == steps - s0
          invariant i == 0 ==> p2 == entry
          invariant Climbing(files, rank, State(cleared, out), p2, i, fuel - steps) == goal
          decreases fuel - steps
        {
          if steps == fuel {
            return out, false;
          }
          ghost var look := Lookup(files, rank, State(cleared, out), p2[i]);
          var p3 := p2[i];
          p2 := p2[1..];
          ghost var rest := p2;
          var found := FindIn(files, p3);
          FindInNamed(files, p3);
          if found.Some? {
            var c := NodeAt(files, found.value).value;
            out := out + [found.value];
            if c.Class? {
              var interfaces := GetInterfaces(found.value);
              out := out + interfaces;
              p2 := p2 + (if Truthy(c.extendsClass) then [c.extendsClass.value] else []);
            } else if c.Interface? {
              var implementers := GetImplements(c.name);
              out := out + implementers;
              p2 := p2 + c.extendsInterface;
            }
          }
          assert State(cleared, out) == look && p2 == rest + Queued(files, p3);
          i := i + 1;
          steps := steps + 1;
        }
      }
      complete := true;
    }

    /** `parent.forEach(...)`: the loop above once per parent name, in order. */
    method AddAncestors(parts: seq<Path>, parents: seq<string>, fuel: nat) returns (out: seq<Path>, complete: bool)
      requires Valid()
      modifies this`cleared
      ensures complete <==> ParentsWalk(files, rank, State(old(cleared), parts), parents, fuel).Some?
      ensures complete ==> ParentsWalk(files, rank, State(old(cleared), parts), parents, fuel) == Some(State(cleared, out))
    {
      ghost var goal := ParentsWalk(files, rank, State(cleared, parts), parents, fuel);
      out := parts;
      var k := 0;
      while k < |parents|
        invariant 0 <= k <= |parents|
        invariant ParentsWalk(files, rank, State(cleared, out), parents[k..], fuel) == goal
      {
        assert parents[k..][0] == parents[k] && parents[k..][1..] == parents[k + 1..];
        var ok;
        out, ok := Climb(out, parents[k], fuel);
        if !ok {
          return out, false;
        }
        k := k + 1;
      }
      complete := true;
    }

    /** The target-class branch of `convertToPlant`: the list of components it renders. */
    method SelectTarget(name: string, fuel: nat) returns (parts: seq<Path>, complete: bool)
      requires Valid()
      modifies this`cleared
      ensures complete <==> TargetSelection(files, rank, old(cleared), name, fuel).Some?
      ensures complete ==> TargetSelection(files, rank, old(cleared), name, fuel) == Some(State(cleared, parts))
    {
      var target := FindIn(files, name);
      FindInNamed(files, name);
      parts := [];
      if target.Some? {
        var t := target.value;
        var c := NodeAt(files, t).value;
        parts := [t];
        var ok;
        parts, ok := AddAncestors(parts, ParentNames(c), fuel);
        if !ok {
          return parts, false;
        }
        if c.Class? {
          var interfaces := GetInterfaces(t);
          parts := parts + interfaces;
        }
        var descendants := FindChildClass(c.Name());
        parts := parts + descendants;
      }
      complete := true;
    }
  }
}
