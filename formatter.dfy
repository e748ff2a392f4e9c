/**
 * The formatter of src/Models/Formatter.ts (with the PlantUML format of
 * src/Formatter/PlantUMLFormat.ts, which extends it): the registries it
 * keeps, `serialize`, `initializeRegistry`, `getMappedTypes`,
 * `createAssociations` and `renderFiles` with its missing-type loop.
 */
module Formatter {
  import opened Wrappers
  import opened Text
  import opened Model
  import opened PlantUml
  import opened Associations

  // ---------------------------------------------------------------- serialization

  /** The line of one member inside a class or interface block; empty lines are left out by the block. */
  function MemberText(opts: Options, m: Member): (r: string)
    ensures m.MethodMember? ==> (r == "" <==> opts.onlyAssociations)
    ensures m.PropertyMember? ==> (r == "" <==> opts.onlyAssociations && !IsComplexType(Join(m.p.returnType, " | ")))
    ensures m.MethodMember? && r != "" ==> r == MethodLine(m.m)
    ensures m.PropertyMember? && r != "" ==> r == PropertyLine(m.p)
  {
    match m
    case MethodMember(x) => if opts.onlyAssociations then "" else MethodLine(x)
    case PropertyMember(x) =>
      if !opts.onlyAssociations || IsComplexType(Join(x.returnType, " | ")) then PropertyLine(x) else ""
  }

  function MemberTexts(opts: Options, ms: seq<Member>): (r: seq<string>)
    ensures |r| == |ms| && forall k :: 0 <= k < |ms| ==> r[k] == MemberText(opts, ms[k])
  {
    if ms == [] then [] else [MemberText(opts, ms[0])] + MemberTexts(opts, ms[1..])
  }

  /** `serializeClass`: the class's full name is replaced by its placeholder when it needs one. */
  function ClassText(opts: Options, reg: map<string, string>, c: Component): (res: (string, map<string, string>))
    requires c.Class?
  {
    var (alias, reg1) := Anonymize(reg, FullName(c));
    (Join(MemberBlock(ClassHead(c, alias, opts.onlyClasses), |c.members|, MemberTexts(opts, c.members)), EOL), reg1)
  }

  function InterfaceText(opts: Options, c: Component): string
    requires c.Interface?
  {
    Join(MemberBlock(InterfaceHead(c), |c.members|, MemberTexts(opts, c.members)), EOL)
  }

  /** A component instance is shown unless onlyAssociations hides it or the path pattern rejects it. */
  predicate InstanceShown(opts: Options, i: ComponentInstance, ignoreOnlyAssociations: bool)
  {
    !(opts.onlyAssociations && !ignoreOnlyAssociations) &&
    (opts.pathPattern.None? || Matches(opts.pathPattern, i.componentPath))
  }

  /** `serialize`: the text of a component, threading the placeholder registry. */
  function SerializeText(opts: Options, reg: map<string, string>, c: Component, ignoreOnlyAssociations: bool)
    : (res: (string, map<string, string>))
    decreases c, 1
  {
    match c
    case Class(_, _, _, _, _, _, _, _, _, _, _, _, _) => ClassText(opts, reg, c)
    case File(_, parts) =>
      var (texts, reg1) := PartTexts(opts, reg, parts);
      (Join(texts, EOL), reg1)
    case Enum(_, _, _, _) => (Join(EnumLines(c), EOL), reg)
    case Interface(_, _, _, _, _, _, _) => (InterfaceText(opts, c), reg)
    case Namespace(_, _, _, parts) =>
      var (texts, reg1) := PartTexts(opts, reg, parts);
      (Join(NamespaceLines(c, texts), EOL), reg1)
    case Instance(i) => (if InstanceShown(opts, i, ignoreOnlyAssociations) then InstanceText(i) else "", reg)
  }

  /** The texts of the parts of a file or namespace, in order. */
  function PartTexts(opts: Options, reg: map<string, string>, parts: seq<Component>)
    : (res: (seq<string>, map<string, string>))
    ensures |res.0| == |parts|
    decreases parts, 0
  {
    if parts == [] then ([], reg)
    else
      var (texts, reg1) := PartTexts(opts, reg, parts[..|parts| - 1]);
      var (t, reg2) := SerializeText(opts, reg1, parts[|parts| - 1], false);
      (texts + [t], reg2)
  }

  /** The keys `serialize` records in the serialized-entity registry. */
  function Registered(opts: Options, c: Component, ignoreOnlyAssociations: bool): (r: set<string>)
    ensures c.IsEntity() ==> r == {FullName(c)}
    ensures c.Instance? ==> r == (if InstanceShown(opts, c.instance, ignoreOnlyAssociations) then {c.instance.componentPath} else {})
    decreases c, 1
  {
    match c
    case File(_, parts) => RegisteredParts(opts, parts)
    case Namespace(_, _, _, parts) => RegisteredParts(opts, parts)
    case Instance(i) => if InstanceShown(opts, i, ignoreOnlyAssociations) then {i.componentPath} else {}
    case _ => {FullName(c)}
  }

  function RegisteredParts(opts: Options, parts: seq<Component>): set<string>
    decreases parts, 0
  {
    if parts == [] then {} else RegisteredParts(opts, parts[..|parts| - 1]) + Registered(opts, parts[|parts| - 1], false)
  }

  /** One more part adds its text and its registrations after the others'. */
  lemma PartsStep(opts: Options, reg: map<string, string>, parts: seq<Component>, k: nat)
    requires k < |parts|
    ensures var (texts, reg1) := PartTexts(opts, reg, parts[..k]);
      var (t, reg2) := SerializeText(opts, reg1, parts[k], false);
      PartTexts(opts, reg, parts[..k + 1]) == (texts + [t], reg2)
    ensures RegisteredParts(opts, parts[..k + 1]) == RegisteredParts(opts, parts[..k]) + Registered(opts, parts[k], false)
  {
    assert parts[..k + 1][..k] == parts[..k];
  }

  /** Every class, interface and enum declared in a file or namespace is registered under its full name. */
  lemma {:induction false} DeclaredAreRegistered(opts: Options, c: Component, ignoreOnlyAssociations: bool)
    ensures forall e :: e in DeclaredIn(c) ==> FullName(e) in Registered(opts, c, ignoreOnlyAssociations)
    decreases c, 1
  {
    match c
    case File(_, parts) => DeclaredPartsRegistered(opts, parts);
    case Namespace(_, _, _, parts) => DeclaredPartsRegistered(opts, parts);
    case Instance(_) =>
    case _ =>
  }

  lemma {:induction false} DeclaredPartsRegistered(opts: Options, parts: seq<Component>)
    ensures forall e :: e in DeclaredEntities(parts) ==> FullName(e) in RegisteredParts(opts, parts)
    decreases parts, 0
  {
    if parts != [] {
      var init, last := parts[..|parts| - 1], parts[|parts| - 1];
      DeclaredPartsRegistered(opts, init);
      DeclaredAreRegistered(opts, last, false);
      DeclaredEntitiesAppend(init, [last]);
      assert init + [last] == parts;
      assert DeclaredEntities([last]) == DeclaredIn(last) + DeclaredEntities([]);
    }
  }

  lemma {:induction false} DeclaredEntitiesAppend(a: seq<Component>, b: seq<Component>)
    ensures DeclaredEntities(a + b) == DeclaredEntities(a) + DeclaredEntities(b)
  {
    if a == [] {
      assert a + b == b;
    } else {
      assert (a + b)[1..] == a[1..] + b;
      DeclaredEntitiesAppend(a[1..], b);
    }
  }

  /** Under onlyAssociations, method lines disappear and property lines stay only for complex types. */
  lemma OnlyAssociationsMembers(opts: Options, ms: seq<Member>)
    requires opts.onlyAssociations
    ensures forall k :: 0 <= k < |ms| ==>
      (MemberTexts(opts, ms)[k] != "" <==> ms[k].PropertyMember? && IsComplexType(Join(ms[k].p.returnType, " | ")))
  {
  }

  // ---------------------------------------------------------------- entity registry

  /** Registering entities in order: later entities with the same full name replace earlier ones. */
  function RegisterAll(ents: map<string, Component>, es: seq<Component>): (r: map<string, Component>)
    ensures ents.Keys <= r.Keys
    decreases |es|
  {
    if es == [] then ents else RegisterAll(ents[FullName(es[0]) := es[0]], es[1..])
  }

  /** The registry holds exactly the names it had and the full names of the registered entities. */
  lemma {:induction false} RegisterAllKeys(ents: map<string, Component>, es: seq<Component>)
    ensures forall k :: k in RegisterAll(ents, es) <==> k in ents || exists j :: 0 <= j < |es| && FullName(es[j]) == k
    decreases |es|
  {
    if es != [] {
      RegisterAllKeys(ents[FullName(es[0]) := es[0]], es[1..]);
      assert forall j :: 0 <= j < |es| - 1 ==> es[1..][j] == es[j + 1];
      forall k | k in RegisterAll(ents, es) ensures k in ents || exists j :: 0 <= j < |es| && FullName(es[j]) == k {
        if k !in ents && k != FullName(es[0]) {
          assert k !in ents[FullName(es[0]) := es[0]];
          var j :| 0 <= j < |es| - 1 && FullName(es[1..][j]) == k;
          assert FullName(es[j + 1]) == k;
        }
      }
    }
  }

  lemma {:induction false} RegisterAllAppend(ents: map<string, Component>, a: seq<Component>, b: seq<Component>)
    ensures RegisterAll(ents, a + b) == RegisterAll(RegisterAll(ents, a), b)
    decreases |a|
  {
    if a == [] {
      assert a + b == b;
    } else {
      assert (a + b)[1..] == a[1..] + b;
      RegisterAllAppend(ents[FullName(a[0]) := a[0]], a[1..], b);
    }
  }

  /** The entity stored under a full name is the last registered entity with that name. */
  lemma {:induction false} RegisterAllLastWins(ents: map<string, Component>, es: seq<Component>, j: nat)
    requires j < |es|
    requires forall k :: j < k < |es| ==> FullName(es[k]) != FullName(es[j])
    ensures FullName(es[j]) in RegisterAll(ents, es) && RegisterAll(ents, es)[FullName(es[j])] == es[j]
    decreases j
  {
    var ents1 := ents[FullName(es[0]) := es[0]];
    assert RegisterAll(ents, es) == RegisterAll(ents1, es[1..]);
    if j == 0 {
      forall k | 0 <= k < |es[1..]| ensures FullName(es[1..][k]) != FullName(es[0]) {
        assert es[1..][k] == es[k + 1];
      }
      RegisterAllUntouched(ents1, es[1..], FullName(es[0]));
    } else {
      forall k | j - 1 < k < |es[1..]| ensures FullName(es[1..][k]) != FullName(es[1..][j - 1]) {
        assert es[1..][k] == es[k + 1];
      }
      RegisterAllLastWins(ents1, es[1..], j - 1);
      assert es[1..][j - 1] == es[j];
    }
  }

  lemma {:induction false} RegisterAllUntouched(ents: map<string, Component>, es: seq<Component>, key: string)
    requires key in ents
    requires forall k :: 0 <= k < |es| ==> FullName(es[k]) != key
    ensures key in RegisterAll(ents, es) && RegisterAll(ents, es)[key] == ents[key]
    decreases |es|
  {
    if es != [] {
      assert forall k :: 0 <= k < |es| - 1 ==> es[1..][k] == es[k + 1];
      RegisterAllUntouched(ents[FullName(es[0]) := es[0]], es[1..], key);
    }
  }

  // ---------------------------------------------------------------- mapped types

  /** `this.options.targetClass` is set (and non-empty). */
  predicate TargetMembersMode(opts: Options)
  {
    opts.targetClass.Some? && opts.targetClass.value != ""
  }

  /**
   * The key of a class or interface given to `getMappedTypes` directly: the
   * module, then the namespace and the name when there is a module; the bare
   * name otherwise.
   */
  function TargetKey(c: Component): (r: string)
    requires c.Class? || c.Interface?
    ensures c.moduleName == "" ==> r == c.name
    ensures c.moduleName != "" && c.namespace != "" && c.name != "" ==> r == c.moduleName + "." + c.namespace + "." + c.name
  {
    if c.moduleName == "" then c.name
    else c.moduleName + (if c.namespace != "" then "." + c.namespace else "") + (if c.name != "" then "." + c.name else "")
  }

  /** A slot read as a string: an unwritten slot prints as `undefined`. */
  function SlotText(o: Option<string>): string
  {
    if o.Some? then o.value else "undefined"
  }

  /**
   * The type keys of one member's return slots in target-class mode: defined
   * full names without `|` (in the full or simple name) that are complex,
   * prefixed by the slot's module unless that module is `""`.
   */
  function SlotKeys(m: Member, i: nat): (r: seq<string>)
    decreases |m.FullNames()| - i
  {
    var full, rt := m.FullNames(), m.ReturnType();
    if i >= |full| then []
    else
      var rest := SlotKeys(m, i + 1);
      if !Truthy(full[i]) then rest
      else if Contains(full[i].value, "|") || (i < |rt| && Contains(rt[i], "|")) then rest
      else if IsComplexType(full[i].value) then
        var mod := At(m.ModuleNames(), i);
        [if mod != Some("") then SlotText(mod) + "." + full[i].value else full[i].value] + rest
      else rest
  }

  function MembersSlotKeys(ms: seq<Member>): seq<string>
  {
    if ms == [] then [] else SlotKeys(ms[0], 0) + MembersSlotKeys(ms[1..])
  }

  function Names(ps: seq<Component>): (r: set<string>)
    ensures forall p :: p in ps ==> p.Name() in r
  {
    set p | p in ps :: p.Name()
  }

  lemma SubsetCard<T>(a: set<T>, b: set<T>)
    requires a <= b
    ensures |a| <= |b|
    decreases |b|
  {
    if a != {} {
      var x :| x in a;
      SubsetCard(a - {x}, b - {x});
    }
  }

  lemma ShrinkCard<T>(all: set<T>, m: set<T>, m2: set<T>, k: T)
    requires m2 >= m + {k} && k in all && k !in m
    ensures |all - m2| < |all - m|
  {
    SubsetCard(all - m2, (all - m) - {k});
    assert (all - m) - {k} < all - m;
  }

  lemma GrowCard<T>(all: set<T>, m: set<T>, m2: set<T>)
    requires m2 >= m
    ensures |all - m2| <= |all - m|
  {
    SubsetCard(all - m2, all - m);
  }

  /**
   * `getMappedTypes(files)` as a function of the registry and the mapped
   * types before the call: the new set of mapped types.
   */
  function MapFiles(ents: map<string, Component>, opts: Options, mapped: set<string>, files: seq<Component>): (r: set<string>)
    ensures r >= mapped
    decreases |ents.Keys - mapped|, |files|, 1, 0
  {
    if files == [] then mapped
    else
      var m1 := MapOne(ents, opts, mapped, files[0]);
      GrowCard(ents.Keys, mapped, m1);
      MapFiles(ents, opts, m1, files[1..])
  }

  function MapOne(ents: map<string, Component>, opts: Options, mapped: set<string>, f: Component): (r: set<string>)
    ensures r >= mapped
    decreases |ents.Keys - mapped|, 0, 1, 0
  {
    match f
    case File(_, parts) => mapped + Names(PartsOf(parts))
    case Instance(_) => mapped + Names(AssociativeParts(f))
    case Class(_, _, _, _, _, _, _, _, _, _, _, _, _) =>
      var m1 := mapped + {TargetKey(f)};
      GrowCard(ents.Keys, mapped, m1);
      if TargetMembersMode(opts) then MapSlots(ents, opts, m1, MembersSlotKeys(f.members)) else m1
    case Interface(_, _, _, _, _, _, _) =>
      var m1 := mapped + {TargetKey(f)};
      GrowCard(ents.Keys, mapped, m1);
      if TargetMembersMode(opts) then MapSlots(ents, opts, m1, MembersSlotKeys(f.members)) else m1
    case _ => mapped
  }

  function MapSlots(ents: map<string, Component>, opts: Options, mapped: set<string>, keys: seq<string>): (r: set<string>)
    ensures r >= mapped
    decreases |ents.Keys - mapped|, 0, 0, |keys|
  {
    if keys == [] then mapped
    else
      var k := StripArrays(keys[0]);
      var m1 :=
        if k in ents && k !in mapped then
          (ShrinkCard(ents.Keys, mapped, mapped + {k}, k); MapFiles(ents, opts, mapped + {k}, [ents[k]]))
        else mapped + {k};
      GrowCard(ents.Keys, mapped, m1);
      MapSlots(ents, opts, m1, keys[1..])
  }

  /** The names of the associative parts of every file passed in are mapped. */
  lemma {:induction false} MappedFileParts(ents: map<string, Component>, opts: Options, mapped: set<string>,
                                           files: seq<Component>, k: nat, p: Component)
    requires k < |files| && files[k].File? && p in PartsOf(files[k].parts)
    ensures p.Name() in MapFiles(ents, opts, mapped, files)
    decreases k
  {
    var m1 := MapOne(ents, opts, mapped, files[0]);
    assert MapFiles(ents, opts, mapped, files) == MapFiles(ents, opts, m1, files[1..]);
    if k == 0 {
      MapOneFile(ents, opts, mapped, files[0]);
    } else {
      assert files[1..][k - 1] == files[k];
      MappedFileParts(ents, opts, m1, files[1..], k - 1, p);
    }
  }

  lemma MapOneFile(ents: map<string, Component>, opts: Options, mapped: set<string>, f: Component)
    requires f.File?
    ensures MapOne(ents, opts, mapped, f) == mapped + Names(PartsOf(f.parts))
  {
  }

  /** In target-class mode, a class given directly has its key and its slot keys, markers removed, mapped. */
  lemma TargetKeysMapped(ents: map<string, Component>, opts: Options, mapped: set<string>, f: Component)
    requires f.Class? || f.Interface?
    ensures TargetKey(f) in MapOne(ents, opts, mapped, f)
    ensures TargetMembersMode(opts) ==> forall s :: s in MembersSlotKeys(f.members) ==> StripArrays(s) in MapOne(ents, opts, mapped, f)
  {
    if TargetMembersMode(opts) {
      var keys := MembersSlotKeys(f.members);
      MapSlotsCovers(ents, opts, mapped + {TargetKey(f)}, keys);
      forall s | s in keys ensures StripArrays(s) in MapOne(ents, opts, mapped, f) {
        var i :| 0 <= i < |keys| && keys[i] == s;
      }
    }
  }

  lemma {:induction false} MapSlotsCovers(ents: map<string, Component>, opts: Options, mapped: set<string>, keys: seq<string>)
    ensures forall i :: 0 <= i < |keys| ==> StripArrays(keys[i]) in MapSlots(ents, opts, mapped, keys)
    decreases |ents.Keys - mapped|, |keys|
  {
    if keys != [] {
      var k := StripArrays(keys[0]);
      var m1 :=
        if k in ents && k !in mapped then
          (ShrinkCard(ents.Keys, mapped, mapped + {k}, k); MapFiles(ents, opts, mapped + {k}, [ents[k]]))
        else mapped + {k};
      GrowCard(ents.Keys, mapped, m1);
      var r := MapSlots(ents, opts, m1, keys[1..]);
      MapSlotsStep(ents, opts, mapped, keys, 0);
      assert keys[0..] == keys;
      MapSlotsCovers(ents, opts, m1, keys[1..]);
      forall i | 0 < i < |keys| ensures StripArrays(keys[i]) in r {
        assert keys[i] == keys[1..][i - 1];
      }
    }
  }

  // ---------------------------------------------------------------- missing types

  /** `missing.findIndex(m => !last.includes(m)) != -1`. */
  predicate HasUnseen(missing: seq<string>, last: seq<string>)
  {
    exists k :: 0 <= k < |missing| && missing[k] !in last
  }

  /** The text before the last dot of a name, or `""`. */
  function BeforeLastDot(s: string): (r: string)
    ensures |r| <= |s|
  {
    var k := LastIndexOf(s, ".");
    if k == -1 then "" else s[..k]
  }

  /** The class stub drawn for a missing type that is not registered. */
  function StubClass(value: string): (c: Component)
    ensures c.Class? && c.members == [] && c.moduleName == ""
    ensures c.name == StripArrays(AfterLastDot(value)) && c.namespace == BeforeLastDot(value)
  {
    NewClass(StripArrays(AfterLastDot(value)), "", BeforeLastDot(value))
  }

  /** The set of keys in the association registry. */
  function KeySet(s: seq<string>): set<string>
  {
    set x | x in s
  }

  /** The source ends that parts of a set of components can give. */
  function End1Names(u: set<Component>): set<string>
  {
    set p | p in u :: End1Name(p)
  }

  /** A set of components closed under associative parts, all of whose members have typed slots. */
  ghost predicate Closed(u: set<Component>)
  {
    (forall p :: p in u ==> Aligned(p)) &&
    (forall p, q :: p in u && q in AssociativeParts(p) ==> q in u)
  }

  /** Everything `createAssociations([v])` visits, for every registered v, lies in the set. */
  ghost predicate EntitiesInside(ents: map<string, Component>, u: set<Component>)
  {
    forall v, p :: v in ents.Values && p in FilesParts([v]) ==> p in u
  }

  /** The registered entities' parts have typed slots. */
  predicate EntitiesAligned(ents: map<string, Component>)
  {
    forall v :: v in ents.Values ==> AllAligned(FilesParts([v]))
  }

  lemma SingleFilesParts(v: Component)
    ensures FilesParts([v]) == PartsOf(Elements(v))
  {
    assert FilesParts([v]) == PartsOf(Elements(v)) + FilesParts([]);
  }

  /** The parts visited from the registered entities. */
  ghost function Universe(ents: map<string, Component>): set<Component>
  {
    set v, p | v in ents.Values && p in FilesParts([v]) :: p
  }

  /** The parts reachable from the registered entities form a closed set. */
  lemma UniverseClosed(ents: map<string, Component>)
    requires EntitiesAligned(ents)
    ensures Closed(Universe(ents)) && EntitiesInside(ents, Universe(ents))
  {
    var u := Universe(ents);
    forall p | p in u ensures Aligned(p) {
      var v :| v in ents.Values && p in FilesParts([v]);
      var ps := FilesParts([v]);
      var k :| 0 <= k < |ps| && ps[k] == p;
    }
    forall p, q | p in u && q in AssociativeParts(p) ensures q in u {
      var v :| v in ents.Values && p in FilesParts([v]);
      SingleFilesParts(v);
      PartsOfClosed(Elements(v), p);
      assert q in FilesParts([v]);
    }
  }

  /** Every end point comes from one of the edges. */
  lemma {:induction false} EndpointsOfEdges(es: seq<Edge>)
    ensures forall x :: x in Endpoints(es) ==> exists e :: e in es && (x == e.end1 || x == e.end2)
  {
    if es != [] {
      var init := es[..|es| - 1];
      EndpointsOfEdges(init);
      forall x | x in Endpoints(es) ensures exists e :: e in es && (x == e.end1 || x == e.end2) {
        if x in Endpoints(init) {
          var e :| e in init && (x == e.end1 || x == e.end2);
          assert e in es;
        } else {
          assert es[|es| - 1] in es;
        }
      }
    }
  }

  /** Every end point an emitted edge contributes is a mapped type or the source end of a visited part. */
  lemma EmittedEndsBounded(opts: Options, mapped: set<string>, parts: seq<Component>, u: set<Component>)
    requires AllAligned(parts) && forall p :: p in parts ==> p in u
    ensures forall x :: x in Endpoints(Emitted(opts.pathPattern, mapped, Candidates(opts, parts))) ==> x in mapped || x in End1Names(u)
  {
    var cs := Candidates(opts, parts);
    var es := Emitted(opts.pathPattern, mapped, cs);
    CandidatesOrigin(opts, parts);
    EmittedFromCandidates(opts.pathPattern, mapped, cs);
    EndpointsOfEdges(es);
    EmittedPass(opts.pathPattern, mapped, cs);
    forall x | x in Endpoints(es) ensures x in mapped || x in End1Names(u) {
      var e :| e in es && (x == e.end1 || x == e.end2);
      var k :| 0 <= k < |es| && es[k] == e;
      assert Passes(opts.pathPattern, mapped, es[k]);
      var j :| 0 <= j < |cs| && e == EdgeOf(cs[j]);
      assert CandidateFrom(cs[j], parts);
    }
  }

  /** Registering the ends of instance edges keeps every registered entity's parts inside a closed set. */
  lemma {:induction false} RegisterInstancesInside(ents: map<string, Component>, es: seq<Edge>, u: set<Component>)
    requires Closed(u) && EntitiesInside(ents, u)
    requires forall e :: e in es ==> e.part in u && (e.check.target.Some? ==> e.part.Instance? && e.check.target.value in e.part.instance.parts)
    ensures EntitiesInside(RegisterInstances(ents, es), u)
  {
    if es != [] {
      var init := es[..|es| - 1];
      var e := es[|es| - 1];
      assert forall x :: x in init ==> x in es;
      RegisterInstancesInside(ents, init, u);
      if e.check.target.Some? {
        RegisterPairInside(RegisterInstances(ents, init), e.end1, e.part, e.end2, e.check.target.value, u);
      }
    }
  }

  /** Registering an instance part and one of its children keeps every registered entity's parts inside a closed set. */
  lemma RegisterPairInside(ents: map<string, Component>, a: string, p: Component, b: string, child: ComponentInstance, u: set<Component>)
    requires Closed(u) && EntitiesInside(ents, u)
    requires p in u && p.Instance? && child in p.instance.parts
    ensures EntitiesInside(ents[a := p][b := Instance(child)], u)
  {
    var k :| 0 <= k < |p.instance.parts| && p.instance.parts[k] == child;
    ChildInstanceIsPart(p.instance.parts, k);
    assert Instance(child) in AssociativeParts(p);
    SingleFilesParts(p);
    assert FilesParts([p]) == AssociativeParts(p) + PartsOf([]);
    SingleFilesParts(Instance(child));
    assert FilesParts([Instance(child)]) == AssociativeParts(Instance(child)) + PartsOf([]);
  }

  /** The edges emitted from a list of parts come from those parts, and instance edges from their children. */
  lemma EmittedFromParts(opts: Options, mapped: set<string>, parts: seq<Component>, u: set<Component>)
    requires AllAligned(parts) && forall p :: p in parts ==> p in u
    ensures forall e :: e in Emitted(opts.pathPattern, mapped, Candidates(opts, parts)) ==>
      e.part in u && (e.check.target.Some? ==> e.part.Instance? && e.check.target.value in e.part.instance.parts)
  {
    var cs := Candidates(opts, parts);
    CandidatesOrigin(opts, parts);
    EmittedFromCandidates(opts.pathPattern, mapped, cs);
    forall e | e in Emitted(opts.pathPattern, mapped, cs)
      ensures e.part in u && (e.check.target.Some? ==> e.part.Instance? && e.check.target.value in e.part.instance.parts)
    {
      var j :| 0 <= j < |cs| && e == EdgeOf(cs[j]);
      assert CandidateFrom(cs[j], parts);
    }
  }

  /** The parts `createAssociations(files)` visits form a closed set. */
  lemma FilesPartsClosed(files: seq<Component>)
    requires AllAligned(FilesParts(files))
    ensures Closed(set p | p in FilesParts(files))
  {
    var ps := FilesParts(files);
    forall p | p in ps ensures Aligned(p) {
      var k :| 0 <= k < |ps| && ps[k] == p;
    }
    forall p, q | p in ps && q in AssociativeParts(p) ensures q in ps {
      FilesPartsClosedAt(files, p);
    }
  }

  lemma {:induction false} FilesPartsClosedAt(files: seq<Component>, p: Component)
    requires p in FilesParts(files)
    ensures forall q :: q in AssociativeParts(p) ==> q in FilesParts(files)
  {
    if p in PartsOf(Elements(files[0])) {
      PartsOfClosed(Elements(files[0]), p);
    } else {
      FilesPartsClosedAt(files[1..], p);
    }
  }

  /** A round that adds no registry key ends the missing-type loop. */
  lemma RoundSeesNothingNew(serialized0: set<string>, assoc0: seq<string>, serialized: set<string>,
                            assoc: seq<string>, missing: seq<string>, last: seq<string>)
    requires last == FindMissing(serialized0, assoc0) && missing == FindMissing(serialized, assoc)
    requires serialized >= serialized0 && KeySet(assoc) == KeySet(assoc0)
    ensures !HasUnseen(missing, last)
  {
    FindMissingFacts(serialized0, assoc0);
    FindMissingFacts(serialized, assoc);
    forall k | 0 <= k < |missing| ensures missing[k] in last {
      var x := missing[k];
      assert x in missing;
      assert x in KeySet(assoc);
    }
  }

  /** A round that adds a registry key brings the registry closer to its bound. */
  lemma RoundGrowsRegistry(bound: set<string>, assoc0: seq<string>, assoc: seq<string>)
    requires KeySet(assoc0) <= KeySet(assoc) <= bound && KeySet(assoc) != KeySet(assoc0)
    ensures |bound - KeySet(assoc)| < |bound - KeySet(assoc0)|
  {
    var a0, a := KeySet(assoc0), KeySet(assoc);
    assert a - a0 != {};
    var x :| x in a - a0;
    ShrinkCard(bound, a0, a, x);
  }

  /** A diagram's text starts with `@startuml` and ends with `@enduml`, whatever its body. */
  lemma DiagramEnds(customization: Option<string>, body: seq<string>)
    ensures var text := Join(Header(customization) + body + Footer(), EOL);
      |text| >= 9 && text[..9] == "@startuml" && EndsWith(text, "@enduml")
  {
    var lines := Header(customization) + body + Footer();
    assert lines[0] == "@startuml";
    assert lines[|lines| - 1] == "@enduml";
    JoinEnds(lines, EOL);
  }

  /** Joined lines start with the first line and end with the last. */
  lemma {:induction false} JoinEnds(lines: seq<string>, sep: string)
    requires lines != []
    ensures lines[0] <= Join(lines, sep)
    ensures EndsWith(Join(lines, sep), lines[|lines| - 1])
  {
    if |lines| > 1 {
      JoinEnds(lines[1..], sep);
      var rest := Join(lines[1..], sep);
      assert Join(lines, sep) == lines[0] + sep + rest;
      var s := Join(lines, sep);
      assert s[|s| - |rest|..] == rest;
      var t := lines[|lines| - 1];
      assert s[|s| - |t|..] == rest[|rest| - |t|..];
    }
  }

  // ---------------------------------------------------------------- the body of a diagram

  /** The texts that are not empty, in order. */
  function NonEmptyTexts(ts: seq<string>): (r: seq<string>)
    ensures "" !in r && |r| <= |ts|
    ensures forall t :: t in r <==> t in ts && t != ""
  {
    if ts == [] then []
    else
      var init := NonEmptyTexts(ts[..|ts| - 1]);
      assert ts == ts[..|ts| - 1] + [ts[|ts| - 1]];
      if ts[|ts| - 1] != "" then init + [ts[|ts| - 1]] else init
  }

  /**
   * The `forEach` loops of `renderFiles` that serialize a list of components:
   * each text is pushed unless it is empty, and the placeholders handed out
   * carry over from one component to the next.
   */
  function SerializeAllText(opts: Options, reg: map<string, string>, cs: seq<Component>, ignoreOnlyAssociations: bool)
    : (res: (seq<string>, map<string, string>))
    ensures "" !in res.0 && |res.0| <= |cs|
  {
    if cs == [] then ([], reg)
    else
      var (texts, reg1) := SerializeAllText(opts, reg, cs[..|cs| - 1], ignoreOnlyAssociations);
      var (t, reg2) := SerializeText(opts, reg1, cs[|cs| - 1], ignoreOnlyAssociations);
      (if t != "" then texts + [t] else texts, reg2)
  }

  /** One more component adds its text, when not empty, and its recorded keys after the others'. */
  lemma SerializeAllStep(opts: Options, reg: map<string, string>, cs: seq<Component>, k: nat, ignoreOnlyAssociations: bool,
                         texts: seq<string>, reg1: map<string, string>, t: string, reg2: map<string, string>)
    requires k < |cs|
    requires SerializeAllText(opts, reg, cs[..k], ignoreOnlyAssociations) == (texts, reg1)
    requires SerializeText(opts, reg1, cs[k], ignoreOnlyAssociations) == (t, reg2)
    ensures SerializeAllText(opts, reg, cs[..k + 1], ignoreOnlyAssociations) == (if t != "" then texts + [t] else texts, reg2)
    ensures RegisteredAll(opts, cs[..k + 1], ignoreOnlyAssociations) == RegisteredAll(opts, cs[..k], ignoreOnlyAssociations) + Registered(opts, cs[k], ignoreOnlyAssociations)
  {
    assert cs[..k + 1][..k] == cs[..k];
  }

  /** After the first `k` components: the texts kept, the placeholders and the serialized registry so far. */
  ghost predicate SerializedSoFar(opts: Options, reg0: map<string, string>, serialized0: set<string>, cs: seq<Component>, k: nat,
                                  ignoreOnlyAssociations: bool, texts: seq<string>, reg: map<string, string>, serialized: set<string>)
  {
    k <= |cs| &&
    (texts, reg) == SerializeAllText(opts, reg0, cs[..k], ignoreOnlyAssociations) &&
    serialized == serialized0 + RegisteredAll(opts, cs[..k], ignoreOnlyAssociations)
  }

  /** Serializing component `k` keeps the account. */
  lemma SerializedSoFarStep(opts: Options, reg0: map<string, string>, serialized0: set<string>, cs: seq<Component>, k: nat,
                            ignoreOnlyAssociations: bool, texts: seq<string>, reg1: map<string, string>, serialized1: set<string>,
                            t: string, reg2: map<string, string>, serialized2: set<string>)
    requires SerializedSoFar(opts, reg0, serialized0, cs, k, ignoreOnlyAssociations, texts, reg1, serialized1) && k < |cs|
    requires SerializeText(opts, reg1, cs[k], ignoreOnlyAssociations) == (t, reg2)
    requires serialized2 == serialized1 + Registered(opts, cs[k], ignoreOnlyAssociations)
    ensures SerializedSoFar(opts, reg0, serialized0, cs, k + 1, ignoreOnlyAssociations,
                            if t != "" then texts + [t] else texts, reg2, serialized2)
  {
    SerializeAllStep(opts, reg0, cs, k, ignoreOnlyAssociations, texts, reg1, t, reg2);
  }

  /** The keys `serialize` records for each of a list of components. */
  function RegisteredAll(opts: Options, cs: seq<Component>, ignoreOnlyAssociations: bool): set<string>
  {
    if cs == [] then {} else RegisteredAll(opts, cs[..|cs| - 1], ignoreOnlyAssociations) + Registered(opts, cs[|cs| - 1], ignoreOnlyAssociations)
  }

  /**
   * Serializing the files at the top of `renderFiles` is serializing them as
   * the parts of one file, with the empty texts dropped: the same texts, the
   * same placeholders and the same recorded keys.
   */
  lemma {:induction false} SerializeAllIsParts(opts: Options, reg: map<string, string>, cs: seq<Component>)
    ensures var (texts, reg1) := PartTexts(opts, reg, cs);
      SerializeAllText(opts, reg, cs, false) == (NonEmptyTexts(texts), reg1)
    ensures RegisteredAll(opts, cs, false) == RegisteredParts(opts, cs)
  {
    if cs != [] {
      var init := cs[..|cs| - 1];
      SerializeAllIsParts(opts, reg, init);
      var (texts, reg1) := PartTexts(opts, reg, init);
      var (t, reg2) := SerializeText(opts, reg1, cs[|cs| - 1], false);
      assert PartTexts(opts, reg, cs) == (texts + [t], reg2);
      assert (texts + [t])[..|texts|] == texts;
    }
  }

  /** The registered components of the given registry keys, in key order (the `else` branch of `renderFiles`). */
  function RegisteredOf(ents: map<string, Component>, keys: seq<string>): (r: seq<Component>)
    ensures |r| <= |keys|
    ensures forall c :: c in r <==> exists j :: 0 <= j < |keys| && keys[j] in ents && ents[keys[j]] == c
  {
    if keys == [] then []
    else
      var init := RegisteredOf(ents, keys[..|keys| - 1]);
      var k := keys[|keys| - 1];
      assert forall j :: 0 <= j < |keys| - 1 ==> keys[..|keys| - 1][j] == keys[j];
      if k in ents then init + [ents[k]] else init
  }

  // ---------------------------------------------------------------- the missing-type loop

  /** The registries the missing-type loop changes, as one value. */
  datatype Drawing = Drawing(
    anonymous: map<string, string>,
    serialized: set<string>,
    associations: seq<string>,
    entities: map<string, Component>)

  /**
   * What keeps the loop well defined: the registered entities' parts lie in
   * the closed set `u`, and the registry keys and every key an edge can add
   * lie in `bound`.
   */
  ghost predicate DrawFrame(mapped: set<string>, s: Drawing, u: set<Component>, bound: set<string>)
  {
    Closed(u) && EntitiesInside(s.entities, u) && mapped + End1Names(u) <= bound && KeySet(s.associations) <= bound
  }

  /**
   * One key of a round: the new registries, the texts drawn and the edge
   * lines added. An array key whose element type is still missing
   * is skipped; a registered type is drawn and its own associations created;
   * any other key is drawn as a stub class, unless it names an interface
   * (`.I`) or an instance (`.II`).
   */
  ghost function DrawValueSpec(opts: Options, mapped: set<string>, s: Drawing, value: string, u: set<Component>, bound: set<string>)
    : (r: (Drawing, seq<string>, seq<string>))
    requires DrawFrame(mapped, s, u, bound)
    ensures DrawFrame(mapped, r.0, u, bound)
    ensures KeySet(s.associations) <= KeySet(r.0.associations) && r.0.serialized >= s.serialized
    ensures |r.1| <= 1 && "" !in r.1
    ensures StripArrays(value) !in s.entities ==> r.0 == s.(anonymous := r.0.anonymous) && r.2 == []
  {
    var missing := FindMissing(s.serialized, s.associations);
    if Contains(value, "[]") && (MarkerHasOpenBracket(value); value[..LastIndexOf(value, "[")] in missing) then
      (s, [], [])
    else if StripArrays(value) in s.entities then
      var entity := s.entities[StripArrays(value)];
      VisitInside(opts, mapped, entity, s.entities, s.associations, u, bound);
      var (text, reg) := SerializeText(opts, s.anonymous, entity, false);
      var es := Emitted(opts.pathPattern, mapped, Candidates(opts, FilesParts([entity])));
      var (lines, reg1) := EdgeLines(reg, es);
      (Drawing(reg1, s.serialized + Registered(opts, entity, false), AddKeys(s.associations, Endpoints(es)), RegisterInstances(s.entities, es)),
       if text != "" then [text] else [], lines)
    else if !Contains(value, ".II") && !Contains(value, ".I") then
      var (text, reg) := ClassText(opts, s.anonymous, StubClass(value));
      (s.(anonymous := reg), if text != "" then [text] else [], [])
    else
      (s, [], [])
  }

  /** One round: the keys of `values`, one after the other, each seeing the registries the previous left. */
  ghost function RoundSpec(opts: Options, mapped: set<string>, s: Drawing, values: seq<string>, u: set<Component>, bound: set<string>)
    : (r: (Drawing, seq<string>, seq<string>))
    requires DrawFrame(mapped, s, u, bound)
    ensures DrawFrame(mapped, r.0, u, bound)
    ensures KeySet(s.associations) <= KeySet(r.0.associations) && r.0.serialized >= s.serialized
    ensures |r.1| <= |values| && "" !in r.1
  {
    if values == [] then (s, [], [])
    else
      var (s1, d1, m1) := RoundSpec(opts, mapped, s, values[..|values| - 1], u, bound);
      var (s2, d2, m2) := DrawValueSpec(opts, mapped, s1, values[|values| - 1], u, bound);
      (s2, d1 + d2, m1 + m2)
  }

  /** One more key of a round draws it from what the keys before it left. */
  lemma RoundStep(opts: Options, mapped: set<string>, s: Drawing, values: seq<string>, j: nat, u: set<Component>, bound: set<string>)
    requires DrawFrame(mapped, s, u, bound) && j < |values|
    ensures var (s1, d1, m1) := RoundSpec(opts, mapped, s, values[..j], u, bound);
      var (s2, d2, m2) := DrawValueSpec(opts, mapped, s1, values[j], u, bound);
      RoundSpec(opts, mapped, s, values[..j + 1], u, bound) == (s2, d1 + d2, m1 + m2)
  {
    assert values[..j + 1][..j] == values[..j];
  }

  /** A round either adds a registry key, within the bound, or leaves nothing unseen. */
  lemma RoundProgress(bound: set<string>, s: Drawing, s1: Drawing)
    requires KeySet(s.associations) <= KeySet(s1.associations) <= bound && s1.serialized >= s.serialized
    ensures KeySet(s1.associations) == KeySet(s.associations) ==>
      !HasUnseen(FindMissing(s1.serialized, s1.associations), FindMissing(s.serialized, s.associations))
    ensures KeySet(s1.associations) != KeySet(s.associations) ==>
      |bound - KeySet(s1.associations)| < |bound - KeySet(s.associations)|
  {
    if KeySet(s1.associations) == KeySet(s.associations) {
      RoundSeesNothingNew(s.serialized, s.associations, s1.serialized, s1.associations,
        FindMissing(s1.serialized, s1.associations), FindMissing(s.serialized, s.associations));
    } else {
      RoundGrowsRegistry(bound, s.associations, s1.associations);
    }
  }

  /** A loop that goes on is one round followed by the loop from what the round left, the round's keys seen. */
  lemma LoopStep(opts: Options, mapped: set<string>, s: Drawing, last: seq<string>, u: set<Component>, bound: set<string>)
    requires DrawFrame(mapped, s, u, bound) && HasUnseen(FindMissing(s.serialized, s.associations), last)
    ensures var missing := FindMissing(s.serialized, s.associations);
      var (s1, d1, m1) := RoundSpec(opts, mapped, s, missing, u, bound);
      var r1 := DrawLoop(opts, mapped, s1, missing, u, bound);
      DrawLoop(opts, mapped, s, last, u, bound) == (r1.0, d1 + r1.1, m1 + r1.2, r1.3)
  {
  }

  /** After rounds that left `s`, the round before having seen `last`, the loop from `s0` is what was drawn so far followed by the loop from `s`. */
  ghost predicate LoopSoFar(opts: Options, mapped: set<string>, s0: Drawing, s: Drawing, last: seq<string>,
                            drawn: seq<string>, more: seq<string>, u: set<Component>, bound: set<string>)
  {
    DrawFrame(mapped, s0, u, bound) && DrawFrame(mapped, s, u, bound) &&
    var r := DrawLoop(opts, mapped, s, last, u, bound);
    DrawLoop(opts, mapped, s0, [], u, bound) == (r.0, drawn + r.1, more + r.2, r.3)
  }

  /** Before the first round nothing is drawn, and the loop from `s0` is all that is left. */
  lemma LoopSoFarStart(opts: Options, mapped: set<string>, s0: Drawing, u: set<Component>, bound: set<string>)
    requires DrawFrame(mapped, s0, u, bound)
    ensures LoopSoFar(opts, mapped, s0, s0, [], [], [], u, bound)
  {
    var r := DrawLoop(opts, mapped, s0, [], u, bound);
    assert [] + r.1 == r.1 && [] + r.2 == r.2;
  }

  /** One more round keeps the account. */
  lemma LoopSoFarStep(opts: Options, mapped: set<string>, s0: Drawing, s: Drawing, last: seq<string>,
                      drawn: seq<string>, more: seq<string>, u: set<Component>, bound: set<string>,
                      s1: Drawing, d: seq<string>, m: seq<string>)
    requires LoopSoFar(opts, mapped, s0, s, last, drawn, more, u, bound)
    requires HasUnseen(FindMissing(s.serialized, s.associations), last)
    requires RoundSpec(opts, mapped, s, FindMissing(s.serialized, s.associations), u, bound) == (s1, d, m)
    ensures LoopSoFar(opts, mapped, s0, s1, FindMissing(s.serialized, s.associations), drawn + d, more + m, u, bound)
  {
    LoopStep(opts, mapped, s, last, u, bound);
    var r1 := DrawLoop(opts, mapped, s1, FindMissing(s.serialized, s.associations), u, bound);
    AppendAssoc(drawn, d, r1.1);
    AppendAssoc(more, m, r1.2);
  }

  /** When nothing is unseen, the loop from `s0` drew exactly what was drawn so far. */
  lemma LoopSoFarDone(opts: Options, mapped: set<string>, s0: Drawing, s: Drawing, last: seq<string>,
                      drawn: seq<string>, more: seq<string>, u: set<Component>, bound: set<string>)
    requires LoopSoFar(opts, mapped, s0, s, last, drawn, more, u, bound)
    requires !HasUnseen(FindMissing(s.serialized, s.associations), last)
    ensures DrawLoop(opts, mapped, s0, [], u, bound) == (s, drawn, more, last)
  {
    assert drawn + [] == drawn && more + [] == more;
  }

  /**
   * The missing-type loop from registries `s`, the previous round having
   * seen `last`: rounds go on while some missing key was not seen by the
   * round before. The result holds the final registries, all texts drawn,
   * all edge lines added and the keys the final round saw; at the end no
   * missing key is unseen.
   */
  ghost function DrawLoop(opts: Options, mapped: set<string>, s: Drawing, last: seq<string>, u: set<Component>, bound: set<string>)
    : (r: (Drawing, seq<string>, seq<string>, seq<string>))
    requires DrawFrame(mapped, s, u, bound)
    ensures DrawFrame(mapped, r.0, u, bound)
    ensures KeySet(s.associations) <= KeySet(r.0.associations) && r.0.serialized >= s.serialized
    ensures !HasUnseen(FindMissing(r.0.serialized, r.0.associations), r.3)
    ensures "" !in r.1
    decreases |bound - KeySet(s.associations)|, if HasUnseen(FindMissing(s.serialized, s.associations), last) then 1 else 0
  {
    var missing := FindMissing(s.serialized, s.associations);
    if !HasUnseen(missing, last) then (s, [], [], last)
    else
      var (s1, d1, m1) := RoundSpec(opts, mapped, s, missing, u, bound);
      RoundProgress(bound, s, s1);
      var (s2, d2, m2, l2) := DrawLoop(opts, mapped, s1, missing, u, bound);
      (s2, d1 + d2, m1 + m2, l2)
  }

  // ---------------------------------------------------------------- a whole diagram

  /** Every component `createAssociations` can visit in `renderFiles`: the registered entities' parts and the files' parts. */
  ghost function FilesUniverse(ents: map<string, Component>, files: seq<Component>): set<Component>
  {
    Universe(ents) + set p | p in FilesParts(files)
  }

  /**
   * The first two steps of `renderFiles`: the registries after
   * `createAssociations(files)`, its edge lines, and the mapped types
   * `getMappedTypes(files)` leaves.
   */
  ghost function CollectSpec(opts: Options, s: Drawing, mapped0: set<string>, files: seq<Component>)
    : (r: (Drawing, seq<string>, set<string>))
    requires AllAligned(FilesParts(files)) && EntitiesAligned(s.entities)
    ensures var u := FilesUniverse(s.entities, files);
      DrawFrame(r.2, r.0, u, KeySet(r.0.associations) + r.2 + End1Names(u))
    ensures r.0.serialized == s.serialized && r.2 >= mapped0
  {
    var mapped := MapFiles(s.entities, opts, mapped0, files);
    var u := FilesUniverse(s.entities, files);
    UniverseClosed(s.entities);
    FilesPartsClosed(files);
    var es := Emitted(opts.pathPattern, mapped, Candidates(opts, FilesParts(files)));
    EmittedFromParts(opts, mapped, FilesParts(files), u);
    RegisterInstancesInside(s.entities, es, u);
    var (lines, reg) := EdgeLines(s.anonymous, es);
    (Drawing(reg, s.serialized, AddKeys(s.associations, Endpoints(es)), RegisterInstances(s.entities, es)), lines, mapped)
  }

  /**
   * The step of `renderFiles` after the files are drawn: without AngularJS
   * components the missing-type loop, giving texts and edge lines; with
   * them, the registered components of the association keys, in key order.
   */
  ghost function TailSpec(opts: Options, mapped: set<string>, s: Drawing, u: set<Component>): (r: (seq<string>, seq<string>))
    requires DrawFrame(mapped, s, u, KeySet(s.associations) + mapped + End1Names(u))
    ensures "" !in r.0
    ensures |opts.angularJSComponents| != 0 ==> r.1 == []
  {
    if |opts.angularJSComponents| == 0 then
      var r := DrawLoop(opts, mapped, s, [], u, KeySet(s.associations) + mapped + End1Names(u));
      (r.1, r.2)
    else
      (SerializeAllText(opts, s.anonymous, RegisteredOf(s.entities, s.associations), true).0, [])
  }

  /**
   * `renderFiles` from registries `s` and mapped types `mapped0`: the files'
   * texts, what the step after them draws, and the edge lines when asked
   * for, all between the header and the footer, one per line.
   */
  ghost function RenderSpec(opts: Options, s: Drawing, mapped0: set<string>, files: seq<Component>, withAssociations: bool)
    : (text: string)
    requires AllAligned(FilesParts(files)) && EntitiesAligned(s.entities)
    ensures |text| >= 9 && text[..9] == "@startuml" && EndsWith(text, "@enduml")
  {
    var (s1, lines, mapped) := CollectSpec(opts, s, mapped0, files);
    var (texts, reg) := SerializeAllText(opts, s1.anonymous, files, false);
    var s2 := s1.(anonymous := reg, serialized := s1.serialized + RegisteredAll(opts, files, false));
    var (drawn, more) := TailSpec(opts, mapped, s2, FilesUniverse(s.entities, files));
    var all := texts + drawn + (if withAssociations then lines + more else []);
    DiagramEnds(opts.customization, all);
    Join(Header(opts.customization) + all + Footer(), EOL)
  }

  /** The text of `renderFiles`, from the results of its steps. */
  lemma RenderSpecIs(opts: Options, s: Drawing, mapped0: set<string>, files: seq<Component>, withAssociations: bool,
                     s1: Drawing, lines: seq<string>, mapped: set<string>, texts: seq<string>, reg: map<string, string>,
                     drawn: seq<string>, more: seq<string>)
    requires AllAligned(FilesParts(files)) && EntitiesAligned(s.entities)
    requires CollectSpec(opts, s, mapped0, files) == (s1, lines, mapped)
    requires SerializeAllText(opts, s1.anonymous, files, false) == (texts, reg)
    requires TailSpec(opts, mapped, s1.(anonymous := reg, serialized := s1.serialized + RegisteredAll(opts, files, false)), FilesUniverse(s.entities, files)) == (drawn, more)
    ensures RenderSpec(opts, s, mapped0, files, withAssociations) ==
      Join(Header(opts.customization) + (texts + drawn + (if withAssociations then lines + more else [])) + Footer(), EOL)
  {
  }

  // ---------------------------------------------------------------- the formatter

  class Formatter {
    const options: Options
    /** `entitiesRegistry`: components by full name (component paths for AngularJS instances). */
    var entities: map<string, Component>
    /** `serializedEntitiesRegistry`, of which only the keys are read. */
    var serialized: set<string>
    /** `associationsRegistry`: the end points of emitted edges, in first-insertion order. */
    var associations: seq<string>
    /** `mappedTypes`: the type names an edge may point to. */
    var mappedTypes: set<string>
    /** `anonymousEtitiesRegistry`: the placeholders handed out so far. */
    var anonymous: map<string, string>

    ghost predicate Valid()
      reads this
    {
      Distinct(associations) && ValidRegistry(anonymous)
    }

    constructor(opts: Options)
      ensures options == opts && entities == map[] && serialized == {} && associations == []
      ensures mappedTypes == {} && anonymous == map[]
      ensures Valid()
    {
      options := opts;
      entities := map[];
      serialized := {};
      associations := [];
      mappedTypes := {};
      anonymous := map[];
    }

    /** `getAnonymized`. */
    method GetAnonymized(name: string) returns (r: string)
      requires Valid()
      modifies this`anonymous
      ensures (r, anonymous) == Anonymize(old(anonymous), name)
      ensures Valid()
    {
      AnonymizeKeepsValid(anonymous, name);
      if Contains(name, "{") || Contains(name, "(") {
        if name in anonymous && anonymous[name] != "" {
          r := anonymous[name];
        } else {
          r := Placeholder(|anonymous|);
          anonymous := anonymous[name := r];
        }
      } else {
        r := name;
      }
    }

    /** `addAssociation`: the source end is anonymized before the target end. */
    method AddAssociation(type1: string, cardinality: string, type2: string, endName: string) returns (lines: seq<string>)
      requires Valid()
      modifies this`anonymous
      ensures (lines, anonymous) == PlantUml.AddAssociation(old(anonymous), type1, cardinality, type2, endName)
      ensures Valid()
    {
      var a1 := GetAnonymized(type1);
      var a2 := GetAnonymized(type2);
      lines := [EdgeLine(a1, cardinality, endName, a2)];
    }

    /** `serializeClass`. */
    method SerializeClass(c: Component) returns (text: string)
      requires c.Class? && Valid()
      modifies this`anonymous
      ensures (text, anonymous) == ClassText(options, old(anonymous), c)
      ensures Valid()
    {
      var alias := GetAnonymized(FullName(c));
      text := Join(MemberBlock(ClassHead(c, alias, options.onlyClasses), |c.members|, MemberTexts(options, c.members)), EOL);
    }

    /** `serialize`: records entities and shown instances as serialized and returns the text. */
    method Serialize(c: Component, ignoreOnlyAssociations: bool) returns (text: string)
      requires Valid()
      modifies this`anonymous, this`serialized
      ensures (text, anonymous) == SerializeText(options, old(anonymous), c, ignoreOnlyAssociations)
      ensures serialized == old(serialized) + Registered(options, c, ignoreOnlyAssociations)
      ensures Valid()
      decreases c, 1
    {
      match c
      case Class(_, _, _, _, _, _, _, _, _, _, _, _, _) =>
        serialized := serialized + {FullName(c)};
        text := SerializeClass(c);
      case File(_, parts) =>
        var texts := SerializeParts(parts);
        text := Join(texts, EOL);
      case Enum(_, _, _, _) =>
        serialized := serialized + {FullName(c)};
        text := Join(EnumLines(c), EOL);
      case Interface(_, _, _, _, _, _, _) =>
        serialized := serialized + {FullName(c)};
        text := InterfaceText(options, c);
      case Namespace(_, _, _, parts) =>
        var texts := SerializeParts(parts);
        text := Join(NamespaceLines(c, texts), EOL);
      case Instance(i) =>
        text := SerializeInstance(i, ignoreOnlyAssociations);
    }

    /** The instance branch of `serialize`. */
    method SerializeInstance(i: ComponentInstance, ignoreOnlyAssociations: bool) returns (text: string)
      modifies this`serialized
      ensures text == if InstanceShown(options, i, ignoreOnlyAssociations) then InstanceText(i) else ""
      ensures serialized == old(serialized) + if InstanceShown(options, i, ignoreOnlyAssociations) then {i.componentPath} else {}
    {
      if options.onlyAssociations && !ignoreOnlyAssociations {
        text := "";
      } else if options.pathPattern.Some? {
        if Matches(options.pathPattern, i.componentPath) {
          serialized := serialized + {i.componentPath};
          text := InstanceText(i);
        } else {
          text := "";
        }
      } else {
        serialized := serialized + {i.componentPath};
        text := InstanceText(i);
      }
    }

    method SerializeParts(parts: seq<Component>) returns (texts: seq<string>)
      requires Valid()
      modifies this`anonymous, this`serialized
      ensures (texts, anonymous) == PartTexts(options, old(anonymous), parts)
      ensures serialized == old(serialized) + RegisteredParts(options, parts)
      ensures Valid()
      decreases parts, 0
    {
      texts := [];
      var k := 0;
      while k < |parts|
        invariant 0 <= k <= |parts| && Valid()
        invariant (texts, anonymous) == PartTexts(options, old(anonymous), parts[..k])
        invariant serialized == old(serialized) + RegisteredParts(options, parts[..k])
      {
        PartsStep(options, old(anonymous), parts, k);
        var t := Serialize(parts[k], false);
        texts := texts + [t];
        k := k + 1;
      }
      assert parts[..k] == parts;
    }

    /** `initializeRegistry`: entities are registered by full name, descending through namespaces and files. */
    method InitializeRegistry(cs: seq<Component>)
      modifies this`entities
      ensures entities == RegisterAll(old(entities), DeclaredEntities(cs))
      decreases cs
    {
      var k := 0;
      while k < |cs|
        invariant 0 <= k <= |cs|
        invariant entities == RegisterAll(old(entities), DeclaredEntities(cs[..k]))
      {
        var c := cs[k];
        RegisterStep(old(entities), cs, k);
        if c.IsEntity() {
          entities := entities[FullName(c) := c];
        } else if c.File? || c.Namespace? {
          InitializeRegistry(c.parts);
        }
        k := k + 1;
      }
      assert cs[..k] == cs;
    }

    /** `getMappedTypes`: the type names edges may point to, following registered slot types. */
    method GetMappedTypes(files: seq<Component>)
      modifies this`mappedTypes
      ensures mappedTypes == MapFiles(entities, options, old(mappedTypes), files)
      decreases |entities.Keys - mappedTypes|, |files|, 1
    {
      var i := 0;
      while i < |files|
        invariant 0 <= i <= |files| && mappedTypes >= old(mappedTypes)
        invariant MapFiles(entities, options, old(mappedTypes), files) == MapFiles(entities, options, mappedTypes, files[i..])
      {
        MapFilesStep(entities, options, mappedTypes, files, i);
        GrowCard(entities.Keys, old(mappedTypes), mappedTypes);
        MapComponent(files[i]);
        i := i + 1;
      }
    }

    /** The body of the `files.forEach` of `getMappedTypes`, for one component. */
    method MapComponent(f: Component)
      modifies this`mappedTypes
      ensures mappedTypes == MapOne(entities, options, old(mappedTypes), f)
      decreases |entities.Keys - mappedTypes|, 0, 0
    {
      if f.File? || f.Instance? {
        var ps := if f.File? then PartsOf(f.parts) else AssociativeParts(f);
        var j := 0;
        while j < |ps|
          invariant 0 <= j <= |ps|
          invariant mappedTypes == old(mappedTypes) + Names(ps[..j])
        {
          assert ps[..j + 1] == ps[..j] + [ps[j]];
          mappedTypes := mappedTypes + {ps[j].Name()};
          j := j + 1;
        }
        assert ps[..j] == ps;
      } else if f.Class? || f.Interface? {
        mappedTypes := mappedTypes + {TargetKey(f)};
        if TargetMembersMode(options) {
          var keys := MembersSlotKeys(f.members);
          var j := 0;
          while j < |keys|
            invariant 0 <= j <= |keys| && mappedTypes >= old(mappedTypes)
            invariant MapOne(entities, options, old(mappedTypes), f) == MapSlots(entities, options, mappedTypes, keys[j..])
          {
            MapSlotsStep(entities, options, mappedTypes, keys, j);
            var k := StripArrays(keys[j]);
            if k in entities && k !in mappedTypes {
              mappedTypes := mappedTypes + {k};
              ShrinkCard(entities.Keys, old(mappedTypes), mappedTypes, k);
              GetMappedTypes([entities[k]]);
            } else {
              mappedTypes := mappedTypes + {k};
            }
            j := j + 1;
          }
        }
      }
    }

    /** `createAssociations`: the edge lines of one call, registering both ends of each edge. */
    method CreateAssociations(files: seq<Component>) returns (lines: seq<string>)
      requires Valid() && AllAligned(FilesParts(files))
      modifies this`associations, this`entities, this`anonymous
      ensures var es := Emitted(options.pathPattern, mappedTypes, Candidates(options, FilesParts(files)));
        (lines, anonymous) == EdgeLines(old(anonymous), es) &&
        associations == AddKeys(old(associations), Endpoints(es)) &&
        entities == RegisterInstances(old(entities), es)
      ensures Valid()
    {
      var cands := Candidates(options, FilesParts(files));
      lines := EmitCandidates(cands);
    }

    /** The nested loops of `createAssociations` over the candidates they visit, in order. */
    method EmitCandidates(cands: seq<Candidate>) returns (lines: seq<string>)
      requires Valid()
      modifies this`associations, this`entities, this`anonymous
      ensures var es := Emitted(options.pathPattern, mappedTypes, cands);
        (lines, anonymous) == EdgeLines(old(anonymous), es) &&
        associations == AddKeys(old(associations), Endpoints(es)) &&
        entities == RegisterInstances(old(entities), es)
      ensures Valid()
    {
      var pattern, mapped := options.pathPattern, mappedTypes;
      var seen: set<string> := {};
      ghost var es: seq<Edge> := [];
      lines := [];
      var i := 0;
      while i < |cands|
        invariant 0 <= i <= |cands| && Valid()
        invariant es == Emitted(pattern, mapped, cands[..i])
        invariant seen == Keys(es)
        invariant Reflects(old(anonymous), old(associations), old(entities), es, lines)
      {
        EmitStep(pattern, mapped, cands, i);
        var e := EdgeOf(cands[i]);

        if e.typeName != e.part.Name() && e.key !in seen && e.end2 in mapped {
          if pattern.None? || Matches(pattern, e.end1) || Matches(pattern, e.end2) {
            ExtendLines(old(anonymous), es, e);
            ExtendKeys(old(associations), es, e);
            ExtendEntities(old(entities), es, e);
            ExtendSeen(es, e);
            var more := EmitEdge(e);
            lines := lines + more;
            seen := seen + {e.key};
            es := es + [e];
          }
        }
        i := i + 1;
      }
      assert cands[..i] == cands;
    }

    /** The lines, placeholders, association keys and entities are those of the edges emitted so far. */
    ghost predicate Reflects(reg: map<string, string>, assoc: seq<string>, ents: map<string, Component>, es: seq<Edge>, lines: seq<string>)
      reads this
    {
      (lines, anonymous) == EdgeLines(reg, es) &&
      associations == AddKeys(assoc, Endpoints(es)) &&
      entities == RegisterInstances(ents, es)
    }

    /** The body of the emitting branch of `createAssociations` for one edge. */
    method EmitEdge(e: Edge) returns (lines: seq<string>)
      requires Valid()
      modifies this`associations, this`entities, this`anonymous
      ensures (lines, anonymous) == PlantUml.AddAssociation(old(anonymous), e.end1, e.cardinality, e.end2, e.check.memberName)
      ensures associations == AddKey(AddKey(old(associations), e.end1), e.end2)
      ensures entities == if e.check.target.Some? then old(entities)[e.end1 := e.part][e.end2 := Instance(e.check.target.value)] else old(entities)
      ensures Valid()
    {
      lines := AddAssociation(e.end1, e.cardinality, e.end2, e.check.memberName);
      associations := AddKey(AddKey(associations, e.end1), e.end2);
      if e.check.target.Some? {
        entities := entities[e.end1 := e.part][e.end2 := Instance(e.check.target.value)];
      }
    }

    /** `renderFiles`: the whole diagram, from `@startuml` to `@enduml`. */
    method RenderFiles(files: seq<Component>, withAssociations: bool) returns (text: string)
      requires Valid() && AllAligned(FilesParts(files)) && EntitiesAligned(entities)
      modifies this
      ensures text == RenderSpec(options, old(Snapshot()), old(mappedTypes), files, withAssociations)
      ensures Valid()
    {
      ghost var s0, mapped0 := Snapshot(), mappedTypes;
      var associationLines, u := CollectAssociations(files);
      ghost var s1, lines := Snapshot(), associationLines;
      assert (s1, lines, mappedTypes) == CollectSpec(options, s0, mapped0, files);
      var body := SerializeAll(files, false);
      ghost var texts := body;
      assert Snapshot() == s1.(anonymous := anonymous, serialized := s1.serialized + RegisteredAll(options, files, false));
      ghost var reg := anonymous;
      var drawn, more := DrawTail(u);
      body := body + drawn;
      associationLines := associationLines + more;
      ghost var tail := (drawn, more);
      if withAssociations {
        body := body + associationLines;
      }
      assert body == texts + tail.0 + (if withAssociations then lines + tail.1 else []);
      text := Join(Header(options.customization) + body + Footer(), EOL);
      RenderSpecIs(options, s0, mapped0, files, withAssociations, s1, lines, mappedTypes, texts, reg, tail.0, tail.1);
      assert text == RenderSpec(options, s0, mapped0, files, withAssociations);
    }

    /**
     * The step of `renderFiles` after the files are drawn: the missing-type
     * loop without AngularJS components, else the registered components of
     * the association keys.
     */
    method DrawTail(ghost u: set<Component>) returns (drawn: seq<string>, more: seq<string>)
      requires Valid() && DrawFrame(mappedTypes, Snapshot(), u, KeySet(associations) + mappedTypes + End1Names(u))
      modifies this`anonymous, this`serialized, this`associations, this`entities
      ensures (drawn, more) == TailSpec(options, mappedTypes, old(Snapshot()), u)
      ensures Valid()
    {
      if |options.angularJSComponents| == 0 {
        drawn, more := DrawMissingTypes(u);
      } else {
        var keys := associations;
        var registered := RegisteredAmong(keys);
        drawn := SerializeAll(registered, true);
        more := [];
      }
    }

    /** The non-empty texts of the components, in order (the `forEach` loops of `renderFiles`). */
    method SerializeAll(cs: seq<Component>, ignoreOnlyAssociations: bool) returns (texts: seq<string>)
      requires Valid()
      modifies this`anonymous, this`serialized
      ensures (texts, anonymous) == SerializeAllText(options, old(anonymous), cs, ignoreOnlyAssociations)
      ensures serialized == old(serialized) + RegisteredAll(options, cs, ignoreOnlyAssociations)
      ensures Valid()
    {
      texts := [];
      ghost var reg0, serialized0 := anonymous, serialized;
      var k := 0;
      while k < |cs|
        invariant k <= |cs| && Valid()
        invariant SerializedSoFar(options, reg0, serialized0, cs, k, ignoreOnlyAssociations, texts, anonymous, serialized)
      {
        ghost var reg1, serialized1 := anonymous, serialized;
        var t := Serialize(cs[k], ignoreOnlyAssociations);
        SerializedSoFarStep(options, reg0, serialized0, cs, k, ignoreOnlyAssociations, texts, reg1, serialized1, t, anonymous, serialized);
        if t != "" {
          texts := texts + [t];
        }
        k := k + 1;
      }
      assert cs[..k] == cs;
    }

    /** The registered components of the given registry keys, in key order. */
    method RegisteredAmong(keys: seq<string>) returns (cs: seq<Component>)
      ensures cs == RegisteredOf(entities, keys)
    {
      cs := [];
      var j := 0;
      while j < |keys|
        invariant 0 <= j <= |keys|
        invariant cs == RegisteredOf(entities, keys[..j])
      {
        assert keys[..j + 1][..j] == keys[..j];
        if keys[j] in entities {
          cs := cs + [entities[keys[j]]];
        }
        j := j + 1;
      }
      assert keys[..j] == keys;
    }

    /**
     * The first two steps of `renderFiles`: the mapped types, then the
     * associations of the files. The ghost result `u` collects every
     * component that later `createAssociations` calls on registered
     * entities can visit.
     */
    method CollectAssociations(files: seq<Component>) returns (lines: seq<string>, ghost u: set<Component>)
      requires Valid() && AllAligned(FilesParts(files)) && EntitiesAligned(entities)
      modifies this`mappedTypes, this`associations, this`entities, this`anonymous
      ensures mappedTypes == MapFiles(old(entities), options, old(mappedTypes), files)
      ensures var es := Emitted(options.pathPattern, mappedTypes, Candidates(options, FilesParts(files)));
        (lines, anonymous) == EdgeLines(old(anonymous), es) &&
        associations == AddKeys(old(associations), Endpoints(es)) &&
        entities == RegisterInstances(old(entities), es)
      ensures Valid() && Closed(u) && EntitiesInside(entities, u)
      ensures u == Universe(old(entities)) + set p | p in FilesParts(files)
    {
      u := Universe(entities) + set p | p in FilesParts(files);
      UniverseClosed(entities);
      FilesPartsClosed(files);
      GetMappedTypes(files);
      EmittedFromParts(options, mappedTypes, FilesParts(files), u);
      lines := CreateAssociations(files);
      RegisterInstancesInside(old(entities), Emitted(options.pathPattern, mappedTypes, Candidates(options, FilesParts(files))), u);
    }

    /** The registries the missing-type loop changes. */
    function Snapshot(): Drawing
      reads this
    {
      Drawing(anonymous, serialized, associations, entities)
    }

    /**
     * The missing-type loop of `renderFiles`: rounds of drawing the registry
     * keys not yet serialized, until a round finds no key the previous one
     * had not already seen. Each round that goes on adds a registry key, and
     * the keys all lie in a bound fixed before the loop, so the loop ends.
     */
    method DrawMissingTypes(ghost u: set<Component>) returns (drawn: seq<string>, more: seq<string>)
      requires Valid() && Closed(u) && EntitiesInside(entities, u)
      modifies this`anonymous, this`serialized, this`associations, this`entities
      ensures var r := DrawLoop(options, mappedTypes, old(Snapshot()), [], u, KeySet(old(associations)) + mappedTypes + End1Names(u));
        Snapshot() == r.0 && drawn == r.1 && more == r.2
      ensures Valid()
    {
      drawn, more := [], [];
      var missing := FindMissing(serialized, associations);
      var last: seq<string> := [];
      ghost var bound := KeySet(associations) + mappedTypes + End1Names(u);
      ghost var s0 := Snapshot();
      LoopSoFarStart(options, mappedTypes, s0, u, bound);
      while HasUnseen(missing, last)
        invariant Valid()
        invariant missing == FindMissing(serialized, associations)
        invariant LoopSoFar(options, mappedTypes, s0, Snapshot(), last, drawn, more, u, bound)
        decreases |bound - KeySet(associations)|, if HasUnseen(missing, last) then 1 else 0
      {
        var d, m, next := DrawNext(missing, last, s0, drawn, more, u, bound);
        last, missing := missing, next;
        drawn, more := drawn + d, more + m;
      }
      LoopSoFarDone(options, mappedTypes, s0, Snapshot(), last, drawn, more, u, bound);
    }

    /**
     * One turn of the `while` loop of the missing-type loop: a round over the
     * keys missing now, which keeps the account of what the loop draws and
     * either adds a registry key or leaves no missing key unseen.
     */
    method DrawNext(current: seq<string>, ghost last: seq<string>, ghost s0: Drawing, ghost drawn: seq<string>,
                    ghost more: seq<string>, ghost u: set<Component>, ghost bound: set<string>)
      returns (d: seq<string>, m: seq<string>, missing: seq<string>)
      requires Valid() && current == FindMissing(serialized, associations) && HasUnseen(current, last)
      requires LoopSoFar(options, mappedTypes, s0, Snapshot(), last, drawn, more, u, bound)
      modifies this`anonymous, this`serialized, this`associations, this`entities
      ensures Valid() && missing == FindMissing(serialized, associations)
      ensures LoopSoFar(options, mappedTypes, s0, Snapshot(), current, drawn + d, more + m, u, bound)
      ensures |bound - KeySet(associations)| < |bound - KeySet(old(associations))| ||
              (|bound - KeySet(associations)| == |bound - KeySet(old(associations))| && !HasUnseen(missing, current))
    {
      ghost var s := Snapshot();
      d, m, missing := DrawRound(current, u, bound);
      RoundProgress(bound, s, Snapshot());
      LoopSoFarStep(options, mappedTypes, s0, s, last, drawn, more, u, bound, Snapshot(), d, m);
    }

    /** One round of the missing-type loop, over the keys missing when it starts. */
    method DrawRound(last: seq<string>, ghost u: set<Component>, ghost bound: set<string>)
      returns (drawn: seq<string>, more: seq<string>, missing: seq<string>)
      requires Valid() && DrawFrame(mappedTypes, Snapshot(), u, bound)
      requires last == FindMissing(serialized, associations)
      modifies this`anonymous, this`serialized, this`associations, this`entities
      ensures (Snapshot(), drawn, more) == RoundSpec(options, mappedTypes, old(Snapshot()), last, u, bound)
      ensures missing == FindMissing(serialized, associations)
      ensures Valid()
    {
      drawn, more, missing := [], [], last;
      ghost var s0 := Snapshot();
      var j := 0;
      while j < |last|
        invariant 0 <= j <= |last| && Valid() && DrawFrame(mappedTypes, Snapshot(), u, bound)
        invariant (Snapshot(), drawn, more) == RoundSpec(options, mappedTypes, s0, last[..j], u, bound)
        invariant missing == FindMissing(serialized, associations)
      {
        RoundStep(options, mappedTypes, s0, last, j, u, bound);
        var d, m;
        d, m, missing := DrawValue(last[j], missing, u, bound);
        drawn, more := drawn + d, more + m;
        j := j + 1;
      }
      assert last[..j] == last;
    }

    /**
     * One key of a round: skipped when it is an array whose element type is
     * still missing; drawn with its associations when registered; drawn as a
     * stub class otherwise, unless it names an interface or an instance.
     */
    method DrawValue(value: string, missing: seq<string>, ghost u: set<Component>, ghost bound: set<string>)
      returns (drawn: seq<string>, more: seq<string>, now: seq<string>)
      requires Valid() && DrawFrame(mappedTypes, Snapshot(), u, bound)
      requires missing == FindMissing(serialized, associations)
      modifies this`anonymous, this`serialized, this`associations, this`entities
      ensures (Snapshot(), drawn, more) == DrawValueSpec(options, mappedTypes, old(Snapshot()), value, u, bound)
      ensures now == FindMissing(serialized, associations)
      ensures Valid()
    {
      drawn, more, now := [], [], missing;
      var skip := false;
      if Contains(value, "[]") {
        MarkerHasOpenBracket(value);
        skip := value[..LastIndexOf(value, "[")] in missing;
      }
      if !skip {
        var name := StripArrays(value);
        if name in entities {
          var entity := entities[name];
          VisitInside(options, mappedTypes, entity, entities, associations, u, bound);
          var t, m := DrawRegistered(entity);
          if t != "" {
            drawn := [t];
          }
          more := m;
          now := FindMissing(serialized, associations);
        } else if !Contains(value, ".II") && !Contains(value, ".I") {
          var t := SerializeClass(StubClass(value));
          if t != "" {
            drawn := [t];
          }
        }
      }
    }

    /**
     * The branch of the missing-type loop for a registered type: the entity
     * is drawn, then its own associations are created.
     */
    method DrawRegistered(entity: Component) returns (t: string, more: seq<string>)
      requires Valid() && AllAligned(FilesParts([entity]))
      modifies this`anonymous, this`serialized, this`associations, this`entities
      ensures var (text, reg) := SerializeText(options, old(anonymous), entity, false);
        var es := Emitted(options.pathPattern, mappedTypes, Candidates(options, FilesParts([entity])));
        t == text && (more, anonymous) == EdgeLines(reg, es) &&
        associations == AddKeys(old(associations), Endpoints(es)) &&
        entities == RegisterInstances(old(entities), es)
      ensures serialized == old(serialized) + Registered(options, entity, false)
      ensures Valid()
    {
      t := Serialize(entity, false);
      more := CreateAssociations([entity]);
    }
  }

  /**
   * What `createAssociations([entity])` does to the registries, for an
   * entity whose visited parts lie in the closed set `u`: the parts have
   * typed slots, registered entities stay inside `u`, and registry keys grow
   * within `bound`.
   */
  lemma VisitInside(opts: Options, mapped: set<string>, entity: Component, ents: map<string, Component>,
                    keys: seq<string>, u: set<Component>, bound: set<string>)
    requires Closed(u) && EntitiesInside(ents, u) && entity in ents.Values
    requires mapped + End1Names(u) <= bound && KeySet(keys) <= bound
    ensures AllAligned(FilesParts([entity]))
    ensures var es := Emitted(opts.pathPattern, mapped, Candidates(opts, FilesParts([entity])));
      EntitiesInside(RegisterInstances(ents, es), u) &&
      KeySet(keys) <= KeySet(AddKeys(keys, Endpoints(es))) <= bound
  {
    var parts := FilesParts([entity]);
    assert AllAligned(parts) by {
      forall k | 0 <= k < |parts| ensures Aligned(parts[k]) {
        assert parts[k] in u;
      }
    }
    EmittedEndsBounded(opts, mapped, parts, u);
    EmittedFromParts(opts, mapped, parts, u);
    var es := Emitted(opts.pathPattern, mapped, Candidates(opts, parts));
    RegisterInstancesInside(ents, es, u);
    AddKeysFacts(keys, Endpoints(es));
  }

  /** One more top-level component registers what it declares after what came before. */
  lemma RegisterStep(ents: map<string, Component>, cs: seq<Component>, k: nat)
    requires k < |cs|
    ensures var prev := RegisterAll(ents, DeclaredEntities(cs[..k]));
      RegisterAll(ents, DeclaredEntities(cs[..k + 1])) ==
        if cs[k].IsEntity() then prev[FullName(cs[k]) := cs[k]]
        else if cs[k].File? || cs[k].Namespace? then RegisterAll(prev, DeclaredEntities(cs[k].parts))
        else prev
  {
    var c := cs[k];
    DeclaredEntitiesAppend(cs[..k], [c]);
    assert cs[..k + 1] == cs[..k] + [c];
    assert [c][1..] == [];
    assert DeclaredEntities([c]) == DeclaredIn(c) + DeclaredEntities([]) == DeclaredIn(c);
    RegisterAllAppend(ents, DeclaredEntities(cs[..k]), DeclaredIn(c));
    var prev := RegisterAll(ents, DeclaredEntities(cs[..k]));
    if c.IsEntity() {
      assert DeclaredIn(c) == [c];
      assert RegisterAll(prev, [c]) == RegisterAll(prev[FullName(c) := c], []);
    } else if c.Instance? {
      assert DeclaredIn(c) == [];
    }
  }

  lemma MapFilesStep(ents: map<string, Component>, opts: Options, mapped: set<string>, files: seq<Component>, i: nat)
    requires i < |files|
    ensures MapFiles(ents, opts, mapped, files[i..]) == MapFiles(ents, opts, MapOne(ents, opts, mapped, files[i]), files[i + 1..])
  {
    assert files[i..][0] == files[i];
    assert files[i..][1..] == files[i + 1..];
  }

  lemma MapSlotsStep(ents: map<string, Component>, opts: Options, mapped: set<string>, keys: seq<string>, j: nat)
    requires j < |keys|
    ensures var k := StripArrays(keys[j]);
      MapSlots(ents, opts, mapped, keys[j..]) ==
        MapSlots(ents, opts, if k in ents && k !in mapped then MapFiles(ents, opts, mapped + {k}, [ents[k]]) else mapped + {k}, keys[j + 1..])
  {
    assert keys[j..][0] == keys[j];
    assert keys[j..][1..] == keys[j + 1..];
  }

  /** One more candidate: its edge is emitted exactly when it passes with a fresh key. */
  lemma EmitStep(pattern: Option<string -> bool>, mapped: set<string>, cs: seq<Candidate>, i: nat)
    requires i < |cs|
    ensures var prev, e := Emitted(pattern, mapped, cs[..i]), EdgeOf(cs[i]);
      Emitted(pattern, mapped, cs[..i + 1]) == if Passes(pattern, mapped, e) && e.key !in Keys(prev) then prev + [e] else prev
  {
    assert cs[..i + 1][..i] == cs[..i];
  }

  /** Emitting one more edge adds that edge's line after the others. */
  lemma ExtendLines(reg: map<string, string>, es: seq<Edge>, e: Edge)
    ensures var (lines, reg1) := EdgeLines(reg, es);
      var (line, reg2) := PlantUml.AddAssociation(reg1, e.end1, e.cardinality, e.end2, e.check.memberName);
      EdgeLines(reg, es + [e]) == (lines + line, reg2)
  {
    assert (es + [e])[..|es|] == es;
  }

  /** Emitting one more edge sets its source end, then its target end. */
  lemma ExtendKeys(assoc: seq<string>, es: seq<Edge>, e: Edge)
    ensures AddKeys(assoc, Endpoints(es + [e])) == AddKey(AddKey(AddKeys(assoc, Endpoints(es)), e.end1), e.end2)
  {
    assert (es + [e])[..|es|] == es;
    var ks := Endpoints(es);
    assert Endpoints(es + [e]) == ks + [e.end1, e.end2];
    assert (ks + [e.end1, e.end2])[..|ks| + 1] == ks + [e.end1];
    assert (ks + [e.end1])[..|ks|] == ks;
  }

  /** Emitting one more instance edge registers its two ends. */
  lemma ExtendEntities(ents: map<string, Component>, es: seq<Edge>, e: Edge)
    ensures var prev := RegisterInstances(ents, es);
      RegisterInstances(ents, es + [e]) ==
        if e.check.target.Some? then prev[e.end1 := e.part][e.end2 := Instance(e.check.target.value)] else prev
  {
    assert (es + [e])[..|es|] == es;
  }

  lemma ExtendSeen(es: seq<Edge>, e: Edge)
    ensures Keys(es + [e]) == Keys(es) + {e.key}
  {
  }
}
