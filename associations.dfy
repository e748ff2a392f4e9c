/**
 * Association inference of src/Models/Formatter.ts as functions of the
 * component tree and the registries: which members name a non-primitive
 * type, which components take part, the candidate edges in visiting order,
 * the cardinality and end-point rules, and the filter with its duplicate
 * check. The `Formatter` class runs these rules step by step.
 */
module Associations {
  import opened Wrappers
  import opened Text
  import opened Model
  import PlantUml

  // ---------------------------------------------------------------- isComplexType

  /** The type names `isComplexType` treats as primitive. */
  const Primitives: set<string> := {
    "number", "boolean", "undefined", "bigint", "string", "symbol", "Date", "Intl.Date", "void",
    "number[]", "boolean[]", "undefined[]", "bigint[]", "string[]", "symbol[]", "Date[]", "Intl.Date[]",
    "false", "true", "\""
  }

  /** The union members of a type text: spaces removed, split on `|`. */
  function TypeTokens(t: string): seq<string>
  {
    Split(RemoveChar(t, ' '), '|')
  }

  /** `findIndex` of the first token that is not primitive, or -1. */
  function FindNonPrimitive(ts: seq<string>): (r: int)
    ensures r == -1 <==> forall k :: 0 <= k < |ts| ==> ts[k] in Primitives
    ensures r != -1 ==> 0 <= r < |ts| && ts[r] !in Primitives
  {
    if ts == [] then -1
    else if ts[0] !in Primitives then 0
    else
      var r := FindNonPrimitive(ts[1..]);
      if r == -1 then -1 else r + 1
  }

  /** `isComplexType`: false iff every space-stripped `|` token is in the primitive list. */
  function IsComplexType(t: string): (r: bool)
    ensures !r <==> forall k :: 0 <= k < |TypeTokens(t)| ==> TypeTokens(t)[k] in Primitives
  {
    FindNonPrimitive(TypeTokens(t)) != -1
  }

  /** A single type name without spaces or `|` is complex iff it is not in the primitive list. */
  lemma SingleTypeIsComplex(t: string)
    requires ' ' !in t && '|' !in t
    ensures IsComplexType(t) <==> t !in Primitives
  {
    RemoveCharAbsent(t, ' ');
    SplitJoin(t, '|');
    var ts := TypeTokens(t);
    assert |ts| == 1;
    assert Join(ts, "|") == ts[0];
  }

  /** `getAssociations`: the property itself when its joined type is complex, else nothing. */
  function GetAssociations(p: Property): (r: seq<Property>)
    ensures |r| <= 1 && (r != [] <==> IsComplexType(Join(p.returnType, " | ")))
    ensures r != [] ==> r[0] == p
  {
    if IsComplexType(Join(p.returnType, " | ")) then [p] else []
  }

  // ---------------------------------------------------------------- getAssociativeParts

  /**
   * `getAssociativeParts`: classes, interfaces, enums and component
   * instances in pre-order, descending through namespaces and instance
   * parts; a file yields nothing.
   */
  function AssociativeParts(c: Component): (r: seq<Component>)
    ensures c.File? ==> r == []
    ensures c.IsEntity() ==> r == [c]
    ensures c.Instance? ==> |r| >= 1 && r[0] == c
    ensures forall x :: x in r ==> x.IsEntity() || x.Instance?
    decreases c, 1
  {
    match c
    case File(_, _) => []
    case Namespace(_, _, _, parts) => PartsOf(parts)
    case Instance(i) => InstanceParts(i)
    case _ => [c]
  }

  /** The associative parts of each component of a list, concatenated in order. */
  function PartsOf(ps: seq<Component>): (r: seq<Component>)
    ensures forall x :: x in r ==> x.IsEntity() || x.Instance?
    decreases ps, 0
  {
    if ps == [] then [] else AssociativeParts(ps[0]) + PartsOf(ps[1..])
  }

  function InstanceParts(i: ComponentInstance): (r: seq<Component>)
    ensures |r| >= 1 && r[0] == Instance(i)
    ensures forall x :: x in r ==> x.Instance?
    decreases i, 1
  {
    [Instance(i)] + InstancesParts(i.parts)
  }

  function InstancesParts(insts: seq<ComponentInstance>): (r: seq<Component>)
    ensures forall x :: x in r ==> x.Instance?
    decreases insts, 0
  {
    if insts == [] then [] else InstanceParts(insts[0]) + InstancesParts(insts[1..])
  }

  /** A namespace is never an associative part, however deep it sits. */
  lemma NamespacesAreTraversed(c: Component)
    requires c.Namespace?
    ensures c !in AssociativeParts(c)
  {
  }

  /** Every part of a child instance is a part of its parent. */
  lemma {:induction false} ChildInstanceIsPart(insts: seq<ComponentInstance>, k: nat)
    requires k < |insts|
    ensures Instance(insts[k]) in InstancesParts(insts)
    decreases k
  {
    if k > 0 { ChildInstanceIsPart(insts[1..], k - 1); }
  }

  /** Associative parts are closed: the parts of a part are parts of the whole. */
  lemma {:induction false} AssociativePartsClosed(c: Component, x: Component)
    requires x in AssociativeParts(c)
    ensures forall y :: y in AssociativeParts(x) ==> y in AssociativeParts(c)
    decreases c, 1
  {
    match c
    case File(_, _) =>
    case Namespace(_, _, _, parts) => PartsOfClosed(parts, x);
    case Instance(i) => InstancePartsClosed(i, x);
    case _ =>
  }

  lemma {:induction false} PartsOfClosed(ps: seq<Component>, x: Component)
    requires x in PartsOf(ps)
    ensures forall y :: y in AssociativeParts(x) ==> y in PartsOf(ps)
    decreases ps, 0
  {
    if x in AssociativeParts(ps[0]) {
      AssociativePartsClosed(ps[0], x);
    } else {
      PartsOfClosed(ps[1..], x);
    }
  }

  lemma {:induction false} InstancePartsClosed(i: ComponentInstance, x: Component)
    requires x in InstanceParts(i)
    ensures forall y :: y in AssociativeParts(x) ==> y in InstanceParts(i)
    decreases i, 1
  {
    if x != Instance(i) {
      InstancesPartsClosed(i.parts, x);
    }
  }

  lemma {:induction false} InstancesPartsClosed(insts: seq<ComponentInstance>, x: Component)
    requires x in InstancesParts(insts)
    ensures forall y :: y in AssociativeParts(x) ==> y in InstancesParts(insts)
    decreases insts, 0
  {
    if x in InstanceParts(insts[0]) {
      InstancePartsClosed(insts[0], x);
    } else {
      InstancesPartsClosed(insts[1..], x);
    }
  }

  /** What `createAssociations` walks for one argument: a file's parts, any other component itself. */
  function Elements(f: Component): seq<Component>
  {
    if f.File? then f.parts else [f]
  }

  /** The associative parts visited by `createAssociations(files)`, in visiting order. */
  function FilesParts(files: seq<Component>): (r: seq<Component>)
    ensures forall x :: x in r ==> x.IsEntity() || x.Instance?
  {
    if files == [] then [] else PartsOf(Elements(files[0])) + FilesParts(files[1..])
  }

  lemma {:induction false} FilesPartsAppend(a: seq<Component>, b: seq<Component>)
    ensures FilesParts(a + b) == FilesParts(a) + FilesParts(b)
  {
    if a == [] {
      assert a + b == b;
    } else {
      assert (a + b)[1..] == a[1..] + b;
      FilesPartsAppend(a[1..], b);
    }
  }

  /** A component that is not a file contributes exactly its own associative parts. */
  lemma SinglePartsOf(c: Component)
    requires !c.File?
    ensures FilesParts([c]) == AssociativeParts(c)
  {
    assert PartsOf([c]) == AssociativeParts(c) + PartsOf([]);
  }

  // ---------------------------------------------------------------- candidates

  /**
   * One entry of the `checks` list: the member's name, the full, simple and
   * module names of one type slot and, for a component instance, the child.
   */
  datatype Check = Check(
    memberName: string,
    fullName: Option<string>,
    simpleName: string,
    moduleName: Option<string>,
    target: Option<ComponentInstance>)

  /** The return slots of a member read `returnType[i] ?? returnType[0]`; this needs a type when there is a slot. */
  predicate SlotsTyped(m: Member)
  {
    |m.FullNames()| > 0 ==> |m.ReturnType()| > 0
  }

  predicate Aligned(p: Component)
  {
    (p.Class? || p.Interface?) ==> forall k :: 0 <= k < |p.members| ==> SlotsTyped(p.members[k])
  }

  predicate AllAligned(ps: seq<Component>)
  {
    forall k :: 0 <= k < |ps| ==> Aligned(ps[k])
  }

  /** One check per return slot, in slot order. */
  function SlotChecks(m: Member): (r: seq<Check>)
    requires SlotsTyped(m)
    ensures |r| == |m.FullNames()|
    ensures forall i :: 0 <= i < |r| ==> r[i].memberName == m.Name() && r[i].target.None?
  {
    var full, rt := m.FullNames(), m.ReturnType();
    seq(|full|, i requires 0 <= i < |full| =>
      Check(m.Name(), full[i], if i < |rt| then rt[i] else rt[0], At(m.ModuleNames(), i), None))
  }

  /**
   * The checks of one member: a property's return slots always, a method's
   * only without the onlyAssociations option. The method parameter loop
   * never adds a check, so parameters do not appear here.
   */
  function MemberChecks(opts: Options, m: Member): (r: seq<Check>)
    requires SlotsTyped(m)
    ensures m.PropertyMember? || !opts.onlyAssociations ==> |r| == |m.FullNames()|
    ensures m.MethodMember? && opts.onlyAssociations ==> r == []
  {
    if m.PropertyMember? || !opts.onlyAssociations then SlotChecks(m) else []
  }

  /** Replacing a method's parameters does not change its checks. */
  lemma ParametersContributeNothing(opts: Options, m: Method, ps: seq<Parameter>)
    requires SlotsTyped(MethodMember(m))
    ensures MemberChecks(opts, MethodMember(m.(parameters := ps))) == MemberChecks(opts, MethodMember(m))
  {
  }

  function MembersChecks(opts: Options, ms: seq<Member>): seq<Check>
    requires forall k :: 0 <= k < |ms| ==> SlotsTyped(ms[k])
  {
    if ms == [] then [] else MemberChecks(opts, ms[0]) + MembersChecks(opts, ms[1..])
  }

  /** The check of one child of a component instance. */
  function ChildCheck(child: ComponentInstance): (r: Check)
    ensures r.target == Some(child) && r.memberName == child.name
  {
    Check(child.name, Some(child.componentPath), child.name, Some(child.moduleName), Some(child))
  }

  function ChildChecks(children: seq<ComponentInstance>): (r: seq<Check>)
    ensures |r| == |children| && forall k :: 0 <= k < |r| ==> r[k] == ChildCheck(children[k])
  {
    if children == [] then [] else [ChildCheck(children[0])] + ChildChecks(children[1..])
  }

  /** With AngularJS components configured, classes and interfaces take no part. */
  predicate Skipped(opts: Options, part: Component)
  {
    |opts.angularJSComponents| > 0 && (part.Class? || part.Interface?)
  }

  /** The checks of one associative part: its members' slots, or its child instances. */
  function PartChecks(opts: Options, part: Component): (r: seq<Check>)
    requires Aligned(part)
    ensures Skipped(opts, part) || part.Enum? ==> r == []
    ensures forall k :: 0 <= k < |r| ==> (r[k].target.Some? <==> part.Instance?)
    ensures part.Instance? ==> r == ChildChecks(part.instance.parts)
  {
    if Skipped(opts, part) then []
    else match part
      case Class(_, _, _, _, _, _, _, members, _, _, _, _, _) => MembersChecksTagged(opts, members)
      case Interface(_, _, _, members, _, _, _) => MembersChecksTagged(opts, members)
      case Instance(i) => ChildChecks(i.parts)
      case _ => []
  }

  function MembersChecksTagged(opts: Options, ms: seq<Member>): (r: seq<Check>)
    requires forall k :: 0 <= k < |ms| ==> SlotsTyped(ms[k])
    ensures forall k :: 0 <= k < |r| ==> r[k].target.None?
  {
    if ms == [] then [] else MemberChecks(opts, ms[0]) + MembersChecksTagged(opts, ms[1..])
  }

  /** A check together with the associative part whose member produced it. */
  datatype Candidate = Candidate(part: Component, check: Check)

  function Tag(part: Component, cs: seq<Check>): (r: seq<Candidate>)
    ensures |r| == |cs| && forall k :: 0 <= k < |r| ==> r[k] == Candidate(part, cs[k])
  {
    if cs == [] then [] else [Candidate(part, cs[0])] + Tag(part, cs[1..])
  }

  /** All candidates of a list of associative parts, in visiting order. */
  function Candidates(opts: Options, parts: seq<Component>): (r: seq<Candidate>)
    requires AllAligned(parts)
  {
    if parts == [] then [] else Tag(parts[0], PartChecks(opts, parts[0])) + Candidates(opts, parts[1..])
  }

  /** A candidate comes from one of the parts, and an instance candidate targets a child of its part. */
  predicate CandidateFrom(c: Candidate, parts: seq<Component>)
  {
    c.part in parts && (c.check.target.Some? ==> c.part.Instance? && c.check.target.value in c.part.instance.parts)
  }

  lemma {:induction false} CandidatesOrigin(opts: Options, parts: seq<Component>)
    requires AllAligned(parts)
    ensures forall k :: 0 <= k < |Candidates(opts, parts)| ==> CandidateFrom(Candidates(opts, parts)[k], parts)
  {
    if parts != [] {
      var head := Tag(parts[0], PartChecks(opts, parts[0]));
      var rest := Candidates(opts, parts[1..]);
      assert Candidates(opts, parts) == head + rest;
      TagOrigin(opts, parts[0]);
      CandidatesOrigin(opts, parts[1..]);
      forall k | 0 <= k < |head + rest| ensures CandidateFrom((head + rest)[k], parts) {
        if k < |head| {
          assert (head + rest)[k] == head[k];
          CandidateFromHead(head[k], parts);
        } else {
          assert (head + rest)[k] == rest[k - |head|];
          CandidateFromTail(rest[k - |head|], parts);
        }
      }
    }
  }

  /** The candidates of one part come from that part. */
  lemma TagOrigin(opts: Options, part: Component)
    requires Aligned(part)
    ensures var head := Tag(part, PartChecks(opts, part));
      forall k :: 0 <= k < |head| ==> CandidateFrom(head[k], [part])
  {
    var cs := PartChecks(opts, part);
    var head := Tag(part, cs);
    forall k | 0 <= k < |head| ensures CandidateFrom(head[k], [part]) {
      assert head[k] == Candidate(part, cs[k]);
      if cs[k].target.Some? {
        assert cs[k] == ChildCheck(part.instance.parts[k]);
      }
    }
  }

  lemma CandidateFromHead(c: Candidate, parts: seq<Component>)
    requires parts != [] && CandidateFrom(c, [parts[0]])
    ensures CandidateFrom(c, parts)
  {
    assert parts[0] in parts;
  }

  lemma CandidateFromTail(c: Candidate, parts: seq<Component>)
    requires parts != [] && CandidateFrom(c, parts[1..])
    ensures CandidateFrom(c, parts)
  {
    var m :| 0 <= m < |parts[1..]| && parts[1..][m] == c.part;
    assert parts[m + 1] == c.part;
  }

  // ---------------------------------------------------------------- edges

  /** The short type name: after the last dot of a defined full name, else the simple name. */
  function ShortName(ch: Check): string
  {
    if Truthy(ch.fullName) then AfterLastDot(ch.fullName.value) else ch.simpleName
  }

  /** The source end of an edge: the part's full name (the component path for an instance), markers removed. */
  function End1Name(part: Component): string
  {
    StripArrays(QualifiedName(part.ModuleOf(), part.NamespaceOf(), if part.Instance? then part.instance.componentPath else part.Name()))
  }

  /** The values `createAssociations` computes for one candidate. */
  datatype Edge = Edge(
    part: Component,
    check: Check,
    typeName: string,
    cardinality: string,
    end1: string,
    end2: string,
    key: string)

  lemma SuffixOccurs(s: string, t: string)
    requires EndsWith(s, t)
    ensures 0 <= IndexOf(s, t) <= |s| - |t|
  {
    assert OccursAt(s, t, |s| - |t|);
  }

  function EdgeOf(c: Candidate): (e: Edge)
    ensures e.part == c.part && e.check == c.check && e.end1 == End1Name(c.part)
  {
    var short := ShortName(c.check);
    var isArray := EndsWith(short, "[]");
    var typeName := if isArray then (SuffixOccurs(short, "[]"); short[..IndexOf(short, "[]")]) else short;
    var cardinality := if isArray then "*" else if c.check.target.Some? then "" else "1";
    var end1 := End1Name(c.part);
    var end2 := StripArrays(QualifiedName(c.check.moduleName.GetOr(""), "", if Truthy(c.check.fullName) then c.check.fullName.value else typeName));
    Edge(c.part, c.check, typeName, cardinality, end1, end2, end1 + " " + cardinality + " " + end2 + " " + c.check.memberName)
  }

  /**
   * The cardinality is `*` iff the short name ends in `[]`, and then the type
   * name is the short name cut before its first `[]`; otherwise it is `1`, or
   * empty for a component instance, and the type name is the short name.
   */
  lemma Cardinality(c: Candidate)
    ensures var e, short := EdgeOf(c), ShortName(c.check);
      (e.cardinality == "*" <==> EndsWith(short, "[]")) &&
      (EndsWith(short, "[]") ==> !Contains(e.typeName, "[]") && e.typeName <= short) &&
      (!EndsWith(short, "[]") ==> e.typeName == short && e.cardinality == (if c.check.target.Some? then "" else "1"))
  {
    var e, short := EdgeOf(c), ShortName(c.check);
    if EndsWith(short, "[]") {
      SuffixOccurs(short, "[]");
      var k := IndexOf(short, "[]");
      assert e.typeName == short[..k];
      if Contains(e.typeName, "[]") {
        var j := IndexOf(e.typeName, "[]");
        OccursInPrefix(short, k, "[]", j);
        assert false;
      }
    }
  }

  /** An occurrence in a prefix is an occurrence in the whole string. */
  lemma OccursInPrefix(s: string, k: nat, t: string, j: int)
    requires k <= |s| && OccursAt(s[..k], t, j)
    ensures OccursAt(s, t, j)
  {
    assert s[..k][j..j + |t|] == s[j..j + |t|];
  }

  /** The first `[]` of `t + "[]"` is the appended one when `t` has none. */
  lemma FirstMarkerAppended(t: string)
    requires !Contains(t, "[]")
    ensures IndexOf(t + "[]", "[]") == |t|
  {
    var s := t + "[]";
    assert OccursAt(s, "[]", |t|);
    assert IndexOfFrom(t, "[]", 0) == -1;
    forall j | 0 <= j < |t| ensures !OccursAt(s, "[]", j) {
      if j + 2 <= |t| {
        assert !OccursAt(t, "[]", j);
        assert t[j..j + 2] != "[]";
        assert s[j..j + 2] == t[j..j + 2];
      } else {
        assert j + 1 == |t| && s[j + 1] == '[';
        assert s[j..j + 2][1] == s[j + 1];
        assert s[j..j + 2] != "[]";
      }
    }
  }

  /**
   * Without a defined full name, an array member `T[]` points at the same
   * target as a plain member `T`, with cardinality `*` instead of `1` (or
   * empty for an instance), and both carry the type name `T`.
   */
  lemma ArrayTargetEnd(c: Candidate, t: string)
    requires !Truthy(c.check.fullName) && c.check.simpleName == t + "[]" && !Contains(t, "[]")
    ensures var e, p := EdgeOf(c), EdgeOf(c.(check := c.check.(simpleName := t)));
      e.typeName == t && p.typeName == t && e.end2 == p.end2 &&
      e.cardinality == "*" && p.cardinality == (if c.check.target.Some? then "" else "1")
  {
    FirstMarkerAppended(t);
    assert EndsWith(t + "[]", "[]");
    assert (t + "[]")[..|t|] == t;
    if EndsWith(t, "[]") {
      SuffixOccurs(t, "[]");
      assert false;
    }
  }

  /** The three conditions of line 511 and the path filter of lines 501-509, apart from the duplicate check. */
  predicate Passes(pattern: Option<string -> bool>, mapped: set<string>, e: Edge)
  {
    e.typeName != e.part.Name() && e.end2 in mapped &&
    (pattern.None? || Matches(pattern, e.end1) || Matches(pattern, e.end2))
  }

  function Keys(es: seq<Edge>): set<string>
  {
    set e | e in es :: e.key
  }

  /**
   * The edges one `createAssociations` call emits, in order: each candidate
   * that passes and whose key no earlier emitted edge has.
   */
  function Emitted(pattern: Option<string -> bool>, mapped: set<string>, cs: seq<Candidate>): (r: seq<Edge>)
    ensures |r| <= |cs|
  {
    if cs == [] then []
    else
      var prev := Emitted(pattern, mapped, cs[..|cs| - 1]);
      var e := EdgeOf(cs[|cs| - 1]);
      if Passes(pattern, mapped, e) && e.key !in Keys(prev) then prev + [e] else prev
  }

  /** Every emitted edge passes the filters. */
  lemma {:induction false} EmittedPass(pattern: Option<string -> bool>, mapped: set<string>, cs: seq<Candidate>)
    ensures forall k :: 0 <= k < |Emitted(pattern, mapped, cs)| ==> Passes(pattern, mapped, Emitted(pattern, mapped, cs)[k])
  {
    if cs != [] {
      var prev := Emitted(pattern, mapped, cs[..|cs| - 1]);
      EmittedPass(pattern, mapped, cs[..|cs| - 1]);
      var e := EdgeOf(cs[|cs| - 1]);
      if Passes(pattern, mapped, e) && e.key !in Keys(prev) {
        assert forall k :: 0 <= k < |prev| ==> (prev + [e])[k] == prev[k];
      }
    }
  }

  predicate DistinctKeys(es: seq<Edge>)
  {
    forall j, k :: 0 <= j < k < |es| ==> es[j].key != es[k].key
  }

  lemma AppendFreshKey(prev: seq<Edge>, e: Edge)
    requires DistinctKeys(prev) && e.key !in Keys(prev)
    ensures DistinctKeys(prev + [e])
  {
    var r := prev + [e];
    forall j, k | 0 <= j < k < |r| ensures r[j].key != r[k].key {
      assert r[j] == prev[j] && prev[j] in prev;
      if k < |prev| { assert r[k] == prev[k]; }
    }
  }

  /** No two emitted edges share a key. */
  lemma {:induction false} EmittedKeysDistinct(pattern: Option<string -> bool>, mapped: set<string>, cs: seq<Candidate>)
    ensures DistinctKeys(Emitted(pattern, mapped, cs))
  {
    if cs != [] {
      var prev := Emitted(pattern, mapped, cs[..|cs| - 1]);
      EmittedKeysDistinct(pattern, mapped, cs[..|cs| - 1]);
      var e := EdgeOf(cs[|cs| - 1]);
      if Passes(pattern, mapped, e) && e.key !in Keys(prev) {
        AppendFreshKey(prev, e);
      }
    }
  }

  /** Every emitted edge is the edge of one of the candidates. */
  lemma {:induction false} EmittedFromCandidates(pattern: Option<string -> bool>, mapped: set<string>, cs: seq<Candidate>)
    ensures forall e :: e in Emitted(pattern, mapped, cs) ==> exists k :: 0 <= k < |cs| && e == EdgeOf(cs[k])
  {
    if cs != [] {
      var init := cs[..|cs| - 1];
      EmittedFromCandidates(pattern, mapped, init);
      forall e | e in Emitted(pattern, mapped, cs) ensures exists k :: 0 <= k < |cs| && e == EdgeOf(cs[k]) {
        if e in Emitted(pattern, mapped, init) {
          var k :| 0 <= k < |init| && e == EdgeOf(init[k]);
          assert init[k] == cs[k];
        } else {
          assert e == EdgeOf(cs[|cs| - 1]);
        }
      }
    }
  }

  /** Every candidate that passes has its key emitted, by itself or by an earlier candidate. */
  lemma {:induction false} EmittedComplete(pattern: Option<string -> bool>, mapped: set<string>, cs: seq<Candidate>)
    ensures forall k :: 0 <= k < |cs| && Passes(pattern, mapped, EdgeOf(cs[k])) ==> EdgeOf(cs[k]).key in Keys(Emitted(pattern, mapped, cs))
  {
    if cs != [] {
      var init := cs[..|cs| - 1];
      EmittedComplete(pattern, mapped, init);
      EmittedGrows(pattern, mapped, cs);
      forall k | 0 <= k < |cs| - 1 && Passes(pattern, mapped, EdgeOf(cs[k]))
        ensures EdgeOf(cs[k]).key in Keys(Emitted(pattern, mapped, cs))
      {
        assert cs[k] == init[k];
      }
    }
  }

  /** One more candidate keeps the emitted keys and, when it passes, has its key among them. */
  lemma EmittedGrows(pattern: Option<string -> bool>, mapped: set<string>, cs: seq<Candidate>)
    requires cs != []
    ensures var e := EdgeOf(cs[|cs| - 1]);
      Keys(Emitted(pattern, mapped, cs[..|cs| - 1])) <= Keys(Emitted(pattern, mapped, cs)) &&
      (Passes(pattern, mapped, e) ==> e.key in Keys(Emitted(pattern, mapped, cs)))
  {
    var prev := Emitted(pattern, mapped, cs[..|cs| - 1]);
    KeysAppend(prev, EdgeOf(cs[|cs| - 1]));
  }

  lemma KeysAppend(es: seq<Edge>, e: Edge)
    ensures Keys(es + [e]) == Keys(es) + {e.key}
  {
    assert forall x :: x in es + [e] <==> x in es || x == e;
  }

  // ---------------------------------------------------------------- registries

  /** `associationsRegistry.set(k, true)`: a key is appended the first time it is set. */
  function AddKey(reg: seq<string>, k: string): (r: seq<string>)
  {
    if k in reg then reg else reg + [k]
  }

  predicate Distinct(s: seq<string>)
  {
    forall i, j :: 0 <= i < j < |s| ==> s[i] != s[j]
  }

  /** Setting the keys of `ks` in order: the registry keeps its order and gains the new keys once each. */
  function AddKeys(reg: seq<string>, ks: seq<string>): (r: seq<string>)
    ensures |r| >= |reg|
  {
    if ks == [] then reg else AddKey(AddKeys(reg, ks[..|ks| - 1]), ks[|ks| - 1])
  }

  /** The registry ends up with its old keys, in their order, and gains the new keys once each. */
  lemma {:induction false} AddKeysFacts(reg: seq<string>, ks: seq<string>)
    ensures forall x :: x in AddKeys(reg, ks) <==> x in reg || x in ks
    ensures AddKeys(reg, ks)[..|reg|] == reg
    ensures Distinct(reg) ==> Distinct(AddKeys(reg, ks))
  {
    if ks != [] {
      var init := ks[..|ks| - 1];
      AddKeysFacts(reg, init);
      assert ks == init + [ks[|ks| - 1]];
      var prev := AddKeys(reg, init);
      if ks[|ks| - 1] !in prev {
        assert (prev + [ks[|ks| - 1]])[..|reg|] == prev[..|reg|];
      }
    }
  }

  /** Both ends of each edge, source first. */
  function Endpoints(es: seq<Edge>): (r: seq<string>)
    ensures |r| == 2 * |es|
    ensures forall k :: 0 <= k < |es| ==> r[2 * k] == es[k].end1 && r[2 * k + 1] == es[k].end2
  {
    if es == [] then [] else Endpoints(es[..|es| - 1]) + [es[|es| - 1].end1, es[|es| - 1].end2]
  }

  /** Every emitted edge puts both of its ends in the registry. */
  lemma EndpointsRegistered(reg: seq<string>, es: seq<Edge>)
    ensures forall e :: e in es ==> e.end1 in AddKeys(reg, Endpoints(es)) && e.end2 in AddKeys(reg, Endpoints(es))
  {
    AddKeysFacts(reg, Endpoints(es));
    forall e | e in es ensures e.end1 in Endpoints(es) && e.end2 in Endpoints(es) {
      var k :| 0 <= k < |es| && es[k] == e;
      assert Endpoints(es)[2 * k] == e.end1;
      assert Endpoints(es)[2 * k + 1] == e.end2;
    }
  }

  /** The entity registrations of instance edges: the source part and the child, in order. */
  function RegisterInstances(ents: map<string, Component>, es: seq<Edge>): (r: map<string, Component>)
    ensures r.Keys >= ents.Keys
  {
    if es == [] then ents
    else
      var prev := RegisterInstances(ents, es[..|es| - 1]);
      var e := es[|es| - 1];
      if e.check.target.Some? then prev[e.end1 := e.part][e.end2 := Instance(e.check.target.value)] else prev
  }

  /** The edge lines, threading the placeholder registry through each `addAssociation`. */
  function EdgeLines(reg: map<string, string>, es: seq<Edge>): (res: (seq<string>, map<string, string>))
    ensures |res.0| == |es|
  {
    if es == [] then ([], reg)
    else
      var (lines, reg1) := EdgeLines(reg, es[..|es| - 1]);
      var e := es[|es| - 1];
      var (line, reg2) := PlantUml.AddAssociation(reg1, e.end1, e.cardinality, e.end2, e.check.memberName);
      (lines + line, reg2)
  }

  // ---------------------------------------------------------------- missing types

  /**
   * `findMissingAssociationTypesDefinitions`: the registry keys, in order,
   * whose marker-free form has not been serialized.
   */
  function FindMissing(serialized: set<string>, assoc: seq<string>): (r: seq<string>)
    ensures |r| <= |assoc|
  {
    if assoc == [] then []
    else
      var rest := FindMissing(serialized, assoc[1..]);
      if StripArrays(assoc[0]) !in serialized then [assoc[0]] + rest else rest
  }

  /** The keys kept are exactly those whose marker-free form has not been serialized, each once when the registry has no duplicate. */
  lemma {:induction false} FindMissingFacts(serialized: set<string>, assoc: seq<string>)
    ensures forall x :: x in FindMissing(serialized, assoc) <==> x in assoc && StripArrays(x) !in serialized
    ensures Distinct(assoc) ==> Distinct(FindMissing(serialized, assoc))
  {
    if assoc != [] {
      FindMissingFacts(serialized, assoc[1..]);
      assert assoc == [assoc[0]] + assoc[1..];
      var rest := FindMissing(serialized, assoc[1..]);
      if Distinct(assoc) {
        assert Distinct(assoc[1..]);
        assert assoc[0] !in assoc[1..];
        var r := FindMissing(serialized, assoc);
        if StripArrays(assoc[0]) !in serialized {
          forall i, j | 0 <= i < j < |r| ensures r[i] != r[j] {
            if i == 0 { assert r[j] == rest[j - 1] && rest[j - 1] in rest; }
            else { assert r[i] == rest[i - 1] && r[j] == rest[j - 1]; }
          }
        }
      }
    }
  }
}
