/**
 * The PlantUML line formats of src/Formatter/PlantUMLFormat.ts and the
 * placeholder map of `getAnonymized`, stated as functions of their inputs.
 * The choice of which member lines appear (which depends on the options)
 * belongs to the formatter; here a member block receives those lines.
 */
module PlantUml {
  import opened Wrappers
  import opened Text
  import opened Model

  /** `os.EOL`, taken as a line feed. */
  const EOL: string := "\n"

  /** `header()`: `@startuml`, followed by an `!include` line when a customization file is set. */
  function Header(customization: Option<string>): (r: seq<string>)
    ensures |r| == if customization.Some? then 2 else 1
    ensures r[0] == "@startuml"
    ensures customization.Some? ==> r[1] == "!include " + customization.value
  {
    ["@startuml"] + (if customization.Some? then ["!include " + customization.value] else [])
  }

  /** `footer()`. */
  function Footer(): (r: seq<string>)
    ensures r == ["@enduml"]
  {
    ["@enduml"]
  }

  // ---------------------------------------------------------------- placeholders

  function Digit(d: nat): char
    requires d < 10
  {
    "0123456789"[d]
  }

  /** The decimal rendering of a number, as string concatenation writes it. */
  function NatToString(n: nat): (r: string)
    ensures |r| >= 1
    ensures n >= 10 ==> |r| >= 2
    decreases n
  {
    if n < 10 then [Digit(n)] else NatToString(n / 10) + [Digit(n % 10)]
  }

  lemma DigitInjective(a: nat, b: nat)
    requires a < 10 && b < 10 && Digit(a) == Digit(b)
    ensures a == b
  {
  }

  lemma {:induction false} NatToStringInjective(a: nat, b: nat)
    requires NatToString(a) == NatToString(b)
    ensures a == b
    decreases a
  {
    var sa, sb := NatToString(a), NatToString(b);
    if a < 10 && b < 10 {
      DigitInjective(a, b);
    } else if a >= 10 && b >= 10 {
      assert sa[..|sa| - 1] == NatToString(a / 10);
      assert sb[..|sb| - 1] == NatToString(b / 10);
      assert sa[|sa| - 1] == Digit(a % 10) && sb[|sb| - 1] == Digit(b % 10);
      DigitInjective(a % 10, b % 10);
      NatToStringInjective(a / 10, b / 10);
    }
  }

  /** The placeholder `Anonymous@N`. */
  function Placeholder(n: nat): string
  {
    "Anonymous@" + NatToString(n)
  }

  lemma PlaceholderInjective(a: nat, b: nat)
    requires Placeholder(a) == Placeholder(b)
    ensures a == b
  {
    assert Placeholder(a)[10..] == NatToString(a);
    assert Placeholder(b)[10..] == NatToString(b);
    NatToStringInjective(a, b);
  }

  /** A name that `getAnonymized` replaces: it contains `{` or `(`. */
  predicate NeedsPlaceholder(name: string)
  {
    Contains(name, "{") || Contains(name, "(")
  }

  /**
   * `getAnonymized` as a function of the registry: a name without `{` and
   * `(` is returned as it is; any other name gets its stored placeholder or,
   * when first seen, `Anonymous@N` with N the registry's size, which is stored.
   */
  function Anonymize(reg: map<string, string>, name: string): (res: (string, map<string, string>))
  {
    if !NeedsPlaceholder(name) then (name, reg)
    else if name in reg && reg[name] != "" then (reg[name], reg)
    else
      var p := Placeholder(|reg|);
      (p, reg[name := p])
  }

  /** The registry `getAnonymized` keeps: placeholder names, each `Anonymous@N` for a distinct N below its size. */
  ghost predicate ValidRegistry(reg: map<string, string>)
  {
    (forall k :: k in reg ==> NeedsPlaceholder(k)) &&
    (forall k :: k in reg ==> exists n: nat :: n < |reg| && reg[k] == Placeholder(n)) &&
    (forall k1, k2 :: k1 in reg && k2 in reg && k1 != k2 ==> reg[k1] != reg[k2])
  }

  /** A name without `{` or `(` is returned unchanged and the registry is left alone. */
  lemma AnonymizeIdentity(reg: map<string, string>, name: string)
    requires !Contains(name, "{") && !Contains(name, "(")
    ensures Anonymize(reg, name) == (name, reg)
  {
  }

  /**
   * A name needing a placeholder that is seen for the first time gets
   * `Anonymous@N` with N the registry's size; seen again, it gets the same
   * value and the registry does not change.
   */
  lemma {:induction false} AnonymizeFirstAndRepeat(reg: map<string, string>, name: string)
    requires ValidRegistry(reg) && NeedsPlaceholder(name) && name !in reg
    ensures Anonymize(reg, name).0 == Placeholder(|reg|)
    ensures var (p, reg2) := Anonymize(reg, name); Anonymize(reg2, name) == (p, reg2)
  {
  }

  lemma RegistryValuesNonEmpty(reg: map<string, string>)
    requires ValidRegistry(reg)
    ensures forall k :: k in reg ==> reg[k] != ""
  {
    forall k | k in reg ensures reg[k] != "" {
      var n: nat :| n < |reg| && reg[k] == Placeholder(n);
      assert Placeholder(n)[0] == 'A';
    }
  }

  /** `getAnonymized` keeps the registry valid, so distinct names always get distinct placeholders. */
  lemma AnonymizeKeepsValid(reg: map<string, string>, name: string)
    requires ValidRegistry(reg)
    ensures ValidRegistry(Anonymize(reg, name).1)
    ensures Anonymize(reg, name).1.Keys >= reg.Keys
    ensures forall k :: k in reg ==> Anonymize(reg, name).1[k] == reg[k]
  {
    if NeedsPlaceholder(name) && !(name in reg && reg[name] != "") {
      RegistryValuesNonEmpty(reg);
      InsertKeepsValid(reg, name);
    }
  }

  /** Storing `Anonymous@N`, N the size, under a new name keeps the registry valid. */
  lemma InsertKeepsValid(reg: map<string, string>, name: string)
    requires ValidRegistry(reg) && NeedsPlaceholder(name) && name !in reg
    ensures ValidRegistry(reg[name := Placeholder(|reg|)])
  {
    var p := Placeholder(|reg|);
    var reg2 := reg[name := p];
    assert |reg2| == |reg| + 1;
    forall k | k in reg2 ensures exists n: nat :: n < |reg2| && reg2[k] == Placeholder(n) {
      if k == name {
        assert reg2[k] == Placeholder(|reg|);
      } else {
        var n: nat :| n < |reg| && reg[k] == Placeholder(n);
        assert reg2[k] == Placeholder(n);
      }
    }
    InsertDistinct(reg, name);
  }

  /** The new placeholder differs from every stored one. */
  lemma InsertDistinct(reg: map<string, string>, name: string)
    requires ValidRegistry(reg) && name !in reg
    ensures var reg2 := reg[name := Placeholder(|reg|)];
      forall k1, k2 :: k1 in reg2 && k2 in reg2 && k1 != k2 ==> reg2[k1] != reg2[k2]
  {
    var reg2 := reg[name := Placeholder(|reg|)];
    forall k1, k2 | k1 in reg2 && k2 in reg2 && k1 != k2 ensures reg2[k1] != reg2[k2] {
      if k1 == name || k2 == name {
        var other := if k1 == name then k2 else k1;
        var n: nat :| n < |reg| && reg[other] == Placeholder(n);
        if Placeholder(n) == Placeholder(|reg|) { PlaceholderInjective(n, |reg|); }
      }
    }
  }

  /** Two different names that need placeholders get different ones. */
  lemma DistinctPlaceholders(reg: map<string, string>, a: string, b: string)
    requires ValidRegistry(reg) && a != b && NeedsPlaceholder(a) && NeedsPlaceholder(b)
    ensures var (pa, reg1) := Anonymize(reg, a); Anonymize(reg1, b).0 != pa
  {
    var (pa, reg1) := Anonymize(reg, a);
    AnonymizeKeepsValid(reg, a);
    var (pb, reg2) := Anonymize(reg1, b);
    AnonymizeKeepsValid(reg1, b);
    assert a in reg2 && b in reg2 && reg2[a] == pa && reg2[b] == pb;
  }

  // ---------------------------------------------------------------- edges

  /** The edge line for already anonymized end names. */
  function EdgeLine(source: string, cardinality: string, endName: string, target: string): string
  {
    "\"" + source + "\" --> \"" + cardinality + " " + endName + "\" \"" + StripArrays(target) + "\""
  }

  /** `addAssociation`: both ends are anonymized, the source first; the result is one line. */
  function AddAssociation(reg: map<string, string>, type1: string, cardinality: string, type2: string, endName: string)
    : (res: (seq<string>, map<string, string>))
    ensures |res.0| == 1
  {
    var (a1, reg1) := Anonymize(reg, type1);
    var (a2, reg2) := Anonymize(reg1, type2);
    ([EdgeLine(a1, cardinality, endName, a2)], reg2)
  }

  /** For names that need no placeholder, the edge reads `"A" --> "card end" "B"` with `[]` removed from B. */
  lemma AddAssociationPlain(reg: map<string, string>, a: string, card: string, b: string, end: string)
    requires !NeedsPlaceholder(a) && !NeedsPlaceholder(b)
    ensures AddAssociation(reg, a, card, b, end) ==
      (["\"" + a + "\" --> \"" + card + " " + end + "\" \"" + StripArrays(b) + "\""], reg)
  {
  }

  // ---------------------------------------------------------------- members

  /** The visibility symbol: public `+`, private `-`, protected `#`. */
  function VisibilitySymbol(m: Modifier): (r: string)
    ensures |r| == 1
    ensures m == Public <==> r == "+"
    ensures m == Private <==> r == "-"
    ensures m == Protected <==> r == "#"
  {
    match m
    case Public => "+"
    case Private => "-"
    case Protected => "#"
  }

  /** The `{abstract} ` and `{static} ` prefixes, in that order. */
  function Prefixes(isAbstract: bool, isStatic: bool): (r: string)
    ensures isAbstract <==> |r| >= 11 && r[..11] == "{abstract} "
    ensures isStatic <==> EndsWith(r, "{static} ")
    ensures |r| == (if isAbstract then 11 else 0) + (if isStatic then 9 else 0)
  {
    var r := (if isAbstract then "{abstract} " else "") + (if isStatic then "{static} " else "");
    assert isAbstract && !isStatic ==> r[2..][0] == r[2] == 'b';
    r
  }

  /** `serializeParameter`. */
  function ParameterLine(p: Parameter): (r: string)
    ensures |r| > |p.name| && r[..|p.name|] == p.name
    ensures r[|p.name|] == '?' <==> p.isOptional || p.hasInitializer
    ensures EndsWith(r, ": " + p.parameterType)
  {
    p.name + (if p.isOptional || p.hasInitializer then "?" else "") + ": " + p.parameterType
  }

  function ParameterLines(ps: seq<Parameter>): (r: seq<string>)
    ensures |r| == |ps| && forall k :: 0 <= k < |ps| ==> r[k] == ParameterLine(ps[k])
  {
    if ps == [] then [] else [ParameterLine(ps[0])] + ParameterLines(ps[1..])
  }

  /** `serializeMethod`; `${returnType}` prints the array joined by commas. */
  function MethodLine(m: Method): (r: string)
    ensures |r| >= 1 && [r[0]] == VisibilitySymbol(m.modifier)
    ensures EndsWith(r, "): " + Join(m.returnType, ","))
    ensures r == VisibilitySymbol(m.modifier) + Prefixes(m.isAbstract, m.isStatic) + m.name +
      "(" + Join(ParameterLines(m.parameters), ", ") + "): " + Join(m.returnType, ",")
  {
    var head := VisibilitySymbol(m.modifier) + Prefixes(m.isAbstract, m.isStatic) + m.name + "(" + Join(ParameterLines(m.parameters), ", ");
    var r := head + "): " + Join(m.returnType, ",");
    assert r[|head|..] == "): " + Join(m.returnType, ",");
    r
  }

  /** `serializeProperty`: the types are joined by ` | `. */
  function PropertyLine(p: Property): (r: string)
    ensures |r| >= 1 && [r[0]] == VisibilitySymbol(p.modifier)
    ensures EndsWith(r, ": " + Join(p.returnType, " | "))
    ensures r == VisibilitySymbol(p.modifier) + Prefixes(p.isAbstract, p.isStatic) + p.name +
      (if p.isOptional then "?" else "") + ": " + Join(p.returnType, " | ")
  {
    var head := VisibilitySymbol(p.modifier) + Prefixes(p.isAbstract, p.isStatic) + p.name + (if p.isOptional then "?" else "");
    var r := head + ": " + Join(p.returnType, " | ");
    assert r[|head|..] == ": " + Join(p.returnType, " | ");
    r
  }

  /** Methods that differ only in being abstract or static get different lines. */
  lemma MethodFlagsShow(m: Method, isAbstract: bool, isStatic: bool)
    requires (isAbstract, isStatic) != (m.isAbstract, m.isStatic)
    ensures MethodLine(m.(isAbstract := isAbstract, isStatic := isStatic)) != MethodLine(m)
  {
    var n := m.(isAbstract := isAbstract, isStatic := isStatic);
    assert |MethodLine(n)| - |Prefixes(isAbstract, isStatic)| == |MethodLine(m)| - |Prefixes(m.isAbstract, m.isStatic)|;
  }

  /** Properties that differ only in being abstract or static get different lines. */
  lemma PropertyFlagsShow(p: Property, isAbstract: bool, isStatic: bool)
    requires (isAbstract, isStatic) != (p.isAbstract, p.isStatic)
    ensures PropertyLine(p.(isAbstract := isAbstract, isStatic := isStatic)) != PropertyLine(p)
  {
    var n := p.(isAbstract := isAbstract, isStatic := isStatic);
    assert |PropertyLine(n)| - |Prefixes(isAbstract, isStatic)| == |PropertyLine(p)| - |Prefixes(p.isAbstract, p.isStatic)|;
  }

  /** `serializeTypeParameter`. */
  function TypeParameterText(t: TypeParameter): (r: string)
    ensures t.constraint.None? ==> r == t.name
    ensures t.constraint.Some? ==> r == t.name + " extends " + t.constraint.value
  {
    t.name + (if t.constraint.Some? then " extends " + t.constraint.value else "")
  }

  function TypeParameterTexts(ts: seq<TypeParameter>): (r: seq<string>)
    ensures |r| == |ts| && forall k :: 0 <= k < |ts| ==> r[k] == TypeParameterText(ts[k])
  {
    if ts == [] then [] else [TypeParameterText(ts[0])] + TypeParameterTexts(ts[1..])
  }

  /** The `<…>` part of a class or interface head, empty without type parameters. */
  function TypeParameterList(ts: seq<TypeParameter>): (r: string)
    ensures ts == [] <==> r == ""
    ensures ts != [] ==> r == "<" + Join(TypeParameterTexts(ts), ", ") + ">"
  {
    if ts == [] then "" else "<" + Join(TypeParameterTexts(ts), ", ") + ">"
  }

  /** The non-empty member lines, each indented by four spaces. */
  function IndentedMembers(lines: seq<string>): (r: seq<string>)
    ensures |r| <= |lines|
    ensures forall k :: 0 <= k < |r| ==> |r[k]| > 4 && r[k][..4] == "    "
    ensures (forall k :: 0 <= k < |lines| ==> lines[k] != "") ==>
      |r| == |lines| && forall k :: 0 <= k < |r| ==> r[k] == "    " + lines[k]
  {
    if lines == [] then []
    else (if lines[0] != "" then ["    " + lines[0]] else []) + IndentedMembers(lines[1..])
  }

  /** Every non-empty member line appears indented, and every indented line comes from a member line. */
  lemma {:induction false} IndentedMembersContents(lines: seq<string>)
    ensures forall k :: 0 <= k < |lines| && lines[k] != "" ==> "    " + lines[k] in IndentedMembers(lines)
    ensures forall l :: l in IndentedMembers(lines) ==> l[4..] in lines && l[4..] != ""
  {
    if lines != [] {
      IndentedMembersContents(lines[1..]);
      assert forall k :: 1 <= k < |lines| ==> lines[k] == lines[1..][k - 1];
      assert forall l :: l in lines[1..] ==> l in lines;
      var l0 := "    " + lines[0];
      assert l0[4..] == lines[0];
    }
  }

  /** Member lines are indented list by list: the block of `a + b` is the block of `a`, then that of `b`. */
  lemma {:induction false} IndentedMembersAppend(a: seq<string>, b: seq<string>)
    ensures IndentedMembers(a + b) == IndentedMembers(a) + IndentedMembers(b)
  {
    if a != [] {
      assert (a + b)[1..] == a[1..] + b;
      IndentedMembersAppend(a[1..], b);
    } else {
      assert a + b == b;
    }
  }

  /** An empty member line is skipped. */
  lemma IndentedMembersSkipsEmpty(a: seq<string>, b: seq<string>)
    ensures IndentedMembers(a + [""] + b) == IndentedMembers(a) + IndentedMembers(b)
  {
    IndentedMembersAppend(a + [""], b);
    IndentedMembersAppend(a, [""]);
  }

  /**
   * `serializeMembers`: the head line gains ` {` and a closing `}` line follows
   * iff the component has members; empty member lines are skipped.
   */
  function MemberBlock(head: string, memberCount: nat, memberLines: seq<string>): (r: seq<string>)
    ensures |r| >= 1
    ensures r[0] == head + (if memberCount > 0 then " {" else "")
    ensures memberCount > 0 ==> r[|r| - 1] == "}"
    ensures memberCount == 0 ==> r[1..] == IndentedMembers(memberLines)
    ensures memberCount > 0 ==> r[1..|r| - 1] == IndentedMembers(memberLines)
  {
    [head + (if memberCount > 0 then " {" else "")] + IndentedMembers(memberLines) + (if memberCount > 0 then ["}"] else [])
  }

  /** The head line of `serializeClass`, for the already anonymized full name. */
  function ClassHead(c: Component, anonymizedName: string, onlyClasses: bool): (r: string)
    requires c.Class?
    ensures c.isAbstract <==> |r| >= 9 && r[..9] == "abstract "
    ensures var head := (if c.isAbstract then "abstract " else "") + "class \"" + c.name + "\" as " + anonymizedName
                        + TypeParameterList(c.typeParameters);
      r == head
           + (if c.extendsClass.Some? then " extends " + c.extendsClass.value else "")
           + (if !onlyClasses && c.implementsInterfaces != [] then " implements " + Join(c.implementsInterfaces, ", ") else "")
  {
    var head := (if c.isAbstract then "abstract " else "") + "class \"" + c.name + "\" as " + anonymizedName
                + TypeParameterList(c.typeParameters);
    var r := head
             + (if c.extendsClass.Some? then " extends " + c.extendsClass.value else "")
             + (if !onlyClasses && c.implementsInterfaces != [] then " implements " + Join(c.implementsInterfaces, ", ") else "");
    AbstractShows(c.isAbstract, r);
    r
  }

  /** A head line shows `abstract ` in front exactly for an abstract class: otherwise it starts with `class`. */
  lemma AbstractShows(isAbstract: bool, r: string)
    requires isAbstract ==> |r| >= 9 && r[..9] == "abstract "
    requires !isAbstract ==> |r| > 0 && r[0] == 'c'
    ensures isAbstract <==> |r| >= 9 && r[..9] == "abstract "
  {
    if !isAbstract && |r| >= 9 {
      assert r[..9][0] == r[0];
    }
  }

  /** The head line of `serializeInterface`: extended interfaces are joined by `, `. */
  function InterfaceHead(c: Component): (r: string)
    requires c.Interface?
    ensures var head := "interface \"" + c.name + "\" as " + FullName(c) + TypeParameterList(c.typeParameters);
      r == if c.extendsInterface != [] then head + " extends " + Join(c.extendsInterface, ", ") else head
  {
    "interface \"" + c.name + "\" as " + FullName(c)
    + TypeParameterList(c.typeParameters)
    + (if |c.extendsInterface| > 0 then " extends " + Join(c.extendsInterface, ", ") else "")
  }

  function EnumValueLines(vs: seq<EnumValue>): (r: seq<string>)
    ensures |r| == |vs| && forall k :: 0 <= k < |vs| ==> r[k] == "    " + vs[k].name
  {
    if vs == [] then [] else ["    " + vs[0].name] + EnumValueLines(vs[1..])
  }

  /** `serializeEnum` as lines: braces iff there are values, one indented line per value. */
  function EnumLines(c: Component): (r: seq<string>)
    requires c.Enum?
    ensures |r| == if c.values == [] then 1 else |c.values| + 2
    ensures r[0] == "enum \"" + c.name + "\" as " + FullName(c) + (if c.values != [] then " {" else "")
    ensures c.values != [] ==> r[|r| - 1] == "}"
    ensures forall k :: 0 <= k < |c.values| ==> r[k + 1] == "    " + c.values[k].name
  {
    ["enum \"" + c.name + "\" as " + FullName(c) + (if c.values != [] then " {" else "")]
    + EnumValueLines(c.values)
    + (if c.values != [] then ["}"] else [])
  }

  /** `serializeAngularJSComponent`: one class line per instance, the instance first, then its parts. */
  function InstanceText(i: ComponentInstance): (r: string)
    ensures var head := "class \"" + i.name + "\" as " + i.componentPath;
      head <= r && (i.parts == [] ==> r == head) &&
      (i.parts != [] ==> r == head + EOL + Join(InstanceTexts(i.parts), EOL))
  {
    var head := "class \"" + i.name + "\" as " + i.componentPath;
    var texts := InstanceTexts(i.parts);
    assert ([head] + texts)[1..] == texts;
    Join([head] + texts, EOL)
  }

  function InstanceTexts(insts: seq<ComponentInstance>): (r: seq<string>)
    ensures |r| == |insts| && forall k :: 0 <= k < |insts| ==> r[k] == InstanceText(insts[k])
  {
    if insts == [] then [] else [InstanceText(insts[0])] + InstanceTexts(insts[1..])
  }

  /** The class line of one instance. */
  function InstanceLine(i: ComponentInstance): string
  {
    "class \"" + i.name + "\" as " + i.componentPath
  }

  /** The class lines of an instance subtree in pre-order: the instance, then each part's subtree in turn. */
  function PreOrderLines(i: ComponentInstance): (r: seq<string>)
    ensures |r| >= 1 && r[0] == InstanceLine(i)
  {
    [InstanceLine(i)] + PreOrderLinesOf(i.parts)
  }

  function PreOrderLinesOf(insts: seq<ComponentInstance>): seq<string>
  {
    if insts == [] then [] else PreOrderLines(insts[0]) + PreOrderLinesOf(insts[1..])
  }

  /** Joining two non-empty lists puts the separator once between the two joined halves. */
  lemma {:induction false} JoinAppend(a: seq<string>, b: seq<string>, sep: string)
    requires a != [] && b != []
    ensures Join(a + b, sep) == Join(a, sep) + sep + Join(b, sep)
  {
    if |a| > 1 {
      assert (a + b)[1..] == a[1..] + b;
      JoinAppend(a[1..], b, sep);
    } else {
      assert (a + b)[1..] == b;
    }
  }

  /**
   * The text of an instance is its subtree's class lines in pre-order, one line per
   * instance, joined by the line separator.
   */
  lemma {:induction false} InstanceTextPreOrder(i: ComponentInstance)
    ensures InstanceText(i) == Join(PreOrderLines(i), EOL)
    decreases i, 0
  {
    if i.parts != [] {
      InstanceTextsPreOrder(i.parts);
      JoinAppend([InstanceLine(i)], PreOrderLinesOf(i.parts), EOL);
    }
  }

  lemma {:induction false} InstanceTextsPreOrder(insts: seq<ComponentInstance>)
    requires insts != []
    ensures Join(InstanceTexts(insts), EOL) == Join(PreOrderLinesOf(insts), EOL)
    decreases insts, 1
  {
    InstanceTextPreOrder(insts[0]);
    if |insts| > 1 {
      InstanceTextsPreOrder(insts[1..]);
      assert InstanceTexts(insts) == [InstanceText(insts[0])] + InstanceTexts(insts[1..]);
      assert InstanceTexts(insts)[1..] == InstanceTexts(insts[1..]);
      JoinAppend(PreOrderLines(insts[0]), PreOrderLinesOf(insts[1..]), EOL);
    } else {
      assert insts[1..] == [];
      assert PreOrderLinesOf(insts) == PreOrderLines(insts[0]);
    }
  }

  // ---------------------------------------------------------------- namespaces

  /** The line terminators of a multi-line JavaScript regular expression. */
  predicate IsLineTerminator(c: char)
  {
    c == '\n' || c == '\r' || c == '\U{2028}' || c == '\U{2029}'
  }

  /** The characters JavaScript's `\s` matches. */
  predicate IsSpace(c: char)
  {
    c == ' ' || c == '\t' || c == '\U{000B}' || c == '\U{000C}' || IsLineTerminator(c) ||
    c == '\U{00A0}' || c == '\U{1680}' || ('\U{2000}' <= c <= '\U{200A}') || c == '\U{202F}' ||
    c == '\U{205F}' || c == '\U{3000}' || c == '\U{FEFF}'
  }

  predicate Blank(line: string)
  {
    forall k :: 0 <= k < |line| ==> IsSpace(line[k])
  }

  /** The index of the first line terminator, or `|s|`. */
  function LineEnd(s: string): (k: nat)
    ensures k <= |s|
    ensures forall j :: 0 <= j < k ==> !IsLineTerminator(s[j])
    ensures k < |s| ==> IsLineTerminator(s[k])
  {
    if s == [] then 0 else if IsLineTerminator(s[0]) then 0 else 1 + LineEnd(s[1..])
  }

  /** One line: the margin is put in front unless the line is blank. */
  function IndentLine(line: string, margin: string): string
  {
    if Blank(line) then line else margin + line
  }

  /** `text.replace(/^(?!\s*$)/gm, margin)`: every line that is not blank gains the margin. */
  function Indent(s: string, margin: string): string
    decreases |s|
  {
    var k := LineEnd(s);
    if k == |s| then IndentLine(s, margin)
    else IndentLine(s[..k], margin) + [s[k]] + Indent(s[k + 1..], margin)
  }

  predicate HasNoTerminator(line: string)
  {
    forall k :: 0 <= k < |line| ==> !IsLineTerminator(line[k])
  }

  function IndentLines(lines: seq<string>, margin: string): (r: seq<string>)
    ensures |r| == |lines| && forall k :: 0 <= k < |lines| ==> r[k] == IndentLine(lines[k], margin)
  {
    if lines == [] then [] else [IndentLine(lines[0], margin)] + IndentLines(lines[1..], margin)
  }

  lemma {:induction false} LineEndOf(line: string, rest: string)
    requires HasNoTerminator(line)
    ensures LineEnd(line + EOL + rest) == |line|
  {
    if line != [] {
      assert (line + EOL + rest)[1..] == line[1..] + EOL + rest;
      LineEndOf(line[1..], rest);
    }
  }

  lemma {:induction false} LineEndWhole(line: string)
    requires HasNoTerminator(line)
    ensures LineEnd(line) == |line|
  {
    if line != [] { LineEndWhole(line[1..]); }
  }

  /** Indenting text made of lines joined by line feeds indents each line on its own. */
  lemma {:induction false} IndentJoinedLines(lines: seq<string>, margin: string)
    requires lines != []
    requires forall k :: 0 <= k < |lines| ==> HasNoTerminator(lines[k])
    ensures Indent(Join(lines, EOL), margin) == Join(IndentLines(lines, margin), EOL)
  {
    if |lines| == 1 {
      LineEndWhole(lines[0]);
    } else {
      var rest := Join(lines[1..], EOL);
      var s := lines[0] + EOL + rest;
      LineEndOf(lines[0], rest);
      assert s[..|lines[0]|] == lines[0];
      assert s[|lines[0]| + 1..] == rest;
      IndentJoinedLines(lines[1..], margin);
      assert IndentLines(lines, margin)[1..] == IndentLines(lines[1..], margin);
    }
  }

  /** The module frame of a namespace applies to a top namespace that has a module. */
  predicate ModuleFramed(ns: Component)
    requires ns.Namespace?
  {
    ns.isTopNamespace && ns.moduleName != ""
  }

  /**
   * `serializeNamespace` as lines, for the already serialized parts: each
   * part's text indented by the inner margin, between the namespace lines.
   */
  function NamespaceLines(ns: Component, partTexts: seq<string>): (r: seq<string>)
    requires ns.Namespace?
    ensures ModuleFramed(ns) ==> (
      |r| == |partTexts| + 4 && r[0] == "namespace " + ns.moduleName + " {" &&
      r[1] == "    namespace " + ns.name + " {" && r[|r| - 2] == "    }" && r[|r| - 1] == "}" &&
      forall k :: 0 <= k < |partTexts| ==> r[k + 2] == Indent(partTexts[k], "        "))
    ensures !ModuleFramed(ns) ==> (
      |r| == |partTexts| + 2 && r[0] == "namespace " + ns.name + " {" && r[|r| - 1] == "}" &&
      forall k :: 0 <= k < |partTexts| ==> r[k + 1] == Indent(partTexts[k], "    "))
  {
    if ModuleFramed(ns) then
      ["namespace " + ns.moduleName + " {", "    namespace " + ns.name + " {"]
      + IndentAll(partTexts, "        ") + ["    }", "}"]
    else
      ["namespace " + ns.name + " {"] + IndentAll(partTexts, "    ") + ["}"]
  }

  function IndentAll(texts: seq<string>, margin: string): (r: seq<string>)
    ensures |r| == |texts| && forall k :: 0 <= k < |texts| ==> r[k] == Indent(texts[k], margin)
  {
    if texts == [] then [] else [Indent(texts[0], margin)] + IndentAll(texts[1..], margin)
  }
}
