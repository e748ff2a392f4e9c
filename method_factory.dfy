/**
 * `create` of src/Factories/MethodFactory.ts: how a method's return type
 * is turned into the index-aligned slots `returnType`,
 * `returnTypeFullName`, `returnTypeModuleName` and `methodTypeFile`.
 *
 * The checker's answers about types are inputs (`TsType`); the loops
 * over union constituents, array unwrapping, tokens of a generic name and
 * the diamond counters are modelled step by step.
 */
module MethodFactory {
  import opened Wrappers
  import opened Text
  import opened Model
  import CF = ComponentFactory
  import PF = PropertyFactory

  // ---------------------------------------------------------------- checker answers

  /** `type.flags`, compared with one flag at a time; `OtherType` for any other value. */
  datatype TypeFlag = AnyType | StringType | NumberType | BooleanType | UndefinedType | OtherType

  /** What the factory reads of one checker type. */
  datatype TsType = TsType(
    /** `checker.typeToString` of the type. */
    text: string,
    flags: TypeFlag,
    /** `type.getSymbol()?.name`. */
    symbolName: Option<string>,
    /** `checker.getTypeArguments(type)`. */
    typeArguments: seq<TsType>,
    /** The type object's own `typeArguments` property; `None` when it is undefined. */
    ownArguments: Option<seq<TsType>>,
    /** `type.types` of a union type; `None` for any other type. */
    union: Option<seq<TsType>>,
    /** `getOriginalFileOriginalType(type, checker)`. */
    file: string,
    /** `getNamespaceFromSourceCode` of the type's original source file; `""` without one. */
    sourceNamespace: string)

  /** What `create` reads of the method's signature and declaration. */
  datatype Signature = Signature(
    /** The symbol `getNamespace` is called on; its result is discarded. */
    symbol: CF.Symbol,
    /** The imports of the method's source file; `None` when `getSourceCode` finds none. */
    source: Option<seq<string>>,
    /** `methodSignature.getReturnType()`. */
    returnType: TsType,
    /** The type of the declared return-type node; `None` when there is none. */
    generic: Option<TsType>,
    /** The declared return type's `typeName.text`. */
    genericName: string,
    /** The declared type arguments, resolved; `None` when neither the declaration nor its element has any. */
    specific: Option<seq<TsType>>,
    /** The parameters and type parameters as their own factories build them. */
    parameters: seq<Parameter>,
    typeParameters: seq<TypeParameter>)

  /** The types the union loop visits: the constituents of a union, or the type itself. */
  function Constituents(t: TsType): (r: seq<TsType>)
    ensures t.union.None? ==> r == [t]
  {
    if t.union.Some? then t.union.value else [t]
  }

  // ---------------------------------------------------------------- one constituent

  /**
   * `while (symbol?.name === 'Array') type = getTypeArguments(type)[0]`:
   * throws when an `Array` has no type argument.
   */
  function Unwrapped(t: TsType): (r: Result<TsType>)
    ensures r.Ok? ==> r.value.symbolName != Some("Array")
    decreases t
  {
    if t.symbolName != Some("Array") then Ok(t)
    else if t.typeArguments == [] then Err("TypeError")
    else Unwrapped(t.typeArguments[0])
  }

  /** `t` wrapped in `depth` levels of `Array`. */
  function ArrayOf(depth: nat, t: TsType): TsType
  {
    if depth == 0 then t
    else t.(symbolName := Some("Array"), typeArguments := [ArrayOf(depth - 1, t)], union := None)
  }

  /** Unwrapping removes every level of `Array` and nothing more. */
  lemma {:induction false} UnwrapNested(depth: nat, t: TsType)
    requires t.symbolName != Some("Array")
    ensures Unwrapped(ArrayOf(depth, t)) == Ok(t)
  {
    if depth > 0 {
      UnwrapNested(depth - 1, t);
    }
  }

  function Texts(ts: seq<TsType>): (r: seq<string>)
    ensures |r| == |ts| && forall k :: 0 <= k < |ts| ==> r[k] == ts[k].text
  {
    seq(|ts|, k requires 0 <= k < |ts| => ts[k].text)
  }

  /**
   * `returnType[i]`: the rendered type, except that a rendered `any` with a
   * declared generic and declared type arguments is rebuilt as
   * `Name<arg1,arg2,...>`.
   */
  function Rendered(d: TsType, sig: Signature): string
  {
    if d.text == "any" && sig.generic.Some? && sig.specific.Some? then
      sig.genericName + "<" + Join(Texts(sig.specific.value), ",") + ">"
    else d.text
  }

  /** The flag test that gives a constituent a single slot and no file or module. */
  predicate Primitive(d: TsType, text: string)
  {
    (d.flags == AnyType && !Contains(text, "<")) ||
    d.flags == StringType || d.flags == NumberType || d.flags == BooleanType || d.flags == UndefinedType
  }

  function SplitEach(ps: seq<string>, c: char): seq<string>
  {
    if ps == [] then [] else Split(ps[0], c) + SplitEach(ps[1..], c)
  }

  /**
   * `allTypes`: every `>` removed when the name has a `<`, then split on
   * `<`, each piece split on `,`, flattened.
   */
  function Tokens(text: string): seq<string>
  {
    var base := if Contains(text, "<") then RemoveChar(text, '>') else text;
    SplitEach(Split(base, '<'), ',')
  }

  lemma {:induction false} SplitEachMember(ps: seq<string>, c: char, t: string)
    requires t in SplitEach(ps, c)
    ensures exists q :: q in ps && t in Split(q, c)
  {
    if t !in Split(ps[0], c) {
      SplitEachMember(ps[1..], c, t);
      var q :| q in ps[1..] && t in Split(q, c);
      assert q in ps;
    }
  }

  /** There is at least one token, and no token holds a `<` or a `,`, nor a `>` once the name has a `<`. */
  lemma TokensClean(text: string)
    ensures |Tokens(text)| >= 1
    ensures forall t :: t in Tokens(text) ==> '<' !in t && ',' !in t
    ensures Contains(text, "<") ==> forall t :: t in Tokens(text) ==> '>' !in t
  {
    var base := if Contains(text, "<") then RemoveChar(text, '>') else text;
    var pieces := Split(base, '<');
    assert Tokens(text) == Split(pieces[0], ',') + SplitEach(pieces[1..], ',');
    SplitPieces(base, '<');
    SplitSeparates(base, '<');
    forall t | t in Tokens(text)
      ensures '<' !in t && ',' !in t && (Contains(text, "<") ==> '>' !in t)
    {
      SplitEachMember(pieces, ',', t);
      var q :| q in pieces && t in Split(q, ',');
      SplitPieces(q, ',');
      SplitSeparates(q, ',');
    }
  }

  /** A name with no `<`, `>` or `,` in it. */
  predicate Plain(s: string)
  {
    '<' !in s && '>' !in s && ',' !in s
  }

  /** Every occurrence makes `includes` true. */
  lemma ContainsAt(s: string, t: string, k: int)
    requires OccursAt(s, t, k)
    ensures Contains(s, t)
  {
  }

  lemma {:induction false} SplitEachTwo(a: string, b: string, c: char)
    ensures SplitEach([a, b], c) == Split(a, c) + Split(b, c)
  {
    assert [a, b][1..] == [b];
    assert [b][1..] == [];
    assert SplitEach([b], c) == Split(b, c) + SplitEach([], c);
  }

  /** The base a rebuilt generic name is split from: the `<` is there and the closing `>` goes. */
  lemma GenericBase(g: string, j: string)
    requires Plain(g) && '<' !in j && '>' !in j
    ensures Contains(g + "<" + j + ">", "<")
    ensures RemoveChar(g + "<" + j + ">", '>') == g + "<" + j
  {
    assert g + "<" + j + ">" == g + "<" + (j + ">");
    OpenAfter(g, j + ">");
    GenericBaseClosed(g, j);
    ClosingDropped(g + "<" + j);
  }

  lemma ClosingDropped(b: string)
    requires '>' !in b
    ensures RemoveChar(b + ">", '>') == b
  {
    RemoveCharAppend(b, ">", '>');
    RemoveCharAbsent(b, '>');
    assert RemoveChar(">", '>') == "" + RemoveChar("", '>');
  }

  lemma GenericBaseClosed(g: string, j: string)
    requires Plain(g) && '>' !in j
    ensures '>' !in g + "<" + j
  {
    var b := g + "<" + j;
    forall i | 0 <= i < |b| ensures b[i] != '>' {
      if i < |g| {
        assert b[i] == g[i];
      } else if i > |g| {
        assert b[i] == j[i - |g| - 1];
      }
    }
  }

  /** Tokenizing a rebuilt generic name gives back the generic's name and its arguments. */
  lemma TokensOfGeneric(g: string, args: seq<string>)
    requires Plain(g) && |args| >= 1 && forall a :: a in args ==> Plain(a)
    ensures Tokens(g + "<" + Join(args, ",") + ">") == [g] + args
  {
    var j := Join(args, ",");
    JoinAvoids(args, ",", '<');
    JoinAvoids(args, ",", '>');
    GenericBase(g, j);
    assert g + "<" + j == g + ['<'] + j;
    SplitAround(g, j, '<');
    SplitEachTwo(g, j, ',');
    SplitAbsent(g, ',');
    SplitJoined(args, ',');
  }

  lemma NestedSplit(g: string, a: string, h: string, v: string)
    requires Plain(g) && Plain(a) && Plain(h) && Plain(v)
    ensures Split(g + "<" + a + "," + h + "<" + v, '<') == [g, a + "," + h, v]
  {
    var m := a + "," + h;
    assert g + "<" + a + "," + h + "<" + v == g + ['<'] + (m + ['<'] + v);
    SplitPrefix(g, m + ['<'] + v, '<');
    SplitPrefix(m, v, '<');
    SplitAbsent(v, '<');
  }

  lemma OpenAfter(g: string, rest: string)
    ensures Contains(g + "<" + rest, "<")
  {
    assert (g + "<" + rest)[|g|..|g| + 1] == "<";
    ContainsAt(g + "<" + rest, "<", |g|);
  }

  lemma ClosingRemoved(b: string)
    requires '>' !in b
    ensures RemoveChar(b + ">>", '>') == b
  {
    RemoveCharAppend(b, ">>", '>');
    RemoveCharAbsent(b, '>');
    assert RemoveChar(">>", '>') == [] + RemoveChar(">", '>');
    assert RemoveChar(">", '>') == [] + RemoveChar("", '>');
  }

  lemma NestedPieces(g: string, a: string, h: string, v: string)
    requires Plain(g) && Plain(a) && Plain(h) && Plain(v)
    ensures SplitEach([g, a + "," + h, v], ',') == [g, a, h, v]
  {
    var m := a + "," + h;
    assert [g, m, v][1..] == [m, v];
    SplitEachTwo(m, v, ',');
    assert m == a + [','] + h;
    SplitPrefix(a, h, ',');
    SplitAbsent(h, ',');
    SplitAbsent(g, ',');
    SplitAbsent(v, ',');
  }

  /**
   * A generic whose last argument is itself generic, such as
   * `Map<K,List<V>>`, tokenizes to `[Map, K, List, V]`: nesting is flattened.
   */
  lemma TokensOfNestedGeneric(g: string, a: string, h: string, v: string)
    requires Plain(g) && Plain(a) && Plain(h) && Plain(v)
    ensures Tokens(g + "<" + a + "," + h + "<" + v + ">>") == [g, a, h, v]
  {
    var b := g + "<" + a + "," + h + "<" + v;
    assert g + "<" + a + "," + h + "<" + v + ">>" == b + ">>" == g + "<" + (a + "," + h + "<" + v + ">>");
    OpenAfter(g, a + "," + h + "<" + v + ">>");
    ClosingRemoved(b);
    NestedSplit(g, a, h, v);
    NestedPieces(g, a, h, v);
  }

  // ---------------------------------------------------------------- the token loop

  /** The loop variables of the token loop of one constituent. */
  datatype Diamond = Diamond(
    currentDiamond: nat,
    currentSpecificInDiamond: nat,
    currentSpecific: Option<seq<TsType>>,
    /** Where `remainingTypes` starts in the rendered type: it is always `text[remainingFrom..]`. */
    remainingFrom: nat,
    deParameterType: Option<TsType>)

  /** `s.substring(s.indexOf(c) + 1)` for a one-character `c`: the text after its first occurrence, or all of `s`. */
  function AfterFirst(s: string, c: string): (r: string)
    requires |c| == 1
    ensures |r| <= |s|
  {
    var k := IndexOf(s, c);
    s[k + 1..]
  }

  /** `remainingTypes.indexOf(c)` as a position in `text`, for `remainingTypes == text[from..]`. */
  function FindFrom(text: string, c: string, from: nat): int
  {
    if from <= |text| then IndexOfFrom(text, c, from) else -1
  }

  /** Where `remainingTypes.substring(remainingTypes.indexOf(c) + 1)` starts in `text`. */
  function SkipPast(text: string, c: string, from: nat): nat
  {
    var k := FindFrom(text, c, from);
    if k == -1 then from else k + 1
  }

  /** `FindFrom` is `indexOf` on the remaining text, shifted to a position in `text`. */
  lemma FindFromRemaining(text: string, c: string, from: nat)
    requires from <= |text|
    ensures var k := FindFrom(text, c, from);
      IndexOf(text[from..], c) == if k == -1 then -1 else k - from
  {
    IndexOfSuffix(text, c, from, 0);
  }

  /** `SkipPast` stays within `text`, and the text from it on is the source's `substring` of the remaining text. */
  lemma SkipPastRemaining(text: string, c: string, from: nat)
    requires from <= |text| && |c| == 1
    ensures SkipPast(text, c, from) <= |text|
    ensures text[SkipPast(text, c, from)..] == AfterFirst(text[from..], c)
  {
    FindFromRemaining(text, c, from);
  }

  /** `CommaFirst` is the source's test on the remaining text. */
  lemma CommaFirstRemaining(text: string, from: nat)
    requires from <= |text|
    ensures var rest := text[from..];
      CommaFirst(text, from) <==> IndexOf(rest, ",") != -1 && IndexOf(rest, ",") < IndexOf(rest, "<")
  {
    FindFromRemaining(text, ",", from);
    FindFromRemaining(text, "<", from);
  }

  /**
   * One iteration of the token loop before its slot writes: the next
   * `currentSpecific` (reading `typeArguments` of an undefined entry
   * throws), the type for this token, and the diamond counters.
   */
  function Advance(sig: Signature, n: nat, text: string, st: Diamond): Result<Diamond>
  {
    if Stuck(sig, st) then Err("TypeError")
    else Ok(Moved(n, text, st, NextSpecific(sig, st), NextParam(sig, st)))
  }

  /** Inside a diamond, with declared type arguments: the loop reads `currentSpecific[currentSpecificInDiamond]`. */
  predicate Deep(sig: Signature, st: Diamond)
  {
    sig.specific.Some? && st.currentDiamond != 0
  }

  /** Reading `typeArguments` of an undefined `currentSpecific` or of a missing entry throws. */
  predicate Stuck(sig: Signature, st: Diamond)
  {
    Deep(sig, st) && (st.currentSpecific.None? || st.currentSpecificInDiamond >= |st.currentSpecific.value|)
  }

  /** The next `currentSpecific`: the entry's own type arguments when it has some, else the declared ones. */
  function NextSpecific(sig: Signature, st: Diamond): Option<seq<TsType>>
    requires !Stuck(sig, st)
  {
    if Deep(sig, st) && st.currentSpecific.value[st.currentSpecificInDiamond].ownArguments.Some?
    then st.currentSpecific.value[st.currentSpecificInDiamond].ownArguments
    else sig.specific
  }

  /** The type the token's file and namespace come from; a missing declared argument is undefined. */
  function NextParam(sig: Signature, st: Diamond): Option<TsType>
  {
    if st.currentDiamond == 0 && sig.specific.Some? then sig.generic
    else if Deep(sig, st) then
      (if st.currentSpecificInDiamond < |sig.specific.value| then Some(sig.specific.value[st.currentSpecificInDiamond]) else None)
    else st.deParameterType
  }

  /** The remaining text `text[from..]` has a `,` before its first `<`, and it has a `<`. */
  predicate CommaFirst(text: string, from: nat)
  {
    var comma := FindFrom(text, ",", from);
    var open := FindFrom(text, "<", from);
    comma != -1 && open != -1 && comma < open
  }

  /**
   * With more than one token: a `,` before the next `<` moves to the next
   * argument of the same diamond, otherwise the loop enters the next diamond.
   */
  function Moved(n: nat, text: string, st: Diamond, currentSpecific: Option<seq<TsType>>, param: Option<TsType>): Diamond
  {
    var from := st.remainingFrom;
    if n > 1 && CommaFirst(text, from) then
      Diamond(st.currentDiamond, st.currentSpecificInDiamond + 1, currentSpecific, SkipPast(text, ",", from), param)
    else if n > 1 then
      Diamond(st.currentDiamond + 1, st.currentSpecificInDiamond, currentSpecific, SkipPast(text, "<", from), param)
    else
      Diamond(st.currentDiamond, st.currentSpecificInDiamond, currentSpecific, from, param)
  }

  /** The four slot arrays the factory fills. */
  datatype Slots4 = Slots4(returnType: seq<string>, fullName: Slots, moduleName: Slots, typeFile: Slots)

  function FileOf(t: Option<TsType>): string
  {
    if t.Some? then t.value.file else ""
  }

  function NamespaceOfType(t: Option<TsType>): string
  {
    if t.Some? then t.value.sourceNamespace else ""
  }

  /**
   * The full name of a token: by import first; otherwise prefixed by the
   * namespace of the type's source file when that is non-empty.
   */
  function QualifyToken(imports: seq<string>, token: string, t: Option<TsType>): (r: string)
    ensures PF.ImportQualified(imports, token).Some? ==> r == PF.ImportQualified(imports, token).value
  {
    match PF.ImportQualified(imports, token)
    case Some(q) => q
    case None => if NamespaceOfType(t) != "" then NamespaceOfType(t) + "." + token else token
  }

  /** Without a matching import, a full name is the token, possibly behind its source file's namespace. */
  lemma QualifiedEndsWithToken(imports: seq<string>, token: string, t: Option<TsType>)
    requires PF.ImportQualified(imports, token).None?
    ensures var r := QualifyToken(imports, token, t);
      EndsWith(r, token) && (r == token || r == NamespaceOfType(t) + "." + token)
  {
    var r := QualifyToken(imports, token, t);
    assert r[|r| - |token|..] == token;
  }

  /** The writes for one token at slot `k`: its file and that file's module together, and its full name. */
  function WriteToken(s: Slots4, k: nat, token: string, t: Option<TsType>, imports: seq<string>,
                      modules: seq<ModuleEntry>): Slots4
  {
    var file := FileOf(t);
    Slots4(s.returnType, Put(s.fullName, k, QualifyToken(imports, token, t)),
           Put(s.moduleName, k, CF.GetModuleName(file, modules)), Put(s.typeFile, k, file))
  }

  /** The token loop from token `j` on; slots are written at `base + j`. */
  function TokenLoop(sig: Signature, imports: seq<string>, modules: seq<ModuleEntry>, tokens: seq<string>,
                     text: string, base: nat, j: nat, st: Diamond, s: Slots4): Result<Slots4>
    decreases |tokens| - j
  {
    if j >= |tokens| then Ok(s)
    else
      match Advance(sig, |tokens|, text, st)
      case Err(e) => Err(e)
      case Ok(next) =>
        TokenLoop(sig, imports, modules, tokens, text, base, j + 1, next,
                  WriteToken(s, base + j, tokens[j], next.deParameterType, imports, modules))
  }

  /** One token: the diamond counters advance, then the slots at `k` are written, unless the advance throws. */
  function TokenStepOf(sig: Signature, n: nat, text: string, st: Diamond, s: Slots4, k: nat, token: string,
                       imports: seq<string>, modules: seq<ModuleEntry>): Result<(Diamond, Slots4)>
  {
    match Advance(sig, n, text, st)
    case Err(e) => Err(e)
    case Ok(next) => Ok((next, WriteToken(s, k, token, next.deParameterType, imports, modules)))
  }

  /** The token loop from token `j` is one step, then the loop from `j + 1`. */
  lemma TokenLoopByStep(sig: Signature, imports: seq<string>, modules: seq<ModuleEntry>, tokens: seq<string>,
                        text: string, base: nat, j: nat, st: Diamond, s: Slots4)
    requires j < |tokens|
    ensures var step := TokenStepOf(sig, |tokens|, text, st, s, base + j, tokens[j], imports, modules);
      TokenLoop(sig, imports, modules, tokens, text, base, j, st, s) ==
        match step
        case Err(e) => Err(e)
        case Ok(p) => TokenLoop(sig, imports, modules, tokens, text, base, j + 1, p.0, p.1)
  {
  }

  /** `i * allTypes.length`: the first slot of constituent `i`. */
  function SlotBase(i: nat, n: nat): nat
  {
    i * n
  }

  /** The token loop of a non-primitive constituent starts with these variables. */
  function StartDiamond(d: TsType, text: string): Diamond
  {
    Diamond(0, 0, None, SkipPast(text, "<", 0), Some(d))
  }

  /** One iteration of the union loop, for constituent `i`. */
  function Constituent(sig: Signature, imports: seq<string>, modules: seq<ModuleEntry>, i: nat, t: TsType,
                       s: Slots4): Result<Slots4>
  {
    match Unwrapped(t)
    case Err(e) => Err(e)
    case Ok(d) =>
      var text := Rendered(d, sig);
      var s1 := s.(returnType := s.returnType + [text]);
      if Primitive(d, text) then Ok(s1.(fullName := Put(s1.fullName, i, text)))
      else
        var tokens := Tokens(text);
        TokenLoop(sig, imports, modules, tokens, text, SlotBase(i, |tokens|), 0, StartDiamond(d, text), s1)
  }

  /** The union loop from constituent `i` on. */
  function UnionLoop(sig: Signature, imports: seq<string>, modules: seq<ModuleEntry>, ts: seq<TsType>, i: nat,
                     s: Slots4): Result<Slots4>
    decreases |ts| - i
  {
    if i >= |ts| then Ok(s)
    else
      match Constituent(sig, imports, modules, i, ts[i], s)
      case Err(e) => Err(e)
      case Ok(next) => UnionLoop(sig, imports, modules, ts, i + 1, next)
  }

  /** `methodTypeFile` of a new `Method`: one empty file name, where the other slot arrays start empty. */
  const DefaultTypeFile: Slots := [Some("")]

  function Empty(): Slots4
  {
    Slots4([], [], [], DefaultTypeFile)
  }

  /** The method `create` builds, or what it throws. */
  function Build(name: string, decl: CF.Declaration, questionToken: bool, sig: Option<Signature>,
                 modules: seq<ModuleEntry>): Result<Method>
  {
    var bare := Method(name, CF.GetMemberModifier(decl), CF.IsModifier(decl, CF.AbstractKeyword),
                       CF.IsModifier(decl, CF.AsyncKeyword), questionToken, CF.IsModifier(decl, CF.StaticKeyword),
                       [], [], [], [], [], DefaultTypeFile);
    if sig.None? then Ok(bare)
    else
      var g := sig.value;
      if CF.GetNamespace(g.symbol).Err? then Err(CF.GetNamespace(g.symbol).error)
      else if g.source.None? then Err("TypeError")
      else
        match UnionLoop(g, g.source.value, modules, Constituents(g.returnType), 0, Empty())
        case Err(e) => Err(e)
        case Ok(s) =>
          Ok(bare.(parameters := g.parameters, typeParameters := g.typeParameters, returnType := s.returnType,
                   returnTypeFullName := s.fullName, returnTypeModuleName := s.moduleName, methodTypeFile := s.typeFile))
  }

  /** The `while (symbol?.name === 'Array')` loop of `create`. */
  method UnwrapArrays(t: TsType) returns (r: Result<TsType>)
    ensures r == Unwrapped(t)
  {
    var deParameterType := t;
    while deParameterType.symbolName == Some("Array")
      invariant Unwrapped(deParameterType) == Unwrapped(t)
      decreases deParameterType
    {
      if deParameterType.typeArguments == [] {
        return Err("TypeError");
      }
      deParameterType := deParameterType.typeArguments[0];
    }
    return Ok(deParameterType);
  }

  /**
   * The first half of an iteration of the token loop: the two conditional
   * expressions for `currentSpecific` and `deParameterType`, then the
   * diamond counters.
   */
  method AdvanceDiamond(g: Signature, n: nat, text: string, st: Diamond) returns (r: Result<Diamond>)
    ensures r == Advance(g, n, text, st)
  {
    if Stuck(g, st) {
      return Err("TypeError");
    }
    var currentSpecific := NextSpecific(g, st);
    var deParameterType := NextParam(g, st);
    var currentDiamond, currentSpecificInDiamond, remainingFrom := st.currentDiamond, st.currentSpecificInDiamond, st.remainingFrom;
    if n > 1 && CommaFirst(text, remainingFrom) {
      currentSpecificInDiamond := currentSpecificInDiamond + 1;
      remainingFrom := SkipPast(text, ",", remainingFrom);
    } else if n > 1 {
      currentDiamond := currentDiamond + 1;
      remainingFrom := SkipPast(text, "<", remainingFrom);
    }
    return Ok(Diamond(currentDiamond, currentSpecificInDiamond, currentSpecific, remainingFrom, deParameterType));
  }

  /** The second half: the token's file, module and full name at slot `k`. */
  method WriteSlots(s: Slots4, k: nat, token: string, param: Option<TsType>, imports: seq<string>,
                    modules: seq<ModuleEntry>) returns (r: Slots4)
    ensures r == WriteToken(s, k, token, param, imports, modules)
  {
    var file := FileOf(param);
    r := s.(typeFile := Put(s.typeFile, k, file));
    r := r.(moduleName := Put(r.moduleName, k, CF.GetModuleName(file, modules)));
    var namespacedType := PF.Matching(imports, token);
    var fullName;
    if |namespacedType| == 0 {
      var ns := NamespaceOfType(param);
      fullName := if ns != "" then ns + "." + token else token;
    } else if EndsWith(token, "[]") {
      fullName := namespacedType[0] + "[]";
    } else {
      fullName := namespacedType[0];
    }
    r := r.(fullName := Put(r.fullName, k, fullName));
  }

  /** One iteration of the token loop of `create`: the diamond counters, then the writes for token `j`. */
  method TokenStep(g: Signature, imports: seq<string>, modules: seq<ModuleEntry>, allTypes: seq<string>,
                   text: string, base: nat, j: nat, st: Diamond, s: Slots4) returns (r: Result<(Diamond, Slots4)>)
    requires j < |allTypes|
    ensures r == TokenStepOf(g, |allTypes|, text, st, s, base + j, allTypes[j], imports, modules)
  {
    var next := AdvanceDiamond(g, |allTypes|, text, st);
    if next.Err? {
      r := Err(next.error);
    } else {
      var written := WriteSlots(s, base + j, allTypes[j], next.value.deParameterType, imports, modules);
      r := Ok((next.value, written));
    }
  }

  /** The token loop of `create` for a constituent that is not primitive. */
  method FillTokens(g: Signature, imports: seq<string>, modules: seq<ModuleEntry>, allTypes: seq<string>,
                    base: nat, d: TsType, text: string, s0: Slots4) returns (r: Result<Slots4>)
    ensures r == TokenLoop(g, imports, modules, allTypes, text, base, 0, StartDiamond(d, text), s0)
  {
    var st := StartDiamond(d, text);
    var s := s0;
    var j := 0;
    while j < |allTypes|
      invariant 0 <= j <= |allTypes|
      invariant TokenLoop(g, imports, modules, allTypes, text, base, j, st, s)
             == TokenLoop(g, imports, modules, allTypes, text, base, 0, StartDiamond(d, text), s0)
    {
      var step := TokenStep(g, imports, modules, allTypes, text, base, j, st, s);
      TokenLoopByStep(g, imports, modules, allTypes, text, base, j, st, s);
      if step.Err? {
        return Err(step.error);
      }
      st, s := step.value.0, step.value.1;
      j := j + 1;
    }
    return Ok(s);
  }

  /**
   * `MethodFactory.create`: the modifiers and flags, then, when the
   * checker has a signature, the union loop over the return type.
   */
  method Create(name: string, decl: CF.Declaration, questionToken: bool, sig: Option<Signature>,
                modules: seq<ModuleEntry>) returns (r: Result<Method>)
    ensures r == Build(name, decl, questionToken, sig, modules)
  {
    var result := Method(name, CF.GetMemberModifier(decl), CF.IsModifier(decl, CF.AbstractKeyword),
                         CF.IsModifier(decl, CF.AsyncKeyword), questionToken, CF.IsModifier(decl, CF.StaticKeyword),
                         [], [], [], [], [], DefaultTypeFile);
    if sig.None? {
      return Ok(result);
    }
    var g := sig.value;
    var namespace := CF.GetNamespace(g.symbol);
    if namespace.Err? {
      return Err(namespace.error);
    }
    if g.source.None? {
      return Err("TypeError");
    }
    var imports := g.source.value;
    var types := Constituents(g.returnType);
    var s := Empty();
    var i := 0;
    while i < |types|
      invariant 0 <= i <= |types|
      invariant UnionLoop(g, imports, modules, types, i, s) == UnionLoop(g, imports, modules, types, 0, Empty())
    {
      var unwrapped := UnwrapArrays(types[i]);
      if unwrapped.Err? {
        return Err(unwrapped.error);
      }
      var d := unwrapped.value;
      var text := d.text;
      if text == "any" && g.generic.Some? && g.specific.Some? {
        text := g.genericName + "<" + Join(Texts(g.specific.value), ",") + ">";
      }
      var next := s.(returnType := s.returnType + [text]);
      if Primitive(d, text) {
        next := next.(fullName := Put(next.fullName, i, text));
      } else {
        var allTypes := Tokens(text);
        var base := SlotBase(i, |allTypes|);
        var filled := FillTokens(g, imports, modules, allTypes, base, d, text, next);
        if filled.Err? {
          return Err(filled.error);
        }
        next := filled.value;
      }
      assert Constituent(g, imports, modules, i, types[i], s) == Ok(next);
      s := next;
      i := i + 1;
    }
    r := Ok(result.(parameters := g.parameters, typeParameters := g.typeParameters, returnType := s.returnType,
                    returnTypeFullName := s.fullName, returnTypeModuleName := s.moduleName, methodTypeFile := s.typeFile));
  }

  // ---------------------------------------------------------------- properties

  /** Reading a JavaScript array after `arr[k] = v`. */
  lemma AtPut(s: Slots, k: nat, v: string)
    ensures forall j: nat :: At(Put(s, k, v), j) == if j == k then Some(v) else At(s, j)
  {
  }

  /**
   * Every module slot belongs to a file slot: a module name is written
   * only where a file is, and it is the module of that file. The one file
   * slot without a module is the empty default file name at slot 0.
   */
  ghost predicate ModulesFollowFiles(s: Slots4, modules: seq<ModuleEntry>)
  {
    forall k: nat ::
      (At(s.moduleName, k).Some? ==>
         At(s.typeFile, k).Some? && At(s.moduleName, k) == Some(CF.GetModuleName(At(s.typeFile, k).value, modules))) &&
      (At(s.typeFile, k).Some? && At(s.moduleName, k).None? ==> k == 0 && At(s.typeFile, k) == Some(""))
  }

  /** The slots in `[lo, hi)` of all three arrays are written. */
  predicate Written(s: Slots4, lo: nat, hi: nat)
  {
    forall k: nat :: lo <= k < hi ==> At(s.typeFile, k).Some? && At(s.moduleName, k).Some? && At(s.fullName, k).Some?
  }

  /** Outside `[lo, hi)` the three arrays of `r` and `s` agree. */
  ghost predicate SameOutside(r: Slots4, s: Slots4, lo: nat, hi: nat)
  {
    forall k: nat :: !(lo <= k < hi) ==>
      At(r.typeFile, k) == At(s.typeFile, k) && At(r.moduleName, k) == At(s.moduleName, k) &&
      At(r.fullName, k) == At(s.fullName, k)
  }

  /**
   * The token loop from token `j` writes the file, module and full name
   * of every remaining token's slot, keeps the file and module slots
   * consistent, touches no other slot and leaves the return types alone.
   */
  lemma {:induction false} TokenLoopSlots(sig: Signature, imports: seq<string>, modules: seq<ModuleEntry>,
                                          tokens: seq<string>, text: string, base: nat, j: nat, st: Diamond, s: Slots4)
    requires j <= |tokens| && TokenLoop(sig, imports, modules, tokens, text, base, j, st, s).Ok?
    requires ModulesFollowFiles(s, modules)
    ensures var r := TokenLoop(sig, imports, modules, tokens, text, base, j, st, s).value;
      r.returnType == s.returnType && ModulesFollowFiles(r, modules) &&
      Written(r, base + j, base + |tokens|) && SameOutside(r, s, base + j, base + |tokens|)
    decreases |tokens| - j
  {
    if j < |tokens| {
      var next := Advance(sig, |tokens|, text, st).value;
      var w := WriteToken(s, base + j, tokens[j], next.deParameterType, imports, modules);
      var file := FileOf(next.deParameterType);
      AtPut(s.typeFile, base + j, file);
      AtPut(s.moduleName, base + j, CF.GetModuleName(file, modules));
      AtPut(s.fullName, base + j, QualifyToken(imports, tokens[j], next.deParameterType));
      assert ModulesFollowFiles(w, modules);
      TokenLoopSlots(sig, imports, modules, tokens, text, base, j + 1, next, w);
    }
  }

  lemma {:induction false} TokenLoopReturnType(sig: Signature, imports: seq<string>, modules: seq<ModuleEntry>,
                                               tokens: seq<string>, text: string, base: nat, j: nat, st: Diamond, s: Slots4)
    requires j <= |tokens| && TokenLoop(sig, imports, modules, tokens, text, base, j, st, s).Ok?
    ensures TokenLoop(sig, imports, modules, tokens, text, base, j, st, s).value.returnType == s.returnType
    decreases |tokens| - j
  {
    if j < |tokens| {
      var next := Advance(sig, |tokens|, text, st).value;
      TokenLoopReturnType(sig, imports, modules, tokens, text, base, j + 1, next,
                          WriteToken(s, base + j, tokens[j], next.deParameterType, imports, modules));
    }
  }

  /** A constituent that is processed unwraps, and appends its rendered type to the return types. */
  lemma ConstituentReturnType(sig: Signature, imports: seq<string>, modules: seq<ModuleEntry>, i: nat, t: TsType,
                              s: Slots4)
    requires Constituent(sig, imports, modules, i, t, s).Ok?
    ensures Unwrapped(t).Ok?
    ensures Constituent(sig, imports, modules, i, t, s).value.returnType == s.returnType + [Rendered(Unwrapped(t).value, sig)]
  {
    var d := Unwrapped(t).value;
    var text := Rendered(d, sig);
    if !Primitive(d, text) {
      var tokens := Tokens(text);
      TokenLoopReturnType(sig, imports, modules, tokens, text, SlotBase(i, |tokens|), 0, StartDiamond(d, text),
                          s.(returnType := s.returnType + [text]));
    }
  }

  /**
   * One constituent appends its rendered type. A primitive one writes its
   * full name at slot `i` and nothing else; any other writes every slot of
   * its token range `[i*n, i*n+n)` and nothing outside it, so a later
   * constituent can overwrite an earlier one's slots.
   */
  lemma ConstituentSlots(sig: Signature, imports: seq<string>, modules: seq<ModuleEntry>, i: nat, t: TsType,
                         s: Slots4)
    requires Constituent(sig, imports, modules, i, t, s).Ok? && ModulesFollowFiles(s, modules)
    ensures Unwrapped(t).Ok?
    ensures var r := Constituent(sig, imports, modules, i, t, s).value;
      var d := Unwrapped(t).value;
      var text := Rendered(d, sig);
      var n := |Tokens(text)|;
      r.returnType == s.returnType + [text] && ModulesFollowFiles(r, modules) &&
      (Primitive(d, text) ==>
         r.typeFile == s.typeFile && r.moduleName == s.moduleName && r.fullName == Put(s.fullName, i, text)) &&
      (!Primitive(d, text) ==>
         Written(r, SlotBase(i, n), SlotBase(i, n) + n) && SameOutside(r, s, SlotBase(i, n), SlotBase(i, n) + n))
  {
    var d := Unwrapped(t).value;
    var text := Rendered(d, sig);
    var s1 := s.(returnType := s.returnType + [text]);
    if Primitive(d, text) {
      AtPut(s.fullName, i, text);
    } else {
      var tokens := Tokens(text);
      TokenLoopSlots(sig, imports, modules, tokens, text, SlotBase(i, |tokens|), 0, StartDiamond(d, text), s1);
    }
  }

  /** The rendered types of the constituents from `i` on, arrays unwrapped; an error when one cannot be unwrapped. */
  function RenderedFrom(sig: Signature, ts: seq<TsType>, i: nat): Result<seq<string>>
    decreases |ts| - i
  {
    if i >= |ts| then Ok([])
    else
      match Unwrapped(ts[i])
      case Err(e) => Err(e)
      case Ok(d) =>
        match RenderedFrom(sig, ts, i + 1)
        case Err(e) => Err(e)
        case Ok(rest) => Ok([Rendered(d, sig)] + rest)
  }

  /** One rendered type per constituent from `i` on, in order. */
  lemma {:induction false} RenderedFromIndex(sig: Signature, ts: seq<TsType>, i: nat)
    requires i <= |ts| && RenderedFrom(sig, ts, i).Ok?
    ensures var r := RenderedFrom(sig, ts, i).value;
      |r| == |ts| - i &&
      forall m :: i <= m < |ts| ==> Unwrapped(ts[m]).Ok? && r[m - i] == Rendered(Unwrapped(ts[m]).value, sig)
    decreases |ts| - i
  {
    if i < |ts| {
      RenderedFromIndex(sig, ts, i + 1);
    }
  }

  /** One step of the union loop: constituent `i` succeeds and the loop goes on from its slots. */
  lemma UnionLoopStep(sig: Signature, imports: seq<string>, modules: seq<ModuleEntry>, ts: seq<TsType>, i: nat,
                      s: Slots4)
    requires i < |ts| && UnionLoop(sig, imports, modules, ts, i, s).Ok?
    ensures Constituent(sig, imports, modules, i, ts[i], s).Ok?
    ensures UnionLoop(sig, imports, modules, ts, i, s)
         == UnionLoop(sig, imports, modules, ts, i + 1, Constituent(sig, imports, modules, i, ts[i], s).value)
  {
  }

  /** Every constituent the union loop gets through unwraps. */
  lemma {:induction false} UnionLoopUnwraps(sig: Signature, imports: seq<string>, modules: seq<ModuleEntry>,
                                            ts: seq<TsType>, i: nat, s: Slots4)
    requires i <= |ts| && UnionLoop(sig, imports, modules, ts, i, s).Ok?
    ensures RenderedFrom(sig, ts, i).Ok?
    decreases |ts| - i
  {
    if i < |ts| {
      UnionLoopStep(sig, imports, modules, ts, i, s);
      ConstituentReturnType(sig, imports, modules, i, ts[i], s);
      UnionLoopUnwraps(sig, imports, modules, ts, i + 1, Constituent(sig, imports, modules, i, ts[i], s).value);
    }
  }

  /** The union loop from constituent `i` appends exactly the rendered types of the remaining constituents. */
  lemma {:induction false} UnionLoopReturnTypes(sig: Signature, imports: seq<string>, modules: seq<ModuleEntry>,
                                                ts: seq<TsType>, i: nat, s: Slots4)
    requires i <= |ts| && UnionLoop(sig, imports, modules, ts, i, s).Ok? && RenderedFrom(sig, ts, i).Ok?
    ensures UnionLoop(sig, imports, modules, ts, i, s).value.returnType == s.returnType + RenderedFrom(sig, ts, i).value
    decreases |ts| - i
  {
    if i < |ts| {
      UnionLoopStep(sig, imports, modules, ts, i, s);
      var next := Constituent(sig, imports, modules, i, ts[i], s).value;
      ConstituentReturnType(sig, imports, modules, i, ts[i], s);
      UnionLoopReturnTypes(sig, imports, modules, ts, i + 1, next);
      var x := Rendered(Unwrapped(ts[i]).value, sig);
      AppendAssoc(s.returnType, [x], RenderedFrom(sig, ts, i + 1).value);
    }
  }

  /** The union loop keeps every module slot with its file slot. */
  lemma {:induction false} UnionLoopModules(sig: Signature, imports: seq<string>, modules: seq<ModuleEntry>,
                                            ts: seq<TsType>, i: nat, s: Slots4)
    requires i <= |ts| && UnionLoop(sig, imports, modules, ts, i, s).Ok? && ModulesFollowFiles(s, modules)
    ensures ModulesFollowFiles(UnionLoop(sig, imports, modules, ts, i, s).value, modules)
    decreases |ts| - i
  {
    if i < |ts| {
      var next := Constituent(sig, imports, modules, i, ts[i], s).value;
      ConstituentSlots(sig, imports, modules, i, ts[i], s);
      UnionLoopModules(sig, imports, modules, ts, i + 1, next);
    }
  }

  /** Every constituent unwraps to a primitive type. */
  predicate AllPrimitive(sig: Signature, ts: seq<TsType>)
  {
    forall m :: 0 <= m < |ts| ==> Unwrapped(ts[m]).Ok? && Primitive(Unwrapped(ts[m]).value, Rendered(Unwrapped(ts[m]).value, sig))
  }

  /**
   * With only primitive constituents from `i` on, no file or module slot
   * is written, and each constituent's full name is its rendered type.
   */
  lemma {:induction false} UnionLoopPrimitive(sig: Signature, imports: seq<string>, modules: seq<ModuleEntry>,
                                              ts: seq<TsType>, i: nat, s: Slots4)
    requires i <= |ts| && |s.returnType| == i && AllPrimitive(sig, ts)
    requires forall m :: 0 <= m < i ==> At(s.fullName, m) == Some(s.returnType[m])
    ensures UnionLoop(sig, imports, modules, ts, i, s).Ok?
    ensures var r := UnionLoop(sig, imports, modules, ts, i, s).value;
      r.typeFile == s.typeFile && r.moduleName == s.moduleName && |r.returnType| == |ts| &&
      forall m :: 0 <= m < |ts| ==> At(r.fullName, m) == Some(r.returnType[m])
    decreases |ts| - i
  {
    if i < |ts| {
      var d := Unwrapped(ts[i]).value;
      var text := Rendered(d, sig);
      var next := s.(returnType := s.returnType + [text], fullName := Put(s.fullName, i, text));
      assert Constituent(sig, imports, modules, i, ts[i], s) == Ok(next);
      AtPut(s.fullName, i, text);
      UnionLoopPrimitive(sig, imports, modules, ts, i + 1, next);
    }
  }

  /** A method with no signature, or whose checks fail, has no return type; the flags come from the declaration. */
  lemma BuildShape(name: string, decl: CF.Declaration, questionToken: bool, sig: Option<Signature>,
                   modules: seq<ModuleEntry>)
    ensures var r := Build(name, decl, questionToken, sig, modules);
      (sig.None? ==> r.Ok? && r.value.returnType == [] && r.value.parameters == [] &&
                     r.value.methodTypeFile == [Some("")] && r.value.returnTypeModuleName == []) &&
      (sig.Some? && CF.GetNamespace(sig.value.symbol).Err? ==> r == Err(CF.GetNamespace(sig.value.symbol).error)) &&
      (sig.Some? && CF.GetNamespace(sig.value.symbol).Ok? && sig.value.source.None? ==> r == Err("TypeError")) &&
      (r.Ok? ==>
         r.value.name == name && r.value.modifier == CF.GetMemberModifier(decl) &&
         r.value.isOptional == questionToken &&
         (r.value.isAbstract <==> decl.canHaveModifiers && decl.modifiers.Some? && CF.AbstractKeyword in decl.modifiers.value) &&
         (r.value.isAsync <==> decl.canHaveModifiers && decl.modifiers.Some? && CF.AsyncKeyword in decl.modifiers.value) &&
         (r.value.isStatic <==> decl.canHaveModifiers && decl.modifiers.Some? && CF.StaticKeyword in decl.modifiers.value))
  {
  }

  /**
   * A built method has one return type per constituent of the checker's
   * return type, in order, each the rendering of the constituent with its
   * arrays unwrapped; and its module slots follow its file slots.
   */
  lemma BuildReturnTypes(name: string, decl: CF.Declaration, questionToken: bool, sig: Signature,
                         modules: seq<ModuleEntry>)
    requires Build(name, decl, questionToken, Some(sig), modules).Ok?
    ensures var m := Build(name, decl, questionToken, Some(sig), modules).value;
      var ts := Constituents(sig.returnType);
      ModulesFollowFiles(Slots4(m.returnType, m.returnTypeFullName, m.returnTypeModuleName, m.methodTypeFile), modules) &&
      |m.returnType| == |ts| &&
      forall i :: 0 <= i < |ts| ==> Unwrapped(ts[i]).Ok? && m.returnType[i] == Rendered(Unwrapped(ts[i]).value, sig)
  {
    var ts := Constituents(sig.returnType);
    UnionLoopUnwraps(sig, sig.source.value, modules, ts, 0, Empty());
    UnionLoopReturnTypes(sig, sig.source.value, modules, ts, 0, Empty());
    RenderedFromIndex(sig, ts, 0);
    UnionLoopModules(sig, sig.source.value, modules, ts, 0, Empty());
  }

  /**
   * A method returning only primitive types (`string | number`) keeps the
   * default file slot and has no module slot, and each full name is the
   * return type itself.
   */
  lemma BuildPrimitive(name: string, decl: CF.Declaration, questionToken: bool, sig: Signature,
                       modules: seq<ModuleEntry>)
    requires CF.GetNamespace(sig.symbol).Ok? && sig.source.Some?
    requires AllPrimitive(sig, Constituents(sig.returnType))
    ensures Build(name, decl, questionToken, Some(sig), modules).Ok?
    ensures var m := Build(name, decl, questionToken, Some(sig), modules).value;
      m.methodTypeFile == [Some("")] && m.returnTypeModuleName == [] &&
      forall i :: 0 <= i < |m.returnType| ==> At(m.returnTypeFullName, i) == Some(m.returnType[i])
  {
    UnionLoopPrimitive(sig, sig.source.value, modules, Constituents(sig.returnType), 0, Empty());
  }
}
