/** Type mapping and method signatures: how a Luau type annotation becomes a
    property descriptor (get_type, get_prop, get_type_reference), and how a
    harvested method becomes a method descriptor (luascript_ast_method). */
module LuauSignature {
  import opened Wrappers
  import opened LuauAst
  import opened GodotTypes
  import opened LuauAnalysis

  /* ---------- get_type ---------- */

  /** The Luau spellings of the five primitive types. */
  const LuauTypeNames: map<string, VariantType> :=
    map["nil" := Nil, "boolean" := Bool, "integer" := Int, "number" := Float, "string" := String]

  const VariantName: string := "Variant"

  /** The name table get_type consults: the Luau spellings, then the engine's
      own names of every type from VECTOR2 on (a later insertion of the same
      key would overwrite an earlier one). */
  function TypeTable(h: Host): map<string, VariantType> {
    LuauTypeNames + h.builtinTypeNames
  }

  /** The engine's type names are capitalised: none of them is a Luau
      spelling or "Variant". */
  predicate ValidHost(h: Host) {
    forall n :: n in h.builtinTypeNames ==> n !in LuauTypeNames && n != VariantName
  }

  /** get_type: writes the descriptor of the type named `name` over `prop`,
      or fails (None) leaving nothing written. */
  function GetType(h: Host, name: string, prop: Property): (r: Option<Property>)
    ensures r.None? <==> name != VariantName && name !in TypeTable(h) && !h.classExists(name)
    ensures r.Some? ==> r.value.name == prop.name
    ensures r.Some? && r.value.hint == HintArrayType ==> prop.hint == HintArrayType
  {
    if name == VariantName then
      Some(prop.(vtype := Nil, usage := DefaultUsage + {UsageNilIsVariant}))
    else if name in TypeTable(h) then
      Some(prop.(vtype := TypeTable(h)[name]))
    else if h.classExists(name) then
      if h.isParentClass(name, "Resource") then
        Some(prop.(vtype := Object, hint := HintResourceType, hintString := name))
      else
        Some(prop.(vtype := Object, className := name))
    else
      None
  }

  /** "Variant" is answered before any table or registry lookup: every host
      gives the same "accepts any value" descriptor. */
  lemma VariantIsHostIndependent(h1: Host, h2: Host)
    ensures GetType(h1, VariantName, DefaultProperty) == GetType(h2, VariantName, DefaultProperty)
              == Some(VariantProperty)
  {
  }

  /** The five Luau spellings resolve to the five primitive types, whatever
      the registry holds. */
  lemma {:induction false} LuauNamesArePrimitive(h: Host, name: string, prop: Property)
    requires ValidHost(h) && name in LuauTypeNames
    ensures GetType(h, name, prop) == Some(prop.(vtype := LuauTypeNames[name]))
    ensures IsPrimitive(GetType(h, name, prop).value.vtype)
  {
    assert name !in h.builtinTypeNames;
    assert TypeTable(h)[name] == LuauTypeNames[name];
  }

  /** A builtin type name shadows any class of the same name: "Object" gives
      type OBJECT with neither a class name nor a resource hint. */
  lemma BuiltinNamesShadowClasses(h: Host, name: string)
    requires ValidHost(h) && name in h.builtinTypeNames
    ensures GetType(h, name, DefaultProperty) == Some(DefaultProperty.(vtype := h.builtinTypeNames[name]))
  {
  }

  /** A registered class that is not a table name gives OBJECT, tagged either
      as a resource (hint and hint string) or as an object (class name),
      never both. */
  lemma ClassesAreResourceOrObject(h: Host, name: string)
    requires name != VariantName && name !in TypeTable(h) && h.classExists(name)
    ensures var p := GetType(h, name, DefaultProperty).value;
      p.vtype == Object && p.usage == DefaultUsage &&
      ((h.isParentClass(name, "Resource") && p.hint == HintResourceType && p.hintString == name && p.className == "") ||
       (!h.isParentClass(name, "Resource") && p.hint == HintNone && p.hintString == "" && p.className == name))
  {
  }

  /* ---------- get_type_reference ---------- */

  predicate IsNilReference(t: TypeNode) {
    t.TypeReference? && t.name == "nil"
  }

  /** The loop over a union's members: a non-reference member ends the scan
      with nothing; the first time both a `nil` and a non-nil reference have
      been seen, the first non-nil one is the answer. */
  function UnionScan(types: seq<TypeNode>, nilFound: bool, first: Option<TypeNode>): (r: Option<TypeNode>)
    requires first.Some? ==> first.value.TypeReference?
    ensures r.Some? ==> r.value.TypeReference? && !IsNilReference(r.value)
    requires first.Some? ==> !IsNilReference(first.value)
  {
    if types == [] then None
    else
      var t := types[0];
      if !t.TypeReference? then None
      else
        var nilFound' := nilFound || t.name == "nil";
        var first' := if t.name != "nil" && first.None? then Some(t) else first;
        if nilFound' && first'.Some? then first' else UnionScan(types[1..], nilFound', first')
  }

  /** get_type_reference: the reference a type stands for, and whether it was
      written `T?` (a union with nil). */
  function GetTypeReference(t: TypeNode): (r: Option<(TypeNode, bool)>)
    ensures r.Some? ==> r.value.0.TypeReference?
  {
    match t
    case TypeReference(_, _, _) => Some((t, false))
    case TypeUnion(types) =>
      if |types| != 2 then None
      else
        (match UnionScan(types, false, None)
         case Some(ref) => Some((ref, true))
         case None => None)
    case TypeOther => None
  }

  /** What get_type_reference accepts, stated without the scan: a reference
      as itself; a two-member union of one `nil` reference and one other
      reference as that other reference, flagged conditional; nothing else. */
  function NullableReference(t: TypeNode): Option<(TypeNode, bool)> {
    if t.TypeReference? then Some((t, false))
    else if t.TypeUnion? && |t.types| == 2 &&
            t.types[0].TypeReference? && t.types[1].TypeReference? &&
            IsNilReference(t.types[0]) != IsNilReference(t.types[1])
    then Some((if IsNilReference(t.types[0]) then t.types[1] else t.types[0], true))
    else None
  }

  lemma GetTypeReferenceIsNullableReference(t: TypeNode)
    ensures GetTypeReference(t) == NullableReference(t)
  {
    if t.TypeUnion? && |t.types| == 2 {
      var a, b := t.types[0], t.types[1];
      assert t.types[1..] == [b];
      if a.TypeReference? {
        var first := if a.name != "nil" then Some(a) else None;
        assert UnionScan(t.types, false, None) == UnionScan([b], IsNilReference(a), first);
        ScanLast(b, IsNilReference(a), first);
      }
    }
  }

  /** The scan's last step, on the union's second member. */
  lemma ScanLast(b: TypeNode, nilFound: bool, first: Option<TypeNode>)
    requires first.Some? ==> first.value.TypeReference? && !IsNilReference(first.value)
    ensures UnionScan([b], nilFound, first) ==
      if b.TypeReference? && (nilFound || IsNilReference(b)) && (first.Some? || !IsNilReference(b))
      then (if first.Some? then first else Some(b)) else None
  {
    assert [b][1..] == [];
  }

  /* ---------- get_prop ---------- */

  const TypedArrayName: string := "TypedArray"

  /** get_prop: a reference without a parameter list is a plain type name;
      `TypedArray<T>` with T a resolvable reference is a typed array; every
      other parameterised reference fails. */
  function GetProp(h: Host, ref: TypeNode, prop: Property): (r: Option<Property>)
    requires ref.TypeReference?
    ensures !ref.hasParameterList ==> r == GetType(h, ref.name, prop)
    ensures ref.hasParameterList && r.Some? ==>
      ref.name == TypedArrayName && r.value.vtype == Array && r.value.hint == HintArrayType &&
      r.value.name == prop.name
  {
    if !ref.hasParameterList then GetType(h, ref.name, prop)
    else if ref.name == TypedArrayName && |ref.parameters| >= 1 &&
            ref.parameters[0].TypeArg? && ref.parameters[0].argType.TypeReference? then
      var element :- GetType(h, ref.parameters[0].argType.name, DefaultProperty);
      var hintString :=
        if element.vtype == Object then
          if element.hint == HintResourceType then h.resourceTypeHint(element.hintString)
          else element.className
        else h.typeName(element.vtype);
      Some(prop.(vtype := Array, hint := HintArrayType, hintString := hintString))
    else None
  }

  /** A typed array resolves exactly when its first type argument does, and
      its hint string names that element type. */
  lemma TypedArrayFollowsElement(h: Host, ref: TypeNode, prop: Property)
    requires ref.TypeReference? && ref.hasParameterList && ref.name == TypedArrayName
    requires |ref.parameters| >= 1 && ref.parameters[0].TypeArg? && ref.parameters[0].argType.TypeReference?
    ensures var element := GetType(h, ref.parameters[0].argType.name, DefaultProperty);
      (GetProp(h, ref, prop).Some? <==> element.Some?) &&
      (element.Some? && element.value.vtype != Object ==>
        GetProp(h, ref, prop).value.hintString == h.typeName(element.value.vtype)) &&
      (element.Some? && element.value.vtype == Object ==>
        GetProp(h, ref, prop).value.hintString ==
          if element.value.hint == HintResourceType then h.resourceTypeHint(element.value.hintString)
          else element.value.className)
    ensures var name := ref.parameters[0].argType.name;
      name != VariantName && name !in TypeTable(h) && h.classExists(name) ==>
        GetProp(h, ref, prop).Some? &&
        GetProp(h, ref, prop).value.hintString ==
          if h.isParentClass(name, "Resource") then h.resourceTypeHint(name) else name
  {
  }

  /** `TypedArray<>` with no argument fails instead of reading a first
      argument that is not there. */
  lemma EmptyTypedArrayFails(h: Host, prop: Property)
    ensures GetProp(h, TypeReference(TypedArrayName, true, []), prop) == None
  {
  }

  /** The as-written guard of the typed-array branch: the code reads the
      first parameter whenever the reference is a parameterised TypedArray. */
  predicate ReadsFirstTypeArgument(ref: TypeNode)
    requires ref.TypeReference?
  {
    ref.hasParameterList && ref.name == TypedArrayName
  }

  /** `TypedArray<>` passes that guard with an empty parameter list. */
  lemma EmptyTypedArrayPassesGuard()
    ensures var ref := TypeReference(TypedArrayName, true, []);
      ReadsFirstTypeArgument(ref) && |ref.parameters| == 0
  {
  }

  /* ---------- luascript_ast_method ---------- */

  /** The descriptor of a return annotation: exactly one type, which is a
      reference or `T?`; `T?` means "any value". */
  function ReturnDescriptor(h: Host, types: seq<TypeNode>): (r: Option<Property>)
    ensures |types| != 1 ==> r.None?
  {
    if |types| != 1 then None
    else
      match GetTypeReference(types[0])
      case None => None
      case Some((ref, conditional)) =>
        if conditional then Some(VariantProperty) else GetProp(h, ref, DefaultProperty)
  }

  /** Any `T?` return is the Variant descriptor, whether or not T resolves. */
  lemma ConditionalReturnIsVariant(h: Host, t: TypeNode)
    requires t.TypeReference? && !IsNilReference(t)
    ensures ReturnDescriptor(h, [TypeUnion([t, TypeReference("nil", false, [])])]) == Some(VariantProperty)
    ensures ReturnDescriptor(h, [TypeUnion([TypeReference("nil", false, []), t])]) == Some(VariantProperty)
  {
    GetTypeReferenceIsNullableReference(TypeUnion([t, TypeReference("nil", false, [])]));
    GetTypeReferenceIsNullableReference(TypeUnion([TypeReference("nil", false, []), t]));
  }

  /** The as-written guard of the return branch: only more than one type is
      refused before the first type is read. */
  predicate ReturnGuardPasses(types: seq<TypeNode>) {
    !(|types| > 1)
  }

  /** An empty return list, as in `(): ()`, passes that guard although it has
      no first type to read. */
  lemma EmptyReturnListPassesGuard()
    ensures var types: seq<TypeNode> := []; ReturnGuardPasses(types) && |types| == 0
  {
  }

  /** The descriptor of one parameter: it must be annotated, the annotation
      must be a reference or `T?` (read as T), and it must resolve; the
      descriptor carries the parameter's name. */
  function ArgumentDescriptor(h: Host, arg: Local): (r: Option<Property>)
    ensures r.Some? ==> arg.annotation.Some? && r.value.name == arg.name
  {
    if arg.annotation.None? then None
    else
      match GetTypeReference(arg.annotation.value)
      case None => None
      case Some((ref, _)) => GetProp(h, ref, DefaultProperty.(name := arg.name))
  }

  /** A `T?` parameter is described exactly as a `T` parameter. */
  lemma ConditionalArgumentIsItsInner(h: Host, arg: Local, t: TypeNode)
    requires t.TypeReference? && !IsNilReference(t)
    requires arg.annotation == Some(TypeUnion([t, TypeReference("nil", false, [])]))
    ensures ArgumentDescriptor(h, arg) == ArgumentDescriptor(h, arg.(annotation := Some(t)))
  {
    GetTypeReferenceIsNullableReference(TypeUnion([t, TypeReference("nil", false, [])]));
  }

  /** All the parameters' descriptors, or nothing if any one fails. */
  function ArgumentDescriptors(h: Host, args: seq<Local>): (r: Option<seq<Property>>)
    ensures r.Some? <==> forall k :: 0 <= k < |args| ==> ArgumentDescriptor(h, args[k]).Some?
    ensures r.Some? ==> |r.value| == |args|
    ensures r.Some? ==> forall k :: 0 <= k < |args| ==> r.value[k] == ArgumentDescriptor(h, args[k]).value
  {
    if args == [] then Some([])
    else
      var init := args[..|args| - 1];
      assert forall k :: 0 <= k < |init| ==> init[k] == args[k];
      var prefix :- ArgumentDescriptors(h, init);
      var last :- ArgumentDescriptor(h, args[|args| - 1]);
      Some(prefix + [last])
  }

  /** The parameters that become arguments: a `function a.b(self, ...)`
      declaration has no implicit self, so its first parameter is skipped. */
  function SignatureParameters(f: FunctionExpr): (r: seq<Local>)
    ensures |r| == ArgumentCount(f.self.Some?, |f.args|)
  {
    if f.self.Some? then f.args
    else if |f.args| == 0 then []
    else f.args[1..]
  }

  /** The argument count: all parameters with an implicit self, all but the
      first without one, and none when there is nothing to skip. */
  function ArgumentCount(hasSelf: bool, n: nat): (r: nat)
    ensures r <= n
    ensures hasSelf ==> r == n
    ensures !hasSelf ==> r + 1 == n || (n == 0 && r == 0)
  {
    if hasSelf then n else if n == 0 then 0 else n - 1
  }

  /** size_t arithmetic: everything modulo 2^64. */
  const SizeModulus: int := 0x1_0000_0000_0000_0000

  /** The size the code requests for the argument list, computed on size_t. */
  function RequestedArgumentCount(hasSelf: bool, n: nat): (r: nat)
    ensures r < SizeModulus || hasSelf
  {
    if hasSelf then n else (n - 1 + SizeModulus) % SizeModulus
  }

  /** With an implicit self, or at least one parameter, the requested size is
      the argument count; a `.`-declared method with no parameter requests
      2^64 - 1 slots instead of none. */
  lemma RequestedCountWrapsForEmptyDotMethod()
    ensures RequestedArgumentCount(false, 0) == SizeModulus - 1
    ensures ArgumentCount(false, 0) == 0
  {
  }

  lemma RequestedCountAgreesOtherwise(hasSelf: bool, n: nat)
    requires hasSelf || n > 0
    requires n < SizeModulus
    ensures RequestedArgumentCount(hasSelf, n) == ArgumentCount(hasSelf, n)
  {
  }

  /** The method descriptor parts luascript_ast_method writes on success:
      the return descriptor if there is a return annotation, whether the
      method is vararg, and the argument descriptors. */
  datatype Signature = Signature(returnVal: Option<Property>, vararg: bool, arguments: seq<Property>)

  /** The whole signature, or None when the method is unknown, its return
      annotation is unusable, or any argument is. */
  function MethodSignature(h: Host, methods: map<string, FunctionStat>, name: string): (r: Option<Signature>)
    ensures name !in methods ==> r.None?
    ensures r.Some? ==> r.value.vararg == methods[name].func.vararg
  {
    if name !in methods then None
    else
      var f := methods[name].func;
      var returnVal :-
        if f.returnAnnotation.None? then Some(None)
        else
          match ReturnDescriptor(h, f.returnAnnotation.value)
          case Some(p) => Some(Some(p))
          case None => None;
      var arguments :- ArgumentDescriptors(h, SignatureParameters(f));
      Some(Signature(returnVal, f.vararg, arguments))
  }

  /** A signature exists exactly when the method is known, its return
      annotation (if any) is usable, and every argument resolves; its
      arguments are then one per parameter after the implicit-self skip. */
  lemma MethodSignatureAllOrNothing(h: Host, methods: map<string, FunctionStat>, name: string)
    requires name in methods
    ensures var f := methods[name].func;
      var params := SignatureParameters(f);
      MethodSignature(h, methods, name).Some? <==>
        (f.returnAnnotation.Some? ==> ReturnDescriptor(h, f.returnAnnotation.value).Some?) &&
        forall k :: 0 <= k < |params| ==> ArgumentDescriptor(h, params[k]).Some?
    ensures var f := methods[name].func;
      MethodSignature(h, methods, name).Some? ==>
        |MethodSignature(h, methods, name).value.arguments| == ArgumentCount(f.self.Some?, |f.args|)
  {
  }

  /** GDMethod, as far as the analysis fills it in. */
  class MethodInfo {
    var name: string
    var returnVal: Property
    var flags: set<MethodFlag>
    var arguments: seq<Property>

    constructor ()
      ensures name == "" && returnVal == DefaultProperty && flags == DefaultMethodFlags && arguments == []
    {
      name := "";
      returnVal := DefaultProperty;
      flags := DefaultMethodFlags;
      arguments := [];
    }

    /** The argument half of luascript_ast_method: the list is resized to the
        argument count and filled slot by slot, skipping the first parameter
        when there is no implicit self; the first argument that cannot be
        described ends the loop with failure. */
    method FillArguments(h: Host, func: FunctionExpr) returns (ok: bool)
      modifies this
      ensures name == old(name) && returnVal == old(returnVal) && flags == old(flags)
      ensures ok <==> ArgumentDescriptors(h, SignatureParameters(func)).Some?
      ensures ok ==> arguments == ArgumentDescriptors(h, SignatureParameters(func)).value
    {
      var argOffset := if func.self.Some? then 0 else 1;
      ghost var params := SignatureParameters(func);
      arguments := Resize(arguments, ArgumentCount(func.self.Some?, |func.args|));

      var i := 0;
      while i < |func.args|
        invariant 0 <= i <= |func.args|
        invariant |arguments| == |params|
        invariant forall k :: argOffset <= k < i ==>
          ArgumentDescriptor(h, func.args[k]).Some? &&
          arguments[k - argOffset] == ArgumentDescriptor(h, func.args[k]).value
        invariant name == old(name) && returnVal == old(returnVal) && flags == old(flags)
      {
        if i < argOffset {
          i := i + 1;
          continue;
        }
        var arg := func.args[i];
        assert params[i - argOffset] == arg;
        var argProp := DefaultProperty.(name := arg.name);
        if arg.annotation.None? {
          return false;
        }
        var found := GetTypeReference(arg.annotation.value);
        if found.None? {
          return false;
        }
        var resolved := GetProp(h, found.value.0, argProp);
        if resolved.None? {
          return false;
        }
        arguments := arguments[i - argOffset := resolved.value];
        i := i + 1;
      }
      assert forall k :: 0 <= k < |params| ==> params[k] == func.args[k + argOffset];
      ok := true;
    }
  }

  /** Resizing a property list: the common prefix is kept, new slots hold
      fresh descriptors. */
  function Resize(s: seq<Property>, n: nat): (r: seq<Property>)
    ensures |r| == n
    ensures forall k :: 0 <= k < n && k < |s| ==> r[k] == s[k]
    ensures forall k :: |s| <= k < n ==> r[k] == DefaultProperty
  {
    if n <= |s| then s[..n]
    else s + seq(n - |s|, _ => DefaultProperty)
  }

  /** luascript_ast_method. The name is written as soon as the method is
      found, before any failure; on success the descriptor holds the
      signature. */
  method LuauAstMethod(h: Host, analysis: AnalysisResult, methodName: string, ret: MethodInfo)
    returns (ok: bool)
    modifies ret
    ensures ok <==> MethodSignature(h, analysis.methods, methodName).Some?
    ensures methodName !in analysis.methods ==> unchanged(ret)
    ensures methodName in analysis.methods ==> ret.name == methodName
    ensures ok ==>
      var sig := MethodSignature(h, analysis.methods, methodName).value;
      ret.returnVal == (if sig.returnVal.Some? then sig.returnVal.value else old(ret.returnVal)) &&
      ret.flags == (if sig.vararg then old(ret.flags) + {FlagVararg} else old(ret.flags)) &&
      ret.arguments == sig.arguments
  {
    if methodName !in analysis.methods {
      return false;
    }
    var func := analysis.methods[methodName].func;
    ret.name := methodName;

    if func.returnAnnotation.Some? {
      var types := func.returnAnnotation.value;
      if |types| != 1 {
        return false;
      }
      var found := GetTypeReference(types[0]);
      if found.None? {
        return false;
      }
      var returnVal: Property;
      if found.value.1 {
        returnVal := VariantProperty;
      } else {
        var resolved := GetProp(h, found.value.0, DefaultProperty);
        if resolved.None? {
          return false;
        }
        returnVal := resolved.value;
      }
      ret.returnVal := returnVal;
    }

    if func.vararg {
      ret.flags := ret.flags + {FlagVararg};
    }

    ok := ret.FillArguments(h, func);
  }
}
