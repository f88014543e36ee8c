/** The engine-side vocabulary the analysis produces: variant types, property
    descriptors (GDProperty), method flags, and the engine services it queries.
    The engine services are an injected value: the analysis never sees how the
    class database answers. */
module GodotTypes {

  /** GDExtensionVariantType, in engine order (NIL .. PACKED_COLOR_ARRAY). */
  datatype VariantType =
    | Nil | Bool | Int | Float | String
    | Vector2 | Vector2i | Rect2 | Rect2i | Vector3 | Vector3i | Transform2D
    | Vector4 | Vector4i | Plane | Quaternion | Aabb | Basis | Transform3D
    | Projection | Color | StringName | NodePath | Rid | Object | Callable
    | Signal | Dictionary | Array
    | PackedByteArray | PackedInt32Array | PackedInt64Array | PackedFloat32Array
    | PackedFloat64Array | PackedStringArray | PackedVector2Array
    | PackedVector3Array | PackedColorArray

  /** The five types below VECTOR2, which the engine's type-name loop skips. */
  predicate IsPrimitive(t: VariantType) {
    t.Nil? || t.Bool? || t.Int? || t.Float? || t.String?
  }

  /** The property hints the analysis writes (all others are never produced). */
  datatype PropertyHint = HintNone | HintResourceType | HintArrayType

  /** Property usage bits: PROPERTY_USAGE_DEFAULT is STORAGE | EDITOR. */
  datatype UsageFlag = UsageStorage | UsageEditor | UsageNilIsVariant

  const DefaultUsage: set<UsageFlag> := {UsageStorage, UsageEditor}

  /** GDProperty: one reflectable value type. */
  datatype Property = Property(
    vtype: VariantType,
    name: string,
    className: string,
    hint: PropertyHint,
    hintString: string,
    usage: set<UsageFlag>)

  /** A freshly constructed GDProperty. */
  const DefaultProperty: Property := Property(Nil, "", "", HintNone, "", DefaultUsage)

  /** The "accepts any value" descriptor: type NIL with usage DEFAULT | NIL_IS_VARIANT. */
  const VariantProperty: Property := DefaultProperty.(usage := DefaultUsage + {UsageNilIsVariant})

  /** Method flags; a fresh GDMethod carries METHOD_FLAGS_DEFAULT, which is NORMAL. */
  datatype MethodFlag = FlagNormal | FlagEditor | FlagConst | FlagVirtual | FlagVararg | FlagStatic

  const DefaultMethodFlags: set<MethodFlag> := {FlagNormal}

  /** What the analysis asks of the engine:
      - classExists, isParentClass: the class database's answers;
      - resourceTypeHint: the hint string the engine builds for a typed array
        of a resource class;
      - builtinTypeNames: Variant::get_type_name(t) mapped to t, for every t
        from VECTOR2 up to (excluding) VARIANT_MAX;
      - typeName: Variant::get_type_name. */
  datatype Host = Host(
    classExists: string -> bool,
    isParentClass: (string, string) -> bool,
    resourceTypeHint: string -> string,
    builtinTypeNames: map<string, VariantType>,
    typeName: VariantType -> string)
}
