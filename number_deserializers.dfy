/**
  The decoders for Java's primitive and wrapper types and the standard "big"
  numeric types, and the registry that picks one for a requested class.

  Each decoder is a total function from the current token, the configuration
  and the coercion helpers' answers to exactly one `Outcome`.
*/
module NumberDeserializers {
  import opened JavaText
  import opened JsonInput

  // =====================================================================
  // Handled types
  // =====================================================================

  /** The eight types that have both a primitive and a wrapper decoder. */
  datatype Scalar =
    | BooleanType | ByteType | ShortType | CharacterType
    | IntegerType | LongType | FloatType | DoubleType

  /** `LogicalType`: the coarse class the coercion rules are keyed on. */
  datatype LogicalType = Boolean | Integer | Float | OtherScalar

  /** `AccessPattern`: how the null substitute of a decoder is obtained. */
  datatype AccessPattern = AlwaysNull | Constant | Dynamic

  /**
    A `java.lang.Class`, compared by identity as `find` compares it: the
    classes `find` knows, and any other class with its name and whether it is
    primitive. Another class may carry the name of a known one (loaded by
    another class loader), so a name does not determine a class.
  */
  datatype JClass =
    | PrimitiveClass(primitiveOf: Scalar)   // `Boolean.TYPE`, `Integer.TYPE`, ...
    | WrapperClass(wrapperOf: Scalar)       // `Boolean.class`, `Integer.class`, ...
    | VoidClass                             // `Void.TYPE`
    | NumberClass | BigDecimalClass | BigIntegerClass
    | OtherClass(otherName: string, otherPrimitive: bool)

  /** `Class.isPrimitive()`. */
  predicate IsPrimitive(c: JClass)
  {
    c.PrimitiveClass? || c.VoidClass? || (c.OtherClass? && c.otherPrimitive)
  }

  /** `Class.getName()`. */
  function Name(c: JClass): string
  {
    match c
    case PrimitiveClass(s) => PrimitiveName(s)
    case WrapperClass(s) => WrapperName(s)
    case VoidClass => "void"
    case NumberClass => "java.lang.Number"
    case BigDecimalClass => "java.math.BigDecimal"
    case BigIntegerClass => "java.math.BigInteger"
    case OtherClass(n, _) => n
  }

  function PrimitiveName(s: Scalar): string
  {
    match s
    case BooleanType => "boolean"
    case ByteType => "byte"
    case ShortType => "short"
    case CharacterType => "char"
    case IntegerType => "int"
    case LongType => "long"
    case FloatType => "float"
    case DoubleType => "double"
  }

  function WrapperName(s: Scalar): string
  {
    match s
    case BooleanType => "java.lang.Boolean"
    case ByteType => "java.lang.Byte"
    case ShortType => "java.lang.Short"
    case CharacterType => "java.lang.Character"
    case IntegerType => "java.lang.Integer"
    case LongType => "java.lang.Long"
    case FloatType => "java.lang.Float"
    case DoubleType => "java.lang.Double"
  }

  /** `Boolean.TYPE`, `Integer.class`, ...: the class of a scalar, primitive or boxed. */
  function HandledClass(s: Scalar, primitive: bool): (c: JClass)
    ensures IsPrimitive(c) == primitive
  {
    if primitive then PrimitiveClass(s) else WrapperClass(s)
  }

  /** `LogicalType` of each primitive-or-wrapper decoder (`Character` counts as Integer). */
  function LogicalTypeOf(s: Scalar): LogicalType
  {
    match s
    case BooleanType => Boolean
    case FloatType | DoubleType => Float
    case _ => Integer
  }

  /** A value is of the Java type the scalar names, and fits it. */
  predicate OfScalar(v: Value, s: Scalar)
  {
    WellFormed(v) &&
    match s
    case BooleanType => v.BoolValue?
    case ByteType => v.ByteValue?
    case ShortType => v.ShortValue?
    case CharacterType => v.CharValue?
    case IntegerType => v.IntValue?
    case LongType => v.LongValue?
    case FloatType => v.FloatValue?
    case DoubleType => v.DoubleValue?
  }

  /** A decode call of a decoder for `s` that returns a value returns one of type `s`. */
  predicate Produces(r: Outcome, s: Scalar)
  {
    r.Decoded? && r.result.Boxed? ==> OfScalar(r.result.v, s)
  }

  /** A zero of its type: `false`, the number zero, or the character `'\0'`. */
  predicate IsZero(v: Value)
  {
    match v
    case BoolValue(b) => !b
    case CharValue(u) => u == 0
    case FloatValue(f) => f.Nearest? && f.d.unscaled == 0
    case DoubleValue(f) => f.Nearest? && f.d.unscaled == 0
    case BigDecimalValue(d) => d.unscaled == 0
    case _ => v.n == 0
  }

  /** `Boolean.FALSE`, `(byte) 0`, `(short) 0`, `'\0'`, `0`, `0L`, `0.f`, `0.d`. */
  function Zero(s: Scalar): (v: Value)
    ensures OfScalar(v, s)
    ensures IsZero(v)
  {
    match s
    case BooleanType => BoolValue(false)
    case ByteType => ByteValue(0)
    case ShortType => ShortValue(0)
    case CharacterType => CharValue(0)
    case IntegerType => IntValue(0)
    case LongType => LongValue(0)
    case FloatType => FloatValue(Nearest(DecimalZero))
    case DoubleType => DoubleValue(Nearest(DecimalZero))
  }

  // =====================================================================
  // PrimitiveOrWrapperDeserializer
  // =====================================================================

  /**
    A `PrimitiveOrWrapperDeserializer`: the class it handles (a scalar and
    whether it is the primitive class) and the null substitute `nvl` given to
    its constructor. Its logical type and empty substitute follow from the scalar.
  */
  datatype PrimitiveOrWrapper = PrimitiveOrWrapper(scalar: Scalar, primitive: bool, nullValue: Nullable)
  {
    /** The null substitute is `null` or a value of the handled type. */
    predicate Typed()
    {
      nullValue == JNull || OfScalar(nullValue.v, scalar)
    }
  }

  type BooleanDeserializer = d: PrimitiveOrWrapper | d.scalar == BooleanType && d.Typed()
    witness PrimitiveOrWrapper(BooleanType, false, JNull)
  type ByteDeserializer = d: PrimitiveOrWrapper | d.scalar == ByteType && d.Typed()
    witness PrimitiveOrWrapper(ByteType, false, JNull)
  type ShortDeserializer = d: PrimitiveOrWrapper | d.scalar == ShortType && d.Typed()
    witness PrimitiveOrWrapper(ShortType, false, JNull)
  type CharacterDeserializer = d: PrimitiveOrWrapper | d.scalar == CharacterType && d.Typed()
    witness PrimitiveOrWrapper(CharacterType, false, JNull)
  type IntegerDeserializer = d: PrimitiveOrWrapper | d.scalar == IntegerType && d.Typed()
    witness PrimitiveOrWrapper(IntegerType, false, JNull)
  type LongDeserializer = d: PrimitiveOrWrapper | d.scalar == LongType && d.Typed()
    witness PrimitiveOrWrapper(LongType, false, JNull)

  /** The `primitiveInstance` singleton: the primitive class, with the type's zero as null substitute. */
  function PrimitiveInstance(s: Scalar): (d: PrimitiveOrWrapper)
    ensures d.Typed() && d.primitive
  {
    PrimitiveOrWrapper(s, true, Boxed(Zero(s)))
  }

  /** The `wrapperInstance` singleton: the wrapper class, with `null` as null substitute. */
  function WrapperInstance(s: Scalar): (d: PrimitiveOrWrapper)
    ensures d.Typed() && !d.primitive
  {
    PrimitiveOrWrapper(s, false, JNull)
  }

  function Singleton(s: Scalar, primitive: bool): PrimitiveOrWrapper
  {
    if primitive then PrimitiveInstance(s) else WrapperInstance(s)
  }

  /** `getNullAccessPattern`: dynamic for a primitive, else fixed by whether the null substitute is `null`. */
  function GetNullAccessPattern(d: PrimitiveOrWrapper): (r: AccessPattern)
    ensures r == Dynamic <==> d.primitive
    ensures r == AlwaysNull <==> !d.primitive && d.nullValue == JNull
    ensures r == Constant <==> !d.primitive && d.nullValue != JNull
  {
    if d.primitive then Dynamic
    else if d.nullValue == JNull then AlwaysNull
    else Constant
  }

  /** `getNullValue`: refuses a null for a primitive when FAIL_ON_NULL_FOR_PRIMITIVES is on, else the null substitute. */
  function GetNullValue(d: PrimitiveOrWrapper, cfg: Config): (r: Outcome)
    ensures r.InputMismatch? <==> d.primitive && cfg.failOnNullForPrimitives
    ensures r.InputMismatch? ==> r.cause == NullIntoPrimitive
    ensures !r.InputMismatch? ==> r == Decoded(d.nullValue)
  {
    if d.primitive && cfg.failOnNullForPrimitives then InputMismatch(NullIntoPrimitive)
    else Decoded(d.nullValue)
  }

  /** `getEmptyValue`: the type's zero, for primitive and wrapper alike. */
  function GetEmptyValue(d: PrimitiveOrWrapper): (r: Outcome)
    ensures r.Decoded? && r.result.Boxed? && OfScalar(r.result.v, d.scalar)
    ensures IsZero(r.result.v)
  {
    Returns(Zero(d.scalar))
  }

  /** The singletons' null handling: every primitive one is dynamic, every wrapper one always null. */
  lemma SingletonAccessPatterns(s: Scalar)
    ensures GetNullAccessPattern(PrimitiveInstance(s)) == Dynamic
    ensures GetNullAccessPattern(WrapperInstance(s)) == AlwaysNull
  {
  }

  // =====================================================================
  // The registry
  // =====================================================================

  /** The classes listed by the static initializer, in its order. */
  const NumberTypes: seq<JClass> := [
    WrapperClass(BooleanType), WrapperClass(ByteType), WrapperClass(ShortType),
    WrapperClass(CharacterType), WrapperClass(IntegerType), WrapperClass(LongType),
    WrapperClass(FloatType), WrapperClass(DoubleType),
    NumberClass, BigDecimalClass, BigIntegerClass
  ]

  /** `_classNames`: the names of the listed classes, as the initializer leaves them. */
  const ClassNames: set<string> := {
    "java.lang.Boolean", "java.lang.Byte", "java.lang.Short", "java.lang.Character",
    "java.lang.Integer", "java.lang.Long", "java.lang.Float", "java.lang.Double",
    "java.lang.Number", "java.math.BigDecimal", "java.math.BigInteger"
  }

  /** The static initializer's loop: adds the name of each class in turn. */
  method CollectClassNames(types: seq<JClass>) returns (names: set<string>)
    ensures names == set c | c in types :: Name(c)
  {
    names := {};
    for i := 0 to |types|
      invariant names == set c | c in types[..i] :: Name(c)
    {
      assert types[..i + 1] == types[..i] + [types[i]];
      names := names + {Name(types[i])};
    }
    assert types[..|types|] == types;
  }

  /** The initializer's loop, run over the listed classes, yields exactly `_classNames`. */
  lemma ClassNamesAreListedNames()
    ensures ClassNames == set c | c in NumberTypes :: Name(c)
  {
    var listed := set c | c in NumberTypes :: Name(c);
    forall i | 0 <= i < |NumberTypes|
      ensures Name(NumberTypes[i]) in ClassNames && Name(NumberTypes[i]) in listed
    {
    }
    assert ClassNames == {
      Name(NumberTypes[0]), Name(NumberTypes[1]), Name(NumberTypes[2]), Name(NumberTypes[3]),
      Name(NumberTypes[4]), Name(NumberTypes[5]), Name(NumberTypes[6]), Name(NumberTypes[7]),
      Name(NumberTypes[8]), Name(NumberTypes[9]), Name(NumberTypes[10])
    };
  }

  /** What `find` can hand back. */
  datatype Deserializer =
    | Std(d: PrimitiveOrWrapper)
    | NumberInstance
    | BigDecimalInstance
    | BigIntegerInstance
    | NullifyingInstance   // the `void` decoder, a class outside this model

  datatype FindResult = Found(deserializer: Deserializer) | NotFound | InternalError

  /**
    `find(rawType, clsName)`: a primitive class is matched against the
    primitive singletons; any other class whose name is listed is matched
    against the wrapper singletons and the three generic decoders; every
    other class has no decoder here. A class that passes the first test but
    matches no case is the "Internal error".
  */
  function Find(rawType: JClass, clsName: string): (r: FindResult)
    ensures r == NotFound <==> !IsPrimitive(rawType) && clsName !in ClassNames
    ensures r.Found? && r.deserializer.Std? ==>
              var d := r.deserializer.d;
              d == Singleton(d.scalar, IsPrimitive(rawType)) && rawType == HandledClass(d.scalar, IsPrimitive(rawType))
    ensures r == Found(NullifyingInstance) <==> rawType == VoidClass
  {
    if IsPrimitive(rawType) then
      if rawType == PrimitiveClass(IntegerType) then Found(Std(PrimitiveInstance(IntegerType)))
      else if rawType == PrimitiveClass(BooleanType) then Found(Std(PrimitiveInstance(BooleanType)))
      else if rawType == PrimitiveClass(LongType) then Found(Std(PrimitiveInstance(LongType)))
      else if rawType == PrimitiveClass(DoubleType) then Found(Std(PrimitiveInstance(DoubleType)))
      else if rawType == PrimitiveClass(CharacterType) then Found(Std(PrimitiveInstance(CharacterType)))
      else if rawType == PrimitiveClass(ByteType) then Found(Std(PrimitiveInstance(ByteType)))
      else if rawType == PrimitiveClass(ShortType) then Found(Std(PrimitiveInstance(ShortType)))
      else if rawType == PrimitiveClass(FloatType) then Found(Std(PrimitiveInstance(FloatType)))
      else if rawType == VoidClass then Found(NullifyingInstance)
      else InternalError
    else if clsName in ClassNames then
      if rawType == WrapperClass(IntegerType) then Found(Std(WrapperInstance(IntegerType)))
      else if rawType == WrapperClass(BooleanType) then Found(Std(WrapperInstance(BooleanType)))
      else if rawType == WrapperClass(LongType) then Found(Std(WrapperInstance(LongType)))
      else if rawType == WrapperClass(DoubleType) then Found(Std(WrapperInstance(DoubleType)))
      else if rawType == WrapperClass(CharacterType) then Found(Std(WrapperInstance(CharacterType)))
      else if rawType == WrapperClass(ByteType) then Found(Std(WrapperInstance(ByteType)))
      else if rawType == WrapperClass(ShortType) then Found(Std(WrapperInstance(ShortType)))
      else if rawType == WrapperClass(FloatType) then Found(Std(WrapperInstance(FloatType)))
      else if rawType == NumberClass then Found(NumberInstance)
      else if rawType == BigDecimalClass then Found(BigDecimalInstance)
      else if rawType == BigIntegerClass then Found(BigIntegerInstance)
      else InternalError
    else NotFound
  }

  /** The internal error is reached only by a class outside the ones `find` knows. */
  lemma FindInternalErrorOnlyForOtherClasses(rawType: JClass, clsName: string)
    ensures Find(rawType, clsName) == InternalError ==> rawType.OtherClass?
  {
    if rawType.PrimitiveClass? {
      match rawType.primitiveOf
      case BooleanType =>
      case ByteType =>
      case ShortType =>
      case CharacterType =>
      case IntegerType =>
      case LongType =>
      case FloatType =>
      case DoubleType =>
    } else if rawType.WrapperClass? {
      match rawType.wrapperOf
      case BooleanType =>
      case ByteType =>
      case ShortType =>
      case CharacterType =>
      case IntegerType =>
      case LongType =>
      case FloatType =>
      case DoubleType =>
    }
  }

  /** A primitive class gets its primitive singleton, whatever name is passed with it. */
  lemma FindPrimitive(s: Scalar, clsName: string)
    ensures Find(PrimitiveClass(s), clsName) == Found(Std(PrimitiveInstance(s)))
  {
  }

  /** A wrapper class looked up by its name gets its wrapper singleton, which differs from the primitive one. */
  lemma FindWrapper(s: Scalar)
    ensures Find(WrapperClass(s), WrapperName(s)) == Found(Std(WrapperInstance(s)))
    ensures WrapperInstance(s) != PrimitiveInstance(s)
  {
  }

  /** The three generic decoders are found for their own classes. */
  lemma FindGenericDecoders()
    ensures Find(NumberClass, Name(NumberClass)) == Found(NumberInstance)
    ensures Find(BigDecimalClass, Name(BigDecimalClass)) == Found(BigDecimalInstance)
    ensures Find(BigIntegerClass, Name(BigIntegerClass)) == Found(BigIntegerInstance)
  {
    assert NumberClass in NumberTypes;
    assert BigDecimalClass in NumberTypes;
    assert BigIntegerClass in NumberTypes;
  }

  /** Every class the registry lists is found when looked up by its own name. */
  lemma FindListedClasses(c: JClass)
    requires c in NumberTypes
    ensures Find(c, Name(c)).Found?
  {
    if c.WrapperClass? {
      FindWrapper(c.wrapperOf);
    } else {
      FindGenericDecoders();
    }
  }

  /**
    The internal error is reached by a non-primitive class that carries a
    listed name but is not the listed class itself.
  */
  lemma FindSameNamedOtherClass(name: string)
    requires name in ClassNames
    ensures Find(OtherClass(name, false), name) == InternalError
  {
  }

  // =====================================================================
  // Shared steps of the decoders
  // =====================================================================

  /**
    What follows a coercion helper's answer: `AsNull` gives the null value,
    `AsEmpty` the empty value, `Fail` was already reported by the helper, and
    `TryConvert` goes on with the rest of the decoding.
  */
  function AfterCoercion(act: CoercionAction, nullValue: Outcome, emptyValue: Outcome, rest: Outcome): (r: Outcome)
    ensures act == AsNull ==> r == nullValue
    ensures act == AsEmpty ==> r == emptyValue
    ensures act == TryConvert ==> r == rest
    ensures act == Fail ==> r == InputMismatch(CoercionFailed)
  {
    match act
    case Fail => InputMismatch(CoercionFailed)
    case AsNull => nullValue
    case AsEmpty => emptyValue
    case TryConvert => rest
  }

  // =====================================================================
  // Boolean
  // =====================================================================

  /** `BooleanDeserializer.deserialize`: the two boolean tokens directly, anything else through `_parseBoolean[Primitive]`. */
  function BooleanDeserialize(d: BooleanDeserializer, t: Token): (r: Outcome)
    ensures Produces(r, BooleanType)
    ensures r.Decoded? <==> t == ValueTrue || t == ValueFalse
    ensures r.Decoded? ==> r == Returns(BoolValue(t == ValueTrue))
    ensures !r.Decoded? ==> r == Delegated(if d.primitive then ParseBooleanPrimitive else ParseBoolean)
  {
    if t == ValueTrue then Returns(BoolValue(true))
    else if t == ValueFalse then Returns(BoolValue(false))
    else if d.primitive then Delegated(ParseBooleanPrimitive)
    else Delegated(ParseBoolean)
  }

  /** `BooleanDeserializer.deserializeWithType`: written out separately in the source, with the same steps. */
  function BooleanDeserializeWithType(d: BooleanDeserializer, t: Token): (r: Outcome)
    ensures Produces(r, BooleanType)
  {
    if t == ValueTrue then Returns(BoolValue(true))
    else if t == ValueFalse then Returns(BoolValue(false))
    else if d.primitive then Delegated(ParseBooleanPrimitive)
    else Delegated(ParseBoolean)
  }

  /** A boolean never carries a type id, so the typed entry point decodes exactly as the plain one. */
  lemma BooleanWithTypeAgrees(d: BooleanDeserializer, t: Token)
    ensures BooleanDeserializeWithType(d, t) == BooleanDeserialize(d, t)
  {
  }

  // =====================================================================
  // Byte
  // =====================================================================

  /** `_byteOverflow`: outside -128..255, the range that still maps to a distinct byte. */
  predicate ByteOverflow(v: int) { v < MinByte || v > 255 }

  /** `ByteDeserializer.deserialize`: an int token through `getByteValue`, anything else through the slow path. */
  function ByteDeserialize(d: ByteDeserializer, t: Token, cfg: Config, coe: Coercions): (r: Outcome)
    ensures Produces(r, ByteType)
  {
    if t.NumberInt? then ReadIntegral(Bits8, t.value)
    else if d.primitive then Delegated(ParseBytePrimitive)
    else ParseByte(d, t, cfg, coe)
  }

  /** `_parseByte`. */
  function ParseByte(d: ByteDeserializer, t: Token, cfg: Config, coe: Coercions): (r: Outcome)
    ensures Produces(r, ByteType)
  {
    match t
    case ValueString(raw) =>
      AfterCoercion(coe.fromString, GetNullValue(d, cfg), GetEmptyValue(d), ByteFromText(Trim(raw)))
    case NumberFloat(x) =>
      AfterCoercion(coe.floatToInt, GetNullValue(d, cfg), GetEmptyValue(d), ReadIntegralFloat(Bits8, x))
    case ValueNull => GetNullValue(d, cfg)
    case NumberInt(v) => ReadIntegral(Bits8, v)
    case StartArray => Delegated(FromArray)
    case _ => UnexpectedToken
  }

  /** The string path of `_parseByte` once the text is trimmed. */
  function ByteFromText(text: string): (r: Outcome)
    ensures Produces(r, ByteType)
    ensures HasTextualNull(text) ==> r == Delegated(CoerceTextualNull(false))
  {
    if HasTextualNull(text) then Delegated(CoerceTextualNull(false))
    else match JavaParseInt(text)
      case None => WeirdStringValue(text, NotValid("not a valid Byte value"))
      case Some(value) =>
        if ByteOverflow(value) then WeirdStringValue(text, Overflow(8))
        else Returns(ByteValue(ToByte(value)))
  }

  /**
    The Byte string path in terms of the literal's value `v`: a byte exactly
    when `v` is in -128..255 (128..255 wrapping to their two's-complement
    byte), an overflow exactly when `v` is another `int`, and "not a valid
    Byte value" for anything else, a literal wider than an `int` included.
  */
  lemma ByteFromTextMeaning(text: string)
    requires !HasTextualNull(text)
    ensures var r := ByteFromText(text); var p := LiteralValue(text);
      && (r.Decoded? <==> p.Some? && MinByte <= p.value <= 255)
      && (r.Decoded? ==> r == Returns(ByteValue(if p.value <= MaxByte then p.value else p.value - 256)))
      && (r == WeirdStringValue(text, Overflow(8)) <==> p.Some? && InIntRange(p.value) && ByteOverflow(p.value))
      && (r == WeirdStringValue(text, NotValid("not a valid Byte value")) <==> p.None? || !InIntRange(p.value))
  {
  }

  // =====================================================================
  // Short
  // =====================================================================

  /** `_shortOverflow`: outside the signed 16-bit range. */
  predicate ShortOverflow(v: int) { !InShortRange(v) }

  /** `ShortDeserializer.deserialize`. */
  function ShortDeserialize(d: ShortDeserializer, t: Token, cfg: Config, coe: Coercions): (r: Outcome)
    ensures Produces(r, ShortType)
  {
    if t.NumberInt? then ReadIntegral(Bits16, t.value)
    else if d.primitive then Delegated(ParseShortPrimitive)
    else ParseShort(d, t, cfg, coe)
  }

  /** `_parseShort`. */
  function ParseShort(d: ShortDeserializer, t: Token, cfg: Config, coe: Coercions): (r: Outcome)
    ensures Produces(r, ShortType)
  {
    match t
    case ValueString(raw) =>
      AfterCoercion(coe.fromString, GetNullValue(d, cfg), GetEmptyValue(d), ShortFromText(Trim(raw)))
    case NumberFloat(x) =>
      AfterCoercion(coe.floatToInt, GetNullValue(d, cfg), GetEmptyValue(d), ReadIntegralFloat(Bits16, x))
    case ValueNull => GetNullValue(d, cfg)
    case NumberInt(v) => ReadIntegral(Bits16, v)
    case StartArray => Delegated(FromArray)
    case _ => UnexpectedToken
  }

  /** The string path of `_parseShort` once the text is trimmed. */
  function ShortFromText(text: string): (r: Outcome)
    ensures Produces(r, ShortType)
    ensures HasTextualNull(text) ==> r == Delegated(CoerceTextualNull(false))
  {
    if HasTextualNull(text) then Delegated(CoerceTextualNull(false))
    else match JavaParseInt(text)
      case None => WeirdStringValue(text, NotValid("not a valid Short value"))
      case Some(value) =>
        if ShortOverflow(value) then WeirdStringValue(text, Overflow(16))
        else Returns(ShortValue(value))
  }

  /** The Short string path in terms of the literal's value: the value itself exactly when it fits 16 bits. */
  lemma ShortFromTextMeaning(text: string)
    requires !HasTextualNull(text)
    ensures var r := ShortFromText(text); var p := LiteralValue(text);
      && (r.Decoded? <==> p.Some? && InShortRange(p.value))
      && (r.Decoded? ==> r == Returns(ShortValue(p.value)))
      && (r == WeirdStringValue(text, Overflow(16)) <==> p.Some? && InIntRange(p.value) && !InShortRange(p.value))
      && (r == WeirdStringValue(text, NotValid("not a valid Short value")) <==> p.None? || !InIntRange(p.value))
  {
  }

  // =====================================================================
  // Character
  // =====================================================================

  /**
    `CharacterDeserializer.deserialize`, shared by the primitive and the
    wrapper: an int token is a code unit only with ALLOW_COERCION_OF_SCALARS
    and within 0..0xFFFF; a string must trim to exactly one code unit.
  */
  function CharacterDeserialize(d: CharacterDeserializer, t: Token, cfg: Config, coe: Coercions): (r: Outcome)
    ensures r.Decoded? && r.result.Boxed? ==> r.result.v.CharValue? && r.result.v.unit >= 0
  {
    match t
    case NumberInt(v) =>
      if !cfg.allowCoercionOfScalars then InputMismatch(IntegerToCharacter)
      else if !Accepts(Bits32, v) then NumberOutOfRange(Bits32)   // `getIntValue`
      else if 0 <= v <= MaxChar then Returns(CharValue(v))
      else UnexpectedToken
    case ValueString(raw) =>
      AfterCoercion(coe.fromString, GetNullValue(d, cfg), GetEmptyValue(d), CharacterFromText(d, Trim(raw)))
    case ValueNull =>
      // `_verifyNullForPrimitive` makes the same test as `getNullValue`
      if d.primitive && cfg.failOnNullForPrimitives then InputMismatch(NullIntoPrimitive)
      else GetNullValue(d, cfg)
    case StartArray => Delegated(FromArray)
    case _ => UnexpectedToken
  }

  /** A Character decoder yields a `char` (a code unit in 0..0xFFFF) whenever the text it reads is a Java string. */
  lemma CharacterProducesChar(d: CharacterDeserializer, t: Token, cfg: Config, coe: Coercions)
    requires t.ValueString? ==> IsJavaString(t.text)
    ensures Produces(CharacterDeserialize(d, t, cfg, coe), CharacterType)
  {
    if t.ValueString? {
      TrimKeepsJavaString(t.text);
    }
  }

  /** The string path of the Character decoder once the text is trimmed. */
  function CharacterFromText(d: CharacterDeserializer, text: string): Outcome
  {
    if HasTextualNull(text) then Delegated(CoerceTextualNull(d.primitive))
    else if |text| == 1 then Returns(CharValue(text[0] as int))
    else UnexpectedToken
  }

  /** An int token is a code unit exactly when scalar coercion is allowed and it lies in 0..0xFFFF. */
  lemma CharacterFromInt(d: CharacterDeserializer, v: int, cfg: Config, coe: Coercions)
    ensures var r := CharacterDeserialize(d, NumberInt(v), cfg, coe);
      && (r == Returns(CharValue(v)) <==> cfg.allowCoercionOfScalars && 0 <= v <= MaxChar)
      && (r.Decoded? ==> r == Returns(CharValue(v)))
      && (!cfg.allowCoercionOfScalars ==> r == InputMismatch(IntegerToCharacter))
      && (cfg.allowCoercionOfScalars && !InIntRange(v) ==> r == NumberOutOfRange(Bits32))
      && (cfg.allowCoercionOfScalars && InIntRange(v) && !(0 <= v <= MaxChar) ==> r == UnexpectedToken)
  {
  }

  /** Once the coercion helper lets a string through, it is a code unit exactly when it trims to one character. */
  lemma CharacterFromString(d: CharacterDeserializer, raw: string, cfg: Config, coe: Coercions)
    requires coe.fromString == TryConvert
    ensures var r := CharacterDeserialize(d, ValueString(raw), cfg, coe);
      && (r.Decoded? <==> |Trim(raw)| == 1)
      && (r.Decoded? ==> r == Returns(CharValue(Trim(raw)[0] as int)))
      && (HasTextualNull(Trim(raw)) ==> r == Delegated(CoerceTextualNull(d.primitive)))
      && (|Trim(raw)| != 1 && !HasTextualNull(Trim(raw)) ==> r == UnexpectedToken)
  {
    CharacterStringPath(d, raw, cfg, coe);
    CharacterTextIsOneUnit(d, Trim(raw));
  }

  /** With the text let through, a string token is decoded by its trimmed text alone. */
  lemma CharacterStringPath(d: CharacterDeserializer, raw: string, cfg: Config, coe: Coercions)
    requires coe.fromString == TryConvert
    ensures CharacterDeserialize(d, ValueString(raw), cfg, coe) == CharacterFromText(d, Trim(raw))
  {
  }

  /** The trimmed text is a code unit exactly when it is one character long. */
  lemma CharacterTextIsOneUnit(d: CharacterDeserializer, text: string)
    ensures CharacterFromText(d, text).Decoded? <==> |text| == 1
    ensures |text| == 1 ==> CharacterFromText(d, text) == Returns(CharValue(text[0] as int))
    ensures HasTextualNull(text) ==> CharacterFromText(d, text) == Delegated(CoerceTextualNull(d.primitive))
    ensures |text| != 1 && !HasTextualNull(text) ==> CharacterFromText(d, text) == UnexpectedToken
  {
    assert HasTextualNull(text) ==> |text| == 4;
  }

  /** Booleans, floating-point numbers and structural tokens are never a character. */
  lemma CharacterRefusesOtherTokens(d: CharacterDeserializer, t: Token, cfg: Config, coe: Coercions)
    requires t.ValueTrue? || t.ValueFalse? || t.NumberFloat? || t.OtherToken?
    ensures CharacterDeserialize(d, t, cfg, coe) == UnexpectedToken
  {
  }

  // =====================================================================
  // Integer
  // =====================================================================

  /** `_intOverflow`: outside the signed 32-bit range. */
  predicate IntOverflow(v: int) { !InIntRange(v) }

  /** The overflow tests of the string paths refuse exactly what the byte, short and int accessors refuse. */
  lemma OverflowMatchesAccessors(v: int)
    ensures ByteOverflow(v) <==> !Accepts(Bits8, v)
    ensures ShortOverflow(v) <==> !Accepts(Bits16, v)
    ensures IntOverflow(v) <==> !Accepts(Bits32, v)
  {
  }

  /** `IntegerDeserializer.deserialize`. */
  function IntegerDeserialize(d: IntegerDeserializer, t: Token, cfg: Config, coe: Coercions): (r: Outcome)
    ensures Produces(r, IntegerType)
  {
    if t.NumberInt? then ReadIntegral(Bits32, t.value)
    else if d.primitive then Delegated(ParseIntPrimitive)
    else ParseInteger(d, t, cfg, coe)
  }

  /** `IntegerDeserializer.deserializeWithType`: written out separately in the source, with the same steps. */
  function IntegerDeserializeWithType(d: IntegerDeserializer, t: Token, cfg: Config, coe: Coercions): (r: Outcome)
    ensures Produces(r, IntegerType)
  {
    if t.NumberInt? then ReadIntegral(Bits32, t.value)
    else if d.primitive then Delegated(ParseIntPrimitive)
    else ParseInteger(d, t, cfg, coe)
  }

  /** An int never carries a type id, so the typed entry point decodes exactly as the plain one. */
  lemma IntegerWithTypeAgrees(d: IntegerDeserializer, t: Token, cfg: Config, coe: Coercions)
    ensures IntegerDeserializeWithType(d, t, cfg, coe) == IntegerDeserialize(d, t, cfg, coe)
  {
  }

  /** `_parseInteger`. */
  function ParseInteger(d: IntegerDeserializer, t: Token, cfg: Config, coe: Coercions): (r: Outcome)
    ensures Produces(r, IntegerType)
  {
    match t
    case ValueString(raw) =>
      AfterCoercion(coe.fromString, GetNullValue(d, cfg), GetEmptyValue(d), IntegerFromText(Trim(raw)))
    case NumberFloat(x) =>  // `getValueAsInt`
      AfterCoercion(coe.floatToInt, GetNullValue(d, cfg), GetEmptyValue(d), ReadIntegralFloat(Bits32, x))
    case NumberInt(v) => ReadIntegral(Bits32, v)
    case ValueNull => GetNullValue(d, cfg)
    case StartArray => Delegated(FromArray)
    case _ => UnexpectedToken
  }

  /** The string path of `_parseInteger` once the text is trimmed: over nine characters it goes through `long`. */
  function IntegerFromText(text: string): (r: Outcome)
    ensures Produces(r, IntegerType)
    ensures HasTextualNull(text) ==> r == Delegated(CoerceTextualNull(false))
  {
    if HasTextualNull(text) then Delegated(CoerceTextualNull(false))
    else if |text| > 9 then
      match JavaParseLong(text)
      case None => WeirdStringValue(text, NotValid("not a valid Integer value"))
      case Some(l) =>
        if IntOverflow(l) then WeirdStringValue(text, Overflow(32))
        else Returns(IntValue(l))
    else
      match JavaParseInt(text)
      case None => WeirdStringValue(text, NotValid("not a valid Integer value"))
      case Some(v) => Returns(IntValue(v))
  }

  /**
    The Integer string path in terms of the literal's value `v`: the value
    exactly when it fits 32 bits, the overflow error exactly when it fits a
    `long` but not an `int`, and "not a valid Integer value" otherwise. The
    two branches of the code (nine characters or fewer, or more) agree on this
    because a literal of at most nine characters always fits an `int`.
  */
  lemma IntegerFromTextMeaning(text: string)
    requires !HasTextualNull(text)
    ensures var r := IntegerFromText(text); var p := LiteralValue(text);
      && (r.Decoded? <==> p.Some? && InIntRange(p.value))
      && (r.Decoded? ==> r == Returns(IntValue(p.value)))
      && (r == WeirdStringValue(text, Overflow(32)) <==> p.Some? && InLongRange(p.value) && !InIntRange(p.value))
      && (r == WeirdStringValue(text, NotValid("not a valid Integer value")) <==> p.None? || !InLongRange(p.value))
  {
    if |text| <= 9 && LiteralValue(text).Some? {
      ShortLiteralFitsInt(text);
    }
  }

  // =====================================================================
  // Long
  // =====================================================================

  /** `LongDeserializer.deserialize`. */
  function LongDeserialize(d: LongDeserializer, t: Token, cfg: Config, coe: Coercions): (r: Outcome)
    ensures Produces(r, LongType)
  {
    if t.NumberInt? then ReadIntegral(Bits64, t.value)
    else if d.primitive then Delegated(ParseLongPrimitive)
    else ParseLong(d, t, cfg, coe)
  }

  /** `_parseLong`. */
  function ParseLong(d: LongDeserializer, t: Token, cfg: Config, coe: Coercions): (r: Outcome)
    ensures Produces(r, LongType)
  {
    match t
    case ValueString(raw) =>
      AfterCoercion(coe.fromString, GetNullValue(d, cfg), GetEmptyValue(d), LongFromText(Trim(raw)))
    case NumberFloat(x) =>  // `getValueAsLong`
      AfterCoercion(coe.floatToInt, GetNullValue(d, cfg), GetEmptyValue(d), ReadIntegralFloat(Bits64, x))
    case ValueNull => GetNullValue(d, cfg)
    case NumberInt(v) => ReadIntegral(Bits64, v)
    case StartArray => Delegated(FromArray)
    case _ => UnexpectedToken
  }

  /** The string path of `_parseLong` once the text is trimmed. */
  function LongFromText(text: string): (r: Outcome)
    ensures Produces(r, LongType)
    ensures HasTextualNull(text) ==> r == Delegated(CoerceTextualNull(false))
  {
    if HasTextualNull(text) then Delegated(CoerceTextualNull(false))
    else match JavaParseLong(text)
      case Some(v) => Returns(LongValue(v))
      case None => WeirdStringValue(text, NotValid("not a valid Long value"))
  }

  /** The Long string path in terms of the literal's value: the value exactly when it fits 64 bits. */
  lemma LongFromTextMeaning(text: string)
    requires !HasTextualNull(text)
    ensures var r := LongFromText(text); var p := LiteralValue(text);
      && (r.Decoded? <==> p.Some? && InLongRange(p.value))
      && (r.Decoded? ==> r == Returns(LongValue(p.value)))
      && (!r.Decoded? ==> r == WeirdStringValue(text, NotValid("not a valid Long value")))
  {
  }

  // =====================================================================
  // Number
  // =====================================================================

  /**
    `NumberDeserializer.deserialize`: picks the narrowest natural type. There is
    no case for a null token here; its null and empty values are both `null`.
  */
  function NumberDeserialize(t: Token, cfg: Config, coe: Coercions, parseDouble: DoubleParser): (r: Outcome)
    ensures r.Decoded? && r.result.Boxed? ==> WellFormed(r.result.v)
  {
    match t
    case NumberInt(v) =>
      if cfg.useBigIntegerForInts || cfg.useLongForInts then Delegated(CoerceIntegral)   // F_MASK_INT_COERCIONS
      else Returns(NaturalIntegerValue(v))
    case NumberFloat(x) =>
      if cfg.useBigDecimalForFloats then Returns(BigDecimalValue(x))
      else Returns(DoubleValue(Nearest(x)))
    case ValueString(raw) =>
      AfterCoercion(coe.fromString, Decoded(JNull), Decoded(JNull), NumberFromText(Trim(raw), cfg, parseDouble))
    case StartArray => Delegated(FromArray)
    case _ => UnexpectedToken
  }

  /** The string path of the Number decoder once the text is trimmed. */
  function NumberFromText(text: string, cfg: Config, parseDouble: DoubleParser): (r: Outcome)
    ensures r.Decoded? && r.result.Boxed? ==> WellFormed(r.result.v)
  {
    if HasTextualNull(text) then Decoded(JNull)
    else if IsPosInf(text) then Returns(DoubleValue(PositiveInfinity))
    else if IsNegInf(text) then Returns(DoubleValue(NegativeInfinity))
    else if IsNaN(text) then Returns(DoubleValue(NotANumber))
    else if !IsIntNumber(text) then
      if cfg.useBigDecimalForFloats then
        match ParseBigDecimal(text)
        case Some(x) => Returns(BigDecimalValue(x))
        case None => WeirdStringValue(text, NotValid("not a valid number"))
      else
        match parseDouble(text)
        case Some(f) => Returns(DoubleValue(f))
        case None => WeirdStringValue(text, NotValid("not a valid number"))
    else if cfg.useBigIntegerForInts then
      match ParseBigInteger(text)
      case Some(n) => Returns(BigIntegerValue(n))
      case None => WeirdStringValue(text, NotValid("not a valid number"))
    else
      match JavaParseLong(text)
      case None => WeirdStringValue(text, NotValid("not a valid number"))
      case Some(value) =>
        if !cfg.useLongForInts && InIntRange(value) then Returns(IntValue(value))
        else Returns(LongValue(value))
  }

  /**
    An integer literal given as a string: with USE_BIG_INTEGER_FOR_INTS always
    a BigInteger; otherwise an Integer when it fits 32 bits and USE_LONG_FOR_INTS
    is off, a Long when it fits 64 bits, and "not a valid number" beyond that.
  */
  lemma NumberIntegerText(text: string, cfg: Config, parseDouble: DoubleParser)
    requires IsIntegerLiteral(text)
    ensures var r := NumberFromText(text, cfg, parseDouble); var v := LiteralValue(text).value;
      && (cfg.useBigIntegerForInts ==> r == Returns(BigIntegerValue(v)))
      && (!cfg.useBigIntegerForInts && !cfg.useLongForInts && InIntRange(v) ==> r == Returns(IntValue(v)))
      && (!cfg.useBigIntegerForInts && InLongRange(v) && (cfg.useLongForInts || !InIntRange(v)) ==> r == Returns(LongValue(v)))
      && (!cfg.useBigIntegerForInts && !InLongRange(v) ==> r == WeirdStringValue(text, NotValid("not a valid number")))
  {
    TextShapesDisjoint(text);
  }

  /** `NumberDeserializer.deserializeWithType`: numbers and strings cannot carry a type id and decode plainly. */
  function NumberDeserializeWithType(t: Token, cfg: Config, coe: Coercions, parseDouble: DoubleParser): (r: Outcome)
    ensures t.NumberInt? || t.NumberFloat? || t.ValueString? ==> r == NumberDeserialize(t, cfg, coe, parseDouble)
    ensures !(t.NumberInt? || t.NumberFloat? || t.ValueString?) ==> r == Delegated(TypedFromScalar)
  {
    match t
    case NumberInt(_) => NumberDeserialize(t, cfg, coe, parseDouble)
    case NumberFloat(_) => NumberDeserialize(t, cfg, coe, parseDouble)
    case ValueString(_) => NumberDeserialize(t, cfg, coe, parseDouble)
    case _ => Delegated(TypedFromScalar)
  }

  // =====================================================================
  // BigInteger and BigDecimal
  // =====================================================================

  /** `BigIntegerDeserializer.deserialize`; its null value is `null` and its empty value zero. */
  function BigIntegerDeserialize(t: Token, coe: Coercions): (r: Outcome)
    ensures r.Decoded? && r.result.Boxed? ==> r.result.v.BigIntegerValue?
  {
    match t
    case NumberInt(v) => Returns(BigIntegerValue(v))
    case NumberFloat(x) =>
      AfterCoercion(coe.floatToInt, Decoded(JNull), Returns(BigIntegerValue(0)), Returns(BigIntegerValue(TruncateDecimal(x))))
    case StartArray => Delegated(FromArray)
    case ValueString(raw) =>
      AfterCoercion(coe.fromString, Decoded(JNull), Returns(BigIntegerValue(0)), BigIntegerFromText(Trim(raw)))
    case _ => UnexpectedToken
  }

  function BigIntegerFromText(text: string): Outcome
  {
    if HasTextualNull(text) then Decoded(JNull)
    else match ParseBigInteger(text)
      case Some(n) => Returns(BigIntegerValue(n))
      case None => WeirdStringValue(text, NotValid("not a valid representation"))
  }

  /** `BigDecimalDeserializer.deserialize`; its null value is `null` and its empty value zero. */
  function BigDecimalDeserialize(t: Token, coe: Coercions): (r: Outcome)
    ensures r.Decoded? && r.result.Boxed? ==> r.result.v.BigDecimalValue?
  {
    match t
    case NumberInt(v) => Returns(BigDecimalValue(Decimal(v, 0)))
    case NumberFloat(x) => Returns(BigDecimalValue(x))
    case ValueString(raw) =>
      AfterCoercion(coe.fromString, Decoded(JNull), Returns(BigDecimalValue(DecimalZero)), BigDecimalFromText(Trim(raw)))
    case StartArray => Delegated(FromArray)
    case _ => UnexpectedToken
  }

  function BigDecimalFromText(text: string): Outcome
  {
    if HasTextualNull(text) then Decoded(JNull)
    else match ParseBigDecimal(text)
      case Some(x) => Returns(BigDecimalValue(x))
      case None => WeirdStringValue(text, NotValid("not a valid representation"))
  }

  /**
    The two big decoders agree on integer text: what the BigInteger decoder reads
    as `n`, the BigDecimal decoder reads as `n` with scale 0.
  */
  lemma BigDecodersAgreeOnIntegerText(text: string)
    requires IsIntegerLiteral(text)
    ensures BigIntegerFromText(text) == Returns(BigIntegerValue(LiteralValue(text).value))
    ensures BigDecimalFromText(text) == Returns(BigDecimalValue(Decimal(LiteralValue(text).value, 0)))
  {
    assert !HasTextualNull(text) by {
      assert text[0] == '-' || text[0] == '+' || IsDigit(text[0]);
    }
    IntegerLiteralAsDecimal(text);
  }

  /** An int token is read as the same number by both big decoders, with scale 0 for the BigDecimal. */
  lemma BigDecodersAgreeOnIntTokens(v: int, coe: Coercions)
    ensures BigIntegerDeserialize(NumberInt(v), coe) == Returns(BigIntegerValue(v))
    ensures BigDecimalDeserialize(NumberInt(v), coe) == Returns(BigDecimalValue(Decimal(v, 0)))
  {
  }

  // =====================================================================
  // Properties shared by the decoders
  // =====================================================================

  /**
    On a string token the coercion helper's answer is acted on before the text
    is trimmed or parsed: `AsNull` gives the null value and `AsEmpty` the empty
    value, whatever the text.
  */
  lemma StringCoercionComesFirst(raw: string, cfg: Config, coe: Coercions, parseDouble: DoubleParser,
                                 bd: ByteDeserializer, sd: ShortDeserializer, cd: CharacterDeserializer,
                                 id: IntegerDeserializer, ld: LongDeserializer)
    requires coe.fromString == AsNull || coe.fromString == AsEmpty
    ensures var t := ValueString(raw); var asNull := coe.fromString == AsNull;
      && ParseByte(bd, t, cfg, coe) == (if asNull then GetNullValue(bd, cfg) else GetEmptyValue(bd))
      && ParseShort(sd, t, cfg, coe) == (if asNull then GetNullValue(sd, cfg) else GetEmptyValue(sd))
      && CharacterDeserialize(cd, t, cfg, coe) == (if asNull then GetNullValue(cd, cfg) else GetEmptyValue(cd))
      && ParseInteger(id, t, cfg, coe) == (if asNull then GetNullValue(id, cfg) else GetEmptyValue(id))
      && ParseLong(ld, t, cfg, coe) == (if asNull then GetNullValue(ld, cfg) else GetEmptyValue(ld))
      && NumberDeserialize(t, cfg, coe, parseDouble) == Decoded(JNull)
      && BigIntegerDeserialize(t, coe) == (if asNull then Decoded(JNull) else Returns(BigIntegerValue(0)))
      && BigDecimalDeserialize(t, coe) == (if asNull then Decoded(JNull) else Returns(BigDecimalValue(DecimalZero)))
  {
  }

  /**
    The fast path of the integral decoders: an int token is read by the
    parser's accessor for the width, primitive or wrapper alike, and neither the
    configuration nor the coercion helpers are consulted.
  */
  lemma IntTokenFastPath(v: int, cfg: Config, coe: Coercions,
                         bd: ByteDeserializer, sd: ShortDeserializer, id: IntegerDeserializer, ld: LongDeserializer)
    ensures ByteDeserialize(bd, NumberInt(v), cfg, coe) == ReadIntegral(Bits8, v)
    ensures ShortDeserialize(sd, NumberInt(v), cfg, coe) == ReadIntegral(Bits16, v)
    ensures IntegerDeserialize(id, NumberInt(v), cfg, coe) == ReadIntegral(Bits32, v)
    ensures LongDeserialize(ld, NumberInt(v), cfg, coe) == ReadIntegral(Bits64, v)
  {
  }

  /**
    A floating-point token that the coercion helper lets through is read by
    the accessor for the width: the `int` range (the `long` range for Long) is
    checked on the exact value, and only then is the value truncated toward zero.
  */
  lemma FloatTokenPath(x: Decimal, cfg: Config, coe: Coercions,
                       bd: ByteDeserializer, sd: ShortDeserializer, id: IntegerDeserializer, ld: LongDeserializer)
    requires coe.floatToInt == TryConvert
    ensures ParseByte(bd, NumberFloat(x), cfg, coe) == ReadIntegralFloat(Bits8, x)
    ensures ParseShort(sd, NumberFloat(x), cfg, coe) == ReadIntegralFloat(Bits16, x)
    ensures ParseInteger(id, NumberFloat(x), cfg, coe) == ReadIntegralFloat(Bits32, x)
    ensures ParseLong(ld, NumberFloat(x), cfg, coe) == ReadIntegralFloat(Bits64, x)
  {
  }

  /**
    2147483647.5 overflows an Integer although its integral part fits, and an
    int token beyond 32 bits fails a Byte read at the `int` conversion, while
    300 fails it at the byte range.
  */
  lemma AccessorRangeExamples(cfg: Config, coe: Coercions, bd: ByteDeserializer, id: IntegerDeserializer)
    requires coe.floatToInt == TryConvert
    ensures TruncateDecimal(Decimal(21474836475, 1)) == MaxInt
    ensures ParseInteger(id, NumberFloat(Decimal(21474836475, 1)), cfg, coe) == NumberOutOfRange(Bits32)
    ensures ByteDeserialize(bd, NumberInt(5000000000), cfg, coe) == NumberOutOfRange(Bits32)
    ensures ByteDeserialize(bd, NumberInt(300), cfg, coe) == NumberOutOfRange(Bits8)
  {
    assert Pow10(1) == 10;
  }

  /** A null token for a wrapper decoder gives the null substitute, and for a primitive one follows FAIL_ON_NULL_FOR_PRIMITIVES. */
  lemma NullTokenGivesNullValue(cfg: Config, coe: Coercions,
                                bd: ByteDeserializer, sd: ShortDeserializer, cd: CharacterDeserializer,
                                id: IntegerDeserializer, ld: LongDeserializer)
    ensures ParseByte(bd, ValueNull, cfg, coe) == GetNullValue(bd, cfg)
    ensures ParseShort(sd, ValueNull, cfg, coe) == GetNullValue(sd, cfg)
    ensures CharacterDeserialize(cd, ValueNull, cfg, coe) == GetNullValue(cd, cfg)
    ensures ParseInteger(id, ValueNull, cfg, coe) == GetNullValue(id, cfg)
    ensures ParseLong(ld, ValueNull, cfg, coe) == GetNullValue(ld, cfg)
  {
  }

  /**
    The integral parses refuse booleans and structural tokens other than an
    array start, and hand an array start to the single-element unwrapping.
  */
  lemma ParsesRefuseOtherTokens(t: Token, cfg: Config, coe: Coercions,
                                bd: ByteDeserializer, sd: ShortDeserializer, id: IntegerDeserializer, ld: LongDeserializer)
    ensures t.ValueTrue? || t.ValueFalse? || t.OtherToken? ==>
      && ParseByte(bd, t, cfg, coe) == UnexpectedToken
      && ParseShort(sd, t, cfg, coe) == UnexpectedToken
      && ParseInteger(id, t, cfg, coe) == UnexpectedToken
      && ParseLong(ld, t, cfg, coe) == UnexpectedToken
    ensures t.StartArray? ==>
      && ParseByte(bd, t, cfg, coe) == Delegated(FromArray)
      && ParseShort(sd, t, cfg, coe) == Delegated(FromArray)
      && ParseInteger(id, t, cfg, coe) == Delegated(FromArray)
      && ParseLong(ld, t, cfg, coe) == Delegated(FromArray)
  {
  }

  /** `"42"` gives the Integer 42. */
  lemma IntegerTextExample(cfg: Config)
    ensures IntegerFromText("42") == Returns(IntValue(42))
    ensures IntegerDeserialize(WrapperInstance(IntegerType), ValueString("42"), cfg, Coercions(TryConvert, TryConvert))
              == Returns(IntValue(42))
  {
    TrimmedIsFixed("42");
    assert IntegerFromText("42") == Returns(IntValue(42)) by {
      DigitsValueAppend("4", '2');
      assert "4" + ['2'] == "42";
      assert LiteralValue("42") == Some(42);
    }
  }

  /**
    The string decoders look at nothing but the trimmed text: once the
    coercion helper lets both strings through, two strings that trim alike
    decode alike in the Byte, Short, Integer and Long decoders.
  */
  lemma IntegralDecodersSeeTrimmedText(a: string, b: string, cfg: Config, coe: Coercions,
                                       bd: ByteDeserializer, sd: ShortDeserializer,
                                       id: IntegerDeserializer, ld: LongDeserializer)
    requires Trim(a) == Trim(b) && coe.fromString == TryConvert
    ensures ParseByte(bd, ValueString(a), cfg, coe) == ParseByte(bd, ValueString(b), cfg, coe)
    ensures ParseShort(sd, ValueString(a), cfg, coe) == ParseShort(sd, ValueString(b), cfg, coe)
    ensures ParseInteger(id, ValueString(a), cfg, coe) == ParseInteger(id, ValueString(b), cfg, coe)
    ensures ParseLong(ld, ValueString(a), cfg, coe) == ParseLong(ld, ValueString(b), cfg, coe)
  {
  }

  /** The same for the Character, Number, BigInteger and BigDecimal decoders. */
  lemma OtherDecodersSeeTrimmedText(a: string, b: string, cfg: Config, coe: Coercions,
                                    parseDouble: DoubleParser, cd: CharacterDeserializer)
    requires Trim(a) == Trim(b) && coe.fromString == TryConvert
    ensures var t, u := ValueString(a), ValueString(b);
      && CharacterDeserialize(cd, t, cfg, coe) == CharacterDeserialize(cd, u, cfg, coe)
      && NumberDeserialize(t, cfg, coe, parseDouble) == NumberDeserialize(u, cfg, coe, parseDouble)
      && BigIntegerDeserialize(t, coe) == BigIntegerDeserialize(u, coe)
      && BigDecimalDeserialize(t, coe) == BigDecimalDeserialize(u, coe)
  {
  }

  /**
    Blanks around a string change nothing: once the coercion helper lets the
    text through, every string decoder decodes the padded text as it decodes
    the text itself.
  */
  lemma StringDecodersIgnorePadding(pre: string, text: string, post: string, cfg: Config, coe: Coercions,
                                    parseDouble: DoubleParser, bd: ByteDeserializer, sd: ShortDeserializer,
                                    cd: CharacterDeserializer, id: IntegerDeserializer, ld: LongDeserializer)
    requires AllTrimmable(pre) && AllTrimmable(post) && coe.fromString == TryConvert
    ensures var t, u := ValueString(pre + text + post), ValueString(text);
      && ParseByte(bd, t, cfg, coe) == ParseByte(bd, u, cfg, coe)
      && ParseShort(sd, t, cfg, coe) == ParseShort(sd, u, cfg, coe)
      && CharacterDeserialize(cd, t, cfg, coe) == CharacterDeserialize(cd, u, cfg, coe)
      && ParseInteger(id, t, cfg, coe) == ParseInteger(id, u, cfg, coe)
      && ParseLong(ld, t, cfg, coe) == ParseLong(ld, u, cfg, coe)
      && NumberDeserialize(t, cfg, coe, parseDouble) == NumberDeserialize(u, cfg, coe, parseDouble)
      && BigIntegerDeserialize(t, coe) == BigIntegerDeserialize(u, coe)
      && BigDecimalDeserialize(t, coe) == BigDecimalDeserialize(u, coe)
  {
    TrimIgnoresPadding(pre, text, post);
    IntegralDecodersSeeTrimmedText(pre + text + post, text, cfg, coe, bd, sd, id, ld);
    OtherDecodersSeeTrimmedText(pre + text + post, text, cfg, coe, parseDouble, cd);
  }

  /** A decimal fraction is no Integer, even one with an integral value. */
  lemma IntegerRejectsFraction()
    ensures IntegerFromText("1.0") == WeirdStringValue("1.0", NotValid("not a valid Integer value"))
  {
    assert !IsDigit("1.0"[1]);
  }

  /** `"256"` overflows a Byte, while `"255"` is the byte -1. */
  lemma ByteTextExamples()
    ensures ByteFromText("256") == WeirdStringValue("256", Overflow(8))
    ensures ByteFromText("255") == Returns(ByteValue(-1))
  {
    DigitsValueAppend("2", '5');
    assert "2" + ['5'] == "25";
    DigitsValueAppend("25", '6');
    assert "25" + ['6'] == "256";
    DigitsValueAppend("25", '5');
    assert "25" + ['5'] == "255";
    assert LiteralValue("256") == Some(256);
    assert LiteralValue("255") == Some(255);
  }
}
