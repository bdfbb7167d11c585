/**
  What a scalar decoder sees and what it can produce: the parser's current
  token, the configuration features the decoders consult, the coercion
  actions the (external) coercion helpers return, the Java values a decoder
  returns, and every way a decode call can end.
*/
module JsonInput {
  import opened JavaText

  /** The parser's current token, with what the decoders read from it. */
  datatype Token =
    | ValueTrue
    | ValueFalse
    | NumberInt(value: int)         // VALUE_NUMBER_INT: the literal's exact value
    | NumberFloat(literal: Decimal) // VALUE_NUMBER_FLOAT: the literal's exact decimal value
    | ValueString(text: string)     // VALUE_STRING: `getText()`
    | ValueNull
    | StartArray
    | OtherToken                    // START_OBJECT, FIELD_NAME, EMBEDDED_OBJECT, ...

  /** The features the decoders query on the context. */
  datatype Config = Config(
    failOnNullForPrimitives: bool,  // DeserializationFeature.FAIL_ON_NULL_FOR_PRIMITIVES
    allowCoercionOfScalars: bool,   // MapperFeature.ALLOW_COERCION_OF_SCALARS
    useBigIntegerForInts: bool,     // DeserializationFeature.USE_BIG_INTEGER_FOR_INTS
    useLongForInts: bool,           // DeserializationFeature.USE_LONG_FOR_INTS
    useBigDecimalForFloats: bool)   // DeserializationFeature.USE_BIG_DECIMAL_FOR_FLOATS

  /**
    `CoercionAction`. The coercion helpers report a `Fail` themselves (they
    throw before returning), so a decoder that is handed `Fail` ends in an
    input mismatch at that point.
  */
  datatype CoercionAction = Fail | TryConvert | AsNull | AsEmpty

  /**
    What the two coercion helpers return for this call:
    `_checkFromStringCoercion` for a string token and
    `_checkFloatToIntCoercion` for a floating-point token.
  */
  datatype Coercions = Coercions(fromString: CoercionAction, floatToInt: CoercionAction)

  /** A Java `double`/`float`: only which special value it is, or the decimal it was rounded from. */
  datatype DoubleNumber = PositiveInfinity | NegativeInfinity | NotANumber | Nearest(d: Decimal)

  /** A boxed Java value a decoder can return. */
  datatype Value =
    | BoolValue(b: bool)
    | ByteValue(n: int)
    | ShortValue(n: int)
    | CharValue(unit: int)
    | IntValue(n: int)
    | LongValue(n: int)
    | FloatValue(f: DoubleNumber)
    | DoubleValue(f: DoubleNumber)
    | BigIntegerValue(n: int)
    | BigDecimalValue(d: Decimal)

  /** A value fits its Java type: each integral value lies in its type's range. */
  predicate WellFormed(v: Value)
  {
    match v
    case ByteValue(n) => InByteRange(n)
    case ShortValue(n) => InShortRange(n)
    case CharValue(u) => 0 <= u <= MaxChar
    case IntValue(n) => InIntRange(n)
    case LongValue(n) => InLongRange(n)
    case _ => true
  }

  /** A Java reference: `null` or a boxed value. */
  datatype Nullable = JNull | Boxed(v: Value)

  /** Why `handleWeirdStringValue` was called. */
  datatype WeirdReason =
    | NotValid(message: string)   // "not a valid Byte value", "not a valid number", ...
    | Overflow(bits: nat)         // the value does not fit in 8, 16 or 32 bits

  /** Why `reportInputMismatch` was called. */
  datatype MismatchCause =
    | NullIntoPrimitive     // FAIL_ON_NULL_FOR_PRIMITIVES refuses a null for a primitive
    | IntegerToCharacter    // ALLOW_COERCION_OF_SCALARS is off for an int token to `char`
    | CoercionFailed        // a coercion helper returned (reported) `Fail`

  /** The helpers of the decoders' base classes that this model does not open up. */
  datatype Helper =
    | ParseBooleanPrimitive | ParseBoolean
    | ParseBytePrimitive | ParseShortPrimitive | ParseIntPrimitive | ParseLongPrimitive
    | CoerceTextualNull(primitive: bool)   // `_coerceTextualNull(ctxt, primitive)`
    | CoerceIntegral                       // `_coerceIntegral`
    | FromArray                            // `_deserializeFromArray`: single-element array unwrapping
    | TypedFromScalar                      // `TypeDeserializer.deserializeTypedFromScalar`

  /** How one decode call ends. */
  datatype Outcome =
    | Decoded(result: Nullable)                      // returns normally
    | WeirdStringValue(text: string, reason: WeirdReason)  // `ctxt.handleWeirdStringValue`
    | UnexpectedToken                                // `ctxt.handleUnexpectedToken`
    | InputMismatch(cause: MismatchCause)            // `ctxt.reportInputMismatch`
    | NumberOutOfRange(width: Width)                 // the parser's accessor refuses the number
    | Delegated(helper: Helper)                      // the result of a helper outside the model

  function Returns(v: Value): Outcome { Decoded(Boxed(v)) }

  // ---------------------------------------------------------------------
  // The parser's numeric accessors
  // ---------------------------------------------------------------------

  /** The accessors `getByteValue`, `getShortValue`, `getIntValue`, `getLongValue`. */
  datatype Width = Bits8 | Bits16 | Bits32 | Bits64

  /** The integers an accessor accepts; `getByteValue` also takes 128..255, the unsigned byte values. */
  predicate Accepts(w: Width, v: int)
  {
    match w
    case Bits8 => MinByte <= v <= 255
    case Bits16 => InShortRange(v)
    case Bits32 => InIntRange(v)
    case Bits64 => InLongRange(v)
  }

  /**
    The conversion an accessor makes first: `getByteValue` and `getShortValue`
    call `getIntValue` and narrow its result, `getLongValue` converts directly.
  */
  function Conversion(w: Width): Width
  {
    if w == Bits64 then Bits64 else Bits32
  }

  /** What an accessor gives for an integer token of value `v`. */
  function ReadIntegral(w: Width, v: int): (r: Outcome)
    ensures r.Decoded? <==> Accepts(w, v)
    ensures r.Decoded? ==> r.result.Boxed? && WellFormed(r.result.v)
    ensures r.Decoded? ==> var x := r.result.v;
      && (x.ByteValue? || x.ShortValue? || x.IntValue? || x.LongValue?)
      && x.n == (if w == Bits8 then ToByte(v) else v)
    ensures !Accepts(Conversion(w), v) ==> r == NumberOutOfRange(Conversion(w))
    ensures Accepts(Conversion(w), v) && !Accepts(w, v) ==> r == NumberOutOfRange(w)
  {
    if !Accepts(Conversion(w), v) then NumberOutOfRange(Conversion(w))
    else if !Accepts(w, v) then NumberOutOfRange(w)
    else match w
      case Bits8 => Returns(ByteValue(ToByte(v)))
      case Bits16 => Returns(ShortValue(v))
      case Bits32 => Returns(IntValue(v))
      case Bits64 => Returns(LongValue(v))
  }

  /** The range of the first conversion holds the exact value of a floating-point token. */
  predicate Convertible(w: Width, x: Decimal)
  {
    if w == Bits64 then DecimalWithin(x, MinLong, MaxLong) else DecimalWithin(x, MinInt, MaxInt)
  }

  /**
    What an accessor gives for a floating-point token of exact value `x`:
    the conversion to `int` or `long` checks the range on the value itself
    and only then truncates it toward zero; a byte or short is then narrowed
    as for an integer token.
  */
  function ReadIntegralFloat(w: Width, x: Decimal): (r: Outcome)
    ensures r.Decoded? <==> Convertible(w, x) && Accepts(w, TruncateDecimal(x))
    ensures !Convertible(w, x) ==> r == NumberOutOfRange(Conversion(w))
    ensures Convertible(w, x) ==> r == ReadIntegral(w, TruncateDecimal(x))
  {
    if !Convertible(w, x) then NumberOutOfRange(Conversion(w))
    else ReadIntegral(w, TruncateDecimal(x))
  }

  /** An `int` or `long` read of a floating-point token fails exactly when the value itself is outside the range. */
  lemma WideFloatReads(w: Width, x: Decimal)
    requires w == Bits32 || w == Bits64
    ensures ReadIntegralFloat(w, x).Decoded? <==> Convertible(w, x)
  {
    if Convertible(w, x) {
      if w == Bits64 {
        TruncateStaysWithin(x, MinLong, MaxLong);
      } else {
        TruncateStaysWithin(x, MinInt, MaxInt);
      }
    }
  }

  /** `getNumberValue()` on an integer token: the narrowest of Integer, Long and BigInteger that holds it. */
  function NaturalIntegerValue(v: int): (r: Value)
    ensures WellFormed(r)
    ensures (r.IntValue? || r.LongValue? || r.BigIntegerValue?) && r.n == v
    ensures r.IntValue? <==> InIntRange(v)
    ensures r.LongValue? <==> !InIntRange(v) && InLongRange(v)
  {
    if InIntRange(v) then IntValue(v) else if InLongRange(v) then LongValue(v) else BigIntegerValue(v)
  }

  // ---------------------------------------------------------------------
  // Text shapes
  // ---------------------------------------------------------------------

  /** `_hasTextualNull`: the text is the null marker `"null"`. */
  predicate HasTextualNull(text: string) { text == "null" }

  /** `_isPosInf`, `_isNegInf`: both spellings of each infinity. */
  predicate IsPosInf(text: string) { text == "Infinity" || text == "INF" }
  predicate IsNegInf(text: string) { text == "-Infinity" || text == "-INF" }
  predicate IsNaN(text: string) { text == "NaN" }

  /** `_isIntNumber`: an optional sign followed by one or more digits. */
  predicate IsIntNumber(text: string) { IsIntegerLiteral(text) }

  /** An integer literal is none of the special texts the decoders test for first. */
  lemma TextShapesDisjoint(text: string)
    ensures IsIntNumber(text) ==> !HasTextualNull(text) && !IsPosInf(text) && !IsNegInf(text) && !IsNaN(text)
  {
    if IsIntNumber(text) {
      assert text[0] == '-' || text[0] == '+' || IsDigit(text[0]);
      assert text[0] == '-' ==> IsDigit(text[1..][0]);
    }
  }

  /** `Double.valueOf(String)`, a floating-point parse this model takes as given. */
  type DoubleParser = string -> Option<DoubleNumber>
}
