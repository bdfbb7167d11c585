# Scalar number decoders and the bounded lookup cache of jackson-databind

This project models two parts of jackson-databind in Dafny:

- `NumberDeserializers`: the registry that picks a decoder for a requested Java class, and the decoders for `boolean`/`Boolean`, `byte`/`Byte`, `short`/`Short`, `char`/`Character`, `int`/`Integer`, `long`/`Long`, `Number`, `BigInteger` and `BigDecimal`.
- `LRUMap`: the bounded cache whose `put` empties the map once it holds `maxEntries` entries.

A decoder is modelled as a total function. Its inputs are:
- the parser's current token;
- the configuration features it reads;
- the answers of the coercion helpers.

Its result is exactly one `Outcome`: a value (possibly `null`), a weird-string error, an unexpected-token error, an input mismatch, a number the parser's accessor rejects, or a delegation to a helper this model does not open up.

Files:
- `java_text.dfy` (module `JavaText`) models the Java platform behaviour the decoders rely on:
  - the integral widths and the `(byte)` cast;
  - `String.trim`;
  - decimal integer literals as `Integer.parseInt`, `Long.parseLong` and `new BigInteger(String)` read them, with a renderer as their inverse;
  - `new BigDecimal(String)`, and `BigDecimal.toBigInteger`.
- `json_input.dfy` (module `JsonInput`) holds:
  - tokens, the configuration features, `CoercionAction` and the decoded values;
  - every way a decode call can end;
  - the parser's integral accessors.
- `number_deserializers.dfy` (module `NumberDeserializers`) holds:
  - the class-name registry and its initializer loop, and `find`;
  - the `PrimitiveOrWrapperDeserializer` base;
  - every decoder listed above, and their lemmas.
- `lru_map.dfy` (module `BoundedCache`) holds:
  - the `LRUMap` class, with a `map` field and an immutable bound;
  - the function `PutResult` that specifies `put`;
  - lemmas about runs of `put`s.

Modelling choices:
- The coercion helpers `_checkFromStringCoercion` and `_checkFloatToIntCoercion` are inputs (`Coercions`).
  - `Fail` stands for the case where the helper has already reported the coercion failure. Such a call ends in `InputMismatch(CoercionFailed)` at that point.
- The parser's integral accessors follow jackson-core:
  - `getByteValue` and `getShortValue` first convert to `int`, as `getIntValue` does, and then check the narrow range. A number beyond 32 bits therefore fails with the 32-bit out-of-range error, whatever the target width.
  - `getByteValue` accepts -128..255, and reads 128..255 as two's complement.
  - A floating-point token carries the exact decimal value of its literal. Its range is checked on that exact value, and only then is it truncated toward zero. So `2147483647.5` is out of range for an `int`.
- `_isPosInf` accepts `"Infinity"` and `"INF"`, and `_isNegInf` accepts `"-Infinity"` and `"-INF"`.
- `Double.valueOf(String)` is a function parameter (`DoubleParser`). The model does not compute it.
- `Outcome.Delegated` records a call to a helper of the base classes. Helpers treated this way: `_parseBooleanPrimitive`, `_parseBoolean`, `_parseBytePrimitive`, `_parseShortPrimitive`, `_parseIntPrimitive`, `_parseLongPrimitive`, `_coerceTextualNull`, `_coerceIntegral`, `_deserializeFromArray` and `TypeDeserializer.deserializeTypedFromScalar`. `_verifyNullForPrimitive`, called by the Character decoder on a null token, is not opened up either: it is taken to make the same test as `getNullValue`, an input mismatch exactly for a primitive decoder under FAIL_ON_NULL_FOR_PRIMITIVES.
- A Dafny `char` is a Unicode scalar value, and Java text is a sequence of UTF-16 code units. They coincide for text inside the Basic Multilingual Plane without surrogates. `IsJavaString` limits a string to such text where that matters. The model cannot represent a character outside that plane (see "## Left out").

Behaviour of the code that a reader might not expect:
- The Byte string path rejects `"256"` with the 8-bit overflow error. The bound is widened only up to 255.
- The Integer string path gives the overflow error only for a literal that fits a `long`. A longer valid literal gives "not a valid Integer value".
- A fractional string such as `"1.0"` is "not a valid" value for every integral target. The string paths make no float-to-int conversion.
- The Number decoder reports an integer literal beyond the `long` range as "not a valid number". It does not widen it to a BigInteger unless USE_BIG_INTEGER_FOR_INTS is on.

## Model

| member | source | states |
|---|---|---|
| NumberDeserializers.CollectClassNames | src/main/java/com/fasterxml/jackson/databind/deser/std/NumberDeserializers.java:26-44 | the initializer loop collects exactly the names of the listed classes. The invariant says the names so far are those of the classes already visited |
| NumberDeserializers.Find | src/main/java/com/fasterxml/jackson/databind/deser/std/NumberDeserializers.java:46-117 | "none" exactly for a non-primitive class whose name is not in the registry. A primitive-or-wrapper decoder is always the singleton for the requested class's type and primitive flag. The `void` decoder is returned exactly for `void` |
| NumberDeserializers.FindPrimitive | src/main/java/com/fasterxml/jackson/databind/deser/std/NumberDeserializers.java:47-72 | each of the eight primitive classes gets its own primitive singleton, whatever name is passed with it |
| NumberDeserializers.FindWrapper | src/main/java/com/fasterxml/jackson/databind/deser/std/NumberDeserializers.java:77-102 | each wrapper class looked up by its name gets its wrapper singleton, and that singleton differs from the primitive one |
| NumberDeserializers.FindGenericDecoders | src/main/java/com/fasterxml/jackson/databind/deser/std/NumberDeserializers.java:103-111 | `java.lang.Number`, `java.math.BigDecimal` and `java.math.BigInteger`, looked up by their names, get the Number, BigDecimal and BigInteger decoders |
| NumberDeserializers.FindListedClasses | src/main/java/com/fasterxml/jackson/databind/deser/std/NumberDeserializers.java:77-111 | every class of the registry's list, looked up under its own name, gets a decoder |
| NumberDeserializers.FindSameNamedOtherClass | src/main/java/com/fasterxml/jackson/databind/deser/std/NumberDeserializers.java:77-116 | a non-primitive class that is none of the listed ones but carries a listed name reaches the internal error |
| NumberDeserializers.FindInternalErrorOnlyForOtherClasses | src/main/java/com/fasterxml/jackson/databind/deser/std/NumberDeserializers.java:46-116 | only a class that is none of the primitives, wrappers, `void`, Number, BigDecimal or BigInteger can reach the internal error |
| NumberDeserializers.ClassNamesAreListedNames | src/main/java/com/fasterxml/jackson/databind/deser/std/NumberDeserializers.java:26-44 | the registry holds exactly the names of the eleven listed classes |
| NumberDeserializers.GetNullAccessPattern | src/main/java/com/fasterxml/jackson/databind/deser/std/NumberDeserializers.java:156-167 | DYNAMIC exactly for a primitive decoder. Otherwise ALWAYS_NULL exactly when the null substitute is `null`, and CONSTANT exactly when it is not |
| NumberDeserializers.SingletonAccessPatterns | src/main/java/com/fasterxml/jackson/databind/deser/std/NumberDeserializers.java:156-167 | every primitive singleton is DYNAMIC and every wrapper singleton is ALWAYS_NULL |
| NumberDeserializers.GetNullValue | src/main/java/com/fasterxml/jackson/databind/deser/std/NumberDeserializers.java:169-179 | an input mismatch exactly when the decoder is primitive and FAIL_ON_NULL_FOR_PRIMITIVES is on. Otherwise it returns the stored null substitute |
| NumberDeserializers.GetEmptyValue | src/main/java/com/fasterxml/jackson/databind/deser/std/NumberDeserializers.java:181-184 | the empty value is the zero of the handled type (`false`, `0`, `'\0'`, `0.0`), for the primitive and the wrapper decoder alike |
| NumberDeserializers.AfterCoercion | src/main/java/com/fasterxml/jackson/databind/deser/std/NumberDeserializers.java:281-288 | AsNull gives the null value and AsEmpty the empty value. TryConvert goes on decoding. Fail ends the call |
| NumberDeserializers.StringCoercionComesFirst | src/main/java/com/fasterxml/jackson/databind/deser/std/NumberDeserializers.java:280-292 | for every string decoder, AsNull and AsEmpty decide the result before the text is trimmed or parsed, whatever the text |
| NumberDeserializers.BooleanDeserialize | src/main/java/com/fasterxml/jackson/databind/deser/std/NumberDeserializers.java:212-227 | a value exactly for the two boolean tokens, and that value is the token's truth value. Every other token goes to the boolean parse helper |
| NumberDeserializers.BooleanDeserializeWithType | src/main/java/com/fasterxml/jackson/databind/deser/std/NumberDeserializers.java:229-246 | any value it returns is a Boolean. `BooleanWithTypeAgrees` shows that it decodes as `deserialize` does |
| NumberDeserializers.BooleanWithTypeAgrees | src/main/java/com/fasterxml/jackson/databind/deser/std/NumberDeserializers.java:229-246 | `deserializeWithType` gives what `deserialize` gives, for every token |
| NumberDeserializers.ByteDeserialize | src/main/java/com/fasterxml/jackson/databind/deser/std/NumberDeserializers.java:263-273 | any value it returns is a Byte within -128..127 |
| NumberDeserializers.ParseByte | src/main/java/com/fasterxml/jackson/databind/deser/std/NumberDeserializers.java:275-325 | any value it returns is a Byte within -128..127 |
| NumberDeserializers.ByteFromText | src/main/java/com/fasterxml/jackson/databind/deser/std/NumberDeserializers.java:289-307 | any value it returns is a Byte within -128..127. Trimmed `"null"` goes to `_coerceTextualNull` with the primitive flag off |
| NumberDeserializers.OverflowMatchesAccessors | src/main/java/com/fasterxml/jackson/databind/deser/std/NumberDeserializers.java:302-381 | the Byte, Short and Integer overflow tests of the string paths refuse exactly the numbers that the byte, short and int accessors refuse |
| NumberDeserializers.ByteFromTextMeaning | src/main/java/com/fasterxml/jackson/databind/deser/std/NumberDeserializers.java:293-307 | a byte exactly when the literal's value is in -128..255, with 128..255 read as two's complement. The 8-bit overflow error exactly for any other `int`. "not a valid Byte value" for non-literals and for literals wider than an `int` |
| NumberDeserializers.ByteTextExamples | src/main/java/com/fasterxml/jackson/databind/deser/std/NumberDeserializers.java:293-307 | `"256"` is the overflow error, and `"255"` is the byte -1 |
| NumberDeserializers.ShortDeserialize | src/main/java/com/fasterxml/jackson/databind/deser/std/NumberDeserializers.java:342-353 | any value it returns is a Short within 16 bits |
| NumberDeserializers.ParseShort | src/main/java/com/fasterxml/jackson/databind/deser/std/NumberDeserializers.java:355-403 | any value it returns is a Short within 16 bits |
| NumberDeserializers.ShortFromText | src/main/java/com/fasterxml/jackson/databind/deser/std/NumberDeserializers.java:369-384 | any value it returns is a Short within 16 bits. Trimmed `"null"` goes to `_coerceTextualNull` with the primitive flag off |
| NumberDeserializers.ShortFromTextMeaning | src/main/java/com/fasterxml/jackson/databind/deser/std/NumberDeserializers.java:373-384 | the literal's value exactly when it fits 16 bits. The 16-bit overflow error exactly for any other `int`. "not a valid Short value" otherwise |
| NumberDeserializers.CharacterProducesChar | src/main/java/com/fasterxml/jackson/databind/deser/std/NumberDeserializers.java:422-467 | for Java text, any value it returns is a Character code unit |
| NumberDeserializers.CharacterDeserialize | src/main/java/com/fasterxml/jackson/databind/deser/std/NumberDeserializers.java:422-467 | any value it returns is a Character with a non-negative code. The lemmas below state each token's outcome |
| NumberDeserializers.CharacterFromInt | src/main/java/com/fasterxml/jackson/databind/deser/std/NumberDeserializers.java:427-437 | an int token is the code unit `v` exactly when ALLOW_COERCION_OF_SCALARS is on and `v` is in 0..0xFFFF. With the feature off it is an input mismatch. With it on, a value beyond 32 bits is the `int` out-of-range error and any other value outside 0..0xFFFF is an unexpected token |
| NumberDeserializers.CharacterFromString | src/main/java/com/fasterxml/jackson/databind/deser/std/NumberDeserializers.java:438-456 | a permitted string is a value exactly when it trims to one character, and the value is that character. Trimmed `"null"` goes to `_coerceTextualNull` with the primitive flag. Any other length is an unexpected token |
| NumberDeserializers.CharacterStringPath | src/main/java/com/fasterxml/jackson/databind/deser/std/NumberDeserializers.java:438-448 | a permitted string token is decoded from its trimmed text alone |
| NumberDeserializers.CharacterTextIsOneUnit | src/main/java/com/fasterxml/jackson/databind/deser/std/NumberDeserializers.java:449-455 | trimmed text is a value exactly when it is one character long, and the value is that character. `"null"` goes to `_coerceTextualNull`. Every other text is an unexpected token |
| NumberDeserializers.CharacterRefusesOtherTokens | src/main/java/com/fasterxml/jackson/databind/deser/std/NumberDeserializers.java:464-466 | booleans, floating-point numbers and other structural tokens are unexpected tokens |
| NumberDeserializers.IntegerDeserialize | src/main/java/com/fasterxml/jackson/databind/deser/std/NumberDeserializers.java:487-496 | any value it returns is an Integer within 32 bits |
| NumberDeserializers.IntegerDeserializeWithType | src/main/java/com/fasterxml/jackson/databind/deser/std/NumberDeserializers.java:498-511 | any value it returns is an Integer within 32 bits. `IntegerWithTypeAgrees` shows that it decodes as `deserialize` does |
| NumberDeserializers.IntegerWithTypeAgrees | src/main/java/com/fasterxml/jackson/databind/deser/std/NumberDeserializers.java:498-511 | `deserializeWithType` gives what `deserialize` gives, for every token |
| NumberDeserializers.ParseInteger | src/main/java/com/fasterxml/jackson/databind/deser/std/NumberDeserializers.java:514-565 | any value it returns is an Integer within 32 bits |
| NumberDeserializers.IntegerFromText | src/main/java/com/fasterxml/jackson/databind/deser/std/NumberDeserializers.java:528-547 | any value it returns is an Integer within 32 bits. Trimmed `"null"` goes to `_coerceTextualNull` with the primitive flag off |
| NumberDeserializers.IntegerFromTextMeaning | src/main/java/com/fasterxml/jackson/databind/deser/std/NumberDeserializers.java:532-547 | the literal's value exactly when it fits 32 bits. The overflow error exactly when it fits a `long` but not an `int`. "not a valid Integer value" otherwise |
| NumberDeserializers.IntegerTextExample | src/main/java/com/fasterxml/jackson/databind/deser/std/NumberDeserializers.java:519-547 | the string `"42"` decodes to the Integer 42 |
| NumberDeserializers.IntegralDecodersSeeTrimmedText | src/main/java/com/fasterxml/jackson/databind/deser/std/NumberDeserializers.java:289-611 | once the coercion helper lets both strings through, two strings that trim alike get the same outcome from the Byte, Short, Integer and Long decoders |
| NumberDeserializers.OtherDecodersSeeTrimmedText | src/main/java/com/fasterxml/jackson/databind/deser/std/NumberDeserializers.java:448-1047 | the same for the Character, Number, BigInteger and BigDecimal decoders |
| NumberDeserializers.StringDecodersIgnorePadding | src/main/java/com/fasterxml/jackson/databind/deser/std/NumberDeserializers.java:289-1047 | once the coercion helper lets a string through, blanks around it change nothing. Each string decoder gives the same outcome for the padded and the bare text |
| NumberDeserializers.IntegerRejectsFraction | src/main/java/com/fasterxml/jackson/databind/deser/std/NumberDeserializers.java:532-546 | `"1.0"` is "not a valid Integer value" |
| NumberDeserializers.IntTokenFastPath | src/main/java/com/fasterxml/jackson/databind/deser/std/NumberDeserializers.java:263-273 | an int token into Byte, Short, Integer or Long is read by that width's accessor alone. Configuration and coercions play no part |
| NumberDeserializers.FloatTokenPath | src/main/java/com/fasterxml/jackson/databind/deser/std/NumberDeserializers.java:308-629 | a floating-point token that the coercion helper lets through is read by the width's accessor on its exact value, in the Byte, Short, Integer and Long parses |
| NumberDeserializers.AccessorRangeExamples | src/main/java/com/fasterxml/jackson/databind/deser/std/NumberDeserializers.java:316-556 | `2147483647.5` overflows an Integer although its integral part fits. The int token 5000000000 fails a Byte read with the 32-bit error, and 300 fails it with the 8-bit error |
| NumberDeserializers.NullTokenGivesNullValue | src/main/java/com/fasterxml/jackson/databind/deser/std/NumberDeserializers.java:317-318 | a null token into the Byte, Short, Character, Integer and Long parses is `getNullValue` |
| NumberDeserializers.ParsesRefuseOtherTokens | src/main/java/com/fasterxml/jackson/databind/deser/std/NumberDeserializers.java:321-324 | in the Byte, Short, Integer and Long parses, booleans and structural tokens other than an array start are unexpected tokens. An array start goes to single-element unwrapping |
| NumberDeserializers.LongDeserialize | src/main/java/com/fasterxml/jackson/databind/deser/std/NumberDeserializers.java:585-595 | any value it returns is a Long within 64 bits |
| NumberDeserializers.ParseLong | src/main/java/com/fasterxml/jackson/databind/deser/std/NumberDeserializers.java:597-639 | any value it returns is a Long within 64 bits |
| NumberDeserializers.LongFromText | src/main/java/com/fasterxml/jackson/databind/deser/std/NumberDeserializers.java:611-619 | any value it returns is a Long within 64 bits. Trimmed `"null"` goes to `_coerceTextualNull` with the primitive flag off |
| NumberDeserializers.LongFromTextMeaning | src/main/java/com/fasterxml/jackson/databind/deser/std/NumberDeserializers.java:615-619 | the literal's value exactly when it fits 64 bits. Otherwise "not a valid Long value" |
| NumberDeserializers.NumberDeserialize | src/main/java/com/fasterxml/jackson/databind/deser/std/NumberDeserializers.java:837-908 | every value it returns fits its Java type |
| NumberDeserializers.NumberFromText | src/main/java/com/fasterxml/jackson/databind/deser/std/NumberDeserializers.java:868-901 | every value it returns fits its Java type |
| NumberDeserializers.NumberIntegerText | src/main/java/com/fasterxml/jackson/databind/deser/std/NumberDeserializers.java:889-898 | with USE_BIG_INTEGER_FOR_INTS on, an integer-literal string is always a BigInteger. With both features off it is an Integer when it fits 32 bits. It is a Long when it fits 64 bits and USE_LONG_FOR_INTS is on or it does not fit 32 bits. Beyond 64 bits it is "not a valid number" |
| NumberDeserializers.NumberDeserializeWithType | src/main/java/com/fasterxml/jackson/databind/deser/std/NumberDeserializers.java:915-928 | int, float and string tokens decode as `deserialize` does. Every other token goes to the type deserializer |
| NumberDeserializers.BigIntegerDeserialize | src/main/java/com/fasterxml/jackson/databind/deser/std/NumberDeserializers.java:962-1008 | any value it returns is a BigInteger |
| NumberDeserializers.BigDecimalDeserialize | src/main/java/com/fasterxml/jackson/databind/deser/std/NumberDeserializers.java:1030-1062 | any value it returns is a BigDecimal |
| NumberDeserializers.BigDecodersAgreeOnIntegerText | src/main/java/com/fasterxml/jackson/databind/deser/std/NumberDeserializers.java:996-1053 | integer text is read by the BigInteger decoder as `n` and by the BigDecimal decoder as `n` with scale 0 |
| NumberDeserializers.BigDecodersAgreeOnIntTokens | src/main/java/com/fasterxml/jackson/databind/deser/std/NumberDeserializers.java:967-1037 | an int token is read as the same number by both big decoders, with scale 0 for the BigDecimal |
| JavaText.Trim | src/main/java/com/fasterxml/jackson/databind/deser/std/NumberDeserializers.java:289 | the result has no blank at either end and is no longer than the input. Text with no blank at either end is returned unchanged (`TrimIgnoresPadding` shows that padding is all that goes) |
| JavaText.TrimKeepsJavaString | src/main/java/com/fasterxml/jackson/databind/deser/std/NumberDeserializers.java:448 | trimming a Java string leaves only UTF-16 code units |
| JavaText.TrimUnpadded | src/main/java/com/fasterxml/jackson/databind/deser/std/NumberDeserializers.java:289 | text with no blanks is unchanged |
| JavaText.TrimAllBlank | src/main/java/com/fasterxml/jackson/databind/deser/std/NumberDeserializers.java:289 | all-blank text becomes empty |
| JavaText.TrimIdempotent | src/main/java/com/fasterxml/jackson/databind/deser/std/NumberDeserializers.java:289 | trimming twice is trimming once |
| JavaText.TrimIgnoresPadding | src/main/java/com/fasterxml/jackson/databind/deser/std/NumberDeserializers.java:289 | blanks added around any text do not change its trimmed form |
| JavaText.LiteralValue | src/main/java/com/fasterxml/jackson/databind/deser/std/NumberDeserializers.java:295 | a value exactly for an optionally signed run of decimal digits. That value has no more digits than the text has characters |
| JavaText.IntegerTextRoundTrip | src/main/java/com/fasterxml/jackson/databind/deser/std/NumberDeserializers.java:617 | parsing the decimal rendering of any integer gives that integer back |
| JavaText.JavaParseInt | src/main/java/com/fasterxml/jackson/databind/deser/std/NumberDeserializers.java:295 | a value exactly for an integer literal whose value fits 32 bits, and that value is the literal's |
| JavaText.JavaParseLong | src/main/java/com/fasterxml/jackson/databind/deser/std/NumberDeserializers.java:617 | a value exactly for an integer literal whose value fits 64 bits, and that value is the literal's |
| JavaText.ParseBigInteger | src/main/java/com/fasterxml/jackson/databind/deser/std/NumberDeserializers.java:1001 | a value exactly for an integer literal, of any size |
| JavaText.JavaParsersRoundTrip | src/main/java/com/fasterxml/jackson/databind/deser/std/NumberDeserializers.java:535-617 | `Integer.parseInt`, `Long.parseLong` and `new BigInteger` each give back an integer of their range from its decimal rendering |
| JavaText.ShortLiteralFitsInt | src/main/java/com/fasterxml/jackson/databind/deser/std/NumberDeserializers.java:534-543 | a literal of at most nine characters always fits an `int`, so the short branch can never overflow |
| JavaText.ToByte | src/main/java/com/fasterxml/jackson/databind/deser/std/NumberDeserializers.java:306 | the cast lands in -128..127, agrees with the value modulo 256, and keeps values already in range |
| JavaText.IntegerLiteralAsDecimal | src/main/java/com/fasterxml/jackson/databind/deser/std/NumberDeserializers.java:1053 | `new BigDecimal` reads an integer literal as its value with scale 0 |
| JavaText.ParseBigDecimalFraction | src/main/java/com/fasterxml/jackson/databind/deser/std/NumberDeserializers.java:1053 | `"1.50"` is read as unscaled value 150 with scale 2, keeping the trailing zero |
| JavaText.ParseBigDecimalExponent | src/main/java/com/fasterxml/jackson/databind/deser/std/NumberDeserializers.java:1053 | `"1e3"` is read as unscaled value 1 with scale -3 |
| JavaText.ParseBigDecimalValue | src/main/java/com/fasterxml/jackson/databind/deser/std/NumberDeserializers.java:1053 | any text `[-]digits[.digits]` with at least one digit is read as the digits with the point removed, at the scale of its fraction length |
| JavaText.TruncatingDivide | src/main/java/com/fasterxml/jackson/databind/deser/std/NumberDeserializers.java:983 | the quotient is rounded toward zero, for negative dividends too |
| JavaText.TruncateStaysWithin | src/main/java/com/fasterxml/jackson/databind/deser/std/NumberDeserializers.java:983 | truncating a decimal that lies within integer bounds gives an integer within those bounds |
| JsonInput.ReadIntegral | src/main/java/com/fasterxml/jackson/databind/deser/std/NumberDeserializers.java:265 | the accessor gives a value exactly when the number is in its width's range. The value is the number, cast for a byte, and fits the type. A number beyond the `int` conversion (the `long` one for Long) is that conversion's out-of-range error. A number that passes it but not the narrow range is the narrow width's error |
| JsonInput.ReadIntegralFloat | src/main/java/com/fasterxml/jackson/databind/deser/std/NumberDeserializers.java:316 | a floating-point token gives a value exactly when its exact value is within the first conversion's range and its truncation is within the width's range. Outside the first range it is that conversion's error |
| JsonInput.WideFloatReads | src/main/java/com/fasterxml/jackson/databind/deser/std/NumberDeserializers.java:556 | an `int` or `long` read of a floating-point token fails exactly when the exact value is outside the range |
| JsonInput.TextShapesDisjoint | src/main/java/com/fasterxml/jackson/databind/deser/std/NumberDeserializers.java:869-883 | an integer literal is none of `"null"`, the infinity spellings and `"NaN"`, so the order of the tests does not hide it |
| JsonInput.NaturalIntegerValue | src/main/java/com/fasterxml/jackson/databind/deser/std/NumberDeserializers.java:845 | the value is kept unchanged. It is an Integer exactly when it fits 32 bits, a Long exactly when it fits 64 bits but not 32, and a BigInteger otherwise |
| BoundedCache.PutResult | src/main/java/com/fasterxml/jackson/databind/util/LRUMap.java:34-44 | the new entry is present. At or above the bound the map holds only the new key. Below the bound every earlier key stays. No other key changes its value |
| BoundedCache.PutStaysBounded | src/main/java/com/fasterxml/jackson/databind/util/LRUMap.java:34-44 | a `put` keeps the size within the capacity, which is the bound or 1, whichever is larger |
| BoundedCache.PutExistingBelowBound | src/main/java/com/fasterxml/jackson/databind/util/LRUMap.java:35-43 | below the bound, re-putting a present key keeps the size and every other entry |
| BoundedCache.PutAllStaysBounded | src/main/java/com/fasterxml/jackson/databind/util/LRUMap.java:34-44 | any run of `put`s keeps the size within the capacity |
| BoundedCache.PutAllKeepsLast | src/main/java/com/fasterxml/jackson/databind/util/LRUMap.java:43 | after any run of `put`s, the last entry stored is present with its value |
| BoundedCache.PutAllAppend | src/main/java/com/fasterxml/jackson/databind/util/LRUMap.java:34-44 | two batches of `put`s in sequence equal one concatenated batch |
| BoundedCache.PutAllBelowBound | src/main/java/com/fasterxml/jackson/databind/util/LRUMap.java:35-43 | below the bound, `put`s of new distinct keys lose no entry and grow the size by one each |
| BoundedCache.FillPastCapacityDropsFirst | src/main/java/com/fasterxml/jackson/databind/util/LRUMap.java:13-16 | after `maxEntries + 1` distinct keys are put into an empty map, its size is at most `maxEntries`, the first key is gone and only the last key remains |
| BoundedCache.FullMapForgetsRecentEntry | src/main/java/com/fasterxml/jackson/databind/util/LRUMap.java:13-16 | there is no recency order: filling the map to its bound and putting one more key drops even the entry just stored |
| BoundedCache.LRUMap.constructor | src/main/java/com/fasterxml/jackson/databind/util/LRUMap.java:27-32 | the map starts empty with the given bound, and is within its capacity |
| BoundedCache.LRUMap.Put | src/main/java/com/fasterxml/jackson/databind/util/LRUMap.java:34-44 | the new contents are `PutResult` of the old. The key maps to the value. A full map is left holding only the key. The size stays within the capacity |
| BoundedCache.LRUMap.Get | src/main/java/com/fasterxml/jackson/databind/util/LRUMap.java:47 | a value exactly when the key is present, and it is the stored value. The contents do not change |
| BoundedCache.LRUMap.Clear | src/main/java/com/fasterxml/jackson/databind/util/LRUMap.java:49 | the map is left empty, so `Size` gives 0 and every `Get` finds nothing |
| BoundedCache.LRUMap.Size | src/main/java/com/fasterxml/jackson/databind/util/LRUMap.java:50 | the number of entries, which lies within the capacity and within an `int`. The contents do not change |

## Left out

- The Float and Double decoders (`FloatDeserializer`, `DoubleDeserializer`) are left out. They do floating-point parsing and arithmetic. `find` still returns their singletons.
- `Double.valueOf(String)` is a parameter, and a float token's `double` value is its exact decimal. Rounding to binary floating point is not modelled.
- A float token that is NaN (under non-standard parser features) is not modelled. The Number decoder's `isNaN` check therefore has no case to guard.
- The bodies of the helpers in `Outcome.Delegated` are not modelled. Those bodies live in `StdDeserializer` and `TypeDeserializer`, which are not part of this model.
- The recovery channel of `handleWeirdStringValue`, `handleUnexpectedToken` and `reportInputMismatch` is not modelled. Each ends the decode call with its `Outcome`, and substitutes a configured handler might supply are not modelled.
- The exact wording of the error messages is not modelled. Only the "not a valid ..." text and the overflow width are kept.
- The logical types are not modelled beyond `LogicalTypeOf`. `logicalType()` only reports a constant.
- JavaText.LiteralValue: accepts ASCII digits only. `Character.digit` in `Integer.parseInt`, `Long.parseLong` and `new BigInteger` also accepts other Unicode decimal digits.
- JavaText.ParseBigDecimal: does not reject an exponent whose scale leaves the `int` range, which `new BigDecimal(String)` does reject.
- `NumberInput.parseInt("")` on an empty trimmed text is not modelled. In Java it fails with an index exception that the decoders do not catch. The model treats the empty text as "not a valid ... value".
- NumberDeserializers.CharacterDeserialize: text outside the Basic Multilingual Plane cannot be represented. A supplementary character is one Dafny `char` but two UTF-16 code units in Java, and a lone surrogate is not a Dafny `char` at all. So the one-character test of the Character string path and the nine-character branch of the Integer string path count Dafny characters. For such text Java sees a different length.
- NumberDeserializers.CharacterFromString: its promises hold for text inside the Basic Multilingual Plane without surrogates, for the reason just given.
- NumberDeserializers.CharacterProducesChar: states that the result fits 0..0xFFFF only for text that `IsJavaString` accepts, for the same reason.
- JsonInput.ReadIntegralFloat: checks the range on the exact decimal, not on the `double` that jackson-core converts the token to. The two can differ for a literal that `double` cannot represent, for example at the `long` bound 2^63, which rounds onto the bound. The `toBigInteger` of a float token in the BigInteger decoder likewise truncates the exact decimal.
- BoundedCache.LRUMap.Put, BoundedCache.LRUMap.Get: the backing `ConcurrentHashMap` throws `NullPointerException` for a null key or value. `put` throws only after it has already cleared a full map, so `put(null, v)` on a full map leaves it empty. The model has no null and no exception: instantiated with a nullable type it stores and returns a null key or value.
- BoundedCache.LRUMap.constructor: requires a non-negative initial size. `ConcurrentHashMap` throws `IllegalArgumentException` for a negative one, and that exception is not modelled.
- `LRUMap` is modelled sequentially. Concurrency is left out: `synchronized`, the double-checked clear and `ConcurrentHashMap`'s thread safety.
- `LRUMap`'s Java serialization hooks (`readObject`, `writeObject`, `readResolve`) are I/O plumbing and are left out.
- `NullifyingDeserializer`, returned for `void`, appears only as a name: that class is not part of this model.
- `isCachable` and the deprecated three-argument constructor of the base class are not modelled.
