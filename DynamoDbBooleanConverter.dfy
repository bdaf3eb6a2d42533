/** `DynamoDbBooleanConverter`: stores a nullable boolean as a DynamoDB null
    or as the string primitive "true" or "false", and reads it back. */
module DynamoDbBooleanConverter {
  import opened Wrappers

  /** The type tag of a DynamoDB primitive (S, N or B). */
  datatype PrimitiveType = StringType | NumericType | BinaryType

  /** The kinds of `DynamoDBEntry` the SDK has. */
  datatype DynamoDbEntry =
    | DynamoDbNull
    | DynamoDbBool(b: bool)
    | Primitive(value: string, primitiveType: PrimitiveType)
    | PrimitiveList(values: seq<string>, listType: PrimitiveType)
    | DynamoDbList(entries: seq<DynamoDbEntry>)
    | Document(attributes: map<string, DynamoDbEntry>)

  /** The `object value` handed to `ToEntry`: null, a boxed boolean, or
      some other object. */
  datatype BoxedValue = Null | Boolean(b: bool) | NotBoolean

  datatype ConverterException =
    | InvalidCast        // `(bool) value` on an object that is not a boolean
    | AsBooleanFailed    // the SDK's `Primitive.AsBoolean()` threw

  /** A primitive as `ToEntry` builds it: `new Primitive { Value = ... }`
      carries the string type. */
  function StringPrimitive(value: string): DynamoDbEntry
  {
    Primitive(value, StringType)
  }

  function ToEntry(value: BoxedValue): (r: Result<DynamoDbEntry, ConverterException>)
    ensures value == Null <==> r == Success(DynamoDbNull)
    ensures value.Boolean? <==> r.Success? && r.value.Primitive?
    // closed output set: a boolean becomes the string "true" or "false"
    ensures value.Boolean? ==>
              && r.Success? && r.value.primitiveType == StringType
              && r.value.value in {"true", "false"}
              && (r.value.value == "true" <==> value.b)
    ensures value == NotBoolean <==> r == Failure(InvalidCast)
  {
    match value
    case Null => Success(DynamoDbNull)
    case Boolean(b) => Success(StringPrimitive(if b == true then "true" else "false"))
    case NotBoolean => Failure(InvalidCast)
  }

  /** `asBoolean(v, t)` is what the SDK's `AsBoolean()` gives for a primitive
      with value `v` and type `t`; `None` when it throws. That method is not
      part of this model, so it is a parameter. */
  function FromEntry(asBoolean: (string, PrimitiveType) -> Option<bool>, entry: DynamoDbEntry)
    : (r: Result<Option<bool>, ConverterException>)
    ensures !entry.Primitive? ==> r == Success(None)
    ensures entry.Primitive? ==>
              match asBoolean(entry.value, entry.primitiveType)
              case Some(b) => r == Success(Some(b))
              case None => r == Failure(AsBooleanFailed)
  {
    if !entry.Primitive? then
      Success(None)
    else
      match asBoolean(entry.value, entry.primitiveType)
      case Some(b) => Success(Some(b))
      case None => Failure(AsBooleanFailed)
  }

  /** Null round-trips to null, whatever the SDK's reading. */
  lemma NullRoundTrip(asBoolean: (string, PrimitiveType) -> Option<bool>)
    ensures ToEntry(Null).Success?
    ensures FromEntry(asBoolean, ToEntry(Null).value) == Success(None)
  {
  }

  /** A boolean round-trips to itself provided the SDK reads the string
      primitives "true" and "false" as the booleans they spell. That reading
      is assumed; the SDK's parsing is not part of this model. */
  lemma BooleanRoundTrip(asBoolean: (string, PrimitiveType) -> Option<bool>, b: bool)
    requires asBoolean("true", StringType) == Some(true)
    requires asBoolean("false", StringType) == Some(false)
    ensures ToEntry(Boolean(b)).Success?
    ensures FromEntry(asBoolean, ToEntry(Boolean(b)).value) == Success(Some(b))
  {
  }

  /** Distinct inputs that both encode give distinct entries. */
  lemma ToEntryInjective(x: BoxedValue, y: BoxedValue)
    requires ToEntry(x).Success? && ToEntry(x) == ToEntry(y)
    ensures x == y
  {
  }
}
