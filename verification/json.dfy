/**
 The part of System.Text.Json the account factory touches: a parsed JSON value and the
 JsonElement accessors that read it. Parsing itself is not modelled; the parser is a
 parameter of the factory (see AccountFactory.CreateUser).
 */
module Json {
  import opened Wrappers

  /** A parsed JSON value. Objects are maps from property name to value. */
  datatype Json =
    | JNull
    | JBool(b: bool)
    | JNumber(literal: string)
    | JString(str: string)
    | JArray(items: seq<Json>)
    | JObject(props: map<string, Json>)

  /** The exceptions a JsonElement accessor throws. */
  datatype Fault =
    | WrongKind   // InvalidOperationException: the element has the wrong value kind
    | MissingKey  // KeyNotFoundException: GetProperty on an absent property name

  /** JsonElement.TryGetProperty: the named property if present, nothing if absent;
      throws when the element is not an object. */
  function TryGetProperty(e: Json, name: string): Result<Option<Json>, Fault>
  {
    match e
    case JObject(props) => Success(if name in props then Some(props[name]) else None)
    case _ => Failure(WrongKind)
  }

  /** JsonElement.GetProperty: like TryGetProperty, but an absent name throws. */
  function GetProperty(e: Json, name: string): Result<Json, Fault>
  {
    match e
    case JObject(props) => if name in props then Success(props[name]) else Failure(MissingKey)
    case _ => Failure(WrongKind)
  }

  /** JsonElement.EnumerateArray: the elements of an array; throws on any other kind. */
  function EnumerateArray(e: Json): Result<seq<Json>, Fault>
  {
    match e
    case JArray(items) => Success(items)
    case _ => Failure(WrongKind)
  }

  /** JsonElement.GetString: the text of a string, null for a JSON null; throws on any other kind. */
  function GetString(e: Json): Result<Option<string>, Fault>
  {
    match e
    case JString(s) => Success(Some(s))
    case JNull => Success(None)
    case _ => Failure(WrongKind)
  }
}
