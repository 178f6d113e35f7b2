/**
 * Request-body validation for post creation: the `post_type` must name a
 * category of the rules table, and every field that category requires must
 * be truthy; the first falsy one, in table order, is reported.
 */
module Validation {
  import opened Wrappers
  import opened Rules

  /** The text fields of a multipart body; a missing key is `undefined`. */
  type Body = map<string, string>

  /** JavaScript truthiness of a body field: present and not the empty string. */
  predicate Truthy(body: Body, key: string)
  {
    key in body && body[key] != ""
  }

  /** The value a destructuring of the body yields for `key`. */
  function Get(body: Body, key: string): (r: Option<string>)
    ensures r.Some? <==> key in body
    ensures r.Some? ==> r.value == body[key]
  {
    if key in body then Some(body[key]) else None
  }

  /** A field is falsy exactly when destructuring yields `undefined` or the empty string. */
  lemma TruthyMeansDefined(body: Body, key: string)
    ensures !Truthy(body, key) <==> Get(body, key) == None || Get(body, key) == Some("")
  {
  }

  /** Index of the first falsy field of `fields`, or None when all are truthy. */
  function FirstFalsy(fields: seq<string>, body: Body): (r: Option<nat>)
    ensures r.None? <==> forall k | 0 <= k < |fields| :: Truthy(body, fields[k])
    ensures r.Some? ==>
      && r.value < |fields|
      && !Truthy(body, fields[r.value])
      && forall k | 0 <= k < r.value :: Truthy(body, fields[k])
  {
    if |fields| == 0 then None
    else if !Truthy(body, fields[0]) then Some(0)
    else
      match FirstFalsy(fields[1..], body)
      case None => None
      case Some(i) => Some(i + 1)
  }

  /** `toUpperCase` on one character, for the ASCII letters field names are written in. */
  function UpperAscii(c: char): (r: char)
    ensures 'a' <= c <= 'z' ==> 'A' <= r <= 'Z' && r as int - 'A' as int == c as int - 'a' as int
    ensures !('a' <= c <= 'z') ==> r == c
  {
    if 'a' <= c <= 'z' then (c as int - 'a' as int + 'A' as int) as char else c
  }

  /** `charAt(0).toUpperCase() + slice(1)`. */
  function Capitalize(s: string): (r: string)
    ensures |r| == |s|
    ensures |s| > 0 ==> r[0] == UpperAscii(s[0]) && r[1..] == s[1..]
  {
    if |s| == 0 then "" else [UpperAscii(s[0])] + s[1..]
  }

  /** Why a body is refused before anything is written. */
  datatype ValidationError =
    | InvalidType
    | MissingField(field: string, postType: string)

  /** The `error` text the client receives for a validation failure. */
  function Message(e: ValidationError): (m: string)
    ensures e.InvalidType? ==> m == "Tipo de postagem inválido"
    ensures e.MissingField? ==>
      var tail := " é obrigatório para " + e.postType;
      && |m| == |e.field| + |tail|
      && m[..|e.field|] == Capitalize(e.field)
      && m[|e.field|..] == tail
      && (|e.field| > 0 ==> m[0] == UpperAscii(e.field[0]) && m[1..|e.field|] == e.field[1..])
  {
    match e
    case InvalidType => "Tipo de postagem inválido"
    case MissingField(field, postType) => Capitalize(field) + " é obrigatório para " + postType
  }

  /** Whether the body names a category the rules table knows. */
  predicate NamesCategory(body: Body)
  {
    Truthy(body, "post_type") && ParseCategory(body["post_type"]).Some?
  }

  /**
   * Checks the body: an absent, empty or unknown `post_type` is refused
   * first; then the category's required fields are checked in table order.
   */
  function Validate(body: Body): (r: Result<Category, ValidationError>)
    ensures r == Failure(InvalidType) <==> !NamesCategory(body)
    ensures r.Success? <==>
      NamesCategory(body) &&
      var req := Required(ParseCategory(body["post_type"]).value);
      forall k | 0 <= k < |req| :: Truthy(body, req[k])
    ensures r.Success? ==> "post_type" in body && CategoryName(r.value) == body["post_type"]
    ensures r.Failure? && r.error.MissingField? ==>
      && NamesCategory(body)
      && r.error.postType == body["post_type"]
      && var req := Required(ParseCategory(body["post_type"]).value);
         exists k | 0 <= k < |req| ::
           && req[k] == r.error.field
           && !Truthy(body, req[k])
           && forall j | 0 <= j < k :: Truthy(body, req[j])
  {
    TableKeysAreCategories(if "post_type" in body then body["post_type"] else "");
    if !Truthy(body, "post_type") || body["post_type"] !in RequiredFields then
      Failure(InvalidType)
    else
      var postType := body["post_type"];
      var c := ParseCategory(postType).value;
      assert RequiredFields[postType] == Required(c);
      match FirstFalsy(RequiredFields[postType], body)
      case Some(i) => Failure(MissingField(RequiredFields[postType][i], postType))
      case None => Success(c)
  }
}
