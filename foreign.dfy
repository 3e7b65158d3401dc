/**
 * The library calls the authentication handlers make and this model does
 * not look inside: JSON serialisation and parsing, UTF-8 encoding and MD5.
 * They are passed to the handlers as a `Library` value; the only fact
 * assumed of them is the one their types carry (an MD5 digest is 16 bytes,
 * section 3.5 of RFC 1321).
 */
module Foreign {
  import opened Wrappers

  /** The values `json.loads` can return and `json.dumps` accepts. */
  datatype JsonValue =
    | JNull
    | JBool(b: bool)
    | JInt(i: int)
    | JFloat(text: string)
    | JString(s: string)
    | JArray(items: seq<JsonValue>)
    | JObject(members: seq<(string, JsonValue)>)

  /** A 128-bit MD5 message digest. */
  type Md5Digest = d: seq<Byte> | |d| == 16 witness [0, 0, 0, 0, 0, 0, 0, 0, 0, 0, 0, 0, 0, 0, 0, 0]

  datatype Library = Library(
    dumps: JsonValue -> string,
    loads: string -> Result<JsonValue>,
    encodeUtf8: string -> seq<Byte>,
    md5: seq<Byte> -> Md5Digest)
}
