/** The library primitives both sides of the scheme call but whose
    internals are outside the model: URL encoding and decoding, UTF-8,
    HMAC-SHA256 (RFC 2104), base64 decoding and `double.TryParse`. Each is
    a field of `Primitives`, so every property proved about the scheme
    holds for every implementation of them; where a proof needs one of
    their laws, the lemma asks for it as a precondition. */
module Platform {
  import opened Wrappers
  import opened Base64

  datatype Primitives = Primitives(
    /** `System.Web.HttpUtility.UrlEncode`, applied to the resource before signing. */
    signingUrlEncode: string -> string,
    /** `System.Net.WebUtility.UrlEncode`, applied to the whole header. */
    headerUrlEncode: string -> string,
    /** `System.Net.WebUtility.UrlDecode`, applied to the received header. */
    headerUrlDecode: string -> string,
    /** `Encoding.UTF8.GetBytes`. */
    utf8: string -> seq<Byte>,
    /** HMAC-SHA256 of a message under a key: `hmac(key, message)`. */
    hmac: (seq<Byte>, seq<Byte>) -> seq<Byte>,
    /** `Convert.FromBase64String`; `None` where it throws. */
    fromBase64: string -> Option<seq<Byte>>,
    /** `double.TryParse`, read as an exact number; `None` where it fails. */
    parseNumber: string -> Option<real>)
}
