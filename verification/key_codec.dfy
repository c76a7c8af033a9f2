/** The key transform both disk caches apply before a key reaches the store
    (`hashKeyForDisk`): the hex MD5 digest of the key when the platform has
    MD5 (RFC 1321), otherwise the decimal text of Java's `String.hashCode`. */
module KeyCodec {
  import opened Common
  import Decimal

  /** The platform's message-digest service: `Some(hex)` maps a key to the
      hex text of the MD5 digest of its bytes; `None` is the
      NoSuchAlgorithmException path. */
  type Md5Service = Option<string -> string>

  /** Java's `String.hashCode`: h := 31 * h + c over the characters, in
      32-bit arithmetic. */
  function JavaHashCode(s: string): (h: int)
    ensures IsInt(h)
    ensures |s| == 0 ==> h == 0
  {
    if |s| == 0 then 0
    else Wrap32(31 * JavaHashCode(s[..|s| - 1]) + s[|s| - 1] as int)
  }

  /** The entry id a key is stored under. */
  function HashKeyForDisk(md5: Md5Service, key: string): (id: string)
    ensures md5.Some? ==> id == md5.value(key)
    ensures md5.None? ==> Decimal.ParseLong(id) == Some(JavaHashCode(key))
    ensures md5.None? ==> |id| > 0
  {
    match md5
    case Some(hex) => hex(key)
    case None =>
      Decimal.DecimalRoundTrip(JavaHashCode(key));
      Decimal.ToDecimal(JavaHashCode(key))
  }

  /** Without MD5, two keys share an entry exactly when their Java hash codes
      coincide: the fallback loses nothing beyond the 32-bit hash. */
  lemma FallbackCollidesIffHashCodesEqual(a: string, b: string)
    ensures HashKeyForDisk(None, a) == HashKeyForDisk(None, b)
        <==> JavaHashCode(a) == JavaHashCode(b)
  {
    if HashKeyForDisk(None, a) == HashKeyForDisk(None, b) {
      Decimal.ToDecimalInjective(JavaHashCode(a), JavaHashCode(b));
    }
  }

  /** Appending one character updates the hash code as Java's loop does. */
  lemma HashCodeAppend(s: string, c: char)
    ensures JavaHashCode(s + [c]) == Wrap32(31 * JavaHashCode(s) + c as int)
  {
    assert (s + [c])[..|s + [c]| - 1] == s;
  }
}
