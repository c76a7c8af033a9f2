/** The kinds of value the caches hold, and the platform services that turn
    them into bytes and back. Bitmaps, drawables, JSON documents and Java
    serialisation belong to the platform; they appear here only as opaque
    handles and as functions supplied by the caller. */
module Values {
  import opened Common
  import KeyCodec

  newtype byte = x: int | 0 <= x < 256
  type Bytes = seq<byte>

  datatype Bitmap = Bitmap(handle: nat)
  /** `new BitmapDrawable(bm)` wraps a bitmap; other drawables are opaque. */
  datatype Drawable = BitmapDrawable(bitmap: Bitmap) | OtherDrawable(handle: nat)
  datatype JsonObject = JsonObject(handle: nat)
  datatype JsonArray = JsonArray(handle: nat)

  /** A value handed to the coordinator, by the run-time type the Java code
      dispatches on (`instanceof`). `Other` is any further object, which the
      disk tier can only store through Java serialisation. */
  datatype Value =
    | Text(text: string)
    | JsonObj(obj: JsonObject)
    | JsonArr(arr: JsonArray)
    | Binary(bytes: Bytes)
    | Image(bitmap: Bitmap)
    | Picture(drawable: Drawable)
    | Other(handle: nat)

  /** The platform's encoders and decoders.
      - `encodeText`/`decodeText`: a string written through a Writer and
        read back through a UTF-8 Reader;
      - `jsonObjectText`/`parseJsonObject` and the array pair: `toString()`
        and the parsing constructor (None: JSONException);
      - `compressPng`/`decodeBitmap`: PNG compression and
        `BitmapFactory.decodeByteArray` (None: undecodable);
      - `drawableToBitmap`: drawing a drawable onto a fresh bitmap;
      - `serialize`/`deserialize`: `ObjectOutputStream.writeObject` (None:
        NotSerializableException) and `ObjectInputStream.readObject`;
      - `base64`: `Base64.encodeToString`. */
  datatype Platform = Platform(
    md5: KeyCodec.Md5Service,
    encodeText: string -> Bytes,
    decodeText: Bytes -> string,
    jsonObjectText: JsonObject -> string,
    parseJsonObject: string -> Option<JsonObject>,
    jsonArrayText: JsonArray -> string,
    parseJsonArray: string -> Option<JsonArray>,
    compressPng: Bitmap -> Bytes,
    decodeBitmap: Bytes -> Option<Bitmap>,
    drawableToBitmap: Drawable -> Bitmap,
    serialize: Value -> Option<Bytes>,
    deserialize: Bytes -> Option<Value>,
    base64: Bytes -> string)

  /** Text survives the write/read pair of the platform's charsets. */
  ghost predicate TextRoundTrips(p: Platform) {
    forall s :: p.decodeText(p.encodeText(s)) == s
  }

  /** What Java serialisation writes, it reads back. */
  ghost predicate SerialisationRoundTrips(p: Platform) {
    forall v :: p.serialize(v).Some? ==> p.deserialize(p.serialize(v).value) == Some(v)
  }

  /** A JSON object's text parses back to the same object. */
  ghost predicate JsonObjectRoundTrips(p: Platform) {
    forall o :: p.parseJsonObject(p.jsonObjectText(o)) == Some(o)
  }

  /** A JSON array's text parses back to the same array. */
  ghost predicate JsonArrayRoundTrips(p: Platform) {
    forall a :: p.parseJsonArray(p.jsonArrayText(a)) == Some(a)
  }

  /** PNG compression yields bytes that decode back to the same bitmap. */
  ghost predicate ImagesRoundTrip(p: Platform) {
    forall bm :: |p.compressPng(bm)| > 0 && p.decodeBitmap(p.compressPng(bm)) == Some(bm)
  }
}
