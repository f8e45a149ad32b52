/**
 * The version dispatch of the PostgreSQL type `uuid47` (uuid47_pg.c).  A
 * `uuid47` value is stored as the UUIDv7 itself; what enters the type is
 * either a UUIDv7, kept as it is, or a UUIDv4-looking facade, decoded with
 * the key; anything else is rejected.  What leaves it towards the plain
 * `uuid` type is the facade.
 *
 * The key comes either from the `uuid47.key` setting (`key_from_guc_or_error`)
 * or from a `bytea` argument (`key_from_bytea`).  An `ereport(ERROR, ...)` is a
 * `Failure`.
 */
module Dispatch {
  import opened Wrappers
  import opened Uuid47
  import opened KeyParse

  /** The errors the conversions raise. */
  datatype DispatchError =
    | UnsupportedVersion(version: bv8)
    | BadKey(reason: KeyError)

  /**
   * `uuid47_in` (after PostgreSQL's `uuid_in` has parsed the text),
   * `uuid47_recv` and `uuid_to_uuid47`: a UUIDv7 is kept, a version-4 value is
   * decoded with the key of the setting, which is read only in that case.
   */
  function ToV7WithGucKey(u: Uuid, guc: Option<string>): (r: Result<Uuid, DispatchError>)
    ensures r.Success? <==> Version(u) == 7 || (Version(u) == 4 && KeyFromGuc(guc).Some?)
    ensures r.Success? ==> Version(r.value) == 7
    ensures r.Success? && Version(u) == 7 ==> r.value == u
    ensures r.Success? && Version(u) == 4 ==> IsV7(r.value) && r.value == Decode(u, KeyFromGuc(guc).value)
    ensures r.Failure? && Version(u) != 4 ==> r.error == UnsupportedVersion(Version(u))
    ensures r.Failure? && Version(u) == 4 ==> r.error == BadKey(KeyNotSet)
  {
    var ver := Version(u);
    if ver == 7 then Success(u)
    else if ver == 4 then
      match KeyFromGucOrError(guc)
      case Success(key) => Success(Decode(u, key))
      case Failure(e) => Failure(BadKey(e))
    else Failure(UnsupportedVersion(ver))
  }

  /**
   * `uuid_to_uuid47_with_key`: the key is converted first, so a bad key is
   * reported whatever the version; then the same dispatch.
   */
  function ToV7WithKey(u: Uuid, keyBytes: seq<bv8>): (r: Result<Uuid, DispatchError>)
    ensures r.Success? <==> |keyBytes| == 16 && (Version(u) == 7 || Version(u) == 4)
    ensures |keyBytes| != 16 ==> r == Failure(BadKey(WrongLength(16, |keyBytes|)))
    ensures r.Success? ==> Version(r.value) == 7
    ensures r.Success? && Version(u) == 7 ==> r.value == u
    ensures r.Success? && Version(u) == 4 ==> IsV7(r.value) && r.value == Decode(u, KeyFromBytea(keyBytes).value)
    ensures |keyBytes| == 16 && Version(u) != 7 && Version(u) != 4 ==> r == Failure(UnsupportedVersion(Version(u)))
  {
    match KeyFromBytea(keyBytes)
    case Failure(e) => Failure(BadKey(e))
    case Success(key) =>
      var ver := Version(u);
      if ver == 7 then Success(u)
      else if ver == 4 then Success(Decode(u, key))
      else Failure(UnsupportedVersion(ver))
  }

  /** `uuid47_to_uuid` (and `uuid47_out` before `uuid_out` prints it): the facade under the setting's key. */
  function ToFacadeWithGucKey(v: Uuid, guc: Option<string>): (r: Result<Uuid, DispatchError>)
    ensures r.Success? <==> KeyFromGuc(guc).Some?
    ensures r.Success? ==> IsV4(r.value) && r.value == Encode(v, KeyFromGuc(guc).value)
    ensures r.Failure? ==> r.error == BadKey(KeyNotSet)
  {
    match KeyFromGucOrError(guc)
    case Success(key) => Success(Encode(v, key))
    case Failure(e) => Failure(BadKey(e))
  }

  /** `uuid47_to_uuid_with_key`: the facade under a `bytea` key. */
  function ToFacadeWithKey(v: Uuid, keyBytes: seq<bv8>): (r: Result<Uuid, DispatchError>)
    ensures r.Success? <==> |keyBytes| == 16
    ensures r.Success? ==> IsV4(r.value) && r.value == Encode(v, KeyFromBytea(keyBytes).value)
    ensures r.Failure? ==> r.error == BadKey(WrongLength(16, |keyBytes|))
  {
    match KeyFromBytea(keyBytes)
    case Success(key) => Success(Encode(v, key))
    case Failure(e) => Failure(BadKey(e))
  }

  /** A UUIDv7 sent out as a facade under a key comes back unchanged under the same key. */
  lemma WithKeyRoundTrip(v: Uuid, keyBytes: seq<bv8>)
    requires IsV7(v) && |keyBytes| == 16
    ensures ToV7WithKey(ToFacadeWithKey(v, keyBytes).value, keyBytes) == Success(v)
  {
    DecodeEncode(v, KeyFromBytea(keyBytes).value);
  }

  /** A facade taken in under a key and sent out again under it is the same facade. */
  lemma WithKeyFacadeRoundTrip(w: Uuid, keyBytes: seq<bv8>)
    requires IsV4(w) && |keyBytes| == 16
    ensures ToFacadeWithKey(ToV7WithKey(w, keyBytes).value, keyBytes) == Success(w)
  {
    EncodeDecode(w, KeyFromBytea(keyBytes).value);
  }

  /** The same two round trips under the key of the setting, whenever it is valid. */
  lemma GucKeyRoundTrip(v: Uuid, w: Uuid, guc: Option<string>)
    requires KeyFromGuc(guc).Some?
    ensures IsV7(v) ==> ToV7WithGucKey(ToFacadeWithGucKey(v, guc).value, guc) == Success(v)
    ensures IsV4(w) ==> ToFacadeWithGucKey(ToV7WithGucKey(w, guc).value, guc) == Success(w)
  {
    var key := KeyFromGuc(guc).value;
    if IsV7(v) {
      DecodeEncode(v, key);
    }
    if IsV4(w) {
      EncodeDecode(w, key);
    }
  }

  /**
   * Only the version nibble is checked on the way in: a version-7 value with
   * other variant bits is accepted, and its round trip through the facade
   * comes back with the variant bits `10`, so not as it went out.
   */
  lemma VariantNotChecked(v: Uuid, keyBytes: seq<bv8>)
    requires Version(v) == 7 && !HasRfcVariant(v) && |keyBytes| == 16
    ensures ToV7WithKey(v, keyBytes) == Success(v)
    ensures ToV7WithKey(ToFacadeWithKey(v, keyBytes).value, keyBytes) != Success(v)
  {
  }
}
