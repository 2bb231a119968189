/** The detached payload both the holder and the verifier build, and the CBOR codec they share. */
module DeviceAuthentication {
  import opened Prelude
  import opened CborValue

  /** The CBOR library, as the two functions the SDK calls. */
  datatype Codec = Codec(encode: Value -> Bytes, decode: Decoder)

  function EncodeTagged(c: Codec, inner: Bytes): Bytes {
    c.encode(WrapTagged(inner))
  }

  /** Unwrap a `#6.24(bstr)` value and wrap its content again. */
  function Reencode(c: Codec, v: Value): Option<Bytes> {
    match UnwrapTagged(v)
    case Some(inner) => Some(EncodeTagged(c, inner))
    case None => None
  }

  function BuildDeviceAuthentication(c: Codec, transcript: Value, docType: Text, deviceNameSpaces: Bytes): Option<Bytes> {
    match c.decode(deviceNameSpaces)
    case None => None
    case Some(v) =>
      var auth := CborArray([CborText(Lit("DeviceAuthentication")), transcript, CborText(docType), v]);
      Some(EncodeTagged(c, c.encode(auth)))
  }
}
