/** Message-Authenticator and Response Authenticator: what is signed, and what the receiver
    recomputes.  MD5 and HMAC-MD5 are parameters. */
module Signing {
  import opened Wrappers
  import opened Bytes
  import opened OrderedMaps
  import opened Dictionaries
  import opened Wire
  import opened Trees
  import opened Decoding
  import opened Encoding
  import opened Overlay

  type Hmac = (bytes, bytes) -> bytes
  type Md5 = bytes -> bytes

  ghost predicate SixteenOctets(hmac: Hmac, md5: Md5) {
    (forall k, m :: |hmac(k, m)| == 16) && (forall m :: |md5(m)| == 16)
  }

  const ACCESS_REQUEST: byte := 1
  const ACCESS_ACCEPT: byte := 2
  const ACCESS_REJECT: byte := 3
  const ACCOUNTING_REQUEST: byte := 4
  const ACCOUNTING_RESPONSE: byte := 5
  const ACCESS_CHALLENGE: byte := 11
  const STATUS_SERVER: byte := 12
  const DISCONNECT_REQUEST: byte := 40
  const COA_REQUEST: byte := 43

  const ZEROS: bytes := [0, 0, 0, 0, 0, 0, 0, 0, 0, 0, 0, 0, 0, 0, 0, 0]
  const MA := Plain(80)

  // --- Storing the digest -------------------------------------------------------------------

  /** The ASCII octets "0x". */
  predicate HexPrefixed(v: bytes) {
    |v| >= 2 && v[0] == 0x30 && v[1] == 0x78
  }

  /** What follows the prefix, up to a second "0x" if there is one. */
  function HexBody(v: bytes): bytes {
    if v == [] || HexPrefixed(v) then [] else [v[0]] + HexBody(v[1..])
  }

  function HexDigit(b: byte): Option<byte> {
    if 0x30 <= b <= 0x39 then Some(b - 0x30)
    else if 0x41 <= b <= 0x46 then Some(b - 0x41 + 10)
    else if 0x61 <= b <= 0x66 then Some(b - 0x61 + 10)
    else None
  }

  function Unhexlify(v: bytes): (r: Result<bytes>)
    ensures r.Ok? ==> 2 * |r.value| == |v|
  {
    if v == [] then Ok([])
    else if |v| == 1 || HexDigit(v[0]).None? || HexDigit(v[1]).None? then Err
    else
      var rest :- Unhexlify(v[2..]);
      Ok([HexDigit(v[0]).value * 16 + HexDigit(v[1]).value] + rest)
  }

  /** Assigning octets to an `octets` attribute: a value that looks like a hex literal is taken
      for one. */
  function EncodeOctets(v: bytes): Result<bytes> {
    if HexPrefixed(v) then
      var r :- Unhexlify(HexBody(v[2..]));
      if |r| > 253 then Err else Ok(r)
    else Ok(v)
  }

  lemma {:induction false} HexBodyShort(v: bytes)
    ensures |HexBody(v)| <= |v|
  {
    if v != [] && !HexPrefixed(v) { HexBodyShort(v[1..]); }
  }

  // --- The signer ---------------------------------------------------------------------------

  function WithMa(store: Store, v: bytes): Store {
    Put(store, MA, Values([v]))
  }

  function Prefix(code: byte, id: byte, attributes: bytes): (r: bytes)
    requires |attributes| <= 65515
    ensures |r| == 4
  {
    SmallPowers();
    [code, id] + BigEndian(20 + |attributes|, 2)
  }

  /** The sixteen octets the signer puts in the authenticator's place.  `original` is the code
      of the request a reply answers. */
  function SignerAuthenticator(code: byte, original: Option<byte>, authenticator: bytes): bytes {
    if code in {ACCOUNTING_REQUEST, DISCONNECT_REQUEST, COA_REQUEST} then ZEROS
    else if code == ACCOUNTING_RESPONSE && original != Some(STATUS_SERVER) then ZEROS
    else authenticator
  }

  /** `_refresh_message_authenticator`: the store with a fresh digest.  `side` holds the set-aside
      values as they are obfuscated for this serialization. */
  function Refresh(d: Dictionary, hmac: Hmac, code: byte, id: byte, original: Option<byte>, secret: bytes,
                   authenticator: bytes, store: Store, side: Sidecar): Result<Store>
  {
    var attributes :- EncodeWith(d, WithMa(store, ZEROS), side);
    if |attributes| > 65515 then Err
    else
      var signed := Prefix(code, id, attributes) + SignerAuthenticator(code, original, authenticator) + attributes;
      var stored :- EncodeOctets(hmac(secret, signed));
      Ok(WithMa(store, stored))
  }

  datatype Sent = Sent(raw: bytes, store: Store)

  /** `_encode_v10_request_with_random_authenticator` once the digest, if there is one, is stored. */
  function PlainRequest(d: Dictionary, code: byte, id: byte, authenticator: bytes, store: Store, side: Sidecar):
      Result<Sent>
    requires |authenticator| == 16
  {
    var attributes :- EncodeWith(d, store, side);
    if |attributes| > 65515 then Err
    else Ok(Sent(Header(code, id, authenticator, attributes) + attributes, store))
  }

  /** `_encode_v10_request_with_random_authenticator` with Message-Authenticator.  The attributes
      are serialized twice, and the set-aside values obfuscated anew each time: as `first` when the
      packet is signed, as `second` when it is sent. */
  function SignedRequest(d: Dictionary, hmac: Hmac, code: byte, id: byte, secret: bytes, authenticator: bytes,
                         store: Store, first: Sidecar, second: Sidecar): Result<Sent>
    requires |authenticator| == 16
  {
    var signed :- Refresh(d, hmac, code, id, None, secret, authenticator, store, first);
    PlainRequest(d, code, id, authenticator, signed, second)
  }

  /** `reply_packet` once the digest, if there is one, is stored; `authenticator` is the request's. */
  function PlainReply(d: Dictionary, md5: Md5, code: byte, id: byte, secret: bytes, authenticator: bytes,
                      store: Store, side: Sidecar): Result<Sent>
    requires |authenticator| == 16 && forall m :: |md5(m)| == 16
  {
    var attributes :- EncodeWith(d, store, side);
    if |attributes| > 65515 then Err
    else
      var response := md5(Prefix(code, id, attributes) + authenticator + attributes + secret);
      Ok(Sent(Header(code, id, response, attributes) + attributes, store))
  }

  /** `reply_packet` with Message-Authenticator. */
  function SignedReply(d: Dictionary, hmac: Hmac, md5: Md5, code: byte, id: byte, original: byte, secret: bytes,
                       authenticator: bytes, store: Store, first: Sidecar, second: Sidecar): Result<Sent>
    requires |authenticator| == 16 && forall m :: |md5(m)| == 16
  {
    var signed :- Refresh(d, hmac, code, id, Some(original), secret, authenticator, store, first);
    PlainReply(d, md5, code, id, secret, authenticator, signed, second)
  }

  // --- The verifier -------------------------------------------------------------------------

  /** The strict framing of `_zero_message_authenticator`: no length may pass the end. */
  function StrictFrames(data: bytes): (r: Result<seq<Avp>>)
    ensures r.Ok? ==> AllFit(r.value)
    decreases |data|
  {
    if data == [] then Ok([])
    else if |data| < 2 || data[1] < 2 || data[1] > |data| then Err
    else
      var rest :- StrictFrames(data[data[1]..]);
      Ok([Avp(data[0], data[2..data[1]])] + rest)
  }

  function Count80(avps: seq<Avp>): nat {
    if avps == [] then 0 else (if avps[0].key == 80 then 1 else 0) + Count80(avps[1..])
  }

  function Zeroed(a: Avp): Avp {
    if a.key == 80 then Avp(80, ZEROS) else a
  }

  function ZeroAvps(avps: seq<Avp>): (r: seq<Avp>)
    ensures |r| == |avps|
    ensures AllFit(avps) ==> AllFit(r)
  {
    seq(|avps|, i requires 0 <= i < |avps| => Zeroed(avps[i]))
  }

  /** Succeeds only with exactly one code-80 attribute, of sixteen octets. */
  function ZeroMessageAuthenticator(attributes: bytes): Result<bytes> {
    var avps :- StrictFrames(attributes);
    if Count80(avps) == 1 && forall i :: 0 <= i < |avps| && avps[i].key == 80 ==> |avps[i].value| == 16
    then Ok(Flatten(ZeroAvps(avps)))
    else Err
  }

  /** What the verifier puts in the authenticator's place; `own` is the authenticator of the packet
      being checked.  None is the missing authenticator. */
  function VerifierAuthenticator(code: byte, own: Option<bytes>, original: Option<byte>,
                                 originalAuthenticator: Option<bytes>): (r: Option<bytes>)
    ensures own.Some? && own.value != [] ==> r.Some?
  {
    var given := if originalAuthenticator.Some? || own == Some([]) then originalAuthenticator else own;
    if code in {ACCOUNTING_REQUEST, DISCONNECT_REQUEST, COA_REQUEST} then Some(ZEROS)
    else if code == ACCOUNTING_RESPONSE then (if original == Some(STATUS_SERVER) then given else Some(ZEROS))
    else if code in {ACCESS_ACCEPT, ACCESS_CHALLENGE, ACCESS_REJECT} then given
    else own
  }

  /** The attributes under the digest: the received octets with the digest zeroed, or, for a packet
      that was not received, the packet serialized with a zero digest. */
  function DigestedAttributes(d: Dictionary, raw: bytes, store: Store, side: Sidecar): Result<bytes> {
    if raw != [] then ZeroMessageAuthenticator(if |raw| >= 20 then raw[20..] else [])
    else EncodeWith(d, WithMa(store, ZEROS), side)
  }

  /** `verify_message_authenticator` on a packet that was decoded from `raw`, or never received if
      `raw` is empty.  The digest found is assigned back to the attribute before it is compared,
      which can fail too. */
  function VerifyMa(d: Dictionary, hmac: Hmac, raw: bytes, m: Message, side: Sidecar, secret: bytes,
                    original: Option<byte>, originalAuthenticator: Option<bytes>): Result<bool>
  {
    var found := AsValues(Find(m.state.store, MA));
    var authenticator := VerifierAuthenticator(m.code, m.authenticator, original, originalAuthenticator);
    if !m.state.hasMessageAuthenticator || found == [] || authenticator.None? then Err
    else
      var attributes :- DigestedAttributes(d, raw, m.state.store, side);
      if |attributes| > 65515 then Err
      else
        var _ :- EncodeOctets(found[0]);
        Ok(found[0] == hmac(secret, Prefix(m.code, m.id, attributes) + authenticator.value + attributes))
  }

  /** The store when `verify_message_authenticator` has returned or raised.  A packet that was not
      received is left with a zero digest by an exception on the way. */
  function StoreAfter(raw: bytes, m: Message, verdict: Result<bool>): Store {
    var store := m.state.store;
    var found := AsValues(Find(store, MA));
    if verdict.Ok? && found != [] && EncodeOctets(found[0]).Ok? then WithMa(store, EncodeOctets(found[0]).value)
    else if raw == [] && m.state.hasMessageAuthenticator && Has(store, MA) then WithMa(store, ZEROS)
    else store
  }

  /** Decoding a v1.0 packet and checking its Message-Authenticator; false on any exception. */
  function Accepts(d: Dictionary, hmac: Hmac, raw: bytes, secret: bytes, original: Option<byte>,
                   originalAuthenticator: Option<bytes>): bool
  {
    var m := DecodeMessage(d, false, raw);
    m.Ok? && VerifyMa(d, hmac, raw, m.value, [], secret, original, originalAuthenticator) == Ok(true)
  }

  /** `has_message_authenticator`. */
  predicate CarriesDigest(m: Message) {
    m.state.hasMessageAuthenticator || Has(m.state.store, MA)
  }

  /** `verify_reply` in the v1.0 profile, on a reply decoded from `raw`; Err is an exception. */
  function VerifyReply(d: Dictionary, hmac: Hmac, md5: Md5, raw: bytes, reply: Message, id: byte, secret: bytes,
                       requestCode: byte, requestAuthenticator: bytes, enforceMa: bool): Result<bool>
    requires |raw| >= 20
  {
    if reply.id != id then Ok(false)
    else if EncodeStore(d, reply.state.store).Err? then Err
    else if md5(raw[0..4] + requestAuthenticator + raw[20..] + secret) != raw[4..20] then Ok(false)
    else if CarriesDigest(reply) then
      Ok(VerifyMa(d, hmac, raw, reply, [], secret, Some(requestCode), Some(requestAuthenticator)) == Ok(true))
    else Ok(!(enforceMa && requestCode == ACCESS_REQUEST))
  }

  /** Decoding a reply under one dictionary, and `verify_reply` under that of the packet it answers. */
  function AcceptsReply(e: Dictionary, own: Dictionary, hmac: Hmac, md5: Md5, raw: bytes, id: byte, secret: bytes,
                        requestCode: byte, requestAuthenticator: bytes, enforceMa: bool): bool
  {
    var m := DecodeMessage(e, false, raw);
    m.Ok?
    && VerifyReply(own, hmac, md5, raw, m.value, id, secret, requestCode, requestAuthenticator, enforceMa) == Ok(true)
  }
}
