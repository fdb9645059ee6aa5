/** What the signer produces, the verifier accepts. */
module SigningTheorems {
  import opened Wrappers
  import opened Bytes
  import opened OrderedMaps
  import opened Dictionaries
  import opened Wire
  import opened Trees
  import opened Decoding
  import opened Encoding
  import opened CodecTheorems
  import opened Overlay
  import opened Signing
  import opened SigningWire
  import opened Reception

  // --- One packet ---------------------------------------------------------------------------

  /** What the signer's HMAC covers. */
  function SignedOctets(d: Dictionary, code: byte, id: byte, original: Option<byte>, authenticator: bytes,
                        store: Store, side: Sidecar): bytes
    requires Zeroable(d, store, side)
  {
    var attributes := ZeroedWire(d, store, side);
    Prefix(code, id, attributes) + SignerAuthenticator(code, original, authenticator) + attributes
  }

  /** What the verifier's HMAC covers. */
  function VerifiedOctets(code: byte, id: byte, own: bytes, original: Option<byte>,
                          originalAuthenticator: Option<bytes>, attributes: bytes): bytes
    requires |attributes| <= 65515 && |own| == 16
  {
    Prefix(code, id, attributes) + VerifierAuthenticator(code, Some(own), original, originalAuthenticator).value
    + attributes
  }

  /** A digest that looks like a hex literal is stored as at most seven octets. */
  lemma HexDigestShort(digest: bytes)
    requires |digest| == 16 && HexPrefixed(digest)
    ensures EncodeOctets(digest).Ok? ==> |EncodeOctets(digest).value| <= 7
  {
    HexBodyShort(digest[2..]);
  }

  /** What decides the verdict on a received packet that carries a digest. */
  lemma VerdictIs(e: Dictionary, hmac: Hmac, raw: bytes, m: Message, secret: bytes, original: Option<byte>,
                  originalAuthenticator: Option<bytes>)
    requires |raw| >= 20 && m.state.hasMessageAuthenticator
    requires m.authenticator.Some? && |m.authenticator.value| == 16
    ensures var found, zeroed := AsValues(Find(m.state.store, MA)), ZeroMessageAuthenticator(raw[20..]);
            VerifyMa(e, hmac, raw, m, [], secret, original, originalAuthenticator) == Ok(true) <==>
            (found != [] && zeroed.Ok? && |zeroed.value| <= 65515 && EncodeOctets(found[0]).Ok?
             && found[0] == hmac(secret, VerifiedOctets(m.code, m.id, m.authenticator.value, original,
                                                         originalAuthenticator, zeroed.value)))
  {
  }

  /** Any octets around a code-80 value are accepted exactly when this is the only code-80 attribute,
      whole on the wire and in the receiver's dictionary, no hex literal that cannot be stored, and
      the digest the verifier recomputes. */
  lemma AcceptsExactly(e: Dictionary, hmac: Hmac, before: seq<Avp>, v: bytes, after: seq<Avp>, code: byte, id: byte,
                       own: bytes, secret: bytes, original: Option<byte>, originalAuthenticator: Option<bytes>)
    requires (forall k, m :: |hmac(k, m)| == 16) && AllFit(before) && AllFit(after) && |v| <= 16 && |own| == 16
    requires 20 + |Around(before, v, after)| <= 8192
    ensures |Around(before, ZEROS, after)| <= 65515
    ensures var attributes := Around(before, v, after);
            var raw := Header(code, id, own, attributes) + attributes;
            Accepts(e, hmac, raw, secret, original, originalAuthenticator) <==>
            (|v| == 16 && No80(before) && No80(after) && DigestWhole(e) && EncodeOctets(v).Ok?
             && v == hmac(secret, VerifiedOctets(code, id, own, original, originalAuthenticator,
                                                 Around(before, ZEROS, after))))
  {
    var avps := before + [Avp(80, v)] + after;
    SizesAround(before, v, after);
    PacketDecodes(e, code, id, own, avps);
    ZeroesExactly(before, v, after);
    SomeDigest(before, v, after);
    var raw := Header(code, id, own, Flatten(avps)) + Flatten(avps);
    VerdictIs(e, hmac, raw, DecodeMessage(e, false, raw).value, secret, original, originalAuthenticator);
    if |v| == 16 && No80(before) && No80(after) {
      ZeroingRestores(before, v, after);
      DigestFound(e, before, v, after);
      FinishedDigest(e, v);
    }
  }

  lemma SizesAround(before: seq<Avp>, v: bytes, after: seq<Avp>)
    requires AllFit(before) && AllFit(after) && |v| <= 16
    ensures |Around(before, ZEROS, after)| == |Around(before, v, after)| + 16 - |v|
  {
    FlattenSize(before + [Avp(80, v)] + after);
    FlattenSize(before + [Avp(80, ZEROS)] + after);
    SizeAround(before, Avp(80, v), after);
    SizeAround(before, Avp(80, ZEROS), after);
  }

  /** A signed packet on the wire, with what the assignment made of its digest. */
  lemma SentAround(d: Dictionary, store: Store, v: bytes, side: Sidecar)
    returns (before: seq<Avp>, after: seq<Avp>, attributes: bytes)
    requires Signable(d, store, side) && |v| <= 16
    ensures AllFit(before) && AllFit(after) && attributes == Around(before, v, after)
    ensures EncodeWith(d, WithMa(store, v), side) == Ok(attributes)
    ensures ZeroedWire(d, store, side) == Around(before, ZEROS, after)
    ensures |attributes| + 16 - |v| == |ZeroedWire(d, store, side)|
    ensures OneDigest(d, store, side) <==> No80(before) && No80(after)
  {
    OneDigestExactly(d, store, side);
    WireAround(d, store, v, side);
    before, after := StoreAvps(d, SentAhead(d, store, side)), StoreAvps(d, SentBehind(d, store, side));
    attributes := Around(before, v, after);
    SizesAround(before, v, after);
  }

  // --- Requests -----------------------------------------------------------------------------

  /** A packet signed with `digest` is accepted exactly when the digest does not look like a hex literal,
      is alone and whole, and is what the verifier recomputes. */
  lemma SignedAccepted(d: Dictionary, e: Dictionary, hmac: Hmac, store: Store, side: Sidecar, digest: bytes, code: byte,
                       id: byte, own: bytes, secret: bytes, original: Option<byte>,
                       originalAuthenticator: Option<bytes>)
    requires (forall k, m :: |hmac(k, m)| == 16) && Signable(d, store, side) && |digest| == |own| == 16
    requires EncodeOctets(digest).Ok?
    ensures var encoded := EncodeWith(d, WithMa(store, EncodeOctets(digest).value), side);
            && encoded.Ok? && |encoded.value| <= 65515
            && (Accepts(e, hmac, Header(code, id, own, encoded.value) + encoded.value, secret, original,
                        originalAuthenticator) <==>
                (!HexPrefixed(digest) && OneDigest(d, store, side) && DigestWhole(e)
                 && digest == hmac(secret, VerifiedOctets(code, id, own, original, originalAuthenticator,
                                                          ZeroedWire(d, store, side)))))
  {
    if HexPrefixed(digest) { HexDigestShort(digest); }
    var v := EncodeOctets(digest).value;
    var before, after, attributes := SentAround(d, store, v, side);
    AcceptsExactly(e, hmac, before, v, after, code, id, own, secret, original, originalAuthenticator);
  }

  /** A signed request is accepted by a receiver, whatever its code and the receiver's dictionary,
      exactly when its digest does not look like a hex literal, is the only code-80 attribute, is not
      cut by the receiver's array pass, and is also the digest of the second serialization. */
  lemma RequestExactly(d: Dictionary, e: Dictionary, hmac: Hmac, md5: Md5, code: byte, id: byte, secret: bytes,
                       authenticator: bytes, store: Store, first: Sidecar, second: Sidecar)
    requires SixteenOctets(hmac, md5) && |authenticator| == 16
    requires Zeroable(d, store, first) && Signable(d, store, second)
    ensures var digest := hmac(secret, SignedOctets(d, code, id, None, authenticator, store, first));
            var sent := SignedRequest(d, hmac, code, id, secret, authenticator, store, first, second);
            (sent.Ok? && Accepts(e, hmac, sent.value.raw, secret, None, None)) <==>
            (!HexPrefixed(digest) && OneDigest(d, store, second) && DigestWhole(e)
             && digest == hmac(secret, SignedOctets(d, code, id, None, authenticator, store, second)))
  {
    var digest := hmac(secret, SignedOctets(d, code, id, None, authenticator, store, first));
    SignedRequestIs(d, hmac, code, id, secret, authenticator, store, first, second);
    SameChoice(code, authenticator);
    if EncodeOctets(digest).Ok? {
      SignedAccepted(d, e, hmac, store, second, digest, code, id, authenticator, secret, None, None);
    }
  }

  lemma SignedRequestIs(d: Dictionary, hmac: Hmac, code: byte, id: byte, secret: bytes,
                        authenticator: bytes, store: Store, first: Sidecar, second: Sidecar)
    requires |authenticator| == 16 && Zeroable(d, store, first)
    ensures SignedRequest(d, hmac, code, id, secret, authenticator, store, first, second) ==
            var v := EncodeOctets(hmac(secret, SignedOctets(d, code, id, None, authenticator, store, first)));
            if v.Err? then Err else PlainRequest(d, code, id, authenticator, WithMa(store, v.value), second)
  {
  }

  /** For a request the two sides choose alike, whatever the code. */
  lemma SameChoice(code: byte, authenticator: bytes)
    requires |authenticator| == 16
    ensures VerifierAuthenticator(code, Some(authenticator), None, None) ==
            Some(SignerAuthenticator(code, None, authenticator))
  {
  }

  /** When the set-aside values come out the same at both serializations, as under a fixed
      authenticator all but the salted ones do: any receiver accepts exactly the digests that do not
      look like a hex literal, if there is one digest and the receiver's dictionary keeps it whole. */
  lemma RequestVerifies(d: Dictionary, e: Dictionary, hmac: Hmac, md5: Md5, code: byte, id: byte, secret: bytes,
                        authenticator: bytes, store: Store, side: Sidecar)
    requires SixteenOctets(hmac, md5) && |authenticator| == 16 && Signable(d, store, side)
    ensures var digest := hmac(secret, SignedOctets(d, code, id, None, authenticator, store, side));
            var sent := SignedRequest(d, hmac, code, id, secret, authenticator, store, side, side);
            (sent.Ok? && Accepts(e, hmac, sent.value.raw, secret, None, None)) <==>
            (!HexPrefixed(digest) && OneDigest(d, store, side) && DigestWhole(e))
  {
    RequestExactly(d, e, hmac, md5, code, id, secret, authenticator, store, side, side);
  }

  ghost predicate RequestAlwaysAccepted(d: Dictionary, e: Dictionary, code: byte, id: byte, secret: bytes,
                                        authenticator: bytes, store: Store, first: Sidecar, second: Sidecar)
    requires |authenticator| == 16 && Zeroable(d, store, first)
  {
    forall hmac: Hmac, md5: Md5 ::
      SixteenOctets(hmac, md5)
      && !HexPrefixed(hmac(secret, SignedOctets(d, code, id, None, authenticator, store, first))) ==>
      var sent := SignedRequest(d, hmac, code, id, secret, authenticator, store, first, second);
      sent.Ok? && Accepts(e, hmac, sent.value.raw, secret, None, None)
  }

  /** Different attributes, or different authenticators, mean different octets under the digest. */
  lemma OctetsTell(code: byte, id: byte, a: bytes, b: bytes, zeroed: bytes, other: bytes)
    requires |a| == |b| == 16 && |zeroed| <= 65515 && |other| <= 65515
    requires a != b || zeroed != other
    ensures Prefix(code, id, zeroed) + a + zeroed != Prefix(code, id, other) + b + other
  {
    var x, y := Prefix(code, id, zeroed) + a + zeroed, Prefix(code, id, other) + b + other;
    assert x[4..20] == a && y[4..20] == b && x[20..] == zeroed && y[20..] == other;
  }

  /** A hash function that gives `octets` a digest of its own. */
  lemma TellingHash(octets: bytes) returns (hmac: Hmac)
    ensures forall k, m :: |hmac(k, m)| == 16 && !HexPrefixed(hmac(k, m))
    ensures forall k, m :: m != octets ==> hmac(k, m) != hmac(k, octets)
  {
    var ones: bytes := seq(16, i => 1);
    assert ones[0] != ZEROS[0];
    hmac := (k, m) => if m == octets then ZEROS else ones;
  }

  /** Redrawn values break the signature: a request is accepted whatever the hash function exactly when
      its two serializations give the same attributes, with one digest that the receiver keeps whole. */
  lemma RedrawnExactly(d: Dictionary, e: Dictionary, code: byte, id: byte, secret: bytes, authenticator: bytes,
                       store: Store, first: Sidecar, second: Sidecar)
    requires |authenticator| == 16 && Zeroable(d, store, first) && Signable(d, store, second)
    ensures RequestAlwaysAccepted(d, e, code, id, secret, authenticator, store, first, second) <==>
            (ZeroedWire(d, store, first) == ZeroedWire(d, store, second) && OneDigest(d, store, second)
             && DigestWhole(e))
  {
    var signed := SignedOctets(d, code, id, None, authenticator, store, first);
    if ZeroedWire(d, store, first) == ZeroedWire(d, store, second) && OneDigest(d, store, second) && DigestWhole(e) {
      forall hmac: Hmac, md5: Md5 | SixteenOctets(hmac, md5) && !HexPrefixed(hmac(secret, signed))
        ensures var sent := SignedRequest(d, hmac, code, id, secret, authenticator, store, first, second);
                sent.Ok? && Accepts(e, hmac, sent.value.raw, secret, None, None)
      {
        RequestExactly(d, e, hmac, md5, code, id, secret, authenticator, store, first, second);
      }
    } else {
      var hmac, md5 := RedrawnRefused(d, e, code, id, secret, authenticator, store, first, second);
    }
  }

  lemma RedrawnRefused(d: Dictionary, e: Dictionary, code: byte, id: byte, secret: bytes, authenticator: bytes,
                       store: Store, first: Sidecar, second: Sidecar) returns (hmac: Hmac, md5: Md5)
    requires |authenticator| == 16 && Zeroable(d, store, first) && Signable(d, store, second)
    requires !(ZeroedWire(d, store, first) == ZeroedWire(d, store, second) && OneDigest(d, store, second)
               && DigestWhole(e))
    ensures SixteenOctets(hmac, md5)
    ensures !HexPrefixed(hmac(secret, SignedOctets(d, code, id, None, authenticator, store, first)))
    ensures var sent := SignedRequest(d, hmac, code, id, secret, authenticator, store, first, second);
            !(sent.Ok? && Accepts(e, hmac, sent.value.raw, secret, None, None))
  {
    if ZeroedWire(d, store, first) != ZeroedWire(d, store, second) {
      SignedTell(d, code, id, authenticator, store, first, second);
    }
    hmac := TellingHash(SignedOctets(d, code, id, None, authenticator, store, first));
    md5 := ConstantHash(ZEROS);
    RequestExactly(d, e, hmac, md5, code, id, secret, authenticator, store, first, second);
  }

  lemma SignedTell(d: Dictionary, code: byte, id: byte, authenticator: bytes, store: Store,
                   first: Sidecar, second: Sidecar)
    requires |authenticator| == 16 && Zeroable(d, store, first) && Zeroable(d, store, second)
    requires ZeroedWire(d, store, first) != ZeroedWire(d, store, second)
    ensures SignedOctets(d, code, id, None, authenticator, store, first) !=
            SignedOctets(d, code, id, None, authenticator, store, second)
  {
    var a := SignerAuthenticator(code, None, authenticator);
    var x, y := ZeroedWire(d, store, first), ZeroedWire(d, store, second);
    OctetsTell(code, id, a, a, x, y);
  }

  /** A packet that was just signed and not sent verifies itself, set-aside values and all, exactly
      when its digest does not look like a hex literal. */
  lemma SelfVerifies(d: Dictionary, hmac: Hmac, md5: Md5, m: Message, original: Option<byte>, secret: bytes,
                     store: Store, side: Sidecar)
    requires SixteenOctets(hmac, md5) && m.authenticator.Some? && |m.authenticator.value| == 16
    requires Zeroable(d, store, side) && m.state.hasMessageAuthenticator
    ensures var signed := Refresh(d, hmac, m.code, m.id, original, secret, m.authenticator.value, store, side);
            var digest := hmac(secret, SignedOctets(d, m.code, m.id, original, m.authenticator.value, store, side));
            (signed.Ok? && VerifyMa(d, hmac, [], m.(state := m.state.(store := signed.value)), side, secret, original,
                                    None) == Ok(true)) <==> !HexPrefixed(digest)
  {
    var digest := hmac(secret, SignedOctets(d, m.code, m.id, original, m.authenticator.value, store, side));
    if EncodeOctets(digest).Ok? {
      var stored := EncodeOctets(digest).value;
      StoredVerifies(d, hmac, m.(state := m.state.(store := WithMa(store, stored))), original, secret, store, side,
                     stored);
      if HexPrefixed(digest) { HexDigestShort(digest); }
    }
  }

  /** A packet that was not received verifies exactly when it holds the digest the signer computes. */
  lemma StoredVerifies(d: Dictionary, hmac: Hmac, m: Message, original: Option<byte>, secret: bytes,
                       store: Store, side: Sidecar, stored: bytes)
    requires m.authenticator.Some? && |m.authenticator.value| == 16 && m.state.hasMessageAuthenticator
    requires Zeroable(d, store, side) && m.state.store == WithMa(store, stored)
    ensures VerifyMa(d, hmac, [], m, side, secret, original, None) == Ok(true) <==>
            (EncodeOctets(stored).Ok?
             && stored == hmac(secret, SignedOctets(d, m.code, m.id, original, m.authenticator.value, store, side)))
  {
    FindPut(store, MA, Values([stored]), MA);
    PutTwice(store, MA, Values([stored]), Values([ZEROS]));
  }

  // --- Replies ------------------------------------------------------------------------------

  /** The reply codes for which signer and verifier agree on the authenticator. */
  predicate AgreedCode(code: byte) {
    code in {ACCESS_ACCEPT, ACCESS_REJECT, ACCESS_CHALLENGE, ACCOUNTING_RESPONSE,
             ACCOUNTING_REQUEST, DISCONNECT_REQUEST, COA_REQUEST}
  }

  /** A reply as `reply_packet` is asked for it: the packet, the code and authenticator of the
      request, and the set-aside values as each serialization obfuscates them. */
  datatype Answer = Answer(code: byte, id: byte, original: byte, secret: bytes, authenticator: bytes, store: Store,
                           first: Sidecar, second: Sidecar)

  predicate Answerable(d: Dictionary, a: Answer) {
    |a.authenticator| == 16 && Zeroable(d, a.store, a.first) && Signable(d, a.store, a.second)
  }

  /** Who checks a reply: it is decoded under one dictionary and encoded again under that of the packet
      it answers. */
  datatype Reader = Reader(decoding: Dictionary, own: Dictionary, enforceMa: bool)

  function DigestOf(d: Dictionary, hmac: Hmac, a: Answer): bytes
    requires Answerable(d, a)
  {
    hmac(a.secret, SignedOctets(d, a.code, a.id, Some(a.original), a.authenticator, a.store, a.first))
  }

  ghost predicate ReplyAccepted(d: Dictionary, r: Reader, hmac: Hmac, md5: Md5, a: Answer)
    requires |a.authenticator| == 16
  {
    SixteenOctets(hmac, md5)
    && var sent := SignedReply(d, hmac, md5, a.code, a.id, a.original, a.secret, a.authenticator, a.store, a.first,
                               a.second);
       sent.Ok? && AcceptsReply(r.decoding, r.own, hmac, md5, sent.value.raw, a.id, a.secret, a.original,
                                a.authenticator, r.enforceMa)
  }

  /** The attributes as they travel, with the digest zeroed. */
  function AnswerWire(d: Dictionary, a: Answer): (r: bytes)
    requires Answerable(d, a)
    ensures |r| <= 8172
  {
    ZeroedWire(d, a.store, a.second)
  }

  /** The reader can encode the reply again. */
  predicate Readable(r: Reader, attributes: bytes) {
    Frames(attributes).Ok? && Reencodes(r.decoding, r.own, Frames(attributes).value)
  }

  /** The attributes on the wire once the digest is stored. */
  lemma SignedWire(d: Dictionary, store: Store, side: Sidecar, digest: bytes)
    requires Signable(d, store, side) && |digest| == 16
    ensures EncodeWith(d, WithMa(store, digest), side).Ok?
    ensures |EncodeWith(d, WithMa(store, digest), side).value| <= 65515
  {
    var before, after, attributes := SentAround(d, store, digest, side);
  }

  /** The Response Authenticator of the signed reply. */
  ghost function ResponseOf(d: Dictionary, hmac: Hmac, md5: Md5, a: Answer): (r: bytes)
    requires SixteenOctets(hmac, md5) && Answerable(d, a)
    ensures |r| == 16
  {
    SignedWire(d, a.store, a.second, DigestOf(d, hmac, a));
    var attributes := EncodeWith(d, WithMa(a.store, DigestOf(d, hmac, a)), a.second).value;
    md5(Prefix(a.code, a.id, attributes) + a.authenticator + attributes + a.secret)
  }

  /** What the verifier's HMAC covers in a signed reply. */
  ghost function CheckedOctets(d: Dictionary, hmac: Hmac, md5: Md5, a: Answer): bytes
    requires SixteenOctets(hmac, md5) && Answerable(d, a)
  {
    VerifiedOctets(a.code, a.id, ResponseOf(d, hmac, md5, a), Some(a.original), Some(a.authenticator), AnswerWire(d, a))
  }

  /** Signing goes through unless the digest cannot be stored, and the reply is then sent with the
      digest as it was stored. */
  lemma SignedReplyIs(d: Dictionary, hmac: Hmac, md5: Md5, a: Answer)
    requires SixteenOctets(hmac, md5) && Answerable(d, a)
    ensures SignedReply(d, hmac, md5, a.code, a.id, a.original, a.secret, a.authenticator, a.store, a.first,
                        a.second) ==
            var v := EncodeOctets(DigestOf(d, hmac, a));
            if v.Err? then Err
            else PlainReply(d, md5, a.code, a.id, a.secret, a.authenticator, WithMa(a.store, v.value), a.second)
  {
  }

  /** A reply whose Response Authenticator is right and which carries a digest passes exactly when the
      reader can encode it again and the digest passes. */
  lemma ReplyPasses(r: Reader, hmac: Hmac, md5: Md5, before: seq<Avp>, v: bytes, after: seq<Avp>, code: byte, id: byte,
                    secret: bytes, original: byte, authenticator: bytes, response: bytes)
    requires AllFit(before) && AllFit(after) && |v| <= 16 && |response| == 16
    requires 20 + |Around(before, v, after)| <= 8192
    requires var attributes := Around(before, v, after);
             response == md5(Prefix(code, id, attributes) + authenticator + attributes + secret)
    ensures var attributes := Around(before, v, after);
            var raw := Header(code, id, response, attributes) + attributes;
            AcceptsReply(r.decoding, r.own, hmac, md5, raw, id, secret, original, authenticator, r.enforceMa) <==>
            (Reencodes(r.decoding, r.own, before + [Avp(80, v)] + after)
             && Accepts(r.decoding, hmac, raw, secret, Some(original), Some(authenticator)))
  {
    var avps := before + [Avp(80, v)] + after;
    PacketDecodes(r.decoding, code, id, response, avps);
    ReplyFields(code, id, response, Flatten(avps));
    SomeDigest(before, v, after);
  }

  /** Whether the reader can encode the reply again does not depend on the digest. */
  lemma ReadableAround(r: Reader, before: seq<Avp>, v: bytes, after: seq<Avp>)
    requires AllFit(before) && AllFit(after) && |v| <= 16 && No80(before) && No80(after)
    ensures Readable(r, Around(before, ZEROS, after)) <==> Reencodes(r.decoding, r.own, before + [Avp(80, v)] + after)
  {
    FramesOfFlatten(before + [Avp(80, ZEROS)] + after);
    SameReencoding(r.decoding, r.own, before, v, ZEROS, after);
  }

  /** A signed reply of any code passes `verify_reply` of any reader exactly when its digest does not look
      like a hex literal, is the only code-80 attribute, is not cut by the reader's array pass, and is
      what the verifier, with the authenticator it chooses, recomputes from the second serialization,
      and the reader can encode what it decoded. */
  lemma ReplyExactly(d: Dictionary, r: Reader, hmac: Hmac, md5: Md5, a: Answer)
    requires SixteenOctets(hmac, md5) && Answerable(d, a)
    ensures ReplyAccepted(d, r, hmac, md5, a) <==>
            (!HexPrefixed(DigestOf(d, hmac, a)) && OneDigest(d, a.store, a.second) && DigestWhole(r.decoding)
             && Readable(r, AnswerWire(d, a)) && DigestOf(d, hmac, a) == hmac(a.secret, CheckedOctets(d, hmac, md5, a)))
  {
    SignedReplyIs(d, hmac, md5, a);
    if EncodeOctets(DigestOf(d, hmac, a)).Ok? { StoredReply(d, r, hmac, md5, a); }
  }

  lemma StoredReply(d: Dictionary, r: Reader, hmac: Hmac, md5: Md5, a: Answer)
    requires SixteenOctets(hmac, md5) && Answerable(d, a) && EncodeOctets(DigestOf(d, hmac, a)).Ok?
    ensures var v := EncodeOctets(DigestOf(d, hmac, a)).value;
            var sent := PlainReply(d, md5, a.code, a.id, a.secret, a.authenticator, WithMa(a.store, v), a.second);
            (sent.Ok? && AcceptsReply(r.decoding, r.own, hmac, md5, sent.value.raw, a.id, a.secret, a.original,
                                      a.authenticator, r.enforceMa)) <==>
            (!HexPrefixed(DigestOf(d, hmac, a)) && OneDigest(d, a.store, a.second) && DigestWhole(r.decoding)
             && Readable(r, AnswerWire(d, a)) && DigestOf(d, hmac, a) == hmac(a.secret, CheckedOctets(d, hmac, md5, a)))
  {
    var digest := DigestOf(d, hmac, a);
    var v := EncodeOctets(digest).value;
    if HexPrefixed(digest) { HexDigestShort(digest); }
    var before, after, attributes := SentAround(d, a.store, v, a.second);
    var response := md5(Prefix(a.code, a.id, attributes) + a.authenticator + attributes + a.secret);
    var sent := PlainReply(d, md5, a.code, a.id, a.secret, a.authenticator, WithMa(a.store, v), a.second);
    assert sent == Ok(Sent(Header(a.code, a.id, response, attributes) + attributes, WithMa(a.store, v)));
    ReplyPasses(r, hmac, md5, before, v, after, a.code, a.id, a.secret, a.original, a.authenticator, response);
    SignedAccepted(d, r.decoding, hmac, a.store, a.second, digest, a.code, a.id, response, a.secret, Some(a.original),
                   Some(a.authenticator));
    if OneDigest(d, a.store, a.second) { ReadableAround(r, before, v, after); }
  }

  lemma ReplyFields(code: byte, id: byte, response: bytes, attributes: bytes)
    requires |response| == 16 && |attributes| <= 65515
    ensures var raw := Header(code, id, response, attributes) + attributes;
            raw[0..4] == Prefix(code, id, attributes) && raw[4..20] == response && raw[20..] == attributes
  {
    HeaderReadsBack(code, id, response, attributes);
    var raw := Header(code, id, response, attributes) + attributes;
    assert raw[0..4] == Prefix(code, id, attributes);
  }

  /** For every code on which the two sides agree and set-aside values that come out the same: a reader
      that can encode the reply again accepts exactly the digests that do not look like a hex literal,
      Response Authenticator and Message-Authenticator both. */
  lemma ReplyVerifies(d: Dictionary, r: Reader, hmac: Hmac, md5: Md5, a: Answer)
    requires SixteenOctets(hmac, md5) && Answerable(d, a)
    requires AgreedCode(a.code) && ZeroedWire(d, a.store, a.first) == ZeroedWire(d, a.store, a.second)
    ensures ReplyAccepted(d, r, hmac, md5, a) <==>
            (!HexPrefixed(DigestOf(d, hmac, a)) && OneDigest(d, a.store, a.second) && DigestWhole(r.decoding)
             && Readable(r, AnswerWire(d, a)))
  {
    ReplyExactly(d, r, hmac, md5, a);
  }

  ghost predicate DigestUsable(d: Dictionary, hmac: Hmac, md5: Md5, a: Answer)
    requires Answerable(d, a)
  {
    SixteenOctets(hmac, md5) && !HexPrefixed(DigestOf(d, hmac, a))
  }

  ghost predicate AlwaysAccepted(d: Dictionary, r: Reader, a: Answer)
    requires Answerable(d, a)
  {
    forall hmac: Hmac, md5: Md5 :: DigestUsable(d, hmac, md5, a) ==> ReplyAccepted(d, r, hmac, md5, a)
  }

  /** Sixteen octets other than these. */
  function Unlike(a: bytes): (r: bytes)
    requires |a| == 16
    ensures |r| == 16 && r != a
  {
    var ones: bytes := seq(16, i => 1);
    assert ones[0] != ZEROS[0];
    if a == ZEROS then ones else ZEROS
  }

  /** Signer and verifier cover the same octets. */
  predicate SameOctets(d: Dictionary, a: Answer)
    requires Answerable(d, a)
  {
    AgreedCode(a.code) && ZeroedWire(d, a.store, a.first) == ZeroedWire(d, a.store, a.second)
  }

  /** The reply whose Response Authenticator is `other` is checked over octets that were not signed. */
  lemma OctetsDiffer(d: Dictionary, a: Answer, other: bytes)
    requires Answerable(d, a) && |other| == 16 && other != a.authenticator && !SameOctets(d, a)
    ensures SignedOctets(d, a.code, a.id, Some(a.original), a.authenticator, a.store, a.first) !=
            VerifiedOctets(a.code, a.id, other, Some(a.original), Some(a.authenticator), AnswerWire(d, a))
  {
    var x := SignerAuthenticator(a.code, Some(a.original), a.authenticator);
    var y := VerifierAuthenticator(a.code, Some(other), Some(a.original), Some(a.authenticator)).value;
    var first, second := ZeroedWire(d, a.store, a.first), ZeroedWire(d, a.store, a.second);
    assert x != y || first != second;
    OctetsTell(a.code, a.id, x, y, first, second);
  }

  lemma ResponseConstant(d: Dictionary, hmac: Hmac, md5: Md5, a: Answer, other: bytes)
    requires SixteenOctets(hmac, md5) && Answerable(d, a) && forall m :: md5(m) == other
    ensures ResponseOf(d, hmac, md5, a) == other
  {
    SignedWire(d, a.store, a.second, DigestOf(d, hmac, a));
  }

  lemma NotRecomputed(d: Dictionary, hmac: Hmac, md5: Md5, a: Answer, other: bytes, signed: bytes)
    requires SixteenOctets(hmac, md5) && Answerable(d, a) && ResponseOf(d, hmac, md5, a) == other
    requires signed == SignedOctets(d, a.code, a.id, Some(a.original), a.authenticator, a.store, a.first)
    requires |other| == 16
    requires signed != VerifiedOctets(a.code, a.id, other, Some(a.original), Some(a.authenticator), AnswerWire(d, a))
    requires forall k, m :: m != signed ==> hmac(k, m) != hmac(k, signed)
    ensures DigestOf(d, hmac, a) != hmac(a.secret, CheckedOctets(d, hmac, md5, a))
  {
    assert CheckedOctets(d, hmac, md5, a) != signed;
  }

  lemma SomeHashRefuses(d: Dictionary, r: Reader, a: Answer) returns (hmac: Hmac, md5: Md5)
    requires Answerable(d, a)
    requires !(SameOctets(d, a) && OneDigest(d, a.store, a.second) && DigestWhole(r.decoding)
               && Readable(r, AnswerWire(d, a)))
    ensures DigestUsable(d, hmac, md5, a) && !ReplyAccepted(d, r, hmac, md5, a)
  {
    var other := Unlike(a.authenticator);
    var signed := SignedOctets(d, a.code, a.id, Some(a.original), a.authenticator, a.store, a.first);
    hmac := TellingHash(signed);
    md5 := ConstantHash(other);
    if !SameOctets(d, a) {
      OctetsDiffer(d, a, other);
      ResponseConstant(d, hmac, md5, a, other);
      NotRecomputed(d, hmac, md5, a, other, signed);
    }
    ReplyExactly(d, r, hmac, md5, a);
  }

  lemma ConstantHash(v: bytes) returns (md5: Md5)
    ensures forall m :: md5(m) == v
  {
    md5 := m => v;
  }

  /** A reply is accepted whatever the hash functions exactly when the two sides agree on its code, its two
      serializations agree, there is one digest, and the reader keeps it whole and can encode the
      reply again.  For the other codes (CoA and Disconnect answers among them) the signer uses the
      request's authenticator and the verifier the reply's own. */
  lemma AgreedExactly(d: Dictionary, r: Reader, a: Answer)
    requires Answerable(d, a)
    ensures AlwaysAccepted(d, r, a) <==>
            (SameOctets(d, a) && OneDigest(d, a.store, a.second) && DigestWhole(r.decoding)
             && Readable(r, AnswerWire(d, a)))
  {
    if SameOctets(d, a) && OneDigest(d, a.store, a.second) && DigestWhole(r.decoding) && Readable(r, AnswerWire(d, a)) {
      forall hmac: Hmac, md5: Md5 | DigestUsable(d, hmac, md5, a) ensures ReplyAccepted(d, r, hmac, md5, a) {
        ReplyVerifies(d, r, hmac, md5, a);
      }
    } else {
      var hmac, md5 := SomeHashRefuses(d, r, a);
    }
  }

  /** A reply without Message-Authenticator passes exactly when the reader can encode it again and does
      not insist on a digest for an Access-Request. */
  lemma PlainReplyExactly(d: Dictionary, r: Reader, hmac: Hmac, md5: Md5, code: byte, id: byte, original: byte,
                          secret: bytes, authenticator: bytes, store: Store, side: Sidecar, avps: seq<Avp>)
    requires SixteenOctets(hmac, md5) && |authenticator| == 16
    requires AllFit(avps) && EncodeWith(d, store, side) == Ok(Flatten(avps)) && 20 + |Flatten(avps)| <= 8192
    requires No80(avps)
    ensures var sent := PlainReply(d, md5, code, id, secret, authenticator, store, side);
            sent.Ok?
            && (AcceptsReply(r.decoding, r.own, hmac, md5, sent.value.raw, id, secret, original, authenticator,
                             r.enforceMa) <==>
                Reencodes(r.decoding, r.own, avps) && !(r.enforceMa && original == ACCESS_REQUEST))
  {
    var attributes := Flatten(avps);
    var response := md5(Prefix(code, id, attributes) + authenticator + attributes + secret);
    PacketDecodes(r.decoding, code, id, response, avps);
    ReplyFields(code, id, response, attributes);
    NoDigestFound(r.decoding, avps);
  }

  // --- Any octets ---------------------------------------------------------------------------

  /** Whatever octets arrive: a reply is accepted exactly when it has the identifier of the request, its
      Response Authenticator is the hash of its own octets with the request's authenticator and the
      secret, its digest, which it must have if the client insists, is the HMAC over its own header
      and its attributes with the digest zeroed, and what was decoded can be stored and encoded
      again. */
  lemma AcceptedIsGenuine(d: Dictionary, e: Dictionary, hmac: Hmac, md5: Md5, raw: bytes, id: byte, secret: bytes,
                          requestCode: byte, requestAuthenticator: bytes, enforceMa: bool)
    requires |raw| >= 20 && DecodeMessage(d, false, raw).Ok?
    ensures VerifyReply(e, hmac, md5, raw, DecodeMessage(d, false, raw).value, id, secret, requestCode,
                        requestAuthenticator, enforceMa) == Ok(true) <==>
            Genuine(d, hmac, md5, raw, id, secret, requestCode, requestAuthenticator, enforceMa)
            && Storable(e, DecodeMessage(d, false, raw).value)
  {
    var m := DecodeMessage(d, false, raw).value;
    ZeroedLength(raw[20..]);
    if CarriesDigest(m) && ZeroMessageAuthenticator(raw[20..]).Ok? {
      PrefixReceived(raw, ZeroMessageAuthenticator(raw[20..]).value);
    }
    if CarriesDigest(m) { FlagAndEntry(d, raw); }
  }

  /** The store can be encoded again, and the digest found assigned back. */
  predicate Storable(e: Dictionary, m: Message) {
    EncodeStore(e, m.state.store).Ok?
    && (CarriesDigest(m) ==>
          AsValues(Find(m.state.store, MA)) != [] && EncodeOctets(AsValues(Find(m.state.store, MA))[0]).Ok?)
  }

  /** A decoded packet is flagged exactly when it has the attribute. */
  lemma FlagAndEntry(d: Dictionary, raw: bytes)
    requires |raw| >= 20 && DecodeMessage(d, false, raw).Ok?
    ensures var m := DecodeMessage(d, false, raw).value; Has(m.state.store, MA) ==> m.state.hasMessageAuthenticator
  {
    var avps := Frames(raw[20..]).value;
    FoldFlagExactly(d, EMPTY, avps);
    FoldDigests(d, EMPTY, avps);
    FinishFind(d, Fold(d, false, EMPTY, avps).store, MA);
  }

  ghost predicate Genuine(d: Dictionary, hmac: Hmac, md5: Md5, raw: bytes, id: byte, secret: bytes, requestCode: byte,
                          requestAuthenticator: bytes, enforceMa: bool)
  {
    && |raw| >= 20 && raw[1] == id && DecodeMessage(d, false, raw).Ok?
    && raw[4..20] == md5(raw[0..4] + requestAuthenticator + raw[20..] + secret)
    && var m := DecodeMessage(d, false, raw).value;
       if CarriesDigest(m) then
         var zeroed := ZeroMessageAuthenticator(raw[20..]);
         var given := VerifierAuthenticator(raw[0], Some(raw[4..20]), Some(requestCode), Some(requestAuthenticator));
         && zeroed.Ok? && given.Some? && AsValues(Find(m.state.store, MA)) != []
         && AsValues(Find(m.state.store, MA))[0] == hmac(secret, raw[0..4] + given.value + zeroed.value)
       else !(enforceMa && requestCode == ACCESS_REQUEST)
  }

  lemma ZeroedLength(attributes: bytes)
    ensures ZeroMessageAuthenticator(attributes).Ok? ==> |ZeroMessageAuthenticator(attributes).value| == |attributes|
  {
    StrictFramesWhole(attributes);
    if ZeroMessageAuthenticator(attributes).Ok? {
      SameSizes(StrictFrames(attributes).value);
      FlattenSize(StrictFrames(attributes).value);
      FlattenSize(ZeroAvps(StrictFrames(attributes).value));
    }
  }

  lemma {:induction false} StrictFramesWhole(data: bytes)
    ensures StrictFrames(data).Ok? ==> Flatten(StrictFrames(data).value) == data
    decreases |data|
  {
    if StrictFrames(data).Ok? && data != [] {
      StrictFramesWhole(data[data[1]..]);
      var avps := StrictFrames(data).value;
      assert avps[1..] == StrictFrames(data[data[1]..]).value;
      assert Frame(avps[0]) == data[..data[1]];
    }
  }

  lemma {:induction false} SameSizes(avps: seq<Avp>)
    requires forall i :: 0 <= i < |avps| && avps[i].key == 80 ==> |avps[i].value| == 16
    ensures Size(ZeroAvps(avps)) == Size(avps)
  {
    if avps != [] {
      SameSizes(avps[1..]);
      assert ZeroAvps(avps)[1..] == ZeroAvps(avps[1..]);
    }
  }

  lemma PrefixReceived(raw: bytes, attributes: bytes)
    requires |raw| >= 20 && FromBigEndian(raw[2..4]) == |raw| && |attributes| == |raw| - 20 <= 65515
    ensures Prefix(raw[0], raw[1], attributes) == raw[0..4]
  {
    BigEndianBack(raw[2..4]);
    assert raw[0..4] == [raw[0], raw[1]] + raw[2..4];
  }
}
