/** Signing and verifying as the packet object does them: the attribute is zeroed and rewritten in
    the store, and the verifier zeroes a copy of the received octets. */
module SigningObject {
  import opened Wrappers
  import opened Bytes
  import opened OrderedMaps
  import opened Wire
  import opened Trees
  import opened Decoding
  import opened Overlay
  import opened PacketEncoder
  import opened PacketObject
  import opened Signing

  // --- Zeroing the digest -----------------------------------------------------------------------

  /** A stretch of attributes with the digests zeroed, and how many there were. */
  datatype Walk = Walk(zeroed: bytes, found: nat)

  /** The walk from the start of some attribute: None for bad framing or a digest of another length. */
  ghost function WalkOf(data: bytes): Option<Walk>
    decreases |data|
  {
    if data == [] then Some(Walk([], 0))
    else if |data| < 2 || data[1] < 2 || data[1] > |data| || (data[0] == 80 && data[1] != 18) then None
    else
      var value := if data[0] == 80 then ZEROS else data[2..data[1]];
      Behind([data[0], data[1]] + value, if data[0] == 80 then 1 else 0, WalkOf(data[data[1]..]))
  }

  ghost function Behind(done: bytes, found: nat, rest: Option<Walk>): Option<Walk> {
    match rest
    case None => None
    case Some(w) => Some(Walk(done + w.zeroed, found + w.found))
  }

  lemma BehindAssociates(a: bytes, m: nat, b: bytes, n: nat, rest: Option<Walk>)
    ensures Behind(a, m, Behind(b, n, rest)) == Behind(a + b, m + n, rest)
  {
    if rest.Some? { assert a + (b + rest.value.zeroed) == a + b + rest.value.zeroed; }
  }

  ghost predicate DigestsWhole(avps: seq<Avp>) {
    forall i :: 0 <= i < |avps| && avps[i].key == 80 ==> |avps[i].value| == 16
  }

  lemma DigestsWholeCons(a: Avp, rest: seq<Avp>)
    ensures DigestsWhole([a] + rest) <==> (a.key == 80 ==> |a.value| == 16) && DigestsWhole(rest)
  {
    assert ([a] + rest)[0] == a;
    assert forall i :: 0 <= i < |rest| ==> ([a] + rest)[i + 1] == rest[i];
  }

  /** What the walk of some framed attributes is. */
  ghost predicate WalkIs(w: Option<Walk>, framed: Result<seq<Avp>>)
    requires framed.Ok? ==> AllFit(framed.value)
  {
    (w.Some? <==> framed.Ok? && DigestsWhole(framed.value))
    && (w.Some? ==> w.value.found == Count80(framed.value) && w.value.zeroed == Flatten(ZeroAvps(framed.value)))
  }

  lemma WalkCons(a: Avp, rest: seq<Avp>, w: Option<Walk>)
    requires Fits(a) && AllFit(rest) && WalkIs(w, Ok(rest)) && (a.key == 80 ==> |a.value| == 16)
    ensures AllFit([a] + rest) && WalkIs(Behind(Frame(Zeroed(a)), if a.key == 80 then 1 else 0, w), Ok([a] + rest))
  {
    var avps := [a] + rest;
    DigestsWholeCons(a, rest);
    assert avps[1..] == rest;
    assert ZeroAvps(avps) == [Zeroed(a)] + ZeroAvps(rest);
    assert ([Zeroed(a)] + ZeroAvps(rest))[1..] == ZeroAvps(rest);
  }

  lemma {:induction false} WalkExact(data: bytes)
    ensures WalkIs(WalkOf(data), StrictFrames(data))
    decreases |data|
  {
    if data != [] && |data| >= 2 && 2 <= data[1] <= |data| {
      WalkExact(data[data[1]..]);
      var a, framed := Avp(data[0], data[2..data[1]]), StrictFrames(data[data[1]..]);
      if framed.Ok? {
        DigestsWholeCons(a, framed.value);
        assert StrictFrames(data) == Ok([a] + framed.value);
        if a.key == 80 ==> |a.value| == 16 {
          assert Frame(Zeroed(a)) == [data[0], data[1]] + (if a.key == 80 then ZEROS else a.value);
          WalkCons(a, framed.value, WalkOf(data[data[1]..]));
        }
      }
    }
  }

  /** What is behind `offset` is done, what lies ahead is untouched. */
  ghost predicate Walked(attr: bytes, zeroed: bytes, offset: nat, found: nat) {
    && offset <= |attr| == |zeroed| && zeroed[offset..] == attr[offset..]
    && Behind(zeroed[..offset], found, WalkOf(attr[offset..])) == WalkOf(attr)
  }

  lemma WalkStart(attr: bytes)
    ensures Walked(attr, attr, 0, 0)
  {
    assert attr[0..] == attr && attr[..0] == [];
    if WalkOf(attr).Some? { assert [] + WalkOf(attr).value.zeroed == WalkOf(attr).value.zeroed; }
  }

  lemma WalkBroken(attr: bytes, zeroed: bytes, offset: nat, found: nat)
    requires Walked(attr, zeroed, offset, found) && offset < |attr|
    requires
      || offset + 2 > |attr| || attr[offset + 1] < 2 || offset + attr[offset + 1] > |attr|
      || (attr[offset] == 80 && attr[offset + 1] != 18)
    ensures ZeroMessageAuthenticator(attr) == Err
  {
    WalkExact(attr);
    var data := attr[offset..];
    assert WalkOf(data) == None;
  }

  lemma WalkEnd(attr: bytes, zeroed: bytes, found: nat)
    requires Walked(attr, zeroed, |attr|, found)
    ensures ZeroMessageAuthenticator(attr) == if found == 1 then Ok(zeroed) else Err
  {
    WalkExact(attr);
    assert WalkOf(attr[|attr|..]) == Some(Walk([], 0)) && zeroed[..|attr|] + [] == zeroed;
  }

  /** `_zero_message_authenticator`: a copy of the octets is walked and overwritten where the digest
      is; all lengths are those of the original. */
  method ZeroDigest(attr: bytes) returns (r: Result<bytes>)
    ensures r == ZeroMessageAuthenticator(attr)
  {
    var zeroed := attr;
    var offset, found := 0, 0;
    WalkStart(attr);
    while offset < |attr|
      invariant Walked(attr, zeroed, offset, found)
      decreases |attr| - offset
    {
      if offset + 2 > |attr| {
        WalkBroken(attr, zeroed, offset, found);
        return Err;
      }
      var key: byte, length: nat := attr[offset], attr[offset + 1];
      if length < 2 || offset + length > |attr| || (key == 80 && length != 18) {
        WalkBroken(attr, zeroed, offset, found);
        return Err;
      }
      WalkTurn(attr, zeroed, offset, found);
      if key == 80 {
        found := found + 1;
        zeroed := zeroed[..offset + 2] + ZEROS + zeroed[offset + length..];
      }
      offset := offset + length;
    }
    WalkEnd(attr, zeroed, found);
    if found != 1 { return Err; }
    return Ok(zeroed);
  }

  lemma WalkTurn(attr: bytes, zeroed: bytes, offset: nat, found: nat)
    requires Walked(attr, zeroed, offset, found) && offset + 2 <= |attr|
    requires 2 <= attr[offset + 1] && offset + attr[offset + 1] <= |attr|
    requires attr[offset] == 80 ==> attr[offset + 1] == 18
    ensures var end := offset + attr[offset + 1];
            if attr[offset] == 80
            then Walked(attr, zeroed[..offset + 2] + ZEROS + zeroed[end..], end, found + 1)
            else Walked(attr, zeroed, end, found)
  {
    var data := attr[offset..];
    var length: nat := data[1];
    var end := offset + length;
    assert data[length..] == attr[end..];
    var value := if data[0] == 80 then ZEROS else data[2..length];
    BehindAssociates(zeroed[..offset], found, [data[0], data[1]] + value, if data[0] == 80 then 1 else 0,
                     WalkOf(attr[end..]));
    OverwrittenUpTo(attr, zeroed, offset, length);
  }

  lemma OverwrittenUpTo(attr: bytes, zeroed: bytes, offset: nat, length: nat)
    requires 2 <= length && offset + length <= |attr| == |zeroed| && zeroed[offset..] == attr[offset..]
    ensures zeroed[offset + length..] == attr[offset + length..]
    ensures zeroed[..offset] + ([attr[offset], attr[offset + 1]] + attr[offset..][2..length]) ==
            zeroed[..offset + length]
    ensures length == 18 ==>
              var zeroed' := zeroed[..offset + 2] + ZEROS + zeroed[offset + length..];
              && |zeroed'| == |attr| && zeroed'[offset + length..] == attr[offset + length..]
              && zeroed[..offset] + ([attr[offset], attr[offset + 1]] + ZEROS) == zeroed'[..offset + length]
  {
    assert forall i :: offset <= i < |attr| ==> zeroed[i] == zeroed[offset..][i - offset] == attr[i];
  }

  // --- The store --------------------------------------------------------------------------------

  /** `self["Message-Authenticator"] = value`. */
  method SetDigest(p: Packet, value: bytes) returns (ok: bool)
    requires p.Valid()
    modifies p`store
    ensures p.Valid() && (ok <==> EncodeOctets(value).Ok?)
    ensures p.store == if ok then WithMa(old(p.store), EncodeOctets(value).value) else old(p.store)
  {
    var stored := EncodeOctets(value);
    if stored.Err? { return false; }
    PutStoreShaped(p.dict, p.store, MA, Values([stored.value]));
    p.store := WithMa(p.store, stored.value);
    return true;
  }

  /** `_refresh_message_authenticator`: the digest is computed over the zeroed attribute, with the
      set-aside values laid over the store, and put in its place; no other entry changes. */
  method RefreshDigest(p: Packet, hmac: Hmac, original: Option<byte>, secret: bytes, side: Sidecar) returns (ok: bool)
    requires p.Valid() && p.authenticator.Some? && AllLeaves(p.dict, side)
    modifies p`store
    ensures p.Valid()
    ensures (if ok then Ok(p.store) else Err) ==
            Refresh(p.dict, hmac, p.code, p.id, original, secret, p.authenticator.value, old(p.store), side)
  {
    var _ := SetDigest(p, ZEROS);
    var attributes := EncodeAttributes(p.dict, p.store, side);
    if attributes.Err? || |attributes.value| > 65515 { return false; }
    var signed := Prefix(p.code, p.id, attributes.value);
    if p.code in {ACCOUNTING_REQUEST, DISCONNECT_REQUEST, COA_REQUEST} {
      signed := signed + ZEROS;
    } else if p.code == ACCOUNTING_RESPONSE && original != Some(STATUS_SERVER) {
      signed := signed + ZEROS;
    } else {
      signed := signed + p.authenticator.value;
    }
    signed := signed + attributes.value;
    ok := SetDigest(p, hmac(secret, signed));
    if ok { PutTwice(old(p.store), MA, Values([ZEROS]), Values([EncodeOctets(hmac(secret, signed)).value])); }
  }

  /** The branches on the code; None is the missing authenticator. */
  method ChooseAuthenticator(code: byte, own: Option<bytes>, original: Option<byte>,
                             originalAuthenticator: Option<bytes>) returns (r: Option<bytes>)
    ensures r == VerifierAuthenticator(code, own, original, originalAuthenticator)
  {
    if code in {ACCOUNTING_REQUEST, DISCONNECT_REQUEST, COA_REQUEST} {
      return Some(ZEROS);
    } else if code == ACCOUNTING_RESPONSE && original != Some(STATUS_SERVER) {
      return Some(ZEROS);
    } else if code in {ACCOUNTING_RESPONSE, ACCESS_ACCEPT, ACCESS_CHALLENGE, ACCESS_REJECT} {
      if originalAuthenticator.Some? { return originalAuthenticator; }
      if own == Some([]) { return None; }
      return own;
    } else {
      return own;
    }
  }

  /** The attributes under the digest; those of a packet that was not received are serialized with
      the digest zeroed in the packet itself. */
  method DigestedOf(p: Packet, raw: bytes, side: Sidecar) returns (attributes: Result<bytes>)
    requires p.Valid() && AllLeaves(p.dict, side)
    modifies p`store
    ensures p.Valid() && attributes == DigestedAttributes(p.dict, raw, old(p.store), side)
    ensures p.store == if raw == [] then WithMa(old(p.store), ZEROS) else old(p.store)
  {
    if raw != [] {
      attributes := ZeroDigest(if |raw| >= 20 then raw[20..] else []);
    } else {
      var _ := SetDigest(p, ZEROS);
      attributes := EncodeAttributes(p.dict, p.store, side);
    }
  }

  /** `verify_message_authenticator`: the verdict, and the store as it was but for the digest, which
      is assigned back, or left zeroed by an exception when the packet was not received. */
  method VerifyDigest(p: Packet, hmac: Hmac, raw: bytes, side: Sidecar, secret: bytes, original: Option<byte>,
                      originalAuthenticator: Option<bytes>) returns (r: Result<bool>)
    requires p.Valid() && AllLeaves(p.dict, side)
    modifies p`store
    ensures p.Valid()
    ensures var m := Message(p.code, p.id, p.authenticator, p.token, old(p.Contents()));
            && r == VerifyMa(p.dict, hmac, raw, m, side, secret, original, originalAuthenticator)
            && p.store == StoreAfter(raw, m, r)
  {
    if !p.messageAuthenticator || !Has(p.store, MA) { return Err; }
    var previous := AsValues(Find(p.store, MA));
    ghost var before := p.store;
    var attributes := DigestedOf(p, raw, side);
    if attributes.Err? || |attributes.value| > 65515 { return Err; }
    var authenticator := ChooseAuthenticator(p.code, p.authenticator, original, originalAuthenticator);
    if authenticator.None? || previous == [] { return Err; }
    var digest := hmac(secret, Prefix(p.code, p.id, attributes.value) + authenticator.value + attributes.value);
    var ok := SetDigest(p, previous[0]);
    if !ok { return Err; }
    PutTwice(before, MA, Values([ZEROS]), Values([EncodeOctets(previous[0]).value]));
    return Ok(previous[0] == digest);
  }

  /** A digest that is no hex literal survives the assignment, so verifying leaves the packet as it
      was received; a hex-looking one is silently rewritten. */
  lemma VerifyingKeeps(store: Store, digest: bytes)
    requires Find(store, MA) == Some(Values([digest]))
    ensures !HexPrefixed(digest) ==> WithMa(store, EncodeOctets(digest).value) == store
    ensures HexPrefixed(digest) && EncodeOctets(digest).Ok? ==> WithMa(store, EncodeOctets(digest).value) != store
  {
    PutSame(store, MA);
    if HexPrefixed(digest) && EncodeOctets(digest).Ok? {
      HexBodyShort(digest[2..]);
      var shorter := EncodeOctets(digest).value;
      assert |shorter| < |digest|;
      FindPut(store, MA, Values([shorter]), MA);
      assert [shorter][0] != [digest][0];
    }
  }
}
