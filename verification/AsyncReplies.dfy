/** Which datagrams answer a pending request: decoding, the table and `verify_reply` together. */
module AsyncReplies {
  import opened Wrappers
  import opened Bytes
  import opened OrderedMaps
  import opened Dictionaries
  import opened Decoding
  import opened CodecTheorems
  import opened Overlay
  import opened Signing
  import opened SigningWire
  import opened SigningTheorems
  import opened Reception
  import opened RetryPolicies
  import opened AsyncClients

  /** What the client keeps of a packet it sent: the entry `packet` of a pending request. */
  datatype Asked = Asked(dict: Dictionary, code: byte, secret: bytes, authenticator: bytes)

  /** What `datagram_received` is given besides the datagram. */
  datatype Receiver = Receiver(dict: Dictionary, hmac: Hmac, md5: Md5, enforceMa: bool)

  /** The identifier of the request the datagram answers; None when it is ignored or an exception
      is logged.  `packets` are the packets sent, by future. */
  function Answers(c: Receiver, s: Net, packets: seq<Asked>, data: bytes): Option<byte> {
    var m := DecodeMessage(c.dict, false, data);
    if m.Err? || m.value.code == 0 then None
    else
      var r := Find(s.pending, m.value.id);
      if r.None? || r.value.uid >= |packets| then None
      else
        var p := packets[r.value.uid];
        if VerifyReply(p.dict, c.hmac, c.md5, data, m.value, m.value.id, p.secret, p.code, p.authenticator, c.enforceMa)
           == Ok(true)
        then Some(m.value.id)
        else None
  }

  /** `datagram_received`. */
  function Received(c: Receiver, s: Net, packets: seq<Asked>, data: bytes, now: real): Net {
    match Answers(c, s, packets, data)
    case None => s
    case Some(id) => Reply(s, id, true, now)
  }

  /** Who checks the reply to a packet. */
  function ReaderOf(c: Receiver, asked: Asked): Reader {
    Reader(c.dict, asked.dict, c.enforceMa)
  }

  /** A datagram resolves a future exactly when it decodes with a code, its identifier is that of the
      pending request of the future, it was hashed, and signed if it carries a digest or the client
      insists, with that request's secret and authenticator, and the client can store and encode what
      it decoded. */
  lemma ResolvedGenuinely(p: RetryPolicy, c: Receiver, s: Net, packets: seq<Asked>, data: bytes, now: real, uid: nat)
    requires Sound(p, s) && |packets| == |s.created| && uid !in s.resolved
    ensures uid in Received(c, s, packets, data, now).resolved <==>
            (|data| >= 20 && DecodeMessage(c.dict, false, data).Ok? && data[0] != 0
             && Find(s.pending, data[1]).Some? && Find(s.pending, data[1]).value.uid == uid < |packets|
             && var asked := packets[uid];
                Genuine(c.dict, c.hmac, c.md5, data, data[1], asked.secret, asked.code, asked.authenticator,
                        c.enforceMa)
                && Storable(asked.dict, DecodeMessage(c.dict, false, data).value))
  {
    if |data| >= 20 && DecodeMessage(c.dict, false, data).Ok? && Find(s.pending, data[1]).Some? {
      FindSound(s.pending, data[1]);
      var r := Find(s.pending, data[1]).value;
      assert PendingOk(p, s, r);
      var asked := packets[r.uid];
      AcceptedIsGenuine(c.dict, asked.dict, c.hmac, c.md5, data, data[1], asked.secret, asked.code, asked.authenticator,
                        c.enforceMa);
    }
  }

  /** The packet, code, secret and authenticator of the answer are those of the pending request. */
  predicate AnswerTo(a: Answer, s: Net, packets: seq<Asked>) {
    var r := Find(s.pending, a.id);
    r.Some? && r.value.uid < |packets|
    && packets[r.value.uid].code == a.original && packets[r.value.uid].secret == a.secret
    && packets[r.value.uid].authenticator == a.authenticator
  }

  /** The digest is usable, alone and whole, and the client can encode the reply again. */
  predicate Acceptable(d: Dictionary, c: Receiver, asked: Asked, a: Answer)
    requires Answerable(d, a)
  {
    !HexPrefixed(DigestOf(d, c.hmac, a)) && OneDigest(d, a.store, a.second) && DigestWhole(c.dict)
    && Readable(ReaderOf(c, asked), AnswerWire(d, a))
  }

  /** A signed reply resolves the future of the request it answers, and changes nothing else, exactly when
      it is acceptable; server and client may have dictionaries of their own. */
  lemma SignedReplyResolves(d: Dictionary, c: Receiver, s: Net, packets: seq<Asked>, a: Answer, now: real)
    requires SixteenOctets(c.hmac, c.md5) && Answerable(d, a) && AnswerTo(a, s, packets) && SameOctets(d, a)
    ensures var sent := SignedReply(d, c.hmac, c.md5, a.code, a.id, a.original, a.secret, a.authenticator,
                                    a.store, a.first, a.second);
            var acceptable := Acceptable(d, c, packets[Find(s.pending, a.id).value.uid], a);
            && (acceptable ==> sent.Ok?)
            && (sent.Ok? ==> Received(c, s, packets, sent.value.raw, now) ==
                             if acceptable then Resolve(s, a.id, Answered(now)) else s)
  {
    var sent := SignedReply(d, c.hmac, c.md5, a.code, a.id, a.original, a.secret, a.authenticator, a.store, a.first,
                            a.second);
    ReplyVerifies(d, ReaderOf(c, packets[Find(s.pending, a.id).value.uid]), c.hmac, c.md5, a);
    SentHeader(d, c, a);
    if sent.Ok? { ReceivedExactly(c, s, packets, sent.value.raw, now); }
  }

  /** A datagram for a pending request resolves it when the reply is accepted, and is ignored otherwise. */
  lemma ReceivedExactly(c: Receiver, s: Net, packets: seq<Asked>, data: bytes, now: real)
    requires |data| >= 20 && data[0] != 0
    requires Find(s.pending, data[1]).Some? && Find(s.pending, data[1]).value.uid < |packets|
    ensures var asked := packets[Find(s.pending, data[1]).value.uid];
            Received(c, s, packets, data, now) ==
            if AcceptsReply(c.dict, asked.dict, c.hmac, c.md5, data, data[1], asked.secret, asked.code,
                            asked.authenticator, c.enforceMa)
            then Resolve(s, data[1], Answered(now)) else s
  {
  }

  lemma SentHeader(d: Dictionary, c: Receiver, a: Answer)
    requires SixteenOctets(c.hmac, c.md5) && Answerable(d, a)
    ensures var sent := SignedReply(d, c.hmac, c.md5, a.code, a.id, a.original, a.secret, a.authenticator,
                                    a.store, a.first, a.second);
            sent.Ok? ==> |sent.value.raw| >= 20 && sent.value.raw[0] == a.code && sent.value.raw[1] == a.id
  {
    SignedReplyIs(d, c.hmac, c.md5, a);
    var v := EncodeOctets(DigestOf(d, c.hmac, a));
    if v.Ok? { PlainHeader(d, c, a, WithMa(a.store, v.value)); }
  }

  lemma PlainHeader(d: Dictionary, c: Receiver, a: Answer, store: Store)
    requires |a.authenticator| == 16 && forall m :: |c.md5(m)| == 16
    ensures var sent := PlainReply(d, c.md5, a.code, a.id, a.secret, a.authenticator, store, a.second);
            sent.Ok? ==> |sent.value.raw| >= 20 && sent.value.raw[0] == a.code && sent.value.raw[1] == a.id
  {
    var encoded := EncodeWith(d, store, a.second);
    if encoded.Ok? && |encoded.value| <= 65515 {
      var response := c.md5(Prefix(a.code, a.id, encoded.value) + a.authenticator + encoded.value + a.secret);
      HeaderReadsBack(a.code, a.id, response, encoded.value);
    }
  }
}
