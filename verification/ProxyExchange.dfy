/**
 * Sign-and-inject and verify-and-strip, after solomon-core/src/proxy.rs: what the receiver strips
 * out is what the sender signed.
 */
module ProxyExchange {
  import opened Basics
  import opened Iso8583
  import opened Iso8583Exact

  const SIG_BYTES := 3309

  /** The parts of the authorization proof, 32 bytes each. */
  datatype Proof = Proof(identity: Bytes, attestation: Bytes, state: Bytes, elements: Bytes)

  predicate ProofShape(p: Proof)
  {
    |p.identity| == 32 && |p.attestation| == 32 && |p.state| == 32 && |p.elements| == 32
  }

  function Payload(p: Proof, sig: Bytes): Bytes
  {
    p.identity + p.attestation + p.state + p.elements + sig
  }

  /** What the ingress side sends: the message with the payload in the configured field. */
  method SignAndInject(msg: Message, field: nat, proof: Proof, sig: Bytes) returns (signed: Bytes, sent: Bytes)
    ensures signed == SerializeHex(msg) && sent == SerializeHex(Injected(msg, field, Payload(proof, sig)))
  {
    hide SerializeHex;
    signed := SerializeMessage(msg, true);
    var payload: Bytes := [];
    payload := payload + proof.identity;
    payload := payload + proof.attestation;
    payload := payload + proof.state;
    payload := payload + proof.elements;
    payload := payload + sig;
    assert payload == Payload(proof, sig);
    var isoMsg := Injected(msg, field, payload);
    sent := SerializeMessage(isoMsg, true);
  }

  /** inject_pqc_field: a field number outside 1 to 128 leaves the message as it is. */
  function Injected(msg: Message, field: nat, payload: Bytes): Message
  {
    if 1 <= field <= 128 then msg.(fields := msg.fields[field := payload]) else msg
  }

  datatype Failure =
    | Unparsable(error: Error) | Stale | MissingField | PayloadTooShort
    | IdentityMismatch | ElementsMismatch | BadSignature

  datatype Outcome = Delivered(clean: Bytes) | Refused(failure: Failure)

  /** The receiver's surroundings: its identity, the hash, the signature check and the clock check. */
  datatype Receiver = Receiver(identity: Bytes, hash: Bytes -> Bytes, verify: (Bytes, Bytes) -> bool,
    isFresh: Bytes -> bool)

  predicate Financial(msg: Message)
    requires |msg.mti| == 4
  {
    msg.mti[0] == 48 && (msg.mti[1] == 49 || msg.mti[1] == 50)
  }

  /** Field 7, where present, is fresh. */
  predicate Timely(r: Receiver, msg: Message)
    requires |msg.mti| == 4
  {
    Financial(msg) && 7 in msg.fields ==> r.isFresh(msg.fields[7])
  }

  function StripField(msg: Message): Option<nat>
  {
    if 112 in msg.fields then Some(112) else if 123 in msg.fields then Some(123) else None
  }

  function Stripped(msg: Message, field: nat): Message
  {
    msg.(fields := msg.fields - {field})
  }

  /** The checks on a stripped payload. */
  function Check(r: Receiver, payload: Bytes, clean: Bytes): Outcome
  {
    if |payload| < 128 then Refused(PayloadTooShort)
    else if payload[..32] != r.identity then Refused(IdentityMismatch)
    else if payload[96..128] != r.hash(payload[..96]) then Refused(ElementsMismatch)
    else if |payload| >= 128 + SIG_BYTES && !r.verify(clean, payload[128..128 + SIG_BYTES]) then Refused(BadSignature)
    else Delivered(clean)
  }

  /** process_receiving_iso8583_message. */
  method Receive(r: Receiver, packet: Bytes) returns (out: Outcome)
    ensures out == Received(r, packet)
  {
    hide Parse, SerializeHex, Check;
    var parsed := ParseMessage(packet);
    if parsed.Err? { return Refused(Unparsable(parsed.error)); }
    var isoMsg := parsed.value;
    TypeLength(packet);
    if Financial(isoMsg) && 7 in isoMsg.fields && !r.isFresh(isoMsg.fields[7]) { return Refused(Stale); }
    var field := StripField(isoMsg);
    if field.None? { return Refused(MissingField); }
    var payload := isoMsg.fields[field.value];
    isoMsg := Stripped(isoMsg, field.value);
    var clean := SerializeMessage(isoMsg, true);
    return Check(r, payload, clean);
  }

  lemma TypeLength(packet: Bytes)
    ensures Parse(packet).Ok? ==> |Parse(packet).value.mti| == 4
  {
    hide Parse, SerializeHex, FieldsFit;
    ParseStable(packet);
  }

  ghost function Received(r: Receiver, packet: Bytes): Outcome
  {
    hide Parse, SerializeHex, Check;
    var parsed := Parse(packet);
    TypeLength(packet);
    if parsed.Err? then Refused(Unparsable(parsed.error))
    else if !Timely(r, parsed.value) then Refused(Stale)
    else
      var field := StripField(parsed.value);
      if field.None? then Refused(MissingField)
      else Check(r, parsed.value.fields[field.value], SerializeHex(Stripped(parsed.value, field.value)))
  }

  // ----- what the receiver decides, for every packet

  /** The message is of class 1 or 2, of version 0, and its field 7 is not fresh. */
  ghost predicate Late(r: Receiver, msg: Message)
  {
    |msg.mti| == 4 && msg.mti[0] == 48 && msg.mti[1] in {49, 50} && 7 in msg.fields && !r.isFresh(msg.fields[7])
  }

  /** A packet is stale if and only if it parses to a late message. */
  lemma StaleExactly(r: Receiver, packet: Bytes)
    ensures Received(r, packet) == Refused(Stale) <==> Parse(packet).Ok? && Late(r, Parse(packet).value)
  {
    hide Parse, SerializeHex;
    TypeLength(packet);
  }

  /**
   * A packet is delivered if and only if it parses, is not late, has field 112 or else 123, and of
   * that field the first 32 bytes are the receiver's identity, the fourth 32 the hash of the first
   * 96, and the 3309 after them, if there are so many, a signature of the rest of the message.
   */
  lemma DeliveredExactly(r: Receiver, packet: Bytes, clean: Bytes)
    ensures Received(r, packet) == Delivered(clean)
            <==> && Parse(packet).Ok? && !Late(r, Parse(packet).value)
                 && var m := Parse(packet).value; var f := if 112 in m.fields then 112 else 123;
                    && f in m.fields && clean == SerializeHex(Message(m.mti, m.fields - {f}))
                    && var b := m.fields[f];
                       && |b| >= 128 && b[..32] == r.identity && b[96..128] == r.hash(b[..96])
                       && (|b| >= 3437 ==> r.verify(clean, b[128..3437]))
  {
    hide Parse, SerializeHex;
    TypeLength(packet);
  }

  /** Of a message that parses and is not late, why it is refused. */
  lemma RefusedExactly(r: Receiver, packet: Bytes)
    requires Parse(packet).Ok? && !Late(r, Parse(packet).value)
    ensures var m, out := Parse(packet).value, Received(r, packet);
            var f := if 112 in m.fields then 112 else 123;
            && (out == Refused(MissingField) <==> 112 !in m.fields && 123 !in m.fields)
            && (f in m.fields ==>
                  var b := m.fields[f];
                  && (out == Refused(PayloadTooShort) <==> |b| < 128)
                  && (out == Refused(IdentityMismatch) <==> |b| >= 128 && b[..32] != r.identity)
                  && (out == Refused(ElementsMismatch)
                      <==> |b| >= 128 && b[..32] == r.identity && b[96..128] != r.hash(b[..96]))
                  && (out == Refused(BadSignature)
                      <==> && |b| >= 3437 && b[..32] == r.identity && b[96..128] == r.hash(b[..96])
                           && !r.verify(SerializeHex(Message(m.mti, m.fields - {f})), b[128..3437])))
  {
    hide Parse, SerializeHex;
    TypeLength(packet);
  }

  // ----- the exchange

  lemma InjectedWellFormed(msg: Message, field: nat, proof: Proof, sig: Bytes)
    requires WellFormed(msg) && ProofShape(proof) && |sig| == SIG_BYTES && (field == 112 || field == 123)
    ensures WellFormed(Injected(msg, field, Payload(proof, sig)))
  {}

  /** Injection can be undone by the receiver: the field it picks is the one injected, and was free. */
  predicate Reversible(msg: Message, field: nat)
  {
    (field == 112 || field == 123) && field !in msg.fields && 112 !in msg.fields
  }

  /**
   * What the receiver parses and strips is the payload and the signed bytes exactly when the
   * injection is reversible; otherwise a field of the message is lost.
   */
  lemma StripUndoesInject(msg: Message, field: nat, proof: Proof, sig: Bytes)
    requires WellFormed(msg) && ProofShape(proof) && |sig| == SIG_BYTES && (field == 112 || field == 123)
    ensures var payload := Payload(proof, sig);
            var sent := Injected(msg, field, payload);
            && Parse(SerializeHex(sent)) == Ok(sent) && StripField(sent).Some?
            && ((sent.fields[StripField(sent).value] == payload
              && SerializeHex(Stripped(sent, StripField(sent).value)) == SerializeHex(msg))
                <==> Reversible(msg, field))
  {
    hide Parse, SerializeHex, WellFormed;
    var payload := Payload(proof, sig);
    var sent := Injected(msg, field, payload);
    InjectedWellFormed(msg, field, proof, sig);
    SerializeHexParses(sent);
    var f := StripField(sent).value;
    var clean := Stripped(sent, f);
    StrippedWellFormed(sent, f);
    if Reversible(msg, field) {
      assert clean.fields == msg.fields;
    } else if SerializeHex(clean) == SerializeHex(msg) {
      SerializeHexParses(clean);
      SerializeHexParses(msg);
      assert f in msg.fields && f !in clean.fields;
    }
  }

  lemma StrippedWellFormed(msg: Message, field: nat)
    requires WellFormed(msg)
    ensures WellFormed(Stripped(msg, field))
  {}

  /** The payload splits into the parts it was made of. */
  lemma PayloadSplits(p: Proof, sig: Bytes)
    requires ProofShape(p) && |sig| == SIG_BYTES
    ensures var b := Payload(p, sig);
            && |b| == 3437 && b[..32] == p.identity && b[32..64] == p.attestation && b[64..96] == p.state
            && b[96..128] == p.elements && b[128..3437] == sig
            && b[..96] == p.identity + p.attestation + p.state
  {}

  /** The message the receiver parses, for any field number: payloads cut to what their field holds. */
  lemma SentParses(msg: Message, field: nat, payload: Bytes)
    requires WellFormed(msg)
    ensures var sent := Injected(msg, field, payload); var parsed := Normal(sent);
            && WellFormed(parsed) && Parse(SerializeHex(sent)) == Ok(parsed) && parsed.mti == msg.mti
            && (forall n | n in parsed.fields :: n in msg.fields || n == field)
            && (forall n | n in msg.fields :: n in parsed.fields && (n != field ==> parsed.fields[n] == msg.fields[n]))
            && (2 <= field <= 128 ==> field in parsed.fields)
  {
    hide Parse, SerializeHex, NormalData, DigitMti, FieldOk;
    var sent := Injected(msg, field, payload);
    SerializeNormalizes(sent);
    forall n | n in msg.fields && n != field ensures NormalData(n, msg.fields[n]) == msg.fields[n] {
      FittingUnchanged(n, msg.fields[n]);
    }
  }

  lemma FittingUnchanged(n: nat, data: Bytes)
    requires FieldOk(n, data)
    ensures NormalData(n, data) == data
  {
    hide FieldKind;
  }

  /**
   * Injected into any other field, the payload is not looked at: the receiver misses its field, or
   * strips one of the message itself.
   */
  lemma OtherFieldUnseen(r: Receiver, msg: Message, field: nat, payload: Bytes)
    requires WellFormed(msg) && field != 112 && field != 123
    ensures var parsed := Normal(Injected(msg, field, payload));
            var out := Received(r, SerializeHex(Injected(msg, field, payload)));
            && |parsed.mti| == 4 && StripField(parsed) == StripField(msg)
            && (StripField(msg).None? ==> out == Refused(if Timely(r, parsed) then MissingField else Stale))
            && (StripField(msg).Some? ==>
                  var f := StripField(msg).value;
                  && f in parsed.fields && parsed.fields[f] == msg.fields[f]
                  && (Timely(r, parsed) ==> out == Check(r, msg.fields[f], SerializeHex(Stripped(parsed, f)))))
  {
    hide Parse, SerializeHex, Normal, FieldsFit, Check, Injected;
    SentParses(msg, field, payload);
  }

  /** Unless the injection is reversible, the receiver does not deliver the signed bytes. */
  lemma IrreversibleLost(r: Receiver, msg: Message, field: nat, payload: Bytes)
    requires WellFormed(msg) && !Reversible(msg, field)
    ensures Received(r, SerializeHex(Injected(msg, field, payload))) != Delivered(SerializeHex(msg))
  {
    hide Parse, SerializeHex, Normal, WellFormed, Injected, Timely;
    SentParses(msg, field, payload);
    var parsed := Normal(Injected(msg, field, payload));
    var field' := StripField(parsed);
    if field'.Some? {
      var f := field'.value;
      var clean := Stripped(parsed, f);
      StrippedWellFormed(parsed, f);
      SerializeHexParses(clean);
      SerializeHexParses(msg);
      assert f in msg.fields && f !in clean.fields;
    }
  }

  /**
   * Verify-and-strip inverts sign-and-inject: for every field number the receiver delivers the
   * signed bytes if and only if the injection is reversible, the identity is its own, the proof
   * elements hash correctly, the signature over those bytes verifies and field 7 is fresh.
   */
  lemma ExchangeDelivers(r: Receiver, msg: Message, field: nat, proof: Proof, sig: Bytes)
    requires WellFormed(msg) && ProofShape(proof) && |sig| == SIG_BYTES
    ensures Received(r, SerializeHex(Injected(msg, field, Payload(proof, sig)))) == Delivered(SerializeHex(msg))
            <==> && Reversible(msg, field) && Timely(r, msg) && proof.identity == r.identity
                 && proof.elements == r.hash(proof.identity + proof.attestation + proof.state)
                 && r.verify(SerializeHex(msg), sig)
  {
    hide Parse, SerializeHex, FieldsFit;
    if Reversible(msg, field) {
      StripUndoesInject(msg, field, proof, sig);
      PayloadSplits(proof, sig);
    } else {
      IrreversibleLost(r, msg, field, Payload(proof, sig));
    }
  }
}
