/** Inter-agent tokens: `payload:signature` in base64url, signed and checked. */
module Token {
  import opened Option
  import opened Base64Url
  import opened Sequences

  datatype Payload = Payload(sender: string, target: string, ts: int)

  /** The foreign functions: JSON text in UTF-8, its parser, and HMAC-SHA-256 under a secret. */
  datatype Wire = Wire(
    json: Payload -> seq<Byte>,
    parse: seq<Byte> -> Option<Payload>,
    hmac: (string, seq<Byte>) -> seq<Byte>)

  ghost predicate Faithful(w: Wire) {
    forall p :: w.parse(w.json(p)) == Some(p)
  }

  function SignToken(w: Wire, sender: string, target: string, secret: string, now: int): string {
    var payloadBytes := w.json(Payload(sender, target, now));
    Encode(payloadBytes) + ":" + Encode(w.hmac(secret, payloadBytes))
  }

  /** `token.indexOf(":")`. */
  function IndexOf(s: string, c: char): int {
    if c in s then Position(s, c) else -1
  }

  function Abs(x: int): nat {
    if x < 0 then -x else x
  }

  function VerifyToken(
      w: Wire, token: string, expectedTarget: string, secret: string, ttlMs: int, now: int): Option<Payload> {
    var separatorIndex := IndexOf(token, ':');
    if separatorIndex == -1 then None
    else
      var payloadBytes := Decode(token[..separatorIndex]);
      var signatureBytes := Decode(token[separatorIndex + 1..]);
      if payloadBytes.None? || signatureBytes.None? then None
      else if signatureBytes.value != w.hmac(secret, payloadBytes.value) then None
      else
        match w.parse(payloadBytes.value)
        case None => None
        case Some(payload) =>
          if payload.target != expectedTarget then None
          else if Abs(now - payload.ts) > ttlMs then None
          else Some(payload)
  }

  /**
   A signed token verifies exactly when the verifier's secret gives the same HMAC,
   the target is the expected one and the clocks are within the ttl; and then it
   gives back the signed payload.
   */
  lemma {:induction false} VerifySigned(w: Wire, sender: string, target: string, secret: string, sentAt: int,
                     expectedTarget: string, verifierSecret: string, ttlMs: int, now: int)
    requires Faithful(w)
    ensures var payload := Payload(sender, target, sentAt);
      VerifyToken(w, SignToken(w, sender, target, secret, sentAt), expectedTarget, verifierSecret, ttlMs, now) ==
      if w.hmac(verifierSecret, w.json(payload)) == w.hmac(secret, w.json(payload)) &&
         target == expectedTarget && sentAt - ttlMs <= now <= sentAt + ttlMs
      then Some(payload) else None
  {
    var bytes := w.json(Payload(sender, target, sentAt));
    var signature := w.hmac(secret, bytes);
    var token := SignToken(w, sender, target, secret, sentAt);
    EncodeAlphabet(bytes);
    EncodeAlphabet(signature);
    FirstSeparator(Encode(bytes), Encode(signature));
    DecodeEncode(bytes);
    DecodeEncode(signature);
  }

  /** The text before the first ":" and the text after it. */
  function Halves(token: string): (string, string)
    requires ':' in token
  {
    (token[..Position(token, ':')], token[Position(token, ':') + 1..])
  }

  /** The bytes `b` and their HMAC are what the token carries, and they parse to the payload. */
  ghost predicate Carries(w: Wire, token: string, secret: string, b: seq<Byte>, payload: Payload)
    requires ':' in token
  {
    && Decode(Halves(token).0) == Some(b) && Decode(Halves(token).1) == Some(w.hmac(secret, b))
    && w.parse(b) == Some(payload)
  }

  /**
   Every token that verifies, whoever made it, carries the payload's bytes and their
   HMAC under the secret, for the expected target and within the ttl; and it is the
   very text that signing those bytes gives exactly when both halves are canonical.
   */
  lemma {:induction false} VerifiedIsSigned(
      w: Wire, token: string, expectedTarget: string, secret: string, ttlMs: int, now: int, payload: Payload)
    requires VerifyToken(w, token, expectedTarget, secret, ttlMs, now) == Some(payload)
    ensures ':' in token && payload.target == expectedTarget
    ensures payload.ts - ttlMs <= now <= payload.ts + ttlMs
    ensures exists b :: Carries(w, token, secret, b, payload) &&
              (token == Encode(b) + ":" + Encode(w.hmac(secret, b)) <==>
                 Canonical(Halves(token).0) && Canonical(Halves(token).1))
  {
    var (head, tail) := Halves(token);
    var b := Decode(head).value;
    assert Carries(w, token, secret, b, payload);
    EncodeDecodeIff(head);
    EncodeDecodeIff(tail);
    EncodeAlphabet(b);
    Rejoined(token, Encode(b), Encode(w.hmac(secret, b)), Canonical(head), Canonical(tail));
  }

  lemma {:induction false} SameHalves(a: string, b: string, c: string, d: string)
    requires ':' !in a && ':' !in c
    ensures a + ":" + b == c + ":" + d <==> a == c && b == d
  {
    FirstSeparator(a, b);
    FirstSeparator(c, d);
  }

  /** A token is two texts around the separator exactly when they are its halves. */
  lemma {:induction false} Rejoined(token: string, a: string, b: string, first: bool, second: bool)
    requires ':' in token && ':' !in a
    requires (first <==> a == Halves(token).0) && (second <==> b == Halves(token).1)
    ensures token == a + ":" + b <==> first && second
  {
    var (head, tail) := Halves(token);
    assert token == head + ":" + tail;
    SameHalves(head, tail, a, b);
  }

  lemma {:induction false} FirstSeparator(a: string, b: string)
    requires ':' !in a
    ensures var t := a + ":" + b;
      IndexOf(t, ':') == |a| && t[..|a|] == a && t[|a| + 1..] == b
  {
    var t := a + ":" + b;
    assert t[|a|] == ':';
    assert forall k :: 0 <= k < |a| ==> t[k] == a[k] && a[k] != ':';
    forall j | |a| < j <= |t| ensures ':' in t[..j] {
      assert t[..j][|a|] == ':';
    }
  }
}
