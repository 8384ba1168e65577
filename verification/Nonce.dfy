/**
 Stateless server nonces: base64url( ts8 ‖ rand16 ‖ HMAC(secret, ts8 ‖ rand16) ).
 HMAC-SHA256 and base64url are library code, passed in as functions; `Lawful`
 lists everything that is assumed of them.
 */
module Nonce {
  import opened Base

  type byte = x: int | 0 <= x < 256

  const TS_LEN := 8
  const RAND_LEN := 16
  const PAYLOAD_LEN := TS_LEN + RAND_LEN
  const MAC_LEN := 32
  const NONCE_LEN := PAYLOAD_LEN + MAC_LEN
  const MIN_SECRET := 32
  const DEFAULT_LIFETIME := 300 * SECOND
  const FUTURE_TOLERANCE := 5 * SECOND
  const MAX_INT64 := 0x7fff_ffff_ffff_ffff

  type Entropy = r: seq<byte> | |r| == RAND_LEN witness seq(RAND_LEN, _ => 0)

  datatype Codec = Codec(
    mac: (seq<byte>, seq<byte>) -> seq<byte>,
    encode: seq<byte> -> string,
    decode: string -> Option<seq<byte>>)

  ghost predicate Lawful(lib: Codec) {
    && (forall secret, payload :: |lib.mac(secret, payload)| == MAC_LEN)
    && (forall raw :: lib.decode(lib.encode(raw)) == Some(raw))
    && lib.decode("") == Some([])
  }

  datatype SignedNonce = SignedNonce(secret: seq<byte>, lifetime: int)

  function NewSignedNonce(secret: seq<byte>, lifetime: int): (r: Option<SignedNonce>)
    ensures r.Some? <==> |secret| >= 32
    ensures r.Some? ==> r.value.secret == secret && r.value.lifetime > 0
    ensures r.Some? ==> r.value.lifetime == if lifetime > 0 then lifetime else 5 * 60 * SECOND
  {
    if |secret| < MIN_SECRET then None
    else Some(SignedNonce(secret, if lifetime <= 0 then DEFAULT_LIFETIME else lifetime))
  }

  // ---- Big-endian integers ----

  /** The low `width` bytes of `v`, most significant first. */
  function BigEndian(width: nat, v: nat): (bytes: seq<byte>)
    ensures |bytes| == width
  {
    if width == 0 then [] else BigEndian(width - 1, v / 256) + [v % 256]
  }

  function FromBigEndian(bytes: seq<byte>): nat {
    if bytes == [] then 0 else FromBigEndian(Init(bytes)) * 256 + Last(bytes)
  }

  function Pow256(n: nat): nat {
    if n == 0 then 1 else 256 * Pow256(n - 1)
  }

  lemma {:induction false} DecodeEncoded(width: nat, v: nat)
    requires v < Pow256(width)
    ensures FromBigEndian(BigEndian(width, v)) == v
  {
    if width > 0 {
      DecodeEncoded(width - 1, v / 256);
      assert Init(BigEndian(width, v)) == BigEndian(width - 1, v / 256);
    }
  }

  lemma {:induction false} EncodeDecoded(bytes: seq<byte>)
    ensures BigEndian(|bytes|, FromBigEndian(bytes)) == bytes
  {
    if bytes != [] {
      EncodeDecoded(Init(bytes));
      var high, low := FromBigEndian(Init(bytes)), Last(bytes);
      assert (high * 256 + low) / 256 == high && (high * 256 + low) % 256 == low;
      assert bytes == Init(bytes) + [low];
    }
  }

  /** Most significant byte first. */
  lemma {:induction false} FirstByteWeighsMost(b: byte, rest: seq<byte>)
    ensures FromBigEndian([b] + rest) == b * Pow256(|rest|) + FromBigEndian(rest)
    decreases |rest|
  {
    if rest == [] {
      assert [b] + rest == [b] && Init([b]) == [];
    } else {
      assert Init([b] + rest) == [b] + Init(rest) && Last([b] + rest) == Last(rest);
      FirstByteWeighsMost(b, Init(rest));
      assert b * Pow256(|rest| - 1) * 256 == b * (256 * Pow256(|rest| - 1));
    }
  }

  lemma Uint64RoundTrip(v: nat)
    requires v <= MAX_INT64
    ensures FromBigEndian(BigEndian(TS_LEN, v)) == v
  {
    assert Pow256(8) == 256 * 256 * 256 * 256 * 256 * 256 * 256 * 256 by {
      assert Pow256(4) == 256 * 256 * 256 * 256;
      assert Pow256(8) == 256 * (256 * (256 * (256 * Pow256(4))));
    }
    DecodeEncoded(TS_LEN, v);
  }

  // ---- Issue and Validate ----

  /** The Unix second an instant falls in. */
  function UnixSecond(t: int): int {
    t / SECOND
  }

  function Buffer(lib: Codec, source: SignedNonce, sec: nat, rand: Entropy): seq<byte> {
    var payload := BigEndian(TS_LEN, sec) + rand;
    payload + lib.mac(source.secret, payload)
  }

  /** `rand` is what the system's random source delivers; `None` when it fails. */
  function Issue(lib: Codec, source: SignedNonce, now: int, rand: Option<Entropy>): string {
    if UnixSecond(now) < 0 || rand.None? then ""
    else lib.encode(Buffer(lib, source, UnixSecond(now), rand.value))
  }

  predicate Validate(lib: Codec, source: SignedNonce, nonce: string, now: int) {
    var raw := lib.decode(nonce);
    && raw.Some?
    && |raw.value| == NONCE_LEN
    && var payload, mac := raw.value[..PAYLOAD_LEN], raw.value[PAYLOAD_LEN..];
    && mac == lib.mac(source.secret, payload)
    && var ts := FromBigEndian(payload[..TS_LEN]);
    && ts <= MAX_INT64
    && !(now - ts * SECOND > source.lifetime)
    && !(ts * SECOND > now + FUTURE_TOLERANCE)
  }

  /** The acceptance window around the second a nonce was stamped with. */
  predicate InWindow(source: SignedNonce, sec: int, now: int) {
    sec * SECOND - FUTURE_TOLERANCE <= now <= sec * SECOND + source.lifetime
  }

  lemma BufferValidates(lib: Codec, source: SignedNonce, nonce: string, sec: nat, rand: Entropy, now: int)
    requires Lawful(lib) && sec <= MAX_INT64
    requires lib.decode(nonce) == Some(Buffer(lib, source, sec, rand))
    ensures Validate(lib, source, nonce, now) <==> InWindow(source, sec, now)
  {
    var raw := Buffer(lib, source, sec, rand);
    var payload := BigEndian(TS_LEN, sec) + rand;
    assert raw[..PAYLOAD_LEN] == payload && raw[PAYLOAD_LEN..] == lib.mac(source.secret, payload);
    assert payload[..TS_LEN] == BigEndian(TS_LEN, sec);
    Uint64RoundTrip(sec);
  }

  /**
   A nonce issued at `t` by one replica validates at `t'` on another with the
   same secret exactly within [floor(t) - 5s, floor(t) + that one's lifetime].
   */
  lemma IssueValidateRoundTrip(lib: Codec, issuer: SignedNonce, checker: SignedNonce, t: int, rand: Entropy, t': int)
    requires Lawful(lib) && 0 <= t && UnixSecond(t) <= MAX_INT64 && issuer.secret == checker.secret
    ensures Issue(lib, issuer, t, Some(rand)) != ""
    ensures Validate(lib, checker, Issue(lib, issuer, t, Some(rand)), t') <==>
            t - t % SECOND - 5 * SECOND <= t' <= t - t % SECOND + checker.lifetime
    ensures Validate(lib, checker, Issue(lib, issuer, t, Some(rand)), t') ==> t' <= t + checker.lifetime
  {
    var raw := Buffer(lib, issuer, UnixSecond(t), rand);
    assert lib.decode(lib.encode(raw)) == Some(raw);
    assert raw != [];
    BufferValidates(lib, checker, lib.encode(raw), UnixSecond(t), rand, t');
  }

  /** Nothing but the bytes `Issue` lays out for some second in the window is ever accepted. */
  lemma OnlyIssuedBytesValidate(lib: Codec, source: SignedNonce, nonce: string, now: int)
    requires Lawful(lib)
    ensures Validate(lib, source, nonce, now) <==>
            exists sec: nat, rand: Entropy ::
              && sec <= MAX_INT64 && sec * SECOND - 5 * SECOND <= now <= sec * SECOND + source.lifetime
              && var payload := BigEndian(8, sec) + rand;
              lib.decode(nonce) == Some(payload + lib.mac(source.secret, payload))
    ensures Validate(lib, source, nonce, now) ==> |lib.decode(nonce).value| == 56
  {
    if Validate(lib, source, nonce, now) {
      var raw := lib.decode(nonce).value;
      var payload := raw[..PAYLOAD_LEN];
      var ts, rand: Entropy := payload[..TS_LEN], payload[TS_LEN..];
      EncodeDecoded(ts);
      var sec := FromBigEndian(ts);
      assert payload == BigEndian(8, sec) + rand && raw == payload + lib.mac(source.secret, payload);
    }
    forall sec: nat, rand: Entropy |
      && sec <= MAX_INT64 && sec * SECOND - 5 * SECOND <= now <= sec * SECOND + source.lifetime
      && var payload := BigEndian(8, sec) + rand;
      lib.decode(nonce) == Some(payload + lib.mac(source.secret, payload))
      ensures Validate(lib, source, nonce, now)
    {
      BufferValidates(lib, source, nonce, sec, rand, now);
    }
  }

  /** Writes `v` into `buf[..8]`, most significant byte first. */
  method PutUint64(buf: array<byte>, v: nat)
    requires buf.Length >= TS_LEN
    modifies buf
    ensures buf[..TS_LEN] == BigEndian(TS_LEN, v)
    ensures buf[TS_LEN..] == old(buf[TS_LEN..])
  {
    var k, rest := TS_LEN, v;
    while k > 0
      invariant 0 <= k <= TS_LEN && rest >= 0
      invariant BigEndian(TS_LEN, v) == BigEndian(k, rest) + buf[k..TS_LEN]
      invariant buf[TS_LEN..] == old(buf[TS_LEN..])
    {
      buf[k - 1] := rest % 256;
      assert buf[k - 1..TS_LEN] == [rest % 256] + buf[k..TS_LEN];
      k, rest := k - 1, rest / 256;
    }
  }

  method IssueInto(lib: Codec, source: SignedNonce, now: int, rand: Option<Entropy>) returns (nonce: string)
    requires Lawful(lib)
    ensures nonce == Issue(lib, source, now, rand)
  {
    var sec := UnixSecond(now);
    if sec < 0 {
      return "";
    }
    var buf := new byte[NONCE_LEN](_ => 0);
    PutUint64(buf, sec);
    if rand.None? {
      return "";
    }
    forall i | 0 <= i < RAND_LEN {
      buf[TS_LEN + i] := rand.value[i];
    }
    assert buf[..TS_LEN] == BigEndian(TS_LEN, sec);
    var payload := buf[..PAYLOAD_LEN];
    assert payload == BigEndian(TS_LEN, sec) + rand.value;
    var mac := lib.mac(source.secret, payload);
    forall i | 0 <= i < MAC_LEN {
      buf[PAYLOAD_LEN + i] := mac[i];
    }
    assert buf[..] == payload + mac;
    nonce := lib.encode(buf[..]);
  }
}
