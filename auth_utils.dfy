/**
 * The admin session token: `createSessionToken` builds
 * base64("admin:<ms>:<random hex>:<hex HMAC of the first three parts>") and
 * `verifySessionToken` checks the part count, the prefix, the 24-hour age and
 * the HMAC. Base64, HMAC-SHA256 and the random bytes are inputs.
 */
module AuthUtils {
  import opened Wrappers
  import opened Strings

  /**
   * The server's secret (`ADMIN_PASSWORD`; `None` when unset) and the
   * foreign functions: base64 of the UTF-8 bytes and back, and the
   * lowercase hex digest of HMAC-SHA256 under a key.
   */
  datatype Crypto = Crypto(
    secret: Option<string>,
    base64Encode: string -> string,
    base64Decode: string -> string,
    hmacHex: (string, string) -> string)

  predicate IsLowerHexDigit(c: char) {
    IsDigit(c) || 'a' <= c <= 'f'
  }

  predicate IsHexDigit(c: char) {
    IsLowerHexDigit(c) || 'A' <= c <= 'F'
  }

  /**
   * Decoding undoes encoding, the empty string encodes to itself, and a
   * digest is 64 lowercase hex digits.
   */
  ghost predicate Lawful(c: Crypto) {
    (forall s :: c.base64Decode(c.base64Encode(s)) == s)
    && c.base64Encode("") == ""
    && (forall key, data :: |c.hmacHex(key, data)| == 64
          && forall i :: 0 <= i < 64 ==> IsLowerHexDigit(c.hmacHex(key, data)[i]))
  }

  /** `getSecret()` succeeds: the variable is set and not empty. */
  predicate HasSecret(c: Crypto) {
    c.secret.Some? && c.secret.value != ""
  }

  /** The token lifetime, `24 * 60 * 60 * 1000` ms. */
  const MaxAge: int := 86_400_000

  function HexValue(c: char): (v: nat)
    requires IsHexDigit(c)
    ensures v < 16
  {
    if IsDigit(c) then c as int - '0' as int
    else if 'a' <= c <= 'f' then c as int - 'a' as int + 10
    else c as int - 'A' as int + 10
  }

  /**
   * `Buffer.from(s, 'hex')`: bytes from leading pairs of hex digits, stopping
   * at the first pair that is not one (an odd last digit is dropped).
   */
  function HexBytes(s: string): (r: seq<nat>)
    ensures |r| <= |s| / 2
    ensures forall k :: 0 <= k < |r| ==> r[k] < 256
  {
    if |s| >= 2 && IsHexDigit(s[0]) && IsHexDigit(s[1]) then
      [HexValue(s[0]) * 16 + HexValue(s[1])] + HexBytes(s[2..])
    else []
  }

  /** A string of an even number of hex digits decodes to half as many bytes. */
  lemma {:induction false} HexBytesLength(s: string)
    requires |s| % 2 == 0 && forall i :: 0 <= i < |s| ==> IsHexDigit(s[i])
    ensures |HexBytes(s)| == |s| / 2
    decreases |s|
  {
    if |s| >= 2 {
      HexBytesLength(s[2..]);
    }
  }

  /**
   * `crypto.timingSafeEqual(a, b)`: it throws on buffers of different
   * lengths; the caller's `catch` turns that into `false`.
   */
  function SafeEqual(a: seq<nat>, b: seq<nat>): (r: bool)
    ensures r <==> a == b
  {
    |a| == |b| && a == b
  }

  /** The signed part `"<prefix>:<timestamp>:<random>"`. */
  function SignedData(prefix: string, timestamp: string, random: string): string {
    prefix + ":" + timestamp + ":" + random
  }

  /**
   * `createSessionToken()` at clock value `now` with the hex string of the
   * 16 random bytes; `None` stands for the exception thrown without a secret.
   */
  function CreateSessionToken(c: Crypto, now: nat, randomHex: string): (r: Option<string>)
    ensures r.Some? <==> HasSecret(c)
  {
    if !HasSecret(c) then None
    else
      var data := SignedData("admin", NatToString(now), randomHex);
      Some(c.base64Encode(data + ":" + c.hmacHex(c.secret.value, data)))
  }

  /** `verifySessionToken(token)` at clock value `now`. */
  function VerifySessionToken(c: Crypto, token: string, now: int): (ok: bool)
    ensures ok ==> HasSecret(c)
    ensures ok ==> |Split(c.base64Decode(token), ':')| == 4 && Split(c.base64Decode(token), ':')[0] == "admin"
    ensures ok ==> var t := ParseInt(Split(c.base64Decode(token), ':')[1]); t.None? || now - t.value <= MaxAge
    ensures ok ==> var p := Split(c.base64Decode(token), ':');
      HexBytes(p[3]) == HexBytes(c.hmacHex(c.secret.value, SignedData(p[0], p[1], p[2])))
  {
    if !HasSecret(c) then false
    else
      var parts := Split(c.base64Decode(token), ':');
      if |parts| != 4 then false
      else if parts[0] != "admin" then false
      // `Date.now() - NaN > MaxAge` is false, so an unreadable timestamp passes this check
      else if ParseInt(parts[1]).Some? && now - ParseInt(parts[1]).value > MaxAge then false
      else
        var expected := c.hmacHex(c.secret.value, SignedData(parts[0], parts[1], parts[2]));
        SafeEqual(HexBytes(parts[3]), HexBytes(expected))
  }

  /** A token whose fourth part does not carry the HMAC of the first three, as bytes, is rejected. */
  lemma ForgedSignatureRejected(c: Crypto, token: string, now: int)
    requires HasSecret(c)
    requires var p := Split(c.base64Decode(token), ':');
      |p| == 4 && HexBytes(p[3]) != HexBytes(c.hmacHex(c.secret.value, SignedData(p[0], p[1], p[2])))
    ensures !VerifySessionToken(c, token, now)
  {
  }

  /**
   * The converse: with a secret, four parts, the "admin" prefix, a timestamp
   * no more than 24 hours old (or unreadable) and a matching signature, the
   * token is accepted.
   */
  lemma SignedTokenAccepted(c: Crypto, token: string, now: int)
    requires HasSecret(c)
    requires var p := Split(c.base64Decode(token), ':');
      && |p| == 4 && p[0] == "admin"
      && (ParseInt(p[1]).None? || now - ParseInt(p[1]).value <= MaxAge)
      && HexBytes(p[3]) == HexBytes(c.hmacHex(c.secret.value, SignedData(p[0], p[1], p[2])))
    ensures VerifySessionToken(c, token, now)
  {
  }

  /** Fail closed: without a secret no token is created and none verifies. */
  lemma FailClosed(c: Crypto, token: string, now: int, randomHex: string)
    requires !HasSecret(c)
    ensures !VerifySessionToken(c, token, now)
    ensures forall n: nat :: CreateSessionToken(c, n, randomHex).None?
  {
  }

  /** A decoded token that is not four `:`-separated parts, or whose prefix is not "admin", is rejected. */
  lemma RejectsMalformed(c: Crypto, token: string, now: int)
    requires |Split(c.base64Decode(token), ':')| != 4 || Split(c.base64Decode(token), ':')[0] != "admin"
    ensures !VerifySessionToken(c, token, now)
  {
  }

  /**
   * The age check rejects a token more than 24 hours old and nothing else:
   * a token dated in the future passes it.
   */
  lemma AgeCheck(c: Crypto, token: string, now: int)
    requires VerifySessionToken(c, token, now)
    ensures var t := ParseInt(Split(c.base64Decode(token), ':')[1]);
      t.Some? ==> t.value >= now - MaxAge
  {
  }

  /** The pieces of a created token, decoded and split. */
  lemma {:induction false} CreatedTokenParts(c: Crypto, now: nat, randomHex: string)
    requires Lawful(c) && HasSecret(c)
    requires forall i :: 0 <= i < |randomHex| ==> IsLowerHexDigit(randomHex[i])
    ensures var data := SignedData("admin", NatToString(now), randomHex);
      var h := c.hmacHex(c.secret.value, data);
      Split(c.base64Decode(CreateSessionToken(c, now, randomHex).value), ':') == ["admin", NatToString(now), randomHex, h]
  {
    var ts := NatToString(now);
    var data := SignedData("admin", ts, randomHex);
    var h := c.hmacHex(c.secret.value, data);
    var parts := ["admin", ts, randomHex, h];
    assert ':' !in "admin";
    assert forall i :: 0 <= i < |ts| ==> IsDigit(ts[i]);
    assert ':' !in ts;
    assert ':' !in randomHex by {
      assert forall i :: 0 <= i < |randomHex| ==> randomHex[i] != ':';
    }
    assert ':' !in h by {
      assert forall i :: 0 <= i < |h| ==> IsLowerHexDigit(h[i]);
    }
    assert Join(parts, ':') == data + ":" + h by {
      assert Join(parts[3..], ':') == h;
      assert Join(parts[2..], ':') == randomHex + ":" + h;
      assert Join(parts[1..], ':') == ts + ":" + randomHex + ":" + h;
    }
    SplitJoin(parts, ':');
  }

  /**
   * Round trip: a token created at `now` verifies at every `now2` from
   * `now` to `now + 24h`.
   */
  lemma CreateThenVerify(c: Crypto, now: nat, randomHex: string, now2: int)
    requires Lawful(c) && HasSecret(c)
    requires forall i :: 0 <= i < |randomHex| ==> IsLowerHexDigit(randomHex[i])
    requires now <= now2 <= now + MaxAge
    ensures VerifySessionToken(c, CreateSessionToken(c, now, randomHex).value, now2)
  {
    CreatedTokenParts(c, now, randomHex);
    ParseIntNatToString(now);
  }
}
