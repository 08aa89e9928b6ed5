/** The Zego "token04" builder: ordered argument validation with error
    codes, PKCS#5 padding of the UTF-8 plaintext, the random IV, and the
    fixed big-endian byte layout around the ciphertext. JSON rendering,
    AES-CBC, base64, the clock and the random source are parameters. */
module ZegoToken {
  import opened Wrappers

  newtype byte = x: int | 0 <= x < 256

  const ErrorSuccess: int := 0
  const ErrorAppIdInvalid: int := 1
  const ErrorUserIdInvalid: int := 3
  const ErrorSecretInvalid: int := 5
  const ErrorEffectiveTimeInvalid: int := 6

  /** A Python argument, as far as `type(x) != int` and `type(x) != str`
      can tell: a bool is not an int here. */
  datatype PyValue = PyInt(i: int) | PyBool(b: bool) | PyStr(s: string) | PyNone | PyOther

  datatype TokenInfo = TokenInfo(token: string, errorCode: int, errorMessage: string)

  function Repeat<T>(x: T, n: nat): (r: seq<T>)
    ensures |r| == n
    ensures forall i :: 0 <= i < n ==> r[i] == x
  {
    if n == 0 then [] else Repeat(x, n - 1) + [x]
  }

  // -------------------------------------------------------------- UTF-8

  predicate IsAscii(s: string) {
    forall i :: 0 <= i < |s| ==> (s[i] as int) < 0x80
  }

  /** The UTF-8 encoding of one scalar value. */
  function Utf8Char(c: char): (r: seq<byte>)
    ensures 1 <= |r| <= 4
    ensures |r| == 1 <==> (c as int) < 0x80
    ensures |r| == 1 ==> r[0] as int == c as int
    ensures |r| > 1 ==> r[0] >= 0xC0 && forall i :: 1 <= i < |r| ==> 0x80 <= r[i] < 0xC0
  {
    var n := c as int;
    if n < 0x80 then [n as byte]
    else if n < 0x800 then [(0xC0 + n / 64) as byte, (0x80 + n % 64) as byte]
    else if n < 0x10000 then
      [(0xE0 + n / 4096) as byte, (0x80 + (n / 64) % 64) as byte, (0x80 + n % 64) as byte]
    else
      [(0xF0 + n / 262144) as byte, (0x80 + (n / 4096) % 64) as byte,
       (0x80 + (n / 64) % 64) as byte, (0x80 + n % 64) as byte]
  }

  /** Python's `s.encode('utf-8')`. It is never shorter than the text, and
      has the same length exactly when every character is ASCII. */
  function Utf8(s: string): (r: seq<byte>)
    ensures |r| >= |s|
    ensures |r| == |s| <==> IsAscii(s)
  {
    if s == [] then [] else Utf8Char(s[0]) + Utf8(s[1..])
  }

  lemma {:induction false} Utf8Append(a: string, b: string)
    ensures Utf8(a + b) == Utf8(a) + Utf8(b)
  {
    if a == [] {
      assert a + b == b;
    } else {
      assert (a + b)[0] == a[0];
      assert (a + b)[1..] == a[1..] + b;
      Utf8Append(a[1..], b);
    }
  }

  /** An ASCII character repeated encodes to its code repeated. */
  lemma {:induction false} Utf8Repeat(c: char, n: nat)
    requires (c as int) < 0x80
    ensures Utf8(Repeat(c, n)) == Repeat((c as int) as byte, n)
  {
    if n > 0 {
      Utf8Append(Repeat(c, n - 1), [c]);
      Utf8Repeat(c, n - 1);
      assert Utf8([c]) == Utf8Char(c) + Utf8([]);
    }
  }

  // ------------------------------------------------------------ padding

  /** Python's `a % b`: the remainder takes the sign of the divisor. */
  function PyMod(a: int, b: int): (r: int)
    requires b != 0
    ensures b > 0 ==> r == a % b
    ensures b < 0 ==> b < r <= 0 && (r == 0 <==> a % b == 0)
  {
    if a % b == 0 then 0 else if b > 0 then a % b else a % b + b
  }

  /** `__aes_pkcs5_padding`: `p = block_size - n % block_size`, where `n`
      is the byte length of the UTF-8 encoding, then `p` copies of `chr(p)`
      are appended; a negative `p` gives None. */
  function Pkcs5Padding(text: string, blockSize: int): (r: Option<string>)
    requires blockSize != 0 && blockSize < 0xD800
    ensures r.None? <==> blockSize < 0
    ensures r.Some? ==>
      && text <= r.value
      && var p := |r.value| - |text|;
         && 1 <= p <= blockSize
         && p == blockSize - |Utf8(text)| % blockSize
         && forall i :: |text| <= i < |r.value| ==> r.value[i] as int == p
  {
    var paddingSize := if |text| == |Utf8(text)| then |text| else |Utf8(text)|;
    var padding := blockSize - PyMod(paddingSize, blockSize);
    if padding < 0 then None
    else Some(text + Repeat(padding as char, padding))
  }

  /** The padded text encodes to a whole number of blocks, longer than the
      unpadded encoding by at most one block. */
  lemma PaddedIsAligned(text: string)
    ensures var padded := Pkcs5Padding(text, 16).value;
      |Utf8(padded)| % 16 == 0 && |Utf8(text)| < |Utf8(padded)| <= |Utf8(text)| + 16
  {
    var padded := Pkcs5Padding(text, 16).value;
    var p := |padded| - |text|;
    assert padded == text + padded[|text|..];
    assert padded[|text|..] == Repeat(p as char, p);
    Utf8Append(text, Repeat(p as char, p));
    Utf8Repeat(p as char, p);
  }

  /** Removing PKCS#5 padding (section 6.1.1 of RFC 8018): the last byte
      `p` must lie in 1..blockSize and the last `p` bytes must all be `p`. */
  function Pkcs5Unpad(b: seq<byte>, blockSize: nat): (r: Option<seq<byte>>)
    ensures r.Some? ==> r.value <= b && 1 <= |b| - |r.value| <= blockSize
  {
    if |b| == 0 then None
    else
      var p := b[|b| - 1] as int;
      if 1 <= p <= blockSize && p <= |b| && forall i :: |b| - p <= i < |b| ==> b[i] as int == p
      then Some(b[..|b| - p])
      else None
  }

  /** Unpadding the encoded padded text gives back the encoded text. */
  lemma PaddingRoundTrip(text: string)
    ensures Pkcs5Unpad(Utf8(Pkcs5Padding(text, 16).value), 16) == Some(Utf8(text))
  {
    var padded := Pkcs5Padding(text, 16).value;
    var p := |padded| - |text|;
    assert padded == text + Repeat(p as char, p);
    Utf8Append(text, Repeat(p as char, p));
    Utf8Repeat(p as char, p);
    UnpadRepeat(Utf8(text), p);
  }

  /** Unpadding bytes followed by `p` copies of `p` gives back the bytes. */
  lemma UnpadRepeat(b: seq<byte>, p: nat)
    requires 1 <= p <= 16
    ensures Pkcs5Unpad(b + Repeat(p as byte, p), 16) == Some(b)
  {
    var c := b + Repeat(p as byte, p);
    assert c[|c| - 1] as int == p;
    assert forall i :: |c| - p <= i < |c| ==> c[i] as int == p by {
      forall i | |c| - p <= i < |c| ensures c[i] as int == p {
        assert c[i] == Repeat(p as byte, p)[i - |b|];
      }
    }
    assert c[..|c| - p] == b;
  }

  // ---------------------------------------------------------------- AES

  /** AES-CBC encryption: key, IV and block-aligned plaintext to ciphertext. */
  type Cipher = (seq<byte>, seq<byte>, seq<byte>) -> seq<byte>

  ghost predicate PreservesLength(cbc: Cipher) {
    forall k, iv, m :: |cbc(k, iv, m)| == |m|
  }

  predicate AesKeySize(n: int) { n == 16 || n == 24 || n == 32 }

  /** `__aes_encrypt`: the key and IV are used as their UTF-8 bytes; a key
      that is not 16, 24 or 32 bytes or an IV that is not 16 bytes raises
      (None). The plaintext is padded to 16-byte blocks first. */
  function AesEncrypt(plain: string, key: string, iv: string, cbc: Cipher): (r: Option<seq<byte>>)
    ensures r.Some? <==> AesKeySize(|Utf8(key)|) && |Utf8(iv)| == 16
    ensures r.Some? && PreservesLength(cbc) ==> |r.value| % 16 == 0 && |Utf8(plain)| < |r.value| <= |Utf8(plain)| + 16
  {
    var k := Utf8(key);
    var v := Utf8(iv);
    if !AesKeySize(|k|) || |v| != 16 then None
    else
      PaddedIsAligned(plain);
      Some(cbc(k, v, Utf8(Pkcs5Padding(plain, 16).value)))
  }

  /** A 32-character secret passes validation but is a valid AES key only
      when it is ASCII: any other character makes it longer than 32 bytes. */
  lemma SecretKeyNeedsAscii(secret: string)
    requires |secret| == 32
    ensures AesKeySize(|Utf8(secret)|) <==> IsAscii(secret)
  {
  }

  // ----------------------------------------------------------------- IV

  const IvAlphabet: string := "0123456789abcdefghijklmnopqrstuvwxyz"
  const HexDigits: string := "0123456789abcdef"

  predicate IsIv(iv: string) {
    |iv| == 16 && forall i :: 0 <= i < 16 ==> iv[i] in HexDigits
  }

  /** `__make_random_iv`: sixteen draws of `random.random()`, each scaled by
      16 and truncated to index the alphabet. Only its first sixteen
      letters can be reached. */
  method MakeRandomIv(draws: seq<real>) returns (iv: string)
    requires |draws| == 16
    requires forall i :: 0 <= i < 16 ==> 0.0 <= draws[i] < 1.0
    ensures IsIv(iv)
    ensures forall i :: 0 <= i < 16 ==> iv[i] == HexDigits[(draws[i] * 16.0).Floor]
  {
    iv := "";
    var i := 0;
    while i < 16
      invariant 0 <= i <= 16
      invariant |iv| == i
      invariant forall j :: 0 <= j < i ==> iv[j] == HexDigits[(draws[j] * 16.0).Floor]
    {
      var index := (draws[i] * 16.0).Floor;
      iv := iv + [IvAlphabet[index]];
      i := i + 1;
    }
  }

  /** An IV is sixteen ASCII characters, so sixteen bytes. */
  lemma IvBytes(iv: string)
    requires IsIv(iv)
    ensures |Utf8(iv)| == 16
  {
    assert IsAscii(iv) by {
      forall i | 0 <= i < |iv| ensures (iv[i] as int) < 0x80 {
        assert iv[i] in HexDigits;
      }
    }
  }

  // --------------------------------------------------------- big endian

  function Pow256(n: nat): (r: nat)
    ensures r >= 1
  {
    if n == 0 then 1 else 256 * Pow256(n - 1)
  }

  /** The unsigned big-endian value of some bytes. */
  function UnsignedValue(b: seq<byte>): (v: nat)
    ensures v < Pow256(|b|)
  {
    if b == [] then 0 else UnsignedValue(b[..|b| - 1]) * 256 + b[|b| - 1] as int
  }

  /** The two's-complement big-endian value of some bytes. */
  function SignedValue(b: seq<byte>): int {
    var u := UnsignedValue(b);
    if 2 * u >= Pow256(|b|) then u - Pow256(|b|) else u
  }

  /** `n` big-endian bytes of `u`. */
  function BigEndian(u: nat, n: nat): (r: seq<byte>)
    requires u < Pow256(n)
    ensures |r| == n
    ensures UnsignedValue(r) == u
  {
    if n == 0 then []
    else
      var r := BigEndian(u / 256, n - 1) + [(u % 256) as byte];
      assert r[..n - 1] == BigEndian(u / 256, n - 1);
      r
  }

  /** Bytes are determined by their unsigned value. */
  lemma {:induction false} BigEndianOfValue(b: seq<byte>)
    ensures BigEndian(UnsignedValue(b), |b|) == b
  {
    if b != [] {
      var init := b[..|b| - 1];
      BigEndianOfValue(init);
      assert UnsignedValue(b) / 256 == UnsignedValue(init);
      assert b == init + [b[|b| - 1]];
    }
  }

  predicate InSignedRange(v: int, n: nat) {
    -(Pow256(n) as int) <= 2 * v < Pow256(n)
  }

  /** `struct.pack` of a signed big-endian integer in `n` bytes (`"!q"`
      is 8, `"!h"` is 2); a value out of range raises (None). */
  function PackSigned(v: int, n: nat): (r: Option<seq<byte>>)
    ensures r.Some? <==> InSignedRange(v, n)
    ensures r.Some? ==> |r.value| == n && SignedValue(r.value) == v
  {
    if !InSignedRange(v, n) then None
    else Some(BigEndian(if v < 0 then v + Pow256(n) else v, n))
  }

  /** Packing is the inverse of reading back: any `n` bytes are the packing
      of their signed value. */
  lemma PackSignedValue(b: seq<byte>)
    ensures PackSigned(SignedValue(b), |b|) == Some(b)
  {
    BigEndianOfValue(b);
  }

  // ------------------------------------------------------------- layout

  const HeaderSize: nat := 28

  /** The token's binary layout: expiry as int64, IV length as int16, the
      IV, ciphertext length as int16, then the ciphertext. A field that
      does not fit its width raises (None). */
  function TokenLayout(expire: int, iv: seq<byte>, cipher: seq<byte>): (r: Option<seq<byte>>)
    requires |iv| == 16
    ensures r.Some? <==> InSignedRange(expire, 8) && InSignedRange(|cipher|, 2)
    ensures r.Some? ==>
      && |r.value| == |cipher| + HeaderSize
      && SignedValue(r.value[0..8]) == expire
      && SignedValue(r.value[8..10]) == 16
      && r.value[10..26] == iv
      && SignedValue(r.value[26..28]) == |cipher|
      && r.value[28..] == cipher
  {
    match (PackSigned(expire, 8), PackSigned(|iv|, 2), PackSigned(|cipher|, 2))
    case (Some(e), Some(l), Some(c)) =>
      var r := e + l + iv + c + cipher;
      assert r[0..8] == e && r[8..10] == l && r[10..26] == iv && r[26..28] == c && r[28..] == cipher;
      Some(r)
    case _ => None
  }

  /** Reads a token's binary layout back: expiry, IV and ciphertext. */
  function ParseLayout(b: seq<byte>): (r: Option<(int, seq<byte>, seq<byte>)>)
    ensures r.Some? ==> |r.value.1| == 16 && |b| == |r.value.2| + HeaderSize
  {
    if |b| < HeaderSize || SignedValue(b[8..10]) != 16 || SignedValue(b[26..28]) != |b| - HeaderSize then None
    else Some((SignedValue(b[0..8]), b[10..26], b[28..]))
  }

  /** Layout and parse are inverse: every layout parses back to its
      fields, and every parsable byte string is the layout of its fields. */
  lemma LayoutRoundTrip(expire: int, iv: seq<byte>, cipher: seq<byte>, b: seq<byte>)
    requires |iv| == 16
    ensures TokenLayout(expire, iv, cipher) == Some(b) <==> ParseLayout(b) == Some((expire, iv, cipher))
  {
    if ParseLayout(b) == Some((expire, iv, cipher)) {
      PackSignedValue(b[0..8]);
      PackSignedValue(b[8..10]);
      PackSignedValue(b[26..28]);
      assert b == b[0..8] + b[8..10] + b[10..26] + b[26..28] + b[28..];
    }
  }

  // ----------------------------------------------------------- generate

  /** The claims serialised into the plaintext. */
  datatype Claims = Claims(appId: int, userId: string, nonce: int, ctime: int, expire: int, payload: PyValue)

  /** Why building a token that passed validation can still raise. */
  datatype Raised = KeyOrIvLength | FieldOutOfRange

  /** The first failing check, in order, with its code and message. */
  function ValidationError(appId: PyValue, userId: PyValue, secret: PyValue, effective: PyValue): (r: Option<(int, string)>)
    ensures r.None? <==>
      && appId.PyInt? && appId.i != 0 && userId.PyStr? && userId.s != ""
      && secret.PyStr? && |secret.s| == 32 && effective.PyInt? && effective.i > 0
    ensures r.Some? ==> r.value.0 in {ErrorAppIdInvalid, ErrorUserIdInvalid, ErrorSecretInvalid, ErrorEffectiveTimeInvalid}
  {
    if !appId.PyInt? || appId.i == 0 then Some((ErrorAppIdInvalid, "appID invalid"))
    else if !userId.PyStr? || userId.s == "" then Some((ErrorUserIdInvalid, "userID invalid"))
    else if !secret.PyStr? || |secret.s| != 32 then Some((ErrorSecretInvalid, "secret must be a 32 byte string"))
    else if !effective.PyInt? || effective.i <= 0 then
      Some((ErrorEffectiveTimeInvalid, "effective_time_in_seconds invalid"))
    else None
  }

  /** Each error code is reported exactly when its own check fails and
      every earlier check passes. */
  lemma ValidationOrder(appId: PyValue, userId: PyValue, secret: PyValue, effective: PyValue)
    ensures var e := ValidationError(appId, userId, secret, effective);
      var appOk := appId.PyInt? && appId.i != 0;
      var userOk := userId.PyStr? && userId.s != "";
      var secretOk := secret.PyStr? && |secret.s| == 32;
      var effOk := effective.PyInt? && effective.i > 0;
      && (e.Some? && e.value.0 == ErrorAppIdInvalid <==> !appOk)
      && (e.Some? && e.value.0 == ErrorUserIdInvalid <==> appOk && !userOk)
      && (e.Some? && e.value.0 == ErrorSecretInvalid <==> appOk && userOk && !secretOk)
      && (e.Some? && e.value.0 == ErrorEffectiveTimeInvalid <==> appOk && userOk && secretOk && !effOk)
      && (e.None? <==> appOk && userOk && secretOk && effOk)
  {
  }

  /** `generate_token04`. `now` is `int(time.time())`, `nonce` the random
      31-bit nonce, `iv` the output of `MakeRandomIv`; `toJson` renders the
      claims and `base64` is `b2a_base64` without newline. */
  function GenerateToken04(appId: PyValue, userId: PyValue, secret: PyValue, effective: PyValue, payload: PyValue,
                           now: int, nonce: int, iv: string,
                           toJson: Claims -> string, cbc: Cipher, base64: seq<byte> -> string): (r: Result<TokenInfo, Raised>)
    requires IsIv(iv)
    ensures ValidationError(appId, userId, secret, effective).Some? ==>
      r.Success? && r.value.token == "" && r.value.errorCode == ValidationError(appId, userId, secret, effective).value.0
    ensures r.Success? && r.value.errorCode == ErrorSuccess ==>
      ValidationError(appId, userId, secret, effective).None? && |r.value.token| >= 2 && r.value.token[..2] == "04"
    ensures r.Failure? ==> ValidationError(appId, userId, secret, effective).None?
    ensures r.Success? && ValidationError(appId, userId, secret, effective).None? ==> r.value.errorCode == ErrorSuccess
  {
    match ValidationError(appId, userId, secret, effective)
    case Some((code, message)) => Success(TokenInfo("", code, message))
    case None =>
      var createTime := now;
      var expireTime := createTime + effective.i;
      var plain := toJson(Claims(appId.i, userId.s, nonce, createTime, expireTime, payload));
      IvBytes(iv);
      match AesEncrypt(plain, secret.s, iv, cbc)
      case None => Failure(KeyOrIvLength)
      case Some(cipher) =>
        match TokenLayout(expireTime, Utf8(iv), cipher)
        case None => Failure(FieldOutOfRange)
        case Some(layout) => Success(TokenInfo("04" + base64(layout), ErrorSuccess, "success"))
  }

  /** After validation passes, building raises exactly when the secret is
      not ASCII (so not a 32-byte AES key), the expiry does not fit an
      int64, or the ciphertext is too long for an int16 length field. */
  lemma GenerateRaisesWhen(appId: PyValue, userId: PyValue, secret: PyValue, effective: PyValue, payload: PyValue,
                           now: int, nonce: int, iv: string,
                           toJson: Claims -> string, cbc: Cipher, base64: seq<byte> -> string)
    requires IsIv(iv)
    requires ValidationError(appId, userId, secret, effective).None?
    ensures var plain := toJson(Claims(appId.i, userId.s, nonce, now, now + effective.i, payload));
      GenerateToken04(appId, userId, secret, effective, payload, now, nonce, iv, toJson, cbc, base64).Failure? <==>
        !IsAscii(secret.s) || !InSignedRange(now + effective.i, 8)
        || !InSignedRange(|AesEncrypt(plain, secret.s, iv, cbc).value|, 2)
  {
    IvBytes(iv);
    SecretKeyNeedsAscii(secret.s);
  }

  /** Once validation passes, a token that is built is "04" followed by
      the base64 of a layout that parses back to an expiry later than `now`
      by the effective time, the IV's bytes and the ciphertext of the
      serialised claims. */
  lemma GeneratedTokenLayout(appId: PyValue, userId: PyValue, secret: PyValue, effective: PyValue, payload: PyValue,
                             now: int, nonce: int, iv: string,
                             toJson: Claims -> string, cbc: Cipher, base64: seq<byte> -> string)
    requires IsIv(iv)
    requires ValidationError(appId, userId, secret, effective).None?
    requires GenerateToken04(appId, userId, secret, effective, payload, now, nonce, iv, toJson, cbc, base64).Success?
    ensures exists b: seq<byte>, cipher: seq<byte> ::
      && GenerateToken04(appId, userId, secret, effective, payload, now, nonce, iv, toJson, cbc, base64).value.token == "04" + base64(b)
      && ParseLayout(b) == Some((now + effective.i, Utf8(iv), cipher))
      && now + effective.i > now
      && Some(cipher) == AesEncrypt(toJson(Claims(appId.i, userId.s, nonce, now, now + effective.i, payload)), secret.s, iv, cbc)
  {
    IvBytes(iv);
    var plain := toJson(Claims(appId.i, userId.s, nonce, now, now + effective.i, payload));
    var cipher := AesEncrypt(plain, secret.s, iv, cbc).value;
    var b := TokenLayout(now + effective.i, Utf8(iv), cipher).value;
    LayoutRoundTrip(now + effective.i, Utf8(iv), cipher, b);
    var r := GenerateToken04(appId, userId, secret, effective, payload, now, nonce, iv, toJson, cbc, base64);
    assert r == Success(TokenInfo("04" + base64(b), ErrorSuccess, "success"));
    assert ParseLayout(b) == Some((now + effective.i, Utf8(iv), cipher));
  }

  /** A bool is not an int for the app id check. */
  lemma BoolAppIdRejected(b: bool, userId: PyValue, secret: PyValue, effective: PyValue)
    ensures ValidationError(PyBool(b), userId, secret, effective) == Some((ErrorAppIdInvalid, "appID invalid"))
  {
  }
}
