/** Hash pre-images, body hashes and leading-zero difficulty (hash_utils.py).

    SHA-256, JSON and RSA-PSS are parameters: nothing is known about them beyond
    the types below and the hypotheses a lemma names. */
module HashUtils {
  import opened Types
  import opened Text

  predicate IsHexDigit(c: char) {
    '0' <= c <= '9' || 'a' <= c <= 'f'
  }

  /** `sha256(...).hexdigest()`: 64 lower-case hexadecimal digits. */
  type HexHash = s: string | |s| == 64 && forall i :: 0 <= i < |s| ==> IsHexDigit(s[i])
    witness seq(64, i => '0')

  /** sha: SHA-256 in hex; bodyText: the text of a body that gets hashed;
      sign/verify/publicKey: RSA-PSS over a block payload with PEM keys. */
  datatype Crypto = Crypto(
    sha: string -> HexHash,
    bodyText: Body -> string,
    sign: (string, Block) -> string,
    verify: (Block, string, string) -> bool,
    publicKey: string -> string)

  /** A signature made with a private key verifies under its public key. */
  ghost predicate SignaturesVerify(env: Crypto) {
    forall key: string, payload: Block ::
      env.verify(payload, env.sign(key, payload), env.publicKey(key))
  }

  /** No two different texts among `texts` have the same hash. */
  ghost predicate NoCollision(env: Crypto, texts: set<string>) {
    forall x, y :: x in texts && y in texts && env.sha(x) == env.sha(y) ==> x == y
  }

  function BodyHash(env: Crypto, body: Body): HexHash {
    env.sha(env.bodyText(body))
  }

  function LegacyPreimage(prevHash: string, bodyHash: string): string {
    prevHash + bodyHash
  }

  function PowPreimage(prevHash: string, bodyHash: string, nonce: int): string {
    prevHash + bodyHash + Str(nonce)
  }

  function PosPreimage(prevHash: string, bodyHash: string, validatorId: string, slot: int): string {
    prevHash + bodyHash + validatorId + Str(slot)
  }

  function LeadingZeros(s: string): (n: nat)
    ensures n <= |s|
    ensures forall i :: 0 <= i < n ==> s[i] == '0'
    ensures n < |s| ==> s[n] != '0'
  {
    if s == "" || s[0] != '0' then 0 else 1 + LeadingZeros(s[1..])
  }

  predicate MeetsDifficulty(hash: string, difficulty: int) {
    0 < difficulty <= LeadingZeros(hash)
  }

  function HexDigitValue(c: char): nat {
    if '0' <= c <= '9' then (c - '0') as int
    else if 'a' <= c <= 'f' then (c - 'a') as int + 10
    else 0
  }

  /** `int(s, 16)` of a hex digest. */
  function HexValue(s: string): nat {
    if s == "" then 0 else 16 * HexValue(s[..|s| - 1]) + HexDigitValue(s[|s| - 1])
  }

  /** A text made of two parts of known lengths and a rest determines all three. */
  lemma PartsUnique(p: string, b: string, rest: string, p': string, b': string, rest': string)
    requires |p| == |p'| && |b| == |b'| && p + b + rest == p' + b' + rest'
    ensures p == p' && b == b' && rest == rest'
  {
    var x, y := p + b + rest, p' + b' + rest';
    assert p == x[..|p|] && p' == y[..|p|];
    assert b == x[|p|..|p| + |b|] && b' == y[|p|..|p| + |b|];
    assert rest == x[|p| + |b|..] && rest' == y[|p| + |b|..];
  }

  /** The unseparated PoW pre-image decodes uniquely once both hashes have their fixed length. */
  lemma PowPreimageInjective(p: string, b: string, n: int, p': string, b': string, n': int)
    requires |p| == |p'| && |b| == |b'|
    requires PowPreimage(p, b, n) == PowPreimage(p', b', n')
    ensures p == p' && b == b' && n == n'
  {
    PartsUnique(p, b, Str(n), p', b', Str(n'));
    StrInjective(n, n');
  }

  /** The PoS pre-image decodes uniquely for a known slot. */
  lemma PosPreimageInjective(p: string, b: string, v: string, p': string, b': string, v': string, slot: int)
    requires |p| == |p'| && |b| == |b'|
    requires PosPreimage(p, b, v, slot) == PosPreimage(p', b', v', slot)
    ensures p == p' && b == b' && v == v'
  {
    CancelSuffix(p + b + v, p' + b' + v', Str(slot));
    PartsUnique(p, b, v, p', b', v');
  }

  // ---------- what hashes and pre-images say ----------

  /** The first d characters are zeros. */
  predicate ZeroPrefix(hash: string, d: int) {
    1 <= d <= |hash| && forall i :: 0 <= i < d ==> hash[i] == '0'
  }

  /** A hash meets a difficulty exactly when that many of its first characters are zeros. */
  lemma MeetsByDigits(hash: string, d: int)
    ensures MeetsDifficulty(hash, d) <==> ZeroPrefix(hash, d)
  {
  }

  function Power16(n: nat): nat {
    if n == 0 then 1 else 16 * Power16(n - 1)
  }

  /** Every hexadecimal digit counts for its value times 16 to the number of digits after it. */
  lemma {:induction false} HexByPlace(a: string, d: nat, b: string)
    requires d < 16
    ensures HexValue("") == 0
    ensures HexValue(a + ["0123456789abcdef"[d]] + b) == HexValue(a) * (16 * Power16(|b|)) + d * Power16(|b|) + HexValue(b)
    decreases |b|
  {
    var s := a + ["0123456789abcdef"[d]] + b;
    if b == "" {
      assert s[..|s| - 1] == a;
    } else {
      var front, last := b[..|b| - 1], b[|b| - 1];
      assert s[..|s| - 1] == a + ["0123456789abcdef"[d]] + front && s[|s| - 1] == last;
      HexByPlace(a, d, front);
      Scale16(HexValue(a), d, Power16(|front|), HexValue(front));
    }
  }

  lemma Scale16(x: nat, d: nat, p: nat, y: nat)
    ensures 16 * (x * (16 * p) + d * p + y) == x * (16 * (16 * p)) + d * (16 * p) + 16 * y
  {
  }

  /** The pre-images by position: parent hash, body hash, then validator, nonce or slot in decimals. */
  lemma PreimageParts(p: string, t: string, v: string, n: int)
    ensures var pow, pos, legacy := PowPreimage(p, t, n), PosPreimage(p, t, v, n), LegacyPreimage(p, t);
      && |pow| == |p| + |t| + |Str(n)| && |pos| == |p| + |t| + |v| + |Str(n)| && |legacy| == |p| + |t|
      && p <= pow && p <= pos && p <= legacy
      && pow[|p|..|p| + |t|] == t && pos[|p|..|p| + |t|] == t && legacy[|p|..] == t
      && pow[|p| + |t|..] == Str(n)
      && pos[|p| + |t|..|p| + |t| + |v|] == v && pos[|p| + |t| + |v|..] == Str(n)
  {
  }
}
