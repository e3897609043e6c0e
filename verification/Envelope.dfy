/**
 The encryption envelope of `internal/crypto`. AES-256-GCM and HKDF-SHA256 are
 symbolic: a sealed blob records what it was sealed under, and opens exactly
 for a reader who presents the same. `DecryptIsGcmOpen` shows that nothing is
 lost by recording the two ids themselves rather than the derivation string
 and the 17 bytes of associated data computed from them.
 */
module Envelope {
  import opened Prelude
  import opened Numerals

  const CRYPTO_VERSION: Byte := 1
  const NONCE_SIZE: nat := 12
  const KEY_SIZE: nat := 32
  const AAD_SIZE: nat := 17
  const TAG_SIZE: nat := 16

  /** A stored content blob: arbitrary bytes, or the output of `Encrypt`. */
  datatype Blob =
    | Raw(bytes: seq<Byte>)
    | Sealed(master: seq<Byte>, user: Int64, config: Int64, nonce: seq<Byte>, plaintext: seq<Byte>)

  /** GCM output is the plaintext's length plus the tag, so it is never empty. */
  function Length(blob: Blob): nat {
    match blob
    case Raw(bytes) => |bytes|
    case Sealed(_, _, _, _, plaintext) => |plaintext| + TAG_SIZE
  }

  function Encrypt(master: seq<Byte>, user: Int64, config: Int64,
                   plaintext: seq<Byte>, nonce: seq<Byte>): Result<Blob> {
    if |master| != KEY_SIZE then Err(Failed) else Ok(Sealed(master, user, config, nonce, plaintext))
  }

  function Decrypt(master: seq<Byte>, user: Int64, config: Int64,
                   blob: Blob, nonce: seq<Byte>): Result<seq<Byte>> {
    if |nonce| != NONCE_SIZE || |master| != KEY_SIZE || blob.Raw? then Err(DecryptFailed)
    else if blob.master == master && blob.user == user && blob.config == config && blob.nonce == nonce then
      Ok(blob.plaintext)
    else Err(DecryptFailed)
  }

  // ---------- the bytes underneath ----------

  datatype Subkey = Derive(master: seq<Byte>, info: string)

  datatype Gcm = Gcm(key: Subkey, nonce: seq<Byte>, aad: seq<Byte>, plaintext: seq<Byte>)

  function HkdfInfo(user: Int64): string {
    "tabby-sync/v1/user/" + FormatInt(user)
  }

  function Aad(user: Int64, config: Int64): (aad: seq<Byte>)
    ensures |aad| == AAD_SIZE
  {
    [CRYPTO_VERSION] + BigEndian(Unsigned(user), 8) + BigEndian(Unsigned(config), 8)
  }

  function ParseAad(aad: seq<Byte>): (ids: (int, int))
    requires |aad| == AAD_SIZE
  {
    (Signed(FromBigEndian(aad[1..9])), Signed(FromBigEndian(aad[9..17])))
  }

  /** What GCM Seal is given for a sealed blob. */
  function GcmSeal(blob: Blob): Gcm
    requires blob.Sealed?
  {
    Gcm(Derive(blob.master, HkdfInfo(blob.user)), blob.nonce, Aad(blob.user, blob.config), blob.plaintext)
  }

  function GcmOpen(key: Subkey, nonce: seq<Byte>, aad: seq<Byte>, sealed: Gcm): Result<seq<Byte>> {
    if sealed.key == key && sealed.nonce == nonce && sealed.aad == aad then Ok(sealed.plaintext) else Err(DecryptFailed)
  }

  /** Writes `v` at `buffer[offset..offset+8]`, most significant byte first. */
  method PutUint64(buffer: array<Byte>, offset: nat, v: nat)
    requires offset + 8 <= buffer.Length
    modifies buffer
    ensures buffer[..] == old(buffer[..offset]) + BigEndian(v, 8) + old(buffer[offset + 8..])
  {
    var rest, i := v, 8;
    while i > 0
      invariant 0 <= i <= 8
      invariant buffer[..offset] == old(buffer[..offset])
      invariant buffer[offset + 8..] == old(buffer[offset + 8..])
      invariant BigEndian(rest, i) + buffer[offset + i..offset + 8] == BigEndian(v, 8)
    {
      ghost var done := buffer[offset + i..offset + 8];
      assert BigEndian(rest, i) == BigEndian(rest / 256, i - 1) + [rest % 256];
      i := i - 1;
      buffer[offset + i] := rest % 256;
      assert buffer[offset + i..offset + 8] == [rest % 256] + done;
      rest := rest / 256;
    }
    assert buffer[offset..offset + 8] == BigEndian(v, 8);
    assert buffer[..] == buffer[..offset] + buffer[offset..offset + 8] + buffer[offset + 8..];
  }

  method BuildAAD(user: Int64, config: Int64) returns (aad: array<Byte>)
    ensures fresh(aad)
    ensures aad[..] == Aad(user, config)
  {
    aad := new Byte[AAD_SIZE];
    aad[0] := CRYPTO_VERSION;
    PutUint64(aad, 1, Unsigned(user));
    assert aad[..9] == [CRYPTO_VERSION] + BigEndian(Unsigned(user), 8);
    PutUint64(aad, 9, Unsigned(config));
  }

  lemma Int64RoundTrip(n: Int64)
    ensures Signed(FromBigEndian(BigEndian(Unsigned(n), 8))) == n
  {
    Power256Of8();
    BigEndianRoundTrip(Unsigned(n), 8);
  }

  /** The associated data determines the (user, config) pair it was built for. */
  lemma AadRoundTrip(user: Int64, config: Int64)
    ensures ParseAad(Aad(user, config)) == (user, config)
  {
    Int64RoundTrip(user);
    Int64RoundTrip(config);
    assert Aad(user, config)[1..9] == BigEndian(Unsigned(user), 8);
    assert Aad(user, config)[9..17] == BigEndian(Unsigned(config), 8);
  }

  /** No two users share an HKDF info string. */
  lemma HkdfInfoInjective(user: Int64, user': Int64)
    ensures HkdfInfo(user) == HkdfInfo(user') <==> user == user'
  {
    var prefix := "tabby-sync/v1/user/";
    if HkdfInfo(user) == HkdfInfo(user') {
      assert FormatInt(user) == HkdfInfo(user)[|prefix|..] == HkdfInfo(user')[|prefix|..] == FormatInt(user');
      FormatIntRoundTrip(user);
      FormatIntRoundTrip(user');
    }
  }

  /** Opening a blob is opening GCM under the derived subkey and the canonical associated data. */
  lemma DecryptIsGcmOpen(master: seq<Byte>, user: Int64, config: Int64, blob: Blob, nonce: seq<Byte>)
    requires |master| == KEY_SIZE && |nonce| == NONCE_SIZE && blob.Sealed?
    ensures Decrypt(master, user, config, blob, nonce)
         == GcmOpen(Derive(master, HkdfInfo(user)), nonce, Aad(user, config), GcmSeal(blob))
  {
    HkdfInfoInjective(user, blob.user);
    AadRoundTrip(user, config);
    AadRoundTrip(blob.user, blob.config);
  }

  /** Any blob, tampered ones included, opens to a plaintext exactly when it is that plaintext's encryption. */
  lemma DecryptIff(master: seq<Byte>, user: Int64, config: Int64, blob: Blob, nonce: seq<Byte>, plaintext: seq<Byte>)
    ensures Decrypt(master, user, config, blob, nonce) == Ok(plaintext)
       <==> |nonce| == NONCE_SIZE && Encrypt(master, user, config, plaintext, nonce) == Ok(blob)
  {
  }

  /** Every way of failing to open is the one error. */
  lemma OneDecryptError(master: seq<Byte>, user: Int64, config: Int64, blob: Blob, nonce: seq<Byte>)
    ensures var content := Decrypt(master, user, config, blob, nonce);
            content.Err? ==> content.error == DecryptFailed
  {
  }

  /** The fixed parts of the layout: the version byte, and the derivation string. */
  lemma KnownLayout(user: Int64, config: Int64)
    ensures Aad(user, config)[0] == 1
    ensures "tabby-sync/v1/user/" <= HkdfInfo(user) && HkdfInfo(user)[19..] == FormatInt(user)
  {
    var prefix := "tabby-sync/v1/user/";
    assert |prefix| == 19 && HkdfInfo(user) == prefix + FormatInt(user);
  }

  /**
   An envelope opens, to the plaintext it was sealed from, for exactly the
   master key, user, config and nonce it was sealed under.
   */
  lemma OpensOnlyInItsOwnRow(master: seq<Byte>, user: Int64, config: Int64, plaintext: seq<Byte>, nonce: seq<Byte>,
                             master': seq<Byte>, user': Int64, config': Int64, nonce': seq<Byte>)
    requires |master| == |master'| == KEY_SIZE && |nonce| == |nonce'| == NONCE_SIZE
    ensures var sealed := Encrypt(master, user, config, plaintext, nonce);
            && sealed.Ok? && sealed.value.Sealed? && Length(sealed.value) > 0
            && GcmOpen(Derive(master', HkdfInfo(user')), nonce', Aad(user', config'), GcmSeal(sealed.value))
               == (if master' == master && user' == user && config' == config && nonce' == nonce
                   then Ok(plaintext) else Err(DecryptFailed))
  {
    DecryptIsGcmOpen(master', user', config', Encrypt(master, user, config, plaintext, nonce).value, nonce');
  }
}
