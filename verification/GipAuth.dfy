/**
 The host side of GIP authentication: handshake steps, transcript and key
 derivation. SHA-256, HMAC-SHA-256, RSA and ECDH are whatever functions a
 `Crypto` value holds; nothing is assumed of them but the sizes of their
 results.
 */
module GipAuth {
  import opened Basics

  type Digest = s: seq<byte> | |s| == 32 witness seq(32, _ => 0)

  type Point = s: seq<byte> | |s| == 64 witness seq(64, _ => 0)

  /** `None` stands for any failure the library reports. */
  datatype Crypto = Crypto(
    sha256: seq<byte> -> Digest,
    hmac: (seq<byte>, seq<byte>) -> Digest,
    rsaEncrypt: (seq<byte>, seq<byte>) -> Option<seq<byte>>,
    ecdhPublic: seq<byte> -> Option<Point>,
    ecdhShared: (seq<byte>, seq<byte>) -> Option<seq<byte>>)

  /**
   What one call gets from outside: fresh random bytes, secrets drawn for the
   key exchange, whether an HMAC context can be had, and whether the send
   callback accepts the message. No call sends more than one.
   */
  datatype Env = Env(random: Digest, premaster: seq<byte>, ephemeral: seq<byte>, allocates: bool, accepts: bool)

  const TRAILER: nat := 8
  const TRANSCRIPT_SIZE: nat := 8192
  const PACKET_SIZE: nat := 4096
  const CERTIFICATE_SIZE: nat := 1024
  const PUBKEY_SIZE: nat := 270
  const RSA_KEY_PREFIX: seq<byte> := [0x30, 0x82, 0x01, 0x0a]

  function Ascii(s: string): (b: seq<byte>)
    ensures |b| == |s|
  {
    seq(|s|, i requires 0 <= i < |s| => s[i] as int % 0x100)
  }

  function Be16(v: nat): (b: seq<byte>)
    ensures |b| == 2
  {
    [v / 0x100 % 0x100, v % 0x100]
  }

  function FromBe16(hi: byte, lo: byte): nat {
    hi * 0x100 + lo
  }

  // ----- pseudo-random function -----------------------------------------------------

  /** Chain value `i`: an HMAC to begin with, stepped by plain SHA-256 rather than HMAC. */
  function Chain(c: Crypto, key: seq<byte>, text: seq<byte>, seed: seq<byte>, i: nat): Digest {
    if i == 0 then c.hmac(key, text + seed) else c.sha256(Chain(c, key, text, seed, i - 1))
  }

  function PrfBlock(c: Crypto, key: seq<byte>, text: seq<byte>, seed: seq<byte>, i: nat): Digest {
    c.hmac(key, Chain(c, key, text, seed, i) + text + seed)
  }

  /** The first `n` bytes of the stream of blocks. */
  function Prf(c: Crypto, key: seq<byte>, text: seq<byte>, seed: seq<byte>, n: nat): (out: seq<byte>)
    ensures |out| == n
  {
    seq(n, j requires 0 <= j < n => PrfBlock(c, key, text, seed, j / 32)[j % 32])
  }

  /** P_hash as in section 5 of RFC 5246, whose chain is stepped by HMAC: A(1), A(2) and so on. */
  function PHashChain(c: Crypto, key: seq<byte>, seed: seq<byte>, i: nat): Digest {
    if i == 0 then c.hmac(key, seed) else c.hmac(key, PHashChain(c, key, seed, i - 1))
  }

  function PHash(c: Crypto, key: seq<byte>, seed: seq<byte>, n: nat): (out: seq<byte>)
    ensures |out| == n
  {
    seq(n, j requires 0 <= j < n => c.hmac(key, PHashChain(c, key, seed, j / 32) + seed)[j % 32])
  }

  /** Functions that tell the two chains apart. */
  function Telling(): Crypto {
    Crypto(_ => Zeros(32), (_, m) => if m == [] || m[0] == 0 then seq(32, _ => 1) else seq(32, _ => 2),
           (_, _) => None, _ => None, (_, _) => None)
  }

  /** The PRF is P_hash for one block, as in a host finish, and for no longer output, as in a master secret. */
  lemma PrfIsPHashExactly(n: nat)
    ensures n <= 32 <==>
            forall c: Crypto, key: seq<byte>, text: seq<byte>, seed: seq<byte> ::
              Prf(c, key, text, seed, n) == PHash(c, key, text + seed, n)
  {
    if n <= 32 {
      forall c: Crypto, key: seq<byte>, text: seq<byte>, seed: seq<byte>
        ensures Prf(c, key, text, seed, n) == PHash(c, key, text + seed, n)
      {
        var h := c.hmac(key, text + seed);
        assert h + text + seed == h + (text + seed);
        assert PHashChain(c, key, text + seed, 0) == h == Chain(c, key, text, seed, 0);
        forall j | 0 <= j < n ensures Prf(c, key, text, seed, n)[j] == PHash(c, key, text + seed, n)[j] {
          assert j / 32 == 0;
        }
      }
    } else {
      var c, none: seq<byte> := Telling(), [];
      var h := c.hmac(none, none);
      assert none + none == none;
      assert Chain(c, none, none, none, 1) == c.sha256(h) == Zeros(32);
      assert PHashChain(c, none, none, 1) == c.hmac(none, h) == seq(32, _ => 2);
      assert Prf(c, none, none, none, n)[32] == 1;
      assert PHash(c, none, none + none, n)[32] == 2;
    }
  }

  /** `h` put through SHA-256 `i` times. */
  function Hashed(c: Crypto, h: Digest, i: nat): Digest
    decreases i
  {
    if i == 0 then h else Hashed(c, c.sha256(h), i - 1)
  }

  lemma {:induction false} HashedLast(c: Crypto, h: Digest, i: nat)
    ensures c.sha256(Hashed(c, h, i)) == Hashed(c, h, i + 1)
    decreases i
  {
    if i > 0 {
      HashedLast(c, c.sha256(h), i - 1);
    }
  }

  lemma {:induction false} ChainIsHashed(c: Crypto, key: seq<byte>, text: seq<byte>, seed: seq<byte>, i: nat)
    ensures Chain(c, key, text, seed, i) == Hashed(c, c.hmac(key, text + seed), i)
  {
    if i > 0 {
      ChainIsHashed(c, key, text, seed, i - 1);
      HashedLast(c, c.hmac(key, text + seed), i - 1);
      hide Hashed;
    }
  }

  /**
   Block `i` of the output, cut off where the output ends: an HMAC over label and
   seed, hashed `i` times, then goes in front of label and seed into the HMAC
   that gives the block.
   */
  lemma PrfInBlocks(c: Crypto, key: seq<byte>, text: seq<byte>, seed: seq<byte>, n: nat, i: nat)
    requires 32 * i < n
    ensures var m, a := Min(n - 32 * i, 32), Hashed(c, c.hmac(key, text + seed), i);
            Prf(c, key, text, seed, n)[32 * i..32 * i + m] == c.hmac(key, a + text + seed)[..m]
  {
    ChainIsHashed(c, key, text, seed, i);
    hide Chain, Hashed;
    forall j | 32 * i <= j < n && j < 32 * i + 32
      ensures Prf(c, key, text, seed, n)[j] == PrfBlock(c, key, text, seed, i)[j - 32 * i]
    {
      assert j / 32 == i && j % 32 == j - 32 * i;
    }
  }

  const MASTER_LABEL: seq<byte> := [0x4d, 0x61, 0x73, 0x74, 0x65, 0x72, 0x20, 0x53, 0x65, 0x63, 0x72, 0x65, 0x74]

  const FINISH_LABEL: seq<byte> := [0x48, 0x6f, 0x73, 0x74, 0x20, 0x46, 0x69, 0x6e, 0x69, 0x73, 0x68, 0x65, 0x64]

  lemma Labels()
    ensures Ascii("Master Secret") == MASTER_LABEL && Ascii("Host Finished") == FINISH_LABEL
  {
  }

  /** The 48 bytes of a master secret: a whole block and half of the next, over the label and both nonces, the host's first. */
  lemma MasterSecretInBlocks(c: Crypto, secret: seq<byte>, host: Digest, client: Digest)
    ensures var first := c.hmac(secret, MASTER_LABEL + host + client);
            MasterSecret(c, secret, host, client) ==
            c.hmac(secret, first + MASTER_LABEL + host + client)
            + c.hmac(secret, c.sha256(first) + MASTER_LABEL + host + client)[..16]
  {
    var seed, text, first := host + client, Ascii("Master Secret"), c.hmac(secret, MASTER_LABEL + host + client);
    Labels();
    assert MASTER_LABEL + host + client == text + seed;
    assert first + MASTER_LABEL + host + client == first + text + seed;
    assert c.sha256(first) + MASTER_LABEL + host + client == c.sha256(first) + text + seed;
    PrfInBlocks(c, secret, text, seed, 48, 0);
    PrfInBlocks(c, secret, text, seed, 48, 1);
    assert Hashed(c, first, 0) == first && Hashed(c, first, 1) == Hashed(c, c.sha256(first), 0) == c.sha256(first);
    hide Prf, Ascii;
    var out := Prf(c, secret, text, seed, 48);
    assert out == out[0..32] + out[32..48];
  }

  /** A host finish is one block over its label and the transcript's hash. */
  lemma FinishInBlocks(c: Crypto, master: seq<byte>, transcript: Digest)
    ensures Prf(c, master, Ascii("Host Finished"), transcript, 32)
         == c.hmac(master, c.hmac(master, FINISH_LABEL + transcript) + FINISH_LABEL + transcript)
  {
    Labels();
    PrfInBlocks(c, master, FINISH_LABEL, transcript, 32, 0);
    hide Prf, Ascii;
    assert Prf(c, master, FINISH_LABEL, transcript, 32)[0..32] == Prf(c, master, FINISH_LABEL, transcript, 32);
  }

  // ----- state and messages ------------------------------------------------------------

  datatype Auth = Auth(
    lastCmd: byte,
    randomHost: Digest,
    randomClient: Digest,
    certificate: seq<byte>,
    clientPubkey: seq<byte>,
    clientPubkey2: seq<byte>,
    masterSecret: seq<byte>,
    transcript: Digest,
    transcriptBuf: seq<byte>,
    started: bool,
    authenticated: bool)

  datatype Message = Message(data: seq<byte>, acknowledge: bool)

  /** The state after a call, the message it passed to the send callback, and whether it returned 0. */
  datatype Outcome = Outcome(a: Auth, sent: Option<Message>, ok: bool)

  function Initial(c: Crypto, random: Digest): Auth {
    Auth(0, random, Zeros(32), [], Zeros(PUBKEY_SIZE), Zeros(64), Zeros(48), c.sha256([]), [], false, false)
  }

  /** The inner part of a host message, without its outer header and trailer. */
  function HostRecord(cmd: byte, body: seq<byte>): (r: seq<byte>)
    ensures |r| == 4 + |body|
  {
    [cmd, 1] + Be16(|body|) + body
  }

  function FullPacket(cmd: byte, body: seq<byte>): (p: seq<byte>)
    ensures |p| == 10 + |body| + TRAILER && p[1] == 0x41 && p[3] == cmd
    ensures p[6..|p| - TRAILER] == HostRecord(cmd, body)
  {
    [0, 0x41, 0, cmd] + Be16(|body| + 4) + HostRecord(cmd, body) + Zeros(TRAILER)
  }

  function RequestPacket(cmd: byte, len: nat): (p: seq<byte>)
    ensures |p| == 14 && p[1] == 0x42 && p[3] == cmd
  {
    [0, 0x42, 0, cmd] + Be16(len + 4) + Zeros(8)
  }

  const COMPLETE := Message([1, 0], false)

  /** Append to the transcript, or leave it alone when there is no room. */
  function TranscriptUpdate(c: Crypto, a: Auth, p: seq<byte>): Auth {
    if |a.transcriptBuf| + |p| > TRANSCRIPT_SIZE then a
    else a.(transcriptBuf := a.transcriptBuf + p, transcript := c.sha256(a.transcriptBuf + p))
  }

  function SendFull(c: Crypto, a: Auth, cmd: byte, body: seq<byte>, env: Env): Outcome {
    if 10 + |body| + TRAILER > PACKET_SIZE then Outcome(a, None, false)
    else
      Outcome(TranscriptUpdate(c, a.(lastCmd := cmd), HostRecord(cmd, body)),
              Some(Message(FullPacket(cmd, body), true)), env.accepts)
  }

  function Request(a: Auth, cmd: byte, len: nat, env: Env): Outcome {
    Outcome(a.(lastCmd := cmd), Some(Message(RequestPacket(cmd, len), true)), env.accepts)
  }

  function Finish(a: Auth, env: Env): Outcome {
    Outcome(a.(authenticated := a.authenticated || env.accepts), Some(COMPLETE), env.accepts)
  }

  /** Nonce and reserved bytes: with its headers and trailer the hello has 58 bytes. */
  function HelloBody(random: Digest): seq<byte> {
    random + Zeros(8)
  }

  function MasterSecret(c: Crypto, secret: seq<byte>, host: Digest, client: Digest): seq<byte> {
    Prf(c, secret, Ascii("Master Secret"), host + client, 48)
  }

  function Start(c: Crypto, a: Auth, env: Env): Outcome {
    SendFull(c, a.(started := true), 0x01, HelloBody(a.randomHost), env)
  }

  function CompleteWithoutClientFinish(a: Auth, env: Env): Outcome {
    if a.authenticated || a.lastCmd != 0x08 then Outcome(a, None, true) else Finish(a, env)
  }

  function RsaSecret(c: Crypto, a: Auth, env: Env): Outcome {
    match c.rsaEncrypt(a.clientPubkey, env.premaster)
    case None => Outcome(a, None, false)
    case Some(enc) =>
      if !env.allocates then Outcome(a, None, false)
      else
        var a1 := a.(masterSecret := MasterSecret(c, env.premaster, a.randomHost, a.randomClient));
        if |enc| != 256 then Outcome(a1, None, false) else SendFull(c, a1, 0x05, enc, env)
  }

  function EcdhExchange(c: Crypto, a: Auth, env: Env): Outcome {
    match (c.ecdhPublic(env.ephemeral), c.ecdhShared(env.ephemeral, a.clientPubkey2))
    case (Some(pub), Some(shared)) =>
      if !env.allocates then Outcome(a, None, false)
      else
        SendFull(c, a.(masterSecret := MasterSecret(c, c.sha256(shared), a.randomHost, a.randomClient)),
                 0x25, pub, env)
    case _ => Outcome(a, None, false)
  }

  function FinishBody(c: Crypto, a: Auth): seq<byte> {
    Prf(c, a.masterSecret, Ascii("Host Finished"), a.transcript, 32)
  }

  function SendFinish(c: Crypto, a: Auth, cmd: byte, env: Env): Outcome {
    if !env.allocates then Outcome(a, None, false) else SendFull(c, a, cmd, FinishBody(c, a), env)
  }

  // ----- incoming records -----------------------------------------------------------------

  /** Different command numbers in the two headers: the client moves on to version 2. */
  predicate IsUpgrade(d: seq<byte>) {
    |d| >= 10 && d[0] == 0 && d[3] != d[6]
  }

  predicate IsAck(d: seq<byte>) {
    |d| >= 6 && !IsUpgrade(d) && d[1] % 2 == 1
  }

  predicate IsDataRecord(d: seq<byte>) {
    |d| >= 10 && !IsUpgrade(d) && !IsAck(d) && d[0] == 0
  }

  predicate IsCertificate(d: seq<byte>) {
    IsDataRecord(d) && d[3] == 0x03
  }

  function Body(d: seq<byte>): seq<byte>
    requires |d| >= 10
  {
    d[10..10 + Min(FromBe16(d[8], d[9]), |d| - 10)]
  }

  predicate KeyAt(body: seq<byte>, i: nat) {
    i + 4 <= |body| && body[i..i + 4] == RSA_KEY_PREFIX
  }

  /** The first place at or after `i` where the embedded key starts. */
  function FindKey(body: seq<byte>, i: nat): (k: Option<nat>)
    requires i <= |body|
    ensures k.Some? ==> i <= k.value && KeyAt(body, k.value)
    ensures forall m | i <= m && (k.Some? ==> m < k.value) :: !KeyAt(body, m)
    decreases |body| - i
  {
    if i + 4 > |body| then None
    else if KeyAt(body, i) then Some(i)
    else FindKey(body, i + 1)
  }

  function AckReply(c: Crypto, a: Auth, env: Env): Outcome {
    if a.lastCmd == 0x01 then Request(a, 0x02, 80, env)
    else if a.lastCmd == 0x05 then SendFinish(c, a, 0x07, env)
    else if a.lastCmd == 0x07 then Request(a, 0x08, 64, env)
    else if a.lastCmd == 0x25 then SendFinish(c, a, 0x26, env)
    else if a.lastCmd == 0x26 then Request(a, 0x27, 64, env)
    else Outcome(a, None, true)
  }

  /** After the record has been put in the transcript. */
  function DataReply(c: Crypto, a: Auth, d: seq<byte>, env: Env): Outcome
    requires IsDataRecord(d) && !IsCertificate(d)
  {
    var cmd, body := d[3], Body(d);
    if cmd == 0x02 then
      if |body| < 32 then Outcome(a, None, false) else Request(a.(randomClient := d[10..42]), 0x03, 1024, env)
    else if cmd == 0x22 then
      if |body| < 32 then Outcome(a, None, false) else Request(a.(randomClient := d[10..42]), 0x23, 768, env)
    else if cmd == 0x23 then Request(a, 0x24, 128, env)
    else if cmd == 0x24 then
      if |body| < 64 then Outcome(a, None, false) else EcdhExchange(c, a.(clientPubkey2 := d[10..74]), env)
    else if cmd == 0x27 || cmd == 0x08 then Finish(a, env)
    else Outcome(a, None, true)
  }

  /** Take the bytes just put in the transcript out again. */
  function RollBack(c: Crypto, a: Auth, n: nat): Auth
    requires n <= |a.transcriptBuf|
  {
    var kept := a.transcriptBuf[..|a.transcriptBuf| - n];
    a.(transcriptBuf := kept, transcript := c.sha256(kept))
  }

  /** With the transcript already rolled back: the certificate goes in only after the secret sent in reply to it. */
  function CertificateReply(c: Crypto, a: Auth, d: seq<byte>, env: Env): Outcome
    requires IsCertificate(d)
  {
    var body := Body(d);
    if |body| > CERTIFICATE_SIZE then Outcome(a, None, false)
    else
      var a1 := a.(certificate := body);
      match FindKey(body, 0)
      case None => Outcome(a1, None, false)
      case Some(i) =>
        if i + PUBKEY_SIZE > |body| then Outcome(a1, None, false)
        else
          var r := RsaSecret(c, a1.(clientPubkey := body[i..i + PUBKEY_SIZE]), env);
          if r.ok then r.(a := TranscriptUpdate(c, r.a, d[6..])) else r
  }

  /** Records come out of a 4096-byte buffer. */
  const MAX_RECORD: nat := 4096

  function Process(c: Crypto, a: Auth, d: seq<byte>, env: Env): Outcome
    requires |d| <= MAX_RECORD && |a.transcriptBuf| <= TRANSCRIPT_SIZE
  {
    if |d| < 6 then Outcome(a, None, false)
    else if IsUpgrade(d) then
      SendFull(c, a.(randomHost := env.random), 0x21, env.random + Zeros(4), env)
    else if IsAck(d) then AckReply(c, a, env)
    else if !IsDataRecord(d) then Outcome(a, None, true)
    else
      var a1 := TranscriptUpdate(c, a, d[6..]);
      if IsCertificate(d) then CertificateReply(c, RollBack(c, a1, |d| - 6), d, env)
      else DataReply(c, a1, d, env)
  }

  /**
   The rollback subtraction wraps for no content of the buffer, whether or not
   there was room for the record, if and only if its part has at most 4096 bytes.
   */
  lemma RollBackNeverWraps(c: Crypto, n: nat)
    ensures n <= 4096 <==>
            forall a: Auth, p: seq<byte> | |a.transcriptBuf| <= 8192 && |p| == n ::
              n <= |TranscriptUpdate(c, a, p).transcriptBuf|
  {
    if n > 4096 {
      var a := Initial(c, Zeros(32)).(transcriptBuf := Zeros(4096));
      assert |TranscriptUpdate(c, a, Zeros(n)).transcriptBuf| < n;
    }
  }

  // ----- the replies in numbers ------------------------------------------------------------

  /** The messages of the handshake, byte for byte: lengths high byte first, eight zero bytes behind. */
  lemma MessagesInNumbers(cmd: byte, len: nat, body: seq<byte>)
    requires len <= 1024 && |body| <= 256
    ensures RequestPacket(cmd, len) == [0, 0x42, 0, cmd, (len + 4) / 256, (len + 4) % 256, 0, 0, 0, 0, 0, 0, 0, 0]
    ensures HostRecord(cmd, body) == [cmd, 1, |body| / 256, |body| % 256] + body
    ensures FullPacket(cmd, body) ==
            [0, 0x41, 0, cmd, (|body| + 4) / 256, (|body| + 4) % 256, cmd, 1, |body| / 256, |body| % 256] + body
            + [0, 0, 0, 0, 0, 0, 0, 0]
    ensures forall random: Digest :: HelloBody(random) == random + [0, 0, 0, 0, 0, 0, 0, 0]
    ensures COMPLETE == Message([1, 0], false)
  {
    assert Zeros(8) == [0, 0, 0, 0, 0, 0, 0, 0];
    hide Zeros;
  }

  /** A message is sent if and only if it fits the packet buffer, and says so in the transcript if and only if that has room. */
  lemma SendsInNumbers(c: Crypto, a: Auth, cmd: byte, body: seq<byte>, env: Env)
    ensures var r, record := SendFull(c, a, cmd, body, env), HostRecord(cmd, body);
            if |body| > 4078 then r == Outcome(a, None, false)
            else
              && r.sent == Some(Message(FullPacket(cmd, body), true)) && r.ok == env.accepts && r.a.lastCmd == cmd
              && (if |a.transcriptBuf| + |record| <= 8192
                  then r.a.transcriptBuf == a.transcriptBuf + record && r.a.transcript == c.sha256(a.transcriptBuf + record)
                  else r.a.transcriptBuf == a.transcriptBuf && r.a.transcript == a.transcript)
  {
    hide FullPacket, HostRecord;
  }

  /** The first message: a hello of 58 bytes with the host's nonce. */
  lemma StartInNumbers(c: Crypto, a: Auth, env: Env)
    ensures var r := Start(c, a, env);
            && r.sent == Some(Message([0, 0x41, 0, 1, 0, 44, 1, 1, 0, 40] + a.randomHost + [0, 0, 0, 0, 0, 0, 0, 0]
                                      + [0, 0, 0, 0, 0, 0, 0, 0], true))
            && |r.sent.value.data| == 58 && r.a.started && r.a.lastCmd == 0x01 && r.ok == env.accepts
  {
    MessagesInNumbers(0x01, 0, HelloBody(a.randomHost));
    var head, zeros: seq<byte> := [0, 0x41, 0, 1, 0, 44, 1, 1, 0, 40], [0, 0, 0, 0, 0, 0, 0, 0];
    assert head + (a.randomHost + zeros) + zeros == head + a.randomHost + zeros + zeros;
    hide FullPacket, HostRecord, HelloBody, TranscriptUpdate;
  }

  /** Completion without a client finish: only while one is asked for, and for good only if the message is accepted. */
  lemma CompletesInNumbers(a: Auth, env: Env)
    ensures var r, open := CompleteWithoutClientFinish(a, env), a.lastCmd == 0x08 && !a.authenticated;
            && r.sent == (if open then Some(Message([1, 0], false)) else None)
            && r.ok == (!open || env.accepts)
            && r.a == a.(authenticated := a.authenticated || (open && env.accepts))
  {
  }

  /** A request for `hi` times 256 and `lo` bytes, headers counted. */
  function Asks(cmd: byte, hi: byte, lo: byte): Option<Message> {
    Some(Message([0, 0x42, 0, cmd, hi, lo, 0, 0, 0, 0, 0, 0, 0, 0], true))
  }

  /** Records that are too short, that ask for an upgrade, or that are no business of the handshake. */
  lemma OtherRecords(c: Crypto, a: Auth, d: seq<byte>, env: Env)
    requires |d| <= 4096 && |a.transcriptBuf| <= 8192
    ensures var r := Process(c, a, d, env);
            && (|d| < 6 ==> r == Outcome(a, None, false))
            && (|d| >= 10 && d[0] == 0 && d[3] != d[6] ==>
                  && r.sent == Some(Message([0, 0x41, 0, 0x21, 0, 40, 0x21, 1, 0, 36] + env.random
                                            + [0, 0, 0, 0] + [0, 0, 0, 0, 0, 0, 0, 0], true))
                  && r.a.randomHost == env.random && r.ok == env.accepts)
            && (6 <= |d| < 10 && d[1] % 2 == 0 ==> r == Outcome(a, None, true))
            && (|d| >= 10 && d[0] != 0 && d[1] % 2 == 0 ==> r == Outcome(a, None, true))
  {
    assert Zeros(4) == [0, 0, 0, 0];
    MessagesInNumbers(0x21, 0, env.random + [0, 0, 0, 0]);
    hide FullPacket, TranscriptUpdate, HostRecord, Zeros;
    if |d| >= 10 && d[0] == 0 && d[3] != d[6] {
      var head: seq<byte> := [0, 0x41, 0, 0x21, 0, 40, 0x21, 1, 0, 36];
      assert head + (env.random + [0, 0, 0, 0]) == head + env.random + [0, 0, 0, 0];
    }
  }

  lemma AckIsReply(c: Crypto, a: Auth, d: seq<byte>, env: Env)
    requires 6 <= |d| <= 4096 && |a.transcriptBuf| <= 8192 && d[1] % 2 == 1
    requires |d| >= 10 && d[0] == 0 ==> d[3] == d[6]
    ensures Process(c, a, d, env) == AckReply(c, a, env)
  {
    hide AckReply;
  }

  /** What an acknowledgement is answered with: by the last command, and by nothing else. */
  lemma AcksInNumbers(c: Crypto, a: Auth, d: seq<byte>, env: Env)
    requires 6 <= |d| <= 4096 && |a.transcriptBuf| <= 8192 && d[1] % 2 == 1
    requires |d| >= 10 && d[0] == 0 ==> d[3] == d[6]
    ensures var r, last := Process(c, a, d, env), a.lastCmd;
            && (last == 0x01 ==> r.sent == Asks(0x02, 0, 84))
            && (last == 0x07 ==> r.sent == Asks(0x08, 0, 68))
            && (last == 0x26 ==> r.sent == Asks(0x27, 0, 68))
            && (last in {0x01, 0x07, 0x26} ==> r.ok == env.accepts)
            && (last in {0x05, 0x25} && !env.allocates ==> r == Outcome(a, None, false))
            && (last !in {0x01, 0x05, 0x07, 0x25, 0x26} ==> r == Outcome(a, None, true))
  {
    AckIsReply(c, a, d, env);
    MessagesInNumbers(0x02, 80, []);
    MessagesInNumbers(0x08, 64, []);
    MessagesInNumbers(0x27, 64, []);
    hide Process, SendFull, RequestPacket, FinishBody;
  }

  /** The host finish, in version 1 and in version 2. */
  lemma FinishesInNumbers(c: Crypto, a: Auth, d: seq<byte>, env: Env)
    requires 6 <= |d| <= 4096 && |a.transcriptBuf| <= 8192 && d[1] % 2 == 1 && env.allocates
    requires |d| >= 10 && d[0] == 0 ==> d[3] == d[6]
    ensures var r := Process(c, a, d, env);
            var body, end := Prf(c, a.masterSecret, Ascii("Host Finished"), a.transcript, 32), [0, 0, 0, 0, 0, 0, 0, 0];
            && (a.lastCmd == 0x05 ==> r.sent == Some(Message([0, 0x41, 0, 0x07, 0, 36, 0x07, 1, 0, 32] + body + end, true)))
            && (a.lastCmd == 0x25 ==> r.sent == Some(Message([0, 0x41, 0, 0x26, 0, 36, 0x26, 1, 0, 32] + body + end, true)))
            && (a.lastCmd in {0x05, 0x25} ==> r.ok == env.accepts)
  {
    AckIsReply(c, a, d, env);
    MessagesInNumbers(0x07, 0, FinishBody(c, a));
    MessagesInNumbers(0x26, 0, FinishBody(c, a));
    hide Process, FullPacket, HostRecord, TranscriptUpdate, Request, Prf, Ascii;
  }

  /** The size of a data record's body: as announced, high byte first, or what there is. */
  function BodySize(d: seq<byte>): nat
    requires |d| >= 10
  {
    var announced := d[8] as int * 256 + d[9] as int;
    if announced > |d| - 10 then |d| - 10 else announced
  }

  lemma RecordIsReply(c: Crypto, a: Auth, d: seq<byte>, env: Env)
    requires 10 <= |d| <= 4096 && |a.transcriptBuf| <= 8192 && d[0] == 0 && d[1] % 2 == 0 && d[3] == d[6] != 0x03
    ensures IsDataRecord(d) && !IsCertificate(d) && |Body(d)| == BodySize(d)
    ensures Process(c, a, d, env) == DataReply(c, TranscriptUpdate(c, a, d[6..]), d, env)
    ensures var b := TranscriptUpdate(c, a, d[6..]);
            && b.lastCmd == a.lastCmd && b.authenticated == a.authenticated
            && b.randomHost == a.randomHost && b.randomClient == a.randomClient
  {
    hide DataReply;
  }

  /** What a data record is answered with: its command and its length decide. */
  lemma RecordsInNumbers(c: Crypto, a: Auth, d: seq<byte>, env: Env)
    requires 10 <= |d| <= 4096 && |a.transcriptBuf| <= 8192 && d[0] == 0 && d[1] % 2 == 0 && d[3] == d[6] != 0x03
    ensures var r, n := Process(c, a, d, env), BodySize(d);
            && ((d[3] in {0x02, 0x22} && n < 32) || (d[3] == 0x24 && n < 64) ==> r.sent == None && !r.ok)
            && (d[3] in {0x02, 0x22} && n >= 32 ==>
                  && r.sent == (if d[3] == 0x02 then Asks(0x03, 4, 4) else Asks(0x23, 3, 4))
                  && r.a.randomClient == d[10..42] && r.ok == env.accepts)
            && (d[3] == 0x23 ==> r.sent == Asks(0x24, 0, 132) && r.ok == env.accepts)
            && (d[3] in {0x08, 0x27} ==>
                  && r.sent == Some(Message([1, 0], false)) && r.ok == env.accepts
                  && r.a.authenticated == (a.authenticated || env.accepts))
            && (d[3] !in {0x02, 0x08, 0x22, 0x23, 0x24, 0x27} ==>
                  r.sent == None && r.ok && r.a.lastCmd == a.lastCmd && r.a.authenticated == a.authenticated)
  {
    RecordIsReply(c, a, d, env);
    MessagesInNumbers(0x03, 1024, []);
    MessagesInNumbers(0x23, 768, []);
    MessagesInNumbers(0x24, 128, []);
    hide Process, RequestPacket, EcdhExchange, TranscriptUpdate, Body, BodySize, IsDataRecord;
  }

  /** The public key exchange. */
  lemma ExchangeInNumbers(c: Crypto, a: Auth, d: seq<byte>, env: Env)
    requires 74 <= |d| <= 4096 && |a.transcriptBuf| <= 8192 && d[0] == 0 && d[1] % 2 == 0
    requires d[3] == d[6] == 0x24 && BodySize(d) >= 64
    ensures var r, pub, shared := Process(c, a, d, env), c.ecdhPublic(env.ephemeral), c.ecdhShared(env.ephemeral, d[10..74]);
            if pub.None? || shared.None? || !env.allocates then r.sent == None && !r.ok
            else
              && r.sent == Some(Message([0, 0x41, 0, 0x25, 0, 68, 0x25, 1, 0, 64] + pub.value + [0, 0, 0, 0, 0, 0, 0, 0], true))
              && r.a.masterSecret == MasterSecret(c, c.sha256(shared.value), a.randomHost, a.randomClient)
              && r.ok == env.accepts
  {
    RecordIsReply(c, a, d, env);
    var pub := c.ecdhPublic(env.ephemeral);
    if pub.Some? {
      MessagesInNumbers(0x25, 0, pub.value);
    }
    hide Process, FullPacket, HostRecord, MasterSecret, TranscriptUpdate, IsDataRecord, BodySize;
  }

  /** What a DER sequence of 266 bytes begins with. */
  predicate DerAt(body: seq<byte>, i: nat) {
    i + 4 <= |body| && body[i] == 0x30 && body[i + 1] == 0x82 && body[i + 2] == 0x01 && body[i + 3] == 0x0a
  }

  lemma KeyIsDer(body: seq<byte>, i: nat)
    ensures KeyAt(body, i) <==> DerAt(body, i)
  {
    if i + 4 <= |body| {
      assert body[i..i + 4] == [body[i], body[i + 1], body[i + 2], body[i + 3]];
    }
  }

  ghost predicate FirstDer(body: seq<byte>, k: nat) {
    DerAt(body, k) && forall m: nat | m < k :: !DerAt(body, m)
  }

  ghost predicate NoDer(body: seq<byte>) {
    forall m: nat :: !DerAt(body, m)
  }

  /** The search finds the first place where such a sequence begins. */
  lemma KeyFound(body: seq<byte>, k: nat)
    ensures FindKey(body, 0) == Some(k) <==> FirstDer(body, k)
    ensures FindKey(body, 0) == None <==> NoDer(body)
  {
    forall m: nat ensures KeyAt(body, m) <==> DerAt(body, m) {
      KeyIsDer(body, m);
    }
    hide FindKey, KeyAt, DerAt;
    var found := FindKey(body, 0);
    if found.Some? {
      assert KeyAt(body, found.value);
    }
  }

  lemma CertificateIsReply(c: Crypto, a: Auth, d: seq<byte>, env: Env) returns (b: Auth)
    requires 10 <= |d| <= 4096 && |a.transcriptBuf| <= 8192 && d[0] == 0 && d[1] % 2 == 0 && d[3] == d[6] == 0x03
    ensures IsCertificate(d) && Body(d) == d[10..10 + BodySize(d)]
    ensures Process(c, a, d, env) == CertificateReply(c, b, d, env)
    ensures b.randomHost == a.randomHost && b.randomClient == a.randomClient
  {
    hide CertificateReply;
    b := RollBack(c, TranscriptUpdate(c, a, d[6..]), |d| - 6);
  }

  lemma SecretInNumbers(c: Crypto, a: Auth, env: Env)
    ensures var r, enc := RsaSecret(c, a, env), c.rsaEncrypt(a.clientPubkey, env.premaster);
            if enc.None? || !env.allocates || |enc.value| != 256 then r.sent == None && !r.ok
            else
              && r.sent == Some(Message([0, 0x41, 0, 5, 1, 4, 5, 1, 1, 0] + enc.value + [0, 0, 0, 0, 0, 0, 0, 0], true))
              && r.a.masterSecret == MasterSecret(c, env.premaster, a.randomHost, a.randomClient)
              && r.ok == env.accepts
  {
    var enc := c.rsaEncrypt(a.clientPubkey, env.premaster);
    if enc.Some? && |enc.value| == 256 {
      MessagesInNumbers(0x05, 0, enc.value);
    }
    hide FullPacket, HostRecord, MasterSecret, TranscriptUpdate;
  }

  lemma CertificateOutcome(c: Crypto, a: Auth, d: seq<byte>, env: Env)
    requires IsCertificate(d)
    ensures var r, body := CertificateReply(c, a, d, env), Body(d);
            var k := FindKey(body, 0);
            if |body| > 1024 || k.None? || k.value + 270 > |body| then r.sent == None && !r.ok
            else
              var secret := RsaSecret(c, a.(certificate := body, clientPubkey := body[k.value..k.value + 270]), env);
              r.sent == secret.sent && r.ok == secret.ok && r.a.masterSecret == secret.a.masterSecret
  {
    hide FindKey, RsaSecret, Body, IsCertificate;
  }

  /**
   A certificate: 270 bytes from where the key starts are encrypted to, and
   anything amiss fails the call without a message: a body of more than 1024
   bytes, a key cut short or not there at all, a failing library, a secret that
   has not 256 bytes.
   */
  lemma CertificatesInNumbers(c: Crypto, a: Auth, d: seq<byte>, env: Env, k: nat)
    requires 10 <= |d| <= 4096 && |a.transcriptBuf| <= 8192 && d[0] == 0 && d[1] % 2 == 0 && d[3] == d[6] == 0x03
    ensures var r, body := Process(c, a, d, env), d[10..10 + BodySize(d)];
            && (|body| > 1024 || NoDer(body) ==> r.sent == None && !r.ok)
            && (|body| <= 1024 && FirstDer(body, k) ==>
                  if k + 270 > |body| then r.sent == None && !r.ok
                  else
                    var enc := c.rsaEncrypt(body[k..k + 270], env.premaster);
                    if enc.None? || !env.allocates || |enc.value| != 256 then r.sent == None && !r.ok
                    else
                      && r.sent == Some(Message([0, 0x41, 0, 5, 1, 4, 5, 1, 1, 0] + enc.value + [0, 0, 0, 0, 0, 0, 0, 0], true))
                      && r.a.masterSecret == MasterSecret(c, env.premaster, a.randomHost, a.randomClient)
                      && r.ok == env.accepts)
  {
    var b := CertificateIsReply(c, a, d, env);
    var body := Body(d);
    CertificateOutcome(c, b, d, env);
    KeyFound(body, k);
    hide *;
    if k + 270 <= |body| {
      SecretInNumbers(c, b.(certificate := body, clientPubkey := body[k..k + 270]), env);
    }
  }

  // ----- runs ---------------------------------------------------------------------------

  datatype Input = StartInput | ProcessInput(data: seq<byte>) | CompleteInput

  datatype Step = Step(input: Input, env: Env)

  predicate Fits(s: Step) {
    s.input.ProcessInput? ==> |s.input.data| <= MAX_RECORD
  }

  predicate RecordsFit(steps: seq<Step>) {
    forall i | 0 <= i < |steps| :: Fits(steps[i])
  }

  function Apply(c: Crypto, a: Auth, s: Step): Outcome
    requires |a.transcriptBuf| <= TRANSCRIPT_SIZE
    requires Fits(s)
  {
    match s.input
    case StartInput => Start(c, a, s.env)
    case ProcessInput(d) => Process(c, a, d, s.env)
    case CompleteInput => CompleteWithoutClientFinish(a, s.env)
  }

  /** The transcript hash is the hash of the buffer, and the buffer is not overrun. */
  ghost predicate Consistent(c: Crypto, a: Auth) {
    |a.transcriptBuf| <= TRANSCRIPT_SIZE && a.transcript == c.sha256(a.transcriptBuf)
  }

  /** The calls of a session as seen from outside: what came in, what was sent, whether it returned 0. */
  datatype Call = Call(input: Input, sent: Option<Message>, ok: bool)

  datatype Session = Session(a: Auth, calls: seq<Call>)

  /** The part of a sent message that goes into the transcript: nothing of a request or of the completion. */
  function HostPart(sent: Option<Message>): seq<byte> {
    if sent.Some? && |sent.value.data| >= 10 + TRAILER && sent.value.data[1] == 0x41
    then sent.value.data[6..|sent.value.data| - TRAILER]
    else []
  }

  /** The command a sent message issues; the completion issues none. */
  function Issued(sent: Option<Message>): Option<byte> {
    if sent.Some? && |sent.value.data| > 2 + 1 then Some(sent.value.data[3]) else None
  }

  /** A transcript with `p` added, if there is room for it. */
  function Appended(buf: seq<byte>, p: seq<byte>): seq<byte> {
    if |buf| + |p| <= TRANSCRIPT_SIZE then buf + p else buf
  }

  /** What every reply does, whatever it is: the sent message is put in the transcript if there is room, and remembered as the last command. */
  ghost predicate Records(c: Crypto, a: Auth, r: Outcome) {
    && (Consistent(c, a) ==> Consistent(c, r.a))
    && r.a.transcriptBuf == Appended(a.transcriptBuf, HostPart(r.sent))
    && r.a.lastCmd == (if Issued(r.sent).Some? then Issued(r.sent).value else a.lastCmd)
    && (a.authenticated ==> r.a.authenticated)
  }

  lemma SendFullRecords(c: Crypto, a: Auth, cmd: byte, body: seq<byte>, env: Env)
    ensures Records(c, a, SendFull(c, a, cmd, body, env))
  {
  }

  lemma FinishRecords(c: Crypto, a: Auth, cmd: byte, env: Env)
    ensures Records(c, a, SendFinish(c, a, cmd, env))
  {
    SendFullRecords(c, a, cmd, FinishBody(c, a), env);
  }

  lemma RequestRecords(c: Crypto, a: Auth, cmd: byte, len: nat, env: Env)
    ensures Records(c, a, Request(a, cmd, len, env))
  {
  }

  lemma StartRecords(c: Crypto, a: Auth, env: Env)
    ensures Records(c, a, Start(c, a, env))
  {
    SendFullRecords(c, a.(started := true), 0x01, HelloBody(a.randomHost), env);
  }

  lemma AckReplyRecords(c: Crypto, a: Auth, env: Env)
    ensures Records(c, a, AckReply(c, a, env))
  {
    hide Request, SendFinish;
    RequestRecords(c, a, 0x02, 80, env);
    FinishRecords(c, a, 0x07, env);
    RequestRecords(c, a, 0x08, 64, env);
    FinishRecords(c, a, 0x26, env);
    RequestRecords(c, a, 0x27, 64, env);
  }

  lemma RsaSecretRecords(c: Crypto, a: Auth, env: Env)
    ensures Records(c, a, RsaSecret(c, a, env))
  {
    hide SendFull, Prf;
    var enc := c.rsaEncrypt(a.clientPubkey, env.premaster);
    if enc.Some? {
      var a1 := a.(masterSecret := MasterSecret(c, env.premaster, a.randomHost, a.randomClient));
      SendFullRecords(c, a1, 0x05, enc.value, env);
    }
  }

  lemma EcdhExchangeRecords(c: Crypto, a: Auth, env: Env)
    ensures Records(c, a, EcdhExchange(c, a, env))
  {
    hide SendFull, Prf;
    var pub, shared := c.ecdhPublic(env.ephemeral), c.ecdhShared(env.ephemeral, a.clientPubkey2);
    if pub.Some? && shared.Some? {
      var a1 := a.(masterSecret := MasterSecret(c, c.sha256(shared.value), a.randomHost, a.randomClient));
      SendFullRecords(c, a1, 0x25, pub.value, env);
    }
  }

  lemma NothingSent()
    ensures HostPart(None) == [] && Issued(None) == None
    ensures HostPart(Some(COMPLETE)) == [] && Issued(Some(COMPLETE)) == None
  {
  }

  lemma DataReplyRecords(c: Crypto, a: Auth, d: seq<byte>, env: Env)
    requires IsDataRecord(d) && !IsCertificate(d)
    ensures Records(c, a, DataReply(c, a, d, env))
  {
    hide Request, EcdhExchange, HostPart, Issued, IsAck, IsUpgrade;
    NothingSent();
    if |Body(d)| >= 32 {
      RequestRecords(c, a.(randomClient := d[10..42]), 0x03, 1024, env);
      RequestRecords(c, a.(randomClient := d[10..42]), 0x23, 768, env);
    }
    RequestRecords(c, a, 0x24, 128, env);
    if |Body(d)| >= 64 {
      EcdhExchangeRecords(c, a.(clientPubkey2 := d[10..74]), env);
    }
  }

  /** A certificate record does the same, and then goes into the transcript itself if all went well. */
  lemma CertificateReplyRecords(c: Crypto, a: Auth, d: seq<byte>, env: Env)
    requires IsCertificate(d)
    ensures var r := CertificateReply(c, a, d, env);
            exists before: Outcome ::
              && Records(c, a, before) && before.sent == r.sent && before.ok == r.ok
              && r.a == if r.ok then TranscriptUpdate(c, before.a, d[6..]) else before.a
  {
    hide RsaSecret, TranscriptUpdate;
    var body := Body(d);
    var a1 := a.(certificate := body);
    if |body| > CERTIFICATE_SIZE {
      assert Records(c, a, Outcome(a, None, false));
    } else {
      var key := FindKey(body, 0);
      if key.None? || key.value + PUBKEY_SIZE > |body| {
        assert Records(c, a, Outcome(a1, None, false));
      } else {
        var a2 := a1.(clientPubkey := body[key.value..key.value + PUBKEY_SIZE]);
        RsaSecretRecords(c, a2, env);
        assert Records(c, a, RsaSecret(c, a2, env));
      }
    }
  }

  lemma UpdateRecords(c: Crypto, a: Auth, p: seq<byte>)
    ensures var t := TranscriptUpdate(c, a, p);
            && (Consistent(c, a) ==> Consistent(c, t))
            && t.transcriptBuf == Appended(a.transcriptBuf, p)
            && t.lastCmd == a.lastCmd && t.authenticated == a.authenticated
  {
  }

  // ----- what the transcript means ------------------------------------------------------

  /**
   What one call adds to the transcript, read off from outside: received data
   records with their trailer, sent host records without it, and nothing for
   acknowledgements, upgrade records, requests and completions. The reply
   follows the record, except that the secret precedes the certificate, which
   counts only if the call succeeds.
   */
  function Contribution(call: Call): seq<byte> {
    var host := HostPart(call.sent);
    if call.input.ProcessInput? && IsDataRecord(call.input.data) then
      var record := call.input.data[6..];
      if IsCertificate(call.input.data) then host + (if call.ok then record else [])
      else record + host
    else host
  }

  /** The room a call needs: for all it adds, and on the way for a certificate even if that is taken out again. */
  function Needed(call: Call): nat {
    var host := |HostPart(call.sent)|;
    if call.input.ProcessInput? && IsCertificate(call.input.data) && !call.ok then Max(host, |call.input.data| - 6)
    else |Contribution(call)|
  }

  function TranscriptOf(calls: seq<Call>): seq<byte> {
    if calls == [] then []
    else TranscriptOf(calls[..|calls| - 1]) + Contribution(calls[|calls| - 1])
  }

  predicate HasRoom(calls: seq<Call>) {
    calls == [] ||
    (HasRoom(calls[..|calls| - 1]) && |TranscriptOf(calls[..|calls| - 1])| + Needed(calls[|calls| - 1]) <= TRANSCRIPT_SIZE)
  }

  function CallOf(c: Crypto, a: Auth, s: Step): Call
    requires |a.transcriptBuf| <= TRANSCRIPT_SIZE
    requires Fits(s)
  {
    var r := Apply(c, a, s);
    Call(s.input, r.sent, r.ok)
  }

  /** What one call does to the parts of the state the theorems are about. */
  ghost predicate CallKeeps(c: Crypto, a: Auth, s: Step)
    requires |a.transcriptBuf| <= TRANSCRIPT_SIZE
    requires Fits(s)
  {
    var r, call := Apply(c, a, s), CallOf(c, a, s);
    && Consistent(c, r.a)
    && (if |a.transcriptBuf| + Needed(call) <= TRANSCRIPT_SIZE then r.a.transcriptBuf == a.transcriptBuf + Contribution(call)
        else |r.a.transcriptBuf| < |a.transcriptBuf| + |Contribution(call)|)
    && r.a.lastCmd == (if Issued(r.sent).Some? then Issued(r.sent).value else a.lastCmd)
    && (a.authenticated ==> r.a.authenticated)
  }

  lemma DataRecordKeeps(c: Crypto, a: Auth, d: seq<byte>, env: Env)
    requires Consistent(c, a) && |d| <= MAX_RECORD && IsDataRecord(d)
    ensures CallKeeps(c, a, Step(ProcessInput(d), env))
  {
    hide TranscriptUpdate, DataReply, CertificateReply, HostPart, Issued;
    var record := d[6..];
    var a1 := TranscriptUpdate(c, a, record);
    UpdateRecords(c, a, record);
    if IsCertificate(d) {
      CertificateKeeps(c, a, d, env);
    } else {
      DataReplyRecords(c, a1, d, env);
    }
  }

  /** Putting a record in the transcript and rolling it back leaves it consistent, and unchanged if there was room. */
  lemma UndoneUpdate(c: Crypto, a: Auth, d: seq<byte>) returns (a2: Auth)
    requires Consistent(c, a) && |d| <= MAX_RECORD && IsCertificate(d)
    ensures Consistent(c, a2) && a2.lastCmd == a.lastCmd && a2.authenticated == a.authenticated
    ensures a2.started == a.started && a2.randomHost == a.randomHost
    ensures if |a.transcriptBuf| + |d| - 6 <= TRANSCRIPT_SIZE then a2.transcriptBuf == a.transcriptBuf
            else |a2.transcriptBuf| == |a.transcriptBuf| - (|d| - 6)
    ensures forall env :: Process(c, a, d, env) == CertificateReply(c, a2, d, env)
  {
    a2 := RollBack(c, TranscriptUpdate(c, a, d[6..]), |d| - 6);
  }

  lemma CertificateKeeps(c: Crypto, a: Auth, d: seq<byte>, env: Env)
    requires Consistent(c, a) && |d| <= MAX_RECORD && IsCertificate(d)
    ensures CallKeeps(c, a, Step(ProcessInput(d), env))
  {
    hide TranscriptUpdate, CertificateReply, HostPart, Issued, Process, IsAck, IsUpgrade;
    var record := d[6..];
    var a2 := UndoneUpdate(c, a, d);
    var r := Process(c, a, d, env);
    CertificateReplyRecords(c, a2, d, env);
    var before: Outcome :|
      && Records(c, a2, before) && before.sent == r.sent && before.ok == r.ok
      && r.a == if r.ok then TranscriptUpdate(c, before.a, record) else before.a;
    UpdateRecords(c, before.a, record);
    var host := HostPart(r.sent);
    assert a.transcriptBuf + (host + record) == a.transcriptBuf + host + record;
    assert a.transcriptBuf + (host + []) == a.transcriptBuf + host;
  }

  lemma StepKeeps(c: Crypto, a: Auth, s: Step)
    requires Consistent(c, a)
    requires Fits(s)
    ensures CallKeeps(c, a, s)
  {
    match s.input
    case StartInput =>
      StartRecords(c, a, s.env);
    case CompleteInput =>
    case ProcessInput(d) =>
      if IsDataRecord(d) {
        DataRecordKeeps(c, a, d, s.env);
      } else {
        hide SendFull, AckReply, HostPart, Issued;
        AckReplyRecords(c, a, s.env);
        SendFullRecords(c, a.(randomHost := s.env.random), 0x21, s.env.random + Zeros(4), s.env);
        assert HostPart(None) == [] && Issued(None) == None;
      }
  }

  ghost function Run(c: Crypto, random: Digest, steps: seq<Step>): (s: Session)
    requires RecordsFit(steps)
    ensures Consistent(c, s.a) && |s.calls| == |steps|
  {
    if steps == [] then Session(Initial(c, random), [])
    else
      var before, step := Run(c, random, steps[..|steps| - 1]), steps[|steps| - 1];
      StepKeeps(c, before.a, step);
      Session(Apply(c, before.a, step).a, before.calls + [CallOf(c, before.a, step)])
  }

  /**
   What the transcript means: the calls' contributions in order, and its hash is
   theirs, for exactly the runs with room in the buffer. Where room ran out once,
   the transcript stays short of them for good.
   */
  lemma {:induction false} TranscriptMeaning(c: Crypto, random: Digest, steps: seq<Step>)
    requires RecordsFit(steps)
    ensures var s := Run(c, random, steps);
            && (HasRoom(s.calls) <==> s.a.transcriptBuf == TranscriptOf(s.calls))
            && (HasRoom(s.calls) ==> s.a.transcript == c.sha256(TranscriptOf(s.calls)))
            && (!HasRoom(s.calls) ==> |s.a.transcriptBuf| < |TranscriptOf(s.calls)|)
  {
    if steps != [] {
      var init, step := steps[..|steps| - 1], steps[|steps| - 1];
      var before, after := Run(c, random, init), Run(c, random, steps);
      assert after.calls[..|steps| - 1] == before.calls;
      TranscriptMeaning(c, random, init);
      StepKeeps(c, before.a, step);
      hide Apply, Contribution, Needed;
    }
  }

  // ----- order of the handshake -----------------------------------------------------------

  /** Where the commands that end a handshake come from. */
  ghost predicate IssuedInTurn(c: Crypto, a: Auth, env: Env, r: Outcome) {
    var i := Issued(r.sent);
    && (i == Some(0x02) ==> a.lastCmd == 0x01)
    && (i == Some(0x07) ==> a.lastCmd == 0x05 && r == SendFinish(c, a, 0x07, env))
    && (i == Some(0x08) ==> a.lastCmd == 0x07)
    && (i == Some(0x26) ==> a.lastCmd == 0x25 && r == SendFinish(c, a, 0x26, env))
    && (i == Some(0x27) ==> a.lastCmd == 0x26)
  }

  lemma AckReplyInTurn(c: Crypto, a: Auth, env: Env)
    ensures IssuedInTurn(c, a, env, AckReply(c, a, env))
  {
  }

  lemma DataReplyIssues(c: Crypto, a: Auth, d: seq<byte>, env: Env)
    requires IsDataRecord(d) && !IsCertificate(d)
    ensures Issued(DataReply(c, a, d, env).sent) in {None, Some(0x03), Some(0x23), Some(0x24), Some(0x25)}
  {
    hide Prf, TranscriptUpdate;
  }

  lemma CertificateReplyIssues(c: Crypto, a: Auth, d: seq<byte>, env: Env)
    requires IsCertificate(d)
    ensures Issued(CertificateReply(c, a, d, env).sent) in {None, Some(0x05)}
  {
    hide Prf, TranscriptUpdate, FindKey;
  }

  lemma StepInTurn(c: Crypto, a: Auth, s: Step)
    requires Consistent(c, a)
    requires Fits(s)
    ensures IssuedInTurn(c, a, s.env, Apply(c, a, s))
  {
    hide SendFinish, AckReply, DataReply, CertificateReply, TranscriptUpdate;
    if s.input.ProcessInput? {
      var d := s.input.data;
      if IsAck(d) {
        AckReplyInTurn(c, a, s.env);
      } else if IsCertificate(d) {
        var a2 := UndoneUpdate(c, a, d);
        CertificateReplyIssues(c, a2, d, s.env);
      } else if IsDataRecord(d) {
        DataReplyIssues(c, TranscriptUpdate(c, a, d[6..]), d, s.env);
      }
    }
  }

  /** The commands issued over a run, in order. */
  function Commands(calls: seq<Call>): seq<byte> {
    if calls == [] then []
    else
      var i := Issued(calls[|calls| - 1].sent);
      Commands(calls[..|calls| - 1]) + if i.Some? then [i.value] else []
  }

  /** The command that must come right before another, if it has one. */
  function Before(cmd: byte): Option<byte> {
    if cmd == 0x02 then Some(0x01)
    else if cmd == 0x07 then Some(0x05)
    else if cmd == 0x08 then Some(0x07)
    else if cmd == 0x26 then Some(0x25)
    else if cmd == 0x27 then Some(0x26)
    else None
  }

  predicate InOrder(cmds: seq<byte>) {
    forall i | 0 <= i < |cmds| && Before(cmds[i]).Some? :: i > 0 && cmds[i - 1] == Before(cmds[i]).value
  }

  ghost predicate LastOf(cmds: seq<byte>, last: byte) {
    last == if cmds == [] then 0 else cmds[|cmds| - 1]
  }

  lemma OrderExtends(cmds: seq<byte>, last: byte, cmd: byte)
    requires InOrder(cmds) && LastOf(cmds, last)
    requires Before(cmd).Some? ==> last == Before(cmd).value
    ensures InOrder(cmds + [cmd]) && LastOf(cmds + [cmd], cmd)
  {
  }

  /** In every run, `lastCmd` is the last command issued, and the commands are in order. */
  lemma {:induction false} CommandsInOrder(c: Crypto, random: Digest, steps: seq<Step>)
    requires RecordsFit(steps)
    ensures var s := Run(c, random, steps); InOrder(Commands(s.calls)) && LastOf(Commands(s.calls), s.a.lastCmd)
  {
    if steps != [] {
      var init, step := steps[..|steps| - 1], steps[|steps| - 1];
      var before := Run(c, random, init);
      RunLast(c, random, steps);
      CommandsInOrder(c, random, init);
      InTurn(c, before.a, step);
      hide *;
      var call := CallOf(c, before.a, step);
      CommandsLast(before.calls, call);
      if Issued(call.sent).Some? {
        OrderExtends(Commands(before.calls), before.a.lastCmd, Issued(call.sent).value);
      }
    }
  }

  lemma RunLast(c: Crypto, random: Digest, steps: seq<Step>)
    requires RecordsFit(steps) && steps != []
    ensures RecordsFit(steps[..|steps| - 1]) && Fits(steps[|steps| - 1])
    ensures var before, step := Run(c, random, steps[..|steps| - 1]), steps[|steps| - 1];
            Run(c, random, steps) == Session(Apply(c, before.a, step).a, before.calls + [CallOf(c, before.a, step)])
  {
  }

  lemma CommandsLast(calls: seq<Call>, call: Call)
    ensures Commands(calls + [call]) ==
            if Issued(call.sent).Some? then Commands(calls) + [Issued(call.sent).value] else Commands(calls)
  {
    assert (calls + [call])[..|calls|] == calls;
  }

  lemma InTurn(c: Crypto, a: Auth, s: Step)
    requires Consistent(c, a) && Fits(s)
    ensures var i := Issued(CallOf(c, a, s).sent);
            && Apply(c, a, s).a.lastCmd == (if i.Some? then i.value else a.lastCmd)
            && (i.Some? && Before(i.value).Some? ==> a.lastCmd == Before(i.value).value)
  {
    StepKeeps(c, a, s);
    StepInTurn(c, a, s);
  }

  /** The last three commands, when a client finish has been asked for. */
  lemma FinishRequestedAfterFinish(c: Crypto, random: Digest, steps: seq<Step>)
    requires RecordsFit(steps)
    ensures var s := Run(c, random, steps); var cmds := Commands(s.calls); var n := |cmds|;
            && (s.a.lastCmd == 0x08 ==> n >= 3 && cmds[n - 3..] == [0x05, 0x07, 0x08])
            && (s.a.lastCmd == 0x27 ==> n >= 3 && cmds[n - 3..] == [0x25, 0x26, 0x27])
  {
    CommandsInOrder(c, random, steps);
    var cmds := Commands(Run(c, random, steps).calls);
    var n := |cmds|;
    if n > 0 && cmds[n - 1] in {0x08, 0x27} {
      assert cmds[n - 2] == Before(cmds[n - 1]).value;
      assert cmds[n - 3] == Before(cmds[n - 2]).value;
    }
  }

  /** A call that completed authentication on a bare GIP acknowledgement. */
  predicate CompletedByAck(call: Call) {
    call.input.CompleteInput? && call.sent == Some(COMPLETE) && call.ok
  }

  lemma {:induction false} CompletedMeansAuthenticated(c: Crypto, random: Digest, steps: seq<Step>, i: nat)
    requires RecordsFit(steps) && i < |steps| && CompletedByAck(Run(c, random, steps).calls[i])
    ensures Run(c, random, steps).a.authenticated
  {
    var init, step := steps[..|steps| - 1], steps[|steps| - 1];
    var before := Run(c, random, init);
    StepKeeps(c, before.a, step);
    if i < |steps| - 1 {
      CompletedMeansAuthenticated(c, random, init, i);
    }
  }

  /** The same, when the completing call is the last one. */
  lemma CompletedFirstTime(c: Crypto, random: Digest, steps: seq<Step>, step: Step)
    requires RecordsFit(steps) && Fits(step) && CompletedByAck(CallOf(c, Run(c, random, steps).a, step))
    ensures forall i | 0 <= i < |steps| :: !CompletedByAck(Run(c, random, steps).calls[i])
    ensures var cmds := Commands(Run(c, random, steps).calls); |cmds| >= 3 && cmds[|cmds| - 3..] == [0x05, 0x07, 0x08]
  {
    OnlyUnauthenticatedComplete(c, Run(c, random, steps).a, step);
    FinishRequestedAfterFinish(c, random, steps);
    hide Apply, Commands, CompletedByAck, Run;
    forall i | 0 <= i < |steps| ensures !CompletedByAck(Run(c, random, steps).calls[i]) {
      if CompletedByAck(Run(c, random, steps).calls[i]) {
        CompletedMeansAuthenticated(c, random, steps, i);
      }
    }
  }

  /** Completion by bare acknowledgement succeeds at most once in a session, and only after secret, finish and finish request. */
  lemma {:induction false} CompletedAtMostOnce(c: Crypto, random: Digest, steps: seq<Step>, j: nat)
    requires RecordsFit(steps) && j < |steps| && CompletedByAck(Run(c, random, steps).calls[j])
    ensures forall i | 0 <= i < j :: !CompletedByAck(Run(c, random, steps).calls[i])
    ensures RecordsFit(steps[..j])
    ensures var cmds := Commands(Run(c, random, steps[..j]).calls); |cmds| >= 3 && cmds[|cmds| - 3..] == [0x05, 0x07, 0x08]
  {
    var init := steps[..|steps| - 1];
    RunLast(c, random, steps);
    hide Commands, CompletedByAck, Run;
    if j < |steps| - 1 {
      CompletedAtMostOnce(c, random, init, j);
      assert init[..j] == steps[..j];
    } else {
      assert steps[..j] == init;
      CompletedFirstTime(c, random, init, steps[j]);
    }
  }

  lemma OnlyUnauthenticatedComplete(c: Crypto, a: Auth, s: Step)
    requires Consistent(c, a) && Fits(s) && CompletedByAck(CallOf(c, a, s))
    ensures !a.authenticated && a.lastCmd == 0x08
  {
  }

  /** A host finish carries the PRF over the hash of exactly what the transcript held before it. */
  lemma HostFinishBody(c: Crypto, random: Digest, steps: seq<Step>, step: Step)
    requires RecordsFit(steps) && Fits(step)
    ensures var before := Run(c, random, steps);
            var sent := CallOf(c, before.a, step).sent;
            HasRoom(before.calls) && Issued(sent) in {Some(0x07), Some(0x26)} ==>
              sent.value.data == FullPacket(sent.value.data[3],
                Prf(c, before.a.masterSecret, Ascii("Host Finished"), c.sha256(TranscriptOf(before.calls)), 32))
  {
    var before := Run(c, random, steps);
    TranscriptMeaning(c, random, steps);
    hide Apply;
    StepInTurn(c, before.a, step);
  }

  // ----- complete handshakes -----------------------------------------------------------

  /** The messages sent over a run, in order. */
  function Messages(calls: seq<Call>): seq<Message> {
    if calls == [] then []
    else
      var sent := calls[|calls| - 1].sent;
      Messages(calls[..|calls| - 1]) + if sent.Some? then [sent.value] else []
  }

  lemma RunMore(c: Crypto, random: Digest, steps: seq<Step>, step: Step)
    requires RecordsFit(steps) && Fits(step)
    ensures RecordsFit(steps + [step])
    ensures var s, t := Run(c, random, steps), Run(c, random, steps + [step]); var r := Apply(c, s.a, step);
            && t.a == r.a
            && Messages(t.calls) == Messages(s.calls) + if r.sent.Some? then [r.sent.value] else []
  {
    var longer := steps + [step];
    assert longer[..|steps|] == steps;
    var s, t := Run(c, random, steps), Run(c, random, longer);
    assert t.calls[..|steps|] == s.calls;
  }

  /** The commands that a list of messages issues. */
  function IssuedIn(messages: seq<Message>): seq<byte> {
    if messages == [] then []
    else
      var i := Issued(Some(messages[|messages| - 1]));
      IssuedIn(messages[..|messages| - 1]) + if i.Some? then [i.value] else []
  }

  lemma {:induction false} CommandsOfMessages(calls: seq<Call>)
    ensures Commands(calls) == IssuedIn(Messages(calls))
  {
    if calls != [] {
      hide Issued;
      var init, sent := calls[..|calls| - 1], calls[|calls| - 1].sent;
      CommandsOfMessages(init);
      if sent.Some? {
        var messages := Messages(init) + [sent.value];
        assert messages[..|messages| - 1] == Messages(init);
      } else {
        NothingSent();
        assert Messages(init) + [] == Messages(init);
      }
    }
  }

  /** What a device answers with in a version 1 handshake. */
  datatype Device = Device(hello: seq<byte>, certificate: seq<byte>, ack: seq<byte>) {
    predicate Answers() {
      && IsAck(ack) && |ack| <= MAX_RECORD
      && IsDataRecord(hello) && hello[3] == 0x02 && |Body(hello)| >= 32
      && IsCertificate(certificate) && |Body(certificate)| <= CERTIFICATE_SIZE
      && FindKey(Body(certificate), 0).Some? && FindKey(Body(certificate), 0).value + PUBKEY_SIZE <= |Body(certificate)|
      && |hello| + |certificate| <= 4096
    }

    function Key(): seq<byte>
      requires Answers()
    {
      var k := FindKey(Body(certificate), 0).value;
      Body(certificate)[k..k + PUBKEY_SIZE]
    }
  }

  /** A handshake in progress: the last command, the nonces, the master secret and the transcript so far. */
  ghost predicate At(c: Crypto, a: Auth, cmd: byte, host: Digest, client: Digest, master: seq<byte>, buf: seq<byte>) {
    && a.lastCmd == cmd && a.randomHost == host && a.randomClient == client && a.masterSecret == master
    && a.transcriptBuf == buf && Consistent(c, a) && !a.authenticated
  }

  /** The session ended in state `a` after sending exactly these messages. */
  ghost predicate SentSoFar(c: Crypto, random: Digest, steps: seq<Step>, a: Auth, messages: seq<Message>) {
    RecordsFit(steps) && Run(c, random, steps).a == a && Messages(Run(c, random, steps).calls) == messages
  }

  lemma SendMore(c: Crypto, random: Digest, steps: seq<Step>, a: Auth, messages: seq<Message>, step: Step)
    requires SentSoFar(c, random, steps, a, messages) && Fits(step) && Apply(c, a, step).sent.Some?
    ensures SentSoFar(c, random, steps + [step], Apply(c, a, step).a, messages + [Apply(c, a, step).sent.value])
  {
    RunMore(c, random, steps, step);
  }

  lemma Started(c: Crypto, a: Auth, env: Env)
    requires At(c, a, 0, a.randomHost, a.randomClient, a.masterSecret, [])
    ensures var r := Start(c, a, env);
            && r.sent == Some(Message(FullPacket(0x01, HelloBody(a.randomHost)), true))
            && At(c, r.a, 0x01, a.randomHost, a.randomClient, a.masterSecret, HostRecord(0x01, HelloBody(a.randomHost)))
  {
    assert [] + HostRecord(0x01, HelloBody(a.randomHost)) == HostRecord(0x01, HelloBody(a.randomHost));
  }

  lemma HelloAnswered(c: Crypto, a: Auth, dev: Device, env: Env)
    requires dev.Answers() && At(c, a, 0x02, a.randomHost, a.randomClient, a.masterSecret, a.transcriptBuf)
    requires |a.transcriptBuf| + |dev.hello| <= TRANSCRIPT_SIZE
    ensures var r := Process(c, a, dev.hello, env);
            && r.sent == Some(Message(RequestPacket(0x03, 1024), true))
            && At(c, r.a, 0x03, a.randomHost, dev.hello[10..42], a.masterSecret, a.transcriptBuf + dev.hello[6..])
  {
    hide RequestPacket;
  }

  lemma CertificateAnswered(c: Crypto, a: Auth, dev: Device, enc: seq<byte>, env: Env)
    requires dev.Answers() && env.accepts && env.allocates
    requires At(c, a, 0x03, a.randomHost, a.randomClient, a.masterSecret, a.transcriptBuf)
    requires c.rsaEncrypt(dev.Key(), env.premaster) == Some(enc) && |enc| == 256
    requires |a.transcriptBuf| + |dev.certificate| + 260 <= TRANSCRIPT_SIZE
    ensures var r := Process(c, a, dev.certificate, env);
            && r.sent == Some(Message(FullPacket(0x05, enc), true))
            && At(c, r.a, 0x05, a.randomHost, a.randomClient, MasterSecret(c, env.premaster, a.randomHost, a.randomClient),
                  a.transcriptBuf + HostRecord(0x05, enc) + dev.certificate[6..])
  {
    hide FindKey, MasterSecret, HostRecord, FullPacket, IsAck, IsUpgrade;
    var d := dev.certificate;
    var a2 := UndoneUpdate(c, a, d);
    assert a2.transcriptBuf == a.transcriptBuf;
  }

  /** A certificate with a usable key: it fits a record, and the key a library call turns into a 256-byte secret. */
  ghost predicate Usable(c: Crypto, d: seq<byte>, enc: seq<byte>, env: Env) {
    && IsCertificate(d) && |d| <= MAX_RECORD && |Body(d)| <= CERTIFICATE_SIZE
    && env.allocates && |enc| == 256
    && var k := FindKey(Body(d), 0);
       && k.Some? && k.value + PUBKEY_SIZE <= |Body(d)|
       && c.rsaEncrypt(Body(d)[k.value..k.value + PUBKEY_SIZE], env.premaster) == Some(enc)
  }

  /** Such a certificate is answered with the secret at any time, also before the first hello. */
  lemma CertificateAlwaysAnswered(c: Crypto, a: Auth, d: seq<byte>, enc: seq<byte>, env: Env)
    requires Consistent(c, a) && Usable(c, d, enc, env)
    ensures var r := Process(c, a, d, env);
            r.sent == Some(Message(FullPacket(0x05, enc), true)) && r.a.started == a.started && r.a.randomHost == a.randomHost
  {
    hide FindKey, MasterSecret, HostRecord, FullPacket, IsDataRecord, Process, Body, RollBack;
    var a2 := UndoneUpdate(c, a, d);
  }

  lemma AckAnsweredByFinish(c: Crypto, a: Auth, ack: seq<byte>, env: Env)
    requires IsAck(ack) && |ack| <= MAX_RECORD && env.allocates && a.lastCmd in {0x05, 0x25}
    requires At(c, a, a.lastCmd, a.randomHost, a.randomClient, a.masterSecret, a.transcriptBuf)
    requires |a.transcriptBuf| + 36 <= TRANSCRIPT_SIZE
    ensures var r, cmd, body := Process(c, a, ack, env), if a.lastCmd == 0x05 then 0x07 else 0x26, FinishBody(c, a);
            && r.sent == Some(Message(FullPacket(cmd, body), true))
            && At(c, r.a, cmd, a.randomHost, a.randomClient, a.masterSecret, a.transcriptBuf + HostRecord(cmd, body))
  {
    hide FullPacket, HostRecord;
  }

  lemma AckAnsweredByRequest(c: Crypto, a: Auth, ack: seq<byte>, env: Env)
    requires IsAck(ack) && |ack| <= MAX_RECORD && a.lastCmd in {0x01, 0x07, 0x26}
    requires At(c, a, a.lastCmd, a.randomHost, a.randomClient, a.masterSecret, a.transcriptBuf)
    ensures var r, cmd, size := Process(c, a, ack, env),
              (if a.lastCmd == 0x01 then 0x02 else if a.lastCmd == 0x07 then 0x08 else 0x27), if a.lastCmd == 0x01 then 80 else 64;
            && r.sent == Some(Message(RequestPacket(cmd, size), true))
            && At(c, r.a, cmd, a.randomHost, a.randomClient, a.masterSecret, a.transcriptBuf)
  {
    hide RequestPacket;
  }

  function V1Steps(dev: Device, env: Env): seq<Step> {
    [Step(StartInput, env), Step(ProcessInput(dev.ack), env), Step(ProcessInput(dev.hello), env),
     Step(ProcessInput(dev.certificate), env), Step(ProcessInput(dev.ack), env), Step(ProcessInput(dev.ack), env)]
  }

  /** The transcript a version 1 handshake has built up when the host finish is sent. */
  function V1Transcript(random: Digest, dev: Device, enc: seq<byte>): seq<byte>
    requires dev.Answers()
  {
    HostRecord(0x01, HelloBody(random)) + dev.hello[6..] + HostRecord(0x05, enc) + dev.certificate[6..]
  }

  function V1Messages(c: Crypto, random: Digest, dev: Device, enc: seq<byte>, env: Env): seq<Message>
    requires dev.Answers()
  {
    var master := MasterSecret(c, env.premaster, random, dev.hello[10..42]);
    var finish := Prf(c, master, Ascii("Host Finished"), c.sha256(V1Transcript(random, dev, enc)), 32);
    [Message(FullPacket(0x01, HelloBody(random)), true),
     Message(RequestPacket(0x02, 80), true),
     Message(RequestPacket(0x03, 1024), true),
     Message(FullPacket(0x05, enc), true),
     Message(FullPacket(0x07, finish), true),
     Message(RequestPacket(0x08, 64), true)]
  }

  /** One step of a session: from state `a` to state `b`, sending `m`. */
  ghost predicate Replies(c: Crypto, a: Auth, s: Step, b: Auth, m: Message) {
    && |a.transcriptBuf| <= TRANSCRIPT_SIZE && Fits(s)
    && Apply(c, a, s).a == b && Apply(c, a, s).sent == Some(m)
  }

  lemma V1Replies(c: Crypto, random: Digest, dev: Device, enc: seq<byte>, env: Env) returns (a: seq<Auth>)
    requires dev.Answers() && env.accepts && env.allocates
    requires c.rsaEncrypt(dev.Key(), env.premaster) == Some(enc) && |enc| == 256
    ensures |a| == 7 && a[0] == Initial(c, random) && a[6].lastCmd == 0x08 && !a[6].authenticated
    ensures var steps, messages := V1Steps(dev, env), V1Messages(c, random, dev, enc, env);
            forall i | 0 <= i < 6 :: Replies(c, a[i], steps[i], a[i + 1], messages[i])
  {
    hide Prf, FullPacket, RequestPacket, HostRecord, Process, Start, FindKey;
    var a0 := Initial(c, random);
    Started(c, a0, env);
    var a1 := Start(c, a0, env).a;
    AckAnsweredByRequest(c, a1, dev.ack, env);
    var a2 := Process(c, a1, dev.ack, env).a;
    HelloAnswered(c, a2, dev, env);
    var a3 := Process(c, a2, dev.hello, env).a;
    CertificateAnswered(c, a3, dev, enc, env);
    var a4 := Process(c, a3, dev.certificate, env).a;
    AckAnsweredByFinish(c, a4, dev.ack, env);
    var a5 := Process(c, a4, dev.ack, env).a;
    AckAnsweredByRequest(c, a5, dev.ack, env);
    var a6 := Process(c, a5, dev.ack, env).a;
    a := [a0, a1, a2, a3, a4, a5, a6];
    var steps, messages := V1Steps(dev, env), V1Messages(c, random, dev, enc, env);
    assert Replies(c, a0, steps[0], a1, messages[0]);
    assert Replies(c, a1, steps[1], a2, messages[1]);
    assert Replies(c, a2, steps[2], a3, messages[2]);
    assert Replies(c, a3, steps[3], a4, messages[3]);
    assert Replies(c, a4, steps[4], a5, messages[4]);
    assert Replies(c, a5, steps[5], a6, messages[5]);
  }

  lemma {:induction false} RunReplies(c: Crypto, random: Digest, steps: seq<Step>, messages: seq<Message>, a: seq<Auth>, k: nat)
    requires RecordsFit(steps) && |a| == |steps| + 1 && |messages| == |steps| && k <= |steps|
    requires a[0] == Initial(c, random)
    requires forall i | 0 <= i < |steps| :: Replies(c, a[i], steps[i], a[i + 1], messages[i])
    ensures SentSoFar(c, random, steps[..k], a[k], messages[..k])
  {
    if k > 0 {
      RunReplies(c, random, steps, messages, a, k - 1);
      hide *;
      ReplyExtends(c, random, steps, messages, a, k - 1);
    }
  }

  lemma ReplyExtends(c: Crypto, random: Digest, steps: seq<Step>, messages: seq<Message>, a: seq<Auth>, k: nat)
    requires |a| == |steps| + 1 && |messages| == |steps| && k < |steps|
    requires SentSoFar(c, random, steps[..k], a[k], messages[..k])
    requires Replies(c, a[k], steps[k], a[k + 1], messages[k])
    ensures SentSoFar(c, random, steps[..k + 1], a[k + 1], messages[..k + 1])
  {
    hide Apply, SentSoFar;
    SendMore(c, random, steps[..k], a[k], messages[..k], steps[k]);
    assert steps[..k + 1] == steps[..k] + [steps[k]];
    assert messages[..k + 1] == messages[..k] + [messages[k]];
  }

  /**
   A version 1 handshake with any device that answers as it should sends these
   messages and no others, and a bare acknowledgement then completes it.
   */
  lemma HandshakeV1(c: Crypto, random: Digest, dev: Device, enc: seq<byte>, env: Env)
    requires dev.Answers() && env.accepts && env.allocates
    requires c.rsaEncrypt(dev.Key(), env.premaster) == Some(enc) && |enc| == 256
    ensures RecordsFit(V1Steps(dev, env) + [Step(CompleteInput, env)])
    ensures var s := Run(c, random, V1Steps(dev, env) + [Step(CompleteInput, env)]);
            && s.a.authenticated
            && Messages(s.calls) == V1Messages(c, random, dev, enc, env) + [COMPLETE]
  {
    var steps, messages := V1Steps(dev, env), V1Messages(c, random, dev, enc, env);
    var a := V1Replies(c, random, dev, enc, env);
    RunReplies(c, random, steps, messages, a, 6);
    assert steps[..6] == steps && messages[..6] == messages;
    hide V1Steps, V1Messages;
    SendMore(c, random, steps, a[6], messages, Step(CompleteInput, env));
  }

  /** A client finish completes authentication, in either version and whatever came before. */
  lemma FinishAnswered(c: Crypto, a: Auth, d: seq<byte>, env: Env)
    requires IsDataRecord(d) && |d| <= MAX_RECORD && d[3] in {0x08, 0x27} && env.accepts && |a.transcriptBuf| <= TRANSCRIPT_SIZE
    ensures var r := Process(c, a, d, env); r.sent == Some(COMPLETE) && r.a.authenticated
  {
  }

  /**
   With a device that does send its finish, that record completes the version 1
   handshake, and the acknowledgement that follows sends nothing more.
   */
  lemma HandshakeV1WithFinish(c: Crypto, random: Digest, dev: Device, finish: seq<byte>, enc: seq<byte>, env: Env)
    requires dev.Answers() && env.accepts && env.allocates
    requires c.rsaEncrypt(dev.Key(), env.premaster) == Some(enc) && |enc| == 256
    requires IsDataRecord(finish) && |finish| <= MAX_RECORD && finish[3] == 0x08
    ensures RecordsFit(V1Steps(dev, env) + [Step(ProcessInput(finish), env)] + [Step(CompleteInput, env)])
    ensures var s := Run(c, random, V1Steps(dev, env) + [Step(ProcessInput(finish), env)] + [Step(CompleteInput, env)]);
            && s.a.authenticated
            && Messages(s.calls) == V1Messages(c, random, dev, enc, env) + [COMPLETE]
  {
    var steps, messages, last := V1Steps(dev, env), V1Messages(c, random, dev, enc, env), Step(ProcessInput(finish), env);
    var a := V1Replies(c, random, dev, enc, env);
    RunReplies(c, random, steps, messages, a, 6);
    assert steps[..6] == steps && messages[..6] == messages;
    FinishAnswered(c, a[6], finish, env);
    hide V1Steps, V1Messages, Process, IsDataRecord;
    SendMore(c, random, steps, a[6], messages, last);
    RunMore(c, random, steps + [last], Step(CompleteInput, env));
    assert messages + [COMPLETE] + [] == messages + [COMPLETE];
  }

  /** What a device answers with in a version 2 handshake, its upgrade record first. */
  datatype DeviceV2 = DeviceV2(
    upgrade: seq<byte>, hello: seq<byte>, certificate: seq<byte>, pubkey: seq<byte>, ack: seq<byte>, finish: seq<byte>)
  {
    predicate Answers() {
      && IsUpgrade(upgrade) && |upgrade| <= MAX_RECORD
      && IsAck(ack) && |ack| <= MAX_RECORD
      && IsDataRecord(hello) && hello[3] == 0x22 && |Body(hello)| >= 32
      && IsDataRecord(certificate) && certificate[3] == 0x23
      && IsDataRecord(pubkey) && pubkey[3] == 0x24 && |Body(pubkey)| >= 64
      && IsDataRecord(finish) && finish[3] == 0x27 && |finish| <= MAX_RECORD
      && |hello| + |certificate| + |pubkey| <= 4096
    }
  }

  lemma UpgradeAnswered(c: Crypto, a: Auth, d: seq<byte>, env: Env)
    requires IsUpgrade(d) && |d| <= MAX_RECORD
    requires At(c, a, a.lastCmd, a.randomHost, a.randomClient, a.masterSecret, a.transcriptBuf)
    requires |a.transcriptBuf| + 40 <= TRANSCRIPT_SIZE
    ensures var r, body := Process(c, a, d, env), env.random + Zeros(4);
            && r.sent == Some(Message(FullPacket(0x21, body), true))
            && At(c, r.a, 0x21, env.random, a.randomClient, a.masterSecret, a.transcriptBuf + HostRecord(0x21, body))
  {
    hide FullPacket, HostRecord;
  }

  lemma RecordAnsweredV2(c: Crypto, a: Auth, d: seq<byte>, env: Env)
    requires IsDataRecord(d) && |d| <= MAX_RECORD && (d[3] == 0x23 || (d[3] == 0x22 && |Body(d)| >= 32))
    requires At(c, a, a.lastCmd, a.randomHost, a.randomClient, a.masterSecret, a.transcriptBuf)
    requires |a.transcriptBuf| + |d| <= TRANSCRIPT_SIZE
    ensures var r, cmd := Process(c, a, d, env), if d[3] == 0x22 then 0x23 else 0x24;
            && r.sent == Some(Message(RequestPacket(cmd, if d[3] == 0x22 then 768 else 128), true))
            && At(c, r.a, cmd, a.randomHost, if d[3] == 0x22 then d[10..42] else a.randomClient, a.masterSecret,
                  a.transcriptBuf + d[6..])
  {
    hide RequestPacket;
  }

  lemma PubkeyAnswered(c: Crypto, a: Auth, d: seq<byte>, pub: Point, shared: seq<byte>, env: Env)
    requires IsDataRecord(d) && |d| <= MAX_RECORD && d[3] == 0x24 && |Body(d)| >= 64 && env.allocates
    requires c.ecdhPublic(env.ephemeral) == Some(pub) && c.ecdhShared(env.ephemeral, d[10..74]) == Some(shared)
    requires At(c, a, a.lastCmd, a.randomHost, a.randomClient, a.masterSecret, a.transcriptBuf)
    requires |a.transcriptBuf| + |d| + 68 <= TRANSCRIPT_SIZE
    ensures var r := Process(c, a, d, env);
            && r.sent == Some(Message(FullPacket(0x25, pub), true))
            && At(c, r.a, 0x25, a.randomHost, a.randomClient, MasterSecret(c, c.sha256(shared), a.randomHost, a.randomClient),
                  a.transcriptBuf + d[6..] + HostRecord(0x25, pub))
  {
    hide FullPacket, HostRecord, MasterSecret;
  }

  function V2Steps(dev: DeviceV2, env: Env): seq<Step> {
    [Step(StartInput, env), Step(ProcessInput(dev.upgrade), env), Step(ProcessInput(dev.hello), env),
     Step(ProcessInput(dev.certificate), env), Step(ProcessInput(dev.pubkey), env),
     Step(ProcessInput(dev.ack), env), Step(ProcessInput(dev.ack), env), Step(ProcessInput(dev.finish), env)]
  }

  /** In version 2 every record goes in where it came: the certificate is not moved. */
  function V2Transcript(random: Digest, dev: DeviceV2, pub: Point, env: Env): seq<byte>
    requires dev.Answers()
  {
    HostRecord(0x01, HelloBody(random)) + HostRecord(0x21, env.random + Zeros(4))
    + dev.hello[6..] + dev.certificate[6..] + dev.pubkey[6..] + HostRecord(0x25, pub)
  }

  function V2Messages(c: Crypto, random: Digest, dev: DeviceV2, pub: Point, shared: seq<byte>, env: Env): seq<Message>
    requires dev.Answers()
  {
    var master := MasterSecret(c, c.sha256(shared), env.random, dev.hello[10..42]);
    var finish := Prf(c, master, Ascii("Host Finished"), c.sha256(V2Transcript(random, dev, pub, env)), 32);
    [Message(FullPacket(0x01, HelloBody(random)), true),
     Message(FullPacket(0x21, env.random + Zeros(4)), true),
     Message(RequestPacket(0x23, 768), true),
     Message(RequestPacket(0x24, 128), true),
     Message(FullPacket(0x25, pub), true),
     Message(FullPacket(0x26, finish), true),
     Message(RequestPacket(0x27, 64), true),
     COMPLETE]
  }

  /** Up to the public key: hello, upgrade, hello, certificate, key. */
  lemma V2Exchange(c: Crypto, random: Digest, dev: DeviceV2, pub: Point, shared: seq<byte>, env: Env) returns (a: seq<Auth>)
    requires dev.Answers() && env.accepts && env.allocates
    requires c.ecdhPublic(env.ephemeral) == Some(pub) && c.ecdhShared(env.ephemeral, dev.pubkey[10..74]) == Some(shared)
    ensures |a| == 6 && a[0] == Initial(c, random)
    ensures At(c, a[5], 0x25, env.random, dev.hello[10..42], MasterSecret(c, c.sha256(shared), env.random, dev.hello[10..42]),
               V2Transcript(random, dev, pub, env))
    ensures var steps, messages := V2Steps(dev, env), V2Messages(c, random, dev, pub, shared, env);
            forall i | 0 <= i < 5 :: Replies(c, a[i], steps[i], a[i + 1], messages[i])
  {
    hide Prf, FullPacket, RequestPacket, HostRecord, Process, Start, IsUpgrade, IsAck, MasterSecret;
    var a0 := Initial(c, random);
    Started(c, a0, env);
    var a1 := Start(c, a0, env).a;
    UpgradeAnswered(c, a1, dev.upgrade, env);
    var a2 := Process(c, a1, dev.upgrade, env).a;
    RecordAnsweredV2(c, a2, dev.hello, env);
    var a3 := Process(c, a2, dev.hello, env).a;
    RecordAnsweredV2(c, a3, dev.certificate, env);
    var a4 := Process(c, a3, dev.certificate, env).a;
    PubkeyAnswered(c, a4, dev.pubkey, pub, shared, env);
    var a5 := Process(c, a4, dev.pubkey, env).a;
    a := [a0, a1, a2, a3, a4, a5];
    var steps, messages := V2Steps(dev, env), V2Messages(c, random, dev, pub, shared, env);
    assert Replies(c, a0, steps[0], a1, messages[0]);
    assert Replies(c, a1, steps[1], a2, messages[1]);
    assert Replies(c, a2, steps[2], a3, messages[2]);
    assert Replies(c, a3, steps[3], a4, messages[3]);
    assert Replies(c, a4, steps[4], a5, messages[4]);
  }

  lemma V2Replies(c: Crypto, random: Digest, dev: DeviceV2, pub: Point, shared: seq<byte>, env: Env) returns (a: seq<Auth>)
    requires dev.Answers() && env.accepts && env.allocates
    requires c.ecdhPublic(env.ephemeral) == Some(pub) && c.ecdhShared(env.ephemeral, dev.pubkey[10..74]) == Some(shared)
    ensures |a| == 9 && a[0] == Initial(c, random) && a[8].authenticated
    ensures var steps, messages := V2Steps(dev, env), V2Messages(c, random, dev, pub, shared, env);
            forall i | 0 <= i < 8 :: Replies(c, a[i], steps[i], a[i + 1], messages[i])
  {
    hide Prf, FullPacket, RequestPacket, HostRecord, Process, IsUpgrade, IsAck, MasterSecret;
    var first := V2Exchange(c, random, dev, pub, shared, env);
    var a5 := first[5];
    assert |V2Transcript(random, dev, pub, env)| <= 4400;
    hide V2Transcript;
    AckAnsweredByFinish(c, a5, dev.ack, env);
    var a6 := Process(c, a5, dev.ack, env).a;
    AckAnsweredByRequest(c, a6, dev.ack, env);
    var a7 := Process(c, a6, dev.ack, env).a;
    FinishAnswered(c, a7, dev.finish, env);
    var a8 := Process(c, a7, dev.finish, env).a;
    a := first + [a6, a7, a8];
    var steps, messages := V2Steps(dev, env), V2Messages(c, random, dev, pub, shared, env);
    assert Replies(c, a5, steps[5], a6, messages[5]);
    assert Replies(c, a6, steps[6], a7, messages[6]);
    assert Replies(c, a7, steps[7], a8, messages[7]);
  }

  /** A version 2 handshake with any device that answers as it should sends these messages and completes. */
  lemma HandshakeV2(c: Crypto, random: Digest, dev: DeviceV2, pub: Point, shared: seq<byte>, env: Env)
    requires dev.Answers() && env.accepts && env.allocates
    requires c.ecdhPublic(env.ephemeral) == Some(pub) && c.ecdhShared(env.ephemeral, dev.pubkey[10..74]) == Some(shared)
    ensures RecordsFit(V2Steps(dev, env))
    ensures var s := Run(c, random, V2Steps(dev, env));
            s.a.authenticated && Messages(s.calls) == V2Messages(c, random, dev, pub, shared, env)
  {
    var steps, messages := V2Steps(dev, env), V2Messages(c, random, dev, pub, shared, env);
    var a := V2Replies(c, random, dev, pub, shared, env);
    RunReplies(c, random, steps, messages, a, 8);
    assert steps[..8] == steps && messages[..8] == messages;
  }

  // ----- sizes --------------------------------------------------------------------------

  /** Every message has between 2 and 274 bytes, only the first hello has exactly 58, and only a secret or a public key has more. */
  lemma MessageSizes(c: Crypto, a: Auth, s: Step)
    requires Consistent(c, a) && Fits(s)
    ensures var sent := Apply(c, a, s).sent;
            sent.Some? ==> && 2 <= |sent.value.data| <= 274
                           && (|sent.value.data| == 58 ==> s.input.StartInput?)
                           && (|sent.value.data| > 58 ==> sent.value.data[3] in {0x05, 0x25})
  {
    hide TranscriptUpdate, Prf, FindKey, MasterSecret;
  }
}
