/** `struct gip_auth` and the functions that update it. */
module AuthState {
  import opened Basics
  import opened GipAuth

  /** The stream of blocks, written into `out` 32 bytes at a time. */
  method FillPrf(c: Crypto, key: seq<byte>, text: seq<byte>, seed: seq<byte>, out: array<byte>)
    modifies out
    ensures out[..] == Prf(c, key, text, seed, out.Length)
  {
    var h := c.hmac(key, text + seed);
    var done := 0;
    ghost var i := 0;
    while done < out.Length
      invariant done == Min(32 * i, out.Length) && h == Chain(c, key, text, seed, i)
      invariant forall j | 0 <= j < done :: out[j] == PrfBlock(c, key, text, seed, j / 32)[j % 32]
    {
      var block := c.hmac(key, h + text + seed);
      var take := Min(out.Length - done, 32);
      forall k | 0 <= k < take {
        out[done + k] := block[k];
      }
      forall j | done <= j < done + take ensures j / 32 == i && j % 32 == j - done {
      }
      done := done + take;
      h := c.sha256(h);
      i := i + 1;
    }
  }

  /** The search for the embedded key; the first match decides. */
  method LocateKey(body: seq<byte>) returns (k: Option<nat>)
    ensures k == FindKey(body, 0)
  {
    var i := 0;
    while i + 4 <= |body|
      invariant i <= |body| && FindKey(body, 0) == FindKey(body, i)
    {
      if body[i..i + 4] == RSA_KEY_PREFIX {
        return Some(i);
      }
      i := i + 1;
    }
    return None;
  }

  class GipAuthState {
    const crypto: Crypto
    var lastCmd: byte
    var randomHost: Digest
    var randomClient: Digest
    var clientCertificate: seq<byte>
    var clientPubkey: seq<byte>
    var clientPubkey2: seq<byte>
    var masterSecret: seq<byte>
    var transcript: Digest
    const transcriptBuf: array<byte>
    var transcriptLen: nat
    var started: bool
    var authenticated: bool

    ghost predicate Valid()
      reads this, transcriptBuf
    {
      && transcriptBuf.Length == TRANSCRIPT_SIZE
      && transcriptLen <= TRANSCRIPT_SIZE
      && Consistent(crypto, View())
    }

    ghost function View(): Auth
      requires transcriptLen <= transcriptBuf.Length
      reads this, transcriptBuf
    {
      Auth(lastCmd, randomHost, randomClient, clientCertificate, clientPubkey, clientPubkey2, masterSecret,
           transcript, transcriptBuf[..transcriptLen], started, authenticated)
    }

    constructor (crypto: Crypto, random: Digest)
      ensures Valid() && fresh(transcriptBuf)
      ensures this.crypto == crypto && View() == Initial(crypto, random)
    {
      this.crypto := crypto;
      lastCmd := 0;
      randomHost, randomClient := random, Zeros(32);
      clientCertificate, clientPubkey, clientPubkey2, masterSecret := [], Zeros(PUBKEY_SIZE), Zeros(64), Zeros(48);
      transcriptBuf := new byte[TRANSCRIPT_SIZE](_ => 0);
      transcriptLen, transcript := 0, crypto.sha256([]);
      started, authenticated := false, false;
    }

    method UpdateTranscript(p: seq<byte>)
      requires Valid()
      modifies `transcript, `transcriptLen, transcriptBuf
      ensures Valid() && View() == TranscriptUpdate(crypto, old(View()), p)
    {
      if transcriptLen + |p| > TRANSCRIPT_SIZE {
        return;
      }
      forall k | 0 <= k < |p| {
        transcriptBuf[transcriptLen + k] := p[k];
      }
      transcriptLen := transcriptLen + |p|;
      assert transcriptBuf[..transcriptLen] == old(transcriptBuf[..transcriptLen]) + p;
      transcript := crypto.sha256(transcriptBuf[..transcriptLen]);
    }

    method SendFullRecord(cmd: byte, body: seq<byte>, env: Env) returns (sent: Option<Message>, ok: bool)
      requires Valid()
      modifies `lastCmd, `transcript, `transcriptLen, transcriptBuf
      ensures Valid() && Outcome(View(), sent, ok) == SendFull(crypto, old(View()), cmd, body, env)
    {
      var n := 10 + |body| + TRAILER;
      if n > PACKET_SIZE {
        return None, false;
      }
      var pkt := [0, 0x41, 0, cmd] + Be16(|body| + 4) + [cmd, 1] + Be16(|body|) + body + Zeros(TRAILER);
      assert pkt[6..10 + |body|] == HostRecord(cmd, body);
      assert pkt == FullPacket(cmd, body);
      lastCmd := cmd;
      UpdateTranscript(pkt[6..10 + |body|]);
      return Some(Message(pkt, true)), env.accepts;
    }

    method RequestRecord(cmd: byte, len: nat, env: Env) returns (sent: Option<Message>, ok: bool)
      requires Valid()
      modifies `lastCmd
      ensures Valid() && Outcome(View(), sent, ok) == Request(old(View()), cmd, len, env)
    {
      var p := [0, 0x42, 0, cmd] + Be16(len + 4) + Zeros(8);
      lastCmd := cmd;
      return Some(Message(p, true)), env.accepts;
    }

    method SendComplete(env: Env) returns (sent: Option<Message>, ok: bool)
      requires Valid()
      modifies `authenticated
      ensures Valid() && Outcome(View(), sent, ok) == Finish(old(View()), env)
    {
      if env.accepts {
        authenticated := true;
      }
      return Some(Message([1, 0], false)), env.accepts;
    }

    method CompleteOnAck(env: Env) returns (sent: Option<Message>, ok: bool)
      requires Valid()
      modifies this
      ensures Valid() && Outcome(View(), sent, ok) == CompleteWithoutClientFinish(old(View()), env)
    {
      if authenticated || lastCmd != 0x08 {
        return None, true;
      }
      sent, ok := SendComplete(env);
    }

    method StartHandshake(env: Env) returns (sent: Option<Message>, ok: bool)
      requires Valid()
      modifies this, transcriptBuf
      ensures Valid() && Outcome(View(), sent, ok) == Start(crypto, old(View()), env)
    {
      var body := randomHost + Zeros(8);
      started := true;
      sent, ok := SendFullRecord(0x01, body, env);
    }

    method SendRsaSecret(env: Env) returns (sent: Option<Message>, ok: bool)
      requires Valid()
      modifies this, transcriptBuf
      ensures Valid() && Outcome(View(), sent, ok) == RsaSecret(crypto, old(View()), env)
    {
      var enc := crypto.rsaEncrypt(clientPubkey, env.premaster);
      if enc.None? || !env.allocates {
        return None, false;
      }
      var master := new byte[48];
      FillPrf(crypto, env.premaster, Ascii("Master Secret"), randomHost + randomClient, master);
      masterSecret := master[..];
      if |enc.value| != 256 {
        return None, false;
      }
      sent, ok := SendFullRecord(0x05, enc.value, env);
    }

    method ExchangeEcdh(env: Env) returns (sent: Option<Message>, ok: bool)
      requires Valid()
      modifies this, transcriptBuf
      ensures Valid() && Outcome(View(), sent, ok) == EcdhExchange(crypto, old(View()), env)
    {
      var pub := crypto.ecdhPublic(env.ephemeral);
      var shared := crypto.ecdhShared(env.ephemeral, clientPubkey2);
      if pub.None? || shared.None? || !env.allocates {
        return None, false;
      }
      var master := new byte[48];
      FillPrf(crypto, crypto.sha256(shared.value), Ascii("Master Secret"), randomHost + randomClient, master);
      masterSecret := master[..];
      sent, ok := SendFullRecord(0x25, pub.value, env);
    }

    method SendHostFinish(cmd: byte, env: Env) returns (sent: Option<Message>, ok: bool)
      requires Valid()
      modifies this, transcriptBuf
      ensures Valid() && Outcome(View(), sent, ok) == SendFinish(crypto, old(View()), cmd, env)
    {
      if !env.allocates {
        return None, false;
      }
      var body := new byte[32];
      FillPrf(crypto, masterSecret, Ascii("Host Finished"), transcript, body);
      sent, ok := SendFullRecord(cmd, body[..], env);
    }

    method HandleAck(env: Env) returns (sent: Option<Message>, ok: bool)
      requires Valid()
      modifies this, transcriptBuf
      ensures Valid() && Outcome(View(), sent, ok) == AckReply(crypto, old(View()), env)
    {
      match lastCmd
      case 0x01 => sent, ok := RequestRecord(0x02, 80, env);
      case 0x05 => sent, ok := SendHostFinish(0x07, env);
      case 0x07 => sent, ok := RequestRecord(0x08, 64, env);
      case 0x25 => sent, ok := SendHostFinish(0x26, env);
      case 0x26 => sent, ok := RequestRecord(0x27, 64, env);
      case _ => sent, ok := None, true;
    }

    method HandleData(d: seq<byte>, env: Env) returns (sent: Option<Message>, ok: bool)
      requires Valid() && IsDataRecord(d) && !IsCertificate(d)
      modifies this, transcriptBuf
      ensures Valid() && Outcome(View(), sent, ok) == DataReply(crypto, old(View()), d, env)
    {
      var cmd, bodyLen := d[3], FromBe16(d[8], d[9]);
      if 10 + bodyLen > |d| {
        bodyLen := |d| - 10;
      }
      sent, ok := None, true;
      if cmd == 0x02 || cmd == 0x22 {
        if bodyLen < 32 {
          return None, false;
        }
        randomClient := d[10..42];
        if cmd == 0x02 {
          sent, ok := RequestRecord(0x03, 1024, env);
        } else {
          sent, ok := RequestRecord(0x23, 768, env);
        }
      } else if cmd == 0x23 {
        sent, ok := RequestRecord(0x24, 128, env);
      } else if cmd == 0x24 {
        if bodyLen < 64 {
          return None, false;
        }
        clientPubkey2 := d[10..74];
        sent, ok := ExchangeEcdh(env);
      } else if cmd == 0x27 || cmd == 0x08 {
        sent, ok := SendComplete(env);
      }
    }

    method HandleCertificate(d: seq<byte>, env: Env) returns (sent: Option<Message>, ok: bool)
      requires Valid() && IsCertificate(d)
      modifies this, transcriptBuf
      ensures Valid() && Outcome(View(), sent, ok) == CertificateReply(crypto, old(View()), d, env)
    {
      hide FindKey, RsaSecret, TranscriptUpdate, IsAck, IsUpgrade;
      var bodyLen := FromBe16(d[8], d[9]);
      if 10 + bodyLen > |d| {
        bodyLen := |d| - 10;
      }
      if bodyLen > CERTIFICATE_SIZE {
        return None, false;
      }
      var body := d[10..10 + bodyLen];
      clientCertificate := body;
      var key := LocateKey(body);
      if key.None? || key.value + PUBKEY_SIZE > bodyLen {
        return None, false;
      }
      clientPubkey := body[key.value..key.value + PUBKEY_SIZE];
      sent, ok := SendRsaSecret(env);
      if ok {
        UpdateTranscript(d[6..]);
      }
    }

    method ProcessRecord(d: seq<byte>, env: Env) returns (sent: Option<Message>, ok: bool)
      requires Valid() && |d| <= MAX_RECORD
      modifies this, transcriptBuf
      ensures Valid() && Outcome(View(), sent, ok) == Process(crypto, old(View()), d, env)
    {
      hide SendFull, AckReply, DataReply, CertificateReply;
      if |d| < 6 {
        return None, false;
      }
      if |d| >= 10 && d[0] == 0 && d[3] != d[6] {
        randomHost := env.random;
        sent, ok := SendFullRecord(0x21, env.random + Zeros(4), env);
        return;
      }
      if d[1] % 2 == 1 {
        sent, ok := HandleAck(env);
        return;
      }
      if d[0] != 0 || |d| < 10 {
        return None, true;
      }
      UpdateTranscript(d[6..]);
      if d[3] == 0x03 {
        ghost var appended := transcriptBuf[..transcriptLen];
        transcriptLen := transcriptLen - (|d| - 6);
        assert transcriptBuf[..transcriptLen] == appended[..transcriptLen];
        transcript := crypto.sha256(transcriptBuf[..transcriptLen]);
        assert View() == RollBack(crypto, TranscriptUpdate(crypto, old(View()), d[6..]), |d| - 6);
        sent, ok := HandleCertificate(d, env);
      } else {
        sent, ok := HandleData(d, env);
      }
    }
  }
}
