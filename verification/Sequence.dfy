/**
 The 8-bit sequence counters. Packets never carry sequence 0; the three
 counters of the bridge skip it in two different ways and still number their
 packets alike.
 */
module Sequence {
  import opened Basics

  /** A sequence number taken for a packet, and the counter afterwards. */
  datatype Draw = Draw(used: byte, counter: byte)

  function Bump(counter: byte): byte {
    (counter + 1) % 0x100
  }

  /** Authentication and audio packets: take the counter, and take it again if it was 0. */
  function DrawNonzero(counter: byte): (d: Draw)
    ensures d.used != 0
  {
    if counter != 0 then Draw(counter, Bump(counter))
    else Draw(Bump(counter), Bump(Bump(counter)))
  }

  /** Control packets: take the counter, then move it off 0. */
  function DrawAndReset(counter: byte): Draw {
    Draw(counter, if Bump(counter) == 0 then 1 else Bump(counter))
  }

  /** The number on packet `k` of a session, counting from 0. */
  function Numbering(k: nat): byte {
    1 + k % 255
  }

  function AfterNonzero(k: nat): byte {
    if k == 0 then 1 else DrawNonzero(AfterNonzero(k - 1)).counter
  }

  function AfterReset(k: nat): byte {
    if k == 0 then 1 else DrawAndReset(AfterReset(k - 1)).counter
  }

  lemma NextRemainder(k: nat)
    ensures (k + 1) % 255 == if k % 255 == 254 then 0 else k % 255 + 1
  {
  }

  /** The counter from which packet `k` takes its number: 0 instead of 1 after a whole round. */
  function Closed(k: nat): byte {
    if k > 0 && k % 255 == 0 then 0 else Numbering(k)
  }

  lemma DrawClosed(k: nat)
    ensures DrawNonzero(Closed(k)) == Draw(Numbering(k), Closed(k + 1))
  {
    var r := k % 255;
    NextRemainder(k);
    hide Numbering, Closed;
    assert Numbering(k) == 1 + r;
    assert Closed(k) == if k > 0 && r == 0 then 0 else 1 + r;
    assert Closed(k + 1) == if r == 254 then 0 else 2 + r;
    assert Bump(0) == 1 && Bump(1) == 2 && Bump(255) == 0 && (0 < r < 255 ==> Bump(r) == r + 1);
  }

  lemma {:induction false} NonzeroNumbering(k: nat)
    ensures DrawNonzero(AfterNonzero(k)).used == Numbering(k) == 1 + k % 255
    ensures AfterNonzero(k) == if k > 0 && k % 255 == 0 then 0 else Numbering(k)
  {
    DrawClosed(k);
    if k > 0 {
      hide DrawNonzero, Numbering;
      NonzeroNumbering(k - 1);
      DrawClosed(k - 1);
    }
  }

  lemma {:induction false} ResetNumbering(k: nat)
    ensures AfterReset(k) == DrawAndReset(AfterReset(k)).used == Numbering(k) == 1 + k % 255
  {
    if k > 0 {
      ResetNumbering(k - 1);
      ResetStep(k - 1);
      hide DrawAndReset, Numbering;
    }
  }

  lemma ResetStep(k: nat)
    ensures DrawAndReset(Numbering(k)).counter == Numbering(k + 1)
  {
    var r := k % 255;
    NextRemainder(k);
    hide Numbering;
    assert Numbering(k) == 1 + r;
    assert Numbering(k + 1) == if r == 254 then 1 else 2 + r;
    assert Bump(255) == 0 && (0 <= r < 254 ==> Bump(1 + r) == r + 2);
  }
}
