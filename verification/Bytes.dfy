/** Bytes and the little-endian integers of the ZIP format. */
module Bytes {

  type byte = b: int | 0 <= b < 0x100

  type bytes = seq<byte>

  const LIMIT16 := 0x1_0000

  const LIMIT32 := 0x1_0000_0000

  function U16(s: bytes, i: nat): (n: nat)
    requires i + 2 <= |s|
    ensures n < LIMIT16
  {
    var low: int, high: int := s[i], s[i + 1];
    low + 0x100 * high
  }

  function U32(s: bytes, i: nat): (n: nat)
    requires i + 4 <= |s|
    ensures n < LIMIT32
  {
    U16(s, i) + 0x1_0000 * U16(s, i + 2)
  }

  function Low(n: nat): (w: nat)
    ensures w < LIMIT16
  {
    n % LIMIT16
  }

  function High(n: nat): (w: nat)
    requires n < LIMIT32
    ensures w < LIMIT16
    ensures Low(n) + LIMIT16 * w == n
  {
    n / LIMIT16
  }

  ghost predicate AllWords(ws: seq<nat>) {
    forall k :: 0 <= k < |ws| ==> ws[k] < LIMIT16
  }

  /** A run of 16-bit fields; a 32-bit field is its low and its high word. */
  ghost function Words(ws: seq<nat>): (s: bytes)
    requires AllWords(ws)
    ensures |s| == 2 * |ws|
  {
    if ws == [] then [] else [ws[0] % 0x100, ws[0] / 0x100] + Words(ws[1..])
  }

  lemma {:induction false} ReadsWord(data: bytes, at: nat, ws: seq<nat>, k: nat)
    requires AllWords(ws) && k < |ws|
    requires at + 2 * |ws| <= |data| && data[at..at + 2 * |ws|] == Words(ws)
    ensures U16(data, at + 2 * k) == ws[k]
    decreases k
  {
    ghost var slice := data[at..at + 2 * |ws|];
    if k == 0 {
      assert slice[0] == data[at] && slice[1] == data[at + 1];
    } else {
      assert data[at + 2..at + 2 * |ws|] == slice[2..] == Words(ws[1..]);
      ReadsWord(data, at + 2, ws[1..], k - 1);
    }
  }

  /** Reading a run of written fields gives each of them back. */
  lemma ReadsWords(data: bytes, at: nat, ws: seq<nat>)
    requires AllWords(ws)
    requires at + 2 * |ws| <= |data| && data[at..at + 2 * |ws|] == Words(ws)
    ensures forall k :: 0 <= k < |ws| ==> U16(data, at + 2 * k) == ws[k]
  {
    forall k | 0 <= k < |ws|
      ensures U16(data, at + 2 * k) == ws[k]
    {
      ReadsWord(data, at, ws, k);
    }
  }

  /** Writing the fields that were read gives the bytes back. */
  lemma {:induction false} WritesWords(data: bytes, at: nat, ws: seq<nat>)
    requires AllWords(ws) && at + 2 * |ws| <= |data|
    requires forall k :: 0 <= k < |ws| ==> U16(data, at + 2 * k) == ws[k]
    ensures data[at..at + 2 * |ws|] == Words(ws)
    decreases |ws|
  {
    if ws != [] {
      TwoBytes(data, at, ws);
      hide U16;
      forall k | 0 <= k < |ws| - 1
        ensures U16(data, at + 2 + 2 * k) == ws[1..][k]
      {
        assert U16(data, at + 2 * (k + 1)) == ws[k + 1];
      }
      WritesWords(data, at + 2, ws[1..]);
      assert data[at..at + 2 * |ws|] == data[at..at + 2] + data[at + 2..at + 2 * |ws|];
    }
  }

  lemma TwoBytes(data: bytes, at: nat, ws: seq<nat>)
    requires ws != [] && at + 2 * |ws| <= |data|
    requires forall k :: 0 <= k < |ws| ==> U16(data, at + 2 * k) == ws[k]
    ensures data[at..at + 2] == [ws[0] % 0x100, ws[0] / 0x100]
  {
    assert U16(data, at + 2 * 0) == ws[0];
  }

  /** Whether a one-bit mask is set in a flag word. */
  predicate Bit(flags: nat, mask: nat)
    requires mask > 0
  {
    flags / mask % 2 == 1
  }
}
