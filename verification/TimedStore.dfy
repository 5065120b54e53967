/** A plain map whose entries expire: what both cache backends stand for. */
module TimedStore {
  import opened Wrappers

  datatype Entry<V> = Entry(exp: real, value: V)

  type Store<K, V> = map<K, Entry<V>>

  datatype Write<K, V> = Write(key: K, ttl: int, value: V)

  predicate Live<K, V>(s: Store<K, V>, k: K, now: real) {
    k in s && s[k].exp > now
  }

  function Lookup<K, V>(s: Store<K, V>, k: K, now: real): Option<V> {
    if Live(s, k, now) then Some(s[k].value) else None
  }

  /** How a remaining lifetime becomes whole seconds: the in-memory path rounds down,
      Redis rounds to the nearest second and a half up. */
  datatype Rounding = Down | Nearest

  function Slack(rounding: Rounding): real {
    if rounding.Nearest? then 0.5 else 0.0
  }

  function Whole(seconds: real, rounding: Rounding): (n: int)
    ensures seconds + Slack(rounding) - 1.0 < n as real <= seconds + Slack(rounding)
  {
    (seconds + Slack(rounding)).Floor
  }

  predicate RoundsUp(seconds: real, rounding: Rounding) {
    rounding.Nearest? && seconds - seconds.Floor as real >= 0.5
  }

  lemma FloorIs(x: real, n: int)
    requires n as real <= x < n as real + 1.0
    ensures x.Floor == n
  {
  }

  /** The whole seconds exceed what is left exactly when they were rounded up. */
  lemma WholeExceeds(seconds: real, rounding: Rounding)
    ensures Whole(seconds, rounding) as real > seconds <==> RoundsUp(seconds, rounding)
  {
    var n := seconds.Floor;
    FloorIs(seconds + Slack(rounding), if RoundsUp(seconds, rounding) then n + 1 else n);
  }

  lemma WholeIsMonotone(a: real, b: real, rounding: Rounding)
    requires a <= b
    ensures Whole(a, rounding) <= Whole(b, rounding)
  {
  }

  /** Remaining whole seconds; none when the key is gone or none are left. */
  function Ttl<K, V>(s: Store<K, V>, k: K, now: real, rounding: Rounding): (ttl: Option<int>)
    ensures ttl.Some? ==> Live(s, k, now) && ttl.value > 0 && now + ttl.value as real <= s[k].exp + Slack(rounding)
  {
    if !Live(s, k, now) then None
    else
      var seconds := Whole(s[k].exp - now, rounding);
      if seconds > 0 then Some(seconds) else None
  }

  /** The sooner of two expiries. */
  function Sooner(a: real, b: real): real {
    if b < a then b else a
  }

  /** The lifetime shared by a marker and the entry it is bound to, when both hold the expected values. */
  function TtlIfValues<K, V(==)>(s: Store<K, V>, marker: K, expected: V, bound: K, expectedBound: V, now: real, rounding: Rounding)
      : (ttl: Option<int>)
    ensures ttl.Some? ==>
      && Lookup(s, marker, now) == Some(expected) && Lookup(s, bound, now) == Some(expectedBound)
      && ttl.value > 0 && now + ttl.value as real <= Sooner(s[marker].exp, s[bound].exp) + Slack(rounding)
  {
    if Lookup(s, marker, now) != Some(expected) || Lookup(s, bound, now) != Some(expectedBound) then None
    else
      var seconds := Whole(Sooner(s[marker].exp, s[bound].exp) - now, rounding);
      if seconds > 0 then Some(seconds) else None
  }

  /** `n` is what whole seconds are made of this remaining time: at least one, and within
      a second of the time, which Redis shifts by half a second. */
  predicate Rounds(remaining: real, rounding: Rounding, n: int) {
    var shifted := if rounding.Nearest? then remaining + 0.5 else remaining;
    shifted >= 1.0 && shifted - 1.0 < n as real <= shifted
  }

  lemma RoundsExactly(remaining: real, rounding: Rounding, n: int)
    ensures Rounds(remaining, rounding, n) <==> Whole(remaining, rounding) == n > 0
  {
  }

  /** A lifetime is given exactly when the key is live and a second of it is left. */
  lemma TtlExact<K, V>(s: Store<K, V>, k: K, now: real, rounding: Rounding, n: int)
    ensures Ttl(s, k, now, rounding) == Some(n) <==> k in s && s[k].exp > now && Rounds(s[k].exp - now, rounding, n)
  {
    if k in s {
      RoundsExactly(s[k].exp - now, rounding, n);
    }
    hide Whole;
    hide Rounds;
  }

  /** A shared lifetime is given exactly when both keys are live with the expected values
      and a second is left to the one that expires sooner. */
  lemma TtlIfValuesExact<K, V>(s: Store<K, V>, marker: K, expected: V, bound: K, expectedBound: V, now: real, rounding: Rounding, n: int)
    ensures TtlIfValues(s, marker, expected, bound, expectedBound, now, rounding) == Some(n) <==>
      && marker in s && s[marker].exp > now && s[marker].value == expected
      && bound in s && s[bound].exp > now && s[bound].value == expectedBound
      && Rounds((if s[marker].exp <= s[bound].exp then s[marker].exp else s[bound].exp) - now, rounding, n)
  {
    if marker in s && bound in s {
      RoundsExactly(Sooner(s[marker].exp, s[bound].exp) - now, rounding, n);
    }
    hide Whole;
    hide Rounds;
  }

  function Put<K, V>(s: Store<K, V>, now: real, w: Write<K, V>): Store<K, V> {
    s[w.key := Entry(now + w.ttl as real, w.value)]
  }

  /** What is written is there for its lifetime and not longer; nothing else changes. */
  lemma PutIsSeen<K, V>(s: Store<K, V>, now: real, w: Write<K, V>, k: K, later: real)
    ensures Lookup(Put(s, now, w), k, later) ==
      if k != w.key then Lookup(s, k, later) else if later < now + w.ttl as real then Some(w.value) else None
  {
  }

  /** The writes done one after the other at one instant. */
  function PutAll<K, V>(s: Store<K, V>, now: real, writes: seq<Write<K, V>>): Store<K, V>
    decreases |writes|
  {
    if writes == [] then s else PutAll(Put(s, now, writes[0]), now, writes[1..])
  }

  /** Every listed key has, at this instant, the value listed with it. */
  predicate Unchanged<K, V(==)>(s: Store<K, V>, now: real, expected: seq<(K, Option<V>)>) {
    forall i :: 0 <= i < |expected| ==> Lookup(s, expected[i].0, now) == expected[i].1
  }

  /** Compare and set: the store after it, where the verdict is `Unchanged`. */
  function Cas<K, V(==)>(s: Store<K, V>, now: real, expected: seq<(K, Option<V>)>, writes: seq<Write<K, V>>): Store<K, V> {
    if Unchanged(s, now, expected) then PutAll(s, now, writes) else s
  }

  /** Index of the last write to a key, or -1. */
  function LastWrite<K(==), V>(writes: seq<Write<K, V>>, k: K): (i: int)
    ensures -1 <= i < |writes|
    ensures i >= 0 ==> writes[i].key == k
    ensures forall j :: i < j < |writes| ==> writes[j].key != k
  {
    if writes == [] then -1
    else if writes[|writes| - 1].key == k then |writes| - 1
    else LastWrite(writes[..|writes| - 1], k)
  }

  lemma LastWriteIs<K, V>(writes: seq<Write<K, V>>, k: K, i: int)
    requires -1 <= i < |writes| && (i >= 0 ==> writes[i].key == k)
    requires forall j :: i < j < |writes| ==> writes[j].key != k
    ensures LastWrite(writes, k) == i
  {
  }

  /** Writes to other keys at the end of a list do not count. */
  lemma LastWriteBefore<K, V>(front: seq<Write<K, V>>, back: seq<Write<K, V>>, k: K)
    requires forall i :: 0 <= i < |back| ==> back[i].key != k
    ensures LastWrite(front + back, k) == LastWrite(front, k)
  {
    var writes, i := front + back, LastWrite(front, k);
    assert forall j :: |front| <= j < |writes| ==> writes[j] == back[j - |front|];
    LastWriteIs(writes, k, i);
  }

  lemma {:induction false} PutAllSnoc<K, V>(s: Store<K, V>, now: real, writes: seq<Write<K, V>>, w: Write<K, V>)
    ensures PutAll(s, now, writes + [w]) == Put(PutAll(s, now, writes), now, w)
    decreases |writes|
  {
    if writes == [] {
      assert ([] + [w])[1..] == [];
    } else {
      assert (writes + [w])[1..] == writes[1..] + [w];
      PutAllSnoc(Put(s, now, writes[0]), now, writes[1..], w);
    }
  }

  /** A written key holds its last write, with that write's lifetime; no other key changes. */
  lemma {:induction false} LastWriteWins<K, V>(s: Store<K, V>, now: real, writes: seq<Write<K, V>>, k: K)
    ensures var t, i := PutAll(s, now, writes), LastWrite(writes, k);
      if i < 0 then (k in t <==> k in s) && (k in s ==> t[k] == s[k])
      else k in t && t[k] == Entry(now + writes[i].ttl as real, writes[i].value)
    decreases |writes|
  {
    if writes != [] {
      var init, w := writes[..|writes| - 1], writes[|writes| - 1];
      assert writes == init + [w];
      PutAllSnoc(s, now, init, w);
      LastWriteWins(s, now, init, k);
    }
  }

  /** A compare-and-set with positive lifetimes does all its writes or none. */
  lemma CasAllOrNothing<K, V>(s: Store<K, V>, now: real, expected: seq<(K, Option<V>)>, writes: seq<Write<K, V>>, k: K)
    requires forall i :: 0 <= i < |writes| ==> writes[i].ttl > 0
    ensures var t, i := Cas(s, now, expected, writes), LastWrite(writes, k);
      Lookup(t, k, now) == if Unchanged(s, now, expected) && i >= 0 then Some(writes[i].value) else Lookup(s, k, now)
  {
    LastWriteWins(s, now, writes, k);
  }

  // ------------------------------------------------------------- invisible deletion

  /** The two stores have the same live entries now; so they have at any later time. */
  ghost predicate SameLive<K(!new), V(!new)>(s: Store<K, V>, t: Store<K, V>, now: real) {
    forall k :: (Live(s, k, now) <==> Live(t, k, now)) && (Live(s, k, now) ==> s[k] == t[k])
  }

  lemma SameLiveLater<K(!new), V(!new)>(s: Store<K, V>, t: Store<K, V>, now: real, later: real)
    requires SameLive(s, t, now) && now <= later
    ensures SameLive(s, t, later)
  {
    forall k
      ensures (Live(s, k, later) <==> Live(t, k, later)) && (Live(s, k, later) ==> s[k] == t[k])
    {
      assert Live(s, k, now) <==> Live(t, k, now);
    }
  }

  lemma {:induction false} PutAllSameLive<K(!new), V(!new)>(s: Store<K, V>, t: Store<K, V>, now: real, writes: seq<Write<K, V>>)
    requires SameLive(s, t, now)
    ensures SameLive(PutAll(s, now, writes), PutAll(t, now, writes), now)
    decreases |writes|
  {
    if writes != [] {
      var s', t' := Put(s, now, writes[0]), Put(t, now, writes[0]);
      forall k
        ensures (Live(s', k, now) <==> Live(t', k, now)) && (Live(s', k, now) ==> s'[k] == t'[k])
      {
        assert Live(s, k, now) <==> Live(t, k, now);
      }
      PutAllSameLive(s', t', now, writes[1..]);
    }
  }
}
