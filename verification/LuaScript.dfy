/** The compare-and-set that runs inside Redis, on the flat KEYS and ARGV arrays
    that the Python side builds. */
module LuaScript {
  import opened Wrappers
  import opened TimedStore
  import Cache

  type Memory = Store<string, string>

  // ------------------------------------------------------------ numbers as strings

  function Digit(d: nat): char
    requires d < 10
  {
    '0' + d as char
  }

  function Decimal(n: nat): (s: string)
    ensures s != [] && forall i :: 0 <= i < |s| ==> '0' <= s[i] <= '9'
  {
    if n < 10 then [Digit(n)] else Decimal(n / 10) + [Digit(n % 10)]
  }

  function ToNumber(s: string): nat
    requires forall i :: 0 <= i < |s| ==> '0' <= s[i] <= '9'
  {
    if s == [] then 0
    else ToNumber(s[..|s| - 1]) * 10 + (s[|s| - 1] - '0') as nat
  }

  lemma {:induction false} NumberOfDecimal(n: nat)
    ensures ToNumber(Decimal(n)) == n
  {
    if n >= 10 {
      NumberOfDecimal(n / 10);
      assert Decimal(n)[..|Decimal(n)| - 1] == Decimal(n / 10);
    }
  }

  /** A whole number as Python passes it and Redis reads it. */
  function Numeral(n: int): string {
    if n < 0 then "-" + Decimal(-n) else Decimal(n)
  }

  predicate IsNumeral(s: string) {
    s != [] && (s[0] == '-' || '0' <= s[0] <= '9') && forall i :: 1 <= i < |s| ==> '0' <= s[i] <= '9'
  }

  function ToInteger(s: string): int
    requires IsNumeral(s)
  {
    if s[0] == '-' then -(ToNumber(s[1..]) as int) else ToNumber(s)
  }

  lemma IntegerOfNumeral(n: int)
    ensures IsNumeral(Numeral(n)) && ToInteger(Numeral(n)) == n
  {
    NumberOfDecimal(if n < 0 then -n else n);
    if n < 0 {
      assert Numeral(n)[1..] == Decimal(-n);
    }
  }

  // -------------------------------------------------------------- the flat arrays

  datatype Arguments = Arguments(keys: seq<string>, argv: seq<string>)

  /** How the expectations and the writes lie in the arrays, counted from 0. */
  ghost predicate Encodes(a: Arguments, expected: seq<(string, Option<string>)>, writes: seq<Write<string, string>>) {
    var n := |expected|;
    && |a.keys| == n + |writes| && |a.argv| == 1 + 2 * n + 2 * |writes|
    && a.argv[0] == Decimal(n)
    && (forall i :: 0 <= i < n ==> ExpectationAt(a, i, expected[i]))
    && (forall i :: 0 <= i < |writes| ==> WriteAt(a, n, i, writes[i]))
  }

  ghost predicate ExpectationAt(a: Arguments, i: nat, e: (string, Option<string>)) {
    && i < |a.keys| && 2 + 2 * i < |a.argv|
    && a.keys[i] == e.0
    && a.argv[1 + 2 * i] == (if e.1.None? then "0" else "1")
    && (e.1.Some? ==> a.argv[2 + 2 * i] == e.1.value)
  }

  ghost predicate WriteAt(a: Arguments, n: nat, i: nat, w: Write<string, string>) {
    && n + i < |a.keys| && 2 + 2 * n + 2 * i < |a.argv|
    && a.keys[n + i] == w.key
    && a.argv[1 + 2 * n + 2 * i] == Numeral(w.ttl)
    && a.argv[2 + 2 * n + 2 * i] == w.value
  }

  lemma ExpectationKept(a: Arguments, b: Arguments, i: nat, e: (string, Option<string>))
    requires ExpectationAt(a, i, e) && a.keys == b.keys && a.argv <= b.argv
    ensures ExpectationAt(b, i, e)
  {
  }

  lemma WriteKept(a: Arguments, b: Arguments, n: nat, i: nat, w: Write<string, string>)
    requires WriteAt(a, n, i, w) && a.keys == b.keys && a.argv <= b.argv
    ensures WriteAt(b, n, i, w)
  {
  }

  lemma ExpectationIsRead(a: Arguments, i: nat, e: (string, Option<string>), current: Option<string>)
    requires ExpectationAt(a, i, e)
    ensures i < |a.keys| && 2 + 2 * i < |a.argv| && a.keys[i] == e.0
    ensures var present, value := a.argv[1 + 2 * i], a.argv[2 + 2 * i];
      (present == "0" && current.Some?) || (present == "1" && current != Some(value)) <==> current != e.1
  {
    assert "0"[0] != "1"[0];
  }

  lemma WriteIsRead(a: Arguments, n: nat, i: nat, w: Write<string, string>)
    requires WriteAt(a, n, i, w)
    ensures n + i < |a.keys| && 2 + 2 * n + 2 * i < |a.argv|
    ensures IsNumeral(a.argv[1 + 2 * n + 2 * i]) && ToInteger(a.argv[1 + 2 * n + 2 * i]) == w.ttl
    ensures a.keys[n + i] == w.key && a.argv[2 + 2 * n + 2 * i] == w.value
  {
    IntegerOfNumeral(w.ttl);
  }

  /** The two list-building loops of the Python side. */
  method BuildArguments(expected: seq<(string, Option<string>)>, writes: seq<Write<string, string>>) returns (a: Arguments)
    ensures Encodes(a, expected, writes)
  {
    hide Decimal;
    hide Numeral;
    var n := |expected|;
    var keys := seq(n, i requires 0 <= i < n => expected[i].0)
              + seq(|writes|, i requires 0 <= i < |writes| => writes[i].key);
    var argv := [Decimal(n)];
    for i := 0 to n
      invariant |argv| == 1 + 2 * i && argv[0] == Decimal(n)
      invariant forall j :: 0 <= j < i ==> ExpectationAt(Arguments(keys, argv), j, expected[j])
    {
      ghost var before := argv;
      argv := argv + (match expected[i].1 case None => ["0", ""] case Some(value) => ["1", value]);
      assert ExpectationAt(Arguments(keys, argv), i, expected[i]);
      forall j | 0 <= j < i
        ensures ExpectationAt(Arguments(keys, argv), j, expected[j])
      {
        ExpectationKept(Arguments(keys, before), Arguments(keys, argv), j, expected[j]);
      }
    }
    ghost var expectations := argv;
    for i := 0 to |writes|
      invariant |argv| == 1 + 2 * n + 2 * i && expectations <= argv
      invariant forall j :: 0 <= j < i ==> WriteAt(Arguments(keys, argv), n, j, writes[j])
    {
      ghost var before := argv;
      argv := argv + [Numeral(writes[i].ttl), writes[i].value];
      assert WriteAt(Arguments(keys, argv), n, i, writes[i]);
      forall j | 0 <= j < i
        ensures WriteAt(Arguments(keys, argv), n, j, writes[j])
      {
        WriteKept(Arguments(keys, before), Arguments(keys, argv), n, j, writes[j]);
      }
    }
    a := Arguments(keys, argv);
    forall j | 0 <= j < n
      ensures ExpectationAt(a, j, expected[j])
    {
      ExpectationKept(Arguments(keys, expectations), a, j, expected[j]);
    }
  }

  // -------------------------------------------------------------------- the script

  /** Number of leading writes with a lifetime that Redis accepts. */
  function Writable(writes: seq<Write<string, string>>): (n: nat)
    ensures n <= |writes| && (forall i :: 0 <= i < n ==> writes[i].ttl > 0)
    ensures n < |writes| ==> writes[n].ttl <= 0
  {
    if writes == [] || writes[0].ttl <= 0 then 0 else 1 + Writable(writes[1..])
  }

  /** The script's first loop, with Lua's arrays counted from 1. */
  method CheckExpected(a: Arguments, n: nat, s: Memory, now: real, ghost expected: seq<(string, Option<string>)>)
    returns (same: bool)
    requires n == |expected| && forall i :: 0 <= i < n ==> ExpectationAt(a, i, expected[i])
    ensures same <==> Unchanged(s, now, expected)
  {
    hide ExpectationAt;
    var i := 1;
    while i <= n
      invariant 1 <= i <= n + 1
      invariant forall j :: 0 <= j < i - 1 ==> Lookup(s, expected[j].0, now) == expected[j].1
    {
      ExpectationIsRead(a, i - 1, expected[i - 1], Lookup(s, expected[i - 1].0, now));
      var current := Lookup(s, a.keys[i - 1], now);
      var present := a.argv[2 + (i - 1) * 2 - 1];
      var expectedValue := a.argv[3 + (i - 1) * 2 - 1];
      if (present == "0" && current.Some?) || (present == "1" && current != Some(expectedValue)) {
        assert Lookup(s, expected[i - 1].0, now) != expected[i - 1].1;
        return false;
      }
      i := i + 1;
    }
    return true;
  }

  /** The script's second loop. */
  method WriteWhileAccepted(a: Arguments, n: nat, s: Memory, now: real, ghost writes: seq<Write<string, string>>)
    returns (done: bool, s': Memory)
    requires |a.keys| == n + |writes| && forall i :: 0 <= i < |writes| ==> WriteAt(a, n, i, writes[i])
    ensures done <==> Writable(writes) == |writes|
    ensures s' == PutAll(s, now, writes[..Writable(writes)])
  {
    hide WriteAt;
    hide Numeral;
    hide IsNumeral;
    hide ToInteger;
    hide Writable;
    s' := s;
    var offset := 2 + n * 2;
    var i := 1;
    while i <= |a.keys| - n
      invariant 1 <= i <= |writes| + 1
      invariant i - 1 <= Writable(writes)
      invariant s' == PutAll(s, now, writes[..i - 1])
    {
      WriteIsRead(a, n, i - 1, writes[i - 1]);
      var ttl := ToInteger(a.argv[offset + (i - 1) * 2 - 1]);
      var value := a.argv[offset + 1 + (i - 1) * 2 - 1];
      if ttl <= 0 {
        return false, s';
      }
      s' := s'[a.keys[n + i - 1] := Entry(now + ttl as real, value)];
      PutAllSnoc(s, now, writes[..i - 1], writes[i - 1]);
      assert writes[..i] == writes[..i - 1] + [writes[i - 1]];
      i := i + 1;
    }
    return true, s';
  }

  /** The script, run as one step at `now`. A refused lifetime ends it with an error,
      and Redis keeps what it has written by then. */
  method RunScript(a: Arguments, s: Memory, now: real,
                   ghost expected: seq<(string, Option<string>)>, ghost writes: seq<Write<string, string>>)
    returns (verdict: Option<int>, s': Memory)
    requires Encodes(a, expected, writes)
    ensures verdict == if !Unchanged(s, now, expected) then Some(0) else if Writable(writes) == |writes| then Some(1) else None
    ensures s' == Cas(s, now, expected, writes[..Writable(writes)])
  {
    NumberOfDecimal(|expected|);
    hide Decimal;
    hide ToNumber;
    hide Writable;
    var n := ToNumber(a.argv[0]);
    var same := CheckExpected(a, n, s, now, expected);
    if !same {
      return Some(0), s;
    }
    var done;
    done, s' := WriteWhileAccepted(a, n, s, now, writes);
    verdict := if done then Some(1) else None;
  }

  /** The Redis path from Python lists to verdict. With positive lifetimes it has the
      verdict and the store of the in-memory compare-and-set; it raises an error exactly
      when it finds everything unchanged and some lifetime is not positive. */
  method SetExManyIfUnchanged(s: Memory, now: real, expected: seq<(string, Option<string>)>, writes: seq<Write<string, string>>)
    returns (committed: Option<bool>, s': Memory)
    ensures committed.None? <==> Unchanged(s, now, expected) && exists i :: 0 <= i < |writes| && writes[i].ttl <= 0
    ensures committed.Some? ==> committed.value == Unchanged(s, now, expected) && s' == Cas(s, now, expected, writes)
    ensures committed.None? ==> s' == PutAll(s, now, writes[..Writable(writes)])
  {
    var a := BuildArguments(expected, writes);
    var verdict;
    verdict, s' := RunScript(a, s, now, expected, writes);
    committed := if verdict.Some? then Some(verdict.value != 0) else None;
    assert writes[..|writes|] == writes;
  }

  /** The call as its callers see it: when the script fails, Python turns to its own
      dictionary and tries the same there, whatever Redis has kept of it. */
  method SetExManyOrFallBack(redis: Memory, local: Memory, now: real,
                             expected: seq<(string, Option<string>)>, writes: seq<Write<string, string>>)
    returns (committed: bool, redis': Memory, local': Memory)
    ensures var raises := Unchanged(redis, now, expected) && exists i :: 0 <= i < |writes| && writes[i].ttl <= 0;
      if raises then
        committed == Unchanged(local, now, expected)
        && redis' == PutAll(redis, now, writes[..Writable(writes)]) && local' == Cas(local, now, expected, writes)
      else
        committed == Unchanged(redis, now, expected) && redis' == Cas(redis, now, expected, writes) && local' == local
  {
    var answer;
    answer, redis' := SetExManyIfUnchanged(redis, now, expected, writes);
    if answer.Some? {
      return answer.value, redis', local;
    }
    var memory := new Cache.Cache();
    memory.mem := local;
    committed := memory.SetExManyIfUnchanged(expected, writes, now);
    local' := memory.mem;
  }

  /** The all-or-nothing law needs positive lifetimes: this call reports that nothing was
      written, and the first of its two writes is in Redis all the same. */
  method RefusedLifetimeLeavesHalf() returns (committed: bool, redis': Memory)
    ensures !committed && redis' == map["body" := Entry(10.0, "new")]
  {
    var redis: Memory := map["body" := Entry(5.0, "old")];
    var writes := [Write("body", 10, "new"), Write("stale", 0, "new")];
    assert writes[1..] == [Write("stale", 0, "new")];
    assert Writable(writes[1..]) == 0 && Writable(writes) == 1;
    assert writes[1].ttl <= 0;
    var local': Memory;
    committed, redis', local' := SetExManyOrFallBack(redis, map[], 0.0, [("body", Some("old"))], writes);
    var one := writes[..1];
    assert one == [Write("body", 10, "new")] && one[1..] == [];
    assert PutAll(redis, 0.0, one) == PutAll(Put(redis, 0.0, one[0]), 0.0, []);
    assert Lookup<string, string>(map[], "body", 0.0) != Some("old");
    assert !Unchanged<string, string>(map[], 0.0, [("body", Some("old"))]) by {
      assert [("body", Some("old"))][0] == ("body", Some("old"));
    }
  }

  // ------------------------------------------------------------- lifetimes in Redis

  /** The other script: the smaller of the two keys' rounded lifetimes, both positive, is
      the rounded lifetime of the key that expires sooner. */
  method TtlIfValues(s: Memory, key: string, expected: string, boundKey: string, expectedBound: string, now: real)
    returns (ttl: Option<int>)
    ensures ttl == TimedStore.TtlIfValues(s, key, expected, boundKey, expectedBound, now, Nearest)
    ensures ttl.Some? <==>
      && key in s && s[key].value == expected && s[key].exp - now >= 0.5
      && boundKey in s && s[boundKey].value == expectedBound && s[boundKey].exp - now >= 0.5
    ensures ttl.Some? ==> Rounds(Sooner(s[key].exp, s[boundKey].exp) - now, Nearest, ttl.value)
  {
    if Lookup(s, key, now) != Some(expected) || Lookup(s, boundKey, now) != Some(expectedBound) {
      return None;
    }
    var marker, bound := s[key].exp - now, s[boundKey].exp - now;
    var markerTtl, boundTtl := Whole(marker, Nearest), Whole(bound, Nearest);
    if marker <= bound {
      WholeIsMonotone(marker, bound, Nearest);
    } else {
      WholeIsMonotone(bound, marker, Nearest);
    }
    hide Whole;
    if markerTtl <= 0 || boundTtl <= 0 {
      return None;
    }
    return Some(if boundTtl < markerTtl then boundTtl else markerTtl);
  }
}
