/** The in-memory path of the project cache: a class over a dictionary that drops
    expired entries when it meets them. */
module Cache {
  import opened Wrappers
  import opened TimedStore

  type Memory = Store<string, string>

  /** The entries left after dropping those of `keys` that have expired. */
  function Pruned(s: Memory, keys: seq<string>, now: real): Memory {
    map k | k in s && (k !in keys || s[k].exp > now) :: s[k]
  }

  class Cache {
    var mem: Memory

    constructor ()
      ensures mem == map[]
    {
      mem := map[];
    }

    method Drop(key: string)
      requires key in mem
      modifies this
      ensures mem == map k | k in old(mem) && k != key :: old(mem)[k]
    {
      mem := map k | k in mem && k != key :: mem[k];
    }

    method Get(key: string, now: real) returns (value: Option<string>)
      modifies this
      ensures (mem, Value(value)) == Step(old(mem), GetOp(key), now)
      ensures value == if key in old(mem) && old(mem)[key].exp > now then Some(old(mem)[key].value) else None
      ensures key in mem <==> value.Some?
    {
      if key in mem {
        var entry := mem[key];
        if entry.exp > now {
          assert mem == Pruned(mem, [key], now);
          return Some(entry.value);
        }
        Drop(key);
      }
      assert mem == Pruned(old(mem), [key], now);
      return None;
    }

    method GetMany(keys: seq<string>, now: real) returns (values: seq<Option<string>>)
      modifies this
      ensures (mem, Values(values)) == Step(old(mem), GetManyOp(keys), now)
      ensures |values| == |keys| && forall i :: 0 <= i < |keys| ==>
        values[i] == if keys[i] in old(mem) && old(mem)[keys[i]].exp > now then Some(old(mem)[keys[i]].value) else None
      ensures forall key <- keys :: key in mem <==> key in old(mem) && old(mem)[key].exp > now
    {
      values := [];
      for i := 0 to |keys|
        invariant |values| == i
        invariant forall j :: 0 <= j < i ==> values[j] == Lookup(old(mem), keys[j], now)
        invariant mem == Pruned(old(mem), keys[..i], now)
      {
        var key := keys[i];
        assert keys[..i + 1] == keys[..i] + [key];
        if key !in mem {
          values := values + [None];
        } else if mem[key].exp > now {
          values := values + [Some(mem[key].value)];
        } else {
          Drop(key);
          values := values + [None];
        }
      }
      assert keys[..|keys|] == keys;
      assert values == Reply(old(mem), GetManyOp(keys), now).values;
    }

    method ExistsAny(keys: seq<string>, now: real) returns (found: bool)
      modifies this
      ensures (mem, Found(found)) == Step(old(mem), ExistsOp(keys), now)
      ensures found <==> exists key <- keys :: key in old(mem) && old(mem)[key].exp > now
      ensures forall key <- keys :: key in mem <==> key in old(mem) && old(mem)[key].exp > now
    {
      found := false;
      for i := 0 to |keys|
        invariant found <==> exists j :: 0 <= j < i && Live(old(mem), keys[j], now)
        invariant mem == Pruned(old(mem), keys[..i], now)
      {
        var key := keys[i];
        assert keys[..i + 1] == keys[..i] + [key];
        if key in mem {
          if mem[key].exp > now {
            found := true;
          } else {
            Drop(key);
          }
        }
      }
      assert keys[..|keys|] == keys;
    }

    method SetEx(key: string, ttl: int, value: string, now: real)
      modifies this
      ensures (mem, Done) == Step(old(mem), SetManyOp([Write(key, ttl, value)]), now)
      ensures mem == old(mem)[key := Entry(now + ttl as real, value)]
    {
      mem := mem[key := Entry(now + ttl as real, value)];
      PutAllSnoc(old(mem), now, [], Write(key, ttl, value));
      assert [] + [Write(key, ttl, value)] == [Write(key, ttl, value)];
    }

    method SetExMany(writes: seq<Write<string, string>>, now: real)
      modifies this
      ensures (mem, Done) == Step(old(mem), SetManyOp(writes), now)
    {
      for i := 0 to |writes|
        invariant mem == PutAll(old(mem), now, writes[..i])
      {
        var Write(key, ttl, value) := writes[i];
        mem := mem[key := Entry(now + ttl as real, value)];
        PutAllSnoc(old(mem), now, writes[..i], writes[i]);
        assert writes[..i + 1] == writes[..i] + [writes[i]];
      }
      assert writes[..|writes|] == writes;
    }

    method Ttl(key: string, now: real) returns (ttl: Option<int>)
      modifies this
      ensures (mem, Seconds(ttl)) == Step(old(mem), TtlOp(key), now)
      ensures ttl.Some? <==> key in old(mem) && old(mem)[key].exp - now >= 1.0
      ensures ttl.Some? ==> Rounds(old(mem)[key].exp - now, Down, ttl.value)
      ensures key in mem <==> key in old(mem) && old(mem)[key].exp > now
    {
      if key !in mem {
        assert mem == Pruned(mem, [key], now);
        return None;
      }
      var remaining := mem[key].exp - now;
      if remaining <= 0.0 {
        Drop(key);
        assert mem == Pruned(old(mem), [key], now);
        return None;
      }
      assert mem == Pruned(mem, [key], now);
      var seconds := remaining.Floor;
      return if seconds > 0 then Some(seconds) else None;
    }

    method TtlIfValues(key: string, expected: string, boundKey: string, expectedBound: string, now: real)
      returns (ttl: Option<int>)
      ensures (mem, Seconds(ttl)) == Step(mem, TtlIfOp(key, expected, boundKey, expectedBound), now)
      ensures ttl.Some? <==>
        && key in mem && mem[key].value == expected && mem[key].exp - now >= 1.0
        && boundKey in mem && mem[boundKey].value == expectedBound && mem[boundKey].exp - now >= 1.0
      ensures ttl.Some? ==> Rounds(Sooner(mem[key].exp, mem[boundKey].exp) - now, Down, ttl.value)
    {
      if key !in mem || mem[key].exp <= now || mem[key].value != expected
         || boundKey !in mem || mem[boundKey].exp <= now || mem[boundKey].value != expectedBound {
        return None;
      }
      var sooner := if mem[boundKey].exp < mem[key].exp then mem[boundKey].exp else mem[key].exp;
      var seconds := (sooner - now).Floor;
      return if seconds > 0 then Some(seconds) else None;
    }

    method SetExManyIfUnchanged(expected: seq<(string, Option<string>)>, writes: seq<Write<string, string>>, now: real)
      returns (committed: bool)
      modifies this
      ensures (mem, Found(committed)) == Step(old(mem), CasOp(expected, writes), now)
      ensures committed <==> forall i :: 0 <= i < |expected| ==>
        expected[i].1 == if expected[i].0 in old(mem) && old(mem)[expected[i].0].exp > now then Some(old(mem)[expected[i].0].value) else None
      ensures !committed ==> mem == old(mem)
    {
      for i := 0 to |expected|
        invariant Unchanged(mem, now, expected[..i])
      {
        var (key, value) := expected[i];
        var current := if key in mem && mem[key].exp > now then Some(mem[key].value) else None;
        if current != value {
          assert Lookup(mem, expected[i].0, now) != expected[i].1;
          return false;
        }
      }
      assert expected[..|expected|] == expected;
      SetExMany(writes, now);
      return true;
    }
  }

  // -------------------------------------------------------- one step, two readings

  datatype Op =
    | GetOp(key: string)
    | GetManyOp(keys: seq<string>)
    | ExistsOp(keys: seq<string>)
    | SetManyOp(writes: seq<Write<string, string>>)
    | TtlOp(key: string)
    | TtlIfOp(key: string, expectedValue: string, boundKey: string, expectedBound: string)
    | CasOp(expected: seq<(string, Option<string>)>, writes: seq<Write<string, string>>)

  datatype Answer =
    | Value(value: Option<string>)
    | Values(values: seq<Option<string>>)
    | Found(found: bool)
    | Seconds(ttl: Option<int>)
    | Done

  /** What a plain timed map answers: no deletion anywhere. */
  function Reply(s: Memory, op: Op, now: real): Answer {
    match op
    case GetOp(key) => Value(Lookup(s, key, now))
    case GetManyOp(keys) => Values(seq(|keys|, i requires 0 <= i < |keys| => Lookup(s, keys[i], now)))
    case ExistsOp(keys) => Found(exists i :: 0 <= i < |keys| && Live(s, keys[i], now))
    case SetManyOp(_) => Done
    case TtlOp(key) => Seconds(TimedStore.Ttl(s, key, now, Down))
    case TtlIfOp(key, expected, boundKey, expectedBound) =>
      Seconds(TimedStore.TtlIfValues(s, key, expected, boundKey, expectedBound, now, Down))
    case CasOp(expected, _) => Found(Unchanged(s, now, expected))
  }

  /** How a plain timed map changes: only by writes. */
  function Written(s: Memory, op: Op, now: real): Memory {
    match op
    case SetManyOp(writes) => PutAll(s, now, writes)
    case CasOp(expected, writes) => Cas(s, now, expected, writes)
    case _ => s
  }

  /** The keys at which an operation drops what has expired. */
  function Visited(op: Op): seq<string> {
    match op
    case GetOp(key) => [key]
    case GetManyOp(keys) => keys
    case ExistsOp(keys) => keys
    case TtlOp(key) => [key]
    case _ => []
  }

  /** What the dictionary does: the same writes and answers, and expired visited keys go. */
  function Step(s: Memory, op: Op, now: real): (Memory, Answer) {
    (if Visited(op) == [] then Written(s, op, now) else Pruned(s, Visited(op), now), Reply(s, op, now))
  }

  lemma PruneIsInvisible(s: Memory, keys: seq<string>, now: real)
    ensures SameLive(Pruned(s, keys, now), s, now)
  {
  }

  lemma ReplySees(s: Memory, t: Memory, op: Op, now: real)
    requires SameLive(s, t, now)
    ensures Reply(s, op, now) == Reply(t, op, now)
  {
    assert forall k :: Lookup(s, k, now) == Lookup(t, k, now) by {
      forall k
        ensures Lookup(s, k, now) == Lookup(t, k, now)
      {
        assert Live(s, k, now) <==> Live(t, k, now);
      }
    }
    assert forall k :: Live(s, k, now) <==> Live(t, k, now);
    match op {
      case GetManyOp(keys) =>
        assert Reply(s, op, now).values == Reply(t, op, now).values;
      case _ =>
    }
  }

  /** One operation keeps dictionary and plain map indistinguishable. */
  lemma StepRefines(s: Memory, t: Memory, op: Op, now: real)
    requires SameLive(s, t, now)
    ensures Step(s, op, now).1 == Reply(t, op, now)
    ensures SameLive(Step(s, op, now).0, Written(t, op, now), now)
  {
    ReplySees(s, t, op, now);
    if Visited(op) != [] {
      PruneIsInvisible(s, Visited(op), now);
      forall k
        ensures (Live(Pruned(s, Visited(op), now), k, now) <==> Live(t, k, now))
             && (Live(t, k, now) ==> Pruned(s, Visited(op), now)[k] == t[k])
      {
        assert Live(Pruned(s, Visited(op), now), k, now) <==> Live(s, k, now);
        assert Live(s, k, now) <==> Live(t, k, now);
      }
    } else {
      match op {
        case SetManyOp(writes) => PutAllSameLive(s, t, now, writes);
        case CasOp(expected, writes) =>
          assert Reply(s, op, now).found == Unchanged(s, now, expected);
          PutAllSameLive(s, t, now, writes);
        case _ =>
      }
    }
  }

  // ------------------------------------------------------------------- whole runs

  datatype Call = Call(op: Op, now: real)

  ghost predicate Timed(calls: seq<Call>, start: real) {
    calls != [] ==> start <= calls[0].now && Timed(calls[1..], calls[0].now)
  }

  function DictAnswers(s: Memory, calls: seq<Call>): seq<Answer>
    decreases |calls|
  {
    if calls == [] then []
    else
      var (s', answer) := Step(s, calls[0].op, calls[0].now);
      [answer] + DictAnswers(s', calls[1..])
  }

  function MapAnswers(s: Memory, calls: seq<Call>): seq<Answer>
    decreases |calls|
  {
    if calls == [] then []
    else [Reply(s, calls[0].op, calls[0].now)] + MapAnswers(Written(s, calls[0].op, calls[0].now), calls[1..])
  }

  /** For any operations under a clock that does not run backwards, the dictionary
      gives every answer that a map that never deletes would give. */
  lemma {:induction false} CacheRefinesTimedMap(s: Memory, t: Memory, start: real, calls: seq<Call>)
    requires SameLive(s, t, start) && Timed(calls, start)
    ensures DictAnswers(s, calls) == MapAnswers(t, calls)
    decreases |calls|
  {
    if calls != [] {
      var Call(op, now) := calls[0];
      SameLiveLater(s, t, start, now);
      StepRefines(s, t, op, now);
      CacheRefinesTimedMap(Step(s, op, now).0, Written(t, op, now), now, calls[1..]);
    }
  }
}
