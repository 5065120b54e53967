/** Hashes in the fragment of a file URL: printing, parsing, and when they agree. */
module HashFragment {
  import opened Text

  const SEPARATORS: set<char> := {'&', ','}

  predicate Supported(name: string) {
    name in {"sha256", "sha384", "sha512", "md5", "sha1", "blake2b"}
  }

  function StripFragment(url: string): string {
    url[..Find(url, '#')]
  }

  /** A part adds its hash, over an earlier one of the same name, if the name is known. */
  function Collect(hashes: map<string, string>, part: string): map<string, string> {
    var eq := Find(part, '=');
    if eq < |part| && Supported(part[..eq]) then hashes[part[..eq] := part[eq + 1..]] else hashes
  }

  function Collected(parts: seq<string>): map<string, string> {
    if parts == [] then map[] else Collect(Collected(parts[..|parts| - 1]), parts[|parts| - 1])
  }

  function HashesOf(url: string): map<string, string> {
    var hash := Find(url, '#');
    if hash == |url| then map[] else Collected(Split(url[hash + 1..], SEPARATORS))
  }

  method ParseHashes(url: string) returns (out: map<string, string>)
    ensures out == HashesOf(url)
  {
    if '#' !in url {
      return map[];
    }
    var parts := Split(url[Find(url, '#') + 1..], SEPARATORS);
    out := map[];
    for i := 0 to |parts|
      invariant out == Collected(parts[..i])
    {
      var part := parts[i];
      assert parts[..i + 1][..i] == parts[..i];
      var eq := Find(part, '=');
      if eq < |part| {
        var k, v := part[..eq], part[eq + 1..];
        if Supported(k) {
          out := out[k := v];
        }
      }
    }
    assert parts[..|parts|] == parts;
  }

  // --------------------------------------------------------------------- printing

  /** The entries of a dictionary, in order. */
  type Items = seq<(string, string)>

  predicate Distinct(items: Items) {
    forall i, j :: 0 <= i < j < |items| ==> items[i].0 != items[j].0
  }

  function Pair(item: (string, string)): string {
    item.0 + "=" + item.1
  }

  function Joined(items: Items): string
    requires items != []
  {
    if |items| == 1 then Pair(items[0]) else Pair(items[0]) + "&" + Joined(items[1..])
  }

  function WithFragment(url: string, items: Items): string {
    if items == [] then url else url + "#" + Joined(items)
  }

  function Dictionary(items: Items): map<string, string> {
    if items == [] then map[]
    else
      var last := items[|items| - 1];
      Dictionary(items[..|items| - 1])[last.0 := last.1]
  }

  // ------------------------------------------------------------------ round trips

  lemma SupportedIsPlain(name: string)
    requires Supported(name)
    ensures Avoids(name, {'&', ',', '=', '#'})
  {
  }

  /** The names that survive, and the values that do: without ampersands and commas. */
  predicate Printable(item: (string, string)) {
    && (item.0 == "sha256" || item.0 == "sha384" || item.0 == "sha512" || item.0 == "md5" || item.0 == "sha1" || item.0 == "blake2b")
    && '&' !in item.1 && ',' !in item.1
  }

  lemma PrintableIsSupported(item: (string, string))
    ensures Printable(item) <==> Supported(item.0) && Avoids(item.1, SEPARATORS)
  {
  }

  predicate AllPrintable(items: Items) {
    forall i :: 0 <= i < |items| ==> Printable(items[i])
  }

  function Pairs(items: Items): seq<string> {
    seq(|items|, i requires 0 <= i < |items| => Pair(items[i]))
  }

  lemma PairIsOnePart(item: (string, string))
    requires Printable(item)
    ensures Avoids(Pair(item), SEPARATORS)
    ensures forall hashes :: Collect(hashes, Pair(item)) == hashes[item.0 := item.1]
  {
    SupportedIsPlain(item.0);
    var part := Pair(item);
    assert part[|item.0|] == '=';
    assert forall i :: 0 <= i < |item.0| ==> part[i] == item.0[i];
    assert Find(part, '=') == |item.0|;
    assert part[..|item.0|] == item.0 && part[|item.0| + 1..] == item.1;
  }

  lemma {:induction false} JoinedSplits(items: Items)
    requires items != [] && AllPrintable(items)
    ensures Split(Joined(items), SEPARATORS) == Pairs(items)
  {
    PairIsOnePart(items[0]);
    if |items| == 1 {
      SplitWhole(Pair(items[0]), SEPARATORS);
    } else {
      JoinedSplits(items[1..]);
      SplitAt(Pair(items[0]), '&', Joined(items[1..]), SEPARATORS);
    }
  }

  lemma {:induction false} PairsCollect(items: Items)
    requires AllPrintable(items)
    ensures Collected(Pairs(items)) == Dictionary(items)
  {
    if items != [] {
      var init, last := items[..|items| - 1], items[|items| - 1];
      PairsCollect(init);
      assert Pairs(items)[..|items| - 1] == Pairs(init);
      PairIsOnePart(last);
    }
  }

  lemma {:induction false} PartsAvoid(s: string, separators: set<char>)
    ensures forall part <- Split(s, separators) :: Avoids(part, separators)
  {
    if s != [] {
      PartsAvoid(s[1..], separators);
      var parts, rest := Split(s, separators), Split(s[1..], separators);
      forall i | 0 <= i < |parts|
        ensures Avoids(parts[i], separators)
      {
        if s[0] in separators {
          assert i > 0 ==> parts[i] == rest[i - 1] && rest[i - 1] in rest;
        } else {
          assert parts[i] == (if i == 0 then [s[0]] + rest[0] else rest[i]) && rest[i] in rest;
        }
      }
    }
  }

  /** Nothing with a separator or an unknown name is ever parsed. */
  lemma {:induction false} CollectedIsPlain(parts: seq<string>)
    requires forall part <- parts :: Avoids(part, SEPARATORS)
    ensures forall k <- Collected(parts) :: Printable((k, Collected(parts)[k]))
  {
    if parts != [] {
      CollectedIsPlain(parts[..|parts| - 1]);
      assert Avoids(parts[|parts| - 1], SEPARATORS);
    }
  }

  /** A part gives this value to this name. */
  predicate Assigns(part: string, name: string, value: string) {
    part == name + "=" + value
  }

  /** The i-th part is the last one that assigns to the name. */
  ghost predicate AssignsLast(parts: seq<string>, name: string, value: string, i: int) {
    0 <= i < |parts| && Assigns(parts[i], name, value) && forall j, other :: i < j < |parts| ==> !Assigns(parts[j], name, other)
  }

  lemma AssignmentSplits(name: string, value: string)
    requires '=' !in name
    ensures var part := name + "=" + value;
      Find(part, '=') == |name| && part[..|name|] == name && part[|name| + 1..] == value
  {
    var part := name + "=" + value;
    assert forall i :: 0 <= i < |name| ==> part[i] == name[i];
    assert part[|name|] == '=';
  }

  lemma PartAssigns(part: string, name: string)
    requires '=' !in name
    ensures var eq := Find(part, '=');
      if eq < |part| && part[..eq] == name then forall other :: Assigns(part, name, other) <==> other == part[eq + 1..]
      else forall other :: !Assigns(part, name, other)
  {
    var eq := Find(part, '=');
    forall other | Assigns(part, name, other)
      ensures eq == |name| && part[..eq] == name && other == part[eq + 1..]
    {
      AssignmentSplits(name, other);
    }
    if eq < |part| && part[..eq] == name {
      assert part == name + "=" + part[eq + 1..];
    }
  }

  lemma LastAssignment(parts: seq<string>, name: string, value: string)
    requires '=' !in name && parts != []
    ensures var init, last := parts[..|parts| - 1], parts[|parts| - 1];
      (exists i :: AssignsLast(parts, name, value, i)) <==>
        Assigns(last, name, value) || ((forall other :: !Assigns(last, name, other)) && exists i :: AssignsLast(init, name, value, i))
  {
    var init, last := parts[..|parts| - 1], parts[|parts| - 1];
    if i :| AssignsLast(parts, name, value, i) {
      if i < |parts| - 1 {
        assert AssignsLast(init, name, value, i);
      }
    }
    if Assigns(last, name, value) {
      assert AssignsLast(parts, name, value, |parts| - 1);
    } else if (forall other :: !Assigns(last, name, other)) && exists i :: AssignsLast(init, name, value, i) {
      var i :| AssignsLast(init, name, value, i);
      assert AssignsLast(parts, name, value, i);
    }
  }

  /** A value is parsed for a known name exactly when the last part that assigns to the
      name assigns it; unknown names and other parts are passed over. */
  lemma {:induction false} CollectedExactly(parts: seq<string>, name: string, value: string)
    requires '=' !in name
    ensures name in Collected(parts) && Collected(parts)[name] == value
      <==> Supported(name) && exists i :: AssignsLast(parts, name, value, i)
  {
    if parts == [] {
      assert forall i :: !AssignsLast(parts, name, value, i);
    } else {
      var init, last := parts[..|parts| - 1], parts[|parts| - 1];
      CollectedExactly(init, name, value);
      PartAssigns(last, name);
      LastAssignment(parts, name, value);
      OnePartMore(parts, name, value);
    }
    hide *;
  }

  lemma OnePartMore(parts: seq<string>, name: string, value: string)
    requires '=' !in name && parts != []
    ensures var init, last := parts[..|parts| - 1], parts[|parts| - 1];
      var has, had := Collected(parts), Collected(init);
      (name in has && has[name] == value) <==>
        (Supported(name) && Assigns(last, name, value))
        || ((!Supported(name) || forall other :: !Assigns(last, name, other)) && name in had && had[name] == value)
  {
    var last := parts[|parts| - 1];
    var eq := Find(last, '=');
    PartAssigns(last, name);
    hide Assigns;
    hide Supported;
    if eq < |last| && last[..eq] == name {
      assert Assigns(last, name, last[eq + 1..]);
    }
  }

  lemma {:induction false} DictionaryHas(items: Items, i: nat)
    requires Distinct(items) && i < |items|
    ensures items[i].0 in Dictionary(items) && Dictionary(items)[items[i].0] == items[i].1
  {
    if i < |items| - 1 {
      DictionaryHas(items[..|items| - 1], i);
    }
  }

  lemma FirstHash(url: string, rest: string)
    requires '#' !in url
    ensures Find(url + "#" + rest, '#') == |url|
    ensures StripFragment(url + "#" + rest) == url && (url + "#" + rest)[|url| + 1..] == rest
  {
    var whole := url + "#" + rest;
    assert forall i :: 0 <= i < |url| ==> whole[i] == url[i];
    assert whole[|url|] == '#';
    assert whole[..|url|] == url;
  }

  /** Parsing what was printed gives back URL and hashes exactly when the URL has no
      fragment of its own, every name is known and no value has a separator in it. */
  lemma FragmentRoundTrip(url: string, items: Items)
    requires Distinct(items)
    ensures var printed := WithFragment(url, items);
      (StripFragment(printed) == url && HashesOf(printed) == Dictionary(items)) <==> ('#' !in url && AllPrintable(items))
  {
    var printed := WithFragment(url, items);
    if '#' in url {
      assert '#' !in StripFragment(printed);
    } else if items == [] {
      assert Find(url, '#') == |url|;
    } else {
      FirstHash(url, Joined(items));
      if AllPrintable(items) {
        JoinedSplits(items);
        PairsCollect(items);
      } else {
        var i :| 0 <= i < |items| && !Printable(items[i]);
        DictionaryHas(items, i);
        PartsAvoid(Joined(items), SEPARATORS);
        CollectedIsPlain(Split(Joined(items), SEPARATORS));
      }
    }
  }
}
