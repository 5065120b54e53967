/** Which wheels of a project may be extracted: the newest few that lack metadata. */
module Candidates {
  import opened Wrappers
  import opened Text
  import opened Counting
  import SimpleFile

  /** A listed file and what parsing its name as a wheel's gives: the place of its
      version in the version order, or nothing. */
  datatype Listed = Listed(file: SimpleFile.File, version: Option<real>)

  /** A version and the position of its file in the listing. */
  datatype Rank = Rank(version: real, index: nat)

  predicate Advertises(m: SimpleFile.Meta) {
    m == SimpleFile.Flag(true) || m.Raw? || m.Hashes?
  }

  /** Metadata is looked for where it is missing or denied. */
  predicate NeedsProbe(f: SimpleFile.File) {
    !Advertises(f.core) && !Advertises(f.dist)
  }

  predicate Eligible(l: Listed) {
    NeedsProbe(l.file) && EndsWith(Lower(l.file.filename), ".whl") && l.version.Some?
  }

  /** A wheel with a version, for which metadata is neither advertised in one field nor in
      the other. */
  lemma EligibleExactly(l: Listed)
    ensures Eligible(l) <==>
      && (l.file.core == SimpleFile.Absent || l.file.core == SimpleFile.Flag(false))
      && (l.file.dist == SimpleFile.Absent || l.file.dist == SimpleFile.Flag(false))
      && (exists stem: string, end: string :: l.file.filename == stem + end && Lower(end) == ".whl")
      && l.version.Some?
  {
    var name := l.file.filename;
    if EndsWith(Lower(name), ".whl") {
      var stem, end := name[..|name| - 4], name[|name| - 4..];
      assert name == stem + end && Lower(end) == Lower(name)[|name| - 4..];
    }
    if stem: string, end: string :| name == stem + end && Lower(end) == ".whl" {
      assert |end| == |Lower(end)| == 4 && Lower(name)[|name| - 4..] == Lower(end);
    }
  }

  function Limit(configured: int): nat {
    if configured < 0 then 0 else configured
  }

  /** Newer first; files of one version keep their order. */
  predicate Beats(a: Rank, b: Rank) {
    a.version > b.version || (a.version == b.version && a.index < b.index)
  }

  function RankOf(files: seq<Listed>, i: nat): Rank
    requires i < |files| && Eligible(files[i])
  {
    Rank(files[i].version.value, i)
  }

  // ------------------------------------------------------------------- the algorithm

  function Ranked(files: seq<Listed>): (ranked: seq<Rank>)
    ensures forall r <- ranked :: r.index < |files| && Eligible(files[r.index]) && r == RankOf(files, r.index)
    ensures forall i: nat :: i < |files| && Eligible(files[i]) ==> RankOf(files, i) in ranked
    ensures forall p, q :: 0 <= p < q < |ranked| ==> ranked[p].index < ranked[q].index
  {
    if files == [] then []
    else
      var init, last := files[..|files| - 1], files[|files| - 1];
      Ranked(init) + if Eligible(last) then [Rank(last.version.value, |files| - 1)] else []
  }

  /** Insertion after everything that is at least as new, looking at versions only. */
  function Insert(sorted: seq<Rank>, r: Rank): (result: seq<Rank>)
    ensures multiset(result) == multiset(sorted) + multiset{r}
  {
    if sorted == [] then [r]
    else
      var init, last := sorted[..|sorted| - 1], sorted[|sorted| - 1];
      assert sorted == init + [last];
      if last.version >= r.version then sorted + [r] else Insert(init, r) + [last]
  }

  /** The stable sort by descending version. */
  function StableSort(ranked: seq<Rank>): (sorted: seq<Rank>)
    ensures multiset(sorted) == multiset(ranked)
  {
    if ranked == [] then []
    else
      assert ranked == ranked[..|ranked| - 1] + [ranked[|ranked| - 1]];
      Insert(StableSort(ranked[..|ranked| - 1]), ranked[|ranked| - 1])
  }

  predicate Ordered(s: seq<Rank>) {
    forall p, q :: 0 <= p < q < |s| ==> Beats(s[p], s[q])
  }

  lemma {:induction false} InsertKeepsOrder(sorted: seq<Rank>, r: Rank)
    requires Ordered(sorted) && forall x <- sorted :: x.index < r.index
    ensures Ordered(Insert(sorted, r))
  {
    if sorted != [] {
      var init, last := sorted[..|sorted| - 1], sorted[|sorted| - 1];
      if last.version < r.version {
        InsertKeepsOrder(init, r);
        forall x <- Insert(init, r)
          ensures Beats(x, last)
        {
          assert x in multiset(init) + multiset{r};
        }
      }
    }
  }

  /** The sort is stable: files of one version stay in listing order. */
  lemma {:induction false} SortIsStable(ranked: seq<Rank>)
    requires forall p, q :: 0 <= p < q < |ranked| ==> ranked[p].index < ranked[q].index
    ensures Ordered(StableSort(ranked))
  {
    if ranked != [] {
      var init, last := ranked[..|ranked| - 1], ranked[|ranked| - 1];
      SortIsStable(init);
      forall x <- StableSort(init)
        ensures x.index < last.index
      {
        assert x in multiset(init);
      }
      InsertKeepsOrder(StableSort(init), last);
    }
  }

  // -------------------------------------------------------------------- what it means

  /** The eligible files that come before a given one. */
  function Better(files: seq<Listed>, i: nat): set<nat>
    requires i < |files| && Eligible(files[i])
  {
    set j: nat | j < |files| && Eligible(files[j]) && Beats(RankOf(files, j), RankOf(files, i))
  }

  function EligibleIndexes(files: seq<Listed>): set<nat> {
    set i: nat | i < |files| && Eligible(files[i])
  }

  /** The eligible files with fewer than `limit` better ones. */
  function Newest(files: seq<Listed>, limit: nat): set<nat> {
    set i: nat | i < |files| && Eligible(files[i]) && |Better(files, i)| < limit
  }

  function Indexes(s: seq<Rank>): set<nat> {
    set r | r in s :: r.index
  }

  lemma {:induction false} IndexesOfOrdered(s: seq<Rank>)
    requires forall p, q :: 0 <= p < q < |s| ==> s[p].index != s[q].index
    ensures |Indexes(s)| == |s|
  {
    if s != [] {
      var init, last := s[..|s| - 1], s[|s| - 1];
      IndexesOfOrdered(init);
      assert Indexes(s) == Indexes(init) + {last.index};
    }
  }

  /** The sorted list of all eligible files. */
  ghost predicate Listing(files: seq<Listed>, sorted: seq<Rank>) {
    && Ordered(sorted)
    && (forall r <- sorted :: r.index < |files| && Eligible(files[r.index]) && r == RankOf(files, r.index))
    && (forall i: nat :: i < |files| && Eligible(files[i]) ==> RankOf(files, i) in sorted)
  }

  lemma SortedListing(files: seq<Listed>)
    ensures Listing(files, StableSort(Ranked(files)))
  {
    var ranked := Ranked(files);
    SortIsStable(ranked);
    forall r
      ensures r in StableSort(ranked) <==> r in ranked
    {
      assert r in multiset(ranked) <==> r in multiset(StableSort(ranked));
    }
  }

  lemma ListingHasNoRepeats(files: seq<Listed>, sorted: seq<Rank>)
    requires Listing(files, sorted)
    ensures forall p, q :: 0 <= p < q < |sorted| ==> sorted[p].index != sorted[q].index
  {
  }

  lemma PlaceCountsBetter(files: seq<Listed>, sorted: seq<Rank>, p: nat)
    requires Listing(files, sorted) && p < |sorted|
    ensures |Better(files, sorted[p].index)| == p
  {
    var i := sorted[p].index;
    assert sorted[p] == RankOf(files, i);
    assert Better(files, i) == Indexes(sorted[..p]) by {
      forall j | j in Better(files, i)
        ensures j in Indexes(sorted[..p])
      {
        var r := RankOf(files, j);
        assert r in sorted;
        var q :| 0 <= q < |sorted| && sorted[q] == r;
        assert q < p;
        assert sorted[..p][q] == r;
      }
      forall j | j in Indexes(sorted[..p])
        ensures j in Better(files, i)
      {
        var r :| r in sorted[..p] && r.index == j;
        var q :| 0 <= q < p && sorted[q] == r;
      }
    }
    ListingHasNoRepeats(files, sorted);
    IndexesOfOrdered(sorted[..p]);
  }

  function Min(a: nat, b: nat): nat {
    if a < b then a else b
  }

  lemma PrefixIsNewest(files: seq<Listed>, sorted: seq<Rank>, limit: nat)
    requires Listing(files, sorted)
    ensures Indexes(sorted[..Min(limit, |sorted|)]) == Newest(files, limit)
    ensures |Newest(files, limit)| == Min(limit, |sorted|) && |EligibleIndexes(files)| == |sorted|
  {
    var top := sorted[..Min(limit, |sorted|)];
    ListingHasNoRepeats(files, sorted);
    forall i | i in EligibleIndexes(files)
      ensures i in Indexes(top) <==> i in Newest(files, limit)
      ensures i in Indexes(sorted)
    {
      assert RankOf(files, i) in sorted;
      var p :| 0 <= p < |sorted| && sorted[p] == RankOf(files, i);
      PlaceCountsBetter(files, sorted, p);
      if p < |top| {
        assert top[p] == sorted[p];
      }
      if i in Indexes(top) {
        var q :| 0 <= q < |top| && top[q].index == i;
        assert sorted[q].index == sorted[p].index;
        assert q == p;
      }
    }
    assert Indexes(sorted) == EligibleIndexes(files);
    assert Indexes(top) <= EligibleIndexes(files);
    assert Indexes(top) == Newest(files, limit);
    IndexesOfOrdered(sorted);
    IndexesOfOrdered(top);
  }

  lemma RankedNext(files: seq<Listed>, n: nat)
    requires n < |files|
    ensures Ranked(files[..n + 1])
      == Ranked(files[..n]) + if Eligible(files[n]) then [Rank(files[n].version.value, n)] else []
  {
    assert files[..n + 1][..n] == files[..n];
  }

  method RankFiles(files: seq<Listed>) returns (ranked: seq<Rank>)
    ensures ranked == Ranked(files)
  {
    ranked := [];
    for index := 0 to |files|
      invariant ranked == Ranked(files[..index])
    {
      RankedNext(files, index);
      if Eligible(files[index]) {
        ranked := ranked + [Rank(files[index].version.value, index)];
      }
    }
    assert files[..|files|] == files;
  }

  method IndexSet(ranks: seq<Rank>) returns (indexes: set<nat>)
    ensures indexes == Indexes(ranks)
  {
    indexes := {};
    for k := 0 to |ranks|
      invariant indexes == Indexes(ranks[..k])
    {
      assert ranks[..k + 1] == ranks[..k] + [ranks[k]];
      indexes := indexes + {ranks[k].index};
    }
    assert ranks[..|ranks|] == ranks;
  }

  /** Collect, sort, cut: the result is exactly the newest eligible files. */
  method ExtractionCandidateIndexes(files: seq<Listed>, configured: int) returns (chosen: set<nat>)
    ensures chosen == Newest(files, Limit(configured))
    ensures |chosen| == if configured <= 0 then 0 else Min(configured, |EligibleIndexes(files)|)
  {
    var limit := Limit(configured);
    var ranked := RankFiles(files);
    ranked := StableSort(ranked);
    SortedListing(files);
    PrefixIsNewest(files, ranked, limit);
    chosen := IndexSet(ranked[..Min(limit, |ranked|)]);
  }

  /** Every chosen file beats every eligible file left out. */
  lemma ChosenBeatTheRest(files: seq<Listed>, limit: nat, i: nat, j: nat)
    requires i in Newest(files, limit) && j in EligibleIndexes(files) && j !in Newest(files, limit)
    ensures Eligible(files[i]) && Eligible(files[j])
    ensures files[i].version.value > files[j].version.value || (files[i].version == files[j].version && i < j)
  {
    if !Beats(RankOf(files, i), RankOf(files, j)) {
      assert Better(files, j) <= Better(files, i);
      SubsetIsNoLarger(Better(files, j), Better(files, i));
    }
  }

  /** And no other set of as many eligible files does. */
  lemma NewestIsUnique(files: seq<Listed>, limit: nat, other: set<nat>)
    requires other <= EligibleIndexes(files) && |other| == |Newest(files, limit)|
    requires forall i, j :: i in other && j in EligibleIndexes(files) && j !in other ==> Beats(RankOf(files, i), RankOf(files, j))
    ensures other == Newest(files, limit)
  {
    var newest := Newest(files, limit);
    if other <= newest {
      SameSize(other, newest);
    } else if newest <= other {
      SameSize(newest, other);
    } else {
      var i :| i in other && i !in newest;
      var j :| j in newest && j !in other;
      ChosenBeatTheRest(files, limit, j, i);
    }
  }

  // --------------------------------------------------------- probing them in batches

  /** What looking for one wheel's metadata found. */
  datatype Resolution = Unresolved | Native | Generated(sha256: string)

  /** A probed file gains an advertisement or stays as it is. */
  function Probed(f: SimpleFile.File, found: Resolution): SimpleFile.File {
    if !NeedsProbe(f) then f
    else
      match found
      case Unresolved => f
      case Native => f.(core := SimpleFile.Flag(true))
      case Generated(sha256) => f.(core := SimpleFile.Hashes(map["sha256" := sha256]))
  }

  method Sorted(indexes: set<nat>, length: nat) returns (sorted: seq<nat>)
    requires forall i <- indexes :: i < length
    ensures forall i :: i in sorted <==> i in indexes
    ensures forall p, q :: 0 <= p < q < |sorted| ==> sorted[p] < sorted[q]
  {
    sorted := [];
    for i: nat := 0 to length
      invariant forall k :: k in sorted <==> k in indexes && k < i
      invariant forall p :: 0 <= p < |sorted| ==> sorted[p] < i
      invariant forall p, q :: 0 <= p < q < |sorted| ==> sorted[p] < sorted[q]
    {
      if i in indexes {
        sorted := sorted + [i];
      }
    }
  }

  /** The files after the probes of some of them. */
  ghost predicate ProbedAt(files: seq<Listed>, newFiles: seq<SimpleFile.File>, done: seq<nat>, resolve: nat -> Resolution) {
    && |newFiles| == |files|
    && forall i: nat :: i < |files| ==> newFiles[i] == if i in done then Probed(files[i].file, resolve(i)) else files[i].file
  }

  /** One batch: the results are put back in the order of the batch. */
  method PutBack(files: seq<Listed>, newFiles: seq<SimpleFile.File>, ghost done: seq<nat>, batch: seq<nat>, resolve: nat -> Resolution)
    returns (updated: seq<SimpleFile.File>)
    requires ProbedAt(files, newFiles, done, resolve) && forall k :: 0 <= k < |batch| ==> batch[k] < |files|
    ensures ProbedAt(files, updated, done + batch, resolve)
  {
    updated := newFiles;
    for k := 0 to |batch|
      invariant ProbedAt(files, updated, done + batch[..k], resolve)
    {
      var index := batch[k];
      updated := updated[index := Probed(files[index].file, resolve(index))];
      assert batch[..k + 1] == batch[..k] + [index];
    }
    assert batch[..|batch|] == batch;
  }

  method ProbeBatches(files: seq<Listed>, indexes: seq<nat>, batchSize: nat, resolve: nat -> Resolution)
    returns (newFiles: seq<SimpleFile.File>)
    requires batchSize > 0 && forall k :: 0 <= k < |indexes| ==> indexes[k] < |files|
    ensures ProbedAt(files, newFiles, indexes, resolve)
  {
    newFiles := seq(|files|, i requires 0 <= i < |files| => files[i].file);
    var offset: nat := 0;
    while offset < |indexes|
      invariant offset <= |indexes|
      invariant ProbedAt(files, newFiles, indexes[..offset], resolve)
      decreases |indexes| - offset
    {
      hide ProbedAt;
      var end := Min(offset + batchSize, |indexes|);
      newFiles := PutBack(files, newFiles, indexes[..offset], indexes[offset..end], resolve);
      assert indexes[..end] == indexes[..offset] + indexes[offset..end];
      offset := end;
    }
    assert indexes[..|indexes|] == indexes;
  }

  method AnyGained(files: seq<Listed>, newFiles: seq<SimpleFile.File>) returns (changed: bool)
    requires |newFiles| == |files|
    ensures changed <==> exists i :: 0 <= i < |files| && !NeedsProbe(newFiles[i]) && NeedsProbe(files[i].file)
  {
    hide NeedsProbe;
    changed := false;
    for i := 0 to |files|
      invariant changed <==> exists k :: 0 <= k < i && !NeedsProbe(newFiles[k]) && NeedsProbe(files[k].file)
    {
      if !NeedsProbe(newFiles[i]) && NeedsProbe(files[i].file) {
        changed := true;
      }
    }
  }

  lemma ProbingGains(f: SimpleFile.File, found: Resolution)
    requires NeedsProbe(f)
    ensures NeedsProbe(Probed(f, found)) <==> found.Unresolved?
    ensures Probed(f, found) == match found
      case Unresolved => f
      case Native => f.(core := SimpleFile.Flag(true))
      case Generated(sha256) => f.(core := SimpleFile.Hashes(map["sha256" := sha256]))
  {
  }

  /** However the candidates are batched, exactly they are probed, every other file is
      left alone, and a change is reported exactly when one of them was resolved. */
  method ExtractInBatches(files: seq<Listed>, configured: int, concurrency: int, resolve: nat -> Resolution)
    returns (newFiles: seq<SimpleFile.File>, changed: bool)
    ensures |newFiles| == |files|
    ensures forall i: nat :: i < |files| ==>
      newFiles[i] == if i !in Newest(files, Limit(configured)) then files[i].file
                     else match resolve(i)
                       case Unresolved => files[i].file
                       case Native => files[i].file.(core := SimpleFile.Flag(true))
                       case Generated(sha256) => files[i].file.(core := SimpleFile.Hashes(map["sha256" := sha256]))
    ensures changed <==> exists i :: i in Newest(files, Limit(configured)) && !resolve(i).Unresolved?
  {
    var chosen := ExtractionCandidateIndexes(files, configured);
    var indexes := Sorted(chosen, |files|);
    forall k | 0 <= k < |indexes|
      ensures indexes[k] < |files|
    {
      assert indexes[k] in chosen;
    }
    newFiles := ProbeBatches(files, indexes, if concurrency < 1 then 1 else concurrency, resolve);
    changed := AnyGained(files, newFiles);
    assert forall i <- chosen :: Eligible(files[i]);
    forall i | i in chosen
      ensures NeedsProbe(files[i].file) && (NeedsProbe(newFiles[i]) <==> resolve(i).Unresolved?)
    {
      ProbingGains(files[i].file, resolve(i));
    }
    hide NeedsProbe;
    hide Probed;
    hide Newest;
  }
}
