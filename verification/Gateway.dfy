/** The gateway's part of a search: dropping files by their published time range, and grouping the
    rest by agent (`GTHandler`). */
module Gateway {
  import opened TextIndexer
  import opened LogSearch
  import opened Buckets

  /** What an agent publishes about a file, as the gateway reads it. */
  datatype AgentFile = AgentFile(agentId: string, path: string, startTime: nat, endTime: nat)

  // ----- Time-range filter

  const WORD: nat := 0x1_0000_0000_0000_0000

  /** The gateway reads the times through a default of type `int`: a JSON number is narrowed to 32
      signed bits and then widened to 64 unsigned ones. */
  function Narrowed(t: nat): (r: nat)
    ensures t < 0x8000_0000 ==> r == t
  {
    var low := t % 0x1_0000_0000;
    if low < 0x8000_0000 then low else low + WORD - 0x1_0000_0000
  }

  /** The published range: the first and the last entry of the index, or 0 when there is none. */
  function Published(agentId: string, path: string, entries: seq<TimeIndex>): AgentFile {
    if entries == [] then AgentFile(agentId, path, 0, 0)
    else AgentFile(agentId, path, Narrowed(entries[0].timestamp), Narrowed(entries[|entries| - 1].timestamp))
  }

  predicate Dropped(f: AgentFile, s: nat, e: nat) {
    f.endTime < s || f.startTime > e
  }

  ghost predicate SortedTimes(entries: seq<TimeIndex>) {
    forall i, j :: 0 <= i < j < |entries| ==> entries[i].timestamp <= entries[j].timestamp
  }

  lemma {:induction false} FindCover(entries: seq<TimeIndex>, s: nat, e: nat, i: nat)
    requires i < |entries| - 1 && s <= e
    requires entries[i].timestamp <= e && entries[|entries| - 1].timestamp >= s
    ensures SomeCovers(entries, s, e)
    decreases |entries| - i
  {
    if entries[i + 1].timestamp >= s {
      assert Covers(entries, i, s, e);
    } else {
      FindCover(entries, s, e, i + 1);
    }
  }

  /** In a sorted index of two or more entries some neighbours cover the query exactly when the
      first and the last entry span it. */
  lemma CoveredIffSpanned(entries: seq<TimeIndex>, s: nat, e: nat)
    requires SortedTimes(entries) && |entries| >= 2 && s <= e
    ensures SomeCovers(entries, s, e) <==>
      entries[0].timestamp <= e && entries[|entries| - 1].timestamp >= s
  {
    if entries[0].timestamp <= e && entries[|entries| - 1].timestamp >= s {
      FindCover(entries, s, e, 0);
    }
  }

  /** As long as the times fit 31 bits, the gateway keeps a file exactly when the agent finds a
      window in its index, and every window has its start before its end. */
  lemma FilterAgreesWithAgent(agentId: string, path: string, entries: seq<TimeIndex>, s: nat, e: nat)
    requires SortedTimes(entries) && |entries| >= 2 && s <= e
    requires entries[|entries| - 1].timestamp < 0x8000_0000
    ensures !Dropped(Published(agentId, path, entries), s, e) <==> SomeCovers(entries, s, e)
    ensures SomeCovers(entries, s, e) <==> exists a: nat, b: nat :: a < b && IsWindow(entries, s, e, a, b)
  {
    CoveredIffSpanned(entries, s, e);
    if SomeCovers(entries, s, e) {
      WindowExists(entries, s, e);
    } else {
      forall a: nat, b: nat ensures !IsWindow(entries, s, e, a, b) {}
    }
  }

  ghost predicate FilterExact(f: AgentFile, entries: seq<TimeIndex>) {
    forall s: nat, e: nat :: s <= e ==> (!Dropped(f, s, e) <==> SomeCovers(entries, s, e))
  }

  /** A narrowed time past 31 bits lands either too low or far too high. */
  lemma NarrowedDiffers(first: nat, last: nat)
    requires first <= last && 0x8000_0000 <= last < 0x8000_0000_0000_0000
    ensures Narrowed(last) < last || Narrowed(last) > last
    ensures Narrowed(last) > last ==> Narrowed(last) >= last + 1
    ensures Narrowed(first) <= last + 1 || Narrowed(first) > last
  {
  }

  /** The filter is exact for every query if and only if the last time fits 31 bits: from 2038 on
      the narrowing breaks it. Times are below 2 to the 63. */
  lemma FilterExactIff(agentId: string, path: string, entries: seq<TimeIndex>)
    requires SortedTimes(entries) && |entries| >= 2
    requires entries[|entries| - 1].timestamp < 0x8000_0000_0000_0000
    ensures FilterExact(Published(agentId, path, entries), entries) <==>
      entries[|entries| - 1].timestamp < 0x8000_0000
  {
    var f, first, last := Published(agentId, path, entries), entries[0].timestamp, entries[|entries| - 1].timestamp;
    assert first <= last;
    if last < 0x8000_0000 {
      forall s: nat, e: nat | s <= e ensures !Dropped(f, s, e) <==> SomeCovers(entries, s, e) {
        FilterAgreesWithAgent(agentId, path, entries, s, e);
      }
    } else {
      CoveredIffSpanned(entries, last, last);
      CoveredIffSpanned(entries, last + 1, last + 1);
      assert !Dropped(f, last, last) ==> SomeCovers(entries, last, last);
      NarrowedDiffers(first, last);
      assert Dropped(f, last, last) || !Dropped(f, last + 1, last + 1);
    }
  }

  /** A file without entries is published with times 0, so only queries from 0 on reach its agent, and
      there they find no window. */
  lemma NoEntriesNoWindow(agentId: string, path: string, s: nat, e: nat, a: nat, b: nat)
    ensures !Dropped(Published(agentId, path, []), s, e) <==> s == 0
    ensures !IsWindow([], s, e, a, b)
  {
  }

  // ----- The results the filter leaves out

  function Kept(files: seq<AgentFile>, s: nat, e: nat): seq<AgentFile> {
    if files == [] then []
    else
      var n := |files| - 1;
      Kept(files[..n], s, e) + (if Dropped(files[n], s, e) then [] else [files[n]])
  }

  /** `remove_if` and `erase`: the files that are not dropped, in their order. */
  method FilterByTime(files: seq<AgentFile>, s: nat, e: nat) returns (kept: seq<AgentFile>)
    ensures kept == Kept(files, s, e)
  {
    kept := [];
    for i := 0 to |files|
      invariant kept == Kept(files[..i], s, e)
    {
      assert files[..i + 1][..i] == files[..i];
      if !Dropped(files[i], s, e) {
        kept := kept + [files[i]];
      }
    }
    assert files[..|files|] == files;
  }

  // ----- Fan-out

  /** The order `std::string` compares agent ids in. */
  predicate Less(a: string, b: string)
    decreases |a|
  {
    b != [] && (a == [] || a[0] < b[0] || (a[0] == b[0] && Less(a[1..], b[1..])))
  }

  lemma {:induction false} LessTotal(a: string, b: string)
    ensures a == b || Less(a, b) || Less(b, a)
    decreases |a|
  {
    if a != [] && b != [] {
      LessTotal(a[1..], b[1..]);
      assert a == [a[0]] + a[1..] && b == [b[0]] + b[1..];
    }
  }

  /** The first difference decides, and a string comes before its extensions. */
  lemma {:induction false} FirstDifferenceDecides(a: string, b: string, k: nat)
    requires k < |b| && k <= |a| && a[..k] == b[..k] && (k == |a| || a[k] < b[k])
    ensures Less(a, b) && !Less(b, a)
    decreases k
  {
    if k > 0 {
      assert a[0] == a[..k][0] == b[..k][0] == b[0];
      assert a[1..][..k - 1] == a[..k][1..] == b[..k][1..] == b[1..][..k - 1];
      FirstDifferenceDecides(a[1..], b[1..], k - 1);
    }
  }

  /** What `std::sort` by agent id guarantees, whatever it does with equal ids. */
  ghost predicate SortedByAgent(files: seq<AgentFile>) {
    forall i, j :: 0 <= i < j < |files| ==> !Less(files[j].agentId, files[i].agentId)
  }

  function Flatten(groups: seq<seq<AgentFile>>): seq<AgentFile> {
    if groups == [] then [] else Flatten(groups[..|groups| - 1]) + groups[|groups| - 1]
  }

  /** Groups are not empty, each is of one agent, and no agent has two. */
  ghost predicate Separated(groups: seq<seq<AgentFile>>) {
    && (forall g :: 0 <= g < |groups| ==> groups[g] != [])
    && (forall g, i :: 0 <= g < |groups| && 0 <= i < |groups[g]| ==> groups[g][i].agentId == groups[g][0].agentId)
    && (forall g, h :: 0 <= g < h < |groups| ==> groups[g][0].agentId != groups[h][0].agentId)
  }

  /** Between equal ids of a sorted list there are only equal ids. */
  lemma EqualIdsTouch(files: seq<AgentFile>, i: nat, j: nat, k: nat)
    requires i <= j <= k < |files| && SortedByAgent(files) && files[i].agentId == files[k].agentId
    ensures files[j].agentId == files[i].agentId
  {
    LessTotal(files[i].agentId, files[j].agentId);
  }

  /** Every group's id occurs among the first n files, and only the last group has the last id. */
  ghost predicate Grouped(groups: seq<seq<AgentFile>>, files: seq<AgentFile>, n: nat, lastId: string)
    requires n <= |files|
  {
    && Separated(groups) && (groups == [] <==> n == 0)
    && (n > 0 ==> lastId == files[n - 1].agentId == groups[|groups| - 1][0].agentId)
    && (forall g :: 0 <= g < |groups| ==> exists k :: 0 <= k < n && files[k].agentId == groups[g][0].agentId)
  }

  lemma NothingGrouped(files: seq<AgentFile>)
    ensures Flatten([]) == [] && Grouped([], files, 0, "")
  {
  }

  lemma FlattenAppend(groups: seq<seq<AgentFile>>, g: seq<AgentFile>)
    ensures Flatten(groups + [g]) == Flatten(groups) + g
  {
    assert (groups + [g])[..|groups|] == groups;
  }

  lemma FlattenExtend(groups: seq<seq<AgentFile>>, f: AgentFile)
    requires groups != []
    ensures var n := |groups| - 1; Flatten(groups[n := groups[n] + [f]]) == Flatten(groups) + [f]
  {
    var n := |groups| - 1;
    assert groups[n := groups[n] + [f]][..n] == groups[..n];
  }

  /** An id that differs from the last one is new. */
  lemma NewAgent(groups: seq<seq<AgentFile>>, files: seq<AgentFile>, i: nat, lastId: string)
    requires i < |files| && SortedByAgent(files) && Grouped(groups, files, i, lastId) && files[i].agentId != lastId
    ensures Grouped(groups + [[files[i]]], files, i + 1, files[i].agentId)
  {
    var f := files[i];
    forall g | 0 <= g < |groups| ensures groups[g][0].agentId != f.agentId {
      var k :| 0 <= k < i && files[k].agentId == groups[g][0].agentId;
      if files[k].agentId == f.agentId {
        EqualIdsTouch(files, k, i - 1, i);
      }
    }
    var groups': seq<seq<AgentFile>> := groups + [[f]];
    forall g | 0 <= g < |groups'| ensures exists k :: 0 <= k < i + 1 && files[k].agentId == groups'[g][0].agentId {
      if g < |groups| {
        var k :| 0 <= k < i && files[k].agentId == groups[g][0].agentId;
      } else {
        assert files[i].agentId == groups'[g][0].agentId;
      }
    }
  }

  lemma SameAgent(groups: seq<seq<AgentFile>>, files: seq<AgentFile>, i: nat, lastId: string)
    requires 0 < i < |files| && Grouped(groups, files, i, lastId) && files[i].agentId == lastId
    ensures groups != []
    ensures var n := |groups| - 1; Grouped(groups[n := groups[n] + [files[i]]], files, i + 1, lastId)
  {
    var n := |groups| - 1;
    var after: seq<seq<AgentFile>> := groups[n := groups[n] + [files[i]]];
    forall g | 0 <= g < |groups| ensures groups[g] != [] && after[g] != [] && after[g][0] == groups[g][0] {}
    forall g | 0 <= g < |groups| ensures exists k :: 0 <= k < i + 1 && files[k].agentId == after[g][0].agentId {
      var k :| 0 <= k < i && files[k].agentId == groups[g][0].agentId;
    }
    forall g, k | 0 <= g < |after| && 0 <= k < |after[g]| ensures after[g][k].agentId == after[g][0].agentId {
      if k < |groups[g]| {
        assert groups[g][k].agentId == groups[g][0].agentId;
      }
    }
  }

  /** Start a group whenever the id changes, and put each file into the last group. */
  method GroupByAgent(files: seq<AgentFile>) returns (groups: seq<seq<AgentFile>>)
    requires SortedByAgent(files) && forall i :: 0 <= i < |files| ==> files[i].agentId != ""
    ensures Flatten(groups) == files && Separated(groups)
  {
    hide SortedByAgent, Separated, Flatten;
    groups := [];
    var lastId := "";
    NothingGrouped(files);
    for i := 0 to |files|
      invariant Flatten(groups) == files[..i]
      invariant Grouped(groups, files, i, lastId) && (i == 0 ==> lastId == "")
    {
      hide Grouped;
      var f := files[i];
      assert files[..i + 1] == files[..i] + [f];
      if f.agentId != lastId {
        NewAgent(groups, files, i, lastId);
        FlattenAppend(groups, [f]);
        groups := groups + [[f]];
        lastId := f.agentId;
      } else {
        SameAgent(groups, files, i, lastId);
        FlattenExtend(groups, f);
        groups := groups[|groups| - 1 := groups[|groups| - 1] + [f]];
      }
    }
    assert files[..|files|] == files;
  }

  lemma {:induction false} FlattenHolds(groups: seq<seq<AgentFile>>, f: AgentFile)
    ensures f in Flatten(groups) <==> exists g :: 0 <= g < |groups| && f in groups[g]
  {
    if groups != [] {
      var n := |groups| - 1;
      FlattenHolds(groups[..n], f);
      if g :| 0 <= g < |groups| && f in groups[g] {
        if g < n {
          assert groups[..n][g] == groups[g];
        }
      }
    }
  }

  lemma {:induction false} KeptHolds(files: seq<AgentFile>, s: nat, e: nat, f: AgentFile)
    ensures f in Kept(files, s, e) <==> f in files && !Dropped(f, s, e)
  {
    if files != [] {
      var n := |files| - 1;
      KeptHolds(files[..n], s, e, f);
      assert files == files[..n] + [files[n]];
    }
  }

  /** A file in range is kept as often as it is there, and one out of range not at all. */
  lemma {:induction false} KeptCounts(files: seq<AgentFile>, s: nat, e: nat, f: AgentFile)
    ensures multiset(Kept(files, s, e))[f] == if f.endTime < s || f.startTime > e then 0 else multiset(files)[f]
    decreases |files|
  {
    if files != [] {
      var n := |files| - 1;
      KeptCounts(files[..n], s, e, f);
      assert files == files[..n] + [files[n]];
    }
  }

  /** The kept files keep their order. */
  lemma {:induction false} KeptOfAppend(x: seq<AgentFile>, y: seq<AgentFile>, s: nat, e: nat)
    ensures Kept(x + y, s, e) == Kept(x, s, e) + Kept(y, s, e)
    decreases |y|
  {
    if y == [] {
      assert x + y == x;
    } else {
      var n := |y| - 1;
      KeptOfAppend(x, y[..n], s, e);
      assert (x + y)[..|x| + n] == x + y[..n];
    }
  }

  lemma {:induction false} OneGroupCounts(groups: seq<seq<AgentFile>>, f: AgentFile, g: nat)
    requires g < |groups| && forall h :: 0 <= h < |groups| && f in groups[h] ==> h == g
    ensures multiset(Flatten(groups))[f] == multiset(groups[g])[f]
    decreases |groups|
  {
    var n := |groups| - 1;
    assert multiset(Flatten(groups)) == multiset(Flatten(groups[..n])) + multiset(groups[n]);
    if g < n {
      OneGroupCounts(groups[..n], f, g);
      assert f !in groups[n] && f !in multiset(groups[n]);
    } else {
      FlattenHolds(groups[..n], f);
      assert f !in Flatten(groups[..n]) && f !in multiset(Flatten(groups[..n]));
    }
  }

  /** Whatever order the sort puts equal ids in: a file is in a group exactly when it is in range, in
      no other group, and there as often as it was among the results. */
  lemma FanOutConserves(files: seq<AgentFile>, s: nat, e: nat, arranged: seq<AgentFile>, groups: seq<seq<AgentFile>>)
    requires multiset(arranged) == multiset(Kept(files, s, e))
    requires Flatten(groups) == arranged && Separated(groups)
    ensures forall f :: f in files && f.endTime >= s && f.startTime <= e <==> exists g :: 0 <= g < |groups| && f in groups[g]
    ensures forall f, g, h :: 0 <= g < |groups| && f in groups[g] && 0 <= h < |groups| && f in groups[h] ==> g == h
    ensures forall f, g :: 0 <= g < |groups| && f in groups[g] ==> multiset(groups[g])[f] == multiset(files)[f]
  {
    forall f
      ensures f in files && f.endTime >= s && f.startTime <= e <==> exists g :: 0 <= g < |groups| && f in groups[g]
    {
      FlattenHolds(groups, f);
      KeptHolds(files, s, e, f);
      assert f in arranged <==> f in multiset(arranged);
      assert f in Kept(files, s, e) <==> f in multiset(Kept(files, s, e));
    }
    forall f, g | 0 <= g < |groups| && f in groups[g] ensures multiset(groups[g])[f] == multiset(files)[f] {
      OneGroupCounts(groups, f, g);
      KeptCounts(files, s, e, f);
    }
  }

  // ----- Index ranges of the coroutines

  /** The i-th coroutine serves the agents from `i * per` up to the next one's first, or the end. */
  predicate Serves(i: nat, j: nat, per: nat, total: nat) {
    i * per <= j < (if i * per + per < total then i * per + per else total)
  }

  /** No other coroutine than the (j / per)-th serves agent j. */
  lemma ServedByQuotient(i: nat, k: nat, j: nat, per: nat, total: nat)
    requires per > 0 && i * per <= j < i * per + per && Serves(k, j, per, total)
    ensures k == i
  {
    MulOrder(per, k + 1, i);
    MulOrder(per, i + 1, k);
  }

  lemma QuotientBelow(total: nat, per: nat, j: nat)
    requires per > 0 && j < total
    ensures j / per < (total + per - 1) / per
  {
    var i, n := j / per, (total + per - 1) / per;
    assert j >= per * i;
    assert total <= per * n;
    MulOrder(per, n, i);
  }

  /** With the ceiling of total / per coroutines every agent is served by exactly one of them. */
  lemma EveryAgentServedOnce(total: nat, per: nat, j: nat)
    requires per > 0 && j < total
    ensures exists i: nat :: (
      i < (total + per - 1) / per && Serves(i, j, per, total) && (forall k: nat :: Serves(k, j, per, total) ==> k == i))
  {
    var i := j / per;
    assert i * per <= j < i * per + per;
    assert Serves(i, j, per, total);
    QuotientBelow(total, per, j);
    forall k: nat | Serves(k, j, per, total) ensures k == i {
      ServedByQuotient(i, k, j, per, total);
    }
  }
}
