/** GET /api/artifacts: completed artifacts and in-progress workflow runs merged
    into one newest-first list of at most `limit` items. */
module ArtifactList {
  import opened Wrappers
  import opened Decimal
  import opened Upstream

  /** A workflow run as the runs endpoint reports it; `createdAt` is the parsed
      `created_at` timestamp. */
  datatype Run = Run(id: nat, name: Option<string>, createdAt: int)

  /** Upstream artifacts carry a numeric id, pending placeholders a synthetic text id. */
  datatype ItemId = ArtifactId(n: nat) | SyntheticId(s: string)

  /** One entry of the list returned to the browser. For an upstream artifact
      `isPending` is false (the field is absent, hence falsy). */
  datatype Item = Item(
    id: ItemId,
    name: string,
    createdAt: int,
    sizeInBytes: nat,
    expired: bool,
    isPending: bool,
    workflowRun: Option<nat>)

  const PendingName := "Building..."

  /** `run.name || 'Building...'`. */
  function PendingItemName(name: Option<string>): (r: string)
    ensures name.Some? && name.value != "" ==> r == name.value
    ensures name.None? || name.value == "" ==> r == PendingName
  {
    if name.Some? && name.value != "" then name.value else PendingName
  }

  /** The placeholder that stands for an in-progress run. */
  function PendingItem(run: Run): (item: Item)
    ensures IsPendingFor(item, run)
  {
    Item(SyntheticId("run-" + NatToDecimal(run.id)), PendingItemName(run.name),
         run.createdAt, 0, false, true, Some(run.id))
  }

  /** The shape of every placeholder. */
  predicate IsPendingFor(item: Item, run: Run) {
    && item.id == SyntheticId("run-" + NatToDecimal(run.id))
    && (item.name == if run.name.Some? && run.name.value != "" then run.name.value else PendingName)
    && item.createdAt == run.createdAt
    && item.sizeInBytes == 0
    && !item.expired
    && item.isPending
    && item.workflowRun == Some(run.id)
  }

  /** `runs.map(run => ...)`. */
  function PendingItems(runs: seq<Run>): (items: seq<Item>)
    ensures |items| == |runs|
    ensures forall i :: 0 <= i < |runs| ==> IsPendingFor(items[i], runs[i])
  {
    if runs == [] then [] else [PendingItem(runs[0])] + PendingItems(runs[1..])
  }

  /** The placeholder id names its run, and the run id can be read back from it. */
  lemma PendingIdNamesRun(run: Run)
    ensures var id := PendingItem(run).id.s;
      |id| > 4 && id[..4] == "run-" && DecimalValue(id[4..]) == run.id
  {
    var id := PendingItem(run).id.s;
    assert id[4..] == NatToDecimal(run.id);
    DecimalRoundTrip(run.id);
  }

  /** Two runs with different ids never share a placeholder id. */
  lemma PendingIdsDistinct(r1: Run, r2: Run)
    requires r1.id != r2.id
    ensures PendingItem(r1).id != PendingItem(r2).id
  {
    PendingIdNamesRun(r1);
    PendingIdNamesRun(r2);
  }

  /** `[...pendingArtifacts, ...artifacts]`, a missing array read as `[]`. */
  function Merged(artifacts: Option<seq<Item>>, runs: Option<seq<Run>>): (all: seq<Item>)
    ensures var rs := GetOr(runs, []);
      && |all| == |rs| + |GetOr(artifacts, [])|
      && (forall i :: 0 <= i < |rs| ==> IsPendingFor(all[i], rs[i]))
      && all[|rs|..] == GetOr(artifacts, [])
  {
    PendingItems(GetOr(runs, [])) + GetOr(artifacts, [])
  }

  /** A missing `artifacts` or `workflow_runs` array behaves as an empty one. */
  lemma MissingArraysAreEmpty(artifacts: Option<seq<Item>>, runs: Option<seq<Run>>)
    ensures Merged(None, runs) == Merged(Some([]), runs)
    ensures Merged(artifacts, None) == Merged(artifacts, Some([]))
  {
  }

  /** Latest first: no item is newer than any item before it. */
  predicate NewestFirst(s: seq<Item>) {
    forall p, q :: 0 <= p < q < |s| ==> s[p].createdAt >= s[q].createdAt
  }

  /** `sorted` holds exactly the items of `all`, newest first. */
  predicate IsNewestFirstArrangement(sorted: seq<Item>, all: seq<Item>) {
    NewestFirst(sorted) && multiset(sorted) == multiset(all)
  }

  /** The first `limit` items of some newest-first arrangement of `all`
      (which arrangement is left open: ties may come in any order). */
  ghost predicate IsNewestFirstPrefix(items: seq<Item>, all: seq<Item>, limit: nat) {
    && |items| == Min(limit, |all|)
    && exists sorted :: IsNewestFirstArrangement(sorted, all) && items <= sorted
  }

  method Swap(a: array<Item>, i: nat, j: nat)
    requires i < a.Length && j < a.Length
    modifies a
    ensures a[i] == old(a[j]) && a[j] == old(a[i])
    ensures forall k :: 0 <= k < a.Length && k != i && k != j ==> a[k] == old(a[k])
    ensures multiset(a[..]) == old(multiset(a[..]))
  {
    a[i], a[j] := a[j], a[i];
  }

  /** `.sort((a, b) => b.created_at - a.created_at)`, in place (insertion sort). */
  method SortNewestFirst(a: array<Item>)
    modifies a
    ensures NewestFirst(a[..])
    ensures multiset(a[..]) == old(multiset(a[..]))
  {
    var i := 0;
    while i < a.Length
      invariant 0 <= i <= a.Length
      invariant forall p, q :: 0 <= p < q < i ==> a[p].createdAt >= a[q].createdAt
      invariant multiset(a[..]) == old(multiset(a[..]))
    {
      var j := i;
      while j > 0 && a[j - 1].createdAt < a[j].createdAt
        invariant 0 <= j <= i
        invariant forall p, q :: 0 <= p < q <= i && p != j && q != j ==> a[p].createdAt >= a[q].createdAt
        invariant forall q :: j < q <= i ==> a[j].createdAt > a[q].createdAt
        invariant multiset(a[..]) == old(multiset(a[..]))
      {
        Swap(a, j - 1, j);
        j := j - 1;
      }
      i := i + 1;
    }
  }

  /** Lines 52-72: merge, sort latest first, keep the first `limit` items. */
  method ShapeList(limit: nat, artifacts: Option<seq<Item>>, runs: Option<seq<Run>>)
    returns (items: seq<Item>)
    ensures IsNewestFirstPrefix(items, Merged(artifacts, runs), limit)
  {
    var all := Merged(artifacts, runs);
    var a := new Item[|all|](i requires 0 <= i < |all| => all[i]);
    assert a[..] == all;
    SortNewestFirst(a);
    items := a[..Min(limit, a.Length)];
    assert IsNewestFirstArrangement(a[..], all);
  }

  lemma MultisetOfSplit(s: seq<Item>, k: nat)
    requires k <= |s|
    ensures multiset(s) == multiset(s[..k]) + multiset(s[k..])
  {
    assert s == s[..k] + s[k..];
  }

  /** In a newest-first arrangement, nothing past position `k` is newer than
      anything before it. */
  lemma TailNotNewer(sorted: seq<Item>, k: nat, x: Item, i: nat)
    requires NewestFirst(sorted) && k <= |sorted|
    requires x in multiset(sorted[k..]) && i < k
    ensures x.createdAt <= sorted[i].createdAt
  {
    assert x in sorted[k..];
    var j :| 0 <= j < |sorted| - k && sorted[k..][j] == x;
    assert sorted[k + j] == x;
  }

  /** What the prefix promises: it is sorted, it invents and duplicates nothing, it
      holds `min(limit, |all|)` items, and nothing left out is newer than anything
      kept. */
  lemma NewestFirstPrefixFacts(items: seq<Item>, all: seq<Item>, limit: nat)
    requires IsNewestFirstPrefix(items, all, limit)
    ensures |items| <= limit && (|items| == limit || |items| == |all|)
    ensures NewestFirst(items)
    ensures multiset(items) <= multiset(all)
    ensures forall x, i :: x in multiset(all) - multiset(items) && 0 <= i < |items| ==>
      x.createdAt <= items[i].createdAt
  {
    var sorted :| IsNewestFirstArrangement(sorted, all) && items <= sorted;
    var k := |items|;
    assert items == sorted[..k];
    MultisetOfSplit(sorted, k);
    assert multiset(all) - multiset(items) == multiset(sorted[k..]);
    forall x, i | x in multiset(all) - multiset(items) && 0 <= i < k
      ensures x.createdAt <= items[i].createdAt
    {
      TailNotNewer(sorted, k, x, i);
    }
  }

  /** Strictly latest first: no two items share a timestamp. */
  predicate StrictlyNewestFirst(s: seq<Item>) {
    forall p, q :: 0 <= p < q < |s| ==> s[p].createdAt > s[q].createdAt
  }

  /** Two such orders start with the same item. */
  lemma SameNewest(s: seq<Item>, e: seq<Item>)
    requires NewestFirst(s) && StrictlyNewestFirst(e) && multiset(s) == multiset(e)
    requires s != [] && e != []
    ensures s[0] == e[0]
  {
    assert s[0] in multiset(e) && e[0] in multiset(s);
    var j :| 0 <= j < |e| && e[j] == s[0];
    var i :| 0 <= i < |s| && s[i] == e[0];
    assert e[0].createdAt <= s[0].createdAt;
  }

  lemma MultisetOfTail(s: seq<Item>)
    requires s != []
    ensures multiset(s[1..]) == multiset(s) - multiset{s[0]}
  {
    assert s == [s[0]] + s[1..];
  }

  lemma {:induction false} ArrangementUnique(s: seq<Item>, e: seq<Item>)
    requires NewestFirst(s) && StrictlyNewestFirst(e) && multiset(s) == multiset(e)
    ensures s == e
  {
    assert |s| == |multiset(s)| == |e|;
    if s != [] {
      SameNewest(s, e);
      MultisetOfTail(s);
      MultisetOfTail(e);
      ArrangementUnique(s[1..], e[1..]);
      assert s == [s[0]] + s[1..] && e == [e[0]] + e[1..];
    }
  }

  /** When the timestamps are pairwise distinct, ties cannot arise and the list is
      determined: it is the first `limit` items of the one newest-first order. */
  lemma PrefixDetermined(items: seq<Item>, all: seq<Item>, limit: nat, e: seq<Item>)
    requires IsNewestFirstPrefix(items, all, limit)
    requires StrictlyNewestFirst(e) && multiset(e) == multiset(all)
    ensures |e| == |all| && items == e[..Min(limit, |all|)]
  {
    assert |e| == |multiset(e)| == |multiset(all)| == |all|;
    var sorted :| IsNewestFirstArrangement(sorted, all) && items <= sorted;
    ArrangementUnique(sorted, e);
  }

  /** A worked example: runs started at 50 and 25, artifacts created at 40 and 20. */
  const RunA := Run(7, Some("ci"), 50)
  const RunB := Run(8, None, 25)
  const PendingA := Item(SyntheticId("run-7"), "ci", 50, 0, false, true, Some(7))
  const PendingB := Item(SyntheticId("run-8"), "Building...", 25, 0, false, true, Some(8))
  const ArtifactA := Item(ArtifactId(11), "web", 40, 900, false, false, Some(1))
  const ArtifactB := Item(ArtifactId(12), "docs", 20, 500, true, false, Some(2))

  lemma ExampleMerged()
    ensures Merged(Some([ArtifactA, ArtifactB]), Some([RunA, RunB])) == [PendingA, PendingB, ArtifactA, ArtifactB]
  {
    assert DigitChar(7) == '7' && DigitChar(8) == '8';
    assert NatToDecimal(7) == "7" && NatToDecimal(8) == "8";
    assert "run-" + "7" == "run-7" && "run-" + "8" == "run-8";
    assert PendingItem(RunA) == PendingA && PendingItem(RunB) == PendingB;
    assert [RunA, RunB][1..] == [RunB] && [RunB][1..] == [];
    assert PendingItems([RunB]) == [PendingB];
  }

  lemma ExampleOrder()
    ensures StrictlyNewestFirst([PendingA, ArtifactA, PendingB, ArtifactB])
    ensures multiset([PendingA, ArtifactA, PendingB, ArtifactB]) ==
            multiset([PendingA, PendingB, ArtifactA, ArtifactB])
  {
    var e := [PendingA, ArtifactA, PendingB, ArtifactB];
    assert e[0].createdAt == 50 && e[1].createdAt == 40 && e[2].createdAt == 25 && e[3].createdAt == 20;
  }

  /** Whatever the limit, the example lists a prefix of run, artifact, run, artifact. */
  lemma ExampleDetermined(items: seq<Item>, limit: nat)
    requires IsNewestFirstPrefix(items, Merged(Some([ArtifactA, ArtifactB]), Some([RunA, RunB])), limit)
    ensures items == [PendingA, ArtifactA, PendingB, ArtifactB][..Min(limit, 4)]
  {
    ExampleMerged();
    ExampleOrder();
    PrefixDetermined(items, [PendingA, PendingB, ArtifactA, ArtifactB], limit,
                     [PendingA, ArtifactA, PendingB, ArtifactB]);
  }

  /** Pending and completed items interleave by timestamp instead of being grouped:
      with the default limit of 10 the example lists as run, artifact, run, artifact. */
  lemma InterleavingExample(items: seq<Item>)
    requires IsNewestFirstPrefix(items, Merged(Some([ArtifactA, ArtifactB]), Some([RunA, RunB])), 10)
    ensures items == [PendingA, ArtifactA, PendingB, ArtifactB]
  {
    ExampleDetermined(items, 10);
  }

  /** With a limit of 2 the older run and the older artifact are dropped. */
  lemma TruncationExample(items: seq<Item>)
    requires IsNewestFirstPrefix(items, Merged(Some([ArtifactA, ArtifactB]), Some([RunA, RunB])), 2)
    ensures items == [PendingA, ArtifactA]
  {
    ExampleDetermined(items, 2);
  }

  /** The listing's two upstream calls once settled: both fulfilled (each body may
      lack its array), or one of them rejected. */
  datatype Settled =
    | Fulfilled(artifacts: Option<seq<Item>>, runs: Option<seq<Run>>)
    | Rejected(error: UpstreamError)

  /** What the browser receives. */
  datatype ListResponse =
    | ListOk(artifacts: seq<Item>)
    | ListError(status: nat, message: string, details: Option<Body>)

  /** The handler: a shaped list on success, the upstream status (or 500) on failure. */
  method ListArtifacts(limit: nat, upstream: Settled) returns (response: ListResponse)
    ensures upstream.Fulfilled? ==> (
      && response.ListOk?
      && IsNewestFirstPrefix(response.artifacts, Merged(upstream.artifacts, upstream.runs), limit))
    ensures upstream.Rejected? ==> (
      && response.ListError?
      && response.status == ErrorStatus(upstream.error)
      && response.message == "Failed to fetch artifacts"
      && response.details == ErrorDetails(upstream.error))
  {
    match upstream
    case Fulfilled(artifacts, runs) =>
      var items := ShapeList(limit, artifacts, runs);
      response := ListOk(items);
    case Rejected(error) =>
      response := ListError(ErrorStatus(error), "Failed to fetch artifacts", ErrorDetails(error));
  }
}
