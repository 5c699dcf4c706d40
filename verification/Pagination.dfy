/** Offset pagination of contracts and index pagination of SCIM lists (section 3.4.2.4 of RFC 7644). */
module Pagination {
  import opened Outcomes

  /** A query parameter that is missing or no integer is None. */
  type Param = Option<int>

  function Clamp(n: int, lo: int, hi: int): int {
    if n < lo then lo else if n > hi then hi else n
  }

  /** queryset[from:from + n] */
  function Slice<T>(xs: seq<T>, from: nat, n: nat): seq<T> {
    if from >= |xs| then [] else if from + n > |xs| then xs[from..] else xs[from..from + n]
  }

  // ---- contracts ----

  datatype Page<T> = Page(total: nat, limit: nat, offset: nat, next: Option<nat>, previous: Option<nat>,
      resources: seq<T>)

  function Limit(limit: Param): nat {
    Clamp(if limit.Some? then limit.value else 25, 0, 100)
  }

  function ContractPage<T>(xs: seq<T>, limit: Param, offset: Param): Page<T> {
    var lim := Limit(limit);
    var off := if offset.Some? && offset.value > 0 then offset.value else 0;
    Page(|xs|, lim, off,
         if off + lim < |xs| then Some(off + lim) else None,
         if off > 0 && lim != 0 then Some(if off < lim then 0 else off - lim) else None,
         if lim != 0 then Slice(xs, off, lim) else [])
  }

  /** A page in full: without a limit 25 rows are asked for, with one at most 100 and never fewer than none; without
      an offset, or with a negative one, the page starts at the first row. */
  lemma {:induction false} PageExactly<T>(xs: seq<T>, limit: Param, offset: Param)
    ensures var page := ContractPage(xs, limit, offset);
            && page.total == |xs|
            && (limit == None ==> page.limit == 25)
            && (limit.Some? && 0 <= limit.value <= 100 ==> page.limit == limit.value)
            && (limit.Some? && limit.value < 0 ==> page.limit == 0)
            && (limit.Some? && limit.value > 100 ==> page.limit == 100)
            && (offset.Some? && offset.value >= 0 ==> page.offset == offset.value)
            && (offset == None || offset.value < 0 ==> page.offset == 0)
            && (page.offset < |xs| ==> |page.resources| == Least(page.limit, |xs| - page.offset))
            && (page.offset >= |xs| ==> page.resources == [])
            && (forall i :: 0 <= i < |page.resources| ==> page.resources[i] == xs[page.offset + i])
            && (page.next == None <==> page.offset + page.limit >= |xs|)
            && (page.next.Some? ==> page.next.value == page.offset + page.limit)
            && (page.previous == None <==> page.offset == 0 || page.limit == 0)
            && (page.previous.Some? ==> page.previous.value == page.offset - Least(page.offset, page.limit))
  {
  }

  function Least(m: nat, n: nat): nat {
    if m <= n then m else n
  }

  /** The pages met by following next_offset. */
  function Forward<T>(xs: seq<T>, limit: Param, offset: nat): seq<Page<T>>
    requires Limit(limit) >= 1
    decreases if offset < |xs| then |xs| - offset else 0
  {
    var page := ContractPage(xs, limit, Some(offset));
    [page] + (if page.next.Some? then Forward(xs, limit, page.next.value) else [])
  }

  function Joined<T>(pages: seq<Page<T>>): seq<T> {
    if pages == [] then [] else pages[0].resources + Joined(pages[1..])
  }

  lemma {:induction false} JoinedCons<T>(page: Page<T>, rest: seq<Page<T>>)
    ensures Joined([page] + rest) == page.resources + Joined(rest)
  {
    assert ([page] + rest)[1..] == rest;
  }

  /** Following next_offset visits every item once and in order. */
  lemma {:induction false} ForwardTiles<T>(xs: seq<T>, limit: Param, offset: nat)
    requires Limit(limit) >= 1 && offset <= |xs|
    ensures Joined(Forward(xs, limit, offset)) == xs[offset..]
    decreases |xs| - offset
  {
    var page := ContractPage(xs, limit, Some(offset));
    PageReaches(xs, limit, offset);
    if page.next.Some? {
      var rest := Forward(xs, limit, page.next.value);
      ForwardTiles(xs, limit, page.next.value);
      JoinedCons(page, rest);
    } else {
      JoinedCons(page, []);
      assert page.resources + [] == page.resources;
    }
  }

  lemma {:induction false} PageReaches<T>(xs: seq<T>, limit: Param, offset: nat)
    requires Limit(limit) >= 1 && offset <= |xs|
    ensures var page := ContractPage(xs, limit, Some(offset));
            if page.next.Some? then
              offset < page.next.value < |xs| && page.resources + xs[page.next.value..] == xs[offset..]
            else page.resources == xs[offset..]
  {
  }

  /** Every page is the answer at its own offset, names the next page's offset as next, and is named
      as previous by that page. */
  ghost predicate Linked<T>(xs: seq<T>, limit: Param, walk: seq<Page<T>>) {
    && (forall i :: 0 <= i < |walk| ==> walk[i] == ContractPage(xs, limit, Some(walk[i].offset)))
    && (forall i :: 0 <= i < |walk| - 1 ==>
          walk[i].next == Some(walk[i + 1].offset) && walk[i + 1].previous == Some(walk[i].offset))
  }

  lemma {:induction false} ForwardLinked<T>(xs: seq<T>, limit: Param, offset: nat)
    requires Limit(limit) >= 1
    ensures var walk := Forward(xs, limit, offset);
            Linked(xs, limit, walk) && walk[0].offset == offset && walk[|walk| - 1].next == None
    decreases if offset < |xs| then |xs| - offset else 0
  {
    var page := ContractPage(xs, limit, Some(offset));
    if page.next.Some? {
      var rest := Forward(xs, limit, page.next.value);
      ForwardLinked(xs, limit, page.next.value);
      assert Forward(xs, limit, offset) == [page] + rest;
    } else {
      assert Forward(xs, limit, offset) == [page];
    }
  }

  /** The pages met by following previous_offset. */
  function Backward<T>(xs: seq<T>, limit: Param, offset: nat): seq<Page<T>>
    requires Limit(limit) >= 1
    decreases offset
  {
    var page := ContractPage(xs, limit, Some(offset));
    [page] + (if page.previous.Some? then Backward(xs, limit, page.previous.value) else [])
  }

  function Reversed<T>(xs: seq<T>): seq<T> {
    if xs == [] then [] else [xs[|xs| - 1]] + Reversed(xs[..|xs| - 1])
  }

  lemma {:induction false} BackwardRetraces<T>(xs: seq<T>, limit: Param, walk: seq<Page<T>>, n: nat)
    requires Limit(limit) >= 1 && Linked(xs, limit, walk) && n < |walk| && walk[0].offset == 0
    ensures Backward(xs, limit, walk[n].offset) == Reversed(walk[..n + 1])
  {
    var part := walk[..n + 1];
    assert part[|part| - 1] == walk[n] && part[..|part| - 1] == walk[..n];
    if n == 0 {
    } else {
      BackwardRetraces(xs, limit, walk, n - 1);
      assert walk[n].previous == Some(walk[n - 1].offset);
    }
  }

  /** A walk from the start is the whole list, page by page; walking back from its last page along
      previous_offset meets the very same pages in reverse. */
  lemma {:induction false} WalkAndRetrace<T>(xs: seq<T>, limit: Param)
    requires Limit(limit) >= 1
    ensures var walk := Forward(xs, limit, 0);
            Joined(walk) == xs && walk[|walk| - 1].next == None
            && Backward(xs, limit, walk[|walk| - 1].offset) == Reversed(walk)
  {
    var walk := Forward(xs, limit, 0);
    ForwardTiles(xs, limit, 0);
    ForwardLinked(xs, limit, 0);
    BackwardRetraces(xs, limit, walk, |walk| - 1);
    assert walk[..|walk|] == walk;
  }

  /** With a limit of 0 a walk never moves on: every page before the end names its own offset as the next one. */
  lemma {:induction false} ZeroLimitStandsStill<T>(xs: seq<T>, limit: Param, offset: nat)
    requires offset < |xs|
    ensures ContractPage(xs, limit, Some(offset)).next == Some(offset) <==> (limit.Some? && limit.value <= 0)
  {
  }

  // ---- SCIM ----

  datatype ScimPage<T> = ScimPage(total: nat, startIndex: nat, count: nat, resources: seq<T>)

  function ScimList<T>(xs: seq<T>, startIndex: Param, count: Param): ScimPage<T> {
    var start := if startIndex.Some? && startIndex.value > 1 then startIndex.value else 1;
    var n := if count.None? then |xs| else if count.value < 0 then 0 else count.value;
    ScimPage(|xs|, start, n, if n != 0 then Slice(xs, start - 1, n) else [])
  }

  /** A SCIM page in full: it starts at index 1 unless a larger index is given, and holds as many resources as asked
      for, all of them when no number is given and none when it is negative. */
  lemma {:induction false} ScimPageExactly<T>(xs: seq<T>, startIndex: Param, count: Param)
    ensures var page := ScimList(xs, startIndex, count);
            && page.total == |xs|
            && (startIndex.Some? && startIndex.value >= 1 ==> page.startIndex == startIndex.value)
            && (startIndex == None || startIndex.value < 1 ==> page.startIndex == 1)
            && (count.Some? && count.value >= 0 ==> page.count == count.value)
            && (count.Some? && count.value < 0 ==> page.count == 0)
            && (count == None ==> page.count == |xs|)
            && (page.startIndex <= |xs| ==> |page.resources| == Least(page.count, |xs| - page.startIndex + 1))
            && (page.startIndex > |xs| ==> page.resources == [])
            && (forall i :: 0 <= i < |page.resources| ==> page.resources[i] == xs[page.startIndex - 1 + i])
  {
  }

  /** All resources met by asking again from startIndex + count until the total is passed. */
  function ScimWalk<T>(xs: seq<T>, startIndex: nat, count: nat): seq<T>
    requires startIndex >= 1 && count >= 1
    decreases if startIndex <= |xs| then |xs| - startIndex + 1 else 0
  {
    var page := ScimList(xs, Some(startIndex), Some(count));
    page.resources + (if startIndex + count <= page.total then ScimWalk(xs, startIndex + count, count) else [])
  }

  lemma {:induction false} ScimWalkTiles<T>(xs: seq<T>, startIndex: nat, count: nat)
    requires 1 <= startIndex <= |xs| + 1 && count >= 1
    ensures ScimWalk(xs, startIndex, count) == xs[startIndex - 1..]
    decreases |xs| + 1 - startIndex
  {
    if startIndex + count <= |xs| {
      ScimWalkTiles(xs, startIndex + count, count);
    } else {
      var page := ScimList(xs, Some(startIndex), Some(count));
      assert page.resources == xs[startIndex - 1..];
      assert page.resources + [] == page.resources;
    }
  }
}
