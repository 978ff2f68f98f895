/** Reading a whole event log through backward pages (dapp/app/chain/graphql-event-client.ts), and the
    dashboard totals drawn from it (dapp/app/dashboard/dashboard-events.ts). */
module EventPaging {
  import opened Prelude

  datatype MoveEvent = MoveEvent(id: string, timestampMs: nat, json: string)

  function Min(a: nat, b: nat): nat {
    if a <= b then a else b
  }

  function Reverse<T>(s: seq<T>): (r: seq<T>)
    ensures |r| == |s|
  {
    if |s| == 0 then [] else [s[|s| - 1]] + Reverse(s[..|s| - 1])
  }

  lemma {:induction false} ReverseAt<T>(s: seq<T>, k: nat)
    requires k < |s|
    ensures Reverse(s)[k] == s[|s| - 1 - k]
    decreases |s|
  {
    if k > 0 {
      ReverseAt(s[..|s| - 1], k - 1);
    }
  }

  lemma {:induction false} ReverseConcat<T>(a: seq<T>, b: seq<T>)
    ensures Reverse(a + b) == Reverse(b) + Reverse(a)
    decreases |b|
  {
    if |b| == 0 {
      assert a + b == a && [] + Reverse(a) == Reverse(a);
    } else {
      assert (a + b)[..|a + b| - 1] == a + b[..|b| - 1];
      ReverseConcat(a, b[..|b| - 1]);
      assert [b[|b| - 1]] + (Reverse(b[..|b| - 1]) + Reverse(a)) == [b[|b| - 1]] + Reverse(b[..|b| - 1]) + Reverse(a);
    }
  }

  // ----- The server and the client ------------------------------------------------------------

  /** An ascending log behind opaque cursors; `cursor(n)` stands for "before event n". */
  datatype Server = Server(log: seq<MoveEvent>, cursor: nat -> string, position: string -> nat)

  ghost predicate ReadsItsCursors(server: Server) {
    forall n :: server.position(server.cursor(n)) == n && server.cursor(n) != ""
  }

  datatype ConnectionPage = ConnectionPage(nodes: seq<MoveEvent>, hasPreviousPage: bool, startCursor: Option<string>)

  /** `events(last, before)`: the last events before the cursor, in ascending order. */
  function Serve(server: Server, last: nat, before: Option<string>): ConnectionPage {
    var end := match before case None => |server.log| case Some(c) => Min(server.position(c), |server.log|);
    var start := if end < last then 0 else end - last;
    ConnectionPage(server.log[start..end], start > 0, if start < end then Some(server.cursor(start)) else None)
  }

  datatype EventPage = EventPage(data: seq<MoveEvent>, hasNextPage: bool, nextCursor: Option<string>)

  /** `parseEventPage`; `None` where it throws. */
  function ParseEventPage(page: ConnectionPage): Option<EventPage> {
    if page.hasPreviousPage && (page.startCursor.None? || page.startCursor.value == "") then None
    else Some(EventPage(Reverse(page.nodes), page.hasPreviousPage, page.startCursor))
  }

  const DEFAULT_PAGE_LIMIT := 50

  /** `queryMoveEvents`; `None` where it throws. */
  function QueryMoveEvents(server: Server, limit: int, cursor: Option<string>): Option<EventPage> {
    if limit <= 0 then None else ParseEventPage(Serve(server, Min(limit, DEFAULT_PAGE_LIMIT), cursor))
  }

  function Parsed<T>(events: seq<MoveEvent>, parse: MoveEvent -> Option<T>): seq<T> {
    if |events| == 0 then []
    else Parsed(events[..|events| - 1], parse) + Single(parse(events[|events| - 1]))
  }

  function Single<T>(item: Option<T>): seq<T> {
    match item case None => [] case Some(x) => [x]
  }

  lemma {:induction false} ParsedConcat<T>(a: seq<MoveEvent>, b: seq<MoveEvent>, parse: MoveEvent -> Option<T>)
    ensures Parsed(a + b, parse) == Parsed(a, parse) + Parsed(b, parse)
    decreases |b|
  {
    if |b| == 0 {
      assert a + b == a;
    } else {
      assert (a + b)[..|a + b| - 1] == a + b[..|b| - 1];
      ParsedConcat(a, b[..|b| - 1], parse);
    }
  }

  method AppendParsed<T>(result: seq<T>, data: seq<MoveEvent>, parse: MoveEvent -> Option<T>) returns (extended: seq<T>)
    ensures extended == result + Parsed(data, parse)
  {
    extended := result;
    for i := 0 to |data|
      invariant extended == result + Parsed(data[..i], parse)
    {
      assert data[..i + 1][..i] == data[..i];
      var parsed := parse(data[i]);
      if parsed.Some? {
        extended := extended + [parsed.value];
      }
    }
    assert data[..|data|] == data;
  }

  lemma SplitTail<T>(s: seq<T>, a: nat, b: nat)
    requires a <= b <= |s|
    ensures s[a..] == s[a..b] + s[b..]
  {
  }

  /** `readTypedEvents`, at any page size: the reverse of the whole log, parsed. */
  method ReadTypedEvents<T>(server: Server, pageLimit: int, parse: MoveEvent -> Option<T>) returns (r: Option<seq<T>>)
    requires ReadsItsCursors(server)
    ensures r == if pageLimit <= 0 then None else Some(Parsed(Reverse(server.log), parse))
  {
    if pageLimit <= 0 {
      return None;
    }
    var result: seq<T>, cursor: Option<string> := [], None;
    ghost var end := |server.log|;
    assert server.log[end..] == [];
    while true
      invariant 0 <= end <= |server.log|
      invariant (cursor == None && end == |server.log|) || cursor == Some(server.cursor(end))
      invariant result == Parsed(Reverse(server.log[end..]), parse)
      decreases end
    {
      var response := QueryMoveEvents(server, pageLimit, cursor);
      ghost var size := Min(pageLimit, DEFAULT_PAGE_LIMIT);
      ghost var start := if end < size then 0 else end - size;
      assert response == Some(EventPage(Reverse(server.log[start..end]), start > 0,
                                        if start < end then Some(server.cursor(start)) else None));
      result := AppendParsed(result, response.value.data, parse);
      SplitTail(server.log, start, end);
      ReverseConcat(server.log[start..end], server.log[end..]);
      ParsedConcat(Reverse(server.log[end..]), Reverse(server.log[start..end]), parse);
      if !response.value.hasNextPage || response.value.nextCursor.None? {
        assert server.log[0..] == server.log;
        return Some(result);
      }
      cursor := response.value.nextCursor;
      end := start;
    }
  }

  // ----- Dashboard claims ------------------------------------------------------------------------

  datatype Claim = Claim(id: string, amountUsdc: nat, occurredAtMs: nat)

  function Ids(items: seq<Claim>): seq<string> {
    seq(|items|, i requires 0 <= i < |items| => items[i].id)
  }

  /** The items whose id no earlier item has. */
  function Unique(items: seq<Claim>): seq<Claim> {
    if |items| == 0 then []
    else
      var front, last := items[..|items| - 1], items[|items| - 1];
      if last.id in Ids(front) then Unique(front) else Unique(front) + [last]
  }

  /** `uniqueById`. */
  method UniqueById(items: seq<Claim>) returns (result: seq<Claim>)
    ensures result == Unique(items)
  {
    var seen: set<string> := {};
    result := [];
    for i := 0 to |items|
      invariant result == Unique(items[..i])
      invariant forall id :: id in seen <==> id in Ids(items[..i])
    {
      assert items[..i + 1][..i] == items[..i];
      assert Ids(items[..i + 1]) == Ids(items[..i]) + [items[i].id];
      if items[i].id !in seen {
        seen := seen + {items[i].id};
        result := result + [items[i]];
      }
    }
    assert items[..|items|] == items;
  }

  /** Inserts after everything at least as new: a stable insertion. */
  function Insert(items: seq<Claim>, item: Claim): (r: seq<Claim>)
    ensures |r| == |items| + 1
  {
    if |items| == 0 || item.occurredAtMs <= items[|items| - 1].occurredAtMs then items + [item]
    else Insert(items[..|items| - 1], item) + [items[|items| - 1]]
  }

  /** `sort(compareNewestFirst)`. */
  function SortNewestFirst(items: seq<Claim>): (r: seq<Claim>)
    ensures |r| == |items|
  {
    if |items| == 0 then [] else Insert(SortNewestFirst(items[..|items| - 1]), items[|items| - 1])
  }

  function Total(items: seq<Claim>): nat {
    if |items| == 0 then 0 else Total(items[..|items| - 1]) + items[|items| - 1].amountUsdc
  }

  method Reduce(items: seq<Claim>) returns (sum: nat)
    ensures sum == Total(items)
  {
    sum := 0;
    for i := 0 to |items|
      invariant sum == Total(items[..i])
    {
      assert items[..i + 1][..i] == items[..i];
      sum := sum + items[i].amountUsdc;
    }
    assert items[..|items|] == items;
  }

  lemma {:induction false} TotalConcat(a: seq<Claim>, b: seq<Claim>)
    ensures Total(a + b) == Total(a) + Total(b)
    decreases |b|
  {
    if |b| == 0 {
      assert a + b == a;
    } else {
      assert (a + b)[..|a + b| - 1] == a + b[..|b| - 1];
      TotalConcat(a, b[..|b| - 1]);
    }
  }

  lemma TotalSnoc(items: seq<Claim>, item: Claim)
    ensures Total(items + [item]) == Total(items) + item.amountUsdc
  {
    assert (items + [item])[..|items|] == items;
  }

  lemma MultisetSnoc<T>(items: seq<T>)
    requires |items| > 0
    ensures multiset(items) == multiset(items[..|items| - 1]) + multiset{items[|items| - 1]}
  {
    assert items == items[..|items| - 1] + [items[|items| - 1]];
  }

  lemma OneMore<T>(m: multiset<T>, n: multiset<T>, whole: multiset<T>, last: T, item: T)
    requires n == m + multiset{item} && whole == m + multiset{last}
    ensures n + multiset{last} == whole + multiset{item}
  {
  }

  lemma {:induction false} InsertTotal(items: seq<Claim>, item: Claim)
    ensures Total(Insert(items, item)) == Total(items) + item.amountUsdc
    decreases |items|
  {
    TotalSnoc(items, item);
    if |items| > 0 {
      var front, last := items[..|items| - 1], items[|items| - 1];
      InsertTotal(front, item);
      TotalSnoc(Insert(front, item), last);
    }
  }

  lemma {:induction false} InsertContents(items: seq<Claim>, item: Claim)
    ensures multiset(Insert(items, item)) == multiset(items) + multiset{item}
    decreases |items|
  {
    var inserted := Insert(items, item);
    MultisetSnoc(inserted);
    if |items| > 0 && item.occurredAtMs > items[|items| - 1].occurredAtMs {
      var front, last := items[..|items| - 1], items[|items| - 1];
      assert inserted[..|items|] == Insert(front, item);
      InsertContents(front, item);
      MultisetSnoc(items);
      OneMore(multiset(front), multiset(Insert(front, item)), multiset(items), last, item);
    } else {
      assert inserted[..|items|] == items;
    }
  }

  lemma {:induction false} InsertSorted(items: seq<Claim>, item: Claim)
    requires NewestFirst(items)
    ensures NewestFirst(Insert(items, item))
    ensures forall i :: 0 <= i <= |items| ==> Insert(items, item)[i] == item || Insert(items, item)[i] in items
    decreases |items|
  {
    if |items| > 0 && item.occurredAtMs > items[|items| - 1].occurredAtMs {
      InsertSorted(items[..|items| - 1], item);
    }
  }

  predicate NewestFirst(items: seq<Claim>) {
    forall i, j :: 0 <= i < j < |items| ==> items[i].occurredAtMs >= items[j].occurredAtMs
  }

  lemma {:induction false} SortTotal(items: seq<Claim>)
    ensures Total(SortNewestFirst(items)) == Total(items)
    decreases |items|
  {
    if |items| > 0 {
      SortTotal(items[..|items| - 1]);
      InsertTotal(SortNewestFirst(items[..|items| - 1]), items[|items| - 1]);
    }
  }

  lemma {:induction false} SortPermutes(items: seq<Claim>)
    ensures multiset(SortNewestFirst(items)) == multiset(items)
    decreases |items|
  {
    if |items| > 0 {
      var front, last := items[..|items| - 1], items[|items| - 1];
      SortPermutes(front);
      InsertContents(SortNewestFirst(front), last);
      MultisetSnoc(items);
    }
  }

  lemma {:induction false} SortSorts(items: seq<Claim>)
    ensures NewestFirst(SortNewestFirst(items))
    decreases |items|
  {
    if |items| > 0 {
      SortSorts(items[..|items| - 1]);
      InsertSorted(SortNewestFirst(items[..|items| - 1]), items[|items| - 1]);
    }
  }

  lemma {:induction false} UniqueOfDistinct(items: seq<Claim>)
    requires DistinctIds(items)
    ensures Unique(items) == items
    decreases |items|
  {
    if |items| > 0 {
      var front, last := items[..|items| - 1], items[|items| - 1];
      UniqueOfDistinct(front);
      assert forall i :: 0 <= i < |front| ==> Ids(front)[i] == items[i].id;
      assert last.id !in Ids(front);
      assert items == front + [last];
    }
  }

  datatype DashboardClaims = DashboardClaims(claims: seq<Claim>, aidDeliveredUsdc: nat, totalClaimsCount: nat)

  /** Newest first, among the items, and none of the items left out is newer than one of these. */
  ghost predicate AreNewestOf(claims: seq<Claim>, items: seq<Claim>) {
    && multiset(claims) <= multiset(items) && NewestFirst(claims)
    && forall shown, other :: shown in claims && other in multiset(items) - multiset(claims) ==>
         shown.occurredAtMs >= other.occurredAtMs
  }

  /** The claim part of `readDashboardEvents`. */
  method ReadDashboardClaims(floor: Server, payouts: Server, limit: nat,
                             parseFloor: MoveEvent -> Option<Claim>, parsePayout: MoveEvent -> Option<Claim>)
    returns (r: DashboardClaims)
    requires ReadsItsCursors(floor) && ReadsItsCursors(payouts)
    ensures var all := Unique(Parsed(Reverse(floor.log), parseFloor) + Parsed(Reverse(payouts.log), parsePayout));
      && r.aidDeliveredUsdc == Total(all) && r.totalClaimsCount == |all|
      && |r.claims| == Min(limit, |all|) && r.claims <= SortNewestFirst(all) && AreNewestOf(r.claims, all)
  {
    var floorClaims := ReadTypedEvents(floor, DEFAULT_PAGE_LIMIT, parseFloor);
    var payoutClaims := ReadTypedEvents(payouts, DEFAULT_PAGE_LIMIT, parsePayout);
    var unique := UniqueById(floorClaims.value + payoutClaims.value);
    var allClaims := SortNewestFirst(unique);
    SortTotal(unique);
    ShownOfSorted(unique, limit);
    var shown := allClaims[..Min(limit, |allClaims|)];
    var aid := Reduce(allClaims);
    r := DashboardClaims(shown, aid, |allClaims|);
  }

  /** What the dashboard shows of the sorted claims. */
  lemma ShownOfSorted(items: seq<Claim>, limit: nat)
    ensures var sorted := SortNewestFirst(items);
      |sorted| == |items| && AreNewestOf(sorted[..Min(limit, |sorted|)], items)
  {
    var sorted := SortNewestFirst(items);
    SortPermutes(items);
    SortSorts(items);
    assert |multiset(sorted)| == |sorted| && |multiset(items)| == |items|;
    ShownAreNewest(sorted, Min(limit, |sorted|));
  }

  lemma ShownAreNewest(items: seq<Claim>, n: nat)
    requires NewestFirst(items) && n <= |items|
    ensures multiset(items[..n]) <= multiset(items)
    ensures forall shown, other :: shown in items[..n] && other in multiset(items) - multiset(items[..n]) ==>
              shown.occurredAtMs >= other.occurredAtMs
  {
    assert items == items[..n] + items[n..];
    assert multiset(items) - multiset(items[..n]) == multiset(items[n..]);
  }

  // ----- Totals of the whole log -------------------------------------------------------------------

  predicate DistinctIds(items: seq<Claim>) {
    forall i, j :: 0 <= i < j < |items| ==> items[i].id != items[j].id
  }

  lemma {:induction false} TotalOfReversed(log: seq<MoveEvent>, parse: MoveEvent -> Option<Claim>)
    ensures Total(Parsed(Reverse(log), parse)) == Total(Parsed(log, parse))
    ensures |Parsed(Reverse(log), parse)| == |Parsed(log, parse)|
    decreases |log|
  {
    if |log| > 0 {
      var front, last := log[..|log| - 1], log[|log| - 1];
      TotalOfReversed(front, parse);
      ParsedConcat([last], Reverse(front), parse);
      assert [last][..0] == [];
      TotalConcat(Parsed([last], parse), Parsed(Reverse(front), parse));
      TotalConcat(Parsed(front, parse), Single(parse(last)));
    }
  }

  /** When no two parsed events share an id, the delivered aid and the claim count are those of the two whole
      logs, in whatever pages they were read and however few claims are displayed. */
  lemma TotalsCoverWholeLogs(floor: seq<MoveEvent>, payouts: seq<MoveEvent>,
                             parseFloor: MoveEvent -> Option<Claim>, parsePayout: MoveEvent -> Option<Claim>)
    requires DistinctIds(Parsed(Reverse(floor), parseFloor) + Parsed(Reverse(payouts), parsePayout))
    ensures var all := Unique(Parsed(Reverse(floor), parseFloor) + Parsed(Reverse(payouts), parsePayout));
      && Total(all) == Total(Parsed(floor, parseFloor)) + Total(Parsed(payouts, parsePayout))
      && |all| == |Parsed(floor, parseFloor)| + |Parsed(payouts, parsePayout)|
  {
    UniqueOfDistinct(Parsed(Reverse(floor), parseFloor) + Parsed(Reverse(payouts), parsePayout));
    TotalOfReversed(floor, parseFloor);
    TotalOfReversed(payouts, parsePayout);
    TotalConcat(Parsed(Reverse(floor), parseFloor), Parsed(Reverse(payouts), parsePayout));
  }

  // ----- Which items are kept, and in which order ----------------------------------------------------

  /** The items at these places, in this order. */
  predicate AreAt<T(==)>(kept: seq<T>, items: seq<T>, places: seq<nat>) {
    && |kept| == |places|
    && (forall i :: 0 <= i < |places| ==> places[i] < |items| && kept[i] == items[places[i]])
    && (forall i, j :: 0 <= i < j < |places| ==> places[i] < places[j])
  }

  /** No item before it has its id. */
  predicate IsFirst(items: seq<Claim>, k: nat) {
    k < |items| && forall j :: 0 <= j < k ==> items[j].id != items[k].id
  }

  lemma IdsBefore(items: seq<Claim>)
    requires |items| > 0
    ensures items[|items| - 1].id in Ids(items[..|items| - 1]) <==> !IsFirst(items, |items| - 1)
  {
    var front, last := items[..|items| - 1], items[|items| - 1];
    if last.id in Ids(front) {
      var j :| 0 <= j < |front| && Ids(front)[j] == last.id;
      assert items[j].id == last.id;
    } else {
      forall j | 0 <= j < |front| ensures items[j].id != last.id {
        assert Ids(front)[j] == items[j].id;
      }
    }
  }

  lemma FirstInFront(items: seq<Claim>, k: nat)
    requires k + 1 < |items|
    ensures IsFirst(items[..|items| - 1], k) <==> IsFirst(items, k)
  {
    var front := items[..|items| - 1];
    assert forall j :: 0 <= j <= k ==> front[j] == items[j];
  }

  lemma AppendPlace<T>(kept: seq<T>, items: seq<T>, places: seq<nat>, k: nat)
    requires k < |items| && AreAt(kept, items[..k], places)
    ensures AreAt(kept, items, places) && AreAt(kept + [items[k]], items, places + [k])
  {
    forall i | 0 <= i < |places| ensures places[i] < k && kept[i] == items[places[i]] {
      assert items[..k][places[i]] == items[places[i]];
    }
  }

  lemma Snoc(places: seq<nat>, last: nat)
    ensures forall k: nat :: k in places + [last] <==> k in places || k == last
  {
  }

  /** Which places are chosen. */
  ghost predicate AreFirsts(items: seq<Claim>, places: seq<nat>, before: nat) {
    forall k: nat :: k in places <==> k < before && IsFirst(items, k)
  }

  lemma FirstsInFront(items: seq<Claim>, places: seq<nat>)
    requires |items| > 0 && AreFirsts(items[..|items| - 1], places, |items| - 1)
    ensures AreFirsts(items, places, |items| - 1)
  {
    forall k: nat | k < |items| - 1 ensures k in places <==> IsFirst(items, k) {
      FirstInFront(items, k);
    }
  }

  /** The unique items are exactly the first ones of their ids, in the order they came. */
  lemma {:induction false} UniqueAreFirsts(items: seq<Claim>) returns (places: seq<nat>)
    ensures AreAt(Unique(items), items, places)
    ensures AreFirsts(items, places, |items|)
    decreases |items|
  {
    if |items| == 0 {
      places := [];
    } else {
      var last := |items| - 1;
      var front := UniqueAreFirsts(items[..last]);
      AppendPlace(Unique(items[..last]), items, front, last);
      IdsBefore(items);
      FirstsInFront(items, front);
      Snoc(front, last);
      places := if IsFirst(items, last) then front + [last] else front;
    }
  }

  /** So no two of them share an id, and every id is there. */
  lemma UniqueIds(items: seq<Claim>)
    ensures DistinctIds(Unique(items))
    ensures forall k :: 0 <= k < |items| ==> exists u :: u in Unique(items) && u.id == items[k].id
  {
    var places := UniqueAreFirsts(items);
    forall i, j | 0 <= i < j < |Unique(items)| ensures Unique(items)[i].id != Unique(items)[j].id {
      assert places[j] in places && IsFirst(items, places[j]);
    }
    forall k | 0 <= k < |items| ensures exists u :: u in Unique(items) && u.id == items[k].id {
      var first := FirstOf(items, k);
      assert first in places;
      var i :| 0 <= i < |places| && places[i] == first;
      assert Unique(items)[i] in Unique(items);
    }
  }

  lemma {:induction false} FirstOf(items: seq<Claim>, k: nat) returns (first: nat)
    requires k < |items|
    ensures first <= k && IsFirst(items, first) && items[first].id == items[k].id
    decreases k
  {
    if IsFirst(items, k) {
      first := k;
    } else {
      var j: nat :| j < k && items[j].id == items[k].id;
      first := FirstOf(items, j);
    }
  }

  /** The values the events at these places parse to, in this order, and no other event parses. */
  ghost predicate ParsedAt<T(!new)>(values: seq<T>, events: seq<MoveEvent>, parse: MoveEvent -> Option<T>,
                                    places: seq<nat>) {
    && |values| == |places|
    && (forall i, j :: 0 <= i < j < |places| ==> places[i] < places[j])
    && (forall k: nat :: k in places <==> k < |events| && parse(events[k]).Some?)
    && (forall i :: 0 <= i < |places| ==> places[i] < |events| && parse(events[places[i]]) == Some(values[i]))
  }

  lemma ParsedFront<T(!new)>(values: seq<T>, events: seq<MoveEvent>, parse: MoveEvent -> Option<T>, places: seq<nat>)
    requires |events| > 0 && ParsedAt(values, events[..|events| - 1], parse, places)
    ensures parse(events[|events| - 1]).None? ==> ParsedAt(values, events, parse, places)
    ensures forall i :: 0 <= i < |places| ==> places[i] < |events| - 1 && parse(events[places[i]]) == Some(values[i])
    ensures forall k: nat :: k in places <==> k < |events| - 1 && parse(events[k]).Some?
  {
    var front := events[..|events| - 1];
    assert forall k: nat :: k < |front| ==> front[k] == events[k];
  }

  lemma ParsedSnoc<T(!new)>(values: seq<T>, events: seq<MoveEvent>, parse: MoveEvent -> Option<T>, places: seq<nat>)
    requires |events| > 0 && ParsedAt(values, events[..|events| - 1], parse, places)
    requires parse(events[|events| - 1]).Some?
    ensures ParsedAt(values + [parse(events[|events| - 1]).value], events, parse, places + [|events| - 1])
  {
    ParsedFront(values, events, parse, places);
    Snoc(places, |events| - 1);
  }

  /** The parsed events are exactly those that parse, in the order they came. */
  lemma {:induction false} ParsedAreThoseThatParse<T(!new)>(events: seq<MoveEvent>, parse: MoveEvent -> Option<T>)
    returns (places: seq<nat>)
    ensures ParsedAt(Parsed(events, parse), events, parse, places)
    decreases |events|
  {
    if |events| == 0 {
      places := [];
    } else {
      var last := |events| - 1;
      places := ParsedAreThoseThatParse(events[..last], parse);
      var values := Parsed(events[..last], parse);
      if parse(events[last]).Some? {
        ParsedSnoc(values, events, parse, places);
        places := places + [last];
      } else {
        ParsedFront(values, events, parse, places);
        assert values + [] == values;
      }
    }
  }

  function AtTime(items: seq<Claim>, time: nat): seq<Claim> {
    if |items| == 0 then []
    else
      var last := items[|items| - 1];
      AtTime(items[..|items| - 1], time) + if last.occurredAtMs == time then [last] else []
  }

  lemma AtTimeSnoc(items: seq<Claim>, item: Claim, time: nat)
    ensures AtTime(items + [item], time) == AtTime(items, time) + if item.occurredAtMs == time then [item] else []
  {
    assert (items + [item])[..|items|] == items;
  }

  lemma {:induction false} InsertBehindTies(items: seq<Claim>, item: Claim, time: nat)
    requires NewestFirst(items)
    ensures AtTime(Insert(items, item), time) == AtTime(items + [item], time)
    decreases |items|
  {
    AtTimeSnoc(items, item, time);
    if |items| > 0 && item.occurredAtMs > items[|items| - 1].occurredAtMs {
      var front, last := items[..|items| - 1], items[|items| - 1];
      InsertBehindTies(front, item, time);
      AtTimeSnoc(front, item, time);
      AtTimeSnoc(Insert(front, item), last, time);
    }
  }

  /** Sorting keeps the order of items of one time. */
  lemma {:induction false} SortIsStable(items: seq<Claim>, time: nat)
    ensures AtTime(SortNewestFirst(items), time) == AtTime(items, time)
    decreases |items|
  {
    if |items| > 0 {
      var front, last := items[..|items| - 1], items[|items| - 1];
      SortIsStable(front, time);
      SortSorts(front);
      InsertBehindTies(SortNewestFirst(front), last, time);
      AtTimeSnoc(SortNewestFirst(front), last, time);
    }
  }

  /** One query asks for up to fifty events before its cursor, and gives them newest first. */
  lemma PageIs(server: Server, limit: int, end: nat)
    requires ReadsItsCursors(server) && end <= |server.log|
    ensures limit <= 0 ==> QueryMoveEvents(server, limit, Some(server.cursor(end))).None?
    ensures limit > 0 ==>
              var size := if limit < 50 then limit else 50;
              var start := if end < size then 0 else end - size;
              var page := QueryMoveEvents(server, limit, Some(server.cursor(end)));
              && page.Some? && page.value.data == Reverse(server.log[start..end])
              && page.value.hasNextPage == (start > 0)
              && (start > 0 ==> page.value.nextCursor == Some(server.cursor(start)))
  {
  }

  /** A page that says there is more must say where to go on; then its events are turned round, newest first. */
  lemma PageParses(page: ConnectionPage)
    ensures ParseEventPage(page).None?
            <==> page.hasPreviousPage && (page.startCursor.None? || page.startCursor == Some(""))
    ensures ParseEventPage(page).Some? ==>
              ParseEventPage(page).value == EventPage(Reverse(page.nodes), page.hasPreviousPage, page.startCursor)
  {
  }
}
