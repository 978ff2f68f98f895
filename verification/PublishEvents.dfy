/** The publish-event reader of scripts/resolve_published_contract_ids.ts: a forward page loop that gives up
    on a server that hands out a cursor twice. */
module PublishEvents {
  import opened Prelude

  datatype EventRecord = EventRecord(type_: string, json: string)

  /** A response after the checks that do not concern paging; `malformed` where one of those fails. */
  datatype Response = Malformed | Page(data: seq<EventRecord>, hasNextPage: bool, endCursor: Option<string>)

  /** What the server answers to its `n`-th query, as it likes. */
  type Server = (nat, Option<string>) -> Response

  /** The paging part of `parseGraphqlEventPage`. */
  predicate Accepted(r: Response) {
    r.Page? && (r.hasNextPage ==> r.endCursor.Some? && r.endCursor.value != "")
  }

  function Concat(pages: seq<seq<EventRecord>>): seq<EventRecord> {
    if |pages| == 0 then [] else Concat(pages[..|pages| - 1]) + pages[|pages| - 1]
  }

  predicate NoDuplicates<T(==)>(s: seq<T>) {
    forall i, j :: 0 <= i < j < |s| ==> s[i] != s[j]
  }

  /** The answers to the first `n` queries of a session. */
  function Answers(server: Server, queries: seq<Option<string>>): (answers: seq<Response>)
    ensures |answers| == |queries|
  {
    seq(|queries|, k requires 0 <= k < |queries| => server(k, queries[k]))
  }

  /** Query `k` carries the cursor of an accepted page that announced another. */
  predicate Follows(server: Server, queries: seq<Option<string>>, k: nat)
    requires 0 < k < |queries|
  {
    var previous := server(k - 1, queries[k - 1]);
    Accepted(previous) && previous.hasNextPage && queries[k] == previous.endCursor
  }

  predicate FollowsCursors(server: Server, queries: seq<Option<string>>) {
    && |queries| > 0 && queries[0] == None
    && forall k: nat :: 0 < k < |queries| ==> Follows(server, queries, k)
  }

  function Data(r: Response): seq<EventRecord> {
    if r.Page? then r.data else []
  }

  function DataOf(answers: seq<Response>): (pages: seq<seq<EventRecord>>)
    ensures |pages| == |answers|
  {
    seq(|answers|, k requires 0 <= k < |answers| => Data(answers[k]))
  }

  /** Whatever the server does, as long as its cursors come from the finite set `cursors`: the loop ends, no
      cursor is queried twice, and a result holds the data of the pages in the order they were queried. It
      fails on a malformed page or on a cursor it has seen. */
  method ReadPackagePublishEvents(server: Server, ghost cursors: set<string>)
    returns (r: Option<seq<EventRecord>>, queries: seq<Option<string>>)
    requires forall n, c :: server(n, c).Page? && server(n, c).endCursor.Some? ==>
      server(n, c).endCursor.value in cursors
    ensures FollowsCursors(server, queries) && NoDuplicates(queries) && |queries| <= |cursors| + 1
    ensures var last := server(|queries| - 1, queries[|queries| - 1]);
      && (r.Some? <==> last.Page? && !last.hasNextPage)
      && (r.None? ==> last.Malformed? || last.endCursor.None? || last.endCursor == Some("")
                      || last.endCursor in queries)
    ensures r.Some? ==> r.value == Concat(DataOf(Answers(server, queries)))
  {
    var records: seq<EventRecord>, cursor: Option<string>, seenCursors: set<string> := [], None, {};
    var asked: seq<Option<string>> := [];
    while true
      invariant Session(server, asked + [cursor], seenCursors) && seenCursors <= cursors
      invariant records == Concat(DataOf(Answers(server, asked)))
      decreases cursors - seenCursors
    {
      var response := server(|asked|, cursor);
      AnswersExtend(server, asked, cursor);
      SubsetSize(seenCursors, cursors);
      asked := asked + [cursor];
      assert asked[|asked| - 1] == cursor;
      if !Accepted(response) {
        return None, asked;
      }
      records := records + response.data;
      if !response.hasNextPage {
        return Some(records), asked;
      }
      var nextCursor := response.endCursor;
      if nextCursor.value in seenCursors {
        return None, asked;
      }
      SessionExtends(server, asked, seenCursors, nextCursor.value);
      seenCursors := seenCursors + {nextCursor.value};
      cursor := nextCursor;
    }
  }

  /** The queries so far follow the server's cursors, repeat none, and `seen` is what they carried. */
  ghost predicate Session(server: Server, queries: seq<Option<string>>, seen: set<string>) {
    && FollowsCursors(server, queries) && NoDuplicates(queries)
    && (forall c :: c in seen <==> Some(c) in queries)
    && |seen| + 1 == |queries|
  }

  lemma SessionExtends(server: Server, queries: seq<Option<string>>, seen: set<string>, next: string)
    requires Session(server, queries, seen) && next !in seen
    requires var last := server(|queries| - 1, queries[|queries| - 1]);
      Accepted(last) && last.hasNextPage && last.endCursor == Some(next)
    ensures Session(server, queries + [Some(next)], seen + {next})
  {
    var more := queries + [Some(next)];
    forall k: nat | 0 < k < |more| ensures Follows(server, more, k) {
      assert k < |queries| ==> Follows(server, queries, k);
    }
    assert NoDuplicates(more);
    forall c ensures c in seen + {next} <==> Some(c) in more {
      assert Some(c) in more <==> Some(c) in queries || c == next;
    }
  }

  lemma AnswersExtend(server: Server, queries: seq<Option<string>>, cursor: Option<string>)
    ensures Concat(DataOf(Answers(server, queries + [cursor]))) ==
            Concat(DataOf(Answers(server, queries))) + Data(server(|queries|, cursor))
  {
    var pages := DataOf(Answers(server, queries + [cursor]));
    assert pages[..|queries|] == DataOf(Answers(server, queries));
    assert pages[|queries|] == Data(server(|queries|, cursor));
  }

  /** A query follows the one before exactly if that was a page that announced another, by a non-empty cursor. */
  lemma FollowsIs(server: Server, queries: seq<Option<string>>, k: nat)
    requires 0 < k < |queries|
    ensures Follows(server, queries, k) <==>
            var previous := server(k - 1, queries[k - 1]);
            && previous.Page? && previous.hasNextPage && previous.endCursor.Some? && previous.endCursor.value != ""
            && queries[k] == previous.endCursor
  {
  }

  /** The result holds the data of every page, in the order of the pages. */
  lemma {:induction false} ConcatHolds(pages: seq<seq<EventRecord>>, k: nat, i: nat) returns (at: nat)
    requires k < |pages| && i < |pages[k]|
    ensures at == |Concat(pages[..k])| + i < |Concat(pages)| && Concat(pages)[at] == pages[k][i]
    decreases |pages|
  {
    var last := |pages| - 1;
    if k == last {
      at := |Concat(pages[..last])| + i;
    } else {
      at := ConcatHolds(pages[..last], k, i);
      assert pages[..last][..k] == pages[..k];
    }
  }

  /** And nothing else. */
  lemma {:induction false} ConcatSize(pages: seq<seq<EventRecord>>, k: nat)
    requires k < |pages|
    ensures |Concat(pages[..k + 1])| == |Concat(pages[..k])| + |pages[k]| && |Concat([])| == 0
  {
    assert pages[..k + 1][..k] == pages[..k];
  }
}
