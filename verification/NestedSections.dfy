/** A header that stands inside another section: the two sections end together, and their rewrites commute exactly
    where no value is written by both. Stated for sections whose quoted values close on their own line. */
module NestedSections {
  import opened Prelude
  import opened TomlFields
  import opened PublishedToml
  import Joining

  // ----- Stretches of a text cut in two -------------------------------------------------------------

  /** The stretches of two texts put together: the last of the one and the first of the other become one. */
  function Glue(a: seq<string>, b: seq<string>): (g: seq<string>)
    requires |a| > 0 && |b| > 0
    ensures |g| == |a| + |b| - 1
  {
    a[..|a| - 1] + [Last(a) + b[0]] + b[1..]
  }

  lemma JoinGlueOne(first: string, b: seq<string>)
    requires |b| > 0
    ensures Joining.Join([first + b[0]] + b[1..], QUOTE) == first + Joining.Join(b, QUOTE)
  {
    var g := [first + b[0]] + b[1..];
    assert g[1..] == b[1..];
    if |b| > 1 {
      Joining.Associate(first, b[0], [QUOTE], Joining.Join(b[1..], QUOTE));
    }
  }

  lemma {:induction false} JoinGlue(a: seq<string>, b: seq<string>)
    requires |a| > 0 && |b| > 0
    ensures Joining.Join(Glue(a, b), QUOTE) == Joining.Join(a, QUOTE) + Joining.Join(b, QUOTE)
  {
    if |a| == 1 {
      JoinGlueOne(a[0], b);
      assert Glue(a, b) == [a[0] + b[0]] + b[1..];
    } else {
      assert Glue(a, b)[1..] == Glue(a[1..], b) && Glue(a, b)[0] == a[0];
      JoinGlue(a[1..], b);
      Joining.Regroup(a[0] + [QUOTE], Joining.Join(a[1..], QUOTE), Joining.Join(b, QUOTE));
    }
  }

  predicate QuoteFree(g: seq<string>) {
    forall i :: 0 <= i < |g| ==> QUOTE !in g[i]
  }

  lemma StretchesOfConcat(s: string, t: string)
    ensures Stretches(s + t) == Glue(Stretches(s), Stretches(t))
  {
    Joining.JoinOfSplit(s, QUOTE);
    Joining.JoinOfSplit(t, QUOTE);
    JoinGlue(Stretches(s), Stretches(t));
    Joining.SplitOfJoin(Glue(Stretches(s), Stretches(t)), QUOTE);
  }

  /** A value put into the one part or the other, if it is not the stretch they share. */
  function PutLeft(a: seq<string>, x: nat, value: string): (h: seq<string>)
    ensures |h| == |a|
  {
    if x + 1 < |a| then a[x := value] else a
  }

  function PutRight(a: seq<string>, b: seq<string>, x: nat, value: string): (h: seq<string>)
    ensures |h| == |b|
  {
    if |a| <= x < |a| + |b| - 1 then b[x + 1 - |a| := value] else b
  }

  lemma PutGlue(a: seq<string>, b: seq<string>, x: nat, value: string)
    requires |a| > 0 && |b| > 0 && x < |a| + |b| - 1 && x + 1 != |a|
    ensures Glue(a, b)[x := value] == Glue(PutLeft(a, x, value), PutRight(a, b, x, value))
  {
  }

  // ----- Writing values that hold no key --------------------------------------------------------------

  /** Two values written by one rewrite. */
  function Put(g: seq<string>, x: nat, y: nat, value: string): (h: seq<string>)
    requires x < |g| && y < |g|
    ensures |h| == |g|
  {
    g[x := value][y := value]
  }

  /** The two rewrites write in either order exactly if they write the same id, or nowhere the same. */
  lemma PutsCommute(g: seq<string>, a: nat, b: nat, c: nat, d: nat, v: string, w: string)
    requires a < |g| && b < |g| && c < |g| && d < |g|
    ensures Put(Put(g, a, b, v), c, d, w) == Put(Put(g, c, d, w), a, b, v) <==> v == w || {a, b} !! {c, d}
  {
    var x, y := Put(Put(g, a, b, v), c, d, w), Put(Put(g, c, d, w), a, b, v);
    if v != w && !({a, b} !! {c, d}) {
      var at :| at in {a, b} && at in {c, d};
      assert x[at] == w && y[at] == v;
    }
  }

  /** The same stretches are keys. */
  ghost predicate SameKeys(g: seq<string>, h: seq<string>) {
    |g| == |h| && forall k: nat, field :: KeyAt(g, k, field) <==> KeyAt(h, k, field)
  }

  lemma PutKeepsKeys(g: seq<string>, x: nat, value: string)
    requires 0 < x < |g| && OnOneLine(g[x]) && Inert(value)
    ensures SameKeys(g, g[x := value])
  {
    forall k: nat, field ensures KeyAt(g, k, field) <==> KeyAt(g[x := value], k, field) {
      KeyAtUpdated(g, x, value, k, field);
      OneLineHoldsNoKey(g[x], field);
    }
  }

  lemma PutTwoKeepsKeys(g: seq<string>, x: nat, y: nat, value: string)
    requires 0 < x < |g| && 0 < y < |g| && OnOneLine(g[x]) && OnOneLine(g[y]) && Inert(value) && OnOneLine(value)
    ensures SameKeys(g, Put(g, x, y, value))
  {
    PutKeepsKeys(g, x, value);
    PutKeepsKeys(g[x := value], y, value);
  }

  lemma SameKeysFound(g: seq<string>, h: seq<string>, first: string, second: string, i: nat, j: nat)
    requires SameKeys(g, h) && Found(g, first, second, i, j)
    ensures Found(h, first, second, i, j)
  {
    FirstFound(h, first, i);
    KeysUpdated(g, i + 1, "", second);
    KeysUpdated(h, i + 1, "", second);
    FirstFound(h[i + 1 := ""], second, j);
  }

  lemma PutRightKeepsKeys(a: seq<string>, b: seq<string>, x: nat, value: string)
    requires |a| > 0 && |b| > 0 && x + 1 != |a| && x < |a| + |b| - 1 && OnOneLine(Glue(a, b)[x])
    requires Inert(value)
    ensures SameKeys(b, PutRight(a, b, x, value))
  {
    if |a| <= x {
      assert Glue(a, b)[x] == b[x + 1 - |a|];
      PutKeepsKeys(b, x + 1 - |a|, value);
    }
  }

  // ----- Rewriting an outer body and the inner one it ends in ------------------------------------------

  /** Every quoted value of the two fields closes on the line it opens on. */
  predicate Closed(body: string) {
    ValuesCloseOnLine(body, PUBLISHED_AT) && ValuesCloseOnLine(body, ORIGINAL_ID)
  }

  /** Which stretches a rewrite of the body writes. */
  function Writes(body: string): set<nat> {
    match FindKey(Stretches(body), PUBLISHED_AT, 0)
    case None => {}
    case Some(i) =>
      match FindKey(Stretches(body)[i + 1 := ""], ORIGINAL_ID, 0)
      case None => {}
      case Some(j) => {i + 1, j + 1}
  }

  /** How many stretches a text puts in front of what follows it: its quotes. */
  function Shift(s: string): nat {
    |Stretches(s)| - 1
  }

  predicate Misses(inner: set<nat>, shift: nat, outer: set<nat>) {
    forall x :: x in inner ==> x + shift !in outer
  }

  /** The rewrite of `lead + body` and that of `body` write no value both. */
  predicate WriteApart(lead: string, body: string) {
    Misses(Writes(body), Shift(lead), Writes(lead + body))
  }

  lemma RewriteIsPut(g: seq<string>, id: string, i: nat, j: nat)
    requires |g| > 0 && QuoteFree(g) && Inert(id) && Found(g, PUBLISHED_AT, ORIGINAL_ID, i, j)
    ensures i + 2 < |g| && j + 2 < |g|
    ensures RewriteBody(Joining.Join(g, QUOTE), id) == Ok(Joining.Join(Put(g, i + 1, j + 1, id), QUOTE))
  {
    Joining.SplitOfJoin(g, QUOTE);
    RewriteAt(g, PUBLISHED_AT, ORIGINAL_ID, i, j, id);
    SecondKeyIsElsewhere(g, PUBLISHED_AT, ORIGINAL_ID, i, j);
    RewriteIsStretchwise(Joining.Join(g, QUOTE), id);
    Joining.JoinOfSplit(RewriteBody(Joining.Join(g, QUOTE), id).value, QUOTE);
  }

  lemma ClosedAt(body: string, i: nat)
    requires Closed(body)
    ensures KeyAt(Stretches(body), i, PUBLISHED_AT) || KeyAt(Stretches(body), i, ORIGINAL_ID) ==>
              OnOneLine(Stretches(body)[i + 1])
  {
  }

  lemma WritesOf(body: string, i: nat, j: nat)
    requires Found(Stretches(body), PUBLISHED_AT, ORIGINAL_ID, i, j)
    ensures Writes(body) == {i + 1, j + 1}
  {
  }

  /** A rewritable body, by its stretches. */
  lemma BodyFound(body: string, id: string) returns (i: nat, j: nat)
    requires Inert(id) && RewriteBody(body, id).Ok?
    ensures Found(Stretches(body), PUBLISHED_AT, ORIGINAL_ID, i, j) && Writes(body) == {i + 1, j + 1}
    ensures i + 2 < |Stretches(body)| && j + 2 < |Stretches(body)|
    ensures Closed(body) ==> OnOneLine(Stretches(body)[i + 1]) && OnOneLine(Stretches(body)[j + 1])
  {
    RewriteIsStretchwise(body, id);
    i, j := RewriteFound(Stretches(body), PUBLISHED_AT, ORIGINAL_ID, id);
    SecondKeyIsElsewhere(Stretches(body), PUBLISHED_AT, ORIGINAL_ID, i, j);
    WritesOf(body, i, j);
    if Closed(body) {
      ClosedAt(body, i);
      ClosedAt(body, j);
    }
  }

  /** The parts a rewrite of the outer body leaves before and inside the inner one. */
  datatype Parts = Parts(a: seq<string>, b: seq<string>)

  function PutIn(q: Parts, x: nat, value: string): (r: Parts)
    ensures |r.a| == |q.a| && |r.b| == |q.b|
  {
    Parts(PutLeft(q.a, x, value), PutRight(q.a, q.b, x, value))
  }

  function Whole(q: Parts): seq<string>
    requires |q.a| > 0 && |q.b| > 0
  {
    Glue(q.a, q.b)
  }

  /** Where a stretch of the inner part is in the whole. */
  function At(q: Parts, x: nat): nat
    requires |q.a| > 0
  {
    |q.a| - 1 + x
  }

  /** Both values written. */
  function PutBoth(q: Parts, x: nat, y: nat, value: string): (r: Parts)
    ensures |r.a| == |q.a| && |r.b| == |q.b|
  {
    PutIn(PutIn(q, x, value), y, value)
  }

  /** A place that can be written without touching the stretch the two parts share. */
  predicate Writable(q: Parts, x: nat) {
    |q.a| > 0 && |q.b| > 0 && 0 < x < |q.a| + |q.b| - 1 && x + 1 != |q.a|
  }

  lemma PutInWhole(q: Parts, x: nat, y: nat, value: string)
    requires Writable(q, x) && Writable(q, y)
    ensures Whole(PutBoth(q, x, y, value)) == Put(Whole(q), x, y, value)
  {
    PutGlue(q.a, q.b, x, value);
    var r := PutIn(q, x, value);
    PutGlue(r.a, r.b, y, value);
  }

  lemma PutInKeepsKeys(q: Parts, x: nat, y: nat, value: string)
    requires Writable(q, x) && Writable(q, y) && OnOneLine(Whole(q)[x]) && OnOneLine(Whole(q)[y])
    requires Inert(value) && OnOneLine(value)
    ensures SameKeys(q.b, PutBoth(q, x, y, value).b)
  {
    var r := PutIn(q, x, value);
    PutRightKeepsKeys(q.a, q.b, x, value);
    PutGlue(q.a, q.b, x, value);
    assert Whole(r) == Whole(q)[x := value];
    PutRightKeepsKeys(r.a, r.b, y, value);
  }

  lemma PutInQuoteFree(q: Parts, x: nat, value: string)
    requires QuoteFree(q.a) && QuoteFree(q.b) && QUOTE !in value
    ensures QuoteFree(PutIn(q, x, value).a) && QuoteFree(PutIn(q, x, value).b)
  {
  }

  lemma PutRightOnly(q: Parts, x: nat, y: nat, value: string)
    requires |q.a| > 0 && 0 < x < |q.b| && 0 < y < |q.b|
    ensures Glue(q.a, Put(q.b, x, y, value)) == Put(Whole(q), At(q, x), At(q, y), value)
  {
    PutGlue(q.a, q.b, At(q, x), value);
    PutGlue(q.a, q.b[x := value], At(q, y), value);
  }

  lemma HexOnOneLine(id: string)
    requires IsHexObjectId(id)
    ensures OnOneLine(id)
  {
    forall k | 0 <= k < |id| ensures !EndsLine(id[k]) {
      if k < 2 {
        assert id[k] == id[..2][k];
      } else {
        assert id[k] == id[2..][k - 2];
      }
    }
  }

  function Cut(lead: string, body: string): Parts {
    Parts(Stretches(lead), Stretches(body))
  }

  lemma CutFacts(lead: string, body: string)
    ensures Whole(Cut(lead, body)) == Stretches(lead + body)
    ensures QuoteFree(Cut(lead, body).a) && QuoteFree(Cut(lead, body).b)
    ensures Joining.Join(Cut(lead, body).a, QUOTE) == lead && Joining.Join(Cut(lead, body).b, QUOTE) == body
  {
    StretchesOfConcat(lead, body);
    Joining.JoinOfSplit(lead, QUOTE);
    Joining.JoinOfSplit(body, QUOTE);
  }

  /** Where the rewriter finds the two fields of an outer body and of the inner one, neither written over the cut. */
  predicate Places(q: Parts, i: nat, j: nat, k: nat, l: nat) {
    && Writable(q, i + 1) && Writable(q, j + 1)
    && Found(Whole(q), PUBLISHED_AT, ORIGINAL_ID, i, j) && OnOneLine(Whole(q)[i + 1]) && OnOneLine(Whole(q)[j + 1])
    && k + 2 < |q.b| && l + 2 < |q.b|
    && Found(q.b, PUBLISHED_AT, ORIGINAL_ID, k, l) && OnOneLine(q.b[k + 1]) && OnOneLine(q.b[l + 1])
    && QuoteFree(q.a) && QuoteFree(q.b)
  }

  lemma WholeQuoteFree(q: Parts)
    requires |q.a| > 0 && |q.b| > 0 && QuoteFree(q.a) && QuoteFree(q.b)
    ensures QuoteFree(Whole(q))
  {
  }

  /** The outer rewrite leaves the parts it wrote into. */
  lemma OuterWrites(q: Parts, i: nat, j: nat, k: nat, l: nat, v: string)
    requires Places(q, i, j, k, l) && Inert(v)
    ensures var r := PutBoth(q, i + 1, j + 1, v);
            RewriteBody(Joining.Join(Whole(q), QUOTE), v)
            == Ok(Joining.Join(r.a, QUOTE) + Joining.Join(r.b, QUOTE))
  {
    var r := PutBoth(q, i + 1, j + 1, v);
    WholeQuoteFree(q);
    RewriteIsPut(Whole(q), v, i, j);
    PutInWhole(q, i + 1, j + 1, v);
    JoinGlue(r.a, r.b);
  }

  /** After it the inner rewrite finds its fields where they were. */
  lemma InnerWritesAfter(q: Parts, i: nat, j: nat, k: nat, l: nat, v: string, w: string)
    requires Places(q, i, j, k, l) && Inert(v) && Inert(w) && OnOneLine(v)
    ensures var r := PutBoth(q, i + 1, j + 1, v);
            RewriteBody(Joining.Join(r.b, QUOTE), w) == Ok(Joining.Join(Put(r.b, k + 1, l + 1, w), QUOTE))
  {
    var r := PutBoth(q, i + 1, j + 1, v);
    PutInKeepsKeys(q, i + 1, j + 1, v);
    SameKeysFound(q.b, r.b, PUBLISHED_AT, ORIGINAL_ID, k, l);
    PutInQuoteFree(q, i + 1, v);
    PutInQuoteFree(PutIn(q, i + 1, v), j + 1, v);
    RewriteIsPut(r.b, w, k, l);
  }

  lemma PutQuoteFree(g: seq<string>, x: nat, y: nat, value: string)
    requires QuoteFree(g) && x < |g| && y < |g| && QUOTE !in value
    ensures QuoteFree(Put(g, x, y, value))
  {
  }

  /** The inner rewrite, seen in the outer body. */
  lemma InnerWritten(q: Parts, x: nat, y: nat, value: string)
    requires |q.a| > 0 && 0 < x < |q.b| && 0 < y < |q.b|
    ensures Joining.Join(q.a, QUOTE) + Joining.Join(Put(q.b, x, y, value), QUOTE)
            == Joining.Join(Put(Whole(q), At(q, x), At(q, y), value), QUOTE)
  {
    PutRightOnly(q, x, y, value);
    JoinGlue(q.a, Put(q.b, x, y, value));
  }

  lemma RightAt(q: Parts, x: nat)
    requires |q.a| > 0 && 0 < x < |q.b|
    ensures At(q, x) < |Whole(q)| && Whole(q)[At(q, x)] == q.b[x]
  {
  }

  /** Once other values are written, the outer fields are found where they were. */
  lemma FoundAfterPut(g: seq<string>, x: nat, y: nat, w: string, i: nat, j: nat, v: string)
    requires |g| > 0 && 0 < x < |g| && 0 < y < |g| && OnOneLine(g[x]) && OnOneLine(g[y]) && QuoteFree(g)
    requires Found(g, PUBLISHED_AT, ORIGINAL_ID, i, j) && Inert(v) && Inert(w) && OnOneLine(w)
    ensures i + 2 < |g| && j + 2 < |g|
    ensures RewriteBody(Joining.Join(Put(g, x, y, w), QUOTE), v)
            == Ok(Joining.Join(Put(Put(g, x, y, w), i + 1, j + 1, v), QUOTE))
  {
    PutTwoKeepsKeys(g, x, y, w);
    SameKeysFound(g, Put(g, x, y, w), PUBLISHED_AT, ORIGINAL_ID, i, j);
    PutQuoteFree(g, x, y, w);
    RewriteIsPut(Put(g, x, y, w), v, i, j);
  }

  /** And after the inner rewrite the outer one does. */
  lemma OuterWritesAfter(q: Parts, c: nat, d: nat, i: nat, j: nat, v: string, w: string)
    requires |q.a| > 0 && QuoteFree(q.a) && QuoteFree(q.b) && Inert(v) && Inert(w) && OnOneLine(w)
    requires 0 < c < |q.b| && 0 < d < |q.b| && OnOneLine(q.b[c]) && OnOneLine(q.b[d])
    requires Found(Whole(q), PUBLISHED_AT, ORIGINAL_ID, i, j)
    ensures i + 2 < |Whole(q)| && j + 2 < |Whole(q)|
    ensures RewriteBody(Joining.Join(q.a, QUOTE) + Joining.Join(Put(q.b, c, d, w), QUOTE), v)
            == Ok(Joining.Join(Put(Put(Whole(q), At(q, c), At(q, d), w), i + 1, j + 1, v), QUOTE))
  {
    InnerWritten(q, c, d, w);
    RightAt(q, c);
    RightAt(q, d);
    WholeQuoteFree(q);
    FoundAfterPut(Whole(q), At(q, c), At(q, d), w, i, j, v);
  }

  lemma PutsSameTextIff(g: seq<string>, a: nat, b: nat, c: nat, d: nat, v: string, w: string)
    requires a < |g| && b < |g| && c < |g| && d < |g| && QuoteFree(g) && QUOTE !in v && QUOTE !in w
    ensures Joining.Join(Put(Put(g, a, b, v), c, d, w), QUOTE) == Joining.Join(Put(Put(g, c, d, w), a, b, v), QUOTE)
            <==> v == w || {a, b} !! {c, d}
  {
    PutQuoteFree(g, a, b, v);
    PutQuoteFree(g, c, d, w);
    PutQuoteFree(Put(g, a, b, v), c, d, w);
    PutQuoteFree(Put(g, c, d, w), a, b, v);
    PutsCommute(g, a, b, c, d, v, w);
    SameJoins(Put(Put(g, a, b, v), c, d, w), Put(Put(g, c, d, w), a, b, v));
  }

  lemma OuterThenInner(q: Parts, a: nat, b: nat, c: nat, d: nat, v: string, w: string)
    requires Writable(q, a) && Writable(q, b) && 0 < c < |q.b| && 0 < d < |q.b|
    ensures Joining.Join(PutBoth(q, a, b, v).a, QUOTE) + Joining.Join(Put(PutBoth(q, a, b, v).b, c, d, w), QUOTE)
            == Joining.Join(Put(Put(Whole(q), a, b, v), At(q, c), At(q, d), w), QUOTE)
  {
    var r := PutBoth(q, a, b, v);
    InnerWritten(r, c, d, w);
    assert At(r, c) == At(q, c) && At(r, d) == At(q, d);
    PutInWhole(q, a, b, v);
  }

  /** Both orders leave the same text exactly if the writes commute. */
  lemma SameTextIff(q: Parts, a: nat, b: nat, c: nat, d: nat, v: string, w: string)
    requires Writable(q, a) && Writable(q, b) && 0 < c < |q.b| && 0 < d < |q.b|
    requires QuoteFree(q.a) && QuoteFree(q.b) && QUOTE !in v && QUOTE !in w
    ensures (Joining.Join(PutBoth(q, a, b, v).a, QUOTE) + Joining.Join(Put(PutBoth(q, a, b, v).b, c, d, w), QUOTE)
             == Joining.Join(Put(Put(Whole(q), At(q, c), At(q, d), w), a, b, v), QUOTE))
            <==> v == w || {a, b} !! {At(q, c), At(q, d)}
  {
    OuterThenInner(q, a, b, c, d, v, w);
    WholeQuoteFree(q);
    RightAt(q, c);
    RightAt(q, d);
    PutsSameTextIff(Whole(q), a, b, At(q, c), At(q, d), v, w);
  }

  lemma SameJoins(g: seq<string>, h: seq<string>)
    requires |g| > 0 && |h| > 0 && QuoteFree(g) && QuoteFree(h)
    ensures Joining.Join(g, QUOTE) == Joining.Join(h, QUOTE) <==> g == h
  {
    Joining.SplitOfJoin(g, QUOTE);
    Joining.SplitOfJoin(h, QUOTE);
  }

  // ----- The inner header is still the first of its kind ------------------------------------------------

  /** The text ends in a header that stands nowhere before. */
  predicate EndsFirst(front: string, header: string) {
    && |header| <= |front| && OccursAt(front, header, |front| - |header|)
    && forall k: nat :: k + |header| < |front| ==> !OccursAt(front, header, k)
  }

  lemma EndsFirstReplaced(s: string, r: string, before: string, was: string, value: string, after: string,
                          header: string)
    requires Replaced(s, r, before, was, value, after) && EndsFirst(s, header)
    requires '[' in header && QUOTE !in header && '[' !in value
    ensures EndsFirst(r, header)
  {
    var close := |before| + 1 + |was|;
    assert s[close] == QUOTE;
    OccurrenceHoldsNoQuote(s, header, |s| - |header|);
    assert |s| - |header| > close;
    assert s[|s| - |header|..] == after[|after| - |header|..] == r[|r| - |header|..];
    assert r[|r| - |header|..|r| - |header| + |header|] == r[|r| - |header|..];
    assert s[|s| - |header|..|s| - |header| + |header|] == s[|s| - |header|..];
    BracketNotInId(value, header);
    forall k: nat | k + |header| < |r| ensures !OccursAt(r, header, k) {
      if OccursAt(r, header, k) {
        OccurrenceWasThere(s, r, before, was, value, after, header, k);
      }
    }
  }

  lemma EndsFirstPut(front: string, a: seq<string>, x: nat, value: string, header: string)
    requires |a| > 0 && x > 0 && EndsFirst(front + Joining.Join(a, QUOTE), header)
    requires '[' in header && QUOTE !in header && '[' !in value
    ensures EndsFirst(front + Joining.Join(PutLeft(a, x, value), QUOTE), header)
  {
    if x + 1 < |a| {
      var h := a[x := value];
      var before, after := Joining.Join(a[..x], QUOTE), Joining.Join(a[x + 1..], QUOTE);
      CutAt(a, x - 1);
      CutAt(h, x - 1);
      assert a[..x - 1 + 1] == a[..x] && a[x - 1 + 2..] == a[x + 1..];
      assert h[..x - 1 + 1] == a[..x] && h[x - 1 + 2..] == a[x + 1..];
      EndsFirstBetween(front, before, a[x], value, after, header);
    }
  }

  lemma EndsFirstBetween(front: string, before: string, was: string, value: string, after: string, header: string)
    requires EndsFirst(front + (before + [QUOTE] + was + [QUOTE] + after), header)
    requires '[' in header && QUOTE !in header && '[' !in value
    ensures EndsFirst(front + (before + [QUOTE] + value + [QUOTE] + after), header)
  {
    BehindFront(front, before, was, after);
    BehindFront(front, before, value, after);
    EndsFirstReplaced(front + (before + [QUOTE] + was + [QUOTE] + after),
                      front + (before + [QUOTE] + value + [QUOTE] + after), front + before, was, value, after, header);
  }

  lemma BehindFront(front: string, before: string, value: string, after: string)
    ensures front + (before + [QUOTE] + value + [QUOTE] + after)
            == (front + before) + [QUOTE] + value + [QUOTE] + after
  {
  }

  lemma FirstAfterFront(front: string, rest: string, header: string)
    requires EndsFirst(front, header)
    ensures IndexFrom(front + rest, header, 0) == Some(|front| - |header|)
  {
    var s := front + rest;
    assert s[..|front|] == front[..|front|];
    forall k: nat | k + |header| <= |front| ensures OccursAt(s, header, k) <==> OccursAt(front, header, k) {
      PrefixOccurrence(s, front, header, k, |front|);
    }
    FirstIs(s, header, 0, |front| - |header|);
  }

  lemma FrontEndsFirst(toml: string, header: string, t: Section)
    requires IsSection(toml, header, t)
    ensures EndsFirst(toml[..t.start], header)
  {
    var front := toml[..t.start];
    assert toml[..t.start] == front[..t.start];
    forall k: nat | k + |header| <= t.start ensures OccursAt(front, header, k) <==> OccursAt(toml, header, k) {
      PrefixOccurrence(front, toml, header, k, t.start);
    }
  }

  // ----- Main result --------------------------------------------------------------------------------

  /** The outer body up to the inner one. */
  function Lead(toml: string, s: Section, t: Section): string {
    if s.start <= t.start <= |toml| then toml[s.start..t.start] else ""
  }

  lemma ThreeParts(front: string, body: string, rest: string)
    ensures var r := front + (body + rest);
            && r[..|front|] == front && r[|front|..|front| + |body|] == body && r[|front| + |body|..] == rest
  {
  }

  /** After the outer rewrite, the inner section is found at the end of what stands before it. */
  lemma InnerStays(r: string, header: string, front: string, body: string, rest: string)
    requires EndsFirst(front, header) && r == front + (body + rest)
    requires EndsBody(r, |front|, |front| + |body|)
    ensures IsSection(r, header, Section(|front| - |header|, |front|, |front| + |body|))
  {
    FirstAfterFront(front, body + rest, header);
  }

  lemma RewriteAtFront(r: string, env: string, front: string, body: string, rest: string, w: string, inner: string)
    requires IsHexObjectId(w) && EndsFirst(front, Header(env)) && r == front + (body + rest)
    requires EndsBody(r, |front|, |front| + |body|) && RewriteBody(body, w) == Ok(inner)
    ensures Rewrite(r, env, w) == Ok(front + inner + rest)
  {
    InnerStays(r, Header(env), front, body, rest);
    ThreeParts(front, body, rest);
    RewriteIs(r, env, w, Section(|front| - |Header(env)|, |front|, |front| + |body|), inner);
  }

  /** The outer rewrite, then the inner one. */
  lemma OuterThenInnerFile(toml: string, s: Section, second: string, v: string, w: string,
                           lead: string, body: string, inner: string)
    requires s.start <= s.end <= |toml| && EndsBody(toml, s.start, s.end)
    requires IsHexObjectId(v) && IsHexObjectId(w) && EndsFirst(toml[..s.start] + lead, Header(second))
    requires RewriteBody(Body(toml, s), v) == Ok(lead + body) && RewriteBody(body, w) == Ok(inner)
    ensures Rewrite(Rewritten(toml, s, lead + body), second, w)
            == Ok(toml[..s.start] + (lead + inner) + toml[s.end..])
  {
    var r, front, rest := Rewritten(toml, s, lead + body), toml[..s.start], toml[s.end..];
    BodyEndStays(toml, v, s, lead + body);
    EndFromInside(r, s.start, |front + lead|, s.start + |lead + body|);
    Regrouped(front, lead, body, rest);
    Regrouped(front, lead, inner, rest);
    RewriteAtFront(r, second, front + lead, body, rest, w, inner);
    Joining.Regroup(front + lead, inner, rest);
  }

  lemma Regrouped(front: string, lead: string, body: string, rest: string)
    ensures front + (lead + body) + rest == (front + lead) + (body + rest)
  {
  }

  lemma RewriteOfOuter(r: string, env: string, whole: Section, v: string, front: string, rest: string, body: string,
                       outer: string)
    requires IsHexObjectId(v) && IsSection(r, Header(env), whole) && Body(r, whole) == body
    requires r[..whole.start] == front && r[whole.end..] == rest && RewriteBody(body, v) == Ok(outer)
    ensures Rewrite(r, env, v) == Ok(front + outer + rest)
  {
    RewriteIs(r, env, v, whole, outer);
  }

  lemma FrontKept(toml: string, s: Section, t: Section, inner: string)
    requires s.start <= t.start <= t.end <= |toml|
    ensures var r := Rewritten(toml, t, inner);
            t.start + |inner| <= |r| && r[..s.start] == toml[..s.start] && r[t.start + |inner|..] == toml[t.end..]
  {
    RewrittenSlices(toml, t, inner);
    assert Rewritten(toml, t, inner)[..t.start][..s.start] == toml[..t.start][..s.start];
  }

  /** The inner rewrite, then the outer one. */
  lemma InnerThenOuterFile(toml: string, first: string, second: string, s: Section, t: Section, v: string, w: string,
                           inner: string, outer: string)
    requires IsPlain(first) && IsPlain(second) && IsHexObjectId(v) && IsHexObjectId(w)
    requires IsSection(toml, Header(first), s) && IsSection(toml, Header(second), t)
    requires s.header < t.header && !Before(s, t)
    requires RewriteBody(Body(toml, t), w) == Ok(inner)
    requires RewriteBody(Lead(toml, s, t) + inner, v) == Ok(outer)
    ensures Rewrite(Rewritten(toml, t, inner), first, v) == Ok(toml[..s.start] + outer + toml[s.end..])
  {
    InnerSection(toml, first, second, s, t);
    OuterBody(toml, first, s, t, w, inner);
    FrontKept(toml, s, t, inner);
    RewriteOfOuter(Rewritten(toml, t, inner), first, Section(s.header, s.start, t.start + |inner|), v, toml[..s.start],
                   toml[s.end..], Lead(toml, s, t) + inner, outer);
  }

  lemma FrontOfLead(toml: string, s: Section, t: Section)
    requires s.start <= t.start <= s.end == t.end <= |toml|
    ensures toml[..s.start] + Lead(toml, s, t) == toml[..t.start]
    ensures Lead(toml, s, t) + Body(toml, t) == Body(toml, s)
  {
  }

  lemma SameBetween(front: string, x: string, y: string, rest: string)
    ensures front + x + rest == front + y + rest <==> x == y
  {
    if front + x + rest == front + y + rest {
      assert |x| == |y|;
      assert x == (front + x + rest)[|front|..|front| + |x|];
      assert y == (front + y + rest)[|front|..|front| + |y|];
    }
  }

  lemma LeadEndsFirst(toml: string, s: Section, t: Section, second: string, q: Parts, a: nat, b: nat, v: string)
    requires IsSection(toml, Header(second), t) && s.start <= t.start <= s.end == t.end && IsPlain(second)
    requires |q.a| > 0 && Joining.Join(q.a, QUOTE) == Lead(toml, s, t) && a > 0 && b > 0 && '[' !in v
    ensures EndsFirst(toml[..s.start] + Joining.Join(PutBoth(q, a, b, v).a, QUOTE), Header(second))
  {
    HeaderChars(second);
    FrontOfLead(toml, s, t);
    FrontEndsFirst(toml, Header(second), t);
    EndsFirstPut(toml[..s.start], q.a, a, v, Header(second));
    EndsFirstPut(toml[..s.start], PutIn(q, a, v).a, b, v, Header(second));
  }

  /** Where the outer rewrite does not write over the inner header. */
  predicate HeaderStays(toml: string, s: Section, t: Section)
    requires s.start <= s.end <= |toml|
  {
    Shift(Lead(toml, s, t)) !in Writes(Body(toml, s))
  }

  lemma MissesIff(a: set<nat>, b: set<nat>, p: nat, i: nat, j: nat, k: nat, l: nat, x: nat, y: nat)
    requires a == {i, j} && b == {k, l} && x == p + k && y == p + l
    ensures Misses(b, p, a) <==> {i, j} !! {x, y}
  {
    if Misses(b, p, a) {
      assert k in b && l in b;
    }
  }

  lemma PlacesOf(lead: string, body: string, v: string, w: string) returns (i: nat, j: nat, k: nat, l: nat)
    requires Inert(v) && Inert(w) && RewriteBody(lead + body, v).Ok? && RewriteBody(body, w).Ok?
    requires Closed(lead + body) && Closed(body) && Shift(lead) !in Writes(lead + body)
    ensures Places(Cut(lead, body), i, j, k, l)
    ensures Writes(lead + body) == {i + 1, j + 1} && Writes(body) == {k + 1, l + 1}
  {
    CutFacts(lead, body);
    i, j := BodyFound(lead + body, v);
    k, l := BodyFound(body, w);
    assert i + 1 in Writes(lead + body) && j + 1 in Writes(lead + body);
  }

  /** What both orders of rewriting do to the parts. */
  lemma OuterFirst(toml: string, second: string, s: Section, t: Section, v: string, w: string,
                   q: Parts, i: nat, j: nat, k: nat, l: nat)
    requires IsHexObjectId(v) && IsHexObjectId(w) && IsPlain(second) && Places(q, i, j, k, l)
    requires IsSection(toml, Header(second), t) && s.start <= t.start <= s.end == t.end
    requires EndsBody(toml, s.start, s.end)
    requires Joining.Join(q.a, QUOTE) == Lead(toml, s, t) && Joining.Join(Whole(q), QUOTE) == Body(toml, s)
    ensures var r := PutBoth(q, i + 1, j + 1, v);
            && RewriteBody(Body(toml, s), v) == Ok(Joining.Join(r.a, QUOTE) + Joining.Join(r.b, QUOTE))
            && Rewrite(Rewritten(toml, s, Joining.Join(r.a, QUOTE) + Joining.Join(r.b, QUOTE)), second, w)
               == Ok(toml[..s.start] + (Joining.Join(r.a, QUOTE) + Joining.Join(Put(r.b, k + 1, l + 1, w), QUOTE))
                     + toml[s.end..])
  {
    var r := PutBoth(q, i + 1, j + 1, v);
    HexIdIsInert(v);
    HexIdIsInert(w);
    HexOnOneLine(v);
    OuterWrites(q, i, j, k, l, v);
    InnerWritesAfter(q, i, j, k, l, v, w);
    LeadEndsFirst(toml, s, t, second, q, i + 1, j + 1, v);
    OuterThenInnerFile(toml, s, second, v, w, Joining.Join(r.a, QUOTE), Joining.Join(r.b, QUOTE),
                       Joining.Join(Put(r.b, k + 1, l + 1, w), QUOTE));
  }

  lemma InnerBody(q: Parts, i: nat, j: nat, k: nat, l: nat, w: string)
    requires Inert(w) && Places(q, i, j, k, l)
    ensures RewriteBody(Joining.Join(q.b, QUOTE), w) == Ok(Joining.Join(Put(q.b, k + 1, l + 1, w), QUOTE))
  {
    RewriteIsPut(q.b, w, k, l);
  }

  lemma OuterBodyAfter(q: Parts, i: nat, j: nat, k: nat, l: nat, v: string, w: string)
    requires Inert(v) && Inert(w) && OnOneLine(w) && Places(q, i, j, k, l)
    ensures RewriteBody(Joining.Join(q.a, QUOTE) + Joining.Join(Put(q.b, k + 1, l + 1, w), QUOTE), v)
            == Ok(Joining.Join(Put(Put(Whole(q), At(q, k + 1), At(q, l + 1), w), i + 1, j + 1, v), QUOTE))
  {
    OuterWritesAfter(q, k + 1, l + 1, i, j, v, w);
  }

  lemma InnerFirst(toml: string, first: string, second: string, s: Section, t: Section, v: string, w: string,
                   q: Parts, i: nat, j: nat, k: nat, l: nat)
    requires IsHexObjectId(v) && IsHexObjectId(w) && IsPlain(first) && IsPlain(second) && Places(q, i, j, k, l)
    requires IsSection(toml, Header(first), s) && IsSection(toml, Header(second), t)
    requires s.header < t.header && !Before(s, t)
    requires Joining.Join(q.a, QUOTE) == Lead(toml, s, t) && Joining.Join(q.b, QUOTE) == Body(toml, t)
    ensures var inner := Joining.Join(Put(q.b, k + 1, l + 1, w), QUOTE);
            && RewriteBody(Body(toml, t), w) == Ok(inner)
            && Rewrite(Rewritten(toml, t, inner), first, v)
               == Ok(toml[..s.start]
                     + Joining.Join(Put(Put(Whole(q), At(q, k + 1), At(q, l + 1), w), i + 1, j + 1, v), QUOTE)
                     + toml[s.end..])
  {
    HexIdIsInert(v);
    HexIdIsInert(w);
    HexOnOneLine(w);
    InnerBody(q, i, j, k, l, w);
    OuterBodyAfter(q, i, j, k, l, v, w);
    InnerThenOuterFile(toml, first, second, s, t, v, w, Joining.Join(Put(q.b, k + 1, l + 1, w), QUOTE),
                       Joining.Join(Put(Put(Whole(q), At(q, k + 1), At(q, l + 1), w), i + 1, j + 1, v), QUOTE));
  }

  lemma NestedCommuteIff(toml: string, first: string, second: string, v: string, w: string, s: Section, t: Section,
                         q: Parts, i: nat, j: nat, k: nat, l: nat)
    requires IsHexObjectId(v) && IsHexObjectId(w) && IsPlain(first) && IsPlain(second) && Places(q, i, j, k, l)
    requires IsSection(toml, Header(first), s) && IsSection(toml, Header(second), t)
    requires s.header < t.header && !Before(s, t) && s.start <= t.start <= s.end == t.end
    requires Joining.Join(q.a, QUOTE) == Lead(toml, s, t) && Joining.Join(q.b, QUOTE) == Body(toml, t)
    requires Joining.Join(Whole(q), QUOTE) == Body(toml, s)
    ensures Rewrite(toml, first, v).Ok? && Rewrite(toml, second, w).Ok?
    ensures Rewrite(Rewrite(toml, first, v).value, second, w) == Rewrite(Rewrite(toml, second, w).value, first, v)
            <==> v == w || {i + 1, j + 1} !! {At(q, k + 1), At(q, l + 1)}
  {
    var r := PutBoth(q, i + 1, j + 1, v);
    OuterFirst(toml, second, s, t, v, w, q, i, j, k, l);
    InnerFirst(toml, first, second, s, t, v, w, q, i, j, k, l);
    RewriteIs(toml, first, v, s, Joining.Join(r.a, QUOTE) + Joining.Join(r.b, QUOTE));
    RewriteIs(toml, second, w, t, Joining.Join(Put(q.b, k + 1, l + 1, w), QUOTE));
    SameBetween(toml[..s.start], Joining.Join(r.a, QUOTE) + Joining.Join(Put(r.b, k + 1, l + 1, w), QUOTE),
                Joining.Join(Put(Put(Whole(q), At(q, k + 1), At(q, l + 1), w), i + 1, j + 1, v), QUOTE),
                toml[s.end..]);
    HexIdIsInert(v);
    HexIdIsInert(w);
    SameTextIff(q, i + 1, j + 1, k + 1, l + 1, v, w);
  }

  lemma WriteApartSets(lead: string, body: string, i: nat, j: nat, k: nat, l: nat, x: nat, y: nat)
    requires Writes(lead + body) == {i, j} && Writes(body) == {k, l}
    requires x == At(Cut(lead, body), k) && y == At(Cut(lead, body), l)
    ensures WriteApart(lead, body) <==> {i, j} !! {x, y}
  {
    AtIsShift(lead, body, k);
    AtIsShift(lead, body, l);
    MissesIff(Writes(lead + body), Writes(body), Shift(lead), i, j, k, l, x, y);
  }

  lemma WriteApartIff(lead: string, body: string, i: nat, j: nat, k: nat, l: nat)
    requires Writes(lead + body) == {i + 1, j + 1} && Writes(body) == {k + 1, l + 1}
    ensures WriteApart(lead, body) <==> {i + 1, j + 1} !! {At(Cut(lead, body), k + 1), At(Cut(lead, body), l + 1)}
  {
    WriteApartSets(lead, body, i + 1, j + 1, k + 1, l + 1, At(Cut(lead, body), k + 1), At(Cut(lead, body), l + 1));
  }

  lemma AtIsShift(lead: string, body: string, x: nat)
    ensures At(Cut(lead, body), x) == Shift(lead) + x
  {
  }

  lemma RewritableBody(toml: string, env: string, id: string, s: Section)
    requires FindSection(toml, env) == Some(s) && Rewrite(toml, env, id).Ok?
    ensures IsSection(toml, Header(env), s) && IsHexObjectId(id) && RewriteBody(Body(toml, s), id).Ok?
  {
    SectionParts(toml, env, s);
  }

  lemma CutCommuteIff(toml: string, first: string, second: string, v: string, w: string, s: Section, t: Section,
                      lead: string, body: string)
    requires IsHexObjectId(v) && IsHexObjectId(w) && IsPlain(first) && IsPlain(second)
    requires IsSection(toml, Header(first), s) && IsSection(toml, Header(second), t)
    requires s.header < t.header && !Before(s, t) && s.start <= t.start <= s.end == t.end
    requires lead == Lead(toml, s, t) && body == Body(toml, t) && lead + body == Body(toml, s)
    requires RewriteBody(lead + body, v).Ok? && RewriteBody(body, w).Ok?
    requires Closed(lead + body) && Closed(body) && Shift(lead) !in Writes(lead + body)
    ensures Rewrite(toml, first, v).Ok? && Rewrite(toml, second, w).Ok?
    ensures Rewrite(Rewrite(toml, first, v).value, second, w) == Rewrite(Rewrite(toml, second, w).value, first, v)
            <==> v == w || WriteApart(lead, body)
  {
    HexIdIsInert(v);
    HexIdIsInert(w);
    var i, j, k, l := PlacesOf(lead, body, v, w);
    CutFacts(lead, body);
    Joining.JoinOfSplit(lead + body, QUOTE);
    NestedCommuteIff(toml, first, second, v, w, s, t, Cut(lead, body), i, j, k, l);
    WriteApartIff(lead, body, i, j, k, l);
  }

  /** Where one header stands inside the other section, with values that close on their lines and the header outside
      the values written, the rewrites commute exactly if the ids are the same or no value is written by both. */
  lemma NestedRewritesCommuteIff(toml: string, first: string, second: string, v: string, w: string,
                                 s: Section, t: Section)
    requires IsPlain(first) && IsPlain(second)
    requires FindSection(toml, first) == Some(s) && FindSection(toml, second) == Some(t)
    requires s.header < t.header && !Before(s, t)
    requires Rewrite(toml, first, v).Ok? && Rewrite(toml, second, w).Ok?
    requires Closed(Body(toml, s)) && Closed(Body(toml, t))
    requires HeaderStays(toml, s, t)
    ensures Rewrite(Rewrite(toml, first, v).value, second, w) == Rewrite(Rewrite(toml, second, w).value, first, v)
            <==> v == w || WriteApart(Lead(toml, s, t), Body(toml, t))
  {
    RewritableBody(toml, first, v, s);
    RewritableBody(toml, second, w, t);
    InnerSection(toml, first, second, s, t);
    FrontOfLead(toml, s, t);
    CutCommuteIff(toml, first, second, v, w, s, t, Lead(toml, s, t), Body(toml, t));
  }

  /** Whichever of two sections begins later stands behind the other, or has its header inside it, outside the values
      that are written there. */
  predicate HeadersStay(toml: string, s: Section, t: Section)
    requires s.start <= s.end <= |toml| && t.start <= t.end <= |toml|
  {
    Apart(s, t) || (if s.header < t.header then HeaderStays(toml, s, t) else HeaderStays(toml, t, s))
  }

  /** No quoted value is written by the rewrites of both sections. */
  predicate NoValueTwice(toml: string, s: Section, t: Section)
    requires s.start <= s.end <= |toml| && t.start <= t.end <= |toml|
  {
    Apart(s, t)
    || (if s.header < t.header then WriteApart(Lead(toml, s, t), Body(toml, t))
        else WriteApart(Lead(toml, t, s), Body(toml, s)))
  }

  /** The rewrites of two different networks whose values close on their lines give the same file in either order
      exactly if both write the same id, or no value is written by both. */
  lemma RewritesCommuteIff(toml: string, first: string, second: string, v: string, w: string, s: Section, t: Section)
    requires IsPlain(first) && IsPlain(second) && first != second
    requires FindSection(toml, first) == Some(s) && FindSection(toml, second) == Some(t)
    requires Rewrite(toml, first, v).Ok? && Rewrite(toml, second, w).Ok?
    requires Closed(Body(toml, s)) && Closed(Body(toml, t)) && HeadersStay(toml, s, t)
    ensures Rewrite(Rewrite(toml, first, v).value, second, w) == Rewrite(Rewrite(toml, second, w).value, first, v)
            <==> v == w || NoValueTwice(toml, s, t)
  {
    SectionParts(toml, first, s);
    SectionParts(toml, second, t);
    SectionsDiffer(toml, first, second, s, t);
    if Apart(s, t) {
      RewritesCommute(toml, first, second, v, w);
    } else if s.header < t.header {
      NestedRewritesCommuteIff(toml, first, second, v, w, s, t);
    } else {
      NestedRewritesCommuteIff(toml, second, first, w, v, t, s);
    }
  }
}
