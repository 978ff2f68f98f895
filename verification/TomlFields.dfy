/** The quoted fields of a Published.toml section: how scripts/republish_contracts_bootstrap.ts replaces them and
    how scripts/resolve_published_contract_ids.ts reads them. Neither the key part of the pattern nor the value
    can hold a quote, so a match is a stretch between quotes that ends in the key, and the stretch after it. */
module TomlFields {
  import opened Prelude
  import opened JsText
  import opened Joining

  const QUOTE: char := '"'
  const PUBLISHED_AT: string := "published-at"
  const ORIGINAL_ID: string := "original-id"

  predicate EndsLine(c: char) {
    c == '\n' || c == '\r' || c == '\U{2028}' || c == '\U{2029}'
  }

  /** Where `^` matches with the `m` flag. */
  predicate LineStart(s: string, p: nat)
    requires p <= |s|
  {
    p == 0 || EndsLine(s[p - 1])
  }

  /** `\s*FIELD\s*=\s*`, from end to end. */
  predicate IsKey(key: string, field: string) {
    var named := TrimStart(key);
    && field <= named
    && var equals := TrimStart(named[|field|..]);
       |equals| > 0 && equals[0] == '=' && TrimStart(equals[1..]) == ""
  }

  predicate KeyFrom(s: string, field: string, p: nat) {
    p <= |s| && LineStart(s, p) && QUOTE !in s[p..] && IsKey(s[p..], field)
  }

  predicate EndsInKey(s: string, field: string) {
    exists p: nat | p <= |s| :: KeyFrom(s, field, p)
  }

  /** One match of the pattern: what stands before the opening quote ends in the key of a line. */
  predicate IsMatch(s: string, field: string, before: string, value: string, after: string) {
    s == before + [QUOTE] + value + [QUOTE] + after && QUOTE !in value && EndsInKey(before, field)
  }

  // ----- The search over the stretches -----------------------------------------------------------

  /** Only the first stretch of a text starts a line at its own start; later ones follow a quote. */
  predicate StretchKeyFrom(stretch: string, atStart: bool, field: string, p: nat) {
    p <= |stretch| && (if p == 0 then atStart else EndsLine(stretch[p - 1])) && IsKey(stretch[p..], field)
  }

  predicate StretchEndsInKey(stretch: string, atStart: bool, field: string) {
    exists p: nat | p <= |stretch| :: StretchKeyFrom(stretch, atStart, field, p)
  }

  /** A key with a value that is closed. */
  predicate KeyAt(g: seq<string>, i: nat, field: string) {
    i + 2 < |g| && StretchEndsInKey(g[i], i == 0, field)
  }

  function FindKey(g: seq<string>, field: string, from: nat): (i: Option<nat>)
    ensures i.Some? ==> from <= i.value && KeyAt(g, i.value, field)
    ensures i.Some? ==> forall k :: from <= k < i.value ==> !KeyAt(g, k, field)
    ensures i.None? ==> forall k :: from <= k ==> !KeyAt(g, k, field)
    decreases |g| - from
  {
    if from + 2 >= |g| then None
    else if KeyAt(g, from, field) then Some(from)
    else FindKey(g, field, from + 1)
  }

  /** `"([^"]+)"`: the reader passes over an empty value. */
  function FindFilled(g: seq<string>, field: string, from: nat): (i: Option<nat>)
    ensures i.Some? ==> from <= i.value && KeyAt(g, i.value, field) && g[i.value + 1] != ""
    ensures i.Some? ==> forall k :: from <= k < i.value && KeyAt(g, k, field) ==> g[k + 1] == ""
    ensures i.None? ==> forall k :: from <= k && KeyAt(g, k, field) ==> g[k + 1] == ""
    decreases |g| - from
  {
    if from + 2 >= |g| then None
    else if KeyAt(g, from, field) && g[from + 1] != "" then Some(from)
    else FindFilled(g, field, from + 1)
  }

  datatype Error = BadPackageId | MissingSection | MissingField(field: string) | NoPublishedAt

  function Stretches(s: string): (g: seq<string>)
    ensures |g| > 0
  {
    Split(s, QUOTE)
  }

  /** `replaceTomlField`. */
  function ReplaceField(body: string, field: string, value: string): Result<string, Error> {
    match FindKey(Stretches(body), field, 0)
    case None => Err(MissingField(field))
    case Some(i) => Ok(Join(Stretches(body)[i + 1 := value], QUOTE))
  }

  function RewriteBody(body: string, id: string): Result<string, Error> {
    match ReplaceField(body, PUBLISHED_AT, id)
    case Err(e) => Err(e)
    case Ok(published) => ReplaceField(published, ORIGINAL_ID, id)
  }

  /** The first filled value of the field from a stretch on. */
  function ReadFrom(g: seq<string>, field: string, from: nat): Option<string> {
    match FindFilled(g, field, from)
    case None => None
    case Some(i) => Some(g[i + 1])
  }

  function ReadField(body: string): Option<string> {
    ReadFrom(Stretches(body), PUBLISHED_AT, 0)
  }

  // ----- The search finds the leftmost match -----------------------------------------------------

  lemma {:induction false} SplitConcat(a: string, b: string)
    ensures Stretches(a + [QUOTE] + b) == Stretches(a) + Stretches(b)
    decreases |a|
  {
    var s := a + [QUOTE] + b;
    if |a| == 0 {
      assert s[1..] == b;
      assert Stretches("") == [""];
    } else {
      assert s[1..] == a[1..] + [QUOTE] + b;
      SplitConcat(a[1..], b);
    }
  }

  function Last(g: seq<string>): string
    requires |g| > 0
  {
    g[|g| - 1]
  }

  lemma {:induction false} JoinConcat(a: seq<string>, b: seq<string>)
    requires |a| > 0 && |b| > 0
    ensures Join(a + b, QUOTE) == Join(a, QUOTE) + [QUOTE] + Join(b, QUOTE)
  {
    if |a| == 1 {
      assert (a + b)[1..] == b;
    } else {
      assert (a + b)[1..] == a[1..] + b;
      JoinConcat(a[1..], b);
    }
  }

  lemma LastAfterQuote(g: seq<string>)
    requires |g| > 1
    ensures Join(g, QUOTE) == Join(g[..|g| - 1], QUOTE) + [QUOTE] + Last(g)
  {
    var front := g[..|g| - 1];
    Cut(g, |g| - 1);
    assert g[|g| - 1..] == [Last(g)];
    JoinConcat(front, [Last(g)]);
  }

  lemma JoinTail(g: seq<string>, tail: string)
    requires |g| > 0
    ensures Join(g[|g| - 1 := Last(g) + tail], QUOTE) == Join(g, QUOTE) + tail
  {
    var h := g[|g| - 1 := Last(g) + tail];
    if |g| > 1 {
      LastAfterQuote(g);
      LastAfterQuote(h);
      assert h[..|h| - 1] == g[..|g| - 1];
      Regroup(Join(g[..|g| - 1], QUOTE) + [QUOTE], Last(g), tail);
    }
  }

  /** A tail without quotes only lengthens the last stretch. */
  lemma SplitTail(a: string, tail: string)
    requires QUOTE !in tail
    ensures Stretches(a + tail) == Stretches(a)[|Stretches(a)| - 1 := Last(Stretches(a)) + tail]
  {
    var g := Stretches(a);
    JoinOfSplit(a, QUOTE);
    JoinTail(g, tail);
    SplitOfJoin(g[|g| - 1 := Last(g) + tail], QUOTE);
  }

  /** The last stretch is what follows the last quote. */
  lemma LastIsSuffix(s: string)
    ensures var last := Last(Stretches(s));
            && |last| <= |s| && s[|s| - |last|..] == last && QUOTE !in last
            && (|last| == |s| ==> |Stretches(s)| == 1)
            && (|last| < |s| ==> |Stretches(s)| > 1 && s[|s| - |last| - 1] == QUOTE)
  {
    var g := Stretches(s);
    JoinOfSplit(s, QUOTE);
    if |g| > 1 {
      LastAfterQuote(g);
      Halves(Join(g[..|g| - 1], QUOTE) + [QUOTE], Last(g));
    }
  }

  lemma KeyIntoStretch(s: string, field: string, p: nat) returns (q: nat)
    requires KeyFrom(s, field, p)
    ensures StretchKeyFrom(Last(Stretches(s)), |Stretches(s)| == 1, field, q)
  {
    var front := Last(Stretches(s[..p]));
    SplitTail(s[..p], s[p..]);
    LastIsSuffix(s[..p]);
    assert s == s[..p] + s[p..];
    q := |front|;
    assert Last(Stretches(s))[q..] == s[p..];
    if q > 0 {
      assert Last(Stretches(s))[q - 1] == front[q - 1] == s[p - 1];
    }
  }

  lemma KeyOutOfStretch(s: string, field: string, q: nat) returns (p: nat)
    requires StretchKeyFrom(Last(Stretches(s)), |Stretches(s)| == 1, field, q)
    ensures KeyFrom(s, field, p)
  {
    var last := Last(Stretches(s));
    LastIsSuffix(s);
    p := |s| - |last| + q;
    assert s[|s| - |last|..][q..] == s[p..];
    if q > 0 {
      assert s[|s| - |last|..][q - 1] == s[p - 1];
    }
  }

  lemma KeyIsInLastStretch(s: string, field: string)
    ensures EndsInKey(s, field) <==> StretchEndsInKey(Last(Stretches(s)), |Stretches(s)| == 1, field)
  {
    if EndsInKey(s, field) {
      var p :| KeyFrom(s, field, p);
      var q := KeyIntoStretch(s, field, p);
    }
    if StretchEndsInKey(Last(Stretches(s)), |Stretches(s)| == 1, field) {
      var q :| StretchKeyFrom(Last(Stretches(s)), |Stretches(s)| == 1, field, q);
      var p := KeyOutOfStretch(s, field, q);
    }
  }

  /** A match, seen from the stretches. */
  lemma MatchStretches(s: string, field: string, before: string, value: string, after: string)
    requires IsMatch(s, field, before, value, after)
    ensures Stretches(s) == Stretches(before) + [value] + Stretches(after)
    ensures KeyAt(Stretches(s), |Stretches(before)| - 1, field)
  {
    SplitConcat(before, value + [QUOTE] + after);
    SplitConcat(value, after);
    SplitOfOne(value, QUOTE);
    assert s == before + [QUOTE] + (value + [QUOTE] + after);
    KeyIsInLastStretch(before, field);
  }

  lemma CutAt(g: seq<string>, i: nat)
    requires i + 2 < |g|
    ensures Join(g, QUOTE) == Join(g[..i + 1], QUOTE) + [QUOTE] + g[i + 1] + [QUOTE] + Join(g[i + 2..], QUOTE)
  {
    JoinConcat(g[..i + 1], g[i + 1..]);
    assert g == g[..i + 1] + g[i + 1..];
    assert g[i + 1..][1..] == g[i + 2..];
    Associate(Join(g[..i + 1], QUOTE) + [QUOTE], g[i + 1], [QUOTE], Join(g[i + 2..], QUOTE));
  }

  /** What the search finds is a match of the pattern. */
  lemma FoundIsMatch(s: string, field: string, i: nat)
    requires KeyAt(Stretches(s), i, field)
    ensures var g := Stretches(s);
            IsMatch(s, field, Join(g[..i + 1], QUOTE), g[i + 1], Join(g[i + 2..], QUOTE))
  {
    var g := Stretches(s);
    JoinOfSplit(s, QUOTE);
    CutAt(g, i);
    SplitOfJoin(g[..i + 1], QUOTE);
    KeyIsInLastStretch(Join(g[..i + 1], QUOTE), field);
  }

  /** And no match opens its value earlier: the search is the leftmost match of the pattern, the one that
      `exec`, `test` and `replace` use. */
  lemma FoundIsLeftmost(s: string, field: string, before: string, value: string, after: string)
    requires IsMatch(s, field, before, value, after)
    ensures FindKey(Stretches(s), field, 0).Some?
    ensures var g, i := Stretches(s), FindKey(Stretches(s), field, 0).value;
            Join(g[..i + 1], QUOTE) <= before
  {
    MatchStretches(s, field, before, value, after);
    NoLaterIsLonger(s, before, FindKey(Stretches(s), field, 0).value);
  }

  lemma NoLaterIsLonger(s: string, before: string, i: nat)
    requires |Stretches(before)| <= |Stretches(s)| && Stretches(s)[..|Stretches(before)|] == Stretches(before)
    requires i < |Stretches(before)|
    ensures Join(Stretches(s)[..i + 1], QUOTE) <= before
  {
    var g, n := Stretches(s), |Stretches(before)|;
    JoinOfSplit(before, QUOTE);
    if i + 1 < n {
      JoinConcat(g[..i + 1], g[i + 1..n]);
      assert g[..n] == g[..i + 1] + g[i + 1..n];
    }
  }

  /** The match whose value the reader takes: the first whose value is not empty. */
  ghost predicate IsFirstFilled(s: string, field: string, before: string, value: string, after: string) {
    && IsMatch(s, field, before, value, after) && value != ""
    && forall b, v, a :: IsMatch(s, field, b, v, a) && v != "" ==> before <= b
  }

  lemma FilledIsLeftmost(s: string, field: string, before: string, value: string, after: string)
    requires IsMatch(s, field, before, value, after) && value != ""
    ensures FindFilled(Stretches(s), field, 0).Some?
    ensures Join(Stretches(s)[..FindFilled(Stretches(s), field, 0).value + 1], QUOTE) <= before
  {
    MatchStretches(s, field, before, value, after);
    NoLaterIsLonger(s, before, FindFilled(Stretches(s), field, 0).value);
  }

  lemma FilledIsFirst(s: string, field: string, i: nat)
    requires FindFilled(Stretches(s), field, 0) == Some(i)
    ensures var g := Stretches(s);
            IsFirstFilled(s, field, Join(g[..i + 1], QUOTE), g[i + 1], Join(g[i + 2..], QUOTE))
  {
    FoundIsMatch(s, field, i);
    forall b, v, a | IsMatch(s, field, b, v, a) && v != "" ensures Join(Stretches(s)[..i + 1], QUOTE) <= b {
      FilledIsLeftmost(s, field, b, v, a);
    }
  }

  lemma SameBefore(s: string, field: string, before: string, v: string, w: string, a: string, b: string)
    requires IsMatch(s, field, before, v, a) && IsMatch(s, field, before, w, b)
    ensures v == w
  {
    MatchStretches(s, field, before, v, a);
    MatchStretches(s, field, before, w, b);
    assert Stretches(s)[|Stretches(before)|] == v;
  }

  /** The reader gives the first value that is not empty, and nothing exactly where there is none. */
  lemma ReadsFirstFilled(body: string, id: string)
    ensures ReadField(body) == Some(id)
            <==> exists before, after :: IsFirstFilled(body, PUBLISHED_AT, before, id, after)
  {
    var i := FindFilled(Stretches(body), PUBLISHED_AT, 0);
    if i.Some? {
      FilledIsFirst(body, PUBLISHED_AT, i.value);
    }
    forall before, after | IsFirstFilled(body, PUBLISHED_AT, before, id, after) ensures ReadField(body) == Some(id) {
      FilledIsLeftmost(body, PUBLISHED_AT, before, id, after);
      var g := Stretches(body);
      assert before == Join(g[..i.value + 1], QUOTE);
      SameBefore(body, PUBLISHED_AT, before, id, g[i.value + 1], after, Join(g[i.value + 2..], QUOTE));
    }
  }

  /** The only text that changes is the value of the leftmost match. */
  lemma ReplaceChangesValueOnly(body: string, field: string, value: string, before: string, was: string, after: string)
    requires IsMatch(body, field, before, was, after)
    requires FindKey(Stretches(body), field, 0) == Some(|Stretches(before)| - 1)
    ensures ReplaceField(body, field, value) == Ok(before + [QUOTE] + value + [QUOTE] + after)
  {
    var g, i := Stretches(body), |Stretches(before)| - 1;
    MatchStretches(body, field, before, was, after);
    var h := g[i + 1 := value];
    CutAt(h, i);
    assert h[..i + 1] == Stretches(before) && h[i + 2..] == Stretches(after);
    JoinOfSplit(before, QUOTE);
    JoinOfSplit(after, QUOTE);
  }

  // ----- Rewriting, then reading or rewriting again ----------------------------------------------

  /** A value that can be nothing but a value: no quote to close it, no `=` to make it a key. */
  predicate Inert(value: string) {
    QUOTE !in value && '=' !in value
  }

  lemma InertHoldsNoKey(value: string, atStart: bool, field: string)
    requires '=' !in value
    ensures !StretchEndsInKey(value, atStart, field)
  {
    forall p: nat | p <= |value| ensures !IsKey(value[p..], field) {
      if IsKey(value[p..], field) {
        KeyHoldsEquals(value[p..], field);
      }
    }
  }

  lemma KeyHoldsEquals(key: string, field: string)
    requires IsKey(key, field)
    ensures '=' in key
  {
    var named := TrimStart(key);
    var equals := TrimStart(named[|field|..]);
    var a := TrimStartParts(key);
    var b := TrimStartParts(named[|field|..]);
    assert key == a + named && named == named[..|field|] + named[|field|..];
    assert named[|field|..] == b + equals;
    assert '=' in equals;
    assert '=' in named[|field|..];
    assert '=' in named;
  }

  /** What the rewriter does to the stretches, for the two fields it replaces in turn. */
  function RewriteStretches(g: seq<string>, first: string, second: string, id: string): Result<seq<string>, Error> {
    match FindKey(g, first, 0)
    case None => Err(MissingField(first))
    case Some(i) =>
      var h := g[i + 1 := id];
      match FindKey(h, second, 0)
      case None => Err(MissingField(second))
      case Some(j) => Ok(h[j + 1 := id])
  }

  lemma ReplaceIsStretchwise(body: string, field: string, id: string)
    requires QUOTE !in id
    ensures FindKey(Stretches(body), field, 0).None? ==> ReplaceField(body, field, id) == Err(MissingField(field))
    ensures FindKey(Stretches(body), field, 0).Some? ==>
              && ReplaceField(body, field, id).Ok?
              && Stretches(ReplaceField(body, field, id).value)
                 == Stretches(body)[FindKey(Stretches(body), field, 0).value + 1 := id]
  {
    var g := Stretches(body);
    JoinOfSplit(body, QUOTE);
    if FindKey(g, field, 0).Some? {
      SplitOfJoin(g[FindKey(g, field, 0).value + 1 := id], QUOTE);
    }
  }

  /** The same outcome, as a text and as its stretches. */
  predicate HasStretches(x: Result<string, Error>, r: Result<seq<string>, Error>) {
    && (r.Err? ==> x == Err(r.error))
    && (r.Ok? ==> x.Ok? && Stretches(x.value) == r.value)
  }

  lemma RewriteIsStretchwise(body: string, id: string)
    requires QUOTE !in id
    ensures HasStretches(RewriteBody(body, id), RewriteStretches(Stretches(body), PUBLISHED_AT, ORIGINAL_ID, id))
  {
    ReplaceIsStretchwise(body, PUBLISHED_AT, id);
    if ReplaceField(body, PUBLISHED_AT, id).Ok? {
      ReplaceIsStretchwise(ReplaceField(body, PUBLISHED_AT, id).value, ORIGINAL_ID, id);
    }
  }

  lemma KeyAtUpdated(g: seq<string>, at: nat, value: string, k: nat, field: string)
    requires at < |g| && '=' !in value
    ensures KeyAt(g[at := value], k, field) <==> k != at && KeyAt(g, k, field)
  {
    InertHoldsNoKey(value, k == 0, field);
  }

  /** The keys of one list are those of another but for two stretches. */
  ghost predicate KeysLeft(g: seq<string>, h: seq<string>, p: nat, q: nat, field: string) {
    |h| == |g| && forall k: nat :: KeyAt(h, k, field) <==> k != p && k != q && KeyAt(g, k, field)
  }

  lemma KeysUpdated(g: seq<string>, at: nat, value: string, field: string)
    requires at < |g| && '=' !in value
    ensures KeysLeft(g, g[at := value], at, at, field)
  {
    forall k: nat ensures KeyAt(g[at := value], k, field) <==> k != at && KeyAt(g, k, field) {
      KeyAtUpdated(g, at, value, k, field);
    }
  }

  lemma FoundAlike(g: seq<string>, a: seq<string>, b: seq<string>, p: nat, q: nat, field: string)
    requires KeysLeft(g, a, p, q, field) && KeysLeft(g, b, p, q, field)
    ensures FindKey(a, field, 0) == FindKey(b, field, 0)
  {
  }

  /** Where the search looks for the second field: the first field's value can no longer hide one. */
  lemma SearchIgnoresValue(g: seq<string>, at: nat, v: string, w: string, field: string)
    requires at < |g| && '=' !in v && '=' !in w
    ensures FindKey(g[at := v], field, 0) == FindKey(g[at := w], field, 0)
  {
    KeysUpdated(g, at, v, field);
    KeysUpdated(g, at, w, field);
    FoundAlike(g, g[at := v], g[at := w], at, at, field);
  }

  /** Where the rewriter finds its two keys; an id cannot move them. */
  predicate Found(g: seq<string>, first: string, second: string, i: nat, j: nat) {
    FindKey(g, first, 0) == Some(i) && FindKey(g[i + 1 := ""], second, 0) == Some(j)
  }

  lemma RewriteAt(g: seq<string>, first: string, second: string, i: nat, j: nat, id: string)
    requires Found(g, first, second, i, j) && Inert(id)
    ensures RewriteStretches(g, first, second, id) == Ok(g[i + 1 := id][j + 1 := id])
  {
    SearchIgnoresValue(g, i + 1, id, "", second);
  }

  lemma RewriteFound(g: seq<string>, first: string, second: string, id: string) returns (i: nat, j: nat)
    requires RewriteStretches(g, first, second, id).Ok? && Inert(id)
    ensures Found(g, first, second, i, j)
  {
    i := FindKey(g, first, 0).value;
    SearchIgnoresValue(g, i + 1, id, "", second);
    j := FindKey(g[i + 1 := id], second, 0).value;
  }

  /** The second value runs over the line end and holds the first key: its quote is not closed on its own line. */
  predicate SwallowsStretches(g: seq<string>, first: string, second: string) {
    match FindKey(g, first, 0)
    case None => false
    case Some(i) => i > 0 && FindKey(g[i + 1 := ""], second, 0) == Some(i - 1)
  }

  /** The old `original-id` value holds the `published-at` key. */
  predicate Swallows(body: string) {
    SwallowsStretches(Stretches(body), PUBLISHED_AT, ORIGINAL_ID)
  }

  predicate OnOneLine(s: string) {
    forall k :: 0 <= k < |s| ==> !EndsLine(s[k])
  }

  /** Every quoted value of the field ends on the line it starts on. */
  predicate ValuesCloseOnLine(body: string, field: string) {
    var g := Stretches(body);
    forall i :: 0 <= i < |g| && KeyAt(g, i, field) ==> OnOneLine(g[i + 1])
  }

  lemma OneLineHoldsNoKey(value: string, field: string)
    ensures OnOneLine(value) ==> !StretchEndsInKey(value, false, field)
  {
  }

  /** On files whose quoted values close on their own line nothing is swallowed. */
  lemma ClosedValuesAreNotSwallowed(body: string)
    requires ValuesCloseOnLine(body, ORIGINAL_ID)
    ensures !Swallows(body)
  {
    var g := Stretches(body);
    match FindKey(g, PUBLISHED_AT, 0)
    case None =>
    case Some(i) =>
      if i > 0 {
        KeyAtUpdated(g, i + 1, "", i - 1, ORIGINAL_ID);
        OneLineHoldsNoKey(g[i], PUBLISHED_AT);
      }
  }

  /** The keys that are left after both values were replaced. */
  lemma KeysAfterRewrite(g: seq<string>, p: nat, q: nat, id: string, field: string)
    requires p < |g| && q < |g| && '=' !in id
    ensures KeysLeft(g, g[p := id][q := id], p, q, field)
  {
    KeysUpdated(g, p, id, field);
    KeysUpdated(g[p := id], q, id, field);
  }

  lemma SecondKeyIsElsewhere(g: seq<string>, first: string, second: string, i: nat, j: nat)
    requires Found(g, first, second, i, j)
    ensures j != i + 1 && KeyAt(g, j, second)
  {
    KeyAtUpdated(g, i + 1, "", j, second);
  }

  lemma FirstFilled(g: seq<string>, field: string, i: nat)
    requires KeyAt(g, i, field) && g[i + 1] != "" && forall k: nat :: k < i ==> !KeyAt(g, k, field)
    ensures ReadFrom(g, field, 0) == Some(g[i + 1])
  {
  }

  lemma RereadSwallowed(g: seq<string>, first: string, second: string, i: nat, id: string)
    requires i > 0 && Found(g, first, second, i, i - 1) && Inert(id)
    ensures ReadFrom(g[i + 1 := id][i := id], first, 0) == ReadFrom(g, first, i + 2)
  {
    var h := g[i + 1 := id][i := id];
    KeysAfterRewrite(g, i + 1, i, id, first);
    FilledBelow(h, first, i + 2);
    FilledSame(h, g, first, i + 2);
  }

  lemma RereadKept(g: seq<string>, first: string, second: string, i: nat, j: nat, id: string)
    requires Found(g, first, second, i, j) && Inert(id) && id != "" && j + 1 != i
    ensures ReadFrom(g[i + 1 := id][j + 1 := id], first, 0) == Some(id)
  {
    KeysAfterRewrite(g, i + 1, j + 1, id, first);
    SecondKeyIsElsewhere(g, first, second, i, j);
    FirstFilled(g[i + 1 := id][j + 1 := id], first, i);
  }

  lemma SameKeyAt(g: seq<string>, h: seq<string>, k: nat, field: string)
    requires |g| == |h| && k < |g| && g[k] == h[k]
    ensures KeyAt(g, k, field) == KeyAt(h, k, field)
  {
  }

  lemma FilledSame(g: seq<string>, h: seq<string>, field: string, from: nat)
    requires |g| == |h| && forall k :: from <= k < |g| ==> g[k] == h[k]
    ensures ReadFrom(g, field, from) == ReadFrom(h, field, from)
  {
    forall k: nat | from <= k < |g| ensures KeyAt(g, k, field) == KeyAt(h, k, field) {
      SameKeyAt(g, h, k, field);
    }
    assert FindFilled(g, field, from) == FindFilled(h, field, from);
  }

  lemma FilledBelow(g: seq<string>, field: string, from: nat)
    requires forall k: nat :: k < from ==> !KeyAt(g, k, field)
    ensures ReadFrom(g, field, 0) == ReadFrom(g, field, from)
  {
  }

  /** What is named after the first key, which a rewrite that swallows the key never touches. */
  function ReadLater(g: seq<string>, field: string): Option<string> {
    match FindKey(g, field, 0)
    case None => None
    case Some(i) => ReadFrom(g, field, i + 2)
  }

  lemma SwallowsIff(g: seq<string>, first: string, second: string, i: nat, j: nat)
    requires Found(g, first, second, i, j)
    ensures SwallowsStretches(g, first, second) <==> j + 1 == i
  {
  }

  lemma RereadStretches(g: seq<string>, first: string, second: string, id: string, h: seq<string>)
    requires Inert(id) && id != "" && RewriteStretches(g, first, second, id) == Ok(h)
    ensures ReadFrom(h, first, 0) == if SwallowsStretches(g, first, second) then ReadLater(g, first) else Some(id)
  {
    var i, j := RewriteFound(g, first, second, id);
    RewriteAt(g, first, second, i, j, id);
    SwallowsIff(g, first, second, i, j);
    if j + 1 == i {
      RereadSwallowed(g, first, second, i, id);
    } else {
      RereadKept(g, first, second, i, j, id);
    }
  }

  /** The body read after it was rewritten names the new id; or, where the old `original-id` value swallows
      the key, whatever is named after it. */
  lemma ReadAfterRewriteBody(body: string, id: string)
    requires Inert(id) && id != "" && RewriteBody(body, id).Ok?
    ensures ReadField(RewriteBody(body, id).value)
            == if Swallows(body) then ReadLater(Stretches(body), PUBLISHED_AT) else Some(id)
  {
    RewriteIsStretchwise(body, id);
    RereadStretches(Stretches(body), PUBLISHED_AT, ORIGINAL_ID, id, Stretches(RewriteBody(body, id).value));
  }

  lemma FirstFound(g: seq<string>, field: string, i: nat)
    requires KeyAt(g, i, field) && forall k: nat :: k < i ==> !KeyAt(g, k, field)
    ensures FindKey(g, field, 0) == Some(i)
  {
  }

  /** The rewriter finds its keys again where it left them, unless it wrote over the first. */
  lemma FoundAgain(g: seq<string>, first: string, second: string, i: nat, j: nat, v: string)
    requires Found(g, first, second, i, j) && Inert(v) && j + 1 != i
    ensures Found(g[i + 1 := v][j + 1 := v], first, second, i, j)
  {
    var h := g[i + 1 := v][j + 1 := v];
    SecondKeyIsElsewhere(g, first, second, i, j);
    KeysAfterRewrite(g, i + 1, j + 1, v, first);
    FirstFound(h, first, i);
    KeysAfterRewrite(g, i + 1, j + 1, v, second);
    KeysUpdated(h, i + 1, "", second);
    KeysUpdated(g, i + 1, "", second);
    FirstFound(h[i + 1 := ""], second, j);
  }

  /** Where the first key was written over, the second rewrite leaves the first one's id in its value. */
  lemma SwallowedRewriteKeepsFirst(g: seq<string>, first: string, second: string, i: nat, v: string, w: string)
    requires i > 0 && Found(g, first, second, i, i - 1) && Inert(v) && Inert(w)
    ensures var again := RewriteStretches(g[i + 1 := v][i := v], first, second, w);
            again.Ok? ==> |again.value| == |g| && again.value[i + 1] == v
  {
    var h := g[i + 1 := v][i := v];
    KeysAfterRewrite(g, i + 1, i, v, first);
    if RewriteStretches(h, first, second, w).Ok? {
      var at, j := RewriteFound(h, first, second, w);
      RewriteAt(h, first, second, at, j, w);
      SecondKeyIsElsewhere(g, first, second, i, i - 1);
      KeysAfterRewrite(g, i + 1, i, v, second);
      KeysUpdated(h, at + 1, "", second);
      assert at >= i + 2 && KeyAt(h[at + 1 := ""], i - 1, second);
      assert j <= i - 1;
    }
  }

  /** The next quoted value of the field after its first one. */
  function NextValue(g: seq<string>, field: string): Option<string> {
    match FindKey(g, field, 0)
    case None => None
    case Some(i) =>
      match FindKey(g, field, i + 2)
      case None => None
      case Some(at) => Some(g[at + 1])
  }

  /** Where the second rewrite finds its keys once the first has written over its own. */
  lemma FirstPastSwallowed(g: seq<string>, first: string, second: string, i: nat, v: string)
    requires i > 0 && Found(g, first, second, i, i - 1) && Inert(v)
    ensures FindKey(g[i + 1 := v][i := v], first, 0) == FindKey(g, first, i + 2)
  {
    var h := g[i + 1 := v][i := v];
    KeysAfterRewrite(g, i + 1, i, v, first);
    if FindKey(g, first, i + 2).Some? {
      FirstFound(h, first, FindKey(g, first, i + 2).value);
    } else {
      assert forall k: nat :: !KeyAt(h, k, first);
    }
  }

  lemma SecondPastSwallowed(g: seq<string>, first: string, second: string, i: nat, v: string, at: nat)
    requires i > 0 && Found(g, first, second, i, i - 1) && Inert(v) && i + 1 < at < |g| - 1
    ensures FindKey(g[i + 1 := v][i := v][at + 1 := ""], second, 0) == Some(i - 1)
  {
    var h := g[i + 1 := v][i := v];
    KeysAfterRewrite(g, i + 1, i, v, second);
    KeysUpdated(g, i + 1, "", second);
    KeysUpdated(h, at + 1, "", second);
    SecondKeyIsElsewhere(g, first, second, i, i - 1);
    FirstFound(h[at + 1 := ""], second, i - 1);
  }

  /** Once the key is written over, the same id again changes the next value instead. */
  lemma SameIdAgain(g: seq<string>, first: string, second: string, i: nat, v: string)
    requires i > 0 && Found(g, first, second, i, i - 1) && Inert(v)
    ensures var h := g[i + 1 := v][i := v];
            RewriteStretches(h, first, second, v) == Ok(h) <==> NextValue(g, first) == Some(v)
  {
    var h := g[i + 1 := v][i := v];
    FirstPastSwallowed(g, first, second, i, v);
    if FindKey(g, first, i + 2).Some? {
      var at := FindKey(g, first, i + 2).value;
      SecondPastSwallowed(g, first, second, i, v, at);
      RewriteAt(h, first, second, at, i - 1, v);
      assert h[at + 1] == g[at + 1] && h[at + 1 := v][i := v][at + 1] == v;
      if g[at + 1] == v {
        assert h[at + 1 := v][i := v] == h;
      }
    }
  }

  /** Where the second rewrite with `w` undoes nothing of the first with `v`. */
  predicate Settles(g: seq<string>, first: string, second: string, v: string, w: string) {
    !SwallowsStretches(g, first, second) || (v == w && NextValue(g, first) == Some(v))
  }

  lemma RewriteAgain(g: seq<string>, first: string, second: string, i: nat, j: nat, v: string, w: string)
    requires Found(g, first, second, i, j) && Inert(v) && Inert(w)
    ensures RewriteStretches(g[i + 1 := v][j + 1 := v], first, second, w) == RewriteStretches(g, first, second, w)
            <==> j + 1 != i || (v == w && NextValue(g, first) == Some(v))
  {
    RewriteAt(g, first, second, i, j, w);
    if j + 1 != i {
      FoundAgain(g, first, second, i, j, v);
      RewriteAt(g[i + 1 := v][j + 1 := v], first, second, i, j, w);
      SecondKeyIsElsewhere(g, first, second, i, j);
      assert g[i + 1 := v][j + 1 := v][i + 1 := w][j + 1 := w] == g[i + 1 := w][j + 1 := w];
    } else if v == w {
      SameIdAgain(g, first, second, i, v);
    } else {
      SwallowedRewriteKeepsFirst(g, first, second, i, v, w);
      assert g[i + 1 := w][i := w][i + 1] == w;
    }
  }

  lemma LastRewriteStretches(g: seq<string>, first: string, second: string, v: string, w: string, h: seq<string>)
    requires Inert(v) && Inert(w) && RewriteStretches(g, first, second, v) == Ok(h)
    ensures RewriteStretches(h, first, second, w) == RewriteStretches(g, first, second, w)
            <==> Settles(g, first, second, v, w)
  {
    var i, j := RewriteFound(g, first, second, v);
    RewriteAt(g, first, second, i, j, v);
    SwallowsIff(g, first, second, i, j);
    RewriteAgain(g, first, second, i, j, v, w);
  }

  /** Where both fields are there, the last rewrite wins, whatever the two ids, exactly on bodies in which no
      `original-id` value swallows the `published-at` key, or if both ids are the same and the next `published-at`
      value is that id already. */
  lemma LastRewriteWinsBody(body: string, v: string, w: string)
    requires Inert(v) && Inert(w) && RewriteBody(body, v).Ok?
    ensures RewriteBody(RewriteBody(body, v).value, w) == RewriteBody(body, w)
            <==> Settles(Stretches(body), PUBLISHED_AT, ORIGINAL_ID, v, w)
  {
    var g, once := Stretches(body), RewriteBody(body, v).value;
    RewriteIsStretchwise(body, v);
    RewriteIsStretchwise(body, w);
    RewriteIsStretchwise(once, w);
    LastRewriteStretches(g, PUBLISHED_AT, ORIGINAL_ID, v, w, Stretches(once));
    SameStretches(RewriteBody(once, w), RewriteStretches(Stretches(once), PUBLISHED_AT, ORIGINAL_ID, w),
                  RewriteBody(body, w), RewriteStretches(g, PUBLISHED_AT, ORIGINAL_ID, w));
  }

  /** Two outcomes are the same when their stretches are. */
  lemma SameStretches(x: Result<string, Error>, r: Result<seq<string>, Error>,
                      y: Result<string, Error>, t: Result<seq<string>, Error>)
    requires HasStretches(x, r) && HasStretches(y, t)
    ensures x == y <==> r == t
  {
    if x.Ok? && y.Ok? {
      JoinOfSplit(x.value, QUOTE);
      JoinOfSplit(y.value, QUOTE);
    }
  }
}
