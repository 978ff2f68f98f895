/** Published.toml by sections: the package id rewriter of scripts/republish_contracts_bootstrap.ts and the
    reader of scripts/resolve_published_contract_ids.ts. */
module PublishedToml {
  import opened Prelude
  import opened JsText
  import opened TomlFields
  import Joining
  import Hex

  // ----- First occurrences -----------------------------------------------------------------------

  predicate OccursAt(s: string, pattern: string, p: nat) {
    p + |pattern| <= |s| && s[p..p + |pattern|] == pattern
  }

  function IndexFrom(s: string, pattern: string, from: nat): (p: Option<nat>)
    ensures p.Some? ==> from <= p.value && OccursAt(s, pattern, p.value)
    ensures p.Some? ==> forall k :: from <= k < p.value ==> !OccursAt(s, pattern, k)
    ensures p.None? ==> forall k :: from <= k ==> !OccursAt(s, pattern, k)
    decreases |s| - from
  {
    if from + |pattern| > |s| then None
    else if OccursAt(s, pattern, from) then Some(from)
    else IndexFrom(s, pattern, from + 1)
  }

  // ----- Sections --------------------------------------------------------------------------------

  function Header(env: string): string {
    "[published." + env + "]"
  }

  const NEXT_SECTION: string := "\n["

  /** Where a section's body starts and ends: after the first occurrence of its header, up to the next line
      that opens with a bracket. */
  datatype Section = Section(header: nat, start: nat, end: nat)

  function FindSection(toml: string, env: string): (section: Option<Section>)
    ensures section.Some? ==> section.value.start <= section.value.end <= |toml|
  {
    match IndexFrom(toml, Header(env), 0)
    case None => None
    case Some(h) =>
      var start := h + |Header(env)|;
      match IndexFrom(toml, NEXT_SECTION, start)
      case None => Some(Section(h, start, |toml|))
      case Some(end) => Some(Section(h, start, end))
  }

  function Body(toml: string, section: Section): string
    requires section.start <= section.end <= |toml|
  {
    toml[section.start..section.end]
  }

  /** `^0x[0-9a-fA-F]+$`, which the rewriter asks for. */
  predicate IsHexObjectId(id: string) {
    |id| > 2 && id[..2] == "0x" && Hex.AllHexDigits(id[2..])
  }

  /** `^0x[0-9a-fA-F]{64}$`, which the reader asks for. */
  predicate IsObjectId(id: string) {
    |id| == 66 && id[..2] == "0x" && Hex.AllHexDigits(id[2..])
  }

  function Rewrite(toml: string, env: string, id: string): Result<string, Error> {
    if !IsHexObjectId(id) then Err(BadPackageId)
    else
      match FindSection(toml, env)
      case None => Err(MissingSection)
      case Some(s) =>
        match RewriteBody(Body(toml, s), id)
        case Err(e) => Err(e)
        case Ok(body) => Ok(toml[..s.start] + body + toml[s.end..])
  }

  function NormalizeNetwork(raw: string): string {
    if Trim(raw) == "" then "testnet" else Trim(raw)
  }

  function Read(toml: string, network: string): Result<string, Error> {
    match FindSection(toml, NormalizeNetwork(network))
    case None => Err(NoPublishedAt)
    case Some(s) =>
      match ReadField(Body(toml, s))
      case None => Err(NoPublishedAt)
      case Some(id) => if IsObjectId(Trim(id)) then Ok(id) else Err(NoPublishedAt)
  }

  // ----- The rewritten section is found where it was ---------------------------------------------

  lemma HexIdIsInert(id: string)
    requires IsHexObjectId(id)
    ensures Inert(id) && '[' !in id && '\n' !in id && id != "" && Trim(id) == id
  {
    forall i | 0 <= i < |id| ensures id[i] == 'x' || Hex.IsHexDigit(id[i]) {
      if i < 2 {
        assert id[i] == id[..2][i];
      } else {
        assert id[i] == id[2..][i - 2];
      }
    }
    TrimOfPadded("", id, "");
    assert "" + id + "" == id;
  }

  /** A value replaced between its quotes. */
  predicate Replaced(s: string, r: string, before: string, was: string, value: string, after: string) {
    s == before + [QUOTE] + was + [QUOTE] + after && r == before + [QUOTE] + value + [QUOTE] + after
  }

  lemma ReplacedParts(body: string, field: string, value: string) returns (before: string, was: string, after: string)
    requires ReplaceField(body, field, value).Ok?
    ensures Replaced(body, ReplaceField(body, field, value).value, before, was, value, after)
  {
    var i := FindKey(Stretches(body), field, 0).value;
    FoundIsMatch(body, field, i);
    var g := Stretches(body);
    before, was, after := Joining.Join(g[..i + 1], QUOTE), g[i + 1], Joining.Join(g[i + 2..], QUOTE);
    CutAt(g[i + 1 := value], i);
    assert g[i + 1 := value][..i + 1] == g[..i + 1] && g[i + 1 := value][i + 2..] == g[i + 2..];
  }

  predicate Occurs(s: string, pattern: string) {
    exists p: nat | p <= |s| :: OccursAt(s, pattern, p)
  }

  lemma OccurrenceHoldsNoQuote(s: string, pattern: string, p: nat)
    requires QUOTE !in pattern && OccursAt(s, pattern, p)
    ensures forall k :: p <= k < p + |pattern| ==> s[k] != QUOTE
  {
    forall k | p <= k < p + |pattern| ensures s[k] != QUOTE {
      assert s[p..p + |pattern|][k - p] == s[k];
    }
  }

  /** An occurrence of a quote-free text is on one side of a value that does not hold it, so it was there
      before the value was replaced. */
  lemma OccurrenceWasThere(s: string, r: string, before: string, was: string, value: string, after: string,
                           pattern: string, p: nat)
    requires Replaced(s, r, before, was, value, after)
    requires |pattern| > 0 && QUOTE !in pattern && !Occurs(value, pattern) && OccursAt(r, pattern, p)
    ensures (p + |pattern| <= |before| && OccursAt(s, pattern, p))
            || (p >= |before| + |value| + 2 && OccursAt(s, pattern, p - |value| + |was|))
  {
    var open, close := |before|, |before| + 1 + |value|;
    assert r[open] == QUOTE && r[close] == QUOTE;
    OccurrenceHoldsNoQuote(r, pattern, p);
    InsideValue(r, before, value, after, pattern, p);
    if p + |pattern| <= open {
      assert s[p..p + |pattern|] == r[p..p + |pattern|];
    } else {
      var q := p - |value| + |was|;
      assert s[q..q + |pattern|] == r[p..p + |pattern|];
    }
  }

  lemma InsideValue(r: string, before: string, value: string, after: string, pattern: string, p: nat)
    requires r == before + [QUOTE] + value + [QUOTE] + after && OccursAt(r, pattern, p)
    ensures |before| < p && p + |pattern| <= |before| + 1 + |value| ==> Occurs(value, pattern)
  {
    if |before| < p && p + |pattern| <= |before| + 1 + |value| {
      var q := p - |before| - 1;
      assert value[q..q + |pattern|] == r[p..p + |pattern|];
      assert OccursAt(value, pattern, q);
    }
  }

  /** A body is rewritten by replacing two values, one after the other. */
  lemma RewrittenParts(body: string, id: string)
    returns (middle: string, b: string, x: string, a: string, d: string, y: string, c: string)
    requires RewriteBody(body, id).Ok?
    ensures Replaced(body, middle, b, x, id, a) && Replaced(middle, RewriteBody(body, id).value, d, y, id, c)
  {
    middle := ReplaceField(body, PUBLISHED_AT, id).value;
    b, x, a := ReplacedParts(body, PUBLISHED_AT, id);
    d, y, c := ReplacedParts(middle, ORIGINAL_ID, id);
  }

  lemma BracketNotInId(id: string, pattern: string)
    requires '[' !in id && '[' in pattern
    ensures !Occurs(id, pattern)
  {
    forall p: nat | p <= |id| ensures !OccursAt(id, pattern, p) {
      var k :| 0 <= k < |pattern| && pattern[k] == '[';
      if p + |pattern| <= |id| {
        assert id[p..p + |pattern|][k] == id[p + k];
      }
    }
  }

  /** Where an occurrence at `p` stood when the body that starts at `start` had its old length. */
  predicate Moved(p: nat, q: nat, start: nat, newLength: nat, oldLength: nat) {
    && (p < start ==> q == p)
    && (start <= p < start + newLength ==> start <= q < start + oldLength)
    && (start + newLength <= p ==> q + newLength == p + oldLength)
  }

  lemma ReplacedMoves(front: string, s: string, r: string, rest: string,
                      before: string, was: string, value: string, after: string, pattern: string, p: nat)
    returns (q: nat)
    requires Replaced(s, r, before, was, value, after)
    requires |pattern| > 0 && QUOTE !in pattern && !Occurs(value, pattern) && OccursAt(front + r + rest, pattern, p)
    ensures OccursAt(front + s + rest, pattern, q) && Moved(p, q, |front|, |r|, |s|)
  {
    assert front + s + rest == (front + before) + [QUOTE] + was + [QUOTE] + (after + rest);
    assert front + r + rest == (front + before) + [QUOTE] + value + [QUOTE] + (after + rest);
    OccurrenceWasThere(front + s + rest, front + r + rest, front + before, was, value, after + rest, pattern, p);
    q := if p + |pattern| <= |front + before| then p else p - |value| + |was|;
  }

  /** Rewriting a body inside a text adds no occurrence of a bracketed, quote-free text: each one was there,
      and has moved by no more than the body grew. */
  lemma RewriteMoves(front: string, body: string, rest: string, id: string, pattern: string, p: nat) returns (q: nat)
    requires IsHexObjectId(id) && RewriteBody(body, id).Ok?
    requires '[' in pattern && QUOTE !in pattern
    requires OccursAt(front + RewriteBody(body, id).value + rest, pattern, p)
    ensures OccursAt(front + body + rest, pattern, q) && Moved(p, q, |front|, |RewriteBody(body, id).value|, |body|)
  {
    HexIdIsInert(id);
    BracketNotInId(id, pattern);
    var middle, b, x, a, d, y, c := RewrittenParts(body, id);
    var m := ReplacedMoves(front, middle, RewriteBody(body, id).value, rest, d, y, id, c, pattern, p);
    q := ReplacedMoves(front, body, middle, rest, b, x, id, a, pattern, m);
  }

  /** A network name that its header can hold: on one line, without quotes or a closing bracket. */
  predicate IsPlain(env: string) {
    QUOTE !in env && '\n' !in env && ']' !in env
  }

  lemma FirstIs(s: string, pattern: string, from: nat, p: nat)
    requires from <= p && OccursAt(s, pattern, p) && forall k :: from <= k < p ==> !OccursAt(s, pattern, k)
    ensures IndexFrom(s, pattern, from) == Some(p)
  {
  }

  lemma PrefixOccurrence(s: string, r: string, pattern: string, p: nat, shared: nat)
    requires shared <= |s| && shared <= |r| && s[..shared] == r[..shared] && p + |pattern| <= shared
    ensures OccursAt(s, pattern, p) <==> OccursAt(r, pattern, p)
  {
    assert s[p..p + |pattern|] == s[..shared][p..p + |pattern|];
    assert r[p..p + |pattern|] == r[..shared][p..p + |pattern|];
  }

  function Rewritten(toml: string, s: Section, body: string): string
    requires s.start <= s.end <= |toml|
  {
    toml[..s.start] + body + toml[s.end..]
  }

  lemma RewrittenSlices(toml: string, s: Section, body: string)
    requires s.start <= s.end <= |toml|
    ensures var r := Rewritten(toml, s, body);
            && s.start + |body| <= |r| && r[..s.start] == toml[..s.start] && r[s.start + |body|..] == toml[s.end..]
            && r[s.start..s.start + |body|] == body
  {
  }

  lemma NoSectionInside(toml: string, id: string, s: Section, body: string)
    requires s.start <= s.end <= |toml| && IsHexObjectId(id) && RewriteBody(Body(toml, s), id) == Ok(body)
    requires EndsBody(toml, s.start, s.end)
    ensures forall k: nat :: s.start <= k < s.start + |body| ==> !OccursAt(Rewritten(toml, s, body), NEXT_SECTION, k)
  {
    var front, rest := toml[..s.start], toml[s.end..];
    assert toml == front + Body(toml, s) + rest;
    forall k: nat | s.start <= k < s.start + |body| ensures !OccursAt(Rewritten(toml, s, body), NEXT_SECTION, k) {
      if OccursAt(Rewritten(toml, s, body), NEXT_SECTION, k) {
        var q := RewriteMoves(front, Body(toml, s), rest, id, NEXT_SECTION, k);
      }
    }
  }

  lemma SectionAfterBody(toml: string, s: Section, body: string)
    requires s.start <= s.end <= |toml| && OccursAt(toml, NEXT_SECTION, s.end)
    ensures OccursAt(Rewritten(toml, s, body), NEXT_SECTION, s.start + |body|)
  {
    RewrittenSlices(toml, s, body);
    assert toml[s.end..][..2] == toml[s.end..s.end + 2];
    assert Rewritten(toml, s, body)[s.start + |body|..][..2]
           == Rewritten(toml, s, body)[s.start + |body|..s.start + |body| + 2];
  }

  /** The body still ends where the next section begins. */
  lemma BodyEndStays(toml: string, id: string, s: Section, body: string)
    requires s.start <= s.end <= |toml| && IsHexObjectId(id) && RewriteBody(Body(toml, s), id) == Ok(body)
    requires EndsBody(toml, s.start, s.end)
    ensures EndsBody(Rewritten(toml, s, body), s.start, s.start + |body|)
  {
    var r := Rewritten(toml, s, body);
    NoSectionInside(toml, id, s, body);
    if s.end < |toml| {
      SectionAfterBody(toml, s, body);
      FirstIs(r, NEXT_SECTION, s.start, s.start + |body|);
    }
  }

  /** A first occurrence inside a shared beginning is the first occurrence of both texts. */
  lemma FirstInPrefix(s: string, r: string, pattern: string, p: nat, shared: nat)
    requires shared <= |s| && shared <= |r| && s[..shared] == r[..shared] && p + |pattern| <= shared
    requires IndexFrom(s, pattern, 0) == Some(p)
    ensures IndexFrom(r, pattern, 0) == Some(p)
  {
    forall k: nat | k <= p ensures OccursAt(r, pattern, k) <==> OccursAt(s, pattern, k) {
      PrefixOccurrence(s, r, pattern, k, shared);
    }
    FirstIs(r, pattern, 0, p);
  }

  /** Where the body that starts at `start` ends. */
  predicate EndsBody(toml: string, start: nat, end: nat) {
    IndexFrom(toml, NEXT_SECTION, start) == Some(end) || (IndexFrom(toml, NEXT_SECTION, start).None? && end == |toml|)
  }

  /** The section of a header, by its parts. */
  predicate IsSection(toml: string, header: string, s: Section) {
    && IndexFrom(toml, header, 0) == Some(s.header) && s.start == s.header + |header|
    && s.start <= s.end <= |toml| && EndsBody(toml, s.start, s.end)
  }

  lemma SectionParts(toml: string, env: string, s: Section)
    ensures FindSection(toml, env) == Some(s) <==> IsSection(toml, Header(env), s)
  {
  }

  /** A section whose new body ends where the old one did is found again. */
  lemma SectionStays(toml: string, header: string, s: Section, body: string)
    requires IsSection(toml, header, s) && EndsBody(Rewritten(toml, s, body), s.start, s.start + |body|)
    ensures IsSection(Rewritten(toml, s, body), header, Section(s.header, s.start, s.start + |body|))
  {
    RewrittenSlices(toml, s, body);
    FirstInPrefix(toml, Rewritten(toml, s, body), header, s.header, s.start);
  }

  // ----- Main results ----------------------------------------------------------------------------

  /** The network's section, when there is one, swallows its own `published-at` key. */
  predicate SectionSwallows(toml: string, env: string) {
    match FindSection(toml, env)
    case None => false
    case Some(s) => Swallows(Body(toml, s))
  }

  /** The text outside the section is the same after a rewrite, and inside it two quoted values are. */
  lemma RewriteTouchesSectionOnly(toml: string, env: string, id: string, after: string)
    requires Rewrite(toml, env, id) == Ok(after)
    ensures FindSection(toml, env).Some? && FindSection(after, env).Some?
    ensures var s, t := FindSection(toml, env).value, FindSection(after, env).value;
            && t.header == s.header && t.start == s.start
            && after[..t.start] == toml[..s.start] && after[t.end..] == toml[s.end..]
            && RewriteBody(Body(toml, s), id) == Ok(Body(after, t))
  {
    var s := FindSection(toml, env).value;
    var body := RewriteBody(Body(toml, s), id).value;
    SectionParts(toml, env, s);
    BodyEndStays(toml, id, s, body);
    SectionStays(toml, Header(env), s, body);
    SectionParts(Rewritten(toml, s, body), env, Section(s.header, s.start, s.start + |body|));
    RewrittenSlices(toml, s, body);
  }

  /** Reading a network after rewriting it with a 32-byte id gives that id back, wherever the section's quoted
      values close on their own line. */
  lemma ReadAfterRewrite(toml: string, network: string, id: string)
    requires IsObjectId(id) && Rewrite(toml, NormalizeNetwork(network), id).Ok?
    requires !SectionSwallows(toml, NormalizeNetwork(network))
    ensures Read(Rewrite(toml, NormalizeNetwork(network), id).value, network) == Ok(id)
  {
    var env := NormalizeNetwork(network);
    RewriteTouchesSectionOnly(toml, env, id, Rewrite(toml, env, id).value);
    HexIdIsInert(id);
    ReadAfterRewriteBody(Body(toml, FindSection(toml, env).value), id);
  }

  /** Where the section swallows the key, of two different ids at most one is read back. */
  lemma SwallowedIdIsNotRead(toml: string, network: string, v: string, w: string)
    requires IsObjectId(v) && IsObjectId(w) && v != w && SectionSwallows(toml, NormalizeNetwork(network))
    requires Rewrite(toml, NormalizeNetwork(network), v).Ok? && Rewrite(toml, NormalizeNetwork(network), w).Ok?
    ensures Read(Rewrite(toml, NormalizeNetwork(network), v).value, network) != Ok(v)
            || Read(Rewrite(toml, NormalizeNetwork(network), w).value, network) != Ok(w)
  {
    var env := NormalizeNetwork(network);
    RewriteTouchesSectionOnly(toml, env, v, Rewrite(toml, env, v).value);
    RewriteTouchesSectionOnly(toml, env, w, Rewrite(toml, env, w).value);
    HexIdIsInert(v);
    HexIdIsInert(w);
    ReadAfterRewriteBody(Body(toml, FindSection(toml, env).value), v);
    ReadAfterRewriteBody(Body(toml, FindSection(toml, env).value), w);
  }

  /** The section's next `published-at` value after the first. */
  function SectionNextValue(toml: string, env: string): Option<string> {
    match FindSection(toml, env)
    case None => None
    case Some(s) => NextValue(Stretches(Body(toml, s)), PUBLISHED_AT)
  }

  /** Rewriting twice, with whatever ids, is rewriting once with the last one, exactly where the section swallows no
      key, or both ids are the same and the next value after the key is that id already. */
  lemma LastRewriteWins(toml: string, env: string, v: string, w: string)
    requires IsHexObjectId(w) && Rewrite(toml, env, v).Ok?
    ensures Rewrite(Rewrite(toml, env, v).value, env, w) == Rewrite(toml, env, w)
            <==> !SectionSwallows(toml, env) || (v == w && SectionNextValue(toml, env) == Some(v))
  {
    var r := Rewrite(toml, env, v).value;
    var s := FindSection(toml, env).value;
    RewriteTouchesSectionOnly(toml, env, v, r);
    var t := FindSection(r, env).value;
    HexIdIsInert(v);
    HexIdIsInert(w);
    LastRewriteWinsBody(Body(toml, s), v, w);
    SameFrame(toml, s, r, t, RewriteBody(Body(r, t), w), RewriteBody(Body(toml, s), w));
  }

  /** Two bodies between the same texts make the same file exactly when they are the same. */
  lemma SameFrame(toml: string, s: Section, r: string, t: Section, x: Result<string, Error>, y: Result<string, Error>)
    requires s.start <= s.end <= |toml| && t.start <= t.end <= |r| && s.start == t.start
    requires r[..t.start] == toml[..s.start] && r[t.end..] == toml[s.end..]
    ensures x.Ok? && y.Ok? ==> (Rewritten(r, t, x.value) == Rewritten(toml, s, y.value) <==> x.value == y.value)
  {
    if x.Ok? && y.Ok? && Rewritten(r, t, x.value) == Rewritten(toml, s, y.value) {
      var a, b := Rewritten(r, t, x.value), Rewritten(toml, s, y.value);
      assert |x.value| == |y.value|;
      assert a[s.start..s.start + |x.value|] == x.value && b[s.start..s.start + |y.value|] == y.value;
    }
  }

  // ----- Two networks ----------------------------------------------------------------------------

  /** The first section ends before the second's header begins. */
  predicate Before(s: Section, t: Section) {
    s.header <= s.start <= s.end <= t.header <= t.start <= t.end
  }

  /** An occurrence, counted from the start of an ending of the text. */
  lemma OccursInEnding(s: string, pattern: string, from: nat, p: nat)
    requires from <= |s|
    ensures OccursAt(s, pattern, from + p) <==> OccursAt(s[from..], pattern, p)
  {
    if p + |pattern| <= |s| - from {
      assert s[from + p..from + p + |pattern|] == s[from..][p..p + |pattern|];
    }
  }

  lemma {:induction false} IndexInEnding(s: string, pattern: string, from: nat)
    requires from <= |s|
    ensures IndexFrom(s[from..], pattern, 0).None? ==> IndexFrom(s, pattern, from).None?
    ensures IndexFrom(s[from..], pattern, 0).Some? ==>
              IndexFrom(s, pattern, from) == Some(from + IndexFrom(s[from..], pattern, 0).value)
  {
    var x, y := IndexFrom(s[from..], pattern, 0), IndexFrom(s, pattern, from);
    if y.Some? {
      OccursInEnding(s, pattern, from, y.value - from);
    }
    if x.Some? {
      OccursInEnding(s, pattern, from, x.value);
      forall k | from <= k < from + x.value ensures !OccursAt(s, pattern, k) {
        OccursInEnding(s, pattern, from, k - from);
      }
    }
  }

  lemma HeaderChars(env: string)
    ensures |Header(env)| > 0 && Header(env)[0] == '[' && '[' in Header(env)
    ensures QUOTE !in env ==> QUOTE !in Header(env)
    ensures '\n' !in env ==> '\n' !in Header(env)
  {
    assert Header(env)[0] == '[';
  }

  lemma NoEarlierOccurrence(toml: string, s: Section, pattern: string, id: string, body: string, h: nat)
    requires s.start <= s.end <= h && s.end <= |toml| && '[' in pattern && QUOTE !in pattern
    requires forall k: nat :: k < h ==> !OccursAt(toml, pattern, k)
    requires IsHexObjectId(id) && RewriteBody(Body(toml, s), id) == Ok(body)
    ensures forall k: nat :: k < h - s.end + s.start + |body| ==> !OccursAt(Rewritten(toml, s, body), pattern, k)
  {
    var r := Rewritten(toml, s, body);
    assert toml == toml[..s.start] + Body(toml, s) + toml[s.end..];
    forall k: nat | k < h - s.end + s.start + |body| ensures !OccursAt(r, pattern, k) {
      if OccursAt(r, pattern, k) {
        var q := RewriteMoves(toml[..s.start], Body(toml, s), toml[s.end..], id, pattern, k);
      }
    }
  }

  lemma EndingOccurs(toml: string, s: Section, pattern: string, body: string, p: nat)
    requires s.start <= s.end <= p && s.end <= |toml|
    ensures OccursAt(toml, pattern, p) <==> OccursAt(Rewritten(toml, s, body), pattern, p - s.end + s.start + |body|)
  {
    RewrittenSlices(toml, s, body);
    OccursInEnding(toml, pattern, s.end, p - s.end);
    OccursInEnding(Rewritten(toml, s, body), pattern, s.start + |body|, p - s.end);
  }

  lemma LaterIndexMoves(toml: string, s: Section, pattern: string, id: string, body: string, h: nat)
    requires s.start <= s.end <= h && s.end <= |toml| && '[' in pattern && QUOTE !in pattern
    requires IndexFrom(toml, pattern, 0) == Some(h)
    requires IsHexObjectId(id) && RewriteBody(Body(toml, s), id) == Ok(body)
    ensures IndexFrom(Rewritten(toml, s, body), pattern, 0) == Some(h - s.end + s.start + |body|)
  {
    var r, moved := Rewritten(toml, s, body), h - s.end + s.start + |body|;
    assert OccursAt(r, pattern, moved) by { EndingOccurs(toml, s, pattern, body, h); }
    assert forall k: nat :: k < moved ==> !OccursAt(r, pattern, k) by {
      NoEarlierOccurrence(toml, s, pattern, id, body, h);
    }
    FirstIs(r, pattern, 0, moved);
  }

  /** Two texts that end alike, from two places on. */
  predicate SameEnding(s: string, from: nat, r: string, from': nat) {
    from <= |s| && from' <= |r| && s[from..] == r[from'..]
  }

  lemma EndingFurther(s: string, from: nat, r: string, from': nat, p: nat)
    requires SameEnding(s, from, r, from') && from <= p <= |s|
    ensures SameEnding(s, p, r, p - from + from') && |s| - from == |r| - from'
  {
    assert s[p..] == s[from..][p - from..];
    assert r[p - from + from'..] == r[from'..][p - from..];
  }

  lemma IndexInSameEnding(s: string, from: nat, r: string, from': nat, pattern: string)
    requires SameEnding(s, from, r, from')
    ensures IndexFrom(s, pattern, from).None? <==> IndexFrom(r, pattern, from').None?
    ensures IndexFrom(s, pattern, from).Some? ==>
              IndexFrom(r, pattern, from') == Some(IndexFrom(s, pattern, from).value - from + from')
  {
    IndexInEnding(s, pattern, from);
    IndexInEnding(r, pattern, from');
  }

  function MovedTo(t: Section, from: nat, from': nat): Section
    requires from <= t.header && from <= t.start && from <= t.end
  {
    Section(t.header - from + from', t.start - from + from', t.end - from + from')
  }

  lemma LaterBodyEndMoves(s: string, from: nat, r: string, from': nat, start: nat, end: nat)
    requires SameEnding(s, from, r, from') && from <= start <= end <= |s| && EndsBody(s, start, end)
    ensures EndsBody(r, start - from + from', end - from + from') && end - from + from' <= |r|
  {
    EndingFurther(s, from, r, from', start);
    IndexInSameEnding(s, start, r, start - from + from', NEXT_SECTION);
  }

  /** A section that stands in a shared ending moves with it and keeps its body. */
  lemma LaterSectionMoves(s: string, from: nat, r: string, from': nat, t: Section, header: string)
    requires SameEnding(s, from, r, from') && IsSection(s, header, t) && from <= t.header
    requires IndexFrom(r, header, 0) == Some(t.header - from + from')
    ensures IsSection(r, header, MovedTo(t, from, from'))
  {
    LaterBodyEndMoves(s, from, r, from', t.start, t.end);
  }

  lemma OccurrenceHasChars(s: string, pattern: string, p: nat)
    requires OccursAt(s, pattern, p)
    ensures forall k :: p <= k < p + |pattern| ==> s[k] == pattern[k - p]
  {
    forall k | p <= k < p + |pattern| ensures s[k] == pattern[k - p] {
      assert s[p..p + |pattern|][k - p] == s[k];
    }
  }

  lemma EarlierBodyEndStays(toml: string, s: Section, t: Section, body: string)
    requires Before(s, t) && t.header < t.start && t.end <= |toml| && toml[t.header] == '['
    requires EndsBody(toml, s.start, s.end)
    ensures EndsBody(Rewritten(toml, t, body), s.start, s.end)
  {
    var r := Rewritten(toml, t, body);
    RewrittenSlices(toml, t, body);
    OccurrenceHasChars(toml, NEXT_SECTION, s.end);
    forall k: nat | k <= s.end ensures OccursAt(r, NEXT_SECTION, k) <==> OccursAt(toml, NEXT_SECTION, k) {
      PrefixOccurrence(toml, r, NEXT_SECTION, k, t.start);
    }
    FirstIs(r, NEXT_SECTION, s.start, s.end);
  }

  /** Rewriting a later section leaves an earlier one where it is. */
  lemma EarlierSectionStays(toml: string, s: Section, t: Section, header: string, body: string)
    requires IsSection(toml, header, s) && Before(s, t) && t.end <= |toml|
    requires t.header < t.start && toml[t.header] == '['
    ensures IsSection(Rewritten(toml, t, body), header, s)
  {
    RewrittenSlices(toml, t, body);
    FirstInPrefix(toml, Rewritten(toml, t, body), header, s.header, t.start);
    EarlierBodyEndStays(toml, s, t, body);
  }

  lemma EndingShared(toml: string, s: Section, body: string)
    requires s.start <= s.end <= |toml|
    ensures SameEnding(toml, s.end, Rewritten(toml, s, body), s.start + |body|)
  {
    RewrittenSlices(toml, s, body);
  }

  lemma BodyInPrefix(toml: string, r: string, s: Section, shared: nat)
    requires s.start <= s.end <= shared <= |toml| && shared <= |r| && toml[..shared] == r[..shared]
    ensures Body(r, s) == Body(toml, s)
  {
    assert toml[s.start..s.end] == toml[..shared][s.start..s.end];
    assert r[s.start..s.end] == r[..shared][s.start..s.end];
  }

  lemma SliceOfEnding(s: string, from: nat, x: nat, y: nat)
    requires x <= y && from + y <= |s|
    ensures s[from + x..from + y] == s[from..][x..y]
  {
  }

  lemma BodyInEnding(toml: string, from: nat, r: string, from': nat, t: Section)
    requires SameEnding(toml, from, r, from') && from <= t.header && from <= t.start <= t.end <= |toml|
    ensures t.end - from + from' <= |r| && Body(r, MovedTo(t, from, from')) == Body(toml, t)
  {
    EndingFurther(toml, from, r, from', t.end);
    SliceOfEnding(toml, from, t.start - from, t.end - from);
    SliceOfEnding(r, from', t.start - from, t.end - from);
  }

  /** The file with both bodies replaced. */
  function BothReplaced(toml: string, s: Section, t: Section, x: string, y: string): string
    requires Before(s, t) && t.end <= |toml|
  {
    toml[..s.start] + x + toml[s.end..t.start] + y + toml[t.end..]
  }

  /** It comes of replacing the later one second. */
  lemma LaterRewritten(toml: string, s: Section, t: Section, x: string, y: string)
    requires Before(s, t) && t.end <= |toml|
    ensures var u := MovedTo(t, s.end, s.start + |x|);
            && u.end <= |Rewritten(toml, s, x)|
            && Rewritten(Rewritten(toml, s, x), u, y)
               == BothReplaced(toml, s, t, x, y)
  {
    var r, u := Rewritten(toml, s, x), MovedTo(t, s.end, s.start + |x|);
    EndingShared(toml, s, x);
    EndingFurther(toml, s.end, r, s.start + |x|, t.end);
    assert r[..u.start] == toml[..s.start] + x + toml[s.end..t.start];
  }

  /** And of replacing it first. */
  lemma EarlierRewritten(toml: string, s: Section, t: Section, x: string, y: string)
    requires Before(s, t) && t.end <= |toml|
    ensures s.end <= |Rewritten(toml, t, y)|
    ensures Rewritten(Rewritten(toml, t, y), s, x)
            == BothReplaced(toml, s, t, x, y)
  {
    var r := Rewritten(toml, t, y);
    assert r[..s.start] == toml[..s.start];
    assert r[s.end..] == toml[s.end..t.start] + (y + toml[t.end..]);
    Joining.Regroup(toml[..s.start] + x, toml[s.end..t.start], y + toml[t.end..]);
    Joining.Regroup(toml[..s.start] + x + toml[s.end..t.start], y, toml[t.end..]);
  }

  /** A rewrite, by the parts of the section it finds. */
  lemma RewriteIs(toml: string, env: string, id: string, s: Section, body: string)
    requires IsHexObjectId(id) && IsSection(toml, Header(env), s) && RewriteBody(Body(toml, s), id) == Ok(body)
    ensures Rewrite(toml, env, id) == Ok(Rewritten(toml, s, body))
  {
    SectionParts(toml, env, s);
  }

  lemma HeaderMoves(toml: string, s: Section, env: string, h: nat, v: string, x: string)
    requires QUOTE !in env && IndexFrom(toml, Header(env), 0) == Some(h) && s.start <= s.end <= h && s.end <= |toml|
    requires IsHexObjectId(v) && RewriteBody(Body(toml, s), v) == Ok(x)
    ensures IndexFrom(Rewritten(toml, s, x), Header(env), 0) == Some(h - s.end + s.start + |x|)
  {
    HeaderChars(env);
    LaterIndexMoves(toml, s, Header(env), v, x, h);
  }

  lemma SecondBodyKept(toml: string, s: Section, t: Section, x: string)
    requires Before(s, t) && t.end <= |toml|
    ensures var u := MovedTo(t, s.end, s.start + |x|);
            u.end <= |Rewritten(toml, s, x)| && Body(Rewritten(toml, s, x), u) == Body(toml, t)
  {
    EndingShared(toml, s, x);
    BodyInEnding(toml, s.end, Rewritten(toml, s, x), s.start + |x|, t);
  }

  lemma LaterStaysSection(toml: string, s: Section, t: Section, header: string, x: string)
    requires IsSection(toml, header, t) && Before(s, t)
    requires IndexFrom(Rewritten(toml, s, x), header, 0) == Some(t.header - s.end + s.start + |x|)
    ensures IsSection(Rewritten(toml, s, x), header, MovedTo(t, s.end, s.start + |x|))
  {
    var r, from' := Rewritten(toml, s, x), s.start + |x|;
    assert SameEnding(toml, s.end, r, from') by { EndingShared(toml, s, x); }
    assert IndexFrom(r, header, 0) == Some(t.header - s.end + from');
    LaterSectionMoves(toml, s.end, r, from', t, header);
  }

  lemma SecondAfterFirst(toml: string, s: Section, t: Section, second: string, w: string, x: string, y: string)
    requires IsHexObjectId(w) && IsSection(toml, Header(second), t) && Before(s, t)
    requires IndexFrom(Rewritten(toml, s, x), Header(second), 0) == Some(t.header - s.end + s.start + |x|)
    requires RewriteBody(Body(toml, t), w) == Ok(y)
    ensures Rewrite(Rewritten(toml, s, x), second, w) == Ok(BothReplaced(toml, s, t, x, y))
  {
    LaterStaysSection(toml, s, t, Header(second), x);
    SecondBodyKept(toml, s, t, x);
    RewriteIs(Rewritten(toml, s, x), second, w, MovedTo(t, s.end, s.start + |x|), y);
    LaterRewritten(toml, s, t, x, y);
  }

  lemma FirstAfterSecond(toml: string, s: Section, t: Section, first: string, v: string, x: string, y: string)
    requires IsHexObjectId(v) && IsSection(toml, Header(first), s) && Before(s, t)
    requires t.end <= |toml| && IsSection(Rewritten(toml, t, y), Header(first), s)
    requires RewriteBody(Body(toml, s), v) == Ok(x)
    ensures Rewrite(Rewritten(toml, t, y), first, v) == Ok(BothReplaced(toml, s, t, x, y))
  {
    RewrittenSlices(toml, t, y);
    BodyInPrefix(toml, Rewritten(toml, t, y), s, t.start);
    RewriteIs(Rewritten(toml, t, y), first, v, s, x);
    EarlierRewritten(toml, s, t, x, y);
  }

  lemma HeaderOpens(toml: string, env: string, t: Section)
    requires IsSection(toml, Header(env), t)
    ensures t.header < t.start && toml[t.header] == '['
  {
    HeaderChars(env);
    OccurrenceHasChars(toml, Header(env), t.header);
  }

  lemma FirstStays(toml: string, s: Section, t: Section, header: string, second: string, y: string)
    requires IsSection(toml, header, s) && IsSection(toml, Header(second), t) && Before(s, t)
    ensures IsSection(Rewritten(toml, t, y), header, s)
  {
    HeaderOpens(toml, second, t);
    EarlierSectionStays(toml, s, t, header, y);
  }

  lemma FirstThenSecond(toml: string, s: Section, t: Section, second: string,
                        v: string, w: string, x: string, y: string)
    requires QUOTE !in second && IsHexObjectId(v) && IsHexObjectId(w)
    requires IsSection(toml, Header(second), t) && Before(s, t)
    requires RewriteBody(Body(toml, s), v) == Ok(x) && RewriteBody(Body(toml, t), w) == Ok(y)
    ensures Rewrite(Rewritten(toml, s, x), second, w) == Ok(BothReplaced(toml, s, t, x, y))
  {
    HeaderMoves(toml, s, second, t.header, v, x);
    SecondAfterFirst(toml, s, t, second, w, x, y);
  }

  lemma SecondThenFirst(toml: string, s: Section, t: Section, first: string, second: string,
                        v: string, x: string, y: string)
    requires IsHexObjectId(v)
    requires IsSection(toml, Header(first), s) && IsSection(toml, Header(second), t) && Before(s, t)
    requires RewriteBody(Body(toml, s), v) == Ok(x)
    ensures Rewrite(Rewritten(toml, t, y), first, v) == Ok(BothReplaced(toml, s, t, x, y))
  {
    FirstStays(toml, s, t, Header(first), second, y);
    FirstAfterSecond(toml, s, t, first, v, x, y);
  }

  lemma RewritesCommuteInOrder(toml: string, first: string, second: string, v: string, w: string,
                               s: Section, t: Section)
    requires QUOTE !in second && Rewrite(toml, first, v).Ok? && Rewrite(toml, second, w).Ok?
    requires FindSection(toml, first) == Some(s) && FindSection(toml, second) == Some(t) && Before(s, t)
    ensures Rewrite(Rewrite(toml, first, v).value, second, w) == Rewrite(Rewrite(toml, second, w).value, first, v)
    ensures Rewrite(Rewrite(toml, first, v).value, second, w).Ok?
  {
    var x, y := RewriteBody(Body(toml, s), v).value, RewriteBody(Body(toml, t), w).value;
    SectionParts(toml, first, s);
    SectionParts(toml, second, t);
    FirstThenSecond(toml, s, t, second, v, w, x, y);
    SecondThenFirst(toml, s, t, first, second, v, x, y);
  }

  /** The section's header opens its line. */
  predicate OpensLine(toml: string, s: Section) {
    s.header <= |toml| && (s.header == 0 || toml[s.header - 1] == '\n')
  }

  /** A bracket that opens a line after the section's start ends the section before it. */
  lemma SectionEndsBeforeLine(toml: string, header: string, s: Section, p: nat)
    requires IsSection(toml, header, s) && '\n' !in header
    requires s.header < p < |toml| && toml[p - 1] == '\n' && toml[p] == '['
    ensures s.end <= p
  {
    OccurrenceHasChars(toml, header, s.header);
    assert p - 1 >= s.start;
    assert toml[p - 1..p + 1] == NEXT_SECTION;
    assert OccursAt(toml, NEXT_SECTION, p - 1);
  }

  lemma OnOwnLinesAreApart(toml: string, first: string, second: string, s: Section, t: Section)
    requires '\n' !in first && |second| > 0 && second[0] == '['
    requires IsSection(toml, first, s) && IsSection(toml, second, t)
    requires OpensLine(toml, t) && s.header < t.header
    ensures Before(s, t)
  {
    OccurrenceHasChars(toml, second, t.header);
    SectionEndsBeforeLine(toml, first, s, t.header);
  }

  /** A header spells its network: the name is what stands before the next closing bracket. */
  lemma HeaderNames(toml: string, env: string, h: nat)
    requires IsPlain(env) && OccursAt(toml, Header(env), h)
    ensures h + 11 <= |toml| && IndexFrom(toml[h + 11..], "]", 0) == Some(|env|)
    ensures toml[h + 11..][..|env|] == env
  {
    var rest := toml[h + 11..];
    assert toml[h..h + |Header(env)|] == "[published." + (env + "]");
    assert |"[published."| == 11;
    assert rest[..|env| + 1] == toml[h..h + |Header(env)|][11..];
    assert rest[..|env| + 1] == env + "]";
    assert rest[..|env|] == rest[..|env| + 1][..|env|];
    forall k: nat | k <= |env| ensures OccursAt(rest, "]", k) <==> k == |env| {
      assert rest[k..k + 1] == [rest[..|env| + 1][k]];
    }
    FirstIs(rest, "]", 0, |env|);
  }

  lemma SectionsDiffer(toml: string, first: string, second: string, s: Section, t: Section)
    requires IsPlain(first) && IsPlain(second) && first != second
    requires IsSection(toml, Header(first), s) && IsSection(toml, Header(second), t)
    ensures s.header != t.header
  {
    HeaderNames(toml, first, s.header);
    HeaderNames(toml, second, t.header);
  }

  /** Different networks whose headers open their own lines have sections apart from each other. */
  lemma OwnLinesAreApart(toml: string, first: string, second: string, s: Section, t: Section)
    requires IsPlain(first) && IsPlain(second) && first != second
    requires FindSection(toml, first) == Some(s) && FindSection(toml, second) == Some(t)
    requires OpensLine(toml, s) && OpensLine(toml, t)
    ensures Apart(s, t)
  {
    HeaderChars(first);
    HeaderChars(second);
    SectionParts(toml, first, s);
    SectionParts(toml, second, t);
    SectionsDiffer(toml, first, second, s, t);
    if s.header < t.header {
      OnOwnLinesAreApart(toml, Header(first), Header(second), s, t);
    } else {
      OnOwnLinesAreApart(toml, Header(second), Header(first), t, s);
    }
  }

  predicate Apart(s: Section, t: Section) {
    Before(s, t) || Before(t, s)
  }

  /** Rewriting two networks whose sections are apart gives the same file in either order. */
  lemma RewritesCommute(toml: string, first: string, second: string, v: string, w: string)
    requires QUOTE !in first && QUOTE !in second
    requires Rewrite(toml, first, v).Ok? && Rewrite(toml, second, w).Ok?
    requires Apart(FindSection(toml, first).value, FindSection(toml, second).value)
    ensures Rewrite(Rewrite(toml, first, v).value, second, w) == Rewrite(Rewrite(toml, second, w).value, first, v)
    ensures Rewrite(Rewrite(toml, first, v).value, second, w).Ok?
  {
    var s, t := FindSection(toml, first).value, FindSection(toml, second).value;
    if Before(s, t) {
      RewritesCommuteInOrder(toml, first, second, v, w, s, t);
    } else {
      RewritesCommuteInOrder(toml, second, first, w, v, t, s);
    }
  }

  // ----- Whether a rewrite leaves another network alone -------------------------------------------

  predicate KeepsSection(toml: string, r: string, env: string) {
    && FindSection(toml, env).Some? && FindSection(r, env).Some?
    && Body(r, FindSection(r, env).value) == Body(toml, FindSection(toml, env).value)
  }

  /** No rewrite of `env` changes the section of `other`. */
  ghost predicate Spares(toml: string, env: string, other: string) {
    forall id :: Rewrite(toml, env, id).Ok? ==> KeepsSection(toml, Rewrite(toml, env, id).value, other)
  }

  lemma EarlierKeepsLater(toml: string, s: Section, t: Section, second: string, id: string, x: string)
    requires QUOTE !in second && IsSection(toml, Header(second), t) && Before(s, t)
    requires IsHexObjectId(id) && RewriteBody(Body(toml, s), id) == Ok(x)
    ensures KeepsSection(toml, Rewritten(toml, s, x), second)
  {
    HeaderMoves(toml, s, second, t.header, id, x);
    LaterStaysSection(toml, s, t, Header(second), x);
    SecondBodyKept(toml, s, t, x);
    SectionParts(toml, second, t);
    SectionParts(Rewritten(toml, s, x), second, MovedTo(t, s.end, s.start + |x|));
  }

  lemma EarlierSpares(toml: string, first: string, second: string, s: Section, t: Section)
    requires QUOTE !in second
    requires FindSection(toml, first) == Some(s) && IsSection(toml, Header(second), t) && Before(s, t)
    ensures Spares(toml, first, second)
  {
    forall id | Rewrite(toml, first, id).Ok? ensures KeepsSection(toml, Rewrite(toml, first, id).value, second) {
      EarlierKeepsLater(toml, s, t, second, id, RewriteBody(Body(toml, s), id).value);
    }
  }

  lemma LaterKeepsEarlier(toml: string, s: Section, t: Section, first: string, second: string, y: string)
    requires IsSection(toml, Header(first), s) && IsSection(toml, Header(second), t) && Before(s, t)
    ensures KeepsSection(toml, Rewritten(toml, t, y), first)
  {
    FirstStays(toml, s, t, Header(first), second, y);
    RewrittenSlices(toml, t, y);
    BodyInPrefix(toml, Rewritten(toml, t, y), s, t.start);
    SectionParts(toml, first, s);
    SectionParts(Rewritten(toml, t, y), first, s);
  }

  lemma LaterSpares(toml: string, first: string, second: string, s: Section, t: Section)
    requires IsSection(toml, Header(first), s) && FindSection(toml, second) == Some(t) && Before(s, t)
    ensures Spares(toml, second, first)
  {
    SectionParts(toml, second, t);
    forall id | Rewrite(toml, second, id).Ok? ensures KeepsSection(toml, Rewrite(toml, second, id).value, first) {
      LaterKeepsEarlier(toml, s, t, first, second, RewriteBody(Body(toml, t), id).value);
    }
  }

  lemma HeaderCloses(toml: string, env: string, h: nat)
    requires IsPlain(env) && OccursAt(toml, Header(env), h)
    ensures forall k :: h <= k < h + |Header(env)| ==> toml[k] != '\n'
    ensures forall k :: h <= k < h + |Header(env)| ==> (toml[k] == ']' <==> k == h + |Header(env)| - 1)
  {
    OccurrenceHasChars(toml, Header(env), h);
    assert Header(env) == "[published." + (env + "]");
  }

  lemma InnerStart(toml: string, first: string, second: string, s: Section, t: Section)
    requires IsPlain(first) && IsPlain(second)
    requires IsSection(toml, Header(first), s) && IsSection(toml, Header(second), t)
    requires s.header < t.header && !Before(s, t)
    ensures s.start <= t.start <= s.end && t.start > 0 && toml[t.start - 1] == ']'
  {
    HeaderCloses(toml, first, s.header);
    HeaderCloses(toml, second, t.header);
    HeaderOpens(toml, second, t);
    assert toml[t.start - 1] == ']';
    if s.end < |toml| {
      OccurrenceHasChars(toml, NEXT_SECTION, s.end);
      assert toml[s.end] == '\n';
    }
  }

  lemma EndFromInside(toml: string, start: nat, inside: nat, end: nat)
    requires EndsBody(toml, start, end) && start <= inside <= end
    ensures forall other :: EndsBody(toml, inside, other) <==> other == end
  {
    if IndexFrom(toml, NEXT_SECTION, start).Some? {
      FirstIs(toml, NEXT_SECTION, inside, end);
    }
  }

  /** A header that begins before a section ends begins inside its body, and the two bodies end together. */
  lemma InnerSection(toml: string, first: string, second: string, s: Section, t: Section)
    requires IsPlain(first) && IsPlain(second)
    requires IsSection(toml, Header(first), s) && IsSection(toml, Header(second), t)
    requires s.header < t.header && !Before(s, t)
    ensures s.start <= t.start <= s.end && t.end == s.end && t.start > 0 && toml[t.start - 1] == ']'
  {
    InnerStart(toml, first, second, s, t);
    EndFromInside(toml, s.start, t.start, s.end);
    assert EndsBody(toml, t.start, t.end);
  }

  lemma TextFrom(toml: string, r: string, start: nat, shared: nat, y: string)
    requires start <= shared <= |toml| && shared + |y| <= |r|
    requires r[..shared] == toml[..shared] && r[shared..shared + |y|] == y
    ensures r[start..shared + |y|] == toml[start..shared] + y
  {
    assert r[start..shared + |y|] == r[..shared][start..] + r[shared..shared + |y|];
    assert toml[..shared][start..] == toml[start..shared];
  }

  /** Rewriting the inner section rewrites the end of the outer one. */
  lemma OuterBody(toml: string, first: string, s: Section, t: Section, id: string, y: string)
    requires IsSection(toml, Header(first), s) && t.start <= t.end <= |toml| && EndsBody(toml, t.start, t.end)
    requires s.start <= t.start <= s.end && t.end == s.end && t.start > 0 && toml[t.start - 1] == ']'
    requires IsHexObjectId(id) && RewriteBody(Body(toml, t), id) == Ok(y)
    ensures var r, outer := Rewritten(toml, t, y), Section(s.header, s.start, t.start + |y|);
            IsSection(r, Header(first), outer) && Body(r, outer) == toml[s.start..t.start] + y
  {
    BodyEndStays(toml, id, t, y);
    OuterFrame(toml, Header(first), s, t, y);
  }

  lemma OuterFrame(toml: string, header: string, s: Section, t: Section, y: string)
    requires IsSection(toml, header, s) && t.start <= t.end <= |toml|
    requires s.start <= t.start <= s.end && t.end == s.end && t.start > 0 && toml[t.start - 1] == ']'
    requires EndsBody(Rewritten(toml, t, y), t.start, t.start + |y|)
    ensures var r, outer := Rewritten(toml, t, y), Section(s.header, s.start, t.start + |y|);
            IsSection(r, header, outer) && Body(r, outer) == toml[s.start..t.start] + y
  {
    var r := Rewritten(toml, t, y);
    RewrittenSlices(toml, t, y);
    FirstInPrefix(toml, r, header, s.header, t.start);
    OuterBodyEnd(toml, r, s, t, t.start + |y|);
    TextFrom(toml, r, s.start, t.start, y);
  }

  lemma OuterBodyEnd(toml: string, r: string, s: Section, t: Section, end: nat)
    requires s.start <= t.start <= s.end == t.end && t.end <= |toml| && t.start <= end <= |r|
    requires t.start > 0 && toml[t.start - 1] == ']' && toml[..t.start] == r[..t.start]
    requires EndsBody(toml, s.start, s.end) && EndsBody(r, t.start, end)
    ensures EndsBody(r, s.start, end)
  {
    assert r[t.start - 1] == r[..t.start][t.start - 1] == toml[..t.start][t.start - 1] == ']';
    forall k: nat | s.start <= k < t.start ensures !OccursAt(r, NEXT_SECTION, k) {
      if k + 2 <= t.start {
        PrefixOccurrence(toml, r, NEXT_SECTION, k, t.start);
      } else if OccursAt(r, NEXT_SECTION, k) {
        OccurrenceHasChars(r, NEXT_SECTION, k);
      }
    }
    if end < |r| {
      FirstIs(r, NEXT_SECTION, s.start, end);
    }
  }

  lemma RewritableByAny(body: string, v: string, w: string)
    requires IsHexObjectId(v) && IsHexObjectId(w) && RewriteBody(body, v).Ok?
    ensures RewriteBody(body, w).Ok?
  {
    HexIdIsInert(v);
    HexIdIsInert(w);
    RewriteIsStretchwise(body, v);
    RewriteIsStretchwise(body, w);
    var i, j := RewriteFound(Stretches(body), PUBLISHED_AT, ORIGINAL_ID, v);
    RewriteAt(Stretches(body), PUBLISHED_AT, ORIGINAL_ID, i, j, w);
  }

  lemma TwoIdsChangeBody(body: string, v: string, w: string)
    requires IsHexObjectId(v) && IsHexObjectId(w) && v != w && RewriteBody(body, v).Ok?
    ensures RewriteBody(body, v) != Ok(body) || RewriteBody(body, w) != Ok(body)
  {
    HexIdIsInert(v);
    HexIdIsInert(w);
    if RewriteBody(body, v) == Ok(body) && RewriteBody(body, w) == Ok(body) {
      LastRewriteWinsBody(body, v, w);
      ReadAfterRewriteBody(body, v);
      ReadAfterRewriteBody(body, w);
    }
  }

  lemma OtherId(v: string) returns (w: string)
    ensures IsHexObjectId(w) && w != v
  {
    w := if v == "0x0" then "0x1" else "0x0";
  }

  /** A body that can be rewritten can be changed by it. */
  lemma SomeIdChangesBody(body: string, v: string) returns (id: string)
    requires IsHexObjectId(v) && RewriteBody(body, v).Ok?
    ensures IsHexObjectId(id) && RewriteBody(body, id).Ok? && RewriteBody(body, id).value != body
  {
    var w := OtherId(v);
    RewritableByAny(body, v, w);
    TwoIdsChangeBody(body, v, w);
    id := if RewriteBody(body, v) == Ok(body) then w else v;
  }

  lemma InnerKeepsOuterOnlyIfSame(toml: string, first: string, second: string, s: Section, t: Section,
                                  id: string, y: string)
    requires IsPlain(first) && IsPlain(second)
    requires IsSection(toml, Header(first), s) && IsSection(toml, Header(second), t)
    requires s.header < t.header && !Before(s, t)
    requires IsHexObjectId(id) && RewriteBody(Body(toml, t), id) == Ok(y)
    requires KeepsSection(toml, Rewritten(toml, t, y), first)
    ensures y == Body(toml, t)
  {
    InnerSection(toml, first, second, s, t);
    OuterBody(toml, first, s, t, id, y);
    SectionParts(toml, first, s);
    SectionParts(Rewritten(toml, t, y), first, Section(s.header, s.start, t.start + |y|));
    var lead := toml[s.start..t.start];
    assert Body(toml, s) == lead + Body(toml, t);
    SameTail(lead, y, Body(toml, t));
  }

  lemma SameTail(lead: string, x: string, y: string)
    requires lead + x == lead + y
    ensures x == y
  {
    assert x == (lead + x)[|lead|..] && y == (lead + y)[|lead|..];
  }

  lemma InnerDoesNotSpare(toml: string, first: string, second: string, s: Section, t: Section, v: string)
    requires IsPlain(first) && IsPlain(second)
    requires IsSection(toml, Header(first), s) && IsSection(toml, Header(second), t)
    requires s.header < t.header && !Before(s, t) && Rewrite(toml, second, v).Ok?
    ensures !Spares(toml, second, first)
  {
    SectionParts(toml, second, t);
    var id := SomeIdChangesBody(Body(toml, t), v);
    var y := RewriteBody(Body(toml, t), id).value;
    RewriteIs(toml, second, id, t, y);
    if KeepsSection(toml, Rewrite(toml, second, id).value, first) {
      InnerKeepsOuterOnlyIfSame(toml, first, second, s, t, id, y);
    }
  }

  lemma SparesIffInOrder(toml: string, first: string, second: string, s: Section, t: Section, w: string)
    requires IsPlain(first) && IsPlain(second)
    requires IsSection(toml, Header(first), s) && IsSection(toml, Header(second), t)
    requires s.header < t.header && Rewrite(toml, second, w).Ok?
    ensures Spares(toml, first, second) && Spares(toml, second, first) <==> Before(s, t)
  {
    SectionParts(toml, first, s);
    SectionParts(toml, second, t);
    if Before(s, t) {
      EarlierSpares(toml, first, second, s, t);
      LaterSpares(toml, first, second, s, t);
    } else {
      InnerDoesNotSpare(toml, first, second, s, t, w);
    }
  }

  /** The rewrites of two different networks leave each other's sections as they are exactly where the sections
      are apart. */
  lemma RewritesSpareIffApart(toml: string, first: string, second: string, v: string, w: string)
    requires IsPlain(first) && IsPlain(second) && first != second
    requires Rewrite(toml, first, v).Ok? && Rewrite(toml, second, w).Ok?
    ensures Spares(toml, first, second) && Spares(toml, second, first)
            <==> Apart(FindSection(toml, first).value, FindSection(toml, second).value)
  {
    var s, t := FindSection(toml, first).value, FindSection(toml, second).value;
    SectionParts(toml, first, s);
    SectionParts(toml, second, t);
    SectionsDiffer(toml, first, second, s, t);
    HeaderOpens(toml, first, s);
    HeaderOpens(toml, second, t);
    if s.header < t.header {
      SparesIffInOrder(toml, first, second, s, t, w);
    } else {
      SparesIffInOrder(toml, second, first, t, s, v);
    }
  }

  // ----- When a rewrite fails -----------------------------------------------------------------------

  lemma FieldFoundIff(body: string, field: string)
    ensures FindKey(Stretches(body), field, 0).Some?
            <==> exists before, value, after :: IsMatch(body, field, before, value, after)
  {
    if FindKey(Stretches(body), field, 0).Some? {
      FoundIsMatch(body, field, FindKey(Stretches(body), field, 0).value);
    }
    forall before, value, after | IsMatch(body, field, before, value, after)
      ensures FindKey(Stretches(body), field, 0).Some?
    {
      FoundIsLeftmost(body, field, before, value, after);
    }
  }

  /** An id is taken if it is hexadecimal behind `0x`. */
  lemma IdCharacters(id: string)
    ensures IsHexObjectId(id)
            <==> |id| >= 3 && id[0] == '0' && id[1] == 'x'
                 && forall i :: 2 <= i < |id| ==> '0' <= id[i] <= '9' || 'a' <= id[i] <= 'f' || 'A' <= id[i] <= 'F'
    ensures IsObjectId(id) <==> IsHexObjectId(id) && |id| == 66
  {
    if |id| >= 2 {
      assert id[..2] == [id[0], id[1]];
      assert "0x" == ['0', 'x'];
      assert forall i :: 2 <= i < |id| ==> id[2..][i - 2] == id[i];
    }
  }

  /** A rewrite fails for the id, for a header that is nowhere, or for a field the section does not have, and for
      nothing else. */
  lemma RewriteFailsIff(toml: string, env: string, id: string)
    ensures Rewrite(toml, env, id) == Err(BadPackageId) <==> !IsHexObjectId(id)
    ensures Rewrite(toml, env, id) == Err(MissingSection)
            <==> IsHexObjectId(id) && forall p: nat :: !OccursAt(toml, "[published." + env + "]", p)
    ensures Rewrite(toml, env, id) == Err(MissingField(PUBLISHED_AT))
            <==> IsHexObjectId(id) && FindSection(toml, env).Some?
                 && forall before, value, after ::
                      !IsMatch(Body(toml, FindSection(toml, env).value), PUBLISHED_AT, before, value, after)
  {
    FieldsDiffer();
    if FindSection(toml, env).Some? {
      FieldFoundIff(Body(toml, FindSection(toml, env).value), PUBLISHED_AT);
    }
  }

  lemma FieldsDiffer()
    ensures PUBLISHED_AT == "published-at" && ORIGINAL_ID == "original-id" && PUBLISHED_AT != ORIGINAL_ID
  {
    assert PUBLISHED_AT[0] != ORIGINAL_ID[0];
  }

  /** The network is the text without its padding, and the test network where nothing is left. */
  lemma NetworkIs(lead: string, name: string, trail: string)
    requires AllSpace(lead) && AllSpace(trail) && Trimmed(name)
    ensures NormalizeNetwork(lead + name + trail) == if name == "" then "testnet" else name
  {
    TrimOfPadded(lead, name, trail);
  }

  /** What is read is the first value of `published-at` in the network's section that is not empty, if that is a 32-byte
      id once it is trimmed; padding in the quotes is given back. */
  lemma ReadGives(toml: string, network: string, id: string)
    ensures Read(toml, network) == Ok(id) <==>
            && FindSection(toml, NormalizeNetwork(network)).Some?
            && (exists before, after ::
                  IsFirstFilled(Body(toml, FindSection(toml, NormalizeNetwork(network)).value), "published-at",
                                before, id, after))
            && |Trim(id)| == 66 && Trim(id)[..2] == "0x" && Hex.AllHexDigits(Trim(id)[2..])
  {
    FieldsDiffer();
    if FindSection(toml, NormalizeNetwork(network)).Some? {
      ReadsFirstFilled(Body(toml, FindSection(toml, NormalizeNetwork(network)).value), id);
    }
  }
}
