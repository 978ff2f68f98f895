/** Files on which the Published.toml rewriter does not keep what it keeps elsewhere. */
module TomlCounterexamples {
  import opened Prelude
  import opened JsText
  import opened Joining
  import opened TomlFields
  import opened PublishedToml

  // ----- Keys ------------------------------------------------------------------------------------

  lemma IsKeyOf(lead: string, field: string, a: string, b: string)
    requires AllSpace(lead) && AllSpace(a) && AllSpace(b) && |field| > 0 && !IsSpace(field[0])
    ensures IsKey(lead + (field + (a + (['='] + b))), field)
  {
    var equals := ['='] + b;
    var named := field + (a + equals);
    TrimStartDrops(lead, named);
    assert named[0] == field[0] && named[|field|..] == a + equals && named[..|field|] == field;
    TrimStartDrops(a, equals);
    assert equals[1..] == b && b + "" == b;
    TrimStartDrops(b, "");
  }

  /** A stretch that ends in a line with the key and nothing else. */
  lemma KeyLineEndsInKey(before: string, atStart: bool, field: string)
    requires |field| > 0 && !IsSpace(field[0])
    ensures StretchEndsInKey(before + (['\n'] + (field + " = ")), atStart, field)
  {
    var s := before + (['\n'] + (field + " = "));
    var p := |before| + 1;
    IsKeyOf("", field, " ", " ");
    assert "" + (field + (" " + (['='] + " "))) == field + " = ";
    assert s[p..] == field + " = " && s[p - 1] == '\n';
    assert StretchKeyFrom(s, atStart, field, p);
  }

  lemma KeyHoldsFirst(key: string, field: string)
    requires IsKey(key, field) && |field| > 0
    ensures field[0] in key
  {
    var lead := TrimStartParts(key);
    assert TrimStart(key)[0] == field[0];
    assert key[|lead|] == field[0];
  }

  lemma NoKeyWithoutFirst(stretch: string, atStart: bool, field: string)
    requires |field| > 0 && field[0] !in stretch
    ensures !StretchEndsInKey(stretch, atStart, field)
  {
    forall p: nat | p <= |stretch| ensures !IsKey(stretch[p..], field) {
      if IsKey(stretch[p..], field) {
        KeyHoldsFirst(stretch[p..], field);
      }
    }
  }

  lemma FieldNames()
    ensures |PUBLISHED_AT| > 0 && PUBLISHED_AT[0] == 'p' && |ORIGINAL_ID| > 0 && ORIGINAL_ID[0] == 'o'
    ensures 'o' !in PUBLISHED_AT && 'p' !in ORIGINAL_ID
  {
  }

  function Line(before: string, field: string): string {
    before + (['\n'] + (field + " = "))
  }

  // ----- A section that swallows its own key -----------------------------------------------------

  /** `original-id = "abc` on one line, `published-at = "0x1"` on the next. */
  function SwallowingStretches(): (g: seq<string>)
    ensures |g| == 4
  {
    [Line("", ORIGINAL_ID), Line("abc", PUBLISHED_AT), "0x1", "\n"]
  }

  lemma SwallowingFound()
    ensures Found(SwallowingStretches(), PUBLISHED_AT, ORIGINAL_ID, 1, 0)
  {
    var g := SwallowingStretches();
    FieldNames();
    NoKeyWithoutFirst(g[0], true, PUBLISHED_AT);
    KeyLineEndsInKey("abc", false, PUBLISHED_AT);
    FirstFound(g, PUBLISHED_AT, 1);
    KeyLineEndsInKey("", true, ORIGINAL_ID);
    FirstFound(g[2 := ""], ORIGINAL_ID, 0);
  }

  lemma NoSectionWithoutBracket(s: string, from: nat)
    requires forall k :: from < k < |s| ==> s[k] != '['
    ensures IndexFrom(s, NEXT_SECTION, from).None?
  {
    forall k: nat | from <= k ensures !OccursAt(s, NEXT_SECTION, k) {
      if k + 2 <= |s| {
        assert s[k..k + 2][1] == s[k + 1] != NEXT_SECTION[1];
      }
    }
  }

  /** A file of one section. */
  lemma OnlySection(env: string, body: string)
    requires '[' !in body
    ensures var toml := Header(env) + body;
            FindSection(toml, env) == Some(Section(0, |Header(env)|, |toml|))
            && Body(toml, Section(0, |Header(env)|, |toml|)) == body
  {
    var toml := Header(env) + body;
    Halves(Header(env), body);
    assert OccursAt(toml, Header(env), 0);
    FirstIs(toml, Header(env), 0, 0);
    forall k | |Header(env)| < k < |toml| ensures toml[k] != '[' {
      assert toml[k] == body[k - |Header(env)|];
    }
    NoSectionWithoutBracket(toml, |Header(env)|);
    SectionParts(toml, env, Section(0, |Header(env)|, |toml|));
  }

  function SwallowingFile(): string {
    Header("testnet") + Join(SwallowingStretches(), QUOTE)
  }

  lemma SwallowingBody()
    ensures Stretches(Join(SwallowingStretches(), QUOTE)) == SwallowingStretches()
    ensures '[' !in Join(SwallowingStretches(), QUOTE)
  {
    var g := SwallowingStretches();
    SplitOfJoin(g, QUOTE);
    NotInJoin(g, '[');
  }

  lemma {:induction false} NotInJoin(g: seq<string>, c: char)
    requires |g| > 0 && c != QUOTE && forall i :: 0 <= i < |g| ==> c !in g[i]
    ensures c !in Join(g, QUOTE)
  {
    if |g| > 1 {
      NotInJoin(g[1..], c);
    }
  }

  lemma TestnetIsNormal()
    ensures NormalizeNetwork("testnet") == "testnet"
  {
    TrimOfPadded("", "testnet", "");
    assert "" + "testnet" + "" == "testnet";
  }

  lemma SwallowingBodyLoses(id: string)
    requires IsObjectId(id)
    ensures var body := Join(SwallowingStretches(), QUOTE);
            && Swallows(body) && RewriteBody(body, id).Ok? && ReadField(RewriteBody(body, id).value).None?
  {
    var g := SwallowingStretches();
    HexIdIsInert(id);
    SwallowingBody();
    SwallowingFound();
    SwallowsIff(g, PUBLISHED_AT, ORIGINAL_ID, 1, 0);
    RewriteAt(g, PUBLISHED_AT, ORIGINAL_ID, 1, 0, id);
    RewriteIsStretchwise(Join(g, QUOTE), id);
    ReadAfterRewriteBody(Join(g, QUOTE), id);
  }

  /** Its section swallows its own key: every rewrite succeeds, and afterwards no id is read at all. */
  lemma SwallowingFileLosesEveryId(id: string)
    requires IsObjectId(id)
    ensures SectionSwallows(SwallowingFile(), "testnet") && Rewrite(SwallowingFile(), "testnet", id).Ok?
    ensures Read(Rewrite(SwallowingFile(), "testnet", id).value, "testnet") == Err(NoPublishedAt)
  {
    var body := Join(SwallowingStretches(), QUOTE);
    SwallowingBody();
    OnlySection("testnet", body);
    SwallowingBodyLoses(id);
    TestnetIsNormal();
    RewriteTouchesSectionOnly(SwallowingFile(), "testnet", id, Rewrite(SwallowingFile(), "testnet", id).value);
  }

  // ----- Sections that overlap -------------------------------------------------------------------

  /** The body of a section with both fields at `id`. */
  function PlainStretches(before: string, id: string): (g: seq<string>)
    ensures |g| == 5
  {
    [Line(before, PUBLISHED_AT), id, Line("", ORIGINAL_ID), id, "\n"]
  }

  lemma PlainFound(before: string, id: string)
    requires 'o' !in before && '=' !in id
    ensures Found(PlainStretches(before, id), PUBLISHED_AT, ORIGINAL_ID, 0, 2)
  {
    var g := PlainStretches(before, id);
    var h := g[1 := ""];
    FieldNames();
    KeyLineEndsInKey(before, true, PUBLISHED_AT);
    FirstFound(g, PUBLISHED_AT, 0);
    NoKeyWithoutFirst(h[0], true, ORIGINAL_ID);
    InertHoldsNoKey("", false, ORIGINAL_ID);
    KeyLineEndsInKey("", false, ORIGINAL_ID);
    FirstFound(h, ORIGINAL_ID, 2);
  }

  lemma PlainRewritten(before: string, id: string, v: string)
    requires 'o' !in before && QUOTE !in before && Inert(id) && Inert(v)
    ensures RewriteBody(Join(PlainStretches(before, id), QUOTE), v) == Ok(Join(PlainStretches(before, v), QUOTE))
  {
    var g, h := PlainStretches(before, id), PlainStretches(before, v);
    SplitOfJoin(g, QUOTE);
    PlainFound(before, id);
    RewriteAt(g, PUBLISHED_AT, ORIGINAL_ID, 0, 2, v);
    assert g[1 := v][3 := v] == h;
    RewriteIsStretchwise(Join(g, QUOTE), v);
    JoinOfSplit(RewriteBody(Join(g, QUOTE), v).value, QUOTE);
  }

  lemma PlainBehind(before: string, id: string)
    ensures Join(PlainStretches(before, id), QUOTE) == before + Join(PlainStretches("", id), QUOTE)
  {
    var g, h := PlainStretches(before, id), PlainStretches("", id);
    assert g[1..] == h[1..];
    var line, rest := Line("", PUBLISHED_AT), [QUOTE] + Join(h[1..], QUOTE);
    assert Line(before, PUBLISHED_AT) == before + line;
    Regroup(before, line, rest);
    Regroup(before + line, [QUOTE], Join(h[1..], QUOTE));
    Regroup(line, [QUOTE], Join(h[1..], QUOTE));
  }

  /** The section of `a` has the header of `b` on its first line, behind a `#`. */
  function OverlappingFile(id: string): string {
    Header("a") + (['#'] + (Header("b") + Join(PlainStretches("", id), QUOTE)))
  }

  lemma OneLetterHeader(env: string)
    requires |env| == 1 && env[0] != '['
    ensures |Header(env)| == 13 && Header(env)[0] == '[' && Header(env)[11] == env[0]
    ensures forall k :: 1 <= k < 13 ==> Header(env)[k] != '['
  {
  }

  lemma PlainHasNoBracket(id: string)
    requires '[' !in id
    ensures '[' !in Join(PlainStretches("", id), QUOTE)
  {
    NotInJoin(PlainStretches("", id), '[');
  }

  /** Where the brackets are. */
  lemma OverlappingChars(id: string)
    requires '[' !in id
    ensures var toml := OverlappingFile(id);
            && |toml| >= 27 && toml[11] == 'a' && toml[13] == '#' && toml[14..27] == Header("b")
            && toml[13..] == ['#'] + (Header("b") + Join(PlainStretches("", id), QUOTE))
            && toml[27..] == Join(PlainStretches("", id), QUOTE)
            && forall k :: 0 <= k < |toml| && k != 0 && k != 14 ==> toml[k] != '['
  {
    OneLetterHeader("a");
    OneLetterHeader("b");
    PlainHasNoBracket(id);
    var toml, body := OverlappingFile(id), Join(PlainStretches("", id), QUOTE);
    Halves(Header("a"), ['#'] + (Header("b") + body));
    Halves(['#'], Header("b") + body);
    Halves(Header("b"), body);
    assert toml[14..] == toml[13..][1..];
    assert toml[27..] == toml[14..][13..];
    forall k | 1 <= k < |toml| && k != 14 ensures toml[k] != '[' {
      if k >= 27 {
        assert toml[k] == body[k - 27];
      } else if k > 14 {
        assert toml[k] == Header("b")[k - 14];
      }
    }
  }

  lemma OverlappingSections(id: string)
    requires '[' !in id
    ensures var toml := OverlappingFile(id);
            && FindSection(toml, "a") == Some(Section(0, 13, |toml|))
            && FindSection(toml, "b") == Some(Section(14, 27, |toml|))
  {
    var toml := OverlappingFile(id);
    OneLetterHeader("a");
    OneLetterHeader("b");
    OverlappingChars(id);
    assert toml[0..13] == Header("a");
    FirstIs(toml, Header("a"), 0, 0);
    forall k: nat | k < 14 ensures !OccursAt(toml, Header("b"), k) {
      assert toml[k..k + 13][0] == toml[k] && toml[k..k + 13][11] == toml[k + 11];
    }
    FirstIs(toml, Header("b"), 0, 14);
    forall k: nat | 13 <= k ensures !OccursAt(toml, NEXT_SECTION, k) {
      if k + 2 <= |toml| {
        assert toml[k..k + 2][0] == toml[k] && toml[k..k + 2][1] == toml[k + 1];
      }
    }
    assert IndexFrom(toml, NEXT_SECTION, 13).None? && IndexFrom(toml, NEXT_SECTION, 27).None?;
    SectionParts(toml, "a", Section(0, 13, |toml|));
    SectionParts(toml, "b", Section(14, 27, |toml|));
  }

  /** A rewrite of a section that runs to the end of the file. */
  lemma LastSectionRewritten(front: string, body: string, changed: string, env: string, h: nat, v: string)
    requires IsHexObjectId(v) && FindSection(front + body, env) == Some(Section(h, |front|, |front + body|))
    requires RewriteBody(body, v) == Ok(changed)
    ensures Rewrite(front + body, env, v) == Ok(front + changed)
  {
    var s := Section(h, |front|, |front + body|);
    Halves(front, body);
    assert Body(front + body, s) == body;
    SectionParts(front + body, env, s);
    RewriteIs(front + body, env, v, s, changed);
    assert Rewritten(front + body, s, changed) == front + changed;
  }

  lemma OverlappingRewrittenA(id: string, v: string)
    requires IsHexObjectId(id) && IsHexObjectId(v)
    ensures Rewrite(OverlappingFile(id), "a", v) == Ok(OverlappingFile(v))
  {
    var before := ['#'] + Header("b");
    HexIdIsInert(id);
    HexIdIsInert(v);
    OneLetterHeader("a");
    OverlappingSections(id);
    PlainRewritten(before, id, v);
    PlainBehind(before, id);
    PlainBehind(before, v);
    Regroup(['#'], Header("b"), Join(PlainStretches("", id), QUOTE));
    Regroup(['#'], Header("b"), Join(PlainStretches("", v), QUOTE));
    LastSectionRewritten(Header("a"), Join(PlainStretches(before, id), QUOTE), Join(PlainStretches(before, v), QUOTE),
                         "a", 0, v);
  }

  function OverlappingHead(): string {
    Header("a") + (['#'] + Header("b"))
  }

  lemma HeadAndBody(id: string)
    ensures |OverlappingHead()| == 27
    ensures OverlappingFile(id) == OverlappingHead() + Join(PlainStretches("", id), QUOTE)
  {
    OneLetterHeader("a");
    OneLetterHeader("b");
    Regroup(['#'], Header("b"), Join(PlainStretches("", id), QUOTE));
    Regroup(Header("a"), ['#'] + Header("b"), Join(PlainStretches("", id), QUOTE));
  }

  lemma OverlappingRewrittenB(id: string, v: string)
    requires IsHexObjectId(id) && IsHexObjectId(v)
    ensures Rewrite(OverlappingFile(id), "b", v) == Ok(OverlappingFile(v))
  {
    HexIdIsInert(id);
    HexIdIsInert(v);
    HeadAndBody(id);
    HeadAndBody(v);
    OverlappingSections(id);
    PlainRewritten("", id, v);
    LastSectionRewritten(OverlappingHead(), Join(PlainStretches("", id), QUOTE), Join(PlainStretches("", v), QUOTE),
                         "b", 14, v);
  }

  lemma OverlappingDiffers(v: string, w: string)
    requires IsHexObjectId(v) && IsHexObjectId(w) && v != w
    ensures OverlappingFile(v) != OverlappingFile(w)
  {
    HexIdIsInert(v);
    HexIdIsInert(w);
    HeadAndBody(v);
    HeadAndBody(w);
    Halves(OverlappingHead(), Join(PlainStretches("", v), QUOTE));
    Halves(OverlappingHead(), Join(PlainStretches("", w), QUOTE));
    SplitOfJoin(PlainStretches("", v), QUOTE);
    SplitOfJoin(PlainStretches("", w), QUOTE);
    assert PlainStretches("", v)[1] != PlainStretches("", w)[1];
  }

  /** Different networks, each rewrite sets the one pair of fields the file has, and so the order of the two
      decides which id it ends up with. */
  lemma OverlappingRewritesDoNotCommute(id: string, v: string, w: string)
    requires IsHexObjectId(id) && IsHexObjectId(v) && IsHexObjectId(w) && v != w
    ensures Rewrite(OverlappingFile(id), "a", v).Ok? && Rewrite(OverlappingFile(id), "b", w).Ok?
    ensures Rewrite(Rewrite(OverlappingFile(id), "a", v).value, "b", w)
            != Rewrite(Rewrite(OverlappingFile(id), "b", w).value, "a", v)
  {
    OverlappingRewrittenA(id, v);
    OverlappingRewrittenB(v, w);
    OverlappingRewrittenB(id, w);
    OverlappingRewrittenA(w, v);
    OverlappingDiffers(v, w);
  }

  // ----- A plain file, for comparison ---------------------------------------------------------------

  /** A section with its two fields on lines of their own. */
  function PlainFile(env: string, id: string): string {
    "[published." + env + "]"
    + ("\npublished-at = " + ([QUOTE] + id + [QUOTE] + ("\noriginal-id = " + ([QUOTE] + id + [QUOTE] + "\n"))))
  }

  lemma PlainLines(first: string, second: string, id: string)
    ensures Join([first, id, second, id, "\n"], QUOTE)
            == first + ([QUOTE] + id + [QUOTE] + (second + ([QUOTE] + id + [QUOTE] + "\n")))
  {
    assert ["\n"] + [] == ["\n"] && [id] + ["\n"] == [id, "\n"];
    assert [second] + [id, "\n"] == [second, id, "\n"] && [id] + [second, id, "\n"] == [id, second, id, "\n"];
    assert [first] + [id, second, id, "\n"] == [first, id, second, id, "\n"];
    JoinStep("\n", [], id);
    JoinStep(id, ["\n"], second);
    JoinStep(second, [id, "\n"], id);
    JoinStep(id, [second, id, "\n"], first);
    Quoted(first, id, Join([second, id, "\n"], QUOTE));
    Quoted(second, id, "\n");
  }

  lemma JoinStep(head: string, rest: seq<string>, first: string)
    ensures Join([first] + ([head] + rest), QUOTE) == first + [QUOTE] + Join([head] + rest, QUOTE)
    ensures rest == [] ==> Join([head] + rest, QUOTE) == head
  {
    assert ([first] + ([head] + rest))[1..] == [head] + rest;
  }

  lemma Quoted(key: string, value: string, rest: string)
    ensures key + [QUOTE] + (value + [QUOTE] + rest) == key + ([QUOTE] + value + [QUOTE] + rest)
  {
  }

  lemma PlainFileIs(env: string, id: string)
    ensures PlainFile(env, id) == Header(env) + Join(PlainStretches("", id), QUOTE)
  {
    PlainLines(Line("", PUBLISHED_AT), Line("", ORIGINAL_ID), id);
    LineTexts();
  }

  lemma LineTexts()
    ensures Line("", PUBLISHED_AT) == "\npublished-at = " && Line("", ORIGINAL_ID) == "\noriginal-id = "
  {
  }

  /** There a rewrite sets both ids, and the reader gives the new one. */
  lemma PlainFileRewritten(env: string, id: string, v: string)
    requires IsHexObjectId(id) && IsHexObjectId(v)
    ensures Rewrite(PlainFile(env, id), env, v) == Ok(PlainFile(env, v))
  {
    HexIdIsInert(id);
    HexIdIsInert(v);
    PlainFileIs(env, id);
    PlainFileIs(env, v);
    PlainHasNoBracket(id);
    OnlySection(env, Join(PlainStretches("", id), QUOTE));
    PlainRewritten("", id, v);
    LastSectionRewritten(Header(env), Join(PlainStretches("", id), QUOTE), Join(PlainStretches("", v), QUOTE), env, 0,
                         v);
  }
}
