/** Text operations of ECMAScript that several of the dapp's parsers start with. */
module JsText {

  /** The white space and line terminators `String.prototype.trim` removes and `\s` matches. */
  predicate IsSpace(c: char) {
    || '\t' <= c <= '\r' || c == ' ' || c == '\U{A0}' || c == '\U{1680}' || '\U{2000}' <= c <= '\U{200A}'
    || c == '\U{2028}' || c == '\U{2029}' || c == '\U{202F}' || c == '\U{205F}' || c == '\U{3000}' || c == '\U{FEFF}'
  }

  function TrimStart(s: string): (r: string)
    ensures |r| > 0 ==> !IsSpace(r[0])
  {
    if |s| > 0 && IsSpace(s[0]) then TrimStart(s[1..]) else s
  }

  function TrimEnd(s: string): (r: string)
    ensures |r| > 0 ==> !IsSpace(r[|r| - 1])
  {
    if |s| > 0 && IsSpace(s[|s| - 1]) then TrimEnd(s[..|s| - 1]) else s
  }

  function Trim(s: string): string {
    TrimEnd(TrimStart(s))
  }

  predicate AllSpace(s: string) {
    forall i :: 0 <= i < |s| ==> IsSpace(s[i])
  }

  /** Nothing to trim: empty, or no white space at either end. */
  predicate Trimmed(s: string) {
    |s| > 0 ==> !IsSpace(s[0]) && !IsSpace(s[|s| - 1])
  }

  lemma {:induction false} TrimStartDrops(lead: string, s: string)
    requires AllSpace(lead)
    ensures TrimStart(lead + s) == TrimStart(s)
  {
    if |lead| == 0 {
      assert lead + s == s;
    } else {
      assert (lead + s)[1..] == lead[1..] + s;
      TrimStartDrops(lead[1..], s);
    }
  }

  lemma {:induction false} TrimEndDrops(s: string, trail: string)
    requires AllSpace(trail)
    ensures TrimEnd(s + trail) == TrimEnd(s)
    decreases |trail|
  {
    if |trail| == 0 {
      assert s + trail == s;
    } else {
      assert (s + trail)[..|s + trail| - 1] == s + trail[..|trail| - 1];
      TrimEndDrops(s, trail[..|trail| - 1]);
    }
  }

  lemma TrimOfPadded(lead: string, s: string, trail: string)
    requires AllSpace(lead) && AllSpace(trail) && Trimmed(s)
    ensures Trim(lead + s + trail) == s
  {
    TrimStartDrops(lead, s + trail);
    assert lead + s + trail == lead + (s + trail);
    if |s| > 0 {
      assert (s + trail)[0] == s[0];
      TrimEndDrops(s, trail);
    } else {
      assert s + trail == trail;
      TrimStartDrops(trail, "");
      assert trail + "" == trail;
    }
  }

  lemma {:induction false} TrimStartParts(s: string) returns (lead: string)
    ensures AllSpace(lead) && s == lead + TrimStart(s)
  {
    if |s| > 0 && IsSpace(s[0]) {
      var rest := TrimStartParts(s[1..]);
      lead := [s[0]] + rest;
    } else {
      lead := "";
    }
  }

  lemma {:induction false} TrimEndParts(s: string) returns (trail: string)
    ensures AllSpace(trail) && s == TrimEnd(s) + trail
    ensures |TrimEnd(s)| > 0 ==> TrimEnd(s)[0] == s[0]
  {
    if |s| > 0 && IsSpace(s[|s| - 1]) {
      var rest := TrimEndParts(s[..|s| - 1]);
      trail := rest + [s[|s| - 1]];
      assert s == s[..|s| - 1] + [s[|s| - 1]];
    } else {
      trail := "";
    }
  }

  /** Trimming takes white space off both ends and nothing else. */
  lemma TrimParts(s: string) returns (lead: string, trail: string)
    ensures AllSpace(lead) && AllSpace(trail) && Trimmed(Trim(s)) && s == lead + Trim(s) + trail
  {
    lead := TrimStartParts(s);
    trail := TrimEndParts(TrimStart(s));
  }

  /** White space and line ends, by their code points (sections 12.2 and 12.3 of ECMA-262). */
  lemma SpaceCodes(c: char)
    ensures IsSpace(c) <==>
            var n := c as int;
            9 <= n <= 13 || n == 32 || n == 160 || n == 5760 || 8192 <= n <= 8202 || n == 8232 || n == 8233 || n == 8239
            || n == 8287 || n == 12288 || n == 65279
  {
  }
}
