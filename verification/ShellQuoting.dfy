/** The command lines scripts/build_aws_membership_identity_eif.ts prints, and how a shell splits them
    (POSIX.1-2017, Shell Command Language, sections 2.2.1, 2.2.2 and 2.3). */
module ShellQuoting {
  import opened Prelude

  predicate IsSafe(c: char) {
    'A' <= c <= 'Z' || 'a' <= c <= 'z' || '0' <= c <= '9' || c in "_./:=-"
  }

  /** `^[A-Za-z0-9_./:=-]+$`. */
  predicate IsBare(value: string) {
    |value| > 0 && forall i :: 0 <= i < |value| ==> IsSafe(value[i])
  }

  /** `replaceAll("'", "'\\''")`: leave the quotes, an escaped quote, enter them again. */
  function EscapeQuotes(value: string): string {
    if |value| == 0 then ""
    else (if value[0] == '\'' then "'\\''" else [value[0]]) + EscapeQuotes(value[1..])
  }

  function ShellQuote(value: string): string {
    if IsBare(value) then value
    else "'" + EscapeQuotes(value) + "'"
  }

  function ShellJoin(argv: seq<string>): string {
    if |argv| == 0 then ""
    else if |argv| == 1 then ShellQuote(argv[0])
    else ShellQuote(argv[0]) + " " + ShellJoin(argv[1..])
  }

  // ----- Splitting by the shell's rules -----------------------------------------------------------

  /** Characters that mean something else to the shell when they stand unquoted. */
  predicate IsSpecial(c: char) {
    c in "|&;<>()$`\"*?[]#~%{}!^\n"
  }

  function Extend(word: Option<string>, c: char): Option<string> {
    match word case None => Some([c]) case Some(w) => Some(w + [c])
  }

  function Flush(word: Option<string>): seq<string> {
    match word case None => [] case Some(w) => [w]
  }

  /** The words of `s`, the one begun being `word`; `None` where the text is more than plain words, or ends
      inside quotes. */
  function Words(s: string, word: Option<string>, inQuotes: bool): Option<seq<string>> {
    if inQuotes then
      if |s| == 0 then None
      else if s[0] == '\'' then Words(s[1..], word, false)
      else Words(s[1..], Extend(word, s[0]), true)
    else if |s| == 0 then Some(Flush(word))
    else if s[0] == ' ' || s[0] == '\t' then
      match Words(s[1..], None, false)
      case None => None
      case Some(rest) => Some(Flush(word) + rest)
    else if s[0] == '\'' then Words(s[1..], if word.None? then Some("") else word, true)
    else if s[0] == '\\' then
      if |s| == 1 then None
      else if s[1] == '\n' then Words(s[2..], word, false)
      else Words(s[2..], Extend(word, s[1]), false)
    else if IsSpecial(s[0]) then None
    else Words(s[1..], Extend(word, s[0]), false)
  }

  function SplitWords(s: string): Option<seq<string>> {
    Words(s, None, false)
  }

  lemma {:induction false} WordsOfSafe(value: string, rest: string, word: string)
    requires forall i :: 0 <= i < |value| ==> IsSafe(value[i])
    ensures Words(value + rest, Some(word), false) == Words(rest, Some(word + value), false)
    decreases |value|
  {
    if |value| == 0 {
      assert value + rest == rest && word + value == word;
    } else {
      assert (value + rest)[1..] == value[1..] + rest;
      assert word + [value[0]] + value[1..] == word + value;
      WordsOfSafe(value[1..], rest, word + [value[0]]);
    }
  }

  lemma WordsAfterEscapedQuote(rest: string, word: string)
    ensures Words("'\\''" + rest, Some(word), true) == Words(rest, Some(word + ['\'']), true)
  {
    var s := "'\\''" + rest;
    assert s[1..][2..] == "'" + rest && ("'" + rest)[1..] == rest;
    assert Words(s, Some(word), true) == Words(s[1..], Some(word), false);
    assert Words(s[1..], Some(word), false) == Words("'" + rest, Some(word + ['\'']), false);
  }

  lemma {:induction false} WordsOfEscaped(value: string, rest: string, word: string)
    ensures Words(EscapeQuotes(value) + "'" + rest, Some(word), true) == Words(rest, Some(word + value), false)
    decreases |value|
  {
    if |value| == 0 {
      assert EscapeQuotes(value) + "'" + rest == "'" + rest && ("'" + rest)[1..] == rest && word + value == word;
    } else {
      var tail := EscapeQuotes(value[1..]) + "'" + rest;
      assert word + [value[0]] + value[1..] == word + value;
      if value[0] == '\'' {
        assert EscapeQuotes(value) + "'" + rest == "'\\''" + tail;
        WordsAfterEscapedQuote(tail, word);
      } else {
        assert EscapeQuotes(value) + "'" + rest == [value[0]] + tail && ([value[0]] + tail)[1..] == tail;
      }
      WordsOfEscaped(value[1..], rest, word + [value[0]]);
    }
  }

  lemma WordsOfBare(value: string, rest: string)
    requires IsBare(value)
    ensures Words(value + rest, None, false) == Words(rest, Some(value), false)
  {
    var first := value[0];
    assert (value + rest)[0] == first && (value + rest)[1..] == value[1..] + rest;
    assert IsSafe(first) && !IsSpecial(first);
    assert [first] + value[1..] == value;
    WordsOfSafe(value[1..], rest, [first]);
  }

  lemma WordsOfQuoted(value: string, rest: string)
    ensures Words("'" + EscapeQuotes(value) + "'" + rest, None, false) == Words(rest, Some(value), false)
  {
    var s := "'" + EscapeQuotes(value) + "'" + rest;
    var inner := EscapeQuotes(value) + "'" + rest;
    assert s == "'" + inner && s[0] == '\'' && s[1..] == inner;
    assert Words(s, None, false) == Words(inner, Some(""), true);
    WordsOfEscaped(value, rest, "");
    assert "" + value == value;
  }

  lemma WordsOfShellQuote(value: string, rest: string)
    ensures Words(ShellQuote(value) + rest, None, false) == Words(rest, Some(value), false)
  {
    if IsBare(value) {
      WordsOfBare(value, rest);
    } else {
      assert ShellQuote(value) + rest == "'" + EscapeQuotes(value) + "'" + rest;
      WordsOfQuoted(value, rest);
    }
  }

  lemma WordsOfJoinStep(value: string, s: string, tail: seq<string>)
    requires SplitWords(s) == Some(tail)
    ensures SplitWords(ShellQuote(value) + " " + s) == Some([value] + tail)
  {
    var rest := " " + s;
    assert rest[0] == ' ' && rest[1..] == s;
    assert ShellQuote(value) + " " + s == ShellQuote(value) + rest;
    WordsOfShellQuote(value, rest);
  }

  /** A shell gives back exactly the argument list, empty arguments and quotes included. */
  lemma {:induction false} SplitOfShellJoin(argv: seq<string>)
    ensures SplitWords(ShellJoin(argv)) == Some(argv)
    decreases |argv|
  {
    if |argv| == 1 {
      assert ShellQuote(argv[0]) + "" == ShellQuote(argv[0]);
      WordsOfShellQuote(argv[0], "");
      assert argv == [argv[0]];
    } else if |argv| > 1 {
      SplitOfShellJoin(argv[1..]);
      WordsOfJoinStep(argv[0], ShellJoin(argv[1..]), argv[1..]);
      assert argv == [argv[0]] + argv[1..];
    }
  }

  /** Exactly the non-empty words of letters, digits and `_./:=-` are written as they are; any other is quoted. */
  lemma BareOrQuoted(value: string)
    ensures ShellQuote(value) == value
            <==> |value| > 0 && forall i :: 0 <= i < |value| ==>
                   'A' <= value[i] <= 'Z' || 'a' <= value[i] <= 'z' || '0' <= value[i] <= '9'
                   || value[i] in ['_', '.', '/', ':', '=', '-']
    ensures ShellQuote(value) != value ==>
              |ShellQuote(value)| >= 2 && ShellQuote(value)[0] == '\'' == ShellQuote(value)[|ShellQuote(value)| - 1]
  {
    EscapedIsNotShorter(value);
    if !IsBare(value) {
      assert |ShellQuote(value)| >= |value| + 2;
    }
    assert forall c :: IsSafe(c) <==> 'A' <= c <= 'Z' || 'a' <= c <= 'z' || '0' <= c <= '9'
                                      || c in ['_', '.', '/', ':', '=', '-'];
  }

  lemma {:induction false} EscapedIsNotShorter(value: string)
    ensures |EscapeQuotes(value)| >= |value|
    decreases |value|
  {
    if |value| > 0 {
      EscapedIsNotShorter(value[1..]);
    }
  }
}
