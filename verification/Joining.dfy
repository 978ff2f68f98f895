/** Joining sequences with a separator and splitting at it, as `join` and `split` do. */
module Joining {

  function Join<T>(parts: seq<seq<T>>, separator: T): seq<T>
    requires |parts| > 0
  {
    if |parts| == 1 then parts[0] else parts[0] + [separator] + Join(parts[1..], separator)
  }

  function Split<T(==)>(s: seq<T>, separator: T): (parts: seq<seq<T>>)
    ensures |parts| > 0
  {
    if |s| == 0 then [[]]
    else
      var rest := Split(s[1..], separator);
      if s[0] == separator then [[]] + rest else [[s[0]] + rest[0]] + rest[1..]
  }

  lemma {:induction false} SplitOfOne<T>(part: seq<T>, separator: T)
    requires separator !in part
    ensures Split(part, separator) == [part]
  {
    if |part| > 0 {
      SplitOfOne(part[1..], separator);
      assert [part[0]] + part[1..] == part;
    }
  }

  lemma {:induction false} SplitOfFirst<T>(part: seq<T>, separator: T, rest: seq<T>)
    requires separator !in part
    ensures Split(part + [separator] + rest, separator) == [part] + Split(rest, separator)
  {
    var s := part + [separator] + rest;
    if |part| == 0 {
      assert s[1..] == rest;
    } else {
      assert s[1..] == part[1..] + [separator] + rest;
      SplitOfFirst(part[1..], separator, rest);
      assert [part[0]] + part[1..] == part;
    }
  }

  /** Joining is undone by splitting, for any number of parts without the separator. */
  lemma {:induction false} SplitOfJoin<T>(parts: seq<seq<T>>, separator: T)
    requires |parts| > 0 && forall i :: 0 <= i < |parts| ==> separator !in parts[i]
    ensures Split(Join(parts, separator), separator) == parts
  {
    if |parts| == 1 {
      SplitOfOne(parts[0], separator);
    } else {
      SplitOfJoin(parts[1..], separator);
      SplitOfFirst(parts[0], separator, Join(parts[1..], separator));
      assert [parts[0]] + parts[1..] == parts;
    }
  }

  /** Splitting is undone by joining, and leaves no separator in a part. */
  lemma {:induction false} JoinOfSplit<T>(s: seq<T>, separator: T)
    ensures Join(Split(s, separator), separator) == s
    ensures forall i :: 0 <= i < |Split(s, separator)| ==> separator !in Split(s, separator)[i]
  {
    if |s| > 0 {
      var rest := Split(s[1..], separator);
      JoinOfSplit(s[1..], separator);
      assert s == [s[0]] + s[1..];
      if s[0] == separator {
        assert Split(s, separator)[1..] == rest;
      } else {
        PushFirst(s[0], rest, separator);
      }
    }
  }

  lemma PushFirst<T>(first: T, parts: seq<seq<T>>, separator: T)
    requires |parts| > 0
    ensures Join([[first] + parts[0]] + parts[1..], separator) == [first] + Join(parts, separator)
  {
    var head := [first] + parts[0];
    var pushed := [head] + parts[1..];
    assert pushed[0] == head && pushed[1..] == parts[1..];
    if |parts| > 1 {
      var tail := Join(parts[1..], separator);
      assert Join(pushed, separator) == head + [separator] + tail;
      Associate([first], parts[0], [separator], tail);
    }
  }

  lemma Associate<T>(a: seq<T>, b: seq<T>, c: seq<T>, d: seq<T>)
    ensures a + b + c + d == a + (b + c + d)
  {
  }

  lemma Regroup<T>(a: seq<T>, b: seq<T>, c: seq<T>)
    ensures a + b + c == a + (b + c)
  {
  }

  lemma Halves<T>(a: seq<T>, b: seq<T>)
    ensures (a + b)[..|a|] == a && (a + b)[|a|..] == b
  {
  }

  lemma DropOfConcat<T>(a: seq<T>, b: seq<T>, k: nat)
    requires k <= |a|
    ensures (a + b)[k..] == a[k..] + b && (a + b)[..k] == a[..k]
  {
  }

  lemma Cut<T>(s: seq<T>, k: nat)
    requires k <= |s|
    ensures s == s[..k] + s[k..]
  {
  }
}
