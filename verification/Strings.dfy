/** String operations the feature parser uses, as the Go strings package defines them. */
module Strings {
  import opened Wrappers

  /** The first position of a character, from position i on. */
  function IndexFrom(s: string, c: char, i: nat): Option<nat>
    requires i <= |s|
    ensures var r := IndexFrom(s, c, i); r.Some? ==> i <= r.value < |s|
    decreases |s| - i
  {
    if i == |s| then None
    else if s[i] == c then Some(i)
    else IndexFrom(s, c, i + 1)
  }

  lemma {:induction false} FirstIndex(s: string, c: char, i: nat, n: nat)
    requires i <= n <= |s| && (forall k :: i <= k < n ==> s[k] != c)
    ensures IndexFrom(s, c, i) == if n == |s| then None else IndexFrom(s, c, n)
    decreases n - i
  {
    if i < n {
      FirstIndex(s, c, i + 1, n);
    }
  }

  /** The pieces between separators; a string without one is one piece. */
  function Split(s: string, c: char): seq<string>
    decreases |s|
  {
    match IndexFrom(s, c, 0)
    case None => [s]
    case Some(i) => [s[..i]] + Split(s[i + 1..], c)
  }

  function Join(pieces: seq<string>, c: char): string {
    if pieces == [] then ""
    else if |pieces| == 1 then pieces[0]
    else pieces[0] + [c] + Join(pieces[1..], c)
  }

  /** The text before and after the first separator, and whether there is one. */
  function Cut(s: string, c: char): (string, string, bool) {
    match IndexFrom(s, c, 0)
    case None => (s, "", false)
    case Some(i) => (s[..i], s[i + 1..], true)
  }

  lemma IndexAfter(a: string, c: char, b: string)
    requires c !in a
    ensures IndexFrom(a + [c] + b, c, 0) == Some(|a|)
  {
    var s := a + [c] + b;
    assert forall k :: 0 <= k < |a| ==> s[k] == a[k];
    FirstIndex(s, c, 0, |a|);
  }

  lemma CutAfter(a: string, c: char, b: string)
    requires c !in a
    ensures Cut(a + [c] + b, c) == (a, b, true)
  {
    IndexAfter(a, c, b);
    assert (a + [c] + b)[..|a|] == a && (a + [c] + b)[|a| + 1..] == b;
  }

  lemma {:induction false} IndexMeaning(s: string, c: char, i: nat)
    requires i <= |s|
    ensures var r := IndexFrom(s, c, i);
            if r.Some? then s[r.value] == c && c !in s[i..r.value] else c !in s[i..]
    decreases |s| - i
  {
    if i < |s| && s[i] != c {
      IndexMeaning(s, c, i + 1);
      var r := IndexFrom(s, c, i + 1);
      if r.Some? {
        assert s[i..r.value] == [s[i]] + s[i + 1..r.value];
      } else {
        assert s[i..] == [s[i]] + s[i + 1..];
      }
    }
  }

  lemma CutMeaning(s: string, c: char)
    ensures var (before, after, found) := Cut(s, c);
            c !in before && if found then s == before + [c] + after else s == before && after == ""
  {
    IndexMeaning(s, c, 0);
    var r := IndexFrom(s, c, 0);
    if r.Some? {
      assert s[0..r.value] == s[..r.value];
    } else {
      assert s[0..] == s;
    }
  }

  /** Splitting undoes joining. */
  lemma {:induction false} SplitJoin(pieces: seq<string>, c: char)
    requires pieces != [] && forall p :: p in pieces ==> c !in p
    ensures Split(Join(pieces, c), c) == pieces
  {
    var a := pieces[0];
    assert a in pieces;
    if |pieces| == 1 {
      FirstIndex(a, c, 0, |a|);
    } else {
      var rest := pieces[1..];
      var b := Join(rest, c);
      SplitJoin(rest, c);
      IndexAfter(a, c, b);
      var s := a + [c] + b;
      assert s[..|a|] == a && s[|a| + 1..] == b;
      assert pieces == [a] + rest;
    }
  }

  /** A string starts with a prefix. */
  predicate HasPrefix(s: string, prefix: string) {
    prefix <= s
  }

  function TrimPrefix(s: string, prefix: string): string
    requires HasPrefix(s, prefix)
  {
    s[|prefix|..]
  }

  /** The string without the leading run of a character. */
  function TrimLeft(s: string, c: char): string {
    if s != "" && s[0] == c then TrimLeft(s[1..], c) else s
  }
}
