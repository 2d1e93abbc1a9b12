/** String operations of JavaScript's String.prototype that the Templater
    scripts rely on, restricted to the one-character patterns they use. */
module Strings {

  datatype Option<+T> = None | Some(value: T)

  /** An error value carries the message of the exception JavaScript would throw. */
  datatype Result<+T> = Ok(value: T) | Err(message: string)

  /** `s.indexOf(c)`: the first position of `c` in `s`, or -1. */
  function IndexOf(s: string, c: char): (r: int)
    ensures -1 <= r < |s|
    ensures r == -1 <==> c !in s
    ensures r >= 0 ==> s[r] == c && c !in s[..r]
  {
    if |s| == 0 then -1
    else if s[0] == c then 0
    else
      var i := IndexOf(s[1..], c);
      assert s[1..][..if i < 0 then 0 else i] == s[1..if i < 0 then 1 else i + 1];
      if i < 0 then -1 else i + 1
  }

  /** `s.lastIndexOf(c)`: the last position of `c` in `s`, or -1. */
  function LastIndexOf(s: string, c: char): (r: int)
    ensures -1 <= r < |s|
    ensures r == -1 <==> c !in s
    ensures r >= 0 ==> s[r] == c && c !in s[r + 1..]
  {
    if |s| == 0 then -1
    else if s[|s| - 1] == c then |s| - 1
    else
      var r := LastIndexOf(s[..|s| - 1], c);
      assert s == s[..|s| - 1] + [s[|s| - 1]];
      r
  }

  /** `s.replace(c, rep)` with a string pattern: only the first occurrence is replaced. */
  function ReplaceFirst(s: string, c: char, rep: string): string
  {
    var i := IndexOf(s, c);
    if i < 0 then s else s[..i] + rep + s[i + 1..]
  }

  /** The first occurrence sits right after a prefix that lacks the pattern. */
  lemma IndexOfAfter(a: string, c: char, b: string)
    requires c !in a
    ensures IndexOf(a + [c] + b, c) == |a|
  {
    assert (a + [c] + b)[|a|] == c;
    assert (a + [c] + b)[..|a|] == a;
  }

  /** Replacing the first `c` of a string whose prefix `a` lacks `c`. */
  lemma ReplaceFirstAfter(a: string, c: char, b: string, rep: string)
    requires c !in a
    ensures ReplaceFirst(a + [c] + b, c, rep) == a + rep + b
  {
    var s := a + [c] + b;
    IndexOfAfter(a, c, b);
    assert s[..|a|] == a && s[|a| + 1..] == b;
  }

  /** The first occurrence in `u + v` is in `u` when `u` holds one, and
      otherwise in `v`. */
  lemma ReplaceFirstConcat(u: string, v: string, c: char, rep: string)
    ensures ReplaceFirst(u + v, c, rep) ==
            if c in u then ReplaceFirst(u, c, rep) + v else u + ReplaceFirst(v, c, rep)
  {
    if c in u {
      ReplaceFirstInLeft(u, v, c, rep);
    } else if c in v {
      ReplaceFirstInRight(u, v, c, rep);
    } else {
      assert c !in u + v;
    }
  }

  lemma ReplaceFirstInLeft(u: string, v: string, c: char, rep: string)
    requires c in u
    ensures ReplaceFirst(u + v, c, rep) == ReplaceFirst(u, c, rep) + v
  {
    var i := IndexOf(u, c);
    var x, y := u[..i], u[i + 1..];
    assert u == x + [c] + y;
    assert u + v == x + [c] + (y + v);
    ReplaceFirstAfter(x, c, y + v, rep);
    ReplaceFirstAfter(x, c, y, rep);
    assert x + rep + (y + v) == x + rep + y + v;
  }

  lemma ReplaceFirstInRight(u: string, v: string, c: char, rep: string)
    requires c !in u && c in v
    ensures ReplaceFirst(u + v, c, rep) == u + ReplaceFirst(v, c, rep)
  {
    var j := IndexOf(v, c);
    var x, y := v[..j], v[j + 1..];
    assert v == x + [c] + y;
    assert c !in u + x by {
      assert forall k :: 0 <= k < |u + x| ==> (u + x)[k] == if k < |u| then u[k] else x[k - |u|];
    }
    calc {
      ReplaceFirst(u + v, c, rep);
      { assert u + v == (u + x) + [c] + y; }
      ReplaceFirst((u + x) + [c] + y, c, rep);
      { ReplaceFirstAfter(u + x, c, y, rep); }
      (u + x) + rep + y;
      u + (x + rep + y);
      { ReplaceFirstAfter(x, c, y, rep); }
      u + ReplaceFirst(v, c, rep);
    }
  }

  /** `s.replace(/c/g, d)`: every occurrence of `c` becomes `d`. */
  function ReplaceAll(s: string, c: char, d: char): (r: string)
    ensures |r| == |s|
    ensures c != d ==> c !in r
  {
    seq(|s|, i requires 0 <= i < |s| => if s[i] == c then d else s[i])
  }

  /** `s.startsWith(p)`. */
  predicate StartsWith(s: string, p: string)
  {
    |p| <= |s| && s[..|p|] == p
  }

  /** How many characters of `s` belong to `cs`. */
  function Count(s: string, cs: set<char>): nat
  {
    if s == [] then 0 else (if s[0] in cs then 1 else 0) + Count(s[1..], cs)
  }

  lemma CountSingle(c: char, cs: set<char>)
    ensures Count([c], cs) == if c in cs then 1 else 0
  {
    assert [c][1..] == [];
  }

  lemma {:induction false} CountAppend(a: string, b: string, cs: set<char>)
    ensures Count(a + b, cs) == Count(a, cs) + Count(b, cs)
  {
    if a == [] {
      assert a + b == b;
    } else {
      assert (a + b)[1..] == a[1..] + b;
      CountAppend(a[1..], b, cs);
    }
  }

  lemma {:induction false} CountZero(s: string, cs: set<char>)
    ensures Count(s, cs) == 0 <==> forall i :: 0 <= i < |s| ==> s[i] !in cs
  {
    if s != [] {
      CountZero(s[1..], cs);
      assert forall i :: 1 <= i < |s| ==> s[i] == s[1..][i - 1];
    }
  }

  /** Replacing the first `c` by `rep` keeps a measure that adds up over
      concatenation, when `rep` weighs as much as `c` does. */
  lemma CountReplaceFirst(s: string, c: char, rep: string, cs: set<char>)
    ensures c in s ==> Count(ReplaceFirst(s, c, rep), cs) + Count([c], cs) == Count(s, cs) + Count(rep, cs)
    ensures c !in s ==> ReplaceFirst(s, c, rep) == s
  {
    var i := IndexOf(s, c);
    if i >= 0 {
      assert s == s[..i] + [c] + s[i + 1..];
      CountAppend(s[..i] + [c], s[i + 1..], cs);
      CountAppend(s[..i], [c], cs);
      CountAppend(s[..i] + rep, s[i + 1..], cs);
      CountAppend(s[..i], rep, cs);
    }
  }

  /** Replacing the first `c` by `rep` adds no character that neither `s` nor `rep` held. */
  lemma ReplaceFirstKeepsAbsent(s: string, c: char, rep: string, d: char)
    requires d !in s && d !in rep
    ensures d !in ReplaceFirst(s, c, rep)
  {
    var i := IndexOf(s, c);
    if i >= 0 {
      assert s == s[..i] + [c] + s[i + 1..];
    }
  }
}
