/** replaceInvalidChars of createNote.js: turns the first line of a prompt into
    a note name, by rewriting the twelve characters the script lists for
    replacement. */
module FileNames {
  import opened Strings

  /** The twelve characters the script rewrites. */
  const Forbidden: set<char> := {':', '*', '\\', '/', '<', '>', '|', '?', '#', '^', '[', ']'}

  /** One pass of the script: each entry rewrites the FIRST occurrence of its
      character, in this order.  `|` appears twice, so one pass turns the
      first `|` into `_` and the next one into `I`. */
  const Substitutions: seq<(char, string)> :=
    [(':', " -"), ('*', "_"), ('\\', "_"), ('/', "_"), ('<', "_"), ('>', "_"), ('|', "_"),
     ('?', "_"), ('#', "_"), ('^', "_"), ('[', "("), (']', ")"), ('|', "I")]

  predicate NoForbidden(s: string)
  {
    forall i :: 0 <= i < |s| ==> s[i] !in Forbidden
  }

  lemma NoForbiddenConcat(a: string, b: string)
    ensures NoForbidden(a + b) <==> NoForbidden(a) && NoForbidden(b)
  {
    if NoForbidden(a + b) {
      assert forall i :: 0 <= i < |a| ==> a[i] == (a + b)[i];
      assert forall i :: 0 <= i < |b| ==> b[i] == (a + b)[|a| + i];
    }
  }

  /** Number of colons; each colon lengthens the name by one, as it becomes " -". */
  function Colons(s: string): nat
  {
    Count(s, {':'})
  }

  function ForbiddenCount(s: string): nat
  {
    Count(s, Forbidden)
  }

  /** Applies the substitutions of `subs` one after the other. */
  function ApplyAll(s: string, subs: seq<(char, string)>): string
    decreases |subs|
  {
    if subs == [] then s else ApplyAll(ReplaceFirst(s, subs[0].0, subs[0].1), subs[1..])
  }

  /** The chained `.replace(...)` calls of one iteration of the loop. */
  function Pass(s: string): string
  {
    ApplyAll(s, Substitutions)
  }

  /** A substitution table whose patterns are forbidden and whose replacements
      are free of forbidden characters and weigh (length plus colons) as much
      as the character they replace. */
  predicate WellBehaved(subs: seq<(char, string)>)
  {
    forall k :: 0 <= k < |subs| ==>
      subs[k].0 in Forbidden && ForbiddenCount(subs[k].1) == 0 &&
      |subs[k].1| + Colons(subs[k].1) == 1 + Colons([subs[k].0])
  }

  lemma SubstitutionsWellBehaved()
    ensures WellBehaved(Substitutions)
  {
    forall k | 0 <= k < |Substitutions|
      ensures ForbiddenCount(Substitutions[k].1) == 0
      ensures |Substitutions[k].1| + Colons(Substitutions[k].1) == 1 + Colons([Substitutions[k].0])
    {
      var (c, rep) := Substitutions[k];
      CountSingle(c, {':'});
      if k == 0 {
        assert rep == [' '] + ['-'];
        CountAppend([' '], ['-'], Forbidden);
        CountAppend([' '], ['-'], {':'});
        CountSingle(' ', Forbidden);
        CountSingle('-', Forbidden);
        CountSingle(' ', {':'});
        CountSingle('-', {':'});
      } else {
        assert rep == [rep[0]];
        CountSingle(rep[0], Forbidden);
        CountSingle(rep[0], {':'});
      }
    }
  }

  /** A pass never adds forbidden characters, removes one for every
      substitution that fires, and keeps length plus colons constant. */
  lemma {:induction false} ApplyAllShrinks(s: string, subs: seq<(char, string)>)
    requires WellBehaved(subs)
    ensures ForbiddenCount(ApplyAll(s, subs)) <= ForbiddenCount(s)
    ensures (exists k :: 0 <= k < |subs| && subs[k].0 in s) ==> ForbiddenCount(ApplyAll(s, subs)) < ForbiddenCount(s)
    ensures (forall k :: 0 <= k < |subs| ==> subs[k].0 !in s) ==> ApplyAll(s, subs) == s
    ensures |ApplyAll(s, subs)| + Colons(ApplyAll(s, subs)) == |s| + Colons(s)
    decreases |subs|
  {
    if subs != [] {
      var (c, rep) := subs[0];
      var s1 := ReplaceFirst(s, c, rep);
      CountReplaceFirst(s, c, rep, Forbidden);
      CountReplaceFirst(s, c, rep, {':'});
      assert |s1| + Colons(s1) == |s| + Colons(s) by {
        if c in s {
          var i := IndexOf(s, c);
          assert |s1| == |s| - 1 + |rep|;
        }
      }
      assert WellBehaved(subs[1..]) by {
        forall k | 0 <= k < |subs[1..]| ensures subs[1..][k] == subs[k + 1] { }
      }
      ApplyAllShrinks(s1, subs[1..]);
      if exists k :: 0 <= k < |subs| && subs[k].0 in s {
        var k :| 0 <= k < |subs| && subs[k].0 in s;
        if c !in s {
          assert subs[1..][k - 1].0 in s1;
        }
      }
      if forall k :: 0 <= k < |subs| ==> subs[k].0 !in s {
        assert subs[0].0 !in s;
        assert forall k :: 0 <= k < |subs[1..]| ==> subs[1..][k] == subs[k + 1];
      }
    }
  }

  /** Every forbidden character has an entry in the table. */
  lemma SubstitutionsCover(s: string)
    requires !NoForbidden(s)
    ensures exists k :: 0 <= k < |Substitutions| && Substitutions[k].0 in s
  {
    var i :| 0 <= i < |s| && s[i] in Forbidden;
    assert s[i] in s;
    assert Substitutions[0].0 == ':' && Substitutions[1].0 == '*' && Substitutions[2].0 == '\\' &&
      Substitutions[3].0 == '/' && Substitutions[4].0 == '<' && Substitutions[5].0 == '>' &&
      Substitutions[6].0 == '|' && Substitutions[7].0 == '?' && Substitutions[8].0 == '#' &&
      Substitutions[9].0 == '^' && Substitutions[10].0 == '[' && Substitutions[11].0 == ']';
  }

  /** The loop's exit test `s === prev` succeeds exactly when nothing is left to
      rewrite, and a pass that changes the name strictly lowers the number of
      forbidden characters, which is why the loop ends. */
  lemma PassProgress(s: string)
    ensures Pass(s) == s <==> NoForbidden(s)
    ensures Pass(s) != s ==> ForbiddenCount(Pass(s)) < ForbiddenCount(s)
    ensures |Pass(s)| + Colons(Pass(s)) == |s| + Colons(s)
  {
    SubstitutionsWellBehaved();
    ApplyAllShrinks(s, Substitutions);
    if NoForbidden(s) {
      assert forall k :: 0 <= k < |Substitutions| ==> Substitutions[k].0 !in s;
    } else {
      SubstitutionsCover(s);
    }
  }

  lemma {:induction false} ApplyAllUntouched(s: string, subs: seq<(char, string)>)
    requires forall k :: 0 <= k < |subs| ==> subs[k].0 !in s
    ensures ApplyAll(s, subs) == s
    decreases |subs|
  {
    if subs != [] {
      assert forall k :: 0 <= k < |subs[1..]| ==> subs[1..][k] == subs[k + 1];
      ApplyAllUntouched(s, subs[1..]);
    }
  }

  lemma {:induction false} ApplyAllAppend(s: string, x: seq<(char, string)>, y: seq<(char, string)>)
    ensures ApplyAll(s, x + y) == ApplyAll(ApplyAll(s, x), y)
    decreases |x|
  {
    if x == [] {
      assert x + y == y;
    } else {
      assert (x + y)[1..] == x[1..] + y;
      ApplyAllAppend(ReplaceFirst(s, x[0].0, x[0].1), x[1..], y);
    }
  }

  /** The entries before the first `|`, and those between the two `|` entries. */
  lemma SubstitutionsAroundPipes()
    ensures Substitutions == (Substitutions[..6] + [('|', "_")]) + (Substitutions[7..12] + [('|', "I")])
    ensures forall k :: 0 <= k < 6 ==> Substitutions[..6][k].0 in Forbidden - {'|'}
    ensures forall k :: 0 <= k < 5 ==> Substitutions[7..12][k].0 in Forbidden - {'|'}
  {
  }

  /** A string whose only forbidden characters are `|` is left alone by every other entry. */
  lemma OthersUntouched(s: string, subs: seq<(char, string)>)
    requires forall i :: 0 <= i < |s| ==> s[i] in Forbidden ==> s[i] == '|'
    requires forall k :: 0 <= k < |subs| ==> subs[k].0 in Forbidden - {'|'}
    ensures ApplyAll(s, subs) == s
  {
    ApplyAllUntouched(s, subs);
  }

  lemma FirstPipe(a: string, b: string)
    requires NoForbidden(a)
    requires forall i :: 0 <= i < |b| ==> b[i] in Forbidden ==> b[i] == '|'
    ensures ApplyAll(a + "|" + b, Substitutions[..6] + [('|', "_")]) == a + "_" + b
  {
    var s0 := a + "|" + b;
    assert ApplyAll(s0, Substitutions[..6]) == s0 by {
      forall i | 0 <= i < |s0| && s0[i] in Forbidden ensures s0[i] == '|' {
        if i > |a| {
          assert s0[i] == b[i - |a| - 1];
        }
      }
      SubstitutionsAroundPipes();
      OthersUntouched(s0, Substitutions[..6]);
    }
    assert ApplyAll(s0, [('|', "_")]) == a + "_" + b by {
      ApplyOne(s0, '|', "_");
      ReplaceFirstAfter(a, '|', b, "_");
    }
    ApplyAllAppend(s0, Substitutions[..6], [('|', "_")]);
  }

  lemma SecondPipe(a: string, b: string)
    requires NoForbidden(a) && NoForbidden(b)
    ensures ApplyAll(a + "|" + b, Substitutions[7..12] + [('|', "I")]) == a + "I" + b
  {
    var s0 := a + "|" + b;
    assert ApplyAll(s0, Substitutions[7..12]) == s0 by {
      SubstitutionsAroundPipes();
      OthersUntouched(s0, Substitutions[7..12]);
    }
    assert ApplyAll(s0, [('|', "I")]) == a + "I" + b by {
      ApplyOne(s0, '|', "I");
      ReplaceFirstAfter(a, '|', b, "I");
    }
    ApplyAllAppend(s0, Substitutions[7..12], [('|', "I")]);
  }

  lemma ApplyOne(s: string, c: char, rep: string)
    ensures ApplyAll(s, [(c, rep)]) == ReplaceFirst(s, c, rep)
  {
    assert [(c, rep)][1..] == [];
  }

  /** One pass turns the first `|` into `_` and the second into `I`, which is
      why the table lists `|` twice. */
  lemma PassOnTwoPipes(a: string, b: string, d: string)
    requires NoForbidden(a) && NoForbidden(b) && NoForbidden(d)
    ensures Pass(a + "|" + b + "|" + d) == a + "_" + b + "I" + d
  {
    var s0 := a + "|" + b + "|" + d;
    assert s0 == a + "|" + (b + "|" + d);
    assert ApplyAll(s0, Substitutions[..6] + [('|', "_")]) == a + "_" + b + "|" + d by {
      FirstPipe(a, b + "|" + d);
    }
    assert ApplyAll(a + "_" + b + "|" + d, Substitutions[7..12] + [('|', "I")]) == a + "_" + b + "I" + d by {
      assert NoForbidden(a + "_" + b);
      SecondPipe(a + "_" + b, d);
    }
    SubstitutionsAroundPipes();
    ApplyAllAppend(s0, Substitutions[..6] + [('|', "_")], Substitutions[7..12] + [('|', "I")]);
  }

  /** Length plus colons: what every table entry keeps. */
  function Weight(s: string): nat
  {
    |s| + Colons(s)
  }

  /** `t` came from `s` by entries that neither match nor bring in `|`. */
  predicate SameShape(s: string, t: string)
  {
    Weight(t) == Weight(s) && Count(t, {'|'}) == Count(s, {'|'})
  }

  /** A table that leaves `p`, `q` and `|` where they are. */
  predicate KeepsSeparators(subs: seq<(char, string)>, p: char, q: char)
  {
    forall k :: 0 <= k < |subs| ==>
      subs[k].0 != p && subs[k].0 != q && subs[k].0 != '|' && '|' !in subs[k].1
  }

  /** One entry that is not `|` keeps the weight and the pipes of a segment. */
  lemma ReplaceFirstSameShape(s: string, c: char, rep: string)
    requires c != '|' && '|' !in rep && |rep| + Colons(rep) == 1 + Colons([c])
    ensures SameShape(s, ReplaceFirst(s, c, rep))
  {
    CountReplaceFirst(s, c, rep, {':'});
    CountReplaceFirst(s, c, rep, {'|'});
    CountSingle(c, {'|'});
    CountZero(rep, {'|'});
    if c in s {
      var i := IndexOf(s, c);
      assert |ReplaceFirst(s, c, rep)| == |s| - 1 + |rep|;
    }
  }

  /** An entry whose character is in `x` rewrites there, left of `p`. */
  lemma ReplaceFirstLeftOfSeparator(x: string, p: char, r: string, c: char, rep: string)
    requires c in x
    ensures ReplaceFirst(x + [p] + r, c, rep) == ReplaceFirst(x, c, rep) + [p] + r
  {
    var pr := [p] + r;
    assert x + [p] + r == x + pr;
    ReplaceFirstInLeft(x, pr, c, rep);
    assert ReplaceFirst(x, c, rep) + pr == ReplaceFirst(x, c, rep) + [p] + r;
  }

  /** An entry whose character is neither in `x` nor `p` rewrites right of `p`. */
  lemma ReplaceFirstRightOfSeparator(x: string, p: char, r: string, c: char, rep: string)
    requires c !in x && c != p
    ensures ReplaceFirst(x + [p] + r, c, rep) == x + [p] + ReplaceFirst(r, c, rep)
  {
    var xp := x + [p];
    assert c !in xp;
    ReplaceFirstConcat(xp, r, c, rep);
  }

  /** One entry on `x p y q z` rewrites inside one of the three segments. */
  lemma ReplaceFirstThreeSegments(x: string, p: char, y: string, q: char, z: string, c: char, rep: string)
      returns (x': string, y': string, z': string)
    requires c != p && c != q && c != '|' && '|' !in rep && |rep| + Colons(rep) == 1 + Colons([c])
    ensures ReplaceFirst(x + [p] + y + [q] + z, c, rep) == x' + [p] + y' + [q] + z'
    ensures SameShape(x, x') && SameShape(y, y') && SameShape(z, z')
  {
    var r := y + [q] + z;
    ThreeSegments(x, p, y, q, z);
    if c in x {
      ReplaceFirstLeftOfSeparator(x, p, r, c, rep);
      x', y', z' := ReplaceFirst(x, c, rep), y, z;
      ReplaceFirstSameShape(x, c, rep);
      ThreeSegments(x', p, y, q, z);
    } else {
      ReplaceFirstRightOfSeparator(x, p, r, c, rep);
      if c in y {
        ReplaceFirstLeftOfSeparator(y, q, z, c, rep);
        x', y', z' := x, ReplaceFirst(y, c, rep), z;
        ReplaceFirstSameShape(y, c, rep);
      } else {
        ReplaceFirstRightOfSeparator(y, q, z, c, rep);
        x', y', z' := x, y, ReplaceFirst(z, c, rep);
        ReplaceFirstSameShape(z, c, rep);
      }
      ThreeSegments(x, p, y', q, z');
    }
  }

  lemma ThreeSegments(x: string, p: char, y: string, q: char, z: string)
    ensures x + [p] + (y + [q] + z) == x + [p] + y + [q] + z
  {
  }

  /** A table that leaves `p`, `q` and `|` alone rewrites `x p y q z`
      segment by segment. */
  lemma {:induction false} ApplyAllThreeSegments(x: string, p: char, y: string, q: char, z: string,
                                                 subs: seq<(char, string)>)
      returns (x': string, y': string, z': string)
    requires WellBehaved(subs) && KeepsSeparators(subs, p, q)
    ensures ApplyAll(x + [p] + y + [q] + z, subs) == x' + [p] + y' + [q] + z'
    ensures SameShape(x, x') && SameShape(y, y') && SameShape(z, z')
    decreases |subs|
  {
    if subs == [] {
      x', y', z' := x, y, z;
    } else {
      var x1, y1, z1 := ReplaceFirstThreeSegments(x, p, y, q, z, subs[0].0, subs[0].1);
      assert WellBehaved(subs[1..]) && KeepsSeparators(subs[1..], p, q) by {
        assert forall k :: 0 <= k < |subs[1..]| ==> subs[1..][k] == subs[k + 1];
      }
      x', y', z' := ApplyAllThreeSegments(x1, p, y1, q, z1, subs[1..]);
    }
  }

  /** The entries around the two `|` entries neither match nor bring in `|`,
      `_` or `I`. */
  lemma OtherEntriesKeepSeparators()
    ensures WellBehaved(Substitutions[..6]) && KeepsSeparators(Substitutions[..6], '|', '|')
    ensures WellBehaved(Substitutions[7..12]) && KeepsSeparators(Substitutions[7..12], '_', '|')
  {
    SubstitutionsWellBehaved();
    assert forall k :: 0 <= k < 6 ==> Substitutions[..6][k] == Substitutions[k];
    assert forall k :: 0 <= k < 5 ==> Substitutions[7..12][k] == Substitutions[k + 7];
  }

  /** The entries up to the first `|` entry, on any name with two `|`. */
  lemma FirstPipeOfAnyName(a: string, b: string, d: string) returns (a': string, b': string, d': string)
    requires '|' !in a && '|' !in b
    ensures ApplyAll(a + ['|'] + b + ['|'] + d, Substitutions[..6] + [('|', "_")]) == a' + ['_'] + b' + ['|'] + d'
    ensures '|' !in a' && '|' !in b'
    ensures SameShape(a, a') && SameShape(b, b') && SameShape(d, d')
  {
    OtherEntriesKeepSeparators();
    a', b', d' := ApplyAllThreeSegments(a, '|', b, '|', d, Substitutions[..6]);
    CountZero(a, {'|'});
    CountZero(b, {'|'});
    CountZero(a', {'|'});
    CountZero(b', {'|'});
    var s1 := a' + ['|'] + b' + ['|'] + d';
    assert ApplyAll(s1, [('|', "_")]) == a' + ['_'] + b' + ['|'] + d' by {
      ApplyOne(s1, '|', "_");
      ThreeSegments(a', '|', b', '|', d');
      ReplaceFirstAfter(a', '|', b' + ['|'] + d', "_");
      ThreeSegments(a', '_', b', '|', d');
    }
    ApplyAllAppend(a + ['|'] + b + ['|'] + d, Substitutions[..6], [('|', "_")]);
  }

  /** The entries after the first `|` entry, on `a _ b | d` with `a` and `b`
      free of `|`. */
  lemma SecondPipeOfAnyName(a: string, b: string, d: string) returns (a': string, b': string, d': string)
    requires '|' !in a && '|' !in b
    ensures ApplyAll(a + ['_'] + b + ['|'] + d, Substitutions[7..12] + [('|', "I")]) == a' + "_" + b' + "I" + d'
    ensures '|' !in a' && '|' !in b'
    ensures SameShape(a, a') && SameShape(b, b') && SameShape(d, d')
  {
    OtherEntriesKeepSeparators();
    a', b', d' := ApplyAllThreeSegments(a, '_', b, '|', d, Substitutions[7..12]);
    CountZero(a, {'|'});
    CountZero(b, {'|'});
    CountZero(a', {'|'});
    CountZero(b', {'|'});
    var t := a' + ['_'] + b' + ['|'] + d';
    assert ApplyAll(t, [('|', "I")]) == a' + "_" + b' + "I" + d' by {
      ApplyOne(t, '|', "I");
      var ab := a' + ['_'] + b';
      assert '|' !in ab;
      ReplaceFirstAfter(ab, '|', d', "I");
    }
    ApplyAllAppend(a + ['_'] + b + ['|'] + d, Substitutions[7..12], [('|', "I")]);
  }

  /** For any name, one pass turns the first `|` into `_` and the second into
      `I`: the other entries only rewrite inside the three parts around them,
      keeping each part's weight and its number of `|`. */
  lemma PassOnPipes(a: string, b: string, d: string)
    requires '|' !in a && '|' !in b
    ensures exists a', b', d' ::
      && Pass(a + "|" + b + "|" + d) == a' + "_" + b' + "I" + d'
      && '|' !in a' && '|' !in b'
      && SameShape(a, a') && SameShape(b, b') && SameShape(d, d')
  {
    var s0 := a + "|" + b + "|" + d;
    assert s0 == a + ['|'] + b + ['|'] + d;
    var a1, b1, d1 := FirstPipeOfAnyName(a, b, d);
    var a2, b2, d2 := SecondPipeOfAnyName(a1, b1, d1);
    SubstitutionsAroundPipes();
    ApplyAllAppend(s0, Substitutions[..6] + [('|', "_")], Substitutions[7..12] + [('|', "I")]);
    assert Pass(s0) == a2 + "_" + b2 + "I" + d2;
  }

  lemma CleanUntouched(s: string, subs: seq<(char, string)>)
    requires NoForbidden(s)
    requires forall k :: 0 <= k < |subs| ==> subs[k].0 in Forbidden
    ensures ApplyAll(s, subs) == s
  {
    ApplyAllUntouched(s, subs);
  }

  lemma PassOnColon(a: string, b: string)
    requires NoForbidden(a) && NoForbidden(b)
    ensures Pass(a + ":" + b) == a + " -" + b
  {
    var s0, s1 := a + ":" + b, a + " -" + b;
    var rest := Substitutions[1..];
    assert ApplyAll(s0, [(':', " -")]) == s1 by {
      ApplyOne(s0, ':', " -");
      ReplaceFirstAfter(a, ':', b, " -");
    }
    assert ApplyAll(s1, rest) == s1 by {
      assert NoForbidden(s1);
      SubstitutionsWellBehaved();
      assert forall k :: 0 <= k < |rest| ==> rest[k] == Substitutions[k + 1];
      CleanUntouched(s1, rest);
    }
    assert Substitutions == [(':', " -")] + rest;
    ApplyAllAppend(s0, [(':', " -")], rest);
  }

  /** Each colon becomes " -" and nothing else changes in a clean name. */
  lemma ColonBecomesDash(a: string, b: string)
    requires NoForbidden(a) && NoForbidden(b)
    ensures SanitizedName(a + ":" + b) == a + " -" + b
  {
    var s0, s1 := a + ":" + b, a + " -" + b;
    assert Fixpoint(s0) == s1 by {
      PassOnColon(a, b);
      DashIsValid();
      NoForbiddenConcat(a, " -");
      NoForbiddenConcat(a + " -", b);
      FixpointStep(s0);
      FixpointStep(s1);
    }
    SanitizedOfFixpoint(s0);
  }

  /** One unfolding of the loop: a pass that changes nothing ends it. */
  lemma FixpointStep(s: string)
    ensures NoForbidden(s) ==> Fixpoint(s) == s
    ensures !NoForbidden(s) ==> Fixpoint(s) == Fixpoint(Pass(s))
  {
    PassProgress(s);
  }

  lemma SanitizedOfFixpoint(s: string)
    ensures |Fixpoint(s)| >= 1 ==> SanitizedName(s) == Fixpoint(s)
    ensures |Fixpoint(s)| == 0 ==> SanitizedName(s) == "-"
  {
  }

  /** The fixpoint the loop reaches: passes repeated until one changes nothing. */
  function Fixpoint(s: string): string
    decreases ForbiddenCount(s)
  {
    var p := Pass(s);
    if p == s then s else PassProgress(s); Fixpoint(p)
  }

  /** The value replaceInvalidChars returns for `fileName`. */
  function SanitizedName(fileName: string): string
  {
    var s := Fixpoint(fileName);
    if |s| == 0 then "-" else s
  }

  /** The fixpoint holds no forbidden character and is as long as the input
      plus one character per colon (each `:` becomes " -"). */
  lemma {:induction false} FixpointProperties(s: string)
    ensures NoForbidden(Fixpoint(s))
    ensures |Fixpoint(s)| == |s| + Colons(s)
    decreases ForbiddenCount(s)
  {
    PassProgress(s);
    var p := Pass(s);
    if p == s {
      CountZero(s, {':'});
    } else {
      FixpointProperties(p);
    }
  }

  /** replaceInvalidChars as the script runs it: passes until a pass changes
      nothing, then "-" for an empty result. */
  method ReplaceInvalidChars(fileName: string) returns (r: string)
    ensures r == SanitizedName(fileName)
    ensures NoForbidden(r) && |r| >= 1
  {
    var s := fileName;
    while true
      invariant Fixpoint(s) == Fixpoint(fileName)
      decreases ForbiddenCount(s)
    {
      var prev := s;
      s := Pass(s);
      if s == prev {
        break;
      }
      PassProgress(prev);
    }
    FixpointProperties(fileName);
    if |s| == 0 {
      DashIsValid();
      return "-";
    }
    return s;
  }

  /** The replacement for an empty name is itself a valid name. */
  lemma DashIsValid()
    ensures NoForbidden("-") && NoForbidden(" -")
    ensures '\n' !in "-"
  {
  }

  /** The name never holds a forbidden character and is never empty. */
  lemma SanitizedNameIsValid(fileName: string)
    ensures NoForbidden(SanitizedName(fileName))
    ensures |SanitizedName(fileName)| >= 1
    ensures fileName == [] ==> SanitizedName(fileName) == "-"
  {
    FixpointProperties(fileName);
    if |Fixpoint(fileName)| == 0 {
      assert SanitizedName(fileName) == "-";
      DashIsValid();
    } else {
      assert SanitizedName(fileName) == Fixpoint(fileName);
    }
  }

  /** A non-empty input grows by exactly one character per colon. */
  lemma SanitizedNameLength(fileName: string)
    requires |fileName| >= 1
    ensures |SanitizedName(fileName)| == |fileName| + Colons(fileName)
  {
    FixpointProperties(fileName);
  }

  /** A name is returned unchanged exactly when it is non-empty and already
      free of forbidden characters. */
  lemma SanitizedNameUnchanged(fileName: string)
    ensures SanitizedName(fileName) == fileName <==> |fileName| >= 1 && NoForbidden(fileName)
  {
    PassProgress(fileName);
    FixpointProperties(fileName);
  }

  /** Sanitizing twice is sanitizing once. */
  lemma SanitizedNameIdempotent(fileName: string)
    ensures SanitizedName(SanitizedName(fileName)) == SanitizedName(fileName)
  {
    SanitizedNameIsValid(fileName);
    SanitizedNameUnchanged(SanitizedName(fileName));
  }

  /** A character that is neither forbidden nor produced by a substitution
      (a line break, for one) is neither added nor removed. */
  lemma {:induction false} FixpointKeepsAbsent(s: string, d: char)
    requires d !in Forbidden && d !in " -_()I"
    requires d !in s
    ensures d !in Fixpoint(s)
    decreases ForbiddenCount(s)
  {
    PassKeepsAbsent(s, Substitutions, d);
    var p := Pass(s);
    if p != s {
      PassProgress(s);
      FixpointKeepsAbsent(p, d);
    }
  }

  lemma {:induction false} PassKeepsAbsent(s: string, subs: seq<(char, string)>, d: char)
    requires forall k :: 0 <= k < |subs| ==> d !in subs[k].1
    requires d !in s
    ensures d !in ApplyAll(s, subs)
    decreases |subs|
  {
    if subs != [] {
      ReplaceFirstKeepsAbsent(s, subs[0].0, subs[0].1, d);
      assert forall k :: 0 <= k < |subs[1..]| ==> subs[1..][k] == subs[k + 1];
      PassKeepsAbsent(ReplaceFirst(s, subs[0].0, subs[0].1), subs[1..], d);
    }
  }
}
