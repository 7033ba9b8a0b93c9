/** The fragment of .NET regular expressions the core uses: a literal lead
    followed by greedy `[\d\D]+` groups separated by literal parts, as in
    `lead(?<G0>[\d\D]+)sep0(?<G1>[\d\D]+)sep1 ... (?<Gn>[\d\D]+)`.
    A literal position is either an exact character or an unescaped `.`,
    which in .NET matches one UTF-16 code unit other than a newline.
    Strings here are sequences of characters, and a character outside the
    Basic Multilingual Plane is two code units in .NET; where the `.` is
    followed by an exact character, as in every pattern of this model, the
    `.` cannot take half of such a character, so it matches exactly the
    characters of the Basic Multilingual Plane other than a newline. The
    groups and exact characters are unaffected: every exact character used
    lies in the Basic Multilingual Plane, so matches begin and end on
    character boundaries.

    `Regex.Match` reports the match with the leftmost start; among the
    matches at that start, backtracking tries the first group longest
    first, then the second, and so on, so the reported groups are the
    lexicographically greediest decomposition. The last group, having
    nothing after it, runs to the end of the input. */
module GreedyRegex {
  import opened Wrappers
  import opened Strings

  /** One position of a literal part: a given character, or the `.`
      wildcard. */
  datatype Atom = Exact(c: char) | Wildcard

  /** A literal part of a pattern. */
  type Lit = seq<Atom>

  /** A pattern `lead (.+) seps[0] (.+) ... seps[n-1] (.+)`. */
  datatype Regex = Regex(lead: Lit, seps: seq<Lit>)

  /** A successful match: where it starts and the captured groups. */
  datatype Match = Match(start: nat, groups: seq<string>)

  /** The literal part spelling `t` exactly. */
  function Literal(t: string): (p: Lit)
    ensures |p| == |t|
    ensures forall k :: 0 <= k < |t| ==> p[k] == Exact(t[k])
  {
    seq(|t|, k requires 0 <= k < |t| => Exact(t[k]))
  }

  predicate AtomMatches(a: Atom, c: char) {
    match a
    case Exact(d) => c == d
    case Wildcard => c != '\n' && CodeUnits(c) == 1
  }

  /** The literal part `p` matches `s` at index `i`. */
  predicate MatchesAt(s: string, p: Lit, i: nat) {
    i + |p| <= |s| && forall k :: 0 <= k < |p| ==> AtomMatches(p[k], s[i + k])
  }

  /** For an exact literal, matching is the substring occurring there. */
  lemma LiteralMatchesAt(s: string, t: string, i: nat)
    ensures MatchesAt(s, Literal(t), i) <==> OccursAt(s, t, i)
  {
    if i + |t| <= |s| {
      if MatchesAt(s, Literal(t), i) {
        assert forall k :: 0 <= k < |t| ==> s[i..i + |t|][k] == s[i + k] == t[k];
      }
      if OccursAt(s, t, i) {
        forall k | 0 <= k < |t| ensures AtomMatches(Literal(t)[k], s[i + k]) {
          assert s[i + k] == s[i..i + |t|][k];
        }
      }
    }
  }

  /* ---------------------------------------------------------------- */
  /* Decompositions                                                    */
  /* ---------------------------------------------------------------- */

  /** `s` reads `gs[0] seps[0] gs[1] ... seps[n-1] gs[n]` with every group
      non-empty: one way the groups of the pattern can cover `s`. */
  predicate IsDecomp(s: string, seps: seq<Lit>, gs: seq<string>)
    decreases |seps|
  {
    && |gs| == |seps| + 1
    && if |seps| == 0 then gs[0] == s && |s| > 0
       else
         var n := |gs[0]|;
         && 0 < n && n + |seps[0]| <= |s| && s[..n] == gs[0]
         && MatchesAt(s, seps[0], n)
         && IsDecomp(s[n + |seps[0]|..], seps[1..], gs[1..])
  }

  /** Comparing group lengths left to right, the first difference favours
      `gs` over `hs`: the order in which backtracking tries the groups. */
  predicate AtLeastAsGreedy(gs: seq<string>, hs: seq<string>)
    decreases |gs|
  {
    && |gs| == |hs|
    && (|gs| == 0 || |hs[0]| < |gs[0]|
        || (|hs[0]| == |gs[0]| && AtLeastAsGreedy(gs[1..], hs[1..])))
  }

  /** The groups backtracking settles on for `(.+) seps[0] ... (.+)`
      covering all of `s`, if any. */
  function Greedy(s: string, seps: seq<Lit>): (r: Option<seq<string>>)
    ensures r.Some? ==> IsDecomp(s, seps, r.value)
    decreases |seps|, |s| + 1
  {
    if |seps| == 0 then (if |s| > 0 then Some([s]) else None)
    else Search(s, seps, |s|)
  }

  /** Tries the first group at lengths `k`, `k - 1`, ..., 1 and takes the
      first length at which the rest of the pattern matches. */
  function Search(s: string, seps: seq<Lit>, k: nat): (r: Option<seq<string>>)
    requires |seps| > 0 && k <= |s|
    ensures r.Some? ==> IsDecomp(s, seps, r.value) && |r.value[0]| <= k
    decreases |seps|, k
  {
    if k == 0 then None
    else if k + |seps[0]| <= |s| && MatchesAt(s, seps[0], k) then
      match Greedy(s[k + |seps[0]|..], seps[1..])
      case Some(rest) =>
        assert ([s[..k]] + rest)[1..] == rest;
        Some([s[..k]] + rest)
      case None => Search(s, seps, k - 1)
    else Search(s, seps, k - 1)
  }

  /** Greedy finds a decomposition whenever there is one, and it is at
      least as greedy as every other. */
  lemma {:induction false} GreedyComplete(s: string, seps: seq<Lit>, hs: seq<string>)
    requires IsDecomp(s, seps, hs)
    ensures Greedy(s, seps).Some?
    ensures AtLeastAsGreedy(Greedy(s, seps).value, hs)
    decreases |seps|, |s| + 1
  {
    if |seps| == 0 {
      assert hs == [s];
      assert AtLeastAsGreedy([s][1..], hs[1..]);
    } else {
      SearchComplete(s, seps, |s|, hs);
    }
  }

  lemma {:induction false} SearchComplete(s: string, seps: seq<Lit>, k: nat, hs: seq<string>)
    requires |seps| > 0 && k <= |s|
    requires IsDecomp(s, seps, hs) && |hs[0]| <= k
    ensures Search(s, seps, k).Some?
    ensures AtLeastAsGreedy(Search(s, seps, k).value, hs)
    decreases |seps|, k
  {
    var n := |hs[0]|;
    if n == k {
      var rest := s[k + |seps[0]|..];
      GreedyComplete(rest, seps[1..], hs[1..]);
      var gs := Search(s, seps, k).value;
      assert gs == [s[..k]] + Greedy(rest, seps[1..]).value;
      assert gs[1..] == Greedy(rest, seps[1..]).value;
    } else if k + |seps[0]| <= |s| && MatchesAt(s, seps[0], k)
              && Greedy(s[k + |seps[0]|..], seps[1..]).Some? {
      var gs := Search(s, seps, k).value;
      assert |gs[0]| == k;
    } else {
      SearchComplete(s, seps, k - 1, hs);
    }
  }

  /** Peeling an exact literal off the front of a pattern: the string is
      the first group, the literal, and a remainder the rest decomposes. */
  lemma DecompLiteralSplit(s: string, t: string, seps: seq<Lit>, gs: seq<string>)
    requires IsDecomp(s, [Literal(t)] + seps, gs)
    ensures |gs| == |seps| + 2 && |gs[0]| > 0 && |gs[0]| + |t| <= |s|
    ensures s == gs[0] + t + s[|gs[0]| + |t|..]
    ensures IsDecomp(s[|gs[0]| + |t|..], seps, gs[1..])
  {
    var all := [Literal(t)] + seps;
    assert all[0] == Literal(t) && all[1..] == seps;
    var n := |gs[0]|;
    LiteralAt(s, t, n);
    Slices(s, n, n + |t|);
  }

  /** A decomposition by three exact literals spells the four groups and
      the literals in order. */
  lemma DecompThree(s: string, a: string, b: string, c: string, gs: seq<string>)
    requires IsDecomp(s, [Literal(a), Literal(b), Literal(c)], gs)
    ensures |gs| == 4 && |gs[0]| > 0 && |gs[1]| > 0 && |gs[2]| > 0 && |gs[3]| > 0
    ensures s == gs[0] + a + (gs[1] + b + (gs[2] + c + gs[3]))
  {
    var seps := [Literal(a), Literal(b), Literal(c)];
    assert seps == [Literal(a)] + [Literal(b), Literal(c)];
    DecompLiteralSplit(s, a, [Literal(b), Literal(c)], gs);
    var s1 := s[|gs[0]| + |a|..];
    DecompTwo(s1, b, c, gs[1..]);
    assert gs[1..][0] == gs[1] && gs[1..][1] == gs[2] && gs[1..][2] == gs[3];
  }

  /** The same for two exact literals. */
  lemma DecompTwo(s: string, b: string, c: string, gs: seq<string>)
    requires IsDecomp(s, [Literal(b), Literal(c)], gs)
    ensures |gs| == 3 && |gs[0]| > 0 && |gs[1]| > 0 && |gs[2]| > 0
    ensures s == gs[0] + b + (gs[1] + c + gs[2])
  {
    assert [Literal(b), Literal(c)] == [Literal(b)] + [Literal(c)];
    DecompLiteralSplit(s, b, [Literal(c)], gs);
    var s1 := s[|gs[0]| + |b|..];
    assert [Literal(c)] == [Literal(c)] + [];
    DecompLiteralSplit(s1, c, [], gs[1..]);
    var s2 := s1[|gs[1]| + |c|..];
    assert gs[1..][1..] == gs[2..];
    assert s2 == gs[2];
  }

  lemma LiteralAt(s: string, t: string, n: nat)
    requires MatchesAt(s, Literal(t), n)
    ensures n + |t| <= |s| && s[n..n + |t|] == t
  {
    LiteralMatchesAt(s, t, n);
  }

  /** Conversely, a group, the literal and a decomposable remainder form a
      decomposition of their concatenation. */
  lemma DecompLiteralJoin(g: string, t: string, rest: string, seps: seq<Lit>, hs: seq<string>)
    requires |g| > 0 && IsDecomp(rest, seps, hs)
    ensures IsDecomp(g + t + rest, [Literal(t)] + seps, [g] + hs)
  {
    var s := g + t + rest;
    assert ([Literal(t)] + seps)[1..] == seps;
    assert ([g] + hs)[1..] == hs;
    assert s[..|g|] == g;
    assert s[|g|..|g| + |t|] == t;
    LiteralMatchesAt(s, t, |g|);
    assert s[|g| + |t|..] == rest;
  }

  /** An exact literal demands each of its characters once. */
  lemma {:induction false} RequiredLiteral(t: string, c: char)
    ensures Required(Literal(t), c) == Count(t, c)
    decreases |t|
  {
    if |t| > 0 {
      assert Literal(t)[1..] == Literal(t[1..]);
      RequiredLiteral(t[1..], c);
      assert t == [t[0]] + t[1..];
      CountConcat([t[0]], t[1..], c);
    }
  }

  /* ---------------------------------------------------------------- */
  /* The leftmost match                                                */
  /* ---------------------------------------------------------------- */

  /** `re` matches `s` at `start` with the groups `gs`. */
  predicate MatchAt(s: string, re: Regex, start: nat, gs: seq<string>) {
    && start + |re.lead| <= |s|
    && MatchesAt(s, re.lead, start)
    && IsDecomp(s[start + |re.lead|..], re.seps, gs)
  }

  /** `Regex.Match(s, re)`: the leftmost start, the greediest groups there. */
  function FirstMatch(s: string, re: Regex): (r: Option<Match>)
    ensures r.Some? ==> MatchAt(s, re, r.value.start, r.value.groups)
  {
    FirstMatchFrom(s, re, 0)
  }

  function FirstMatchFrom(s: string, re: Regex, p: nat): (r: Option<Match>)
    requires p <= |s| + 1
    ensures r.Some? ==> p <= r.value.start && MatchAt(s, re, r.value.start, r.value.groups)
    decreases |s| + 1 - p
  {
    if p + |re.lead| > |s| then None
    else if MatchesAt(s, re.lead, p) && Greedy(s[p + |re.lead|..], re.seps).Some? then
      Some(Match(p, Greedy(s[p + |re.lead|..], re.seps).value))
    else FirstMatchFrom(s, re, p + 1)
  }

  /** Whenever `re` can match `s` at `q`, FirstMatch succeeds, starts no
      later than `q`, and if it starts at `q` its groups are at least as
      greedy as those of the given match. */
  lemma FirstMatchComplete(s: string, re: Regex, q: nat, gs: seq<string>)
    requires MatchAt(s, re, q, gs)
    ensures FirstMatch(s, re).Some?
    ensures FirstMatch(s, re).value.start <= q
    ensures FirstMatch(s, re).value.start == q ==> AtLeastAsGreedy(FirstMatch(s, re).value.groups, gs)
  {
    FirstMatchFromComplete(s, re, 0, q, gs);
  }

  lemma {:induction false} FirstMatchFromComplete(s: string, re: Regex, p: nat, q: nat, gs: seq<string>)
    requires p <= q && MatchAt(s, re, q, gs)
    ensures FirstMatchFrom(s, re, p).Some?
    ensures FirstMatchFrom(s, re, p).value.start <= q
    ensures FirstMatchFrom(s, re, p).value.start == q
            ==> AtLeastAsGreedy(FirstMatchFrom(s, re, p).value.groups, gs)
    decreases q - p
  {
    if p == q {
      GreedyComplete(s[q + |re.lead|..], re.seps, gs);
    } else if MatchesAt(s, re.lead, p) && Greedy(s[p + |re.lead|..], re.seps).Some? {
    } else {
      FirstMatchFromComplete(s, re, p + 1, q, gs);
    }
  }

  /** In a decomposition by `t (.+) p` with `t` exact, the second group
      sits right after an occurrence of `t` and right before a match of
      `p`; `s0` is where the decomposed suffix begins. */
  lemma SecondGroupAt(s: string, s0: nat, t: string, p: Lit, gs: seq<string>)
    requires s0 <= |s| && IsDecomp(s[s0..], [Literal(t), p], gs)
    ensures |gs| == 3
    ensures var at := s0 + |gs[0]| + |t|;
      && |t| <= at && at + |gs[1]| + |p| <= |s|
      && s[at - |t|..at] == t
      && s[at..at + |gs[1]|] == gs[1]
      && MatchesAt(s, p, at + |gs[1]|)
  {
    LiteralHead(s, s0, t, p, gs);
    var at, tail := s0 + |gs[0]| + |t|, gs[1..];
    LastSepAt(s, at, p, tail);
    assert tail[0] == gs[1];
  }

  /** The first group and the exact literal after it, read in the whole
      string, and the decomposition of what follows. */
  lemma LiteralHead(s: string, s0: nat, t: string, p: Lit, gs: seq<string>)
    requires s0 <= |s| && IsDecomp(s[s0..], [Literal(t), p], gs)
    ensures |gs| == 3
    ensures s0 + |gs[0]| + |t| <= |s| && s[s0 + |gs[0]|..s0 + |gs[0]| + |t|] == t
    ensures IsDecomp(s[s0 + |gs[0]| + |t|..], [p], gs[1..])
  {
    var seps := [Literal(t), p];
    assert seps[0] == Literal(t) && seps[1..] == [p];
    var n0 := |gs[0]|;
    DecompHead(s[s0..], seps, gs);
    LiteralAt(s[s0..], t, n0);
    SliceOfSlice(s, s0, n0, n0 + |t|);
    DecompAfter(s, s0, n0 + |t|, [p], gs[1..]);
  }

  /** A decomposition of a suffix of a suffix is one of the suffix. */
  lemma DecompAfter(s: string, a: nat, i: nat, seps: seq<Lit>, gs: seq<string>)
    requires a <= |s| && i <= |s| - a && IsDecomp(s[a..][i..], seps, gs)
    ensures IsDecomp(s[a + i..], seps, gs)
  {
    assert s[a..][i..] == s[a + i..];
  }

  /** The first group and first literal part of a decomposition, and the
      decomposition of what follows them. */
  lemma DecompHead(r: string, seps: seq<Lit>, gs: seq<string>)
    requires |seps| > 0 && IsDecomp(r, seps, gs)
    ensures |gs| == |seps| + 1 && |gs[0]| > 0 && |gs[0]| + |seps[0]| <= |r|
    ensures r[..|gs[0]|] == gs[0] && MatchesAt(r, seps[0], |gs[0]|)
    ensures IsDecomp(r[|gs[0]| + |seps[0]|..], seps[1..], gs[1..])
  {
  }

  lemma SliceOfSlice(s: string, a: nat, i: nat, j: nat)
    requires a <= |s| && i <= j <= |s| - a
    ensures s[a..][i..j] == s[a + i..a + j]
  {
  }

  /** A suffix decomposed by one literal part: its first group, then a
      match of that part, both read in the whole string. */
  lemma LastSepAt(s: string, at: nat, p: Lit, gs: seq<string>)
    requires at <= |s| && IsDecomp(s[at..], [p], gs)
    ensures |gs| == 2 && at + |gs[0]| + |p| <= |s|
    ensures s[at..at + |gs[0]|] == gs[0]
    ensures MatchesAt(s, p, at + |gs[0]|)
  {
    var r := s[at..];
    var n := |gs[0]|;
    assert r[..n] == gs[0] && MatchesAt(r, p, n);
    assert s[at..at + n] == r[..n];
    forall k | 0 <= k < |p| ensures AtomMatches(p[k], s[at + n + k]) {
      assert r[n + k] == s[at + n + k];
    }
  }

  /** Prepending text to the first group of a decomposition of a suffix
      gives a decomposition of the whole string. */
  lemma {:induction false} ExtendFirstGroup(s: string, seps: seq<Lit>, q: nat, gs: seq<string>)
    requires q <= |s| && IsDecomp(s[q..], seps, gs)
    ensures IsDecomp(s, seps, [s[..q] + gs[0]] + gs[1..])
  {
    var hs := [s[..q] + gs[0]] + gs[1..];
    assert hs[1..] == gs[1..];
    if |seps| == 0 {
      assert s[..q] + s[q..] == s;
    } else {
      var n := |gs[0]|;
      assert s[..q + n] == s[..q] + s[q..][..n];
      forall k | 0 <= k < |seps[0]| ensures AtomMatches(seps[0][k], s[q + n + k]) {
        assert s[q..][n + k] == s[q + n + k];
      }
      assert s[q + n + |seps[0]|..] == s[q..][n + |seps[0]|..];
    }
  }

  /** A pattern without a lead matches at index 0 whenever it matches at
      all, and its groups then cover the whole input. */
  lemma LeadlessMatch(s: string, seps: seq<Lit>)
    ensures FirstMatch(s, Regex([], seps))
         == (match Greedy(s, seps)
             case Some(gs) => Some(Match(0, gs))
             case None => None)
  {
    var re := Regex([], seps);
    assert s[0..] == s;
    match FirstMatch(s, re)
    case Some(m) =>
      ExtendFirstGroup(s, seps, m.start, m.groups);
      var hs := [s[..m.start] + m.groups[0]] + m.groups[1..];
      assert MatchAt(s, re, 0, hs);
      FirstMatchComplete(s, re, 0, hs);
    case None =>
      if Greedy(s, seps).Some? {
        assert MatchAt(s, re, 0, Greedy(s, seps).value);
        FirstMatchComplete(s, re, 0, Greedy(s, seps).value);
      }
  }

  /* ---------------------------------------------------------------- */
  /* Decompositions of strings whose groups avoid a delimiter          */
  /* ---------------------------------------------------------------- */

  /** Number of positions of `p` that demand the character `c`. */
  function Required(p: Lit, c: char): nat
    decreases |p|
  {
    if |p| == 0 then 0 else (if p[0] == Exact(c) then 1 else 0) + Required(p[1..], c)
  }

  /** The demand of two literal parts side by side is the sum of theirs. */
  lemma {:induction false} RequiredConcat(p: Lit, q: Lit, c: char)
    ensures Required(p + q, c) == Required(p, c) + Required(q, c)
    decreases |p|
  {
    if |p| > 0 {
      assert (p + q)[0] == p[0] && (p + q)[1..] == p[1..] + q;
      RequiredConcat(p[1..], q, c);
    } else {
      assert p + q == q;
    }
  }

  function SumRequired(seps: seq<Lit>, c: char): nat
    decreases |seps|
  {
    if |seps| == 0 then 0 else Required(seps[0], c) + SumRequired(seps[1..], c)
  }

  function SumCounts(gs: seq<string>, c: char): nat
    decreases |gs|
  {
    if |gs| == 0 then 0 else Count(gs[0], c) + SumCounts(gs[1..], c)
  }

  /** No group contains `c`. */
  predicate FreeOf(gs: seq<string>, c: char) {
    forall i :: 0 <= i < |gs| ==> c !in gs[i]
  }

  /** Every literal part begins with the exact character `c`. */
  predicate AllStartWith(seps: seq<Lit>, c: char) {
    forall i :: 0 <= i < |seps| ==> |seps[i]| > 0 && seps[i][0] == Exact(c)
  }

  lemma {:induction false} MatchedCount(s: string, p: Lit, i: nat, c: char)
    requires MatchesAt(s, p, i)
    ensures Count(s[i..i + |p|], c) >= Required(p, c)
    decreases |p|
  {
    if |p| > 0 {
      assert MatchesAt(s, p[1..], i + 1) by {
        forall k | 0 <= k < |p[1..]| ensures AtomMatches(p[1..][k], s[i + 1 + k]) {
          assert p[1..][k] == p[k + 1];
        }
      }
      MatchedCount(s, p[1..], i + 1, c);
      assert s[i..i + |p|] == [s[i]] + s[i + 1..i + 1 + |p[1..]|];
      CountConcat([s[i]], s[i + 1..i + 1 + |p[1..]|], c);
      assert AtomMatches(p[0], s[i]);
    }
  }

  /** Every decomposition accounts for the occurrences of `c` its literal
      parts demand, plus those inside its groups. */
  lemma {:induction false} DecompCount(s: string, seps: seq<Lit>, gs: seq<string>, c: char)
    requires IsDecomp(s, seps, gs)
    ensures Count(s, c) >= SumCounts(gs, c) + SumRequired(seps, c)
    decreases |seps|
  {
    if |seps| == 0 {
      assert gs[1..] == [];
    } else {
      var n := |gs[0]|;
      var m := n + |seps[0]|;
      DecompCount(s[m..], seps[1..], gs[1..], c);
      MatchedCount(s, seps[0], n, c);
      assert s == s[..n] + s[n..m] + s[m..];
      CountConcat(s[..n] + s[n..m], s[m..], c);
      CountConcat(s[..n], s[n..m], c);
    }
  }

  lemma {:induction false} SumCountsZero(gs: seq<string>, c: char)
    ensures SumCounts(gs, c) == 0 <==> FreeOf(gs, c)
    decreases |gs|
  {
    if |gs| > 0 {
      SumCountsZero(gs[1..], c);
      CountZero(gs[0], c);
      assert forall i :: 1 <= i < |gs| ==> gs[i] == gs[1..][i - 1];
    }
  }

  /** When every literal part begins with `c`, at most one decomposition
      has groups free of `c`. */
  lemma {:induction false} UniqueWhenFree(s: string, seps: seq<Lit>, gs: seq<string>, hs: seq<string>, c: char)
    requires IsDecomp(s, seps, gs) && IsDecomp(s, seps, hs)
    requires AllStartWith(seps, c) && FreeOf(gs, c) && FreeOf(hs, c)
    ensures gs == hs
    decreases |seps|
  {
    if |seps| > 0 {
      SameHead(s, seps, gs, hs, c);
      var n := |gs[0]| + |seps[0]|;
      RestDecomp(s, seps, gs, n);
      RestDecomp(s, seps, hs, n);
      AllStartWithTail(seps, c);
      FreeOfTail(gs, c);
      FreeOfTail(hs, c);
      UniqueWhenFree(s[n..], seps[1..], gs[1..], hs[1..], c);
      assert gs == [gs[0]] + gs[1..] && hs == [hs[0]] + hs[1..];
    }
  }

  /** A decomposition's remainder, located by its offset. */
  lemma RestDecomp(s: string, seps: seq<Lit>, hs: seq<string>, n: nat)
    requires |seps| > 0 && IsDecomp(s, seps, hs) && n == |hs[0]| + |seps[0]|
    ensures n <= |s| && IsDecomp(s[n..], seps[1..], hs[1..])
  {
    DecompHead(s, seps, hs);
  }

  /** The first groups of two such decompositions are equal. */
  lemma SameHead(s: string, seps: seq<Lit>, gs: seq<string>, hs: seq<string>, c: char)
    requires |seps| > 0 && IsDecomp(s, seps, gs) && IsDecomp(s, seps, hs)
    requires AllStartWith(seps, c) && FreeOf(gs, c) && FreeOf(hs, c)
    ensures gs[0] == hs[0]
  {
    DecompHead(s, seps, gs);
    DecompHead(s, seps, hs);
    assert c !in gs[0] && c !in hs[0];
    assert |seps[0]| > 0 && seps[0][0] == Exact(c);
    FirstGroupUnique(s, seps[0], c, gs[0], hs[0]);
  }

  /** Two first groups followed by a part that starts with `c`, neither
      holding `c`, have the same length. */
  lemma FirstGroupUnique(s: string, sep: Lit, c: char, g: string, h: string)
    requires |sep| > 0 && sep[0] == Exact(c) && c !in g && c !in h
    requires |g| <= |s| && s[..|g|] == g && MatchesAt(s, sep, |g|)
    requires |h| <= |s| && s[..|h|] == h && MatchesAt(s, sep, |h|)
    ensures |g| == |h|
  {
    assert AtomMatches(sep[0], s[|g| + 0]) && AtomMatches(sep[0], s[|h| + 0]);
  }

  lemma AllStartWithTail(seps: seq<Lit>, c: char)
    requires |seps| > 0 && AllStartWith(seps, c)
    ensures AllStartWith(seps[1..], c)
  {
    forall i | 0 <= i < |seps[1..]| ensures |seps[1..][i]| > 0 && seps[1..][i][0] == Exact(c) {
      assert seps[1..][i] == seps[i + 1];
    }
  }

  lemma FreeOfTail(gs: seq<string>, c: char)
    requires |gs| > 0 && FreeOf(gs, c)
    ensures FreeOf(gs[1..], c)
  {
    forall i | 0 <= i < |gs[1..]| ensures c !in gs[1..][i] {
      assert gs[1..][i] == gs[i + 1];
    }
  }

  /** If `s` has exactly the occurrences of `c` its literal parts demand
      and some decomposition keeps its groups free of `c`, that
      decomposition is the one Greedy finds. */
  lemma GreedyWhenFree(s: string, seps: seq<Lit>, gs: seq<string>, c: char)
    requires IsDecomp(s, seps, gs) && FreeOf(gs, c) && AllStartWith(seps, c)
    requires Count(s, c) == SumRequired(seps, c)
    ensures Greedy(s, seps) == Some(gs)
  {
    GreedyComplete(s, seps, gs);
    var found := Greedy(s, seps).value;
    DecompCount(s, seps, found, c);
    SumCountsZero(found, c);
    UniqueWhenFree(s, seps, found, gs, c);
  }
}
