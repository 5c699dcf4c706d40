/** The loops that look for a free slug or user name by counting a suffix up. */
module FreshNames {
  import opened Text

  function Candidate(stem: string, n: nat): string {
    stem + "-" + Decimal(n)
  }

  /** The names tried with suffixes 2 .. n - 1. */
  ghost function Tried(stem: string, n: nat): set<string>
    requires n >= 2
  {
    set i | 2 <= i < n :: Candidate(stem, i)
  }

  lemma {:induction false} CandidateIsInjective(stem: string, m: nat, n: nat)
    ensures Candidate(stem, m) == Candidate(stem, n) ==> m == n
  {
    assert Candidate(stem, m)[|stem| + 1..] == Decimal(m);
    assert Candidate(stem, n)[|stem| + 1..] == Decimal(n);
    RenderingsAreInjective(m, n);
  }

  lemma {:induction false} TriedCount(stem: string, n: nat)
    requires n >= 2
    ensures |Tried(stem, n)| == n - 2
  {
    if n == 2 {
      assert Tried(stem, n) == {};
    } else {
      TriedCount(stem, n - 1);
      var last := Candidate(stem, n - 1);
      assert Tried(stem, n) == Tried(stem, n - 1) + {last};
      forall i | 2 <= i < n - 1 ensures Candidate(stem, i) != last { CandidateIsInjective(stem, i, n - 1); }
    }
  }

  lemma {:induction false} SubsetCount(a: set<string>, b: set<string>)
    requires a <= b
    ensures |a| <= |b|
  {
    if a == {} {
    } else {
      var x :| x in a;
      SubsetCount(a - {x}, b - {x});
    }
  }

  /** Pigeonhole: if base and every candidate below n are taken, n - 2 names besides base are,
      or one fewer when base is itself a candidate. */
  lemma {:induction false} TriedNamesBound(base: string, stem: string, n: nat, taken: set<string>)
    requires n >= 2 && base in taken && Tried(stem, n) <= taken
    ensures n - 2 <= |taken|
    ensures base !in Tried(stem, n) ==> n - 1 <= |taken|
  {
    TriedCount(stem, n);
    SubsetCount(Tried(stem, n), taken);
    SubsetCount(Tried(stem, n) + {base}, taken);
  }

  /** What the search must find: base, after one lookup, if it is free; else the candidate with the least free
      suffix, after as many lookups as that suffix says. */
  ghost predicate Found(base: string, stem: string, taken: set<string>, name: string, lookups: nat) {
    && name !in taken
    && (if lookups == 1 then name == base
        else lookups >= 2 && base in taken && name == Candidate(stem, lookups) && Tried(stem, lookups) <= taken)
  }

  lemma {:induction false} FoundIsUnique(base: string, stem: string, taken: set<string>,
                                         a: string, m: nat, b: string, n: nat)
    requires Found(base, stem, taken, a, m) && Found(base, stem, taken, b, n)
    ensures a == b && m == n
  {
  }

  lemma {:induction false} NoCandidateIsItsStem(stem: string, n: nat)
    requires n >= 2
    ensures stem !in Tried(stem, n)
  {
    forall i | 2 <= i < n ensures Candidate(stem, i) != stem {
      assert |Candidate(stem, i)| > |stem|;
    }
  }

  lemma {:induction false} SameSizeSubset(a: set<string>, b: set<string>)
    requires a <= b && |a| == |b|
    ensures a == b
  {
    if x :| x in b && x !in a {
      SubsetCount(a, b - {x});
    }
  }

  /** The search takes at most |taken| + 2 lookups, and all of them exactly if the taken names are a stretch of
      candidates from 2 upward, one of which is base itself. */
  lemma {:induction false} LookupsExactly(base: string, stem: string, taken: set<string>, name: string, lookups: nat)
    requires Found(base, stem, taken, name, lookups)
    ensures lookups <= |taken| + 2
    ensures lookups == |taken| + 2 <==> base in taken && exists k: nat :: k >= 2 && taken == Tried(stem, k)
  {
    if lookups >= 2 {
      TriedNamesBound(base, stem, lookups, taken);
      if lookups == |taken| + 2 {
        TriedCount(stem, lookups);
        SameSizeSubset(Tried(stem, lookups), taken);
      }
    }
    if base in taken {
      if k: nat :| k >= 2 && taken == Tried(stem, k) {
        StretchEnds(stem, k, lookups);
        TriedCount(stem, k);
      }
    }
  }

  /** The first free candidate behind a stretch of taken ones is the next one. */
  lemma {:induction false} StretchEnds(stem: string, k: nat, n: nat)
    requires k >= 2 && n >= 2 && Tried(stem, n) <= Tried(stem, k) && Candidate(stem, n) !in Tried(stem, k)
    ensures n == k
  {
    if n > k {
      assert Candidate(stem, k) in Tried(stem, n);
      var i :| 2 <= i < k && Candidate(stem, i) == Candidate(stem, k);
      CandidateIsInjective(stem, i, k);
    }
  }

  /** A free organisation slug; `next` is the suffix counter at the end: next - 1 names were looked up. */
  method FreshSlug(base: string, taken: set<string>) returns (slug: string, next: nat)
    ensures 2 <= next && Found(base, base, taken, slug, next - 1)
    ensures next - 1 <= |taken| + 1
  {
    slug, next := base, 2;
    while slug in taken
      invariant next >= 2
      invariant slug == if next == 2 then base else Candidate(base, next - 1)
      invariant next > 2 ==> base in taken && Tried(base, next - 1) <= taken
      invariant next - 2 <= |taken|
      decreases |taken| + 2 - next
    {
      assert Tried(base, next) <= taken;
      TriedNamesBound(base, base, next, taken);
      NoCandidateIsItsStem(base, next);
      slug := base + "-" + Decimal(next);
      next := next + 1;
    }
  }

  function Clipped(s: string, n: nat): string {
    if |s| <= n then s else s[..n]
  }

  /** A free user name; the suffix goes behind the first 24 characters, so that base itself can look like a
      candidate. `suffix` names were looked up. */
  method FreshUsername(base: string, taken: set<string>) returns (username: string, suffix: nat)
    ensures Found(base, Clipped(base, 24), taken, username, suffix)
    ensures 1 <= suffix <= |taken| + 2
    ensures suffix == |taken| + 2 <==> base in taken && exists k: nat :: k >= 2 && taken == Tried(Clipped(base, 24), k)
  {
    var stem := Clipped(base, 24);
    username, suffix := base, 1;
    while username in taken
      invariant suffix >= 1
      invariant username == if suffix == 1 then base else Candidate(stem, suffix)
      invariant suffix > 1 ==> base in taken && Tried(stem, suffix) <= taken
      invariant suffix <= |taken| + 2
      decreases |taken| + 2 - suffix
    {
      assert Tried(stem, suffix + 1) <= taken;
      TriedNamesBound(base, stem, suffix + 1, taken);
      suffix := suffix + 1;
      username := stem + "-" + Decimal(suffix);
    }
    LookupsExactly(base, stem, taken, username, suffix);
  }

  /** The extra lookup happens: with nothing but base taken, the third name looked up is the first free one. */
  lemma {:induction false} OneTakenNameThreeLookups(username: string, lookups: nat)
    requires var base := "aaaaaaaaaaaaaaaaaaaaaaaa-2"; Found(base, Clipped(base, 24), {base}, username, lookups)
    ensures lookups == 3 && username == "aaaaaaaaaaaaaaaaaaaaaaaa-3"
  {
    var base := "aaaaaaaaaaaaaaaaaaaaaaaa-2";
    var stem := Clipped(base, 24);
    assert Decimal(2) == "2" && Decimal(3) == "3";
    assert base == base[..24] + "-" + "2";
    assert base[..24] + "-" + "3" == "aaaaaaaaaaaaaaaaaaaaaaaa-3";
    assert Tried(stem, 3) == {Candidate(stem, 2)};
    LookupsExactly(base, stem, {base}, username, lookups);
  }
}
