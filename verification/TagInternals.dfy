/** Rewriting the legacy tokens inside one template tag: a chain of whole-word regular-expression
    substitutions, one per table entry, over the text of the tag.

    `word` tells the [\w-] characters; any classification does that contains lower-case letters and hyphens. */
module TagInternals {
  import opened Text
  import opened LegacyTables

  ghost predicate Classifies(word: char -> bool) {
    forall c :: IsLower(c) ==> word(c)
  }

  ghost predicate AllWord(word: char -> bool, s: string) {
    s != "" && forall i :: 0 <= i < |s| ==> word(s[i])
  }

  /** re.sub(r'(?<![\w-])KEY(?![\w-])', repl, s), scanning from the left; `inWord` tells whether a word
      character precedes s in the original text. */
  function Sub(word: char -> bool, inWord: bool, s: string, key: string, repl: string): string
    requires key != ""
    decreases |s|
  {
    if s == "" then ""
    else if !inWord && key <= s && (|s| == |key| || !word(s[|key|])) then
      repl + Sub(word, word(key[|key| - 1]), s[|key|..], key, repl)
    else [s[0]] + Sub(word, word(s[0]), s[1..], key, repl)
  }

  /** The maximal run of word characters at the start of s. */
  function Run(word: char -> bool, s: string): (run: string)
    ensures run <= s
    ensures forall i :: 0 <= i < |run| ==> word(run[i])
    ensures |run| < |s| ==> !word(s[|run|])
  {
    if s == "" || !word(s[0]) then "" else [s[0]] + Run(word, s[1..])
  }

  function Replace(t: Table, run: string): string {
    match Find(t, run) case Some(repl) => repl case None => run
  }

  /** One pass that maps every maximal run at once. */
  function OnePass(word: char -> bool, t: Table, s: string): string
    decreases |s|
  {
    if s == "" then ""
    else if !word(s[0]) then [s[0]] + OnePass(word, t, s[1..])
    else var run := Run(word, s); Replace(t, run) + OnePass(word, t, s[|run|..])
  }

  // ---- the code ----

  method MigrateTagInternals(word: char -> bool, tag: string) returns (r: string)
    requires Classifies(word)
    ensures r == OnePass(word, TAG_TABLE, tag)
  {
    TablesSeparated();
    r := tag;
    for i := 0 to |BADGE_TO_TONE|
      invariant r == Folded(word, [] + BADGE_TO_TONE[..i], tag)
    {
      FoldedNext(word, [], BADGE_TO_TONE, i, tag);
      r := Sub(word, false, r, BADGE_TO_TONE[i].0, BADGE_TO_TONE[i].1);
    }
    assert [] + BADGE_TO_TONE[..|BADGE_TO_TONE|] == BADGE_TO_TONE + BTN_TO_MOD[..0];
    for i := 0 to |BTN_TO_MOD|
      invariant r == Folded(word, BADGE_TO_TONE + BTN_TO_MOD[..i], tag)
    {
      FoldedNext(word, BADGE_TO_TONE, BTN_TO_MOD, i, tag);
      r := Sub(word, false, r, BTN_TO_MOD[i].0, BTN_TO_MOD[i].1);
    }
    assert BADGE_TO_TONE + BTN_TO_MOD[..|BTN_TO_MOD|] == BADGE_TO_TONE + BTN_TO_MOD + [SMALL][..0];
    FoldedNext(word, BADGE_TO_TONE + BTN_TO_MOD, [SMALL], 0, tag);
    assert [SMALL][..1] == [SMALL];
    r := Sub(word, false, r, SMALL.0, SMALL.1);
    TagTable(word);
    FoldIsOnePass(word, TAG_TABLE, tag);
  }

  const SMALL := ("badge-sm", "dc-ds-badge--sm")
  const TAG_TABLE: Table := BADGE_TO_TONE + BTN_TO_MOD + [SMALL]

  /** Applying the entries of a table one substitution after the other. */
  ghost function Folded(word: char -> bool, t: Table, s: string): string {
    if t == [] then s
    else
      var entry := t[|t| - 1];
      if entry.0 == "" then Folded(word, t[..|t| - 1], s)
      else Sub(word, false, Folded(word, t[..|t| - 1], s), entry.0, entry.1)
  }

  lemma {:induction false} FoldedNext(word: char -> bool, done: Table, t: Table, i: nat, s: string)
    requires i < |t| && t[i].0 != ""
    ensures Folded(word, done + t[..i + 1], s) == Sub(word, false, Folded(word, done + t[..i], s), t[i].0, t[i].1)
  {
    var all := done + t[..i + 1];
    assert all[..|all| - 1] == done + t[..i] && all[|all| - 1] == t[i];
  }

  // ---- sequential equals simultaneous ----

  /** Keys and replacements are words, and no replacement is itself a key. */
  ghost predicate Proper(word: char -> bool, t: Table) {
    && (forall i :: 0 <= i < |t| ==> AllWord(word, t[i].0) && AllWord(word, t[i].1))
    && (forall i, j :: 0 <= i < |t| && 0 <= j < |t| ==> t[i].1 != t[j].0)
  }

  lemma {:induction false} TagTable(word: char -> bool)
    requires Classifies(word)
    ensures Proper(word, TAG_TABLE)
  {
    TablesSeparated();
    assert Plain(SMALL.0) && Plain(SMALL.1);
    assert Separated(TAG_TABLE);
  }

  lemma {:induction false} NoMatchHere(word: char -> bool, s: string, key: string)
    requires AllWord(word, key) && (s == "" || !word(s[0]))
    ensures !(key <= s)
  {
    assert word(key[0]);
  }

  /** Inside a word nothing matches until the run is over. */
  lemma {:induction false} SubSkipsRun(word: char -> bool, s: string, key: string, repl: string)
    requires AllWord(word, key)
    ensures Sub(word, true, s, key, repl) == Run(word, s) + Sub(word, false, s[|Run(word, s)|..], key, repl)
    decreases |s|
  {
    if s != "" && word(s[0]) {
      SubSkipsRun(word, s[1..], key, repl);
      var tail := Run(word, s[1..]);
      assert Run(word, s) == [s[0]] + tail && s[1..][|tail|..] == s[|tail| + 1..];
      Regrouped([s[0]], tail, Sub(word, false, s[|tail| + 1..], key, repl));
    } else {
      NoMatchHere(word, s, key);
      StopsHere(word, s);
      assert "" + Sub(word, false, s, key, repl) == Sub(word, false, s, key, repl);
    }
  }

  /** A whole-word match is exactly a maximal run equal to the key. */
  lemma {:induction false} MatchIsRun(word: char -> bool, s: string, key: string)
    requires AllWord(word, key) && s != "" && word(s[0])
    ensures key <= s && (|s| == |key| || !word(s[|key|])) <==> Run(word, s) == key
  {
    var run := Run(word, s);
    if key <= s && (|s| == |key| || !word(s[|key|])) {
      assert !(|run| < |key|) && !(|key| < |run|);
      assert run == key;
    }
  }

  /** A substitution replaces the run at the start of the text if it is the key, and goes on behind it. */
  lemma {:induction false} SubOfRun(word: char -> bool, s: string, key: string, repl: string)
    requires AllWord(word, key) && s != "" && word(s[0])
    ensures var run := Run(word, s);
            Sub(word, false, s, key, repl)
            == (if run == key then repl else run) + Sub(word, false, s[|run|..], key, repl)
  {
    var run := Run(word, s);
    var rest := s[|run|..];
    MatchIsRun(word, s, key);
    if run == key {
      SubSkipsRun(word, rest, key, repl);
      StopsHere(word, rest);
      assert "" + Sub(word, false, rest, key, repl) == Sub(word, false, rest, key, repl);
    } else {
      SubSkipsRun(word, s[1..], key, repl);
      var tail := Run(word, s[1..]);
      assert run == [s[0]] + tail && s[1..][|tail|..] == rest;
      Regrouped([s[0]], tail, Sub(word, false, rest, key, repl));
    }
  }

  lemma {:induction false} StopsHere(word: char -> bool, s: string)
    requires s == "" || !word(s[0])
    ensures Run(word, s) == "" && s[0..] == s
  {
  }

  lemma {:induction false} Regrouped(a: string, b: string, c: string)
    ensures a + (b + c) == (a + b) + c
  {
  }

  /** One substitution is one pass with a one-entry table. */
  lemma {:induction false} SubIsOnePass(word: char -> bool, s: string, key: string, repl: string)
    requires AllWord(word, key)
    ensures Sub(word, false, s, key, repl) == OnePass(word, [(key, repl)], s)
    decreases |s|
  {
    if s == "" {
    } else {
      if !word(s[0]) {
        NoMatchHere(word, s, key);
        SubIsOnePass(word, s[1..], key, repl);
      } else {
        var run := Run(word, s);
        SubOfRun(word, s, key, repl);
        SubIsOnePass(word, s[|run|..], key, repl);
        FindIn([(key, repl)], run);
        assert [(key, repl)][0] == (key, repl);
      }
    }
  }

  lemma {:induction false} RunOf(word: char -> bool, run: string, rest: string)
    requires forall i :: 0 <= i < |run| ==> word(run[i])
    requires rest == "" || !word(rest[0])
    ensures Run(word, run + rest) == run
  {
    if run == "" {
      assert run + rest == rest;
    } else {
      assert (run + rest)[1..] == run[1..] + rest;
      RunOf(word, run[1..], rest);
    }
  }

  lemma {:induction false} ReplaceIsWord(word: char -> bool, t: Table, run: string)
    requires Proper(word, t) && AllWord(word, run)
    ensures AllWord(word, Replace(t, run))
    ensures Find(t, run).Some? ==> forall j :: 0 <= j < |t| ==> Replace(t, run) != t[j].0
  {
    FindIn(t, run);
  }

  /** Two passes in a row map each run twice. */
  lemma {:induction false} TwoPasses(word: char -> bool, t: Table, u: Table, both: Table, s: string)
    requires Proper(word, t)
    requires forall run :: AllWord(word, run) ==> Replace(u, Replace(t, run)) == Replace(both, run)
    ensures OnePass(word, u, OnePass(word, t, s)) == OnePass(word, both, s)
    decreases |s|
  {
    if s == "" {
    } else {
      if !word(s[0]) {
        TwoPasses(word, t, u, both, s[1..]);
        var first := OnePass(word, t, s);
        assert first[1..] == OnePass(word, t, s[1..]);
      } else {
        var run := Run(word, s);
        var rest := s[|run|..];
        TwoPasses(word, t, u, both, rest);
        ReplaceIsWord(word, t, run);
        var mapped, tail := Replace(t, run), OnePass(word, t, rest);
        RunOf(word, mapped, tail);
        assert (mapped + tail)[0] == mapped[0];
        assert (mapped + tail)[|mapped|..] == tail;
      }
    }
  }

  lemma {:induction false} FindAppended(t: Table, entry: (string, string), key: string)
    ensures Find(t + [entry], key) == if Find(t, key).Some? then Find(t, key) else Find([entry], key)
  {
    if t == [] {
      assert t + [entry] == [entry];
    } else {
      assert (t + [entry])[1..] == t[1..] + [entry];
      FindAppended(t[1..], entry, key);
    }
  }

  /** The whole chain of substitutions equals one simultaneous map over the maximal runs. */
  lemma {:induction false} FoldIsOnePass(word: char -> bool, t: Table, s: string)
    requires Proper(word, t)
    ensures Folded(word, t, s) == OnePass(word, t, s)
    decreases |t|
  {
    if t == [] {
      EmptyPass(word, s);
    } else {
      var init, entry := t[..|t| - 1], t[|t| - 1];
      assert t == init + [entry];
      FoldIsOnePass(word, init, s);
      SubIsOnePass(word, OnePass(word, init, s), entry.0, entry.1);
      forall run | AllWord(word, run) ensures Replace([entry], Replace(init, run)) == Replace(t, run) {
        FindAppended(init, entry, run);
        FindIn(init, run);
        FindIn([entry], Replace(init, run));
        if Find(init, run).Some? {
          var i :| 0 <= i < |init| && init[i] == (run, Find(init, run).value);
          assert t[i].1 != t[|t| - 1].0;
        }
      }
      TwoPasses(word, init, [entry], t, s);
    }
  }

  lemma {:induction false} EmptyPass(word: char -> bool, s: string)
    ensures OnePass(word, [], s) == s
    decreases |s|
  {
    if s == "" {
    } else {
      if word(s[0]) {
        var run := Run(word, s);
        EmptyPass(word, s[|run|..]);
        assert s == run + s[|run|..];
      } else {
        EmptyPass(word, s[1..]);
      }
    }
  }

  /** The order of the entries does not matter: tables with the same lookups rewrite alike. */
  lemma {:induction false} OrderIsIrrelevant(word: char -> bool, t: Table, u: Table, s: string)
    requires Proper(word, t) && Proper(word, u) && forall key :: Find(t, key) == Find(u, key)
    ensures Folded(word, t, s) == Folded(word, u, s)
  {
    FoldIsOnePass(word, t, s);
    FoldIsOnePass(word, u, s);
    SameLookups(word, t, u, s);
  }

  lemma {:induction false} SameLookups(word: char -> bool, t: Table, u: Table, s: string)
    requires forall key :: Find(t, key) == Find(u, key)
    ensures OnePass(word, t, s) == OnePass(word, u, s)
    decreases |s|
  {
    if s == "" {
    } else {
      SameLookups(word, t, u, if word(s[0]) then s[|Run(word, s)|..] else s[1..]);
    }
  }

  /** Any rearrangement of a table with distinct keys has the same lookups. */
  lemma {:induction false} RearrangedLookups(t: Table, u: Table, key: string)
    requires multiset(t) == multiset(u) && DistinctKeys(t)
    ensures Find(t, key) == Find(u, key)
  {
    FindIn(t, key);
    FindIn(u, key);
    forall i | 0 <= i < |u| ensures u[i] in t { assert u[i] in multiset(u); }
    forall i | 0 <= i < |t| ensures t[i] in u { assert t[i] in multiset(t); }
  }

  lemma {:induction false} TagKeysDistinct()
    ensures DistinctKeys(TAG_TABLE)
  {
    TablesDistinct();
    forall i, j | 0 <= i < |BADGE_TO_TONE| && 0 <= j < |BTN_TO_MOD| ensures BADGE_TO_TONE[i].0 != BTN_TO_MOD[j].0 {
      assert BADGE_TO_TONE[i].0[1] == "badge-"[1] && BTN_TO_MOD[j].0[1] == "btn-"[1];
    }
    forall j | 0 <= j < |BTN_TO_MOD| ensures BTN_TO_MOD[j].0 != "badge-sm" {
      assert BTN_TO_MOD[j].0[1] == "btn-"[1];
    }
  }

  /** Iterating over the two tables in any other order gives the same tag. */
  lemma {:induction false} AnyOrderRewritesAlike(word: char -> bool, u: Table, tag: string)
    requires Classifies(word) && multiset(u) == multiset(TAG_TABLE)
    ensures Folded(word, u, tag) == OnePass(word, TAG_TABLE, tag)
  {
    TagTable(word);
    TagKeysDistinct();
    forall i | 0 <= i < |u| ensures u[i] in TAG_TABLE { assert u[i] in multiset(u); }
    forall key ensures Find(TAG_TABLE, key) == Find(u, key) { RearrangedLookups(TAG_TABLE, u, key); }
    FoldIsOnePass(word, TAG_TABLE, tag);
    OrderIsIrrelevant(word, u, TAG_TABLE, tag);
  }

  /** Rewriting a tag again changes nothing. */
  lemma {:induction false} TagMigrationIsIdempotent(word: char -> bool, tag: string)
    requires Classifies(word)
    ensures OnePass(word, TAG_TABLE, OnePass(word, TAG_TABLE, tag)) == OnePass(word, TAG_TABLE, tag)
  {
    TagTable(word);
    forall run | AllWord(word, run) ensures Replace(TAG_TABLE, Replace(TAG_TABLE, run)) == Replace(TAG_TABLE, run) {
      ReplaceIsWord(word, TAG_TABLE, run);
      FindIn(TAG_TABLE, Replace(TAG_TABLE, run));
    }
    TwoPasses(word, TAG_TABLE, TAG_TABLE, TAG_TABLE, tag);
  }

  // ---- what becomes of each word ----

  lemma {:induction false} PassOfRun(word: char -> bool, t: Table, run: string, rest: string)
    requires AllWord(word, run) && (rest == "" || !word(rest[0]))
    ensures OnePass(word, t, run + rest) == Replace(t, run) + OnePass(word, t, rest)
  {
    RunOf(word, run, rest);
    assert (run + rest)[|run|..] == rest && (run + rest)[0] == run[0];
  }

  lemma {:induction false} PassOfOther(word: char -> bool, t: Table, c: char, rest: string)
    requires !word(c)
    ensures OnePass(word, t, [c] + rest) == [c] + OnePass(word, t, rest)
  {
    assert ([c] + rest)[1..] == rest;
  }

  /** A pass goes over the two sides of a word boundary separately. */
  lemma {:induction false} PassOfConcat(word: char -> bool, t: Table, a: string, b: string)
    requires a == "" || b == "" || !word(a[|a| - 1]) || !word(b[0])
    ensures OnePass(word, t, a + b) == OnePass(word, t, a) + OnePass(word, t, b)
    decreases |a|, 1
  {
    if a == "" {
      assert a + b == b;
    } else if b == "" {
      assert a + b == a;
    } else {
      PassOfPart(word, t, a, b);
    }
  }

  /** The first character or word of a. */
  lemma {:induction false} PassOfPart(word: char -> bool, t: Table, a: string, b: string)
    requires a != "" && b != "" && (!word(a[|a| - 1]) || !word(b[0]))
    ensures OnePass(word, t, a + b) == OnePass(word, t, a) + OnePass(word, t, b)
    decreases |a|, 0
  {
    var part := if word(a[0]) then Run(word, a) else [a[0]];
    var rest := a[|part|..];
    assert a == part + rest;
    assert rest == "" || !word(rest[|rest| - 1]) || !word(b[0]);
    PassOfConcat(word, t, rest, b);
    Regrouped(part, rest, b);
    if word(a[0]) {
      PassOfRun(word, t, part, rest);
      PassOfRun(word, t, part, rest + b);
      Regrouped(Replace(t, part), OnePass(word, t, rest), OnePass(word, t, b));
    } else {
      PassOfOther(word, t, a[0], rest);
      PassOfOther(word, t, a[0], rest + b);
      Regrouped(part, OnePass(word, t, rest), OnePass(word, t, b));
    }
  }

  lemma {:induction false} PassOfWord(word: char -> bool, t: Table, run: string)
    requires AllWord(word, run)
    ensures OnePass(word, t, run) == Replace(t, run)
  {
    PassOfRun(word, t, run, "");
    assert run + "" == run;
  }

  /** Every whole word of the tag, whatever stands around it, becomes its replacement if it is a key of one of
      the two tables, and the small badge if it is "badge-sm"; any other word stays, "btn" and unknown badges
      included. */
  lemma {:induction false} TagWordsExactly(word: char -> bool, before: string, run: string, after: string)
    returns (became: string)
    requires AllWord(word, run)
    requires (before == "" || !word(before[|before| - 1])) && (after == "" || !word(after[0]))
    ensures OnePass(word, TAG_TABLE, before + (run + after))
            == OnePass(word, TAG_TABLE, before) + (became + OnePass(word, TAG_TABLE, after))
    ensures forall repl :: (run, repl) in BTN_TO_MOD || (run, repl) in BADGE_TO_TONE ==> became == repl
    ensures run == "badge-sm" ==> became == "dc-ds-badge--sm"
    ensures !HasKey(BTN_TO_MOD, run) && !HasKey(BADGE_TO_TONE, run) && run != "badge-sm" ==> became == run
  {
    PassOfConcat(word, TAG_TABLE, before, run + after);
    PassOfConcat(word, TAG_TABLE, run, after);
    PassOfWord(word, TAG_TABLE, run);
    became := Replace(TAG_TABLE, run);
    TagEntries(run);
  }

  lemma {:induction false} TagEntries(run: string)
    ensures forall repl :: (run, repl) in BTN_TO_MOD || (run, repl) in BADGE_TO_TONE ==> Replace(TAG_TABLE, run) == repl
    ensures run == "badge-sm" ==> Replace(TAG_TABLE, run) == "dc-ds-badge--sm"
    ensures !HasKey(BTN_TO_MOD, run) && !HasKey(BADGE_TO_TONE, run) && run != "badge-sm" ==>
              Replace(TAG_TABLE, run) == run
  {
    TagKeysDistinct();
    forall repl | (run, repl) in BTN_TO_MOD || (run, repl) in BADGE_TO_TONE ensures Replace(TAG_TABLE, run) == repl {
      FindExactly(TAG_TABLE, run, repl);
    }
    FindExactly(TAG_TABLE, run, "dc-ds-badge--sm");
    if !HasKey(BTN_TO_MOD, run) && !HasKey(BADGE_TO_TONE, run) && run != "badge-sm" {
      var both := BADGE_TO_TONE + BTN_TO_MOD;
      assert forall i :: 0 <= i < |BADGE_TO_TONE| ==> both[i].0 != run;
      assert forall i :: |BADGE_TO_TONE| <= i < |both| ==> both[i] == BTN_TO_MOD[i - |BADGE_TO_TONE|];
      assert forall i :: 0 <= i < |TAG_TABLE| ==> TAG_TABLE[i].0 != run;
    }
  }
}
