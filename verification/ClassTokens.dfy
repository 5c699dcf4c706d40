/** Rewriting one static class attribute value: legacy button and badge tokens become design-system tokens. */
module ClassTokens {
  import opened Outcomes
  import opened Text
  import opened LegacyTables

  const BUTTON := "dc-ds-button"
  const BADGE := "dc-ds-badge"
  const SMALL_BADGE := "dc-ds-badge--sm"
  const NEUTRAL := "dc-ds-badge--neutral"

  // ---- what the tokens of a value amount to ----

  function Mod(tok: string): Option<string> {
    Find(BTN_TO_MOD, tok)
  }

  predicate IsButton(tok: string) {
    Mod(tok).Some? || tok == "btn"
  }

  predicate IsBadge(tok: string) {
    !IsButton(tok) && (tok == "badge-sm" || Find(BADGE_TO_TONE, tok).Some? || StartsWith(tok, "badge-"))
  }

  predicate Recognised(tok: string) {
    IsButton(tok) || IsBadge(tok)
  }

  function Tone(tok: string): Option<string> {
    if !IsBadge(tok) || tok == "badge-sm" then None
    else match Find(BADGE_TO_TONE, tok) case Some(tone) => Some(tone) case None => Some(NEUTRAL)
  }

  function AddNew(xs: seq<string>, x: string): seq<string> {
    if x in xs then xs else xs + [x]
  }

  /** First occurrences, without empty strings. */
  function Dedupe(ts: seq<string>): seq<string> {
    if ts == [] then []
    else
      var t := ts[|ts| - 1];
      if t == "" then Dedupe(ts[..|ts| - 1]) else AddNew(Dedupe(ts[..|ts| - 1]), t)
  }

  function Images(ts: seq<string>, image: string -> Option<string>): seq<string> {
    if ts == [] then []
    else
      var rest := Images(ts[..|ts| - 1], image);
      match image(ts[|ts| - 1]) case Some(x) => AddNew(rest, x) case None => rest
  }

  /** The subsequence of tokens in `which`. */
  ghost function Keep(ts: seq<string>, which: iset<string>): seq<string> {
    if ts == [] then []
    else Keep(ts[..|ts| - 1], which) + (if ts[|ts| - 1] in which then [ts[|ts| - 1]] else [])
  }

  ghost const UNTOUCHED: iset<string> := iset tok: string | !Recognised(tok)

  function Mods(ts: seq<string>): seq<string> {
    Images(ts, Mod)
  }

  function Tones(ts: seq<string>): seq<string> {
    Images(ts, Tone)
  }

  function IndexOf(xs: seq<string>, x: string): (i: Option<nat>)
    ensures i.Some? <==> x in xs
    ensures i.Some? ==> i.value < |xs| && xs[i.value] == x
  {
    if xs == [] then None
    else if xs[0] == x then Some(0)
    else match IndexOf(xs[1..], x) case Some(i) => Some(i + 1) case None => None
  }

  /** out.insert(out.index(anchor) + 1, x), or an append when the anchor is missing. */
  function InsertAfter(out: seq<string>, anchor: string, x: string): seq<string> {
    match IndexOf(out, anchor)
    case Some(i) => out[..i + 1] + [x] + out[i + 1..]
    case None => out + [x]
  }

  function InsertMods(out: seq<string>, mods: seq<string>): seq<string> {
    if mods == [] then out
    else
      var before, mod := InsertMods(out, mods[..|mods| - 1]), mods[|mods| - 1];
      if mod in before then before else InsertAfter(before, BUTTON, mod)
  }

  function AppendNew(out: seq<string>, xs: seq<string>): seq<string> {
    if xs == [] then out else AddNew(AppendNew(out, xs[..|xs| - 1]), xs[|xs| - 1])
  }

  function Ahead(out: seq<string>, head: string): seq<string> {
    if head in out then out else [head] + out
  }

  function WithBadge(out: seq<string>, tones: seq<string>): seq<string> {
    var badged := Ahead(out, BADGE);
    AppendNew(if SMALL_BADGE in badged then badged else InsertAfter(badged, BADGE, SMALL_BADGE), tones)
  }

  predicate HasButton(ts: seq<string>) {
    exists i :: 0 <= i < |ts| && IsButton(ts[i])
  }

  predicate HasBadge(ts: seq<string>) {
    exists i :: 0 <= i < |ts| && IsBadge(ts[i])
  }

  predicate OnlyLegacy(ts: seq<string>) {
    forall i :: 0 <= i < |ts| ==> Recognised(ts[i])
  }

  ghost function Buttoned(ts: seq<string>): seq<string> {
    var out := Keep(ts, UNTOUCHED);
    if HasButton(ts) then InsertMods(Ahead(out, BUTTON), Mods(ts)) else out
  }

  ghost function Assembled(ts: seq<string>): seq<string> {
    if HasBadge(ts) then WithBadge(Buttoned(ts), Tones(ts)) else Buttoned(ts)
  }

  ghost function MigratedTokens(ts: seq<string>, fragment: bool): seq<string> {
    if fragment && OnlyLegacy(ts) then Dedupe(Mods(ts) + Tones(ts)) else Dedupe(Assembled(ts))
  }

  ghost function Migrated(value: string, fragment: bool): string {
    if Split(value) == [] then value else Join(MigratedTokens(Split(value), fragment))
  }

  // ---- the code ----

  method DedupeTokens(tokens: seq<string>) returns (out: seq<string>)
    ensures out == Dedupe(tokens)
  {
    var seen: set<string> := {};
    out := [];
    for i := 0 to |tokens|
      invariant out == Dedupe(tokens[..i])
      invariant forall t :: t in seen <==> t in out
    {
      assert tokens[..i + 1][..i] == tokens[..i];
      var t := tokens[i];
      if t != "" && t !in seen {
        seen := seen + {t};
        out := out + [t];
      }
    }
    assert tokens[..|tokens|] == tokens;
  }

  lemma {:induction false} ClassifiedLast(ts: seq<string>, tok: string)
    ensures Keep(ts + [tok], UNTOUCHED) == if Recognised(tok) then Keep(ts, UNTOUCHED) else Keep(ts, UNTOUCHED) + [tok]
    ensures Mods(ts + [tok]) == if Mod(tok).Some? then AddNew(Mods(ts), Mod(tok).value) else Mods(ts)
    ensures Tones(ts + [tok]) == if Tone(tok).Some? then AddNew(Tones(ts), Tone(tok).value) else Tones(ts)
    ensures HasButton(ts + [tok]) == (HasButton(ts) || IsButton(tok))
    ensures HasBadge(ts + [tok]) == (HasBadge(ts) || IsBadge(tok))
  {
    var all := ts + [tok];
    assert all[..|ts|] == ts && all[|ts|] == tok;
    KeepLast(ts, tok, UNTOUCHED);
    forall i | 0 <= i < |ts| ensures all[i] == ts[i] {}
  }

  method Classify(tokens: seq<string>)
    returns (out: seq<string>, mods: seq<string>, tones: seq<string>, sawButton: bool, sawBadge: bool)
    ensures out == Keep(tokens, UNTOUCHED) && mods == Mods(tokens) && tones == Tones(tokens)
    ensures sawButton == HasButton(tokens) && sawBadge == HasBadge(tokens)
  {
    out, mods, tones, sawButton, sawBadge := [], [], [], false, false;
    for i := 0 to |tokens|
      invariant out == Keep(tokens[..i], UNTOUCHED) && mods == Mods(tokens[..i]) && tones == Tones(tokens[..i])
      invariant sawButton == HasButton(tokens[..i]) && sawBadge == HasBadge(tokens[..i])
    {
      var tok := tokens[i];
      assert tokens[..i + 1] == tokens[..i] + [tok];
      ClassifiedLast(tokens[..i], tok);
      var mod := Find(BTN_TO_MOD, tok);
      var tone := Find(BADGE_TO_TONE, tok);
      if mod.Some? {
        sawButton := true;
        if mod.value !in mods { mods := mods + [mod.value]; }
      } else if tok == "btn" {
        sawButton := true;
      } else if tok == "badge-sm" {
        sawBadge := true;
      } else if tone.Some? {
        sawBadge := true;
        if tone.value !in tones { tones := tones + [tone.value]; }
      } else if StartsWith(tok, "badge-") {
        sawBadge := true;
        if NEUTRAL !in tones { tones := tones + [NEUTRAL]; }
      } else {
        out := out + [tok];
      }
    }
    assert tokens[..|tokens|] == tokens;
  }

  /** The fallbacks for a missing anchor are dead: the anchor is always put in first. */
  method AddButton(start: seq<string>, mods: seq<string>) returns (out: seq<string>)
    ensures out == InsertMods(Ahead(start, BUTTON), mods)
  {
    out := start;
    if BUTTON !in out { out := [BUTTON] + out; }
    for i := 0 to |mods|
      invariant out == InsertMods(Ahead(start, BUTTON), mods[..i]) && BUTTON in out
    {
      assert mods[..i + 1][..i] == mods[..i];
      if mods[i] !in out {
        var at := IndexOf(out, BUTTON);
        if at.None? { assert false; }
        out := out[..at.value + 1] + [mods[i]] + out[at.value + 1..];
        assert out[at.value] == BUTTON;
      }
    }
    assert mods[..|mods|] == mods;
  }

  method AddBadge(start: seq<string>, tones: seq<string>) returns (out: seq<string>)
    ensures out == WithBadge(start, tones)
  {
    out := start;
    if BADGE !in out { out := [BADGE] + out; }
    if SMALL_BADGE !in out {
      var at := IndexOf(out, BADGE);
      if at.None? { assert false; }
      out := out[..at.value + 1] + [SMALL_BADGE] + out[at.value + 1..];
    }
    ghost var badged := out;
    for i := 0 to |tones|
      invariant out == AppendNew(badged, tones[..i])
    {
      assert tones[..i + 1][..i] == tones[..i];
      if tones[i] !in out { out := out + [tones[i]]; }
    }
    assert tones[..|tones|] == tones;
  }

  method MigrateClassValue(value: string, fragment: bool) returns (r: string)
    ensures r == Migrated(value, fragment)
    ensures Split(value) == [] ==> r == value
    ensures forall t :: t in Split(r) ==> t != "btn" && !HasKey(BTN_TO_MOD, t) && !("badge-" <= t)
  {
    forall t | t in Split(Migrated(value, fragment))
      ensures t != "btn" && !HasKey(BTN_TO_MOD, t) && !("badge-" <= t)
    {
      NoLegacyText(value, fragment, t);
    }
    var tokens := Split(value);
    if tokens == [] {
      return value;
    }
    var onlyLegacy := OnlyLegacy(tokens);
    var out, mods, tones, sawButton, sawBadge := Classify(tokens);
    if fragment && onlyLegacy {
      out := DedupeTokens(mods + tones);
    } else {
      if sawButton { out := AddButton(out, mods); }
      if sawBadge { out := AddBadge(out, tones); }
      out := DedupeTokens(out);
    }
    return Join(out);
  }

  // ---- what the rewriting guarantees ----

  ghost predicate AllWords(ts: seq<string>) {
    forall t :: t in ts ==> IsWord(t)
  }

  /** New tokens begin with d, legacy ones with b. */
  ghost predicate AllNew(ts: seq<string>) {
    forall t :: t in ts ==> IsWord(t) && t[0] == 'd'
  }

  lemma {:induction false} DedupeElements(ts: seq<string>)
    ensures NoDup(Dedupe(ts)) && forall t :: t in Dedupe(ts) <==> t in ts && t != ""
  {
    if ts == [] {
    } else {
      DedupeElements(ts[..|ts| - 1]);
      assert ts == ts[..|ts| - 1] + [ts[|ts| - 1]];
    }
  }

  lemma {:induction false} DedupeOfDistinct(ts: seq<string>)
    requires NoDup(ts) && AllWords(ts)
    ensures Dedupe(ts) == ts
  {
    if ts == [] {
    } else {
      var init, t := ts[..|ts| - 1], ts[|ts| - 1];
      assert ts == init + [t] && t in ts;
      DedupeOfDistinct(init);
      assert t !in init;
    }
  }

  lemma {:induction false} KeepElements(ts: seq<string>, which: iset<string>)
    ensures forall t :: t in Keep(ts, which) <==> t in ts && t in which
  {
    if ts == [] {
    } else {
      KeepElements(ts[..|ts| - 1], which);
      assert ts == ts[..|ts| - 1] + [ts[|ts| - 1]];
    }
  }

  lemma {:induction false} KeepsAll(ts: seq<string>, which: iset<string>)
    requires forall t :: t in ts ==> t in which
    ensures Keep(ts, which) == ts
  {
    if ts == [] {
    } else {
      var init, t := ts[..|ts| - 1], ts[|ts| - 1];
      assert ts == init + [t] && t in ts;
      KeepsAll(init, which);
    }
  }

  lemma {:induction false} KeepConcat(a: seq<string>, b: seq<string>, which: iset<string>)
    ensures Keep(a + b, which) == Keep(a, which) + Keep(b, which)
  {
    if b == [] {
      assert a + b == a;
    } else {
      assert (a + b)[..|a + b| - 1] == a + b[..|b| - 1];
      KeepConcat(a, b[..|b| - 1], which);
    }
  }

  lemma {:induction false} KeepLast(ts: seq<string>, t: string, which: iset<string>)
    ensures Keep(ts + [t], which) == if t in which then Keep(ts, which) + [t] else Keep(ts, which)
  {
    assert (ts + [t])[..|ts|] == ts;
    assert Keep(ts, which) + [] == Keep(ts, which);
  }

  lemma {:induction false} DedupeLast(ts: seq<string>, t: string)
    ensures Dedupe(ts + [t]) == if t == "" then Dedupe(ts) else AddNew(Dedupe(ts), t)
  {
    assert (ts + [t])[..|ts|] == ts;
  }

  lemma {:induction false} KeepDedupe(ts: seq<string>, which: iset<string>)
    ensures Keep(Dedupe(ts), which) == Dedupe(Keep(ts, which))
  {
    if ts == [] {
    } else {
      var init, t := ts[..|ts| - 1], ts[|ts| - 1];
      assert ts == init + [t];
      KeepDedupe(init, which);
      KeepElements(Dedupe(init), which);
      KeepLast(init, t, which);
      DedupeLast(init, t);
      KeepLast(Dedupe(init), t, which);
      DedupeLast(Keep(init, which), t);
    }
  }

  lemma {:induction false} ImagesElements(ts: seq<string>, image: string -> Option<string>)
    ensures forall x :: x in Images(ts, image) <==> exists i :: 0 <= i < |ts| && image(ts[i]) == Some(x)
  {
    if ts == [] {
    } else {
      var init := ts[..|ts| - 1];
      ImagesElements(init, image);
      forall x | x in Images(ts, image) ensures exists i :: 0 <= i < |ts| && image(ts[i]) == Some(x) {
        if x in Images(init, image) {
          var i :| 0 <= i < |init| && image(init[i]) == Some(x);
          assert ts[i] == init[i];
        } else {
          assert image(ts[|ts| - 1]) == Some(x);
        }
      }
      forall i | 0 <= i < |ts| && image(ts[i]).Some? ensures image(ts[i]).value in Images(ts, image) {
        if i < |init| { assert init[i] == ts[i]; }
      }
    }
  }

  lemma {:induction false} LegacyBeginsWithB(tok: string)
    ensures Recognised(tok) ==> tok != "" && tok[0] == 'b'
    ensures Mod(tok).Some? ==> IsWord(Mod(tok).value) && Mod(tok).value[0] == 'd'
    ensures Tone(tok).Some? ==> IsWord(Tone(tok).value) && Tone(tok).value[0] == 'd'
  {
    TablesSeparated();
    FindIn(BTN_TO_MOD, tok);
    FindIn(BADGE_TO_TONE, tok);
    assert StartsWith(tok, "badge-") ==> tok[0] == "badge-"[0];
  }

  lemma {:induction false} NewTokens(ts: seq<string>)
    ensures AllNew(Mods(ts)) && AllNew(Tones(ts))
  {
    ImagesElements(ts, Mod);
    ImagesElements(ts, Tone);
    forall x | x in Mods(ts) || x in Tones(ts) ensures IsWord(x) && x[0] == 'd' {
      if x in Mods(ts) {
        var i :| 0 <= i < |ts| && Mod(ts[i]) == Some(x);
        LegacyBeginsWithB(ts[i]);
      } else {
        var i :| 0 <= i < |ts| && Tone(ts[i]) == Some(x);
        LegacyBeginsWithB(ts[i]);
      }
    }
  }

  /** `out` grew from `start` by tokens in `extra` only, and lost or moved nothing of `start`. */
  ghost predicate Grown(start: seq<string>, out: seq<string>, extra: iset<string>) {
    && (forall t :: t in out <==> t in start || t in extra)
    && Keep(out, iset t | t in start) == start
  }

  lemma {:induction false} KeepInserted(out: seq<string>, i: nat, x: string, which: iset<string>)
    requires i <= |out| && x !in which
    ensures Keep(out[..i] + [x] + out[i..], which) == Keep(out, which)
  {
    assert out == out[..i] + out[i..];
    KeepConcat(out[..i], out[i..], which);
    KeepConcat(out[..i] + [x], out[i..], which);
    KeepConcat(out[..i], [x], which);
    assert [x][..0] == [] && Keep([x], which) == [];
  }

  lemma {:induction false} InsertGrows(start: seq<string>, out: seq<string>, extra: iset<string>, i: nat, x: string)
    requires Grown(start, out, extra) && i <= |out| && x !in out
    ensures Grown(start, out[..i] + [x] + out[i..], extra + iset{x})
  {
    KeepInserted(out, i, x, iset t | t in start);
    assert forall t :: t in out <==> t in out[..i] || t in out[i..] by {
      assert out == out[..i] + out[i..];
    }
  }

  lemma {:induction false} InsertModsGrows(start: seq<string>, out: seq<string>, extra: iset<string>, mods: seq<string>)
    requires Grown(start, out, extra) && BUTTON in out
    ensures Grown(start, InsertMods(out, mods), extra + iset t | t in mods)
  {
    if mods == [] {
      assert extra + (iset t | t in mods) == extra;
    } else {
      var init, mod := mods[..|mods| - 1], mods[|mods| - 1];
      assert mods == init + [mod];
      InsertModsGrows(start, out, extra, init);
      var before := InsertMods(out, init);
      var now := extra + iset t | t in init;
      assert now + iset{mod} == extra + iset t | t in mods;
      if mod !in before {
        var i := IndexOf(before, BUTTON).value;
        InsertGrows(start, before, now, i + 1, mod);
        assert before[..i + 1] + [mod] + before[i + 1..] == InsertMods(out, mods);
      }
    }
  }

  lemma {:induction false} AppendGrows(start: seq<string>, out: seq<string>, extra: iset<string>, xs: seq<string>)
    requires Grown(start, out, extra)
    ensures Grown(start, AppendNew(out, xs), extra + iset t | t in xs)
  {
    if xs == [] {
      assert extra + (iset t | t in xs) == extra;
    } else {
      var init, x := xs[..|xs| - 1], xs[|xs| - 1];
      assert xs == init + [x];
      AppendGrows(start, out, extra, init);
      var before := AppendNew(out, init);
      var now := extra + iset t | t in init;
      assert now + iset{x} == extra + iset t | t in xs;
      if x !in before {
        InsertGrows(start, before, now, |before|, x);
        assert before[..|before|] + [x] + before[|before|..] == before + [x];
      }
    }
  }

  lemma {:induction false} AheadGrows(start: seq<string>, out: seq<string>, extra: iset<string>, head: string)
    requires Grown(start, out, extra)
    ensures Grown(start, Ahead(out, head), extra + iset{head})
  {
    if head !in out {
      InsertGrows(start, out, extra, 0, head);
      assert out[..0] + [head] + out[0..] == [head] + out;
    }
  }

  lemma {:induction false} WithBadgeGrows(start: seq<string>, out: seq<string>, extra: iset<string>, tones: seq<string>)
    requires Grown(start, out, extra)
    ensures Grown(start, WithBadge(out, tones), extra + iset{BADGE, SMALL_BADGE} + iset t | t in tones)
  {
    AheadGrows(start, out, extra, BADGE);
    var badged := Ahead(out, BADGE);
    var more := extra + iset{BADGE};
    var i := IndexOf(badged, BADGE).value;
    var small := if SMALL_BADGE in badged then badged else InsertAfter(badged, BADGE, SMALL_BADGE);
    if SMALL_BADGE !in badged {
      InsertGrows(start, badged, more, i + 1, SMALL_BADGE);
    }
    assert more + iset{SMALL_BADGE} == extra + iset{BADGE, SMALL_BADGE};
    AppendGrows(start, small, extra + iset{BADGE, SMALL_BADGE}, tones);
  }

  /** The tokens a value gains, given which kinds of legacy token it has and whether it is a bare fragment. */
  ghost function Gained(ts: seq<string>, fragment: bool): iset<string> {
    var bare := fragment && OnlyLegacy(ts);
    (iset t | t in Mods(ts) || t in Tones(ts))
    + (if HasButton(ts) && !bare then iset{BUTTON} else iset{})
    + (if HasBadge(ts) && !bare then iset{BADGE, SMALL_BADGE} else iset{})
  }

  lemma {:induction false} NewIsNotLegacy(tok: string)
    requires IsWord(tok) && tok[0] == 'd'
    ensures !Recognised(tok)
  {
    LegacyBeginsWithB(tok);
  }

  lemma {:induction false} AnchorsAreNew()
    ensures AllNew([BUTTON, BADGE, SMALL_BADGE])
  {
    forall t | t in [BUTTON, BADGE, SMALL_BADGE] ensures IsWord(t) && t[0] == 'd' {
      assert t == BUTTON || t == BADGE || t == SMALL_BADGE;
      PlainIsWord(t);
    }
  }

  lemma {:induction false} GainedAreNew(ts: seq<string>, fragment: bool)
    ensures forall t :: t in Gained(ts, fragment) ==> IsWord(t) && !Recognised(t)
  {
    NewTokens(ts);
    AnchorsAreNew();
    forall t | t in Gained(ts, fragment) ensures IsWord(t) && !Recognised(t) {
      assert t in Mods(ts) || t in Tones(ts) || t in [BUTTON, BADGE, SMALL_BADGE];
      NewIsNotLegacy(t);
    }
  }

  lemma {:induction false} NoImagesWithout(ts: seq<string>)
    ensures !HasButton(ts) ==> Mods(ts) == []
    ensures !HasBadge(ts) ==> Tones(ts) == []
  {
    ImagesElements(ts, Mod);
    ImagesElements(ts, Tone);
    if |Mods(ts)| > 0 { assert Mods(ts)[0] in Mods(ts); }
    if |Tones(ts)| > 0 { assert Tones(ts)[0] in Tones(ts); }
  }

  lemma {:induction false} ButtonedGrows(ts: seq<string>)
    ensures Grown(Keep(ts, UNTOUCHED), Buttoned(ts),
                  (if HasButton(ts) then iset{BUTTON} else iset{}) + iset t | t in Mods(ts))
  {
    var start := Keep(ts, UNTOUCHED);
    KeepsAll(start, iset t | t in start);
    NoImagesWithout(ts);
    assert Grown(start, start, iset{});
    if HasButton(ts) {
      AheadGrows(start, start, iset{}, BUTTON);
      assert iset{} + iset{BUTTON} == iset{BUTTON};
      InsertModsGrows(start, Ahead(start, BUTTON), iset{BUTTON}, Mods(ts));
    }
  }

  lemma {:induction false} AssembledGrows(ts: seq<string>)
    ensures Grown(Keep(ts, UNTOUCHED), Assembled(ts), Gained(ts, false))
  {
    ButtonedGrows(ts);
    NoImagesWithout(ts);
    var extra := (if HasButton(ts) then iset{BUTTON} else iset{}) + iset t | t in Mods(ts);
    if HasBadge(ts) {
      WithBadgeGrows(Keep(ts, UNTOUCHED), Buttoned(ts), extra, Tones(ts));
      assert extra + iset{BADGE, SMALL_BADGE} + (iset t | t in Tones(ts)) == Gained(ts, false);
    } else {
      assert extra == Gained(ts, false);
    }
  }

  lemma {:induction false} KeepsNone(ts: seq<string>, which: iset<string>)
    requires forall t :: t in ts ==> t !in which
    ensures Keep(ts, which) == []
  {
    if ts == [] {
    } else {
      KeepsNone(ts[..|ts| - 1], which);
    }
  }

  /** The rewriting neither loses nor invents a token, repeats none and leaves no legacy token behind. */
  lemma {:induction false} MigratedTokensAre(ts: seq<string>, fragment: bool)
    requires AllWords(ts)
    ensures var out := MigratedTokens(ts, fragment);
            && NoDup(out) && AllWords(out)
            && (forall t :: t in out <==> (t in ts && !Recognised(t)) || t in Gained(ts, fragment))
            && (forall t :: t in out ==> !Recognised(t))
  {
    GainedAreNew(ts, fragment);
    KeepElements(ts, UNTOUCHED);
    if fragment && OnlyLegacy(ts) {
      DedupeElements(Mods(ts) + Tones(ts));
    } else {
      AssembledGrows(ts);
      DedupeElements(Assembled(ts));
      assert Gained(ts, fragment) == Gained(ts, false);
    }
  }

  // ---- the same in terms of the text alone ----

  /** "btn" or a key of the button table. */
  ghost predicate ButtonText(tok: string) {
    tok == "btn" || HasKey(BTN_TO_MOD, tok)
  }

  lemma {:induction false} RecognisedText(tok: string)
    ensures IsButton(tok) <==> ButtonText(tok)
    ensures IsBadge(tok) <==> "badge-" <= tok
    ensures Recognised(tok) <==> ButtonText(tok) || "badge-" <= tok
  {
    TablesDistinct();
    FindExactly(BTN_TO_MOD, tok, "");
    FindExactly(BADGE_TO_TONE, tok, "");
    KeysByPrefix(tok);
    assert "btn"[1] != "badge-"[1];
    assert "badge-" <= "badge-sm";
  }

  lemma {:induction false} ToneText(tok: string, x: string)
    ensures Mod(tok) == Some(x) <==> (tok, x) in BTN_TO_MOD
    ensures Tone(tok) == Some(x)
            <==> (tok, x) in BADGE_TO_TONE
                 || (x == "dc-ds-badge--neutral" && "badge-" <= tok && tok != "badge-sm" && !HasKey(BADGE_TO_TONE, tok))
  {
    TablesDistinct();
    FindExactly(BTN_TO_MOD, tok, x);
    FindExactly(BADGE_TO_TONE, tok, x);
    KeysByPrefix(tok);
    RecognisedText(tok);
  }

  ghost predicate SomeButton(ts: seq<string>) {
    exists k :: 0 <= k < |ts| && ButtonText(ts[k])
  }

  ghost predicate SomeBadge(ts: seq<string>) {
    exists k :: 0 <= k < |ts| && "badge-" <= ts[k]
  }

  /** A fragment of nothing but legacy tokens, whose base tokens stand elsewhere. */
  ghost predicate Bare(ts: seq<string>, fragment: bool) {
    fragment && forall k :: 0 <= k < |ts| ==> ButtonText(ts[k]) || "badge-" <= ts[k]
  }

  lemma {:induction false} SightsText(ts: seq<string>, fragment: bool)
    ensures HasButton(ts) <==> SomeButton(ts)
    ensures HasBadge(ts) <==> SomeBadge(ts)
    ensures fragment && OnlyLegacy(ts) <==> Bare(ts, fragment)
  {
    forall k | 0 <= k < |ts|
      ensures (IsButton(ts[k]) <==> ButtonText(ts[k])) && (IsBadge(ts[k]) <==> "badge-" <= ts[k])
    {
      RecognisedText(ts[k]);
    }
  }

  lemma {:induction false} ImagesText(ts: seq<string>, t: string)
    ensures t in Mods(ts) <==> exists k :: 0 <= k < |ts| && (ts[k], t) in BTN_TO_MOD
    ensures t in Tones(ts)
            <==> || (exists k :: 0 <= k < |ts| && (ts[k], t) in BADGE_TO_TONE)
                 || (t == "dc-ds-badge--neutral" && exists k :: 0 <= k < |ts| && UnknownBadge(ts[k]))
  {
    ImagesElements(ts, Mod);
    ImagesElements(ts, Tone);
    forall k | 0 <= k < |ts|
      ensures Mod(ts[k]) == Some(t) <==> (ts[k], t) in BTN_TO_MOD
      ensures Tone(ts[k]) == Some(t)
              <==> (ts[k], t) in BADGE_TO_TONE || (t == "dc-ds-badge--neutral" && UnknownBadge(ts[k]))
    {
      ToneText(ts[k], t);
    }
  }

  /** A badge token that the table does not know. */
  ghost predicate UnknownBadge(tok: string) {
    "badge-" <= tok && tok != "badge-sm" && !HasKey(BADGE_TO_TONE, tok)
  }

  lemma {:induction false} OutputTokens(ts: seq<string>, fragment: bool, t: string)
    requires AllWords(ts)
    ensures t in MigratedTokens(ts, fragment)
            <==> || (t in ts && !Recognised(t)) || t in Mods(ts) || t in Tones(ts)
                 || (t == "dc-ds-button" && HasButton(ts) && !(fragment && OnlyLegacy(ts)))
                 || (t in {"dc-ds-badge", "dc-ds-badge--sm"} && HasBadge(ts) && !(fragment && OnlyLegacy(ts)))
  {
    MigratedTokensAre(ts, fragment);
  }

  /** The tokens of the result, exactly: the words of the value that are neither "btn" nor a key nor begin with
      "badge-"; the replacements of the keys among them; the neutral tone for a badge the table does not know;
      and the base tokens, except for a fragment of nothing but legacy tokens. */
  lemma {:induction false} OutputTokensExactly(ts: seq<string>, fragment: bool, t: string)
    requires AllWords(ts)
    ensures t in MigratedTokens(ts, fragment)
            <==> || (t in ts && t != "btn" && !HasKey(BTN_TO_MOD, t) && !("badge-" <= t))
                 || (exists k :: 0 <= k < |ts| && (ts[k], t) in BTN_TO_MOD)
                 || (exists k :: 0 <= k < |ts| && (ts[k], t) in BADGE_TO_TONE)
                 || (t == "dc-ds-badge--neutral" && exists k :: 0 <= k < |ts| && UnknownBadge(ts[k]))
                 || (t == "dc-ds-button" && SomeButton(ts) && !Bare(ts, fragment))
                 || (t in {"dc-ds-badge", "dc-ds-badge--sm"} && SomeBadge(ts) && !Bare(ts, fragment))
  {
    OutputTokens(ts, fragment, t);
    RecognisedText(t);
    SightsText(ts, fragment);
    ImagesText(ts, t);
  }

  /** No legacy token is left in the result. */
  lemma {:induction false} NoLegacyText(value: string, fragment: bool, t: string)
    requires t in Split(Migrated(value, fragment))
    ensures t != "btn" && !HasKey(BTN_TO_MOD, t) && !HasKey(BADGE_TO_TONE, t) && !("badge-" <= t)
  {
    MigratedWords(value, fragment);
    MigratedTokensAre(Split(value), fragment);
    RecognisedText(t);
    KeysByPrefix(t);
  }

  /** Splitting the result gives the tokens of the result. */
  lemma {:induction false} MigratedWords(value: string, fragment: bool)
    ensures Split(Migrated(value, fragment))
            == if Split(value) == [] then [] else MigratedTokens(Split(value), fragment)
  {
    if Split(value) != [] {
      var out := MigratedTokens(Split(value), fragment);
      MigratedTokensAre(Split(value), fragment);
      forall i | 0 <= i < |out| ensures IsWord(out[i]) { assert out[i] in out; }
      SplitOfJoin(out);
    }
  }

  /** The untouched tokens keep the order of their first occurrences. */
  lemma {:induction false} UntouchedKeepTheirOrder(ts: seq<string>, fragment: bool)
    requires AllWords(ts)
    ensures Keep(MigratedTokens(ts, fragment), iset t | t in ts && !Recognised(t)) == Dedupe(Keep(ts, UNTOUCHED))
  {
    var start := Keep(ts, UNTOUCHED);
    var untouched := iset t | t in ts && !Recognised(t);
    KeepElements(ts, UNTOUCHED);
    assert (iset t | t in start) == untouched;
    if fragment && OnlyLegacy(ts) {
      KeepsNone(ts, UNTOUCHED);
      KeepsNone(MigratedTokens(ts, fragment), untouched);
    } else {
      AssembledGrows(ts);
      KeepDedupe(Assembled(ts), untouched);
    }
  }

  function NotIn(out: seq<string>, xs: seq<string>): seq<string> {
    if xs == [] then []
    else NotIn(out, xs[..|xs| - 1]) + (if xs[|xs| - 1] in out then [] else [xs[|xs| - 1]])
  }

  function Reverse(xs: seq<string>): seq<string> {
    if xs == [] then [] else [xs[|xs| - 1]] + Reverse(xs[..|xs| - 1])
  }

  lemma {:induction false} ReverseElements(xs: seq<string>)
    ensures |Reverse(xs)| == |xs| && forall x :: x in Reverse(xs) <==> x in xs
  {
    if xs == [] {
    } else {
      ReverseElements(xs[..|xs| - 1]);
      assert xs == xs[..|xs| - 1] + [xs[|xs| - 1]];
    }
  }

  lemma {:induction false} NotInElements(out: seq<string>, xs: seq<string>)
    ensures forall x :: x in NotIn(out, xs) <==> x in xs && x !in out
  {
    if xs == [] {
    } else {
      NotInElements(out, xs[..|xs| - 1]);
      assert xs == xs[..|xs| - 1] + [xs[|xs| - 1]];
    }
  }

  lemma {:induction false} NotInLast(out: seq<string>, xs: seq<string>, x: string)
    ensures NotIn(out, xs + [x]) == if x in out then NotIn(out, xs) else NotIn(out, xs) + [x]
  {
    assert (xs + [x])[..|xs|] == xs;
    assert NotIn(out, xs) + [] == NotIn(out, xs);
  }

  lemma {:induction false} IndexOfFirst(xs: seq<string>, x: string, i: nat)
    requires i < |xs| && xs[i] == x && forall k :: 0 <= k < i ==> xs[k] != x
    ensures IndexOf(xs, x) == Some(i)
  {
    if i == 0 {
    } else {
      IndexOfFirst(xs[1..], x, i - 1);
    }
  }

  /** `head` ends with its only anchor. */
  ghost predicate EndsWithAnchor(head: seq<string>, anchor: string) {
    head != [] && head[|head| - 1] == anchor && forall k :: 0 <= k < |head| - 1 ==> head[k] != anchor
  }

  lemma {:induction false} InsertedBehind(head: seq<string>, rest: seq<string>, anchor: string, x: string)
    requires EndsWithAnchor(head, anchor)
    ensures InsertAfter(head + rest, anchor, x) == head + ([x] + rest)
  {
    var all := head + rest;
    IndexOfFirst(all, anchor, |head| - 1);
    assert all[..|head|] == head && all[|head|..] == rest;
    assert head + [x] + rest == head + ([x] + rest);
  }

  lemma {:induction false} InsertedBehindButton(head: seq<string>, group: seq<string>, rest: seq<string>, mod: string)
    requires EndsWithAnchor(head, BUTTON)
    ensures InsertAfter(head + (group + rest), BUTTON, mod) == head + (([mod] + group) + rest)
  {
    InsertedBehind(head, group + rest, BUTTON, mod);
    assert [mod] + (group + rest) == ([mod] + group) + rest;
  }

  /** The modifiers that were not there yet stand right behind the first dc-ds-button, the last one found first. */
  lemma {:induction false} ModsFollowTheButton(head: seq<string>, rest: seq<string>, mods: seq<string>)
    requires EndsWithAnchor(head, BUTTON) && NoDup(mods)
    ensures InsertMods(head + rest, mods) == head + (Reverse(NotIn(head + rest, mods)) + rest)
  {
    var out := head + rest;
    if mods == [] {
      assert Reverse(NotIn(out, mods)) + rest == rest;
    } else {
      var init, mod := mods[..|mods| - 1], mods[|mods| - 1];
      assert mods == init + [mod];
      ModsFollowTheButton(head, rest, init);
      NextModFollows(head, rest, init, mod);
    }
  }

  lemma {:induction false} NextModFollows(head: seq<string>, rest: seq<string>, mods: seq<string>, mod: string)
    requires EndsWithAnchor(head, BUTTON) && mod !in mods
    requires InsertMods(head + rest, mods) == head + (Reverse(NotIn(head + rest, mods)) + rest)
    ensures InsertMods(head + rest, mods + [mod]) == head + (Reverse(NotIn(head + rest, mods + [mod])) + rest)
  {
    var out := head + rest;
    var group := Reverse(NotIn(out, mods));
    StillNotIn(head, rest, mods, mod);
    NotInLast(out, mods, mod);
    InsertModsLast(out, mods, mod);
    if mod !in out {
      InsertedBehindButton(head, group, rest, mod);
      ReverseAppended(NotIn(out, mods), mod);
    }
  }

  lemma {:induction false} InsertModsLast(out: seq<string>, mods: seq<string>, mod: string)
    ensures var before := InsertMods(out, mods);
            InsertMods(out, mods + [mod]) == if mod in before then before else InsertAfter(before, BUTTON, mod)
  {
    assert (mods + [mod])[..|mods|] == mods;
  }

  lemma {:induction false} StillNotIn(head: seq<string>, rest: seq<string>, xs: seq<string>, x: string)
    requires x !in xs
    ensures x in head + (Reverse(NotIn(head + rest, xs)) + rest) <==> x in head + rest
  {
    NotInElements(head + rest, xs);
    ReverseElements(NotIn(head + rest, xs));
  }

  lemma {:induction false} ReverseAppended(xs: seq<string>, x: string)
    ensures Reverse(xs + [x]) == [x] + Reverse(xs)
  {
    assert (xs + [x])[..|xs|] == xs;
  }

  lemma {:induction false} AppendedBehind(out: seq<string>, xs: seq<string>)
    requires NoDup(xs)
    ensures AppendNew(out, xs) == out + NotIn(out, xs)
  {
    if xs == [] {
    } else {
      var init, x := xs[..|xs| - 1], xs[|xs| - 1];
      assert xs == init + [x] && x !in init;
      AppendedBehind(out, init);
      NotInElements(out, init);
      NotInLast(out, init, x);
      assert x in out + NotIn(out, init) <==> x in out;
      assert out + NotIn(out, init) + [x] == out + (NotIn(out, init) + [x]);
    }
  }

  /** A badge's tokens stand in this order: the base token, where it was or else at the very front; the size right
      behind it, unless there is one already; and at the end the tones that are still missing. */
  lemma {:induction false} BadgeLayout(head: seq<string>, rest: seq<string>, tones: seq<string>)
    requires NoDup(tones) && (if BADGE in head + rest then EndsWithAnchor(head, BADGE) else head == [])
    ensures var out, base := head + rest, if head == [] then [BADGE] else head;
            var badged := base + (if SMALL_BADGE in out then rest else [SMALL_BADGE] + rest);
            WithBadge(out, tones) == badged + NotIn(badged, tones)
  {
    var out, base := head + rest, if head == [] then [BADGE] else head;
    assert BADGE !in out ==> out == rest;
    assert Ahead(out, BADGE) == base + rest;
    assert SMALL_BADGE in base + rest <==> SMALL_BADGE in out by { assert BADGE[|BADGE|..] != SMALL_BADGE[|BADGE|..]; }
    InsertedBehind(base, rest, BADGE, SMALL_BADGE);
    AppendedBehind(base + (if SMALL_BADGE in out then rest else [SMALL_BADGE] + rest), tones);
  }

  /** Some token gives x before any gives y. */
  ghost predicate GivenBefore(ts: seq<string>, image: string -> Option<string>, x: string, y: string) {
    exists k :: 0 <= k < |ts| && image(ts[k]) == Some(x) && GivesNone(ts, image, k, y)
  }

  ghost predicate GivesNone(ts: seq<string>, image: string -> Option<string>, k: nat, y: string)
    requires k < |ts|
  {
    forall m :: 0 <= m <= k ==> image(ts[m]) != Some(y)
  }

  lemma {:induction false} GivenBeforeLonger(ts: seq<string>, image: string -> Option<string>, x: string, y: string)
    requires ts != [] && GivenBefore(ts[..|ts| - 1], image, x, y)
    ensures GivenBefore(ts, image, x, y)
  {
    var init := ts[..|ts| - 1];
    var k :| 0 <= k < |init| && image(init[k]) == Some(x) && GivesNone(init, image, k, y);
    forall m | 0 <= m <= k ensures image(ts[m]) != Some(y) { assert ts[m] == init[m]; }
    assert GivesNone(ts, image, k, y);
  }

  lemma {:induction false} LastIsNew(ts: seq<string>, image: string -> Option<string>, x: string, y: string)
    requires ts != [] && x in Images(ts[..|ts| - 1], image) && y !in Images(ts[..|ts| - 1], image)
    ensures GivenBefore(ts, image, x, y)
  {
    var init := ts[..|ts| - 1];
    ImagesElements(init, image);
    var k :| 0 <= k < |init| && image(init[k]) == Some(x);
    forall m | 0 <= m <= k ensures image(ts[m]) != Some(y) { assert ts[m] == init[m]; }
    assert ts[k] == init[k] && GivesNone(ts, image, k, y);
  }

  /** Modifiers and tones are collected once each, in the order in which the value first asks for them. */
  lemma {:induction false} ImagesInOrder(ts: seq<string>, image: string -> Option<string>)
    ensures NoDup(Images(ts, image))
    ensures forall i, j :: 0 <= i < j < |Images(ts, image)| ==>
              GivenBefore(ts, image, Images(ts, image)[i], Images(ts, image)[j])
  {
    if ts == [] {
    } else {
      var init := ts[..|ts| - 1];
      var before, xs := Images(init, image), Images(ts, image);
      ImagesInOrder(init, image);
      forall i, j | 0 <= i < j < |xs| ensures GivenBefore(ts, image, xs[i], xs[j]) {
        if j < |before| {
          GivenBeforeLonger(ts, image, xs[i], xs[j]);
        } else {
          LastIsNew(ts, image, xs[i], xs[j]);
        }
      }
    }
  }

  function Itself(t: string): Option<string> {
    if t == "" then None else Some(t)
  }

  /** Removing duplicates leaves each non-empty token at the place of its first occurrence. */
  lemma {:induction false} DedupeInOrder(ts: seq<string>)
    ensures NoDup(Dedupe(ts)) && forall t :: t in Dedupe(ts) <==> t in ts && t != ""
    ensures forall i, j :: 0 <= i < j < |Dedupe(ts)| ==> GivenBefore(ts, Itself, Dedupe(ts)[i], Dedupe(ts)[j])
  {
    DedupeElements(ts);
    DedupeIsImages(ts);
    ImagesInOrder(ts, Itself);
  }

  lemma {:induction false} DedupeIsImages(ts: seq<string>)
    ensures Dedupe(ts) == Images(ts, Itself)
  {
    if ts == [] {
    } else {
      DedupeIsImages(ts[..|ts| - 1]);
    }
  }

  lemma {:induction false} NothingToMigrate(ts: seq<string>, fragment: bool)
    requires ts != [] && NoDup(ts) && AllWords(ts) && forall t :: t in ts ==> !Recognised(t)
    ensures MigratedTokens(ts, fragment) == ts
  {
    assert ts[0] in ts;
    KeepsAll(ts, UNTOUCHED);
    DedupeOfDistinct(ts);
    forall i | 0 <= i < |ts| ensures !Recognised(ts[i]) { assert ts[i] in ts; }
  }

  /** Rewriting a value a second time, in either mode, changes nothing. */
  lemma {:induction false} MigrationIsIdempotent(value: string, fragment: bool, again: bool)
    ensures Migrated(Migrated(value, fragment), again) == Migrated(value, fragment)
  {
    var ts := Split(value);
    if ts != [] {
      MigratedTokensAre(ts, fragment);
      MigratedWords(value, fragment);
      var out := MigratedTokens(ts, fragment);
      if out != [] { NothingToMigrate(out, again); }
    }
  }
}
