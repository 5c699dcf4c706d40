/** The two tables of legacy class tokens and what replaces them, in the order of the source. */
module LegacyTables {
  import opened Outcomes
  import opened Text

  type Table = seq<(string, string)>

  /** Legacy suffixes and modifiers of buttons. */
  const PLAIN_BUTTONS: Table := [
    ("cta", "primary"), ("primary-grad", "primary"), ("primary", "primary"),
    ("quiet", "quiet"), ("ghost", "quiet"), ("secondary", "quiet")
  ]
  const SOFT_BUTTONS: Table := [
    ("soft-primary", "soft"), ("soft", "soft"), ("soft-accent", "soft"), ("link", "link")
  ]
  const OTHER_BUTTONS: Table := [
    ("danger", "danger"), ("danger-soft", "danger-soft"),
    ("sm", "sm"), ("lg", "lg"), ("soft-primary-primary", "soft")
  ]
  const BTN_TO_MOD: Table := Prefixed("btn-", PLAIN_BUTTONS + SOFT_BUTTONS + OTHER_BUTTONS, "dc-ds-button--")

  /** Legacy suffixes and tones of badges. */
  const COLOUR_BADGES: Table := [
    ("green", "success"), ("blue", "progress"), ("yellow", "attention"),
    ("red", "danger"), ("purple", "special"), ("gray", "neutral")
  ]
  const MEANING_BADGES: Table := [
    ("success", "success"), ("warning", "attention"), ("danger", "danger"),
    ("info", "progress"), ("neutral", "neutral")
  ]
  const BADGE_TO_TONE: Table := Prefixed("badge-", COLOUR_BADGES + MEANING_BADGES, "dc-ds-badge--")

  function Prefixed(p: string, t: Table, q: string): (r: Table)
    ensures |r| == |t| && forall i :: 0 <= i < |t| ==> r[i] == (p + t[i].0, q + t[i].1)
  {
    seq(|t|, i requires 0 <= i < |t| => (p + t[i].0, q + t[i].1))
  }

  function Find(t: Table, key: string): Option<string> {
    if t == [] then None else if t[0].0 == key then Some(t[0].1) else Find(t[1..], key)
  }

  predicate IsLower(c: char) {
    'a' <= c <= 'z' || c == '-'
  }

  /** Lower-case letters and hyphens only: a word both for str.split and for the [\w-] runs of the regexes. */
  predicate Plain(s: string) {
    s != "" && forall i :: 0 <= i < |s| ==> IsLower(s[i])
  }

  /** Keys begin with b, replacements with d, so no replacement is ever a key. */
  predicate Separated(t: Table) {
    forall i :: 0 <= i < |t| ==> Plain(t[i].0) && t[i].0[0] == 'b' && Plain(t[i].1) && t[i].1[0] == 'd'
  }

  lemma {:induction false} PlainIsWord(s: string)
    requires Plain(s)
    ensures IsWord(s)
  {
  }

  lemma {:induction false} FindIn(t: Table, key: string)
    ensures Find(t, key).Some? ==> exists i :: 0 <= i < |t| && t[i] == (key, Find(t, key).value)
    ensures Find(t, key).None? <==> forall i :: 0 <= i < |t| ==> t[i].0 != key
  {
    if t != [] && t[0].0 != key {
      FindIn(t[1..], key);
      assert forall i :: 0 < i < |t| ==> t[i] == t[1..][i - 1];
      if Find(t, key).Some? {
        var i :| 0 <= i < |t[1..]| && t[1..][i] == (key, Find(t, key).value);
        assert t[i + 1] == (key, Find(t, key).value);
      }
    }
  }

  ghost predicate HasKey(t: Table, key: string) {
    exists i :: 0 <= i < |t| && t[i].0 == key
  }

  ghost predicate DistinctKeys(t: Table) {
    forall i, j :: 0 <= i < j < |t| ==> t[i].0 != t[j].0
  }

  /** Looking a key up finds its own entry. */
  lemma {:induction false} FindExactly(t: Table, key: string, value: string)
    requires DistinctKeys(t)
    ensures Find(t, key) == Some(value) <==> (key, value) in t
    ensures Find(t, key).Some? <==> HasKey(t, key)
  {
    FindIn(t, key);
    if (key, value) in t {
      var i :| 0 <= i < |t| && t[i] == (key, value);
      assert t[i].0 == key;
    }
  }

  ghost predicate AllPlain(t: Table) {
    forall i :: 0 <= i < |t| ==> Plain(t[i].0) && Plain(t[i].1)
  }

  lemma {:induction false} PlainButtons()
    ensures AllPlain(PLAIN_BUTTONS)
  {
  }

  lemma {:induction false} SoftButtons()
    ensures AllPlain(SOFT_BUTTONS)
  {
  }

  lemma {:induction false} OtherButtons()
    ensures AllPlain(OTHER_BUTTONS)
  {
  }

  lemma {:induction false} ColourBadges()
    ensures AllPlain(COLOUR_BADGES)
  {
  }

  lemma {:induction false} MeaningBadges()
    ensures AllPlain(MEANING_BADGES)
  {
  }

  lemma {:induction false} PrefixedSeparated(p: string, t: Table, q: string)
    requires Plain(p) && p[0] == 'b' && AllPlain(t) && Plain(q) && q[0] == 'd'
    ensures Separated(Prefixed(p, t, q))
  {
  }

  lemma {:induction false} TablesSeparated()
    ensures Separated(BTN_TO_MOD) && Separated(BADGE_TO_TONE)
  {
    PlainButtons();
    SoftButtons();
    OtherButtons();
    ColourBadges();
    MeaningBadges();
    PrefixedSeparated("btn-", PLAIN_BUTTONS + SOFT_BUTTONS + OTHER_BUTTONS, "dc-ds-button--");
    PrefixedSeparated("badge-", COLOUR_BADGES + MEANING_BADGES, "dc-ds-badge--");
  }

  lemma {:induction false} PrefixedDistinct(p: string, t: Table, q: string)
    requires DistinctKeys(t)
    ensures DistinctKeys(Prefixed(p, t, q))
  {
    forall i, j | 0 <= i < j < |t| ensures p + t[i].0 != p + t[j].0 {
      assert (p + t[i].0)[|p|..] == t[i].0 && (p + t[j].0)[|p|..] == t[j].0;
    }
  }

  lemma {:induction false} TablesDistinct()
    ensures DistinctKeys(BTN_TO_MOD) && DistinctKeys(BADGE_TO_TONE)
    ensures forall i :: 0 <= i < |BADGE_TO_TONE| ==> BADGE_TO_TONE[i].0 != "badge-sm"
  {
    ButtonKeysDistinct();
    BadgeKeysDistinct();
    PrefixedDistinct("btn-", PLAIN_BUTTONS + SOFT_BUTTONS + OTHER_BUTTONS, "dc-ds-button--");
    PrefixedDistinct("badge-", COLOUR_BADGES + MEANING_BADGES, "dc-ds-badge--");
    forall i | 0 <= i < |BADGE_TO_TONE| ensures BADGE_TO_TONE[i].0 != "badge-sm" {
      assert BADGE_TO_TONE[i].0[|"badge-"|..] == (COLOUR_BADGES + MEANING_BADGES)[i].0;
      assert "badge-sm"[|"badge-"|..] == "sm";
    }
  }

  lemma {:induction false} ButtonKeysDistinct()
    ensures DistinctKeys(PLAIN_BUTTONS + SOFT_BUTTONS + OTHER_BUTTONS)
  {
  }

  lemma {:induction false} BadgeKeysDistinct()
    ensures DistinctKeys(COLOUR_BADGES + MEANING_BADGES)
    ensures forall i :: 0 <= i < |COLOUR_BADGES + MEANING_BADGES| ==> (COLOUR_BADGES + MEANING_BADGES)[i].0 != "sm"
  {
  }

  /** Keys of the two tables cannot be confused: they begin with "btn-" and "badge-". */
  lemma {:induction false} KeysByPrefix(key: string)
    ensures HasKey(BTN_TO_MOD, key) ==> "btn-" <= key && !("badge-" <= key)
    ensures HasKey(BADGE_TO_TONE, key) ==> "badge-" <= key
  {
    if HasKey(BTN_TO_MOD, key) {
      assert "btn-"[1] != "badge-"[1];
      assert "btn-" <= key && key[1] == "btn-"[1];
    }
  }

  /** The entries, in full. */
  lemma {:induction false} ButtonEntries()
    ensures BTN_TO_MOD == [
              ("btn-cta", "dc-ds-button--primary"), ("btn-primary-grad", "dc-ds-button--primary"),
              ("btn-primary", "dc-ds-button--primary"), ("btn-quiet", "dc-ds-button--quiet"),
              ("btn-ghost", "dc-ds-button--quiet"), ("btn-secondary", "dc-ds-button--quiet"),
              ("btn-soft-primary", "dc-ds-button--soft"), ("btn-soft", "dc-ds-button--soft"),
              ("btn-soft-accent", "dc-ds-button--soft"), ("btn-link", "dc-ds-button--link"),
              ("btn-danger", "dc-ds-button--danger"), ("btn-danger-soft", "dc-ds-button--danger-soft"),
              ("btn-sm", "dc-ds-button--sm"), ("btn-lg", "dc-ds-button--lg"),
              ("btn-soft-primary-primary", "dc-ds-button--soft")]
  {
    assert "btn-" + "cta" == "btn-cta";
    assert "btn-" + "primary-grad" == "btn-primary-grad";
    assert "btn-" + "primary" == "btn-primary";
    assert "btn-" + "quiet" == "btn-quiet";
    assert "btn-" + "ghost" == "btn-ghost";
    assert "btn-" + "secondary" == "btn-secondary";
    assert "btn-" + "soft-primary" == "btn-soft-primary";
    assert "btn-" + "soft" == "btn-soft";
    assert "btn-" + "soft-accent" == "btn-soft-accent";
    assert "btn-" + "link" == "btn-link";
    assert "btn-" + "danger" == "btn-danger";
    assert "btn-" + "danger-soft" == "btn-danger-soft";
    assert "btn-" + "sm" == "btn-sm";
    assert "btn-" + "lg" == "btn-lg";
    assert "btn-" + "soft-primary-primary" == "btn-soft-primary-primary";
    assert "dc-ds-button--" + "primary" == "dc-ds-button--primary";
    assert "dc-ds-button--" + "quiet" == "dc-ds-button--quiet";
    assert "dc-ds-button--" + "soft" == "dc-ds-button--soft";
    assert "dc-ds-button--" + "link" == "dc-ds-button--link";
    assert "dc-ds-button--" + "danger" == "dc-ds-button--danger";
    assert "dc-ds-button--" + "danger-soft" == "dc-ds-button--danger-soft";
    assert "dc-ds-button--" + "sm" == "dc-ds-button--sm";
    assert "dc-ds-button--" + "lg" == "dc-ds-button--lg";
  }

  lemma {:induction false} BadgeEntries()
    ensures BADGE_TO_TONE == [
              ("badge-green", "dc-ds-badge--success"), ("badge-blue", "dc-ds-badge--progress"),
              ("badge-yellow", "dc-ds-badge--attention"), ("badge-red", "dc-ds-badge--danger"),
              ("badge-purple", "dc-ds-badge--special"), ("badge-gray", "dc-ds-badge--neutral"),
              ("badge-success", "dc-ds-badge--success"), ("badge-warning", "dc-ds-badge--attention"),
              ("badge-danger", "dc-ds-badge--danger"), ("badge-info", "dc-ds-badge--progress"),
              ("badge-neutral", "dc-ds-badge--neutral")]
  {
    assert "badge-" + "green" == "badge-green";
    assert "badge-" + "blue" == "badge-blue";
    assert "badge-" + "yellow" == "badge-yellow";
    assert "badge-" + "red" == "badge-red";
    assert "badge-" + "purple" == "badge-purple";
    assert "badge-" + "gray" == "badge-gray";
    assert "badge-" + "success" == "badge-success";
    assert "badge-" + "warning" == "badge-warning";
    assert "badge-" + "danger" == "badge-danger";
    assert "badge-" + "info" == "badge-info";
    assert "badge-" + "neutral" == "badge-neutral";
    assert "dc-ds-badge--" + "success" == "dc-ds-badge--success";
    assert "dc-ds-badge--" + "progress" == "dc-ds-badge--progress";
    assert "dc-ds-badge--" + "attention" == "dc-ds-badge--attention";
    assert "dc-ds-badge--" + "danger" == "dc-ds-badge--danger";
    assert "dc-ds-badge--" + "special" == "dc-ds-badge--special";
    assert "dc-ds-badge--" + "neutral" == "dc-ds-badge--neutral";
  }
}
