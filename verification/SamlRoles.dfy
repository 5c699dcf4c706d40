/** The organisation role inferred from SAML attributes by searching one joined text of tokens. */
module SamlRoles {
  import opened Outcomes
  import opened Text

  /** The entry 'value' of a dictionary; a list, set or dictionary in its place cannot be hashed, which raises. */
  datatype Entry = Missing | Plain(text: string) | Unhashable

  datatype Raised = TypeError

  /** An attribute value: None, a scalar, a dictionary of which only the entry 'value' counts, or a collection. */
  datatype Value = Nothing | Scalar(text: string) | Dictionary(entry: Entry) | Many(values: seq<Value>)

  type Attributes = seq<(string, Value)>

  datatype Role = MEMBER | ADMIN | OWNER {
    function Rank(): nat {
      match this case MEMBER => 0 case ADMIN => 1 case OWNER => 2
    }
  }

  const ROLE_KEYS: set<string> := {
    "role", "roles", "groups", "memberof", "member_of", "http://schemas.microsoft.com/ws/2008/06/identity/claims/role"}

  const OWNER_NEEDLES: seq<string> := ["owner", "superuser", "super-admin", "superadmin"]
  const ADMIN_NEEDLES: seq<string> := ["admin", "administrator", "legal-admin", "org-admin"]

  function Flattened(v: Value): seq<string> {
    match v
    case Nothing => []
    case Scalar(text) => if text != "" then [text] else []
    case Dictionary(entry) => if entry.Plain? && entry.text != "" then [entry.text] else []
    case Many(values) => FlattenedAll(values)
  }

  /** Flattening does not raise. */
  predicate Flat(v: Value) {
    match v
    case Dictionary(entry) => !entry.Unhashable?
    case Many(values) => forall i :: 0 <= i < |values| ==> Flat(values[i])
    case _ => true
  }

  function FlattenedAll(vs: seq<Value>): seq<string> {
    if vs == [] then [] else FlattenedAll(vs[..|vs| - 1]) + Flattened(vs[|vs| - 1])
  }

  function Spaced(s: string): string {
    seq(|s|, i requires 0 <= i < |s| => if s[i] == ',' || s[i] == ';' then ' ' else s[i])
  }

  function Words(s: string): seq<string> {
    Split(Spaced(s))
  }

  ghost predicate FromAttribute(attribute: (string, Value), token: string) {
    Lower(attribute.0) in ROLE_KEYS
    && exists text, word :: text in Flattened(attribute.1) && word in Words(text) && token == Lower(word)
  }

  /** The tokens of all role attributes. */
  ghost predicate IsToken(attributes: Attributes, token: string) {
    exists i :: 0 <= i < |attributes| && FromAttribute(attributes[i], token)
  }

  // ---- the code ----

  method FlattenAttributeValues(v: Value) returns (flattened: Result<seq<string>, Raised>)
    ensures flattened == if Flat(v) then Ok(Flattened(v)) else Error(TypeError)
    decreases v
  {
    match v {
      case Nothing => return Ok([]);
      case Scalar(text) => return Ok(if text != "" then [text] else []);
      case Dictionary(Missing) => return Ok([]);
      case Dictionary(Plain(text)) => return Ok(if text != "" then [text] else []);
      case Dictionary(Unhashable) => return Error(TypeError);
      case Many(values) =>
        var texts: seq<string> := [];
        for i := 0 to |values|
          invariant texts == FlattenedAll(values[..i]) && forall j :: 0 <= j < i ==> Flat(values[j])
        {
          assert values[..i + 1][..i] == values[..i];
          var more := FlattenAttributeValues(values[i]);
          if more.Error? { return more; }
          texts := texts + more.value;
        }
        assert values[..|values|] == values;
        return Ok(texts);
    }
  }

  method TokensOfText(text: string) returns (tokens: set<string>)
    ensures forall t :: t in tokens <==> exists word :: word in Words(text) && t == Lower(word)
  {
    tokens := {};
    var words := Words(text);
    for i := 0 to |words|
      invariant forall t :: t in tokens <==> exists j :: 0 <= j < i && t == Lower(words[j])
    {
      var normalized := Lower(words[i]);
      if normalized != "" { tokens := tokens + {normalized}; }
    }
    assert forall word :: word in words <==> exists j :: 0 <= j < |words| && words[j] == word;
  }

  method TokensOfTexts(texts: seq<string>) returns (tokens: set<string>)
    ensures forall t :: t in tokens <==> exists text, word :: text in texts && word in Words(text) && t == Lower(word)
  {
    tokens := {};
    for i := 0 to |texts|
      invariant forall t :: t in tokens <==>
                  exists text, word :: text in texts[..i] && word in Words(text) && t == Lower(word)
    {
      var more := TokensOfText(texts[i]);
      assert texts[..i + 1] == texts[..i] + [texts[i]];
      tokens := tokens + more;
    }
    assert texts[..|texts|] == texts;
  }

  lemma {:induction false} OneMoreAttribute(attributes: Attributes, last: (string, Value))
    ensures forall t :: IsToken(attributes + [last], t) <==> IsToken(attributes, t) || FromAttribute(last, t)
  {
    var all := attributes + [last];
    forall t | IsToken(attributes, t) || FromAttribute(last, t) ensures IsToken(all, t) {
      if FromAttribute(last, t) {
        assert FromAttribute(all[|attributes|], t);
      } else {
        var i :| 0 <= i < |attributes| && FromAttribute(attributes[i], t);
        assert FromAttribute(all[i], t);
      }
    }
    forall t | IsToken(all, t) ensures IsToken(attributes, t) || FromAttribute(last, t) {
      var i :| 0 <= i < |all| && FromAttribute(all[i], t);
      assert i < |attributes| ==> FromAttribute(attributes[i], t);
    }
  }

  /** No role attribute makes the flattening raise. */
  ghost predicate Acceptable(attributes: Attributes) {
    forall i :: 0 <= i < |attributes| && Lower(attributes[i].0) in ROLE_KEYS ==> Flat(attributes[i].1)
  }

  method TokensOfAttribute(attribute: (string, Value)) returns (tokens: Result<set<string>, Raised>)
    ensures tokens.Ok? <==> (Lower(attribute.0) in ROLE_KEYS ==> Flat(attribute.1))
    ensures tokens.Ok? ==> forall t :: t in tokens.value <==> FromAttribute(attribute, t)
  {
    if Lower(attribute.0) !in ROLE_KEYS { return Ok({}); }
    var texts := FlattenAttributeValues(attribute.1);
    if texts.Error? { return Error(TypeError); }
    var found := TokensOfTexts(texts.value);
    return Ok(found);
  }

  method AttributeTokens(attributes: Attributes) returns (tokens: Result<set<string>, Raised>)
    ensures tokens.Ok? <==> Acceptable(attributes)
    ensures tokens.Ok? ==> forall t :: t in tokens.value <==> IsToken(attributes, t)
  {
    var found: set<string> := {};
    for i := 0 to |attributes|
      invariant forall t :: t in found <==> IsToken(attributes[..i], t)
      invariant forall j :: 0 <= j < i && Lower(attributes[j].0) in ROLE_KEYS ==> Flat(attributes[j].1)
    {
      assert attributes[..i + 1] == attributes[..i] + [attributes[i]];
      OneMoreAttribute(attributes[..i], attributes[i]);
      var more := TokensOfAttribute(attributes[i]);
      if more.Error? { return Error(TypeError); }
      found := found + more.value;
    }
    assert attributes[..|attributes|] == attributes;
    return Ok(found);
  }

  predicate AnyIn(needles: seq<string>, text: string) {
    exists i :: 0 <= i < |needles| && Contains(text, needles[i])
  }

  function RoleOfText(text: string): Role {
    if AnyIn(OWNER_NEEDLES, text) then OWNER else if AnyIn(ADMIN_NEEDLES, text) then ADMIN else MEMBER
  }

  /** `order` is the sorted list of the tokens; nothing depends on its being sorted. */
  method InferRole(attributes: Attributes, order: seq<string>) returns (role: Result<Role, Raised>)
    requires forall t :: t in order <==> IsToken(attributes, t)
    ensures role == Inferred(attributes)
  {
    var tokens := AttributeTokens(attributes);
    if tokens.Error? { return Error(TypeError); }
    JoinedTextDecides(attributes, order);
    return Ok(RoleOfText(Join(order)));
  }

  // ---- the joined text against single tokens ----

  ghost predicate SomeToken(attributes: Attributes, needles: seq<string>) {
    exists t :: IsToken(attributes, t) && AnyIn(needles, t)
  }

  /** What the inference means: a needle inside some single token. */
  ghost function RoleOfTokens(attributes: Attributes): Role {
    if SomeToken(attributes, OWNER_NEEDLES) then OWNER
    else if SomeToken(attributes, ADMIN_NEEDLES) then ADMIN
    else MEMBER
  }

  ghost function Inferred(attributes: Attributes): Result<Role, Raised> {
    if Acceptable(attributes) then Ok(RoleOfTokens(attributes)) else Error(TypeError)
  }

  ghost predicate Spaceless(needle: string) {
    needle != "" && ' ' !in needle
  }

  lemma {:induction false} NoSpaceInside(needle: string, s: string, at: int)
    requires Spaceless(needle) && OccursAt(needle, s, at)
    ensures forall k :: at <= k < at + |needle| ==> s[k] != ' '
  {
    forall k | at <= k < at + |needle| ensures s[k] != ' ' {
      assert s[k] == s[at..at + |needle|][k - at] == needle[k - at];
    }
  }

  lemma {:induction false} AcrossASpace(a: string, b: string, needle: string)
    requires Spaceless(needle)
    ensures Contains(a + " " + b, needle) <==> Contains(a, needle) || Contains(b, needle)
  {
    var s := a + " " + b;
    forall at | 0 <= at <= |s| && OccursAt(needle, s, at) ensures Contains(a, needle) || Contains(b, needle) {
      var end := at + |needle|;
      NoSpaceInside(needle, s, at);
      assert s[|a|] == ' ';
      if end <= |a| {
        assert OccursAt(needle, a, at) by { assert a[at..end] == s[at..end]; }
      } else {
        assert OccursAt(needle, b, at - |a| - 1) by { assert b[at - |a| - 1..end - |a| - 1] == s[at..end]; }
      }
    }
    forall at | 0 <= at <= |a| && OccursAt(needle, a, at) ensures Contains(s, needle) {
      assert OccursAt(needle, s, at) by { assert a[at..at + |needle|] == s[at..at + |needle|]; }
    }
    forall at | 0 <= at <= |b| && OccursAt(needle, b, at) ensures Contains(s, needle) {
      var moved := at + |a| + 1;
      assert OccursAt(needle, s, moved) by { assert b[at..at + |needle|] == s[moved..moved + |needle|]; }
    }
  }

  /** A needle without a space occurs in the joined text iff it occurs inside one of the tokens. */
  lemma {:induction false} NeedleInJoin(tokens: seq<string>, needle: string)
    requires Spaceless(needle)
    ensures Contains(Join(tokens), needle) <==> exists t :: t in tokens && Contains(t, needle)
  {
    if |tokens| == 1 {
      assert tokens[0] in tokens;
    } else if |tokens| > 1 {
      AcrossASpace(tokens[0], Join(tokens[1..]), needle);
      NeedleInJoin(tokens[1..], needle);
      assert tokens == [tokens[0]] + tokens[1..];
    }
  }

  lemma {:induction false} NeedlesSpaceless()
    ensures forall i :: 0 <= i < |OWNER_NEEDLES| ==> Spaceless(OWNER_NEEDLES[i])
    ensures forall i :: 0 <= i < |ADMIN_NEEDLES| ==> Spaceless(ADMIN_NEEDLES[i])
  {
    assert Spaceless("owner") && Spaceless("superuser") && Spaceless("super-admin") && Spaceless("superadmin");
    assert Spaceless("admin") && Spaceless("administrator") && Spaceless("legal-admin") && Spaceless("org-admin");
  }

  lemma {:induction false} AnyInJoin(tokens: seq<string>, needles: seq<string>)
    requires forall i :: 0 <= i < |needles| ==> Spaceless(needles[i])
    ensures AnyIn(needles, Join(tokens)) <==> exists t :: t in tokens && AnyIn(needles, t)
  {
    forall i | 0 <= i < |needles|
      ensures Contains(Join(tokens), needles[i]) <==> exists t :: t in tokens && Contains(t, needles[i])
    {
      NeedleInJoin(tokens, needles[i]);
    }
  }

  /** The role read off the joined text depends on the set of tokens alone, in whatever order they are joined. */
  lemma {:induction false} JoinedTextDecides(attributes: Attributes, order: seq<string>)
    requires forall t :: t in order <==> IsToken(attributes, t)
    ensures RoleOfText(Join(order)) == RoleOfTokens(attributes)
  {
    NeedlesSpaceless();
    AnyInJoin(order, OWNER_NEEDLES);
    AnyInJoin(order, ADMIN_NEEDLES);
  }

  lemma {:induction false} ContainsPart(text: string, needle: string, part: string, offset: nat)
    requires OccursAt(part, needle, offset) && Contains(text, needle)
    ensures Contains(text, part)
  {
    var at :| 0 <= at <= |text| && OccursAt(needle, text, at);
    forall k | 0 <= k < |part| ensures text[at + offset + k] == part[k] {
      assert text[at..at + |needle|][offset + k] == needle[offset..offset + |part|][k];
    }
    assert OccursAt(part, text, at + offset);
  }

  /** Three of the four administrator needles are redundant: the first occurs inside each of them. */
  lemma {:induction false} AdminNeedleSuffices(text: string)
    ensures AnyIn(ADMIN_NEEDLES, text) <==> Contains(text, "admin")
  {
    assert OccursAt("admin", "administrator", 0);
    assert OccursAt("admin", "legal-admin", 6) && OccursAt("admin", "org-admin", 4);
    if AnyIn(ADMIN_NEEDLES, text) {
      var i :| 0 <= i < |ADMIN_NEEDLES| && Contains(text, ADMIN_NEEDLES[i]);
      if i > 0 { ContainsPart(text, ADMIN_NEEDLES[i], "admin", if i == 1 then 0 else if i == 2 then 6 else 4); }
    } else {
      assert !Contains(text, ADMIN_NEEDLES[0]);
    }
  }

  // ---- more attribute values never lower the role ----

  lemma {:induction false} MoreTokensRankHigher(few: Attributes, many: Attributes)
    requires forall t :: IsToken(few, t) ==> IsToken(many, t)
    ensures RoleOfTokens(few).Rank() <= RoleOfTokens(many).Rank()
  {
  }

  lemma {:induction false} FlattenedAllElements(vs: seq<Value>, text: string)
    ensures text in FlattenedAll(vs) <==> exists i :: 0 <= i < |vs| && text in Flattened(vs[i])
  {
    if vs == [] {
    } else {
      var init := vs[..|vs| - 1];
      FlattenedAllElements(init, text);
      assert forall i :: 0 <= i < |init| ==> init[i] == vs[i];
    }
  }

  /** Adding an attribute, or further values to a multi-valued one, never lowers the role: what it can do is make
      the inference raise an error. */
  lemma {:induction false} AddingValuesNeverLowersTheRole(attributes: Attributes, extra: Attributes, i: nat,
      vs: seq<Value>, more: seq<Value>)
    requires i < |attributes| && attributes[i].1 == Many(vs)
    ensures var widened := attributes[i := (attributes[i].0, Many(vs + more))];
            Inferred(widened + extra).Ok? ==>
              && Inferred(attributes).Ok?
              && Inferred(attributes).value.Rank() <= Inferred(widened + extra).value.Rank()
  {
    AddingValuesKeepsTokens(attributes, extra, i, vs, more);
    var widened := attributes[i := (attributes[i].0, Many(vs + more))];
    if Acceptable(widened + extra) {
      forall k | 0 <= k < |attributes| && Lower(attributes[k].0) in ROLE_KEYS ensures Flat(attributes[k].1) {
        assert (widened + extra)[k] == widened[k] && Flat((widened + extra)[k].1);
        if k == i {
          forall j | 0 <= j < |vs| ensures Flat(vs[j]) { assert (vs + more)[j] == vs[j]; }
        }
      }
    }
  }

  lemma {:induction false} AddingValuesKeepsTokens(attributes: Attributes, extra: Attributes, i: nat,
                                                   vs: seq<Value>, more: seq<Value>)
    requires i < |attributes| && attributes[i].1 == Many(vs)
    ensures var widened := attributes[i := (attributes[i].0, Many(vs + more))];
            RoleOfTokens(attributes).Rank() <= RoleOfTokens(widened + extra).Rank()
  {
    var widened := attributes[i := (attributes[i].0, Many(vs + more))];
    forall t | IsToken(attributes, t) ensures IsToken(widened + extra, t) {
      var k :| 0 <= k < |attributes| && FromAttribute(attributes[k], t);
      var text, word :| text in Flattened(attributes[k].1) && word in Words(text) && t == Lower(word);
      if k == i {
        FlattenedAllElements(vs, text);
        FlattenedAllElements(vs + more, text);
        var j :| 0 <= j < |vs| && text in Flattened(vs[j]);
        assert (vs + more)[j] == vs[j];
      }
      assert text in Flattened((widened + extra)[k].1);
      assert FromAttribute((widened + extra)[k], t);
    }
    MoreTokensRankHigher(attributes, widened + extra);
  }

  // ---- the role in the attributes' own terms ----

  /** The value holds this text somewhere: itself, in the dictionary's entry 'value', or within a collection. */
  ghost predicate Holds(v: Value, text: string) {
    match v
    case Nothing => false
    case Scalar(t) => text == t != ""
    case Dictionary(entry) => entry == Plain(text) && text != ""
    case Many(values) => exists i :: 0 <= i < |values| && Holds(values[i], text)
  }

  /** Flattening finds exactly the texts a value holds. */
  lemma {:induction false} FlattenedHolds(v: Value, text: string)
    ensures text in Flattened(v) <==> Holds(v, text)
  {
    if v.Many? {
      FlattenedAllElements(v.values, text);
      forall i | 0 <= i < |v.values| ensures text in Flattened(v.values[i]) <==> Holds(v.values[i], text) {
        FlattenedHolds(v.values[i], text);
      }
    }
  }

  /** Somewhere in the value a dictionary has an entry that cannot be hashed. */
  ghost predicate HoldsUnhashable(v: Value) {
    v == Dictionary(Unhashable) || (v.Many? && exists i :: 0 <= i < |v.values| && HoldsUnhashable(v.values[i]))
  }

  lemma {:induction false} RaisesExactly(v: Value)
    ensures !Flat(v) <==> HoldsUnhashable(v)
  {
    if v.Many? {
      forall i | 0 <= i < |v.values| ensures !Flat(v.values[i]) <==> HoldsUnhashable(v.values[i]) {
        RaisesExactly(v.values[i]);
      }
    }
  }

  /** Commas and semicolons separate words as whitespace does. */
  lemma {:induction false} WordsAtSeparator(a: string, c: char, b: string)
    requires c == ',' || c == ';' || IsSpace(c)
    ensures Words(a + ([c] + b)) == Words(a) + Words(b)
  {
    var d := if IsSpace(c) then c else ' ';
    assert Spaced(a + ([c] + b)) == Spaced(a) + ([d] + Spaced(b));
    SplitAtSpace(Spaced(a), d, Spaced(b));
  }

  lemma {:induction false} WordsOfWord(w: string)
    requires IsWord(w) && ',' !in w && ';' !in w
    ensures Words(w) == [w]
  {
    assert Spaced(w) == w;
    SplitOfWord(w);
  }

  /** One of the attributes that carry roles holds a text with a word in which, in lower case, `needle` occurs. */
  ghost predicate Mentions(attributes: Attributes, needle: string) {
    exists i :: 0 <= i < |attributes| && MentionedIn(attributes[i], needle)
  }

  ghost predicate MentionedIn(attribute: (string, Value), needle: string) {
    && Lower(attribute.0) in {"role", "roles", "groups", "memberof", "member_of",
                              "http://schemas.microsoft.com/ws/2008/06/identity/claims/role"}
    && exists text, word :: Holds(attribute.1, text) && word in Words(text) && Contains(Lower(word), needle)
  }

  lemma {:induction false} MentionedToken(attribute: (string, Value), needle: string) returns (token: string)
    requires MentionedIn(attribute, needle)
    ensures FromAttribute(attribute, token) && Contains(token, needle)
  {
    var text, word :| Holds(attribute.1, text) && word in Words(text) && Contains(Lower(word), needle);
    FlattenedHolds(attribute.1, text);
    token := Lower(word);
  }

  lemma {:induction false} TokenMentioned(attribute: (string, Value), needle: string, token: string)
    requires FromAttribute(attribute, token) && Contains(token, needle)
    ensures MentionedIn(attribute, needle)
  {
    var text, word :| text in Flattened(attribute.1) && word in Words(text) && token == Lower(word);
    FlattenedHolds(attribute.1, text);
  }

  lemma {:induction false} MentionsToken(attributes: Attributes, needle: string)
    ensures Mentions(attributes, needle) <==> exists t :: IsToken(attributes, t) && Contains(t, needle)
  {
    if Mentions(attributes, needle) {
      var i :| 0 <= i < |attributes| && MentionedIn(attributes[i], needle);
      var token := MentionedToken(attributes[i], needle);
      assert IsToken(attributes, token);
    }
    if t :| IsToken(attributes, t) && Contains(t, needle) {
      var i :| 0 <= i < |attributes| && FromAttribute(attributes[i], t);
      TokenMentioned(attributes[i], needle, t);
    }
  }

  /** The role exactly: owner for a mention of one of four words, else administrator for a mention of "admin". */
  lemma {:induction false} RoleExactly(attributes: Attributes)
    ensures RoleOfTokens(attributes)
            == if Mentions(attributes, "owner") || Mentions(attributes, "superuser")
                  || Mentions(attributes, "super-admin") || Mentions(attributes, "superadmin") then OWNER
               else if Mentions(attributes, "admin") then ADMIN
               else MEMBER
  {
    OwnerMentions(attributes);
    MentionsToken(attributes, "admin");
    forall t ensures AnyIn(ADMIN_NEEDLES, t) <==> Contains(t, "admin") { AdminNeedleSuffices(t); }
  }

  lemma {:induction false} OwnerMentions(attributes: Attributes)
    ensures SomeToken(attributes, OWNER_NEEDLES)
            <==> Mentions(attributes, "owner") || Mentions(attributes, "superuser")
                 || Mentions(attributes, "super-admin") || Mentions(attributes, "superadmin")
  {
    MentionsToken(attributes, "owner");
    MentionsToken(attributes, "superuser");
    MentionsToken(attributes, "super-admin");
    MentionsToken(attributes, "superadmin");
    forall t ensures AnyIn(OWNER_NEEDLES, t) <==> Contains(t, "owner") || Contains(t, "superuser")
                                                  || Contains(t, "super-admin") || Contains(t, "superadmin")
    {
      OwnerNeedles(t);
    }
  }

  lemma {:induction false} OwnerNeedles(t: string)
    ensures AnyIn(OWNER_NEEDLES, t) <==> Contains(t, "owner") || Contains(t, "superuser")
                                         || Contains(t, "super-admin") || Contains(t, "superadmin")
  {
    assert OWNER_NEEDLES[0] == "owner" && OWNER_NEEDLES[1] == "superuser";
    assert OWNER_NEEDLES[2] == "super-admin" && OWNER_NEEDLES[3] == "superadmin";
  }
}
