/** The sidebar: hiding what the user may not see and dropping section headers left without items. */
module Navigation {
  import opened Outcomes

  datatype Child = Child(name: string, visible: bool)

  /** A configured entry; `visible` is the outcome of its permission check. */
  datatype Entry =
    | Section(name: string)
    | Item(name: string, visible: bool)
    | Group(name: string, visible: bool, children: seq<Child>)

  function VisibleChildren(cs: seq<Child>): seq<Child> {
    if cs == [] then []
    else VisibleChildren(cs[..|cs| - 1]) + (if cs[|cs| - 1].visible then [cs[|cs| - 1]] else [])
  }

  /** What is left of an entry after the permission checks: itself, a smaller group, or nothing. */
  function Resolved(e: Entry): seq<Entry> {
    match e
    case Section(_) => [e]
    case Item(_, visible) => if visible then [e] else []
    case Group(name, visible, children) =>
      if visible && VisibleChildren(children) != [] then [Group(name, visible, VisibleChildren(children))] else []
  }

  function ResolvedAll(es: seq<Entry>): seq<Entry> {
    if es == [] then [] else ResolvedAll(es[..|es| - 1]) + Resolved(es[|es| - 1])
  }

  // ---- the reference: one pass from the right ----

  /** es cleaned; `item` tells whether an item follows es before the next section. */
  function Clean(es: seq<Entry>, item: bool): seq<Entry>
    decreases |es|
  {
    if es == [] then []
    else
      var e, rest := es[|es| - 1], es[..|es| - 1];
      if e.Section? then (if item then Clean(rest, false) + [e] else Clean(rest, false))
      else Clean(rest, item || e.Item?) + [e]
  }

  // ---- the code ----

  method NextSectionSpan(entries: seq<Entry>, start: nat) returns (span: nat)
    requires start <= |entries|
    ensures start + span <= |entries|
    ensures forall k :: start <= k < start + span ==> !entries[k].Section?
    ensures start + span < |entries| ==> entries[start + span].Section?
  {
    for offset := 0 to |entries| - start
      invariant forall k :: start <= k < start + offset ==> !entries[k].Section?
    {
      if entries[start + offset].Section? { return offset; }
    }
    return |entries| - start;
  }

  method GetNav(nav: seq<Entry>) returns (cleaned: seq<Entry>)
    ensures cleaned == Clean(ResolvedAll(nav), false)
  {
    var resolved := [];
    for i := 0 to |nav|
      invariant resolved == ResolvedAll(nav[..i])
    {
      assert nav[..i + 1][..i] == nav[..i];
      var e := nav[i];
      match e
      case Section(_) => resolved := resolved + [e];
      case Item(_, visible) => if visible { resolved := resolved + [e]; }
      case Group(name, visible, children) =>
        if visible {
          var kept: seq<Child> := [];
          for j := 0 to |children|
            invariant kept == VisibleChildren(children[..j])
          {
            assert children[..j + 1][..j] == children[..j];
            if children[j].visible { kept := kept + [children[j]]; }
          }
          assert children[..|children|] == children;
          if kept != [] { resolved := resolved + [Group(name, visible, kept)]; }
        }
    }
    assert nav[..|nav|] == nav;
    cleaned := [];
    for i := 0 to |resolved|
      invariant cleaned == Clean(resolved[..i], ItemAhead(resolved, i))
    {
      assert resolved[..i + 1][..i] == resolved[..i];
      var e := resolved[i];
      if e.Section? {
        var span := NextSectionSpan(resolved, i + 1);
        var hasItemAfter := exists k :: i + 1 <= k < i + 1 + span && resolved[k].Item?;
        ItemAheadIs(resolved, i + 1, span);
        if hasItemAfter { cleaned := cleaned + [e]; }
      } else {
        cleaned := cleaned + [e];
      }
    }
    assert resolved[..|resolved|] == resolved;
  }

  /** An item stands at or after position i, before any section. */
  ghost predicate ItemAhead(es: seq<Entry>, i: nat)
    requires i <= |es|
    decreases |es| - i
  {
    i < |es| && !es[i].Section? && (es[i].Item? || ItemAhead(es, i + 1))
  }

  lemma {:induction false} ItemAheadIs(es: seq<Entry>, i: nat, span: nat)
    requires i + span <= |es|
    requires forall k :: i <= k < i + span ==> !es[k].Section?
    requires i + span < |es| ==> es[i + span].Section?
    ensures ItemAhead(es, i) <==> exists k :: i <= k < i + span && es[k].Item?
    decreases span
  {
    if span == 0 {
    } else {
      ItemAheadIs(es, i + 1, span - 1);
    }
  }

  // ---- what cleaning guarantees ----

  function WithoutSections(es: seq<Entry>): seq<Entry> {
    if es == [] then []
    else WithoutSections(es[..|es| - 1]) + (if es[|es| - 1].Section? then [] else [es[|es| - 1]])
  }

  lemma {:induction false} WithoutSectionsOfOneMore(es: seq<Entry>, e: Entry)
    ensures WithoutSections(es + [e]) == WithoutSections(es) + (if e.Section? then [] else [e])
  {
    assert (es + [e])[..|es|] == es;
  }

  /** Items and groups all stay, in order; only section headers can go. */
  lemma {:induction false} CleaningKeepsEntries(es: seq<Entry>, item: bool)
    ensures WithoutSections(Clean(es, item)) == WithoutSections(es)
    decreases |es|
  {
    if es == [] {
    } else {
      var e, rest := es[|es| - 1], es[..|es| - 1];
      var more := if e.Section? then false else item || e.Item?;
      CleaningKeepsEntries(rest, more);
      WithoutSectionsOfOneMore(Clean(rest, more), e);
    }
  }

  /** Every section header is followed by an item before the next header; `item` speaks for what follows es. */
  ghost predicate Tidy(es: seq<Entry>, item: bool)
    decreases |es|
  {
    es == [] || (var e, rest := es[|es| - 1], es[..|es| - 1];
      if e.Section? then item && Tidy(rest, false) else Tidy(rest, item || e.Item?))
  }

  lemma {:induction false} CleanIsTidy(es: seq<Entry>, item: bool)
    ensures Tidy(Clean(es, item), item)
    decreases |es|
  {
    if es == [] {
    } else {
      var e, rest := es[|es| - 1], es[..|es| - 1];
      var more := if e.Section? then false else item || e.Item?;
      CleanIsTidy(rest, more);
      assert (Clean(rest, more) + [e])[..|Clean(rest, more)|] == Clean(rest, more);
      if e.Section? && !item { TidyWeaken(Clean(rest, false)); }
    }
  }

  lemma {:induction false} TidyWeaken(es: seq<Entry>)
    requires Tidy(es, false)
    ensures Tidy(es, true)
    decreases |es|
  {
    if es != [] && !es[|es| - 1].Section? {
      if !es[|es| - 1].Item? { TidyWeaken(es[..|es| - 1]); }
    }
  }

  lemma {:induction false} TidyStaysAsItIs(es: seq<Entry>, item: bool)
    requires Tidy(es, item)
    ensures Clean(es, item) == es
    decreases |es|
  {
    if es == [] {
    } else {
      var e, rest := es[|es| - 1], es[..|es| - 1];
      TidyStaysAsItIs(rest, if e.Section? then false else item || e.Item?);
      assert rest + [e] == es;
    }
  }

  /** Cleaning once is enough. */
  lemma {:induction false} CleaningIsIdempotent(es: seq<Entry>, item: bool)
    ensures Clean(Clean(es, item), item) == Clean(es, item)
  {
    CleanIsTidy(es, item);
    TidyStaysAsItIs(Clean(es, item), item);
  }

  /** In a tidy list an item stands behind every header, before the next one: no two headers are adjacent
      and none comes last. */
  lemma {:induction false} TidyHeadersLead(es: seq<Entry>, item: bool, i: nat)
    requires Tidy(es, item) && i < |es| && es[i].Section?
    ensures ItemAhead(es, i + 1) || (item && forall k :: i < k < |es| ==> !es[k].Section?)
    decreases |es|
  {
    var e, rest := es[|es| - 1], es[..|es| - 1];
    if i < |rest| {
      TidyHeadersLead(rest, if e.Section? then false else item || e.Item?, i);
      AheadInPrefix(es, i + 1);
    }
  }

  lemma {:induction false} AheadInPrefix(es: seq<Entry>, i: nat)
    requires i < |es|
    ensures ItemAhead(es[..|es| - 1], i) ==> ItemAhead(es, i)
    ensures (forall k :: i <= k < |es| ==> !es[k].Section?) && es[|es| - 1].Item? ==> ItemAhead(es, i)
    decreases |es| - i
  {
    if i + 1 < |es| { AheadInPrefix(es, i + 1); }
  }

  /** The sidebar never shows adjacent or trailing headers. */
  lemma {:induction false} NoDanglingHeaders(es: seq<Entry>, i: nat)
    requires i < |Clean(es, false)| && Clean(es, false)[i].Section?
    ensures i + 1 < |Clean(es, false)| && !Clean(es, false)[i + 1].Section?
  {
    CleanIsTidy(es, false);
    TidyHeadersLead(Clean(es, false), false, i);
  }

  // ---- which headers stay ----

  /** What the entries es, cleaned with `item`, pass on to their left. */
  function Carried(es: seq<Entry>, item: bool): bool
    decreases |es|
  {
    if es == [] then item
    else
      var e, rest := es[|es| - 1], es[..|es| - 1];
      if e.Section? then Carried(rest, false) else Carried(rest, item || e.Item?)
  }

  lemma {:induction false} CleanConcat(a: seq<Entry>, b: seq<Entry>, item: bool)
    ensures Clean(a + b, item) == Clean(a, Carried(b, item)) + Clean(b, item)
    decreases |b|
  {
    if b == [] {
      assert a + b == a;
    } else {
      var e, rest := b[|b| - 1], b[..|b| - 1];
      assert (a + b)[..|a + b| - 1] == a + rest;
      CleanConcat(a, rest, if e.Section? then false else item || e.Item?);
    }
  }

  predicate HasItem(es: seq<Entry>) {
    exists i :: 0 <= i < |es| && es[i].Item?
  }

  lemma {:induction false} CleanBody(body: seq<Entry>, item: bool)
    requires forall i :: 0 <= i < |body| ==> !body[i].Section?
    ensures Clean(body, item) == body && (Carried(body, item) <==> item || HasItem(body))
    decreases |body|
  {
    if body == [] {
    } else {
      var e, rest := body[|body| - 1], body[..|body| - 1];
      assert body == rest + [e];
      CleanBody(rest, item || e.Item?);
    }
  }

  lemma {:induction false} CarriedConcat(a: seq<Entry>, b: seq<Entry>, item: bool)
    ensures Carried(a + b, item) == Carried(a, Carried(b, item))
    decreases |b|
  {
    if b == [] {
      assert a + b == a;
    } else {
      var e, rest := b[|b| - 1], b[..|b| - 1];
      assert (a + b)[..|a + b| - 1] == a + rest;
      CarriedConcat(a, rest, if e.Section? then false else item || e.Item?);
    }
  }

  /** Wherever a header stands: what is before it and the sections behind it are cleaned by themselves, its own
      entries stay as they are, and it stays exactly if one of them is an item. */
  lemma {:induction false} HeaderStaysExactly(before: seq<Entry>, header: Entry, body: seq<Entry>, rest: seq<Entry>)
    requires header.Section? && forall i :: 0 <= i < |body| ==> !body[i].Section?
    requires rest == [] || rest[0].Section?
    ensures Clean(before + [header] + body + rest, false)
            == Clean(before, false) + (if HasItem(body) then [header] else []) + body + Clean(rest, false)
  {
    CleanConcat(before + [header] + body, rest, false);
    if rest != [] {
      assert rest == rest[..1] + rest[1..];
      CarriedConcat(rest[..1], rest[1..], false);
      assert rest[..1][..0] == [];
    }
    CleanConcat(before + [header], body, false);
    CleanBody(body, false);
    assert (before + [header])[..|before|] == before;
    assert Clean(before, false) + [] == Clean(before, false);
  }

  // ---- what the user gets to see ----

  /** A link of the sidebar: an item of its own, or a child of a group. */
  datatype Link = Link(group: Option<string>, name: string)

  function ChildLinks(group: string, cs: seq<Child>): seq<Link> {
    if cs == [] then [] else [Link(Some(group), cs[0].name)] + ChildLinks(group, cs[1..])
  }

  function PermittedLinks(group: string, cs: seq<Child>): seq<Link> {
    if cs == [] then []
    else (if cs[0].visible then [Link(Some(group), cs[0].name)] else []) + PermittedLinks(group, cs[1..])
  }

  /** The links of a sidebar, from top to bottom. */
  function Links(es: seq<Entry>): seq<Link> {
    if es == [] then []
    else (match es[0]
          case Section(_) => []
          case Item(name, _) => [Link(None, name)]
          case Group(name, _, children) => ChildLinks(name, children))
         + Links(es[1..])
  }

  /** The links of a configuration that the user may see: those with permission, inside groups with permission. */
  function Permitted(nav: seq<Entry>): seq<Link> {
    if nav == [] then []
    else (match nav[0]
          case Section(_) => []
          case Item(name, visible) => if visible then [Link(None, name)] else []
          case Group(name, visible, children) => if visible then PermittedLinks(name, children) else [])
         + Permitted(nav[1..])
  }

  lemma {:induction false} ResolvedConcat(a: seq<Entry>, b: seq<Entry>)
    ensures ResolvedAll(a + b) == ResolvedAll(a) + ResolvedAll(b)
  {
    if b == [] {
      assert a + b == a;
    } else {
      assert (a + b)[..|a + b| - 1] == a + b[..|b| - 1];
      ResolvedConcat(a, b[..|b| - 1]);
    }
  }

  lemma {:induction false} ChildrenConcat(a: seq<Child>, b: seq<Child>)
    ensures VisibleChildren(a + b) == VisibleChildren(a) + VisibleChildren(b)
  {
    if b == [] {
      assert a + b == a;
    } else {
      assert (a + b)[..|a + b| - 1] == a + b[..|b| - 1];
      ChildrenConcat(a, b[..|b| - 1]);
    }
  }

  lemma {:induction false} OneResolved(e: Entry)
    ensures ResolvedAll([e]) == Resolved(e)
  {
    assert [e][..0] == [] && ResolvedAll([]) == [];
  }

  lemma {:induction false} OneVisible(c: Child)
    ensures VisibleChildren([c]) == if c.visible then [c] else []
  {
    assert [c][..0] == [] && VisibleChildren([]) == [];
  }

  lemma {:induction false} LinksConcat(a: seq<Entry>, b: seq<Entry>)
    ensures Links(a + b) == Links(a) + Links(b)
  {
    if a == [] {
      assert a + b == b;
    } else {
      assert (a + b)[1..] == a[1..] + b;
      LinksConcat(a[1..], b);
    }
  }

  lemma {:induction false} ChildLinksConcat(group: string, a: seq<Child>, b: seq<Child>)
    ensures ChildLinks(group, a + b) == ChildLinks(group, a) + ChildLinks(group, b)
  {
    if a == [] {
      assert a + b == b;
    } else {
      assert (a + b)[1..] == a[1..] + b;
      ChildLinksConcat(group, a[1..], b);
    }
  }

  lemma {:induction false} VisibleChildrenLinks(group: string, cs: seq<Child>)
    ensures ChildLinks(group, VisibleChildren(cs)) == PermittedLinks(group, cs)
  {
    if cs == [] {
    } else {
      assert cs == [cs[0]] + cs[1..];
      ChildrenConcat([cs[0]], cs[1..]);
      OneVisible(cs[0]);
      VisibleChildrenLinks(group, cs[1..]);
      ChildLinksConcat(group, VisibleChildren([cs[0]]), VisibleChildren(cs[1..]));
    }
  }

  lemma {:induction false} ResolvedLinks(e: Entry)
    ensures Links(Resolved(e)) == Permitted([e])
  {
    assert Permitted([e]) == Permitted([e]) + Permitted([e][1..]);
    if e.Group? { VisibleChildrenLinks(e.name, e.children); }
  }

  lemma {:induction false} ResolvedAllLinks(nav: seq<Entry>)
    ensures Links(ResolvedAll(nav)) == Permitted(nav)
  {
    if nav == [] {
    } else {
      PermittedFirst(nav);
      ResolvedFirst(nav);
      LinksConcat(Resolved(nav[0]), ResolvedAll(nav[1..]));
      ResolvedLinks(nav[0]);
      ResolvedAllLinks(nav[1..]);
    }
  }

  lemma {:induction false} ResolvedFirst(nav: seq<Entry>)
    requires nav != []
    ensures ResolvedAll(nav) == Resolved(nav[0]) + ResolvedAll(nav[1..])
  {
    assert nav == [nav[0]] + nav[1..];
    ResolvedConcat([nav[0]], nav[1..]);
    OneResolved(nav[0]);
  }

  lemma {:induction false} PermittedFirst(nav: seq<Entry>)
    requires nav != []
    ensures Permitted(nav) == Permitted([nav[0]]) + Permitted(nav[1..])
  {
    assert [nav[0]][1..] == [] && Permitted([]) == [];
  }

  lemma {:induction false} HeadersAreNoLinks(es: seq<Entry>)
    ensures Links(WithoutSections(es)) == Links(es)
  {
    if es == [] {
    } else {
      var init, e := es[..|es| - 1], es[|es| - 1];
      assert es == init + [e];
      HeadersAreNoLinks(init);
      LinksConcat(init, [e]);
      LinksConcat(WithoutSections(init), if e.Section? then [] else [e]);
      assert [e][1..] == [] && Links([]) == [];
    }
  }

  /** The sidebar shows the links the user may see, all of them, in the configured order, and no others. */
  lemma {:induction false} ShowsWhatIsPermitted(nav: seq<Entry>)
    ensures Links(Clean(ResolvedAll(nav), false)) == Permitted(nav)
  {
    ResolvedAllLinks(nav);
    HeadersAreNoLinks(ResolvedAll(nav));
    HeadersAreNoLinks(Clean(ResolvedAll(nav), false));
    CleaningKeepsEntries(ResolvedAll(nav), false);
  }

  /** Only groups with something to show are shown. */
  lemma {:induction false} NoEmptyGroups(nav: seq<Entry>, e: Entry)
    requires e in Clean(ResolvedAll(nav), false) && e.Group?
    ensures e.visible && e.children != [] && forall i :: 0 <= i < |e.children| ==> e.children[i].visible
  {
    CleaningKeepsEntries(ResolvedAll(nav), false);
    WithoutSectionsElements(Clean(ResolvedAll(nav), false), e);
    WithoutSectionsElements(ResolvedAll(nav), e);
    ResolvedGroups(nav, e);
  }

  lemma {:induction false} WithoutSectionsElements(es: seq<Entry>, e: Entry)
    ensures e in WithoutSections(es) <==> e in es && !e.Section?
  {
    if es == [] {
    } else {
      assert es == es[..|es| - 1] + [es[|es| - 1]];
      WithoutSectionsElements(es[..|es| - 1], e);
    }
  }

  lemma {:induction false} ResolvedGroups(nav: seq<Entry>, e: Entry)
    requires e in ResolvedAll(nav) && e.Group?
    ensures e.visible && e.children != [] && forall i :: 0 <= i < |e.children| ==> e.children[i].visible
  {
    if e in ResolvedAll(nav[..|nav| - 1]) {
      ResolvedGroups(nav[..|nav| - 1], e);
    } else {
      AllVisible(nav[|nav| - 1].children);
    }
  }

  lemma {:induction false} AllVisible(cs: seq<Child>)
    ensures forall i :: 0 <= i < |VisibleChildren(cs)| ==> VisibleChildren(cs)[i].visible
  {
    if cs == [] {
    } else {
      AllVisible(cs[..|cs| - 1]);
    }
  }

  lemma {:induction false} NoSectionResolved(body: seq<Entry>)
    requires forall i :: 0 <= i < |body| ==> !body[i].Section?
    ensures forall i :: 0 <= i < |ResolvedAll(body)| ==> !ResolvedAll(body)[i].Section?
  {
    if body == [] {
    } else {
      NoSectionResolved(body[..|body| - 1]);
    }
  }

  lemma {:induction false} ItemsResolved(body: seq<Entry>)
    ensures HasItem(ResolvedAll(body)) <==> SeesItem(body)
  {
    if body == [] {
    } else {
      var init, e := body[..|body| - 1], body[|body| - 1];
      ItemsResolved(init);
      SeesItemLast(body);
      HasItemConcat(ResolvedAll(init), Resolved(e));
    }
  }

  lemma {:induction false} SeesItemLast(body: seq<Entry>)
    requires body != []
    ensures SeesItem(body) <==> SeesItem(body[..|body| - 1]) || HasItem(Resolved(body[|body| - 1]))
  {
    var init, e := body[..|body| - 1], body[|body| - 1];
    if SeesItem(init) {
      var i :| 0 <= i < |init| && init[i].Item? && init[i].visible;
      assert body[i] == init[i];
    }
    if e.Item? && e.visible { assert Resolved(e)[0].Item?; }
  }

  lemma {:induction false} HasItemConcat(a: seq<Entry>, b: seq<Entry>)
    ensures HasItem(a + b) <==> HasItem(a) || HasItem(b)
  {
    if HasItem(a) {
      var i :| 0 <= i < |a| && a[i].Item?;
      assert (a + b)[i] == a[i];
    }
    if HasItem(b) {
      var i :| 0 <= i < |b| && b[i].Item?;
      assert (a + b)[|a| + i] == b[i];
    }
  }

  /** One of the entries is an item that the user may see. */
  predicate SeesItem(body: seq<Entry>) {
    exists i :: 0 <= i < |body| && body[i].Item? && body[i].visible
  }

  /** A configured header is shown exactly if the user may see one of the items under it; groups do not count. */
  lemma {:induction false} HeaderShownExactly(before: seq<Entry>, header: Entry, body: seq<Entry>, rest: seq<Entry>)
    requires header.Section? && forall i :: 0 <= i < |body| ==> !body[i].Section?
    requires rest == [] || rest[0].Section?
    ensures Clean(ResolvedAll(before + [header] + body + rest), false)
            == Clean(ResolvedAll(before), false)
               + (if SeesItem(body) then [header] else [])
               + ResolvedAll(body) + Clean(ResolvedAll(rest), false)
  {
    ResolvedConcat(before + [header] + body, rest);
    ResolvedConcat(before + [header], body);
    ResolvedConcat(before, [header]);
    OneResolved(header);
    NoSectionResolved(body);
    ItemsResolved(body);
    if rest != [] { ResolvedFirst(rest); }
    HeaderStaysExactly(ResolvedAll(before), header, ResolvedAll(body), ResolvedAll(rest));
  }
}
