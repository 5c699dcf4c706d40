/** Automatic numbers of matters, invoices and data subject requests: PREFIX-00042, derived from the highest live id. */
module RecordNumbers {
  import opened Outcomes
  import opened Text

  /** A live row: its number and, if it got that automatically when it was created, what was counted. */
  datatype Row = Row(number: string, own: Option<nat>)

  type Rows = map<nat, Row>

  datatype Refusal = DuplicateNumber | NoSuchRow

  function MaxId(ids: set<nat>): (m: nat)
    requires ids != {}
    ensures m in ids && forall i :: i in ids ==> i <= m
  {
    MaxIdExists(ids);
    var m :| m in ids && forall i :: i in ids ==> i <= m;
    m
  }

  lemma {:induction false} MaxIdExists(ids: set<nat>)
    requires ids != {}
    ensures exists m :: m in ids && forall i :: i in ids ==> i <= m
  {
    var x :| x in ids;
    if ids - {x} != {} {
      MaxIdExists(ids - {x});
      var m :| m in ids - {x} && forall i :: i in ids - {x} ==> i <= m;
      var top := if m < x then x else m;
      assert top in ids && forall i :: i in ids ==> i <= top by {
        assert forall i :: i in ids ==> i == x || i in ids - {x};
      }
    } else {
      assert ids == {x};
    }
  }

  /** One more than the id of the last row, or 1. */
  function NextNumber(rows: Rows): nat {
    if rows == map[] then 1 else MaxId(rows.Keys) + 1
  }

  function Format(prefix: string, n: nat): string {
    prefix + Padded(n)
  }

  predicate Taken(rows: Rows, number: string) {
    exists id :: id in rows && rows[id].number == number
  }

  function Numbered(prefix: string, rows: Rows, given: string): string {
    if given == "" then Format(prefix, NextNumber(rows)) else given
  }

  /** Saving a new row: an empty number is filled in; the column is unique. The database gives the row an id
      above all live ones, `skipped` ids further than the next. */
  function Created(prefix: string, rows: Rows, given: string, skipped: nat): Result<Rows, Refusal> {
    var number := Numbered(prefix, rows, given);
    if Taken(rows, number) then Error(DuplicateNumber)
    else Ok(rows[NextNumber(rows) + skipped := Row(number, if given == "" then Some(NextNumber(rows)) else None)])
  }

  /** Saving a row again: a number that was emptied is filled in anew. */
  function Resaved(prefix: string, rows: Rows, id: nat, given: string): Result<Rows, Refusal> {
    if id !in rows then Error(NoSuchRow)
    else
      var number := Numbered(prefix, rows, given);
      if Taken(rows - {id}, number) then Error(DuplicateNumber)
      else Ok(rows[id := Row(number, if number == rows[id].number then rows[id].own else None)])
  }

  class NumberedTable {
    const prefix: string
    var rows: Rows

    constructor (prefix: string)
      ensures this.prefix == prefix && rows == map[]
    {
      this.prefix := prefix;
      rows := map[];
    }

    method Save(given: string, skipped: nat) returns (refusal: Option<Refusal>)
      modifies this
      ensures match Created(prefix, old(rows), given, skipped)
              case Ok(after) => rows == after && refusal == None
              case Error(why) => rows == old(rows) && refusal == Some(why)
    {
      var number := given;
      var next := if |rows| == 0 then 1 else MaxId(rows.Keys) + 1;
      if number == "" { number := prefix + Padded(next); }
      if Taken(rows, number) { return Some(DuplicateNumber); }
      rows := rows[next + skipped := Row(number, if given == "" then Some(next) else None)];
      return None;
    }

    method Resave(id: nat, given: string) returns (refusal: Option<Refusal>)
      modifies this
      ensures match Resaved(prefix, old(rows), id, given)
              case Ok(after) => rows == after && refusal == None
              case Error(why) => rows == old(rows) && refusal == Some(why)
    {
      if id !in rows { return Some(NoSuchRow); }
      var number := given;
      if number == "" { number := prefix + Padded(MaxId(rows.Keys) + 1); }
      if Taken(rows - {id}, number) { return Some(DuplicateNumber); }
      rows := rows[id := Row(number, if number == rows[id].number then rows[id].own else None)];
      return None;
    }

    method Delete(id: nat)
      modifies this
      ensures rows == old(rows) - {id}
    {
      rows := rows - {id};
    }
  }

  datatype Event = Create(given: string, skipped: nat) | Resave(id: nat, given: string) | Delete(id: nat)

  function Step(prefix: string, rows: Rows, e: Event): Rows {
    match e
    case Create(given, skipped) =>
      (match Created(prefix, rows, given, skipped) case Ok(after) => after case Error(_) => rows)
    case Resave(id, given) =>
      (match Resaved(prefix, rows, id, given) case Ok(after) => after case Error(_) => rows)
    case Delete(id) => rows - {id}
  }

  predicate StepAt(prefix: string, t: seq<Rows>, es: seq<Event>, m: nat)
    requires |t| == |es| + 1 && m < |es|
  {
    t[m + 1] == Step(prefix, t[m], es[m])
  }

  /** t are the tables of a run of the events es, from an empty one on. */
  predicate IsRun(prefix: string, t: seq<Rows>, es: seq<Event>) {
    |t| == |es| + 1 && t[0] == map[] && forall m: nat :: m < |es| ==> StepAt(prefix, t, es, m)
  }

  /** The row's automatic number, if it has one, is at most its id. */
  predicate OwnNumber(prefix: string, id: nat, row: Row) {
    row.own.Some? ==> 1 <= row.own.value <= id && row.number == Format(prefix, row.own.value)
  }

  ghost predicate WellNumbered(prefix: string, rows: Rows) {
    && (forall id :: id in rows ==> OwnNumber(prefix, id, rows[id]))
    && (forall i, j :: i in rows && j in rows && i != j ==> rows[i].number != rows[j].number)
  }

  lemma {:induction false} FormatIsInjective(prefix: string, m: nat, n: nat)
    ensures Format(prefix, m) == Format(prefix, n) ==> m == n
  {
    assert Format(prefix, m)[|prefix|..] == Padded(m);
    assert Format(prefix, n)[|prefix|..] == Padded(n);
    RenderingsAreInjective(m, n);
  }

  /** The next number is free of every automatic number: those do not exceed the ids they stand on. */
  lemma {:induction false} NextIsNoOwnNumber(prefix: string, rows: Rows, id: nat)
    requires id in rows && rows[id].own.Some? && OwnNumber(prefix, id, rows[id])
    ensures rows[id].number != Format(prefix, NextNumber(rows))
  {
    FormatIsInjective(prefix, rows[id].own.value, NextNumber(rows));
  }

  /** In every run of creations, re-saves and deletions, a number given automatically to a new row is at most the
      id of its row, and all live numbers differ. */
  lemma {:induction false} NumbersStayUnique(prefix: string, t: seq<Rows>, es: seq<Event>, n: nat)
    requires IsRun(prefix, t, es) && n <= |es|
    ensures WellNumbered(prefix, t[n])
  {
    if n == 0 {
    } else {
      NumbersStayUnique(prefix, t, es, n - 1);
      StepKeepsNumbers(prefix, t[n - 1], es[n - 1]);
      assert StepAt(prefix, t, es, n - 1);
    }
  }

  lemma {:induction false} StepKeepsNumbers(prefix: string, rows: Rows, e: Event)
    requires WellNumbered(prefix, rows)
    ensures WellNumbered(prefix, Step(prefix, rows, e))
  {
    if e.Create? && Created(prefix, rows, e.given, e.skipped).Ok? {
      assert NextNumber(rows) + e.skipped !in rows;
    } else if e.Resave? && Resaved(prefix, rows, e.id, e.given).Ok? {
      forall i | i in rows && i != e.id ensures rows[i].number != Numbered(prefix, rows, e.given) {
        assert i in rows - {e.id} && (rows - {e.id})[i] == rows[i];
      }
    }
  }

  /** Automatic numbering is refused exactly if a live row carries the next number that did not get it
      automatically when it was created: one numbered by hand, or emptied and saved again. */
  lemma {:induction false} AutomaticNumberRefusedExactly(prefix: string, t: seq<Rows>, es: seq<Event>, n: nat,
                                                         skipped: nat)
    requires IsRun(prefix, t, es) && n <= |es|
    ensures Created(prefix, t[n], "", skipped).Error?
            <==> exists id :: id in t[n] && t[n][id].own.None? && t[n][id].number == Format(prefix, NextNumber(t[n]))
  {
    NumbersStayUnique(prefix, t, es, n);
    forall id | id in t[n] && t[n][id].own.Some? ensures t[n][id].number != Format(prefix, NextNumber(t[n])) {
      NextIsNoOwnNumber(prefix, t[n], id);
    }
  }

  /** The row a new record without a number gets: its id is above all live ones, and its number is the prefix and
      the number that follows the largest live id, or 1. */
  lemma {:induction false} AutomaticNumberExactly(prefix: string, rows: Rows, skipped: nat) returns (id: nat, n: nat)
    requires Created(prefix, rows, "", skipped).Ok?
    ensures Created(prefix, rows, "", skipped).value == rows[id := Row(prefix + Padded(n), Some(n))]
    ensures (forall i :: i in rows ==> i < n) && 1 <= n <= id
    ensures if rows == map[] then n == 1 else n - 1 in rows
    ensures Digits(Padded(n)) && Parse(Padded(n)) == n && |Padded(n)| >= 5
  {
    n := NextNumber(rows);
    id := n + skipped;
    PaddedExactly(n);
  }

  /** Saving a row, new or not, in full: a duplicate number is refused, by whomever it was brought in. */
  lemma {:induction false} SavesExactly(prefix: string, rows: Rows, id: nat, given: string, skipped: nat)
    requires given != ""
    ensures Created(prefix, rows, given, skipped).Ok? <==> forall i :: i in rows ==> rows[i].number != given
    ensures Resaved(prefix, rows, id, given).Ok?
            <==> id in rows && forall i :: i in rows && i != id ==> rows[i].number != given
    ensures Resaved(prefix, rows, id, given).Ok? ==>
              var after := Resaved(prefix, rows, id, given).value;
              && after.Keys == rows.Keys && after[id].number == given
              && forall i :: i in rows && i != id ==> after[i] == rows[i]
    ensures Created(prefix, rows, given, skipped).Ok? ==>
              exists free: nat :: free !in rows
                && Created(prefix, rows, given, skipped).value == rows[free := Row(given, None)]
  {
    if id in rows {
      assert forall i :: i in rows - {id} <==> i in rows && i != id;
      assert forall i :: i in rows && i != id ==> (rows - {id})[i] == rows[i];
    }
    assert NextNumber(rows) + skipped !in rows;
  }

  /** An event that brings in no number but automatic ones. */
  predicate Plain(rows: Rows, e: Event) {
    match e
    case Create(given, _) => given == ""
    case Resave(id, given) => given != "" && (id in rows ==> given == rows[id].number)
    case Delete(_) => true
  }

  predicate AllOwn(rows: Rows) {
    forall id :: id in rows ==> rows[id].own.Some?
  }

  lemma {:induction false} PlainKeepsOwn(prefix: string, rows: Rows, e: Event)
    requires AllOwn(rows) && Plain(rows, e)
    ensures AllOwn(Step(prefix, rows, e))
  {
  }

  lemma {:induction false} PlainRunsOwn(prefix: string, t: seq<Rows>, es: seq<Event>, n: nat)
    requires IsRun(prefix, t, es) && n <= |es| && forall m :: 0 <= m < n ==> Plain(t[m], es[m])
    ensures AllOwn(t[n])
  {
    if n == 0 {
    } else {
      PlainRunsOwn(prefix, t, es, n - 1);
      PlainKeepsOwn(prefix, t[n - 1], es[n - 1]);
      assert StepAt(prefix, t, es, n - 1);
    }
  }

  /** Where no numbers are typed in and none is emptied, no creation is ever refused. */
  lemma {:induction false} AutomaticRunsNeverCollide(prefix: string, t: seq<Rows>, es: seq<Event>, n: nat, skipped: nat)
    requires IsRun(prefix, t, es) && n <= |es| && forall m :: 0 <= m < n ==> Plain(t[m], es[m])
    ensures Created(prefix, t[n], "", skipped).Ok?
  {
    PlainRunsOwn(prefix, t, es, n);
    AutomaticNumberRefusedExactly(prefix, t, es, n, skipped);
  }

  // ---- how automatic numbering gets stuck ----

  /** The event can leave the table as it is only: an automatic creation, a number already taken, a row that is
      not there. */
  predicate Idle(rows: Rows, e: Event) {
    match e
    case Create(given, _) => given == "" || Taken(rows, given)
    case Resave(id, _) => id !in rows
    case Delete(id) => id !in rows
  }

  /** A refused automatic creation is refused again and again, until a row is deleted, saved again, or one is
      created with a new number typed in. */
  lemma {:induction false} RefusalLasts(prefix: string, t: seq<Rows>, es: seq<Event>, m: nat, n: nat, skipped: nat)
    requires IsRun(prefix, t, es) && m <= n <= |es| && Created(prefix, t[m], "", skipped).Error?
    requires forall k :: m <= k < n ==> Idle(t[m], es[k])
    ensures t[n] == t[m]
  {
    forall k | m <= k < n ensures Leaves(prefix, t[m], es[k]) { IdleStep(prefix, t[m], es[k], skipped); }
    StaysAsItIs(prefix, t, es, m, n);
  }

  predicate Leaves(prefix: string, rows: Rows, e: Event) {
    Step(prefix, rows, e) == rows
  }

  lemma {:induction false} StaysAsItIs(prefix: string, t: seq<Rows>, es: seq<Event>, m: nat, n: nat)
    requires IsRun(prefix, t, es) && m <= n <= |es| && forall k :: m <= k < n ==> Leaves(prefix, t[m], es[k])
    ensures t[n] == t[m]
    decreases n
  {
    if n == m {
    } else {
      StaysAsItIs(prefix, t, es, m, n - 1);
      assert Leaves(prefix, t[m], es[n - 1]) && StepAt(prefix, t, es, n - 1);
    }
  }

  lemma {:induction false} IdleStep(prefix: string, rows: Rows, e: Event, skipped: nat)
    requires Created(prefix, rows, "", skipped).Error? && Idle(rows, e)
    ensures Leaves(prefix, rows, e)
  {
  }

  /** One number typed in is enough: whoever creates the first row and types the number that the next one would
      get blocks all automatic numbering. */
  lemma {:induction false} OneTypedNumberBlocks(prefix: string, gap: nat, skipped: nat)
    ensures var rows := Step(prefix, map[], Create(Format(prefix, gap + 2), gap));
            rows.Keys == {gap + 1} && Created(prefix, rows, "", skipped).Error?
  {
    assert |Padded(gap + 2)| > 0;
    var rows := Step(prefix, map[], Create(Format(prefix, gap + 2), gap));
    assert rows == map[gap + 1 := Row(Format(prefix, gap + 2), None)];
    assert rows.Keys == {gap + 1} && rows != map[];
    assert gap + 1 in rows && rows[gap + 1].number == Format(prefix, NextNumber(rows));
  }

  /** So is one emptied number: the row that is saved again takes the number the next creation would get. */
  lemma {:induction false} OneEmptiedNumberBlocks(prefix: string, rows: Rows, id: nat, skipped: nat)
    requires Resaved(prefix, rows, id, "").Ok?
    ensures Created(prefix, Resaved(prefix, rows, id, "").value, "", skipped).Error?
  {
    var after := Resaved(prefix, rows, id, "").value;
    assert after.Keys == rows.Keys && after[id].number == Format(prefix, NextNumber(rows));
  }
}
